/** parseConfig, line by line, as functions of the map and the parser's state
    (src/core/kconfigini.cpp:33-284). IniParserLoop.dfy holds the loops. */
module IniParser {
  import opened Bytes
  import opened IniCodec
  import opened EntryMap

  const DEFAULT_GROUP: bytes := [60, 100, 101, 102, 97, 117, 108, 116, 62] // "<default>"
  const EN_US: bytes := [101, 110, 95, 85, 83] // "en_US"
  const UPPER_C: byte := 67
  const MAX_ERRORS: nat := 100

  datatype ParseOptions = ParseOptions(locale: bytes, global: bool, defaults: bool, expansions: bool, merging: bool)

  /** The part of the locale before the first '_'. */
  function Language(locale: bytes): bytes {
    var i := IndexOf(locale, UNDERSCORE);
    if i >= 0 then locale[..i] else locale
  }

  /** What parseConfig keeps from line to line. */
  datatype ParseState = ParseState(
    m: Entries,
    group: bytes,
    fileImmutable: bool,
    groupImmutable: bool,
    groupSkip: bool,
    immutableGroups: seq<bytes>,
    errors: nat)

  // ---------------------------------------------------------------------------
  // Group headers
  // ---------------------------------------------------------------------------

  datatype HeaderResult = BadHeader | Header(name: bytes, fileImmutable: bool, groupImmutable: bool)

  /** The name read so far with one more component behind it. */
  function Joined(name: bytes, c: bytes): bytes {
    if name == [] then c else name + [SEPARATOR] + c
  }

  /** The parts of a header, tail being the line behind a '['. The part "$i" at the end of the
      line marks the group, or the whole file if no name precedes it. */
  function HeaderParts(tail: bytes, name: bytes, fileImmutable: bool, groupImmutable: bool): HeaderResult
    decreases |tail|
  {
    var e := IndexOf(tail, CLOSE);
    if e < 0 then BadHeader
    else
      var isOption := e + 1 == |tail| && tail[..e] == [DOLLAR, LOWER_I];
      var name' := if isOption then name else Joined(name, Decode(tail[..e]).out);
      var file' := fileImmutable || (isOption && name == []);
      var group' := groupImmutable || (isOption && name != []);
      if e + 1 < |tail| && tail[e + 1] == OPEN
      then HeaderParts(tail[e + 2..], name', file', group')
      else Header(name', file', group')
  }

  function ParseHeader(st: ParseState, line: bytes, opts: ParseOptions): ParseState
    requires line != []
  {
    match HeaderParts(line[1..], [], st.fileImmutable, st.fileImmutable)
    case BadHeader => st.(groupImmutable := st.fileImmutable)
    case Header(name, file, group) =>
      var skip := IsImmutable(st.m, name, [], NO_FLAGS);
      st.(group := name, fileImmutable := file, groupImmutable := group, groupSkip := skip,
          immutableGroups := if group && !(skip && !opts.defaults) then st.immutableGroups + [name]
              else st.immutableGroups)
  }

  // ---------------------------------------------------------------------------
  // Entries
  // ---------------------------------------------------------------------------

  datatype FlagResult = FlagResult(o: EntryOptions, deleted: bool)

  /** The characters between "[$" and "]"; 'd' ends the line at once. */
  function ScanFlags(cs: bytes, o: EntryOptions, opts: ParseOptions): FlagResult
    decreases |cs|
  {
    if cs == [] then FlagResult(o, false)
    else if cs[0] == LOWER_I then ScanFlags(cs[1..], o.(immutable := true), opts)
    else if cs[0] == LOWER_E then ScanFlags(cs[1..], o.(expansion := o.expansion || opts.expansions), opts)
    else if cs[0] == LOWER_D then FlagResult(o.(deleted := true, forDefault := o.forDefault || opts.defaults), true)
    else ScanFlags(cs[1..], o, opts)
  }

  datatype KeyResult = BadKey | DeletedKey(key: bytes, o: EntryOptions) | ParsedKey(key: bytes, o: EntryOptions,
                                           locale: QByteArray)

  /** Takes the bracketed parts off the key, the last one first. */
  function ParseKey(key: bytes, o: EntryOptions, locale: QByteArray, opts: ParseOptions): KeyResult
    decreases |key|
  {
    var start := LastIndexOf(key, OPEN);
    if start < 0 then ParsedKey(key, o, locale)
    else
      var tail := key[start..];
      var e := IndexOf(tail, CLOSE);
      if e < 0 then BadKey
      else
        assert tail[0] == OPEN;
        var part := tail[1..e];
        if part != [] && part[0] == DOLLAR then
          var r := ScanFlags(part[1..], o, opts);
          if r.deleted then DeletedKey(key[..start], r.o) else ParseKey(key[..start], r.o, locale, opts)
        else if locale.Data? then BadKey
        else ParseKey(key[..start], o, Data(part), opts)
  }

  /** A locale tag that concerns the reader; C stands for en_US. */
  predicate OwnLocale(tag: bytes, locale: bytes) {
    || tag == []
    || tag == locale
    || tag == Language(locale)
    || (tag[0] == UPPER_C && locale == EN_US)
  }

  /** A line `key=value` whose key has been taken apart. */
  function StoreEntry(st: ParseState, key: bytes, o: EntryOptions, locale: QByteArray, value: bytes,
                      opts: ParseOptions): ParseState {
    var raw := !OwnLocale(locale.Chars(), opts.locale);
    if raw && !opts.merging then st
    else
      var k := Decode(key).out;
      var v := Decode(value);
      var o' := o.(rawKey := raw,
                   global := opts.global,
                   forDefault := opts.defaults,
                   localized := locale.Data?,
                   localizedCountry := locale.Data? && UNDERSCORE in locale.data);
      var k' := if raw then k + [OPEN] + locale.Chars() + [CLOSE] else k;
      st.(m := SetEntry(st.m, st.group, k', Data(v.out), o').m, errors := st.errors + if v.ok then 0 else 1)
  }

  function ParseEntry(st: ParseState, line: bytes, opts: ParseOptions): ParseState {
    var eq := IndexOf(line, EQUALS);
    var key := if eq < 0 then line else Trimmed(line[..eq]);
    if key == [] then st
    else
      match ParseKey(key, NO_OPTIONS.(immutable := st.groupImmutable), Null, opts)
      case BadKey => st.(errors := st.errors + 1)
      case DeletedKey(k, o) => st.(m := SetEntry(st.m, st.group, Decode(k).out, Null, o).m)
      case ParsedKey(k, o, locale) =>
        if eq < 0 then st.(errors := st.errors + 1)
        else StoreEntry(st, k, o, locale, Trimmed(line[eq + 1..]), opts)
  }

  // ---------------------------------------------------------------------------
  // Lines and files
  // ---------------------------------------------------------------------------

  function ParseLine(st: ParseState, raw: bytes, opts: ParseOptions): ParseState {
    var line := Trimmed(raw);
    if line == [] || line[0] == HASH then st
    else if line[0] == OPEN then ParseHeader(st, line, opts)
    else if st.groupSkip && !opts.defaults then st
    else ParseEntry(st, line, opts)
  }

  /** The length of the first line, its newline included. */
  function FirstLine(text: bytes): (n: nat)
    requires text != []
    ensures 0 < n <= |text|
  {
    var i := IndexOf(text, NEWLINE);
    if i < 0 then |text| else i + 1
  }

  function ParseText(st: ParseState, text: bytes, opts: ParseOptions): ParseState
    decreases |text|
  {
    if text == [] || st.errors >= MAX_ERRORS then st
    else ParseText(ParseLine(st, text[..FirstLine(text)], opts), text[FirstLine(text)..], opts)
  }

  /** Groups become immutable only after all entries of the file have been added. */
  function MarkImmutable(m: Entries, groups: seq<bytes>): Entries
    decreases |groups|
  {
    if groups == [] then m
    else MarkImmutable(SetEntry(m, groups[0], [], Null, NO_OPTIONS.(immutable := true)).m, groups[1..])
  }

  datatype ParseInfo = ParseOk | ParseImmutable | ParseOpenError

  datatype ParseResult = ParseResult(m: Entries, info: ParseInfo)

  function InitialState(m: Entries): ParseState {
    ParseState(m, DEFAULT_GROUP, false, false, false, [], 0)
  }

  function Finish(st: ParseState): ParseResult {
    if st.errors > MAX_ERRORS then ParseResult(st.m, ParseOpenError)
    else ParseResult(MarkImmutable(st.m, st.immutableGroups), if st.fileImmutable then ParseImmutable else ParseOk)
  }

  function ParseConfig(text: bytes, m: Entries, opts: ParseOptions): ParseResult {
    Finish(ParseText(InitialState(m), text, opts))
  }
}
