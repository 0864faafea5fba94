/** parseConfig as it runs: the loops over the parts of a header, the brackets of a key, its
    flags, the lines of the file and the immutable groups (src/core/kconfigini.cpp:40-284).
    Each method is proved against the functions of module IniParser. */
module IniParserLoop {
  import opened Bytes
  import opened IniCodec
  import DecoderLoop
  import opened EntryMap
  import opened EntryMapObject
  import opened IniParser

  /** printableToString on a part of the line buffer. */
  method DecodePart(s: bytes) returns (d: Decoded)
    ensures d == Decode(s)
  {
    var buf := new byte[|s|](i requires 0 <= i < |s| => s[i]);
    assert buf[0..|s|] == s;
    var ok, lo, hi := DecoderLoop.PrintableToString(buf, 0, |s|);
    d := Decoded(ok, buf[lo..hi]);
  }

  // ---------------------------------------------------------------------------
  // Keys
  // ---------------------------------------------------------------------------

  /** The switch over the characters behind "[$"; it stops at a 'd'. */
  method ReadFlags(cs: bytes, options: EntryOptions, opts: ParseOptions) returns (r: FlagResult)
    ensures r == ScanFlags(cs, options, opts)
  {
    var o, i := options, 0;
    assert cs[0..] == cs;
    while i < |cs|
      invariant 0 <= i <= |cs|
      invariant ScanFlags(cs, options, opts) == ScanFlags(cs[i..], o, opts)
    {
      assert cs[i..][1..] == cs[i + 1..];
      if cs[i] == LOWER_I {
        o := o.(immutable := true);
      } else if cs[i] == LOWER_E {
        if opts.expansions {
          o := o.(expansion := true);
        }
      } else if cs[i] == LOWER_D {
        return FlagResult(o.(deleted := true, forDefault := o.forDefault || opts.defaults), true);
      }
      i := i + 1;
    }
    return FlagResult(o, false);
  }

  /** Takes flags and the locale tag off the key, from behind. */
  method TakeKeyApart(line: bytes, options: EntryOptions, opts: ParseOptions) returns (r: KeyResult)
    ensures r == ParseKey(line, options, Null, opts)
  {
    hide ScanFlags;
    var key, o, locale := line, options, Null;
    var start := LastIndexOf(key, OPEN);
    while start >= 0
      invariant start == LastIndexOf(key, OPEN)
      invariant ParseKey(line, options, Null, opts) == ParseKey(key, o, locale, opts)
      decreases |key|
    {
      var tail := key[start..];
      var end := IndexOf(tail, CLOSE);
      if end < 0 {
        return BadKey;
      }
      assert tail[0] == OPEN;
      if end > 1 && tail[1] == DOLLAR {
        assert tail[1..end][1..] == tail[2..end];
        var flags := ReadFlags(tail[2..end], o, opts);
        if flags.deleted {
          return DeletedKey(key[..start], flags.o);
        }
        o := flags.o;
      } else {
        if locale.Data? {
          return BadKey;
        }
        locale := Data(tail[1..end]);
      }
      key := key[..start];
      start := LastIndexOf(key, OPEN);
    }
    r := ParsedKey(key, o, locale);
  }

  // ---------------------------------------------------------------------------
  // Headers
  // ---------------------------------------------------------------------------

  /** The inner loop: the end of the part that begins at start. */
  method FindEnd(line: bytes, start: nat) returns (end: nat)
    requires start <= |line|
    ensures start <= end <= |line|
    ensures var e := IndexOf(line[start..], CLOSE); if e < 0 then end == |line| else end == start + e
  {
    end := start;
    while end < |line| && line[end] != CLOSE
      invariant start <= end <= |line|
      invariant CLOSE !in line[start..end]
    {
      assert line[start..end + 1] == line[start..end] + [line[end]];
      end := end + 1;
    }
    if end < |line| {
      IndexOfConcat(line[start..end], CLOSE, line[end + 1..]);
      assert line[start..] == line[start..end] + [CLOSE] + line[end + 1..];
    } else {
      assert line[start..] == line[start..end];
    }
  }

  /** A part of a header, by positions in the line. */
  lemma OnePart(line: bytes, start: nat, end: nat, name: bytes, file: bool, group: bool)
    requires start <= end < |line| && IndexOf(line[start..], CLOSE) == end - start
    ensures var isOption := end + 1 == |line| && line[start..end] == [DOLLAR, LOWER_I];
            var name' := if isOption then name else Joined(name, Decode(line[start..end]).out);
            var file' := file || (isOption && name == []);
            var group' := group || (isOption && name != []);
            HeaderParts(line[start..], name, file, group) ==
            if end + 1 < |line| && line[end + 1] == OPEN
            then HeaderParts(line[end + 2..], name', file', group')
            else Header(name', file', group')
  {
    hide Decode, Joined;
    var tail, e := line[start..], end - start;
    assert tail[..e] == line[start..end];
    if end + 1 < |line| {
      assert tail[e + 1] == line[end + 1] && tail[e + 2..] == line[end + 2..];
    }
  }

  /** The do-while loop over the bracketed parts. */
  method ReadHeader(line: bytes, fileImmutable: bool) returns (r: HeaderResult)
    requires line != []
    ensures r == HeaderParts(line[1..], [], fileImmutable, fileImmutable)
  {
    hide HeaderParts, IndexOf, Decode;
    var name, file, group, start := [], fileImmutable, fileImmutable, 1;
    while true
      invariant 1 <= start <= |line|
      invariant HeaderParts(line[1..], [], fileImmutable, fileImmutable)
                == HeaderParts(line[start..], name, file, group)
      decreases |line| - start
    {
      var end := FindEnd(line, start);
      if end == |line| {
        NoEnd(line[start..], name, file, group);
        return BadHeader;
      }
      OnePart(line, start, end, name, file, group);
      if end + 1 == |line| && start + 2 == end && line[start] == DOLLAR && line[start + 1] == LOWER_I {
        assert line[start..end] == [DOLLAR, LOWER_I];
        if name == [] {
          file := true;
        } else {
          group := true;
        }
      } else {
        assert end + 1 == |line| ==> line[start..end] != [DOLLAR, LOWER_I];
        var part := DecodePart(line[start..end]);
        name := if name == [] then part.out else name + [SEPARATOR] + part.out;
      }
      if end + 1 == |line| || line[end + 1] != OPEN {
        return Header(name, file, group);
      }
      start := end + 2;
    }
  }

  lemma NoEnd(tail: bytes, name: bytes, file: bool, group: bool)
    requires IndexOf(tail, CLOSE) < 0
    ensures HeaderParts(tail, name, file, group) == BadHeader
  {
  }

  // ---------------------------------------------------------------------------
  // Lines
  // ---------------------------------------------------------------------------

  /** What parseConfig keeps between two lines, and the map that it fills. */
  class Reader {
    const entryMap: KEntryMap
    const opts: ParseOptions
    var currentGroup: bytes
    var fileOptionImmutable: bool
    var groupOptionImmutable: bool
    var groupSkip: bool
    var immutableGroups: seq<bytes>
    var errorCount: nat

    ghost predicate Valid()
      reads this, entryMap
    {
      entryMap.Valid()
    }

    ghost function State(): ParseState
      reads this, entryMap
    {
      ParseState(entryMap.entries, currentGroup, fileOptionImmutable, groupOptionImmutable, groupSkip, immutableGroups,
          errorCount)
    }

    constructor (entryMap: KEntryMap, opts: ParseOptions)
      requires entryMap.Valid()
      ensures Valid() && this.entryMap == entryMap && this.opts == opts
      ensures State() == InitialState(entryMap.entries)
    {
      this.entryMap, this.opts := entryMap, opts;
      currentGroup, immutableGroups, errorCount := DEFAULT_GROUP, [], 0;
      fileOptionImmutable, groupOptionImmutable, groupSkip := false, false, false;
    }

    method ReadGroup(line: bytes)
      requires Valid() && line != []
      modifies this
      ensures Valid() && State() == ParseHeader(old(State()), line, opts)
    {
      hide HeaderParts, IsImmutable, KEntryMap.Valid;
      groupOptionImmutable := fileOptionImmutable;
      var header := ReadHeader(line, fileOptionImmutable);
      if header.BadHeader? {
        return;
      }
      currentGroup := header.name;
      fileOptionImmutable, groupOptionImmutable := header.fileImmutable, header.groupImmutable;
      groupSkip := IsImmutable(entryMap.entries, currentGroup, [], NO_FLAGS);
      if groupSkip && !opts.defaults {
        return;
      }
      if groupOptionImmutable {
        immutableGroups := immutableGroups + [currentGroup];
      }
    }

    /** The end of the branch for entries. */
    method Store(key: bytes, options: EntryOptions, locale: QByteArray, value: bytes)
      requires Valid()
      modifies this, entryMap
      ensures Valid() && State() == StoreEntry(old(State()), key, options, locale, value, opts)
    {
      hide Decode, KEntryMap.Valid, EntryMap.SetEntry;
      var raw := !OwnLocale(locale.Chars(), opts.locale);
      var k := DecodePart(key);
      if raw && !opts.merging {
        return;
      }
      var o := options.(rawKey := raw,
                        global := opts.global,
                        forDefault := opts.defaults,
                        localized := locale.Data?,
                        localizedCountry := locale.Data? && UNDERSCORE in locale.data);
      var v := DecodePart(value);
      if !v.ok {
        errorCount := errorCount + 1;
      }
      if raw {
        var _ := entryMap.SetEntry(currentGroup, k.out + [OPEN] + locale.Chars() + [CLOSE], Data(v.out), o);
      } else {
        var _ := entryMap.SetEntry(currentGroup, k.out, Data(v.out), o);
      }
    }

    method ReadEntry(line: bytes)
      requires Valid()
      modifies this, entryMap
      ensures Valid() && State() == ParseEntry(old(State()), line, opts)
    {
      hide Decode, KEntryMap.Valid, EntryMap.SetEntry, ParseKey, StoreEntry, Trimmed;
      var eq := IndexOf(line, EQUALS);
      var key := line;
      if eq >= 0 {
        key := Trimmed(line[..eq]);
      }
      if key == [] {
        return;
      }
      var r := TakeKeyApart(key, NO_OPTIONS.(immutable := groupOptionImmutable), opts);
      match r
      case BadKey =>
        errorCount := errorCount + 1;
      case DeletedKey(k, o) =>
        var d := DecodePart(k);
        var _ := entryMap.SetEntry(currentGroup, d.out, Null, o);
      case ParsedKey(k, o, locale) =>
        if eq < 0 {
          errorCount := errorCount + 1;
        } else {
          Store(k, o, locale, Trimmed(line[eq + 1..]));
        }
    }

    method ReadLine(raw: bytes)
      requires Valid()
      modifies this, entryMap
      ensures Valid() && State() == ParseLine(old(State()), raw, opts)
    {
      hide KEntryMap.Valid, ParseHeader, ParseEntry, Trimmed;
      var line := Trimmed(raw);
      if line == [] || line[0] == HASH {
        return;
      }
      if line[0] == OPEN {
        ReadGroup(line);
      } else if !groupSkip || opts.defaults {
        ReadEntry(line);
      }
    }

    /** The line loop; 100 errors end it. */
    method ReadText(text: bytes)
      requires Valid()
      modifies this, entryMap
      ensures Valid() && State() == ParseText(old(State()), text, opts)
    {
      hide KEntryMap.Valid, ParseLine, FirstLine;
      var pos := 0;
      assert text[0..] == text;
      while pos < |text| && errorCount < MAX_ERRORS
        invariant 0 <= pos <= |text|
        invariant Valid() && ParseText(old(State()), text, opts) == ParseText(State(), text[pos..], opts)
      {
        var n := FirstLine(text[pos..]);
        assert text[pos..][n..] == text[pos + n..];
        ReadLine(text[pos..][..n]);
        pos := pos + n;
      }
    }

    /** The loop behind the file. */
    method MarkGroups()
      requires Valid()
      modifies entryMap
      ensures Valid() && entryMap.entries == MarkImmutable(old(entryMap.entries), immutableGroups)
    {
      hide KEntryMap.Valid, EntryMap.SetEntry;
      var i := 0;
      assert immutableGroups[0..] == immutableGroups;
      while i < |immutableGroups|
        invariant 0 <= i <= |immutableGroups|
        invariant Valid()
        invariant MarkImmutable(old(entryMap.entries), immutableGroups)
                  == MarkImmutable(entryMap.entries, immutableGroups[i..])
      {
        assert immutableGroups[i..][1..] == immutableGroups[i + 1..];
        var _ := entryMap.SetEntry(immutableGroups[i], [], Null, NO_OPTIONS.(immutable := true));
        i := i + 1;
      }
    }
  }

  /** parseConfig. */
  method ParseFile(text: bytes, entryMap: KEntryMap, opts: ParseOptions) returns (info: ParseInfo)
    requires entryMap.Valid()
    modifies entryMap
    ensures entryMap.Valid() && ParseResult(entryMap.entries, info) == ParseConfig(text, old(entryMap.entries), opts)
  {
    hide KEntryMap.Valid, ParseText, MarkImmutable;
    var reader := new Reader(entryMap, opts);
    reader.ReadText(text);
    if reader.errorCount > MAX_ERRORS {
      return ParseOpenError;
    }
    reader.MarkGroups();
    return if reader.fileOptionImmutable then ParseImmutable else ParseOk;
  }

  // ---------------------------------------------------------------------------
  // The error limit
  // ---------------------------------------------------------------------------

  lemma LineErrors(st: ParseState, raw: bytes, opts: ParseOptions)
    ensures st.errors <= ParseLine(st, raw, opts).errors <= st.errors + 1
  {
    hide ParseHeader, ParseEntry, Trimmed;
    var line := Trimmed(raw);
    if line != [] && line[0] == OPEN {
      HeaderErrors(st, line, opts);
    }
    EntryErrors(st, line, opts);
  }

  lemma HeaderErrors(st: ParseState, line: bytes, opts: ParseOptions)
    requires line != []
    ensures ParseHeader(st, line, opts).errors == st.errors
  {
    hide HeaderParts, IsImmutable;
  }

  lemma EntryErrors(st: ParseState, line: bytes, opts: ParseOptions)
    ensures st.errors <= ParseEntry(st, line, opts).errors <= st.errors + 1
  {
    hide ParseKey, Decode, SetEntry, StoreEntry, Trimmed;
    var eq := IndexOf(line, EQUALS);
    var key := if eq < 0 then line else Trimmed(line[..eq]);
    var r := ParseKey(key, NO_OPTIONS.(immutable := st.groupImmutable), Null, opts);
    if eq >= 0 && r.ParsedKey? {
      StoreErrors(st, r.key, r.o, r.locale, Trimmed(line[eq + 1..]), opts);
    }
  }

  lemma StoreErrors(st: ParseState, key: bytes, o: EntryOptions, locale: QByteArray, value: bytes, opts: ParseOptions)
    ensures st.errors <= StoreEntry(st, key, o, locale, value, opts).errors <= st.errors + 1
  {
    hide Decode, SetEntry;
  }

  lemma {:induction false} TextErrors(st: ParseState, text: bytes, opts: ParseOptions)
    requires st.errors <= MAX_ERRORS
    ensures ParseText(st, text, opts).errors <= MAX_ERRORS
    decreases |text|
  {
    hide ParseLine, FirstLine;
    if text == [] || st.errors >= MAX_ERRORS {
    } else {
      LineErrors(st, text[..FirstLine(text)], opts);
      TextErrors(ParseLine(st, text[..FirstLine(text)], opts), text[FirstLine(text)..], opts);
    }
  }

  /** The limit is never exceeded, because the loop stops when it is reached: no file is ever
      refused for its errors, and the branch that would do it is dead. */
  lemma NeverTooManyErrors(text: bytes, m: Entries, opts: ParseOptions)
    ensures ParseConfig(text, m, opts).info != ParseOpenError
  {
    hide ParseText;
    TextErrors(InitialState(m), text, opts);
  }
}
