/** Parsing a file is a run of setEntry calls, so what holds along every run holds for files:
    the map keeps its shape, immutable entries and groups survive, and the cascade law decides
    between the lines of several files (src/core/kconfigini.cpp:40-284,
    src/core/kconfigdata.cpp:71-219). */
module ParserRuns {
  import opened Bytes
  import opened IniCodec
  import opened EntryMap
  import opened Immutability
  import opened Revert
  import opened Cascade
  import opened IniParser

  // ---------------------------------------------------------------------------
  // The calls that a file makes
  // ---------------------------------------------------------------------------

  function StoreWrites(st: ParseState, key: bytes, o: EntryOptions, locale: QByteArray, value: bytes,
                       opts: ParseOptions): seq<Write> {
    var raw := !OwnLocale(locale.Chars(), opts.locale);
    if raw && !opts.merging then []
    else
      var k := Decode(key).out;
      var o' := o.(rawKey := raw,
                   global := opts.global,
                   forDefault := opts.defaults,
                   localized := locale.Data?,
                   localizedCountry := locale.Data? && UNDERSCORE in locale.data);
      [Write(st.group, if raw then k + [OPEN] + locale.Chars() + [CLOSE] else k, Data(Decode(value).out), o')]
  }

  function EntryWrites(st: ParseState, line: bytes, opts: ParseOptions): seq<Write> {
    var eq := IndexOf(line, EQUALS);
    var key := if eq < 0 then line else Trimmed(line[..eq]);
    if key == [] then []
    else
      match ParseKey(key, NO_OPTIONS.(immutable := st.groupImmutable), Null, opts)
      case BadKey => []
      case DeletedKey(k, o) => [Write(st.group, Decode(k).out, Null, o)]
      case ParsedKey(k, o, locale) => if eq < 0 then []
          else StoreWrites(st, k, o, locale, Trimmed(line[eq + 1..]), opts)
  }

  /** A line makes at most one call. */
  function LineWrites(st: ParseState, raw: bytes, opts: ParseOptions): seq<Write> {
    var line := Trimmed(raw);
    if line == [] || line[0] == HASH || line[0] == OPEN || (st.groupSkip && !opts.defaults) then []
    else EntryWrites(st, line, opts)
  }

  function TextWrites(st: ParseState, text: bytes, opts: ParseOptions): seq<Write>
    decreases |text|
  {
    if text == [] || st.errors >= MAX_ERRORS then []
    else
      var n := FirstLine(text);
      LineWrites(st, text[..n], opts) + TextWrites(ParseLine(st, text[..n], opts), text[n..], opts)
  }

  function MarkWrites(groups: seq<bytes>): seq<Write>
    decreases |groups|
  {
    if groups == [] then []
    else [Write(groups[0], [], Null, NO_OPTIONS.(immutable := true))] + MarkWrites(groups[1..])
  }

  function FileWrites(text: bytes, m: Entries, opts: ParseOptions): seq<Write> {
    var st := ParseText(InitialState(m), text, opts);
    TextWrites(InitialState(m), text, opts) + if st.errors > MAX_ERRORS then [] else MarkWrites(st.immutableGroups)
  }

  // ---------------------------------------------------------------------------
  // Parsing is that run
  // ---------------------------------------------------------------------------

  lemma RunOne(m: Entries, w: Write)
    ensures Run(m, [w]) == SetEntry(m, w.g, w.k, w.value, w.o).m
    ensures Run(m, []) == m
  {
    hide SetEntry;
    assert [w][1..] == [];
  }

  lemma EntryIsRun(st: ParseState, line: bytes, opts: ParseOptions)
    ensures ParseEntry(st, line, opts).m == Run(st.m, EntryWrites(st, line, opts))
    ensures ParseEntry(st, line, opts) == st.(m := ParseEntry(st, line, opts).m,
            errors := ParseEntry(st, line, opts).errors)
  {
    hide SetEntry, Decode, ParseKey, Trimmed, OwnLocale, Run;
    var ws := EntryWrites(st, line, opts);
    var none := Write([], [], Null, NO_OPTIONS);
    RunOne(st.m, if ws == [] then none else ws[0]);
    if ws != [] {
      assert ws == [ws[0]];
    }
  }

  lemma LineIsRun(st: ParseState, raw: bytes, opts: ParseOptions)
    ensures ParseLine(st, raw, opts).m == Run(st.m, LineWrites(st, raw, opts))
  {
    hide ParseEntry, EntryWrites, HeaderParts, IsImmutable, Trimmed, Run;
    EntryIsRun(st, Trimmed(raw), opts);
    RunOne(st.m, Write([], [], Null, NO_OPTIONS));
  }

  lemma {:induction false} TextIsRun(st: ParseState, text: bytes, opts: ParseOptions)
    ensures ParseText(st, text, opts).m == Run(st.m, TextWrites(st, text, opts))
    decreases |text|
  {
    hide ParseLine, LineWrites, FirstLine, Apply;
    if text == [] || st.errors >= MAX_ERRORS {
    } else {
      var n := FirstLine(text);
      var st' := ParseLine(st, text[..n], opts);
      LineIsRun(st, text[..n], opts);
      TextIsRun(st', text[n..], opts);
      RunConcat(st.m, LineWrites(st, text[..n], opts), TextWrites(st', text[n..], opts));
    }
  }

  lemma {:induction false} MarkIsRun(m: Entries, groups: seq<bytes>)
    ensures MarkImmutable(m, groups) == Run(m, MarkWrites(groups))
    decreases |groups|
  {
    hide SetEntry;
    if groups == [] {
    } else {
      var w := Write(groups[0], [], Null, NO_OPTIONS.(immutable := true));
      MarkIsRun(Apply(m, w), groups[1..]);
      assert MarkWrites(groups)[1..] == MarkWrites(groups[1..]);
    }
  }

  /** Whatever the file contains, parsing it is a run of setEntry calls. */
  lemma ParsingIsRun(text: bytes, m: Entries, opts: ParseOptions)
    ensures ParseConfig(text, m, opts).m == Run(m, FileWrites(text, m, opts))
  {
    hide ParseText, TextWrites, Run, MarkWrites, MarkImmutable;
    var st := ParseText(InitialState(m), text, opts);
    var ws := TextWrites(InitialState(m), text, opts);
    TextIsRun(InitialState(m), text, opts);
    MarkIsRun(st.m, st.immutableGroups);
    RunConcat(m, ws, MarkWrites(st.immutableGroups));
    assert ws + [] == ws;
  }

  // ---------------------------------------------------------------------------
  // What no file can do
  // ---------------------------------------------------------------------------

  /** A file changes nothing about an entry that is immutable, with one exception: a localized
      one is erased by a line for the key without a tag, if the plain entry is there. */
  lemma FileKeepsImmutable(text: bytes, m: Entries, opts: ParseOptions, x: KEntryKey)
    requires x in m && m[x].bImmutable && x.mKey != []
    ensures !x.bLocal ==> SameAt(m, ParseConfig(text, m, opts).m, x)
    ensures x.bLocal ==>
            SameAt(m, ParseConfig(text, m, opts).m, x) || exists i: nat :: ErasedAt(m, FileWrites(text, m, opts), x, i)
  {
    hide ParseConfig, FileWrites, Run, ErasedAt, SameAt;
    ParsingIsRun(text, m, opts);
    var ws := FileWrites(text, m, opts);
    if x.bLocal {
      RunKeepsImmutableLocalized(m, ws, x);
    } else {
      RunKeepsImmutable(m, ws, x);
    }
  }

  /** Every file keeps the shape of the map. */
  lemma FileKeepsShape(text: bytes, m: Entries, opts: ParseOptions)
    requires WellKept(m)
    ensures WellKept(ParseConfig(text, m, opts).m)
  {
    hide ParseConfig, FileWrites, Run, WellKept;
    ParsingIsRun(text, m, opts);
    RunWellKept(m, FileWrites(text, m, opts));
  }

  /** The reader is not in the group, or skips what is in it, and will not mark it again. */
  ghost predicate Locked(m: Entries, st: ParseState, g: bytes) {
    && Marker(g) in st.m && st.m[Marker(g)].bImmutable
    && (forall x: KEntryKey :: x.mGroup == g ==> SameAt(m, st.m, x))
    && (st.group == g ==> st.groupSkip)
    && g !in st.immutableGroups
  }

  lemma WriteElsewhere(m: Entries, w: Write, g: bytes)
    requires w.g != g
    ensures forall x: KEntryKey :: x.mGroup == g ==> SameAt(m, Apply(m, w), x)
  {
    hide Apply;
    forall x: KEntryKey | x.mGroup == g
      ensures SameAt(m, Apply(m, w), x)
    {
      OthersUntouched(m, w, x);
    }
  }

  lemma EntryLocked(m: Entries, st: ParseState, g: bytes, line: bytes, opts: ParseOptions)
    requires Locked(m, st, g) && st.group != g
    ensures Locked(m, ParseEntry(st, line, opts), g)
  {
    hide Run, Apply, ParseEntry;
    EntryIsRun(st, line, opts);
    EntryWriteInGroup(st, line, opts);
    var ws := EntryWrites(st, line, opts);
    if ws == [] {
      RunOne(st.m, Write([], [], Null, NO_OPTIONS));
    } else {
      WriteElsewhere(st.m, ws[0], g);
      assert ws == [ws[0]];
      RunOfOne(st.m, ws[0]);
    }
    StillLocked(m, st, ParseEntry(st, line, opts), g);
  }

  lemma RunOfOne(m: Entries, w: Write)
    ensures Run(m, [w]) == Apply(m, w)
  {
    assert [w][1..] == [];
  }

  lemma StillLocked(m: Entries, st: ParseState, st': ParseState, g: bytes)
    requires Locked(m, st, g) && (forall x: KEntryKey :: x.mGroup == g ==> SameAt(st.m, st'.m, x))
    requires st'.group == st.group && st'.groupSkip == st.groupSkip && st'.immutableGroups == st.immutableGroups
    ensures Locked(m, st', g)
  {
    assert SameAt(st.m, st'.m, Marker(g));
    forall x: KEntryKey | x.mGroup == g
      ensures SameAt(m, st'.m, x)
    {
      assert SameAt(m, st.m, x) && SameAt(st.m, st'.m, x);
    }
  }

  lemma EntryWriteInGroup(st: ParseState, line: bytes, opts: ParseOptions)
    ensures |EntryWrites(st, line, opts)| <= 1
    ensures forall w :: w in EntryWrites(st, line, opts) ==> w.g == st.group
  {
    hide Decode, ParseKey, Trimmed, OwnLocale, IndexOf;
  }

  lemma HeaderLocked(m: Entries, st: ParseState, g: bytes, line: bytes, opts: ParseOptions)
    requires Locked(m, st, g) && line != [] && !opts.defaults
    ensures Locked(m, ParseHeader(st, line, opts), g)
  {
    hide HeaderParts;
  }

  lemma LineLocked(m: Entries, st: ParseState, g: bytes, raw: bytes, opts: ParseOptions)
    requires Locked(m, st, g) && !opts.defaults
    ensures Locked(m, ParseLine(st, raw, opts), g)
  {
    hide ParseHeader, ParseEntry, Trimmed;
    var line := Trimmed(raw);
    if line != [] {
      HeaderLocked(m, st, g, line, opts);
      if st.group != g {
        EntryLocked(m, st, g, line, opts);
      }
    }
  }

  lemma {:induction false} TextLocked(m: Entries, st: ParseState, g: bytes, text: bytes, opts: ParseOptions)
    requires Locked(m, st, g) && !opts.defaults
    ensures Locked(m, ParseText(st, text, opts), g)
    decreases |text|
  {
    hide Locked, ParseLine, FirstLine;
    if text == [] || st.errors >= MAX_ERRORS {
    } else {
      LineLocked(m, st, g, text[..FirstLine(text)], opts);
      TextLocked(m, ParseLine(st, text[..FirstLine(text)], opts), g, text[FirstLine(text)..], opts);
    }
  }

  lemma {:induction false} MarkElsewhere(m: Entries, groups: seq<bytes>, g: bytes)
    requires g !in groups
    ensures forall x: KEntryKey :: x.mGroup == g ==> SameAt(m, MarkImmutable(m, groups), x)
    decreases |groups|
  {
    hide SetEntry, Apply;
    if groups == [] {
    } else {
      var w := Write(groups[0], [], Null, NO_OPTIONS.(immutable := true));
      var n := SetEntry(m, groups[0], [], Null, NO_OPTIONS.(immutable := true)).m;
      assert n == Apply(m, w) by { RunOne(m, w); RunOfOne(m, w); }
      WriteElsewhere(m, w, g);
      MarkElsewhere(n, groups[1..], g);
      forall x: KEntryKey | x.mGroup == g
        ensures SameAt(m, MarkImmutable(m, groups), x)
      {
        assert SameAt(m, n, x) && SameAt(n, MarkImmutable(n, groups[1..]), x);
      }
    }
  }

  /** Once a group is immutable, a user's file changes nothing in it, not even entries that are
      not immutable themselves, and adds nothing to it. The default group is only closed to new
      entries, because the reader does not skip what comes before the first header. */
  lemma ImmutableGroupIsLocked(text: bytes, m: Entries, opts: ParseOptions, x: KEntryKey)
    requires Marker(x.mGroup) in m && m[Marker(x.mGroup)].bImmutable && !opts.defaults && x.mGroup != DEFAULT_GROUP
    ensures SameAt(m, ParseConfig(text, m, opts).m, x)
  {
    hide ParseText, MarkImmutable;
    var g := x.mGroup;
    var st := ParseText(InitialState(m), text, opts);
    TextLocked(m, InitialState(m), g, text, opts);
    MarkElsewhere(st.m, st.immutableGroups, g);
    assert SameAt(m, st.m, x) && SameAt(st.m, MarkImmutable(st.m, st.immutableGroups), x);
  }

  /** The default group is not locked like that: the lines before the first header are read
      even if the group is immutable, and replace what is not immutable itself. */
  lemma DefaultGroupIsNotSkipped(opts: ParseOptions, k: byte, v: byte, was: bytes)
    requires 97 <= k <= 122 && 97 <= v <= 122 && was != [v] && !opts.defaults
    ensures var x := Plain(DEFAULT_GROUP, [k]);
            var m := map[Marker(DEFAULT_GROUP) := NEW_ENTRY.(bImmutable := true), x := NEW_ENTRY.(mValue := Data(was))];
            && GetEntry(m, DEFAULT_GROUP, [k], Null, PLAIN) == Data(was)
            && GetEntry(ParseLine(InitialState(m), [k, EQUALS, v, NEWLINE], opts).m, DEFAULT_GROUP, [k], Null, PLAIN)
               == Data([v])
  {
    hide ParseLine;
    var x := Plain(DEFAULT_GROUP, [k]);
    var m := map[Marker(DEFAULT_GROUP) := NEW_ENTRY.(bImmutable := true), x := NEW_ENTRY.(mValue := Data(was))];
    ReadPlainLine(InitialState(m), k, v, opts);
    PlainApply(m, Write(DEFAULT_GROUP, [k], Data([v]), NO_OPTIONS.(global := opts.global)));
  }

  /** A line `k=v` in front of the first header. */
  lemma ReadPlainLine(st: ParseState, k: byte, v: byte, opts: ParseOptions)
    requires 97 <= k <= 122 && 97 <= v <= 122 && !opts.defaults && !st.groupSkip && !st.groupImmutable
    ensures ParseLine(st, [k, EQUALS, v, NEWLINE], opts).m
         == Apply(st.m, Write(st.group, [k], Data([v]), NO_OPTIONS.(global := opts.global)))
  {
    hide IndexOf, ParseKey, LastIndexOf, SetEntry;
    var line := [k, EQUALS, v];
    assert line + [NEWLINE] == [k, EQUALS, v, NEWLINE];
    TrimNewline(line);
    IndexOfConcat([k], EQUALS, [v]);
    assert [k] + [EQUALS] + [v] == line;
    assert line[..1] == [k] && line[2..] == [v];
    NoBrackets([k], NO_OPTIONS, opts);
  }

  lemma NoBrackets(key: bytes, o: EntryOptions, opts: ParseOptions)
    requires OPEN !in key
    ensures ParseKey(key, o, Null, opts) == ParsedKey(key, o, Null)
  {
  }

  // ---------------------------------------------------------------------------
  // The cascade of files
  // ---------------------------------------------------------------------------

  function ParseFiles(m: Entries, files: seq<bytes>, opts: ParseOptions): Entries
    decreases |files|
  {
    if files == [] then m else ParseFiles(ParseConfig(files[0], m, opts).m, files[1..], opts)
  }

  function FilesWrites(m: Entries, files: seq<bytes>, opts: ParseOptions): seq<Write>
    decreases |files|
  {
    if files == [] then []
    else FileWrites(files[0], m, opts) + FilesWrites(ParseConfig(files[0], m, opts).m, files[1..], opts)
  }

  lemma {:induction false} FilesAreRun(m: Entries, files: seq<bytes>, opts: ParseOptions)
    ensures ParseFiles(m, files, opts) == Run(m, FilesWrites(m, files, opts))
    decreases |files|
  {
    hide ParseConfig, FileWrites, Apply;
    if files == [] {
    } else {
      var m' := ParseConfig(files[0], m, opts).m;
      ParsingIsRun(files[0], m, opts);
      FilesAreRun(m', files[1..], opts);
      RunConcat(m, FileWrites(files[0], m, opts), FilesWrites(m', files[1..], opts));
    }
  }

  /** The cascade law for files: if none of their lines deletes, is localized or concerns a
      group as a whole, a lookup finds the value of the first immutable line for the key in any
      of the files, or else of the last line; and reverting brings back what the default files
      alone decide. */
  lemma CascadeOfFiles(ds: seq<bytes>, us: seq<bytes>, defaults: ParseOptions, user: ParseOptions,
                       g: bytes, k: bytes, fallback: QByteArray, o: EntryOptions)
    requires k != []
    requires AllLines(FilesWrites(map[], ds, defaults), true)
    requires AllLines(FilesWrites(ParseFiles(map[], ds, defaults), us, user), false)
    ensures var dw := FilesWrites(map[], ds, defaults);
            var uw := FilesWrites(ParseFiles(map[], ds, defaults), us, user);
            var m := ParseFiles(ParseFiles(map[], ds, defaults), us, user);
            && GetEntry(m, g, k, fallback, PLAIN) == Value(Winner(dw + uw, g, k), fallback)
            && GetEntry(RevertEntry(m, g, k, o, false).m, g, k, fallback, PLAIN) == Value(Winner(dw, g, k), fallback)
  {
    hide ParseFiles, FilesWrites, Run, Winner, AllLines, GetEntry, RevertEntry;
    var m1 := ParseFiles(map[], ds, defaults);
    var dw, uw := FilesWrites(map[], ds, defaults), FilesWrites(m1, us, user);
    FilesAreRun(map[], ds, defaults);
    FilesAreRun(m1, us, user);
    RunConcat(map[], dw, uw);
    CascadeLookup(dw, uw, g, k, fallback, o);
  }
}
