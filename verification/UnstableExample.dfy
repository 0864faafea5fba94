/** A key that is deleted by a sync of an object that has never read or written it, because the
    line behind it is printed without escaping (src/core/kconfigini.cpp:226-263, 346-353). */
module UnstableExample {
  import opened Bytes
  import opened IniCodec
  import opened CodecLaws
  import opened CodecTheorems
  import opened EntryMap
  import opened Immutability
  import opened Revert
  import opened IniParser
  import opened IniWriter
  import opened IniLines
  import opened IniEntries
  import opened TaggedLines
  import opened ParserRuns
  import opened RawLines
  import opened FileRoundTrip
  import opened Sync
  import opened Protocol
  import opened UnstableLines

  const FRENCH: bytes := [102, 114] // "fr"
  const K_KEY: bytes := [75] // "K"
  const DELETING: bytes := [75, 91, 36, 100, 93] // "K[$d]"
  const K_ENTRY: KEntryKey := KEntryKey(DEFAULT_GROUP, K_KEY, false, false)
  const RAW_ENTRY: KEntryKey := KEntryKey(DEFAULT_GROUP, DELETING + Bracketed(FRENCH), true, false)
  const Z_ENTRY: KEntryKey := KEntryKey(DEFAULT_GROUP, [90], false, false)

  /** `K=1` and `K\x5b$d\x5d[fr]=2`. */
  const K_LINES: seq<TaggedLine> := [TaggedLine(K_KEY, Null, [49]), TaggedLine(DELETING, Data(FRENCH), [50])]

  const K_LOADED: Entries := map[Marker(DEFAULT_GROUP) := NEW_ENTRY, K_ENTRY := NEW_ENTRY.(mValue := Data([49]))]
  const K_DISK: Entries := K_LOADED[RAW_ENTRY := NEW_ENTRY.(mValue := Data([50]), bRaw := true)]

  /** An object that has read nothing of it and has written `Z`. */
  const Z_MEMORY: Entries := map[Marker(DEFAULT_GROUP) := NEW_ENTRY,
      Z_ENTRY := NEW_ENTRY.(mValue := Data([]), bDirty := true)]
  const K_MERGED: Entries := K_DISK[Z_ENTRY := Z_MEMORY[Z_ENTRY]]

  lemma KFits()
    ensures KeyOk(K_KEY) && KeyOk(DELETING) && KeyOk([90]) && FlushSafe([], [49]) && FlushSafe([], [50])
            && FlushSafe([], [])
    ensures TagOk(FRENCH) && UNDERSCORE !in FRENCH
    ensures DELETING == K_KEY + Bracketed([DOLLAR, LOWER_D])
  {
    hide TagOk;
    assert FlushSafe([], DELETING[1..]) by {
      assert DELETING[1..][1..] == [36, 100, 93] && DELETING[1..][1..][1..] == [100, 93];
    }
    assert TagOk(FRENCH) by { FrenchTag(); }
  }

  lemma FrenchTag()
    ensures TagOk(FRENCH)
  {
  }

  lemma KCalls(merging: bool, locale: bytes)
    requires !OwnLocale(FRENCH, locale)
    ensures ParseText(InitialState(map[]), TaggedFile(K_LINES), ReadOptions(locale, merging))
         == InitialState(if merging then K_DISK else K_LOADED)
  {
    hide ParseLine, ParseText, TaggedLine.Text, OwnLocale, KeyOk, FlushSafe, TagOk;
    KFits();
    var opts := ReadOptions(locale, merging);
    var a, b := K_LINES[0], K_LINES[1];
    var st, st1 := InitialState(map[]), InitialState(K_LOADED);
    assert !a.Foreign(locale) by { PlainIsOwn(locale); }
    ReadTagged(st, a, opts);
    ParseOneLine(st, a.Text(), opts);
    assert ParseLine(st, a.Text() + [NEWLINE], opts) == st1;
    ReadTagged(st1, b, opts);
    ParseOneLine(st1, b.Text(), opts);
    assert DELETING + [OPEN] + FRENCH + [CLOSE] == DELETING + Bracketed(FRENCH);
    assert TaggedFile(K_LINES) == a.Text() + [NEWLINE] + (b.Text() + [NEWLINE]) by { TwoLines(a, b); }
    ParseTextConcat(st, a.Text() + [NEWLINE], b.Text() + [NEWLINE], opts);
  }

  lemma TwoLines(a: TaggedLine, b: TaggedLine)
    ensures TaggedFile([a, b]) == a.Text() + [NEWLINE] + (b.Text() + [NEWLINE])
  {
    hide TaggedLine.Text;
    assert [a, b][1..] == [b] && [b][1..] == [];
    assert TaggedFile([b]) == b.Text() + [NEWLINE] + [];
  }

  lemma KDiskEntry(x: KEntryKey, locale: bytes)
    requires x in K_DISK && x.mKey != [] && !OwnLocale(FRENCH, locale)
    ensures LooseEntryOk(x, K_DISK[x], locale) && (!K_DISK[x].bRaw ==> EntryOk(x, K_DISK[x], locale))
    ensures x == K_ENTRY || x == RAW_ENTRY
  {
    hide OwnLocale, KeyOk, FlushSafe, TagOk, RawBase, RawTag;
    KFits();
    FrenchTag();
    TagHasNoBrackets(FRENCH);
    RawKeyParts(DELETING, FRENCH);
  }

  lemma KFileOk(locale: bytes)
    requires LocaleOk(locale) && !OwnLocale(FRENCH, locale)
    ensures LooseFile(TaggedFile(K_LINES), locale)
    ensures OnDisk(TaggedFile(K_LINES), locale) == K_DISK && Loaded(TaggedFile(K_LINES), locale) == K_LOADED
  {
    hide ParseText, TaggedFile, OwnLocale, LocaleOk, LooseEntryOk, EntryOk, GroupOk;
    KCalls(true, locale);
    KCalls(false, locale);
    forall x | x in K_DISK && x.mKey != []
      ensures LooseEntryOk(x, K_DISK[x], locale) && x.mGroup == DEFAULT_GROUP
    {
      KDiskEntry(x, locale);
    }
    KReadersAgree();
    KMemoryOk();
  }

  lemma KReadersAgree()
    ensures ReadersAgree(K_DISK, K_LOADED)
  {
    assert K_ENTRY != RAW_ENTRY;
  }

  lemma KMemoryOk()
    ensures MemoryOk(K_LOADED) && MemoryOk(Z_MEMORY)
  {
    hide KeyOk, FlushSafe;
    KFits();
  }

  lemma KLess()
    ensures Below([], K_KEY) && Below(K_KEY, RAW_ENTRY.mKey) && Below(RAW_ENTRY.mKey, Z_ENTRY.mKey)
  {
    assert RAW_ENTRY.mKey[0] == 75 && K_KEY[1..] == [];
    assert RAW_ENTRY.mKey[1..] != [];
  }

  lemma KOrder()
    ensures InOrder(K_MERGED.Keys) == [Marker(DEFAULT_GROUP), K_ENTRY, RAW_ENTRY, Z_ENTRY]
  {
    hide Below, Bracketed;
    var ks := [Marker(DEFAULT_GROUP), K_ENTRY, RAW_ENTRY, Z_ENTRY];
    KLess();
    LessTransitive(ks[0], ks[1], ks[2]);
    LessTransitive(ks[1], ks[2], ks[3]);
    LessTransitive(ks[0], ks[1], ks[3]);
    assert K_MERGED.Keys == {ks[0], ks[1], ks[2], ks[3]};
    OneOrder(InOrder(K_MERGED.Keys), ks, K_MERGED.Keys);
  }

  /** The line of one of its keys in the merged file. */
  function MergedLine(x: KEntryKey, locale: bytes): bytes
    requires x in K_MERGED
  {
    EntryText(locale, x, K_MERGED[x]) + [NEWLINE]
  }

  lemma KPrinted(locale: bytes)
    ensures WriteEntries(K_MERGED, locale, Null)
         == MergedLine(K_ENTRY, locale) + MergedLine(RAW_ENTRY, locale) + MergedLine(Z_ENTRY, locale)
  {
    hide InOrder, EntryText, HeaderLines, WriteKeys;
    var m, pass := K_MERGED, Pass(true, false);
    var ks := [Marker(DEFAULT_GROUP), K_ENTRY, RAW_ENTRY, Z_ENTRY];
    var st := WriteState([], false, true, []);
    KOrder();
    KWriteKeys(ks, locale, st);
    var st1 := WritePass(m, ks, locale, Null, pass, st);
    NothingSelected(m, ks, locale, Null, Pass(false, false), st1.(group := [], immutable := false));
  }

  lemma KWriteKeys(ks: seq<KEntryKey>, locale: bytes, st: WriteState)
    requires ks == [Marker(DEFAULT_GROUP), K_ENTRY, RAW_ENTRY, Z_ENTRY] && st == WriteState([], false, true, [])
    ensures WriteKeys(K_MERGED, ks, locale, Null, Pass(true, false), st).out
         == MergedLine(K_ENTRY, locale) + MergedLine(RAW_ENTRY, locale) + MergedLine(Z_ENTRY, locale)
  {
    hide WriteOne, MergedLine;
    var a, b, c := MergedLine(K_ENTRY, locale), MergedLine(RAW_ENTRY, locale), MergedLine(Z_ENTRY, locale);
    WriteFirst(ks, locale, st);
    assert WriteOne(K_MERGED, ks[0], locale, Null, Pass(true, false), st) == st by { WriteMarker(locale, st); }
    WriteFirst(ks[1..], locale, st);
    WriteLine(K_ENTRY, locale, st);
    var st1 := st.(firstEntry := false, out := a);
    assert [] + a == a;
    WriteFirst(ks[1..][1..], locale, st1);
    WriteLine(RAW_ENTRY, locale, st1);
    var st2 := st.(firstEntry := false, out := a + b);
    WriteFirst(ks[1..][1..][1..], locale, st2);
    WriteLine(Z_ENTRY, locale, st2);
  }

  lemma WriteFirst(ks: seq<KEntryKey>, locale: bytes, st: WriteState)
    requires ks != [] && forall k :: k in ks ==> k in K_MERGED
    ensures var st' := WriteOne(K_MERGED, ks[0], locale, Null, Pass(true, false), st);
            WriteKeys(K_MERGED, ks, locale, Null, Pass(true, false), st)
                == WriteKeys(K_MERGED, ks[1..], locale, Null, Pass(true, false), st')
    ensures |ks| == 1 ==>
              WriteKeys(K_MERGED, ks, locale, Null, Pass(true, false), st)
              == WriteOne(K_MERGED, ks[0], locale, Null, Pass(true, false), st)
  {
    hide WriteOne;
  }

  lemma WriteMarker(locale: bytes, st: WriteState)
    requires st == WriteState([], false, true, [])
    ensures WriteOne(K_MERGED, Marker(DEFAULT_GROUP), locale, Null, Pass(true, false), st) == st
  {
    hide EntryText;
  }

  lemma WriteLine(x: KEntryKey, locale: bytes, st: WriteState)
    requires x in K_MERGED && x.mKey != []
    ensures WriteOne(K_MERGED, x, locale, Null, Pass(true, false), st)
            == st.(firstEntry := false, out := st.out + MergedLine(x, locale))
  {
    hide EntryText;
  }

  /** The printed line of the raw key is read as a deletion of the other one. */
  lemma RawLineDeletes(st: ParseState, locale: bytes, opts: ParseOptions)
    requires SameReader(opts, locale) && !OwnLocale(FRENCH, locale) && !st.groupSkip && !st.groupImmutable
             && st.errors == 0
    ensures ParseText(st, MergedLine(RAW_ENTRY, locale), opts)
         == st.(m := SetEntry(st.m, st.group, K_KEY, Null, NO_OPTIONS.(deleted := true)).m)
  {
    hide Tail, EntryText, OwnLocale, Trimmed, ParseEntry, SetEntry, FlushSafe, KeyOk, TagOk, RawTag, RawBase, ParseLine;
    var e := K_MERGED[RAW_ENTRY];
    KDiskEntry(RAW_ENTRY, locale);
    RawLineOf(RAW_ENTRY, e, locale);
    TagHasNoBrackets(FRENCH);
    RawKeyParts(DELETING, FRENCH);
    var l := AsRawLine(RAW_ENTRY, e);
    var line := l.base + Tail(l);
    TailShape(l, locale);
    EndsInTail(l.base, Tail(l));
    TrimNewline(line);
    ParseOneLine(st, line, opts);
    RawEntryDeletes(st, l, locale, opts);
    assert ParseLine(st, line + [NEWLINE], opts) == ParseEntry(st, line, opts) by { LineIsEntry(st, line, opts); }
  }

  lemma LineIsEntry(st: ParseState, line: bytes, opts: ParseOptions)
    requires Trimmed(line + [NEWLINE]) == line && line != [] && line[0] != HASH && line[0] != OPEN && !st.groupSkip
    ensures ParseLine(st, line + [NEWLINE], opts) == ParseEntry(st, line, opts)
  {
    hide ParseEntry, Trimmed;
  }

  lemma RawEntryDeletes(st: ParseState, l: RawLine, locale: bytes, opts: ParseOptions)
    requires SameReader(opts, locale) && l.Ok(locale) && l.base == DELETING && !l.immutable && !l.expand
             && !st.groupImmutable
    ensures ParseEntry(st, l.base + Tail(l), opts)
         == st.(m := SetEntry(st.m, st.group, K_KEY, Null, NO_OPTIONS.(deleted := true)).m)
  {
    hide Tail, OwnLocale, Trimmed, SetEntry, FlushSafe, KeyOk, TagOk, ParseKey, IndexOf, FlagText, Bracketed;
    KeyPart(l, DELETING, locale);
    RawParts(l, DELETING, NO_OPTIONS, locale, opts);
    KFits();
    BracketPart(K_KEY, [DOLLAR, LOWER_D], NO_OPTIONS, Data(l.tag), opts);
    ScanDeletion(opts);
    assert NO_OPTIONS.(immutable := false, expansion := false) == NO_OPTIONS;
  }

  lemma ScanDeletion(opts: ParseOptions)
    requires !opts.defaults
    ensures ScanFlags([DOLLAR, LOWER_D][1..], NO_OPTIONS, opts) == FlagResult(NO_OPTIONS.(deleted := true), true)
    ensures Decode(K_KEY).out == K_KEY
  {
  }

  const K_GONE: KEntry := NEW_ENTRY.(bDeleted := true)

  /** What a reader finds in the merged file. */
  lemma KReparsed(locale: bytes, merging: bool)
    requires LocaleOk(locale) && !OwnLocale(FRENCH, locale)
    ensures TextAt(ParseConfig(WriteEntries(K_MERGED, locale, Null), map[], ReadOptions(locale, merging)).m, K_ENTRY)
            == Deleted
  {
    hide LocaleOk, OwnLocale, EntryText, ParseLine, ParseText, WriteEntries, KeyOk, FlushSafe, MergedLine, SetEntry,
         Apply;
    var opts := ReadOptions(locale, merging);
    var st, st1 := InitialState(map[]), InitialState(K_LOADED);
    var a, b, c := MergedLine(K_ENTRY, locale), MergedLine(RAW_ENTRY, locale), MergedLine(Z_ENTRY, locale);
    KFits();
    KPrinted(locale);
    assert WholeLines(a) && WholeLines(b) && ParseText(st, a, opts) == st1 by { KFirstLine(locale, opts); }
    RawLineDeletes(st1, locale, opts);
    var st2 := st1.(m := SetEntry(K_LOADED, DEFAULT_GROUP, K_KEY, Null, NO_OPTIONS.(deleted := true)).m);
    KDeleted();
    ParseTextConcat(st, a, b, opts);
    assert WholeLines(a + b) by { WholeConcat(a, b); }
    ParseTextConcat(st, a + b, c, opts);
    KLastLine(st2, locale, opts);
  }

  lemma WholeConcat(a: bytes, b: bytes)
    requires WholeLines(a) && WholeLines(b)
    ensures WholeLines(a + b)
  {
  }

  lemma KDeleted()
    ensures var m := SetEntry(K_LOADED, DEFAULT_GROUP, K_KEY, Null, NO_OPTIONS.(deleted := true)).m;
            K_ENTRY in m && m[K_ENTRY] == K_GONE
  {
  }

  lemma KFirstLine(locale: bytes, opts: ParseOptions)
    requires LocaleOk(locale) && SameReader(opts, locale)
    ensures WholeLines(MergedLine(K_ENTRY, locale)) && WholeLines(MergedLine(RAW_ENTRY, locale))
    ensures ParseText(InitialState(map[]), MergedLine(K_ENTRY, locale), opts) == InitialState(K_LOADED)
  {
    hide LocaleOk, EntryText, ParseLine, ParseText, KeyOk, FlushSafe;
    KFits();
    var st, e := InitialState(map[]), K_MERGED[K_ENTRY];
    ReadEntry(st, K_ENTRY, e, locale, opts);
    ParseOneLine(st, EntryText(locale, K_ENTRY, e), opts);
    assert Entered(st, K_ENTRY, e, locale, opts) == InitialState(K_LOADED);
  }

  lemma KLastLine(st: ParseState, locale: bytes, opts: ParseOptions)
    requires LocaleOk(locale) && SameReader(opts, locale) && st == InitialState(st.m)
    requires K_ENTRY in st.m && st.m[K_ENTRY] == K_GONE
    ensures TextAt(Finish(ParseText(st, MergedLine(Z_ENTRY, locale), opts)).m, K_ENTRY) == Deleted
  {
    hide LocaleOk, EntryText, ParseLine, ParseText, KeyOk, FlushSafe, SetEntry;
    KFits();
    var e := K_MERGED[Z_ENTRY];
    ReadEntry(st, Z_ENTRY, e, locale, opts);
    ParseOneLine(st, EntryText(locale, Z_ENTRY, e), opts);
    OthersUntouched(st.m, Write(DEFAULT_GROUP, [90], e.mValue, OptionsOf(Z_ENTRY, e, locale, false)), K_ENTRY);
  }

  /** The key `K` is there, the object that syncs has never read or written it, and afterwards
      every reader takes it for deleted, because the line behind it is printed as `K[$d][fr]=2`. */
  lemma UncarriedKeyIsDeleted(locale: bytes)
    requires LocaleOk(locale) && !OwnLocale(FRENCH, locale)
    ensures var s := OnFile(Config(Z_MEMORY, true, false), TaggedFile(K_LINES));
            && LooseFile(s.file, locale) && MemoryOk(s.config.entryMap) && Writes(s.config)
               && !Carries(s.config.entryMap, K_ENTRY)
            && TextAt(OnDisk(s.file, locale), K_ENTRY) == TextAt(Loaded(s.file, locale), K_ENTRY)
               == Present(Data([49]), false, false)
            && TextAt(OnDisk(SyncFile(s, locale).file, locale), K_ENTRY) == Deleted
            && TextAt(Loaded(SyncFile(s, locale).file, locale), K_ENTRY) == Deleted
  {
    hide LocaleOk, OwnLocale, LooseFile, TaggedFile, ParseConfig, WriteEntries, MemoryOk;
    KFileOk(locale);
    KFileReads(locale);
    KMemoryOk();
    KReparsed(locale, true);
    KReparsed(locale, false);
    KMerged();
    assert Z_MEMORY[Z_ENTRY].bDirty;
  }

  lemma KFileReads(locale: bytes)
    requires LooseFile(TaggedFile(K_LINES), locale)
    ensures ParseConfig(TaggedFile(K_LINES), map[], ReadOptions(locale, true)).info == ParseOk
  {
    hide TaggedFile, ParseConfig;
  }

  lemma KMerged()
    ensures Merged(K_DISK, Z_MEMORY, false) == K_MERGED
  {
    assert K_ENTRY != Z_ENTRY && RAW_ENTRY != Z_ENTRY;
  }
}
