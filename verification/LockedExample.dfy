/** A change that an object accepts and shows, that a sync writes, and that no reader will ever
    see: the default files have closed the group without making its entries immutable
    (src/core/kconfigini.cpp:138-155, 278-281, src/core/kconfigdata.cpp:107-142). */
module LockedExample {
  import opened Bytes
  import opened IniCodec
  import opened CodecLaws
  import opened EntryMap
  import opened Immutability
  import opened Revert
  import opened IniParser
  import opened IniWriter
  import opened IniLines
  import opened IniEntries
  import opened ParserRuns
  import opened FileRoundTrip
  import opened Sync
  import opened Protocol
  import opened DefaultFiles
  import opened Clients
  import opened Durability
  import opened OverDefaults
  import opened DurabilityOverDefaults
  import opened CascadeFiles

  const GROUP: bytes := [71] // "G"
  const NAME: bytes := [75] // "K"
  const ENTRY: KEntryKey := KEntryKey(GROUP, NAME, false, false)

  /** `[G]` and `K=1`. */
  const FIRST: seq<FileLine> := [GroupLine(GROUP), EntryLine(NAME, [49], false, false)]

  /** The second file is `[G][$i]`. */
  function LockingFiles(): seq<bytes> {
    [FileText(FIRST), HeaderText(GROUP, true) + [NEWLINE]]
  }

  const ONE: KEntry := NEW_ENTRY.(mValue := Data([49]))
  const OPEN_BASE: Entries := map[Marker(GROUP) := NEW_ENTRY, Default(GROUP, NAME) := ONE, ENTRY := ONE]
  const LOCKED_BASE: Entries := OPEN_BASE[Marker(GROUP) := NEW_ENTRY.(bImmutable := true)]

  lemma NamesFit()
    ensures GroupOk(GROUP) && KeyOk(NAME) && FlushSafe([], [49]) && FlushSafe([], [50]) && GROUP != DEFAULT_GROUP
  {
    assert IndexOf(GROUP, SEPARATOR) < 0;
    assert |DEFAULT_GROUP| == 9;
  }

  lemma FirstFile(locale: bytes)
    ensures ParseConfig(FileText(FIRST), map[], DefaultOptions(locale)).m == OPEN_BASE
  {
    hide FileText, ParseConfig, SetEntry, Immutability.Run, GroupOk, KeyOk, FlushSafe;
    var opts := DefaultOptions(locale);
    var w := FIRST[1].Call(GROUP, opts);
    NamesFit();
    assert AllMutable(map[]);
    ReadFile(map[], FIRST, opts);
    assert FIRST[1..] == [FIRST[1]] && FIRST[1..][1..] == [];
    assert Calls([], GROUP, opts) == [] && Calls(FIRST[1..], GROUP, opts) == [w] + [] == [w];
    assert Calls(FIRST, DEFAULT_GROUP, opts) == Calls(FIRST[1..], GROUP, opts);
    RunOfOne(map[], w);
    FirstCall(w);
  }

  lemma FirstCall(w: Write)
    requires w == Write(GROUP, NAME, Data([49]), NO_OPTIONS.(forDefault := true))
    ensures Apply(map[], w) == OPEN_BASE
  {
    var m: Entries := map[];
    var s := Stored(m, w.g, w.k, w.value, w.o);
    assert s == map[Marker(GROUP) := NEW_ENTRY, Default(GROUP, NAME) := ONE];
    var o := w.o.(forDefault := false);
    assert SetEntry(s, w.g, w.k, w.value, o).m == SetNew(s, w.g, w.k, w.value, o).m;
    assert SetNew(s, w.g, w.k, w.value, o).m == Stored(s, w.g, w.k, w.value, o);
    assert Apply(m, w) == SetNew(m, w.g, w.k, w.value, w.o).m;
  }

  lemma SecondFile(locale: bytes)
    ensures ParseConfig(HeaderText(GROUP, true) + [NEWLINE], OPEN_BASE, DefaultOptions(locale)).m == LOCKED_BASE
  {
    hide HeaderText, ParseLine, ParseText, GroupOk, KeyOk;
    var opts, st := DefaultOptions(locale), InitialState(OPEN_BASE);
    NamesFit();
    HeaderPrintable(GROUP, true);
    ReadHeader(st, GROUP, true, opts);
    ParseOneLine(st, HeaderText(GROUP, true), opts);
    var st' := ParseText(st, HeaderText(GROUP, true) + [NEWLINE], opts);
    assert st'.immutableGroups == [] + [GROUP] == [GROUP];
    MarkOne();
  }

  lemma MarkOne()
    ensures MarkImmutable(OPEN_BASE, [GROUP]) == LOCKED_BASE
  {
    var o := NO_OPTIONS.(immutable := true);
    assert [GROUP][1..] == [];
    assert SetEntry(OPEN_BASE, GROUP, [], Null, o) == SetMarker(OPEN_BASE, GROUP, o);
    assert MarkImmutable(OPEN_BASE, [GROUP]) == MarkImmutable(SetMarker(OPEN_BASE, GROUP, o).m, []);
  }

  lemma LockingBase(locale: bytes)
    ensures Base(LockingFiles(), locale) == LOCKED_BASE
  {
    hide ParseConfig, FileText, HeaderText;
    var files, opts := LockingFiles(), DefaultOptions(locale);
    FirstFile(locale);
    SecondFile(locale);
    assert files[1..] == [files[1]] && files[1..][1..] == [];
    assert ParseFiles(map[], files, opts) == ParseFiles(OPEN_BASE, files[1..], opts);
    assert ParseFiles(OPEN_BASE, files[1..], opts) == ParseFiles(LOCKED_BASE, [], opts);
  }

  /** An empty file, over whatever base. */
  lemma EmptyOver(b: Entries, locale: bytes)
    requires LocaleOk(locale) && Unchanged(b)
    ensures FileOver([], b, locale) && LoadedOver([], b, locale) == b
  {
    hide LocaleOk, Unchanged, FileOver, Representable, WriteEntries;
    EmptyRepresentable(locale);
    WrittenOver(map[], locale, b);
    NothingPrinted(locale);
  }

  const LOST_PUT: Action := Put(0, GROUP, NAME, Data([50]), false)

  lemma PutIsShown(c: Config)
    requires c == Config(LOCKED_BASE, false, false) && MemoryOk(LOCKED_BASE)
    ensures ValueAt(PutData(c, GROUP, NAME, Data([50]), false).entryMap, ENTRY) == Data([50])
  {
    hide KeyOk, GroupOk, FlushSafe, PutData, MemoryOk;
    NamesFit();
    PutCases(c, GROUP, NAME, Data([50]), false);
    assert LOCKED_BASE[ENTRY] == ONE;
  }

  /** The object shows the new value, and after writing it and reading all files again the old
      one, for every fallback. */
  lemma LockedChangeIsLost(locale: bytes, fallback: QByteArray)
    requires LocaleOk(locale)
    ensures var b := Base(LockingFiles(), locale);
            var s := ActOver(OpenedOver([], b, locale), b, LOST_PUT, locale);
            && FileOver([], b, locale) && LOST_PUT.Representable()
            && GetEntry(s.config.entryMap, GROUP, NAME, fallback, PLAIN) == Data([50])
            && GetEntry(ReparseOver(s, b, locale).config.entryMap, GROUP, NAME, fallback, PLAIN) == Data([49])
  {
    hide LocaleOk, FileOver, GetEntry, ReparseOver, ShownAt, DurableOver, BaseOk, LockedKey, MemoryOk, LoadedOver,
         PutData, KeyOk, GroupOk, FlushSafe, Base;
    var b := Base(LockingFiles(), locale);
    DefaultsGiveBase(LockingFiles(), locale);
    LockingBase(locale);
    assert Unchanged(b) && MemoryOk(b) by { BaseMeans(b); }
    EmptyOver(b, locale);
    NamesFit();
    OpenedIsDurable([], b, locale);
    var start := OpenedOver([], b, locale);
    ChangeIsDurable(start, b, LOST_PUT, locale);
    var s := ActOver(start, b, LOST_PUT, locale);
    PutIsShown(start.config);
    assert LockedKey(b, ENTRY) && ValueAt(b, ENTRY) == Data([49]) by { BaseIsLocked(); }
    ShownAgain(s, b, locale, ENTRY);
    LookupIsValue(s.config.entryMap, GROUP, NAME, fallback);
    LookupIsValue(ReparseOver(s, b, locale).config.entryMap, GROUP, NAME, fallback);
  }

  lemma BaseMeans(b: Entries)
    requires BaseOk(b)
    ensures Unchanged(b) && MemoryOk(b)
  {
    hide MemoryOk, Paired;
  }

  lemma BaseIsLocked()
    ensures LockedKey(LOCKED_BASE, ENTRY) && ValueAt(LOCKED_BASE, ENTRY) == Data([49])
  {
    hide KeyOk, GroupOk, FlushSafe;
    NamesFit();
    assert LOCKED_BASE[ENTRY] == ONE;
  }
}
