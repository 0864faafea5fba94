/** One configuration on a file of its own: what it shows is what it will show after writing
    its changes and reading the file again (src/core/kconfig.cpp:433-521, 689-732, 1112-1141,
    src/core/kconfigini.cpp:398-450). On a file that reader and printer understand alike
    (FileOk), and without default files, that holds for all plain lookups; for localized lookups
    exactly if no localized line comes back. */
module Durability {
  import opened Bytes
  import opened CodecLaws
  import opened EntryMap
  import opened Immutability
  import opened Revert
  import opened IniParser
  import opened IniWriter
  import opened IniLines
  import opened IniEntries
  import opened FileRoundTrip
  import opened Sync
  import opened Protocol
  import opened DefaultFiles
  import opened Clients

  /** What a lookup finds in a memory or a file. */
  function Shown(t: Text): Text {
    if t.Present? && t.value.Data? then t else Absent
  }

  function ShownAt(m: Entries, k: KEntryKey): Text {
    Shown(TextAt(m, k))
  }

  /** The memory shows what the file shows, or knows that it has a change to write. */
  ghost predicate UpToDate(s: OnFile, locale: bytes, k: KEntryKey) {
    || ShownAt(s.config.entryMap, k) == ShownAt(OnDisk(s.file, locale), k)
    || (s.config.bDirty && k in s.config.entryMap && s.config.entryMap[k].bDirty)
  }

  /** A localized entry in memory is the one in the file; there may be more in the file. */
  ghost predicate LocalUpToDate(s: OnFile, locale: bytes, k: KEntryKey) {
    k in s.config.entryMap ==> TextAt(s.config.entryMap, k) == Own(TextAt(OnDisk(s.file, locale), k))
  }

  /** No default file has been read, so a reverted entry holds nothing. */
  ghost predicate Bare(m: Entries) {
    forall k :: k in m ==> !k.bDefault && (m[k].bReverted ==> m[k].mValue.Null?)
  }

  ghost predicate Durable(s: OnFile, locale: bytes) {
    && ClientOk(s, locale) && Bare(s.config.entryMap)
    && forall k: KEntryKey :: k.mKey != [] ==> if k.bLocal then LocalUpToDate(s, locale, k) else UpToDate(s, locale, k)
  }

  // ---------------------------------------------------------------------------
  // Changes
  // ---------------------------------------------------------------------------

  /** A change either shows no difference or is marked for writing. */
  ghost predicate Marked(c: Config, c': Config, k: KEntryKey) {
    || (ShownAt(c'.entryMap, k) == ShownAt(c.entryMap, k)
        && (c.bDirty ==> c'.bDirty)
        && (k in c.entryMap && c.entryMap[k].bDirty ==> k in c'.entryMap && c'.entryMap[k].bDirty))
    || (c'.bDirty && k in c'.entryMap && c'.entryMap[k].bDirty)
  }

  /** A change leaves a localized entry alone or erases it. */
  ghost predicate KeptOrErased(m: Entries, m': Entries, k: KEntryKey) {
    k in m' ==> SameAt(m, m', k)
  }

  /** A plain put concerns the plain entry, the marker and the localized twins. */
  lemma PutElsewhere(m: Entries, w: Write, x: KEntryKey)
    requires w.k != [] && !w.o.localized && !w.o.forDefault && x != Plain(w.g, w.k) && x.mKey != []
    ensures if x.bLocal then KeptOrErased(m, Apply(m, w), x) else SameAt(m, Apply(m, w), x)
  {
    hide Stored, WithoutTwins, SameEntry, Refused;
    PlainApply(m, w);
    var s := Stored(m, w.g, w.k, w.value, w.o);
    StoredAt(m, w.g, w.k, w.value, w.o, x);
    WithoutTwinsAt(m, w.g, w.k, w.o, x);
    WithoutTwinsAt(s, w.g, w.k, w.o, x);
  }

  /** The entry that is put, afterwards. */
  lemma PutStores(c: Config, g: bytes, k: bytes, value: QByteArray, expand: bool)
    requires MemoryOk(c.entryMap) && KeyOk(k) && GroupNameOk(g)
    ensures Marked(c, PutData(c, g, k, value, expand), Plain(g, k))
  {
    hide KeyOk, FlushSafe, GroupOk, SameEntry, WithMarker, WithoutTwins;
    KeyNotEmpty(k);
    var x, m, o := Plain(g, k), c.entryMap, PutOptions(value, expand);
    if x in m {
      assert MemoryEntryOk(x, m[x]);
    }
    WithoutTwinsAt(m, g, k, o, x);
    WithoutTwinsAt(Stored(m, g, k, value, o), g, k, o, x);
  }

  lemma PutMarked(c: Config, g: bytes, k: bytes, value: QByteArray, expand: bool, x: KEntryKey)
    requires MemoryOk(c.entryMap) && KeyOk(k) && GroupNameOk(g) && x.mKey != []
    ensures if x.bLocal then KeptOrErased(c.entryMap, PutData(c, g, k, value, expand).entryMap, x)
            else Marked(c, PutData(c, g, k, value, expand), x)
  {
    hide KeyOk, FlushSafe, GroupOk, SetEntry, MemoryOk;
    KeyNotEmpty(k);
    if x == Plain(g, k) {
      PutStores(c, g, k, value, expand);
    } else {
      PutElsewhere(c.entryMap, PutWrite(g, k, value, expand), x);
    }
  }

  lemma RevertMarked(c: Config, g: bytes, k: bytes, x: KEntryKey)
    ensures if x.bLocal then KeptOrErased(c.entryMap, RevertData(c, g, k).entryMap, x)
            else Marked(c, RevertData(c, g, k), x)
  {
  }

  lemma MarkedUpToDate(s: OnFile, s': OnFile, locale: bytes, x: KEntryKey)
    requires s'.file == s.file
    ensures UpToDate(s, locale, x) && Marked(s.config, s'.config, x) ==> UpToDate(s', locale, x)
    ensures LocalUpToDate(s, locale, x) && KeptOrErased(s.config.entryMap, s'.config.entryMap, x) ==>
            LocalUpToDate(s', locale, x)
  {
    hide OnDisk, Shown;
  }

  lemma NotReverted(e: KEntry, value: QByteArray, o: EntryOptions)
    ensures !Prepared(e, value, o).bReverted
  {
  }

  lemma StoredBare(m: Entries, g: bytes, k: bytes, value: QByteArray, o: EntryOptions)
    requires Bare(m) && !o.forDefault
    ensures Bare(Stored(m, g, k, value, o))
  {
    hide Overridden, Prepared;
    var kk := KEntryKey(g, k, o.localized, o.forDefault);
    if kk in m {
      NotReverted(Overridden(kk, m[kk], o), value, o);
    } else {
      NotReverted(NEW_ENTRY.(bRaw := o.rawKey), value, o);
    }
  }

  lemma FewerBare(m: Entries, g: bytes, k: bytes, o: EntryOptions)
    requires Bare(m)
    ensures Bare(WithoutTwins(m, g, k, o))
  {
  }

  lemma PutBare(c: Config, g: bytes, k: bytes, value: QByteArray, expand: bool)
    requires Bare(c.entryMap) && KeyOk(k)
    ensures Bare(PutData(c, g, k, value, expand).entryMap)
  {
    hide KeyOk, SameEntry, Stored, WithoutTwins, Refused, Bare;
    var m, o := c.entryMap, PutOptions(value, expand);
    KeyNotEmpty(k);
    PlainApply(m, PutWrite(g, k, value, expand));
    StoredBare(m, g, k, value, o);
    FewerBare(m, g, k, o);
    FewerBare(Stored(m, g, k, value, o), g, k, o);
  }

  lemma RevertBare(c: Config, g: bytes, k: bytes)
    requires Bare(c.entryMap)
    ensures Bare(RevertData(c, g, k).entryMap)
  {
    assert KEntryKey(g, k, false, true) !in c.entryMap;
  }

  lemma CleanedBare(m: Entries)
    requires Bare(m)
    ensures Bare(Cleaned(m, false))
  {
  }

  lemma LoadedUnchanged(file: bytes, locale: bytes)
    ensures Unchanged(Loaded(file, locale))
  {
    hide ParseConfig, Unchanged;
    NothingRead();
    ParsedUnchanged(file, map[], ReadOptions(locale, false));
  }

  /** What is read from a file alone. */
  lemma LoadedBare(file: bytes, locale: bytes)
    requires FileOk(file, locale)
    ensures Bare(Loaded(file, locale))
  {
    hide Loaded, MemoryEntryOk, MarkerOk, FileOk, WellKept;
    var m := Loaded(file, locale);
    LoadedUnchanged(file, locale);
    forall k | k in m
      ensures !k.bDefault
    {
      if k.mKey != [] {
        LoadedIsOnDisk(file, locale, k);
      } else {
        WellKeptMarkers(m, k);
      }
    }
  }

  lemma LoadedIsOnDisk(file: bytes, locale: bytes, k: KEntryKey)
    requires FileOk(file, locale) && k in Loaded(file, locale) && k.mKey != []
    ensures !k.bDefault
  {
    hide ParseConfig, MemoryOk, KeyOk, RawKeyOk, ValueOk, LooseEntryOk, RawStable, GroupOk;
    FileIsRepresentable(file, locale);
    assert TextAt(Loaded(file, locale), k) == Own(TextAt(OnDisk(file, locale), k));
    assert RepresentableAt(OnDisk(file, locale), k, locale);
  }

  lemma ChangeDurable(s: OnFile, a: Action, locale: bytes)
    requires LocaleOk(locale) && Durable(s, locale) && a.Representable() && a.Changes()
    ensures Durable(Act(s, a, locale), locale) && Act(s, a, locale).file == s.file
  {
    hide LocaleOk, MemoryOk, FileOk, OnDisk, PutData, RevertData, KeyOk, GroupNameOk, FlushSafe, Marked, ShownAt,
         KeptOrErased, UpToDate, LocalUpToDate, Bare;
    ActOk(s, a, locale);
    if a.Put? {
      PutBare(s.config, a.g, a.k, a.value, a.expand);
    } else {
      RevertBare(s.config, a.g, a.k);
    }
    var s' := Act(s, a, locale);
    forall x: KEntryKey | x.mKey != []
      ensures if x.bLocal then LocalUpToDate(s', locale, x) else UpToDate(s', locale, x)
    {
      match a {
        case Put(_, g, k, value, expand) => PutMarked(s.config, g, k, value, expand, x);
        case Revert(_, g, k) => RevertMarked(s.config, g, k, x);
      }
      MarkedUpToDate(s, s', locale, x);
    }
  }

  // ---------------------------------------------------------------------------
  // Writing and reading
  // ---------------------------------------------------------------------------

  lemma CleanedText(m: Entries, k: KEntryKey)
    requires MemoryOk(m) && k.mKey != []
    ensures TextAt(Cleaned(m, false), k) == TextAt(m, k)
  {
    hide KeyOk, FlushSafe, GroupOk;
    if k in m {
      assert MemoryEntryOk(k, m[k]);
    }
  }

  lemma EffectShown(m: Entries, k: KEntryKey)
    requires MemoryOk(m) && Bare(m) && Carries(m, k)
    ensures Shown(EffectOf(m, k)) == ShownAt(m, k)
  {
    hide KeyOk, FlushSafe, GroupOk;
    assert MemoryEntryOk(k, m[k]);
  }

  lemma SyncedConfig(s: OnFile, locale: bytes)
    requires LocaleOk(locale) && ClientOk(s, locale)
    ensures SyncFile(s, locale).config == s.config.(entryMap := if Writes(s.config)
            then Cleaned(s.config.entryMap, false) else s.config.entryMap, bDirty := false)
  {
    hide ParseConfig, WriteEntries, LocaleOk, MemoryOk, FileOk, Merged, Cleaned, AnyDirty, SyncedDisk;
    if Writes(s.config) {
      SyncWrites(s, locale);
    }
  }

  /** A key that is not carried has nothing to write. */
  lemma NotCarried(s: OnFile, k: KEntryKey)
    requires MemoryOk(s.config.entryMap) && !s.config.bFileImmutable && k.mKey != []
    requires !(Writes(s.config) && Carries(s.config.entryMap, k))
    ensures !(s.config.bDirty && k in s.config.entryMap && s.config.entryMap[k].bDirty)
  {
    hide KeyOk, FlushSafe, GroupOk;
    if k in s.config.entryMap {
      assert MemoryEntryOk(k, s.config.entryMap[k]);
    }
  }

  /** One key after a sync: the memory says what it said, and so does the file about plain keys;
      about localized ones it says what it said before. */
  lemma SyncedText(s: OnFile, locale: bytes, k: KEntryKey)
    requires LocaleOk(locale) && Durable(s, locale) && k.mKey != []
    ensures var s' := SyncFile(s, locale);
            && TextAt(s'.config.entryMap, k) == TextAt(s.config.entryMap, k)
            && (k.bLocal ==> TextAt(OnDisk(s'.file, locale), k) == TextAt(OnDisk(s.file, locale), k))
            && (!k.bLocal ==> ShownAt(OnDisk(s'.file, locale), k) == ShownAt(s.config.entryMap, k))
  {
    hide LocaleOk, FileOk, MemoryOk, OnDisk, EffectOf, Shown, SyncFile, AnyDirty, TextAt, Cleaned;
    var m := s.config.entryMap;
    SyncedFile(s, locale, k);
    SyncedConfig(s, locale);
    CleanedText(m, k);
    if Writes(s.config) && Carries(m, k) {
      EffectShown(m, k);
      CarriedIsPlain(m, k);
    } else {
      NotCarried(s, k);
    }
  }

  lemma SyncDurable(s: OnFile, locale: bytes)
    requires LocaleOk(locale) && Durable(s, locale)
    ensures Durable(SyncFile(s, locale), locale)
    ensures forall k: KEntryKey :: k.mKey != [] ==>
              && TextAt(SyncFile(s, locale).config.entryMap, k) == TextAt(s.config.entryMap, k)
              && (k.bLocal ==> TextAt(OnDisk(SyncFile(s, locale).file, locale), k) == TextAt(OnDisk(s.file, locale), k))
              && (!k.bLocal ==> ShownAt(OnDisk(SyncFile(s, locale).file, locale), k) == ShownAt(s.config.entryMap, k))
  {
    hide LocaleOk, MemoryOk, FileOk, OnDisk, SyncFile, Shown, TextAt, Bare, Cleaned;
    var s' := SyncFile(s, locale);
    SyncOk(s, locale);
    SyncedConfig(s, locale);
    CleanedBare(s.config.entryMap);
    forall k: KEntryKey | k.mKey != []
      ensures TextAt(s'.config.entryMap, k) == TextAt(s.config.entryMap, k)
      ensures k.bLocal ==> TextAt(OnDisk(s'.file, locale), k) == TextAt(OnDisk(s.file, locale), k)
      ensures !k.bLocal ==> ShownAt(OnDisk(s'.file, locale), k) == ShownAt(s.config.entryMap, k)
      ensures if k.bLocal then LocalUpToDate(s', locale, k) else UpToDate(s', locale, k)
    {
      SyncedText(s, locale, k);
      InMemory(s.config.entryMap, s'.config.entryMap, k);
    }
  }

  lemma InMemory(m: Entries, n: Entries, k: KEntryKey)
    ensures TextAt(m, k) == TextAt(n, k) ==> (k in m <==> k in n)
  {
  }

  lemma LoadedText(file: bytes, locale: bytes, k: KEntryKey)
    requires FileOk(file, locale) && k.mKey != []
    ensures TextAt(Loaded(file, locale), k) == Own(TextAt(OnDisk(file, locale), k))
    ensures !k.bLocal ==> TextAt(Loaded(file, locale), k) == TextAt(OnDisk(file, locale), k)
    ensures MemoryOk(Loaded(file, locale))
  {
    hide ParseConfig, MemoryOk, EntryOk, LooseEntryOk, RawStable;
    var disk := OnDisk(file, locale);
    FileIsRepresentable(file, locale);
    if k in disk {
      assert RepresentableAt(disk, k, locale);
      RawIsLocal(k, disk[k], locale);
    }
  }

  /** An object that has just read its file. */
  ghost function Opened(file: bytes, locale: bytes): OnFile {
    OnFile(Config(Loaded(file, locale), false, false), file)
  }

  lemma OpenedDurable(file: bytes, locale: bytes)
    requires FileOk(file, locale)
    ensures Durable(Opened(file, locale), locale)
  {
    hide MemoryOk, FileOk, OnDisk, Loaded, Shown, TextAt, Bare;
    LoadedText(file, locale, Plain([], [0]));
    LoadedBare(file, locale);
    forall k: KEntryKey | k.mKey != []
      ensures if k.bLocal then LocalUpToDate(Opened(file, locale), locale, k)
              else UpToDate(Opened(file, locale), locale, k)
    {
      LoadedText(file, locale, k);
    }
  }

  lemma DurableMeans(s: OnFile, locale: bytes)
    requires Durable(s, locale)
    ensures FileOk(s.file, locale) && MemoryOk(s.config.entryMap) && Bare(s.config.entryMap) && !s.config.bFileImmutable
  {
    hide MemoryOk, FileOk, Bare, UpToDate, LocalUpToDate, OnDisk;
  }

  lemma ReparseIsOpened(s: OnFile, locale: bytes)
    requires LocaleOk(locale) && Durable(s, locale)
    ensures Sync.Reparse(s, locale) == Opened(SyncFile(s, locale).file, locale)
    ensures FileOk(SyncFile(s, locale).file, locale)
  {
    hide LocaleOk, MemoryOk, FileOk, OnDisk, Loaded, SyncFile, Sync.Reparse, UpToDate, LocalUpToDate;
    ReparseOk(s, locale);
    SyncOk(s, locale);
  }

  /** After writing and reading again every plain key is shown as before, and every localized
      entry is there that the file has held all along. */
  lemma ReparseDurable(s: OnFile, locale: bytes)
    requires LocaleOk(locale) && Durable(s, locale)
    ensures Durable(Sync.Reparse(s, locale), locale)
    ensures forall k: KEntryKey :: k.mKey != [] ==>
              && (k.bLocal ==>
                    TextAt(OnDisk(Sync.Reparse(s, locale).file, locale), k) == TextAt(OnDisk(s.file, locale), k))
              && (k.bLocal ==>
                    TextAt(Sync.Reparse(s, locale).config.entryMap, k) == Own(TextAt(OnDisk(s.file, locale), k)))
              && (!k.bLocal ==> ShownAt(Sync.Reparse(s, locale).config.entryMap, k) == ShownAt(s.config.entryMap, k))
  {
    hide LocaleOk, Durable, FileOk, OnDisk, Loaded, SyncFile, Sync.Reparse, TextAt, Shown, Own;
    ReparseIsOpened(s, locale);
    SyncDurable(s, locale);
    var file := SyncFile(s, locale).file;
    OpenedDurable(file, locale);
    forall k: KEntryKey | k.mKey != []
      ensures k.bLocal ==> TextAt(Loaded(file, locale), k) == Own(TextAt(OnDisk(s.file, locale), k))
      ensures !k.bLocal ==> ShownAt(Loaded(file, locale), k) == ShownAt(s.config.entryMap, k)
    {
      LoadedText(file, locale, k);
    }
  }

  // ---------------------------------------------------------------------------
  // Runs
  // ---------------------------------------------------------------------------

  ghost function Do(s: OnFile, acts: seq<Action>, locale: bytes): OnFile
    decreases |acts|
  {
    if acts == [] then s else Do(Act(s, acts[0], locale), acts[1..], locale)
  }

  /** No run changes what the file says, to readers of this locale, under a localized key. The
      line's tag can change: see modules OtherReaders and LanguageLines for other readers. */
  lemma {:induction false} DoDurable(s: OnFile, acts: seq<Action>, locale: bytes)
    requires LocaleOk(locale) && Durable(s, locale)
    requires forall a :: a in acts ==> a.Representable()
    ensures Durable(Do(s, acts, locale), locale)
    ensures forall k: KEntryKey :: k.bLocal && k.mKey != [] ==>
              TextAt(OnDisk(Do(s, acts, locale).file, locale), k) == TextAt(OnDisk(s.file, locale), k)
    decreases |acts|
  {
    hide LocaleOk, Durable, PutData, RevertData, SyncFile, Sync.Reparse, ReparseOver, KeyOk, GroupNameOk, FlushSafe,
         OnDisk, TextAt, Shown;
    if acts == [] {
    } else {
      match acts[0] {
        case Sync(_) => SyncDurable(s, locale);
        case Reparse(_) => { ReparseDurable(s, locale); ReparseMeans(s, locale); }
        case _ => ChangeDurable(s, acts[0], locale);
      }
      DoDurable(Act(s, acts[0], locale), acts[1..], locale);
    }
  }

  // ---------------------------------------------------------------------------
  // Lookups
  // ---------------------------------------------------------------------------

  function Local(g: bytes, k: bytes): KEntryKey {
    KEntryKey(g, k, true, false)
  }

  const LOCALIZED: SearchFlags := SearchFlags(false, true)

  /** The value that getEntry finds at a key. */
  function ValueAt(m: Entries, k: KEntryKey): QByteArray {
    var t := ShownAt(m, k);
    if t.Present? then t.value else Null
  }

  function OrFallback(v: QByteArray, fallback: QByteArray): QByteArray {
    if v.Data? then v else fallback
  }

  lemma LookupIsValue(m: Entries, g: bytes, k: bytes, fallback: QByteArray)
    ensures GetEntry(m, g, k, fallback, PLAIN) == OrFallback(ValueAt(m, Plain(g, k)), fallback)
    ensures GetEntry(m, g, k, fallback, LOCALIZED) ==
            OrFallback(ValueAt(m, if Local(g, k) in m then Local(g, k) else Plain(g, k)), fallback)
  {
  }

  /** Durability: after any run of writes, deletions, reverts, syncs and reparses, whatever
      localized lines, immutable entries and immutable groups the file holds, writing the
      changes and reading the file again changes no plain lookup, in this object or in a new one. */
  lemma PlainLookupsSurvive(file: bytes, acts: seq<Action>, locale: bytes, g: bytes, k: bytes, fallback: QByteArray)
    requires LocaleOk(locale) && FileOk(file, locale) && k != []
    requires forall a :: a in acts ==> a.Representable()
    ensures var s := Do(Opened(file, locale), acts, locale);
            && GetEntry(Sync.Reparse(s, locale).config.entryMap, g, k, fallback, PLAIN)
               == GetEntry(s.config.entryMap, g, k, fallback, PLAIN)
            && GetEntry(Loaded(SyncFile(s, locale).file, locale), g, k, fallback, PLAIN)
               == GetEntry(s.config.entryMap, g, k, fallback, PLAIN)
  {
    hide LocaleOk, FileOk, OnDisk, Loaded, SyncFile, Sync.Reparse, Do, GetEntry, ShownAt, TextAt, Own;
    OpenedDurable(file, locale);
    DoDurable(Opened(file, locale), acts, locale);
    var s := Do(Opened(file, locale), acts, locale);
    ReparseDurable(s, locale);
    ReparseIsOpened(s, locale);
    LookupIsValue(s.config.entryMap, g, k, fallback);
    LookupIsValue(Sync.Reparse(s, locale).config.entryMap, g, k, fallback);
  }

  /** The localized line of the key, if there is one, is not in the way. */
  ghost predicate NoTwinReturns(m: Entries, loaded: Entries, g: bytes, k: bytes) {
    || Local(g, k) in m
    || Local(g, k) !in loaded
    || ValueAt(loaded, Local(g, k)) == ValueAt(m, Plain(g, k))
  }

  /** A localized lookup stays the same, for every fallback, exactly if the localized entry is
      still in memory, or the file had none when it was opened, or it shows the same value as
      the plain one. */
  lemma LocalizedLookupsSurviveExactly(file: bytes, acts: seq<Action>, locale: bytes, g: bytes, k: bytes)
    requires LocaleOk(locale) && FileOk(file, locale) && k != []
    requires forall a :: a in acts ==> a.Representable()
    ensures var s := Do(Opened(file, locale), acts, locale);
            (forall fallback :: GetEntry(Sync.Reparse(s, locale).config.entryMap, g, k, fallback, LOCALIZED)
                             == GetEntry(s.config.entryMap, g, k, fallback, LOCALIZED))
            <==> NoTwinReturns(s.config.entryMap, Loaded(file, locale), g, k)
  {
    hide LocaleOk, FileOk, OnDisk, Loaded, SyncFile, Sync.Reparse, Do, Shown, Durable, TextAt, Own;
    OpenedDurable(file, locale);
    DoDurable(Opened(file, locale), acts, locale);
    var s := Do(Opened(file, locale), acts, locale);
    ReparseDurable(s, locale);
    LoadedText(file, locale, Local(g, k));
    DurableLocal(s, locale, Local(g, k));
    TwinTexts(s.config.entryMap, Sync.Reparse(s, locale).config.entryMap, Loaded(file, locale), g, k);
  }

  lemma DurableLocal(s: OnFile, locale: bytes, k: KEntryKey)
    requires Durable(s, locale) && k.bLocal && k.mKey != []
    ensures k in s.config.entryMap ==> TextAt(s.config.entryMap, k) == Own(TextAt(OnDisk(s.file, locale), k))
  {
    hide OnDisk, Own, TextAt, ClientOk;
    assert LocalUpToDate(s, locale, k);
  }

  /** Before, after and at the start. */
  lemma TwinTexts(m: Entries, r: Entries, loaded: Entries, g: bytes, k: bytes)
    requires TextAt(r, Local(g, k)) == TextAt(loaded, Local(g, k))
    requires Local(g, k) in m ==> TextAt(m, Local(g, k)) == TextAt(loaded, Local(g, k))
    requires ShownAt(r, Plain(g, k)) == ShownAt(m, Plain(g, k))
    ensures (forall fallback :: GetEntry(r, g, k, fallback, LOCALIZED) == GetEntry(m, g, k, fallback, LOCALIZED))
            <==> NoTwinReturns(m, loaded, g, k)
  {
    hide GetEntry, ShownAt;
    InMemory(r, loaded, Local(g, k));
    InMemory(m, loaded, Local(g, k));
    var before := ValueAt(m, if Local(g, k) in m then Local(g, k) else Plain(g, k));
    var after := ValueAt(r, if Local(g, k) in r then Local(g, k) else Plain(g, k));
    assert NoTwinReturns(m, loaded, g, k) <==> after == before by { TwinValues(m, r, loaded, g, k); }
    LookupIsValue(m, g, k, Null);
    LookupIsValue(r, g, k, Null);
    LookupIsValue(m, g, k, Data([]));
    LookupIsValue(r, g, k, Data([]));
    assert GetEntry(r, g, k, Null, LOCALIZED) == OrFallback(after, Null)
           && GetEntry(m, g, k, Null, LOCALIZED) == OrFallback(before, Null);
    forall fallback
      ensures GetEntry(r, g, k, fallback, LOCALIZED) == OrFallback(after, fallback)
      ensures GetEntry(m, g, k, fallback, LOCALIZED) == OrFallback(before, fallback)
    {
      LookupIsValue(m, g, k, fallback);
      LookupIsValue(r, g, k, fallback);
    }
  }

  lemma TwinValues(m: Entries, r: Entries, loaded: Entries, g: bytes, k: bytes)
    requires TextAt(r, Local(g, k)) == TextAt(loaded, Local(g, k)) && (Local(g, k) in r <==> Local(g, k) in loaded)
    requires Local(g, k) in m ==> TextAt(m, Local(g, k)) == TextAt(loaded, Local(g, k)) && Local(g, k) in loaded
    requires ShownAt(r, Plain(g, k)) == ShownAt(m, Plain(g, k))
    ensures NoTwinReturns(m, loaded, g, k) <==>
            ValueAt(r, if Local(g, k) in r then Local(g, k) else Plain(g, k))
                == ValueAt(m, if Local(g, k) in m then Local(g, k) else Plain(g, k))
  {
    hide Shown, TextAt;
  }

  // ---------------------------------------------------------------------------
  // A localized line that comes back
  // ---------------------------------------------------------------------------

  const KEY: bytes := [107] // "k"

  /** `k=a` and `k[..]=b`. */
  const TWINS: Entries := map[
    Marker(DEFAULT_GROUP) := NEW_ENTRY,
    Plain(DEFAULT_GROUP, KEY) := NEW_ENTRY.(mValue := Data([97])),
    Local(DEFAULT_GROUP, KEY) := NEW_ENTRY.(mValue := Data([98]))]

  lemma TwinsRepresentable(locale: bytes)
    ensures Representable(TWINS, locale)
  {
  }

  lemma TwinsLoaded(locale: bytes)
    requires LocaleOk(locale)
    ensures var file := WriteEntries(TWINS, locale, Null);
            && FileOk(file, locale)
            && TextAt(Loaded(file, locale), Local(DEFAULT_GROUP, KEY)) == Present(Data([98]), false, false)
            && TextAt(Loaded(file, locale), Plain(DEFAULT_GROUP, KEY)) == Present(Data([97]), false, false)
            && MemoryOk(Loaded(file, locale))
            && !Loaded(file, locale)[Plain(DEFAULT_GROUP, KEY)].bImmutable
  {
    hide WriteEntries, ParseConfig, FileOk, Representable, MemoryOk, Reloaded, LocaleOk;
    TwinsRepresentable(locale);
    WrittenFile(TWINS, locale);
    ReloadedText(TWINS, locale, Plain(DEFAULT_GROUP, KEY));
    ReloadedText(TWINS, locale, Local(DEFAULT_GROUP, KEY));
    ReloadedMutable(locale);
    ReloadedMemoryOk(TWINS, locale);
  }

  lemma ReloadedMutable(locale: bytes)
    ensures Plain(DEFAULT_GROUP, KEY) in Reloaded(TWINS, locale, false)
    ensures !Reloaded(TWINS, locale, false)[Plain(DEFAULT_GROUP, KEY)].bImmutable
  {
  }

  /** The value of k is replaced by "c". */
  const REPLACE: Action := Put(0, DEFAULT_GROUP, KEY, Data([99]), false)

  lemma ReplaceShown(m: Entries)
    requires MemoryOk(m) && TextAt(m, Plain(DEFAULT_GROUP, KEY)) == Present(Data([97]), false, false)
    requires !m[Plain(DEFAULT_GROUP, KEY)].bImmutable
    ensures var n := PutData(Config(m, false, false), DEFAULT_GROUP, KEY, Data([99]), false).entryMap;
            Local(DEFAULT_GROUP, KEY) !in n && ValueAt(n, Plain(DEFAULT_GROUP, KEY)) == Data([99])
  {
    hide MemoryOk, WithMarker;
    PlainApply(m, PutWrite(DEFAULT_GROUP, KEY, Data([99]), false));
  }

  /** A put over the plain entry erases the localized one in memory, so that it is seen by
      localized lookups, too; once the file has been written and read, they find the old
      localized line again. */
  lemma TwinComesBack(locale: bytes)
    requires LocaleOk(locale)
    ensures var s := Do(Opened(WriteEntries(TWINS, locale, Null), locale), [REPLACE], locale);
            && GetEntry(s.config.entryMap, DEFAULT_GROUP, KEY, Null, LOCALIZED) == Data([99])
            && GetEntry(Sync.Reparse(s, locale).config.entryMap, DEFAULT_GROUP, KEY, Null, LOCALIZED) == Data([98])
  {
    hide WriteEntries, ParseConfig, FileOk, Loaded, MemoryOk, LocaleOk, Sync.Reparse, PutData, GetEntry, Durable,
         OnDisk, KeyOk;
    var file := WriteEntries(TWINS, locale, Null);
    TwinsLoaded(locale);
    ReplaceShown(Loaded(file, locale));
    OpenedDurable(file, locale);
    KeyFits();
    var s := Do(Opened(file, locale), [REPLACE], locale);
    assert [REPLACE][1..] == [];
    DoDurable(Opened(file, locale), [REPLACE], locale);
    ReparseDurable(s, locale);
    LoadedText(file, locale, Local(DEFAULT_GROUP, KEY));
    LookupIsValue(s.config.entryMap, DEFAULT_GROUP, KEY, Null);
    LookupIsValue(Sync.Reparse(s, locale).config.entryMap, DEFAULT_GROUP, KEY, Null);
  }

  lemma KeyFits()
    ensures REPLACE.Representable()
  {
  }
}
