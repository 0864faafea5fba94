/** One configuration object and its file: what a sync makes of every key, whoever has written
    it, and of every group's immutability (src/core/kconfigini.cpp:398-450,
    src/core/kconfig.cpp:433-521, promised at src/core/kconfigbase.h:100-102). The file is its
    bytes; every sync parses, merges and prints it under the file lock, as one step. */
module Protocol {
  import opened Bytes
  import opened CodecLaws
  import opened EntryMap
  import opened Immutability
  import opened IniParser
  import opened IniWriter
  import opened IniLines
  import opened IniEntries
  import opened FileRoundTrip
  import opened Sync

  // ---------------------------------------------------------------------------
  // Files and memories
  // ---------------------------------------------------------------------------

  predicate GroupNameOk(g: bytes) {
    g == DEFAULT_GROUP || GroupOk(g)
  }

  /** An entry of a configuration that has read its default files and this one, and has made
      representable changes. Defaults are never changed; a reverted entry may hold its default's
      value. */
  predicate MemoryEntryOk(k: KEntryKey, e: KEntry) {
    && !e.bGlobal && !e.bOverridesGlobal && !e.bRaw
    && (e.bDeleted ==> e.mValue.Null?)
    && (e.mValue.Null? ==> e.bDeleted || e.bReverted)
    && (e.bDirty ==> !k.bLocal && !k.bDefault && KeyOk(k.mKey) && GroupNameOk(k.mGroup))
    && (e.bDirty && !e.bReverted && e.mValue.Data? ==> FlushSafe([], e.mValue.data))
  }

  predicate MarkerOk(e: KEntry) {
    e == NEW_ENTRY || e == NEW_ENTRY.(bImmutable := true)
  }

  ghost predicate MemoryOk(m: Entries) {
    && WellKept(m)
    && forall k :: k in m ==> if k.mKey == [] then MarkerOk(m[k]) else MemoryEntryOk(k, m[k])
  }

  /** The file's entries as a writer merges them, and as a reader sees them. */
  ghost function OnDisk(file: bytes, locale: bytes): Entries {
    ParseConfig(file, map[], ReadOptions(locale, true)).m
  }

  ghost function Loaded(file: bytes, locale: bytes): Entries {
    ParseConfig(file, map[], ReadOptions(locale, false)).m
  }

  // ---------------------------------------------------------------------------
  // What a file says about a key
  // ---------------------------------------------------------------------------

  datatype Text = Absent | Deleted | Present(value: QByteArray, expand: bool, raw: bool)

  function TextOf(e: KEntry): Text {
    if e.bDeleted then Deleted else Present(e.mValue, e.bExpand, e.bRaw)
  }

  function TextAt(m: Entries, k: KEntryKey): Text {
    if k in m then TextOf(m[k]) else Absent
  }

  /** Lines for other locales are only read for merging. */
  function Own(t: Text): Text {
    if t.Present? && t.raw then Absent else t
  }

  /** A reader sees what a writer merges, but for lines for other locales. */
  ghost predicate ReadersAgree(disk: Entries, loaded: Entries) {
    forall k: KEntryKey :: k.mKey != [] ==> TextAt(loaded, k) == Own(TextAt(disk, k))
  }

  /** A file that is not immutable as a whole, and that reader and writer understand alike. */
  ghost predicate LooseFile(file: bytes, locale: bytes) {
    && ParseConfig(file, map[], ReadOptions(locale, true)).info == ParseOk
    && ParseConfig(file, map[], ReadOptions(locale, false)).info == ParseOk
    && LooselyRepresentable(OnDisk(file, locale), locale)
    && MemoryOk(Loaded(file, locale))
    && ReadersAgree(OnDisk(file, locale), Loaded(file, locale))
  }

  /** In which, moreover, every line for another locale has a stable key: see module
      UnstableLines for what happens otherwise. */
  ghost predicate FileOk(file: bytes, locale: bytes) {
    LooseFile(file, locale) && AllStable(OnDisk(file, locale))
  }

  lemma FileIsRepresentable(file: bytes, locale: bytes)
    requires FileOk(file, locale)
    ensures Representable(OnDisk(file, locale), locale)
  {
    hide ParseConfig, KeyOk, RawShape, RawStable, GroupOk, MemoryOk, ReadersAgree, ValueOk;
    var m := OnDisk(file, locale);
    forall k | k in m && k.mKey != []
      ensures RepresentableAt(m, k, locale)
    {
      assert LooseEntryOk(k, m[k], locale);
    }
  }

  lemma FileOkFrom(file: bytes, locale: bytes)
    requires ParseConfig(file, map[], ReadOptions(locale, true)).info == ParseOk
    requires ParseConfig(file, map[], ReadOptions(locale, false)).info == ParseOk
    requires Representable(OnDisk(file, locale), locale)
    requires MemoryOk(Loaded(file, locale)) && ReadersAgree(OnDisk(file, locale), Loaded(file, locale))
    ensures FileOk(file, locale)
  {
    hide ParseConfig, KeyOk, RawShape, RawStable, GroupOk, MemoryOk, ReadersAgree, ValueOk;
    var m := OnDisk(file, locale);
    forall k | k in m && k.mKey != []
      ensures LooseEntryOk(k, m[k], locale) && (k.mGroup == DEFAULT_GROUP || GroupOk(k.mGroup))
      ensures m[k].bRaw ==> RawStable(RawBase(k.mKey))
    {
      assert RepresentableAt(m, k, locale);
    }
  }

  /** A sync of this memory carries the key. */
  predicate Carries(mem: Entries, k: KEntryKey) {
    k in mem && k.mKey != [] && mem[k].bDirty && !mem[k].bGlobal
  }

  /** What it makes of the key: the value written last, or nothing after a revert. A deleted
      key is taken off the file, or, where that would bring back a default, marked as deleted. */
  function EffectOf(mem: Entries, k: KEntryKey): Text
    requires Carries(mem, k)
  {
    if mem[k].bReverted then Absent
    else if mem[k].bDeleted then DeletionEffect(mem, k)
    else TextOf(mem[k])
  }

  function DeletionEffect(mem: Entries, k: KEntryKey): Text {
    if k.(bDefault := true) in mem then Deleted else Absent
  }

  // ---------------------------------------------------------------------------
  // Written files
  // ---------------------------------------------------------------------------

  lemma ReloadedIsOk(k: KEntryKey, e: KEntry, locale: bytes, groupImmutable: bool)
    requires EntryOk(k, e, locale)
    ensures var r := ReloadedEntry(k, e, locale, groupImmutable);
            && EntryOk(k, r, locale) && TextOf(r) == TextOf(e)
            && (r.bImmutable <==> groupImmutable || (e.bImmutable && !e.bDeleted))
            && (!e.bRaw ==> MemoryEntryOk(k, r))
    ensures e.bRaw ==> !e.bDeleted
  {
    hide RawKeyOk, KeyOk, FlushSafe;
  }

  lemma ReloadedWellKept(m: Entries, locale: bytes, merging: bool)
    requires WellKept(m)
    ensures WellKept(Reloaded(m, locale, merging))
    ensures forall k :: k in Reloaded(m, locale, merging) && k.mKey == [] ==> MarkerOk(Reloaded(m, locale, merging)[k])
  {
    hide ReloadedAt, IsImmutableGroup;
    var r := Reloaded(m, locale, merging);
    forall k | k in r
      ensures Marker(k.mGroup) in r && (k.mKey == [] ==> k == Marker(k.mGroup))
    {
      if k.mKey != [] {
        assert k in AllEntries(m) && Visible(m, k, merging);
        assert GroupVisible(m, AllEntries(m), k.mGroup, merging);
      }
    }
  }

  lemma ReloadedText(m: Entries, locale: bytes, k: KEntryKey)
    requires Representable(m, locale) && k.mKey != []
    ensures TextAt(Reloaded(m, locale, true), k) == TextAt(m, k)
    ensures TextAt(Reloaded(m, locale, false), k) == Own(TextAt(m, k))
    ensures k in m ==> (Reloaded(m, locale, true)[k].bImmutable <==>
                        IsImmutableGroup(m, k.mGroup) || (m[k].bImmutable && !m[k].bDeleted))
  {
    hide EntryOk, ReloadedEntry, IsImmutableGroup, GroupOk;
    if k in m {
      assert RepresentableAt(m, k, locale);
      ReloadedIsOk(k, m[k], locale, IsImmutableGroup(m, k.mGroup));
    }
  }

  lemma ReloadedRepresentable(m: Entries, locale: bytes)
    requires Representable(m, locale)
    ensures Representable(Reloaded(m, locale, true), locale)
  {
    hide EntryOk, GroupOk, ReloadedEntry, IsImmutableGroup;
    ReloadedWellKept(m, locale, true);
    var r := Reloaded(m, locale, true);
    forall k | k in r && k.mKey != []
      ensures RepresentableAt(r, k, locale)
    {
      assert RepresentableAt(m, k, locale);
      ReloadedIsOk(k, m[k], locale, IsImmutableGroup(m, k.mGroup));
    }
  }

  lemma ReloadedMemoryOk(m: Entries, locale: bytes)
    requires Representable(m, locale)
    ensures MemoryOk(Reloaded(m, locale, false))
  {
    hide EntryOk, GroupOk, ReloadedEntry, MemoryEntryOk, MarkerOk, IsImmutableGroup;
    ReloadedWellKept(m, locale, false);
    var r := Reloaded(m, locale, false);
    forall k | k in r && k.mKey != []
      ensures MemoryEntryOk(k, r[k])
    {
      assert RepresentableAt(m, k, locale);
      ReloadedIsOk(k, m[k], locale, IsImmutableGroup(m, k.mGroup));
    }
  }

  lemma ReloadedAgree(m: Entries, locale: bytes)
    requires Representable(m, locale)
    ensures ReadersAgree(Reloaded(m, locale, true), Reloaded(m, locale, false))
  {
    hide Reloaded, Representable, TextAt;
    forall k: KEntryKey | k.mKey != []
      ensures TextAt(Reloaded(m, locale, false), k) == Own(TextAt(Reloaded(m, locale, true), k))
    {
      ReloadedText(m, locale, k);
    }
  }

  /** A printed file can be merged into and read, with and without immutable entries and groups. */
  lemma WrittenFile(m: Entries, locale: bytes)
    requires LocaleOk(locale) && Representable(m, locale)
    ensures FileOk(WriteEntries(m, locale, Null), locale)
    ensures OnDisk(WriteEntries(m, locale, Null), locale) == Reloaded(m, locale, true)
    ensures Loaded(WriteEntries(m, locale, Null), locale) == Reloaded(m, locale, false)
  {
    hide ParseConfig, WriteEntries, LocaleOk, Reloaded, MemoryOk, ReadersAgree, Representable, FileOk;
    ParseUndoesWrite(m, locale, Null, ReadOptions(locale, true));
    ParseUndoesWrite(m, locale, Null, ReadOptions(locale, false));
    ReloadedRepresentable(m, locale);
    ReloadedMemoryOk(m, locale);
    ReloadedAgree(m, locale);
    FileOkFrom(WriteEntries(m, locale, Null), locale);
  }

  /** So is an empty or missing file. */
  lemma EmptyFileOk(locale: bytes)
    requires LocaleOk(locale)
    ensures FileOk([], locale) && OnDisk([], locale) == map[]
  {
    hide ParseConfig, FileOk, LocaleOk, Representable, WriteEntries;
    EmptyRepresentable(locale);
    WrittenFile(map[], locale);
    NothingPrinted(locale);
  }

  lemma NothingPrinted(locale: bytes)
    ensures WriteEntries(map[], locale, Null) == []
  {
    hide WriteKeys, InOrder;
    var none: Entries := map[];
    OneOrder(InOrder(none.Keys), [], {});
    NothingSelected(none, [], locale, Null, Pass(true, false), WriteState([], false, true, []));
    NothingSelected(none, [], locale, Null, Pass(false, false), WriteState([], false, true, []));
  }

  lemma EmptyRepresentable(locale: bytes)
    ensures Representable(map[], locale)
  {
  }

  // ---------------------------------------------------------------------------
  // A merge
  // ---------------------------------------------------------------------------

  lemma MergeMarker(mem: Entries, g: bytes)
    requires MemoryOk(mem) && Marker(g) in mem
    ensures MergeOne(mem, Marker(g), false) == Store(mem[Marker(g)])
  {
  }

  /** A reverted entry leaves the file, and so does a deleted one that has no default. */
  lemma MergeEntry(mem: Entries, k: KEntryKey)
    requires MemoryOk(mem) && k in mem && k.mKey != []
    ensures MergeOne(mem, k, false) ==
            if !mem[k].bDirty then Untouched
            else if mem[k].bReverted || (mem[k].bDeleted && k.(bDefault := true) !in mem) then Erase
            else Store(mem[k])
  {
    hide KeyOk, FlushSafe, GroupOk;
    assert MemoryEntryOk(k, mem[k]);
  }

  lemma MemoryEntry(mem: Entries, k: KEntryKey)
    requires MemoryOk(mem) && k in mem && k.mKey != []
    ensures MemoryEntryOk(k, mem[k]) && !mem[k].bGlobal
  {
  }

  /** One key of the merged map: the carried ones are those in memory. */
  lemma MergedAt(w: Entries, mem: Entries, k: KEntryKey, locale: bytes)
    requires MemoryOk(mem) && Representable(w, locale) && k.mKey != []
    ensures var n := Merged(w, mem, false);
            && TextAt(n, k) == (if Carries(mem, k) then EffectOf(mem, k) else TextAt(w, k))
            && (k in n ==> (n[k].bImmutable <==>
               if Carries(mem, k) then mem[k].bImmutable else k in w && w[k].bImmutable))
  {
    hide MemoryOk, MergeOne, EntryOk, GroupOk;
    if k in mem {
      MergeEntry(mem, k);
      MemoryEntry(mem, k);
      if k in w && Carries(mem, k) {
        assert RepresentableAt(w, k, locale);
        RawIsLocal(k, w[k], locale);
        CarriedIsPlain(mem, k);
      }
    }
  }

  lemma RawIsLocal(k: KEntryKey, e: KEntry, locale: bytes)
    ensures EntryOk(k, e, locale) && e.bRaw ==> k.bLocal
  {
    hide RawKeyOk, KeyOk, FlushSafe;
  }

  lemma CarriedIsPlain(mem: Entries, k: KEntryKey)
    requires MemoryOk(mem) && Carries(mem, k)
    ensures !k.bLocal && !k.bDefault
  {
    hide KeyOk, FlushSafe, GroupOk;
    assert MemoryEntryOk(k, mem[k]);
  }

  lemma LocalIsUncarried(mem: Entries, k: KEntryKey)
    requires MemoryOk(mem) && k.bLocal
    ensures !Carries(mem, k)
  {
    hide MemoryOk, Carries;
    if Carries(mem, k) {
      CarriedIsPlain(mem, k);
    }
  }

  /** Markers are merged whether or not anything in their group has changed. */
  lemma MergedMarker(w: Entries, mem: Entries, g: bytes)
    requires MemoryOk(mem)
    ensures var n := Merged(w, mem, false);
            && (Marker(g) in n <==> Marker(g) in w || Marker(g) in mem)
            && (Marker(g) in n ==> (n[Marker(g)].bImmutable <==>
               if Marker(g) in mem then mem[Marker(g)].bImmutable else w[Marker(g)].bImmutable))
  {
    hide MemoryOk, MergeOne;
    if Marker(g) in mem {
      MergeMarker(mem, g);
    }
  }

  lemma MergedEntryOk(w: Entries, mem: Entries, k: KEntryKey, locale: bytes)
    requires MemoryOk(mem) && Representable(w, locale) && k in Merged(w, mem, false) && k.mKey != []
    ensures EntryOk(k, Merged(w, mem, false)[k], locale) && GroupNameOk(k.mGroup)
  {
    hide MemoryOk, MergeOne, KeyOk, FlushSafe, RawKeyOk, GroupOk;
    if k in w {
      assert RepresentableAt(w, k, locale);
    }
    if k in mem {
      MergeEntry(mem, k);
      MemoryEntry(mem, k);
    }
  }

  lemma MergedRepresentable(w: Entries, mem: Entries, locale: bytes)
    requires MemoryOk(mem) && Representable(w, locale)
    ensures Representable(Merged(w, mem, false), locale)
  {
    hide EntryOk, GroupOk, MergeOne;
    var n := Merged(w, mem, false);
    forall k | k in n
      ensures Marker(k.mGroup) in n
      ensures k.mKey == [] ==> k == Marker(k.mGroup)
      ensures k.mKey != [] ==> RepresentableAt(n, k, locale)
    {
      assert k in w || k in mem;
      MergedMarker(w, mem, k.mGroup);
      if k.mKey != [] {
        MergedEntryOk(w, mem, k, locale);
      }
    }
  }

  lemma CleanedMemoryOk(mem: Entries)
    requires MemoryOk(mem)
    ensures MemoryOk(Cleaned(mem, false)) && forall k :: k in Cleaned(mem, false) ==> !Cleaned(mem, false)[k].bDirty
  {
    hide KeyOk, FlushSafe, GroupOk;
  }

  // ---------------------------------------------------------------------------
  // A sync
  // ---------------------------------------------------------------------------

  /** Whether the group is immutable in the file after a sync: a marker in memory, however old,
      decides against the one in the file. */
  predicate GroupAfter(w: Entries, mem: Entries, g: bytes) {
    g != DEFAULT_GROUP && if Marker(g) in mem then mem[Marker(g)].bImmutable
      else Marker(g) in w && w[Marker(g)].bImmutable
  }

  /** Whether the key is immutable by itself when it is written. */
  predicate OwnImmutability(w: Entries, mem: Entries, k: KEntryKey) {
    if Carries(mem, k) then mem[k].bImmutable && !mem[k].bDeleted else k in w && w[k].bImmutable && !w[k].bDeleted
  }

  /** The file after a sync that writes, key by key and group by group. */
  ghost predicate SyncedDisk(w: Entries, mem: Entries, n: Entries) {
    && (forall k: KEntryKey :: k.mKey != [] ==>
       TextAt(n, k) == if Carries(mem, k) then EffectOf(mem, k) else TextAt(w, k))
    && (forall k: KEntryKey :: k.mKey != [] && k in n ==>
       (n[k].bImmutable <==> GroupAfter(w, mem, k.mGroup) || OwnImmutability(w, mem, k)))
    && (forall g :: Marker(g) in n ==> (n[Marker(g)].bImmutable <==> GroupAfter(w, mem, g)))
  }

  lemma MergedGroup(w: Entries, mem: Entries, g: bytes)
    requires MemoryOk(mem)
    ensures IsImmutableGroup(Merged(w, mem, false), g) <==> GroupAfter(w, mem, g)
  {
    hide MemoryOk, Merged;
    MergedMarker(w, mem, g);
  }

  lemma ReloadedMergedKey(w: Entries, mem: Entries, locale: bytes, k: KEntryKey)
    requires MemoryOk(mem) && Representable(w, locale) && Representable(Merged(w, mem, false), locale) && k.mKey != []
    ensures var r := Reloaded(Merged(w, mem, false), locale, true);
            && TextAt(r, k) == (if Carries(mem, k) then EffectOf(mem, k) else TextAt(w, k))
            && (k in r ==> (r[k].bImmutable <==> GroupAfter(w, mem, k.mGroup) || OwnImmutability(w, mem, k)))
  {
    hide MemoryOk, Merged, Representable, EffectOf, Carries, TextAt, IsImmutableGroup, GroupAfter, ReloadedAt,
         GroupVisible, GroupWritten;
    var n := Merged(w, mem, false);
    MergedAt(w, mem, k, locale);
    ReloadedText(n, locale, k);
    MergedGroup(w, mem, k.mGroup);
    SameDeletion(w, mem, n, k);
  }

  lemma ReloadedMerged(w: Entries, mem: Entries, locale: bytes)
    requires MemoryOk(mem) && Representable(w, locale)
    ensures SyncedDisk(w, mem, Reloaded(Merged(w, mem, false), locale, true))
  {
    hide MemoryOk, Merged, Representable, EffectOf, Carries, TextAt, IsImmutableGroup, GroupAfter, ReloadedAt,
         GroupVisible, GroupWritten, OwnImmutability;
    var r := Reloaded(Merged(w, mem, false), locale, true);
    MergedRepresentable(w, mem, locale);
    forall k: KEntryKey | k.mKey != []
      ensures TextAt(r, k) == if Carries(mem, k) then EffectOf(mem, k) else TextAt(w, k)
      ensures k in r ==> (r[k].bImmutable <==> GroupAfter(w, mem, k.mGroup) || OwnImmutability(w, mem, k))
    {
      ReloadedMergedKey(w, mem, locale, k);
    }
    forall g | Marker(g) in r
      ensures r[Marker(g)].bImmutable <==> GroupAfter(w, mem, g)
    {
      MergedGroup(w, mem, g);
    }
  }

  /** A key is deleted in the merged map exactly if it is carried as deleted over a default, or
      not carried and deleted in the file. */
  lemma SameDeletion(w: Entries, mem: Entries, n: Entries, k: KEntryKey)
    requires MemoryOk(mem)
    requires TextAt(n, k) == if Carries(mem, k) then EffectOf(mem, k) else TextAt(w, k)
    ensures k in n ==> (n[k].bDeleted <==> if Carries(mem, k) then mem[k].bDeleted else k in w && w[k].bDeleted)
  {
    hide KeyOk, FlushSafe, GroupOk;
    if Carries(mem, k) {
      assert MemoryEntryOk(k, mem[k]);
    }
  }

  /** A sync that writes: every key it carries takes its effect, every other key keeps what the
      file said, whoever put it there; markers in memory decide about the groups. */
  lemma SyncWrites(s: OnFile, locale: bytes)
    requires LocaleOk(locale) && FileOk(s.file, locale) && MemoryOk(s.config.entryMap) && Writes(s.config)
    ensures var s' := SyncFile(s, locale);
            && FileOk(s'.file, locale)
            && s'.config == Config(Cleaned(s.config.entryMap, false), false, s.config.bFileImmutable)
            && MemoryOk(s'.config.entryMap)
            && (forall k :: k in s'.config.entryMap ==> !s'.config.entryMap[k].bDirty)
            && SyncedDisk(OnDisk(s.file, locale), s.config.entryMap, OnDisk(s'.file, locale))
  {
    hide ParseConfig, WriteEntries, LocaleOk, Reloaded, MemoryOk, Representable, LooselyRepresentable, AllStable,
         Merged, Cleaned, SyncedDisk, ReadersAgree;
    FileIsRepresentable(s.file, locale);
    var w, mem := OnDisk(s.file, locale), s.config.entryMap;
    MergedRepresentable(w, mem, locale);
    WrittenFile(Merged(w, mem, false), locale);
    CleanedMemoryOk(mem);
    ReloadedMerged(w, mem, locale);
  }
}
