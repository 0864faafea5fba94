/** Deleting a group, writing the changes and reading the file again. The deletion takes the
    localized entries out of memory, but their lines stay in the file, so the group can exist
    again (src/core/kconfig.cpp:359-391, 433-521, 689-732, 1053-1067, src/core/kconfigini.cpp:418-445). */
module GroupsOnDisk {
  import opened Bytes
  import opened CodecLaws
  import opened EntryMap
  import opened Immutability
  import opened Revert
  import opened IniParser
  import opened IniLines
  import opened IniEntries
  import opened FileRoundTrip
  import opened Sync
  import opened Protocol
  import opened Clients
  import opened Durability
  import opened GroupTree
  import opened GroupQueries
  import GroupDeletion

  /** A persistent deletion without further flags. */
  const DELETION: EntryOptions := PutOptions(Null, false)

  /** The keys of the group can be written. */
  ghost predicate KeysWritable(m: Entries, g: bytes) {
    forall x :: x in m && Within(x.mGroup, g) && x.mKey != [] ==> KeyOk(x.mKey) && GroupNameOk(x.mGroup)
  }

  // ---------------------------------------------------------------------------
  // The object after the deletion
  // ---------------------------------------------------------------------------

  lemma MarkedDirty(s: OnFile, locale: bytes)
    requires Durable(s, locale)
    ensures Durable(s.(config := s.config.(bDirty := true)), locale)
  {
    hide MemoryOk, FileOk, OnDisk, ShownAt, TextAt;
    var s' := s.(config := s.config.(bDirty := true));
    forall k: KEntryKey | k.mKey != []
      ensures if k.bLocal then LocalUpToDate(s', locale, k) else UpToDate(s', locale, k)
    {
      assert if k.bLocal then LocalUpToDate(s, locale, k) else UpToDate(s, locale, k);
    }
  }

  lemma StepDurable(s: OnFile, g: bytes, k: bytes, locale: bytes)
    requires LocaleOk(locale) && Durable(s, locale) && KeyOk(k) && GroupNameOk(g)
    ensures Durable(s.(config := GroupDeletion.DeleteStep(s.config, g, k, DELETION)), locale)
  {
    hide LocaleOk, Durable, KeyOk, GroupNameOk, SetEntry, GroupDeletion.CanWriteEntry;
    if GroupDeletion.CanWriteEntry(s.config.entryMap, g, k, s.config.bFileImmutable) {
      ChangeDurable(s, Put(0, g, k, Null, false), locale);
      MarkedDirty(Act(s, Put(0, g, k, Null, false), locale), locale);
    }
  }

  lemma ListedWritable(m: Entries, g: bytes, p: GroupDeletion.GroupKey)
    requires KeysWritable(m, g) && Within(p.g, g) && p.k in KeyList(m, p.g)
    ensures KeyOk(p.k) && GroupNameOk(p.g)
  {
    hide Within, KeyOk, GroupNameOk;
  }

  lemma {:induction false} AllDurable(s: OnFile, g: bytes, ks: seq<GroupDeletion.GroupKey>, locale: bytes)
    requires LocaleOk(locale) && Durable(s, locale) && KeysWritable(s.config.entryMap, g)
    requires GroupDeletion.Listed(s.config.entryMap, g, ks)
    ensures Durable(s.(config := GroupDeletion.DeleteAll(s.config, ks, DELETION)), locale)
    decreases |ks|
  {
    hide LocaleOk, Durable, KeysWritable, GroupDeletion.DeleteStep, Within;
    if ks == [] {
    } else {
      var n := |ks| - 1;
      assert ks[n] in ks;
      AllDurable(s, g, ks[..n], locale);
      ListedWritable(s.config.entryMap, g, ks[n]);
      StepDurable(s.(config := GroupDeletion.DeleteAll(s.config, ks[..n], DELETION)), ks[n].g, ks[n].k, locale);
    }
  }

  /** A deletion leaves a plain entry as it is or deletes it. */
  lemma StepKeepsOrDeletes(c: Config, g: bytes, k: bytes, x: KEntryKey)
    requires !x.bLocal && !x.bDefault && x.mKey != [] && k != []
    ensures var n := GroupDeletion.DeleteStep(c, g, k, DELETION).entryMap;
            x in n && !n[x].bDeleted ==> SameAt(c.entryMap, n, x)
  {
    hide Apply, IsImmutable, Refused;
    if x.mGroup != g || x.mKey != k {
      GroupDeletion.DeleteOneElsewhere(c.entryMap, g, k, c.bFileImmutable, DELETION, x);
    } else if Refused(c.entryMap, g, k, DELETION) {
      GroupDeletion.RefusedIsNothing(c.entryMap, g, k, DELETION);
    } else {
      GroupDeletion.DeletedPlain(c.entryMap, g, k, DELETION);
    }
  }

  lemma {:induction false} AllKeepOrDelete(c: Config, g: bytes, ks: seq<GroupDeletion.GroupKey>, x: KEntryKey)
    requires !x.bLocal && !x.bDefault && x.mKey != [] && GroupDeletion.Listed(c.entryMap, g, ks)
    ensures var n := GroupDeletion.DeleteAll(c, ks, DELETION).entryMap;
            x in n && !n[x].bDeleted ==> SameAt(c.entryMap, n, x)
    decreases |ks|
  {
    hide GroupDeletion.DeleteStep, Within;
    if ks == [] {
    } else {
      var n := |ks| - 1;
      assert ks[n] in ks;
      AllKeepOrDelete(c, g, ks[..n], x);
      StepKeepsOrDeletes(GroupDeletion.DeleteAll(c, ks[..n], DELETION), ks[n].g, ks[n].k, x);
    }
  }

  // ---------------------------------------------------------------------------
  // After reading the file again
  // ---------------------------------------------------------------------------

  /** In a file an entry that is not deleted has a value, and a localized one is not deleted. */
  lemma LoadedShows(file: bytes, locale: bytes, x: KEntryKey)
    requires FileOk(file, locale) && x.mKey != []
    ensures var r := Loaded(file, locale);
            && (x in r && !r[x].bDeleted <==> ShownAt(r, x).Present?)
            && (x.bLocal && x in r ==> !r[x].bDeleted)
            && (x in r ==> !x.bDefault)
  {
    hide ParseConfig, MemoryOk, LooseFile, KeyOk, RawKeyOk, FlushSafe, GroupOk;
    LoadedText(file, locale, x);
    FileIsRepresentable(file, locale);
    var disk := OnDisk(file, locale);
    if x in disk {
      assert RepresentableAt(disk, x, locale);
    }
  }

  /** An entry with a value, which is not deleted. */
  predicate HasValue(m: Entries, x: KEntryKey) {
    x in m && !m[x].bDeleted && m[x].mValue.Data?
  }

  /** A plain entry that is shown and stays although its group is deleted. */
  predicate Resists(m: Entries, x: KEntryKey) {
    !x.bDefault && HasValue(m, x) && GroupDeletion.Survives(m, x, false, DELETION)
  }

  /** Something plain in the group resists the deletion. */
  ghost predicate PlainSurvivor(m: Entries, g: bytes) {
    exists x :: x in m && Within(x.mGroup, g) && x.mKey != [] && !x.bLocal && Resists(m, x)
  }

  /** The file has a localized line of the group for the reader. */
  ghost predicate LocalizedLine(loaded: Entries, g: bytes) {
    exists x :: x in loaded && Within(x.mGroup, g) && x.mKey != [] && x.bLocal
  }

  /** What is found of one key in the end. */
  lemma AfterwardsAt(s: OnFile, n: Entries, dirty: bool, g: bytes, locale: bytes, x: KEntryKey)
    requires LocaleOk(locale) && Durable(s, locale) && KeysWritable(s.config.entryMap, g)
    requires GroupDeletion.Reaches(s.config, n, dirty, g, DELETION)
    requires GroupDeletion.DeletedSoFar(s.config.entryMap, n, x, true, false, DELETION)
    requires x.mKey != []
    ensures var m, r := s.config.entryMap, Sync.Reparse(OnFile(Config(n, dirty, false), s.file),
            locale).config.entryMap;
            x in r && !r[x].bDeleted <==>
            if x.bLocal then x in Loaded(s.file, locale)
            else Resists(m, x)
  {
    hide LocaleOk, FileOk, OnDisk, Loaded, SyncFile, Sync.Reparse, Durable, KeysWritable, GroupDeletion.Survives,
         GroupDeletion.DeleteAll, GroupDeletion.Listed;
    var m, s' := s.config.entryMap, OnFile(Config(n, dirty, false), s.file);
    DurableMeans(s, locale);
    var ks :| GroupDeletion.Listed(m, g, ks) && GroupDeletion.DeleteAll(s.config, ks, DELETION)
        == Config(n, dirty, false);
    AllDurable(s, g, ks, locale);
    ReparseDurable(s', locale);
    ReparseIsOpened(s', locale);
    LoadedShows(SyncFile(s', locale).file, locale, x);
    if x.bLocal {
      LoadedText(s.file, locale, x);
    } else if !x.bDefault {
      AllKeepOrDelete(s.config, g, ks, x);
      ShownMeans(n, x);
    } else {
      LoadedShows(SyncFile(s', locale).file, locale, x);
    }
  }

  lemma ShownMeans(m: Entries, x: KEntryKey)
    ensures ShownAt(m, x).Present? <==> HasValue(m, x)
  {
  }

  /** A group that has been deleted exists again once the changes are written and the file is
      read, exactly if something plain in it has resisted the deletion, or the file has a
      localized line for one of its keys. */
  lemma GroupGoneOnDiskExactly(s: OnFile, n: Entries, dirty: bool, g: bytes, locale: bytes)
    requires LocaleOk(locale) && Durable(s, locale) && KeysWritable(s.config.entryMap, g)
    requires GroupDeletion.Reaches(s.config, n, dirty, g, DELETION)
    requires forall x: KEntryKey :: GroupDeletion.DeletedSoFar(s.config.entryMap, n, x, x.mKey != []
             && Within(x.mGroup, g), false, DELETION)
    ensures HasNonDeletedEntries(Sync.Reparse(OnFile(Config(n, dirty, false), s.file), locale).config.entryMap, g)
            <==> PlainSurvivor(s.config.entryMap, g) || LocalizedLine(Loaded(s.file, locale), g)
  {
    hide LocaleOk, Loaded, Sync.Reparse, Durable, KeysWritable, GroupDeletion.DeletedSoFar, GroupDeletion.Reaches,
         Within, Resists;
    var m, loaded := s.config.entryMap, Loaded(s.file, locale);
    var r := Sync.Reparse(OnFile(Config(n, dirty, false), s.file), locale).config.entryMap;
    forall x: KEntryKey | x.mKey != [] && Within(x.mGroup, g)
      ensures x in r && !r[x].bDeleted <==>
              if x.bLocal then x in loaded
              else Resists(m, x)
    {
      assert GroupDeletion.DeletedSoFar(m, n, x, x.mKey != [] && Within(x.mGroup, g), false, DELETION);
      AfterwardsAt(s, n, dirty, g, locale, x);
    }
    if HasNonDeletedEntries(r, g) {
      var x :| x in r && Within(x.mGroup, g) && IsNonDeletedKey(r, x);
      if !x.bLocal {
        assert x in m by { ResistingIsThere(m, x); }
      }
    }
    if PlainSurvivor(m, g) {
      var x :| x in m && Within(x.mGroup, g) && x.mKey != [] && !x.bLocal && Resists(m, x);
      assert IsNonDeletedKey(r, x);
    }
    if LocalizedLine(loaded, g) {
      var x :| x in loaded && Within(x.mGroup, g) && x.mKey != [] && x.bLocal;
      assert IsNonDeletedKey(r, x);
    }
  }

  lemma ResistingIsThere(m: Entries, x: KEntryKey)
    requires Resists(m, x)
    ensures x in m
  {
  }
}
