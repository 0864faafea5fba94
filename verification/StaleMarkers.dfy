/** Group markers and merging: a marker in memory is written whether or not it has changed, so a
    sync can undo another object's, or the administrator's, view of a group
    (src/core/kconfigini.cpp:418-445, 148-155). */
module StaleMarkers {
  import opened Bytes
  import opened CodecLaws
  import opened EntryMap
  import opened Immutability
  import opened IniParser
  import opened IniWriter
  import opened IniLines
  import opened IniEntries
  import opened FileRoundTrip
  import opened Sync
  import opened Protocol
  import opened DefaultFiles
  import opened Clients

  // ---------------------------------------------------------------------------
  // One sync
  // ---------------------------------------------------------------------------

  /** Markers are written without being dirty, so a sync changes the immutability of a group
      in the file exactly if the marker in memory differs from the one there, whatever the sync
      was for. The default group's own immutability never survives. */
  lemma GroupFlips(s: OnFile, locale: bytes, g: bytes)
    requires LocaleOk(locale) && FileOk(s.file, locale) && MemoryOk(s.config.entryMap) && Writes(s.config)
    requires Marker(g) in OnDisk(s.file, locale) && Marker(g) in OnDisk(SyncFile(s, locale).file, locale)
    ensures var w, mem, n := OnDisk(s.file, locale), s.config.entryMap, OnDisk(SyncFile(s, locale).file, locale);
            n[Marker(g)].bImmutable != w[Marker(g)].bImmutable <==>
            if g == DEFAULT_GROUP then w[Marker(g)].bImmutable
            else Marker(g) in mem && mem[Marker(g)].bImmutable != w[Marker(g)].bImmutable
  {
    hide LocaleOk, FileOk, MemoryOk, OnDisk, SyncFile, AnyDirty, EffectOf, TextAt, Carries;
    SyncWrites(s, locale);
  }

  /** With the group flips the immutability of its keys, though the sync does not carry them:
      a mutable key becomes immutable exactly if the group is written as immutable, and an
      immutable one becomes mutable exactly if it is deleted and the group is not. */
  lemma KeyFlips(s: OnFile, locale: bytes, k: KEntryKey)
    requires LocaleOk(locale) && FileOk(s.file, locale) && MemoryOk(s.config.entryMap) && Writes(s.config)
    requires k in OnDisk(s.file, locale) && k.mKey != [] && !Carries(s.config.entryMap, k)
    ensures var w, mem, n := OnDisk(s.file, locale), s.config.entryMap, OnDisk(SyncFile(s, locale).file, locale);
            && k in n && TextAt(n, k) == TextAt(w, k)
            && (n[k].bImmutable != w[k].bImmutable <==>
                if w[k].bImmutable then w[k].bDeleted
                   && !GroupAfter(w, mem, k.mGroup) else GroupAfter(w, mem, k.mGroup))
  {
    hide LocaleOk, FileOk, MemoryOk, OnDisk, SyncFile, AnyDirty, EffectOf, Carries, GroupAfter;
    SyncWrites(s, locale);
  }

  // ---------------------------------------------------------------------------
  // Two objects
  // ---------------------------------------------------------------------------

  /** Two objects that do not agree about a group: the sync of each makes the group what that
      object remembers, and with the group the immutability of a key that only the first one
      has written. Its value is not touched. */
  lemma GroupWrittenTwice(w: World, locale: bytes, g: bytes, x: KEntryKey)
    requires LocaleOk(locale) && WorldOk(w, locale) && |w.clients| == |w.bases| == 2 && g != DEFAULT_GROUP
             && x.mGroup == g
             && x.mKey != []
    requires var a, b := w.clients[0], w.clients[1];
             && Writes(a) && Marker(g) in a.entryMap && a.entryMap[Marker(g)].bImmutable && !Carries(a.entryMap, x)
             && Writes(b) && Marker(g) in b.entryMap && !b.entryMap[Marker(g)].bImmutable
             && Carries(b.entryMap, x) && !b.entryMap[x].bImmutable && EffectOf(b.entryMap, x).Present?
    ensures Allowed(w, Clients.Sync(1)) && Allowed(Step(w, Clients.Sync(1), locale), Clients.Sync(0))
    ensures var w1 := Step(w, Clients.Sync(1), locale);
            var d1, d2 := OnDisk(w1.file, locale), OnDisk(Step(w1, Clients.Sync(0), locale).file, locale);
            && x in d1 && !d1[x].bImmutable && Marker(g) in d1 && !d1[Marker(g)].bImmutable
            && x in d2 && d2[x].bImmutable && Marker(g) in d2 && d2[Marker(g)].bImmutable
            && TextAt(d2, x) == TextAt(d1, x)
  {
    hide LocaleOk, MemoryOk, Cleaned, AnyDirty, Merged, ParseConfig, WriteEntries, EffectOf, LooselyRepresentable,
         AllStable, ReadersAgree;
    var w1 := Step(w, Clients.Sync(1), locale);
    SyncWrites(View(w, 1), locale);
    StepOk(w, Clients.Sync(1), locale);
    SyncWrites(View(w1, 0), locale);
    MarkerOnDisk(w1.file, locale, x);
    MarkerOnDisk(Step(w1, Clients.Sync(0), locale).file, locale, x);
  }

  lemma MarkerOnDisk(file: bytes, locale: bytes, x: KEntryKey)
    requires FileOk(file, locale) && x in OnDisk(file, locale)
    ensures Marker(x.mGroup) in OnDisk(file, locale)
  {
    hide ParseConfig, MemoryOk, ReadersAgree, LooseEntryOk, AllStable;
  }

  const LOCKED: bytes := [97] // "a", a group
  const OTHER: bytes := [98] // "b", another group
  const OLD_KEY: KEntryKey := KEntryKey(LOCKED, [99], false, false)
  const NEW_KEY: KEntryKey := KEntryKey(LOCKED, [100], false, false)
  const CHANGED: KEntry := NEW_ENTRY.(mValue := Data([]), bDirty := true)

  /** The administrator's file. */
  const LOCKED_MAP: Entries := map[
    Marker(LOCKED) := NEW_ENTRY.(bImmutable := true),
    OLD_KEY := NEW_ENTRY.(mValue := Data([]), bImmutable := true)]

  /** An object that has read it, and has changed something in another group. */
  const READER_MAP: Entries := LOCKED_MAP + map[Marker(OTHER) := NEW_ENTRY,
      KEntryKey(OTHER, [99], false, false) := CHANGED]

  /** One that is older than the file, and has added a key to the group. */
  const OLDER_MAP: Entries := map[Marker(LOCKED) := NEW_ENTRY, NEW_KEY := CHANGED]

  ghost function TwoObjects(locale: bytes): World {
    World(WriteEntries(LOCKED_MAP, locale, Null), [Config(READER_MAP, true, false), Config(OLDER_MAP, true, false)],
          [map[], map[]])
  }

  lemma LettersFit(c: byte)
    requires 97 <= c <= 122
    ensures KeyOk([c]) && GroupOk([c]) && FlushSafe([], [])
  {
    assert IndexOf([c], SEPARATOR) < 0;
  }

  lemma LockedRepresentable(locale: bytes)
    ensures Representable(LOCKED_MAP, locale)
  {
    hide KeyOk, GroupOk, FlushSafe, RawKeyOk;
    LettersFit(97);
    LettersFit(99);
  }

  lemma ReaderMapOk()
    ensures MemoryOk(READER_MAP)
  {
    hide KeyOk, GroupOk, FlushSafe;
    LettersFit(98);
    LettersFit(99);
  }

  lemma OlderMapOk()
    ensures MemoryOk(OLDER_MAP)
  {
    hide KeyOk, GroupOk, FlushSafe;
    LettersFit(97);
    LettersFit(100);
  }

  lemma TwoObjectsOk(locale: bytes)
    requires LocaleOk(locale)
    ensures WorldOk(TwoObjects(locale), locale)
  {
    hide FileOk, WriteEntries, LocaleOk, MemoryOk, Representable, WorldOk;
    LockedRepresentable(locale);
    ReaderMapOk();
    OlderMapOk();
    WrittenFile(LOCKED_MAP, locale);
    PairOk(WriteEntries(LOCKED_MAP, locale, Null), READER_MAP, OLDER_MAP, locale);
  }

  lemma PairOk(file: bytes, a: Entries, b: Entries, locale: bytes)
    requires FileOk(file, locale) && MemoryOk(a) && MemoryOk(b)
    ensures WorldOk(World(file, [Config(a, true, false), Config(b, true, false)], [map[], map[]]), locale)
  {
    hide FileOk, MemoryOk, Unchanged;
    NothingRead();
  }

  lemma NotDefault()
    ensures LOCKED != DEFAULT_GROUP && OTHER != DEFAULT_GROUP
  {
    assert |DEFAULT_GROUP| == 9;
  }

  lemma BothWrite()
    ensures Writes(Config(READER_MAP, true, false)) && Writes(Config(OLDER_MAP, true, false))
  {
    assert CHANGED == READER_MAP[KEntryKey(OTHER, [99], false, false)];
    assert CHANGED == OLDER_MAP[NEW_KEY];
  }

  /** It happens: the older object opens the group for everybody, and the reader, which has
      changed nothing in it, closes it again and makes the other one's key immutable. */
  lemma StaleMarkersHappen(locale: bytes)
    requires LocaleOk(locale)
    ensures Allowed(TwoObjects(locale), Clients.Sync(1))
            && Allowed(Step(TwoObjects(locale), Clients.Sync(1), locale), Clients.Sync(0))
    ensures var w1 := Step(TwoObjects(locale), Clients.Sync(1), locale);
            var d1, d2 := OnDisk(w1.file, locale), OnDisk(Step(w1, Clients.Sync(0), locale).file, locale);
            && NEW_KEY in d1 && !d1[NEW_KEY].bImmutable && Marker(LOCKED) in d1 && !d1[Marker(LOCKED)].bImmutable
            && NEW_KEY in d2 && d2[NEW_KEY].bImmutable && Marker(LOCKED) in d2 && d2[Marker(LOCKED)].bImmutable
  {
    hide FileOk, LocaleOk, WriteEntries, MemoryOk, WorldOk, Step, Writes;
    TwoObjectsOk(locale);
    NotDefault();
    BothWrite();
    GroupWrittenTwice(TwoObjects(locale), locale, LOCKED, NEW_KEY);
  }
}
