/** Deleting a group with everything below it, and what survives that
    (src/core/kconfig.cpp:359-391, 1053-1067, 1104-1110). */
module GroupDeletion {
  import opened Bytes
  import opened EntryMap
  import opened Immutability
  import opened Revert
  import opened EntryMapObject
  import opened Sync
  import opened KConfigObject
  import opened GroupTree
  import opened GroupQueries

  /** The options of a deletion: whatever the caller's write flags, never EntryDefault and
      never EntryLocalizedCountry. */
  predicate IsDeletion(o: EntryOptions) {
    o.deleted && !o.forDefault && !o.localizedCountry
  }

  /** canWriteEntry, for a caller that does not write defaults. */
  predicate CanWriteEntry(m: Entries, g: bytes, k: bytes, fileImmutable: bool) {
    !fileImmutable && !IsImmutable(m, g, k, SearchFlags(false, true))
  }

  /** One turn of the inner loop. */
  function DeleteOne(m: Entries, g: bytes, k: bytes, fileImmutable: bool, o: EntryOptions): Entries {
    if CanWriteEntry(m, g, k, fileImmutable) then Apply(m, Write(g, k, Null, o)) else m
  }

  /** What stays although its group is deleted: defaults; what is immutable; by a deletion of
      plain entries, a localized entry that has no plain twin; by a deletion of localized ones,
      plain entries and those for a country. */
  predicate Survives(m: Entries, x: KEntryKey, fileImmutable: bool, o: EntryOptions)
    requires x in m
  {
    || x.bDefault
    || !CanWriteEntry(m, x.mGroup, x.mKey, fileImmutable)
    || Refused(m, x.mGroup, x.mKey, o)
    || (if o.localized then !x.bLocal || m[x].bLocalizedCountry else x.bLocal && Plain(x.mGroup, x.mKey) !in m)
  }

  predicate Present(m: Entries, x: KEntryKey) {
    x in m && !m[x].bDeleted
  }

  predicate PresentAndSurvives(m: Entries, x: KEntryKey, fileImmutable: bool, o: EntryOptions) {
    Present(m, x) && Survives(m, x, fileImmutable, o)
  }

  lemma DeletedPlain(m: Entries, g: bytes, k: bytes, o: EntryOptions)
    requires k != [] && IsDeletion(o) && !o.localized && !Refused(m, g, k, o)
    ensures var n := Apply(m, Write(g, k, Null, o)); Plain(g, k) in n && n[Plain(g, k)].bDeleted
  {
    hide WithMarker, WithoutTwins, Apply;
    var x, w := Plain(g, k), Write(g, k, Null, o);
    PlainApply(m, w);
    WithoutTwinsAt(m, g, k, o, x);
    WithoutTwinsAt(Stored(m, g, k, Null, o), g, k, o, x);
  }

  lemma DeletedTwins(m: Entries, g: bytes, k: bytes, o: EntryOptions, x: KEntryKey)
    requires k != [] && IsDeletion(o) && !o.localized && !Refused(m, g, k, o)
    requires x.mGroup == g && x.mKey == k && x != Plain(g, k)
    ensures var n := Apply(m, Write(g, k, Null, o));
            if x.bDefault || Plain(g, k) !in m then SameAt(m, n, x) else x !in n
  {
    hide WithMarker, SameEntry, Apply, WithoutTwins;
    var w := Write(g, k, Null, o);
    PlainApply(m, w);
    StoredAt(m, g, k, Null, o, x);
    WithoutTwinsAt(m, g, k, o, x);
    WithoutTwinsAt(Stored(m, g, k, Null, o), g, k, o, x);
  }

  /** A localized deletion, spelled out. */
  lemma LocalizedDeletion(m: Entries, g: bytes, k: bytes, o: EntryOptions)
    requires k != [] && IsDeletion(o) && o.localized
    ensures var x := KEntryKey(g, k, true, false);
            var s := Stored(m, g, k, Null, o);
            Apply(m, Write(g, k, Null, o)) ==
            if Refused(m, g, k, o) then m
            else if x in m && (m[x].bLocalizedCountry || SameEntry(m[x], s[x])) then m
            else s
  {
    hide SameEntry, Stored;
    var s := Stored(m, g, k, Null, o);
    StoredCountry(m, g, k, o);
    assert Mirrored(s, g, k, Null, o) == s;
    if KEntryKey(g, k, true, false) in m {
      assert SetEntry(m, g, k, Null, o) == SetExisting(m, g, k, Null, o);
    } else {
      assert SetEntry(m, g, k, Null, o) == SetNew(m, g, k, Null, o);
    }
  }

  lemma StoredCountry(m: Entries, g: bytes, k: bytes, o: EntryOptions)
    requires IsDeletion(o) && o.localized
    ensures var x := KEntryKey(g, k, true, false);
            x in Stored(m, g, k, Null, o) && !Stored(m, g, k, Null, o)[x].bLocalizedCountry
                && Stored(m, g, k, Null, o)[x].bDeleted
  {
  }

  lemma DeletedLocal(m: Entries, g: bytes, k: bytes, o: EntryOptions, x: KEntryKey)
    requires k != [] && IsDeletion(o) && o.localized && !Refused(m, g, k, o) && x.mGroup == g && x.mKey == k
    ensures var n := Apply(m, Write(g, k, Null, o));
            if x.bDefault || !x.bLocal then SameAt(m, n, x)
            else x in m && m[x].bLocalizedCountry ==> SameAt(m, n, x)
    ensures x == KEntryKey(g, k, true, false) && !(x in m && m[x].bLocalizedCountry) ==>
            !Present(Apply(m, Write(g, k, Null, o)), x)
  {
    hide Stored, Apply;
    LocalizedDeletion(m, g, k, o);
    StoredCountry(m, g, k, o);
    StoredAt(m, g, k, Null, o, x);
  }

  /** One deletion, exactly. */
  lemma DeleteOneExact(m: Entries, g: bytes, k: bytes, fileImmutable: bool, o: EntryOptions, x: KEntryKey)
    requires k != [] && IsDeletion(o) && x.mGroup == g && x.mKey == k
    ensures Present(DeleteOne(m, g, k, fileImmutable, o), x) <==> PresentAndSurvives(m, x, fileImmutable, o)
  {
    hide Apply, Refused, IsImmutable, IsDeletion;
    if CanWriteEntry(m, g, k, fileImmutable) {
      if Refused(m, g, k, o) {
        RefusedIsNothing(m, g, k, o);
      } else if o.localized {
        DeletedLocal(m, g, k, o, x);
      } else if x == Plain(g, k) {
        DeletedPlain(m, g, k, o);
      } else {
        DeletedTwins(m, g, k, o, x);
      }
    }
  }

  lemma RefusedIsNothing(m: Entries, g: bytes, k: bytes, o: EntryOptions)
    requires k != [] && Refused(m, g, k, o)
    ensures Apply(m, Write(g, k, Null, o)) == m
  {
    Steps(m, g, k, Null, o);
  }

  lemma DeleteOneElsewhere(m: Entries, g: bytes, k: bytes, fileImmutable: bool, o: EntryOptions, x: KEntryKey)
    requires x.mGroup != g || x.mKey != k
    requires x != Marker(g) || x in m
    ensures SameAt(m, DeleteOne(m, g, k, fileImmutable, o), x)
  {
    hide Apply;
    OthersUntouched(m, Write(g, k, Null, o), x);
  }

  // ---------------------------------------------------------------------------
  // The whole group
  // ---------------------------------------------------------------------------

  /** An entry that the loops have dealt with, or not yet. */
  ghost predicate DeletedSoFar(m: Entries, n: Entries, x: KEntryKey, done: bool, fileImmutable: bool, o: EntryOptions) {
    if done then Present(n, x) <==> PresentAndSurvives(m, x, fileImmutable, o) else SameAt(m, n, x)
  }

  /** The loops have dealt with the groups below g but for those in todo, and with the keys of h
      but for those in keys. */
  ghost predicate Progress(m: Entries, n: Entries, g: bytes, todo: set<bytes>, h: bytes, keys: set<bytes>,
                           fileImmutable: bool, o: EntryOptions) {
    && WellKept(n)
    && forall x: KEntryKey :: DeletedSoFar(m, n, x, IsDone(x, g, todo, h, keys), fileImmutable, o)
  }

  predicate IsDone(x: KEntryKey, g: bytes, todo: set<bytes>, h: bytes, keys: set<bytes>) {
    x.mKey != [] && Within(x.mGroup, g) && x.mGroup !in todo && (x.mGroup == h ==> x.mKey !in keys)
  }

  /** What concerns a pair is the same in both maps. */
  lemma SameSurvival(m: Entries, n: Entries, x: KEntryKey, fileImmutable: bool, o: EntryOptions)
    requires forall local, default_ :: SameAt(m, n, KEntryKey(x.mGroup, x.mKey, local, default_))
    requires SameAt(m, n, Marker(x.mGroup))
    ensures PresentAndSurvives(m, x, fileImmutable, o) <==> PresentAndSurvives(n, x, fileImmutable, o)
    ensures CanWriteEntry(m, x.mGroup, x.mKey, fileImmutable) <==> CanWriteEntry(n, x.mGroup, x.mKey, fileImmutable)
    ensures x in m && IsNonDeletedKey(m, x) <==> x in n && IsNonDeletedKey(n, x)
  {
    var g, k := x.mGroup, x.mKey;
    assert SameAt(m, n, KEntryKey(g, k, true, false)) && SameAt(m, n, KEntryKey(g, k, true, true));
    assert SameAt(m, n, KEntryKey(g, k, false, false)) && SameAt(m, n, KEntryKey(g, k, false, true));
  }

  lemma UntouchedPair(m: Entries, n: Entries, g: bytes, todo: set<bytes>, h: bytes, keys: set<bytes>, k: bytes,
                      fileImmutable: bool, o: EntryOptions)
    requires Progress(m, n, g, todo, h, keys, fileImmutable, o) && k in keys
    ensures forall local, default_ :: SameAt(m, n, KEntryKey(h, k, local, default_))
    ensures SameAt(m, n, Marker(h))
  {
    hide SameAt, Survives, Within, WellKept;
    forall local, default_
      ensures SameAt(m, n, KEntryKey(h, k, local, default_))
    {
      assert DeletedSoFar(m, n, KEntryKey(h, k, local, default_),
             IsDone(KEntryKey(h, k, local, default_), g, todo, h, keys), fileImmutable, o);
    }
    assert DeletedSoFar(m, n, Marker(h), IsDone(Marker(h), g, todo, h, keys), fileImmutable, o);
  }

  lemma DeleteNext(m: Entries, n: Entries, g: bytes, todo: set<bytes>, h: bytes, keys: set<bytes>, k: bytes,
                   fileImmutable: bool, o: EntryOptions)
    requires Progress(m, n, g, todo, h, keys, fileImmutable, o) && k in keys && k != [] && Marker(h) in n
    requires Within(h, g) && h !in todo && IsDeletion(o)
    ensures Progress(m, DeleteOne(n, h, k, fileImmutable, o), g, todo, h, keys - {k}, fileImmutable, o)
  {
    hide Apply, PresentAndSurvives, SameAt, WellKept, Within, CanWriteEntry, IsDeletion;
    var n' := DeleteOne(n, h, k, fileImmutable, o);
    ApplyWellKept(n, Write(h, k, Null, o));
    UntouchedPair(m, n, g, todo, h, keys, k, fileImmutable, o);
    forall x: KEntryKey
      ensures DeletedSoFar(m, n', x, IsDone(x, g, todo, h, keys - {k}), fileImmutable, o)
    {
      assert DeletedSoFar(m, n, x, IsDone(x, g, todo, h, keys), fileImmutable, o);
      if x.mGroup == h && x.mKey == k {
        DeleteOneExact(n, h, k, fileImmutable, o, x);
        SameSurvival(m, n, x, fileImmutable, o);
      } else {
        DeleteOneElsewhere(n, h, k, fileImmutable, o, x);
        StillSoFar(m, n, n', x, IsDone(x, g, todo, h, keys), fileImmutable, o);
      }
    }
  }

  lemma StillSoFar(m: Entries, n: Entries, n': Entries, x: KEntryKey, done: bool, fileImmutable: bool, o: EntryOptions)
    requires DeletedSoFar(m, n, x, done, fileImmutable, o) && SameAt(n, n', x)
    ensures DeletedSoFar(m, n', x, done, fileImmutable, o)
  {
    hide Survives;
  }

  lemma Begin(m: Entries, g: bytes, fileImmutable: bool, o: EntryOptions)
    requires WellKept(m)
    ensures Progress(m, m, g, AllSubGroups(m, g), [], {}, fileImmutable, o)
    ensures !SomeWritable(m, g, AllSubGroups(m, g), [], {}, fileImmutable)
  {
    hide Survives, Within, CanWriteEntry;
    forall x: KEntryKey
      ensures DeletedSoFar(m, m, x, IsDone(x, g, AllSubGroups(m, g), [], {}), fileImmutable, o)
      ensures x in m ==> !IsDone(x, g, AllSubGroups(m, g), [], {})
    {
      if x in m && Within(x.mGroup, g) {
        assert Marker(x.mGroup) in m;
        assert x.mGroup in AllSubGroups(m, g);
      }
    }
  }

  /** One of the keys that the loops have dealt with could be written, so that they have marked
      the configuration. */
  ghost predicate SomeWritable(m: Entries, g: bytes, todo: set<bytes>, h: bytes, keys: set<bytes>,
                               fileImmutable: bool) {
    exists x :: x in m && IsNonDeletedKey(m, x) && CanWriteEntry(m, x.mGroup, x.mKey, fileImmutable)
        && IsDone(x, g, todo, h, keys)
  }

  /** The next group of the outer loop: keys that are not listed have nothing to delete. */
  lemma BeginGroup(m: Entries, n: Entries, g: bytes, todo: set<bytes>, h: bytes, h': bytes, fileImmutable: bool,
                   o: EntryOptions)
    requires Progress(m, n, g, todo, h, {}, fileImmutable, o) && h' in todo
    ensures Progress(m, n, g, todo - {h'}, h', KeyList(n, h'), fileImmutable, o)
    ensures SomeWritable(m, g, todo, h, {}, fileImmutable) <==>
            SomeWritable(m, g, todo - {h'}, h', KeyList(n, h'), fileImmutable)
    ensures KeyList(n, h') == KeyList(m, h')
  {
    hide Survives, WellKept, Within, CanWriteEntry;
    forall x: KEntryKey
      ensures DeletedSoFar(m, n, x, IsDone(x, g, todo - {h'}, h', KeyList(n, h')), fileImmutable, o)
      ensures x.mGroup == h' ==> SameAt(m, n, x)
      ensures x in m && IsNonDeletedKey(m, x) ==>
              (IsDone(x, g, todo - {h'}, h', KeyList(n, h')) <==> IsDone(x, g, todo, h, {}))
    {
      assert DeletedSoFar(m, n, x, IsDone(x, g, todo, h, {}), fileImmutable, o);
      if x.mGroup == h' && x.mKey !in KeyList(n, h') && x in n && x.mKey != [] {
        assert !IsNonDeletedKey(n, x);
      }
    }
  }

  /** One more key of the inner loop. */
  lemma WritableNext(m: Entries, n: Entries, g: bytes, todo: set<bytes>, h: bytes, keys: set<bytes>, k: bytes,
                     fileImmutable: bool, o: EntryOptions)
    requires Progress(m, n, g, todo, h, keys, fileImmutable, o) && k in keys && keys <= KeyList(m, h) && Within(h, g)
             && h !in todo
    ensures SomeWritable(m, g, todo, h, keys - {k}, fileImmutable) <==>
            SomeWritable(m, g, todo, h, keys, fileImmutable) || CanWriteEntry(n, h, k, fileImmutable)
  {
    hide Survives, WellKept, Within, CanWriteEntry, Progress;
    UntouchedPair(m, n, g, todo, h, keys, k, fileImmutable, o);
    var x :| x in m && x.mGroup == h && IsNonDeletedKey(m, x) && x.mKey == k;
    SameSurvival(m, n, x, fileImmutable, o);
    if CanWriteEntry(n, h, k, fileImmutable) {
      assert IsDone(x, g, todo, h, keys - {k});
    }
    if SomeWritable(m, g, todo, h, keys, fileImmutable) {
      var y :| y in m && IsNonDeletedKey(m, y) && CanWriteEntry(m, y.mGroup, y.mKey, fileImmutable)
          && IsDone(y, g, todo, h, keys);
      assert IsDone(y, g, todo, h, keys - {k});
    }
    if SomeWritable(m, g, todo, h, keys - {k}, fileImmutable) {
      var y :| y in m && IsNonDeletedKey(m, y) && CanWriteEntry(m, y.mGroup, y.mKey, fileImmutable)
          && IsDone(y, g, todo, h, keys - {k});
      assert IsDone(y, g, todo, h, keys) || (y.mGroup == h && y.mKey == k);
    }
  }

  /** There is something to delete that may be deleted. */
  ghost predicate Deletable(m: Entries, g: bytes, fileImmutable: bool) {
    exists x :: x in m && Within(x.mGroup, g) && IsNonDeletedKey(m, x)
        && CanWriteEntry(m, x.mGroup, x.mKey, fileImmutable)
  }

  /** One turn of the inner loop, with the mark that it leaves. */
  function DeleteStep(c: Config, g: bytes, k: bytes, o: EntryOptions): Config {
    c.(entryMap := DeleteOne(c.entryMap, g, k, c.bFileImmutable, o),
       bDirty := c.bDirty || CanWriteEntry(c.entryMap, g, k, c.bFileImmutable))
  }

  datatype GroupKey = GroupKey(g: bytes, k: bytes)

  /** All turns, in some order. */
  function DeleteAll(c: Config, ks: seq<GroupKey>, o: EntryOptions): Config
    decreases |ks|
  {
    if ks == [] then c
    else
      var n := |ks| - 1;
      DeleteStep(DeleteAll(c, ks[..n], o), ks[n].g, ks[n].k, o)
  }

  /** The keys are those that the group and its subgroups list. */
  ghost predicate Listed(m: Entries, g: bytes, ks: seq<GroupKey>) {
    forall p :: p in ks ==> Within(p.g, g) && p.k in KeyList(m, p.g)
  }

  /** The loops have come from c to where they are by deleting keys that are listed. */
  ghost predicate Reaches(c: Config, n: Entries, dirty: bool, g: bytes, o: EntryOptions) {
    exists ks :: Listed(c.entryMap, g, ks) && DeleteAll(c, ks, o) == Config(n, dirty, c.bFileImmutable)
  }

  lemma ReachesStart(c: Config, g: bytes, o: EntryOptions)
    ensures Reaches(c, c.entryMap, c.bDirty, g, o)
  {
    hide Within;
    assert Listed(c.entryMap, g, []);
    assert DeleteAll(c, [], o) == Config(c.entryMap, c.bDirty, c.bFileImmutable);
  }

  lemma ReachesNext(c: Config, n: Entries, dirty: bool, g: bytes, o: EntryOptions, h: bytes, k: bytes)
    requires Reaches(c, n, dirty, g, o) && Within(h, g) && k in KeyList(c.entryMap, h)
    ensures Reaches(c, DeleteOne(n, h, k, c.bFileImmutable, o), dirty || CanWriteEntry(n, h, k, c.bFileImmutable), g, o)
  {
    hide Within, DeleteOne, CanWriteEntry;
    var ks :| Listed(c.entryMap, g, ks) && DeleteAll(c, ks, o) == Config(n, dirty, c.bFileImmutable);
    var more := ks + [GroupKey(h, k)];
    assert more[..|ks|] == ks;
    assert Listed(c.entryMap, g, more);
    assert DeleteAll(c, more, o) == DeleteStep(DeleteAll(c, ks, o), h, k, o);
  }

  /** That is: the file is not immutable, and for some key that the group lists the entry that a
      localized lookup finds, if any, is not. */
  lemma DeletableExactly(m: Entries, g: bytes, fileImmutable: bool)
    ensures Deletable(m, g, fileImmutable) <==>
            !fileImmutable
            && exists x :: x in m && Within(x.mGroup, g) && x.mKey != [] && !m[x].bDeleted
                 && var local, plain := x.(bLocal := true, bDefault := false), x.(bLocal := false, bDefault := false);
                    if local in m then !m[local].bImmutable else plain in m ==> !m[plain].bImmutable
  {
    hide Within;
  }

  /** A group in which everything is immutable is left alone, and the configuration as clean as
      it was. */
  lemma ImmutableGroupIsNotDeleted(m: Entries, g: bytes, fileImmutable: bool, o: EntryOptions)
    requires forall x :: x in m && Within(x.mGroup, g) && x.mKey != [] ==> m[x].bImmutable && !x.bDefault
    ensures !Deletable(m, g, fileImmutable)
    ensures forall x :: x in m && Within(x.mGroup, g) && x.mKey != [] ==> Survives(m, x, fileImmutable, o)
  {
    hide Within;
    DeletableExactly(m, g, fileImmutable);
  }

  /** deleteGroup: exactly the entries that survive are left, nothing else changes, and the
      configuration is marked if there was anything that may be deleted. */
  method DeleteGroup(config: KConfig, g: bytes, o: EntryOptions)
    requires config.Valid() && WellKept(config.entryMap.entries) && IsDeletion(o)
    modifies config`bDirty, config.entryMap
    ensures config.Valid() && WellKept(config.entryMap.entries)
    ensures forall x: KEntryKey :: DeletedSoFar(old(config.entryMap.entries), config.entryMap.entries, x,
                                                x.mKey != [] && Within(x.mGroup, g), config.bFileImmutable, o)
    ensures config.bDirty <==> old(config.bDirty) || Deletable(old(config.entryMap.entries), g, config.bFileImmutable)
    ensures Reaches(Config(old(config.entryMap.entries), old(config.bDirty), config.bFileImmutable),
            config.entryMap.entries, config.bDirty, g, o)
  {
    hide *;
    ghost var c := Config(config.entryMap.entries, config.bDirty, config.bFileImmutable);
    ReachesStart(c, g, o);
    ghost var m := config.entryMap.entries;
    ghost var fileImmutable := config.bFileImmutable;
    ValidMeans(config);
    var groups := QueryAllSubGroups(config.entryMap, g);
    ghost var h: bytes := [];
    Begin(m, g, fileImmutable, o);
    SubGroupsHaveMarkers(m, g);
    while groups != {}
      invariant config.Valid() && config.entryMap.Valid()
      invariant Reaches(c, config.entryMap.entries, config.bDirty, g, o)
      invariant Progress(m, config.entryMap.entries, g, groups, h, {}, fileImmutable, o)
      invariant config.bDirty <==> old(config.bDirty) || SomeWritable(m, g, groups, h, {}, fileImmutable)
      invariant forall c :: c in groups ==> Within(c, g) && Marker(c) in m
    {
      var group :| group in groups;
      Shape(m, config.entryMap.entries, g, groups, h, {}, fileImmutable, o, group);
      var keys := QueryKeyList(config.entryMap, group);
      BeginGroup(m, config.entryMap.entries, g, groups, h, group, fileImmutable, o);
      h, groups := group, groups - {group};
      KeysNotEmpty(config.entryMap.entries, group);
      DeleteKeys(config, group, keys, o, c, g, groups);
    }
    AllDone(m, config.entryMap.entries, g, h, fileImmutable, o);
    Shape(m, config.entryMap.entries, g, {}, h, {}, fileImmutable, o, g);
  }

  /** The inner loop. */
  method DeleteKeys(config: KConfig, group: bytes, listed: set<bytes>, o: EntryOptions, ghost c: Config,
                    ghost g: bytes, ghost groups: set<bytes>)
    requires config.Valid() && config.bFileImmutable == c.bFileImmutable && IsDeletion(o)
    requires Within(group, g) && group !in groups && Marker(group) in c.entryMap
    requires listed <= KeyList(c.entryMap, group) && forall k :: k in listed ==> k != []
    requires Progress(c.entryMap, config.entryMap.entries, g, groups, group, listed, c.bFileImmutable, o)
    requires Reaches(c, config.entryMap.entries, config.bDirty, g, o)
    requires config.bDirty <==> c.bDirty || SomeWritable(c.entryMap, g, groups, group, listed, c.bFileImmutable)
    modifies config`bDirty, config.entryMap
    ensures config.Valid() && config.entryMap.Valid()
    ensures Progress(c.entryMap, config.entryMap.entries, g, groups, group, {}, c.bFileImmutable, o)
    ensures Reaches(c, config.entryMap.entries, config.bDirty, g, o)
    ensures config.bDirty <==> c.bDirty || SomeWritable(c.entryMap, g, groups, group, {}, c.bFileImmutable)
  {
    hide *;
    ValidMeans(config);
    var keys := listed;
    while keys != {}
      invariant config.Valid() && config.entryMap.Valid() && keys <= listed
      invariant Reaches(c, config.entryMap.entries, config.bDirty, g, o)
      invariant Progress(c.entryMap, config.entryMap.entries, g, groups, group, keys, c.bFileImmutable, o)
      invariant config.bDirty <==> c.bDirty || SomeWritable(c.entryMap, g, groups, group, keys, c.bFileImmutable)
    {
      var key :| key in keys;
      ghost var n := config.entryMap.entries;
      Shape(c.entryMap, n, g, groups, group, keys, c.bFileImmutable, o, group);
      DeleteNext(c.entryMap, n, g, groups, group, keys, key, c.bFileImmutable, o);
      WritableNext(c.entryMap, n, g, groups, group, keys, key, c.bFileImmutable, o);
      ReachesNext(c, n, config.bDirty, g, o, group, key);
      DeleteKey(config, group, key, o);
      keys := keys - {key};
    }
  }

  lemma ValidMeans(config: KConfig)
    ensures config.Valid() <==> config.entryMap.Valid()
  {
  }

  method DeleteKey(config: KConfig, g: bytes, k: bytes, o: EntryOptions)
    requires config.Valid()
    modifies config`bDirty, config.entryMap
    ensures config.Valid() && config.entryMap.Valid()
    ensures config.entryMap.entries == DeleteOne(old(config.entryMap.entries), g, k, config.bFileImmutable, o)
    ensures config.bDirty <==>
            old(config.bDirty) || CanWriteEntry(old(config.entryMap.entries), g, k, config.bFileImmutable)
  {
    hide KEntryMap.Valid, EntryMap.SetEntry, IsImmutable;
    if CanWriteEntry(config.entryMap.entries, g, k, config.bFileImmutable) {
      var _ := config.entryMap.SetEntry(g, k, Null, o);
      config.bDirty := true;
    }
  }

  lemma Shape(m: Entries, n: Entries, g: bytes, todo: set<bytes>, h: bytes, keys: set<bytes>, fileImmutable: bool,
              o: EntryOptions, c: bytes)
    requires Progress(m, n, g, todo, h, keys, fileImmutable, o)
    ensures WellKept(n) && (Marker(c) in m ==> Marker(c) in n)
  {
    hide WellKept, Survives, Within;
    assert DeletedSoFar(m, n, Marker(c), IsDone(Marker(c), g, todo, h, keys), fileImmutable, o);
  }

  lemma SubGroupsHaveMarkers(m: Entries, g: bytes)
    requires WellKept(m)
    ensures forall c :: c in AllSubGroups(m, g) ==> Within(c, g) && Marker(c) in m
  {
    hide Within;
  }

  lemma KeysNotEmpty(m: Entries, g: bytes)
    ensures forall k :: k in KeyList(m, g) ==> k != []
  {
  }

  lemma AllDone(m: Entries, n: Entries, g: bytes, h: bytes, fileImmutable: bool, o: EntryOptions)
    requires Progress(m, n, g, {}, h, {}, fileImmutable, o)
    ensures forall x: KEntryKey :: DeletedSoFar(m, n, x, x.mKey != [] && Within(x.mGroup, g), fileImmutable, o)
    ensures SomeWritable(m, g, {}, h, {}, fileImmutable) <==> Deletable(m, g, fileImmutable)
  {
    hide DeletedSoFar, WellKept, Within, CanWriteEntry;
    forall x: KEntryKey
      ensures IsDone(x, g, {}, h, {}) <==> x.mKey != [] && Within(x.mGroup, g)
    {
    }
    forall x: KEntryKey
      ensures DeletedSoFar(m, n, x, x.mKey != [] && Within(x.mGroup, g), fileImmutable, o)
    {
      assert DeletedSoFar(m, n, x, IsDone(x, g, {}, h, {}), fileImmutable, o);
    }
  }

  /** So a deleted group still exists exactly if something in it survives. */
  lemma GroupGoneExactly(m: Entries, n: Entries, g: bytes, fileImmutable: bool, o: EntryOptions)
    requires forall x: KEntryKey :: DeletedSoFar(m, n, x, x.mKey != [] && Within(x.mGroup, g), fileImmutable, o)
    ensures HasNonDeletedEntries(n, g) <==>
            exists x :: x in m && Within(x.mGroup, g) && IsNonDeletedKey(m, x) && Survives(m, x, fileImmutable, o)
  {
    hide Survives, Within;
    forall x: KEntryKey | x.mKey != [] && Within(x.mGroup, g)
      ensures Present(n, x) <==> PresentAndSurvives(m, x, fileImmutable, o)
    {
      assert DeletedSoFar(m, n, x, x.mKey != [] && Within(x.mGroup, g), fileImmutable, o);
    }
    if HasNonDeletedEntries(n, g) {
      var x :| x in n && Within(x.mGroup, g) && IsNonDeletedKey(n, x);
      assert Present(n, x);
    }
    if exists x :: x in m && Within(x.mGroup, g) && IsNonDeletedKey(m, x) && Survives(m, x, fileImmutable, o) {
      var x :| x in m && Within(x.mGroup, g) && IsNonDeletedKey(m, x) && Survives(m, x, fileImmutable, o);
      assert Present(n, x);
      assert IsNonDeletedKey(n, x);
    }
  }
}
