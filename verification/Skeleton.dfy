/** Settings items on top of the entry map: each holds the value in use, its default and the
    value last loaded or saved (src/core/kcoreconfigskeleton.h:325-414,
    src/core/kcoreconfigskeleton.cpp:1314-1425, src/core/kconfiggroup.cpp:1110-1130). Items
    without limits and without immutability; results about saving are for items without localized
    entries, and module LocalizedItems is about reading those. SkeletonObject.dfy holds the objects. */
module Skeleton {
  import opened Bytes
  import opened EntryMap
  import opened Immutability
  import opened Revert
  import opened Sync

  /** How values are written and read; an entry may ask for its variables to be expanded. */
  datatype Codec<!T(!new)> = Codec(encode: T -> bytes, decode: (bytes, bool) -> T)

  ghost predicate Lossless<T(!new)>(c: Codec<T>) {
    forall v :: c.decode(c.encode(v), false) == v
  }

  /** KConfigSkeletonGenericItem. */
  datatype Item<!T(!new)> = Item(group: bytes, key: bytes, codec: Codec<T>, builtin: T, reference: T, fallback: T,
                   loaded: T)

  /** readConfig, up to the value: what the entry says, or the built-in default. */
  function ReadValue<T(!new)>(m: Entries, item: Item<T>, defaults: bool): T {
    var it := FindEntry(m, item.group, item.key, SearchFlags(defaults, true));
    if it.At? && !m[it.key].bDeleted && m[it.key].mValue.Data?
    then item.codec.decode(m[it.key].mValue.data, m[it.key].bExpand)
    else item.builtin
  }

  function ReadItem<T(!new)>(m: Entries, item: Item<T>): Item<T> {
    var v := ReadValue(m, item, false);
    item.(reference := v, loaded := v)
  }

  /** readDefault followed by readConfig, as addItem does it. */
  function AddedItem<T(!new)>(m: Entries, item: Item<T>): Item<T> {
    ReadItem(m, item.(fallback := ReadValue(m, item, true)))
  }

  /** hasDefault looks at the value alone. */
  predicate HasDefault(m: Entries, g: bytes, k: bytes) {
    var it := FindEntry(m, g, k, SearchFlags(true, true));
    it.At? && m[it.key].mValue.Data?
  }

  function ValueWrite<T(!new)>(item: Item<T>): Write {
    Write(item.group, item.key, Data(item.codec.encode(item.reference)), NO_OPTIONS.(dirty := true))
  }

  /** writeConfig: the map afterwards; the item's loaded value becomes its value. */
  function WrittenMap<T(==, !new)>(m: Entries, item: Item<T>): Entries {
    if item.reference == item.loaded then m
    else if item.fallback == item.reference && !HasDefault(m, item.group, item.key)
    then EntryMap.RevertEntry(m, item.group, item.key, NO_OPTIONS.(dirty := true), false).m
    else Apply(m, ValueWrite(item))
  }

  function Saved<T(!new)>(item: Item<T>): Item<T> {
    item.(loaded := item.reference)
  }

  // ---------------------------------------------------------------------------
  // One item
  // ---------------------------------------------------------------------------

  /** The item knows what reading would return. */
  predicate Consistent<T(==, !new)>(m: Entries, item: Item<T>) {
    item.loaded == ReadValue(m, item, false) && item.fallback == ReadValue(m, item, true)
  }

  /** A reverted entry shows its default. */
  predicate RevertedRight(m: Entries, g: bytes, k: bytes) {
    var x, d := Plain(g, k), Default(g, k);
    x in m && m[x].bReverted ==>
      if d in m then m[x].mValue == m[d].mValue && m[x].bDeleted == m[d].bDeleted && m[x].bExpand == m[d].bExpand
      else m[x].mValue.Null?
  }

  predicate Mutable(m: Entries, x: KEntryKey) {
    x in m ==> !m[x].bImmutable && !m[x].bOverridesGlobal && !m[x].bGlobal
  }

  /** Nothing keeps the item from being written, its entry has no localized twin and is not a
      global one. */
  predicate Usable<T(!new)>(m: Entries, item: Item<T>) {
    var g, k := item.group, item.key;
    && k != []
    && KEntryKey(g, k, true, false) !in m && KEntryKey(g, k, true, true) !in m
    && Mutable(m, Plain(g, k)) && Mutable(m, Default(g, k))
    && (Marker(g) in m ==> !m[Marker(g)].bImmutable)
    && RevertedRight(m, g, k)
  }

  /** The entry is there without a value, so that comparing entries does not tell it from one
      with an empty value. */
  predicate Swallows(m: Entries, x: KEntryKey, value: bytes) {
    value == [] && x in m && m[x].mValue.Null? && !m[x].bDeleted && !m[x].bGlobal && !m[x].bExpand
  }

  predicate Reverts<T(==, !new)>(m: Entries, item: Item<T>) {
    item.fallback == item.reference && !HasDefault(m, item.group, item.key)
  }

  /** Saving the item will be lost on the map. */
  predicate LosesEmptyValue<T(==, !new)>(m: Entries, item: Item<T>) {
    && item.reference != item.loaded
    && !Reverts(m, item)
    && Swallows(m, Plain(item.group, item.key), item.codec.encode(item.reference))
  }

  /** What a lookup of one entry gives. */
  function EntryValue<T(!new)>(m: Entries, item: Item<T>, x: KEntryKey): T {
    if x in m && !m[x].bDeleted && m[x].mValue.Data? then item.codec.decode(m[x].mValue.data, m[x].bExpand)
       else item.builtin
  }

  lemma ReadsPlain<T(!new)>(m: Entries, item: Item<T>, defaults: bool)
    requires Usable(m, item)
    ensures ReadValue(m, item, defaults) == EntryValue(m, item, KEntryKey(item.group, item.key, false, defaults))
  {
  }

  /** What putting the value leaves in the map. */
  lemma PutLeaves<T(!new)>(m: Entries, item: Item<T>)
    requires Usable(m, item)
    ensures var x := Plain(item.group, item.key);
            var w := ValueWrite(item);
            var n := Apply(m, w);
            && x in n
            && (if x in m && SameEntry(m[x], Prepared(m[x], w.value, w.o)) then n[x] == m[x]
                else n[x].mValue == w.value && !n[x].bDeleted && !n[x].bExpand && !n[x].bReverted && !n[x].bImmutable
                     && !n[x].bGlobal && !n[x].bOverridesGlobal)
  {
    hide SameEntry, WithMarker, Apply;
    var w := ValueWrite(item);
    var x := Plain(item.group, item.key);
    PlainApply(m, w);
    WithoutTwinsAt(m, w.g, w.k, w.o, x);
    WithoutTwinsAt(Stored(m, w.g, w.k, w.value, w.o), w.g, w.k, w.o, x);
  }

  /** The rest of the map. */
  lemma PutKeepsOthers<T(!new)>(m: Entries, item: Item<T>, x: KEntryKey)
    requires Usable(m, item) && x != Plain(item.group, item.key)
    ensures x != Marker(item.group) || x in m ==> SameAt(m, Apply(m, ValueWrite(item)), x)
    ensures x in Apply(m, ValueWrite(item)) && x !in m ==>
            x == Marker(item.group) && Apply(m, ValueWrite(item))[x] == NEW_ENTRY
  {
    hide SameEntry, Apply, Prepared, Overridden;
    var w := ValueWrite(item);
    PlainApply(m, w);
    StoredAt(m, w.g, w.k, w.value, w.o, x);
    WithoutTwinsAt(m, w.g, w.k, w.o, x);
    WithoutTwinsAt(Stored(m, w.g, w.k, w.value, w.o), w.g, w.k, w.o, x);
  }

  /** The map after a save differs from the one before in the item's own entry and in the
      marker of its group. */
  lemma WrittenElsewhere<T(!new)>(m: Entries, item: Item<T>, x: KEntryKey)
    requires Usable(m, item) && x != Plain(item.group, item.key)
    ensures var n := WrittenMap(m, item);
            && (x != Marker(item.group) || x in m ==> SameAt(m, n, x))
            && (x in n && x !in m ==> x == Marker(item.group) && n[x] == NEW_ENTRY)
  {
    hide Apply, Usable;
    PutKeepsOthers(m, item, x);
  }

  /** After a put, reading the entry returns the value exactly if the write was not swallowed. */
  lemma PutReads<T(!new)>(m: Entries, item: Item<T>)
    requires Lossless(item.codec) && Usable(m, item) && item.loaded == ReadValue(m, item, false)
             && item.reference != item.loaded
    ensures var x := Plain(item.group, item.key);
            EntryValue(Apply(m, ValueWrite(item)), item, x) == item.reference <==>
                !Swallows(m, x, item.codec.encode(item.reference))
  {
    hide Apply, ReadValue, Usable;
    PutLeaves(m, item);
    ReadsPlain(m, item, false);
  }

  lemma WrittenUsable<T(!new)>(m: Entries, item: Item<T>)
    requires Usable(m, item)
    ensures Usable(WrittenMap(m, item), item)
  {
    hide Apply, HasDefault;
    var g, k := item.group, item.key;
    PutLeaves(m, item);
    WrittenElsewhere(m, item, KEntryKey(g, k, true, false));
    WrittenElsewhere(m, item, KEntryKey(g, k, true, true));
    WrittenElsewhere(m, item, Default(g, k));
    WrittenElsewhere(m, item, Marker(g));
  }

  /** Reverting makes the entry read as the built-in default, if there is no other. */
  lemma RevertReads<T(!new)>(m: Entries, item: Item<T>)
    requires Usable(m, item) && !HasDefault(m, item.group, item.key)
    ensures var n := EntryMap.RevertEntry(m, item.group, item.key, NO_OPTIONS.(dirty := true), false).m;
            EntryValue(n, item, Plain(item.group, item.key)) == item.builtin
  {
  }

  lemma NoDefaultReads<T(!new)>(m: Entries, item: Item<T>)
    requires Usable(m, item) && !HasDefault(m, item.group, item.key)
    ensures ReadValue(m, item, true) == item.builtin
  {
  }

  /** Whether the item was reverted or written, reading returns the saved value afterwards,
      exactly if the write is not lost. */
  lemma WriteExact<T(!new)>(m: Entries, item: Item<T>)
    requires Lossless(item.codec) && Usable(m, item) && Consistent(m, item)
    ensures Consistent(WrittenMap(m, item), Saved(item)) <==> !LosesEmptyValue(m, item)
  {
    hide Apply, ReadValue, Usable, Swallows, HasDefault, EntryMap.RevertEntry, EntryValue, Lossless;
    var n := WrittenMap(m, item);
    WrittenUsable(m, item);
    ReadsPlain(n, item, false);
    ReadsPlain(n, item, true);
    ReadsPlain(m, item, true);
    WrittenElsewhere(m, item, Default(item.group, item.key));
    SameValue(m, n, item, Default(item.group, item.key));
    SavedReads(n, item);
    if item.reference != item.loaded {
      PutReads(m, item);
      if Reverts(m, item) {
        RevertReads(m, item);
        NoDefaultReads(m, item);
      }
    }
  }

  lemma SavedReads<T(!new)>(m: Entries, item: Item<T>)
    ensures ReadValue(m, Saved(item), false) == ReadValue(m, item, false)
    ensures ReadValue(m, Saved(item), true) == ReadValue(m, item, true)
  {
  }

  lemma SameValue<T(!new)>(m: Entries, n: Entries, item: Item<T>, x: KEntryKey)
    requires SameAt(m, n, x)
    ensures EntryValue(m, item, x) == EntryValue(n, item, x)
  {
  }

  // ---------------------------------------------------------------------------
  // Several items
  // ---------------------------------------------------------------------------

  predicate SamePlace<T(!new)>(a: Item<T>, b: Item<T>) {
    a.group == b.group && a.key == b.key
  }

  ghost predicate Distinct<T(!new)>(items: seq<Item<T>>) {
    forall i, j :: 0 <= i < j < |items| ==> !SamePlace(items[i], items[j])
  }

  /** Two maps agree on everything that concerns an item. */
  ghost predicate SameFor<T(!new)>(m: Entries, n: Entries, item: Item<T>) {
    && (forall local, default_ :: SameAt(m, n, KEntryKey(item.group, item.key, local, default_)))
    && (Marker(item.group) in n ==>
      (Marker(item.group) in m && n[Marker(item.group)] == m[Marker(item.group)]) || n[Marker(item.group)] == NEW_ENTRY)
  }

  lemma WrittenForOthers<T(!new)>(m: Entries, item: Item<T>, other: Item<T>)
    requires Usable(m, item) && Usable(m, other) && !SamePlace(item, other)
    ensures SameFor(m, WrittenMap(m, item), other)
  {
    hide WrittenMap;
    forall local, default_
      ensures SameAt(m, WrittenMap(m, item), KEntryKey(other.group, other.key, local, default_))
    {
      WrittenElsewhere(m, item, KEntryKey(other.group, other.key, local, default_));
    }
    WrittenElsewhere(m, item, Marker(other.group));
  }

  lemma SameForReads<T(!new)>(m: Entries, n: Entries, item: Item<T>)
    requires SameFor(m, n, item) && Usable(m, item)
    ensures Usable(n, item)
    ensures Consistent(n, item) <==> Consistent(m, item)
    ensures Consistent(n, Saved(item)) <==> Consistent(m, Saved(item))
    ensures LosesEmptyValue(n, item) <==> LosesEmptyValue(m, item)
  {
    var g, k := item.group, item.key;
    assert SameAt(m, n, KEntryKey(g, k, true, false)) && SameAt(m, n, KEntryKey(g, k, true, true));
    assert SameAt(m, n, KEntryKey(g, k, false, false)) && SameAt(m, n, KEntryKey(g, k, false, true));
  }

  /** The loop of save over the items from i on. */
  function SavedMap<T(==, !new)>(m: Entries, items: seq<Item<T>>, i: nat): Entries
    requires i <= |items|
    decreases |items| - i
  {
    if i == |items| then m else SavedMap(WrittenMap(m, items[i]), items, i + 1)
  }

  ghost predicate AllUsable<T(!new)>(m: Entries, items: seq<Item<T>>) {
    forall j :: 0 <= j < |items| ==> Usable(m, items[j])
  }

  ghost predicate AllLossless<T(!new)>(items: seq<Item<T>>) {
    forall j :: 0 <= j < |items| ==> Lossless(items[j].codec)
  }

  lemma WrittenKeepsUsable<T(!new)>(m: Entries, items: seq<Item<T>>, i: nat)
    requires i < |items| && Distinct(items) && AllUsable(m, items)
    ensures AllUsable(WrittenMap(m, items[i]), items)
  {
    hide Usable, WrittenMap, SameFor, SamePlace;
    forall j | 0 <= j < |items|
      ensures Usable(WrittenMap(m, items[i]), items[j])
    {
      if j == i {
        WrittenUsable(m, items[i]);
      } else {
        Apart(items, i, j);
        WrittenForOthers(m, items[i], items[j]);
        SameForReads(m, WrittenMap(m, items[i]), items[j]);
      }
    }
  }

  lemma Apart<T(!new)>(items: seq<Item<T>>, i: nat, j: nat)
    requires Distinct(items) && i < |items| && j < |items| && i != j
    ensures !SamePlace(items[i], items[j])
  {
    if i > j {
      assert !SamePlace(items[j], items[i]);
    }
  }

  /** One item, followed through the loop. */
  lemma {:induction false} TrackItem<T(!new)>(m: Entries, items: seq<Item<T>>, i: nat, j: nat)
    requires i <= |items| && j < |items| && Distinct(items) && AllUsable(m, items) && Lossless(items[j].codec)
    requires i <= j ==> Consistent(m, items[j])
    ensures AllUsable(SavedMap(m, items, i), items)
    ensures Consistent(SavedMap(m, items, i), Saved(items[j])) <==>
            if i <= j then !LosesEmptyValue(m, items[j]) else Consistent(m, Saved(items[j]))
    decreases |items| - i
  {
    hide Usable, WrittenMap, SameFor, SamePlace, Consistent, LosesEmptyValue, Lossless, Saved;
    if i == |items| {
    } else {
      var n := WrittenMap(m, items[i]);
      WrittenKeepsUsable(m, items, i);
      if i == j {
        WriteExact(m, items[i]);
      } else {
        Apart(items, i, j);
        WrittenForOthers(m, items[i], items[j]);
        SameForReads(m, n, items[j]);
      }
      TrackItem(n, items, i + 1, j);
    }
  }

  // ---------------------------------------------------------------------------
  // The skeleton
  // ---------------------------------------------------------------------------

  datatype Settings<!T(!new)> = Settings(m: Entries, items: seq<Item<T>>)

  /** What a program does with its settings. Saving may write the file, which marks the
      entries in memory as clean. */
  datatype Action<T> = SetValue(i: nat, v: T) | SetDefaults | Read | Save(synced: bool)

  function Map<T(!new)>(f: Item<T> -> Item<T>, items: seq<Item<T>>): (r: seq<Item<T>>)
    ensures |r| == |items| && forall i :: 0 <= i < |items| ==> r[i] == f(items[i])
  {
    if items == [] then [] else [f(items[0])] + Map(f, items[1..])
  }

  function Step<T(==, !new)>(s: Settings<T>, a: Action<T>): (r: Settings<T>)
    requires a.SetValue? ==> a.i < |s.items|
    ensures |r.items| == |s.items|
  {
    match a
    case SetValue(i, v) => s.(items := s.items[i := s.items[i].(reference := v)])
    case SetDefaults => s.(items := Map((item: Item<T>) => item.(reference := item.fallback), s.items))
    case Read => s.(items := Map((item: Item<T>) => ReadItem(s.m, item), s.items))
    case Save(synced) =>
      var m := SavedMap(s.m, s.items, 0);
      Settings(if synced then Cleaned(m, false) else m, Map((item: Item<T>) => Saved(item), s.items))
  }

  /** What each step does to each item: setting one changes that one's value; showing the defaults,
      every value; reading takes value and loaded value from the map; saving takes the values as
      loaded. Only saving changes the map. */
  lemma StepOnItems<T(!new)>(s: Settings<T>, a: Action<T>, j: nat)
    requires (a.SetValue? ==> a.i < |s.items|) && j < |s.items|
    ensures var x, y := s.items[j], Step(s, a).items[j];
            match a
            case SetValue(i, v) => y == if i == j then x.(reference := v) else x
            case SetDefaults => y.reference == x.fallback && y == x.(reference := y.reference)
            case Read => y.reference == y.loaded == ReadValue(s.m, x, false)
                         && y == x.(reference := y.reference, loaded := y.loaded)
            case Save(_) => y.loaded == x.reference && y == x.(loaded := y.loaded)
    ensures a.Save? || Step(s, a).m == s.m
  {
    hide ReadValue, SavedMap;
  }

  /** A save that reaches the file leaves the same map, with nothing of it to write any more. */
  lemma SaveOnMap<T(!new)>(s: Settings<T>, k: KEntryKey)
    ensures var m, n := Step(s, Save(false)).m, Step(s, Save(true)).m;
            && m == SavedMap(s.m, s.items, 0)
            && (k in n <==> k in m)
            && (k in n ==>
              n[k] == m[k].(bDirty := n[k].bDirty, bDeleted := n[k].bDeleted) && (n[k].bDirty ==> n[k].bGlobal))
  {
    hide ReadValue, SavedMap;
  }

  /** Every item knows what reading would return. */
  ghost predicate Good<T(!new)>(s: Settings<T>) {
    && Distinct(s.items) && AllUsable(s.m, s.items) && AllLossless(s.items)
    && forall j :: 0 <= j < |s.items| ==> Consistent(s.m, s.items[j])
  }

  ghost predicate SaveNeeded<T(!new)>(s: Settings<T>) {
    exists j :: 0 <= j < |s.items| && s.items[j].reference != s.items[j].loaded
  }

  ghost predicate LosesNothing<T(!new)>(s: Settings<T>) {
    forall j :: 0 <= j < |s.items| ==> !LosesEmptyValue(s.m, s.items[j])
  }

  lemma CleanedAt(m: Entries, x: KEntryKey)
    ensures x in Cleaned(m, false) <==> x in m
    ensures x in m ==> Cleaned(m, false)[x].bImmutable == m[x].bImmutable
    ensures x in m && !m[x].bOverridesGlobal ==> Cleaned(m, false)[x] == m[x].(bDirty := Cleaned(m, false)[x].bDirty)
  {
  }

  lemma CleanedFor<T(!new)>(m: Entries, item: Item<T>)
    requires Usable(m, item)
    ensures Usable(Cleaned(m, false), item)
    ensures Consistent(Cleaned(m, false), item) <==> Consistent(m, item)
  {
    hide Cleaned, ReadValue;
    var g, k := item.group, item.key;
    CleanedAt(m, KEntryKey(g, k, true, false));
    CleanedAt(m, KEntryKey(g, k, true, true));
    CleanedAt(m, Plain(g, k));
    CleanedAt(m, Default(g, k));
    CleanedAt(m, Marker(g));
    ReadsPlain(m, item, false);
    ReadsPlain(m, item, true);
    ReadsPlain(Cleaned(m, false), item, false);
    ReadsPlain(Cleaned(m, false), item, true);
  }

  /** After a save the items are consistent with the map, one by one, exactly if none of their
      values was lost. */
  lemma SaveExact<T(!new)>(s: Settings<T>, synced: bool)
    requires Good(s)
    ensures var s' := Step(s, Save(synced));
            && Good(s') <==> LosesNothing(s)
    ensures !SaveNeeded(Step(s, Save(synced)))
  {
    hide Usable, Consistent, LosesEmptyValue, Lossless, SavedMap, Cleaned;
    var s' := Step(s, Save(synced));
    var m := SavedMap(s.m, s.items, 0);
    forall j | 0 <= j < |s.items|
      ensures Usable(s'.m, s'.items[j]) && (Consistent(s'.m, s'.items[j]) <==> !LosesEmptyValue(s.m, s.items[j]))
    {
      TrackItem(s.m, s.items, 0, j);
      UsableSaved(m, s.items[j]);
      CleanedFor(m, s'.items[j]);
    }
    DistinctSaved(s.items, s'.items);
  }

  lemma UsableSaved<T(!new)>(m: Entries, item: Item<T>)
    ensures Usable(m, Saved(item)) <==> Usable(m, item)
  {
  }

  lemma DistinctSaved<T(!new)>(items: seq<Item<T>>, items': seq<Item<T>>)
    requires |items'| == |items| && forall j :: 0 <= j < |items| ==> SamePlace(items'[j], items[j])
    ensures Distinct(items') <==> Distinct(items)
  {
  }

  lemma SetKeepsGood<T(!new)>(s: Settings<T>, i: nat, v: T)
    requires Good(s) && i < |s.items|
    ensures Good(Step(s, SetValue(i, v)))
  {
    hide FindEntry;
    var s' := Step(s, SetValue(i, v));
    DistinctSaved(s.items, s'.items);
    forall j | 0 <= j < |s.items|
      ensures Usable(s'.m, s'.items[j]) && Consistent(s'.m, s'.items[j]) && Lossless(s'.items[j].codec)
    {
      assert Usable(s.m, s.items[j]) && Consistent(s.m, s.items[j]) && Lossless(s.items[j].codec);
    }
  }

  lemma DefaultsAndReadKeepGood<T(!new)>(s: Settings<T>, a: Action<T>)
    requires Good(s) && (a.SetDefaults? || a.Read?)
    ensures Good(Step(s, a))
  {
    hide FindEntry;
    var s' := Step(s, a);
    DistinctSaved(s.items, s'.items);
    forall j | 0 <= j < |s.items|
      ensures Usable(s'.m, s'.items[j]) && Consistent(s'.m, s'.items[j]) && Lossless(s'.items[j].codec)
    {
      assert Usable(s.m, s.items[j]) && Consistent(s.m, s.items[j]) && Lossless(s.items[j].codec);
    }
  }

  function Run<T(==, !new)>(s: Settings<T>, acts: seq<Action<T>>): (r: Settings<T>)
    requires forall a :: a in acts && a.SetValue? ==> a.i < |s.items|
    ensures |r.items| == |s.items|
    decreases |acts|
  {
    if acts == [] then s else Run(Step(s, acts[0]), acts[1..])
  }

  /** No save of the run writes an empty value over an entry without a value. */
  ghost predicate NothingLost<T(!new)>(s: Settings<T>, acts: seq<Action<T>>)
    requires forall a :: a in acts && a.SetValue? ==> a.i < |s.items|
    decreases |acts|
  {
    acts != [] ==> (acts[0].Save? ==> LosesNothing(s)) && NothingLost(Step(s, acts[0]), acts[1..])
  }

  /** Along any run of setting values, setting defaults, saving and reading, every item keeps
      knowing what reading would return. */
  lemma {:induction false} RunKeepsGood<T(!new)>(s: Settings<T>, acts: seq<Action<T>>)
    requires Good(s) && forall a :: a in acts && a.SetValue? ==> a.i < |s.items|
    requires NothingLost(s, acts)
    ensures Good(Run(s, acts))
    decreases |acts|
  {
    hide Good, LosesNothing, Step;
    if acts == [] {
    } else {
      match acts[0] {
        case SetValue(i, v) => SetKeepsGood(s, i, v);
        case Save(synced) => SaveExact(s, synced);
        case _ => DefaultsAndReadKeepGood(s, acts[0]);
      }
      RunKeepsGood(Step(s, acts[0]), acts[1..]);
    }
  }

  /** Then saving and reading again changes no item. */
  lemma SaveThenRead<T(!new)>(s: Settings<T>, acts: seq<Action<T>>, synced: bool)
    requires Good(s) && forall a :: a in acts && a.SetValue? ==> a.i < |s.items|
    requires NothingLost(s, acts) && LosesNothing(Run(s, acts))
    ensures var saved := Step(Run(s, acts), Save(synced));
            Step(saved, Read) == saved && !SaveNeeded(saved)
  {
    hide Usable, ReadValue, Lossless, LosesNothing, SavedMap, NothingLost, Run;
    RunKeepsGood(s, acts);
    var saved := Step(Run(s, acts), Save(synced));
    SaveExact(Run(s, acts), synced);
    forall j | 0 <= j < |saved.items|
      ensures ReadItem(saved.m, saved.items[j]) == saved.items[j]
    {
      assert Consistent(saved.m, saved.items[j]);
    }
  }

  /** Codecs that never give an empty text, such as those of numbers, lose nothing. */
  lemma NeverEmptyLosesNothing<T(!new)>(s: Settings<T>)
    requires forall j, v :: 0 <= j < |s.items| ==> s.items[j].codec.encode(v) != []
    ensures LosesNothing(s)
  {
  }

  /** Adding an item of a place of its own keeps every item knowing what reading returns, the
      new one included. */
  lemma AddKeepsGood<T(!new)>(s: Settings<T>, item: Item<T>)
    requires Good(s) && Usable(s.m, item) && Lossless(item.codec)
    requires forall j :: 0 <= j < |s.items| ==> !SamePlace(s.items[j], item)
    ensures Good(s.(items := s.items + [AddedItem(s.m, item)]))
  {
    hide FindEntry;
    var items := s.items + [AddedItem(s.m, item)];
    forall j | 0 <= j < |items|
      ensures Usable(s.m, items[j]) && Consistent(s.m, items[j]) && Lossless(items[j].codec)
    {
      if j < |s.items| {
        assert Usable(s.m, s.items[j]) && Consistent(s.m, s.items[j]) && Lossless(s.items[j].codec);
      }
    }
  }

  /** Adding one of them again, under another name, takes back a value that has not been saved
      and changes nothing else. */
  lemma AddedAgain<T(!new)>(s: Settings<T>, j: nat)
    requires Good(s) && j < |s.items|
    ensures AddedItem(s.m, s.items[j]) == s.items[j].(reference := s.items[j].loaded)
    ensures Good(s.(items := s.items[j := AddedItem(s.m, s.items[j])]))
  {
    hide ReadValue;
    AddedReads(s.m, s.items[j]);
    SetKeepsGood(s, j, s.items[j].loaded);
  }

  lemma AddedReads<T(!new)>(m: Entries, item: Item<T>)
    ensures AddedItem(m, item) ==
            item.(reference := ReadValue(m, item, false), loaded := ReadValue(m, item, false),
                fallback := ReadValue(m, item, true))
  {
  }

  /** How a value is lost: saving the default reverts the entry, and an empty value set after
      that is not written; reading brings the default back. */
  lemma EmptyAfterRevertIsLost<T(!new)>(m: Entries, item: Item<T>, v: T)
    requires Lossless(item.codec) && Usable(m, item) && Consistent(m, item)
    requires item.reference != item.loaded && item.reference == item.fallback && Default(item.group, item.key) !in m
    requires Plain(item.group, item.key) in m && !m[Plain(item.group, item.key)].bExpand
    requires item.codec.encode(v) == [] && v != item.reference
    ensures var n := WrittenMap(m, item);
            var again := Saved(item).(reference := v);
            && LosesEmptyValue(n, again)
            && ReadValue(WrittenMap(n, again), again, false) == item.builtin != v
  {
    hide Apply;
    var g, k := item.group, item.key;
    var x := Plain(g, k);
    var n := WrittenMap(m, item);
    var again := Saved(item).(reference := v);
    ReadsPlain(m, item, false);
    ReadsPlain(m, item, true);
    WrittenUsable(m, item);
    UsableSaved(n, item);
    WriteExact(m, item);
    assert n == m[x := Reverted(m, x, NO_OPTIONS.(dirty := true))];
    ReadsPlain(n, again, true);
    WrittenUsable(n, again);
    PutLeaves(n, again);
    ReadsPlain(WrittenMap(n, again), again, false);
  }

  // ---------------------------------------------------------------------------
  // Looking at the defaults
  // ---------------------------------------------------------------------------

  function Swapped<T(!new)>(item: Item<T>): Item<T> {
    item.(reference := item.fallback, fallback := item.reference)
  }

  /** useDefaults: the items, and whether defaults are shown. */
  function UseDefaults<T(!new)>(items: seq<Item<T>>, using: bool, b: bool): (seq<Item<T>>, bool) {
    if b == using then (items, using) else (Map((item: Item<T>) => Swapped(item), items), b)
  }

  /** Showing the defaults and going back restores every item, whatever is asked for twice. */
  lemma DefaultsAndBack<T(!new)>(items: seq<Item<T>>, using: bool)
    ensures var (shown, u) := UseDefaults(items, using, !using);
            && UseDefaults(shown, u, using) == (items, using)
            && UseDefaults(shown, u, u) == (shown, u)
            && forall j :: 0 <= j < |items| ==> shown[j].reference == items[j].fallback
  {
    var (shown, u) := UseDefaults(items, using, !using);
    assert UseDefaults(shown, u, using).0 == items;
  }
}
