/** Settings and their file, through all layers: what a program saves is what another program
    that reads the file finds (src/core/kcoreconfigskeleton.cpp:1337-1386,
    src/core/kcoreconfigskeleton.h:388-399, src/core/kconfig.cpp:433-521, 689-732,
    src/core/kconfigini.cpp:40-450). */
module SettingsFile {
  import opened Bytes
  import opened CodecLaws
  import opened EntryMap
  import opened Immutability
  import opened Revert
  import opened IniParser
  import opened IniLines
  import opened IniEntries
  import opened Sync
  import opened Protocol
  import opened Clients
  import opened Durability
  import opened Skeleton

  /** An item whose value can be written to a file. */
  predicate Storable<T(!new)>(item: Item<T>) {
    GroupNameOk(item.group) && KeyOk(item.key) && FlushSafe([], item.codec.encode(item.reference))
  }

  /** The call that saving an item makes on its configuration. */
  function SaveAction<T(==, !new)>(m: Entries, item: Item<T>): seq<Clients.Action> {
    if item.reference == item.loaded then []
    else if Reverts(m, item) then [Clients.Revert(0, item.group, item.key)]
    else [Clients.Put(0, item.group, item.key, Data(item.codec.encode(item.reference)), false)]
  }

  function SaveActions<T(==, !new)>(m: Entries, items: seq<Item<T>>, i: nat): seq<Clients.Action>
    requires i <= |items|
    decreases |items| - i
  {
    if i == |items| then [] else SaveAction(m, items[i]) + SaveActions(WrittenMap(m, items[i]), items, i + 1)
  }

  lemma {:induction false} DoConcat(s: OnFile, a: seq<Clients.Action>, b: seq<Clients.Action>, locale: bytes)
    ensures Do(s, a + b, locale) == Do(Do(s, a, locale), b, locale)
    decreases |a|
  {
    hide Act;
    if a == [] {
      assert a + b == b;
    } else {
      assert (a + b)[1..] == a[1..] + b;
      DoConcat(Act(s, a[0], locale), a[1..], b, locale);
    }
  }

  lemma DoOne(s: OnFile, a: Clients.Action, locale: bytes)
    ensures Do(s, [a], locale) == Act(s, a, locale)
    ensures Do(s, [], locale) == s
  {
    hide Act;
    assert [a][1..] == [];
  }

  lemma SaveOne<T(!new)>(s: OnFile, item: Item<T>, locale: bytes)
    ensures Do(s, SaveAction(s.config.entryMap, item), locale).config.entryMap == WrittenMap(s.config.entryMap, item)
  {
    hide SetEntry, EntryMap.RevertEntry, Reverts, HasDefault, Do;
    var acts := SaveAction(s.config.entryMap, item);
    DoOne(s, if acts == [] then Clients.Sync(0) else acts[0], locale);
    if acts != [] {
      assert acts == [acts[0]];
    }
    RevertsMeans(s.config.entryMap, item);
  }

  lemma RevertsMeans<T(!new)>(m: Entries, item: Item<T>)
    ensures Reverts(m, item) <==> item.fallback == item.reference && !HasDefault(m, item.group, item.key)
  {
  }

  /** The calls of a save lead to the map that module Skeleton is about. */
  lemma {:induction false} SaveIsRun<T(!new)>(s: OnFile, items: seq<Item<T>>, i: nat, locale: bytes)
    requires i <= |items|
    ensures Do(s, SaveActions(s.config.entryMap, items, i), locale).config.entryMap
            == SavedMap(s.config.entryMap, items, i)
    decreases |items| - i
  {
    hide Do, SaveAction, WrittenMap;
    if i == |items| {
      DoOne(s, Clients.Sync(0), locale);
    } else {
      var m := s.config.entryMap;
      var first := SaveAction(m, items[i]);
      SaveOne(s, items[i], locale);
      SaveIsRun(Do(s, first, locale), items, i + 1, locale);
      DoConcat(s, first, SaveActions(WrittenMap(m, items[i]), items, i + 1), locale);
    }
  }

  lemma {:induction false} SaveRepresentable<T(!new)>(m: Entries, items: seq<Item<T>>, i: nat)
    requires i <= |items| && forall j :: i <= j < |items| ==> Storable(items[j])
    ensures forall a :: a in SaveActions(m, items, i) ==> a.Representable()
    decreases |items| - i
  {
    hide WrittenMap, Reverts, GroupNameOk, KeyOk, FlushSafe;
    if i == |items| {
    } else {
      SaveRepresentable(WrittenMap(m, items[i]), items, i + 1);
    }
  }

  /** Nothing keeps the item from being written through this memory: neither its entry nor its
      group is immutable, and its entry has no localized twin. */
  predicate Writable<T(!new)>(m: Entries, item: Item<T>) {
    var x := Plain(item.group, item.key);
    && (x in m ==> !m[x].bImmutable)
    && (Marker(item.group) in m ==> !m[Marker(item.group)].bImmutable)
    && Local(item.group, item.key) !in m
  }

  /** An object that has only read its file and made representable changes lets every storable
      and writable item be used, whatever else the file holds. */
  lemma MemoryUsable<T(!new)>(m: Entries, item: Item<T>)
    requires MemoryOk(m) && Bare(m) && Storable(item) && Writable(m, item)
    ensures Usable(m, item)
  {
    hide GroupNameOk, FlushSafe;
    var g, k := item.group, item.key;
    assert Default(g, k) !in m && KEntryKey(g, k, true, true) !in m;
    if Plain(g, k) in m {
      assert MemoryEntryOk(Plain(g, k), m[Plain(g, k)]);
    }
  }

  /** What reading an item gives depends on what is shown only. */
  lemma ShownIsReadValue<T(!new)>(m: Entries, item: Item<T>)
    requires Local(item.group, item.key) !in m
    ensures ReadValue(m, item, false) ==
            var t := ShownAt(m, Plain(item.group, item.key));
            if t.Present? then item.codec.decode(t.value.data, t.expand) else item.builtin
  {
  }

  lemma SavedReadsReference<T(!new)>(m: Entries, items: seq<Item<T>>, j: nat)
    requires j < |items| && Distinct(items) && MemoryOk(m) && Bare(m)
    requires forall j :: 0 <= j < |items| ==> Storable(items[j]) && Writable(m, items[j])
    requires Lossless(items[j].codec) && Consistent(m, items[j]) && !LosesEmptyValue(m, items[j])
    ensures ReadValue(SavedMap(m, items, 0), items[j], false) == items[j].reference
    ensures Local(items[j].group, items[j].key) !in SavedMap(m, items, 0)
  {
    hide MemoryOk, Bare, Usable, SavedMap, LosesEmptyValue, Storable, ReadValue, Lossless, Writable;
    forall i | 0 <= i < |items|
      ensures Usable(m, items[i])
    {
      MemoryUsable(m, items[i]);
    }
    TrackItem(m, items, 0, j);
    SavedReads(SavedMap(m, items, 0), items[j]);
    UsableHasNoTwin(SavedMap(m, items, 0), items[j]);
  }

  lemma UsableHasNoTwin<T(!new)>(m: Entries, item: Item<T>)
    requires Usable(m, item)
    ensures Local(item.group, item.key) !in m
  {
  }

  /** Saving the items, writing the file and reading it, in this program or in another one,
      brings every item back as it was saved, whatever localized lines, immutable entries and
      immutable groups the file holds for other keys; and the file is fit for the next round. */
  lemma SaveThenLoad<T(!new)>(s: OnFile, items: seq<Item<T>>, locale: bytes)
    requires LocaleOk(locale) && Durable(s, locale) && Distinct(items)
    requires forall j :: 0 <= j < |items| ==>
               && Storable(items[j]) && Lossless(items[j].codec) && Writable(s.config.entryMap, items[j])
               && Consistent(s.config.entryMap, items[j]) && !LosesEmptyValue(s.config.entryMap, items[j])
               && Local(items[j].group, items[j].key) !in Loaded(s.file, locale)
    ensures var saved := SyncFile(Do(s, SaveActions(s.config.entryMap, items, 0), locale), locale);
            && Durable(saved, locale)
            && (forall j :: 0 <= j < |items| ==>
               ReadValue(saved.config.entryMap, items[j], false) == items[j].reference)
            && (forall j :: 0 <= j < |items| ==>
               ReadValue(Loaded(saved.file, locale), items[j], false) == items[j].reference)
  {
    hide LocaleOk, Durable, SyncFile, Do, Sync.Reparse, ReadValue, Storable, Consistent, LosesEmptyValue, Lossless,
         SavedMap, Loaded, ShownAt, Writable, MemoryOk, Bare, OnDisk, TextAt;
    var m := s.config.entryMap;
    var acts := SaveActions(m, items, 0);
    var written := Do(s, acts, locale);
    SaveIsRun(s, items, 0, locale);
    SaveRepresentable(m, items, 0);
    var saved := SyncFile(written, locale);
    SavedTexts(s, acts, locale, [], [0]);
    DurableMeans(s, locale);
    DurableMeans(saved, locale);
    forall j | 0 <= j < |items|
      ensures ReadValue(saved.config.entryMap, items[j], false) == items[j].reference
      ensures ReadValue(Loaded(saved.file, locale), items[j], false) == items[j].reference
    {
      SavedReadsReference(m, items, j);
      StorableKey(items[j]);
      SavedTexts(s, acts, locale, items[j].group, items[j].key);
      FileShows(s, written, saved, items[j], locale);
    }
  }

  /** What a sync behind any calls leaves of the plain and the localized entry of a key. */
  lemma SavedTexts(s: OnFile, acts: seq<Clients.Action>, locale: bytes, g: bytes, k: bytes)
    requires LocaleOk(locale) && Durable(s, locale) && k != []
    requires forall a :: a in acts ==> a.Representable()
    ensures var written := Do(s, acts, locale);
            var saved := SyncFile(written, locale);
            var twin, x := Local(g, k), Plain(g, k);
            && Durable(saved, locale)
            && TextAt(saved.config.entryMap, twin) == TextAt(written.config.entryMap, twin)
            && TextAt(OnDisk(saved.file, locale), twin) == TextAt(OnDisk(s.file, locale), twin)
            && TextAt(saved.config.entryMap, x) == TextAt(written.config.entryMap, x)
            && ShownAt(OnDisk(saved.file, locale), x) == ShownAt(written.config.entryMap, x)
  {
    hide LocaleOk, Durable, SyncFile, Do, OnDisk, TextAt, Shown;
    DoDurable(s, acts, locale);
    SyncDurable(Do(s, acts, locale), locale);
    assert Local(g, k).mKey != [] && Plain(g, k).mKey != [];
  }

  /** One item, from the memory that it has been saved to into the file. */
  lemma FileShows<T(!new)>(s: OnFile, written: OnFile, saved: OnFile, item: Item<T>, locale: bytes)
    requires FileOk(s.file, locale) && FileOk(saved.file, locale) && Storable(item)
    requires Local(item.group, item.key) !in written.config.entryMap
             && Local(item.group, item.key) !in Loaded(s.file, locale)
    requires var twin := Local(item.group, item.key);
             && TextAt(saved.config.entryMap, twin) == TextAt(written.config.entryMap, twin)
             && TextAt(OnDisk(saved.file, locale), twin) == TextAt(OnDisk(s.file, locale), twin)
    requires var x := Plain(item.group, item.key);
             && TextAt(saved.config.entryMap, x) == TextAt(written.config.entryMap, x)
             && ShownAt(OnDisk(saved.file, locale), x) == ShownAt(written.config.entryMap, x)
    ensures ReadValue(saved.config.entryMap, item, false) == ReadValue(written.config.entryMap, item, false)
    ensures ReadValue(Loaded(saved.file, locale), item, false) == ReadValue(written.config.entryMap, item, false)
  {
    hide FileOk, Storable, ReadValue, Loaded, OnDisk, Shown, Own, MemoryOk;
    var twin, x := Local(item.group, item.key), Plain(item.group, item.key);
    StorableKey(item);
    LoadedText(s.file, locale, twin);
    LoadedText(saved.file, locale, twin);
    LoadedText(saved.file, locale, x);
    InMemory(saved.config.entryMap, written.config.entryMap, twin);
    InMemory(Loaded(saved.file, locale), Loaded(s.file, locale), twin);
    ShownIsReadValue(written.config.entryMap, item);
    ShownIsReadValue(saved.config.entryMap, item);
    ShownIsReadValue(Loaded(saved.file, locale), item);
  }

  lemma StorableKey<T(!new)>(item: Item<T>)
    requires Storable(item)
    ensures item.key != []
  {
    hide GroupNameOk, FlushSafe;
  }
}
