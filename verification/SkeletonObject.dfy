/** Items and the skeleton as objects: the loops over the items call methods that change them
    and the configuration (src/core/kcoreconfigskeleton.h:325-414,
    src/core/kcoreconfigskeleton.cpp:1314-1425). Each is proved against module Skeleton. */
module SkeletonObject {
  import opened Bytes
  import opened EntryMap
  import opened EntryMapObject
  import opened Immutability
  import opened Sync
  import opened KConfigObject
  import opened Skeleton
  import opened Durability
  import opened SettingsFile

  class SkeletonItem<T(==, !new)> {
    const group: bytes
    const key: bytes
    const codec: Codec<T>
    const builtin: T
    var mReference: T
    var mDefault: T
    var mLoadedValue: T
    var mName: bytes

    ghost function State(): Item<T>
      reads this
    {
      Item(group, key, codec, builtin, mReference, mDefault, mLoadedValue)
    }

    constructor (group: bytes, key: bytes, codec: Codec<T>, reference: T, defaultValue: T)
      ensures State() == Item(group, key, codec, defaultValue, reference, defaultValue, defaultValue) && mName == []
    {
      this.group, this.key, this.codec, builtin := group, key, codec, defaultValue;
      mReference, mDefault, mLoadedValue, mName := reference, defaultValue, defaultValue, [];
    }

    method SetDefault()
      modifies this
      ensures State() == old(State()).(reference := old(mDefault)) && mName == old(mName)
    {
      mReference := mDefault;
    }

    method SwapDefault()
      modifies this
      ensures State() == Swapped(old(State())) && mName == old(mName)
    {
      var tmp := mReference;
      mReference := mDefault;
      mDefault := tmp;
    }

    method ReadConfig(config: KConfig)
      requires config.Valid()
      modifies this
      ensures State() == old(State()).(reference := ReadValue(config.entryMap.entries, old(State()),
              config.bReadDefaults),
                                       loaded := ReadValue(config.entryMap.entries, old(State()), config.bReadDefaults))
      ensures mName == old(mName)
    {
      var it := FindEntry(config.entryMap.entries, group, key, SearchFlags(config.bReadDefaults, true));
      mReference := builtin;
      if it.At? {
        var e := config.entryMap.entries[it.key];
        if !e.bDeleted && e.mValue.Data? {
          mReference := codec.decode(e.mValue.data, e.bExpand);
        }
      }
      mLoadedValue := mReference;
    }

    method ReadDefault(config: KConfig)
      requires config.Valid()
      modifies this, config`bReadDefaults
      ensures !config.bReadDefaults
      ensures var v := ReadValue(config.entryMap.entries, old(State()), true);
              State() == old(State()).(reference := v, fallback := v, loaded := v)
      ensures mName == old(mName)
    {
      config.bReadDefaults := true;
      ReadConfig(config);
      config.bReadDefaults := false;
      mDefault := mReference;
    }

    method WriteConfig(config: KConfig)
      requires config.Valid()
      modifies this, config, config.entryMap
      ensures config.Valid() && config.entryMap == old(config.entryMap)
              && config.bReadDefaults == old(config.bReadDefaults)
      ensures config.State() == Do(old(config.State()), SaveAction(old(config.entryMap.entries), old(State())),
              config.locale)
      ensures config.entryMap.entries == WrittenMap(old(config.entryMap.entries), old(State()))
      ensures State() == Saved(old(State())) && mName == old(mName)
    {
      hide KEntryMap.Valid, EntryMap.SetEntry, EntryMap.RevertEntry, HasDefault, Do, Sync.SyncFile, Sync.Reparse;
      SaveOne(config.State(), State(), config.locale);
      ghost var acts := SaveAction(config.entryMap.entries, State());
      DoOne(config.State(), if acts == [] then Clients.Sync(0) else acts[0], config.locale);
      assert acts == [] || acts == [acts[0]];
      if mReference != mLoadedValue {
        if mDefault == mReference && !HasDefault(config.entryMap.entries, group, key) {
          config.RevertEntry(group, key);
        } else {
          config.PutData(group, key, Data(codec.encode(mReference)), false);
        }
        mLoadedValue := mReference;
      }
    }
  }

  class KCoreConfigSkeleton<T(==, !new)> {
    const config: KConfig
    var mItems: seq<SkeletonItem<T>>
    var mItemDict: map<bytes, SkeletonItem<T>>
    var mUseDefaults: bool

    ghost predicate Valid()
      reads this, config, config.entryMap
    {
      config.Valid() && forall i, j :: 0 <= i < j < |mItems| ==> mItems[i] != mItems[j]
    }

    /** Every item can be found by its name. */
    ghost predicate Named()
      reads this, mItems
    {
      forall item :: item in mItems ==> item.mName in mItemDict && mItemDict[item.mName] == item
    }

    ghost function Items(): (r: seq<Item<T>>)
      reads this, mItems
      ensures |r| == |mItems|
    {
      seq(|mItems|, i requires 0 <= i < |mItems| reads this, mItems => mItems[i].State())
    }

    ghost function State(): Settings<T>
      reads this, mItems, config, config.entryMap
    {
      Settings(config.entryMap.entries, Items())
    }

    constructor (config: KConfig)
      requires config.Valid()
      ensures Valid() && this.config == config && mItems == [] && mItemDict == map[] && !mUseDefaults
    {
      this.config := config;
      mItems, mItemDict, mUseDefaults := [], map[], false;
    }

    method SetDefaults()
      requires Valid()
      modifies mItems
      ensures State() == Step(old(State()), Action.SetDefaults)
    {
      for n := 0 to |mItems|
        invariant forall i :: 0 <= i < n ==>
                  mItems[i].State() == old(mItems[i].State()).(reference := old(mItems[i].State()).fallback)
        invariant forall i :: n <= i < |mItems| ==> mItems[i].State() == old(mItems[i].State())
      {
        mItems[n].SetDefault();
      }
      assert Items() == Step(old(State()), Action.SetDefaults).items;
    }

    method Read()
      requires Valid() && !config.bReadDefaults
      modifies mItems
      ensures State() == Step(old(State()), Action.Read)
    {
      hide ReadValue;
      ghost var m := config.entryMap.entries;
      for n := 0 to |mItems|
        invariant forall i :: 0 <= i < n ==> mItems[i].State() == ReadItem(m, old(mItems[i].State()))
        invariant forall i :: n <= i < |mItems| ==> mItems[i].State() == old(mItems[i].State())
      {
        mItems[n].ReadConfig(config);
      }
      assert Items() == Step(old(State()), Action.Read).items;
    }

    /** useDefaults: the result is the setting from before, if it has changed. */
    method UseDefaults(b: bool) returns (was: bool)
      requires Valid()
      modifies this`mUseDefaults, mItems
      ensures Items() == Skeleton.UseDefaults(old(Items()), old(mUseDefaults), b).0
      ensures mUseDefaults == Skeleton.UseDefaults(old(Items()), old(mUseDefaults), b).1
      ensures was == old(mUseDefaults)
    {
      if b == mUseDefaults {
        return mUseDefaults;
      }
      mUseDefaults := b;
      for n := 0 to |mItems|
        invariant mUseDefaults == b
        invariant forall i :: 0 <= i < n ==> mItems[i].State() == Swapped(old(mItems[i].State()))
        invariant forall i :: n <= i < |mItems| ==> mItems[i].State() == old(mItems[i].State())
      {
        mItems[n].SwapDefault();
      }
      assert Items() == Skeleton.UseDefaults(old(Items()), old(mUseDefaults), b).0;
      was := !mUseDefaults;
    }

    method IsSaveNeeded() returns (r: bool)
      requires Valid()
      ensures r <==> SaveNeeded(State())
    {
      for n := 0 to |mItems|
        invariant forall i :: 0 <= i < n ==> mItems[i].mReference == mItems[i].mLoadedValue
      {
        if mItems[n].mReference != mItems[n].mLoadedValue {
          assert Items()[n].reference != Items()[n].loaded;
          return true;
        }
      }
      r := false;
    }

    method IsDefaults() returns (r: bool)
      requires Valid()
      ensures r <==> forall i :: 0 <= i < |mItems| ==> Items()[i].reference == Items()[i].fallback
    {
      for n := 0 to |mItems|
        invariant forall i :: 0 <= i < n ==> mItems[i].mReference == mItems[i].mDefault
      {
        if mItems[n].mReference != mItems[n].mDefault {
          assert Items()[n].reference != Items()[n].fallback;
          return false;
        }
      }
      r := true;
    }

    /** addItem. An item that is in the list under that name already is left alone; one with
        another name is renamed and read again; a new one is appended and read. */
    method AddItem(item: SkeletonItem<T>, name: bytes)
      requires Valid()
      modifies this`mItems, this`mItemDict, item, config`bReadDefaults
      ensures Valid()
      ensures if item in old(mItems) && (old(item.mName) == name || (name == [] && old(item.mName) == item.key))
              then
                && mItems == old(mItems) && mItemDict == old(mItemDict)
                   && config.bReadDefaults == old(config.bReadDefaults)
                && item.State() == old(item.State()) && item.mName == old(item.mName)
              else
                && mItems == old(mItems) + (if item in old(mItems) then [] else [item])
                && item.mName == (if name == [] then item.key else name)
                && mItemDict == (if item in old(mItems) then old(mItemDict) - {old(item.mName)}
                   else old(mItemDict))[item.mName := item]
                && item.State() == AddedItem(config.entryMap.entries, old(item.State())) && !config.bReadDefaults
      ensures old(Named()) && (item.mName in old(mItemDict) ==> old(mItemDict)[item.mName] == item) ==> Named()
    {
      hide FindEntry, ReadValue, KEntryMap.Valid;
      ReadsAlike(config.entryMap.entries, item.State());
      if item in mItems {
        if item.mName == name || (name == [] && item.mName == item.key) {
          return;
        }
        mItemDict := mItemDict - {item.mName};
      } else {
        mItems := mItems + [item];
      }
      item.mName := if name == [] then item.key else name;
      mItemDict := mItemDict[item.mName := item];
      item.ReadDefault(config);
      item.ReadConfig(config);
    }

    /** The loop of save. */
    method WriteItems()
      requires Valid()
      modifies mItems, config, config.entryMap
      ensures Valid() && config.entryMap == old(config.entryMap) && config.bReadDefaults == old(config.bReadDefaults)
      ensures config.State() == Do(old(config.State()), SaveActions(old(State()).m, old(State()).items, 0),
              config.locale)
      ensures State() == Step(old(State()), Action.Save(false))
    {
      hide KEntryMap.Valid, WrittenMap, Do, SaveAction;
      ghost var s0, m0, its := config.State(), config.entryMap.entries, Items();
      for n := 0 to |mItems|
        invariant Valid() && config.entryMap == old(config.entryMap)
                  && config.bReadDefaults == old(config.bReadDefaults)
        invariant SavedMap(m0, its, 0) == SavedMap(config.entryMap.entries, its, n)
        invariant Do(s0, SaveActions(m0, its, 0), config.locale)
                  == Do(config.State(), SaveActions(config.entryMap.entries, its, n), config.locale)
        invariant forall i :: 0 <= i < n ==> mItems[i].State() == Saved(its[i])
        invariant forall i :: n <= i < |mItems| ==> mItems[i].State() == its[i]
      {
        ghost var s, m := config.State(), config.entryMap.entries;
        mItems[n].WriteConfig(config);
        DoConcat(s, SaveAction(m, its[n]), SaveActions(config.entryMap.entries, its, n + 1), config.locale);
      }
      DoOne(config.State(), Clients.Sync(0), config.locale);
      assert Items() == Step(old(State()), Action.Save(false)).items;
    }

    /** save writes the items and then the file, if there is anything to write. Configuration,
        file and result are those of the calls that module SettingsFile is about. */
    method Save() returns (ok: bool)
      requires Valid()
      modifies mItems, config, config.entryMap, config.file
      ensures Valid()
      ensures var written := Do(old(config.State()), SaveActions(old(State()).m, old(State()).items, 0), config.locale);
              config.State() == SyncFile(written, config.locale)
                  && (ok <==> !written.config.bDirty || SyncSucceeds(written, config.locale))
      ensures exists synced :: State() == Step(old(State()), Action.Save(synced))
    {
      hide KEntryMap.Valid, SavedMap, Cleaned, Sync.WriteConfig, Do;
      WriteItems();
      ghost var before := State();
      assert before == Step(old(State()), Action.Save(false));
      ok := true;
      if config.bDirty {
        ghost var c := config.State();
        ok := config.SyncFile();
        SyncedMap(c, config.locale);
        ghost var synced := config.entryMap.entries == Cleaned(before.m, false);
        assert Items() == before.items;
        assert State() == Step(old(State()), Action.Save(synced));
      }
    }
  }

  /** What is read does not depend on what the item holds. */
  lemma ReadsAlike<T(!new)>(m: Entries, item: Item<T>)
    ensures forall v: T, defaults ::
            ReadValue(m, item.(reference := v, fallback := v, loaded := v), defaults) == ReadValue(m, item, defaults)
    ensures forall v: T, defaults :: ReadValue(m, item.(fallback := v), defaults) == ReadValue(m, item, defaults)
  {
  }

  /** A sync leaves the entries as they are or marks them as clean. */
  lemma SyncedMap(s: OnFile, locale: bytes)
    ensures var m := SyncFile(s, locale).config.entryMap;
            m == s.config.entryMap || m == Cleaned(s.config.entryMap, false)
  {
    hide Cleaned, Merged, AnyDirty;
  }
}
