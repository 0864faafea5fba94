/** A KConfig object on its file, updated in place: the merge loop of writeConfig, sync,
    reparseConfiguration, putData and revertEntry (src/core/kconfigini.cpp:398-450,
    src/core/kconfig.cpp:433-521, 689-732, 1112-1141). Each method is proved against the
    functions of module Sync. */
module KConfigObject {
  import opened Bytes
  import opened EntryMap
  import opened EntryMapObject
  import opened IniParser
  import opened IniParserLoop
  import opened IniWriter
  import opened IniWriterLoop
  import opened Sync

  /** The local file. */
  class File {
    var text: bytes

    constructor (text: bytes)
      ensures this.text == text
    {
      this.text := text;
    }
  }

  // ---------------------------------------------------------------------------
  // Merging
  // ---------------------------------------------------------------------------

  /** The merge loop has dealt with the key, or not yet. */
  ghost predicate MergedSoFar(now: Entries, w: Entries, mem: Entries, k: KEntryKey, done: bool, global: bool) {
    if done
    then (k in now <==> InMerged(w, mem, k, global)) && (k in now ==> now[k] == MergedEntry(w, mem, k, global))
    else (k in now <==> k in w) && (k in now ==> now[k] == w[k])
  }

  ghost predicate CleanedSoFar(now: Entries, mem: Entries, k: KEntryKey, done: bool, global: bool) {
    && (k in now <==> k in mem)
    && (k in now ==> now[k] == if done then CleanedEntry(k, mem[k], global) else mem[k])
  }

  ghost predicate UpTo(now: Entries, merged: Entries, w: Entries, mem: Entries, done: seq<KEntryKey>, global: bool) {
    && (forall x :: CleanedSoFar(now, mem, x, x in done, global))
    && (forall x :: MergedSoFar(merged, w, mem, x, x in done, global))
  }

  /** One turn of the loop. */
  method MergeTurn(entryMap: KEntryMap, writeMap: KEntryMap, k: KEntryKey, global: bool)
    requires entryMap.Valid() && writeMap.Valid() && entryMap != writeMap && k in entryMap.entries
    modifies entryMap, writeMap
    ensures entryMap.Valid() && writeMap.Valid()
    ensures entryMap.entries == old(entryMap.entries)[k := CleanedEntry(k, old(entryMap.entries[k]), global)]
    ensures writeMap.entries ==
            match MergeOne(old(entryMap.entries), k, global)
            case Untouched => old(writeMap.entries)
            case Erase => old(writeMap.entries) - {k}
            case Store(e) => old(writeMap.entries)[k := StoredOver(old(writeMap.entries), k, e)]
  {
    hide KEntryMap.Valid, StoredOver;
    var e := entryMap.entries[k];
    if k.mKey != [] && !e.bDirty {
      return;
    }
    if e.bGlobal != global {
      return;
    }
    if e.bReverted && e.bOverridesGlobal {
      e := e.(bDeleted := true);
      writeMap.InsertOrAssign(k, StoredOver(writeMap.entries, k, e));
    } else if e.bReverted {
      writeMap.Erase(k);
    } else if !e.bDeleted {
      writeMap.InsertOrAssign(k, StoredOver(writeMap.entries, k, e));
    } else {
      var defaultKey := k.(bDefault := true);
      if defaultKey !in entryMap.entries && !e.bOverridesGlobal {
        writeMap.Erase(k);
      } else {
        writeMap.InsertOrAssign(k, StoredOver(writeMap.entries, k, e));
      }
    }
    entryMap.InsertOrAssign(k, e.(bDirty := false));
  }

  /** What is left to merge looks the same after the keys before it have been cleaned. */
  lemma SameTurn(now: Entries, mem: Entries, k: KEntryKey, global: bool, done: bool)
    requires now.Keys == mem.Keys && k in mem && !done && CleanedSoFar(now, mem, k, done, global)
    ensures now[k] == mem[k] && MergeOne(now, k, global) == MergeOne(mem, k, global)
  {
  }

  lemma TurnMerged(before: Entries, after: Entries, w: Entries, mem: Entries, k: KEntryKey, x: KEntryKey, done: bool,
                   global: bool)
    requires k in mem && MergedSoFar(before, w, mem, x, done, global) && (x == k ==> !done)
    requires after == match MergeOne(mem, k, global)
                      case Untouched => before
                      case Erase => before - {k}
                      case Store(e) => before[k := StoredOver(before, k, e)]
    ensures MergedSoFar(after, w, mem, x, done || x == k, global)
  {
    hide MergeOne;
  }

  lemma TurnCleaned(now: Entries, mem: Entries, k: KEntryKey, x: KEntryKey, done: bool, global: bool)
    requires k in mem && CleanedSoFar(now, mem, x, done, global) && (x == k ==> !done)
    ensures CleanedSoFar(now[k := CleanedEntry(k, mem[k], global)], mem, x, done || x == k, global)
  {
    hide CleanedEntry;
  }

  lemma TurnDone(now: Entries, before: Entries, now': Entries, after: Entries, w: Entries, mem: Entries,
                 keys: seq<KEntryKey>, i: nat, global: bool)
    requires i < |keys| && keys[i] in mem && keys[i] !in keys[..i]
    requires UpTo(now, before, w, mem, keys[..i], global)
    requires now' == now[keys[i] := CleanedEntry(keys[i], mem[keys[i]], global)]
    requires after == match MergeOne(mem, keys[i], global)
                      case Untouched => before
                      case Erase => before - {keys[i]}
                      case Store(e) => before[keys[i] := StoredOver(before, keys[i], e)]
    ensures UpTo(now', after, w, mem, keys[..i + 1], global)
  {
    hide CleanedSoFar, MergedSoFar, CleanedEntry, MergeOne, StoredOver;
    var k, done := keys[i], keys[..i + 1];
    forall x
      ensures CleanedSoFar(now', mem, x, x in done, global)
      ensures MergedSoFar(after, w, mem, x, x in done, global)
    {
      assert done == keys[..i] + [k];
      assert CleanedSoFar(now, mem, x, x in keys[..i], global);
      assert MergedSoFar(before, w, mem, x, x in keys[..i], global);
      TurnCleaned(now, mem, k, x, x in keys[..i], global);
      TurnMerged(before, after, w, mem, k, x, x in keys[..i], global);
    }
  }

  method Merge(entryMap: KEntryMap, writeMap: KEntryMap, global: bool)
    requires entryMap.Valid() && writeMap.Valid() && entryMap != writeMap
    modifies entryMap, writeMap
    ensures entryMap.Valid() && writeMap.Valid()
    ensures entryMap.entries == Cleaned(old(entryMap.entries), global)
    ensures writeMap.entries == Merged(old(writeMap.entries), old(entryMap.entries), global)
  {
    hide KEntryMap.Valid, MergeOne, CleanedEntry, MergedSoFar, CleanedSoFar;
    ghost var w, mem := writeMap.entries, entryMap.entries;
    var keys := entryMap.order;
    Distinct(entryMap);
    NothingMerged(w, mem, global);
    var i := 0;
    while i < |keys|
      invariant 0 <= i <= |keys|
      invariant entryMap.Valid() && writeMap.Valid() && entryMap.entries.Keys == mem.Keys
      invariant UpTo(entryMap.entries, writeMap.entries, w, mem, keys[..i], global)
    {
      var k := keys[i];
      ghost var now, before := entryMap.entries, writeMap.entries;
      SameTurn(now, mem, k, global, k in keys[..i]);
      MergeTurn(entryMap, writeMap, k, global);
      TurnDone(now, before, entryMap.entries, writeMap.entries, w, mem, keys, i, global);
      i := i + 1;
    }
    assert keys[..i] == keys;
    AllMerged(writeMap.entries, w, mem, keys, global);
    AllCleaned(entryMap.entries, mem, keys, global);
  }

  lemma NothingMerged(w: Entries, mem: Entries, global: bool)
    ensures forall k :: CleanedSoFar(mem, mem, k, false, global)
    ensures forall k :: MergedSoFar(w, w, mem, k, false, global)
  {
  }

  lemma Distinct(entryMap: KEntryMap)
    requires entryMap.Valid()
    ensures forall k :: k in entryMap.order <==> k in entryMap.entries
    ensures forall i :: 0 <= i < |entryMap.order| ==> entryMap.order[i] !in entryMap.order[..i]
  {
    hide Less;
    forall k
      ensures !Less(k, k)
    {
      LessIrreflexive(k);
    }
  }

  lemma AllMerged(now: Entries, w: Entries, mem: Entries, keys: seq<KEntryKey>, global: bool)
    requires forall k :: k in keys <==> k in mem
    requires forall k :: MergedSoFar(now, w, mem, k, k in keys, global)
    ensures now == Merged(w, mem, global)
  {
    hide MergeOne;
    var n := Merged(w, mem, global);
    forall k
      ensures k in now <==> k in n
      ensures k in n ==> now[k] == n[k]
    {
      assert MergedSoFar(now, w, mem, k, k in keys, global);
    }
  }

  lemma AllCleaned(now: Entries, mem: Entries, keys: seq<KEntryKey>, global: bool)
    requires forall k :: k in keys <==> k in mem
    requires forall k :: CleanedSoFar(now, mem, k, k in keys, global)
    ensures now == Cleaned(mem, global)
  {
    hide CleanedEntry;
    var n := Cleaned(mem, global);
    forall k
      ensures k in now <==> k in n
      ensures k in n ==> now[k] == n[k]
    {
      assert CleanedSoFar(now, mem, k, k in keys, global);
    }
  }

  // ---------------------------------------------------------------------------
  // The object
  // ---------------------------------------------------------------------------

  class KConfig {
    const file: File
    const locale: bytes
    var entryMap: KEntryMap
    var bDirty: bool
    var bFileImmutable: bool
    var bReadDefaults: bool

    ghost predicate Valid()
      reads this, entryMap
    {
      entryMap.Valid()
    }

    /** The object and its file, as a value. */
    ghost function State(): OnFile
      reads this, entryMap, file
    {
      OnFile(Config(entryMap.entries, bDirty, bFileImmutable), file.text)
    }

    constructor (file: File, locale: bytes)
      ensures Valid() && this.file == file && this.locale == locale && fresh(entryMap) && !bReadDefaults
      ensures State() == OnFile(Config(map[], false, false), file.text)
    {
      this.file, this.locale := file, locale;
      entryMap := new KEntryMap();
      bDirty, bFileImmutable, bReadDefaults := false, false, false;
    }

    method PutData(g: bytes, k: bytes, value: QByteArray, expand: bool)
      requires Valid()
      modifies this, entryMap
      ensures Valid() && entryMap == old(entryMap) && bReadDefaults == old(bReadDefaults)
      ensures State() == OnFile(Sync.PutData(old(State().config), g, k, value, expand), old(file.text))
    {
      hide KEntryMap.Valid, EntryMap.SetEntry;
      var dirtied := entryMap.SetEntry(g, k, value, PutOptions(value, expand));
      if dirtied {
        bDirty := true;
      }
    }

    method RevertEntry(g: bytes, k: bytes)
      requires Valid()
      modifies this, entryMap
      ensures Valid() && entryMap == old(entryMap) && bReadDefaults == old(bReadDefaults)
      ensures State() == OnFile(RevertData(old(State().config), g, k), old(file.text))
    {
      hide KEntryMap.Valid, EntryMap.RevertEntry;
      var dirtied := entryMap.RevertEntry(g, k, NO_OPTIONS.(dirty := true), false);
      if dirtied {
        bDirty := true;
      }
    }

    /** The loop of sync that finds out whether there is anything to write. */
    method FindDirty() returns (r: bool)
      requires Valid()
      ensures r == AnyDirty(entryMap.entries)
    {
      hide KEntryMap.Valid;
      Distinct(entryMap);
      r := false;
      var i := 0;
      while i < |entryMap.order|
        invariant 0 <= i <= |entryMap.order|
        invariant r <==> exists k ::
                  k in entryMap.order[..i] && entryMap.entries[k].bDirty && !entryMap.entries[k].bGlobal
      {
        var k := entryMap.order[i];
        assert entryMap.order[..i + 1] == entryMap.order[..i] + [k];
        if entryMap.entries[k].bDirty && !entryMap.entries[k].bGlobal {
          r := true;
        }
        i := i + 1;
      }
      assert entryMap.order[..i] == entryMap.order;
    }

    /** writeConfig. */
    method WriteConfig() returns (ok: bool)
      requires Valid()
      modifies entryMap, file
      ensures Valid() && (ok, State()) == Sync.WriteConfig(old(State()), locale)
    {
      hide KEntryMap.Valid, ParseConfig, WriteEntries, Merged, Cleaned;
      var writeMap := new KEntryMap();
      var info := ParseFile(file.text, writeMap, ReadOptions(locale, true));
      if info != ParseOk {
        return false;
      }
      Merge(entryMap, writeMap, false);
      var writer := new Writer(writeMap, locale, Null);
      writer.WriteAll();
      file.text := writer.out;
      ok := true;
    }

    /** sync, under the file lock. It fails if the file is immutable or could not be written. */
    method SyncFile() returns (ok: bool)
      requires Valid()
      modifies this, entryMap, file
      ensures Valid() && entryMap == old(entryMap) && bReadDefaults == old(bReadDefaults)
      ensures State() == Sync.SyncFile(old(State()), locale)
      ensures ok <==> SyncSucceeds(old(State()), locale)
    {
      hide KEntryMap.Valid, AnyDirty, Sync.WriteConfig;
      if bFileImmutable {
        return false;
      }
      if bDirty {
        var writeLocals := FindDirty();
        if writeLocals {
          var written := WriteConfig();
          bDirty := !written;
        } else {
          bDirty := false;
        }
      }
      ok := !bDirty;
    }

    /** reparseConfiguration. */
    method Reparse()
      requires Valid()
      modifies this, entryMap, file
      ensures Valid() && fresh(entryMap) && bReadDefaults == old(bReadDefaults)
      ensures State() == Sync.Reparse(old(State()), locale)
    {
      hide KEntryMap.Valid, ParseConfig, Sync.SyncFile;
      if bDirty {
        var _ := SyncFile();
      }
      entryMap := new KEntryMap();
      var info := ParseFile(file.text, entryMap, ReadOptions(locale, false));
      bFileImmutable := info == ParseImmutable;
    }
  }
}
