/** No lost updates, from the calls that are made: once an object has written its changes, or has
    read its files again, its syncs leave a key alone until it puts, deletes or reverts it
    (src/core/kconfigini.cpp:418-445, src/core/kconfig.cpp:433-521, 689-732). */
module Settled {
  import opened Bytes
  import opened CodecLaws
  import opened EntryMap
  import Immutability
  import opened IniParser
  import opened IniWriter
  import opened IniLines
  import opened IniEntries
  import opened FileRoundTrip
  import opened Sync
  import opened Protocol
  import opened DefaultFiles
  import opened Clients

  // ---------------------------------------------------------------------------
  // One sync
  // ---------------------------------------------------------------------------

  /** What a sync that writes makes of the memory: the local entries are clean, global ones are
      not touched, and apart from that an entry changes only if it was reverted over a global
      one, which is then deleted. */
  lemma SyncCleans(s: OnFile, locale: bytes, k: KEntryKey)
    requires Writes(s.config) && ParseConfig(s.file, map[], ReadOptions(locale, true)).info == ParseOk
    ensures var m, n := s.config.entryMap, SyncFile(s, locale).config.entryMap;
            && (k in n <==> k in m)
            && (k in n ==>
                  && (!n[k].bGlobal ==> !n[k].bDirty)
                  && (m[k].bGlobal ==> n[k] == m[k])
                  && n[k] == m[k].(bDirty := n[k].bDirty, bDeleted := n[k].bDeleted)
                  && (n[k].bDeleted <==>
                      || m[k].bDeleted
                      || ((k.mKey == [] || m[k].bDirty) && !m[k].bGlobal && m[k].bReverted && m[k].bOverridesGlobal)))
    ensures !SyncFile(s, locale).config.bDirty
  {
    hide ParseConfig, WriteEntries, Merged;
  }

  /** Without a dirty local entry a sync does not touch the file, even if the object is marked. */
  lemma NothingDirty(s: OnFile, locale: bytes)
    requires forall k :: k in s.config.entryMap && s.config.entryMap[k].bDirty ==> s.config.entryMap[k].bGlobal
    ensures SyncFile(s, locale).file == s.file && SyncFile(s, locale).config.entryMap == s.config.entryMap
    ensures !Writes(s.config)
  {
  }

  /** With one, and the mark, the file is written anew. */
  lemma SomethingDirty(s: OnFile, locale: bytes, k: KEntryKey)
    requires !s.config.bFileImmutable && s.config.bDirty
             && ParseConfig(s.file, map[], ReadOptions(locale, true)).info == ParseOk
    requires k in s.config.entryMap && s.config.entryMap[k].bDirty && !s.config.entryMap[k].bGlobal
    ensures Writes(s.config)
    ensures var w := ParseConfig(s.file, map[], ReadOptions(locale, true)).m;
            SyncFile(s, locale).file == WriteEntries(Merged(w, s.config.entryMap, false), locale, Null)
  {
    hide ParseConfig, WriteEntries, Merged, Cleaned;
  }

  /** A sync that does not write leaves the memory alone. */
  lemma OtherSyncsKeep(s: OnFile, locale: bytes)
    requires !Writes(s.config) || ParseConfig(s.file, map[], ReadOptions(locale, true)).info != ParseOk
    ensures SyncFile(s, locale).config.entryMap == s.config.entryMap && SyncFile(s, locale).file == s.file
    ensures SyncFile(s, locale).config.bFileImmutable == s.config.bFileImmutable
  {
    hide ParseConfig, WriteEntries, Merged, Cleaned, AnyDirty;
  }

  // ---------------------------------------------------------------------------
  // Who has touched a key
  // ---------------------------------------------------------------------------

  /** The call writes the object's changes, or drops the object's memory. */
  ghost predicate Settles(w: World, a: Action)
    requires Allowed(w, a)
  {
    a.Reparse? || (a.Sync? && Writes(w.clients[a.client]))
  }

  /** The objects that have put, deleted or reverted the key since their last sync that wrote,
      or their last reparse. */
  ghost function Touchers(w: World, acts: seq<Action>, locale: bytes, x: KEntryKey, before: set<nat>): set<nat>
    requires Runs(w, acts)
    decreases |acts|
  {
    if acts == [] then before
    else
      var a := acts[0];
      RunsOn(w, acts, locale);
      Touchers(Step(w, a, locale), acts[1..], locale, x, TouchedBy(w, a, x, before))
  }

  ghost function TouchedBy(w: World, a: Action, x: KEntryKey, before: set<nat>): set<nat>
    requires Allowed(w, a)
  {
    if a.On(x) then before + {a.client}
    else if Settles(w, a) then before - {a.client}
    else before
  }

  predicate Idle(c: Config, x: KEntryKey) {
    x in c.entryMap ==> !c.entryMap[x].bDirty
  }

  /** An object that has not touched the key has nothing of it to write. */
  ghost predicate OthersIdle(w: World, x: KEntryKey, touchers: set<nat>) {
    forall i :: 0 <= i < |w.clients| && i !in touchers ==> Idle(w.clients[i], x)
  }

  lemma SettledIsIdle(w: World, a: Action, locale: bytes, x: KEntryKey)
    requires LocaleOk(locale) && WorldOk(w, locale) && Allowed(w, a) && Settles(w, a) && x.mKey != []
    ensures Idle(Step(w, a, locale).clients[a.client], x)
  {
    hide LocaleOk, FileOk, MemoryOk, SyncFile, ParseConfig, Unchanged, AnyDirty;
    var s, base := View(w, a.client), w.bases[a.client];
    StepOk(w, a, locale);
    if a.Reparse? {
      var file := (if s.config.bDirty then SyncFile(s, locale) else s).file;
      ParsedUnchanged(file, base, ReadOptions(locale, false));
      UnchangedIsIdle(ParseConfig(file, base, ReadOptions(locale, false)).m, x);
    } else {
      assert ParseConfig(s.file, map[], ReadOptions(locale, true)).info == ParseOk by { FitIsOk(s.file, locale); }
      SyncCleans(s, locale, x);
      LocalEntry(Step(w, a, locale).clients[a.client].entryMap, x);
    }
  }

  lemma UnchangedIsIdle(m: Entries, x: KEntryKey)
    requires Unchanged(m)
    ensures x in m ==> !m[x].bDirty
  {
    hide MemoryOk;
  }

  lemma FitIsOk(file: bytes, locale: bytes)
    requires FileOk(file, locale)
    ensures ParseConfig(file, map[], ReadOptions(locale, true)).info == ParseOk
  {
    hide ParseConfig, LooselyRepresentable, MemoryOk, AllStable, ReadersAgree;
  }

  lemma LocalEntry(m: Entries, x: KEntryKey)
    requires MemoryOk(m) && x.mKey != []
    ensures x in m ==> !m[x].bGlobal
  {
    hide KeyOk, FlushSafe, GroupNameOk;
    if x in m {
      assert MemoryEntryOk(x, m[x]);
    }
  }

  /** Calls for other keys, and syncs of all kinds, do not make an entry dirty. */
  lemma StaysIdle(w: World, a: Action, locale: bytes, i: nat, x: KEntryKey)
    requires LocaleOk(locale) && WorldOk(w, locale) && Allowed(w, a) && !a.On(x) && x.mKey != []
    requires i < |w.clients| && Idle(w.clients[i], x)
    ensures Idle(Step(w, a, locale).clients[i], x)
  {
    hide LocaleOk, FileOk, MemoryOk, SyncFile, ReparseOver, Unchanged, AnyDirty, PutData, RevertData, KeyOk,
         GroupNameOk, FlushSafe;
    if a.client == i {
      if a.Changes() {
        IdleElsewhere(w.clients[i], a, x);
      } else if a.Reparse? || Writes(w.clients[i]) {
        SettledIsIdle(w, a, locale, x);
      } else {
        OtherSyncsKeep(View(w, i), locale);
      }
    }
  }

  lemma IdleElsewhere(c: Config, a: Action, x: KEntryKey)
    requires a.Changes() && !a.On(x) && x.mKey != [] && Idle(c, x)
    ensures a.Put? ==> Idle(PutData(c, a.g, a.k, a.value, a.expand), x)
    ensures a.Revert? ==> Idle(RevertData(c, a.g, a.k), x)
  {
    hide SetEntry;
    if a.Put? {
      Immutability.OthersUntouched(c.entryMap, PutWrite(a.g, a.k, a.value, a.expand), x);
    }
  }

  lemma StepIdle(w: World, a: Action, locale: bytes, x: KEntryKey, touchers: set<nat>)
    requires LocaleOk(locale) && WorldOk(w, locale) && Allowed(w, a) && x.mKey != [] && OthersIdle(w, x, touchers)
    ensures OthersIdle(Step(w, a, locale), x, TouchedBy(w, a, x, touchers))
  {
    hide LocaleOk, WorldOk, Step, Idle, Settles, Allowed;
    var w' := Step(w, a, locale);
    forall i | 0 <= i < |w'.clients| && i !in TouchedBy(w, a, x, touchers)
      ensures Idle(w'.clients[i], x)
    {
      if !a.On(x) && i == a.client && Settles(w, a) {
        SettledIsIdle(w, a, locale, x);
      } else if a.On(x) {
        OtherClients(w, a, locale, i);
      } else {
        StaysIdle(w, a, locale, i, x);
      }
    }
  }

  lemma OtherClients(w: World, a: Action, locale: bytes, i: nat)
    requires Allowed(w, a) && i < |w.clients| && i != a.client
    ensures Step(w, a, locale).clients[i] == w.clients[i]
  {
    hide ActOver;
  }

  /** Along every run the objects that have not touched the key have nothing of it to write. */
  lemma {:induction false} RunIdle(w: World, acts: seq<Action>, locale: bytes, x: KEntryKey, touchers: set<nat>)
    requires LocaleOk(locale) && WorldOk(w, locale) && Runs(w, acts) && x.mKey != [] && OthersIdle(w, x, touchers)
    ensures OthersIdle(Run(w, acts, locale), x, Touchers(w, acts, locale, x, touchers))
    decreases |acts|
  {
    hide LocaleOk, WorldOk, Step, OthersIdle, TouchedBy, Allowed;
    if acts == [] {
    } else {
      StepOk(w, acts[0], locale);
      RunsOn(w, acts, locale);
      StepIdle(w, acts[0], locale, x, touchers);
      RunIdle(Step(w, acts[0], locale), acts[1..], locale, x, TouchedBy(w, acts[0], x, touchers));
    }
  }

  lemma IdleIsNotCarried(w: World, a: Action, x: KEntryKey)
    requires Allowed(w, a) && Idle(w.clients[a.client], x)
    ensures !CarriesKey(w, a, x)
  {
    hide AnyDirty;
  }

  /** However the objects have come to where they are: a step of one that has neither put, nor
      deleted, nor reverted the key since its last sync that wrote or its last reparse does not
      change what is on disk. At the start no object has anything to write. */
  lemma UntouchedIsNotWritten(w: World, acts: seq<Action>, a: Action, locale: bytes, x: KEntryKey)
    requires LocaleOk(locale) && WorldOk(w, locale) && Runs(w, acts) && Allowed(Run(w, acts, locale), a) && x.mKey != []
    requires forall c :: c in w.clients ==> forall k :: k in c.entryMap ==> !c.entryMap[k].bDirty
    requires a.client !in Touchers(w, acts, locale, x, {})
    ensures Disk(Step(Run(w, acts, locale), a, locale), locale, x) == Disk(Run(w, acts, locale), locale, x)
  {
    hide LocaleOk, WorldOk, Step, Disk, Run, Allowed, Touchers, EffectOf;
    var w1 := Run(w, acts, locale);
    assert OthersIdle(w, x, {});
    RunIdle(w, acts, locale, x, {});
    RunOk(w, acts, locale);
    assert |w1.clients| == |w.clients| && a.client < |w1.clients| by { AllowedIsClient(w1, a); }
    IdleIsNotCarried(w1, a, x);
    StepOnDisk(w1, a, locale, x);
  }

  lemma AllowedIsClient(w: World, a: Action)
    requires Allowed(w, a)
    ensures a.client < |w.clients|
  {
  }

  // ---------------------------------------------------------------------------
  // Runs
  // ---------------------------------------------------------------------------

  /** Every object that syncs or reparses in the run has not touched the key by then. */
  ghost predicate NoToucherSyncs(w: World, acts: seq<Action>, locale: bytes, x: KEntryKey, touchers: set<nat>)
    requires Runs(w, acts)
    decreases |acts|
  {
    acts != [] ==>
      && (acts[0].Changes() || acts[0].client !in touchers)
      && Runs(Step(w, acts[0], locale), acts[1..])
      && NoToucherSyncs(Step(w, acts[0], locale), acts[1..], locale, x, TouchedBy(w, acts[0], x, touchers))
  }

  /** A run in which only such objects sync leaves the key on disk as it is. */
  lemma {:induction false} UntouchedStays(w: World, acts: seq<Action>, locale: bytes, x: KEntryKey, touchers: set<nat>)
    requires LocaleOk(locale) && WorldOk(w, locale) && Runs(w, acts) && x.mKey != [] && OthersIdle(w, x, touchers)
    requires NoToucherSyncs(w, acts, locale, x, touchers)
    ensures Disk(Run(w, acts, locale), locale, x) == Disk(w, locale, x)
    decreases |acts|
  {
    hide LocaleOk, WorldOk, Step, OthersIdle, TouchedBy, Disk, EffectOf;
    if acts == [] {
    } else {
      var a := acts[0];
      StepOk(w, a, locale);
      StepIdle(w, a, locale, x, touchers);
      StepOnDisk(w, a, locale, x);
      if !a.Changes() {
        assert Idle(w.clients[a.client], x) by { IdleOf(w, x, touchers, a.client); }
        IdleIsNotCarried(w, a, x);
      }
      UntouchedStays(Step(w, a, locale), acts[1..], locale, x, TouchedBy(w, a, x, touchers));
    }
  }

  lemma IdleOf(w: World, x: KEntryKey, touchers: set<nat>, i: nat)
    requires OthersIdle(w, x, touchers) && i < |w.clients| && i !in touchers
    ensures Idle(w.clients[i], x)
  {
    hide Idle;
  }

  /** No lost updates, by calls. From objects that have read nothing: whatever they have done, a
      change that one of them has made and reports is on disk after its sync, and stays there
      while only objects sync that have not put, deleted or reverted the key since they last
      wrote or read. */
  lemma NoLostUpdatesByCalls(w: World, before: seq<Action>, a: Action, after: seq<Action>, locale: bytes, x: KEntryKey,
                             text: Text)
    requires LocaleOk(locale) && WorldOk(w, locale) && Runs(w, before) && x.mKey != [] && !x.bLocal
    requires forall c :: c in w.clients ==> c == Config(map[], false, false)
    ensures var w1 := Run(w, before, locale);
            Allowed(w1, a) && !a.Changes() && Pending(w1.clients[a.client], x, text)
            && !w1.clients[a.client].bFileImmutable && Runs(Step(w1, a, locale), after)
            && NoToucherSyncs(Step(w1, a, locale), after, locale, x,
               Touchers(w, before, locale, x, {}) - {a.client}) ==>
              Disk(Run(Step(w1, a, locale), after, locale), locale, x) == text
  {
    hide LocaleOk, WorldOk, Step, Disk, EffectOf, Touchers, KeyOk, GroupNameOk, FlushSafe, NoToucherSyncs, Pending,
         Settles, Run;
    var w1 := Run(w, before, locale);
    var t := Touchers(w, before, locale, x, {});
    FreshIsIdle(w, x);
    RunIdle(w, before, locale, x, {});
    RunOk(w, before, locale);
    if Allowed(w1, a) && !a.Changes() && Pending(w1.clients[a.client], x, text) && !w1.clients[a.client].bFileImmutable
       && Runs(Step(w1, a, locale), after)
       && NoToucherSyncs(Step(w1, a, locale), after, locale, x, t - {a.client}) {
      StepOk(w1, a, locale);
      ClientWrites(w1, a, locale, x, text);
      StepOnDisk(w1, a, locale, x);
      StepIdle(w1, a, locale, x, t);
      assert Settles(w1, a) by { CarriedSettles(w1, a, x); }
      UntouchedStays(Step(w1, a, locale), after, locale, x, t - {a.client});
    }
  }

  lemma FreshIsIdle(w: World, x: KEntryKey)
    requires forall c :: c in w.clients ==> c == Config(map[], false, false)
    ensures OthersIdle(w, x, {})
  {
    forall i | 0 <= i < |w.clients|
      ensures Idle(w.clients[i], x)
    {
      assert w.clients[i] in w.clients;
    }
  }

  lemma CarriedSettles(w: World, a: Action, x: KEntryKey)
    requires Allowed(w, a) && CarriesKey(w, a, x)
    ensures Settles(w, a)
  {
    hide AnyDirty;
  }
}
