/** Any number of configuration objects on one file, each over its own default files, loading,
    changing, reverting and syncing at its own pace: no update is lost and none is invented
    (src/core/kconfigini.cpp:398-450, src/core/kconfig.cpp:433-521, 689-732, 1112-1141,
    promised at src/core/kconfigbase.h:100-102). */
module Clients {
  import opened Bytes
  import opened CodecLaws
  import opened EntryMap
  import opened Immutability
  import opened IniParser
  import opened IniWriter
  import opened IniLines
  import opened IniEntries
  import opened FileRoundTrip
  import opened Sync
  import opened Protocol
  import opened DefaultFiles

  /** The file, the objects that are open on it, and what each one's default files give. */
  datatype World = World(file: bytes, clients: seq<Config>, bases: seq<Entries>)

  /** One call on one object. Put with a null value is deleteEntry. */
  datatype Action =
    | Put(client: nat, g: bytes, k: bytes, value: QByteArray, expand: bool)
    | Revert(client: nat, g: bytes, k: bytes)
    | Sync(client: nat)
    | Reparse(client: nat)
  {
    predicate Changes() {
      Put? || Revert?
    }

    predicate On(x: KEntryKey) {
      Changes() && g == x.mGroup && k == x.mKey
    }

    /** The changes that a file can hold. */
    predicate Representable() {
      match this
      case Put(_, g, k, value, _) => GroupNameOk(g) && KeyOk(k) && (value.Data? ==> FlushSafe([], value.data))
      case Revert(_, g, k) => GroupNameOk(g) && KeyOk(k)
      case _ => true
    }
  }

  predicate Allowed(w: World, a: Action) {
    a.client < |w.clients| && a.client < |w.bases| && a.Representable()
  }

  ghost function ActOver(s: OnFile, base: Entries, a: Action, locale: bytes): OnFile {
    match a
    case Put(_, g, k, value, expand) => s.(config := PutData(s.config, g, k, value, expand))
    case Revert(_, g, k) => s.(config := RevertData(s.config, g, k))
    case Sync(_) => SyncFile(s, locale)
    case Reparse(_) => ReparseOver(s, base, locale)
  }

  /** Without default files. */
  ghost function Act(s: OnFile, a: Action, locale: bytes): OnFile {
    ActOver(s, map[], a, locale)
  }

  function View(w: World, i: nat): OnFile
    requires i < |w.clients|
  {
    OnFile(w.clients[i], w.file)
  }

  ghost function Step(w: World, a: Action, locale: bytes): (w': World)
    requires Allowed(w, a)
    ensures |w'.clients| == |w.clients| && w'.bases == w.bases
  {
    var s := ActOver(View(w, a.client), w.bases[a.client], a, locale);
    World(s.file, w.clients[a.client := s.config], w.bases)
  }

  ghost predicate Runs(w: World, acts: seq<Action>) {
    forall i :: 0 <= i < |acts| ==> Allowed(w, acts[i])
  }

  ghost function Run(w: World, acts: seq<Action>, locale: bytes): (w': World)
    requires Runs(w, acts)
    ensures |w'.clients| == |w.clients| && w'.bases == w.bases
    decreases |acts|
  {
    if acts == [] then w
    else
      var w1 := Step(w, acts[0], locale);
      assert forall i :: 0 <= i < |acts[1..]| ==> Allowed(w, acts[1..][i]);
      Run(w1, acts[1..], locale)
  }

  // ---------------------------------------------------------------------------
  // What every run keeps
  // ---------------------------------------------------------------------------

  /** The object may have found the file immutable as a whole, and then does not write it. */
  ghost predicate ObjectOk(s: OnFile, locale: bytes) {
    FileOk(s.file, locale) && MemoryOk(s.config.entryMap)
  }

  ghost predicate ClientOk(s: OnFile, locale: bytes) {
    ObjectOk(s, locale) && !s.config.bFileImmutable
  }

  ghost predicate WorldOk(w: World, locale: bytes) {
    && FileOk(w.file, locale)
    && (forall c :: c in w.clients ==> MemoryOk(c.entryMap))
    && (forall base :: base in w.bases ==> Unchanged(base))
  }

  function PutWrite(g: bytes, k: bytes, value: QByteArray, expand: bool): Write {
    Write(g, k, value, PutOptions(value, expand))
  }

  /** What a change stores can be written to a file. */
  lemma PreparedMemoryOk(k: KEntryKey, e: KEntry, value: QByteArray, expand: bool)
    requires KeyOk(k.mKey) && GroupNameOk(k.mGroup) && !k.bLocal && (value.Data? ==> FlushSafe([], value.data))
    requires e == NEW_ENTRY || MemoryEntryOk(k, e)
    requires !k.bDefault
    ensures MemoryEntryOk(k, Prepared(Overridden(k, e, PutOptions(value, expand)), value, PutOptions(value, expand)))
  {
    hide KeyOk, FlushSafe, GroupOk;
  }

  lemma StoredMemoryOk(m: Entries, g: bytes, k: bytes, value: QByteArray, expand: bool)
    requires MemoryOk(m) && KeyOk(k) && GroupNameOk(g) && (value.Data? ==> FlushSafe([], value.data))
    ensures MemoryOk(Stored(m, g, k, value, PutOptions(value, expand)))
  {
    hide KeyOk, FlushSafe, GroupOk, MemoryEntryOk, Prepared, Overridden;
    var x, o := KEntryKey(g, k, false, false), PutOptions(value, expand);
    KeyNotEmpty(k);
    if x in m {
      PreparedMemoryOk(x, m[x], value, expand);
    } else {
      PreparedMemoryOk(x, NEW_ENTRY, value, expand);
      NewIsNotOverridden(x, o);
    }
    StoredWellKept(m, g, k, value, o);
  }

  lemma NewIsNotOverridden(x: KEntryKey, o: EntryOptions)
    ensures Overridden(x, NEW_ENTRY, o) == NEW_ENTRY
  {
  }

  lemma KeyNotEmpty(k: bytes)
    requires KeyOk(k)
    ensures k != []
  {
  }

  lemma WithoutTwinsMemoryOk(m: Entries, g: bytes, k: bytes, o: EntryOptions)
    requires MemoryOk(m) && k != []
    ensures MemoryOk(WithoutTwins(m, g, k, o))
  {
    hide MemoryEntryOk;
    WithoutTwinsWellKept(m, g, k, o);
  }

  lemma PutMemoryOk(c: Config, g: bytes, k: bytes, value: QByteArray, expand: bool)
    requires MemoryOk(c.entryMap) && KeyOk(k) && GroupNameOk(g) && (value.Data? ==> FlushSafe([], value.data))
    ensures MemoryOk(PutData(c, g, k, value, expand).entryMap)
  {
    hide KeyOk, FlushSafe, GroupNameOk, MemoryOk, Stored, WithoutTwins, Refused, SetEntry, SameEntry;
    var m, o := c.entryMap, PutOptions(value, expand);
    var s := Stored(m, g, k, value, o);
    KeyNotEmpty(k);
    PlainApply(m, PutWrite(g, k, value, expand));
    StoredMemoryOk(m, g, k, value, expand);
    WithoutTwinsMemoryOk(m, g, k, o);
    WithoutTwinsMemoryOk(s, g, k, o);
  }

  lemma RevertMemoryOk(c: Config, g: bytes, k: bytes)
    requires MemoryOk(c.entryMap) && KeyOk(k) && GroupNameOk(g)
    ensures MemoryOk(RevertData(c, g, k).entryMap)
  {
    hide KeyOk, FlushSafe, GroupOk;
    var m := c.entryMap;
    var x := KEntryKey(g, k, false, false);
    KeyNotEmpty(k);
    RevertWellKept(m, g, k, NO_OPTIONS.(dirty := true), false);
    if x in m {
      assert MemoryEntryOk(x, m[x]);
    }
    if x.(bDefault := true) in m {
      assert MemoryEntryOk(x.(bDefault := true), m[x.(bDefault := true)]);
    }
  }

  lemma ObjectSyncOk(s: OnFile, locale: bytes)
    requires LocaleOk(locale) && ObjectOk(s, locale)
    ensures ObjectOk(SyncFile(s, locale), locale)
  {
    hide ParseConfig, WriteEntries, LocaleOk, MemoryOk, FileOk, Merged, Cleaned, EffectOf, Carries, TextAt, AnyDirty;
    if Writes(s.config) {
      SyncWrites(s, locale);
    }
  }

  lemma SyncOk(s: OnFile, locale: bytes)
    requires LocaleOk(locale) && ClientOk(s, locale)
    ensures ClientOk(SyncFile(s, locale), locale) && !SyncFile(s, locale).config.bDirty
  {
    hide ParseConfig, WriteEntries, LocaleOk, MemoryOk, FileOk, Merged, Cleaned, EffectOf, Carries, TextAt, AnyDirty;
    if Writes(s.config) {
      SyncWrites(s, locale);
    }
  }

  lemma ObjectReparseOk(s: OnFile, base: Entries, locale: bytes)
    requires LocaleOk(locale) && ObjectOk(s, locale) && Unchanged(base)
    ensures ObjectOk(ReparseOver(s, base, locale), locale)
    ensures ReparseOver(s, base, locale).file == SyncFile(s, locale).file
  {
    hide ParseConfig, LocaleOk, FileOk, SyncFile, Unchanged;
    ObjectSyncOk(s, locale);
    NothingToSync(s, locale);
    var file := SyncFile(s, locale).file;
    ParsedUnchanged(file, base, ReadOptions(locale, false));
    assert MemoryOk(ParseConfig(file, base, ReadOptions(locale, false)).m) by {
      UnchangedOk(ParseConfig(file, base, ReadOptions(locale, false)).m);
    }
  }

  lemma UnchangedOk(m: Entries)
    requires Unchanged(m)
    ensures MemoryOk(m)
  {
    hide MemoryOk;
  }

  lemma ReparseOk(s: OnFile, locale: bytes)
    requires LocaleOk(locale) && ClientOk(s, locale)
    ensures ClientOk(Sync.Reparse(s, locale), locale)
    ensures Sync.Reparse(s, locale) == OnFile(Config(Loaded(SyncFile(s, locale).file, locale), false, false),
                                              SyncFile(s, locale).file)
  {
    hide ParseConfig, WriteEntries, LocaleOk, MemoryOk, SyncFile, Representable, ReadersAgree;
    SyncOk(s, locale);
    NothingToSync(s, locale);
  }

  lemma NothingToSync(s: OnFile, locale: bytes)
    ensures !s.config.bDirty ==> SyncFile(s, locale) == s
  {
  }

  lemma ActOverOk(s: OnFile, base: Entries, a: Action, locale: bytes)
    requires LocaleOk(locale) && ObjectOk(s, locale) && Unchanged(base) && a.Representable()
    ensures ObjectOk(ActOver(s, base, a, locale), locale)
  {
    hide LocaleOk, MemoryOk, FileOk, SetEntry, RevertEntry, SyncFile, ReparseOver, FlushSafe, KeyOk, GroupNameOk,
         Unchanged;
    match a
    case Put(_, g, k, value, expand) => PutMemoryOk(s.config, g, k, value, expand);
    case Revert(_, g, k) => RevertMemoryOk(s.config, g, k);
    case Sync(_) => ObjectSyncOk(s, locale);
    case Reparse(_) => ObjectReparseOk(s, base, locale);
  }

  lemma ActOk(s: OnFile, a: Action, locale: bytes)
    requires LocaleOk(locale) && ClientOk(s, locale) && a.Representable()
    ensures ClientOk(Act(s, a, locale), locale)
  {
    hide LocaleOk, MemoryOk, FileOk, SetEntry, RevertEntry, SyncFile, Sync.ReparseOver, Sync.Reparse, FlushSafe, KeyOk,
         GroupNameOk;
    assert Sync.Reparse(s, locale) == ReparseOver(s, map[], locale) by { ReparseMeans(s, locale); }
    match a
    case Put(_, g, k, value, expand) => PutMemoryOk(s.config, g, k, value, expand);
    case Revert(_, g, k) => RevertMemoryOk(s.config, g, k);
    case Sync(_) => SyncOk(s, locale);
    case Reparse(_) => ReparseOk(s, locale);
  }

  lemma ReparseMeans(s: OnFile, locale: bytes)
    ensures Sync.Reparse(s, locale) == ReparseOver(s, map[], locale)
  {
    hide ReparseOver;
  }

  lemma StepOk(w: World, a: Action, locale: bytes)
    requires LocaleOk(locale) && WorldOk(w, locale) && Allowed(w, a)
    ensures WorldOk(Step(w, a, locale), locale)
  {
    hide LocaleOk, MemoryOk, FileOk, ActOver, Unchanged;
    ActOverOk(View(w, a.client), w.bases[a.client], a, locale);
  }

  // ---------------------------------------------------------------------------
  // Who wrote what is on disk
  // ---------------------------------------------------------------------------

  /** The step syncs an object in which the key has been changed. */
  ghost predicate CarriesKey(w: World, a: Action, x: KEntryKey)
    requires Allowed(w, a)
  {
    var c := w.clients[a.client];
    !a.Changes() && Writes(c) && Carries(c.entryMap, x)
  }

  ghost function Disk(w: World, locale: bytes, x: KEntryKey): Text {
    TextAt(OnDisk(w.file, locale), x)
  }

  /** One step leaves a key on disk alone unless it carries it, and then the key takes the
      effect of the last change made through that object. */
  lemma StepOnDisk(w: World, a: Action, locale: bytes, x: KEntryKey)
    requires LocaleOk(locale) && WorldOk(w, locale) && Allowed(w, a) && x.mKey != []
    ensures Disk(Step(w, a, locale), locale, x) ==
            if CarriesKey(w, a, x) then EffectOf(w.clients[a.client].entryMap, x) else Disk(w, locale, x)
  {
    hide LocaleOk, MemoryOk, FileOk, SetEntry, RevertEntry, SyncFile, ReparseOver, EffectOf, Carries, TextAt, OnDisk,
         AnyDirty, KeyOk, GroupNameOk, Unchanged;
    var s := View(w, a.client);
    if !a.Changes() {
      SyncedFile(s, locale, x);
      ObjectReparseOk(s, w.bases[a.client], locale);
    }
  }

  lemma SyncedFile(s: OnFile, locale: bytes, x: KEntryKey)
    requires LocaleOk(locale) && ObjectOk(s, locale) && x.mKey != []
    ensures TextAt(OnDisk(SyncFile(s, locale).file, locale), x) ==
            if Writes(s.config) && Carries(s.config.entryMap, x) then EffectOf(s.config.entryMap, x)
               else TextAt(OnDisk(s.file, locale), x)
  {
    hide ParseConfig, WriteEntries, LocaleOk, MemoryOk, FileOk, Merged, Cleaned, EffectOf, Carries, TextAt, AnyDirty,
         OnDisk;
    if Writes(s.config) {
      SyncWrites(s, locale);
    }
  }

  /** No step of the run carries the key. */
  ghost predicate Uncarried(w: World, acts: seq<Action>, locale: bytes, x: KEntryKey)
    requires Runs(w, acts)
    decreases |acts|
  {
    acts != [] ==>
      && !CarriesKey(w, acts[0], x)
      && Runs(Step(w, acts[0], locale), acts[1..])
      && Uncarried(Step(w, acts[0], locale), acts[1..], locale, x)
  }

  lemma RunsOn(w: World, acts: seq<Action>, locale: bytes)
    requires Runs(w, acts) && acts != []
    ensures Runs(Step(w, acts[0], locale), acts[1..])
  {
    hide Act, Allowed;
    forall i | 0 <= i < |acts| - 1
      ensures Allowed(Step(w, acts[0], locale), acts[1..][i])
    {
      SameClients(w, acts[0], acts[i + 1], locale);
    }
  }

  lemma SameClients(w: World, a: Action, b: Action, locale: bytes)
    requires Allowed(w, a)
    ensures Allowed(Step(w, a, locale), b) <==> Allowed(w, b)
  {
    hide Act, KeyOk, GroupNameOk, FlushSafe;
  }

  lemma {:induction false} RunOk(w: World, acts: seq<Action>, locale: bytes)
    requires LocaleOk(locale) && WorldOk(w, locale) && Runs(w, acts)
    ensures WorldOk(Run(w, acts, locale), locale)
    decreases |acts|
  {
    hide LocaleOk, WorldOk, Step, Allowed;
    if acts == [] {
    } else {
      StepOk(w, acts[0], locale);
      RunsOn(w, acts, locale);
      RunOk(Step(w, acts[0], locale), acts[1..], locale);
    }
  }

  /** Nothing appears on disk that no object has put there. */
  lemma {:induction false} UncarriedStays(w: World, acts: seq<Action>, locale: bytes, x: KEntryKey)
    requires LocaleOk(locale) && WorldOk(w, locale) && Runs(w, acts) && x.mKey != []
    requires Uncarried(w, acts, locale, x)
    ensures Disk(Run(w, acts, locale), locale, x) == Disk(w, locale, x)
    decreases |acts|
  {
    hide LocaleOk, WorldOk, Step, Allowed, CarriesKey, Disk;
    if acts == [] {
    } else {
      StepOk(w, acts[0], locale);
      StepOnDisk(w, acts[0], locale, x);
      UncarriedStays(Step(w, acts[0], locale), acts[1..], locale, x);
    }
  }

  /** No lost updates. In whatever way the objects have come to where they are, the sync of one
      of them puts every key it has changed on disk as that object left it, and there the key
      stays until another sync carries it. */
  lemma NoLostUpdates(w: World, before: seq<Action>, a: Action, after: seq<Action>, locale: bytes, x: KEntryKey)
    requires LocaleOk(locale) && WorldOk(w, locale) && Runs(w, before) && x.mKey != []
    ensures var w1 := Run(w, before, locale);
            Allowed(w1, a) && CarriesKey(w1, a, x) && Runs(Step(w1, a, locale), after)
                && Uncarried(Step(w1, a, locale), after, locale, x) ==>
              Disk(Run(Step(w1, a, locale), after, locale), locale, x) == EffectOf(w1.clients[a.client].entryMap, x)
  {
    hide LocaleOk, WorldOk, Step, Allowed, CarriesKey, Disk, Uncarried, EffectOf, Run;
    var w1 := Run(w, before, locale);
    RunOk(w, before, locale);
    if Allowed(w1, a) && CarriesKey(w1, a, x) && Runs(Step(w1, a, locale), after)
       && Uncarried(Step(w1, a, locale), after, locale, x) {
      StepOk(w1, a, locale);
      StepOnDisk(w1, a, locale, x);
      UncarriedStays(Step(w1, a, locale), after, locale, x);
    }
  }

  /** What the default files of each object give. */
  function Bases(defaults: seq<seq<bytes>>, locale: bytes): seq<Entries> {
    seq(|defaults|, i requires 0 <= i < |defaults| => Base(defaults[i], locale))
  }

  lemma BasesUnchanged(defaults: seq<seq<bytes>>, locale: bytes)
    ensures forall base :: base in Bases(defaults, locale) ==> Unchanged(base)
  {
    hide Base, Unchanged;
    forall i | 0 <= i < |defaults|
      ensures Unchanged(Base(defaults[i], locale))
    {
      BaseUnchanged(defaults[i], locale);
    }
  }

  /** Objects that have read nothing yet, each with whatever default files, on a printed file. */
  lemma FreshWorldOk(m: Entries, locale: bytes, clients: seq<Config>, defaults: seq<seq<bytes>>)
    requires LocaleOk(locale) && Representable(m, locale)
    requires forall c :: c in clients ==> c == Config(map[], false, false)
    ensures WorldOk(World(WriteEntries(m, locale, Null), clients, Bases(defaults, locale)), locale)
  {
    hide WriteEntries, LocaleOk, Representable, FileOk, Unchanged, Bases;
    WrittenFile(m, locale);
    BasesUnchanged(defaults, locale);
    assert MemoryOk(map[]);
  }

  /** A file that is immutable as a whole is never written: the sync of an object that has
      something to write fails, and no step changes the file. */
  lemma ImmutableFileStays(s: OnFile, a: Action, locale: bytes)
    requires ParseConfig(s.file, map[], ReadOptions(locale, true)).info != ParseOk
    ensures Act(s, a, locale).file == s.file
    ensures s.config.bDirty && AnyDirty(s.config.entryMap) ==>
            !SyncSucceeds(s, locale) && SyncFile(s, locale).config == s.config
  {
    hide ParseConfig, AnyDirty, SetEntry, RevertEntry, WriteEntries, Merged, Cleaned;
  }

  // ---------------------------------------------------------------------------
  // From the call to the disk
  // ---------------------------------------------------------------------------

  /** The object will carry the key, with this text. */
  ghost predicate Pending(c: Config, x: KEntryKey, text: Text) {
    c.bDirty && Carries(c.entryMap, x) && EffectOf(c.entryMap, x) == text
  }

  function PutText(m: Entries, x: KEntryKey, value: QByteArray, expand: bool): Text {
    if value.Null? then DeletionEffect(m, x) else Present(value, expand, false)
  }

  /** The memory already says what is put. */
  predicate InPlace(m: Entries, x: KEntryKey, value: QByteArray, expand: bool) {
    && x in m
    && if value.Null? then m[x].bDeleted else !m[x].bDeleted && m[x].mValue == value && m[x].bExpand == expand
  }

  /** An empty value over an entry without one, which comparing entries takes for the same. */
  predicate Swallowed(m: Entries, x: KEntryKey, value: QByteArray, expand: bool) {
    value == Data([]) && x in m && m[x].mValue.Null? && !m[x].bDeleted && m[x].bExpand == expand
  }

  /** A deletion of a key that is not in the map is stored but not reported. */
  predicate Unreported(c: Config, x: KEntryKey, value: QByteArray) {
    value.Null? && x !in c.entryMap && !c.bDirty
  }

  /** What a put that is not refused leaves behind, by cases. */
  lemma PutCases(c: Config, g: bytes, k: bytes, value: QByteArray, expand: bool)
    requires MemoryOk(c.entryMap) && KeyOk(k) && GroupNameOk(g)
    requires !Refused(c.entryMap, g, k, PutOptions(value, expand))
    ensures var x := KEntryKey(g, k, false, false);
            var m := c.entryMap;
            var c' := PutData(c, g, k, value, expand);
            if x in m && SameEntry(m[x], Prepared(m[x], value, PutOptions(value, expand)))
            then SameAt(m, c'.entryMap, x)
            else if x !in m && value.Null?
            then Carries(c'.entryMap, x) && EffectOf(c'.entryMap, x) == DeletionEffect(m, x) && c'.bDirty == c.bDirty
            else Pending(c', x, PutText(m, x, value, expand))
  {
    hide KeyOk, FlushSafe, GroupOk, WithoutTwins, SameEntry, WithMarker;
    var x, m, o := KEntryKey(g, k, false, false), c.entryMap, PutOptions(value, expand);
    KeyNotEmpty(k);
    if x in m {
      assert MemoryEntryOk(x, m[x]);
    }
    PlainApply(m, PutWrite(g, k, value, expand));
    WithoutTwinsAt(m, g, k, o, x);
    WithoutTwinsAt(Stored(m, g, k, value, o), g, k, o, x);
    DefaultStays(c, g, k, value, expand);
  }

  lemma DefaultStays(c: Config, g: bytes, k: bytes, value: QByteArray, expand: bool)
    requires KeyOk(k)
    ensures var d := KEntryKey(g, k, false, true);
            d in PutData(c, g, k, value, expand).entryMap <==> d in c.entryMap
  {
    hide KeyOk, Stored, WithoutTwins, SameEntry, Refused;
    var d, m, o := KEntryKey(g, k, false, true), c.entryMap, PutOptions(value, expand);
    KeyNotEmpty(k);
    PlainApply(m, PutWrite(g, k, value, expand));
    StoredAt(m, g, k, value, o, d);
    WithoutTwinsAt(m, g, k, o, d);
    WithoutTwinsAt(Stored(m, g, k, value, o), g, k, o, d);
  }

  /** A put that is not refused is kept, in place or as a change to write, exactly if it is
      neither an empty value over an entry without one nor a deletion of a key that a clean
      object does not know. */
  lemma PutIsKept(c: Config, g: bytes, k: bytes, value: QByteArray, expand: bool)
    requires MemoryOk(c.entryMap) && KeyOk(k) && GroupNameOk(g)
    requires !Refused(c.entryMap, g, k, PutOptions(value, expand))
    ensures var x := KEntryKey(g, k, false, false);
            InPlace(c.entryMap, x, value, expand)
            || Pending(PutData(c, g, k, value, expand), x, PutText(c.entryMap, x, value, expand))
            <==> !Swallowed(c.entryMap, x, value, expand) && !Unreported(c, x, value)
  {
    hide KeyOk, FlushSafe, GroupOk, PutData;
    var x, m := KEntryKey(g, k, false, false), c.entryMap;
    KeyNotEmpty(k);
    PutCases(c, g, k, value, expand);
    if x in m {
      assert MemoryEntryOk(x, m[x]);
    }
  }

  /** The first exception: the lookup goes on finding nothing. */
  lemma SwallowedIsNotShown(c: Config, g: bytes, k: bytes, expand: bool, fallback: QByteArray)
    requires MemoryOk(c.entryMap) && KeyOk(k) && GroupNameOk(g)
    requires !Refused(c.entryMap, g, k, PutOptions(Data([]), expand))
             && Swallowed(c.entryMap, KEntryKey(g, k, false, false), Data([]), expand)
    ensures var x := KEntryKey(g, k, false, false);
            && SameAt(c.entryMap, PutData(c, g, k, Data([]), expand).entryMap, x)
            && GetEntry(PutData(c, g, k, Data([]), expand).entryMap, g, k, fallback, SearchFlags(false, false))
               == fallback
  {
    hide KeyOk, FlushSafe, GroupOk, PutData;
    var x, m := KEntryKey(g, k, false, false), c.entryMap;
    KeyNotEmpty(k);
    PutCases(c, g, k, Data([]), expand);
    assert MemoryEntryOk(x, m[x]);
  }

  /** The second one: the object stays clean, and its syncs leave the file as it is, whatever
      the file says about the key. */
  lemma UnreportedIsNotWritten(s: OnFile, g: bytes, k: bytes, expand: bool, locale: bytes)
    requires MemoryOk(s.config.entryMap) && KeyOk(k) && GroupNameOk(g)
    requires Unreported(s.config, KEntryKey(g, k, false, false), Null)
    ensures var c' := PutData(s.config, g, k, Null, expand);
            && !c'.bDirty && SyncFile(OnFile(c', s.file), locale) == OnFile(c', s.file)
    ensures !Refused(s.config.entryMap, g, k, PutOptions(Null, expand)) ==>
            Carries(PutData(s.config, g, k, Null, expand).entryMap, KEntryKey(g, k, false, false))
  {
    hide KeyOk, FlushSafe, GroupOk, WithMarker;
    KeyNotEmpty(k);
  }

  /** Until it is synced, a change is only undone by another change of the same key through
      the same object. */
  lemma PendingStays(w: World, a: Action, locale: bytes, i: nat, x: KEntryKey, text: Text)
    requires Allowed(w, a) && i < |w.clients| && Pending(w.clients[i], x, text) && !x.bLocal
    requires a.client == i ==> a.Changes() && !a.On(x)
    ensures var c := Step(w, a, locale).clients[i];
            Pending(c, x, text) && c.bFileImmutable == w.clients[i].bFileImmutable
  {
    hide KeyOk, FlushSafe, GroupOk, SyncFile, ReparseOver, SetEntry, ActOver;
    if a.client == i {
      ChangeElsewhere(View(w, i), w.bases[i], a, x, locale);
    }
  }

  lemma ChangeElsewhere(s: OnFile, base: Entries, a: Action, x: KEntryKey, locale: bytes)
    requires a.Changes() && !a.On(x) && x.mKey != []
    ensures var c, c' := s.config, ActOver(s, base, a, locale).config;
            && (x in c.entryMap ==> SameAt(c.entryMap, c'.entryMap, x)) && (c.bDirty ==> c'.bDirty)
            && (x.(bDefault := true) in c'.entryMap <==> x.(bDefault := true) in c.entryMap)
            && c'.bFileImmutable == c.bFileImmutable
  {
    hide KeyOk, FlushSafe, GroupOk, SyncFile, ReparseOver, SetEntry;
    if a.Put? {
      OthersUntouched(s.config.entryMap, PutWrite(a.g, a.k, a.value, a.expand), x);
      OthersUntouched(s.config.entryMap, PutWrite(a.g, a.k, a.value, a.expand), x.(bDefault := true));
    }
  }

  lemma {:induction false} PendingStaysLong(w: World, acts: seq<Action>, locale: bytes, i: nat, x: KEntryKey,
                                            text: Text)
    requires Runs(w, acts) && i < |w.clients| && Pending(w.clients[i], x, text) && !x.bLocal
    requires forall a :: a in acts && a.client == i ==> a.Changes() && !a.On(x)
    ensures var c := Run(w, acts, locale).clients[i];
            Pending(c, x, text) && c.bFileImmutable == w.clients[i].bFileImmutable
    decreases |acts|
  {
    hide Step, Allowed, Pending;
    if acts == [] {
    } else {
      PendingStays(w, acts[0], locale, i, x, text);
      RunsOn(w, acts, locale);
      PendingStaysLong(Step(w, acts[0], locale), acts[1..], locale, i, x, text);
    }
  }

  /** A pending change reaches the disk with the next sync of an object that has not found its
      file immutable, whatever the other objects have done to the file in between. */
  lemma PendingReachesDisk(w: World, acts: seq<Action>, a: Action, locale: bytes, x: KEntryKey, text: Text)
    requires LocaleOk(locale) && WorldOk(w, locale) && Runs(w, acts) && Allowed(w, a) && !a.Changes()
    requires Pending(w.clients[a.client], x, text) && !w.clients[a.client].bFileImmutable && !x.bLocal
    requires forall b :: b in acts && b.client == a.client ==> b.Changes() && !b.On(x)
    ensures Allowed(Run(w, acts, locale), a)
    ensures Disk(Step(Run(w, acts, locale), a, locale), locale, x) == text
  {
    hide LocaleOk, WorldOk, Step, Disk, Run;
    var w1 := Run(w, acts, locale);
    RunOk(w, acts, locale);
    PendingStaysLong(w, acts, locale, a.client, x, text);
    ClientWrites(w1, a, locale, x, text);
    StepOnDisk(w1, a, locale, x);
  }

  lemma ClientWrites(w: World, a: Action, locale: bytes, x: KEntryKey, text: Text)
    requires Allowed(w, a) && !a.Changes() && Pending(w.clients[a.client], x, text)
             && !w.clients[a.client].bFileImmutable
    ensures CarriesKey(w, a, x) && EffectOf(w.clients[a.client].entryMap, x) == text
  {
    hide LocaleOk, FileOk, MemoryOk, EffectOf, KeyOk, GroupNameOk, FlushSafe;
  }
}
