/** A configuration on a file of its own, over default files: when a plain lookup stays the same
    once the changes are written and all files are read again (src/core/kconfigini.cpp:418-445,
    148-155, src/core/kconfig.cpp:433-521, 689-732, src/core/kconfigdata.cpp:71-219, 308-338). */
module DurabilityOverDefaults {
  import opened Bytes
  import opened IniCodec
  import opened CodecLaws
  import opened EntryMap
  import opened Immutability
  import opened Revert
  import opened Cascade
  import opened IniParser
  import opened IniWriter
  import opened IniEntries
  import opened ParserRuns
  import opened FileRoundTrip
  import opened Sync
  import opened Protocol
  import opened DefaultFiles
  import opened Clients
  import opened Durability
  import opened OverDefaults

  // ---------------------------------------------------------------------------
  // What default files give
  // ---------------------------------------------------------------------------

  /** Every plain entry stands beside its default. */
  ghost predicate Paired(m: Entries) {
    forall x :: x in m && IsPlain(x) ==> x.(bDefault := true) in m
  }

  /** What a call that is not for defaults does to the keys of plain and default entries. */
  lemma PlainKeys(m: Entries, w: Write, x: KEntryKey)
    requires w.k != [] && !w.o.forDefault && x.mKey != [] && !x.bLocal
    ensures x.bDefault ==> SameAt(m, Apply(m, w), x)
    ensures x in Apply(m, w) ==> x in m || x == KEntryKey(w.g, w.k, w.o.localized, false)
  {
    hide Stored, WithoutTwins, SetExisting, SetNew;
    var s := Stored(m, w.g, w.k, w.value, w.o);
    Steps(m, w.g, w.k, w.value, w.o);
    assert Mirrored(s, w.g, w.k, w.value, w.o) == s;
    StoredAt(m, w.g, w.k, w.value, w.o, x);
    WithoutTwinsAt(m, w.g, w.k, w.o, x);
    WithoutTwinsAt(s, w.g, w.k, w.o, x);
  }

  lemma StoredPaired(m: Entries, w: Write)
    requires w.k != [] && w.o.forDefault && Paired(m)
    ensures Paired(Stored(m, w.g, w.k, w.value, w.o))
    ensures KEntryKey(w.g, w.k, w.o.localized, true) in Stored(m, w.g, w.k, w.value, w.o)
  {
    hide Prepared, Overridden;
  }

  lemma MirroredPaired(m: Entries, w: Write)
    requires w.k != [] && !w.o.forDefault && Paired(m) && KEntryKey(w.g, w.k, w.o.localized, true) in m
    ensures Paired(Apply(m, w))
  {
    hide Apply;
    forall x | x in Apply(m, w) && IsPlain(x)
      ensures x.(bDefault := true) in Apply(m, w)
    {
      PlainKeys(m, w, x);
      PlainKeys(m, w, x.(bDefault := true));
    }
  }

  lemma TwinsPaired(m: Entries, g: bytes, k: bytes, o: EntryOptions)
    requires Paired(m)
    ensures Paired(WithoutTwins(m, g, k, o))
  {
  }

  lemma MarkerPaired(m: Entries, w: Write)
    requires Paired(m)
    ensures Paired(SetMarker(m, w.g, w.o).m)
  {
  }

  lemma CallPaired(m: Entries, w: Write)
    requires Aimed(w, true) && Paired(m)
    ensures Paired(Apply(m, w))
  {
    hide Stored, WithoutTwins, SetExisting, SetNew, SetMarker, Paired;
    var g, k, value, o := w.g, w.k, w.value, w.o;
    if k == [] {
      MarkerPaired(m, w);
    } else {
      var s := Stored(m, g, k, value, o);
      Steps(m, g, k, value, o);
      StoredPaired(m, w);
      MirroredPaired(s, w.(o := o.(forDefault := false)));
      TwinsPaired(m, g, k, o);
      TwinsPaired(Mirrored(s, g, k, value, o), g, k, o);
    }
  }

  lemma {:induction false} RunPaired(m: Entries, ws: seq<Write>)
    requires (forall w :: w in ws ==> Aimed(w, true)) && Paired(m)
    ensures Paired(Immutability.Run(m, ws))
    decreases |ws|
  {
    hide Apply, Paired, Aimed;
    if ws == [] {
    } else {
      CallPaired(m, ws[0]);
      RunPaired(Apply(m, ws[0]), ws[1..]);
    }
  }

  lemma {:induction false} FilesPaired(m: Entries, files: seq<bytes>, opts: ParseOptions)
    requires opts.defaults && !opts.global && !opts.merging && Paired(m)
    ensures Paired(ParseFiles(m, files, opts))
    decreases |files|
  {
    hide ParseConfig, Paired, FileWrites, Immutability.Run, FileCall, Aimed;
    if files == [] {
    } else {
      ParsingIsRun(files[0], m, opts);
      CallsOfFile(files[0], m, opts);
      RunPaired(m, FileWrites(files[0], m, opts));
      FilesPaired(ParseConfig(files[0], m, opts).m, files[1..], opts);
    }
  }

  /** A base that an object can start from. */
  ghost predicate BaseOk(b: Entries) {
    Unchanged(b) && Paired(b)
  }

  /** Whatever the default files contain, they give one. */
  lemma DefaultsGiveBase(files: seq<bytes>, locale: bytes)
    ensures BaseOk(Base(files, locale))
  {
    hide ParseFiles, Unchanged;
    BaseUnchanged(files, locale);
    assert Paired(map[]);
    FilesPaired(map[], files, DefaultOptions(locale));
  }

  // ---------------------------------------------------------------------------
  // Files and objects
  // ---------------------------------------------------------------------------

  /** A file that is read over the base as it is merged. */
  ghost predicate FileOver(file: bytes, b: Entries, locale: bytes) {
    && FileOk(file, locale)
    && ParseConfig(file, b, ReadOptions(locale, false)).info == ParseOk
    && forall x: KEntryKey :: IsPlain(x) ==>
         ShownAt(LoadedOver(file, b, locale), x) == ShownOver(b, TextAt(OnDisk(file, locale), x), x)
  }

  /** Printed files are, over every base. */
  lemma WrittenOver(m: Entries, locale: bytes, b: Entries)
    requires LocaleOk(locale) && Representable(m, locale) && Unchanged(b)
    ensures FileOver(WriteEntries(m, locale, Null), b, locale)
  {
    hide LocaleOk, Representable, Unchanged, FileOk, WriteEntries, ParseConfig, ShownOver, ShownAt, Reloaded, TextAt;
    var file := WriteEntries(m, locale, Null);
    WrittenFile(m, locale);
    PrintedOver(m, locale, b, Plain([], [0]));
    forall x: KEntryKey | IsPlain(x)
      ensures ShownAt(LoadedOver(file, b, locale), x) == ShownOver(b, TextAt(OnDisk(file, locale), x), x)
    {
      PrintedOver(m, locale, b, x);
      ReloadedText(m, locale, x);
    }
  }

  /** The object has a change of the key to write. */
  predicate Waiting(c: Config, x: KEntryKey) {
    c.bDirty && x in c.entryMap && c.entryMap[x].bDirty
  }

  predicate RevertedAt(m: Entries, x: KEntryKey) {
    x in m && m[x].bReverted
  }

  /** What the object knows of a key that the file says t about. */
  predicate Knows(c: Config, t: Text, b: Entries, x: KEntryKey) {
    || Waiting(c, x)
    || LockedKey(b, x)
    || (if RevertedAt(c.entryMap, x) then t.Absent? else ShownAt(c.entryMap, x) == ShownOver(b, t, x))
  }

  ghost predicate SameDefaults(b: Entries, m: Entries) {
    forall x: KEntryKey :: x.bDefault && !x.bLocal && x.mKey != [] ==> (x in m <==> x in b)
  }

  ghost predicate DurableOver(s: OnFile, b: Entries, locale: bytes) {
    && FileOver(s.file, b, locale) && MemoryOk(s.config.entryMap) && !s.config.bFileImmutable
    && SameDefaults(b, s.config.entryMap)
    && forall x: KEntryKey :: IsPlain(x) ==> Knows(s.config, TextAt(OnDisk(s.file, locale), x), b, x)
  }

  // ---------------------------------------------------------------------------
  // Reading
  // ---------------------------------------------------------------------------

  ghost function OpenedOver(file: bytes, b: Entries, locale: bytes): OnFile {
    OnFile(Config(LoadedOver(file, b, locale), false, false), file)
  }

  lemma CallKeepsDefaults(b: Entries, m: Entries, w: Write)
    requires Aimed(w, false) && SameDefaults(b, m)
    ensures SameDefaults(b, Apply(m, w))
  {
    hide Apply;
    forall x: KEntryKey | x.bDefault && !x.bLocal && x.mKey != []
      ensures x in Apply(m, w) <==> x in b
    {
      if w.k == [] {
        OthersUntouched(m, w, x);
      } else {
        PlainKeys(m, w, x);
      }
    }
  }

  lemma {:induction false} RunKeepsDefaults(b: Entries, m: Entries, ws: seq<Write>)
    requires (forall w :: w in ws ==> Aimed(w, false)) && SameDefaults(b, m)
    ensures SameDefaults(b, Immutability.Run(m, ws))
    decreases |ws|
  {
    hide Apply, SameDefaults, Aimed;
    if ws == [] {
    } else {
      CallKeepsDefaults(b, m, ws[0]);
      RunKeepsDefaults(b, Apply(m, ws[0]), ws[1..]);
    }
  }

  lemma LoadedKeepsDefaults(file: bytes, b: Entries, locale: bytes)
    ensures SameDefaults(b, LoadedOver(file, b, locale))
  {
    hide ParseConfig, SameDefaults, FileWrites, Immutability.Run, FileCall, Aimed;
    var opts := ReadOptions(locale, false);
    ParsingIsRun(file, b, opts);
    CallsOfFile(file, b, opts);
    DefaultsAreSame(b);
    RunKeepsDefaults(b, b, FileWrites(file, b, opts));
  }

  lemma DefaultsAreSame(b: Entries)
    ensures SameDefaults(b, b)
  {
  }

  lemma OpenedIsDurable(file: bytes, b: Entries, locale: bytes)
    requires BaseOk(b) && FileOver(file, b, locale)
    ensures DurableOver(OpenedOver(file, b, locale), b, locale)
  {
    hide FileOk, ParseConfig, MemoryOk, Paired, SameDefaults, ShownOver, ShownAt, TextAt, LockedKey;
    var m := LoadedOver(file, b, locale);
    ParsedUnchanged(file, b, ReadOptions(locale, false));
    LoadedKeepsDefaults(file, b, locale);
  }

  // ---------------------------------------------------------------------------
  // Changes
  // ---------------------------------------------------------------------------

  /** A key that a change leaves alone. */
  lemma KnowsOn(c: Config, c': Config, t: Text, b: Entries, x: KEntryKey)
    requires Knows(c, t, b, x) && SameAt(c.entryMap, c'.entryMap, x) && (c.bDirty ==> c'.bDirty)
    ensures Knows(c', t, b, x)
  {
    hide LockedKey, ShownOver;
  }

  /** A new deletion that is not reported. */
  lemma NewDeletion(c: Config, x: KEntryKey, expand: bool)
    requires x !in c.entryMap && IsPlain(x) && !Refused(c.entryMap, x.mGroup, x.mKey, PutOptions(Null, expand))
    ensures var m := PutData(c, x.mGroup, x.mKey, Null, expand).entryMap; !RevertedAt(m, x) && ShownAt(m, x) == Absent
  {
    hide WithMarker;
    PlainApply(c.entryMap, PutWrite(x.mGroup, x.mKey, Null, expand));
  }

  lemma PutKnows(c: Config, g: bytes, k: bytes, value: QByteArray, expand: bool, t: Text, b: Entries, x: KEntryKey)
    requires MemoryOk(c.entryMap) && KeyOk(k) && GroupNameOk(g) && IsPlain(x) && Knows(c, t, b, x)
    ensures Knows(PutData(c, g, k, value, expand), t, b, x)
  {
    hide KeyOk, GroupNameOk, FlushSafe, MemoryOk, Apply, Stored, Refused, LockedKey, ShownOver, SameEntry,
         DeletionEffect;
    var m, w, c' := c.entryMap, PutWrite(g, k, value, expand), PutData(c, g, k, value, expand);
    KeyNotEmpty(k);
    assert c'.entryMap == Apply(m, w) && (c.bDirty ==> c'.bDirty) by { PutIsApply(c, g, k, value, expand); }
    if x != Plain(g, k) {
      OthersUntouched(m, w, x);
      KnowsOn(c, c', t, b, x);
    } else if Refused(m, g, k, PutOptions(value, expand)) {
      PlainApply(m, w);
      KnowsOn(c, c', t, b, x);
    } else {
      PutCases(c, g, k, value, expand);
      if x in m && SameEntry(m[x], Prepared(m[x], value, PutOptions(value, expand))) {
        KnowsOn(c, c', t, b, x);
      } else if x !in m && value.Null? {
        NewDeletion(c, x, expand);
      }
    }
  }

  lemma PutIsApply(c: Config, g: bytes, k: bytes, value: QByteArray, expand: bool)
    ensures var c' := PutData(c, g, k, value, expand);
            c'.entryMap == Apply(c.entryMap, PutWrite(g, k, value, expand)) && (c.bDirty ==> c'.bDirty)
            && c'.bFileImmutable == c.bFileImmutable
  {
    hide SetEntry;
  }

  lemma RevertKnows(c: Config, g: bytes, k: bytes, t: Text, b: Entries, x: KEntryKey)
    requires IsPlain(x) && Knows(c, t, b, x)
    ensures Knows(RevertData(c, g, k), t, b, x)
  {
    hide LockedKey, ShownOver, ShownAt;
    var c' := RevertData(c, g, k);
    if SameAt(c.entryMap, c'.entryMap, x) {
      KnowsOn(c, c', t, b, x);
    }
  }

  lemma ChangeIsDurable(s: OnFile, b: Entries, a: Action, locale: bytes)
    requires LocaleOk(locale) && DurableOver(s, b, locale) && a.Representable() && a.Changes()
    ensures DurableOver(ActOver(s, b, a, locale), b, locale)
  {
    hide LocaleOk, MemoryOk, FileOver, OnDisk, PutData, RevertData, KeyOk, GroupNameOk, FlushSafe, Knows, SameDefaults,
         TextAt;
    var c' := ActOver(s, b, a, locale).config;
    match a {
      case Put(_, g, k, value, expand) =>
        PutMemoryOk(s.config, g, k, value, expand);
        PutIsApply(s.config, g, k, value, expand);
        CallKeepsDefaults(b, s.config.entryMap, PutWrite(g, k, value, expand));
      case Revert(_, g, k) =>
        RevertMemoryOk(s.config, g, k);
        RevertKeepsDefaults(s.config, g, k, b);
    }
    forall x: KEntryKey | IsPlain(x)
      ensures Knows(c', TextAt(OnDisk(s.file, locale), x), b, x)
    {
      match a {
        case Put(_, g, k, value, expand) => PutKnows(s.config, g, k, value, expand, TextAt(OnDisk(s.file, locale), x),
            b, x);
        case Revert(_, g, k) => RevertKnows(s.config, g, k, TextAt(OnDisk(s.file, locale), x), b, x);
      }
    }
  }

  lemma RevertKeepsDefaults(c: Config, g: bytes, k: bytes, b: Entries)
    requires SameDefaults(b, c.entryMap)
    ensures SameDefaults(b, RevertData(c, g, k).entryMap) && RevertData(c, g, k).bFileImmutable == c.bFileImmutable
  {
  }

  // ---------------------------------------------------------------------------
  // Writing
  // ---------------------------------------------------------------------------

  lemma CleanedAt(m: Entries, x: KEntryKey)
    requires MemoryOk(m) && x.mKey != []
    ensures ShownAt(Cleaned(m, false), x) == ShownAt(m, x)
    ensures RevertedAt(Cleaned(m, false), x) <==> RevertedAt(m, x)
    ensures x in Cleaned(m, false) <==> x in m
  {
    hide KeyOk, FlushSafe, GroupNameOk;
    if x in m {
      assert MemoryEntryOk(x, m[x]);
    }
  }

  /** What a key that is carried has come to. */
  lemma CarriedKnows(m: Entries, t: Text, b: Entries, x: KEntryKey)
    requires MemoryOk(m) && BaseOk(b) && SameDefaults(b, m) && IsPlain(x) && Carries(m, x) && t == EffectOf(m, x)
    ensures LockedKey(b, x) || (if RevertedAt(m, x) then t.Absent? else ShownAt(m, x) == ShownOver(b, t, x))
  {
    hide KeyOk, FlushSafe, GroupNameOk, Unchanged, WellKept, LockedKey;
    assert MemoryEntryOk(x, m[x]);
    var d := x.(bDefault := true);
    assert d in m <==> d in b;
  }

  /** After a sync nothing waits. */
  lemma SyncedKnows(s: OnFile, b: Entries, locale: bytes, x: KEntryKey)
    requires LocaleOk(locale) && DurableOver(s, b, locale) && BaseOk(b) && IsPlain(x)
    ensures var s' := SyncFile(s, locale);
            && Knows(s'.config, TextAt(OnDisk(s'.file, locale), x), b, x) && !s'.config.bDirty
            && ShownAt(s'.config.entryMap, x) == ShownAt(s.config.entryMap, x)
            && (RevertedAt(s'.config.entryMap, x) <==> RevertedAt(s.config.entryMap, x))
  {
    hide LocaleOk, MemoryOk, FileOk, OnDisk, EffectOf, SyncFile, AnyDirty, TextAt, Cleaned, BaseOk, ShownAt, RevertedAt,
         LockedKey, ShownOver, SameDefaults, ParseConfig;
    var m := s.config.entryMap;
    SyncOk(s, locale);
    SyncedFile(s, locale, x);
    SyncedConfig(s, locale);
    CleanedAt(m, x);
    if Writes(s.config) && Carries(m, x) {
      CarriedKnows(m, EffectOf(m, x), b, x);
    } else {
      NotCarried(s, x);
    }
  }

  lemma SyncKeepsDefaults(s: OnFile, b: Entries, locale: bytes)
    requires LocaleOk(locale) && ClientOk(s, locale) && SameDefaults(b, s.config.entryMap)
    ensures SameDefaults(b, SyncFile(s, locale).config.entryMap)
  {
    hide LocaleOk, ClientOk, SyncFile, AnyDirty;
    SyncedConfig(s, locale);
  }

  lemma SyncedOver(s: OnFile, b: Entries, locale: bytes)
    requires LocaleOk(locale) && ClientOk(s, locale) && FileOver(s.file, b, locale) && Unchanged(b)
    ensures FileOver(SyncFile(s, locale).file, b, locale)
  {
    hide ParseConfig, WriteEntries, LocaleOk, MemoryOk, Representable, LooselyRepresentable, AllStable, Merged, Cleaned,
         AnyDirty, ReadersAgree, FileOver, Unchanged;
    if Writes(s.config) {
      var w, mem := OnDisk(s.file, locale), s.config.entryMap;
      FileIsRepresentable(s.file, locale);
      MergedRepresentable(w, mem, locale);
      WrittenOver(Merged(w, mem, false), locale, b);
    }
  }

  lemma SyncIsDurable(s: OnFile, b: Entries, locale: bytes)
    requires LocaleOk(locale) && DurableOver(s, b, locale) && BaseOk(b)
    ensures DurableOver(SyncFile(s, locale), b, locale) && !SyncFile(s, locale).config.bDirty
  {
    hide LocaleOk, MemoryOk, FileOk, OnDisk, SyncFile, TextAt, Knows, SameDefaults, Paired, Unchanged, ParseConfig,
         ShownAt, ShownOver;
    SyncOk(s, locale);
    SyncedOver(s, b, locale);
    SyncKeepsDefaults(s, b, locale);
    forall x: KEntryKey | IsPlain(x)
      ensures Knows(SyncFile(s, locale).config, TextAt(OnDisk(SyncFile(s, locale).file, locale), x), b, x)
    {
      SyncedKnows(s, b, locale, x);
    }
  }

  lemma ReparseIsOpening(s: OnFile, b: Entries, locale: bytes)
    requires LocaleOk(locale) && DurableOver(s, b, locale) && BaseOk(b)
    ensures ReparseOver(s, b, locale) == OpenedOver(SyncFile(s, locale).file, b, locale)
    ensures FileOver(SyncFile(s, locale).file, b, locale)
  {
    hide LocaleOk, MemoryOk, FileOk, OnDisk, SyncFile, ParseConfig, Knows, SameDefaults, Paired, Unchanged, ShownAt,
         ShownOver, TextAt;
    SyncIsDurable(s, b, locale);
    NothingToSync(s, locale);
  }

  // ---------------------------------------------------------------------------
  // Runs
  // ---------------------------------------------------------------------------

  ghost function DoOver(s: OnFile, b: Entries, acts: seq<Action>, locale: bytes): OnFile
    decreases |acts|
  {
    if acts == [] then s else DoOver(ActOver(s, b, acts[0], locale), b, acts[1..], locale)
  }

  lemma {:induction false} RunIsDurable(s: OnFile, b: Entries, acts: seq<Action>, locale: bytes)
    requires LocaleOk(locale) && DurableOver(s, b, locale) && BaseOk(b)
    requires forall a :: a in acts ==> a.Representable()
    ensures DurableOver(DoOver(s, b, acts, locale), b, locale)
    decreases |acts|
  {
    hide LocaleOk, DurableOver, PutData, RevertData, SyncFile, ReparseOver, KeyOk, GroupNameOk, FlushSafe, BaseOk;
    if acts == [] {
    } else {
      match acts[0] {
        case Sync(_) => SyncIsDurable(s, b, locale);
        case Reparse(_) => {
          ReparseIsOpening(s, b, locale);
          OpenedIsDurable(SyncFile(s, locale).file, b, locale);
        }
        case _ => ChangeIsDurable(s, b, acts[0], locale);
      }
      RunIsDurable(ActOver(s, b, acts[0], locale), b, acts[1..], locale);
    }
  }

  // ---------------------------------------------------------------------------
  // Lookups
  // ---------------------------------------------------------------------------

  /** The next reading shows what the defaults say: the key is locked, or it is reverted and
      will not be in the file. */
  predicate FallsBack(b: Entries, m: Entries, x: KEntryKey) {
    LockedKey(b, x) || RevertedAt(m, x)
  }

  lemma ShownAgain(s: OnFile, b: Entries, locale: bytes, x: KEntryKey)
    requires LocaleOk(locale) && DurableOver(s, b, locale) && BaseOk(b) && IsPlain(x)
    ensures ShownAt(ReparseOver(s, b, locale).config.entryMap, x) ==
            ShownAt(if FallsBack(b, s.config.entryMap, x) then b else s.config.entryMap, x)
  {
    hide LocaleOk, FileOk, OnDisk, SyncFile, ReparseOver, TextAt, BaseOk, LockedKey, RevertedAt, LoadedOver, MemoryOk,
         SameDefaults, ParseConfig, ShownAt;
    ReparseIsOpening(s, b, locale);
    SyncedKnows(s, b, locale, x);
    var t := TextAt(OnDisk(SyncFile(s, locale).file, locale), x);
    assert LockedKey(b, x) ==> ShownOver(b, t, x) == ShownAt(b, x);
  }

  lemma SameLookups(m: Entries, n: Entries, g: bytes, k: bytes)
    ensures (forall fallback :: GetEntry(n, g, k, fallback, PLAIN) == GetEntry(m, g, k, fallback, PLAIN))
            <==> ValueAt(n, Plain(g, k)) == ValueAt(m, Plain(g, k))
  {
    hide GetEntry, ShownAt;
    LookupIsValue(m, g, k, Null);
    LookupIsValue(n, g, k, Null);
    LookupIsValue(m, g, k, Data([]));
    LookupIsValue(n, g, k, Data([]));
    forall fallback
      ensures GetEntry(m, g, k, fallback, PLAIN) == OrFallback(ValueAt(m, Plain(g, k)), fallback)
      ensures GetEntry(n, g, k, fallback, PLAIN) == OrFallback(ValueAt(n, Plain(g, k)), fallback)
    {
      LookupIsValue(m, g, k, fallback);
      LookupIsValue(n, g, k, fallback);
    }
    assert GetEntry(m, g, k, Null, PLAIN) == ValueAt(m, Plain(g, k));
    assert GetEntry(n, g, k, Null, PLAIN) == ValueAt(n, Plain(g, k));
  }

  /** After any run of writes, deletions, reverts, syncs and reparses over any default files, a
      plain lookup stays the same when the changes are written and all files are read again,
      for every fallback, exactly if the key is neither locked by the default files nor
      reverted, or shows what they show. */
  lemma PlainLookupsSurviveOverDefaults(file: bytes, files: seq<bytes>, acts: seq<Action>, locale: bytes, g: bytes,
                                        k: bytes)
    requires LocaleOk(locale) && FileOver(file, Base(files, locale), locale) && k != []
    requires forall a :: a in acts ==> a.Representable()
    ensures var b, x := Base(files, locale), Plain(g, k);
            var s := DoOver(OpenedOver(file, b, locale), b, acts, locale);
            (forall fallback :: GetEntry(ReparseOver(s, b, locale).config.entryMap, g, k, fallback, PLAIN)
                             == GetEntry(s.config.entryMap, g, k, fallback, PLAIN))
            <==> (FallsBack(b, s.config.entryMap, x) ==> ValueAt(s.config.entryMap, x) == ValueAt(b, x))
  {
    hide LocaleOk, FileOver, Base, GetEntry, ReparseOver, DoOver, OpenedOver, FallsBack, ShownAt, DurableOver, BaseOk;
    var b, x := Base(files, locale), Plain(g, k);
    DefaultsGiveBase(files, locale);
    OpenedIsDurable(file, b, locale);
    RunIsDurable(OpenedOver(file, b, locale), b, acts, locale);
    var s := DoOver(OpenedOver(file, b, locale), b, acts, locale);
    ShownAgain(s, b, locale, x);
    SameLookups(s.config.entryMap, ReparseOver(s, b, locale).config.entryMap, g, k);
  }
}
