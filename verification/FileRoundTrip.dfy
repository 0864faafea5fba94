/** Writing a map and parsing the file gives the map back (src/core/kconfigini.cpp:33-396). */
module FileRoundTrip {
  import opened Bytes
  import opened IniCodec
  import opened EntryMap
  import opened Immutability
  import opened IniParser
  import opened IniWriter
  import opened IniLines
  import opened IniEntries

  /** The maps that a file can hold. */
  ghost predicate Representable(m: Entries, locale: bytes) {
    && WellKept(m)
    && (forall k :: k in m && k.mKey != [] ==> RepresentableAt(m, k, locale))
  }

  predicate RepresentableAt(m: Entries, k: KEntryKey, locale: bytes)
    requires k in m
  {
    && EntryOk(k, m[k], locale)
    && Marker(k.mGroup) in m
    && (k.mGroup == DEFAULT_GROUP || GroupOk(k.mGroup))
  }

  /** The same without asking whether the keys of lines for other locales are stable. */
  ghost predicate LooselyRepresentable(m: Entries, locale: bytes) {
    && WellKept(m)
    && (forall k :: k in m && k.mKey != [] ==>
          LooseEntryOk(k, m[k], locale) && (k.mGroup == DEFAULT_GROUP || GroupOk(k.mGroup)))
  }

  ghost predicate AllStable(m: Entries) {
    forall k :: k in m && k.mKey != [] && m[k].bRaw ==> RawStable(RawBase(k.mKey))
  }

  /** The header of the group says so; the default group is written without a header. */
  predicate IsImmutableGroup(m: Entries, g: bytes) {
    g != DEFAULT_GROUP && Marker(g) in m && m[Marker(g)].bImmutable
  }

  // ---------------------------------------------------------------------------
  // What is read back
  // ---------------------------------------------------------------------------

  /** An entry as the parser creates it: everything the file says, nothing else. An entry of an
      immutable group is immutable; the line of a deleted entry says nothing but that. */
  function ReloadedEntry(k: KEntryKey, e: KEntry, locale: bytes, groupImmutable: bool): KEntry {
    var tag := TagOf(k, e, locale);
    NEW_ENTRY.(mValue := e.mValue, bImmutable := groupImmutable
        || (e.bImmutable && !e.bDeleted), bDeleted := e.bDeleted,
               bExpand := e.bExpand && !e.bDeleted, bRaw := e.bRaw, bLocalizedCountry := tag.Data?
                   && UNDERSCORE in tag.data)
  }

  function ReloadedAt(m: Entries, k: KEntryKey, locale: bytes): KEntry
    requires k in m
  {
    ReloadedEntry(k, m[k], locale, IsImmutableGroup(m, k.mGroup))
  }

  /** Lines for other locales are only read for merging. */
  predicate Visible(m: Entries, k: KEntryKey, merging: bool) {
    k in m && k.mKey != [] && (merging || !m[k].bRaw)
  }

  ghost predicate GroupVisible(m: Entries, seen: set<KEntryKey>, g: bytes, merging: bool) {
    exists x :: x in seen && x.mGroup == g && Visible(m, x, merging)
  }

  /** The map that the parser has built once it has read the entries in seen. */
  ghost function Rebuilt(m: Entries, seen: set<KEntryKey>, locale: bytes, merging: bool): Entries {
    map k | k in m && (if k.mKey == [] then GroupVisible(m, seen, k.mGroup, merging)
                       else k in seen && Visible(m, k, merging))
      :: if k.mKey == [] then NEW_ENTRY else ReloadedAt(m, k, locale)
  }

  ghost function AllEntries(m: Entries): set<KEntryKey> {
    set k | k in m && k.mKey != []
  }

  ghost predicate GroupWritten(m: Entries, seen: set<KEntryKey>, g: bytes) {
    exists x :: x in seen && x in m && x.mKey != [] && x.mGroup == g
  }

  /** The map that a parser of the written file ends up with. Groups without entries leave no
      trace; an immutable group is marked even if none of its entries concerns the reader. */
  ghost function Reloaded(m: Entries, locale: bytes, merging: bool): Entries {
    map k | k in m && (if k.mKey == []
                       then GroupVisible(m, AllEntries(m), k.mGroup, merging)
                           || (IsImmutableGroup(m, k.mGroup) && GroupWritten(m, AllEntries(m), k.mGroup))
                       else Visible(m, k, merging))
      :: if k.mKey == [] then NEW_ENTRY.(bImmutable := IsImmutableGroup(m, k.mGroup)) else ReloadedAt(m, k, locale)
  }

  // ---------------------------------------------------------------------------
  // One entry
  // ---------------------------------------------------------------------------

  lemma PreparedIsReloaded(k: KEntryKey, e: KEntry, locale: bytes, groupImmutable: bool)
    requires EntryOk(k, e, locale)
    ensures Prepared(NEW_ENTRY.(bRaw := e.bRaw), e.mValue, OptionsOf(k, e, locale, groupImmutable))
            == ReloadedEntry(k, e, locale, groupImmutable)
  {
  }

  lemma EnterNew(m: Entries, seen: set<KEntryKey>, k: KEntryKey, locale: bytes, merging: bool)
    requires WellKept(m) && k in m && k.mKey != [] && k !in seen && RepresentableAt(m, k, locale)
             && Visible(m, k, merging)
    ensures SetEntry(Rebuilt(m, seen, locale, merging), k.mGroup, k.mKey, m[k].mValue,
            OptionsOf(k, m[k], locale, IsImmutableGroup(m, k.mGroup))).m
         == WithMarker(Rebuilt(m, seen, locale, merging), k.mGroup)[k := ReloadedAt(m, k, locale)]
  {
    hide ReloadedEntry, EntryOk, Visible, Prepared, IsImmutableGroup;
    var n, o := Rebuilt(m, seen, locale, merging), OptionsOf(k, m[k], locale, IsImmutableGroup(m, k.mGroup));
    assert KEntryKey(k.mGroup, k.mKey, o.localized, o.forDefault) == k by { KeyFlags(k, m[k], locale); }
    PreparedIsReloaded(k, m[k], locale, IsImmutableGroup(m, k.mGroup));
    assert SetEntry(n, k.mGroup, k.mKey, m[k].mValue, o) == SetNew(n, k.mGroup, k.mKey, m[k].mValue, o);
    assert Mirrored(Stored(n, k.mGroup, k.mKey, m[k].mValue, o), k.mGroup, k.mKey, m[k].mValue, o)
        == Stored(n, k.mGroup, k.mKey, m[k].mValue, o);
  }

  lemma KeyFlags(k: KEntryKey, e: KEntry, locale: bytes)
    requires EntryOk(k, e, locale)
    ensures forall i ::
              var o := OptionsOf(k, e, locale, i);
              !k.bDefault && o.localized == k.bLocal && !o.forDefault && o.rawKey == e.bRaw
  {
  }

  lemma RebuiltGrows(m: Entries, seen: set<KEntryKey>, k: KEntryKey, locale: bytes, merging: bool)
    requires WellKept(m) && k in m && k.mKey != []
    ensures Rebuilt(m, seen + {k}, locale, merging) ==
            if Visible(m, k, merging)
            then WithMarker(Rebuilt(m, seen, locale, merging), k.mGroup)[k := ReloadedAt(m, k, locale)]
            else Rebuilt(m, seen, locale, merging)
  {
    hide ReloadedAt, GroupVisible, Visible;
    VisibleIsKey(m, k, merging);
    var a, b := Rebuilt(m, seen + {k}, locale, merging), Rebuilt(m, seen, locale, merging);
    forall g
      ensures GroupVisible(m, seen + {k}, g, merging) <==>
              GroupVisible(m, seen, g, merging) || (g == k.mGroup && Visible(m, k, merging))
    {
      GroupVisibleGrows(m, seen, k, g, merging);
    }
  }

  lemma VisibleIsKey(m: Entries, k: KEntryKey, merging: bool)
    ensures Visible(m, k, merging) ==> k in m && k.mKey != []
  {
  }

  lemma GroupVisibleGrows(m: Entries, seen: set<KEntryKey>, k: KEntryKey, g: bytes, merging: bool)
    ensures GroupVisible(m, seen + {k}, g, merging) <==>
            GroupVisible(m, seen, g, merging) || (g == k.mGroup && Visible(m, k, merging))
  {
    if GroupVisible(m, seen, g, merging) {
      var x :| x in seen && x.mGroup == g && Visible(m, x, merging);
      assert x in seen + {k};
    }
    if g == k.mGroup && Visible(m, k, merging) {
      assert k in seen + {k};
    }
  }

  // ---------------------------------------------------------------------------
  // The parser's state while it reads what the writer has written so far
  // ---------------------------------------------------------------------------

  /** A file, its writer and its reader. */
  datatype Job = Job(m: Entries, locale: bytes, primary: QByteArray, opts: ParseOptions) {
    ghost predicate Ok() {
      && LocaleOk(locale)
      && SameReader(opts, locale)
      && Representable(m, locale)
      && primary != Data(DEFAULT_GROUP)
    }
  }

  /** The parser has read the entries in seen and perhaps the header of one more group. */
  ghost predicate HasReadUpTo(j: Job, seen: set<KEntryKey>, header: QByteArray, p: ParseState) {
    && p.m == Rebuilt(j.m, seen, j.locale, j.opts.merging)
    && !p.fileImmutable && !p.groupSkip && p.errors == 0
    && (forall g :: g in p.immutableGroups <==>
          IsImmutableGroup(j.m, g) && (GroupWritten(j.m, seen, g) || header == Data(g)))
  }

  ghost predicate HasRead(j: Job, seen: set<KEntryKey>, p: ParseState) {
    HasReadUpTo(j, seen, Null, p)
  }

  /** The parser is in the group that the writer is in. */
  ghost predicate InGroup(j: Job, pass: Pass, w: WriteState, p: ParseState) {
    if pass.defaultGroup then p.group == DEFAULT_GROUP && !p.groupImmutable
    else w.group != [] ==> p.group == w.group && (p.groupImmutable <==> IsImmutableGroup(j.m, w.group))
  }

  lemma NothingImmutableYet(j: Job, seen: set<KEntryKey>, p: ParseState, g: bytes)
    requires HasRead(j, seen, p)
    ensures !IsImmutable(p.m, g, [], NO_FLAGS)
  {
  }

  lemma GroupWrittenGrows(m: Entries, seen: set<KEntryKey>, k: KEntryKey, g: bytes)
    requires k in m && k.mKey != []
    ensures GroupWritten(m, seen + {k}, g) <==> GroupWritten(m, seen, g) || g == k.mGroup
  {
    if GroupWritten(m, seen, g) {
      var x :| x in seen && x in m && x.mKey != [] && x.mGroup == g;
      assert x in seen + {k};
    }
    assert k in seen + {k};
  }

  /** Reading the line of one more entry of the current group. */
  lemma ReadNext(j: Job, seen: set<KEntryKey>, k: KEntryKey, p: ParseState)
    requires j.Ok() && HasReadUpTo(j, seen, Data(k.mGroup), p) && k in j.m && k.mKey != [] && k !in seen
    requires p.group == k.mGroup && (p.groupImmutable <==> IsImmutableGroup(j.m, k.mGroup))
    ensures var p' := ParseText(p, EntryText(j.locale, k, j.m[k]) + [NEWLINE], j.opts);
            && HasRead(j, seen + {k}, p')
            && p'.group == p.group && p'.groupImmutable == p.groupImmutable
  {
    hide EntryText, EntryOk, ParseLine, ParseText, Rebuilt, ReloadedEntry, SetEntry, GroupWritten, WithMarker,
         OptionsOf, LocaleOk;
    assert RepresentableAt(j.m, k, j.locale);
    ReadEntry(p, k, j.m[k], j.locale, j.opts);
    ParseOneLine(p, EntryText(j.locale, k, j.m[k]), j.opts);
    RebuiltGrows(j.m, seen, k, j.locale, j.opts.merging);
    if Visible(j.m, k, j.opts.merging) {
      EnterNew(j.m, seen, k, j.locale, j.opts.merging);
    }
    forall g
      ensures GroupWritten(j.m, seen + {k}, g) <==> GroupWritten(j.m, seen, g) || g == k.mGroup
    {
      GroupWrittenGrows(j.m, seen, k, g);
    }
  }

  lemma ReadBlankLine(p: ParseState, opts: ParseOptions)
    requires p.errors == 0
    ensures ParseText(p, [NEWLINE], opts) == p
  {
    ParseOneLine(p, [], opts);
    TrimNewline([]);
    assert [] + [NEWLINE] == [NEWLINE];
  }

  lemma ReadHeaderLines(j: Job, seen: set<KEntryKey>, first: bool, g: bytes, p: ParseState)
    requires j.Ok() && HasRead(j, seen, p) && GroupOk(g)
    ensures var p' := ParseText(p, HeaderLines(first, g, IsImmutableGroup(j.m, g)), j.opts);
            && HasReadUpTo(j, seen, Data(g), p')
            && p'.group == g && (p'.groupImmutable <==> IsImmutableGroup(j.m, g))
  {
    hide HeaderText, ParseLine, ParseText, Rebuilt, GroupWritten, IsImmutable, GroupOk, IsImmutableGroup, LocaleOk,
         Representable;
    var h := HeaderText(g, IsImmutableGroup(j.m, g));
    NothingImmutableYet(j, seen, p, g);
    ReadHeader(p, g, IsImmutableGroup(j.m, g), j.opts);
    HeaderPrintable(g, IsImmutableGroup(j.m, g));
    ParseOneLine(p, h, j.opts);
    if !first {
      ReadBlankLine(p, j.opts);
      ParseTextConcat(p, [NEWLINE], h + [NEWLINE], j.opts);
      ConcatAssociative([NEWLINE], h, [NEWLINE]);
    } else {
      ConcatAssociative([], h, [NEWLINE]);
      assert [] + (h + [NEWLINE]) == h + [NEWLINE];
    }
  }

  // ---------------------------------------------------------------------------
  // One turn of the writer's loop
  // ---------------------------------------------------------------------------

  /** Writer and reader in step: the reader has read all that is written. */
  ghost predicate InStep(j: Job, pass: Pass, seen: set<KEntryKey>, w: WriteState) {
    var p := ParseText(InitialState(map[]), w.out, j.opts);
    && WholeLines(w.out)
    && HasRead(j, seen, p)
    && InGroup(j, pass, w, p)
    && (!pass.defaultGroup && w.group != [] ==> GroupWritten(j.m, seen, w.group))
  }

  /** The writer's immutability flag is that of the group of the last key it has looked at,
      where it writes headers. */
  ghost predicate FlagOf(j: Job, pass: Pass, g: bytes, w: WriteState) {
    Selected(g, j.primary, pass) && !pass.defaultGroup ==> (w.immutable <==> IsImmutableGroup(j.m, g))
  }

  lemma WriteEntryInStep(j: Job, pass: Pass, seen: set<KEntryKey>, k: KEntryKey, w: WriteState)
    requires j.Ok() && InStep(j, pass, seen, w) && FlagOf(j, pass, k.mGroup, w)
    requires k in j.m && k.mKey != [] && k !in seen && Selected(k.mGroup, j.primary, pass)
    ensures InStep(j, pass, seen + {k}, WriteOne(j.m, k, j.locale, j.primary, pass, w))
  {
    hide EntryText, HeaderText, ParseText, HasReadUpTo, GroupWritten, LocaleOk, EntryOk;
    var p := ParseText(InitialState(map[]), w.out, j.opts);
    var line := EntryText(j.locale, k, j.m[k]) + [NEWLINE];
    var newGroup := !pass.defaultGroup && w.group != k.mGroup;
    assert RepresentableAt(j.m, k, j.locale);
    if newGroup {
      var h := HeaderLines(w.firstEntry, k.mGroup, w.immutable);
      ReadHeaderLines(j, seen, w.firstEntry, k.mGroup, p);
      Extend(w.out, h, j.opts);
      Extend(w.out + h, line, j.opts);
      var p1 := ParseText(p, h, j.opts);
      ReadNext(j, seen, k, p1);
    } else {
      StillInGroup(j, seen, k.mGroup, p);
      Extend(w.out, line, j.opts);
      ReadNext(j, seen, k, p);
    }
    GroupWrittenGrows(j.m, seen, k, k.mGroup);
  }

  lemma Extend(out: bytes, text: bytes, opts: ParseOptions)
    requires WholeLines(out) && text != [] && WholeLines(text)
    ensures WholeLines(out + text)
    ensures ParseText(InitialState(map[]), out + text, opts)
            == ParseText(ParseText(InitialState(map[]), out, opts), text, opts)
  {
    hide ParseText;
    ParseTextConcat(InitialState(map[]), out, text, opts);
  }

  lemma StillInGroup(j: Job, seen: set<KEntryKey>, g: bytes, p: ParseState)
    requires HasRead(j, seen, p) && (GroupWritten(j.m, seen, g) || !IsImmutableGroup(j.m, g))
    ensures HasReadUpTo(j, seen, Data(g), p)
  {
    hide GroupWritten, Rebuilt;
  }

  // ---------------------------------------------------------------------------
  // A pass over the map, and all passes
  // ---------------------------------------------------------------------------

  /** The entry is written by a pass before this one. */
  predicate Earlier(g: bytes, primary: QByteArray, pass: Pass) {
    || (pass != Pass(true, false) && Selected(g, primary, Pass(true, false)))
    || (pass == Pass(false, false) && Selected(g, primary, Pass(false, true)))
  }

  /** The entries written before position i of a pass. */
  ghost function SeenAt(j: Job, ks: seq<KEntryKey>, i: nat, pass: Pass): set<KEntryKey>
    requires i <= |ks|
  {
    set x | x in j.m && x.mKey != [] && (Earlier(x.mGroup, j.primary, pass)
        || (Selected(x.mGroup, j.primary, pass) && x in ks[..i]))
  }

  lemma SeenGrows(j: Job, ks: seq<KEntryKey>, i: nat, pass: Pass)
    requires Lists(ks, j.m.Keys) && i < |ks| && pass in {Pass(true, false), Pass(false, true), Pass(false, false)}
    ensures ks[i] in j.m
    ensures var k := ks[i];
            if k.mKey != [] && Selected(k.mGroup, j.primary, pass)
            then k !in SeenAt(j, ks, i, pass) && SeenAt(j, ks, i + 1, pass) == SeenAt(j, ks, i, pass) + {k}
            else SeenAt(j, ks, i + 1, pass) == SeenAt(j, ks, i, pass)
  {
    hide Less;
    assert ks[i] in ks;
    assert ks[..i + 1] == ks[..i] + [ks[i]];
    if ks[i] in ks[..i] {
      var n :| 0 <= n < i && ks[n] == ks[i];
      LessIrreflexive(ks[i]);
    }
  }

  /** In the order of the map an entry follows its marker or another entry of its group. */
  lemma GroupBefore(m: Entries, ks: seq<KEntryKey>, i: nat)
    requires WellKept(m) && Lists(ks, m.Keys) && i < |ks| && ks[i].mKey != []
    ensures i > 0 && ks[i - 1].mGroup == ks[i].mGroup
  {
    hide Below;
    var k := ks[i];
    assert k in ks;
    var marker := Marker(k.mGroup);
    assert marker in ks;
    var n :| 0 <= n < |ks| && ks[n] == marker;
    MarkerFirst(k);
    if n > i {
      LessTransitive(k, marker, k);
    }
    LessIrreflexive(k);
    assert n < i;
    if n < i - 1 {
      assert Less(marker, ks[i - 1]) && Less(ks[i - 1], k);
      Between(marker, ks[i - 1], k);
    }
  }

  lemma MarkerFirst(k: KEntryKey)
    requires k.mKey != []
    ensures Less(Marker(k.mGroup), k)
  {
  }

  lemma Between(a: KEntryKey, b: KEntryKey, c: KEntryKey)
    requires Less(a, b) && Less(b, c) && a.mGroup == c.mGroup
    ensures b.mGroup == a.mGroup
  {
    hide Below;
    if Below(a.mGroup, b.mGroup) && Below(b.mGroup, c.mGroup) {
      BelowTransitive(a.mGroup, b.mGroup, c.mGroup);
    }
    BelowIrreflexive(a.mGroup);
  }

  lemma {:induction false} WriteKeysInStep(j: Job, ks: seq<KEntryKey>, i: nat, pass: Pass, w: WriteState)
    requires j.Ok() && Lists(ks, j.m.Keys) && i <= |ks|
             && pass in {Pass(true, false), Pass(false, true), Pass(false, false)}
    requires forall k :: k in ks[i..] ==> k in j.m
    requires InStep(j, pass, SeenAt(j, ks, i, pass), w)
    requires i > 0 ==> FlagOf(j, pass, ks[i - 1].mGroup, w)
    ensures InStep(j, pass, SeenAt(j, ks, |ks|, pass), WriteKeys(j.m, ks[i..], j.locale, j.primary, pass, w))
    decreases |ks| - i
  {
    hide InStep, SeenAt, Less, EntryText, HeaderLines, LocaleOk, EntryOk;
    if i == |ks| {
    } else {
      var k := ks[i];
      var w' := WriteOne(j.m, k, j.locale, j.primary, pass, w);
      SeenGrows(j, ks, i, pass);
      if k.mKey != [] && Selected(k.mGroup, j.primary, pass) {
        GroupBefore(j.m, ks, i);
        WriteEntryInStep(j, pass, SeenAt(j, ks, i, pass), k, w);
      } else {
        MarkerInStep(j, pass, SeenAt(j, ks, i, pass), k, w);
      }
      FlagKept(j, pass, ks, i, w);
      assert ks[i..][1..] == ks[i + 1..];
      WriteKeysInStep(j, ks, i + 1, pass, w');
    }
  }

  lemma MarkerInStep(j: Job, pass: Pass, seen: set<KEntryKey>, k: KEntryKey, w: WriteState)
    requires InStep(j, pass, seen, w) && k in j.m && !(k.mKey != [] && Selected(k.mGroup, j.primary, pass))
    ensures InStep(j, pass, seen, WriteOne(j.m, k, j.locale, j.primary, pass, w))
  {
    hide ParseText, HasRead;
  }

  lemma FlagKept(j: Job, pass: Pass, ks: seq<KEntryKey>, i: nat, w: WriteState)
    requires j.Ok() && Lists(ks, j.m.Keys) && i < |ks| && ks[i] in j.m
    requires i > 0 ==> FlagOf(j, pass, ks[i - 1].mGroup, w)
    ensures FlagOf(j, pass, ks[i].mGroup, WriteOne(j.m, ks[i], j.locale, j.primary, pass, w))
  {
    hide EntryText, HeaderLines, LocaleOk, EntryOk, Less;
    if ks[i].mKey != [] {
      GroupBefore(j.m, ks, i);
    } else {
      assert ks[i] == Marker(ks[i].mGroup);
    }
  }

  /** A pass that starts in step ends in step. */
  lemma WritePassInStep(j: Job, ks: seq<KEntryKey>, pass: Pass, w: WriteState)
    requires j.Ok() && Lists(ks, j.m.Keys) && pass in {Pass(true, false), Pass(false, true), Pass(false, false)}
    requires forall k :: k in ks ==> k in j.m
    requires InStep(j, pass, SeenAt(j, ks, 0, pass), w.(group := [], immutable := false))
    ensures InStep(j, pass, SeenAt(j, ks, |ks|, pass), WritePass(j.m, ks, j.locale, j.primary, pass, w))
  {
    hide InStep, SeenAt, Less, WriteKeys, LocaleOk;
    assert ks[0..] == ks;
    WriteKeysInStep(j, ks, 0, pass, w.(group := [], immutable := false));
  }

  /** The next pass begins where a pass has ended. */
  lemma NextPass(j: Job, ks: seq<KEntryKey>, pass: Pass, next: Pass, w: WriteState)
    requires Lists(ks, j.m.Keys) && InStep(j, pass, SeenAt(j, ks, |ks|, pass), w)
    requires (pass, next) in {(Pass(true, false), Pass(false, true)), (Pass(false, true), Pass(false, false))}
          || (j.primary.Null? && pass == Pass(true, false) && next == Pass(false, false))
    ensures InStep(j, next, SeenAt(j, ks, 0, next), w.(group := [], immutable := false))
  {
    hide ParseText, HasRead, Less;
    assert SeenAt(j, ks, |ks|, pass) == SeenAt(j, ks, 0, next) by {
      assert ks[..|ks|] == ks;
    }
  }

  lemma FirstPass(j: Job, ks: seq<KEntryKey>)
    ensures InStep(j, Pass(true, false), SeenAt(j, ks, 0, Pass(true, false)), WriteState([], false, true, []))
  {
    var seen := SeenAt(j, ks, 0, Pass(true, false));
    assert seen == {};
    assert ParseText(InitialState(map[]), [], j.opts) == InitialState(map[]);
    assert Rebuilt(j.m, {}, j.locale, j.opts.merging) == map[];
  }

  lemma AllSeen(j: Job, ks: seq<KEntryKey>)
    requires Lists(ks, j.m.Keys) && j.primary != Data(DEFAULT_GROUP)
    ensures SeenAt(j, ks, |ks|, Pass(false, false)) == AllEntries(j.m)
  {
    hide Less;
    assert ks[..|ks|] == ks;
  }

  /** Once all passes are done, the parser has read every entry. */
  lemma WriteInRead(j: Job, ks: seq<KEntryKey>)
    requires j.Ok() && Lists(ks, j.m.Keys) && forall k :: k in ks ==> k in j.m
    ensures HasRead(j, AllEntries(j.m), ParseText(InitialState(map[]), WriteIn(j.m, ks, j.locale, j.primary), j.opts))
  {
    hide SeenAt, Less, WritePass, HasRead, ParseText, AllEntries, LocaleOk, InGroup;
    var st0 := WriteState([], false, true, []);
    FirstPass(j, ks);
    WritePassInStep(j, ks, Pass(true, false), st0);
    var st1 := WritePass(j.m, ks, j.locale, j.primary, Pass(true, false), st0);
    var st2 := st1;
    if j.primary.Data? {
      NextPass(j, ks, Pass(true, false), Pass(false, true), st1);
      WritePassInStep(j, ks, Pass(false, true), st1);
      st2 := WritePass(j.m, ks, j.locale, j.primary, Pass(false, true), st1);
      NextPass(j, ks, Pass(false, true), Pass(false, false), st2);
    } else {
      NextPass(j, ks, Pass(true, false), Pass(false, false), st1);
    }
    WritePassInStep(j, ks, Pass(false, false), st2);
    AllSeen(j, ks);
  }

  // ---------------------------------------------------------------------------
  // Groups become immutable at the end
  // ---------------------------------------------------------------------------

  lemma {:induction false} MarkImmutableAt(m: Entries, groups: seq<bytes>, x: KEntryKey)
    requires forall g :: Marker(g) in m ==> m[Marker(g)] in {NEW_ENTRY, NEW_ENTRY.(bImmutable := true)}
    ensures var m' := MarkImmutable(m, groups);
            if x == Marker(x.mGroup) && x.mGroup in groups
            then x in m' && m'[x] == NEW_ENTRY.(bImmutable := true)
            else SameAt(m, m', x)
    decreases |groups|
  {
    if groups == [] {
    } else {
      var g := groups[0];
      var m1 := SetEntry(m, g, [], Null, NO_OPTIONS.(immutable := true)).m;
      assert m1 == SetMarker(m, g, NO_OPTIONS.(immutable := true)).m;
      MarkedOne(m, g, x);
      forall h | Marker(h) in m1
        ensures m1[Marker(h)] in {NEW_ENTRY, NEW_ENTRY.(bImmutable := true)}
      {
        MarkedOne(m, g, Marker(h));
      }
      assert groups == [g] + groups[1..];
      MarkImmutableAt(m1, groups[1..], x);
    }
  }

  lemma MarkedOne(m: Entries, g: bytes, x: KEntryKey)
    requires Marker(g) in m ==> m[Marker(g)] in {NEW_ENTRY, NEW_ENTRY.(bImmutable := true)}
    ensures var m' := SetMarker(m, g, NO_OPTIONS.(immutable := true)).m;
            if x == Marker(g) then x in m' && m'[x] == NEW_ENTRY.(bImmutable := true) else SameAt(m, m', x)
  {
  }

  lemma FinishAt(j: Job, p: ParseState, x: KEntryKey, m': Entries)
    requires j.Ok() && HasRead(j, AllEntries(j.m), p)
    requires GroupVisible(j.m, AllEntries(j.m), x.mGroup, j.opts.merging) ==>
             GroupWritten(j.m, AllEntries(j.m), x.mGroup)
    requires if x == Marker(x.mGroup) && x.mGroup in p.immutableGroups
             then x in m' && m'[x] == NEW_ENTRY.(bImmutable := true)
             else SameAt(p.m, m', x)
    ensures SameAt(m', Reloaded(j.m, j.locale, j.opts.merging), x)
  {
    hide ReloadedEntry, LocaleOk, EntryOk, GroupVisible, GroupWritten;
  }

  lemma FinishReading(j: Job, p: ParseState)
    requires j.Ok() && HasRead(j, AllEntries(j.m), p)
    ensures Finish(p) == ParseResult(Reloaded(j.m, j.locale, j.opts.merging), ParseOk)
  {
    hide MarkImmutable, Reloaded, Rebuilt, LocaleOk, EntryOk, GroupVisible, GroupWritten, SameAt;
    var m', r := MarkImmutable(p.m, p.immutableGroups), Reloaded(j.m, j.locale, j.opts.merging);
    forall x
      ensures SameAt(m', r, x)
    {
      RebuiltMarkers(j, AllEntries(j.m));
      MarkImmutableAt(p.m, p.immutableGroups, x);
      VisibleWritten(j.m, x.mGroup, j.opts.merging);
      FinishAt(j, p, x, m');
    }
    SameEverywhere(m', r);
  }

  lemma RebuiltMarkers(j: Job, seen: set<KEntryKey>)
    ensures var m := Rebuilt(j.m, seen, j.locale, j.opts.merging);
            forall g :: Marker(g) in m ==> m[Marker(g)] == NEW_ENTRY
  {
  }

  lemma SameEverywhere(m: Entries, m': Entries)
    requires forall x :: SameAt(m, m', x)
    ensures m == m'
  {
    forall x
      ensures x in m <==> x in m'
    {
      assert SameAt(m, m', x);
    }
    forall x | x in m
      ensures m[x] == m'[x]
    {
      assert SameAt(m, m', x);
    }
  }

  lemma VisibleWritten(m: Entries, g: bytes, merging: bool)
    ensures GroupVisible(m, AllEntries(m), g, merging) ==> GroupWritten(m, AllEntries(m), g)
  {
  }

  /** The file round trip: parsing what the writer produces for a representable map gives the
      map back, with the merging reader entry for entry, with the plain reader all entries that
      concern its locale; and the file is never taken for an immutable one. */
  lemma ParseUndoesWrite(m: Entries, locale: bytes, primary: QByteArray, opts: ParseOptions)
    requires LocaleOk(locale) && SameReader(opts, locale) && Representable(m, locale)
    requires primary != Data(DEFAULT_GROUP)
    ensures ParseConfig(WriteEntries(m, locale, primary), map[], opts)
            == ParseResult(Reloaded(m, locale, opts.merging), ParseOk)
  {
    hide WriteIn, ParseText, Finish, HasRead, LocaleOk, Representable;
    var j := Job(m, locale, primary, opts);
    WriteInRead(j, InOrder(m.Keys));
    FinishReading(j, ParseText(InitialState(map[]), WriteEntries(m, locale, primary), opts));
  }

  /** The same, entry by entry: a file read for merging holds exactly the entries of the map,
      a file read for use those that concern the reader's locale, each with its value and
      deletion as it was; an entry is immutable afterwards exactly if its group is, or if it was
      and is not deleted; and a group that has entries is immutable exactly if it was, unless it
      is the default group. */
  lemma SameEntriesBack(m: Entries, locale: bytes, primary: QByteArray, opts: ParseOptions, k: KEntryKey)
    requires LocaleOk(locale) && SameReader(opts, locale) && Representable(m, locale)
    requires primary != Data(DEFAULT_GROUP) && k.mKey != []
    ensures var r := ParseConfig(WriteEntries(m, locale, primary), map[], opts).m;
            && (k in r <==> k in m && (opts.merging || !m[k].bRaw))
            && (k in r ==>
                  && r[k].mValue == m[k].mValue && r[k].bDeleted == m[k].bDeleted && r[k].bRaw == m[k].bRaw
                  && !r[k].bDirty && !r[k].bReverted
                  && (r[k].bImmutable <==> IsImmutableGroup(m, k.mGroup) || (m[k].bImmutable && !m[k].bDeleted))
                  && (r[k].bExpand <==> m[k].bExpand && !m[k].bDeleted)
                  && Marker(k.mGroup) in r && (r[Marker(k.mGroup)].bImmutable <==> IsImmutableGroup(m, k.mGroup)))
  {
    hide ParseConfig, WriteEntries, LocaleOk, EntryOk, GroupOk, IsImmutableGroup;
    ParseUndoesWrite(m, locale, primary, opts);
    if k in m && Visible(m, k, opts.merging) {
      assert k in AllEntries(m);
      assert GroupVisible(m, AllEntries(m), k.mGroup, opts.merging);
    }
  }

  lemma {:induction false} NothingSelected(m: Entries, ks: seq<KEntryKey>, locale: bytes, primary: QByteArray,
                                           pass: Pass, st: WriteState)
    requires forall k :: k in ks ==> k in m && !Selected(k.mGroup, primary, pass)
    ensures WriteKeys(m, ks, locale, primary, pass, st) == st
    decreases |ks|
  {
    hide EntryText, HeaderLines;
    if ks == [] {
    } else {
      NothingSelected(m, ks[1..], locale, primary, pass, st);
    }
  }

  /** Why that primary group is excluded: no pass is about the default group then, and a map
      that has only this group leaves an empty file. */
  lemma DefaultAsPrimaryGroupIsLost(m: Entries, locale: bytes)
    requires forall k :: k in m ==> k.mGroup == DEFAULT_GROUP
    ensures WriteEntries(m, locale, Data(DEFAULT_GROUP)) == []
  {
    hide WriteKeys, InOrder;
    var ks, primary := InOrder(m.Keys), Data(DEFAULT_GROUP);
    var st := WriteState([], false, true, []);
    NothingSelected(m, ks, locale, primary, Pass(true, false), st);
    NothingSelected(m, ks, locale, primary, Pass(false, true), st);
    NothingSelected(m, ks, locale, primary, Pass(false, false), st);
  }
}
