/** What a run of setEntry calls can never change, and the shape every reachable map keeps
    (src/core/kconfigdata.cpp:71-219). */
module Immutability {
  import opened Bytes
  import opened EntryMap

  /** One call of setEntry. */
  datatype Write = Write(g: bytes, k: bytes, value: QByteArray, o: EntryOptions) {
    predicate OnMarkerOf(group: bytes) {
      g == group && k == []
    }

    /** A write of the key of x without EntryLocalized. */
    predicate PlainOn(x: KEntryKey) {
      k != [] && g == x.mGroup && k == x.mKey && !o.localized
    }

    /** The plain entry that the write is for, or mirrors to, is in the map. */
    predicate PlainIn(m: Entries) {
      KEntryKey(g, k, false, false) in m || (o.forDefault && KEntryKey(g, k, false, true) in m)
    }
  }

  function Apply(m: Entries, w: Write): Entries {
    SetEntry(m, w.g, w.k, w.value, w.o).m
  }

  function Run(m: Entries, ws: seq<Write>): Entries
    decreases |ws|
  {
    if ws == [] then m else Run(Apply(m, ws[0]), ws[1..])
  }

  ghost predicate SameAt(m: Entries, m': Entries, x: KEntryKey) {
    (x in m <==> x in m') && (x in m ==> m[x] == m'[x])
  }

  predicate MarkerMutable(m: Entries, g: bytes) {
    Marker(g) in m ==> !m[Marker(g)].bImmutable
  }

  // ---------------------------------------------------------------------------
  // One call, as a sequence of small steps
  // ---------------------------------------------------------------------------

  /** The call is refused. */
  predicate Refused(m: Entries, g: bytes, k: bytes, o: EntryOptions) {
    var kk := KEntryKey(g, k, o.localized, o.forDefault);
    if kk in m then m[kk].bImmutable else Marker(g) in m && m[Marker(g)].bImmutable
  }

  /** Every call on an entry is refused, leaves the map as it is, erases twins, or stores,
      mirrors and erases twins. */
  lemma Steps(m: Entries, g: bytes, k: bytes, value: QByteArray, o: EntryOptions)
    requires k != []
    ensures Refused(m, g, k, o) ==> SetEntry(m, g, k, value, o).m == m
    ensures var m' := SetEntry(m, g, k, value, o).m;
            var s := Stored(m, g, k, value, o);
            || m' == m
            || m' == s
            || m' == Mirrored(s, g, k, value, o)
            || (KEntryKey(g, k, o.localized, o.forDefault) in m
                && (m' == WithoutTwins(m, g, k, o) || m' == WithoutTwins(Mirrored(s, g, k, value, o), g, k, o)))
  {
    hide Stored, Mirrored, WithoutTwins, SameEntry;
  }

  /** A plain call without EntryDefault, spelled out. */
  lemma PlainApply(m: Entries, w: Write)
    requires w.k != [] && !w.o.localized && !w.o.forDefault
    ensures var x := KEntryKey(w.g, w.k, false, false);
            var s := Stored(m, w.g, w.k, w.value, w.o);
            Apply(m, w) ==
            if Refused(m, w.g, w.k, w.o) then m
            else if x !in m then s
            else WithoutTwins(if SameEntry(m[x], s[x]) then m else s, w.g, w.k, w.o)
  {
    hide Stored, WithoutTwins, SameEntry;
    var s := Stored(m, w.g, w.k, w.value, w.o);
    assert Mirrored(s, w.g, w.k, w.value, w.o) == s;
    if KEntryKey(w.g, w.k, false, false) in m {
      assert Apply(m, w) == SetExisting(m, w.g, w.k, w.value, w.o).m;
    } else {
      assert Apply(m, w) == SetNew(m, w.g, w.k, w.value, w.o).m;
    }
  }

  /** The same with EntryDefault, for a call that deletes nothing. */
  lemma DefaultApply(m: Entries, w: Write)
    requires w.k != [] && !w.o.localized && w.o.forDefault && w.value.Data?
    ensures var x := KEntryKey(w.g, w.k, false, true);
            var s := Stored(m, w.g, w.k, w.value, w.o);
            var n := Apply(s, w.(o := w.o.(forDefault := false)));
            Apply(m, w) ==
            if Refused(m, w.g, w.k, w.o) then m
            else if x !in m then n
            else WithoutTwins(if SameEntry(m[x], s[x]) then m else n, w.g, w.k, w.o)
  {
    hide Stored, WithoutTwins, SameEntry;
    var s := Stored(m, w.g, w.k, w.value, w.o);
    var n := Apply(s, w.(o := w.o.(forDefault := false)));
    assert Mirrored(s, w.g, w.k, w.value, w.o) == n;
    if KEntryKey(w.g, w.k, false, true) in m {
      assert Apply(m, w) == SetExisting(m, w.g, w.k, w.value, w.o).m;
    } else {
      assert Apply(m, w) == SetNew(m, w.g, w.k, w.value, w.o).m;
    }
  }

  /** A localized call that deletes nothing, spelled out. */
  lemma LocalizedApply(m: Entries, w: Write)
    requires w.k != [] && w.o.localized && w.value.Data?
    ensures var x := KEntryKey(w.g, w.k, true, w.o.forDefault);
            var s := Stored(m, w.g, w.k, w.value, w.o);
            Apply(m, w) ==
            if Refused(m, w.g, w.k, w.o) then m
            else if x in m && m[x].bLocalizedCountry && !w.o.localizedCountry then m
            else if x in m && SameEntry(m[x], s[x]) then m
            else if w.o.forDefault then Apply(s, w.(o := w.o.(forDefault := false)))
            else s
  {
    hide SameEntry, Stored, Mirrored, SetExisting, SetNew;
    var s := Stored(m, w.g, w.k, w.value, w.o);
    LocalizedMirror(s, w);
    if KEntryKey(w.g, w.k, true, w.o.forDefault) in m {
      LocalizedOver(m, w);
    } else {
      LocalizedNew(m, w);
    }
  }

  lemma LocalizedMirror(s: Entries, w: Write)
    ensures Mirrored(s, w.g, w.k, w.value, w.o)
         == if w.o.forDefault then Apply(s, w.(o := w.o.(forDefault := false))) else s
  {
    hide SetEntry;
  }

  lemma LocalizedOver(m: Entries, w: Write)
    requires w.k != [] && w.o.localized && KEntryKey(w.g, w.k, true, w.o.forDefault) in m
    ensures var x := KEntryKey(w.g, w.k, true, w.o.forDefault);
            var s := Stored(m, w.g, w.k, w.value, w.o);
            SetExisting(m, w.g, w.k, w.value, w.o).m ==
            if m[x].bImmutable || (m[x].bLocalizedCountry && !w.o.localizedCountry) || SameEntry(m[x], s[x]) then m
            else Mirrored(s, w.g, w.k, w.value, w.o)
  {
    hide SameEntry, Mirrored;
  }

  lemma LocalizedNew(m: Entries, w: Write)
    requires w.k != [] && w.o.localized && w.value.Data? && KEntryKey(w.g, w.k, true, w.o.forDefault) !in m
    ensures SetNew(m, w.g, w.k, w.value, w.o).m ==
            if Marker(w.g) in m && m[Marker(w.g)].bImmutable then m
            else Mirrored(Stored(m, w.g, w.k, w.value, w.o), w.g, w.k, w.value, w.o)
  {
    hide Stored, Mirrored;
  }

  /** Storing touches the entry, which the call is allowed to change, and a missing marker. */
  lemma StoredAt(m: Entries, g: bytes, k: bytes, value: QByteArray, o: EntryOptions, x: KEntryKey)
    ensures x != KEntryKey(g, k, o.localized, o.forDefault) && (x != Marker(g) || x in m) ==>
            SameAt(m, Stored(m, g, k, value, o), x)
    ensures x in Stored(m, g, k, value, o) <==>
            x in m || x == KEntryKey(g, k, o.localized, o.forDefault)
                || (x == Marker(g) && KEntryKey(g, k, o.localized, o.forDefault) !in m)
    ensures !Refused(m, g, k, o) && x in m && m[x].bImmutable ==> SameAt(m, Stored(m, g, k, value, o), x)
  {
    hide Prepared, Overridden;
  }

  lemma WithoutTwinsAt(m: Entries, g: bytes, k: bytes, o: EntryOptions, x: KEntryKey)
    ensures x in WithoutTwins(m, g, k, o) <==>
            x in m && !(x.bLocal && x.mGroup == g && x.mKey == k && !o.localized && (x.bDefault ==> o.forDefault))
    ensures x in WithoutTwins(m, g, k, o) ==> m[x] == WithoutTwins(m, g, k, o)[x]
  {
  }

  lemma SetMarkerAt(m: Entries, g: bytes, o: EntryOptions, x: KEntryKey)
    ensures x.mKey != [] || x.mGroup != g ==> SameAt(m, SetMarker(m, g, o).m, x)
  {
  }

  // ---------------------------------------------------------------------------
  // One call
  // ---------------------------------------------------------------------------

  /** An immutable entry that is not localized survives every call as it is. */
  lemma {:induction false} ImmutableKept(m: Entries, w: Write, x: KEntryKey)
    requires x in m && m[x].bImmutable && !x.bLocal && x.mKey != []
    ensures SameAt(m, Apply(m, w), x)
    decreases w.o.forDefault
  {
    hide Stored, WithoutTwins, SetMarker, SetExisting, SetNew;
    var g, k, value, o := w.g, w.k, w.value, w.o;
    var s := Stored(m, g, k, value, o);
    if k == [] {
      SetMarkerAt(m, g, o, x);
    } else if Refused(m, g, k, o) {
      Steps(m, g, k, value, o);
    } else {
      Steps(m, g, k, value, o);
      StoredAt(m, g, k, value, o, x);
      if o.forDefault {
        ImmutableKept(s, w.(o := o.(forDefault := false)), x);
      }
      WithoutTwinsAt(m, g, k, o, x);
      WithoutTwinsAt(Mirrored(s, g, k, value, o), g, k, o, x);
    }
  }

  /** An immutable localized entry can only be erased, and only by a plain write of the same
      key over a plain entry that is already there. */
  lemma {:induction false} ImmutableLocalizedKept(m: Entries, w: Write, x: KEntryKey)
    requires x in m && m[x].bImmutable && x.bLocal && x.mKey != []
    ensures SameAt(m, Apply(m, w), x) || x !in Apply(m, w)
    ensures x !in Apply(m, w) ==> w.PlainOn(x) && w.PlainIn(m)
    decreases w.o.forDefault
  {
    hide Stored, WithoutTwins, SetMarker, SetExisting, SetNew;
    var g, k, value, o := w.g, w.k, w.value, w.o;
    var s := Stored(m, g, k, value, o);
    if k == [] {
      SetMarkerAt(m, g, o, x);
    } else if Refused(m, g, k, o) {
      Steps(m, g, k, value, o);
    } else {
      Steps(m, g, k, value, o);
      StoredAt(m, g, k, value, o, x);
      if o.forDefault {
        ImmutableLocalizedKept(s, w.(o := o.(forDefault := false)), x);
        StoredAt(m, g, k, value, o, KEntryKey(g, k, false, false));
      }
      WithoutTwinsAt(m, g, k, o, x);
      WithoutTwinsAt(Mirrored(s, g, k, value, o), g, k, o, x);
    }
  }

  /** Nothing is added to a group while its marker is immutable, and only a call on the marker
      itself changes the marker. */
  lemma {:induction false} ImmutableGroupClosed(m: Entries, w: Write, group: bytes, x: KEntryKey)
    requires Marker(group) in m && m[Marker(group)].bImmutable && x.mGroup == group
    ensures x in Apply(m, w) ==> x in m
    ensures !w.OnMarkerOf(group) ==> SameAt(m, Apply(m, w), Marker(group))
    decreases w.o.forDefault
  {
    hide Stored, WithoutTwins, SetExisting, SetNew;
    var g, k, value, o := w.g, w.k, w.value, w.o;
    var s := Stored(m, g, k, value, o);
    if k == [] {
    } else {
      Steps(m, g, k, value, o);
      StoredAt(m, g, k, value, o, x);
      StoredAt(m, g, k, value, o, Marker(group));
      if o.forDefault {
        ImmutableGroupClosed(s, w.(o := o.(forDefault := false)), group, x);
      }
      WithoutTwinsAt(m, g, k, o, x);
      WithoutTwinsAt(Mirrored(s, g, k, value, o), g, k, o, x);
      WithoutTwinsAt(m, g, k, o, Marker(group));
      WithoutTwinsAt(Mirrored(s, g, k, value, o), g, k, o, Marker(group));
    }
  }

  /** A call leaves the entries of other keys alone; it can only add the marker of its group. */
  lemma {:induction false} OthersUntouched(m: Entries, w: Write, x: KEntryKey)
    requires x.mGroup != w.g || x.mKey != w.k
    requires x != Marker(w.g) || x in m
    ensures SameAt(m, Apply(m, w), x)
    decreases w.o.forDefault
  {
    hide Stored, WithoutTwins, SetExisting, SetNew;
    var g, k, value, o := w.g, w.k, w.value, w.o;
    var s := Stored(m, g, k, value, o);
    if k == [] {
    } else {
      Steps(m, g, k, value, o);
      StoredAt(m, g, k, value, o, x);
      if o.forDefault {
        OthersUntouched(s, w.(o := o.(forDefault := false)), x);
      }
      WithoutTwinsAt(m, g, k, o, x);
      WithoutTwinsAt(Mirrored(s, g, k, value, o), g, k, o, x);
    }
  }

  /** A call that is not for defaults leaves them alone. */
  lemma DefaultsUntouched(m: Entries, w: Write, x: KEntryKey)
    requires w.k != [] && !w.o.forDefault && x.bDefault && x.mKey != []
    ensures SameAt(m, Apply(m, w), x)
  {
    hide Stored, WithoutTwins, SetExisting, SetNew;
    var s := Stored(m, w.g, w.k, w.value, w.o);
    Steps(m, w.g, w.k, w.value, w.o);
    assert Mirrored(s, w.g, w.k, w.value, w.o) == s;
    StoredAt(m, w.g, w.k, w.value, w.o, x);
    WithoutTwinsAt(m, w.g, w.k, w.o, x);
    WithoutTwinsAt(s, w.g, w.k, w.o, x);
  }

  /** What a mirrored call has stored for defaults stays. */
  lemma MirroredKeepsEntry(s: Entries, g: bytes, k: bytes, value: QByteArray, o: EntryOptions)
    requires k != []
    ensures SameAt(s, Mirrored(s, g, k, value, o), KEntryKey(g, k, o.localized, o.forDefault))
  {
    hide SetEntry;
    if o.forDefault {
      DefaultsUntouched(s, Write(g, k, value, o.(forDefault := false)), KEntryKey(g, k, o.localized, true));
    }
  }

  lemma ReportedOver(m: Entries, g: bytes, k: bytes, value: QByteArray, o: EntryOptions)
    requires KEntryKey(g, k, o.localized, o.forDefault) in m && k != []
    ensures SetExisting(m, g, k, value, o).dirtied <==> SetExisting(m, g, k, value, o).m != m
  {
    hide Mirrored, SameEntry, Stored, WithoutTwins;
    var kk, s := KEntryKey(g, k, o.localized, o.forDefault), Stored(m, g, k, value, o);
    MirroredKeepsEntry(s, g, k, value, o);
    SameAsItself(m[kk]);
    WithoutTwinsAt(Mirrored(s, g, k, value, o), g, k, o, kk);
    TwinsErased(m, g, k, o);
  }

  lemma ReportedNew(m: Entries, g: bytes, k: bytes, value: QByteArray, o: EntryOptions)
    requires KEntryKey(g, k, o.localized, o.forDefault) !in m && k != []
    ensures var r := SetNew(m, g, k, value, o); r.dirtied <==> r.m != m && !(value.Null? && o.deleted)
  {
    hide Mirrored, Prepared;
    MirroredKeepsEntry(Stored(m, g, k, value, o), g, k, value, o);
  }

  /** Which calls for an entry are reported: exactly those that change the map, erased twins
      included, but for the deletion of a key that is not there. */
  lemma ReportedExactly(m: Entries, g: bytes, k: bytes, value: QByteArray, o: EntryOptions)
    requires k != []
    ensures var r := SetEntry(m, g, k, value, o);
            r.dirtied <==> r.m != m && !(KEntryKey(g, k, o.localized, o.forDefault) !in m && value.Null? && o.deleted)
  {
    hide SetExisting, SetNew;
    if KEntryKey(g, k, o.localized, o.forDefault) in m {
      ReportedOver(m, g, k, value, o);
    } else {
      ReportedNew(m, g, k, value, o);
    }
  }

  /** What a call leaves in the entry that it changes, field by field; e is the entry that it found,
      or a new one. */
  ghost predicate Filled(e: KEntry, n: KEntry, isNew: bool, value: QByteArray, o: EntryOptions) {
    && n.mValue == value
    && (n.bDirty <==> e.bDirty || o.dirty)
    && (n.bNotify <==> e.bNotify || o.notify)
    && (n.bGlobal <==> o.global)
    && (n.bImmutable <==> e.bImmutable || o.immutable)
    && (n.bDeleted <==> value.Null? && (e.bDeleted || o.deleted))
    && (n.bExpand <==> o.expansion)
    && !n.bReverted
    && (n.bLocalizedCountry <==> o.localized && o.localizedCountry)
    && (n.bOverridesGlobal <==> e.bOverridesGlobal || (e.bGlobal && !o.global && !o.forDefault))
    && (n.bRaw <==> if isNew then o.rawKey else e.bRaw)
  }

  lemma StoredFills(m: Entries, g: bytes, k: bytes, value: QByteArray, o: EntryOptions)
    ensures var x := KEntryKey(g, k, o.localized, o.forDefault);
            Filled(if x in m then m[x] else NEW_ENTRY, Stored(m, g, k, value, o)[x], x !in m, value, o)
  {
    hide WithMarker;
  }

  /** An entry that a call changes is filled like that. */
  lemma ChangedIsFilled(m: Entries, g: bytes, k: bytes, value: QByteArray, o: EntryOptions)
    requires k != []
    ensures var x, n := KEntryKey(g, k, o.localized, o.forDefault), SetEntry(m, g, k, value, o).m;
            x in n && !SameAt(m, n, x) ==> Filled(if x in m then m[x] else NEW_ENTRY, n[x], x !in m, value, o)
  {
    hide Filled, Stored, Mirrored, SameEntry, WithoutTwins;
    var x, s := KEntryKey(g, k, o.localized, o.forDefault), Stored(m, g, k, value, o);
    StoredFills(m, g, k, value, o);
    MirroredKeepsEntry(s, g, k, value, o);
    WithoutTwinsAt(m, g, k, o, x);
    WithoutTwinsAt(Mirrored(s, g, k, value, o), g, k, o, x);
    if x in m {
      assert SetEntry(m, g, k, value, o) == SetExisting(m, g, k, value, o);
    } else {
      assert SetEntry(m, g, k, value, o) == SetNew(m, g, k, value, o);
    }
  }

  /** A call on a group's marker makes it as the options say, whatever it was, and is reported
      exactly if that is a change. */
  lemma MarkerIsSet(m: Entries, g: bytes, o: EntryOptions)
    requires !o.localized && !o.forDefault
    requires Marker(g) in m ==> m[Marker(g)] in {NEW_ENTRY, NEW_ENTRY.(bImmutable := true)}
    ensures var r := SetEntry(m, g, [], Null, o);
            && r.m == m[Marker(g) := NEW_ENTRY.(bImmutable := o.immutable)]
            && (r.dirtied <==> r.m != m)
  {
    var e := NEW_ENTRY.(bImmutable := o.immutable);
    if Marker(g) in m && m[Marker(g)] == e {
      assert m[Marker(g) := e] == m;
    } else {
      assert m[Marker(g) := e][Marker(g)] == e;
    }
  }

  /** What a revert leaves: the default's contents, or the entry's own without a value. */
  ghost predicate TakenBack(e: KEntry, d: KEntry, hasDefault: bool, n: KEntry, o: EntryOptions) {
    var from := if hasDefault then d else e;
    && n.mValue == (if hasDefault then d.mValue else Null)
    && n.bDirty && n.bReverted && n.bRaw == e.bRaw
    && (n.bNotify <==> from.bNotify || o.notify)
    && n.bGlobal == from.bGlobal && n.bImmutable == from.bImmutable && n.bDeleted == from.bDeleted
    && n.bExpand == from.bExpand && n.bLocalizedCountry == from.bLocalizedCountry
    && n.bOverridesGlobal == from.bOverridesGlobal
  }

  lemma RevertedIsTakenBack(m: Entries, x: KEntryKey, o: EntryOptions)
    requires x in m
    ensures var d := x.(bDefault := true);
            TakenBack(m[x], if d in m then m[d] else NEW_ENTRY, d in m, Reverted(m, x, o), o)
  {
  }

  /** The entry that a revert finds is taken back, unless that has been done already, and nothing
      else changes. */
  lemma RevertExactly(m: Entries, g: bytes, k: bytes, o: EntryOptions, localized: bool)
    ensures var it := FindEntry(m, g, k, SearchFlags(false, localized));
            var r := RevertEntry(m, g, k, o, localized);
            if it.At? && !m[it.key].bReverted then
              var d := it.key.(bDefault := true);
              && r.dirtied && it.key in r.m
              && TakenBack(m[it.key], if d in m then m[d] else NEW_ENTRY, d in m, r.m[it.key], o)
              && (forall x :: x != it.key ==> SameAt(m, r.m, x))
            else r == SetResult(m, false)
  {
    hide FindEntry, TakenBack, Reverted;
    var it := FindEntry(m, g, k, SearchFlags(false, localized));
    if it.At? {
      RevertedIsTakenBack(m, it.key, o);
    }
  }

  lemma SameAsItself(e: KEntry)
    ensures SameEntry(e, e)
  {
  }

  lemma TwinsErased(m: Entries, g: bytes, k: bytes, o: EntryOptions)
    ensures WithoutTwins(m, g, k, o) != m <==>
            !o.localized && (KEntryKey(g, k, true, false) in m || (o.forDefault && KEntryKey(g, k, true, true) in m))
  {
  }

  // ---------------------------------------------------------------------------
  // Runs
  // ---------------------------------------------------------------------------

  /** Along any run of calls an immutable entry that is not localized never changes or disappears. */
  lemma {:induction false} RunKeepsImmutable(m: Entries, ws: seq<Write>, x: KEntryKey)
    requires x in m && m[x].bImmutable && !x.bLocal && x.mKey != []
    ensures SameAt(m, Run(m, ws), x)
    decreases |ws|
  {
    hide Apply;
    if ws == [] {
    } else {
      ImmutableKept(m, ws[0], x);
      RunKeepsImmutable(Apply(m, ws[0]), ws[1..], x);
    }
  }

  /** Step i of the run from m is a plain write of the key of x over a plain entry that is
      there, and x still has its first value before it. */
  ghost predicate ErasedAt(m: Entries, ws: seq<Write>, x: KEntryKey, i: nat) {
    i < |ws| && SameAt(m, Run(m, ws[..i]), x) && ws[i].PlainOn(x) && ws[i].PlainIn(Run(m, ws[..i]))
  }

  /** An immutable localized entry keeps its value along any run, unless some step is a plain
      write over its plain twin. */
  lemma {:induction false} RunKeepsImmutableLocalized(m: Entries, ws: seq<Write>, x: KEntryKey)
    requires x in m && m[x].bImmutable && x.bLocal && x.mKey != []
    ensures SameAt(m, Run(m, ws), x) || exists i: nat :: ErasedAt(m, ws, x, i)
    decreases |ws|
  {
    hide Apply;
    if ws == [] {
    } else {
      var m', rest := Apply(m, ws[0]), ws[1..];
      ImmutableLocalizedKept(m, ws[0], x);
      if SameAt(m, m', x) {
        RunKeepsImmutableLocalized(m', rest, x);
        if !SameAt(m', Run(m', rest), x) {
          var i: nat :| ErasedAt(m', rest, x, i);
          assert ws[..i + 1][1..] == rest[..i];
          assert ErasedAt(m, ws, x, i + 1);
        }
      } else {
        assert ws[..0] == [];
        assert ErasedAt(m, ws, x, 0);
      }
    }
  }

  /** While no call is made on its marker, an immutable group gains no entry. */
  lemma {:induction false} RunKeepsGroupClosed(m: Entries, ws: seq<Write>, group: bytes, x: KEntryKey)
    requires Marker(group) in m && m[Marker(group)].bImmutable
    requires forall w :: w in ws ==> !w.OnMarkerOf(group)
    requires x.mGroup == group
    ensures x in Run(m, ws) ==> x in m
    decreases |ws|
  {
    hide Apply;
    if ws == [] {
    } else {
      ImmutableGroupClosed(m, ws[0], group, x);
      RunKeepsGroupClosed(Apply(m, ws[0]), ws[1..], group, x);
    }
  }

  // ---------------------------------------------------------------------------
  // The shape of every reachable map
  // ---------------------------------------------------------------------------

  /** Every group that has entries has its marker, and the marker is its only empty key. */
  ghost predicate WellKept(m: Entries) {
    && (forall x :: x in m ==> Marker(x.mGroup) in m)
    && (forall x :: x in m && x.mKey == [] ==> x == Marker(x.mGroup))
  }

  lemma SetMarkerWellKept(m: Entries, g: bytes, o: EntryOptions)
    requires WellKept(m)
    ensures WellKept(SetMarker(m, g, o).m)
  {
  }

  lemma StoredWellKept(m: Entries, g: bytes, k: bytes, value: QByteArray, o: EntryOptions)
    requires WellKept(m) && k != []
    ensures WellKept(Stored(m, g, k, value, o))
  {
    hide Prepared, Overridden;
  }

  lemma WithoutTwinsWellKept(m: Entries, g: bytes, k: bytes, o: EntryOptions)
    requires WellKept(m) && k != []
    ensures WellKept(WithoutTwins(m, g, k, o))
  {
  }

  lemma {:induction false} ApplyWellKept(m: Entries, w: Write)
    requires WellKept(m)
    ensures WellKept(Apply(m, w))
    decreases w.o.forDefault
  {
    hide Stored, WithoutTwins, SetMarker, SetExisting, SetNew, WellKept;
    var g, k, value, o := w.g, w.k, w.value, w.o;
    if k == [] {
      SetMarkerWellKept(m, g, o);
    } else {
      Steps(m, g, k, value, o);
      var s := Stored(m, g, k, value, o);
      StoredWellKept(m, g, k, value, o);
      if o.forDefault {
        ApplyWellKept(s, w.(o := o.(forDefault := false)));
      }
      WithoutTwinsWellKept(m, g, k, o);
      WithoutTwinsWellKept(Mirrored(s, g, k, value, o), g, k, o);
    }
  }

  lemma {:induction false} RunWellKept(m: Entries, ws: seq<Write>)
    requires WellKept(m)
    ensures WellKept(Run(m, ws))
    decreases |ws|
  {
    hide Apply, WellKept;
    if ws == [] {
    } else {
      ApplyWellKept(m, ws[0]);
      RunWellKept(Apply(m, ws[0]), ws[1..]);
    }
  }

  lemma RevertWellKept(m: Entries, g: bytes, k: bytes, o: EntryOptions, localized: bool)
    requires WellKept(m)
    ensures WellKept(RevertEntry(m, g, k, o, localized).m)
  {
    hide Reverted;
  }
}
