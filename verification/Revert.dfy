/** Reverting an entry to its default (src/core/kconfigdata.cpp:221-234, 308-338). */
module Revert {
  import opened Bytes
  import opened EntryMap
  import opened Immutability

  function Plain(g: bytes, k: bytes): KEntryKey {
    KEntryKey(g, k, false, false)
  }

  function Default(g: bytes, k: bytes): KEntryKey {
    KEntryKey(g, k, false, true)
  }

  const PLAIN: SearchFlags := SearchFlags(false, false)
  const DEFAULTS: SearchFlags := SearchFlags(true, false)

  /** An entry whose value getEntry returns. */
  predicate Readable(m: Entries, x: KEntryKey) {
    x in m && !m[x].bDeleted && m[x].mValue.Data?
  }

  /** Every plain lookup of (g, k) gives what the lookup of the default gives. */
  ghost predicate AtDefault(m: Entries, g: bytes, k: bytes) {
    forall fallback :: GetEntry(m, g, k, fallback, PLAIN) == GetEntry(m, g, k, fallback, DEFAULTS)
  }

  /** Reverting restores the default exactly if there is an entry to revert or no default to
      restore. It never touches a default, and a second revert finds nothing to do. */
  lemma RevertRestoresExactly(m: Entries, g: bytes, k: bytes, o: EntryOptions)
    requires Plain(g, k) in m ==> !m[Plain(g, k)].bReverted
    ensures var r := RevertEntry(m, g, k, o, false);
            && (AtDefault(r.m, g, k) <==> Plain(g, k) in m || !Readable(m, Default(g, k)))
            && (forall x: KEntryKey :: x.bDefault ==> SameAt(m, r.m, x))
            && RevertEntry(r.m, g, k, o, false) == SetResult(r.m, false)
  {
    var r := RevertEntry(m, g, k, o, false);
    if Plain(g, k) !in m && Readable(m, Default(g, k)) {
      assert GetEntry(r.m, g, k, Null, PLAIN) != GetEntry(r.m, g, k, Null, DEFAULTS);
    }
  }

  // ---------------------------------------------------------------------------
  // Every default has its plain entry
  // ---------------------------------------------------------------------------

  /** The entry at (g, k) can be reverted, if it has a default at all. */
  ghost predicate Revertible(m: Entries, g: bytes, k: bytes) {
    && (Default(g, k) in m ==> Plain(g, k) in m)
    && (Plain(g, k) in m ==> !m[Plain(g, k)].bReverted)
  }

  /** A deletion of a default is the one call that is not mirrored. */
  predicate DeletesDefault(w: Write) {
    w.o.forDefault && w.o.deleted && w.value.Null?
  }

  lemma StoredNotReverted(m: Entries, g: bytes, k: bytes, value: QByteArray, o: EntryOptions, x: KEntryKey)
    requires x in m ==> !m[x].bReverted
    ensures x in Stored(m, g, k, value, o) ==> !Stored(m, g, k, value, o)[x].bReverted
  {
  }

  /** Plain entries are never erased, and a call never makes one reverted. */
  lemma {:induction false} PlainStays(m: Entries, w: Write, x: KEntryKey)
    requires !x.bLocal && x.mKey != []
    requires x in m ==> !m[x].bReverted
    ensures x in m ==> x in Apply(m, w)
    ensures x in Apply(m, w) ==> !Apply(m, w)[x].bReverted
    decreases w.o.forDefault
  {
    hide Stored, WithoutTwins, SetMarker, SetExisting, SetNew;
    var g, k, value, o := w.g, w.k, w.value, w.o;
    var s := Stored(m, g, k, value, o);
    if k == [] {
      SetMarkerAt(m, g, o, x);
    } else {
      Steps(m, g, k, value, o);
      StoredAt(m, g, k, value, o, x);
      StoredNotReverted(m, g, k, value, o, x);
      if o.forDefault {
        PlainStays(s, w.(o := o.(forDefault := false)), x);
      }
      WithoutTwinsAt(m, g, k, o, x);
      WithoutTwinsAt(Mirrored(s, g, k, value, o), g, k, o, x);
    }
  }

  /** A plain write that is not refused leaves its entry in the map. */
  lemma WriteStores(m: Entries, w: Write)
    requires w.k != [] && !w.o.forDefault && !w.o.localized && !Refused(m, w.g, w.k, w.o)
    ensures Plain(w.g, w.k) in Apply(m, w)
  {
    hide Stored, WithoutTwins, SameEntry, Apply;
    var x, s := Plain(w.g, w.k), Stored(m, w.g, w.k, w.value, w.o);
    PlainApply(m, w);
    StoredAt(m, w.g, w.k, w.value, w.o, x);
    WithoutTwinsAt(m, w.g, w.k, w.o, x);
    WithoutTwinsAt(s, w.g, w.k, w.o, x);
  }

  /** A plain default that appears brings its plain entry with it. */
  lemma DefaultIsMirrored(m: Entries, w: Write)
    requires w.k != [] && w.o.forDefault && !w.o.localized && !DeletesDefault(w)
    requires Default(w.g, w.k) !in m && Plain(w.g, w.k) !in m
    ensures Default(w.g, w.k) in Apply(m, w) ==> Plain(w.g, w.k) in Apply(m, w)
  {
    hide Prepared, Overridden, SameEntry, WithoutTwins, SetMarker, SetExisting;
    var g, k, value, o := w.g, w.k, w.value, w.o;
    var s := Stored(m, g, k, value, o);
    if !Refused(m, g, k, o) {
      WriteStores(s, w.(o := o.(forDefault := false)));
    }
  }

  lemma {:induction false} RevertibleKept(m: Entries, w: Write, g: bytes, k: bytes)
    requires k != [] && Revertible(m, g, k) && !DeletesDefault(w)
    ensures Revertible(Apply(m, w), g, k)
  {
    hide Apply;
    PlainStays(m, w, Plain(g, k));
    if Plain(g, k) !in m {
      if w.g == g && w.k == k && w.o.forDefault && !w.o.localized {
        DefaultIsMirrored(m, w);
      } else {
        DefaultAppears(m, w, g, k);
      }
    }
  }

  /** A plain default appears only by a plain write of the default. */
  lemma {:induction false} DefaultAppears(m: Entries, w: Write, g: bytes, k: bytes)
    requires k != [] && Default(g, k) !in m
    requires !(w.g == g && w.k == k && w.o.forDefault && !w.o.localized)
    ensures Default(g, k) !in Apply(m, w)
    decreases w.o.forDefault
  {
    hide Stored, WithoutTwins, SetMarker, SetExisting, SetNew;
    var x, value, o := Default(g, k), w.value, w.o;
    var s := Stored(m, w.g, w.k, value, o);
    if w.k == [] {
      SetMarkerAt(m, w.g, o, x);
    } else {
      Steps(m, w.g, w.k, value, o);
      StoredAt(m, w.g, w.k, value, o, x);
      if o.forDefault {
        DefaultAppears(s, w.(o := o.(forDefault := false)), g, k);
      }
      WithoutTwinsAt(m, w.g, w.k, o, x);
      WithoutTwinsAt(Mirrored(s, w.g, w.k, value, o), w.g, w.k, o, x);
    }
  }

  lemma {:induction false} RunRevertible(m: Entries, ws: seq<Write>, g: bytes, k: bytes)
    requires k != [] && Revertible(m, g, k)
    requires forall w :: w in ws ==> !DeletesDefault(w)
    ensures Revertible(Run(m, ws), g, k)
    decreases |ws|
  {
    hide Apply, Revertible;
    if ws == [] {
    } else {
      RevertibleKept(m, ws[0], g, k);
      RunRevertible(Apply(m, ws[0]), ws[1..], g, k);
    }
  }

  /** After any run of setEntry calls from the empty map that deletes no default, whatever it
      does to immutability, locales and markers, reverting restores the default. */
  lemma RevertRestoresDefault(ws: seq<Write>, g: bytes, k: bytes, o: EntryOptions)
    requires k != [] && forall w :: w in ws ==> !DeletesDefault(w)
    ensures var m := Run(map[], ws);
            var r := RevertEntry(m, g, k, o, false);
            && AtDefault(r.m, g, k)
            && (forall x: KEntryKey :: x.bDefault ==> SameAt(m, r.m, x))
            && RevertEntry(r.m, g, k, o, false) == SetResult(r.m, false)
  {
    hide Run, AtDefault, RevertEntry;
    RunRevertible(map[], ws, g, k);
    RevertRestoresExactly(Run(map[], ws), g, k, o);
  }

  /** Why deletions of defaults are excluded: a default that is first deleted, and gets a value
      only once its group is immutable, has no plain entry, and reverting does not restore it. */
  lemma DeletedDefaultIsNotRestored(g: bytes, k: bytes, v: bytes)
    requires k != []
    ensures var d := NO_OPTIONS.(forDefault := true);
            var m := Run(map[], [
              Write(g, k, Null, d.(deleted := true)),
              Write(g, [], Null, NO_OPTIONS.(immutable := true)),
              Write(g, k, Data(v), d)]);
            !AtDefault(RevertEntry(m, g, k, NO_OPTIONS, false).m, g, k)
  {
    var d := NO_OPTIONS.(forDefault := true);
    var w0, w1, w2 := Write(g, k, Null, d.(deleted := true)), Write(g, [], Null, NO_OPTIONS.(immutable := true)),
        Write(g, k, Data(v), d);
    var m1 := Apply(map[], w0);
    var m2 := Apply(m1, w1);
    var m3 := Apply(m2, w2);
    RunOfThree(map[], w0, w1, w2);
    assert m1.Keys == {Marker(g), Default(g, k)};
    assert m2.Keys == {Marker(g), Default(g, k)} && m2[Marker(g)].bImmutable;
    assert Readable(m3, Default(g, k)) && Plain(g, k) !in m3;
    RevertRestoresExactly(m3, g, k, NO_OPTIONS);
  }

  lemma RunOfThree(m: Entries, a: Write, b: Write, c: Write)
    ensures Run(m, [a, b, c]) == Apply(Apply(Apply(m, a), b), c)
  {
    hide Apply;
    assert [a, b, c][1..] == [b, c] && [b, c][1..] == [c] && [c][1..] == [];
    var m1 := Apply(m, a);
    var m2 := Apply(m1, b);
    assert Run(m, [a, b, c]) == Run(m1, [b, c]) == Run(m2, [c]) == Run(Apply(m2, c), []);
  }
}
