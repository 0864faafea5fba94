/** The cascade: files parsed as defaults, then the user's files. Despite the mirroring of
    defaults each key ends up with the value of its first immutable line, or else of its
    last line (src/core/kconfigdata.cpp:71-219, src/core/kconfigini.cpp:244-267). */
module Cascade {
  import opened Bytes
  import opened EntryMap
  import opened Immutability
  import opened Revert

  /** What a line `key=value`, with or without options, asks setEntry to do. */
  predicate IsLine(w: Write) {
    w.k != [] && w.value.Data? && !w.o.localized && !w.o.deleted
  }

  predicate IsFor(w: Write, g: bytes, k: bytes) {
    w.g == g && w.k == k
  }

  datatype Choice = Nobody | Chosen(w: Write)

  function FirstImmutable(ws: seq<Write>, g: bytes, k: bytes): Choice
    decreases |ws|
  {
    if ws == [] then Nobody
    else if IsFor(ws[0], g, k) && ws[0].o.immutable then Chosen(ws[0])
    else FirstImmutable(ws[1..], g, k)
  }

  function Last(ws: seq<Write>, g: bytes, k: bytes): Choice
    decreases |ws|
  {
    if ws == [] then Nobody
    else if IsFor(ws[|ws| - 1], g, k) then Chosen(ws[|ws| - 1])
    else Last(ws[..|ws| - 1], g, k)
  }

  /** The line that decides. */
  function Winner(ws: seq<Write>, g: bytes, k: bytes): Choice {
    if FirstImmutable(ws, g, k).Chosen? then FirstImmutable(ws, g, k) else Last(ws, g, k)
  }

  /** The entry at x is the one that the chosen line describes. */
  predicate Holds(m: Entries, x: KEntryKey, c: Choice) {
    match c
    case Nobody => x !in m
    case Chosen(w) =>
      && x in m
      && m[x].mValue == w.value
      && m[x].bImmutable == w.o.immutable
      && m[x].bExpand == w.o.expansion
      && m[x].bGlobal == w.o.global
      && !m[x].bDeleted
  }

  // ---------------------------------------------------------------------------
  // One line
  // ---------------------------------------------------------------------------

  predicate Open(c: Choice) {
    c.Chosen? ==> !c.w.o.immutable
  }

  /** Which line decides once w has been read, too. */
  function Take(c: Choice, w: Write): Choice {
    if Open(c) then Chosen(w) else c
  }

  lemma StoredHolds(m: Entries, w: Write, c: Choice)
    requires IsLine(w) && (c.Chosen? ==> IsLine(c.w))
    requires Holds(m, KEntryKey(w.g, w.k, false, w.o.forDefault), c)
    requires Open(c)
    ensures Holds(Stored(m, w.g, w.k, w.value, w.o), KEntryKey(w.g, w.k, false, w.o.forDefault), Chosen(w))
  {
  }

  /** An entry that would not change is already as the line describes it. */
  lemma SameHolds(m: Entries, w: Write, c: Choice)
    requires IsLine(w) && c.Chosen? && IsLine(c.w) && !c.w.o.immutable
    requires Holds(m, KEntryKey(w.g, w.k, false, w.o.forDefault), c)
    requires SameEntry(m[KEntryKey(w.g, w.k, false, w.o.forDefault)],
                       Stored(m, w.g, w.k, w.value, w.o)[KEntryKey(w.g, w.k, false, w.o.forDefault)])
    ensures Holds(m, KEntryKey(w.g, w.k, false, w.o.forDefault), Chosen(w))
    ensures w.value == c.w.value && w.o.immutable == c.w.o.immutable && w.o.expansion == c.w.o.expansion
            && w.o.global == c.w.o.global
  {
  }

  lemma MarkerStaysMutable(m: Entries, w: Write, g: bytes)
    requires IsLine(w) && MarkerMutable(m, g)
    ensures MarkerMutable(Apply(m, w), g)
    decreases w.o.forDefault
  {
    hide Stored, WithoutTwins, SetExisting, SetNew;
    var s := Stored(m, w.g, w.k, w.value, w.o);
    Steps(m, w.g, w.k, w.value, w.o);
    StoredMarker(m, w, g);
    if w.o.forDefault {
      MarkerStaysMutable(s, w.(o := w.o.(forDefault := false)), g);
    }
    WithoutTwinsAt(m, w.g, w.k, w.o, Marker(g));
    WithoutTwinsAt(Mirrored(s, w.g, w.k, w.value, w.o), w.g, w.k, w.o, Marker(g));
  }

  lemma StoredMarker(m: Entries, w: Write, g: bytes)
    requires w.k != [] && MarkerMutable(m, g)
    ensures MarkerMutable(Stored(m, w.g, w.k, w.value, w.o), g)
  {
    hide Prepared, Overridden;
  }

  /** A line of a user's file. */
  lemma UserLine(m: Entries, w: Write, c: Choice)
    requires IsLine(w) && !w.o.forDefault && (c.Chosen? ==> IsLine(c.w))
    requires MarkerMutable(m, w.g) && Holds(m, Plain(w.g, w.k), c)
    ensures Holds(Apply(m, w), Plain(w.g, w.k), Take(c, w))
    ensures SameAt(m, Apply(m, w), Default(w.g, w.k))
  {
    hide Stored, WithoutTwins, SameEntry, Apply;
    var x, s := Plain(w.g, w.k), Stored(m, w.g, w.k, w.value, w.o);
    PlainApply(m, w);
    TwinsAreLocal(m, w, x);
    TwinsAreLocal(m, w, Default(w.g, w.k));
    TwinsAreLocal(s, w, x);
    TwinsAreLocal(s, w, Default(w.g, w.k));
    StoredAt(m, w.g, w.k, w.value, w.o, Default(w.g, w.k));
    if Open(c) {
      StoredHolds(m, w, c);
      if x in m && SameEntry(m[x], s[x]) {
        SameHolds(m, w, c);
      }
    }
  }

  lemma TwinsAreLocal(m: Entries, w: Write, x: KEntryKey)
    requires !x.bLocal
    ensures SameAt(m, WithoutTwins(m, w.g, w.k, w.o), x)
  {
    WithoutTwinsAt(m, w.g, w.k, w.o, x);
  }

  /** A line of a file of defaults. */
  lemma DefaultLine(m: Entries, w: Write, c: Choice)
    requires IsLine(w) && w.o.forDefault && (c.Chosen? ==> IsLine(c.w))
    requires MarkerMutable(m, w.g) && Holds(m, Plain(w.g, w.k), c) && Holds(m, Default(w.g, w.k), c)
    ensures Holds(Apply(m, w), Plain(w.g, w.k), Take(c, w))
    ensures Holds(Apply(m, w), Default(w.g, w.k), Take(c, w))
  {
    hide Stored, WithoutTwins, SameEntry, Apply;
    var x, s := Default(w.g, w.k), Stored(m, w.g, w.k, w.value, w.o);
    var u := w.(o := w.o.(forDefault := false));
    var n := Apply(s, u);
    DefaultApply(m, w);
    TwinsAreLocal(m, w, Plain(w.g, w.k));
    TwinsAreLocal(m, w, x);
    TwinsAreLocal(n, w, Plain(w.g, w.k));
    TwinsAreLocal(n, w, x);
    if Open(c) {
      StoredHolds(m, w, c);
      StoredAt(m, w.g, w.k, w.value, w.o, Plain(w.g, w.k));
      StoredMarker(m, w, w.g);
      HoldsAlike(s, Plain(w.g, w.k), c, m);
      UserLine(s, u, c);
      HoldsMirrored(n, w, u, c);
      if x in m && SameEntry(m[x], s[x]) {
        SameHolds(m, w, c);
      }
    }
  }

  lemma HoldsAlike(m: Entries, x: KEntryKey, c: Choice, m': Entries)
    requires Holds(m', x, c) && SameAt(m', m, x)
    ensures Holds(m, x, c)
  {
  }

  lemma HoldsMirrored(n: Entries, w: Write, u: Write, c: Choice)
    requires u == w.(o := w.o.(forDefault := false))
    requires Open(c)
    requires Holds(n, Plain(w.g, w.k), Take(c, u))
    ensures Holds(n, Plain(w.g, w.k), Chosen(w))
  {
  }

  // ---------------------------------------------------------------------------
  // Whole files
  // ---------------------------------------------------------------------------

  function TakeAll(c: Choice, ws: seq<Write>, g: bytes, k: bytes): Choice
    decreases |ws|
  {
    if ws == [] then c
    else TakeAll(if IsFor(ws[0], g, k) then Take(c, ws[0]) else c, ws[1..], g, k)
  }

  /** Reading lines one by one selects the first immutable line, or else the last line. */
  lemma {:induction false} TakeAllIsWinner(c: Choice, ws: seq<Write>, g: bytes, k: bytes)
    ensures TakeAll(c, ws, g, k) ==
            if !Open(c) then c
            else if Winner(ws, g, k).Chosen? then Winner(ws, g, k)
            else c
    decreases |ws|
  {
    if ws == [] {
    } else {
      var rest := ws[1..];
      TakeAllIsWinner(if IsFor(ws[0], g, k) then Take(c, ws[0]) else c, rest, g, k);
      LastCons(ws, g, k);
    }
  }

  lemma {:induction false} LastCons(ws: seq<Write>, g: bytes, k: bytes)
    requires ws != []
    ensures Last(ws, g, k) ==
            if Last(ws[1..], g, k).Chosen? then Last(ws[1..], g, k)
            else if IsFor(ws[0], g, k) then Chosen(ws[0])
            else Nobody
    decreases |ws|
  {
    hide IsFor;
    var n := |ws| - 1;
    if n == 0 {
      assert ws[..0] == [] && ws[1..] == [];
    } else {
      LastCons(ws[..n], g, k);
      assert ws[..n][1..] == ws[1..][..n - 1];
      assert ws[1..][n - 1] == ws[n];
    }
  }

  ghost predicate AllLines(ws: seq<Write>, forDefault: bool) {
    forall w :: w in ws ==> IsLine(w) && w.o.forDefault == forDefault
  }

  lemma {:induction false} RunDefaults(m: Entries, ds: seq<Write>, c: Choice, g: bytes, k: bytes)
    requires k != [] && AllLines(ds, true) && (c.Chosen? ==> IsLine(c.w))
    requires MarkerMutable(m, g) && Holds(m, Plain(g, k), c) && Holds(m, Default(g, k), c)
    ensures MarkerMutable(Run(m, ds), g)
    ensures Holds(Run(m, ds), Plain(g, k), TakeAll(c, ds, g, k))
    ensures Holds(Run(m, ds), Default(g, k), TakeAll(c, ds, g, k))
    decreases |ds|
  {
    hide Apply, Take, Holds, MarkerMutable, IsLine;
    if ds == [] {
    } else {
      var w, m' := ds[0], Apply(m, ds[0]);
      MarkerStaysMutable(m, w, g);
      var c' := if IsFor(w, g, k) then Take(c, w) else c;
      if IsFor(w, g, k) {
        DefaultLine(m, w, c);
      } else {
        LineElsewhere(m, w, c, g, k);
      }
      TakeLine(c, w);
      RunDefaults(m', ds[1..], c', g, k);
    }
  }

  lemma TakeLine(c: Choice, w: Write)
    requires IsLine(w) && (c.Chosen? ==> IsLine(c.w))
    ensures Take(c, w).Chosen? ==> IsLine(Take(c, w).w)
  {
  }

  lemma LineElsewhere(m: Entries, w: Write, c: Choice, g: bytes, k: bytes)
    requires k != [] && !IsFor(w, g, k)
    ensures Holds(m, Plain(g, k), c) ==> Holds(Apply(m, w), Plain(g, k), c)
    ensures Holds(m, Default(g, k), c) ==> Holds(Apply(m, w), Default(g, k), c)
  {
    hide Apply;
    OthersUntouched(m, w, Plain(g, k));
    OthersUntouched(m, w, Default(g, k));
  }

  lemma {:induction false} RunUser(m: Entries, us: seq<Write>, c: Choice, d: Choice, g: bytes, k: bytes)
    requires k != [] && AllLines(us, false) && (c.Chosen? ==> IsLine(c.w))
    requires MarkerMutable(m, g) && Holds(m, Plain(g, k), c) && Holds(m, Default(g, k), d)
    ensures Holds(Run(m, us), Plain(g, k), TakeAll(c, us, g, k))
    ensures Holds(Run(m, us), Default(g, k), d)
    decreases |us|
  {
    hide Apply, Take, Holds, MarkerMutable, IsLine;
    if us == [] {
    } else {
      var w, m' := us[0], Apply(m, us[0]);
      MarkerStaysMutable(m, w, g);
      var c' := if IsFor(w, g, k) then Take(c, w) else c;
      if IsFor(w, g, k) {
        UserLine(m, w, c);
        HoldsAlike(m', Default(g, k), d, m);
      } else {
        LineElsewhere(m, w, c, g, k);
        LineElsewhere(m, w, d, g, k);
      }
      TakeLine(c, w);
      RunUser(m', us[1..], c', d, g, k);
    }
  }

  lemma {:induction false} RunConcat(m: Entries, a: seq<Write>, b: seq<Write>)
    ensures Run(m, a + b) == Run(Run(m, a), b)
    decreases |a|
  {
    hide Apply;
    if a == [] {
      assert a + b == b;
    } else {
      assert (a + b)[1..] == a[1..] + b;
      RunConcat(Apply(m, a[0]), a[1..], b);
    }
  }

  lemma {:induction false} TakeAllConcat(c: Choice, a: seq<Write>, b: seq<Write>, g: bytes, k: bytes)
    ensures TakeAll(c, a + b, g, k) == TakeAll(TakeAll(c, a, g, k), b, g, k)
    decreases |a|
  {
    hide Take, IsFor;
    if a == [] {
      assert a + b == b;
    } else {
      assert (a + b)[1..] == a[1..] + b;
      TakeAllConcat(if IsFor(a[0], g, k) then Take(c, a[0]) else c, a[1..], b, g, k);
    }
  }

  /** The cascade law: the plain entry is described by the deciding line among all lines, the
      default entry by the deciding line among the lines of the default files. */
  lemma CascadeLaw(ds: seq<Write>, us: seq<Write>, g: bytes, k: bytes)
    requires k != [] && AllLines(ds, true) && AllLines(us, false)
    ensures Holds(Run(map[], ds + us), Plain(g, k), Winner(ds + us, g, k))
    ensures Holds(Run(map[], ds + us), Default(g, k), Winner(ds, g, k))
  {
    hide Run, Take, Holds, Winner;
    HoldsEmpty(g, k);
    RunDefaults(map[], ds, Nobody, g, k);
    var c, m := TakeAll(Nobody, ds, g, k), Run(map[], ds);
    TakeAllLines(Nobody, ds, g, k);
    RunUser(m, us, c, c, g, k);
    RunConcat(map[], ds, us);
    TakeAllConcat(Nobody, ds, us, g, k);
    TakeAllIsWinner(Nobody, ds, g, k);
    TakeAllIsWinner(Nobody, ds + us, g, k);
  }

  lemma HoldsEmpty(g: bytes, k: bytes)
    ensures Holds(map[], Plain(g, k), Nobody) && Holds(map[], Default(g, k), Nobody)
  {
  }

  lemma {:induction false} TakeAllLines(c: Choice, ws: seq<Write>, g: bytes, k: bytes)
    requires (c.Chosen? ==> IsLine(c.w)) && forall w :: w in ws ==> IsLine(w)
    ensures TakeAll(c, ws, g, k).Chosen? ==> IsLine(TakeAll(c, ws, g, k).w)
    decreases |ws|
  {
    hide IsLine, Take, IsFor;
    if ws == [] {
    } else {
      TakeLine(c, ws[0]);
      TakeAllLines(if IsFor(ws[0], g, k) then Take(c, ws[0]) else c, ws[1..], g, k);
    }
  }

  /** What a reader sees of it: the deciding line's value, with the fallback for a key that no
      file mentions; and reverting brings back what the default files alone decide. */
  lemma CascadeLookup(ds: seq<Write>, us: seq<Write>, g: bytes, k: bytes, fallback: QByteArray, o: EntryOptions)
    requires k != [] && AllLines(ds, true) && AllLines(us, false)
    ensures var m := Run(map[], ds + us);
            && GetEntry(m, g, k, fallback, PLAIN) == Value(Winner(ds + us, g, k), fallback)
            && GetEntry(RevertEntry(m, g, k, o, false).m, g, k, fallback, PLAIN) == Value(Winner(ds, g, k), fallback)
  {
    hide Run, Winner;
    var m := Run(map[], ds + us);
    CascadeLaw(ds, us, g, k);
    TakeAllIsWinner(Nobody, ds, g, k);
    TakeAllIsWinner(Nobody, ds + us, g, k);
    TakeAllLines(Nobody, ds, g, k);
    TakeAllLines(Nobody, ds + us, g, k);
    RevertRestoresDefault(ds + us, g, k, o);
    var r := RevertEntry(m, g, k, o, false);
    assert SameAt(m, r.m, Default(g, k));
    assert GetEntry(r.m, g, k, fallback, PLAIN) == GetEntry(r.m, g, k, fallback, DEFAULTS);
  }

  function Value(c: Choice, fallback: QByteArray): QByteArray {
    if c.Chosen? then c.w.value else fallback
  }
}
