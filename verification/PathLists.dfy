/** Exactly when a list of paths is read as it was written, although it is expanded before it
    is split (src/core/kconfiggroup.cpp:133-190, 401-452, 797-807, 1083-1095). */
module PathLists {
  import opened Bytes
  import opened Lists
  import opened Expand
  import opened Paths

  /** Nothing in the string has a meaning in a value or in a list. */
  predicate Inert(s: bytes) {
    DOLLAR !in s && COMMA !in s && BACKSLASH !in s
  }

  // ---------------------------------------------------------------------------
  // What the expansion of a written list looks like
  // ---------------------------------------------------------------------------

  lemma {:induction false} ExpandEscaped(env: Environment, x: bytes, rest: bytes)
    ensures Expanded(env, Escaped(COMMA, Doubled(x)) + rest) == Escaped(COMMA, x) + Expanded(env, rest)
  {
    hide Expanded, Doubled, Escaped;
    if x == [] {
      DoubledNothing();
      EscapedEmpty(COMMA);
      assert [] + rest == rest && [] + Expanded(env, rest) == Expanded(env, rest);
    } else {
      var b, y := x[0], x[1..];
      Cons(x);
      DoubledCons(b, y);
      var e := Escaped(COMMA, Doubled(y)) + rest;
      ExpandEscaped(env, y, rest);
      EscapedDoubled(b, y, rest);
      EscapedCons(COMMA, b, y);
      ExpandedStep(env, b, e);
      ExpandedStep(env, BACKSLASH, [b] + e);
      assert [BACKSLASH, b] + e == [BACKSLASH] + ([b] + e);
      var z := Escaped(COMMA, y) + Expanded(env, rest);
      assert [BACKSLASH] + ([b] + z) == [BACKSLASH, b] + z;
      var f := if b == BACKSLASH || b == COMMA then [BACKSLASH, b] else [b];
      assert f + Escaped(COMMA, y) + Expanded(env, rest) == f + z;
    }
  }

  lemma EscapedDoubled(b: byte, y: bytes, rest: bytes)
    ensures Escaped(COMMA, Doubled([b] + y)) + rest ==
            (if b == DOLLAR then [DOLLAR, DOLLAR] else if b == BACKSLASH || b == COMMA then [BACKSLASH, b] else [b])
            + (Escaped(COMMA, Doubled(y)) + rest)
  {
    hide Doubled, Escaped;
    DoubledCons(b, y);
    var d := Doubled(y);
    if b == DOLLAR {
      assert [DOLLAR, DOLLAR] + d == [DOLLAR] + ([DOLLAR] + d);
      EscapedCons(COMMA, DOLLAR, [DOLLAR] + d);
      EscapedCons(COMMA, DOLLAR, d);
    } else {
      EscapedCons(COMMA, b, d);
    }
  }

  /** What follows the home directory in a path that is abbreviated. */
  function Tail(env: Environment, path: bytes): bytes
    requires Abbreviated(env, path)
  {
    Expanded(env, Doubled(path)[|HomeDir(env)|..])
  }

  /** An item of the list, after the expansion of what was written. */
  function Shown(env: Environment, path: bytes): bytes {
    if Abbreviated(env, path) then HomeDir(env) + Escaped(COMMA, Tail(env, path)) else Escaped(COMMA, path)
  }

  function AllShown(env: Environment, list: seq<bytes>): bytes
    requires list != []
  {
    if |list| == 1 then Shown(env, list[0]) else Shown(env, list[0]) + [COMMA] + AllShown(env, list[1..])
  }

  /** The parts of an abbreviated path. */
  lemma TailOf(env: Environment, path: bytes) returns (h: bytes)
    requires Abbreviated(env, path)
    ensures path == h + Tail(env, path) && HomeDir(env) == Doubled(h)
    ensures Translated(env, path) == HOME_REFERENCE + Doubled(Tail(env, path))
    ensures Tail(env, path) == [] || Tail(env, path)[0] == SLASH
    ensures h != [] && h[0] == SLASH
  {
    hide Expanded, Replaced;
    var r;
    h, r := SplitAbbreviated(env, path);
    ExpandDoubled(env, r);
    SameTail(HOME_REFERENCE, Doubled(r), Doubled(path)[|HomeDir(env)|..]);
    NotEmptyPath(env, path);
  }

  lemma SameTail(a: bytes, s: bytes, t: bytes)
    requires a + s == a + t
    ensures s == t
  {
    assert s == (a + s)[|a|..] && t == (a + t)[|a|..];
  }

  lemma NotEmptyPath(env: Environment, path: bytes)
    requires Abbreviated(env, path)
    ensures path != []
  {
    DoubledNothing();
  }

  lemma {:induction false} EscapedConcat(x: bytes, y: bytes)
    ensures Escaped(COMMA, x + y) == Escaped(COMMA, x) + Escaped(COMMA, y)
    decreases |x|
  {
    hide Escaped;
    if x == [] {
      assert x + y == y;
      EscapedEmpty(COMMA);
    } else {
      Cons(x);
      assert x + y == [x[0]] + (x[1..] + y);
      EscapedCons(COMMA, x[0], x[1..] + y);
      EscapedCons(COMMA, x[0], x[1..]);
      EscapedConcat(x[1..], y);
    }
  }

  lemma {:induction false} EscapedInert(x: bytes)
    requires COMMA !in x && BACKSLASH !in x
    ensures Escaped(COMMA, x) == x
  {
    hide Escaped;
    if x == [] {
      EscapedEmpty(COMMA);
    } else {
      Cons(x);
      EscapedCons(COMMA, x[0], x[1..]);
      EscapedInert(x[1..]);
    }
  }

  lemma EscapedStart(x: bytes)
    ensures x == [] ==> Escaped(COMMA, x) == []
    ensures x != [] && x[0] == SLASH ==> Escaped(COMMA, x) != [] && Escaped(COMMA, x)[0] == SLASH
  {
    hide Escaped;
    EscapedEmpty(COMMA);
    if x != [] {
      Cons(x);
      EscapedCons(COMMA, x[0], x[1..]);
    }
  }

  lemma HomeReferenceEscaped()
    ensures Escaped(COMMA, HOME_REFERENCE) == HOME_REFERENCE
  {
    hide Escaped;
    EscapedInert(HOME_REFERENCE);
  }

  /** One item, in front of the next or the end. */
  lemma ExpandItem(env: Environment, path: bytes, rest: bytes)
    requires rest == [] || rest[0] == COMMA
    ensures Expanded(env, Escaped(COMMA, Translated(env, path)) + rest) == Shown(env, path) + Expanded(env, rest)
  {
    hide Expanded, Escaped, Doubled, Abbreviated, Tail;
    if Abbreviated(env, path) {
      var h := TailOf(env, path);
      var t := Tail(env, path);
      HomeReferenceEscaped();
      EscapedConcat(HOME_REFERENCE, Doubled(t));
      var e := Escaped(COMMA, Doubled(t));
      DoubledStart(t);
      EscapedStart(Doubled(t));
      assert e + rest == [] || !env.InName((e + rest)[0]);
      ConcatAssociative(HOME_REFERENCE, e, rest);
      ExpandHome(env, e + rest);
      ExpandEscaped(env, t, rest);
      ConcatAssociative(HomeDir(env), Escaped(COMMA, t), Expanded(env, rest));
    } else {
      PlainTranslation(env, path);
      ExpandEscaped(env, path, rest);
    }
  }

  lemma PlainTranslation(env: Environment, path: bytes)
    requires !Abbreviated(env, path)
    ensures Translated(env, path) == Doubled(path)
  {
    DoubledNothing();
  }

  lemma {:induction false} ExpandList(env: Environment, list: seq<bytes>)
    requires list != []
    ensures Expanded(env, Separated(AllTranslated(env, list))) == AllShown(env, list)
    decreases |list|
  {
    hide Expanded, Escaped, Translated, Shown;
    var ts := AllTranslated(env, list);
    assert ts[0] == Translated(env, list[0]) && ts[1..] == AllTranslated(env, list[1..]);
    ExpandedNothing(env);
    if |list| == 1 {
      ExpandItem(env, list[0], []);
      assert Escaped(COMMA, ts[0]) + [] == Escaped(COMMA, ts[0]) && Shown(env, list[0]) + [] == Shown(env, list[0]);
    } else {
      var more := Separated(ts[1..]);
      ExpandItem(env, list[0], [COMMA] + more);
      ExpandList(env, list[1..]);
      ExpandedStep(env, COMMA, more);
      ConcatAssociative(Escaped(COMMA, ts[0]), [COMMA], more);
      ConcatAssociative(Shown(env, list[0]), [COMMA], AllShown(env, list[1..]));
    }
  }

  // ---------------------------------------------------------------------------
  // Faithful lists
  // ---------------------------------------------------------------------------

  /** The home directory does no harm to this path. */
  predicate Faithful(env: Environment, path: bytes) {
    Abbreviated(env, path) ==> Inert(HomeDir(env))
  }

  lemma ShownFaithful(env: Environment, path: bytes)
    requires Faithful(env, path)
    ensures Shown(env, path) == Escaped(COMMA, path)
  {
    hide Escaped, Doubled, Tail, Abbreviated;
    if Abbreviated(env, path) {
      var h := TailOf(env, path);
      DoubledDollar(h);
      DoubledLength(h);
      EscapedInert(h);
      EscapedConcat(h, Tail(env, path));
    }
  }

  lemma {:induction false} AllFaithful(env: Environment, list: seq<bytes>)
    requires list != [] && forall i :: 0 <= i < |list| ==> Faithful(env, list[i])
    ensures AllShown(env, list) == Separated(list)
    decreases |list|
  {
    hide Escaped, Shown, Faithful;
    ShownFaithful(env, list[0]);
    if |list| <= 1 {
    } else {
      AllFaithful(env, list[1..]);
    }
  }

  // ---------------------------------------------------------------------------
  // Lists that are read back differently
  // ---------------------------------------------------------------------------

  /** How many times c stands at the start. */
  function Leading(c: byte, s: bytes): nat {
    if s == [] || s[0] != c then 0 else 1 + Leading(c, s[1..])
  }

  function FirstPiece(s: bytes): bytes {
    Pieces(COMMA, s)[0]
  }

  lemma FirstPieceStep(b: byte, s: bytes)
    ensures b != BACKSLASH && b != COMMA ==> FirstPiece([b] + s) == [b] + FirstPiece(s)
    ensures FirstPiece([BACKSLASH, b] + s) == [b] + FirstPiece(s)
    ensures FirstPiece([COMMA] + s) == []
  {
    hide Pieces;
    PiecesStep(COMMA, b, s);
  }

  lemma LeadingStep(c: byte, b: byte, s: bytes)
    ensures Leading(c, [b] + s) == if b == c then 1 + Leading(c, s) else 0
  {
    assert ([b] + s)[1..] == s;
  }

  /** What follows in the text, whether it belongs to the path or not. */
  predicate Harmless(w: bytes) {
    w == [] || w[0] == SLASH || w[0] == COMMA
  }

  lemma {:induction false} LeadingConcat(c: byte, h: bytes, w: bytes)
    requires Harmless(w) && (c == DOLLAR || c == BACKSLASH)
    ensures Leading(c, h + w) == Leading(c, h)
  {
    hide Leading;
    LeadingNothing(c);
    if h == [] {
      assert h + w == w;
      if w != [] {
        Cons(w);
        LeadingStep(c, w[0], w[1..]);
      }
    } else {
      Cons(h);
      assert h + w == [h[0]] + (h[1..] + w);
      LeadingStep(c, h[0], h[1..] + w);
      LeadingStep(c, h[0], h[1..]);
      LeadingConcat(c, h[1..], w);
    }
  }

  lemma LeadingNothing(c: byte)
    ensures Leading(c, []) == 0
  {
  }

  /** A run of dollars is read back twice as long. */
  lemma {:induction false} LeadingDollars(h: bytes, w: bytes)
    ensures Leading(DOLLAR, FirstPiece(Doubled(h) + w)) >= 2 * Leading(DOLLAR, h)
  {
    hide FirstPiece, Leading, Doubled;
    LeadingNothing(DOLLAR);
    if h == [] {
    } else {
      Cons(h);
      DoubledCons(h[0], h[1..]);
      LeadingStep(DOLLAR, h[0], h[1..]);
      if h[0] == DOLLAR {
        var t := Doubled(h[1..]) + w;
        assert Doubled(h) + w == [DOLLAR] + ([DOLLAR] + t);
        FirstPieceStep(DOLLAR, [DOLLAR] + t);
        FirstPieceStep(DOLLAR, t);
        LeadingStep(DOLLAR, DOLLAR, FirstPiece([DOLLAR] + t));
        LeadingStep(DOLLAR, DOLLAR, FirstPiece(t));
        LeadingDollars(h[1..], w);
      }
    }
  }

  /** A run of backslashes is read back half as long. */
  lemma {:induction false} LeadingBackslashes(h: bytes, w: bytes)
    requires Harmless(w)
    ensures Leading(BACKSLASH, FirstPiece(Doubled(h) + w)) == Leading(BACKSLASH, h) / 2
    decreases |h|
  {
    hide FirstPiece, Leading, Doubled;
    LeadingNothing(BACKSLASH);
    DoubledStart(h);
    if h == [] || h[0] != BACKSLASH {
      if h != [] {
        Cons(h);
        LeadingStep(BACKSLASH, h[0], h[1..]);
      }
      NoLeadingBackslash(Doubled(h) + w);
    } else {
      Cons(h);
      DoubledCons(BACKSLASH, h[1..]);
      LeadingStep(BACKSLASH, BACKSLASH, h[1..]);
      var t := Doubled(h[1..]) + w;
      assert Doubled(h) + w == [BACKSLASH] + t;
      DoubledStart(h[1..]);
      if |h| >= 2 && h[1] == BACKSLASH {
        var k := h[2..];
        assert h[1..] == [BACKSLASH] + k;
        DoubledCons(BACKSLASH, k);
        LeadingStep(BACKSLASH, BACKSLASH, k);
        var u := Doubled(k) + w;
        assert Doubled(h) + w == [BACKSLASH, BACKSLASH] + u;
        FirstPieceStep(BACKSLASH, u);
        LeadingStep(BACKSLASH, BACKSLASH, FirstPiece(u));
        LeadingBackslashes(k, w);
      } else {
        if |h| >= 2 {
          LeadingStep(BACKSLASH, h[1], h[2..]);
          assert h[1..] == [h[1]] + h[2..];
        }
        QuotedOther(t);
      }
    }
  }

  lemma NoLeadingBackslash(s: bytes)
    requires s == [] || s[0] != BACKSLASH
    ensures Leading(BACKSLASH, FirstPiece(s)) == 0
  {
    hide Pieces;
    if s == [] {
      NoPieces(COMMA);
    } else {
      Cons(s);
      FirstPieceStep(s[0], s[1..]);
    }
  }

  lemma QuotedOther(t: bytes)
    requires t == [] || t[0] != BACKSLASH
    ensures Leading(BACKSLASH, FirstPiece([BACKSLASH] + t)) == 0
  {
    hide Pieces;
    if t == [] {
      LoneBackslash();
      assert [BACKSLASH] + t == [BACKSLASH];
    } else {
      Cons(t);
      assert [BACKSLASH] + t == [BACKSLASH, t[0]] + t[1..];
      FirstPieceStep(t[0], t[1..]);
    }
  }

  lemma LoneBackslash()
    ensures Pieces(COMMA, [BACKSLASH]) == [[]]
  {
  }

  /** An abbreviated path is read back differently if the home directory is not inert: r is its
      tail, and tail is what follows the item in the list. */
  lemma {:induction false} ReadDifferently(h: bytes, r: bytes, tail: bytes)
    requires !Inert(h) && (r == [] || r[0] == SLASH) && (tail == [] || tail[0] == COMMA)
    ensures FirstPiece(Doubled(h) + (Escaped(COMMA, r) + tail)) != h + r
    decreases |h|
  {
    hide FirstPiece, Leading, Doubled, Escaped;
    var w := Escaped(COMMA, r) + tail;
    EscapedStart(r);
    assert h != [];
    Cons(h);
    var b, k := h[0], h[1..];
    DoubledCons(b, k);
    if b == DOLLAR {
      LeadingStep(DOLLAR, DOLLAR, k);
      LeadingDollars(h, w);
      LeadingConcat(DOLLAR, h, r);
    } else if b == BACKSLASH {
      LeadingStep(BACKSLASH, BACKSLASH, k);
      LeadingBackslashes(h, w);
      LeadingConcat(BACKSLASH, h, r);
    } else {
      assert Doubled(h) + w == [b] + (Doubled(k) + w);
      FirstPieceStep(b, Doubled(k) + w);
      if b != COMMA {
        ReadDifferently(k, r, tail);
        DifferentTail(b, FirstPiece(Doubled(k) + w), k + r);
        assert h + r == [b] + (k + r);
      }
    }
  }

  lemma DifferentTail(b: byte, x: bytes, y: bytes)
    requires x != y
    ensures [b] + x != [b] + y
  {
    if [b] + x == [b] + y {
      SameTail([b], x, y);
    }
  }

  /** The first item that is not faithful spoils the list. */
  lemma {:induction false} NotFaithful(env: Environment, list: seq<bytes>, i: nat)
    requires i < |list| && !Faithful(env, list[i])
    ensures Pieces(COMMA, AllShown(env, list)) != list
    decreases |list|
  {
    hide Shown, Pieces, Escaped, Faithful;
    var more := if |list| == 1 then [] else [COMMA] + AllShown(env, list[1..]);
    assert AllShown(env, list) == Shown(env, list[0]) + more by {
      assert Shown(env, list[0]) + [] == Shown(env, list[0]);
      if |list| > 1 {
        ConcatAssociative(Shown(env, list[0]), [COMMA], AllShown(env, list[1..]));
      }
    }
    if !Faithful(env, list[0]) {
      ItemReadDifferently(env, list[0], more);
    } else {
      ShownFaithful(env, list[0]);
      NotFaithful(env, list[1..], i - 1);
      ConcatAssociative(Escaped(COMMA, list[0]), [COMMA], AllShown(env, list[1..]));
      ReadItem(COMMA, list[0], AllShown(env, list[1..]));
      var pieces := Pieces(COMMA, AllShown(env, list[1..]));
      assert ([list[0]] + pieces)[1..] == pieces;
    }
  }

  lemma ItemReadDifferently(env: Environment, path: bytes, more: bytes)
    requires !Faithful(env, path) && (more == [] || more[0] == COMMA)
    ensures FirstPiece(Shown(env, path) + more) != path
  {
    hide FirstPiece, Escaped, Doubled, Tail, Abbreviated;
    var h := TailOf(env, path);
    DoubledDollar(h);
    var t := Tail(env, path);
    ConcatAssociative(HomeDir(env), Escaped(COMMA, t), more);
    ReadDifferently(h, t, more);
  }

  // ---------------------------------------------------------------------------
  // The theorem
  // ---------------------------------------------------------------------------

  lemma TranslatedEmpty(env: Environment, list: seq<bytes>)
    requires list != []
    ensures Separated(AllTranslated(env, list)) == [] <==> list == [[]]
    ensures Separated(AllTranslated(env, list)) != EMPTY_ITEM
  {
    hide Separated, Translated;
    var ts := AllTranslated(env, list);
    NotEmptyItem(ts);
    assert ts[0] == Translated(env, list[0]);
    assert list == [[]] <==> |list| == 1 && list[0] == [];
    TranslatesToEmpty(env, list[0]);
  }

  lemma TranslatesToEmpty(env: Environment, path: bytes)
    ensures Translated(env, path) == [] <==> path == []
  {
    hide Replaced;
    DoubledStart(path);
  }

  lemma AllShownNotSpecial(env: Environment, list: seq<bytes>, i: nat)
    requires i < |list| && !Faithful(env, list[i])
    ensures AllShown(env, list) != [] && AllShown(env, list) != EMPTY_ITEM
  {
    hide Escaped, Doubled, Tail, Abbreviated;
    if Abbreviated(env, list[0]) {
      var h := TailOf(env, list[0]);
      DoubledStart(h);
      assert AllShown(env, list)[0] == SLASH;
    } else {
      assert |list| > 1;
      assert COMMA in AllShown(env, list);
    }
  }

  lemma ExpandedEmptyItem(env: Environment)
    ensures Expanded(env, EMPTY_ITEM) == EMPTY_ITEM
  {
    hide Expanded;
    NothingToExpand(env, EMPTY_ITEM);
  }

  /** For every list but the empty one, reading it inverts writing it exactly if no path in it
      is abbreviated or the home directory contains none of `$`, `,` and `\`. The empty list is
      not stored at all. */
  lemma PathListRoundTrip(env: Environment, list: seq<bytes>)
    ensures list != [] ==>
              (ReadPaths(env, WrittenPaths(env, list).Chars()) == list <==>
               Inert(HomeDir(env)) || forall i :: 0 <= i < |list| ==> !Abbreviated(env, list[i]))
    ensures WrittenPaths(env, list) == Null <==> list == []
  {
    hide Expanded, Separated, AllShown, Pieces, Abbreviated, Inert, Escaped;
    if list == [[]] {
      TranslatedEmpty(env, list);
      ExpandedEmptyItem(env);
      EmptyIsRelative(env);
    } else if list != [] {
      TranslatedEmpty(env, list);
      ExpandList(env, list);
      if forall i :: 0 <= i < |list| ==> Faithful(env, list[i]) {
        AllFaithful(env, list);
        NotEmptyItem(list);
        ReadSeparated(list);
      } else {
        var i :| 0 <= i < |list| && !Faithful(env, list[i]);
        NotFaithful(env, list, i);
        AllShownNotSpecial(env, list, i);
      }
    }
  }

  lemma EmptyIsRelative(env: Environment)
    ensures !Abbreviated(env, [])
  {
    DoubledNothing();
  }
}
