/** Paths and lists of paths as values: they are written with `$` doubled and the home directory
    as $HOME, and a list is expanded as a whole before it is split
    (src/core/kconfiggroup.cpp:401-452, 778-807, 1070-1095, src/core/kconfig.cpp:192-251).
    No path starts with "file:". */
module Paths {
  import opened Bytes
  import opened Lists
  import opened Expand

  const HOME_REFERENCE: bytes := [DOLLAR, 72, 79, 77, 69] // "$HOME"

  function Doubled(s: bytes): bytes {
    Replaced(s, DOLLAR, [DOLLAR, DOLLAR])
  }

  /** The condition under which cleanHomeDirPath abbreviates. */
  predicate InHome(path: bytes, home: bytes) {
    home <= path && home != [] && (|path| == |home| || path[|home|] == SLASH)
  }

  /** cleanHomeDirPath. */
  function CleanHomeDirPath(path: bytes, home: bytes): bytes {
    if InHome(path, home) then HOME_REFERENCE + path[|home|..] else path
  }

  predicate IsRelativePath(path: bytes) {
    path == [] || path[0] != SLASH
  }

  function HomeDir(env: Environment): bytes {
    env.Value(HOME)
  }

  /** The path will be written with $HOME. */
  predicate Abbreviated(env: Environment, path: bytes) {
    !IsRelativePath(Doubled(path)) && InHome(Doubled(path), HomeDir(env))
  }

  /** translatePath. */
  function Translated(env: Environment, path: bytes): bytes {
    if path == [] then path
    else if IsRelativePath(Doubled(path)) then Doubled(path)
    else CleanHomeDirPath(Doubled(path), HomeDir(env))
  }

  function AllTranslated(env: Environment, list: seq<bytes>): (r: seq<bytes>)
    ensures |r| == |list|
  {
    if list == [] then [] else [Translated(env, list[0])] + AllTranslated(env, list[1..])
  }

  /** The value that writePathEntry stores, and what readPathEntry makes of it. */
  function WrittenPaths(env: Environment, list: seq<bytes>): QByteArray {
    Serialize(AllTranslated(env, list))
  }

  function ReadPaths(env: Environment, value: bytes): seq<bytes> {
    Deserialize(Expanded(env, value))
  }

  // ---------------------------------------------------------------------------
  // Doubling
  // ---------------------------------------------------------------------------

  lemma DoubledCons(b: byte, s: bytes)
    ensures Doubled([b] + s) == (if b == DOLLAR then [DOLLAR, DOLLAR] else [b]) + Doubled(s)
  {
    ReplacedCons(b, s, DOLLAR, [DOLLAR, DOLLAR]);
  }

  lemma DoubledNothing()
    ensures Doubled([]) == []
  {
  }

  lemma {:induction false} DoubledLength(s: bytes)
    ensures |Doubled(s)| >= |s|
    ensures Doubled(s) == s <==> DOLLAR !in s
  {
    hide Replaced;
    if s == [] {
      DoubledNothing();
    } else {
      Cons(s);
      DoubledCons(s[0], s[1..]);
      DoubledLength(s[1..]);
      if s[0] != DOLLAR && DOLLAR !in s[1..] {
        assert DOLLAR !in s;
      }
      if Doubled(s) == s {
        assert s[0] != DOLLAR;
        assert Doubled(s)[1..] == Doubled(s[1..]);
      }
    }
  }

  /** A string that was doubled in front of something that is not a `$` was doubled there. */
  lemma {:induction false} SplitDoubled(s: bytes, a: bytes, t: bytes) returns (h: bytes, r: bytes)
    requires Doubled(s) == a + t && (t == [] || t[0] != DOLLAR)
    ensures s == h + r && a == Doubled(h) && t == Doubled(r)
    decreases |s|
  {
    hide Replaced;
    DoubledNothing();
    if a == [] {
      h, r := [], s;
      assert a + t == t;
    } else {
      assert (a + t)[0] == a[0];
      var d, n := Doubled(s[1..]), if s[0] == DOLLAR then 2 else 1;
      Cons(s);
      DoubledCons(s[0], s[1..]);
      assert (a + t)[0] == a[0] == s[0];
      assert t != [] ==> (a + t)[|a|] == t[0];
      assert (a + t)[n..] == a[n..] + t == d;
      h, r := SplitDoubled(s[1..], a[n..], t);
      DoubledCons(s[0], h);
      h := [s[0]] + h;
      assert a == a[..n] + a[n..] && a[..n] == (a + t)[..n];
    }
  }

  /** The path h + r that is abbreviated at h. */
  lemma SplitAbbreviated(env: Environment, path: bytes) returns (h: bytes, r: bytes)
    requires Abbreviated(env, path)
    ensures path == h + r && HomeDir(env) == Doubled(h) && Translated(env, path) == HOME_REFERENCE + Doubled(r)
    ensures r == [] || r[0] == SLASH
    ensures h != [] && h[0] == SLASH
  {
    hide Replaced;
    var p, home := Doubled(path), HomeDir(env);
    var t := p[|home|..];
    assert p == home + t;
    h, r := SplitDoubled(path, home, t);
    DoubledNothing();
    DoubledStart(r);
    DoubledStart(h);
  }

  lemma DoubledStart(s: bytes)
    ensures s != [] ==> Doubled(s) != [] && Doubled(s)[0] == s[0]
    ensures s == [] ==> Doubled(s) == []
  {
  }

  // ---------------------------------------------------------------------------
  // One path
  // ---------------------------------------------------------------------------

  lemma {:induction false} ExpandDoubled(env: Environment, s: bytes)
    ensures Expanded(env, Doubled(s)) == s
  {
    hide Expanded, Replaced;
    if s == [] {
      DoubledNothing();
      ExpandedNothing(env);
    } else {
      Cons(s);
      DoubledCons(s[0], s[1..]);
      ExpandedStep(env, s[0], Doubled(s[1..]));
      ExpandDoubled(env, s[1..]);
    }
  }

  /** $HOME in front of something that does not continue the name. */
  lemma ExpandHome(env: Environment, rest: bytes)
    requires rest == [] || !env.InName(rest[0])
    ensures Expanded(env, HOME_REFERENCE + rest) == HomeDir(env) + Expanded(env, rest)
  {
    hide Expanded;
    var s := HOME_REFERENCE + rest;
    HomeName(env, rest);
    assert s[0..] == s && s[5..] == rest;
    DollarAt(env, s, 0);
  }

  lemma HomeName(env: Environment, rest: bytes)
    requires rest == [] || !env.InName(rest[0])
    ensures var s := HOME_REFERENCE + rest; ReferenceAt(env, s) == Reference(HOME, 5)
  {
    var s := HOME_REFERENCE + rest;
    hide NameLength;
    assert s[1..] == HOME + rest;
    NameBefore(env, HOME, rest);
    assert (HOME + rest)[..4] == HOME;
  }

  lemma {:induction false} NameBefore(env: Environment, name: bytes, rest: bytes)
    requires forall i :: 0 <= i < |name| ==> env.InName(name[i])
    requires rest == [] || !env.InName(rest[0])
    ensures NameLength(env, name + rest) == |name|
    decreases |name|
  {
    if name == [] {
      assert name + rest == rest;
    } else {
      assert (name + rest)[1..] == name[1..] + rest;
      NameBefore(env, name[1..], rest);
    }
  }

  /** Reading one path inverts writing it unless it is abbreviated and the home directory
      contains a `$`. */
  lemma PathRoundTrip(env: Environment, path: bytes)
    ensures Expanded(env, Translated(env, path)) == path <==> !(Abbreviated(env, path) && DOLLAR in HomeDir(env))
  {
    hide Expanded, Replaced;
    if Abbreviated(env, path) {
      var h, r := SplitAbbreviated(env, path);
      DoubledStart(r);
      ExpandHome(env, Doubled(r));
      ExpandDoubled(env, r);
      DoubledLength(h);
      SameFront(HomeDir(env), h, r);
      DoubledDollar(h);
    } else {
      ExpandDoubled(env, path);
      DoubledNothing();
    }
  }

  lemma SameFront(a: bytes, b: bytes, r: bytes)
    ensures a + r == b + r <==> a == b
  {
    if a + r == b + r {
      assert |a| == |b|;
      assert a == (a + r)[..|a|] && b == (b + r)[..|b|];
    }
  }

  lemma {:induction false} DoubledDollar(s: bytes)
    ensures DOLLAR in Doubled(s) <==> DOLLAR in s
    ensures COMMA in Doubled(s) <==> COMMA in s
    ensures BACKSLASH in Doubled(s) <==> BACKSLASH in s
  {
    hide Replaced;
    if s == [] {
      DoubledNothing();
    } else {
      Cons(s);
      DoubledCons(s[0], s[1..]);
      DoubledDollar(s[1..]);
    }
  }
}
