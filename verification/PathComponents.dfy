/** Names as paths: components with a separator between them. Group names are such paths, and
    so are file names. */
module PathComponents {
  import opened Bytes

  /** The components of a name. */
  function Components(sep: byte, g: bytes): (r: seq<bytes>)
    ensures r != []
    decreases |g|
  {
    var e := IndexOf(g, sep);
    if e < 0 then [g] else [g[..e]] + Components(sep, g[e + 1..])
  }

  /** The name is g or lies below it. */
  predicate AtOrBelow(sep: byte, e: bytes, g: bytes) {
    g <= e && (|e| == |g| || e[|g|] == sep)
  }

  lemma FirstComponent(sep: byte, c: bytes, rest: bytes)
    requires sep !in c
    ensures Components(sep, c) == [c]
    ensures Components(sep, c + [sep] + rest) == [c] + Components(sep, rest)
  {
    var g := c + [sep] + rest;
    IndexOfConcat(c, sep, rest);
    assert g[..|c|] == c && g[|c| + 1..] == rest;
  }

  /** A name is one component, or one component and a rest. */
  lemma Split(sep: byte, g: bytes) returns (c: bytes, rest: bytes)
    ensures sep !in c
    ensures sep !in g ==> c == g
    ensures sep in g ==> g == c + [sep] + rest && |rest| < |g|
  {
    var e := IndexOf(g, sep);
    if e < 0 {
      c, rest := g, [];
    } else {
      c, rest := g[..e], g[e + 1..];
      SplitAt(g, e);
    }
  }

  /** The test with the separator behind the prefix is exactly the path prefix relation. */
  lemma {:induction false} BelowIsPathPrefix(sep: byte, e: bytes, g: bytes)
    ensures AtOrBelow(sep, e, g) <==> Components(sep, g) <= Components(sep, e)
    decreases |g|
  {
    hide Components, IndexOf, AtOrBelow;
    var c, rest := Split(sep, g);
    var d, more := Split(sep, e);
    FirstComponent(sep, c, rest);
    FirstComponent(sep, d, more);
    if sep in g && sep in e {
      BelowIsPathPrefix(sep, more, rest);
      BelowBoth(sep, c, rest, d, more);
      PrefixOfCons(c, Components(sep, rest), d, Components(sep, more));
    } else if sep in g {
      BelowSingle(sep, g, c, rest, e);
      PrefixOfCons(c, Components(sep, rest), d, []);
    } else if sep in e {
      BelowFirst(sep, g, d, more);
      PrefixOfCons(c, [], d, Components(sep, more));
    } else {
      BelowPlain(sep, g, e);
      PrefixOfCons(c, [], d, []);
    }
  }

  lemma PrefixOfCons(c: bytes, s: seq<bytes>, d: bytes, t: seq<bytes>)
    ensures [c] + s <= [d] + t <==> c == d && s <= t
    ensures [c] <= [d] + t <==> c == d
  {
    if [c] + s <= [d] + t {
      assert ([c] + s)[0] == ([d] + t)[0];
      assert ([c] + s)[1..] == s && ([d] + t)[1..] == t;
    }
    if c == d && s <= t {
      assert ([d] + t)[1..] == t;
    }
    assert ([d] + t)[0] == d;
  }

  lemma BelowPlain(sep: byte, g: bytes, e: bytes)
    requires sep !in e
    ensures AtOrBelow(sep, e, g) <==> g == e
  {
  }

  /** Where two strings with the same prefix have their first separator. */
  lemma FirstSeparators(sep: byte, c: bytes, rest: bytes, d: bytes, more: bytes)
    requires sep !in c && sep !in d
    requires c + [sep] + rest <= d + [sep] + more
    ensures c == d && rest <= more
  {
    var g, e := c + [sep] + rest, d + [sep] + more;
    assert g[|c|] == sep && e[|d|] == sep && g == e[..|g|];
    assert forall i :: 0 <= i < |c| ==> e[i] == c[i];
    assert forall i :: 0 <= i < |d| ==> e[i] == d[i];
    assert c == g[..|c|] && d == e[..|d|];
    assert rest == g[|c| + 1..] && more == e[|d| + 1..];
  }

  lemma BelowBoth(sep: byte, c: bytes, rest: bytes, d: bytes, more: bytes)
    requires sep !in c && sep !in d
    ensures AtOrBelow(sep, d + [sep] + more, c + [sep] + rest) <==> c == d && AtOrBelow(sep, more, rest)
  {
    var g, e := c + [sep] + rest, d + [sep] + more;
    if g <= e {
      FirstSeparators(sep, c, rest, d, more);
      assert |e| > |g| ==> e[|g|] == more[|rest|];
    }
    if c == d && rest <= more {
      assert g == e[..|g|];
      assert |e| > |g| ==> e[|g|] == more[|rest|];
    }
  }

  lemma BelowSingle(sep: byte, g: bytes, c: bytes, rest: bytes, e: bytes)
    requires g == c + [sep] + rest && sep !in e
    ensures !AtOrBelow(sep, e, g)
  {
    assert g[|c|] == sep;
  }

  lemma BelowFirst(sep: byte, g: bytes, d: bytes, more: bytes)
    requires sep !in g && sep !in d
    ensures AtOrBelow(sep, d + [sep] + more, g) <==> g == d
  {
    var e := d + [sep] + more;
    assert e[|d|] == sep && e[..|d|] == d;
    if AtOrBelow(sep, e, g) {
      assert g == e[..|g|];
      assert forall i :: 0 <= i < |g| ==> e[i] == g[i];
      assert forall i :: 0 <= i < |d| ==> e[i] == d[i];
    }
  }

  lemma {:induction false} ComponentsConcat(sep: byte, a: bytes, b: bytes)
    ensures Components(sep, a + [sep] + b) == Components(sep, a) + Components(sep, b)
    decreases |a|
  {
    hide Components, IndexOf;
    var c, rest := Split(sep, a);
    FirstComponent(sep, c, rest);
    if sep in a {
      ComponentsConcat(sep, rest, b);
      FirstComponent(sep, c, rest + [sep] + b);
      assert a + [sep] + b == c + [sep] + (rest + [sep] + b);
      assert [c] + (Components(sep, rest) + Components(sep, b)) == [c] + Components(sep, rest) + Components(sep, b);
    } else {
      FirstComponent(sep, c, b);
    }
  }
}
