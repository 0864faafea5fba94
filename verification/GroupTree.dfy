/** Group names as paths: their components are joined by the separator, and the queries about
    groups agree with each other (src/core/kconfig.cpp:140-145, 310-378). */
module GroupTree {
  import opened Bytes
  import opened PathComponents
  import opened EntryMap
  import opened Immutability
  import opened IniParser
  import opened Scans

  // ---------------------------------------------------------------------------
  // Paths
  // ---------------------------------------------------------------------------

  /** isGroupOrSubGroupMatch; the source asserts that e starts with g. */
  predicate IsGroupOrSubGroupMatch(e: bytes, g: bytes)
    requires g <= e
  {
    |e| == |g| || e[|g|] == SEPARATOR
  }

  /** The entry's group is g or lies below it. */
  predicate Within(e: bytes, g: bytes) {
    g <= e && IsGroupOrSubGroupMatch(e, g)
  }

  /** The test with the separator behind the prefix is exactly the path prefix relation. */
  lemma WithinIsPathPrefix(e: bytes, g: bytes)
    ensures Within(e, g) <==> Components(SEPARATOR, g) <= Components(SEPARATOR, e)
  {
    hide Components;
    BelowIsPathPrefix(SEPARATOR, e, g);
  }

  // ---------------------------------------------------------------------------
  // Queries
  // ---------------------------------------------------------------------------

  /** isNonDeletedKey. */
  predicate IsNonDeletedKey(m: Entries, k: KEntryKey)
    requires k in m
  {
    k.mKey != [] && !m[k].bDeleted
  }

  /** hasNonDeletedEntries. */
  ghost predicate HasNonDeletedEntries(m: Entries, g: bytes) {
    exists k :: k in m && Within(k.mGroup, g) && IsNonDeletedKey(m, k)
  }

  /** The component behind the first n characters. */
  function ComponentFrom(g: bytes, n: nat): (r: bytes)
    requires n <= |g|
    ensures SEPARATOR !in r
  {
    var e := IndexOf(g[n..], SEPARATOR);
    if e < 0 then g[n..] else g[n..][..e]
  }

  /** groupList of a group: the components behind it. */
  function GroupList(m: Entries, g: bytes): set<bytes> {
    set k | k in m && g + [SEPARATOR] <= k.mGroup && IsNonDeletedKey(m, k) :: ComponentFrom(k.mGroup, |g| + 1)
  }

  const VERSION_GROUP: bytes := [36, 86, 101, 114, 115, 105, 111, 110] // "$Version"

  predicate Ordinary(g: bytes) {
    g != [] && g != DEFAULT_GROUP && g != VERSION_GROUP
  }

  /** groupList of a file. */
  function TopGroups(m: Entries): set<bytes> {
    set k | k in m && IsNonDeletedKey(m, k) && Ordinary(k.mGroup) :: ComponentFrom(k.mGroup, 0)
  }

  /** allSubGroups. */
  function AllSubGroups(m: Entries, g: bytes): set<bytes> {
    set k | k in m && k.mKey == [] && Within(k.mGroup, g) :: k.mGroup
  }

  lemma ComponentWithin(e: bytes, p: bytes, c: bytes)
    requires p <= e
    ensures ComponentFrom(e, |p|) == c <==> SEPARATOR !in c && Within(e, p + c)
  {
    hide Components;
    var tail := e[|p|..];
    assert e == p + tail;
    var i := IndexOf(tail, SEPARATOR);
    WithinTail(p, tail, c);
    if i < 0 {
      BelowPlain(SEPARATOR, c, tail);
    } else {
      SplitAt(tail, i);
      if SEPARATOR !in c {
        BelowFirst(SEPARATOR, c, tail[..i], tail[i + 1..]);
      }
    }
  }

  lemma WithinTail(p: bytes, tail: bytes, c: bytes)
    ensures Within(p + tail, p + c) <==> Within(tail, c)
  {
    if c <= tail {
      assert (p + tail)[..|p + c|] == p + c;
      assert |tail| > |c| ==> (p + tail)[|p + c|] == tail[|c|];
    }
    if p + c <= p + tail {
      assert c == (p + c)[|p|..];
      assert tail == (p + tail)[|p|..];
      assert tail[..|c|] == (p + tail)[|p|..|p + c|];
    }
  }

  /** The subgroups that are listed are the ones that exist. */
  lemma GroupListAgrees(m: Entries, g: bytes, c: bytes)
    ensures c in GroupList(m, g) <==> SEPARATOR !in c && HasNonDeletedEntries(m, g + [SEPARATOR] + c)
  {
    hide IndexOf, ComponentFrom;
    var p := g + [SEPARATOR];
    forall k | k in m
      ensures p <= k.mGroup ==> (ComponentFrom(k.mGroup, |p|) == c <==> SEPARATOR !in c && Within(k.mGroup, p + c))
      ensures Within(k.mGroup, p + c) ==> p <= k.mGroup
    {
      if p <= k.mGroup {
        ComponentWithin(k.mGroup, p, c);
      }
      if Within(k.mGroup, p + c) {
        assert (p + c)[..|p|] == p;
      }
    }
  }

  /** The same for the file; the default group and the version group do not count themselves. */
  lemma TopGroupsAgree(m: Entries, c: bytes)
    ensures c in TopGroups(m) <==>
            SEPARATOR !in c && exists k :: k in m && Within(k.mGroup, c) && IsNonDeletedKey(m, k) && Ordinary(k.mGroup)
    ensures Ordinary(c) ==> (c in TopGroups(m) <==> SEPARATOR !in c && HasNonDeletedEntries(m, c))
  {
    hide IndexOf, ComponentFrom;
    forall k | k in m
      ensures ComponentFrom(k.mGroup, 0) == c <==> SEPARATOR !in c && Within(k.mGroup, c)
      ensures Ordinary(c) && Within(k.mGroup, c) ==> Ordinary(k.mGroup)
    {
      ComponentWithin(k.mGroup, [], c);
      assert [] + c == c;
      if Ordinary(c) && Within(k.mGroup, c) {
        OrdinaryBelow(k.mGroup, c);
      }
    }
  }

  lemma OrdinaryBelow(e: bytes, c: bytes)
    requires Ordinary(c) && Within(e, c)
    ensures Ordinary(e)
  {
    assert SEPARATOR !in DEFAULT_GROUP && SEPARATOR !in VERSION_GROUP;
  }

  /** The group is c, or c is its first component. */
  predicate StartsWith(g: bytes, c: bytes) {
    0x1d !in c && (g == c || c + [0x1d] <= g)
  }

  lemma FirstComponentIs(g: bytes, c: bytes)
    ensures ComponentFrom(g, 0) == c <==> StartsWith(g, c)
  {
    hide IndexOf;
    assert g[0..] == g;
    var e := IndexOf(g, SEPARATOR);
    if e >= 0 {
      SplitAt(g, e);
    }
    if c + [0x1d] <= g {
      var rest := g[|c| + 1..];
      assert g == c + [SEPARATOR] + rest;
      if SEPARATOR !in c {
        IndexOfConcat(c, SEPARATOR, rest);
      }
    }
  }

  lemma SpecialGroups()
    ensures Ascii("<default>") == DEFAULT_GROUP && Ascii("$Version") == VERSION_GROUP
  {
  }

  /** What a file lists: the first components of the groups that have a key which is not
      deleted, the three groups that are none of the user's aside. */
  lemma TopGroupsExact(m: Entries, c: bytes)
    ensures c in TopGroups(m) <==>
            exists k :: k in m && k.mKey != [] && !m[k].bDeleted && StartsWith(k.mGroup, c)
                        && k.mGroup != [] && k.mGroup != Ascii("<default>") && k.mGroup != Ascii("$Version")
  {
    hide IndexOf, ComponentFrom, StartsWith, Ascii;
    SpecialGroups();
    forall k | k in m
      ensures ComponentFrom(k.mGroup, 0) == c <==> StartsWith(k.mGroup, c)
    {
      FirstComponentIs(k.mGroup, c);
    }
  }

  /** A file with nothing but these groups lists nothing. */
  lemma NothingListed(m: Entries)
    requires forall k :: k in m && k.mKey != [] && !m[k].bDeleted ==>
                           k.mGroup in {[], Ascii("<default>"), Ascii("$Version")}
    ensures TopGroups(m) == {}
  {
    hide Ascii, StartsWith, ComponentFrom;
    if c :| c in TopGroups(m) {
      TopGroupsExact(m, c);
    }
  }

  /** In a well kept map the subgroups are the groups of all entries below the parent, deleted
      ones included. */
  lemma AllSubGroupsExact(m: Entries, g: bytes, e: bytes)
    requires WellKept(m)
    ensures e in AllSubGroups(m, g) <==>
            Components(SEPARATOR, g) <= Components(SEPARATOR, e) && exists k :: k in m && k.mGroup == e
  {
    hide Components, Within;
    WithinIsPathPrefix(e, g);
    if Within(e, g) && exists k :: k in m && k.mGroup == e {
      var k :| k in m && k.mGroup == e;
      assert Marker(e) in m;
    }
  }
}
