/** Scans of a part of the map: they start at a lower bound and stop at the first entry that
    does not belong, instead of filtering the whole map (src/core/kconfigdata_p.h:139-155,
    248-251, 343-374). The loops are methods of KEntryMap. */
module Scans {
  import opened Bytes
  import opened EntryMap
  import opened Immutability

  /** minimumGroupKeyView. */
  function MinimumGroupKey(g: bytes): KEntryKey {
    KEntryKey(g, [], true, false)
  }

  datatype Selection = GroupStartsWith(prefix: bytes) | OfGroup(group: bytes) {
    predicate Selects(k: KEntryKey) {
      match this
      case GroupStartsWith(p) => p <= k.mGroup
      case OfGroup(g) => k.mGroup == g && k.mKey != []
    }
  }

  function Filter(s: seq<KEntryKey>, sel: Selection): seq<KEntryKey> {
    if s == [] then []
    else (if sel.Selects(s[0]) then [s[0]] else []) + Filter(s[1..], sel)
  }

  lemma {:induction false} InFilter(s: seq<KEntryKey>, sel: Selection, k: KEntryKey)
    ensures k in Filter(s, sel) <==> k in s && sel.Selects(k)
  {
    if s == [] {
    } else {
      InFilter(s[1..], sel, k);
      assert s == [s[0]] + s[1..];
    }
  }

  /** The other end of the sequence. */
  lemma {:induction false} FilterLast(s: seq<KEntryKey>, k: KEntryKey, sel: Selection)
    ensures Filter(s + [k], sel) == Filter(s, sel) + if sel.Selects(k) then [k] else []
  {
    if s == [] {
      assert s + [k] == [k];
    } else {
      var h := if sel.Selects(s[0]) then [s[0]] else [];
      var t := if sel.Selects(k) then [k] else [];
      assert (s + [k])[1..] == s[1..] + [k] && (s + [k])[0] == s[0];
      FilterLast(s[1..], k, sel);
      assert h + (Filter(s[1..], sel) + t) == h + Filter(s[1..], sel) + t;
    }
  }

  /** One turn of a scan. */
  lemma FilterNext(s: seq<KEntryKey>, sel: Selection, n: nat)
    requires n < |s|
    ensures Filter(s[..n + 1], sel) == Filter(s[..n], sel) + if sel.Selects(s[n]) then [s[n]] else []
  {
    hide Filter;
    assert s[..n + 1] == s[..n] + [s[n]];
    FilterLast(s[..n], s[n], sel);
  }

  /** Where a scan may begin. */
  lemma {:induction false} FilterBegin(s: seq<KEntryKey>, sel: Selection, i: nat)
    requires i <= |s|
    requires forall j :: 0 <= j < i ==> !sel.Selects(s[j])
    ensures Filter(s[..i], sel) == []
    decreases i
  {
    hide Selection.Selects;
    if i == 0 {
    } else {
      FilterNext(s, sel, i - 1);
      FilterBegin(s, sel, i - 1);
    }
  }

  /** Where it may end. */
  lemma {:induction false} FilterEnd(s: seq<KEntryKey>, sel: Selection, n: nat)
    requires n <= |s|
    requires forall j :: n <= j < |s| ==> !sel.Selects(s[j])
    ensures Filter(s, sel) == Filter(s[..n], sel)
    decreases |s| - n
  {
    hide Filter, Selection.Selects;
    if n == |s| {
      assert s[..n] == s;
    } else {
      FilterNext(s, sel, n);
      FilterEnd(s, sel, n + 1);
    }
  }

  // ---------------------------------------------------------------------------
  // Groups that start with a prefix
  // ---------------------------------------------------------------------------

  /** Nothing with the prefix is below the minimum key of the prefix. */
  lemma PrefixAboveMinimum(p: bytes, k: KEntryKey)
    requires p <= k.mGroup
    ensures !Less(k, MinimumGroupKey(p))
  {
    PrefixNotBelow(p, k.mGroup);
  }

  /** Behind the minimum key, the first group without the prefix ends the groups that have it. */
  lemma PrefixEnds(p: bytes, k: KEntryKey, l: KEntryKey)
    requires !Less(k, MinimumGroupKey(p)) && Less(k, l) && !(p <= k.mGroup)
    ensures !(p <= l.mGroup)
  {
    if p <= l.mGroup && Below(k.mGroup, l.mGroup) {
      PrefixConvex(p, k.mGroup, l.mGroup);
    }
  }

  lemma PrefixBegin(s: seq<KEntryKey>, p: bytes, i: nat)
    requires i <= |s|
    requires forall j :: 0 <= j < i ==> Less(s[j], MinimumGroupKey(p))
    ensures Filter(s[..i], GroupStartsWith(p)) == []
  {
    hide *;
    forall j | 0 <= j < i
      ensures !GroupStartsWith(p).Selects(s[j])
    {
      NotBeforeMinimum(p, s[j]);
    }
    FilterBegin(s, GroupStartsWith(p), i);
  }

  lemma PrefixEnd(s: seq<KEntryKey>, p: bytes, n: nat)
    requires Ascending(s) && n <= |s|
    requires n < |s| ==> !Less(s[n], MinimumGroupKey(p)) && !GroupStartsWith(p).Selects(s[n])
    ensures Filter(s, GroupStartsWith(p)) == Filter(s[..n], GroupStartsWith(p))
  {
    hide *;
    forall j | n <= j < |s|
      ensures !GroupStartsWith(p).Selects(s[j])
    {
      if j > n {
        AscendingAt(s, n, j);
        NotBehindEnd(p, s[n], s[j]);
      }
    }
    FilterEnd(s, GroupStartsWith(p), n);
  }

  lemma NotBeforeMinimum(p: bytes, k: KEntryKey)
    requires Less(k, MinimumGroupKey(p))
    ensures !GroupStartsWith(p).Selects(k)
  {
    hide Less;
    if p <= k.mGroup {
      PrefixAboveMinimum(p, k);
    }
  }

  lemma NotBehindEnd(p: bytes, k: KEntryKey, l: KEntryKey)
    requires !Less(k, MinimumGroupKey(p)) && Less(k, l) && !GroupStartsWith(p).Selects(k)
    ensures !GroupStartsWith(p).Selects(l)
  {
    hide Less;
    PrefixEnds(p, k, l);
  }

  lemma AscendingAt(s: seq<KEntryKey>, i: nat, j: nat)
    requires Ascending(s) && i < j < |s|
    ensures Less(s[i], s[j])
  {
    hide Less;
  }

  // ---------------------------------------------------------------------------
  // One group
  // ---------------------------------------------------------------------------

  /** The marker is the least entry of its group. */
  lemma MarkerIsLeast(m: Entries, k: KEntryKey)
    requires WellKept(m) && k in m
    ensures Marker(k.mGroup) in m && (k == Marker(k.mGroup) || Less(Marker(k.mGroup), k))
  {
    if k.mKey == [] {
      assert k == Marker(k.mGroup);
    }
  }

  /** The entries of a group are contiguous. */
  lemma GroupEnds(k: KEntryKey, l: KEntryKey, n: KEntryKey)
    requires Less(k, l) && Less(l, n) && k.mGroup == n.mGroup
    ensures l.mGroup == k.mGroup
  {
    if Below(k.mGroup, l.mGroup) && Below(l.mGroup, n.mGroup) {
      BelowTransitive(k.mGroup, l.mGroup, n.mGroup);
    }
    BelowIrreflexive(k.mGroup);
  }

  lemma GroupBegin(m: Entries, s: seq<KEntryKey>, g: bytes, i: nat)
    requires WellKept(m) && Lists(s, m.Keys) && i < |s| && s[i] == Marker(g)
    ensures Filter(s[..i + 1], OfGroup(g)) == []
  {
    hide *;
    ListedAscending(s, m.Keys);
    forall j | 0 <= j < i + 1
      ensures !OfGroup(g).Selects(s[j])
    {
      if j < i {
        AscendingAt(s, j, i);
        BeforeMarker(m, g, s[j]);
      }
      MarkerIsNotSelected(g);
    }
    FilterBegin(s, OfGroup(g), i + 1);
  }

  lemma GroupNext(m: Entries, s: seq<KEntryKey>, g: bytes, i: nat, n: nat)
    requires WellKept(m) && Lists(s, m.Keys) && i < n < |s| && s[i] == Marker(g) && s[n].mGroup == g
    ensures Filter(s[..n + 1], OfGroup(g)) == Filter(s[..n], OfGroup(g)) + [s[n]]
  {
    hide *;
    ListedAscending(s, m.Keys);
    AscendingAt(s, i, n);
    BehindMarker(m, g, s[n]);
    FilterNext(s, OfGroup(g), n);
  }

  lemma GroupEnd(m: Entries, s: seq<KEntryKey>, g: bytes, i: nat, n: nat)
    requires Lists(s, m.Keys) && i < n <= |s| && s[i] == Marker(g)
    requires n < |s| ==> s[n].mGroup != g
    ensures Filter(s, OfGroup(g)) == Filter(s[..n], OfGroup(g))
  {
    hide *;
    ListedAscending(s, m.Keys);
    forall j | n <= j < |s|
      ensures !OfGroup(g).Selects(s[j])
    {
      AscendingAt(s, i, n);
      if j > n {
        AscendingAt(s, n, j);
      }
      BehindGroup(g, s[n], s[j]);
    }
    FilterEnd(s, OfGroup(g), n);
  }

  lemma ListedAscending(s: seq<KEntryKey>, ks: set<KEntryKey>)
    requires Lists(s, ks)
    ensures Ascending(s) && forall j :: 0 <= j < |s| ==> s[j] in ks
  {
    hide Ascending;
  }

  lemma MarkerIsNotSelected(g: bytes)
    ensures !OfGroup(g).Selects(Marker(g))
  {
  }

  lemma BeforeMarker(m: Entries, g: bytes, k: KEntryKey)
    requires WellKept(m) && k in m && Less(k, Marker(g))
    ensures !OfGroup(g).Selects(k)
  {
    hide Less;
    if k.mGroup == g {
      MarkerIsLeast(m, k);
      LessIrreflexive(k);
      if k != Marker(g) {
        LessTransitive(k, Marker(g), k);
      }
    }
  }

  lemma BehindMarker(m: Entries, g: bytes, k: KEntryKey)
    requires WellKept(m) && k in m && Less(Marker(g), k) && k.mGroup == g
    ensures OfGroup(g).Selects(k)
  {
    hide Less;
    LessIrreflexive(k);
  }

  /** Behind the first entry of another group there is no entry of this one. */
  lemma BehindGroup(g: bytes, l: KEntryKey, k: KEntryKey)
    requires Less(Marker(g), l) && l.mGroup != g && (k == l || Less(l, k))
    ensures !OfGroup(g).Selects(k)
  {
    hide Less;
    if k.mGroup == g {
      GroupEnds(Marker(g), l, k);
    }
  }

  lemma NoGroup(m: Entries, s: seq<KEntryKey>, g: bytes)
    requires WellKept(m) && Lists(s, m.Keys) && Marker(g) !in m
    ensures Filter(s, OfGroup(g)) == []
  {
    forall j | 0 <= j < |s|
      ensures !OfGroup(g).Selects(s[j])
    {
      assert s[j] in m;
    }
    FilterEnd(s, OfGroup(g), 0);
  }
}
