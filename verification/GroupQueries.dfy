/** The queries about groups as loops over scans of the map (src/core/kconfig.cpp:326-391),
    proved against module GroupTree. */
module GroupQueries {
  import opened Bytes
  import opened EntryMap
  import opened Immutability
  import opened Scans
  import opened EntryMapObject
  import opened GroupTree

  /** findFirstGroupEndPos. */
  method FindFirstGroupEndPos(g: bytes, from: nat) returns (end: nat)
    requires from <= |g|
    ensures from <= end <= |g| && g[from..end] == ComponentFrom(g, from)
  {
    var index := IndexOf(g[from..], SEPARATOR);
    end := if index < 0 then |g| else from + index;
  }

  /** What the filter selects, as members. */
  lemma Selected(entryMap: KEntryMap, sel: Selection, k: KEntryKey)
    requires entryMap.Valid()
    ensures k in Filter(entryMap.order, sel) <==> k in entryMap.entries && sel.Selects(k)
  {
    InFilter(entryMap.order, sel, k);
  }

  lemma AllSelected(entryMap: KEntryMap, sel: Selection)
    requires entryMap.Valid()
    ensures forall k :: k in Filter(entryMap.order, sel) <==> k in entryMap.entries && sel.Selects(k)
  {
    hide *;
    forall k
      ensures k in Filter(entryMap.order, sel) <==> k in entryMap.entries && sel.Selects(k)
    {
      Selected(entryMap, sel, k);
    }
  }

  /** hasNonDeletedEntries stops at the first entry that answers the question. */
  method QueryNonDeletedEntries(entryMap: KEntryMap, g: bytes) returns (r: bool)
    requires entryMap.Valid()
    ensures r <==> HasNonDeletedEntries(entryMap.entries, g)
  {
    hide Filter, KEntryMap.Valid, Less;
    var visited := entryMap.ForEachEntryWhoseGroupStartsWith(g);
    AllSelected(entryMap, GroupStartsWith(g));
    var i := 0;
    while i < |visited|
      invariant 0 <= i <= |visited|
      invariant forall j :: 0 <= j < i ==>
                !(Within(visited[j].mGroup, g) && IsNonDeletedKey(entryMap.entries, visited[j]))
    {
      assert visited[i] in visited;
      if IsGroupOrSubGroupMatch(visited[i].mGroup, g) && IsNonDeletedKey(entryMap.entries, visited[i]) {
        return true;
      }
      i := i + 1;
    }
    r := false;
    forall k | k in entryMap.entries && Within(k.mGroup, g)
      ensures !IsNonDeletedKey(entryMap.entries, k)
    {
      assert k in visited;
    }
  }

  /** groupList of a group. */
  method QueryGroupList(entryMap: KEntryMap, g: bytes) returns (groups: set<bytes>)
    requires entryMap.Valid()
    ensures groups == GroupList(entryMap.entries, g)
    ensures forall c :: c in groups <==> SEPARATOR !in c && HasNonDeletedEntries(entryMap.entries, g + [SEPARATOR] + c)
  {
    hide Filter, KEntryMap.Valid, ComponentFrom, HasNonDeletedEntries;
    var theGroup := g + [SEPARATOR];
    var visited := entryMap.ForEachEntryWhoseGroupStartsWith(theGroup);
    AllSelected(entryMap, GroupStartsWith(theGroup));
    groups := {};
    var i := 0;
    while i < |visited|
      invariant 0 <= i <= |visited|
      invariant forall j :: 0 <= j < |visited| ==> visited[j] in visited
      invariant forall c :: c in groups <==>
        exists j :: 0 <= j < i && IsNonDeletedKey(entryMap.entries, visited[j])
            && ComponentFrom(visited[j].mGroup, |g| + 1) == c
    {
      var k := visited[i];
      if IsNonDeletedKey(entryMap.entries, k) {
        var end := FindFirstGroupEndPos(k.mGroup, |theGroup|);
        groups := groups + {k.mGroup[|theGroup|..end]};
      }
      i := i + 1;
    }
    forall c
      ensures c in groups <==> SEPARATOR !in c && HasNonDeletedEntries(entryMap.entries, g + [SEPARATOR] + c)
    {
      GroupListAgrees(entryMap.entries, g, c);
    }
  }

  /** groupList of a file walks the whole map. */
  method QueryTopGroups(entryMap: KEntryMap) returns (groups: set<bytes>)
    requires entryMap.Valid()
    ensures groups == TopGroups(entryMap.entries)
    ensures forall c :: Ordinary(c) ==> (c in groups <==> SEPARATOR !in c && HasNonDeletedEntries(entryMap.entries, c))
  {
    hide KEntryMap.Valid, ComponentFrom, Ordinary, HasNonDeletedEntries;
    groups := {};
    entryMap.Listed();
    var i := 0;
    while i < |entryMap.order|
      invariant 0 <= i <= |entryMap.order|
      invariant forall j :: 0 <= j < |entryMap.order| ==> entryMap.order[j] in entryMap.entries
      invariant forall c :: c in groups <==>
        exists j :: 0 <= j < i && IsNonDeletedKey(entryMap.entries, entryMap.order[j])
            && Ordinary(entryMap.order[j].mGroup)
                    && ComponentFrom(entryMap.order[j].mGroup, 0) == c
    {
      var k := entryMap.order[i];
      if IsNonDeletedKey(entryMap.entries, k) && Ordinary(k.mGroup) {
        var end := FindFirstGroupEndPos(k.mGroup, 0);
        assert k.mGroup[..end] == k.mGroup[0..end];
        groups := groups + {k.mGroup[..end]};
      }
      i := i + 1;
    }
    forall c | Ordinary(c)
      ensures c in groups <==> SEPARATOR !in c && HasNonDeletedEntries(entryMap.entries, c)
    {
      TopGroupsAgree(entryMap.entries, c);
    }
  }

  /** allSubGroups. */
  method QueryAllSubGroups(entryMap: KEntryMap, g: bytes) returns (groups: set<bytes>)
    requires entryMap.Valid()
    ensures groups == AllSubGroups(entryMap.entries, g)
  {
    hide Filter, KEntryMap.Valid;
    var visited := entryMap.ForEachEntryWhoseGroupStartsWith(g);
    AllSelected(entryMap, GroupStartsWith(g));
    groups := {};
    var i := 0;
    while i < |visited|
      invariant 0 <= i <= |visited|
      invariant forall j :: 0 <= j < |visited| ==> visited[j] in visited
      invariant forall c :: c in groups <==> exists j ::
                0 <= j < i && visited[j].mKey == [] && Within(visited[j].mGroup, g) && visited[j].mGroup == c
    {
      var k := visited[i];
      if k.mKey == [] && IsGroupOrSubGroupMatch(k.mGroup, g) {
        groups := groups + {k.mGroup};
      }
      i := i + 1;
    }
  }

  /** The keys of a group that are not deleted. */
  function KeyList(m: Entries, g: bytes): set<bytes> {
    set k | k in m && k.mGroup == g && IsNonDeletedKey(m, k) :: k.mKey
  }

  /** keyListImpl. */
  method QueryKeyList(entryMap: KEntryMap, g: bytes) returns (keys: set<bytes>)
    requires entryMap.Valid() && WellKept(entryMap.entries)
    ensures keys == KeyList(entryMap.entries, g)
  {
    hide Filter, KEntryMap.Valid, WellKept;
    var visited := entryMap.ForEachEntryOfGroup(g);
    AllSelected(entryMap, OfGroup(g));
    keys := {};
    var i := 0;
    while i < |visited|
      invariant 0 <= i <= |visited|
      invariant forall j :: 0 <= j < |visited| ==> visited[j] in visited
      invariant forall c :: c in keys <==> exists j ::
                0 <= j < i && IsNonDeletedKey(entryMap.entries, visited[j]) && visited[j].mKey == c
    {
      if IsNonDeletedKey(entryMap.entries, visited[i]) {
        keys := keys + {visited[i].mKey};
      }
      i := i + 1;
    }
  }
}
