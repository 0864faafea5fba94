/** KEntryMap as an object: a std::map is its contents together with the order in which it is
    walked. Every method is proved against the functions of module EntryMap. */
module EntryMapObject {
  import opened Bytes
  import opened EntryMap
  import opened Immutability
  import opened Scans

  class KEntryMap {
    var entries: Entries
    var order: seq<KEntryKey>

    ghost predicate Valid()
      reads this
    {
      order == InOrder(entries.Keys)
    }

    constructor ()
      ensures Valid() && entries == map[]
    {
      entries, order := map[], [];
      new;
      OneOrder(order, InOrder({}), {});
    }

    /** lower_bound: the first position whose key is not below k. */
    method LowerBound(k: KEntryKey) returns (i: nat)
      requires Valid()
      ensures i <= |order|
      ensures forall j :: 0 <= j < i ==> Less(order[j], k)
      ensures forall j :: i <= j < |order| ==> !Less(order[j], k)
    {
      hide Less;
      i := 0;
      while i < |order| && Less(order[i], k)
        invariant i <= |order|
        invariant forall j :: 0 <= j < i ==> Less(order[j], k)
      {
        i := i + 1;
      }
      forall j | i <= j < |order|
        ensures !Less(order[j], k)
      {
        if j > i && Less(order[j], k) {
          LessTransitive(order[i], order[j], k);
        }
      }
    }

    method InsertOrAssign(k: KEntryKey, e: KEntry)
      requires Valid()
      modifies this
      ensures Valid() && entries == old(entries)[k := e]
    {
      hide Less, InOrder;
      if k !in entries {
        var i := LowerBound(k);
        InsertLists(order, entries.Keys, k, i);
        order := order[..i] + [k] + order[i..];
        OneOrder(order, InOrder(entries.Keys + {k}), entries.Keys + {k});
      }
      assert entries[k := e].Keys == entries.Keys + {k};
      assert k in entries ==> entries.Keys + {k} == entries.Keys;
      entries := entries[k := e];
    }

    method Erase(k: KEntryKey)
      requires Valid()
      modifies this
      ensures Valid() && entries == old(entries) - {k}
    {
      hide Less, InOrder;
      if k in entries {
        var i := Position(k);
        RemoveLists(order, entries.Keys, i);
        order := order[..i] + order[i + 1..];
        OneOrder(order, InOrder(entries.Keys - {k}), entries.Keys - {k});
      }
      assert (entries - {k}).Keys == entries.Keys - {k};
      assert k !in entries ==> entries.Keys - {k} == entries.Keys;
      entries := entries - {k};
    }

    method SetEntry(g: bytes, k: bytes, value: QByteArray, o: EntryOptions) returns (dirtied: bool)
      requires Valid()
      modifies this
      ensures Valid() && SetResult(entries, dirtied) == EntryMap.SetEntry(old(entries), g, k, value, o)
      decreases o.forDefault, 2
    {
      hide EntryMap.SetExisting, EntryMap.SetNew, InOrder;
      if k == [] {
        dirtied := SetMarker(g, o);
      } else if KEntryKey(g, k, o.localized, o.forDefault) in entries {
        dirtied := SetExisting(g, k, value, o);
      } else {
        dirtied := SetNew(g, k, value, o);
      }
    }

    method SetMarker(g: bytes, o: EntryOptions) returns (dirtied: bool)
      requires Valid()
      modifies this
      ensures Valid() && SetResult(entries, dirtied) == EntryMap.SetMarker(old(entries), g, o)
    {
      hide InOrder, SameEntry;
      var it := KEntryKey(g, [], o.localized, o.forDefault);
      var e := NEW_ENTRY.(bImmutable := o.immutable);
      if it !in entries {
        InsertOrAssign(Marker(g), e);
        return true;
      } else if SameEntry(entries[it], e) {
        return false;
      }
      InsertOrAssign(it, e.(bRaw := entries[it].bRaw));
      dirtied := true;
    }

    /** setEntry when the key is in the map. */
    method SetExisting(g: bytes, k: bytes, value: QByteArray, o: EntryOptions) returns (dirtied: bool)
      requires Valid() && KEntryKey(g, k, o.localized, o.forDefault) in entries
      modifies this
      ensures Valid() && SetResult(entries, dirtied) == EntryMap.SetExisting(old(entries), g, k, value, o)
      decreases o.forDefault, 1
    {
      hide InOrder, Prepared, Overridden, SameEntry, WithoutTwins, HasTwins, Mirrored;
      var it := KEntryKey(g, k, o.localized, o.forDefault);
      if entries[it].bImmutable {
        return false;
      }
      var e := Prepared(Overridden(it, entries[it], o), value, o);
      if o.localized && entries[it].bLocalizedCountry && !e.bLocalizedCountry {
        return false;
      }
      if !SameEntry(entries[it], e) {
        InsertOrAssign(it, e);
        Mirror(g, k, value, o);
        EraseTwins(g, k, o);
        return true;
      }
      dirtied := HasTwins(entries, g, k, o);
      EraseTwins(g, k, o);
    }

    /** The recursive call that copies a default to the plain entry. */
    method Mirror(g: bytes, k: bytes, value: QByteArray, o: EntryOptions)
      requires Valid()
      modifies this
      ensures Valid() && entries == Mirrored(old(entries), g, k, value, o)
      decreases o.forDefault, 0
    {
      hide InOrder, EntryMap.SetEntry;
      if o.forDefault {
        var _ := SetEntry(g, k, value, o.(forDefault := false));
      }
    }

    /** setEntry when the key is not in the map. */
    method SetNew(g: bytes, k: bytes, value: QByteArray, o: EntryOptions) returns (dirtied: bool)
      requires Valid() && k != [] && KEntryKey(g, k, o.localized, o.forDefault) !in entries
      modifies this
      ensures Valid() && SetResult(entries, dirtied) == EntryMap.SetNew(old(entries), g, k, value, o)
      decreases o.forDefault, 1
    {
      hide InOrder, Mirrored, Prepared;
      ghost var m := entries;
      if Marker(g) !in entries {
        InsertOrAssign(Marker(g), NEW_ENTRY);
      } else if entries[Marker(g)].bImmutable {
        return false;
      }
      assert entries == WithMarker(m, g);
      PreparedDeleted(NEW_ENTRY.(bRaw := o.rawKey), value, o);
      var e := Prepared(NEW_ENTRY.(bRaw := o.rawKey), value, o);
      InsertOrAssign(KEntryKey(g, k, o.localized, o.forDefault), e);
      if e.bDeleted {
        return false;
      }
      Mirror(g, k, value, o);
      dirtied := true;
    }

    method EraseTwins(g: bytes, k: bytes, o: EntryOptions)
      requires Valid()
      modifies this
      ensures Valid() && entries == WithoutTwins(old(entries), g, k, o)
    {
      if !o.localized {
        Erase(KEntryKey(g, k, true, false));
        if o.forDefault {
          Erase(KEntryKey(g, k, true, true));
        }
      }
    }

    method RevertEntry(g: bytes, k: bytes, o: EntryOptions, localized: bool) returns (dirtied: bool)
      requires Valid()
      modifies this
      ensures Valid() && SetResult(entries, dirtied) == EntryMap.RevertEntry(old(entries), g, k, o, localized)
    {
      var it := FindEntry(entries, g, k, SearchFlags(false, localized));
      if it.End? || entries[it.key].bReverted {
        return false;
      }
      InsertOrAssign(it.key, Reverted(entries, it.key, o));
      return true;
    }

    lemma Listed()
      requires Valid()
      ensures Lists(order, entries.Keys)
    {
      hide Less;
    }

    /** forEachEntryWhoseGroupStartsWith: it visits what a filter of the whole map selects, once
        each and in order. */
    method ForEachEntryWhoseGroupStartsWith(p: bytes) returns (visited: seq<KEntryKey>)
      requires Valid()
      ensures visited == Filter(order, GroupStartsWith(p))
    {
      hide *;
      var it := LowerBound(MinimumGroupKey(p));
      visited := [];
      Listed();
      ListedAscending(order, entries.Keys);
      PrefixBegin(order, p, it);
      while it < |order| && GroupStartsWith(p).Selects(order[it])
        invariant it <= |order| && visited == Filter(order[..it], GroupStartsWith(p))
        invariant forall j :: it <= j < |order| ==> !Less(order[j], MinimumGroupKey(p))
      {
        FilterNext(order, GroupStartsWith(p), it);
        visited := visited + [order[it]];
        it := it + 1;
      }
      PrefixEnd(order, p, it);
    }

    /** forEachEntryOfGroup: it starts behind the marker. */
    method ForEachEntryOfGroup(g: bytes) returns (visited: seq<KEntryKey>)
      requires Valid() && WellKept(entries)
      ensures visited == Filter(order, OfGroup(g))
    {
      hide *;
      Listed();
      visited := [];
      if Marker(g) !in entries {
        NoGroup(entries, order, g);
        return;
      }
      var marker := Position(Marker(g));
      GroupBegin(entries, order, g, marker);
      var it := marker + 1;
      while it < |order| && order[it].mGroup == g
        invariant marker < it <= |order| && visited == Filter(order[..it], OfGroup(g))
      {
        GroupNext(entries, order, g, marker, it);
        visited := visited + [order[it]];
        it := it + 1;
      }
      GroupEnd(entries, order, g, marker, it);
    }

    /** The position of a key. */
    method Position(k: KEntryKey) returns (i: nat)
      requires Valid() && k in entries
      ensures i < |order| && order[i] == k
    {
      hide Less, InOrder;
      assert k in order;
      i := 0;
      while order[i] != k
        invariant i < |order|
        invariant k in order[i..]
        decreases |order| - i
      {
        assert order[i..] == [order[i]] + order[i + 1..];
        i := i + 1;
      }
    }
  }

  lemma InsertLists(s: seq<KEntryKey>, ks: set<KEntryKey>, k: KEntryKey, i: nat)
    requires Lists(s, ks) && k !in ks && i <= |s|
    requires forall j :: 0 <= j < i ==> Less(s[j], k)
    requires forall j :: i <= j < |s| ==> !Less(s[j], k)
    ensures Lists(s[..i] + [k] + s[i..], ks + {k})
  {
    hide Less;
    var t := s[..i] + [k] + s[i..];
    forall j | i <= j < |s|
      ensures Less(k, s[j])
    {
      assert s[j] in s;
      LessTotal(s[j], k);
    }
    forall l
      ensures l in t <==> l in ks + {k}
    {
      assert s == s[..i] + s[i..];
    }
  }

  lemma RemoveLists(s: seq<KEntryKey>, ks: set<KEntryKey>, i: nat)
    requires Lists(s, ks) && i < |s|
    ensures Lists(s[..i] + s[i + 1..], ks - {s[i]})
  {
    hide Less;
    var t := s[..i] + s[i + 1..];
    forall l
      ensures l in t <==> l in ks - {s[i]}
    {
      assert s == s[..i] + [s[i]] + s[i + 1..];
      if l in t {
        var j :| 0 <= j < |s| && j != i && s[j] == l by {
          var n :| 0 <= n < |t| && t[n] == l;
          assert s[if n < i then n else n + 1] == l;
        }
        LessIrreflexive(l);
      }
    }
  }
}
