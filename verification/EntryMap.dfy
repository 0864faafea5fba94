/** The entry map (src/core/kconfigdata_p.h, src/core/kconfigdata.cpp): entries, keys and
    what each operation of KEntryMap does to the map, as functions. EntryMapObject.dfy holds
    the object whose methods update it in place. */
module EntryMap {
  import opened Bytes

  /** KEntry. bRaw is a flag of the key in the source; it is kept with the entry here because
      it takes no part in comparing keys, so the map never holds two keys that differ in it. */
  datatype KEntry = KEntry(
    mValue: QByteArray,
    bDirty: bool,
    bGlobal: bool,
    bImmutable: bool,
    bDeleted: bool,
    bExpand: bool,
    bReverted: bool,
    bLocalizedCountry: bool,
    bNotify: bool,
    bOverridesGlobal: bool,
    bRaw: bool)

  const NEW_ENTRY: KEntry := KEntry(Null, false, false, false, false, false, false, false, false, false, false)

  /** operator== of KEntry: it ignores what concerns writing and the country flag, and
      QByteArray's own == does not tell null from empty. */
  predicate SameEntry(a: KEntry, b: KEntry) {
    && a.bGlobal == b.bGlobal
    && a.bImmutable == b.bImmutable
    && a.bDeleted == b.bDeleted
    && a.bExpand == b.bExpand
    && a.mValue.Chars() == b.mValue.Chars()
  }

  /** KEntryKey. The marker of a group has the empty key. */
  datatype KEntryKey = KEntryKey(mGroup: bytes, mKey: bytes, bLocal: bool, bDefault: bool)

  function Marker(g: bytes): KEntryKey {
    KEntryKey(g, [], false, false)
  }

  type Entries = map<KEntryKey, KEntry>

  /** EntryOptions, with the two search flags that sit in its upper half. */
  datatype EntryOptions = EntryOptions(
    dirty: bool,
    global: bool,
    immutable: bool,
    deleted: bool,
    expansion: bool,
    rawKey: bool,
    localizedCountry: bool,
    notify: bool,
    forDefault: bool,
    localized: bool)

  const NO_OPTIONS: EntryOptions := EntryOptions(false, false, false, false, false, false, false, false, false, false)

  datatype SearchFlags = SearchFlags(defaults: bool, localized: bool)

  const NO_FLAGS: SearchFlags := SearchFlags(false, false)

  // ---------------------------------------------------------------------------
  // Looking up
  // ---------------------------------------------------------------------------

  datatype Position = End | At(key: KEntryKey)

  /** constFindEntry and findEntry: the localized key first, if it is searched for. */
  function FindEntry(m: Entries, g: bytes, k: bytes, flags: SearchFlags): (r: Position)
    ensures r.At? ==> r.key in m && r.key.mGroup == g && r.key.mKey == k && r.key.bDefault == flags.defaults
  {
    var local := KEntryKey(g, k, true, flags.defaults);
    var plain := KEntryKey(g, k, false, flags.defaults);
    if flags.localized && local in m then At(local)
    else if plain in m then At(plain)
    else End
  }

  /** getEntry. */
  function GetEntry(m: Entries, g: bytes, k: bytes, defaultValue: QByteArray, flags: SearchFlags): QByteArray {
    var it := FindEntry(m, g, k, flags);
    if it.At? && !m[it.key].bDeleted && m[it.key].mValue.Data? then m[it.key].mValue else defaultValue
  }

  /** getEntryOption for EntryImmutable. */
  predicate IsImmutable(m: Entries, g: bytes, k: bytes, flags: SearchFlags) {
    var it := FindEntry(m, g, k, flags);
    it.At? && m[it.key].bImmutable
  }

  // ---------------------------------------------------------------------------
  // Setting an entry
  // ---------------------------------------------------------------------------

  datatype SetResult = SetResult(m: Entries, dirtied: bool)

  /** The entry that setEntry prepares from the one it found, or from a new one. */
  function Prepared(e: KEntry, value: QByteArray, o: EntryOptions): KEntry {
    e.(mValue := value,
       bDirty := e.bDirty || o.dirty,
       bNotify := e.bNotify || o.notify,
       bGlobal := o.global,
       bImmutable := e.bImmutable || o.immutable,
       bDeleted := value.Null? && (e.bDeleted || o.deleted),
       bExpand := o.expansion,
       bReverted := false,
       bLocalizedCountry := o.localized && o.localizedCountry)
  }

  /** An existing global entry is remembered as overridden when a local write replaces it. */
  function Overridden(k: KEntryKey, e: KEntry, o: EntryOptions): KEntry {
    if e.bGlobal && !o.global && !k.bDefault then e.(bOverridesGlobal := true) else e
  }

  /** The branch of setEntry for an empty key: a group marker. */
  function SetMarker(m: Entries, g: bytes, o: EntryOptions): SetResult {
    var found := KEntryKey(g, [], o.localized, o.forDefault);
    var e := NEW_ENTRY.(bImmutable := o.immutable);
    if found !in m then SetResult(m[Marker(g) := e], true)
    else if SameEntry(m[found], e) then SetResult(m, false)
    else SetResult(m[found := e.(bRaw := m[found].bRaw)], true)
  }

  /** Makes sure the group has its marker. */
  function WithMarker(m: Entries, g: bytes): Entries {
    if Marker(g) in m then m else m[Marker(g) := NEW_ENTRY]
  }

  /** Erases the localized twins of a plain entry that has been written. */
  function WithoutTwins(m: Entries, g: bytes, k: bytes, o: EntryOptions): Entries {
    if o.localized then m
    else m - {KEntryKey(g, k, true, false)} - (if o.forDefault then {KEntryKey(g, k, true, true)} else {})
  }

  predicate HasTwins(m: Entries, g: bytes, k: bytes, o: EntryOptions) {
    !o.localized && (KEntryKey(g, k, true, false) in m || (o.forDefault && KEntryKey(g, k, true, true) in m))
  }

  /** setEntry. A default that is new or changes is mirrored by the same call without EntryDefault. */
  function SetEntry(m: Entries, g: bytes, k: bytes, value: QByteArray, o: EntryOptions): SetResult
    decreases o.forDefault, 2
  {
    if k == [] then SetMarker(m, g, o)
    else if KEntryKey(g, k, o.localized, o.forDefault) in m then SetExisting(m, g, k, value, o)
    else SetNew(m, g, k, value, o)
  }

  /** The map with the prepared entry stored, and the group's marker made sure of. */
  function Stored(m: Entries, g: bytes, k: bytes, value: QByteArray, o: EntryOptions): Entries {
    var kk := KEntryKey(g, k, o.localized, o.forDefault);
    if kk in m
    then m[kk := Prepared(Overridden(kk, m[kk], o), value, o)]
    else WithMarker(m, g)[kk := Prepared(NEW_ENTRY.(bRaw := o.rawKey), value, o)]
  }

  function SetExisting(m: Entries, g: bytes, k: bytes, value: QByteArray, o: EntryOptions): SetResult
    requires KEntryKey(g, k, o.localized, o.forDefault) in m
    decreases o.forDefault, 1
  {
    var kk := KEntryKey(g, k, o.localized, o.forDefault);
    var m' := Stored(m, g, k, value, o);
    if m[kk].bImmutable then SetResult(m, false)
    else if o.localized && m[kk].bLocalizedCountry && !m'[kk].bLocalizedCountry then SetResult(m, false)
    else if SameEntry(m[kk], m'[kk]) then SetResult(WithoutTwins(m, g, k, o), HasTwins(m, g, k, o))
    else SetResult(WithoutTwins(Mirrored(m', g, k, value, o), g, k, o), true)
  }

  function SetNew(m: Entries, g: bytes, k: bytes, value: QByteArray, o: EntryOptions): SetResult
    requires k != []
    decreases o.forDefault, 1
  {
    var m' := Stored(m, g, k, value, o);
    if Marker(g) in m && m[Marker(g)].bImmutable then SetResult(m, false)
    else if value.Null? && o.deleted then SetResult(m', false)
    else SetResult(Mirrored(m', g, k, value, o), true)
  }

  function Mirrored(m: Entries, g: bytes, k: bytes, value: QByteArray, o: EntryOptions): Entries
    decreases o.forDefault, 0
  {
    if o.forDefault then SetEntry(m, g, k, value, o.(forDefault := false)).m else m
  }

  lemma PreparedDeleted(e: KEntry, value: QByteArray, o: EntryOptions)
    requires !e.bDeleted
    ensures Prepared(e, value, o).bDeleted == (value.Null? && o.deleted)
  {
  }

  // ---------------------------------------------------------------------------
  // Reverting an entry
  // ---------------------------------------------------------------------------

  function Reverted(m: Entries, k: KEntryKey, o: EntryOptions): KEntry
    requires k in m
  {
    var d := k.(bDefault := true);
    var e := if d in m then m[d].(bRaw := m[k].bRaw) else m[k].(mValue := Null);
    e.(bNotify := e.bNotify || o.notify, bDirty := true, bReverted := true)
  }

  /** revertEntry; the source asserts that defaults are not searched for. */
  function RevertEntry(m: Entries, g: bytes, k: bytes, o: EntryOptions, localized: bool): SetResult {
    var it := FindEntry(m, g, k, SearchFlags(false, localized));
    if it.End? || m[it.key].bReverted then SetResult(m, false)
    else SetResult(m[it.key := Reverted(m, it.key, o)], true)
  }

  // ---------------------------------------------------------------------------
  // The order of the keys
  // ---------------------------------------------------------------------------

  /** operator< of KEntryKey: by group, by key, localized entries first, defaults last. */
  predicate Less(a: KEntryKey, b: KEntryKey) {
    || Below(a.mGroup, b.mGroup)
    || (a.mGroup == b.mGroup
        && (|| Below(a.mKey, b.mKey)
            || (a.mKey == b.mKey
                && if a.bLocal != b.bLocal then a.bLocal else !a.bDefault && b.bDefault)))
  }

  lemma LessIrreflexive(a: KEntryKey)
    ensures !Less(a, a)
  {
    BelowIrreflexive(a.mGroup);
    BelowIrreflexive(a.mKey);
  }

  lemma LessTransitive(a: KEntryKey, b: KEntryKey, c: KEntryKey)
    requires Less(a, b) && Less(b, c)
    ensures Less(a, c)
  {
    hide Below;
    if Below(a.mGroup, b.mGroup) && Below(b.mGroup, c.mGroup) {
      BelowTransitive(a.mGroup, b.mGroup, c.mGroup);
    }
    if Below(a.mKey, b.mKey) && Below(b.mKey, c.mKey) {
      BelowTransitive(a.mKey, b.mKey, c.mKey);
    }
  }

  lemma LessTotal(a: KEntryKey, b: KEntryKey)
    ensures a == b || Less(a, b) || Less(b, a)
  {
    hide Below;
    BelowTotal(a.mGroup, b.mGroup);
    BelowTotal(a.mKey, b.mKey);
  }

  /** Strictly ascending, as a std::map is walked. */
  ghost predicate Ascending(s: seq<KEntryKey>) {
    forall i, j :: 0 <= i < j < |s| ==> Less(s[i], s[j])
  }

  ghost predicate Lists(s: seq<KEntryKey>, ks: set<KEntryKey>) {
    Ascending(s) && forall k :: k in s <==> k in ks
  }

  lemma LeastExists(ks: set<KEntryKey>)
    requires ks != {}
    ensures exists k :: k in ks && forall l :: l in ks && l != k ==> Less(k, l)
    decreases |ks|
  {
    hide Less;
    var x :| x in ks;
    var rest := ks - {x};
    if rest == {} {
      assert ks == {x} + rest;
    } else {
      LeastExists(rest);
      var y :| y in rest && forall l :: l in rest && l != y ==> Less(y, l);
      LessTotal(x, y);
      var k := if Less(x, y) then x else y;
      forall l | l in ks && l != k
        ensures Less(k, l)
      {
        assert l in rest || l == x;
        if k == x && l != y {
          LessTransitive(x, y, l);
        }
      }
    }
  }

  lemma ConsLists(k: KEntryKey, s: seq<KEntryKey>, ks: set<KEntryKey>)
    requires k in ks && forall l :: l in ks && l != k ==> Less(k, l)
    requires Lists(s, ks - {k})
    ensures Lists([k] + s, ks)
  {
    hide Less;
    var t := [k] + s;
    forall i, j | 0 <= i < j < |t|
      ensures Less(t[i], t[j])
    {
      assert s[j - 1] in s;
    }
  }

  /** The keys of a map in the order in which it is walked. */
  ghost function InOrder(ks: set<KEntryKey>): (s: seq<KEntryKey>)
    ensures Lists(s, ks)
    decreases |ks|
  {
    if ks == {} then []
    else
      LeastExists(ks);
      var k :| k in ks && forall l :: l in ks && l != k ==> Less(k, l);
      var s := InOrder(ks - {k});
      ConsLists(k, s, ks);
      [k] + s
  }

  lemma EmptyList(s: seq<KEntryKey>, ks: set<KEntryKey>)
    requires Lists(s, ks)
    ensures s == [] <==> ks == {}
  {
    if s != [] {
      assert s[0] in ks;
    }
    if ks != {} {
      var k :| k in ks;
      assert k in s;
    }
  }

  lemma SameHead(s: seq<KEntryKey>, t: seq<KEntryKey>, ks: set<KEntryKey>)
    requires Lists(s, ks) && Lists(t, ks) && s != [] && t != []
    ensures s[0] == t[0]
  {
    hide Less;
    assert s[0] in t && t[0] in s;
    var i :| 0 <= i < |t| && t[i] == s[0];
    var j :| 0 <= j < |s| && s[j] == t[0];
    if s[0] != t[0] {
      LessTransitive(s[0], t[0], s[0]);
      LessIrreflexive(s[0]);
    }
  }

  lemma {:induction false} OneOrder(s: seq<KEntryKey>, t: seq<KEntryKey>, ks: set<KEntryKey>)
    requires Lists(s, ks) && Lists(t, ks)
    ensures s == t
  {
    EmptyList(s, ks);
    EmptyList(t, ks);
    if s == [] {
    } else {
      SameHead(s, t, ks);
      TailLists(s, ks);
      TailLists(t, ks);
      OneOrder(s[1..], t[1..], ks - {s[0]});
      assert s == [s[0]] + s[1..] && t == [t[0]] + t[1..];
    }
  }

  lemma TailLists(s: seq<KEntryKey>, ks: set<KEntryKey>)
    requires Lists(s, ks) && s != []
    ensures Lists(s[1..], ks - {s[0]})
  {
    hide Less;
    forall k
      ensures k in s[1..] <==> k in ks - {s[0]}
    {
      if k in s[1..] {
        var i :| 1 <= i < |s| && s[i] == k;
        LessIrreflexive(k);
      }
      if k in ks - {s[0]} {
        var i :| 0 <= i < |s| && s[i] == k;
        assert s[1..][i - 1] == k;
      }
    }
  }
}
