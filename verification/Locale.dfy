/** Localized lines: the order in which a group's lines are read does not matter
    (src/core/kconfigdata.cpp:52-69, 141-172, src/core/kconfigini.cpp:231-267). */
module Locale {
  import opened Bytes
  import opened EntryMap
  import opened Immutability

  /** `key=`, `key[lang]=` and `key[lang_COUNTRY]=` lines. */
  datatype Tag = Untagged | Language | Country

  datatype Line = Line(k: bytes, tag: Tag, v: bytes)

  /** What the parser asks setEntry to do for a line. */
  function AsWrite(g: bytes, l: Line, forDefault: bool): Write {
    Write(g, l.k, Data(l.v), NO_OPTIONS.(forDefault := forDefault, localized := l.tag != Untagged,
        localizedCountry := l.tag == Country))
  }

  function Parse(m: Entries, g: bytes, ls: seq<Line>, forDefault: bool): Entries
    decreases |ls|
  {
    if ls == [] then m else Parse(Apply(m, AsWrite(g, ls[0], forDefault)), g, ls[1..], forDefault)
  }

  /** No two lines have the same key and tag. */
  ghost predicate Distinct(ls: seq<Line>) {
    forall i, j :: 0 <= i < j < |ls| ==> ls[i].k != ls[j].k || ls[i].tag != ls[j].tag
  }

  /** The value of the line for (k, tag), Null if there is none. */
  function ValueOf(ls: seq<Line>, k: bytes, tag: Tag): QByteArray
    decreases |ls|
  {
    if ls == [] then Null
    else if ls[0].k == k && ls[0].tag == tag then Data(ls[0].v)
    else ValueOf(ls[1..], k, tag)
  }

  function Or(a: QByteArray, b: QByteArray): QByteArray {
    if a.Data? then a else b
  }

  // ---------------------------------------------------------------------------
  // What has been read for one key
  // ---------------------------------------------------------------------------

  datatype Seen = Seen(plain: QByteArray, language: QByteArray, country: QByteArray) {
    function Get(tag: Tag): QByteArray {
      match tag
      case Untagged => plain
      case Language => language
      case Country => country
    }

    function Add(l: Line): Seen {
      match l.tag
      case Untagged => this.(plain := Data(l.v))
      case Language => this.(language := Data(l.v))
      case Country => this.(country := Data(l.v))
    }
  }

  ghost predicate EntryIs(m: Entries, x: KEntryKey, v: QByteArray) {
    && (v.Null? ==> x !in m)
    && (v.Data? ==> x in m && m[x].mValue == v && !m[x].bImmutable && !m[x].bDeleted && !m[x].bExpand)
  }

  /** The entries of (g, k), defaults or not, reflect what has been read. */
  ghost predicate Reflects(m: Entries, g: bytes, k: bytes, d: bool, s: Seen) {
    var local := KEntryKey(g, k, true, d);
    && EntryIs(m, KEntryKey(g, k, false, d), s.plain)
    && EntryIs(m, local, Or(s.country, s.language))
    && (s.country.Data? && s.language.Null? ==> m[local].bLocalizedCountry)
  }

  lemma StoredReflects(m: Entries, w: Write, l: Line, d: bool, s: Seen)
    requires l.k != [] && w == AsWrite(w.g, l, d)
    requires Reflects(m, w.g, l.k, d, s) && s.Get(l.tag).Null?
    requires !(l.tag == Language && s.country.Data?)
    ensures Reflects(Stored(m, w.g, w.k, w.value, w.o), w.g, l.k, d, s.Add(l))
  {
  }

  lemma StoredOther(m: Entries, w: Write, l: Line, d: bool)
    requires l.k != [] && w == AsWrite(w.g, l, d)
    ensures var n := Stored(m, w.g, w.k, w.value, w.o);
            && (MarkerMutable(m, w.g) ==> MarkerMutable(n, w.g))
            && forall x: KEntryKey :: x.bDefault != d && x.mKey != [] ==> SameAt(m, n, x)
  {
    hide Prepared, Overridden;
  }

  /** A line for an entry that is already there with the same value, or more specific. */
  lemma SkippedReflects(m: Entries, w: Write, l: Line, d: bool, s: Seen)
    requires l.k != [] && w == AsWrite(w.g, l, d)
    requires Reflects(m, w.g, l.k, d, s) && s.Get(l.tag).Null?
    requires l.tag != Untagged && KEntryKey(w.g, l.k, true, d) in m
    requires l.tag == Country ==> m[KEntryKey(w.g, l.k, true, d)].mValue.Chars() == l.v
    ensures Reflects(m, w.g, l.k, d, s.Add(l))
  {
  }

  /** The call does not store its value: a more specific or an equal entry is there. */
  predicate Skips(m: Entries, w: Write) {
    var x := KEntryKey(w.g, w.k, true, w.o.forDefault);
    && x in m
    && ((m[x].bLocalizedCountry && !w.o.localizedCountry) || SameEntry(m[x], Stored(m, w.g, w.k, w.value, w.o)[x]))
  }

  lemma SkipsSame(m: Entries, w: Write)
    requires Skips(m, w) && w.o.localized && w.o.localizedCountry
    ensures m[KEntryKey(w.g, w.k, true, w.o.forDefault)].mValue.Chars() == w.value.Chars()
  {
  }

  /** A line of a user's file. */
  lemma UserLine(m: Entries, g: bytes, l: Line, s: Seen)
    requires l.k != [] && MarkerMutable(m, g) && Reflects(m, g, l.k, false, s) && s.Get(l.tag).Null?
    ensures Reflects(Apply(m, AsWrite(g, l, false)), g, l.k, false, s.Add(l))
    ensures forall x: KEntryKey :: x.bDefault && x.mKey != [] ==> SameAt(m, Apply(m, AsWrite(g, l, false)), x)
  {
    hide Stored, Apply, SameEntry;
    var w := AsWrite(g, l, false);
    StoredOther(m, w, l, false);
    if l.tag == Untagged {
      PlainApply(m, w);
      StoredReflects(m, w, l, false, s);
    } else {
      LocalizedApply(m, w);
      if Skips(m, w) {
        if l.tag == Country {
          SkipsSame(m, w);
        }
        SkippedReflects(m, w, l, false, s);
      } else {
        StoredReflects(m, w, l, false, s);
      }
    }
  }

  /** A line of a file of defaults, which is mirrored unless it is skipped. */
  lemma DefaultLine(m: Entries, g: bytes, l: Line, s: Seen)
    requires l.k != [] && MarkerMutable(m, g) && s.Get(l.tag).Null?
    requires Reflects(m, g, l.k, false, s) && Reflects(m, g, l.k, true, s)
    ensures Reflects(Apply(m, AsWrite(g, l, true)), g, l.k, false, s.Add(l))
    ensures Reflects(Apply(m, AsWrite(g, l, true)), g, l.k, true, s.Add(l))
  {
    hide Stored, Apply, SameEntry, Reflects, MarkerMutable;
    var w, u := AsWrite(g, l, true), AsWrite(g, l, false);
    var n := Stored(m, g, l.k, w.value, w.o);
    assert w.(o := w.o.(forDefault := false)) == u;
    StoredOther(m, w, l, true);
    SkipCases(m, g, l, s);
    if l.tag != Untagged && Skips(m, w) {
      LocalizedApply(m, w);
      SkippedReflects(m, w, l, true, s);
      SkippedReflects(m, u, l, false, s);
    } else {
      StoredReflects(m, w, l, true, s);
      ReflectsAlike(m, n, g, l.k, false, s);
      UserLine(n, g, l, s);
      ReflectsAlike(n, Apply(n, u), g, l.k, true, s.Add(l));
      if l.tag == Untagged {
        DefaultApply(m, w);
      } else {
        LocalizedApply(m, w);
      }
    }
  }

  /** When a default line is skipped, the entry it would be mirrored to is in the same state. */
  lemma SkipCases(m: Entries, g: bytes, l: Line, s: Seen)
    requires l.k != [] && s.Get(l.tag).Null? && MarkerMutable(m, g)
    requires Reflects(m, g, l.k, false, s) && Reflects(m, g, l.k, true, s)
    ensures var w := AsWrite(g, l, true);
            && !Refused(m, g, l.k, w.o)
            && (l.tag == Untagged ==> KEntryKey(g, l.k, false, true) !in m)
            && (l.tag != Untagged && Skips(m, w) ==> KEntryKey(g, l.k, true, false) in m)
            && (l.tag == Country && Skips(m, w) ==>
               m[KEntryKey(g, l.k, true, true)].mValue.Chars() == l.v
                   && m[KEntryKey(g, l.k, true, false)].mValue.Chars() == l.v)
            && (l.tag == Language && !Skips(m, w) ==> !s.country.Data?)
  {
    var w := AsWrite(g, l, true);
    if l.tag == Country && Skips(m, w) {
      SkipsSame(m, w);
    }
  }

  lemma ReflectsAlike(m: Entries, m': Entries, g: bytes, k: bytes, d: bool, s: Seen)
    requires Reflects(m, g, k, d, s)
    requires SameAt(m, m', KEntryKey(g, k, false, d)) && SameAt(m, m', KEntryKey(g, k, true, d))
    ensures Reflects(m', g, k, d, s)
  {
  }

  // ---------------------------------------------------------------------------
  // All lines of a group
  // ---------------------------------------------------------------------------

  function AddAll(s: Seen, ls: seq<Line>, k: bytes): Seen
    decreases |ls|
  {
    if ls == [] then s else AddAll(if ls[0].k == k then s.Add(ls[0]) else s, ls[1..], k)
  }

  lemma {:induction false} AddAllIsValueOf(s: Seen, ls: seq<Line>, k: bytes, tag: Tag)
    requires Distinct(ls)
    ensures AddAll(s, ls, k).Get(tag) == Or(ValueOf(ls, k, tag), s.Get(tag))
    decreases |ls|
  {
    if ls == [] {
    } else {
      AddAllIsValueOf(if ls[0].k == k then s.Add(ls[0]) else s, ls[1..], k, tag);
      if ls[0].k == k && ls[0].tag == tag {
        NoSecondLine(ls[1..], k, tag);
      }
    }
  }

  lemma {:induction false} NoSecondLine(ls: seq<Line>, k: bytes, tag: Tag)
    requires forall l :: l in ls ==> l.k != k || l.tag != tag
    ensures ValueOf(ls, k, tag) == Null
    decreases |ls|
  {
    if ls == [] {
    } else {
      NoSecondLine(ls[1..], k, tag);
    }
  }

  /** No line of the rest has been read. */
  ghost predicate Fresh(s: Seen, ls: seq<Line>, k: bytes) {
    forall l :: l in ls && l.k == k ==> s.Get(l.tag).Null?
  }

  lemma MarkerStays(m: Entries, g: bytes, l: Line, d: bool)
    requires l.k != [] && MarkerMutable(m, g)
    ensures MarkerMutable(Apply(m, AsWrite(g, l, d)), g)
    decreases d
  {
    hide Stored, Apply, SameEntry;
    var w := AsWrite(g, l, d);
    StoredOther(m, w, l, d);
    var s := Stored(m, g, l.k, w.value, w.o);
    if d {
      assert w.(o := w.o.(forDefault := false)) == AsWrite(g, l, false);
      MarkerStays(s, g, l, false);
    }
    if l.tag != Untagged {
      LocalizedApply(m, w);
    } else if d {
      DefaultApply(m, w);
    } else {
      PlainApply(m, w);
    }
  }

  lemma {:induction false} ParseReflects(m: Entries, g: bytes, ls: seq<Line>, forDefault: bool, k: bytes, s: Seen)
    requires k != [] && (forall l :: l in ls ==> l.k != []) && Distinct(ls) && Fresh(s, ls, k)
    requires MarkerMutable(m, g)
    requires Reflects(m, g, k, false, s) && (forDefault ==> Reflects(m, g, k, true, s))
    ensures var n := Parse(m, g, ls, forDefault);
            && Reflects(n, g, k, false, AddAll(s, ls, k))
            && (forDefault ==> Reflects(n, g, k, true, AddAll(s, ls, k)))
    decreases |ls|
  {
    hide Apply, Reflects, MarkerMutable;
    if ls == [] {
    } else {
      var l, rest := ls[0], ls[1..];
      var w := AsWrite(g, l, forDefault);
      MarkerStays(m, g, l, forDefault);
      if l.k == k {
        if forDefault {
          DefaultLine(m, g, l, s);
        } else {
          UserLine(m, g, l, s);
        }
        ParseReflects(Apply(m, w), g, rest, forDefault, k, s.Add(l));
      } else {
        forall x: KEntryKey | x.mGroup == g && x.mKey == k
          ensures SameAt(m, Apply(m, w), x)
        {
          OthersUntouched(m, w, x);
        }
        ReflectsAlike(m, Apply(m, w), g, k, false, s);
        if forDefault {
          ReflectsAlike(m, Apply(m, w), g, k, true, s);
        }
        ParseReflects(Apply(m, w), g, rest, forDefault, k, s);
      }
    }
  }

  /** The group has no entry for k yet. */
  ghost predicate NoEntryFor(m: Entries, g: bytes, k: bytes) {
    forall x: KEntryKey :: x.mGroup == g && x.mKey == k ==> x !in m
  }

  /** What the lookups of a group's keys give once its lines have been read: a localized lookup
      the lang_COUNTRY value, else the lang value, else the plain one; a plain lookup the plain
      one. A file of defaults gives the same to the lookups of defaults. */
  lemma LocalizedLookup(m: Entries, g: bytes, ls: seq<Line>, forDefault: bool, k: bytes, fallback: QByteArray,
                        flags: SearchFlags)
    requires k != [] && (forall l :: l in ls ==> l.k != []) && Distinct(ls)
    requires MarkerMutable(m, g) && NoEntryFor(m, g, k)
    requires flags.defaults ==> forDefault
    ensures var plain := Or(ValueOf(ls, k, Untagged), fallback);
            GetEntry(Parse(m, g, ls, forDefault), g, k, fallback, flags) ==
            if flags.localized then Or(ValueOf(ls, k, Country), Or(ValueOf(ls, k, Language), plain)) else plain
  {
    hide Parse, ValueOf, AddAll;
    var s := Seen(Null, Null, Null);
    ParseReflects(m, g, ls, forDefault, k, s);
    AddAllIsValueOf(s, ls, k, Untagged);
    AddAllIsValueOf(s, ls, k, Language);
    AddAllIsValueOf(s, ls, k, Country);
  }

  /** The entries themselves, once the lines have been read. */
  lemma EntriesAfter(m: Entries, g: bytes, ls: seq<Line>, forDefault: bool, k: bytes, d: bool)
    requires k != [] && (forall l :: l in ls ==> l.k != []) && Distinct(ls)
    requires MarkerMutable(m, g) && NoEntryFor(m, g, k)
    requires d ==> forDefault
    ensures var n := Parse(m, g, ls, forDefault);
            && EntryIs(n, KEntryKey(g, k, false, d), ValueOf(ls, k, Untagged))
            && EntryIs(n, KEntryKey(g, k, true, d), Or(ValueOf(ls, k, Country), ValueOf(ls, k, Language)))
  {
    hide Parse, ValueOf, AddAll;
    var s := Seen(Null, Null, Null);
    ParseReflects(m, g, ls, forDefault, k, s);
    AddAllIsValueOf(s, ls, k, Untagged);
    AddAllIsValueOf(s, ls, k, Language);
    AddAllIsValueOf(s, ls, k, Country);
  }

  lemma {:induction false} ValueOfLine(ls: seq<Line>, k: bytes, tag: Tag)
    ensures ValueOf(ls, k, tag).Data? ==> Line(k, tag, ValueOf(ls, k, tag).data) in ls
    ensures ValueOf(ls, k, tag).Null? ==> forall l :: l in ls ==> l.k != k || l.tag != tag
    decreases |ls|
  {
    if ls == [] {
    } else {
      ValueOfLine(ls[1..], k, tag);
      assert ls == [ls[0]] + ls[1..];
    }
  }

  /** Reading the same lines in another order changes no lookup. */
  lemma OrderIndependence(m: Entries, g: bytes, ls: seq<Line>, ls': seq<Line>, forDefault: bool,
                          k: bytes, fallback: QByteArray, flags: SearchFlags)
    requires k != [] && (forall l :: l in ls ==> l.k != []) && Distinct(ls)
    requires multiset(ls) == multiset(ls')
    requires MarkerMutable(m, g) && NoEntryFor(m, g, k)
    requires flags.defaults ==> forDefault
    ensures GetEntry(Parse(m, g, ls, forDefault), g, k, fallback, flags)
         == GetEntry(Parse(m, g, ls', forDefault), g, k, fallback, flags)
  {
    hide Parse, ValueOf, GetEntry;
    SameLines(ls, ls');
    LocalizedLookup(m, g, ls, forDefault, k, fallback, flags);
    LocalizedLookup(m, g, ls', forDefault, k, fallback, flags);
    forall tag
      ensures ValueOf(ls, k, tag) == ValueOf(ls', k, tag)
    {
      ValueOfLine(ls, k, tag);
      ValueOfLine(ls', k, tag);
    }
  }

  lemma {:induction false} DistinctCount(ls: seq<Line>, l: Line)
    requires Distinct(ls)
    ensures multiset(ls)[l] <= 1
    decreases |ls|
  {
    if ls == [] {
    } else {
      var rest := ls[1..];
      assert ls == [ls[0]] + rest;
      DistinctCount(rest, l);
      if l == ls[0] {
        assert l !in rest;
      }
    }
  }

  lemma TwiceCounted(ls: seq<Line>, i: nat, j: nat)
    requires i < j < |ls| && ls[i] == ls[j]
    ensures multiset(ls)[ls[i]] >= 2
  {
    assert ls == ls[..j] + [ls[j]] + ls[j + 1..];
    assert ls[..j][i] == ls[i];
    assert ls[i] in multiset(ls[..j]);
  }

  lemma SameLines(ls: seq<Line>, ls': seq<Line>)
    requires multiset(ls) == multiset(ls') && Distinct(ls)
    ensures forall l :: l in ls <==> l in ls'
    ensures Distinct(ls')
  {
    forall l
      ensures l in ls <==> l in ls'
    {
      assert l in multiset(ls) <==> l in multiset(ls');
    }
    forall i, j | 0 <= i < j < |ls'|
      ensures ls'[i].k != ls'[j].k || ls'[i].tag != ls'[j].tag
    {
      assert ls'[i] in ls && ls'[j] in ls;
      DistinctCount(ls, ls'[i]);
      if ls'[i] == ls'[j] {
        TwiceCounted(ls', i, j);
      }
    }
  }
}
