/** Lines tagged with a language, on a file that sessions of several countries share. What a
    sync of one of them takes from the others (src/core/kconfigini.cpp:226-263, 346-356). */
module LanguageLines {
  import opened Bytes
  import opened IniCodec
  import opened CodecLaws
  import opened EntryMap
  import opened Immutability
  import opened Revert
  import opened IniParser
  import opened IniWriter
  import opened IniLines
  import opened IniEntries
  import opened TaggedLines
  import opened RawLines
  import opened FileRoundTrip
  import opened Sync
  import opened Protocol
  import opened OtherReaders
  import opened Durability
  import Locale
  import LocaleFiles

  // ---------------------------------------------------------------------------
  // Files of lines `key=value` and `key[tag]=value`
  // ---------------------------------------------------------------------------

  /** A line that the locale's reader can write again. */
  predicate Fits(l: TaggedLine, locale: bytes) {
    l.Ok() && OPEN !in l.k && (l.Foreign(locale) ==> RawStable(l.k))
  }

  ghost predicate AllFit(ls: seq<TaggedLine>, locale: bytes) {
    forall l :: l in ls ==> Fits(l, locale)
  }

  ghost predicate DistinctLines(ls: seq<TaggedLine>) {
    forall i, j :: 0 <= i < j < |ls| ==> ls[i].k != ls[j].k || ls[i].tag != ls[j].tag
  }

  /** The value of the line for (k, tag), Null if there is none. */
  function LineFor(ls: seq<TaggedLine>, k: bytes, tag: QByteArray): QByteArray
    decreases |ls|
  {
    if ls == [] then Null
    else if ls[0].k == k && ls[0].tag == tag then Data(ls[0].v)
    else LineFor(ls[1..], k, tag)
  }

  lemma {:induction false} NoLineFor(ls: seq<TaggedLine>, k: bytes, tag: QByteArray)
    requires forall l :: l in ls ==> l.k != k || l.tag != tag
    ensures LineFor(ls, k, tag) == Null
    decreases |ls|
  {
    if ls == [] {
    } else {
      NoLineFor(ls[1..], k, tag);
    }
  }

  /** What a reader has made of the first lines of the file. */
  ghost function ReadIn(m: Entries, ls: seq<TaggedLine>, opts: ParseOptions): Entries
    decreases |ls|
  {
    if ls == [] then m else ReadIn(ReadOne(m, ls[0], opts), ls[1..], opts)
  }

  function ReadOne(m: Entries, l: TaggedLine, opts: ParseOptions): Entries {
    if l.Foreign(opts.locale) && !opts.merging then m else Apply(m, l.Call(DEFAULT_GROUP, false, opts))
  }

  lemma {:induction false} ReadFile(m: Entries, ls: seq<TaggedLine>, opts: ParseOptions)
    requires !opts.global && forall l :: l in ls ==> l.Ok()
    ensures ParseText(InitialState(m), TaggedFile(ls), opts) == InitialState(ReadIn(m, ls, opts))
    decreases |ls|
  {
    hide ParseLine, FirstLine, TaggedLine.Text, TaggedLine.Ok, TaggedLine.Call, TaggedLine.Foreign, Apply;
    if ls == [] {
    } else {
      var st, first := InitialState(m), ls[0].Text();
      ReadTagged(st, ls[0], opts);
      ParseOneLine(st, first, opts);
      ParseTextConcat(st, first + [NEWLINE], TaggedFile(ls[1..]), opts);
      ReadFile(ReadOne(m, ls[0], opts), ls[1..], opts);
    }
  }

  lemma ConfigOf(ls: seq<TaggedLine>, opts: ParseOptions)
    requires !opts.global && forall l :: l in ls ==> l.Ok()
    ensures ParseConfig(TaggedFile(ls), map[], opts) == ParseResult(ReadIn(map[], ls, opts), ParseOk)
  {
    hide ParseText, TaggedFile, TaggedLine.Ok, ReadIn;
    ReadFile(map[], ls, opts);
  }

  // ---------------------------------------------------------------------------
  // They are fit for syncing
  // ---------------------------------------------------------------------------

  /** An entry as such a line leaves it; the keys of foreign lines are told by their brackets. */
  predicate FromLine(x: KEntryKey, e: KEntry, locale: bytes) {
    && x.mGroup == DEFAULT_GROUP && !x.bDefault
    && e == NEW_ENTRY.(mValue := e.mValue, bRaw := e.bRaw, bLocalizedCountry := e.bLocalizedCountry)
    && e.mValue.Data? && FlushSafe([], e.mValue.data)
    && (if e.bRaw then x.bLocal && RawKeyOk(x.mKey, locale) && OPEN in x.mKey else KeyOk(x.mKey) && OPEN !in x.mKey)
  }

  ghost predicate OnlyLines(m: Entries, locale: bytes) {
    && WellKept(m)
    && forall x :: x in m ==> if x.mKey == [] then m[x] == NEW_ENTRY else FromLine(x, m[x], locale)
  }

  /** The reader for use has what the reader for merging has, but for the foreign lines. */
  ghost predicate OwnPart(d: Entries, r: Entries) {
    forall x: KEntryKey :: x.mKey != [] ==> (x in r <==> x in d && !d[x].bRaw) && (x in r ==> r[x] == d[x])
  }

  /** One entry after the call of a line. */
  lemma CallAt(m: Entries, w: Write, x: KEntryKey)
    requires w.k != [] && !w.o.forDefault && w.value.Data? && x.mKey != []
    requires MarkerMutable(m, w.g) && forall y :: y in m ==> !m[y].bImmutable
    ensures var x0 := KEntryKey(w.g, w.k, w.o.localized, false);
            var n := Apply(m, w);
            if x == x0 then
              x in n && n[x] == if x0 !in m then Prepared(NEW_ENTRY.(bRaw := w.o.rawKey), w.value, w.o)
                                else
                                  var e := Prepared(Overridden(x0, m[x0], w.o), w.value, w.o);
                                  if (w.o.localized && m[x0].bLocalizedCountry && !w.o.localizedCountry)
                                     || SameEntry(m[x0], e) then m[x0] else e
            else if !w.o.localized && x0 in m && x == x0.(bLocal := true) then x !in n
            else SameAt(m, n, x)
  {
    hide Prepared, Overridden, SameEntry;
    if w.o.localized {
      LocalizedApply(m, w);
    } else {
      PlainApply(m, w);
    }
  }

  lemma CallKey(l: TaggedLine, opts: ParseOptions)
    requires l.Ok() && OPEN !in l.k
    ensures var w := l.Call(DEFAULT_GROUP, false, opts);
            w.k != [] && (OPEN in w.k <==> l.Foreign(opts.locale))
                && (l.Foreign(opts.locale) ==> w.o.localized && w.k == l.k + Bracketed(l.tag.Chars()))
  {
    hide FlushSafe, TagOk;
    PlainIsOwn(opts.locale);
    assert l.k + [OPEN] + l.tag.Chars() + [CLOSE] == l.k + Bracketed(l.tag.Chars());
    assert (l.k + Bracketed(l.tag.Chars()))[|l.k|] == OPEN;
  }

  lemma EntryMade(l: TaggedLine, locale: bytes, merging: bool)
    requires Fits(l, locale)
    ensures var w := l.Call(DEFAULT_GROUP, false, ReadOptions(locale, merging));
            && FromLine(KEntryKey(w.g, w.k, w.o.localized, false),
               Prepared(NEW_ENTRY.(bRaw := w.o.rawKey), w.value, w.o), locale)
            && w.o.rawKey == l.Foreign(locale)
  {
    hide FlushSafe, TagOk, OwnLocale, RawStable, RawBase, RawTag;
    CallKey(l, ReadOptions(locale, merging));
    if l.Foreign(locale) {
      TagHasNoBrackets(l.tag.Chars());
      RawKeyParts(l.k, l.tag.Chars());
    }
  }

  /** Storing over an entry of such a line. */
  lemma EntryChanged(x: KEntryKey, e: KEntry, w: Write, locale: bytes)
    requires FromLine(x, e, locale) && x == KEntryKey(w.g, w.k, w.o.localized, false)
    requires FromLine(x, Prepared(NEW_ENTRY.(bRaw := w.o.rawKey), w.value, w.o), locale)
    ensures FromLine(x, Prepared(Overridden(x, e, w.o), w.value, w.o), locale)
  {
    hide FlushSafe, RawKeyOk;
  }

  lemma NothingImmutable(m: Entries, locale: bytes)
    requires OnlyLines(m, locale)
    ensures (forall g :: MarkerMutable(m, g)) && forall y :: y in m ==> !m[y].bImmutable
  {
    hide RawKeyOk, KeyOk, FlushSafe;
  }

  lemma LineKept(m: Entries, l: TaggedLine, locale: bytes, merging: bool)
    requires OnlyLines(m, locale) && Fits(l, locale)
    ensures OnlyLines(Apply(m, l.Call(DEFAULT_GROUP, false, ReadOptions(locale, merging))), locale)
  {
    hide FromLine, Apply, WellKept, Fits, Prepared, Overridden, SameEntry, TaggedLine.Call;
    var w := l.Call(DEFAULT_GROUP, false, ReadOptions(locale, merging));
    var n := Apply(m, w);
    var x0 := KEntryKey(w.g, w.k, w.o.localized, false);
    CallShape(l, ReadOptions(locale, merging), locale);
    NothingImmutable(m, locale);
    EntryMade(l, locale, merging);
    ApplyWellKept(m, w);
    forall x | x in n
      ensures if x.mKey == [] then n[x] == NEW_ENTRY else FromLine(x, n[x], locale)
    {
      if x.mKey != [] {
        CallAt(m, w, x);
        if x == x0 && x in m {
          EntryChanged(x, m[x], w, locale);
        }
      } else {
        MarkerAfter(m, w, x, locale);
      }
    }
  }

  lemma CallShape(l: TaggedLine, opts: ParseOptions, locale: bytes)
    requires Fits(l, locale) && !opts.defaults
    ensures var w := l.Call(DEFAULT_GROUP, false, opts);
            w.k != [] && w.g == DEFAULT_GROUP && !w.o.forDefault && w.value == Data(l.v)
  {
    hide TaggedLine.Ok, RawStable;
    CallKey(l, opts);
  }

  lemma MarkerAfter(m: Entries, w: Write, x: KEntryKey, locale: bytes)
    requires OnlyLines(m, locale) && w.k != [] && !w.o.forDefault && w.value.Data? && x.mKey == [] && x in Apply(m, w)
    ensures Apply(m, w)[x] == NEW_ENTRY
  {
    hide FromLine, SameEntry, Prepared, Overridden;
    NothingImmutable(m, locale);
    if w.o.localized {
      LocalizedApply(m, w);
    } else {
      PlainApply(m, w);
    }
  }

  lemma OwnPartKept(d: Entries, r: Entries, l: TaggedLine, locale: bytes)
    requires OnlyLines(d, locale) && OnlyLines(r, locale) && OwnPart(d, r) && Fits(l, locale)
    ensures OwnPart(ReadOne(d, l, ReadOptions(locale, true)), ReadOne(r, l, ReadOptions(locale, false)))
  {
    hide FromLine, Apply, WellKept, Fits, Prepared, Overridden, SameEntry, TaggedLine.Call, TaggedLine.Foreign,
         OnlyLines;
    var w := l.Call(DEFAULT_GROUP, false, ReadOptions(locale, true));
    var d', r' := ReadOne(d, l, ReadOptions(locale, true)), ReadOne(r, l, ReadOptions(locale, false));
    SameCall(l, locale);
    CallShape(l, ReadOptions(locale, true), locale);
    NothingImmutable(d, locale);
    NothingImmutable(r, locale);
    EntryMade(l, locale, true);
    forall x: KEntryKey | x.mKey != []
      ensures (x in r' <==> x in d' && !d'[x].bRaw) && (x in r' ==> r'[x] == d'[x])
    {
      CallAt(d, w, x);
      CallAt(r, w, x);
      RawByKey(d, w, l, locale);
    }
  }

  lemma SameCall(l: TaggedLine, locale: bytes)
    ensures l.Call(DEFAULT_GROUP, false, ReadOptions(locale, true))
            == l.Call(DEFAULT_GROUP, false, ReadOptions(locale, false))
  {
  }

  /** An entry under a line's key is raw exactly if the line is foreign, and so is no twin of a
      line without a tag. */
  lemma RawByKey(d: Entries, w: Write, l: TaggedLine, locale: bytes)
    requires OnlyLines(d, locale) && Fits(l, locale) && w == l.Call(DEFAULT_GROUP, false, ReadOptions(locale, true))
    ensures var x0 := KEntryKey(w.g, w.k, w.o.localized, false);
            && (x0 in d ==> d[x0].bRaw == l.Foreign(locale))
            && (x0 in d && !l.Foreign(locale) ==> !Prepared(Overridden(x0, d[x0], w.o), w.value, w.o).bRaw)
            && (x0 in d && l.Foreign(locale) ==> Prepared(Overridden(x0, d[x0], w.o), w.value, w.o).bRaw)
            && Prepared(NEW_ENTRY.(bRaw := w.o.rawKey), w.value, w.o).bRaw == l.Foreign(locale)
            && (!w.o.localized && x0.(bLocal := true) in d ==> !d[x0.(bLocal := true)].bRaw && !l.Foreign(locale))
  {
    hide RawKeyOk, KeyOk, FlushSafe, WellKept, OwnLocale, RawStable;
    CallKey(l, ReadOptions(locale, true));
    EntryMade(l, locale, true);
  }

  lemma {:induction false} LinesKept(d: Entries, r: Entries, ls: seq<TaggedLine>, locale: bytes)
    requires OnlyLines(d, locale) && OnlyLines(r, locale) && OwnPart(d, r) && AllFit(ls, locale)
    ensures var d', r' := ReadIn(d, ls, ReadOptions(locale, true)), ReadIn(r, ls, ReadOptions(locale, false));
            OnlyLines(d', locale) && OnlyLines(r', locale) && OwnPart(d', r')
    decreases |ls|
  {
    hide OnlyLines, OwnPart, Fits, Apply, TaggedLine.Call, TaggedLine.Foreign;
    if ls == [] {
    } else {
      OwnPartKept(d, r, ls[0], locale);
      LineKept(d, ls[0], locale, true);
      LineKept(r, ls[0], locale, false);
      LinesKept(ReadOne(d, ls[0], ReadOptions(locale, true)), ReadOne(r, ls[0], ReadOptions(locale, false)), ls[1..],
          locale);
    }
  }

  lemma LinesRepresentable(d: Entries, locale: bytes)
    requires OnlyLines(d, locale)
    ensures Representable(d, locale)
  {
    hide RawKeyOk, KeyOk, FlushSafe;
  }

  lemma OwnLinesMemoryOk(r: Entries, locale: bytes)
    requires OnlyLines(r, locale) && forall x :: x in r && x.mKey != [] ==> !r[x].bRaw
    ensures MemoryOk(r)
  {
    hide RawKeyOk, KeyOk, FlushSafe;
  }

  lemma OwnPartAgrees(d: Entries, r: Entries, locale: bytes)
    requires OnlyLines(d, locale) && OwnPart(d, r)
    ensures ReadersAgree(d, r)
  {
    hide RawKeyOk, KeyOk, FlushSafe;
  }

  /** Such a file can be merged into and read by objects of the locale. */
  lemma TaggedFileOk(ls: seq<TaggedLine>, locale: bytes)
    requires AllFit(ls, locale)
    ensures FileOk(TaggedFile(ls), locale)
    ensures OnDisk(TaggedFile(ls), locale) == ReadIn(map[], ls, ReadOptions(locale, true))
  {
    hide TaggedFile, ParseConfig, ReadIn, TaggedLine.Ok, RawStable, OnlyLines, OwnPart, Representable, MemoryOk,
         ReadersAgree, FileOk;
    NothingYet(locale);
    LinesKept(map[], map[], ls, locale);
    ConfigOf(ls, ReadOptions(locale, true));
    ConfigOf(ls, ReadOptions(locale, false));
    var d, r := ReadIn(map[], ls, ReadOptions(locale, true)), ReadIn(map[], ls, ReadOptions(locale, false));
    LinesRepresentable(d, locale);
    OwnLinesMemoryOk(r, locale) by { OwnPartNotRaw(d, r); }
    OwnPartAgrees(d, r, locale);
    FileOkFrom(TaggedFile(ls), locale);
  }

  lemma NothingYet(locale: bytes)
    ensures OnlyLines(map[], locale) && OwnPart(map[], map[])
  {
  }

  lemma OwnPartNotRaw(d: Entries, r: Entries)
    requires OwnPart(d, r)
    ensures forall x :: x in r && x.mKey != [] ==> !r[x].bRaw
  {
  }

  // ---------------------------------------------------------------------------
  // What a merge finds in them
  // ---------------------------------------------------------------------------

  /** The entry of a line that is not for the locale or has no tag. */
  function EntryFor(k: bytes, tag: QByteArray): KEntryKey {
    if tag.Null? then Plain(DEFAULT_GROUP, k) else KEntryKey(DEFAULT_GROUP, k + Bracketed(tag.data), true, false)
  }

  predicate OthersTag(tag: QByteArray, locale: bytes) {
    tag.Data? ==> TagOk(tag.data) && !OwnLocale(tag.data, locale)
  }

  lemma OneEntryFor(l: TaggedLine, k: bytes, tag: QByteArray, locale: bytes)
    requires Fits(l, locale) && OPEN !in k && k != [] && OthersTag(tag, locale)
    ensures var w := l.Call(DEFAULT_GROUP, false, ReadOptions(locale, true));
            var x, x0 := EntryFor(k, tag), KEntryKey(w.g, w.k, w.o.localized, false);
            && (x == x0 <==> l.k == k && l.tag == tag)
            && (!w.o.localized ==> x != x0.(bLocal := true))
            && x.mKey != []
            && (x == x0 ==>
              TextOf(Prepared(NEW_ENTRY.(bRaw := w.o.rawKey), w.value, w.o)) == Present(Data(l.v), false, tag.Data?))
  {
    hide FlushSafe, OwnLocale, RawStable, TagOk;
    CallKey(l, ReadOptions(locale, true));
    PlainIsOwn(locale);
    if tag.Data? {
      assert (k + Bracketed(tag.data))[|k|] == OPEN;
      if l.Foreign(locale) && l.k + Bracketed(l.tag.Chars()) == k + Bracketed(tag.data) {
        SameParts(l.k, l.tag.Chars(), k, tag.data);
      }
    }
  }

  lemma SameParts(a: bytes, s: bytes, b: bytes, t: bytes)
    requires OPEN !in a && OPEN !in b && a + Bracketed(s) == b + Bracketed(t)
    ensures a == b && s == t
  {
    var u, v := a + Bracketed(s), b + Bracketed(t);
    assert u[|a|] == OPEN && v[|b|] == OPEN;
    assert |a| == |b|;
    assert a == u[..|a|] && b == v[..|b|];
    assert s == u[|a| + 1..|u| - 1] && t == v[|b| + 1..|v| - 1];
  }

  lemma LineForHead(ls: seq<TaggedLine>, k: bytes, tag: QByteArray)
    requires ls != [] && DistinctLines(ls)
    ensures DistinctLines(ls[1..])
    ensures ls[0].k == k && ls[0].tag == tag ==> LineFor(ls[1..], k, tag) == Null
  {
    var rest := ls[1..];
    if ls[0].k == k && ls[0].tag == tag {
      forall l | l in rest
        ensures l.k != k || l.tag != tag
      {
        var i :| 0 <= i < |rest| && rest[i] == l;
        assert ls[i + 1] == l;
      }
      NoLineFor(rest, k, tag);
    }
  }

  lemma {:induction false} ReadValue(m: Entries, ls: seq<TaggedLine>, locale: bytes, k: bytes, tag: QByteArray)
    requires OnlyLines(m, locale) && AllFit(ls, locale) && DistinctLines(ls) && OPEN !in k && k != []
             && OthersTag(tag, locale)
    requires EntryFor(k, tag) in m ==> LineFor(ls, k, tag).Null?
    ensures TextAt(ReadIn(m, ls, ReadOptions(locale, true)), EntryFor(k, tag)) ==
            if LineFor(ls, k, tag).Data? then Present(LineFor(ls, k, tag), false, tag.Data?)
               else TextAt(m, EntryFor(k, tag))
    decreases |ls|
  {
    hide OnlyLines, Fits, Apply, TaggedLine.Call, OthersTag, DistinctLines, EntryFor, Prepared, Overridden, SameEntry,
         TextOf;
    if ls == [] {
    } else {
      var opts := ReadOptions(locale, true);
      var w, x := ls[0].Call(DEFAULT_GROUP, false, opts), EntryFor(k, tag);
      CallShape(ls[0], opts, locale);
      NothingImmutable(m, locale);
      OneEntryFor(ls[0], k, tag, locale);
      CallAt(m, w, x);
      LineKept(m, ls[0], locale, true);
      LineForHead(ls, k, tag);
      ReadValue(ReadOne(m, ls[0], opts), ls[1..], locale, k, tag);
    }
  }

  // ---------------------------------------------------------------------------
  // What another reader finds in them
  // ---------------------------------------------------------------------------

  function TagFor(tag: QByteArray, locale: bytes): Locale.Tag
  {
    if tag.Null? then Locale.Untagged else if tag.data == locale then Locale.Country else Locale.Language
  }

  /** The lines that concern a reader. */
  function OwnLines(ls: seq<TaggedLine>, locale: bytes): seq<Locale.Line>
    decreases |ls|
  {
    if ls == [] then []
    else
      (if ls[0].Foreign(locale) then [] else [Locale.Line(ls[0].k, TagFor(ls[0].tag, locale), ls[0].v)])
          + OwnLines(ls[1..], locale)
  }

  lemma OwnTagIs(l: TaggedLine, locale: bytes, tag: Locale.Tag)
    requires l.Ok() && LocaleFiles.CountryLocale(locale) && locale != EN_US
    ensures !l.Foreign(locale) ==> (TagFor(l.tag, locale) == tag <==> l.tag == LocaleFiles.TagIn(tag, locale))
    ensures l.tag == LocaleFiles.TagIn(tag, locale) ==> !l.Foreign(locale)
  {
    hide FlushSafe, KeyOk, TagOk;
    LocaleFiles.OwnTags(tag, locale);
    if l.tag.Data? {
      NotEmptyTag(l);
    }
    LanguageIsShorter(locale);
  }

  lemma NotEmptyTag(l: TaggedLine)
    requires l.Ok() && l.tag.Data?
    ensures l.tag.data != []
  {
    hide FlushSafe, KeyOk;
  }

  lemma LanguageIsShorter(locale: bytes)
    requires UNDERSCORE in locale
    ensures Language(locale) != locale
  {
  }

  /** The reader's call for one of its lines. */
  lemma OwnCall(l: TaggedLine, locale: bytes)
    requires l.Ok() && LocaleFiles.CountryLocale(locale) && locale != EN_US && !l.Foreign(locale)
    ensures l.Call(DEFAULT_GROUP, false, ReadOptions(locale, false))
         == Locale.AsWrite(DEFAULT_GROUP, Locale.Line(l.k, TagFor(l.tag, locale), l.v), false)
  {
    hide FlushSafe, KeyOk, TagOk, OwnLocale;
    var tag := TagFor(l.tag, locale);
    OwnTagIs(l, locale, tag);
    LocaleFiles.OwnTags(tag, locale);
  }

  lemma {:induction false} ReadInIsParse(m: Entries, ls: seq<TaggedLine>, locale: bytes)
    requires (forall l :: l in ls ==> l.Ok()) && LocaleFiles.CountryLocale(locale) && locale != EN_US
    ensures ReadIn(m, ls, ReadOptions(locale, false)) == Locale.Parse(m, DEFAULT_GROUP, OwnLines(ls, locale), false)
    decreases |ls|
  {
    hide Apply, TaggedLine.Ok, TaggedLine.Call, TaggedLine.Foreign, Locale.AsWrite, LocaleFiles.CountryLocale;
    if ls == [] {
    } else {
      var opts := ReadOptions(locale, false);
      ReadInIsParse(ReadOne(m, ls[0], opts), ls[1..], locale);
      if ls[0].Foreign(locale) {
        assert [] + OwnLines(ls[1..], locale) == OwnLines(ls[1..], locale);
      } else {
        OwnCall(ls[0], locale);
        var own := [Locale.Line(ls[0].k, TagFor(ls[0].tag, locale), ls[0].v)];
        assert (own + OwnLines(ls[1..], locale))[1..] == OwnLines(ls[1..], locale);
      }
    }
  }

  lemma {:induction false} OwnValue(ls: seq<TaggedLine>, locale: bytes, k: bytes, tag: Locale.Tag)
    requires (forall l :: l in ls ==> l.Ok()) && LocaleFiles.CountryLocale(locale) && locale != EN_US
    ensures Locale.ValueOf(OwnLines(ls, locale), k, tag) == LineFor(ls, k, LocaleFiles.TagIn(tag, locale))
    decreases |ls|
  {
    hide TaggedLine.Ok, TaggedLine.Foreign, LocaleFiles.CountryLocale, LocaleFiles.TagIn, TagFor;
    if ls == [] {
    } else {
      OwnValue(ls[1..], locale, k, tag);
      OwnTagIs(ls[0], locale, tag);
      var own := [Locale.Line(ls[0].k, TagFor(ls[0].tag, locale), ls[0].v)];
      assert [] + OwnLines(ls[1..], locale) == OwnLines(ls[1..], locale);
      assert (own + OwnLines(ls[1..], locale))[1..] == OwnLines(ls[1..], locale);
    }
  }

  lemma {:induction false} OwnLineIsThere(ls: seq<TaggedLine>, locale: bytes, o: Locale.Line)
    requires (forall l :: l in ls ==> l.Ok()) && LocaleFiles.CountryLocale(locale) && locale != EN_US
    requires o in OwnLines(ls, locale)
    ensures o.k != [] && exists l :: l in ls && l.k == o.k && l.tag == LocaleFiles.TagIn(o.tag, locale)
    decreases |ls|
  {
    hide TaggedLine.Foreign, LocaleFiles.CountryLocale, LocaleFiles.TagIn, TagFor, TagOk, FlushSafe;
    var own := Locale.Line(ls[0].k, TagFor(ls[0].tag, locale), ls[0].v);
    if o in OwnLines(ls[1..], locale) {
      OwnLineIsThere(ls[1..], locale, o);
    } else {
      assert o == own;
      OwnTagIs(ls[0], locale, o.tag);
      assert ls[0] in ls;
    }
  }

  lemma {:induction false} OwnLinesDistinct(ls: seq<TaggedLine>, locale: bytes)
    requires (forall l :: l in ls ==> l.Ok()) && LocaleFiles.CountryLocale(locale) && locale != EN_US
             && DistinctLines(ls)
    ensures Locale.Distinct(OwnLines(ls, locale)) && forall o :: o in OwnLines(ls, locale) ==> o.k != []
    decreases |ls|
  {
    hide TaggedLine.Ok, TaggedLine.Foreign, LocaleFiles.CountryLocale, LocaleFiles.TagIn, TagFor;
    if ls == [] {
    } else {
      var rest := OwnLines(ls[1..], locale);
      OwnLinesDistinct(ls[1..], locale);
      assert [] + rest == rest;
      forall o | o in OwnLines(ls, locale)
        ensures o.k != []
      {
        OwnLineIsThere(ls, locale, o);
      }
      if !ls[0].Foreign(locale) {
        var own := Locale.Line(ls[0].k, TagFor(ls[0].tag, locale), ls[0].v);
        OwnTagIs(ls[0], locale, own.tag);
        forall o | o in rest
          ensures o.k != own.k || o.tag != own.tag
        {
          OwnLineIsThere(ls[1..], locale, o);
        }
        ConsDistinct(own, rest);
      }
    }
  }

  lemma ConsDistinct(own: Locale.Line, rest: seq<Locale.Line>)
    requires Locale.Distinct(rest) && forall o :: o in rest ==> o.k != own.k || o.tag != own.tag
    ensures Locale.Distinct([own] + rest)
  {
  }

  /** A reader's localized lookup in such a file. */
  lemma LookupBefore(ls: seq<TaggedLine>, other: bytes, k: bytes, fallback: QByteArray)
    requires (forall l :: l in ls ==> l.Ok()) && LocaleFiles.CountryLocale(other) && other != EN_US
             && DistinctLines(ls) && k != []
    ensures GetEntry(Loaded(TaggedFile(ls), other), DEFAULT_GROUP, k, fallback, LOCALIZED)
         == Locale.Or(LineFor(ls, k, Data(other)),
             Locale.Or(LineFor(ls, k, Data(Language(other))), Locale.Or(LineFor(ls, k, Null), fallback)))
  {
    hide TaggedFile, ParseConfig, ReadIn, TaggedLine.Ok, LocaleFiles.CountryLocale, DistinctLines, OwnLines,
         Locale.Parse, GetEntry;
    var own := OwnLines(ls, other);
    ConfigOf(ls, ReadOptions(other, false));
    ReadInIsParse(map[], ls, other);
    OwnLinesDistinct(ls, other);
    Locale.LocalizedLookup(map[], DEFAULT_GROUP, own, false, k, fallback, LOCALIZED);
    OwnValue(ls, other, k, Locale.Untagged);
    OwnValue(ls, other, k, Locale.Language);
    OwnValue(ls, other, k, Locale.Country);
  }

  // ---------------------------------------------------------------------------
  // Before and after a sync
  // ---------------------------------------------------------------------------

  /** Two countries of one language. */
  predicate Neighbours(locale: bytes, other: bytes) {
    Stranger(other, locale) && LocaleFiles.CountryLocale(other)
  }

  /** The localized lookup of a reader with another locale, after the sync of an object that
      has not changed the key: the line with the language alone is not found any more. */
  lemma LookupAfter(c: Config, ls: seq<TaggedLine>, locale: bytes, other: bytes, k: bytes, fallback: QByteArray)
    requires Neighbours(locale, other) && AllFit(ls, locale) && DistinctLines(ls) && k != [] && OPEN !in k
    requires MemoryOk(c.entryMap) && Writes(c) && !Carries(c.entryMap, Plain(DEFAULT_GROUP, k))
    ensures GetEntry(Loaded(SyncFile(OnFile(c, TaggedFile(ls)), locale).file, other), DEFAULT_GROUP, k, fallback,
            LOCALIZED)
         == Locale.Or(LineFor(ls, k, Data(other)), Locale.Or(LineFor(ls, k, Null), fallback))
  {
    hide TaggedFile, ReadIn, LocaleOk, TagOk, OwnLocale, DistinctLines, GetEntry, MemoryOk, AnyDirty, Carries, SyncFile,
         FileOk, OnDisk, Loaded, Fits, LocaleFiles.CountryLocale, LineFor;
    var s := OnFile(c, TaggedFile(ls));
    var n := Loaded(SyncFile(s, locale).file, other);
    var w := OnDisk(s.file, locale);
    var plain, local := Plain(DEFAULT_GROUP, k), Local(DEFAULT_GROUP, k);
    TaggedFileOk(ls, locale);
    SyncForStranger(s, locale, other, plain);
    SyncForStranger(s, locale, other, local);
    LocalIsUncarried(c.entryMap, local);
    NothingYet(locale);
    ForeignToPrinter(other, locale);
    ReadValue(map[], ls, locale, k, Null);
    ReadValue(map[], ls, locale, k, Data(other));
    MergeShows(w, locale, other, k, LineFor(ls, k, Null), LineFor(ls, k, Data(other)));
    LookupIsValue(n, DEFAULT_GROUP, k, fallback);
    TextIsValue(n, plain, LineFor(ls, k, Null));
    TextIsValue(n, local, LineFor(ls, k, Data(other)));
  }

  lemma ForeignToPrinter(other: bytes, locale: bytes)
    requires Neighbours(locale, other)
    ensures OthersTag(Data(other), locale)
  {
    hide TagOk;
    LanguageIsShorter(other);
    assert other != [];
    if locale == EN_US {
      FirstOfLanguage();
      assert Language(other)[0] == other[0];
    }
  }

  lemma FirstOfLanguage()
    ensures Language(EN_US) != [] && Language(EN_US)[0] != UPPER_C
  {
    assert EN_US == [101, 110] + [UNDERSCORE] + [85, 83];
    IndexOfConcat([101, 110], UNDERSCORE, [85, 83]);
  }

  function TextFor(v: QByteArray, raw: bool): Text {
    if v.Data? then Present(v, false, raw) else Absent
  }

  lemma MergeShows(w: Entries, locale: bytes, other: bytes, k: bytes, plain: QByteArray, local: QByteArray)
    requires TextAt(w, EntryFor(k, Null)) == TextFor(plain, false)
             && TextAt(w, EntryFor(k, Data(other))) == TextFor(local, true)
    ensures ShownTo(w, other, Plain(DEFAULT_GROUP, k)) == TextFor(plain, false)
    ensures ShownTo(w, other, Local(DEFAULT_GROUP, k)) == TextFor(local, false)
  {
  }

  lemma TextIsValue(m: Entries, x: KEntryKey, v: QByteArray)
    requires TextAt(m, x) == TextFor(v, false)
    ensures ValueAt(m, x) == v && (x in m <==> v.Data?)
  {
  }

  /** When the other reader notices: for every fallback its lookup stays what it was exactly if
      there is a line for its own country, or none for the language, or the one for the language
      has the same value as the plain one. */
  lemma LanguageLineLostExactly(c: Config, ls: seq<TaggedLine>, locale: bytes, other: bytes, k: bytes)
    requires Neighbours(locale, other) && AllFit(ls, locale) && DistinctLines(ls) && k != [] && OPEN !in k
    requires MemoryOk(c.entryMap) && Writes(c) && !Carries(c.entryMap, Plain(DEFAULT_GROUP, k))
    ensures var file := TaggedFile(ls);
            (forall fallback :: GetEntry(Loaded(SyncFile(OnFile(c, file), locale).file, other), DEFAULT_GROUP, k,
                fallback, LOCALIZED)
                             == GetEntry(Loaded(file, other), DEFAULT_GROUP, k, fallback, LOCALIZED))
            <==> LineFor(ls, k, Data(other)).Data? || LineFor(ls, k, Data(Language(other))).Null?
                 || LineFor(ls, k, Data(Language(other))) == LineFor(ls, k, Null)
  {
    hide TaggedFile, LocaleOk, TagOk, OwnLocale, DistinctLines, GetEntry, MemoryOk, AnyDirty, Carries, SyncFile, Loaded,
         LineFor;
    assert LocaleFiles.CountryLocale(other) && other != EN_US && forall l :: l in ls ==>
           l.Ok() by { FitsAreOk(ls, locale); }
    hide Neighbours, LocaleFiles.CountryLocale, AllFit, TaggedLine.Ok;
    if LineFor(ls, k, Data(other)).Data? || LineFor(ls, k, Data(Language(other))).Null?
       || LineFor(ls, k, Data(Language(other))) == LineFor(ls, k, Null) {
      forall fallback
        ensures GetEntry(Loaded(SyncFile(OnFile(c, TaggedFile(ls)), locale).file, other), DEFAULT_GROUP, k, fallback,
                LOCALIZED)
             == GetEntry(Loaded(TaggedFile(ls), other), DEFAULT_GROUP, k, fallback, LOCALIZED)
      {
        LookupBefore(ls, other, k, fallback);
        LookupAfter(c, ls, locale, other, k, fallback);
      }
    } else {
      LookupBefore(ls, other, k, Null);
      LookupAfter(c, ls, locale, other, k, Null);
      assert GetEntry(Loaded(SyncFile(OnFile(c, TaggedFile(ls)), locale).file, other), DEFAULT_GROUP, k, Null,
             LOCALIZED)
          != GetEntry(Loaded(TaggedFile(ls), other), DEFAULT_GROUP, k, Null, LOCALIZED);
    }
  }

  lemma FitsAreOk(ls: seq<TaggedLine>, locale: bytes)
    requires AllFit(ls, locale)
    ensures forall l :: l in ls ==> l.Ok()
  {
    hide TaggedLine.Ok, RawStable;
  }

  // ---------------------------------------------------------------------------
  // It happens
  // ---------------------------------------------------------------------------

  const AUSTRIA: bytes := [100, 101, 95, 65, 84] // "de_AT"
  const GERMANY: bytes := [100, 101, 95, 68, 69] // "de_DE"
  const GERMAN: bytes := [100, 101] // "de"
  const SHARED: seq<TaggedLine> := [TaggedLine(KEY, Data(GERMAN), [120])] // `k[de]=x`

  /** An Austrian session that has read nothing and written another key. */
  const NEWCOMER: Config := Config(map[Marker(DEFAULT_GROUP) := NEW_ENTRY,
                                       Plain(DEFAULT_GROUP, [122]) := NEW_ENTRY.(mValue := Data([]), bDirty := true)],
                                           true, false)

  lemma OneLanguage()
    ensures Language(AUSTRIA) == GERMAN && Language(GERMANY) == GERMAN && UNDERSCORE in AUSTRIA && UNDERSCORE in GERMANY
  {
    hide IndexOf;
    assert AUSTRIA == GERMAN + [UNDERSCORE] + [65, 84] && GERMANY == GERMAN + [UNDERSCORE] + [68, 69];
    IndexOfConcat(GERMAN, UNDERSCORE, [65, 84]);
    IndexOfConcat(GERMAN, UNDERSCORE, [68, 69]);
  }

  lemma Tags()
    ensures TagOk(AUSTRIA) && TagOk(GERMANY) && TagOk(GERMAN)
    ensures AUSTRIA != GERMANY && AUSTRIA != GERMAN && GERMANY != EN_US && AUSTRIA != C_LOCALE && GERMANY != C_LOCALE
            && AUSTRIA[0] != UPPER_C
  {
    assert AUSTRIA[3] != GERMANY[3] && GERMANY[0] != EN_US[0] && AUSTRIA[0] != UPPER_C && GERMANY[0] != UPPER_C;
  }

  lemma Countries()
    ensures Neighbours(AUSTRIA, GERMANY) && Language(GERMANY) == GERMAN && OwnLocale(GERMAN, AUSTRIA)
    ensures LocaleFiles.CountryLocale(GERMANY) && GERMANY != EN_US
  {
    hide TagOk, Language;
    OneLanguage();
    Tags();
  }

  lemma NewcomerWrites()
    ensures MemoryOk(NEWCOMER.entryMap) && Writes(NEWCOMER) && !Carries(NEWCOMER.entryMap, Plain(DEFAULT_GROUP, KEY))
  {
    var z := Plain(DEFAULT_GROUP, [122]);
    assert NEWCOMER.entryMap[z].bDirty && !NEWCOMER.entryMap[z].bGlobal;
  }

  /** A German reader finds `x`; the Austrian one syncs a key of its own, and the German reader
      finds nothing any more. */
  lemma NeighbourLosesLine(fallback: QByteArray)
    ensures var file := TaggedFile(SHARED);
            && GetEntry(Loaded(file, GERMANY), DEFAULT_GROUP, KEY, fallback, LOCALIZED) == Data([120])
            && GetEntry(Loaded(SyncFile(OnFile(NEWCOMER, file), AUSTRIA).file, GERMANY), DEFAULT_GROUP, KEY, fallback,
               LOCALIZED) == fallback
  {
    hide TaggedFile, GetEntry, Loaded, SyncFile, MemoryOk, Writes, Carries, Neighbours, LocaleFiles.CountryLocale,
         LineFor, AllFit, DistinctLines, TaggedLine.Ok, OwnLocale, Language;
    Countries();
    NewcomerWrites();
    SharedFits();
    assert OPEN !in KEY;
    LookupBefore(SHARED, GERMANY, KEY, fallback);
    LookupAfter(NEWCOMER, SHARED, AUSTRIA, GERMANY, KEY, fallback);
    SharedValues();
  }

  lemma SharedFits()
    ensures AllFit(SHARED, AUSTRIA) && DistinctLines(SHARED) && forall l :: l in SHARED ==> l.Ok()
  {
    hide TagOk, OwnLocale, Language;
    Countries();
    Tags();
  }

  lemma SharedValues()
    ensures LineFor(SHARED, KEY, Data(GERMANY)) == Null && LineFor(SHARED, KEY, Null) == Null
    ensures LineFor(SHARED, KEY, Data(GERMAN)) == Data([120])
  {
    assert SHARED[1..] == [] && |GERMANY| != |GERMAN|;
  }
}
