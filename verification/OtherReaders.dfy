/** What a reader with another locale finds in a printed file. An object prints its localized
    entries under its full locale, whether the file had them under that or under its language
    (src/core/kconfigini.cpp:226-263, 346-356). */
module OtherReaders {
  import opened Bytes
  import opened IniCodec
  import opened CodecLaws
  import opened EntryMap
  import opened Immutability
  import opened IniParser
  import opened IniWriter
  import opened IniLines
  import opened IniEntries
  import opened ParserRuns
  import opened RawLines
  import opened FileRoundTrip
  import opened Sync
  import opened Protocol

  // ---------------------------------------------------------------------------
  // Whose line it is
  // ---------------------------------------------------------------------------

  /** The reader has another locale of the printer's language, so that lines with the printer's
      own tag are foreign to it. */
  predicate Stranger(other: bytes, locale: bytes) {
    LocaleOk(locale) && TagOk(other) && Language(other) == Language(locale) && other != EN_US
        && !OwnLocale(locale, other)
  }

  /** Of the tags that are foreign to the printer only the reader's full locale is its own. */
  lemma StrangersTag(tag: bytes, other: bytes, locale: bytes)
    requires Stranger(other, locale) && TagOk(tag) && !OwnLocale(tag, locale)
    ensures OwnLocale(tag, other) <==> tag == other
  {
    hide TagOk, Language;
  }

  /** The printed tag is the full locale. A line that was tagged with the language keeps its tag
      exactly if the language is the whole locale. */
  lemma LanguageTagKeptExactly(k: KEntryKey, e: KEntry, locale: bytes)
    requires LocaleOk(locale) && k.bLocal && !e.bRaw
    ensures EntryText(locale, k, e) == Encode(KeyString, k.mKey) + Bracketed(locale) + FlagText(e)
                                     + if e.bDeleted then [] else [EQUALS] + Encode(ValueString, e.mValue.Chars())
    ensures KeyText(locale, k, e) == Encode(KeyString, k.mKey) + Bracketed(Language(locale)) <==> UNDERSCORE !in locale
  {
    hide Encode, FlagText, TagOk;
    var t := Encode(KeyString, k.mKey);
    if t + Bracketed(locale) == t + Bracketed(Language(locale)) {
      assert |Bracketed(locale)| == |locale| + 2 && |Bracketed(Language(locale))| == |Language(locale)| + 2;
    }
  }

  // ---------------------------------------------------------------------------
  // What is shown of a key
  // ---------------------------------------------------------------------------

  /** The printed entry that the reader takes for this one. */
  function SourceOf(x: KEntryKey, other: bytes): KEntryKey {
    if x.bLocal then x.(mKey := x.mKey + Bracketed(other)) else x
  }

  /** For the reader the line is not a foreign one. */
  function Unraw(t: Text): Text {
    if t.Present? then t.(raw := false) else t
  }

  predicate IsSource(m: Entries, y: KEntryKey, x: KEntryKey) {
    y in m && m[y].bRaw == x.bLocal
  }

  /** What the reader makes of the entries in seen. */
  ghost function ShownOf(m: Entries, seen: set<KEntryKey>, other: bytes, x: KEntryKey): Text {
    var y := SourceOf(x, other);
    if y in seen && IsSource(m, y, x) then Unraw(TextOf(m[y])) else Absent
  }

  /** What it makes of the whole file: plain entries as they are, and of the localized ones
      only those that are printed with the reader's full locale. */
  function ShownTo(m: Entries, other: bytes, x: KEntryKey): Text {
    var y := SourceOf(x, other);
    if IsSource(m, y, x) then Unraw(TextOf(m[y])) else Absent
  }

  // ---------------------------------------------------------------------------
  // One entry
  // ---------------------------------------------------------------------------

  lemma StoreNew(m: Entries, w: Write)
    requires w.k != [] && !w.o.forDefault && KEntryKey(w.g, w.k, w.o.localized, false) !in m && MarkerMutable(m, w.g)
    ensures Apply(m, w) == Stored(m, w.g, w.k, w.value, w.o)
  {
    hide Stored;
    assert Apply(m, w) == SetNew(m, w.g, w.k, w.value, w.o).m;
  }

  lemma StoredText(m: Entries, w: Write, x: KEntryKey)
    requires w.k != [] && !w.o.forDefault && KEntryKey(w.g, w.k, w.o.localized, false) !in m && x.mKey != []
    ensures TextAt(Stored(m, w.g, w.k, w.value, w.o), x) ==
            if x == KEntryKey(w.g, w.k, w.o.localized, false)
            then TextOf(Prepared(NEW_ENTRY.(bRaw := w.o.rawKey), w.value, w.o)) else TextAt(m, x)
    ensures (forall g :: MarkerMutable(m, g)) ==> forall g :: MarkerMutable(Stored(m, w.g, w.k, w.value, w.o), g)
  {
    hide Prepared, TextOf;
    var s := Stored(m, w.g, w.k, w.value, w.o);
    if forall g :: MarkerMutable(m, g) {
      forall g
        ensures MarkerMutable(s, g)
      {
        assert MarkerMutable(m, g);
      }
    }
  }

  /** The state as far as it concerns the reader. */
  ghost predicate HasReadBy(m: Entries, seen: set<KEntryKey>, other: bytes, p: ParseState) {
    && (forall x: KEntryKey :: x.mKey != [] ==> TextAt(p.m, x) == ShownOf(m, seen, other, x))
    && (forall g :: MarkerMutable(p.m, g))
    && !p.fileImmutable && !p.groupSkip && p.errors == 0
  }

  /** The key that the reader takes the printed entry for. */
  function TargetOf(y: KEntryKey, e: KEntry): KEntryKey {
    if e.bRaw then y.(mKey := RawBase(y.mKey)) else y
  }

  /** Whether the reader reads the line at all. */
  predicate Concerns(y: KEntryKey, e: KEntry, other: bytes) {
    if e.bRaw then RawTag(y.mKey) == other else !y.bLocal
  }

  lemma SourceParts(x: KEntryKey, other: bytes)
    requires x.bLocal && TagOk(other)
    ensures var y := SourceOf(x, other); RawBase(y.mKey) == x.mKey && RawTag(y.mKey) == other
  {
    hide TagOk, RawBase, RawTag, Bracketed;
    TagHasNoBrackets(other);
    RawKeyParts(x.mKey, other);
  }

  lemma TargetParts(y: KEntryKey, e: KEntry, locale: bytes, other: bytes)
    requires EntryOk(y, e, locale) && Concerns(y, e, other)
    ensures SourceOf(TargetOf(y, e), other) == y && TargetOf(y, e).mKey != [] && (TargetOf(y, e).bLocal <==> e.bRaw)
  {
    hide FlushSafe, TagOk, RawBase, RawTag, OwnLocale, Decode;
    if e.bRaw {
      var base, tag := RawBase(y.mKey), RawTag(y.mKey);
      assert y.mKey == base + Bracketed(tag);
    }
  }

  /** What one more entry adds to what is shown. */
  lemma ShownGrows(m: Entries, seen: set<KEntryKey>, y: KEntryKey, locale: bytes, other: bytes, x: KEntryKey)
    requires y in m && EntryOk(y, m[y], locale) && y !in seen && TagOk(other)
    ensures ShownOf(m, seen + {y}, other, x) ==
            if Concerns(y, m[y], other) && x == TargetOf(y, m[y]) then Unraw(TextOf(m[y]))
               else ShownOf(m, seen, other, x)
    ensures Concerns(y, m[y], other) ==> ShownOf(m, seen, other, TargetOf(y, m[y])) == Absent
  {
    hide EntryOk, TagOk, TextOf, RawBase, RawTag, Bracketed;
    if Concerns(y, m[y], other) {
      TargetParts(y, m[y], locale, other);
    }
    if SourceOf(x, other) == y && IsSource(m, y, x) {
      RawIsLocal(y, m[y], locale);
      if x.bLocal {
        SourceParts(x, other);
      }
    }
  }

  /** The reader's call for the line, and the text that it stores. */
  lemma EnteredCall(st: ParseState, y: KEntryKey, e: KEntry, locale: bytes, other: bytes)
    requires Stranger(other, locale) && EntryOk(y, e, locale) && st.group == y.mGroup
    ensures var opts := ReadOptions(other, false);
            if Concerns(y, e, other) then
              exists w: Write ::
                && EnteredBy(st, y, e, locale, opts) == st.(m := Apply(st.m, w))
                && w.k != [] && w.g == y.mGroup && !w.o.forDefault && !w.o.rawKey
                && KEntryKey(w.g, w.k, w.o.localized, false) == TargetOf(y, e)
                && TextOf(Prepared(NEW_ENTRY.(bRaw := w.o.rawKey), w.value, w.o)) == Unraw(TextOf(e))
            else EnteredBy(st, y, e, locale, opts) == st
  {
    hide FlushSafe, TagOk, RawBase, RawTag, OwnLocale, Decode, SetEntry, KeyOk, RawStable, LocaleOk;
    var opts := ReadOptions(other, false);
    var tag := TagOf(y, e, locale);
    PlainIsOwn(other);
    if e.bRaw {
      StrangersTag(RawTag(y.mKey), other, locale);
    }
    if Concerns(y, e, other) {
      TargetParts(y, e, locale, other);
      var o := OptionsOf(y, e, locale, st.groupImmutable).(rawKey := false, localized := tag.Data?);
      var w := Write(y.mGroup, BaseOf(y, e), e.mValue, o);
      assert EnteredBy(st, y, e, locale, opts) == st.(m := Apply(st.m, w));
    }
  }

  lemma ReadNextBy(m: Entries, seen: set<KEntryKey>, y: KEntryKey, locale: bytes, other: bytes, p: ParseState)
    requires Representable(m, locale) && Stranger(other, locale) && HasReadBy(m, seen, other, p)
    requires y in m && y.mKey != [] && y !in seen && p.group == y.mGroup
    ensures var p' := ParseText(p, EntryText(locale, y, m[y]) + [NEWLINE], ReadOptions(other, false));
            HasReadBy(m, seen + {y}, other, p') && p'.group == p.group
  {
    hide EntryText, EntryOk, ParseLine, ParseText, EnteredBy, LocaleOk, TagOk, OwnLocale, WellKept, TextAt, TextOf,
         ShownOf, TargetOf, Concerns, Prepared, Unraw, Stored, Apply, MarkerMutable, GroupOk;
    var opts := ReadOptions(other, false);
    assert RepresentableAt(m, y, locale);
    ReadEntryBy(p, y, m[y], locale, opts);
    ParseOneLine(p, EntryText(locale, y, m[y]), opts);
    EnteredCall(p, y, m[y], locale, other);
    forall x: KEntryKey | x.mKey != []
      ensures ShownOf(m, seen + {y}, other, x) ==
              if Concerns(y, m[y], other) && x == TargetOf(y, m[y]) then Unraw(TextOf(m[y]))
                 else ShownOf(m, seen, other, x)
    {
      ShownGrows(m, seen, y, locale, other, x);
    }
    if Concerns(y, m[y], other) {
      var w: Write :| EnteredBy(p, y, m[y], locale, opts) == p.(m := Apply(p.m, w))
                      && w.k != [] && w.g == y.mGroup && !w.o.forDefault && !w.o.rawKey
                      && KEntryKey(w.g, w.k, w.o.localized, false) == TargetOf(y, m[y])
                      && TextOf(Prepared(NEW_ENTRY.(bRaw := w.o.rawKey), w.value, w.o)) == Unraw(TextOf(m[y]));
      var x0 := TargetOf(y, m[y]);
      ShownGrows(m, seen, y, locale, other, x0);
      NotThere(p.m, x0);
      StoreNew(p.m, w);
      forall x: KEntryKey | x.mKey != []
        ensures TextAt(Apply(p.m, w), x) == if x == x0 then Unraw(TextOf(m[y])) else TextAt(p.m, x)
        ensures forall g :: MarkerMutable(Apply(p.m, w), g)
      {
        StoredText(p.m, w, x);
      }
      StoredText(p.m, w, x0);
    }
  }

  lemma NotThere(m: Entries, x: KEntryKey)
    requires TextAt(m, x) == Absent
    ensures x !in m
  {
  }

  lemma ReadHeaderBy(m: Entries, seen: set<KEntryKey>, first: bool, g: bytes, immutable: bool, other: bytes,
                     p: ParseState)
    requires HasReadBy(m, seen, other, p) && GroupOk(g)
    ensures var p' := ParseText(p, HeaderLines(first, g, immutable), ReadOptions(other, false));
            HasReadBy(m, seen, other, p') && p'.group == g
  {
    hide HeaderText, ParseLine, ParseText, GroupOk, TextAt, ShownOf;
    var opts := ReadOptions(other, false);
    var h := HeaderText(g, immutable);
    assert MarkerMutable(p.m, g);
    ReadHeader(p, g, immutable, opts);
    HeaderPrintable(g, immutable);
    ParseOneLine(p, h, opts);
    if !first {
      ReadBlankLine(p, opts);
      ParseTextConcat(p, [NEWLINE], h + [NEWLINE], opts);
      ConcatAssociative([NEWLINE], h, [NEWLINE]);
    } else {
      ConcatAssociative([], h, [NEWLINE]);
      assert [] + (h + [NEWLINE]) == h + [NEWLINE];
    }
  }

  // ---------------------------------------------------------------------------
  // The whole file
  // ---------------------------------------------------------------------------

  ghost predicate InStepBy(m: Entries, seen: set<KEntryKey>, other: bytes, pass: Pass, w: WriteState) {
    var p := ParseText(InitialState(map[]), w.out, ReadOptions(other, false));
    && WholeLines(w.out)
    && HasReadBy(m, seen, other, p)
    && (if pass.defaultGroup then p.group == DEFAULT_GROUP else w.group != [] ==> p.group == w.group)
  }

  lemma WriteEntryBy(m: Entries, seen: set<KEntryKey>, y: KEntryKey, locale: bytes, other: bytes, pass: Pass,
                     w: WriteState)
    requires Representable(m, locale) && Stranger(other, locale) && InStepBy(m, seen, other, pass, w)
    requires y in m && y.mKey != [] && y !in seen && Selected(y.mGroup, Null, pass)
    ensures InStepBy(m, seen + {y}, other, pass, WriteOne(m, y, locale, Null, pass, w))
  {
    hide EntryText, HeaderText, ParseText, HasReadBy, LocaleOk, EntryOk, TagOk, OwnLocale, GroupOk, WellKept;
    var opts := ReadOptions(other, false);
    var p := ParseText(InitialState(map[]), w.out, opts);
    var line := EntryText(locale, y, m[y]) + [NEWLINE];
    assert RepresentableAt(m, y, locale);
    if !pass.defaultGroup && w.group != y.mGroup {
      var h := HeaderLines(w.firstEntry, y.mGroup, w.immutable);
      ReadHeaderBy(m, seen, w.firstEntry, y.mGroup, w.immutable, other, p);
      Extend(w.out, h, opts);
      Extend(w.out + h, line, opts);
      ReadNextBy(m, seen, y, locale, other, ParseText(p, h, opts));
    } else {
      GroupNotEmpty(y.mGroup);
      Extend(w.out, line, opts);
      ReadNextBy(m, seen, y, locale, other, p);
    }
  }

  lemma GroupNotEmpty(g: bytes)
    ensures GroupOk(g) ==> g != []
    ensures DEFAULT_GROUP != []
  {
    hide ComponentsOk;
  }

  lemma {:induction false} WriteKeysBy(j: Job, ks: seq<KEntryKey>, i: nat, other: bytes, pass: Pass, w: WriteState)
    requires j.Ok() && j.primary == Null && Stranger(other, j.locale) && Lists(ks, j.m.Keys) && i <= |ks|
    requires pass in {Pass(true, false), Pass(false, false)} && forall k :: k in ks[i..] ==> k in j.m
    requires InStepBy(j.m, SeenAt(j, ks, i, pass), other, pass, w)
    ensures InStepBy(j.m, SeenAt(j, ks, |ks|, pass), other, pass, WriteKeys(j.m, ks[i..], j.locale, Null, pass, w))
    decreases |ks| - i
  {
    hide InStepBy, SeenAt, Less, EntryText, HeaderLines, LocaleOk, EntryOk, Stranger, Representable;
    if i == |ks| {
    } else {
      var k := ks[i];
      var w' := WriteOne(j.m, k, j.locale, Null, pass, w);
      SeenGrows(j, ks, i, pass);
      if k.mKey != [] && Selected(k.mGroup, Null, pass) {
        WriteEntryBy(j.m, SeenAt(j, ks, i, pass), k, j.locale, other, pass, w);
      } else {
        FlagOnly(j.m, SeenAt(j, ks, i, pass), k, j.locale, other, pass, w);
      }
      assert ks[i..][1..] == ks[i + 1..];
      WriteKeysBy(j, ks, i + 1, other, pass, w');
    }
  }

  lemma FlagOnly(m: Entries, seen: set<KEntryKey>, k: KEntryKey, locale: bytes, other: bytes, pass: Pass, w: WriteState)
    requires InStepBy(m, seen, other, pass, w) && k in m && !(k.mKey != [] && Selected(k.mGroup, Null, pass))
    ensures InStepBy(m, seen, other, pass, WriteOne(m, k, locale, Null, pass, w))
  {
    hide ParseText, HasReadBy, EntryText, HeaderLines;
  }

  lemma FirstPassBy(j: Job, ks: seq<KEntryKey>, other: bytes)
    ensures InStepBy(j.m, SeenAt(j, ks, 0, Pass(true, false)), other, Pass(true, false),
            WriteState([], false, true, []))
  {
    var seen := SeenAt(j, ks, 0, Pass(true, false));
    assert seen == {};
    assert ParseText(InitialState(map[]), [], ReadOptions(other, false)) == InitialState(map[]);
  }

  lemma NextPassBy(j: Job, ks: seq<KEntryKey>, other: bytes, w: WriteState)
    requires j.primary == Null && InStepBy(j.m, SeenAt(j, ks, |ks|, Pass(true, false)), other, Pass(true, false), w)
    requires Lists(ks, j.m.Keys)
    ensures InStepBy(j.m, SeenAt(j, ks, 0, Pass(false, false)), other, Pass(false, false),
            w.(group := [], immutable := false))
  {
    hide ParseText, HasReadBy, Less;
    assert SeenAt(j, ks, |ks|, Pass(true, false)) == SeenAt(j, ks, 0, Pass(false, false)) by {
      assert ks[..|ks|] == ks;
    }
  }

  lemma ReadAllBy(m: Entries, locale: bytes, other: bytes)
    requires Representable(m, locale) && Stranger(other, locale)
    ensures HasReadBy(m, AllEntries(m), other,
            ParseText(InitialState(map[]), WriteEntries(m, locale, Null), ReadOptions(other, false)))
  {
    hide SeenAt, Less, ParseText, HasReadBy, AllEntries, LocaleOk, TagOk, OwnLocale, Representable, WriteKeys;
    var j := Job(m, locale, Null, ReadOptions(locale, false));
    var ks := InOrder(m.Keys);
    var st0 := WriteState([], false, true, []);
    assert ks[0..] == ks;
    FirstPassBy(j, ks, other);
    WriteKeysBy(j, ks, 0, other, Pass(true, false), st0);
    var st1 := WritePass(m, ks, locale, Null, Pass(true, false), st0);
    NextPassBy(j, ks, other, st1);
    WriteKeysBy(j, ks, 0, other, Pass(false, false), st1.(group := [], immutable := false));
    AllSeen(j, ks);
  }

  lemma {:induction false} MarksKeepText(m: Entries, groups: seq<bytes>, x: KEntryKey)
    requires x.mKey != []
    ensures TextAt(MarkImmutable(m, groups), x) == TextAt(m, x)
    decreases |groups|
  {
    hide SetMarker;
    if groups == [] {
    } else {
      var o := NO_OPTIONS.(immutable := true);
      SetMarkerAt(m, groups[0], o, x);
      MarksKeepText(SetMarker(m, groups[0], o).m, groups[1..], x);
    }
  }

  /** The file that an object prints, read by a reader of the same language: the plain entries
      are those of the map, and of the localized ones only those whose line was tagged with the
      reader's own full locale. The object's own localized entries have become foreign. */
  lemma ReadByStranger(m: Entries, locale: bytes, other: bytes, x: KEntryKey)
    requires Representable(m, locale) && Stranger(other, locale) && x.mKey != []
    ensures TextAt(Loaded(WriteEntries(m, locale, Null), other), x) == ShownTo(m, other, x)
  {
    hide ParseText, WriteEntries, Representable, LocaleOk, TagOk, OwnLocale, MarkImmutable, TextOf, TextAt;
    ReadAllBy(m, locale, other);
    var p := ParseText(InitialState(map[]), WriteEntries(m, locale, Null), ReadOptions(other, false));
    MarksKeepText(p.m, p.immutableGroups, x);
    assert SourceOf(x, other).mKey != [];
  }

  // ---------------------------------------------------------------------------
  // A sync
  // ---------------------------------------------------------------------------

  /** The same from the text of the printed entry. */
  function ShownText(t: Text, local: bool): Text {
    if t.Present? && t.raw != local then Absent else Unraw(t)
  }

  lemma ShownFromText(m: Entries, locale: bytes, other: bytes, x: KEntryKey)
    requires Representable(m, locale) && x.mKey != []
    ensures ShownTo(m, other, x) == ShownText(TextAt(m, SourceOf(x, other)), x.bLocal)
  {
    hide RawKeyOk, KeyOk, FlushSafe, GroupOk, WellKept;
    var y := SourceOf(x, other);
    if y in m {
      assert RepresentableAt(m, y, locale);
    }
  }

  /** What a sync means for a reader with another locale of the same language. A key that is
      carried takes its effect, an uncarried plain key stays; and a localized lookup finds the
      line tagged with the reader's own full locale, or else none, whatever lines tagged with
      the language there were before. */
  lemma SyncForStranger(s: OnFile, locale: bytes, other: bytes, x: KEntryKey)
    requires Stranger(other, locale) && FileOk(s.file, locale) && MemoryOk(s.config.entryMap) && Writes(s.config)
             && x.mKey != []
    ensures TextAt(Loaded(SyncFile(s, locale).file, other), x) ==
            if Carries(s.config.entryMap, x) then EffectOf(s.config.entryMap, x)
               else ShownTo(OnDisk(s.file, locale), other, x)
  {
    hide ParseConfig, WriteEntries, LocaleOk, MemoryOk, Representable, LooselyRepresentable, AllStable, Merged, Cleaned,
         AnyDirty, ReadersAgree, TagOk, OwnLocale, TextAt, ShownTo, Carries, EffectOf;
    var w, mem := OnDisk(s.file, locale), s.config.entryMap;
    var n := Merged(w, mem, false);
    FileIsRepresentable(s.file, locale);
    MergedRepresentable(w, mem, locale);
    ReadByStranger(n, locale, other, x);
    ShownFromText(w, locale, other, x);
    ShownFromText(n, locale, other, x);
    MergedAt(w, mem, SourceOf(x, other), locale);
    if x.bLocal {
      LocalIsUncarried(mem, x);
      LocalIsUncarried(mem, SourceOf(x, other));
    } else if Carries(mem, x) {
      EffectIsPlain(mem, x);
    }
  }

  lemma EffectIsPlain(mem: Entries, x: KEntryKey)
    requires MemoryOk(mem) && Carries(mem, x)
    ensures ShownText(EffectOf(mem, x), false) == EffectOf(mem, x)
  {
    hide KeyOk, FlushSafe, GroupOk, WellKept;
    assert MemoryEntryOk(x, mem[x]);
  }
}
