/** A printed file, read over what default files give: which plain entries show what the file
    says, and which show what the defaults say (src/core/kconfigini.cpp:148-155,
    src/core/kconfigdata.cpp:97-217, src/core/kconfig.cpp:689-732). */
module OverDefaults {
  import opened Bytes
  import opened IniCodec
  import opened CodecLaws
  import opened EntryMap
  import opened Immutability
  import opened Revert
  import opened IniParser
  import opened IniWriter
  import opened IniLines
  import opened IniEntries
  import opened FileRoundTrip
  import opened Sync
  import opened Protocol
  import opened DefaultFiles
  import opened Durability
  import OtherReaders

  // ---------------------------------------------------------------------------
  // What is shown
  // ---------------------------------------------------------------------------

  predicate ClosedGroup(b: Entries, g: bytes) {
    Marker(g) in b && b[Marker(g)].bImmutable
  }

  /** A user's file cannot change the key: its group is immutable and will be skipped, or the
      entry is immutable, or there is none and the default group is closed to new ones. */
  predicate LockedKey(b: Entries, x: KEntryKey) {
    || (x.mGroup != DEFAULT_GROUP && ClosedGroup(b, x.mGroup))
    || (if x in b then b[x].bImmutable else ClosedGroup(b, x.mGroup))
  }

  /** What a reader shows of a key over the base, given what the file says. */
  function ShownOver(b: Entries, t: Text, x: KEntryKey): Text {
    if t.Absent? || LockedKey(b, x) then ShownAt(b, x) else Shown(t)
  }

  predicate IsPlain(x: KEntryKey) {
    !x.bLocal && !x.bDefault && x.mKey != []
  }

  // ---------------------------------------------------------------------------
  // One line
  // ---------------------------------------------------------------------------

  /** The parser's state: what has been read is shown as it should, the rest is the base. */
  ghost predicate HasReadOver(m: Entries, seen: set<KEntryKey>, b: Entries, p: ParseState) {
    && (forall x: KEntryKey :: IsPlain(x) ==>
          if x in seen then ShownAt(p.m, x) == ShownOver(b, TextAt(m, x), x) else SameAt(b, p.m, x))
    && (forall g :: ClosedGroup(p.m, g) <==> ClosedGroup(b, g))
    && !p.fileImmutable && p.errors == 0
  }

  /** A call for an entry leaves the immutability of markers alone. */
  lemma GroupsStay(m: Entries, w: Write)
    requires w.k != [] && !w.o.forDefault
    ensures forall g :: ClosedGroup(Apply(m, w), g) <==> ClosedGroup(m, g)
  {
    hide Apply;
    forall g
      ensures ClosedGroup(Apply(m, w), g) <==> ClosedGroup(m, g)
    {
      MarkerStays(m, w, g);
    }
  }

  lemma MarkerStays(m: Entries, w: Write, g: bytes)
    requires w.k != [] && !w.o.forDefault
    ensures ClosedGroup(Apply(m, w), g) <==> ClosedGroup(m, g)
  {
    hide Stored, WithoutTwins, Apply;
    if Marker(g) in m || g != w.g {
      OthersUntouched(m, w, Marker(g));
    } else {
      NewMarkerIsOpen(m, w);
    }
  }

  lemma NewMarkerIsOpen(m: Entries, w: Write)
    requires w.k != [] && !w.o.forDefault && Marker(w.g) !in m
    ensures !ClosedGroup(Apply(m, w), w.g)
  {
    hide WithoutTwins, SetExisting, SetNew, Prepared, Overridden;
    var s := Stored(m, w.g, w.k, w.value, w.o);
    Steps(m, w.g, w.k, w.value, w.o);
    assert Mirrored(s, w.g, w.k, w.value, w.o) == s;
    WithoutTwinsAt(m, w.g, w.k, w.o, Marker(w.g));
    WithoutTwinsAt(s, w.g, w.k, w.o, Marker(w.g));
  }

  /** The call of a plain line over an entry of the base, or over none. */
  lemma PlainCallShows(b: Entries, m: Entries, x: KEntryKey, e: KEntry, w: Write)
    requires Unchanged(b) && IsPlain(x) && SameAt(b, m, x) && (ClosedGroup(m, x.mGroup) <==> ClosedGroup(b, x.mGroup))
    requires w.g == x.mGroup && w.k == x.mKey && !w.o.localized && !w.o.forDefault && w.value == e.mValue
    requires w.o.deleted == e.bDeleted && w.o.expansion == (e.bExpand && !e.bDeleted) && !w.o.global
    requires !e.bRaw && !w.o.rawKey
    requires if e.bDeleted then e.mValue.Null? else e.mValue.Data?
    requires !(x.mGroup != DEFAULT_GROUP && ClosedGroup(b, x.mGroup))
    ensures ShownAt(Apply(m, w), x) == ShownOver(b, TextOf(e), x)
  {
    hide WithoutTwins, WithMarker, KeyOk, FlushSafe, GroupNameOk, WellKept;
    PlainApply(m, w);
    WithoutTwinsAt(m, w.g, w.k, w.o, x);
    WithoutTwinsAt(Stored(m, w.g, w.k, w.value, w.o), w.g, w.k, w.o, x);
    if x in b {
      assert MemoryEntryOk(x, b[x]);
    }
  }

  /** A localized call leaves plain entries alone. */
  lemma LocalCallStays(m: Entries, w: Write, x: KEntryKey)
    requires w.k != [] && w.o.localized && !w.o.forDefault && w.value.Data? && IsPlain(x)
    ensures SameAt(m, Apply(m, w), x)
  {
    hide Stored, SameEntry, Apply;
    LocalizedApply(m, w);
    StoredAt(m, w.g, w.k, w.value, w.o, x);
  }

  /** A line in a group that is skipped. */
  lemma SkippedLine(st: ParseState, k: KEntryKey, e: KEntry, locale: bytes, opts: ParseOptions)
    requires LocaleOk(locale) && EntryOk(k, e, locale) && st.groupSkip && !opts.defaults
    ensures ParseLine(st, EntryText(locale, k, e) + [NEWLINE], opts) == st
    ensures NEWLINE !in EntryText(locale, k, e)
  {
    hide Encode, FlushSafe, KeyText, FlagText, Trimmed, ParseEntry, NoOuterSpace, EntryOk, LocaleOk;
    KeyTextShape(k, e, locale);
    FlagTextShape(KeyText(locale, k, e), e);
    ValueShape(KeyText(locale, k, e) + FlagText(e), e.mValue.Chars());
    EntryTextCases(k, e, locale);
    TrimNewline(EntryText(locale, k, e));
  }

  /** The call that the printed line makes. */
  function LineCall(y: KEntryKey, e: KEntry, locale: bytes, immutable: bool): Write {
    Write(y.mGroup, y.mKey, e.mValue, OptionsOf(y, e, locale, immutable))
  }

  lemma LineCallFlags(y: KEntryKey, e: KEntry, locale: bytes, immutable: bool)
    requires EntryOk(y, e, locale) && !e.bRaw
    ensures var w := LineCall(y, e, locale, immutable);
            && w.k != [] && w.o.localized == y.bLocal && !w.o.forDefault && !w.o.global && w.value == e.mValue
            && w.o.deleted == e.bDeleted && w.o.expansion == (e.bExpand && !e.bDeleted)
            && (if e.bDeleted then e.mValue.Null? && !y.bLocal else e.mValue.Data?)
            && !y.bDefault && !w.o.rawKey
  {
    hide FlushSafe;
  }

  lemma EnteredOver(m: Entries, seen: set<KEntryKey>, y: KEntryKey, locale: bytes, b: Entries, p: ParseState)
    requires Unchanged(b) && HasReadOver(m, seen, b, p) && y in m && EntryOk(y, m[y], locale) && !m[y].bRaw
             && y !in seen
    requires p.group == y.mGroup && !(y.mGroup != DEFAULT_GROUP && ClosedGroup(b, y.mGroup))
    ensures HasReadOver(m, seen + {y}, b, p.(m := Apply(p.m, LineCall(y, m[y], locale, p.groupImmutable))))
  {
    hide Unchanged, EntryOk, Apply, ShownAt, ShownOver, LineCall, ClosedGroup;
    var w := LineCall(y, m[y], locale, p.groupImmutable);
    var n := Apply(p.m, w);
    LineCallFlags(y, m[y], locale, p.groupImmutable);
    assert w.g == y.mGroup && w.k == y.mKey by { LineCallKey(y, m[y], locale, p.groupImmutable); }
    GroupsStay(p.m, w);
    forall x: KEntryKey | IsPlain(x)
      ensures if x in seen + {y} then ShownAt(n, x) == ShownOver(b, TextAt(m, x), x) else SameAt(b, n, x)
    {
      if x == y {
        PlainCallShows(b, p.m, x, m[y], w);
      } else {
        if x.mGroup != w.g || x.mKey != w.k {
          OthersUntouched(p.m, w, x);
        } else {
          LocalCallStays(p.m, w, x);
        }
        SameShown(p.m, n, x);
        SameTwice(b, p.m, n, x);
      }
    }
  }

  lemma LineCallKey(y: KEntryKey, e: KEntry, locale: bytes, immutable: bool)
    ensures LineCall(y, e, locale, immutable).g == y.mGroup && LineCall(y, e, locale, immutable).k == y.mKey
  {
  }

  lemma SameShown(m: Entries, n: Entries, x: KEntryKey)
    requires SameAt(m, n, x)
    ensures ShownAt(m, x) == ShownAt(n, x)
  {
  }

  lemma SameTwice(a: Entries, m: Entries, n: Entries, x: KEntryKey)
    requires SameAt(m, n, x)
    ensures SameAt(a, m, x) ==> SameAt(a, n, x)
  {
  }

  /** Nothing is stored: the group is skipped, or the line is for another locale. */
  lemma NothingOver(m: Entries, seen: set<KEntryKey>, y: KEntryKey, b: Entries, p: ParseState)
    requires HasReadOver(m, seen, b, p) && y in m && y !in seen
    requires IsPlain(y) ==> y.mGroup != DEFAULT_GROUP && ClosedGroup(b, y.mGroup)
    ensures HasReadOver(m, seen + {y}, b, p)
  {
    hide ShownAt, ClosedGroup, TextAt;
    if IsPlain(y) {
      SameShown(b, p.m, y);
    }
  }

  lemma ReadNextOver(m: Entries, seen: set<KEntryKey>, y: KEntryKey, locale: bytes, b: Entries, p: ParseState)
    requires LocaleOk(locale) && Representable(m, locale) && Unchanged(b) && HasReadOver(m, seen, b, p)
    requires y in m && y.mKey != [] && y !in seen && p.group == y.mGroup
    requires p.groupSkip <==> y.mGroup != DEFAULT_GROUP && ClosedGroup(b, y.mGroup)
    ensures var p' := ParseText(p, EntryText(locale, y, m[y]) + [NEWLINE], ReadOptions(locale, false));
            HasReadOver(m, seen + {y}, b, p') && p'.group == p.group && p'.groupSkip == p.groupSkip
  {
    hide EntryText, EntryOk, ParseLine, ParseText, LocaleOk, WellKept, HasReadOver, GroupOk, Unchanged, ClosedGroup,
         SetEntry, OptionsOf;
    var opts := ReadOptions(locale, false);
    assert RepresentableAt(m, y, locale);
    assert p.errors == 0 by { NoErrors(m, seen, b, p); }
    if p.groupSkip {
      SkippedLine(p, y, m[y], locale, opts);
      NothingOver(m, seen, y, b, p);
    } else {
      ReadEntry(p, y, m[y], locale, opts);
      if m[y].bRaw {
        RawIsLocal(y, m[y], locale);
        NothingOver(m, seen, y, b, p);
      } else {
        EnteredOver(m, seen, y, locale, b, p);
      }
    }
    ParseOneLine(p, EntryText(locale, y, m[y]), opts);
  }

  lemma NoErrors(m: Entries, seen: set<KEntryKey>, b: Entries, p: ParseState)
    requires HasReadOver(m, seen, b, p)
    ensures p.errors == 0 && !p.fileImmutable
  {
    hide ShownAt, ShownOver, ClosedGroup, TextAt;
  }

  /** Reading a header in any state. */
  lemma HeaderOver(st: ParseState, g: bytes, immutable: bool, opts: ParseOptions)
    requires GroupOk(g) && !st.fileImmutable
    ensures var st' := ParseLine(st, HeaderText(g, immutable) + [NEWLINE], opts);
            st' == st.(group := g, groupImmutable := st'.groupImmutable, groupSkip := ClosedGroup(st.m, g),
                       immutableGroups := st'.immutableGroups)
  {
    hide HeaderText, HeaderParts, ComponentsOk;
    HeaderPrintable(g, immutable);
    TrimNewline(HeaderText(g, immutable));
    HeaderRoundTrip(g, immutable, []);
  }

  lemma ReadHeaderOver(m: Entries, seen: set<KEntryKey>, first: bool, g: bytes, immutable: bool, locale: bytes,
                       b: Entries, p: ParseState)
    requires HasReadOver(m, seen, b, p) && GroupOk(g)
    ensures var p' := ParseText(p, HeaderLines(first, g, immutable), ReadOptions(locale, false));
            HasReadOver(m, seen, b, p') && p'.group == g && (p'.groupSkip <==> ClosedGroup(b, g))
  {
    hide HeaderText, ParseLine, ParseText, GroupOk, TextAt, ShownAt, ShownOver, ClosedGroup;
    var opts := ReadOptions(locale, false);
    var h := HeaderText(g, immutable);
    HeaderOver(p, g, immutable, opts);
    HeaderPrintable(g, immutable);
    ParseOneLine(p, h, opts);
    if !first {
      ReadBlankLine(p, opts);
      ParseTextConcat(p, [NEWLINE], h + [NEWLINE], opts);
      ConcatAssociative([NEWLINE], h, [NEWLINE]);
    } else {
      ConcatAssociative([], h, [NEWLINE]);
      assert [] + (h + [NEWLINE]) == h + [NEWLINE];
    }
  }

  // ---------------------------------------------------------------------------
  // The whole file
  // ---------------------------------------------------------------------------

  ghost predicate InStepOver(m: Entries, seen: set<KEntryKey>, locale: bytes, b: Entries, pass: Pass, w: WriteState) {
    var p := ParseText(InitialState(b), w.out, ReadOptions(locale, false));
    && WholeLines(w.out)
    && HasReadOver(m, seen, b, p)
    && (if pass.defaultGroup then p.group == DEFAULT_GROUP && !p.groupSkip
        else w.group != [] ==> p.group == w.group && (p.groupSkip <==> ClosedGroup(b, w.group)))
  }

  lemma ExtendOver(b: Entries, out: bytes, text: bytes, opts: ParseOptions)
    requires WholeLines(out) && text != [] && WholeLines(text)
    ensures WholeLines(out + text)
    ensures ParseText(InitialState(b), out + text, opts) == ParseText(ParseText(InitialState(b), out, opts), text, opts)
  {
    hide ParseText;
    ParseTextConcat(InitialState(b), out, text, opts);
  }

  lemma WriteEntryOver(m: Entries, seen: set<KEntryKey>, y: KEntryKey, locale: bytes, b: Entries, pass: Pass,
                       w: WriteState)
    requires LocaleOk(locale) && Representable(m, locale) && Unchanged(b) && InStepOver(m, seen, locale, b, pass, w)
    requires y in m && y.mKey != [] && y !in seen && Selected(y.mGroup, Null, pass)
    ensures InStepOver(m, seen + {y}, locale, b, pass, WriteOne(m, y, locale, Null, pass, w))
  {
    hide EntryText, HeaderText, ParseText, HasReadOver, LocaleOk, EntryOk, GroupOk, WellKept, Unchanged, ClosedGroup;
    var opts := ReadOptions(locale, false);
    var p := ParseText(InitialState(b), w.out, opts);
    var line := EntryText(locale, y, m[y]) + [NEWLINE];
    assert RepresentableAt(m, y, locale);
    OtherReaders.GroupNotEmpty(y.mGroup);
    if !pass.defaultGroup && w.group != y.mGroup {
      var h := HeaderLines(w.firstEntry, y.mGroup, w.immutable);
      ReadHeaderOver(m, seen, w.firstEntry, y.mGroup, w.immutable, locale, b, p);
      ExtendOver(b, w.out, h, opts);
      ExtendOver(b, w.out + h, line, opts);
      ReadNextOver(m, seen, y, locale, b, ParseText(p, h, opts));
    } else {
      ExtendOver(b, w.out, line, opts);
      ReadNextOver(m, seen, y, locale, b, p);
    }
  }

  lemma FlagOnlyOver(m: Entries, seen: set<KEntryKey>, k: KEntryKey, locale: bytes, b: Entries, pass: Pass,
                     w: WriteState)
    requires InStepOver(m, seen, locale, b, pass, w) && k in m && !(k.mKey != [] && Selected(k.mGroup, Null, pass))
    ensures InStepOver(m, seen, locale, b, pass, WriteOne(m, k, locale, Null, pass, w))
  {
    hide ParseText, HasReadOver, EntryText, HeaderLines, ClosedGroup;
  }

  lemma {:induction false} WriteKeysOver(j: Job, ks: seq<KEntryKey>, i: nat, b: Entries, pass: Pass, w: WriteState)
    requires j.Ok() && j.primary == Null && Unchanged(b) && Lists(ks, j.m.Keys) && i <= |ks|
    requires pass in {Pass(true, false), Pass(false, false)} && forall k :: k in ks[i..] ==> k in j.m
    requires InStepOver(j.m, SeenAt(j, ks, i, pass), j.locale, b, pass, w)
    ensures InStepOver(j.m, SeenAt(j, ks, |ks|, pass), j.locale, b, pass,
                       WriteKeys(j.m, ks[i..], j.locale, Null, pass, w))
    decreases |ks| - i
  {
    hide InStepOver, SeenAt, Less, EntryText, HeaderLines, LocaleOk, EntryOk, Representable, Unchanged;
    if i == |ks| {
    } else {
      var k := ks[i];
      var w' := WriteOne(j.m, k, j.locale, Null, pass, w);
      SeenGrows(j, ks, i, pass);
      if k.mKey != [] && Selected(k.mGroup, Null, pass) {
        WriteEntryOver(j.m, SeenAt(j, ks, i, pass), k, j.locale, b, pass, w);
      } else {
        FlagOnlyOver(j.m, SeenAt(j, ks, i, pass), k, j.locale, b, pass, w);
      }
      assert ks[i..][1..] == ks[i + 1..];
      WriteKeysOver(j, ks, i + 1, b, pass, w');
    }
  }

  lemma FirstPassOver(j: Job, ks: seq<KEntryKey>, b: Entries)
    ensures InStepOver(j.m, SeenAt(j, ks, 0, Pass(true, false)), j.locale, b, Pass(true, false),
            WriteState([], false, true, []))
  {
    hide ShownAt, ShownOver, ClosedGroup;
    assert SeenAt(j, ks, 0, Pass(true, false)) == {};
    assert ParseText(InitialState(b), [], ReadOptions(j.locale, false)) == InitialState(b);
  }

  lemma NextPassOver(j: Job, ks: seq<KEntryKey>, b: Entries, w: WriteState)
    requires j.primary == Null && InStepOver(j.m, SeenAt(j, ks, |ks|, Pass(true, false)), j.locale, b,
             Pass(true, false), w)
    requires Lists(ks, j.m.Keys)
    ensures InStepOver(j.m, SeenAt(j, ks, 0, Pass(false, false)), j.locale, b, Pass(false, false),
            w.(group := [], immutable := false))
  {
    hide ParseText, HasReadOver, Less;
    assert SeenAt(j, ks, |ks|, Pass(true, false)) == SeenAt(j, ks, 0, Pass(false, false)) by {
      assert ks[..|ks|] == ks;
    }
  }

  lemma ReadAllOver(m: Entries, locale: bytes, b: Entries)
    requires LocaleOk(locale) && Representable(m, locale) && Unchanged(b)
    ensures HasReadOver(m, AllEntries(m), b, ParseText(InitialState(b), WriteEntries(m, locale, Null),
            ReadOptions(locale, false)))
  {
    hide SeenAt, Less, ParseText, HasReadOver, AllEntries, LocaleOk, Representable, WriteKeys, Unchanged;
    var j := Job(m, locale, Null, ReadOptions(locale, false));
    var ks := InOrder(m.Keys);
    var st0 := WriteState([], false, true, []);
    assert ks[0..] == ks;
    FirstPassOver(j, ks, b);
    WriteKeysOver(j, ks, 0, b, Pass(true, false), st0);
    var st1 := WritePass(m, ks, locale, Null, Pass(true, false), st0);
    NextPassOver(j, ks, b, st1);
    WriteKeysOver(j, ks, 0, b, Pass(false, false), st1.(group := [], immutable := false));
    AllSeen(j, ks);
  }

  /** The file's entries as a reader has them over the base. */
  ghost function LoadedOver(file: bytes, b: Entries, locale: bytes): Entries {
    ParseConfig(file, b, ReadOptions(locale, false)).m
  }

  /** The printed file, read over any base: what the file has no line for, or what is locked,
      shows what the base shows, and everything else what the map says. The file is not taken
      for an immutable one. */
  lemma PrintedOver(m: Entries, locale: bytes, b: Entries, x: KEntryKey)
    requires LocaleOk(locale) && Representable(m, locale) && Unchanged(b) && IsPlain(x)
    ensures var file := WriteEntries(m, locale, Null);
            && ShownAt(LoadedOver(file, b, locale), x) == ShownOver(b, TextAt(m, x), x)
            && ParseConfig(file, b, ReadOptions(locale, false)).info == ParseOk
  {
    hide ParseText, WriteEntries, Representable, LocaleOk, MarkImmutable, Unchanged, Shown, LockedKey;
    ReadAllOver(m, locale, b);
    var p := ParseText(InitialState(b), WriteEntries(m, locale, Null), ReadOptions(locale, false));
    NoErrors(m, AllEntries(m), b, p);
    OtherReaders.MarksKeepText(p.m, p.immutableGroups, x);
    PrintedAt(m, b, p, x);
  }

  lemma PrintedAt(m: Entries, b: Entries, p: ParseState, x: KEntryKey)
    requires HasReadOver(m, AllEntries(m), b, p) && IsPlain(x)
    ensures ShownAt(p.m, x) == ShownOver(b, TextAt(m, x), x)
  {
    hide Shown, LockedKey, ClosedGroup;
    if x !in m {
      SameShown(b, p.m, x);
    }
  }
}
