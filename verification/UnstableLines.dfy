/** Lines for other locales whose keys mean something else once they are decoded. A sync prints
    them without escaping (src/core/kconfigini.cpp:226-263, 346-353), so the next reader can take
    them for lines of other keys. When a sync leaves alone what it does not carry, exactly. */
module UnstableLines {
  import opened Bytes
  import opened IniCodec
  import opened CodecLaws
  import opened CodecTheorems
  import opened EntryMap
  import opened Immutability
  import opened Revert
  import opened IniParser
  import opened IniWriter
  import opened IniLines
  import opened IniEntries
  import opened TaggedLines
  import opened ParserRuns
  import opened RawLines
  import opened FileRoundTrip
  import opened Sync
  import opened Protocol

  // ---------------------------------------------------------------------------
  // Decoding
  // ---------------------------------------------------------------------------

  lemma {:induction false} NothingDecoded(s: bytes)
    requires Unescape(s).ok && |Unescape(s).out| == |s|
    ensures Unescape(s).out == s
    decreases |s|
  {
    if s == [] {
    } else if s[0] != BACKSLASH {
      NothingDecoded(s[1..]);
      assert s == [s[0]] + s[1..];
    } else if |s| > 1 && (s[1] == SEMICOLON || s[1] == COMMA) {
      NothingDecoded(s[2..]);
      assert s == [s[0], s[1]] + s[2..];
    }
  }

  lemma NothingTrimmed(s: bytes)
    requires |Trimmed(s)| == |s|
    ensures Trimmed(s) == s
  {
  }

  /** A valid text that decoding changes becomes shorter. */
  lemma DecodedIsShorter(b: bytes)
    requires Decode(b).ok && Decode(b).out != b
    ensures |Decode(b).out| < |b|
  {
    hide Trimmed, Unescape;
    var t := Trimmed(b);
    if |t| == |b| {
      NothingTrimmed(b);
      if |Unescape(t).out| == |t| {
        NothingDecoded(t);
      }
    }
  }

  const DOUBLED: bytes := [92, 92] // "\\"
  const ESCAPED: bytes := [92, 120, 53, 99] // "\x5c"
  const ESCAPE_TAIL: bytes := [120, 53, 99] // "x5c"
  const INVALID: bytes := [92, 53] // "\5"

  lemma UnescapeDoubled(rest: bytes)
    ensures Unescape(DOUBLED + rest) == Unescape(rest).Prepend([92])
  {
    assert (DOUBLED + rest)[2..] == rest;
  }

  lemma UnescapeEscaped(rest: bytes)
    ensures Unescape(ESCAPED + rest) == Unescape(rest).Prepend([92])
  {
    var s := ESCAPED + rest;
    assert s[4..] == rest && s[0] == 92 && s[1] == 120 && s[2] == 53 && s[3] == 99;
    assert HexValue(53) == 5 && HexValue(99) == 12;
  }

  lemma UnescapeTail(rest: bytes)
    ensures Unescape(ESCAPE_TAIL + rest) == Unescape(rest).Prepend(ESCAPE_TAIL)
  {
    hide Unescape;
    PlainUnits(ESCAPE_TAIL);
    UnescapeConcat(ESCAPE_TAIL, rest);
  }

  lemma UnescapeInvalid()
    ensures Unescape(INVALID) == Decoded(false, [])
  {
  }

  const SWAP_A: bytes := [92, 92, 120, 53, 99, 92, 120, 53, 99, 92, 53] // "\\x5c\x5c\5"
  const SWAP_B: bytes := [92, 120, 53, 99, 92, 92, 120, 53, 99, 92, 53] // "\x5c\\x5c\5"

  lemma SwapUnescaped()
    ensures Unescape(SWAP_A) == Decoded(false, [92, 120, 53, 99, 92])
    ensures Unescape(SWAP_B) == Decoded(false, [92, 92, 120, 53, 99])
  {
    hide Unescape;
    UnescapeInvalid();
    UnescapeEscaped(INVALID);
    UnescapeTail(ESCAPED + INVALID);
    UnescapeDoubled(ESCAPE_TAIL + (ESCAPED + INVALID));
    UnescapeTail(INVALID);
    UnescapeDoubled(ESCAPE_TAIL + INVALID);
    UnescapeEscaped(DOUBLED + (ESCAPE_TAIL + INVALID));
    assert SWAP_A == DOUBLED + (ESCAPE_TAIL + (ESCAPED + INVALID));
    assert SWAP_B == ESCAPED + (DOUBLED + (ESCAPE_TAIL + INVALID));
  }

  lemma DecodeGivesUp(s: bytes)
    requires BACKSLASH in s && NoOuterSpace(s) && !Unescape(s).ok
    ensures var u := Unescape(s).out; Decode(s) == Decoded(false, u + [BACKSLASH] + s[|u| + 1..])
  {
    hide Unescape, NoOuterSpace;
  }

  lemma SwapShapes()
    ensures Inconspicuous(SWAP_A) && NoOuterSpace(SWAP_A) && BACKSLASH in SWAP_A && SWAP_A[4] == 99
    ensures Inconspicuous(SWAP_B) && NoOuterSpace(SWAP_B) && BACKSLASH in SWAP_B && SWAP_B[4] == 92
  {
    assert SWAP_A[0] == BACKSLASH && SWAP_B[0] == BACKSLASH;
  }

  lemma SwapTails()
    ensures [92, 120, 53, 99, 92] + [BACKSLASH] + SWAP_A[6..] == SWAP_B
    ensures [92, 92, 120, 53, 99] + [BACKSLASH] + SWAP_B[6..] == SWAP_A
  {
  }

  /** Why invalid escape sequences are left out below: decoding exchanges these two keys, which
      are no stabler for that. Two lines of the same value and tag would trade places forever,
      and nobody would notice. */
  lemma DecodingExchanges()
    ensures Decode(SWAP_A) == Decoded(false, SWAP_B) && Decode(SWAP_B) == Decoded(false, SWAP_A)
    ensures Inconspicuous(SWAP_A) && Inconspicuous(SWAP_B) && !RawStable(SWAP_A) && !RawStable(SWAP_B)
  {
    hide Unescape, Decode, Inconspicuous, NoOuterSpace;
    SwapUnescaped();
    SwapShapes();
    DecodeGivesUp(SWAP_A);
    DecodeGivesUp(SWAP_B);
    SwapTails();
    assert SWAP_A != SWAP_B;
  }

  // ---------------------------------------------------------------------------
  // Raw entries come from raw calls
  // ---------------------------------------------------------------------------

  predicate RawAt(m: Entries, x: KEntryKey) {
    x in m && m[x].bRaw
  }

  ghost predicate NoRawCall(ws: seq<Write>, key: bytes) {
    forall w :: w in ws && w.o.rawKey ==> w.k != key
  }

  lemma StoredRaw(m: Entries, w: Write, x: KEntryKey)
    requires !RawAt(m, x) && x.mKey != [] && !w.o.rawKey
    ensures !RawAt(Stored(m, w.g, w.k, w.value, w.o), x)
  {
  }

  lemma {:induction false} CallRaw(m: Entries, w: Write, x: KEntryKey)
    requires !RawAt(m, x) && x.mKey != [] && (w.o.rawKey ==> w.k != x.mKey)
    ensures !RawAt(Apply(m, w), x)
    decreases w.o.forDefault
  {
    hide Stored, WithoutTwins, SetExisting, SetNew, SetMarker;
    var g, k, value, o := w.g, w.k, w.value, w.o;
    if k != x.mKey {
      OthersUntouched(m, w, x);
    } else {
      var s := Stored(m, g, k, value, o);
      StoredRaw(m, w, x);
      Steps(m, g, k, value, o);
      if o.forDefault {
        CallRaw(s, w.(o := o.(forDefault := false)), x);
      }
      WithoutTwinsAt(m, g, k, o, x);
      WithoutTwinsAt(Mirrored(s, g, k, value, o), g, k, o, x);
    }
  }

  lemma {:induction false} RunRaw(m: Entries, ws: seq<Write>, x: KEntryKey)
    requires !RawAt(m, x) && x.mKey != [] && NoRawCall(ws, x.mKey)
    ensures !RawAt(Run(m, ws), x)
    decreases |ws|
  {
    hide Apply, RawAt;
    if ws == [] {
    } else {
      CallRaw(m, ws[0], x);
      RunRaw(Apply(m, ws[0]), ws[1..], x);
    }
  }

  lemma {:induction false} MarksAreNotRaw(groups: seq<bytes>, key: bytes)
    ensures NoRawCall(MarkWrites(groups), key)
    decreases |groups|
  {
    if groups == [] {
    } else {
      MarksAreNotRaw(groups[1..], key);
    }
  }

  lemma FileRaw(text: bytes, opts: ParseOptions, x: KEntryKey)
    requires x.mKey != [] && NoRawCall(TextWrites(InitialState(map[]), text, opts), x.mKey)
    ensures !RawAt(ParseConfig(text, map[], opts).m, x)
  {
    hide ParseText, TextWrites, ParseConfig, Run, MarkWrites;
    var st := ParseText(InitialState(map[]), text, opts);
    ParsingIsRun(text, map[], opts);
    MarksAreNotRaw(st.immutableGroups, x.mKey);
    RunRaw(map[], FileWrites(text, map[], opts), x);
  }

  // ---------------------------------------------------------------------------
  // The calls of printed lines
  // ---------------------------------------------------------------------------

  lemma {:induction false} TextWritesConcat(st: ParseState, a: bytes, b: bytes, opts: ParseOptions)
    requires WholeLines(a)
    ensures TextWrites(st, a + b, opts) == TextWrites(st, a, opts) + TextWrites(ParseText(st, a, opts), b, opts)
    decreases |a|
  {
    hide ParseLine, LineWrites, FirstLine;
    if a == [] {
      assert a + b == b;
    } else if st.errors < MAX_ERRORS {
      FirstLineConcat(a, b);
      var st' := ParseLine(st, a[..FirstLine(a)], opts);
      TextWritesConcat(st', a[FirstLine(a)..], b, opts);
    }
  }

  lemma OneLineWrites(st: ParseState, line: bytes, opts: ParseOptions)
    requires NEWLINE !in line
    ensures TextWrites(st, line + [NEWLINE], opts) == if st.errors >= MAX_ERRORS then []
            else LineWrites(st, line + [NEWLINE], opts)
  {
    hide LineWrites, FirstLine;
    var text := line + [NEWLINE];
    WholeLine(line);
    assert text[..|text|] == text && text[|text|..] == [];
  }

  /** Wherever the text stands, no line of it makes a raw call for the key. */
  ghost predicate Quiet(text: bytes, key: bytes, opts: ParseOptions) {
    WholeLines(text) && forall st :: NoRawCall(TextWrites(st, text, opts), key)
  }

  lemma QuietConcat(a: bytes, b: bytes, key: bytes, opts: ParseOptions)
    requires Quiet(a, key, opts) && Quiet(b, key, opts)
    ensures Quiet(a + b, key, opts)
  {
    hide TextWrites, ParseText;
    forall st
      ensures NoRawCall(TextWrites(st, a + b, opts), key)
    {
      TextWritesConcat(st, a, b, opts);
    }
  }

  lemma BlankIsQuiet(key: bytes, opts: ParseOptions)
    ensures Quiet([NEWLINE], key, opts) && Quiet([], key, opts)
  {
    hide EntryWrites;
    TrimNewline([]);
    assert [] + [NEWLINE] == [NEWLINE];
    forall st
      ensures NoRawCall(TextWrites(st, [NEWLINE], opts), key)
    {
      OneLineWrites(st, [], opts);
    }
  }

  lemma HeaderIsQuiet(g: bytes, immutable: bool, key: bytes, opts: ParseOptions)
    ensures Quiet(HeaderText(g, immutable) + [NEWLINE], key, opts)
  {
    hide HeaderText, EntryWrites, Trimmed;
    var h := HeaderText(g, immutable);
    HeaderPrintable(g, immutable);
    TrimNewline(h);
    forall st
      ensures NoRawCall(TextWrites(st, h + [NEWLINE], opts), key)
    {
      OneLineWrites(st, h, opts);
    }
  }

  lemma HeaderLinesAreQuiet(first: bool, g: bytes, immutable: bool, key: bytes, opts: ParseOptions)
    ensures Quiet(HeaderLines(first, g, immutable), key, opts)
  {
    hide HeaderText, Quiet;
    var h := HeaderText(g, immutable);
    HeaderIsQuiet(g, immutable, key, opts);
    BlankIsQuiet(key, opts);
    var start: bytes := if first then [] else [NEWLINE];
    QuietConcat(start, h + [NEWLINE], key, opts);
    ConcatAssociative(start, h, [NEWLINE]);
  }

  lemma PlainKeptCalls(st: ParseState, k: KEntryKey, e: KEntry, locale: bytes, opts: ParseOptions)
    requires LocaleOk(locale) && SameReader(opts, locale) && EntryOk(k, e, locale) && !e.bRaw && !e.bDeleted
    ensures var line := KeyText(locale, k, e) + FlagText(e) + [EQUALS] + Encode(ValueString, e.mValue.Chars());
            forall w :: w in EntryWrites(st, line, opts) ==> !w.o.rawKey
  {
    hide Encode, Decode, FlushSafe, KeyText, BaseText, FlagText, ParseKey, Trimmed, IndexOf, EntryOk, NoOuterSpace,
         TagOf, OwnLocale, LocaleOk;
    var t, v := KeyText(locale, k, e), Encode(ValueString, e.mValue.Chars());
    var key := t + FlagText(e);
    var line := key + [EQUALS] + v;
    KeyTextShape(k, e, locale);
    FlagTextShape(t, e);
    IndexOfConcat(key, EQUALS, v);
    assert line[..|key|] == key;
    var o := NO_OPTIONS.(immutable := st.groupImmutable);
    ParseOwnFlags(t, e, o, opts);
    KeyTextParts(k, e, locale);
    ParseTag(BaseText(k, e), TagOf(k, e, locale), o.(immutable := o.immutable || e.bImmutable, expansion := e.bExpand),
        opts);
    OwnTag(k, e, locale);
  }

  lemma PlainDeletedCalls(st: ParseState, k: KEntryKey, e: KEntry, locale: bytes, opts: ParseOptions)
    requires LocaleOk(locale) && SameReader(opts, locale) && EntryOk(k, e, locale) && e.bDeleted
    ensures forall w :: w in EntryWrites(st, KeyText(locale, k, e) + FlagText(e), opts) ==> !w.o.rawKey
  {
    hide Encode, Decode, FlushSafe, KeyText, FlagText, ParseKey, Trimmed, IndexOf, EntryOk, StartsLikeKey, LocaleOk;
    KeyTextShape(k, e, locale);
    FlagTextShape(KeyText(locale, k, e), e);
    DeletionMark(KeyText(locale, k, e), e, NO_OPTIONS.(immutable := st.groupImmutable), opts);
  }

  lemma PlainLineIsQuiet(k: KEntryKey, e: KEntry, locale: bytes, key: bytes, opts: ParseOptions)
    requires LocaleOk(locale) && SameReader(opts, locale) && EntryOk(k, e, locale) && !e.bRaw
    ensures Quiet(EntryText(locale, k, e) + [NEWLINE], key, opts)
  {
    hide Encode, FlushSafe, KeyText, FlagText, Trimmed, EntryWrites, NoOuterSpace, EntryOk, LocaleOk, SameReader;
    var line := EntryText(locale, k, e);
    KeyTextShape(k, e, locale);
    FlagTextShape(KeyText(locale, k, e), e);
    ValueShape(KeyText(locale, k, e) + FlagText(e), e.mValue.Chars());
    EntryTextCases(k, e, locale);
    TrimNewline(line);
    forall st
      ensures NoRawCall(TextWrites(st, line + [NEWLINE], opts), key)
    {
      OneLineWrites(st, line, opts);
      if e.bDeleted {
        PlainDeletedCalls(st, k, e, locale, opts);
      } else {
        PlainKeptCalls(st, k, e, locale, opts);
      }
    }
  }

  /** The line of a raw entry. */
  function AsRawLine(k: KEntryKey, e: KEntry): RawLine {
    RawLine(RawBase(k.mKey), RawTag(k.mKey), e.mValue.Chars(), e.bImmutable, e.bExpand)
  }

  lemma RawLineOf(k: KEntryKey, e: KEntry, locale: bytes)
    requires LooseEntryOk(k, e, locale) && e.bRaw
    ensures var l := AsRawLine(k, e); l.Ok(locale) && l.Key() == k.mKey && EntryText(locale, k, e) == l.base + Tail(l)
  {
    hide Encode, FlushSafe, OwnLocale, TagOk, RawBase, RawTag, Tail;
    var l := AsRawLine(k, e);
    assert l.base + [OPEN] + l.tag + [CLOSE] == l.base + Bracketed(l.tag);
    TextParts(l, k.mGroup, locale);
  }

  /** A raw line stores its own key if that is stable, and otherwise only shorter ones. */
  lemma RawLineIsQuiet(k: KEntryKey, e: KEntry, locale: bytes, key: bytes, opts: ParseOptions)
    requires LooseEntryOk(k, e, locale) && e.bRaw && SameReader(opts, locale) && opts.merging
    requires if RawStable(RawBase(k.mKey)) then key != k.mKey else Decode(RawBase(k.mKey)).ok && |k.mKey| <= |key|
    ensures Quiet(EntryText(locale, k, e) + [NEWLINE], key, opts)
  {
    hide Decode, FlushSafe, OwnLocale, TagOk, Tail, TextWrites, EntryText, LooseEntryOk;
    var l := AsRawLine(k, e);
    RawLineOf(k, e, locale);
    BracketedLength(l.tag);
    if !RawStable(l.base) && Decode(l.base).out != l.base {
      DecodedIsShorter(l.base);
    }
    forall st
      ensures NoRawCall(TextWrites(st, EntryText(locale, k, e) + [NEWLINE], opts), key)
    {
      TextMakes(st, l, l.base, locale, opts);
    }
  }

  // ---------------------------------------------------------------------------
  // The calls of a printed file
  // ---------------------------------------------------------------------------

  ghost predicate AllQuiet(m: Entries, locale: bytes, key: bytes, opts: ParseOptions) {
    forall k :: k in m && k.mKey != [] ==> Quiet(EntryText(locale, k, m[k]) + [NEWLINE], key, opts)
  }

  lemma {:induction false} KeysAreQuiet(m: Entries, ks: seq<KEntryKey>, locale: bytes, pass: Pass, st: WriteState,
                                        key: bytes, opts: ParseOptions)
    requires (forall k :: k in ks ==> k in m) && AllQuiet(m, locale, key, opts) && Quiet(st.out, key, opts)
    ensures Quiet(WriteKeys(m, ks, locale, Null, pass, st).out, key, opts)
    decreases |ks|
  {
    hide EntryText, HeaderLines, Quiet;
    if ks == [] {
    } else {
      var k := ks[0];
      var h := HeaderLines(st.firstEntry, k.mGroup, st.immutable);
      HeaderLinesAreQuiet(st.firstEntry, k.mGroup, st.immutable, key, opts);
      QuietConcat(st.out, h, key, opts);
      if k.mKey != [] {
        QuietConcat(st.out + h, EntryText(locale, k, m[k]) + [NEWLINE], key, opts);
        QuietConcat(st.out, EntryText(locale, k, m[k]) + [NEWLINE], key, opts);
      }
      KeysAreQuiet(m, ks[1..], locale, pass, WriteOne(m, k, locale, Null, pass, st), key, opts);
    }
  }

  lemma FileIsQuiet(m: Entries, locale: bytes, key: bytes, opts: ParseOptions)
    requires AllQuiet(m, locale, key, opts)
    ensures Quiet(WriteEntries(m, locale, Null), key, opts)
  {
    hide WriteKeys, Quiet, InOrder, AllQuiet;
    var ks := InOrder(m.Keys);
    BlankIsQuiet(key, opts);
    var st0 := WriteState([], false, true, []);
    KeysAreQuiet(m, ks, locale, Pass(true, false), st0, key, opts);
    var st1 := WritePass(m, ks, locale, Null, Pass(true, false), st0);
    KeysAreQuiet(m, ks, locale, Pass(false, false), st1.(group := [], immutable := false), key, opts);
  }

  // ---------------------------------------------------------------------------
  // A sync
  // ---------------------------------------------------------------------------

  /** The keys of the lines for other locales hold no invalid escape sequence when they are
      decoded once more. */
  ghost predicate RawsDecode(m: Entries) {
    forall k :: k in m && k.mKey != [] && m[k].bRaw ==> Decode(RawBase(k.mKey)).ok
  }

  predicate Unstable(m: Entries, x: KEntryKey) {
    x in m && x.mKey != [] && m[x].bRaw && !RawStable(RawBase(x.mKey))
  }

  lemma LongestOf(m: Entries, xs: set<KEntryKey>) returns (x: KEntryKey)
    requires xs != {}
    ensures x in xs && forall y :: y in xs ==> |y.mKey| <= |x.mKey|
    decreases |xs|
  {
    x :| x in xs;
    var rest := xs - {x};
    if rest == {} {
      assert xs == {x} + rest;
    } else {
      var y := LongestOf(m, rest);
      assert xs == {x} + rest;
      if |y.mKey| > |x.mKey| {
        x := y;
      }
    }
  }

  lemma LongestUnstable(m: Entries) returns (x: KEntryKey)
    requires !AllStable(m)
    ensures Unstable(m, x) && forall y :: Unstable(m, y) ==> |y.mKey| <= |x.mKey|
  {
    hide RawStable, RawBase;
    var xs := set y | y in m && Unstable(m, y);
    var k :| k in m && k.mKey != [] && m[k].bRaw && !RawStable(RawBase(k.mKey));
    assert k in xs;
    x := LongestOf(m, xs);
  }

  /** What the merge leaves of each key: a raw one as it was, or one that can be written. */
  lemma MergedLoosely(w: Entries, mem: Entries, k: KEntryKey, locale: bytes)
    requires MemoryOk(mem) && LooselyRepresentable(w, locale) && k in Merged(w, mem, false) && k.mKey != []
    ensures var e := Merged(w, mem, false)[k];
            if e.bRaw then k in w && e == w[k] && LooseEntryOk(k, e, locale) else EntryOk(k, e, locale)
  {
    hide MemoryOk, WellKept, MergeOne, KeyOk, FlushSafe, RawShape, RawStable, GroupOk;
    if k in w {
      assert LooseEntryOk(k, w[k], locale);
    }
    if k in mem {
      MergeEntry(mem, k);
      MemoryEntry(mem, k);
    }
  }

  lemma MergedQuiet(w: Entries, mem: Entries, locale: bytes, x: KEntryKey)
    requires LocaleOk(locale) && MemoryOk(mem) && LooselyRepresentable(w, locale) && RawsDecode(w)
    requires Unstable(w, x) && forall y :: Unstable(w, y) ==> |y.mKey| <= |x.mKey|
    ensures AllQuiet(Merged(w, mem, false), locale, x.mKey, ReadOptions(locale, true))
  {
    hide MemoryOk, LooselyRepresentable, Merged, Quiet, EntryText, EntryOk, LooseEntryOk, Decode, RawBase, RawStable,
         LocaleOk;
    var n, opts := Merged(w, mem, false), ReadOptions(locale, true);
    forall k | k in n && k.mKey != []
      ensures Quiet(EntryText(locale, k, n[k]) + [NEWLINE], x.mKey, opts)
    {
      MergedLoosely(w, mem, k, locale);
      if n[k].bRaw {
        RawLineIsQuiet(k, n[k], locale, x.mKey, opts);
      } else {
        PlainLineIsQuiet(k, n[k], locale, x.mKey, opts);
      }
    }
  }

  /** A sync loses the longest of the keys that are not stable. */
  lemma LongestIsLost(s: OnFile, locale: bytes, x: KEntryKey)
    requires LocaleOk(locale) && LooseFile(s.file, locale) && MemoryOk(s.config.entryMap) && Writes(s.config)
    requires RawsDecode(OnDisk(s.file, locale)) && Unstable(OnDisk(s.file, locale), x)
    requires forall y :: Unstable(OnDisk(s.file, locale), y) ==> |y.mKey| <= |x.mKey|
    ensures !RawAt(OnDisk(SyncFile(s, locale).file, locale), x)
  {
    hide LocaleOk, MemoryOk, ParseConfig, LooselyRepresentable, Merged, Cleaned, WriteEntries, AllQuiet, RawsDecode,
         Unstable, ReadersAgree, RawAt, TextWrites;
    var w, mem, opts := OnDisk(s.file, locale), s.config.entryMap, ReadOptions(locale, true);
    MergedQuiet(w, mem, locale, x);
    FileIsQuiet(Merged(w, mem, false), locale, x.mKey, opts);
    assert x.mKey != [] by { UnstableKey(w, x); }
    FileRaw(WriteEntries(Merged(w, mem, false), locale, Null), opts, x);
  }

  lemma UnstableKey(m: Entries, x: KEntryKey)
    requires Unstable(m, x)
    ensures x in m && m[x].bRaw && x.mKey != []
  {
  }

  lemma RawIsPresent(w: Entries, locale: bytes, x: KEntryKey)
    requires LooselyRepresentable(w, locale) && x.mKey != [] && RawAt(w, x)
    ensures TextAt(w, x).Present? && TextAt(w, x).raw && x.bLocal
  {
    hide WellKept, KeyOk, RawShape, FlushSafe, GroupOk;
    assert LooseEntryOk(x, w[x], locale);
  }

  lemma NotRawText(n: Entries, x: KEntryKey)
    requires !RawAt(n, x)
    ensures !(TextAt(n, x).Present? && TextAt(n, x).raw)
  {
  }

  /** A sync leaves every key alone that it does not carry, those of lines for other locales
      included, exactly if all of the latter are stable. */
  lemma UncarriedStayExactly(s: OnFile, locale: bytes)
    requires LocaleOk(locale) && LooseFile(s.file, locale) && MemoryOk(s.config.entryMap) && Writes(s.config)
    requires RawsDecode(OnDisk(s.file, locale))
    ensures (forall k: KEntryKey :: k.mKey != [] && !Carries(s.config.entryMap, k) ==>
               TextAt(OnDisk(SyncFile(s, locale).file, locale), k) == TextAt(OnDisk(s.file, locale), k))
            <==> AllStable(OnDisk(s.file, locale))
  {
    hide LocaleOk, MemoryOk, OnDisk, LooselyRepresentable, SyncFile, AnyDirty, RawsDecode, TextAt, AllStable, RawAt,
         ReadersAgree, ParseConfig, Carries, EffectOf;
    var w, mem := OnDisk(s.file, locale), s.config.entryMap;
    if AllStable(w) {
      SyncWrites(s, locale);
    } else {
      var x := LongestUnstable(w);
      LongestIsLost(s, locale, x);
      UnstableKey(w, x);
      assert RawAt(w, x) by { RawAtKey(w, x); }
      RawIsPresent(w, locale, x);
      NotRawText(OnDisk(SyncFile(s, locale).file, locale), x);
      LocalIsUncarried(mem, x);
    }
  }

  lemma RawAtKey(m: Entries, x: KEntryKey)
    requires x in m && m[x].bRaw
    ensures RawAt(m, x)
  {
  }
}
