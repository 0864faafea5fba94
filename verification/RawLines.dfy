/** Lines for other locales. While merging, the key of such a line is decoded and kept with its
    tag, and written as it is kept, without escaping (src/core/kconfigini.cpp:226-263,
    346-353). Exactly which of them a merge leaves as they are. */
module RawLines {
  import opened Bytes
  import opened IniCodec
  import opened CodecLaws
  import opened CodecTheorems
  import opened EntryMap
  import opened Immutability
  import opened IniParser
  import opened IniWriter
  import opened IniLines
  import opened IniEntries
  import opened TaggedLines
  import opened ParserRuns

  /** A line for another locale, as the parser keeps it. */
  datatype RawLine = RawLine(base: bytes, tag: bytes, v: bytes, immutable: bool, expand: bool) {
    function Key(): bytes {
      base + Bracketed(tag)
    }

    function Entry(): KEntry {
      NEW_ENTRY.(mValue := Data(v), bImmutable := immutable, bExpand := expand, bRaw := true)
    }

    /** What the printer makes of it, without the newline. */
    function Text(g: bytes, locale: bytes): bytes {
      EntryText(locale, KEntryKey(g, Key(), true, false), Entry())
    }

    predicate Ok(locale: bytes) {
      TagOk(tag) && !OwnLocale(tag, locale) && FlushSafe([], v)
    }
  }

  lemma TextParts(l: RawLine, g: bytes, locale: bytes)
    ensures l.Text(g, locale) == l.base + Tail(l)
  {
    hide Encode, FlagText, Bracketed;
    var v := [EQUALS] + Encode(ValueString, l.v);
    ConcatAssociative(l.base, Bracketed(l.tag), FlagText(l.Entry()));
    ConcatAssociative(l.base, Bracketed(l.tag) + FlagText(l.Entry()), v);
  }

  /** Everything behind the base. */
  function Tail(l: RawLine): bytes {
    Bracketed(l.tag) + FlagText(l.Entry()) + ([EQUALS] + Encode(ValueString, l.v))
  }

  // ---------------------------------------------------------------------------
  // Keys that are too short
  // ---------------------------------------------------------------------------

  /** All calls are for keys of at most n characters. */
  ghost predicate Short(ws: seq<Write>, n: int) {
    forall w :: w in ws ==> |w.k| <= n
  }

  lemma {:induction false} TrimmedLength(s: bytes)
    ensures |Trimmed(s)| <= |s|
  {
  }

  lemma DecodeLength(s: bytes)
    ensures |Decode(s).out| <= |s|
  {
    hide Unescape, Trimmed;
  }

  function TagLength(locale: QByteArray): nat {
    if locale.Null? then 0 else |locale.data| + 2
  }

  /** What is taken off the key is not longer than what is left away. */
  lemma {:induction false} ParseKeyLength(key: bytes, o: EntryOptions, locale: QByteArray, opts: ParseOptions)
    ensures var r := ParseKey(key, o, locale, opts);
            && (r.DeletedKey? ==> |r.key| <= |key|)
            && (r.ParsedKey? ==> |r.key| + TagLength(r.locale) <= |key| + TagLength(locale))
            && (r.ParsedKey? && locale.Data? ==> r.locale == locale && (OPEN in key ==> |r.key| < |key|))
    decreases |key|
  {
    hide ScanFlags;
    var start := LastIndexOf(key, OPEN);
    if start < 0 {
    } else {
      var tail := key[start..];
      var e := IndexOf(tail, CLOSE);
      if e >= 0 {
        assert tail[0] == OPEN;
        var part := tail[1..e];
        if part != [] && part[0] == DOLLAR {
          var r := ScanFlags(part[1..], o, opts);
          ParseKeyLength(key[..start], r.o, locale, opts);
        } else if locale.Null? {
          ParseKeyLength(key[..start], o, Data(part), opts);
        }
      }
    }
  }

  lemma StoreLength(st: ParseState, key: bytes, o: EntryOptions, locale: QByteArray, value: bytes, opts: ParseOptions)
    ensures Short(StoreWrites(st, key, o, locale, value, opts), |key| + TagLength(locale))
  {
    hide Decode;
    DecodeLength(key);
  }

  /** The call of an entry has a key that is no longer than the text in front of the '='. */
  lemma EntryLength(st: ParseState, line: bytes, opts: ParseOptions)
    ensures var eq := IndexOf(line, EQUALS); Short(EntryWrites(st, line, opts), if eq < 0 then |line| else eq)
  {
    hide ParseKey, Decode, Trimmed, IndexOf, StoreWrites;
    var eq := IndexOf(line, EQUALS);
    var key := if eq < 0 then line else Trimmed(line[..eq]);
    if eq >= 0 {
      TrimmedLength(line[..eq]);
    }
    var o := NO_OPTIONS.(immutable := st.groupImmutable);
    var r := ParseKey(key, o, Null, opts);
    ParseKeyLength(key, o, Null, opts);
    if r.DeletedKey? {
      DecodeLength(r.key);
    }
    if r.ParsedKey? && eq >= 0 {
      StoreLength(st, r.key, r.o, r.locale, Trimmed(line[eq + 1..]), opts);
    }
  }

  lemma LineLength(st: ParseState, raw: bytes, opts: ParseOptions)
    ensures Short(LineWrites(st, raw, opts), |raw|)
  {
    hide EntryWrites, Trimmed, IndexOf;
    TrimmedLength(raw);
    EntryLength(st, Trimmed(raw), opts);
  }

  // ---------------------------------------------------------------------------
  // One line
  // ---------------------------------------------------------------------------

  /** The base has no meaning in a line: only its decoding is still to be asked about. */
  predicate Inconspicuous(b: bytes) {
    StartsLine(b) && OPEN !in b && EQUALS !in b
  }

  lemma TailShape(l: RawLine, locale: bytes)
    requires l.Ok(locale)
    ensures Tail(l) != [] && Tail(l)[0] == OPEN && !IsSpace(Tail(l)[|Tail(l)| - 1]) && NEWLINE !in Tail(l)
  {
    hide Encode, FlushSafe, FlagText, OwnLocale;
    var v := Encode(ValueString, l.v);
    EncodePrintable(ValueString, l.v);
    NoNewline(ValueString, l.v);
    FlagNewline(l.Entry());
    var t := [EQUALS] + v;
    assert Tail(l)[|Tail(l)| - 1] == t[|t| - 1];
  }

  lemma FlagNewline(e: KEntry)
    ensures NEWLINE !in FlagText(e) && EQUALS !in FlagText(e)
    ensures FlagText(e) != [] ==> FlagText(e)[|FlagText(e)| - 1] == CLOSE
  {
  }

  lemma TagHasNoBrackets(tag: bytes)
    requires TagOk(tag)
    ensures OPEN !in tag && CLOSE !in tag && EQUALS !in Bracketed(tag)
  {
  }

  lemma KeyGrouping(b: bytes, t: bytes, f: bytes, v: bytes)
    ensures b + (t + f + ([EQUALS] + v)) == b + t + f + [EQUALS] + v
  {
    ConcatAssociative(b, t + f, [EQUALS] + v);
    ConcatAssociative(b, t, f);
    ConcatAssociative(b + t + f, [EQUALS], v);
  }

  lemma KeySpaces(b: bytes, t: bytes, f: bytes)
    requires b != [] && !IsSpace(b[0]) && t != [] && t[|t| - 1] == CLOSE && (f != [] ==> f[|f| - 1] == CLOSE)
    ensures b + t + f != [] && NoOuterSpace(b + t + f)
  {
  }

  /** The text in front of the '=', if the base has none. */
  lemma KeyPart(l: RawLine, b: bytes, locale: bytes)
    requires l.Ok(locale) && EQUALS !in b && b != [] && !IsSpace(b[0])
    ensures var key := b + Bracketed(l.tag) + FlagText(l.Entry());
            && IndexOf(b + Tail(l), EQUALS) == |key| && (b + Tail(l))[..|key|] == key
            && Trimmed(key) == key && key != []
  {
    hide Encode, FlagText, FlushSafe, OwnLocale, IndexOf, Trimmed, TagOk, NoOuterSpace;
    var t, f, v := Bracketed(l.tag), FlagText(l.Entry()), Encode(ValueString, l.v);
    var key := b + t + f;
    FlagNewline(l.Entry());
    TagHasNoBrackets(l.tag);
    KeyGrouping(b, t, f, v);
    IndexOfConcat(key, EQUALS, v);
    KeySpaces(b, t, f);
  }

  /** What the brackets of such a key come to. */
  lemma RawParts(l: RawLine, b: bytes, o: EntryOptions, locale: bytes, opts: ParseOptions)
    requires l.Ok(locale) && opts.expansions && !o.expansion
    ensures ParseKey(b + Bracketed(l.tag) + FlagText(l.Entry()), o, Null, opts)
         == ParseKey(b, o.(immutable := o.immutable || l.immutable, expansion := l.expand), Data(l.tag), opts)
  {
    hide ParseKey, FlagText, Bracketed, FlushSafe, OwnLocale;
    ParseOwnFlags(b + Bracketed(l.tag), l.Entry(), o, opts);
    BracketPart(b, l.tag, o.(immutable := o.immutable || l.immutable, expansion := l.expand), Null, opts);
  }

  /** All that the line can do, b being what is left of the base. */
  ghost predicate LineMakes(l: RawLine, b: bytes, ws: seq<Write>) {
    if Inconspicuous(b) then forall w :: w in ws ==> w.k == Decode(b).out + Bracketed(l.tag)
    else Short(ws, |b| + |l.tag| + 1)
  }

  /** A tag that is not the reader's own. */
  lemma StoreForeign(st: ParseState, key: bytes, o: EntryOptions, tag: bytes, value: bytes, opts: ParseOptions)
    requires !OwnLocale(tag, opts.locale)
    ensures forall w :: w in StoreWrites(st, key, o, Data(tag), value, opts) ==> w.k == Decode(key).out + Bracketed(tag)
  {
    hide Decode, OwnLocale;
    var k := Decode(key).out;
    assert k + [OPEN] + tag + [CLOSE] == k + Bracketed(tag);
  }

  lemma EntryMakes(st: ParseState, l: RawLine, b: bytes, locale: bytes, opts: ParseOptions)
    requires l.Ok(locale) && SameReader(opts, locale) && opts.merging && StartsLine(b)
    ensures LineMakes(l, b, EntryWrites(st, b + Tail(l), opts))
  {
    hide ParseKey, Decode, Trimmed, IndexOf, OwnLocale, FlagText, FlushSafe, Tail, Bracketed, StoreWrites;
    var line := b + Tail(l);
    if EQUALS in b {
      EntryLength(st, line, opts);
      SameEquals(b, Tail(l));
    } else {
      KeyPart(l, b, locale);
      var key := b + Bracketed(l.tag) + FlagText(l.Entry());
      var o := NO_OPTIONS.(immutable := st.groupImmutable);
      RawParts(l, b, o, locale, opts);
      var o' := o.(immutable := o.immutable || l.immutable, expansion := l.expand);
      ParseKeyLength(b, o', Data(l.tag), opts);
      var r := ParseKey(b, o', Data(l.tag), opts);
      BracketedLength(l.tag);
      if OPEN !in b {
        ParsePlainKey(b, o', Data(l.tag), opts);
      }
      if r.DeletedKey? {
        DecodeLength(r.key);
      }
      if r.ParsedKey? {
        DecodeLength(r.key);
        StoreForeign(st, r.key, r.o, l.tag, Trimmed(line[|key| + 1..]), opts);
      }
    }
  }

  lemma BracketedLength(tag: bytes)
    ensures |Bracketed(tag)| == |tag| + 2
  {
  }

  lemma {:induction false} OneLineMakes(st: ParseState, l: RawLine, b: bytes, locale: bytes, opts: ParseOptions)
    requires l.Ok(locale) && SameReader(opts, locale) && opts.merging
    ensures LineMakes(l, b, LineWrites(st, b + Tail(l) + [NEWLINE], opts))
    decreases |b|
  {
    hide Tail, EntryWrites, Trimmed, Decode, OwnLocale, FlushSafe, NoOuterSpace;
    var line := b + Tail(l);
    TailShape(l, locale);
    if b != [] && IsSpace(b[0]) {
      TrimmedSpace(b[0], b[1..] + Tail(l) + [NEWLINE]);
      assert line + [NEWLINE] == [b[0]] + (b[1..] + Tail(l) + [NEWLINE]);
      OneLineMakes(st, l, b[1..], locale, opts);
      DecodeLength(b[1..]);
      BracketedLength(l.tag);
    } else {
      EndsInTail(b, Tail(l));
      TrimNewline(line);
      if StartsLine(b) {
        EntryMakes(st, l, b, locale, opts);
      } else if b == [] {
        assert line == Tail(l);
      }
    }
  }

  lemma EndsInTail(b: bytes, t: bytes)
    requires t != [] && t[0] == OPEN && !IsSpace(t[|t| - 1]) && (b != [] ==> !IsSpace(b[0]))
    ensures NoOuterSpace(b + t) && (b + t)[0] == if b == [] then OPEN else b[0]
  {
  }

  lemma TrimmedSpace(c: byte, s: bytes)
    requires IsSpace(c)
    ensures Trimmed([c] + s) == Trimmed(s)
  {
    assert ([c] + s)[1..] == s;
  }

  // ---------------------------------------------------------------------------
  // The whole text
  // ---------------------------------------------------------------------------

  lemma ShortMore(ws: seq<Write>, n: int, p: int)
    requires Short(ws, n) && n <= p
    ensures Short(ws, p)
  {
  }

  /** A newline in the base breaks the line, and no part of it is long enough. */
  lemma {:induction false} TextMakes(st: ParseState, l: RawLine, b: bytes, locale: bytes, opts: ParseOptions)
    requires l.Ok(locale) && SameReader(opts, locale) && opts.merging
    ensures var ws := TextWrites(st, b + Tail(l) + [NEWLINE], opts);
            if NEWLINE in b then Short(ws, |b| + |l.tag| + 1) else LineMakes(l, b, ws)
    decreases |b|
  {
    hide Tail, LineWrites, ParseLine, Decode, OwnLocale, FlushSafe, FirstLine;
    var text := b + Tail(l) + [NEWLINE];
    TailShape(l, locale);
    if st.errors < MAX_ERRORS {
      if NEWLINE in b {
        var i := IndexOf(b, NEWLINE);
        BreakAt(b, Tail(l), i);
        var st' := ParseLine(st, text[..i + 1], opts);
        LineLength(st, text[..i + 1], opts);
        ShortMore(LineWrites(st, text[..i + 1], opts), i + 1, |b| + |l.tag| + 1);
        TextMakes(st', l, b[i + 1..], locale, opts);
        RestIsShort(l, b[i + 1..], TextWrites(st', b[i + 1..] + Tail(l) + [NEWLINE], opts), |b| + |l.tag| + 1);
      } else {
        OneLineMakes(st, l, b, locale, opts);
        WholeLine(b + Tail(l));
        assert text[..|text|] == text && text[|text|..] == [];
      }
    }
  }

  lemma BreakAt(b: bytes, t: bytes, i: nat)
    requires i < |b| && b[i] == NEWLINE && NEWLINE !in b[..i]
    ensures var text := b + t + [NEWLINE];
            text != [] && FirstLine(text) == i + 1 && text[i + 1..] == b[i + 1..] + t + [NEWLINE]
  {
    hide IndexOf;
    IndexOfConcat(b[..i], NEWLINE, b[i + 1..] + t + [NEWLINE]);
    assert b + t + [NEWLINE] == b[..i] + [NEWLINE] + (b[i + 1..] + t + [NEWLINE]);
  }

  lemma WholeLine(line: bytes)
    requires NEWLINE !in line
    ensures line + [NEWLINE] != [] && FirstLine(line + [NEWLINE]) == |line| + 1
  {
    hide IndexOf;
    IndexOfConcat(line, NEWLINE, []);
    assert line + [NEWLINE] + [] == line + [NEWLINE];
  }

  lemma RestIsShort(l: RawLine, b: bytes, ws: seq<Write>, n: nat)
    requires |b| + |l.tag| + 2 <= n
    requires if NEWLINE in b then Short(ws, |b| + |l.tag| + 1) else LineMakes(l, b, ws)
    ensures Short(ws, n)
  {
    hide Decode;
    DecodeLength(b);
    BracketedLength(l.tag);
  }

  // ---------------------------------------------------------------------------
  // Survival
  // ---------------------------------------------------------------------------

  lemma {:induction false} NotAmong(m: Entries, ws: seq<Write>, x: KEntryKey)
    requires x !in m && x.mKey != [] && forall w :: w in ws ==> w.k != x.mKey
    ensures x !in Run(m, ws)
    decreases |ws|
  {
    hide Apply;
    if ws == [] {
    } else {
      OthersUntouched(m, ws[0], x);
      NotAmong(Apply(m, ws[0]), ws[1..], x);
    }
  }

  lemma KeySlices(base: bytes, tag: bytes)
    ensures var k := base + Bracketed(tag);
            && k == base + [OPEN] + tag + [CLOSE]
            && |k| == |base| + |tag| + 2 && k[..|base|] == base && k[|base| + 1..|k| - 1] == tag
  {
  }

  lemma RawKeyParts(base: bytes, tag: bytes)
    requires OPEN !in tag && CLOSE !in tag
    ensures var k := base + Bracketed(tag); k == base + [OPEN] + tag + [CLOSE] && RawBase(k) == base && RawTag(k) == tag
  {
    hide LastIndexOf, Bracketed;
    BracketIndices(base, tag);
    KeySlices(base, tag);
  }

  lemma StableIsOk(l: RawLine, g: bytes, locale: bytes)
    requires l.Ok(locale) && RawStable(l.base)
    ensures EntryOk(KEntryKey(g, l.Key(), true, false), l.Entry(), locale)
  {
    hide RawStable, TagOk, FlushSafe, OwnLocale, RawBase, RawTag;
    TagHasNoBrackets(l.tag);
    RawKeyParts(l.base, l.tag);
  }

  /** The stored entry, in a group that is not closed. */
  lemma StableIsStored(st: ParseState, l: RawLine, locale: bytes, opts: ParseOptions)
    requires LocaleOk(locale) && l.Ok(locale) && SameReader(opts, locale) && opts.merging && RawStable(l.base)
    requires !st.groupSkip && st.errors < MAX_ERRORS && MarkerMutable(st.m, st.group)
    requires KEntryKey(st.group, l.Key(), true, false) !in st.m
    ensures var x := KEntryKey(st.group, l.Key(), true, false);
            var n := ParseText(st, l.Text(st.group, locale) + [NEWLINE], opts).m;
            x in n && n[x].mValue == Data(l.v) && n[x].bRaw
  {
    hide LocaleOk, RawStable, EntryText, ParseLine, FlushSafe, EntryOk, WithMarker, TagOk, OwnLocale;
    var x := KEntryKey(st.group, l.Key(), true, false);
    StableIsOk(l, st.group, locale);
    ReadEntry(st, x, l.Entry(), locale, opts);
    ParseOneLine(st, l.Text(st.group, locale), opts);
    BracketedLength(l.tag);
  }

  /** A merge leaves a line for another locale in the file exactly if its base is stable. The
      base is any key that the parser may have decoded. */
  lemma RawLineSurvivesExactly(st: ParseState, l: RawLine, locale: bytes, opts: ParseOptions)
    requires LocaleOk(locale) && l.Ok(locale) && SameReader(opts, locale) && opts.merging
    requires !st.groupSkip && st.errors < MAX_ERRORS && MarkerMutable(st.m, st.group)
    requires KEntryKey(st.group, l.Key(), true, false) !in st.m
    ensures KEntryKey(st.group, l.Key(), true, false) in ParseText(st, l.Text(st.group, locale) + [NEWLINE], opts).m
            <==> RawStable(l.base)
  {
    hide LocaleOk, ParseText, TextWrites, Run, Tail, RawLine.Text, FlushSafe, OwnLocale, Decode, TagOk, MarkerMutable;
    var x := KEntryKey(st.group, l.Key(), true, false);
    BracketedLength(l.tag);
    if RawStable(l.base) {
      StableIsStored(st, l, locale, opts);
    } else {
      var text := l.base + Tail(l) + [NEWLINE];
      TextParts(l, st.group, locale);
      TextMakes(st, l, l.base, locale, opts);
      TextIsRun(st, text, opts);
      NotTheKey(l, TextWrites(st, text, opts));
      NotAmong(st.m, TextWrites(st, text, opts), x);
    }
  }

  lemma NotTheKey(l: RawLine, ws: seq<Write>)
    requires !RawStable(l.base)
    requires if NEWLINE in l.base then Short(ws, |l.base| + |l.tag| + 1) else LineMakes(l, l.base, ws)
    ensures forall w :: w in ws ==> w.k != l.Key()
  {
    hide Decode;
    BracketedLength(l.tag);
    if NEWLINE !in l.base && Inconspicuous(l.base) {
      assert Decode(l.base).out != l.base;
      if Decode(l.base).out + Bracketed(l.tag) == l.base + Bracketed(l.tag) {
        SameHeads(Decode(l.base).out, l.base, Bracketed(l.tag));
      }
    }
  }

  lemma SameHeads(a: bytes, b: bytes, t: bytes)
    requires a + t == b + t
    ensures a == b
  {
    assert |a| == |b|;
    assert a == (a + t)[..|a|] && b == (b + t)[..|b|];
  }

  // ---------------------------------------------------------------------------
  // What an unstable line does to others
  // ---------------------------------------------------------------------------

  function StripLead(s: bytes): bytes {
    if s != [] && IsSpace(s[0]) then StripLead(s[1..]) else s
  }

  /** The printed line does more than store its own key: it is read as a header, or as an entry,
      a deletion or a line for another key. */
  predicate Harms(l: RawLine, opts: ParseOptions) {
    var c := StripLead(l.base);
    || c == []
    || c[0] == OPEN
    || (c[0] != HASH
        && if EQUALS in c then
             var key := Trimmed(c[..IndexOf(c, EQUALS)]);
             key != [] && !ParseKey(key, NO_OPTIONS, Null, opts).BadKey?
           else if OPEN in c then !ParseKey(c, NO_OPTIONS, Data(l.tag), opts).BadKey?
           else Decode(c).out != l.base)
  }

  /** The options found so far do not decide which kind of key it is. */
  lemma {:induction false} ParseKeyShape(key: bytes, o: EntryOptions, p: EntryOptions, locale: QByteArray,
                                         opts: ParseOptions)
    ensures var r, q := ParseKey(key, o, locale, opts), ParseKey(key, p, locale, opts);
            && (r.BadKey? <==> q.BadKey?) && (r.DeletedKey? <==> q.DeletedKey?)
    decreases |key|
  {
    hide ScanFlags;
    var start := LastIndexOf(key, OPEN);
    if start < 0 {
    } else {
      var tail := key[start..];
      var e := IndexOf(tail, CLOSE);
      if e >= 0 {
        assert tail[0] == OPEN;
        var part := tail[1..e];
        if part != [] && part[0] == DOLLAR {
          var r, q := ScanFlags(part[1..], o, opts), ScanFlags(part[1..], p, opts);
          ScanDeletes(part[1..], o, opts);
          ScanDeletes(part[1..], p, opts);
          ParseKeyShape(key[..start], r.o, q.o, locale, opts);
        } else if locale.Null? {
          ParseKeyShape(key[..start], o, p, Data(part), opts);
        }
      }
    }
  }

  lemma {:induction false} ScanDeletes(cs: bytes, o: EntryOptions, opts: ParseOptions)
    ensures ScanFlags(cs, o, opts).deleted <==> LOWER_D in cs
    decreases |cs|
  {
    if cs == [] {
    } else if cs[0] != LOWER_D {
      var o' := if cs[0] == LOWER_I then o.(immutable := true)
                else if cs[0] == LOWER_E then o.(expansion := o.expansion || opts.expansions) else o;
      ScanDeletes(cs[1..], o', opts);
    }
  }

  lemma {:induction false} TrimmedRaw(l: RawLine, b: bytes, locale: bytes)
    requires l.Ok(locale)
    ensures Trimmed(b + Tail(l) + [NEWLINE]) == StripLead(b) + Tail(l)
    decreases |b|
  {
    hide Tail, Trimmed, NoOuterSpace, OwnLocale, FlushSafe, TagOk;
    TailShape(l, locale);
    if b == [] || !IsSpace(b[0]) {
      EndsInTail(b, Tail(l));
      TrimNewline(b + Tail(l));
    } else {
      TrimmedSpace(b[0], b[1..] + Tail(l) + [NEWLINE]);
      assert b + Tail(l) + [NEWLINE] == [b[0]] + (b[1..] + Tail(l) + [NEWLINE]);
      TrimmedRaw(l, b[1..], locale);
    }
  }

  lemma {:induction false} StripLeadStarts(b: bytes)
    ensures StripLead(b) != [] ==> !IsSpace(StripLead(b)[0])
    ensures |StripLead(b)| <= |b| && (|StripLead(b)| == |b| ==> StripLead(b) == b)
  {
    if b == [] || !IsSpace(b[0]) {
    } else {
      StripLeadStarts(b[1..]);
    }
  }

  /** What the entry branch makes of the stripped line, by the cases of Harms. */
  lemma HarmCases(st: ParseState, l: RawLine, c: bytes, locale: bytes, opts: ParseOptions)
    requires l.Ok(locale) && SameReader(opts, locale) && opts.merging && StartsLine(c)
    ensures var ws := EntryWrites(st, c + Tail(l), opts);
            if EQUALS in c then
              var key := Trimmed(c[..IndexOf(c, EQUALS)]);
              (ws == [] <==> key == [] || ParseKey(key, NO_OPTIONS, Null, opts).BadKey?)
            else if OPEN in c then
              (ws == [] <==> ParseKey(c, NO_OPTIONS, Data(l.tag), opts).BadKey?)
            else ws != []
  {
    hide ParseKey, Decode, Trimmed, IndexOf, OwnLocale, FlagText, FlushSafe, Tail, Bracketed;
    var line := c + Tail(l);
    var o := NO_OPTIONS.(immutable := st.groupImmutable);
    if EQUALS in c {
      SameEquals(c, Tail(l));
      ParseKeyShape(Trimmed(c[..IndexOf(c, EQUALS)]), o, NO_OPTIONS, Null, opts);
    } else {
      KeyPart(l, c, locale);
      RawParts(l, c, o, locale, opts);
      var o' := o.(immutable := o.immutable || l.immutable, expansion := l.expand);
      ParseKeyShape(c, o', NO_OPTIONS, Data(l.tag), opts);
      if OPEN !in c {
        ParsePlainKey(c, o', Data(l.tag), opts);
      }
    }
  }

  lemma SameEquals(b: bytes, t: bytes)
    requires EQUALS in b
    ensures IndexOf(b + t, EQUALS) == IndexOf(b, EQUALS) && (b + t)[..IndexOf(b, EQUALS)] == b[..IndexOf(b, EQUALS)]
  {
    hide IndexOf;
    var i := IndexOf(b, EQUALS);
    SplitAt(b, i);
    ConcatAssociative(b[..i] + [EQUALS], b[i + 1..], t);
    IndexOfConcat(b[..i], EQUALS, b[i + 1..] + t);
    HeadOfConcat(b, t, i);
  }

  lemma HeadOfConcat(b: bytes, t: bytes, i: nat)
    requires i <= |b|
    ensures (b + t)[..i] == b[..i]
  {
  }

  /** Everything but the map and the errors. */
  predicate SamePlace(st: ParseState, st': ParseState) {
    st' == st.(m := st'.m, errors := st'.errors)
  }

  /** The line changes neither the reader's place nor any other key. */
  ghost predicate LeavesOthers(l: RawLine, g: bytes, locale: bytes, st: ParseState, opts: ParseOptions) {
    var text := l.Text(g, locale) + [NEWLINE];
    && SamePlace(st, ParseText(st, text, opts))
    && forall w :: w in TextWrites(st, text, opts) ==> w.k == l.Key()
  }

  predicate InGroup(st: ParseState) {
    !st.groupSkip && st.errors < MAX_ERRORS
  }

  lemma OneLine(l: RawLine, g: bytes, locale: bytes, st: ParseState, opts: ParseOptions)
    requires l.Ok(locale) && NEWLINE !in l.base && InGroup(st)
    ensures var text := l.Text(g, locale) + [NEWLINE];
            && TextWrites(st, text, opts) == LineWrites(st, text, opts)
            && ParseText(st, text, opts) == ParseLine(st, text, opts)
            && Trimmed(text) == StripLead(l.base) + Tail(l)
            && TextWrites(st, text, opts) == TextWrites(st, l.base + Tail(l) + [NEWLINE], opts)
  {
    hide Tail, ParseLine, LineWrites, FirstLine, OwnLocale, FlushSafe, TagOk, RawLine.Text, StripLead, Trimmed;
    TextParts(l, g, locale);
    var line := l.base + Tail(l);
    var text := line + [NEWLINE];
    TailShape(l, locale);
    WholeLine(line);
    assert text[..|text|] == text && text[|text|..] == [];
    TrimmedRaw(l, l.base, locale);
  }

  lemma Harmless(l: RawLine, g: bytes, locale: bytes, st: ParseState, opts: ParseOptions)
    requires l.Ok(locale) && SameReader(opts, locale) && opts.merging && NEWLINE !in l.base && InGroup(st)
    requires !Harms(l, opts)
    ensures LeavesOthers(l, g, locale, st, opts)
  {
    hide Tail, Trimmed, Decode, IndexOf, OwnLocale, FlushSafe, TagOk, ParseText, TextWrites, EntryWrites, ParseEntry,
         ParseHeader, ParseKey, RawLine.Text, Bracketed;
    var c := StripLead(l.base);
    OneLine(l, g, locale, st, opts);
    EntryIsRun(st, c + Tail(l), opts);
    assert (c + Tail(l))[0] == c[0];
    StripLeadStarts(l.base);
    if c[0] != HASH {
      HarmCases(st, l, c, locale, opts);
      EntryMakes(st, l, c, locale, opts);
    }
  }

  /** A state that a header line changes. */
  lemma HeaderMoves(line: bytes, opts: ParseOptions) returns (st: ParseState)
    requires line != []
    ensures InGroup(st) && !SamePlace(st, ParseHeader(st, line, opts))
  {
    hide HeaderParts, IsImmutable;
    var r := HeaderParts(line[1..], [], false, false);
    match r {
      case BadHeader => st := InitialState(map[]).(groupImmutable := true);
      case Header(name, _, _) => st := InitialState(map[]).(group := name + [0]);
    }
    assert |NameIn(r) + [0]| == |NameIn(r)| + 1;
  }

  function NameIn(r: HeaderResult): bytes {
    if r.Header? then r.name else []
  }

  lemma Harmful(l: RawLine, g: bytes, locale: bytes, opts: ParseOptions) returns (st: ParseState)
    requires l.Ok(locale) && SameReader(opts, locale) && opts.merging && NEWLINE !in l.base
    requires Harms(l, opts)
    ensures InGroup(st) && !LeavesOthers(l, g, locale, st, opts)
  {
    hide Tail, Trimmed, Decode, IndexOf, OwnLocale, FlushSafe, TagOk, ParseText, TextWrites, EntryWrites, ParseEntry,
         ParseHeader, ParseKey, RawLine.Text, Bracketed;
    var c := StripLead(l.base);
    TailShape(l, locale);
    StripLeadStarts(l.base);
    EndsInTail(c, Tail(l));
    if c == [] || c[0] == OPEN {
      st := HeaderMoves(c + Tail(l), opts);
      OneLine(l, g, locale, st, opts);
    } else {
      st := InitialState(map[]);
      OneLine(l, g, locale, st, opts);
      HarmCases(st, l, c, locale, opts);
      EntryMakes(st, l, c, locale, opts);
      OtherKey(l, c, EntryWrites(st, c + Tail(l), opts));
    }
  }

  lemma OtherKey(l: RawLine, c: bytes, ws: seq<Write>)
    requires ws != [] && LineMakes(l, c, ws) && |c| <= |l.base|
    requires Inconspicuous(c) ==> Decode(c).out != l.base
    ensures exists w :: w in ws && w.k != l.Key()
  {
    hide Decode;
    BracketedLength(l.tag);
    assert ws[0] in ws;
    if Inconspicuous(c) && Decode(c).out + Bracketed(l.tag) == l.base + Bracketed(l.tag) {
      SameHeads(Decode(c).out, l.base, Bracketed(l.tag));
    }
  }

  /** A printed line for another locale leaves all other keys and the reader's place alone,
      wherever it stands, exactly if it does not harm. A base with a newline is printed as
      several lines. */
  lemma RawLineHarmsExactly(l: RawLine, g: bytes, locale: bytes, opts: ParseOptions)
    requires l.Ok(locale) && SameReader(opts, locale) && opts.merging && NEWLINE !in l.base
    ensures (forall st :: InGroup(st) ==> LeavesOthers(l, g, locale, st, opts)) <==> !Harms(l, opts)
  {
    hide LeavesOthers, Harms, OwnLocale, FlushSafe, TagOk;
    if Harms(l, opts) {
      var st := Harmful(l, g, locale, opts);
    } else {
      forall st | InGroup(st)
        ensures LeavesOthers(l, g, locale, st, opts)
      {
        Harmless(l, g, locale, st, opts);
      }
    }
  }

  /** A newline in the base starts a line of its own. */
  lemma NewlineInjects(l: RawLine, g: bytes, locale: bytes, st: ParseState, i: nat, opts: ParseOptions)
    requires i < |l.base| && l.base[i] == NEWLINE && NEWLINE !in l.base[..i] && InGroup(st)
    ensures ParseText(st, l.Text(g, locale) + [NEWLINE], opts)
         == ParseText(ParseLine(st, l.base[..i + 1], opts), l.base[i + 1..] + Tail(l) + [NEWLINE], opts)
  {
    hide Tail, ParseLine, FirstLine, RawLine.Text;
    TextParts(l, g, locale);
    BreakAt(l.base, Tail(l), i);
    var text := l.base + Tail(l) + [NEWLINE];
    assert text[..i + 1] == l.base[..i + 1];
  }

  /** A line that is lost: ` K[tag]`, escaped as it should be. Merging the file keeps its key
      with the space, the printed line has a plain space in front, and reading it again does
      not find the key. */
  lemma OuterSpaceIsLost(st: ParseState, tag: bytes, v: bytes, locale: bytes, opts: ParseOptions)
    requires LocaleOk(locale) && TagOk(tag) && !OwnLocale(tag, locale) && FlushSafe([], v)
    requires SameReader(opts, locale) && opts.merging && InGroup(st) && !st.groupImmutable
             && MarkerMutable(st.m, st.group)
    requires KEntryKey(st.group, RawLine([SPACE, 75], tag, v, false, false).Key(), true, false) !in st.m
    ensures var l := RawLine([SPACE, 75], tag, v, false, false);
            var x := KEntryKey(st.group, l.Key(), true, false);
            var m := ParseText(st, TaggedLine(l.base, Data(tag), v).Text() + [NEWLINE], opts).m;
            && x in m && m[x].mValue == Data(v) && m[x].bRaw
            && x !in ParseText(st, l.Text(st.group, locale) + [NEWLINE], opts).m
  {
    hide LocaleOk, ParseText, FlushSafe, OwnLocale, TagOk, RawLine.Text, TaggedLine.Text, Apply, WithMarker;
    var l := RawLine([SPACE, 75], tag, v, false, false);
    var t := TaggedLine(l.base, Data(tag), v);
    SpaceFits();
    ReadTagged(st, t, opts);
    ParseOneLine(st, t.Text(), opts);
    assert l.base + [OPEN] + tag + [CLOSE] == l.Key();
    LocalizedApply(st.m, t.Call(st.group, st.groupImmutable, opts));
    RawLineSurvivesExactly(st, l, locale, opts);
  }

  lemma SpaceFits()
    ensures KeyOk([SPACE, 75]) && !RawStable([SPACE, 75])
  {
    assert Next([], SPACE) == [] && Next([], 75) == [];
    assert [SPACE, 75][1..] == [75] && [75][1..] == [];
  }
}
