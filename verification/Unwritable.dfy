/** Which keys and groups come back from their printed lines. A key that starts with '#' is
    printed as a comment, a group name that starts with an empty component loses it
    (src/core/kconfigini.cpp:79-146, 306-358). */
module Unwritable {
  import opened Bytes
  import opened IniCodec
  import opened CodecLaws
  import opened CodecTheorems
  import opened EntryMap
  import opened Immutability
  import opened IniParser
  import opened IniWriter
  import opened IniLines
  import opened IniEntries
  import opened ParserRuns

  // ---------------------------------------------------------------------------
  // Keys
  // ---------------------------------------------------------------------------

  lemma CommentStays(k: bytes)
    requires k != [] && k[0] == HASH
    ensures Encode(KeyString, k) != [] && Encode(KeyString, k)[0] == HASH
  {
    hide EncodeRest;
    var rest := EncodeRest(KeyString, [], k[1..]);
    assert EncodeRest(KeyString, [], k) == [HASH] + rest by { FirstEmitted(k); }
    assert Encode(KeyString, k) == ProtectTrailingSpace(KeyString, [HASH] + rest);
  }

  lemma FirstEmitted(k: bytes)
    requires k != [] && k[0] == HASH
    ensures EncodeRest(KeyString, [], k) == [HASH] + EncodeRest(KeyString, [], k[1..])
  {
    assert Emit(KeyString, [], HASH) == [] + [HASH] == [HASH];
  }

  /** The encoded key comes back as the key exactly if it is not taken for a comment. */
  lemma KeyBackExactly(k: bytes)
    requires k != []
    ensures var t := Encode(KeyString, k);
            && t != [] && NoOuterSpace(t) && OPEN !in t && EQUALS !in t && NEWLINE !in t && t[0] != OPEN
            && (t[0] != HASH && Decode(t).out == k <==> KeyOk(k))
  {
    hide Encode, Decode, FlushSafe, NoOuterSpace, Reorder;
    var t := Encode(KeyString, k);
    EncodePrintable(KeyString, k);
    RoundTrip(KeyString, k);
    DecodesReordered(KeyString, k);
    if k[0] == HASH {
      CommentStays(k);
    } else if FlushSafe([], k) {
      EncodedKeyStart(k);
    }
  }

  /** Where a line starts and ends, whether it is a comment or not. */
  predicate OuterFits(t: bytes) {
    t != [] && NoOuterSpace(t) && NEWLINE !in t
  }

  predicate SameStart(s: bytes, t: bytes) {
    s != [] && t != [] && s[0] == t[0]
  }

  lemma OuterConcat(t: bytes, u: bytes)
    requires OuterFits(t) && NEWLINE !in u && (u != [] ==> !IsSpace(u[|u| - 1]))
    ensures OuterFits(t + u) && SameStart(t + u, t)
  {
    if u == [] {
      assert t + u == t;
    }
  }

  function ValueText(e: KEntry): bytes {
    if e.bDeleted then [] else [EQUALS] + Encode(ValueString, e.mValue.Chars())
  }

  function LineTag(k: KEntryKey, locale: bytes): QByteArray {
    if k.bLocal then Data(locale) else Null
  }

  lemma LineParts(k: KEntryKey, e: KEntry, locale: bytes)
    requires LocaleOk(locale) && !e.bRaw
    ensures EntryText(locale, k, e) == Encode(KeyString, k.mKey) + TagText(LineTag(k, locale)) + FlagText(e)
            + ValueText(e)
  {
    hide Encode, FlagText;
  }

  lemma TailFits(tag: QByteArray, e: KEntry)
    requires tag.Data? ==> TagOk(tag.data)
    ensures forall u :: u in [TagText(tag), FlagText(e), ValueText(e)] ==>
            NEWLINE !in u && (u != [] ==> !IsSpace(u[|u| - 1]))
  {
    hide Encode;
    var v := Encode(ValueString, e.mValue.Chars());
    EncodePrintable(ValueString, e.mValue.Chars());
    NoNewline(ValueString, e.mValue.Chars());
    if !e.bDeleted {
      assert v != [] ==> ([EQUALS] + v)[|v|] == v[|v| - 1];
    }
  }

  lemma LineFits(k: KEntryKey, e: KEntry, locale: bytes)
    requires LocaleOk(locale) && !e.bRaw && k.mKey != []
    ensures OuterFits(EntryText(locale, k, e)) && SameStart(EntryText(locale, k, e), Encode(KeyString, k.mKey))
  {
    hide Encode, FlagText, ValueText, OuterFits, LocaleOk;
    var t, tag := Encode(KeyString, k.mKey), LineTag(k, locale);
    KeyBackExactly(k.mKey);
    assert OuterFits(t) by { FitsMeans(t); }
    LineParts(k, e, locale);
    assert tag.Data? ==> TagOk(tag.data) by { LocaleIsTag(locale); }
    TailFits(tag, e);
    OuterConcat(t, TagText(tag));
    OuterConcat(t + TagText(tag), FlagText(e));
    OuterConcat(t + TagText(tag) + FlagText(e), ValueText(e));
  }

  lemma FitsMeans(t: bytes)
    ensures OuterFits(t) <==> t != [] && NoOuterSpace(t) && NEWLINE !in t
  {
  }

  lemma LocaleIsTag(locale: bytes)
    requires LocaleOk(locale)
    ensures TagOk(locale) && OwnLocale(locale, locale)
  {
  }

  /** The one call of the line, if it is not a comment. */
  predicate CallFor(w: Write, g: bytes, k: KEntryKey) {
    w.g == g && w.k == Decode(Encode(KeyString, k.mKey)).out && w.o.localized == k.bLocal && !w.o.forDefault
  }

  lemma DeletionCalls(st: ParseState, k: KEntryKey, e: KEntry, locale: bytes, opts: ParseOptions)
    requires LocaleOk(locale) && SameReader(opts, locale) && !e.bRaw && k.mKey != [] && e.bDeleted && !k.bLocal
    ensures exists w: Write :: EntryWrites(st, EntryText(locale, k, e), opts) == [w] && CallFor(w, st.group, k)
  {
    hide Encode, FlagText, ParseKey, Decode, IndexOf, NoOuterSpace, EntryText, LocaleOk;
    var t, line := Encode(KeyString, k.mKey), EntryText(locale, k, e);
    var o := NO_OPTIONS.(immutable := st.groupImmutable);
    KeyBackExactly(k.mKey);
    LineParts(k, e, locale);
    assert line == t + FlagText(e);
    DeletionMark(t, e, o, opts);
    FlagNoEquals(e);
    var w := Write(st.group, Decode(t).out, Null, o.(deleted := true, forDefault := o.forDefault || opts.defaults));
    assert EntryWrites(st, line, opts) == [w];
  }

  lemma FlagNoEquals(e: KEntry)
    ensures EQUALS !in FlagText(e) && (FlagText(e) != [] ==> FlagText(e)[|FlagText(e)| - 1] == CLOSE)
            && NEWLINE !in FlagText(e)
  {
  }

  lemma ValueCalls(st: ParseState, k: KEntryKey, e: KEntry, locale: bytes, opts: ParseOptions)
    requires LocaleOk(locale) && SameReader(opts, locale) && !e.bRaw && k.mKey != [] && !e.bDeleted
    ensures exists w: Write :: EntryWrites(st, EntryText(locale, k, e), opts) == [w] && CallFor(w, st.group, k)
  {
    hide Encode, FlagText, ParseKey, Decode, IndexOf, NoOuterSpace, EntryText, LocaleOk, TagText, TagOk, OwnLocale,
         Trimmed;
    var t, tag, line := Encode(KeyString, k.mKey), LineTag(k, locale), EntryText(locale, k, e);
    var o := NO_OPTIONS.(immutable := st.groupImmutable);
    var key, v := t + TagText(tag) + FlagText(e), Encode(ValueString, e.mValue.Chars());
    KeyBackExactly(k.mKey);
    LocaleIsTag(locale);
    PlainIsOwn(locale);
    LineParts(k, e, locale);
    assert line == key + [EQUALS] + v;
    KeyPartFits(k, e, locale);
    IndexOfConcat(key, EQUALS, v);
    assert line[..|key|] == key;
    ParseOwnFlags(t + TagText(tag), e, o, opts);
    var o' := o.(immutable := o.immutable || e.bImmutable, expansion := e.bExpand);
    ParseTag(t, tag, o', opts);
    var w := Write(st.group, Decode(t).out, Data(Decode(Trimmed(line[|key| + 1..])).out),
                   o'.(rawKey := false, global := opts.global, forDefault := opts.defaults, localized := tag.Data?,
                       localizedCountry := tag.Data? && UNDERSCORE in tag.data));
    assert EntryWrites(st, line, opts) == [w];
  }

  lemma KeyPartFits(k: KEntryKey, e: KEntry, locale: bytes)
    requires LocaleOk(locale) && k.mKey != []
    ensures var key := Encode(KeyString, k.mKey) + TagText(LineTag(k, locale)) + FlagText(e);
            EQUALS !in key && Trimmed(key) == key && key != []
  {
    hide Encode, FlagText, OuterFits, TagOk, Trimmed, NoOuterSpace;
    var t, tag := Encode(KeyString, k.mKey), LineTag(k, locale);
    KeyBackExactly(k.mKey);
    FitsMeans(t);
    FlagNoEquals(e);
    TailFits(tag, e);
    OuterConcat(t, TagText(tag));
    OuterConcat(t + TagText(tag), FlagText(e));
    FitsMeans(t + TagText(tag) + FlagText(e));
    assert EQUALS !in TagText(tag) by { TagNoEquals(tag); }
  }

  lemma TagNoEquals(tag: QByteArray)
    requires tag.Data? ==> TagOk(tag.data)
    ensures EQUALS !in TagText(tag)
  {
  }

  /** The printed line of an entry for the printer's locale, or without one, stores its key
      again exactly if the key is flush-safe and does not start with '#'. */
  lemma LineStoresKeyExactly(st: ParseState, k: KEntryKey, e: KEntry, locale: bytes, opts: ParseOptions)
    requires LocaleOk(locale) && SameReader(opts, locale) && !st.groupSkip && MarkerMutable(st.m, st.group)
    requires k.mGroup == st.group && !k.bDefault && k.mKey != [] && !e.bRaw && (e.bDeleted ==> !k.bLocal)
    requires k !in st.m
    ensures k in ParseLine(st, EntryText(locale, k, e) + [NEWLINE], opts).m <==> KeyOk(k.mKey)
  {
    hide Encode, EntryText, Decode, ParseEntry, EntryWrites, LocaleOk, Trimmed, NoOuterSpace, KeyOk, OuterFits, Apply;
    var t, line := Encode(KeyString, k.mKey), EntryText(locale, k, e);
    KeyBackExactly(k.mKey);
    LineFits(k, e, locale);
    FitsMeans(line);
    TrimNewline(line);
    if t[0] != HASH {
      if e.bDeleted {
        DeletionCalls(st, k, e, locale, opts);
      } else {
        ValueCalls(st, k, e, locale, opts);
      }
      var w: Write :| EntryWrites(st, line, opts) == [w] && CallFor(w, st.group, k);
      EntryIsRun(st, line, opts);
      RunOfOne(st.m, w);
      if w.k == k.mKey {
        NewIsStored(st.m, w, k);
      } else {
        OthersUntouched(st.m, w, k);
      }
    }
  }

  lemma NewIsStored(m: Entries, w: Write, k: KEntryKey)
    requires k !in m && MarkerMutable(m, w.g) && k.mKey != [] && !w.o.forDefault
    requires k == KEntryKey(w.g, w.k, w.o.localized, false)
    ensures k in Apply(m, w)
  {
    assert Apply(m, w) == SetNew(m, w.g, w.k, w.value, w.o).m;
  }

  // ---------------------------------------------------------------------------
  // Groups
  // ---------------------------------------------------------------------------

  lemma {:induction false} LowerCaseFlushSafe(c: bytes)
    requires forall b :: b in c ==> b == DOLLAR || IsLowerCase(b)
    ensures FlushSafe([], c)
    decreases |c|
  {
    if c == [] {
    } else {
      assert c[0] in c;
      LowerCaseFlushSafe(c[1..]);
    }
  }

  /** An encoded component that comes back is one that can be written. */
  lemma ComponentBack(c: bytes)
    ensures CLOSE !in Encode(GroupString, c) && |Decode(Encode(GroupString, c)).out| <= |c|
    ensures Decode(Encode(GroupString, c)).out == c ==> ComponentOk(c)
  {
    hide Encode, Decode, FlushSafe, Reorder;
    EncodePrintable(GroupString, c);
    GroupLength(c);
    GroupRoundTrip(c);
    DecodesReordered(GroupString, c);
  }

  lemma LastComponentBack(c: bytes)
    ensures CLOSE !in LastComponent(c) && |Decode(LastComponent(c)).out| <= |c|
    ensures Decode(LastComponent(c)).out == c ==> ComponentOk(c)
  {
    hide Encode, Decode, FlushSafe;
    if LooksLikeOption(c) {
      OptionIsOk(c);
      LastComponentRoundTrip(c);
    } else {
      ComponentBack(c);
    }
  }

  lemma OptionIsOk(c: bytes)
    requires LooksLikeOption(c)
    ensures ComponentOk(c)
  {
    hide FlushSafe, Encode;
    LowerCaseFlushSafe(c);
    assert c[0] == DOLLAR && (|c| > 1 ==> IsLowerCase(c[|c| - 1]));
  }

  /** The parts behind a name that has been read. */
  ghost predicate BackTo(r: HeaderResult, name: bytes, g: bytes) {
    && r.Header? && name <= r.name && |r.name| <= |Joined(name, g)|
    && (name == [] && g != [] && FirstComponent(g) == [] ==> |r.name| < |g|)
    && (r.name == Joined(name, g) && (name != [] || FirstComponent(g) != []) ==> ComponentsOk(g))
  }

  lemma LastPartBack(g: bytes, immutable: bool, name: bytes)
    requires SEPARATOR !in g
    ensures BackTo(HeaderParts(LastComponent(g) + [CLOSE] + Option(immutable), name, false, false), name, g)
  {
    hide Decode, LastComponent, ComponentOk, HeaderParts, IndexOf;
    var t := LastComponent(g);
    LastComponentBack(g);
    HeaderPart(t, Option(immutable), name);
    var name' := Joined(name, Decode(t).out);
    assert [DOLLAR, LOWER_I] + [CLOSE] + [] == Option(true)[1..];
    OptionPart(name');
    OptionAlone(name);
    assert ComponentsOk(g) <==> ComponentOk(g);
    if !immutable && t == [DOLLAR, LOWER_I] {
      assert t + [CLOSE] + Option(immutable) == [DOLLAR, LOWER_I, CLOSE];
    }
    JoinedLonger(name, Decode(t).out, g);
  }

  lemma JoinedLonger(name: bytes, d: bytes, c: bytes)
    requires |d| <= |c|
    ensures name <= Joined(name, d) && |Joined(name, d)| <= |Joined(name, c)|
    ensures Joined(name, d) == Joined(name, c) ==> d == c
    ensures name == Joined(name, c) ==> name == [] && c == []
  {
    if Joined(name, d) == Joined(name, c) {
      assert d == Joined(name, d)[|Joined(name, d)| - |d|..] && c == Joined(name, c)[|Joined(name, c)| - |c|..];
    }
  }

  /** What "[$i]" at the end of the line does. */
  lemma OptionPart(name: bytes)
    ensures HeaderParts([DOLLAR, LOWER_I] + [CLOSE] + [], name, false, false) == Header(name, name == [], name != [])
  {
    hide IndexOf;
    IndexOfConcat([DOLLAR, LOWER_I], CLOSE, []);
    var tail := [DOLLAR, LOWER_I] + [CLOSE] + [];
    assert tail[..2] == [DOLLAR, LOWER_I];
  }

  lemma OptionAlone(name: bytes)
    ensures HeaderParts([DOLLAR, LOWER_I, CLOSE], name, false, false) == Header(name, name == [], name != [])
  {
    hide HeaderParts;
    OptionPart(name);
    assert [DOLLAR, LOWER_I] + [CLOSE] + [] == [DOLLAR, LOWER_I, CLOSE];
  }

  lemma {:induction false} PartsBack(g: bytes, immutable: bool, name: bytes)
    ensures HeaderText(g, immutable) != [] && BackTo(HeaderParts(HeaderText(g, immutable)[1..], name, false, false),
            name, g)
    decreases |g|
  {
    hide Encode, Decode, LastComponent, ComponentOk, HeaderParts, IndexOf, HeaderText, Option, Joined, BackTo;
    var e := IndexOf(g, SEPARATOR);
    HeaderTextStep(g, immutable);
    if e < 0 {
      LastPartBack(g, immutable, name);
    } else {
      var c, rest := g[..e], g[e + 1..];
      var d := Decode(Encode(GroupString, c)).out;
      ComponentBack(c);
      HeaderTextStep(rest, immutable);
      HeaderPart(Encode(GroupString, c), HeaderText(rest, immutable), name);
      PartsBack(rest, immutable, Joined(name, d));
      StepBack(HeaderParts(HeaderText(rest, immutable)[1..], Joined(name, d), false, false), name, d, c, rest);
      ComponentsStep(g, e);
    }
  }

  lemma ComponentsStep(g: bytes, e: nat)
    requires e == IndexOf(g, SEPARATOR)
    ensures g == g[..e] + [SEPARATOR] + g[e + 1..]
    ensures forall r, name :: BackToRest(r, name, g[..e], g[e + 1..]) ==> BackTo(r, name, g)
  {
    hide IndexOf, ComponentOk, Joined;
    SplitAt(g, e);
  }

  /** BackTo for a name with a first component. */
  ghost predicate BackToRest(r: HeaderResult, name: bytes, c: bytes, rest: bytes) {
    var g := c + [SEPARATOR] + rest;
    && r.Header? && name <= r.name && |r.name| <= |Joined(name, g)|
    && (name == [] && c == [] ==> |r.name| < |g|)
    && (r.name == Joined(name, g) && (name != [] || c != []) ==> ComponentOk(c) && ComponentsOk(rest))
  }

  lemma StepBack(r: HeaderResult, name: bytes, d: bytes, c: bytes, rest: bytes)
    requires |d| <= |c| && (d == c ==> ComponentOk(c)) && BackTo(r, Joined(name, d), rest)
    ensures BackToRest(r, name, c, rest)
  {
    hide ComponentOk, ComponentsOk, FirstComponent;
    var name', g := Joined(name, d), c + [SEPARATOR] + rest;
    JoinedLonger(name, d, c);
    assert name <= name' <= r.name;
    if r.name == Joined(name, g) && (name != [] || c != []) {
      assert name' != [];
      assert |name'| == |Joined(name, c)|;
      assert Joined(name, g)[..|name'|] == Joined(name, c);
      assert name' == r.name[..|name'|];
      JoinedThrice(name, c, rest);
    }
  }

  /** A header that is read in another group leads to the group that it was printed for exactly
      if every component of the name comes back and the first one is not empty. The printer
      writes no header for the empty name. */
  lemma HeaderLeadsBackExactly(st: ParseState, g: bytes, immutable: bool, opts: ParseOptions)
    requires g != [] && st.group != g && !st.fileImmutable
    ensures ParseLine(st, HeaderText(g, immutable) + [NEWLINE], opts).group == g <==> GroupOk(g)
  {
    hide HeaderText, HeaderParts, ComponentsOk, FirstComponent, IsImmutable, Trimmed;
    HeaderPrintable(g, immutable);
    TrimNewline(HeaderText(g, immutable));
    PartsBack(g, immutable, []);
    if GroupOk(g) {
      HeaderRoundTrip(g, immutable, []);
    }
  }
}
