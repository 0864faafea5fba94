/** Lines as people write them: with spaces and comments, with upper-case hexadecimal digits, with
    the tag C; and how the locale C prints (src/core/kconfigini.cpp:85-98, 148-263, 346-356). */
module LineShapes {
  import opened Bytes
  import opened IniCodec
  import opened CodecLaws
  import opened CodecTheorems
  import opened EntryMap
  import opened Immutability
  import opened IniParser
  import opened IniWriter
  import opened IniLines
  import opened IniEntries
  import opened TaggedLines

  // ---------------------------------------------------------------------------
  // Spaces
  // ---------------------------------------------------------------------------

  /** Tab, newline, vertical tab, form feed, return and space. */
  predicate White(c: byte) {
    c == 9 || c == 10 || c == 11 || c == 12 || c == 13 || c == 32
  }

  predicate Blank(s: bytes) {
    forall i :: 0 <= i < |s| ==> White(s[i])
  }

  lemma {:induction false} TrimmedFront(a: bytes, x: bytes)
    requires Blank(a)
    ensures Trimmed(a + x) == Trimmed(x)
    decreases |a|
  {
    if a == [] {
      assert a + x == x;
    } else {
      assert White(a[0]);
      assert (a + x)[1..] == a[1..] + x;
      TrimmedFront(a[1..], x);
    }
  }

  lemma {:induction false} TrimmedBack(x: bytes, b: bytes)
    requires Blank(b) && (x == [] || !IsSpace(x[0]))
    ensures Trimmed(x + b) == Trimmed(x)
    decreases |b|
  {
    if b == [] {
      assert x + b == x;
    } else if x == [] {
      assert x + b == b + [];
      TrimmedFront(b, []);
    } else {
      var n := |b| - 1;
      assert White(b[n]);
      assert (x + b)[0] == x[0] && (x + b)[..|x + b| - 1] == x + b[..n];
      TrimmedBack(x, b[..n]);
    }
  }

  /** White space around a text is trimmed. */
  lemma Padded(a: bytes, x: bytes, b: bytes)
    requires Blank(a) && Blank(b) && NoOuterSpace(x)
    ensures Trimmed(a + x + b) == x
  {
    hide Trimmed;
    ConcatAssociative(a, x, b);
    TrimmedFront(a, x + b);
    TrimmedBack(x, b);
  }

  /** And nothing else is. */
  lemma OnlyWhiteIsTrimmed(s: bytes)
    requires s != [] ==> !White(s[0]) && !White(s[|s| - 1])
    ensures Trimmed(s) == s && NoOuterSpace(s)
  {
  }

  /** What the entry branch makes of a key and a value with spaces around the '='. */
  lemma PaddedEntry(st: ParseState, t: bytes, s: bytes, u: bytes, v: bytes, opts: ParseOptions)
    requires t != [] && NoOuterSpace(t) && EQUALS !in t && NoOuterSpace(v) && Blank(s) && Blank(u)
    ensures ParseEntry(st, t + s + [EQUALS] + (u + v), opts) == ParseEntry(st, t + [EQUALS] + v, opts)
  {
    hide Trimmed, IndexOf, ParseKey, StoreEntry, NoOuterSpace, SetEntry, Decode, Blank;
    BlankHasNoEquals(s);
    assert Blank([]) by { NothingIsBlank(); }
    var line := t + s + [EQUALS] + (u + v);
    IndexOfConcat(t + s, EQUALS, u + v);
    IndexOfConcat(t, EQUALS, v);
    assert line[..|t + s|] == t + s && line[|t + s| + 1..] == u + v;
    assert (t + [EQUALS] + v)[..|t|] == t && (t + [EQUALS] + v)[|t| + 1..] == v;
    Padded([], t, s);
    Padded(u, v, []);
    assert [] + t + s == t + s && u + v + [] == u + v;
  }

  lemma NothingIsBlank()
    ensures Blank([])
  {
  }

  lemma BlankHasNoEquals(s: bytes)
    requires Blank(s)
    ensures EQUALS !in s
  {
  }

  lemma NoOuterSpaceInside(t: bytes, s: bytes, u: bytes, v: bytes)
    requires t != [] && NoOuterSpace(t) && NoOuterSpace(v)
    ensures NoOuterSpace(t + s + [EQUALS] + (if v == [] then [] else u + v))
  {
  }

  /** White space at the start and the end of a line and around the '=' changes nothing, whatever
      the key and the value are. */
  lemma PaddedLine(st: ParseState, a: bytes, t: bytes, s: bytes, u: bytes, v: bytes, b: bytes, opts: ParseOptions)
    requires Blank(a) && Blank(s) && Blank(u) && Blank(b)
    requires t != [] && NoOuterSpace(t) && NoOuterSpace(v) && t[0] != HASH && t[0] != OPEN && EQUALS !in t
    ensures ParseLine(st, a + (t + s + [EQUALS] + (u + v)) + b, opts) == ParseLine(st, t + [EQUALS] + v, opts)
  {
    hide Trimmed, ParseEntry, NoOuterSpace;
    NoOuterSpaceInside(t, s, u, v);
    NoOuterSpaceInside(t, [], [], v);
    assert t + [] + [EQUALS] + (if v == [] then [] else [] + v) == t + [EQUALS] + v;
    var line := t + [EQUALS] + v;
    Padded([], line, []);
    assert [] + line + [] == line && line[0] == t[0];
    PaddedEntry(st, t, s, u, v, opts);
    if v == [] {
      var x := t + s + [EQUALS] + [];
      PaddedEntry(st, t, s, [], v, opts);
      assert t + s + [EQUALS] + ([] + v) == x;
      BlankConcat(u, b);
      Padded(a, x, u + b);
      assert a + (t + s + [EQUALS] + (u + v)) + b == a + x + (u + b);
      assert x[0] == t[0];
    } else {
      var x := t + s + [EQUALS] + (u + v);
      Padded(a, x, b);
      assert x[0] == t[0];
    }
  }

  lemma BlankConcat(a: bytes, b: bytes)
    requires Blank(a) && Blank(b)
    ensures Blank(a + b)
  {
  }

  /** Empty lines and comments. */
  lemma IgnoredLine(st: ParseState, a: bytes, t: bytes, opts: ParseOptions)
    requires Blank(a)
    ensures ParseLine(st, a, opts) == st && ParseLine(st, a + [HASH] + t, opts) == st
  {
    hide ParseHeader, ParseEntry;
    TrimmedFront(a, []);
    assert a + [] == a;
    ConcatAssociative(a, [HASH], t);
    TrimmedFront(a, [HASH] + t);
    CommentTrimmed([HASH] + t);
  }

  lemma {:induction false} CommentTrimmed(s: bytes)
    requires s != [] && s[0] == HASH
    ensures Trimmed(s) != [] && Trimmed(s)[0] == HASH
    decreases |s|
  {
    if |s| > 1 && IsSpace(s[|s| - 1]) {
      CommentTrimmed(s[..|s| - 1]);
    }
  }

  // ---------------------------------------------------------------------------
  // Errors
  // ---------------------------------------------------------------------------

  /** A line without '=' that deletes nothing is an error and does nothing else. */
  lemma NoEqualsIsError(st: ParseState, t: bytes, opts: ParseOptions)
    requires t != [] && NoOuterSpace(t) && t[0] != HASH && EQUALS !in t && OPEN !in t
             && (opts.defaults || !st.groupSkip)
    ensures ParseLine(st, t, opts) == st.(errors := st.errors + 1)
  {
    hide Decode;
    ParsePlainKey(t, NO_OPTIONS.(immutable := st.groupImmutable), Null, opts);
    assert IndexOf(t, EQUALS) < 0 && t[0] != OPEN;
  }

  /** So is a key with a bracket that is not closed. */
  lemma OpenBracketIsError(st: ParseState, t: bytes, u: bytes, v: bytes, opts: ParseOptions)
    requires t != [] && NoOuterSpace(t + [OPEN] + u) && t[0] != HASH && t[0] != OPEN && EQUALS !in t
    requires OPEN !in u && CLOSE !in u && EQUALS !in u && NoOuterSpace(v) && (opts.defaults || !st.groupSkip)
    ensures ParseLine(st, t + [OPEN] + u + [EQUALS] + v, opts) == st.(errors := st.errors + 1)
  {
    hide Trimmed, IndexOf, LastIndexOf, Decode, SetEntry, OwnLocale, NoOuterSpace;
    var key := t + [OPEN] + u;
    var line := key + [EQUALS] + v;
    IndexOfConcat(key, EQUALS, v);
    assert line[..|key|] == key && line[0] == t[0];
    NoOuterSpaceInside(key, [], [], v);
    assert key + [] + [EQUALS] + (if v == [] then [] else [] + v) == line;
    LastIndexOfConcat(t, OPEN, u);
    assert key[|t|..] == [OPEN] + u;
    assert CLOSE !in [OPEN] + u;
    assert IndexOf([OPEN] + u, CLOSE) < 0;
  }

  /** A value with an invalid escape sequence is an error too, but it is stored as far as it
      goes; a valid one is not. */
  lemma InvalidValueIsError(st: ParseState, t: bytes, v: bytes, opts: ParseOptions)
    requires t != [] && NoOuterSpace(t) && t[0] != HASH && OPEN !in t && EQUALS !in t && NoOuterSpace(v)
    requires opts.defaults || !st.groupSkip
    ensures var p := ParseLine(st, t + [EQUALS] + v, opts);
            && p.errors == (if Decode(v).ok then st.errors else st.errors + 1)
            && p.m == Apply(st.m, Write(st.group, Decode(t).out, Data(Decode(v).out),
                                        NO_OPTIONS.(immutable := st.groupImmutable, global := opts.global,
                                                    forDefault := opts.defaults)))
  {
    hide Trimmed, IndexOf, ParseKey, Decode, Apply, NoOuterSpace, StoreEntry, ParseEntry;
    var line := t + [EQUALS] + v;
    assert line[0] == t[0] && t[0] != OPEN;
    NoOuterSpaceInside(t, [], [], v);
    assert t + [] + [EQUALS] + (if v == [] then [] else [] + v) == line;
    PlainEntryLine(st, t, v, opts);
    PlainStores(st, t, v, opts);
  }

  lemma PlainEntryLine(st: ParseState, t: bytes, v: bytes, opts: ParseOptions)
    requires t != [] && NoOuterSpace(t) && OPEN !in t && EQUALS !in t && NoOuterSpace(v)
    ensures ParseEntry(st, t + [EQUALS] + v, opts) ==
            StoreEntry(st, t, NO_OPTIONS.(immutable := st.groupImmutable), Null, v, opts)
  {
    hide Trimmed, IndexOf, ParseKey, NoOuterSpace, StoreEntry, SetEntry;
    var line := t + [EQUALS] + v;
    IndexOfConcat(t, EQUALS, v);
    assert line[..|t|] == t && line[|t| + 1..] == v;
    ParsePlainKey(t, NO_OPTIONS.(immutable := st.groupImmutable), Null, opts);
  }

  lemma PlainStores(st: ParseState, t: bytes, v: bytes, opts: ParseOptions)
    ensures var p := StoreEntry(st, t, NO_OPTIONS.(immutable := st.groupImmutable), Null, v, opts);
            && p.errors == (if Decode(v).ok then st.errors else st.errors + 1)
            && p.m == Apply(st.m, Write(st.group, Decode(t).out, Data(Decode(v).out),
                                        NO_OPTIONS.(immutable := st.groupImmutable, global := opts.global,
                                                    forDefault := opts.defaults)))
  {
    hide Decode, SetEntry, OwnLocale;
    PlainIsOwn(opts.locale);
  }

  /** Behind the hundredth error nothing is read. */
  lemma RestIsNotRead(st: ParseState, text: bytes, opts: ParseOptions)
    requires st.errors >= 100
    ensures ParseText(st, text, opts) == st
  {
  }

  // ---------------------------------------------------------------------------
  // Tags
  // ---------------------------------------------------------------------------

  /** A tag concerns a reader if it is its locale or its language, or if it starts with C and the
      locale is en_US. */
  ghost predicate Concerns(tag: bytes, locale: bytes) {
    || tag == locale
    || (Ascii("_")[0] !in tag && tag + Ascii("_") <= locale)
    || (Ascii("C") <= tag && locale == Ascii("en_US"))
  }

  lemma SpelledLocales()
    ensures Ascii("en_US") == EN_US && Ascii("C") == [UPPER_C] && Ascii("_") == [UNDERSCORE]
  {
  }

  lemma LanguageSpelled(tag: bytes, locale: bytes)
    ensures tag == Language(locale) <==>
            (UNDERSCORE !in tag && tag + [UNDERSCORE] <= locale) || (tag == locale && UNDERSCORE !in locale)
  {
    var i := IndexOf(locale, UNDERSCORE);
    if i >= 0 {
      SplitAt(locale, i);
    }
    if UNDERSCORE !in tag && tag + [UNDERSCORE] <= locale {
      var rest := locale[|tag| + 1..];
      assert locale == tag + [UNDERSCORE] + rest;
      IndexOfConcat(tag, UNDERSCORE, rest);
    }
  }

  /** A line with a tag is read for use by the readers that it concerns, under the key's own name,
      and by no other one. */
  lemma ReadForUse(st: ParseState, l: TaggedLine, opts: ParseOptions)
    requires l.Ok() && l.tag.Data? && !opts.global && !opts.merging && (opts.defaults || !st.groupSkip)
    ensures var p := ParseLine(st, l.Text() + [NEWLINE], opts);
            if Concerns(l.tag.data, opts.locale) then
              p == st.(m := Apply(st.m, Write(st.group, l.k, Data(l.v),
                                              NO_OPTIONS.(immutable := st.groupImmutable, forDefault := opts.defaults,
                                                          localized := true,
                                                          localizedCountry := Ascii("_")[0] in l.tag.data))))
            else p == st
  {
    hide ParseLine, TaggedLine.Text, FlushSafe, KeyOk, Apply, Language, Ascii;
    ReadTagged(st, l, opts);
    SpelledLocales();
    LanguageSpelled(l.tag.data, opts.locale);
    TagNotEmpty(l.tag.data);
  }

  lemma TagNotEmpty(tag: bytes)
    requires TagOk(tag)
    ensures tag != [] && ([UPPER_C] <= tag <==> tag[0] == UPPER_C)
  {
  }

  /** While merging, the other ones are kept under their key with the tag. */
  lemma ReadForMerging(st: ParseState, l: TaggedLine, opts: ParseOptions)
    requires l.Ok() && l.tag.Data? && !opts.global && opts.merging && !opts.defaults && !st.groupSkip
    ensures var raw := !Concerns(l.tag.data, opts.locale);
            var key := if raw then l.k + Ascii("[") + l.tag.data + Ascii("]") else l.k;
            var o := NO_OPTIONS.(immutable := st.groupImmutable, rawKey := raw, localized := true,
                                 localizedCountry := Ascii("_")[0] in l.tag.data);
            ParseLine(st, l.Text() + [NEWLINE], opts) == st.(m := Apply(st.m, Write(st.group, key, Data(l.v), o)))
  {
    hide ParseLine, TaggedLine.Text, FlushSafe, KeyOk, Apply, Language, Ascii;
    ReadTagged(st, l, opts);
    SpelledLocales();
    SpelledBrackets();
    LanguageSpelled(l.tag.data, opts.locale);
    TagNotEmpty(l.tag.data);
  }

  lemma SpelledBrackets()
    ensures Ascii("[") == [OPEN] && Ascii("]") == [CLOSE]
  {
  }

  // ---------------------------------------------------------------------------
  // The locale C
  // ---------------------------------------------------------------------------

  /** An object with the locale C prints no tags, so its localized entries are plain ones to
      everybody who reads the file. */
  lemma PrintedForC(st: ParseState, k: KEntryKey, e: KEntry, other: bytes, opts: ParseOptions)
    requires k.bLocal && !e.bRaw && EntryOk(k.(bLocal := false), e, other)
    requires LocaleOk(other) && SameReader(opts, other) && !st.groupSkip
    ensures ParseLine(st, EntryText(Ascii("C"), k, e) + [NEWLINE], opts)
            == Entered(st, k.(bLocal := false), e, other, opts)
  {
    hide ParseLine, EntryOk, Encode, FlagText, LocaleOk, Entered, Ascii;
    SpelledLocales();
    var plain := k.(bLocal := false);
    ReadEntry(st, plain, e, other, opts);
    assert EntryText(Ascii("C"), k, e) == EntryText(other, plain, e);
  }

  // ---------------------------------------------------------------------------
  // Hexadecimal digits
  // ---------------------------------------------------------------------------

  /** The digit's value, in either case. */
  ghost predicate IsDigit(c: byte, n: nat) {
    n < 16 && (c == "0123456789abcdef"[n] as byte || c == "0123456789ABCDEF"[n] as byte)
  }

  lemma DigitValue(c: byte, n: nat)
    requires IsDigit(c, n)
    ensures HexValue(c) == n
  {
  }

  /** `\xHH` stands for the byte with that number. */
  lemma HexSequence(a: byte, b: byte, i: nat, j: nat, rest: bytes)
    requires IsDigit(a, i) && IsDigit(b, j)
    ensures Unescape([BACKSLASH, LOWER_X, a, b] + rest) == Unescape(rest).Prepend([(16 * i + j) as byte])
  {
    hide IsDigit, HexValue;
    DigitValue(a, i);
    DigitValue(b, j);
    var s := [BACKSLASH, LOWER_X, a, b] + rest;
    assert s[4..] == rest && s[2] == a && s[3] == b;
  }

  lemma ValueIsDigit(c: byte)
    ensures HexValue(c) >= 0 ==> IsDigit(c, HexValue(c))
  {
  }

  /** Where one of the two is no digit, it stands for `x`, whatever the other one is. */
  lemma InvalidHexSequence(a: byte, b: byte, rest: bytes)
    requires (forall n: nat :: !IsDigit(a, n)) || (forall n: nat :: !IsDigit(b, n))
    ensures Unescape([BACKSLASH, LOWER_X, a, b] + rest) == Unescape(rest).Prepend(['x' as byte])
  {
    hide IsDigit, HexValue;
    ValueIsDigit(a);
    ValueIsDigit(b);
    var s := [BACKSLASH, LOWER_X, a, b] + rest;
    assert s[4..] == rest && s[2] == a && s[3] == b;
  }
}
