/** Reading back the lines that the writer produces, one line at a time. */
module IniLines {
  import opened Bytes
  import opened IniCodec
  import opened CodecLaws
  import opened CodecTheorems
  import opened EntryMap
  import opened IniParser
  import opened IniWriter

  // ---------------------------------------------------------------------------
  // Lines of a text
  // ---------------------------------------------------------------------------

  /** Whole lines, each with its newline. */
  predicate WholeLines(text: bytes) {
    text == [] || text[|text| - 1] == NEWLINE
  }

  lemma FirstLineConcat(a: bytes, b: bytes)
    requires a != [] && WholeLines(a)
    ensures FirstLine(a + b) == FirstLine(a)
    ensures WholeLines(a[FirstLine(a)..])
    ensures (a + b)[..FirstLine(a)] == a[..FirstLine(a)]
    ensures (a + b)[FirstLine(a)..] == a[FirstLine(a)..] + b
  {
    assert a[|a| - 1] in a;
    var i := IndexOf(a, NEWLINE);
    LineBreak(a, b, i);
  }

  lemma LineBreak(a: bytes, b: bytes, i: nat)
    requires i < |a| && a[i] == NEWLINE && NEWLINE !in a[..i]
    ensures IndexOf(a + b, NEWLINE) == i
  {
    hide IndexOf;
    IndexOfConcat(a[..i], NEWLINE, a[i + 1..] + b);
    assert a + b == a[..i] + [NEWLINE] + (a[i + 1..] + b);
  }

  /** Text behind whole lines is parsed from the state that the lines lead to. */
  lemma {:induction false} ParseTextConcat(st: ParseState, a: bytes, b: bytes, opts: ParseOptions)
    requires WholeLines(a)
    ensures ParseText(st, a + b, opts) == ParseText(ParseText(st, a, opts), b, opts)
    decreases |a|
  {
    hide ParseLine, FirstLine;
    if a == [] {
      assert a + b == b;
    } else if st.errors < MAX_ERRORS {
      FirstLineConcat(a, b);
      ParseTextConcat(ParseLine(st, a[..FirstLine(a)], opts), a[FirstLine(a)..], b, opts);
    }
  }

  lemma ParseOneLine(st: ParseState, line: bytes, opts: ParseOptions)
    requires NEWLINE !in line && st.errors < MAX_ERRORS
    ensures ParseText(st, line + [NEWLINE], opts) == ParseLine(st, line + [NEWLINE], opts)
  {
    hide ParseLine;
    var text := line + [NEWLINE];
    IndexOfConcat(line, NEWLINE, []);
    assert text + [] == text;
    assert text[..|text|] == text && text[|text|..] == [];
  }

  // ---------------------------------------------------------------------------
  // Group headers
  // ---------------------------------------------------------------------------

  /** A component that survives the trip through the file. */
  predicate ComponentOk(c: bytes) {
    FlushSafe([], c) && (c == [] || (c[0] != SPACE && c[|c| - 1] != SPACE) || BACKSLASH !in Encode(GroupString, c))
  }

  predicate ComponentsOk(g: bytes)
    decreases |g|
  {
    var e := IndexOf(g, SEPARATOR);
    if e < 0 then ComponentOk(g) else ComponentOk(g[..e]) && ComponentsOk(g[e + 1..])
  }

  function FirstComponent(g: bytes): bytes {
    var e := IndexOf(g, SEPARATOR);
    if e < 0 then g else g[..e]
  }

  /** A group name that can be written as a header. */
  predicate GroupOk(g: bytes) {
    ComponentsOk(g) && FirstComponent(g) != []
  }

  lemma ComponentRoundTrip(c: bytes)
    requires ComponentOk(c)
    ensures Decode(Encode(GroupString, c)) == Decoded(true, c)
    ensures CLOSE !in Encode(GroupString, c)
  {
    hide Decode, Encode, FlushSafe;
    GroupRoundTrip(c);
    EncodePrintable(GroupString, c);
  }

  lemma FlushSafeTail(c: bytes)
    requires ComponentOk(c) && c != [] && c[0] == DOLLAR
    ensures FlushSafe([], c[1..])
  {
    assert Next([], DOLLAR) == [];
  }

  /** "\\x24" is read back as '$'. */
  lemma EscapedDollar(r: bytes)
    ensures Unescape(ESCAPED_DOLLAR + r) == Unescape(r).Prepend([DOLLAR])
  {
    hide Unescape;
    OneUnit(ESCAPED_DOLLAR);
    UnescapeConcat(ESCAPED_DOLLAR, r);
  }

  lemma LastComponentRoundTrip(c: bytes)
    requires ComponentOk(c)
    ensures Decode(LastComponent(c)).out == c
    ensures CLOSE !in LastComponent(c)
    ensures LastComponent(c) != [DOLLAR, LOWER_I]
  {
    hide Encode, FlushSafe, Unescape;
    if LooksLikeOption(c) {
      var r := c[1..];
      FlushSafeTail(c);
      EncodePrintable(GroupString, r);
      DecodeEncode(GroupString, r);
      ReorderIdentity([], r);
      EscapedDollar(Encode(GroupString, r));
      LastComponentTrimmed(c);
      assert [] + r == r && [DOLLAR] + r == c;
    } else {
      ComponentRoundTrip(c);
      assert LooksLikeOption([DOLLAR, LOWER_I]) && BACKSLASH !in [DOLLAR, LOWER_I];
    }
  }

  lemma LastComponentTrimmed(c: bytes)
    requires ComponentOk(c) && LooksLikeOption(c)
    ensures NoOuterSpace(LastComponent(c))
    ensures BACKSLASH in LastComponent(c)
  {
    hide Encode, FlushSafe;
    var r := c[1..];
    EncodePrintable(GroupString, r);
    LowerCaseNotSpace(c);
  }

  lemma LowerCaseNotSpace(c: bytes)
    requires LooksLikeOption(c)
    ensures c[1..] != [] ==> c[1] != SPACE && c[1..][|c| - 2] != SPACE
  {
  }

  /** One turn of the loop over the parts of a header. */
  lemma HeaderPart(t: bytes, rest: bytes, name: bytes)
    requires CLOSE !in t
    ensures rest != [] && rest[0] == OPEN ==>
              HeaderParts(t + [CLOSE] + rest, name, false, false)
                  == HeaderParts(rest[1..], Joined(name, Decode(t).out), false, false)
    ensures rest == [] && t != [DOLLAR, LOWER_I] ==>
              HeaderParts(t + [CLOSE] + rest, name, false, false) == Header(Joined(name, Decode(t).out), false, false)
    ensures rest == [] && t == [DOLLAR, LOWER_I] && name != [] ==>
              HeaderParts(t + [CLOSE] + rest, name, false, false) == Header(name, false, true)
  {
    hide Decode, IndexOf;
    var tail := t + [CLOSE] + rest;
    IndexOfConcat(t, CLOSE, rest);
    assert tail[..|t|] == t && tail[|t| + 1..] == rest;
    assert rest != [] ==> tail[|t| + 2..] == rest[1..];
  }

  lemma HeaderTextStep(g: bytes, immutable: bool)
    ensures HeaderText(g, immutable) != [] && HeaderText(g, immutable)[0] == OPEN
    ensures var e := IndexOf(g, SEPARATOR);
            if e < 0 then HeaderText(g, immutable)[1..] == LastComponent(g) + [CLOSE] + Option(immutable)
            else
              && HeaderText(g, immutable)[1..]
                 == Encode(GroupString, g[..e]) + [CLOSE] + HeaderText(g[e + 1..], immutable)
              && g == g[..e] + [SEPARATOR] + g[e + 1..]
  {
    hide Encode, LastComponent, IndexOf, Option;
    var e := IndexOf(g, SEPARATOR);
    if e < 0 {
      DropHead(OPEN, LastComponent(g), [CLOSE], Option(immutable));
    } else {
      DropHead(OPEN, Encode(GroupString, g[..e]), [CLOSE], HeaderText(g[e + 1..], immutable));
      SplitAt(g, e);
    }
  }

  /** The parts of a written header give back the group and its immutability. */
  lemma {:induction false} HeaderRoundTrip(g: bytes, immutable: bool, name: bytes)
    requires ComponentsOk(g) && (name == [] ==> FirstComponent(g) != [])
    ensures HeaderText(g, immutable) != [] && HeaderText(g, immutable)[0] == OPEN
    ensures HeaderParts(HeaderText(g, immutable)[1..], name, false, false) == Header(Joined(name, g), false, immutable)
    decreases |g|
  {
    hide Encode, Decode, LastComponent, ComponentOk, HeaderParts, IndexOf, HeaderText, Option, Joined;
    var e := IndexOf(g, SEPARATOR);
    HeaderTextStep(g, immutable);
    if e < 0 {
      LastHeaderPart(g, immutable, name);
    } else {
      var c, rest := g[..e], g[e + 1..];
      ComponentRoundTrip(c);
      JoinedThrice(name, c, rest);
      HeaderRoundTrip(rest, immutable, Joined(name, c));
      HeaderPart(Encode(GroupString, c), HeaderText(rest, immutable), name);
    }
  }

  lemma JoinedThrice(name: bytes, c: bytes, rest: bytes)
    requires name == [] ==> c != []
    ensures Joined(Joined(name, c), rest) == Joined(name, c + [SEPARATOR] + rest)
    ensures Joined(name, c) != []
  {
  }

  lemma LastHeaderPart(g: bytes, immutable: bool, name: bytes)
    requires ComponentOk(g) && (name == [] ==> g != [])
    ensures HeaderParts(LastComponent(g) + [CLOSE] + Option(immutable), name, false, false)
            == Header(Joined(name, g), false, immutable)
  {
    hide Decode, LastComponent, ComponentOk, HeaderParts;
    LastComponentRoundTrip(g);
    HeaderPart(LastComponent(g), Option(immutable), name);
    if immutable {
      HeaderPart([DOLLAR, LOWER_I], [], Joined(name, g));
      assert [DOLLAR, LOWER_I] + [CLOSE] + [] == Option(true)[1..];
    }
  }

  /** A header is one printable line without outer spaces. */
  lemma {:induction false} HeaderPrintable(g: bytes, immutable: bool)
    ensures NEWLINE !in HeaderText(g, immutable)
    ensures HeaderText(g, immutable) != []
    ensures HeaderText(g, immutable)[0] == OPEN && HeaderText(g, immutable)[|HeaderText(g, immutable)| - 1] == CLOSE
    decreases |g|
  {
    hide Encode, IndexOf, LastComponent, AllPrintable;
    var e := IndexOf(g, SEPARATOR);
    if e < 0 {
      LastComponentPrintable(g);
    } else {
      NoNewline(GroupString, g[..e]);
      HeaderPrintable(g[e + 1..], immutable);
    }
  }

  lemma NoNewline(t: StringType, s: bytes)
    ensures NEWLINE !in Encode(t, s)
  {
    hide Encode;
    EncodePrintable(t, s);
  }

  lemma LastComponentPrintable(c: bytes)
    ensures NEWLINE !in LastComponent(c)
  {
    hide Encode;
    NoNewline(GroupString, c);
    if LooksLikeOption(c) {
      NoNewline(GroupString, c[1..]);
    }
  }

  /** Reading a header line in a file that is not immutable itself. */
  lemma ReadHeader(st: ParseState, g: bytes, immutable: bool, opts: ParseOptions)
    requires GroupOk(g) && !st.fileImmutable && !IsImmutable(st.m, g, [], NO_FLAGS)
    ensures ParseLine(st, HeaderText(g, immutable) + [NEWLINE], opts) ==
            st.(group := g, groupImmutable := immutable, groupSkip := false,
                immutableGroups := if immutable then st.immutableGroups + [g] else st.immutableGroups)
  {
    hide HeaderText, HeaderParts, ComponentsOk;
    HeaderPrintable(g, immutable);
    TrimNewline(HeaderText(g, immutable));
    HeaderRoundTrip(g, immutable, []);
  }
}
