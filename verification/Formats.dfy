/** The formats, character by character: what stands in a file for which text, spelled out
    (src/core/kconfigini.cpp:306-378, 616-797, src/core/kconfiggroup.cpp:133-190, 1047-1063). */
module Formats {
  import opened Bytes
  import opened IniCodec
  import opened CodecLaws
  import CodecTheorems
  import opened EntryMap
  import opened IniParser
  import opened IniWriter
  import opened Lists
  import opened Paths

  // ---------------------------------------------------------------------------
  // Names
  // ---------------------------------------------------------------------------

  lemma Characters()
    ensures [TAB, NEWLINE, RETURN, SPACE] == Ascii("\t\n\r ")
    ensures [HASH, DOLLAR, COMMA, SLASH, SEMICOLON, EQUALS, OPEN, BACKSLASH, CLOSE, UNDERSCORE] == Ascii("#$,/;=[\\]_")
    ensures [LOWER_A, LOWER_D, LOWER_E, LOWER_I, LOWER_N, LOWER_R, LOWER_S, LOWER_T, LOWER_X, LOWER_Z]
            == Ascii("adeinrstxz")
    ensures [ZERO, OPEN_BRACE, CLOSE_BRACE, UPPER_C] == Ascii("0{}C") && SEPARATOR == 0x1d
  {
  }

  lemma Words()
    ensures ESCAPED_DOLLAR == Ascii("\\x24") && C_LOCALE == Ascii("C") && EN_US == Ascii("en_US")
    ensures EMPTY_ITEM == Ascii("\\0") && HOME_REFERENCE == Ascii("$HOME") && DEFAULT_GROUP == Ascii("<default>")
  {
  }

  // ---------------------------------------------------------------------------
  // Encoding
  // ---------------------------------------------------------------------------

  /** What stands for one character below 128: a letter behind a backslash, its hexadecimal
      number, or itself. */
  ghost predicate StandsFor(t: StringType, c: byte, r: bytes) {
    && (c == '\n' as byte ==> r == ['\\' as byte, 'n' as byte])
    && (c == '\t' as byte ==> r == ['\\' as byte, 't' as byte])
    && (c == '\r' as byte ==> r == ['\\' as byte, 'r' as byte])
    && (c == '\\' as byte ==> r == ['\\' as byte, '\\' as byte])
    && (Numbered(t, c) ==> r == ['\\' as byte, 'x' as byte, HexOf(c / 16), HexOf(c % 16)])
    && (!Numbered(t, c) && c >= 32 && c != '\\' as byte ==> r == [c])
  }

  /** Control characters have a number everywhere, '=' in keys, brackets in keys and groups, and
      what is not ASCII in values. */
  predicate Numbered(t: StringType, c: byte) {
    || (c < 32 && c != '\n' as byte && c != '\t' as byte && c != '\r' as byte)
    || (c == '=' as byte && t == KeyString)
    || ((c == '[' as byte || c == ']' as byte) && t != ValueString)
    || (c >= 127 && t == ValueString)
  }

  function HexOf(n: byte): byte
    requires n < 16
  {
    "0123456789abcdef"[n] as byte
  }

  lemma HexDigits(n: byte)
    requires n < 16
    ensures HexDigit(n) == HexOf(n)
  {
  }

  lemma EscapedIs(c: byte)
    ensures EscapeByte(c) == ['\\' as byte, 'x' as byte, HexOf(c / 16), HexOf(c % 16)]
  {
    hide HexDigit, HexOf;
    HexDigits(c / 16);
    HexDigits(c % 16);
  }

  lemma OneCharacter(t: StringType, c: byte)
    requires c < 128
    ensures StandsFor(t, c, Emit(t, [], c)) && Next([], c) == []
  {
    hide EscapeByte, HexOf;
    EscapedIs(c);
    assert EscapeBytes([]) == [];
    assert [] + SingleByte(t, c) == SingleByte(t, c);
  }

  /** In any ASCII text that is so for each character by itself. */
  lemma {:induction false} TextCharacters(t: StringType, a: bytes, b: bytes)
    requires forall i :: 0 <= i < |a| ==> a[i] < 128
    ensures EncodeRest(t, [], a + b) == EncodeRest(t, [], a) + EncodeRest(t, [], b)
    ensures |a| == 1 ==> StandsFor(t, a[0], EncodeRest(t, [], a))
    decreases |a|
  {
    hide Emit, Next, StandsFor;
    if a == [] {
      assert a + b == b;
      assert EncodeRest(t, [], a) == [];
    } else {
      OneCharacter(t, a[0]);
      assert (a + b)[1..] == a[1..] + b;
      TextCharacters(t, a[1..], b);
      ConcatAssociative(Emit(t, [], a[0]), EncodeRest(t, [], a[1..]), EncodeRest(t, [], b));
      if |a| == 1 {
        assert a[1..] == [] && EncodeRest(t, [], a[1..]) == [];
        assert Emit(t, [], a[0]) + [] == Emit(t, [], a[0]);
      }
    }
  }

  /** Only spaces at the ends of keys and values are written in another way. */
  lemma OuterSpaces(t: StringType, s: bytes)
    requires s != []
    ensures t == GroupString || (s[0] != ' ' as byte && s[|s| - 1] != ' ' as byte) ==>
            Encode(t, s) == EncodeRest(t, [], s)
    ensures t != GroupString && s[0] == ' ' as byte && |s| > 1 && s[|s| - 1] != ' ' as byte ==>
              Encode(t, s) == ['\\' as byte, 's' as byte] + EncodeRest(t, [], s[1..])
    ensures t != GroupString && s == [' ' as byte] ==> Encode(t, s) == ['\\' as byte, 's' as byte]
    ensures t != GroupString && s[0] != ' ' as byte && s[|s| - 1] == ' ' as byte ==>
              var r := EncodeRest(t, [], s); r != [] && Encode(t, s) == r[..|r| - 1] + ['\\' as byte, 's' as byte]
  {
    hide EncodeRest, CodecTheorems.AllPrintable;
    CodecTheorems.EncodeRestPrintable(t, [], s);
    CodecTheorems.EncodeRestPrintable(t, [], s[1..]);
    assert |s| > 1 ==> s[1..][|s| - 2] == s[|s| - 1];
  }

  // ---------------------------------------------------------------------------
  // Decoding
  // ---------------------------------------------------------------------------

  /** The letters behind a backslash; two of the sequences belong to lists and stay. */
  lemma EscapeSequences(rest: bytes)
    ensures Unescape(Ascii("\\n") + rest) == Unescape(rest).Prepend(Ascii("\n"))
    ensures Unescape(Ascii("\\t") + rest) == Unescape(rest).Prepend(Ascii("\t"))
    ensures Unescape(Ascii("\\r") + rest) == Unescape(rest).Prepend(Ascii("\r"))
    ensures Unescape(Ascii("\\s") + rest) == Unescape(rest).Prepend(Ascii(" "))
    ensures Unescape(Ascii("\\\\") + rest) == Unescape(rest).Prepend(Ascii("\\"))
    ensures Unescape(Ascii("\\;") + rest) == Unescape(rest).Prepend(Ascii("\\;"))
    ensures Unescape(Ascii("\\,") + rest) == Unescape(rest).Prepend(Ascii("\\,"))
  {
    hide Unescape;
    SequenceOf('n', rest);
    SequenceOf('t', rest);
    SequenceOf('r', rest);
    SequenceOf('s', rest);
    SequenceOf('\\', rest);
    SequenceOf(';', rest);
    SequenceOf(',', rest);
    Sequences();
  }

  lemma Sequences()
    ensures Ascii("\\n") == [92, 110] && Ascii("\\t") == [92, 116] && Ascii("\\r") == [92, 114]
            && Ascii("\\s") == [92, 115]
    ensures Ascii("\\\\") == [92, 92] && Ascii("\\;") == [92, 59] && Ascii("\\,") == [92, 44]
    ensures Ascii("\n") == [10] && Ascii("\t") == [9] && Ascii("\r") == [13] && Ascii(" ") == [32]
            && Ascii("\\") == [92]
  {
  }

  lemma SequenceOf(c: char, rest: bytes)
    requires c in "ntrs\\;,"
    ensures Unescape([92, c as byte] + rest) ==
            Unescape(rest).Prepend(match c
                                   case 'n' => [10]
                                   case 't' => [9]
                                   case 'r' => [13]
                                   case 's' => [32]
                                   case _ => if c == '\\' then [92] else [92, c as byte])
  {
    var s := [92, c as byte] + rest;
    assert s[2..] == rest && s[0] == 92 && s[1] == c as byte;
  }

  /** Text without a backslash stays, and a backslash at the end is dropped. */
  lemma OtherText(c: byte, rest: bytes)
    ensures c != 92 ==> Unescape([c] + rest) == Unescape(rest).Prepend([c])
    ensures Unescape([92]) == Decoded(true, []) && Unescape([]) == Decoded(true, [])
  {
    assert ([c] + rest)[1..] == rest;
  }

  /** A short `\x` gives `x`. */
  lemma ShortNumber(rest: bytes)
    requires |rest| < 2
    ensures Unescape([92, 'x' as byte] + rest) == Decoded(true, ['x' as byte])
  {
    var s := [92, 'x' as byte] + rest;
    assert s[0] == 92 && s[1] == 'x' as byte;
  }

  /** Any other letter ends the text, which is reported. */
  lemma InvalidSequence(c: byte, rest: bytes)
    requires c != 'n' as byte && c != 't' as byte && c != 'r' as byte && c != 's' as byte && c != '\\' as byte
    requires c != ';' as byte && c != ',' as byte && c != 'x' as byte
    ensures Unescape([92, c] + rest) == Decoded(false, [])
  {
    var s := [92, c] + rest;
    assert s[0] == 92 && s[1] == c;
  }

  // ---------------------------------------------------------------------------
  // Lines
  // ---------------------------------------------------------------------------

  /** The marks behind a key. */
  lemma Marks(e: KEntry)
    ensures FlagText(e) ==
            if e.bDeleted && e.bImmutable then Ascii("[$di]")
            else if e.bDeleted then Ascii("[$d]")
            else if e.bImmutable && e.bExpand then Ascii("[$ie]")
            else if e.bImmutable then Ascii("[$i]")
            else if e.bExpand then Ascii("[$e]")
            else []
  {
  }

  /** A line: the key, a locale tag, the marks, and a value unless the entry is deleted. */
  lemma Lines(locale: bytes, k: KEntryKey, e: KEntry)
    ensures EntryText(locale, k, e) ==
            (if e.bRaw then k.mKey else Encode(KeyString, k.mKey))
            + (if k.bLocal && !e.bRaw && locale != Ascii("C") then Ascii("[") + locale + Ascii("]") else [])
            + FlagText(e)
            + (if e.bDeleted then [] else Ascii("=") + Encode(ValueString, e.mValue.Chars()))
  {
    hide Encode, FlagText;
    LineCharacters();
    var key := if e.bRaw then k.mKey else Encode(KeyString, k.mKey);
    assert key + [] == key;
  }

  lemma LineCharacters()
    ensures Ascii("C") == C_LOCALE && Ascii("[") == [OPEN] && Ascii("]") == [CLOSE] && Ascii("=") == [EQUALS]
  {
  }

  /** A header: the components in brackets, and a mark. The last one hides its dollar if it looks
      like a mark. */
  lemma Headers(g: bytes, c: bytes, immutable: bool)
    requires SEPARATOR !in c
    ensures HeaderText(c, immutable) ==
            Ascii("[")
            + (if LooksLikeMark(c) then Ascii("\\x24") + Encode(GroupString, c[1..]) else Encode(GroupString, c))
            + Ascii("]") + (if immutable then Ascii("[$i]") else [])
    ensures HeaderText(c + [0x1d] + g, immutable) ==
            Ascii("[") + Encode(GroupString, c) + Ascii("]") + HeaderText(g, immutable)
  {
    hide Encode, IndexOf;
    LineCharacters();
    HeaderCharacters();
    SameMarks(c);
    IndexOfConcat(c, SEPARATOR, g);
    var s := c + [SEPARATOR] + g;
    assert s[..|c|] == c && s[|c| + 1..] == g;
  }

  lemma HeaderCharacters()
    ensures Ascii("[$i]") == Option(true) && Ascii("\\x24") == ESCAPED_DOLLAR
  {
  }

  /** A dollar and up to nine lower-case letters. */
  predicate LooksLikeMark(c: bytes) {
    1 <= |c| <= 10 && c[0] == '$' as byte && forall i :: 1 <= i < |c| ==> 'a' as byte <= c[i] <= 'z' as byte
  }

  lemma SameMarks(c: bytes)
    ensures LooksLikeMark(c) <==> LooksLikeOption(c)
  {
  }

  // ---------------------------------------------------------------------------
  // Lists
  // ---------------------------------------------------------------------------

  /** An item: backslashes doubled, separators behind a backslash, everything else as it is. */
  lemma {:induction false} Items(sep: byte, a: bytes, c: byte, b: bytes)
    requires sep != 92
    ensures Escaped(sep, a + [c] + b) ==
            Escaped(sep, a) + (if c == 92 then [92, 92] else if c == sep then [92, sep] else [c]) + Escaped(sep, b)
    ensures Escaped(sep, []) == []
  {
    hide Replaced;
    var d := if c == 92 then [92, 92] else [c];
    ReplacedNothing();
    ReplacedParts(a, c, b, 92, [92, 92]);
    var x, y := Replaced(a, 92, [92, 92]), Replaced(b, 92, [92, 92]);
    if c == 92 {
      assert x + [92, 92] + y == x + [92] + ([92] + y);
      ReplacedParts(x, 92, [92] + y, sep, [92, sep]);
      ReplacedParts([], 92, y, sep, [92, sep]);
      assert [] + [92] + y == [92] + y;
    } else {
      ReplacedParts(x, c, y, sep, [92, sep]);
    }
  }

  lemma ReplacedNothing()
    ensures forall c, after :: Replaced([], c, after) == []
  {
  }

  lemma {:induction false} ReplacedParts(a: bytes, c: byte, b: bytes, r: byte, after: bytes)
    ensures Replaced(a + [c] + b, r, after) == Replaced(a, r, after) + (if c == r then after else [c])
            + Replaced(b, r, after)
    decreases |a|
  {
    if a == [] {
      assert a + [c] + b == [c] + b && ([c] + b)[1..] == b;
    } else {
      assert (a + [c] + b)[1..] == a[1..] + [c] + b;
      ReplacedParts(a[1..], c, b, r, after);
    }
  }

  /** Items are separated by commas in one kind of list and followed by semicolons in the other. */
  lemma ListTexts(a: bytes, list: seq<bytes>)
    ensures Separated([a]) == Escaped(',' as byte, a)
    ensures list != [] ==> Separated([a] + list) == Escaped(',' as byte, a) + Ascii(",") + Separated(list)
    ensures XdgText([]) == [] && XdgText([a] + list) == Escaped(';' as byte, a) + Ascii(";") + XdgText(list)
  {
    hide Escaped, Ascii;
    ListCharacters();
    assert ([a] + list)[1..] == list && ([a] + list)[0] == a;
  }

  /** The list of one empty item and the empty list have marks of their own. */
  lemma ListMarks(list: seq<bytes>)
    ensures Serialize(list) ==
            if list == [] then Null else if list == [[]] then Data(Ascii("\\0")) else Data(Separated(list))
  {
    hide Escaped, Ascii;
    ListCharacters();
    assert Escaped(COMMA, []) == [] by { EscapedEmpty(); }
    if list != [] && list[0] != [] {
      EscapedNotEmpty(list[0]);
    }
    if |list| == 1 {
      assert list == [list[0]];
    }
  }

  lemma EscapedEmpty()
    ensures Escaped(COMMA, []) == []
  {
  }

  lemma ListCharacters()
    ensures Ascii(",") == [COMMA] && Ascii(";") == [SEMICOLON] && Ascii("\\0") == EMPTY_ITEM
  {
  }

  lemma EscapedNotEmpty(s: bytes)
    requires s != []
    ensures Escaped(COMMA, s) != []
  {
    hide Escaped;
    Items(COMMA, [], s[0], s[1..]);
    assert [] + [s[0]] + s[1..] == s;
  }
}
