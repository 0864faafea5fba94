/** Lists of strings as values: comma lists and the semicolon lists of desktop entries
    (src/core/kconfiggroup.cpp:133-190, 738-771, 1047-1063). ListLoops.dfy holds the loops. */
module Lists {
  import opened Bytes
  import opened IniCodec
  import opened CodecLaws
  import opened CodecTheorems
  import opened Utf8Laws

  const EMPTY_ITEM: bytes := [BACKSLASH, ZERO] // "\0", the list of one empty string

  // ---------------------------------------------------------------------------
  // Writing
  // ---------------------------------------------------------------------------

  /** replace. */
  function Replaced(s: bytes, c: byte, after: bytes): bytes {
    if s == [] then [] else (if s[0] == c then after else [s[0]]) + Replaced(s[1..], c, after)
  }

  /** An item with its backslashes doubled and its separators escaped. */
  function Escaped(sep: byte, s: bytes): bytes {
    Replaced(Replaced(s, BACKSLASH, [BACKSLASH, BACKSLASH]), sep, [BACKSLASH, sep])
  }

  function Separated(list: seq<bytes>): bytes
    requires list != []
  {
    if |list| == 1 then Escaped(COMMA, list[0]) else Escaped(COMMA, list[0]) + [COMMA] + Separated(list[1..])
  }

  /** serializeList. */
  function Serialize(list: seq<bytes>): QByteArray {
    if list == [] then Null
    else if Separated(list) == [] then Data(EMPTY_ITEM)
    else Data(Separated(list))
  }

  /** What writeXdgListEntry writes: every item is followed by a semicolon. */
  function XdgText(list: seq<bytes>): bytes {
    if list == [] then [] else Escaped(SEMICOLON, list[0]) + [SEMICOLON] + XdgText(list[1..])
  }

  // ---------------------------------------------------------------------------
  // Reading
  // ---------------------------------------------------------------------------

  /** One more character in front of the first piece. */
  function Led(b: byte, pieces: seq<bytes>): seq<bytes>
    requires pieces != []
  {
    [[b] + pieces[0]] + pieces[1..]
  }

  /** The text between separators; a backslash quotes what follows it. */
  function Pieces(sep: byte, s: bytes): (r: seq<bytes>)
    ensures r != []
    decreases |s|
  {
    if s == [] then [[]]
    else if s[0] == BACKSLASH then if |s| == 1 then [[]] else Led(s[1], Pieces(sep, s[2..]))
    else if s[0] == sep then [[]] + Pieces(sep, s[1..])
    else Led(s[0], Pieces(sep, s[1..]))
  }

  /** deserializeList. */
  function Deserialize(data: bytes): seq<bytes> {
    if data == [] then [] else if data == EMPTY_ITEM then [[]] else Pieces(COMMA, data)
  }

  /** readXdgListEntry: what follows the last semicolon counts unless it is empty. */
  function XdgItems(data: bytes): seq<bytes> {
    var pieces := Pieces(SEMICOLON, data);
    var n := |pieces| - 1;
    if pieces[n] == [] then pieces[..n] else pieces
  }

  // ---------------------------------------------------------------------------
  // Items
  // ---------------------------------------------------------------------------

  lemma ReplacedCons(b: byte, s: bytes, c: byte, after: bytes)
    ensures Replaced([b] + s, c, after) == (if b == c then after else [b]) + Replaced(s, c, after)
  {
    assert ([b] + s)[1..] == s;
  }

  /** Escaping is one pass from left to right. */
  lemma EscapedCons(sep: byte, b: byte, s: bytes)
    requires sep != BACKSLASH
    ensures Escaped(sep, [b] + s) == (if b == BACKSLASH || b == sep then [BACKSLASH, b] else [b]) + Escaped(sep, s)
  {
    hide Replaced;
    var t := Replaced(s, BACKSLASH, [BACKSLASH, BACKSLASH]);
    ReplacedCons(b, s, BACKSLASH, [BACKSLASH, BACKSLASH]);
    if b == BACKSLASH {
      assert [BACKSLASH, BACKSLASH] + t == [BACKSLASH] + ([BACKSLASH] + t);
      ReplacedCons(BACKSLASH, [BACKSLASH] + t, sep, [BACKSLASH, sep]);
      ReplacedCons(BACKSLASH, t, sep, [BACKSLASH, sep]);
    } else {
      ReplacedCons(b, t, sep, [BACKSLASH, sep]);
    }
  }

  lemma EscapedEmpty(sep: byte)
    ensures Escaped(sep, []) == []
  {
  }

  lemma Cons(s: bytes)
    requires s != []
    ensures s == [s[0]] + s[1..]
  {
  }

  lemma PiecesStep(sep: byte, b: byte, s: bytes)
    requires sep != BACKSLASH
    ensures Pieces(sep, [BACKSLASH, b] + s) == Led(b, Pieces(sep, s))
    ensures b != BACKSLASH && b != sep ==> Pieces(sep, [b] + s) == Led(b, Pieces(sep, s))
    ensures Pieces(sep, [sep] + s) == [[]] + Pieces(sep, s)
  {
    assert ([BACKSLASH, b] + s)[2..] == s;
    assert ([b] + s)[1..] == s && ([sep] + s)[1..] == s;
  }

  /** Pieces with a text in front of the first of them. */
  function Prefixed(x: bytes, pieces: seq<bytes>): seq<bytes>
    requires pieces != []
  {
    [x + pieces[0]] + pieces[1..]
  }

  /** An escaped item is read as it was, whatever follows it. */
  lemma {:induction false} ReadEscaped(sep: byte, x: bytes, rest: bytes)
    requires sep != BACKSLASH
    ensures Pieces(sep, Escaped(sep, x) + rest) == Prefixed(x, Pieces(sep, rest))
  {
    hide Escaped, Pieces;
    if x == [] {
      EscapedEmpty(sep);
      assert [] + rest == rest;
      PrefixedNothing(Pieces(sep, rest));
    } else {
      var b, y := x[0], x[1..];
      Cons(x);
      EscapedCons(sep, b, y);
      ReadEscaped(sep, y, rest);
      var e := Escaped(sep, y) + rest;
      assert Escaped(sep, x) + rest == (if b == BACKSLASH || b == sep then [BACKSLASH, b] else [b]) + e;
      PiecesStep(sep, b, e);
      LedPrefixed(b, y, Pieces(sep, rest));
    }
  }

  lemma PrefixedNothing(pieces: seq<bytes>)
    requires pieces != []
    ensures Prefixed([], pieces) == pieces
  {
    assert [] + pieces[0] == pieces[0];
  }

  lemma PrefixedFirst(x: bytes, pieces: seq<bytes>)
    ensures Prefixed(x, [[]] + pieces) == [x] + pieces
  {
    assert x + [] == x;
    assert ([[]] + pieces)[1..] == pieces;
  }

  lemma LedPrefixed(b: byte, y: bytes, pieces: seq<bytes>)
    requires pieces != []
    ensures Led(b, Prefixed(y, pieces)) == Prefixed([b] + y, pieces)
  {
    assert [b] + (y + pieces[0]) == [b] + y + pieces[0];
  }

  lemma ReadItem(sep: byte, x: bytes, rest: bytes)
    requires sep != BACKSLASH
    ensures Pieces(sep, Escaped(sep, x) + [sep] + rest) == [x] + Pieces(sep, rest)
    ensures Pieces(sep, Escaped(sep, x)) == [x]
  {
    hide Escaped, Pieces;
    ReadEscaped(sep, x, [sep] + rest);
    PiecesStep(sep, sep, rest);
    assert Escaped(sep, x) + ([sep] + rest) == Escaped(sep, x) + [sep] + rest;
    PrefixedFirst(x, Pieces(sep, rest));
    ReadEscaped(sep, x, []);
    NoPieces(sep);
    var none: seq<bytes> := [];
    PrefixedFirst(x, none);
    assert [[]] + none == [[]] && [x] + none == [x];
    assert Escaped(sep, x) + [] == Escaped(sep, x);
  }

  lemma NoPieces(sep: byte)
    ensures Pieces(sep, []) == [[]]
  {
  }

  // ---------------------------------------------------------------------------
  // Round trips
  // ---------------------------------------------------------------------------

  lemma {:induction false} ReadSeparated(list: seq<bytes>)
    requires list != []
    ensures Pieces(COMMA, Separated(list)) == list
    decreases |list|
  {
    hide Escaped, Pieces;
    if |list| == 1 {
      ReadItem(COMMA, list[0], []);
    } else {
      ReadItem(COMMA, list[0], Separated(list[1..]));
      ReadSeparated(list[1..]);
    }
  }

  /** No separated list looks like the mark for one empty item. */
  lemma NotEmptyItem(list: seq<bytes>)
    requires list != []
    ensures Separated(list) != EMPTY_ITEM
    ensures Separated(list) == [] <==> list == [[]]
  {
    hide Escaped, Pieces;
    ReadSeparated(list);
    NoPieces(COMMA);
    EscapedEmpty(COMMA);
    if Separated(list) == EMPTY_ITEM {
      EmptyItemPieces();
      EscapedZero();
    }
  }

  lemma EmptyItemPieces()
    ensures Pieces(COMMA, EMPTY_ITEM) == [[ZERO]]
  {
    hide Pieces;
    assert [BACKSLASH, ZERO] + [] == EMPTY_ITEM && [ZERO] + [] == [ZERO];
    PiecesStep(COMMA, ZERO, []);
    NoPieces(COMMA);
  }

  lemma EscapedZero()
    ensures Escaped(COMMA, [ZERO]) == [ZERO]
  {
    hide Escaped;
    assert [ZERO] + [] == [ZERO];
    EscapedCons(COMMA, ZERO, []);
    EscapedEmpty(COMMA);
  }

  /** Reading a comma list inverts writing it, for every list. */
  lemma DeserializeSerialize(list: seq<bytes>)
    ensures Deserialize(Serialize(list).Chars()) == list
  {
    hide Separated, Pieces;
    if list != [] {
      NotEmptyItem(list);
      ReadSeparated(list);
    }
  }

  lemma {:induction false} XdgPieces(list: seq<bytes>)
    ensures Pieces(SEMICOLON, XdgText(list)) == list + [[]]
    decreases |list|
  {
    hide Escaped, Pieces;
    if list == [] {
      NoPieces(SEMICOLON);
    } else {
      ReadItem(SEMICOLON, list[0], XdgText(list[1..]));
      XdgPieces(list[1..]);
      assert list == [list[0]] + list[1..];
    }
  }

  /** The same for semicolon lists. */
  lemma XdgRoundTrip(list: seq<bytes>)
    ensures XdgItems(XdgText(list)) == list
  {
    hide Pieces, XdgText;
    XdgPieces(list);
    assert (list + [[]])[..|list|] == list;
  }

  /** A last item without its semicolon is read all the same, unless it is empty: the optional
      terminator of the Desktop Entry Specification, section 4. */
  lemma XdgOptionalTerminator(list: seq<bytes>, x: bytes)
    ensures XdgItems(XdgText(list) + Escaped(SEMICOLON, x)) == if x == [] then list else list + [x]
  {
    hide Pieces, XdgText, Escaped;
    XdgOpenEnd(list, x);
    assert (list + [x])[..|list|] == list;
  }

  lemma {:induction false} XdgOpenEnd(list: seq<bytes>, x: bytes)
    ensures Pieces(SEMICOLON, XdgText(list) + Escaped(SEMICOLON, x)) == list + [x]
    decreases |list|
  {
    hide Escaped, Pieces;
    if list == [] {
      ReadItem(SEMICOLON, x, []);
      assert [] + Escaped(SEMICOLON, x) == Escaped(SEMICOLON, x);
    } else {
      var e, t := Escaped(SEMICOLON, list[0]), XdgText(list[1..]) + Escaped(SEMICOLON, x);
      assert XdgText(list) + Escaped(SEMICOLON, x) == e + [SEMICOLON] + t;
      ReadItem(SEMICOLON, list[0], t);
      XdgOpenEnd(list[1..], x);
      assert list == [list[0]] + list[1..];
    }
  }

  // ---------------------------------------------------------------------------
  // Lists in a file
  // ---------------------------------------------------------------------------

  lemma {:induction false} ReplacedUtf8(s: bytes, c: byte, after: bytes)
    requires Utf8Text(s) && c < 0x80 && Utf8Text(after)
    ensures Utf8Text(Replaced(s, c, after))
    decreases |s|
  {
    hide Multibyte;
    if s == [] {
    } else {
      if s[0] < 0x80 {
        OneAscii(s[0]);
        ReplacedUtf8(s[1..], c, after);
        Utf8Concat(if s[0] == c then after else [s[0]], Replaced(s[1..], c, after));
      } else {
        var n := CharLength(s[0]);
        ReplacedCharacter(s[..n], s[n..], c, after);
        assert s[..n] + s[n..] == s;
        ReplacedUtf8(s[n..], c, after);
        OneCharacter(s[..n]);
        Utf8Concat(s[..n], Replaced(s[n..], c, after));
      }
    }
  }

  lemma OneAscii(b: byte)
    requires b < 0x80
    ensures Utf8Text([b])
  {
  }

  /** Nothing is replaced inside a multi-byte character. */
  lemma ReplacedCharacter(a: bytes, s: bytes, c: byte, after: bytes)
    requires Multibyte(a) && c < 0x80
    ensures Replaced(a + s, c, after) == a + Replaced(s, c, after)
  {
    hide Replaced;
    forall i | 0 <= i < |a|
      ensures a[i] != c
    {
    }
    NothingReplaced(a, s, c, after);
  }

  lemma {:induction false} NothingReplaced(a: bytes, s: bytes, c: byte, after: bytes)
    requires c !in a
    ensures Replaced(a + s, c, after) == a + Replaced(s, c, after)
    decreases |a|
  {
    hide Replaced;
    if a == [] {
      assert a + s == s;
    } else {
      var t := a[1..] + s;
      assert a + s == [a[0]] + t;
      ReplacedCons(a[0], t, c, after);
      NothingReplaced(a[1..], s, c, after);
      assert [a[0]] + (a[1..] + Replaced(s, c, after)) == a + Replaced(s, c, after);
    }
  }

  predicate AllUtf8(list: seq<bytes>) {
    forall i :: 0 <= i < |list| ==> Utf8Text(list[i])
  }

  lemma EscapedUtf8(sep: byte, s: bytes)
    requires Utf8Text(s) && sep < 0x80
    ensures Utf8Text(Escaped(sep, s))
  {
    hide Replaced, Utf8Text;
    Utf8Ascii([BACKSLASH, BACKSLASH]);
    Utf8Ascii([BACKSLASH, sep]);
    ReplacedUtf8(s, BACKSLASH, [BACKSLASH, BACKSLASH]);
    ReplacedUtf8(Replaced(s, BACKSLASH, [BACKSLASH, BACKSLASH]), sep, [BACKSLASH, sep]);
  }

  lemma {:induction false} SeparatedUtf8(list: seq<bytes>)
    requires list != [] && AllUtf8(list)
    ensures Utf8Text(Separated(list))
    decreases |list|
  {
    hide Escaped, Utf8Text;
    EscapedUtf8(COMMA, list[0]);
    if |list| <= 1 {
    } else {
      SeparatedUtf8(list[1..]);
      OneAscii(COMMA);
      Utf8Concat(Escaped(COMMA, list[0]), [COMMA]);
      Utf8Concat(Escaped(COMMA, list[0]) + [COMMA], Separated(list[1..]));
    }
  }

  lemma {:induction false} XdgUtf8(list: seq<bytes>)
    requires AllUtf8(list)
    ensures Utf8Text(XdgText(list))
    decreases |list|
  {
    hide Escaped;
    if list == [] {
    } else {
      EscapedUtf8(SEMICOLON, list[0]);
      XdgUtf8(list[1..]);
      OneAscii(SEMICOLON);
      Utf8Concat(Escaped(SEMICOLON, list[0]), [SEMICOLON]);
      Utf8Concat(Escaped(SEMICOLON, list[0]) + [SEMICOLON], XdgText(list[1..]));
    }
  }

  /** Both lists survive the escaping of values in a file, whose own treatment of backslashes
      is another layer: for all lists whose text is flush-safe. */
  lemma ListsInFile(list: seq<bytes>)
    ensures FlushSafe([], Serialize(list).Chars()) ==>
              Deserialize(Decode(Encode(ValueString, Serialize(list).Chars())).out) == list
    ensures FlushSafe([], XdgText(list)) ==> XdgItems(Decode(Encode(ValueString, XdgText(list))).out) == list
  {
    hide Serialize, Deserialize, XdgText, XdgItems, Encode, Decode, FlushSafe;
    RoundTrip(ValueString, Serialize(list).Chars());
    RoundTrip(ValueString, XdgText(list));
    DeserializeSerialize(list);
    XdgRoundTrip(list);
  }

  /** Lists of valid UTF-8 strings are flush-safe. */
  lemma Utf8ListsAreFlushSafe(list: seq<bytes>)
    requires AllUtf8(list)
    ensures FlushSafe([], Serialize(list).Chars()) && FlushSafe([], XdgText(list))
  {
    hide Separated, XdgText, FlushSafe, AllUtf8, Utf8Text;
    if list == [] {
      Utf8Ascii([]);
    } else {
      SeparatedUtf8(list);
      Utf8Ascii(EMPTY_ITEM);
    }
    Utf8IsFlushSafe(Serialize(list).Chars());
    XdgUtf8(list);
    Utf8IsFlushSafe(XdgText(list));
  }
}
