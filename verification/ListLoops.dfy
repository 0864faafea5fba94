/** The list codecs as they run: loops that append to a buffer and a flag for the quoted
    character (src/core/kconfiggroup.cpp:133-190, 738-771, 1047-1063), proved against the
    functions of module Lists. */
module ListLoops {
  import opened Bytes
  import opened Lists

  /** The pieces that the loop has collected, in front of those that are still to come. */
  function Resumed(value: seq<bytes>, val: bytes, pieces: seq<bytes>): seq<bytes>
    requires pieces != []
  {
    value + Prefixed(val, pieces)
  }

  lemma ResumeLed(value: seq<bytes>, val: bytes, b: byte, pieces: seq<bytes>)
    requires pieces != []
    ensures Resumed(value, val, Led(b, pieces)) == Resumed(value, val + [b], pieces)
  {
    assert val + ([b] + pieces[0]) == val + [b] + pieces[0];
  }

  lemma ResumeNext(value: seq<bytes>, val: bytes, pieces: seq<bytes>)
    requires pieces != []
    ensures Resumed(value, val, [[]] + pieces) == Resumed(value + [val], [], pieces)
  {
    PrefixedFirst(val, pieces);
    PrefixedNothing(pieces);
    assert value + ([val] + pieces) == value + [val] + pieces;
  }

  lemma ResumeStart(pieces: seq<bytes>)
    requires pieces != []
    ensures Resumed([], [], pieces) == pieces
  {
    PrefixedNothing(pieces);
  }

  lemma ResumeEnd(value: seq<bytes>, val: bytes)
    ensures Resumed(value, val, [[]]) == value + [val]
  {
    assert val + [] == val;
  }

  /** The pieces of a text whose first character is quoted or not. */
  function Rest(sep: byte, s: bytes, quoted: bool): (r: seq<bytes>)
    ensures r != []
  {
    if quoted then if s == [] then [[]] else Led(s[0], Pieces(sep, s[1..])) else Pieces(sep, s)
  }

  lemma RestStep(sep: byte, s: bytes)
    requires s != [] && sep != BACKSLASH
    ensures Rest(sep, s, true) == Led(s[0], Rest(sep, s[1..], false))
    ensures s[0] == BACKSLASH ==> Rest(sep, s, false) == Rest(sep, s[1..], true)
    ensures s[0] == sep ==> Rest(sep, s, false) == [[]] + Rest(sep, s[1..], false)
    ensures s[0] != BACKSLASH && s[0] != sep ==> Rest(sep, s, false) == Led(s[0], Rest(sep, s[1..], false))
  {
    if |s| > 1 {
      assert s[1..][1..] == s[2..];
    }
  }

  /** The loop over the characters, which both readers have. */
  method SplitPieces(sep: byte, data: bytes) returns (value: seq<bytes>, val: bytes)
    requires sep != BACKSLASH
    ensures Pieces(sep, data) == value + [val]
  {
    hide Pieces, Resumed, Rest;
    value, val := [], [];
    var p, quoted := 0, false;
    assert data[0..] == data;
    ResumeStart(Rest(sep, data, false));
    RestIsPieces(sep, data);
    while p < |data|
      invariant 0 <= p <= |data|
      invariant Pieces(sep, data) == Resumed(value, val, Rest(sep, data[p..], quoted))
    {
      RestStep(sep, data[p..]);
      assert data[p..][1..] == data[p + 1..];
      ghost var rest := Rest(sep, data[p + 1..], false);
      ResumeLed(value, val, data[p], rest);
      if quoted {
        val := val + [data[p]];
        quoted := false;
      } else if data[p] == BACKSLASH {
        quoted := true;
      } else if data[p] == sep {
        ResumeNext(value, val, rest);
        value, val := value + [val], [];
      } else {
        val := val + [data[p]];
      }
      p := p + 1;
    }
    RestOfNothing(sep, data[p..], quoted);
    ResumeEnd(value, val);
  }

  lemma RestIsPieces(sep: byte, s: bytes)
    ensures Rest(sep, s, false) == Pieces(sep, s)
  {
  }

  lemma RestOfNothing(sep: byte, s: bytes, quoted: bool)
    requires s == []
    ensures Rest(sep, s, quoted) == [[]]
  {
  }

  /** deserializeList. */
  method DeserializeList(data: bytes) returns (value: seq<bytes>)
    ensures value == Deserialize(data)
  {
    hide Pieces;
    if data == [] {
      return [];
    }
    if data == EMPTY_ITEM {
      return [[]];
    }
    var pieces, val := SplitPieces(COMMA, data);
    value := pieces + [val];
  }

  /** readXdgListEntry, from the entry's text. */
  method ReadXdgList(data: bytes) returns (value: seq<bytes>)
    ensures value == XdgItems(data)
  {
    hide Pieces;
    var pieces, val := SplitPieces(SEMICOLON, data);
    value := pieces;
    assert (pieces + [val])[..|pieces|] == pieces;
    if val != [] {
      value := value + [val];
    }
  }

  /** replace. */
  method Replace(s: bytes, c: byte, after: bytes) returns (r: bytes)
    ensures r == Replaced(s, c, after)
  {
    hide Replaced;
    r := [];
    var i := 0;
    assert s[0..] == s;
    while i < |s|
      invariant 0 <= i <= |s|
      invariant Replaced(s, c, after) == r + Replaced(s[i..], c, after)
    {
      assert s[i..] == [s[i]] + s[i + 1..];
      ReplacedCons(s[i], s[i + 1..], c, after);
      var out := if s[i] == c then after else [s[i]];
      ConcatAssociative(r, out, Replaced(s[i + 1..], c, after));
      r := r + out;
      i := i + 1;
    }
    ReplacedNothing(s[i..], c, after);
    assert r + [] == r;
  }

  lemma ReplacedNothing(s: bytes, c: byte, after: bytes)
    requires s == []
    ensures Replaced(s, c, after) == []
  {
  }

  method EscapeItem(sep: byte, s: bytes) returns (r: bytes)
    ensures r == Escaped(sep, s)
  {
    r := Replace(s, BACKSLASH, [BACKSLASH, BACKSLASH]);
    r := Replace(r, sep, [BACKSLASH, sep]);
  }

  /** The items in front of a separated rest. */
  lemma {:induction false} SeparatedMore(list: seq<bytes>, i: nat, value: bytes)
    requires 0 < i < |list| && value == Separated(list[..i])
    ensures Separated(list[..i + 1]) == value + [COMMA] + Escaped(COMMA, list[i])
    decreases i
  {
    hide Escaped;
    var e, last := Escaped(COMMA, list[0]), Escaped(COMMA, list[i]);
    assert list[..i + 1][1..] == list[1..][..i] && list[..i][1..] == list[1..][..i - 1];
    if i == 1 {
      assert list[1..][..1] == [list[1]];
    } else {
      var v := Separated(list[1..][..i - 1]);
      SeparatedMore(list[1..], i - 1, v);
      ConcatAssociative(e + [COMMA], v, [COMMA] + last);
      ConcatAssociative(e + [COMMA] + v, [COMMA], last);
      ConcatAssociative(v, [COMMA], last);
    }
  }

  /** serializeList. */
  method SerializeList(list: seq<bytes>) returns (r: QByteArray)
    ensures r == Serialize(list)
  {
    hide Escaped, Separated;
    if list == [] {
      return Null;
    }
    var value := EscapeItem(COMMA, list[0]);
    OneItem(list);
    var i := 1;
    while i < |list|
      invariant 1 <= i <= |list|
      invariant value == Separated(list[..i])
    {
      var item := EscapeItem(COMMA, list[i]);
      SeparatedMore(list, i, value);
      value := value + [COMMA] + item;
      i := i + 1;
    }
    assert list[..i] == list;
    if value == [] {
      value := EMPTY_ITEM;
    }
    r := Data(value);
  }

  lemma OneItem(list: seq<bytes>)
    requires list != []
    ensures Separated(list[..1]) == Escaped(COMMA, list[0])
  {
  }

  /** writeXdgListEntry, up to the entry's text. */
  method WriteXdgList(list: seq<bytes>) returns (value: bytes)
    ensures value == XdgText(list)
  {
    hide Escaped;
    value := [];
    var i := 0;
    assert list[0..] == list;
    while i < |list|
      invariant 0 <= i <= |list|
      invariant XdgText(list) == value + XdgText(list[i..])
    {
      var item := EscapeItem(SEMICOLON, list[i]);
      assert list[i..][1..] == list[i + 1..];
      ConcatAssociative(value, item + [SEMICOLON], XdgText(list[i + 1..]));
      value := value + (item + [SEMICOLON]);
      i := i + 1;
    }
  }
}
