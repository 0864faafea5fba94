/** Byte strings, as QByteArray and QByteArrayView use them in src/core/.
    A QString is modelled by the bytes of its UTF-8 form. */
module Bytes {

  newtype byte = x: int | 0 <= x < 256

  type bytes = seq<byte>

  /** A QByteArray is null or holds data; an empty array is not null. */
  datatype QByteArray = Null | Data(data: bytes) {
    /** The characters, which is all that QByteArray's own == compares. */
    function Chars(): bytes {
      if Null? then [] else data
    }
  }

  const TAB: byte := 9
  const NEWLINE: byte := 10
  const RETURN: byte := 13
  const SEPARATOR: byte := 0x1d // between the components of a group name
  const SPACE: byte := 32
  const HASH: byte := 35 // '#'
  const DOLLAR: byte := 36 // '$'
  const COMMA: byte := 44 // ','
  const SLASH: byte := 47 // '/'
  const ZERO: byte := 48 // '0'
  const SEMICOLON: byte := 59 // ';'
  const EQUALS: byte := 61 // '='
  const OPEN: byte := 91 // '['
  const BACKSLASH: byte := 92 // '\'
  const CLOSE: byte := 93 // ']'
  const UNDERSCORE: byte := 95 // '_'
  const LOWER_A: byte := 97
  const LOWER_D: byte := 100
  const LOWER_E: byte := 101
  const LOWER_I: byte := 105
  const LOWER_N: byte := 110
  const LOWER_R: byte := 114
  const LOWER_S: byte := 115
  const LOWER_T: byte := 116
  const LOWER_X: byte := 120
  const LOWER_Z: byte := 122
  const OPEN_BRACE: byte := 123 // '{'
  const CLOSE_BRACE: byte := 125 // '}'

  /** A literal, spelled out. */
  function Ascii(s: string): bytes {
    seq(|s|, i requires 0 <= i < |s| => (s[i] as int % 256) as byte)
  }

  lemma AsciiAt(s: string, i: nat)
    requires i < |s| && s[i] < 128 as char
    ensures |Ascii(s)| == |s| && Ascii(s)[i] == s[i] as byte
  {
  }

  /** The characters that QByteArrayView::trimmed removes. */
  predicate IsSpace(b: byte) {
    b == SPACE || 9 <= b <= 13
  }

  /** QByteArrayView::trimmed. */
  function Trimmed(s: bytes): (r: bytes)
    ensures |r| <= |s|
    ensures forall b :: b in r ==> b in s
    ensures NoOuterSpace(r)
    ensures NoOuterSpace(s) ==> r == s
  {
    if s == [] then s
    else if IsSpace(s[0]) then Trimmed(s[1..])
    else if IsSpace(s[|s| - 1]) then Trimmed(s[..|s| - 1])
    else s
  }

  predicate NoOuterSpace(s: bytes) {
    s == [] || (!IsSpace(s[0]) && !IsSpace(s[|s| - 1]))
  }

  /** A line read from the file keeps its newline; trimming removes it. */
  lemma TrimNewline(s: bytes)
    requires NoOuterSpace(s)
    ensures Trimmed(s + [NEWLINE]) == s
  {
    var t := s + [NEWLINE];
    if s == [] {
      assert t[1..] == [];
    } else {
      assert t[0] == s[0] && t[..|t| - 1] == s;
    }
  }

  /** indexOf: the first position of c, or -1. */
  function IndexOf(s: bytes, c: byte): (r: int)
    ensures -1 <= r < |s|
    ensures r < 0 <==> c !in s
    ensures r >= 0 ==> s[r] == c && c !in s[..r]
  {
    if s == [] then -1
    else if s[0] == c then 0
    else
      var r := IndexOf(s[1..], c);
      assert s == [s[0]] + s[1..];
      if r < 0 then -1
      else
        assert s[..r + 1] == [s[0]] + s[1..][..r];
        r + 1
  }

  /** lastIndexOf: the last position of c, or -1. */
  function LastIndexOf(s: bytes, c: byte): (r: int)
    ensures -1 <= r < |s|
    ensures r < 0 <==> c !in s
    ensures r >= 0 ==> s[r] == c && c !in s[r + 1..]
  {
    if s == [] then -1
    else
      var n := |s| - 1;
      if s[n] == c then n
      else
        var r := LastIndexOf(s[..n], c);
        assert s == s[..n] + [s[n]];
        assert r >= 0 ==> s[r + 1..] == s[..n][r + 1..] + [s[n]];
        r
  }

  lemma IndexOfConcat(a: bytes, c: byte, b: bytes)
    requires c !in a
    ensures IndexOf(a + [c] + b, c) == |a|
  {
    var s := a + [c] + b;
    assert s[|a|] == c;
    assert forall i :: 0 <= i < |a| ==> s[i] == a[i];
  }

  lemma {:induction false} LastIndexOfConcat(a: bytes, c: byte, b: bytes)
    requires c !in b
    ensures LastIndexOf(a + [c] + b, c) == |a|
  {
    var s := a + [c] + b;
    if b == [] {
      assert s[|s| - 1] == c;
    } else {
      var n := |b| - 1;
      assert s[|s| - 1] == b[n];
      LastIndexOfConcat(a, c, b[..n]);
      assert s[..|s| - 1] == a + [c] + b[..n];
    }
  }

  lemma SplitAt(s: bytes, i: nat)
    requires i < |s|
    ensures s == s[..i] + [s[i]] + s[i + 1..]
  {
  }

  lemma DropHead(b: byte, x: bytes, y: bytes, z: bytes)
    ensures ([b] + x + y + z)[1..] == x + y + z
  {
  }

  lemma ConcatAssociative(x: bytes, y: bytes, z: bytes)
    ensures x + (y + z) == x + y + z
  {
  }

  /** QString::compare and QByteArray::compare: lexicographic order. */
  predicate Below(s: bytes, t: bytes) {
    t != [] && (s == [] || s[0] < t[0] || (s[0] == t[0] && Below(s[1..], t[1..])))
  }

  lemma {:induction false} BelowIrreflexive(s: bytes)
    ensures !Below(s, s)
  {
    if s == [] {
    } else {
      BelowIrreflexive(s[1..]);
    }
  }

  lemma {:induction false} BelowTransitive(s: bytes, t: bytes, u: bytes)
    requires Below(s, t) && Below(t, u)
    ensures Below(s, u)
  {
    if s == [] || s[0] != t[0] || t[0] != u[0] {
    } else {
      BelowTransitive(s[1..], t[1..], u[1..]);
    }
  }

  lemma {:induction false} BelowTotal(s: bytes, t: bytes)
    ensures s == t || Below(s, t) || Below(t, s)
  {
    if s == [] || t == [] || s[0] != t[0] {
    } else {
      BelowTotal(s[1..], t[1..]);
      assert s == [s[0]] + s[1..] && t == [t[0]] + t[1..];
    }
  }

  /** A string that starts with p is not below p. */
  lemma {:induction false} PrefixNotBelow(p: bytes, s: bytes)
    requires p <= s
    ensures !Below(s, p)
  {
    if p == [] {
    } else {
      assert s[0] == p[0];
      PrefixNotBelow(p[1..], s[1..]);
    }
  }

  /** The strings that start with p are contiguous. */
  lemma {:induction false} PrefixConvex(p: bytes, s: bytes, t: bytes)
    requires !Below(s, p) && Below(s, t) && p <= t
    ensures p <= s
  {
    if p == [] {
    } else {
      assert t[0] == p[0];
      PrefixConvex(p[1..], s[1..], t[1..]);
      assert s == [s[0]] + s[1..] && p == [p[0]] + p[1..];
    }
  }
}
