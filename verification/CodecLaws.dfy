/** What the encoder and the decoder promise together: decoding undoes encoding exactly for
    the strings that never put a byte with its own case behind an unfinished character. */
module CodecLaws {
  import opened Bytes
  import opened IniCodec

  // ---------------------------------------------------------------------------
  // Strings made of whole escape sequences
  // ---------------------------------------------------------------------------

  /** The length of the sequence at the start of e that stands for one byte, 0 if there is none. */
  function UnitLength(e: bytes): (n: nat)
    ensures n <= |e|
  {
    if e == [] then 0
    else if e[0] != BACKSLASH then 1
    else if |e| >= 2 && e[1] in {LOWER_S, LOWER_T, LOWER_N, LOWER_R, BACKSLASH} then 2
    else if |e| >= 4 && e[1] == LOWER_X && HexValue(e[2]) >= 0 && HexValue(e[3]) >= 0 then 4
    else 0
  }

  function UnitByte(e: bytes): byte
    requires UnitLength(e) > 0
  {
    if e[0] != BACKSLASH then e[0]
    else if e[1] == LOWER_S then SPACE
    else if e[1] == LOWER_T then TAB
    else if e[1] == LOWER_N then NEWLINE
    else if e[1] == LOWER_R then RETURN
    else if e[1] == BACKSLASH then BACKSLASH
    else CharFromHex(e[2], e[3])
  }

  /** e is a concatenation of plain bytes and of the sequences the encoder writes. */
  predicate Units(e: bytes)
    decreases |e|
  {
    e == [] || (UnitLength(e) > 0 && Units(e[UnitLength(e)..]))
  }

  lemma UnescapeUnit(e: bytes)
    requires UnitLength(e) > 0
    ensures Unescape(e) == Unescape(e[UnitLength(e)..]).Prepend([UnitByte(e)])
  {
  }

  lemma UnescapeEmpty()
    ensures Unescape([]) == Decoded(true, []) && Units([])
  {
  }

  lemma OneUnit(e: bytes)
    requires UnitLength(e) == |e| > 0
    ensures Units(e) && Unescape(e) == Decoded(true, [UnitByte(e)])
  {
    hide Unescape;
    UnescapeUnit(e);
    UnescapeEmpty();
    assert e[|e|..] == [];
  }

  lemma UnitConcat(a: bytes, b: bytes)
    requires UnitLength(a) > 0
    ensures UnitLength(a + b) == UnitLength(a) && UnitByte(a + b) == UnitByte(a)
    ensures (a + b)[UnitLength(a)..] == a[UnitLength(a)..] + b
  {
  }

  /** Decoding goes through a prefix of whole sequences without looking behind it. */
  lemma {:induction false} UnescapeConcat(a: bytes, b: bytes)
    requires Units(a)
    ensures Unescape(a).ok
    ensures Unescape(a + b) == Unescape(b).Prepend(Unescape(a).out)
    ensures Units(b) ==> Units(a + b)
    decreases |a|
  {
    hide Unescape, UnitLength, UnitByte;
    if a == [] {
      UnescapeEmpty();
      assert a + b == b;
    } else {
      var n := UnitLength(a);
      UnescapeUnit(a);
      UnitConcat(a, b);
      UnescapeUnit(a + b);
      UnescapeConcat(a[n..], b);
      var u, v, w := [UnitByte(a)], Unescape(a[n..]).out, Unescape(b).out;
      assert u + (v + w) == u + v + w;
    }
  }

  /** A space is never the last byte of an escape sequence. */
  lemma UnitBeforeSpace(e: bytes)
    requires UnitLength(e) > 0 && e[|e| - 1] == SPACE
    ensures UnitLength(e) == |e| ==> e == [SPACE]
    ensures UnitLength(e) < |e| ==> UnitLength(e[..|e| - 1]) == UnitLength(e)
  {
  }

  lemma {:induction false} UnitsBeforeSpace(e: bytes)
    requires Units(e) && e != [] && e[|e| - 1] == SPACE
    ensures Units(e[..|e| - 1])
    ensures Unescape(e) == Decoded(true, Unescape(e[..|e| - 1]).out + [SPACE])
    decreases |e|
  {
    hide Unescape, UnitLength;
    var n, d := UnitLength(e), e[..|e| - 1];
    UnitBeforeSpace(e);
    if n == |e| {
      assert d == [];
    } else {
      assert e[n..][..|e| - n - 1] == d[n..];
      UnitsBeforeSpace(e[n..]);
    }
    UnescapeConcat(d, [SPACE]);
    assert d + [SPACE] == e;
    PlainUnits([SPACE]);
  }

  lemma {:induction false} PlainUnits(e: bytes)
    requires BACKSLASH !in e
    ensures Units(e) && Unescape(e) == Decoded(true, e)
  {
    hide Unescape;
    if e == [] {
      UnescapeEmpty();
    } else {
      PlainUnits(e[1..]);
      UnescapeUnit(e);
      assert [e[0]] + e[1..] == e;
    }
  }

  lemma EscapeByteUnits(b: byte)
    ensures Units(EscapeByte(b)) && Unescape(EscapeByte(b)) == Decoded(true, [b])
  {
    hide Unescape;
    var e := EscapeByte(b);
    assert HexValue(e[2]) == (b / 16) as int && HexValue(e[3]) == (b % 16) as int;
    OneUnit(e);
  }

  lemma {:induction false} EscapeBytesUnits(p: bytes)
    ensures Units(EscapeBytes(p)) && Unescape(EscapeBytes(p)) == Decoded(true, p)
  {
    hide Unescape, EscapeByte;
    if p == [] {
      UnescapeEmpty();
    } else {
      EscapeByteUnits(p[0]);
      EscapeBytesUnits(p[1..]);
      UnescapeConcat(EscapeByte(p[0]), EscapeBytes(p[1..]));
      assert [p[0]] + p[1..] == p;
    }
  }

  // ---------------------------------------------------------------------------
  // What decoding an encoded string gives
  // ---------------------------------------------------------------------------

  /** Bytes with their own case overtake the bytes that the accumulator holds. */
  function Reorder(p: bytes, s: bytes): bytes
    decreases |s|
  {
    if s == [] then p
    else if HasOwnCase(s[0]) then [s[0]] + Reorder(p, s[1..])
    else if Accepts(p, s[0]) && !Complete(p + [s[0]]) then Reorder(p + [s[0]], s[1..])
    else p + [s[0]] + Reorder([], s[1..])
  }

  /** No byte with its own case arrives while the accumulator holds an unfinished character. */
  predicate FlushSafe(p: bytes, s: bytes)
    decreases |s|
  {
    s == [] || ((HasOwnCase(s[0]) ==> p == []) && FlushSafe(Next(p, s[0]), s[1..]))
  }

  lemma {:induction false} CollectedHigh(p: bytes)
    requires Collected(p)
    ensures forall b :: b in p ==> b >= 0x80
    ensures p != [] ==> p[0] >= 0xC2
  {
    if |p| <= 1 {
    } else {
      CollectedHigh(p[..|p| - 1]);
      assert p == p[..|p| - 1] + [p[|p| - 1]];
    }
  }

  lemma NextPending(p: bytes, b: byte)
    requires Pending(p)
    ensures Pending(Next(p, b))
    ensures Accepts(p, b) ==> Collected(p + [b])
  {
    var q := p + [b];
    assert q[..|q| - 1] == p;
  }

  lemma OwnCaseUnits(t: StringType, b: byte)
    requires HasOwnCase(b)
    ensures Units(OwnCase(t, b)) && Unescape(OwnCase(t, b)) == Decoded(true, [b])
  {
    hide Unescape;
    EscapeByteUnits(b);
    var e := OwnCase(t, b);
    if e != EscapeByte(b) {
      OneUnit(e);
    }
  }

  lemma SingleByteUnits(t: StringType, b: byte)
    requires !HasOwnCase(b)
    ensures Units(SingleByte(t, b)) && Unescape(SingleByte(t, b)) == Decoded(true, [b])
  {
    hide Unescape, EscapeByte;
    EscapeByteUnits(b);
    PlainUnits([b]);
  }

  /** What a turn of the encoder's loop writes decodes to what it took from the accumulator
      and from the input. */
  lemma EmitUnits(t: StringType, p: bytes, b: byte)
    requires Pending(p)
    ensures Units(Emit(t, p, b))
    ensures Unescape(Emit(t, p, b)) == Decoded(true, if HasOwnCase(b) then [b] else if Next(p, b) == [] then p + [b]
            else [])
  {
    hide Unescape, OwnCase, SingleByte, Accepts, Units, HasOwnCase, EscapeBytes, Pending, Complete;
    if HasOwnCase(b) {
      OwnCaseUnits(t, b);
    } else if Accepts(p, b) {
      NextPending(p, b);
      CollectedHigh(p + [b]);
      PlainUnits(p + [b]);
      UnescapeEmpty();
    } else {
      SingleByteUnits(t, b);
      EscapeBytesUnits(p);
      UnescapeConcat(EscapeBytes(p), SingleByte(t, b));
    }
  }

  lemma {:induction false} DecodeEncodeRest(t: StringType, p: bytes, s: bytes)
    requires Pending(p)
    ensures Units(EncodeRest(t, p, s))
    ensures Unescape(EncodeRest(t, p, s)) == Decoded(true, Reorder(p, s))
    decreases |s|
  {
    hide Unescape, Emit, Accepts, Units, HasOwnCase, EscapeBytes, Pending, Complete;
    if s == [] {
      EscapeBytesUnits(p);
    } else {
      NextPending(p, s[0]);
      EmitUnits(t, p, s[0]);
      DecodeEncodeRest(t, Next(p, s[0]), s[1..]);
      UnescapeConcat(Emit(t, p, s[0]), EncodeRest(t, Next(p, s[0]), s[1..]));
    }
  }

  lemma SpaceEscape(b: bytes)
    ensures Unescape([BACKSLASH, LOWER_S] + b) == Unescape(b).Prepend([SPACE])
    ensures Units(b) ==> Units([BACKSLASH, LOWER_S] + b)
  {
    hide Unescape;
    OneUnit([BACKSLASH, LOWER_S]);
    UnescapeConcat([BACKSLASH, LOWER_S], b);
  }

  lemma DecodeEncodeBody(t: StringType, s: bytes)
    ensures Units(EncodeBody(t, s))
    ensures Unescape(EncodeBody(t, s)) == Decoded(true, Reorder([], s))
  {
    hide Unescape, Units, EncodeRest;
    if s != [] && s[0] == SPACE && t != GroupString {
      DecodeEncodeRest(t, [], s[1..]);
      SpaceEscape(EncodeRest(t, [], s[1..]));
    } else {
      DecodeEncodeRest(t, [], s);
    }
  }

  lemma DecodeEncode(t: StringType, s: bytes)
    ensures Units(Encode(t, s))
    ensures Unescape(Encode(t, s)) == Decoded(true, Reorder([], s))
  {
    hide Unescape, Units, EncodeBody, Reorder;
    var e := EncodeBody(t, s);
    DecodeEncodeBody(t, s);
    if e != [] && e[|e| - 1] == SPACE && t != GroupString {
      UnitsBeforeSpace(e);
      UnescapeEmpty();
      SpaceEscape([]);
      assert [BACKSLASH, LOWER_S] + [] == [BACKSLASH, LOWER_S];
      UnescapeConcat(e[..|e| - 1], [BACKSLASH, LOWER_S]);
    }
  }
}
