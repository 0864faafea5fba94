/** The main results about the codec: the exact round trip, the alphabet of the encoder's
    output, and valid UTF-8 as a sufficient condition. */
module CodecTheorems {
  import opened Bytes
  import opened IniCodec
  import opened CodecLaws

  // ---------------------------------------------------------------------------
  // When nothing is reordered
  // ---------------------------------------------------------------------------

  lemma {:induction false} ReorderLength(p: bytes, s: bytes)
    ensures |Reorder(p, s)| == |p| + |s|
    decreases |s|
  {
    hide HasOwnCase, Accepts, Complete;
    if s == [] {
    } else {
      var rest := s[1..];
      ReorderLength(p, rest);
      ReorderLength(p + [s[0]], rest);
      ReorderLength([], rest);
    }
  }

  lemma OwnCaseIsLow(b: byte)
    ensures HasOwnCase(b) ==> b < 0x80
  {
  }

  lemma {:induction false} ReorderIdentity(p: bytes, s: bytes)
    requires Pending(p)
    ensures Reorder(p, s) == p + s <==> FlushSafe(p, s)
    decreases |s|
  {
    hide HasOwnCase, Accepts, Complete, Pending;
    if s == [] {
      assert p + [] == p;
    } else {
      var b, rest := s[0], s[1..];
      NextPending(p, b);
      if HasOwnCase(b) {
        if p == [] {
          ReorderIdentity([], rest);
          Regroup([], b, s, Reorder([], rest));
        } else {
          OwnCaseIsLow(b);
          PendingHigh(p);
          assert Reorder(p, s)[0] == b && (p + s)[0] == p[0];
        }
      } else {
        ReorderIdentity(Next(p, b), rest);
        Regroup(p, b, s, Reorder([], rest));
      }
    }
  }

  lemma Regroup(p: bytes, b: byte, s: bytes, r: bytes)
    requires s != [] && s[0] == b
    ensures p + s == (p + [b]) + s[1..]
    ensures (p + [b]) + r == p + s <==> r == [] + s[1..]
    ensures [b] + r == [] + s <==> r == [] + s[1..]
  {
    assert p + s == (p + [b]) + s[1..];
    assert [] + s == [b] + s[1..] && [] + s[1..] == s[1..];
    PrependCancels(p + [b], r, s[1..]);
    PrependCancels([b], r, s[1..]);
  }

  lemma PendingHigh(p: bytes)
    requires Pending(p) && p != []
    ensures p[0] >= 0x80
  {
    CollectedHigh(p);
  }

  lemma PrependCancels(a: bytes, b: bytes, c: bytes)
    ensures a + b == a + c <==> b == c
  {
    if a + b == a + c {
      assert b == (a + b)[|a|..] && c == (a + c)[|a|..];
    }
  }

  // ---------------------------------------------------------------------------
  // The alphabet of the output
  // ---------------------------------------------------------------------------

  /** No control characters; no '=' in keys; no brackets in keys and groups. */
  predicate Printable(t: StringType, b: byte) {
    && b >= 32
    && (t == KeyString ==> b != EQUALS)
    && (t != ValueString ==> b != OPEN && b != CLOSE)
  }

  predicate AllPrintable(t: StringType, s: bytes) {
    forall i :: 0 <= i < |s| ==> Printable(t, s[i])
  }

  lemma {:induction false} EscapeBytesPrintable(t: StringType, p: bytes)
    ensures AllPrintable(t, EscapeBytes(p))
    ensures p == [] <==> EscapeBytes(p) == []
    ensures p != [] ==> EscapeBytes(p)[0] == BACKSLASH && EscapeBytes(p)[|EscapeBytes(p)| - 1] != SPACE
  {
    if p == [] {
    } else {
      EscapeBytesPrintable(t, p[1..]);
    }
  }

  /** Plain spaces come from spaces only. */
  ghost predicate SpacesFaithful(p: bytes, b: byte, e: bytes) {
    && (e != [] ==> (e[0] == SPACE <==> p == [] && b == SPACE))
    && (e != [] ==> (e[|e| - 1] == SPACE <==> b == SPACE))
  }

  lemma OwnCasePrintable(t: StringType, p: bytes, b: byte)
    requires HasOwnCase(b)
    ensures AllPrintable(t, OwnCase(t, b)) && SpacesFaithful(p, b, OwnCase(t, b)) && OwnCase(t, b) != []
  {
  }

  lemma SingleBytePrintable(t: StringType, b: byte)
    requires !HasOwnCase(b)
    ensures AllPrintable(t, SingleByte(t, b)) && SpacesFaithful([], b, SingleByte(t, b)) && SingleByte(t, b) != []
  {
  }

  lemma CollectedPrintable(t: StringType, p: bytes)
    requires Collected(p)
    ensures AllPrintable(t, p) && SPACE !in p
  {
    CollectedHigh(p);
  }

  lemma EmitPrintable(t: StringType, p: bytes, b: byte)
    requires Pending(p)
    ensures AllPrintable(t, Emit(t, p, b)) && SpacesFaithful(p, b, Emit(t, p, b))
    ensures Emit(t, p, b) == [] ==> Next(p, b) != []
    ensures b == SPACE ==> Next(p, b) == []
  {
    hide OwnCase, SingleByte, EscapeBytes, Collected, Complete, Printable;
    if HasOwnCase(b) {
      OwnCasePrintable(t, p, b);
    } else if Accepts(p, b) {
      NextPending(p, b);
      CollectedPrintable(t, p + [b]);
      assert b in p + [b];
    } else {
      EscapeBytesPrintable(t, p);
      SingleBytePrintable(t, b);
    }
  }

  /** The output is printable; it starts with a space exactly if the input does, and ends
      with one exactly if the input does. */
  lemma {:induction false} EncodeRestPrintable(t: StringType, p: bytes, s: bytes)
    requires Pending(p)
    ensures AllPrintable(t, EncodeRest(t, p, s))
    ensures EncodeRest(t, p, s) == [] <==> p == [] && s == []
    ensures EncodeRest(t, p, s) != [] ==> (EncodeRest(t, p, s)[0] == SPACE <==> p == [] && s[0] == SPACE)
    ensures EncodeRest(t, p, s) != [] ==>
              (EncodeRest(t, p, s)[|EncodeRest(t, p, s)| - 1] == SPACE <==> s != [] && s[|s| - 1] == SPACE)
    decreases |s|
  {
    hide Emit, Next, Pending, Printable;
    if s == [] {
      EscapeBytesPrintable(t, p);
    } else {
      EmitPrintable(t, p, s[0]);
      NextPending(p, s[0]);
      EncodeRestPrintable(t, Next(p, s[0]), s[1..]);
      assert s[1..] != [] ==> s[1..][|s| - 2] == s[|s| - 1];
    }
  }

  /** What a reader of the file relies on: keys and values have no outer white space that
      trimming would remove, and no byte that the line syntax gives a meaning to. */
  lemma EncodePrintable(t: StringType, s: bytes)
    ensures AllPrintable(t, Encode(t, s))
    ensures Encode(t, s) == [] <==> s == []
    ensures t != GroupString ==> NoOuterSpace(Encode(t, s))
    ensures t == GroupString && s != [] ==>
              (NoOuterSpace(Encode(t, s)) <==> s[0] != SPACE && s[|s| - 1] != SPACE)
  {
    hide EncodeRest, Printable;
    PlainSpace(t);
    BackslashPrintable(t);
    if s != [] && s[0] == SPACE && t != GroupString {
      EncodeRestPrintable(t, [], s[1..]);
    } else {
      EncodeRestPrintable(t, [], s);
    }
  }

  lemma PlainSpace(t: StringType)
    ensures forall b :: Printable(t, b) ==> (IsSpace(b) <==> b == SPACE)
  {
  }

  lemma BackslashPrintable(t: StringType)
    ensures Printable(t, BACKSLASH) && Printable(t, LOWER_S)
  {
  }

  // ---------------------------------------------------------------------------
  // Round trips
  // ---------------------------------------------------------------------------

  /** For keys and values, decoding undoes encoding exactly for the flush-safe strings. */
  lemma RoundTrip(t: StringType, s: bytes)
    requires t != GroupString
    ensures Decode(Encode(t, s)) == Decoded(true, s) <==> FlushSafe([], s)
  {
    hide Unescape, Encode, Reorder, FlushSafe, NoOuterSpace;
    var e := Encode(t, s);
    DecodeEncode(t, s);
    EncodePrintable(t, s);
    ReorderIdentity([], s);
    assert [] + s == s;
    if BACKSLASH !in e {
      PlainUnits(e);
    }
  }

  /** Trimming an encoded string removes plain spaces, each of which stands for itself. */
  lemma {:induction false} TrimmedUnits(e: bytes)
    requires Units(e) && AllPrintable(GroupString, e)
    ensures Unescape(Trimmed(e)).ok
    ensures NoOuterSpace(e) ==> Trimmed(e) == e
    ensures !NoOuterSpace(e) ==> |Unescape(Trimmed(e)).out| < |Unescape(e).out|
    decreases |e|
  {
    hide Unescape, Printable;
    PlainSpace(GroupString);
    UnescapeConcat(e, []);
    if e != [] && IsSpace(e[0]) {
      UnescapeUnit(e);
      TrimmedUnits(e[1..]);
    } else if e != [] && IsSpace(e[|e| - 1]) {
      UnitsBeforeSpace(e);
      TrimmedUnits(e[..|e| - 1]);
    }
  }

  /** For the components of a group name, which are encoded without protecting outer spaces,
      decoding undoes encoding exactly if the component is flush-safe and either has no outer
      space or needs no escape sequence. */
  lemma GroupRoundTrip(s: bytes)
    ensures Decode(Encode(GroupString, s)) == Decoded(true, s) <==>
            FlushSafe([], s) && (s == [] || (s[0] != SPACE && s[|s| - 1] != SPACE)
                || BACKSLASH !in Encode(GroupString, s))
  {
    hide Unescape, Encode, Reorder, FlushSafe, NoOuterSpace, AllPrintable, Units, Trimmed;
    var e := Encode(GroupString, s);
    DecodeEncode(GroupString, s);
    EncodePrintable(GroupString, s);
    ReorderIdentity([], s);
    ReorderLength([], s);
    assert [] + s == s;
    if BACKSLASH !in e {
      PlainUnits(e);
    } else {
      TrimmedUnits(e);
    }
  }

  lemma GroupLength(s: bytes)
    ensures |Decode(Encode(GroupString, s)).out| <= |s|
  {
    hide Unescape, Encode, Reorder, NoOuterSpace, AllPrintable, Units, Trimmed;
    var e := Encode(GroupString, s);
    DecodeEncode(GroupString, s);
    EncodePrintable(GroupString, s);
    ReorderLength([], s);
    if BACKSLASH !in e {
      PlainUnits(e);
    } else {
      TrimmedUnits(e);
    }
  }

  /** Decoding what was encoded gives the input with the bytes of unfinished characters moved
      behind the bytes that overtook them, exactly if it is a key, a value, or a component of a
      group name that has no outer space or needs no escape sequence; and it always succeeds. */
  lemma DecodesReordered(t: StringType, s: bytes)
    ensures Decode(Encode(t, s)) == Decoded(true, Reorder([], s)) <==>
            t != GroupString || s == [] || (s[0] != SPACE && s[|s| - 1] != SPACE) || BACKSLASH !in Encode(t, s)
    ensures Decode(Encode(t, s)).ok
  {
    hide Unescape, Encode, Reorder, NoOuterSpace, AllPrintable, Units, Trimmed;
    var e := Encode(t, s);
    DecodeEncode(t, s);
    EncodePrintable(t, s);
    ReorderLength([], s);
    if BACKSLASH !in e {
      PlainUnits(e);
    } else if t == GroupString {
      TrimmedUnits(e);
    }
  }

  /** A concrete value that does not survive: an unfinished character in front of a newline. */
  lemma UnfinishedCharacterIsOvertaken()
    ensures Decode(Encode(ValueString, [0xC3, NEWLINE])) == Decoded(true, [NEWLINE, 0xC3])
  {
    var s := [0xC3, NEWLINE];
    assert s[1..] == [NEWLINE] && s[1..][1..] == [];
    assert Next([], 0xC3) == [0xC3];
    DecodeEncode(ValueString, s);
    EncodePrintable(ValueString, s);
    assert Reorder([0xC3], [NEWLINE]) == [NEWLINE] + Reorder([0xC3], []);
    assert Reorder([], s) == [NEWLINE, 0xC3];
    if BACKSLASH !in Encode(ValueString, s) {
      PlainUnits(Encode(ValueString, s));
    }
  }
}
