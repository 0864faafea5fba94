/** The accumulator and UTF-8: which byte strings it collects, why valid UTF-8 is always
    flush-safe, and why an encoded value is valid UTF-8. */
module Utf8Laws {
  import opened Bytes
  import opened IniCodec
  import opened CodecLaws

  predicate Tail(b: byte) {
    0x80 <= b <= 0xBF
  }

  /** UTF8-2, UTF8-3 and UTF8-4 of section 4 of RFC 3629, except that the source accepts any
      continuation behind ED, surrogates included. */
  predicate Multibyte(c: bytes) {
    || (|c| == 2 && 0xC2 <= c[0] <= 0xDF && Tail(c[1]))
    || (|c| == 3 && Tail(c[2])
        && ((c[0] == 0xE0 && 0xA0 <= c[1] <= 0xBF) || (0xE1 <= c[0] <= 0xEF && Tail(c[1]))))
    || (|c| == 4 && Tail(c[2]) && Tail(c[3])
        && ((c[0] == 0xF0 && 0x90 <= c[1] <= 0xBF)
            || (0xF1 <= c[0] <= 0xF3 && Tail(c[1]))
            || (c[0] == 0xF4 && 0x80 <= c[1] <= 0x8F)))
  }

  /** Bytes below 80 and complete multi-byte characters. */
  predicate Utf8Text(s: bytes)
    decreases |s|
  {
    || s == []
    || (s[0] < 0x80 && Utf8Text(s[1..]))
    || (0 < CharLength(s[0]) <= |s| && Multibyte(s[..CharLength(s[0])]) && Utf8Text(s[CharLength(s[0])..]))
  }

  lemma CollectedPrefixes(c: bytes)
    requires c != []
    ensures Collected(c) <==>
            && |c| <= CharLength(c[0])
            && CharLength(c[0]) > 0
            && (forall k :: 0 < k < |c| ==> Tail(c[k]))
            && (|c| > 1 ==>
              !(c[0] == 0xE0 && c[1] < 0xA0) && !(c[0] == 0xF0 && c[1] < 0x90) && !(c[0] == 0xF4 && c[1] > 0x8F))
    decreases |c|
  {
    var d := c[..|c| - 1];
    if d == [] {
      assert Collected(d);
    } else {
      CollectedPrefixes(d);
    }
  }

  /** The accumulator completes exactly the multi-byte characters of the grammar. */
  lemma CompleteCharacters(c: bytes)
    ensures Collected(c) && Complete(c) <==> Multibyte(c)
  {
    hide Collected;
    if c != [] {
      CollectedPrefixes(c);
    }
  }

  // ---------------------------------------------------------------------------
  // Valid UTF-8 is flush-safe
  // ---------------------------------------------------------------------------

  lemma {:induction false} InsideCharacter(c: bytes, rest: bytes, k: nat)
    requires Multibyte(c) && k < |c|
    requires FlushSafe([], rest)
    ensures FlushSafe(c[..k], c[k..] + rest)
    decreases |c| - k
  {
    hide Multibyte, Accepts, HasOwnCase;
    var s := c[k..] + rest;
    assert s[0] == c[k] && s[1..] == c[k + 1..] + rest;
    NextInside(c, k);
    if k + 1 < |c| {
      InsideCharacter(c, rest, k + 1);
    } else {
      assert c[k + 1..] + rest == rest;
    }
  }

  lemma NextInside(c: bytes, k: nat)
    requires Multibyte(c) && k < |c|
    ensures !HasOwnCase(c[k])
    ensures Next(c[..k], c[k]) == if k + 1 < |c| then c[..k + 1] else []
  {
    assert c[..k] + [c[k]] == c[..k + 1];
  }

  lemma {:induction false} Utf8IsFlushSafe(s: bytes)
    requires Utf8Text(s)
    ensures FlushSafe([], s)
    decreases |s|
  {
    hide Multibyte;
    if s == [] {
    } else {
      if s[0] < 0x80 {
        Utf8IsFlushSafe(s[1..]);
        assert Next([], s[0]) == [];
      } else {
        var n := CharLength(s[0]);
        Utf8IsFlushSafe(s[n..]);
        InsideCharacter(s[..n], s[n..], 0);
        assert s[..n][..0] == [] && s[..n][0..] + s[n..] == s;
      }
    }
  }

  // ---------------------------------------------------------------------------
  // An encoded value is valid UTF-8
  // ---------------------------------------------------------------------------

  lemma {:induction false} Utf8Concat(a: bytes, b: bytes)
    requires Utf8Text(a) && Utf8Text(b)
    ensures Utf8Text(a + b)
    decreases |a|
  {
    hide Multibyte;
    if a == [] {
      assert a + b == b;
    } else {
      var n := if a[0] < 0x80 then 1 else CharLength(a[0]);
      assert (a + b)[n..] == a[n..] + b && (a + b)[..n] == a[..n];
      Utf8Concat(a[n..], b);
    }
  }

  lemma {:induction false} Utf8BeforeSpace(s: bytes)
    requires Utf8Text(s) && s != [] && s[|s| - 1] == SPACE
    ensures Utf8Text(s[..|s| - 1])
    decreases |s|
  {
    var n := if s[0] < 0x80 then 1 else CharLength(s[0]);
    var d := s[..|s| - 1];
    if |s| <= n {
    } else {
      Utf8BeforeSpace(s[n..]);
      assert s[n..][..|s| - n - 1] == d[n..] && s[..n] == d[..n];
    }
  }

  lemma {:induction false} Utf8Ascii(s: bytes)
    requires forall i :: 0 <= i < |s| ==> s[i] < 0x80
    ensures Utf8Text(s)
  {
    if s == [] {
    } else {
      Utf8Ascii(s[1..]);
    }
  }

  lemma {:induction false} EscapeBytesAscii(p: bytes)
    ensures forall i :: 0 <= i < |EscapeBytes(p)| ==> EscapeBytes(p)[i] < 0x80
  {
    if p == [] {
    } else {
      EscapeBytesAscii(p[1..]);
    }
  }

  lemma EmitUtf8(p: bytes, b: byte)
    requires Pending(p)
    ensures Utf8Text(Emit(ValueString, p, b))
  {
    hide Utf8Text, Collected, OwnCase, SingleByte, EscapeBytes;
    if HasOwnCase(b) {
      OwnCaseAscii(b);
    } else if Accepts(p, b) {
      if Complete(p + [b]) {
        NextPending(p, b);
        CompleteCharacters(p + [b]);
        OneCharacter(p + [b]);
      } else {
        Utf8Ascii([]);
      }
    } else {
      EscapeBytesAscii(p);
      SingleByteAscii(b);
      Utf8Ascii(EscapeBytes(p) + SingleByte(ValueString, b));
    }
  }

  lemma OwnCaseAscii(b: byte)
    requires HasOwnCase(b)
    ensures Utf8Text(OwnCase(ValueString, b))
  {
    Utf8Ascii(OwnCase(ValueString, b));
  }

  lemma SingleByteAscii(b: byte)
    ensures forall i :: 0 <= i < |SingleByte(ValueString, b)| ==> SingleByte(ValueString, b)[i] < 0x80
  {
  }

  lemma OneCharacter(c: bytes)
    requires Multibyte(c)
    ensures Utf8Text(c)
  {
    assert c[..|c|] == c && c[|c|..] == [];
  }

  lemma {:induction false} EncodeRestUtf8(p: bytes, s: bytes)
    requires Pending(p)
    ensures Utf8Text(EncodeRest(ValueString, p, s))
    decreases |s|
  {
    hide Utf8Text, Emit, Next, Pending, EscapeBytes;
    if s == [] {
      EscapeBytesAscii(p);
      Utf8Ascii(EscapeBytes(p));
    } else {
      NextPending(p, s[0]);
      EmitUtf8(p, s[0]);
      EncodeRestUtf8(Next(p, s[0]), s[1..]);
      Utf8Concat(Emit(ValueString, p, s[0]), EncodeRest(ValueString, Next(p, s[0]), s[1..]));
    }
  }

  /** Whatever bytes a value holds, its encoded form is UTF-8 text: every byte from 80 on is
      part of a complete character. */
  lemma EncodedValueIsUtf8(s: bytes)
    ensures Utf8Text(Encode(ValueString, s))
  {
    hide Utf8Text, EncodeRest;
    var space := [BACKSLASH, LOWER_S];
    Utf8Ascii(space);
    if s != [] && s[0] == SPACE {
      EncodeRestUtf8([], s[1..]);
      Utf8Concat(space, EncodeRest(ValueString, [], s[1..]));
    } else {
      EncodeRestUtf8([], s);
    }
    var e := EncodeBody(ValueString, s);
    if e != [] && e[|e| - 1] == SPACE {
      Utf8BeforeSpace(e);
      Utf8Concat(e[..|e| - 1], space);
    }
  }
}
