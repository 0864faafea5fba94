/** stringToPrintable as the source runs it: a loop that appends to a buffer of four times
    the input's length while an accumulator holds back the bytes of an unfinished UTF-8
    character (src/core/kconfigini.cpp:508-704). */
module EncoderLoop {
  import opened Bytes
  import opened IniCodec
  import CodecLaws

  method WriteEscaped(data: array<byte>, pos: nat, b: byte) returns (end: nat)
    requires pos + 4 <= data.Length
    modifies data
    ensures end == pos + 4
    ensures data[..end] == old(data[..pos]) + EscapeByte(b)
  {
    data[pos] := BACKSLASH;
    data[pos + 1] := LOWER_X;
    data[pos + 2] := HexDigit(b / 16);
    data[pos + 3] := HexDigit(b % 16);
    end := pos + 4;
  }

  lemma EscapeBytesSnoc(p: bytes, b: byte)
    ensures EscapeBytes(p + [b]) == EscapeBytes(p) + EscapeByte(b)
  {
    if p == [] {
      assert ([] + [b])[1..] == [];
    } else {
      assert (p + [b])[1..] == p[1..] + [b];
      EscapeBytesSnoc(p[1..], b);
    }
  }

  lemma EscapeBytesLength(p: bytes)
    ensures |EscapeBytes(p)| == 4 * |p|
  {
  }

  /** The multi-byte character that is being collected. */
  class Utf8Char {
    const held: array<byte>
    var count: nat
    var charLength: nat

    ghost predicate Valid()
      reads this, held
    {
      && held.Length == 4
      && count <= 4
      && (count > 0 ==> charLength == CharLength(held[0]))
    }

    /** The bytes collected so far. */
    ghost function Bytes(): (r: bytes)
      requires Valid()
      reads this, held
      ensures |r| == count
    {
      held[..count]
    }

    constructor ()
      ensures Valid() && fresh(held) && Bytes() == []
    {
      held := new byte[4];
      count := 0;
      charLength := 0;
    }

    method Clear()
      requires Valid()
      modifies this`count
      ensures Valid() && Bytes() == []
    {
      count := 0;
    }

    method AddByte(b: byte) returns (ok: bool)
      requires Valid()
      modifies this, held
      ensures Valid()
      ensures ok == Accepts(old(Bytes()), b)
      ensures Bytes() == if ok then old(Bytes()) + [b] else old(Bytes())
    {
      if count == 0 {
        if 0xC1 < b && 0xC0 <= b < 0xE0 {
          charLength := 2;
        } else if 0xE0 <= b < 0xF0 {
          charLength := 3;
        } else if b < 0xF5 && 0xF0 <= b < 0xF8 {
          charLength := 4;
        } else {
          return false;
        }
        held[0] := b;
        count := 1;
      } else if count < 4 && 0x80 <= b < 0xC0 {
        if count == 1 {
          if charLength == 3 && held[0] == 0xE0 && b < 0xA0 {
            return false;
          }
          if charLength == 4 {
            if held[0] == 0xF0 && b < 0x90 {
              return false;
            }
            if held[0] == 0xF4 && b > 0x8F {
              return false;
            }
          }
        }
        held[count] := b;
        count := count + 1;
      } else {
        return false;
      }
      ok := true;
    }

    method IsComplete() returns (r: bool)
      requires Valid()
      ensures r == Complete(Bytes())
    {
      r := count > 0 && count == charLength;
    }

    /** Utf8Char::escapeBytes. */
    method WriteEscapes(data: array<byte>, pos: nat) returns (end: nat)
      requires Valid() && data != held && pos + 4 * count <= data.Length
      modifies this`count, data
      ensures Valid() && Bytes() == []
      ensures end == pos + 4 * old(count) && data[..end] == old(data[..pos]) + EscapeBytes(old(Bytes()))
    {
      var i := 0;
      end := pos;
      while i < count
        invariant i <= count == old(count) && end == pos + 4 * i <= data.Length
        invariant held[..] == old(held[..])
        invariant data[..end] == old(data[..pos]) + EscapeBytes(held[..i])
      {
        EscapeBytesSnoc(held[..i], held[i]);
        assert held[..i] + [held[i]] == held[..i + 1];
        end := WriteEscaped(data, end, held[i]);
        i := i + 1;
      }
      Clear();
    }

    /** Utf8Char::writeUtf8. */
    method WriteUtf8(data: array<byte>, pos: nat) returns (end: nat)
      requires Valid() && data != held && pos + count <= data.Length
      modifies this`count, data
      ensures Valid() && Bytes() == []
      ensures end == pos + old(count) && data[..end] == old(data[..pos]) + old(Bytes())
    {
      var i := 0;
      end := pos;
      while i < count
        invariant i <= count == old(count) && end == pos + i
        invariant held[..] == old(held[..])
        invariant data[..end] == old(data[..pos]) + held[..i]
      {
        data[end] := held[i];
        end := end + 1;
        i := i + 1;
      }
      Clear();
    }

    /** Utf8Char::write. */
    method Write(data: array<byte>, pos: nat) returns (end: nat)
      requires Valid() && data != held && pos + 4 * count <= data.Length
      modifies this`count, data
      ensures Valid() && Bytes() == []
      ensures end <= data.Length
      ensures data[..end] == old(data[..pos]) + (if Complete(old(Bytes())) then old(Bytes())
              else EscapeBytes(old(Bytes())))
    {
      var complete := IsComplete();
      if complete {
        end := WriteUtf8(data, pos);
      } else {
        end := WriteEscapes(data, pos);
      }
    }
  }

  /** One turn of the loop on a byte b: the switch with its jumps to doEscape, then writeUtf8
      when the character is complete. */
  method EncodeOne(utf8: Utf8Char, data: array<byte>, pos: nat, t: StringType, b: byte) returns (end: nat)
    requires utf8.Valid() && utf8.held != data && pos + 4 * utf8.count + 4 <= data.Length
    requires Pending(utf8.Bytes())
    modifies utf8, utf8.held, data
    ensures utf8.Valid() && end <= data.Length
    ensures utf8.Bytes() == Next(old(utf8.Bytes()), b)
    ensures data[..end] == old(data[..pos]) + Emit(t, old(utf8.Bytes()), b)
  {
    hide EscapeByte, EscapeBytes, Accepts, OwnCase;
    ghost var p := utf8.Bytes();
    end := pos;
    if HasOwnCase(b) {
      end := WriteOwnCase(data, pos, t, b);
    } else {
      var added := utf8.AddByte(b);
      if !added {
        end := utf8.WriteEscapes(data, end);
        if b < 32 || (t == ValueString && b >= 127) {
          end := WriteEscaped(data, end, b);
        } else {
          data[end] := b;
          end := end + 1;
        }
      }
    }
    var complete := utf8.IsComplete();
    if complete {
      end := utf8.WriteUtf8(data, end);
    }
  }

  method WriteOwnCase(data: array<byte>, pos: nat, t: StringType, b: byte) returns (end: nat)
    requires HasOwnCase(b) && pos + 4 <= data.Length
    modifies data
    ensures end <= data.Length && data[..end] == old(data[..pos]) + OwnCase(t, b)
  {
    if b == NEWLINE {
      data[pos], data[pos + 1], end := BACKSLASH, LOWER_N, pos + 2;
    } else if b == TAB {
      data[pos], data[pos + 1], end := BACKSLASH, LOWER_T, pos + 2;
    } else if b == RETURN {
      data[pos], data[pos + 1], end := BACKSLASH, LOWER_R, pos + 2;
    } else if b == BACKSLASH {
      data[pos], data[pos + 1], end := BACKSLASH, BACKSLASH, pos + 2;
    } else if (b == EQUALS && t != KeyString) || (b != EQUALS && t == ValueString) {
      data[pos], end := b, pos + 1;
    } else {
      end := WriteEscaped(data, pos, b);
    }
  }

  /** Four bytes of output at most for a byte read, counting what the accumulator still owes. */
  lemma EmitBound(t: StringType, p: bytes, b: byte)
    ensures |Emit(t, p, b)| + 4 * |Next(p, b)| <= 4 * |p| + 4
  {
    EscapeBytesLength(p);
  }

  /** The loop's invariant: what is written, and what is still to be written. */
  ghost predicate Progress(t: StringType, s: bytes, out: bytes, p: bytes, i: nat) {
    i <= |s| && out + EncodeRest(t, p, s[i..]) == EncodeBody(t, s)
  }

  lemma Start(t: StringType, s: bytes, out: bytes, i: nat)
    requires s != []
    requires if s[0] == SPACE && t != GroupString then out == [BACKSLASH, LOWER_S] && i == 1 else out == [] && i == 0
    ensures Progress(t, s, out, [], i) && Pending([])
  {
    assert s[0..] == s;
  }

  lemma Step(t: StringType, s: bytes, out: bytes, p: bytes, i: nat)
    requires Progress(t, s, out, p, i) && i < |s| && Pending(p)
    ensures Progress(t, s, out + Emit(t, p, s[i]), Next(p, s[i]), i + 1)
    ensures Pending(Next(p, s[i]))
    ensures |Emit(t, p, s[i])| + 4 * |Next(p, s[i])| <= 4 * |p| + 4
  {
    hide Emit, Next;
    var e, rest := Emit(t, p, s[i]), EncodeRest(t, Next(p, s[i]), s[i + 1..]);
    assert s[i..][1..] == s[i + 1..];
    assert out + (e + rest) == out + e + rest;
    CodecLaws.NextPending(p, s[i]);
    EmitBound(t, p, s[i]);
  }

  lemma EncodeEmpty(t: StringType)
    ensures Encode(t, []) == []
  {
  }

  lemma Protected(t: StringType, s: bytes, body: bytes, result: bytes)
    requires body == EncodeBody(t, s)
    requires if body != [] && body[|body| - 1] == SPACE
             && t != GroupString then result == body[..|body| - 1] + [BACKSLASH, LOWER_S] else result == body
    ensures result == Encode(t, s)
  {
  }

  lemma Finish(t: StringType, s: bytes, out: bytes, p: bytes)
    requires Progress(t, s, out, p, |s|) && Pending(p)
    ensures !Complete(p) && out + EscapeBytes(p) == EncodeBody(t, s)
    ensures |EscapeBytes(p)| == 4 * |p|
  {
    EscapeBytesLength(p);
  }

  /** KConfigIniBackend::stringToPrintable. The buffer has one byte more than 4 * len for the
      final zero; the invariant on pos is what keeps every write inside it. */
  method StringToPrintable(s: bytes, t: StringType) returns (result: bytes)
    ensures result == Encode(t, s)
  {
    hide *;
    var len := |s|;
    if len == 0 {
      EncodeEmpty(t);
      return s;
    }
    var data := new byte[4 * len + 1];
    var pos, i := 0, 0;
    if s[0] == SPACE && t != GroupString {
      data[0], data[1] := BACKSLASH, LOWER_S;
      pos, i := 2, 1;
    }
    var utf8 := new Utf8Char();
    Start(t, s, data[..pos], i);
    while i < len
      invariant 0 <= i <= len && 0 <= pos
      invariant fresh(utf8) && fresh(utf8.held) && utf8.held != data && utf8.Valid() && Pending(utf8.Bytes())
      invariant pos + 4 * utf8.count <= 4 * i
      invariant Progress(t, s, data[..pos], utf8.Bytes(), i)
    {
      ghost var out, p := data[..pos], utf8.Bytes();
      pos := EncodeOne(utf8, data, pos, t, s[i]);
      Step(t, s, out, p, i);
      i := i + 1;
    }
    Finish(t, s, data[..pos], utf8.Bytes());
    pos := utf8.Write(data, pos);
    data[pos] := 0;
    result := data[..pos];
    // protect the trailing space
    if result != [] && result[|result| - 1] == SPACE && t != GroupString {
      result := result[..|result| - 1] + [BACKSLASH, LOWER_S];
    }
    Protected(t, s, data[..pos], result);
  }
}
