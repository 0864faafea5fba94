/** The escaping codec of the INI backend (src/core/kconfigini.cpp:508-797): what the
    encoder and the decoder compute, as functions. EncoderLoop.dfy and DecoderLoop.dfy
    hold the loops that compute it. */
module IniCodec {
  import opened Bytes

  datatype StringType = GroupString | KeyString | ValueString

  // ---------------------------------------------------------------------------
  // Collecting a multi-byte UTF-8 character
  // ---------------------------------------------------------------------------

  /** The length of the character that b starts, 0 when b cannot start one. */
  function CharLength(b: byte): nat {
    if 0xC2 <= b < 0xE0 then 2
    else if 0xE0 <= b < 0xF0 then 3
    else if 0xF0 <= b < 0xF5 then 4
    else 0
  }

  /** Utf8Char::addByte: may b follow the bytes p collected so far? */
  predicate Accepts(p: bytes, b: byte) {
    if p == [] then CharLength(b) > 0
    else
      && |p| < 4
      && 0x80 <= b < 0xC0
      && (|p| == 1 ==>
            && !(p[0] == 0xE0 && b < 0xA0)
            && !(p[0] == 0xF0 && b < 0x90)
            && !(p[0] == 0xF4 && b > 0x8F))
  }

  /** Utf8Char::isComplete. */
  predicate Complete(p: bytes) {
    p != [] && |p| == CharLength(p[0])
  }

  /** The bytes of a character that addByte accepts one after the other. */
  predicate Collected(p: bytes) {
    p == [] || (Collected(p[..|p| - 1]) && Accepts(p[..|p| - 1], p[|p| - 1]) && |p| <= CharLength(p[0]))
  }

  /** A state of the accumulator between two steps of the encoder's loop. */
  predicate Pending(p: bytes) {
    Collected(p) && !Complete(p)
  }

  // ---------------------------------------------------------------------------
  // Encoding
  // ---------------------------------------------------------------------------

  function HexDigit(n: byte): byte
    requires n < 16
  {
    if n < 10 then 48 + n else 87 + n
  }

  function EscapeByte(b: byte): bytes {
    [BACKSLASH, LOWER_X, HexDigit(b / 16), HexDigit(b % 16)]
  }

  function EscapeBytes(p: bytes): bytes {
    if p == [] then [] else EscapeByte(p[0]) + EscapeBytes(p[1..])
  }

  /** The bytes with a case of their own in stringToPrintable's switch. */
  predicate HasOwnCase(b: byte) {
    b == NEWLINE || b == TAB || b == RETURN || b == BACKSLASH || b == EQUALS || b == OPEN || b == CLOSE
  }

  function OwnCase(t: StringType, b: byte): bytes
    requires HasOwnCase(b)
  {
    if b == NEWLINE then [BACKSLASH, LOWER_N]
    else if b == TAB then [BACKSLASH, LOWER_T]
    else if b == RETURN then [BACKSLASH, LOWER_R]
    else if b == BACKSLASH then [BACKSLASH, BACKSLASH]
    else if b == EQUALS then if t == KeyString then EscapeByte(b) else [b]
    else if t == ValueString then [b]
    else EscapeByte(b)
  }

  /** A byte that neither starts nor continues a character. */
  function SingleByte(t: StringType, b: byte): bytes {
    if b < 32 || (t == ValueString && b >= 127) then EscapeByte(b) else [b]
  }

  /** What one turn of the loop writes, p being the bytes the accumulator holds. */
  function Emit(t: StringType, p: bytes, b: byte): bytes {
    if HasOwnCase(b) then OwnCase(t, b)
    else if Accepts(p, b) then if Complete(p + [b]) then p + [b] else []
    else EscapeBytes(p) + SingleByte(t, b)
  }

  /** What the accumulator holds after that turn. A byte with its own case leaves it as it is. */
  function Next(p: bytes, b: byte): bytes {
    if HasOwnCase(b) then p
    else if Accepts(p, b) && !Complete(p + [b]) then p + [b]
    else []
  }

  function EncodeRest(t: StringType, p: bytes, s: bytes): bytes
    decreases |s|
  {
    if s == [] then EscapeBytes(p)
    else Emit(t, p, s[0]) + EncodeRest(t, Next(p, s[0]), s[1..])
  }

  function ProtectTrailingSpace(t: StringType, r: bytes): bytes {
    if r != [] && r[|r| - 1] == SPACE && t != GroupString then r[..|r| - 1] + [BACKSLASH, LOWER_S] else r
  }

  /** The loop with its leading-space case, before the trailing space is protected. */
  function EncodeBody(t: StringType, s: bytes): bytes {
    if s != [] && s[0] == SPACE && t != GroupString
    then [BACKSLASH, LOWER_S] + EncodeRest(t, [], s[1..])
    else EncodeRest(t, [], s)
  }

  /** KConfigIniBackend::stringToPrintable. */
  function Encode(t: StringType, s: bytes): bytes {
    ProtectTrailingSpace(t, EncodeBody(t, s))
  }

  // ---------------------------------------------------------------------------
  // Decoding
  // ---------------------------------------------------------------------------

  function HexValue(c: byte): (r: int)
    ensures -1 <= r < 16
  {
    if 48 <= c <= 57 then c as int - 48
    else if 97 <= c <= 102 then c as int - 87
    else if 65 <= c <= 70 then c as int - 55
    else -1
  }

  /** KConfigIniBackend::charFromHex: an invalid digit gives 'x'. */
  function CharFromHex(a: byte, b: byte): byte {
    if HexValue(a) < 0 || HexValue(b) < 0 then LOWER_X
    else (HexValue(a) * 16 + HexValue(b)) as byte
  }

  datatype Decoded = Decoded(ok: bool, out: bytes) {
    function Prepend(b: bytes): Decoded {
      Decoded(ok, b + out)
    }
  }

  /** Left-to-right decoding. It stops with !ok at the first invalid escape sequence, and
      out is then what was decoded before it. */
  function Unescape(s: bytes): (r: Decoded)
    ensures |r.out| + (if r.ok then 0 else 2) <= |s|
    decreases |s|
  {
    if s == [] then Decoded(true, [])
    else if s[0] != BACKSLASH then Unescape(s[1..]).Prepend([s[0]])
    else if |s| == 1 then Decoded(true, [])
    else if s[1] == LOWER_S then Unescape(s[2..]).Prepend([SPACE])
    else if s[1] == LOWER_T then Unescape(s[2..]).Prepend([TAB])
    else if s[1] == LOWER_N then Unescape(s[2..]).Prepend([NEWLINE])
    else if s[1] == LOWER_R then Unescape(s[2..]).Prepend([RETURN])
    else if s[1] == BACKSLASH then Unescape(s[2..]).Prepend([BACKSLASH])
    else if s[1] == SEMICOLON then Unescape(s[2..]).Prepend([BACKSLASH, SEMICOLON])
    else if s[1] == COMMA then Unescape(s[2..]).Prepend([BACKSLASH, COMMA])
    else if s[1] == LOWER_X then
      if |s| >= 4 then Unescape(s[4..]).Prepend([CharFromHex(s[2], s[3])])
      else Decoded(true, [LOWER_X])
    else Decoded(false, [])
  }

  /** KConfigIniBackend::printableToString: its result and the contents of its view afterwards.
      When it gives up, the view keeps its trimmed length: the decoded part, a backslash, and
      whatever the buffer held behind them. */
  function Decode(s: bytes): Decoded {
    if BACKSLASH !in s then Decoded(true, s)
    else
      var t := Trimmed(s);
      var u := Unescape(t);
      if u.ok then u else Decoded(false, u.out + [BACKSLASH] + t[|u.out| + 1..])
  }
}
