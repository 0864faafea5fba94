/** printableToString as the source runs it: in place, with a read index i and a write
    position r in the same buffer (src/core/kconfigini.cpp:706-797). */
module DecoderLoop {
  import opened Bytes
  import opened IniCodec

  /** KConfigIniBackend::charFromHex on the two characters at `at`. */
  method ParseHexPair(buf: array<byte>, at: nat) returns (c: byte)
    requires at + 1 < buf.Length
    ensures c == CharFromHex(buf[at], buf[at + 1])
  {
    var ret: int := 0;
    var i := 0;
    while i < 2
      invariant 0 <= i <= 2
      invariant i == 0 ==> ret == 0
      invariant i >= 1 ==> HexValue(buf[at]) >= 0
      invariant i == 1 ==> ret == HexValue(buf[at])
      invariant i == 2 ==> HexValue(buf[at + 1]) >= 0 && ret == HexValue(buf[at]) * 16 + HexValue(buf[at + 1])
    {
      var digit := HexValue(buf[at + i]);
      if digit < 0 {
        return LOWER_X;
      }
      ret := ret * 16 + digit;
      i := i + 1;
    }
    c := ret as byte;
  }

  /** QByteArrayView::trimmed on the view [lo, hi) of a buffer. */
  method Trim(buf: array<byte>, lo: nat, hi: nat) returns (lo': nat, hi': nat)
    requires lo <= hi <= buf.Length
    ensures lo <= lo' <= hi' <= hi
    ensures buf[lo'..hi'] == Trimmed(buf[lo..hi])
  {
    lo', hi' := lo, hi;
    while lo' < hi' && IsSpace(buf[lo'])
      invariant lo <= lo' <= hi
      invariant Trimmed(buf[lo'..hi]) == Trimmed(buf[lo..hi])
    {
      assert buf[lo'..hi][1..] == buf[lo' + 1..hi];
      lo' := lo' + 1;
    }
    while lo' < hi' && IsSpace(buf[hi' - 1])
      invariant lo' <= hi' <= hi
      invariant lo' < hi' ==> !IsSpace(buf[lo'])
      invariant Trimmed(buf[lo'..hi']) == Trimmed(buf[lo..hi])
    {
      assert buf[lo'..hi'][..hi' - lo' - 1] == buf[lo'..hi' - 1];
      hi' := hi' - 1;
    }
    assert NoOuterSpace(buf[lo'..hi']);
  }

  /** The buffer between two turns of the loop, `was` being the buffer before it: what is
      decoded so far sits between the start of the view and r, the read position is never
      behind r, and no byte from r on has been overwritten. */
  ghost predicate Halfway(was: bytes, now: bytes, lo: nat, hi: nat, i: nat, r: nat, done: bytes) {
    && lo <= r <= i <= hi <= |was| == |now|
    && r == lo + |done|
    && now == was[..lo] + done + was[r..]
    && Unescape(was[lo..hi]) == Unescape(was[i..hi]).Prepend(done)
  }

  /** What the loop leaves behind when it ends at r. */
  ghost predicate Stopped(was: bytes, now: bytes, lo: nat, hi: nat, ok: bool, r: nat) {
    && lo <= r <= hi <= |was| == |now|
    && now[..lo] == was[..lo]
    && now[hi..] == was[hi..]
    && Decoded(ok, now[lo..r]) == Unescape(was[lo..hi])
    && (!ok ==> r < hi && now[r..hi] == [BACKSLASH] + was[r + 1..hi])
  }

  lemma Begin(was: bytes, lo: nat, hi: nat)
    requires lo <= hi <= |was|
    ensures Halfway(was, was, lo, hi, lo, lo, [])
  {
  }

  lemma Unread(was: bytes, now: bytes, lo: nat, hi: nat, i: nat, r: nat, done: bytes)
    requires Halfway(was, now, lo, hi, i, r, done)
    ensures now[i..hi] == was[i..hi]
  {
  }

  /** A turn that reads n bytes and writes out. */
  lemma Turn(was: bytes, now: bytes, lo: nat, hi: nat, i: nat, r: nat, done: bytes, n: nat, out: bytes, now': bytes)
    requires Halfway(was, now, lo, hi, i, r, done)
    requires |out| <= n && i + n <= hi
    requires Unescape(now[i..hi]) == Unescape(now[i + n..hi]).Prepend(out)
    requires now' == now[..r] + out + now[r + |out|..]
    ensures Halfway(was, now', lo, hi, i + n, r + |out|, done + out)
  {
    hide Unescape;
    Unread(was, now, lo, hi, i, r, done);
    assert now[i + n..hi] == now[i..hi][n..] == was[i..hi][n..] == was[i + n..hi];
    assert now[..r] == was[..lo] + done;
    assert now[r + |out|..] == was[r + |out|..];
    var next := Unescape(was[i + n..hi]);
    assert done + (out + next.out) == done + out + next.out;
  }

  /** All is read, or one backslash is left. */
  lemma Finish(was: bytes, now: bytes, lo: nat, hi: nat, i: nat, r: nat, done: bytes, now': bytes)
    requires Halfway(was, now, lo, hi, i, r, done)
    requires (i == hi && now' == now) || (i + 1 == hi && now[i] == BACKSLASH
             && now' == now[..r] + [BACKSLASH] + now[r + 1..])
    ensures Stopped(was, now', lo, hi, true, r)
  {
    Unread(was, now, lo, hi, i, r, done);
    assert now'[lo..r] == now[lo..r] == done;
    assert now[hi..] == was[hi..] && now'[hi..] == now[hi..];
    assert now[..lo] == was[..lo] && now'[..lo] == now[..lo];
    var rest := was[i..hi];
    if i == hi {
      assert rest == [];
    } else {
      assert rest == [BACKSLASH];
    }
    assert Unescape(rest) == Decoded(true, []);
  }

  lemma GiveUp(was: bytes, now: bytes, lo: nat, hi: nat, i: nat, r: nat, done: bytes, now': bytes)
    requires Halfway(was, now, lo, hi, i, r, done) && i < hi
    requires Unescape(now[i..hi]) == Decoded(false, [])
    requires now' == now[..r] + [BACKSLASH] + now[r + 1..]
    ensures Stopped(was, now', lo, hi, false, r)
  {
    hide Unescape;
    Unread(was, now, lo, hi, i, r, done);
    assert now'[lo..r] == now[lo..r] == done;
    assert now[hi..] == was[hi..] && now'[hi..] == now[hi..];
    assert now[..lo] == was[..lo] && now'[..lo] == now[..lo];
    assert now'[r..hi] == [BACKSLASH] + now[r + 1..hi];
    assert now[r + 1..hi] == was[r + 1..hi];
  }

  /** The switch: n bytes are read at i, and out is what they stand for. */
  method ReadOne(buf: array<byte>, hi: nat, i: nat) returns (ok: bool, n: nat, out: bytes)
    requires i < hi <= buf.Length
    requires buf[i] == BACKSLASH ==> i + 1 < hi
    ensures |out| <= 2 && |out| <= n && 0 < n && i + n <= hi
    ensures ok ==> Unescape(buf[i..hi]) == Unescape(buf[i + n..hi]).Prepend(out)
    ensures !ok ==> out == [BACKSLASH] && Unescape(buf[i..hi]) == Decoded(false, [])
  {
    ghost var s := buf[i..hi];
    assert buf[i] == s[0] && s[1..] == buf[i + 1..hi];
    if buf[i] != BACKSLASH {
      return true, 1, [buf[i]];
    }
    var e := buf[i + 1];
    assert e == s[1] && s[2..] == buf[i + 2..hi];
    ok, n := true, 2;
    if e == LOWER_S {
      out := [SPACE];
    } else if e == LOWER_T {
      out := [TAB];
    } else if e == LOWER_N {
      out := [NEWLINE];
    } else if e == LOWER_R {
      out := [RETURN];
    } else if e == BACKSLASH {
      out := [BACKSLASH];
    } else if e == SEMICOLON || e == COMMA {
      out := [BACKSLASH, e];
    } else if e == LOWER_X {
      if i + 3 < hi {
        var x := ParseHexPair(buf, i + 2);
        assert s[4..] == buf[i + 4..hi];
        n, out := 4, [x];
      } else {
        n, out := hi - i, [LOWER_X];
        assert buf[hi..hi] == [];
      }
    } else {
      ok, out := false, [BACKSLASH];
    }
  }

  /** The one or two assignments through r. */
  method Put(buf: array<byte>, r: nat, out: bytes)
    requires r + |out| <= buf.Length && |out| <= 2
    modifies buf
    ensures buf[..] == old(buf[..r]) + out + old(buf[r + |out|..])
  {
    if |out| >= 1 {
      buf[r] := out[0];
    }
    if |out| == 2 {
      buf[r + 1] := out[1];
    }
  }

  /** The loop itself, on a view that is already trimmed. */
  method DecodeView(buf: array<byte>, lo: nat, hi: nat) returns (ok: bool, r: nat)
    requires lo <= hi <= buf.Length
    modifies buf
    ensures Stopped(old(buf[..]), buf[..], lo, hi, ok, r)
  {
    hide *;
    ghost var was, done := buf[..], [];
    var i: nat := lo;
    r := lo;
    Begin(was, lo, hi);
    while i < hi
      invariant i <= hi && r <= i
      invariant Halfway(was, buf[..], lo, hi, i, r, done)
      decreases hi - i
    {
      ghost var now := buf[..];
      if buf[i] == BACKSLASH && i + 1 == hi {
        // the line ends after a backslash, which is written but not kept
        Put(buf, r, [BACKSLASH]);
        Finish(was, now, lo, hi, i, r, done, buf[..]);
        return true, r;
      }
      var good, n, out := ReadOne(buf, hi, i);
      Put(buf, r, out);
      if !good {
        GiveUp(was, now, lo, hi, i, r, done, buf[..]);
        return false, r;
      }
      Turn(was, now, lo, hi, i, r, done, n, out, buf[..]);
      done := done + out;
      i, r := i + n, r + |out|;
    }
    Finish(was, buf[..], lo, hi, i, r, done, buf[..]);
    ok := true;
  }

  lemma Outside(was: bytes, now: bytes, lo: nat, hi: nat, lo': nat, hi': nat)
    requires lo <= lo' <= hi' <= hi <= |was| == |now|
    requires now[..lo'] == was[..lo'] && now[hi'..] == was[hi'..]
    ensures now[..lo] == was[..lo] && now[hi..] == was[hi..]
  {
    assert now[..lo] == now[..lo'][..lo] && was[..lo] == was[..lo'][..lo];
    assert now[hi..] == now[hi'..][hi - hi'..] && was[hi..] == was[hi'..][hi - hi'..];
  }

  lemma LeftOver(was: bytes, now: bytes, lo: nat, hi: nat, r: nat, out: bytes)
    requires lo <= r < hi <= |was| == |now|
    requires now[lo..r] == out && now[r..hi] == [BACKSLASH] + was[r + 1..hi]
    ensures |out| < |was[lo..hi]|
    ensures now[lo..hi] == out + [BACKSLASH] + was[lo..hi][|out| + 1..]
  {
    assert now[lo..hi] == now[lo..r] + now[r..hi];
    assert was[lo..hi][|out| + 1..] == was[r + 1..hi];
  }

  /** Decodes the view [lo, hi) in place: the view becomes [lo', hi'), nothing outside it is
      touched, and what it holds is Decode of what it held. */
  method PrintableToString(buf: array<byte>, lo: nat, hi: nat) returns (ok: bool, lo': nat, hi': nat)
    requires lo <= hi <= buf.Length
    modifies buf
    ensures lo <= lo' <= hi' <= hi
    ensures buf[..lo] == old(buf[..lo]) && buf[hi..] == old(buf[hi..])
    ensures Decoded(ok, buf[lo'..hi']) == Decode(old(buf[lo..hi]))
  {
    hide Unescape, Trimmed;
    if lo == hi || BACKSLASH !in buf[lo..hi] {
      return true, lo, hi;
    }
    ghost var was := buf[..];
    lo', hi' := Trim(buf, lo, hi);
    var r;
    ok, r := DecodeView(buf, lo', hi');
    ghost var now := buf[..];
    Outside(was, now, lo, hi, lo', hi');
    if ok {
      hi' := r;
    } else {
      LeftOver(was, now, lo', hi', r, now[lo'..r]);
    }
  }
}
