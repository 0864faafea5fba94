/** Variables in values (src/core/kconfig.cpp:192-251): the loop that edits the string behind a
    moving cursor, and the one-pass expansion that it amounts to. */
module Expand {
  import opened Bytes

  const HOME: bytes := [72, 79, 77, 69] // "HOME"
  const QT_DATA_HOME: bytes := [81, 84, 95, 68, 65, 84, 65, 95, 72, 79, 77, 69]
  const QT_CONFIG_HOME: bytes := [81, 84, 95, 67, 79, 78, 70, 73, 71, 95, 72, 79, 77, 69]
  const QT_CACHE_HOME: bytes := [81, 84, 95, 67, 65, 67, 72, 69, 95, 72, 79, 77, 69]

  /** The environment variables, the standard locations, and the characters beyond ASCII that
      are letters or numbers. */
  datatype Environment = Environment(
    vars: map<bytes, bytes>,
    dataLocation: bytes,
    configLocation: bytes,
    cacheLocation: bytes,
    letters: set<byte>)
  {
    /** An unset variable is empty; an empty one falls back on the location it names. */
    function Value(name: bytes): bytes {
      if name in vars && vars[name] != [] then vars[name]
      else if name == QT_DATA_HOME then dataLocation
      else if name == QT_CONFIG_HOME then configLocation
      else if name == QT_CACHE_HOME then cacheLocation
      else []
    }

    /** isNumber, isLetter or '_'. */
    predicate InName(c: byte) {
      || 48 <= c <= 57
      || 65 <= c <= 90
      || 97 <= c <= 122
      || c == UNDERSCORE
      || (c >= 128 && c in letters)
    }
  }

  // ---------------------------------------------------------------------------
  // One pass
  // ---------------------------------------------------------------------------

  function NameLength(env: Environment, s: bytes): (n: nat)
    ensures n <= |s|
  {
    if s == [] || !env.InName(s[0]) then 0 else 1 + NameLength(env, s[1..])
  }

  /** A name, and how many characters it takes with what surrounds it. */
  datatype Reference = Reference(name: bytes, length: nat)

  /** The reference at the '$' that s starts with. A '{' that is not closed takes the rest. */
  function ReferenceAt(env: Environment, s: bytes): (r: Reference)
    requires |s| >= 2
    ensures 0 < r.length <= |s|
  {
    if s[1] == OPEN_BRACE then
      var e := IndexOf(s[2..], CLOSE_BRACE);
      if e < 0 then Reference(s[2..], |s|) else Reference(s[2..][..e], e + 3)
    else
      var n := NameLength(env, s[1..]);
      Reference(s[1..][..n], 1 + n)
  }

  function Substituted(env: Environment, name: bytes): bytes {
    if name == [] then [] else env.Value(name)
  }

  /** What is put in for a reference is not looked at again. */
  function Expanded(env: Environment, s: bytes): bytes
    decreases |s|
  {
    if s == [] then []
    else if s[0] != DOLLAR then [s[0]] + Expanded(env, s[1..])
    else if |s| == 1 then s
    else if s[1] == DOLLAR then [DOLLAR] + Expanded(env, s[2..])
    else
      var r := ReferenceAt(env, s);
      Substituted(env, r.name) + Expanded(env, s[r.length..])
  }

  lemma ExpandedStep(env: Environment, b: byte, s: bytes)
    ensures b != DOLLAR ==> Expanded(env, [b] + s) == [b] + Expanded(env, s)
    ensures Expanded(env, [DOLLAR, DOLLAR] + s) == [DOLLAR] + Expanded(env, s)
  {
    hide ReferenceAt;
    assert ([b] + s)[1..] == s && ([DOLLAR, DOLLAR] + s)[2..] == s;
  }

  lemma ExpandedNothing(env: Environment)
    ensures Expanded(env, []) == []
  {
  }

  lemma {:induction false} ExpandedPlain(env: Environment, t: bytes, s: bytes)
    requires DOLLAR !in t
    ensures Expanded(env, t + s) == t + Expanded(env, s)
    decreases |t|
  {
    hide Expanded;
    if t == [] {
      assert t + s == s;
    } else {
      var u := t[1..] + s;
      assert t + s == [t[0]] + u;
      ExpandedStep(env, t[0], u);
      ExpandedPlain(env, t[1..], s);
      assert [t[0]] + (t[1..] + Expanded(env, s)) == t + Expanded(env, s);
    }
  }

  // ---------------------------------------------------------------------------
  // The loop
  // ---------------------------------------------------------------------------

  method FindBrace(a: bytes, from: nat) returns (end: nat)
    requires from <= |a|
    ensures from <= end <= |a| && CLOSE_BRACE !in a[from..end] && (end < |a| ==> a[end] == CLOSE_BRACE)
  {
    end := from;
    while end < |a| && a[end] != CLOSE_BRACE
      invariant from <= end <= |a| && CLOSE_BRACE !in a[from..end]
    {
      assert a[from..end + 1] == a[from..end] + [a[end]];
      end := end + 1;
    }
  }

  method FindNameEnd(env: Environment, a: bytes, from: nat) returns (end: nat)
    requires from <= |a|
    ensures end == from + NameLength(env, a[from..])
  {
    hide Environment.InName;
    end := from;
    while end < |a| && env.InName(a[end])
      invariant from <= end <= |a|
      invariant NameLength(env, a[from..]) == end - from + NameLength(env, a[end..])
    {
      assert a[end..][1..] == a[end + 1..];
      end := end + 1;
    }
  }

  /** The inner loops: the position behind the reference at pos, which is one too far behind
      a '{' that is not closed, and the name. */
  method ReadName(env: Environment, a: bytes, pos: nat) returns (end: nat, name: bytes)
    requires pos + 1 < |a|
    ensures pos < end <= |a| + 1
    ensures var r := ReferenceAt(env, a[pos..]);
            name == r.name && r.length == (if end > |a| then |a| else end) - pos
  {
    hide ReferenceAt, NameLength;
    if a[pos + 1] == OPEN_BRACE {
      end := FindBrace(a, pos + 2);
      BraceAt(env, a, pos, end);
      name := a[pos + 2..end];
      end := end + 1;
    } else {
      end := FindNameEnd(env, a, pos + 1);
      NameAt(env, a, pos, end);
      name := a[pos + 1..end];
    }
  }

  lemma NameAt(env: Environment, a: bytes, pos: nat, end: nat)
    requires pos + 1 < |a| && a[pos + 1] != OPEN_BRACE && end == pos + 1 + NameLength(env, a[pos + 1..])
    ensures ReferenceAt(env, a[pos..]) == Reference(a[pos + 1..end], end - pos)
  {
    hide NameLength;
    var s := a[pos..];
    assert s[1] == a[pos + 1] && s[1..] == a[pos + 1..];
    assert a[pos + 1..][..end - pos - 1] == a[pos + 1..end];
  }

  lemma BraceAt(env: Environment, a: bytes, pos: nat, end: nat)
    requires pos + 2 <= end <= |a| && a[pos + 1] == OPEN_BRACE
    requires CLOSE_BRACE !in a[pos + 2..end]
    requires end < |a| ==> a[end] == CLOSE_BRACE
    ensures ReferenceAt(env, a[pos..]) == Reference(a[pos + 2..end], (if end == |a| then |a| else end + 1) - pos)
  {
    var s := a[pos..];
    assert s[1] == OPEN_BRACE && s[2..] == a[pos + 2..];
    if end == |a| {
      assert a[pos + 2..end] == a[pos + 2..];
    } else {
      IndexOfConcat(a[pos + 2..end], CLOSE_BRACE, a[end + 1..]);
      assert a[pos + 2..] == a[pos + 2..end] + [CLOSE_BRACE] + a[end + 1..];
      assert s[2..][..end - pos - 2] == a[pos + 2..end];
    }
  }

  /** indexOf with a position to start from. */
  method FindDollar(a: bytes, from: nat) returns (pos: int)
    requires from <= |a|
    ensures pos == -1 || from <= pos < |a|
    ensures pos == -1 ==> DOLLAR !in a[from..]
    ensures pos >= 0 ==> a[pos] == DOLLAR && DOLLAR !in a[from..pos]
  {
    var i := IndexOf(a[from..], DOLLAR);
    if i < 0 {
      return -1;
    }
    pos := from + i;
    assert a[from..][..i] == a[from..pos];
  }

  /** The text in front of the cursor is final; what is behind it is still to be expanded. */
  ghost predicate Halfway(env: Environment, value: bytes, a: bytes, from: nat) {
    from <= |a| && Expanded(env, value) == a[..from] + Expanded(env, a[from..])
  }

  lemma Skip(env: Environment, value: bytes, a: bytes, from: nat, pos: nat)
    requires Halfway(env, value, a, from) && from <= pos <= |a| && DOLLAR !in a[from..pos]
    ensures Halfway(env, value, a, pos)
  {
    hide Expanded;
    ExpandedPlain(env, a[from..pos], a[pos..]);
    assert a[from..] == a[from..pos] + a[pos..] && a[..from] + a[from..pos] == a[..pos];
    ConcatAssociative(a[..from], a[from..pos], Expanded(env, a[pos..]));
  }

  lemma Done(env: Environment, value: bytes, a: bytes, from: nat)
    requires Halfway(env, value, a, from)
    requires DOLLAR !in a[from..] || from + 1 == |a|
    ensures Expanded(env, value) == a
  {
    hide Expanded;
    assert a[..from] + a[from..] == a;
    NothingToExpand(env, a[from..]);
  }

  lemma NothingToExpand(env: Environment, s: bytes)
    ensures DOLLAR !in s || |s| == 1 ==> Expanded(env, s) == s
  {
    hide ReferenceAt;
    ExpandedNothing(env);
    if DOLLAR !in s {
      ExpandedPlain(env, s, []);
      assert s + [] == s;
    }
  }

  /** n characters at pos are replaced by the text that they expand to. */
  lemma Edit(env: Environment, value: bytes, a: bytes, pos: nat, n: nat, text: bytes, a': bytes)
    requires Halfway(env, value, a, pos) && pos + n <= |a|
    requires Expanded(env, a[pos..]) == text + Expanded(env, a[pos..][n..])
    requires a' == a[..pos] + text + a[pos + n..]
    ensures Halfway(env, value, a', pos + |text|)
  {
    hide Expanded;
    assert a[pos..][n..] == a[pos + n..];
    assert a'[..pos + |text|] == a[..pos] + text && a'[pos + |text|..] == a[pos + n..];
    ConcatAssociative(a[..pos], text, Expanded(env, a[pos + n..]));
  }

  lemma DollarAt(env: Environment, a: bytes, pos: nat)
    requires pos + 1 < |a| && a[pos] == DOLLAR
    ensures var s := a[pos..];
            if a[pos + 1] == DOLLAR then Expanded(env, s) == [DOLLAR] + Expanded(env, s[2..])
            else
              var r := ReferenceAt(env, s);
              Expanded(env, s) == Substituted(env, r.name) + Expanded(env, s[r.length..])
  {
    hide ReferenceAt, Substituted;
    assert a[pos..][1] == a[pos + 1];
  }

  /** expandString. */
  method ExpandString(env: Environment, value: bytes) returns (a: bytes)
    ensures a == Expanded(env, value)
  {
    hide Expanded, ReferenceAt, Halfway;
    a := value;
    ghost var from: nat := 0;
    Start(env, value);
    var pos := FindDollar(a, 0);
    while pos != -1 && pos + 1 < |a|
      invariant from <= |a| && Halfway(env, value, a, from)
      invariant pos == -1 ==> DOLLAR !in a[from..]
      invariant pos != -1 ==> from <= pos < |a| && a[pos] == DOLLAR && DOLLAR !in a[from..pos]
      decreases |a| - from
    {
      Skip(env, value, a, from, pos);
      DollarAt(env, a, pos);
      ghost var was := a;
      if a[pos + 1] != DOLLAR {
        var end, name := ReadName(env, a, pos);
        var behind := if end > |a| then |a| else end;
        var text := Substituted(env, name);
        a := a[..pos] + text + a[behind..];
        Edit(env, value, was, pos, behind - pos, text, a);
        pos := pos + |text|;
      } else {
        a := a[..pos] + a[pos + 1..];
        assert a == was[..pos] + [DOLLAR] + was[pos + 2..];
        Edit(env, value, was, pos, 2, [DOLLAR], a);
        pos := pos + 1;
      }
      from := pos;
      pos := FindDollar(a, pos);
    }
    if pos != -1 {
      Skip(env, value, a, from, pos);
      Done(env, value, a, pos);
    } else {
      Done(env, value, a, from);
    }
  }

  lemma Start(env: Environment, value: bytes)
    ensures Halfway(env, value, value, 0)
  {
    hide Expanded;
    assert value[0..] == value;
    assert [] + Expanded(env, value) == Expanded(env, value);
  }
}
