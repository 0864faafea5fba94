/** What a reference to a variable comes to, with the names spelled out
    (src/core/kconfig.cpp:192-251). */
module Variables {
  import opened Bytes
  import opened Expand

  predicate NameCharacter(env: Environment, c: byte) {
    || c in Ascii("0123456789")
    || c in Ascii("ABCDEFGHIJKLMNOPQRSTUVWXYZ")
    || c in Ascii("abcdefghijklmnopqrstuvwxyz")
    || c in Ascii("_")
    || (c >= 128 && c in env.letters)
  }

  /** The variable's value; one of three names has a location instead if it is not set or
      empty, every other one nothing. */
  ghost predicate IsValueOf(env: Environment, name: bytes, v: bytes) {
    if name in env.vars && env.vars[name] != [] then v == env.vars[name]
    else
      && (name == Ascii("QT_DATA_HOME") ==> v == env.dataLocation)
      && (name == Ascii("QT_CONFIG_HOME") ==> v == env.configLocation)
      && (name == Ascii("QT_CACHE_HOME") ==> v == env.cacheLocation)
      && (name !in {Ascii("QT_DATA_HOME"), Ascii("QT_CONFIG_HOME"), Ascii("QT_CACHE_HOME")} ==> v == [])
  }

  /** A run of the alphabet. */
  lemma InRun(s: string, first: byte, c: byte)
    requires forall i :: 0 <= i < |s| ==> s[i] < 128 as char && s[i] as int == first as int + i
    requires |s| as int + first as int <= 128
    ensures c in Ascii(s) <==> first <= c && (c as int) < first as int + |s|
  {
    if first <= c && (c as int) < first as int + |s| {
      AsciiAt(s, c as int - first as int);
    }
    if c in Ascii(s) {
      var i :| 0 <= i < |Ascii(s)| && Ascii(s)[i] == c;
      AsciiAt(s, i);
    }
  }

  lemma NameCharacters(env: Environment, c: byte)
    ensures NameCharacter(env, c) <==> env.InName(c)
  {
    hide Ascii;
    InRun("0123456789", 48, c);
    InRun("ABCDEFGHIJKLMNOPQRSTUVWXYZ", 65, c);
    InRun("abcdefghijklmnopqrstuvwxyz", 97, c);
    InRun("_", 95, c);
  }

  lemma NamesSpelled()
    ensures Ascii("HOME") == HOME && Ascii("QT_DATA_HOME") == QT_DATA_HOME
    ensures Ascii("QT_CONFIG_HOME") == QT_CONFIG_HOME && Ascii("QT_CACHE_HOME") == QT_CACHE_HOME
    ensures |QT_DATA_HOME| == 12 && |QT_CONFIG_HOME| == 14 && |QT_CACHE_HOME| == 13
  {
  }

  lemma ValueIs(env: Environment, name: bytes)
    ensures IsValueOf(env, name, env.Value(name))
  {
    hide Ascii;
    NamesSpelled();
  }

  lemma {:induction false} NameTaken(env: Environment, name: bytes, rest: bytes)
    requires forall c :: c in name ==> NameCharacter(env, c)
    requires rest != [] ==> !NameCharacter(env, rest[0])
    ensures NameLength(env, name + rest) == |name|
    decreases |name|
  {
    hide NameCharacter;
    if name == [] {
      assert name + rest == rest;
      if rest != [] {
        NameCharacters(env, rest[0]);
      }
    } else {
      NameCharacters(env, name[0]);
      assert (name + rest)[1..] == name[1..] + rest;
      NameTaken(env, name[1..], rest);
    }
  }

  lemma NoBraceNoDollar(env: Environment, c: byte)
    requires NameCharacter(env, c)
    ensures c != OPEN_BRACE && c != DOLLAR
  {
    hide NameCharacter;
    NameCharacters(env, c);
  }

  /** `$name` in front of something that does not continue the name. */
  lemma NamedVariable(env: Environment, name: bytes, rest: bytes) returns (v: bytes)
    requires name != [] && forall c :: c in name ==> NameCharacter(env, c)
    requires rest != [] ==> !NameCharacter(env, rest[0])
    ensures IsValueOf(env, name, v) && Expanded(env, Ascii("$") + name + rest) == v + Expanded(env, rest)
  {
    hide NameCharacter, IsValueOf, Environment.Value, NameLength, Ascii;
    DollarSpelled();
    var s := Ascii("$") + name + rest;
    NoBraceNoDollar(env, name[0]);
    NameTaken(env, name, rest);
    assert s[1..] == name + rest && s[1] == name[0];
    assert ReferenceAt(env, s) == Reference(name, 1 + |name|) by { assert (name + rest)[..|name|] == name; }
    assert s[1 + |name|..] == rest;
    ValueIs(env, name);
    v := env.Value(name);
  }

  lemma DollarSpelled()
    ensures Ascii("$") == [DOLLAR] && Ascii("{") == [OPEN_BRACE] && Ascii("}") == [CLOSE_BRACE]
  {
  }

  /** `${name}`, whatever characters the name has; `${}` is nothing. */
  lemma BracedVariable(env: Environment, name: bytes, rest: bytes) returns (v: bytes)
    requires CLOSE_BRACE !in name
    ensures if name == [] then v == [] else IsValueOf(env, name, v)
    ensures Expanded(env, Ascii("$") + Ascii("{") + name + Ascii("}") + rest) == v + Expanded(env, rest)
  {
    hide IsValueOf, Environment.Value, Ascii, IndexOf;
    DollarSpelled();
    var s := Ascii("$") + Ascii("{") + name + Ascii("}") + rest;
    assert s[2..] == name + [CLOSE_BRACE] + rest;
    IndexOfConcat(name, CLOSE_BRACE, rest);
    assert s[2..][..|name|] == name && s[|name| + 3..] == rest;
    ValueIs(env, name);
    v := Substituted(env, name);
  }

  /** A brace that is not closed takes the rest. */
  lemma UnclosedVariable(env: Environment, name: bytes) returns (v: bytes)
    requires CLOSE_BRACE !in name
    ensures if name == [] then v == [] else IsValueOf(env, name, v)
    ensures Expanded(env, Ascii("$") + Ascii("{") + name) == v
  {
    hide IsValueOf, Environment.Value, Ascii, IndexOf;
    DollarSpelled();
    var s := Ascii("$") + Ascii("{") + name;
    assert s[2..] == name && s[|s|..] == [];
    ExpandedNothing(env);
    ValueIs(env, name);
    v := Substituted(env, name);
    assert Expanded(env, s) == v + Expanded(env, []) == v;
  }

  /** A doubled dollar is one dollar, a dollar at the end or in front of any other character that
      cannot start a name stands for nothing but itself or nothing. */
  lemma OtherDollars(env: Environment, rest: bytes)
    ensures Expanded(env, Ascii("$") + Ascii("$") + rest) == Ascii("$") + Expanded(env, rest)
    ensures Expanded(env, Ascii("$")) == Ascii("$")
    ensures rest != [] && rest[0] != OPEN_BRACE && rest[0] != DOLLAR && !NameCharacter(env, rest[0]) ==>
              Expanded(env, Ascii("$") + rest) == Expanded(env, rest)
  {
    hide NameCharacter, Ascii;
    DollarSpelled();
    assert ([DOLLAR] + [DOLLAR] + rest)[2..] == rest;
    if rest != [] && rest[0] != OPEN_BRACE && rest[0] != DOLLAR && !NameCharacter(env, rest[0]) {
      var s := [DOLLAR] + rest;
      NameCharacters(env, rest[0]);
      assert s[1..] == rest && s[1] == rest[0];
      assert ReferenceAt(env, s) == Reference([], 1);
    }
  }

  /** Everything else stays. */
  lemma OtherCharacters(env: Environment, c: byte, rest: bytes)
    requires c !in Ascii("$")
    ensures Expanded(env, [c] + rest) == [c] + Expanded(env, rest)
  {
    DollarSpelled();
    ExpandedStep(env, c, rest);
  }
}
