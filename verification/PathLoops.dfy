/** Path entries as they are written and read (src/core/kconfiggroup.cpp:401-452, 778-807,
    1070-1095), proved against the functions of module Paths. */
module PathLoops {
  import opened Bytes
  import opened PathComponents
  import opened Lists
  import opened ListLoops
  import opened Expand
  import opened Paths

  /** cleanHomeDirPath abbreviates exactly the paths at or below the home directory, component
      by component: the components of the home directory give way to $HOME. */
  method CleanHome(path: bytes, home: bytes) returns (edited: bytes, changed: bool)
    ensures changed <==> home != [] && Components(SLASH, home) <= Components(SLASH, path)
    ensures !changed ==> edited == path
    ensures changed ==>
            Components(SLASH, edited) == [HOME_REFERENCE] + Components(SLASH, path)[|Components(SLASH, home)|..]
    ensures edited == CleanHomeDirPath(path, home)
  {
    hide Components;
    edited, changed := path, false;
    BelowIsPathPrefix(SLASH, path, home);
    if !(home <= path) {
      return;
    }
    var len := |home|;
    if len != 0 && (|path| == len || path[len] == SLASH) {
      edited, changed := HOME_REFERENCE + path[len..], true;
      HomeComponents(home, path[len..]);
      assert path == home + path[len..];
    }
  }

  lemma HomeComponents(home: bytes, tail: bytes)
    requires tail == [] || tail[0] == SLASH
    ensures Components(SLASH, home) <= Components(SLASH, home + tail)
    ensures Components(SLASH, HOME_REFERENCE + tail)
            == [HOME_REFERENCE] + Components(SLASH, home + tail)[|Components(SLASH, home)|..]
  {
    hide Components;
    FirstComponent(SLASH, HOME_REFERENCE, []);
    if tail == [] {
      assert home + tail == home && HOME_REFERENCE + tail == HOME_REFERENCE;
    } else {
      var rest := tail[1..];
      assert tail == [SLASH] + rest;
      assert home + tail == home + [SLASH] + rest && HOME_REFERENCE + tail == HOME_REFERENCE + [SLASH] + rest;
      ComponentsConcat(SLASH, home, rest);
      ComponentsConcat(SLASH, HOME_REFERENCE, rest);
    }
  }

  /** translatePath. */
  method TranslatePath(env: Environment, path: bytes) returns (r: bytes)
    ensures r == Translated(env, path)
  {
    hide Replaced;
    if path == [] {
      return path;
    }
    r := Replace(path, DOLLAR, [DOLLAR, DOLLAR]);
    if IsRelativePath(r) {
      return;
    }
    var edited, _ := CleanHome(r, env.Value(HOME));
    r := edited;
  }

  /** writePathEntry for a list, up to the entry's value. */
  method WritePathList(env: Environment, list: seq<bytes>) returns (value: QByteArray)
    ensures value == WrittenPaths(env, list)
  {
    hide Translated;
    var translated: seq<bytes> := [];
    var i := 0;
    assert list[0..] == list;
    while i < |list|
      invariant 0 <= i <= |list|
      invariant AllTranslated(env, list) == translated + AllTranslated(env, list[i..])
    {
      assert list[i..][1..] == list[i + 1..];
      var path := TranslatePath(env, list[i]);
      Append(translated, path, AllTranslated(env, list[i + 1..]));
      translated := translated + [path];
      i := i + 1;
    }
    assert translated + [] == translated;
    value := SerializeList(translated);
  }

  lemma Append(s: seq<bytes>, x: bytes, t: seq<bytes>)
    ensures s + ([x] + t) == s + [x] + t
  {
  }

  /** readPathEntry for a list, from the entry's text. */
  method ReadPathList(env: Environment, data: bytes) returns (list: seq<bytes>)
    ensures list == ReadPaths(env, data)
  {
    var expanded := ExpandString(env, data);
    list := DeserializeList(expanded);
  }
}
