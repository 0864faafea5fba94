/** Files that are immutable as a whole, told from their text, and what that means for the objects
    that are open on them (src/core/kconfigini.cpp:75-147, 273-283, 404-416,
    src/core/kconfig.cpp:433-521, 689-732). */
module ImmutableFiles {
  import opened Bytes
  import opened IniCodec
  import opened CodecLaws
  import opened EntryMap
  import opened IniParser
  import opened IniLines
  import opened IniParserLoop
  import opened Sync
  import opened Clients

  // ---------------------------------------------------------------------------
  // One line
  // ---------------------------------------------------------------------------

  /** The components in brackets, one behind the other. */
  function Bracketings(cs: seq<bytes>): bytes
    decreases |cs|
  {
    if cs == [] then [] else [OPEN] + cs[0] + [CLOSE] + Bracketings(cs[1..])
  }

  predicate Vanishes(c: bytes) {
    CLOSE !in c && Decode(c).out == []
  }

  /** A line `[$i]`, perhaps behind components of which nothing is left. */
  ghost predicate MarksFile(line: bytes) {
    exists cs: seq<bytes> :: (forall c :: c in cs ==> Vanishes(c)) && Trimmed(line) == Bracketings(cs) + Ascii("[$i]")
  }

  lemma MarkSpelled()
    ensures Ascii("[$i]") == [OPEN, DOLLAR, LOWER_I, CLOSE]
  {
  }

  lemma MarkAlone(f: bool, g: bool)
    ensures HeaderParts([DOLLAR, LOWER_I, CLOSE], [], f, g) == Header([], true, g)
  {
    var tail := [DOLLAR, LOWER_I, CLOSE];
    assert tail == [DOLLAR, LOWER_I] + [CLOSE] + [];
    IndexOfConcat([DOLLAR, LOWER_I], CLOSE, []);
    assert tail[..2] == [DOLLAR, LOWER_I];
  }

  lemma PartVanishes(c: bytes, rest: bytes, f: bool, g: bool)
    requires Vanishes(c) && rest != [] && rest[0] == OPEN
    ensures HeaderParts(c + [CLOSE] + rest, [], f, g) == HeaderParts(rest[1..], [], f, g)
  {
    hide Decode, IndexOf;
    var tail := c + [CLOSE] + rest;
    IndexOfConcat(c, CLOSE, rest);
    assert tail[..|c|] == c && tail[|c| + 2..] == rest[1..];
  }

  lemma BracketingsStart(cs: seq<bytes>)
    ensures var t := Bracketings(cs) + [OPEN, DOLLAR, LOWER_I, CLOSE]; t != [] && t[0] == OPEN
  {
  }

  lemma {:induction false} MarkIsRead(cs: seq<bytes>, f: bool, g: bool)
    requires forall c :: c in cs ==> Vanishes(c)
    ensures var t := Bracketings(cs) + [OPEN, DOLLAR, LOWER_I, CLOSE];
            t != [] && HeaderParts(t[1..], [], f, g) == Header([], true, g)
    decreases |cs|
  {
    hide HeaderParts, Vanishes;
    var m := [OPEN, DOLLAR, LOWER_I, CLOSE];
    BracketingsStart(cs);
    if cs == [] {
      assert ([] + m)[1..] == [DOLLAR, LOWER_I, CLOSE];
      MarkAlone(f, g);
    } else {
      var rest := Bracketings(cs[1..]) + m;
      BracketingsStart(cs[1..]);
      assert (Bracketings(cs) + m)[1..] == cs[0] + [CLOSE] + rest;
      PartVanishes(cs[0], rest, f, g);
      MarkIsRead(cs[1..], f, g);
    }
  }

  lemma JoinedEmpty(name: bytes, c: bytes)
    ensures Joined(name, c) == [] ==> name == [] && c == []
  {
  }

  /** Nothing else marks the file. */
  lemma {:induction false} OnlyMarks(tail: bytes, name: bytes, g: bool)
    requires HeaderParts(tail, name, false, g).Header? && HeaderParts(tail, name, false, g).fileImmutable
    ensures name == []
    ensures exists cs: seq<bytes> :: (forall c :: c in cs ==> Vanishes(c))
                                     && [OPEN] + tail == Bracketings(cs) + [OPEN, DOLLAR, LOWER_I, CLOSE]
    decreases |tail|
  {
    hide Decode;
    var e := IndexOf(tail, CLOSE);
    var none: seq<bytes> := [];
    SplitAt(tail, e);
    if e + 1 == |tail| && tail[..e] == [DOLLAR, LOWER_I] {
      assert [OPEN] + tail == Bracketings(none) + [OPEN, DOLLAR, LOWER_I, CLOSE];
    } else {
      var c := tail[..e];
      var name' := Joined(name, Decode(c).out);
      var g' := HeaderParts(tail[e + 2..], name', false, g);
      OnlyMarks(tail[e + 2..], name', g);
      JoinedEmpty(name, Decode(c).out);
      var cs: seq<bytes> :| (forall d :: d in cs ==> Vanishes(d))
                            && [OPEN] + tail[e + 2..] == Bracketings(cs) + [OPEN, DOLLAR, LOWER_I, CLOSE];
      OneMore(tail, c, cs);
    }
  }

  lemma OneMore(tail: bytes, c: bytes, cs: seq<bytes>)
    requires Vanishes(c) && forall d :: d in cs ==> Vanishes(d)
    requires |tail| >= |c| + 2 && tail[..|c|] == c && tail[|c|] == CLOSE && tail[|c| + 1] == OPEN
    requires [OPEN] + tail[|c| + 2..] == Bracketings(cs) + [OPEN, DOLLAR, LOWER_I, CLOSE]
    ensures exists ds: seq<bytes> :: (forall d :: d in ds ==> Vanishes(d))
                                     && [OPEN] + tail == Bracketings(ds) + [OPEN, DOLLAR, LOWER_I, CLOSE]
  {
    hide Vanishes;
    var m, ds := [OPEN, DOLLAR, LOWER_I, CLOSE], [c] + cs;
    assert ds[0] == c && ds[1..] == cs;
    assert Bracketings(ds) == [OPEN] + c + [CLOSE] + Bracketings(cs);
    assert tail == c + [CLOSE] + ([OPEN] + tail[|c| + 2..]);
    assert [OPEN] + tail == Bracketings(ds) + m;
  }

  lemma HeaderMarks(st: ParseState, line: bytes, opts: ParseOptions)
    requires line != [] && line[0] == OPEN && Trimmed(line) == line
    ensures ParseHeader(st, line, opts).fileImmutable <==> st.fileImmutable || MarksFile(line)
  {
    hide HeaderParts, Trimmed, IsImmutable, Bracketings, Vanishes;
    MarkSpelled();
    HeaderKeeps(line[1..], [], st.fileImmutable, st.fileImmutable);
    assert [OPEN] + line[1..] == line;
    if MarksFile(line) {
      var cs: seq<bytes> :| (forall c :: c in cs ==> Vanishes(c)) && Trimmed(line) == Bracketings(cs) + Ascii("[$i]");
      MarkIsRead(cs, st.fileImmutable, st.fileImmutable);
    } else if !st.fileImmutable {
      var r := HeaderParts(line[1..], [], false, false);
      if r.Header? && r.fileImmutable {
        OnlyMarks(line[1..], [], false);
      }
    }
  }

  /** Once set, the flag stays. */
  lemma {:induction false} HeaderKeeps(tail: bytes, name: bytes, f: bool, g: bool)
    ensures var r := HeaderParts(tail, name, f, g); f && r.Header? ==> r.fileImmutable
    decreases |tail|
  {
    hide Decode, Joined;
    var e := IndexOf(tail, CLOSE);
    if e >= 0 && e + 1 < |tail| && tail[e + 1] == OPEN {
      HeaderKeeps(tail[e + 2..], Joined(name, Decode(tail[..e]).out), f, g);
    }
  }

  lemma TrimmedTwice(s: bytes)
    ensures Trimmed(Trimmed(s)) == Trimmed(s)
  {
  }

  lemma MarkStarts(line: bytes)
    requires MarksFile(line)
    ensures Trimmed(line) != [] && Trimmed(line)[0] == OPEN
  {
    hide Trimmed, Vanishes, Bracketings;
    MarkSpelled();
    var cs: seq<bytes> :| (forall c :: c in cs ==> Vanishes(c)) && Trimmed(line) == Bracketings(cs) + Ascii("[$i]");
    BracketingsStart(cs);
  }

  lemma LineMarks(st: ParseState, raw: bytes, opts: ParseOptions)
    ensures ParseLine(st, raw, opts).fileImmutable <==> st.fileImmutable || MarksFile(raw)
  {
    hide ParseHeader, ParseEntry, Trimmed, Bracketings, Vanishes;
    var line := Trimmed(raw);
    TrimmedTwice(raw);
    if MarksFile(raw) {
      MarkStarts(raw);
    }
    if line != [] && line[0] == OPEN {
      HeaderMarks(st, line, opts);
      assert MarksFile(raw) <==> MarksFile(line);
    } else {
      EntryKeepsMark(st, line, opts);
    }
  }

  lemma EntryKeepsMark(st: ParseState, line: bytes, opts: ParseOptions)
    ensures ParseEntry(st, line, opts).fileImmutable == st.fileImmutable
  {
    hide ParseKey, SetEntry, Trimmed, IndexOf, Decode, OwnLocale;
  }

  // ---------------------------------------------------------------------------
  // The whole file
  // ---------------------------------------------------------------------------

  /** A line that is read, because less than a hundred errors come before it, and marks the file. */
  ghost predicate MarkedAt(st: ParseState, text: bytes, opts: ParseOptions, i: nat) {
    && i < |text| && WholeLines(text[..i])
    && ParseText(st, text[..i], opts).errors < 100
    && MarksFile(text[i..][..FirstLine(text[i..])])
  }

  lemma MarkedFirst(st: ParseState, text: bytes, opts: ParseOptions)
    requires text != [] && st.errors < 100 && MarksFile(text[..FirstLine(text)])
    ensures MarkedAt(st, text, opts, 0)
  {
    hide MarksFile, FirstLine;
    assert text[..0] == [] && text[0..] == text;
  }

  /** Positions behind the first line. */
  lemma MarkedLater(st: ParseState, text: bytes, opts: ParseOptions, i: nat)
    requires text != [] && st.errors < 100 && FirstLine(text) <= i <= |text|
    requires FirstLine(text) < |text| || i == FirstLine(text)
    ensures var n := FirstLine(text);
            i < |text| ==> (MarkedAt(st, text, opts, i) <==>
                MarkedAt(ParseLine(st, text[..n], opts), text[n..], opts, i - n))
  {
    hide MarksFile, ParseLine, ParseText, FirstLine;
    var n := FirstLine(text);
    if i < |text| {
      var a, b := text[..n], text[n..i];
      LaterSlices(text, n, i);
      assert WholeLines(a) by { FirstLineEnds(text); }
      WholeBehind(a, b);
      OneLineRead(st, text, opts);
      ParseTextConcat(st, a, b, opts);
    }
  }

  lemma LaterSlices(text: bytes, n: nat, i: nat)
    requires n <= i <= |text|
    ensures text[n..][..i - n] == text[n..i] && text[n..][i - n..] == text[i..] && text[..i] == text[..n] + text[n..i]
  {
  }

  lemma WholeBehind(a: bytes, b: bytes)
    requires WholeLines(a)
    ensures WholeLines(a + b) <==> WholeLines(b)
  {
    if b == [] {
      assert a + b == a;
    }
  }

  lemma FirstLineEnds(text: bytes)
    requires text != [] && FirstLine(text) < |text|
    ensures WholeLines(text[..FirstLine(text)])
  {
  }

  lemma OneLineRead(st: ParseState, text: bytes, opts: ParseOptions)
    requires text != [] && st.errors < 100 && FirstLine(text) < |text|
    ensures var a := text[..FirstLine(text)]; ParseText(st, a, opts) == ParseLine(st, a, opts)
  {
    hide ParseLine;
    var a := text[..FirstLine(text)];
    FirstLineEnds(text);
    var i := IndexOf(text, NEWLINE);
    assert a == text[..i] + [NEWLINE] && NEWLINE !in text[..i];
    ParseOneLine(st, text[..i], opts);
  }

  /** No position inside the first line starts a line. */
  lemma InsideLine(text: bytes, i: nat)
    requires text != [] && 0 < i < FirstLine(text)
    ensures !WholeLines(text[..i])
  {
    var n := IndexOf(text, NEWLINE);
    if n < 0 {
      assert text[i - 1] in text;
    } else {
      assert text[..n][i - 1] == text[i - 1];
    }
  }

  lemma {:induction false} TextMarks(st: ParseState, text: bytes, opts: ParseOptions)
    ensures ParseText(st, text, opts).fileImmutable <==> st.fileImmutable || exists i :: MarkedAt(st, text, opts, i)
    decreases |text|
  {
    hide MarksFile, ParseLine, FirstLine;
    if text == [] {
    } else if st.errors >= MAX_ERRORS {
      forall i: nat
        ensures !MarkedAt(st, text, opts, i)
      {
        if i < |text| && text[..i] != [] {
          assert ParseText(st, text[..i], opts) == st;
        }
      }
    } else {
      var n := FirstLine(text);
      var st' := ParseLine(st, text[..n], opts);
      LineMarks(st, text[..n], opts);
      TextMarks(st', text[n..], opts);
      MarkedSplit(st, text, opts);
    }
  }

  lemma MarkedSplit(st: ParseState, text: bytes, opts: ParseOptions)
    requires text != [] && st.errors < 100
    ensures var n := FirstLine(text);
            (exists i :: MarkedAt(st, text, opts, i)) <==>
            MarksFile(text[..n]) || exists i :: MarkedAt(ParseLine(st, text[..n], opts), text[n..], opts, i)
  {
    hide MarksFile, ParseLine, FirstLine, ParseText;
    var n := FirstLine(text);
    var st' := ParseLine(st, text[..n], opts);
    if MarksFile(text[..n]) {
      MarkedFirst(st, text, opts);
    }
    if j: nat :| MarkedAt(st', text[n..], opts, j) {
      MarkedLater(st, text, opts, n + j);
      assert MarkedAt(st, text, opts, n + j);
    }
    if i: nat :| MarkedAt(st, text, opts, i) {
      if i == 0 {
        assert text[0..] == text;
      } else if i < n {
        InsideLine(text, i);
      } else {
        MarkedLater(st, text, opts, i);
        assert MarkedAt(st', text[n..], opts, i - n);
      }
    }
  }

  /** A file is immutable as a whole exactly if a line `[$i]` is among those that are read, for
      every map and all options; otherwise it is read. */
  lemma FileIsImmutableExactly(text: bytes, m: Entries, opts: ParseOptions)
    ensures ParseConfig(text, m, opts).info ==
            if exists i :: MarkedAt(InitialState(m), text, opts, i) then ParseImmutable else ParseOk
  {
    hide ParseText, MarkImmutable, MarkedAt;
    TextMarks(InitialState(m), text, opts);
    NeverTooManyErrors(text, m, opts);
  }

  /** One of the first n lines marks the file. */
  ghost predicate MarkAmong(text: bytes, n: nat)
    decreases |text|
  {
    text != [] && n > 0 && (MarksFile(text[..FirstLine(text)]) || MarkAmong(text[FirstLine(text)..], n - 1))
  }

  lemma {:induction false} EarlyMarkIsRead(st: ParseState, text: bytes, opts: ParseOptions, n: nat)
    requires MarkAmong(text, n) && st.errors + n <= 100
    ensures ParseText(st, text, opts).fileImmutable
    decreases |text|
  {
    hide MarksFile, ParseLine, FirstLine;
    var l := text[..FirstLine(text)];
    LineMarks(st, l, opts);
    LineErrors(st, l, opts);
    if MarksFile(l) {
      TextMarks(ParseLine(st, l, opts), text[FirstLine(text)..], opts);
    } else {
      EarlyMarkIsRead(ParseLine(st, l, opts), text[FirstLine(text)..], opts, n - 1);
    }
  }

  /** A mark in one of the first hundred lines is read by everybody. */
  lemma EarlyMark(text: bytes, m: Entries, opts: ParseOptions)
    requires MarkAmong(text, 100)
    ensures ParseConfig(text, m, opts).info == ParseImmutable
  {
    hide ParseText, MarkAmong, MarkImmutable;
    EarlyMarkIsRead(InitialState(m), text, opts, 100);
    NeverTooManyErrors(text, m, opts);
  }

  /** A file that starts with the line `[$i]`. */
  lemma MarkInFront(rest: bytes, m: Entries, opts: ParseOptions)
    ensures ParseConfig(Ascii("[$i]") + [NEWLINE] + rest, m, opts).info == ParseImmutable
  {
    hide ParseConfig;
    FrontIsMarked(rest);
    EarlyMark(Ascii("[$i]") + [NEWLINE] + rest, m, opts);
  }

  lemma FrontIsMarked(rest: bytes)
    ensures MarkAmong(Ascii("[$i]") + [NEWLINE] + rest, 100)
  {
    hide FirstLine, IndexOf, Trimmed, Ascii;
    MarkSpelled();
    var line, none: seq<bytes> := Ascii("[$i]"), [];
    var text := line + [NEWLINE] + rest;
    IndexOfConcat(line, NEWLINE, rest);
    assert FirstLine(text) == 5 by { FirstLineAt(text); }
    assert text[..5] == line + [NEWLINE];
    TrimNewline(line);
    assert Bracketings(none) + line == line;
    assert MarksFile(line + [NEWLINE]);
  }

  lemma FirstLineAt(text: bytes)
    requires text != []
    ensures FirstLine(text) == if IndexOf(text, NEWLINE) < 0 then |text| else IndexOf(text, NEWLINE) + 1
  {
    hide IndexOf;
  }

  /** A file without such a line is read, whatever else is in it. */
  lemma UnmarkedFileIsRead(text: bytes, m: Entries, opts: ParseOptions)
    requires forall i :: 0 <= i < |text| && WholeLines(text[..i]) ==> !MarksFile(text[i..][..FirstLine(text[i..])])
    ensures ParseConfig(text, m, opts).info == ParseOk
  {
    hide ParseConfig, MarksFile, FirstLine;
    FileIsImmutableExactly(text, m, opts);
  }

  // ---------------------------------------------------------------------------
  // Objects
  // ---------------------------------------------------------------------------

  /** Reading such a file tells the object, and does not change the file. */
  lemma ReparseFinds(s: OnFile, base: Entries, locale: bytes)
    requires MarkAmong(s.file, 100)
    ensures ReparseOver(s, base, locale).config.bFileImmutable && ReparseOver(s, base, locale).file == s.file
  {
    hide ParseConfig, MarkAmong, AnyDirty;
    EarlyMark(s.file, map[], ReadOptions(locale, true));
    EarlyMark(s.file, base, ReadOptions(locale, false));
  }

  /** A file without such a line is found mutable. */
  lemma ReparseFindsMutable(s: OnFile, base: Entries, locale: bytes)
    ensures var file := ReparseOver(s, base, locale).file;
            (forall i :: 0 <= i < |file| && WholeLines(file[..i]) ==> !MarksFile(file[i..][..FirstLine(file[i..])])) ==>
              !ReparseOver(s, base, locale).config.bFileImmutable
  {
    hide ParseConfig, MarksFile, FirstLine, SyncFile;
    var file := ReparseOver(s, base, locale).file;
    if forall i :: 0 <= i < |file| && WholeLines(file[..i]) ==> !MarksFile(file[i..][..FirstLine(file[i..])]) {
      UnmarkedFileIsRead(file, base, ReadOptions(locale, false));
    }
  }

  /** One call on one object, whatever it knows. */
  lemma MarkedFileStays(s: OnFile, base: Entries, a: Action, locale: bytes)
    requires MarkAmong(s.file, 100)
    ensures var s' := ActOver(s, base, a, locale);
            && s'.file == s.file
            && (s.config.bFileImmutable ==> s'.config.bFileImmutable)
            && (a.Reparse? ==> s'.config.bFileImmutable)
  {
    hide ParseConfig, MarkAmong, AnyDirty, SetEntry, RevertEntry;
    EarlyMark(s.file, map[], ReadOptions(locale, true));
    EarlyMark(s.file, base, ReadOptions(locale, false));
  }

  /** When a sync reports success: never after the object has found the file immutable, and
      before that only if it has nothing to write. */
  lemma MarkedFileSyncs(s: OnFile, locale: bytes)
    requires MarkAmong(s.file, 100)
    ensures SyncSucceeds(s, locale) <==> !s.config.bFileImmutable && !(s.config.bDirty && AnyDirty(s.config.entryMap))
  {
    hide ParseConfig, MarkAmong, AnyDirty;
    EarlyMark(s.file, map[], ReadOptions(locale, true));
  }

  /** No run of any objects changes the file, and an object that has once found it immutable
      stays with that and never syncs again. */
  lemma {:induction false} MarkedFileStaysLong(w: World, acts: seq<Action>, locale: bytes, i: nat)
    requires MarkAmong(w.file, 100) && Runs(w, acts) && i < |w.clients|
    ensures var w' := Run(w, acts, locale);
            && w'.file == w.file
            && (w.clients[i].bFileImmutable ==>
                  w'.clients[i].bFileImmutable && !SyncSucceeds(View(w', i), locale))
    decreases |acts|
  {
    hide MarkAmong, ActOver, Allowed;
    if acts == [] {
    } else {
      var a := acts[0];
      assert a.client < |w.clients| && a.client < |w.bases| by { AllowedClient(w, a); }
      MarkedFileStays(View(w, a.client), w.bases[a.client], a, locale);
      RunsOn(w, acts, locale);
      MarkedFileStaysLong(Step(w, a, locale), acts[1..], locale, i);
    }
  }

  lemma AllowedClient(w: World, a: Action)
    requires Allowed(w, a)
    ensures a.client < |w.clients| && a.client < |w.bases|
  {
  }
}
