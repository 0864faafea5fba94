/** The cascade law for files as they are written: group headers and lines `key=value`, each
    with or without the marks for immutability and expansion (src/core/kconfigini.cpp:85-272,
    src/core/kconfigdata.cpp:71-219). */
module CascadeFiles {
  import opened Bytes
  import opened IniCodec
  import opened CodecLaws
  import opened CodecTheorems
  import opened EntryMap
  import opened Immutability
  import opened Revert
  import opened Cascade
  import opened IniParser
  import opened IniWriter
  import opened IniLines
  import opened IniEntries
  import opened ParserRuns

  // ---------------------------------------------------------------------------
  // Files
  // ---------------------------------------------------------------------------

  datatype FileLine = GroupLine(g: bytes) | EntryLine(k: bytes, v: bytes, immutable: bool, expand: bool) {
    predicate Ok() {
      match this
      case GroupLine(g) => GroupOk(g)
      case EntryLine(k, v, _, _) => KeyOk(k) && FlushSafe([], v)
    }

    /** The marks of the line, as those of an entry. */
    function Marks(): KEntry
      requires EntryLine?
    {
      NEW_ENTRY.(bImmutable := immutable, bExpand := expand)
    }

    function Text(): bytes {
      match this
      case GroupLine(g) => HeaderText(g, false)
      case EntryLine(k, v, _, _) => Encode(KeyString, k) + FlagText(Marks()) + [EQUALS] + Encode(ValueString, v)
    }

    /** The call that an entry line stands for. */
    function Call(g: bytes, opts: ParseOptions): Write
      requires EntryLine?
    {
      Write(g, k, Data(v), NO_OPTIONS.(immutable := immutable, expansion := expand, global := opts.global,
          forDefault := opts.defaults))
    }
  }

  function FileText(ls: seq<FileLine>): bytes
    decreases |ls|
  {
    if ls == [] then [] else ls[0].Text() + [NEWLINE] + FileText(ls[1..])
  }

  /** The calls of a file that starts in group g. */
  function Calls(ls: seq<FileLine>, g: bytes, opts: ParseOptions): seq<Write>
    decreases |ls|
  {
    if ls == [] then []
    else if ls[0].GroupLine? then Calls(ls[1..], ls[0].g, opts)
    else [ls[0].Call(g, opts)] + Calls(ls[1..], g, opts)
  }

  ghost predicate AllOk(ls: seq<FileLine>) {
    forall l :: l in ls ==> l.Ok()
  }

  // ---------------------------------------------------------------------------
  // Reading them
  // ---------------------------------------------------------------------------

  ghost predicate AllMutable(m: Entries) {
    forall g :: MarkerMutable(m, g)
  }

  /** Nothing has been immutable so far. */
  ghost predicate Plainly(st: ParseState) {
    !st.fileImmutable && !st.groupImmutable && !st.groupSkip && st.immutableGroups == [] && st.errors == 0
        && AllMutable(st.m)
  }

  lemma CallIsLine(l: FileLine, g: bytes, opts: ParseOptions)
    requires l.EntryLine? && l.Ok()
    ensures IsLine(l.Call(g, opts)) && l.Call(g, opts).o.forDefault == opts.defaults
  {
    hide FlushSafe;
  }

  lemma EntryShape(l: FileLine)
    requires l.EntryLine? && l.Ok()
    ensures var key := Encode(KeyString, l.k) + FlagText(l.Marks());
            StartsLikeKey(key) && EQUALS !in key && StartsLikeKey(l.Text()) && NEWLINE !in l.Text()
    ensures Decode(Encode(KeyString, l.k)).out == l.k && OPEN !in Encode(KeyString, l.k)
    ensures Decode(Encode(ValueString, l.v)) == Decoded(true, l.v)
            && Trimmed(Encode(ValueString, l.v)) == Encode(ValueString, l.v)
  {
    hide Encode, Decode, FlushSafe, NoOuterSpace, FlagText, StartsLikeKey, KeyOk;
    KeyFacts(l.k);
    FlagTextShape(Encode(KeyString, l.k), l.Marks());
    ValueShape(Encode(KeyString, l.k) + FlagText(l.Marks()), l.v);
    RoundTrip(ValueString, l.v);
    EncodePrintable(ValueString, l.v);
  }

  lemma KeyFacts(k: bytes)
    requires KeyOk(k)
    ensures var t := Encode(KeyString, k);
            StartsLikeKey(t) && EQUALS !in t && NEWLINE !in t && OPEN !in t && Decode(t).out == k
  {
    hide Encode, Decode, FlushSafe, NoOuterSpace;
    EncodedKeyStart(k);
    RoundTrip(KeyString, k);
  }

  /** An entry line makes its call. */
  lemma ReadEntryLine(st: ParseState, l: FileLine, opts: ParseOptions)
    requires l.EntryLine? && l.Ok() && Plainly(st) && opts.expansions
    ensures ParseLine(st, l.Text() + [NEWLINE], opts) == st.(m := Apply(st.m, l.Call(st.group, opts)))
    ensures NEWLINE !in l.Text()
  {
    hide Encode, FlushSafe, Trimmed, NoOuterSpace, KeyOk, ParseEntry, FlagText, Apply, Decode, AllMutable;
    EntryShape(l);
    LikeKey(l.Text());
    TrimNewline(l.Text());
    ParseEntryLine(st, l, opts);
  }

  lemma LikeKey(t: bytes)
    requires StartsLikeKey(t)
    ensures t != [] && t[0] != HASH && t[0] != OPEN && NoOuterSpace(t)
  {
  }

  lemma ParseEntryLine(st: ParseState, l: FileLine, opts: ParseOptions)
    requires l.EntryLine? && l.Ok() && Plainly(st) && opts.expansions
    ensures ParseEntry(st, l.Text(), opts) == st.(m := Apply(st.m, l.Call(st.group, opts)))
  {
    hide Encode, Decode, FlushSafe, ParseKey, Trimmed, IndexOf, NoOuterSpace, KeyOk, FlagText, SetEntry, AllMutable;
    var b, v := Encode(KeyString, l.k), Encode(ValueString, l.v);
    var key := b + FlagText(l.Marks());
    EntryShape(l);
    LikeKey(key);
    IndexOfConcat(key, EQUALS, v);
    assert l.Text()[..|key|] == key && l.Text()[|key| + 1..] == v;
    ParseOwnFlags(b, l.Marks(), NO_OPTIONS, opts);
    ParsePlainKey(b, NO_OPTIONS.(immutable := l.immutable, expansion := l.expand), Null, opts);
  }

  lemma StillMutable(m: Entries, w: Write)
    requires IsLine(w) && AllMutable(m)
    ensures AllMutable(Apply(m, w))
  {
    hide Apply, MarkerMutable;
    forall g
      ensures MarkerMutable(Apply(m, w), g)
    {
      MarkerStaysMutable(m, w, g);
    }
  }

  /** One line: a header changes the group, an entry makes its call. */
  lemma ReadLine(st: ParseState, l: FileLine, opts: ParseOptions)
    requires l.Ok() && Plainly(st) && opts.expansions
    ensures var st' := ParseText(st, l.Text() + [NEWLINE], opts);
            && Plainly(st')
            && (if l.GroupLine? then st' == st.(group := l.g) else st' == st.(m := Apply(st.m, l.Call(st.group, opts))))
  {
    hide HeaderText, FlagText, Encode, GroupOk, FlushSafe, Apply, ParseLine, AllMutable, KeyOk;
    if l.GroupLine? {
      MutableMeans(st.m, l.g);
      HeaderPrintable(l.g, false);
      ReadHeader(st, l.g, false, opts);
    } else {
      ReadEntryLine(st, l, opts);
      CallIsLine(l, st.group, opts);
      StillMutable(st.m, l.Call(st.group, opts));
    }
    ParseOneLine(st, l.Text(), opts);
  }

  lemma MutableMeans(m: Entries, g: bytes)
    requires AllMutable(m)
    ensures !IsImmutable(m, g, [], NO_FLAGS)
  {
    assert MarkerMutable(m, g);
  }

  /** A whole file is the run of its calls. */
  lemma {:induction false} ReadLines(st: ParseState, ls: seq<FileLine>, opts: ParseOptions)
    requires AllOk(ls) && Plainly(st) && opts.expansions
    ensures var st' := ParseText(st, FileText(ls), opts);
            Plainly(st') && st'.m == Run(st.m, Calls(ls, st.group, opts))
    decreases |ls|
  {
    hide ParseLine, Apply, Plainly, FileLine.Ok, FileLine.Text, FileLine.Call, FirstLine;
    if ls == [] {
    } else {
      var first := ls[0].Text() + [NEWLINE];
      var st1 := ParseText(st, first, opts);
      ReadLine(st, ls[0], opts);
      ParseTextConcat(st, first, FileText(ls[1..]), opts);
      ReadLines(st1, ls[1..], opts);
      if ls[0].EntryLine? {
        assert Calls(ls, st.group, opts)[1..] == Calls(ls[1..], st.group, opts);
      }
    }
  }

  lemma ReadFile(m: Entries, ls: seq<FileLine>, opts: ParseOptions)
    requires AllOk(ls) && AllMutable(m) && opts.expansions
    ensures ParseConfig(FileText(ls), m, opts) == ParseResult(Run(m, Calls(ls, DEFAULT_GROUP, opts)), ParseOk)
    ensures AllMutable(Run(m, Calls(ls, DEFAULT_GROUP, opts)))
  {
    hide ParseText, Run, AllMutable;
    ReadLines(InitialState(m), ls, opts);
  }

  // ---------------------------------------------------------------------------
  // The cascade
  // ---------------------------------------------------------------------------

  function Texts(files: seq<seq<FileLine>>): (r: seq<bytes>)
    decreases |files|
  {
    if files == [] then [] else [FileText(files[0])] + Texts(files[1..])
  }

  function AllCalls(files: seq<seq<FileLine>>, opts: ParseOptions): seq<Write>
    decreases |files|
  {
    if files == [] then [] else Calls(files[0], DEFAULT_GROUP, opts) + AllCalls(files[1..], opts)
  }

  ghost predicate AllFilesOk(files: seq<seq<FileLine>>) {
    forall f :: f in files ==> AllOk(f)
  }

  lemma {:induction false} ReadFiles(m: Entries, files: seq<seq<FileLine>>, opts: ParseOptions)
    requires AllFilesOk(files) && AllMutable(m) && opts.expansions
    ensures ParseFiles(m, Texts(files), opts) == Run(m, AllCalls(files, opts))
    ensures AllMutable(ParseFiles(m, Texts(files), opts))
    decreases |files|
  {
    hide ParseConfig, Apply, AllMutable, Calls, FileText, AllOk;
    if files == [] {
    } else {
      ReadFile(m, files[0], opts);
      var m' := Run(m, Calls(files[0], DEFAULT_GROUP, opts));
      assert Texts(files)[1..] == Texts(files[1..]);
      ReadFiles(m', files[1..], opts);
      RunConcat(m, Calls(files[0], DEFAULT_GROUP, opts), AllCalls(files[1..], opts));
    }
  }

  lemma {:induction false} CallsAreLines(ls: seq<FileLine>, g: bytes, opts: ParseOptions)
    requires AllOk(ls)
    ensures AllLines(Calls(ls, g, opts), opts.defaults)
    decreases |ls|
  {
    hide FileLine.Ok, FileLine.Call, IsLine;
    if ls == [] {
    } else {
      if ls[0].GroupLine? {
        CallsAreLines(ls[1..], ls[0].g, opts);
      } else {
        CallIsLine(ls[0], g, opts);
        CallsAreLines(ls[1..], g, opts);
      }
    }
  }

  lemma {:induction false} AllCallsAreLines(files: seq<seq<FileLine>>, opts: ParseOptions)
    requires AllFilesOk(files)
    ensures AllLines(AllCalls(files, opts), opts.defaults)
    decreases |files|
  {
    hide AllOk, Calls, IsLine;
    if files == [] {
    } else {
      CallsAreLines(files[0], DEFAULT_GROUP, opts);
      AllCallsAreLines(files[1..], opts);
    }
  }

  /** The cascade law, from the text of the files: of all lines for the key, in the order of the
      files and in each file from top to bottom, the first immutable one decides, or else the
      last one; and reverting brings back what the default files alone decide. */
  lemma CascadeOfTexts(ds: seq<seq<FileLine>>, us: seq<seq<FileLine>>, defaults: ParseOptions, user: ParseOptions,
                       g: bytes, k: bytes, fallback: QByteArray, o: EntryOptions)
    requires k != [] && AllFilesOk(ds) && AllFilesOk(us)
    requires defaults.defaults && defaults.expansions && !user.defaults && user.expansions
    ensures var m := ParseFiles(ParseFiles(map[], Texts(ds), defaults), Texts(us), user);
            && GetEntry(m, g, k, fallback, PLAIN)
               == Value(Winner(AllCalls(ds, defaults) + AllCalls(us, user), g, k), fallback)
            && GetEntry(RevertEntry(m, g, k, o, false).m, g, k, fallback, PLAIN)
               == Value(Winner(AllCalls(ds, defaults), g, k), fallback)
  {
    hide ParseFiles, Texts, AllCalls, Run, Winner, AllLines, GetEntry, RevertEntry, AllFilesOk;
    var m1 := ParseFiles(map[], Texts(ds), defaults);
    ReadFiles(map[], ds, defaults);
    ReadFiles(m1, us, user);
    AllCallsAreLines(ds, defaults);
    AllCallsAreLines(us, user);
    RunConcat(map[], AllCalls(ds, defaults), AllCalls(us, user));
    CascadeLookup(AllCalls(ds, defaults), AllCalls(us, user), g, k, fallback, o);
  }
}
