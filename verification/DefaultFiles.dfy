/** What an object has in memory once it has parsed its files: entries that no change has touched
    yet, whatever the files contain (src/core/kconfigini.cpp:40-284, src/core/kconfig.cpp:689-732). */
module DefaultFiles {
  import opened Bytes
  import opened IniCodec
  import opened CodecLaws
  import opened EntryMap
  import opened Immutability
  import opened Revert
  import opened Cascade
  import opened IniParser
  import opened IniEntries
  import opened ParserRuns
  import opened Sync
  import opened Protocol

  /** A call that a file makes: it stores a value, deletes, or sets a marker. */
  predicate FileCall(w: Write) {
    !w.o.dirty && !w.o.global && !w.o.rawKey && (w.value.Null? ==> w.o.deleted || w.k == [])
  }

  /** It concerns defaults, or not. */
  predicate Aimed(w: Write, defaults: bool) {
    w.k != [] ==> w.o.forDefault == defaults
  }

  ghost predicate FileCalls(ws: seq<Write>, defaults: bool) {
    forall w :: w in ws ==> FileCall(w) && Aimed(w, defaults)
  }

  /** Options that only a line's own marks have set. */
  predicate LineOptions(o: EntryOptions) {
    !o.dirty && !o.global && !o.rawKey && !o.forDefault
  }

  /** Options with which a deletion line ends. */
  predicate DeletionOptions(o: EntryOptions, defaults: bool) {
    !o.dirty && !o.global && !o.rawKey && o.deleted && o.forDefault == defaults
  }

  lemma {:induction false} ScanKeepsOptions(cs: bytes, o: EntryOptions, opts: ParseOptions)
    requires LineOptions(o)
    ensures var r := ScanFlags(cs, o, opts); if r.deleted then DeletionOptions(r.o, opts.defaults) else LineOptions(r.o)
    decreases |cs|
  {
    if cs == [] {
    } else if cs[0] != LOWER_D {
      var o' := if cs[0] == LOWER_I then o.(immutable := true)
                else if cs[0] == LOWER_E then o.(expansion := o.expansion || opts.expansions) else o;
      ScanKeepsOptions(cs[1..], o', opts);
    }
  }

  lemma {:induction false} KeyKeepsOptions(key: bytes, o: EntryOptions, locale: QByteArray, opts: ParseOptions)
    requires LineOptions(o)
    ensures var r := ParseKey(key, o, locale, opts);
            (r.DeletedKey? ==> DeletionOptions(r.o, opts.defaults)) && (r.ParsedKey? ==> LineOptions(r.o))
    decreases |key|
  {
    hide ScanFlags;
    var start := LastIndexOf(key, OPEN);
    if start < 0 {
    } else {
      var tail := key[start..];
      var e := IndexOf(tail, CLOSE);
      if e >= 0 {
        assert tail[0] == OPEN;
        var part := tail[1..e];
        if part != [] && part[0] == DOLLAR {
          ScanKeepsOptions(part[1..], o, opts);
          var r := ScanFlags(part[1..], o, opts);
          if !r.deleted {
            KeyKeepsOptions(key[..start], r.o, locale, opts);
          }
        } else if locale.Null? {
          KeyKeepsOptions(key[..start], o, Data(part), opts);
        }
      }
    }
  }

  lemma EntryCalls(st: ParseState, line: bytes, opts: ParseOptions)
    requires !opts.global && !opts.merging
    ensures FileCalls(EntryWrites(st, line, opts), opts.defaults)
  {
    hide ParseKey, Decode, Trimmed, IndexOf, OwnLocale;
    var eq := IndexOf(line, EQUALS);
    var key := if eq < 0 then line else Trimmed(line[..eq]);
    KeyKeepsOptions(key, NO_OPTIONS.(immutable := st.groupImmutable), Null, opts);
  }

  lemma {:induction false} TextCalls(st: ParseState, text: bytes, opts: ParseOptions)
    requires !opts.global && !opts.merging
    ensures FileCalls(TextWrites(st, text, opts), opts.defaults)
    decreases |text|
  {
    hide ParseLine, EntryWrites, FirstLine, Trimmed, FileCall, Aimed;
    if text == [] || st.errors >= MAX_ERRORS {
    } else {
      var n := FirstLine(text);
      EntryCalls(st, Trimmed(text[..n]), opts);
      TextCalls(ParseLine(st, text[..n], opts), text[n..], opts);
    }
  }

  lemma {:induction false} MarkCalls(groups: seq<bytes>, defaults: bool)
    ensures FileCalls(MarkWrites(groups), defaults)
    decreases |groups|
  {
    if groups == [] {
    } else {
      MarkCalls(groups[1..], defaults);
    }
  }

  // ---------------------------------------------------------------------------
  // Their effect on a memory
  // ---------------------------------------------------------------------------

  /** A memory without changes. */
  ghost predicate Unchanged(m: Entries) {
    MemoryOk(m) && forall k :: k in m ==> !m[k].bDirty && !m[k].bReverted
  }

  lemma NothingRead()
    ensures Unchanged(map[])
  {
  }

  predicate UnchangedEntry(k: KEntryKey, e: KEntry) {
    !e.bDirty && !e.bReverted && MemoryEntryOk(k, e)
  }

  lemma CallPrepares(k: KEntryKey, e: KEntry, w: Write)
    requires FileCall(w) && w.k != [] && (e == NEW_ENTRY || UnchangedEntry(k, e))
    ensures UnchangedEntry(k, Prepared(Overridden(k, e, w.o), w.value, w.o))
  {
    hide KeyOk, FlushSafe, GroupNameOk;
  }

  lemma CallStores(m: Entries, w: Write)
    requires FileCall(w) && w.k != [] && Unchanged(m)
    ensures Unchanged(Stored(m, w.g, w.k, w.value, w.o))
  {
    hide MemoryEntryOk, Prepared, Overridden, WellKept, MarkerOk;
    assert MarkerOk(NEW_ENTRY) by { NewMarkerOk(); }
    var kk := KEntryKey(w.g, w.k, w.o.localized, w.o.forDefault);
    StoredWellKept(m, w.g, w.k, w.value, w.o);
    if kk in m {
      CallPrepares(kk, m[kk], w);
    } else {
      CallPrepares(kk, NEW_ENTRY, w);
      assert Overridden(kk, NEW_ENTRY, w.o) == NEW_ENTRY by { NothingOverridden(kk, w.o); }
    }
  }

  lemma NewMarkerOk()
    ensures MarkerOk(NEW_ENTRY) && MarkerOk(NEW_ENTRY.(bImmutable := true))
  {
  }

  lemma NothingOverridden(k: KEntryKey, o: EntryOptions)
    ensures Overridden(k, NEW_ENTRY, o) == NEW_ENTRY
  {
  }

  lemma TwinsGone(m: Entries, g: bytes, k: bytes, o: EntryOptions)
    requires Unchanged(m) && k != []
    ensures Unchanged(WithoutTwins(m, g, k, o))
  {
    hide MemoryEntryOk;
    WithoutTwinsWellKept(m, g, k, o);
  }

  /** The marker that the call leaves, if it changes anything. */
  lemma MarkerResult(m: Entries, w: Write)
    requires Unchanged(m)
    ensures var n, e := SetMarker(m, w.g, w.o).m, NEW_ENTRY.(bImmutable := w.o.immutable);
            n == m || n == m[Marker(w.g) := e]
  {
    hide MemoryEntryOk, SameEntry;
    var found := KEntryKey(w.g, [], w.o.localized, w.o.forDefault);
    if found in m {
      WellKeptMarkers(m, found);
      assert MarkerOk(m[found]);
    }
  }

  lemma MarkerAdded(m: Entries, g: bytes, e: KEntry)
    requires Unchanged(m) && MarkerOk(e)
    ensures Unchanged(m[Marker(g) := e])
  {
    hide MemoryEntryOk;
  }

  lemma MarkerCall(m: Entries, w: Write)
    requires Unchanged(m)
    ensures Unchanged(SetMarker(m, w.g, w.o).m)
  {
    hide Unchanged, SetMarker;
    MarkerResult(m, w);
    MarkerAdded(m, w.g, NEW_ENTRY.(bImmutable := w.o.immutable));
  }

  lemma WellKeptMarkers(m: Entries, k: KEntryKey)
    requires WellKept(m) && k in m && k.mKey == []
    ensures k == Marker(k.mGroup)
  {
  }

  lemma {:induction false} CallKeeps(m: Entries, w: Write)
    requires FileCall(w) && Unchanged(m)
    ensures Unchanged(Apply(m, w))
    decreases w.o.forDefault
  {
    hide Stored, WithoutTwins, SetExisting, SetNew, SetMarker, Unchanged, SameEntry;
    var g, k, value, o := w.g, w.k, w.value, w.o;
    if k == [] {
      MarkerCall(m, w);
    } else {
      var s := Stored(m, g, k, value, o);
      Steps(m, g, k, value, o);
      CallStores(m, w);
      if o.forDefault {
        CallKeeps(s, w.(o := o.(forDefault := false)));
      }
      TwinsGone(m, g, k, o);
      TwinsGone(Mirrored(s, g, k, value, o), g, k, o);
    }
  }

  lemma {:induction false} RunKeepsUnchanged(m: Entries, ws: seq<Write>)
    requires Unchanged(m) && forall w :: w in ws ==> FileCall(w)
    ensures Unchanged(Run(m, ws))
    decreases |ws|
  {
    hide Apply, Unchanged, FileCall;
    if ws == [] {
    } else {
      CallKeeps(m, ws[0]);
      RunKeepsUnchanged(Apply(m, ws[0]), ws[1..]);
    }
  }

  /** All calls of a file. */
  lemma CallsOfFile(text: bytes, m: Entries, opts: ParseOptions)
    requires !opts.global && !opts.merging
    ensures FileCalls(FileWrites(text, m, opts), opts.defaults)
  {
    hide ParseText, TextWrites, MarkWrites, FileCall, Aimed;
    TextCalls(InitialState(m), text, opts);
    MarkCalls(ParseText(InitialState(m), text, opts).immutableGroups, opts.defaults);
  }

  /** Whatever a file contains, reading it over a memory without changes gives one. */
  lemma ParsedUnchanged(text: bytes, m: Entries, opts: ParseOptions)
    requires !opts.global && !opts.merging && Unchanged(m)
    ensures Unchanged(ParseConfig(text, m, opts).m)
  {
    hide ParseConfig, Run, FileWrites, Unchanged, FileCall, Aimed;
    ParsingIsRun(text, m, opts);
    CallsOfFile(text, m, opts);
    RunKeepsUnchanged(m, FileWrites(text, m, opts));
  }

  /** The options with which default files are read. */
  function DefaultOptions(locale: bytes): ParseOptions {
    ParseOptions(locale, false, true, true, false)
  }

  lemma {:induction false} DefaultsUnchanged(m: Entries, files: seq<bytes>, locale: bytes)
    requires Unchanged(m)
    ensures Unchanged(ParseFiles(m, files, DefaultOptions(locale)))
    decreases |files|
  {
    hide ParseConfig, Unchanged;
    if files == [] {
    } else {
      ParsedUnchanged(files[0], m, DefaultOptions(locale));
      DefaultsUnchanged(ParseConfig(files[0], m, DefaultOptions(locale)).m, files[1..], locale);
    }
  }

  /** What default files give to an object that reads them first; it can go on from there,
      whatever they contain. */
  function Base(files: seq<bytes>, locale: bytes): Entries {
    ParseFiles(map[], files, DefaultOptions(locale))
  }

  lemma BaseUnchanged(files: seq<bytes>, locale: bytes)
    ensures Unchanged(Base(files, locale))
  {
    hide ParseFiles;
    NothingRead();
    DefaultsUnchanged(map[], files, locale);
  }
}
