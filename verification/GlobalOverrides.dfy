/** Changes of entries that stand over an entry of a global file (src/core/kconfigini.cpp:418-445,
    src/core/kconfigdata.cpp:131-140). Memories of every kind, not only those without global
    entries. */
module GlobalOverrides {
  import opened Bytes
  import opened IniCodec
  import opened CodecLaws
  import opened EntryMap
  import opened Immutability
  import opened Revert
  import opened IniParser
  import opened IniWriter
  import opened IniLines
  import opened IniEntries
  import opened Sync

  /** What a merge makes of each changed local entry: gone, deleted, or as it is. */
  lemma ChangedIsMerged(w: Entries, mem: Entries, k: KEntryKey)
    requires k in mem && k.mKey != [] && mem[k].bDirty && !mem[k].bGlobal
    ensures var e, n := mem[k], Merged(w, mem, false);
            var over := e.bOverridesGlobal || (!e.bReverted && KEntryKey(k.mGroup, k.mKey, k.bLocal, true) in mem);
            && (k in n <==> over || (!e.bReverted && !e.bDeleted))
            && (k in n ==>
                  && n[k].mValue == e.mValue && n[k].bExpand == e.bExpand && n[k].bImmutable == e.bImmutable
                  && (n[k].bDeleted <==> e.bDeleted || e.bReverted)
                  && n[k].bRaw == if k in w then w[k].bRaw else e.bRaw)
  {
  }

  /** And of everything else: it stays as it is in the file. */
  lemma OtherIsKept(w: Entries, mem: Entries, k: KEntryKey)
    requires k.mKey != [] && (k in mem ==> !mem[k].bDirty || mem[k].bGlobal)
    ensures SameAt(w, Merged(w, mem, false), k)
  {
  }

  /** A local value that replaces a global one remembers that it does, and stays so. */
  lemma PutOverGlobal(m: Entries, g: bytes, k: bytes, value: bytes)
    requires k != [] && Plain(g, k) in m && m[Plain(g, k)].bGlobal && !m[Plain(g, k)].bImmutable
    ensures var n := SetEntry(m, g, k, Data(value), NO_OPTIONS.(dirty := true)).m;
            && Plain(g, k) in n && n[Plain(g, k)].bOverridesGlobal && !n[Plain(g, k)].bGlobal
            && n[Plain(g, k)].mValue == Data(value) && n[Plain(g, k)].bDirty
  {
    PlainApply(m, Write(g, k, Data(value), NO_OPTIONS.(dirty := true)));
  }

  /** Reverting such an entry marks it as deleted in the local file, so that whoever reads the
      global file first and the local one after it finds nothing. */
  lemma RevertedOverGlobal(w: Entries, mem: Entries, st: ParseState, k: KEntryKey, locale: bytes, opts: ParseOptions,
                           fallback: QByteArray)
    requires k in mem && k == Plain(k.mGroup, k.mKey) && mem[k].bDirty && !mem[k].bGlobal && mem[k].bReverted
             && mem[k].bOverridesGlobal
    requires mem[k].mValue.Null? && KeyOk(k.mKey) && !mem[k].bRaw && (k in w ==> !w[k].bRaw)
    requires LocaleOk(locale) && SameReader(opts, locale) && !st.groupSkip && st.group == k.mGroup
    requires k in st.m && st.m[k].bGlobal && !st.m[k].bImmutable
    ensures k in Merged(w, mem, false)
    ensures var e := Merged(w, mem, false)[k];
            var m := ParseLine(st, EntryText(locale, k, e) + [NEWLINE], opts).m;
            GetEntry(m, k.mGroup, k.mKey, fallback, PLAIN) == fallback
  {
    hide ParseLine, EntryText, LocaleOk, KeyOk, FlushSafe, WithoutTwins, Merged;
    KeyIsThere(k.mKey);
    ChangedIsMerged(w, mem, k);
    assert !Merged(w, mem, false)[k].bRaw by { StillNotRaw(w, mem, k); }
    var e := Merged(w, mem, false)[k];
    ReadEntry(st, k, e, locale, opts);
    var o := OptionsOf(k, e, locale, st.groupImmutable);
    PlainApply(st.m, Write(st.group, k.mKey, e.mValue, o));
    WithoutTwinsAt(st.m, st.group, k.mKey, o, k);
    WithoutTwinsAt(Stored(st.m, st.group, k.mKey, e.mValue, o), st.group, k.mKey, o, k);
  }

  lemma KeyIsThere(k: bytes)
    ensures KeyOk(k) ==> k != []
  {
    hide FlushSafe;
  }

  lemma StillNotRaw(w: Entries, mem: Entries, k: KEntryKey)
    requires k in mem && k in Merged(w, mem, false) && !mem[k].bRaw && (k in w ==> !w[k].bRaw)
    ensures !Merged(w, mem, false)[k].bRaw
  {
  }
}
