/** Lines `key=value` and `key[tag]=value`, escaped, and what readers of any locale make of them
    (src/core/kconfigini.cpp:148-272). */
module TaggedLines {
  import opened Bytes
  import opened IniCodec
  import opened CodecLaws
  import opened CodecTheorems
  import opened EntryMap
  import opened Immutability
  import opened IniParser
  import opened IniWriter
  import opened IniLines
  import opened IniEntries

  /** The tag is Null for a line without one. */
  datatype TaggedLine = TaggedLine(k: bytes, tag: QByteArray, v: bytes) {
    predicate Ok() {
      KeyOk(k) && FlushSafe([], v) && (tag.Data? ==> TagOk(tag.data))
    }

    function KeyPart(): bytes {
      Encode(KeyString, k) + TagText(tag)
    }

    function Text(): bytes {
      KeyPart() + [EQUALS] + Encode(ValueString, v)
    }

    predicate Foreign(locale: bytes) {
      !OwnLocale(tag.Chars(), locale)
    }

    /** The call that a reader makes of it. */
    function Call(g: bytes, immutable: bool, opts: ParseOptions): Write {
      var foreign := Foreign(opts.locale);
      Write(g, if foreign then k + [OPEN] + tag.Chars() + [CLOSE] else k, Data(v),
            NO_OPTIONS.(immutable := immutable, rawKey := foreign, forDefault := opts.defaults,
                        localized := tag.Data?, localizedCountry := tag.Data? && UNDERSCORE in tag.data))
    }
  }

  lemma KeyRoundTrip(k: bytes)
    requires KeyOk(k)
    ensures Decode(Encode(KeyString, k)).out == k
  {
    hide Decode, Encode, FlushSafe;
    RoundTrip(KeyString, k);
  }

  lemma EncodedStarts(k: bytes)
    requires KeyOk(k)
    ensures var t := Encode(KeyString, k); StartsLikeKey(t) && BaseFits(t) && NoOuterSpace(t)
    ensures OPEN !in Encode(KeyString, k) && EQUALS !in Encode(KeyString, k) && NEWLINE !in Encode(KeyString, k)
  {
    hide Encode, FlushSafe, NoOuterSpace;
    EncodedKeyStart(k);
    SpaceFree(Encode(KeyString, k));
  }

  lemma StartsAndEnds(t: bytes)
    requires StartsLikeKey(t)
    ensures t != [] && t[0] != HASH && t[0] != OPEN && NoOuterSpace(t)
  {
  }

  lemma TaggedShape(l: TaggedLine)
    requires l.Ok()
    ensures StartsLikeKey(l.Text()) && NEWLINE !in l.Text()
    ensures StartsLikeKey(l.KeyPart()) && EQUALS !in l.KeyPart()
  {
    hide Encode, FlushSafe, NoOuterSpace, KeyOk, TagText, StartsLikeKey, BaseFits, TagOk;
    EncodedStarts(l.k);
    TagTextShape(Encode(KeyString, l.k), l.tag);
    ValueShape(l.KeyPart(), l.v);
  }

  lemma StoreTagged(st: ParseState, l: TaggedLine, opts: ParseOptions)
    requires l.Ok() && !opts.global
    ensures StoreEntry(st, Encode(KeyString, l.k), NO_OPTIONS.(immutable := st.groupImmutable), l.tag,
            Encode(ValueString, l.v), opts)
         == if l.Foreign(opts.locale) && !opts.merging then st
            else st.(m := Apply(st.m, l.Call(st.group, st.groupImmutable, opts)))
  {
    hide Encode, Decode, FlushSafe, SetEntry, OwnLocale, KeyOk, TagOk;
    KeyRoundTrip(l.k);
    RoundTrip(ValueString, l.v);
  }

  lemma ReadTaggedEntry(st: ParseState, l: TaggedLine, opts: ParseOptions)
    requires l.Ok() && !opts.global
    ensures ParseEntry(st, l.Text(), opts) ==
            if l.Foreign(opts.locale) && !opts.merging then st
            else st.(m := Apply(st.m, l.Call(st.group, st.groupImmutable, opts)))
  {
    hide Encode, Decode, FlushSafe, ParseKey, Trimmed, IndexOf, StoreEntry, NoOuterSpace, KeyOk, TagText, Apply, TagOk,
         OwnLocale;
    var b, v := Encode(KeyString, l.k), Encode(ValueString, l.v);
    var key := l.KeyPart();
    TaggedShape(l);
    StartsAndEnds(key);
    IndexOfConcat(key, EQUALS, v);
    assert l.Text()[..|key|] == key && l.Text()[|key| + 1..] == v;
    EncodePrintable(ValueString, l.v);
    EncodedStarts(l.k);
    ParseTag(b, l.tag, NO_OPTIONS.(immutable := st.groupImmutable), opts);
    StoreTagged(st, l, opts);
  }

  /** A line makes its call, or nothing at all if it is foreign and the reader does not merge. */
  lemma ReadTagged(st: ParseState, l: TaggedLine, opts: ParseOptions)
    requires l.Ok() && !opts.global && (opts.defaults || !st.groupSkip)
    ensures ParseLine(st, l.Text() + [NEWLINE], opts) ==
            if l.Foreign(opts.locale) && !opts.merging then st
            else st.(m := Apply(st.m, l.Call(st.group, st.groupImmutable, opts)))
    ensures NEWLINE !in l.Text()
  {
    hide Trimmed, NoOuterSpace, ParseEntry, TaggedLine.Text, Apply, TaggedLine.Call, OwnLocale;
    TaggedShape(l);
    StartsAndEnds(l.Text());
    TrimNewline(l.Text());
    ReadTaggedEntry(st, l, opts);
  }

  function TaggedFile(ls: seq<TaggedLine>): bytes
    decreases |ls|
  {
    if ls == [] then [] else ls[0].Text() + [NEWLINE] + TaggedFile(ls[1..])
  }
}
