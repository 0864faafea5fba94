/** Reading back the line of one entry. */
module IniEntries {
  import opened Bytes
  import opened IniCodec
  import opened CodecLaws
  import opened CodecTheorems
  import opened EntryMap
  import opened IniParser
  import opened IniWriter
  import opened IniLines

  // ---------------------------------------------------------------------------
  // Which entries can be written
  // ---------------------------------------------------------------------------

  /** Text that can stand between the brackets of a locale tag. */
  predicate TagOk(tag: bytes) {
    && tag != []
    && tag[0] != DOLLAR
    && forall i :: 0 <= i < |tag| ==> tag[i] != NEWLINE && tag[i] != OPEN && tag[i] != CLOSE && tag[i] != EQUALS
  }

  predicate LocaleOk(locale: bytes) {
    TagOk(locale) && locale != C_LOCALE
  }

  predicate KeyOk(k: bytes) {
    k != [] && k[0] != HASH && FlushSafe([], k)
  }

  /** The key of a line for another locale is kept as it stands in the file: `base[tag]`. */
  function RawBase(k: bytes): bytes {
    var i := LastIndexOf(k, OPEN);
    if i < 0 then k else k[..i]
  }

  function RawTag(k: bytes): bytes {
    var i := LastIndexOf(k, OPEN);
    if i < 0 || |k| < i + 2 then [] else k[i + 1..|k| - 1]
  }

  /** Not a comment, a header or an empty line, and nothing in front to be trimmed. */
  predicate StartsLine(t: bytes) {
    t != [] && t[0] != HASH && t[0] != OPEN && !IsSpace(t[0])
  }

  /** The key of a line for another locale is written as it was decoded, without escaping. It
      is read as the same key again if nothing in it has a meaning and decoding keeps it. */
  predicate RawStable(base: bytes) {
    StartsLine(base) && OPEN !in base && EQUALS !in base && NEWLINE !in base && Decode(base).out == base
  }

  /** The shape in which the parser keeps such a key. */
  predicate RawShape(k: bytes, locale: bytes) {
    var base, tag := RawBase(k), RawTag(k);
    k == base + [OPEN] + tag + [CLOSE] && TagOk(tag) && !OwnLocale(tag, locale)
  }

  predicate RawKeyOk(k: bytes, locale: bytes) {
    RawShape(k, locale) && RawStable(RawBase(k))
  }

  predicate ValueOk(k: KEntryKey, e: KEntry) {
    if e.bDeleted then !k.bLocal && !e.bRaw && e.mValue.Null? else e.mValue.Data? && FlushSafe([], e.mValue.data)
  }

  /** An entry that survives the trip through the file. */
  predicate EntryOk(k: KEntryKey, e: KEntry, locale: bytes) {
    && !k.bDefault
    && (if e.bRaw then k.bLocal && RawKeyOk(k.mKey, locale) else KeyOk(k.mKey))
    && ValueOk(k, e)
  }

  /** The same without asking whether a raw key is stable. */
  predicate LooseEntryOk(k: KEntryKey, e: KEntry, locale: bytes) {
    && !k.bDefault
    && (if e.bRaw then k.bLocal && RawShape(k.mKey, locale) else KeyOk(k.mKey))
    && ValueOk(k, e)
  }

  /** The locale tag in the file, Null for a plain line. */
  function TagOf(k: KEntryKey, e: KEntry, locale: bytes): QByteArray {
    if e.bRaw then Data(RawTag(k.mKey)) else if k.bLocal then Data(locale) else Null
  }

  /** The unencoded key in front of the tag. */
  function BaseOf(k: KEntryKey, e: KEntry): bytes {
    if e.bRaw then RawBase(k.mKey) else k.mKey
  }

  /** The same as it is written. */
  function BaseText(k: KEntryKey, e: KEntry): bytes {
    if e.bRaw then RawBase(k.mKey) else Encode(KeyString, k.mKey)
  }

  // ---------------------------------------------------------------------------
  // The text of a line
  // ---------------------------------------------------------------------------

  function Bracketed(inside: bytes): bytes {
    [OPEN] + inside + [CLOSE]
  }

  function TagText(tag: QByteArray): bytes {
    if tag.Null? then [] else Bracketed(tag.data)
  }

  lemma KeyTextParts(k: KEntryKey, e: KEntry, locale: bytes)
    requires EntryOk(k, e, locale) && LocaleOk(locale)
    ensures KeyText(locale, k, e) == BaseText(k, e) + TagText(TagOf(k, e, locale))
    ensures TagOf(k, e, locale).Data? ==> TagOk(TagOf(k, e, locale).data)
    ensures Decode(BaseText(k, e)).out == BaseOf(k, e)
    ensures BaseFits(BaseText(k, e)) && (TagOf(k, e, locale).Null? ==> NoOuterSpace(BaseText(k, e)))
  {
    hide Encode, Decode, FlushSafe, TagOk, NoOuterSpace;
    if e.bRaw {
      var base, tag := RawBase(k.mKey), RawTag(k.mKey);
      assert k.mKey == base + ([OPEN] + tag + [CLOSE]);
    } else {
      RoundTrip(KeyString, k.mKey);
      EncodedKeyStart(k.mKey);
      SpaceFree(Encode(KeyString, k.mKey));
      if !k.bLocal {
        assert Encode(KeyString, k.mKey) + [] == Encode(KeyString, k.mKey);
      }
    }
  }

  /** Text in front of a tag, an option or a '='. */
  predicate BaseFits(t: bytes) {
    StartsLine(t) && OPEN !in t && EQUALS !in t && NEWLINE !in t
  }

  lemma SpaceFree(t: bytes)
    ensures t != [] && NoOuterSpace(t) ==> !IsSpace(t[0])
  {
  }

  /** An encoded key starts with '#' only if the key does. */
  lemma EncodedKeyStart(k: bytes)
    requires KeyOk(k)
    ensures var t := Encode(KeyString, k);
            t != [] && t[0] != HASH && t[0] != OPEN && NoOuterSpace(t) && OPEN !in t && EQUALS !in t && NEWLINE !in t
  {
    hide Encode, FlushSafe, Unescape;
    var t := Encode(KeyString, k);
    EncodePrintable(KeyString, k);
    DecodeEncode(KeyString, k);
    ReorderIdentity([], k);
    assert [] + k == k;
    if t[0] == HASH {
      HashStays(t);
    }
  }

  lemma HashStays(t: bytes)
    requires t != [] && t[0] == HASH
    ensures Unescape(t).out != [] && Unescape(t).out[0] == HASH
  {
  }

  // ---------------------------------------------------------------------------
  // Taking the key apart again
  // ---------------------------------------------------------------------------

  /** One turn of the loop over the bracketed parts of a key. */
  lemma BracketPart(t: bytes, inside: bytes, o: EntryOptions, locale: QByteArray, opts: ParseOptions)
    requires OPEN !in inside && CLOSE !in inside
    ensures ParseKey(t + Bracketed(inside), o, locale, opts) ==
            if inside != [] && inside[0] == DOLLAR then
              var r := ScanFlags(inside[1..], o, opts);
              if r.deleted then DeletedKey(t, r.o) else ParseKey(t, r.o, locale, opts)
            else if locale.Data? then BadKey
            else ParseKey(t, o, Data(inside), opts)
  {
    hide LastIndexOf, IndexOf, ScanFlags, Bracketed;
    BracketIndices(t, inside);
    BracketSlices(t, inside);
  }

  lemma BracketIndices(t: bytes, inside: bytes)
    requires OPEN !in inside && CLOSE !in inside
    ensures LastIndexOf(t + Bracketed(inside), OPEN) == |t|
    ensures IndexOf(Bracketed(inside), CLOSE) == |inside| + 1
  {
    hide *;
    BracketGroupings(t, inside);
    LastIndexOfConcat(t, OPEN, inside + [CLOSE]);
    IndexOfConcat([OPEN] + inside, CLOSE, []);
  }

  lemma BracketGroupings(t: bytes, inside: bytes)
    ensures t + [OPEN] + (inside + [CLOSE]) == t + Bracketed(inside)
    ensures [OPEN] + inside + [CLOSE] + [] == Bracketed(inside)
    ensures CLOSE !in inside ==> CLOSE !in [OPEN] + inside
    ensures OPEN !in inside ==> OPEN !in inside + [CLOSE]
  {
  }

  lemma BracketSlices(t: bytes, inside: bytes)
    ensures (t + Bracketed(inside))[|t|..] == Bracketed(inside)
    ensures (t + Bracketed(inside))[..|t|] == t
    ensures |Bracketed(inside)| == |inside| + 2 && Bracketed(inside)[1..|inside| + 1] == inside
  {
  }

  function Flags(e: KEntry): bytes {
    [DOLLAR] + (if e.bImmutable then [LOWER_I] else []) + (if e.bExpand then [LOWER_E] else [])
  }

  /** The options that the parser finds in a written line; a group's immutability is that of
      all its entries, and a deletion keeps no other flag. */
  function OptionsOf(k: KEntryKey, e: KEntry, locale: bytes, groupImmutable: bool): EntryOptions {
    var tag := TagOf(k, e, locale);
    NO_OPTIONS.(immutable := groupImmutable || (e.bImmutable && !e.bDeleted), expansion := e.bExpand && !e.bDeleted,
                deleted := e.bDeleted, rawKey := e.bRaw,
                localized := k.bLocal, localizedCountry := tag.Data? && UNDERSCORE in tag.data)
  }

  lemma ScanOneFlag(c: byte, rest: bytes, o: EntryOptions, opts: ParseOptions)
    requires c == LOWER_I || c == LOWER_E
    ensures ScanFlags([c] + rest, o, opts) ==
            ScanFlags(rest, if c == LOWER_I then o.(immutable := true)
                else o.(expansion := o.expansion || opts.expansions), opts)
  {
    assert ([c] + rest)[1..] == rest;
  }

  lemma ScanOwnFlags(e: KEntry, o: EntryOptions, opts: ParseOptions)
    requires opts.expansions
    ensures ScanFlags(Flags(e)[1..], o, opts)
         == FlagResult(o.(immutable := o.immutable || e.bImmutable, expansion := o.expansion || e.bExpand), false)
  {
    hide ScanFlags;
    var o1 := o.(immutable := true);
    FlagCases(e);
    if e.bImmutable && e.bExpand {
      ScanOneFlag(LOWER_I, [LOWER_E], o, opts);
      assert [LOWER_E] + [] == [LOWER_E];
      ScanOneFlag(LOWER_E, [], o1, opts);
      ScanNothing(o1.(expansion := true), opts);
    } else if e.bImmutable {
      ScanOneFlag(LOWER_I, [], o, opts);
      ScanNothing(o1, opts);
    } else if e.bExpand {
      ScanOneFlag(LOWER_E, [], o, opts);
      ScanNothing(o.(expansion := true), opts);
    } else {
      ScanNothing(o, opts);
    }
  }

  lemma FlagCases(e: KEntry)
    ensures Flags(e)[1..] ==
            if e.bImmutable && e.bExpand then [LOWER_I] + [LOWER_E]
            else if e.bImmutable then [LOWER_I] + []
            else if e.bExpand then [LOWER_E] + []
            else []
  {
  }

  lemma ScanNothing(o: EntryOptions, opts: ParseOptions)
    ensures ScanFlags([], o, opts) == FlagResult(o, false)
  {
  }

  /** The flags of an entry that is not deleted. */
  lemma ParseOwnFlags(t: bytes, e: KEntry, o: EntryOptions, opts: ParseOptions)
    requires !e.bDeleted && opts.expansions && !o.expansion
    ensures ParseKey(t + FlagText(e), o, Null, opts)
         == ParseKey(t, o.(immutable := o.immutable || e.bImmutable, expansion := e.bExpand), Null, opts)
  {
    hide ParseKey, ScanFlags;
    if e.bImmutable || e.bExpand {
      FlagTextInside(t, e);
      ScanOwnFlags(e, o, opts);
      BracketPart(t, Flags(e), o, Null, opts);
    } else {
      assert t + [] == t;
    }
  }

  lemma FlagTextInside(t: bytes, e: KEntry)
    requires !e.bDeleted && (e.bImmutable || e.bExpand)
    ensures t + FlagText(e) == t + Bracketed(Flags(e))
    ensures OPEN !in Flags(e) && CLOSE !in Flags(e) && Flags(e)[0] == DOLLAR
  {
    assert FlagText(e) == Bracketed(Flags(e));
  }

  /** Both marks of a deletion are read alike: the 'd' comes first and ends the line. */
  lemma DeletionMark(t: bytes, e: KEntry, o: EntryOptions, opts: ParseOptions)
    requires e.bDeleted
    ensures ParseKey(t + FlagText(e), o, Null, opts)
            == DeletedKey(t, o.(deleted := true, forDefault := o.forDefault || opts.defaults))
  {
    hide ParseKey;
    var inside := if e.bImmutable then [DOLLAR, LOWER_D, LOWER_I] else [DOLLAR, LOWER_D];
    assert FlagText(e) == Bracketed(inside);
    assert inside[1..] == if e.bImmutable then [LOWER_D, LOWER_I] else [LOWER_D];
    BracketPart(t, inside, o, Null, opts);
  }

  lemma ParseTag(b: bytes, tag: QByteArray, o: EntryOptions, opts: ParseOptions)
    requires OPEN !in b && (tag.Data? ==> TagOk(tag.data))
    ensures ParseKey(b + TagText(tag), o, Null, opts) == ParsedKey(b, o, tag)
  {
    hide ParseKey;
    ParsePlainKey(b, o, tag, opts);
    if tag.Data? {
      BracketPart(b, tag.data, o, Null, opts);
    } else {
      assert b + [] == b;
    }
  }

  lemma ParsePlainKey(b: bytes, o: EntryOptions, tag: QByteArray, opts: ParseOptions)
    requires OPEN !in b
    ensures ParseKey(b, o, tag, opts) == ParsedKey(b, o, tag)
  {
  }

  // ---------------------------------------------------------------------------
  // The whole line
  // ---------------------------------------------------------------------------

  /** Not empty, without outer spaces, not a comment and not a header. */
  predicate StartsLikeKey(t: bytes) {
    t != [] && t[0] != HASH && t[0] != OPEN && NoOuterSpace(t)
  }

  lemma KeyTextShape(k: KEntryKey, e: KEntry, locale: bytes)
    requires EntryOk(k, e, locale) && LocaleOk(locale)
    ensures StartsLikeKey(KeyText(locale, k, e)) && EQUALS !in KeyText(locale, k, e)
            && NEWLINE !in KeyText(locale, k, e)
  {
    hide Encode, EntryOk, KeyText, BaseText, BaseOf, TagOf, FlushSafe, Decode, NoOuterSpace;
    KeyTextParts(k, e, locale);
    TagTextShape(BaseText(k, e), TagOf(k, e, locale));
  }

  lemma TagTextShape(t: bytes, tag: QByteArray)
    requires BaseFits(t)
    requires if tag.Data? then TagOk(tag.data) else NoOuterSpace(t)
    ensures StartsLikeKey(t + TagText(tag)) && EQUALS !in t + TagText(tag) && NEWLINE !in t + TagText(tag)
  {
    if tag.Null? {
      assert t + [] == t;
    }
  }

  lemma FlagTextShape(t: bytes, e: KEntry)
    requires StartsLikeKey(t) && EQUALS !in t && NEWLINE !in t
    ensures StartsLikeKey(t + FlagText(e)) && EQUALS !in t + FlagText(e) && NEWLINE !in t + FlagText(e)
  {
    if FlagText(e) == [] {
      assert t + [] == t;
    } else {
      FlagTextEnds(e);
    }
  }

  lemma FlagTextEnds(e: KEntry)
    requires FlagText(e) != []
    ensures FlagText(e)[|FlagText(e)| - 1] == CLOSE && EQUALS !in FlagText(e) && NEWLINE !in FlagText(e)
  {
  }

  lemma ValueShape(t: bytes, v: bytes)
    requires StartsLikeKey(t) && NEWLINE !in t
    ensures StartsLikeKey(t + [EQUALS] + Encode(ValueString, v)) && NEWLINE !in t + [EQUALS] + Encode(ValueString, v)
  {
    hide Encode;
    EncodePrintable(ValueString, v);
    NoNewline(ValueString, v);
  }

  /** The reader reads a user's file. */
  predicate Reader(opts: ParseOptions) {
    !opts.global && !opts.defaults && opts.expansions
  }

  /** It has the writer's locale. */
  predicate SameReader(opts: ParseOptions, locale: bytes) {
    opts.locale == locale && Reader(opts)
  }

  /** The state after reading the line of an entry with the writer's locale. */
  function Entered(st: ParseState, k: KEntryKey, e: KEntry, locale: bytes, opts: ParseOptions): ParseState {
    if e.bRaw && !opts.merging then st
    else st.(m := SetEntry(st.m, st.group, k.mKey, e.mValue, OptionsOf(k, e, locale, st.groupImmutable)).m)
  }

  /** The same for a reader with any locale, for which other tags are foreign. */
  function EnteredBy(st: ParseState, k: KEntryKey, e: KEntry, locale: bytes, opts: ParseOptions): ParseState {
    var tag := TagOf(k, e, locale);
    var foreign := !OwnLocale(tag.Chars(), opts.locale);
    var o := OptionsOf(k, e, locale, st.groupImmutable).(rawKey := foreign, localized := tag.Data?);
    if foreign && !opts.merging then st
    else
      var key := if foreign then BaseOf(k, e) + [OPEN] + tag.Chars() + [CLOSE] else BaseOf(k, e);
      st.(m := SetEntry(st.m, st.group, key, e.mValue, o).m)
  }

  lemma ReadDeleted(st: ParseState, k: KEntryKey, e: KEntry, locale: bytes, opts: ParseOptions)
    requires LocaleOk(locale) && Reader(opts) && EntryOk(k, e, locale) && e.bDeleted
    requires !st.groupSkip
    ensures ParseEntry(st, KeyText(locale, k, e) + FlagText(e), opts) == EnteredBy(st, k, e, locale, opts)
  {
    hide Encode, Decode, FlushSafe, KeyText, FlagText, ParseKey, Trimmed, SetEntry, IndexOf, StartsLikeKey, RawKeyOk,
         KeyOk;
    KeyTextParts(k, e, locale);
    KeyTextShape(k, e, locale);
    FlagTextShape(KeyText(locale, k, e), e);
    var o := NO_OPTIONS.(immutable := st.groupImmutable);
    DeletionMark(KeyText(locale, k, e), e, o, opts);
    LikeKeyNotEmpty(KeyText(locale, k, e) + FlagText(e));
    assert BaseText(k, e) + [] == BaseText(k, e);
    assert OptionsOf(k, e, locale, st.groupImmutable) == o.(deleted := true);
  }

  lemma LikeKeyNotEmpty(t: bytes)
    requires StartsLikeKey(t)
    ensures t != []
  {
  }

  lemma ReadKept(st: ParseState, k: KEntryKey, e: KEntry, locale: bytes, opts: ParseOptions)
    requires LocaleOk(locale) && Reader(opts) && EntryOk(k, e, locale) && !e.bDeleted
    requires !st.groupSkip
    ensures ParseEntry(st, KeyText(locale, k, e) + FlagText(e) + [EQUALS] + Encode(ValueString, e.mValue.Chars()), opts)
         == EnteredBy(st, k, e, locale, opts)
  {
    hide Encode, Decode, FlushSafe, KeyText, BaseText, FlagText, ParseKey, Trimmed, SetEntry, IndexOf, EntryOk,
         StoreEntry, NoOuterSpace;
    var t, v := KeyText(locale, k, e), Encode(ValueString, e.mValue.Chars());
    var key := t + FlagText(e);
    var line := key + [EQUALS] + v;
    KeyTextShape(k, e, locale);
    FlagTextShape(t, e);
    IndexOfConcat(key, EQUALS, v);
    assert line[..|key|] == key && line[|key| + 1..] == v;
    EncodePrintable(ValueString, e.mValue.Chars());
    var o := NO_OPTIONS.(immutable := st.groupImmutable);
    ParseOwnFlags(t, e, o, opts);
    KeyTextParts(k, e, locale);
    ParseTag(BaseText(k, e), TagOf(k, e, locale), o.(immutable := o.immutable || e.bImmutable, expansion := e.bExpand),
        opts);
    StoreOwnEntry(st, k, e, locale, opts);
  }

  lemma StoreOwnEntry(st: ParseState, k: KEntryKey, e: KEntry, locale: bytes, opts: ParseOptions)
    requires LocaleOk(locale) && Reader(opts) && EntryOk(k, e, locale) && !e.bDeleted
    ensures StoreEntry(st, BaseText(k, e), NO_OPTIONS.(immutable := st.groupImmutable
            || e.bImmutable, expansion := e.bExpand),
                       TagOf(k, e, locale), Encode(ValueString, e.mValue.Chars()), opts)
         == EnteredBy(st, k, e, locale, opts)
  {
    hide Encode, Decode, FlushSafe, SetEntry, EntryOk, BaseOf, BaseText, TagOf, OwnLocale;
    KeyTextParts(k, e, locale);
    OwnTag(k, e, locale);
    RoundTrip(ValueString, e.mValue.Chars());
  }

  /** Raw entries are the ones for other locales. */
  lemma OwnTag(k: KEntryKey, e: KEntry, locale: bytes)
    requires EntryOk(k, e, locale) && !e.bDeleted
    ensures OwnLocale(TagOf(k, e, locale).Chars(), locale) <==> !e.bRaw
    ensures k.mKey == if e.bRaw then BaseOf(k, e) + [OPEN] + TagOf(k, e, locale).Chars() + [CLOSE] else BaseOf(k, e)
    ensures TagOf(k, e, locale).Data? <==> k.bLocal
    ensures e.mValue.Data? && FlushSafe([], e.mValue.Chars())
  {
    hide Encode, FlushSafe, TagOk, KeyOk, RawBase, RawTag, RawStable;
  }

  /** Reading the line of an entry makes the one setEntry call that stores it again, under the
      key that the line has for the reader's locale. */
  lemma ReadEntryBy(st: ParseState, k: KEntryKey, e: KEntry, locale: bytes, opts: ParseOptions)
    requires LocaleOk(locale) && Reader(opts) && EntryOk(k, e, locale)
    requires !st.groupSkip
    ensures ParseLine(st, EntryText(locale, k, e) + [NEWLINE], opts) == EnteredBy(st, k, e, locale, opts)
    ensures NEWLINE !in EntryText(locale, k, e)
  {
    hide Encode, FlushSafe, KeyText, FlagText, Trimmed, ParseEntry, EnteredBy, NoOuterSpace;
    KeyTextShape(k, e, locale);
    FlagTextShape(KeyText(locale, k, e), e);
    ValueShape(KeyText(locale, k, e) + FlagText(e), e.mValue.Chars());
    var line := EntryText(locale, k, e);
    EntryTextCases(k, e, locale);
    TrimNewline(line);
    if e.bDeleted {
      ReadDeleted(st, k, e, locale, opts);
    } else {
      ReadKept(st, k, e, locale, opts);
    }
  }

  /** For a reader with the writer's locale that is the entry's own key. */
  lemma ReadEntry(st: ParseState, k: KEntryKey, e: KEntry, locale: bytes, opts: ParseOptions)
    requires LocaleOk(locale) && SameReader(opts, locale) && EntryOk(k, e, locale)
    requires !st.groupSkip
    ensures ParseLine(st, EntryText(locale, k, e) + [NEWLINE], opts) == Entered(st, k, e, locale, opts)
    ensures NEWLINE !in EntryText(locale, k, e)
  {
    hide EntryText, ParseLine, SetEntry, OwnLocale, RawKeyOk, KeyOk, FlushSafe;
    ReadEntryBy(st, k, e, locale, opts);
    if e.bDeleted {
      assert OwnLocale([], locale) by { PlainIsOwn(locale); }
    } else {
      OwnTag(k, e, locale);
    }
  }

  lemma PlainIsOwn(locale: bytes)
    ensures OwnLocale([], locale)
  {
  }

  lemma EntryTextCases(k: KEntryKey, e: KEntry, locale: bytes)
    ensures e.bDeleted ==> EntryText(locale, k, e) == KeyText(locale, k, e) + FlagText(e)
    ensures !e.bDeleted ==>
              EntryText(locale, k, e) == KeyText(locale, k, e) + FlagText(e) + [EQUALS]
                  + Encode(ValueString, e.mValue.Chars())
  {
    hide Encode, KeyText, FlagText;
  }
}
