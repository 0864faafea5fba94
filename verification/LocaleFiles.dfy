/** Localized lines as they stand in a file, and the deletion lines whose marks the parser reads
    in its own way (src/core/kconfigini.cpp:148-272). */
module LocaleFiles {
  import opened Bytes
  import opened IniCodec
  import opened CodecLaws
  import opened CodecTheorems
  import opened EntryMap
  import opened Immutability
  import opened IniParser
  import opened IniWriter
  import opened IniLines
  import opened IniEntries
  import opened Locale
  import opened TaggedLines

  // ---------------------------------------------------------------------------
  // Localized lines
  // ---------------------------------------------------------------------------

  /** A locale lang_COUNTRY; both lang and lang_COUNTRY can stand between brackets. */
  predicate CountryLocale(locale: bytes) {
    LocaleOk(locale) && UNDERSCORE in locale && TagOk(IniParser.Language(locale))
  }

  function TagIn(tag: Tag, locale: bytes): QByteArray {
    match tag
    case Untagged => Null
    case Language => Data(IniParser.Language(locale))
    case Country => Data(locale)
  }

  function AsTagged(l: Line, locale: bytes): TaggedLine {
    TaggedLine(l.k, TagIn(l.tag, locale), l.v)
  }

  /** `key[tag]=value`, escaped. */
  function LineText(l: Line, locale: bytes): bytes {
    AsTagged(l, locale).Text()
  }

  predicate LineOk(l: Line) {
    KeyOk(l.k) && FlushSafe([], l.v)
  }

  /** A reader with this locale, in a group that it does not skip. */
  predicate Reading(st: ParseState, opts: ParseOptions, locale: bytes) {
    opts.locale == locale && !opts.global && (opts.defaults || !st.groupSkip) && !st.groupImmutable
  }

  lemma OwnTags(tag: Tag, locale: bytes)
    requires CountryLocale(locale)
    ensures OwnLocale(TagIn(tag, locale).Chars(), locale)
    ensures TagIn(tag, locale).Data? ==>
            TagOk(TagIn(tag, locale).data) && (UNDERSCORE in TagIn(tag, locale).data <==> tag == Country)
    ensures TagIn(tag, locale).Data? <==> tag != Untagged
  {
    hide TagOk;
  }

  /** Such a line makes the call that module Locale is about. */
  lemma ReadLocalizedLine(st: ParseState, l: Line, locale: bytes, opts: ParseOptions)
    requires CountryLocale(locale) && Reading(st, opts, locale) && LineOk(l)
    ensures ParseLine(st, LineText(l, locale) + [NEWLINE], opts)
            == st.(m := Apply(st.m, AsWrite(st.group, l, opts.defaults)))
    ensures NEWLINE !in LineText(l, locale)
  {
    hide KeyOk, FlushSafe, TagIn, TaggedLine.Text, Apply, CountryLocale, OwnLocale, TagOk;
    OwnTags(l.tag, locale);
    ReadTagged(st, AsTagged(l, locale), opts);
  }

  function LinesText(ls: seq<Line>, locale: bytes): bytes
    decreases |ls|
  {
    if ls == [] then [] else LineText(ls[0], locale) + [NEWLINE] + LinesText(ls[1..], locale)
  }

  /** The lines of a group, read one after the other. */
  lemma {:induction false} ReadLines(st: ParseState, ls: seq<Line>, locale: bytes, opts: ParseOptions)
    requires CountryLocale(locale) && Reading(st, opts, locale) && st.errors == 0
    requires forall l :: l in ls ==> LineOk(l)
    ensures ParseText(st, LinesText(ls, locale), opts) == st.(m := Parse(st.m, st.group, ls, opts.defaults))
    decreases |ls|
  {
    hide ParseLine, LineText, Apply, CountryLocale, LineOk, AsWrite, FirstLine;
    if ls == [] {
    } else {
      var first := LineText(ls[0], locale);
      ReadLocalizedLine(st, ls[0], locale, opts);
      ParseOneLine(st, first, opts);
      ParseTextConcat(st, first + [NEWLINE], LinesText(ls[1..], locale), opts);
      ReadLines(ParseLine(st, first + [NEWLINE], opts), ls[1..], locale, opts);
    }
  }

  /** Two texts with the same localized lines in different orders are read to the same lookups. */
  lemma TextOrderIndependence(st: ParseState, ls: seq<Line>, ls': seq<Line>, locale: bytes, opts: ParseOptions,
                              k: bytes, fallback: QByteArray, flags: SearchFlags)
    requires CountryLocale(locale) && Reading(st, opts, locale) && st.errors == 0
    requires k != [] && (forall l :: l in ls ==> LineOk(l)) && Distinct(ls) && multiset(ls) == multiset(ls')
    requires MarkerMutable(st.m, st.group) && NoEntryFor(st.m, st.group, k)
    requires flags.defaults ==> opts.defaults
    ensures GetEntry(ParseText(st, LinesText(ls, locale), opts).m, st.group, k, fallback, flags)
         == GetEntry(ParseText(st, LinesText(ls', locale), opts).m, st.group, k, fallback, flags)
    ensures var plain := Or(ValueOf(ls, k, Untagged), fallback);
            GetEntry(ParseText(st, LinesText(ls, locale), opts).m, st.group, k, fallback, flags) ==
            if flags.localized then Or(ValueOf(ls, k, Country), Or(ValueOf(ls, k, Language), plain)) else plain
  {
    hide ParseText, LinesText, GetEntry, Parse, CountryLocale, ValueOf, KeyOk, FlushSafe;
    SameLines(ls, ls');
    ReadLines(st, ls, locale, opts);
    ReadLines(st, ls', locale, opts);
    KeysNotEmpty(ls);
    OrderIndependence(st.m, st.group, ls, ls', opts.defaults, k, fallback, flags);
    LocalizedLookup(st.m, st.group, ls, opts.defaults, k, fallback, flags);
  }

  lemma KeysNotEmpty(ls: seq<Line>)
    requires forall l :: l in ls ==> LineOk(l)
    ensures forall l :: l in ls ==> l.k != []
  {
    hide FlushSafe;
  }

  // ---------------------------------------------------------------------------
  // Deletion lines
  // ---------------------------------------------------------------------------

  /** The key of a deletion line, as the parser decodes it: a locale tag stays part of it. */
  function DeletedName(k: KEntryKey, locale: bytes): bytes {
    if k.bLocal && locale != C_LOCALE then k.mKey + Bracketed(locale) else k.mKey
  }

  lemma DecodeWithTag(k: bytes, tag: bytes)
    requires KeyOk(k) && BACKSLASH !in tag
    ensures Decode(Encode(KeyString, k) + Bracketed(tag)).out == k + Bracketed(tag)
  {
    hide Encode, FlushSafe, Unescape, Trimmed, NoOuterSpace;
    var e, b := Encode(KeyString, k), Bracketed(tag);
    DecodeEncode(KeyString, k);
    ReorderIdentity([], k);
    assert [] + k == k;
    PlainUnits(b);
    UnescapeConcat(e, b);
    UnescapePlain(e + b);
    EncodedStarts(k);
    BracketedEnds(e, b);
  }

  lemma BracketedEnds(e: bytes, b: bytes)
    requires StartsLikeKey(e) && b != [] && b[|b| - 1] == CLOSE
    ensures NoOuterSpace(e + b)
  {
  }

  lemma UnescapePlain(s: bytes)
    ensures BACKSLASH !in s ==> Unescape(s) == Decoded(true, s)
  {
    if BACKSLASH !in s {
      PlainUnits(s);
    }
  }

  /** What is read back of a deleted entry, whatever its flags: a plain deletion without
      immutability of its own, under a name that a locale tag has become part of. */
  lemma ReadDeletion(st: ParseState, k: KEntryKey, e: KEntry, locale: bytes, opts: ParseOptions)
    requires e.bDeleted && !e.bRaw && KeyOk(k.mKey) && LocaleOk(locale) && BACKSLASH !in locale
    requires !st.groupSkip
    ensures ParseLine(st, EntryText(locale, k, e) + [NEWLINE], opts).m ==
            Apply(st.m, Write(st.group, DeletedName(k, locale), Null,
                              NO_OPTIONS.(immutable := st.groupImmutable, deleted := true,
                                  forDefault := opts.defaults)))
  {
    hide Encode, Decode, FlushSafe, ParseKey, Trimmed, SetEntry, IndexOf, NoOuterSpace, KeyOk, FlagText, LocaleOk,
         StartsLikeKey;
    var b := Encode(KeyString, k.mKey);
    var tag := if k.bLocal then Data(locale) else Null;
    var t := b + TagText(tag);
    LocaleTag(locale);
    EncodedStarts(k.mKey);
    TagTextShape(b, tag);
    FlagTextShape(t, e);
    assert EntryText(locale, k, e) == t + FlagText(e);
    var line := t + FlagText(e);
    StartsAndEnds(line);
    TrimNewline(line);
    DeletionMark(t, e, NO_OPTIONS.(immutable := st.groupImmutable), opts);
    KeyRoundTrip(k.mKey);
    DecodeWithTag(k.mKey, locale);
    assert b + [] == b;
  }

  lemma LocaleTag(locale: bytes)
    requires LocaleOk(locale)
    ensures TagOk(locale) && locale != C_LOCALE
  {
  }
}
