/** What a settings item reads where its key has localized lines (src/core/kconfiggroup.cpp:643-700,
    src/core/kcoreconfigskeleton.h:377-407, src/core/kconfigdata.cpp:34-69). */
module LocalizedItems {
  import opened Bytes
  import opened CodecLaws
  import opened EntryMap
  import opened Immutability
  import opened IniParser
  import opened IniEntries
  import opened Skeleton
  import Locale
  import LocaleFiles

  /** What an entry says to an item: its value, read with its own flag for expansion, or
      nothing, for which the built-in value stands in. */
  ghost predicate Says<T(!new)>(e: KEntry, item: Item<T>, v: T) {
    && (!e.bDeleted && e.mValue.Data? ==> v == item.codec.decode(e.mValue.data, e.bExpand))
    && (e.bDeleted || e.mValue.Null? ==> v == item.builtin)
  }

  /** The localized entry decides if there is one, even if it is deleted or has no value; then
      the plain one; then the built-in value. That holds for defaults and for other entries. */
  lemma LocalizedDecides<T(!new)>(m: Entries, item: Item<T>, defaults: bool)
    ensures var local, plain := KEntryKey(item.group, item.key, true, defaults),
                                KEntryKey(item.group, item.key, false, defaults);
            && (local in m ==> Says(m[local], item, ReadValue(m, item, defaults)))
            && (local !in m && plain in m ==> Says(m[plain], item, ReadValue(m, item, defaults)))
            && (local !in m && plain !in m ==> ReadValue(m, item, defaults) == item.builtin)
  {
  }

  /** There is a default to go back to exactly if the localized default has a value, where it is
      there, and else the plain one; an item that has none and shows its fallback is reverted
      when it is written. */
  lemma DefaultIsThere(m: Entries, g: bytes, k: bytes)
    ensures var local, plain := KEntryKey(g, k, true, true), KEntryKey(g, k, false, true);
            HasDefault(m, g, k) <==> if local in m then m[local].mValue.Data? else plain in m && m[plain].mValue.Data?
  {
  }

  /** From the text: of the lines of a group, in any order, the item takes the one for its country,
      else the one for its language, else the plain one, else its built-in value; from a file of
      defaults its default does the same. */
  lemma ItemFromText<T(!new)>(st: ParseState, ls: seq<Locale.Line>, locale: bytes, opts: ParseOptions, item: Item<T>,
                              defaults: bool)
    requires LocaleFiles.CountryLocale(locale) && LocaleFiles.Reading(st, opts, locale) && st.errors == 0
    requires item.group == st.group && item.key != [] && Locale.Distinct(ls)
    requires forall l :: l in ls ==> LocaleFiles.LineOk(l)
    requires MarkerMutable(st.m, st.group) && Locale.NoEntryFor(st.m, st.group, item.key)
    requires defaults ==> opts.defaults
    ensures var country, language, plain := Locale.ValueOf(ls, item.key, Locale.Country),
                                            Locale.ValueOf(ls, item.key, Locale.Language),
                                            Locale.ValueOf(ls, item.key, Locale.Untagged);
            ReadValue(ParseText(st, LocaleFiles.LinesText(ls, locale), opts).m, item, defaults) ==
            if country.Data? then item.codec.decode(country.data, false)
            else if language.Data? then item.codec.decode(language.data, false)
            else if plain.Data? then item.codec.decode(plain.data, false)
            else item.builtin
  {
    hide ParseText, LocaleFiles.LinesText, Locale.Parse, LocaleFiles.CountryLocale, Locale.ValueOf, KeyOk, FlushSafe;
    LocaleFiles.ReadLines(st, ls, locale, opts);
    LocaleFiles.KeysNotEmpty(ls);
    Locale.EntriesAfter(st.m, st.group, ls, opts.defaults, item.key, defaults);
    LocalizedDecides(ParseText(st, LocaleFiles.LinesText(ls, locale), opts).m, item, defaults);
  }
}
