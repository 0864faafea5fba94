/** writeEntries as a function of the map (src/core/kconfigini.cpp:286-396).
    IniWriterLoop.dfy holds the loops. */
module IniWriter {
  import opened Bytes
  import opened IniCodec
  import opened EntryMap
  import opened IniParser

  const C_LOCALE: bytes := [UPPER_C] // "C"
  const ESCAPED_DOLLAR: bytes := [BACKSLASH, LOWER_X, 50, 52] // "\x24"

  predicate IsLowerCase(b: byte) {
    LOWER_A <= b <= LOWER_Z
  }

  /** A component that the parser could take for an option such as "$i". */
  predicate LooksLikeOption(c: bytes) {
    0 < |c| <= 10 && c[0] == DOLLAR && forall i :: 1 <= i < |c| ==> IsLowerCase(c[i])
  }

  function LastComponent(c: bytes): bytes {
    if LooksLikeOption(c) then ESCAPED_DOLLAR + Encode(GroupString, c[1..]) else Encode(GroupString, c)
  }

  function Option(immutable: bool): bytes {
    if immutable then [OPEN, DOLLAR, LOWER_I, CLOSE] else []
  }

  /** The header of a group, or of what is left of its name behind a separator. */
  function HeaderText(g: bytes, immutable: bool): bytes
    decreases |g|
  {
    var e := IndexOf(g, SEPARATOR);
    if e < 0 then [OPEN] + LastComponent(g) + [CLOSE] + Option(immutable)
    else [OPEN] + Encode(GroupString, g[..e]) + [CLOSE] + HeaderText(g[e + 1..], immutable)
  }

  function KeyText(locale: bytes, k: KEntryKey, e: KEntry): bytes {
    if e.bRaw then k.mKey
    else Encode(KeyString, k.mKey) + if k.bLocal && locale != C_LOCALE then [OPEN] + locale + [CLOSE] else []
  }

  function FlagText(e: KEntry): bytes {
    if e.bDeleted then
      if e.bImmutable then [OPEN, DOLLAR, LOWER_D, LOWER_I, CLOSE] else [OPEN, DOLLAR, LOWER_D, CLOSE]
    else if e.bImmutable || e.bExpand then
      [OPEN, DOLLAR] + (if e.bImmutable then [LOWER_I] else []) + (if e.bExpand then [LOWER_E] else []) + [CLOSE]
    else []
  }

  /** The line of an entry, without its newline. */
  function EntryText(locale: bytes, k: KEntryKey, e: KEntry): bytes {
    KeyText(locale, k, e) + FlagText(e) + if e.bDeleted then [] else [EQUALS] + Encode(ValueString, e.mValue.Chars())
  }

  /** The text in front of the first entry of a group. */
  function HeaderLines(first: bool, g: bytes, immutable: bool): bytes {
    (if first then [] else [NEWLINE]) + HeaderText(g, immutable) + [NEWLINE]
  }

  /** Which groups a pass of writeEntries is about. */
  datatype Pass = Pass(defaultGroup: bool, primaryGroup: bool)

  predicate Selected(g: bytes, primary: QByteArray, pass: Pass) {
    && (g == DEFAULT_GROUP) == pass.defaultGroup
    && (primary.Data? && g == primary.data) == pass.primaryGroup
  }

  datatype WriteState = WriteState(group: bytes, immutable: bool, firstEntry: bool, out: bytes)

  /** One turn of the loop over the map. */
  function WriteOne(m: Entries, k: KEntryKey, locale: bytes, primary: QByteArray, pass: Pass,
                    st: WriteState): WriteState
    requires k in m
  {
    if !Selected(k.mGroup, primary, pass) then st
    else if k.mKey == [] then st.(immutable := m[k].bImmutable)
    else
      var newGroup := !pass.defaultGroup && st.group != k.mGroup;
      var out := if newGroup then st.out + HeaderLines(st.firstEntry, k.mGroup, st.immutable) else st.out;
      WriteState(if newGroup then k.mGroup else st.group, st.immutable, false, out
          + (EntryText(locale, k, m[k]) + [NEWLINE]))
  }

  function WriteKeys(m: Entries, ks: seq<KEntryKey>, locale: bytes, primary: QByteArray, pass: Pass,
                     st: WriteState): WriteState
    requires forall k :: k in ks ==> k in m
    decreases |ks|
  {
    if ks == [] then st
    else WriteKeys(m, ks[1..], locale, primary, pass, WriteOne(m, ks[0], locale, primary, pass, st))
  }

  /** A pass starts without a current group. */
  function WritePass(m: Entries, ks: seq<KEntryKey>, locale: bytes, primary: QByteArray, pass: Pass,
                     st: WriteState): WriteState
    requires forall k :: k in ks ==> k in m
  {
    WriteKeys(m, ks, locale, primary, pass, st.(group := [], immutable := false))
  }

  /** The default group, the primary group if there is one, all other groups. */
  function WriteIn(m: Entries, ks: seq<KEntryKey>, locale: bytes, primary: QByteArray): bytes
    requires forall k :: k in ks ==> k in m
  {
    var st0 := WriteState([], false, true, []);
    var st1 := WritePass(m, ks, locale, primary, Pass(true, false), st0);
    var st2 := if primary.Data? then WritePass(m, ks, locale, primary, Pass(false, true), st1) else st1;
    WritePass(m, ks, locale, primary, Pass(false, false), st2).out
  }

  /** The file that writeEntries produces for a map. */
  ghost function WriteEntries(m: Entries, locale: bytes, primary: QByteArray): bytes {
    WriteIn(m, InOrder(m.Keys), locale, primary)
  }
}
