/** writeEntries as it runs: the loop over the components of a group name and the passes over
    the map (src/core/kconfigini.cpp:286-396). Each method is proved against the functions of
    module IniWriter. */
module IniWriterLoop {
  import opened Bytes
  import opened IniCodec
  import EncoderLoop
  import opened EntryMap
  import opened EntryMapObject
  import opened IniParser
  import opened IniWriter

  /** indexOf with a position to start from. */
  method FindSeparator(g: bytes, start: nat) returns (end: int)
    requires start <= |g|
    ensures var e := IndexOf(g[start..], SEPARATOR); end == if e < 0 then -1 else start + e
  {
    var e := IndexOf(g[start..], SEPARATOR);
    end := if e < 0 then -1 else start + e;
  }

  lemma OneComponent(g: bytes, start: nat, immutable: bool)
    requires start <= |g|
    ensures var e := IndexOf(g[start..], SEPARATOR);
            HeaderText(g[start..], immutable) ==
            if e < 0 then [OPEN] + LastComponent(g[start..]) + [CLOSE] + Option(immutable)
            else [OPEN] + Encode(GroupString, g[start..start + e]) + [CLOSE] + HeaderText(g[start + e + 1..], immutable)
  {
    hide LastComponent, Encode, IndexOf;
    var e := IndexOf(g[start..], SEPARATOR);
    if e >= 0 {
      Slices(g, start, e);
    }
  }

  lemma Slices(g: bytes, start: nat, e: nat)
    requires start + e < |g|
    ensures g[start..][..e] == g[start..start + e] && g[start..][e + 1..] == g[start + e + 1..]
  {
  }

  /** The last component, with its '$' escaped if it looks like an option. */
  method WriteLast(c: bytes) returns (out: bytes)
    ensures out == LastComponent(c)
  {
    hide Encode;
    if 0 < |c| <= 10 && c[0] == DOLLAR {
      var i := 1;
      while i < |c| && IsLowerCase(c[i])
        invariant 1 <= i <= |c|
        invariant forall j :: 1 <= j < i ==> IsLowerCase(c[j])
      {
        i := i + 1;
      }
      if i == |c| {
        out := EncoderLoop.StringToPrintable(c[1..], GroupString);
        return ESCAPED_DOLLAR + out;
      }
    }
    out := EncoderLoop.StringToPrintable(c, GroupString);
  }

  method WriteHeader(g: bytes, immutable: bool) returns (out: bytes)
    ensures out == HeaderText(g, immutable)
  {
    hide HeaderText, Encode, LastComponent, IndexOf;
    out := [];
    var start := 0;
    assert g[0..] == g;
    while true
      invariant 0 <= start <= |g|
      invariant HeaderText(g, immutable) == out + HeaderText(g[start..], immutable)
      decreases |g| - start
    {
      OneComponent(g, start, immutable);
      var end := FindSeparator(g, start);
      if end < 0 {
        var last := WriteLast(g[start..]);
        return out + ([OPEN] + last + [CLOSE] + Option(immutable));
      }
      var c := EncoderLoop.StringToPrintable(g[start..end], GroupString);
      ConcatAssociative(out, [OPEN] + c + [CLOSE], HeaderText(g[end + 1..], immutable));
      out := out + ([OPEN] + c + [CLOSE]);
      start := end + 1;
    }
  }

  /** The line of one entry. */
  method WriteEntry(locale: bytes, k: KEntryKey, e: KEntry) returns (out: bytes)
    ensures out == EntryText(locale, k, e)
  {
    hide Encode;
    if e.bRaw {
      out := k.mKey;
    } else {
      out := EncoderLoop.StringToPrintable(k.mKey, KeyString);
      if k.bLocal && locale != C_LOCALE {
        out := out + ([OPEN] + locale + [CLOSE]);
      } else {
        assert out + [] == out;
      }
    }
    assert out == KeyText(locale, k, e);
    if e.bDeleted {
      out := out + FlagText(e) + [];
    } else {
      var value := EncoderLoop.StringToPrintable(e.mValue.Chars(), ValueString);
      out := out + FlagText(e) + ([EQUALS] + value);
    }
  }

  lemma HeaderPieces(out: bytes, first: bool, g: bytes, immutable: bool)
    ensures out + HeaderLines(first, g, immutable)
         == (if first then out else out + [NEWLINE]) + (HeaderText(g, immutable) + [NEWLINE])
  {
    hide HeaderText;
  }

  /** The printer's device, the map it prints and whether anything has been printed. */
  class Writer {
    const entryMap: KEntryMap
    const locale: bytes
    const primary: QByteArray
    var out: bytes
    var firstEntry: bool

    constructor (entryMap: KEntryMap, locale: bytes, primary: QByteArray)
      ensures this.entryMap == entryMap && this.locale == locale && this.primary == primary && out == [] && firstEntry
    {
      this.entryMap, this.locale, this.primary, out, firstEntry := entryMap, locale, primary, [], true;
    }

    lemma OrderInMap()
      requires entryMap.Valid()
      ensures forall k :: k in entryMap.order ==> k in entryMap.entries
    {
    }

    /** One turn of the loop over the map. */
    method WriteTurn(k: KEntryKey, pass: Pass, group: bytes, immutable: bool) returns (group': bytes, immutable': bool)
      requires k in entryMap.entries
      modifies this
      ensures WriteState(group', immutable', firstEntry, out)
           == WriteOne(entryMap.entries, k, locale, primary, pass,
               WriteState(group, immutable, old(firstEntry), old(out)))
    {
      hide EntryText, HeaderText, Selected;
      group', immutable' := group, immutable;
      var e := entryMap.entries[k];
      if !Selected(k.mGroup, primary, pass) {
        return;
      }
      if k.mKey == [] {
        immutable' := e.bImmutable;
        return;
      }
      if !pass.defaultGroup && group != k.mGroup {
        group' := k.mGroup;
        var header := WriteHeader(group', immutable);
        HeaderPieces(out, firstEntry, group', immutable);
        if !firstEntry {
          out := out + [NEWLINE];
        }
        out := out + (header + [NEWLINE]);
      }
      firstEntry := false;
      var line := WriteEntry(locale, k, e);
      out := out + (line + [NEWLINE]);
    }

    /** One pass over the map. */
    method Write(pass: Pass)
      requires entryMap.Valid()
      modifies this
      ensures forall k :: k in entryMap.order ==> k in entryMap.entries
      ensures var st := WritePass(entryMap.entries, entryMap.order, locale, primary, pass,
              WriteState([], false, old(firstEntry), old(out)));
              out == st.out && firstEntry == st.firstEntry
    {
      hide KEntryMap.Valid, WriteOne;
      var group, immutable := [], false;
      var i := 0;
      OrderInMap();
      ghost var m, ks, st0 := entryMap.entries, entryMap.order, WriteState([], false, firstEntry, out);
      assert ks[0..] == ks;
      while i < |entryMap.order|
        invariant 0 <= i <= |ks| && entryMap.entries == m && entryMap.order == ks
        invariant WriteKeys(m, ks, locale, primary, pass, st0)
               == WriteKeys(m, ks[i..], locale, primary, pass, WriteState(group, immutable, firstEntry, out))
      {
        assert ks[i..][0] == ks[i] && ks[i..][1..] == ks[i + 1..];
        group, immutable := WriteTurn(entryMap.order[i], pass, group, immutable);
        i := i + 1;
      }
    }

    /** The default group, the primary group, all other groups. */
    method WriteAll()
      requires entryMap.Valid() && out == [] && firstEntry
      modifies this
      ensures out == WriteEntries(entryMap.entries, locale, primary)
    {
      hide WriteKeys, InOrder;
      Write(Pass(true, false));
      if primary.Data? {
        Write(Pass(false, true));
      }
      Write(Pass(false, false));
    }
  }
}
