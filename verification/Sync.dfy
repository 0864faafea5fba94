/** Writing a configuration back: writeConfig merges the dirty entries into what is on disk,
    sync and reparseConfiguration decide when (src/core/kconfigini.cpp:398-450,
    src/core/kconfig.cpp:433-521, 689-732, 1112-1141). One local file, perhaps over default files;
    no global files. */
module Sync {
  import opened Bytes
  import opened EntryMap
  import opened IniParser
  import opened IniWriter
  import opened FileRoundTrip

  // ---------------------------------------------------------------------------
  // Merging
  // ---------------------------------------------------------------------------

  /** What happens to one key of the file. */
  datatype Outcome = Untouched | Erase | Store(e: KEntry)

  /** One turn of writeConfig's loop over the entries in memory. */
  function MergeOne(mem: Entries, k: KEntryKey, global: bool): Outcome
    requires k in mem
  {
    var e := mem[k];
    if k.mKey != [] && !e.bDirty then Untouched
    else if e.bGlobal != global then Untouched
    else if e.bReverted && e.bOverridesGlobal then Store(e.(bDeleted := true))
    else if e.bReverted then Erase
    else if !e.bDeleted then Store(e)
    else if k.(bDefault := true) !in mem && !e.bOverridesGlobal then Erase
    else Store(e)
  }

  /** Storing keeps the raw flag of a key that is already in the map. */
  function StoredOver(w: Entries, k: KEntryKey, e: KEntry): KEntry {
    if k in w then e.(bRaw := w[k].bRaw) else e
  }

  function MergeKey(w: Entries, mem: Entries, k: KEntryKey, global: bool): Outcome {
    if k in mem then MergeOne(mem, k, global) else Untouched
  }

  predicate InMerged(w: Entries, mem: Entries, k: KEntryKey, global: bool) {
    match MergeKey(w, mem, k, global)
    case Untouched => k in w
    case Erase => false
    case Store(_) => true
  }

  function MergedEntry(w: Entries, mem: Entries, k: KEntryKey, global: bool): KEntry
    requires InMerged(w, mem, k, global)
  {
    match MergeKey(w, mem, k, global)
    case Untouched => w[k]
    case Store(e) => StoredOver(w, k, e)
  }

  /** The file's entries w with the changes of mem merged in. */
  function Merged(w: Entries, mem: Entries, global: bool): Entries {
    map k | k in w.Keys + mem.Keys && InMerged(w, mem, k, global) :: MergedEntry(w, mem, k, global)
  }

  /** The entries in memory after the loop. */
  function Cleaned(mem: Entries, global: bool): Entries {
    map k | k in mem :: CleanedEntry(k, mem[k], global)
  }

  function CleanedEntry(k: KEntryKey, e: KEntry, global: bool): KEntry {
    if (k.mKey != [] && !e.bDirty) || e.bGlobal != global then e
    else e.(bDirty := false, bDeleted := e.bDeleted || (e.bReverted && e.bOverridesGlobal))
  }

  // ---------------------------------------------------------------------------
  // A configuration object and its file
  // ---------------------------------------------------------------------------

  /** The part of KConfigPrivate that is about one local file. */
  datatype Config = Config(entryMap: Entries, bDirty: bool, bFileImmutable: bool)

  /** A configuration and the file's contents. */
  datatype OnFile = OnFile(config: Config, file: bytes)

  function ReadOptions(locale: bytes, merging: bool): ParseOptions {
    ParseOptions(locale, false, false, true, merging)
  }

  ghost predicate AnyDirty(m: Entries) {
    exists k :: k in m && m[k].bDirty && !m[k].bGlobal
  }

  /** writeConfig; the configuration stays as it is if the file cannot be merged. */
  ghost function WriteConfig(s: OnFile, locale: bytes): (r: (bool, OnFile)) {
    var disk := ParseConfig(s.file, map[], ReadOptions(locale, true));
    if disk.info != ParseOk then (false, s)
    else (true, OnFile(s.config.(entryMap := Cleaned(s.config.entryMap, false)),
                       WriteEntries(Merged(disk.m, s.config.entryMap, false), locale, Null)))
  }

  /** The file is rewritten. */
  ghost predicate Writes(c: Config) {
    !c.bFileImmutable && c.bDirty && AnyDirty(c.entryMap)
  }

  ghost function SyncFile(s: OnFile, locale: bytes): OnFile {
    if s.config.bFileImmutable || !s.config.bDirty then s
    else if !AnyDirty(s.config.entryMap) then s.(config := s.config.(bDirty := false))
    else
      var (ok, s') := WriteConfig(s, locale);
      s'.(config := s'.config.(bDirty := !ok))
  }

  /** What sync reports. */
  ghost predicate SyncSucceeds(s: OnFile, locale: bytes) {
    !s.config.bFileImmutable && !SyncFile(s, locale).config.bDirty
  }

  /** reparseConfiguration: pending changes are written first. The base is what the default
      files give. */
  ghost function ReparseOver(s: OnFile, base: Entries, locale: bytes): OnFile {
    var s1 := if s.config.bDirty then SyncFile(s, locale) else s;
    var r := ParseConfig(s1.file, base, ReadOptions(locale, false));
    OnFile(Config(r.m, s1.config.bDirty, r.info == ParseImmutable), s1.file)
  }

  /** The same without default files. */
  ghost function Reparse(s: OnFile, locale: bytes): OnFile {
    ReparseOver(s, map[], locale)
  }

  /** putData for a persistent write; a null value deletes. */
  function PutOptions(value: QByteArray, expand: bool): EntryOptions {
    NO_OPTIONS.(dirty := true, deleted := value.Null?, expansion := expand)
  }

  function PutData(c: Config, g: bytes, k: bytes, value: QByteArray, expand: bool): Config {
    var r := SetEntry(c.entryMap, g, k, value, PutOptions(value, expand));
    c.(entryMap := r.m, bDirty := c.bDirty || r.dirtied)
  }

  function RevertData(c: Config, g: bytes, k: bytes): Config {
    var r := RevertEntry(c.entryMap, g, k, NO_OPTIONS.(dirty := true), false);
    c.(entryMap := r.m, bDirty := c.bDirty || r.dirtied)
  }
}
