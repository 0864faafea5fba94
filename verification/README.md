# KConfig: a verified model of the configuration engine

KConfig keeps settings in INI files. A configuration object parses a cascade of files into an
ordered map of entries, answers lookups from it, changes it, and writes its changes back by
re-reading the file under a lock and merging. Four layers are modelled, bottom up:

- the escaping codec and the INI parser and printer (`IniCodec`, `DecoderLoop`, `EncoderLoop`,
  `CodecLaws`, `CodecTheorems`, `Utf8Laws`, `IniParser`, `IniParserLoop`, `IniWriter`,
  `IniWriterLoop`, `Formats`, `IniLines`, `IniEntries`, `TaggedLines`, `LineShapes`, `RawLines`,
  `Unwritable`, `FileRoundTrip`);
- the entry map with its rules for immutability, cascading, localization and defaults
  (`EntryMap`, `EntryMapObject`, `Immutability`, `ParserRuns`, `Cascade`, `CascadeFiles`,
  `Locale`, `LocaleFiles`, `Revert`, `Scans`, `PathComponents`, `GroupTree`, `GroupQueries`, `GroupDeletion`);
- configuration objects that share a file (`Sync`, `KConfigObject`, `Protocol`, `DefaultFiles`,
  `Clients`, `Settled`, `ImmutableFiles`, `GlobalOverrides`, `StaleMarkers`, `UnstableLines`, `UnstableExample`, `OtherReaders`, `LanguageLines`,
  `Durability`, `GroupsOnDisk`, `OverDefaults`, `DurabilityOverDefaults`, `LockedExample`);
- value codecs and settings items on top (`Lists`, `ListLoops`, `Expand`, `Variables`, `Paths`,
  `PathLists`, `PathLoops`, `Skeleton`, `SkeletonObject`, `LocalizedItems`), and `SettingsFile`, which puts all layers together.

Code that works in place is modelled as classes, arrays and loops, each method proved equal to
a function of the state before it; the properties are lemmas about those functions. `dafny
verify dfyconfig.toml` checks everything.

A *fit* file, below, is one that is not immutable as a whole, that is read for merging and for
use alike, whose keys, values and group names the printer can write, and in which every line for
another locale has a stable key (`Protocol.FileOk`). The printed file of every representable map
is fit. What happens to files with unstable keys is stated apart (`UnstableLines`).

## Where the code does less than it promises

Each of these is a lemma, with the exact condition where the property is one of a single call.

- The encoder does not flush an unfinished UTF-8 character before a byte with a case of its
  own, so such a value comes back with its bytes reordered (`CodecTheorems.RoundTrip`).
- Comparing entries does not tell a null value from an empty one, so an empty string saved over
  a reverted entry is lost (`Skeleton.WriteExact`, `Skeleton.EmptyAfterRevertIsLost`).
- A path list is expanded before it is split, so a home directory with `$`, `,` or a backslash
  corrupts every list that mentions it (`PathLists.PathListRoundTrip`).
- The reader stops at 100 errors but refuses a file only above 100, so a broken file is cut off
  silently (`IniParserLoop.NeverTooManyErrors`).
- The deletion of a default is not mirrored, so a default can exist that reverting does not
  restore (`Revert.DeletedDefaultIsNotRestored`).
- An immutable default group is not skipped before the first header
  (`ParserRuns.DefaultGroupIsNotSkipped`).
- The parser ends a deletion line at the letter `d`, so the mark of an immutable deletion is
  lost, and takes the locale tag of a localized deletion for a part of the key
  (`LocaleFiles.ReadDeletion`).
- With `<default>` as the primary group the default group is not printed at all
  (`FileRoundTrip.DefaultAsPrimaryGroupIsLost`).
- A plain write erases the localized twin in memory, but no sync takes it off the file, so a
  localized lookup can fall back to an old value (`Durability.LocalizedLookupsSurviveExactly`,
  `Durability.TwinComesBack`).
- Group markers are written without being dirty, so a sync for another purpose undoes another
  object's, or the administrator's, view of a group, and with it the immutability of keys that
  it does not carry (`StaleMarkers.GroupFlips`, `StaleMarkers.KeyFlips`).
- A line for another locale is decoded when it is merged and written back unescaped. If its key
  needs escaping it is lost (`RawLines.RawLineSurvivesExactly`), and the line that is printed
  instead can be taken for a header, or store, overwrite or delete another key
  (`RawLines.RawLineHarmsExactly`). So a sync can delete a key that its object has never read or
  written (`UnstableExample.UncarriedKeyIsDeleted`); it leaves alone what it does not carry
  exactly if all such keys are stable (`UnstableLines.UncarriedStayExactly`).
- An object with the locale `de_AT` takes `k[de]=x` for its own and prints it as `k[de_AT]=x`,
  or drops it for a line `k[de_AT]` that is there, whatever the sync was for. A reader with the
  locale `de_DE` loses the line (`OtherReaders.ReadByStranger`,
  `LanguageLines.LanguageLineLostExactly`, `LanguageLines.NeighbourLosesLine`).
- A key that starts with `#` is printed as a comment and lost
  (`Unwritable.LineStoresKeyExactly`); a group name whose first component is empty, or that has
  a component which does not survive escaping, comes back as another one
  (`Unwritable.HeaderLeadsBackExactly`).
- Deleting a group leaves its defaults and its localized entries without a plain twin, and the
  group goes on existing (`GroupDeletion.GroupGoneExactly`); and it exists again after writing
  and reading if the file has a localized line of the group
  (`GroupsOnDisk.GroupGoneOnDiskExactly`).
- Where default files close a group without making an entry in it immutable, an object accepts
  a change of the entry, shows and writes it, and no reader ever sees it
  (`DurabilityOverDefaults.PlainLookupsSurviveOverDefaults`, `LockedExample.LockedChangeIsLost`).
- An empty value put over a reverted entry is not stored, and the deletion of a key that a clean
  object does not know is stored but never written (`Clients.PutIsKept`,
  `Clients.SwallowedIsNotShown`, `Clients.UnreportedIsNotWritten`).

## Model

| member | source | states |
|---|---|---|
| FileRoundTrip.ParseUndoesWrite | src/core/kconfigini.cpp:40-396 | For every representable map, with immutable entries and groups and deleted entries with any flags, parsing what the printer writes into an empty map gives back every entry with its value, deletion, locale and raw status; with the reader that merges entry for entry, with the plain reader all entries that concern its locale. With or without a primary group (other than `<default>`). |
| FileRoundTrip.SameEntriesBack | src/core/kconfigini.cpp:40-396 | The same key by key, with the exact rule for the flags: an entry is immutable afterwards if and only if its group is, or if it was and is not deleted; it expands if and only if it did and is not deleted; its group is immutable if and only if it was and is not the default group. |
| FileRoundTrip.DefaultAsPrimaryGroupIsLost | src/core/kconfigini.cpp:290-301 | Why the primary group must not be `<default>`: no pass prints the default group then, so a map with nothing else leaves an empty file. |
| FileRoundTrip.WriteKeysInStep | src/core/kconfigini.cpp:286-380 | Printer and parser in lockstep: whatever prefix of a pass has been printed, parsing it has read exactly those entries and leaves the parser in the printer's group with the printer's immutability flag. |
| FileRoundTrip.GroupBefore | src/core/kconfigdata_p.h:139-155 | In key order every entry directly follows its group's marker or another entry of its group, which is why a printer that resets its flag only at markers never prints a wrong one. |
| IniEntries.ReadEntry | src/core/kconfigini.cpp:172-277 | The line printed for an entry, deleted ones included, makes the parser issue the one `setEntry` call that recreates it, with the immutability of the group added, and contains no newline. |
| IniEntries.ReadEntryBy | src/core/kconfigini.cpp:172-277 | The same for a reader with any locale, merging or not: what it makes of the line follows from whether the printed tag is one of its own. |
| LineShapes.PaddedLine | src/core/kconfigini.cpp:91-98 | White space of all six kinds at the ends of a line and around the `=` changes nothing, whatever the key and the value are. |
| LineShapes.OnlyWhiteIsTrimmed | src/core/kconfigini.cpp:91 | A text that starts and ends with other characters is not trimmed. |
| LineShapes.IgnoredLine | src/core/kconfigini.cpp:94-97 | Empty lines and comments do nothing. |
| LineShapes.NoEqualsIsError | src/core/kconfigini.cpp:157-177 | A line without `=` and brackets is counted as an error and does nothing else. |
| LineShapes.OpenBracketIsError | src/core/kconfigini.cpp:178-186 | So is a bracket that is not closed. |
| LineShapes.InvalidValueIsError | src/core/kconfigini.cpp:256-267 | A value with an invalid escape sequence is stored as far as it goes and counted; a valid one is not counted. |
| LineShapes.RestIsNotRead | src/core/kconfigini.cpp:85 | Behind the hundredth error nothing is read. |
| LineShapes.ReadForUse | src/core/kconfigini.cpp:226-272 | A line with a tag is read by exactly the readers whose locale or language it names, and, if the tag starts with C, by those with en_US; its call is spelled out. |
| LineShapes.ReadForMerging | src/core/kconfigini.cpp:226-272 | While merging, every other tagged line is kept under its key with the tag in brackets. |
| LineShapes.PrintedForC | src/core/kconfigini.cpp:350-353 | With the locale C no tag is printed, so a localized entry comes back as a plain one. |
| LineShapes.HexSequence | src/core/kconfigini.cpp:706-728 | `\xHH` stands for the byte with that number, with digits in either case. |
| LineShapes.InvalidHexSequence | src/core/kconfigini.cpp:706-728 | Where one of the two characters is no digit, it stands for `x`. |
| Formats.TextCharacters | src/core/kconfigini.cpp:636-693 | The encoding of ASCII text, character by character and spelled out: which characters get a letter, which a number, and which stand for themselves, in keys, values and group names. |
| Formats.OuterSpaces | src/core/kconfigini.cpp:616-704 | Only a space at an end of a key or a value is written in another way. |
| Formats.EscapeSequences | src/core/kconfigini.cpp:730-797 | The decoder's letters, spelled out, with the two sequences that belong to lists and stay. |
| Formats.InvalidSequence | src/core/kconfigini.cpp:788-793 | Any other letter behind a backslash ends the text and is reported. |
| Formats.Lines | src/core/kconfigini.cpp:346-378 | A printed line, spelled out: key, tag, marks, value. |
| Formats.Marks | src/core/kconfigini.cpp:357-372 | The mark for each combination of flags. |
| Formats.Headers | src/core/kconfigini.cpp:311-341 | A printed header, spelled out, with the last component's escaped dollar. |
| Unwritable.LineStoresKeyExactly | src/core/kconfigini.cpp:346-358 | The printed line of an entry with or without the printer's locale tag, deleted or with any value, stores its key again if and only if the key is flush-safe and does not start with `#`. |
| Unwritable.HeaderLeadsBackExactly | src/core/kconfigini.cpp:103-147 | The printed header of a group, read in another one, leads to that group if and only if its first component is not empty and every component survives escaping, which is the condition for the round trip of files. |
| IniLines.ReadHeader | src/core/kconfigini.cpp:103-147 | The header printed for a group name is read back as that name and that immutability, including last components that look like an option. |
| CodecTheorems.RoundTrip | src/core/kconfigini.cpp:616-797 | For keys and values, decoding undoes encoding if and only if no byte with a switch case of its own arrives while the accumulator holds an unfinished character. |
| CodecTheorems.GroupRoundTrip | src/core/kconfigini.cpp:616-797 | The same for components of group names, whose outer spaces are not protected: exactly the flush-safe components that have no outer space or need no escape sequence. |
| CodecTheorems.UnfinishedCharacterIsOvertaken | src/core/kconfigini.cpp:657-692 | A concrete value that comes back with its two bytes exchanged, because the accumulator is not flushed. |
| CodecTheorems.DecodesReordered | src/core/kconfigini.cpp:616-797 | For every byte string of every type, decoding the encoding succeeds, and gives the input with the bytes of unfinished characters moved behind the bytes that overtook them, if and only if it is not a component of a group name with an outer space and an escape sequence. |
| CodecTheorems.EncodePrintable | src/core/kconfigini.cpp:616-704 | The encoder's alphabet: no control bytes; no outer white space in keys and values; no `=` in keys; no brackets in keys and group names; empty only for the empty string. |
| Utf8Laws.EncodedValueIsUtf8 | src/core/kconfigini.cpp:525-692 | An encoded value consists of bytes below 80 and complete characters of the grammar in section 4 of RFC 3629 (relaxed behind ED), whatever bytes the value held. |
| Utf8Laws.CompleteCharacters | src/core/kconfigini.cpp:542-580 | The accumulator completes exactly the multi-byte characters of that grammar. |
| Utf8Laws.Utf8IsFlushSafe | src/core/kconfigini.cpp:636-693 | All text of that grammar is flush-safe, so the exact round trip covers all valid UTF-8. |
| EncoderLoop.StringToPrintable | src/core/kconfigini.cpp:616-704 | The loop, appending to a buffer of four times the length, computes the encoding; every write stays inside because bytes written plus four times bytes pending never exceed four times bytes read. |
| EncoderLoop.EmitBound | src/core/kconfigini.cpp:636-693 | That bound for one byte, in every state of the accumulator. |
| EncoderLoop.Utf8Char.AddByte | src/core/kconfigini.cpp:542-575 | The object collects exactly the bytes the specification of the accumulator accepts, and is unchanged when it refuses one. |
| EncoderLoop.Utf8Char.Write | src/core/kconfigini.cpp:604-612 | What is left at the end is written literally if complete and escaped otherwise; the accumulator is empty afterwards. |
| EncoderLoop.EncodeOne | src/core/kconfigini.cpp:638-693 | One turn of the switch, with its jumps, against the specification of what is emitted and kept. |
| DecoderLoop.PrintableToString | src/core/kconfigini.cpp:730-797 | The decoder in place: the view afterwards holds the left-to-right decoding of the original bytes, result included, also for a truncated `\x`, a trailing backslash and an invalid sequence; nothing outside the view changes. |
| DecoderLoop.DecodeView | src/core/kconfigini.cpp:737-796 | The loop itself: the write position never passes the read position and no byte is overwritten before it is read. |
| DecoderLoop.ParseHexPair | src/core/kconfigini.cpp:706-728 | Two hexadecimal digits, with `x` for an invalid pair. |
| EntryMapObject.KEntryMap.SetEntry | src/core/kconfigdata.cpp:71-219 | The object's map and result are those of the specification of `setEntry`, mirroring of defaults and erasing of localized twins included, and the walking order stays the sorted one. |
| EntryMapObject.KEntryMap.SetExisting | src/core/kconfigdata.cpp:131-217 | The branch for a key that is in the map: immutable and more specific entries refuse the call, equal ones only lose their twins. |
| EntryMapObject.KEntryMap.SetNew | src/core/kconfigdata.cpp:97-129 | The branch for a new key: a missing marker is made, an immutable one refuses the call, a new deletion is stored but reported as no change. |
| EntryMapObject.KEntryMap.SetMarker | src/core/kconfigdata.cpp:77-96 | The branch for the empty key: a missing marker is inserted, an equal one is no change, another one is replaced. |
| EntryMapObject.KEntryMap.RevertEntry | src/core/kconfigdata.cpp:308-338 | An entry takes its default's contents or loses its value, is marked dirty and reverted, and a second call reports no change; the walking order stays. |
| EntryMapObject.KEntryMap.LowerBound | src/core/kconfigdata_p.h:139-155 | Everything in front of the position is below the key and nothing from it on is. |
| EntryMap.OneOrder | src/core/kconfigdata_p.h:139-155 | A set of keys has exactly one ascending listing under `operator<`, so walking the map is determined by its contents. |
| EntryMap.LessTotal | src/core/kconfigdata_p.h:139-155 | `operator<` is total: keys that are not equal are ordered one way or the other. |
| EntryMap.LessTransitive | src/core/kconfigdata_p.h:139-155 | `operator<` is transitive, although it compares localization and default in opposite senses. |
| Immutability.RunKeepsImmutable | src/core/kconfigdata.cpp:71-219 | Along any run of `setEntry` calls an immutable entry that is not localized never changes or disappears. |
| Immutability.RunKeepsImmutableLocalized | src/core/kconfigdata.cpp:131-217 | An immutable localized entry keeps its value along any run unless some step is a plain write over a plain twin that is there. |
| Immutability.RunKeepsGroupClosed | src/core/kconfigdata.cpp:107-119 | While nobody sets the marker of an immutable group, no run adds an entry to the group. |
| Immutability.OthersUntouched | src/core/kconfigdata.cpp:71-219 | A call changes no entry of another key but for a missing marker of its own group. |
| Immutability.ReportedExactly | src/core/kconfigdata.cpp:107-219 | A call for an entry reports a change if and only if it changes the map, erased twins included, but for the deletion of a key that is not there. |
| Immutability.ChangedIsFilled | src/core/kconfigdata.cpp:107-217 | What a call leaves in the entry that it changes, field by field. |
| Immutability.MarkerIsSet | src/core/kconfigdata.cpp:77-96 | A call on a marker makes it as the options say, whatever it was, and is reported exactly if that is a change. |
| Immutability.RevertExactly | src/core/kconfigdata.cpp:308-338 | What a revert leaves in the entry that it finds, field by field, and that nothing else changes. |
| Immutability.RunWellKept | src/core/kconfigdata.cpp:77-119 | Every map reachable by `setEntry` has a marker for every group that has entries, and no other entry with an empty key. |
| Immutability.RevertWellKept | src/core/kconfigdata.cpp:308-338 | Reverting keeps that shape. |
| ParserRuns.ParsingIsRun | src/core/kconfigini.cpp:40-284 | Whatever a file contains, parsing it is a run of `setEntry` calls, so all results about runs hold for files. |
| ParserRuns.FileKeepsImmutable | src/core/kconfigini.cpp:40-284 | No file changes an immutable entry that is not localized; an immutable localized one it can only erase, by a line without a tag over a plain entry that is there. |
| ParserRuns.FileKeepsShape | src/core/kconfigini.cpp:40-284 | Every file keeps a marker for every group that has entries, and no other entry with an empty key. |
| ParserRuns.ImmutableGroupIsLocked | src/core/kconfigini.cpp:138-155 | Once a group other than the default group is immutable, a user's file changes nothing in it, mutable entries included. |
| ParserRuns.DefaultGroupIsNotSkipped | src/core/kconfigini.cpp:62-155 | The default group is the exception: what precedes the first header is read even if the group is immutable. |
| ParserRuns.CascadeOfFiles | src/core/kconfigini.cpp:40-284 | For any files whose calls (as the parser makes them) delete nothing, are not localized and mark no group, a lookup finds the first immutable call for the key or else the last one, and reverting brings back what the default files decide. |
| CascadeFiles.CascadeOfTexts | src/core/kconfigini.cpp:85-272 | The law from the text: of all lines `key=value`, `key[$i]=value`, `key[$e]=value`, `key[$ie]=value` in any groups of any list of default files and any list of user files, the first immutable one for the key decides, or else the last one; and reverting brings back what the default files alone decide. |
| CascadeFiles.ReadFile | src/core/kconfigini.cpp:85-272 | Reading such a file is the run of its lines' calls, in order, each in the group of the last header above it, with no error and no immutable group. |
| Cascade.CascadeLaw | src/core/kconfigdata.cpp:71-219 | The same for the calls: plain and default entry hold value and flags of their deciding lines, in spite of the recursive mirroring. |
| Cascade.CascadeLookup | src/core/kconfigdata.cpp:221-234 | What `getEntry` returns after a cascade, before and after a revert. |
| Locale.LocalizedLookup | src/core/kconfigdata.cpp:34-69 | After reading a group's lines, a localized lookup gives the lang_COUNTRY value, else the lang value, else the plain one, for files of defaults and of users. |
| Locale.OrderIndependence | src/core/kconfigdata.cpp:141-172 | Reading the same lines in any other order changes no lookup. |
| LocaleFiles.TextOrderIndependence | src/core/kconfigini.cpp:148-272 | The same for the text: two files with the same escaped lines in different orders are read to the same lookups, and a localized lookup prefers lang_COUNTRY to lang to plain. |
| LocaleFiles.ReadLocalizedLine | src/core/kconfigini.cpp:178-272 | A line with the tag of the reader's language or country makes exactly the call that those results are about. |
| LocaleFiles.ReadDeletion | src/core/kconfigini.cpp:187-209 | What is read back of any deleted entry: a plain deletion that has lost its own immutability, under a name that a locale tag has become part of. |
| RawLines.RawLineSurvivesExactly | src/core/kconfigini.cpp:226-263 | A line for another locale is still in the file after a merge has printed it if and only if its decoded key is stable: nothing in it has a meaning in a line, and decoding keeps it. The condition is exact for every key, newlines included. What its text does to other keys is the next row. |
| RawLines.RawLineHarmsExactly | src/core/kconfigini.cpp:148-209 | For every key without a newline: the printed line leaves all other keys and the reader's place in the file alone, wherever it stands, if and only if it is not taken for a header, a deletion, an entry with another key, or an entry that a `=` in the key cuts off. |
| RawLines.NewlineInjects | src/core/kconfigini.cpp:346-353 | A newline in the key ends the printed line, and what is in front of it is read as a line of its own. |
| RawLines.OuterSpaceIsLost | src/core/kconfigini.cpp:226-263 | A line that is lost, through both parses: merging the escaped line keeps its key, which starts with a space, and reading what is printed for it does not find the key. |
| Revert.RevertRestoresExactly | src/core/kconfigdata.cpp:308-338 | Reverting makes every plain lookup equal the lookup of the default if and only if there is an entry to revert or no readable default; it leaves all defaults alone and a second revert does nothing. |
| Revert.RevertRestoresDefault | src/core/kconfigdata.cpp:308-338 | After any run of calls that deletes no default, whatever it does to immutability, locales and markers, reverting restores the default. |
| Revert.DeletedDefaultIsNotRestored | src/core/kconfigdata.cpp:107-129 | Why: a default that is deleted first and set while its group is immutable has no plain entry to revert. |
| IniParserLoop.ParseFile | src/core/kconfigini.cpp:40-284 | The line loop on the map object, with its state from line to line, computes the map that `ParserRuns.ParsingIsRun` and the result that `ImmutableFiles.FileIsImmutableExactly` are about. |
| IniParserLoop.Reader.ReadLine | src/core/kconfigini.cpp:85-272 | One line: comment, header or entry. |
| IniParserLoop.Reader.ReadGroup | src/core/kconfigini.cpp:99-147 | The header branch: current group, both immutability flags, skipping, and the list of groups to mark. |
| IniParserLoop.Reader.ReadEntry | src/core/kconfigini.cpp:148-272 | The entry branch: splitting at `=`, brackets, errors, deletions. |
| IniParserLoop.Reader.Store | src/core/kconfigini.cpp:226-272 | Its end: which locale tags concern the reader, raw keys while merging, decoding of key and value, and the call. |
| IniParserLoop.ReadHeader | src/core/kconfigini.cpp:103-136 | The do-while loop over the parts of a header. |
| IniParserLoop.TakeKeyApart | src/core/kconfigini.cpp:178-222 | The loop over the brackets of a key, last one first. |
| IniParserLoop.ReadFlags | src/core/kconfigini.cpp:187-212 | The switch over option characters: an unknown one is skipped, an `e` counts only where expansions are allowed, a `d` ends the line at once. |
| IniParserLoop.NeverTooManyErrors | src/core/kconfigini.cpp:75-83 | No file is ever refused for its errors: the loop stops at the limit, so the branch for exceeding it is dead. |
| IniWriterLoop.Writer.WriteAll | src/core/kconfigini.cpp:382-396 | The three passes print the specified file: default group, primary group, all others, in the order of the map. |
| IniWriterLoop.Writer.Write | src/core/kconfigini.cpp:286-380 | One pass over the map with its current group and immutability flag. |
| IniWriterLoop.WriteHeader | src/core/kconfigini.cpp:311-341 | The loop over the components of a group name. |
| IniWriterLoop.WriteEntry | src/core/kconfigini.cpp:346-378 | Key, locale tag, option letters and value of one line; a raw key goes out as it is. |
| Clients.NoLostUpdates | src/core/kconfig.cpp:433-521 | In whatever way any number of objects, each over its own default files, has come to where they are on a fit file, a sync puts every key its object has changed on disk as the object left it (a deleted key as deleted where a default would come back, and off the file otherwise), and there value, expansion and deletion stay until another sync carries the key. Files with immutable entries and groups included. |
| Settled.NoLostUpdatesByCalls | src/core/kconfig.cpp:433-521 | The same from the calls alone: objects start with nothing, do whatever they do, and a reported change that one of them syncs stays on disk while only objects sync that have not put, deleted or reverted the key since their last sync that wrote or their last reparse. |
| Settled.UntouchedIsNotWritten | src/core/kconfigini.cpp:418-445 | After any run: the next sync or reparse of an object that has not put, deleted or reverted a key since its last sync that wrote, or its last reparse, does not change the key on disk. |
| Settled.SyncCleans | src/core/kconfigini.cpp:424-445 | What a sync that writes makes of the memory: no local entry is dirty any more, global entries are as they were, and nothing else about an entry changes, except that one reverted over a global entry becomes deleted. |
| Settled.NothingDirty | src/core/kconfig.cpp:451-507 | Without a dirty local entry a sync leaves file and memory alone, even if the object is marked as dirty. |
| Settled.SomethingDirty | src/core/kconfig.cpp:451-507 | With one, and the mark, the file is written anew. |
| Clients.UncarriedStays | src/core/kconfigini.cpp:398-450 | On a fit file a key that no sync of a run carries, lines for other locales included, keeps what the file said about it at the start. |
| Clients.ImmutableFileStays | src/core/kconfigini.cpp:404-416 | Where the merging parse finds the file immutable, which `ImmutableFiles` decides from the text, the file is never written, and the sync of an object that has something to write fails and leaves it dirty. |
| ImmutableFiles.FileIsImmutableExactly | src/core/kconfigini.cpp:99-147 | For every text, map and options: the file is immutable as a whole if and only if a line `[$i]`, perhaps behind components of which nothing is left, comes before the hundredth error, and otherwise it is read. |
| ImmutableFiles.MarkInFront | src/core/kconfigini.cpp:273-283 | A file that starts with the line `[$i]` is immutable for everybody, whatever follows. |
| ImmutableFiles.UnmarkedFileIsRead | src/core/kconfigini.cpp:273-283 | A file without such a line is read, whatever else is in it. |
| ImmutableFiles.MarkedFileStaysLong | src/core/kconfigini.cpp:404-416 | With the mark in one of the first hundred lines no run of any objects changes the file, and an object that has once found it immutable stays with that, and every later sync of it fails. |
| ImmutableFiles.ReparseFinds | src/core/kconfig.cpp:689-732 | Reading such a file sets the object's flag and does not change the file. |
| ImmutableFiles.ReparseFindsMutable | src/core/kconfig.cpp:689-732 | Reading a file without the mark clears the flag. |
| ImmutableFiles.MarkedFileSyncs | src/core/kconfig.cpp:433-521 | When a sync of such a file reports success: exactly if the object has not found it immutable and has nothing to write. |
| Clients.StepOnDisk | src/core/kconfigini.cpp:398-450 | One step on a fit file, exactly: the carried keys take their object's effect, all others keep value, expansion and deletion. |
| Clients.PendingReachesDisk | src/core/kconfig.cpp:1112-1131 | On a fit file a change that was reported as one reaches the disk with the object's next sync, unless the object has found the file immutable, whatever the other objects have done to the file in between. |
| Clients.PutIsKept | src/core/kconfig.cpp:1112-1131 | A put that is not refused is kept, in place or as a change to write, if and only if it is neither an empty value over an entry without a value nor the deletion of a key that a clean object does not know. |
| Clients.SwallowedIsNotShown | src/core/kconfig.cpp:1112-1131 | The first exception: the put changes nothing and lookups go on giving the fallback. |
| Clients.UnreportedIsNotWritten | src/core/kconfig.cpp:1112-1131 | The second one: the object stays clean and its syncs leave file and object as they are. |
| Clients.FreshWorldOk | src/core/kconfig.cpp:689-732 | Where runs can start: objects that have read nothing yet, each with any default files, on the printed file of any representable map. |
| Clients.RunOk | src/core/kconfig.cpp:433-521 | From a fit file every reachable file is fit, and every reachable memory can be written. |
| DefaultFiles.BaseUnchanged | src/core/kconfig.cpp:689-732 | Whatever default files contain, what they leave in memory is a map that an object can go on from: every entry has its marker, is not dirty, global, raw or reverted, and lacks a value only if it is deleted. |
| GlobalOverrides.ChangedIsMerged | src/core/kconfigini.cpp:424-445 | For every memory, global entries included: what a merge makes of a changed local entry. It leaves the file, is marked as deleted, or stored with its value and flags, and when exactly. |
| GlobalOverrides.OtherIsKept | src/core/kconfigini.cpp:424-427 | Every entry of the file that no changed local entry stands for stays as it is. |
| GlobalOverrides.RevertedOverGlobal | src/core/kconfigini.cpp:428-432 | An entry that is reverted over a global one is printed as a deletion, and whoever reads that line over the global entry finds nothing. |
| GlobalOverrides.PutOverGlobal | src/core/kconfigdata.cpp:131-140 | A value put over a global entry is a local one that remembers that it overrides. |
| Protocol.SyncWrites | src/core/kconfigini.cpp:398-450 | A sync of one object on a fit file: the new file key by key, with the exact immutability of every key and group, that the new file is fit, and that nothing in the object's memory is dirty any more. The rest of the memory is stated by `Settled.SyncCleans`. |
| Protocol.WrittenFile | src/core/kconfigini.cpp:382-450 | The printed file of every representable map is fit: it can be merged into and read, and reader and merging reader agree about it. |
| Protocol.EmptyFileOk | src/core/kconfigini.cpp:40-60 | So can an empty or missing file. |
| StaleMarkers.GroupFlips | src/core/kconfigini.cpp:418-445 | A sync on a fit file changes the immutability of a group in the file if and only if the marker in memory differs from the one there, whatever the sync was for; the default group's own immutability never survives. |
| StaleMarkers.KeyFlips | src/core/kconfigini.cpp:418-445 | With the group the immutability of keys that the sync does not carry: when exactly it changes, in both directions. They stay in the file, and their value, expansion and deletion do not change. |
| StaleMarkers.GroupWrittenTwice | src/core/kconfigini.cpp:418-445 | Two objects that disagree about a group: each sync makes the group what its object remembers, and a key that only the first one has written becomes immutable by the sync of the second. |
| StaleMarkers.StaleMarkersHappen | src/core/kconfigini.cpp:418-445 | A concrete file and two objects for which this happens. |
| UnstableLines.UncarriedStayExactly | src/core/kconfigini.cpp:398-450 | For every file that is fit but for unstable keys, whose lines for other locales hold no invalid escape sequence when decoded once more: a sync leaves every key alone that it does not carry, those lines included, if and only if all their keys are stable. |
| UnstableLines.DecodingExchanges | src/core/kconfigini.cpp:730-797 | Why the invalid sequences are excepted: two unstable keys that decoding turns into each other, so that their lines could trade places unnoticed. |
| UnstableExample.UncarriedKeyIsDeleted | src/core/kconfigini.cpp:187-209 | A key that is there, an object that has never read or written it, and after its sync every reader takes the key for deleted: `K=1` and `K\x5b$d\x5d[fr]=2`, in every locale for which `fr` is foreign. |
| OtherReaders.ReadByStranger | src/core/kconfigini.cpp:226-263 | What a reader with another locale of the same language finds in a printed file: the plain entries of the map, and of the localized ones exactly those whose line was tagged with the reader's full locale. The printer's own localized entries are foreign to it. |
| OtherReaders.LanguageTagKeptExactly | src/core/kconfigini.cpp:350-356 | The printed tag is the full locale, so a line that was tagged with the language keeps its tag if and only if the language is the whole locale. |
| OtherReaders.SyncForStranger | src/core/kconfigini.cpp:398-450 | What a sync of any object on a fit file means for such a reader, key by key: carried keys take their effect, uncarried plain keys stay, and of the localized lines only those with the reader's full locale are found, whatever lines with the language there were. |
| LanguageLines.LanguageLineLostExactly | src/core/kconfigini.cpp:226-263 | For every file of lines with and without tags: after the sync of an object that has not changed the key, the localized lookup of a reader with another locale of the language stays the same, for every fallback, if and only if there is a line for the reader's country, or none for the language, or that one has the value of the plain line. |
| LanguageLines.TaggedFileOk | src/core/kconfigini.cpp:148-272 | Every such file is fit for objects of a locale if the keys of lines that are foreign to it are stable. |
| LanguageLines.NeighbourLosesLine | src/core/kconfigini.cpp:226-263 | It happens: with `k[de]=x` a `de_DE` reader finds `x`, and after a `de_AT` object has synced another key it finds nothing. |
| Durability.PlainLookupsSurvive | src/core/kconfig.cpp:433-521 | After any run of puts, deletions, reverts, syncs and reparses on any fit file without default files, localized lines, immutable entries and groups included, writing and reading again changes no plain lookup for any key and fallback, in this object or in a new one. |
| Durability.LocalizedLookupsSurviveExactly | src/core/kconfig.cpp:433-521 | On a fit file, a localized lookup stays the same, for every fallback, if and only if the localized entry is still in memory, or the file had none when it was opened, or it shows the same value as the plain one. |
| Durability.TwinComesBack | src/core/kconfigini.cpp:418-445 | A lookup that changes: with `k=a` and `k[..]=b` in the file, after putting `c` a localized lookup gives `c`, and after writing and reading it gives `b`. |
| Durability.DoDurable | src/core/kconfigini.cpp:418-445 | Along every run on a fit file the object goes on showing what it will read, and what the file says to readers of the object's own locale under each localized key stays. The tags in the file need not stay: see `OtherReaders` and `LanguageLines` for readers of other locales. |
| DurabilityOverDefaults.PlainLookupsSurviveOverDefaults | src/core/kconfig.cpp:433-521 | Over any default files, after any run of puts, deletions, reverts, syncs and reparses: a plain lookup stays the same when the changes are written and all files are read again, for every fallback, if and only if the key is neither locked by the default files nor reverted, or shows what the default files show. |
| DurabilityOverDefaults.WrittenOver | src/core/kconfigini.cpp:382-450 | The files that this is about: every printed file of a representable map, over every base. |
| OverDefaults.PrintedOver | src/core/kconfigini.cpp:138-155 | A printed file, read over what any default files give: a plain key shows what the default files show if the file has no line for it or it is locked (its group is skipped, it is immutable, or the closed default group has no entry for it), and otherwise exactly what was printed. |
| LockedExample.LockedChangeIsLost | src/core/kconfigdata.cpp:131-142 | A change that is lost: over `[G]`, `K=1` and a second default file `[G][$i]` the object shows the new value, writes it, and after reading all files shows the old one. |
| KConfigObject.Merge | src/core/kconfigini.cpp:418-445 | The merge loop, which changes both maps as it goes, leaves in one the entries that `GlobalOverrides.ChangedIsMerged` and `GlobalOverrides.OtherIsKept` describe, and in the other those that `Settled.SyncCleans` describes. |
| KConfigObject.KConfig.WriteConfig | src/core/kconfigini.cpp:398-450 | Parse, merge and print in place; nothing happens if the file has become immutable, which `ImmutableFiles.FileIsImmutableExactly` decides from its text. |
| KConfigObject.KConfig.SyncFile | src/core/kconfig.cpp:433-521 | `sync` of the object against the protocol's step, about which `Protocol.SyncWrites`, `Settled.SyncCleans` and `ImmutableFiles.MarkedFileSyncs` are, and its result: false exactly if the file is immutable or something remains to be written. |
| KConfigObject.KConfig.Reparse | src/core/kconfig.cpp:689-732 | `reparseConfiguration`: pending changes first, then a fresh map, and the flag that `ImmutableFiles.ReparseFinds` and `ImmutableFiles.ReparseFindsMutable` are about. |
| KConfigObject.KConfig.PutData | src/core/kconfig.cpp:1112-1131 | `putData` on the object; the object becomes dirty only if the map reports a change. |
| KConfigObject.KConfig.RevertEntry | src/core/kconfig.cpp:1133-1141 | Reverting makes the object dirty if and only if there was something to revert, and changes that entry only. |
| EntryMapObject.KEntryMap.ForEachEntryWhoseGroupStartsWith | src/core/kconfigdata_p.h:343-349 | The scan from the lower bound visits exactly what a filter of the whole map selects, once each and in key order. |
| EntryMapObject.KEntryMap.ForEachEntryOfGroup | src/core/kconfigdata_p.h:363-374 | The scan behind the marker does so for the entries of one group, on every map of the reachable shape. |
| Scans.PrefixEnd | src/core/kconfigdata_p.h:343-349 | No group with the prefix lies behind the first one without it. |
| Scans.PrefixBegin | src/core/kconfigdata_p.h:248-251 | None lies in front of the minimum key. |
| Scans.MarkerIsLeast | src/core/kconfigdata_p.h:139-155 | In a map of the reachable shape the marker is the least entry of its group. |
| GroupTree.WithinIsPathPrefix | src/core/kconfig.cpp:140-145 | For all strings, the prefix test with the separator is exactly the path-prefix relation of the components. |
| GroupTree.GroupListAgrees | src/core/kconfig.cpp:341-378 | A component is listed if and only if the group it names has entries that are not deleted, for all maps, groups and components. |
| GroupTree.TopGroupsAgree | src/core/kconfig.cpp:326-339 | The same for the file's own list, with the exact exception for the default and version groups. |
| GroupTree.TopGroupsExact | src/core/kconfig.cpp:326-339 | With the names spelled out: a file lists c if and only if some key that is not deleted lies in a group other than the empty one, `<default>` and `$Version` whose first component is c. |
| GroupTree.NothingListed | src/core/kconfig.cpp:333 | A file with no keys outside these three groups lists nothing. |
| GroupTree.AllSubGroupsExact | src/core/kconfig.cpp:359-371 | `allSubGroups` gives the groups of all entries at or below the parent, deleted ones included. |
| GroupQueries.QueryNonDeletedEntries | src/core/kconfig.cpp:373-378 | The scan that stops at the first witness gives the answer for the whole map. |
| GroupQueries.QueryGroupList | src/core/kconfig.cpp:341-357 | The loop over the scan lists exactly the components that name a subgroup with entries that are not deleted, each once. |
| GroupQueries.QueryTopGroups | src/core/kconfig.cpp:326-339 | The loop over the map collects the set that `GroupTree.TopGroupsExact` describes, each component once. |
| GroupQueries.QueryAllSubGroups | src/core/kconfig.cpp:359-371 | The loop over the scan finds every marker at or below the parent although it looks at one contiguous part of the map only. |
| GroupQueries.QueryKeyList | src/core/kconfig.cpp:380-391 | Every key of the group with at least one of its up to four entries not deleted, and no other. |
| GroupDeletion.DeleteGroup | src/core/kconfig.cpp:1053-1067 | After both loops, in any order of the sets and for any write flags, exactly the surviving entries at or below the group are left, nothing else in the map has changed, the configuration is dirty if and only if it was or something could be deleted, and all of it has come about by deleting keys that the group lists. |
| GroupDeletion.DeletableExactly | src/core/kconfig.cpp:1062 | When there is something that may be deleted: the file is not immutable, and for some key with an entry that is not deleted the entry a localized lookup finds is not immutable. |
| GroupDeletion.ImmutableGroupIsNotDeleted | src/core/kconfig.cpp:1053-1067 | A group in which everything is immutable survives with all its entries and marks nothing. |
| GroupDeletion.GroupGoneExactly | src/core/kconfig.cpp:1053-1102 | So a deleted group still exists if and only if it holds a default, something immutable, a localized entry without a plain twin, or, for a deletion of localized entries, a plain entry or one for a country. |
| GroupsOnDisk.GroupGoneOnDiskExactly | src/core/kconfig.cpp:1053-1102 | Through the file: after the deletion, a sync and a reparse the group exists again if and only if a plain entry with a value resisted the deletion or the file had a localized line for one of its keys. |
| GroupDeletion.DeleteOneExact | src/core/kconfig.cpp:1060-1066 | The same for one key and each of its four possible entries. |
| Lists.DeserializeSerialize | src/core/kconfiggroup.cpp:133-190 | Reading a comma list inverts writing it for every list, the empty list and the list of one empty string included. |
| Lists.NotEmptyItem | src/core/kconfiggroup.cpp:149-170 | No list is written like the mark for one empty item. |
| Formats.Items | src/core/kconfiggroup.cpp:133-148 | An item in a list, character by character: backslashes doubled, separators behind a backslash. |
| Formats.ListTexts | src/core/kconfiggroup.cpp:149-159 | Commas between the items of one kind of list, semicolons behind those of the other. |
| Formats.ListMarks | src/core/kconfiggroup.cpp:149-159 | The list of one empty item is `\0`, the empty list null. |
| Lists.XdgRoundTrip | src/core/kconfiggroup.cpp:738-771 | The same for semicolon lists. |
| Lists.XdgOptionalTerminator | src/core/kconfiggroup.cpp:738-771 | A last item without its terminator is read all the same, unless it is empty, as section 4 of the Desktop Entry Specification has it. |
| Lists.ListsInFile | src/core/kconfiggroup.cpp:133-190 | Both lists survive the escaping of values in a file when their text is flush-safe. |
| Lists.Utf8ListsAreFlushSafe | src/core/kconfiggroup.cpp:1047-1063 | Lists of valid UTF-8 strings always are. |
| ListLoops.SerializeList | src/core/kconfiggroup.cpp:133-159 | The appending loop, with its mark for the list of one empty string and null for the empty list, writes what reading inverts. |
| ListLoops.DeserializeList | src/core/kconfiggroup.cpp:161-190 | The loop with the flag for the quoted character splits at exactly the separators that are not quoted. |
| ListLoops.ReadXdgList | src/core/kconfiggroup.cpp:738-771 | The same with semicolons, and a last item only if it is not empty. |
| ListLoops.WriteXdgList | src/core/kconfiggroup.cpp:1047-1063 | Every item escaped by two replacements one after the other and followed by its semicolon. |
| Expand.ExpandString | src/core/kconfig.cpp:192-251 | The loop that edits the string behind its cursor terminates for every string and environment and equals a one-pass expansion in which substituted text is never looked at again, unclosed `${` included. What that expansion puts in is spelled out in `Variables`. |
| Expand.ReadName | src/core/kconfig.cpp:204-218 | Where a reference ends and what it names, with the whole rest of the text as the name behind a brace that is not closed. |
| Variables.NamedVariable | src/core/kconfig.cpp:211-234 | `$name` in front of something that does not continue the name becomes the variable's value, or the data, configuration or cache location for exactly the three names that have one, or nothing. |
| Variables.BracedVariable | src/core/kconfig.cpp:204-234 | The same for `${name}`, with any characters in the name; `${}` is nothing. |
| Variables.UnclosedVariable | src/core/kconfig.cpp:204-210 | A brace that is not closed makes a name of the rest. |
| Variables.OtherDollars | src/core/kconfig.cpp:192-251 | Two dollars are one, a dollar at the end stays, and one in front of any other character disappears. |
| Paths.PathRoundTrip | src/core/kconfiggroup.cpp:401-452 | Reading one path inverts writing it if and only if it is not both abbreviated with `$HOME` and below a home directory whose name contains a `$`. |
| PathLists.PathListRoundTrip | src/core/kconfiggroup.cpp:778-807 | For every list but the empty one, reading inverts writing if and only if no path is abbreviated or the home directory contains none of `$`, `,` and backslash; the empty list is not stored at all. |
| PathLists.ExpandList | src/core/kconfiggroup.cpp:1083-1095 | What the expansion of a written list looks like, for every list and home directory. |
| PathLists.ReadDifferently | src/core/kconfiggroup.cpp:133-190 | Why: behind a home directory with such a character the item is never read back as the path that was written. |
| PathLoops.WritePathList | src/core/kconfiggroup.cpp:1083-1095 | The loop over the paths stores the list whose reading `PathLists.PathListRoundTrip` characterizes. |
| PathLoops.ReadPathList | src/core/kconfiggroup.cpp:797-807 | Expands the whole text in place and then splits it: the order that the theorem is about. |
| PathLoops.TranslatePath | src/core/kconfiggroup.cpp:423-452 | Doubles every `$` before it abbreviates, leaves relative paths without `$HOME`. |
| PathLoops.CleanHome | src/core/kconfiggroup.cpp:401-421 | A path is abbreviated if and only if the components of the home directory are a prefix of its components, and then these give way to `$HOME` and the others stay. |
| Skeleton.WriteExact | src/core/kcoreconfigskeleton.h:388-399 | After one item is written, by a write or by a revert, reading returns its value if and only if the write was not an empty value over an entry without one. |
| Skeleton.SaveExact | src/core/kcoreconfigskeleton.cpp:1367-1386 | The same for the whole loop over items with distinct places, whether or not the file is written too; no item needs saving afterwards. |
| Skeleton.RunKeepsGood | src/core/kcoreconfigskeleton.cpp:1329-1386 | Along any run of setting values, setting defaults, saving and reading in which no save loses an empty value, every item knows what reading would return. |
| Skeleton.SaveThenRead | src/core/kcoreconfigskeleton.cpp:1344-1386 | Then saving and reading changes no item and leaves nothing to save. |
| Skeleton.StepOnItems | src/core/kcoreconfigskeleton.cpp:1314-1386 | What setting a value, showing the defaults, reading and saving do to each item; only saving changes the map. |
| Skeleton.SaveOnMap | src/core/kcoreconfigskeleton.cpp:1367-1386 | A save that reaches the file leaves the same map as one that does not, without anything to write. |
| Skeleton.EmptyAfterRevertIsLost | src/core/kcoreconfigskeleton.h:388-399 | How a value is lost: the default is saved, which reverts the entry, and an empty value saved after that never reaches the map. |
| Skeleton.NeverEmptyLosesNothing | src/core/kcoreconfigskeleton.h:388-399 | Codecs that never give an empty text lose nothing. |
| SettingsFile.SaveThenLoad | src/core/kcoreconfigskeleton.cpp:1337-1386 | Through all layers, on a fit file: after saving any items, storable, writable, without localized twins and with nothing lost, and writing the file, both this object and any other one that reads the file give every item its saved value, whatever else the file holds, and the file is fit for the next round. |
| SettingsFile.SaveIsRun | src/core/kcoreconfigskeleton.h:388-399 | A save is the run of puts and reverts that the results about files are about. |
| LocalizedItems.LocalizedDecides | src/core/kconfiggroup.cpp:643-700 | What an item reads, on every map, for defaults and otherwise: the localized entry decides if it is there, even without a value or deleted, then the plain one, each with its own flag for expansion, then the built-in value. |
| LocalizedItems.DefaultIsThere | src/core/kconfiggroup.cpp:1123-1130 | There is a default to go back to exactly if the localized default has a value, where it is there, and else the plain one. |
| LocalizedItems.ItemFromText | src/core/kconfigini.cpp:148-272 | The same from the text: of the lines of a group, in any order, an item takes the one for its country, else for its language, else the plain one, else its built-in value; its default does so from a file of defaults. |
| Skeleton.AddKeepsGood | src/core/kcoreconfigskeleton.cpp:1406-1425 | Adding an item with a place of its own keeps every item knowing what reading returns, the new one included. |
| Skeleton.AddedAgain | src/core/kcoreconfigskeleton.cpp:1406-1425 | Adding one of them again under another name takes back a value that has not been saved and changes nothing else. |
| Skeleton.DefaultsAndBack | src/core/kcoreconfigskeleton.cpp:1314-1327 | Showing the defaults shows them, asking twice changes nothing, and going back restores every item. |
| SkeletonObject.SkeletonItem.WriteConfig | src/core/kcoreconfigskeleton.h:388-399 | Whether the item is unchanged, reverted or written, the configuration does what its call does, dirty flag included; the item's loaded value becomes its value, which does not change. |
| SkeletonObject.SkeletonItem.ReadDefault | src/core/kcoreconfigskeleton.h:401-407 | Reads what `LocalizedItems.LocalizedDecides` gives for defaults into value, default and loaded value, and leaves the mode for defaults again. |
| SkeletonObject.SkeletonItem.SwapDefault | src/core/kcoreconfigskeleton.h:409-414 | Exchanges value and default, nothing else. |
| SkeletonObject.KCoreConfigSkeleton.Save | src/core/kcoreconfigskeleton.cpp:1367-1386 | Configuration and file afterwards are those of the items' puts and reverts followed by a sync, which is what `SettingsFile.SaveThenLoad` is about; the result is false exactly if something was dirty and the sync failed. |
| SkeletonObject.KCoreConfigSkeleton.Read | src/core/kcoreconfigskeleton.cpp:1344-1351 | Every item takes what the map says, as `LocalizedItems.LocalizedDecides` has it, as its value and as its loaded value, and keeps its default. |
| SkeletonObject.KCoreConfigSkeleton.SetDefaults | src/core/kcoreconfigskeleton.cpp:1329-1335 | Every item takes its default as its value; what it has loaded stays, so that it needs saving where they differ. |
| SkeletonObject.KCoreConfigSkeleton.UseDefaults | src/core/kcoreconfigskeleton.cpp:1314-1327 | The loop swaps every item exactly when the setting changes, and the result is the setting from before. |
| SkeletonObject.KCoreConfigSkeleton.IsSaveNeeded | src/core/kcoreconfigskeleton.cpp:1360-1365 | True exactly if some item differs from what was loaded or saved last. |
| SkeletonObject.KCoreConfigSkeleton.IsDefaults | src/core/kcoreconfigskeleton.cpp:1353-1358 | True exactly if all items have their defaults. |
| SkeletonObject.KCoreConfigSkeleton.AddItem | src/core/kcoreconfigskeleton.cpp:1406-1425 | All three cases: an item known under that name is left alone, one known under another name is renamed and read again, a new one is appended and read; and every item can be found by its name afterwards if that was so and the name was free. |

## Left out

- Files are byte sequences and a sync is one atomic step: device classes, lock files,
  permissions, the safe-save file and text-mode line endings are not modelled.
- The limit of 1.5 MB on a line.
- Qt strings are the bytes of their UTF-8 form; group names are compared byte by byte where the
  code compares UTF-16 code units, which differs for characters beyond U+FFFF.
- The views into the shared line buffer are values between calls: only the codec's own loop is
  modelled on the buffer. The views that are decoded in place never overlap.
- `kde_kiosk_exception` is false.
- Expanding variables: characters beyond ASCII that are letters or numbers are a set of bytes
  given with the environment; variable names with a NUL byte are not modelled.
- Paths that start with `file:` and resource paths that start with `:`; they depend on Qt's URL
  and file engine classes.
- Global files (`WriteGlobal`, kdeglobals), the search for standard locations and the cache of
  parsed global files; the objects of `Clients` have the same locale; for readers with
  another one see `OtherReaders`.
- D-Bus notification, watchers, `kdialog`, logging.
- Conversions of dates, numbers, geometry and other variants; skeleton items have an arbitrary
  lossless codec instead, no minimum and maximum, and no `usrSave` hooks.
- `copyGroup` and `reparent`, `KAuthorized`, shortcut tables, window state, the XML loader,
  `kconf_update` and the code generators: folds, tables or input and output over the same map.
- FileRoundTrip.ParseUndoesWrite: only for representable maps: no defaults, keys and values
  flush-safe, no key that starts with `#`, group names whose header leads back, deleted entries
  plain, raw keys stable. What becomes of the others is stated apart:
  `CodecTheorems.DecodesReordered`, `Unwritable.LineStoresKeyExactly`,
  `Unwritable.HeaderLeadsBackExactly`, `LocaleFiles.ReadDeletion`, `RawLines.RawLineSurvivesExactly`.
- Clients.NoLostUpdates: for fit files: without the mark that makes the whole file immutable, for
  which see `Clients.ImmutableFileStays`, with keys, values and group names that can be written,
  and without unstable lines for other locales, for which it fails as
  `UnstableLines.UncarriedStayExactly` says. The same holds for `Clients.UncarriedStays`,
  `Clients.StepOnDisk`, `Clients.PendingReachesDisk`, `Protocol.SyncWrites` and the lookups that survive.
- UnstableLines.UncarriedStayExactly: files in whose lines for other locales decoding once more
  meets an invalid escape sequence are left out, as `UnstableLines.DecodingExchanges` explains.
- LanguageLines.LanguageLineLostExactly: for the lines of the default group, with different keys
  or tags and no bracket in a key; `OtherReaders.SyncForStranger` is for all fit files.
- Durability.LocalizedLookupsSurviveExactly: without default files; over default files only plain
  lookups are characterized (`DurabilityOverDefaults.PlainLookupsSurviveOverDefaults`).
- SettingsFile.SaveThenLoad: on fit files without default files, for items whose own entry and
  group are not immutable and whose own entry has no localized twin in memory or in the file.
- Skeleton.RunKeepsGood: the use of defaults is off during the run, as switching it exchanges
  value and default on purpose.
