# clg launcher core, modelled in Dafny

`clg` is a console launcher for games kept in folders. It stores its state in
`clg.json`: a list of games (name, folder, executable) and a list of
directories to monitor. This project models the launcher's pure logic and
proves properties of it:

- **Configuration shape and migration** (`config_model.dfy`, `config_shape.dfy`).
  - The JSON value of the file is a datatype.
  - The model covers the current-shape check, the three legacy migrations, the
    null-cleaning `Normalize`/`Load`, and a model of the serialiser's output.
  - The startup decision of `EnsureConfigExists` is a function from the file
    state to the write it performs.
- **Reconciliation** (`reconcile.dfy`).
  - `PopulateGamesFromMonitoredPaths` is a pure function of the loaded
    configuration and a filesystem oracle.
  - Pruning is written as the source's remove-while-walking loop and proved
    equal to a filter.
  - Discovery is written as the source's nested loops with a running set of
    case-folded names. It is proved equal to a reference built from the
    flattened list of candidate folders, keeping the first occurrence of each
    name.
- **Windows path validation** (`path_validator.dfy`): `IsValidWindowsPath` and
  the per-segment rules, with the exact error messages.
  - For accepted paths it proves the character-level guarantees.
  - For some path shapes it proves acceptance.
- **UI list rules** (`console_util.dfy`, `games_screen.dfy`, `paths_screen.dfy`).
  - Title centring.
  - The Games menu and its exit rule.
  - The options of the Paths-to-monitor screen, where a selection leads, and
    the delete and add steps.

Helper modules:

- `Wrappers`: `Option`.
- `Seqs`: `Where`, `Select`, `List.Remove`, and the first-key-wins
  de-duplication behind both `HashSet.Add` and `Distinct(comparer)`.
- `Text`: `Trim`, `Split`, `Replace`, and case-insensitive comparison.
- `JsonValues`: the JSON value datatype.

.NET's Unicode-aware predicates (`IsNullOrWhiteSpace`, `char.IsLetter`,
`ToUpperInvariant`, `OrdinalIgnoreCase`) are modelled at the ASCII level.

Two behaviours of the code are worth knowing. The model keeps both:

- The known-name set is built from the game list before pruning. A game whose
  folder vanished is therefore not rediscovered in the same pass
  (`Reconcile.PrunedNameBlocksRediscovery`).
- Both screens compare the selected option by exact string value.
  - A game named exactly `Back` is indistinguishable from the back option.
  - A monitored path spelled exactly `Back` or `Add new path` cannot be
    selected for deletion.
  - Paths added through the screen can never be such strings
    (`PathsScreen.AppendedPathIsDeletable`).

## Model

| member | source | states |
|---|---|---|
| ConfigModel.NormalizeGamesIsWhereSelect | Config/ConfigStore.cs:74-91 | The games loop drops null entries and cleans the rest in order: it equals `Where(e != null).Select(clean)`. |
| ConfigModel.NormalizeGames | Config/ConfigStore.cs:77-91 | The games loop never yields more entries than it reads, since null entries are skipped. |
| ConfigModel.NormalizePaths | Config/ConfigStore.cs:93-97 | One output per monitored path, in order, with a null path turned into "". |
| ConfigModel.Normalize | Config/ConfigStore.cs:67-104 | A null configuration gives the empty one. Otherwise null lists count as empty, null games are dropped, null fields and paths become "", and order and path count are kept. |
| ConfigModel.LoadRoundTrip | Config/ConfigStore.cs:53-65 | Loading what was saved gives the saved configuration back, provided the deserialiser returns the written values with nothing null. A failed read and a null document both load as the empty configuration. |
| ConfigModel.NormalizeLift | Config/ConfigStore.cs:67-104 | Normalising a configuration with no nulls returns it unchanged. |
| ConfigShape.TryGetStringProperty | Config/ConfigStore.cs:325-342 | Succeeds exactly when the camelCase or the PascalCase member is a string. The camelCase value wins, and a non-string camelCase member falls back to PascalCase. |
| ConfigShape.TryReadSingleEntry | Config/ConfigStore.cs:300-323 | An entry reads exactly when the element is an object with a string name and a string path, each under either spelling. The fields are the values those lookups return. The executable path is "" when neither spelling holds a string. |
| ConfigShape.ReadEntries | Config/ConfigStore.cs:205-211 | All-or-nothing: succeeds exactly when every element reads as an entry, and then yields those entries in order. |
| ConfigShape.ReadStrings | Config/ConfigStore.cs:218-224 | Succeeds exactly when every element is a JSON string, and then yields those strings in order. |
| ConfigShape.IsValidConfigObject | Config/ConfigStore.cs:193-227 | True exactly when the root is an object, exact-case `games` is an array of readable entries, and exact-case `pathsToMonitor` is an array of strings only. |
| ConfigShape.TryReadConfigFromOldFormats | Config/ConfigStore.cs:229-298 | Array roots migrate all-or-nothing, keeping order and with no paths. A root that reads as an entry becomes a one-game configuration whatever else it holds. Any other object whose optional lists read migrates to exactly those lists, a missing or non-array side counting as empty, unless both are empty. Only arrays and objects migrate, and an object never migrates to the empty configuration. |
| ConfigShape.EmptyArrayMigrates | Config/ConfigStore.cs:232-248 | The document `[]` migrates to the empty configuration. |
| ConfigShape.PartialObjectFailsOnBadList | Config/ConfigStore.cs:263-287 | A partial object with an unreadable game entry or a non-string path element does not migrate. |
| ConfigShape.PartialObjectIgnoresNonArrayGames | Config/ConfigStore.cs:263-274 | A non-array `games` member is ignored: the object migrates exactly as if it were absent. |
| ConfigShape.PartialObjectIgnoresNonArrayPaths | Config/ConfigStore.cs:276-287 | A non-array `pathsToMonitor` member is ignored: the object migrates exactly as if it were absent. |
| ConfigShape.PathsOnlyObjectMigrates | Config/ConfigStore.cs:257-293 | `{"pathsToMonitor": ["C:\\x"]}` migrates to no games and that one path. |
| ConfigShape.LegacyArrayExample | Config/ConfigStore.cs:231-248 | `[{"Name":"Foo","Path":"C:\Games\Foo"}]` becomes one game with an empty executable path and no monitored paths. |
| ConfigShape.EntryRoundTrip | Config/ConfigStore.cs:300-323 | Reading a serialised entry gives back the entry. |
| ConfigShape.EntryToJson | Config/ConfigStore.cs:9-14 | A written entry is an object with exactly three members, the camelCase `name`, `path` and `executablePath`, each a string. |
| ConfigShape.ReadEntriesRoundTrip | Config/ConfigStore.cs:205-211 | Reading a serialised game list gives back the list. |
| ConfigShape.ReadStringsRoundTrip | Config/ConfigStore.cs:218-224 | Reading a serialised path list gives back the list. |
| ConfigShape.ToJson | Config/ConfigStore.cs:106-108 | A written configuration is an object with exactly two members, the camelCase `games` and `pathsToMonitor`, arrays with one element per game and per path. |
| ConfigShape.ToJsonIsCurrentShape | Config/ConfigStore.cs:9-14 | Every configuration, written with the camelCase policy, passes the current-shape check. |
| ConfigShape.ToJsonReadsBack | Config/ConfigStore.cs:257-293 | The partial-object migration reads a written configuration back whole. The one exception is the empty configuration, which it refuses. |
| ConfigShape.EnsureConfigExists | Config/ConfigStore.cs:16-51 | No write exactly for a current-shape file. The migrated configuration is written exactly for a parsed, migratable file that is not current. The empty configuration is written for a missing, unparsable or non-migratable file. |
| ConfigShape.EnsureConfigExistsIdempotent | Config/ConfigStore.cs:16-51 | After the write the file is in the current shape, so a second start writes nothing. |
| Reconcile.PruneLoopFilters | Config/ConfigStore.cs:127-143 | Removing each vanished game from the live list while walking a copy equals filtering the list. The flag is raised exactly when some game vanished. |
| Reconcile.PruneLoop | Config/ConfigStore.cs:127-143 | The loop never lengthens the list, keeps `removedAny` once raised, and leaves the list untouched when it raises nothing. |
| Reconcile.ScanRootsFlat | Config/ConfigStore.cs:145-183 | The loop over monitored paths and their children equals one loop over all children of all readable monitored paths, in order. |
| Reconcile.ScanRoots | Config/ConfigStore.cs:145-183 | The outer loop only appends to the game list, only grows the known-name set, and ends with `added` set exactly when it was set before or something was appended. |
| Reconcile.ScanChildren | Config/ConfigStore.cs:159-176 | The inner loop only appends to the game list, only grows the known-name set, and ends with `added` set exactly when it was set before or something was appended. |
| Reconcile.KeptChildrenStep | Config/ConfigStore.cs:161-175 | One child: a blank or already-known name is skipped, otherwise the folder is kept and its folded name becomes known. |
| Reconcile.ClosuresAgree | Config/ConfigStore.cs:161-172 | The closures used by the reference definitions compute the same folder name and the same entry as the loop's `ChildName` and `Discovered`. |
| Text.TrimEndCharsFacts | Config/ConfigStore.cs:161 | `dir.TrimEnd(separator, altSeparator)` removes the longest suffix made only of the two separators and keeps the rest as a prefix of the input. |
| Reconcile.ScanChildrenKeeps | Config/ConfigStore.cs:159-175 | The inner loop appends exactly the entries of the kept children, and sets `added` exactly when it appends something. |
| Reconcile.PopulateShape | Config/ConfigStore.cs:120-190 | The new game list is the survivors in original order followed by the discoveries. Monitored paths are untouched. The result is true exactly when something was pruned or added. |
| Reconcile.PopulateGamesFromMonitoredPaths | Config/ConfigStore.cs:120-191 | Monitored paths are never changed, and when nothing is pruned or added the configuration is returned as loaded. |
| Reconcile.ChangedIffDifferent | Config/ConfigStore.cs:185-190 | The configuration is saved exactly when the reconciled configuration differs from the loaded one. |
| Reconcile.FreshFacts | Config/ConfigStore.cs:159-175 | Every kept folder is a listed child with a non-blank name unknown before the pass. No two kept folders have names equal ignoring case. |
| Reconcile.DiscoveriesFacts | Config/ConfigStore.cs:159-175 | Every added entry has executable "", a non-blank name unknown before pruning, and the path `fullPath(child)` with '/' turned into '\'. No two added names are equal ignoring case. |
| Reconcile.PrunedNameBlocksRediscovery | Config/ConfigStore.cs:123-143 | After a game is pruned, the only entries left with its name (ignoring case) are surviving original entries. |
| Reconcile.DiscoveriesComplete | Config/ConfigStore.cs:159-175 | Every named child of a readable monitored path has a name that was known before or is carried by an added entry. |
| Reconcile.SkippedRootNoCandidates | Config/ConfigStore.cs:147-159 | A blank, missing or unreadable monitored path lists no candidate folders. |
| Reconcile.SkippedRootAddsNothing | Config/ConfigStore.cs:145-183 | A blank, missing or unreadable monitored path adds nothing: discovery proceeds as if it were not listed. |
| Reconcile.CandidatesAppend | Config/ConfigStore.cs:145-159 | The folders listed for two runs of monitored paths are those of the first run followed by those of the second. |
| PathValidator.FirstBadIndex | Validation/WindowsPathValidator.cs:129-142 | The scan finds the first character among `<>"\|?*:`, or reports that there is none. |
| PathValidator.BaseNameIsDotFreePrefix | Validation/WindowsPathValidator.cs:119 | The base name is the longest dot-free prefix of the segment. |
| PathValidator.CheckSegment | Validation/WindowsPathValidator.cs:103-145 | A segment is accepted exactly when it is non-empty, does not end in a space or dot, has no reserved device base name (ignoring case), and contains none of `<>"\|?*:`. The rules apply in that order, each with its own message: empty segment, trailing space or dot, reserved name quoting the base name, then the first bad character, where ':' gets the drive-letter message and any other names the character. |
| PathValidator.CheckSegments | Validation/WindowsPathValidator.cs:45-51 | The segment loop accepts exactly when every segment is valid. |
| PathValidator.CheckSegmentsFirstFailure | Validation/WindowsPathValidator.cs:45-51 | A rejection carries the message of the first invalid segment. |
| Text.JoinSplit | Validation/WindowsPathValidator.cs:65 | Joining the split parts back with the separator gives the original text, so the segments cover the whole remainder. |
| Text.SplitJoin | Validation/WindowsPathValidator.cs:65 | Splitting a separator-join of separator-free parts gives those parts back. |
| Text.SplitPartsSepFree | Validation/WindowsPathValidator.cs:65 | No split part contains the separator. |
| Text.Split | Validation/WindowsPathValidator.cs:65 | `Split(sep, StringSplitOptions.None)` always yields at least one part. `JoinSplit`, `SplitJoin` and `SplitPartsSepFree` pin it down. |
| PathValidator.IsValidWindowsPath | Validation/WindowsPathValidator.cs:3-101 | Every rejection has a non-empty message. The rules apply in order: blank, reserved value ignoring case, '/', control character. An input that passes them and is in none of the three forms is rejected with the must-start-with-a-drive-or-UNC message. |
| PathValidator.ResultIffNoError | Validation/WindowsPathValidator.cs:3-101 | The result is true exactly when the error string is empty. |
| PathValidator.SegmentsClean | Validation/WindowsPathValidator.cs:103-145 | When every segment of a remainder is valid, the remainder neither starts nor ends with '\', has no doubled '\', has no bad character, and does not end in a space or dot. |
| PathValidator.AcceptedForms | Validation/WindowsPathValidator.cs:34-100 | An accepted path is non-blank, not reserved, free of '/' and control characters, and in UNC, drive or rooted form. A bare '\' is not accepted, and a UNC path has non-blank server and share. |
| PathValidator.AcceptedSegments | Validation/WindowsPathValidator.cs:34-97 | In every form, each segment after an accepted path's prefix obeys the segment grammar, so device names and trailing spaces or dots are refused in every segment. A rooted path is accepted only with something after its '\'. |
| PathValidator.AcceptedRemainderClean | Validation/WindowsPathValidator.cs:34-97 | For an accepted path, the text after its form's prefix is clean; only a bare drive root has none. |
| PathValidator.AcceptedCharacters | Validation/WindowsPathValidator.cs:3-145 | An accepted path contains none of `<>"\|?*`. It has ':' only right after a drive letter, and no doubled '\' beyond the UNC prefix. It ends in '\' only as a bare drive root, and never ends in a space or dot. |
| PathValidator.DriveRootAccepted | Validation/WindowsPathValidator.cs:57-63 | A bare drive root `X:\` is accepted unless it matches a reserved value. |
| PathValidator.DriveReachesSegments | Validation/WindowsPathValidator.cs:57-75 | Once the common checks pass, a drive path with a remainder is decided by its segments alone. |
| PathValidator.UncReachesSegments | Validation/WindowsPathValidator.cs:34-54 | Past the common checks, a UNC path with fewer than two parts or a blank server or share is rejected with the UNC message, and any other is decided by its segments alone. |
| PathValidator.RootedReachesSegments | Validation/WindowsPathValidator.cs:77-97 | Past the common checks, a bare '\' is rejected with the root message, and any other rooted non-UNC path is decided by its segments alone. |
| PathValidator.DrivePathAccepted | Validation/WindowsPathValidator.cs:57-75 | A drive path whose remainder is separator-free, valid segments joined by '\' is accepted. |
| PathValidator.UncPathAccepted | Validation/WindowsPathValidator.cs:34-54 | A UNC path whose remainder is separator-free valid segments joined by '\', with a non-blank server and share, is accepted. |
| PathValidator.RootedPathAccepted | Validation/WindowsPathValidator.cs:77-97 | A rooted path whose remainder is separator-free valid segments joined by '\' is accepted. |
| PathValidator.RootedDeviceNameRejected | Validation/WindowsPathValidator.cs:77-97 | `\CON` is rejected as the reserved name `CON`. |
| PathValidator.InteriorTrailingDotRejected | Validation/WindowsPathValidator.cs:77-97 | `\foo.\bar` is rejected for the trailing dot of its first segment. |
| PathValidator.TrailingBackslashRejected | Validation/WindowsPathValidator.cs:57-75 | `C:\Games\` is rejected with the empty-segment message. |
| PathValidator.TrailingEmptySegment | Validation/WindowsPathValidator.cs:103-111 | The trailing empty segment of `Games\` is what rejects it. |
| PathValidator.DeviceNameWithExtensionRejected | Validation/WindowsPathValidator.cs:119-127 | `con.txt` is rejected as the reserved name `con`. |
| PathValidator.LongerNameAccepted | Validation/WindowsPathValidator.cs:119-127 | `CONSOLE` is not a device name and is accepted. |
| ConsoleUtil.CenterText | Ui/ConsoleUtil.cs:47-53 | Empty text stays empty, and text at least as wide as the line is returned as is. Otherwise the text is preceded by spaces, fits the width, and the left room is half the free room, rounded down. |
| ConsoleUtil.CenterTextUnique | Ui/ConsoleUtil.cs:47-53 | The contract determines the result: any string with those properties is the centred line. |
| GamesScreen.GameOptions | Ui/GamesScreen.cs:14-20 | The option list always ends with "Back". |
| GamesScreen.ShownNamesMembers | Ui/GamesScreen.cs:14-16 | A name is shown exactly when it is non-blank and some game carries it. |
| GamesScreen.OptionsAreDistinctGameNames | Ui/GamesScreen.cs:14-18 | Each option before "Back" is a non-blank game name, and no two are equal ignoring case. |
| GamesScreen.EveryGameRepresented | Ui/GamesScreen.cs:14-18 | Every non-blank game name matches, ignoring case, some option before "Back". |
| GamesScreen.OptionsAreFirstOccurrences | Ui/GamesScreen.cs:14-18 | The options before "Back" are exactly the names that no earlier shown name matches ignoring case, in first-occurrence order. |
| GamesScreen.BackLeaves | Ui/GamesScreen.cs:20-26 | The last option, and cancelling, leave the screen. |
| GamesScreen.Exits | Ui/GamesScreen.cs:23 | The screen is left on a cancelled prompt or an option spelled exactly "Back", compared ordinally. |
| PathsScreen.PathOptions | Ui/PathsToMonitorScreen.cs:21-23 | The options are the paths in order, then "Add new path", then "Back". |
| PathsScreen.Choose | Ui/PathsToMonitorScreen.cs:25-36 | Cancel or "Back" leaves, "Add new path" asks for a path, and anything else asks to delete exactly that string. |
| PathsScreen.DeleteStep | Ui/PathsToMonitorScreen.cs:38-56 | A declined or cancelled confirmation changes nothing and saves nothing. A confirmed delete saves exactly when the target was listed, and leaves the list alone when it was not. |
| PathsScreen.DeleteRemovesOneCopy | Ui/PathsToMonitorScreen.cs:51-54 | A confirmed delete of a listed path splices out its first occurrence and keeps the rest in order, so exactly one copy leaves the list. |
| Seqs.RemoveFirst | Ui/PathsToMonitorScreen.cs:51 | `List.Remove`: drops the first element equal to the value, if any. Its properties are the `RemoveFirst` lemmas below. |
| Seqs.RemoveFirstLength | Ui/PathsToMonitorScreen.cs:51 | `List.Remove` leaves a list without the value unchanged and shortens a list with it by exactly one. |
| Seqs.RemoveFirstMultiset | Ui/PathsToMonitorScreen.cs:51 | `List.Remove` takes exactly one copy of the value out of the list's multiset. |
| Seqs.RemoveFirstAfter | Ui/PathsToMonitorScreen.cs:51 | Removing a value whose first occurrence follows a prefix keeps the prefix and the rest in order. |
| PathsScreen.SelectedPathIsDeleted | Ui/PathsToMonitorScreen.cs:36-56 | Selecting a listed path that is not spelled like a menu option asks to delete it, and confirming removes it and saves. |
| PathsScreen.AddStep | Ui/PathsToMonitorScreen.cs:59-81 | A trimmed blank or "Back" (ignoring case) cancels. Otherwise the path is appended exactly when the validator accepts it. A rejected path reports the validator's own message and changes nothing. An accepted path is appended as exactly one element, duplicates included. |
| Text.TrimBlank | Ui/PathsToMonitorScreen.cs:61-67 | Trimming the answer does not change whether it is blank. |
| Text.TrimEnds | Ui/PathsToMonitorScreen.cs:62 | A non-empty trimmed answer starts and ends with a non-whitespace character. |
| Text.Trim | Ui/PathsToMonitorScreen.cs:62 | `Trim()`: drops leading then trailing whitespace. `TrimBlank` and `TrimEnds` state its properties, and `TrimStart` and `TrimEnd` say what each half drops. |
| PathsScreen.AppendedPathIsDeletable | Ui/PathsToMonitorScreen.cs:9-81 | An appended path is non-blank, trimmed, and not a menu label ignoring case, so the menu offers it for deletion. |
| PathsScreen.AddThenDelete | Ui/PathsToMonitorScreen.cs:38-81 | Adding a path and then deleting it restores the list as a multiset, and restores it exactly when the path was not listed before. |
| PathsScreen.DeleteLast | Ui/PathsToMonitorScreen.cs:51-79 | Deleting a path just appended saves, restores the multiset of paths, and restores the list itself when the path was not listed before. |

## Left out

- File reading and writing, and console output. `Save`'s error handling is
  left out too. `AfterWrite` assumes the write succeeds and that parsing
  returns what the serialiser wrote.
- `JsonDocument.Parse` and `JsonSerializer.Deserialize` are library calls.
  - The model takes the parsed JSON value, or the deserialiser's nullable
    output, as input.
  - The deserialiser's case-insensitive property matching is therefore not
    modelled.
  - Neither is its behaviour on duplicate or mistyped members: a file can pass
    the shape check, which looks at exact-case members only, and still fail to
    deserialise.
- JSON objects are maps. Member order, duplicate members and indentation are
  not represented. Numbers are kept as their text and never inspected.
- The filesystem and path library are oracle functions (`Directory.Exists`,
  `Directory.GetDirectories`, `Path.GetFullPath`, `Path.GetFileName`) and total.
  - A `GetDirectories` failure is `None`.
  - An exception thrown part-way through the children of one monitored path
    (from `GetFullPath` or `GetFileName`) is not modelled. The source keeps the
    entries added before such an exception.
- Unicode: whitespace, letters and case folding are ASCII only.
  - Non-ASCII drive letters (accepted by `char.IsLetter`) are rejected by the
    model.
  - `StartsWith("\\")` is culture-sensitive in .NET; the model compares
    ordinally.
- The interactive `while` loops of both screens are not modelled.
  - The model gives one step at a time: a selection, one delete confirmation,
    or one add prompt.
  - The loops re-prompt after an invalid path and reload the configuration on
    every round.
  - The Games screen never changes or saves the configuration. The model
    reflects this: its functions return no configuration.
- `Program.cs` (main menu and missing-path warning), `Ui/PromptHelper.cs` and
  `Ui/PromptUtil.cs` (prompt-library wrappers), `PrintHeader` and
  `WriteWarning` (colours, window width, logo) are not part of this model.
- `EnsureConfigExists`: the config path, and the messages it prints, are not
  modelled.
- ConsoleUtil.CenterText: a null title is not modelled; strings are never null.
- Strings are sequences of Unicode scalar values, while .NET strings are
  UTF-16 code units. Text outside the Basic Multilingual Plane therefore has a
  different length in the model. This affects `text.Length` in `CenterText`
  and the per-unit `c < 32` control-character scan of the validator.
