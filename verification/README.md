# Unity TMP Parameter Mover — a Dafny model

Unity TMP Parameter Mover copies the font parameters of one TextMeshPro font
asset, exported as JSON (the *source* or "from" file), into one or more other
font assets (the *origin* files). It writes each result to a
`Moved_Parameters` folder beside the origin file. The project contains two
programs that share this core:

- a **console tool** (`Program.cs`). It parses `-o/-f/-h` options, cleans the
  quoted paths it is given, and migrates one origin file with
  Newtonsoft.Json. Its merge is an *overwrite* merge: every listed field that
  the source has is copied.
- a **WinUI desktop app**. Its `TMPParameterService` processes one origin file
  into a `ProcessResult` with System.Text.Json. Its merge is a *tracked*
  merge: a field is copied only when its value differs, and every copied
  field is recorded as `section.field`. The `MainWindow` holds the list of
  origin files and the source path, and runs the service over the list.

Both programs run the same fixed table of nine steps. The first three are
sections: `m_fontInfo` (all keys but `Name`), `m_glyphInfoList` (all keys) and
`m_FaceInfo` (all keys but `m_FamilyName` and `m_StyleName`). Next come the
two root values `m_AtlasWidth` and `m_AtlasHeight`. Last come four more
sections that take all their keys: `m_GlyphTable`, `m_CharacterTable`,
`m_UsedGlyphRects` and `m_FreeGlyphRects`. Each program then serializes the
document and collapses every `[`, whitespace, `]` run to `[]`.

The files of the model:

| file | module | models |
|---|---|---|
| `text.dfy` | `Text` | `Trim`, `ToLower` (ASCII), `StartsWith`/`EndsWith` |
| `json.dfy` | `JsonModel` | JSON values, key-ordered objects, lookup in both libraries' views, `Remove`, the indexer set, the mutable `ObjectNode` |
| `field_sets.dfy` | `FieldSets` | the three field-list resolvers and the step table |
| `merge.dfy` | `FieldMerge` | `MoveFieldsInObjectNodeWithTracking` and `MoveFieldsInObjectNode` |
| `paths.dfy` | `FilePaths` | `Path.GetFileName`, `GetDirectoryName`, `Combine`, the output path |
| `formatting.dfy` | `JsonFormatting` | `CleanEmptyArrays` (both copies) |
| `process_result.dfy` | `ProcessResults` | `ProcessResult` |
| `service.dfy` | `ParameterService` | `TMPParameterService.ProcessSingleFile` |
| `service_props.dfy` | `ServiceProperties` | what the service promises, as lemmas |
| `console_args.dfy` | `ConsoleArgs` | `CleanFilePath`, `ParseCommandLineArgs` |
| `console_migration.dfy` | `ConsoleMigration` | the console's section sequence in `ProcessFiles` |
| `main_window.dfy` | `MainWindowState` | the `MainWindow` list handling and the batch run |

The file system, the JSON parser and the serializer are parameters. A
`FileSystem` value says which files exist, what reading them yields, and
which folder creations and writes fail, with the exception message. A
`Codec` gives what the parser makes of a text and the text the serializer
makes of a document.

## Model

| member | source | states |
|---|---|---|
| Text.Trim | Program.cs:385 | the result has no white space at either end, and only white space was removed from each end |
| Text.TrimPadded | Program.cs:385 | white space added around an already-trimmed text is exactly what `Trim` removes |
| Text.Lower | Unity-TMP-ParameterMover-WinUI/MainWindow.xaml.cs:97 | the result has the input's length, and each character is lower-cased A–Z and is otherwise unchanged |
| JsonModel.Find | Program.cs:373 | a key is found exactly when the object has it; JSON null counts as present (the `JObject` view) |
| JsonModel.NodeAt | Unity-TMP-ParameterMover-WinUI/Services/TMPParameterService.cs:318-321 | the `JsonNode` indexer: a value is returned exactly when the key is present and not JSON null, and then it is the stored value |
| JsonModel.Put | Unity-TMP-ParameterMover-WinUI/Services/TMPParameterService.cs:324 | the indexer set: an existing key keeps its position in the key order, and a new key is appended at the end |
| JsonModel.FindPut | Unity-TMP-ParameterMover-WinUI/Services/TMPParameterService.cs:324 | after `node[k] = v`, `k` reads `v` and every other key reads what it read before |
| JsonModel.FindWithout | Unity-TMP-ParameterMover-WinUI/Services/TMPParameterService.cs:323 | after `Remove`, the removed keys are absent and every other key reads as before |
| JsonModel.RemoveThenPut | Program.cs:375-376 | a `Remove` followed by an indexer set moves the key to the end of the object |
| JsonModel.ObjectNode.Remove | Program.cs:375 | the member with that key is gone; the other members keep their order |
| JsonModel.ObjectNode.Set | Program.cs:376 | the object becomes the indexer-set of the old members, and the key then reads the new value |
| FieldSets.GetFontInfoFields | Unity-TMP-ParameterMover-WinUI/Services/TMPParameterService.cs:278-292 | the keys of `m_fontInfo` in order, except `Name`; a key is listed exactly when the section has it and it is not `Name` |
| FieldSets.GetFieldsFaceInfo | Unity-TMP-ParameterMover-WinUI/Services/TMPParameterService.cs:259-273 | the keys of `m_FaceInfo` in order, except `m_FamilyName` and `m_StyleName`, in both directions |
| FieldSets.GetAllFieldsInNode | Unity-TMP-ParameterMover-WinUI/Services/TMPParameterService.cs:297-307 | every key of the node, in order |
| FieldSets.ResolveFields | Program.cs:325-367 | each section's resolver returns the section's keys minus that section's exclusions, the same in both programs |
| FieldSets.KeysExceptMembers | Program.cs:341-355 | a field is listed exactly when the source section has it and it is not excluded |
| FieldSets.KeysExceptNoDup | Program.cs:357-367 | a source section without duplicate keys yields a field list without duplicates |
| FieldSets.SectionTableNamesDistinct | Unity-TMP-ParameterMover-WinUI/Services/TMPParameterService.cs:114-194 | the step table has nine steps, and no two of them touch the same top-level key |
| FieldMerge.MoveFieldsInObjectNodeWithTracking | Unity-TMP-ParameterMover-WinUI/Services/TMPParameterService.cs:312-331 | the destination object and the returned names are those of the tracked merge specification |
| FieldMerge.TrackedMergeClosedForm | Unity-TMP-ParameterMover-WinUI/Services/TMPParameterService.cs:316-328 | the copied names are exactly the listed fields whose non-null source value differs, in list order; they are removed and re-appended at the end, and the other members stay in place |
| FieldMerge.ChangesMembers | Unity-TMP-ParameterMover-WinUI/Services/TMPParameterService.cs:318-326 | a field is reported as moved exactly when it is listed and its source value is non-null and differs from the destination's |
| FieldMerge.TrackedMergeValues | Unity-TMP-ParameterMover-WinUI/Services/TMPParameterService.cs:316-328 | after the merge, a copied key reads the source's value, and every other key reads what it read before |
| FieldMerge.TrackedMergeCopies | Unity-TMP-ParameterMover-WinUI/Services/TMPParameterService.cs:316-328 | after the merge, every listed field whose source value is non-null agrees with the source |
| FieldMerge.TrackedMergeQuiet | Unity-TMP-ParameterMover-WinUI/Services/TMPParameterService.cs:197-212 | a merge that reports no moved field left the destination exactly as it was |
| FieldMerge.TrackedMergeSettled | Unity-TMP-ParameterMover-WinUI/Services/TMPParameterService.cs:321 | when no listed field differs, nothing is copied or reported |
| FieldMerge.TrackedMergeIdempotent | Unity-TMP-ParameterMover-WinUI/Services/TMPParameterService.cs:312-331 | merging the same source into the result again moves nothing and changes nothing |
| FieldMerge.TrackedMergeUniqueKeys | Unity-TMP-ParameterMover-WinUI/Services/TMPParameterService.cs:323-324 | a destination without duplicate keys keeps that property |
| FieldMerge.MoveFieldsInObjectNode | Program.cs:369-379 | the destination object becomes the overwrite merge specification |
| FieldMerge.OverwriteClosedForm | Program.cs:371-377 | every listed field the source has is removed and re-appended in list order; the other members keep their order |
| FieldMerge.PresentMembers | Program.cs:373 | a field is copied exactly when it is listed and the source has it, JSON null included |
| FieldMerge.OverwriteValues | Program.cs:369-379 | after the merge, a copied key reads the source's value, and every other key reads what it read before |
| FieldMerge.OverwriteIdempotent | Program.cs:369-379 | overwriting again with the same source and list gives the same document |
| FieldMerge.TrackedAgreesWithOverwrite | Unity-TMP-ParameterMover-WinUI/Services/TMPParameterService.cs:312-331 | when no listed source value is JSON null, the two merges give every key the same value; they differ only in key order |
| FilePaths.FileName | Unity-TMP-ParameterMover-WinUI/Services/TMPParameterService.cs:34 | the result is a suffix of the path and contains no separator |
| FilePaths.PathSplit | Unity-TMP-ParameterMover-WinUI/Services/TMPParameterService.cs:221-224 | a path with a separator is its directory, a separator and its file name; a path without one has an empty directory and is its own file name |
| FilePaths.CombineFileName | Unity-TMP-ParameterMover-WinUI/Services/TMPParameterService.cs:224 | the file name of `Combine(dir, name)` is `name` for a nonempty `name`; combining with the empty name gives back `dir` |
| FilePaths.OutputPathParts | Unity-TMP-ParameterMover-WinUI/Services/TMPParameterService.cs:221-224 | the output file keeps the origin's file name and lies in the `Moved_Parameters` folder under the origin's directory; an origin path without a file name maps to that folder itself |
| FilePaths.OutputPathLonger | Unity-TMP-ParameterMover-WinUI/Services/TMPParameterService.cs:221-224 | the output path is never the origin path, so the origin file is never overwritten |
| JsonFormatting.CleanEmptyArrays | Unity-TMP-ParameterMover-WinUI/Utilities/CustomJsonFormatting.cs:29 | the replacement of every `[`, white space, `]` run by `[]`, scanning left to right without overlap (the console copy at CustomJsonFormatting.cs:26 is the same call); the result is never longer than the input, and the lemmas below state what it keeps and removes |
| JsonFormatting.CleanPrefix | Unity-TMP-ParameterMover-WinUI/Utilities/CustomJsonFormatting.cs:29 | a prefix in which no `[`, white space, `]` run starts is kept exactly, white space included, and only the rest is cleaned |
| JsonFormatting.CleanLeavesNoPadding | Unity-TMP-ParameterMover-WinUI/Utilities/CustomJsonFormatting.cs:29 | after cleaning, no `[` is followed by white space and then `]` |
| JsonFormatting.CleanKeepsNonWhiteSpace | Unity-TMP-ParameterMover-WinUI/Utilities/CustomJsonFormatting.cs:29 | cleaning only deletes white space: with all white space removed, the text is unchanged |
| JsonFormatting.CleanIdempotent | Unity-TMP-ParameterMover-WinUI/Utilities/CustomJsonFormatting.cs:29 | cleaning a cleaned text changes nothing |
| JsonFormatting.CleanLengthIff | CustomJsonFormatting.cs:26 | the text is unchanged exactly when its length is kept, and exactly when it holds no padded empty array |
| JsonFormatting.CleanWithoutBracket | CustomJsonFormatting.cs:26 | a text without `[` passes unchanged |
| JsonFormatting.CleanCollapses | CustomJsonFormatting.cs:26 | the first `[`, white space, `]` run becomes `[]`, the text before it is kept exactly, and the rest is cleaned independently |
| JsonFormatting.CleanKeepsUnmatchedSpace | CustomJsonFormatting.cs:26 | white space after a `[` that does not open an empty array survives: `[1,  [ ]]` becomes `[1,  []]` |
| JsonFormatting.CleanRewritesStringLiteral | CustomJsonFormatting.cs:26 | the substitution also applies inside JSON string values, since the pattern does not know about strings |
| ProcessResults.NewResult | Unity-TMP-ParameterMover-WinUI/Models/ProcessResult.cs:13-38 | a fresh result is unsuccessful, unchanged, and has an empty field list, output path, message and file name |
| ProcessResults.Fail | Unity-TMP-ParameterMover-WinUI/Services/TMPParameterService.cs:41-42 | a failure keeps the file name and the recorded fields, and sets a message and success false |
| ParameterService.LoadObject | Unity-TMP-ParameterMover-WinUI/Services/TMPParameterService.cs:87-109 | a text loads exactly when it parses to an object; a syntax error keeps the parser's message |
| ParameterService.ServiceView | Unity-TMP-ParameterMover-WinUI/Services/TMPParameterService.cs:115-116 | a section is skipped exactly when it is missing or JSON null, and is merged exactly when it holds an object |
| ParameterService.Qualify | Unity-TMP-ParameterMover-WinUI/Services/TMPParameterService.cs:121 | each moved name is recorded as `section.name`, in the same order |
| ParameterService.ServiceStep | Unity-TMP-ParameterMover-WinUI/Services/TMPParameterService.cs:115-122 | one step throws exactly when its specification does, and otherwise leaves the document and records its specification gives |
| ParameterService.MigrateDocument | Unity-TMP-ParameterMover-WinUI/Services/TMPParameterService.cs:114-194 | running the nine steps in place throws or yields exactly the specification's document and change list |
| ParameterService.ProcessSingleFile | Unity-TMP-ParameterMover-WinUI/Services/TMPParameterService.cs:29-254 | the result and the file system afterwards are those of the specification; the result is consistent and carries the origin's file name |
| ServiceProperties.RunStepsIndependent | Unity-TMP-ParameterMover-WinUI/Services/TMPParameterService.cs:114-194 | the table throws exactly when some step would throw on the original document; otherwise each step's key ends as if that step ran alone, keys outside the table are untouched, and the records are the steps' records in order |
| ServiceProperties.ServiceIdempotent | Unity-TMP-ParameterMover-WinUI/Services/TMPParameterService.cs:114-212 | processing the output again with the same source changes nothing and records no change |
| ServiceProperties.ServiceKeepsOtherKeys | Unity-TMP-ParameterMover-WinUI/Services/TMPParameterService.cs:114-194 | every top-level key outside the nine steps keeps its value |
| ServiceProperties.ServiceKeepsIdentityFields | Unity-TMP-ParameterMover-WinUI/Services/TMPParameterService.cs:259-292 | the origin's `m_fontInfo.Name`, `m_FaceInfo.m_FamilyName` and `m_FaceInfo.m_StyleName` survive the migration |
| ServiceProperties.ServiceSection | Unity-TMP-ParameterMover-WinUI/Services/TMPParameterService.cs:115-122 | a section that holds a non-object on either side throws; when both sides hold objects it becomes the tracked merge; when either side is missing or null it is left alone |
| ServiceProperties.ServiceRootStep | Unity-TMP-ParameterMover-WinUI/Services/TMPParameterService.cs:144-154 | the atlas width or height is recorded exactly when it differs, it then takes the source's value, and otherwise the document is unchanged |
| ServiceProperties.WriteOutputOutcome | Unity-TMP-ParameterMover-WinUI/Services/TMPParameterService.cs:197-253 | once loaded: an exception fails with the unknown-error message; otherwise the records are set, and the file succeeds exactly when the folder and the write succeed, writing the cleaned text to the output path only |
| ServiceProperties.ProcessChanges | Unity-TMP-ParameterMover-WinUI/Services/TMPParameterService.cs:197-212 | the changed fields are the steps' records, and the change flag is set exactly when that list is nonempty |
| ServiceProperties.ProcessEarlyFailures | Unity-TMP-ParameterMover-WinUI/Services/TMPParameterService.cs:31-109 | each early failure yields its message, in the order the checks are made: missing origin, missing source, unreadable origin, unreadable source, invalid origin JSON, invalid source JSON; any failure leaves the file system unchanged; every result is consistent and carries the origin's file name |
| ServiceProperties.ProcessRootNotObject | Unity-TMP-ParameterMover-WinUI/Services/TMPParameterService.cs:87-97 | an origin whose root is JSON null or not an object is reported as invalid origin JSON, with the message of the exception that `AsObject` raises |
| ServiceProperties.ProcessSourceRootNotObject | Unity-TMP-ParameterMover-WinUI/Services/TMPParameterService.cs:99-109 | a loadable origin with a source whose root is JSON null or not an object is reported as invalid source JSON, with the message of the exception that `AsObject` raises |
| ServiceProperties.ProcessSuccess | Unity-TMP-ParameterMover-WinUI/Services/TMPParameterService.cs:215-243 | a file succeeds exactly when no step throws and the folder and the write succeed; the output is then the cleaned serialization, written to `<dir>\Moved_Parameters\<name>`, which is never the origin and keeps the origin's file name |
| ServiceProperties.StepSelf | Unity-TMP-ParameterMover-WinUI/Services/TMPParameterService.cs:115-122 | one step run with the same document on both sides throws exactly when its section holds a non-object, and otherwise changes and records nothing |
| ServiceProperties.RunStepsSelf | Unity-TMP-ParameterMover-WinUI/Services/TMPParameterService.cs:114-194 | a run of steps against the same document throws exactly when one of its sections holds a non-object, and otherwise changes and records nothing |
| ServiceProperties.SelfMigration | Unity-TMP-ParameterMover-WinUI/Services/TMPParameterService.cs:114-212 | migrating a document against itself records no change and leaves it as it is, unless a section holds a non-object |
| ServiceProperties.SelfMigrationCanThrow | Unity-TMP-ParameterMover-WinUI/Services/TMPParameterService.cs:157-158 | a document whose `m_GlyphTable` is an array throws even against itself |
| ServiceProperties.ProcessSelf | Unity-TMP-ParameterMover-WinUI/Services/TMPParameterService.cs:29-254 | a file processed against itself reports no changed field and no change, and on success writes the cleaned serialization of the unchanged document |
| ConsoleArgs.StripPair | Program.cs:388-397 | the text is unchanged unless the quote character encloses it; an enclosed text loses both quotes; `Substring` throws exactly on the lone quote |
| ConsoleArgs.CleanFilePath | Program.cs:381-400 | the method computes the staged trimming and quote stripping of its specification |
| ConsoleArgs.CleanPathThrows | Program.cs:388-397 | the method throws exactly when the trimmed input is `"`, `'` or `"'"` |
| ConsoleArgs.CleanPathQuoted | Program.cs:381-400 | a trimmed path in double or single quotes, padded with white space, comes back bare |
| ConsoleArgs.CleanPathBare | Program.cs:381-400 | a nonempty trimmed path without enclosing quotes comes back unchanged |
| ConsoleArgs.ParseCommandLineArgs | Program.cs:84-139 | the loop computes the argument-parsing specification |
| ConsoleArgs.ParseArgsAppend | Program.cs:90-137 | parsing a concatenation is parsing the second part from the state the first part leaves |
| ConsoleArgs.LaterOptionWins | Program.cs:99-125 | a later `-o` or `-f` overrides an earlier one, and the other fields are kept |
| ConsoleArgs.OptionCaseInsensitive | Program.cs:92-100 | option spellings are matched regardless of case |
| ConsoleArgs.PlainArgumentIgnored | Program.cs:90-137 | an argument that does not start with `-` is skipped |
| ConsoleArgs.UnknownOptionExits | Program.cs:127-133 | an unrecognised option exits with code 1 |
| ConsoleArgs.DanglingOptionExits | Program.cs:99-125 | `-o` or `-f` without a following value exits with code 1 |
| ConsoleArgs.OptionValueVerbatim | Program.cs:99-123 | for every spelling of `-o` or `-f`, the next argument becomes that file path whatever it looks like, and parsing goes on after it |
| ConsoleArgs.HelpOption | Program.cs:94-97 | every spelling of `-h` or `--help` sets the help flag, and parsing goes on with the next argument |
| ConsoleArgs.ParsedValuesFromArgs | Program.cs:84-139 | every file path the parser returns is one of the arguments |
| ConsoleMigration.AsObject | Program.cs:231-232 | the `as JObject` view is present exactly when the key holds an object |
| ConsoleMigration.ConsoleBlock | Program.cs:231-236 | one section block or root copy changes the document exactly as its specification says |
| ConsoleMigration.MigrateSections | Program.cs:230-294 | the nine blocks in order change the document as the console specification says |
| ConsoleMigration.ConsoleRunIndependent | Program.cs:230-294 | each step's key ends as if that step ran alone, and keys outside the table are untouched |
| ConsoleMigration.ConsoleIdempotent | Program.cs:230-294 | when the source sections have no duplicate keys, migrating the output again with the same source gives the same document |
| ConsoleMigration.ConsoleKeepsOtherKeys | Program.cs:230-294 | every top-level key outside the nine steps keeps its value |
| ConsoleMigration.ConsoleSection | Program.cs:231-236 | when both sides hold objects, the section becomes the overwrite merge, and each of its fields reads the source's value or its old value; otherwise the section is unchanged |
| ConsoleMigration.ConsoleKeepsIdentityFields | Program.cs:325-355 | the origin's font name, family name and style name survive the console migration |
| ConsoleMigration.ConsoleRootStep | Program.cs:255-262 | the atlas width or height takes the source's value whenever the source has the key, JSON null included, and is otherwise kept; an existing key keeps its position |
| MainWindowState.MainWindow.constructor | Unity-TMP-ParameterMover-WinUI/MainWindow.xaml.cs:30-31 | a new window has no origin files and no source path, and so satisfies the invariant that no two rows share a path |
| MainWindowState.MainWindow.SelectOriginFiles | Unity-TMP-ParameterMover-WinUI/MainWindow.xaml.cs:64-75 | picked files whose path is not yet listed are appended in order, so the rows' paths stay distinct; the source path is kept |
| MainWindowState.MainWindow.SelectOriginFolder | Unity-TMP-ParameterMover-WinUI/MainWindow.xaml.cs:97-111 | only `.json` files of the folder are added, and only unlisted ones; the reported count is exactly the growth of the list |
| MainWindowState.MainWindow.SelectSourceFile | Unity-TMP-ParameterMover-WinUI/MainWindow.xaml.cs:133 | the source path becomes the picked file's path; the list is kept |
| MainWindowState.MainWindow.RemoveFile | Unity-TMP-ParameterMover-WinUI/MainWindow.xaml.cs:146-151 | the first item with that path is removed; an item is reported exactly when the path was listed, and it is that item |
| MainWindowState.MainWindow.ClearList | Unity-TMP-ParameterMover-WinUI/MainWindow.xaml.cs:161 | the list becomes empty; the source path is kept |
| MainWindowState.MainWindow.StartProcess | Unity-TMP-ParameterMover-WinUI/MainWindow.xaml.cs:172-250 | an empty list or an empty source path refuses with its message and touches no file; otherwise every file is processed once, in order, and success plus failure equals the file count, with changed at most success |
| MainWindowState.JsonFiles | Unity-TMP-ParameterMover-WinUI/MainWindow.xaml.cs:97 | a file is kept exactly when it was picked and its lower-cased type is `.json` |
| MainWindowState.AddMissingDistinct | Unity-TMP-ParameterMover-WinUI/MainWindow.xaml.cs:67 | adding picked files never creates two items with the same path |
| MainWindowState.AddMissingContents | Unity-TMP-ParameterMover-WinUI/MainWindow.xaml.cs:64-75 | the old items stay first and in order; a path is listed afterwards exactly when it was listed before or was picked |
| MainWindowState.AddMissingTwice | Unity-TMP-ParameterMover-WinUI/MainWindow.xaml.cs:64-75 | picking the same files a second time adds nothing |
| MainWindowState.RemoveFirstSpec | Unity-TMP-ParameterMover-WinUI/MainWindow.xaml.cs:146-151 | with distinct paths, the path is no longer listed, the list shrinks by one exactly when the path was listed, and every other item remains |
| MainWindowState.Tally | Unity-TMP-ParameterMover-WinUI/MainWindow.xaml.cs:238-249 | successes plus failures equal the number of results; changed files are at most the successes |
| MainWindowState.ChangedMeansRecorded | Unity-TMP-ParameterMover-WinUI/MainWindow.xaml.cs:238-244 | the changed count is the number of successful results that recorded at least one field |
| MainWindowState.BatchInOrder | Unity-TMP-ParameterMover-WinUI/MainWindow.xaml.cs:222-250 | the batch yields one result per file, in list order, each computed on the file system its predecessors left |
| MainWindowState.BatchResults | Unity-TMP-ParameterMover-WinUI/MainWindow.xaml.cs:235 | each batch result is the service's result for that file against the chosen source, and is consistent and named after its file |

## Left out

- Real I/O is left out. Reading, writing, folder creation, the file and folder pickers, and the console's `File.Exists` checks and error printing are replaced by the `FileSystem` value, and the picker results are parameters.
- The JSON parsers and serializers (Newtonsoft.Json, System.Text.Json, the custom indented formatter) are left out. They are the `parse` and `serialize` functions of `Codec`, so duplicate keys and number formats follow whatever the parser gives.
- Deep equality is modelled as structural equality of values. `JsonNode.DeepEquals` ignores member order inside objects, so two objects that differ only in key order count as "different" in the model. Numbers are modelled as integers: floating-point values, and the exponent forms of numbers, are left out.
- `ToLower` and `StartsWith` are modelled as ASCII and ordinal. The culture-sensitive behaviour of the .NET versions is not modelled.
- Paths use a single backslash separator. Root, drive and UNC cases of `Path.GetDirectoryName` are not modelled, and an empty directory name stands for `null`. The forward slash as a second separator is not modelled, and neither is the way `Path.GetDirectoryName` collapses a run of repeated separators into one.
- ConsoleArgs.CleanFilePath: a `null` argument is not representable. `Main` only passes non-empty values, so that branch is unreachable in the program.
- The console's `Main`, `ShowHelp`, the file reading and writing in `ProcessFiles` and its exception printing are left out. Only its section sequence, its argument parsing and its path cleaning are modelled.
- GUI threading is left out: `DispatcherQueue`, the progress bar, the log panel and `UpdateOriginCount`. The window's counters are modelled, and the batch also keeps the list of results, so that order and once-per-file can be stated.
- A nested `JsonObject` or `JObject` is modelled as a value that is read out of its parent, changed, and stored back under the same key. The key keeps its position, which matches in-place mutation through the shared reference. Aliasing itself is not modelled.
- The exception message of an unknown error during migration is the fixed text `AsObject` raises on a non-object node. Other runtime exceptions (out of memory, a dispatcher failure) are not modelled.
