# Steam launch-options editor, modelled in Dafny

The program edits the per-app launch options in a Steam user's
`localconfig.vdf` and lists the apps installed in the library folders named
in `libraryfolders.vdf`. Both files use Valve's KeyValues text format. A
foreign library turns the text into a tree and back; everything the program
itself does happens on that tree. This project models that tree and the
program's work on it:

- **the decoded tree** (`KeyValues`): `Node = Str | Section(map)`, a
  `Document` with its root key, and the typed views the reader asks for (a
  section, a string, a section of strings, a required field);
- **the user configuration** (`LocalConfig`):
  - the typed chain `UserLocalConfigStore` / `Software` / `Valve` / `Steam` /
    `apps`, each level keeping its unread children in an `other` map;
  - `read_launch_options`, which flattens `apps` into an app-ID → launch-options map;
  - `write_launch_options`, which sets, replaces or deletes one
    `LaunchOptions` per edited app and re-encodes the whole store;
- **the earlier reader** (`LegacyVdf`): `deserialize`, which keeps app keys as
  text, tolerates malformed entries and aborts instead of returning errors;
- **the library folders** (`LibraryFoldersVdf`): `read_installed_apps` and
  `read_paths`, which walk the folder sections in key order;
- **paths** (`Paths`): a `PathBuf` class with `pop`/`push` and `config_dir`,
  which finds `libraryfolders.vdf` from the user file's path;
- **the app table** (`AppTable`): the join of installed IDs with app names
  and launch options (`get_installed_apps`), the loading fallback of
  `update_apps`, the case-insensitive name filter and the four sort orders
  (the two name orders as an in-place insertion sort on an array);
- **the window** (`AppWindow`): the `EguiApp` class, whose Save, Clear and
  table handlers update the edited launch options in place.

Outcomes distinguish a returned error (`Err`, Rust's `?`) from an abort
(`Panic`, from `unwrap`/`expect`), with the abort's message. A `BTreeMap`
visits keys in ascending order. That order is the ghost function
`Text.Ascending`, and the methods `Text.SortedKeys` / `Text.SortedIds`
compute it. `u32` parsing and printing are `Text.ParseU32` and
`Text.Decimal`. Each loop of the source is a method proved equal to a
specification function, and the properties the program promises are lemmas
about those functions.

Two points where the code goes against the intuitive reading are modelled as
the code does them:

- one app key that is not a `u32`, one app entry that is not a section, or
  one `LaunchOptions` that is not a string fails the whole read with an
  error, instead of skipping that entry;
- the library readers abort the process on a folder without `apps` or
  `path`, rather than returning an error.

## Model

| member | source | states |
|---|---|---|
| KeyValues.AsSection | src/localconfig_vdf.rs:54 | a value converts to a map exactly when it is a section, giving its children; a string is a type error |
| KeyValues.AsString | src/localconfig_vdf.rs:57 | a value converts to a string exactly when it is one; a section is a type error |
| KeyValues.AsStringMap | src/libraryfolders_vdf.rs:25 | a value converts to a map of strings exactly when it is a section whose children are all strings, with the same keys |
| KeyValues.Field | src/localconfig_vdf.rs:11-46 | a required struct field is found exactly when the name is present, case-sensitively; otherwise it is a missing-field error |
| LocalConfig.DecodeStore | src/localconfig_vdf.rs:11-46 | a decoded store keeps every unread child in its `other` maps and re-encodes to exactly the input tree |
| LocalConfig.DecodeIffChain | src/localconfig_vdf.rs:11-46 | decoding succeeds if and only if the body has the exact chain `Software`/`Valve`/`Steam`/`apps` of sections; it never aborts |
| LocalConfig.StoreRoundTrip | src/localconfig_vdf.rs:11-46 | encoding a well-formed store and decoding it gives the same store back |
| LocalConfig.WithApps | src/localconfig_vdf.rs:96-102 | replacing the `apps` section yields a store whose `apps` is the new map |
| LocalConfig.ReadLaunchOptions | src/localconfig_vdf.rs:48-64 | the loop over the `apps` keys in ascending order returns what the specification of the read gives |
| LocalConfig.ReadStep | src/localconfig_vdf.rs:53-62 | one turn of the read loop inserts the parsed ID with the entry's launch options, or the read ends with that entry's failure |
| LocalConfig.ReadFailurePersists | src/localconfig_vdf.rs:54-60 | once a prefix of the keys fails, the whole read fails the same way |
| LocalConfig.ReadEntriesOkIff | src/localconfig_vdf.rs:54-60 | the read loop succeeds if and only if every visited key parses as a u32 and every entry yields its launch options; otherwise it is an error, never an abort |
| LocalConfig.ReadEntriesKeys | src/localconfig_vdf.rs:58-60 | every visited key parses into a key of the result, and every key of the result is some visited key parsed |
| LocalConfig.ReadEntriesLastWins | src/localconfig_vdf.rs:58-60 | an ID's value comes from the last key in visiting order that parses to it |
| LocalConfig.ReadNeedsChain | src/localconfig_vdf.rs:50-52 | a read succeeds only on a document with the typed chain, and then equals the read of its `apps` section; failures are errors |
| LocalConfig.ReadAppsOkIff | src/localconfig_vdf.rs:53-62 | the read of an `apps` section succeeds if and only if every key is a u32 and every entry is a section whose `LaunchOptions`, if any, is a string |
| LocalConfig.ReadAppsKeys | src/localconfig_vdf.rs:53-62 | the read map has exactly one key per app key, that key parsed as a u32 |
| LocalConfig.ReadAppsValue | src/localconfig_vdf.rs:56-61 | an app key that no other key parses like reads as its `LaunchOptions`, or `""` when it has none |
| LocalConfig.ReadCanonical | src/localconfig_vdf.rs:53-62 | with canonical decimal keys an ID is in the read map if and only if its decimal form is an app key, with that entry's launch options |
| LocalConfig.WriteLaunchOptions | src/localconfig_vdf.rs:66-111 | decode, merge, then re-encode under `UserLocalConfigStore`; the result is exactly what the specification of the write gives |
| LocalConfig.MergeLaunchOptions | src/localconfig_vdf.rs:72-103 | the loop over the edits in ascending ID order gives the merged `apps` section, or an invalid-type error |
| LocalConfig.EditEntry | src/localconfig_vdf.rs:73-102 | one edit succeeds unless the app's entry is a string; it stores the app's old properties patched with the edit under the app's decimal key |
| LocalConfig.MergeNext | src/localconfig_vdf.rs:72-103 | the next edit's key is still untouched by the merge; a string entry fails the whole write, any other entry extends the merge by one patched entry |
| LocalConfig.MergedStep | src/localconfig_vdf.rs:96-102 | merging one more edit updates exactly that app's key |
| LocalConfig.MergedUntouched | src/localconfig_vdf.rs:72-103 | a key no done edit names keeps its entry, or stays absent |
| LocalConfig.MergedEdited | src/localconfig_vdf.rs:83-102 | an edited app's key holds a section with its old properties patched by the edit |
| LocalConfig.WriteFailsOnString | src/localconfig_vdf.rs:84-86 | an edit for an app whose entry is a string fails the write with a type error |
| LocalConfig.WriteOkIff | src/localconfig_vdf.rs:70-103 | the write succeeds if and only if the document has the typed chain and no edited app's entry is a string; it never aborts |
| LocalConfig.MergedKeeps | src/localconfig_vdf.rs:72-103 | the merged section holds the old keys plus one key per edited ID; every app without an edit keeps its entry |
| LocalConfig.MergedEntry | src/localconfig_vdf.rs:83-93 | an edited app's entry is a section whose `LaunchOptions` is the edit verbatim, or absent when the edit is blank; every other property is kept |
| LocalConfig.MergedNewEntry | src/localconfig_vdf.rs:73-102 | an edit for an app without an entry creates a section holding only `LaunchOptions`, or an empty section for a blank edit |
| LocalConfig.WriteKeepsRest | src/localconfig_vdf.rs:96-104 | the written document decodes to the input's store with every `other` map unchanged and only `apps` replaced by the merge |
| LocalConfig.WriteNothing | src/localconfig_vdf.rs:66-111 | with no edits the write re-serializes the body unchanged |
| LocalConfig.PatchIdempotent | src/localconfig_vdf.rs:89-93 | patching an app's properties twice with the same value is patching once |
| LocalConfig.WriteIdempotent | src/localconfig_vdf.rs:66-111 | writing the same edits to the written document gives the same document |
| LocalConfig.AfterEdits | src/localconfig_vdf.rs:89-93 | the expected read-back has the old IDs plus the edited ones |
| LocalConfig.MergedReadable | src/localconfig_vdf.rs:83-102 | merging into readable canonical entries keeps them readable and canonical, and each edited app reads as the edit or `""` |
| LocalConfig.ReadAfterWrite | src/localconfig_vdf.rs:48-111 | reading a written document gives the old map with each edit applied (`""` for a blank edit), other IDs as before |
| LocalConfig.ReadAfterWriteMaps | src/localconfig_vdf.rs:56-61 | the ID-by-ID reading of the merged section is the old reading with the edits applied |
| LegacyVdf.Deserialize | src/vdf.rs:50-66 | decoding, then the loop over the `apps` entries, returns what the specification of the earlier reader gives; a decoding failure aborts |
| LegacyVdf.DeserializeApps | src/vdf.rs:54-64 | the loop over the entries, in any order, gives each raw key its launch options, or aborts |
| LegacyVdf.LegacyDone | src/vdf.rs:54-65 | once every entry is read, the map built is the reader's result |
| LegacyVdf.ReadEntry | src/vdf.rs:56-63 | one entry reads as its `LaunchOptions`, `""` without one or for a non-section entry, and aborts on a section-valued `LaunchOptions` |
| LegacyVdf.LegacyOutcome | src/vdf.rs:52-59 | the earlier reader never returns an error; it succeeds if and only if the chain exists and no `LaunchOptions` is a section, and aborts otherwise |
| LegacyVdf.LegacyValues | src/vdf.rs:54-64 | the result is keyed by exactly the raw app keys, each mapped to its `LaunchOptions` or `""` |
| LegacyVdf.LegacyAgreesWithRead | src/vdf.rs:50-66 | where the typed reader succeeds on canonical keys, the earlier reader succeeds and agrees with it key by key |
| LegacyVdf.LegacyToleratesStringEntry | src/vdf.rs:56-58 | a string in place of an app's section fails the typed reader but reads here as `""` |
| LibraryFoldersVdf.ReadInstalledApps | src/libraryfolders_vdf.rs:16-33 | the nested loops return what the specification gives: folders in ascending key order, each folder's app IDs in ascending order, concatenated |
| LibraryFoldersVdf.InstalledAppsOf | src/libraryfolders_vdf.rs:20-32 | the loops over the folders in the given order return the concatenation of each folder's app IDs, or the first folder's failure |
| LibraryFoldersVdf.ReadFolderApps | src/libraryfolders_vdf.rs:22-30 | one folder gives nothing if it is a string, the keys of its `apps` in ascending order, an abort without `apps`, or an error for a bad `apps` |
| LibraryFoldersVdf.FolderAppsOutcome | src/libraryfolders_vdf.rs:22-26 | one folder aborts exactly when it is a section without `apps`, and succeeds exactly when any `apps` it has is a section of strings |
| LibraryFoldersVdf.WalkStep | src/libraryfolders_vdf.rs:21-31 | visiting one folder extends what a reader's loop has collected, or ends it with that folder's failure |
| LibraryFoldersVdf.PushAll | src/libraryfolders_vdf.rs:27-29 | pushing the items in order appends them to the list |
| LibraryFoldersVdf.CollectStep | src/libraryfolders_vdf.rs:21-31 | one folder more appends that folder's items, or ends the walk with its failure |
| LibraryFoldersVdf.CollectFailure | src/libraryfolders_vdf.rs:21-31 | the walk succeeds if and only if every folder does; otherwise its outcome is that of the first failing folder |
| LibraryFoldersVdf.CollectFrame | src/libraryfolders_vdf.rs:21-31 | the walk depends only on the folders it visits |
| LibraryFoldersVdf.CollectWithout | src/libraryfolders_vdf.rs:22-23 | a folder that contributes nothing can be dropped from the walk |
| LibraryFoldersVdf.StringFolderSkipped | src/libraryfolders_vdf.rs:22-23 | dropping a string-valued folder from the file does not change what a reader returns |
| LibraryFoldersVdf.StringFolderIgnored | src/libraryfolders_vdf.rs:21-47 | a folder entry that is a string is ignored by both readers |
| LibraryFoldersVdf.FolderAppsOnce | src/libraryfolders_vdf.rs:25-29 | a folder lists an app once if it holds it, and not at all otherwise |
| LibraryFoldersVdf.CollectAppsCount | src/libraryfolders_vdf.rs:21-31 | an ID occurs in the walk once per visited folder that holds it |
| LibraryFoldersVdf.InstalledAppsCount | src/libraryfolders_vdf.rs:26-29 | with no de-duplication, an app ID occurs once for every folder that holds it |
| LibraryFoldersVdf.InstalledAppsMembers | src/libraryfolders_vdf.rs:16-33 | an ID is listed if and only if some folder's `apps` section has it |
| LibraryFoldersVdf.InstalledAppsFailure | src/libraryfolders_vdf.rs:18-26 | the read succeeds if and only if the body is a section and every section folder has an `apps` section of strings; a missing `apps` is the only abort and a bad `apps` the only error |
| LibraryFoldersVdf.ReadPaths | src/libraryfolders_vdf.rs:35-49 | the nested loops return what the specification gives: one `path` per section folder, in ascending folder-key order |
| LibraryFoldersVdf.PathsOf | src/libraryfolders_vdf.rs:39-48 | the loops over the folders in the given order return the concatenation of each folder's path, or the first folder's failure |
| LibraryFoldersVdf.ReadFolderPath | src/libraryfolders_vdf.rs:41-45 | one folder gives nothing if it is a string, its `path`, an abort without `path`, or an error for a section-valued `path` |
| LibraryFoldersVdf.SectionKeys | src/libraryfolders_vdf.rs:40-42 | a key is listed if and only if it is visited and its folder is a section |
| LibraryFoldersVdf.CollectPathsShape | src/libraryfolders_vdf.rs:40-47 | the i-th path is the `path` string of the i-th section folder visited |
| LibraryFoldersVdf.SectionKeysAscending | src/libraryfolders_vdf.rs:40 | the section folders stay in ascending key order |
| LibraryFoldersVdf.SectionKeysCount | src/libraryfolders_vdf.rs:40-42 | the listed section keys are as many as the section folders among the visited keys |
| LibraryFoldersVdf.PathsPerFolder | src/libraryfolders_vdf.rs:38-48 | the paths are those of the section folders in ascending key order, one each, as many as there are section folders |
| LibraryFoldersVdf.PathsFailure | src/libraryfolders_vdf.rs:37-44 | the read succeeds if and only if the body is a section and every section folder has a string `path`; a missing `path` is the only abort |
| Paths.Segments | src/main.rs:167 | splitting a path's text gives at least one piece, none containing a separator |
| Paths.Normal | src/main.rs:167 | the components kept are non-empty, not `.`, and taken from the pieces |
| Paths.SegmentsOfJoin | src/main.rs:167 | splitting joined pieces gives the pieces back |
| Paths.RenderRoundTrip | src/main.rs:167 | parsing the text of a well-formed path gives back its root and components |
| Paths.RenderEmpty | src/main.rs:167 | the root alone and the empty path have no components |
| Paths.ComponentsWellFormed | src/main.rs:167 | the components of any text are well formed |
| Paths.PathBuf.constructor | src/main.rs:167 | a path built from text has that text's root and components |
| Paths.PathBuf.Pop | src/main.rs:168-171 | `pop` drops the last component and reports whether there was one; the root stays |
| Paths.PathBuf.Push | src/main.rs:172-173 | `push` replaces the path with an absolute argument and appends a relative one's components |
| Paths.PushName | src/main.rs:172-173 | pushing a single normal name appends it as one component |
| Paths.PopFour | src/main.rs:168-171 | four pops remove four components, or all there are |
| Paths.ConfigDir | src/main.rs:166-175 | the result is a new path with the input's root, the last four components dropped and `config/libraryfolders.vdf` appended |
| Paths.ConfigDirOfUserData | src/main.rs:166-175 | for `<steam>/userdata/<user>/config/localconfig.vdf` the result is `<steam>/config/libraryfolders.vdf`, and its text parses back to it |
| AppTable.GetInstalledApps | src/main.rs:177-195 | the loop returns the join of the listed IDs with the names and launch options, or aborts on an ID that is not a u32 |
| AppTable.JoinAdd | src/main.rs:185-192 | listing one more ID adds its app if it has a name, and nothing otherwise |
| AppTable.DecimalsParse | src/main.rs:134 | a list of IDs printed in decimal parses without abort back to exactly those IDs |
| AppTable.InstalledEntries | src/main.rs:183-192 | the join never returns an error; a listed, named ID is in it with its name and launch options (`""` by default); a bad ID aborts |
| AppTable.FilterIff | src/main.rs:197-202 | the filter holds if and only if it is empty or its trimmed, lower-cased text occurs in the lower-cased name |
| AppTable.BlankFilterShowsAll | src/main.rs:197-202 | a filter of only whitespace matches every name |
| AppTable.FilterIgnoresCase | src/main.rs:197-202 | the outcome does not depend on the case of the name or of the filter |
| AppTable.BeforeIrreflexive | src/main.rs:204-219 | no row sorts before itself |
| AppTable.BeforeAsymmetric | src/main.rs:204-219 | two rows never sort before each other |
| AppTable.BeforeTransitive | src/main.rs:204-219 | the table order is transitive |
| AppTable.BeforeTotal | src/main.rs:204-219 | rows with different IDs are ordered one way or the other |
| AppTable.InOrderDistinct | src/main.rs:204-219 | a listing in order repeats no ID |
| AppTable.TableUnique | src/main.rs:204-219 | for a given order, two ordered listings of the same map are the same sequence |
| AppTable.FirstRowsAgree | src/main.rs:204-219 | two ordered listings of the same map start with the same row |
| AppTable.RestIsListing | src/main.rs:204-219 | without its first row, an ordered listing lists the rest of the map in order |
| AppTable.Entries | src/main.rs:206 | collecting the map gives each entry once, in ascending ID order |
| AppTable.Reversed | src/main.rs:207 | reversing gives the same rows in the opposite order |
| AppTable.ReversedDescending | src/main.rs:207 | reversing an ascending listing gives a descending listing |
| AppTable.NameAfterDecides | src/main.rs:208-217 | for rows in ascending ID order, the name comparison `sort_by` makes alone decides the table order |
| AppTable.SortByName | src/main.rs:209-216 | the in-place sort permutes the array and leaves it in name order, ties in ascending ID order |
| AppTable.Insert | src/main.rs:208-217 | one insertion permutes the array, extends the sorted prefix by one row, and leaves the rest unchanged |
| AppTable.InsertSwap | src/main.rs:208-217 | swapping the inserted row past a row with a greater name keeps the insertion invariant and permutes the rows |
| AppTable.SwapPermutes | src/main.rs:209-216 | swapping two neighbours is a permutation |
| AppTable.InsertDone | src/main.rs:208-217 | when the inserted row meets a name that is not greater, the prefix is in order |
| AppTable.SortApps | src/main.rs:204-219 | the result lists every entry of the map once, in the chosen order |
| AppTable.SortedByName | src/main.rs:208-217 | collecting and sorting by name lists every entry once, in name order |
| AppTable.SameElements | src/main.rs:209-216 | a permutation of a listing is a listing |
| AppTable.UpdateApps | src/main.rs:120-136 | loading returns the join of the installed IDs, or of the IDs with launch options when the library file cannot be read; an abort of the library reader propagates |
| AppTable.ReadProperties | src/main.rs:126-127 | the launch options are those read from the user file, or none when the read fails |
| AppTable.ReadLibrary | src/main.rs:125-133 | the installed IDs come from reading the file at the path `config_dir` gives |
| AppTable.FallbackToLaunchOptions | src/main.rs:126-135 | when the library file cannot be read, loading never aborts and holds exactly the named apps that have launch options, with those options |
| AppWindow.EguiApp.constructor | src/main.rs:105-115 | a new window has the given apps, default and sort order, no edits and no filter |
| AppWindow.EguiApp.Save | src/main.rs:289-307 | the edits become the defaulted edits, and the file is written with them or the handler aborts with its message |
| AppWindow.EguiApp.ApplyDefault | src/main.rs:293-301 | every edit that is empty or equals the previous default becomes a non-blank new default; a blank default changes nothing |
| AppWindow.EguiApp.Clear | src/main.rs:322-326 | every edit becomes `""` and the set of apps is unchanged |
| AppWindow.EguiApp.ShowTable | src/main.rs:444-471 | one pass over the sorted table leaves the edits as the table specification gives; without apps nothing changes |
| AppWindow.EguiApp.ShowRows | src/main.rs:446-471 | the loop over the rows leaves the edits as the table specification gives for the rows visited |
| AppWindow.EguiApp.ShowRow | src/main.rs:447-470 | a row seeds its edit from the file only when it has none, then takes the typed text if the row is shown and changed |
| AppWindow.ShownAll | src/main.rs:446 | visiting every row of a listing visits the whole map |
| AppWindow.ShownStep | src/main.rs:446 | one more row visited adds exactly that row's app |
| AppWindow.TableStep | src/main.rs:447-470 | the table pass over one more row changes only that row's entry |
| AppWindow.DefaultFillsEmpty | src/main.rs:293-301 | after a non-blank default no app is left without launch options, and values that are neither empty nor the previous default are kept |
| AppWindow.DefaultIdempotent | src/main.rs:289-301 | saving again with the same default, now the stored previous one, changes nothing more |
| AppWindow.DefaultFollowsChange | src/main.rs:289-301 | values still holding the old default follow a change of default |
| AppWindow.SaveAfterClear | src/main.rs:303-326 | saving after Clear removes `LaunchOptions` from every listed app and keeps each app's section |
| AppWindow.DefaultAfterClear | src/main.rs:293-326 | a non-blank default saved after Clear gives every app that default |
| AppWindow.SaveReadsBack | src/main.rs:303-307 | what Save writes reads back as the old launch options with the edits applied, for canonical app keys |
| AppWindow.TableKeeps | src/main.rs:447-457 | the table pass keeps every app, adds the listed apps without an entry with the file's value, and keeps every entry not typed into |
| AppWindow.HiddenRowsUntouched | src/main.rs:459-470 | a row the filter hides is not changed by typing |
| AppWindow.TableIdempotent | src/main.rs:447-470 | a second pass with the same typing changes nothing |
| Text.SortedKeys | src/localconfig_vdf.rs:53 | a map's keys are listed in the ascending order a `BTreeMap` visits them |
| Text.SortedIds | src/main.rs:134 | u32 keys are listed each once, strictly ascending |
| Text.DecimalRoundTrip | src/main.rs:134 | a printed u32 parses back to itself |
| Text.TrimLower | src/main.rs:199-201 | lower-casing and trimming commute |

## Left out

- The KeyValues text codec. Decoding and encoding are done by a foreign
  library. Every operation here starts from the decoded tree, and the write
  produces a tree with its root key; no byte-level or quoting claims are made.
- File I/O. Reading a file is a lookup in a map from path to decoded
  document, and a missing path is a `NotFound` error. The truncating write
  is the returned document. `backup_file` and its `expect` are not modelled,
  and neither is `userdata_dir`.
- The GUI, popups, file dialogs, and loading and storing the program's
  settings. Where a handler uses a stored value, it is a parameter: the
  previous default in `Save`, and the text the user typed in `ShowTable`.
- The Restore, Open and Refresh handlers, the sort-order combo box and the
  ProtonDB toggle, since they are outside the modelled core. `api.rs`
  (network and cache) and `appmanifest_acf.rs` (unfinished) are not part of
  this model, and neither is the separate `slint.rs` front end.
- Text.Lower: maps ASCII letters only; Rust's Unicode `to_lowercase`
  (multi-character expansions, non-ASCII letters) is not modelled.
- KeyValues.Node: a section is a map, so duplicate keys inside one section
  and the order in which children are written out are not modelled.
- LegacyVdf.Deserialize: a `HashMap` visits entries in an unspecified order.
  The loop picks any order, so it is proved for every order.
- Paths.PathBuf: Unix paths only; Windows prefixes and separators are not
  modelled. `to_str` never fails here, whereas on a non-UTF-8 path the
  source uses `""`.
- LocalConfig.ReadAfterWrite: stated for files whose app keys are in
  canonical decimal form. A key such as `"07"` parses to the same ID as the
  key `"7"` the writer creates, and then the later key in text order wins.
- AppTable.SortByName: `sort_by` is a stable merge sort; the model is a
  stable insertion sort. `AppTable.TableUnique` shows that any ordered
  listing is the same sequence, so the results agree.
- AppTable.UpdateApps: `update_apps` wraps the loaded map in `Some`; the model
  returns the map or the abort.
- AppWindow.EguiApp.Save: the abort of `backup_file` before the write is not
  modelled, and storing the new default in the settings is not modelled.
