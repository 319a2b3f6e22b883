# llmenv kernels, modelled and proved in Dafny

llmenv renders one shared configuration into the files of several coding agents. This project models the parts of it
where a wrong branch silently loses a user's setting, points a hook at the wrong file, or lets a merge drop a change,
and proves what those parts promise. Each model follows the code's branches and constants. Code that works by mutation
is a class or a method with loops, proved against a specification function. Code made of expressions is a function.

| module | what it covers |
|---|---|
| `ModelSettings`, `ModelSettingsRuns` | the `modelSettings` merge that llmenv and `/effort` share, and whole runs of the config folder |
| `ManifestVersion`, `ManifestTables`, `ManifestFlatten`, `ManifestRest`, `ManifestCheck`, `ManifestEntries`, `ManifestMisses` | the three-way check of a Cargo manifest, what it decides about one entry, and which changes it misses |
| `HookWords`, `HookCommand`, `HookSettles`, `HookFiles`, `HookScripts`, `HookResolve`, `HookInside`, `HookStable` | the rewriting of hook commands, that it stays inside the cache folder, and a second run over the result |
| `YamlQuote`, `Frontmatter` | YAML double-quoted scalars, with a decoder for sections 5.7 and 7.3.1 of YAML 1.2.2, and their use in skill frontmatter |
| `PyText`, `Reflow`, `ReflowByLine`, `ReflowAgain` | Markdown reflow, over Python's `strip`, `split` and `join` |
| `BundleSelect`, `BundleNarrow` | which bundles fire, their precedence, and `--scope` |
| `CodexPermissions`, `CodexHooks`, `CodexSeeding`, `JsonNulls` | the Codex renderers and the null strip |
| `PathResolve`, `PathLinks`, `PhaseTrace` | link-aware containment, and phase timing |
| `Basics`, `Sequences`, `JsonTree`, `TomlTree`, `TextOrder` | shared data types and sequence facts, Python equality of TOML values, string order |

`dafny verify dfyconfig.toml` checks everything.

## What turned out differently from the documentation

- `--scope` is documented to never turn a bundle on. It can. The full selection keeps the alphabetically first 64 tags
  and the narrowed one has no cap. `BundleNarrow.NarrowingCanTurnOn` is a case with 65 tags, and
  `BundleNarrow.NarrowingIsSafeExactly` proves that the promise holds if and only if all tags together are at most 64
  or no scope is active.
- The manifest check can pass while the source changed its manifest, in three ways, each with its exact condition:
  - It misses a value that moves to another path with the same dotted key, such as `[package.metadata] "docs.rs"` to
    `[package.metadata.docs] rs` (`ManifestMisses.DottedChangeIsMissed`). `ManifestMisses.TrustedExactly` proves that
    it is right about values for exactly those manifests whose values lie under paths of which no two share a dotted
    key.
  - It misses a value that becomes another one that Python calls equal, such as `[profile.release] debug = true` to
    `debug = 1` (`ManifestMisses.DebugLevelIsMissed`). `ManifestMisses.KeptExactly` proves that an unchanged rest keeps
    every value if and only if no boolean, integer or float changed its kind.
  - It misses tables without a value, such as an added `[workspace]`, which makes the crate a workspace root
    (`ManifestMisses.EmptyWorkspaceIsMissed`). `ManifestMisses.CleanCheckKeepsTreeExactly` proves that a clean check
    without collisions keeps the tree outside the dependency tables if and only if the tables without a value agree,
    and `ManifestMisses.TreesTrustedExactly` that it keeps the tree of exactly those manifests whose values do not
    collide and that have no such table. An empty dependency table counts as none
    (`ManifestMisses.OnlyEmptyDepTablesComeAndGo`).
- Resolving a resolved hook command is idempotent for a bundle folder without whitespace, and more:
  `HookSettles.ResolveSettlesExactly` gives the exact condition for any absolute folder, and the folder `/my docs`
  fails it (`HookSettles.FolderWithSpaceUnsettles`). The known-file pass is idempotent only under the condition of
  `HookStable.FilesStableExactly`, which `HookStable.NestedFileIsUnstable` and `HookStable.SpacedFolderIsUnstable`
  fail. `HookStable.CommandsStableExactly` gives the exact condition for both passes together.
- Reflow is not idempotent: a paragraph that opens with an indented fence becomes a fence line
  (`ReflowAgain.IndentedFenceReopens`). `ReflowAgain.SecondReflowAccepts` says exactly when a second reflow aborts, and
  `ReflowAgain.ReflowIdempotentExactly` exactly when it changes nothing.
- Requoting a frontmatter is not idempotent on texts with blank lines at the end (`Frontmatter.BlankEndIsLost`).
  `Frontmatter.RequoteIdempotentExactly` gives the exact condition.
- `is_within` takes `..` off a path before it resolves links, so a path can count as within the root while the system
  opens a place outside (`PathLinks.ParentAfterLinkEscapes`). `PathLinks.WithinIsRightExactly` proves that the test is
  right for every root and every path, existing or new, if and only if no link leaves its folder.
- `expand_inherited` is idempotent on every well-typed manifest, also when a workspace entry itself inherits.
- A comment in `src/bundle_select.rs` gives the ranks as 1 to 4. The code has five tiers, so they are 1 to 5.

## Model

| member | source | states |
|---|---|---|
| `ModelSettings.ManagedEntries` | src/adapter/model_settings.rs:101-121 | The entries llmenv manages are the default of each per-model-effort model, with every `model_effort` entry replacing its model's default as a whole |
| `ModelSettings.ManagedCells` | src/adapter/model_settings.rs:101-121 | Each (model, field) cell of those entries is the one that the config names for it |
| `ModelSettings.ManagedInWords` | src/adapter/model_settings.rs:17-23 | A cell is managed with a level if and only if the model's own `model_effort` entry sets it, or the model is `claude-opus-5-5` or `claude-haiku-5-5` without such an entry and `effortLevel` is set in general |
| `ModelSettings.CleanStale` | src/adapter/model_settings.rs:151-164 | The first pass removes exactly the fields that still hold the recorded value and are no longer managed |
| `ModelSettings.WriteManaged` | src/adapter/model_settings.rs:165-180 | The second pass lays every managed entry over what is there, and replaces an entry that is not an object |
| `ModelSettings.DropEmptied` | src/adapter/model_settings.rs:181-193 | The last pass drops exactly the empty entries that llmenv manages or once managed |
| `ModelSettings.MergeModelSettings` | src/adapter/model_settings.rs:130-197 | The in-place passes leave the document that the field-by-field specification gives. Unless nothing is managed and nothing recorded, the `modelSettings` key is there if and only if some model has an entry left, and is never empty |
| `ModelSettings.EntryLeftExactly` | src/adapter/model_settings.rs:151-193 | A model has an entry left if and only if one of its cells is left by the one-cell rule, or it holds an unmanaged value that is no object, or an empty object that llmenv never managed |
| `ModelSettings.MergedKey` | src/adapter/model_settings.rs:194-196 | The key goes with the last entry: it is absent or a non-empty object, present exactly when some model has an entry left |
| `ModelSettings.LastEntryTakesTheKey` | src/adapter/model_settings.rs:194-196 | Unmanaging the only recorded cell leaves a document without the key |
| `ModelSettings.MergeCell` | src/adapter/model_settings.rs:123-197 | For any document: a managed cell gets llmenv's value, a cell that holds a recorded unmanaged value goes, any other cell stays |
| `ModelSettings.MergeFrame` | src/adapter/model_settings.rs:130-197 | Other keys and entries of other models stay as they are, and no managed or recorded model is left with an empty entry |
| `ModelSettings.MergeIdempotent` | src/adapter/model_settings.rs:493-503 | Merging the same config again with its own record changes nothing, for any document, record and config |
| `ModelSettingsRuns.ConfigDir.RenderSettings` | src/adapter/model_settings.rs:40-95 | One render (prepare, apply, persist) is one step of the folder's state machine; an unreadable record stops it with nothing changed |
| `ModelSettingsRuns.StepCell` | src/adapter/model_settings.rs:34-95 | Every step on the whole folder is a step of a one-cell machine, cell by cell |
| `ModelSettingsRuns.RunCell` | src/adapter/model_settings.rs:130-251 | Over whole runs no cell is affected by what happens to another |
| `ModelSettingsRuns.RendersClosedForm` | src/adapter/model_settings.rs:130-197 | After renders M1..Mn without edits a cell is Mn's value, or absent if an earlier config managed it, or the original |
| `ModelSettingsRuns.KeyGoesWithTheLastConfig` | src/adapter/model_settings.rs:130-251 | A folder without the key ends without it after any renders without saves once the last config manages nothing, whatever the record says and also if it cannot be read |
| `ModelSettingsRuns.RecordOnlyOfManaged` | src/adapter/model_settings.rs:232-251 | A render that can read its record leaves one if and only if the config manages something |
| `ModelSettingsRuns.UnmanagedCellKeepsLastSave` | src/adapter/model_settings.rs:130-251 | In every interleaving a cell that no config manages holds what the user saved last |
| `ModelSettingsRuns.SavedValueFate` | src/adapter/model_settings.rs:130-251 | A saved value that nothing manages or overwrites is lost exactly when the record held that value and a render that can read the record follows before the record is removed or garbled; while the record is locked nothing is lost |
| `ModelSettingsRuns.RecordIsLastRender` | src/adapter/model_settings.rs:232-251 | In a healthy run the record claims exactly what the immediately preceding render wrote |
| `ModelSettingsRuns.SavedValueLostOnlyWhen` | src/adapter/model_settings.rs:130-251 | In a healthy run a save is lost only to a managing config, a later save, a deleted file, or a drop of the value that the preceding render wrote |
| `ModelSettingsRuns.RenderWithoutRecordRemovesNothing` | src/adapter/model_settings.rs:206-230 | With an absent or corrupt record a render removes no cell, and a render that cannot read the record changes none |
| `ModelSettingsRuns.RenderIdempotent` | src/adapter/model_settings.rs:493-503 | A second render of the same config leaves document and record as they were |
| `ManifestVersion.ParseOfShape` | scripts/forward_merge_manifest.py:126-132 | Every text of the version shape parses to its operator and three numbers |
| `ManifestVersion.ParsesExactlyTheShape` | scripts/forward_merge_manifest.py:24-24 | A text parses if and only if it has the shape of the regular expression |
| `ManifestVersion.VersionCoversIsOrder` | scripts/forward_merge_manifest.py:135-144 | Accepting one version for another is transitive, antisymmetric on parsed versions, and reflexive on texts that parse |
| `ManifestVersion.VersionCoversExactly` | scripts/forward_merge_manifest.py:135-144 | The target covers the source if and only if the operators agree and `major * 10^18 + minor * 10^9 + patch` of the source is at most the target's |
| `ManifestVersion.CoversOnlyVersions` | scripts/forward_merge_manifest.py:126-132 | Only an operator and three numbers cover or are covered |
| `ManifestVersion.NumbersByCharacter` | scripts/forward_merge_manifest.py:24 | A number is one to nine of the characters `0` to `9` |
| `ManifestVersion.NumberIsBelowABillion` | scripts/forward_merge_manifest.py:24 | Every accepted number is below 10^9 |
| `ManifestVersion.ValueOrderIsTextOrder` | scripts/forward_merge_manifest.py:126-132 | Numbers of equally many digits are ordered by the first digit that differs |
| `ManifestVersion.LeadingZero` | scripts/forward_merge_manifest.py:126-132 | A leading zero does not change a number |
| `ManifestVersion.NewerSourceIsNotCovered` | scripts/forward_merge_manifest.py:142-143 | Target `1.0.3` does not cover source `1.0.5`, and the other way round it does |
| `ManifestTables.DepTables` | scripts/forward_merge_manifest.py:27-39 | The result holds every dependency table under its dotted name, and nothing else |
| `ManifestTables.NamesAreDistinct` | scripts/forward_merge_manifest.py:27-39 | The naming of tables is one to one, also for a target cfg with dots |
| `ManifestEntries.TableNames` | scripts/forward_merge_manifest.py:27-39 | A dependency table is named by its dotted path |
| `ManifestTables.SetTableInverts` | scripts/forward_merge_manifest.py:74-80 | Writing under a name writes the table that the name came from, also for a target cfg with dots |
| `ManifestTables.PutTableAt` | scripts/forward_merge_manifest.py:74-80 | Writing one table changes that table and no other |
| `ManifestTables.InheritEntry` | scripts/forward_merge_manifest.py:60-68 | An inherited entry is the workspace entry, the local fields over it, and the sorted union of both feature lists |
| `ManifestEntries.InheritedField` | scripts/forward_merge_manifest.py:49-70 | With `workspace = true` each field comes from the entry itself if it is there, else from the workspace's entry |
| `ManifestEntries.InheritedFeatures` | scripts/forward_merge_manifest.py:60-68 | A feature is listed if and only if one of the two entries lists it |
| `ManifestEntries.OthersStay` | scripts/forward_merge_manifest.py:49-70 | An entry without `workspace = true` or without an entry in the workspace stays |
| `ManifestTables.ExpandInherited` | scripts/forward_merge_manifest.py:42-71 | The loop that writes table after table gives the expansion of all tables at once |
| `ManifestTables.ExpandedTables` | scripts/forward_merge_manifest.py:42-71 | Expansion keeps table names and dependency keys, and leaves the workspace table alone |
| `ManifestTables.ExpandedWellTyped` | scripts/forward_merge_manifest.py:42-71 | An expanded manifest is still well typed |
| `ManifestTables.ExpandIdempotent` | scripts/forward_merge_manifest.py:42-71 | Expanding twice is expanding once |
| `ManifestTables.HoistedEntryIsTheSame` | scripts/forward_merge_manifest.py:42-88 | A dependency hoisted into the workspace normalizes to its old entry if and only if its features are sorted and without repeats |
| `ManifestFlatten.Flatten` | scripts/forward_merge_manifest.py:116-123 | Each leaf's dotted key is present, and each key holds the value of a leaf with that key |
| `ManifestFlatten.JoinedInjective` | scripts/forward_merge_manifest.py:116-123 | On non-empty keys without dots the dotted form determines the path |
| `ManifestFlatten.FlatImagesAgreeExactly` | scripts/forward_merge_manifest.py:201-207 | If no two values share a dotted key, two flat images agree if and only if the trees hold the same values under the same paths |
| `ManifestFlatten.PlainKeysDoNotCollide` | scripts/forward_merge_manifest.py:116-123 | Non-empty keys without dots on the way to every value never collide |
| `ManifestFlatten.SameLeavesIsSameTree` | scripts/forward_merge_manifest.py:116-123 | The same values under the same paths means the same tree up to empty sub-tables |
| `ManifestFlatten.SameTreeExactly` | scripts/forward_merge_manifest.py:116-123 | Python calls two trees equal if and only if they hold equal values under the same paths and have the same empty tables |
| `ManifestFlatten.FlattenInjective` | scripts/forward_merge_manifest.py:116-123 | Without collisions and empty sub-tables, one flat image comes from one tree |
| `ManifestCheck.VersionProblem` | scripts/forward_merge_manifest.py:135-144 | No problem is reported if and only if both versions parse, the operators agree and the target's is at least as new, in the sense of `ManifestVersion.VersionCoversExactly` |
| `ManifestEntries.VersionComplaint` | scripts/forward_merge_manifest.py:135-144 | Two well-formed versions draw the operator complaint if their operators differ, else the complaint of a newer source if the source's rank is higher, else none |
| `ManifestEntries.BumpDecides` | scripts/forward_merge_manifest.py:135-184 | In any manifest, and in each of the three dependency kinds: a changed version passes if and only if the target has it or covers it |
| `ManifestEntries.BumpIsNotLost` | scripts/forward_merge_manifest.py:165-184 | Behind a clean check, a version that the source changed in any dependency table is on the target or covered there |
| `ManifestEntries.OneEntryDecides` | scripts/forward_merge_manifest.py:147-184 | Three manifests that differ in one entry are covered if and only if the entry is unchanged or stands in on the target |
| `ManifestEntries.PathVersionIsIgnored` | scripts/forward_merge_manifest.py:83-88 | A changed version of a path dependency passes for every target entry |
| `ManifestEntries.SpellingDoesNotMatter` | scripts/forward_merge_manifest.py:83-88 | A bare version rewritten as a table with only that version passes for every target entry |
| `ManifestEntries.CleanCheckKeepsKeys` | scripts/forward_merge_manifest.py:165-184 | Behind a clean check base and source have the same dependencies in each of the tables, named by literal path |
| `ManifestCheck.DepProblem` | scripts/forward_merge_manifest.py:147-162 | No problem is reported if and only if the target has the entry with equal other fields and an equal or covering version |
| `ManifestCheck.TableProblems` | scripts/forward_merge_manifest.py:165-183 | The problems come in dependency order, and there are none if and only if the table is covered |
| `ManifestCheck.StrippedLeaves` | scripts/forward_merge_manifest.py:91-113 | The stripped manifest shows exactly the values outside the dependency tables and package versions |
| `ManifestEntries.IgnoredExactly` | scripts/forward_merge_manifest.py:83-113 | The comparison of values leaves out the dependency tables, named by literal path, `package.version` and `workspace.package.version`, and nothing else |
| `ManifestCheck.RestProblems` | scripts/forward_merge_manifest.py:201-207 | Each reported key differs between the flat images, and there is none if and only if they agree |
| `ManifestCheck.DepsProblems` | scripts/forward_merge_manifest.py:190-200 | There is no problem if and only if every dependency table of base and source, expanded, is covered by the target |
| `ManifestRest.RestTreeExactly` | scripts/forward_merge_manifest.py:91-113 | Outside the dependency tables and own versions two manifests are the same tree if and only if they hold the same values and the same tables without a value |
| `ManifestRest.RestTreeKeptExactly` | scripts/forward_merge_manifest.py:91-113 | The same with equality instead of Python's |
| `ManifestCheck.Check` | scripts/forward_merge_manifest.py:186-208 | If no two values share a dotted key: no problems if and only if every dependency change stands on the target and no other value changed; and, with tables without a value agreeing, if and only if the rest is the same tree. In any case: both halves in terms of the flat images |
| `ManifestCheck.ExitStatus` | scripts/forward_merge_manifest.py:219-239 | Well-typed manifests can be checked, and exit 0 means what a clean check means, down to the tree of the rest |
| `ManifestCheck.StandsInTransitive` | scripts/forward_merge_manifest.py:147-162 | Standing in carries along a chain of branches |
| `ManifestCheck.UnchangedSourceIsClean` | scripts/forward_merge_manifest.py:186-208 | An unchanged source passes against every target |
| `ManifestCheck.SameTargetIsCovered` | scripts/forward_merge_manifest.py:165-183 | A target equal to the source passes if and only if the source added and removed no dependency |
| `ManifestMisses.CollidingMoveIsMissed` | scripts/forward_merge_manifest.py:116-123 | For every two paths with one dotted key, every value and every target: moving the value from one path to the other is missed |
| `ManifestMisses.TrustedExactly` | scripts/forward_merge_manifest.py:186-208 | On manifests with values under given paths the comparison of values is sound, and exact, if and only if no two of the paths share a dotted key |
| `ManifestMisses.TreesTrustedExactly` | scripts/forward_merge_manifest.py:186-208 | On manifests with values under given paths and bare tables under given paths, agreeing flat images mean the same tree if and only if no two value paths collide and there is no bare table |
| `ManifestMisses.CleanCheckKeepsTreeExactly` | scripts/forward_merge_manifest.py:201-207 | A clean comparison without collisions keeps the tree if and only if the tables without a value agree, and keeps it value for value if and only if no number changed its kind either |
| `ManifestMisses.BareTableChangeIsMissed` | scripts/forward_merge_manifest.py:97-123 | Every change of tables without a value, and of nothing else, is missed |
| `ManifestMisses.EmptyTableIsMissed` | scripts/forward_merge_manifest.py:116-123 | An empty table added at any path outside the ignored ones is missed, for every target |
| `ManifestMisses.EmptyWorkspaceIsMissed` | scripts/forward_merge_manifest.py:97-107 | A concrete added `[workspace]` that the check does not see |
| `ManifestMisses.OnlyEmptyDepTablesComeAndGo` | scripts/forward_merge_manifest.py:165-200 | Under a clean check a dependency table that only base or only source has is empty |
| `ManifestMisses.DottedChangeIsMissed` | scripts/forward_merge_manifest.py:116-123 | A concrete change of a dotted key that the check does not see, whatever the value and the target |
| `TomlTree.EqualIsSameOfOneKind` | scripts/forward_merge_manifest.py:201-207 | Two values are equal if and only if Python calls them equal and no boolean, integer or float in them faces another of these kinds |
| `ManifestMisses.KeptExactly` | scripts/forward_merge_manifest.py:201-207 | The rest keeps every value if and only if it is unchanged for Python and no number in it changed its kind |
| `ManifestMisses.CleanCheckKeepsExactly` | scripts/forward_merge_manifest.py:201-207 | A clean comparison without collisions keeps every value if and only if no number changed its kind |
| `ManifestMisses.SameEntryIsKeptExactly` | scripts/forward_merge_manifest.py:147-162 | Dependency entries that compare equal are equal if and only if the kinds of their numbers agree |
| `ManifestMisses.KindChangeIsMissed` | scripts/forward_merge_manifest.py:201-207 | Every change of a value to a different one that Python calls equal is missed, at every path and for every target |
| `ManifestMisses.DebugLevelIsMissed` | scripts/forward_merge_manifest.py:201-207 | A concrete change of `[profile.release] debug` from `true` to `1` that the check does not see |
| `HookWords.SplitWordLaws` | src/adapter/hook_command.rs:21-26 | The three pieces join back to the word, and the core keeps no outer quote or punctuation |
| `HookWords.SplitWordOf` | src/adapter/hook_command.rs:21-26 | Any bare core between marks is split into exactly those pieces |
| `HookWords.RewriteEach` | src/adapter/hook_command.rs:31-47 | The chunk loop gives the rewritten command if some word changed, and remembers the first refusal |
| `HookWords.RewriteWords` | src/adapter/hook_command.rs:31-47 | The same for a rewriter of cores, with the marks around each core put back |
| `HookWords.RewrittenIsWordwise` | src/adapter/hook_command.rs:31-47 | Rewriting maps the words and keeps every whitespace character in place |
| `HookWords.InterleaveRestores` | src/adapter/hook_command.rs:31-47 | A command is its words and whitespace interleaved, so a map that changes no word changes nothing |
| `HookWords.RewrittenWords` | src/adapter/hook_command.rs:31-47 | With replacements free of whitespace, the words of the result are the rewritten words |
| `HookWords.TouchedIsSomeWord` | src/adapter/hook_command.rs:31-47 | A change is reported if and only if some word changes |
| `HookCommand.ResolveBundleRelativePaths` | src/adapter/hook_command.rs:57-65 | The pass joins each word that is a bundle-relative path to the folder and keeps the others (which words those are: `HookInside.RelativeExactly`) |
| `HookInside.UnsafeExactly` | crates/llmenv-paths/src/names.rs:16-31 | A path is unsafe to join if and only if it starts with a slash or one of the pieces between its slashes is `..` |
| `HookInside.PiecesRejoin` | crates/llmenv-paths/src/names.rs:16-22 | The pieces of a path hold no slash and give the path back with slashes between them |
| `HookInside.RelativeExactly` | src/adapter/hook_command.rs:57-65 | A word is bundle-relative if and only if it has a slash, does not start with `/`, `~`, `$` or `-`, has only the listed path characters and no `..` piece |
| `HookInside.SafeStaysInside` | src/adapter/hook_command.rs:57-65 | A safe path joined to an absolute folder has the folder's components followed by a step into each of its own pieces |
| `HookInside.InsideGoesDown` | src/adapter/hook_command.rs:57-65 | Such a path has only names after the folder's components, never a `..` |
| `HookInside.RelativeWordStaysInside` | src/adapter/hook_command.rs:57-65 | The relative pass rewrites exactly the words with such a core, each to that path inside the folder between the word's own marks |
| `HookInside.ClimbingWordStays` | src/adapter/hook_command.rs:57-65 | A word with a `..` piece is left alone |
| `HookInside.MarksExactly` | src/adapter/hook_command.rs:21-26 | The marks before a word are of `"`, `'` and `(`, those after it of `"`, `'`, `;`, `&`, `)` and the vertical bar, and the core has none at its ends |
| `HookSettles.ResolveSettlesExactly` | src/adapter/hook_command.rs:57-65 | For an absolute folder, re-resolving any resolved command changes nothing if and only if no word of the folder's own path is bundle-relative |
| `HookSettles.SpaceFreeFolderSettles` | src/adapter/hook_command.rs:57-65 | A folder without whitespace meets that condition |
| `HookSettles.FolderWithSpaceUnsettles` | src/adapter/hook_command.rs:57-65 | The folder `/my docs` does not, and a concrete command is resolved twice |
| `HookFiles.SortCandidates` | src/adapter/hook_command.rs:86-90 | The candidates are the known files, longest first, ties in any order |
| `HookFiles.FirstMatchIsLongest` | src/adapter/hook_command.rs:98-100 | The first match in any such order is the longest match |
| `HookFiles.LongestIsUnique` | src/adapter/hook_command.rs:118-121 | A word has at most one longest match |
| `HookFiles.ResolveAgainstFiles` | src/adapter/hook_command.rs:80-115 | Each word with a match becomes the cache folder joined with its longest match, or the pass is refused |
| `HookFiles.RefusalIsUnsafeMatch` | src/adapter/hook_command.rs:92-114 | The pass fails if and only if the longest known file that ends some word is unsafe to join (in pieces: `HookInside.RefusedExactly`) |
| `HookInside.SuffixMatchesExactly` | src/adapter/hook_command.rs:118-121 | A known file ends a word if and only if its pieces are the last pieces of the word |
| `HookInside.LongestByPieces` | src/adapter/hook_command.rs:80-100 | The longest match in characters is the one with the most pieces |
| `HookInside.FileWordStaysInside` | src/adapter/hook_command.rs:95-106 | The file pass rewrites exactly the words that end with a known file inside the bundle, each to that file inside the cache folder |
| `HookInside.RefusedExactly` | src/adapter/hook_command.rs:95-115 | A command is refused if and only if the known file that ends one of its words with the most pieces starts with a slash or has a `..` piece |
| `HookScripts.StripsExactlyTheRoot` | src/adapter/hook_command.rs:187-204 | What is stripped from a word is exactly one of the roots `/`, `~/`, `$VAR/` and `${VAR}/` |
| `HookResolve.ResolveHookCommand` | src/adapter/hook_command.rs:127-185 | The command goes through both passes in order, and the warned set grows by the script paths of the result that lie outside the cache folder by the containment test |
| `HookInside.ResolvedStaysInside` | src/adapter/hook_command.rs:127-162 | For every command that is not refused: each pass keeps the whitespace, and each word it writes is a path inside the cache folder between the word's own marks |
| `HookInside.ResolvedWordsStayInside` | src/adapter/hook_command.rs:127-162 | With a cache folder without whitespace every word of the resolved command is the command's own or such a path |
| `HookInside.WarningsAreDistinct` | src/adapter/hook_command.rs:148-150 | Bundles whose names hold no NUL never share a warning, and each path has its own |
| `HookInside.ScriptPathExactly` | src/adapter/hook_command.rs:176-209 | A word is a script path if and only if it is one of the roots and non-empty pieces of path characters, and under `/` the first piece is none of the twelve system folders |
| `HookScripts.RootOfComponents` | src/adapter/hook_command.rs:165-174 | Only a path that starts with a slash has a root component, and only in front |
| `HookInside.ComponentsByStep` | src/adapter/hook_command.rs:165-174 | A further piece of an absolute path adds its name, `..` adds a parent step, `.` and a trailing slash add nothing |
| `HookResolve.ResolvedWordByWord` | src/adapter/hook_command.rs:127-147 | With a cache folder without whitespace the composition acts word by word and keeps the whitespace |
| `HookStable.FilesStableExactly` | src/adapter/hook_command.rs:80-121 | For every absolute cache folder: a second file pass leaves every resolved command alone if and only if, without whitespace in the folder, no known file joined to it ends with a longer one, and, with whitespace, no known file can be joined |
| `HookStable.NestedFileIsUnstable` | src/adapter/hook_command.rs:80-121 | Concrete known files for which it does not |
| `HookStable.SpacedFolderIsUnstable` | src/adapter/hook_command.rs:80-121 | A concrete folder with whitespace for which it does not |
| `HookStable.CommandsStableExactly` | src/adapter/hook_command.rs:127-147 | For every absolute cache folder: resolving a resolved command again, through both passes, changes nothing if and only if the file pass is stable and the folder has no whitespace, no relative word, or a refused word before its last one |
| `YamlQuote.QuoteYamlScalar` | src/adapter/skills.rs:79-108 | The loop's output is the quoted text and decodes to the input |
| `YamlQuote.QuoteRoundTrip` | src/adapter/skills.rs:79-108 | Decoding the quoted form of any text gives the text back |
| `YamlQuote.BodyIsStrict` | src/adapter/skills.rs:79-108 | Between the quotes stand only plain characters, known letter escapes, and hex escapes of exactly 4 or 8 digits |
| `YamlQuote.QuotedIsPrintable` | src/adapter/skills.rs:79-108 | No control character and no noncharacter is left in a quoted text, by code point |
| `YamlQuote.PlainTextStays` | src/adapter/skills.rs:79-108 | A text of printable characters without quote and backslash is only put between quotes |
| `YamlQuote.StrictBodyIsOneLine` | src/adapter/skills.rs:79-108 | Such a body has no raw line break |
| `YamlQuote.NoncharactersByPlane` | src/adapter/skills.rs:110-117 | The bit mask picks exactly U+FDD0..U+FDEF and the last two code points of each plane |
| `Frontmatter.RequoteKeyLaws` | src/adapter/skills.rs:119-137 | A requoted line keeps its key, its value decodes to the old text, and requoting again changes nothing |
| `Frontmatter.RequoteLineLaws` | src/adapter/skills.rs:119-137 | Only `name` and `description` lines change, and a second pass changes nothing |
| `Frontmatter.BareValueIsQuoted` | src/adapter/skills.rs:119-137 | A `name` or `description` whose value is not empty and does not start with a quote, `>` or a vertical bar gets that value quoted |
| `Frontmatter.OtherLinesStay` | src/adapter/skills.rs:119-137 | Every other line stays |
| `Frontmatter.RequotedLineByLine` | src/adapter/skills.rs:119-137 | The lines of the result are the requoted lines of the text if and only if the last is not empty and no other ends with a carriage return |
| `Frontmatter.RequoteIdempotentExactly` | src/adapter/skills.rs:119-137 | Requoting the whole frontmatter again changes nothing if and only if its lines read back or it has at most one line |
| `Frontmatter.BlankEndIsLost` | src/adapter/skills.rs:119-137 | Texts with a blank line at the end, from which each of two passes takes a line break |
| `Reflow.TakeParagraph` | scripts/reflow-markdown.py:54-75 | The inner loop collects exactly the lines up to the first one that ends a paragraph |
| `Reflow.ReflowLines` | scripts/reflow-markdown.py:22-79 | The nested loops compute the recursive reflow and the state of the code fence |
| `Reflow.ReflowMarkdown` | scripts/reflow-markdown.py:16-85 | A text with an unclosed fence is refused, and any other gives its reflowed lines, which are those of `ReflowByLine.ByLineAgrees` |
| `ReflowByLine.ByLineAgrees` | scripts/reflow-markdown.py:22-79 | The two nested loops give the lines of a machine that reads one line at a time and tells lines apart by their characters only |
| `ReflowByLine.ReflowOfLines` | scripts/reflow-markdown.py:16-85 | For every list of lines and any line breaks after them, the text reflows to the machine's lines, or is refused when a fence stays open |
| `ReflowByLine.KindsAgree` | scripts/reflow-markdown.py:25-72 | Fences, blank lines, headings, table rows, quotes, items and indented lines are those with the named characters in the named columns |
| `ReflowByLine.StandingLinesStay` | scripts/reflow-markdown.py:25-51 | Fences, fenced lines and, outside them, blank lines and lines whose first visible character is `#`, `>` or a vertical bar are all in the result, verbatim and in order |
| `ReflowByLine.ResultLines` | scripts/reflow-markdown.py:22-79 | The result has exactly these lines in this order: the standing lines, an indented line after no paragraph verbatim, and one line for each item and each paragraph start, beginning with it |
| `ReflowByLine.ProseLinesJoin` | scripts/reflow-markdown.py:53-79 | Two prose lines in a row land on one line of the result with a space between |
| `ReflowByLine.StripIs` | scripts/reflow-markdown.py:78 | Stripping takes whitespace off both ends, all of it and nothing else |
| `ReflowByLine.TableRowsStay` | scripts/reflow-markdown.py:44-51 | Two rows of a table stay two lines |
| `Reflow.ReflowKeepsTokens` | scripts/reflow-markdown.py:16-85 | The sequence of whitespace-separated tokens of every accepted text is kept |
| `Reflow.FencedLinesStay` | scripts/reflow-markdown.py:22-36 | Every fenced line is in the result, verbatim and in order |
| `ReflowAgain.ReflowIdempotentExactly` | scripts/reflow-markdown.py:16-85 | Reflowing again changes nothing if and only if an even number of paragraphs open with an indented fence, and every fenced block after an odd number of them is already reflowed prose |
| `ReflowAgain.ReflowIdempotent` | scripts/reflow-markdown.py:16-85 | Without such paragraphs that is always so, and the fenced lines are exactly those of the text |
| `ReflowAgain.PlainFencesSuffice` | scripts/reflow-markdown.py:25-30 | There is no such paragraph when no fence at all has whitespace before it |
| `ReflowAgain.SecondReflowAccepts` | scripts/reflow-markdown.py:81-83 | A reflowed text is accepted again if and only if an even number of its paragraphs opened with an indented fence |
| `ReflowAgain.IndentedFenceReopens` | scripts/reflow-markdown.py:25-30 | A concrete text whose reflow cannot be reflowed |
| `BundleSelect.PushRef` | src/bundle_select.rs:43-75 | One attempt places its bundle unless the name is placed already, unsafe or without content |
| `BundleSelect.BuildBundleRefs` | src/bundle_select.rs:32-103 | The nested tier loops place the list of all attempts, tier after tier |
| `BundleSelect.PlacementIsHighestTier` | src/bundle_select.rs:13-103 | Each safe firing name with content is placed exactly once, with the highest tier any bundle of that name matches; precedence never rises (which kind is which tier: `BundleSelect.PrecedenceByKind`) |
| `BundleSelect.PrecedenceByKind` | src/bundle_select.rs:37-102 | A placed bundle has precedence 5 if an active `network` scope carries one of its tags, else 4 for `host`, 3 for `user`, 2 for `content`, 1 for `project`, and 0 otherwise |
| `BundleSelect.StrongerComesFirst` | src/bundle_select.rs:37-103 | A bundle with a stronger match comes before one with a weaker match |
| `BundleSelect.NetworkBeforeProject` | src/bundle_select.rs:37-102 | A bundle matched by a network scope comes before one matched only by project scopes |
| `BundleSelect.TiesInDeclarationOrder` | src/bundle_select.rs:76-103 | Bundles of one precedence stand in the order of their declaration |
| `BundleSelect.PlacedFolder` | src/bundle_select.rs:39-75 | The folder of a placed bundle is `bundles/` and its name under the config folder, with one slash between |
| `BundleNarrow.Firing` | src/bundle_select.rs:107-168 | Exactly the bundles that are not disabled, pass the tag filter and are selected by tag or marker fire |
| `BundleNarrow.FiresInWords` | src/bundle_select.rs:107-168 | A bundle fires if and only if no scope disables it, it has the tag asked for, and a scope enables it or one of its tags is given by a scope, the OS or the environment and has fewer than 64 such tags before it |
| `BundleNarrow.FiringInOrder` | src/bundle_select.rs:107-168 | Firing bundles keep their places and the others leave no trace |
| `BundleNarrow.CapTags` | crates/llmenv-scope/src/tags.rs:83-93 | At most 64 tags are kept, all of them if they fit, and no dropped tag sorts before a kept one |
| `BundleNarrow.KeptExactly` | crates/llmenv-scope/src/tags.rs:83-93 | A tag is kept if and only if fewer than 64 others sort before it |
| `TextOrder.FirstDifferenceDecides` | crates/llmenv-scope/src/tags.rs:83-93 | Where two tags first differ the smaller character decides which comes first |
| `TextOrder.PrefixComesFirst` | crates/llmenv-scope/src/tags.rs:83-93 | A tag comes before its continuations |
| `BundleNarrow.Evaluate` | crates/llmenv-scope/src/lib.rs:300-311 | The active tags are the capped union of scope tags, OS tag and extra tags |
| `BundleNarrow.SelectFiring` | src/cli/export_print.rs:56-106 | With a scope id the bundles fire for the narrowed scopes, without one for the active scopes |
| `BundleNarrow.NarrowedFiresExactly` | src/cli/export_print.rs:51-106 | With `--scope` a bundle fires if and only if a scope of that id selects it, it passes the filter, and no active scope disables it; an unknown id fires nothing |
| `BundleNarrow.NarrowedDisables` | src/cli/export_print.rs:67-80 | The narrowed scopes disable exactly what all active scopes disable |
| `BundleNarrow.NarrowingTurnsNothingOn` | src/cli/export_print.rs:51-106 | If the active tags are complete, the narrowed bundles are a subsequence of the full ones |
| `BundleNarrow.NarrowingRaisesNothing` | src/bundle_select.rs:32-103 | If the active tags are complete, each narrowed ref has a full ref of the same name and folder with at least its precedence |
| `BundleNarrow.NarrowingIsSafeExactly` | src/cli/export_print.rs:91-103 | For every evaluated environment, narrowing never turns a bundle on if and only if all tags together are within the cap or no scope is active |
| `BundleNarrow.NarrowingCanTurnOn` | src/cli/export_print.rs:91-103 | A concrete environment with 65 tags where `--scope` turns a bundle on |
| `CodexPermissions.ClassifyPermissionProfile` | src/adapter/codex.rs:519-570 | The loops give the decision: empty, refused with both counts, or each path with the strongest access that any rule gives it |
| `CodexPermissions.RefusedExactly` | src/adapter/codex.rs:519-570 | Refused if and only if some rule asks, or is patterned, pathless or on an unmapped tool; the counts add up to all rules |
| `CodexPermissions.DenyWins` | src/adapter/codex.rs:502-570 | A rendered profile is not empty, and a denied path is denied |
| `CodexPermissions.ProfileInWords` | src/adapter/codex.rs:484-570 | A path is denied if a deny rule names it, else writable if an allow rule on `Edit`, `Write` or `MultiEdit` does, else readable if one on `Read` does, else not listed |
| `CodexPermissions.SpellingsExactly` | src/adapter/codex.rs:484-490 | A plain path is named by its four spellings with or without a leading `./` and a trailing `/`, and by no other text |
| `CodexPermissions.RefusedInWords` | src/adapter/codex.rs:492-570 | Refused if and only if some rule asks, has no path, has a pattern, or is on a tool other than `Read`, `Edit`, `Write` and `MultiEdit` |
| `CodexPermissions.OrderDoesNotMatter` | src/adapter/codex.rs:519-570 | The same rules in the same tiers give the same decision in any order |
| `CodexHooks.EmitBaselineHooks` | src/adapter/codex.rs:644-752 | llmenv's own registrations come after what is in the table, in the order of the code |
| `CodexHooks.RenderHooks` | src/adapter/codex.rs:587-635 | Each event's groups are its runnable declared hooks in order, then llmenv's own |
| `CodexHooks.DeclaredOne` | src/adapter/codex.rs:591-627 | A declared hook registers once with its own event, matcher and resolved command if it has a command, is no MCP tool and its event is one of the eleven that Codex has, else not at all |
| `CodexHooks.DeclaredConcat` | src/adapter/codex.rs:591-627 | Declared hooks register in their order |
| `CodexHooks.OwnInWords` | src/adapter/codex.rs:644-752 | Exactly which registrations llmenv makes for itself, by literal event, matcher and command and the settings that switch each on |
| `CodexHooks.DeclaredHits` | src/adapter/codex.rs:591-627 | Hooks that do not declare a command of llmenv's never run it, also after their paths are resolved |
| `CodexHooks.PreToolUseReach` | src/adapter/codex.rs:668-688 | A `Read` call reaches `hook-run pre_tool_use` exactly once, any other tool once or never as session logging is on or off |
| `CodexHooks.RenderedReach` | src/adapter/mod.rs:128-163 | The same, counted in the rendered table |
| `CodexHooks.LifecycleAgrees` | src/adapter/mod.rs:50-84 | `stop` and `turn_start` are registered once when the shared lifecycle table says so, and otherwise not at all |
| `CodexHooks.RenderedLifecycle` | src/adapter/codex.rs:708-751 | In the rendered table `stop` stands once under `Stop` and `turn_start` once under `UserPromptSubmit` when the shared table says so, and neither under any other event |
| `CodexSeeding.ApplySeededSettings` | src/adapter/codex.rs:904-929 | The loop inserts the seedable keys that the document lacks and strips nulls if it added one |
| `CodexSeeding.SeedingOnlyAdds` | src/adapter/codex.rs:904-929 | Seeding a document without null keys keeps every binding and adds only seedable, non-null keys |
| `CodexSeeding.SeededKeys` | src/adapter/codex.rs:904-929 | A key that the document lacks is seeded if and only if its seed is not null and it is none of the five security keys and six modeled keys |
| `CodexSeeding.SeedingIdempotent` | src/adapter/codex.rs:904-929 | Seeding twice is seeding once |
| `JsonNulls.StripNulls` | src/adapter/json_nulls.rs:55-77 | The recursive strip drops null-valued keys at each level up to the limit |
| `JsonNulls.LimitedIsFull` | src/adapter/json_nulls.rs:15-77 | The limited strip equals the unlimited one if and only if nothing below the limit has a null key |
| `JsonNulls.ShallowIsClean` | src/adapter/json_nulls.rs:15-77 | A tree within the limit meets that condition |
| `JsonNulls.StripIdempotent` | src/adapter/json_nulls.rs:55-77 | Stripping is idempotent at any depth |
| `JsonNulls.StripAt` | src/adapter/json_nulls.rs:55-77 | A path is gone if it runs through a null key within the limit, and otherwise shows what was there; deeper subtrees are untouched |
| `JsonNulls.NullGoesExactly` | src/adapter/json_nulls.rs:55-77 | A null-valued key goes if and only if it stands at most 65 levels down |
| `PathResolve.NormalizePath` | src/util.rs:56-69 | The result has no `.` or `..` component and a root only in front |
| `PathResolve.ResolveExisting` | src/util.rs:102-119 | The result is the canonical longest existing prefix and then the missing names in order, or the normalized path if nothing exists |
| `PathResolve.IsWithin` | src/util.rs:95-98 | The answer compares the components of the two resolved paths |
| `PathResolve.NewFileIsWithinExactly` | src/util.rs:89-119 | A path with missing names is within an existing root if and only if the real place of its existing part is |
| `PathResolve.ResolvedIsFixed` | src/util.rs:102-119 | Resolving a resolved path changes nothing |
| `PathLinks.PathAgrees` | src/util.rs:56-69 | A path without `..` after a link that leaves its folder is opened where its normalized form says |
| `PathLinks.LexicalIsRightExactly` | src/util.rs:56-119 | Taking `..` off first leads every path to the place that the system opens if and only if no link leaves its folder |
| `PathLinks.ResolvedIsReached` | src/util.rs:100-119 | A path without `..` after such a link, existing or with new names at its end, resolves to the place that the system opens followed by the new names |
| `PathLinks.WithinIsTrueToTheSystem` | src/util.rs:89-98 | For such a path the containment test answers for the place that the system reaches |
| `PathLinks.WithinIsRightExactly` | src/util.rs:89-119 | The containment test is right for every root and every path, existing or new, if and only if no link leaves its folder |
| `PathLinks.TreeIsFileSystem` | src/util.rs:100-119 | Every tree of places with links meets the assumptions about `canonicalize` |
| `PathLinks.ParentAfterLinkEscapes` | src/util.rs:89-98 | A concrete tree and path that counts as within the root while the system opens a place outside |
| `PhaseTrace.PhaseFields` | src/export_trace.rs:20-37 | The fields name exactly the phases that ran, each measured from the latest earlier end |
| `PhaseTrace.LengthExactly` | src/export_trace.rs:20-37 | A phase lasts its whole microseconds, at most 2^64 - 1, and 0 if it ends before it starts |
| `PhaseTrace.PhasesAddUp` | src/export_trace.rs:20-37 | For k ordered, distinct phases the microseconds total at most the span and at most k - 1 less, and exactly the span when each phase is whole microseconds |

## Left out

- The `native` overlay of `modelSettings` (`merge_json`) is taken as absent, and the reconciled document as the document on disk for this key.
- `/effort` is modelled as setting one field of one model; other writers of `settings.json` are not modelled. A record that is locked while it is absent stands for a folder that cannot be searched.
- TOML and JSON parsing, file reading and writing, argument parsing, logging and warning texts. Problems are constructors, not sentences.
- ExitStatus: promises nothing about ill-typed manifests; the script fails on some of them when it reaches the wrong value and lets others through.
- Check: for values that share a dotted key it states one implication each way, because the flat image then depends on key order, which the model leaves open.
- Floats are real numbers, so NaN, the infinities and the negative zero are not modelled in TOML values.
- NewFileIsWithinExactly: rests on stated assumptions about `canonicalize` (canonical answers, lookup in the real folder, no entry below a missing path), which `PathLinks.TreeIsFileSystem` shows to hold of every tree with links.
- Opened, in `PathLinks`: lets `..` follow any existing place, where a system refuses it after a plain file.
- File names that are not valid Unicode, Windows path prefixes and Windows separators.
- PreToolUseReach: takes regular-expression matching as a parameter, of which it needs only that `^Read$` matches `Read` alone.
- The YAML decoder covers one-line double-quoted scalars, which is all that the printer writes.
- StripNulls: works on values and returns a new tree, so update in place and aliasing are not captured.
- Scope matching, the project marker file and the per-source cleanup of tags: the matched scopes are an input.
- BuildBundleRefs: takes the existence of a content folder as a parameter.
- opencode permissions, the credential cache, the task and session store, and the rest of the `materialize` functions.
- Skill discovery, permission modes, tool tables, MCP tiers, engine registry and native keys, which would only add easy members.
- ProfileInWords: leaves out the paths that normalization can give only in part (the empty path, `.`, and a path that still starts with `./` or ends with `/`); `CodexPermissions.ClassifyPermissionProfile` covers every path.
