# CommiTail core, modelled in Dafny

CommiTail is a VS Code extension that appends a configured suffix (such as
`[skip ci]`) to the commit message in the source-control input box. This
project models its core and proves properties of the model:

- **The config validator**, in both versions.
  - The current `validateConfig` (src/utils/config.ts) accepts string options
    and `[label, description]` pairs.
  - The older one (src/extension.ts) accepts strings only.
  - Each is modelled twice: as a function, and as a loop method with early
    returns that is proved equal to the function.
- **`loadConfig` and `getWorkspaceConfigPath`**, over an abstract file store.
- **`createDefaultConfig`**, with its best-effort `.gitignore` update. The
  update works as follows:
  - split the file with `split(/\r?\n/)`;
  - test each line with `trim`;
  - if no line lists the entry, append it, with a newline first only when
    needed.
  The older `createDefaultConfig` has no `.gitignore` step.
- **The `commitail.commitWithAppend` command**, with:
  - the early exits;
  - the automatic or pick-list choice of the suffix;
  - the pick items;
  - the "already ends with the suffix" skip;
  - the final write of the input box.
  The older handler in `activate` trims the message and hands
  `message + " " + suffix` to `execGitCommit` without the skip.

The modules are:

| module | file | contents |
|---|---|---|
| `Wrappers` | wrappers.dfy | `Option` |
| `Json` | json.dfy | JSON values, JavaScript truthiness, property lookup |
| `JsString` | js_string.dfy | `trim`, `endsWith` |
| `Paths` | paths.dfy | `path.join` and `path.dirname` |
| `FileSystem` | file_system.dfy | `FileStore`, a class holding the files and which of them fail on read or write |
| `Types` | types.dfy | error kinds, `ValidationResult`, the input box and the repository |
| `ConfigValidation` | config_validation.dfy | the validator procedure both versions share |
| `IgnoreFile` | ignore_file.dfy | the `.gitignore` presence test and new content |
| `ConfigStore` | config_store.dfy | config path, `loadConfig`, `createDefaultConfig` |
| `CommitWithAppend` | commit_with_append.dfy | the command in src/commands/commitWithAppend.ts |
| `Extension` | extension.dfy | the older validator, loader, creator and handler in src/extension.ts |

The host is modelled as follows:
- JSON values are the `Json` datatype.
  - A number that is not an integer is the single value `JNonInt`; that is
    all `Number.isInteger` needs.
  - `JSON.parse` is a parameter `parse: string -> Option<Json>`, where `None`
    is a throw. `JSON.stringify` of the default config is its fixed text.
- Error messages are localized strings in the source. Here they are an
  `ErrorKind`; the range error carries the largest allowed index.
- The pick dialog is a parameter `choose` that returns the index of the
  picked item, or `None` when the user dismisses the dialog. The overwrite
  question is a boolean parameter.
- The Git extension's API is `Option<seq<Repository>>`. `None` stands for a
  missing extension.

In two places the code does something other than the natural reading of
what it is for, and the model follows the code:
- The validator's first check is JavaScript truthiness (`!config`), which is
  weaker than a check for a non-null object. So a bare number or string passes
  it and fails on `appendOptions` instead.
- The suffix taken from a pick is `label || description`, not the label
  alone.

The one place where the command model departs from the code is the finding
below. When the picked item has an empty label and no description, the code
writes the text `undefined`. The command model uses the corrected choice,
which gives the empty suffix and so skips. `SelectSuffixAsWritten` models the
code as written, and `SelectSuffixCorrectionIsNarrow` proves that the two
choices differ on that pick alone.

## Model

| member | source | states |
|---|---|---|
| Json.Get | src/utils/config.ts:79 | Definition: `v.key` is the field of an object that holds the key, and undefined (None) otherwise. It has no contract; `ValidateConfigAcceptsExactly` states its use |
| Json.Truthy | src/utils/config.ts:71 | `!config`: the falsy values are exactly `null`, `false`, `0` and `""`; every array and object is truthy, empty ones included |
| JsString.TrimStart | src/utils/config.ts:218 | The result is a suffix of the input, only whitespace was removed, and it does not start with whitespace |
| JsString.TrimEnd | src/utils/config.ts:218 | The result is a prefix of the input, only whitespace was removed, and it does not end with whitespace |
| JsString.Trim | src/utils/config.ts:218 | `trim` yields a string no longer than the input, with no whitespace at its ends |
| JsString.TrimIsInfix | src/utils/config.ts:218 | What `trim` yields is an infix of the input with only whitespace on either side |
| JsString.TrimOfTrimmed | src/utils/config.ts:218 | A string without whitespace at its ends is its own trim |
| JsString.TrimIdempotent | src/utils/config.ts:218 | Trimming twice is trimming once |
| JsString.TrimAppendWhitespace | src/utils/config.ts:215-218 | A trailing whitespace character (the `\r` of a `\r\n`) never changes the trimmed line |
| JsString.EndsWith | src/commands/commitWithAppend.ts:136 | `endsWith`: every string ends with `""`, and a string that ends with the suffix is some prefix followed by it. src/utils/config.ts:222 uses it for the newline test |
| Paths.LastIndexOf | src/utils/config.ts:207 | The position found holds the character and no later one does; `None` exactly when the character does not occur |
| Paths.JoinPath | src/utils/config.ts:13 | Definition: `path.join(dir, name)` is `dir`, one `/`, then `name`. It has no contract; `DirNameOfJoin` and `IgnorePathOfWorkspace` state its properties |
| Paths.DirName | src/utils/config.ts:207 | `path.dirname`: `.` for a path without `/`; otherwise the prefix before the last `/`, with no `/` after it |
| Paths.DirNameOfJoin | src/utils/config.ts:207-208 | `dirname(join(dir, name))` is `dir` for a name without `/` |
| FileSystem.FileStore.Exists | src/utils/config.ts:23 | Definition: `existsSync` holds for the paths that have a file in the store. It has no contract; `LoadExactly` states its use |
| FileSystem.FileStore.Read | src/utils/config.ts:28-29 | Definition: `readFileSync` gives the content of an existing, readable file, and throws (None) otherwise. It has no contract; `LoadExactly` states its use |
| FileSystem.FileStore.WriteFile | src/utils/config.ts:199-203 | `writeFileSync` succeeds unless the path is unwritable, then holds exactly the new text, and changes no other file |
| FileSystem.FileStore.AppendFile | src/utils/config.ts:225 | `appendFileSync` extends the file (or creates it), or throws and changes nothing |
| ConfigValidation.AllOptionsExactly | src/utils/config.ts:100-119 | The element loop's verdict holds exactly when every option passes the element test |
| ConfigValidation.IsOptionShape | src/utils/config.ts:100-119 | Definition of one acceptable element: a string, or an array of at least two entries whose first two are strings. It has no contract; `ValidateConfigAcceptsExactly` states it of every option |
| ConfigValidation.CheckManualAndIndex | src/utils/config.ts:121-157 | The last two checks pass exactly when `manual` is boolean or absent and `defaultIndex` is absent or an integer index below the option count. A bad `manual` is reported before any index error, and passing returns the config |
| ConfigValidation.Validate | src/utils/config.ts:69-162 | The message is empty exactly when the result is valid; the config is returned exactly when valid; a valid result has a non-empty option list whose every element passes |
| ConfigValidation.ValidateConfig | src/utils/config.ts:69-162 | A valid result has an empty message, returns the input, and its options are all strings or string pairs; an invalid one has a message and no config |
| ConfigValidation.ValidateAcceptsExactly | src/utils/config.ts:69-162 | The procedure accepts exactly the documents that are truthy, have a non-empty `appendOptions` array of passing elements, a boolean or absent `manual`, and an absent or in-range integer `defaultIndex` |
| ConfigValidation.ValidateConfigAcceptsExactly | src/utils/config.ts:69-162 | The same characterisation for the pair-aware validator; pairs longer than two are accepted |
| ConfigValidation.ValidateReportsFirstFailure | src/utils/config.ts:71-157 | Valid exactly when every check passes; otherwise the message is that of the first failing check, in the source's order |
| ConfigValidation.ValidateConfigReportsFirstFailure | src/utils/config.ts:71-157 | The same ordering statement for the pair-aware validator |
| ConfigValidation.ValidateConfigStepwise | src/utils/config.ts:69-162 | The loop with early returns computes exactly `ValidateConfig` |
| IgnoreFile.Pieces | src/utils/config.ts:215 | Splitting at newlines always yields at least one piece |
| IgnoreFile.PiecesJoin | src/utils/config.ts:215 | No piece contains a newline, and joining the pieces with newlines gives the content back |
| IgnoreFile.PiecesSnoc | src/utils/config.ts:215 | One more character: a newline adds an empty piece, any other character extends the last piece |
| IgnoreFile.PiecesAppendPlain | src/utils/config.ts:215 | Appending text without a newline extends only the last piece |
| IgnoreFile.PiecesAppendNewline | src/utils/config.ts:215 | Appending a newline adds an empty last piece |
| IgnoreFile.SplitLines | src/utils/config.ts:214-215 | Definition of `split(/\r?\n/)`: one line per piece, with each line but the last losing the `\r` of its separator. It has no contract; `HasEntryByPieces` and `UpdateAddsExactlyOneEntry` state its properties |
| IgnoreFile.IsEntryLine | src/utils/config.ts:217-218 | Definition: the trimmed line is `commitail.config.json` or `/commitail.config.json`. It has no contract; `EntryLineIgnoresCarriageReturn` and `ShortLineIsNotEntry` state its properties |
| IgnoreFile.HasEntry | src/utils/config.ts:214-219 | Definition: some line of `split(/\r?\n/)` lists the entry. It has no contract; `HasEntryByPieces` characterises it |
| IgnoreFile.EntryLineIgnoresCarriageReturn | src/utils/config.ts:215-218 | Whether a line lists the entry does not depend on a trailing `\r` |
| IgnoreFile.LinesAgreeWithPieces | src/utils/config.ts:214-219 | Line by line, the presence test gives the same answer on a line as on its piece |
| IgnoreFile.EntryPieceFromLine | src/utils/config.ts:214-219 | If some line lists the entry, some piece does |
| IgnoreFile.EntryLineFromPiece | src/utils/config.ts:214-219 | If some piece lists the entry, some line does |
| IgnoreFile.HasEntryByPieces | src/utils/config.ts:214-219 | The entry is present exactly when some newline-separated piece, trimmed, is the file name or `/` plus the file name |
| IgnoreFile.EntryIsPlain | src/utils/config.ts:213 | The entry has no newline and no whitespace at its ends |
| IgnoreFile.PrefixNewline | src/utils/config.ts:221-224 | Definition: a newline unless the file is empty or ends with one. It has no contract; `AppendedText` states its effect |
| IgnoreFile.AppendedText | src/utils/config.ts:221-225 | An empty file, or one ending in a newline, gets the entry and a newline; any other file gets a newline first |
| IgnoreFile.UpdatedContent | src/utils/config.ts:220-225 | The old content is a prefix of the new. A listed entry leaves the file unchanged; otherwise the prefix newline, the entry and a newline are appended |
| IgnoreFile.PiecesBeforeEntry | src/utils/config.ts:221-224 | After the conditional newline, the last piece is empty and the others are kept |
| IgnoreFile.PiecesAfterLine | src/utils/config.ts:225 | A line and a newline written after a final newline become the last two pieces |
| IgnoreFile.PiecesOfAppended | src/utils/config.ts:221-225 | After the append, the pieces are the kept ones, then the entry, then an empty piece |
| IgnoreFile.UpdatedPieces | src/utils/config.ts:220-225 | The same, for the updated content of a file without the entry |
| IgnoreFile.KeptPiecesHaveNoEntry | src/utils/config.ts:214-225 | When the file did not list the entry, no kept piece lists it |
| IgnoreFile.UpdateAddsExactlyOneEntry | src/utils/config.ts:214-225 | A file without the entry gains exactly one entry line: it is second to last, the last line is empty, and no other line lists the entry. The lines before it are the old pieces, each without a trailing `\r`; the empty piece after a closing newline (or of an empty file) is not among them |
| IgnoreFile.UpdateHasEntry | src/utils/config.ts:209-225 | After the update the presence test succeeds |
| IgnoreFile.UpdateIdempotent | src/utils/config.ts:209-225 | Updating twice is updating once |
| IgnoreFile.ShortLineIsNotEntry | src/utils/config.ts:218 | A line shorter than the entry never lists it |
| IgnoreFile.ShortPiecesHaveNoEntry | src/utils/config.ts:214-219 | A file whose pieces are all shorter than the entry does not list it |
| IgnoreFile.UpdateEmptyFile | src/__tests__/createDefaultConfig.gitignore.test.ts:76-108 | An empty `.gitignore` becomes `commitail.config.json\n` |
| IgnoreFile.UpdateListedFile | src/__tests__/createDefaultConfig.gitignore.test.ts:110-136 | `commitail.config.json\n` is left unchanged |
| IgnoreFile.OtherRulesPieces | src/__tests__/createDefaultConfig.gitignore.test.ts:147 | `node_modules/\n.env` has the two rules as its pieces |
| IgnoreFile.UpdateFileWithOtherRules | src/__tests__/createDefaultConfig.gitignore.test.ts:138-170 | `node_modules/\n.env` becomes `node_modules/\n.env\ncommitail.config.json\n` |
| ConfigStore.GetWorkspaceConfigPath | src/utils/config.ts:10-14 | Absent exactly when there is no workspace folder; otherwise a path in the first folder ending in `/commitail.config.json`. src/extension.ts:26-30 is identical |
| ConfigStore.ResolveConfigPath | src/utils/config.ts:17 | Definition of `configPath \|\| getWorkspaceConfigPath()`: a non-empty explicit path wins, and an empty or missing one falls back to the workspace. It has no contract; `LoadConfigExplicitPath` and `LoadExactly` state its use |
| ConfigStore.Load | src/utils/config.ts:16-62 | Whatever the loader returns passes its validator |
| ConfigStore.LoadExactly | src/utils/config.ts:16-62 | A config is returned exactly when the resolved file exists, can be read, parses to it, and it validates. A missing path, a missing file, a read or parse error, and a rejection all give null |
| ConfigStore.LoadConfig | src/utils/config.ts:16-62 | Whatever `loadConfig` returns passes `validateConfig` |
| ConfigStore.LoadConfigExactly | src/utils/config.ts:16-62 | The same characterisation for `loadConfig`; the value is returned unchanged |
| ConfigStore.LoadConfigExplicitPath | src/utils/config.ts:17-18 | An explicit non-empty path is loaded whatever the workspace folders are |
| ConfigStore.DefaultConfigValid | src/utils/config.ts:192-196 | The default config validates, with four options and `manual` true |
| ConfigStore.IgnorePathFor | src/utils/config.ts:207-208 | The `.gitignore` path is in the config file's directory and ends in `/.gitignore` |
| ConfigStore.IgnorePathOfWorkspace | src/utils/config.ts:207-208 | The `.gitignore` used is the one in the workspace root, never the config file itself |
| ConfigStore.IgnoreUpdated | src/utils/config.ts:206-230 | Definition of the files after the `.gitignore` step. It has no contract; `IgnoreUpdatedFrame`, `IgnoreUpdatedListsEntry` and `IgnoreUpdatedIdempotent` state its properties |
| ConfigStore.IgnoreUpdatedFrame | src/utils/config.ts:206-230 | The `.gitignore` step changes no file but the `.gitignore`, never removes it, and keeps its old content as a prefix |
| ConfigStore.IgnoreUpdatedListsEntry | src/utils/config.ts:206-230 | When the read and the append succeed, the `.gitignore` lists the entry afterwards |
| ConfigStore.IgnoreUpdatedIdempotent | src/utils/config.ts:206-230 | Running the `.gitignore` step twice gives the same files as running it once |
| ConfigStore.UpdateIgnoreFile | src/utils/config.ts:206-230 | The step, with its `try`/`catch`: a read or append that throws leaves the files unchanged; otherwise the new files are as described above |
| ConfigStore.CreatedFiles | src/utils/config.ts:198-230 | Definition of the files after a successful creation: the default text written, then the `.gitignore` step. It has no contract; `CreatedFilesHoldDefault` and `CreateTwiceIsOnce` state its properties |
| ConfigStore.CreatedFilesHoldDefault | src/utils/config.ts:198-230 | After creation the config file holds the default text, whatever the `.gitignore` step did |
| ConfigStore.CreateTwiceIsOnce | src/utils/config.ts:168-252 | Creating the default config twice (overwrite confirmed) gives the same files as creating it once |
| ConfigStore.CreateDefaultConfig | src/utils/config.ts:168-252 | The result is true exactly when there is a workspace, the overwrite is confirmed if the file exists, and the write succeeds; a failing `.gitignore` step does not change it. A false result changes no file |
| ConfigStore.LoadAfterCreate | src/utils/config.ts:192-203 | The written default text loads back as the default config |
| CommitWithAppend.OptionLabel | src/commands/commitWithAppend.ts:103 | Definition: a string option's value, or a pair's first entry. It has no contract; `QuickPickItems` and `AutoSuffix` state its use |
| CommitWithAppend.OptionDescription | src/commands/commitWithAppend.ts:108-111 | Definition: a pair's second entry; a string has no description. It has no contract; `QuickPickItems` states its use |
| CommitWithAppend.ToPickItem | src/commands/commitWithAppend.ts:107-112 | Definition of one pick item from one option. It has no contract; `QuickPickItems` states it for every option |
| CommitWithAppend.QuickPickItems | src/commands/commitWithAppend.ts:106-113 | One item per option, in order. The label is the string or the pair's first entry; only pairs have a description, their second entry |
| CommitWithAppend.LoadedConfigHasOptions | src/commands/commitWithAppend.ts:84-92 | After validation `appendOptions` is a non-empty array, so this guard never fires |
| CommitWithAppend.IsAutomatic | src/commands/commitWithAppend.ts:96 | Definition: `manual === false`, so only an explicit `false` skips the pick list. It has no contract; `SelectSuffix` states its effect |
| CommitWithAppend.AutoIndex | src/commands/commitWithAppend.ts:98-99 | Definition: `defaultIndex` when it is a number, and 0 otherwise. It has no contract; `AutoIndexInBounds` bounds it |
| CommitWithAppend.AutoIndexInBounds | src/commands/commitWithAppend.ts:96-103 | `defaultIndex`, or 0, is an index of an option of every validated config |
| CommitWithAppend.AutoSuffix | src/commands/commitWithAppend.ts:96-103 | The index is that of an option, and the suffix is that option's string or its pair's first entry |
| CommitWithAppend.PickedSuffixAsWritten | src/commands/commitWithAppend.ts:127 | `picked.label \|\| picked.description` as written: a non-empty label wins, an empty one gives way to the description, and an item with neither gives "undefined" |
| CommitWithAppend.PickedSuffix | src/commands/commitWithAppend.ts:127 | The corrected pick: a non-empty label wins, and an empty label gives way to a description; the result is always the label or the description |
| CommitWithAppend.PickedSuffixAsWrittenDiffers | src/commands/commitWithAppend.ts:127 | An item with an empty label and no description gives "undefined" as written, and an empty suffix when corrected |
| CommitWithAppend.SelectSuffix | src/commands/commitWithAppend.ts:94-128 | The corrected choice. With `manual === false` the suffix is the option at the index. Otherwise it is absent exactly when the pick is dismissed; a pick gives the picked option's label if non-empty, else its description, else the empty suffix |
| CommitWithAppend.SelectedSuffixIsOffered | src/commands/commitWithAppend.ts:94-128 | The corrected choice only ever yields a label or a description the config offers |
| CommitWithAppend.SelectSuffixAsWritten | src/commands/commitWithAppend.ts:94-128 | The choice as written: the same automatic and cancel behaviour; a pick gives the picked option's label if non-empty, else its description, else "undefined" |
| CommitWithAppend.SelectSuffixCorrectionIsNarrow | src/commands/commitWithAppend.ts:123-127 | The corrected and the as-written choice differ only on a pick of a plain `""` option, where they give `""` and "undefined" |
| CommitWithAppend.ComposeMessage | src/commands/commitWithAppend.ts:130-144 | Skip exactly when the trimmed message ends with the suffix, an empty suffix included. Otherwise the suffix alone for an empty message, or message, space, suffix; the result ends with the suffix |
| CommitWithAppend.ComposeTwiceSkips | src/commands/commitWithAppend.ts:130-144 | For a suffix without whitespace at its ends, composing again on the composed text skips |
| CommitWithAppend.ComposeExamples | src/commands/commitWithAppend.ts:130-144 | `""` gives the suffix alone, `feat: x` gives `feat: x [skip ci]`, and `feat: x [skip ci]` skips |
| CommitWithAppend.WipConfigChoosesSecond | src/commands/commitWithAppend.ts:96-103 | `manual: false` with `defaultIndex: 1` is valid and chooses `[wip]` |
| CommitWithAppend.WipScenario | src/commands/commitWithAppend.ts:96-147 | With that config `fix: bug` becomes `fix: bug [wip]` |
| CommitWithAppend.EmptyOptionConfigValid | src/utils/config.ts:100-104 | `{ "appendOptions": [""] }` is valid and uses the pick list |
| CommitWithAppend.EmptyOptionAppendsUndefined | src/commands/commitWithAppend.ts:123-147 | Picking that empty option writes `fix undefined` as written, where the corrected command skips |
| CommitWithAppend.Decide | src/commands/commitWithAppend.ts:37-147 | With the corrected choice: no changes gives `NoChanges`, no config `NoValidConfig`, a dismissed pick `Cancelled`. With a suffix it appends exactly when the trimmed message does not end with it, writing the suffix alone for an empty message and otherwise the message, a space and the suffix; else `AlreadySuffixed` |
| CommitWithAppend.AppendedEndsWithSuffix | src/commands/commitWithAppend.ts:130-147 | Only a run with changes and a config appends. The written message ends with the chosen suffix, and the trimmed original did not |
| CommitWithAppend.SecondRunAppendsNothing | src/commands/commitWithAppend.ts:130-144 | In either mode, when the suffix chosen has no whitespace at its ends, running again with the same choice on the appended message appends nothing |
| CommitWithAppend.CommitWithAppendCommand | src/commands/commitWithAppend.ts:13-151 | No extension or no repository ends the run. Otherwise the outcome is the decision, with the corrected choice, on the first repository's changes, the loaded config and the input box. The input box changes only on an append, to the new message |
| CommitWithAppend.AppendToRepository | src/commands/commitWithAppend.ts:36-151 | From the repository on, the same statement, with the corrected choice |
| CommitWithAppend.AppendSuffix | src/commands/commitWithAppend.ts:94-151 | Given a valid config, the outcome is the decision with the corrected choice, and the input box holds the new message exactly on an append |
| Extension.LegacyValidateConfig | src/extension.ts:63-113 | A valid result has an empty message, returns the input, and all its options are strings; an invalid one has a message and no config |
| Extension.LegacyValidateConfigAcceptsExactly | src/extension.ts:63-113 | Accepts exactly the truthy documents with a non-empty string array, a boolean or absent `manual`, and an absent or in-range integer `defaultIndex` |
| Extension.LegacyValidateConfigReportsFirstFailure | src/extension.ts:65-109 | Valid exactly when every check passes; otherwise the first failing check's message is reported |
| Extension.LegacyValidateConfigStepwise | src/extension.ts:63-113 | The loop with early returns computes exactly `LegacyValidateConfig` |
| Extension.ValidatorsAgreeOnStringOptions | src/extension.ts:79-83 | On string options the two validators give the same result; what the older one accepts, the current one accepts |
| Extension.PairOptionAcceptedByCurrentOnly | src/extension.ts:79-83 | A pair option is accepted by the current validator and rejected by the older one |
| Extension.LegacyValidatorAcceptsTestConfig | src/__tests__/validateConfig.test.ts:7-18 | `["feat","fix","docs"]`, `manual: false`, `defaultIndex: 0` is valid with an empty message and the input as config |
| Extension.LegacyValidatorRejectsTestOptions | src/__tests__/validateConfig.test.ts:21-55 | A string, `[]` and `["feat",123,"docs"]` as options are each rejected with their own message |
| Extension.LegacyValidatorRejectsTestManual | src/__tests__/validateConfig.test.ts:58-68 | A string `manual` is rejected as not boolean |
| Extension.LegacyValidatorRejectsTestIndex | src/__tests__/validateConfig.test.ts:71-105 | A string `defaultIndex` is rejected as not a number; 5 and -1 with three options are out of range, with 2 as the largest index |
| Extension.LegacyLoadConfig | src/extension.ts:32-56 | Whatever the older `loadConfig` returns passes the older validator |
| Extension.LegacyLoadConfigImpliesCurrent | src/extension.ts:32-56 | What the older `loadConfig` returns, the current one returns too |
| Extension.DefaultConfigValidLegacy | src/extension.ts:342-346 | The older default config passes the older validator |
| Extension.LegacyCreateDefaultConfig | src/extension.ts:323-360 | True exactly when there is a workspace, the overwrite is confirmed if needed, and the write succeeds. Only the config file is written, with the default text |
| Extension.OptionStrings | src/extension.ts:253-254 | The list handed to `showQuickPick` is the option strings, one per option, in order |
| Extension.LegacySelectSuffix | src/extension.ts:242-264 | With `manual === false` a suffix is always chosen. Otherwise the suffix is absent exactly when the pick is dismissed, and a pick gives the picked option's string. Any chosen suffix is one of the option strings |
| Extension.LegacyAutoSuffixIsCurrent | src/extension.ts:245-251 | The older automatic choice is the current one |
| Extension.LegacyDecide | src/extension.ts:203-266 | An empty trimmed message gives `EmptyMessage`, and a missing config `NoValidConfig`. With a config it commits exactly when a suffix is chosen, and gives `Cancelled` otherwise. A commit carries the trimmed message, a space and the suffix, with no duplicate check |
| Extension.SkipCiConfigValid | src/extension.ts:245-251 | `{ "appendOptions": ["[skip ci]"], "manual": false }` is valid for both validators and chooses `[skip ci]` |
| Extension.LegacyRepeatsSuffix | src/extension.ts:266 | The older handler commits `fix [skip ci] [skip ci]` for `fix [skip ci]`: there is no duplicate check |
| Extension.CurrentSkipsSuffixed | src/commands/commitWithAppend.ts:135-144 | On the same input the current command skips |
| Extension.CommitWithAppendHandler | src/extension.ts:187-266 | No extension or no repository ends the run; otherwise the outcome is the decision on the first repository's input box and the loaded config. The handler changes no state |

## Left out

- CommitWithAppend.Decide: like `AppendSuffix`, `AppendToRepository` and `CommitWithAppendCommand`, it uses the corrected pick (`SelectSuffix`), not the pick as written. A picked plain `""` option therefore skips, where the code writes `undefined` or `fix undefined` (see "## Findings"). `SelectSuffixCorrectionIsNarrow` shows this is the only pick on which the two differ.
- `execGitCommit` (src/utils/git.ts and src/extension.ts:115-143) is not part of this model. It shells out to `git commit`, so the older handler ends with the message it would pass on (`Commit(message)`).
- `getGitExtension` and the rest of `activate` are reduced to `Option<seq<Repository>>`. That covers command registration, the output channel and the initial config load.
- Dialogs, `showQuickPick` and the async flow are parameters: `choose` and `overwriteChosen`. The information, warning and error messages shown to the user are left out.
- The "no valid config" prompt, with its follow-up `createDefaultConfig` or `openExternal`, runs after the command has returned. It is left out; the run ends with `NoValidConfig`.
- `Logger`, `console` and localization are left out; messages are an `ErrorKind`.
- `JSON.parse` is a parameter.
- `JSON.stringify` of the default config is a fixed text constant rather than a stringifier.
- `LoadAfterCreate` assumes that `parse` reads that text back as the default config.
- `path.join` and `path.dirname` are `/` concatenation and a cut at the last `/`, with no normalisation.
- Numbers other than integers are the single value `JNonInt`; floating point is not modelled.
- Strings are sequences of Unicode characters, not JavaScript's UTF-16 code units. A lone surrogate, such as one written as `\ud800` in the config JSON, cannot be represented. `trim`, `endsWith` and `split` give the same results on well-formed strings either way.
- An undefined `workspaceFolders` and an empty one are both the empty sequence.
- The `!config.appendOptions || length === 0` guards (src/commands/commitWithAppend.ts:84-92, src/extension.ts:235-240) are not in the method bodies. `CommitWithAppend.LoadedConfigHasOptions` proves that they never fire after validation.
- A file whose existence test succeeds but whose read throws is modelled, through `unreadable`. A file that appears or disappears between the two calls is not.
- Concurrency: the `await` on the pick dialog is treated as atomic. A change to the repository or the input box while the dialog is open is not modelled.

## Findings

| source | as written | input that shows it | evidently intended | confidence | as-written member | corrected member |
|---|---|---|---|---|---|---|
| src/commands/commitWithAppend.ts:127 | `selectedSuffix = picked.label \|\| picked.description`; an item with an empty label and no description (a plain `""` option, which the validator accepts) gives `undefined`, which the template strings then write as the text `undefined` | config `{ "appendOptions": [""] }`, message `fix`, the user picks the only item: the input box becomes `fix undefined` | the picked option's own value, the empty suffix, which the `endsWith` test turns into a skip | medium, not executed | CommitWithAppend.EmptyOptionAppendsUndefined | CommitWithAppend.PickedSuffix |
