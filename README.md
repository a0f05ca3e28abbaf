# disable-default-keybinding, modelled in Dafny

A model of the core of the VS Code extension `cormoran.disable-default-keybinding`.
The extension rewrites the user's `keybindings.json` so that every default keybinding
contributed by installed extensions is switched off. For each one it appends a
`-command` entry tagged with a `registeredBy` marker. Two sets of regular-expression
patterns let the user keep keybindings by extension id or by command. Before the file
is rewritten, it is copied to a timestamped backup.

The project has seven modules, one per concern of the source:

- `Wrappers` (`wrappers.dfy`): `Option` and `Result`.
- `Sequences` (`sequences.dfy`): the JavaScript array idioms the source composes. These are
  `filter`, the index list of the filtered elements, `reduce` with `||` and with `&&`, and
  dropping `null`s. Each comes with the algebra the other modules rely on: distribution
  over concatenation, idempotence, and two filters being one filter.
- `JsonTree` (`json_tree.dfy`): the jsonc-parser parse tree of a keybindings document.
  It also holds the two edits the editor performs on it, deleting the element at an index
  and inserting an element at an index.
- `Config` (`config.ts`, in `config.dfy`): the settings keys, `validateConfig`, and the
  three getters.
- `DefaultKeybinding` (`defaultKeybinding.ts`, in `default_keybinding.dfy`): how the
  extensions' `contributes.keybindings` lists are flattened into keybinding records.
- `Backup` (`backup.ts`, in `backup.dfy`): candidate backup names, the probe loop, and
  the file store. The file store is a class holding the content of keybindings.json and
  the backup directory as a map from name to entry. On it act backup, restore,
  listing and delete-all.
- `DisableKeybinding` (`disableKeybinding.ts`, in `disable_keybinding.dfy`): the
  document editor. It recognises the entries this extension inserted, strips them
  (highest index first), computes the keybindings to suppress, and appends the
  suppression entries. It also covers the decision to back up and write.

A document's text is represented by its tree (`Doc = Option<Node>`, where `None` means
the text holds no JSON value). Equality of texts is modelled as equality of trees.
Regular-expression matching is the parameter `m: (pattern, subject) -> bool`. The host
objects become parameters or state:

- the installed extensions, `process.platform` and the current time are parameters;
- the prompt answers are parameters;
- the files are the `FileStore`.

## Model

| member | source | states |
|---|---|---|
| Config.ValidateConfig | src/config.ts:7-12 | The value comes back unchanged exactly when it is an array whose every element is a string; the empty array is one of these. Any other value gives `[]`. The result is always a string array. |
| Config.ExtensionsToPreserveKeybinding | src/config.ts:14-18 | Returns the configured `extensionsToPreserve` strings, in order, when the setting is a string array; otherwise the empty list. |
| Config.CommandsToPreserveKeybinding | src/config.ts:20-24 | Returns the empty list when the setting under `COMMANDS_TO_PRESERVE` is not a string array. |
| Config.PreserveListsCoincide | src/config.ts:4-5 | Since `COMMANDS_TO_PRESERVE` is the key `extensionsToPreserve`, the two getters return the same list for every configuration. |
| Config.RunOnChange | src/config.ts:26-29 | True exactly when `runOnChange` is stored as the boolean `true`. A missing value or a value of any other type gives false. |
| Sequences.OrFold | src/disableKeybinding.ts:47-49 | `reduce((a, b) => a \|\| b, false)` is true exactly when some element is true, so an empty list gives false. |
| Sequences.AndFold | src/config.ts:9 | `reduce((a, b) => a && b, true)` is true exactly when every element is true, so an empty list gives true. |
| Sequences.FilterIndices | src/disableKeybinding.ts:79-84 | The indices of the elements that pass, strictly ascending, each in range. Every passing index is among them. |
| Sequences.FilterMembers | src/disableKeybinding.ts:81 | `filter` keeps exactly the passing elements: each result element passes and comes from the input, and each passing input element is kept. |
| Sequences.FilterAppend | src/disableKeybinding.ts:154-170 | Filtering distributes over concatenation, so stripping the stripped array followed by the appended entries strips each part separately. |
| Sequences.FilterAtIndices | src/disableKeybinding.ts:79-84 | The filtered sequence is the original's elements at exactly those ascending indices, in that order. |
| JsonTree.RemoveElement | src/disableKeybinding.ts:88-97 | Deleting element `i` of the array leaves one element fewer. Elements before `i` are unchanged, and those after `i` move down by one. |
| JsonTree.InsertElement | src/disableKeybinding.ts:126-143 | An insertion succeeds exactly when the root is an array or the text is empty. An empty text becomes `[v]`. An index at or past the end appends `v` after the existing elements. |
| DefaultKeybinding.OsKey | src/defaultKeybinding.ts:10-21 | There is a platform key exactly for `win32`, `darwin` and `linux`. |
| DefaultKeybinding.Records | src/defaultKeybinding.ts:23-38 | Every record is the `ToKeybinding` image of one of the extension's contributions. Every non-null contribution with `"command"` and `"key"` yields its record. |
| DefaultKeybinding.ExtensionKeybindings | src/defaultKeybinding.ts:22-39 | Every record carries the contributing extension's id and a non-empty command, and comes from one of its contributions. Every contribution with `"command"`, `"key"` and a non-empty command yields one. |
| DefaultKeybinding.CollectAllDefaultKeybindings | src/defaultKeybinding.ts:9-40 | Every collected record has a non-empty command. It is the record of a contribution of one of the given extensions, and it carries that extension's id. |
| DefaultKeybinding.CollectedAreComplete | src/defaultKeybinding.ts:22-39 | Every contribution of every extension that has `"command"`, `"key"` and a non-empty command is collected, as the record `ToKeybinding` builds from it. |
| DefaultKeybinding.CollectAppend | src/defaultKeybinding.ts:22 | Output order is extension order: collecting over `a + b` gives `a`'s records, then `b`'s. |
| DefaultKeybinding.ContributionOrder | src/defaultKeybinding.ts:23-39 | Within an extension, output order is contribution order: contributions `a + b` give `a`'s records, then `b`'s. |
| DefaultKeybinding.NoContributionsNoKeybindings | src/defaultKeybinding.ts:23-24 | An extension without `contributes.keybindings`, or with only `null` contributions, contributes no record. |
| DefaultKeybinding.ContributionKey | src/defaultKeybinding.ts:26-32 | A contribution with `"command"`, `"key"` and a non-empty command is collected. Its key, chosen by `KeyOf`, is the platform field when the platform is known and the field is present, and with `"key"` otherwise. |
| Backup.Decimal | src/backup.ts:29 | The rendering of a number in a template literal has at least one digit, and has exactly one digit exactly for numbers below 10. |
| Backup.DecimalInjective | src/backup.ts:29 | Different numbers render differently. |
| Backup.BackupFileNameHasSuffix | src/backup.ts:6-29 | Every candidate name ends with `_keybindings.json`, so every backup is found by the listing filter. |
| Backup.BackupFileNameInjective | src/backup.ts:28-29 | The 100 candidates of one timestamp are pairwise distinct names. |
| Backup.BackupFileNameOfDecember | src/backup.ts:9-10 | 10 December 2022, 20:26:30, candidate 0 is named `2022-11-10--20-26-30-0_keybindings.json`: the month is 0-based, and the counter always appears. |
| Backup.CollectBackupFiles | src/backup.ts:69-81 | Every reported name is a listed regular file ending with the suffix. Every listed regular file ending with the suffix is reported. |
| Backup.CollectedAreBackupNames | src/backup.ts:69-81 | For a faithful listing, the reported names are exactly the directory's regular files whose names end with the suffix. |
| Backup.ProbeBackupFileName | src/backup.ts:27-38 | The loop always yields a name, so the `!backupFile` error cannot occur. Every lower candidate is taken. The name is free unless it is candidate 99. |
| Backup.FileStore.BackupKeybindingFile | src/backup.ts:16-43 | Succeeds exactly when one of the 100 candidates is free; the name is then the first free candidate. The directory gains exactly that one new entry, whose content is keybindings.json's, and the backup list grows by that name. When all candidates are taken, the copy onto candidate 99 fails with `FileExists`, and nothing changes. |
| Backup.FileStore.RestoreKeybindingBackup | src/backup.ts:53-63 | First a safety backup of the current content is taken under the first free candidate, the only new name. Then keybindings.json gets the chosen backup's content, and the safety backup's name is returned. Every failure is `FileExists` or `FileNotFound`, and when some candidate is free the only possible failure is `FileNotFound` of the chosen backup. When every candidate is taken, the safety backup fails with `FileExists` and nothing changes. When the backup exists and a candidate is free, the restore succeeds. When the backup is not a regular file and is not one of the candidates, while a candidate is free, the restore fails with `FileNotFound`. keybindings.json is then unchanged, and the safety backup stays in the directory. |
| Backup.FileStore.DeleteAllBackupFiles | src/backup.ts:87-104 | The prompt is shown exactly when some backup exists. The answer "Yes" removes exactly the backups; any other answer removes nothing. Other entries and keybindings.json are untouched. |
| Backup.BackupEditRestore | src/test/suite/backup.test.ts:144-154 | Start from a directory where the first candidate of the first timestamp and the first two candidates of the second are free. A backup, an edit, and a restore of that backup then give back the original content. Two distinct new backups are added, and nothing else changes. |
| DisableKeybinding.FindPropertyIsFirst | src/disableKeybinding.ts:19-21 | `find` returns the first property with the key, or nothing when no property has it. |
| DisableKeybinding.ObjectNodeValueIsFirstString | src/disableKeybinding.ts:17-27 | `getObjectNodeValue` gives nothing for a non-object. Otherwise it gives the value of the first property with the key exactly when that value is a string, and nothing for a missing key or a non-string value. |
| DisableKeybinding.InsertedIffFirstProperties | src/disableKeybinding.ts:33-41 | A node counts as inserted by this extension exactly when it is an object whose first `key`, `command` and `extensionId` properties hold strings, and whose first `registeredBy` property holds the marker. |
| DisableKeybinding.MissingFieldNeverInserted | src/disableKeybinding.ts:33-41 | A node without a string `key`, `command`, `extensionId` or `registeredBy` is never taken for an inserted entry. |
| DisableKeybinding.InsertedHasFields | src/disableKeybinding.ts:33-41 | An inserted entry is an object with the marker property and with string `key`, `command` and `extensionId` properties. |
| DisableKeybinding.IsKeybindingRegisteredByExtension | src/disableKeybinding.ts:43-50 | True exactly when `ExtensionIdMatches` holds for some pattern: some pattern matches the extension id, where an absent id counts as matching. |
| DisableKeybinding.IsKeybindingCommandMatches | src/disableKeybinding.ts:52-59 | True exactly when some pattern matches the command. |
| DisableKeybinding.PatternListEdgeCases | src/disableKeybinding.ts:43-59 | An empty pattern list matches nothing. A non-empty extension-pattern list matches every keybinding without an extension id, because `ExtensionIdMatches` takes an absent id for a match. |
| DisableKeybinding.KeybindingsToDisable | src/disableKeybinding.ts:160-164 | Every keybinding to disable is a default matched by no preserve pattern. Every such default is to be disabled. |
| DisableKeybinding.KeybindingsToDisableIsOneFilter | src/disableKeybinding.ts:160-164 | The two filters in a row are one filter by "matched by neither list", so the defaults' order is kept. |
| DisableKeybinding.PreservationExample | src/disableKeybinding.ts:160-164 | The defaults are `a.b`/`cmd1` and `c.d`/`cmd2`, the extension pattern is `a\..*`, and there is no command pattern. With these, only the `c.d` keybinding is suppressed. |
| Sequences.FilterIndicesGap | src/disableKeybinding.ts:79-86 | Between two consecutive collected indices, no element passes the filter. |
| Sequences.DeleteIndexBefore | src/disableKeybinding.ts:85-98 | Deleting, from the partly stripped array, the highest inserted index not yet deleted keeps every element before it in place. Stripping then reaches down to that index. |
| Sequences.DeletedAllIndices | src/disableKeybinding.ts:85-98 | Once every inserted index is deleted, the partly stripped array is the fully stripped one. |
| Sequences.AscendingAvoidsGap | src/disableKeybinding.ts:79-86 | No entry of the ascending index list lies strictly between two consecutive entries. |
| DisableKeybinding.FilterOutKeybindingsRegisteredByThisExtension | src/disableKeybinding.ts:67-105 | A text without a value fails with a parse error, and a root that is not an array fails with a not-array error. Otherwise the result is the array of exactly the non-inserted elements, in their order. |
| DisableKeybinding.StrippedAreUserEntriesInOrder | src/disableKeybinding.ts:79-98 | The stripped array's elements are the original's non-inserted elements, at ascending original indices, and every non-inserted element is there. |
| DisableKeybinding.NewEntryFieldOrder | src/disableKeybinding.ts:129-134 | An appended entry has its fields in the order the object literal lists them: `key`, `command`, `extensionId`, `registeredBy`. `extensionId` is left out when absent, as `JSON.stringify` drops `undefined`. |
| DisableKeybinding.NewEntryReadBack | src/disableKeybinding.ts:126-134 | An appended entry reads back with the keybinding's key and extension id. Its command is `"-" + command` exactly when disabling, and its `registeredBy` is the marker. It counts as inserted by this extension exactly when the extension id is present. |
| DisableKeybinding.AddKeybindingsToJSON | src/disableKeybinding.ts:116-147 | No keybindings leave the document as it is. When the root is an array or the text is empty, the original `n` elements stay first, unchanged, followed by one entry per keybinding in input order at `n`, `n+1`, … A root of any other kind rejects the first insertion. |
| DisableKeybinding.BuildNewKeybindingsJSONString | src/disableKeybinding.ts:149-171 | The built document is the stripped array followed by one suppression entry per keybinding to disable. Stripping errors propagate. |
| DisableKeybinding.SuppressionEntriesAreInserted | src/disableKeybinding.ts:130-133 | Every suppression entry the builder appends is stripped by the next run. |
| DisableKeybinding.StripAfterAppend | src/disableKeybinding.ts:125-147 | Appending entries for keybindings that all have an extension id, and then stripping, gives what stripping alone gives. |
| DisableKeybinding.RerunIsUnchanged | src/disableKeybinding.ts:149-171 | Building again from the built document, with the same settings and extensions, gives the same document: no suppression entry accumulates. |
| DisableKeybinding.UserEntriesSurvive | src/disableKeybinding.ts:149-171 | Every element not inserted by the extension is in the new document, ahead of all suppression entries. |
| DisableKeybinding.DisableDefaultKeybindings | src/disableKeybinding.ts:181-208 | The decider is consulted exactly when the build succeeds and differs from the current document. The backup (of the old content) and then the write happen only when the decider says yes. The result is true exactly when the file is written. It is false when there is nothing to change or the decider says no. When the decider says yes and every backup candidate is taken, the backup's `FileExists` failure is passed on. In every case but a write, keybindings.json and the backup directory are unchanged. On a write, the old content is backed up under the timestamp's first free candidate, which the backup listing then finds as its one new name. |

## Divergences

The code is modelled as written. Where it departs from what its names and comments
suggest, the model reproduces the code.

- An absent extension id matches every extension pattern. `keybinding.extensionId?.match(re) !== null`
  yields `undefined !== null`, which is true (src/disableKeybinding.ts:48). `ExtensionIdMatches`
  follows the code, and `PatternListEdgeCases` states the consequence.
- The `!backupFile` error in `backupKeybindingFile` cannot be raised, because the probe loop assigns
  a name on every iteration (src/backup.ts:27-38). When all 100 names are taken, the failure
  comes from the non-overwriting copy onto candidate 99 (src/backup.ts:41), not from the
  "too many backup" error at src/backup.ts:34-37. `BackupKeybindingFile` keeps the unreachable
  branch and proves it is not taken. The failure it returns is `FileExists`.
- `COMMANDS_TO_PRESERVE` is the key `"extensionsToPreserve"` (src/config.ts:4-5). The two
  preserve lists are therefore always the same list (`PreserveListsCoincide`).
- `addKeybindingsToJSON` starts at `children.length` of whatever the root is (src/disableKeybinding.ts:122-123).
  For an object root this counts its properties, not 0. In the model the first insertion into
  such a root is rejected (`EditRejected`), as jsonc-parser refuses an index path into an object.
- The doc comment's example name `2022-12-10--20-26-30_keybindings.json` (src/backup.ts:10)
  has neither the counter nor the 0-based month that `getMonth()` gives (src/backup.ts:22).
  `BackupFileNameOfDecember` gives the name the code writes.

A note on `IsInsertedByThisExtension`: it checks only that the `key`, `command` and
`extensionId` values are strings (`!== undefined`, src/disableKeybinding.ts:36-38). An entry
carrying the marker with an empty `key`, `command` or `extensionId` therefore counts as inserted
and is stripped.

## Left out

- jsonc-parser internals are not modelled: `parseTree`, `getNodePath`, `modify`, `applyEdits` and the formatting options. Texts are their parse trees, and the model does not represent comments, whitespace or formatting. An element an edit does not touch is kept unchanged, which is what comment preservation amounts to at this level.
- Text equality (`current !== new`) is tree equality. Two texts that differ only in formatting compare equal in the model. In the source they do not.
- Regular-expression semantics are not modelled: `String.match` is the parameter `m`, and `PreservationExample` assumes only the two matches it names.
- `Date` is left out. A timestamp is its six components, as the getters return them.
- The vscode host is left out: `workspace.fs` reads and writes, `readDirectory` (passed in as a listing), `createDirectory`, `showQuickPick` (its answer is a parameter) and the information messages. For `disableDefaultKeybindings` the decider's answer is a parameter, and `consulted` records whether it was asked.
- `DeleteAllBackupFiles`: the un-awaited per-file `fs.delete` calls are modelled as one step that removes every backup. Their async ordering and the move to the trash are not modelled.
- `RestoreKeybindingBackup`: a restore from a name that is not a regular file (missing, a directory or a link) is `FileNotFound`. The host's copy of a directory or a link is not modelled.
- The backup directory is always present in the model: `backupDir` is a map, and every listing is a listing of it. In the source the directory does not exist until the first backup creates it (src/backup.ts:39). Until then `readDirectory` throws, so `deleteAllBackupFiles` and `selectAndRestoreBackup` fail instead of reporting that no backup exists. An absent directory is not modelled.
- DefaultKeybinding.CollectAllDefaultKeybindings: two manifest shapes that make the source throw are not representable, because `contributes.keybindings` is `Option<seq<Contribution>>` and an element is `null` or a string-field object. The first is a truthy `contributes.keybindings` that is not an array, such as a single keybinding object: `.filter` is not a function there (src/defaultKeybinding.ts:23-24). The second is an element that is a primitive other than `null`, such as a number or a string: `"command" in keybinding` throws on it (src/defaultKeybinding.ts:26).
- DisableKeybinding.GetObjectNodeValue: a property parsed without a value, as the error-tolerant parse of `[{"key"}]` produces, makes `prop?.children?.[1].type` throw (src/disableKeybinding.ts:22). In the model every property is a (name, value) pair, so this input is not representable.
- Contributions are modelled by their string-valued fields only. A `"command"` or `"key"` holding a non-string value is outside the model.
- `disableDefaultKeybindingsIfChanged`, `confirmAndDisableDefaultKeybindings` and `selectAndRestoreBackup` are left out: they are prompt and notification wrappers around the modelled operations.
- src/customKeybinding.ts is not part of this model, and neither are src/backupKeybinding.ts (an older copy of the backup code that nothing imports), src/extension.ts and src/setup.ts.
- Config.CommandsToPreserveKeybinding: its own contract states only the non-array case; the list it returns in the other case follows from `PreserveListsCoincide` and `ExtensionsToPreserveKeybinding`.
