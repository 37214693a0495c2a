# live-env-validator, scan-and-diff core

A Dafny model of the logic inside the VS Code extension live-env-validator.
The extension warns about every environment-variable reference in a
TypeScript, JavaScript or Go document that no `.env*` file of the workspace
declares, and it offers a quick fix that appends `NAME=` to a `.env` file.

The model covers these parts:

- **The two scanners**, `updateTsNodeDiagnostics` and `updateGoDiagnostics`,
  in module `Validator`. Each runs a `while ((match = regex.exec(text)) !== null)`
  loop. That loop is the imperative method `ScanDiagnostics`. It is proved
  equal to the specification function `Validate`.
- **The regular expressions**, `/process\.env\.([A-Z0-9_]+)/gi` and
  `/os\.Getenv\("([A-Z0-9_]+)"\)/gi`, in module `Scanner`. They are replaced
  by a lexical matcher, `Pattern(prefix, suffix)`. The matcher compares the
  prefix ignoring case, takes a greedy run of name characters, then compares
  the suffix. `Exec` is one `exec` call: the leftmost match at or after
  `lastIndex`. `Matches` is every match the loop visits. A lemma proves the
  matcher returns exactly the longest capture the regular expression would
  accept.
- **The declared names**, `getDefinedEnvVars`, in module `EnvStore`. This is
  a loop that `add`s every parsed key of every file into a set.
- **The dispatch and publishing** of `updateDiagnostics`, in module
  `Publisher`:
  - Go documents go to the `os.Getenv` scan.
  - TypeScript and JavaScript documents go to the `process.env` scan.
  - Any other language gets no entry at all.
  - The diagnostic collection is a class whose `Clear` and `Set` the method
    calls in the source's order.
- **The `live-env-validator.addEnvVar` command**, in module `EnvFix`:
  - It selects the file: none, the only one, or the one picked.
  - It appends `"\n" + NAME + "="` unless the file's text already contains
    `NAME=`.
  - It shows a message.
  - The files' texts are a map, held by a small class that the command
    updates.
- **`EnvVarCodeActionProvider.provideCodeActions`**, in module `CodeActions`.
  It gives one quick fix per warning that carries a code, in order.
- **Worked examples**, in module `Scenarios`. These are the repository's two
  tests and several further examples, each proved about its literal text.

Offsets are character offsets into the text. The duplicate test of the fix
follows the code's `includes`: `NAME=` anywhere in the text counts, not
only at the start of a line. So a file holding `OTHER_API_KEY=1` already
"declares" `API_KEY` (`Scenarios.DeclaredInsideLongerKey`).

## Model

| member | source | states |
|---|---|---|
| Scanner.LiteralAtIff | src/extension.ts:122 | the prefix `process\.env\.` under the `i` flag matches at an offset exactly when every character there equals the literal's ignoring ASCII case |
| Scanner.NameRunMaximal | src/extension.ts:122 | the greedy `[A-Z0-9_]+` run is made of name characters and cannot be extended by the next character |
| Scanner.MatchAt | src/extension.ts:122 | a match at an offset lies inside the text and is longer than the prefix plus the suffix, so the capture is never empty |
| Scanner.MatchAtShape | src/extension.ts:122 | a match is the prefix, a non-empty maximal run of name characters, then the suffix |
| Scanner.AcceptedWithinMatch | src/extension.ts:151 | any capture the regular expression accepts at an offset is no longer than the matcher's |
| Scanner.MatchAtIsGreedyMatch | src/extension.ts:151 | the matcher matches at an offset iff the regular expression accepts some capture there, and its capture is the longest accepted one |
| Scanner.PatternsWellFormed | src/extension.ts:122 | both patterns have a non-empty prefix, and the Go suffix `")` cannot start with a name character, so greedy matching never backtracks |
| Scanner.Exec | src/extension.ts:123 | what `exec` returns starts at or after `lastIndex`, lies inside the text and is non-empty |
| Scanner.ExecSound | src/extension.ts:123-124 | what `exec` returns is a match of the pattern, and its `match[1]` is the captured name |
| Scanner.Matches | src/extension.ts:123 | the specification of the loop's visits: `exec` from `lastIndex`, then again from the end of the match; `MatchesSound`, `MatchesOrdered` and `MatchesCover` state what it holds |
| Scanner.MatchesBound | src/extension.ts:123 | each visit consumes at least one character, so the loop visits at most one match per character after `lastIndex` |
| Scanner.ExecIsLeftmost | src/extension.ts:123 | `exec` finds a match whenever one exists at or after `lastIndex`, and no later than the first such offset |
| Scanner.MatchesUnfold | src/extension.ts:123 | one loop iteration: the visited matches are the first `exec` result, then those visited from its end |
| Scanner.MatchesChained | src/extension.ts:123 | every visited match is non-empty and starts at or after the end of the previous one |
| Scanner.MatchesFrom | src/extension.ts:123 | every visited match starts at or after the initial `lastIndex` |
| Scanner.MatchesSound | src/extension.ts:123-124 | every visited match is a match of the pattern with its name as capture |
| Scanner.MatchesOrdered | src/extension.ts:123 | visited matches come in text order and never overlap |
| Scanner.MatchesFirst | src/extension.ts:123 | the first visited match is the first `exec` result |
| Scanner.MatchesLater | src/extension.ts:123 | the later visited matches are those visited from the end of the first one |
| Scanner.MatchesCover | src/extension.ts:123 | no match is skipped: every offset where the pattern matches lies inside some visited match |
| Validator.ToDiagnostic | src/extension.ts:126-135 | the warning for one match; when the match is prefix, name and suffix, its span is exactly as long as the name |
| Validator.Report | src/extension.ts:124-137 | at most one warning per match; `ReportCorrespondence` and `ReportInScanOrder` state which ones and in what order |
| Validator.Validate | src/extension.ts:118-140 | the scan's result has at most one warning per visited match, so at most one per character of the text |
| Validator.MatchFlagged | src/extension.ts:124-135 | the warning built for an undeclared match covers exactly the name, carries the message, Warning severity and the code `{ value: name, target: uri }` |
| Validator.ReportCorrespondence | src/extension.ts:123-138 | a warning is reported iff some visited match has an undeclared name and the warning is that match's |
| Validator.ValidateCorrespondence | src/extension.ts:123-138 | the scan's warnings are exactly the warnings of the visited matches whose names are undeclared |
| Validator.ReportInScanOrder | src/extension.ts:123-138 | for non-overlapping matches, the warnings' spans are strictly ordered |
| Validator.ValidatedFlags | src/extension.ts:125 | every reported warning flags an undeclared reference in the text; the lookup is case-sensitive |
| Validator.ValidateFlagsUndeclared | src/extension.ts:154 | no reported warning names a declared variable, and each flags a reference in the text |
| Validator.ValidateInScanOrder | src/extension.ts:152-167 | the scan's warnings are in text order without overlap |
| Validator.ReportCons | src/extension.ts:125-137 | reporting a match list that starts with `m` pushes `m`'s warning exactly when its name is undeclared |
| Validator.ScanStep | src/extension.ts:123-137 | one iteration moves the next match's warning, if any, from the warnings still to report to the pushed ones |
| Validator.ScanDone | src/extension.ts:123 | when `exec` returns `null` every warning has been pushed |
| Validator.ScanDiagnostics | src/extension.ts:118-140 | the scan loop returns exactly `Validate`: one warning per undeclared visited match, in order |
| Validator.UpdateTsNodeDiagnostics | src/extension.ts:114-141 | the result is the `process.env` scan; each warning's span is `[index + 12, index + length)`, undeclared, flagged and in text order |
| Validator.UpdateGoDiagnostics | src/extension.ts:143-170 | the result is the `os.Getenv` scan; each warning's span is `[index + 11, index + length - 2)`, undeclared, flagged and in text order |
| EnvStore.KeySet | src/extension.ts:179-181 | a name is in a file's key set iff it is one of the file's parsed keys |
| EnvStore.DeclaredNames | src/extension.ts:172-185 | a name is declared iff some `.env*` file has it as a key |
| EnvStore.GetDefinedEnvVars | src/extension.ts:172-185 | the nested `add` loops build exactly the union of all files' keys |
| Publisher.LanguagePattern | src/extension.ts:99-110 | `go` selects the Go scan, `typescript` and `javascript` the TS scan, and nothing else selects a scan |
| Publisher.DocumentsToScan | src/extension.ts:92-94 | with a `docUri` only its document is scanned, otherwise every open text document |
| Publisher.DiagnosticCollection.constructor | src/extension.ts:5-6 | a new collection is empty |
| Publisher.DiagnosticCollection.Clear | src/extension.ts:88 | `clear` empties the collection |
| Publisher.DiagnosticCollection.Set | src/extension.ts:101 | `set` replaces one document's entry and leaves the others |
| Publisher.UpdateDiagnostics | src/extension.ts:84-112 | after clear-then-set over the documents, the collection is `Published` of the documents to scan with the declared names |
| Publisher.Scan | src/extension.ts:99-110 | a document gets a result exactly when its language is `go`, `typescript` or `javascript` |
| Publisher.Collect | src/extension.ts:96-111 | the map the loop leaves, the last document with a URI winning; a definition only, whose contract is `CollectStep`, `CollectKeys` and `CollectEntry` |
| Publisher.Published | src/extension.ts:96-111 | the collection after `updateDiagnostics`; a definition only, whose contract is `PublishedKeys`, `PublishedEntry`, `PublishedUndeclared` and `PublishedDistinct` |
| Publisher.CollectStep | src/extension.ts:96-111 | scanning one more document sets at most its own entry |
| Publisher.CollectKeys | src/extension.ts:96-111 | a URI has an entry iff some scanned document with that URI has a result |
| Publisher.CollectEntry | src/extension.ts:96-111 | each entry is the result of the last document with that URI that has one |
| Publisher.PublishedStep | src/extension.ts:96-111 | one loop iteration sets the document's entry to its language's scan, or leaves the collection alone |
| Publisher.PublishedKeys | src/extension.ts:99-110 | a URI has an entry iff some scanned document with it is in a supported language |
| Publisher.PublishedEntry | src/extension.ts:96-111 | each entry is the scan, in its language, of the last supported document with that URI |
| Publisher.PublishedUndeclared | src/extension.ts:96-111 | every published warning flags an undeclared reference in its own document |
| Publisher.PublishedDistinct | src/extension.ts:99-110 | with distinct URIs, a Go document's entry is its Go scan, a TS/JS document's its TS scan, and other documents have none |
| EnvFix.Includes | src/extension.ts:68 | `String.prototype.includes`; a definition only, whose contract is `IncludesIff` |
| EnvFix.PrefixOccurs | src/extension.ts:68 | being a prefix is occurring at offset 0 |
| EnvFix.OccursLater | src/extension.ts:68 | an occurrence past the first character is an occurrence in the rest |
| EnvFix.IncludesIff | src/extension.ts:68 | `includes` holds iff the searched text occurs at some offset |
| EnvFix.IncludesExtended | src/extension.ts:68-69 | appending to a text keeps what it includes |
| EnvFix.IncludesEnding | src/extension.ts:69 | a text that ends with `NAME=` includes it |
| EnvFix.AddDeclaration | src/extension.ts:66-73 | the old text is a prefix of the new; the new one contains `NAME=`; it is unchanged iff the old one contained `NAME=`, otherwise it is old + `"\n"` + `NAME=` |
| EnvFix.AddDeclarationIdempotent | src/extension.ts:68-69 | applying the rewrite twice equals applying it once |
| EnvFix.SelectEnvFile | src/extension.ts:43-63 | no file selects none, one file selects it, several select the picked one and none when the pick is dismissed |
| EnvFix.Fix | src/extension.ts:41-78 | a file that is kept or written is one of the `.env*` files, and a write only appends to its old text |
| EnvFix.Written | src/extension.ts:66-73 | only an append changes the texts, and only the selected file's; every other file keeps its text |
| EnvFix.FixCases | src/extension.ts:41-78 | no file is the error case, several files without a pick write nothing, otherwise only the selected file changes, to its rewrite |
| EnvFix.FixTwice | src/extension.ts:41-78 | running the command again with the same choice finds the name declared and writes nothing |
| EnvFix.TrimTrailing | src/extension.ts:75 | a definition only, whose contract is `TrimTrailingShape` |
| EnvFix.TrimTrailingShape | src/extension.ts:75 | trimming leaves a prefix of the path that does not end in `/`, and removes only `/` characters |
| EnvFix.LastSegmentSuffix | src/extension.ts:75 | the last segment is a suffix of the path |
| EnvFix.LastSegmentNoSeparator | src/extension.ts:75 | the last segment holds no `/` |
| EnvFix.LastSegmentAfterSeparator | src/extension.ts:75 | the last segment is the whole path or follows its last `/` |
| EnvFix.Basename | src/extension.ts:75 | `path.basename` on a POSIX path: the last segment once trailing `/` are dropped; a definition only, whose contract is the `Basename` lemmas below |
| EnvFix.BasenameNoSeparator | src/extension.ts:75 | `path.basename` holds no `/` |
| EnvFix.BasenameIgnoresTrailingSeparator | src/extension.ts:75 | a trailing `/` does not change `path.basename` |
| EnvFix.BasenameExamples | src/extension.ts:75 | `path.basename` of `/w/dir/` is `dir` and of `/` is empty |
| EnvFix.BasenameOfFile | src/extension.ts:75 | for a path not ending in `/`, `path.basename` is a suffix of it that is the whole path or follows a `/` |
| EnvFix.AddedMessage | src/extension.ts:74-76 | the text `Added NAME to <basename>`; a definition only, shown by `AddedNotification` |
| EnvFix.NotificationFor | src/extension.ts:43-77 | the command is silent exactly when the pick is dismissed or the name is already declared |
| EnvFix.AddedNotification | src/extension.ts:74-76 | an append shows the information `Added NAME to <basename>` |
| EnvFix.EnvFileSystem.constructor | src/extension.ts:66 | the file system starts with the given texts |
| EnvFix.AddEnvVar | src/extension.ts:38-80 | the command's outcome is `Fix`; only an append writes, to the selected file; the message is the error for no file, the information for an append, none otherwise |
| CodeActions.FixFor | src/extension.ts:204-212 | a fix is a quick fix running `live-env-validator.addEnvVar` with the variable name and the document |
| CodeActions.ProvideCodeActions | src/extension.ts:188-218 | the loop returns `Actions`: one fix per Warning diagnostic with a code, in order |
| CodeActions.Actions | src/extension.ts:196-214 | at most one fix per diagnostic |
| CodeActions.ActionsSingle | src/extension.ts:197-213 | one diagnostic gets its own fix when it is a Warning with a code, and none otherwise |
| CodeActions.ActionsAppend | src/extension.ts:196-214 | the fixes for two lists in turn are the first list's fixes, then the second's |
| CodeActions.ActionsIndexed | src/extension.ts:196-214 | the fixes are exactly those of the actionable diagnostics, each once, in the diagnostics' order |
| CodeActions.ActionsCorrespondence | src/extension.ts:196-214 | a fix is offered iff some diagnostic is a Warning with a code whose value is the fix's variable |
| CodeActions.ActionsOnePerWarning | src/extension.ts:196-214 | when every diagnostic is an actionable warning, there is exactly one fix per diagnostic, in order, for its own variable |
| CodeActions.ValidatedActions | src/extension.ts:196-214 | every warning a scan publishes gets exactly its fix, in order |
| Scenarios.GetDefinedEnvVarsTest | src/test/suite/extension.test.ts:31-36 | `.env` with `MY_VAR` and `.env.local` with `MY_OTHER_VAR` declare exactly those two names |
| Scenarios.UpdateTextMatches | src/extension.ts:122-123 | in `process.env.MY_VAR process.env.MY_THIRD_VAR` the loop visits both references, in order |
| Scenarios.UpdateDiagnosticsTest | src/test/suite/extension.test.ts:38-56 | that document gets exactly one warning, for `MY_THIRD_VAR`, with the test's message and span `[31, 43)` |
| Scenarios.GoWithoutEnvFiles | src/extension.ts:151-158 | `os.Getenv("DB_HOST")` with no `.env*` file gets one warning over `[11, 18)`, and the fix reports that no `.env` file exists |
| Scenarios.AlreadyDeclaredUnchanged | src/extension.ts:68 | a file holding `API_KEY=` is left as it is |
| Scenarios.DeclaredInsideLongerKey | src/extension.ts:68 | `OTHER_API_KEY=1` counts as declaring `API_KEY`, because the test is a substring test |
| Scenarios.AppendedOnNewLine | src/extension.ts:68-69 | adding `MY_THIRD_VAR` to `MY_VAR=123\n` appends `\nMY_THIRD_VAR=` |
| Scenarios.RepeatedNameNotDeduplicated | src/extension.ts:123-137 | the same undeclared name twice gives two warnings, `[12, 19)` and `[34, 41)`, in order |
| Scenarios.CaseInsensitiveSearchSensitiveLookup | src/extension.ts:122-125 | `PROCESS.ENV.my_var` is found, and `my_var` is reported although `MY_VAR` is declared |

## Left out

- The host API is not modelled: `activate`, `deactivate`, the event subscriptions, the registration of the command and of the code-action provider with its document selector, and the disposables. They are editor wiring, not logic.
- `findFiles`, `workspace.fs.readFile` and `writeFile` are not modelled as file I/O. The list of `.env*` files is an input, their texts are a map, and a write is a map update. A file that cannot be read is not modelled.
- `dotenv.parse` is not modelled. It is a foreign library whose grammar is not part of this model. Each file arrives as the keys dotenv returned for it, and only their union is modelled.
- `document.positionAt` is not modelled. It is the editor's conversion to line and column. Spans stay offsets, and one character of a `string` stands for one UTF-16 code unit of the document.
- The JavaScript regular-expression engine is replaced by the matcher in `Scanner`. `Scanner.MatchAtIsGreedyMatch` ties the matcher to what the two fixed patterns accept. Case folding covers ASCII letters only. That is exact for these patterns, whose characters are all ASCII.
- `showQuickPick` is modelled only as the index of the picked file, or none when dismissed. The items' labels and descriptions are not modelled.
- `showErrorMessage` and `showInformationMessage` are modelled only as the message the command returns.
- EnvFix.Basename: follows `path.basename` on POSIX, splitting on `/` and ignoring trailing `/`. Windows separators (`\` and drive letters) are not modelled.
- EnvFix.AddedMessage: the `file` argument stands for `selectedEnvFile.fsPath`, the decoded file-system path. The model works on the URI string as given, and URI parsing and percent-decoding are not modelled.
- EnvFix.AddDeclaration: a `.env` file is modelled as the text `content.toString()` decodes from its bytes, and the write as the text that `Buffer.from` encodes again. UTF-8 decoding, which replaces invalid bytes with U+FFFD, is not modelled. So "the old content is a prefix of the new" holds of the decoded text, not necessarily of the bytes on disk.
- The `documentUri` argument of the command is not modelled, because the command body never reads it.
- The range, the document's text and the cancellation token passed to `provideCodeActions` are not parameters, because the source does not read them.
- Codes that other extensions put on diagnostics, a string or a number, are not modelled. A code here is always the `{ value, target }` object the scanners set, so `diagnostic.code` is truthy exactly when it is present.
- `async`/`await` ordering is not modelled. Overlapping runs of `updateDiagnostics` and the race between reading and writing a `.env` file are out of scope.
- `openTextDocument(docUri)` is not modelled as a call. Its result is given as the document to scan.
