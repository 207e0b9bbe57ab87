# A verified model of the decision logic of a project-scaffolding CLI

The CLI creates a new front-end project in a directory. Around its
filesystem and process calls sit four pieces of decision logic, which this
project models in Dafny and proves properties of:

- **The directory check** (`isSafeToCreateProject`). A directory is safe
  when it holds nothing but `.git` and `.gitignore`. Every other entry is
  reported as a conflict, in listing order. This is module `CreateApp` in
  `create_app.dfy`.
- **The eject rewrite** inside `init`. A file that mentions
  `// @remove-file-on-eject` is not copied. Every other file is written
  with each `// @remove-on-eject-begin … // @remove-on-eject-end` span cut
  out by one global, non-greedy regular-expression replacement. This is
  module `Eject` in `eject.dfy`. It uses the literal-search functions of
  `Text` in `text.dfy`.
- **The `package.json` update** inside `init`:
  - `dependencies` defaults to `{}`, and `browserslist` and `eslintConfig`
    take fixed values;
  - the tool's own dependencies are merged in, an own entry winning unless
    its `optionalDependencies` entry is truthy;
  - the dependencies object is rebuilt with its keys in the order of
    JavaScript's default `sort()`;
  - `scripts`, `babel` and `eslintConfig` are stamped in.

  This is module `PackageManifest` in `package_json.dfy`. JSON values and
  JavaScript objects are in `Json` (`json.dfy`). An object is an ordered
  dictionary: its key list in insertion order beside a map. The sort order
  and a sort are in `StringOrder` (`string_order.dfy`).
- **`verifyTypeScriptSetup`**. A fixed table of twelve compiler options is
  reconciled with a project's `tsconfig.json`:
  - suggested options are set only when the compiler resolves no value;
  - required options are forced when the resolved value differs;
  - `include` and `exclude` get defaults when none resolve;
  - each change adds one message, and the file is written only when there
    is at least one message;
  - the bundled declaration file is copied with its first marker line
    removed.

  This is module `TypeScriptSetup` in `typescript_setup.dfy`. The compiler
  is not modelled: the options, `include` and `exclude` it resolves from
  the document are inputs. Its enum values (`ts.ScriptTarget.ES5` and the
  like) are opaque `Token`s.

The code that mutates objects step by step is modelled as methods with
loops over local dictionaries:

- the merge `forEach`, proved against the fold `MergeInto`;
- the refill of the sorted dependencies;
- the option-table loop, proved against the folds `PolicyOptions` and
  `PolicyMessages`;
- the eject `forEach` over the files, proved against the fold `Ejected`.

The filter and the regular-expression replacements are functions.

## Model

| member | source | states |
|---|---|---|
| CreateApp.ConflictingFiles | index.js:33-39 | an entry is reported iff it is in the listing and is neither `.git` nor `.gitignore`; never more entries than the listing |
| CreateApp.IsSafeToCreateProject | index.js:32-52 | true iff every entry of the listing is `.git` or `.gitignore`, iff the conflict list is empty |
| CreateApp.ConflictingFilesAppend | index.js:38-39 | the filter works entry by entry: the conflicts of `a + b` are the conflicts of `a` followed by those of `b` |
| CreateApp.ConflictingFilesInOrder | index.js:38-39 | the conflicts appear in listing order (a subsequence of the listing) |
| CreateApp.ConflictingFilesCount | index.js:38-39 | conflicts plus allowed entries account for every entry of the listing exactly once |
| Text.IndexOf | index.js:198 | the leftmost occurrence at or after `from`, or -1 exactly when there is none |
| Text.Includes | index.js:198 | a regular expression made of one literal matches iff the literal occurs somewhere |
| Eject.ShouldSkip | index.js:198 | a file is skipped iff its content contains `// @remove-file-on-eject` anywhere |
| Eject.StripUnchangedIff | index.js:199-202 | the strip leaves the text unchanged iff no begin marker is followed by an end marker |
| Eject.StripWithoutBegin | index.js:199-202 | text without a begin marker is returned unchanged |
| Eject.StripUnmatchedBegin | index.js:199-202 | when the first begin marker has no end marker after it, the text is returned unchanged |
| Eject.StripFirstBlock | index.js:200 | the first deleted span runs from the first begin marker to the first end marker after it, both included; the text before it is kept and the scan resumes after it |
| Eject.StripNoLonger | index.js:200 | the result is never longer than the input |
| Eject.StripKeepsPrefix | index.js:200 | text before the first begin marker is kept as it is |
| Eject.StripKeepsLines | index.js:200 | whole lines without a begin marker in front of the rest are kept |
| Eject.StripLeadingBlock | index.js:200 | a block at the front is removed with both markers and nothing else |
| Eject.StripRemovesBlock | index.js:200 | a block after marker-free lines is removed; the lines before it are kept |
| Eject.StripBlockOnOwnLines | index.js:200 | a block on its own lines leaves its surrounding newlines in place |
| Eject.StripKeepsOrder | index.js:200 | the kept text is a subsequence of the input: text outside the spans keeps its order |
| Eject.StripIdempotentWhenNoBeginLeft | index.js:200 | stripping again changes nothing when no begin marker is left |
| Eject.StripIdempotentIff | index.js:200 | stripping again changes nothing exactly when the first strip left no complete block |
| Eject.StripSplice | index.js:200 | deleting a span can splice the text around it into a new complete block |
| Eject.StripBareBlock | index.js:200 | a lone begin-end pair strips to the empty text |
| Eject.StripNotIdempotent | index.js:200 | a concrete text whose strip still holds a block, so that a second strip changes it again |
| Eject.WrittenPathsMembers | index.js:195-198 | a path is written iff some file without the remove-file marker has it |
| Eject.EjectedKeys | index.js:195-206 | the destination afterwards holds its old paths and the paths of the unmarked files |
| Eject.EjectedUntouched | index.js:195-206 | a path that no unmarked file has keeps its old text |
| Eject.EjectedWritten | index.js:195-206 | every unmarked file ends up written, stripped of its blocks |
| Eject.EjectFiles | index.js:195-206 | the loop yields the fold `Ejected`: unmarked files are written stripped, marked files never are, other paths are untouched |
| Json.Dict.Put | index.js:221 | an assignment keeps an existing key in its place and appends a new key; the object stays well formed |
| Json.Dict.Get | index.js:217 | on a well-formed object, a key reads as defined exactly when it is one of the object's own keys, and then gives its value (inherited properties are not modelled) |
| StringOrder.BelowIrreflexive | index.js:229 | no string sorts before itself |
| StringOrder.BelowTransitive | index.js:229 | the sort order is transitive |
| StringOrder.BelowTotal | index.js:229 | of two different strings, one sorts before the other |
| StringOrder.Insert | index.js:229 | inserting into a sorted list gives a sorted list with one more occurrence of the element |
| StringOrder.SortStrings | index.js:228-229 | the sorted keys are sorted and a permutation of the input |
| StringOrder.SortDistinct | index.js:228-229 | sorting distinct keys gives a strictly ascending list with the same members |
| StringOrder.StrictlyIncreasingUnique | index.js:228-232 | two strictly ascending lists with the same members are equal |
| PackageManifest.ObjectOrEmpty | index.js:126 | the field defaulted to `{}`: a falsy field reads as an empty object, a truthy object reads as itself, and exactly those two cases have an object reading |
| PackageManifest.MergedEntries | index.js:216-222 | after the merge, an unflagged own key maps to the own value; an existing key that is not overridden keeps its value; a flagged key is never added |
| PackageManifest.AddedKeysMembers | index.js:216-222 | the keys the merge appends are exactly the unflagged own keys that were missing, in own order |
| PackageManifest.MergeIntoValues | index.js:216-222 | after visiting some own keys, the entries are those keys merged over the existing ones |
| PackageManifest.MergeIntoKeys | index.js:216-222 | existing keys keep their places and the newly added keys follow, in visiting order |
| PackageManifest.MergeOwnDependencies | index.js:216-222 | the loop's result has the merged entries, with existing keys first and added keys after them |
| PackageManifest.SortDependencies | index.js:224-232 | the rebuilt dependencies have the same key set and values, with keys strictly ascending |
| PackageManifest.Refill | index.js:226-232 | refilling `{}` in a given key order yields exactly that key order and the old values |
| PackageManifest.SortedDependenciesUnique | index.js:224-232 | two key-sorted objects with the same entries are equal, so re-sorting changes nothing |
| PackageManifest.MergeExample | index.js:216-222 | merging own `typescript` and flagged `eslint` into `react` adds `typescript` only |
| PackageManifest.SetDefaultFields | index.js:126-130 | `dependencies` defaults to `{}`, `browserslist` and `eslintConfig` take their constants, and missing fields are appended in that order |
| PackageManifest.StampPolicyFields | index.js:226-252 | the sorted dependencies, `scripts`, `babel` and `eslintConfig` are assigned; only `scripts` and `babel` can be new keys |
| PackageManifest.StampedFields | index.js:126-252 | the fixed fields end with their constants and every non-policy field keeps its value |
| PackageManifest.UpdateAppPackage | index.js:122-257 | whole manifest update: the dependencies are the merged entries in ascending key order, the four policy fields equal their constants, other fields are unchanged, and new fields are appended in first-assignment order |
| TypeScriptSetup.ApplyCompilerOptionPolicy | scripts/utils/verifyTypeScriptSetup.js:157-180 | the loop yields the folds `PolicyOptions` and `PolicyMessages` |
| TypeScriptSetup.PolicyMessagesEmpty | scripts/utils/verifyTypeScriptSetup.js:157-180 | the report is empty iff no row fires |
| TypeScriptSetup.PolicyMessagesCount | scripts/utils/verifyTypeScriptSetup.js:157-180 | never more messages than rows; every message is the report of a row that fires |
| TypeScriptSetup.PolicyMessagesFiring | scripts/utils/verifyTypeScriptSetup.js:157-180 | the report has as many messages as there are rows that fire |
| TypeScriptSetup.PolicyMessagesOnce | scripts/utils/verifyTypeScriptSetup.js:157-180 | with one row per option, a row's message occurs in the report exactly once when the row fires and not at all otherwise |
| TypeScriptSetup.PolicyMessagesAllFire | scripts/utils/verifyTypeScriptSetup.js:157-180 | when every row fires, the report lists every row in table order |
| TypeScriptSetup.PolicyOptionsRow | scripts/utils/verifyTypeScriptSetup.js:157-180 | a row's option ends with the row's value when the row fires and keeps its old entry otherwise |
| TypeScriptSetup.PolicyOptionsOther | scripts/utils/verifyTypeScriptSetup.js:157-180 | options that no row names are left as they were |
| TypeScriptSetup.PolicyOptionsDistinct | scripts/utils/verifyTypeScriptSetup.js:64-97 | the twelve rows name twelve different options |
| TypeScriptSetup.PolicyResult | scripts/utils/verifyTypeScriptSetup.js:157-180 | with the real table: a suggestion is written iff the option does not resolve, so a value the user set is never overwritten; a required value is written iff the resolved value differs from `parsedValue`, or from `value` when there is no `parsedValue` |
| TypeScriptSetup.FreshConfiguration | scripts/utils/verifyTypeScriptSetup.js:157-180 | with nothing resolved, every option receives its row's value and the report names all twelve rows |
| TypeScriptSetup.InstallCompilerOptions | scripts/utils/verifyTypeScriptSetup.js:152-155 | `compilerOptions` holds the filled-in object and keeps its place, or is appended when missing; other entries are unchanged |
| TypeScriptSetup.SetDefault | scripts/utils/verifyTypeScriptSetup.js:183-192 | the default is written iff the resolved value is `null` or `undefined`; nothing else changes |
| TypeScriptSetup.VerifyTypeScriptSetup | scripts/utils/verifyTypeScriptSetup.js:16-235 | returns early iff there is no `tsconfig.json` and the entry is not `.ts`/`.tsx`; `firstTimeSetup` iff there was no file or `compilerOptions` was `null`/`undefined`; only `compilerOptions`, `include` and `exclude` change; the policy messages come first and then the two default messages; written iff there are messages; the declaration copy loses its first marker line |
| TypeScriptSetup.NoWriteWhenCompliant | scripts/utils/verifyTypeScriptSetup.js:194-218 | no messages, and so no write, iff no row fires and both `include` and `exclude` resolve |
| TypeScriptSetup.MarkerLineLength | scripts/utils/verifyTypeScriptSetup.js:230 | the match at a position is empty, or the marker followed by one or two more characters |
| TypeScriptSetup.MarkerLineMatch | scripts/utils/verifyTypeScriptSetup.js:230 | a marker line matches exactly where the marker is followed by `\n` or `\r\n`; the match ends with the `\n` and takes the `\r` whenever there is one |
| TypeScriptSetup.FindMarkerLine | scripts/utils/verifyTypeScriptSetup.js:230 | the first position where a marker line starts, or -1 exactly when there is none |
| TypeScriptSetup.StripMarkerLineUnchanged | scripts/utils/verifyTypeScriptSetup.js:228-230 | the declaration text is unchanged iff it holds no marker line |
| TypeScriptSetup.StripMarkerLineFirst | scripts/utils/verifyTypeScriptSetup.js:228-230 | only the first marker line is removed, with its line break; the text before and after it is kept |
| TypeScriptSetup.StripDeclarationHeader | scripts/utils/verifyTypeScriptSetup.js:228-230 | a declaration file that starts with the marker line loses exactly that line |

## Left out

- Console output, `chalk` colouring and command-line parsing are left out: they are I/O. Messages are a datatype, not text.
- The filesystem is not modelled: `readdirSync`, `lstatSync`, directory creation, template copying, the file writes and reading manifests back through `require`. Directory listings, file contents and manifests are parameters, and the destination tree is a map from path to text.
- Spawning the package manager and detecting `yarn` are left out because they are child processes.
- Resolving and loading `typescript`, `ts.readConfigFile`, `ts.parseJsonConfigFileContent`, `immer` and the fatal exits are left out. They are foreign code; their results are the inputs `existing` and `resolved`.
- The gitignore move and append is left out: it is control flow on filesystem error codes.
- The platform check is left out: it tests a misspelled platform name and calls an undefined function.
- Eject.EjectFiles: requires distinct source paths. The files come from directory listings, which never repeat a name.
- PackageManifest.MergeOwnDependencies: requires `optionalDependencies` to be neither `undefined` nor `null` when there are own dependencies. Otherwise `ownPackage.optionalDependencies[key]` throws, and that exception path is not modelled.
- PackageManifest.SetDefaultFields: requires the app's `dependencies` to be missing, falsy or an object. A truthy string or array is kept by the code without an error, and that case is not modelled.
- PackageManifest.UpdateAppPackage: requires both `dependencies` fields to be missing, falsy or objects. A truthy non-object would be indexed as if it were an object, and that is not modelled.
- PackageManifest.Flagged: only own properties of `optionalDependencies` are read. A name that objects inherit, such as `constructor`, reads as truthy in JavaScript and would make the own entry be skipped; the model adds that entry.
- PackageManifest.Flagged: reading a key of a non-object `optionalDependencies` gives `undefined`. Indexed or `length` properties of a string value are not modelled.
- Json.Dict.Get: reads own properties only; properties inherited from `Object.prototype` are not modelled.
- Json.Value: numbers are integers. Non-integer JSON numbers are not modelled; no modelled decision depends on one.
- StringOrder.Below: compares characters, while JavaScript compares UTF-16 code units. The two orders differ only for characters outside the Basic Multilingual Plane.
- Json.Dict.Put: does not model the ordering JavaScript gives to integer-like keys.
- TypeScriptSetup.VerifyTypeScriptSetup: states every entry of the rewritten document but not the order of its top-level keys.
- TypeScriptSetup.VerifyTypeScriptSetup: requires `compilerOptions` to be missing, `null` or an object. Assigning into a non-object value is not modelled.
- TypeScriptSetup.VerifyTypeScriptSetup: the message text is not modelled. Nor is the choice between the "populated with default values" notice (first-time setup) and the list of changes. Both depend only on the recorded `firstTimeSetup` and `messages`.
- Errors reading the declaration file are not modelled; its contents are a parameter.

## Behaviour worth noting

- The eject strip is one global replacement, and it is not idempotent. Deleting a span can splice the text on either side into a new complete block (`Eject.StripSplice`, `Eject.StripNotIdempotent`). Stripping twice is the same as stripping once exactly when the first strip leaves no complete block (`Eject.StripIdempotentIff`); in particular when it leaves no begin marker (`Eject.StripIdempotentWhenNoBeginLeft`).
- The merge iterates the keys of the own `dependencies` object. It does not iterate the own manifest as a whole.
- `target` is a suggested option with a `parsedValue`. The `parsedValue` is never consulted, because suggestions only test whether the option resolves at all.
- `firstTimeSetup` is also set when `compilerOptions` is present but `null`, because the test is `== null`.
