# lerna-dependency-checker, modelled in Dafny

`index.js` checks a monorepo. For every sub-package under `./packages` it
compares the `peerDependencies` of the sub-package's `package.json` with the
`devDependencies` of the root `package.json`. A name that the root does not
declare is a `NOT_FOUND` problem, except the names `Object.prototype`
provides (see "## Findings"). A version that is not exactly the root's is
a `VERSION_MISMATCH` problem. Each package's problems are printed. The process
exits with status 1 if any package had a problem.

The model covers every function of the script. The file system and `JSON.parse` are
replaced by inputs:

- the root manifest is a `ManifestFile`: missing, unreadable, or parsed;
- the listing of `./packages` is a sequence of `Entry` values, each with its
  manifest.

Printing is replaced by returned sequences of `Line` records. Exceptions and
`process.exit` are replaced by `Result` values and a `Termination`.

Modules:

- `Wrappers` (wrappers.dfy): `Option` and `Result`.
- `Text` (text.dfy): `trim` over a declared whitespace predicate, and `split`
  and `join` on one separator character.
- `Problems` (problems.dfy): version maps and `findProblems`.
- `Report` (report.dfy): `reportProblems`.
- `Workspace` (workspace.dfy): `readIgnorePackages`, `readBaseDependencies`,
  `inspectDependencies` and `run`.

A package's version map is a `seq<(string, string)>` in `Object.keys` order.
Parsed JSON has distinct keys (`DistinctKeys`); the lemmas that need this say
so. The root map is a `map<string, string>` built from the root's
`devDependencies` entries.

In three places the code itself shows an intent that its behaviour does not
meet. The model follows the behaviour:

- The guard `if (fs.statSync(filePath))` at index.js:74 reads as "skip a
  sub-package without a `package.json`". But `fs.statSync` throws on a missing
  file rather than returning a falsy value, and the call sits outside the
  `try`. So the model ends the scan with `ManifestMissing`.
- The message "not found in main package.json" at index.js:55 says that
  `NOT_FOUND` means "absent from the root". The code tests `!baseVersion`, so a
  root version `""` is also `NOT_FOUND`.
- The usage hint `--ignore pkg1,pkg2,pkg3` at index.js:13 names an ignore
  flag. The code never looks at the first argument (`IgnoreFlagUnchecked`).

## Model

| member | source | states |
|---|---|---|
| `Text.SkipLeading` | index.js:17 | Finds the first non-whitespace position at or after the start index, or the end of the string; everything skipped is whitespace |
| `Text.SkipTrailing` | index.js:17 | Finds the position just after the last non-whitespace character before the end index, without going below the lower bound; everything skipped is whitespace |
| `Text.Trim` | index.js:17 | `trim` gives a slice of the input with no whitespace at either end, and only whitespace lies outside that slice |
| `Text.TrimFixpoint` | index.js:17 | `trim` leaves a string unchanged exactly when the string has no whitespace at either end |
| `Text.TrimIdempotent` | index.js:17 | Trimming twice gives the same result as trimming once |
| `Text.Split` | index.js:17 | `split(',')` gives one more piece than there are commas, and no piece contains a comma |
| `Text.JoinSplit` | index.js:17 | Joining the pieces of a split with the separator gives back the original string |
| `Text.SplitJoin` | index.js:17 | Splitting the join of one or more separator-free pieces gives back those pieces |
| `Problems.Keys` | index.js:33 | `Object.keys(deps)`: one key per entry, in the entries' order |
| `Problems.KeysCount` | index.js:33 | For a parsed object (distinct keys), `Object.keys` lists each property once: there are as many keys as lookup-table entries |
| `Problems.ToMap` | index.js:24-25 | Turning an object's entries into a lookup table defines exactly the object's keys; with distinct keys, each key maps to its own value |
| `Problems.Get` | index.js:61 | `deps[name]` is defined exactly for the declared names; with distinct keys it is that entry's version |
| `Problems.Judge` | index.js:34-44 | The record type for one dependency is `OK` exactly when the root's own version is non-empty and equal to the package's; `NOT_FOUND` exactly when the lookup finds nothing or `""`; a name the root lacks but the prototype provides is `VERSION_MISMATCH` |
| `Problems.FindProblemsIn` | index.js:32-46 | The problem list is no longer than the package map, never holds an `OK` record, and is empty exactly when every entry is judged `OK` |
| `Problems.FindProblemsAsWritten` | index.js:32-46 | `findProblems` with the plain property read; it has no `OK` record and is empty exactly when every entry has an equal, non-empty root version |
| `Problems.FindProblems` | index.js:32-46 | `findProblems` with an own-property read; it has no `OK` record and is empty exactly when every entry has an equal, non-empty root version, so an empty package map gives no problems |
| `Problems.JudgeReadings` | index.js:36-43 | For one entry the two lookups agree on whether it is `OK`, and give different types only for a name the root lacks and `Object.prototype` provides |
| `Problems.AsWrittenRecords` | index.js:32-46 | The two readings give records for the same dependencies in the same order; their types differ exactly for names the root lacks and `Object.prototype` provides |
| `Problems.AsWrittenSameNames` | index.js:32-46 | Both readings report the same names, so the flag `reportProblems` returns and the exit status are the same under both |
| `Problems.ConstructorMisreported` | index.js:36-42 | As written, an undeclared peer dependency named `constructor` is reported as `VERSION_MISMATCH`; the corrected lookup reports `NOT_FOUND` |
| `Problems.FindProblemsMember` | index.js:33-45 | A record is in the result exactly when it is not `OK` and some package entry with that name gets that record type |
| `Problems.FindProblemsNotFound` | index.js:35-39 | `{NOT_FOUND, d}` appears exactly when `d` is a package key and the root lacks `d` or gives it the falsy version `""` |
| `Problems.FindProblemsVersionMismatch` | index.js:40-42 | `{VERSION_MISMATCH, d}` appears exactly when the root's version of `d` is present, non-empty and different from the package's version |
| `Problems.FindProblemsSkipsMatches` | index.js:43-45 | With distinct keys, a dependency whose version equals the root's non-empty version has no entry in the result |
| `Problems.FindProblemsOrdered` | index.js:33-45 | The reported names form an order-preserving subsequence of the package map's keys |
| `Problems.FindProblemsAtMostOnce` | index.js:33-45 | With distinct keys, no name is reported twice |
| `Report.ReportProblems` | index.js:48-67 | Returns true exactly when `findProblems` is non-empty, and prints exactly the lines of `ReportLines` |
| `Report.PrintProblems` | index.js:52-64 | The `forEach` loop prints exactly `LinesOf` the problem list: one line per record of a known type, in order |
| `Report.LinesOfOnePerProblem` | index.js:52-64 | When no record is `OK`, the loop prints exactly one line per record, in order |
| `Report.ReportShape` | index.js:49-66 | Nothing is printed when there is no problem; otherwise a header naming the package, then one line per problem in order: a not-found line or a mismatch line |
| `Report.MismatchVersions` | index.js:40-42 | With distinct keys, a mismatch record's dependency has a non-empty root version, and the package declares a different version for it |
| `Report.ReportMismatchVersions` | index.js:57-62 | A mismatch line shows the root's non-empty version as the required version and the package's own, different version as the declared version |
| `Workspace.ReadIgnorePackages` | index.js:10-20 | Fails with `InvalidArguments` exactly when given 1 argument or more than 2; zero arguments give an empty ignore list |
| `Workspace.IgnoreListNames` | index.js:16-17 | With two arguments, the list has one name per comma-separated piece of the second argument, that is one more than the number of commas; each name is the trimmed piece, with no comma and no whitespace at either end |
| `Workspace.IgnoreFlagUnchecked` | index.js:16-17 | The first of the two arguments does not affect the result |
| `Workspace.BaseDependencies` | index.js:22-30 | An unparsed root manifest is `RootManifestUnreadable`; a missing `devDependencies` gives the empty map; otherwise the map has exactly the declared names and their versions |
| `Workspace.TrimAll` | index.js:17 | One trimmed name per token, in order, each without whitespace at either end |
| `Workspace.Visible` | index.js:72 | The filtered listing holds exactly the entries whose name is not in the ignore list, in the listing's order |
| `Workspace.FailureStops` | index.js:88-91 | Once a package has failed, the packages after it change neither the result nor the output |
| `Workspace.InspectPackage` | index.js:73-92 | The loop body for one package matches `PackageStep`: a missing manifest is `ManifestMissing`, an unusable one is `CannotProcess`, a manifest without `peerDependencies` adds nothing, and any other is reported |
| `Workspace.PackageStepResult` | index.js:73-92 | One package fails exactly when its manifest is unusable; otherwise its flag is true exactly when its peer dependencies give problems |
| `Workspace.InspectOneMore` | index.js:72-93 | After a prefix that has not failed, scanning one more package combines the prefix's result and output with that package's |
| `Workspace.InspectDependencies` | index.js:69-95 | The loop with its mutable `anyProblem` flag yields the result and output of `InspectAll` over the packages that are not ignored |
| `Workspace.InspectAllFails` | index.js:70-94 | The scan fails exactly when some package's manifest is missing or unusable |
| `Workspace.InspectAllFindsProblems` | index.js:70-94 | A scan that does not fail returns true exactly when some package has a problem |
| `Workspace.InspectAllFirstError` | index.js:72-93 | A failing scan carries the error of the first package with an unusable manifest |
| `Workspace.InspectWorkspace` | index.js:70-94 | Over the raw listing: failure exactly when a non-ignored directory has an unusable manifest; otherwise true exactly when a non-ignored directory's peer dependencies give problems |
| `Workspace.IgnoredNeverRead` | index.js:72 | Changing the manifests of ignored directories changes nothing, even if they are malformed |
| `Workspace.ExitStatus` | index.js:102-107 | The status is non-zero exactly when a problem was found |
| `Workspace.Run` | index.js:97-108 | Produces exactly `RunOutcome`: the arguments, then the root manifest, then the scan, then the exit status and the summary line |
| `Workspace.RunExitStatus` | index.js:97-108 | Exit status 1 exactly when the arguments and the root are valid, no non-ignored manifest is unusable, and some non-ignored package has a problem; status 0 exactly when none has a problem |
| `Workspace.RunFailsEarly` | index.js:97-99 | Bad arguments fail before any file matters; an unreadable root manifest fails before the package listing matters |

## Findings

| source | as written | input that shows it | evidently intended | confidence | as-written member | corrected member |
|---|---|---|---|---|---|---|
| index.js:36-37 | `baseDeps[dep]` is a plain property read, so it also finds members inherited from `Object.prototype` | root `devDependencies` `{}`, package `peerDependencies` `{"constructor": "1.0.0"}`: the inherited `Object` function is truthy and differs from `"1.0.0"`, giving `VERSION_MISMATCH` with the constructor's source text as the "required version" | `NOT_FOUND`, since the root does not declare `constructor` | high; not executed | `Problems.ConstructorMisreported` | `Problems.FindProblemsNotFound` |

`Problems.FindProblemsAsWritten` models the lookup as written, using the
inherited names in `Problems.ObjectPrototype`. `Problems.FindProblems` looks
only at the root's own entries, and the rest of the model uses it.
`Problems.AsWrittenRecords` shows that the two readings differ only in the
type of records for inherited names.

## Left out

- File system calls (`fs.readdirSync`, `fs.statSync`, `fs.readFileSync`) and `JSON.parse`. They are foreign I/O and a parser. The model takes the listing and each parsed manifest, or a failure marker, as input.
- Kinds of `fs.statSync` failure. Any failure, such as a listing entry that is a plain file, is `Missing`, which gives `ManifestMissing`.
- A manifest that parses to `null`. Reading `peerDependencies` on it throws inside the `try`. The model folds this into `Unreadable`, which gives `CannotProcess`.
- `devDependencies` or `peerDependencies` values that are truthy but not objects (strings, arrays, numbers), and version values that are not strings. In the model a field is either absent or falsy (`None`), or an object from names to string versions.
- How `Object.keys` orders integer-like names. The version map sequence is taken to be in `Object.keys` order already.
- The exact wording of printed messages. Lines are records; the header names the package and each problem line carries its data.
- The `console.log(error)` and `console.error(error)` diagnostics written before an exception is rethrown.
- `process.exit` and uncaught exceptions. A run ends in `Exit(status)` or `Fatal(error)`.
- The unused `folder` parameter of `inspectDependencies`. The code always lists `./packages`.
- JavaScript strings are UTF-16 code units, while Dafny's `char` is a Unicode scalar value, so lone surrogates are not represented. Every character that `trim` removes is a single code unit, so `Trim` is unaffected.
- The whitespace predicate `IsWhitespace` lists the Unicode space separators (category Zs) of current Unicode versions. An engine built on an older Unicode table could differ.
- `Report.ReportProblems` (and so `Workspace.PackageStep`, `Workspace.InspectDependencies` and `Workspace.Run`) prints the lines of the corrected lookup. For a name the root lacks and `Object.prototype` provides (`constructor`, `toString`, ...), the code as written prints a mismatch line whose required version is the inherited member converted to a string, where the model prints a not-found line. The returned flag and the exit status are the same under both readings (`Problems.AsWrittenSameNames`).
- A failing directory listing. `fs.readdirSync('./packages')` at index.js:71 throws outside any `try` when `./packages` cannot be listed; the model takes the listing as an input that always exists.
