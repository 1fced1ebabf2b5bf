# npm-package-repro, modelled in Dafny

npm-package-repro checks whether a package published to the npm registry can be rebuilt from its
git repository. It resolves a package identifier (`name` or `name@version`) against the registry,
clones or fetches the repository, and checks out the commit the package was published from
(`gitHead`, else the tag `v<version>`, else `<version>`). It then runs the install and build
scripts the manifest declares, forces the manifest's version, runs `npm pack`, and compares the
result with the published archive. The checksum is compared first; failing that, the two trees
are diffed file by file, and the check passes when only `.npmignore` and Markdown files differ.
Results are stored as JSON under `.tmp/results/`. A small HTTP server answers result requests and
dependency-list requests. It keeps track of jobs in flight and holds two size-bounded LRU caches.

The model covers:

* the identifier syntax (`parsePackageIdentifier`) and the registry lookup
  (`getPackageDetails`, `resolvePackageIdentifier`);
* the paths under `.tmp/`;
* revision selection, build planning and the manifest version override;
* the comparison step;
* `processPackage`. The run is one specification function (`Pipeline.Run`), parameterised by
  which copy of the source builds the paths. A step-by-step method (`Pipeline.Verify`) follows the
  code and is proved to compute it;
* `getPackageResultIfExists` and `processPackageIfNeeded`, over a results directory that is a
  class with a `map` field;
* `getPackageDependencies`: the tree output parsed, deduplicated and sorted;
* the older synchronous copy in `src/main.js`, with its own result shapes and its own
  dependency list;
* the bookkeeping of `server/server.js`, as a sequential state machine (class `Coordinator`)
  over `pendingJobs`, `resultsCache` (capacity 1000), `dependenciesCache` (capacity 100) and the
  `statuses` loop. A job is a number; the settled state of its promise is kept in `rejected`,
  which maps each job that rejected to its error.

The outside world is a parameter. The `Env` value gives, for every external command, the error it
throws and what it prints, plus the `existsSync` flags and the parsed manifest. The `ViewOutput`
value is what `npm view --json` printed. The `ToolOutput` value is what `npm-remote-ls` printed.
The comparator of `localeCompare` is a parameter `leq`, assumed to be a total order where sorting
is reasoned about.

Where the code and the written description of the system differ, the model follows the code:

* A lone `"@"` (or any string made only of `@`) does not match the identifier expression, so it
  has no name, not an empty one (`Identifier.NoMatchIffOnlyAts`, `Identifier.LoneAtHasNoName`).
* When a job rejects, the server never removes its `pendingJobs` entry, so every later request for
  that identifier awaits the rejected job again and gets its error, and no new job is started for
  it (`Server.Coordinator.RunJob`, `Server.Coordinator.RequestResults`).
* A result file is named after the identifier with its first `/` replaced by `_`, so two distinct
  scoped packages such as `@s_t/b` and `@s/t_b` share one result file
  (`Layout.ResultPathCollision`).
* The older copy's packed-archive name drops the scoped-name rewrite (see Findings).

## Model

| member | source | states |
|---|---|---|
| Identifier.Parse | src/lib.js:337-340 | a match exists exactly when some position starts an optional `@` followed by a non-`@`; the name found never has an `@` after its first character and the version never crosses a line break |
| Identifier.ParseWholeInput | src/lib.js:337-340 | on one line that begins with a match, the input is the name alone with an empty version, or name, `@`, version; the name begins with `@` exactly when the input does |
| Identifier.ParseFormat | src/lib.js:337-340 | round trip: `name@version`, with a well-formed name and a one-line version, parses back to the same name and version |
| Identifier.ParseBareName | src/lib.js:337-340 | a well-formed name alone parses to itself with an empty version |
| Identifier.NoMatchIffOnlyAts | src/lib.js:337-340 | the expression fails to match exactly when the input is empty or consists only of `@` |
| Identifier.LoneAtHasNoName | src/lib.js:337-340 | `"@"` yields no name at all, and `"@@a"` yields the name `@a` with no version |
| Identifier.RequireVersion | src/lib.js:78-80 | succeeds exactly when the parsed version is non-empty, with that parse; otherwise fails with `expected version in packageIdentifier: <id>` |
| Registry.GetPackageDetails | src/lib.js:29-39 | fails exactly when standard error mentions `is not in this registry` or standard output is empty, with `<id> is not in the npm registry`; otherwise gives the parsed details |
| Registry.Resolve | src/lib.js:45-52 | an identifier with a version is returned unchanged; otherwise the registry's `name@version`, or the registry error |
| Registry.ResolveIdempotent | src/lib.js:45-52 | when the registry's name and version survive formatting, a resolved identifier has a version, and resolving it again gives the same result whatever the registry answers then |
| Layout.PackedFileNameMatchesNpm | src/lib.js:259 | for every well-formed registry name, plain or `@scope/name`, the archive name the current copy expects equals the file `npm pack` writes |
| Layout.ScopedNameRewrite | src/lib.js:259 | replacing the first `/` by `-` and then the first `@` by nothing turns `@s/b` into `s-b` |
| Layout.LegacyPackedFileNameMissesScoped | src/main.js:190 | for every scoped name the older copy expects a file other than the one `npm pack` writes |
| Layout.ResultPathsAgree | src/main.js:50 | the current copy (src/lib.js:82) and the older copy store the result of `name@version` in the same file exactly when the name holds a `/` or the version holds none |
| Layout.ResultFileInjective | src/lib.js:82 | the `.tmp/results/<stem>.json` naming is injective in the stem: two stems give one file exactly when they are equal |
| Layout.ScopedResultStem | src/lib.js:82 | the result file of `@<scope>/<name>@<version>` is named `@<scope>_<name>@<version>` |
| Layout.ResultPathCollision | src/lib.js:82 | two distinct well-formed scoped packages `@s_t/b` and `@s/t_b` of one version share one result file |
| Layout.ReplaceSlashInIdentifier | src/lib.js:82 | the first `/` of `name@version` is the name's when it has one, otherwise the version's |
| Revisions.Candidates | src/lib.js:166-168 | the candidates are `gitHead` when truthy, then `v<version>`, then `<version>`, and nothing else |
| Revisions.SelectRevision | src/lib.js:170-176 | the loop's commit is the first candidate that exists, and the probes run are one `git rev-parse` per candidate up to and including it |
| Revisions.SelectionIsFirstExisting | src/lib.js:170-176 | an existing truthy `gitHead` is always chosen; nothing is selected exactly when no candidate exists; a selection is always a candidate |
| Revisions.WarningRule | src/lib.js:178-180 | with a truthy `gitHead` the "unreachable git commit" warning is issued exactly when that commit does not exist; with no `gitHead` exactly when a tag was found |
| Revisions.ProbeCount | src/lib.js:170-176 | no more probes than candidates are run; when a candidate exists the last one probed is the selected commit, which exists; otherwise every candidate is probed |
| Build.ManagerFor | src/lib.js:164 | yarn is used exactly when `yarn.lock` exists |
| Build.AnyDeclared | src/lib.js:213 | `some` over script names holds exactly when one of them is declared with non-empty text |
| Build.FirstDeclared | src/lib.js:237 | `find` gives the first declared name, and nothing exactly when none is declared |
| Build.PlanBuild | src/lib.js:213-248 | lifecycle install exactly when one of the four lifecycle scripts is declared, with `prepublishOnly` run exactly when declared; otherwise the fallback exactly when `build` or `build-all` is declared, `build` preferred; the manager is the one `yarn.lock` selects |
| Build.SetVersion | src/lib.js:252-254 | the manifest gains or keeps the key `version` holding the published version, and every other key is kept unchanged |
| Build.SetVersionIdempotent | src/lib.js:252-254 | setting the version twice is setting it once, and a manifest already holding it is left unchanged |
| Compare.NonEmpty | src/lib.js:290 | `filter(Boolean)` keeps every non-empty line, drops every empty one, and never adds one |
| Compare.NonEmptyAppend | src/lib.js:290 | the filter works line by line and keeps order and multiplicity: filtering a concatenation concatenates the filtered parts |
| Compare.NonEmptyLine | src/lib.js:290 | a single line is kept exactly when it is non-empty |
| Compare.FilesOfLines | src/lib.js:291 | one file per line, in order, with the package directory prefix removed, exactly when every line holds a space; otherwise the `TypeError` of `undefined.replace` |
| Compare.QuietDiffLineNamesFile | src/lib.js:291 | a `Files <packageDir>/<file> and ... differ` line names `<file>` |
| Compare.DiffCommands | src/lib.js:294-298 | one `diff -uNw` of the rebuilt and published copies per listed file, in order |
| Compare.FileDiffs | src/lib.js:293-300 | the `diffs` array holds, per listed file in order, that file and what its `diff` printed |
| Compare.FirstFailingDiff | src/lib.js:294-298 | the first file whose `diff` throws, or the number of files: no `diff` before it throws |
| Compare.CollectDiffs | src/lib.js:293-300 | the loop stops at the first `diff` that throws, with that command run last and its error returned; up to there the diffs are exactly `FileDiffs` and the commands run exactly `DiffCommands` |
| Compare.ExtnameIsMd | src/lib.js:305 | `path.extname` is `.md` exactly when the last segment ends in `.md` after at least one other character |
| Compare.MarkdownIgnored | src/lib.js:304-305 | a Markdown file is ignorable at the top level and in any sub-directory |
| Compare.NotMarkdown | src/lib.js:305 | `.MD` is not ignorable because the comparison is case-sensitive, and a file named just `.md` has no extension |
| Compare.NestedNpmignoreSignificant | src/lib.js:304 | only the top-level `.npmignore` is ignorable; a nested one counts |
| Compare.ClassifyDiffs | src/lib.js:302-322 | `success` holds exactly when every differing file is ignorable, and a failure names a significant file |
| Pipeline.StripGitPlus | src/lib.js:158 | a leading `git+` is removed and any other URL is kept as it is |
| Pipeline.Verify | src/lib.js:122-332 | the step-by-step run computes exactly the verdict and the command sequence of `Run` |
| Pipeline.SyncSteps | src/lib.js:155-163 | past the early checks, clone when `.git` is missing (otherwise fetch), then the rest of the run, agreeing with `RunIn` |
| Pipeline.RevisionSteps | src/lib.js:166-193 | the revision selection and what follows agree with `RunIn` |
| Pipeline.CheckoutSteps | src/lib.js:182-209 | the checkout, `git clean`, download and unpack, each skipped when its file exists, agree with the action list |
| Pipeline.BuildSteps | src/lib.js:212-248 | the install and build commands agree with the plan's action list |
| Pipeline.PackSteps | src/lib.js:252-265 | reading and rewriting the manifest, `npm pack` and `shasum` agree with the action list |
| Pipeline.RebuildSteps | src/lib.js:182-276 | from checkout to the checksum shortcut or the comparison, agreeing with `Rebuild` |
| Pipeline.DiffSteps | src/lib.js:279-331 | unpacking, listing and diffing agree with `Diff`, including a throw from any of these commands |
| Pipeline.CompareSteps | src/lib.js:288-331 | reading the file list, the per-file `diff`s and the verdict agree with `CompareListed` |
| Pipeline.DiffThrows | src/lib.js:282-300 | a failing listing `diff` throws its error with nothing run after it; otherwise the comparison throws exactly when some per-file `diff` fails, with the error of the first one, which is the last command run |
| Pipeline.EarlyFailuresRunNothing | src/lib.js:125-149 | a missing repository, or a non-git one, ends the run with exactly its message and no command run; nothing else is an early failure |
| Pipeline.RevisionStep | src/lib.js:155-193 | the first command is the clone or fetch, whose failure ends the run; when no candidate exists the run stops after the probes with the "tried" message last; otherwise the selected commit is checked out next |
| Pipeline.ThrewReportsLastCommand | src/lib.js:155-291 | a thrown error is the error of the last command run, or the `TypeError` of an unreadable file list |
| Pipeline.RunCompared | src/lib.js:302-322 | a comparison passes exactly when every differing file is ignorable |
| Pipeline.RebuiltVerdicts | src/lib.js:264-331 | the checksum shortcut is taken exactly when the first token of `shasum` equals the published checksum, with `shasum` run last; otherwise one diff per listed file, run last; both keep the revision warning followed by what the build pushed |
| Pipeline.BuildNotes | src/lib.js:217-239 | the build pushes the `prepublishOnly` error when that script fails, or the fallback warning, and nothing else |
| Pipeline.RunInVerdictKinds | src/lib.js:122-332 | every thrown error is reported honestly, and early failures are exactly the repository checks |
| Lib.GetPackageResultIfExists | src/lib.js:77-88 | throws the "expected version" error exactly when the identifier has no version; otherwise the stored result exactly when its file exists |
| Lib.ProcessPackageIfNeeded | src/lib.js:93-117 | the method returns and stores what `IfNeeded` specifies; a returned result can be read back by `getPackageResultIfExists`; no stored file is changed |
| Lib.StoredResultServed | src/lib.js:94-95 | a stored result is returned as it is, and neither the registry nor the run is consulted |
| Lib.ServedResultIsStored | src/lib.js:114-116 | the result is written exactly where the lookup reads it and nowhere else; a thrown error writes nothing |
| Lib.IfNeededIdempotent | src/lib.js:93-117 | asking again returns the same result and leaves the store unchanged, whatever the registry and the build do then |
| Lib.IfNeededErrors | src/lib.js:94-97 | the errors thrown are the missing version first, then a package the registry does not know |
| Lib.ThrownErrorBecomesResult | src/lib.js:103-112 | a thrown error becomes a failed result with no diffs and only that message; every result names its package |
| Lib.EarlyFailureResults | src/lib.js:125-149 | a missing or non-git repository gives a failed result with no diffs and exactly its message, with nothing run |
| Lib.ResultMeaning | src/lib.js:267-331 | success exactly on a checksum match or an all-ignorable comparison; diffs only from a comparison; the errors collected are kept |
| Lib.SuccessMeaning | src/lib.js:122-332 | a processed package passes exactly when its checksum matched or every differing file is ignorable |
| Store.ResultStore.Write | src/lib.js:115 | writing a result file replaces that path only |
| LegacyMain.ProcessPackageIfNeeded | src/main.js:49-69 | the method returns and stores what the older `IfNeeded` specifies |
| LegacyMain.StoredOrWritten | src/main.js:50-67 | the result path is `.tmp/results/` + name with its first `/` as `_` + `@` + version + `.json`; a stored result is returned without running, otherwise the new result is written there only |
| LegacyMain.IfNeededIdempotent | src/main.js:49-69 | asking again returns the stored result and leaves the store unchanged |
| LegacyMain.ResultShapes | src/main.js:58-252 | `diffs` is present only after a comparison; early failures and thrown errors carry exactly their one message; a missing revision fails with the collected errors; a checksum match succeeds |
| LegacyMain.EarlyFailureResults | src/main.js:75-91 | a missing or non-git repository gives `{success: false, errors: [message]}` with no `diffs`, with nothing run |
| LegacyMain.AgreesWithLib | src/main.js:58-252 | the two copies give every verdict the same success and errors, and the newer copy's `diffs` is empty where the older copy has none |
| LegacyMain.GetPackageDependencies | src/main.js:259-269 | one entry per line after the first, in order: exactly one fewer entries than lines, and no trim, deduplication or sort |
| LegacyMain.TreeLineRead | src/main.js:266-267 | a tree line `<prefix>─ <name>@<version>` is read by both copies as that name and version |
| LegacyMain.RenderingsAgree | src/main.js:266-267 | the newer copy renders each line as the older copy's `packageName@version`, and an unmatched line as `undefinedundefined@undefined` |
| LegacyMain.TrailingNewlineAddsUnmatched | src/main.js:265 | output ending in a line break gets one extra entry, an unmatched one |
| Dependencies.DependenciesOf | src/lib.js:364-368 | one rendering per tree line, in order |
| Dependencies.GetPackageDependencies | src/lib.js:346-373 | fails exactly when the identifier has no version (the "expected version" error), when standard output does not begin with `└─` (the error carries standard output), or when standard error is non-empty (the error carries it), tried in that order |
| Dependencies.DependenciesSortedAndUnique | src/lib.js:364-370 | the list holds each rendered line exactly once, sorted by the comparator, and is the only such list |
| Dependencies.DedupFacts | src/lib.js:369 | `[...new Set(xs)]` has no duplicates and keeps every value |
| Dependencies.SortFacts | src/lib.js:370 | the sort returns a sorted permutation of its input |
| Dependencies.SortedUnique | src/lib.js:370 | two sorted arrangements of the same values are equal, so the order does not depend on the sorting algorithm |
| Dependencies.TreeLineMatch | src/lib.js:366 | in a tree line the expression matches right after the prefix and splits at the last `@` |
| Dependencies.TreeLineRendered | src/lib.js:366-367 | such a line renders as `<name>@<version>` |
| Dependencies.TreeLineIdentifies | src/lib.js:366-367 | such a rendering parses back to that name and version |
| Dependencies.TrailingNewlineIgnored | src/lib.js:364 | a line break after the last tree line changes neither the outcome nor the list, because the output is trimmed |
| Server.LruMap.Set | server/server.js:10-12 | the entry is stored; no key is added except it; the map never exceeds its capacity; when the key was present or the map was not full, nothing is evicted |
| Server.StatusesFailure | server/server.js:47-53 | the `statuses` loop throws exactly when some dependency has no version, with the error of the first such dependency |
| Server.StatusesSuccess | server/server.js:47-53 | otherwise `statuses` holds exactly the dependencies with a stored result: `success` for those whose result succeeded and `fail` for the rest |
| Server.StatusTextMeaning | server/server.js:50 | `success` means the result succeeded, and `fail` means it did not |
| Server.AnswerMeaning | server/server.js:37-60 | a dependencies answer fails exactly when the list fails or a dependency lacks a version; otherwise it carries the identifier, the list and the expected statuses; a freshly computed list is sorted and free of duplicates |
| Server.Coordinator.constructor | server/server.js:8-12 | the server starts with no jobs and empty caches of capacity 1000 and 100 |
| Server.Coordinator.RequestResults | server/server.js:18-30 | resolution errors are the answer; a cached result is answered; a job in flight is awaited and nothing changes, and one that already rejected answers with its error; otherwise a new job is registered under the resolved identifier; a cached answer is always the stored result |
| Server.Coordinator.Admit | server/server.js:21-31 | for a resolved identifier: the cached result, else the job in flight or its rejection, else a new job numbered after all others and not rejected |
| Server.Coordinator.RunJob | server/server.js:26-30 | a job runs once, never after it rejected; it does what `processPackageIfNeeded` does; when it resolves, its `pendingJobs` entry is removed and the result cached under that identifier; when it rejects, neither happens and the job is recorded as rejected with its error |
| Server.Coordinator.Settle | server/server.js:28-30 | a resolved job leaves `pendingJobs` and enters `resultsCache`; other cached entries are kept or evicted; a rejected job keeps its entry and caches nothing, and its error is recorded |
| Server.Coordinator.RequestDependencies | server/server.js:37-60 | the answer is the resolution error, or the cached or computed list with its statuses; a list computed successfully is cached under the identifier even when the `statuses` loop then throws, and a failed computation leaves the cache alone; `resultsCache` gains only dependencies; with room, every dependency given a status is cached |
| Server.Coordinator.CachedDependencies | server/server.js:40-44 | a cached list is returned unchanged; otherwise the computed list, which is cached when it succeeds |
| Server.Coordinator.Lookup | server/server.js:48 | `resultsCache.get(dep) \|\| getPackageResultIfExists(dep)` is always what the store holds |
| Server.Coordinator.Remember | server/server.js:51 | caching a stored result keeps every cached result the stored one |
| Server.Coordinator.CollectStatuses | server/server.js:46-53 | the loop computes exactly `StatusesOf` over the store, adds only dependencies to the cache, and, with room, leaves every dependency given a status cached |
| Server.Coordinator.StatusStep | server/server.js:48-52 | one pass of the loop body is one step of `StatusesOf` |

## Left out

- Process execution, the filesystem, `JSON.parse` and `JSON.stringify`: commands are values. Their errors and output come from the `Env` parameter; the results directory is a `map` from path to result; a manifest is a map of JSON values.
- `getPackageDetails`: the JSON parse of `npm view` and the `scripts || {}` default are taken as given in `ViewOutput.details`.
- The text of a thrown error (`err.toString()`) is what `Env.fails` gives for the command.
- Concurrency: the server is sequential. A request, the end of a job and a dependencies request are separate events, so any interleaving of whole events is covered, but not interleavings within one handler.
- Server.LruMap.Set: does not say which entry a full map evicts (the least recently used one) or that `get` refreshes an entry's recency, because `lru_map`'s internals are not part of this model; only the capacity bound and the kept entries are stated.
- Server.Coordinator.CollectStatuses: states that each found result stays cached only when the cache had room for every dependency, because otherwise eviction order decides.
- `localeCompare` becomes the comparator parameter `leq`, taken to be a total order where sortedness is proved; locale collation rules are not modelled.
- Express routing, static files, the error middleware, `res.send`, `Lib.init`, `app.listen` and `console.log` are I/O and are not modelled.
- `checkAllDepsForPackage` and the command-line entry point of `src/main.js` are not part of this model.
- `getPackageDependencies` of `src/main.js`: the `execFileSync` failure is not modelled; the output is given.
- `mkdirSync`, `rmSync` and the removal of the packed archive have no effect on the model's outcome and are left out.
- `path.extname` is modelled for POSIX paths only.

## Findings

| source | as written | input that shows it | evidently intended | confidence | as-written member | corrected member |
|---|---|---|---|---|---|---|
| src/main.js:190 | the packed archive is looked for at `<name>-<version>.tgz` | the scoped package `@s/b`, version `1.0.0`: `npm pack` writes `s-b-1.0.0.tgz`, but the path read is `.tmp/repos/@s/b/@s/b-1.0.0.tgz` | drop the `@` and join scope and name with `-`, as src/lib.js:259 does | not executed | Layout.LegacyPackedFileNameMissesScoped | Layout.PackedFileNameMatchesNpm |
| src/main.js:265 | the tool's output is split on line breaks without trimming | any output ending in `\n`, such as `└─ a@1\n├─ b@2\n`: the entries are `b@2` and one extra `{packageName: NaN, version: undefined}` | trim before splitting, as src/lib.js:364 does, so that only dependency lines give entries | not executed | LegacyMain.TrailingNewlineAddsUnmatched | Dependencies.TrailingNewlineIgnored |
