/**
 * The older synchronous copy of the pipeline, `src/main.js`: the same run under its own archive
 * paths, a result record that carries `diffs` only after a comparison, its own result path, and a
 * dependency list that is neither trimmed, deduplicated nor sorted.
 */
module LegacyMain {
  import opened Wrappers
  import opened Text
  import opened Package
  import opened Layout
  import opened Pipeline
  import opened Store
  import opened Dependencies
  import opened Identifier
  import Lib

  /** The record `src/main.js` returns; `diffs` is `None` where the record has no `diffs` field. */
  datatype LegacyResult = LegacyResult(success: bool, diffs: Option<seq<FileDiff>>, errors: seq<string>)

  /** The record `processPackage` returns for a verdict, or that `processPackageIfNeeded` builds from a thrown error. */
  function ResultOf(verdict: Verdict): LegacyResult {
    match verdict
    case EarlyFailure(e) => LegacyResult(false, None, [e])
    case NoRevision(errors) => LegacyResult(false, None, errors)
    case ChecksumMatch(errors) => LegacyResult(true, None, errors)
    case Compared(success, diffs, errors) => LegacyResult(success, Some(diffs), errors)
    case Threw(message) => LegacyResult(false, None, [message])
  }

  function ProcessPackage(d: PackageDetails, env: Env): LegacyResult {
    ResultOf(Run(Legacy, d, env).verdict)
  }

  type Files = map<string, LegacyResult>

  /** What `processPackageIfNeeded(packageDetails)` returns, and the store it leaves. */
  datatype Served = Served(result: LegacyResult, files: Files)

  function IfNeeded(files: Files, d: PackageDetails, env: Env): Served {
    var path := LegacyResultPath(d.name, d.version);
    if path in files then Served(files[path], files)
    else
      var result := ProcessPackage(d, env);
      Served(result, files[path := result])
  }

  /** `processPackageIfNeeded` of `src/main.js`, step by step, against the results directory. */
  method ProcessPackageIfNeeded(store: ResultStore<LegacyResult>, d: PackageDetails, env: Env) returns (r: LegacyResult)
    modifies store
    ensures Served(r, store.files) == IfNeeded(old(store.files), d, env)
  {
    var path := LegacyResultPath(d.name, d.version);
    if path in store.files {
      return store.files[path];
    }
    var verdict, _ := Verify(Legacy, d, env);
    r := ResultOf(verdict);
    store.Write(path, r);
  }

  /**
   * A result stored under `.tmp/results/<name with its first / as _>@<version>.json` is returned
   * without running anything; otherwise the new result is stored exactly there and nowhere else.
   */
  lemma StoredOrWritten(files: Files, d: PackageDetails, env: Env, env': Env)
    ensures var path := ".tmp/results/" + (ReplaceFirst(d.name, "/", "_") + "@" + d.version) + ".json";
      var s := IfNeeded(files, d, env);
      (path in files ==> s == Served(files[path], files) && s == IfNeeded(files, d, env'))
      && (path !in files ==> s.files == files[path := s.result])
  {
  }

  /** Asking again returns the stored result and leaves the store alone. */
  lemma IfNeededIdempotent(files: Files, d: PackageDetails, env: Env, env': Env)
    ensures var s := IfNeeded(files, d, env);
      IfNeeded(s.files, d, env') == s
  {
  }

  /**
   * The result shapes: `diffs` appears only after a comparison; an early failure or a thrown
   * error carries exactly its one message; a missing revision fails with the collected errors.
   */
  lemma ResultShapes(verdict: Verdict)
    ensures ResultOf(verdict).diffs.Some? <==> verdict.Compared?
    ensures verdict.EarlyFailure? ==> ResultOf(verdict) == LegacyResult(false, None, [verdict.error])
    ensures verdict.Threw? ==> ResultOf(verdict) == LegacyResult(false, None, [verdict.message])
    ensures verdict.NoRevision? ==> ResultOf(verdict) == LegacyResult(false, None, verdict.errors)
    ensures verdict.ChecksumMatch? ==> ResultOf(verdict) == LegacyResult(true, None, verdict.errors)
    ensures verdict.Compared? ==> ResultOf(verdict) == LegacyResult(verdict.success, Some(verdict.diffs), verdict.errors)
  {
  }

  /**
   * The two copies judge a verdict alike: the same success and the same errors; where the older
   * record has no `diffs`, the newer one has an empty list.
   */
  lemma AgreesWithLib(d: PackageDetails, verdict: Verdict)
    ensures var old_ := ResultOf(verdict);
      var new_ := Lib.ResultOf(d, verdict);
      old_.success == new_.success && old_.errors == new_.errors
      && new_.diffs == (if old_.diffs.Some? then old_.diffs.value else [])
  {
  }

  /**
   * A missing repository, or one that is not a git repository, gives `{success: false, errors:
   * [message]}`, with no `diffs`, before anything is run.
   */
  lemma EarlyFailureResults(d: PackageDetails, env: Env)
    ensures d.repository.None? ==> ProcessPackage(d, env) == LegacyResult(false, None, [MissingRepository])
    ensures d.repository.Some? && d.repository.value.kind != "git" ==>
      ProcessPackage(d, env) == LegacyResult(false, None, [NotGit])
    ensures (d.repository.None? || d.repository.value.kind != "git") ==> Run(Legacy, d, env).ran == []
  {
    EarlyFailuresRunNothing(Legacy, d, env);
  }

  /** One entry of the older dependency list: `{packageName: NaN, version: undefined}` is `Unmatched`. */
  datatype LegacyDependency = Dependency(packageName: string, version: string) | Unmatched

  /** `{packageName: scope + name, version}` for one line. */
  function DependencyOfLine(line: string): LegacyDependency {
    match LineMatch(line)
    case None => Unmatched
    case Some(m) => Dependency(line[m.start + 2..m.at], line[m.at + 1..LineEnd(line, m.start + 2)])
  }

  function DependenciesOfLines(lines: seq<string>): (ds: seq<LegacyDependency>)
    ensures |ds| == |lines|
    ensures forall i :: 0 <= i < |lines| ==> ds[i] == DependencyOfLine(lines[i])
  {
    if lines == [] then [] else [DependencyOfLine(lines[0])] + DependenciesOfLines(lines[1..])
  }

  /** `output.split('\n').slice(1).map(...)`: one entry per line after the first, in order. */
  function GetPackageDependencies(output: string): (deps: seq<LegacyDependency>)
    ensures |deps| == |Split(output, '\n')| - 1
    ensures forall i :: 0 <= i < |deps| ==> deps[i] == DependencyOfLine(Split(output, '\n')[i + 1])
  {
    DependenciesOfLines(Split(output, '\n')[1..])
  }

  /** Both copies read a tree line `<prefix>─ <name>@<version>` as that name and version. */
  lemma TreeLineRead(prefix: string, name: string, version: string)
    requires '─' !in prefix && name != "" && version != "" && '@' !in version
    requires NoLineTerminator(name) && NoLineTerminator(version)
    ensures var line := prefix + "─ " + name + "@" + version;
      DependencyOfLine(line) == Dependency(name, version)
      && DependencyOf(line) == name + "@" + version
  {
    var line := prefix + "─ " + name + "@" + version;
    var p := |prefix|;
    TreeLineMatch(prefix, name, version);
    TreeLineRendered(prefix, name, version);
    assert line[p + 2..p + 2 + |name|] == name;
    assert line[p + 3 + |name|..|line|] == version;
  }

  /** The newer copy renders each line as the older copy's `packageName@version`. */
  lemma RenderingsAgree(line: string)
    ensures DependencyOfLine(line).Dependency? ==>
      DependencyOf(line) == DependencyOfLine(line).packageName + "@" + DependencyOfLine(line).version
    ensures DependencyOfLine(line).Unmatched? <==> DependencyOf(line) == "undefinedundefined@undefined" && LineMatch(line).None?
  {
  }

  /**
   * Output that ends with a line break, as a printed tree does, gets one more entry than it has
   * dependency lines: the empty string after the break, which the expression does not match.
   */
  lemma TrailingNewlineAddsUnmatched(output: string)
    ensures GetPackageDependencies(output + "\n") == GetPackageDependencies(output) + [Unmatched]
  {
    SplitTrailingSeparator(output, '\n');
    var lines := Split(output, '\n');
    assert Split(output + "\n", '\n')[1..] == lines[1..] + [""];
    assert LineMatch("") == None;
    var l := DependenciesOfLines(lines[1..] + [""]);
    var r := DependenciesOfLines(lines[1..]) + [Unmatched];
    assert |l| == |r|;
    forall i | 0 <= i < |l| ensures l[i] == r[i] {
      if i < |lines| - 1 {
        assert (lines[1..] + [""])[i] == lines[1..][i];
      }
    }
  }
}
