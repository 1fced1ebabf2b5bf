/**
 * `processPackage`, the verification of one published package against its source, as one
 * specification (`Run`) shared by `src/lib.js:122-332` and `src/main.js:74-253`, and the
 * step-by-step method (`Verify`) that follows the source and is proved to compute it. The two
 * copies differ only in the archive paths, so the run is parameterised by a `Variant`; the result
 * records they build differ, and are built from the `Verdict` in `Lib` and `Legacy`.
 */
module Pipeline {
  import opened Wrappers
  import opened Text
  import opened Package
  import opened Layout
  import opened Revisions
  import opened Build
  import opened Compare

  const MissingRepository := "Missing `repository` in package.json"
  const NotGit := "`packageDetails.repository.type` must be `git`"

  /** How a run ends. */
  datatype Verdict =
    | EarlyFailure(error: string)
    | NoRevision(errors: seq<string>)
    | ChecksumMatch(errors: seq<string>)
    | Compared(success: bool, diffs: seq<FileDiff>, errors: seq<string>)
    | Threw(message: string)

  /** A verdict and the external commands run to reach it, in order. */
  datatype Outcome = Outcome(verdict: Verdict, ran: seq<Command>)

  /** Part way through a run: still going with the commands run and the errors collected, or done. */
  datatype Stage = Going(ran: seq<Command>, errors: seq<string>) | Done(outcome: Outcome)

  /**
   * One step of the straight-line part of the run: a command whose failure propagates and ends
   * the run, a command run inside `try`/`catch` whose failure is pushed onto `errors`, or a
   * warning pushed onto `errors`.
   */
  datatype Action = Must(c: Command) | Attempt(c: Command) | Note(w: string)

  function Act(s: Stage, a: Action, env: Env): Stage {
    match s
    case Done(_) => s
    case Going(ran, errors) =>
      match a
      case Must(c) =>
        if env.fails(c).Some? then Done(Outcome(Threw(env.fails(c).value), ran + [c])) else Going(ran + [c], errors)
      case Attempt(c) =>
        Going(ran + [c], if env.fails(c).Some? then errors + [env.fails(c).value] else errors)
      case Note(w) => Going(ran, errors + [w])
  }

  /** The actions, one after the other. */
  function Perform(s: Stage, acts: seq<Action>, env: Env): Stage
    decreases |acts|
  {
    if acts == [] then s else Perform(Act(s, acts[0], env), acts[1..], env)
  }

  /** The command an action runs, if any. */
  function CommandOf(a: Action): seq<Command> {
    if a.Note? then [] else [a.c]
  }

  /** What an action that does not throw pushes onto `errors`. */
  function Pushed(a: Action, env: Env): seq<string> {
    match a
    case Note(w) => [w]
    case Attempt(c) => if env.fails(c).Some? then [env.fails(c).value] else []
    case Must(_) => []
  }

  /** The commands the actions run, when none of them fails. */
  function CommandsOf(acts: seq<Action>): seq<Command> {
    if acts == [] then [] else CommandOf(acts[0]) + CommandsOf(acts[1..])
  }

  /** What the actions push onto `errors`, when none of them fails. */
  function NotesOf(acts: seq<Action>, env: Env): seq<string> {
    if acts == [] then [] else Pushed(acts[0], env) + NotesOf(acts[1..], env)
  }

  /** Commands whose failure propagates, in order. */
  function Musts(cs: seq<Command>): (acts: seq<Action>)
    ensures |acts| == |cs|
    ensures forall i :: 0 <= i < |cs| ==> acts[i] == Must(cs[i])
  {
    if cs == [] then [] else [Must(cs[0])] + Musts(cs[1..])
  }

  /** `url.replace(/^git\+/, '')` */
  function StripGitPlus(url: string): (r: string)
    ensures StartsWith(url, "git+") ==> url == "git+" + r
    ensures !StartsWith(url, "git+") ==> r == url
  {
    if StartsWith(url, "git+") then url[4..] else url
  }

  /** `git clone` when the checkout has no `.git` directory yet, `git fetch origin` otherwise. */
  function SyncCommand(dir: string, url: string, env: Env): Command {
    if env.gitDirExists then GitFetch(dir) else GitClone(StripGitPlus(url), dir)
  }

  /** The whole of `processPackage`, in one of the two copies. */
  function Run(v: Variant, d: PackageDetails, env: Env): Outcome {
    RunIn(PathsOf(v, d.name, d.version), d, env)
  }

  /** `processPackage` with the paths of the copy given. */
  function RunIn(p: Paths, d: PackageDetails, env: Env): Outcome {
    match d.repository
    case None => Outcome(EarlyFailure(MissingRepository), [])
    case Some(repo) =>
      if repo.kind != "git" then Outcome(EarlyFailure(NotGit), [])
      else
        var sync := SyncCommand(p.repo, repo.url, env);
        match env.fails(sync)
        case Some(e) => Outcome(Threw(e), [sync])
        case None =>
          var cands := Candidates(d.gitHead, d.version);
          var commit := Selected(cands, p.repo, env);
          var ran := [sync] + Probes(cands, p.repo, env);
          var errors := RevisionWarnings(commit, d.gitHead);
          if !Truthy(commit) then Outcome(NoRevision(errors + [NotFoundError(cands)]), ran)
          else Rebuild(p, d, commit.value, env, Going(ran, errors))
  }

  /** Checking out the selected commit, cleaning it, and fetching and unpacking the published archive. */
  function CheckoutCommands(p: Paths, d: PackageDetails, commit: string, env: Env): seq<Command> {
    [GitCheckout(p.repo, commit), GitClean(p.repo)]
    + (if env.tarballCached then [] else [Download(p.tarball, d.dist.tarball)])
    + (if env.tarballUnpacked then [] else [Extract(p.tarball, p.published)])
  }

  /** The install and the build script the plan calls for. */
  function BuildActions(plan: BuildPlan, dir: string): seq<Action> {
    match plan
    case NoBuild => []
    case Lifecycle(m, runPrepublishOnly) =>
      [Must(Install(m, dir))] + (if runPrepublishOnly then [Attempt(RunScript(m, dir, "prepublishOnly"))] else [])
    case Fallback(m, script) => [Note(FallbackWarning(script)), Must(Install(m, dir)), Must(RunScript(m, dir, script))]
  }

  /** Setting the version in `package.json`, packing, and summing the packed archive. */
  function PackCommands(p: Paths, d: PackageDetails, env: Env): seq<Command> {
    var manifestPath := p.repo + "/package.json";
    [ReadManifest(manifestPath), WriteManifest(manifestPath, SetVersion(env.manifest, d.version)),
     Pack(p.repo), Shasum(p.archive)]
  }

  /** Everything from the checkout to the checksum. */
  function RebuildActions(p: Paths, d: PackageDetails, commit: string, env: Env): seq<Action> {
    Musts(CheckoutCommands(p, d, commit, env))
    + BuildActions(PlanBuild(d.scripts, env.yarnLockExists), p.repo)
    + Musts(PackCommands(p, d, env))
  }

  /** From the checkout of the selected commit to the checksum shortcut or the comparison. */
  function Rebuild(p: Paths, d: PackageDetails, commit: string, env: Env, s: Stage): Outcome {
    match Perform(s, RebuildActions(p, d, commit, env), env)
    case Done(o) => o
    case Going(ran, errors) =>
      if FirstToken(env.stdout(Shasum(p.archive))) == d.dist.shasum then Outcome(ChecksumMatch(errors), ran)
      else Diff(p, env, ran, errors)
  }

  /** The `diff -urNqw` of the published and the rebuilt package. */
  function TreeDiff(p: Paths): Command {
    DiffTree(p.packageDir, p.rebuilt + "/package")
  }

  /**
   * Unpacking the rebuilt archive, listing the differing files and diffing each. Any of these
   * commands may throw, and the first one that does ends the run.
   */
  function Diff(p: Paths, env: Env, ran: seq<Command>, errors: seq<string>): Outcome {
    match Act(Going(ran, errors), Must(Extract(p.archive, p.rebuilt)), env)
    case Done(o) => o
    case Going(ran', _) =>
      var listed := ran' + [TreeDiff(p)];
      match env.fails(TreeDiff(p))
      case Some(e) => Outcome(Threw(e), listed)
      case None => CompareListed(p, env, listed, errors)
  }

  /** After the listing `diff`: reading the file list, then one `diff` per file, then the verdict. */
  function CompareListed(p: Paths, env: Env, listed: seq<Command>, errors: seq<string>): Outcome {
    match ParseDiffList(env.stdout(TreeDiff(p)), p.packageDir)
    case Failure(e) => Outcome(Threw(e), listed)
    case Success(files) =>
      var k := FirstFailingDiff(files, p.rebuilt, p.packageDir, env, 0);
      if k < |files| then
        Outcome(Threw(env.fails(DiffCommand(files[k], p.rebuilt, p.packageDir)).value),
          listed + DiffCommands(files[..k + 1], p.rebuilt, p.packageDir))
      else
        var diffs := FileDiffs(files, p.rebuilt, p.packageDir, env);
        Outcome(Compared(AllIgnorable(diffs), diffs, errors), listed + DiffCommands(files, p.rebuilt, p.packageDir))
  }

  /** `processPackage`, step by step. */
  method Verify(v: Variant, d: PackageDetails, env: Env) returns (verdict: Verdict, ran: seq<Command>)
    ensures Outcome(verdict, ran) == Run(v, d, env)
  {
    var p := PathsOf(v, d.name, d.version);
    if d.repository.None? {
      return EarlyFailure(MissingRepository), [];
    }
    var repo := d.repository.value;
    if repo.kind != "git" {
      return EarlyFailure(NotGit), [];
    }
    verdict, ran := SyncSteps(p, d, env);
  }

  /** Cloning or fetching the repository, then the rest of the run. */
  method SyncSteps(p: Paths, d: PackageDetails, env: Env) returns (verdict: Verdict, ran: seq<Command>)
    requires d.repository.Some? && d.repository.value.kind == "git"
    ensures Outcome(verdict, ran) == RunIn(p, d, env)
  {
    var sync := SyncCommand(p.repo, d.repository.value.url, env);
    ran := [sync];
    if env.fails(sync).Some? {
      return Threw(env.fails(sync).value), ran;
    }
    verdict, ran := RevisionSteps(p, d, env, ran);
  }

  /** Selecting the revision, then the rebuild from it. */
  method RevisionSteps(p: Paths, d: PackageDetails, env: Env, ran0: seq<Command>) returns (verdict: Verdict, ran: seq<Command>)
    requires d.repository.Some? && d.repository.value.kind == "git"
    requires env.fails(SyncCommand(p.repo, d.repository.value.url, env)).None?
    requires ran0 == [SyncCommand(p.repo, d.repository.value.url, env)]
    ensures Outcome(verdict, ran) == RunIn(p, d, env)
  {
    var errors: seq<string> := [];
    var cands := Candidates(d.gitHead, d.version);
    var commit, probes := SelectRevision(p.repo, cands, env);
    ran := ran0 + probes;
    if commit != d.gitHead {
      errors := errors + [UnreachableWarning(d.gitHead)];
    }
    assert errors == RevisionWarnings(commit, d.gitHead);
    if !Truthy(commit) {
      errors := errors + [NotFoundError(cands)];
      return NoRevision(errors), ran;
    }
    RunInRebuilds(p, d, env);
    verdict, ran := RebuildSteps(p, d, commit.value, env, ran, errors);
  }

  /** The stage a step-by-step run is at: ended by the error `failed`, or going on. */
  function Resume(failed: Option<string>, ran: seq<Command>, errors: seq<string>): Stage {
    if failed.Some? then Done(Outcome(Threw(failed.value), ran)) else Going(ran, errors)
  }

  /** Runs one command whose failure propagates; `Some` of its error when it throws. */
  method Step(c: Command, env: Env, ran: seq<Command>, errors: seq<string>) returns (failed: Option<string>, ran': seq<Command>)
    ensures ran' == ran + [c]
    ensures failed == env.fails(c)
    ensures Act(Going(ran, errors), Must(c), env) == Resume(failed, ran', errors)
  {
    failed := env.fails(c);
    ran' := ran + [c];
  }

  method CheckoutSteps(p: Paths, d: PackageDetails, commit: string, env: Env, ran0: seq<Command>, errors: seq<string>)
    returns (failed: Option<string>, ran: seq<Command>)
    ensures Resume(failed, ran, errors) == Perform(Going(ran0, errors), Musts(CheckoutCommands(p, d, commit, env)), env)
  {
    ghost var rest := CheckoutCommands(p, d, commit, env);
    MustsStep(ran0, errors, rest, env);
    failed, ran := Step(GitCheckout(p.repo, commit), env, ran0, errors);
    if failed.Some? { return; }
    rest := rest[1..];
    MustsStep(ran, errors, rest, env);
    failed, ran := Step(GitClean(p.repo), env, ran, errors);
    if failed.Some? { return; }
    rest := rest[1..];
    if !env.tarballCached {
      MustsStep(ran, errors, rest, env);
      failed, ran := Step(Download(p.tarball, d.dist.tarball), env, ran, errors);
      if failed.Some? { return; }
      rest := rest[1..];
    }
    if !env.tarballUnpacked {
      MustsStep(ran, errors, rest, env);
      failed, ran := Step(Extract(p.tarball, p.published), env, ran, errors);
      if failed.Some? { return; }
      rest := rest[1..];
    }
    assert rest == [];
  }

  method BuildSteps(plan: BuildPlan, dir: string, env: Env, ran0: seq<Command>, errors0: seq<string>)
    returns (failed: Option<string>, ran: seq<Command>, errors: seq<string>)
    ensures Resume(failed, ran, errors) == Perform(Going(ran0, errors0), BuildActions(plan, dir), env)
  {
    match plan {
      case NoBuild =>
        failed, ran, errors := None, ran0, errors0;
      case Lifecycle(m, runPrepublishOnly) =>
        failed, ran, errors := LifecycleSteps(m, runPrepublishOnly, dir, env, ran0, errors0);
      case Fallback(m, script) =>
        failed, ran, errors := FallbackSteps(m, script, dir, env, ran0, errors0);
    }
  }

  /** Installing, then running `prepublishOnly` inside `try`/`catch`. */
  method LifecycleSteps(m: PackageManager, runPrepublishOnly: bool, dir: string, env: Env, ran0: seq<Command>, errors0: seq<string>)
    returns (failed: Option<string>, ran: seq<Command>, errors: seq<string>)
    ensures Resume(failed, ran, errors) == Perform(Going(ran0, errors0), BuildActions(Lifecycle(m, runPrepublishOnly), dir), env)
  {
    ghost var acts := BuildActions(Lifecycle(m, runPrepublishOnly), dir);
    errors := errors0;
    PerformStep(Going(ran0, errors), acts, env);
    failed, ran := Step(Install(m, dir), env, ran0, errors);
    if failed.Some? {
      PerformDone(Outcome(Threw(failed.value), ran), acts[1..], env);
      return;
    }
    if runPrepublishOnly {
      PerformStep(Going(ran, errors), acts[1..], env);
      var script := RunScript(m, dir, "prepublishOnly");
      ran := ran + [script];
      if env.fails(script).Some? {
        errors := errors + [env.fails(script).value];
      }
    }
  }

  /** Warning, installing, then running the fallback script. */
  method FallbackSteps(m: PackageManager, script: string, dir: string, env: Env, ran0: seq<Command>, errors0: seq<string>)
    returns (failed: Option<string>, ran: seq<Command>, errors: seq<string>)
    ensures Resume(failed, ran, errors) == Perform(Going(ran0, errors0), BuildActions(Fallback(m, script), dir), env)
  {
    ghost var acts := BuildActions(Fallback(m, script), dir);
    PerformStep(Going(ran0, errors0), acts, env);
    errors := errors0 + [FallbackWarning(script)];
    PerformStep(Going(ran0, errors), acts[1..], env);
    failed, ran := Step(Install(m, dir), env, ran0, errors);
    if failed.Some? {
      PerformDone(Outcome(Threw(failed.value), ran), acts[2..], env);
      return;
    }
    PerformStep(Going(ran, errors), acts[2..], env);
    failed, ran := Step(RunScript(m, dir, script), env, ran, errors);
  }

  method PackSteps(p: Paths, d: PackageDetails, env: Env, ran0: seq<Command>, errors: seq<string>)
    returns (failed: Option<string>, ran: seq<Command>)
    ensures Resume(failed, ran, errors) == Perform(Going(ran0, errors), Musts(PackCommands(p, d, env)), env)
  {
    ghost var rest := PackCommands(p, d, env);
    var manifestPath := p.repo + "/package.json";
    MustsStep(ran0, errors, rest, env);
    failed, ran := Step(ReadManifest(manifestPath), env, ran0, errors);
    if failed.Some? { return; }
    rest := rest[1..];
    MustsStep(ran, errors, rest, env);
    failed, ran := Step(WriteManifest(manifestPath, SetVersion(env.manifest, d.version)), env, ran, errors);
    if failed.Some? { return; }
    rest := rest[1..];
    MustsStep(ran, errors, rest, env);
    failed, ran := Step(Pack(p.repo), env, ran, errors);
    if failed.Some? { return; }
    rest := rest[1..];
    MustsStep(ran, errors, rest, env);
    failed, ran := Step(Shasum(p.archive), env, ran, errors);
    if failed.Some? { return; }
    rest := rest[1..];
    assert rest == [];
  }

  method RebuildSteps(p: Paths, d: PackageDetails, commit: string, env: Env, ran0: seq<Command>, errors0: seq<string>)
    returns (verdict: Verdict, ran: seq<Command>)
    ensures Outcome(verdict, ran) == Rebuild(p, d, commit, env, Going(ran0, errors0))
  {
    ghost var checkout := Musts(CheckoutCommands(p, d, commit, env));
    ghost var build := BuildActions(PlanBuild(d.scripts, env.yarnLockExists), p.repo);
    ghost var pack := Musts(PackCommands(p, d, env));
    PerformAppend(Going(ran0, errors0), checkout + build, pack, env);
    PerformAppend(Going(ran0, errors0), checkout, build, env);
    var errors := errors0;
    var failed;
    failed, ran := CheckoutSteps(p, d, commit, env, ran0, errors);
    if failed.Some? {
      PerformDone(Outcome(Threw(failed.value), ran), build, env);
      PerformDone(Outcome(Threw(failed.value), ran), pack, env);
      return Threw(failed.value), ran;
    }
    failed, ran, errors := BuildSteps(PlanBuild(d.scripts, env.yarnLockExists), p.repo, env, ran, errors);
    if failed.Some? {
      PerformDone(Outcome(Threw(failed.value), ran), pack, env);
      return Threw(failed.value), ran;
    }
    failed, ran := PackSteps(p, d, env, ran, errors);
    if failed.Some? { return Threw(failed.value), ran; }
    if FirstToken(env.stdout(Shasum(p.archive))) == d.dist.shasum {
      return ChecksumMatch(errors), ran;
    }
    verdict, ran := DiffSteps(p, env, ran, errors);
  }

  method DiffSteps(p: Paths, env: Env, ran0: seq<Command>, errors: seq<string>)
    returns (verdict: Verdict, ran: seq<Command>)
    ensures Outcome(verdict, ran) == Diff(p, env, ran0, errors)
  {
    var failed;
    failed, ran := Step(Extract(p.archive, p.rebuilt), env, ran0, errors);
    if failed.Some? { return Threw(failed.value), ran; }
    failed, ran := Step(TreeDiff(p), env, ran, errors);
    if failed.Some? { return Threw(failed.value), ran; }
    verdict, ran := CompareSteps(p, env, ran, errors);
  }

  method CompareSteps(p: Paths, env: Env, listed: seq<Command>, errors: seq<string>)
    returns (verdict: Verdict, ran: seq<Command>)
    ensures Outcome(verdict, ran) == CompareListed(p, env, listed, errors)
  {
    var files := ParseDiffList(env.stdout(TreeDiff(p)), p.packageDir);
    if files.Failure? {
      return Threw(files.error), listed;
    }
    var diffs, diffRuns, diffFailed := CollectDiffs(files.value, p.rebuilt, p.packageDir, env);
    ghost var k := FirstFailingDiff(files.value, p.rebuilt, p.packageDir, env, 0);
    ran := listed + diffRuns;
    if diffFailed.Some? {
      assert k < |files.value|;
      return Threw(diffFailed.value), ran;
    }
    assert k == |files.value| && files.value[..k] == files.value;
    var success := ClassifyDiffs(diffs);
    verdict := Compared(success, diffs, errors);
  }

  /** The commands a stage has run. */
  function RanOf(s: Stage): seq<Command> {
    match s
    case Going(ran, _) => ran
    case Done(o) => o.ran
  }

  /** A thrown error is the error of the last command run, or the `TypeError` of an unreadable file list. */
  predicate ThrewHonestly(o: Outcome, env: Env) {
    o.verdict.Threw? ==>
      |o.ran| > 0 &&
      (env.fails(o.ran[|o.ran| - 1]) == Some(o.verdict.message)
       || (o.ran[|o.ran| - 1].DiffTree? && o.verdict.message == NoSecondFieldError))
  }

  /** Every stage that stops early stops by a thrown error. */
  predicate StageOk(s: Stage, env: Env) {
    s.Done? ==> s.outcome.verdict.Threw? && ThrewHonestly(s.outcome, env)
  }

  lemma PrefixTransitive<T>(a: seq<T>, b: seq<T>, c: seq<T>)
    requires a <= b && b <= c
    ensures a <= c
  {
    assert c[..|a|] == b[..|a|];
  }

  lemma PerformStep(s: Stage, acts: seq<Action>, env: Env)
    requires acts != []
    ensures Perform(s, acts, env) == Perform(Act(s, acts[0], env), acts[1..], env)
  {
  }

  /** A run that has stopped stays stopped. */
  lemma {:induction false} PerformDone(o: Outcome, acts: seq<Action>, env: Env)
    ensures Perform(Done(o), acts, env) == Done(o)
    decreases |acts|
  {
    if acts != [] {
      PerformDone(o, acts[1..], env);
    }
  }

  /** Running two lists of actions is running the first, then the second. */
  lemma {:induction false} PerformAppend(s: Stage, a: seq<Action>, b: seq<Action>, env: Env)
    ensures Perform(s, a + b, env) == Perform(Perform(s, a, env), b, env)
    decreases |a|
  {
    if a == [] {
      assert a + b == b;
    } else {
      assert (a + b)[0] == a[0];
      assert (a + b)[1..] == a[1..] + b;
      PerformStep(s, a + b, env);
      PerformStep(s, a, env);
      PerformAppend(Act(s, a[0], env), a[1..], b, env);
    }
  }

  lemma MustsStep(ran: seq<Command>, errors: seq<string>, cs: seq<Command>, env: Env)
    requires cs != []
    ensures Perform(Going(ran, errors), Musts(cs), env) ==
      if env.fails(cs[0]).Some? then Done(Outcome(Threw(env.fails(cs[0]).value), ran + [cs[0]]))
      else Perform(Going(ran + [cs[0]], errors), Musts(cs[1..]), env)
  {
    assert Musts(cs)[1..] == Musts(cs[1..]);
    PerformStep(Going(ran, errors), Musts(cs), env);
    if env.fails(cs[0]).Some? {
      PerformDone(Outcome(Threw(env.fails(cs[0]).value), ran + [cs[0]]), Musts(cs[1..]), env);
    }
  }

  lemma {:induction false} CommandsOfAppend(a: seq<Action>, b: seq<Action>)
    ensures CommandsOf(a + b) == CommandsOf(a) + CommandsOf(b)
    decreases |a|
  {
    if a == [] {
      assert a + b == b;
    } else {
      assert (a + b)[0] == a[0];
      assert (a + b)[1..] == a[1..] + b;
      CommandsOfAppend(a[1..], b);
    }
  }

  lemma {:induction false} NotesOfAppend(a: seq<Action>, b: seq<Action>, env: Env)
    ensures NotesOf(a + b, env) == NotesOf(a, env) + NotesOf(b, env)
    decreases |a|
  {
    if a == [] {
      assert a + b == b;
    } else {
      assert (a + b)[0] == a[0];
      assert (a + b)[1..] == a[1..] + b;
      NotesOfAppend(a[1..], b, env);
    }
  }

  /** Commands whose failure propagates push nothing onto `errors`. */
  lemma {:induction false} MustsFootprint(cs: seq<Command>, env: Env)
    ensures CommandsOf(Musts(cs)) == cs
    ensures NotesOf(Musts(cs), env) == []
    decreases |cs|
  {
    if cs != [] {
      assert Musts(cs)[1..] == Musts(cs[1..]);
      MustsFootprint(cs[1..], env);
    }
  }

  /** Running actions from a going stage stops only by a thrown error of the last command run. */
  lemma {:induction false} PerformStops(ran: seq<Command>, errors: seq<string>, acts: seq<Action>, env: Env)
    ensures StageOk(Perform(Going(ran, errors), acts, env), env)
    decreases |acts|
  {
    if acts != [] {
      PerformStep(Going(ran, errors), acts, env);
      match Act(Going(ran, errors), acts[0], env)
      case Done(o) => PerformDone(o, acts[1..], env);
      case Going(ran1, errors1) => PerformStops(ran1, errors1, acts[1..], env);
    }
  }

  /** The commands run are a prefix of those listed, after those run before. */
  lemma {:induction false} PerformRan(ran: seq<Command>, errors: seq<string>, acts: seq<Action>, env: Env)
    ensures var s := Perform(Going(ran, errors), acts, env);
      ran <= RanOf(s) && RanOf(s) <= ran + CommandsOf(acts)
    decreases |acts|
  {
    if acts != [] {
      var head := CommandOf(acts[0]);
      assert ran + CommandsOf(acts) == (ran + head) + CommandsOf(acts[1..]);
      PerformStep(Going(ran, errors), acts, env);
      match Act(Going(ran, errors), acts[0], env)
      case Done(o) =>
        PerformDone(o, acts[1..], env);
        assert o.ran == ran + head;
      case Going(ran1, errors1) =>
        assert ran1 == ran + head;
        PerformRan(ran1, errors1, acts[1..], env);
        PrefixTransitive(ran, ran1, RanOf(Perform(Going(ran, errors), acts, env)));
    }
  }

  /** When nothing throws, every listed command ran and just the warnings and caught failures were pushed. */
  lemma {:induction false} PerformGoing(ran: seq<Command>, errors: seq<string>, acts: seq<Action>, env: Env)
    ensures var s := Perform(Going(ran, errors), acts, env);
      s.Going? ==> s.ran == ran + CommandsOf(acts) && s.errors == errors + NotesOf(acts, env)
    decreases |acts|
  {
    if acts != [] {
      PerformStep(Going(ran, errors), acts, env);
      match Act(Going(ran, errors), acts[0], env)
      case Done(o) => PerformDone(o, acts[1..], env);
      case Going(ran1, errors1) =>
        PerformGoing(ran1, errors1, acts[1..], env);
        ActGoing(ran, errors, acts, env);
    }
  }

  /** One action that does not throw adds its command and its pushes. */
  lemma ActGoing(ran: seq<Command>, errors: seq<string>, acts: seq<Action>, env: Env)
    requires acts != [] && Act(Going(ran, errors), acts[0], env).Going?
    ensures var s := Act(Going(ran, errors), acts[0], env);
      s.ran + CommandsOf(acts[1..]) == ran + CommandsOf(acts)
      && s.errors + NotesOf(acts[1..], env) == errors + NotesOf(acts, env)
  {
    ActShape(ran, errors, acts[0], env);
    CommandsOfCons(acts);
    NotesOfCons(acts, env);
    AppendAssoc(ran, CommandOf(acts[0]), CommandsOf(acts[1..]));
    AppendAssoc(errors, Pushed(acts[0], env), NotesOf(acts[1..], env));
  }

  lemma CommandsOfCons(acts: seq<Action>)
    requires acts != []
    ensures CommandsOf(acts) == CommandOf(acts[0]) + CommandsOf(acts[1..])
  {
  }

  lemma NotesOfCons(acts: seq<Action>, env: Env)
    requires acts != []
    ensures NotesOf(acts, env) == Pushed(acts[0], env) + NotesOf(acts[1..], env)
  {
  }

  lemma AppendAssoc<T>(a: seq<T>, b: seq<T>, c: seq<T>)
    ensures (a + b) + c == a + (b + c)
  {
  }

  lemma ActShape(ran: seq<Command>, errors: seq<string>, a: Action, env: Env)
    requires Act(Going(ran, errors), a, env).Going?
    ensures Act(Going(ran, errors), a, env) == Going(ran + CommandOf(a), errors + Pushed(a, env))
  {
  }

  /** The first command listed runs first. */
  lemma PerformFirst(ran: seq<Command>, errors: seq<string>, acts: seq<Action>, env: Env)
    requires acts != [] && !acts[0].Note?
    ensures ran + [acts[0].c] <= RanOf(Perform(Going(ran, errors), acts, env))
  {
    PerformStep(Going(ran, errors), acts, env);
    match Act(Going(ran, errors), acts[0], env)
    case Done(o) => PerformDone(o, acts[1..], env);
    case Going(ran1, errors1) => PerformRan(ran1, errors1, acts[1..], env);
  }

  /** The entries the build pushes onto `errors`: the fallback warning, or the `prepublishOnly` failure. */
  function BuildErrors(plan: BuildPlan, dir: string, env: Env): seq<string> {
    match plan
    case NoBuild => []
    case Lifecycle(m, runPrepublishOnly) =>
      var script := RunScript(m, dir, "prepublishOnly");
      if runPrepublishOnly && env.fails(script).Some? then [env.fails(script).value] else []
    case Fallback(_, script) => [FallbackWarning(script)]
  }

  /** The build pushes exactly the entries `BuildErrors` lists. */
  lemma BuildNotes(plan: BuildPlan, dir: string, env: Env)
    ensures NotesOf(BuildActions(plan, dir), env) == BuildErrors(plan, dir, env)
  {
    match plan
    case NoBuild =>
    case Lifecycle(m, runPrepublishOnly) => LifecycleNotes(m, runPrepublishOnly, dir, env);
    case Fallback(m, script) => FallbackNotes(m, script, dir, env);
  }

  lemma LifecycleNotes(m: PackageManager, runPrepublishOnly: bool, dir: string, env: Env)
    ensures NotesOf(BuildActions(Lifecycle(m, runPrepublishOnly), dir), env) == BuildErrors(Lifecycle(m, runPrepublishOnly), dir, env)
  {
    var acts := BuildActions(Lifecycle(m, runPrepublishOnly), dir);
    NotesOfCons(acts, env);
    if runPrepublishOnly {
      NotesOfCons(acts[1..], env);
      assert acts[1..][1..] == [];
    } else {
      assert acts[1..] == [];
    }
  }

  lemma FallbackNotes(m: PackageManager, script: string, dir: string, env: Env)
    ensures NotesOf(BuildActions(Fallback(m, script), dir), env) == [FallbackWarning(script)]
  {
    var acts := BuildActions(Fallback(m, script), dir);
    NotesOfCons(acts, env);
    NotesOfCons(acts[1..], env);
    NotesOfCons(acts[1..][1..], env);
    assert acts[1..][1..][1..] == [];
  }

  /** What a rebuild runs when nothing throws: the checkout commands, the build, then packing. */
  lemma RebuildCommands(p: Paths, d: PackageDetails, commit: string, env: Env)
    ensures CommandsOf(RebuildActions(p, d, commit, env)) ==
      CheckoutCommands(p, d, commit, env)
      + CommandsOf(BuildActions(PlanBuild(d.scripts, env.yarnLockExists), p.repo))
      + PackCommands(p, d, env)
  {
    var checkout := Musts(CheckoutCommands(p, d, commit, env));
    var build := BuildActions(PlanBuild(d.scripts, env.yarnLockExists), p.repo);
    var pack := Musts(PackCommands(p, d, env));
    CommandsOfAppend(checkout + build, pack);
    CommandsOfAppend(checkout, build);
    MustsFootprint(CheckoutCommands(p, d, commit, env), env);
    MustsFootprint(PackCommands(p, d, env), env);
  }

  /** Of all the steps of a rebuild only the build pushes onto `errors`. */
  lemma RebuildNotes(p: Paths, d: PackageDetails, commit: string, env: Env)
    ensures NotesOf(RebuildActions(p, d, commit, env), env) ==
      BuildErrors(PlanBuild(d.scripts, env.yarnLockExists), p.repo, env)
  {
    var plan := PlanBuild(d.scripts, env.yarnLockExists);
    var checkout := Musts(CheckoutCommands(p, d, commit, env));
    var build := BuildActions(plan, p.repo);
    var pack := Musts(PackCommands(p, d, env));
    NotesOfAppend(checkout + build, pack, env);
    NotesOfAppend(checkout, build, env);
    MustsFootprint(CheckoutCommands(p, d, commit, env), env);
    MustsFootprint(PackCommands(p, d, env), env);
    BuildNotes(plan, p.repo, env);
  }

  /** What the comparison step ends with, when it is reached. */
  predicate ComparedAsListed(p: Paths, env: Env, o: Outcome) {
    o.verdict.Compared? ==>
      var files := ParseDiffList(env.stdout(TreeDiff(p)), p.packageDir);
      env.fails(TreeDiff(p)).None?
      && files.Success?
      && FirstFailingDiff(files.value, p.rebuilt, p.packageDir, env, 0) == |files.value|
      && o.verdict.diffs == FileDiffs(files.value, p.rebuilt, p.packageDir, env)
      && (o.verdict.success <==> AllIgnorable(o.verdict.diffs))
      && |files.value| <= |o.ran|
      && o.ran[|o.ran| - |files.value|..] == DiffCommands(files.value, p.rebuilt, p.packageDir)
  }

  lemma DiffFacts(p: Paths, env: Env, ran: seq<Command>, errors: seq<string>)
    ensures var o := Diff(p, env, ran, errors);
      o.verdict.Compared? || o.verdict.Threw?
    ensures var o := Diff(p, env, ran, errors);
      ThrewHonestly(o, env) && ran <= o.ran && (o.verdict.Compared? ==> o.verdict.errors == errors)
      && ComparedAsListed(p, env, o)
  {
    var unpacked := Act(Going(ran, errors), Must(Extract(p.archive, p.rebuilt)), env);
    if unpacked.Going? && env.fails(TreeDiff(p)).None? {
      CompareFacts(p, env, unpacked.ran + [TreeDiff(p)], errors);
    }
  }

  lemma CompareFacts(p: Paths, env: Env, listed: seq<Command>, errors: seq<string>)
    requires env.fails(TreeDiff(p)).None? && |listed| > 0 && listed[|listed| - 1] == TreeDiff(p)
    ensures var o := CompareListed(p, env, listed, errors);
      (o.verdict.Compared? || o.verdict.Threw?) && ThrewHonestly(o, env) && listed <= o.ran
      && (o.verdict.Compared? ==> o.verdict.errors == errors) && ComparedAsListed(p, env, o)
  {
    var o := CompareListed(p, env, listed, errors);
    var files := ParseDiffList(env.stdout(TreeDiff(p)), p.packageDir);
    if files.Success? {
      var k := FirstFailingDiff(files.value, p.rebuilt, p.packageDir, env, 0);
      if k < |files.value| {
        var tail := DiffCommands(files.value[..k + 1], p.rebuilt, p.packageDir);
        assert o.ran == listed + tail;
        assert o.ran[|o.ran| - 1] == tail[k];
      } else {
        var tail := DiffCommands(files.value, p.rebuilt, p.packageDir);
        assert o.ran == listed + tail;
        assert o.ran[|listed|..] == tail;
      }
    }
  }

  /**
   * The comparison throws the error of the first command that fails: the unpacking, the listing
   * `diff`, or the `diff` of the first file whose `diff` fails, which is then the last command run.
   */
  lemma DiffThrows(p: Paths, env: Env, ran: seq<Command>, errors: seq<string>)
    ensures var o := Diff(p, env, ran, errors);
      env.fails(Extract(p.archive, p.rebuilt)).None? && env.fails(TreeDiff(p)).Some? ==>
        o == Outcome(Threw(env.fails(TreeDiff(p)).value), ran + [Extract(p.archive, p.rebuilt), TreeDiff(p)])
    ensures var o := Diff(p, env, ran, errors);
      var files := ParseDiffList(env.stdout(TreeDiff(p)), p.packageDir);
      env.fails(Extract(p.archive, p.rebuilt)).None? && env.fails(TreeDiff(p)).None? && files.Success? ==>
        var k := FirstFailingDiff(files.value, p.rebuilt, p.packageDir, env, 0);
        (o.verdict.Threw? <==> k < |files.value|)
        && (k < |files.value| ==>
              o.verdict.message == env.fails(DiffCommand(files.value[k], p.rebuilt, p.packageDir)).value
              && o.ran[|o.ran| - 1] == DiffCommand(files.value[k], p.rebuilt, p.packageDir))
  {
    if env.fails(Extract(p.archive, p.rebuilt)).None? && env.fails(TreeDiff(p)).None? {
      CompareThrows(p, env, ran + [Extract(p.archive, p.rebuilt), TreeDiff(p)], errors);
    }
  }

  lemma CompareThrows(p: Paths, env: Env, listed: seq<Command>, errors: seq<string>)
    ensures var o := CompareListed(p, env, listed, errors);
      var files := ParseDiffList(env.stdout(TreeDiff(p)), p.packageDir);
      files.Success? ==>
        var k := FirstFailingDiff(files.value, p.rebuilt, p.packageDir, env, 0);
        (o.verdict.Threw? <==> k < |files.value|)
        && (k < |files.value| ==>
              o.verdict.message == env.fails(DiffCommand(files.value[k], p.rebuilt, p.packageDir)).value
              && o.ran[|o.ran| - 1] == DiffCommand(files.value[k], p.rebuilt, p.packageDir))
  {
    var files := ParseDiffList(env.stdout(TreeDiff(p)), p.packageDir);
    if files.Success? {
      var k := FirstFailingDiff(files.value, p.rebuilt, p.packageDir, env, 0);
      if k < |files.value| {
        var tail := DiffCommands(files.value[..k + 1], p.rebuilt, p.packageDir);
        assert CompareListed(p, env, listed, errors).ran == listed + tail;
        assert tail[k] == DiffCommand(files.value[k], p.rebuilt, p.packageDir);
      }
    }
  }

  /** A rebuild runs the checkout of the selected commit first, after what ran before it. */
  lemma RebuildPrefix(p: Paths, d: PackageDetails, commit: string, env: Env, ran: seq<Command>, errors: seq<string>)
    ensures ran + [GitCheckout(p.repo, commit)] <= Rebuild(p, d, commit, env, Going(ran, errors)).ran
  {
    var acts := RebuildActions(p, d, commit, env);
    RebuildStartsWithCheckout(p, d, commit, env);
    PerformFirst(ran, errors, acts, env);
    RebuildExtends(p, d, commit, env, Going(ran, errors));
    PrefixTransitive(ran + [GitCheckout(p.repo, commit)], RanOf(Perform(Going(ran, errors), acts, env)),
      Rebuild(p, d, commit, env, Going(ran, errors)).ran);
  }

  /** After the actions, the rebuild only adds commands. */
  lemma RebuildExtends(p: Paths, d: PackageDetails, commit: string, env: Env, s: Stage)
    ensures RanOf(Perform(s, RebuildActions(p, d, commit, env), env)) <= Rebuild(p, d, commit, env, s).ran
  {
    var t := Perform(s, RebuildActions(p, d, commit, env), env);
    if t.Going? {
      DiffFacts(p, env, t.ran, t.errors);
    }
  }

  lemma RebuildStartsWithCheckout(p: Paths, d: PackageDetails, commit: string, env: Env)
    ensures RebuildActions(p, d, commit, env) != []
    ensures RebuildActions(p, d, commit, env)[0] == Must(GitCheckout(p.repo, commit))
  {
    var checkout := Musts(CheckoutCommands(p, d, commit, env));
    var build := BuildActions(PlanBuild(d.scripts, env.yarnLockExists), p.repo);
    var pack := Musts(PackCommands(p, d, env));
    HeadOfAppend(checkout, build);
    HeadOfAppend(checkout + build, pack);
  }

  lemma HeadOfAppend<T>(a: seq<T>, b: seq<T>)
    requires a != []
    ensures a + b != [] && (a + b)[0] == a[0]
  {
  }

  /** A rebuild ends by a thrown error, the checksum shortcut or the comparison. */
  lemma RebuildVerdictKinds(p: Paths, d: PackageDetails, commit: string, env: Env, ran: seq<Command>, errors: seq<string>)
    ensures var o := Rebuild(p, d, commit, env, Going(ran, errors));
      ThrewHonestly(o, env) && (o.verdict.Threw? || o.verdict.ChecksumMatch? || o.verdict.Compared?)
  {
    var s := Perform(Going(ran, errors), RebuildActions(p, d, commit, env), env);
    PerformStops(ran, errors, RebuildActions(p, d, commit, env), env);
    if s.Going? {
      DiffFacts(p, env, s.ran, s.errors);
    }
  }

  lemma RebuildCompared(p: Paths, d: PackageDetails, commit: string, env: Env, ran: seq<Command>, errors: seq<string>)
    ensures ComparedAsListed(p, env, Rebuild(p, d, commit, env, Going(ran, errors)))
  {
    var s := Perform(Going(ran, errors), RebuildActions(p, d, commit, env), env);
    PerformStops(ran, errors, RebuildActions(p, d, commit, env), env);
    if s.Going? {
      DiffFacts(p, env, s.ran, s.errors);
    }
  }

  /**
   * The checksum shortcut is taken exactly when the first token of `shasum` is the published
   * checksum, with `shasum` the last command run; the build's pushes follow the earlier errors.
   */
  lemma RebuildChecksum(p: Paths, d: PackageDetails, commit: string, env: Env, ran: seq<Command>, errors: seq<string>)
    ensures var o := Rebuild(p, d, commit, env, Going(ran, errors));
      var shasum := FirstToken(env.stdout(Shasum(p.archive)));
      (o.verdict.ChecksumMatch? ==> shasum == d.dist.shasum && |o.ran| > 0 && o.ran[|o.ran| - 1] == Shasum(p.archive))
      && (o.verdict.Compared? ==> shasum != d.dist.shasum)
    ensures var o := Rebuild(p, d, commit, env, Going(ran, errors));
      var extra := BuildErrors(PlanBuild(d.scripts, env.yarnLockExists), p.repo, env);
      (o.verdict.ChecksumMatch? || o.verdict.Compared?) ==> o.verdict.errors == errors + extra
  {
    var acts := RebuildActions(p, d, commit, env);
    var s := Perform(Going(ran, errors), acts, env);
    PerformStops(ran, errors, acts, env);
    PerformGoing(ran, errors, acts, env);
    RebuildCommands(p, d, commit, env);
    RebuildNotes(p, d, commit, env);
    if s.Going? {
      DiffFacts(p, env, s.ran, s.errors);
    }
  }

  /** Past the early checks: the sync command first, then the revision selection. */
  lemma RunInStart(p: Paths, d: PackageDetails, env: Env)
    requires d.repository.Some? && d.repository.value.kind == "git"
    ensures var o := RunIn(p, d, env);
      var sync := SyncCommand(p.repo, d.repository.value.url, env);
      |o.ran| > 0 && o.ran[0] == sync
      && (env.fails(sync).Some? ==> o == Outcome(Threw(env.fails(sync).value), [sync]))
    ensures var o := RunIn(p, d, env);
      var cands := Candidates(d.gitHead, d.version);
      var commit := Selected(cands, p.repo, env);
      var sync := SyncCommand(p.repo, d.repository.value.url, env);
      env.fails(sync).None? ==>
        (o.verdict.NoRevision? <==> !Truthy(commit))
        && (!Truthy(commit) ==>
              o.ran == [sync] + Probes(cands, p.repo, env)
              && o.verdict.errors == RevisionWarnings(commit, d.gitHead) + [NotFoundError(cands)])
        && (Truthy(commit) ==> [sync] + Probes(cands, p.repo, env) + [GitCheckout(p.repo, commit.value)] <= o.ran)
  {
    var sync := SyncCommand(p.repo, d.repository.value.url, env);
    if env.fails(sync).None? {
      var cands := Candidates(d.gitHead, d.version);
      var commit := Selected(cands, p.repo, env);
      var ran := [sync] + Probes(cands, p.repo, env);
      assert ran[0] == sync;
      if Truthy(commit) {
        var errors := RevisionWarnings(commit, d.gitHead);
        RebuildPrefix(p, d, commit.value, env, ran, errors);
        RebuildVerdictKinds(p, d, commit.value, env, ran, errors);
        var o := Rebuild(p, d, commit.value, env, Going(ran, errors));
        assert o.ran[0] == (ran + [GitCheckout(p.repo, commit.value)])[0];
      }
    }
  }

  /** Past the early checks and with a revision selected, the run goes on to the rebuild. */
  lemma RunInRebuilds(p: Paths, d: PackageDetails, env: Env)
    requires d.repository.Some? && d.repository.value.kind == "git"
    requires env.fails(SyncCommand(p.repo, d.repository.value.url, env)).None?
    requires Truthy(Selected(Candidates(d.gitHead, d.version), p.repo, env))
    ensures var cands := Candidates(d.gitHead, d.version);
      var commit := Selected(cands, p.repo, env);
      var ran := [SyncCommand(p.repo, d.repository.value.url, env)] + Probes(cands, p.repo, env);
      RunIn(p, d, env) == Rebuild(p, d, commit.value, env, Going(ran, RevisionWarnings(commit, d.gitHead)))
  {
  }

  lemma RunInVerdictKinds(p: Paths, d: PackageDetails, env: Env)
    ensures ThrewHonestly(RunIn(p, d, env), env)
    ensures RunIn(p, d, env).verdict.EarlyFailure? <==> d.repository.None? || d.repository.value.kind != "git"
  {
    if d.repository.Some? && d.repository.value.kind == "git" {
      var sync := SyncCommand(p.repo, d.repository.value.url, env);
      if env.fails(sync).None? {
        var cands := Candidates(d.gitHead, d.version);
        var commit := Selected(cands, p.repo, env);
        if Truthy(commit) {
          var ran := [sync] + Probes(cands, p.repo, env);
          RunInRebuilds(p, d, env);
          RebuildVerdictKinds(p, d, commit.value, env, ran, RevisionWarnings(commit, d.gitHead));
        }
      }
    }
  }

  lemma RunInChecksum(p: Paths, d: PackageDetails, env: Env)
    ensures var o := RunIn(p, d, env);
      o.verdict.ChecksumMatch? ==>
        FirstToken(env.stdout(Shasum(p.archive))) == d.dist.shasum && |o.ran| > 0 && o.ran[|o.ran| - 1] == Shasum(p.archive)
  {
    if d.repository.Some? && d.repository.value.kind == "git" {
      var sync := SyncCommand(p.repo, d.repository.value.url, env);
      if env.fails(sync).None? {
        var cands := Candidates(d.gitHead, d.version);
        var commit := Selected(cands, p.repo, env);
        if Truthy(commit) {
          var ran := [sync] + Probes(cands, p.repo, env);
          var errors := RevisionWarnings(commit, d.gitHead);
          RunInRebuilds(p, d, env);
          RebuildChecksum(p, d, commit.value, env, ran, errors);
        }
      }
    }
  }

  lemma RunInMismatch(p: Paths, d: PackageDetails, env: Env)
    ensures var o := RunIn(p, d, env);
      o.verdict.Compared? ==> FirstToken(env.stdout(Shasum(p.archive))) != d.dist.shasum
  {
    if d.repository.Some? && d.repository.value.kind == "git" {
      var sync := SyncCommand(p.repo, d.repository.value.url, env);
      if env.fails(sync).None? {
        var cands := Candidates(d.gitHead, d.version);
        var commit := Selected(cands, p.repo, env);
        if Truthy(commit) {
          var ran := [sync] + Probes(cands, p.repo, env);
          RunInRebuilds(p, d, env);
          RebuildChecksum(p, d, commit.value, env, ran, RevisionWarnings(commit, d.gitHead));
        }
      }
    }
  }

  lemma RunInErrors(p: Paths, d: PackageDetails, env: Env)
    ensures var o := RunIn(p, d, env);
      var commit := Selected(Candidates(d.gitHead, d.version), p.repo, env);
      var extra := BuildErrors(PlanBuild(d.scripts, env.yarnLockExists), p.repo, env);
      (o.verdict.ChecksumMatch? || o.verdict.Compared?) ==> o.verdict.errors == RevisionWarnings(commit, d.gitHead) + extra
  {
    if d.repository.Some? && d.repository.value.kind == "git" {
      var sync := SyncCommand(p.repo, d.repository.value.url, env);
      if env.fails(sync).None? {
        var cands := Candidates(d.gitHead, d.version);
        var commit := Selected(cands, p.repo, env);
        if Truthy(commit) {
          var ran := [sync] + Probes(cands, p.repo, env);
          RunInRebuilds(p, d, env);
          RebuildChecksum(p, d, commit.value, env, ran, RevisionWarnings(commit, d.gitHead));
        }
      }
    }
  }

  lemma RunInCompared(p: Paths, d: PackageDetails, env: Env)
    ensures ComparedAsListed(p, env, RunIn(p, d, env))
  {
    if d.repository.Some? && d.repository.value.kind == "git" {
      var sync := SyncCommand(p.repo, d.repository.value.url, env);
      if env.fails(sync).None? {
        var cands := Candidates(d.gitHead, d.version);
        var commit := Selected(cands, p.repo, env);
        if Truthy(commit) {
          var ran := [sync] + Probes(cands, p.repo, env);
          RunInRebuilds(p, d, env);
          RebuildCompared(p, d, commit.value, env, ran, RevisionWarnings(commit, d.gitHead));
        }
      }
    }
  }

  /**
   * A missing repository, or one that is not a git repository, ends the run with exactly the
   * corresponding message before any command is run; nothing else is an early failure.
   */
  lemma EarlyFailuresRunNothing(v: Variant, d: PackageDetails, env: Env)
    ensures d.repository.None? ==> Run(v, d, env) == Outcome(EarlyFailure(MissingRepository), [])
    ensures d.repository.Some? && d.repository.value.kind != "git" ==>
      Run(v, d, env) == Outcome(EarlyFailure(NotGit), [])
    ensures Run(v, d, env).verdict.EarlyFailure? <==> d.repository.None? || d.repository.value.kind != "git"
  {
    RunInVerdictKinds(PathsOf(v, d.name, d.version), d, env);
  }

  /**
   * Once past the early checks the repository is cloned (from its URL without `git+`) or fetched
   * first, and a failure there ends the run; when no candidate revision exists the run stops after
   * the probes, before any checkout, with the "tried" message last; otherwise the selected revision
   * is checked out right after them.
   */
  lemma RevisionStep(v: Variant, d: PackageDetails, env: Env)
    requires d.repository.Some? && d.repository.value.kind == "git"
    ensures var o := Run(v, d, env);
      var sync := SyncCommand(RepoDir(d.name), d.repository.value.url, env);
      |o.ran| > 0 && o.ran[0] == sync
      && (env.fails(sync).Some? ==> o == Outcome(Threw(env.fails(sync).value), [sync]))
    ensures var o := Run(v, d, env);
      var dir := RepoDir(d.name);
      var cands := Candidates(d.gitHead, d.version);
      var commit := Selected(cands, dir, env);
      var sync := SyncCommand(dir, d.repository.value.url, env);
      env.fails(sync).None? ==>
        (o.verdict.NoRevision? <==> !Truthy(commit))
        && (!Truthy(commit) ==>
              o.ran == [sync] + Probes(cands, dir, env)
              && o.verdict.errors == RevisionWarnings(commit, d.gitHead) + [NotFoundError(cands)])
        && (Truthy(commit) ==> [sync] + Probes(cands, dir, env) + [GitCheckout(dir, commit.value)] <= o.ran)
  {
    RunInStart(PathsOf(v, d.name, d.version), d, env);
  }

  /** A thrown error is always that of the last command that ran, or the `TypeError` of the file list. */
  lemma ThrewReportsLastCommand(v: Variant, d: PackageDetails, env: Env)
    ensures ThrewHonestly(Run(v, d, env), env)
  {
    RunInVerdictKinds(PathsOf(v, d.name, d.version), d, env);
  }

  /** A comparison passes exactly when every differing file is ignorable. */
  lemma RunCompared(v: Variant, d: PackageDetails, env: Env)
    ensures var o := Run(v, d, env);
      o.verdict.Compared? ==> (o.verdict.success <==> AllIgnorable(o.verdict.diffs))
  {
    RunInCompared(PathsOf(v, d.name, d.version), d, env);
  }

  /**
   * The verdicts reached after a rebuild: the checksum shortcut exactly when the first token of
   * `shasum` is the published one, with the `shasum` run last; otherwise the comparison, with one
   * diff per listed file, the diffs run last, and success exactly when every file is ignorable.
   * Both carry the revision warning, then what the build pushed.
   */
  lemma RebuiltVerdicts(v: Variant, d: PackageDetails, env: Env)
    ensures var o := Run(v, d, env);
      var archive := PackedArchive(v, d.name, d.version);
      o.verdict.ChecksumMatch? ==>
        FirstToken(env.stdout(Shasum(archive))) == d.dist.shasum
        && |o.ran| > 0 && o.ran[|o.ran| - 1] == Shasum(archive)
    ensures var o := Run(v, d, env);
      o.verdict.Compared? ==>
        FirstToken(env.stdout(Shasum(PackedArchive(v, d.name, d.version)))) != d.dist.shasum
        && ComparedAsListed(PathsOf(v, d.name, d.version), env, o)
    ensures var o := Run(v, d, env);
      var commit := Selected(Candidates(d.gitHead, d.version), RepoDir(d.name), env);
      var extra := BuildErrors(PlanBuild(d.scripts, env.yarnLockExists), RepoDir(d.name), env);
      (o.verdict.ChecksumMatch? || o.verdict.Compared?) ==>
        o.verdict.errors == RevisionWarnings(commit, d.gitHead) + extra
  {
    RunInChecksum(PathsOf(v, d.name, d.version), d, env);
    RunInMismatch(PathsOf(v, d.name, d.version), d, env);
    RunInErrors(PathsOf(v, d.name, d.version), d, env);
    RunInCompared(PathsOf(v, d.name, d.version), d, env);
  }
}
