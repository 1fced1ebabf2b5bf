/**
 * The library entry points of `src/lib.js` around `processPackage`: the stored-result lookup
 * (`getPackageResultIfExists`), the result record built from a run, and `processPackageIfNeeded`,
 * which serves a stored result or runs the pipeline and stores what it returns.
 */
module Lib {
  import opened Wrappers
  import opened Identifier
  import opened Package
  import opened Registry
  import opened Layout
  import opened Pipeline
  import opened Compare
  import opened Store

  /** The contents of `.tmp/results/` seen as `src/lib.js` results. */
  type Files = map<string, VerificationResult>

  /**
   * `getPackageResultIfExists`: an identifier without a version is an error; otherwise the result
   * stored under its result path, if there is one.
   */
  function GetPackageResultIfExists(files: Files, id: string): (r: Result<Option<VerificationResult>>)
    ensures r.Failure? <==> !HasVersion(Parse(id))
    ensures r.Failure? ==> r.error == MissingVersionError(id)
    ensures r.Success? ==> (r.value.Some? <==> ResultPath(id) in files)
    ensures r.Success? && r.value.Some? ==> r.value.value == files[ResultPath(id)]
  {
    match RequireVersion(id)
    case Failure(e) => Failure(e)
    case Success(_) =>
      var path := ResultPath(id);
      if path in files then Success(Some(files[path])) else Success(None)
  }

  /**
   * The record `processPackage` returns for a verdict, or that the `catch` of
   * `processPackageIfNeeded` builds from a thrown error.
   */
  function ResultOf(d: PackageDetails, verdict: Verdict): VerificationResult {
    var id := IdentifierOf(d);
    match verdict
    case EarlyFailure(e) => VerificationResult(id, d.name, d.version, false, [], [e])
    case NoRevision(errors) => VerificationResult(id, d.name, d.version, false, [], errors)
    case ChecksumMatch(errors) => VerificationResult(id, d.name, d.version, true, [], errors)
    case Compared(success, diffs, errors) => VerificationResult(id, d.name, d.version, success, diffs, errors)
    case Threw(message) => VerificationResult(id, d.name, d.version, false, [], [message])
  }

  /** `processPackage` of `src/lib.js`, with a thrown error already turned into a failed result. */
  function ProcessPackage(d: PackageDetails, env: Env): VerificationResult {
    ResultOf(d, Run(Current, d, env).verdict)
  }

  /** What `processPackageIfNeeded(id)` returns or throws, and the store it leaves. */
  datatype Served = Served(result: Result<VerificationResult>, files: Files)

  function IfNeeded(files: Files, id: string, view: ViewOutput, env: Env): Served {
    match GetPackageResultIfExists(files, id)
    case Failure(e) => Served(Failure(e), files)
    case Success(Some(stored)) => Served(Success(stored), files)
    case Success(None) =>
      match GetPackageDetails(id, view)
      case Failure(e) => Served(Failure(e), files)
      case Success(d) =>
        var result := ProcessPackage(d, env);
        Served(Success(result), files[ResultPath(id) := result])
  }

  /** `processPackageIfNeeded`, step by step, against the results directory. */
  method ProcessPackageIfNeeded(store: ResultStore<VerificationResult>, id: string, view: ViewOutput, env: Env)
    returns (r: Result<VerificationResult>)
    modifies store
    ensures Served(r, store.files) == IfNeeded(old(store.files), id, view, env)
    ensures r.Success? ==> GetPackageResultIfExists(store.files, id) == Success(Some(r.value))
    ensures forall p :: p in old(store.files) ==> p in store.files && store.files[p] == old(store.files)[p]
  {
    ghost var before := store.files;
    ServedResultIsStored(before, id, view, env);
    var cached := GetPackageResultIfExists(store.files, id);
    if cached.Failure? {
      return Failure(cached.error);
    }
    if cached.value.Some? {
      return Success(cached.value.value);
    }
    var details := GetPackageDetails(id, view);
    if details.Failure? {
      return Failure(details.error);
    }
    var d := details.value;
    var verdict, _ := Verify(Current, d, env);
    var result := ResultOf(d, verdict);
    store.Write(ResultPath(id), result);
    return Success(result);
  }

  /**
   * A stored result is returned as it is and the store is left alone: neither the registry nor
   * the pipeline is consulted.
   */
  lemma StoredResultServed(files: Files, id: string, view: ViewOutput, env: Env, view': ViewOutput, env': Env)
    requires HasVersion(Parse(id)) && ResultPath(id) in files
    ensures IfNeeded(files, id, view, env) == Served(Success(files[ResultPath(id)]), files)
    ensures IfNeeded(files, id, view, env) == IfNeeded(files, id, view', env')
  {
  }

  /**
   * `processPackageIfNeeded` writes its result exactly where `getPackageResultIfExists` looks for
   * it, and writes no other file; when it writes nothing the store is unchanged.
   */
  lemma ServedResultIsStored(files: Files, id: string, view: ViewOutput, env: Env)
    ensures var s := IfNeeded(files, id, view, env);
      s.result.Success? ==> GetPackageResultIfExists(s.files, id) == Success(Some(s.result.value))
    ensures var s := IfNeeded(files, id, view, env);
      s.files == files
      || (s.result.Success? && ResultPath(id) !in files && s.files == files[ResultPath(id) := s.result.value])
    ensures var s := IfNeeded(files, id, view, env);
      s.result.Failure? ==> s.files == files
  {
  }

  /** Asking again serves the same answer without changing the store, whatever the registry and builds do. */
  lemma IfNeededIdempotent(files: Files, id: string, view: ViewOutput, env: Env, view': ViewOutput, env': Env)
    requires IfNeeded(files, id, view, env).result.Success?
    ensures var s := IfNeeded(files, id, view, env);
      IfNeeded(s.files, id, view', env') == s
  {
    ServedResultIsStored(files, id, view, env);
  }

  /** The errors `processPackageIfNeeded` throws: a missing version, then a package the registry does not know. */
  lemma IfNeededErrors(files: Files, id: string, view: ViewOutput, env: Env)
    ensures !HasVersion(Parse(id)) ==> IfNeeded(files, id, view, env).result == Failure(MissingVersionError(id))
    ensures HasVersion(Parse(id)) && ResultPath(id) !in files ==>
      (IfNeeded(files, id, view, env).result.Failure? <==> GetPackageDetails(id, view).Failure?)
    ensures HasVersion(Parse(id)) && ResultPath(id) !in files && GetPackageDetails(id, view).Failure? ==>
      IfNeeded(files, id, view, env).result == Failure(NotInRegistryError(id))
  {
  }

  /**
   * An error thrown anywhere in the run becomes a failed result carrying that one message, with
   * the warnings collected before it dropped; every result names the package it is about.
   */
  lemma ThrownErrorBecomesResult(d: PackageDetails, verdict: Verdict)
    ensures var r := ResultOf(d, verdict);
      r.packageIdentifier == Format(d.name, d.version) && r.name == d.name && r.version == d.version
    ensures verdict.Threw? ==>
      ResultOf(d, verdict) == VerificationResult(IdentifierOf(d), d.name, d.version, false, [], [verdict.message])
  {
  }

  /**
   * A missing repository, or one that is not a git repository, gives a failed result with no
   * diffs and exactly the corresponding message, and nothing is run before it.
   */
  lemma EarlyFailureResults(d: PackageDetails, env: Env)
    ensures d.repository.None? ==>
      ProcessPackage(d, env) == VerificationResult(IdentifierOf(d), d.name, d.version, false, [], [MissingRepository])
      && Run(Current, d, env).ran == []
    ensures d.repository.Some? && d.repository.value.kind != "git" ==>
      ProcessPackage(d, env) == VerificationResult(IdentifierOf(d), d.name, d.version, false, [], [NotGit])
      && Run(Current, d, env).ran == []
  {
    EarlyFailuresRunNothing(Current, d, env);
  }

  /**
   * A result is a success exactly when the rebuilt archive's checksum matched (then with no
   * diffs) or when the comparison found only ignorable files; a comparison lists every diff,
   * and both keep the errors collected on the way.
   */
  lemma ResultMeaning(d: PackageDetails, verdict: Verdict)
    ensures var r := ResultOf(d, verdict);
      r.success <==> verdict.ChecksumMatch? || (verdict.Compared? && verdict.success)
    ensures verdict.ChecksumMatch? ==> ResultOf(d, verdict).diffs == [] && ResultOf(d, verdict).errors == verdict.errors
    ensures verdict.Compared? ==> ResultOf(d, verdict).diffs == verdict.diffs && ResultOf(d, verdict).errors == verdict.errors
    ensures verdict.NoRevision? ==> ResultOf(d, verdict).diffs == [] && ResultOf(d, verdict).errors == verdict.errors
    ensures !verdict.ChecksumMatch? && !verdict.Compared? ==> ResultOf(d, verdict).diffs == []
  {
  }

  /** A processed package passes exactly when its checksum matched or every differing file is ignorable. */
  lemma SuccessMeaning(d: PackageDetails, env: Env)
    ensures var verdict := Run(Current, d, env).verdict;
      ResultOf(d, verdict).success <==> verdict.ChecksumMatch? || (verdict.Compared? && AllIgnorable(verdict.diffs))
  {
    var verdict := Run(Current, d, env).verdict;
    ResultMeaning(d, verdict);
    RunCompared(Current, d, env);
  }
}
