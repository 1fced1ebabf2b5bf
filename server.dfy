/**
 * The bookkeeping of `server/server.js`: the jobs in flight (`pendingJobs`), the two `LRUMap`
 * caches, and the `statuses` of a dependency list, as a sequential state machine. A results
 * request either answers from the cache, waits for the job in flight, or starts a job; running a
 * job is a separate event, so requests may come between the start of a job and its end.
 */
module Server {
  import opened Wrappers
  import opened Identifier
  import opened Package
  import opened Registry
  import opened Layout
  import opened Store
  import opened Dependencies
  import Lib

  const ResultsCapacity: nat := 1000
  const DependenciesCapacity: nat := 100

  /**
   * An `LRUMap` with its limit. Which entry a full map evicts is the least recently used one; the
   * model leaves that choice open and keeps only the bound and the entries it does not evict.
   */
  class LruMap<V> {
    var entries: map<string, V>
    const capacity: nat

    ghost predicate Valid()
      reads this
    {
      0 < capacity && |entries| <= capacity
    }

    constructor(capacity: nat)
      requires 0 < capacity
      ensures Valid() && entries == map[] && this.capacity == capacity
    {
      entries := map[];
      this.capacity := capacity;
    }

    /** `set(key, value)`: the entry is stored; a full map first drops one other entry. */
    method Set(key: string, value: V)
      requires Valid()
      modifies this
      ensures Valid()
      ensures key in entries && entries[key] == value
      ensures forall k :: k in entries && k != key ==> k in old(entries) && entries[k] == old(entries)[k]
      ensures key in old(entries) || |old(entries)| < capacity ==> entries == old(entries)[key := value]
      ensures |entries| <= |old(entries)| + 1
    {
      if key !in entries && |entries| == capacity {
        assert entries.Keys != {} by {
          assert |entries.Keys| == |entries|;
        }
        var victim :| victim in entries.Keys;
        entries := entries - {victim};
        assert |entries| == capacity - 1 by {
          assert entries.Keys == old(entries).Keys - {victim};
        }
      }
      entries := entries[key := value];
    }
  }

  /** How a results request is answered, or the job it waits for. */
  datatype ResultsAnswer =
    | Failed(error: string)
    | Cached(result: VerificationResult)
    | Awaiting(job: nat)
    | Rejected(job: nat, error: string)
    | Started(job: nat)

  /** The answer to a dependencies request. */
  datatype DependenciesAnswer = DependenciesAnswer(packageIdentifier: string, dependencies: seq<string>, statuses: map<string, string>)

  function StatusText(r: VerificationResult): string {
    if r.success then "success" else "fail"
  }

  /**
   * The `statuses` loop over the results the store holds: each dependency with a stored result
   * gets its status, and the first dependency without a version is the error thrown.
   */
  /** One step of the `statuses` loop: the status of `dep` when a result was found for it. */
  function AddStatus(statuses: map<string, string>, dep: string, found: Result<Option<VerificationResult>>): Result<map<string, string>> {
    match found
    case Failure(e) => Failure(e)
    case Success(None) => Success(statuses)
    case Success(Some(result)) => Success(statuses[dep := StatusText(result)])
  }

  /**
   * The `statuses` loop over the results the store holds: each dependency with a stored result
   * gets its status, and the first dependency without a version is the error thrown.
   */
  function StatusesOf(deps: seq<string>, files: Lib.Files): Result<map<string, string>>
    decreases |deps|
  {
    if deps == [] then Success(map[])
    else
      match StatusesOf(deps[..|deps| - 1], files)
      case Failure(e) => Failure(e)
      case Success(statuses) =>
        AddStatus(statuses, deps[|deps| - 1], Lib.GetPackageResultIfExists(files, deps[|deps| - 1]))
  }

  /** The list one longer is one more step of the loop. */
  lemma StatusesStep(deps: seq<string>, i: nat, files: Lib.Files, statuses: map<string, string>)
    requires i < |deps| && StatusesOf(deps[..i], files) == Success(statuses)
    ensures StatusesOf(deps[..i + 1], files) == AddStatus(statuses, deps[i], Lib.GetPackageResultIfExists(files, deps[i]))
  {
    assert deps[..i + 1][..i] == deps[..i];
  }

  /** The position of the first dependency without a version, or `|deps|` when every one has one. */
  function FirstWithoutVersion(deps: seq<string>): (i: nat)
    ensures i <= |deps|
    ensures forall j :: 0 <= j < i ==> HasVersion(Parse(deps[j]))
    ensures i < |deps| ==> !HasVersion(Parse(deps[i]))
    decreases |deps|
  {
    if deps == [] then 0
    else
      var n := |deps| - 1;
      var m := FirstWithoutVersion(deps[..n]);
      assert forall j :: 0 <= j < n ==> deps[..n][j] == deps[j];
      if m < n then m
      else if !HasVersion(Parse(deps[n])) then n
      else |deps|
  }

  /**
   * The `statuses` loop throws exactly when some dependency has no version, and then with the
   * error of the first one.
   */
  lemma {:induction false} StatusesFailure(deps: seq<string>, files: Lib.Files)
    ensures StatusesOf(deps, files).Failure? <==> FirstWithoutVersion(deps) < |deps|
    ensures StatusesOf(deps, files).Failure? ==>
      StatusesOf(deps, files).error == MissingVersionError(deps[FirstWithoutVersion(deps)])
    decreases |deps|
  {
    if deps != [] {
      var n := |deps| - 1;
      var init := deps[..n];
      StatusesFailure(init, files);
      if StatusesOf(init, files).Failure? {
        assert init[FirstWithoutVersion(init)] == deps[FirstWithoutVersion(init)];
      } else {
        StatusesStep(deps, n, files, StatusesOf(init, files).value);
        assert deps[..n + 1] == deps;
      }
    }
  }

  /** The statuses the loop is meant to produce: one per dependency with a stored result. */
  function ExpectedStatuses(deps: seq<string>, files: Lib.Files): map<string, string> {
    map dep | dep in deps && ResultPath(dep) in files :: StatusText(files[ResultPath(dep)])
  }

  /**
   * Otherwise `statuses` holds exactly the dependencies with a stored result, with `success`
   * exactly for those whose result succeeded and `fail` for the others.
   */
  lemma {:induction false} StatusesSuccess(deps: seq<string>, files: Lib.Files)
    requires StatusesOf(deps, files).Success?
    ensures StatusesOf(deps, files).value == ExpectedStatuses(deps, files)
    decreases |deps|
  {
    if deps != [] {
      StatusesSuccess(deps[..|deps| - 1], files);
      SuccessStep(deps, files);
    }
  }

  /** The inductive step of `StatusesSuccess`, for the last dependency. */
  lemma SuccessStep(deps: seq<string>, files: Lib.Files)
    requires deps != [] && StatusesOf(deps, files).Success?
    requires StatusesOf(deps[..|deps| - 1], files) == Success(ExpectedStatuses(deps[..|deps| - 1], files))
    ensures StatusesOf(deps, files).value == ExpectedStatuses(deps, files)
  {
    LastStatus(deps, files, ExpectedStatuses(deps[..|deps| - 1], files));
    ExpectedGrows(deps, files);
  }

  /** The last dependency adds its status to those of the others exactly when a result is stored for it. */
  lemma LastStatus(deps: seq<string>, files: Lib.Files, before: map<string, string>)
    requires deps != [] && StatusesOf(deps[..|deps| - 1], files) == Success(before)
    requires StatusesOf(deps, files).Success?
    ensures var dep := deps[|deps| - 1];
      StatusesOf(deps, files).value ==
        if ResultPath(dep) in files then before[dep := StatusText(files[ResultPath(dep)])] else before
  {
    var n := |deps| - 1;
    StatusesStep(deps, n, files, before);
    assert deps[..n + 1] == deps;
    StatusAdded(before, deps[n], files);
  }

  /** One more dependency adds its status exactly when a result is stored for it. */
  lemma ExpectedGrows(deps: seq<string>, files: Lib.Files)
    requires deps != []
    ensures var dep := deps[|deps| - 1];
      var before := ExpectedStatuses(deps[..|deps| - 1], files);
      ExpectedStatuses(deps, files) ==
        if ResultPath(dep) in files then before[dep := StatusText(files[ResultPath(dep)])] else before
  {
    var n := |deps| - 1;
    forall x ensures x in deps <==> x in deps[..n] || x == deps[n] {
      assert deps == deps[..n] + [deps[n]];
    }
  }

  /** One step adds the status of `dep` exactly when a result is stored for it. */
  lemma StatusAdded(statuses: map<string, string>, dep: string, files: Lib.Files)
    requires AddStatus(statuses, dep, Lib.GetPackageResultIfExists(files, dep)).Success?
    ensures var after := AddStatus(statuses, dep, Lib.GetPackageResultIfExists(files, dep)).value;
      && (ResultPath(dep) in files ==> after == statuses[dep := StatusText(files[ResultPath(dep)])])
      && (ResultPath(dep) !in files ==> after == statuses)
  {
  }

  /** The two statuses, and which result each one means. */
  lemma StatusTextMeaning(r: VerificationResult)
    ensures StatusText(r) == "success" <==> r.success
    ensures StatusText(r) == "fail" <==> !r.success
  {
  }

  /** The dependency list of `id`: the cached one, else the one computed from the tool's output. */
  function ListFor(id: string, cached: map<string, seq<string>>, out: ToolOutput, leq: (string, string) -> bool): Result<seq<string>> {
    if id in cached then Success(cached[id]) else GetPackageDependencies(id, out, leq)
  }

  /**
   * The answer for `id` with that list: the list's error, else the error of the `statuses` loop,
   * else the identifier, the list and its statuses.
   */
  function AnswerFor(id: string, deps: Result<seq<string>>, files: Lib.Files): Result<DependenciesAnswer> {
    match deps
    case Failure(e) => Failure(e)
    case Success(ds) =>
      match StatusesOf(ds, files)
      case Failure(e) => Failure(e)
      case Success(statuses) => Success(DependenciesAnswer(id, ds, statuses))
  }

  /**
   * What a dependencies answer means: it fails exactly when the list fails or some dependency on
   * it has no version; otherwise it carries the list, one status per dependency with a stored
   * result, and a freshly computed list is sorted and free of duplicates.
   */
  lemma AnswerMeaning(id: string, cached: map<string, seq<string>>, out: ToolOutput, leq: (string, string) -> bool, files: Lib.Files)
    ensures var deps := ListFor(id, cached, out, leq);
      AnswerFor(id, deps, files).Failure? <==> deps.Failure? || FirstWithoutVersion(deps.value) < |deps.value|
    ensures var deps := ListFor(id, cached, out, leq);
      var a := AnswerFor(id, deps, files);
      a.Success? ==>
        a.value.packageIdentifier == id && a.value.dependencies == deps.value
        && a.value.statuses == ExpectedStatuses(deps.value, files)
    ensures var deps := ListFor(id, cached, out, leq);
      id !in cached && TotalOrder(leq) && deps.Success? ==>
        SortedBy(deps.value, leq) && NoDuplicates(deps.value)
  {
    var deps := ListFor(id, cached, out, leq);
    if deps.Success? {
      StatusesFailure(deps.value, files);
      if StatusesOf(deps.value, files).Success? {
        StatusesSuccess(deps.value, files);
      }
      if id !in cached && TotalOrder(leq) {
        DependenciesSortedAndUnique(id, out, leq, []);
      }
    }
  }

  class Coordinator {
    /** The identifiers whose job is in flight, with the number of that job. */
    var pendingJobs: map<string, nat>
    var nextJob: nat
    /**
     * The jobs that rejected, with their error. A rejected job keeps its `pendingJobs` entry, and
     * awaiting its promise again throws the same error.
     */
    var rejected: map<nat, string>
    const resultsCache: LruMap<VerificationResult>
    const dependenciesCache: LruMap<seq<string>>
    /** The results directory the jobs write to. */
    const store: ResultStore<VerificationResult>

    /**
     * Both caches keep to their limits; every cached result is the one stored for its identifier,
     * so the cache never answers differently from the store; job numbers are never reused.
     */
    ghost predicate Valid()
      reads this, resultsCache, dependenciesCache, store
    {
      && resultsCache.Valid() && resultsCache.capacity == ResultsCapacity
      && dependenciesCache.Valid() && dependenciesCache.capacity == DependenciesCapacity
      && CacheStored() && JobsNumbered()
    }

    ghost predicate CacheStored()
      reads resultsCache, store
    {
      forall k :: k in resultsCache.entries ==>
        Lib.GetPackageResultIfExists(store.files, k) == Success(Some(resultsCache.entries[k]))
    }

    ghost predicate JobsNumbered()
      reads this
    {
      && (forall k :: k in pendingJobs ==> pendingJobs[k] < nextJob)
      && (forall j :: j in rejected ==> j < nextJob)
    }

    constructor(store: ResultStore<VerificationResult>)
      ensures Valid() && fresh(resultsCache) && fresh(dependenciesCache) && this.store == store
      ensures pendingJobs == map[] && rejected == map[] && resultsCache.entries == map[] && dependenciesCache.entries == map[]
    {
      pendingJobs := map[];
      nextJob := 0;
      rejected := map[];
      resultsCache := new LruMap(ResultsCapacity);
      dependenciesCache := new LruMap(DependenciesCapacity);
      this.store := store;
    }

    /**
     * `GET /api/results/<id>` up to the wait: the identifier is resolved first; a cached result is
     * the answer; a job in flight for it is waited for, touching nothing, and when that job has
     * already rejected the wait throws its error; otherwise a new job is registered before
     * waiting. Nothing else changes.
     */
    method RequestResults(raw: string, view: ViewOutput) returns (answer: ResultsAnswer)
      requires Valid()
      modifies this
      ensures Valid()
      ensures var r := Resolve(raw, view);
        && (r.Failure? ==> answer == Failed(r.error) && pendingJobs == old(pendingJobs))
        && (r.Success? && r.value in resultsCache.entries ==>
              answer == Cached(resultsCache.entries[r.value]) && pendingJobs == old(pendingJobs))
        && (r.Success? && r.value !in resultsCache.entries && r.value in old(pendingJobs) ==>
              var job := old(pendingJobs)[r.value];
              answer == (if job in rejected then Rejected(job, rejected[job]) else Awaiting(job))
              && pendingJobs == old(pendingJobs))
        && (r.Success? && r.value !in resultsCache.entries && r.value !in old(pendingJobs) ==>
              answer == Started(old(nextJob)) && pendingJobs == old(pendingJobs)[r.value := old(nextJob)])
      ensures rejected == old(rejected) && (answer.Started? ==> answer.job !in rejected)
      ensures answer.Cached? ==> Lib.GetPackageResultIfExists(store.files, Resolve(raw, view).value) == Success(Some(answer.result))
    {
      var resolved := Resolve(raw, view);
      if resolved.Failure? {
        answer := Failed(resolved.error);
      } else {
        answer := Admit(resolved.value);
      }
    }

    /** The request for a resolved identifier: the cache, else the job in flight, else a new job. */
    method Admit(id: string) returns (answer: ResultsAnswer)
      requires Valid()
      modifies this
      ensures Valid()
      ensures id in resultsCache.entries ==> answer == Cached(resultsCache.entries[id]) && pendingJobs == old(pendingJobs)
      ensures id !in resultsCache.entries && id in old(pendingJobs) ==>
        var job := old(pendingJobs)[id];
        answer == (if job in rejected then Rejected(job, rejected[job]) else Awaiting(job))
        && pendingJobs == old(pendingJobs)
      ensures id !in resultsCache.entries && id !in old(pendingJobs) ==>
        answer == Started(old(nextJob)) && pendingJobs == old(pendingJobs)[id := old(nextJob)]
      ensures rejected == old(rejected) && (answer.Started? ==> answer.job !in rejected)
      ensures answer.Cached? ==> Lib.GetPackageResultIfExists(store.files, id) == Success(Some(answer.result))
    {
      if id in resultsCache.entries {
        answer := Cached(resultsCache.entries[id]);
      } else if id in pendingJobs {
        var job := pendingJobs[id];
        answer := if job in rejected then Rejected(job, rejected[job]) else Awaiting(job);
      } else {
        pendingJobs := pendingJobs[id := nextJob];
        answer := Started(nextJob);
        nextJob := nextJob + 1;
      }
    }

    /**
     * The job for `id` runs `processPackageIfNeeded` to its end, once. When it resolves, the entry
     * in flight is removed and the result cached under the same identifier; when it rejects,
     * neither happens: the entry in flight stays and the job is recorded as rejected, so later
     * requests for `id` get its error and no job for `id` runs again.
     */
    method RunJob(id: string, view: ViewOutput, env: Env) returns (outcome: Result<VerificationResult>)
      requires Valid() && id in pendingJobs && pendingJobs[id] !in rejected
      modifies this, store, resultsCache
      ensures Valid()
      ensures Lib.Served(outcome, store.files) == Lib.IfNeeded(old(store.files), id, view, env)
      ensures outcome.Success? ==>
        pendingJobs == old(pendingJobs) - {id} && id in resultsCache.entries && resultsCache.entries[id] == outcome.value
      ensures outcome.Success? ==> forall k :: k in resultsCache.entries && k != id ==>
        k in old(resultsCache.entries) && resultsCache.entries[k] == old(resultsCache.entries)[k]
      ensures outcome.Failure? ==> pendingJobs == old(pendingJobs) && resultsCache.entries == old(resultsCache.entries)
      ensures outcome.Success? ==> rejected == old(rejected)
      ensures outcome.Failure? ==> rejected == old(rejected)[old(pendingJobs)[id] := outcome.error]
      ensures nextJob == old(nextJob)
    {
      ghost var before := store.files;
      outcome := Lib.ProcessPackageIfNeeded(store, id, view, env);
      CacheStillStored(before, store.files);
      Settle(id, outcome);
    }

    /**
     * What follows the `await`: a resolved job leaves `pendingJobs` and enters `resultsCache`; a
     * rejected one stays in `pendingJobs` with its error recorded.
     */
    method Settle(id: string, outcome: Result<VerificationResult>)
      requires Valid() && id in pendingJobs
      requires outcome.Success? ==> Lib.GetPackageResultIfExists(store.files, id) == Success(Some(outcome.value))
      modifies this, resultsCache
      ensures Valid()
      ensures outcome.Success? ==>
        pendingJobs == old(pendingJobs) - {id} && id in resultsCache.entries && resultsCache.entries[id] == outcome.value
      ensures outcome.Success? ==> forall k :: k in resultsCache.entries && k != id ==>
        k in old(resultsCache.entries) && resultsCache.entries[k] == old(resultsCache.entries)[k]
      ensures outcome.Failure? ==> pendingJobs == old(pendingJobs) && resultsCache.entries == old(resultsCache.entries)
      ensures outcome.Success? ==> rejected == old(rejected)
      ensures outcome.Failure? ==> rejected == old(rejected)[old(pendingJobs)[id] := outcome.error]
      ensures nextJob == old(nextJob)
    {
      if outcome.Success? {
        pendingJobs := pendingJobs - {id};
        Remember(id, outcome.value);
      } else {
        rejected := rejected[pendingJobs[id] := outcome.error];
      }
    }

    /** Storing a result where none was keeps every cached result the stored one. */
    lemma CacheStillStored(before: Lib.Files, after: Lib.Files)
      requires forall k :: k in resultsCache.entries ==>
        Lib.GetPackageResultIfExists(before, k) == Success(Some(resultsCache.entries[k]))
      requires forall p :: p in before ==> p in after && after[p] == before[p]
      ensures forall k :: k in resultsCache.entries ==>
        Lib.GetPackageResultIfExists(after, k) == Success(Some(resultsCache.entries[k]))
    {
      forall k | k in resultsCache.entries
        ensures Lib.GetPackageResultIfExists(after, k) == Success(Some(resultsCache.entries[k]))
      {
        assert ResultPath(k) in before;
      }
    }

    /**
     * `GET /api/dependencies/<id>`: the identifier is resolved; the list comes from the cache, or
     * is computed once and cached; then `statuses` is filled from the results cache, or else the
     * store, caching each result it finds. A request changes no job.
     */
    method RequestDependencies(raw: string, view: ViewOutput, out: ToolOutput, leq: (string, string) -> bool)
      returns (answer: Result<DependenciesAnswer>)
      requires Valid()
      modifies dependenciesCache, resultsCache
      ensures Valid()
      ensures var r := Resolve(raw, view);
        r.Failure? ==> answer == Failure(r.error) && unchanged(dependenciesCache, resultsCache)
      ensures var r := Resolve(raw, view);
        r.Success? && r.value in old(dependenciesCache.entries) ==> dependenciesCache.entries == old(dependenciesCache.entries)
      ensures var r := Resolve(raw, view);
        r.Success? && r.value !in old(dependenciesCache.entries) ==>
          var computed := GetPackageDependencies(r.value, out, leq);
          (computed.Success? ==> r.value in dependenciesCache.entries && dependenciesCache.entries[r.value] == computed.value)
          && (computed.Failure? ==> dependenciesCache.entries == old(dependenciesCache.entries))
      ensures var r := Resolve(raw, view);
        r.Success? ==>
          answer == AnswerFor(r.value, ListFor(r.value, old(dependenciesCache.entries), out, leq), store.files)
      ensures answer.Success? ==> forall k :: k in resultsCache.entries ==>
        k in old(resultsCache.entries) || k in answer.value.dependencies
      ensures answer.Success? && |old(resultsCache.entries)| + |answer.value.dependencies| <= ResultsCapacity ==>
        forall dep :: dep in answer.value.statuses ==> dep in resultsCache.entries
    {
      var resolved := Resolve(raw, view);
      if resolved.Failure? {
        return Failure(resolved.error);
      }
      var id := resolved.value;
      var deps := CachedDependencies(id, out, leq);
      if deps.Failure? {
        return Failure(deps.error);
      }
      var statuses := CollectStatuses(deps.value);
      if statuses.Failure? {
        return Failure(statuses.error);
      }
      return Success(DependenciesAnswer(id, deps.value, statuses.value));
    }

    /** The cached list of `id`, or else the computed one, which is then cached. */
    method CachedDependencies(id: string, out: ToolOutput, leq: (string, string) -> bool) returns (deps: Result<seq<string>>)
      requires dependenciesCache.Valid()
      modifies dependenciesCache
      ensures dependenciesCache.Valid()
      ensures id in old(dependenciesCache.entries) ==>
        deps == Success(old(dependenciesCache.entries)[id]) && dependenciesCache.entries == old(dependenciesCache.entries)
      ensures id !in old(dependenciesCache.entries) ==> deps == GetPackageDependencies(id, out, leq)
      ensures id !in old(dependenciesCache.entries) && deps.Failure? ==> dependenciesCache.entries == old(dependenciesCache.entries)
      ensures id !in old(dependenciesCache.entries) && deps.Success? ==>
        id in dependenciesCache.entries && dependenciesCache.entries[id] == deps.value
    {
      if id in dependenciesCache.entries {
        return Success(dependenciesCache.entries[id]);
      }
      deps := GetPackageDependencies(id, out, leq);
      if deps.Success? {
        dependenciesCache.Set(id, deps.value);
      }
    }

    /** The lookup of the loop: the cached result, else the stored one; the two agree. */
    method Lookup(dep: string) returns (found: Result<Option<VerificationResult>>)
      requires Valid()
      ensures found == Lib.GetPackageResultIfExists(store.files, dep)
    {
      if dep in resultsCache.entries {
        return Success(Some(resultsCache.entries[dep]));
      }
      found := Lib.GetPackageResultIfExists(store.files, dep);
    }

    /** `resultsCache.set(dep, result)` for a result that is the stored one. */
    method Remember(dep: string, result: VerificationResult)
      requires Valid() && Lib.GetPackageResultIfExists(store.files, dep) == Success(Some(result))
      modifies resultsCache
      ensures Valid()
      ensures dep in resultsCache.entries && resultsCache.entries[dep] == result
      ensures forall k :: k in resultsCache.entries && k != dep ==>
        k in old(resultsCache.entries) && resultsCache.entries[k] == old(resultsCache.entries)[k]
      ensures dep in old(resultsCache.entries) || |old(resultsCache.entries)| < ResultsCapacity ==>
        resultsCache.entries == old(resultsCache.entries)[dep := result]
      ensures |resultsCache.entries| <= |old(resultsCache.entries)| + 1
    {
      ghost var before := resultsCache.entries;
      resultsCache.Set(dep, result);
      forall k | k in resultsCache.entries
        ensures Lib.GetPackageResultIfExists(store.files, k) == Success(Some(resultsCache.entries[k]))
      {
        if k != dep {
          assert k in before && resultsCache.entries[k] == before[k];
        }
      }
    }

    /** The `statuses` loop: a cached result first, else the stored one, caching each one found. */
    method CollectStatuses(deps: seq<string>) returns (statuses: Result<map<string, string>>)
      requires Valid()
      modifies resultsCache
      ensures Valid()
      ensures statuses == StatusesOf(deps, store.files)
      ensures forall k :: k in resultsCache.entries ==> k in old(resultsCache.entries) || k in deps
      ensures statuses.Success? && |old(resultsCache.entries)| + |deps| <= ResultsCapacity ==>
        forall dep :: dep in statuses.value ==> dep in resultsCache.entries
    {
      var collected: map<string, string> := map[];
      var i := 0;
      while i < |deps|
        invariant 0 <= i <= |deps|
        invariant Valid()
        invariant StatusesOf(deps[..i], store.files) == Success(collected)
        invariant forall k :: k in resultsCache.entries ==> k in old(resultsCache.entries) || k in deps
        invariant |resultsCache.entries| <= |old(resultsCache.entries)| + i
        invariant |old(resultsCache.entries)| + |deps| <= ResultsCapacity ==>
          forall dep :: dep in collected ==> dep in resultsCache.entries
      {
        var next := StatusStep(deps, i, collected);
        if next.Failure? {
          StatusesStop(deps, i, store.files);
          return next;
        }
        collected := next.value;
        i := i + 1;
      }
      assert deps[..|deps|] == deps;
      return Success(collected);
    }

    /** One pass of the loop body, for `deps[i]`. */
    method StatusStep(deps: seq<string>, i: nat, collected: map<string, string>) returns (next: Result<map<string, string>>)
      requires Valid() && i < |deps| && StatusesOf(deps[..i], store.files) == Success(collected)
      modifies resultsCache
      ensures Valid()
      ensures next == StatusesOf(deps[..i + 1], store.files)
      ensures forall k :: k in resultsCache.entries ==> k in old(resultsCache.entries) || k == deps[i]
      ensures |resultsCache.entries| <= |old(resultsCache.entries)| + 1
      ensures |old(resultsCache.entries)| < ResultsCapacity ==>
        forall k :: k in old(resultsCache.entries) ==> k in resultsCache.entries
      ensures next.Success? ==> forall k :: k in next.value ==> k in collected || k in resultsCache.entries
    {
      var dep := deps[i];
      var found := Lookup(dep);
      StatusesStep(deps, i, store.files, collected);
      if found.Success? && found.value.Some? {
        Remember(dep, found.value.value);
      }
      next := AddStatus(collected, dep, found);
    }

    /** Once the loop throws, the rest of the list changes nothing. */
    lemma StatusesStop(deps: seq<string>, i: nat, files: Lib.Files)
      requires i < |deps| && StatusesOf(deps[..i + 1], files).Failure?
      ensures StatusesOf(deps, files) == StatusesOf(deps[..i + 1], files)
    {
      StatusesFailureSticks(deps, i + 1, files);
    }
  }

  lemma {:induction false} StatusesFailureSticks(deps: seq<string>, n: nat, files: Lib.Files)
    requires 0 < n <= |deps| && StatusesOf(deps[..n], files).Failure?
    ensures StatusesOf(deps, files) == StatusesOf(deps[..n], files)
    decreases |deps| - n
  {
    if n < |deps| {
      assert deps[..n + 1][..n] == deps[..n];
      StatusesFailureSticks(deps, n + 1, files);
    } else {
      assert deps[..n] == deps;
    }
  }
}
