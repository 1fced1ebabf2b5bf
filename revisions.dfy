/**
 * Choosing the commit to rebuild from (`src/lib.js:166-193`, `src/main.js:108-123`): the candidate
 * revisions, the first one `git rev-parse --verify` accepts, and the warnings that choice produces.
 */
module Revisions {
  import opened Wrappers
  import opened Text
  import opened Package

  /** JavaScript truthiness of an optional string: present and not empty. */
  predicate Truthy(o: Option<string>) {
    o.Some? && o.value != ""
  }

  /** How a template literal renders an optional string: an absent one reads `undefined`. */
  function JsText(o: Option<string>): string {
    if o.Some? then o.value else "undefined"
  }

  /** `possibleCommits`: the published `gitHead` when it is truthy, then the tag `v<version>`, then `<version>`. */
  function Candidates(gitHead: Option<string>, version: string): (c: seq<string>)
    ensures |c| == if Truthy(gitHead) then 3 else 2
    ensures Truthy(gitHead) ==> c[0] == gitHead.value
    ensures c[|c| - 2] == "v" + version && c[|c| - 1] == version
  {
    (if Truthy(gitHead) then [gitHead.value] else []) + ["v" + version, version]
  }

  /** `gitRevisionExists`: `git rev-parse -q --verify <rev>^{commit}` does not fail. */
  predicate RevisionExists(env: Env, dir: string, rev: string) {
    env.fails(GitRevParse(dir, rev)).None?
  }

  /** The index of the first candidate, from `i` on, that names an existing commit. */
  function FirstExistingFrom(cands: seq<string>, dir: string, env: Env, i: nat): (r: Option<nat>)
    requires i <= |cands|
    ensures r.Some? ==> i <= r.value < |cands| && RevisionExists(env, dir, cands[r.value])
    ensures r.Some? ==> forall j :: i <= j < r.value ==> !RevisionExists(env, dir, cands[j])
    ensures r.None? ==> forall j :: i <= j < |cands| ==> !RevisionExists(env, dir, cands[j])
    decreases |cands| - i
  {
    if i == |cands| then None
    else if RevisionExists(env, dir, cands[i]) then Some(i)
    else FirstExistingFrom(cands, dir, env, i + 1)
  }

  /** The selected `commit`: `undefined` (`None`) when no candidate exists. */
  function Selected(cands: seq<string>, dir: string, env: Env): Option<string> {
    match FirstExistingFrom(cands, dir, env, 0)
    case None => None
    case Some(k) => Some(cands[k])
  }

  /** How many candidates are probed: up to and including the selected one, or all of them. */
  function ProbeCount(cands: seq<string>, dir: string, env: Env): (n: nat)
    ensures n <= |cands|
    ensures Selected(cands, dir, env).Some? ==>
      1 <= n && cands[n - 1] == Selected(cands, dir, env).value && RevisionExists(env, dir, cands[n - 1])
    ensures Selected(cands, dir, env).None? ==> n == |cands|
    ensures n < |cands| ==> RevisionExists(env, dir, cands[n - 1])
  {
    match FirstExistingFrom(cands, dir, env, 0)
    case None => |cands|
    case Some(k) => k + 1
  }

  /** One `git rev-parse` per revision, in order. */
  function RevParses(dir: string, revs: seq<string>): (cs: seq<Command>)
    ensures |cs| == |revs|
    ensures forall i :: 0 <= i < |revs| ==> cs[i] == GitRevParse(dir, revs[i])
  {
    if revs == [] then [] else [GitRevParse(dir, revs[0])] + RevParses(dir, revs[1..])
  }

  /** The commands the selection loop runs before it breaks out or runs out of candidates. */
  function Probes(cands: seq<string>, dir: string, env: Env): seq<Command> {
    RevParses(dir, cands[..ProbeCount(cands, dir, env)])
  }

  /** The selection loop of `processPackage`: try each candidate in order and stop at the first that exists. */
  method SelectRevision(dir: string, cands: seq<string>, env: Env) returns (commit: Option<string>, probes: seq<Command>)
    ensures commit == Selected(cands, dir, env)
    ensures probes == Probes(cands, dir, env)
  {
    commit := None;
    probes := [];
    var i := 0;
    while i < |cands|
      invariant 0 <= i <= |cands|
      invariant forall j :: 0 <= j < i ==> !RevisionExists(env, dir, cands[j])
      invariant probes == RevParses(dir, cands[..i])
    {
      probes := probes + [GitRevParse(dir, cands[i])];
      assert cands[..i + 1] == cands[..i] + [cands[i]];
      RevParsesAppend(dir, cands[..i], cands[i]);
      if env.fails(GitRevParse(dir, cands[i])).None? {
        commit := Some(cands[i]);
        FirstExistingIs(cands, dir, env, i);
        return;
      }
      i := i + 1;
    }
    FirstExistingNone(cands, dir, env);
    assert cands[..|cands|] == cands;
  }

  lemma RevParsesAppend(dir: string, revs: seq<string>, rev: string)
    ensures RevParses(dir, revs + [rev]) == RevParses(dir, revs) + [GitRevParse(dir, rev)]
  {
    var l := RevParses(dir, revs + [rev]);
    var r := RevParses(dir, revs) + [GitRevParse(dir, rev)];
    assert |l| == |r|;
    forall i | 0 <= i < |l| ensures l[i] == r[i] {
      if i < |revs| {
        assert (revs + [rev])[i] == revs[i];
      }
    }
  }

  /** The first existing candidate is the one at `k` when every earlier one is missing. */
  lemma FirstExistingIs(cands: seq<string>, dir: string, env: Env, k: nat)
    requires k < |cands| && RevisionExists(env, dir, cands[k])
    requires forall j :: 0 <= j < k ==> !RevisionExists(env, dir, cands[j])
    ensures FirstExistingFrom(cands, dir, env, 0) == Some(k)
  {
  }

  lemma FirstExistingNone(cands: seq<string>, dir: string, env: Env)
    requires forall j :: 0 <= j < |cands| ==> !RevisionExists(env, dir, cands[j])
    ensures FirstExistingFrom(cands, dir, env, 0).None?
  {
  }

  function UnreachableWarning(gitHead: Option<string>): string {
    "package was published to npm using unreachable git commit: " + JsText(gitHead) + ". Will try tags."
  }

  function NotFoundError(cands: seq<string>): string {
    "could not find any relevant commits, tried: " + Join(cands, " ")
  }

  /** The warning pushed whenever the selected commit is not (strictly) the published `gitHead`. */
  function RevisionWarnings(commit: Option<string>, gitHead: Option<string>): seq<string> {
    if commit != gitHead then [UnreachableWarning(gitHead)] else []
  }

  /**
   * The selection is the first candidate that exists: the published `gitHead` whenever it is
   * truthy and exists, otherwise a tag, and nothing only when no candidate exists.
   */
  lemma SelectionIsFirstExisting(gitHead: Option<string>, version: string, dir: string, env: Env)
    ensures var cands := Candidates(gitHead, version);
      Truthy(gitHead) && RevisionExists(env, dir, gitHead.value) ==> Selected(cands, dir, env) == gitHead
    ensures var cands := Candidates(gitHead, version);
      Selected(cands, dir, env).None? <==> forall c :: c in cands ==> !RevisionExists(env, dir, c)
    ensures var cands := Candidates(gitHead, version);
      Selected(cands, dir, env).Some? ==> Selected(cands, dir, env).value in cands
  {
    var cands := Candidates(gitHead, version);
    if Truthy(gitHead) && RevisionExists(env, dir, gitHead.value) {
      FirstExistingIs(cands, dir, env, 0);
    }
    var r := FirstExistingFrom(cands, dir, env, 0);
    if r.Some? {
      assert cands[r.value] in cands;
    } else {
      forall c | c in cands ensures !RevisionExists(env, dir, c) {
        var j :| 0 <= j < |cands| && cands[j] == c;
      }
    }
  }

  /**
   * The warning rule: with a truthy `gitHead` it is issued exactly when that commit does not exist;
   * with no `gitHead` exactly when a tag was found, so not when nothing was found.
   */
  lemma WarningRule(gitHead: Option<string>, version: string, dir: string, env: Env)
    ensures var commit := Selected(Candidates(gitHead, version), dir, env);
      Truthy(gitHead) ==>
        (RevisionWarnings(commit, gitHead) != [] <==> !RevisionExists(env, dir, gitHead.value))
    ensures var commit := Selected(Candidates(gitHead, version), dir, env);
      gitHead.None? ==> (RevisionWarnings(commit, gitHead) != [] <==> commit.Some?)
  {
    SelectionIsFirstExisting(gitHead, version, dir, env);
  }
}
