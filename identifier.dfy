/**
 * Package identifiers `name@version`, parsed the way `parsePackageIdentifier` does: with the
 * regular expression `(@?[^@]+)@?(.*)`, searched leftmost, no flags.
 */
module Identifier {
  import opened Wrappers
  import opened Text

  datatype PackageIdentifier = PackageIdentifier(name: string, version: string)

  /** `name@version`, the template literal used wherever an identifier is rebuilt. */
  function Format(name: string, version: string): string {
    name + "@" + version
  }

  /** The group `(@?[^@]+)` can match starting at `i`: a non-`@`, or an `@` followed by a non-`@`. */
  predicate MatchBeginsAt(s: string, i: nat) {
    i < |s| && (s[i] != '@' || (i + 1 < |s| && s[i + 1] != '@'))
  }

  /** The leftmost position, from `i` on, at which the regular expression matches. */
  function LeftmostFrom(s: string, i: nat): (r: Option<nat>)
    requires i <= |s|
    ensures r.Some? ==> i <= r.value < |s| && MatchBeginsAt(s, r.value)
    ensures r.Some? ==> forall j :: i <= j < r.value ==> !MatchBeginsAt(s, j)
    ensures r.None? ==> forall j :: i <= j < |s| ==> !MatchBeginsAt(s, j)
    decreases |s| - i
  {
    if i == |s| then None
    else if MatchBeginsAt(s, i) then Some(i)
    else LeftmostFrom(s, i + 1)
  }

  /** `[^@]+` is greedy: the run of non-`@` characters from `j` ends at the next `@` or at the end. */
  function RunEnd(s: string, j: nat): (e: nat)
    requires j <= |s|
    ensures j <= e <= |s| && (e < |s| ==> s[e] == '@')
    ensures forall k :: j <= k < e ==> s[k] != '@'
    decreases |s| - j
  {
    if j == |s| || s[j] == '@' then j else RunEnd(s, j + 1)
  }

  /** `.*` stops at the first line terminator. */
  function LineEnd(s: string, k: nat): (e: nat)
    requires k <= |s|
    ensures k <= e <= |s| && (e < |s| ==> IsLineTerminator(s[e]))
    ensures forall m :: k <= m < e ==> !IsLineTerminator(s[m])
    decreases |s| - k
  {
    if k == |s| || IsLineTerminator(s[k]) then k else LineEnd(s, k + 1)
  }

  /** A name the first group can capture whole: an optional leading `@`, then at least one character, and no other `@`. */
  predicate ValidName(n: string) {
    |n| >= 1 && (n[0] == '@' ==> |n| >= 2) && forall i :: 1 <= i < |n| ==> n[i] != '@'
  }

  /**
   * `parsePackageIdentifier`: `None` when the expression does not match at all (then both
   * `name` and `version` are `undefined`); otherwise the two captured groups.
   */
  function Parse(s: string): (r: Option<PackageIdentifier>)
    ensures r.Some? <==> exists i :: 0 <= i < |s| && MatchBeginsAt(s, i)
    ensures r.Some? ==> ValidName(r.value.name) && NoLineTerminator(r.value.version)
  {
    match LeftmostFrom(s, 0)
    case None => None
    case Some(i) =>
      var j := if s[i] == '@' then i + 1 else i;
      var e := RunEnd(s, j);
      var k := if e < |s| then e + 1 else e;
      Some(PackageIdentifier(s[i..e], s[k..LineEnd(s, k)]))
  }

  /** `!parsePackageIdentifier(id).version` is false: a version was captured and it is not empty. */
  predicate HasVersion(p: Option<PackageIdentifier>) {
    p.Some? && p.value.version != ""
  }

  /** The message of the error thrown by the version-required guards. */
  function MissingVersionError(id: string): string {
    "expected version in packageIdentifier: " + id
  }

  /** The version-required guard of `getPackageResultIfExists` and `getPackageDependencies`. */
  function RequireVersion(id: string): (r: Result<PackageIdentifier>)
    ensures r.Success? <==> HasVersion(Parse(id))
    ensures r.Success? ==> Some(r.value) == Parse(id) && r.value.version != ""
    ensures r.Failure? ==> r.error == MissingVersionError(id)
  {
    if HasVersion(Parse(id)) then Success(Parse(id).value) else Failure(MissingVersionError(id))
  }

  /** With the match at the very start, the name runs to the next `@` and the version follows it. */
  lemma ParseAtStart(s: string)
    requires MatchBeginsAt(s, 0)
    ensures var e := RunEnd(s, if s[0] == '@' then 1 else 0);
      var k := if e < |s| then e + 1 else e;
      Parse(s) == Some(PackageIdentifier(s[..e], s[k..LineEnd(s, k)]))
  {
    assert LeftmostFrom(s, 0) == Some(0);
  }

  /**
   * On one line, with the match at the very start, the input is the name alone or the name, an `@`
   * and the version; a missing version is the empty string.
   */
  lemma ParseWholeInput(s: string)
    requires NoLineTerminator(s) && MatchBeginsAt(s, 0)
    ensures Parse(s).Some?
    ensures var p := Parse(s).value;
      (s == p.name && p.version == "") || s == Format(p.name, p.version)
    ensures var p := Parse(s).value;
      (s[0] == '@' <==> p.name[0] == '@') && forall i :: 1 <= i < |p.name| ==> p.name[i] != '@'
  {
    ParseAtStart(s);
    var e := RunEnd(s, if s[0] == '@' then 1 else 0);
    var k := if e < |s| then e + 1 else e;
    LineEndAt(s, k, |s|);
    if e < |s| {
      assert s == s[..e] + "@" + s[e + 1..];
    }
  }

  /** Parsing a formatted identifier gives back its parts, for every name the first group captures whole. */
  lemma ParseFormat(name: string, version: string)
    requires ValidName(name) && NoLineTerminator(version)
    ensures Parse(Format(name, version)) == Some(PackageIdentifier(name, version))
  {
    var s := Format(name, version);
    assert MatchBeginsAt(s, 0);
    ParseAtStart(s);
    RunEndAt(s, if s[0] == '@' then 1 else 0, |name|);
    LineEndAt(s, |name| + 1, |s|);
    assert s[..|name|] == name;
    assert s[|name| + 1..|s|] == version;
  }

  /** A name alone parses to itself with an empty version. */
  lemma ParseBareName(name: string)
    requires ValidName(name)
    ensures Parse(name) == Some(PackageIdentifier(name, ""))
  {
    assert MatchBeginsAt(name, 0);
    ParseAtStart(name);
    RunEndAt(name, if name[0] == '@' then 1 else 0, |name|);
    LineEndAt(name, |name|, |name|);
    assert name[..|name|] == name;
    assert name[|name|..|name|] == "";
  }

  lemma {:induction false} RunEndAt(s: string, j: nat, e: nat)
    requires j <= e <= |s| && (e < |s| ==> s[e] == '@')
    requires forall k :: j <= k < e ==> s[k] != '@'
    ensures RunEnd(s, j) == e
    decreases e - j
  {
    if j < e {
      RunEndAt(s, j + 1, e);
    }
  }

  lemma {:induction false} LineEndAt(s: string, k: nat, e: nat)
    requires k <= e <= |s| && (e < |s| ==> IsLineTerminator(s[e]))
    requires forall m :: k <= m < e ==> !IsLineTerminator(s[m])
    ensures LineEnd(s, k) == e
    decreases e - k
  {
    if k < e {
      LineEndAt(s, k + 1, e);
    }
  }

  /** The expression fails to match exactly the inputs made of `@` alone, the empty one included. */
  lemma NoMatchIffOnlyAts(s: string)
    ensures Parse(s).None? <==> forall i :: 0 <= i < |s| ==> s[i] == '@'
  {
    if forall i :: 0 <= i < |s| ==> s[i] == '@' {
      forall i | 0 <= i < |s| ensures !MatchBeginsAt(s, i) {
        if i + 1 < |s| {
          assert s[i + 1] == '@';
        }
      }
    } else {
      var i :| 0 <= i < |s| && s[i] != '@';
      assert MatchBeginsAt(s, i);
    }
  }

  /** A non-empty input with no name: `@` yields neither a name nor a version. */
  lemma LoneAtHasNoName()
    ensures Parse("@") == None
    ensures Parse("@@a") == Some(PackageIdentifier("@a", ""))
  {
    NoMatchIffOnlyAts("@");
    assert !MatchBeginsAt("@@a", 0) && MatchBeginsAt("@@a", 1);
    assert LeftmostFrom("@@a", 0) == LeftmostFrom("@@a", 1) == Some(1);
    assert RunEnd("@@a", 3) == 3;
    assert RunEnd("@@a", 2) == 3;
    assert LineEnd("@@a", 3) == 3;
    assert "@@a"[1..3] == "@a" && "@@a"[3..3] == "";
  }
}
