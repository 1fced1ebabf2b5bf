/**
 * The dependency list of `src/lib.js:346-372`: the output of `npx npm-remote-ls <id> -d false
 * -o false` checked, each tree line after the first matched by `─ (@?)(.+)@(.+)` and rendered as
 * `${scope}${name}@${version}`, duplicates dropped and the rest sorted by `localeCompare`.
 */
module Dependencies {
  import opened Wrappers
  import opened Text
  import opened Identifier

  /** What the tool printed on standard output and standard error. */
  datatype ToolOutput = ToolOutput(stdout: string, stderr: string)

  /** How the tool's tree output begins. */
  const TreeRoot := "└─"

  /** `─ ` (a box-drawing dash and a space) starts at `i`. */
  predicate ArrowAt(line: string, i: nat) {
    i + 2 <= |line| && line[i] == '─' && line[i + 1] == ' '
  }

  /** The last `@` in `[lo, hi)`: where a greedy `(.+)@` stops. */
  function LastAtIn(s: string, lo: nat, hi: nat): (r: Option<nat>)
    requires hi <= |s|
    ensures r.Some? ==> lo <= r.value < hi && s[r.value] == '@'
    decreases hi
  {
    if hi <= lo then None
    else if s[hi - 1] == '@' then Some(hi - 1)
    else LastAtIn(s, lo, hi - 1)
  }

  /**
   * The `@` a match starting at `i` splits at: the groups `(@?)(.+)` capture `line[i + 2..k]`,
   * at least one character, and `(.+)` the rest of the line after it, at least one character.
   */
  function SplitAt(line: string, i: nat): (k: Option<nat>)
    requires i <= |line|
    ensures k.Some? ==> ArrowAt(line, i) && i + 3 <= k.value && k.value + 1 < LineEnd(line, i + 2)
    ensures k.Some? ==> line[k.value] == '@'
  {
    if !ArrowAt(line, i) then None
    else
      var e := LineEnd(line, i + 2);
      LastAtIn(line, i + 3, e - 1)
  }

  /** A match of the expression, which the regular expression engine tries leftmost first. */
  datatype Match = Match(start: nat, at: nat)

  function MatchFrom(line: string, i: nat): (m: Option<Match>)
    requires i <= |line|
    ensures m.Some? ==> i <= m.value.start < |line| && SplitAt(line, m.value.start) == Some(m.value.at)
    decreases |line| - i
  {
    if i == |line| then None
    else
      match SplitAt(line, i)
      case Some(k) => Some(Match(i, k))
      case None => MatchFrom(line, i + 1)
  }

  /** The leftmost match of `─ (@?)(.+)@(.+)` in a line, if any. */
  function LineMatch(line: string): Option<Match> {
    MatchFrom(line, 0)
  }

  /**
   * `${scope}${name}@${version}` for one line; a line the expression does not match renders its
   * three `undefined` groups.
   */
  function DependencyOf(line: string): string {
    match LineMatch(line)
    case None => "undefinedundefined@undefined"
    case Some(m) =>
      var e := LineEnd(line, m.start + 2);
      line[m.start + 2..m.at] + "@" + line[m.at + 1..e]
  }

  /** `stdout.trim().split('\n').slice(1)`: the tree lines below the root. */
  function TreeLines(stdout: string): seq<string> {
    Split(Trim(stdout), '\n')[1..]
  }

  /** `lines.map(...)` */
  function DependenciesOf(lines: seq<string>): (ds: seq<string>)
    ensures |ds| == |lines|
    ensures forall i :: 0 <= i < |lines| ==> ds[i] == DependencyOf(lines[i])
  {
    if lines == [] then [] else [DependencyOf(lines[0])] + DependenciesOf(lines[1..])
  }

  predicate NoDuplicates(s: seq<string>) {
    forall i, j :: 0 <= i < j < |s| ==> s[i] != s[j]
  }

  /** `[...new Set(xs)]`: each value once, where it first occurs. */
  function Dedup(xs: seq<string>): seq<string>
    decreases |xs|
  {
    if xs == [] then []
    else
      var rest := Dedup(xs[..|xs| - 1]);
      if xs[|xs| - 1] in rest then rest else rest + [xs[|xs| - 1]]
  }

  /** The comparator is a total order: what `localeCompare` is taken to be. */
  ghost predicate TotalOrder(leq: (string, string) -> bool) {
    && (forall a, b :: leq(a, b) || leq(b, a))
    && (forall a, b :: leq(a, b) && leq(b, a) ==> a == b)
    && (forall a, b, c :: leq(a, b) && leq(b, c) ==> leq(a, c))
  }

  predicate SortedBy(s: seq<string>, leq: (string, string) -> bool) {
    forall i, j :: 0 <= i < j < |s| ==> leq(s[i], s[j])
  }

  function Insert(x: string, s: seq<string>, leq: (string, string) -> bool): seq<string> {
    if s == [] then [x]
    else if leq(x, s[0]) then [x] + s
    else [s[0]] + Insert(x, s[1..], leq)
  }

  /** `xs.sort(comparator)`, as insertion; every sort gives the same answer for a total order (`SortedUnique`). */
  function SortBy(xs: seq<string>, leq: (string, string) -> bool): seq<string> {
    if xs == [] then [] else Insert(xs[0], SortBy(xs[1..], leq), leq)
  }

  /**
   * `getPackageDependencies`: an identifier without a version is an error; so is output that does
   * not begin with the tree root (the error carries standard output), and then any output on
   * standard error; otherwise the rendered lines, once each, sorted.
   */
  function GetPackageDependencies(id: string, out: ToolOutput, leq: (string, string) -> bool): (r: Result<seq<string>>)
    ensures r.Failure? <==> !HasVersion(Parse(id)) || !StartsWith(out.stdout, TreeRoot) || out.stderr != ""
    ensures !HasVersion(Parse(id)) ==> r == Failure(MissingVersionError(id))
    ensures HasVersion(Parse(id)) && !StartsWith(out.stdout, TreeRoot) ==> r == Failure(out.stdout)
    ensures HasVersion(Parse(id)) && StartsWith(out.stdout, TreeRoot) && out.stderr != "" ==> r == Failure(out.stderr)
  {
    match RequireVersion(id)
    case Failure(e) => Failure(e)
    case Success(_) =>
      if !StartsWith(out.stdout, TreeRoot) then Failure(out.stdout)
      else if out.stderr != "" then Failure(out.stderr)
      else Success(SortBy(Dedup(DependenciesOf(TreeLines(out.stdout))), leq))
  }

  /** Dropping duplicates keeps every value, once. */
  lemma {:induction false} DedupFacts(xs: seq<string>)
    ensures NoDuplicates(Dedup(xs))
    ensures forall x :: x in Dedup(xs) <==> x in xs
    decreases |xs|
  {
    if xs != [] {
      var init := xs[..|xs| - 1];
      DedupFacts(init);
      assert xs == init + [xs[|xs| - 1]];
    }
  }

  lemma InsertFacts(x: string, s: seq<string>, leq: (string, string) -> bool)
    requires TotalOrder(leq) && SortedBy(s, leq)
    ensures SortedBy(Insert(x, s, leq), leq)
    ensures multiset(Insert(x, s, leq)) == multiset(s) + multiset{x}
  {
    InsertPermutes(x, s, leq);
    InsertSorted(x, s, leq);
  }

  /** Insertion adds exactly the one element. */
  lemma {:induction false} InsertPermutes(x: string, s: seq<string>, leq: (string, string) -> bool)
    ensures multiset(Insert(x, s, leq)) == multiset(s) + multiset{x}
    decreases |s|
  {
    if s != [] && !leq(x, s[0]) {
      InsertPermutes(x, s[1..], leq);
      assert s == [s[0]] + s[1..];
    }
  }

  /** Insertion into a sorted list keeps it sorted. */
  lemma {:induction false} InsertSorted(x: string, s: seq<string>, leq: (string, string) -> bool)
    requires TotalOrder(leq) && SortedBy(s, leq)
    ensures SortedBy(Insert(x, s, leq), leq)
    decreases |s|
  {
    if s == [] {
    } else if leq(x, s[0]) {
      SortedCons(x, s, leq);
    } else {
      InsertSorted(x, s[1..], leq);
      InsertPermutes(x, s[1..], leq);
      var r := Insert(x, s[1..], leq);
      forall j | 0 <= j < |r| ensures leq(s[0], r[j]) {
        assert r[j] in multiset(s[1..]) + multiset{x};
        if r[j] != x {
          var m :| 0 <= m < |s[1..]| && s[1..][m] == r[j];
          assert s[m + 1] == r[j];
        }
      }
      SortedCons(s[0], r, leq);
    }
  }

  /** A head no greater than any element of a sorted tail gives a sorted list. */
  lemma SortedCons(h: string, r: seq<string>, leq: (string, string) -> bool)
    requires TotalOrder(leq) && SortedBy(r, leq)
    requires r != [] ==> leq(h, r[0])
    ensures SortedBy([h] + r, leq)
  {
    forall i, j | 0 <= i < j < |[h] + r| ensures leq(([h] + r)[i], ([h] + r)[j]) {
      if i == 0 && j > 1 {
        assert leq(r[0], r[j - 1]);
      }
    }
  }

  /** The sort returns its input in order. */
  lemma {:induction false} SortFacts(xs: seq<string>, leq: (string, string) -> bool)
    requires TotalOrder(leq)
    ensures SortedBy(SortBy(xs, leq), leq)
    ensures multiset(SortBy(xs, leq)) == multiset(xs)
    decreases |xs|
  {
    if xs != [] {
      SortFacts(xs[1..], leq);
      InsertFacts(xs[0], SortBy(xs[1..], leq), leq);
      assert xs == [xs[0]] + xs[1..];
    }
  }

  /** Two sorted arrangements of the same values are the same sequence, whichever sort produced them. */
  lemma {:induction false} SortedUnique(a: seq<string>, b: seq<string>, leq: (string, string) -> bool)
    requires TotalOrder(leq) && SortedBy(a, leq) && SortedBy(b, leq)
    requires multiset(a) == multiset(b)
    ensures a == b
    decreases |a|
  {
    if a != [] {
      assert a == [a[0]] + a[1..];
      assert |b| == |a| by {
        assert |multiset(a)| == |a| && |multiset(b)| == |b|;
      }
      assert b == [b[0]] + b[1..];
      assert a[0] in multiset(b);
      assert b[0] in multiset(a);
      var i :| 0 <= i < |b| && b[i] == a[0];
      var j :| 0 <= j < |a| && a[j] == b[0];
      assert leq(b[0], a[0]) by {
        if i > 0 {
          assert leq(b[0], b[i]);
        }
      }
      assert leq(a[0], b[0]) by {
        if j > 0 {
          assert leq(a[0], a[j]);
        }
      }
      assert a[0] == b[0];
      assert multiset(a) == multiset{a[0]} + multiset(a[1..]);
      assert multiset(b) == multiset{b[0]} + multiset(b[1..]);
      assert multiset(a[1..]) == multiset(a) - multiset{a[0]};
      assert multiset(b[1..]) == multiset(b) - multiset{b[0]};
      SortedUnique(a[1..], b[1..], leq);
    }
  }

  lemma {:induction false} NoDuplicatesCount(s: seq<string>, x: string)
    requires NoDuplicates(s)
    ensures multiset(s)[x] == if x in s then 1 else 0
    decreases |s|
  {
    if s != [] {
      assert s == [s[0]] + s[1..];
      NoDuplicatesCount(s[1..], x);
    }
  }

  /** Duplicate-free sequences holding the same values hold them equally often. */
  lemma SameValuesSameMultiset(a: seq<string>, b: seq<string>)
    requires NoDuplicates(a) && NoDuplicates(b)
    requires forall x :: x in a <==> x in b
    ensures multiset(a) == multiset(b)
  {
    forall x ensures multiset(a)[x] == multiset(b)[x] {
      NoDuplicatesCount(a, x);
      NoDuplicatesCount(b, x);
    }
  }

  lemma TwiceCounted(s: seq<string>, i: nat, j: nat)
    requires i < j < |s| && s[i] == s[j]
    ensures multiset(s)[s[i]] >= 2
  {
    assert s == s[..j] + [s[j]] + s[j + 1..];
    assert s[..j][i] == s[i];
  }

  /** Rearranging a duplicate-free sequence keeps it duplicate free and keeps its values. */
  lemma PermutationFacts(a: seq<string>, b: seq<string>)
    requires NoDuplicates(a) && multiset(a) == multiset(b)
    ensures NoDuplicates(b)
    ensures forall x :: x in a <==> x in b
  {
    forall x ensures x in a <==> x in b {
      assert x in a <==> x in multiset(a);
      assert x in b <==> x in multiset(b);
    }
    forall i, j | 0 <= i < j < |b| ensures b[i] != b[j] {
      NoDuplicatesCount(a, b[i]);
      if b[i] == b[j] {
        TwiceCounted(b, i, j);
      }
    }
  }

  /**
   * The dependency list holds each rendered line exactly once, in comparator order, and is the
   * only sequence that does: any sorted, duplicate-free list of the same values equals it.
   */
  lemma DependenciesSortedAndUnique(id: string, out: ToolOutput, leq: (string, string) -> bool, other: seq<string>)
    requires TotalOrder(leq)
    requires GetPackageDependencies(id, out, leq).Success?
    ensures var deps := GetPackageDependencies(id, out, leq).value;
      var rendered := DependenciesOf(TreeLines(out.stdout));
      SortedBy(deps, leq) && NoDuplicates(deps) && (forall x :: x in deps <==> x in rendered)
    ensures var deps := GetPackageDependencies(id, out, leq).value;
      var rendered := DependenciesOf(TreeLines(out.stdout));
      SortedBy(other, leq) && NoDuplicates(other) && (forall x :: x in other <==> x in rendered) ==> other == deps
  {
    var rendered := DependenciesOf(TreeLines(out.stdout));
    var unique := Dedup(rendered);
    DedupFacts(rendered);
    SortFacts(unique, leq);
    PermutationFacts(unique, SortBy(unique, leq));
    if SortedBy(other, leq) && NoDuplicates(other) && (forall x :: x in other <==> x in rendered) {
      SameValuesSameMultiset(other, SortBy(unique, leq));
      SortedUnique(other, SortBy(unique, leq), leq);
    }
  }

  /** The '@' the match splits at is the last one the greedy groups can reach. */
  lemma {:induction false} LastAtInIs(s: string, lo: nat, hi: nat, k: nat)
    requires lo <= k < hi <= |s| && s[k] == '@'
    requires forall m :: k < m < hi ==> s[m] != '@'
    ensures LastAtIn(s, lo, hi) == Some(k)
    decreases hi
  {
    if k < hi - 1 {
      LastAtInIs(s, lo, hi - 1, k);
    }
  }

  lemma {:induction false} MatchFromSkips(line: string, i: nat, p: nat)
    requires i <= p <= |line|
    requires forall j :: i <= j < p ==> line[j] != '─'
    ensures MatchFrom(line, i) == MatchFrom(line, p)
    decreases p - i
  {
    if i < p {
      MatchFromSkips(line, i + 1, p);
    }
  }

  /**
   * A tree line `<prefix>─ <name>@<version>` whose prefix holds no dash is matched right after the
   * prefix, the name being everything up to the last `@` and the version everything after it.
   */
  lemma TreeLineMatch(prefix: string, name: string, version: string)
    requires '─' !in prefix && name != "" && version != "" && '@' !in version
    requires NoLineTerminator(name) && NoLineTerminator(version)
    ensures var line := prefix + "─ " + name + "@" + version;
      var p := |prefix|;
      LineMatch(line) == Some(Match(p, p + 2 + |name|)) && LineEnd(line, p + 2) == |line|
  {
    var line := prefix + "─ " + name + "@" + version;
    var p := |prefix|;
    var k := p + 2 + |name|;
    assert line[p + 2..] == name + "@" + version;
    LineEndAt(line, p + 2, |line|);
    assert line[k] == '@';
    forall m | k < m < |line| - 1 ensures line[m] != '@' {
      assert line[m] == version[m - k - 1];
    }
    LastAtInIs(line, p + 3, |line| - 1, k);
    assert ArrowAt(line, p);
    MatchFromSkips(line, 0, p);
  }

  /** Such a line renders as `<name>@<version>`. */
  lemma TreeLineRendered(prefix: string, name: string, version: string)
    requires '─' !in prefix && name != "" && version != "" && '@' !in version
    requires NoLineTerminator(name) && NoLineTerminator(version)
    ensures DependencyOf(prefix + "─ " + name + "@" + version) == Format(name, version)
  {
    var line := prefix + "─ " + name + "@" + version;
    var p := |prefix|;
    TreeLineMatch(prefix, name, version);
    assert line[p + 2..p + 2 + |name|] == name;
    assert line[p + 3 + |name|..|line|] == version;
  }

  /** The rendering identifies that package and version again. */
  lemma TreeLineIdentifies(prefix: string, name: string, version: string)
    requires '─' !in prefix && name != "" && version != "" && '@' !in version
    requires NoLineTerminator(name) && NoLineTerminator(version) && ValidName(name)
    ensures Parse(DependencyOf(prefix + "─ " + name + "@" + version)) == Some(PackageIdentifier(name, version))
  {
    TreeLineRendered(prefix, name, version);
    ParseFormat(name, version);
  }

  /** A line break after the last tree line changes no list: the output is trimmed before it is split. */
  lemma TrailingNewlineIgnored(id: string, out: ToolOutput, leq: (string, string) -> bool)
    ensures var r := GetPackageDependencies(id, ToolOutput(out.stdout + "\n", out.stderr), leq);
      var r0 := GetPackageDependencies(id, out, leq);
      (r.Success? <==> r0.Success?) && (r.Success? ==> r.value == r0.value)
  {
    TrimTrailingNewline(out.stdout);
    assert StartsWith(out.stdout + "\n", TreeRoot) <==> StartsWith(out.stdout, TreeRoot) by {
      if |out.stdout| >= 2 {
        assert (out.stdout + "\n")[..2] == out.stdout[..2];
      }
    }
  }
}
