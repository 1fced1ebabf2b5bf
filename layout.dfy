/**
 * The paths under `.tmp/` the pipeline reads and writes, as `src/lib.js` and `src/main.js` build
 * them. `String.prototype.replace` with a string pattern replaces the first occurrence only.
 */
module Layout {
  import opened Text
  import Identifier

  /** Which copy of the pipeline builds the path: `src/lib.js` or the older `src/main.js`. */
  datatype Variant = Current | Legacy

  function RepoDir(name: string): string {
    ".tmp/repos/" + name
  }

  /** Where `src/lib.js` stores the result of a resolved identifier. */
  function ResultPath(id: string): string {
    ".tmp/results/" + ReplaceFirst(id, "/", "_") + ".json"
  }

  /** Where `src/main.js` stores the result of a package. */
  function LegacyResultPath(name: string, version: string): string {
    ".tmp/results/" + (ReplaceFirst(name, "/", "_") + "@" + version) + ".json"
  }

  /** The published archive downloaded from the registry. */
  function PublishedTarball(v: Variant, name: string, version: string): string {
    match v
    case Current => ".tmp/packages/" + ReplaceFirst(name, "/", "_") + "-" + version + ".tgz"
    case Legacy => ".tmp/packages/" + name + "-" + version + ".tgz"
  }

  /** The directory the published archive is unpacked into (`packageDir_`). */
  function PublishedDir(name: string, version: string): string {
    ".tmp/packages/" + name + "/" + version
  }

  /** The unpacked published package (`packageDir`). */
  function PackageDir(name: string, version: string): string {
    PublishedDir(name, version) + "/package"
  }

  /** The directory the rebuilt archive is unpacked into. */
  function RebuiltDir(name: string, version: string): string {
    ".tmp/packages-from-source/" + name + "/" + version
  }

  /** The file name the pipeline expects `npm pack` to have written. */
  function PackedFileName(v: Variant, name: string, version: string): string {
    match v
    case Current => ReplaceFirst(ReplaceFirst(name, "/", "-"), "@", "") + "-" + version + ".tgz"
    case Legacy => name + "-" + version + ".tgz"
  }

  /** The archive the comparison reads, inside the repository checkout. */
  function PackedArchive(v: Variant, name: string, version: string): string {
    RepoDir(name) + "/" + PackedFileName(v, name, version)
  }

  /** Every path one run of the pipeline uses. */
  datatype Paths = Paths(
    repo: string,
    tarball: string,
    published: string,
    packageDir: string,
    rebuilt: string,
    archive: string)

  function PathsOf(v: Variant, name: string, version: string): Paths {
    Paths(RepoDir(name), PublishedTarball(v, name, version), PublishedDir(name, version),
      PackageDir(name, version), RebuiltDir(name, version), PackedArchive(v, name, version))
  }

  /** A registry package name: `bare`, or `@scope/bare`. */
  datatype NpmName = Unscoped(bare: string) | Scoped(scope: string, bare: string)

  predicate Plain(s: string) {
    s != "" && '@' !in s && '/' !in s
  }

  predicate WellFormed(n: NpmName) {
    match n
    case Unscoped(b) => Plain(b)
    case Scoped(s, b) => Plain(s) && Plain(b)
  }

  function NameText(n: NpmName): string {
    match n
    case Unscoped(b) => b
    case Scoped(s, b) => "@" + s + "/" + b
  }

  /** The file `npm pack` writes: the scope marker dropped and the scope joined to the name by `-`. */
  function NpmPackOutput(n: NpmName, version: string): string {
    match n
    case Unscoped(b) => b + "-" + version + ".tgz"
    case Scoped(s, b) => s + "-" + b + "-" + version + ".tgz"
  }

  /** `src/lib.js` looks for the packed archive exactly where `npm pack` writes it. */
  lemma PackedFileNameMatchesNpm(n: NpmName, version: string)
    requires WellFormed(n)
    ensures PackedFileName(Current, NameText(n), version) == NpmPackOutput(n, version)
  {
    match n
    case Unscoped(b) =>
      ReplaceFirstAbsent(b, '/', "-");
      ReplaceFirstAbsent(b, '@', "");
    case Scoped(s, b) =>
      ScopedNameRewrite(s, b);
  }

  lemma ScopedNameRewrite(s: string, b: string)
    requires Plain(s) && Plain(b)
    ensures ReplaceFirst(ReplaceFirst(NameText(Scoped(s, b)), "/", "-"), "@", "") == s + "-" + b
  {
    assert '/' !in "@" + s;
    ReplaceFirstAtSeparator("@" + s, '/', b, "-");
    var rest := s + "-" + b;
    assert "@" + s + "-" + b == ['@'] + rest;
    ReplaceFirstLeading('@', rest, "");
    assert "" + rest == rest;
  }

  /**
   * `src/main.js` looks for the packed archive of a scoped package under its registry name, which
   * is not the file `npm pack` writes.
   */
  lemma LegacyPackedFileNameMissesScoped(s: string, b: string, version: string)
    requires WellFormed(Scoped(s, b))
    ensures PackedFileName(Legacy, NameText(Scoped(s, b)), version) != NpmPackOutput(Scoped(s, b), version)
  {
    assert PackedFileName(Legacy, NameText(Scoped(s, b)), version)[0] == '@';
    assert NpmPackOutput(Scoped(s, b), version)[0] == s[0];
  }

  /** Replacing a character that occurs changes the string. */
  lemma ReplaceFirstCharChanges(s: string, c: char, rep: char)
    requires c in s && c != rep
    ensures ReplaceFirst(s, [c], [rep]) != s
  {
    IndexOfCharNone(s, c);
    IndexOfCharFound(s, c);
    var i := IndexOf(s, [c]).value;
    assert ReplaceFirst(s, [c], [rep])[i] == rep;
  }

  /** Where the first `/` of an identifier is, depending on whether the name holds one. */
  lemma ReplaceSlashInIdentifier(name: string, version: string)
    ensures '/' in name ==>
      ReplaceFirst(Identifier.Format(name, version), "/", "_") == ReplaceFirst(name, "/", "_") + "@" + version
    ensures '/' !in name ==>
      ReplaceFirst(Identifier.Format(name, version), "/", "_") == name + "@" + ReplaceFirst(version, "/", "_")
  {
    if '/' in name {
      SlashInName(name, version);
    } else {
      SlashNotInName(name, version);
    }
  }

  lemma SlashInName(name: string, version: string)
    requires '/' in name
    ensures ReplaceFirst(Identifier.Format(name, version), "/", "_") == ReplaceFirst(name, "/", "_") + "@" + version
  {
    assert Identifier.Format(name, version) == name + ("@" + version);
    ReplaceFirstInPrefix(name, "@" + version, '/', "_");
  }

  lemma SlashNotInName(name: string, version: string)
    requires '/' !in name
    ensures ReplaceFirst(Identifier.Format(name, version), "/", "_") == name + "@" + ReplaceFirst(version, "/", "_")
  {
    assert Identifier.Format(name, version) == (name + "@") + version;
    assert '/' !in name + "@";
    ReplaceFirstAfterPrefix(name + "@", version, '/', "_");
  }

  lemma ResultFileInjective(x: string, y: string)
    ensures ".tmp/results/" + x + ".json" == ".tmp/results/" + y + ".json" <==> x == y
  {
    var px := ".tmp/results/" + x + ".json";
    var py := ".tmp/results/" + y + ".json";
    if px == py {
      assert px[13..|px| - 5] == x;
      assert py[13..|py| - 5] == y;
    }
  }

  /** The result file of a scoped package is named after it with the `/` after the scope as `_`. */
  lemma ScopedResultStem(s: string, b: string, version: string)
    requires '/' !in s
    ensures ReplaceFirst(Identifier.Format(NameText(Scoped(s, b)), version), "/", "_")
      == "@" + s + "_" + b + "@" + version
  {
    var name := NameText(Scoped(s, b));
    assert name[|s| + 1] == '/';
    SlashInName(name, version);
    assert '/' !in "@" + s;
    ReplaceFirstAtSeparator("@" + s, '/', b, "_");
  }

  /**
   * Every `_` in a scoped name can stand on either side of the rewritten `/`: the distinct
   * packages `@s_t/b` and `@s/t_b` of one version share a result file, so each overwrites the
   * other's result.
   */
  lemma ResultPathCollision(s: string, t: string, b: string, version: string)
    requires WellFormed(Scoped(s + "_" + t, b)) && WellFormed(Scoped(s, t + "_" + b))
    ensures NameText(Scoped(s + "_" + t, b)) != NameText(Scoped(s, t + "_" + b))
    ensures ResultPath(Identifier.Format(NameText(Scoped(s + "_" + t, b)), version))
      == ResultPath(Identifier.Format(NameText(Scoped(s, t + "_" + b)), version))
  {
    ScopedNamesDiffer(s, t, b);
    ScopedStemsAgree(s, t, b, version);
  }

  lemma ScopedNamesDiffer(s: string, t: string, b: string)
    ensures NameText(Scoped(s + "_" + t, b)) != NameText(Scoped(s, t + "_" + b))
  {
    var u := s + "_" + t;
    var x := NameText(Scoped(u, b));
    var y := NameText(Scoped(s, t + "_" + b));
    assert (s + "_")[|s|] == '_';
    assert u[|s|] == '_';
    assert ("@" + u)[|s| + 1] == '_';
    assert x == ("@" + u) + "/" + b;
    assert x[|s| + 1] == '_';
    assert y == ("@" + s) + "/" + (t + "_" + b);
    assert y[|s| + 1] == '/';
  }

  lemma ScopedStemsAgree(s: string, t: string, b: string, version: string)
    requires '/' !in s + "_" + t
    ensures ReplaceFirst(Identifier.Format(NameText(Scoped(s + "_" + t, b)), version), "/", "_")
      == ReplaceFirst(Identifier.Format(NameText(Scoped(s, t + "_" + b)), version), "/", "_")
  {
    assert '/' !in s by {
      assert forall i :: 0 <= i < |s| ==> s[i] == (s + "_" + t)[i];
    }
    ScopedResultStem(s + "_" + t, b, version);
    ScopedResultStem(s, t + "_" + b, version);
    var tail := "_" + b + "@" + version;
    assert "@" + (s + "_" + t) + "_" + b + "@" + version == "@" + s + "_" + t + tail;
    assert "@" + s + "_" + (t + "_" + b) + "@" + version == "@" + s + "_" + t + tail;
  }

  lemma SlashInVersionChangesIdentifier(name: string, version: string)
    requires '/' !in name && '/' in version
    ensures ReplaceFirst(Identifier.Format(name, version), "/", "_") != name + "@" + version
  {
    ReplaceSlashInIdentifier(name, version);
    ReplaceFirstCharChanges(version, '/', '_');
    var inner := name + "@" + ReplaceFirst(version, "/", "_");
    assert inner[|name| + 1..] == ReplaceFirst(version, "/", "_");
    assert (name + "@" + version)[|name| + 1..] == version;
  }

  /**
   * The two copies store the result of `name@version` in the same file exactly when the name
   * holds a `/` or the version holds none.
   */
  lemma ResultPathsAgree(name: string, version: string)
    ensures ResultPath(Identifier.Format(name, version)) == LegacyResultPath(name, version)
      <==> ('/' in name || '/' !in version)
  {
    if '/' in name {
      SlashInName(name, version);
    } else if '/' !in version {
      SlashNotInName(name, version);
      ReplaceFirstAbsent(version, '/', "_");
    } else {
      LegacyResultPathDiffers(name, version);
    }
  }

  lemma LegacyResultPathDiffers(name: string, version: string)
    requires '/' !in name && '/' in version
    ensures ResultPath(Identifier.Format(name, version)) != LegacyResultPath(name, version)
  {
    SlashInVersionChangesIdentifier(name, version);
    ReplaceFirstAbsent(name, '/', "_");
    ResultFileInjective(ReplaceFirst(Identifier.Format(name, version), "/", "_"), name + "@" + version);
  }
}
