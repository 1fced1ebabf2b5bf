/**
 * The values the verification pipeline works on: the registry's package metadata, the outcome of a
 * verification, and the external commands the pipeline shells out to together with what they report.
 */
module Package {
  import opened Wrappers
  import Identifier

  datatype Repository = Repository(kind: string, url: string)

  datatype Dist = Dist(shasum: string, tarball: string)

  /**
   * The `PackageDetails` record of `npm view --json`; `scripts` is already defaulted to `{}`, and
   * a script entry counts as declared only when its text is not empty (JavaScript truthiness).
   */
  datatype PackageDetails = PackageDetails(
    name: string,
    version: string,
    gitHead: Option<string>,
    scripts: map<string, string>,
    repository: Option<Repository>,
    dist: Dist)

  /** `${name}@${version}` of a package. */
  function IdentifierOf(d: PackageDetails): string {
    Identifier.Format(d.name, d.version)
  }

  /** A JSON value held by `package.json`; only string values are looked into. */
  datatype JsonValue = JsonString(text: string) | JsonOther(source: string)

  /** The top-level object of `package.json`. */
  type Manifest = map<string, JsonValue>

  datatype FileDiff = FileDiff(file: string, diff: string)

  datatype PackageManager = Npm | Yarn

  /** Every external step the pipeline takes, with the arguments that distinguish it. */
  datatype Command =
    | GitClone(url: string, dir: string)
    | GitFetch(dir: string)
    | GitRevParse(dir: string, rev: string)
    | GitCheckout(dir: string, rev: string)
    | GitClean(dir: string)
    | Download(dest: string, url: string)
    | Extract(archive: string, dest: string)
    | Install(manager: PackageManager, dir: string)
    | RunScript(manager: PackageManager, dir: string, script: string)
    | ReadManifest(path: string)
    | WriteManifest(path: string, manifest: Manifest)
    | Pack(dir: string)
    | Shasum(file: string)
    | DiffTree(published: string, rebuilt: string)
    | DiffFile(rebuilt: string, published: string)

  /**
   * What the outside world answers. `fails(c)` is the `toString()` of the error running `c`
   * throws, `None` when it succeeds; `stdout(c)` is its standard output. The flags are the
   * `existsSync` checks the pipeline makes, and `manifest` is what `package.json` parses to.
   */
  datatype Env = Env(
    gitDirExists: bool,
    yarnLockExists: bool,
    tarballCached: bool,
    tarballUnpacked: bool,
    manifest: Manifest,
    fails: Command -> Option<string>,
    stdout: Command -> string)

  /** The record every `processPackage` of `src/lib.js` returns. */
  datatype VerificationResult = VerificationResult(
    packageIdentifier: string,
    name: string,
    version: string,
    success: bool,
    diffs: seq<FileDiff>,
    errors: seq<string>)
}
