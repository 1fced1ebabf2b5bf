/**
 * How the checked-out repository is built before packing (`src/lib.js:164, 213-254`,
 * `src/main.js:106, 143-184`): the package manager, the lifecycle or fallback build scripts, and the
 * `version` override written into `package.json`.
 */
module Build {
  import opened Wrappers
  import opened Package

  /** The lifecycle scripts whose presence calls for installing dependencies. */
  const LifecycleScripts: seq<string> := ["prepare", "prepack", "prepublishOnly", "prepublish"]

  /** The build scripts tried, in order, when no lifecycle script is present. */
  const FallbackScripts: seq<string> := ["build", "build-all"]

  /** `packageDetails.scripts[name]` is truthy: declared with non-empty text. */
  predicate Declared(scripts: map<string, string>, name: string) {
    name in scripts && scripts[name] != ""
  }

  /** `yarn` when the checkout holds a `yarn.lock`, `npm` otherwise. */
  function ManagerFor(yarnLockExists: bool): (m: PackageManager)
    ensures m == Yarn <==> yarnLockExists
  {
    if yarnLockExists then Yarn else Npm
  }

  /** `names.some(name => scripts[name])` */
  function AnyDeclared(scripts: map<string, string>, names: seq<string>): (b: bool)
    ensures b <==> exists i :: 0 <= i < |names| && Declared(scripts, names[i])
  {
    if names == [] then false
    else Declared(scripts, names[0]) || AnyDeclared(scripts, names[1..])
  }

  /** `names.find(name => scripts[name])`: the first declared name. */
  function FirstDeclared(scripts: map<string, string>, names: seq<string>): (r: Option<string>)
    ensures r.None? <==> forall i :: 0 <= i < |names| ==> !Declared(scripts, names[i])
    ensures r.Some? ==> exists i :: (0 <= i < |names| && names[i] == r.value && Declared(scripts, names[i])
      && forall j :: 0 <= j < i ==> !Declared(scripts, names[j]))
  {
    if names == [] then None
    else if Declared(scripts, names[0]) then Some(names[0])
    else
      var r := FirstDeclared(scripts, names[1..]);
      assert r.Some? ==> exists i :: (1 <= i < |names| && names[i] == r.value && Declared(scripts, names[i])
        && forall j :: 0 <= j < i ==> !Declared(scripts, names[j])) by {
        if r.Some? {
          var i :| 0 <= i < |names[1..]| && names[1..][i] == r.value && Declared(scripts, names[1..][i])
            && forall j :: 0 <= j < i ==> !Declared(scripts, names[1..][j]);
          assert names[i + 1] == r.value;
          forall j | 0 <= j < i + 1 ensures !Declared(scripts, names[j]) {
            if j > 0 {
              assert names[j] == names[1..][j - 1];
            }
          }
        }
      }
      r
  }

  /**
   * What gets built: with a lifecycle script, install and run `prepublishOnly` if it is declared;
   * otherwise the first fallback script, after installing; otherwise nothing.
   */
  datatype BuildPlan =
    | Lifecycle(manager: PackageManager, runPrepublishOnly: bool)
    | Fallback(manager: PackageManager, script: string)
    | NoBuild

  function PlanBuild(scripts: map<string, string>, yarnLockExists: bool): (p: BuildPlan)
    ensures p.Lifecycle? <==>
      Declared(scripts, "prepare") || Declared(scripts, "prepack")
      || Declared(scripts, "prepublishOnly") || Declared(scripts, "prepublish")
    ensures p.Lifecycle? ==> (p.runPrepublishOnly <==> Declared(scripts, "prepublishOnly"))
    ensures p.Fallback? <==> !p.Lifecycle? && (Declared(scripts, "build") || Declared(scripts, "build-all"))
    ensures p.Fallback? ==> p.script == if Declared(scripts, "build") then "build" else "build-all"
    ensures !p.NoBuild? ==> p.manager == ManagerFor(yarnLockExists)
  {
    var manager := ManagerFor(yarnLockExists);
    var lifecycle := AnyDeclared(scripts, LifecycleScripts);
    var fallback := FirstDeclared(scripts, FallbackScripts);
    assert LifecycleScripts[0] == "prepare" && LifecycleScripts[1] == "prepack";
    assert LifecycleScripts[2] == "prepublishOnly" && LifecycleScripts[3] == "prepublish";
    assert FallbackScripts[0] == "build" && FallbackScripts[1] == "build-all";
    if lifecycle then Lifecycle(manager, Declared(scripts, "prepublishOnly"))
    else if fallback.Some? then Fallback(manager, fallback.value)
    else NoBuild
  }

  /** The warning pushed before a fallback build script is run. */
  function FallbackWarning(script: string): string {
    "lifestyle scripts were not found, so guessing that this script should be run instead: " + script
  }

  /** `pkg.version = version`: the field is set to the published version and no other field changes. */
  function SetVersion(manifest: Manifest, version: string): (m: Manifest)
    ensures "version" in m && m["version"] == JsonString(version)
    ensures m.Keys == manifest.Keys + {"version"}
    ensures forall k :: k in manifest && k != "version" ==> m[k] == manifest[k]
  {
    manifest["version" := JsonString(version)]
  }

  /** Setting the version twice is setting it once; a manifest already at that version is unchanged. */
  lemma SetVersionIdempotent(manifest: Manifest, version: string)
    ensures SetVersion(SetVersion(manifest, version), version) == SetVersion(manifest, version)
    ensures "version" in manifest && manifest["version"] == JsonString(version) ==>
      SetVersion(manifest, version) == manifest
  {
    var once := SetVersion(manifest, version);
    assert SetVersion(once, version).Keys == once.Keys;
    if "version" in manifest && manifest["version"] == JsonString(version) {
      assert once.Keys == manifest.Keys;
    }
  }
}
