/** The registry lookup (`npm view --json`) and `resolvePackageIdentifier` built on it. */
module Registry {
  import opened Wrappers
  import opened Text
  import opened Identifier
  import opened Package

  /** What `npm view --json <id>` printed, and the metadata its standard output parses to. */
  datatype ViewOutput = ViewOutput(stdout: string, stderr: string, details: PackageDetails)

  function NotInRegistryError(id: string): string {
    id + " is not in the npm registry"
  }

  /** `getPackageDetails`: an unknown package or an empty answer is an error. */
  function GetPackageDetails(id: string, view: ViewOutput): (r: Result<PackageDetails>)
    ensures r.Failure? <==> Contains(view.stderr, "is not in this registry") || view.stdout == ""
    ensures r.Failure? ==> r.error == NotInRegistryError(id)
    ensures r.Success? ==> r.value == view.details
  {
    if Contains(view.stderr, "is not in this registry") || view.stdout == "" then
      Failure(NotInRegistryError(id))
    else
      Success(view.details)
  }

  /**
   * `resolvePackageIdentifier`: an identifier with a version is returned as it is; otherwise the
   * registry is asked, and its `name@version` (the latest version) is returned.
   */
  function Resolve(id: string, view: ViewOutput): (r: Result<string>)
    ensures HasVersion(Parse(id)) ==> r == Success(id)
    ensures !HasVersion(Parse(id)) && GetPackageDetails(id, view).Failure? ==> r == Failure(NotInRegistryError(id))
    ensures !HasVersion(Parse(id)) && GetPackageDetails(id, view).Success? ==>
      r == Success(Format(view.details.name, view.details.version))
  {
    if !HasVersion(Parse(id)) then
      match GetPackageDetails(id, view)
      case Failure(e) => Failure(e)
      case Success(d) => Success(Format(d.name, d.version))
    else
      Success(id)
  }

  /** A registry answer whose name and version survive being formatted and parsed again. */
  predicate WellFormedAnswer(view: ViewOutput) {
    ValidName(view.details.name) && view.details.version != "" && NoLineTerminator(view.details.version)
  }

  /** Whatever `Resolve` returns carries a version, so that resolving it again returns it unchanged. */
  lemma ResolveIdempotent(id: string, view: ViewOutput, again: ViewOutput)
    requires Resolve(id, view).Success?
    requires WellFormedAnswer(view)
    ensures HasVersion(Parse(Resolve(id, view).value))
    ensures Resolve(Resolve(id, view).value, again) == Resolve(id, view)
  {
    if !HasVersion(Parse(id)) {
      ParseFormat(view.details.name, view.details.version);
    }
  }
}
