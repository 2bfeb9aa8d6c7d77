/** What the acquisition logic exchanges with the world around it: the
    user's container request, the files and repository requests it hands to
    its collaborators, the failures it raises, and the log of collaborator
    calls it makes. The collaborators themselves (URL download, archive
    extraction, Maven resolution) are opaque functions gathered in `Env`. */
module Boundary {
  import opened Results

  /** A container request as configured in the build: the container type and
      version, an optional download URL that overrides the catalog, and the
      directory to unpack into. Container type and version may be unset when a URL is
      given. */
  datatype ContainerRequest = ContainerRequest(
    containerType: Option<string>,
    version: Option<string>,
    url: Option<string>,
    unpackDir: string)

  /** A `java.io.File`: either `new File(dir, name)` or a path handed back by
      a collaborator. */
  datatype File = Child(dir: string, name: string) | Path(path: string)

  /** A Maven artifact coordinate: group, artifact, version and type. Group
      and artifact are copied from the catalog; the repository system only
      builds a coordinate whose group is set and not blank and whose
      artifact id is set. */
  datatype Coordinate = Coordinate(
    groupId: string,
    artifactId: string,
    version: string,
    kind: string)

  /** An `ArtifactResolutionRequest`. */
  datatype ResolutionRequest = ResolutionRequest(
    artifact: Coordinate,
    resolveTransitively: bool,
    remoteRepositories: seq<string>,
    localRepository: string)

  /** The exceptions the acquisition logic raises or lets through. */
  datatype Failure =
    | NullReference(field: string)     // a null field was dereferenced
    | EmptyVersion                     // `charAt(0)` on an empty version
    | ProfileNotFound(request: ContainerRequest, available: seq<string>)
    | MalformedUrl(url: string)
    | DownloadFailed(cause: string)    // wraps the fetch failure, keeping its cause
    | UnpackFailed(reason: Failure)    // re-raised unpack failure; keeps the whole reason
    | NoArchiver(archive: File)        // no unarchiver for this file
    | ExtractFailed(cause: string)     // the unarchiver's own failure
    | InvalidArtifact(groupId: Option<string>, artifactId: Option<string>) // the repository system refused the ids
    | NothingResolved                  // the resolved artifact set was empty
    | StreamFailed(cause: string)      // an I/O failure while copying a URL
    | ExportFailed(cause: string)      // importing or exploding a zip failed
    | CatalogUnreadable(cause: string) // the container catalog could not be read

  /** One call on a collaborator, in the order it was made. */
  datatype Action =
    | MakeDirs(dir: string)
    | Fetch(url: string, dir: string, name: string)
    | Transfer(url: string, target: File, maxBytes: nat)
    | Extract(archive: File, dir: string, overwrite: bool)
    | Explode(archive: File, dir: string, directoryName: Option<string>)
    | Resolve(request: ResolutionRequest)
    | PrintStackTrace(failure: Failure)

  /** The calls made, and the failure that stopped them if any. The last
      call of a failed trace is the one that failed, when a call failed. */
  datatype Trace = Trace(actions: seq<Action>, failure: Option<Failure>) {

    predicate Succeeded() {
      failure.None?
    }

    /** This trace followed by `next`, which only runs if this one
        succeeded. */
    function Then(next: Trace): (r: Trace)
      ensures Succeeded() ==> r.actions == actions + next.actions && r.failure == next.failure
      ensures !Succeeded() ==> r == this
    {
      if Succeeded() then Trace(actions + next.actions, next.failure) else this
    }
  }

  /** Nothing to do. */
  function Done(): Trace {
    Trace([], None)
  }

  /** A failure raised before any call is made. */
  function Abort(f: Failure): Trace {
    Trace([], Some(f))
  }

  /** One call whose outcome is `o`. */
  function Call(a: Action, o: Outcome<Failure>): Trace {
    Trace([a], if o.Fail? then Some(o.error) else None)
  }

  /** The collaborators, as functions of their arguments.
      - `fetch(url, dir, name)`: `UrlGetter.getFile`, which creates `dir` and
        copies the URL into `new File(dir, name)`; a failure carries its cause.
      - `hasUnArchiver(file)`: whether the archiver manager has an unarchiver
        for the file.
      - `extract(file, dir, overwrite)`: the unarchiver's extraction.
      - `resolve(request)`: the repository system's resolution; the resolved
        artifact files in the order their set iterates.
      - `resolveInPlace(request)`: the older artifact resolver, which sets the
        file on the requested artifact, or leaves it null.
      - `transfer(url, target, maxBytes)`: opening the URL and copying at most
        `maxBytes` bytes of it into `target`.
      - `explode(file, dir, name)`: importing a zip file and exporting it
        exploded into `dir/name`; the name may be null.
      - `remoteRepositories`, `localRepository`: the project's repositories. */
  datatype Env = Env(
    fetch: (string, string, string) -> Outcome<string>,
    hasUnArchiver: File -> bool,
    extract: (File, string, bool) -> Outcome<string>,
    resolve: ResolutionRequest -> seq<File>,
    resolveInPlace: ResolutionRequest -> Option<File>,
    transfer: (string, File, nat) -> Outcome<string>,
    explode: (File, string, Option<string>) -> Outcome<string>,
    remoteRepositories: seq<string>,
    localRepository: string)
}
