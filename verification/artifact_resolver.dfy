/** Repository acquisition: the artifact coordinate and resolution request
    built from a profile's download descriptor, and the extraction of the
    first resolved artifact into the request's unpack directory. */
module ArtifactResolver {
  import opened Results
  import opened Records
  import opened Strings
  import opened Boundary

  /** The packaging every container archive is resolved with. */
  const ArchiveKind := "zip"

  /** The ids the repository system accepts: a group that is set and not
      blank, and an artifact id that is set (it may be empty). */
  predicate ValidIdentity(group: Option<string>, artifact: Option<string>) {
    group.Some? && Trim(group.value) != "" && artifact.Some?
  }

  /** `RepositorySystem.createArtifact(groupId, artifactId, version, type)`.
      The artifact it builds checks its own identity and throws
      `InvalidArtifactRTException` for a null or blank group or a null
      artifact id; nothing is resolved in that case. */
  function RepositoryArtifact(group: Option<string>, artifact: Option<string>, version: string, kind: string)
    : (r: Result<Coordinate, Failure>)
    ensures r.Ok? <==> && group.Some? && artifact.Some?
                       && exists i :: 0 <= i < |group.value| && group.value[i] > ' '
    ensures r.Ok? ==> r.value == Coordinate(group.value, artifact.value, version, kind)
    ensures r.Err? ==> r.error == InvalidArtifact(group, artifact)
  {
    match group
    case None => Err(InvalidArtifact(group, artifact))
    case Some(g) =>
      TrimEmptyIff(g);
      if ValidIdentity(group, artifact) then Ok(Coordinate(g, artifact.value, version, kind))
      else Err(InvalidArtifact(group, artifact))
  }

  /** `createArtifact`: group and artifact come from the profile's download
      descriptor, the version from the request, the type is `zip`. */
  function CreateArtifact(details: DetailsContainer, version: string): (r: Result<Coordinate, Failure>)
    requires details.download.Some?
    ensures var d := details.download.value;
            r.Ok? <==> ValidIdentity(d.group_id, d.artifact_id)
    ensures r.Ok? ==> && Some(r.value.groupId) == details.download.value.group_id
                      && Some(r.value.artifactId) == details.download.value.artifact_id
                      && r.value.version == version && r.value.kind == "zip"
    ensures r.Err? ==> r.error == InvalidArtifact(details.download.value.group_id, details.download.value.artifact_id)
  {
    var download := details.download.value;
    RepositoryArtifact(download.group_id, download.artifact_id, version, ArchiveKind)
  }

  /** `createRequest`: a non-transitive request against the project's remote
      repositories and the configured local repository. */
  function CreateRequest(env: Env, artifact: Coordinate): (r: ResolutionRequest)
    ensures r.artifact == artifact
    ensures !r.resolveTransitively
    ensures r.remoteRepositories == env.remoteRepositories && r.localRepository == env.localRepository
  {
    ResolutionRequest(artifact, false, env.remoteRepositories, env.localRepository)
  }

  /** `createArtifactResolutionRequest`. Its callers have already
      dereferenced the download descriptor and the version. */
  function CreateArtifactResolutionRequest(env: Env, details: DetailsContainer, request: ContainerRequest)
    : (r: Result<ResolutionRequest, Failure>)
    requires details.download.Some? && request.version.Some?
    ensures var d := details.download.value;
            r.Ok? <==> ValidIdentity(d.group_id, d.artifact_id)
    ensures var d := details.download.value;
            r.Ok? ==> && r.value.artifact == Coordinate(d.group_id.value, d.artifact_id.value, request.version.value, "zip")
                      && !r.value.resolveTransitively
                      && r.value.remoteRepositories == env.remoteRepositories
                      && r.value.localRepository == env.localRepository
    ensures r.Err? ==> r.error == InvalidArtifact(details.download.value.group_id, details.download.value.artifact_id)
  {
    var artifact :- CreateArtifact(details, request.version.value);
    Ok(CreateRequest(env, artifact))
  }

  /** The coordinate ignores the profile's own group and artifact ids: only
      the download descriptor's count. */
  lemma CoordinateIgnoresProfileIds(env: Env, details: DetailsContainer, request: ContainerRequest,
                                    group: Option<string>, artifact: Option<string>)
    requires details.download.Some? && request.version.Some?
    ensures CreateArtifactResolutionRequest(env, details.(group_id := group, artifact_id := artifact), request)
         == CreateArtifactResolutionRequest(env, details, request)
  {
  }

  /** `unpack(File, File)`: an unarchiver is looked up for the file (its
      absence is an error naming the file), the output directory is created,
      then the archive is extracted with the unarchiver's default policy,
      which overwrites. Extraction failures propagate unwrapped. */
  function UnpackFile(env: Env, archive: File, dir: string): (r: Trace)
    ensures !env.hasUnArchiver(archive) ==> r == Abort(NoArchiver(archive))
    ensures env.hasUnArchiver(archive) ==> r.actions == [MakeDirs(dir), Extract(archive, dir, true)]
    ensures r.Succeeded() <==> env.hasUnArchiver(archive) && env.extract(archive, dir, true).Pass?
    ensures r.failure.Some? && env.hasUnArchiver(archive) ==>
              r.failure.value == ExtractFailed(env.extract(archive, dir, true).error)
  {
    if !env.hasUnArchiver(archive) then Abort(NoArchiver(archive))
    else
      var extracted := env.extract(archive, dir, true);
      Call(MakeDirs(dir), Pass).Then(
        Call(Extract(archive, dir, true), if extracted.Fail? then Fail(ExtractFailed(extracted.error)) else Pass))
  }

  /** `unpack(ArtifactResolutionRequest, File)`: resolve the request, take
      the first artifact of the resolved set (an empty set fails), and
      extract it into the directory. */
  function UnpackRequest(env: Env, req: ResolutionRequest, dir: string): (r: Trace)
    ensures |r.actions| > 0 && r.actions[0] == Resolve(req)
    ensures forall a :: a in r.actions ==> !a.Fetch? && !a.Transfer?
    ensures forall a :: a in r.actions && a.Extract? ==> a.dir == dir
    ensures |env.resolve(req)| == 0 ==> r == Trace([Resolve(req)], Some(NothingResolved))
    ensures r.Succeeded() ==>
              && |env.resolve(req)| > 0
              && r.actions == [Resolve(req), MakeDirs(dir), Extract(env.resolve(req)[0], dir, true)]
    ensures r.Succeeded() <==> |env.resolve(req)| > 0 && UnpackFile(env, env.resolve(req)[0], dir).Succeeded()
    ensures |env.resolve(req)| > 0 ==>
              var unpacked := UnpackFile(env, env.resolve(req)[0], dir);
              r.actions == [Resolve(req)] + unpacked.actions && r.failure == unpacked.failure
  {
    var artifacts := env.resolve(req);
    Call(Resolve(req), Pass).Then(
      if |artifacts| == 0 then Abort(NothingResolved)
      else UnpackFile(env, artifacts[0], dir))
  }

  /** `unpackFromRepository`: build the request, then resolve and extract
      it. Ids the repository system refuses abort before anything is
      resolved. No URL is ever fetched on this path. */
  function UnpackFromRepository(env: Env, details: DetailsContainer, request: ContainerRequest): (r: Trace)
    requires details.download.Some? && request.version.Some?
    ensures var d := details.download.value;
            !ValidIdentity(d.group_id, d.artifact_id) ==> r == Abort(InvalidArtifact(d.group_id, d.artifact_id))
    ensures var made := CreateArtifactResolutionRequest(env, details, request);
            made.Ok? ==> r == UnpackRequest(env, made.value, request.unpackDir)
    ensures forall a :: a in r.actions ==> !a.Fetch? && !a.Transfer?
    ensures var made := CreateArtifactResolutionRequest(env, details, request);
            r.Succeeded() <==>
              && made.Ok?
              && |env.resolve(made.value)| > 0
              && UnpackFile(env, env.resolve(made.value)[0], request.unpackDir).Succeeded()
  {
    match CreateArtifactResolutionRequest(env, details, request)
    case Err(f) => Abort(f)
    case Ok(req) => UnpackRequest(env, req, request.unpackDir)
  }
}
