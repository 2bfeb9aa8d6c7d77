/** The older `download` goal: find the container among the project's
    dependencies, download at most one matching catalog entry into the
    destination folder, and print (rather than raise) whatever goes wrong.
    Its catalog entries have the same shape as `DetailsContainer`. */
module DownloadGoal {
  import opened Results
  import opened Strings
  import opened Records
  import opened Boundary
  import opened Urls
  import ArtifactResolver

  /** The dependency groups a container artifact belongs to. */
  const ContainerGroups: seq<string> := ["org.jboss.as", "org.jboss.arquillian.container"]

  /** The only placeholder a URL template may use. */
  const TomcatVersionToken := "${version.org.apache.tomcat}"

  /** `1 << 24`: the most bytes copied from a URL. */
  const TransferLimit: nat := 0x100_0000

  /** A resolved project dependency: group and artifact id. */
  datatype Artifact = Artifact(groupId: string, artifactId: string)

  /** The goal's parameters: the version to download, the destination
      folder, and the optional name of the container directory. */
  datatype Goal = Goal(containerVersion: string, destinationFolder: string, destinationName: Option<string>)

  /** `containerName`: the configured destination name, otherwise the
      entry's artifact id (either may be null). */
  function ContainerName(goal: Goal, con: DetailsContainer): (r: Option<string>)
    ensures goal.destinationName.Some? ==> r == goal.destinationName
    ensures goal.destinationName.None? ==> r == con.artifact_id
  {
    if goal.destinationName.None? then con.artifact_id else goal.destinationName
  }

  /** `findContainerArtifact`: the first dependency, in iteration order,
      whose group is a container group; null when there is none. */
  function FindContainerArtifact(dependencies: seq<Artifact>): (r: Option<Artifact>)
    ensures r.None? <==> forall i :: 0 <= i < |dependencies| ==> dependencies[i].groupId !in ContainerGroups
    ensures r.Some? ==> exists i :: 0 <= i < |dependencies| && dependencies[i] == r.value
                                    && r.value.groupId in ContainerGroups
                                    && forall j :: 0 <= j < i ==> dependencies[j].groupId !in ContainerGroups
    decreases |dependencies|
  {
    if |dependencies| == 0 then None
    else if dependencies[0].groupId in ContainerGroups then Some(dependencies[0])
    else
      var r := FindContainerArtifact(dependencies[1..]);
      assert forall i :: 1 <= i < |dependencies| ==> dependencies[i] == dependencies[1..][i - 1];
      r
  }

  // ---- downloading from a URL ----

  /** The template with every `${version.org.apache.tomcat}` replaced by the
      version. Any other placeholder is left as written: a template without
      the token comes back unchanged. */
  function TokenUrl(template: string, version: string): string {
    ReplaceLiteral(template, TomcatVersionToken, version)
  }

  /** A template without the token is used as it is. */
  lemma TokenUrlKeepsOtherText(template: string, version: string)
    ensures !Contains(template, TomcatVersionToken) ==> TokenUrl(template, version) == template
  {
    ReplaceLiteralAbsent(template, TomcatVersionToken, version);
  }

  /** Each occurrence of the token becomes the version; the text around it
      is handled independently. */
  lemma TokenUrlFillsToken(a: string, b: string, version: string)
    ensures TokenUrl(a + TomcatVersionToken + b, version) == TokenUrl(a, version) + version + TokenUrl(b, version)
  {
    TokenHeadUnique();
    ReplaceLiteralSplit(a, TomcatVersionToken, b, version);
  }

  /** The token's first character does not recur in it. */
  lemma TokenHeadUnique()
    ensures TomcatVersionToken[0] !in TomcatVersionToken[1..]
  {
    TokenTail();
    DollarFreeTail();
  }

  lemma TokenTail()
    ensures TomcatVersionToken[1..] == "{version.org.apache.tomcat}"
  {
  }

  lemma DollarFreeTail()
    ensures '$' !in "{version.org.apache.tomcat}"
  {
  }

  /** The archive's file name: the container name plus `.zip`, where Java's
      string concatenation spells a null name `null`. */
  function ArchiveName(name: Option<string>): (r: string)
    ensures |r| >= 4 && r[|r| - 4..] == ".zip"
    ensures name.Some? ==> r[..|r| - 4] == name.value
    ensures name.None? ==> r == "null.zip"
  {
    (if name.None? then "null" else name.value) + ".zip"
  }

  /** Where the archive of `con` is written. */
  function ArchiveOf(goal: Goal, con: DetailsContainer): File {
    Child(goal.destinationFolder, ArchiveName(ContainerName(goal, con)))
  }

  /** `downloadFromUrl`: substitute the token, open the URL, copy at most
      `TransferLimit` bytes into the archive, then explode the archive into
      the container directory of the destination folder. */
  function DownloadFromUrl(env: Env, goal: Goal, con: DetailsContainer): (r: Trace)
    requires con.download.Some? && con.download.value.url.Some?
    ensures var url := TokenUrl(con.download.value.url.value, goal.containerVersion);
            UrlFile(url).None? ==> r == Abort(MalformedUrl(url))
    ensures var url := TokenUrl(con.download.value.url.value, goal.containerVersion);
            UrlFile(url).Some? ==> |r.actions| > 0 && r.actions[0] == Transfer(url, ArchiveOf(goal, con), TransferLimit)
    ensures var url := TokenUrl(con.download.value.url.value, goal.containerVersion);
            r.Succeeded() ==>
              r.actions == [Transfer(url, ArchiveOf(goal, con), TransferLimit),
                            Explode(ArchiveOf(goal, con), goal.destinationFolder, ContainerName(goal, con))]
    ensures forall a :: a in r.actions ==> !a.Resolve? && !a.Extract? && !a.MakeDirs? && !a.PrintStackTrace?
    ensures var url := TokenUrl(con.download.value.url.value, goal.containerVersion);
            UrlFile(url).Some? ==>
              (r.Succeeded() <==>
                 && env.transfer(url, ArchiveOf(goal, con), TransferLimit).Pass?
                 && env.explode(ArchiveOf(goal, con), goal.destinationFolder, ContainerName(goal, con)).Pass?)
    ensures var url := TokenUrl(con.download.value.url.value, goal.containerVersion);
            var copied := env.transfer(url, ArchiveOf(goal, con), TransferLimit);
            UrlFile(url).Some? && copied.Fail? ==>
              r == Trace([Transfer(url, ArchiveOf(goal, con), TransferLimit)], Some(StreamFailed(copied.error)))
    ensures var url := TokenUrl(con.download.value.url.value, goal.containerVersion);
            var exploded := env.explode(ArchiveOf(goal, con), goal.destinationFolder, ContainerName(goal, con));
            UrlFile(url).Some? && env.transfer(url, ArchiveOf(goal, con), TransferLimit).Pass? && exploded.Fail? ==>
              r == Trace([Transfer(url, ArchiveOf(goal, con), TransferLimit),
                          Explode(ArchiveOf(goal, con), goal.destinationFolder, ContainerName(goal, con))],
                         Some(ExportFailed(exploded.error)))
  {
    var url := TokenUrl(con.download.value.url.value, goal.containerVersion);
    if UrlFile(url).None? then Abort(MalformedUrl(url))
    else
      var archive := ArchiveOf(goal, con);
      var name := ContainerName(goal, con);
      var copied := env.transfer(url, archive, TransferLimit);
      var exploded := env.explode(archive, goal.destinationFolder, name);
      Call(Transfer(url, archive, TransferLimit), if copied.Fail? then Fail(StreamFailed(copied.error)) else Pass).Then(
        Call(Explode(archive, goal.destinationFolder, name), if exploded.Fail? then Fail(ExportFailed(exploded.error)) else Pass))
  }

  // ---- unpacking from the repositories ----

  /** The request `unpackArtifact` hands the resolver: the download
      descriptor's coordinate at the goal's version, as a zip, against the
      project's repositories; the request's default is not transitive. The
      repository system refuses a null or blank group and a null artifact
      id. */
  function ArtifactRequest(env: Env, goal: Goal, con: DetailsContainer): (r: Result<ResolutionRequest, Failure>)
    requires con.download.Some?
    ensures var d := con.download.value;
            r.Ok? <==> ArtifactResolver.ValidIdentity(d.group_id, d.artifact_id)
    ensures var d := con.download.value;
            r.Ok? ==> && r.value.artifact == Coordinate(d.group_id.value, d.artifact_id.value, goal.containerVersion, "zip")
                      && !r.value.resolveTransitively
                      && r.value.remoteRepositories == env.remoteRepositories
                      && r.value.localRepository == env.localRepository
    ensures r.Err? ==> r.error == InvalidArtifact(con.download.value.group_id, con.download.value.artifact_id)
  {
    var d := con.download.value;
    var artifact :- ArtifactResolver.RepositoryArtifact(d.group_id, d.artifact_id, goal.containerVersion, "zip");
    Ok(ResolutionRequest(artifact, false, env.remoteRepositories, env.localRepository))
  }

  /** The goal asks the repositories for the same artifact as the later
      repository path does for a request of the same version. */
  lemma ArtifactRequestAgrees(env: Env, goal: Goal, con: DetailsContainer, request: ContainerRequest)
    requires con.download.Some? && request.version == Some(goal.containerVersion)
    ensures ArtifactRequest(env, goal, con) == ArtifactResolver.CreateArtifactResolutionRequest(env, con, request)
  {
  }

  /** The rest of `unpackArtifact`, and `unpack(Artifact)`: resolve the
      artifact in place, look up an unarchiver for the file it was given (a
      null file is dereferenced), and extract it into the destination folder
      without overwriting. */
  function UnpackResolved(env: Env, goal: Goal, request: ResolutionRequest): (r: Trace)
    ensures |r.actions| > 0 && r.actions[0] == Resolve(request)
    ensures forall a :: a in r.actions && a.Extract? ==> a.dir == goal.destinationFolder && !a.overwrite
    ensures forall a :: a in r.actions ==> !a.Transfer? && !a.Explode? && !a.MakeDirs? && !a.PrintStackTrace?
    ensures env.resolveInPlace(request).None? ==> r == Trace([Resolve(request)], Some(NullReference("file")))
    ensures r.Succeeded() <==>
              var file := env.resolveInPlace(request);
              file.Some? && env.hasUnArchiver(file.value)
              && env.extract(file.value, goal.destinationFolder, false).Pass?
    ensures r.Succeeded() ==>
              r.actions == [Resolve(request), Extract(env.resolveInPlace(request).value, goal.destinationFolder, false)]
  {
    Call(Resolve(request), Pass).Then(
      match env.resolveInPlace(request)
      case None => Abort(NullReference("file"))
      case Some(file) =>
        if !env.hasUnArchiver(file) then Abort(NoArchiver(file))
        else
          var extracted := env.extract(file, goal.destinationFolder, false);
          Call(Extract(file, goal.destinationFolder, false),
               if extracted.Fail? then Fail(ExtractFailed(extracted.error)) else Pass))
  }

  /** `unpackArtifact`: ids the repository system refuses abort before
      anything is resolved; otherwise the request is resolved and
      extracted. */
  function UnpackArtifact(env: Env, goal: Goal, con: DetailsContainer): (r: Trace)
    requires con.download.Some?
    ensures var d := con.download.value;
            !ArtifactResolver.ValidIdentity(d.group_id, d.artifact_id) ==>
              r == Abort(InvalidArtifact(d.group_id, d.artifact_id))
    ensures ArtifactRequest(env, goal, con).Ok? ==> r == UnpackResolved(env, goal, ArtifactRequest(env, goal, con).value)
    ensures forall a :: a in r.actions && a.Extract? ==> a.dir == goal.destinationFolder && !a.overwrite
    ensures forall a :: a in r.actions ==> !a.Transfer? && !a.Explode? && !a.MakeDirs? && !a.PrintStackTrace?
    ensures r.Succeeded() <==>
              && ArtifactRequest(env, goal, con).Ok?
              && var file := env.resolveInPlace(ArtifactRequest(env, goal, con).value);
                 file.Some? && env.hasUnArchiver(file.value)
                 && env.extract(file.value, goal.destinationFolder, false).Pass?
  {
    match ArtifactRequest(env, goal, con)
    case Err(f) => Abort(f)
    case Ok(request) => UnpackResolved(env, goal, request)
  }

  // ---- one entry, then the whole goal ----

  /** `download`: create the destination folder, then dereference the
      download descriptor; a null URL selects the repositories, any other
      URL is downloaded. */
  function DownloadContainer(env: Env, goal: Goal, con: DetailsContainer): (r: Trace)
    ensures |r.actions| > 0 && r.actions[0] == MakeDirs(goal.destinationFolder)
    ensures forall k :: 0 < k < |r.actions| ==> !r.actions[k].MakeDirs? && !r.actions[k].PrintStackTrace?
    ensures con.download.None? ==> r == Trace([MakeDirs(goal.destinationFolder)], Some(NullReference("download")))
    ensures con.download.Some? && con.download.value.url.None? ==>
              r.actions[1..] == UnpackArtifact(env, goal, con).actions
              && r.failure == UnpackArtifact(env, goal, con).failure
    ensures con.download.Some? && con.download.value.url.Some? ==>
              r.actions[1..] == DownloadFromUrl(env, goal, con).actions
              && r.failure == DownloadFromUrl(env, goal, con).failure
  {
    var made := Call(MakeDirs(goal.destinationFolder), Pass);
    var rest :=
      if con.download.None? then Abort(NullReference("download"))
      else if con.download.value.url.None? then UnpackArtifact(env, goal, con)
      else DownloadFromUrl(env, goal, con);
    var r := made.Then(rest);
    assert r.actions[1..] == rest.actions;
    r
  }

  /** A null download URL is exactly the condition under which the
      repositories are asked and nothing is copied from a URL. */
  lemma NullUrlSelectsArtifact(env: Env, goal: Goal, con: DetailsContainer)
    requires con.download.Some?
    ensures var r := DownloadContainer(env, goal, con);
            && ((exists k :: 0 <= k < |r.actions| && r.actions[k].Resolve?) <==>
                  con.download.value.url.None?
                  && ArtifactResolver.ValidIdentity(con.download.value.group_id, con.download.value.artifact_id))
            && (con.download.value.url.None? ==> forall a :: a in r.actions ==> !a.Transfer? && !a.Explode?)
  {
    var r := DownloadContainer(env, goal, con);
    var d := con.download.value;
    if d.url.None? && ArtifactResolver.ValidIdentity(d.group_id, d.artifact_id) {
      assert r.actions[1] == r.actions[1..][0];
    } else {
      forall k | 0 <= k < |r.actions|
        ensures !r.actions[k].Resolve?
      {
        if k > 0 {
          assert r.actions[k] == r.actions[1..][k - 1];
        }
      }
    }
  }

  /** The catalog match: the entry's group is the artifact's group and its
      container name is the artifact id. */
  predicate IsMatch(goal: Goal, artifact: Artifact, con: DetailsContainer) {
    con.group_id == Some(artifact.groupId) && ContainerName(goal, con) == Some(artifact.artifactId)
  }

  /** The first matching entry from index `from` on. */
  function FirstMatch(goal: Goal, artifact: Artifact, catalog: seq<DetailsContainer>, from: nat): (r: Option<nat>)
    requires from <= |catalog|
    ensures r.Some? ==> from <= r.value < |catalog| && IsMatch(goal, artifact, catalog[r.value])
                        && forall j :: from <= j < r.value ==> !IsMatch(goal, artifact, catalog[j])
    ensures r.None? ==> forall j :: from <= j < |catalog| ==> !IsMatch(goal, artifact, catalog[j])
    decreases |catalog| - from
  {
    if from == |catalog| then None
    else if IsMatch(goal, artifact, catalog[from]) then Some(from)
    else FirstMatch(goal, artifact, catalog, from + 1)
  }

  /** The body of the `try` in `loadContainer`: read the catalog, then scan
      it; the container artifact is dereferenced once per entry examined,
      and the first match is downloaded. */
  function Attempt(env: Env, goal: Goal, artifact: Option<Artifact>,
                   catalog: Result<seq<DetailsContainer>, string>): (r: Trace)
    ensures catalog.Err? ==> r == Abort(CatalogUnreadable(catalog.error))
    ensures catalog.Ok? && |catalog.value| == 0 ==> r == Done()
    ensures catalog.Ok? && |catalog.value| > 0 && artifact.None? ==> r == Abort(NullReference("artifact"))
    ensures catalog.Ok? && artifact.Some? &&
            (forall i :: 0 <= i < |catalog.value| ==> !IsMatch(goal, artifact.value, catalog.value[i])) ==>
              r == Done()
    ensures catalog.Ok? && artifact.Some? ==>
              forall i :: 0 <= i < |catalog.value| && IsMatch(goal, artifact.value, catalog.value[i])
                          && (forall j :: 0 <= j < i ==> !IsMatch(goal, artifact.value, catalog.value[j])) ==>
                r == DownloadContainer(env, goal, catalog.value[i])
    ensures forall k :: 0 < k < |r.actions| ==> !r.actions[k].MakeDirs?
    ensures forall a :: a in r.actions ==> !a.PrintStackTrace?
  {
    match catalog
    case Err(cause) => Abort(CatalogUnreadable(cause))
    case Ok(entries) =>
      if |entries| == 0 then Done()
      else if artifact.None? then Abort(NullReference("artifact"))
      else
        match FirstMatch(goal, artifact.value, entries, 0)
        case None => Done()
        case Some(i) =>
          FirstMatchIsUnique(goal, artifact.value, entries);
          DownloadPrintsNothing(env, goal, entries[i]);
          DownloadContainer(env, goal, entries[i])
  }

  /** Any entry that matches with no match before it is the one found. */
  lemma FirstMatchIsUnique(goal: Goal, artifact: Artifact, catalog: seq<DetailsContainer>)
    ensures forall i :: 0 <= i < |catalog| && IsMatch(goal, artifact, catalog[i])
                        && (forall j :: 0 <= j < i ==> !IsMatch(goal, artifact, catalog[j])) ==>
              FirstMatch(goal, artifact, catalog, 0) == Some(i)
  {
  }

  /** Downloading one entry never prints a stack trace. */
  lemma DownloadPrintsNothing(env: Env, goal: Goal, con: DetailsContainer)
    ensures forall a :: a in DownloadContainer(env, goal, con).actions ==> !a.PrintStackTrace?
  {
    var r := DownloadContainer(env, goal, con);
    forall a | a in r.actions
      ensures !a.PrintStackTrace?
    {
      var k :| 0 <= k < |r.actions| && r.actions[k] == a;
    }
  }

  /** `loadContainer`: the container artifact is looked up, then the attempt
      runs and any failure in it is printed, never raised. */
  function LoadContainer(env: Env, goal: Goal, dependencies: seq<Artifact>,
                         catalog: Result<seq<DetailsContainer>, string>): (r: seq<Action>)
    ensures var attempt := Attempt(env, goal, FindContainerArtifact(dependencies), catalog);
            && |attempt.actions| <= |r|
            && r[..|attempt.actions|] == attempt.actions
            && (forall k :: |attempt.actions| <= k < |r| ==> !attempt.Succeeded() && r[k] == PrintStackTrace(attempt.failure.value))
            && (attempt.Succeeded() <==> forall a :: a in r ==> !a.PrintStackTrace?)
            && (!attempt.Succeeded() ==> r == attempt.actions + [PrintStackTrace(attempt.failure.value)])
  {
    PrintFailure(Attempt(env, goal, FindContainerArtifact(dependencies), catalog))
  }

  /** The calls of a trace, followed by the printing of its failure if it
      has one. */
  function PrintFailure(attempt: Trace): (r: seq<Action>)
    requires forall a :: a in attempt.actions ==> !a.PrintStackTrace?
    ensures |attempt.actions| <= |r|
    ensures r[..|attempt.actions|] == attempt.actions
    ensures forall k :: |attempt.actions| <= k < |r| ==> !attempt.Succeeded() && r[k] == PrintStackTrace(attempt.failure.value)
    ensures attempt.Succeeded() <==> forall a :: a in r ==> !a.PrintStackTrace?
    ensures !attempt.Succeeded() ==> r == attempt.actions + [PrintStackTrace(attempt.failure.value)]
  {
    if attempt.Succeeded() then attempt.actions
    else
      var r := attempt.actions + [PrintStackTrace(attempt.failure.value)];
      assert r[|r| - 1] in r;
      r
  }

  /** At most one catalog entry is downloaded: the destination folder is
      created at most once, and when it is, the first matching entry is the
      one downloaded. */
  lemma AtMostOneDownload(env: Env, goal: Goal, dependencies: seq<Artifact>,
                          catalog: Result<seq<DetailsContainer>, string>)
    ensures var r := LoadContainer(env, goal, dependencies, catalog);
            forall k, m :: 0 <= k < m < |r| ==> !(r[k].MakeDirs? && r[m].MakeDirs?)
    ensures var r := LoadContainer(env, goal, dependencies, catalog);
            (exists k :: 0 <= k < |r| && r[k].MakeDirs?) ==>
              && catalog.Ok? && FindContainerArtifact(dependencies).Some?
              && exists i :: 0 <= i < |catalog.value|
                             && IsMatch(goal, FindContainerArtifact(dependencies).value, catalog.value[i])
                             && forall j :: 0 <= j < i ==> !IsMatch(goal, FindContainerArtifact(dependencies).value, catalog.value[j])
  {
    var artifact := FindContainerArtifact(dependencies);
    var attempt := Attempt(env, goal, artifact, catalog);
    var r := LoadContainer(env, goal, dependencies, catalog);
    LoadContainerMakesDirsFirst(attempt, r);
    if exists k :: 0 <= k < |r| && r[k].MakeDirs? {
      var k :| 0 <= k < |r| && r[k].MakeDirs?;
      AttemptMakesDirsOnMatch(env, goal, artifact, catalog, k);
    }
  }

  /** A trace that creates a folder only as its first action, extended by at
      most a printed failure, creates at most one folder. */
  lemma LoadContainerMakesDirsFirst(attempt: Trace, r: seq<Action>)
    requires forall k :: 0 < k < |attempt.actions| ==> !attempt.actions[k].MakeDirs?
    requires |attempt.actions| <= |r| && r[..|attempt.actions|] == attempt.actions
    requires forall k :: |attempt.actions| <= k < |r| ==> r[k].PrintStackTrace?
    ensures forall k, m :: 0 <= k < m < |r| ==> !(r[k].MakeDirs? && r[m].MakeDirs?)
    ensures forall k :: 0 <= k < |r| && r[k].MakeDirs? ==> k < |attempt.actions| && attempt.actions[k].MakeDirs?
  {
    forall k, m | 0 <= k < m < |r|
      ensures !(r[k].MakeDirs? && r[m].MakeDirs?)
    {
      if m < |attempt.actions| {
        assert r[m] == r[..|attempt.actions|][m];
      }
    }
  }

  /** Only the branch that downloads a matching entry creates a folder. */
  lemma AttemptMakesDirsOnMatch(env: Env, goal: Goal, artifact: Option<Artifact>,
                                catalog: Result<seq<DetailsContainer>, string>, k: nat)
    requires k < |Attempt(env, goal, artifact, catalog).actions|
    requires Attempt(env, goal, artifact, catalog).actions[k].MakeDirs?
    ensures && catalog.Ok? && artifact.Some?
            && exists i :: 0 <= i < |catalog.value| && IsMatch(goal, artifact.value, catalog.value[i])
                           && forall j :: 0 <= j < i ==> !IsMatch(goal, artifact.value, catalog.value[j])
  {
    var i := FirstMatch(goal, artifact.value, catalog.value, 0);
    assert i.Some?;
    assert IsMatch(goal, artifact.value, catalog.value[i.value]);
  }
}
