/** The container downloader: for each requested container, in order, either
    fetch and unpack an explicitly configured URL, or resolve the container's
    profile and acquire it from the Maven repositories (no download URL) or
    from the profile's URL template. The first failure ends the whole run. */
module Downloader {
  import opened Results
  import opened Strings
  import opened Records
  import opened Boundary
  import opened Urls
  import opened ContainersConfiguration
  import opened ArtifactResolver

  /** `isDownloadableFromRepository`: dereferences the download descriptor;
      a null URL in it selects the repository. */
  function IsDownloadableFromRepository(details: DetailsContainer): (r: Result<bool, Failure>)
    ensures details.download.None? ==> r == Err(NullReference("download"))
    ensures details.download.Some? ==> r.Ok? && (r.value <==> details.download.value.url.None?)
  {
    if details.download.None? then Err(NullReference("download"))
    else Ok(details.download.value.url.None?)
  }

  // ---- URL templates: `replaceAll("(\\$\\{.*?\\})", version)` ----

  /** The `}` closing a placeholder body that starts at `j`: the first `}`
      at or after `j`, provided no line terminator comes first. */
  function CloseAt(t: string, j: nat): (r: Option<nat>)
    requires j <= |t|
    ensures r.Some? ==> j <= r.value < |t| && t[r.value] == '}'
    decreases |t| - j
  {
    if j == |t| || IsLineTerminator(t[j]) then None
    else if t[j] == '}' then Some(j)
    else CloseAt(t, j + 1)
  }

  /** `${` starts at `i`. */
  predicate OpensAt(t: string, i: nat) {
    i + 1 < |t| && t[i] == '$' && t[i + 1] == '{'
  }

  /** A placeholder, `${` then the shortest body up to `}`, starts at `i`. */
  predicate PlaceholderAt(t: string, i: nat) {
    OpensAt(t, i) && CloseAt(t, i + 2).Some?
  }

  predicate NoPlaceholder(t: string) {
    forall i: nat :: i < |t| ==> !PlaceholderAt(t, i)
  }

  /** A placeholder body: no `}` and no line terminator. */
  predicate IsPlaceholderBody(key: string) {
    forall i :: 0 <= i < |key| ==> key[i] != '}' && !IsLineTerminator(key[i])
  }

  /** `url`: every placeholder of the template, scanning left to right, is
      replaced by the version. */
  function Url(template: string, version: string): string
    decreases |template|
  {
    if |template| == 0 then ""
    else if PlaceholderAt(template, 0) then
      version + Url(template[CloseAt(template, 2).value + 1..], version)
    else [template[0]] + Url(template[1..], version)
  }

  lemma {:induction false} CloseAtShift(t: string, j: nat)
    requires 1 <= j <= |t|
    ensures CloseAt(t[1..], j - 1).Some? <==> CloseAt(t, j).Some?
    decreases |t| - j
  {
    if j == |t| {
    } else {
      assert t[1..][j - 1] == t[j];
      if !IsLineTerminator(t[j]) && t[j] != '}' {
        CloseAtShift(t, j + 1);
      }
    }
  }

  lemma {:induction false} CloseAtBody(t: string, j: nat, k: nat)
    requires j <= k < |t| && t[k] == '}'
    requires IsPlaceholderBody(t[j..k])
    ensures CloseAt(t, j) == Some(k)
    decreases k - j
  {
    if j < k {
      assert t[j..k][0] == t[j];
      assert t[j + 1..k] == t[j..k][1..];
      CloseAtBody(t, j + 1, k);
    }
  }

  /** Dropping the first character of a template creates no placeholder. */
  lemma NoPlaceholderTail(t: string)
    requires |t| > 0
    ensures NoPlaceholder(t) ==> NoPlaceholder(t[1..])
  {
    if NoPlaceholder(t) {
      forall i: nat | i < |t[1..]|
        ensures !PlaceholderAt(t[1..], i)
      {
        assert !PlaceholderAt(t, i + 1);
        if OpensAt(t[1..], i) {
          CloseAtShift(t, i + 3);
        }
      }
    }
  }

  /** A template without a placeholder is returned unchanged. */
  lemma {:induction false} UrlWithoutPlaceholder(t: string, version: string)
    requires NoPlaceholder(t)
    ensures Url(t, version) == t
    decreases |t|
  {
    if |t| > 0 {
      assert !PlaceholderAt(t, 0);
      NoPlaceholderTail(t);
      UrlWithoutPlaceholder(t[1..], version);
    }
  }

  /** The first placeholder of a template is replaced by the version, the
      text before it is kept, and scanning resumes after its `}`. */
  lemma {:induction false} UrlFillsPlaceholder(a: string, key: string, b: string, version: string)
    requires forall i: nat :: i < |a| ==> !OpensAt(a, i)
    requires IsPlaceholderBody(key)
    ensures Url(a + "${" + key + "}" + b, version) == a + version + Url(b, version)
    decreases |a|
  {
    var t := a + "${" + key + "}" + b;
    if |a| == 0 {
      assert t == "${" + key + "}" + b;
      FillsLeadingPlaceholder(key, b, version);
    } else {
      HeadOpensNothing(a, "${" + key + "}" + b);
      assert t[1..] == a[1..] + "${" + key + "}" + b;
      UrlFillsPlaceholder(a[1..], key, b, version);
      assert Url(t, version) == [t[0]] + Url(t[1..], version);
      assert a == [t[0]] + a[1..];
    }
  }

  /** A placeholder at the front is replaced and scanning resumes after it. */
  lemma FillsLeadingPlaceholder(key: string, b: string, version: string)
    requires IsPlaceholderBody(key)
    ensures Url("${" + key + "}" + b, version) == version + Url(b, version)
  {
    var t := "${" + key + "}" + b;
    assert t[2..2 + |key|] == key;
    CloseAtBody(t, 2, 2 + |key|);
    assert t[2 + |key| + 1..] == b;
  }

  /** Text that opens nothing, followed by a `$`, opens nothing at its
      front, and neither does its tail. */
  lemma HeadOpensNothing(a: string, rest: string)
    requires |a| > 0 && |rest| > 0 && rest[0] == '$'
    requires forall i: nat :: i < |a| ==> !OpensAt(a, i)
    ensures !OpensAt(a + rest, 0)
    ensures forall i: nat :: i < |a[1..]| ==> !OpensAt(a[1..], i)
  {
    if |a| == 1 {
      assert (a + rest)[1] == '$';
    } else {
      assert !OpensAt(a, 0);
    }
    forall i: nat | i < |a[1..]|
      ensures !OpensAt(a[1..], i)
    {
      assert !OpensAt(a, i + 1);
    }
  }

  // ---- file names and downloads ----

  /** `fileName`: the name of the URL's file part (its path and query), or
      an error naming a URL the constructor rejects. */
  function FileName(url: string): (r: Result<string, Failure>)
    ensures r.Err? <==> UrlFile(url).None?
    ensures r.Err? ==> r.error == MalformedUrl(url)
    ensures r.Ok? ==> '/' !in r.value
    ensures r.Ok? ==> (r.value == "" <==> forall i :: 0 <= i < |UrlFile(url).value| ==> UrlFile(url).value[i] == '/')
  {
    match UrlFile(url)
    case None => Err(MalformedUrl(url))
    case Some(file) => Ok(BaseName(file))
  }

  /** `downloadFromUrl`: one fetch; its failure is re-raised carrying the
      original cause. */
  function DownloadFromUrl(env: Env, url: string, dir: string, name: string): (r: Trace)
    ensures r.actions == [Fetch(url, dir, name)]
    ensures r.Succeeded() <==> env.fetch(url, dir, name).Pass?
    ensures !r.Succeeded() ==> r.failure.value == DownloadFailed(env.fetch(url, dir, name).error)
  {
    var fetched := env.fetch(url, dir, name);
    Call(Fetch(url, dir, name), if fetched.Fail? then Fail(DownloadFailed(fetched.error)) else Pass)
  }

  /** `ArchiveExporter.unpack`: like the repository path's extraction, but
      every failure is caught and re-raised with its message only. */
  function ExportArchive(env: Env, archive: File, dir: string): (r: Trace)
    ensures r.failure.Some? ==> r.failure.value.UnpackFailed?
    ensures r.Succeeded() <==> UnpackFile(env, archive, dir).Succeeded()
    ensures r.actions == UnpackFile(env, archive, dir).actions
  {
    var t := UnpackFile(env, archive, dir);
    if t.Succeeded() then t else Trace(t.actions, Some(UnpackFailed(t.failure.value)))
  }

  /** Both URL branches of `unpack`: fetch the URL into `dir` under its
      derived name, then unpack that file into the same `dir`. */
  function FetchAndUnpack(env: Env, url: string, dir: string): (r: Trace)
    ensures FileName(url).Err? ==> r == Abort(MalformedUrl(url))
    ensures FileName(url).Ok? ==> |r.actions| > 0 && r.actions[0] == Fetch(url, dir, FileName(url).value)
    ensures forall a :: a in r.actions ==> !a.Resolve?
    ensures r.Succeeded() ==>
              var name := FileName(url).value;
              r.actions == [Fetch(url, dir, name), MakeDirs(dir), Extract(Child(dir, name), dir, true)]
    ensures FileName(url).Ok? ==>
              var name := FileName(url).value;
              r.Succeeded() <==> env.fetch(url, dir, name).Pass? && UnpackFile(env, Child(dir, name), dir).Succeeded()
    ensures FileName(url).Ok? && env.fetch(url, dir, FileName(url).value).Fail? ==>
              var name := FileName(url).value;
              r == Trace([Fetch(url, dir, name)], Some(DownloadFailed(env.fetch(url, dir, name).error)))
    ensures FileName(url).Ok? && env.fetch(url, dir, FileName(url).value).Pass? ==>
              var name := FileName(url).value;
              var unpacked := UnpackFile(env, Child(dir, name), dir);
              && r.actions == [Fetch(url, dir, name)] + unpacked.actions
              && (unpacked.failure.Some? ==> r.failure == Some(UnpackFailed(unpacked.failure.value)))
  {
    match FileName(url)
    case Err(f) => Abort(f)
    case Ok(name) =>
      FetchThenUnpack(env, url, dir, name);
      DownloadFromUrl(env, url, dir, name).Then(ExportArchive(env, Child(dir, name), dir))
  }

  /** The fetch, then the unpacking of the fetched file, which only runs if
      the fetch passed. */
  lemma FetchThenUnpack(env: Env, url: string, dir: string, name: string)
    ensures var r := DownloadFromUrl(env, url, dir, name).Then(ExportArchive(env, Child(dir, name), dir));
            var unpacked := UnpackFile(env, Child(dir, name), dir);
            && |r.actions| > 0 && r.actions[0] == Fetch(url, dir, name)
            && (forall a :: a in r.actions ==> !a.Resolve?)
            && (r.Succeeded() <==> env.fetch(url, dir, name).Pass? && unpacked.Succeeded())
            && (r.Succeeded() ==> r.actions == [Fetch(url, dir, name), MakeDirs(dir), Extract(Child(dir, name), dir, true)])
            && (env.fetch(url, dir, name).Fail? ==>
                  r == Trace([Fetch(url, dir, name)], Some(DownloadFailed(env.fetch(url, dir, name).error))))
            && (env.fetch(url, dir, name).Pass? ==>
                  && r.actions == [Fetch(url, dir, name)] + unpacked.actions
                  && (unpacked.failure.Some? ==> r.failure == Some(UnpackFailed(unpacked.failure.value))))
  {
    var fetched := DownloadFromUrl(env, url, dir, name);
    var exported := ExportArchive(env, Child(dir, name), dir);
    var unpacked := UnpackFile(env, Child(dir, name), dir);
    var r := fetched.Then(exported);
    if fetched.Succeeded() {
      assert r.actions == [Fetch(url, dir, name)] + unpacked.actions;
      assert r.failure == exported.failure;
      forall a | a in r.actions
        ensures !a.Resolve?
      {
        if a != Fetch(url, dir, name) {
          assert a in unpacked.actions;
        }
      }
    }
  }

  /** `unpack`: one container request. With a URL override the catalog is
      not consulted. Otherwise the profile is resolved; a null download URL
      sends the request to the repositories, and any other URL is a template
      whose placeholders become the version. */
  function Unpack(env: Env, catalog: seq<DetailsContainer>, request: ContainerRequest): (r: Trace)
    ensures request.url.Some? ==> r == FetchAndUnpack(env, request.url.value, request.unpackDir)
    ensures request.url.None? && LoadDetails(catalog, request).Err? ==>
              r == Abort(LoadDetails(catalog, request).error)
    ensures request.url.None? && LoadDetails(catalog, request).Ok? ==>
              var details := LoadDetails(catalog, request).value;
              && (details.download.None? ==> r == Abort(NullReference("download")))
              && (details.download.Some? && details.download.value.url.None? ==>
                    r == UnpackFromRepository(env, details, request))
              && (details.download.Some? && details.download.value.url.Some? ==>
                    r == FetchAndUnpack(env, Url(details.download.value.url.value, request.version.value),
                                        request.unpackDir))
  {
    match request.url
    case Some(u) => FetchAndUnpack(env, u, request.unpackDir)
    case None =>
      match LoadDetails(catalog, request)
      case Err(f) => Abort(f)
      case Ok(details) =>
        match IsDownloadableFromRepository(details)
        case Err(f) => Abort(f)
        case Ok(fromRepository) =>
          if fromRepository then UnpackFromRepository(env, details, request)
          else FetchAndUnpack(env, Url(details.download.value.url.value, request.version.value), request.unpackDir)
  }

  /** With a URL override the result is the same whatever the catalog holds:
      the catalog is never consulted. */
  lemma OverrideSkipsCatalog(env: Env, c1: seq<DetailsContainer>, c2: seq<DetailsContainer>, request: ContainerRequest)
    requires request.url.Some?
    ensures Unpack(env, c1, request) == Unpack(env, c2, request)
  {
  }

  /** Without an override, a resolved profile's null download URL is exactly
      the condition under which the repositories are asked and no URL is
      fetched. */
  lemma NullUrlSelectsRepository(env: Env, catalog: seq<DetailsContainer>, request: ContainerRequest)
    requires request.url.None? && LoadDetails(catalog, request).Ok?
    requires LoadDetails(catalog, request).value.download.Some?
    ensures var details := LoadDetails(catalog, request).value;
            var r := Unpack(env, catalog, request);
            && ((exists i :: 0 <= i < |r.actions| && r.actions[i].Resolve?) <==>
                  details.download.value.url.None?
                  && ValidIdentity(details.download.value.group_id, details.download.value.artifact_id))
            && (details.download.value.url.None? ==> forall a :: a in r.actions ==> !a.Fetch?)
  {
    var details := LoadDetails(catalog, request).value;
    var r := Unpack(env, catalog, request);
    var d := details.download.value;
    if d.url.None? && ValidIdentity(d.group_id, d.artifact_id) {
      assert r.actions[0].Resolve?;
    }
  }

  /** Requests processed one after another, each by `step`, until one
      fails. */
  function RunInOrder(step: ContainerRequest -> Trace, requests: seq<ContainerRequest>): (r: Trace)
    decreases |requests|
  {
    if |requests| == 0 then Done()
    else step(requests[0]).Then(RunInOrder(step, requests[1..]))
  }

  /** The run succeeds exactly when every step does. */
  lemma {:induction false} RunSucceedsIffAll(step: ContainerRequest -> Trace, requests: seq<ContainerRequest>)
    ensures RunInOrder(step, requests).Succeeded() <==>
            forall i :: 0 <= i < |requests| ==> step(requests[i]).Succeeded()
    decreases |requests|
  {
    if |requests| > 0 {
      RunSucceedsIffAll(step, requests[1..]);
      assert forall i :: 1 <= i < |requests| ==> requests[i] == requests[1..][i - 1];
    }
  }

  /** A run over `a + b` is the run over `a` followed, if it succeeded, by
      the run over `b`. */
  lemma {:induction false} RunInOrderAppend(step: ContainerRequest -> Trace, a: seq<ContainerRequest>, b: seq<ContainerRequest>)
    ensures RunInOrder(step, a + b) == RunInOrder(step, a).Then(RunInOrder(step, b))
    decreases |a|
  {
    if |a| == 0 {
      assert a + b == b;
    } else {
      assert (a + b)[1..] == a[1..] + b;
      RunInOrderAppend(step, a[1..], b);
    }
  }

  /** `download`: the requests in list order; the first failure ends the run. */
  function Download(env: Env, catalog: seq<DetailsContainer>, requests: seq<ContainerRequest>): (r: Trace)
    ensures r.Succeeded() <==> AllSucceed(env, catalog, requests)
  {
    RunSucceedsIffAll(request => Unpack(env, catalog, request), requests);
    RunInOrder(request => Unpack(env, catalog, request), requests)
  }

  /** Every request of the list was acquired. */
  predicate AllSucceed(env: Env, catalog: seq<DetailsContainer>, requests: seq<ContainerRequest>) {
    forall i :: 0 <= i < |requests| ==> Unpack(env, catalog, requests[i]).Succeeded()
  }

  /** Processing is in list order: a run over `a + b` is the run over `a`
      followed, if it succeeded, by the run over `b`. */
  lemma DownloadInOrder(env: Env, catalog: seq<DetailsContainer>, a: seq<ContainerRequest>, b: seq<ContainerRequest>)
    ensures Download(env, catalog, a + b) == Download(env, catalog, a).Then(Download(env, catalog, b))
  {
    RunInOrderAppend(request => Unpack(env, catalog, request), a, b);
  }

  /** The first failure aborts everything after it: once step `k` fails
      after every earlier one succeeded, the run ends with its failure and
      whatever follows in the list makes no difference. */
  lemma {:induction false} RunStopsAtFirstFailure(step: ContainerRequest -> Trace,
                                                  requests: seq<ContainerRequest>, k: nat,
                                                  rest: seq<ContainerRequest>)
    requires k < |requests|
    requires forall i :: 0 <= i < k ==> step(requests[i]).Succeeded()
    requires !step(requests[k]).Succeeded()
    ensures RunInOrder(step, requests[..k + 1] + rest) == RunInOrder(step, requests[..k + 1])
    ensures RunInOrder(step, requests).failure == step(requests[k]).failure
    ensures RunInOrder(step, requests).actions
         == RunInOrder(step, requests[..k]).actions + step(requests[k]).actions
    decreases k
  {
    var first := step(requests[0]);
    if k == 0 {
      assert (requests[..1] + rest)[0] == requests[0];
      assert requests[..1][0] == requests[0];
      assert RunInOrder(step, requests[..0]) == Done();
    } else {
      var tail := requests[1..];
      RunStopsAtFirstFailure(step, tail, k - 1, rest);
      assert (requests[..k + 1] + rest)[1..] == tail[..k] + rest;
      assert requests[..k + 1][1..] == tail[..k];
      assert requests[..k][1..] == tail[..k - 1];
      assert (requests[..k + 1] + rest)[0] == requests[0];
      assert requests[..k + 1][0] == requests[0];
      assert requests[..k][0] == requests[0];
      assert tail[k - 1] == requests[k];
    }
  }

  /** The first failure aborts everything after it: once request `k` fails
      after every earlier one succeeded, the run ends with its failure and
      whatever follows it in the list makes no difference. */
  lemma DownloadStopsAtFirstFailure(env: Env, catalog: seq<DetailsContainer>,
                                    requests: seq<ContainerRequest>, k: nat,
                                    rest: seq<ContainerRequest>)
    requires k < |requests|
    requires forall i :: 0 <= i < k ==> Unpack(env, catalog, requests[i]).Succeeded()
    requires !Unpack(env, catalog, requests[k]).Succeeded()
    ensures Download(env, catalog, requests[..k + 1] + rest) == Download(env, catalog, requests[..k + 1])
    ensures Download(env, catalog, requests).failure == Unpack(env, catalog, requests[k]).failure
    ensures Download(env, catalog, requests).actions
         == Download(env, catalog, requests[..k]).actions + Unpack(env, catalog, requests[k]).actions
  {
    RunStopsAtFirstFailure(request => Unpack(env, catalog, request), requests, k, rest);
  }
}
