/** Worked examples: a download URL's file name, a template with one
    placeholder, what an override request fetches, and the ids the
    repositories refuse. */
module Scenarios {
  import opened Results
  import opened Strings
  import opened Urls
  import opened Boundary
  import opened Records
  import opened ContainersConfiguration
  import opened ArtifactResolver
  import opened Downloader

  // ---- the file name of `http://example.com/foo.zip` ----

  lemma BodySplit(body: string)
    requires body == "//example.com/foo.zip"
    ensures SplitAt(body, '#') == (body, None)
    ensures SplitAt(body, '?') == (body, None)
    ensures IndexOf(body, '/', 2) == Some(13)
  {
    assert '#' !in body;
    assert '?' !in body;
    assert body[13] == '/';
    assert forall k :: 2 <= k < 13 ==> body[k] != '/';
  }

  lemma FilePartExample(body: string)
    requires body == "//example.com/foo.zip"
    ensures FilePart(body) == "/foo.zip"
  {
    BodySplit(body);
    assert "//" <= body;
    assert body[13..] == "/foo.zip";
  }

  lemma UrlFileExample(s: string)
    requires s == "http://example.com/foo.zip"
    ensures UrlFile(s) == Some("/foo.zip")
  {
    var body := "//example.com/foo.zip";
    assert s == "http" + ":" + body;
    UrlFileOfKnownProtocol("http", body);
    FilePartExample(body);
  }

  lemma UncSplit(s: string)
    requires s == "http:////x/a.zip"
    ensures s == "http" + ":" + s[5..] + "" + ""
    ensures "////" <= s[5..] && '?' !in s[5..] && '#' !in s[5..]
    ensures s[5..] == "////x/a.zip"
  {
  }

  /** Four slashes after the protocol keep the whole text as the file part. */
  lemma UncExample(s: string)
    requires s == "http:////x/a.zip"
    ensures UrlFile(s) == Some("////x/a.zip")
  {
    UncSplit(s);
    UrlFileOfUnc("http", s[5..], "", "");
  }

  lemma BaseNameExample()
    ensures BaseName("/foo.zip") == "foo.zip"
  {
    var path := "/foo.zip";
    assert path[1..8] == "foo.zip";
    assert '/' !in "foo.zip";
    assert IsLastSegmentAt(path, "foo.zip", 1);
    BaseNameUnique(path, "foo.zip", 1);
  }

  lemma FileNameExample()
    ensures FileName("http://example.com/foo.zip") == Ok("foo.zip")
  {
    UrlFileExample("http://example.com/foo.zip");
    BaseNameExample();
  }

  /** An override request fetches its URL into the unpack directory under
      the URL's file name, whatever the catalog holds. */
  lemma OverrideFetchesFileName(env: Env, catalog: seq<DetailsContainer>)
    ensures var request := ContainerRequest(None, None, Some("http://example.com/foo.zip"), "target");
            var r := Unpack(env, catalog, request);
            |r.actions| > 0 && r.actions[0] == Fetch("http://example.com/foo.zip", "target", "foo.zip")
  {
    FileNameExample();
  }

  // ---- a template with one placeholder ----

  lemma NoOpeningInHead(a: string)
    requires a == "http://x/tomcat-"
    ensures forall i: nat :: i < |a| ==> !OpensAt(a, i)
  {
    assert '$' !in a;
  }

  lemma NoPlaceholderInTail(b: string)
    requires b == ".zip"
    ensures NoPlaceholder(b)
  {
    assert '$' !in b;
  }

  /** The placeholder of the Tomcat template `http://x/tomcat-${v}.zip`
      becomes the version. */
  lemma TemplateExample(a: string, key: string, b: string, version: string)
    requires a == "http://x/tomcat-" && key == "v" && b == ".zip" && version == "7.0.19"
    ensures a + "${" + key + "}" + b == "http://x/tomcat-${v}.zip"
    ensures Url(a + "${" + key + "}" + b, version) == a + version + b
  {
    NoOpeningInHead(a);
    assert IsPlaceholderBody(key);
    UrlFillsPlaceholder(a, key, b, version);
    NoPlaceholderInTail(b);
    UrlWithoutPlaceholder(b, version);
  }

  // ---- a download descriptor without coordinates ----

  /** A profile whose download descriptor is freshly constructed (group,
      artifact id and URL all null) goes to the repositories, which refuse
      its ids before anything is resolved. */
  lemma NullIdsNeverResolve(env: Env, catalog: seq<DetailsContainer>, request: ContainerRequest)
    requires request.url.None? && LoadDetails(catalog, request).Ok?
    requires LoadDetails(catalog, request).value.download == Some(NewDependencyDescription())
    ensures Unpack(env, catalog, request) == Abort(InvalidArtifact(None, None))
  {
  }

  /** A group of blanks is refused like a null one. */
  lemma BlankGroupRefused(group: string)
    requires group == " \t"
    ensures RepositoryArtifact(Some(group), Some("tomcat"), "7.0.19", "zip").Err?
  {
    assert group[0] <= ' ' && group[1] <= ' ';
  }
}
