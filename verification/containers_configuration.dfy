/** Profile resolution: the pattern a container request is matched with, and
    the first catalog entry whose artifact id matches it in full.
    Regular expressions reduce to two shapes because the container type and
    the version's first character are taken to hold no metacharacter. */
module ContainersConfiguration {
  import opened Results
  import opened Strings
  import opened Records
  import opened Boundary

  /** The profile every JBoss AS 7 request resolves to. */
  const LegacyJbossAsArtifact := "jboss-as-arquillian-container-managed"

  /** The two regular expressions `regEx` builds: a literal artifact id, or a
      literal prefix followed by `.*`. */
  datatype Pattern = Exact(id: string) | ManagedPrefix(prefix: string)

  /** `artifactId.matches(p)`, a match of the whole id. The trailing `.*`
      matches any characters except line terminators. */
  predicate Matches(p: Pattern, artifactId: string) {
    match p
    case Exact(id) => artifactId == id
    case ManagedPrefix(prefix) => prefix <= artifactId && NoLineTerminator(artifactId[|prefix|..])
  }

  /** The legacy alias: a type that reads `jbossas` once lower-cased and
      stripped of underscores, with a version starting with `7`. */
  predicate IsJbossAs7(containerType: string, version: string) {
    RemoveChar(ToLower(containerType), '_') == "jbossas" && "7" <= version
  }

  /** The literal part of the general pattern. Underscores of the type are
      kept here. */
  function ManagedPrefixOf(containerType: string, major: char): string {
    "arquillian-" + ToLower(containerType) + "-managed-" + [major]
  }

  /** `regEx`: dereferences the type, then the version, and reads the
      version's first character unless the legacy alias applies. */
  function RegEx(request: ContainerRequest): (r: Result<Pattern, Failure>)
    ensures request.containerType.None? ==> r == Err(NullReference("type"))
    ensures request.containerType.Some? && request.version.None? ==> r == Err(NullReference("version"))
    ensures request.containerType.Some? && request.version == Some("") ==> r == Err(EmptyVersion)
    ensures r.Ok? <==> request.containerType.Some? && request.version.Some? && |request.version.value| > 0
    ensures r.Ok? ==> (r.value.Exact? <==> IsJbossAs7(request.containerType.value, request.version.value))
  {
    if request.containerType.None? then Err(NullReference("type"))
    else if request.version.None? then Err(NullReference("version"))
    else
      var id := ToLower(request.containerType.value);
      var version := request.version.value;
      if RemoveChar(id, '_') == "jbossas" && "7" <= version then Ok(Exact(LegacyJbossAsArtifact))
      else if |version| == 0 then Err(EmptyVersion)
      else Ok(ManagedPrefix("arquillian-" + id + "-managed-" + [version[0]]))
  }

  /** Which artifact ids a well-formed request accepts: exactly the legacy id
      for JBoss AS 7, otherwise the ids that start with the managed prefix of
      the lower-cased type and the version's first character. */
  lemma RegExAccepts(request: ContainerRequest, artifactId: string)
    requires request.containerType.Some? && request.version.Some? && |request.version.value| > 0
    ensures RegEx(request).Ok?
    ensures IsJbossAs7(request.containerType.value, request.version.value) ==>
              (Matches(RegEx(request).value, artifactId) <==> artifactId == LegacyJbossAsArtifact)
    ensures !IsJbossAs7(request.containerType.value, request.version.value) ==>
              (Matches(RegEx(request).value, artifactId) <==>
                 var prefix := ManagedPrefixOf(request.containerType.value, request.version.value[0]);
                 prefix <= artifactId && NoLineTerminator(artifactId[|prefix|..]))
  {
  }

  /** Entry `e` has an artifact id and it matches `p`. */
  predicate EntryMatches(e: DetailsContainer, p: Pattern) {
    e.artifact_id.Some? && Matches(p, e.artifact_id.value)
  }

  /** Every entry in `[lo, hi)` has an artifact id, and none matches `p`. */
  predicate NoMatchIn(catalog: seq<DetailsContainer>, p: Pattern, lo: nat, hi: nat)
    requires lo <= hi <= |catalog|
  {
    forall j :: lo <= j < hi ==> catalog[j].artifact_id.Some? && !Matches(p, catalog[j].artifact_id.value)
  }

  /** How the scan of the catalog ends: at a matching entry, at an entry
      whose null artifact id is dereferenced, or past the last entry. */
  datatype Scan = Found(index: nat) | NullArtifactId(index: nat) | Exhausted

  /** The loop of `loadDetails`, from entry `from` on. */
  function ScanFrom(catalog: seq<DetailsContainer>, p: Pattern, from: nat): (r: Scan)
    requires from <= |catalog|
    ensures r.Found? ==> from <= r.index < |catalog| && EntryMatches(catalog[r.index], p)
                         && NoMatchIn(catalog, p, from, r.index)
    ensures r.NullArtifactId? ==> from <= r.index < |catalog| && catalog[r.index].artifact_id.None?
                                  && NoMatchIn(catalog, p, from, r.index)
    ensures r.Exhausted? ==> NoMatchIn(catalog, p, from, |catalog|)
    decreases |catalog| - from
  {
    if from == |catalog| then Exhausted
    else if catalog[from].artifact_id.None? then NullArtifactId(from)
    else if Matches(p, catalog[from].artifact_id.value) then Found(from)
    else ScanFrom(catalog, p, from + 1)
  }

  /** Every entry has a display name, so the catalog can be listed. */
  predicate AllNamed(catalog: seq<DetailsContainer>) {
    forall i :: 0 <= i < |catalog| ==> catalog[i].name.Some?
  }

  /** The catalog as the error message lists it, one identifier per entry. */
  function Ids(catalog: seq<DetailsContainer>): (r: seq<string>)
    requires AllNamed(catalog)
    ensures |r| == |catalog|
    ensures forall i :: 0 <= i < |r| ==> r[i] == GetId(catalog[i])
  {
    seq(|catalog|, i requires 0 <= i < |catalog| => GetId(catalog[i]))
  }

  /** `loadDetails` over the catalog `catalog`: the first entry, in catalog
      order, whose artifact id matches the request's pattern. When none
      matches, the error names the request and lists the catalog; listing it
      dereferences every display name. */
  function LoadDetails(catalog: seq<DetailsContainer>, request: ContainerRequest): (r: Result<DetailsContainer, Failure>)
    ensures RegEx(request).Err? ==> r == Err(RegEx(request).error)
    ensures r.Ok? ==> RegEx(request).Ok?
    ensures r.Ok? ==> exists i :: 0 <= i < |catalog| && catalog[i] == r.value
                                  && EntryMatches(catalog[i], RegEx(request).value)
                                  && NoMatchIn(catalog, RegEx(request).value, 0, i)
    ensures RegEx(request).Ok? ==>
              (r.Ok? <==> exists i :: 0 <= i < |catalog| && EntryMatches(catalog[i], RegEx(request).value)
                                      && forall j :: 0 <= j < i ==> catalog[j].artifact_id.Some?)
    ensures (r.Err? && r.error.ProfileNotFound?) <==>
              (RegEx(request).Ok? && NoMatchIn(catalog, RegEx(request).value, 0, |catalog|) && AllNamed(catalog))
    ensures r.Err? && r.error.ProfileNotFound? ==>
              AllNamed(catalog) && r.error == ProfileNotFound(request, Ids(catalog))
  {
    var p :- RegEx(request);
    match ScanFrom(catalog, p, 0)
    case Found(i) => Ok(catalog[i])
    case NullArtifactId(_) => Err(NullReference("artifact_id"))
    case Exhausted =>
      if AllNamed(catalog) then Err(ProfileNotFound(request, Ids(catalog)))
      else Err(NullReference("name"))
  }

  /** Resolution sees only the lower-cased type and the version's first
      character: two requests that agree on both resolve to the same entry,
      or both fail to resolve. */
  lemma SameMajorSameProfile(catalog: seq<DetailsContainer>, a: ContainerRequest, b: ContainerRequest)
    requires a.containerType.Some? && b.containerType.Some? && ToLower(a.containerType.value) == ToLower(b.containerType.value)
    requires a.version.Some? && b.version.Some?
    requires |a.version.value| > 0 && |b.version.value| > 0
    requires a.version.value[0] == b.version.value[0]
    ensures LoadDetails(catalog, a).Ok? == LoadDetails(catalog, b).Ok?
    ensures LoadDetails(catalog, a).Ok? ==> LoadDetails(catalog, a).value == LoadDetails(catalog, b).value
  {
    var va, vb := a.version.value, b.version.value;
    assert ("7" <= va) == ("7" <= vb) by {
      assert va[..1] == [va[0]] && vb[..1] == [vb[0]];
    }
    assert RegEx(a) == RegEx(b);
  }

  /** Underscores are stripped only to recognise the legacy alias: a
      `jboss_as` request for version 6 looks for `arquillian-jboss_as-managed-6`
      ids, and a version-7 one for the legacy id. */
  lemma UnderscoreKeptOutsideAlias()
    ensures RegEx(ContainerRequest(Some("JBoss_AS"), Some("6.1.0"), None, "target"))
         == Ok(ManagedPrefix("arquillian-jboss_as-managed-6"))
    ensures RegEx(ContainerRequest(Some("jboss_as"), Some("7.1.1.Final"), None, "target"))
         == Ok(Exact(LegacyJbossAsArtifact))
  {
    LowerJbossAs();
    assert "6.1.0"[..1] == "6" && "6.1.0"[0] == '6';
    assert "arquillian-" + "jboss_as" + "-managed-" + ['6'] == "arquillian-jboss_as-managed-6";
    assert "7.1.1.Final"[..1] == "7";
  }

  lemma LowerJbossAs()
    ensures ToLower("JBoss_AS") == "jboss_as"
    ensures ToLower("jboss_as") == "jboss_as"
    ensures RemoveChar("jboss_as", '_') == "jbossas"
  {
    var lowered := ToLower("JBoss_AS");
    assert lowered == "jboss_as" by {
      assert lowered[0] == 'j';
      assert lowered[1] == 'b';
      assert lowered[6] == 'a';
      assert lowered[7] == 's';
    }
    var already := ToLower("jboss_as");
    assert already == "jboss_as" by {
      forall i | 0 <= i < |already|
        ensures already[i] == "jboss_as"[i]
      {
        assert !IsUpper("jboss_as"[i]);
      }
    }
    assert "jboss_as" == "jboss" + "_as";
    RemoveCharAppend("jboss", "_as", '_');
    RemoveCharAbsent("jboss", '_');
    RemoveCharAbsent("as", '_');
    assert "_as"[1..] == "as";
  }
}
