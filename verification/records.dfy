/** The catalog records read from `containers.json`: a container profile
    (`DetailsContainer`) and the coordinates of a dependency or of the
    container's download (`DependencyDescription`). Every field is a Java
    reference that the JSON mapper leaves null when the key is absent. */
module Records {
  import opened Results
  import opened Strings

  /** A `{group_id, artifact_id, url}` record. A null `url` means that the
      archive is resolved from the Maven repositories. */
  datatype DependencyDescription = DependencyDescription(
    group_id: Option<string>,
    artifact_id: Option<string>,
    url: Option<string>)

  /** A named variant of a profile. Its class is not part of this model, and
      nothing in the acquisition logic looks inside it. */
  type Configuration(==)

  /** One catalog entry. */
  datatype DetailsContainer = DetailsContainer(
    group_id: Option<string>,
    artifact_id: Option<string>,
    name: Option<string>,
    dependencies: Option<seq<DependencyDescription>>,
    download: Option<DependencyDescription>,
    configurations: Option<seq<Configuration>>)

  /** A freshly constructed `DependencyDescription`. */
  function NewDependencyDescription(): (r: DependencyDescription)
    ensures r.group_id.None? && r.artifact_id.None? && r.url.None?
  {
    DependencyDescription(None, None, None)
  }

  /** A freshly constructed `DetailsContainer`. */
  function NewDetailsContainer(): (r: DetailsContainer)
    ensures r.group_id.None? && r.artifact_id.None? && r.name.None?
    ensures r.dependencies.None? && r.download.None? && r.configurations.None?
  {
    DetailsContainer(None, None, None, None, None, None)
  }

  // Setters of DependencyDescription: each changes its own field only.

  function SetDependencyGroupId(d: DependencyDescription, v: Option<string>): (r: DependencyDescription)
    ensures r.group_id == v
    ensures r.artifact_id == d.artifact_id && r.url == d.url
  {
    d.(group_id := v)
  }

  function SetDependencyArtifactId(d: DependencyDescription, v: Option<string>): (r: DependencyDescription)
    ensures r.artifact_id == v
    ensures r.group_id == d.group_id && r.url == d.url
  {
    d.(artifact_id := v)
  }

  function SetUrl(d: DependencyDescription, v: Option<string>): (r: DependencyDescription)
    ensures r.url == v
    ensures r.group_id == d.group_id && r.artifact_id == d.artifact_id
  {
    d.(url := v)
  }

  // Setters of DetailsContainer: each changes its own field only.

  function SetGroupId(c: DetailsContainer, v: Option<string>): (r: DetailsContainer)
    ensures r.group_id == v
    ensures r.artifact_id == c.artifact_id && r.name == c.name && r.dependencies == c.dependencies
    ensures r.download == c.download && r.configurations == c.configurations
  {
    c.(group_id := v)
  }

  function SetArtifactId(c: DetailsContainer, v: Option<string>): (r: DetailsContainer)
    ensures r.artifact_id == v
    ensures r.group_id == c.group_id && r.name == c.name && r.dependencies == c.dependencies
    ensures r.download == c.download && r.configurations == c.configurations
  {
    c.(artifact_id := v)
  }

  function SetName(c: DetailsContainer, v: Option<string>): (r: DetailsContainer)
    ensures r.name == v
    ensures r.group_id == c.group_id && r.artifact_id == c.artifact_id && r.dependencies == c.dependencies
    ensures r.download == c.download && r.configurations == c.configurations
  {
    c.(name := v)
  }

  function SetDependencies(c: DetailsContainer, v: Option<seq<DependencyDescription>>): (r: DetailsContainer)
    ensures r.dependencies == v
    ensures r.group_id == c.group_id && r.artifact_id == c.artifact_id && r.name == c.name
    ensures r.download == c.download && r.configurations == c.configurations
  {
    c.(dependencies := v)
  }

  function SetDownload(c: DetailsContainer, v: Option<DependencyDescription>): (r: DetailsContainer)
    ensures r.download == v
    ensures r.group_id == c.group_id && r.artifact_id == c.artifact_id && r.name == c.name
    ensures r.dependencies == c.dependencies && r.configurations == c.configurations
  {
    c.(download := v)
  }

  function SetConfigurations(c: DetailsContainer, v: Option<seq<Configuration>>): (r: DetailsContainer)
    ensures r.configurations == v
    ensures r.group_id == c.group_id && r.artifact_id == c.artifact_id && r.name == c.name
    ensures r.dependencies == c.dependencies && r.download == c.download
  {
    c.(configurations := v)
  }

  /** The prefix that `getId` strips from a profile's display name. */
  const NamePrefix := "Arquillian Container "

  /** The identifier transformation of `getId`, applied to any string. */
  function IdOf(name: string): (r: string)
    ensures |r| <= |name|
  {
    ToUpper(ReplaceChar(RemovePrefixes(name), ' ', '_'))
  }

  /** Every occurrence of `NamePrefix` removed. */
  function RemovePrefixes(s: string): (r: string)
    ensures |r| <= |s|
  {
    RemoveLengthBound(s);
    ReplaceLiteral(s, NamePrefix, "")
  }

  lemma {:induction false} RemoveLengthBound(s: string)
    ensures |ReplaceLiteral(s, NamePrefix, "")| <= |s|
    decreases |s|
  {
    if |s| < |NamePrefix| {
    } else if s[..|NamePrefix|] == NamePrefix {
      RemoveLengthBound(s[|NamePrefix|..]);
    } else {
      RemoveLengthBound(s[1..]);
    }
  }

  /** `getId`: the display name without the "Arquillian Container " prefix,
      with spaces turned into underscores, upper-cased. Dereferences `name`. */
  function GetId(c: DetailsContainer): (r: string)
    requires c.name.Some?
    ensures ' ' !in r
    ensures forall i :: 0 <= i < |r| ==> !IsLower(r[i])
  {
    IdOf(c.name.value)
  }

  /** `toString` is the identifier. */
  function ToString(c: DetailsContainer): (r: string)
    requires c.name.Some?
    ensures r == GetId(c)
  {
    GetId(c)
  }

  /** An identifier is a fixed point of the transformation: it has no space
      and no lower-case letter, so neither the prefix nor a space occurs in
      it and upper-casing changes nothing. */
  lemma IdOfIdempotent(c: DetailsContainer)
    requires c.name.Some?
    ensures IdOf(GetId(c)) == GetId(c)
  {
    var id := GetId(c);
    assert !Contains(id, NamePrefix) by {
      forall i: nat | i <= |id|
        ensures !OccursAt(id, NamePrefix, i)
      {
        if i + |NamePrefix| <= |id| {
          assert id[i..i + |NamePrefix|][1] == id[i + 1];
        }
      }
    }
    ReplaceLiteralAbsent(id, NamePrefix, "");
    assert ReplaceChar(id, ' ', '_') == id;
    assert ToUpper(id) == id;
  }

  /** A display name of the catalog's form and the identifier that error
      messages show for it. */
  lemma GetIdExample()
    ensures GetId(NewDetailsContainer().(name := Some("Arquillian Container Tomcat Managed 7")))
         == "TOMCAT_MANAGED_7"
  {
    var c := NewDetailsContainer().(name := Some("Arquillian Container Tomcat Managed 7"));
    PrefixRemoved();
    Underscored();
    Uppered();
  }

  lemma Uppered()
    ensures ToUpper("Tomcat_Managed_7") == "TOMCAT_MANAGED_7"
  {
  }

  lemma PrefixRemoved()
    ensures RemovePrefixes("Arquillian Container Tomcat Managed 7") == "Tomcat Managed 7"
  {
    assert "Arquillian Container Tomcat Managed 7" == NamePrefix + "Tomcat Managed 7" + "";
    PrefixSplitReady();
    ReplaceLiteralSplit("", NamePrefix, "Tomcat Managed 7", "");
    SuffixKept();
  }

  lemma Underscored()
    ensures ReplaceChar("Tomcat Managed 7", ' ', '_') == "Tomcat_Managed_7"
  {
  }

  lemma SuffixKept()
    ensures ReplaceLiteral("Tomcat Managed 7", NamePrefix, "") == "Tomcat Managed 7"
  {
    assert !Contains("Tomcat Managed 7", NamePrefix);
    ReplaceLiteralAbsent("Tomcat Managed 7", NamePrefix, "");
  }

  lemma PrefixSplitReady()
    ensures NamePrefix[0] !in NamePrefix[1..]
  {
  }
}
