# Container acquisition in the Arquillian Maven plugin

The plugin turns the containers a build configures (a container type, a
version, an optional download URL and an unpack directory) into unpacked
container distributions. This model covers the decisions behind that:

- **Profile resolution** (`ContainersConfiguration`). A request is matched
  against a catalog of container profiles by artifact id. JBoss AS 7 has a
  legacy alias. Every other request uses the prefix
  `arquillian-<type>-managed-<major>`. The first matching profile wins.
- **Acquisition** (`Downloader`, `ArtifactResolver`).
  - An explicit URL is fetched and unpacked.
  - Otherwise a profile whose download descriptor has no URL is resolved
    from the Maven repositories as a non-transitive `zip` artifact.
  - A profile with a URL template has its `${...}` placeholders replaced by
    the version, and the result is fetched and unpacked.
  - Requests are handled in order, and the first failure ends the run.
- **Profile records** (`Records`). These are the catalog's
  `DetailsContainer` and `DependencyDescription` entries, plus the
  identifier derived from a profile's display name.
- **The older `download` goal** (`DownloadGoal`). It finds the container
  among the project's dependencies and downloads at most one matching catalog
  entry. Its URL substitution handles a single literal Tomcat token. It prints
  failures instead of raising them.

Every operation is a pure function. The collaborators are opaque function
fields of `Boundary.Env`: the URL downloader, the archiver manager and its
unarchivers, the two Maven resolvers, and the zip exploder. An operation
returns a `Trace`: the collaborator calls it made, in order, and the failure
that stopped it. A Java `null` is `None`, and dereferencing one is a
`NullReference` failure naming the field.

Some consequences of the code that are easy to miss:

- A profile without a download descriptor fails with a null reference.
  `isDownloadableFromRepository` dereferences the descriptor before asking
  whether its URL is null.
- Underscores of the container type are removed only to recognise the
  `jbossas` alias. The general pattern keeps them.
- The pattern's trailing `.*` stops at line terminators, as Java's `.` does.
  A placeholder body `.*?` cannot cross one either.
- A download descriptor with a null or blank group, or a null artifact id,
  never reaches resolution. Maven's `createArtifact` refuses those ids when
  it builds the artifact, before `resolve` is called.
- A downloaded file's name comes from `java.io.File`, which drops trailing
  separators. `http://h/a/b/` therefore names `b`, not the empty string.

## Model

| member | source | states |
|---|---|---|
| Records.NewDependencyDescription | plugin/src/main/java/org/jboss/arquillian/maven/delegate/json/DependencyDescription.java:28-30 | a fresh descriptor has null group, artifact id and URL |
| Records.SetDependencyGroupId | plugin/src/main/java/org/jboss/arquillian/maven/delegate/json/DependencyDescription.java:32-38 | the group read back is the one set; artifact id and URL are unchanged |
| Records.SetDependencyArtifactId | plugin/src/main/java/org/jboss/arquillian/maven/delegate/json/DependencyDescription.java:40-46 | the artifact id read back is the one set; group and URL are unchanged |
| Records.SetUrl | plugin/src/main/java/org/jboss/arquillian/maven/delegate/json/DependencyDescription.java:48-54 | the URL read back is the one set; group and artifact id are unchanged |
| Records.NewDetailsContainer | plugin/src/main/java/org/jboss/arquillian/maven/delegate/json/DetailsContainer.java:30-36 | a fresh profile has all six fields null |
| Records.SetGroupId | plugin/src/main/java/org/jboss/arquillian/maven/delegate/json/DetailsContainer.java:38-44 | the group read back is the one set; the other five fields are unchanged |
| Records.SetArtifactId | plugin/src/main/java/org/jboss/arquillian/maven/delegate/json/DetailsContainer.java:46-52 | the artifact id read back is the one set; the other five fields are unchanged |
| Records.SetName | plugin/src/main/java/org/jboss/arquillian/maven/delegate/json/DetailsContainer.java:54-60 | the name read back is the one set; the other five fields are unchanged |
| Records.SetDependencies | plugin/src/main/java/org/jboss/arquillian/maven/delegate/json/DetailsContainer.java:62-68 | the dependency list read back is the one set; the other five fields are unchanged |
| Records.SetDownload | plugin/src/main/java/org/jboss/arquillian/maven/delegate/json/DetailsContainer.java:70-76 | the download descriptor read back is the one set; the other five fields are unchanged |
| Records.SetConfigurations | plugin/src/main/java/org/jboss/arquillian/maven/delegate/json/DetailsContainer.java:78-84 | the configuration list read back is the one set; the other five fields are unchanged |
| Records.GetId | plugin/src/main/java/org/jboss/arquillian/maven/delegate/json/DetailsContainer.java:86-88 | needs a non-null name; the identifier contains no space and no lower-case letter |
| Records.IdOfIdempotent | plugin/src/main/java/org/jboss/arquillian/maven/delegate/json/DetailsContainer.java:87 | applying the identifier transformation to an identifier gives it back unchanged |
| Records.GetIdExample | plugin/src/main/java/org/jboss/arquillian/maven/delegate/json/DetailsContainer.java:86-88 | the name `Arquillian Container Tomcat Managed 7` has the identifier `TOMCAT_MANAGED_7` |
| Records.ToString | plugin/src/main/java/org/jboss/arquillian/maven/delegate/json/DetailsContainer.java:90-93 | a profile prints as its identifier, with the same non-null name requirement |
| ContainersConfiguration.RegEx | plugin/src/main/java/org/jboss/arquillian/maven/delegate/ContainersConfiguration.java:65-71 | a null type, then a null version, is a null-reference failure; an empty version fails outside the alias; a pattern is built exactly when type and version are set and the version is non-empty, and it is the exact legacy id exactly for a `jbossas` type with a version starting with `7` |
| ContainersConfiguration.RegExAccepts | plugin/src/main/java/org/jboss/arquillian/maven/delegate/ContainersConfiguration.java:66-70 | an artifact id matches iff it is the legacy id (JBoss AS 7) or iff it starts with `arquillian-` + lower-cased type + `-managed-` + the version's first character and the rest has no line terminator |
| ContainersConfiguration.ScanFrom | plugin/src/main/java/org/jboss/arquillian/maven/delegate/ContainersConfiguration.java:38-43 | the scan stops at the first entry that matches or has a null artifact id, with no match before it; when it runs off the end, no entry matched |
| ContainersConfiguration.Ids | plugin/src/main/java/org/jboss/arquillian/maven/delegate/ContainersConfiguration.java:45-46 | the listed catalog has one identifier per entry, in catalog order |
| ContainersConfiguration.LoadDetails | plugin/src/main/java/org/jboss/arquillian/maven/delegate/ContainersConfiguration.java:35-47 | pattern errors propagate; the result is a catalog member that matches with no earlier match; a profile is found iff some entry matches and every entry before it has an artifact id; "not recognized" is raised iff nothing matches and every entry is named, and it names the request and lists the catalog |
| ContainersConfiguration.SameMajorSameProfile | plugin/src/main/java/org/jboss/arquillian/maven/delegate/ContainersConfiguration.java:66-70 | two requests with the same lower-cased type and the same first version character resolve to the same profile, or both fail |
| ContainersConfiguration.UnderscoreKeptOutsideAlias | plugin/src/main/java/org/jboss/arquillian/maven/delegate/ContainersConfiguration.java:66-70 | `JBoss_AS` 6.1.0 looks for `arquillian-jboss_as-managed-6` ids, while `jboss_as` 7.1.1.Final uses the legacy id |
| Urls.UrlFile | plugin/src/main/java/org/jboss/arquillian/maven/delegate/Downloader.java:80 | the URL is rejected exactly when it names no valid protocol, or one without a handler; an accepted URL's file part holds no `#` |
| Urls.FilePart | plugin/src/main/java/org/jboss/arquillian/maven/delegate/Downloader.java:80 | the fragment is dropped: the file part holds no `#` |
| Urls.AfterAuthority | plugin/src/main/java/org/jboss/arquillian/maven/delegate/Downloader.java:80 | the path is a suffix of the text before the query; text without a leading `//`, or with a UNC-style leading `////`, is all path; after a `//` authority the path is empty or starts with `/` |
| Urls.UrlFileOfParts | plugin/src/main/java/org/jboss/arquillian/maven/delegate/Downloader.java:80 | for http, https, ftp or file, the URL `<protocol>://<host><path><query><fragment>` has file part `<path><query>`: the authority and the fragment are dropped, the query is kept (an empty host needs a path not starting `//`) |
| Urls.UrlFileOfUnc | plugin/src/main/java/org/jboss/arquillian/maven/delegate/Downloader.java:80 | for those protocols, a URL whose protocol is followed by `////` has no authority: its file part is everything before the fragment, slashes included |
| Urls.BaseName | plugin/src/main/java/org/jboss/arquillian/maven/delegate/Downloader.java:80 | the file name has no `/`, and is empty exactly when the path is only separators |
| Urls.BaseNameIsLastSegment | plugin/src/main/java/org/jboss/arquillian/maven/delegate/Downloader.java:80 | a non-empty name is the path's last segment: it follows a `/` or the start, and only `/` follows it |
| Urls.BaseNameUnique | plugin/src/main/java/org/jboss/arquillian/maven/delegate/Downloader.java:80 | any `/`-free non-empty last segment of the path is the name, so that description fixes the result |
| Downloader.IsDownloadableFromRepository | plugin/src/main/java/org/jboss/arquillian/maven/delegate/Downloader.java:98-100 | a null download descriptor is a null-reference failure; otherwise the repository is selected iff the URL is null |
| Downloader.Url | plugin/src/main/java/org/jboss/arquillian/maven/delegate/Downloader.java:94-96 | replaces the placeholders left to right; it carries no contract of its own, and what it promises is stated by `UrlWithoutPlaceholder` and `UrlFillsPlaceholder` |
| Downloader.UrlWithoutPlaceholder | plugin/src/main/java/org/jboss/arquillian/maven/delegate/Downloader.java:94-96 | a template with no `${...}` placeholder is returned unchanged |
| Downloader.UrlFillsPlaceholder | plugin/src/main/java/org/jboss/arquillian/maven/delegate/Downloader.java:94-96 | a placeholder with no `${` before it becomes the version, the text before it is kept, and substitution resumes after its `}` |
| Downloader.FileName | plugin/src/main/java/org/jboss/arquillian/maven/delegate/Downloader.java:78-84 | fails, naming the URL, exactly when the URL is malformed; otherwise the name has no `/` and is empty only when the URL's file part is only separators |
| Downloader.DownloadFromUrl | plugin/src/main/java/org/jboss/arquillian/maven/delegate/Downloader.java:86-92 | one fetch of the URL into the directory under the name; it fails iff the fetch fails, and the failure carries the fetch's cause |
| Downloader.ExportArchive | plugin/src/main/java/org/jboss/arquillian/maven/delegate/ArchiveExporter.java:37-48 | the same calls as an extraction; it succeeds iff the extraction does, and every failure is re-raised as an unpack failure |
| Downloader.FetchAndUnpack | plugin/src/main/java/org/jboss/arquillian/maven/delegate/Downloader.java:69-74 | a malformed URL fails before any call; otherwise the URL is fetched first into the directory under its file name; it succeeds iff the fetch passes and that file then unpacks into the same directory; a failed fetch ends the run with its cause, and a failed unpack is re-raised as an unpack failure; the repositories are never asked |
| Downloader.Unpack | plugin/src/main/java/org/jboss/arquillian/maven/delegate/Downloader.java:62-76 | an override URL is fetched and unpacked; otherwise a resolution failure is raised, a null URL goes to the repositories, and a URL template is filled with the version and fetched |
| Downloader.OverrideSkipsCatalog | plugin/src/main/java/org/jboss/arquillian/maven/delegate/Downloader.java:62-75 | with an override URL the outcome does not depend on the catalog |
| Downloader.NullUrlSelectsRepository | plugin/src/main/java/org/jboss/arquillian/maven/delegate/Downloader.java:63-66 | without an override, the repositories are asked iff the profile's URL is null and its ids are accepted; with a null URL nothing is fetched |
| Downloader.RunSucceedsIffAll | plugin/src/main/java/org/jboss/arquillian/maven/delegate/Downloader.java:56-60 | a sequential run succeeds iff every step does |
| Downloader.RunInOrderAppend | plugin/src/main/java/org/jboss/arquillian/maven/delegate/Downloader.java:56-60 | a run over `a + b` is the run over `a` followed, if it succeeded, by the run over `b` |
| Downloader.RunStopsAtFirstFailure | plugin/src/main/java/org/jboss/arquillian/maven/delegate/Downloader.java:56-60 | after the first failing step nothing else runs, and the run ends with that step's failure |
| Downloader.Download | plugin/src/main/java/org/jboss/arquillian/maven/delegate/Downloader.java:56-60 | `download` succeeds iff every container request does |
| Downloader.DownloadInOrder | plugin/src/main/java/org/jboss/arquillian/maven/delegate/Downloader.java:56-60 | containers are processed in list order |
| Downloader.DownloadStopsAtFirstFailure | plugin/src/main/java/org/jboss/arquillian/maven/delegate/Downloader.java:56-60 | the first failing container ends the run with its failure; later containers make no difference |
| ArtifactResolver.RepositoryArtifact | plugin/src/main/java/org/jboss/arquillian/maven/delegate/ArtifactResolver.java:67-68 | `createArtifact` succeeds iff the group is set and holds a character above U+0020 and the artifact id is set; it then yields exactly those ids, version and type, and otherwise fails with an invalid-artifact error carrying both ids |
| ArtifactResolver.CreateArtifact | plugin/src/main/java/org/jboss/arquillian/maven/delegate/ArtifactResolver.java:66-70 | built iff the descriptor's ids are accepted; the coordinate takes group and artifact from the download descriptor, the request's version, and type `zip`; refused ids give the invalid-artifact error |
| ArtifactResolver.CreateRequest | plugin/src/main/java/org/jboss/arquillian/maven/delegate/ArtifactResolver.java:79-86 | the request is for that artifact, non-transitive, against the project's remote repositories and the local repository |
| ArtifactResolver.CreateArtifactResolutionRequest | plugin/src/main/java/org/jboss/arquillian/maven/delegate/ArtifactResolver.java:60-64 | built iff the descriptor's ids are accepted: descriptor coordinate at the request's version, non-transitive, project repositories; otherwise the invalid-artifact error |
| ArtifactResolver.CoordinateIgnoresProfileIds | plugin/src/main/java/org/jboss/arquillian/maven/delegate/ArtifactResolver.java:66-69 | changing the profile's own group and artifact ids does not change the request |
| ArtifactResolver.UnpackFile | plugin/src/main/java/org/jboss/arquillian/maven/delegate/ArtifactResolver.java:88-98 | without an unarchiver it fails naming the file, before any call; otherwise it creates the directory and then extracts into it; it succeeds iff the extraction does |
| ArtifactResolver.UnpackRequest | plugin/src/main/java/org/jboss/arquillian/maven/delegate/ArtifactResolver.java:72-77 | resolution comes first; nothing is fetched from a URL; extraction targets the directory; an empty resolution fails; otherwise the run is the resolution followed by unpacking the first resolved file, so it succeeds iff that file unpacks, and it fails with that unpacking's failure |
| ArtifactResolver.UnpackFromRepository | plugin/src/main/java/org/jboss/arquillian/maven/delegate/ArtifactResolver.java:55-58 | refused ids fail before any call; accepted ids run the request as above; nothing is fetched; it succeeds iff the ids are accepted, something is resolved and the first resolved file unpacks |
| DownloadGoal.ContainerName | plugin/src/main/java/org/jboss/arquillian/maven/Download.java:205-211 | the configured destination name when set, otherwise the entry's artifact id |
| DownloadGoal.FindContainerArtifact | plugin/src/main/java/org/jboss/arquillian/maven/Download.java:237-248 | the first dependency whose group is `org.jboss.as` or `org.jboss.arquillian.container`; none exactly when no dependency is in those groups |
| DownloadGoal.TokenUrl | plugin/src/main/java/org/jboss/arquillian/maven/Download.java:194 | replaces the literal Tomcat token; it carries no contract of its own, and what it promises is stated by `TokenUrlKeepsOtherText` and `TokenUrlFillsToken` |
| DownloadGoal.TokenUrlFillsToken | plugin/src/main/java/org/jboss/arquillian/maven/Download.java:194 | each `${version.org.apache.tomcat}` becomes the version, and the text on either side is substituted independently |
| DownloadGoal.TokenUrlKeepsOtherText | plugin/src/main/java/org/jboss/arquillian/maven/Download.java:194 | a template without that token, including one with other placeholders, is unchanged |
| DownloadGoal.ArchiveName | plugin/src/main/java/org/jboss/arquillian/maven/Download.java:198 | the archive is the container name followed by `.zip`, and `null.zip` when the name is null |
| DownloadGoal.DownloadFromUrl | plugin/src/main/java/org/jboss/arquillian/maven/Download.java:191-203 | a malformed substituted URL fails before any call; otherwise at most `1 << 24` bytes of it are copied first into the archive in the destination folder; it succeeds iff the copy and the explosion of the archive into the container directory both pass; a failed copy ends the run with a stream failure, and a failed explosion with an export failure; the repositories are never asked |
| DownloadGoal.ArtifactRequest | plugin/src/main/java/org/jboss/arquillian/maven/Download.java:213-222 | built iff the descriptor's ids are accepted: the descriptor's group and artifact at the goal's version, type `zip`, non-transitive, against the project's repositories; otherwise the invalid-artifact error |
| DownloadGoal.ArtifactRequestAgrees | plugin/src/main/java/org/jboss/arquillian/maven/Download.java:217-221 | the goal asks for the same artifact as the repository path of `Downloader` for a request of the same version |
| DownloadGoal.UnpackResolved | plugin/src/main/java/org/jboss/arquillian/maven/Download.java:218-235 | resolution comes first; a null resolved file is a null-reference failure; it succeeds iff a file was resolved, has an unarchiver and extracts; extraction targets the destination folder with overwrite off |
| DownloadGoal.UnpackArtifact | plugin/src/main/java/org/jboss/arquillian/maven/Download.java:213-222 | refused ids fail before any call; accepted ids run the resolution and extraction above; it succeeds iff the ids are accepted and the resolved file extracts |
| DownloadGoal.DownloadContainer | plugin/src/main/java/org/jboss/arquillian/maven/Download.java:168-184 | the destination folder is created first and only once; a null descriptor then fails; a null URL continues as the artifact path, any other URL as the URL path |
| DownloadGoal.NullUrlSelectsArtifact | plugin/src/main/java/org/jboss/arquillian/maven/Download.java:181-184 | the repositories are asked iff the descriptor's URL is null and its ids are accepted; with a null URL nothing is copied or exploded |
| DownloadGoal.FirstMatch | plugin/src/main/java/org/jboss/arquillian/maven/Download.java:146-154 | the first entry whose group equals the artifact's group and whose container name equals its artifact id, with none before it |
| DownloadGoal.Attempt | plugin/src/main/java/org/jboss/arquillian/maven/Download.java:139-155 | an unreadable catalog fails; an empty catalog does nothing; a missing container artifact fails once an entry is examined; no match does nothing; otherwise exactly the first match is downloaded |
| DownloadGoal.PrintFailure | plugin/src/main/java/org/jboss/arquillian/maven/Download.java:155-158 | the calls are kept as a prefix; only a failed trace gains one more action, the printing of its failure; no printing appears iff the trace succeeded |
| DownloadGoal.LoadContainer | plugin/src/main/java/org/jboss/arquillian/maven/Download.java:137-160 | the attempt's calls are kept, and a failure is printed once at the end instead of being raised |
| DownloadGoal.AtMostOneDownload | plugin/src/main/java/org/jboss/arquillian/maven/Download.java:146-154 | the destination folder is created at most once, and only when the catalog has a first match for the container artifact |
| Scenarios.UrlFileExample | plugin/src/main/java/org/jboss/arquillian/maven/delegate/Downloader.java:80 | the file part of `http://example.com/foo.zip` is `/foo.zip` |
| Scenarios.UncExample | plugin/src/main/java/org/jboss/arquillian/maven/delegate/Downloader.java:80 | the file part of `http:////x/a.zip` is `////x/a.zip`: with four slashes no host is taken off |
| Scenarios.FileNameExample | plugin/src/main/java/org/jboss/arquillian/maven/delegate/Downloader.java:78-84 | the file name of `http://example.com/foo.zip` is `foo.zip` |
| Scenarios.OverrideFetchesFileName | plugin/src/main/java/org/jboss/arquillian/maven/delegate/Downloader.java:72-74 | an override request for that URL first fetches it into its unpack directory as `foo.zip`, whatever the catalog |
| Scenarios.NullIdsNeverResolve | plugin/src/main/java/org/jboss/arquillian/maven/delegate/ArtifactResolver.java:66-68 | a profile whose download descriptor has all three fields null fails with the invalid-artifact error and makes no call |
| Scenarios.BlankGroupRefused | plugin/src/main/java/org/jboss/arquillian/maven/delegate/ArtifactResolver.java:67-68 | a group of a blank and a tab is refused |
| Scenarios.TemplateExample | plugin/src/main/java/org/jboss/arquillian/maven/delegate/Downloader.java:94-96 | the template `http://x/tomcat-${v}.zip` at version 7.0.19 becomes `http://x/tomcat-` + `7.0.19` + `.zip` |

## Left out

- Catalog loading: Jackson reading `containers.json` is not modelled. The catalog is an input sequence of profiles. For the older goal it is an input that may be unreadable.
- `BaseCommand` and `Start` are not modelled. The older goal's overrides do not match `BaseCommand`'s signatures, so its logic is modelled on its own.
- The request class `org.jboss.arquillian.maven.Container` is not part of this model. Its type, version, URL and unpack directory become `Boundary.ContainerRequest`, and its `toString` is the request value itself.
- The older goal's catalog classes `org.jboss.arquillian.maven.json.Container` and `Dependency` are not part of this model. Their entries are given the shape of `DetailsContainer`, whose fields the goal reads.
- `RepositorySystem.createArtifact` belongs to Maven. The model follows the identity check of Maven's artifact class: a null or blank group, or a null artifact id, is refused. That class also refuses a null type or a null version, but neither can reach it here: the type is always `zip`, and the version has been dereferenced before.
- Collaborators are opaque functions. This covers `UrlGetter`'s copy, `ArchiverManager` and the unarchivers, `RepositorySystem.resolve`, the older in-place artifact resolver, and ShrinkWrap's zip import and exploded export. Streams, file contents and closing are left out.
- Which element a resolved artifact set yields first is left to the resolver: it is the first element of the sequence it returns. Resolved artifacts are taken to carry a file.
- Logging (`getLog().info`) is not modelled. Neither is what `printStackTrace` writes.
- Regular expressions are modelled only as the code uses them. The type and the version's first character are taken to hold no metacharacter. In replacements, `$` and `\` are not given their special meaning.
- Downloader.Url: the version is inserted literally, even when it contains `$` or `\`, which `replaceAll` would interpret.
- Case mapping covers ASCII letters only, mapped as in the root locale. Java's `toLowerCase` and `toUpperCase` use the default locale. In a Turkish locale `I` lower-cases to a dotless `ı`, so `WILDFLY` becomes `wıldfly` and matches no profile. The model does not cover that, nor the mapping of non-ASCII letters.
- java.net.URL is simplified:
  - There is no `url:` prefix or whitespace trimming.
  - There is no validation of ports or of the authority.
  - Protocols other than http, https, ftp and file count as malformed.
- The older goal's `containerVersion` is taken to be set. A null version passed to the replacement or the resolver is not modelled.
- Downloader.ExportArchive: keeps the whole underlying failure where the Java exception keeps only its message.
- DownloadGoal.DownloadFromUrl: the older goal calls `transferFrom(rbc, 0, 1 << 24)` once (Download.java:200). It therefore copies at most 16 MiB, and a larger archive is cut short. Lines 201-202 then explode the possibly truncated archive. The model records the limit in the `Transfer` call, but archive contents are not modelled, so it does not show the truncation.
