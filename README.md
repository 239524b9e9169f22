# argeo-build, modelled in Dafny

argeo-build is the build tooling of the Argeo SDK. It has two parts:

- **Repackage** turns third-party Maven artifacts and Eclipse archives into A2
  bundles, the OSGi layout Argeo uses. For each artifact it does these things:
  - downloads the artifact into a local cache, through mirrors when there are some;
  - unpacks the jar entry by entry, or merges several jars into one bundle;
  - reconciles the original MANIFEST with the headers the descriptors ask for;
  - normalises the SPDX license identifier;
  - records every change in an `ARGEO-ORIGIN/changes` ledger;
  - packages the sources as an Eclipse source bundle.
- **Make** compiles and packages the bundles of a source tree. It reads
  `sdk.mk` to find the source and build directories, and parses its own
  command line. It exists in two snapshots: the current one (`src/`) and an
  earlier one (`java/`).

This project models the decision logic of both parts as Dafny functions,
methods and classes, and proves properties of it. The model uses these stand-ins:

- An archive is the sequence of entries `JarInputStream.getNextJarEntry`
  yields: a name, a directory flag and bytes. A manifest placed first in the
  jar is consumed by the stream and never shows up as an entry.
- The working tree is a map from path to bytes. `FileTree.Tree` is the class
  whose map the entry loops update in place.
- A manifest's main attributes are `Headers.Attributes`: the header names in
  insertion order and their values. A `.bnd` descriptor or any other
  `java.util.Properties` is a plain map.
- The four TreeSets of an `A2Origin` are sets of strings. `Provenance.A2Origin`
  is the class the loops add messages to.
- The network is a set of URIs that can be fetched. The download cache is a
  set of existing paths.
- An exception is a `Failure` value. It carries the exception's class and the
  message the source builds. A loop that throws stops and yields what it wrote
  before the throw.
- Java's `String.split` on a one-character separator (trailing empty strings
  dropped), `indexOf`, `trim`, `StringTokenizer` and `Path.resolve` are written
  out in `java_text.dfy`, `sdk_mk.dfy` and `file_tree.dfy`.

Module layout:

| module | file | part of the source |
|---|---|---|
| `Identity` | identity.dfy | `NameVersion`, `M2Artifact`, `M2ConventionsUtils` |
| `Origins` | origins.dfy | `tryDownloadArchive`, `download`, `downloadMaven` |
| `Merge` | merge.dfy | the entry loop of `mergeM2Artifacts` |
| `BundleContent` | bundle_content.dfy | the entry loop of `processBundleJar`, native hoisting |
| `Sources` | sources.dfy | `processM2SourceJar`, `processEclipseSourceJar`, `createSourceJar` headers |
| `Descriptors` | descriptors.dfy | descriptor layering, merge descriptors, computed-header filtering |
| `Reconcile` | reconcile.dfy | singleton, header precedence, de-pollution |
| `Licensing` | licensing.dfy | `processLicense`, the license links of `createReadMe` |
| `Provenance` | provenance.dfy | `A2Origin` and `appendChanges` |
| `CommandLine` | command_line.dfy | the option parser of `Make.main` (both snapshots) |
| `SdkMk` | sdk_mk.dfy | `sdk.mk` tokenizing and `findSdkMk` (both snapshots) |
| `Make` | make.dfy | current `Make`: layout, actions, bundle checks, jar path |
| `Progress` | progress.dfy | `MakeCompilationProgress` |
| `LegacyMake` | legacy_make.dfy | earlier `Make` |
| `Wrappers`, `JavaText`, `FileTree`, `Headers` | | Java library behaviour the model relies on |

## Model

| member | source | states |
|---|---|---|
| Identity.ParseNameVersion | src/org/argeo/build/Repackage.java:1712-1722 | Without `;version=` the whole string is the name and the version is null. Otherwise name + `;version=` + version gives back the input, and the name holds no `;version=` (the first occurrence splits). |
| Identity.NameVersionRoundTrip | src/org/argeo/build/Repackage.java:1713-1722 | A name without the directive, printed with `;version=` and a version, parses back to that name and version. |
| Identity.Branch | src/org/argeo/build/Repackage.java:1750-1755 | A null version fails with a NullPointerException. A version with fewer than two dot-separated parts fails with IllegalStateException. Success implies at least two parts. |
| Identity.BranchOfVersion | src/org/argeo/build/Repackage.java:1750-1755 | "X.Y", "X.Y.Z", "X.Y-q"…: the branch is "X.Y" whenever Y is non-empty. |
| Identity.BranchNeedsTwoComponents | src/org/argeo/build/Repackage.java:1751-1753 | "1" and "1." have no branch, because split drops the trailing empty part. |
| Identity.BranchKeepsEmptyComponent | src/org/argeo/build/Repackage.java:1751-1754 | "1..2" has branch "1.", because an inner empty part is kept. |
| Identity.ParseM2 | src/org/argeo/build/Repackage.java:1595-1603 | Parsing succeeds exactly when the coordinates split into at least two parts on ':'. The parts give group, artifact and, if there is a third, the version. |
| Identity.CoordinatesRoundTrip | src/org/argeo/build/Repackage.java:1595-1615 | "g:a:v" parses to group g, artifact a, version v, and `toM2Coordinates` prints "g:a:v" back. |
| Identity.PartialCoordinatesRoundTrip | src/org/argeo/build/Repackage.java:1595-1615 | "g:a" leaves the version null and prints back as "g:a". |
| Identity.ParseCoordinates | src/org/argeo/build/Repackage.java:1595-1615 | Any artifact with colon-free parts is recovered from its printed coordinates. |
| Identity.WithDefaultVersion | src/org/argeo/build/Repackage.java:441-442 | A missing version is set to the default. A given version is kept. |
| Identity.ArtifactPathLayout | src/org/argeo/build/Repackage.java:1638-1640 | The path of an artifact is the group with dots as slashes, then `/a/v/a-v[-classifier].jar`. |
| Identity.ClassifierSegment | src/org/argeo/build/Repackage.java:1631-1635 | The `-classifier` segment is in the file name exactly when the classifier is non-empty. |
| Identity.ArtifactUrlJoin | src/org/argeo/build/Repackage.java:1643-1648 | The URL is the repository base with exactly one trailing slash, followed by the repository-relative path. |
| Identity.ArtifactUrlSingleSlash | src/org/argeo/build/Repackage.java:1643-1648 | For a group not starting with '/' or '.', the slash after the base is never doubled. |
| Identity.DefaultRepository | src/org/argeo/build/Repackage.java:1651-1654 | With no repository the URL is under Maven Central. |
| Origins.BeforeQuery | src/org/argeo/build/Repackage.java:1376 | The URI path stops before any '?' or '#'. |
| Origins.UriPathOf | src/org/argeo/build/Repackage.java:1376 | The path of "scheme://host/path" is "/path". |
| Origins.CacheName | src/org/argeo/build/Repackage.java:1374-1378 | Deriving the cache name fails (index error) exactly when the path has no segment. |
| Origins.CacheNameNested | src/org/argeo/build/Repackage.java:1375-1378 | An archive at ".../parent/file" is cached as "parent-file". |
| Origins.CacheNameSingle | src/org/argeo/build/Repackage.java:1377-1378 | A path of one segment keeps that segment as its name. |
| Origins.CacheNameRoot | src/org/argeo/build/Repackage.java:1376-1378 | The root path "/" has no segment, so the download fails. |
| Origins.Destination | src/org/argeo/build/Repackage.java:1373-1381 | A given name is resolved in the directory; otherwise the name derived from the URI path is used, or the index error is raised. |
| Origins.DownloadOutcome | src/org/argeo/build/Repackage.java:1371-1394 | A download never removes cached files and fetches at most the URI itself. A success names an existing file. An existing destination is returned with nothing fetched. It fails with not-found exactly when the destination is absent and the network cannot serve the URI. |
| Origins.DownloadIdempotent | src/org/argeo/build/Repackage.java:1382-1384 | A second download of the same URI is a cache hit: same path, nothing fetched. |
| Origins.FindMirror | src/org/argeo/build/Repackage.java:1331-1339 | The chosen mirror is the first whose prefix starts the URI and whose base list is non-empty. None means no mirror serves the URI. |
| Origins.MirrorFallback | src/org/argeo/build/Repackage.java:1348-1357 | Bases are tried in order. The result is the first base that can be found. When every base is missing the result is "Cannot find <uri>". |
| Origins.DirectDownloadNotFound | src/org/argeo/build/Repackage.java:1340-1345 | Without a serving mirror, a URI that cannot be fetched gives "Cannot find <uri>". |
| Origins.Downloader.Download | src/org/argeo/build/Repackage.java:1371-1394 | The method's result and new cache state are those of the download specification. |
| Origins.Downloader.TryDownloadArchive | src/org/argeo/build/Repackage.java:1327-1358 | The method's result and new cache state are those of the mirror search followed by the base loop. |
| Origins.Downloader.DownloadMaven | src/org/argeo/build/Repackage.java:848-864 | An artifact is downloaded from its Maven URI to its repository path under the local Maven base. |
| Origins.MavenCacheLayout | src/org/argeo/build/Repackage.java:848-864 | The local cache mirrors the remote layout: the same relative path under the repository URL and under the Maven base. |
| Origins.SourcesArtifactClassifier | src/org/argeo/build/Repackage.java:778 | The sources artifact differs only by the "sources" classifier, so its file is `a-v-sources.jar`. |
| Merge.OriginalManifestNeverSaved | src/org/argeo/build/Repackage.java:571-577 | As written, saving a merged artifact's MANIFEST always fails with FileAlreadyExists. |
| Merge.SaveOriginalManifest | src/org/argeo/build/Repackage.java:571-580 | The intended save: the MANIFEST is at its path under ARGEO-ORIGIN and no other file changes. |
| Merge.CopyNew | src/org/argeo/build/Repackage.java:591 | `Files.copy` fails with FileAlreadyExists exactly when the target exists; otherwise it adds the file. |
| Merge.MergeEntryEffect | src/org/argeo/build/Repackage.java:543-619 | After one entry: messages and files are only ever added. A directory entry changes nothing. A dropped entry changes no file and adds exactly "<reason> from <artifact>" to the deleted records, without failure. A batik or META-INF/NOTICE* entry already present is skipped without failure or change. Only the entry's own target can change. An existing target changes only for the MANIFEST, or for a service file that gets "\n" plus the new content. The MANIFEST branch is the original-MANIFEST save corrected as under Findings; as written it throws FileAlreadyExistsException there. |
| Merge.DuplicateEntryFails | src/org/argeo/build/Repackage.java:595-616 | A duplicate path that is neither a service file nor batik nor META-INF/NOTICE* fails with "File … already exists". |
| Merge.ServiceFilesAppend | src/org/argeo/build/Repackage.java:600-606 | A duplicate `META-INF/services/` file becomes the old content, "\n", then the new content, and is recorded as modified. |
| Merge.MergeEntriesEffect | src/org/argeo/build/Repackage.java:543-619 | Over a whole jar, messages and files are only added. Every new or changed file is the target of some written entry. |
| Merge.LegalFilesKeptApart | src/org/argeo/build/Repackage.java:583-594 | NOTICE, LICENSE and COPYING files go under `ARGEO-ORIGIN/<group>/<artifact>/`, never to the bundle root. A new one is copied there with the moved record "<name> in <artifact> to ARGEO-ORIGIN/<group>/<artifact>/<name>", and a second one fails with FileAlreadyExistsException. |
| Merge.DuplicateSkipped | src/org/argeo/build/Repackage.java:595-611 | A batik class or META-INF/NOTICE* file already in the bundle is skipped: no failure, and neither files nor records change. |
| Merge.MergeJar | src/org/argeo/build/Repackage.java:541-621 | The loop leaves the tree, the origin and the failure as the merge specification says, "binary content of" included, with the original-MANIFEST save corrected as under Findings. |
| BundleContent.NativePlatform | src/org/argeo/build/Repackage.java:1083-1091 | A bundle is native exactly when its directory is under `lib/`. |
| BundleContent.NativePlatformOf | src/org/argeo/build/Repackage.java:1086-1091 | `lib/<os>/<arch>/…` gives that os and arch. |
| BundleContent.JnaPlatform | src/org/argeo/build/Repackage.java:1138-1142 | For JNA, "macosx" becomes "darwin" and "x86_64" becomes "x86-64"; other names stay. |
| BundleContent.JnaPlatformIdempotent | src/org/argeo/build/Repackage.java:1138-1142 | Rewriting again, as later entries do, changes nothing. |
| BundleContent.SkipReason | src/org/argeo/build/Repackage.java:1098-1126 | Embedded sources are always skipped. A do-not-modify bundle skips nothing else. |
| BundleContent.UnpackSkipped | src/org/argeo/build/Repackage.java:1098-1126 | A skipped entry only adds its deleted message. |
| BundleContent.UnpackNeverOverwrites | src/org/argeo/build/Repackage.java:1127-1129 | An entry whose target exists fails with FileAlreadyExists and changes nothing. |
| BundleContent.NativeLibraryHoisted | src/org/argeo/build/Repackage.java:1131-1161 | A native library is removed from the bundle and recorded as deleted. It is copied to the category directory when it is hoisted, JNA hoisting only its own platform.  Every other file is left as it was. |
| BundleContent.HoistedFiles | src/org/argeo/build/Repackage.java:1150-1158 | Copying then deleting removes only the target, adds or replaces only the copy, and the copy gets the target's content. |
| BundleContent.JnaHoisting | src/org/argeo/build/Repackage.java:1138-1146 | A JNA library is hoisted to the category directory exactly when its directory is `<os>-<arch>` of the rewritten platform. |
| BundleContent.PlainEntryCopied | src/org/argeo/build/Repackage.java:1127-1129 | Any other entry is copied to the same path under the bundle directory. |
| BundleContent.UnpackEntryFrame | src/org/argeo/build/Repackage.java:1095-1163 | An entry changes only its own target or its hoisted copy, removes no file and keeps every message. |
| BundleContent.DoNotModifyKeepsEntries | src/org/argeo/build/Repackage.java:1098-1122 | In a do-not-modify bundle every entry but embedded sources is copied as it is: signatures, module-info and Maven metadata included. |
| BundleContent.UnpackEntriesKeepsMessages | src/org/argeo/build/Repackage.java:1095-1163 | Over a whole jar, the change sets only grow and no file already there disappears. |
| BundleContent.UnpackJar | src/org/argeo/build/Repackage.java:1094-1163 | The loop leaves the tree, the origin and the failure as the unpack specification says. |
| BundleContent.UnpackJarEntry | src/org/argeo/build/Repackage.java:1096-1162 | One turn of the loop changes the tree and the A2Origin exactly as UnpackEntry says, and fails exactly when it does. It keeps the JNA os and arch rewrite for the following entries. |
| BundleContent.HoistLibrary | src/org/argeo/build/Repackage.java:1135-1160 | The library is copied to HoistTarget, if anywhere, then deleted from the bundle. After the JNA rewrite of os and arch, the hoisted path is the one of the bundle's own platform. |
| BundleContent.HoistTargetJna | src/org/argeo/build/Repackage.java:1138-1146 | For JNA, once os and arch are rewritten, the library is copied exactly when its directory is named os-arch, and it is flattened into the category directory. |
| Sources.SeparateSourceDir | src/org/argeo/build/Repackage.java:793-794 | Separate sources go to the sibling `<bundleDir>.src`, others to `OSGI-OPT/src` inside the bundle. |
| Sources.MergingMessage | src/org/argeo/build/Repackage.java:797-799 | The message suffix is empty exactly when no artifact is being merged. |
| Sources.CopyIfAbsent | src/org/argeo/build/Repackage.java:830-835 | An existing target is kept as it is, and a missing one is created. |
| Sources.SourceManifestDropped | src/org/argeo/build/Repackage.java:807-810 | The MANIFEST of a sources jar is never imported, in any mode, and is recorded as deleted. |
| Sources.UnmodifiedSourcesCopied | src/org/argeo/build/Repackage.java:811-835 | Unmodified sources are copied as they are (first copy wins). |
| Sources.AbsoluteEntryDropped | src/org/argeo/build/Repackage.java:821-824 | An absolute entry without META-INF is dropped and recorded as deleted. |
| Sources.RelocatedEntryLostAsWritten | src/org/argeo/build/Repackage.java:816-826 | As written, an absolute META-INF entry is recorded as moved but never reaches the tree. |
| Sources.RelocationCounterexample | src/org/argeo/build/Repackage.java:816-826 | For "/x/META-INF/…", the as-written loop leaves the tree unchanged while the intended one writes `META-INF/…`. |
| Sources.RelocatedEntryCopied | src/org/argeo/build/Repackage.java:816-820 | The intended behaviour: the entry is copied to its META-INF-relative path and recorded as moved. |
| Sources.SourcesKeepExisting | src/org/argeo/build/Repackage.java:828-835 | Sources never overwrite a file, and messages only accumulate. |
| Sources.SourcesStayInSourceDir | src/org/argeo/build/Repackage.java:803-836 | Modifiable sources only ever create files under the source directory. |
| Sources.SourceChanges | src/org/argeo/build/Repackage.java:838-844 | Sources inside the bundle add "source code under OSGI-OPT/src", so the ledger is never empty. |
| Sources.ImportSourceJar | src/org/argeo/build/Repackage.java:791-845 | The tree ends as the entry loop leaves it, with the META-INF relocation corrected as under Findings, plus the ledger appended in the right directory. |
| Sources.ImportSourceEntry | src/org/argeo/build/Repackage.java:803-835 | One entry of the loop: the tree and the A2Origin change exactly as the entry step of the specification (SourceEntry) says, with the META-INF relocation corrected as under Findings. |
| Sources.EclipseSourceEntry | src/org/argeo/build/Repackage.java:991-999 | A failure is always FileAlreadyExists on the entry's target. Directory and META-INF entries leave the files as they are. |
| Sources.EclipseSourcesCopied | src/org/argeo/build/Repackage.java:990-1000 | Existing files are kept. Without failure, every non-META-INF file entry is in the tree. |
| Sources.CopyEclipseSources | src/org/argeo/build/Repackage.java:989-1012 | The loop's tree and failure are those of the specification, with I/O errors rethrown as IllegalStateException and nothing written after one. With separate sources nothing more is written. Otherwise the changes text of the single added "source code under OSGI-OPT/src" is appended to `<bundleDir>/ARGEO-ORIGIN/changes`. |
| Sources.SourceManifest | src/org/argeo/build/Repackage.java:1449-1457 | The source headers are built exactly when there is a symbolic name whose first ';'-part is non-empty, and they form a valid manifest. |
| Sources.SourceManifestHeaders | src/org/argeo/build/Repackage.java:1449-1457 | Manifest-Version 1.0, symbolic name without directives plus ".src", the bundle's version, and `Eclipse-SourceBundle: name;version="v"`. |
| Sources.SourceNameWithoutDirectives | src/org/argeo/build/Repackage.java:1449-1451 | Directives after the symbolic name are left out of the source bundle's name. |
| Sources.ParseSourceBundle | src/org/argeo/build/Repackage.java:979-983 | A successful parse gives a name without ';' and a version. |
| Sources.ParseSourceBundleOf | src/org/argeo/build/Repackage.java:979-983 | `name;version="v"` parses to (name, v). |
| Sources.SourceBundleRoundTrip | src/org/argeo/build/Repackage.java:1449-1457 | Parsing the header that createSourceJar writes gives back its name and version. |
| Sources.EclipseSourceBundleDir | src/org/argeo/build/Repackage.java:979-984 | A bundle directory is found only when the header parses and its version has a branch. |
| Sources.EclipseSourceBundleDirOf | src/org/argeo/build/Repackage.java:979-984 | The directory is `<targetBase>/<name>.<branch>`. |
| Sources.SourceJarFindsItsBundle | src/org/argeo/build/Repackage.java:1456-1457 | A source jar written for a bundle leads back to that bundle's directory. |
| Descriptors.M2Version | src/org/argeo/build/Repackage.java:421-429 | A missing M2 entry is ignored. An entry not starting with ':' fails with "Only the M2 version can be specified". Otherwise the version is what follows the ':'. |
| Descriptors.M2VersionOf | src/org/argeo/build/Repackage.java:426-429 | ":v" gives version v. |
| Descriptors.FileStem | src/org/argeo/build/Repackage.java:465-467 | The default symbolic name is the file name without ".bnd". |
| Descriptors.LayeredPrecedence | src/org/argeo/build/Repackage.java:449-461 | The file wins over the common descriptor key by key, except for Argeo-Origin-M2. |
| Descriptors.LayerProperties | src/org/argeo/build/Repackage.java:449-461 | The loop gives the layered properties. |
| Descriptors.ComponentDescriptor | src/org/argeo/build/Repackage.java:435-468 | Succeeds exactly when the file has M2 coordinates with two parts. The artifact gets a version, the full coordinates are recorded, and the symbolic name is the file's, then the common one, then the file stem. Every other key is layered. |
| Descriptors.ComponentTakesCommonVersion | src/org/argeo/build/Repackage.java:439-462 | "group:artifact" gets the common version and records "group:artifact:version". |
| Descriptors.ComponentKeepsOwnVersion | src/org/argeo/build/Repackage.java:439-445 | "group:artifact:version" keeps its own version over the common one, and records exactly those coordinates. |
| Descriptors.SplitJoin | src/org/argeo/build/Repackage.java:530-539 | Splitting a join gives the strings back (no separator inside, last non-empty). |
| Descriptors.MergedEntry | src/org/argeo/build/Repackage.java:533-538 | An entry is skipped exactly when it is blank once trimmed, and an artifact read from it always has a version. |
| Descriptors.MergedArtifactsVersioned | src/org/argeo/build/Repackage.java:531-538 | Blank entries are skipped, so there are never more artifacts than entries, and every artifact ends with a version. |
| Descriptors.PrintedCoordinates | src/org/argeo/build/Repackage.java:533-536 | Printed coordinates are trimmed, comma-free and parse back to the artifact. |
| Descriptors.MergedArtifactsOf | src/org/argeo/build/Repackage.java:531-538 | A printed list of artifacts is read back, each with its own version or the merge version. |
| Descriptors.PrintedListSplits | src/org/argeo/build/Repackage.java:530-531 | A comma-joined list of printable coordinates splits back into the same coordinates. |
| Descriptors.MergedArtifactsHead | src/org/argeo/build/Repackage.java:531-537 | A non-blank first entry parses to the first artifact, given the default version, ahead of the rest. |
| Descriptors.MergeDescriptorChecks | src/org/argeo/build/Repackage.java:507-524 | The checks come in source order: ignored without M2, the ':' check, Argeo-Origin-M2-Merge required, then Bundle-SymbolicName required. |
| Descriptors.MergeDescriptorSucceeds | src/org/argeo/build/Repackage.java:507-539 | Each step of a successful merge descriptor, from version to artifacts. |
| Descriptors.MergePlanOf | src/org/argeo/build/Repackage.java:495-539 | A well-formed merge descriptor gives version major.minor, bundle `bsn.major.minor`, the listed artifacts with default versions, and their description. |
| Descriptors.BndProperties | src/org/argeo/build/Repackage.java:703-715 | Symbolic name, version and Export-Package are defaulted only when absent, and the file's own keys are kept. It fails when no version can be found. |
| Descriptors.KeptComputed | src/org/argeo/build/Repackage.java:724-739 | A computed header is kept, with its value, exactly when it is not BND bookkeeping or the obsolete Require-Capability. |
| Descriptors.ComputedHeadersKept | src/org/argeo/build/Repackage.java:724-739 | Tool, Bnd-LastModified and Created-By never survive. The obsolete execution environment is dropped. Any other header survives. |
| Descriptors.FilterComputedHeaders | src/org/argeo/build/Repackage.java:650-665 | The loop gives the kept headers and records the dropped execution environment as deleted. |
| Descriptors.BndHeaders | src/org/argeo/build/Repackage.java:692-741 | With no metadata generation the file's properties are used as they are; otherwise the kept headers of what BND computes. |
| Reconcile.DetectSingleton | src/org/argeo/build/Repackage.java:1035-1044 | A bundle is a singleton exactly when some ';'-part after the first trims to `singleton:=true`. |
| Reconcile.SingletonDetected | src/org/argeo/build/Repackage.java:1038-1041 | "name;…;singleton:=true;…" is a singleton, with or without spaces. |
| Reconcile.SingletonNeedsName | src/org/argeo/build/Repackage.java:1039-1041 | The directive in the name's place does not count. |
| Reconcile.WithSingleton | src/org/argeo/build/Repackage.java:1170-1173 | Only the symbolic name changes, and it gains `;singleton:=true` when the original was a singleton. |
| Reconcile.ManifestNameVersion | src/org/argeo/build/Repackage.java:1313-1324 | No symbolic name gives null. Otherwise the name without directives and the manifest's version. |
| Reconcile.BundleNameVersion | src/org/argeo/build/Repackage.java:1048-1066 | The descriptor's name and version when it gives both. Otherwise those of the original MANIFEST, failing with IllegalStateException when it has no symbolic name. A descriptor version compared with a missing original version is a NullPointerException. When the descriptor gives a version, a result always has one. A descriptor name is always kept; an original name loses its directives. |
| Reconcile.OriginalVersionDecidesBranch | src/org/argeo/build/Repackage.java:1053-1061 | Without a descriptor symbolic name, the original version (not the descriptor's) names the bundle. |
| Reconcile.BundleDir | src/org/argeo/build/Repackage.java:1068 | A bundle directory exists exactly when the version has a branch. |
| Reconcile.SettleStep | src/org/argeo/build/Repackage.java:1177-1215 | One header: only that header changes, to the kept or new value. Overrides are recorded as modified and removed capabilities as deleted. |
| Reconcile.SettleAllValue | src/org/argeo/build/Repackage.java:1177-1216 | Each descriptor header ends as one turn settles it, and the other headers are untouched. |
| Reconcile.SettleAllRecords | src/org/argeo/build/Repackage.java:1177-1216 | Every override is recorded as modified, and every removed capability as deleted. |
| Reconcile.CleanStep | src/org/argeo/build/Repackage.java:1221-1239 | One header: pollution and the JNA Require-Bundle are removed, pollution recorded as deleted, and headers unknown to the original recorded as added. |
| Reconcile.CleanAllValue | src/org/argeo/build/Repackage.java:1219-1240 | A visited pollution header or JNA requirement is gone, and every other header is untouched. |
| Reconcile.CleanAllRecords | src/org/argeo/build/Repackage.java:1219-1240 | Visited pollution is recorded as deleted, and visited headers the original lacked as added. |
| Reconcile.FinalManifestValue | src/org/argeo/build/Repackage.java:1170-1240 | The final MANIFEST, header by header. |
| Reconcile.FinalManifestRecords | src/org/argeo/build/Repackage.java:1170-1244 | Every override of an original header is recorded as modified, and every pollution header as deleted. "MANIFEST (META-INF/MANIFEST.MF)" is always recorded as modified, and no earlier record is lost. |
| Reconcile.SingletonSurvives | src/org/argeo/build/Repackage.java:1170-1208 | A singleton's final symbolic name ends with `;singleton:=true`. |
| Reconcile.OriginalLicenseKept | src/org/argeo/build/Repackage.java:1183-1184 | An original SPDX identifier is never overridden. |
| Reconcile.MavenFirstReleaseKept | src/org/argeo/build/Repackage.java:1185-1187 | An original "v.0" is kept over the descriptor's "v". Any other original version is overridden. |
| Reconcile.NoPollutionLeft | src/org/argeo/build/Repackage.java:1226-1235 | No build-tool header survives. |
| Reconcile.OsgiCapabilitiesDropped | src/org/argeo/build/Repackage.java:1210-1215 | Capabilities of osgi.core and osgi.cmpn are removed. |
| Reconcile.OriginalHeadersKept | src/org/argeo/build/Repackage.java:1219-1239 | Original headers the descriptor does not mention pass through unless they are pollution. |
| Reconcile.SettleHeader | src/org/argeo/build/Repackage.java:1178-1215 | One turn in place equals the specification's turn. |
| Reconcile.CleanHeader | src/org/argeo/build/Repackage.java:1221-1239 | One turn in place equals the specification's turn. |
| Reconcile.SettleHeaders | src/org/argeo/build/Repackage.java:1177-1216 | The loop in place equals the specification over the descriptor's header order. |
| Reconcile.CleanHeaders | src/org/argeo/build/Repackage.java:1219-1240 | The loop in place equals the specification over the headers present at its start. |
| Reconcile.ReconcileManifest | src/org/argeo/build/Repackage.java:1170-1244 | Singleton, precedence, de-pollution and the MANIFEST record, done in place, equal the final-manifest specification. |
| Licensing.FirstOptionOf | src/org/argeo/build/Repackage.java:1260-1263 | Of "a OR b" only the trimmed a is kept. |
| Licensing.FirstOptionSingle | src/org/argeo/build/Repackage.java:1261-1263 | An identifier with a single option is kept as it is. |
| Licensing.ApplyForcedMatch | src/org/argeo/build/Repackage.java:1266-1279 | With a prefix-free table, a matching directory gets its family's license. |
| Licensing.ApplyForcedNoMatch | src/org/argeo/build/Repackage.java:1266-1279 | With no matching prefix the identifier is kept. |
| Licensing.ForceLicense | src/org/argeo/build/Repackage.java:1268-1279 | The successive prefix tests give the table's answer. |
| Licensing.ForcedLicensesPrefixFree | src/org/argeo/build/Repackage.java:1268-1279 | The six forced families are disjoint, so their order does not matter. |
| Licensing.ForcedFamilyLicense | src/org/argeo/build/Repackage.java:1260-1279 | A bundle of a forced family gets that family's license, whatever its MANIFEST said. |
| Licensing.OwnLicenseKept | src/org/argeo/build/Repackage.java:1260-1279 | Any other bundle keeps the first option of its own license. |
| Licensing.LicenseRegistry.ProcessLicense | src/org/argeo/build/Repackage.java:1253-1286 | A missing identifier leaves the MANIFEST and the ledger unchanged. Otherwise the normalised identifier is written back, and `<category>/<dir>` is added to that identifier's set in the ledger. |
| Licensing.LicenseNotice | src/org/argeo/build/Repackage.java:1497-1521 | A missing identifier fails with IllegalStateException, and nothing else does. |
| Licensing.SpdxLinksOfException | src/org/argeo/build/Repackage.java:1505-1510 | "l WITH e" links to l and to e. |
| Licensing.ExceptionLinks | src/org/argeo/build/Repackage.java:1504-1510 | The notice for "l WITH e" gives the two spdx.org links. |
| Licensing.PlainLicenseLink | src/org/argeo/build/Repackage.java:1511-1513 | A plain standard identifier gets its one spdx.org link. |
| Licensing.LicenseRefLink | src/org/argeo/build/Repackage.java:1514-1521 | A LicenseRef gets the Bundle-License URL when there is one, and no link otherwise. |
| Provenance.SortedMessages | src/org/argeo/build/Repackage.java:1562-1565 | Lists a message set in increasing order, as a TreeSet iterates. |
| Provenance.SortedListingUnique | src/org/argeo/build/Repackage.java:1562-1565 | There is only one such listing, so the output does not depend on insertion order. |
| Provenance.ChangeLines | src/org/argeo/build/Repackage.java:1574-1581 | One `- <Verb> <message>.` line per message, in listing order. |
| Provenance.ChangesLineCount | src/org/argeo/build/Repackage.java:1569-1581 | The file gets one line per message, and nothing exactly when all four sets are empty. |
| Provenance.AddedBeforeDeleted | src/org/argeo/build/Repackage.java:1574-1581 | Every Added line comes before every Deleted line. |
| Provenance.WriteLines | src/org/argeo/build/Repackage.java:1574-1575 | The loop appends the lines of one set after those already written. |
| Provenance.A2Origin.AppendChanges | src/org/argeo/build/Repackage.java:1568-1583 | Nothing is written for an empty origin. Otherwise the changes text is appended to `<base>/ARGEO-ORIGIN/changes`, created when absent, and nothing else changes. |
| CommandLine.CommandLineOf | src/org/argeo/build/Make.java:322-341 | Zero arguments fail. A second argument not starting with '-' fails. Otherwise the action is the first argument. |
| CommandLine.ParseFromValues | src/org/argeo/build/Make.java:330-341 | An option is a key exactly when it occurs. Its values are the plain arguments after each of its occurrences, in order. |
| CommandLine.OptionValues | src/org/argeo/build/Make.java:330-341 | The same for the whole command line. |
| CommandLine.ValuesOfOccurrence | src/org/argeo/build/Make.java:333-340 | At an occurrence of the option, the plain arguments up to the next option are its values, before those of later occurrences. |
| CommandLine.RepeatedOption | src/org/argeo/build/Make.java:333-340 | A repeated option is created once and collects the values after both occurrences. |
| CommandLine.ParseCommandLine | src/org/argeo/build/Make.java:322-341 | The loop gives the specification's result. |
| SdkMk.Tokens | src/org/argeo/build/Make.java:72 | Every token is a non-empty run of characters other than space, ':' and '='. |
| SdkMk.AssignmentTokens | src/org/argeo/build/Make.java:72-78 | "KEY := value", "KEY=value", "KEY: value" all give the tokens [KEY, value]. |
| SdkMk.Assignment | src/org/argeo/build/Make.java:73-79 | A line sets a key exactly when it has at least two tokens. |
| SdkMk.ContextLastWins | src/org/argeo/build/Make.java:69-80 | A key is in the context exactly when some line sets it, with the value of the last such line. |
| SdkMk.ReadContext | src/org/argeo/build/Make.java:69-80 | The loop gives the context specification. |
| SdkMk.Required | src/org/argeo/build/Make.java:82-89 | A missing key fails with IllegalStateException "<key> not found". |
| SdkMk.FindSdkMk | src/org/argeo/build/Make.java:308-317 | A found sdk.mk exists. |
| SdkMk.NotFoundAnywhere | src/org/argeo/build/Make.java:308-317 | When none is found, no ancestor has one. |
| SdkMk.FoundSomewhere | src/org/argeo/build/Make.java:308-317 | When an ancestor has one, one is found. |
| SdkMk.FindSdkMkNearest | src/org/argeo/build/Make.java:308-317 | The one found belongs to the nearest ancestor having one. |
| Make.SdkMkLines | src/org/argeo/build/Make.java:66-70 | sdk.mk is read exactly when one is found. |
| Make.NewLayout | src/org/argeo/build/Make.java:64-92 | No sdk.mk fails with "No sdk.mk found under …". Then SDK_SRC_BASE, then SDK_BUILD_BASE must be set. Both bases are made absolute. |
| Make.LayoutFromSdkMk | src/org/argeo/build/Make.java:69-91 | The bases are the last values set. The build base is `<build>/<name of src>`, and the a2 output is `<build>/a2`. |
| Make.ActionOf | src/org/argeo/build/Make.java:344-350 | compile, bundle and all are accepted. Anything else fails with "Unkown action: …". |
| Make.CompileBundles | src/org/argeo/build/Make.java:106-109 | compile needs --bundles. |
| Make.BundleArguments | src/org/argeo/build/Make.java:160-171 | The intended checks: --bundles required; empty means nothing to do; --category required; exactly one category. |
| Make.BundleArgumentsAsWritten | src/org/argeo/build/Make.java:160-171 | The checks as written: a missing --bundles fails with NullPointerException "--bundles argument must be set". |
| Make.MissingCategoryAsWritten | src/org/argeo/build/Make.java:167-170 | As written, bundles without a category end in a NullPointerException on the null list. |
| Make.BundleArgumentsAgree | src/org/argeo/build/Make.java:162-171 | The written and intended checks differ only when the category is missing. |
| Make.BundleProperties | src/org/argeo/build/Make.java:186-205 | argeo.bnd, cnf/unstable.bnd and the bundle's bnd.bnd must exist, checked in that order. The symbolic name is the bundle directory's name. |
| Make.BundlePropertiesPrecedence | src/org/argeo/build/Make.java:188-205 | For every other key: the bundle's bnd.bnd, then the branch descriptor, then argeo.bnd. |
| Make.JarPath | src/org/argeo/build/Make.java:221-244 | MAJOR, then MINOR, must be set. |
| Make.JarPathParts | src/org/argeo/build/Make.java:241-244 | The jar is `<compiled name>.MAJOR.MINOR.jar` in the jar directory. |
| Make.JarPathTopLevel | src/org/argeo/build/Make.java:241-244 | A top-level bundle goes to `<a2>/<category>/name.MAJOR.MINOR.jar`. |
| Make.JarPathInGroup | src/org/argeo/build/Make.java:241-244 | A bundle at group/name goes to `<a2>/group/<category>/name.MAJOR.MINOR.jar`. |
| Make.CollectEach | src/org/argeo/build/Make.java:174-175 | The loop succeeds exactly when every bundle does, and otherwise fails with the first failure. |
| Make.CreateBundle | src/org/argeo/build/Make.java:182-244 | One bundle's checks and jar path. |
| Make.CreateBundles | src/org/argeo/build/Make.java:174-175 | The bundle loop gives the collected results. |
| Make.BundleAction | src/org/argeo/build/Make.java:160-176 | The checks, then nothing for an empty list, then the jars of the bundles, with the --category check corrected as under Findings; as written a missing --category ends in a NullPointerException on the null list. |
| Make.ActionJars | src/org/argeo/build/Make.java:97-109 | compile writes no jar and fails only without --bundles. all fails the same way without --bundles, and otherwise writes exactly the jars of bundle (whose --category check is corrected as under Findings). |
| Make.Run | src/org/argeo/build/Make.java:320-350 | A run writes jars only when the command line, sdk.mk and the action name all check out, and then writes the jars of that action. |
| Make.RunChecksInOrder | src/org/argeo/build/Make.java:320-350 | Command line, then sdk.mk, then the action name are checked, in that order. |
| Make.EmptyBundlesDoNothing | src/org/argeo/build/Make.java:160-165 | "bundle --bundles" writes nothing. |
| Progress.ChunkInRange | src/org/argeo/build/Make.java:371 | With 0 ≤ remaining ≤ total, the chunk lies in [0, 80]. |
| Progress.ChunkFull | src/org/argeo/build/Make.java:371 | The chunk is 80 exactly when nothing remains. |
| Progress.ChunkMonotone | src/org/argeo/build/Make.java:371 | Less remaining work never gives fewer chunks. |
| Progress.BarShape | src/org/argeo/build/Make.java:374-380 | The bar is `chunk` '#', then '-' up to 80, then '\r'. |
| Progress.CompilationProgress.constructor | src/org/argeo/build/Make.java:363-367 | Starts with no work, chunk 0 and nothing printed. |
| Progress.CompilationProgress.Begin | src/org/argeo/build/Make.java:400-402 | The total work is the announced remaining work. |
| Progress.CompilationProgress.Worked | src/org/argeo/build/Make.java:370-384 | Zero total work fails with "/ by zero". Otherwise the bar is printed only when the chunk changes, and "\n" when nothing remains. |
| Progress.CompilationProgress.DrawBar | src/org/argeo/build/Make.java:374-380 | The two loops print exactly the bar. |
| LegacyMake.NewLegacyLayout | java/org/argeo/build/Make.java:36-62 | Same checks and bases as the current snapshot, without the a2 output. |
| LegacyMake.SameLayout | java/org/argeo/build/Make.java:36-62 | Both snapshots fail alike or lay out the same directories. |
| LegacyMake.LegacyActionOf | java/org/argeo/build/Make.java:305-308 | Only "bundle" is accepted. |
| LegacyMake.LegacyBundles | java/org/argeo/build/Make.java:78-79 | --bundles is required; there is no emptiness check. |
| LegacyMake.LegacyBundleJar | java/org/argeo/build/Make.java:82-91 | The descriptors must exist, and the jar is `buildBase/<last segment>.jar`. |
| LegacyMake.LegacyJarPlacement | java/org/argeo/build/Make.java:85-90 | The jar of a bundle under a group lies directly in the build base, named after its last component. |
| LegacyMake.LegacyJarTopLevel | java/org/argeo/build/Make.java:85-90 | The jar of a top-level bundle lies directly in the build base as well, named after the bundle. |
| LegacyMake.LegacyJarsCollide | java/org/argeo/build/Make.java:85-90 | Two bundles of the same name in different groups get the same jar. |
| LegacyMake.LegacyCreateBundle | java/org/argeo/build/Make.java:147-165 | One bundle's descriptor checks and jar. |
| LegacyMake.LegacyCreateBundles | java/org/argeo/build/Make.java:82-92 | The loop gives the collected results. |
| LegacyMake.LegacyBundle | java/org/argeo/build/Make.java:69-94 | The --bundles check, then the loop. |
| LegacyMake.LegacyBundleJars | java/org/argeo/build/Make.java:69-94 | Without --bundles the action fails with the NullPointerException, and otherwise its jars are the collected results of every listed bundle. |
| LegacyMake.LegacyRun | java/org/argeo/build/Make.java:282-310 | A run writes jars only when the command line and sdk.mk check out, the action is "bundle" and --bundles is given; the jars are then those of the bundle action. |
| LegacyMake.LegacyRefusesNewActions | java/org/argeo/build/Make.java:282-310 | compile and all are refused as unknown actions. |

## Left out

- Network access: a fetch succeeds exactly when its URI is in the `network` set. The bytes fetched are not modelled; a fetched file is empty in the cache set.
- `synchronized download`, the `CompletableFuture` fan-out and any concurrency: everything is sequential.
- BND's `Analyzer.calcManifest`: the headers it computes are an input (a function from properties to attributes).
- The ECJ compiler, the compile class path and `System.exit(1)` after a failed compilation: `compile` is modelled only by its `--bundles` check.
- Jar and manifest serialisation (`JarOutputStream`, `Manifest.write`, compression levels): `createJar`, the jar contents of `createBundle` and the exclusion globs are not modelled; only the jar paths are.
- The `createSourceJar` directory walk: only its headers are modelled.
- `processCategory`, `processSingleM2ArtifactDistributionUnit`, `processEclipseArchive` and its include/exclude globs, `processNotModified`, `cleanPreviousFailedBuild`, `deleteDirectory` and the additional service files of a merge (628-640): these are directory walks and file plumbing around the modelled pieces.
- The wording of `createReadMe`: only the SPDX line and the license links are modelled.
- Logging, `System.getenv`/`getProperty` and the "Completed after" message: side effects with no decision in them. The current directory and the home directory are parameters.
- Path normalisation: paths are strings joined with '/'. An absolute name replaces the directory, and the root directory is written "". `Path.startsWith` for native bundles is a string prefix test on whole components.
- Manifest header names are compared case-sensitively; `java.util.jar.Attributes` compares them case-insensitively.
- `Origins.Downloader.Download`: a URI whose path fails `new URI` parsing is not modelled; every URI string is taken as well formed.
- The entry order of archives is whatever the sequence gives; the order in which `Properties` or `HashMap` iterate is an input where it matters (`Reconcile.SettleHeaders` takes the descriptor's header order).
- `Progress.CompilationProgress.Worked`: `currentChunk` is a `long` in the source; the chunk never leaves [0, 80] for the inputs ECJ gives, so it is an unbounded int.
- MergeEntry, MergeEntryEffect and MergeJar: they run the original-MANIFEST save corrected as under Findings (`SaveOriginalManifest`). The source as written throws FileAlreadyExistsException there; `OriginalManifestNeverSaved` states that behaviour.
- BundleAction, ActionJars and Run: they use the corrected bundle checks (`BundleArguments`). The source as written dereferences the null category list when --category is missing; `BundleArgumentsAsWritten` and `MissingCategoryAsWritten` state that behaviour.
- UriPath: this is not `URI.getPath` in full. Percent-escapes are not decoded, so "https://h/a%20b.zip" gives "/a%20b.zip" where Java gives "/a b.zip". An opaque or scheme-only URI keeps its scheme text, so "file:/y.zip" gives the cache name "file:-y.zip" where Java gives "-y.zip". `UriPathOf` states the function only for "scheme://host/path" without escapes.
- Download: the cache name it derives goes through `UriPath`, so it inherits the two differences above.
- SortedMessages: messages are ordered by `LexLess`, that is by Unicode scalar value. A `TreeSet<String>` orders by UTF-16 code unit, and the two orders differ only when a message holds a character above U+FFFF compared against one in U+E000..U+FFFF.
- LexLess: the same scalar-value order, used only to list messages.
- The forced `Automatic-Module-Name` header (src/org/argeo/build/Repackage.java:1079-1080) and the "original MANIFEST to …" moved record and file of a bundle with a manifest (src/org/argeo/build/Repackage.java:1070-1077) are not modelled: the model's bundle headers carry no `Automatic-Module-Name`, and its records of a repackaged jar have no such moved entry.
- MergedArtifacts: the merge list is parsed in full before any artifact is merged (`MergePlanOf`). The source parses, downloads and merges one coordinate at a time. So with "g:a:1,broken" the source leaves g:a:1 merged in the tree when it fails on "broken", while the model fails with nothing merged.
- `Identity.Branch`: the failure message "Version … cannot be interpreted as branch." is kept, but a null version is an NPE without its JVM message.

## Findings

| source | as written | input that shows it | evidently intended | confidence | as-written member | corrected member |
|---|---|---|---|---|---|---|
| src/org/argeo/build/Repackage.java:575-576 | `Files.newOutputStream` creates the original-MANIFEST file, then `Files.copy` without REPLACE_EXISTING copies into it, which throws FileAlreadyExistsException | a merged jar whose `META-INF/MANIFEST.MF` is not its leading entry, so that `getNextJarEntry` returns it | the original MANIFEST saved under `ARGEO-ORIGIN/<group>/<artifact>/MANIFEST.MF` | high, not executed | Merge.OriginalManifestNeverSaved | Merge.SaveOriginalManifest |
| src/org/argeo/build/Repackage.java:816-826 | an absolute entry holding META-INF gets its relative path and a "moved" record, then `continue entries` skips the copy | entry `/x/META-INF/NOTICE` in a Maven sources jar that may be modified | the entry copied to `<sourceDir>/META-INF/NOTICE`, as the moved record says | medium, not executed | Sources.RelocationCounterexample | Sources.RelocatedEntryCopied |
| src/org/argeo/build/Make.java:167-170 | the second null check tests `bundles` again, so a missing `--category` ends in `categories.size()` on null | `bundle --bundles a` with no `--category` | a NullPointerException "--category argument must be set" | high, not executed | Make.MissingCategoryAsWritten | Make.BundleArguments |
