# noir-libs, modelled in Dafny

noir-libs is a package manager for Noir projects. It keeps the project's
dependencies in the `[dependencies]` table of `Nargo.toml`. It downloads
package archives from a registry into a per-user cache and resolves their
dependencies recursively. It also validates and packs a library into a
`.tar.gz` for publishing, and it can publish and yank package versions.
The repository holds two generations of the code: the current crate under
`noir-libs/src/` and an older one under `src/`. Both are modelled where they
differ.

The model keeps the logic around the program's effects and treats the
effects as values:

- **The filesystem** is a tree `map<Path, Node>` whose paths are sequences of
  components (`FileSystem`, `Paths`). The in-place operations (`ensure_dir`,
  `new_dir_replace_if_exists`, `copy_all`, file creation) are methods of a
  `Disk` class. Each method is proved equal to a pure step function, and the
  properties are proved about that function.
- **A registry call** is a function of what the server answers. The answer is
  a transport error or a response with a status, its reason phrase and its
  body; the body is read as bytes and as JSON (`Http`). The JSON view
  tells objects, arrays, other values and text that is not JSON apart, and
  keeps serde's description of a value of the wrong type. The server is a
  total function from requests to answers, so "no request is sent" can be
  stated as "the result does not depend on the server".
- **A TOML document** is an ordered association list of keys and values
  (`Manifest`). Tables are sections or inline tables, as `toml_edit`
  distinguishes them. A value is a string, a table, an array or another
  scalar.
- **Extracting an archive** is a parameter `unpack: seq<bv8> -> Option<Archive>`.
  An archive is reduced to the manifest it carries, if any. Packing a folder
  is a parameter `pack: (Tree, Path) -> seq<bv8>` that sees the tree at the
  moment it runs.
- **The resolver** (`Resolver`) keeps its state in a `PackageCache` class: the
  file tree, the package directories extracted so far, and the URLs
  requested in order. `store_package` recurses depth-first over the
  dependencies listed in each archive's manifest. The source has no visited
  set, so the model asks for a rank on `(name, version)` that every
  dependency edge decreases (`Acyclic`), and it adds no cycle check.
- **Package versions** follow Semantic Versioning 2.0.0 (sections 2, 9 and 10
  of semver.org), as a recogniser `SemVer.IsSemVer`.
- **HTTP status classes** follow RFC 9110: section 15.3 (2xx Successful) and
  section 15.5 (4xx Client Error).

Modules: `Wrappers` (Option/Result), `Text` (split/join/trim), `Paths`,
`FileSystem`, `Http`, `SemVer`, `Manifest`, `PackagePaths` (noir-libs/src/path.rs
and src/path.rs), `Registry` (noir-libs/src/api/), `Network`
(noir-libs/src/network.rs), `Cli` (the `name@version` split of
noir-libs/src/main.rs), `Packaging` (validation and layout of the two
`package` commands) and `Resolver`
(`add`, `store_package`, `get_to_cache`, `get_used_version`, `fetch`, old
and new).

Where the two generations differ, the older member carries the prefix
`Legacy`. Where a call does not match the definition it names, so that the
code as written does not compile, the model departs from the call:

- In the current `add`, `write_package_dep` receives the working directory,
  while the current `write_package_dep` expects the manifest path.
  `Resolver.Add` departs from this call: it locates the manifest by the
  nearest-ancestor search first, which is what the older code did, and hands
  the manifest path to `write_package_dep`.
- `fetch` calls a four-argument `store_package` and a one-argument
  `prepare_cache_dir`, which noir-libs/src/ops/add.rs and
  noir-libs/src/filesystem.rs do not define. The model uses
  the traversal of `add` with the `fetch_yanked` flag passed on, and it
  downloads from the `api.rs` URL. `DownloadUrl(n, v, false)` is the
  `path.rs` URL (`Registry.DownloadUrlFlag`). The cache directory derived
  from the manifest folder is a parameter.

Where the calls match but the effect is not what the surrounding code
expects, the model follows the code as written:

- The older `write_package_dep` indexes a missing `dependencies` key, which
  `toml_edit` creates as an inline table. The older `get_dependencies` reads
  only a `[dependencies]` section, so it does not see that entry
  (`Manifest.LegacyInsertIsNotRead`).
- `copy_all` registers three `filter_entry` filters on one `WalkBuilder`,
  which keeps a single filter, so only the last one (the ignored folders)
  prunes the walk. `FileSystem.CopyStepAsWritten` models that walk, and
  "## Findings" has the row. The rest of the model copies with all three
  filters, which is what the comments in `copy_all` describe. At both
  `package` call sites the difference is limited to `.env` files
  (`Packaging.PackageCopyAsWrittenAgrees`), since the model's walk yields
  hidden files (see "## Left out").

## Model

| member | source | states |
|---|---|---|
| Cli.SplitNoAt | noir-libs/src/main.rs:166-188 | an argument without '@' is all name with version "latest"; the validating split refuses it with the format message |
| Cli.SplitOneAt | noir-libs/src/main.rs:167-170 | with exactly one '@' the name is the text before it and the version the text after it |
| Cli.SplitManyAts | noir-libs/src/main.rs:168-186 | with two or more '@' the plain split falls back to "latest" and the validating split refuses the argument |
| Cli.SplitNameIsBeforeFirstAt | noir-libs/src/main.rs:167-173 | the name is always the text before the first '@' |
| Cli.ValidatedSplitSpec | noir-libs/src/main.rs:176-188 | the validating split succeeds exactly for one '@' followed by a SemVer version; it then agrees with the plain split and the halves rejoined with '@' give the argument |
| Cli.ValidatedSplitNamesBadVersion | noir-libs/src/main.rs:179-182 | a well-formed argument with an invalid version is refused with a message naming that version |
| Cli.ValidatedSplitAcceptsVersion | noir-libs/src/main.rs:176-187 | a name without '@' and a SemVer version are accepted unchanged |
| Paths.JoinSegment | noir-libs/src/path.rs:29-31 | `join` with a plain component appends exactly that component |
| Paths.ComponentsOfTwo | noir-libs/src/ops/package.rs:23 | "a/b" of two plain components names the two components a and b |
| Paths.RenderComponents | noir-libs/src/ops/add.rs:58-63 | rendering a path with `to_str` and reading its components back gives the same path |
| Paths.JoinRendered | noir-libs/src/ops/package/package.rs:38-39 | a rendered path is absolute, so joining it onto any base gives the path itself |
| Text.SplitCount | noir-libs/src/main.rs:167-168 | `split('@')` yields one more piece than there are '@' characters |
| Text.LastPieceIsSuffix | noir-libs/src/manifest.rs:183-190 | the last piece of a split has no separator, ends the string, and is the whole string or follows a separator |
| Text.TrimEmpty | noir-libs/src/ops/package/name_validator.rs:8 | `trim()` leaves nothing exactly when every character is whitespace |
| Http.StatusTextStartsWithCode | noir-libs/src/network.rs:24-27 | a displayed status starts with its three digits and a space |
| Http.ErrorMessageIsServerMessage | noir-libs/src/api/network.rs:143-151 | a string `message` member reaches the user verbatim, whatever else the JSON object holds |
| Http.ErrorMessageFallback | noir-libs/src/api/network.rs:143-151 | without a string `message` member the text is "Unknown error" |
| FileSystem.CreateFileSpec | noir-libs/src/network.rs:30-31 | creating a file succeeds exactly when its parent is a directory on a file-free path and the path is not a directory; the file then holds the data and nothing else changes |
| FileSystem.CreateFileKeepsDirs | noir-libs/src/network.rs:30-31 | creating a file keeps every directory a directory |
| FileSystem.EnsureDirOnFile | noir-libs/src/filesystem.rs:40-47 | on an existing file `ensure_dir` fails with AlreadyExists and its message, and changes nothing |
| FileSystem.EnsureDirOnDir | noir-libs/src/filesystem.rs:40-52 | on an existing directory `ensure_dir` succeeds and changes nothing |
| FileSystem.EnsureDirOnAbsent | noir-libs/src/filesystem.rs:48-50 | on an absent path it succeeds exactly when no file blocks the path; every prefix is then a directory, old entries stay, and new entries are ancestors of the path |
| FileSystem.EnsureDirOnSucceeds | noir-libs/src/filesystem.rs:40-52 | creating a directory succeeds when no file lies on its path, and on success the path is a directory |
| FileSystem.EnsureDirIdempotent | src/filesystem.rs:41-53 | a second `ensure_dir` repeats the first one's result and changes nothing |
| FileSystem.NewDirReplaceSpec | noir-libs/src/filesystem.rs:54-60 | afterwards the path is an empty directory and everything outside it is unchanged; it succeeds exactly when no file blocks the path |
| FileSystem.CopyAllSkipsWalkErrors | noir-libs/src/filesystem.rs:80-86 | a walk error is skipped: the copy continues with the next entry |
| FileSystem.CopyStepFrame | noir-libs/src/filesystem.rs:92-99 | one copy step changes only the entry's target and creates entries only on the way to or under the destination |
| FileSystem.CopyAllFrame | noir-libs/src/filesystem.rs:62-103 | the whole copy keeps every existing entry that is not a target and creates entries only on the way to or under the destination |
| FileSystem.CopyAllOnlyWritesUnderDest | noir-libs/src/filesystem.rs:62-103 | nothing outside the destination changes |
| FileSystem.FilteredEntryIsSkipped | noir-libs/src/filesystem.rs:72-77 | with the three filters the comments describe, an entry that fails any of them is not copied and changes nothing |
| FileSystem.EntryInDestFails | noir-libs/src/filesystem.rs:72-73 | no entry under the destination passes the three filters |
| FileSystem.IgnoredChildNotKept | noir-libs/src/filesystem.rs:74-75 | a child of the source named like an ignored file is not yielded by the three-filter walk |
| FileSystem.ChildKeptAsWritten | noir-libs/src/filesystem.rs:71-78 | a child of the source that passes the folder filter is yielded by the walk as written |
| FileSystem.CopyEntryOfFile | noir-libs/src/filesystem.rs:97-99 | a yielded file is copied to its target when the target's parent is a directory and the target is not one |
| FileSystem.AsWrittenCopiesDestIntoItself | noir-libs/src/filesystem.rs:71-78 | as written, a destination directly inside the source is copied into itself, where the three filters skip it |
| FileSystem.AsWrittenCopiesIgnoredFile | noir-libs/src/filesystem.rs:71-78 | as written, a file named like an ignored file is copied to the destination, where the three filters skip it |
| FileSystem.KeptAsWrittenAgrees | noir-libs/src/filesystem.rs:71-78 | when the folder filter already refuses everything under the destination, the walk as written keeps exactly what the destination and folder filters keep |
| Paths.RenderContainsComponent | noir-libs/src/filesystem.rs:77 | a component followed by another appears as `/<component>/` in the path's text, the form the folder filter searches for |
| FileSystem.TargetInjective | noir-libs/src/filesystem.rs:92-93 | two source entries never map to the same destination path |
| FileSystem.CopyAllCopiesFiles | noir-libs/src/filesystem.rs:92-99 | after a successful copy, every kept file sits at `dest` joined with its path relative to `src`, with its contents |
| FileSystem.CopyAllCreatesDirs | noir-libs/src/filesystem.rs:92-96 | after a successful copy, every kept directory, an empty one included, exists as a directory at `dest` joined with its path relative to `src` |
| FileSystem.Disk.EnsureDir | noir-libs/src/filesystem.rs:40-52 | the method's result and new tree are those of the `ensure_dir` step |
| FileSystem.Disk.PrepareCacheDir | src/filesystem.rs:13-17 | returns the cache directory, which afterwards exists as a directory |
| FileSystem.Disk.NewDirReplaceIfExists | noir-libs/src/filesystem.rs:54-60 | the method's result and new tree are those of the replace step |
| FileSystem.Disk.CopyAll | noir-libs/src/filesystem.rs:62-103 | the loop over the walk leaves the result and tree of the copy step function |
| FileSystem.Disk.WriteFile | noir-libs/src/network.rs:30-31 | succeeds exactly when the file can be created, and then holds the data; a failure changes nothing |
| Manifest.PackageTypeRoundTrip | noir-libs/src/manifest.rs:45-63 | a type's display name parses back to that type, and only its display name does |
| Manifest.LookupSpec | noir-libs/src/manifest.rs:130-133 | a key is found exactly when it is in the table, with the value stored under it |
| Manifest.PutSpec | noir-libs/src/manifest.rs:98-101 | setting a key stores the value under it, changes no other key, keeps the order, and appends a new key last |
| Manifest.RemoveSpec | noir-libs/src/manifest.rs:212-215 | removing a key drops only that key and keeps the order of the rest |
| Manifest.ExtractVersionFromPath | noir-libs/src/manifest.rs:183-190 | None exactly for ""; otherwise the text after the last '/', with no '/' in it, and the path ends with it |
| Manifest.DependencyVersionsSound | noir-libs/src/manifest.rs:130-138 | every reported (name, version) comes from an entry with a string `path` whose last segment is the version |
| Manifest.DependencyVersionsComplete | noir-libs/src/manifest.rs:130-138 | every entry with a non-empty string `path` is reported |
| Manifest.DependencyVersionsOrdered | noir-libs/src/manifest.rs:130-138 | the reported names keep table order |
| Manifest.GetDependenciesNoSection | noir-libs/src/manifest.rs:141 | without a `[dependencies]` section the result is empty |
| Manifest.InsertDependencySpec | noir-libs/src/manifest.rs:89-106 | afterwards the table maps the package to `{ path = path }`; a missing table is created as a section; other entries and other top-level keys are unchanged |
| Manifest.InsertThenGetDependencies | noir-libs/src/manifest.rs:89-142 | a written dependency is read back with the last segment of its path as the version |
| Manifest.RemoveDependencySpec | noir-libs/src/manifest.rs:202-219 | only the named key leaves the section; without a section the document is unchanged |
| Manifest.RemoveThenGetDependencies | noir-libs/src/manifest.rs:202-219 | a removed package is no longer reported, at any version |
| Manifest.RemoveKeepsOtherDependencies | src/manifest.rs:114-131 | every other reported dependency is still reported after a removal |
| Manifest.RemoveAbsentIsNoOp | noir-libs/src/manifest.rs:212-215 | removing a key that is not there leaves the document unchanged |
| Manifest.LegacyInsertIsNotRead | src/manifest.rs:27-31 | the older write into a manifest without `dependencies` creates an inline table that `get_dependencies` does not read |
| Manifest.NearestManifest | noir-libs/src/manifest.rs:153-163 | the result is the manifest of the nearest ancestor (the start included) that has one, and None when no ancestor has one |
| Manifest.TryFindManifest | src/manifest.rs:83-93 | the upward loop finds exactly the nearest manifest |
| Manifest.ReadManifest | noir-libs/src/manifest.rs:65-71 | fails when the folder has no manifest, and succeeds exactly when the manifest decodes |
| Manifest.DecodePackageRejectsNonString | noir-libs/src/manifest.rs:17-29 | a string field of `[package]` holding anything but a string makes the manifest fail to decode |
| Manifest.DecodePackageRejectsNonList | noir-libs/src/manifest.rs:17-29 | `authors` or `keywords` holding anything but an array of strings makes the manifest fail to decode |
| Manifest.DecodePackageAuthorsExample | noir-libs/src/manifest.rs:22 | `authors = "me"` fails to decode, `authors = ["me"]` decodes |
| Manifest.WriteSpec | noir-libs/src/manifest.rs:89-106 | panics ("Cannot read Nargo.toml manifest file") exactly when the path is not a manifest, and ("index not found") when `dependencies` cannot be indexed, writing nothing; otherwise rewrites only that manifest, which then maps the package to `{ path = path }` and keeps its other entries |
| Manifest.LegacyWriteSpec | src/manifest.rs:22-36 | panics ("Unable to find manifest") exactly when no manifest is found upwards, and ("index not found") when `dependencies` cannot be indexed, writing nothing; otherwise rewrites only the nearest manifest, which then maps the package to `{ path = path }` and keeps its other entries |
| Manifest.LegacyInsertDependencySpec | src/manifest.rs:27-31 | after the older insertion the table maps the package to `{ path = path }` and keeps every other entry |
| Manifest.ManifestFiles.WritePackageDep | noir-libs/src/manifest.rs:89-106 | the result and the manifests are those of the write function, panic included |
| Manifest.ManifestFiles.LegacyWritePackageDep | src/manifest.rs:22-36 | the result and the manifests are those of the older write function, panics included |
| Manifest.ManifestFiles.RemovePackage | noir-libs/src/manifest.rs:202-219 | rewrites the nearest manifest with the dependency removed |
| Network.DownloadSpec | noir-libs/src/network.rs:18-34 | succeeds exactly on a 2xx answer whose body can be written; the output then holds the body and nothing else changes; a non-2xx status is reported with its code and writes nothing; a transport error is returned unchanged |
| Network.DownloadCreatesFile | noir-libs/src/network.rs:29-33 | any 2xx status into an existing directory writes the body as a new file |
| Network.Download | noir-libs/src/api/network.rs:24-40 | the method's result and new tree are those of the download step |
| Network.GetLatestVersionSpec | noir-libs/src/network.rs:50-73 | succeeds exactly on 2xx with a string `latest_version`, and returns that string |
| Network.LatestVersionFromRegistry | noir-libs/src/network.rs:55-62 | a 2xx answer with `latest_version: v` yields v |
| Network.LatestVersionMissingField | noir-libs/src/network.rs:59-61 | a 2xx JSON body without a string `latest_version` is refused with "Version field not found or is not a string" |
| Network.LatestVersionFailure | noir-libs/src/network.rs:63-72 | a non-2xx status yields the registry's `message`, or "Unknown error" |
| PackagePaths.PackageDirComponents | noir-libs/src/path.rs:29-31 | the package directory is `root/name/version`; its last two components are name and version |
| PackagePaths.PackageDirInjective | noir-libs/src/path.rs:29-31 | different (name, version) pairs get different package directories |
| PackagePaths.CacheStorageBesidePackageDir | noir-libs/src/path.rs:17-25 | the archive is one component `name-version.archive` under the cache root, and neither it nor the package directory lies inside the other |
| PackagePaths.LegacyCacheStorageComponents | src/path.rs:16-24 | the older archive file is one component `name-version` under the cache root |
| PackagePaths.PackageUrlSegments | noir-libs/src/path.rs:35-37 | the download URL is the registry URL followed by `packages`, name, version and `download` |
| PackagePaths.PackageLatestUrlSegments | noir-libs/src/path.rs:41-43 | the latest-version URL is the registry URL followed by `packages`, name and `latest` |
| PackagePaths.LegacyPackageUrlSegments | src/path.rs:34-42 | the older URL is the repository URL followed by name, version and `name-version` |
| Registry.DownloadUrlFlag | noir-libs/src/api/api.rs:25-31 | without the flag the URL is the `path.rs` download URL; with it `?fetchYanked=true` is appended, so the plain URL is a proper prefix |
| Registry.ActionsDiffer | noir-libs/src/api/api.rs:41-49 | URLs for different actions on one package version differ |
| Registry.PublishUrlSegments | noir-libs/src/api/api.rs:41-43 | the publish URL ends in `packages/name/version/publish` |
| Registry.YankUrlSegments | noir-libs/src/api/api.rs:47-49 | the yank URL ends in `packages/name/version/yank` |
| Registry.PublishUrlIsNotYankUrl | noir-libs/src/api/api.rs:41-49 | publishing and yanking never address the same URL |
| Registry.LatestVersionUrlSegments | noir-libs/src/api/api.rs:35-37 | the latest-version URL ends in `packages/name/versions/latest` |
| Registry.AuthHeaderRoundTrip | noir-libs/src/api/network.rs:139-141 | the bearer token read back from the header is the API key |
| Registry.GetLatestPackageVersionSpec | noir-libs/src/api/network.rs:42-79 | returns `v` exactly on a 2xx body carrying `v` as the string member `version` or as the one-element sequence `[v]` (serde's derived `Version`); a 2xx object without `version` gives "missing field `version`", a non-string one serde's "invalid type" text, a non-JSON body the parser's message; a non-2xx status yields the registry message; a transport error is returned |
| Registry.LatestPackageVersionExample | noir-libs/src/api/network.rs:65-68 | `{"version": "1.2.3"}` with 200 yields "1.2.3" |
| Registry.LatestPackageVersionSequence | noir-libs/src/api/network.rs:42-45 | the sequence form `["1.2.3"]` with 200 yields "1.2.3" too |
| Registry.LatestPackageVersionWrongType | noir-libs/src/api/network.rs:65-67 | `{"version": 1}` with 200 is refused with "invalid type: integer `1`, expected a string" |
| Registry.DownloadPackageApiAsksPackageUrl | noir-libs/src/api/api.rs:6-8 | the download depends only on the answer to a GET of the download URL |
| Registry.PublishMissingTarballSendsNothing | noir-libs/src/api/network.rs:97-101 | a missing tarball fails with "Packed file does not exist" whatever the server would answer |
| Registry.PublishSendsOneRequest | noir-libs/src/api/network.rs:106-121 | the result depends only on the answer to one POST carrying the file and the bearer key |
| Registry.ClassifyPublishSpec | noir-libs/src/api/network.rs:122-136 | Ok exactly on 2xx, with a message naming the package and its registry page; every failure starts "Failed to upload package"; 4xx adds the registry message and other statuses the status |
| Registry.YankOnSpec | noir-libs/src/api/network.rs:153-173 | Ok exactly on 2xx; every failure starts "Failed to yank a package"; 4xx adds the registry message |
| Registry.MissingKeyMessageNames | noir-libs/src/ops/yank.rs:10-17 | the missing-key message names the dashboard URL and the `export` command for the variable |
| Registry.YankWithoutKeySendsNothing | noir-libs/src/ops/yank.rs:7-20 | without `API_KEY` the yank fails the same way whatever the server would answer, and the message names the variable and the dashboard |
| Registry.YankPassesKey | noir-libs/src/ops/yank.rs:21 | with the key present the result is the API yank with that key, passed unchanged into the header |
| SemVer.FormatIsSemVer | noir-libs/src/ops/package/package.rs:73 | every `MAJOR.MINOR.PATCH` of natural numbers is a valid version |
| SemVer.PlainVersionIsValid | noir-libs/src/main.rs:180 | "0.1.1" is a valid version |
| SemVer.TwoComponentsAreInvalid | noir-libs/src/main.rs:180 | "1.0" is not a valid version |
| SemVer.LeadingZeroIsInvalid | noir-libs/src/ops/package/package.rs:73 | "01.0.0" is not a valid version |
| SemVer.LatestIsNotAVersion | noir-libs/src/main.rs:171-180 | "latest" is not a valid version |
| SemVer.SemVerCharacters | noir-libs/src/ops/package/package.rs:22-35 | a valid version has no '/' and no '@' and is not "." or "..", so it is one path component |
| Packaging.ValidateNameIsNotEmptySpec | noir-libs/src/ops/package/name_validator.rs:6-12 | a name is accepted exactly when it has a non-whitespace character; otherwise the error names it |
| Packaging.ValidatePackageSpec | noir-libs/src/ops/package/package.rs:17-20 | validation succeeds exactly for type lib, a SemVer version and a non-blank name, returning name and version; the first failing check, in the order type, version, name, gives the error |
| Packaging.WrongTypeIsNamed | noir-libs/src/ops/package/package.rs:45-57 | a type other than lib is refused with a message naming that type |
| Packaging.BadVersionIsNamed | noir-libs/src/ops/package/package.rs:70-83 | an invalid version of a lib is refused with a message naming the version |
| Packaging.ValidNameIsSegment | noir-libs/src/ops/package.rs:112-125 | a name the older regex accepts is one path component without upper-case letters |
| Packaging.InvalidNames | noir-libs/src/ops/package.rs:113 | upper-case letters, leading or trailing separators and doubled separators are refused |
| Packaging.ExampleNameIsValid | noir-libs/src/ops/package.rs:113 | "my_cool_package" is accepted |
| Packaging.InvalidNameExamples | noir-libs/src/ops/package.rs:113-122 | "", "My_package", "a..b", "a.-b", ".a" and "a_" are refused |
| Packaging.LegacyValidatePackageSpec | noir-libs/src/ops/package.rs:17-20 | the older validation succeeds exactly for lib, SemVer and a regex-valid name, and then agrees with the current one |
| Packaging.LayoutNamesAreSegments | noir-libs/src/ops/package/package.rs:22-35 | the staging and tarball names are distinct single components |
| Packaging.CreateTarGzInput | noir-libs/src/tar.rs:13-37 | the tarball holds what the packer reads from the tree in which the empty tarball file already exists |
| Packaging.PackageChecksFirst | noir-libs/src/ops/package/package.rs:16-21 | a missing manifest or a failed check changes nothing on disk and reports the check's error |
| Packaging.PackageResult | noir-libs/src/ops/package/package.rs:16-43 | on success the result carries the manifest's name and version and the rendered tarball path |
| Packaging.TarballLayout | noir-libs/src/ops/package/package.rs:22-35 | staging is `dst/name_version`, data `dst/name_version/name_version`, tarball `dst/name_version/name_version.tar.gz`, and the tarball is outside the data folder |
| Packaging.PackageCopyFilters | noir-libs/src/ops/package/package.rs:28-33 | the copy skips paths through `target`, `.cargo`, `.vscode` or the staging folder, and `.env` files |
| Packaging.PackageCopyAsWrittenAgrees | noir-libs/src/ops/package/package.rs:28-33 | the folder filter alone refuses everything under `dst/<n>_<v>/<n>_<v>`, so the copy as written differs from the three-filter copy only in `.env` files |
| Packaging.LegacyPackageCopyAsWrittenAgrees | noir-libs/src/ops/package.rs:26-31 | the folder filter alone refuses everything under `target/package/<n>_temp`, so the older copy as written differs from the three-filter copy only in `.env` files |
| Packaging.LegacyPackageResult | noir-libs/src/ops/package.rs:15-42 | on success the older command validated a regex-valid name and a SemVer version and returns the tarball path |
| Packaging.LegacyTarballInsidePackedFolder | noir-libs/src/ops/package.rs:22-34 | the older staging folder is `cwd/target/package/name_temp` and the tarball lies inside it |
| Packaging.OutputFolderComponents | noir-libs/src/ops/package.rs:23 | "target/package" is the two components `target` and `package` |
| Packaging.LegacyPackerSeesTarball | noir-libs/src/ops/package.rs:33-34 | packing a folder into a tarball inside it shows the packer the new tarball file |
| Packaging.CreateTarGz | noir-libs/src/tar.rs:13-37 | the method's result and new tree are those of the tarball step |
| Packaging.Package | noir-libs/src/ops/package/package.rs:16-43 | the sequence of disk steps leaves the result and tree of the packaging function |
| Resolver.GetToCacheSpec | noir-libs/src/ops/add.rs:80-91 | records one request for the download URL; succeeds exactly when the download is 2xx, writable and extractable; then returns `cache_root/name/version`, stores the archive and registers the extracted package; a download error passes unchanged, an extraction error becomes "Problem extracting package" |
| Resolver.GetToCacheKeepsDirs | noir-libs/src/ops/add.rs:80-91 | downloading and extracting one package never removes or replaces a directory |
| Resolver.StoreGrows | noir-libs/src/ops/add.rs:23-49 | storing only appends requests and only adds extracted packages, and every directory stays a directory |
| Resolver.StoreAllGrows | noir-libs/src/ops/add.rs:38-46 | the same for the loop over sub-dependencies |
| Resolver.StoreRequestsPackageFirst | noir-libs/src/ops/add.rs:29-30 | the package itself is requested before anything else of its tree |
| Resolver.InstalledMonotone | noir-libs/src/ops/add.rs:23-49 | an installed tree stays installed when more packages are extracted |
| Resolver.StoreInstalls | noir-libs/src/ops/add.rs:23-49 | a successful store leaves the package and every dependency it reaches extracted under the cache root |
| Resolver.StoreAllInstalls | noir-libs/src/ops/add.rs:38-46 | a successful loop leaves every listed dependency installed |
| Resolver.StoreAllAppend | noir-libs/src/ops/add.rs:38-46 | the loop over a + b is the loop over a followed, only on success, by the loop over b |
| Resolver.StoreAllFirstError | noir-libs/src/ops/add.rs:40-45 | a failed loop failed at some dependency after all earlier ones succeeded, and reports that error |
| Resolver.GetUsedVersionSpec | noir-libs/src/ops/add.rs:107-114 | a literal version is used as is without asking the server; "latest" succeeds exactly when the registry answers 2xx with a string `latest_version`, and yields it |
| Resolver.AddSpec | noir-libs/src/ops/add.rs:11-21 | the cache root is prepared first: with no file on its path that succeeds and the root is a directory afterwards, and a failure panics with "Failed to setup cache directory" leaving cache and manifests unchanged; unless it returns Ok no manifest changes; once the store succeeds the resolved version's tree is installed, and a missing manifest or a `dependencies` value that cannot be indexed then panics; on Ok it returns the resolved version and only the nearest manifest changes, mapping the package to `cache_root/name/version` |
| Resolver.AddedPathIsFetched | noir-libs/src/ops/fetch.rs:19-23 | the path `add` writes decodes back to the package's name and version |
| Resolver.FetchRequestsEveryPathDep | noir-libs/src/ops/fetch.rs:16-31 | every path dependency is requested with `fetch_yanked` set, whatever the others do; Git entries are skipped; errors stop nothing |
| Resolver.FetchIgnoresKeys | noir-libs/src/ops/fetch.rs:16-23 | the table keys play no part: only the entries' values matter |
| Resolver.LegacyGetToCacheSpec | src/ops/add.rs:71-80 | records one request for the older URL; completes exactly when any answer arrives whose body can be written and extracted, whatever its status |
| Resolver.LegacyGetToCacheKeepsDirs | src/ops/add.rs:71-80 | the older download-and-extract step never removes or replaces a directory |
| Resolver.LegacyStoreGrows | src/ops/add.rs:20-40 | the older store only appends requests and only adds extracted packages, and every directory stays a directory |
| Resolver.LegacyStoreAllGrows | src/ops/add.rs:30-38 | the same for the older loop |
| Resolver.LegacyInstalledMonotone | src/ops/add.rs:20-40 | an installed older tree stays installed when more packages are extracted |
| Resolver.LegacyStoreInstalls | src/ops/add.rs:20-40 | a completed older store installs the tree with the two directories alternating by depth |
| Resolver.LegacyStoreAllInstalls | src/ops/add.rs:30-38 | a completed older loop installs every listed dependency that way |
| Resolver.LegacySubDependencyUnderProject | src/ops/add.rs:32-37 | a direct dependency lands under the project directory and one of its dependencies under the cache root |
| Resolver.LegacyAddSpec | src/ops/add.rs:11-18 | the cache root is prepared first: with no file on its path that succeeds and the root is a directory afterwards, and a failure panics with "Failed to setup cache directory" leaving cache and manifests unchanged; otherwise the first request is for the literal version; the cache is that of the store whatever follows; once the store completes, a missing manifest panics with "Unable to find manifest" and a `dependencies` value that cannot be indexed with "index not found"; a panic leaves the manifests alone; on completion the package is extracted and the nearest manifest maps it to its cache directory |
| Resolver.PackageCache.GetToCache | noir-libs/src/ops/add.rs:80-91 | the cache's new state and the result are those of the download-and-extract step |
| Resolver.PackageCache.StorePackage | noir-libs/src/ops/add.rs:23-49 | the recursive method leaves the result and state of the store function |
| Resolver.PackageCache.StoreDependencies | noir-libs/src/ops/add.rs:38-46 | the loop over the sub-dependencies leaves the result and state of the store loop: in manifest order, stopping at the first error |
| Resolver.PackageCache.LegacyGetToCache | src/ops/add.rs:71-80 | the same for the older download-and-extract step |
| Resolver.PackageCache.LegacyStorePackage | src/ops/add.rs:20-40 | the same for the older recursive store |
| Resolver.PackageCache.LegacyStoreDependencies | src/ops/add.rs:30-37 | the older loop leaves the result and state of the older store loop, roots swapped for each sub-dependency |
| Resolver.Add | noir-libs/src/ops/add.rs:11-21 | prepares the cache root, then the command's result or panic, cache and manifests are those of the add function |
| Resolver.FetchDependencies | noir-libs/src/ops/fetch.rs:16-31 | the loop over the manifest's dependencies leaves the cache state of the fetch loop |
| Resolver.Fetch | noir-libs/src/ops/fetch.rs:7-34 | a manifest that cannot be read is reported and nothing is fetched; otherwise the cache directory derived from the manifest's folder is prepared and the result is Ok, with the cache state of the fetch loop run on the prepared tree |
| Resolver.LegacyAdd | src/ops/add.rs:11-18 | prepares the cache root, then the older command's outcome, panics included, cache and manifests are those of the older add function |
| Resolver.PackageCache.PrepareCacheRoot | noir-libs/src/filesystem.rs:13-17 | the cache root is created as `ensure_dir` would, and on success it is a directory; nothing else in the cache changes |

## Left out

- Real I/O: the HTTP transport, reading a response body, JSON and TOML parsing and printing, gzip and tar. Each is an input: the server's answer, its JSON view, the parsed document, and the packing and unpacking functions passed as parameters.
- `get_cache_dir`, the current directory, environment variables and the configured URLs are parameters. `REGISTRY_URL` and `REGISTRY_HOME_URL` keep the values of noir-libs/src/config.rs.
- Printing, coloured output and the CLI dispatch of the two `main.rs` files. noir-libs/src/ops/publish.rs and noir-libs/src/ops/remove.rs are one-line wrappers whose calls do not match the signatures of `package` and `publish_package_api`; `RemovePackage` covers the removal. src/ops.rs is a stale draft and is not part of this model.
- Panics (`expect`, `unwrap`) of the current code before any effect become preconditions: `Resolver.Fetch` requires that the cache directory it derives can be created, and it requires a manifest in the working directory or one of its ancestors, where `fetch` panics on `try_find_manifest(..).expect`. `Manifest.ManifestFiles.RemovePackage` requires the same, where `remove_package_dep` panics on `try_find_manifest(..).unwrap()`. Both `add` functions first prepare the cache directory, and a failure there panics with "Failed to setup cache directory"; that panic is an outcome with the cache and manifests unchanged. The panics of `write_package_dep` in both generations come after the store has filled the cache, so they are modelled as outcomes: `AddPanicked` for the current `add`, `Panicked` for the older one, with the message of each panic. The older `add`'s panics while storing are `Panicked` too.
- Extraction is atomic: an archive that extracts registers its package directory with the archive's manifest, and one that does not registers nothing. Partial extraction and merging into an existing directory are not modelled.
- A manifest inside an archive that is not valid TOML panics in `get_dependencies`; the model treats an archive's manifest as already parsed.
- `get_full_package_name` is not part of this model, so neither is the multipart file name of a publish; the request carries the file bytes and the bearer header.
- Resolver.StoreOn: requires an acyclicity rank. On a cyclic dependency graph the source recurses without end, and the model does not describe that case.
- Resolver.StoreAll: requires the same rank, for the same reason.
- Resolver.LegacyStoreOn: requires the same rank, for the same reason.
- Resolver.LegacyStoreAll: requires the same rank, for the same reason.
- Resolver.Add: hands `write_package_dep` the nearest manifest's path. The current `add` passes the working directory, which does not type-check against the current `write_package_dep`.
- Resolver.Fetch: requires every path dependency to have a name and a version component (`PathDepsReadable`). The source's `expect("Path is incorrect")` at noir-libs/src/ops/fetch.rs:20-22 panics inside the loop, after the dependencies before it were stored, so a partial fetch that ends in that panic is excluded, not modelled.
- Resolver.Fetch: visits dependencies in manifest order, while the source iterates a `HashMap` in unspecified order. Its per-dependency properties do not depend on the order.
- Packaging.LegacyPackageOn: stops after creating the tarball. The older command's extra extraction of the tarball into `target/package/extracted_bro` is not modelled.
- Registry.GetLatestPackageVersion: serde_json appends a position (" at line L column C") to its messages, which is not modelled. The JSON view keeps one value per object key, so serde's "duplicate field `version`" error is not modelled. A body that is not JSON fails with the parser's message, even where serde would have reported a type error earlier in the text.
- Manifest.ReadManifest: distinguishes only a missing manifest from one that does not decode. The four error texts of `read_manifest` collapse into the missing-manifest text and the decoding text. The `[package]` fields the core never reads (`compiler_version`, `authors`, `description`, `license`, `keywords`, `documentation`, `repository`) are type-checked but their values are not kept. Numbers, booleans and dates are a single kind of TOML value, so the model does not tell them apart.
- The default filtering of the directory walker (hidden files, `.gitignore` rules) is left out. The walk is an input sequence and only the filters `copy_all` adds are modelled, so the model's walk yields hidden files such as `.env` and `.gitignore`, as the packaging test in noir-libs/src/ops/package/package.rs:160-170 expects `.gitignore` in the tarball. Under the walker's default `hidden(true)` neither `.env` nor `.gitignore` would be yielded.
- `SemVer.IsSemVer` recognises the grammar of Semantic Versioning 2.0.0. The semver crate's own limits, such as numbers that overflow 64 bits, are not modelled.

## Findings

| source | as written | input that shows it | evidently intended | confidence | as-written member | corrected member |
|---|---|---|---|---|---|---|
| src/ops/add.rs:32-37 | the recursive `store_package` passes `project_dir` as the cache root and `cache_root` as the project directory | a package A whose archive's manifest lists B: B is extracted to `project_dir/B/<v>`, and B's own dependencies go back under the cache root | every package of the tree under the cache root, as the current noir-libs/src/ops/add.rs:40-45 does | high, not executed | Resolver.LegacySubDependencyUnderProject | Resolver.StoreInstalls |
| noir-libs/src/filesystem.rs:71-78 | three `filter_entry` calls on one `WalkBuilder`; each replaces the filter before it, so only the ignored-folders filter prunes the walk | `copy_all(/p, /p/out, [], ["secret.txt"])` copies `/p/out` into `/p/out/out` and `/p/secret.txt` to `/p/out/secret.txt` | all three filters in force, as the comments above each call say | medium, not executed | FileSystem.AsWrittenCopiesIgnoredFile | FileSystem.FilteredEntryIsSkipped |
| noir-libs/src/ops/package.rs:22-34 | the tarball is created inside the staging folder that `create_tar_gz` then archives | any valid package: `target/package/<name>_temp/<name>_<version>.tar.gz` lies in `target/package/<name>_temp`, and the packer lists that folder after the empty tarball file exists | the tarball outside the archived folder, as the current noir-libs/src/ops/package/package.rs:25-36 does | medium, not executed | Packaging.LegacyPackerSeesTarball | Packaging.TarballLayout |
