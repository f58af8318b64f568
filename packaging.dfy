/** `package`: checking a library's manifest and packing the library into a
    gzipped tarball, in the current layout of
    noir-libs/src/ops/package/package.rs and the older one of
    noir-libs/src/ops/package.rs (`Legacy…`). */
module Packaging {
  import opened Wrappers
  import opened Text
  import opened Paths
  import opened SemVer
  import opened FileSystem
  import opened Manifest

  /** What packaging returns: where the tarball is, and the package's name
      and version. */
  datatype PackagedTarball = PackagedTarball(tarballPath: string, name: string, version: string)

  // ---------------------------------------------------------------------------
  // Messages

  const LIB := "lib"

  function TypeIncorrect(packageType: string): string
  {
    "package type " + packageType + " in " + MANIFEST_FILE_NAME + TYPE_INCORRECT_REST
  }

  const TYPE_INCORRECT_REST := " file is incorrect. Assure package type is set to 'lib'. Example:\n\n[package]\ntype = \"lib\""

  const TYPE_NOT_SET := "package type in " + MANIFEST_FILE_NAME
    + " file is not set. Assure package type is set to 'lib'. Example:\n\n[package]\ntype = \"lib\""

  function VersionIncorrect(version: string): string
  {
    "package version " + version + " in " + MANIFEST_FILE_NAME + VERSION_INCORRECT_REST
  }

  const VERSION_INCORRECT_REST := " file is incorrect. Assure correct semantic versioning value. Example:\n\n[package]\nversion = \"0.0.1\""

  const VERSION_NOT_SET := "package version in " + MANIFEST_FILE_NAME
    + " file is not set. Assure correct semantic versioning value. Example:\n\n[package]\nversion = \"0.0.1\""

  const NAME_NOT_SET := "package name in " + MANIFEST_FILE_NAME
    + " file is not set. Please provide valid package name. Example:\n\n[package]\nname = \"my_example_package\""

  /** The older text for a missing name, which speaks of versioning. */
  const LEGACY_NAME_NOT_SET := "package name in " + MANIFEST_FILE_NAME
    + " file is not set. Assure correct semantic versioning value. Example:\n\n[package]\nname = \"my_example_package\""

  function NameBlank(name: string): string
  {
    "package name " + name + " in " + MANIFEST_FILE_NAME + " name is invalid. It cannot be empty."
  }

  function NameInvalid(name: string): string
  {
    "package name " + name + " in " + MANIFEST_FILE_NAME + " name is invalid. Assure it follows the naming convention."
  }

  // ---------------------------------------------------------------------------
  // Checks (the same in both generations unless named Legacy)

  /** `verify_package_type_is_lib`. */
  function VerifyPackageTypeIsLib(package: PackageMeta): Result<(), string>
  {
    match package.packageType
    case Some(t) => if t == Library then Ok(()) else Err(TypeIncorrect(PackageTypeName(t)))
    case None => Err(TYPE_NOT_SET)
  }

  /** `verify_and_get_version`: the version must parse as a semantic
      version; it is returned as written. */
  function VerifyAndGetVersion(package: PackageMeta): Result<string, string>
  {
    match package.version
    case Some(v) => if IsSemVer(v) then Ok(v) else Err(VersionIncorrect(v))
    case None => Err(VERSION_NOT_SET)
  }

  /** `validate_name_is_not_empty`: the only check the current generation
      makes on a name (the registry checks the rest). */
  function ValidateNameIsNotEmpty(name: string): Result<(), string>
  {
    if Trim(name) == "" then Err(NameBlank(name)) else Ok(())
  }

  /** `verify_and_get_package_name`. */
  function VerifyAndGetPackageName(package: PackageMeta): Result<string, string>
  {
    match package.name
    case Some(n) =>
      (match ValidateNameIsNotEmpty(n)
       case Err(e) => Err(e)
       case Ok(_) => Ok(n))
    case None => Err(NAME_NOT_SET)
  }

  /** The three checks of `package`, in its order: type, version, name. */
  function ValidatePackage(package: PackageMeta): Result<(string, string), string>
  {
    match VerifyPackageTypeIsLib(package)
    case Err(e) => Err(e)
    case Ok(_) =>
      match VerifyAndGetVersion(package)
      case Err(e) => Err(e)
      case Ok(version) =>
        match VerifyAndGetPackageName(package)
        case Err(e) => Err(e)
        case Ok(name) => Ok((name, version))
  }

  /** A name is refused exactly when it is blank, and the refusal quotes
      it. */
  lemma ValidateNameIsNotEmptySpec(name: string)
    ensures ValidateNameIsNotEmpty(name).Ok? <==> exists i :: 0 <= i < |name| && !IsWhitespace(name[i])
    ensures ValidateNameIsNotEmpty(name).Err? ==> ValidateNameIsNotEmpty(name).error == NameBlank(name)
  {
    TrimEmpty(name);
  }

  /** Packaging accepts a manifest exactly when its type is `lib`, its
      version is a semantic version and its name is not blank; it then
      returns the manifest's own name and version. Otherwise the error is
      that of the first check to fail, in the order type, version, name. */
  lemma ValidatePackageSpec(package: PackageMeta)
    ensures ValidatePackage(package).Ok? <==>
      && package.packageType == Some(Library)
      && package.version.Some? && IsSemVer(package.version.value)
      && package.name.Some? && (exists i :: 0 <= i < |package.name.value| && !IsWhitespace(package.name.value[i]))
    ensures ValidatePackage(package).Ok? ==> ValidatePackage(package).value == (package.name.value, package.version.value)
    ensures VerifyPackageTypeIsLib(package).Err? ==> ValidatePackage(package) == Err(VerifyPackageTypeIsLib(package).error)
    ensures VerifyPackageTypeIsLib(package).Ok? && VerifyAndGetVersion(package).Err? ==>
      ValidatePackage(package) == Err(VerifyAndGetVersion(package).error)
    ensures VerifyPackageTypeIsLib(package).Ok? && VerifyAndGetVersion(package).Ok? && VerifyAndGetPackageName(package).Err? ==>
      ValidatePackage(package) == Err(VerifyAndGetPackageName(package).error)
  {
    if package.name.Some? {
      ValidateNameIsNotEmptySpec(package.name.value);
    }
  }

  /** A type other than `lib` is refused with a message naming it. */
  lemma WrongTypeIsNamed(package: PackageMeta)
    requires package.packageType.Some? && package.packageType.value != Library
    ensures ValidatePackage(package) == Err(TypeIncorrect(PackageTypeName(package.packageType.value)))
    ensures StartsWith(TypeIncorrect(PackageTypeName(package.packageType.value)),
                       "package type " + PackageTypeName(package.packageType.value) + " in " + MANIFEST_FILE_NAME)
  {
    var head := "package type " + PackageTypeName(package.packageType.value) + " in " + MANIFEST_FILE_NAME;
    assert (head + TYPE_INCORRECT_REST)[..|head|] == head;
  }

  /** A version that is not a semantic version is refused with a message
      naming it, provided the type is right. */
  lemma BadVersionIsNamed(package: PackageMeta)
    requires package.packageType == Some(Library)
    requires package.version.Some? && !IsSemVer(package.version.value)
    ensures ValidatePackage(package) == Err(VersionIncorrect(package.version.value))
    ensures StartsWith(VersionIncorrect(package.version.value), "package version " + package.version.value + " in " + MANIFEST_FILE_NAME)
  {
    var head := "package version " + package.version.value + " in " + MANIFEST_FILE_NAME;
    assert (head + VERSION_INCORRECT_REST)[..|head|] == head;
  }

  // ---------------------------------------------------------------------------
  // The older name check

  predicate IsLowerAlnum(c: char)
  {
    ('a' <= c <= 'z') || ('0' <= c <= '9')
  }

  /** The separators the naming convention allows between runs. */
  predicate IsNameSeparator(c: char)
  {
    c == '.' || c == '-' || c == '_'
  }

  /** The language of the `validate_name` pattern
      `^(?:[a-z0-9]+(?:[-_][a-z0-9]+)*)(?:\.[a-z0-9]+(?:[-_][a-z0-9]+)*)*$`:
      runs of lower-case letters and digits separated by single '.', '-' or
      '_' ('.' between groups, '-' and '_' inside one); so the name is not
      empty, starts and ends with a letter or digit, and never has two
      separators in a row. */
  predicate ValidName(s: string)
  {
    && s != ""
    && (forall i :: 0 <= i < |s| ==> IsLowerAlnum(s[i]) || IsNameSeparator(s[i]))
    && IsLowerAlnum(s[0]) && IsLowerAlnum(s[|s| - 1])
    && (forall i :: 0 <= i < |s| - 1 ==> !(IsNameSeparator(s[i]) && IsNameSeparator(s[i + 1])))
  }

  /** `validate_name`. */
  function ValidateName(name: string): Result<(), string>
  {
    if ValidName(name) then Ok(()) else Err(NameInvalid(name))
  }

  /** The older `verify_and_get_package_name`. */
  function LegacyVerifyAndGetPackageName(package: PackageMeta): Result<string, string>
  {
    match package.name
    case Some(n) =>
      (match ValidateName(n)
       case Err(e) => Err(e)
       case Ok(_) => Ok(n))
    case None => Err(LEGACY_NAME_NOT_SET)
  }

  /** The older checks, in the same order. */
  function LegacyValidatePackage(package: PackageMeta): Result<(string, string), string>
  {
    match VerifyPackageTypeIsLib(package)
    case Err(e) => Err(e)
    case Ok(_) =>
      match VerifyAndGetVersion(package)
      case Err(e) => Err(e)
      case Ok(version) =>
        match LegacyVerifyAndGetPackageName(package)
        case Err(e) => Err(e)
        case Ok(name) => Ok((name, version))
  }

  /** A name the convention accepts is a single path component. */
  lemma ValidNameIsSegment(s: string)
    requires ValidName(s)
    ensures IsSegment(s)
    ensures forall i :: 0 <= i < |s| ==> !('A' <= s[i] <= 'Z')
  {
    assert s[0] != '.';
    assert forall i :: 0 <= i < |s| ==> s[i] != '/' by {
      forall i | 0 <= i < |s|
        ensures s[i] != '/'
      {
        assert IsLowerAlnum(s[i]) || IsNameSeparator(s[i]);
      }
    }
  }

  /** Names that break the convention at a given position. */
  lemma InvalidNames(s: string, i: nat)
    requires i < |s|
    ensures 'A' <= s[i] <= 'Z' ==> !ValidName(s)
    ensures i == 0 && IsNameSeparator(s[i]) ==> !ValidName(s)
    ensures i == |s| - 1 && IsNameSeparator(s[i]) ==> !ValidName(s)
    ensures i + 1 < |s| && IsNameSeparator(s[i]) && IsNameSeparator(s[i + 1]) ==> !ValidName(s)
  {
  }

  /** The package name of the packaging example follows the convention. */
  lemma ExampleNameIsValid()
    ensures ValidName("my_cool_package")
  {
    var s := "my_cool_package";
    forall i | 0 <= i < |s|
      ensures IsLowerAlnum(s[i]) || IsNameSeparator(s[i])
    {
    }
  }

  /** Concrete names the convention refuses. */
  lemma InvalidNameExamples()
    ensures !ValidName("")
    ensures !ValidName("My_package")
    ensures !ValidName("a..b")
    ensures !ValidName("a.-b")
    ensures !ValidName(".a")
    ensures !ValidName("a_")
  {
    InvalidNames("My_package", 0);
    InvalidNames("a..b", 1);
    InvalidNames("a.-b", 1);
    InvalidNames(".a", 0);
    InvalidNames("a_", 1);
  }

  /** The older checks accept the same manifests as the current ones except
      for the name, which must follow the convention. */
  lemma LegacyValidatePackageSpec(package: PackageMeta)
    ensures LegacyValidatePackage(package).Ok? <==>
      && package.packageType == Some(Library)
      && package.version.Some? && IsSemVer(package.version.value)
      && package.name.Some? && ValidName(package.name.value)
    ensures LegacyValidatePackage(package).Ok? ==> LegacyValidatePackage(package).value == (package.name.value, package.version.value)
    ensures LegacyValidatePackage(package).Ok? ==> ValidatePackage(package) == LegacyValidatePackage(package)
  {
    if LegacyValidatePackage(package).Ok? {
      var n := package.name.value;
      assert IsLowerAlnum(n[0]) && !IsWhitespace(n[0]);
      ValidatePackageSpec(package);
    }
  }

  // ---------------------------------------------------------------------------
  // Layout

  /** `<name>_<version>`: the staging folder and the folder inside it. */
  function StagingName(name: string, version: string): string
  {
    name + "_" + version
  }

  function TarballName(name: string, version: string): string
  {
    name + "_" + version + ".tar.gz"
  }

  /** The older staging folder `<name>_temp`. */
  function LegacyStagingName(name: string): string
  {
    name + "_temp"
  }

  const TARGET_FOLDER := "target"
  const PACKAGE_FOLDER := "package"

  /** `target/package`, where the older `package` stages its work. */
  const PACKAGING_OUTPUT_FOLDER := TARGET_FOLDER + "/" + PACKAGE_FOLDER

  /** `dst/<n>_<v>`, the folder `package` replaces. */
  function StagingPath(dst: Path, name: string, version: string): Path
  {
    PathJoin(dst, StagingName(name, version))
  }

  /** `dst/<n>_<v>/<n>_<v>`, the folder the library is copied into and
      packed from. */
  function DataPath(dst: Path, name: string, version: string): Path
  {
    PathJoin(StagingPath(dst, name, version), StagingName(name, version))
  }

  /** `dst/<n>_<v>/<n>_<v>.tar.gz`. */
  function TarballPath(dst: Path, name: string, version: string): Path
  {
    PathJoin(StagingPath(dst, name, version), TarballName(name, version))
  }

  /** The older `cwd/target/package/<n>_temp`, copied into and packed. */
  function LegacyStagingPath(cwd: Path, name: string): Path
  {
    PathJoin(PathJoin(cwd, PACKAGING_OUTPUT_FOLDER), LegacyStagingName(name))
  }

  /** The older `cwd/target/package/<n>_temp/<n>_<v>.tar.gz`. */
  function LegacyTarballPath(cwd: Path, name: string, version: string): Path
  {
    PathJoin(LegacyStagingPath(cwd, name), TarballName(name, version))
  }

  lemma {:induction false} NormalKeeps(pieces: seq<string>, j: nat)
    requires j < |pieces| && pieces[j] != "" && pieces[j] != "."
    ensures Normal(pieces) != []
  {
    if j > 0 && (pieces[0] == "" || pieces[0] == ".") {
      NormalKeeps(pieces[1..], j - 1);
    }
  }

  /** Joining a name that holds a character other than '/' and '.' never
      yields the root. */
  lemma JoinNonEmpty(base: Path, s: string, i: nat)
    requires i < |s| && s[i] != '/' && s[i] != '.'
    ensures PathJoin(base, s) != []
  {
    var parts := Split(s, '/');
    SplitJoin(s, '/');
    JoinCharacters(parts, '/');
    assert s[i] in Join(parts, '/');
    var k :| 0 <= k < |parts| && s[i] in parts[k];
    NormalKeeps(parts, k);
  }

  /** A name free of '/' with a '/'-free version gives a staging name that
      is one path component, and so is the tarball name. */
  lemma LayoutNamesAreSegments(name: string, version: string)
    requires '/' !in name && '/' !in version
    ensures IsSegment(StagingName(name, version)) && IsSegment(TarballName(name, version))
    ensures StagingName(name, version) != TarballName(name, version)
  {
    var s := StagingName(name, version);
    var t := TarballName(name, version);
    assert s[|name|] == '_' && t[|name|] == '_';
    forall i | 0 <= i < |t|
      ensures t[i] != '/'
    {
      if i < |name| {
        assert t[i] == name[i];
      } else if |name| < i < |name| + 1 + |version| {
        assert t[i] == version[i - |name| - 1];
      }
    }
    assert t == s + ".tar.gz";
    assert |s| < |t|;
  }

  // ---------------------------------------------------------------------------
  // Creating the tarball

  /** `create_tar_gz` of noir-libs/src/tar.rs: the tarball file is created
      (empty) first; then the entries of `src` are read and packed, so
      `pack` sees the tree with the empty tarball in it; the finished
      archive is written to the file. `pack` stands for tar and gzip. */
  function CreateTarGzOn(fs: Tree, src: Path, dst: Path, pack: (Tree, Path) -> seq<bv8>): (Result<(), IoError>, Tree)
  {
    match CreateFile(fs, dst, [])
    case Err(e) => (Err(e), fs)
    case Ok(fs1) =>
      if !Exists(fs1, src) then (Err(Os(NotFound)), fs1)
      else if !IsDir(fs1, src) then (Err(Os(NotADirectory)), fs1)
      else (Ok(()), fs1[dst := File(pack(fs1, src))])
  }

  /** The archive is packed from a tree in which the tarball already exists
      as an empty file, and the tarball ends up holding the archive. */
  lemma CreateTarGzInput(fs: Tree, src: Path, dst: Path, pack: (Tree, Path) -> seq<bv8>)
    ensures var (r, fs') := CreateTarGzOn(fs, src, dst, pack);
      r.Ok? ==>
        && CreateFile(fs, dst, []).Ok?
        && var seen := CreateFile(fs, dst, []).value;
        && IsFile(seen, dst) && seen[dst].data == []
        && IsDir(seen, src)
        && IsFile(fs', dst) && fs'[dst].data == pack(seen, src)
  {
    CreateFileSpec(fs, dst, []);
  }

  // ---------------------------------------------------------------------------
  // package

  const IGNORED_FILES := [".env"]

  function IgnoredFolders(staging: string): seq<string>
  {
    ["target", ".cargo", ".vscode", staging]
  }

  function LegacyIgnoredFolders(staging: string): seq<string>
  {
    ["target", ".cargo", ".git", ".vscode", ".gitignore", ".git", staging]
  }

  /** `package` of noir-libs/src/ops/package/package.rs: read and check the
      manifest of `manifestFolder`; replace `dst/<n>_<v>` by an empty
      directory; copy the library into `dst/<n>_<v>/<n>_<v>`; pack that
      folder into `dst/<n>_<v>/<n>_<v>.tar.gz`. `walk` is what the directory
      walk of `manifestFolder` yields. */
  function PackageOn(fs: Tree, docs: map<Path, Document>, manifestFolder: Path, dst: Path,
                     walk: seq<WalkEntry>, pack: (Tree, Path) -> seq<bv8>): (Result<PackagedTarball, string>, Tree)
    requires WalkUnder(walk, manifestFolder)
  {
    match ReadManifest(manifestFolder, docs)
    case Err(e) => (Err(e), fs)
    case Ok(manifest) =>
      match ValidatePackage(manifest.package)
      case Err(e) => (Err(e), fs)
      case Ok((name, version)) => PackageSteps(fs, manifestFolder, dst, name, version, walk, pack)
  }

  /** The disk work of `package` once the manifest has passed its checks:
      a fresh staging folder, the filtered copy, the tarball. */
  function PackageSteps(fs: Tree, manifestFolder: Path, dst: Path, name: string, version: string,
                        walk: seq<WalkEntry>, pack: (Tree, Path) -> seq<bv8>): (Result<PackagedTarball, string>, Tree)
    requires WalkUnder(walk, manifestFolder)
  {
    var staging := StagingName(name, version);
    var temp := StagingPath(dst, name, version);
    var data := DataPath(dst, name, version);
    var tarball := TarballPath(dst, name, version);
    assert staging[|name|] == '_';
    JoinNonEmpty(dst, staging, |name|);
    var (r1, fs1) := NewDirReplaceOn(fs, temp);
    if r1.Err? then (Err(IoErrorText(r1.error)), fs1)
    else
      var (r2, fs2) := CopyAllOn(fs1, manifestFolder, data, IgnoredFolders(staging), IGNORED_FILES, walk);
      if r2.Err? then (Err(IoErrorText(r2.error)), fs2)
      else
        var (r3, fs3) := CreateTarGzOn(fs2, data, tarball, pack);
        if r3.Err? then (Err(IoErrorText(r3.error)), fs3)
        else (Ok(PackagedTarball(Render(tarball), name, version)), fs3)
  }

  /** The only success of the disk work reports the tarball it wrote. */
  lemma PackageStepsResult(fs: Tree, manifestFolder: Path, dst: Path, name: string, version: string,
                           walk: seq<WalkEntry>, pack: (Tree, Path) -> seq<bv8>)
    requires WalkUnder(walk, manifestFolder)
    ensures var r := PackageSteps(fs, manifestFolder, dst, name, version, walk, pack).0;
      r.Ok? ==> r.value == PackagedTarball(Render(TarballPath(dst, name, version)), name, version)
  {
  }

  /** Nothing touches the disk before every check has passed: a manifest
      that cannot be read or fails a check leaves the tree as it was, and
      the error is the check's. */
  lemma PackageChecksFirst(fs: Tree, docs: map<Path, Document>, manifestFolder: Path, dst: Path,
                           walk: seq<WalkEntry>, pack: (Tree, Path) -> seq<bv8>)
    requires WalkUnder(walk, manifestFolder)
    requires ReadManifest(manifestFolder, docs).Err? || ValidatePackage(ReadManifest(manifestFolder, docs).value.package).Err?
    ensures PackageOn(fs, docs, manifestFolder, dst, walk, pack).1 == fs
    ensures ReadManifest(manifestFolder, docs).Ok? ==>
      PackageOn(fs, docs, manifestFolder, dst, walk, pack).0 == Err(ValidatePackage(ReadManifest(manifestFolder, docs).value.package).error)
  {
  }

  /** A packaged library reports the manifest's own name and version, and
      the path of the tarball built from them. */
  lemma PackageResult(fs: Tree, docs: map<Path, Document>, manifestFolder: Path, dst: Path,
                      walk: seq<WalkEntry>, pack: (Tree, Path) -> seq<bv8>)
    requires WalkUnder(walk, manifestFolder)
    requires PackageOn(fs, docs, manifestFolder, dst, walk, pack).0.Ok?
    ensures ReadManifest(manifestFolder, docs).Ok?
    ensures var package := ReadManifest(manifestFolder, docs).value.package;
      && package.name.Some? && package.version.Some?
      && PackageOn(fs, docs, manifestFolder, dst, walk, pack).0.value
         == PackagedTarball(Render(TarballPath(dst, package.name.value, package.version.value)),
                            package.name.value, package.version.value)
  {
    var package := ReadManifest(manifestFolder, docs).value.package;
    ValidatePackageSpec(package);
    PackageStepsResult(fs, manifestFolder, dst, package.name.value, package.version.value, walk, pack);
  }

  /** The tarball is `dst/<n>_<v>/<n>_<v>.tar.gz`, next to (not inside) the
      folder `dst/<n>_<v>/<n>_<v>` that is packed. */
  lemma TarballLayout(dst: Path, name: string, version: string)
    requires '/' !in name && '/' !in version
    ensures StagingPath(dst, name, version) == dst + [StagingName(name, version)]
    ensures DataPath(dst, name, version) == dst + [StagingName(name, version), StagingName(name, version)]
    ensures TarballPath(dst, name, version) == dst + [StagingName(name, version), TarballName(name, version)]
    ensures !PathStartsWith(TarballPath(dst, name, version), DataPath(dst, name, version))
  {
    LayoutNamesAreSegments(name, version);
    var staging := StagingName(name, version);
    var tarName := TarballName(name, version);
    JoinSegment(dst, staging);
    JoinSegment(dst + [staging], staging);
    JoinSegment(dst + [staging], tarName);
    assert (dst + [staging] + [tarName])[|dst| + 1] == tarName;
    assert (dst + [staging] + [staging])[|dst| + 1] == staging;
  }

  /** At the call in `package`, the destination `dst/<n>_<v>/<n>_<v>` lies
      under a folder named like the staging folder, which is one of the
      ignored folders: the folder filter alone refuses everything inside it,
      and the copy as written differs from the three-filter copy only in
      `.env` files. */
  lemma PackageCopyAsWrittenAgrees(fs: Tree, src: Path, dst: Path, name: string, version: string, p: Path)
    requires '/' !in name && '/' !in version
    ensures forall q :: PathStartsWith(q, DataPath(dst, name, version)) ==>
      !PassesFolderFilter(q, IgnoredFolders(StagingName(name, version)))
    ensures PathStartsWith(p, src) ==>
      CopyStepAsWritten(fs, src, DataPath(dst, name, version), IgnoredFolders(StagingName(name, version)), IGNORED_FILES, Entry(p))
      == CopyStep(fs, src, DataPath(dst, name, version), IgnoredFolders(StagingName(name, version)), [], Entry(p))
  {
    var staging := StagingName(name, version);
    var data := DataPath(dst, name, version);
    TarballLayout(dst, name, version);
    forall q | PathStartsWith(q, data)
      ensures !PassesFolderFilter(q, IgnoredFolders(staging))
    {
      assert q[|dst|] == data[|dst|] == staging;
      RenderContainsComponent(q, |dst|);
      assert IgnoredFolders(staging)[3] == staging;
    }
    KeptAsWrittenAgrees(fs, src, p, data, IgnoredFolders(staging), IGNORED_FILES);
  }

  /** At the call in the older `package`, the destination
      `cwd/target/package/<n>_temp` lies under `target`, an ignored folder:
      the same agreement holds. */
  lemma LegacyPackageCopyAsWrittenAgrees(fs: Tree, cwd: Path, name: string, version: string, p: Path)
    requires ValidName(name) && IsSemVer(version)
    ensures forall q :: PathStartsWith(q, LegacyStagingPath(cwd, name)) ==>
      !PassesFolderFilter(q, LegacyIgnoredFolders(LegacyStagingName(name)))
    ensures PathStartsWith(p, cwd) ==>
      CopyStepAsWritten(fs, cwd, LegacyStagingPath(cwd, name), LegacyIgnoredFolders(LegacyStagingName(name)), IGNORED_FILES, Entry(p))
      == CopyStep(fs, cwd, LegacyStagingPath(cwd, name), LegacyIgnoredFolders(LegacyStagingName(name)), [], Entry(p))
  {
    var folders := LegacyIgnoredFolders(LegacyStagingName(name));
    var temp := LegacyStagingPath(cwd, name);
    LegacyTarballInsidePackedFolder(cwd, name, version);
    forall q | PathStartsWith(q, temp)
      ensures !PassesFolderFilter(q, folders)
    {
      assert q[|cwd|] == temp[|cwd|] == TARGET_FOLDER;
      RenderContainsComponent(q, |cwd|);
      assert folders[0] == TARGET_FOLDER;
    }
    KeptAsWrittenAgrees(fs, cwd, p, temp, folders, IGNORED_FILES);
  }

  /** The copy into the staging folder leaves out `target`, `.cargo`,
      `.vscode`, the staging folder's own name and `.env` files: an entry
      under a folder of that name, or a file named `.env`, is not copied. */
  lemma PackageCopyFilters(name: string, version: string, p: Path, dest: Path)
    ensures forall f :: f in IgnoredFolders(StagingName(name, version)) && Contains(Render(p), "/" + f + "/") ==>
      !PassesFilters(p, dest, IgnoredFolders(StagingName(name, version)), IGNORED_FILES)
    ensures PathEndsWith(p, [".env"]) ==> !PassesFilters(p, dest, IgnoredFolders(StagingName(name, version)), IGNORED_FILES)
  {
    if PathEndsWith(p, [".env"]) {
      assert Components(".env") == [".env"] by { ComponentsOfSegment(".env"); }
      assert IGNORED_FILES[0] == ".env";
    }
  }

  /** The older `package`: the staging folder is `cwd/target/package/<n>_temp`,
      the library is copied straight into it, and the tarball is created
      inside the very folder being packed. The final extraction into
      `target/package/extracted_bro` is not part of this model. */
  function LegacyPackageOn(fs: Tree, docs: map<Path, Document>, cwd: Path,
                           walk: seq<WalkEntry>, pack: (Tree, Path) -> seq<bv8>): (Result<PackagedTarball, string>, Tree)
    requires WalkUnder(walk, cwd)
  {
    match ReadManifest(cwd, docs)
    case Err(e) => (Err(e), fs)
    case Ok(manifest) =>
      match LegacyValidatePackage(manifest.package)
      case Err(e) => (Err(e), fs)
      case Ok((name, version)) => LegacyPackageSteps(fs, cwd, name, version, walk, pack)
  }

  /** The older disk work: staging folder, filtered copy, tarball. */
  function LegacyPackageSteps(fs: Tree, cwd: Path, name: string, version: string,
                              walk: seq<WalkEntry>, pack: (Tree, Path) -> seq<bv8>): (Result<PackagedTarball, string>, Tree)
    requires WalkUnder(walk, cwd)
  {
    var staging := LegacyStagingName(name);
    var temp := LegacyStagingPath(cwd, name);
    var tarball := LegacyTarballPath(cwd, name, version);
    assert staging[|name|] == '_';
    JoinNonEmpty(PathJoin(cwd, PACKAGING_OUTPUT_FOLDER), staging, |name|);
    var (r1, fs1) := NewDirReplaceOn(fs, temp);
    if r1.Err? then (Err(IoErrorText(r1.error)), fs1)
    else
      var (r2, fs2) := CopyAllOn(fs1, cwd, temp, LegacyIgnoredFolders(staging), IGNORED_FILES, walk);
      if r2.Err? then (Err(IoErrorText(r2.error)), fs2)
      else
        var (r3, fs3) := CreateTarGzOn(fs2, temp, tarball, pack);
        if r3.Err? then (Err(IoErrorText(r3.error)), fs3)
        else (Ok(PackagedTarball(Render(tarball), name, version)), fs3)
  }

  /** The only success of the older disk work reports its tarball. */
  lemma LegacyPackageStepsResult(fs: Tree, cwd: Path, name: string, version: string,
                                 walk: seq<WalkEntry>, pack: (Tree, Path) -> seq<bv8>)
    requires WalkUnder(walk, cwd)
    ensures var r := LegacyPackageSteps(fs, cwd, name, version, walk, pack).0;
      r.Ok? ==> r.value == PackagedTarball(Render(LegacyTarballPath(cwd, name, version)), name, version)
  {
  }

  /** An older packaged library reports the manifest's name and version
      and the tarball path built from them. */
  lemma LegacyPackageResult(fs: Tree, docs: map<Path, Document>, cwd: Path,
                            walk: seq<WalkEntry>, pack: (Tree, Path) -> seq<bv8>)
    requires WalkUnder(walk, cwd)
    requires LegacyPackageOn(fs, docs, cwd, walk, pack).0.Ok?
    ensures ReadManifest(cwd, docs).Ok?
    ensures var package := ReadManifest(cwd, docs).value.package;
      && package.name.Some? && package.version.Some?
      && ValidName(package.name.value) && IsSemVer(package.version.value)
      && LegacyPackageOn(fs, docs, cwd, walk, pack).0.value
         == PackagedTarball(Render(LegacyTarballPath(cwd, package.name.value, package.version.value)),
                            package.name.value, package.version.value)
  {
    var package := ReadManifest(cwd, docs).value.package;
    LegacyValidatePackageSpec(package);
    LegacyPackageStepsResult(fs, cwd, package.name.value, package.version.value, walk, pack);
  }

  /** In the older layout the tarball lies inside the very folder that is
      packed. */
  lemma LegacyTarballInsidePackedFolder(cwd: Path, name: string, version: string)
    requires ValidName(name) && IsSemVer(version)
    ensures LegacyStagingPath(cwd, name) == cwd + [TARGET_FOLDER, PACKAGE_FOLDER, LegacyStagingName(name)]
    ensures LegacyTarballPath(cwd, name, version) == LegacyStagingPath(cwd, name) + [TarballName(name, version)]
    ensures PathStartsWith(LegacyTarballPath(cwd, name, version), LegacyStagingPath(cwd, name))
  {
    ValidNameIsSegment(name);
    SemVerCharacters(version);
    LayoutNamesAreSegments(name, version);
    var staging := LegacyStagingName(name);
    assert IsSegment(staging) by {
      assert staging[0] == name[0];
      forall i | 0 <= i < |staging|
        ensures staging[i] != '/'
      {
        if i < |name| {
          assert staging[i] == name[i];
        }
      }
    }
    OutputFolderComponents();
    var out := [TARGET_FOLDER, PACKAGE_FOLDER];
    JoinSegment(cwd + out, staging);
    assert cwd + out + [staging] == cwd + [TARGET_FOLDER, PACKAGE_FOLDER, staging];
    JoinSegment(cwd + [TARGET_FOLDER, PACKAGE_FOLDER, staging], TarballName(name, version));
  }

  lemma OutputFolderComponents()
    ensures Components(PACKAGING_OUTPUT_FOLDER) == [TARGET_FOLDER, PACKAGE_FOLDER]
  {
    ComponentsOfTwo(TARGET_FOLDER, PACKAGE_FOLDER);
  }

  /** The tarball as the older packer sees it: an empty file inside the
      folder it packs. */
  lemma LegacyPackerSeesTarball(fs: Tree, temp: Path, tarballName: string, pack: (Tree, Path) -> seq<bv8>)
    requires CreateTarGzOn(fs, temp, temp + [tarballName], pack).0.Ok?
    ensures var seen := CreateFile(fs, temp + [tarballName], []).value;
      && PathStartsWith(temp + [tarballName], temp)
      && IsFile(seen, temp + [tarballName]) && seen[temp + [tarballName]].data == []
  {
    CreateTarGzInput(fs, temp, temp + [tarballName], pack);
  }

  // ---------------------------------------------------------------------------
  // The steps on the disk

  /** `create_tar_gz` on the disk. */
  method CreateTarGz(disk: Disk, src: Path, dst: Path, pack: (Tree, Path) -> seq<bv8>) returns (r: Result<(), IoError>)
    modifies disk
    ensures (r, disk.tree) == CreateTarGzOn(old(disk.tree), src, dst, pack)
  {
    var created := disk.WriteFile(dst, []);
    if created.Err? {
      return Err(created.error);
    }
    if !Exists(disk.tree, src) {
      return Err(Os(NotFound));
    }
    if !IsDir(disk.tree, src) {
      return Err(Os(NotADirectory));
    }
    var archive := pack(disk.tree, src);
    disk.tree := disk.tree[dst := File(archive)];
    r := Ok(());
  }

  /** `package` on the disk, step by step. */
  method Package(disk: Disk, docs: map<Path, Document>, manifestFolder: Path, dst: Path,
                 walk: seq<WalkEntry>, pack: (Tree, Path) -> seq<bv8>) returns (r: Result<PackagedTarball, string>)
    requires WalkUnder(walk, manifestFolder)
    modifies disk
    ensures (r, disk.tree) == PackageOn(old(disk.tree), docs, manifestFolder, dst, walk, pack)
  {
    var manifest := ReadManifest(manifestFolder, docs);
    if manifest.Err? {
      return Err(manifest.error);
    }
    var checked := ValidatePackage(manifest.value.package);
    if checked.Err? {
      return Err(checked.error);
    }
    var (name, version) := checked.value;
    var staging := StagingName(name, version);
    var temp := StagingPath(dst, name, version);
    var data := DataPath(dst, name, version);
    assert staging[|name|] == '_';
    JoinNonEmpty(dst, staging, |name|);
    var replaced := disk.NewDirReplaceIfExists(temp);
    if replaced.Err? {
      return Err(IoErrorText(replaced.error));
    }
    var copied := disk.CopyAll(manifestFolder, data, IgnoredFolders(staging), IGNORED_FILES, walk);
    if copied.Err? {
      return Err(IoErrorText(copied.error));
    }
    var tarball := TarballPath(dst, name, version);
    var packed := CreateTarGz(disk, data, tarball, pack);
    if packed.Err? {
      return Err(IoErrorText(packed.error));
    }
    r := Ok(PackagedTarball(Render(tarball), name, version));
  }
}
