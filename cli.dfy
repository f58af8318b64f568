/** The two ways the command line splits a `name@version` package argument
    (noir-libs/src/main.rs). */
module Cli {
  import opened Wrappers
  import opened Text
  import opened SemVer

  const LATEST := "latest"

  /** `split_package_to_name_and_version`: split on '@'; with exactly two
      pieces the second is the version, otherwise the version is "latest".
      The name is always the first piece. */
  function SplitPackageSpec(spec: string): (string, string)
  {
    var parts := Split(spec, '@');
    (parts[0], if |parts| == 2 then parts[1] else LATEST)
  }

  const FORMAT_ERROR := "Please provide a package in a format <package-name>@<version>"

  function IncorrectVersionError(version: string): string
  {
    "Package version " + version + " is incorrect. Assure correct semantic versioning value."
  }

  /** `split_package_to_name_and_version_with_validation`: exactly one '@',
      and the text after it must be a valid version. */
  function SplitPackageSpecValidated(spec: string): Result<(string, string), string>
  {
    var parts := Split(spec, '@');
    if |parts| == 2 then
      if IsSemVer(parts[1]) then Ok((parts[0], parts[1]))
      else Err(IncorrectVersionError(parts[1]))
    else Err(FORMAT_ERROR)
  }

  /** Without '@' the whole argument is the name and the version is
      "latest". */
  lemma SplitNoAt(spec: string)
    requires '@' !in spec
    ensures SplitPackageSpec(spec) == (spec, LATEST)
    ensures SplitPackageSpecValidated(spec) == Err(FORMAT_ERROR)
  {
    SplitNoSep(spec, '@');
  }

  /** With exactly one '@' the argument splits into the text before and the
      text after it, and joining them back with '@' gives the argument. */
  lemma SplitOneAt(name: string, version: string)
    requires '@' !in name && '@' !in version
    ensures SplitPackageSpec(name + "@" + version) == (name, version)
  {
    SplitAt(name, version, '@');
    SplitNoSep(version, '@');
  }

  /** With two or more '@' the version becomes "latest" and the validating
      split refuses the argument. */
  lemma SplitManyAts(spec: string)
    requires Occurrences(spec, '@') >= 2
    ensures SplitPackageSpec(spec).1 == LATEST
    ensures SplitPackageSpecValidated(spec) == Err(FORMAT_ERROR)
  {
    SplitCount(spec, '@');
  }

  /** The name is always the text before the first '@'. */
  lemma SplitNameIsBeforeFirstAt(spec: string, i: nat)
    requires i < |spec| && spec[i] == '@' && '@' !in spec[..i]
    ensures SplitPackageSpec(spec).0 == spec[..i]
  {
    SplitFirst(spec, '@', i);
  }

  /** The validating split succeeds exactly when the argument has one '@'
      and a valid version after it; it then agrees with the plain split, and
      the two halves put back together give the argument. */
  lemma ValidatedSplitSpec(spec: string)
    ensures SplitPackageSpecValidated(spec).Ok? <==>
      Occurrences(spec, '@') == 1 && IsSemVer(SplitPackageSpec(spec).1)
    ensures SplitPackageSpecValidated(spec).Ok? ==>
      var (name, version) := SplitPackageSpecValidated(spec).value;
      && (name, version) == SplitPackageSpec(spec)
      && spec == name + "@" + version
      && IsSemVer(version)
  {
    SplitCount(spec, '@');
    if |Split(spec, '@')| == 2 {
      SplitJoin(spec, '@');
      var parts := Split(spec, '@');
      assert Join(parts, '@') == parts[0] + "@" + parts[1];
    }
  }

  /** An invalid version in a well-formed argument is reported by name. */
  lemma ValidatedSplitNamesBadVersion(name: string, version: string)
    requires '@' !in name && '@' !in version && !IsSemVer(version)
    ensures SplitPackageSpecValidated(name + "@" + version) == Err(IncorrectVersionError(version))
  {
    SplitAt(name, version, '@');
    SplitNoSep(version, '@');
  }

  /** A valid version in a well-formed argument is accepted unchanged. */
  lemma ValidatedSplitAcceptsVersion(name: string, version: string)
    requires '@' !in name && IsSemVer(version)
    ensures SplitPackageSpecValidated(name + "@" + version) == Ok((name, version))
  {
    SemVerCharacters(version);
    SplitAt(name, version, '@');
    SplitNoSep(version, '@');
  }
}
