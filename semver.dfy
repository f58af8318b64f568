/** "Parses as a version" for the package manager: the grammar of Semantic
    Versioning 2.0.0 (semver.org), section 2 (MAJOR.MINOR.PATCH without
    leading zeros), section 9 (pre-release after '-') and section 10 (build
    metadata after '+'). */
module SemVer {
  import opened Text

  /** Letters, digits and hyphen: the characters of every identifier. */
  predicate IsIdentifierChar(c: char)
  {
    IsDigit(c) || ('a' <= c <= 'z') || ('A' <= c <= 'Z') || c == '-'
  }

  predicate AllDigits(s: string)
  {
    forall i :: 0 <= i < |s| ==> IsDigit(s[i])
  }

  /** A numeric identifier: digits, no leading zero unless it is "0". */
  predicate IsNumericIdentifier(s: string)
  {
    s != "" && AllDigits(s) && (s == "0" || s[0] != '0')
  }

  /** An alphanumeric identifier: identifier characters, at least one of them
      not a digit. */
  predicate IsAlphanumericIdentifier(s: string)
  {
    && s != ""
    && (forall i :: 0 <= i < |s| ==> IsIdentifierChar(s[i]))
    && !AllDigits(s)
  }

  predicate IsPreReleaseIdentifier(s: string)
  {
    IsNumericIdentifier(s) || IsAlphanumericIdentifier(s)
  }

  predicate IsBuildIdentifier(s: string)
  {
    s != "" && forall i :: 0 <= i < |s| ==> IsIdentifierChar(s[i])
  }

  /** MAJOR.MINOR.PATCH */
  predicate IsVersionCore(s: string)
  {
    var parts := Split(s, '.');
    |parts| == 3 && forall i :: 0 <= i < 3 ==> IsNumericIdentifier(parts[i])
  }

  predicate IsPreRelease(s: string)
  {
    var ids := Split(s, '.');
    forall i :: 0 <= i < |ids| ==> IsPreReleaseIdentifier(ids[i])
  }

  predicate IsBuild(s: string)
  {
    var ids := Split(s, '.');
    forall i :: 0 <= i < |ids| ==> IsBuildIdentifier(ids[i])
  }

  /** The index of the first `c` in `s`, or `|s|` when there is none. */
  function IndexOf(s: string, c: char): (r: nat)
    ensures r <= |s|
    ensures r < |s| ==> s[r] == c
    ensures c !in s[..r]
  {
    if s == [] then 0
    else if s[0] == c then 0
    else
      var r := 1 + IndexOf(s[1..], c);
      assert s[..r] == [s[0]] + s[1..][..r - 1];
      r
  }

  /** A valid Semantic Versioning 2.0.0 version: a version core, optionally
      `-` and a pre-release, optionally `+` and build metadata. The core has
      no '-' or '+', and a pre-release has no '+', so the first '+' starts
      the build metadata and the first '-' before it starts the
      pre-release. */
  predicate IsSemVer(s: string)
  {
    var plus := IndexOf(s, '+');
    var main := s[..plus];
    var minus := IndexOf(main, '-');
    && IsVersionCore(main[..minus])
    && (minus == |main| || IsPreRelease(main[minus + 1..]))
    && (plus == |s| || IsBuild(s[plus + 1..]))
  }

  /** `MAJOR.MINOR.PATCH` rendered from three numbers. */
  function FormatVersion(major: nat, minor: nat, patch: nat): string
  {
    NatToString(major) + "." + NatToString(minor) + "." + NatToString(patch)
  }

  /** A rendered number is a numeric identifier. */
  lemma NatIsNumericIdentifier(n: nat)
    ensures IsNumericIdentifier(NatToString(n))
  {
    var s := NatToString(n);
    if |s| == 1 && s[0] == '0' {
      assert s == "0";
    }
  }

  /** Every rendered triple is a valid version, with exactly that core. */
  lemma FormatIsSemVer(major: nat, minor: nat, patch: nat)
    ensures IsSemVer(FormatVersion(major, minor, patch))
  {
    var a, b, c := NatToString(major), NatToString(minor), NatToString(patch);
    var s := FormatVersion(major, minor, patch);
    NatIsNumericIdentifier(major);
    NatIsNumericIdentifier(minor);
    NatIsNumericIdentifier(patch);
    DigitsOnly(a);
    DigitsOnly(b);
    DigitsOnly(c);
    assert IsVersionCore(s) by {
      assert s == a + ['.'] + (b + ['.'] + c);
      SplitAt(a, b + ['.'] + c, '.');
      SplitAt(b, c, '.');
      SplitNoSep(c, '.');
    }
    PlainCoreIsSemVer(s);
  }

  /** A version core with neither pre-release nor build part is a version. */
  lemma PlainCoreIsSemVer(s: string)
    requires '+' !in s && '-' !in s && IsVersionCore(s)
    ensures IsSemVer(s)
  {
    IndexOfAbsent(s, '+');
    IndexOfAbsent(s, '-');
    assert s[..|s|] == s;
  }

  /** Digits are none of the separators of a version. */
  lemma DigitsOnly(s: string)
    requires AllDigits(s)
    ensures '.' !in s && '+' !in s && '-' !in s
  {
  }

  /** A character that does not occur is found at the end. */
  lemma IndexOfAbsent(s: string, c: char)
    requires c !in s
    ensures IndexOf(s, c) == |s|
  {
  }

  // Concrete cases, following section 2, 9 and 10 of the standard.

  lemma PlainVersionIsValid()
    ensures IsSemVer("0.1.1")
  {
    FormatIsSemVer(0, 1, 1);
    assert FormatVersion(0, 1, 1) == "0.1.1";
  }

  /** Two components are not a version core. */
  lemma TwoComponentsAreInvalid()
    ensures !IsSemVer("1.0")
  {
    var s := "1.0";
    assert IndexOf(s, '+') == 3;
    assert s[..3] == s;
    assert IndexOf(s, '-') == 3;
    SplitAt("1", "0", '.');
    SplitNoSep("0", '.');
    assert s == "1" + ['.'] + "0";
    assert |Split(s, '.')| == 2;
  }

  /** A leading zero in a numeric component is invalid. */
  lemma LeadingZeroIsInvalid()
    ensures !IsSemVer("01.0.0")
  {
    var s := "01.0.0";
    assert IndexOf(s, '+') == 6;
    assert s[..6] == s;
    assert IndexOf(s, '-') == 6;
    assert s == "01" + ['.'] + "0.0";
    SplitAt("01", "0.0", '.');
    assert Split(s, '.')[0] == "01";
  }

  /** "latest", the keyword for the newest version, is not a version. */
  lemma LatestIsNotAVersion()
    ensures !IsSemVer("latest")
  {
    var s := "latest";
    assert IndexOf(s, '+') == 6;
    assert s[..6] == s;
    assert IndexOf(s, '-') == 6;
    SplitNoSep(s, '.');
    assert !IsNumericIdentifier(s) by {
      assert !IsDigit(s[0]);
    }
  }

  /** A version never contains '/' or '@', and is neither "." nor "..". */
  lemma {:induction false} SemVerCharacters(s: string)
    requires IsSemVer(s)
    ensures '/' !in s && '@' !in s
    ensures s != "." && s != ".."
  {
    var plus := IndexOf(s, '+');
    var main := s[..plus];
    var minus := IndexOf(main, '-');
    var core := main[..minus];
    CoreCharacters(core);
    if minus < |main| {
      IdentifierCharacters(main[minus + 1..], false);
      assert main == core + ['-'] + main[minus + 1..];
    } else {
      assert main == core;
    }
    if plus < |s| {
      IdentifierCharacters(s[plus + 1..], true);
      assert s == main + ['+'] + s[plus + 1..];
    } else {
      assert s == main;
    }
    if s == "." || s == ".." {
      assert |core| >= 5 by { CoreLength(core); }
    }
  }

  /** Characters of a version core: digits and dots. */
  lemma CoreCharacters(core: string)
    requires IsVersionCore(core)
    ensures '/' !in core && '@' !in core
  {
    var parts := Split(core, '.');
    SplitJoin(core, '.');
    JoinCharacters(parts, '.');
    forall i | 0 <= i < |parts|
      ensures '/' !in parts[i] && '@' !in parts[i]
    {
      assert IsNumericIdentifier(parts[i]);
    }
  }

  /** A core has three non-empty parts and two dots. */
  lemma CoreLength(core: string)
    requires IsVersionCore(core)
    ensures |core| >= 5
  {
    var parts := Split(core, '.');
    SplitJoin(core, '.');
    assert core == parts[0] + ['.'] + (parts[1] + ['.'] + parts[2]) by {
      assert Join(parts, '.') == parts[0] + ['.'] + Join(parts[1..], '.');
      assert Join(parts[1..], '.') == parts[1] + ['.'] + Join(parts[2..], '.');
    }
  }

  /** Characters of a pre-release or build part: identifier characters and
      dots. */
  lemma IdentifierCharacters(s: string, build: bool)
    requires build ==> IsBuild(s)
    requires !build ==> IsPreRelease(s)
    ensures '/' !in s && '@' !in s
  {
    var parts := Split(s, '.');
    SplitJoin(s, '.');
    JoinCharacters(parts, '.');
    forall i | 0 <= i < |parts|
      ensures '/' !in parts[i] && '@' !in parts[i]
    {
      var p := parts[i];
      if build {
        assert IsBuildIdentifier(p);
      } else {
        assert IsPreReleaseIdentifier(p);
      }
      forall j | 0 <= j < |p|
        ensures p[j] != '/' && p[j] != '@'
      {
        if !build && IsNumericIdentifier(p) {
          assert IsDigit(p[j]);
        } else {
          assert IsIdentifierChar(p[j]);
        }
      }
    }
  }

  /** Every character of a joined string is the separator or comes from a
      part. */
  lemma {:induction false} JoinCharacters(parts: seq<string>, sep: char)
    requires |parts| >= 1
    ensures forall c :: c in Join(parts, sep) ==> c == sep || exists i :: 0 <= i < |parts| && c in parts[i]
    decreases |parts|
  {
    if |parts| > 1 {
      JoinCharacters(parts[1..], sep);
      forall c | c in Join(parts, sep)
        ensures c == sep || exists i :: 0 <= i < |parts| && c in parts[i]
      {
        if c in parts[0] {
        } else if c != sep {
          assert c in Join(parts[1..], sep);
          var i :| 0 <= i < |parts[1..]| && c in parts[1..][i];
          assert c in parts[i + 1];
        }
      }
    }
  }
}
