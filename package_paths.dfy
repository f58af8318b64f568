/** Where packages live: the cache file names and directories and the
    download URLs of noir-libs/src/path.rs, and the older builders of
    src/path.rs (`Legacy…`). */
module PackagePaths {
  import opened Text
  import opened Paths

  const REGISTRY_URL := "http://localhost:3001/api/v1"

  /** `get_package_filename`: `<name>-<version>.archive`. */
  function PackageFilename(name: string, version: string): string
  {
    name + "-" + version + ".archive"
  }

  /** `get_cache_storage`: the archive file directly inside the cache root. */
  function CacheStorage(cacheRoot: Path, name: string, version: string): Path
  {
    PathJoin(cacheRoot, PackageFilename(name, version))
  }

  /** `get_package_dir` (the same in both generations):
      `<root>/<name>/<version>`. */
  function PackageDir(root: Path, name: string, version: string): Path
  {
    PathJoin(PathJoin(root, name), version)
  }

  /** `get_package_url`: `<registry>/packages/<name>/<version>/download`. */
  function PackageUrl(name: string, version: string): string
  {
    REGISTRY_URL + "/packages/" + name + "/" + version + "/download"
  }

  /** `get_package_latest_url`: `<registry>/packages/<name>/latest`. */
  function PackageLatestUrl(name: string): string
  {
    REGISTRY_URL + "/packages/" + name + "/latest"
  }

  /** The older `get_package_filename`: `<name>-<version>`. */
  function LegacyPackageFilename(name: string, version: string): string
  {
    name + "-" + version
  }

  /** The older `get_cache_storage`. */
  function LegacyCacheStorage(cacheRoot: Path, name: string, version: string): Path
  {
    PathJoin(cacheRoot, LegacyPackageFilename(name, version))
  }

  /** The older `get_package_url`:
      `<repository>/<name>/<version>/<name>-<version>`; the repository URL is
      a constant the shown sources do not define, so it is a parameter. */
  function LegacyPackageUrl(repositoryUrl: string, name: string, version: string): string
  {
    repositoryUrl + "/" + name + "/" + version + "/" + LegacyPackageFilename(name, version)
  }

  // ---------------------------------------------------------------------------

  /** For names and versions that are single components, the package
      directory is the root with exactly those two components added: its
      last two components give back the name and the version. */
  lemma PackageDirComponents(root: Path, name: string, version: string)
    requires IsSegment(name) && IsSegment(version)
    ensures PackageDir(root, name, version) == root + [name, version]
    ensures var d := PackageDir(root, name, version);
      |d| >= 2 && d[|d| - 2] == name && d[|d| - 1] == version
  {
    JoinSegment(root, name);
    JoinSegment(root + [name], version);
  }

  /** Different packages get different directories. */
  lemma PackageDirInjective(root: Path, n1: string, v1: string, n2: string, v2: string)
    requires IsSegment(n1) && IsSegment(v1) && IsSegment(n2) && IsSegment(v2)
    requires PackageDir(root, n1, v1) == PackageDir(root, n2, v2)
    ensures n1 == n2 && v1 == v2
  {
    PackageDirComponents(root, n1, v1);
    PackageDirComponents(root, n2, v2);
    var d := root + [n1, v1];
    assert d[|root|] == n1 && d[|root| + 1] == v1;
  }

  /** The archive file is one component directly under the cache root, and
      it is neither the package directory nor one of its ancestors, so
      extracting into the directory cannot overwrite it. */
  lemma CacheStorageBesidePackageDir(cacheRoot: Path, name: string, version: string)
    requires IsSegment(name) && IsSegment(version)
    ensures CacheStorage(cacheRoot, name, version) == cacheRoot + [PackageFilename(name, version)]
    ensures !PathStartsWith(PackageDir(cacheRoot, name, version), CacheStorage(cacheRoot, name, version))
    ensures !PathStartsWith(CacheStorage(cacheRoot, name, version), PackageDir(cacheRoot, name, version))
  {
    var f := PackageFilename(name, version);
    assert IsSegment(f) by {
      assert f[|name|] == '-';
      assert f == name + ("-" + version + ".archive");
      assert forall i :: 0 <= i < |f| ==> f[i] != '/' by {
        forall i | 0 <= i < |f|
          ensures f[i] != '/'
        {
          if i < |name| {
            assert f[i] == name[i];
          } else if |name| < i < |name| + 1 + |version| {
            assert f[i] == version[i - |name| - 1];
          }
        }
      }
    }
    JoinSegment(cacheRoot, f);
    PackageDirComponents(cacheRoot, name, version);
    var d := cacheRoot + [name, version];
    assert d[..|cacheRoot| + 1] == cacheRoot + [name];
    assert (cacheRoot + [f])[|cacheRoot|] == f;
  }

  /** The older archive file name is one component too. */
  lemma LegacyCacheStorageComponents(cacheRoot: Path, name: string, version: string)
    requires IsSegment(name) && IsSegment(version)
    ensures LegacyCacheStorage(cacheRoot, name, version) == cacheRoot + [LegacyPackageFilename(name, version)]
  {
    var f := LegacyPackageFilename(name, version);
    assert IsSegment(f) by {
      assert f[|name|] == '-';
      forall i | 0 <= i < |f|
        ensures f[i] != '/'
      {
        if i < |name| {
          assert f[i] == name[i];
        } else if i > |name| {
          assert f[i] == version[i - |name| - 1];
        }
      }
    }
    JoinSegment(cacheRoot, f);
  }

  /** `base/x/y/z` splits into the pieces of `base` followed by x, y, z. */
  lemma SplitAfterBase(base: string, xs: seq<string>)
    requires |xs| >= 1 && forall i :: 0 <= i < |xs| ==> '/' !in xs[i]
    ensures Split(base + "/" + Join(xs, '/'), '/') == Split(base, '/') + xs
  {
    SplitConcat(base, Join(xs, '/'), '/');
    JoinSplit(xs, '/');
  }

  /** `base/p/q/r`, written with `+`, splits into base's pieces and p, q, r. */
  lemma Segments3(base: string, p: string, q: string, r: string)
    requires '/' !in p && '/' !in q && '/' !in r
    ensures Split(base + "/" + p + "/" + q + "/" + r, '/') == Split(base, '/') + [p, q, r]
  {
    var xs := [p, q, r];
    assert base + "/" + p + "/" + q + "/" + r == base + "/" + Join(xs, '/') by {
      assert Join(xs[2..], '/') == r;
      assert Join(xs[1..], '/') == q + "/" + r;
    }
    SplitAfterBase(base, xs);
  }

  /** `base/p/q/r/t`, written with `+`, splits into base's pieces and p, q, r, t. */
  lemma Segments4(base: string, p: string, q: string, r: string, t: string)
    requires '/' !in p && '/' !in q && '/' !in r && '/' !in t
    ensures Split(base + "/" + p + "/" + q + "/" + r + "/" + t, '/') == Split(base, '/') + [p, q, r, t]
  {
    var xs := [p, q, r, t];
    assert base + "/" + p + "/" + q + "/" + r + "/" + t == base + "/" + Join(xs, '/') by {
      assert Join(xs[3..], '/') == t;
      assert Join(xs[2..], '/') == r + "/" + t;
      assert Join(xs[1..], '/') == q + "/" + r + "/" + t;
    }
    SplitAfterBase(base, xs);
  }

  lemma DownloadPathSegments(base: string, name: string, version: string)
    requires '/' !in name && '/' !in version
    ensures Split(base + "/packages/" + name + "/" + version + "/download", '/')
         == Split(base, '/') + ["packages", name, version, "download"]
  {
    Segments4(base, "packages", name, version, "download");
    var head := base + "/packages/";
    assert head == base + "/" + "packages" + "/";
    var body := head + name + "/" + version;
    assert body + "/download" == body + "/" + "download";
  }

  lemma LatestPathSegments(base: string, name: string)
    requires '/' !in name
    ensures Split(base + "/packages/" + name + "/latest", '/') == Split(base, '/') + ["packages", name, "latest"]
  {
    Segments3(base, "packages", name, "latest");
    var head := base + "/packages/";
    assert head == base + "/" + "packages" + "/";
    var body := head + name;
    assert body + "/latest" == body + "/" + "latest";
  }

  /** The '/'-separated pieces of the download URL end with `packages`, the
      name, the version and `download`: the registry can read the package
      back from the URL. */
  lemma PackageUrlSegments(name: string, version: string)
    requires '/' !in name && '/' !in version
    ensures Split(PackageUrl(name, version), '/') == Split(REGISTRY_URL, '/') + ["packages", name, version, "download"]
  {
    DownloadPathSegments(REGISTRY_URL, name, version);
  }

  /** The latest-version URL ends with `packages`, the name and `latest`. */
  lemma PackageLatestUrlSegments(name: string)
    requires '/' !in name
    ensures Split(PackageLatestUrl(name), '/') == Split(REGISTRY_URL, '/') + ["packages", name, "latest"]
  {
    LatestPathSegments(REGISTRY_URL, name);
  }

  /** The older URL ends with the name, the version and the file name. */
  lemma LegacyPackageUrlSegments(repositoryUrl: string, name: string, version: string)
    requires '/' !in name && '/' !in version
    ensures Split(LegacyPackageUrl(repositoryUrl, name, version), '/')
         == Split(repositoryUrl, '/') + [name, version, LegacyPackageFilename(name, version)]
  {
    var f := LegacyPackageFilename(name, version);
    assert '/' !in f by {
      forall i | 0 <= i < |f|
        ensures f[i] != '/'
      {
        if i < |name| {
          assert f[i] == name[i];
        } else if i > |name| {
          assert f[i] == version[i - |name| - 1];
        }
      }
    }
    assert LegacyPackageUrl(repositoryUrl, name, version) == repositoryUrl + ['/'] + (name + ['/'] + (version + ['/'] + f));
    SplitConcat(repositoryUrl, name + ['/'] + (version + ['/'] + f), '/');
    SplitConcat(name, version + ['/'] + f, '/');
    SplitConcat(version, f, '/');
    SplitNoSep(name, '/');
    SplitNoSep(version, '/');
    SplitNoSep(f, '/');
  }
}
