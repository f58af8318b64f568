/** Resolving a package into the cache: `add`, `store_package`,
    `get_to_cache` and `get_used_version` of noir-libs/src/ops/add.rs,
    `fetch` of noir-libs/src/ops/fetch.rs, and the older `add` of
    src/ops/add.rs (`Legacy…`).

    The registry is a function from requests to outcomes and the tar/gzip
    reader a function from archive bytes to what the archive holds, so the
    dependency graph a registry serves is fixed; the source keeps no visited
    set, and resolution terminates on a graph that has a rank decreasing
    along every dependency edge. */
module Resolver {
  import opened Wrappers
  import opened Text
  import opened Paths
  import opened FileSystem
  import opened Http
  import opened PackagePaths
  import opened Manifest
  import opened Network
  import opened Registry

  /** What an archive unpacks to, as far as resolution looks at it: the
      parsed manifest at its top, when it has one. */
  datatype Archive = Archive(manifest: Option<Document>)

  /** What resolution changes: the filesystem (the archives are downloaded
      into it), the package directories extracted so far with what each
      holds, and the URLs requested so far, in order. */
  datatype Cache = Cache(tree: Tree, unpacked: map<Path, Archive>, requests: seq<string>)

  const EXTRACT_ERROR := "Problem extracting package"
  const LATEST := "latest"

  // ---------------------------------------------------------------------------
  // One package

  /** `get_to_cache`: download `<root>/<name>-<version>.archive` from the
      package's download URL, then extract it into `<root>/<name>/<version>`.
      A download error is returned unchanged; an extraction error becomes
      "Problem extracting package". */
  function GetToCacheOn(c: Cache, root: Path, name: string, version: string, fetchYanked: bool,
                        server: Request -> HttpOutcome, unpack: seq<bv8> -> Option<Archive>): (Result<Path, string>, Cache)
  {
    var url := DownloadUrl(name, version, fetchYanked);
    var outcome := server(GetRequest(url));
    var (downloaded, tree) := DownloadOn(c.tree, CacheStorage(root, name, version), outcome);
    var c1 := c.(tree := tree, requests := c.requests + [url]);
    if downloaded.Err? then (Err(downloaded.error), c1)
    else
      match unpack(outcome.body.bytes)
      case None => (Err(EXTRACT_ERROR), c1)
      case Some(archive) =>
        var dir := PackageDir(root, name, version);
        (Ok(dir), c1.(unpacked := c1.unpacked[dir := archive]))
  }

  /** The sub-dependencies an outcome leads to: those listed by the manifest
      of the archive it carries, if any. */
  function DepsOfOutcome(outcome: HttpOutcome, unpack: seq<bv8> -> Option<Archive>): seq<(string, string)>
  {
    if outcome.Response? then
      match unpack(outcome.body.bytes)
      case Some(Archive(Some(doc))) => GetDependencies(doc)
      case _ => []
    else []
  }

  /** The sub-dependencies of a package as the registry serves it. */
  function DepsOf(server: Request -> HttpOutcome, unpack: seq<bv8> -> Option<Archive>, fetchYanked: bool,
                  name: string, version: string): seq<(string, string)>
  {
    DepsOfOutcome(server(GetRequest(DownloadUrl(name, version, fetchYanked))), unpack)
  }

  /** The registry's dependency graph has no cycle: `rank` decreases along
      every edge. */
  ghost predicate Acyclic(server: Request -> HttpOutcome, unpack: seq<bv8> -> Option<Archive>, fetchYanked: bool,
                    rank: (string, string) -> nat)
  {
    forall name, version, i :: 0 <= i < |DepsOf(server, unpack, fetchYanked, name, version)| ==>
      rank(DepsOf(server, unpack, fetchYanked, name, version)[i].0,
           DepsOf(server, unpack, fetchYanked, name, version)[i].1) < rank(name, version)
  }

  /** One request, for the package's download URL; success means a 2xx
      archive was written to the cache file and extracted into the package
      directory, which then holds what the archive holds. A failed download
      leaves the tree and the extracted packages as they were. */
  lemma GetToCacheSpec(c: Cache, root: Path, name: string, version: string, fetchYanked: bool,
                       server: Request -> HttpOutcome, unpack: seq<bv8> -> Option<Archive>)
    ensures var (r, c1) := GetToCacheOn(c, root, name, version, fetchYanked, server, unpack);
      var outcome := server(GetRequest(DownloadUrl(name, version, fetchYanked)));
      var storage := CacheStorage(root, name, version);
      && c1.requests == c.requests + [DownloadUrl(name, version, fetchYanked)]
      && (r.Ok? <==> && outcome.Response? && IsSuccess(outcome.status)
                     && CreateFile(c.tree, storage, outcome.body.bytes).Ok?
                     && unpack(outcome.body.bytes).Some?)
      && (r.Ok? ==> && r.value == PackageDir(root, name, version)
                    && IsFile(c1.tree, storage) && c1.tree[storage].data == outcome.body.bytes
                    && c1.unpacked == c.unpacked[PackageDir(root, name, version) := unpack(outcome.body.bytes).value]
                    && (c1.unpacked[r.value].manifest.None? ==> DepsOf(server, unpack, fetchYanked, name, version) == [])
                    && (c1.unpacked[r.value].manifest.Some? ==>
                          DepsOf(server, unpack, fetchYanked, name, version) == GetDependencies(c1.unpacked[r.value].manifest.value)))
      && (DownloadOn(c.tree, storage, outcome).0.Err? ==>
            r == Err(DownloadOn(c.tree, storage, outcome).0.error) && c1.tree == c.tree && c1.unpacked == c.unpacked)
      && (DownloadOn(c.tree, storage, outcome).0.Ok? && unpack(outcome.body.bytes).None? ==>
            r == Err(EXTRACT_ERROR) && c1.unpacked == c.unpacked)
  {
    DownloadSpec(c.tree, CacheStorage(root, name, version), server(GetRequest(DownloadUrl(name, version, fetchYanked))));
  }

  // ---------------------------------------------------------------------------
  // The traversal

  /** `store_package`: get the package into the cache, then, when the
      extracted package has a manifest, store each of its dependencies in
      manifest order; the first error aborts the rest. */
  function StoreOn(c: Cache, root: Path, name: string, version: string, fetchYanked: bool,
                   server: Request -> HttpOutcome, unpack: seq<bv8> -> Option<Archive>,
                   rank: (string, string) -> nat): (Result<(), string>, Cache)
    requires Acyclic(server, unpack, fetchYanked, rank)
    decreases rank(name, version) + 1, 0
  {
    var (got, c1) := GetToCacheOn(c, root, name, version, fetchYanked, server, unpack);
    if got.Err? then (Err(got.error), c1)
    else
      GetToCacheSpec(c, root, name, version, fetchYanked, server, unpack);
      match c1.unpacked[got.value].manifest
      case None => (Ok(()), c1)
      case Some(doc) => StoreAll(c1, root, GetDependencies(doc), rank(name, version), fetchYanked, server, unpack, rank)
  }

  /** The loop over the sub-dependencies, all of rank below `bound`. */
  function StoreAll(c: Cache, root: Path, deps: seq<(string, string)>, bound: nat, fetchYanked: bool,
                    server: Request -> HttpOutcome, unpack: seq<bv8> -> Option<Archive>,
                    rank: (string, string) -> nat): (Result<(), string>, Cache)
    requires Acyclic(server, unpack, fetchYanked, rank)
    requires forall i :: 0 <= i < |deps| ==> rank(deps[i].0, deps[i].1) < bound
    decreases bound, |deps|
  {
    if deps == [] then (Ok(()), c)
    else
      var (r, c1) := StoreOn(c, root, deps[0].0, deps[0].1, fetchYanked, server, unpack, rank);
      if r.Err? then (Err(r.error), c1)
      else StoreAll(c1, root, deps[1..], bound, fetchYanked, server, unpack, rank)
  }

  /** The package and, recursively, every dependency the registry lists for
      it have been extracted under `root`. */
  ghost predicate Installed(keys: set<Path>, root: Path, name: string, version: string, fetchYanked: bool,
                            server: Request -> HttpOutcome, unpack: seq<bv8> -> Option<Archive>,
                            rank: (string, string) -> nat)
    requires Acyclic(server, unpack, fetchYanked, rank)
    decreases rank(name, version)
  {
    var deps := DepsOf(server, unpack, fetchYanked, name, version);
    && PackageDir(root, name, version) in keys
    && forall i :: 0 <= i < |deps| ==> Installed(keys, root, deps[i].0, deps[i].1, fetchYanked, server, unpack, rank)
  }

  /** Requests are only ever appended, extracted packages only added, and
      directories never replaced. */
  ghost predicate Grows(c: Cache, c': Cache)
  {
    c.requests <= c'.requests && c.unpacked.Keys <= c'.unpacked.Keys && KeepsDirs(c.tree, c'.tree)
  }

  /** A download into the cache writes at most one file and keeps every
      directory. */
  lemma GetToCacheKeepsDirs(c: Cache, root: Path, name: string, version: string, fetchYanked: bool,
                            server: Request -> HttpOutcome, unpack: seq<bv8> -> Option<Archive>)
    ensures KeepsDirs(c.tree, GetToCacheOn(c, root, name, version, fetchYanked, server, unpack).1.tree)
  {
    var outcome := server(GetRequest(DownloadUrl(name, version, fetchYanked)));
    var storage := CacheStorage(root, name, version);
    if outcome.Response? && IsSuccess(outcome.status) && CreateFile(c.tree, storage, outcome.body.bytes).Ok? {
      CreateFileKeepsDirs(c.tree, storage, outcome.body.bytes);
    }
  }

  /** The older download keeps every directory too. */
  lemma LegacyGetToCacheKeepsDirs(c: Cache, root: Path, name: string, version: string, repositoryUrl: string,
                                  server: Request -> HttpOutcome, unpack: seq<bv8> -> Option<Archive>)
    ensures KeepsDirs(c.tree, LegacyGetToCacheOn(c, root, name, version, repositoryUrl, server, unpack).1.tree)
  {
    var outcome := server(GetRequest(LegacyPackageUrl(repositoryUrl, name, version)));
    var storage := LegacyCacheStorage(root, name, version);
    if outcome.Response? && CreateFile(c.tree, storage, outcome.body.bytes).Ok? {
      CreateFileKeepsDirs(c.tree, storage, outcome.body.bytes);
    }
  }

  lemma {:induction false} StoreGrows(c: Cache, root: Path, name: string, version: string, fetchYanked: bool,
                                      server: Request -> HttpOutcome, unpack: seq<bv8> -> Option<Archive>,
                                      rank: (string, string) -> nat)
    requires Acyclic(server, unpack, fetchYanked, rank)
    ensures Grows(c, StoreOn(c, root, name, version, fetchYanked, server, unpack, rank).1)
    decreases rank(name, version) + 1, 0
  {
    GetToCacheSpec(c, root, name, version, fetchYanked, server, unpack);
    GetToCacheKeepsDirs(c, root, name, version, fetchYanked, server, unpack);
    var (got, c1) := GetToCacheOn(c, root, name, version, fetchYanked, server, unpack);
    if got.Ok? && c1.unpacked[got.value].manifest.Some? {
      var deps := GetDependencies(c1.unpacked[got.value].manifest.value);
      StoreAllGrows(c1, root, deps, rank(name, version), fetchYanked, server, unpack, rank);
    }
  }

  lemma {:induction false} StoreAllGrows(c: Cache, root: Path, deps: seq<(string, string)>, bound: nat, fetchYanked: bool,
                                         server: Request -> HttpOutcome, unpack: seq<bv8> -> Option<Archive>,
                                         rank: (string, string) -> nat)
    requires Acyclic(server, unpack, fetchYanked, rank)
    requires forall i :: 0 <= i < |deps| ==> rank(deps[i].0, deps[i].1) < bound
    ensures Grows(c, StoreAll(c, root, deps, bound, fetchYanked, server, unpack, rank).1)
    decreases bound, |deps|
  {
    if deps != [] {
      StoreGrows(c, root, deps[0].0, deps[0].1, fetchYanked, server, unpack, rank);
      var (r, c1) := StoreOn(c, root, deps[0].0, deps[0].1, fetchYanked, server, unpack, rank);
      if r.Ok? {
        StoreAllGrows(c1, root, deps[1..], bound, fetchYanked, server, unpack, rank);
      }
    }
  }

  /** A package is requested before anything else its resolution asks for:
      the first new request is its own download URL. */
  lemma StoreRequestsPackageFirst(c: Cache, root: Path, name: string, version: string, fetchYanked: bool,
                                  server: Request -> HttpOutcome, unpack: seq<bv8> -> Option<Archive>,
                                  rank: (string, string) -> nat)
    requires Acyclic(server, unpack, fetchYanked, rank)
    ensures var c' := StoreOn(c, root, name, version, fetchYanked, server, unpack, rank).1;
      c.requests + [DownloadUrl(name, version, fetchYanked)] <= c'.requests
  {
    GetToCacheSpec(c, root, name, version, fetchYanked, server, unpack);
    var (got, c1) := GetToCacheOn(c, root, name, version, fetchYanked, server, unpack);
    if got.Ok? && c1.unpacked[got.value].manifest.Some? {
      var deps := GetDependencies(c1.unpacked[got.value].manifest.value);
      StoreAllGrows(c1, root, deps, rank(name, version), fetchYanked, server, unpack, rank);
    }
  }

  /** Extracted packages stay installed as more packages are extracted. */
  lemma {:induction false} InstalledMonotone(keys: set<Path>, keys': set<Path>, root: Path, name: string, version: string,
                                             fetchYanked: bool, server: Request -> HttpOutcome,
                                             unpack: seq<bv8> -> Option<Archive>, rank: (string, string) -> nat)
    requires Acyclic(server, unpack, fetchYanked, rank)
    requires keys <= keys' && Installed(keys, root, name, version, fetchYanked, server, unpack, rank)
    ensures Installed(keys', root, name, version, fetchYanked, server, unpack, rank)
    decreases rank(name, version)
  {
    var deps := DepsOf(server, unpack, fetchYanked, name, version);
    forall i | 0 <= i < |deps|
      ensures Installed(keys', root, deps[i].0, deps[i].1, fetchYanked, server, unpack, rank)
    {
      InstalledMonotone(keys, keys', root, deps[i].0, deps[i].1, fetchYanked, server, unpack, rank);
    }
  }

  /** On an acyclic registry, a successful `store_package` has extracted the
      package and every package reachable from it under the cache root. */
  lemma {:induction false} StoreInstalls(c: Cache, root: Path, name: string, version: string, fetchYanked: bool,
                                         server: Request -> HttpOutcome, unpack: seq<bv8> -> Option<Archive>,
                                         rank: (string, string) -> nat)
    requires Acyclic(server, unpack, fetchYanked, rank)
    requires StoreOn(c, root, name, version, fetchYanked, server, unpack, rank).0.Ok?
    ensures Installed(StoreOn(c, root, name, version, fetchYanked, server, unpack, rank).1.unpacked.Keys,
                      root, name, version, fetchYanked, server, unpack, rank)
    decreases rank(name, version) + 1, 0
  {
    GetToCacheSpec(c, root, name, version, fetchYanked, server, unpack);
    var (got, c1) := GetToCacheOn(c, root, name, version, fetchYanked, server, unpack);
    var c' := StoreOn(c, root, name, version, fetchYanked, server, unpack, rank).1;
    var deps := DepsOf(server, unpack, fetchYanked, name, version);
    if c1.unpacked[got.value].manifest.Some? {
      StoreAllInstalls(c1, root, deps, rank(name, version), fetchYanked, server, unpack, rank);
      StoreAllGrows(c1, root, deps, rank(name, version), fetchYanked, server, unpack, rank);
    }
    assert PackageDir(root, name, version) in c'.unpacked.Keys;
  }

  lemma {:induction false} StoreAllInstalls(c: Cache, root: Path, deps: seq<(string, string)>, bound: nat, fetchYanked: bool,
                                            server: Request -> HttpOutcome, unpack: seq<bv8> -> Option<Archive>,
                                            rank: (string, string) -> nat)
    requires Acyclic(server, unpack, fetchYanked, rank)
    requires forall i :: 0 <= i < |deps| ==> rank(deps[i].0, deps[i].1) < bound
    requires StoreAll(c, root, deps, bound, fetchYanked, server, unpack, rank).0.Ok?
    ensures forall i :: 0 <= i < |deps| ==>
      Installed(StoreAll(c, root, deps, bound, fetchYanked, server, unpack, rank).1.unpacked.Keys,
                root, deps[i].0, deps[i].1, fetchYanked, server, unpack, rank)
    decreases bound, |deps|
  {
    if deps != [] {
      StoreAllStep(c, root, deps, bound, fetchYanked, server, unpack, rank);
      var (r, c1) := StoreOn(c, root, deps[0].0, deps[0].1, fetchYanked, server, unpack, rank);
      var c' := StoreAll(c1, root, deps[1..], bound, fetchYanked, server, unpack, rank).1;
      StoreInstalls(c, root, deps[0].0, deps[0].1, fetchYanked, server, unpack, rank);
      StoreAllInstalls(c1, root, deps[1..], bound, fetchYanked, server, unpack, rank);
      StoreAllGrows(c1, root, deps[1..], bound, fetchYanked, server, unpack, rank);
      forall i | 1 <= i < |deps|
        ensures Installed(c'.unpacked.Keys, root, deps[i].0, deps[i].1, fetchYanked, server, unpack, rank)
      {
        assert deps[1..][i - 1] == deps[i];
      }
      InstalledCons(c1.unpacked.Keys, c'.unpacked.Keys, root, deps, fetchYanked, server, unpack, rank);
    }
  }

  /** The head installed in a smaller set and the tail installed in the
      larger one: the whole list is installed in the larger one. */
  lemma InstalledCons(keys: set<Path>, keys': set<Path>, root: Path, deps: seq<(string, string)>, fetchYanked: bool,
                      server: Request -> HttpOutcome, unpack: seq<bv8> -> Option<Archive>,
                      rank: (string, string) -> nat)
    requires Acyclic(server, unpack, fetchYanked, rank)
    requires deps != [] && keys <= keys'
    requires Installed(keys, root, deps[0].0, deps[0].1, fetchYanked, server, unpack, rank)
    requires forall i :: 1 <= i < |deps| ==> Installed(keys', root, deps[i].0, deps[i].1, fetchYanked, server, unpack, rank)
    ensures forall i :: 0 <= i < |deps| ==> Installed(keys', root, deps[i].0, deps[i].1, fetchYanked, server, unpack, rank)
  {
    forall i | 0 <= i < |deps|
      ensures Installed(keys', root, deps[i].0, deps[i].1, fetchYanked, server, unpack, rank)
    {
      if i == 0 {
        InstalledMonotone(keys, keys', root, deps[0].0, deps[0].1, fetchYanked, server, unpack, rank);
      }
    }
  }

  /** Storing `a + b` stores `a`, then, only if that succeeded, `b`. */
  lemma {:induction false} StoreAllAppend(c: Cache, root: Path, a: seq<(string, string)>, b: seq<(string, string)>,
                                          bound: nat, fetchYanked: bool, server: Request -> HttpOutcome,
                                          unpack: seq<bv8> -> Option<Archive>, rank: (string, string) -> nat)
    requires Acyclic(server, unpack, fetchYanked, rank)
    requires forall i :: 0 <= i < |a| ==> rank(a[i].0, a[i].1) < bound
    requires forall i :: 0 <= i < |b| ==> rank(b[i].0, b[i].1) < bound
    ensures forall i :: 0 <= i < |a + b| ==> rank((a + b)[i].0, (a + b)[i].1) < bound
    ensures var ra := StoreAll(c, root, a, bound, fetchYanked, server, unpack, rank);
      StoreAll(c, root, a + b, bound, fetchYanked, server, unpack, rank)
        == if ra.0.Err? then ra else StoreAll(ra.1, root, b, bound, fetchYanked, server, unpack, rank)
    decreases |a|
  {
    assert forall i :: 0 <= i < |a + b| ==> (a + b)[i] == if i < |a| then a[i] else b[i - |a|];
    if a != [] {
      assert (a + b)[0] == a[0];
      assert (a + b)[1..] == a[1..] + b;
      var (r, c1) := StoreOn(c, root, a[0].0, a[0].1, fetchYanked, server, unpack, rank);
      if r.Ok? {
        StoreAllAppend(c1, root, a[1..], b, bound, fetchYanked, server, unpack, rank);
      }
    } else {
      assert a + b == b;
    }
  }

  /** Every dependency before `i` was stored, and storing the one at `i`
      gives the overall result. */
  ghost predicate FailsFirstAt(c: Cache, root: Path, deps: seq<(string, string)>, bound: nat, i: nat, fetchYanked: bool,
                               server: Request -> HttpOutcome, unpack: seq<bv8> -> Option<Archive>,
                               rank: (string, string) -> nat)
    requires Acyclic(server, unpack, fetchYanked, rank)
    requires forall i :: 0 <= i < |deps| ==> rank(deps[i].0, deps[i].1) < bound
    requires i < |deps|
  {
    var before := StoreAll(c, root, deps[..i], bound, fetchYanked, server, unpack, rank);
    && before.0.Ok?
    && StoreOn(before.1, root, deps[i].0, deps[i].1, fetchYanked, server, unpack, rank)
       == StoreAll(c, root, deps, bound, fetchYanked, server, unpack, rank)
  }

  /** A failure first at `j` after a stored head is a failure first at
      `j + 1` of the whole list. */
  lemma FailsFirstAtCons(c: Cache, root: Path, deps: seq<(string, string)>, bound: nat, j: nat, fetchYanked: bool,
                         server: Request -> HttpOutcome, unpack: seq<bv8> -> Option<Archive>,
                         rank: (string, string) -> nat)
    requires Acyclic(server, unpack, fetchYanked, rank)
    requires forall i :: 0 <= i < |deps| ==> rank(deps[i].0, deps[i].1) < bound
    requires j + 1 < |deps|
    requires StoreOn(c, root, deps[0].0, deps[0].1, fetchYanked, server, unpack, rank).0.Ok?
    requires FailsFirstAt(StoreOn(c, root, deps[0].0, deps[0].1, fetchYanked, server, unpack, rank).1,
                          root, deps[1..], bound, j, fetchYanked, server, unpack, rank)
    ensures FailsFirstAt(c, root, deps, bound, j + 1, fetchYanked, server, unpack, rank)
  {
    var prefix := deps[..j + 1];
    assert prefix[0] == deps[0] && prefix[1..] == deps[1..][..j];
    assert deps[1..][j] == deps[j + 1];
    StoreAllStep(c, root, prefix, bound, fetchYanked, server, unpack, rank);
    StoreAllStep(c, root, deps, bound, fetchYanked, server, unpack, rank);
  }

  /** The first failing sub-dependency decides: every one before it was
      stored, it failed with the error returned, and nothing after it was
      attempted. */
  lemma {:induction false} StoreAllFirstError(c: Cache, root: Path, deps: seq<(string, string)>, bound: nat, fetchYanked: bool,
                                             server: Request -> HttpOutcome, unpack: seq<bv8> -> Option<Archive>,
                                             rank: (string, string) -> nat)
    requires Acyclic(server, unpack, fetchYanked, rank)
    requires forall i :: 0 <= i < |deps| ==> rank(deps[i].0, deps[i].1) < bound
    requires StoreAll(c, root, deps, bound, fetchYanked, server, unpack, rank).0.Err?
    ensures exists i :: 0 <= i < |deps| && FailsFirstAt(c, root, deps, bound, i, fetchYanked, server, unpack, rank)
    decreases |deps|
  {
    StoreAllStep(c, root, deps, bound, fetchYanked, server, unpack, rank);
    var (r, c1) := StoreOn(c, root, deps[0].0, deps[0].1, fetchYanked, server, unpack, rank);
    if r.Err? {
      assert deps[..0] == [];
      assert FailsFirstAt(c, root, deps, bound, 0, fetchYanked, server, unpack, rank);
    } else {
      StoreAllFirstError(c1, root, deps[1..], bound, fetchYanked, server, unpack, rank);
      var j :| 0 <= j < |deps[1..]| && FailsFirstAt(c1, root, deps[1..], bound, j, fetchYanked, server, unpack, rank);
      FailsFirstAtCons(c, root, deps, bound, j, fetchYanked, server, unpack, rank);
    }
  }

  // ---------------------------------------------------------------------------
  // Versions

  /** `get_used_version`: "latest" is asked of the registry; any other
      version is used as written. */
  function GetUsedVersion(name: string, version: string, server: Request -> HttpOutcome): Result<string, string>
  {
    if version == LATEST then GetLatestVersion(server(GetRequest(PackageLatestUrl(name))))
    else Ok(version)
  }

  /** A literal version is used as is, without asking the registry; "latest"
      is the registry's `latest_version`, when it has one. */
  lemma GetUsedVersionSpec(name: string, version: string, s1: Request -> HttpOutcome, s2: Request -> HttpOutcome)
    ensures version != LATEST ==> GetUsedVersion(name, version, s1) == Ok(version) == GetUsedVersion(name, version, s2)
    ensures version == LATEST ==>
      var outcome := s1(GetRequest(PackageLatestUrl(name)));
      && (GetUsedVersion(name, version, s1).Ok? <==>
            outcome.Response? && IsSuccess(outcome.status) && StringMember(outcome.body.json, "latest_version").Some?)
      && (GetUsedVersion(name, version, s1).Ok? ==>
            GetUsedVersion(name, version, s1).value == StringMember(outcome.body.json, "latest_version").value)
  {
    GetLatestVersionSpec(s1(GetRequest(PackageLatestUrl(name))));
  }

  // ---------------------------------------------------------------------------
  // `add`

  /** How `add` ends: it returns its `Result`, or it panics with a message. */
  datatype AddExit = Returned(result: Result<string, string>) | AddPanicked(message: string)

  /** `add`: make sure the cache root is a directory (`prepare_cache_dir`,
      which panics when it cannot), resolve the version, store the package
      with its dependencies (yanked versions refused), and only then point
      the nearest manifest's entry at `<cache root>/<name>/<version>`.
      Without a manifest to write, or with a `dependencies` value that
      cannot be indexed, the write panics after the store. */
  function AddOn(c: Cache, docs: map<Path, Document>, cacheRoot: Path, pwd: Path, name: string, version: string,
                 server: Request -> HttpOutcome, unpack: seq<bv8> -> Option<Archive>,
                 rank: (string, string) -> nat): (AddExit, Cache, map<Path, Document>)
    requires Acyclic(server, unpack, false, rank)
  {
    var (prepared, tree) := EnsureDirOn(c.tree, cacheRoot);
    if prepared.Err? then (AddPanicked(CACHE_SETUP_PANIC), c, docs)
    else
      var c0 := c.(tree := tree);
      match GetUsedVersion(name, version, server)
      case Err(e) => (Returned(Err(e)), c0, docs)
      case Ok(used) =>
        var (stored, c1) := StoreOn(c0, cacheRoot, name, used, false, server, unpack, rank);
        if stored.Err? then (Returned(Err(stored.error)), c1, docs)
        else match NearestManifest(pwd, docs.Keys)
          case None => (AddPanicked(READ_PANIC), c1, docs)
          case Some(m) =>
            var (written, docs1) := WriteOn(docs, m, name, Render(PackageDir(cacheRoot, name, used)));
            if written.Err? then (AddPanicked(written.error), c1, docs1) else (Returned(Ok(used)), c1, docs1)
  }

  /** The cache root is prepared first: when no file lies on its path (a
      fresh machine included) it becomes a directory and stays one; when it
      cannot be prepared `add` panics before anything else. The manifest
      changes only after the package and all it depends on are in the cache,
      and then only the nearest manifest, whose entry for the package records
      the cache directory of the version returned. A missing manifest or a
      `dependencies` value that cannot be indexed panics with the whole tree
      already in the cache, and no manifest changes. */
  lemma AddSpec(c: Cache, docs: map<Path, Document>, cacheRoot: Path, pwd: Path, name: string, version: string,
                server: Request -> HttpOutcome, unpack: seq<bv8> -> Option<Archive>, rank: (string, string) -> nat)
    requires Acyclic(server, unpack, false, rank)
    ensures var (x, c', docs') := AddOn(c, docs, cacheRoot, pwd, name, version, server, unpack, rank);
      var (prepared, tree0) := EnsureDirOn(c.tree, cacheRoot);
      var c0 := c.(tree := tree0);
      var used := GetUsedVersion(name, version, server);
      var found := NearestManifest(pwd, docs.Keys);
      && (NoFileOnPath(c.tree, cacheRoot) ==> prepared.Ok?)
      && (prepared.Err? ==> x == AddPanicked(CACHE_SETUP_PANIC) && c' == c && docs' == docs)
      && (prepared.Ok? ==> IsDir(c'.tree, cacheRoot))
      && (!(x.Returned? && x.result.Ok?) ==> docs' == docs)
      && (prepared.Ok? && used.Ok? && StoreOn(c0, cacheRoot, name, used.value, false, server, unpack, rank).0.Ok? ==>
            && Installed(c'.unpacked.Keys, cacheRoot, name, used.value, false, server, unpack, rank)
            && (found.None? ==> x == AddPanicked(READ_PANIC))
            && (found.Some? && !CanIndexDependencies(docs[found.value]) ==> x == AddPanicked(INDEX_PANIC)))
      && (x.Returned? && x.result.Ok? ==>
            && used == Ok(x.result.value)
            && found.Some?
            && docs'.Keys == docs.Keys
            && (forall p :: p in docs && p != found.value ==> docs'[p] == docs[p])
            && DependencyEntries(docs'[found.value]).Some?
            && Lookup(DependencyEntries(docs'[found.value]).value, name)
               == Some(DepEntry(Render(PackageDir(cacheRoot, name, x.result.value)))))
  {
    EnsureDirOnSucceeds(c.tree, cacheRoot);
    var (prepared, tree0) := EnsureDirOn(c.tree, cacheRoot);
    var c0 := c.(tree := tree0);
    var used := GetUsedVersion(name, version, server);
    if prepared.Ok? && used.Ok? {
      var path := Render(PackageDir(cacheRoot, name, used.value));
      StoreGrows(c0, cacheRoot, name, used.value, false, server, unpack, rank);
      if StoreOn(c0, cacheRoot, name, used.value, false, server, unpack, rank).0.Ok? {
        StoreInstalls(c0, cacheRoot, name, used.value, false, server, unpack, rank);
      }
      var found := NearestManifest(pwd, docs.Keys);
      if found.Some? {
        WriteSpec(docs, found.value, name, path);
      }
    }
  }

  // ---------------------------------------------------------------------------
  // `fetch`

  /** `fetch`'s reading of a path dependency: the version is the last
      component and the name the one before it. `Path::file_name` has no
      answer for a path without two such components, which panics. */
  function DepPathParts(path: string): Option<(string, string)>
  {
    var cs := Components(path);
    if |cs| >= 2 && cs[|cs| - 1] != ".." && cs[|cs| - 2] != ".." then Some((cs[|cs| - 2], cs[|cs| - 1]))
    else None
  }

  /** Every path dependency can be read as a name and a version. */
  predicate PathDepsReadable(deps: seq<(string, Dependency)>)
  {
    forall i :: 0 <= i < |deps| && deps[i].1.PathDep? ==> DepPathParts(deps[i].1.path).Some?
  }

  /** The entry `add` writes is read back by `fetch` as the same package:
      the last two components of the cache directory are its name and
      version. */
  lemma AddedPathIsFetched(cacheRoot: Path, name: string, version: string)
    requires AllSegments(cacheRoot) && IsSegment(name) && IsSegment(version)
    ensures DepPathParts(Render(PackageDir(cacheRoot, name, version))) == Some((name, version))
  {
    PackageDirComponents(cacheRoot, name, version);
    assert AllSegments(cacheRoot + [name, version]) by {
      var p := cacheRoot + [name, version];
      forall i | 0 <= i < |p|
        ensures IsSegment(p[i])
      {
        if i < |cacheRoot| {
          assert p[i] == cacheRoot[i];
        }
      }
    }
    RenderComponents(cacheRoot + [name, version]);
  }

  /** The loop of `fetch`: git dependencies are skipped; each path
      dependency is stored with yanked versions allowed, and a failure is
      reported and passed over. */
  function FetchAll(c: Cache, root: Path, deps: seq<(string, Dependency)>,
                    server: Request -> HttpOutcome, unpack: seq<bv8> -> Option<Archive>,
                    rank: (string, string) -> nat): Cache
    requires Acyclic(server, unpack, true, rank)
    requires PathDepsReadable(deps)
    decreases |deps|
  {
    if deps == [] then c
    else
      match deps[0].1
      case Git(_) => FetchAll(c, root, deps[1..], server, unpack, rank)
      case PathDep(path) =>
        var (name, version) := DepPathParts(path).value;
        FetchAll(StoreOn(c, root, name, version, true, server, unpack, rank).1, root, deps[1..], server, unpack, rank)
  }

  /** One turn of the `fetch` loop. */
  lemma FetchAllStep(c: Cache, root: Path, deps: seq<(string, Dependency)>,
                     server: Request -> HttpOutcome, unpack: seq<bv8> -> Option<Archive>,
                     rank: (string, string) -> nat)
    requires Acyclic(server, unpack, true, rank)
    requires PathDepsReadable(deps) && deps != []
    ensures PathDepsReadable(deps[1..])
    ensures deps[0].1.PathDep? ==> DepPathParts(deps[0].1.path).Some?
    ensures FetchAll(c, root, deps, server, unpack, rank)
      == if deps[0].1.Git? then FetchAll(c, root, deps[1..], server, unpack, rank)
         else FetchAll(StoreOn(c, root, DepPathParts(deps[0].1.path).value.0, DepPathParts(deps[0].1.path).value.1,
                               true, server, unpack, rank).1, root, deps[1..], server, unpack, rank)
  {
    forall i | 0 <= i < |deps[1..]| && deps[1..][i].1.PathDep?
      ensures DepPathParts(deps[1..][i].1.path).Some?
    {
      assert deps[1..][i] == deps[i + 1];
    }
  }

  /** Every path dependency is requested, with yanked versions allowed, even
      when one before it failed. */
  lemma {:induction false} FetchRequestsEveryPathDep(c: Cache, root: Path, deps: seq<(string, Dependency)>,
                                                     server: Request -> HttpOutcome, unpack: seq<bv8> -> Option<Archive>,
                                                     rank: (string, string) -> nat)
    requires Acyclic(server, unpack, true, rank)
    requires PathDepsReadable(deps)
    ensures c.requests <= FetchAll(c, root, deps, server, unpack, rank).requests
    ensures forall i :: 0 <= i < |deps| && deps[i].1.PathDep? ==>
      var (name, version) := DepPathParts(deps[i].1.path).value;
      DownloadUrl(name, version, true) in FetchAll(c, root, deps, server, unpack, rank).requests
    decreases |deps|
  {
    if deps != [] {
      var c1 := if deps[0].1.Git? then c
                else StoreOn(c, root, DepPathParts(deps[0].1.path).value.0, DepPathParts(deps[0].1.path).value.1,
                             true, server, unpack, rank).1;
      assert PathDepsReadable(deps[1..]) by {
        forall i | 0 <= i < |deps[1..]| && deps[1..][i].1.PathDep?
          ensures DepPathParts(deps[1..][i].1.path).Some?
        {
          assert deps[1..][i] == deps[i + 1];
        }
      }
      FetchRequestsEveryPathDep(c1, root, deps[1..], server, unpack, rank);
      var c' := FetchAll(c, root, deps, server, unpack, rank);
      assert c' == FetchAll(c1, root, deps[1..], server, unpack, rank);
      if deps[0].1.PathDep? {
        var (name, version) := DepPathParts(deps[0].1.path).value;
        StoreRequestsPackageFirst(c, root, name, version, true, server, unpack, rank);
        assert c'.requests[|c.requests|] == DownloadUrl(name, version, true);
      }
      forall i | 1 <= i < |deps| && deps[i].1.PathDep?
        ensures var (name, version) := DepPathParts(deps[i].1.path).value;
          DownloadUrl(name, version, true) in c'.requests
      {
        assert deps[1..][i - 1] == deps[i];
      }
    }
  }

  /** The table keys play no part: only the dependency values are read. */
  lemma {:induction false} FetchIgnoresKeys(c: Cache, root: Path, deps: seq<(string, Dependency)>,
                                            deps': seq<(string, Dependency)>,
                                            server: Request -> HttpOutcome, unpack: seq<bv8> -> Option<Archive>,
                                            rank: (string, string) -> nat)
    requires Acyclic(server, unpack, true, rank)
    requires PathDepsReadable(deps)
    requires |deps| == |deps'| && forall i :: 0 <= i < |deps| ==> deps[i].1 == deps'[i].1
    ensures PathDepsReadable(deps')
    ensures FetchAll(c, root, deps, server, unpack, rank) == FetchAll(c, root, deps', server, unpack, rank)
    decreases |deps|
  {
    assert PathDepsReadable(deps') by {
      forall i | 0 <= i < |deps'| && deps'[i].1.PathDep?
        ensures DepPathParts(deps'[i].1.path).Some?
      {
        assert deps[i].1 == deps'[i].1;
      }
    }
    if deps != [] {
      var c1 := if deps[0].1.Git? then c
                else StoreOn(c, root, DepPathParts(deps[0].1.path).value.0, DepPathParts(deps[0].1.path).value.1,
                             true, server, unpack, rank).1;
      assert PathDepsReadable(deps[1..]) by {
        forall i | 0 <= i < |deps[1..]| && deps[1..][i].1.PathDep?
          ensures DepPathParts(deps[1..][i].1.path).Some?
        {
          assert deps[1..][i] == deps[i + 1];
        }
      }
      assert forall i :: 0 <= i < |deps| - 1 ==> deps[1..][i].1 == deps'[1..][i].1 by {
        forall i | 0 <= i < |deps| - 1
          ensures deps[1..][i].1 == deps'[1..][i].1
        {
          assert deps[1..][i] == deps[i + 1] && deps'[1..][i] == deps'[i + 1];
        }
      }
      FetchIgnoresKeys(c1, root, deps[1..], deps'[1..], server, unpack, rank);
    }
  }

  // ---------------------------------------------------------------------------
  // The older `add` (src/ops/add.rs)

  /** How an older operation ends: normally, or by a panic with its
      message (which aborts the whole command). */
  datatype Outcome = Completed | Panicked(message: string)

  const SEND_PANIC := "Failed to send request"
  const CREATE_PANIC := "Failed to create file"

  /** The older `get_to_cache`: download from the repository into
      `<root>/<name>-<version>`, writing the body whatever the status, then
      extract into `<root>/<name>/<version>`. Each failure panics. */
  function LegacyGetToCacheOn(c: Cache, root: Path, name: string, version: string, repositoryUrl: string,
                              server: Request -> HttpOutcome, unpack: seq<bv8> -> Option<Archive>): (Outcome, Cache)
  {
    var url := LegacyPackageUrl(repositoryUrl, name, version);
    var c1 := c.(requests := c.requests + [url]);
    match server(GetRequest(url))
    case Transport(_) => (Panicked(SEND_PANIC), c1)
    case Response(_, _, body) =>
      match CreateFile(c.tree, LegacyCacheStorage(root, name, version), body.bytes)
      case Err(_) => (Panicked(CREATE_PANIC), c1)
      case Ok(tree) =>
        match unpack(body.bytes)
        case None => (Panicked(EXTRACT_ERROR), c1.(tree := tree))
        case Some(archive) =>
          (Completed, c1.(tree := tree, unpacked := c1.unpacked[PackageDir(root, name, version) := archive]))
  }

  /** The sub-dependencies of a package as the repository serves it. */
  function LegacyDepsOf(server: Request -> HttpOutcome, unpack: seq<bv8> -> Option<Archive>, repositoryUrl: string,
                        name: string, version: string): seq<(string, string)>
  {
    DepsOfOutcome(server(GetRequest(LegacyPackageUrl(repositoryUrl, name, version))), unpack)
  }

  ghost predicate LegacyAcyclic(server: Request -> HttpOutcome, unpack: seq<bv8> -> Option<Archive>, repositoryUrl: string,
                                rank: (string, string) -> nat)
  {
    forall name, version, i :: 0 <= i < |LegacyDepsOf(server, unpack, repositoryUrl, name, version)| ==>
      rank(LegacyDepsOf(server, unpack, repositoryUrl, name, version)[i].0,
           LegacyDepsOf(server, unpack, repositoryUrl, name, version)[i].1) < rank(name, version)
  }

  /** A completed older download-and-extract has extracted the package under
      `root`, with what the repository's archive holds. */
  lemma LegacyGetToCacheSpec(c: Cache, root: Path, name: string, version: string, repositoryUrl: string,
                             server: Request -> HttpOutcome, unpack: seq<bv8> -> Option<Archive>)
    ensures var (o, c1) := LegacyGetToCacheOn(c, root, name, version, repositoryUrl, server, unpack);
      var outcome := server(GetRequest(LegacyPackageUrl(repositoryUrl, name, version)));
      var dir := PackageDir(root, name, version);
      && c1.requests == c.requests + [LegacyPackageUrl(repositoryUrl, name, version)]
      && (o == Completed <==>
            outcome.Response?
            && CreateFile(c.tree, LegacyCacheStorage(root, name, version), outcome.body.bytes).Ok?
            && unpack(outcome.body.bytes).Some?)
      && (o.Panicked? ==> c1.unpacked == c.unpacked)
      && (o == Completed ==>
            && c1.unpacked == c.unpacked[dir := unpack(outcome.body.bytes).value]
            && (c1.unpacked[dir].manifest.None? ==> LegacyDepsOf(server, unpack, repositoryUrl, name, version) == [])
            && (c1.unpacked[dir].manifest.Some? ==>
                  LegacyDepsOf(server, unpack, repositoryUrl, name, version) == GetDependencies(c1.unpacked[dir].manifest.value)))
  {
  }

  /** The older `store_package`, as written: the recursive call passes the
      project directory as the cache root and the cache root as the project
      directory. A panic anywhere ends everything. */
  function LegacyStoreOn(c: Cache, cacheRoot: Path, projectDir: Path, name: string, version: string, repositoryUrl: string,
                         server: Request -> HttpOutcome, unpack: seq<bv8> -> Option<Archive>,
                         rank: (string, string) -> nat): (Outcome, Cache)
    requires LegacyAcyclic(server, unpack, repositoryUrl, rank)
    decreases rank(name, version) + 1, 0
  {
    var (o, c1) := LegacyGetToCacheOn(c, cacheRoot, name, version, repositoryUrl, server, unpack);
    if o.Panicked? then (o, c1)
    else
      LegacyGetToCacheSpec(c, cacheRoot, name, version, repositoryUrl, server, unpack);
      match c1.unpacked[PackageDir(cacheRoot, name, version)].manifest
      case None => (Completed, c1)
      case Some(doc) =>
        LegacyStoreAll(c1, projectDir, cacheRoot, GetDependencies(doc), rank(name, version), repositoryUrl, server, unpack, rank)
  }

  function LegacyStoreAll(c: Cache, cacheRoot: Path, projectDir: Path, deps: seq<(string, string)>, bound: nat,
                          repositoryUrl: string, server: Request -> HttpOutcome, unpack: seq<bv8> -> Option<Archive>,
                          rank: (string, string) -> nat): (Outcome, Cache)
    requires LegacyAcyclic(server, unpack, repositoryUrl, rank)
    requires forall i :: 0 <= i < |deps| ==> rank(deps[i].0, deps[i].1) < bound
    decreases bound, |deps|
  {
    if deps == [] then (Completed, c)
    else
      var (o, c1) := LegacyStoreOn(c, cacheRoot, projectDir, deps[0].0, deps[0].1, repositoryUrl, server, unpack, rank);
      if o.Panicked? then (o, c1)
      else LegacyStoreAll(c1, cacheRoot, projectDir, deps[1..], bound, repositoryUrl, server, unpack, rank)
  }

  /** Where the older traversal puts things: the package under `root`, its
      dependencies under `other`, theirs under `root` again, and so on. */
  ghost predicate LegacyInstalled(keys: set<Path>, root: Path, other: Path, name: string, version: string,
                                  repositoryUrl: string, server: Request -> HttpOutcome,
                                  unpack: seq<bv8> -> Option<Archive>, rank: (string, string) -> nat)
    requires LegacyAcyclic(server, unpack, repositoryUrl, rank)
    decreases rank(name, version)
  {
    var deps := LegacyDepsOf(server, unpack, repositoryUrl, name, version);
    && PackageDir(root, name, version) in keys
    && forall i :: 0 <= i < |deps| ==>
         LegacyInstalled(keys, other, root, deps[i].0, deps[i].1, repositoryUrl, server, unpack, rank)
  }

  lemma {:induction false} LegacyStoreGrows(c: Cache, cacheRoot: Path, projectDir: Path, name: string, version: string,
                                            repositoryUrl: string, server: Request -> HttpOutcome,
                                            unpack: seq<bv8> -> Option<Archive>, rank: (string, string) -> nat)
    requires LegacyAcyclic(server, unpack, repositoryUrl, rank)
    ensures Grows(c, LegacyStoreOn(c, cacheRoot, projectDir, name, version, repositoryUrl, server, unpack, rank).1)
    decreases rank(name, version) + 1, 0
  {
    LegacyGetToCacheSpec(c, cacheRoot, name, version, repositoryUrl, server, unpack);
    LegacyGetToCacheKeepsDirs(c, cacheRoot, name, version, repositoryUrl, server, unpack);
    var (o, c1) := LegacyGetToCacheOn(c, cacheRoot, name, version, repositoryUrl, server, unpack);
    if o == Completed && c1.unpacked[PackageDir(cacheRoot, name, version)].manifest.Some? {
      var deps := GetDependencies(c1.unpacked[PackageDir(cacheRoot, name, version)].manifest.value);
      LegacyStoreAllGrows(c1, projectDir, cacheRoot, deps, rank(name, version), repositoryUrl, server, unpack, rank);
    }
  }

  lemma {:induction false} LegacyStoreAllGrows(c: Cache, cacheRoot: Path, projectDir: Path, deps: seq<(string, string)>,
                                               bound: nat, repositoryUrl: string, server: Request -> HttpOutcome,
                                               unpack: seq<bv8> -> Option<Archive>, rank: (string, string) -> nat)
    requires LegacyAcyclic(server, unpack, repositoryUrl, rank)
    requires forall i :: 0 <= i < |deps| ==> rank(deps[i].0, deps[i].1) < bound
    ensures Grows(c, LegacyStoreAll(c, cacheRoot, projectDir, deps, bound, repositoryUrl, server, unpack, rank).1)
    decreases bound, |deps|
  {
    if deps != [] {
      LegacyStoreGrows(c, cacheRoot, projectDir, deps[0].0, deps[0].1, repositoryUrl, server, unpack, rank);
      var (o, c1) := LegacyStoreOn(c, cacheRoot, projectDir, deps[0].0, deps[0].1, repositoryUrl, server, unpack, rank);
      if o == Completed {
        LegacyStoreAllGrows(c1, cacheRoot, projectDir, deps[1..], bound, repositoryUrl, server, unpack, rank);
      }
    }
  }

  lemma {:induction false} LegacyInstalledMonotone(keys: set<Path>, keys': set<Path>, root: Path, other: Path,
                                                   name: string, version: string, repositoryUrl: string,
                                                   server: Request -> HttpOutcome, unpack: seq<bv8> -> Option<Archive>,
                                                   rank: (string, string) -> nat)
    requires LegacyAcyclic(server, unpack, repositoryUrl, rank)
    requires keys <= keys' && LegacyInstalled(keys, root, other, name, version, repositoryUrl, server, unpack, rank)
    ensures LegacyInstalled(keys', root, other, name, version, repositoryUrl, server, unpack, rank)
    decreases rank(name, version)
  {
    var deps := LegacyDepsOf(server, unpack, repositoryUrl, name, version);
    forall i | 0 <= i < |deps|
      ensures LegacyInstalled(keys', other, root, deps[i].0, deps[i].1, repositoryUrl, server, unpack, rank)
    {
      LegacyInstalledMonotone(keys, keys', other, root, deps[i].0, deps[i].1, repositoryUrl, server, unpack, rank);
    }
  }

  /** A completed older traversal has extracted the package under the cache
      root and its dependencies alternately under the project directory and
      the cache root, level by level. */
  lemma {:induction false} LegacyStoreInstalls(c: Cache, cacheRoot: Path, projectDir: Path, name: string, version: string,
                                               repositoryUrl: string, server: Request -> HttpOutcome,
                                               unpack: seq<bv8> -> Option<Archive>, rank: (string, string) -> nat)
    requires LegacyAcyclic(server, unpack, repositoryUrl, rank)
    requires LegacyStoreOn(c, cacheRoot, projectDir, name, version, repositoryUrl, server, unpack, rank).0 == Completed
    ensures LegacyInstalled(LegacyStoreOn(c, cacheRoot, projectDir, name, version, repositoryUrl, server, unpack, rank).1.unpacked.Keys,
                            cacheRoot, projectDir, name, version, repositoryUrl, server, unpack, rank)
    decreases rank(name, version) + 1, 0
  {
    LegacyGetToCacheSpec(c, cacheRoot, name, version, repositoryUrl, server, unpack);
    var (o, c1) := LegacyGetToCacheOn(c, cacheRoot, name, version, repositoryUrl, server, unpack);
    var c' := LegacyStoreOn(c, cacheRoot, projectDir, name, version, repositoryUrl, server, unpack, rank).1;
    var deps := LegacyDepsOf(server, unpack, repositoryUrl, name, version);
    if c1.unpacked[PackageDir(cacheRoot, name, version)].manifest.Some? {
      LegacyStoreAllInstalls(c1, projectDir, cacheRoot, deps, rank(name, version), repositoryUrl, server, unpack, rank);
      LegacyStoreAllGrows(c1, projectDir, cacheRoot, deps, rank(name, version), repositoryUrl, server, unpack, rank);
    }
    assert PackageDir(cacheRoot, name, version) in c'.unpacked.Keys;
  }

  lemma {:induction false} LegacyStoreAllInstalls(c: Cache, cacheRoot: Path, projectDir: Path, deps: seq<(string, string)>,
                                                  bound: nat, repositoryUrl: string, server: Request -> HttpOutcome,
                                                  unpack: seq<bv8> -> Option<Archive>, rank: (string, string) -> nat)
    requires LegacyAcyclic(server, unpack, repositoryUrl, rank)
    requires forall i :: 0 <= i < |deps| ==> rank(deps[i].0, deps[i].1) < bound
    requires LegacyStoreAll(c, cacheRoot, projectDir, deps, bound, repositoryUrl, server, unpack, rank).0 == Completed
    ensures forall i :: 0 <= i < |deps| ==>
      LegacyInstalled(LegacyStoreAll(c, cacheRoot, projectDir, deps, bound, repositoryUrl, server, unpack, rank).1.unpacked.Keys,
                      cacheRoot, projectDir, deps[i].0, deps[i].1, repositoryUrl, server, unpack, rank)
    decreases bound, |deps|
  {
    if deps != [] {
      var (o, c1) := LegacyStoreOn(c, cacheRoot, projectDir, deps[0].0, deps[0].1, repositoryUrl, server, unpack, rank);
      var c' := LegacyStoreAll(c, cacheRoot, projectDir, deps, bound, repositoryUrl, server, unpack, rank).1;
      LegacyStoreInstalls(c, cacheRoot, projectDir, deps[0].0, deps[0].1, repositoryUrl, server, unpack, rank);
      LegacyStoreAllInstalls(c1, cacheRoot, projectDir, deps[1..], bound, repositoryUrl, server, unpack, rank);
      LegacyStoreAllGrows(c1, cacheRoot, projectDir, deps[1..], bound, repositoryUrl, server, unpack, rank);
      LegacyInstalledMonotone(c1.unpacked.Keys, c'.unpacked.Keys, cacheRoot, projectDir, deps[0].0, deps[0].1,
                              repositoryUrl, server, unpack, rank);
      forall i | 1 <= i < |deps|
        ensures LegacyInstalled(c'.unpacked.Keys, cacheRoot, projectDir, deps[i].0, deps[i].1, repositoryUrl, server, unpack, rank)
      {
        assert deps[1..][i - 1] == deps[i];
      }
    }
  }

  /** The older traversal, as written, extracts a direct sub-dependency
      under the project directory, not the cache, and a dependency two
      levels down under the cache root again. */
  lemma LegacySubDependencyUnderProject(c: Cache, cacheRoot: Path, projectDir: Path, name: string, version: string,
                                        repositoryUrl: string, server: Request -> HttpOutcome,
                                        unpack: seq<bv8> -> Option<Archive>, rank: (string, string) -> nat, i: nat, j: nat)
    requires LegacyAcyclic(server, unpack, repositoryUrl, rank)
    requires LegacyStoreOn(c, cacheRoot, projectDir, name, version, repositoryUrl, server, unpack, rank).0 == Completed
    requires i < |LegacyDepsOf(server, unpack, repositoryUrl, name, version)|
    ensures var keys := LegacyStoreOn(c, cacheRoot, projectDir, name, version, repositoryUrl, server, unpack, rank).1.unpacked.Keys;
      var d := LegacyDepsOf(server, unpack, repositoryUrl, name, version)[i];
      && PackageDir(projectDir, d.0, d.1) in keys
      && (j < |LegacyDepsOf(server, unpack, repositoryUrl, d.0, d.1)| ==>
            var e := LegacyDepsOf(server, unpack, repositoryUrl, d.0, d.1)[j];
            PackageDir(cacheRoot, e.0, e.1) in keys)
  {
    LegacyStoreInstalls(c, cacheRoot, projectDir, name, version, repositoryUrl, server, unpack, rank);
    var keys := LegacyStoreOn(c, cacheRoot, projectDir, name, version, repositoryUrl, server, unpack, rank).1.unpacked.Keys;
    var d := LegacyDepsOf(server, unpack, repositoryUrl, name, version)[i];
    assert LegacyInstalled(keys, projectDir, cacheRoot, d.0, d.1, repositoryUrl, server, unpack, rank);
    if j < |LegacyDepsOf(server, unpack, repositoryUrl, d.0, d.1)| {
      var e := LegacyDepsOf(server, unpack, repositoryUrl, d.0, d.1)[j];
      assert LegacyInstalled(keys, cacheRoot, projectDir, e.0, e.1, repositoryUrl, server, unpack, rank);
    }
  }

  /** The older `add`: store the package as given (no "latest" resolution),
      then record `<cache root>/<name>/<version>` in the nearest manifest. A
      panic while storing leaves the manifests unwritten; the manifest side
      panics only after the whole tree is in the cache. */
  function LegacyAddOn(c: Cache, docs: map<Path, Document>, cacheRoot: Path, pwd: Path, name: string, version: string,
                       repositoryUrl: string, server: Request -> HttpOutcome, unpack: seq<bv8> -> Option<Archive>,
                       rank: (string, string) -> nat): (Outcome, Cache, map<Path, Document>)
    requires LegacyAcyclic(server, unpack, repositoryUrl, rank)
  {
    var (prepared, tree) := EnsureDirOn(c.tree, cacheRoot);
    if prepared.Err? then (Panicked(CACHE_SETUP_PANIC), c, docs)
    else
      var (o, c1) := LegacyStoreOn(c.(tree := tree), cacheRoot, pwd, name, version, repositoryUrl, server, unpack, rank);
      if o.Panicked? then (o, c1, docs)
      else
        var (written, docs1) := LegacyWriteOn(docs, pwd, name, Render(PackageDir(cacheRoot, name, version)));
        if written.Err? then (Panicked(written.error), c1, docs1) else (Completed, c1, docs1)
  }

  /** The older `add` prepares the cache root as the current one does, then
      asks the repository for exactly the version it was given, "latest"
      included. The cache is that of the store whatever happens afterwards; a missing manifest or a `dependencies` value that
      cannot be indexed panics after the store completed, and any panic
      leaves the manifests alone. On completion the package is extracted and
      the nearest manifest maps it to its cache directory. */
  lemma LegacyAddSpec(c: Cache, docs: map<Path, Document>, cacheRoot: Path, pwd: Path, name: string, version: string,
                      repositoryUrl: string, server: Request -> HttpOutcome, unpack: seq<bv8> -> Option<Archive>,
                      rank: (string, string) -> nat)
    requires LegacyAcyclic(server, unpack, repositoryUrl, rank)
    ensures var (o, c', docs') := LegacyAddOn(c, docs, cacheRoot, pwd, name, version, repositoryUrl, server, unpack, rank);
      var (prepared, tree0) := EnsureDirOn(c.tree, cacheRoot);
      var stored := LegacyStoreOn(c.(tree := tree0), cacheRoot, pwd, name, version, repositoryUrl, server, unpack, rank);
      var found := NearestManifest(pwd, docs.Keys);
      && (NoFileOnPath(c.tree, cacheRoot) ==> prepared.Ok?)
      && (prepared.Err? ==> o == Panicked(CACHE_SETUP_PANIC) && c' == c && docs' == docs)
      && (prepared.Ok? ==>
            && IsDir(c'.tree, cacheRoot)
            && c.requests + [LegacyPackageUrl(repositoryUrl, name, version)] <= c'.requests
            && c' == stored.1)
      && (o.Panicked? ==> docs' == docs)
      && (prepared.Ok? && stored.0 == Completed ==>
            && PackageDir(cacheRoot, name, version) in c'.unpacked
            && (found.None? ==> o == Panicked(NO_MANIFEST_PANIC))
            && (found.Some? && !CanIndexDependencies(docs[found.value]) ==> o == Panicked(INDEX_PANIC)))
      && (o == Completed ==>
            && prepared.Ok? && stored.0 == Completed
            && found.Some?
            && docs'.Keys == docs.Keys
            && (forall p :: p in docs && p != found.value ==> docs'[p] == docs[p])
            && DependencyEntries(docs'[found.value]).Some?
            && Lookup(DependencyEntries(docs'[found.value]).value, name)
               == Some(DepEntry(Render(PackageDir(cacheRoot, name, version)))))
  {
    EnsureDirOnSucceeds(c.tree, cacheRoot);
    var (prepared, tree0) := EnsureDirOn(c.tree, cacheRoot);
    var c0 := c.(tree := tree0);
    LegacyWriteSpec(docs, pwd, name, Render(PackageDir(cacheRoot, name, version)));
    if prepared.Ok? {
      LegacyGetToCacheSpec(c0, cacheRoot, name, version, repositoryUrl, server, unpack);
      var (o, c1) := LegacyGetToCacheOn(c0, cacheRoot, name, version, repositoryUrl, server, unpack);
      if o == Completed && c1.unpacked[PackageDir(cacheRoot, name, version)].manifest.Some? {
        var deps := GetDependencies(c1.unpacked[PackageDir(cacheRoot, name, version)].manifest.value);
        LegacyStoreAllGrows(c1, pwd, cacheRoot, deps, rank(name, version), repositoryUrl, server, unpack, rank);
      }
      LegacyStoreGrows(c0, cacheRoot, pwd, name, version, repositoryUrl, server, unpack, rank);
      var stored := LegacyStoreOn(c0, cacheRoot, pwd, name, version, repositoryUrl, server, unpack, rank);
      if stored.0 == Completed {
        LegacyStoreInstalls(c0, cacheRoot, pwd, name, version, repositoryUrl, server, unpack, rank);
      }
    }
  }

  // ---------------------------------------------------------------------------
  // One step of the traversals, for the methods below

  /** After a successful download, storing a package is the loop over the
      dependencies its extracted manifest lists, all of lower rank. */
  lemma StoreAfterDownload(c: Cache, root: Path, name: string, version: string, fetchYanked: bool,
                           server: Request -> HttpOutcome, unpack: seq<bv8> -> Option<Archive>,
                           rank: (string, string) -> nat)
    requires Acyclic(server, unpack, fetchYanked, rank)
    requires GetToCacheOn(c, root, name, version, fetchYanked, server, unpack).0.Ok?
    ensures var (got, c1) := GetToCacheOn(c, root, name, version, fetchYanked, server, unpack);
      && got.value in c1.unpacked
      && (c1.unpacked[got.value].manifest.None? ==> StoreOn(c, root, name, version, fetchYanked, server, unpack, rank) == (Ok(()), c1))
      && (c1.unpacked[got.value].manifest.Some? ==>
            var deps := GetDependencies(c1.unpacked[got.value].manifest.value);
            && (forall j :: 0 <= j < |deps| ==> rank(deps[j].0, deps[j].1) < rank(name, version))
            && StoreOn(c, root, name, version, fetchYanked, server, unpack, rank)
               == StoreAll(c1, root, deps, rank(name, version), fetchYanked, server, unpack, rank))
  {
    GetToCacheSpec(c, root, name, version, fetchYanked, server, unpack);
  }

  /** One turn of the loop over the sub-dependencies. */
  lemma StoreAllStep(c: Cache, root: Path, deps: seq<(string, string)>, bound: nat, fetchYanked: bool,
                     server: Request -> HttpOutcome, unpack: seq<bv8> -> Option<Archive>,
                     rank: (string, string) -> nat)
    requires Acyclic(server, unpack, fetchYanked, rank)
    requires forall i :: 0 <= i < |deps| ==> rank(deps[i].0, deps[i].1) < bound
    requires deps != []
    ensures var (r, c1) := StoreOn(c, root, deps[0].0, deps[0].1, fetchYanked, server, unpack, rank);
      StoreAll(c, root, deps, bound, fetchYanked, server, unpack, rank)
      == if r.Err? then (Err(r.error), c1) else StoreAll(c1, root, deps[1..], bound, fetchYanked, server, unpack, rank)
  {
  }

  /** The older store after a completed download, as the loop over the
      extracted manifest's dependencies with the roots swapped. */
  lemma LegacyStoreAfterDownload(c: Cache, cacheRoot: Path, projectDir: Path, name: string, version: string,
                                 repositoryUrl: string, server: Request -> HttpOutcome,
                                 unpack: seq<bv8> -> Option<Archive>, rank: (string, string) -> nat)
    requires LegacyAcyclic(server, unpack, repositoryUrl, rank)
    requires LegacyGetToCacheOn(c, cacheRoot, name, version, repositoryUrl, server, unpack).0 == Completed
    ensures var (_, c1) := LegacyGetToCacheOn(c, cacheRoot, name, version, repositoryUrl, server, unpack);
      var dir := PackageDir(cacheRoot, name, version);
      && dir in c1.unpacked
      && (c1.unpacked[dir].manifest.None? ==>
            LegacyStoreOn(c, cacheRoot, projectDir, name, version, repositoryUrl, server, unpack, rank) == (Completed, c1))
      && (c1.unpacked[dir].manifest.Some? ==>
            var deps := GetDependencies(c1.unpacked[dir].manifest.value);
            && (forall j :: 0 <= j < |deps| ==> rank(deps[j].0, deps[j].1) < rank(name, version))
            && LegacyStoreOn(c, cacheRoot, projectDir, name, version, repositoryUrl, server, unpack, rank)
               == LegacyStoreAll(c1, projectDir, cacheRoot, deps, rank(name, version), repositoryUrl, server, unpack, rank))
  {
    LegacyGetToCacheSpec(c, cacheRoot, name, version, repositoryUrl, server, unpack);
  }

  /** One turn of the older loop. */
  lemma LegacyStoreAllStep(c: Cache, cacheRoot: Path, projectDir: Path, deps: seq<(string, string)>, bound: nat,
                           repositoryUrl: string, server: Request -> HttpOutcome,
                           unpack: seq<bv8> -> Option<Archive>, rank: (string, string) -> nat)
    requires LegacyAcyclic(server, unpack, repositoryUrl, rank)
    requires forall i :: 0 <= i < |deps| ==> rank(deps[i].0, deps[i].1) < bound
    requires deps != []
    ensures var (o, c1) := LegacyStoreOn(c, cacheRoot, projectDir, deps[0].0, deps[0].1, repositoryUrl, server, unpack, rank);
      LegacyStoreAll(c, cacheRoot, projectDir, deps, bound, repositoryUrl, server, unpack, rank)
      == if o.Panicked? then (o, c1) else LegacyStoreAll(c1, cacheRoot, projectDir, deps[1..], bound, repositoryUrl, server, unpack, rank)
  {
  }

  // ---------------------------------------------------------------------------
  // The cache on disk

  class PackageCache {
    var tree: Tree
    var unpacked: map<Path, Archive>
    var requests: seq<string>

    constructor(tree: Tree)
      ensures this.tree == tree && unpacked == map[] && requests == []
    {
      this.tree := tree;
      unpacked := map[];
      requests := [];
    }

    function State(): Cache
      reads this
    {
      Cache(tree, unpacked, requests)
    }

    /** The `ensure_dir` of `prepare_cache_dir` on the cache's tree; the
        extracted packages and the requests stay as they are. */
    method PrepareCacheRoot(root: Path) returns (r: Result<(), IoError>)
      modifies this
      ensures (r, tree) == EnsureDirOn(old(tree), root)
      ensures unpacked == old(unpacked) && requests == old(requests)
      ensures r.Ok? ==> IsDir(tree, root)
    {
      EnsureDirOnSucceeds(tree, root);
      var (prepared, tree') := EnsureDirOn(tree, root);
      r := prepared;
      tree := tree';
    }

    /** `get_to_cache` on the cache. */
    method GetToCache(root: Path, name: string, version: string, fetchYanked: bool,
                      server: Request -> HttpOutcome, unpack: seq<bv8> -> Option<Archive>) returns (r: Result<Path, string>)
      modifies this
      ensures (r, State()) == GetToCacheOn(old(State()), root, name, version, fetchYanked, server, unpack)
    {
      var url := DownloadUrl(name, version, fetchYanked);
      var outcome := server(GetRequest(url));
      requests := requests + [url];
      var downloaded, tree' := DownloadOn(tree, CacheStorage(root, name, version), outcome).0,
                               DownloadOn(tree, CacheStorage(root, name, version), outcome).1;
      tree := tree';
      if downloaded.Err? {
        return Err(downloaded.error);
      }
      var archive := unpack(outcome.body.bytes);
      if archive.None? {
        return Err(EXTRACT_ERROR);
      }
      var dir := PackageDir(root, name, version);
      unpacked := unpacked[dir := archive.value];
      r := Ok(dir);
    }

    /** `store_package` on the cache: the package, then its sub-dependencies
        one by one in manifest order, stopping at the first error. */
    method StorePackage(root: Path, name: string, version: string, fetchYanked: bool,
                        server: Request -> HttpOutcome, unpack: seq<bv8> -> Option<Archive>,
                        rank: (string, string) -> nat) returns (r: Result<(), string>)
      requires Acyclic(server, unpack, fetchYanked, rank)
      modifies this
      ensures (r, State()) == StoreOn(old(State()), root, name, version, fetchYanked, server, unpack, rank)
      decreases rank(name, version) + 1, 0
    {
      ghost var c0 := State();
      var got := GetToCache(root, name, version, fetchYanked, server, unpack);
      if got.Err? {
        return Err(got.error);
      }
      StoreAfterDownload(c0, root, name, version, fetchYanked, server, unpack, rank);
      var manifest := unpacked[got.value].manifest;
      if manifest.None? {
        return Ok(());
      }
      r := StoreDependencies(root, GetDependencies(manifest.value), rank(name, version), fetchYanked, server, unpack, rank);
    }

    /** The loop of `store_package` over the sub-dependencies. */
    method StoreDependencies(root: Path, deps: seq<(string, string)>, bound: nat, fetchYanked: bool,
                             server: Request -> HttpOutcome, unpack: seq<bv8> -> Option<Archive>,
                             rank: (string, string) -> nat) returns (r: Result<(), string>)
      requires Acyclic(server, unpack, fetchYanked, rank)
      requires forall i :: 0 <= i < |deps| ==> rank(deps[i].0, deps[i].1) < bound
      modifies this
      ensures (r, State()) == StoreAll(old(State()), root, deps, bound, fetchYanked, server, unpack, rank)
      decreases bound, |deps|
    {
      var i := 0;
      while i < |deps|
        invariant 0 <= i <= |deps|
        invariant StoreAll(old(State()), root, deps, bound, fetchYanked, server, unpack, rank)
               == StoreAll(State(), root, deps[i..], bound, fetchYanked, server, unpack, rank)
      {
        assert deps[i..][0] == deps[i] && deps[i..][1..] == deps[i + 1..];
        ghost var before := State();
        StoreAllStep(before, root, deps[i..], bound, fetchYanked, server, unpack, rank);
        var sub := StorePackage(root, deps[i].0, deps[i].1, fetchYanked, server, unpack, rank);
        if sub.Err? {
          return sub;
        }
        assert StoreAll(before, root, deps[i..], bound, fetchYanked, server, unpack, rank)
            == StoreAll(State(), root, deps[i + 1..], bound, fetchYanked, server, unpack, rank);
        i := i + 1;
      }
      r := Ok(());
    }

    /** The older `get_to_cache` on the cache. */
    method LegacyGetToCache(root: Path, name: string, version: string, repositoryUrl: string,
                            server: Request -> HttpOutcome, unpack: seq<bv8> -> Option<Archive>) returns (o: Outcome)
      modifies this
      ensures (o, State()) == LegacyGetToCacheOn(old(State()), root, name, version, repositoryUrl, server, unpack)
    {
      var url := LegacyPackageUrl(repositoryUrl, name, version);
      var outcome := server(GetRequest(url));
      requests := requests + [url];
      if outcome.Transport? {
        return Panicked(SEND_PANIC);
      }
      var created := CreateFile(tree, LegacyCacheStorage(root, name, version), outcome.body.bytes);
      if created.Err? {
        return Panicked(CREATE_PANIC);
      }
      tree := created.value;
      var archive := unpack(outcome.body.bytes);
      if archive.None? {
        return Panicked(EXTRACT_ERROR);
      }
      unpacked := unpacked[PackageDir(root, name, version) := archive.value];
      o := Completed;
    }

    /** The older `store_package` on the cache, with its swapped recursive
        call. */
    method LegacyStorePackage(cacheRoot: Path, projectDir: Path, name: string, version: string, repositoryUrl: string,
                              server: Request -> HttpOutcome, unpack: seq<bv8> -> Option<Archive>,
                              rank: (string, string) -> nat) returns (o: Outcome)
      requires LegacyAcyclic(server, unpack, repositoryUrl, rank)
      modifies this
      ensures (o, State()) == LegacyStoreOn(old(State()), cacheRoot, projectDir, name, version, repositoryUrl, server, unpack, rank)
      decreases rank(name, version) + 1, 0
    {
      ghost var c0 := State();
      o := LegacyGetToCache(cacheRoot, name, version, repositoryUrl, server, unpack);
      if o.Panicked? {
        return;
      }
      LegacyStoreAfterDownload(c0, cacheRoot, projectDir, name, version, repositoryUrl, server, unpack, rank);
      var manifest := unpacked[PackageDir(cacheRoot, name, version)].manifest;
      if manifest.None? {
        return;
      }
      o := LegacyStoreDependencies(projectDir, cacheRoot, GetDependencies(manifest.value), rank(name, version),
                                   repositoryUrl, server, unpack, rank);
    }

    /** The older loop over the sub-dependencies, with the roots as passed. */
    method LegacyStoreDependencies(cacheRoot: Path, projectDir: Path, deps: seq<(string, string)>, bound: nat,
                                   repositoryUrl: string, server: Request -> HttpOutcome,
                                   unpack: seq<bv8> -> Option<Archive>, rank: (string, string) -> nat) returns (o: Outcome)
      requires LegacyAcyclic(server, unpack, repositoryUrl, rank)
      requires forall i :: 0 <= i < |deps| ==> rank(deps[i].0, deps[i].1) < bound
      modifies this
      ensures (o, State()) == LegacyStoreAll(old(State()), cacheRoot, projectDir, deps, bound, repositoryUrl, server, unpack, rank)
      decreases bound, |deps|
    {
      var i := 0;
      while i < |deps|
        invariant 0 <= i <= |deps|
        invariant LegacyStoreAll(old(State()), cacheRoot, projectDir, deps, bound, repositoryUrl, server, unpack, rank)
               == LegacyStoreAll(State(), cacheRoot, projectDir, deps[i..], bound, repositoryUrl, server, unpack, rank)
      {
        assert deps[i..][0] == deps[i] && deps[i..][1..] == deps[i + 1..];
        LegacyStoreAllStep(State(), cacheRoot, projectDir, deps[i..], bound, repositoryUrl, server, unpack, rank);
        var sub := LegacyStorePackage(cacheRoot, projectDir, deps[i].0, deps[i].1, repositoryUrl, server, unpack, rank);
        if sub.Panicked? {
          return sub;
        }
        i := i + 1;
      }
      o := Completed;
    }
  }

  /** `add` on the cache and the manifests. */
  method Add(cache: PackageCache, manifests: ManifestFiles, cacheRoot: Path, pwd: Path, name: string, version: string,
             server: Request -> HttpOutcome, unpack: seq<bv8> -> Option<Archive>,
             rank: (string, string) -> nat) returns (r: AddExit)
    requires Acyclic(server, unpack, false, rank)
    modifies cache, manifests
    ensures (r, cache.State(), manifests.docs)
         == AddOn(old(cache.State()), old(manifests.docs), cacheRoot, pwd, name, version, server, unpack, rank)
  {
    var prepared := cache.PrepareCacheRoot(cacheRoot);
    if prepared.Err? {
      return AddPanicked(CACHE_SETUP_PANIC);
    }
    var used := GetUsedVersion(name, version, server);
    if used.Err? {
      return Returned(Err(used.error));
    }
    var stored := cache.StorePackage(cacheRoot, name, used.value, false, server, unpack, rank);
    if stored.Err? {
      return Returned(Err(stored.error));
    }
    var found := TryFindManifest(pwd, manifests.docs.Keys);
    if found.None? {
      return AddPanicked(READ_PANIC);
    }
    var written := manifests.WritePackageDep(found.value, name, Render(PackageDir(cacheRoot, name, used.value)));
    if written.Err? {
      return AddPanicked(written.error);
    }
    r := Returned(Ok(used.value));
  }

  /** The directory of the manifest `try_find_manifest` found. */
  function ManifestDir(manifest: Path): Path
  {
    if manifest == [] then [] else manifest[..|manifest| - 1]
  }

  /** The loop of `fetch` on the cache. */
  method FetchDependencies(cache: PackageCache, root: Path, deps: seq<(string, Dependency)>,
                           server: Request -> HttpOutcome, unpack: seq<bv8> -> Option<Archive>,
                           rank: (string, string) -> nat)
    requires Acyclic(server, unpack, true, rank)
    requires PathDepsReadable(deps)
    modifies cache
    ensures cache.State() == FetchAll(old(cache.State()), root, deps, server, unpack, rank)
  {
    var i := 0;
    while i < |deps|
      invariant 0 <= i <= |deps|
      invariant PathDepsReadable(deps[i..])
      invariant FetchAll(old(cache.State()), root, deps, server, unpack, rank)
             == FetchAll(cache.State(), root, deps[i..], server, unpack, rank)
    {
      assert deps[i..][0] == deps[i] && deps[i..][1..] == deps[i + 1..];
      FetchAllStep(cache.State(), root, deps[i..], server, unpack, rank);
      match deps[i].1 {
        case Git(_) =>
        case PathDep(path) =>
          var (name, version) := DepPathParts(path).value;
          var _ := cache.StorePackage(root, name, version, true, server, unpack, rank);
      }
      i := i + 1;
    }
  }

  /** `fetch` on the cache: the manifest must sit in the current directory;
      the cache root is derived from the manifest's directory by
      `cacheDirFor` and prepared as a directory before the loop. */
  method Fetch(cache: PackageCache, docs: map<Path, Document>, cwd: Path, cacheDirFor: Path -> Path,
               server: Request -> HttpOutcome, unpack: seq<bv8> -> Option<Archive>,
               rank: (string, string) -> nat) returns (r: Result<(), string>)
    requires Acyclic(server, unpack, true, rank)
    requires NearestManifest(cwd, docs.Keys).Some?
    requires ReadManifest(cwd, docs).Ok? ==>
      && PathDepsReadable(ReadManifest(cwd, docs).value.dependencies)
      && EnsureDirOn(cache.tree, cacheDirFor(ManifestDir(NearestManifest(cwd, docs.Keys).value))).0.Ok?
    modifies cache
    ensures ReadManifest(cwd, docs).Err? ==> r == Err(ReadManifest(cwd, docs).error) && cache.State() == old(cache.State())
    ensures ReadManifest(cwd, docs).Ok? ==>
      var root := cacheDirFor(ManifestDir(NearestManifest(cwd, docs.Keys).value));
      && r == Ok(())
      && cache.State() == FetchAll(old(cache.State()).(tree := EnsureDirOn(old(cache.tree), root).1), root,
                                   ReadManifest(cwd, docs).value.dependencies, server, unpack, rank)
  {
    var found := TryFindManifest(cwd, docs.Keys);
    var manifest := ReadManifest(cwd, docs);
    if manifest.Err? {
      return Err(manifest.error);
    }
    var root := cacheDirFor(ManifestDir(found.value));
    var _ := cache.PrepareCacheRoot(root);
    FetchDependencies(cache, root, manifest.value.dependencies, server, unpack, rank);
    r := Ok(());
  }

  /** The older `add` on the cache and the manifests. */
  method LegacyAdd(cache: PackageCache, manifests: ManifestFiles, cacheRoot: Path, pwd: Path, name: string, version: string,
                   repositoryUrl: string, server: Request -> HttpOutcome, unpack: seq<bv8> -> Option<Archive>,
                   rank: (string, string) -> nat) returns (o: Outcome)
    requires LegacyAcyclic(server, unpack, repositoryUrl, rank)
    modifies cache, manifests
    ensures (o, cache.State(), manifests.docs)
         == LegacyAddOn(old(cache.State()), old(manifests.docs), cacheRoot, pwd, name, version, repositoryUrl, server, unpack, rank)
  {
    var prepared := cache.PrepareCacheRoot(cacheRoot);
    if prepared.Err? {
      return Panicked(CACHE_SETUP_PANIC);
    }
    o := cache.LegacyStorePackage(cacheRoot, pwd, name, version, repositoryUrl, server, unpack, rank);
    if o.Panicked? {
      return;
    }
    var written := manifests.LegacyWritePackageDep(pwd, name, Render(PackageDir(cacheRoot, name, version)));
    if written.Err? {
      o := Panicked(written.error);
    }
  }
}
