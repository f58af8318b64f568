/** The project manifest `Nargo.toml` as the package manager edits it: a parsed
    TOML document whose `dependencies` table maps package names to
    `{ path = "<dir>" }` entries. Both generations of the tool are covered:
    the current one (noir-libs/src/manifest.rs), which is handed the manifest
    path, and the older one (src/manifest.rs), which searches for it. */
module Manifest {
  import opened Wrappers
  import opened Text
  import opened Paths

  const MANIFEST_FILE_NAME := "Nargo.toml"

  // ---------------------------------------------------------------------------
  // Package type

  datatype PackageType = Library | Contract | Binary

  /** `Display for PackageType`. */
  function PackageTypeName(t: PackageType): string
  {
    match t
    case Library => "lib"
    case Contract => "contract"
    case Binary => "bin"
  }

  /** The serde renames used when the manifest is deserialised. */
  function ParsePackageType(s: string): Option<PackageType>
  {
    if s == "lib" then Some(Library)
    else if s == "contract" then Some(Contract)
    else if s == "bin" then Some(Binary)
    else None
  }

  /** Display and the serde renames agree: a name parses to a type exactly
      when that type displays as the name. */
  lemma PackageTypeRoundTrip(t: PackageType, s: string)
    ensures ParsePackageType(s) == Some(t) <==> PackageTypeName(t) == s
  {
  }

  // ---------------------------------------------------------------------------
  // The parsed document

  /** A TOML value as far as the manifest code looks into it. A table keeps
      its keys in document order and records whether it is written inline
      (`{ ... }`) or as a `[section]`. Numbers, booleans and dates are all
      `TOther`. */
  datatype TomlValue =
    | TString(s: string)
    | TTable(entries: Table, inline: bool)
    | TArray(items: seq<TomlValue>)
    | TOther

  type Table = seq<(string, TomlValue)>

  /** A parsed manifest: its top-level table. */
  datatype Document = Document(root: Table)

  /** The keys of a list of (key, value) pairs, in order. */
  function Keys<V>(t: seq<(string, V)>): (ks: seq<string>)
    ensures |ks| == |t|
    ensures forall i :: 0 <= i < |t| ==> ks[i] == t[i].0
  {
    if t == [] then [] else [t[0].0] + Keys(t[1..])
  }

  predicate KeysUnique(t: Table)
  {
    forall i, j :: 0 <= i < j < |t| ==> t[i].0 != t[j].0
  }

  /** `table.get(key)` */
  function Lookup(t: Table, key: string): Option<TomlValue>
  {
    if t == [] then None
    else if t[0].0 == key then Some(t[0].1)
    else Lookup(t[1..], key)
  }

  /** `table[key] = value`: an existing key keeps its position and gets the
      new value, a new key is appended. */
  function Put(t: Table, key: string, v: TomlValue): Table
  {
    if t == [] then [(key, v)]
    else if t[0].0 == key then [(key, v)] + t[1..]
    else [t[0]] + Put(t[1..], key, v)
  }

  /** `table.remove(key)`, keeping the order of the other keys. */
  function Remove(t: Table, key: string): Table
  {
    if t == [] then []
    else if t[0].0 == key then Remove(t[1..], key)
    else [t[0]] + Remove(t[1..], key)
  }

  /** `a` is `b` with some elements left out, order kept. */
  predicate IsSubsequence<T(==)>(a: seq<T>, b: seq<T>)
  {
    a == [] ||
    (b != [] && ((a[0] == b[0] && IsSubsequence(a[1..], b[1..])) || IsSubsequence(a, b[1..])))
  }

  /** A key is found exactly when the table has it, and what is found is the
      value stored under it. */
  lemma {:induction false} LookupSpec(t: Table, key: string)
    ensures Lookup(t, key).Some? <==> key in Keys(t)
    ensures Lookup(t, key).Some? ==> (key, Lookup(t, key).value) in t
  {
    if t != [] {
      LookupSpec(t[1..], key);
      assert Keys(t) == [t[0].0] + Keys(t[1..]);
    }
  }

  /** After `Put` the key holds the new value, every other key is untouched,
      an existing key keeps its place and a new one comes last. */
  lemma PutSpec(t: Table, key: string, v: TomlValue)
    ensures Lookup(Put(t, key, v), key) == Some(v)
    ensures forall k :: k != key ==> Lookup(Put(t, key, v), k) == Lookup(t, k)
    ensures Keys(Put(t, key, v)) == if key in Keys(t) then Keys(t) else Keys(t) + [key]
    ensures KeysUnique(t) ==> KeysUnique(Put(t, key, v))
  {
    PutLookup(t, key, v);
    PutKeys(t, key, v);
    if KeysUnique(t) {
      PutKeysUnique(t, key, v);
    }
  }

  lemma {:induction false} PutLookup(t: Table, key: string, v: TomlValue)
    ensures Lookup(Put(t, key, v), key) == Some(v)
    ensures forall k :: k != key ==> Lookup(Put(t, key, v), k) == Lookup(t, k)
  {
    if t != [] && t[0].0 != key {
      PutLookup(t[1..], key, v);
    }
  }

  lemma {:induction false} PutKeys(t: Table, key: string, v: TomlValue)
    ensures Keys(Put(t, key, v)) == if key in Keys(t) then Keys(t) else Keys(t) + [key]
  {
    if t != [] {
      assert Keys(t) == [t[0].0] + Keys(t[1..]);
      if t[0].0 != key {
        PutKeys(t[1..], key, v);
        assert Keys(Put(t, key, v)) == [t[0].0] + Keys(Put(t[1..], key, v));
      }
    }
  }

  lemma PutKeysUnique(t: Table, key: string, v: TomlValue)
    requires KeysUnique(t)
    ensures KeysUnique(Put(t, key, v))
  {
    var r := Put(t, key, v);
    PutKeys(t, key, v);
    forall i, j | 0 <= i < j < |r|
      ensures r[i].0 != r[j].0
    {
      assert r[i].0 == Keys(r)[i] && r[j].0 == Keys(r)[j];
      if j < |t| {
        assert Keys(t)[i] == t[i].0 && Keys(t)[j] == t[j].0;
      } else {
        assert Keys(t)[i] == t[i].0;
      }
    }
  }

  /** After `Remove` the key is gone, every other key is untouched,
      and removing an absent key is the identity. */
  lemma {:induction false} RemoveLookup(t: Table, key: string)
    ensures Lookup(Remove(t, key), key) == None
    ensures forall k :: k != key ==> Lookup(Remove(t, key), k) == Lookup(t, k)
    ensures key !in Keys(t) ==> Remove(t, key) == t
  {
    if t != [] {
      RemoveLookup(t[1..], key);
      assert Keys(t) == [t[0].0] + Keys(t[1..]);
      if t[0].0 != key {
        assert t == [t[0]] + t[1..];
      }
    }
  }

  /** The keys left by `Remove` keep their order, and stay distinct. */
  lemma {:induction false} RemoveOrder(t: Table, key: string)
    ensures IsSubsequence(Keys(Remove(t, key)), Keys(t))
    ensures KeysUnique(t) ==> KeysUnique(Remove(t, key))
  {
    var r := Remove(t, key);
    if t != [] {
      RemoveOrder(t[1..], key);
      assert Keys(t) == [t[0].0] + Keys(t[1..]);
      if t[0].0 != key {
        assert Keys(r) == [t[0].0] + Keys(Remove(t[1..], key));
        if KeysUnique(t) {
          RemoveLookup(t[1..], key);
          LookupSpec(t[1..], t[0].0);
          LookupSpec(Remove(t[1..], key), t[0].0);
        }
      }
    }
  }

  /** After `Remove` the key is gone, every other key is untouched, the
      remaining keys keep their order, and removing an absent key is the
      identity. */
  lemma RemoveSpec(t: Table, key: string)
    ensures Lookup(Remove(t, key), key) == None
    ensures forall k :: k != key ==> Lookup(Remove(t, key), k) == Lookup(t, k)
    ensures key !in Keys(t) ==> Remove(t, key) == t
    ensures IsSubsequence(Keys(Remove(t, key)), Keys(t))
    ensures KeysUnique(t) ==> KeysUnique(Remove(t, key))
  {
    RemoveLookup(t, key);
    RemoveOrder(t, key);
  }

  /** The dependency entry written for a package: `{ path = "<path>" }`. */
  function DepEntry(path: string): TomlValue
  {
    TTable([("path", TString(path))], true)
  }

  // ---------------------------------------------------------------------------
  // Reading dependencies

  /** `value.get("path").and_then(as_str)`, for an inline or a section table. */
  function PathOf(v: TomlValue): Option<string>
  {
    if v.TTable? then
      match Lookup(v.entries, "path")
      case Some(TString(p)) => Some(p)
      case _ => None
    else None
  }

  /** `extract_version_from_path`: the text after the last '/', or None for
      the empty path. */
  function ExtractVersionFromPath(path: string): (r: Option<string>)
    ensures r.None? <==> path == ""
    ensures r.Some? ==>
      && '/' !in r.value
      && EndsWith(path, r.value)
      && (|r.value| == |path| || path[|path| - |r.value| - 1] == '/')
  {
    if path == "" then None
    else
      LastPieceIsSuffix(path, '/');
      Some(Last(Split(path, '/')))
  }

  /** The version a dependency entry contributes, if any. */
  function DepVersion(v: TomlValue): Option<string>
  {
    match PathOf(v)
    case None => None
    case Some(p) => ExtractVersionFromPath(p)
  }

  /** The filter-map over a dependency table. */
  function DependencyVersions(t: Table): seq<(string, string)>
  {
    if t == [] then []
    else
      var rest := DependencyVersions(t[1..]);
      match DepVersion(t[0].1)
      case Some(v) => [(t[0].0, v)] + rest
      case None => rest
  }

  /** The `[dependencies]` section, when the document has one. Only a section
      table counts; an inline `dependencies = { ... }` value is not one. */
  function DependencySection(doc: Document): Option<Table>
  {
    match Lookup(doc.root, "dependencies")
    case Some(TTable(entries, false)) => Some(entries)
    case _ => None
  }

  /** `get_dependencies` on a parsed manifest. */
  function GetDependencies(doc: Document): seq<(string, string)>
  {
    match DependencySection(doc)
    case Some(t) => DependencyVersions(t)
    case None => []
  }

  /** Every pair read comes from an entry of the table: its key, and the
      version that entry's `path` gives. */
  lemma {:induction false} DependencyVersionsSound(t: Table)
    ensures var r := DependencyVersions(t);
      && |r| <= |t|
      && forall i :: 0 <= i < |r| ==> ListedIn(t, r[i])
  {
    if t != [] {
      var rest := DependencyVersions(t[1..]);
      var r := DependencyVersions(t);
      DependencyVersionsSound(t[1..]);
      var off := if DepVersion(t[0].1).Some? then 1 else 0;
      forall i | 0 <= i < |r|
        ensures ListedIn(t, r[i])
      {
        if i < off {
          assert t[0].0 == r[0].0 && DepVersion(t[0].1) == Some(r[0].1);
        } else {
          assert r[i] == rest[i - off];
          ListedInTail(t, rest[i - off]);
        }
      }
    }
  }

  /** The table has an entry under the pair's name whose version reads as
      the pair's version. */
  ghost predicate ListedIn(t: Table, p: (string, string))
  {
    exists j :: 0 <= j < |t| && t[j].0 == p.0 && DepVersion(t[j].1) == Some(p.1)
  }

  lemma ListedInTail(t: Table, p: (string, string))
    requires t != [] && ListedIn(t[1..], p)
    ensures ListedIn(t, p)
  {
    var j :| 0 <= j < |t[1..]| && t[1..][j].0 == p.0 && DepVersion(t[1..][j].1) == Some(p.1);
    assert t[j + 1] == t[1..][j];
  }

  /** Every entry with a readable version contributes its pair. */
  lemma {:induction false} DependencyVersionsComplete(t: Table)
    ensures forall j :: 0 <= j < |t| && DepVersion(t[j].1).Some? ==>
      (t[j].0, DepVersion(t[j].1).value) in DependencyVersions(t)
  {
    if t != [] {
      DependencyVersionsComplete(t[1..]);
      forall j | 0 <= j < |t| && DepVersion(t[j].1).Some?
        ensures (t[j].0, DepVersion(t[j].1).value) in DependencyVersions(t)
      {
        if j > 0 {
          assert t[j] == t[1..][j - 1];
        }
      }
    }
  }

  /** The pairs come in table order. */
  lemma {:induction false} DependencyVersionsOrdered(t: Table)
    ensures IsSubsequence(Keys(DependencyVersions(t)), Keys(t))
  {
    if t != [] {
      var rest := DependencyVersions(t[1..]);
      DependencyVersionsOrdered(t[1..]);
      assert Keys(t)[1..] == Keys(t[1..]);
      if DepVersion(t[0].1).Some? {
        assert Keys(DependencyVersions(t))[1..] == Keys(rest);
      }
    }
  }

  /** Without a `[dependencies]` section there are no dependencies. */
  lemma GetDependenciesNoSection(doc: Document)
    requires DependencySection(doc).None?
    ensures GetDependencies(doc) == []
  {
  }

  // ---------------------------------------------------------------------------
  // Writing and removing a dependency

  /** Indexing `dependencies` as a table succeeds: it is absent or a table
      (inline or a section). Any other value makes the write panic. */
  predicate CanIndexDependencies(doc: Document)
  {
    match Lookup(doc.root, "dependencies")
    case None => true
    case Some(v) => v.TTable?
  }

  /** The dependency table a write starts from: the existing one, or a new
      empty table of the given layout. */
  function DependencyTableOr(doc: Document, inlineIfNew: bool): TomlValue
    requires CanIndexDependencies(doc)
  {
    match Lookup(doc.root, "dependencies")
    case None => TTable([], inlineIfNew)
    case Some(v) => v
  }

  /** The document change `write_package_dep` of noir-libs/src/manifest.rs
      makes: a missing `dependencies` table is created as a section, then the
      package's entry is set to `{ path = path }`. */
  function InsertDependency(doc: Document, name: string, path: string): Document
    requires CanIndexDependencies(doc)
  {
    var deps := DependencyTableOr(doc, false);
    Document(Put(doc.root, "dependencies", TTable(Put(deps.entries, name, DepEntry(path)), deps.inline)))
  }

  /** The document change of the older `write_package_dep`
      (src/manifest.rs): indexing a missing `dependencies` key creates it as
      an inline table. */
  function LegacyInsertDependency(doc: Document, name: string, path: string): Document
    requires CanIndexDependencies(doc)
  {
    var deps := DependencyTableOr(doc, true);
    Document(Put(doc.root, "dependencies", TTable(Put(deps.entries, name, DepEntry(path)), deps.inline)))
  }

  /** The document change `remove_package` makes: the key leaves a
      `[dependencies]` section; any other shape is left alone. */
  function RemoveDependency(doc: Document, name: string): Document
  {
    match Lookup(doc.root, "dependencies")
    case Some(TTable(entries, false)) =>
      Document(Put(doc.root, "dependencies", TTable(Remove(entries, name), false)))
    case _ => doc
  }

  /** The entries of the `dependencies` table, whatever its layout. */
  function DependencyEntries(doc: Document): Option<Table>
  {
    match Lookup(doc.root, "dependencies")
    case Some(TTable(entries, _)) => Some(entries)
    case _ => None
  }

  /** After a write the table exists (a section if it had to be created),
      maps `name` to `{ path = path }`, keeps every other entry, and no other
      top-level key changes. */
  lemma InsertDependencySpec(doc: Document, name: string, path: string)
    requires CanIndexDependencies(doc)
    ensures var r := InsertDependency(doc, name, path);
      && DependencyEntries(r).Some?
      && Lookup(DependencyEntries(r).value, name) == Some(DepEntry(path))
      && (forall k :: k != name && DependencyEntries(doc).Some? ==>
            Lookup(DependencyEntries(r).value, k) == Lookup(DependencyEntries(doc).value, k))
      && (DependencyEntries(doc).None? ==> Keys(DependencyEntries(r).value) == [name])
      && (DependencyEntries(doc).None? ==> DependencySection(r).Some?)
      && (DependencySection(doc).Some? ==> DependencySection(r).Some?)
      && (forall k :: k != "dependencies" ==> Lookup(r.root, k) == Lookup(doc.root, k))
  {
    var deps := DependencyTableOr(doc, false);
    var entries := Put(deps.entries, name, DepEntry(path));
    var r := InsertDependency(doc, name, path);
    PutSpec(doc.root, "dependencies", TTable(entries, deps.inline));
    assert Lookup(r.root, "dependencies") == Some(TTable(entries, deps.inline));
    assert DependencyEntries(r) == Some(entries);
    PutSpec(deps.entries, name, DepEntry(path));
    if Lookup(doc.root, "dependencies").None? {
      assert deps == TTable([], false);
      assert Keys(entries) == [name];
    } else {
      assert DependencyEntries(doc) == Some(deps.entries);
    }
  }

  /** After a write, reading the dependencies back yields the package with the
      last segment of its path, whenever the table is a section. */
  lemma InsertThenGetDependencies(doc: Document, name: string, path: string)
    requires CanIndexDependencies(doc) && path != ""
    requires DependencySection(doc).Some? || DependencyEntries(doc).None?
    ensures (name, ExtractVersionFromPath(path).value) in GetDependencies(InsertDependency(doc, name, path))
  {
    InsertDependencySpec(doc, name, path);
    var r := InsertDependency(doc, name, path);
    var t := DependencySection(r).value;
    LookupSpec(t, name);
    DependencyVersionsComplete(t);
    var j :| 0 <= j < |t| && t[j] == (name, DepEntry(path));
    assert PathOf(t[j].1) == Some(path);
  }

  /** After a remove the package's key is gone from a `[dependencies]`
      section, every other key keeps its value, and nothing outside the
      `dependencies` key changes; without a section nothing changes. */
  lemma RemoveDependencySpec(doc: Document, name: string)
    ensures var r := RemoveDependency(doc, name);
      && (forall k :: k != "dependencies" ==> Lookup(r.root, k) == Lookup(doc.root, k))
      && (DependencySection(doc).None? ==> r == doc)
      && (DependencySection(doc).Some? ==>
            && DependencySection(r).Some?
            && Lookup(DependencySection(r).value, name).None?
            && (forall k :: k != name ==>
                  Lookup(DependencySection(r).value, k) == Lookup(DependencySection(doc).value, k)))
  {
    if DependencySection(doc).Some? {
      var entries := DependencySection(doc).value;
      RemoveSpec(entries, name);
      PutSpec(doc.root, "dependencies", TTable(Remove(entries, name), false));
    }
  }

  /** No version is read for a removed package. */
  lemma RemoveThenGetDependencies(doc: Document, name: string, v: string)
    ensures (name, v) !in GetDependencies(RemoveDependency(doc, name))
  {
    var r := RemoveDependency(doc, name);
    RemoveDependencySpec(doc, name);
    if DependencySection(r).Some? && (name, v) in GetDependencies(r) {
      var t := DependencySection(r).value;
      DependencyVersionsSound(t);
      var i :| 0 <= i < |GetDependencies(r)| && GetDependencies(r)[i] == (name, v);
      LookupSpec(t, name);
      assert false;
    }
  }

  /** Every other package's pair is still read after a remove. */
  lemma RemoveKeepsOtherDependencies(doc: Document, name: string, k: string, v: string)
    requires k != name && (k, v) in GetDependencies(doc)
    ensures (k, v) in GetDependencies(RemoveDependency(doc, name))
  {
    var r := RemoveDependency(doc, name);
    var t0 := DependencySection(doc).value;
    var t := Remove(t0, name);
    PutSpec(doc.root, "dependencies", TTable(t, false));
    assert DependencySection(r) == Some(t);
    DependencyVersionsSound(t0);
    var i :| 0 <= i < |GetDependencies(doc)| && GetDependencies(doc)[i] == (k, v);
    var j :| 0 <= j < |t0| && t0[j].0 == k && DepVersion(t0[j].1) == Some(v);
    RemoveKeeps(t0, name, t0[j]);
    DependencyVersionsComplete(t);
    var j' :| 0 <= j' < |t| && t[j'] == t0[j];
  }

  /** `Remove` keeps every entry under another key. */
  lemma {:induction false} RemoveKeeps(t: Table, key: string, e: (string, TomlValue))
    requires e in t && e.0 != key
    ensures e in Remove(t, key)
  {
    if t[0] != e {
      RemoveKeeps(t[1..], key, e);
    }
  }

  /** Removing a package that is not in the table changes nothing. */
  lemma RemoveAbsentIsNoOp(doc: Document, name: string)
    requires DependencySection(doc).Some? ==> name !in Keys(DependencySection(doc).value)
    requires KeysUnique(doc.root)
    ensures RemoveDependency(doc, name) == doc
  {
    if DependencySection(doc).Some? {
      RemoveSpec(DependencySection(doc).value, name);
      PutSame(doc.root, "dependencies");
    }
  }

  /** Writing back the value a key already has leaves a table with unique keys
      as it was. */
  lemma {:induction false} PutSame(t: Table, key: string)
    requires KeysUnique(t) && Lookup(t, key).Some?
    ensures Put(t, key, Lookup(t, key).value) == t
  {
    if t[0].0 != key {
      assert KeysUnique(t[1..]);
      PutSame(t[1..], key);
      assert [t[0]] + t[1..] == t;
    }
  }

  /** The older write, on a manifest without a `dependencies` key, creates an
      inline table that the older `get_dependencies` does not read back. */
  lemma LegacyInsertIsNotRead(doc: Document, name: string, path: string)
    requires Lookup(doc.root, "dependencies").None?
    ensures GetDependencies(LegacyInsertDependency(doc, name, path)) == []
  {
    PutSpec(doc.root, "dependencies", TTable(Put([], name, DepEntry(path)), true));
  }

  // ---------------------------------------------------------------------------
  // Finding the manifest

  /** The manifest file that would sit in `dir`. */
  function ManifestIn(dir: Path): Path
  {
    dir + [MANIFEST_FILE_NAME]
  }

  /** The manifest of the nearest ancestor of `dir` (itself included) among
      the existing `files`. */
  function NearestManifest(dir: Path, files: set<Path>): (r: Option<Path>)
    ensures r.Some? ==>
      exists k :: 0 <= k <= |dir| && r.value == ManifestIn(dir[..k]) && r.value in files
        && forall k' :: k < k' <= |dir| ==> ManifestIn(dir[..k']) !in files
    ensures r.None? ==> forall k :: 0 <= k <= |dir| ==> ManifestIn(dir[..k]) !in files
    decreases |dir|
  {
    if ManifestIn(dir) in files then
      assert dir[..|dir|] == dir;
      Some(ManifestIn(dir))
    else if dir == [] then
      None
    else
      var parent := dir[..|dir| - 1];
      assert forall k :: 0 <= k <= |parent| ==> parent[..k] == dir[..k];
      NearestManifest(parent, files)
  }

  /** `try_find_manifest`: look for the manifest in `start`, then in each
      parent up to the root. `files` is the set of paths that are files. */
  method TryFindManifest(start: Path, files: set<Path>) returns (found: Option<Path>)
    ensures found == NearestManifest(start, files)
  {
    var dir := start;
    while true
      invariant |dir| <= |start| && dir == start[..|dir|]
      invariant NearestManifest(dir, files) == NearestManifest(start, files)
      decreases |dir|
    {
      var manifest := ManifestIn(dir);
      if manifest in files {
        return Some(manifest);
      }
      if dir == [] {
        return None;
      }
      dir := dir[..|dir| - 1];
    }
  }

  // ---------------------------------------------------------------------------
  // Reading the manifest as a record

  datatype Dependency = Git(git: string) | PathDep(path: string)

  datatype PackageMeta = PackageMeta(name: Option<string>, packageType: Option<PackageType>, version: Option<string>)

  datatype ManifestData = ManifestData(package: PackageMeta, dependencies: seq<(string, Dependency)>)

  /** An optional string field: `Some(None)` when absent, `None` when present
      with another type (a deserialisation error). */
  function OptionalString(t: Table, key: string): Option<Option<string>>
  {
    match Lookup(t, key)
    case None => Some(None)
    case Some(TString(s)) => Some(Some(s))
    case Some(_) => None
  }

  /** An optional list of strings: absent, or an array whose items are all
      strings. */
  predicate OptionalStringList(t: Table, key: string)
  {
    match Lookup(t, key)
    case None => true
    case Some(TArray(items)) => forall i :: 0 <= i < |items| ==> items[i].TString?
    case Some(_) => false
  }

  /** The fields of `Package` the core never reads must still have their
      declared types for the record to decode; their values are not kept. */
  predicate UnreadFieldsWellTyped(t: Table)
  {
    && OptionalString(t, "compiler_version").Some?
    && OptionalString(t, "description").Some?
    && OptionalString(t, "license").Some?
    && OptionalString(t, "documentation").Some?
    && OptionalString(t, "repository").Some?
    && OptionalStringList(t, "authors")
    && OptionalStringList(t, "keywords")
  }

  function DecodePackage(v: TomlValue): Option<PackageMeta>
  {
    if !v.TTable? || !UnreadFieldsWellTyped(v.entries) then None
    else
      var name := OptionalString(v.entries, "name");
      var version := OptionalString(v.entries, "version");
      var ty := OptionalString(v.entries, "type");
      if name.None? || version.None? || ty.None? then None
      else if ty.value.None? then Some(PackageMeta(name.value, None, version.value))
      else match ParsePackageType(ty.value.value)
        case None => None
        case Some(t) => Some(PackageMeta(name.value, Some(t), version.value))
  }

  /** Every field of `Package` is type-checked: a string field holding
      anything but a string makes the package fail to decode. */
  lemma DecodePackageRejectsNonString(v: TomlValue, key: string)
    requires v.TTable?
    requires key in ["name", "type", "compiler_version", "version", "description", "license", "documentation", "repository"]
    requires Lookup(v.entries, key).Some? && !Lookup(v.entries, key).value.TString?
    ensures DecodePackage(v).None?
  {
  }

  /** `authors` and `keywords` must be arrays of strings when present. */
  lemma DecodePackageRejectsNonList(v: TomlValue, key: string)
    requires v.TTable?
    requires key in ["authors", "keywords"]
    requires Lookup(v.entries, key).Some?
    requires var u := Lookup(v.entries, key).value;
      !u.TArray? || exists i :: 0 <= i < |u.items| && !u.items[i].TString?
    ensures DecodePackage(v).None?
  {
  }

  /** `authors = "me"` does not decode; `authors = ["me"]` does, and the
      list is not kept. */
  lemma DecodePackageAuthorsExample()
    ensures DecodePackage(TTable([("name", TString("a")), ("authors", TString("me"))], false)).None?
    ensures DecodePackage(TTable([("name", TString("a")), ("authors", TArray([TString("me")]))], false))
         == Some(PackageMeta(Some("a"), None, None))
  {
  }

  /** The untagged `Dependency` enum: the `Git` shape is tried first. */
  function DecodeDependency(v: TomlValue): Option<Dependency>
  {
    if !v.TTable? then None
    else
      var git := OptionalString(v.entries, "git");
      var path := OptionalString(v.entries, "path");
      if git.Some? && git.value.Some?
         && OptionalString(v.entries, "tag").Some? && OptionalString(v.entries, "directory").Some?
      then Some(Git(git.value.value))
      else if path.Some? && path.value.Some? then Some(PathDep(path.value.value))
      else None
  }

  function DecodeDependencies(t: Table): Option<seq<(string, Dependency)>>
  {
    if t == [] then Some([])
    else match (DecodeDependency(t[0].1), DecodeDependencies(t[1..]))
      case (Some(d), Some(rest)) => Some([(t[0].0, d)] + rest)
      case _ => None
  }

  /** The typed `Manifest` record: both `package` and `dependencies` are
      required. */
  function DecodeManifest(doc: Document): Option<ManifestData>
  {
    match (Lookup(doc.root, "package"), Lookup(doc.root, "dependencies"))
    case (Some(p), Some(TTable(entries, _))) =>
      (match (DecodePackage(p), DecodeDependencies(entries))
       case (Some(meta), Some(deps)) => Some(ManifestData(meta, deps))
       case _ => None)
    case _ => None
  }

  const MANIFEST_NOT_FOUND := "Unable to find Nargo.toml manifest file. Please verify you are in the correct directory."
  const MANIFEST_INVALID := "Failed to parse Nargo.toml manifest file. Assure file has all required properties."

  /** `read_manifest`: the manifest must sit in `dir` itself (no search
      upwards) and must decode to the typed record. */
  function ReadManifest(dir: Path, docs: map<Path, Document>): (r: Result<ManifestData, string>)
    ensures ManifestIn(dir) !in docs ==> r == Err(MANIFEST_NOT_FOUND)
    ensures r.Ok? <==> ManifestIn(dir) in docs && DecodeManifest(docs[ManifestIn(dir)]).Some?
  {
    if ManifestIn(dir) !in docs then Err(MANIFEST_NOT_FOUND)
    else match DecodeManifest(docs[ManifestIn(dir)])
      case None => Err(MANIFEST_INVALID)
      case Some(m) => Ok(m)
  }

  const READ_PANIC := "Cannot read Nargo.toml manifest file"
  const NO_MANIFEST_PANIC := "Unable to find manifest"
  const INDEX_PANIC := "index not found"

  /** `write_package_dep` (noir-libs/src/manifest.rs) on the manifests: a
      path that is not a manifest file cannot be read and panics, and so does
      toml_edit's indexing of a `dependencies` value that is not a table;
      otherwise that manifest gets the insertion. A panic is `Err` with its
      message. */
  function WriteOn(docs: map<Path, Document>, manifestPath: Path, name: string, path: string)
    : (Result<Path, string>, map<Path, Document>)
  {
    if manifestPath !in docs then (Err(READ_PANIC), docs)
    else if !CanIndexDependencies(docs[manifestPath]) then (Err(INDEX_PANIC), docs)
    else (Ok(manifestPath), docs[manifestPath := InsertDependency(docs[manifestPath], name, path)])
  }

  /** The write panics exactly when the path is not a manifest or its
      `dependencies` cannot be indexed, and then writes nothing; otherwise it
      rewrites only that manifest, whose table then maps the package to
      `{ path = path }` and keeps every other entry. */
  lemma WriteSpec(docs: map<Path, Document>, manifestPath: Path, name: string, path: string)
    ensures var (r, docs') := WriteOn(docs, manifestPath, name, path);
      && (manifestPath !in docs ==> r == Err(READ_PANIC))
      && (manifestPath in docs && !CanIndexDependencies(docs[manifestPath]) ==> r == Err(INDEX_PANIC))
      && (r.Err? ==> docs' == docs)
      && (r.Ok? <==> manifestPath in docs && CanIndexDependencies(docs[manifestPath]))
      && (r.Ok? ==>
            && r.value == manifestPath
            && docs'.Keys == docs.Keys
            && (forall p :: p in docs && p != manifestPath ==> docs'[p] == docs[p])
            && DependencyEntries(docs'[manifestPath]).Some?
            && Lookup(DependencyEntries(docs'[manifestPath]).value, name) == Some(DepEntry(path))
            && (forall k :: k != name && DependencyEntries(docs[manifestPath]).Some? ==>
                  Lookup(DependencyEntries(docs'[manifestPath]).value, k)
                  == Lookup(DependencyEntries(docs[manifestPath]).value, k)))
  {
    if manifestPath in docs && CanIndexDependencies(docs[manifestPath]) {
      InsertDependencySpec(docs[manifestPath], name, path);
    }
  }

  /** The older `write_package_dep` (src/manifest.rs) on the manifests: no
      manifest above `projectDir` panics, and so does toml_edit's indexing
      of a `dependencies` value that is not a table; otherwise the nearest
      manifest gets the older insertion. A panic is `Err` with its message. */
  function LegacyWriteOn(docs: map<Path, Document>, projectDir: Path, name: string, path: string)
    : (Result<Path, string>, map<Path, Document>)
  {
    match NearestManifest(projectDir, docs.Keys)
    case None => (Err(NO_MANIFEST_PANIC), docs)
    case Some(m) =>
      if !CanIndexDependencies(docs[m]) then (Err(INDEX_PANIC), docs)
      else (Ok(m), docs[m := LegacyInsertDependency(docs[m], name, path)])
  }

  /** The older write panics exactly when no manifest is found or its
      `dependencies` cannot be indexed, and then writes nothing; otherwise it
      rewrites only the nearest manifest, whose table then maps the package
      to `{ path = path }` and keeps every other entry. */
  lemma LegacyWriteSpec(docs: map<Path, Document>, projectDir: Path, name: string, path: string)
    ensures var (r, docs') := LegacyWriteOn(docs, projectDir, name, path);
      var found := NearestManifest(projectDir, docs.Keys);
      && (found.None? ==> r == Err(NO_MANIFEST_PANIC))
      && (found.Some? && !CanIndexDependencies(docs[found.value]) ==> r == Err(INDEX_PANIC))
      && (r.Err? ==> docs' == docs)
      && (r.Ok? <==> found.Some? && CanIndexDependencies(docs[found.value]))
      && (r.Ok? ==>
            && r.value == found.value
            && docs'.Keys == docs.Keys
            && (forall p :: p in docs && p != r.value ==> docs'[p] == docs[p])
            && DependencyEntries(docs'[r.value]).Some?
            && Lookup(DependencyEntries(docs'[r.value]).value, name) == Some(DepEntry(path))
            && (forall k :: k != name && DependencyEntries(docs[r.value]).Some? ==>
                  Lookup(DependencyEntries(docs'[r.value]).value, k)
                  == Lookup(DependencyEntries(docs[r.value]).value, k)))
  {
    var found := NearestManifest(projectDir, docs.Keys);
    if found.Some? && CanIndexDependencies(docs[found.value]) {
      LegacyInsertDependencySpec(docs[found.value], name, path);
    }
  }

  /** After the older insertion the table maps `name` to `{ path = path }`
      and keeps every other entry. */
  lemma LegacyInsertDependencySpec(doc: Document, name: string, path: string)
    requires CanIndexDependencies(doc)
    ensures var r := LegacyInsertDependency(doc, name, path);
      && DependencyEntries(r).Some?
      && Lookup(DependencyEntries(r).value, name) == Some(DepEntry(path))
      && (forall k :: k != name && DependencyEntries(doc).Some? ==>
            Lookup(DependencyEntries(r).value, k) == Lookup(DependencyEntries(doc).value, k))
  {
    var deps := DependencyTableOr(doc, true);
    var entries := Put(deps.entries, name, DepEntry(path));
    PutSpec(doc.root, "dependencies", TTable(entries, deps.inline));
    assert DependencyEntries(LegacyInsertDependency(doc, name, path)) == Some(entries);
    PutSpec(deps.entries, name, DepEntry(path));
    if Lookup(doc.root, "dependencies").Some? {
      assert DependencyEntries(doc) == Some(deps.entries);
    }
  }

  // ---------------------------------------------------------------------------
  // Manifest files on disk

  /** The manifests on disk, each held as its parsed document. Every path in
      `docs` is a regular file. */
  class ManifestFiles {
    var docs: map<Path, Document>

    constructor(docs: map<Path, Document>)
      ensures this.docs == docs
    {
      this.docs := docs;
    }

    /** `write_package_dep` (noir-libs/src/manifest.rs): rewrite the manifest
        at the given path; `Err` carries the message of the panic when it is
        not a manifest or its `dependencies` cannot be indexed. */
    method WritePackageDep(manifestPath: Path, name: string, path: string) returns (written: Result<Path, string>)
      modifies this
      ensures (written, docs) == WriteOn(old(docs), manifestPath, name, path)
    {
      if manifestPath !in docs {
        return Err(READ_PANIC);
      }
      if !CanIndexDependencies(docs[manifestPath]) {
        return Err(INDEX_PANIC);
      }
      docs := docs[manifestPath := InsertDependency(docs[manifestPath], name, path)];
      written := Ok(manifestPath);
    }

    /** `write_package_dep` (src/manifest.rs): find the nearest manifest
        above `projectDir` and rewrite it; `Err` carries the message of the
        panic when there is none or its `dependencies` cannot be indexed. */
    method LegacyWritePackageDep(projectDir: Path, name: string, path: string) returns (written: Result<Path, string>)
      modifies this
      ensures (written, docs) == LegacyWriteOn(old(docs), projectDir, name, path)
    {
      var found := TryFindManifest(projectDir, docs.Keys);
      if found.None? {
        return Err(NO_MANIFEST_PANIC);
      }
      var m := found.value;
      if !CanIndexDependencies(docs[m]) {
        return Err(INDEX_PANIC);
      }
      docs := docs[m := LegacyInsertDependency(docs[m], name, path)];
      written := Ok(m);
    }

    /** `remove_package` (both generations): find the nearest manifest above
        `dir` (panicking when there is none) and drop the package from it. */
    method RemovePackage(dir: Path, name: string)
      requires NearestManifest(dir, docs.Keys).Some?
      modifies this
      ensures var m := NearestManifest(dir, old(docs).Keys).value;
        docs == old(docs)[m := RemoveDependency(old(docs)[m], name)]
    {
      var found := TryFindManifest(dir, docs.Keys);
      var m := found.value;
      docs := docs[m := RemoveDependency(docs[m], name)];
    }
  }
}
