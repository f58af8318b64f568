/** The directory helpers of noir-libs/src/filesystem.rs (and the older
    src/filesystem.rs, whose `ensure_dir` and `prepare_cache_dir` are the
    same) over an abstract file tree. The tree maps every path below the
    root to a directory or a file with its bytes; the root is always a
    directory. */
module FileSystem {
  import opened Wrappers
  import opened Text
  import opened Paths

  datatype Node = Dir | File(data: seq<bv8>)

  /** Every existing path below the root, with what it is. */
  type Tree = map<Path, Node>

  datatype IoErrorKind = NotFound | AlreadyExists | NotADirectory | IsADirectory

  /** `std::io::Error`: one raised by the operating system, or one built with
      `io::Error::new(kind, message)`. */
  datatype IoError = Os(kind: IoErrorKind) | Custom(kind: IoErrorKind, message: string)

  /** The `Display` text of an error (Linux wording for operating-system
      errors). */
  function IoErrorText(e: IoError): string
  {
    match e
    case Custom(_, message) => message
    case Os(NotFound) => "No such file or directory (os error 2)"
    case Os(AlreadyExists) => "File exists (os error 17)"
    case Os(NotADirectory) => "Not a directory (os error 20)"
    case Os(IsADirectory) => "Is a directory (os error 21)"
  }

  predicate Exists(fs: Tree, p: Path)
  {
    p == [] || p in fs
  }

  predicate IsDir(fs: Tree, p: Path)
  {
    p == [] || (p in fs && fs[p].Dir?)
  }

  predicate IsFile(fs: Tree, p: Path)
  {
    p != [] && p in fs && fs[p].File?
  }

  /** No prefix of `p` (`p` included, the root excluded) is a file. */
  predicate NoFileOnPath(fs: Tree, p: Path)
  {
    forall k :: 1 <= k <= |p| ==> !IsFile(fs, p[..k])
  }

  /** The non-root prefixes of `p`, `p` included. */
  function Prefixes(p: Path): set<Path>
  {
    set k | 1 <= k <= |p| :: p[..k]
  }

  /** `fs` with every missing prefix of `p` (and `p`) added as a directory. */
  function WithDirs(fs: Tree, p: Path): Tree
  {
    map q | q in fs.Keys + Prefixes(p) :: if q in fs then fs[q] else Dir
  }

  /** `fs::create_dir_all`: succeeds at once on a directory, fails with
      AlreadyExists on a file and with NotADirectory when an ancestor is a
      file; otherwise creates the path and its missing ancestors. */
  function CreateDirAll(fs: Tree, p: Path): Result<Tree, IoError>
  {
    if IsDir(fs, p) then Ok(fs)
    else if IsFile(fs, p) then Err(Os(AlreadyExists))
    else if !NoFileOnPath(fs, p) then Err(Os(NotADirectory))
    else Ok(WithDirs(fs, p))
  }

  /** `fs::remove_dir_all` on an existing path below the root: a file fails
      with NotADirectory, a directory goes away with everything inside. */
  function RemoveDirAll(fs: Tree, p: Path): Result<Tree, IoError>
    requires p != [] && p in fs
  {
    if fs[p].File? then Err(Os(NotADirectory))
    else Ok(map q | q in fs && !PathStartsWith(q, p) :: fs[q])
  }

  /** `File::create` followed by a write of `data`: the parent must be a
      directory (NotFound when it is missing, NotADirectory when a file is in
      the way) and the path must not be a directory. An existing file is
      truncated and overwritten. */
  function CreateFile(fs: Tree, p: Path, data: seq<bv8>): Result<Tree, IoError>
  {
    if p == [] then Err(Os(IsADirectory))
    else if !NoFileOnPath(fs, p[..|p| - 1]) then Err(Os(NotADirectory))
    else if !IsDir(fs, p[..|p| - 1]) then Err(Os(NotFound))
    else if IsDir(fs, p) then Err(Os(IsADirectory))
    else Ok(fs[p := File(data)])
  }

  /** `fs::copy` of an existing file: the target is created as by
      `File::create` and receives the source's bytes. */
  function CopyFile(fs: Tree, from: Path, to: Path): Result<Tree, IoError>
    requires IsFile(fs, from)
  {
    CreateFile(fs, to, fs[from].data)
  }

  /** A created file holds exactly the data written, and nothing else
      changes; creation fails only when the parent is not a directory or the
      path is one. */
  lemma CreateFileSpec(fs: Tree, p: Path, data: seq<bv8>)
    ensures CreateFile(fs, p, data).Ok? <==> p != [] && IsDir(fs, p[..|p| - 1]) && !IsDir(fs, p) && NoFileOnPath(fs, p[..|p| - 1])
    ensures CreateFile(fs, p, data).Ok? ==>
      var fs' := CreateFile(fs, p, data).value;
      && IsFile(fs', p) && fs'[p].data == data
      && (forall q :: q != p ==> (q in fs' <==> q in fs) && (q in fs ==> fs'[q] == fs[q]))
  {
  }

  /** Every directory of `fs` is still a directory in `fs'`. */
  ghost predicate KeepsDirs(fs: Tree, fs': Tree)
  {
    forall q :: IsDir(fs, q) ==> IsDir(fs', q)
  }

  /** Creating a file never replaces a directory. */
  lemma CreateFileKeepsDirs(fs: Tree, p: Path, data: seq<bv8>)
    requires CreateFile(fs, p, data).Ok?
    ensures KeepsDirs(fs, CreateFile(fs, p, data).value)
  {
    var fs' := CreateFile(fs, p, data).value;
    forall q | IsDir(fs, q)
      ensures IsDir(fs', q)
    {
      if q != [] {
        assert q != p;
      }
    }
  }

  // ---------------------------------------------------------------------------
  // ensure_dir

  const ENSURE_DIR_FILE_EXISTS := "A file with the same name as the directory exists"

  /** The panic of `prepare_cache_dir` when `ensure_dir` fails. */
  const CACHE_SETUP_PANIC := "Failed to setup cache directory"

  /** `ensure_dir`: the outcome and the tree afterwards. */
  function EnsureDirOn(fs: Tree, p: Path): (Result<(), IoError>, Tree)
  {
    if Exists(fs, p) then
      if IsFile(fs, p) then (Err(Custom(AlreadyExists, ENSURE_DIR_FILE_EXISTS)), fs)
      else (Ok(()), fs)
    else
      match CreateDirAll(fs, p)
      case Err(e) => (Err(e), fs)
      case Ok(fs') => (Ok(()), fs')
  }

  /** On a file, `ensure_dir` fails with the custom AlreadyExists error and
      changes nothing. */
  lemma EnsureDirOnFile(fs: Tree, p: Path)
    requires IsFile(fs, p)
    ensures EnsureDirOn(fs, p) == (Err(Custom(AlreadyExists, ENSURE_DIR_FILE_EXISTS)), fs)
  {
  }

  /** On an existing directory, `ensure_dir` succeeds and changes nothing. */
  lemma EnsureDirOnDir(fs: Tree, p: Path)
    requires IsDir(fs, p)
    ensures EnsureDirOn(fs, p) == (Ok(()), fs)
  {
  }

  /** `ensure_dir` succeeds whenever no file lies on the path, and a
      success leaves the path a directory. */
  lemma EnsureDirOnSucceeds(fs: Tree, p: Path)
    ensures NoFileOnPath(fs, p) ==> EnsureDirOn(fs, p).0.Ok?
    ensures EnsureDirOn(fs, p).0.Ok? ==> IsDir(EnsureDirOn(fs, p).1, p)
  {
    if !Exists(fs, p) {
      EnsureDirOnAbsent(fs, p);
      assert p[..|p|] == p;
    } else if p != [] && NoFileOnPath(fs, p) {
      assert p[..|p|] == p;
    }
  }

  /** On an absent path, `ensure_dir` succeeds exactly when no ancestor is a
      file; it then creates the path and its missing ancestors as
      directories, keeps every existing entry, and adds nothing else. */
  lemma EnsureDirOnAbsent(fs: Tree, p: Path)
    requires !Exists(fs, p)
    ensures var (r, fs') := EnsureDirOn(fs, p);
      && (r.Ok? <==> NoFileOnPath(fs, p))
      && (r.Err? ==> fs' == fs && r.error == Os(NotADirectory))
      && (r.Ok? ==>
            && (forall k :: 0 <= k <= |p| ==> IsDir(fs', p[..k]))
            && (forall q :: q in fs ==> q in fs' && fs'[q] == fs[q])
            && (forall q :: q in fs' && q !in fs ==> q != [] && PathStartsWith(p, q)))
  {
    var (r, fs') := EnsureDirOn(fs, p);
    if r.Ok? {
      assert NoFileOnPath(fs, p);
      forall k | 0 <= k <= |p|
        ensures IsDir(fs', p[..k])
      {
        if k > 0 {
          assert p[..k] in Prefixes(p);
          assert !IsFile(fs, p[..k]);
        }
      }
      forall q | q in fs' && q !in fs
        ensures q != [] && PathStartsWith(p, q)
      {
        var k :| 1 <= k <= |p| && q == p[..k];
      }
    }
  }

  /** `ensure_dir` is idempotent: a second call has the first call's outcome
      and changes nothing further. */
  lemma EnsureDirIdempotent(fs: Tree, p: Path)
    ensures var (r1, fs1) := EnsureDirOn(fs, p);
      EnsureDirOn(fs1, p) == (r1, fs1)
  {
    var (r1, fs1) := EnsureDirOn(fs, p);
    if !Exists(fs, p) {
      EnsureDirOnAbsent(fs, p);
      if r1.Ok? {
        assert p[..|p|] == p;
      }
    }
  }

  // ---------------------------------------------------------------------------
  // new_dir_replace_if_exists

  /** `new_dir_replace_if_exists`: remove the path if it exists, then create
      it (with any missing ancestors). */
  function NewDirReplaceOn(fs: Tree, p: Path): (Result<(), IoError>, Tree)
    requires p != []
  {
    if p in fs then
      match RemoveDirAll(fs, p)
      case Err(e) => (Err(e), fs)
      case Ok(fs1) =>
        (match CreateDirAll(fs1, p)
         case Err(e) => (Err(e), fs1)
         case Ok(fs2) => (Ok(()), fs2))
    else
      match CreateDirAll(fs, p)
      case Err(e) => (Err(e), fs)
      case Ok(fs2) => (Ok(()), fs2)
  }

  /** The tree is well formed when every entry's parent is a directory. */
  predicate WellFormed(fs: Tree)
  {
    forall q :: q in fs ==> q != [] && IsDir(fs, q[..|q| - 1])
  }

  /** In a well-formed tree every ancestor of an entry is a directory. */
  lemma {:induction false} AncestorsAreDirs(fs: Tree, q: Path, k: nat)
    requires WellFormed(fs) && q in fs && k < |q|
    ensures IsDir(fs, q[..k])
    decreases |q| - k
  {
    var parent := q[..|q| - 1];
    if k < |q| - 1 {
      AncestorsAreDirs(fs, parent, k);
      assert parent[..k] == q[..k];
    }
  }

  /** After `new_dir_replace_if_exists` succeeds the path is an empty
      directory; entries outside it are unchanged and the only entries added
      are the path and its missing ancestors. It fails exactly when the path
      or one of its ancestors is a file. */
  lemma NewDirReplaceSpec(fs: Tree, p: Path)
    requires p != [] && WellFormed(fs)
    ensures var (r, fs') := NewDirReplaceOn(fs, p);
      && (r.Ok? <==> NoFileOnPath(fs, p))
      && (r.Ok? ==>
            && IsDir(fs', p)
            && (forall q :: q in fs' && PathStartsWith(q, p) ==> q == p)
            && (forall q :: q in fs && !PathStartsWith(q, p) ==> q in fs' && fs'[q] == fs[q])
            && (forall q :: q in fs' && q !in fs ==> PathStartsWith(p, q)))
  {
    var (r, fs') := NewDirReplaceOn(fs, p);
    if p in fs {
      if fs[p].File? {
        assert p[..|p|] == p;
      } else {
        var fs1 := RemoveDirAll(fs, p).value;
        assert NoFileOnPath(fs, p) by {
          forall k | 1 <= k <= |p|
            ensures !IsFile(fs, p[..k])
          {
            if k < |p| {
              AncestorsAreDirs(fs, p, k);
            } else {
              assert p[..k] == p;
            }
          }
        }
        assert !Exists(fs1, p);
        assert NoFileOnPath(fs1, p) by {
          forall k | 1 <= k <= |p|
            ensures !IsFile(fs1, p[..k])
          {
            assert !IsFile(fs, p[..k]);
          }
        }
        EnsureDirOnAbsent(fs1, p);
        assert p[..|p|] == p;
        forall q | q in fs' && PathStartsWith(q, p)
          ensures q == p
        {
          if q !in fs1 {
            var k :| 1 <= k <= |p| && q == p[..k];
          }
        }
      }
    } else {
      EnsureDirOnAbsent(fs, p);
      if r.Ok? {
        assert p[..|p|] == p;
        forall q | q in fs' && PathStartsWith(q, p)
          ensures q == p
        {
          if q in fs && q != p {
            assert q[..|p|] == p;
            AncestorsAreDirs(fs, q, |p|);
            assert false;
          }
        }
      }
    }
  }

  // ---------------------------------------------------------------------------
  // copy_all

  /** One item of the directory walk: a path under the source root, or an
      error the walker reports instead of an entry. */
  datatype WalkEntry = Entry(path: Path) | WalkError(message: string)

  /** The folder filter: the rendered path does not contain
      `/<ignored folder>/`. */
  predicate PassesFolderFilter(p: Path, ignoreFolders: seq<string>)
  {
    forall i :: 0 <= i < |ignoreFolders| ==> !Contains(Render(p), "/" + ignoreFolders[i] + "/")
  }

  /** The three filters `copy_all` means to add to the walk, on one path:
      not inside the destination, not ending with an ignored file name, and
      passing the folder filter. */
  predicate PassesFilters(p: Path, dest: Path, ignoreFolders: seq<string>, ignoreFiles: seq<string>)
  {
    && !PathStartsWith(p, dest)
    && (forall i :: 0 <= i < |ignoreFiles| ==> !PathEndsWith(p, Components(ignoreFiles[i])))
    && PassesFolderFilter(p, ignoreFolders)
  }

  /** `filter_entry` prunes: an entry is yielded only when it and every
      directory between the walk root and it pass the filters. The root
      itself is never filtered. */
  predicate Kept(src: Path, p: Path, dest: Path, ignoreFolders: seq<string>, ignoreFiles: seq<string>)
  {
    forall k :: |src| < k <= |p| ==> PassesFilters(p[..k], dest, ignoreFolders, ignoreFiles)
  }

  /** Where an entry goes: the destination joined with its path relative to
      the source. */
  function Target(src: Path, dest: Path, p: Path): Path
    requires PathStartsWith(p, src)
  {
    dest + p[|src|..]
  }

  /** The body of the loop for an entry that is yielded: create a directory,
      copy a file, skip anything else; an I/O error ends the copy. */
  function CopyEntry(fs: Tree, src: Path, dest: Path, p: Path): (Result<(), IoError>, Tree)
    requires PathStartsWith(p, src)
  {
    var target := Target(src, dest, p);
    if IsDir(fs, p) then
      match CreateDirAll(fs, target)
      case Err(err) => (Err(err), fs)
      case Ok(fs') => (Ok(()), fs')
    else if IsFile(fs, p) then
      match CopyFile(fs, p, target)
      case Err(err) => (Err(err), fs)
      case Ok(fs') => (Ok(()), fs')
    else (Ok(()), fs)
  }

  /** A yielded file whose target's parent is a directory, with no file on
      the way and no directory at the target, is copied there. */
  lemma CopyEntryOfFile(fs: Tree, src: Path, dest: Path, p: Path)
    requires PathStartsWith(p, src) && IsFile(fs, p)
    requires var t := Target(src, dest, p);
      |p| > |src| && IsDir(fs, t[..|t| - 1]) && NoFileOnPath(fs, t[..|t| - 1]) && !IsDir(fs, t)
    ensures var t := Target(src, dest, p);
      CopyEntry(fs, src, dest, p) == (Ok(()), fs[t := File(fs[p].data)])
  {
  }

  /** One loop iteration of `copy_all` with all three filters in force:
      skip walk errors and filtered entries, copy the rest. */
  function CopyStep(fs: Tree, src: Path, dest: Path, ignoreFolders: seq<string>, ignoreFiles: seq<string>, e: WalkEntry)
    : (Result<(), IoError>, Tree)
    requires e.Entry? ==> PathStartsWith(e.path, src)
  {
    if e.WalkError? || !Kept(src, e.path, dest, ignoreFolders, ignoreFiles) then (Ok(()), fs)
    else CopyEntry(fs, src, dest, e.path)
  }

  /** As written, `copy_all` registers its three filters one after the other
      on the same walk builder, and each registration replaces the one
      before: only the folder filter, registered last, prunes the walk. */
  predicate KeptAsWritten(src: Path, p: Path, ignoreFolders: seq<string>)
  {
    forall k :: |src| < k <= |p| ==> PassesFolderFilter(p[..k], ignoreFolders)
  }

  /** One loop iteration of `copy_all` as written: `dest` and `ignoreFiles`
      are accepted and have no effect. */
  function CopyStepAsWritten(fs: Tree, src: Path, dest: Path, ignoreFolders: seq<string>, ignoreFiles: seq<string>, e: WalkEntry)
    : (Result<(), IoError>, Tree)
    requires e.Entry? ==> PathStartsWith(e.path, src)
  {
    if e.WalkError? || !KeptAsWritten(src, e.path, ignoreFolders) then (Ok(()), fs)
    else CopyEntry(fs, src, dest, e.path)
  }

  /** As written, a copy into a folder `dest` directly inside the source
      copies that folder into itself: the walk meets `dest` and creates
      `dest/<its name>`, where the destination filter would skip it (with
      `/p`, `/p/out`: `/p/out/out` appears). */
  lemma AsWrittenCopiesDestIntoItself(fs: Tree, src: Path, d: string, ignoreFolders: seq<string>, ignoreFiles: seq<string>)
    requires IsDir(fs, src + [d]) && NoFileOnPath(fs, src + [d]) && src + [d] + [d] !in fs
    requires PassesFolderFilter(src + [d], ignoreFolders)
    ensures CopyStep(fs, src, src + [d], ignoreFolders, ignoreFiles, Entry(src + [d])) == (Ok(()), fs)
    ensures var (r, fs') := CopyStepAsWritten(fs, src, src + [d], ignoreFolders, ignoreFiles, Entry(src + [d]));
      r.Ok? && IsDir(fs', src + [d] + [d])
  {
    var dest := src + [d];
    var t := dest + [d];
    assert dest[..|src|] == src && dest[..|dest|] == dest;
    assert Target(src, dest, dest) == t;
    assert NoFileOnPath(fs, t) by {
      forall k | 1 <= k <= |t|
        ensures !IsFile(fs, t[..k])
      {
        if k <= |dest| {
          assert t[..k] == dest[..k];
        } else {
          assert t[..k] == t;
        }
      }
    }
    assert t[..|t|] == t;
  }

  /** As written, a file with an ignored name is copied: the walk meets
      `src/<f>` and copies it to `dest/<f>`, where the file filter would skip
      it (with `/p/secret.txt` and `/q`: `/q/secret.txt` appears). */
  lemma AsWrittenCopiesIgnoredFile(fs: Tree, src: Path, dest: Path, f: string, ignoreFolders: seq<string>)
    requires IsSegment(f) && IsFile(fs, src + [f])
    requires IsDir(fs, dest) && NoFileOnPath(fs, dest) && !IsDir(fs, dest + [f])
    requires PassesFolderFilter(src + [f], ignoreFolders)
    ensures CopyStep(fs, src, dest, ignoreFolders, [f], Entry(src + [f])) == (Ok(()), fs)
    ensures CopyStepAsWritten(fs, src, dest, ignoreFolders, [f], Entry(src + [f]))
         == (Ok(()), fs[dest + [f] := fs[src + [f]]])
  {
    var p := src + [f];
    var t := dest + [f];
    assert p[..|src|] == src;
    IgnoredChildNotKept(src, dest, f, ignoreFolders);
    ChildKeptAsWritten(src, f, ignoreFolders);
    assert CopyEntry(fs, src, dest, p) == (Ok(()), fs[t := fs[p]]) by {
      assert Target(src, dest, p) == t && t[..|t| - 1] == dest;
      CopyEntryOfFile(fs, src, dest, p);
    }
  }

  /** A child of the walk root named like an ignored file fails the three
      filters. */
  lemma IgnoredChildNotKept(src: Path, dest: Path, f: string, ignoreFolders: seq<string>)
    requires IsSegment(f)
    ensures !Kept(src, src + [f], dest, ignoreFolders, [f])
  {
    var p := src + [f];
    assert p[..|p|] == p;
    ComponentsOfSegment(f);
    assert PathEndsWith(p, Components([f][0]));
  }

  /** A child of the walk root that passes the folder filter is yielded by
      the walk as written. */
  lemma ChildKeptAsWritten(src: Path, f: string, ignoreFolders: seq<string>)
    requires PassesFolderFilter(src + [f], ignoreFolders)
    ensures KeptAsWritten(src, src + [f], ignoreFolders)
  {
    var p := src + [f];
    assert p[..|p|] == p;
  }

  /** Where the folder filter alone already refuses everything inside the
      destination, the walk as written keeps what the destination filter and
      the folder filter together keep: the copy as written then differs from
      the three-filter copy only in the ignored file names. */
  lemma KeptAsWrittenAgrees(fs: Tree, src: Path, p: Path, dest: Path, ignoreFolders: seq<string>, ignoreFiles: seq<string>)
    requires forall q :: PathStartsWith(q, dest) ==> !PassesFolderFilter(q, ignoreFolders)
    ensures Kept(src, p, dest, ignoreFolders, []) <==> KeptAsWritten(src, p, ignoreFolders)
    ensures PathStartsWith(p, src) ==>
      CopyStepAsWritten(fs, src, dest, ignoreFolders, ignoreFiles, Entry(p)) == CopyStep(fs, src, dest, ignoreFolders, [], Entry(p))
  {
    forall k | |src| < k <= |p|
      ensures PassesFilters(p[..k], dest, ignoreFolders, []) <==> PassesFolderFilter(p[..k], ignoreFolders)
    {
      if PathStartsWith(p[..k], dest) {
        assert !PassesFolderFilter(p[..k], ignoreFolders);
      }
    }
  }

  predicate WalkUnder(walk: seq<WalkEntry>, src: Path)
  {
    forall i :: 0 <= i < |walk| && walk[i].Entry? ==> PathStartsWith(walk[i].path, src)
  }

  /** `copy_all` over a whole walk: the steps in order, stopping at the first
      error. */
  function CopyAllOn(fs: Tree, src: Path, dest: Path, ignoreFolders: seq<string>, ignoreFiles: seq<string>, walk: seq<WalkEntry>)
    : (Result<(), IoError>, Tree)
    requires WalkUnder(walk, src)
    decreases |walk|
  {
    if walk == [] then (Ok(()), fs)
    else
      var (r, fs1) := CopyStep(fs, src, dest, ignoreFolders, ignoreFiles, walk[0]);
      if r.Err? then (r, fs1)
      else CopyAllOn(fs1, src, dest, ignoreFolders, ignoreFiles, walk[1..])
  }

  /** A walk error is skipped: the copy goes on with the rest of the walk. */
  lemma CopyAllSkipsWalkErrors(fs: Tree, src: Path, dest: Path, ignoreFolders: seq<string>, ignoreFiles: seq<string>,
                               msg: string, rest: seq<WalkEntry>)
    requires WalkUnder(rest, src)
    ensures WalkUnder([WalkError(msg)] + rest, src)
    ensures CopyAllOn(fs, src, dest, ignoreFolders, ignoreFiles, [WalkError(msg)] + rest)
         == CopyAllOn(fs, src, dest, ignoreFolders, ignoreFiles, rest)
  {
    assert ([WalkError(msg)] + rest)[1..] == rest;
  }

  /** One step keeps every existing entry, changes at most the entry's
      target, and adds only paths inside the destination or on the way to
      it. */
  lemma {:induction false} CopyStepFrame(fs: Tree, src: Path, dest: Path, ignoreFolders: seq<string>, ignoreFiles: seq<string>, e: WalkEntry)
    requires e.Entry? ==> PathStartsWith(e.path, src)
    ensures var (r, fs') := CopyStep(fs, src, dest, ignoreFolders, ignoreFiles, e);
      && (forall q :: q in fs ==> q in fs')
      && (forall q :: q in fs && (e.WalkError? || q != Target(src, dest, e.path)) ==> fs'[q] == fs[q])
      && (forall q :: q in fs' && q !in fs ==> PathStartsWith(q, dest) || PathStartsWith(dest, q))
  {
    var (r, fs') := CopyStep(fs, src, dest, ignoreFolders, ignoreFiles, e);
    if e.Entry? && Kept(src, e.path, dest, ignoreFolders, ignoreFiles) {
      var target := Target(src, dest, e.path);
      if IsDir(fs, e.path) && r.Ok? && !IsDir(fs, target) {
        forall q | q in fs' && q !in fs
          ensures PathStartsWith(q, dest) || PathStartsWith(dest, q)
        {
          var k :| 1 <= k <= |target| && q == target[..k];
          if k <= |dest| {
            assert dest[..k] == q;
          } else {
            assert q[..|dest|] == dest;
          }
        }
      }
    }
  }

  /** The whole copy never removes an entry, never changes an entry that is
      not the target of some kept entry of the walk, and adds only paths
      inside the destination or on the way to it. */
  lemma {:induction false} CopyAllFrame(fs: Tree, src: Path, dest: Path, ignoreFolders: seq<string>, ignoreFiles: seq<string>, walk: seq<WalkEntry>)
    requires WalkUnder(walk, src)
    ensures var (r, fs') := CopyAllOn(fs, src, dest, ignoreFolders, ignoreFiles, walk);
      && (forall q :: q in fs ==> q in fs')
      && (forall q :: q in fs && (forall i :: 0 <= i < |walk| && walk[i].Entry? ==> q != Target(src, dest, walk[i].path))
            ==> fs'[q] == fs[q])
      && (forall q :: q in fs' && q !in fs ==> PathStartsWith(q, dest) || PathStartsWith(dest, q))
    decreases |walk|
  {
    if walk != [] {
      CopyStepFrame(fs, src, dest, ignoreFolders, ignoreFiles, walk[0]);
      var (r, fs1) := CopyStep(fs, src, dest, ignoreFolders, ignoreFiles, walk[0]);
      if r.Ok? {
        var rest := walk[1..];
        assert WalkUnder(rest, src) by {
          forall i | 0 <= i < |rest| && rest[i].Entry?
            ensures PathStartsWith(rest[i].path, src)
          {
            assert rest[i] == walk[i + 1];
          }
        }
        CopyAllFrame(fs1, src, dest, ignoreFolders, ignoreFiles, rest);
        var (r', fs') := CopyAllOn(fs1, src, dest, ignoreFolders, ignoreFiles, rest);
        forall q | q in fs && (forall i :: 0 <= i < |walk| && walk[i].Entry? ==> q != Target(src, dest, walk[i].path))
          ensures fs'[q] == fs[q]
        {
          forall i | 0 <= i < |rest| && rest[i].Entry?
            ensures q != Target(src, dest, rest[i].path)
          {
            assert rest[i] == walk[i + 1];
          }
        }
      }
    }
  }

  /** Nothing outside the destination and the directories leading to it is
      written: in particular no source entry outside `dest` changes. */
  lemma CopyAllOnlyWritesUnderDest(fs: Tree, src: Path, dest: Path, ignoreFolders: seq<string>, ignoreFiles: seq<string>,
                                   walk: seq<WalkEntry>, q: Path)
    requires WalkUnder(walk, src)
    requires q in fs && !PathStartsWith(q, dest)
    ensures var (_, fs') := CopyAllOn(fs, src, dest, ignoreFolders, ignoreFiles, walk);
      q in fs' && fs'[q] == fs[q]
  {
    CopyAllFrame(fs, src, dest, ignoreFolders, ignoreFiles, walk);
    forall i | 0 <= i < |walk| && walk[i].Entry?
      ensures q != Target(src, dest, walk[i].path)
    {
      var t := Target(src, dest, walk[i].path);
      assert t[..|dest|] == dest;
    }
  }

  /** An entry the filters reject is not copied: its step leaves the tree as
      it is. In particular nothing inside `dest` is ever copied. */
  lemma FilteredEntryIsSkipped(fs: Tree, src: Path, dest: Path, ignoreFolders: seq<string>, ignoreFiles: seq<string>, p: Path)
    requires PathStartsWith(p, src) && |p| > |src|
    requires !PassesFilters(p, dest, ignoreFolders, ignoreFiles)
    ensures CopyStep(fs, src, dest, ignoreFolders, ignoreFiles, Entry(p)) == (Ok(()), fs)
  {
    assert p[..|p|] == p;
  }

  /** Inside `dest` nothing is copied: an entry there fails the first filter. */
  lemma EntryInDestFails(p: Path, dest: Path, ignoreFolders: seq<string>, ignoreFiles: seq<string>)
    requires PathStartsWith(p, dest)
    ensures !PassesFilters(p, dest, ignoreFolders, ignoreFiles)
  {
  }

  /** Paths under the same root with the same target are the same path. */
  lemma TargetInjective(src: Path, dest: Path, p1: Path, p2: Path)
    requires PathStartsWith(p1, src) && PathStartsWith(p2, src)
    requires Target(src, dest, p1) == Target(src, dest, p2)
    ensures p1 == p2
  {
    assert p1[|src|..] == Target(src, dest, p1)[|dest|..];
    assert p2[|src|..] == Target(src, dest, p2)[|dest|..];
    assert p1 == src + p1[|src|..];
    assert p2 == src + p2[|src|..];
  }

  /** On success, each kept file of the walk has its bytes at its target,
      provided the walk visits each path once and the file is not itself an
      ancestor of the destination. */
  lemma {:induction false} CopyAllCopiesFiles(fs: Tree, src: Path, dest: Path, ignoreFolders: seq<string>, ignoreFiles: seq<string>,
                                              walk: seq<WalkEntry>, i: nat)
    requires WalkUnder(walk, src)
    requires forall a, b :: 0 <= a < b < |walk| && walk[a].Entry? && walk[b].Entry? ==> walk[a].path != walk[b].path
    requires i < |walk| && walk[i].Entry? && |walk[i].path| > |src|
    requires Kept(src, walk[i].path, dest, ignoreFolders, ignoreFiles)
    requires IsFile(fs, walk[i].path) && !PathStartsWith(dest, walk[i].path)
    requires CopyAllOn(fs, src, dest, ignoreFolders, ignoreFiles, walk).0.Ok?
    ensures var fs' := CopyAllOn(fs, src, dest, ignoreFolders, ignoreFiles, walk).1;
      var t := Target(src, dest, walk[i].path);
      t in fs' && fs'[t] == fs[walk[i].path]
    decreases |walk|
  {
    var p := walk[i].path;
    var t := Target(src, dest, p);
    var rest := walk[1..];
    assert WalkUnder(rest, src) by {
      forall j | 0 <= j < |rest| && rest[j].Entry?
        ensures PathStartsWith(rest[j].path, src)
      {
        assert rest[j] == walk[j + 1];
      }
    }
    CopyStepFrame(fs, src, dest, ignoreFolders, ignoreFiles, walk[0]);
    var (r, fs1) := CopyStep(fs, src, dest, ignoreFolders, ignoreFiles, walk[0]);
    assert !PathStartsWith(p, dest) by {
      assert p[..|p|] == p;
    }
    assert t[..|dest|] == dest;
    if i == 0 {
      assert !IsDir(fs, p);
      assert fs1 == fs[t := File(fs[p].data)];
      CopyAllFrame(fs1, src, dest, ignoreFolders, ignoreFiles, rest);
      forall j | 0 <= j < |rest| && rest[j].Entry?
        ensures t != Target(src, dest, rest[j].path)
      {
        assert rest[j] == walk[j + 1];
        if t == Target(src, dest, rest[j].path) {
          TargetInjective(src, dest, p, rest[j].path);
        }
      }
    } else {
      assert walk[i] == rest[i - 1];
      if walk[0].Entry? {
        assert Target(src, dest, walk[0].path)[..|dest|] == dest;
      }
      assert p in fs1 && fs1[p] == fs[p];
      forall a, b | 0 <= a < b < |rest| && rest[a].Entry? && rest[b].Entry?
        ensures rest[a].path != rest[b].path
      {
        assert rest[a] == walk[a + 1] && rest[b] == walk[b + 1];
      }
      CopyAllCopiesFiles(fs1, src, dest, ignoreFolders, ignoreFiles, rest, i - 1);
    }
  }

  /** On success, each kept directory of the walk exists as a directory at
      its target, an empty one included, provided the walk visits each path
      once. */
  lemma {:induction false} CopyAllCreatesDirs(fs: Tree, src: Path, dest: Path, ignoreFolders: seq<string>, ignoreFiles: seq<string>,
                                              walk: seq<WalkEntry>, i: nat)
    requires WalkUnder(walk, src)
    requires forall a, b :: 0 <= a < b < |walk| && walk[a].Entry? && walk[b].Entry? ==> walk[a].path != walk[b].path
    requires i < |walk| && walk[i].Entry? && |walk[i].path| > |src|
    requires Kept(src, walk[i].path, dest, ignoreFolders, ignoreFiles)
    requires IsDir(fs, walk[i].path)
    requires CopyAllOn(fs, src, dest, ignoreFolders, ignoreFiles, walk).0.Ok?
    ensures IsDir(CopyAllOn(fs, src, dest, ignoreFolders, ignoreFiles, walk).1, Target(src, dest, walk[i].path))
    decreases |walk|
  {
    var p := walk[i].path;
    var t := Target(src, dest, p);
    var rest := walk[1..];
    assert WalkUnder(rest, src) by {
      forall j | 0 <= j < |rest| && rest[j].Entry?
        ensures PathStartsWith(rest[j].path, src)
      {
        assert rest[j] == walk[j + 1];
      }
    }
    CopyStepFrame(fs, src, dest, ignoreFolders, ignoreFiles, walk[0]);
    var (r, fs1) := CopyStep(fs, src, dest, ignoreFolders, ignoreFiles, walk[0]);
    assert !PathStartsWith(p, dest) by {
      assert p[..|p|] == p;
    }
    if i == 0 {
      assert t in fs1 && fs1[t].Dir? by {
        if !IsDir(fs, t) {
          assert t[..|t|] == t;
        }
      }
      CopyAllFrame(fs1, src, dest, ignoreFolders, ignoreFiles, rest);
      forall j | 0 <= j < |rest| && rest[j].Entry?
        ensures t != Target(src, dest, rest[j].path)
      {
        assert rest[j] == walk[j + 1];
        if t == Target(src, dest, rest[j].path) {
          TargetInjective(src, dest, p, rest[j].path);
        }
      }
    } else {
      assert walk[i] == rest[i - 1];
      if walk[0].Entry? {
        assert Target(src, dest, walk[0].path)[..|dest|] == dest;
      }
      assert p in fs1 && fs1[p] == fs[p];
      forall a, b | 0 <= a < b < |rest| && rest[a].Entry? && rest[b].Entry?
        ensures rest[a].path != rest[b].path
      {
        assert rest[a] == walk[a + 1] && rest[b] == walk[b + 1];
      }
      CopyAllCreatesDirs(fs1, src, dest, ignoreFolders, ignoreFiles, rest, i - 1);
    }
  }

  // ---------------------------------------------------------------------------
  // The disk

  /** The filesystem the package manager works on. */
  class Disk {
    var tree: Tree

    constructor(tree: Tree)
      ensures this.tree == tree
    {
      this.tree := tree;
    }

    /** `ensure_dir` (both generations). */
    method EnsureDir(p: Path) returns (r: Result<(), IoError>)
      modifies this
      ensures (r, tree) == EnsureDirOn(old(tree), p)
    {
      if Exists(tree, p) {
        if IsFile(tree, p) {
          return Err(Custom(AlreadyExists, ENSURE_DIR_FILE_EXISTS));
        }
      } else {
        var created := CreateDirAll(tree, p);
        if created.Err? {
          return Err(created.error);
        }
        tree := created.value;
      }
      r := Ok(());
    }

    /** `prepare_cache_dir` (both generations): the operating system's cache
        directory (`None` when it cannot be determined), made to exist. Both
        failures panic. */
    method PrepareCacheDir(cacheDir: Option<Path>) returns (dir: Path)
      requires cacheDir.Some? && EnsureDirOn(tree, cacheDir.value).0.Ok?
      modifies this
      ensures dir == cacheDir.value
      ensures tree == EnsureDirOn(old(tree), dir).1
      ensures IsDir(tree, dir)
    {
      dir := cacheDir.value;
      ghost var before := tree;
      var r := EnsureDir(dir);
      if !Exists(before, dir) {
        EnsureDirOnAbsent(before, dir);
        assert dir[..|dir|] == dir;
      }
    }

    /** `new_dir_replace_if_exists`. */
    method NewDirReplaceIfExists(p: Path) returns (r: Result<(), IoError>)
      requires p != []
      modifies this
      ensures (r, tree) == NewDirReplaceOn(old(tree), p)
    {
      if p in tree {
        var removed := RemoveDirAll(tree, p);
        if removed.Err? {
          return Err(removed.error);
        }
        tree := removed.value;
      }
      var created := CreateDirAll(tree, p);
      if created.Err? {
        return Err(created.error);
      }
      tree := created.value;
      r := Ok(());
    }

    /** `copy_all`: walk `src` (the walker's entries are given, in its
        order), apply the three filters with pruning, and recreate each kept
        entry under `dest`. */
    method CopyAll(src: Path, dest: Path, ignoreFolders: seq<string>, ignoreFiles: seq<string>, walk: seq<WalkEntry>)
      returns (r: Result<(), IoError>)
      requires WalkUnder(walk, src)
      modifies this
      ensures (r, tree) == CopyAllOn(old(tree), src, dest, ignoreFolders, ignoreFiles, walk)
    {
      var i := 0;
      while i < |walk|
        invariant 0 <= i <= |walk|
        invariant WalkUnder(walk[i..], src)
        invariant CopyAllOn(old(tree), src, dest, ignoreFolders, ignoreFiles, walk)
               == CopyAllOn(tree, src, dest, ignoreFolders, ignoreFiles, walk[i..])
      {
        assert walk[i..][1..] == walk[i + 1..];
        var e := walk[i];
        if e.Entry? && Kept(src, e.path, dest, ignoreFolders, ignoreFiles) {
          var target := Target(src, dest, e.path);
          if IsDir(tree, e.path) {
            var created := CreateDirAll(tree, target);
            if created.Err? {
              return Err(created.error);
            }
            tree := created.value;
          } else if IsFile(tree, e.path) {
            var copied := CopyFile(tree, e.path, target);
            if copied.Err? {
              return Err(copied.error);
            }
            tree := copied.value;
          }
        }
        i := i + 1;
      }
      r := Ok(());
    }

    /** `File::create` and a write of the whole content. */
    method WriteFile(p: Path, data: seq<bv8>) returns (r: Result<(), IoError>)
      modifies this
      ensures r.Ok? <==> CreateFile(old(tree), p, data).Ok?
      ensures r.Err? ==> r.error == CreateFile(old(tree), p, data).error
      ensures tree == (if r.Ok? then CreateFile(old(tree), p, data).value else old(tree))
    {
      var created := CreateFile(tree, p, data);
      if created.Err? {
        return Err(created.error);
      }
      tree := created.value;
      r := Ok(());
    }
  }
}
