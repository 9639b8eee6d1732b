/** An immutable model of the part of the operating system's filesystem the
    driver touches: a map from path to entry, and the `os`/`ioutil` calls it
    makes, each as a pure function from the old map to the new one. */
module FileSystem {
  import opened Paths
  import opened Results
  import Names

  newtype byte = b: int | 0 <= b < 256

  type Bytes = seq<byte>

  datatype Node = Dir | File(bytes: Bytes)

  /** Every entry below `/`. The root `/` itself is always a directory and is
      not a key of the map. */
  type Fs = map<Path, Node>

  /** The map is a tree: `/` is implicit and every entry's parent is a
      directory entry. */
  ghost predicate WellFormed(fs: Fs)
  {
    && [] !in fs
    && forall p {:trigger Parent(p)} :: p in fs && |p| > 1 ==> Parent(p) in fs && fs[Parent(p)].Dir?
  }

  predicate Present(fs: Fs, p: Path)
  {
    |p| == 0 || p in fs
  }

  predicate IsDirAt(fs: Fs, p: Path)
  {
    |p| == 0 || (p in fs && fs[p].Dir?)
  }

  predicate IsFileAt(fs: Fs, p: Path)
  {
    |p| > 0 && p in fs && fs[p].File?
  }

  /** `p` has the same entry, or the same absence, in both maps. */
  predicate SameAt(fs: Fs, fs': Fs, p: Path)
  {
    (p in fs <==> p in fs') && (p in fs ==> fs[p] == fs'[p])
  }

  /** Some proper ancestor of `p` is a regular file. */
  predicate BlockedByFile(fs: Fs, p: Path)
  {
    exists i :: 0 < i < |p| && IsFileAt(fs, p[..i])
  }

  /** The error the kernel reports for a path that is not there: ENOTDIR when
      the walk down to it meets a regular file, ENOENT otherwise. */
  function Missing(fs: Fs, p: Path): (e: Error)
    ensures e == NotDir(p) || e == NotExist(p)
    ensures e.NotDir? <==> BlockedByFile(fs, p)
  {
    if BlockedByFile(fs, p) then NotDir(p) else NotExist(p)
  }

  /** os.Stat. */
  function Lookup(fs: Fs, p: Path): (r: Result<Node>)
    ensures r.Ok? <==> Present(fs, p)
    ensures |p| > 0 && p in fs ==> r == Ok(fs[p])
    ensures |p| == 0 ==> r == Ok(Dir)
    ensures r.Err? ==> r.error == Missing(fs, p)
  {
    if |p| == 0 then Ok(Dir)
    else if p in fs then Ok(fs[p])
    else Err(Missing(fs, p))
  }

  /** In a tree every ancestor of an entry is a directory entry. */
  lemma {:induction false} AncestorsAreDirs(fs: Fs, p: Path, i: nat)
    requires WellFormed(fs) && p in fs && 0 < i < |p|
    ensures p[..i] in fs && fs[p[..i]].Dir?
    decreases |p|
  {
    var q := Parent(p);
    assert q in fs && fs[q].Dir?;
    if i < |q| {
      AncestorsAreDirs(fs, q, i);
      assert q[..i] == p[..i];
    } else {
      assert q == p[..i];
    }
  }

  /** Nothing that is present lies below a regular file. */
  lemma PresentIsNotBlocked(fs: Fs, p: Path)
    requires WellFormed(fs) && Present(fs, p)
    ensures !BlockedByFile(fs, p)
  {
    forall i | 0 < i < |p| ensures !IsFileAt(fs, p[..i]) {
      AncestorsAreDirs(fs, p, i);
    }
  }

  /** Below a directory the walk meets no regular file: every proper
      ancestor of `p` is the parent directory or one of its ancestors. */
  lemma UnderDirNotBlocked(fs: Fs, p: Path)
    requires WellFormed(fs) && |p| > 0 && IsDirAt(fs, Parent(p))
    ensures !BlockedByFile(fs, p)
  {
    var q := Parent(p);
    PresentIsNotBlocked(fs, q);
    forall i | 0 < i < |p| ensures !IsFileAt(fs, p[..i]) {
      if i < |q| {
        assert q[..i] == p[..i];
      } else {
        assert p[..i] == q;
      }
    }
  }

  /** When the `.json` sibling of `p` exists, the walk down to `p` meets no
      regular file either: the two share their ancestors. */
  lemma SiblingUnblocked(fs: Fs, p: Path, ext: string)
    requires WellFormed(fs) && Present(fs, WithSuffix(p, ext))
    ensures !BlockedByFile(fs, p)
  {
    PresentIsNotBlocked(fs, WithSuffix(p, ext));
    forall i | 0 < i < |p| ensures !IsFileAt(fs, p[..i]) {
      SuffixKeepsAncestors(p, ext, i);
      assert WithSuffix(p, ext)[..i] == p[..i];
    }
  }

  /** os.MkdirAll: creates `p` and its missing ancestors as directories;
      fails with ENOTDIR naming the first ancestor that is a regular file. */
  function MkdirAll(fs: Fs, p: Path): (r: Result<Fs>)
    ensures r.Ok? ==> IsDirAt(r.value, p)
    ensures r.Ok? ==> forall q :: q in fs ==> q in r.value && r.value[q] == fs[q]
    ensures r.Ok? ==> forall q :: q in r.value && q !in fs ==> IsPrefix(q, p) && r.value[q] == Dir
    ensures r.Err? ==> r.error.NotDir? && IsPrefix(r.error.path, p) && IsFileAt(fs, r.error.path)
    ensures r.Ok? && WellFormed(fs) ==> WellFormed(r.value)
    decreases |p|
  {
    if |p| == 0 then Ok(fs)
    else if p in fs then (if fs[p].Dir? then Ok(fs) else Err(NotDir(p)))
    else
      match MkdirAll(fs, Parent(p))
      case Err(e) =>
        PrefixOfParent(e.path, p);
        Err(e)
      case Ok(fs') =>
        assert forall q :: q in fs' && q !in fs ==> IsPrefix(q, p) by {
          forall q | q in fs' && q !in fs ensures IsPrefix(q, p) {
            PrefixOfParent(q, p);
          }
        }
        Ok(fs'[p := Dir])
  }

  /** MkdirAll succeeds exactly when no ancestor of `p`, nor `p`, is a
      regular file. */
  lemma {:induction false} MkdirAllSucceedsIff(fs: Fs, p: Path)
    requires WellFormed(fs)
    ensures MkdirAll(fs, p).Ok? <==> forall i :: 0 < i <= |p| ==> !IsFileAt(fs, p[..i])
    decreases |p|
  {
    if |p| == 0 {
    } else if p in fs {
      if fs[p].Dir? {
        forall i | 0 < i <= |p| ensures !IsFileAt(fs, p[..i]) {
          if i < |p| {
            AncestorsAreDirs(fs, p, i);
          } else {
            assert p[..i] == p;
          }
        }
      } else {
        assert p[..|p|] == p;
      }
    } else {
      MkdirAllSucceedsIff(fs, Parent(p));
      forall i | 0 < i <= |p| - 1 ensures Parent(p)[..i] == p[..i] {
      }
      assert p[..|p|] == p;
    }
  }

  /** ioutil.WriteFile: creates or truncates the regular file `p`. Fails with
      EISDIR on a directory and with ENOENT/ENOTDIR when the parent is not a
      directory. */
  function WriteFile(fs: Fs, p: Path, data: Bytes): (r: Result<Fs>)
    ensures r.Ok? ==> |p| > 0 && r.value == fs[p := File(data)]
    ensures IsDirAt(fs, p) ==> r == Err(IsDir(p))
    ensures |p| > 0 && !IsDirAt(fs, p) && IsDirAt(fs, Parent(p)) ==> r.Ok?
    ensures r.Ok? && WellFormed(fs) ==> WellFormed(r.value)
  {
    if |p| == 0 then Err(IsDir(p))
    else if p in fs then (if fs[p].Dir? then Err(IsDir(p)) else Ok(fs[p := File(data)]))
    else if IsDirAt(fs, Parent(p)) then Ok(fs[p := File(data)])
    else Err(Missing(fs, p))
  }

  /** os.Rename of a regular file (or of a missing source). The destination
      is replaced when it is a file; a directory destination is refused with
      EEXIST, as Go's os.Rename does before calling rename(2). */
  function RenameFile(fs: Fs, src: Path, dst: Path): (r: Result<Fs>)
    requires !Present(fs, src) || IsFileAt(fs, src)
    ensures r.Ok? ==> IsFileAt(fs, src) && src !in r.value - {dst} && r.value == (fs - {src})[dst := fs[src]]
    ensures !Present(fs, src) ==> r == Err(Missing(fs, src))
    ensures IsFileAt(fs, src) && IsDirAt(fs, dst) ==> r == Err(AlreadyExists(dst))
    ensures IsFileAt(fs, src) && |dst| > 0 && !IsDirAt(fs, dst) && IsDirAt(fs, Parent(dst)) ==> r.Ok?
    ensures r.Ok? && WellFormed(fs) ==> WellFormed(r.value)
  {
    if !Present(fs, src) then Err(Missing(fs, src))
    else if IsDirAt(fs, dst) then Err(AlreadyExists(dst))
    else if !IsDirAt(fs, Parent(dst)) then Err(Missing(fs, dst))
    else Ok((fs - {src})[dst := fs[src]])
  }

  /** os.RemoveAll: removes `p` and everything below it; a missing `p` is not
      an error. */
  function RemoveAll(fs: Fs, p: Path): (r: Fs)
    ensures forall k :: k in r <==> k in fs && !IsPrefix(p, k)
    ensures forall k :: k in r ==> r[k] == fs[k]
    ensures !Present(fs, p) && WellFormed(fs) ==> r == fs
    ensures WellFormed(fs) ==> WellFormed(r)
  {
    var r := map k | k in fs && !IsPrefix(p, k) :: fs[k];
    assert WellFormed(fs) ==> WellFormed(r) by {
      if WellFormed(fs) {
        assert forall k :: k in r && |k| > 1 ==> Parent(k) in r;
      }
    }
    assert !Present(fs, p) && WellFormed(fs) ==> r == fs by {
      if !Present(fs, p) && WellFormed(fs) {
        forall k | k in fs ensures !IsPrefix(p, k) {
          if IsPrefix(p, k) && k != p {
            AncestorsAreDirs(fs, k, |p|);
          }
        }
      }
    }
    r
  }

  /** Removing a regular file removes nothing else: nothing lies below it. */
  lemma RemoveAllOfFile(fs: Fs, p: Path)
    requires WellFormed(fs) && IsFileAt(fs, p)
    ensures RemoveAll(fs, p) == fs - {p}
  {
    forall k | k in fs && IsPrefix(p, k) ensures k == p {
      if k != p {
        AncestorsAreDirs(fs, k, |p|);
      }
    }
  }

  /** ioutil.ReadFile: the contents of a regular file. Reading a directory
      fails with EISDIR. */
  function ReadFile(fs: Fs, p: Path): (r: Result<Bytes>)
    ensures r.Ok? <==> IsFileAt(fs, p)
    ensures r.Ok? ==> fs[p] == File(r.value)
    ensures IsDirAt(fs, p) ==> r == Err(IsDir(p))
    ensures !Present(fs, p) ==> r == Err(Missing(fs, p))
  {
    match Lookup(fs, p)
    case Err(e) => Err(e)
    case Ok(Dir) => Err(IsDir(p))
    case Ok(File(b)) => Ok(b)
  }

  /** The names of the entries directly inside `p`. */
  function Children(fs: Fs, p: Path): (names: set<string>)
    ensures forall n :: n in names <==> p + [n] in fs
  {
    var names := set k | k in fs && |k| == |p| + 1 && k[..|p|] == p :: k[|p|];
    assert forall n :: p + [n] in fs ==> n in names by {
      forall n | p + [n] in fs ensures n in names {
        var k := p + [n];
        assert k[..|p|] == p && k[|p|] == n;
      }
    }
    assert forall n :: n in names ==> p + [n] in fs by {
      forall n | n in names ensures p + [n] in fs {
        var k :| k in fs && |k| == |p| + 1 && k[..|p|] == p && k[|p|] == n;
        assert k == p + [n];
      }
    }
    names
  }

  /** ioutil.ReadDir: the names inside directory `p`, sorted by name. A
      regular file cannot be listed (ENOTDIR); a missing path fails as
      os.Open does. */
  function ReadDir(fs: Fs, p: Path): (r: Result<seq<string>>)
    ensures r.Ok? <==> IsDirAt(fs, p)
    ensures r.Ok? ==> Names.Sorted(r.value) && forall n :: n in r.value <==> p + [n] in fs
    ensures r.Ok? ==> |r.value| == |Children(fs, p)|
  {
    match Lookup(fs, p)
    case Err(e) => Err(e)
    case Ok(File(_)) => Err(NotDir(p))
    case Ok(Dir) => Ok(Names.SortedSeq(Children(fs, p)))
  }
}
