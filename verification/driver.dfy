/** The filesystem-backed document driver. Each method of the Go `Driver`
    becomes a pure function from the store and the filesystem before the call
    to the store, filesystem and error after it; the reads return only their
    result, since they change neither. */
module Driver {
  import opened Paths
  import opened Results
  import opened FileSystem
  import Locks

  /** The database root directory and the per-collection lock registry. */
  datatype Store = Store(root: Path, registry: Locks.Registry)

  /** The state after a mutating call, and the error it returned, if any. */
  datatype Step = Step(store: Store, fs: Fs, outcome: Outcome)

  /** The filesystem after a step of a call, and the error it returned. */
  datatype Effect = Effect(fs: Fs, outcome: Outcome)

  const Newline: byte := 10
  const JsonExt := ".json"
  const TmpExt := ".tmp"

  /** A collection's directory: `<root>/<collection>`. */
  function CollectionDir(st: Store, collection: string): (r: Path)
    ensures |r| > 0 && Parent(r) == st.root && r[|r| - 1] == collection
  {
    st.root + [collection]
  }

  /** Where a resource is stored: `<root>/<collection>/<resource>.json`, an
      entry of the collection's directory. */
  function RecordPath(st: Store, collection: string, resource: string): (r: Path)
    ensures |r| > 0 && Parent(r) == CollectionDir(st, collection)
    ensures r[|r| - 1] == resource + JsonExt
  {
    st.root + [collection, resource + JsonExt]
  }

  /** The temporary sibling Write fills before renaming it into place: the
      record path with `.tmp` appended. */
  function TempPath(st: Store, collection: string, resource: string): (r: Path)
    ensures r == WithSuffix(RecordPath(st, collection, resource), TmpExt)
    ensures Parent(r) == CollectionDir(st, collection)
  {
    st.root + [collection, resource + JsonExt + TmpExt]
  }

  /** What Delete probes: `<root>/<collection>/<resource>`, empty names
      dropped. With both names given, its `.json` sibling is the record. */
  function DeleteTarget(st: Store, collection: string, resource: string): (r: Path)
    ensures collection != "" && resource != "" ==>
              |r| == |st.root| + 2 && Parent(r) == CollectionDir(st, collection) && WithSuffix(r, JsonExt) == RecordPath(st, collection, resource)
    ensures collection != "" && resource == "" ==> r == CollectionDir(st, collection)
    ensures collection == "" && resource != "" ==> |r| == |st.root| + 1 && Parent(r) == st.root && r[|r| - 1] == resource
    ensures collection == "" && resource == "" ==> r == st.root
  {
    st.root + JoinNames(collection, resource)
  }

  lemma RecordAndTempDiffer(st: Store, collection: string, resource: string)
    ensures RecordPath(st, collection, resource) != TempPath(st, collection, resource)
    ensures !IsPrefix(RecordPath(st, collection, resource), CollectionDir(st, collection))
    ensures !IsPrefix(TempPath(st, collection, resource), CollectionDir(st, collection))
  {
    var rec := RecordPath(st, collection, resource);
    var tmp := TempPath(st, collection, resource);
    assert rec[|st.root| + 1] != tmp[|st.root| + 1] by {
      assert |rec[|st.root| + 1]| != |tmp[|st.root| + 1]|;
    }
  }

  /** What Read yields for bytes `b` once the file has been read: the
      decoded value, or DecodeFailed. */
  function Decoded<V>(decode: Bytes -> Option<V>, b: Bytes): (r: Result<V>)
    ensures r.Ok? <==> decode(b).Some?
    ensures r.Ok? ==> decode(b) == Some(r.value)
    ensures r.Err? ==> r.error == DecodeFailed
  {
    match decode(b)
    case None => Err(DecodeFailed)
    case Some(x) => Ok(x)
  }

  /** New: an existing root, even a regular file, is reused; otherwise the
      root and its missing ancestors are created. The store is returned
      together with any creation error. */
  function New(dir: Path, fs: Fs): (s: Step)
    ensures s.store == Store(dir, Locks.Empty())
    ensures Present(fs, dir) ==> s.fs == fs && s.outcome == Pass
    ensures !Present(fs, dir) && s.outcome.Pass? ==> IsDirAt(s.fs, dir)
    ensures s.outcome.Fail? ==> s.fs == fs && s.outcome.error.NotDir?
    ensures s.outcome.Fail? && WellFormed(fs) ==> BlockedByFile(fs, dir)
    ensures forall p :: p in fs ==> p in s.fs && s.fs[p] == fs[p]
    ensures forall p :: p in s.fs && p !in fs ==> IsPrefix(p, dir) && s.fs[p] == Dir
    ensures WellFormed(fs) ==> WellFormed(s.fs)
  {
    var store := Store(dir, Locks.Empty());
    if Present(fs, dir) then Step(store, fs, Pass)
    else
      match MkdirAll(fs, dir)
      case Err(e) =>
        assert WellFormed(fs) ==> BlockedByFile(fs, dir) by {
          if WellFormed(fs) {
            MkdirAllSucceedsIff(fs, dir);
            var i :| 0 < i <= |dir| && IsFileAt(fs, dir[..i]);
            assert dir[..|dir|] == dir;
          }
        }
        Step(store, fs, Fail(e))
      case Ok(fs') => Step(store, fs', Pass)
  }

  /** stat: the entry at `p`; only when `p` does not exist (ENOENT) is
      `p + ".json"` probed instead. Nothing is changed. */
  function Stat(fs: Fs, p: Path): (r: Result<Node>)
    ensures Present(fs, p) ==> r == Lookup(fs, p)
    ensures r.Ok? ==> Present(fs, p) || Present(fs, WithSuffix(p, JsonExt))
    ensures !Present(fs, p) && !BlockedByFile(fs, p) ==> r == Lookup(fs, WithSuffix(p, JsonExt))
    ensures BlockedByFile(fs, p) && !Present(fs, p) ==> r == Err(NotDir(p))
  {
    match Lookup(fs, p)
    case Err(NotExist(_)) => Lookup(fs, WithSuffix(p, JsonExt))
    case other => other
  }

  /** The atomic-replace step of Write: fill the temporary file, then
      rename it onto the record. A failed rename leaves the temporary file
      behind. */
  function Replace(fs: Fs, tmp: Path, fnl: Path, data: Bytes): (e: Effect)
    ensures e.outcome.Pass? ==> e.fs == (fs - {tmp})[fnl := File(data)]
    ensures e.outcome.Fail? ==> e.fs == fs || e.fs == fs[tmp := File(data)]
    ensures IsDirAt(fs, tmp) ==> e == Effect(fs, Fail(IsDir(tmp)))
    ensures |tmp| > 0 && |fnl| > 0 && Parent(tmp) == Parent(fnl) && IsDirAt(fs, Parent(tmp)) && tmp != fnl ==>
              && (e.outcome.Pass? <==> !IsDirAt(fs, tmp) && !IsDirAt(fs, fnl))
              && (!IsDirAt(fs, tmp) && IsDirAt(fs, fnl) ==>
                    e == Effect(fs[tmp := File(data)], Fail(AlreadyExists(fnl))))
    ensures WellFormed(fs) ==> WellFormed(e.fs)
  {
    match WriteFile(fs, tmp, data)
    case Err(err) => Effect(fs, Fail(err))
    case Ok(fs') =>
      match RenameFile(fs', tmp, fnl)
      case Err(err) => Effect(fs', Fail(err))
      case Ok(fs'') => Effect(fs'', Pass)
  }

  /** Driver.Write. */
  function Write<V>(st: Store, fs: Fs, collection: string, resource: string, v: V,
                    encode: V -> Option<Bytes>): (w: Step)
    ensures collection == "" ==> w == Step(st, fs, Fail(MissingCollection))
    ensures collection != "" && resource == "" ==> w == Step(st, fs, Fail(MissingResource))
    ensures w.store.root == st.root
    ensures w.store.registry == if collection == "" || resource == "" then st.registry
                                else Locks.GetOrCreate(st.registry, collection).registry
    ensures w.outcome.Pass? ==>
              && encode(v).Some?
              && RecordPath(st, collection, resource) in w.fs
              && w.fs[RecordPath(st, collection, resource)] == File(encode(v).value + [Newline])
              && TempPath(st, collection, resource) !in w.fs
    ensures encode(v).None? ==>
              && w.outcome.Fail?
              && SameAt(fs, w.fs, RecordPath(st, collection, resource))
              && SameAt(fs, w.fs, TempPath(st, collection, resource))
  {
    if collection == "" then Step(st, fs, Fail(MissingCollection))
    else if resource == "" then Step(st, fs, Fail(MissingResource))
    else
      var st' := st.(registry := Locks.GetOrCreate(st.registry, collection).registry);
      var dir := CollectionDir(st, collection);
      var fnl := RecordPath(st, collection, resource);
      var tmp := TempPath(st, collection, resource);
      RecordAndTempDiffer(st, collection, resource);
      match MkdirAll(fs, dir)
      case Err(e) => Step(st', fs, Fail(e))
      case Ok(fs1) =>
        match encode(v)
        case None => Step(st', fs1, Fail(EncodeFailed))
        case Some(b) =>
          var e := Replace(fs1, tmp, fnl, b + [Newline]);
          Step(st', e.fs, e.outcome)
  }

  /** Driver.Read: stat probes `<resource>.json` and, when that is missing,
      falls back to `<resource>.json.json`; Read then always reads
      `<resource>.json` and decodes what it read. */
  function Read<V>(st: Store, fs: Fs, collection: string, resource: string,
                   decode: Bytes -> Option<V>): (r: Result<V>)
    ensures collection == "" ==> r == Err(MissingCollection)
    ensures collection != "" && resource == "" ==> r == Err(MissingResource)
    ensures r.Ok? ==>
              && IsFileAt(fs, RecordPath(st, collection, resource))
              && decode(fs[RecordPath(st, collection, resource)].bytes) == Some(r.value)
    ensures r == Err(DecodeFailed) ==>
              && IsFileAt(fs, RecordPath(st, collection, resource))
              && decode(fs[RecordPath(st, collection, resource)].bytes).None?
  {
    if collection == "" then Err(MissingCollection)
    else if resource == "" then Err(MissingResource)
    else
      var record := RecordPath(st, collection, resource);
      match Stat(fs, record)
      case Err(e) => Err(e)
      case Ok(_) =>
        match ReadFile(fs, record)
        case Err(e) => Err(e)
        case Ok(b) =>
          Decoded(decode, b)
  }

  /** Driver.ReadAll: the raw contents of every entry of the collection
      directory, in listing order. The listing error is discarded, so a
      collection that stat finds but that is not a directory lists as empty. */
  function ReadAll(st: Store, fs: Fs, collection: string): (r: Result<seq<Bytes>>)
    ensures collection == "" ==> r == Err(MissingCollection)
    ensures r.Ok? ==>
              && collection != ""
              && (Present(fs, CollectionDir(st, collection))
                  || Present(fs, WithSuffix(CollectionDir(st, collection), JsonExt)))
    ensures r.Ok? && IsDirAt(fs, CollectionDir(st, collection)) ==>
              var dir := CollectionDir(st, collection);
              var names := ReadDir(fs, dir).value;
              && |r.value| == |names|
              && forall i :: 0 <= i < |names| ==> fs[dir + [names[i]]] == File(r.value[i])
    ensures r.Ok? && !IsDirAt(fs, CollectionDir(st, collection)) ==> r.value == []
  {
    if collection == "" then Err(MissingCollection)
    else
      var dir := CollectionDir(st, collection);
      match Stat(fs, dir)
      case Err(e) => Err(e)
      case Ok(_) =>
        var names := ReadDir(fs, dir).GetOr([]);
        ReadFiles(fs, dir, names)
  }

  /** The loop of ReadAll: reads `dir/name` for each name in turn and stops
      at the first failure, returning no records. */
  function ReadFiles(fs: Fs, dir: Path, names: seq<string>): (r: Result<seq<Bytes>>)
    ensures r.Ok? <==> forall i :: 0 <= i < |names| ==> IsFileAt(fs, dir + [names[i]])
    ensures r.Ok? ==>
              && |r.value| == |names|
              && forall i :: 0 <= i < |names| ==> fs[dir + [names[i]]] == File(r.value[i])
    decreases |names|
  {
    if |names| == 0 then Ok([])
    else
      match ReadFile(fs, dir + [names[0]])
      case Err(e) => Err(e)
      case Ok(b) =>
        match ReadFiles(fs, dir, names[1..])
        case Err(e) => Err(e)
        case Ok(rest) => Ok([b] + rest)
  }

  /** Driver.Delete: takes the collection lock without validating either
      name, then removes the directory stat resolves to, or, when it resolves
      to a regular file, the `.json`-suffixed sibling of the probed path. */
  function Delete(st: Store, fs: Fs, collection: string, resource: string): (d: Step)
    ensures d.store == st.(registry := Locks.GetOrCreate(st.registry, collection).registry)
    ensures d.outcome.Fail? <==> Stat(fs, DeleteTarget(st, collection, resource)).Err?
    ensures d.outcome.Fail? ==> d.fs == fs && d.outcome == Fail(NotFound(JoinNames(collection, resource)))
    ensures Stat(fs, DeleteTarget(st, collection, resource)) == Ok(Dir) ==>
              forall k :: k in d.fs <==> k in fs && !IsPrefix(DeleteTarget(st, collection, resource), k)
    ensures Stat(fs, DeleteTarget(st, collection, resource)).Ok? && Stat(fs, DeleteTarget(st, collection, resource)).value.File? ==>
              forall k :: k in d.fs <==> k in fs && !IsPrefix(WithSuffix(DeleteTarget(st, collection, resource), JsonExt), k)
    ensures forall k :: k in d.fs ==> k in fs && d.fs[k] == fs[k]
    ensures WellFormed(fs) ==> WellFormed(d.fs)
  {
    var path := JoinNames(collection, resource);
    var st' := st.(registry := Locks.GetOrCreate(st.registry, collection).registry);
    var dir := st.root + path;
    match Stat(fs, dir)
    case Err(_) => Step(st', fs, Fail(NotFound(path)))
    case Ok(Dir) => Step(st', RemoveAll(fs, dir), Pass)
    case Ok(File(_)) => Step(st', RemoveAll(fs, WithSuffix(dir, JsonExt)), Pass)
  }
}
