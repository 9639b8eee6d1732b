/** Properties of the driver that relate several calls, or that hold only of
    a filesystem that is a tree. */
module DriverProperties {
  import opened Paths
  import opened Results
  import opened FileSystem
  import opened Driver

  /** The probe rule: `p` when it exists, else `p + ".json"` when that
      exists, else an error. */
  lemma StatProbe(fs: Fs, p: Path)
    requires WellFormed(fs)
    ensures Present(fs, p) ==> Stat(fs, p) == Lookup(fs, p)
    ensures !Present(fs, p) && Present(fs, WithSuffix(p, JsonExt)) ==>
              Stat(fs, p) == Lookup(fs, WithSuffix(p, JsonExt))
    ensures Stat(fs, p).Ok? <==> Present(fs, p) || Present(fs, WithSuffix(p, JsonExt))
  {
    if !Present(fs, p) && Present(fs, WithSuffix(p, JsonExt)) {
      SiblingUnblocked(fs, p, JsonExt);
    }
  }

  /** The filesystem admits a Write of these names: both are given, no
      regular file lies at or above the collection directory, and neither the
      temporary nor the record path is a directory. */
  ghost predicate Writable(st: Store, fs: Fs, collection: string, resource: string)
  {
    && collection != "" && resource != ""
    && (forall i :: 0 < i <= |CollectionDir(st, collection)| ==> !IsFileAt(fs, CollectionDir(st, collection)[..i]))
    && !IsDirAt(fs, TempPath(st, collection, resource))
    && !IsDirAt(fs, RecordPath(st, collection, resource))
  }

  /** Write changes nothing but the record and its temporary file, apart
      from creating the collection directory and its missing ancestors. */
  lemma WriteFrame<V>(st: Store, fs: Fs, collection: string, resource: string, v: V,
                      encode: V -> Option<Bytes>)
    ensures var w := Write(st, fs, collection, resource, v, encode);
            var rec := RecordPath(st, collection, resource);
            var tmp := TempPath(st, collection, resource);
            && (forall p :: p in fs && p != rec && p != tmp ==> p in w.fs && w.fs[p] == fs[p])
            && (forall p :: p in w.fs && p !in fs ==>
                  p == rec || p == tmp || (IsPrefix(p, CollectionDir(st, collection)) && w.fs[p] == Dir))
  {
    if collection != "" && resource != "" {
      var dir := CollectionDir(st, collection);
      var w := Write(st, fs, collection, resource, v, encode);
      match MkdirAll(fs, dir)
      case Err(_) =>
      case Ok(fs1) =>
        if encode(v).Some? {
          var e := Replace(fs1, TempPath(st, collection, resource), RecordPath(st, collection, resource),
                           encode(v).value + [Newline]);
          assert w.fs == e.fs;
        }
    }
  }

  /** Write keeps the filesystem a tree. */
  lemma WritePreservesWellFormed<V>(st: Store, fs: Fs, collection: string, resource: string, v: V,
                                    encode: V -> Option<Bytes>)
    requires WellFormed(fs)
    ensures WellFormed(Write(st, fs, collection, resource, v, encode).fs)
  {
  }

  /** Once the collection directory is in place, Write succeeds exactly
      when the value encodes and neither the temporary nor the record path is
      a directory. */
  lemma WriteAfterMkdir<V>(st: Store, fs: Fs, collection: string, resource: string, v: V,
                           encode: V -> Option<Bytes>)
    requires collection != "" && resource != ""
    requires MkdirAll(fs, CollectionDir(st, collection)).Ok?
    ensures Write(st, fs, collection, resource, v, encode).outcome.Pass? <==>
              && encode(v).Some?
              && !IsDirAt(fs, TempPath(st, collection, resource))
              && !IsDirAt(fs, RecordPath(st, collection, resource))
  {
    var dir := CollectionDir(st, collection);
    var fnl := RecordPath(st, collection, resource);
    var tmp := TempPath(st, collection, resource);
    var fs1 := MkdirAll(fs, dir).value;
    RecordAndTempDiffer(st, collection, resource);
    assert SameAt(fs, fs1, tmp) && SameAt(fs, fs1, fnl);
    assert Parent(tmp) == dir && Parent(fnl) == dir;
    if encode(v).Some? {
      var e := Replace(fs1, tmp, fnl, encode(v).value + [Newline]);
      assert Write(st, fs, collection, resource, v, encode).outcome == e.outcome;
    }
  }

  /** Write succeeds exactly when the filesystem admits it and the value
      encodes. */
  lemma WriteSucceedsIff<V>(st: Store, fs: Fs, collection: string, resource: string, v: V,
                            encode: V -> Option<Bytes>)
    requires WellFormed(fs)
    ensures Write(st, fs, collection, resource, v, encode).outcome.Pass? <==>
              Writable(st, fs, collection, resource) && encode(v).Some?
  {
    if collection != "" && resource != "" {
      MkdirAllSucceedsIff(fs, CollectionDir(st, collection));
      if MkdirAll(fs, CollectionDir(st, collection)).Ok? {
        WriteAfterMkdir(st, fs, collection, resource, v, encode);
      }
    }
  }

  /** A read of what was just written yields exactly the written bytes: the
      encoded value followed by a newline. */
  lemma WriteThenRead<V, U>(st: Store, fs: Fs, collection: string, resource: string, v: V,
                            encode: V -> Option<Bytes>, decode: Bytes -> Option<U>)
    requires WellFormed(fs) && Writable(st, fs, collection, resource) && encode(v).Some?
    ensures var w := Write(st, fs, collection, resource, v, encode);
            && w.outcome == Pass
            && Read(w.store, w.fs, collection, resource, decode)
                 == Decoded(decode, encode(v).value + [Newline])
  {
    WriteSucceedsIff(st, fs, collection, resource, v, encode);
  }

  /** The round trip of the storage layer: with a decoder that inverts the
      encoder on its output, Read returns the value Write stored. */
  lemma WriteReadRoundTrip<V>(st: Store, fs: Fs, collection: string, resource: string, v: V,
                              encode: V -> Option<Bytes>, decode: Bytes -> Option<V>)
    requires WellFormed(fs) && Writable(st, fs, collection, resource) && encode(v).Some?
    requires decode(encode(v).value + [Newline]) == Some(v)
    ensures var w := Write(st, fs, collection, resource, v, encode);
            Read(w.store, w.fs, collection, resource, decode) == Ok(v)
  {
    WriteThenRead(st, fs, collection, resource, v, encode, decode);
  }

  /** A failed encoding leaves the collection directory created, and the
      record and temporary paths untouched. */
  lemma EncodeFailureAfterMkdir<V>(st: Store, fs: Fs, collection: string, resource: string, v: V,
                                   encode: V -> Option<Bytes>)
    requires WellFormed(fs) && collection != "" && resource != ""
    requires forall i :: 0 < i <= |CollectionDir(st, collection)| ==> !IsFileAt(fs, CollectionDir(st, collection)[..i])
    requires encode(v).None?
    ensures var w := Write(st, fs, collection, resource, v, encode);
            && w.outcome == Fail(EncodeFailed)
            && IsDirAt(w.fs, CollectionDir(st, collection))
  {
    MkdirAllSucceedsIff(fs, CollectionDir(st, collection));
  }

  /** When the record path is a directory the rename fails and the temporary
      file stays behind holding the new contents. */
  lemma RenameFailureLeavesTemp<V>(st: Store, fs: Fs, collection: string, resource: string, v: V,
                                   encode: V -> Option<Bytes>)
    requires WellFormed(fs) && collection != "" && resource != ""
    requires forall i :: 0 < i <= |CollectionDir(st, collection)| ==> !IsFileAt(fs, CollectionDir(st, collection)[..i])
    requires encode(v).Some?
    requires !IsDirAt(fs, TempPath(st, collection, resource))
    requires IsDirAt(fs, RecordPath(st, collection, resource))
    ensures var w := Write(st, fs, collection, resource, v, encode);
            && w.outcome == Fail(AlreadyExists(RecordPath(st, collection, resource)))
            && TempPath(st, collection, resource) in w.fs
            && w.fs[TempPath(st, collection, resource)] == File(encode(v).value + [Newline])
  {
    var dir := CollectionDir(st, collection);
    var tmp := TempPath(st, collection, resource);
    var fnl := RecordPath(st, collection, resource);
    RecordAndTempDiffer(st, collection, resource);
    MkdirAllSucceedsIff(fs, dir);
    var fs1 := MkdirAll(fs, dir).value;
    assert SameAt(fs, fs1, tmp) && SameAt(fs, fs1, fnl);
    assert Parent(tmp) == dir && Parent(fnl) == dir;
  }

  /** How Read resolves the record path. A record reached only through the
      probe of `<resource>.json.json` is then read at `<resource>.json`, which
      does not exist, so Read reports ENOENT for the path it never found. */
  lemma ReadResolution<V>(st: Store, fs: Fs, collection: string, resource: string,
                          decode: Bytes -> Option<V>)
    requires WellFormed(fs) && collection != "" && resource != ""
    ensures var rec := RecordPath(st, collection, resource);
            var r := Read(st, fs, collection, resource, decode);
            && (IsFileAt(fs, rec) ==> r == Decoded(decode, fs[rec].bytes))
            && (IsDirAt(fs, rec) ==> r == Err(IsDir(rec)))
            && (!Present(fs, rec) && Present(fs, WithSuffix(rec, JsonExt)) ==> r == Err(NotExist(rec)))
            && (!Present(fs, rec) && !Present(fs, WithSuffix(rec, JsonExt)) ==> r.Err? && r.error != DecodeFailed)
  {
    var rec := RecordPath(st, collection, resource);
    StatProbe(fs, rec);
    if !Present(fs, rec) && Present(fs, WithSuffix(rec, JsonExt)) {
      SiblingUnblocked(fs, rec, JsonExt);
    }
  }

  /** Reading every listed name succeeds exactly when every entry of the
      directory is a regular file, since the listing names all of them. */
  lemma ReadFilesOfListing(fs: Fs, dir: Path, names: seq<string>)
    requires forall n :: n in names <==> dir + [n] in fs
    ensures ReadFiles(fs, dir, names).Ok? <==> forall n :: n in Children(fs, dir) ==> IsFileAt(fs, dir + [n])
  {
    if !ReadFiles(fs, dir, names).Ok? {
      var i :| 0 <= i < |names| && !IsFileAt(fs, dir + [names[i]]);
      assert names[i] in Children(fs, dir);
    }
  }

  /** ReadAll on a collection directory fails as a whole exactly when one
      of its entries is not a regular file. */
  lemma ReadAllSucceedsIff(st: Store, fs: Fs, collection: string)
    requires collection != "" && IsDirAt(fs, CollectionDir(st, collection))
    ensures var dir := CollectionDir(st, collection);
            ReadAll(st, fs, collection).Ok? <==> forall n :: n in Children(fs, dir) ==> IsFileAt(fs, dir + [n])
  {
    var dir := CollectionDir(st, collection);
    var names := ReadDir(fs, dir).value;
    assert ReadAll(st, fs, collection) == ReadFiles(fs, dir, names);
    ReadFilesOfListing(fs, dir, names);
  }

  /** A successful ReadAll of a collection directory returns one record per
      entry, and every entry's contents are among them. */
  lemma ReadAllCoversEntries(st: Store, fs: Fs, collection: string)
    requires collection != "" && IsDirAt(fs, CollectionDir(st, collection))
    requires forall n :: n in Children(fs, CollectionDir(st, collection)) ==>
               IsFileAt(fs, CollectionDir(st, collection) + [n])
    ensures var dir := CollectionDir(st, collection);
            var records := ReadAll(st, fs, collection).value;
            && ReadAll(st, fs, collection).Ok?
            && |records| == |Children(fs, dir)|
            && forall n :: n in Children(fs, dir) ==>
                 exists i :: 0 <= i < |records| && fs[dir + [n]] == File(records[i])
  {
    ReadAllSucceedsIff(st, fs, collection);
    var dir := CollectionDir(st, collection);
    var names := ReadDir(fs, dir).value;
    var records := ReadAll(st, fs, collection).value;
    forall n | n in Children(fs, dir)
      ensures exists i :: 0 <= i < |records| && fs[dir + [n]] == File(records[i])
    {
      var i :| 0 <= i < |names| && names[i] == n;
      assert fs[dir + [names[i]]] == File(records[i]);
    }
  }

  /** The discarded listing error: a collection that stat finds but that is
      not a directory (a regular file, or only `<collection>.json`) reads as
      an empty list rather than an error. */
  lemma ReadAllOfNonDirectory(st: Store, fs: Fs, collection: string)
    requires collection != ""
    requires Stat(fs, CollectionDir(st, collection)).Ok?
    requires !IsDirAt(fs, CollectionDir(st, collection))
    ensures ReadAll(st, fs, collection) == Ok([])
  {
  }

  /** After a successful Write, ReadAll of the collection either fails
      because some other entry is not a regular file, or includes the record
      just written. */
  lemma WriteThenReadAll<V>(st: Store, fs: Fs, collection: string, resource: string, v: V,
                            encode: V -> Option<Bytes>)
    requires WellFormed(fs) && Writable(st, fs, collection, resource) && encode(v).Some?
    ensures var w := Write(st, fs, collection, resource, v, encode);
            var r := ReadAll(w.store, w.fs, collection);
            r.Ok? ==> encode(v).value + [Newline] in r.value
  {
    WriteSucceedsIff(st, fs, collection, resource, v, encode);
    var w := Write(st, fs, collection, resource, v, encode);
    var dir := CollectionDir(st, collection);
    var name := resource + JsonExt;
    assert dir + [name] == RecordPath(st, collection, resource);
    assert Parent(dir + [name]) == dir;
    assert IsDirAt(w.fs, dir);
    assert name in Children(w.fs, dir);
    if ReadAll(w.store, w.fs, collection).Ok? {
      ReadAllSucceedsIff(w.store, w.fs, collection);
      ReadAllCoversEntries(w.store, w.fs, collection);
    }
  }

  /** Delete of a path that exists neither as given nor with `.json`
      appended reports not-found and changes nothing. */
  lemma DeleteMissing(st: Store, fs: Fs, collection: string, resource: string)
    requires WellFormed(fs)
    requires !Present(fs, DeleteTarget(st, collection, resource))
    requires !Present(fs, WithSuffix(DeleteTarget(st, collection, resource), JsonExt))
    ensures var d := Delete(st, fs, collection, resource);
            d.outcome == Fail(NotFound(JoinNames(collection, resource))) && d.fs == fs
  {
    StatProbe(fs, DeleteTarget(st, collection, resource));
  }

  /** Delete of a directory removes it and everything below it. */
  lemma DeleteDirectory(st: Store, fs: Fs, collection: string, resource: string)
    requires IsDirAt(fs, DeleteTarget(st, collection, resource))
    ensures var t := DeleteTarget(st, collection, resource);
            var d := Delete(st, fs, collection, resource);
            d.outcome == Pass && forall k :: k in d.fs <==> k in fs && !IsPrefix(t, k)
  {
  }

  /** Delete of a regular file removes its `.json` sibling and leaves the
      file itself in place. */
  lemma DeleteFileRemovesSibling(st: Store, fs: Fs, collection: string, resource: string)
    requires IsFileAt(fs, DeleteTarget(st, collection, resource))
    ensures var t := DeleteTarget(st, collection, resource);
            var d := Delete(st, fs, collection, resource);
            && d.outcome == Pass
            && (forall k :: k in d.fs <==> k in fs && !IsPrefix(WithSuffix(t, JsonExt), k))
            && t in d.fs
  {
    var t := DeleteTarget(st, collection, resource);
    var s := WithSuffix(t, JsonExt);
    assert t != s by {
      assert |t[|t| - 1]| != |s[|t| - 1]|;
    }
  }

  /** When only `<path>.json` exists and it is a directory, Delete reports
      success but removes nothing: it removes the un-suffixed path. */
  lemma DeleteSuffixedDirectory(st: Store, fs: Fs, collection: string, resource: string)
    requires WellFormed(fs)
    requires !Present(fs, DeleteTarget(st, collection, resource))
    requires IsDirAt(fs, WithSuffix(DeleteTarget(st, collection, resource), JsonExt))
    ensures var d := Delete(st, fs, collection, resource);
            d.outcome == Pass && d.fs == fs
  {
    StatProbe(fs, DeleteTarget(st, collection, resource));
  }

  /** When only `<path>.json` exists and it is a regular file, Delete
      removes exactly that file: the ordinary way a record is deleted. */
  lemma DeleteSuffixedFile(st: Store, fs: Fs, collection: string, resource: string)
    requires WellFormed(fs)
    requires !Present(fs, DeleteTarget(st, collection, resource))
    requires IsFileAt(fs, WithSuffix(DeleteTarget(st, collection, resource), JsonExt))
    ensures var d := Delete(st, fs, collection, resource);
            d.outcome == Pass && d.fs == fs - {WithSuffix(DeleteTarget(st, collection, resource), JsonExt)}
  {
    var t := DeleteTarget(st, collection, resource);
    var s := WithSuffix(t, JsonExt);
    StatProbe(fs, t);
    RemoveAllOfFile(fs, s);
  }

  /** `Delete(c, "")` removes the collection directory and everything in it;
      a later ReadAll of that collection fails, or lists nothing when only a
      `<collection>.json` entry remains for the probe to find. */
  lemma DeleteCollectionThenReadAll(st: Store, fs: Fs, collection: string)
    requires WellFormed(fs) && collection != ""
    requires IsDirAt(fs, CollectionDir(st, collection))
    ensures var d := Delete(st, fs, collection, "");
            && d.outcome == Pass
            && (forall k :: k in d.fs ==> !IsPrefix(CollectionDir(st, collection), k))
            && (ReadAll(d.store, d.fs, collection).Err? || ReadAll(d.store, d.fs, collection) == Ok([]))
  {
    assert DeleteTarget(st, collection, "") == CollectionDir(st, collection);
    DeleteDirectory(st, fs, collection, "");
  }

  /** Delete does not validate its arguments: `Delete("", "")` probes the
      database root and removes the root itself and everything under it. */
  lemma DeleteWithoutNames(st: Store, fs: Fs)
    requires WellFormed(fs) && IsDirAt(fs, st.root)
    ensures var d := Delete(st, fs, "", "");
            && d.outcome == Pass
            && (forall k :: k in d.fs ==> !IsPrefix(st.root, k))
            && "" in d.store.registry.locks
  {
    assert DeleteTarget(st, "", "") == st.root;
    DeleteDirectory(st, fs, "", "");
  }

  /** Deleting a stored record by its name removes exactly the record file,
      whether the probe of `<root>/<c>/<r>` finds a regular file there (and
      removes its `.json` sibling, the record) or falls through to the
      record itself. A later Read fails with ENOENT: on the record path when
      its own probe finds a `<r>.json.json`, else on that probed path. */
  lemma DeleteThenRead<U>(st: Store, fs: Fs, collection: string, resource: string,
                          decode: Bytes -> Option<U>)
    requires WellFormed(fs) && collection != "" && resource != ""
    requires IsFileAt(fs, RecordPath(st, collection, resource))
    requires !IsDirAt(fs, st.root + [collection, resource])
    ensures var rec := RecordPath(st, collection, resource);
            var s := WithSuffix(rec, JsonExt);
            var d := Delete(st, fs, collection, resource);
            && d.outcome == Pass
            && d.fs == fs - {rec}
            && Read(d.store, d.fs, collection, resource, decode) == Err(NotExist(if s in fs then rec else s))
  {
    var t := DeleteTarget(st, collection, resource);
    var rec := RecordPath(st, collection, resource);
    var s := WithSuffix(rec, JsonExt);
    assert t == st.root + [collection, resource];
    assert WithSuffix(t, JsonExt) == rec;
    if t in fs {
      RemoveAllOfFile(fs, rec);
    } else {
      DeleteSuffixedFile(st, fs, collection, resource);
    }
    var d := Delete(st, fs, collection, resource);
    assert d.fs == fs - {rec};
    assert s != rec by {
      assert |s[|rec| - 1]| != |rec[|rec| - 1]|;
    }
    ReadResolution(d.store, d.fs, collection, resource, decode);
    if s !in fs {
      assert Parent(s) == Parent(rec);
      UnderDirNotBlocked(d.fs, rec);
      UnderDirNotBlocked(d.fs, s);
    }
  }

  /** Write, then Delete by the same names, then Read: the record is gone
      and Read fails with ENOENT, as after deleting any stored record. */
  lemma WriteDeleteRead<V, U>(st: Store, fs: Fs, collection: string, resource: string, v: V,
                              encode: V -> Option<Bytes>, decode: Bytes -> Option<U>)
    requires WellFormed(fs) && Writable(st, fs, collection, resource) && encode(v).Some?
    requires !IsDirAt(fs, st.root + [collection, resource])
    ensures var w := Write(st, fs, collection, resource, v, encode);
            var d := Delete(w.store, w.fs, collection, resource);
            var rec := RecordPath(st, collection, resource);
            var s := WithSuffix(rec, JsonExt);
            && d.outcome == Pass
            && d.fs == w.fs - {rec}
            && Read(d.store, d.fs, collection, resource, decode) == Err(NotExist(if s in fs then rec else s))
  {
    WriteSucceedsIff(st, fs, collection, resource, v, encode);
    WritePreservesWellFormed(st, fs, collection, resource, v, encode);
    WriteFrame(st, fs, collection, resource, v, encode);
    var w := Write(st, fs, collection, resource, v, encode);
    var rec := RecordPath(st, collection, resource);
    var t := st.root + [collection, resource];
    assert t != rec && t != TempPath(st, collection, resource) && !IsPrefix(t, CollectionDir(st, collection)) by {
      assert |t[|st.root| + 1]| != |rec[|st.root| + 1]|;
      assert |t[|st.root| + 1]| != |TempPath(st, collection, resource)[|st.root| + 1]|;
      assert |t| > |CollectionDir(st, collection)|;
    }
    var s := WithSuffix(rec, JsonExt);
    assert s != rec && s != TempPath(st, collection, resource) && !IsPrefix(s, CollectionDir(st, collection)) by {
      assert |s[|rec| - 1]| != |rec[|rec| - 1]|;
      assert |s[|rec| - 1]| != |TempPath(st, collection, resource)[|rec| - 1]|;
    }
    DeleteThenRead(w.store, w.fs, collection, resource, decode);
  }
}
