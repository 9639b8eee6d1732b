# golang-db driver, modelled in Dafny

This project models the storage driver of a small Go document database. The
database keeps each record as a JSON file `<root>/<collection>/<resource>.json`.
The driver's `Write`, `Read`, `ReadAll` and `Delete` methods, its `stat`
probe ("try the path, else the path with `.json` appended"), its
per-collection lock registry (`getOrCreateMutex`) and its constructor `New` are
modelled here. Every call becomes a pure transition over an abstract
filesystem.

- **Filesystem** (`FileSystem`): a map from path (a sequence of name segments)
  to `Dir` or `File(bytes)`. The root `/` is the empty path and is always a
  directory. `WellFormed` says the map is a tree. The `os`/`ioutil` calls the
  driver makes are modelled as functions over the map: `os.Stat`,
  `os.MkdirAll`, `ioutil.WriteFile`, `os.Rename`, `os.RemoveAll`,
  `ioutil.ReadFile` and `ioutil.ReadDir`. They keep the error cases that
  change the driver's control flow: ENOENT against ENOTDIR (which decides
  whether `stat` probes), EISDIR, and Go's EEXIST for a rename onto a
  directory.
- **Listing order** (`Names`): `ioutil.ReadDir` returns entries sorted by
  name. `SortedSeq` builds that order from the set of entry names.
- **Lock registry** (`Locks`): `map<string, LockId>` plus a counter for fresh
  lock identities. Locking itself is not modelled.
- **Driver** (`Driver`): `Store` holds the root path and the registry.
  `Write` and `Delete` return a `Step` with the new store, the new filesystem
  and the error, if any. `Read` and `ReadAll` return only a `Result`, since
  they change nothing. JSON encoding and decoding are parameters
  (`encode: V -> Option<Bytes>`, `decode: Bytes -> Option<V>`).
- **Properties** (`DriverProperties`): round trips (Write then Read, Write
  then ReadAll, Write then Delete then Read) and exact success conditions.
  They also cover the probe rule and every outcome of Delete, and reproduce
  the driver's quirks as written:
  - Read probes `<resource>.json.json` but then reads `<resource>.json`.
  - ReadAll ignores a listing error.
  - Write creates the collection directory before it encodes the value.
  - Delete validates neither name.
  - On a regular file, Delete removes the `.json`-suffixed sibling instead.

In three places the code does less than its error messages and structure
suggest was intended. The model follows the code.
- Write creates the collection directory before it encodes the value, so a
  value that fails to encode still leaves the directory behind
  (`EncodeFailureAfterMkdir`).
- Delete's error message (main.go:162-163) reads as "nothing was found to
  delete", but Delete can succeed without removing anything. This happens
  when only `<path>.json` exists and is a directory
  (`DeleteSuffixedDirectory`). It also happens when `<path>` is a regular
  file with no `<path>.json` sibling (`DeleteFileRemovesSibling`).
- ReadAll returns `stat`'s error for a missing collection, but a collection
  that `stat` finds and that is not a directory lists as empty, because the
  listing error is dropped (`ReadAllOfNonDirectory`).

## Model

| member | source | states |
|---|---|---|
| Paths.JoinNames | main.go:154 | joining collection and resource drops empty names, so `Delete(c, "")` targets the collection, `Delete("", r)` the entry `r` under the root, and `Delete("", "")` the root |
| Paths.WithSuffix | main.go:190 | appending an extension to a path string changes only its last segment, so the result is a sibling of the path; appending to `/` yields the entry `/<ext>` |
| Driver.CollectionDir | main.go:80 | a collection's directory is the entry named by the collection directly under the database root |
| Driver.RecordPath | main.go:81 | a record is the entry `<resource>.json` in its collection's directory |
| Driver.TempPath | main.go:82 | the temporary file is the record path with `.tmp` appended, in the same directory |
| Driver.DeleteTarget | main.go:154-159 | Delete probes `<root>/<collection>/<resource>` with empty names dropped: with both names its `.json` sibling is the record, with no resource it is the collection directory, with neither it is the root |
| FileSystem.Missing | main.go:189 | a missing path reports ENOTDIR exactly when a regular file lies above it, and ENOENT otherwise; only ENOENT makes stat probe |
| Results.Result.GetOr | main.go:137 | a failed listing is replaced by the empty default, so its error is discarded; a successful one is kept |
| Driver.Decoded | main.go:122 | decoding read bytes succeeds exactly when the decoder accepts them, with the decoder's value; otherwise it is a decode failure |
| Names.SortedSeq | main.go:137 | the listing of a directory is strictly ascending by name and contains exactly the given names |
| FileSystem.Lookup | main.go:189 | os.Stat finds exactly the present paths; a missing path reports ENOTDIR when a regular file lies above it, ENOENT otherwise |
| FileSystem.MkdirAll | main.go:84-86 | on success the directory exists, existing entries are unchanged and only its missing ancestors are added, as directories; on failure the error names a regular file above or at the path; a tree stays a tree |
| FileSystem.MkdirAllSucceedsIff | main.go:84-86 | in a tree, MkdirAll succeeds exactly when neither the path nor any ancestor is a regular file |
| FileSystem.WriteFile | main.go:95-97 | writing creates or truncates exactly one regular file; a directory target fails with EISDIR; a file whose parent is a directory is always written |
| FileSystem.RenameFile | main.go:99 | on success the source is gone and the destination holds its contents; a directory destination fails with EEXIST; a missing source fails |
| FileSystem.RemoveAll | main.go:165-169 | exactly the path and everything below it disappear, the rest is untouched, and a missing path changes nothing |
| FileSystem.RemoveAllOfFile | main.go:169 | removing a regular file in a tree removes that file alone |
| FileSystem.ReadFile | main.go:117-120 | reading succeeds exactly on a regular file and returns its contents; a directory fails with EISDIR |
| FileSystem.ReadDir | main.go:137 | listing succeeds exactly on a directory and returns each entry name once, in name order |
| Locks.Empty | main.go:54 | a new driver starts with no locks |
| Locks.GetOrCreate | main.go:174-186 | the collection has a lock afterwards; the registry gains only that name, by exactly one entry when it was new; earlier locks are kept; a new lock differs from every existing one |
| Locks.GetOrCreateIdempotent | main.go:178-185 | a second request for the same collection returns the same lock and leaves the registry unchanged |
| Locks.Replay | main.go:174-186 | after any sequence of requests the registry holds exactly the earlier names plus the requested ones, and distinct names keep distinct locks |
| Locks.GetOrCreateStable | main.go:180-183 | once given, a collection's lock never changes, whatever is requested later |
| Driver.New | main.go:39-65 | an existing root (even a regular file) is reused unchanged; otherwise the root is created as a directory, or a regular file above it makes New fail with nothing changed; the registry starts empty |
| Driver.Stat | main.go:188-193 | an existing path is returned as is; `p + ".json"` is probed only when `p` is missing with ENOENT; success means one of the two exists |
| DriverProperties.StatProbe | main.go:188-193 | in a tree, stat succeeds exactly when `p` or `p + ".json"` exists, and returns `p`'s entry when `p` exists, else the sibling's |
| Driver.Replace | main.go:95-99 | the temporary-file-then-rename step: success replaces the record with the new bytes and leaves no temporary file; a failed rename leaves the temporary file holding the new bytes |
| Driver.Write | main.go:67-100 | a missing collection or resource is rejected with nothing changed; on success the record holds the encoded value plus a newline and the temporary file is gone; a failed encoding leaves record and temporary file as they were |
| DriverProperties.WriteFrame | main.go:80-99 | Write changes no entry other than the record and its temporary file, and adds only those two and directories above the collection |
| DriverProperties.WritePreservesWellFormed | main.go:84-99 | Write keeps the filesystem a tree |
| DriverProperties.WriteAfterMkdir | main.go:88-99 | once the collection directory exists, Write succeeds exactly when the value encodes and neither temporary nor record path is a directory |
| DriverProperties.WriteSucceedsIff | main.go:67-100 | Write succeeds exactly when both names are given, no regular file lies on the way to the collection, the value encodes, and neither temporary nor record path is a directory |
| DriverProperties.EncodeFailureAfterMkdir | main.go:84-91 | when encoding fails, Write reports it but the collection directory has already been created |
| DriverProperties.RenameFailureLeavesTemp | main.go:95-99 | when the record path is a directory, Write fails and the temporary file stays behind with the new contents |
| Driver.Read | main.go:102-123 | a missing collection or resource is rejected; a value is returned only when the record is a regular file whose bytes decode to it; a decode failure is reported apart from a missing file |
| DriverProperties.WriteThenRead | main.go:81-122 | after a successful Write, Read of the same names decodes exactly the encoded value followed by a newline |
| DriverProperties.WriteReadRoundTrip | main.go:88-122 | with a decoder that inverts the encoder's output, Read returns the value Write stored |
| DriverProperties.ReadResolution | main.go:111-120 | a regular record is decoded; a directory record fails with EISDIR; a record found only through the `.json.json` probe fails with ENOENT on the path that was read; with neither present Read fails before decoding |
| Driver.ReadAll | main.go:126-150 | a missing collection is rejected; success needs the collection or its `.json` sibling to exist; for a directory the records are the entries' contents in listing order, one per entry; anything else lists as empty |
| Driver.ReadFiles | main.go:141-148 | reading a list of names succeeds exactly when every one is a regular file, and returns their contents in order |
| DriverProperties.ReadFilesOfListing | main.go:137-148 | reading a complete listing succeeds exactly when every entry of the directory is a regular file |
| DriverProperties.ReadAllSucceedsIff | main.go:137-149 | ReadAll of a collection directory fails exactly when some entry is not a regular file, and then returns no records |
| DriverProperties.ReadAllCoversEntries | main.go:137-149 | a successful ReadAll returns as many records as there are entries, and every entry's contents are among them |
| DriverProperties.ReadAllOfNonDirectory | main.go:133-139 | a collection that stat finds but that is not a directory reads as an empty list, because the listing error is discarded |
| DriverProperties.WriteThenReadAll | main.go:137-149 | after a successful Write, a successful ReadAll of the collection includes the bytes just written |
| Driver.Delete | main.go:152-172 | the collection lock is taken without validating names; failure of the probe gives not-found with nothing changed; a directory loses its whole subtree; a regular file loses its `.json` sibling's subtree; nothing is ever added or altered; a tree stays a tree |
| DriverProperties.DeleteMissing | main.go:161-163 | when neither the path nor `path.json` exists, Delete reports not-found and changes nothing |
| DriverProperties.DeleteDirectory | main.go:165-166 | when the path is a directory, Delete removes it and everything below it |
| DriverProperties.DeleteFileRemovesSibling | main.go:168-169 | when the path is a regular file, Delete removes `path.json` and the file itself stays |
| DriverProperties.DeleteSuffixedDirectory | main.go:159-166 | when only `path.json` exists and is a directory, Delete reports success and removes nothing |
| DriverProperties.DeleteSuffixedFile | main.go:159-169 | when only `path.json` exists and is a regular file, Delete removes exactly that file |
| DriverProperties.DeleteCollectionThenReadAll | main.go:165-166 | `Delete(c, "")` removes the collection and all in it; a later ReadAll fails or lists nothing |
| DriverProperties.DeleteWithoutNames | main.go:152-166 | `Delete("", "")` removes the database root itself and everything under it, and registers a lock for the empty name |
| DriverProperties.DeleteThenRead | main.go:111-169 | deleting a stored record by its names removes exactly its file, whether the extension-less path is a regular file (whose `.json` sibling is the record) or missing; a later Read fails with ENOENT on the record path when `<resource>.json.json` exists, else on that probed path |
| DriverProperties.WriteDeleteRead | main.go:67-169 | Write, then Delete by the same names, then Read: Delete removes exactly the record just written and Read fails with ENOENT, on the record path or on the `.json.json` path it probed |

## Left out

- The HTTP layer in `main` (routes, request parsing, status codes) and the `User`/`Address` types: they only call the driver.
- Logging and the default console logger: they are observational only.
- Real mutual exclusion and interleavings: only the registry's contents are modelled, and each call is one atomic transition. So the atomicity of the temporary-file rename is assumed, not shown.
- JSON marshalling and unmarshalling: `encode` and `decode` are parameters. `json.MarshalIndent` with no prefix and one tab per nesting level is part of `encode`.
- `filepath.Clean` and `filepath.Join` normalisation, and relative roots: paths are sequences of plain segments. A collection or resource name holding a separator, `.` or `..` is taken as a single segment.
- Permissions, and I/O failures other than ENOENT, ENOTDIR, EISDIR and EEXIST (EACCES, ENOSPC, and so on).
- Symbolic links and other special files. This leaves Delete's final `return nil` (main.go:171) unreachable.
- FileSystem.RenameFile: does not model renaming a directory; its precondition admits only a regular or missing source, because Write only renames the file it has just written.
- FileSystem.RemoveAll: removing `/` removes every entry and succeeds; the kernel's refusal to remove `/` itself is not modelled.
- DriverProperties.ReadResolution: when neither the record nor its `.json` sibling exists, it states only that Read fails before decoding, not which of ENOENT or ENOTDIR it reports.
- DriverProperties.WriteThenReadAll: states that the written bytes appear among the records, not at which position. The position follows from the name order of the listing.
- File-name bytes: Go compares listing names byte by byte, and a Go name need not be valid UTF-8. Names here are Dafny strings ordered by `char`. This matches byte order for valid UTF-8 names; names that are not valid UTF-8 are not modelled.
