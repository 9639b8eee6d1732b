/** Outcomes of filesystem and driver calls. Each Go `error` the driver can
    return is one constructor of `Error`. */
module Results {
  import opened Paths

  datatype Option<+T> = None | Some(value: T)

  datatype Error =
    | MissingCollection          // "Missing collection - ..." (Write, Read, ReadAll)
    | MissingResource            // "Missing resource - ..." (Write, Read)
    | NotExist(path: Path)       // a *PathError carrying ENOENT
    | NotDir(path: Path)         // a *PathError carrying ENOTDIR
    | IsDir(path: Path)          // a *PathError carrying EISDIR
    | AlreadyExists(path: Path)  // os.Rename onto a directory (EEXIST)
    | NotFound(name: Path)       // Delete: "unable to find file or directory named ..."
    | EncodeFailed               // json.MarshalIndent failed
    | DecodeFailed               // json.Unmarshal failed

  datatype Result<+T> = Ok(value: T) | Err(error: Error) {

    /** The value, or `default` when this is an error (how ReadAll discards
        the error of ioutil.ReadDir). */
    function GetOr(default: T): (v: T)
      ensures Ok? ==> v == value
      ensures Err? ==> v == default
    {
      match this
      case Ok(v) => v
      case Err(_) => default
    }
  }

  /** The result of an operation that only reports an error. */
  datatype Outcome = Pass | Fail(error: Error)
}
