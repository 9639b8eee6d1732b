/** Paths as sequences of name segments. The filesystem root `/` is the empty
    path; `["srv", "db", "users"]` stands for `/srv/db/users`. Names are single
    segments: separators and `.`/`..` inside a name are not interpreted. */
module Paths {

  type Path = seq<string>

  /** `q` is `p` itself or one of its ancestors. */
  predicate IsPrefix(q: Path, p: Path)
  {
    |q| <= |p| && p[..|q|] == q
  }

  function Parent(p: Path): (r: Path)
    requires |p| > 0
    ensures |r| == |p| - 1 && IsPrefix(r, p)
  {
    p[..|p| - 1]
  }

  /** The path string `p` with `ext` appended, as Go's `p + ".json"` does:
      the extension lands on the last segment, so the result is a sibling of
      `p`. Appending to `/` yields the entry `/ext`. */
  function WithSuffix(p: Path, ext: string): (r: Path)
    ensures |p| > 0 ==> |r| == |p| && Parent(r) == Parent(p) && r[|p| - 1] == p[|p| - 1] + ext
    ensures |p| == 0 ==> r == [ext]
  {
    if |p| == 0 then [ext] else p[..|p| - 1] + [p[|p| - 1] + ext]
  }

  /** `filepath.Join(collection, resource)`: empty elements are dropped. */
  function JoinNames(collection: string, resource: string): (r: Path)
    ensures forall i :: 0 <= i < |r| ==> r[i] != ""
    ensures collection != "" && resource != "" ==> r == [collection, resource]
    ensures collection != "" && resource == "" ==> r == [collection]
    ensures collection == "" && resource != "" ==> r == [resource]
    ensures collection == "" && resource == "" ==> r == []
  {
    (if collection == "" then [] else [collection]) + (if resource == "" then [] else [resource])
  }

  /** Every proper prefix of `p` is a proper prefix of its sibling `WithSuffix(p, ext)`. */
  lemma SuffixKeepsAncestors(p: Path, ext: string, i: nat)
    requires i < |p|
    ensures WithSuffix(p, ext)[..i] == p[..i]
  {
  }

  lemma PrefixOfParent(q: Path, p: Path)
    requires |p| > 0 && IsPrefix(q, Parent(p))
    ensures IsPrefix(q, p) && q != p
  {
    assert p[..|p| - 1][..|q|] == p[..|q|];
  }
}
