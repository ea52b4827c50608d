/** The in-memory filesystem the pipeline walks, and the exclusion settings
    shared by the tree renderer and the file collector. */
module FileSystem {
  import opened Common
  import opened Ignore

  /** A directory entry. The order of `children` is the raw listing order of
      the directory. A symbolic link is a node with `symlink` set whose other
      fields describe its target (a dangling link is a non-regular file).
      `denied`: listing the directory raises a permission error.
      `statFails`: asking the size of the file raises an OS error.
      `readFails`: opening the file raises an OS error. */
  datatype Node =
    | Dir(name: string, symlink: bool, denied: bool, children: seq<Node>)
    | File(name: string, symlink: bool, regular: bool, statFails: bool,
           readFails: bool, data: seq<byte>)

  /** The root-relative, slash-separated path of entry `name` inside the
      directory whose root-relative path is `dirRel` ("" for the root). */
  function ChildRel(dirRel: string, name: string): (r: string)
    ensures dirRel != "" ==> r == dirRel + "/" + name
    ensures dirRel == "" ==> r == name
  {
    if dirRel == "" then name else dirRel + "/" + name
  }

  /** The exclusion settings of one run: hidden-entry policy, the ignored
      directory names and the optional gitignore matcher. */
  datatype Policy = Policy(includeHidden: bool, ignoreDirs: set<string>, spec: Option<Matcher>)

  /** Hidden entries (names starting with a dot) are dropped unless included. */
  predicate HiddenDropped(p: Policy, name: string)
  {
    !p.includeHidden && StartsWithDot(name)
  }
}
