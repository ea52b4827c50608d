/** The ignore policy: the built-in directory denylist and the optional
    gitignore-style matcher. The wildcard semantics of the pattern library
    are foreign; a compiled pattern set is an uninterpreted predicate on
    root-relative paths. */
module Ignore {
  import opened Common

  /** A compiled pattern set: does it match this root-relative path? */
  type Matcher = string -> bool

  /** Directory names that are never descended into nor listed, in the
      order the source lists them. */
  const CommonIgnoredDirNames: seq<string> := [
    ".git", ".hg", ".svn", ".idea", ".vscode", ".pytest_cache", "__pycache__",
    "node_modules", "venv", ".venv", "env", ".mypy_cache", "dist", "build",
    "target", ".gradle", ".next", ".turbo", ".cache"
  ]

  const CommonIgnoredDirs: set<string> := set n | n in CommonIgnoredDirNames

  /** Every name of `names[k..]` differs from all the names before it. */
  predicate FreshFrom(names: seq<string>, k: nat)
    decreases |names| - k
  {
    k >= |names| || (names[k] !in names[..k] && FreshFrom(names, k + 1))
  }

  /** A listing whose names are all fresh has as many distinct names as
      entries. */
  lemma {:induction false} DistinctCount(names: seq<string>, k: nat)
    requires k <= |names| && FreshFrom(names, k)
    ensures |set n | n in names| == |set n | n in names[..k]| + (|names| - k)
    decreases |names| - k
  {
    if k < |names| {
      var longer := names[..k + 1];
      assert longer == names[..k] + [names[k]];
      assert (set n | n in longer) == (set n | n in names[..k]) + {names[k]};
      DistinctCount(names, k + 1);
    } else {
      assert names[..k] == names;
    }
  }

  /** The names from the eleventh on are each new, checked from the back. */
  lemma LaterNamesFresh()
    ensures FreshFrom(CommonIgnoredDirNames, 10)
  {
    var names := CommonIgnoredDirNames;
    assert FreshFrom(names, 18);
    assert FreshFrom(names, 17);
    assert FreshFrom(names, 16);
    assert FreshFrom(names, 15);
    assert FreshFrom(names, 14);
    assert FreshFrom(names, 13);
    assert FreshFrom(names, 12);
    assert FreshFrom(names, 11);
    assert FreshFrom(names, 10);
  }

  /** The denylist holds exactly nineteen distinct names. */
  lemma CommonIgnoredDirsSize()
    ensures |CommonIgnoredDirs| == 19
    ensures ".git" in CommonIgnoredDirs && "node_modules" in CommonIgnoredDirs
    ensures "__pycache__" in CommonIgnoredDirs && "dist" in CommonIgnoredDirs
    ensures "build" in CommonIgnoredDirs
  {
    var names := CommonIgnoredDirNames;
    LaterNamesFresh();
    assert FreshFrom(names, 9);
    assert FreshFrom(names, 8);
    assert FreshFrom(names, 7);
    assert FreshFrom(names, 6);
    assert FreshFrom(names, 5);
    assert FreshFrom(names, 4);
    assert FreshFrom(names, 3);
    assert FreshFrom(names, 2);
    assert FreshFrom(names, 1);
    assert names[..0] == [];
    DistinctCount(names, 0);
    assert names[0] == ".git" && names[7] == "node_modules" && names[6] == "__pycache__";
    assert names[12] == "dist" && names[13] == "build";
  }

  /** The directory names a run ignores: the built-in ones and the caller's. */
  function EffectiveIgnoreDirs(extra: seq<string>): (r: set<string>)
    ensures forall n :: n in r <==> n in CommonIgnoredDirs || n in extra
  {
    CommonIgnoredDirs + set n | n in extra
  }

  /** Null-safe matcher: no spec ignores nothing. */
  function IsIgnored(rel: string, spec: Option<Matcher>): (r: bool)
    ensures spec.None? ==> !r
    ensures spec.Some? ==> (r <==> spec.value(rel))
  {
    match spec
    case None => false
    case Some(m) => m(rel)
  }

  /** Loading `.gitignore` at the root: `available` says whether the pattern
      library could be imported, `gitignoreText` is the text of the root's
      `.gitignore` when it exists, `compile` stands for the library. */
  function LoadGitignore(available: bool, gitignoreText: Option<string>,
                         compile: string -> Matcher): (r: Option<Matcher>)
    ensures r.None? <==> !available || gitignoreText.None?
    ensures r.Some? ==> r.value == compile(gitignoreText.value)
  {
    if !available then None
    else match gitignoreText
      case None => None
      case Some(text) => Some(compile(text))
  }
}
