/** The file collector: a top-down walk of the filesystem that prunes
    excluded directories before descending and yields the root-relative
    paths of the files to export, in walk order. */
module Collect {
  import opened Common
  import opened Ignore
  import opened FileSystem
  import opened Utils

  /** The settings of `iter_files`. */
  datatype CollectOptions = CollectOptions(policy: Policy, maxFileBytes: int, followSymlinks: bool)

  /** A yielded file: its root-relative path and the entry itself. */
  datatype Found = Found(rel: string, file: Node)

  /** The walk's split of a listing: the entries that are directories (a
      link to a directory counts as one) and the others, in listing order. */
  function DirNames(cs: seq<Node>): (r: seq<Node>)
    ensures forall e :: e in r <==> e in cs && e.Dir?
  {
    if cs == [] then [] else (if cs[0].Dir? then [cs[0]] else []) + DirNames(cs[1..])
  }

  function FileNames(cs: seq<Node>): (r: seq<Node>)
    ensures forall e :: e in r <==> e in cs && e.File?
  {
    if cs == [] then [] else (if cs[0].File? then [cs[0]] else []) + FileNames(cs[1..])
  }

  /** A subdirectory at `rel` is removed from the walk: its name is ignored,
      it is hidden and hidden entries are dropped, or the gitignore matches
      `rel + "/"`. */
  predicate Pruned(o: CollectOptions, rel: string, d: Node)
  {
    d.name in o.policy.ignoreDirs || HiddenDropped(o.policy, d.name)
    || IsIgnored(rel + "/", o.policy.spec)
  }

  /** The subdirectories left after pruning, in listing order. */
  function KeptDirs(ds: seq<Node>, dirRel: string, o: CollectOptions): (r: seq<Node>)
    ensures forall e :: e in r <==> e in ds && !Pruned(o, ChildRel(dirRel, e.name), e)
  {
    if ds == [] then []
    else
      var init, last := ds[..|ds| - 1], ds[|ds| - 1];
      assert ds == init + [last];
      KeptDirs(init, dirRel, o) + (if Pruned(o, ChildRel(dirRel, last.name), last) then [] else [last])
  }

  /** A file at `rel` is yielded: not a dropped hidden name, not matched by
      the gitignore, not a link unless links are followed, a regular file
      (after following a link), not a binary extension, its size readable
      and at most the byte limit. */
  predicate Admitted(o: CollectOptions, rel: string, f: Node)
  {
    f.File? && !HiddenDropped(o.policy, f.name) && !IsIgnored(rel, o.policy.spec)
    && !(f.symlink && !o.followSymlinks) && f.regular && !IsBinaryPath(f.name)
    && !f.statFails && |f.data| <= o.maxFileBytes
  }

  /** The files yielded from the plain-file names of one directory. */
  function FilesFound(fs: seq<Node>, dirRel: string, o: CollectOptions): (r: seq<Found>)
    ensures forall x :: x in r ==>
      x.file in fs && x.rel == ChildRel(dirRel, x.file.name) && Admitted(o, x.rel, x.file)
  {
    if fs == [] then []
    else
      var init, last := fs[..|fs| - 1], fs[|fs| - 1];
      var rel := ChildRel(dirRel, last.name);
      FilesFound(init, dirRel, o) + (if Admitted(o, rel, last) then [Found(rel, last)] else [])
  }

  /** Is the walk entered for a kept subdirectory? Links only when followed. */
  predicate Descends(o: CollectOptions, d: Node)
  {
    o.followSymlinks || !d.symlink
  }

  /** Everything `iter_files` yields for the directory `d` at `dirRel`: its
      own files first, then the walk of each kept subdirectory in turn. A
      directory whose listing fails yields nothing. */
  function Collected(d: Node, dirRel: string, o: CollectOptions): seq<Found>
    requires d.Dir?
    decreases d, 1, 0
  {
    if d.denied then []
    else
      var kept := KeptDirs(DirNames(d.children), dirRel, o);
      FilesFound(FileNames(d.children), dirRel, o) + SubCollected(d, kept, |kept|, dirRel, o)
  }

  /** The walks of the first `n` kept subdirectories `ds[..n]` of `parent`. */
  function SubCollected(parent: Node, ds: seq<Node>, n: nat, dirRel: string, o: CollectOptions)
    : seq<Found>
    requires parent.Dir? && n <= |ds|
    requires forall e :: e in ds ==> e in parent.children && e.Dir?
    decreases parent, 0, n
  {
    if n == 0 then []
    else
      var c := ds[n - 1];
      assert c in parent.children;
      SubCollected(parent, ds, n - 1, dirRel, o)
      + (if Descends(o, c) then Collected(c, ChildRel(dirRel, c.name), o) else [])
  }

  /** The pruning loop: the subdirectory names that stay in the walk. */
  method PruneDirs(dirnames: seq<Node>, dirRel: string, o: CollectOptions) returns (kept: seq<Node>)
    ensures kept == KeptDirs(dirnames, dirRel, o)
  {
    kept := [];
    var i := 0;
    while i < |dirnames|
      invariant i <= |dirnames|
      invariant kept == KeptDirs(dirnames[..i], dirRel, o)
    {
      var d := dirnames[i];
      KeptDirsSnoc(dirnames, i, dirRel, o);
      i := i + 1;
      if d.name in o.policy.ignoreDirs || (!o.policy.includeHidden && StartsWithDot(d.name)) {
        continue;
      }
      var rel := ChildRel(dirRel, d.name);
      if o.policy.spec.Some? && IsIgnored(rel + "/", o.policy.spec) {
        continue;
      }
      kept := kept + [d];
    }
    assert dirnames[..|dirnames|] == dirnames;
  }

  /** The file loop of one directory: each check skips the file. */
  method AdmitFiles(filenames: seq<Node>, dirRel: string, o: CollectOptions) returns (found: seq<Found>)
    ensures found == FilesFound(filenames, dirRel, o)
  {
    found := [];
    var i := 0;
    while i < |filenames|
      invariant i <= |filenames|
      invariant found == FilesFound(filenames[..i], dirRel, o)
    {
      var f := filenames[i];
      assert filenames[..i + 1] == filenames[..i] + [f];
      assert filenames[..i + 1][..i] == filenames[..i];
      i := i + 1;
      if !o.policy.includeHidden && StartsWithDot(f.name) {
        continue;
      }
      var rel := ChildRel(dirRel, f.name);
      if o.policy.spec.Some? && IsIgnored(rel, o.policy.spec) {
        continue;
      }
      if f.symlink && !o.followSymlinks {
        continue;
      }
      if f.File? && f.regular {
        if IsBinaryPath(f.name) {
          continue;
        }
        if f.statFails {
          continue;
        }
        if |f.data| > o.maxFileBytes {
          continue;
        }
        found := found + [Found(rel, f)];
      }
    }
    assert filenames[..|filenames|] == filenames;
  }

  /** One step of `SubCollected`. */
  lemma SubCollectedSnoc(parent: Node, ds: seq<Node>, i: nat, dirRel: string, o: CollectOptions)
    requires parent.Dir? && i < |ds|
    requires forall e :: e in ds ==> e in parent.children && e.Dir?
    ensures SubCollected(parent, ds, i + 1, dirRel, o) == SubCollected(parent, ds, i, dirRel, o)
      + (if Descends(o, ds[i]) then Collected(ds[i], ChildRel(dirRel, ds[i].name), o) else [])
  {
  }

  /** The walks of `ds[..i]` followed by the walk of `ds[i]`, when it is
      entered, are the walks of `ds[..i + 1]`. */
  lemma SubCollectedExtend(parent: Node, ds: seq<Node>, i: nat, dirRel: string, o: CollectOptions,
                           out: seq<Found>, step: seq<Found>)
    requires parent.Dir? && i < |ds|
    requires forall e :: e in ds ==> e in parent.children && e.Dir?
    requires out == SubCollected(parent, ds, i, dirRel, o)
    requires step == if Descends(o, ds[i]) then Collected(ds[i], ChildRel(dirRel, ds[i].name), o) else []
    ensures out + step == SubCollected(parent, ds, i + 1, dirRel, o)
  {
    SubCollectedSnoc(parent, ds, i, dirRel, o);
  }

  /** One step of `KeptDirs` over a growing prefix. */
  lemma KeptDirsSnoc(ds: seq<Node>, i: nat, dirRel: string, o: CollectOptions)
    requires i < |ds|
    ensures KeptDirs(ds[..i + 1], dirRel, o) == KeptDirs(ds[..i], dirRel, o)
      + (if Pruned(o, ChildRel(dirRel, ds[i].name), ds[i]) then [] else [ds[i]])
  {
    assert ds[..i + 1][..i] == ds[..i];
  }

  /** `os.walk` for the directory `d` at `dirRel`, with the pruning and
      file checks of `iter_files` applied at each level: the files of
      `d`, then the walk of each kept subdirectory in turn. */
  method Walk(d: Node, dirRel: string, o: CollectOptions) returns (out: seq<Found>)
    requires d.Dir?
    ensures out == Collected(d, dirRel, o)
    decreases d
  {
    if d.denied {
      return [];
    }
    var dirnames := DirNames(d.children);
    var filenames := FileNames(d.children);
    var kept := PruneDirs(dirnames, dirRel, o);
    var files := AdmitFiles(filenames, dirRel, o);
    var sub := [];
    var i := 0;
    while i < |kept|
      invariant i <= |kept|
      invariant sub == SubCollected(d, kept, i, dirRel, o)
    {
      var c := kept[i];
      assert c in d.children;
      var step: seq<Found> := [];
      if o.followSymlinks || !c.symlink {
        step := Walk(c, ChildRel(dirRel, c.name), o);
      }
      SubCollectedExtend(d, kept, i, dirRel, o, sub, step);
      sub := sub + step;
      i := i + 1;
    }
    out := files + sub;
  }

  /** `iter_files`: every file to export under `root`, in walk order. */
  method IterFiles(root: Node, includeHidden: bool, ignoreDirs: set<string>, giSpec: Option<Matcher>,
                   maxFileBytes: int, followSymlinks: bool) returns (files: seq<Found>)
    requires root.Dir?
    ensures files == Collected(root, "", CollectOptions(Policy(includeHidden, ignoreDirs, giSpec),
                                                        maxFileBytes, followSymlinks))
  {
    files := Walk(root, "", CollectOptions(Policy(includeHidden, ignoreDirs, giSpec),
                                           maxFileBytes, followSymlinks));
  }
}
