/** The tree and the file collector agree: when links are not followed,
    every file the collector yields is listed in the tree, as an entry line
    for that very file at the same root-relative path. */
module Coverage {
  import opened FileSystem
  import opened Tree
  import opened TreeFacts
  import opened Collect
  import opened Dump

  /** The lines of entry `es[i]` are among the lines of `es[..n]` for
      every `n` past `i`. */
  lemma {:induction false} ChildLinesHas(parent: Node, es: seq<Node>, n: nat, i: nat, dirRel: string,
                                         prefix: string, p: Policy)
    requires parent.Dir? && i < n <= |es|
    requires forall e :: e in es ==> e in parent.children
    ensures forall l :: l in EntryLines(parent, es, i, dirRel, prefix, p) ==>
      l in ChildLines(parent, es, n, dirRel, prefix, p)
    decreases n
  {
    if i < n - 1 {
      ChildLinesHas(parent, es, n - 1, i, dirRel, prefix, p);
    }
  }

  /** Whatever the walks of `ds[..n]` yield comes from the walk of one of
      those subdirectories that is entered. */
  lemma {:induction false} SubCollectedFrom(parent: Node, ds: seq<Node>, n: nat, dirRel: string,
                                            o: CollectOptions, x: Found)
    requires parent.Dir? && n <= |ds|
    requires forall e :: e in ds ==> e in parent.children && e.Dir?
    requires x in SubCollected(parent, ds, n, dirRel, o)
    ensures exists j :: 0 <= j < n && Descends(o, ds[j]) && x in Collected(ds[j], ChildRel(dirRel, ds[j].name), o)
    decreases n
  {
    SubCollectedSnoc(parent, ds, n - 1, dirRel, o);
    if x in SubCollected(parent, ds, n - 1, dirRel, o) {
      SubCollectedFrom(parent, ds, n - 1, dirRel, o, x);
    }
  }

  /** An entry that passes the filters has a position in the listing. */
  lemma ListedAt(d: Node, dirRel: string, p: Policy, e: Node) returns (i: nat)
    requires d.Dir? && e in d.children && Shown(p, ChildRel(dirRel, e.name), e)
    ensures i < |Listing(d, dirRel, p)| && Listing(d, dirRel, p)[i] == e
  {
    ListingMembers(d, dirRel, p);
    var es := Listing(d, dirRel, p);
    i :| 0 <= i < |es| && es[i] == e;
  }

  /** The lines of the listed entry at position `i` are lines of `d`. */
  lemma EntryLinesInWalk(d: Node, dirRel: string, prefix: string, p: Policy, i: nat, l: Line)
    requires d.Dir? && !d.denied && i < |Listing(d, dirRel, p)|
    requires l in EntryLines(d, Listing(d, dirRel, p), i, dirRel, prefix, p)
    ensures l in WalkLines(d, dirRel, prefix, p)
  {
    ChildLinesHas(d, Listing(d, dirRel, p), |Listing(d, dirRel, p)|, i, dirRel, prefix, p);
  }

  /** A file of `d` itself that is yielded is drawn as an entry of `d`. */
  lemma OwnFileInWalk(d: Node, dirRel: string, prefix: string, o: CollectOptions, x: Found)
    requires d.Dir? && !d.denied && !o.followSymlinks
    requires x in FilesFound(FileNames(d.children), dirRel, o)
    ensures exists l :: l in WalkLines(d, dirRel, prefix, o.policy) && l.Entry? && l.node == x.file && l.rel == x.rel
  {
    var p := o.policy;
    assert x.file in d.children && x.rel == ChildRel(dirRel, x.file.name) && Admitted(o, x.rel, x.file);
    var i := ListedAt(d, dirRel, p, x.file);
    var es := Listing(d, dirRel, p);
    var here := Entry(prefix, if i == |es| - 1 then LastConnector else MidConnector, es[i], x.rel);
    assert here in EntryLines(d, es, i, dirRel, prefix, p);
    EntryLinesInWalk(d, dirRel, prefix, p, i, here);
  }

  /** A line drawn under a listed subdirectory, at the indentation of its
      position, is a line of `d`. */
  lemma BelowInWalk(d: Node, dirRel: string, prefix: string, p: Policy, i: nat, l: Line)
    requires d.Dir? && !d.denied && i < |Listing(d, dirRel, p)|
    requires var c := Listing(d, dirRel, p)[i];
      c.Dir? && l in WalkLines(c, ChildRel(dirRel, c.name),
                               prefix + (if i == |Listing(d, dirRel, p)| - 1 then LastIndent else MidIndent), p)
    ensures l in WalkLines(d, dirRel, prefix, p)
  {
    var es := Listing(d, dirRel, p);
    assert es[i] in d.children;
    assert l in EntryLines(d, es, i, dirRel, prefix, p);
    EntryLinesInWalk(d, dirRel, prefix, p, i, l);
  }

  /** A yielded file of `d` has an entry line for itself, at its own path,
      in the lines `_walk` draws for `d` (under any prefix). */
  lemma {:induction false} CollectedInWalk(d: Node, dirRel: string, prefix: string, o: CollectOptions)
    requires d.Dir? && !o.followSymlinks
    ensures forall x :: x in Collected(d, dirRel, o) ==>
      exists l :: l in WalkLines(d, dirRel, prefix, o.policy) && l.Entry? && l.node == x.file && l.rel == x.rel
    decreases d
  {
    if !d.denied {
      var kept := KeptDirs(DirNames(d.children), dirRel, o);
      forall x | x in Collected(d, dirRel, o)
        ensures exists l :: l in WalkLines(d, dirRel, prefix, o.policy) && l.Entry? && l.node == x.file && l.rel == x.rel
      {
        if x in FilesFound(FileNames(d.children), dirRel, o) {
          OwnFileInWalk(d, dirRel, prefix, o, x);
        } else {
          SubCollectedFrom(d, kept, |kept|, dirRel, o, x);
          var j :| 0 <= j < |kept| && Descends(o, kept[j])
            && x in Collected(kept[j], ChildRel(dirRel, kept[j].name), o);
          var c := kept[j];
          var i := ListedAt(d, dirRel, o.policy, c);
          var n := |Listing(d, dirRel, o.policy)|;
          var sub := prefix + (if i == n - 1 then LastIndent else MidIndent);
          CollectedInWalk(c, ChildRel(dirRel, c.name), sub, o);
          var l :| l in WalkLines(c, ChildRel(dirRel, c.name), sub, o.policy)
            && l.Entry? && l.node == x.file && l.rel == x.rel;
          BelowInWalk(d, dirRel, prefix, o.policy, i, l);
        }
      }
    }
  }

  /** With links not followed, every file of the export is listed in the
      exported tree, by an entry line for that file at its own path. */
  lemma ExportedFilesAreInTree(cfg: Config, env: Env)
    requires cfg.root.Dir? && !cfg.followSymlinks
    ensures forall x :: x in Files(cfg, env) ==>
      exists l :: (l in TreeLines(cfg.root, cfg.rootName, RunPolicy(cfg, env))
                   && l.Entry? && l.node == x.file && l.rel == x.rel)
  {
    var o := CollectOptions(RunPolicy(cfg, env), cfg.maxFileBytes, cfg.followSymlinks);
    CollectedInWalk(cfg.root, "", "", o);
    forall x | x in Files(cfg, env)
      ensures exists l :: (l in TreeLines(cfg.root, cfg.rootName, RunPolicy(cfg, env))
                           && l.Entry? && l.node == x.file && l.rel == x.rel)
    {
      var l :| l in WalkLines(cfg.root, "", "", o.policy) && l.Entry? && l.node == x.file && l.rel == x.rel;
      assert l in TreeLines(cfg.root, cfg.rootName, RunPolicy(cfg, env));
    }
  }
}
