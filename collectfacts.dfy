/** What the collector yields: only admitted files, every admitted file
    reachable without crossing a pruned directory, each directory's own
    files before its subdirectories', and nothing that depends on the
    contents of a pruned directory. */
module CollectFacts {
  import opened Common
  import opened FileSystem
  import opened Collect

  /** Every entry of `xs` passes the file checks at its own path. */
  predicate AllAdmitted(xs: seq<Found>, o: CollectOptions)
  {
    forall x :: x in xs ==> Admitted(o, x.rel, x.file)
  }

  lemma AllAdmittedConcat(a: seq<Found>, b: seq<Found>, o: CollectOptions)
    requires AllAdmitted(a, o) && AllAdmitted(b, o)
    ensures AllAdmitted(a + b, o)
  {
  }

  /** Everything yielded passes the file checks at its own path. */
  lemma {:induction false} CollectedAdmitted(d: Node, dirRel: string, o: CollectOptions)
    requires d.Dir?
    ensures AllAdmitted(Collected(d, dirRel, o), o)
    decreases d
  {
    if !d.denied {
      var kept := KeptDirs(DirNames(d.children), dirRel, o);
      forall i | 0 <= i < |kept| && Descends(o, kept[i])
        ensures AllAdmitted(Collected(kept[i], ChildRel(dirRel, kept[i].name), o), o)
      {
        assert kept[i] in d.children;
        CollectedAdmitted(kept[i], ChildRel(dirRel, kept[i].name), o);
      }
      SubCollectedAdmitted(d, kept, |kept|, dirRel, o);
      AllAdmittedConcat(FilesFound(FileNames(d.children), dirRel, o), SubCollected(d, kept, |kept|, dirRel, o), o);
    }
  }

  /** The walks of the first `n` subdirectories yield only admitted files
      when each of those walks does. */
  lemma {:induction false} SubCollectedAdmitted(parent: Node, ds: seq<Node>, n: nat, dirRel: string,
                                                o: CollectOptions)
    requires parent.Dir? && n <= |ds|
    requires forall e :: e in ds ==> e in parent.children && e.Dir?
    requires forall i :: 0 <= i < n && Descends(o, ds[i]) ==>
      AllAdmitted(Collected(ds[i], ChildRel(dirRel, ds[i].name), o), o)
    ensures AllAdmitted(SubCollected(parent, ds, n, dirRel, o), o)
    decreases n
  {
    if n > 0 {
      SubCollectedAdmitted(parent, ds, n - 1, dirRel, o);
      SubCollectedAdmittedStep(parent, ds, n - 1, dirRel, o);
    }
  }

  lemma SubCollectedAdmittedStep(parent: Node, ds: seq<Node>, i: nat, dirRel: string, o: CollectOptions)
    requires parent.Dir? && i < |ds|
    requires forall e :: e in ds ==> e in parent.children && e.Dir?
    requires AllAdmitted(SubCollected(parent, ds, i, dirRel, o), o)
    requires Descends(o, ds[i]) ==> AllAdmitted(Collected(ds[i], ChildRel(dirRel, ds[i].name), o), o)
    ensures AllAdmitted(SubCollected(parent, ds, i + 1, dirRel, o), o)
  {
    SubCollectedSnoc(parent, ds, i, dirRel, o);
    AllAdmittedConcat(SubCollected(parent, ds, i, dirRel, o),
                      if Descends(o, ds[i]) then Collected(ds[i], ChildRel(dirRel, ds[i].name), o) else [], o);
  }

  lemma {:induction false} FilesFoundComplete(fs: seq<Node>, dirRel: string, o: CollectOptions, f: Node)
    requires f in fs && Admitted(o, ChildRel(dirRel, f.name), f)
    ensures Found(ChildRel(dirRel, f.name), f) in FilesFound(fs, dirRel, o)
  {
    var init, last := fs[..|fs| - 1], fs[|fs| - 1];
    var rel := ChildRel(dirRel, last.name);
    assert fs == init + [last];
    assert FilesFound(fs, dirRel, o) ==
      FilesFound(init, dirRel, o) + (if Admitted(o, rel, last) then [Found(rel, last)] else []);
    if f != last {
      assert f in init;
      FilesFoundComplete(init, dirRel, o, f);
    }
  }

  lemma {:induction false} SubCollectedIncludes(parent: Node, ds: seq<Node>, n: nat, dirRel: string,
                                                o: CollectOptions, i: nat)
    requires parent.Dir? && i < n <= |ds|
    requires forall e :: e in ds ==> e in parent.children && e.Dir?
    requires Descends(o, ds[i])
    ensures forall x :: x in Collected(ds[i], ChildRel(dirRel, ds[i].name), o) ==>
      x in SubCollected(parent, ds, n, dirRel, o)
    decreases n
  {
    SubCollectedSnoc(parent, ds, n - 1, dirRel, o);
    if i < n - 1 {
      SubCollectedIncludes(parent, ds, n - 1, dirRel, o, i);
    }
  }

  /** Completeness, one level at a time: a readable directory yields each
      of its files that passes the checks, and everything its kept, entered
      subdirectories yield. */
  lemma CollectedComplete(d: Node, dirRel: string, o: CollectOptions)
    requires d.Dir? && !d.denied
    ensures forall f :: f in d.children && f.File? && Admitted(o, ChildRel(dirRel, f.name), f) ==>
      Found(ChildRel(dirRel, f.name), f) in Collected(d, dirRel, o)
    ensures forall c, x ::
      (c in d.children && c.Dir? && !Pruned(o, ChildRel(dirRel, c.name), c) && Descends(o, c)
       && x in Collected(c, ChildRel(dirRel, c.name), o)) ==> x in Collected(d, dirRel, o)
  {
    var files := FileNames(d.children);
    var kept := KeptDirs(DirNames(d.children), dirRel, o);
    forall f | f in d.children && f.File? && Admitted(o, ChildRel(dirRel, f.name), f)
      ensures Found(ChildRel(dirRel, f.name), f) in Collected(d, dirRel, o)
    {
      FilesFoundComplete(files, dirRel, o, f);
    }
    forall c, x | c in d.children && c.Dir? && !Pruned(o, ChildRel(dirRel, c.name), c)
      && Descends(o, c) && x in Collected(c, ChildRel(dirRel, c.name), o)
      ensures x in Collected(d, dirRel, o)
    {
      var i :| 0 <= i < |kept| && kept[i] == c;
      SubCollectedIncludes(d, kept, |kept|, dirRel, o, i);
    }
  }

  /** Two listings that differ only in pruned subdirectories of the same
      name. */
  predicate AgreeOutsidePruned(a: seq<Node>, b: seq<Node>, dirRel: string, o: CollectOptions)
  {
    |a| == |b| &&
    forall i :: 0 <= i < |a| ==>
      (a[i] == b[i] ||
       (a[i].Dir? && b[i].Dir? && a[i].name == b[i].name && Pruned(o, ChildRel(dirRel, a[i].name), a[i])))
  }

  lemma AgreeTail(a: seq<Node>, b: seq<Node>, dirRel: string, o: CollectOptions)
    requires a != [] && AgreeOutsidePruned(a, b, dirRel, o)
    ensures AgreeOutsidePruned(a[1..], b[1..], dirRel, o)
  {
    forall i | 0 <= i < |a| - 1 ensures a[1..][i] == b[1..][i] || (a[1..][i].Dir? && b[1..][i].Dir?
      && a[1..][i].name == b[1..][i].name && Pruned(o, ChildRel(dirRel, a[1..][i].name), a[1..][i]))
    {
      assert a[1..][i] == a[i + 1] && b[1..][i] == b[i + 1];
    }
  }

  lemma AgreeCons(x: Node, y: Node, a: seq<Node>, b: seq<Node>, dirRel: string, o: CollectOptions)
    requires AgreeOutsidePruned(a, b, dirRel, o)
    requires x == y || (x.Dir? && y.Dir? && x.name == y.name && Pruned(o, ChildRel(dirRel, x.name), x))
    ensures AgreeOutsidePruned([x] + a, [y] + b, dirRel, o)
  {
    var l, r := [x] + a, [y] + b;
    forall i | 0 < i < |l| ensures l[i] == a[i - 1] && r[i] == b[i - 1] {}
  }

  lemma {:induction false} DirNamesAgree(a: seq<Node>, b: seq<Node>, dirRel: string, o: CollectOptions)
    requires AgreeOutsidePruned(a, b, dirRel, o)
    ensures AgreeOutsidePruned(DirNames(a), DirNames(b), dirRel, o)
  {
    if a != [] {
      AgreeTail(a, b, dirRel, o);
      DirNamesAgree(a[1..], b[1..], dirRel, o);
      if a[0].Dir? {
        AgreeCons(a[0], b[0], DirNames(a[1..]), DirNames(b[1..]), dirRel, o);
      }
    }
  }

  lemma {:induction false} FileNamesAgree(a: seq<Node>, b: seq<Node>, dirRel: string, o: CollectOptions)
    requires AgreeOutsidePruned(a, b, dirRel, o)
    ensures FileNames(a) == FileNames(b)
  {
    if a != [] {
      AgreeTail(a, b, dirRel, o);
      FileNamesAgree(a[1..], b[1..], dirRel, o);
    }
  }

  lemma {:induction false} KeptDirsAgree(a: seq<Node>, b: seq<Node>, dirRel: string, o: CollectOptions)
    requires AgreeOutsidePruned(a, b, dirRel, o)
    ensures KeptDirs(a, dirRel, o) == KeptDirs(b, dirRel, o)
  {
    if a != [] {
      var n := |a| - 1;
      assert AgreeOutsidePruned(a[..n], b[..n], dirRel, o) by {
        forall i | 0 <= i < n ensures a[..n][i] == a[i] && b[..n][i] == b[i] {}
      }
      KeptDirsAgree(a[..n], b[..n], dirRel, o);
    }
  }

  lemma {:induction false} SubCollectedParent(p1: Node, p2: Node, ds: seq<Node>, n: nat, dirRel: string,
                                              o: CollectOptions)
    requires p1.Dir? && p2.Dir? && n <= |ds|
    requires forall e :: e in ds ==> e in p1.children && e.Dir?
    requires forall e :: e in ds ==> e in p2.children
    ensures SubCollected(p1, ds, n, dirRel, o) == SubCollected(p2, ds, n, dirRel, o)
  {
    if n > 0 {
      SubCollectedParent(p1, p2, ds, n - 1, dirRel, o);
    }
  }

  /** Pruning happens before descent: what a directory yields does not
      depend on the contents of its pruned subdirectories. */
  lemma PrunedContentsIrrelevant(d: Node, d': Node, dirRel: string, o: CollectOptions)
    requires d.Dir? && d'.Dir? && d.denied == d'.denied
    requires AgreeOutsidePruned(d.children, d'.children, dirRel, o)
    ensures Collected(d, dirRel, o) == Collected(d', dirRel, o)
  {
    if !d.denied {
      FileNamesAgree(d.children, d'.children, dirRel, o);
      DirNamesAgree(d.children, d'.children, dirRel, o);
      KeptDirsAgree(DirNames(d.children), DirNames(d'.children), dirRel, o);
      var kept := KeptDirs(DirNames(d.children), dirRel, o);
      SubCollectedParent(d, d', kept, |kept|, dirRel, o);
    }
  }
}
