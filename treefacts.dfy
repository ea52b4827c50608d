/** What the tree shows: exactly the entries that pass the filters, in
    sorted order, each directory's entries drawn with the connector of their
    position, and everything below a directory indented under it. */
module TreeFacts {
  import opened Common
  import opened FileSystem
  import opened TreeOrder
  import opened Tree

  /** The listing of a directory holds exactly its children that pass the
      hidden, link and exclusion filters. */
  lemma ListingMembers(d: Node, dirRel: string, p: Policy)
    requires d.Dir?
    ensures forall e :: e in Listing(d, dirRel, p) <==>
      e in d.children && Shown(p, ChildRel(dirRel, e.name), e)
  {
    SortEntriesMembers(d.children);
  }

  lemma SortedSnoc(t: seq<Node>, x: Node)
    requires SortedByKey(t)
    requires forall y :: y in t ==> KeyLe(y, x)
    ensures SortedByKey(t + [x])
  {
    var r := t + [x];
    forall i, j | 0 <= i < j < |r| ensures KeyLe(r[i], r[j]) {
      assert r[i] == t[i];
      if j < |t| { assert r[j] == t[j]; }
    }
  }

  lemma {:induction false} VisibleSorted(es: seq<Node>, p: Policy)
    requires SortedByKey(es)
    ensures SortedByKey(Visible(es, p))
  {
    if es != [] {
      VisibleSorted(es[1..], p);
      var t := Visible(es[1..], p);
      forall y | y in t ensures KeyLe(es[0], y) {
        var m :| 0 <= m < |es[1..]| && es[1..][m] == y;
        assert es[m + 1] == y;
      }
      if !HiddenDropped(p, es[0].name) && !es[0].symlink {
        SortedCons(es[0], t);
      } else {
        assert Visible(es, p) == t;
      }
    }
  }

  lemma {:induction false} KeptSorted(es: seq<Node>, dirRel: string, p: Policy)
    requires SortedByKey(es)
    ensures SortedByKey(Kept(es, dirRel, p))
  {
    if es != [] {
      var init, last := es[..|es| - 1], es[|es| - 1];
      KeptSorted(init, dirRel, p);
      var t := Kept(init, dirRel, p);
      forall y | y in t ensures KeyLe(y, last) {
        var m :| 0 <= m < |init| && init[m] == y;
        assert es[m] == y;
      }
      if !Excluded(p, ChildRel(dirRel, last.name), last) {
        SortedSnoc(t, last);
      } else {
        assert Kept(es, dirRel, p) == t;
      }
    }
  }

  /** The listing is in the sort order: non-files first, then by
      lower-cased name. */
  lemma ListingSorted(d: Node, dirRel: string, p: Policy)
    requires d.Dir?
    ensures SortedByKey(Listing(d, dirRel, p))
  {
    SortEntriesSorted(d.children);
    VisibleSorted(SortEntries(d.children), p);
    KeptSorted(Visible(SortEntries(d.children), p), dirRel, p);
  }

  /** A line drawn under `prefix`: its own prefix extends `prefix`, and an
      entry line shows an entry that passes the filters at its path. */
  predicate Placed(l: Line, prefix: string, p: Policy)
  {
    match l
    case Root(_) => false
    case Entry(lp, _, node, rel) => prefix <= lp && Shown(p, rel, node)
    case Denied(lp, _) => prefix <= lp
  }

  lemma {:induction false} WalkLinesPlaced(d: Node, dirRel: string, prefix: string, p: Policy)
    requires d.Dir?
    ensures forall l :: l in WalkLines(d, dirRel, prefix, p) ==> Placed(l, prefix, p)
    decreases d, 1, 0, 0
  {
    if !d.denied {
      var es := Listing(d, dirRel, p);
      ListingMembers(d, dirRel, p);
      ChildLinesPlaced(d, es, |es|, dirRel, prefix, p);
    }
  }

  lemma {:induction false} ChildLinesPlaced(parent: Node, es: seq<Node>, n: nat, dirRel: string,
                                            prefix: string, p: Policy)
    requires parent.Dir? && n <= |es|
    requires forall e :: e in es ==> e in parent.children
    requires forall e :: e in es ==> Shown(p, ChildRel(dirRel, e.name), e)
    ensures forall l :: l in ChildLines(parent, es, n, dirRel, prefix, p) ==> Placed(l, prefix, p)
    decreases parent, 0, n, 1
  {
    if n > 0 {
      ChildLinesPlaced(parent, es, n - 1, dirRel, prefix, p);
      EntryLinesPlaced(parent, es, n - 1, dirRel, prefix, p);
    }
  }

  lemma {:induction false} EntryLinesPlaced(parent: Node, es: seq<Node>, i: nat, dirRel: string,
                                            prefix: string, p: Policy)
    requires parent.Dir? && i < |es|
    requires forall e :: e in es ==> e in parent.children
    requires forall e :: e in es ==> Shown(p, ChildRel(dirRel, e.name), e)
    ensures forall l :: l in EntryLines(parent, es, i, dirRel, prefix, p) ==> Placed(l, prefix, p)
    decreases parent, 0, i, 0
  {
    var e := es[i];
    assert e in parent.children;
    if e.Dir? {
      var last := i == |es| - 1;
      var sub := prefix + (if last then LastIndent else MidIndent);
      var rel := ChildRel(dirRel, e.name);
      WalkLinesPlaced(e, rel, sub, p);
      forall l | l in WalkLines(e, rel, sub, p) ensures Placed(l, prefix, p) {
        assert Placed(l, sub, p);
      }
    }
  }

  /** Every entry line of the tree shows an entry that is neither a link
      nor a dropped hidden entry nor excluded at its root-relative path. */
  lemma TreeShowsOnlyShown(root: Node, rootName: string, p: Policy)
    requires root.Dir?
    ensures forall l :: l in TreeLines(root, rootName, p) && l.Entry? ==>
      !l.node.symlink && !HiddenDropped(p, l.node.name) && !Excluded(p, l.rel, l.node)
  {
    WalkLinesPlaced(root, "", "", p);
    var ls := TreeLines(root, rootName, p);
    forall l | l in ls && l.Entry?
      ensures !l.node.symlink && !HiddenDropped(p, l.node.name) && !Excluded(p, l.rel, l.node)
    {
      assert l in WalkLines(root, "", "", p);
      assert Placed(l, "", p);
    }
  }

  /** The root's line is the first line of the tree and the only one. */
  lemma OnlyFirstLineIsRoot(root: Node, rootName: string, p: Policy)
    requires root.Dir?
    ensures var ls := TreeLines(root, rootName, p);
      forall i :: 0 <= i < |ls| ==> (ls[i].Root? <==> i == 0)
  {
    WalkLinesPlaced(root, "", "", p);
    var ls := TreeLines(root, rootName, p);
    forall i | 1 <= i < |ls|
      ensures !ls[i].Root?
    {
      assert ls[i] == WalkLines(root, "", "", p)[i - 1];
      assert Placed(ls[i], "", p);
    }
  }

  /** The entry lines drawn directly under `prefix` (not in a subtree). */
  function DirectLines(ls: seq<Line>, prefix: string): (r: seq<Line>)
    ensures forall l :: l in r ==> l in ls && l.Entry? && l.prefix == prefix
  {
    if ls == [] then []
    else (if ls[0].Entry? && ls[0].prefix == prefix then [ls[0]] else []) + DirectLines(ls[1..], prefix)
  }

  lemma {:induction false} DirectLinesAppend(a: seq<Line>, b: seq<Line>, prefix: string)
    ensures DirectLines(a + b, prefix) == DirectLines(a, prefix) + DirectLines(b, prefix)
  {
    if a == [] {
      assert a + b == b;
    } else {
      assert (a + b)[0] == a[0] && (a + b)[1..] == a[1..] + b;
      DirectLinesAppend(a[1..], b, prefix);
    }
  }

  lemma {:induction false} DirectLinesDeeper(ls: seq<Line>, prefix: string, deeper: string, p: Policy)
    requires |deeper| > |prefix|
    requires forall l :: l in ls ==> Placed(l, deeper, p)
    ensures DirectLines(ls, prefix) == []
  {
    if ls != [] {
      assert ls[0] in ls;
      DirectLinesDeeper(ls[1..], prefix, deeper, p);
    }
  }

  /** How `_walk` draws entry `es[i]` of one directory: with the closing
      connector if it is the last and the joining one otherwise. */
  function DrawnAt(es: seq<Node>, i: nat, dirRel: string, prefix: string): (l: Line)
    requires i < |es|
    ensures l.Entry? && l.prefix == prefix && l.node == es[i]
    ensures l.connector == (if i == |es| - 1 then LastConnector else MidConnector)
  {
    Entry(prefix, if i == |es| - 1 then LastConnector else MidConnector, es[i], ChildRel(dirRel, es[i].name))
  }

  /** The drawn lines of `es[..n]`, in order. */
  function DrawnUpTo(es: seq<Node>, n: nat, dirRel: string, prefix: string): (r: seq<Line>)
    requires n <= |es|
    ensures |r| == n
  {
    if n == 0 then [] else DrawnUpTo(es, n - 1, dirRel, prefix) + [DrawnAt(es, n - 1, dirRel, prefix)]
  }

  /** How `_walk` draws the entries `es` of one directory, in order. */
  function Drawn(es: seq<Node>, dirRel: string, prefix: string): seq<Line>
  {
    DrawnUpTo(es, |es|, dirRel, prefix)
  }

  /** The drawn lines are the entries in order, each drawn at its own
      position. */
  lemma {:induction false} DrawnLines(es: seq<Node>, n: nat, dirRel: string, prefix: string)
    requires n <= |es|
    ensures forall i :: 0 <= i < n ==> DrawnUpTo(es, n, dirRel, prefix)[i] == DrawnAt(es, i, dirRel, prefix)
  {
    if n > 0 {
      DrawnLines(es, n - 1, dirRel, prefix);
    }
  }

  lemma EntryLinesDirect(parent: Node, es: seq<Node>, i: nat, dirRel: string,
                          prefix: string, p: Policy)
    requires parent.Dir? && i < |es|
    requires forall e :: e in es ==> e in parent.children
    ensures DirectLines(EntryLines(parent, es, i, dirRel, prefix, p), prefix) == [DrawnAt(es, i, dirRel, prefix)]
  {
    var e := es[i];
    assert e in parent.children;
    var last := i == |es| - 1;
    var rel := ChildRel(dirRel, e.name);
    var here := DrawnAt(es, i, dirRel, prefix);
    if e.Dir? {
      var sub := prefix + (if last then LastIndent else MidIndent);
      WalkLinesPlaced(e, rel, sub, p);
      DirectLinesDeeper(WalkLines(e, rel, sub, p), prefix, sub, p);
      DirectLinesAppend([here], WalkLines(e, rel, sub, p), prefix);
    }
  }

  lemma {:induction false} ChildLinesDirect(parent: Node, es: seq<Node>, n: nat, dirRel: string,
                                            prefix: string, p: Policy)
    requires parent.Dir? && n <= |es|
    requires forall e :: e in es ==> e in parent.children
    ensures DirectLines(ChildLines(parent, es, n, dirRel, prefix, p), prefix) == DrawnUpTo(es, n, dirRel, prefix)
    decreases n
  {
    if n > 0 {
      var i := n - 1;
      ChildLinesDirect(parent, es, i, dirRel, prefix, p);
      EntryLinesDirect(parent, es, i, dirRel, prefix, p);
      DirectLinesSnoc(ChildLines(parent, es, i, dirRel, prefix, p), EntryLines(parent, es, i, dirRel, prefix, p),
                      prefix, DrawnUpTo(es, i, dirRel, prefix), DrawnAt(es, i, dirRel, prefix));
    }
  }

  /** Appending lines that draw one entry directly under `prefix` appends
      that entry. */
  lemma DirectLinesSnoc(done: seq<Line>, here: seq<Line>, prefix: string, drawn: seq<Line>, l: Line)
    requires DirectLines(done, prefix) == drawn && DirectLines(here, prefix) == [l]
    ensures DirectLines(done + here, prefix) == drawn + [l]
  {
    DirectLinesAppend(done, here, prefix);
  }

  /** The lines drawn directly under a readable directory are its listed
      entries, in listing order, with the connectors of their positions; a
      directory whose listing is refused shows its one denial line. */
  lemma WalkLinesDirect(d: Node, dirRel: string, prefix: string, p: Policy)
    requires d.Dir?
    ensures !d.denied ==>
      DirectLines(WalkLines(d, dirRel, prefix, p), prefix) == Drawn(Listing(d, dirRel, p), dirRel, prefix)
    ensures !d.denied ==> forall i :: 0 <= i < |Listing(d, dirRel, p)| ==>
      Drawn(Listing(d, dirRel, p), dirRel, prefix)[i] == DrawnAt(Listing(d, dirRel, p), i, dirRel, prefix)
    ensures d.denied ==> WalkLines(d, dirRel, prefix, p) == [Denied(prefix, d.name)]
  {
    if !d.denied {
      var es := Listing(d, dirRel, p);
      ChildLinesDirect(d, es, |es|, dirRel, prefix, p);
      DrawnLines(es, |es|, dirRel, prefix);
    }
  }
}
