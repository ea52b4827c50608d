/** The textual directory tree: one line per listed entry, with box-drawing
    connectors, hidden entries, links and excluded entries left out, and a
    directory whose listing is refused shown as a single line. */
module Tree {
  import opened Common
  import opened Ignore
  import opened FileSystem
  import opened TreeOrder

  const LastConnector := "└── "
  const MidConnector := "├── "
  const LastIndent := "    "
  const MidIndent := "│   "
  const DeniedMark := "[permission denied] "

  /** One line of the tree. `rel` is the root-relative path of the entry. */
  datatype Line =
    | Root(name: string)
    | Entry(prefix: string, connector: string, node: Node, rel: string)
    | Denied(prefix: string, name: string)
  {
    function Text(): (r: string)
    {
      match this
      case Root(name) => name + "/"
      case Entry(prefix, connector, node, _) =>
        prefix + connector + node.name + (if node.Dir? then "/" else "")
      case Denied(prefix, name) => prefix + DeniedMark + name
    }
  }

  function Texts(ls: seq<Line>): (r: seq<string>)
    ensures |r| == |ls|
  {
    if ls == [] then [] else [ls[0].Text()] + Texts(ls[1..])
  }

  lemma {:induction false} TextsAppend(a: seq<Line>, b: seq<Line>)
    ensures Texts(a + b) == Texts(a) + Texts(b)
  {
    if a == [] {
      assert a + b == b;
    } else {
      assert (a + b)[0] == a[0] && (a + b)[1..] == a[1..] + b;
      TextsAppend(a[1..], b);
    }
  }

  /** Solver aid with no counterpart in the program: concatenation of line
      sequences is associative. */
  lemma ConcatAssoc(a: seq<string>, b: seq<string>, c: seq<string>)
    ensures a + b + c == a + (b + c)
  {
  }

  /** Number of directory lines and of file lines. */
  function CountDirs(ls: seq<Line>): nat
  {
    if ls == [] then 0 else (if ls[0].Entry? && ls[0].node.Dir? then 1 else 0) + CountDirs(ls[1..])
  }

  function CountFiles(ls: seq<Line>): nat
  {
    if ls == [] then 0 else (if ls[0].Entry? && ls[0].node.File? then 1 else 0) + CountFiles(ls[1..])
  }

  lemma {:induction false} CountsAppend(a: seq<Line>, b: seq<Line>)
    ensures CountDirs(a + b) == CountDirs(a) + CountDirs(b)
    ensures CountFiles(a + b) == CountFiles(a) + CountFiles(b)
  {
    if a == [] {
      assert a + b == b;
    } else {
      assert (a + b)[0] == a[0] && (a + b)[1..] == a[1..] + b;
      CountsAppend(a[1..], b);
    }
  }

  /** The first filter: hidden entries (unless included) and links go. */
  function Visible(es: seq<Node>, p: Policy): (r: seq<Node>)
    ensures forall e :: e in r <==> e in es && !HiddenDropped(p, e.name) && !e.symlink
  {
    if es == [] then []
    else (if !HiddenDropped(p, es[0].name) && !es[0].symlink then [es[0]] else [])
         + Visible(es[1..], p)
  }

  /** The second filter: an ignored directory name, or a gitignore match on
      `rel + "/"` for a directory and on `rel` for anything else. */
  predicate Excluded(p: Policy, rel: string, e: Node)
  {
    if e.Dir? then e.name in p.ignoreDirs || IsIgnored(rel + "/", p.spec)
    else IsIgnored(rel, p.spec)
  }

  function Kept(es: seq<Node>, dirRel: string, p: Policy): (r: seq<Node>)
    ensures forall e :: e in r <==> e in es && !Excluded(p, ChildRel(dirRel, e.name), e)
  {
    if es == [] then []
    else
      var init, last := es[..|es| - 1], es[|es| - 1];
      assert es == init + [last];
      Kept(init, dirRel, p)
      + (if Excluded(p, ChildRel(dirRel, last.name), last) then [] else [last])
  }

  /** An entry is listed when it passes both filters. */
  predicate Shown(p: Policy, rel: string, e: Node)
  {
    !HiddenDropped(p, e.name) && !e.symlink && !Excluded(p, rel, e)
  }

  /** The entries of directory `d` (at `dirRel`) that the tree lists, in
      listing order. */
  function Listing(d: Node, dirRel: string, p: Policy): (r: seq<Node>)
    requires d.Dir?
    ensures forall e :: e in r ==> e in d.children
  {
    SortEntriesMembers(d.children);
    Kept(Visible(SortEntries(d.children), p), dirRel, p)
  }

  /** The lines `_walk` produces for directory `d`. */
  function WalkLines(d: Node, dirRel: string, prefix: string, p: Policy): seq<Line>
    requires d.Dir?
    decreases d, 1, 0, 0
  {
    if d.denied then [Denied(prefix, d.name)]
    else
      var es := Listing(d, dirRel, p);
      ChildLines(d, es, |es|, dirRel, prefix, p)
  }

  /** The lines for the first `n` listed entries `es[..n]` of `parent`. */
  function ChildLines(parent: Node, es: seq<Node>, n: nat, dirRel: string, prefix: string,
                      p: Policy): seq<Line>
    requires parent.Dir? && n <= |es|
    requires forall e :: e in es ==> e in parent.children
    decreases parent, 0, n, 1
  {
    if n == 0 then []
    else ChildLines(parent, es, n - 1, dirRel, prefix, p) + EntryLines(parent, es, n - 1, dirRel, prefix, p)
  }

  /** The line of entry `es[i]` (the last one gets the closing connector),
      followed by the lines of its subtree when it is a directory. */
  function EntryLines(parent: Node, es: seq<Node>, i: nat, dirRel: string, prefix: string,
                      p: Policy): seq<Line>
    requires parent.Dir? && i < |es|
    requires forall e :: e in es ==> e in parent.children
    decreases parent, 0, i, 0
  {
    var e := es[i];
    assert e in parent.children;
    var last := i == |es| - 1;
    var rel := ChildRel(dirRel, e.name);
    var here := Entry(prefix, if last then LastConnector else MidConnector, e, rel);
    if e.Dir? then [here] + WalkLines(e, rel, prefix + (if last then LastIndent else MidIndent), p)
    else [here]
  }

  /** Appending the lines of entry `es[idx]` to those of `es[..idx]` gives
      the lines of `es[..idx + 1]`. */
  lemma ChildLinesSnoc(parent: Node, es: seq<Node>, idx: nat, dirRel: string, prefix: string,
                       p: Policy, base: seq<string>, before: seq<string>, after: seq<string>)
    requires parent.Dir? && idx < |es|
    requires forall e :: e in es ==> e in parent.children
    requires before == base + Texts(ChildLines(parent, es, idx, dirRel, prefix, p))
    requires after == before + Texts(EntryLines(parent, es, idx, dirRel, prefix, p))
    ensures after == base + Texts(ChildLines(parent, es, idx + 1, dirRel, prefix, p))
  {
    var done, here := ChildLines(parent, es, idx, dirRel, prefix, p), EntryLines(parent, es, idx, dirRel, prefix, p);
    assert ChildLines(parent, es, idx + 1, dirRel, prefix, p) == done + here;
    TextsAppend(done, here);
    ConcatAssoc(base, Texts(done), Texts(here));
  }

  /** The texts and counts of the lines of entry `es[i]`: its own line,
      then for a directory the lines of its subtree. */
  lemma EntryShape(parent: Node, es: seq<Node>, i: nat, dirRel: string, prefix: string, p: Policy)
    requires parent.Dir? && i < |es|
    requires forall e :: e in es ==> e in parent.children
    ensures var e, last := es[i], i == |es| - 1;
      var connector := if last then LastConnector else MidConnector;
      var sub := prefix + (if last then LastIndent else MidIndent);
      var ls := EntryLines(parent, es, i, dirRel, prefix, p);
      (e.Dir? ==>
         var below := WalkLines(e, ChildRel(dirRel, e.name), sub, p);
         Texts(ls) == [prefix + connector + e.name + "/"] + Texts(below)
         && CountDirs(ls) == 1 + CountDirs(below) && CountFiles(ls) == CountFiles(below))
      && (!e.Dir? ==> Texts(ls) == [prefix + connector + e.name] && CountDirs(ls) == 0 && CountFiles(ls) == 1)
  {
    var e, last := es[i], i == |es| - 1;
    assert e in parent.children;
    var connector := if last then LastConnector else MidConnector;
    var here := Entry(prefix, connector, e, ChildRel(dirRel, e.name));
    if e.Dir? {
      var below := WalkLines(e, ChildRel(dirRel, e.name), prefix + (if last then LastIndent else MidIndent), p);
      TextsAppend([here], below);
      CountsAppend([here], below);
    } else {
      assert here.Text() == prefix + connector + e.name;
    }
  }

  lemma ChildCountsSnoc(parent: Node, es: seq<Node>, idx: nat, dirRel: string, prefix: string,
                        p: Policy, dirs0: int, dirs1: int, dirs2: int,
                        files0: int, files1: int, files2: int)
    requires parent.Dir? && idx < |es|
    requires forall e :: e in es ==> e in parent.children
    requires dirs1 == dirs0 + CountDirs(ChildLines(parent, es, idx, dirRel, prefix, p))
    requires dirs2 == dirs1 + CountDirs(EntryLines(parent, es, idx, dirRel, prefix, p))
    requires files1 == files0 + CountFiles(ChildLines(parent, es, idx, dirRel, prefix, p))
    requires files2 == files1 + CountFiles(EntryLines(parent, es, idx, dirRel, prefix, p))
    ensures dirs2 == dirs0 + CountDirs(ChildLines(parent, es, idx + 1, dirRel, prefix, p))
    ensures files2 == files0 + CountFiles(ChildLines(parent, es, idx + 1, dirRel, prefix, p))
  {
    CountsAppend(ChildLines(parent, es, idx, dirRel, prefix, p), EntryLines(parent, es, idx, dirRel, prefix, p));
  }

  /** One step of `Kept` over a growing prefix. */
  lemma KeptSnoc(es: seq<Node>, j: nat, dirRel: string, p: Policy)
    requires j < |es|
    ensures Kept(es[..j + 1], dirRel, p) == Kept(es[..j], dirRel, p)
      + (if Excluded(p, ChildRel(dirRel, es[j].name), es[j]) then [] else [es[j]])
  {
    assert es[..j + 1][..j] == es[..j];
  }

  /** The second filter pass of `_walk`, entry by entry. */
  method FilterEntries(entries: seq<Node>, dirRel: string, p: Policy) returns (filtered: seq<Node>)
    ensures filtered == Kept(entries, dirRel, p)
  {
    filtered := [];
    var j := 0;
    while j < |entries|
      invariant j <= |entries|
      invariant filtered == Kept(entries[..j], dirRel, p)
    {
      var e := entries[j];
      var rel := ChildRel(dirRel, e.name);
      KeptSnoc(entries, j, dirRel, p);
      if e.Dir? {
        if e.name in p.ignoreDirs {
          j := j + 1;
          continue;
        }
        if IsIgnored(rel + "/", p.spec) {
          j := j + 1;
          continue;
        }
      } else {
        if IsIgnored(rel, p.spec) {
          j := j + 1;
          continue;
        }
      }
      filtered := filtered + [e];
      j := j + 1;
    }
    assert entries[..|entries|] == entries;
  }

  /** All lines of the tree: the root line, then the walk of the root. */
  function TreeLines(root: Node, rootName: string, p: Policy): (r: seq<Line>)
    requires root.Dir?
    ensures |r| >= 1 && r[0] == Root(rootName)
  {
    [Root(rootName)] + WalkLines(root, "", "", p)
  }

  /** Accumulates the lines and the counters of `build_tree`. */
  class TreeBuilder {
    const policy: Policy
    var lines: seq<string>
    var nbDirs: nat
    var nbFiles: nat

    constructor (policy: Policy, rootName: string)
      ensures this.policy == policy
      ensures lines == [Root(rootName).Text()] && nbDirs == 0 && nbFiles == 0
    {
      this.policy := policy;
      lines := [rootName + "/"];
      nbDirs := 0;
      nbFiles := 0;
    }

    /** `_walk`: appends the lines of `d` and counts its entries. */
    method Walk(d: Node, dirRel: string, prefix: string)
      requires d.Dir?
      modifies this
      ensures lines == old(lines) + Texts(WalkLines(d, dirRel, prefix, policy))
      ensures nbDirs == old(nbDirs) + CountDirs(WalkLines(d, dirRel, prefix, policy))
      ensures nbFiles == old(nbFiles) + CountFiles(WalkLines(d, dirRel, prefix, policy))
      decreases d, 1, 0, 0
    {
      if d.denied {
        lines := lines + [Denied(prefix, d.name).Text()];
        return;
      }
      var entries := Visible(SortEntries(d.children), policy);
      var filtered := FilterEntries(entries, dirRel, policy);
      assert filtered == Listing(d, dirRel, policy);
      WalkChildren(d, filtered, dirRel, prefix);
    }

    /** The second loop of `_walk`, over the listed entries `es` of `d`. */
    method WalkChildren(d: Node, es: seq<Node>, dirRel: string, prefix: string)
      requires d.Dir?
      requires forall e :: e in es ==> e in d.children
      modifies this
      ensures lines == old(lines) + Texts(ChildLines(d, es, |es|, dirRel, prefix, policy))
      ensures nbDirs == old(nbDirs) + CountDirs(ChildLines(d, es, |es|, dirRel, prefix, policy))
      ensures nbFiles == old(nbFiles) + CountFiles(ChildLines(d, es, |es|, dirRel, prefix, policy))
      decreases d, 0, |es|, 2
    {
      var idx := 0;
      while idx < |es|
        invariant idx <= |es|
        invariant lines == old(lines) + Texts(ChildLines(d, es, idx, dirRel, prefix, policy))
        invariant nbDirs == old(nbDirs) + CountDirs(ChildLines(d, es, idx, dirRel, prefix, policy))
        invariant nbFiles == old(nbFiles) + CountFiles(ChildLines(d, es, idx, dirRel, prefix, policy))
      {
        ghost var before, dirsBefore, filesBefore := lines, nbDirs, nbFiles;
        WalkEntry(d, es, idx, dirRel, prefix);
        ChildLinesSnoc(d, es, idx, dirRel, prefix, policy, old(lines), before, lines);
        ChildCountsSnoc(d, es, idx, dirRel, prefix, policy, old(nbDirs), dirsBefore, nbDirs,
                        old(nbFiles), filesBefore, nbFiles);
        idx := idx + 1;
      }
    }

    /** One iteration of the second loop of `_walk`: the line of entry
        `es[i]`, its counter, and the walk of its subtree. */
    method WalkEntry(parent: Node, es: seq<Node>, i: nat, dirRel: string, prefix: string)
      requires parent.Dir? && i < |es|
      requires forall e :: e in es ==> e in parent.children
      modifies this
      ensures lines == old(lines) + Texts(EntryLines(parent, es, i, dirRel, prefix, policy))
      ensures nbDirs == old(nbDirs) + CountDirs(EntryLines(parent, es, i, dirRel, prefix, policy))
      ensures nbFiles == old(nbFiles) + CountFiles(EntryLines(parent, es, i, dirRel, prefix, policy))
      decreases parent, 0, i, 0
    {
      var e := es[i];
      assert e in parent.children;
      var last := i == |es| - 1;
      var connector := if last then LastConnector else MidConnector;
      var nextPrefix := if last then LastIndent else MidIndent;
      var rel := ChildRel(dirRel, e.name);
      EntryShape(parent, es, i, dirRel, prefix, policy);
      if e.Dir? {
        ghost var before := lines;
        lines := lines + [prefix + connector + e.name + "/"];
        nbDirs := nbDirs + 1;
        Walk(e, rel, prefix + nextPrefix);
        ConcatAssoc(before, [prefix + connector + e.name + "/"],
                    Texts(WalkLines(e, rel, prefix + nextPrefix, policy)));
      } else {
        lines := lines + [prefix + connector + e.name];
        nbFiles := nbFiles + 1;
      }
    }
  }

  /** `build_tree`: the tree text and the number of directory and file
      lines. `rootName` is the name of the resolved root directory. */
  method BuildTree(root: Node, rootName: string, p: Policy)
    returns (text: string, nbDirs: nat, nbFiles: nat)
    requires root.Dir?
    ensures text == JoinWith(Texts(TreeLines(root, rootName, p)), "\n")
    ensures nbDirs == CountDirs(TreeLines(root, rootName, p))
    ensures nbFiles == CountFiles(TreeLines(root, rootName, p))
  {
    var b := new TreeBuilder(p, rootName);
    b.Walk(root, "", "");
    TextsAppend([Root(rootName)], WalkLines(root, "", "", p));
    CountsAppend([Root(rootName)], WalkLines(root, "", "", p));
    text := JoinWith(b.lines, "\n");
    nbDirs := b.nbDirs;
    nbFiles := b.nbFiles;
  }
}
