/** The order in which the tree lists the entries of a directory: Python's
    stable `sorted` with the key `(p.is_file(), p.name.lower())`, so that
    everything that is not a regular file comes before the regular files,
    and each group is in lower-cased name order. */
module TreeOrder {
  import opened Common
  import opened FileSystem

  /** `is_file()`: true only for regular files (links are followed). */
  predicate IsFileKey(e: Node)
  {
    e.File? && e.regular
  }

  /** Python's ordering of strings: lexicographic by character. */
  predicate StrLe(a: string, b: string)
    decreases |a|
  {
    a == [] || (b != [] && (a[0] < b[0] || (a[0] == b[0] && StrLe(a[1..], b[1..]))))
  }

  lemma {:induction false} StrLeRefl(a: string)
    ensures StrLe(a, a)
    decreases |a|
  {
    if a != [] { StrLeRefl(a[1..]); }
  }

  lemma {:induction false} StrLeTotal(a: string, b: string)
    ensures StrLe(a, b) || StrLe(b, a)
    decreases |a|
  {
    if a != [] && b != [] && a[0] == b[0] { StrLeTotal(a[1..], b[1..]); }
  }

  lemma {:induction false} StrLeTrans(a: string, b: string, c: string)
    requires StrLe(a, b) && StrLe(b, c)
    ensures StrLe(a, c)
    decreases |a|
  {
    if a != [] && a[0] == b[0] && b[0] == c[0] { StrLeTrans(a[1..], b[1..], c[1..]); }
  }

  lemma {:induction false} StrLeAntisym(a: string, b: string)
    requires StrLe(a, b) && StrLe(b, a)
    ensures a == b
    decreases |a|
  {
    if a != [] {
      StrLeAntisym(a[1..], b[1..]);
      assert a == [a[0]] + a[1..] && b == [b[0]] + b[1..];
    }
  }

  /** The sort key of an entry. */
  function Key(e: Node): (bool, string)
  {
    (IsFileKey(e), Lower(e.name))
  }

  /** `key(x) <= key(y)` for the tuple key (false sorts before true). */
  predicate KeyLe(x: Node, y: Node)
  {
    var kx, ky := Key(x), Key(y);
    (!kx.0 && ky.0) || (kx.0 == ky.0 && StrLe(kx.1, ky.1))
  }

  lemma KeyLeRefl(x: Node)
    ensures KeyLe(x, x)
  {
    StrLeRefl(Lower(x.name));
  }

  lemma KeyLeTotal(x: Node, y: Node)
    ensures KeyLe(x, y) || KeyLe(y, x)
  {
    StrLeTotal(Lower(x.name), Lower(y.name));
  }

  lemma KeyLeTrans(x: Node, y: Node, z: Node)
    requires KeyLe(x, y) && KeyLe(y, z)
    ensures KeyLe(x, z)
  {
    if Key(x).0 == Key(y).0 == Key(z).0 {
      StrLeTrans(Lower(x.name), Lower(y.name), Lower(z.name));
    }
  }

  lemma KeyLeAntisym(x: Node, y: Node)
    requires KeyLe(x, y) && KeyLe(y, x)
    ensures Key(x) == Key(y)
  {
    StrLeAntisym(Lower(x.name), Lower(y.name));
  }

  predicate SortedByKey(s: seq<Node>)
  {
    forall i, j :: 0 <= i < j < |s| ==> KeyLe(s[i], s[j])
  }

  /** Inserts `x` in front of the first entry whose key is not smaller. */
  function Insert(x: Node, s: seq<Node>): (r: seq<Node>)
    ensures |r| == |s| + 1
  {
    if s == [] then [x]
    else if KeyLe(x, s[0]) then [x] + s
    else [s[0]] + Insert(x, s[1..])
  }

  /** Stable insertion sort by `Key`. */
  function SortEntries(s: seq<Node>): (r: seq<Node>)
    ensures |r| == |s|
  {
    if s == [] then [] else Insert(s[0], SortEntries(s[1..]))
  }

  /** Inserting adds `x` and keeps every entry. */
  lemma {:induction false} InsertPermutes(x: Node, s: seq<Node>)
    ensures multiset(Insert(x, s)) == multiset(s) + multiset{x}
  {
    if s != [] && !KeyLe(x, s[0]) {
      InsertPermutes(x, s[1..]);
      assert s == [s[0]] + s[1..];
    }
  }

  /** Sorting is a permutation. */
  lemma {:induction false} SortEntriesPermutes(s: seq<Node>)
    ensures multiset(SortEntries(s)) == multiset(s)
  {
    if s != [] {
      SortEntriesPermutes(s[1..]);
      InsertPermutes(s[0], SortEntries(s[1..]));
      assert s == [s[0]] + s[1..];
    }
  }

  /** Sorting keeps exactly the entries it was given. */
  lemma SortEntriesMembers(s: seq<Node>)
    ensures forall e :: e in SortEntries(s) <==> e in s
  {
    var r := SortEntries(s);
    SortEntriesPermutes(s);
    forall e ensures e in r <==> e in s {
      assert e in r <==> e in multiset(r);
      assert e in s <==> e in multiset(s);
    }
  }

  lemma SortedCons(x: Node, t: seq<Node>)
    requires SortedByKey(t)
    requires forall y :: y in t ==> KeyLe(x, y)
    ensures SortedByKey([x] + t)
  {
    var r := [x] + t;
    forall i, j | 0 <= i < j < |r| ensures KeyLe(r[i], r[j]) {
      assert r[j] == t[j - 1];
      if i > 0 { assert r[i] == t[i - 1]; }
    }
  }

  /** The tail of a sorted listing is sorted and its head is the least. */
  lemma SortedTail(s: seq<Node>)
    requires s != [] && SortedByKey(s)
    ensures SortedByKey(s[1..])
    ensures forall y :: y in s ==> KeyLe(s[0], y)
  {
    forall i, j | 0 <= i < j < |s[1..]| ensures KeyLe(s[1..][i], s[1..][j]) {
      assert s[1..][i] == s[i + 1] && s[1..][j] == s[j + 1];
    }
    forall y | y in s ensures KeyLe(s[0], y) {
      var j :| 0 <= j < |s| && s[j] == y;
      if j == 0 { KeyLeRefl(y); }
    }
  }

  lemma InsertMember(x: Node, s: seq<Node>, y: Node)
    requires y in Insert(x, s)
    ensures y == x || y in s
  {
    InsertPermutes(x, s);
    assert y in multiset(Insert(x, s));
  }

  lemma {:induction false} InsertSorted(x: Node, s: seq<Node>)
    requires SortedByKey(s)
    ensures SortedByKey(Insert(x, s))
  {
    if s != [] {
      SortedTail(s);
      if KeyLe(x, s[0]) {
        forall y | y in s ensures KeyLe(x, y) { KeyLeTrans(x, s[0], y); }
        SortedCons(x, s);
      } else {
        KeyLeTotal(x, s[0]);
        InsertSorted(x, s[1..]);
        var t := Insert(x, s[1..]);
        forall y | y in t ensures KeyLe(s[0], y) {
          InsertMember(x, s[1..], y);
        }
        SortedCons(s[0], t);
      }
    }
  }

  lemma {:induction false} SortEntriesSorted(s: seq<Node>)
    ensures SortedByKey(SortEntries(s))
  {
    if s != [] {
      SortEntriesSorted(s[1..]);
      InsertSorted(s[0], SortEntries(s[1..]));
    }
  }

  /** The entries of `s` whose key is `k`, in order. */
  function WithKey(s: seq<Node>, k: (bool, string)): (r: seq<Node>)
  {
    if s == [] then []
    else (if Key(s[0]) == k then [s[0]] else []) + WithKey(s[1..], k)
  }

  lemma WithKeyCons(x: Node, s: seq<Node>, k: (bool, string))
    ensures WithKey([x] + s, k) == (if Key(x) == k then [x] else []) + WithKey(s, k)
  {
    assert ([x] + s)[0] == x && ([x] + s)[1..] == s;
  }

  /** Selecting by key commutes an entry past one of a different key. */
  lemma WithKeySwap(x: Node, y: Node, w: seq<Node>, k: (bool, string))
    requires Key(x) != Key(y)
    ensures (if Key(y) == k then [y] else []) + ((if Key(x) == k then [x] else []) + w)
         == (if Key(x) == k then [x] else []) + ((if Key(y) == k then [y] else []) + w)
  {
  }

  /** Putting an entry of another key in front of both sides keeps the
      selection equation. */
  lemma WithKeyFront(x: Node, h: Node, rest: seq<Node>, t: seq<Node>, k: (bool, string))
    requires Key(h) != Key(x)
    requires WithKey(t, k) == (if Key(x) == k then [x] else []) + WithKey(rest, k)
    ensures WithKey([h] + t, k) == (if Key(x) == k then [x] else []) + WithKey([h] + rest, k)
  {
    WithKeyCons(h, t, k);
    WithKeyCons(h, rest, k);
    WithKeySwap(x, h, WithKey(rest, k), k);
  }

  lemma {:induction false} InsertWithKey(x: Node, s: seq<Node>, k: (bool, string))
    ensures WithKey(Insert(x, s), k) == (if Key(x) == k then [x] else []) + WithKey(s, k)
  {
    if s == [] {
      WithKeyCons(x, [], k);
    } else if KeyLe(x, s[0]) {
      WithKeyCons(x, s, k);
    } else {
      assert Key(s[0]) != Key(x) by {
        KeyLeRefl(x);
      }
      InsertWithKey(x, s[1..], k);
      WithKeyFront(x, s[0], s[1..], Insert(x, s[1..]), k);
      assert [s[0]] + s[1..] == s;
    }
  }

  /** Stability: entries with equal keys keep their listing order. */
  lemma {:induction false} SortEntriesStable(s: seq<Node>, k: (bool, string))
    ensures WithKey(SortEntries(s), k) == WithKey(s, k)
  {
    if s != [] {
      SortEntriesStable(s[1..], k);
      InsertWithKey(s[0], SortEntries(s[1..]), k);
    }
  }

  /** The listing order: entries that are not regular files first, then by
      lower-cased name, ties in listing order; nothing added or lost. */
  lemma SortEntriesCorrect(s: seq<Node>)
    ensures multiset(SortEntries(s)) == multiset(s)
    ensures SortedByKey(SortEntries(s))
    ensures forall i, j :: 0 <= i < j < |SortEntries(s)| && !IsFileKey(SortEntries(s)[j])
              ==> !IsFileKey(SortEntries(s)[i])
    ensures forall k :: WithKey(SortEntries(s), k) == WithKey(s, k)
  {
    SortEntriesPermutes(s);
    SortEntriesSorted(s);
    forall k ensures WithKey(SortEntries(s), k) == WithKey(s, k) {
      SortEntriesStable(s, k);
    }
  }
}
