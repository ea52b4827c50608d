/** File-name helpers with Python's `pathlib` meaning. */
module PathNames {
  import opened Common

  /** Index of the last occurrence of `c` in `s`, or -1 (Python's `rfind`). */
  function RFind(s: string, c: char): (r: int)
    ensures -1 <= r < |s|
    ensures r == -1 <==> c !in s
    ensures r >= 0 ==> s[r] == c && forall j :: r < j < |s| ==> s[j] != c
  {
    if s == [] then -1
    else if s[|s| - 1] == c then |s| - 1
    else RFind(s[..|s| - 1], c)
  }

  /** Python's `PurePath.suffix` of a file name: from the last dot, provided
      that dot is neither the first nor the last character. */
  function Suffix(name: string): (r: string)
    ensures r != [] ==> r[0] == '.' && 1 < |r| < |name|
    ensures r != [] ==> r == name[|name| - |r|..] && '.' !in r[1..]
  {
    var i := RFind(name, '.');
    if 0 < i < |name| - 1 then name[i..] else ""
  }

  /** Lower-casing a name does not move its dots. */
  lemma {:induction false} RFindLower(s: string)
    ensures RFind(Lower(s), '.') == RFind(s, '.')
  {
    if s != [] {
      var init := s[..|s| - 1];
      LowerAt(s);
      LowerSlice(s, 0, |s| - 1);
      assert Lower(s)[..|s| - 1] == Lower(init);
      RFindLower(init);
    }
  }

  lemma SuffixLower(name: string)
    ensures Suffix(Lower(name)) == Lower(Suffix(name))
  {
    RFindLower(name);
    var i := RFind(name, '.');
    if 0 < i < |name| - 1 {
      SuffixLowerAt(name, i);
    } else {
      assert Suffix(name) == "" && Suffix(Lower(name)) == "";
    }
  }

  lemma SuffixLowerAt(name: string, i: int)
    requires i == RFind(name, '.') == RFind(Lower(name), '.') && 0 < i < |name| - 1
    ensures Suffix(Lower(name)) == Lower(Suffix(name))
  {
    SuffixAt(name, i);
    SuffixAt(Lower(name), i);
    LowerSuffix(name, i);
  }

  /** Lower-casing commutes with dropping a prefix. */
  lemma {:induction false} LowerSuffix(s: string, i: nat)
    requires i <= |s|
    ensures Lower(s[i..]) == Lower(s)[i..]
    decreases i
  {
    if i == 0 {
      assert s[0..] == s && Lower(s)[0..] == Lower(s);
    } else {
      var t := s[1..];
      LowerSuffix(t, i - 1);
      assert t[i - 1..] == s[i..];
      assert Lower(s) == [LowerChar(s[0])] + Lower(t);
      assert Lower(s)[i..] == Lower(t)[i - 1..];
    }
  }


  lemma SuffixAt(name: string, i: int)
    requires i == RFind(name, '.') && 0 < i < |name| - 1
    ensures Suffix(name) == name[i..]
  {
  }

  /** A non-empty stem followed by a dot and a dot-free extension has that
      dotted extension as its suffix. */
  lemma SuffixOfStemExt(stem: string, ext: string)
    requires |stem| > 0 && |ext| > 1 && ext[0] == '.' && '.' !in ext[1..]
    ensures Suffix(stem + ext) == ext
  {
    var name := stem + ext;
    var r := RFind(name, '.');
    assert name[|stem|] == '.';
    assert forall j :: |stem| < j < |name| ==> name[j] == ext[1..][j - |stem| - 1];
    assert r == |stem|;
    assert name[|stem|..] == ext;
  }

  /** A name without any dot has no suffix. */
  lemma SuffixNoDot(name: string)
    requires '.' !in name
    ensures Suffix(name) == ""
  {
  }
}
