/** The code fence of a file section: a run of backticks one longer than the
    longest run inside the file's text, and never shorter than three, so
    that nothing in the section body can close the block early. */
module Fence {
  import opened Common
  import opened Eol

  const Tick := '`'

  /** `"`" * n`. */
  function Backticks(n: nat): (r: string)
    ensures |r| == n && forall i :: 0 <= i < n ==> r[i] == Tick
  {
    seq(n, _ => Tick)
  }

  /** Length of the run of backticks that ends `s`. */
  function TrailingRun(s: string): (n: nat)
    ensures n <= |s|
    ensures forall i :: |s| - n <= i < |s| ==> s[i] == Tick
    ensures n < |s| ==> s[|s| - 1 - n] != Tick
  {
    if s == [] || s[|s| - 1] != Tick then 0 else TrailingRun(s[..|s| - 1]) + 1
  }

  /** Length of the longest run of backticks in `s`. */
  function LongestRun(s: string): (n: nat)
    ensures TrailingRun(s) <= n <= |s|
  {
    if s == [] then 0
    else
      var prev := LongestRun(s[..|s| - 1]);
      if TrailingRun(s) > prev then TrailingRun(s) else prev
  }

  /** `s[i..i + n]` is made of backticks only. */
  predicate RunAt(s: string, i: nat, n: nat)
  {
    i + n <= |s| && forall k :: i <= k < i + n ==> s[k] == Tick
  }

  /** The fence for a text: `max(3, longest run + 1)` backticks. */
  function FenceFor(text: string): (f: string)
    ensures |f| >= 3 && f == Backticks(|f|)
  {
    var n := LongestRun(text) + 1;
    Backticks(if n < 3 then 3 else n)
  }

  /** `_pick_fence_for`: one pass over the text keeping the current run and
      the longest run seen. */
  method PickFenceFor(text: string) returns (fence: string)
    ensures fence == FenceFor(text)
  {
    var maxRun := 0;
    var run := 0;
    var i := 0;
    while i < |text|
      invariant i <= |text|
      invariant run == TrailingRun(text[..i]) && maxRun == LongestRun(text[..i])
    {
      RunStep(text, i);
      if text[i] == Tick {
        run := run + 1;
        if run > maxRun {
          maxRun := run;
        }
      } else {
        run := 0;
      }
      i := i + 1;
    }
    assert text[..i] == text;
    var fenceLen := if 3 < maxRun + 1 then maxRun + 1 else 3;
    fence := Backticks(fenceLen);
  }

  /** One more character: the trailing run grows on a backtick and restarts
      otherwise, and the longest run keeps up with it. */
  lemma RunStep(s: string, i: nat)
    requires i < |s|
    ensures TrailingRun(s[..i + 1]) == (if s[i] == Tick then TrailingRun(s[..i]) + 1 else 0)
    ensures LongestRun(s[..i + 1]) == (if TrailingRun(s[..i + 1]) > LongestRun(s[..i]) then TrailingRun(s[..i + 1])
                                       else LongestRun(s[..i]))
  {
    assert s[..i + 1][..i] == s[..i];
  }

  /** A run ending at position `j` is no longer than the trailing run of
      `s[..j]`. */
  lemma {:induction false} RunEndingAt(s: string, i: nat, n: nat)
    requires RunAt(s, i, n)
    ensures n <= TrailingRun(s[..i + n])
    decreases n
  {
    if n > 0 {
      var t := s[..i + n];
      assert t[..|t| - 1] == s[..i + n - 1];
      assert t[|t| - 1] == s[i + n - 1] == Tick;
      RunEndingAt(s, i, n - 1);
    }
  }

  /** The longest run of a prefix is at most that of the whole string. */
  lemma {:induction false} LongestRunPrefix(s: string, j: nat)
    requires j <= |s|
    ensures LongestRun(s[..j]) <= LongestRun(s)
    decreases |s| - j
  {
    if j < |s| {
      LongestRunPrefix(s, j + 1);
      assert s[..j + 1][..j] == s[..j];
    } else {
      assert s[..j] == s;
    }
  }

  /** Every run of backticks in `s` is at most `LongestRun(s)` long. */
  lemma RunBounded(s: string, i: nat, n: nat)
    requires RunAt(s, i, n)
    ensures n <= LongestRun(s)
  {
    RunEndingAt(s, i, n);
    LongestRunPrefix(s, i + n);
  }

  /** The longest run is achieved: some run has exactly that length. */
  lemma {:induction false} LongestRunAchieved(s: string)
    ensures exists i: nat :: RunAt(s, i, LongestRun(s))
  {
    if s == [] {
      var z: nat := 0;
      assert RunAt(s, z, LongestRun(s));
    } else {
      var init := s[..|s| - 1];
      LongestRunAchieved(init);
      var prev := LongestRun(init);
      if TrailingRun(s) > prev {
        var j: nat := |s| - TrailingRun(s);
        assert RunAt(s, j, LongestRun(s));
      } else {
        var i: nat :| RunAt(init, i, prev);
        assert RunAt(s, i, LongestRun(s));
      }
    }
  }

  /** The fence is strictly longer than every run of backticks in the text,
      and as short as that allows: three, or one more than the longest run. */
  lemma FenceIsSafe(text: string)
    ensures forall i: nat, n: nat :: RunAt(text, i, n) ==> n < |FenceFor(text)|
    ensures exists i: nat :: RunAt(text, i, LongestRun(text))
    ensures |FenceFor(text)| == (if LongestRun(text) < 2 then 3 else LongestRun(text) + 1)
  {
    forall i: nat, n: nat | RunAt(text, i, n) ensures n < |FenceFor(text)| {
      RunBounded(text, i, n);
    }
    LongestRunAchieved(text);
  }

  /** A run never crosses a line feed. */
  lemma {:induction false} TrailingRunAfterLf(a: string, b: string)
    ensures TrailingRun(a + "\n" + b) == TrailingRun(b)
    decreases |b|
  {
    if b == [] {
      assert a + "\n" + b == a + "\n";
    } else {
      var b' := b[..|b| - 1];
      assert (a + "\n" + b)[..|a + "\n" + b| - 1] == a + "\n" + b';
      TrailingRunAfterLf(a, b');
    }
  }

  lemma {:induction false} LongestRunJoinLf(a: string, b: string)
    ensures LongestRun(a + "\n" + b) == (if LongestRun(a) > LongestRun(b) then LongestRun(a) else LongestRun(b))
    decreases |b|
  {
    var s := a + "\n" + b;
    if b == [] {
      assert s[..|s| - 1] == a;
      assert TrailingRun(s) == 0;
    } else {
      var b' := b[..|b| - 1];
      assert s[..|s| - 1] == a + "\n" + b';
      LongestRunJoinLf(a, b');
      TrailingRunAfterLf(a, b);
      LongestRunStep(s);
      LongestRunStep(b);
    }
  }

  lemma LongestRunStep(s: string)
    requires s != []
    ensures LongestRun(s) == (if TrailingRun(s) > LongestRun(s[..|s| - 1]) then TrailingRun(s)
                              else LongestRun(s[..|s| - 1]))
  {
  }

  /** The longest run of a suffix is at most that of the whole string. */
  lemma {:induction false} LongestRunSuffix(a: string, b: string)
    ensures LongestRun(b) <= LongestRun(a + b)
    decreases |b|
  {
    if b != [] {
      var b' := b[..|b| - 1];
      assert (a + b)[..|a + b| - 1] == a + b';
      LongestRunSuffix(a, b');
      TrailingRunSuffix(a, b);
    }
  }

  lemma {:induction false} TrailingRunSuffix(a: string, b: string)
    ensures TrailingRun(b) <= TrailingRun(a + b)
    decreases |b|
  {
    if b != [] && b[|b| - 1] == Tick {
      var b' := b[..|b| - 1];
      assert (a + b)[..|a + b| - 1] == a + b';
      TrailingRunSuffix(a, b');
    }
  }

  lemma {:induction false} SplitLinesRuns(t: string)
    ensures SplitLines(t)[0] <= t
    ensures forall l :: l in SplitLines(t) ==> LongestRun(l) <= LongestRun(t)
    decreases |t|
  {
    if t == [] {
    } else if BreakLen(t) > 0 {
      var k := BreakLen(t);
      SplitLinesRuns(t[k..]);
      assert t == t[..k] + t[k..];
      LongestRunSuffix(t[..k], t[k..]);
    } else {
      var rest := SplitLines(t[1..]);
      SplitLinesRuns(t[1..]);
      var first := [t[0]] + rest[0];
      assert first == t[..|first|];
      LongestRunPrefix(t, |first|);
      assert t == [t[0]] + t[1..];
      LongestRunSuffix([t[0]], t[1..]);
      forall l | l in SplitLines(t) ensures LongestRun(l) <= LongestRun(t) {
        if l != first {
          assert l in rest;
        }
      }
    }
  }

  lemma {:induction false} JoinLfRuns(lines: seq<string>, m: nat)
    requires forall l :: l in lines ==> LongestRun(l) <= m
    ensures LongestRun(JoinWith(lines, "\n")) <= m
  {
    if |lines| > 1 {
      JoinWithCons(lines[0], lines[1..], "\n");
      assert [lines[0]] + lines[1..] == lines;
      JoinLfRuns(lines[1..], m);
      LongestRunJoinLf(lines[0], JoinWith(lines[1..], "\n"));
    }
  }

  /** Canonicalising line breaks creates no longer run of backticks. */
  lemma CanonicalRuns(t: string)
    ensures LongestRun(Canonical(t)) <= LongestRun(t)
  {
    SplitLinesRuns(t);
    JoinLfRuns(SplitLines(t), LongestRun(t));
  }

  /** `s.rstrip("\n")`. */
  function RStripNewlines(s: string): (r: string)
    ensures r <= s && (r == [] || r[|r| - 1] != '\n')
    ensures forall i :: |r| <= i < |s| ==> s[i] == '\n'
  {
    if s != [] && s[|s| - 1] == '\n' then RStripNewlines(s[..|s| - 1]) else s
  }

  /** The body of a section (canonical text without its trailing line
      feeds) holds no run of backticks as long as the section's fence, so
      the fence cannot be closed from inside. */
  lemma BodyCannotCloseFence(text: string)
    ensures forall i: nat :: !RunAt(RStripNewlines(Canonical(text)), i, |FenceFor(text)|)
  {
    var c := Canonical(text);
    var body := RStripNewlines(c);
    CanonicalRuns(text);
    assert body == c[..|body|];
    LongestRunPrefix(c, |body|);
    forall i: nat | RunAt(body, i, |FenceFor(text)|) ensures false {
      RunBounded(body, i, |FenceFor(text)|);
    }
  }
}
