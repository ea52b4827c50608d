/** End-of-line handling. The source splits text with the regular
    expression `\r\n|\n\r|\r|\n` (leftmost match, alternatives tried in that
    order) and re-joins the pieces with one chosen line break. The same
    split-and-join gives the canonical text of a file section (with "\n")
    and the final document (with the chosen mode). */
module Eol {
  import opened Common

  predicate IsEolChar(c: char)
  {
    c == '\r' || c == '\n'
  }

  predicate NoEol(s: string)
  {
    forall i :: 0 <= i < |s| ==> !IsEolChar(s[i])
  }

  /** Length of the regular-expression match at the start of `t`: 2 for
      "\r\n" or "\n\r", 1 for a lone "\r" or "\n", 0 when `t` does not start
      with a line break. */
  function BreakLen(t: string): (n: nat)
    ensures n <= 2 && n <= |t|
    ensures n > 0 <==> |t| > 0 && IsEolChar(t[0])
    ensures n == 2 <==> |t| >= 2 && IsEolChar(t[0]) && IsEolChar(t[1]) && t[0] != t[1]
  {
    if |t| >= 2 && ((t[0] == '\r' && t[1] == '\n') || (t[0] == '\n' && t[1] == '\r')) then 2
    else if |t| >= 1 && IsEolChar(t[0]) then 1
    else 0
  }

  /** `re.split(r"\r\n|\n\r|\r|\n", t)`. */
  function SplitLines(t: string): (r: seq<string>)
    ensures |r| >= 1
    ensures forall i :: 0 <= i < |r| ==> NoEol(r[i])
    decreases |t|
  {
    if t == [] then [""]
    else if BreakLen(t) > 0 then [""] + SplitLines(t[BreakLen(t)..])
    else
      var rest := SplitLines(t[1..]);
      [[t[0]] + rest[0]] + rest[1..]
  }

  /** Split on every line break, then join with `eol`. */
  function Rejoin(t: string, eol: string): string
  {
    JoinWith(SplitLines(t), eol)
  }

  /** The canonical text of a file section: every line break becomes "\n". */
  function Canonical(t: string): string
  {
    Rejoin(t, "\n")
  }

  /** The output line-ending modes; `Platform` means CRLF on Windows. */
  datatype EolMode = Lf | Crlf | Platform

  function EolFor(mode: EolMode, onWindows: bool): (eol: string)
    ensures eol == "\n" || eol == "\r\n"
    ensures mode == Lf ==> eol == "\n"
    ensures mode == Crlf ==> eol == "\r\n"
  {
    match mode
    case Lf => "\n"
    case Crlf => "\r\n"
    case Platform => if onWindows then "\r\n" else "\n"
  }

  /** `_normalize_eol`. */
  function NormalizeEol(text: string, mode: EolMode, onWindows: bool): string
  {
    Rejoin(text, EolFor(mode, onWindows))
  }

  /** One step of the split-and-join, read from the front of the text. */
  lemma RejoinUnfold(t: string, eol: string)
    ensures t == [] ==> Rejoin(t, eol) == ""
    ensures t != [] && BreakLen(t) > 0 ==> Rejoin(t, eol) == eol + Rejoin(t[BreakLen(t)..], eol)
    ensures t != [] && BreakLen(t) == 0 ==> Rejoin(t, eol) == [t[0]] + Rejoin(t[1..], eol)
  {
    if t != [] {
      if BreakLen(t) > 0 {
        JoinWithCons("", SplitLines(t[BreakLen(t)..]), eol);
      } else {
        var rest := SplitLines(t[1..]);
        if |rest| == 1 {
          assert SplitLines(t) == [[t[0]] + rest[0]];
        } else {
          JoinWithCons([t[0]] + rest[0], rest[1..], eol);
          JoinWithCons(rest[0], rest[1..], eol);
          assert [rest[0]] + rest[1..] == rest;
        }
      }
    }
  }

  /** The canonical text contains no carriage return. */
  lemma {:induction false} CanonicalHasNoCr(t: string)
    ensures '\r' !in Canonical(t)
    decreases |t|
  {
    RejoinUnfold(t, "\n");
    if t != [] {
      if BreakLen(t) > 0 {
        CanonicalHasNoCr(t[BreakLen(t)..]);
      } else {
        CanonicalHasNoCr(t[1..]);
      }
    }
  }

  /** Text without a carriage return is already canonical. */
  lemma {:induction false} CanonicalKeepsLfText(t: string)
    requires '\r' !in t
    ensures Canonical(t) == t
    decreases |t|
  {
    if t == [] {
      RejoinUnfold(t, "\n");
    } else {
      NoCrTail(t);
      CanonicalKeepsLfText(t[1..]);
      CanonicalStep(t);
    }
  }

  /** The tail of a text without a carriage return has none either. */
  lemma NoCrTail(t: string)
    requires t != [] && '\r' !in t
    ensures '\r' !in t[1..]
  {
    forall k | 0 <= k < |t[1..]| ensures t[1..][k] != '\r' {
      assert t[1..][k] == t[k + 1];
    }
  }

  lemma CanonicalStep(t: string)
    requires t != [] && '\r' !in t && Canonical(t[1..]) == t[1..]
    ensures Canonical(t) == t
  {
    RejoinUnfold(t, "\n");
    assert |t| >= 2 ==> t[1] != '\r' by {
      if |t| >= 2 {
        assert t[1] in t;
      }
    }
    assert t == [t[0]] + t[1..];
  }

  /** The text with every line-break character removed. */
  function Strip(s: string): (r: string)
    ensures NoEol(r)
  {
    if s == [] then []
    else if IsEolChar(s[0]) then Strip(s[1..])
    else [s[0]] + Strip(s[1..])
  }

  lemma {:induction false} StripAppend(a: string, b: string)
    ensures Strip(a + b) == Strip(a) + Strip(b)
  {
    if a == [] {
      assert a + b == b;
    } else {
      assert (a + b)[0] == a[0] && (a + b)[1..] == a[1..] + b;
      StripAppend(a[1..], b);
    }
  }

  lemma StripBreak(t: string)
    requires BreakLen(t) > 0
    ensures Strip(t) == Strip(t[BreakLen(t)..])
  {
    if BreakLen(t) == 2 {
      assert Strip(t) == Strip(t[1..]);
      assert t[1..][1..] == t[2..];
    }
  }

  /** Split-and-join changes only line breaks: every other character is
      kept, in order. */
  lemma {:induction false} RejoinKeepsContent(t: string, eol: string)
    requires Strip(eol) == []
    ensures Strip(Rejoin(t, eol)) == Strip(t)
    decreases |t|
  {
    RejoinUnfold(t, eol);
    if t != [] {
      if BreakLen(t) > 0 {
        RejoinKeepsContent(t[BreakLen(t)..], eol);
        StripAppend(eol, Rejoin(t[BreakLen(t)..], eol));
        StripBreak(t);
      } else {
        RejoinKeepsContent(t[1..], eol);
        StripAppend([t[0]], Rejoin(t[1..], eol));
        assert Strip(t) == [t[0]] + Strip(t[1..]);
      }
    }
  }

  /** A line without breaks glues onto the first piece of what follows. */
  lemma {:induction false} SplitPrefix(l: string, x: string)
    requires NoEol(l)
    ensures SplitLines(l + x) == [l + SplitLines(x)[0]] + SplitLines(x)[1..]
    decreases |l|
  {
    if l != [] {
      var t := l + x;
      assert t[0] == l[0] && t[1..] == l[1..] + x;
      assert BreakLen(t) == 0;
      SplitPrefix(l[1..], x);
      assert [l[0]] + (l[1..] + SplitLines(x)[0]) == l + SplitLines(x)[0];
    } else {
      var r := SplitLines(x);
      assert l + x == x && l + r[0] == r[0];
      assert [r[0]] + r[1..] == r;
    }
  }

  /** A joined text of break-free lines never starts with a carriage
      return when the separator is "\n". */
  lemma JoinLfStart(lines: seq<string>)
    requires |lines| >= 1 && forall i :: 0 <= i < |lines| ==> NoEol(lines[i])
    ensures var j := JoinWith(lines, "\n"); j == [] || j[0] != '\r'
  {
    if |lines| > 1 {
      var j := JoinWith(lines, "\n");
      assert j == lines[0] + "\n" + JoinWith(lines[1..], "\n");
      if lines[0] != [] {
        assert j[0] == lines[0][0];
      } else {
        assert j[0] == '\n';
      }
    }
  }

  /** Splitting a join of break-free lines gives the lines back, for both
      separators the output modes use. */
  lemma {:induction false} SplitJoin(lines: seq<string>, eol: string)
    requires eol == "\n" || eol == "\r\n"
    requires |lines| >= 1 && forall i :: 0 <= i < |lines| ==> NoEol(lines[i])
    ensures SplitLines(JoinWith(lines, eol)) == lines
    decreases |lines|
  {
    if |lines| == 1 {
      assert lines[0] + [] == lines[0];
      SplitPrefix(lines[0], []);
    } else {
      var rest := lines[1..];
      SplitJoin(rest, eol);
      SplitJoinCons(lines[0], rest, eol);
      assert [lines[0]] + rest == lines;
    }
  }

  /** One more line in front of a join that splits back. */
  lemma SplitJoinCons(first: string, rest: seq<string>, eol: string)
    requires eol == "\n" || eol == "\r\n"
    requires NoEol(first) && |rest| >= 1 && forall i :: 0 <= i < |rest| ==> NoEol(rest[i])
    requires SplitLines(JoinWith(rest, eol)) == rest
    ensures SplitLines(JoinWith([first] + rest, eol)) == [first] + rest
  {
    var j := JoinWith(rest, eol);
    JoinWithCons(first, rest, eol);
    JoinAfterBreak(rest, eol);
    StringAssoc3(first, eol, j);
    LineThenBreak(first, eol + j, rest);
  }

  /** A separator in front of a join splits off one empty line. */
  lemma JoinAfterBreak(rest: seq<string>, eol: string)
    requires eol == "\n" || eol == "\r\n"
    requires |rest| >= 1 && forall i :: 0 <= i < |rest| ==> NoEol(rest[i])
    requires SplitLines(JoinWith(rest, eol)) == rest
    ensures SplitLines(eol + JoinWith(rest, eol)) == [""] + rest
  {
    if eol == "\n" {
      JoinLfStart(rest);
    }
    SplitAfterBreak(eol, JoinWith(rest, eol));
  }

  /** Normalising twice in the same mode is normalising once. */
  lemma NormalizeIdempotent(text: string, mode: EolMode, onWindows: bool)
    ensures NormalizeEol(NormalizeEol(text, mode, onWindows), mode, onWindows)
         == NormalizeEol(text, mode, onWindows)
  {
    SplitJoin(SplitLines(text), EolFor(mode, onWindows));
  }

  /** Blank lines are kept: there is one more line than there are line
      breaks. */
  function BreakCount(t: string): nat
    decreases |t|
  {
    if t == [] then 0
    else if BreakLen(t) > 0 then 1 + BreakCount(t[BreakLen(t)..])
    else BreakCount(t[1..])
  }

  lemma {:induction false} LineCount(t: string)
    ensures |SplitLines(t)| == BreakCount(t) + 1
    decreases |t|
  {
    if t != [] {
      if BreakLen(t) > 0 {
        LineCount(t[BreakLen(t)..]);
      } else {
        LineCount(t[1..]);
      }
    }
  }

  /** Each of the four break spellings separates exactly two lines:
      "\n\r" counts once, like "\r\n". */
  lemma OneBreakTwoLines(a: string, e: string, b: string)
    requires NoEol(a) && NoEol(b)
    requires e == "\r\n" || e == "\n\r" || e == "\r" || e == "\n"
    ensures SplitLines(a + e + b) == [a, b]
  {
    SplitPrefix(b, "");
    assert b + "" == b;
    SplitAfterBreak(e, b);
    StringAssoc3(a, e, b);
    SplitPrefix(a, e + b);
    assert a + "" == a;
  }

  /** Two equal one-character breaks in a row leave a blank line, which is
      kept. */
  lemma DoubleBreakKeepsBlankLine(a: string, e: string, b: string)
    requires NoEol(a) && NoEol(b)
    requires e == "\r" || e == "\n"
    ensures SplitLines(a + e + e + b) == [a, "", b]
  {
    BreaksThenLine(e, b);
    LineThenBreak(a, e + (e + b), ["", b]);
    StringAssoc4(a, e, e, b);
  }

  /** Solver aid with no counterpart in the program: string concatenation
      is associative. */
  lemma StringAssoc3(a: string, b: string, c: string)
    ensures a + b + c == a + (b + c)
  {
  }

  /** Solver aid with no counterpart in the program, as `StringAssoc3`. */
  lemma StringAssoc4(a: string, b: string, c: string, d: string)
    ensures a + b + c + d == a + (b + (c + d))
  {
  }

  /** A break-free line in front of a text that starts with a break is the
      first line. */
  lemma LineThenBreak(a: string, x: string, tail: seq<string>)
    requires NoEol(a) && SplitLines(x) == [""] + tail
    ensures SplitLines(a + x) == [a] + tail
  {
    SplitPrefix(a, x);
    assert a + "" == a;
  }

  lemma BreaksThenLine(e: string, b: string)
    requires NoEol(b)
    requires e == "\r" || e == "\n"
    ensures SplitLines(e + (e + b)) == ["", "", b]
  {
    SplitPrefix(b, "");
    assert b + "" == b;
    SplitAfterBreak(e, b);
    SplitAfterBreak(e, e + b);
  }

  /** A text that starts with a whole break match begins with an empty
      line. */
  lemma SplitAfterBreak(e: string, x: string)
    requires e == "\r\n" || e == "\n\r" || ((e == "\r" || e == "\n") && (x == [] || !IsEolChar(x[0]) || x[0] == e[0]))
    ensures SplitLines(e + x) == [""] + SplitLines(x)
  {
    var t := e + x;
    assert t[0] == e[0];
    assert |e| == 2 ==> t[1] == e[1];
    assert |e| == 1 && x != [] ==> t[1] == x[0];
    assert BreakLen(t) == |e|;
    assert t[|e|..] == x;
  }

  /** Every line break is exactly "\r\n": a carriage return is always
      followed by a line feed and a line feed always follows one. */
  predicate CrlfOnly(s: string)
    decreases |s|
  {
    s == []
    || (!IsEolChar(s[0]) && CrlfOnly(s[1..]))
    || (|s| >= 2 && s[0] == '\r' && s[1] == '\n' && CrlfOnly(s[2..]))
  }

  lemma {:induction false} CrlfModeBreaks(t: string)
    ensures CrlfOnly(Rejoin(t, "\r\n"))
    decreases |t|
  {
    RejoinUnfold(t, "\r\n");
    if t != [] {
      if BreakLen(t) > 0 {
        CrlfModeBreaks(t[BreakLen(t)..]);
        var r := Rejoin(t, "\r\n");
        assert r[2..] == Rejoin(t[BreakLen(t)..], "\r\n");
      } else {
        CrlfModeBreaks(t[1..]);
        var r := Rejoin(t, "\r\n");
        assert r[1..] == Rejoin(t[1..], "\r\n");
      }
    }
  }

  /** In "lf" mode the output has no carriage return; in "crlf" mode every
      break is "\r\n". */
  lemma NormalizeModes(text: string, onWindows: bool)
    ensures '\r' !in NormalizeEol(text, Lf, onWindows)
    ensures CrlfOnly(NormalizeEol(text, Crlf, onWindows))
  {
    CanonicalHasNoCr(text);
    CrlfModeBreaks(text);
  }

  /** The clipboard copy in `main`: when requested and available, the
      CRLF-normalised document is copied if and only if it fits the cap.
      What is copied has only "\r\n" breaks and otherwise the document's
      characters, in order. */
  function ClipboardCopy(toClipboard: bool, clipboardAvailable: bool,
                         text: string, clipboardMaxChars: int): (r: Option<string>)
    ensures r.Some? <==> toClipboard && clipboardAvailable
                         && |NormalizeEol(text, Crlf, false)| <= clipboardMaxChars
    ensures r.Some? ==> r.value == NormalizeEol(text, Crlf, false) && |r.value| <= clipboardMaxChars
    ensures r.Some? ==> CrlfOnly(r.value) && Strip(r.value) == Strip(text)
  {
    if toClipboard && clipboardAvailable then
      var clip := NormalizeEol(text, Crlf, false);
      CrlfModeBreaks(text);
      RejoinKeepsContent(text, "\r\n");
      if |clip| <= clipboardMaxChars then Some(clip) else None
    else None
  }
}
