/** What the document promises: the header comes first and is never
    rewritten, the footer counts the sections written, the recorded length
    is the length of the output before the notice, the loop stops only past
    a non-zero limit and then right after the file that crossed it, and
    without a limit every readable file gets a section. */
module DumpFacts {
  import opened Common
  import opened FileSystem
  import opened Utils
  import opened Eol
  import opened Collect
  import opened Fence
  import opened Reader
  import opened Dump

  /** The number of sections present (of files that read as text). */
  function Written(ss: seq<Option<string>>): (n: nat)
    ensures n <= |ss|
  {
    if ss == [] then 0 else (if ss[0].Some? then 1 else 0) + Written(ss[1..])
  }

  /** The sections present in `ss`, in order, one after the other. */
  function Present(ss: seq<Option<string>>): string
    decreases |ss|
  {
    if ss == [] then "" else (if ss[0].Some? then ss[0].value else "") + Present(ss[1..])
  }

  /** Dropping the first slot of a prefix of `ss` gives the matching prefix
      of `ss[1..]`. */
  lemma PrefixTail(ss: seq<Option<string>>, k: nat)
    requires k < |ss|
    ensures ss[..k + 1] != [] && ss[..k + 1][0] == ss[0] && ss[..k + 1][1..] == ss[1..][..k]
  {
  }

  /** Run to the end, the loop writes every present section in order after
      the output it started from, counts them, and records the length after
      the last one (or keeps the recorded length when there is none). */
  lemma {:induction false} EmitRunsOut(ss: seq<Option<string>>, max: int, out: string,
                                       count: nat, total: nat)
    ensures var r := Emit(ss, max, out, count, total);
      !r.truncated ==> (r.out == out + Present(ss) && r.count == count + Written(ss)
                        && r.total == (if Written(ss) == 0 then total else |out + Present(ss)|))
    decreases |ss|
  {
    if ss != [] {
      if ss[0].None? {
        EmitRunsOut(ss[1..], max, out, count, total);
      } else {
        var out' := out + ss[0].value;
        if !(max != 0 && |out'| > max) {
          EmitRunsOut(ss[1..], max, out', count + 1, |out'|);
          StringAssoc3(out, ss[0].value, Present(ss[1..]));
          if Written(ss[1..]) == 0 {
            NothingPresent(ss[1..]);
          }
        }
      }
    }
  }

  /** `ss[k]` is the first present section that pushes the output started
      from `out` past a non-zero limit: after it the output is longer than
      `max`, and after every earlier present section it was not. */
  predicate StopsAt(ss: seq<Option<string>>, k: int, max: int, out: string)
  {
    0 <= k < |ss| && ss[k].Some? && max != 0 && |out + Present(ss[..k + 1])| > max
    && forall j :: 0 <= j < k && ss[j].Some? ==> |out + Present(ss[..j + 1])| <= max
  }

  /** There is at most one first crossing. */
  lemma StopsAtUnique(ss: seq<Option<string>>, k1: int, k2: int, max: int, out: string)
    requires StopsAt(ss, k1, max, out) && StopsAt(ss, k2, max, out)
    ensures k1 == k2
  {
  }

  /** Stopped, the loop wrote the present sections up to and including the
      first one, `ss[k]`, that pushed the output past the limit, then the
      notice; the count and the recorded length are those of the same
      sections. */
  lemma {:induction false} EmitStops(ss: seq<Option<string>>, max: int, out: string,
                                     count: nat, total: nat)
    ensures var r := Emit(ss, max, out, count, total);
      r.truncated ==> exists k :: (StopsAt(ss, k, max, out)
        && r.out == out + Present(ss[..k + 1]) + Notice(max)
        && r.count == count + Written(ss[..k + 1])
        && r.total == |out + Present(ss[..k + 1])|)
    decreases |ss|
  {
    if ss != [] {
      if ss[0].None? {
        EmitStops(ss[1..], max, out, count, total);
        assert out + "" == out;
        StopLift(ss, max, out, "", 0, count, Emit(ss[1..], max, out, count, total));
      } else {
        var out' := out + ss[0].value;
        if max != 0 && |out'| > max {
          FirstSlot(ss);
          assert StopsAt(ss, 0, max, out);
        } else {
          EmitStops(ss[1..], max, out', count + 1, |out'|);
          StopLift(ss, max, out, ss[0].value, 1, count, Emit(ss[1..], max, out', count + 1, |out'|));
        }
      }
    }
  }

  /** A stop in the walk of `ss[1..]`, after the first slot `s0` was
      written without crossing the limit, is a stop in the walk of `ss`. */
  lemma StopLift(ss: seq<Option<string>>, max: int, out: string, s0: string, c0: nat, count: nat,
                 r: Emitted)
    requires ss != []
    requires s0 == (if ss[0].Some? then ss[0].value else "") && c0 == (if ss[0].Some? then 1 else 0)
    requires ss[0].Some? && max != 0 ==> |out + s0| <= max
    requires r.truncated ==> exists k :: (StopsAt(ss[1..], k, max, out + s0)
        && r.out == out + s0 + Present(ss[1..][..k + 1]) + Notice(max)
        && r.count == count + c0 + Written(ss[1..][..k + 1])
        && r.total == |out + s0 + Present(ss[1..][..k + 1])|)
    ensures r.truncated ==> exists k :: (StopsAt(ss, k, max, out)
        && r.out == out + Present(ss[..k + 1]) + Notice(max)
        && r.count == count + Written(ss[..k + 1])
        && r.total == |out + Present(ss[..k + 1])|)
  {
    if r.truncated {
      var k :| StopsAt(ss[1..], k, max, out + s0)
        && r.out == out + s0 + Present(ss[1..][..k + 1]) + Notice(max)
        && r.count == count + c0 + Written(ss[1..][..k + 1])
        && r.total == |out + s0 + Present(ss[1..][..k + 1])|;
      StopsLift(ss, k, out, s0, c0);
      StopsAtLift(ss, k, max, out, s0, c0);
    }
  }

  /** The first crossing in `ss[1..]`, after a first slot that did not
      cross, is the first crossing in `ss`, one position later. */
  lemma StopsAtLift(ss: seq<Option<string>>, k: nat, max: int, out: string, s0: string, c0: nat)
    requires ss != []
    requires s0 == (if ss[0].Some? then ss[0].value else "") && c0 == (if ss[0].Some? then 1 else 0)
    requires ss[0].Some? && max != 0 ==> |out + s0| <= max
    requires StopsAt(ss[1..], k, max, out + s0)
    ensures StopsAt(ss, k + 1, max, out)
  {
    StopsLift(ss, k, out, s0, c0);
    forall j | 0 <= j < k + 1 && ss[j].Some?
      ensures |out + Present(ss[..j + 1])| <= max
    {
      if j == 0 {
        FirstSlot(ss);
      } else {
        StopsLift(ss, j - 1, out, s0, c0);
        assert ss[1..][j - 1] == ss[j];
      }
    }
  }

  /** The prefix `ss[..1]` is the first slot alone. */
  lemma FirstSlot(ss: seq<Option<string>>)
    requires ss != []
    ensures Present(ss[..1]) == (if ss[0].Some? then ss[0].value else "")
    ensures Written(ss[..1]) == (if ss[0].Some? then 1 else 0)
  {
    var t := ss[..1];
    assert t[0] == ss[0] && t[1..] == [];
  }

  /** The prefix `ss[..k + 2]` is the first slot and then `ss[1..][..k + 1]`. */
  lemma StopsLift(ss: seq<Option<string>>, k: nat, out: string, s0: string, c0: nat)
    requires k + 1 < |ss|
    requires s0 == (if ss[0].Some? then ss[0].value else "") && c0 == (if ss[0].Some? then 1 else 0)
    ensures out + s0 + Present(ss[1..][..k + 1]) == out + Present(ss[..k + 2])
    ensures c0 + Written(ss[1..][..k + 1]) == Written(ss[..k + 2])
    ensures ss[k + 1] == ss[1..][k]
  {
    PrefixTail(ss, k + 1);
    StringAssoc3(out, s0, Present(ss[1..][..k + 1]));
  }

  /** The loop only appends: the output it starts from is a prefix of the
      output it ends with. */
  lemma {:induction false} EmitKeepsPrefix(ss: seq<Option<string>>, max: int, out: string,
                                           count: nat, total: nat)
    ensures out <= Emit(ss, max, out, count, total).out
    decreases |ss|
  {
    if ss != [] && ss[0].Some? {
      var out' := out + ss[0].value;
      if !(max != 0 && |out'| > max) {
        EmitKeepsPrefix(ss[1..], max, out', count + 1, |out'|);
      }
    } else if ss != [] {
      EmitKeepsPrefix(ss[1..], max, out, count, total);
    }
  }

  /** The recorded length is the length of everything written before the
      notice: the whole output when the loop ran to the end, the output
      without the trailing notice when it stopped. */
  lemma {:induction false} EmitTotal(ss: seq<Option<string>>, max: int, out: string,
                                     count: nat, total: nat)
    requires total == |out|
    ensures var r := Emit(ss, max, out, count, total);
      (!r.truncated ==> r.total == |r.out|) &&
      (r.truncated ==> r.total + |Notice(max)| == |r.out| && r.out[r.total..] == Notice(max))
    decreases |ss|
  {
    if ss != [] && ss[0].Some? {
      var out' := out + ss[0].value;
      if max != 0 && |out'| > max {
        assert (out' + Notice(max))[|out'|..] == Notice(max);
      } else {
        EmitTotal(ss[1..], max, out', count + 1, |out'|);
      }
    } else if ss != [] {
      EmitTotal(ss[1..], max, out, count, total);
    }
  }

  /** The loop stops only past a non-zero limit, after writing a section;
      when it runs to the end it wrote every section, and it never writes
      more sections than there are. */
  lemma {:induction false} EmitCounts(ss: seq<Option<string>>, max: int, out: string,
                                      count: nat, total: nat)
    ensures var r := Emit(ss, max, out, count, total);
      (r.truncated ==> max != 0 && r.total > max && r.count > count) &&
      (!r.truncated ==> r.count == count + Written(ss)) &&
      r.count <= count + Written(ss)
    decreases |ss|
  {
    if ss != [] && ss[0].Some? {
      var out' := out + ss[0].value;
      if !(max != 0 && |out'| > max) {
        EmitCounts(ss[1..], max, out', count + 1, |out'|);
      }
    } else if ss != [] {
      EmitCounts(ss[1..], max, out, count, total);
    }
  }

  /** Below the limit: when the loop ran to the end under a non-zero limit
      and wrote a section, the recorded length is within the limit; when it
      wrote no section, the recorded length is the one it started from. */
  lemma {:induction false} EmitWithinLimit(ss: seq<Option<string>>, max: int, out: string,
                                           count: nat, total: nat)
    ensures var r := Emit(ss, max, out, count, total);
      (!r.truncated && max != 0 && r.count > count ==> r.total <= max)
      && r.count >= count && (r.count == count ==> r.total == total)
    decreases |ss|
  {
    if ss != [] && ss[0].Some? {
      var out' := out + ss[0].value;
      if !(max != 0 && |out'| > max) {
        EmitWithinLimit(ss[1..], max, out', count + 1, |out'|);
      }
    } else if ss != [] {
      EmitWithinLimit(ss[1..], max, out, count, total);
    }
  }

  /** A negative limit is truthy and below every length: the loop stops
      after the first section. */
  lemma {:induction false} EmitNegativeLimit(ss: seq<Option<string>>, max: int, out: string,
                                             count: nat, total: nat)
    requires max < 0
    ensures var r := Emit(ss, max, out, count, total);
      (Written(ss) == 0 ==> !r.truncated && r.count == count) &&
      (Written(ss) > 0 ==> r.truncated && r.count == count + 1)
    decreases |ss|
  {
    if ss != [] && ss[0].None? {
      EmitNegativeLimit(ss[1..], max, out, count, total);
    }
  }

  /** A section is present exactly for a file that reads as text. */
  lemma SectionsPresent(files: seq<Found>, c: Codecs)
    ensures forall i :: 0 <= i < |files| ==>
      (Sections(files, c)[i].Some? <==> ReadSpec(files[i].file, DefaultEncodings, DefaultProbeBytes, c).Some?)
  {
  }

  /** The file loop started from the header: the header stays first, the
      recorded length is the output's before the notice, the loop stops only
      past a non-zero limit, and when it runs to the end it wrote every
      section. */
  lemma EmitFromHeader(ss: seq<Option<string>>, max: int, head: string)
    ensures var e := Emit(ss, max, head, 0, |head|);
      head <= e.out
      && e.count <= Written(ss)
      && (!e.truncated ==> e.total == |e.out| && e.count == Written(ss))
      && (e.truncated ==> max != 0 && e.total > max && e.total + |Notice(max)| == |e.out|)
    ensures max == 0 ==> !Emit(ss, max, head, 0, |head|).truncated
  {
    EmitKeepsPrefix(ss, max, head, 0, |head|);
    EmitTotal(ss, max, head, 0, |head|);
    EmitCounts(ss, max, head, 0, |head|);
  }

  /** The document opens with the header: the introduction naming the
      project, then the tree. */
  lemma DocumentStartsWithHeader(cfg: Config, env: Env)
    requires cfg.root.Dir?
    ensures Header(cfg.rootName, TreeText(cfg, env)) <= Document(cfg, env)
  {
    var head := Header(cfg.rootName, TreeText(cfg, env));
    var e := Body(cfg, env);
    EmitKeepsPrefix(Sections(Files(cfg, env), env.codecs), cfg.maxOutputChars, head, 0, |head|);
    assert e.out <= e.out + Footer(e.count, e.total);
  }

  /** The document ends with the footer of the file loop; the footer's
      length is that of the output before the notice; the loop stops only
      past a non-zero limit; and when it does not stop every collected file
      that reads as text has its section. */
  lemma DocumentShape(cfg: Config, env: Env)
    requires cfg.root.Dir?
    ensures var e := Body(cfg, env);
      Document(cfg, env) == e.out + Footer(e.count, e.total)
      && e.count <= Written(Sections(Files(cfg, env), env.codecs))
      && (!e.truncated ==> e.total == |e.out| && e.count == Written(Sections(Files(cfg, env), env.codecs)))
      && (e.truncated ==> cfg.maxOutputChars != 0 && e.total > cfg.maxOutputChars
                          && e.total + |Notice(cfg.maxOutputChars)| == |e.out|)
    ensures cfg.maxOutputChars == 0 ==> !Body(cfg, env).truncated
  {
    var head := Header(cfg.rootName, TreeText(cfg, env));
    EmitFromHeader(Sections(Files(cfg, env), env.codecs), cfg.maxOutputChars, head);
  }

  /** The file loop started from the header, with the footer after it:
      every present section in order when it runs to the end, else those up
      to the crossing section `ss[k]` and the notice. */
  lemma EmitWithFooter(ss: seq<Option<string>>, max: int, head: string)
    ensures var e := Emit(ss, max, head, 0, |head|);
      !e.truncated ==>
        e.out + Footer(e.count, e.total) == head + Present(ss) + Footer(Written(ss), |head + Present(ss)|)
    ensures var e := Emit(ss, max, head, 0, |head|);
      e.truncated ==> exists k :: (StopsAt(ss, k, max, head)
        && e.out + Footer(e.count, e.total)
           == head + Present(ss[..k + 1]) + Notice(max) + Footer(Written(ss[..k + 1]), |head + Present(ss[..k + 1])|))
    ensures max == 0 ==> !Emit(ss, max, head, 0, |head|).truncated
  {
    EmitRunsOut(ss, max, head, 0, |head|);
    EmitStops(ss, max, head, 0, |head|);
    EmitCounts(ss, max, head, 0, |head|);
    assert Written(ss) == 0 ==> head + Present(ss) == head by {
      if Written(ss) == 0 { NothingPresent(ss); }
    }
  }

  /** With no section present nothing is written. */
  lemma {:induction false} NothingPresent(ss: seq<Option<string>>)
    requires Written(ss) == 0
    ensures Present(ss) == ""
    decreases |ss|
  {
    if ss != [] {
      NothingPresent(ss[1..]);
    }
  }

  /** The document holds exactly the sections of the readable collected
      files, in collection order, between the header and the footer: all of
      them when the loop runs to the end (always so without a limit), and
      when it stops, those up to and including the file `k` whose section
      crossed the limit, followed by the notice. The footer counts the
      sections written and records the length before the notice. */
  lemma DocumentContents(cfg: Config, env: Env)
    requires cfg.root.Dir?
    ensures var head := Header(cfg.rootName, TreeText(cfg, env));
      var ss := Sections(Files(cfg, env), env.codecs);
      !Body(cfg, env).truncated ==>
        Document(cfg, env) == head + Present(ss) + Footer(Written(ss), |head + Present(ss)|)
    ensures var head := Header(cfg.rootName, TreeText(cfg, env));
      var ss := Sections(Files(cfg, env), env.codecs);
      Body(cfg, env).truncated ==> exists k :: (StopsAt(ss, k, cfg.maxOutputChars, head)
        && Document(cfg, env) == head + Present(ss[..k + 1]) + Notice(cfg.maxOutputChars)
                                 + Footer(Written(ss[..k + 1]), |head + Present(ss[..k + 1])|))
    ensures cfg.maxOutputChars == 0 ==> !Body(cfg, env).truncated
  {
    var head := Header(cfg.rootName, TreeText(cfg, env));
    EmitWithFooter(Sections(Files(cfg, env), env.codecs), cfg.maxOutputChars, head);
  }

  /** A section of a file as read holds the text with only its trailing line
      feeds dropped (the re-split of line breaks changes nothing on read
      text), and nothing in it is a run of backticks as long as its fence. */
  lemma SectionOfReadText(f: Node, c: Codecs)
    requires ReadSpec(f, DefaultEncodings, DefaultProbeBytes, c).Some?
    ensures var t := ReadSpec(f, DefaultEncodings, DefaultProbeBytes, c).value;
      RStripNewlines(Canonical(t)) == RStripNewlines(t)
      && forall i: nat :: !RunAt(RStripNewlines(t), i, |FenceFor(t)|)
  {
    var t := ReadSpec(f, DefaultEncodings, DefaultProbeBytes, c).value;
    ReadTextIsCanonical(f, DefaultEncodings, DefaultProbeBytes, c);
    BodyCannotCloseFence(t);
  }
}
