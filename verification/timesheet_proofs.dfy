/** What `_parse_intervals_from_journal` computes, stated without the scan loop.

    A journal line either carries the start tag ("opens"), carries the end tag
    ("closes"), or neither ("inert"); only timestamp lines carry tags. A scan
    succeeds exactly when the journal is inert gaps alternating with
    well-formed intervals (start line, inert lines, end line, not running
    backwards in time), and then it returns those intervals. Each of the four
    errors is likewise characterised by the position of the offending line. */
module TimeSheetProofs {
  import opened Wrappers
  import opened Seqs
  import opened Text
  import opened TimeSheet

  /** The line is a timestamp line carrying `tag`. */
  predicate Carries(cfg: Config, line: string, tag: string)
  {
    var p := cfg.stampOf(line);
    p.Some? && tag in p.value.tags
  }

  predicate Opens(cfg: Config, line: string)
  {
    Carries(cfg, line, cfg.startTag)
  }

  predicate Closes(cfg: Config, line: string)
  {
    Carries(cfg, line, cfg.endTag)
  }

  /** Neither boundary tag: plain text, or a timestamp line with other tags. */
  predicate Inert(cfg: Config, line: string)
  {
    !Opens(cfg, line) && !Closes(cfg, line)
  }

  predicate AllInert(cfg: Config, lines: seq<string>)
  {
    forall i :: 0 <= i < |lines| ==> Inert(cfg, lines[i])
  }

  /** The point in time of a timestamp line. */
  function StampTime(cfg: Config, line: string): Time
    requires cfg.stampOf(line).Some?
  {
    cfg.stampOf(line).value.time
  }

  /** The lines of an interval still open since `start`: a line opening it
      (and not closing anything) stamped `start`, then inert lines. */
  predicate OpenRun(cfg: Config, start: Time, run: seq<string>)
  {
    && |run| >= 1
    && Opens(cfg, run[0]) && !Closes(cfg, run[0])
    && StampTime(cfg, run[0]) == start
    && AllInert(cfg, run[1..])
  }

  /** An interval's lines are an open run closed by a line that closes (and
      does not open), stamped with the interval's end. */
  predicate Bracketed(cfg: Config, iv: Interval)
  {
    var n := |iv.lines|;
    && n >= 2
    && OpenRun(cfg, iv.start, iv.lines[..n - 1])
    && Closes(cfg, iv.lines[n - 1]) && !Opens(cfg, iv.lines[n - 1])
    && StampTime(cfg, iv.lines[n - 1]) == iv.end
  }

  predicate WellFormed(cfg: Config, iv: Interval)
  {
    Bracketed(cfg, iv) && iv.start <= iv.end
  }

  /** gaps[0] ++ ivs[0].lines ++ gaps[1] ++ ... ++ ivs[n-1].lines ++ gaps[n]. */
  function Interleave(gaps: seq<seq<string>>, ivs: seq<Interval>): seq<string>
    requires |gaps| == |ivs| + 1
    decreases |ivs|
  {
    if |ivs| == 0 then gaps[0]
    else Interleave(gaps[..|gaps| - 1], ivs[..|ivs| - 1]) + ivs[|ivs| - 1].lines + gaps[|gaps| - 1]
  }

  /** `lines` is made of inert gaps around the well-formed intervals `ivs`. */
  predicate Layout(cfg: Config, lines: seq<string>, gaps: seq<seq<string>>, ivs: seq<Interval>)
  {
    && |gaps| == |ivs| + 1
    && (forall g :: 0 <= g < |gaps| ==> AllInert(cfg, gaps[g]))
    && (forall k :: 0 <= k < |ivs| ==> WellFormed(cfg, ivs[k]))
    && Interleave(gaps, ivs) == lines
  }

  /** The lines collected by the interval currently open, if any. */
  function Pending(phase: Phase): seq<string>
  {
    if phase.Open? then phase.lines else []
  }

  // ---------------------------------------------------------------------------
  // Running the scan over a longer journal

  /** Scanning one more line is one more step. */
  lemma ScannedSnoc(cfg: Config, p: seq<string>, x: string)
    ensures Scanned(cfg, p + [x]) ==
      if Scanned(cfg, p).Failure? then Failure(Scanned(cfg, p).error)
      else Step(cfg, Scanned(cfg, p).value, x, |p| + 1)
  {
    assert (p + [x])[..|p|] == p;
  }

  /** Once the scan has failed, further lines do not change the error. */
  lemma {:induction false} FailurePersists(cfg: Config, p: seq<string>, rest: seq<string>)
    requires Scanned(cfg, p).Failure?
    ensures Scanned(cfg, p + rest) == Scanned(cfg, p)
    decreases |rest|
  {
    if |rest| == 0 {
      assert p + rest == p;
    } else {
      var rest' := rest[..|rest| - 1];
      FailurePersists(cfg, p, rest');
      assert p + rest == (p + rest') + [rest[|rest| - 1]];
      ScannedSnoc(cfg, p + rest', rest[|rest| - 1]);
    }
  }

  /** With no interval open, inert lines change nothing. */
  lemma {:induction false} ScannedAppendInert(cfg: Config, p: seq<string>, acc: seq<Interval>, g: seq<string>)
    requires Scanned(cfg, p) == Success(ScanState(Idle, acc))
    requires AllInert(cfg, g)
    ensures Scanned(cfg, p + g) == Success(ScanState(Idle, acc))
    decreases |g|
  {
    if |g| == 0 {
      assert p + g == p;
    } else {
      var g' := g[..|g| - 1];
      ScannedAppendInert(cfg, p, acc, g');
      assert p + g == (p + g') + [g[|g| - 1]];
      ScannedSnoc(cfg, p + g', g[|g| - 1]);
    }
  }

  /** A scan that has not failed takes one step per further line. */
  lemma ScannedStep(cfg: Config, p: seq<string>, st: ScanState, x: string)
    requires Scanned(cfg, p) == Success(st)
    ensures Scanned(cfg, p + [x]) == Step(cfg, st, x, |p| + 1)
  {
    assert (p + [x])[..|p|] == p;
  }

  /** With no interval open, a line opening one (and closing nothing) opens it. */
  lemma StepIdleOpens(cfg: Config, acc: seq<Interval>, x: string, n: nat)
    requires Opens(cfg, x) && !Closes(cfg, x)
    ensures Step(cfg, ScanState(Idle, acc), x, n) == Success(ScanState(Open(StampTime(cfg, x), [x]), acc))
  {
  }

  /** With an interval open, an inert line is collected into it. */
  lemma StepOpenInert(cfg: Config, start: Time, run: seq<string>, acc: seq<Interval>, x: string, n: nat)
    requires Inert(cfg, x)
    ensures Step(cfg, ScanState(Open(start, run), acc), x, n) == Success(ScanState(Open(start, run + [x]), acc))
  {
  }

  /** With no interval open, an open run opens an interval holding exactly its lines. */
  lemma {:induction false} ScannedAppendRun(cfg: Config, p: seq<string>, acc: seq<Interval>, start: Time, run: seq<string>)
    requires Scanned(cfg, p) == Success(ScanState(Idle, acc))
    requires OpenRun(cfg, start, run)
    ensures Scanned(cfg, p + run) == Success(ScanState(Open(start, run), acc))
    decreases |run|
  {
    var x := run[|run| - 1];
    var run' := run[..|run| - 1];
    assert p + run == (p + run') + [x];
    if |run| == 1 {
      assert p + run' == p;
      ScannedStep(cfg, p, ScanState(Idle, acc), x);
      StepIdleOpens(cfg, acc, x, |p| + 1);
      assert [x] == run;
    } else {
      assert run'[1..] == run[1..][..|run| - 2];
      ScannedAppendRun(cfg, p, acc, start, run');
      assert Inert(cfg, run[1..][|run| - 2]);
      ScannedStep(cfg, p + run', ScanState(Open(start, run'), acc), x);
      StepOpenInert(cfg, start, run', acc, x, |p + run'| + 1);
      assert run' + [x] == run;
    }
  }

  /** With no interval open, a well-formed interval's lines emit exactly that interval. */
  lemma ScannedAppendInterval(cfg: Config, p: seq<string>, acc: seq<Interval>, iv: Interval)
    requires Scanned(cfg, p) == Success(ScanState(Idle, acc))
    requires WellFormed(cfg, iv)
    ensures Scanned(cfg, p + iv.lines) == Success(ScanState(Idle, acc + [iv]))
  {
    var n := |iv.lines|;
    var run := iv.lines[..n - 1];
    var x := iv.lines[n - 1];
    ScannedAppendRun(cfg, p, acc, iv.start, run);
    assert run + [x] == iv.lines;
    assert p + iv.lines == (p + run) + [x];
    ScannedSnoc(cfg, p + run, x);
  }

  /** Scanning a layout returns its intervals with no interval left open. */
  lemma {:induction false} ScannedInterleave(cfg: Config, gaps: seq<seq<string>>, ivs: seq<Interval>)
    requires |gaps| == |ivs| + 1
    requires forall g :: 0 <= g < |gaps| ==> AllInert(cfg, gaps[g])
    requires forall k :: 0 <= k < |ivs| ==> WellFormed(cfg, ivs[k])
    ensures Scanned(cfg, Interleave(gaps, ivs)) == Success(ScanState(Idle, ivs))
    decreases |ivs|
  {
    if |ivs| == 0 {
      ScannedAppendInert(cfg, [], [], gaps[0]);
      assert [] + gaps[0] == gaps[0];
    } else {
      var gaps' := gaps[..|gaps| - 1];
      var ivs' := ivs[..|ivs| - 1];
      var iv := ivs[|ivs| - 1];
      var before := Interleave(gaps', ivs');
      ScannedInterleave(cfg, gaps', ivs');
      ScannedAppendInterval(cfg, before, ivs', iv);
      assert ivs' + [iv] == ivs;
      ScannedAppendInert(cfg, before + iv.lines, ivs, gaps[|gaps| - 1]);
    }
  }

  // ---------------------------------------------------------------------------
  // Success

  /** Appending to the last gap appends to the interleaved lines. */
  lemma InterleaveExtendGap(gaps: seq<seq<string>>, ivs: seq<Interval>, x: string)
    requires |gaps| == |ivs| + 1
    ensures var m := |gaps| - 1;
      Interleave(gaps[..m] + [gaps[m] + [x]], ivs) == Interleave(gaps, ivs) + [x]
  {
    var m := |gaps| - 1;
    var gaps2 := gaps[..m] + [gaps[m] + [x]];
    if |ivs| > 0 {
      assert gaps2[..|gaps2| - 1] == gaps[..m];
    }
  }

  /** An inert line after a layout extends its last gap. */
  lemma LayoutExtendGap(cfg: Config, lines: seq<string>, gaps: seq<seq<string>>, ivs: seq<Interval>, x: string)
    requires Layout(cfg, lines, gaps, ivs) && Inert(cfg, x)
    ensures var m := |gaps| - 1;
      Layout(cfg, lines + [x], gaps[..m] + [gaps[m] + [x]], ivs)
  {
    var m := |gaps| - 1;
    InterleaveExtendGap(gaps, ivs, x);
    assert forall i :: 0 <= i < |gaps[m]| ==> (gaps[m] + [x])[i] == gaps[m][i];
  }

  /** A well-formed interval after a layout is a layout with one more interval
      (and an empty gap after it). */
  lemma LayoutAddInterval(cfg: Config, lines: seq<string>, gaps: seq<seq<string>>, ivs: seq<Interval>, iv: Interval)
    requires Layout(cfg, lines, gaps, ivs) && WellFormed(cfg, iv)
    ensures Layout(cfg, lines + iv.lines, gaps + [[]], ivs + [iv])
  {
    assert (gaps + [[]])[..|gaps|] == gaps;
    assert (ivs + [iv])[..|ivs|] == ivs;
    assert lines + iv.lines + [] == lines + iv.lines;
  }

  /** An open run followed by an inert line is a longer open run. */
  lemma OpenRunExtend(cfg: Config, start: Time, run: seq<string>, x: string)
    requires OpenRun(cfg, start, run) && Inert(cfg, x)
    ensures OpenRun(cfg, start, run + [x])
  {
    assert (run + [x])[1..] == run[1..] + [x];
  }

  /** What a step that does not fail does, by the kind of line. */
  lemma StepSuccessCases(cfg: Config, st: ScanState, x: string, n: nat)
    requires Step(cfg, st, x, n).Success?
    ensures var st' := Step(cfg, st, x, n).value;
      && (st.phase.Idle? && Opens(cfg, x) ==>
            !Closes(cfg, x) && st' == ScanState(Open(StampTime(cfg, x), [x]), st.intervals))
      && (st.phase.Idle? && !Opens(cfg, x) ==> Inert(cfg, x) && st' == st)
      && (st.phase.Open? && Closes(cfg, x) ==>
            && !Opens(cfg, x) && st.phase.start <= StampTime(cfg, x)
            && st' == ScanState(Idle, st.intervals + [Interval(st.phase.start, StampTime(cfg, x), st.phase.lines + [x])]))
      && (st.phase.Open? && !Closes(cfg, x) ==>
            Inert(cfg, x) && st' == ScanState(Open(st.phase.start, st.phase.lines + [x]), st.intervals))
  {
  }

  /** The scan state `st` accounts for `lines`: the lines before the open
      interval (if any) form a layout of the intervals emitted so far, and the
      open interval's lines are the rest, forming an open run. */
  predicate Explains(cfg: Config, lines: seq<string>, st: ScanState, gaps: seq<seq<string>>)
  {
    var pending := Pending(st.phase);
    && |pending| <= |lines|
    && Layout(cfg, lines[..|lines| - |pending|], gaps, st.intervals)
    && lines[|lines| - |pending|..] == pending
    && (st.phase.Open? ==> OpenRun(cfg, st.phase.start, pending))
  }

  /** A step that does not fail keeps the state accounting for the lines, when
      no interval was open. */
  lemma ExplainsStepIdle(cfg: Config, lines: seq<string>, acc: seq<Interval>, gaps: seq<seq<string>>, x: string, n: nat)
      returns (gaps2: seq<seq<string>>)
    requires Explains(cfg, lines, ScanState(Idle, acc), gaps)
    requires Step(cfg, ScanState(Idle, acc), x, n).Success?
    ensures Explains(cfg, lines + [x], Step(cfg, ScanState(Idle, acc), x, n).value, gaps2)
  {
    StepSuccessCases(cfg, ScanState(Idle, acc), x, n);
    assert lines[..|lines|] == lines;
    if Opens(cfg, x) {
      gaps2 := gaps;
      assert (lines + [x])[..|lines|] == lines;
      assert (lines + [x])[|lines|..] == [x];
    } else {
      var m := |gaps| - 1;
      gaps2 := gaps[..m] + [gaps[m] + [x]];
      LayoutExtendGap(cfg, lines, gaps, acc, x);
      assert (lines + [x])[..|lines| + 1] == lines + [x];
    }
  }

  /** A step that does not fail keeps the state accounting for the lines, when
      an interval was open. */
  lemma ExplainsStepOpen(cfg: Config, lines: seq<string>, start: Time, run: seq<string>, acc: seq<Interval>,
                         gaps: seq<seq<string>>, x: string, n: nat)
      returns (gaps2: seq<seq<string>>)
    requires Explains(cfg, lines, ScanState(Open(start, run), acc), gaps)
    requires Step(cfg, ScanState(Open(start, run), acc), x, n).Success?
    ensures Explains(cfg, lines + [x], Step(cfg, ScanState(Open(start, run), acc), x, n).value, gaps2)
  {
    StepSuccessCases(cfg, ScanState(Open(start, run), acc), x, n);
    var before := lines[..|lines| - |run|];
    assert lines == before + run;
    var lines' := lines + [x];
    if Closes(cfg, x) {
      var iv := Interval(start, StampTime(cfg, x), run + [x]);
      assert iv.lines[..|iv.lines| - 1] == run;
      LayoutAddInterval(cfg, before, gaps, acc, iv);
      gaps2 := gaps + [[]];
      assert before + iv.lines == lines';
      assert lines'[..|lines'|] == lines';
    } else {
      gaps2 := gaps;
      OpenRunExtend(cfg, start, run, x);
      assert lines' == before + (run + [x]);
      assert lines'[..|lines'| - |run + [x]|] == before;
      assert lines'[|lines'| - |run + [x]|..] == run + [x];
    }
  }

  /** Soundness of the scan, over any prefix: the state reached accounts for
      the lines scanned. */
  lemma {:induction false} ScannedLayout(cfg: Config, lines: seq<string>) returns (gaps: seq<seq<string>>)
    requires Scanned(cfg, lines).Success?
    ensures Explains(cfg, lines, Scanned(cfg, lines).value, gaps)
    decreases |lines|
  {
    if |lines| == 0 {
      gaps := [[]];
      return;
    }
    var p := lines[..|lines| - 1];
    var x := lines[|lines| - 1];
    assert lines == p + [x];
    ScannedSnoc(cfg, p, x);
    var gaps' := ScannedLayout(cfg, p);
    var st := Scanned(cfg, p).value;
    match st.phase
    case Idle =>
      gaps := ExplainsStepIdle(cfg, p, st.intervals, gaps', x, |lines|);
    case Open(start, run) =>
      gaps := ExplainsStepOpen(cfg, p, start, run, st.intervals, gaps', x, |lines|);
  }

  /** A successful scan's result is laid out in the journal: inert gaps
      around well-formed intervals, in input order. */
  lemma ParseIntervalsSound(cfg: Config, lines: seq<string>, ivs: seq<Interval>) returns (gaps: seq<seq<string>>)
    requires ParseIntervals(cfg, lines) == Success(ivs)
    ensures Layout(cfg, lines, gaps, ivs)
  {
    gaps := ScannedLayout(cfg, lines);
    assert lines[..|lines|] == lines;
  }

  /** Every layout of well-formed intervals scans to exactly those intervals. */
  lemma ParseIntervalsComplete(cfg: Config, lines: seq<string>, gaps: seq<seq<string>>, ivs: seq<Interval>)
    requires Layout(cfg, lines, gaps, ivs)
    ensures ParseIntervals(cfg, lines) == Success(ivs)
  {
    ScannedInterleave(cfg, gaps, ivs);
  }

  /** The scan succeeds with `ivs` exactly when the journal is a layout of `ivs`. */
  lemma ParseIntervalsExactly(cfg: Config, lines: seq<string>, ivs: seq<Interval>)
    ensures ParseIntervals(cfg, lines) == Success(ivs) <==> exists gaps :: Layout(cfg, lines, gaps, ivs)
  {
    if ParseIntervals(cfg, lines) == Success(ivs) {
      var gaps := ParseIntervalsSound(cfg, lines, ivs);
    }
    if exists gaps :: Layout(cfg, lines, gaps, ivs) {
      var gaps :| Layout(cfg, lines, gaps, ivs);
      ParseIntervalsComplete(cfg, lines, gaps, ivs);
    }
  }

  /** In the program's configuration, a line written `# <date> <time> <tag> ...`
      opens an interval exactly when the parser accepts `<date> <time>` and the
      start tag is among the tags written, closes one exactly when the parser
      accepts it and the end tag is among them, and is stamped with the
      parser's time. */
  lemma JournalStampLine(parse: string -> Option<Time>, startTag: string, endTag: string,
                         date: string, time: string, tags: seq<string>, cfg: Config, line: string)
    requires ' ' !in date && ' ' !in time
    requires forall i :: 0 <= i < |tags| ==> IsTag(tags[i])
    requires cfg == JournalConfig(parse, startTag, endTag) && line == StampLine(date, time, tags)
    ensures Opens(cfg, line) <==> parse(date + " " + time).Some? && startTag in tags
    ensures Closes(cfg, line) <==> parse(date + " " + time).Some? && endTag in tags
    ensures cfg.stampOf(line).Some? <==> parse(date + " " + time).Some?
    ensures parse(date + " " + time).Some? ==>
              cfg.stampOf(line).Some? && StampTime(cfg, line) == parse(date + " " + time).value
  {
    StampLineRoundTrip(parse, date, time, tags);
  }

  /** A journal without any line carrying a boundary tag has no intervals and no error. */
  lemma NoBoundaryNoIntervals(cfg: Config, lines: seq<string>)
    requires AllInert(cfg, lines)
    ensures ParseIntervals(cfg, lines) == Success([])
  {
    ParseIntervalsComplete(cfg, lines, [lines], []);
  }

  /** The line at index `i` lies inside one of the intervals placed at `starts`. */
  predicate Covered(starts: seq<nat>, ivs: seq<Interval>, i: int)
    requires |starts| == |ivs|
  {
    exists k :: 0 <= k < |ivs| && starts[k] <= i < starts[k] + |ivs[k].lines|
  }

  /** Each interval is the slice of `lines` starting at `starts[k]`, and the
      slices follow one another without overlapping. */
  predicate Placed(lines: seq<string>, starts: seq<nat>, ivs: seq<Interval>)
  {
    && |starts| == |ivs|
    && (forall k :: 0 <= k < |ivs| ==>
          && starts[k] + |ivs[k].lines| <= |lines|
          && lines[starts[k]..starts[k] + |ivs[k].lines|] == ivs[k].lines)
    && (forall k :: 0 <= k < |ivs| - 1 ==> starts[k] + |ivs[k].lines| <= starts[k + 1])
  }

  /** Every line outside the placed intervals carries neither tag. */
  predicate InertOutside(cfg: Config, lines: seq<string>, starts: seq<nat>, ivs: seq<Interval>)
    requires |starts| == |ivs|
  {
    forall i :: 0 <= i < |lines| && !Covered(starts, ivs, i) ==> Inert(cfg, lines[i])
  }

  /** The intervals of a successful scan, by position: each is the contiguous
      slice of the journal starting at `starts[k]`, they follow one another
      without overlapping, and every line outside them carries neither tag
      (so it is dropped). */
  lemma IntervalPositions(cfg: Config, lines: seq<string>, ivs: seq<Interval>) returns (starts: seq<nat>)
    requires ParseIntervals(cfg, lines) == Success(ivs)
    ensures Placed(lines, starts, ivs)
    ensures InertOutside(cfg, lines, starts, ivs)
  {
    var gaps := ParseIntervalsSound(cfg, lines, ivs);
    starts := LayoutPositions(cfg, gaps, ivs);
  }

  /** Placing one more interval, after the lines placed so far. */
  lemma PlacedSnoc(before: seq<string>, starts: seq<nat>, ivs: seq<Interval>, iv: Interval, g: seq<string>)
    requires Placed(before, starts, ivs)
    ensures Placed(before + iv.lines + g, starts + [|before|], ivs + [iv])
  {
    var lines := before + iv.lines + g;
    var starts2 := starts + [|before|];
    var ivs2 := ivs + [iv];
    forall k | 0 <= k < |ivs2|
      ensures starts2[k] + |ivs2[k].lines| <= |lines|
      ensures lines[starts2[k]..starts2[k] + |ivs2[k].lines|] == ivs2[k].lines
    {
      if k < |ivs| {
        assert lines[starts[k]..starts[k] + |ivs[k].lines|] == before[starts[k]..starts[k] + |ivs[k].lines|];
      } else {
        assert lines[|before|..|before| + |iv.lines|] == iv.lines;
      }
    }
  }

  /** A line covered before one more interval is placed stays covered, and so
      is every line of the new interval. */
  lemma CoveredSnoc(starts: seq<nat>, ivs: seq<Interval>, s: nat, iv: Interval, i: int)
    requires |starts| == |ivs|
    ensures Covered(starts, ivs, i) ==> Covered(starts + [s], ivs + [iv], i)
    ensures s <= i < s + |iv.lines| ==> Covered(starts + [s], ivs + [iv], i)
  {
    if Covered(starts, ivs, i) {
      var k :| 0 <= k < |ivs| && starts[k] <= i < starts[k] + |ivs[k].lines|;
      assert (ivs + [iv])[k] == ivs[k];
    }
    if s <= i < s + |iv.lines| {
      assert (ivs + [iv])[|ivs|] == iv;
    }
  }

  /** Lines outside the intervals stay inert when one more interval and an
      inert gap follow. */
  lemma InertOutsideSnoc(cfg: Config, before: seq<string>, starts: seq<nat>, ivs: seq<Interval>, iv: Interval, g: seq<string>)
    requires |starts| == |ivs|
    requires InertOutside(cfg, before, starts, ivs) && AllInert(cfg, g)
    ensures InertOutside(cfg, before + iv.lines + g, starts + [|before|], ivs + [iv])
  {
    var lines := before + iv.lines + g;
    forall i | 0 <= i < |lines| && !Covered(starts + [|before|], ivs + [iv], i)
      ensures Inert(cfg, lines[i])
    {
      CoveredSnoc(starts, ivs, |before|, iv, i);
      if i < |before| {
        assert lines[i] == before[i];
      } else if i >= |before| + |iv.lines| {
        assert lines[i] == g[i - |before| - |iv.lines|];
      }
    }
  }

  /** `IntervalPositions` for an arbitrary layout. */
  lemma {:induction false} LayoutPositions(cfg: Config, gaps: seq<seq<string>>, ivs: seq<Interval>) returns (starts: seq<nat>)
    requires |gaps| == |ivs| + 1
    requires forall g :: 0 <= g < |gaps| ==> AllInert(cfg, gaps[g])
    ensures Placed(Interleave(gaps, ivs), starts, ivs)
    ensures InertOutside(cfg, Interleave(gaps, ivs), starts, ivs)
    decreases |ivs|
  {
    if |ivs| == 0 {
      starts := [];
      assert forall i :: !Covered(starts, ivs, i);
      return;
    }
    var gaps' := gaps[..|gaps| - 1];
    var ivs' := ivs[..|ivs| - 1];
    var iv := ivs[|ivs| - 1];
    var g := gaps[|gaps| - 1];
    var before := Interleave(gaps', ivs');
    var starts' := LayoutPositions(cfg, gaps', ivs');
    starts := starts' + [|before|];
    assert ivs' + [iv] == ivs;
    PlacedSnoc(before, starts', ivs', iv, g);
    InertOutsideSnoc(cfg, before, starts', ivs', iv, g);
  }

  // ---------------------------------------------------------------------------
  // Failure

  /** The first line whose step fails, and the error it raises. */
  lemma {:induction false} FirstFailure(cfg: Config, lines: seq<string>) returns (k: nat)
    requires Scanned(cfg, lines).Failure?
    ensures k < |lines|
    ensures Scanned(cfg, lines[..k]).Success?
    ensures Step(cfg, Scanned(cfg, lines[..k]).value, lines[k], k + 1) == Scanned(cfg, lines)
    decreases |lines|
  {
    var p := lines[..|lines| - 1];
    assert lines == p + [lines[|lines| - 1]];
    ScannedSnoc(cfg, p, lines[|lines| - 1]);
    if Scanned(cfg, p).Failure? {
      k := FirstFailure(cfg, p);
      assert lines[..k] == p[..k];
    } else {
      k := |lines| - 1;
    }
  }

  /** Where an open interval began: after a prefix that leaves nothing open,
      and from there to the end it is an open run. */
  lemma OpenOrigin(cfg: Config, lines: seq<string>) returns (j: nat)
    requires Scanned(cfg, lines).Success? && Scanned(cfg, lines).value.phase.Open?
    ensures var st := Scanned(cfg, lines).value;
      && j + |st.phase.lines| == |lines|
      && lines[j..] == st.phase.lines
      && Scanned(cfg, lines[..j]) == Success(ScanState(Idle, st.intervals))
      && OpenRun(cfg, st.phase.start, st.phase.lines)
  {
    var st := Scanned(cfg, lines).value;
    var gaps := ScannedLayout(cfg, lines);
    j := |lines| - |st.phase.lines|;
    ScannedInterleave(cfg, gaps, st.intervals);
  }

  /** The 0-based line `k` carries the end tag while no interval is open. */
  predicate EndWithoutStartAt(cfg: Config, lines: seq<string>, k: nat)
  {
    k < |lines| && ParseIntervals(cfg, lines[..k]).Success? && Closes(cfg, lines[k])
  }

  /** The 0-based line `k` carries the start tag while an interval is open. */
  predicate StartWhileOpenAt(cfg: Config, lines: seq<string>, k: nat)
  {
    k < |lines| && ParseIntervals(cfg, lines[..k]) == Failure(Unterminated) && Opens(cfg, lines[k])
  }

  /** Lines `j` to `k` form the interval `iv`, opened after a prefix that
      leaves nothing open and closed at `k` by a time earlier than its start. */
  predicate RunsBackwardsAt(cfg: Config, lines: seq<string>, j: nat, k: nat, iv: Interval)
  {
    && j < k < |lines|
    && ParseIntervals(cfg, lines[..j]).Success?
    && Opens(cfg, lines[j])
    && OpenRun(cfg, StampTime(cfg, lines[j]), lines[j..k])
    && Closes(cfg, lines[k]) && !Opens(cfg, lines[k])
    && StampTime(cfg, lines[k]) < StampTime(cfg, lines[j])
    && iv == Interval(StampTime(cfg, lines[j]), StampTime(cfg, lines[k]), lines[j..k + 1])
  }

  /** From line `j` to the end is an interval that is never closed, opened
      after a prefix that leaves nothing open. */
  predicate LeftOpenFrom(cfg: Config, lines: seq<string>, j: nat)
  {
    && j < |lines|
    && ParseIntervals(cfg, lines[..j]).Success?
    && Opens(cfg, lines[j])
    && OpenRun(cfg, StampTime(cfg, lines[j]), lines[j..])
  }

  /** A step fails on an end tag without a start only on an end-tagged line
      with no interval open, citing that line. */
  lemma StepEndWithoutStart(cfg: Config, st: ScanState, x: string, n: nat, m: nat, text: string)
    requires Step(cfg, st, x, n) == Failure(EndWithoutStart(m, text))
    ensures st.phase.Idle? && Closes(cfg, x) && m == n && text == x
  {
  }

  /** With no interval open, an end-tagged line fails the step. */
  lemma StepClosesIdle(cfg: Config, acc: seq<Interval>, x: string, n: nat)
    requires Closes(cfg, x)
    ensures Step(cfg, ScanState(Idle, acc), x, n) == Failure(EndWithoutStart(n, x))
  {
  }

  /** A step fails on a start tag while open only on a start-tagged line with
      an interval open, citing that line. */
  lemma StepStartWhileOpen(cfg: Config, st: ScanState, x: string, n: nat, m: nat, text: string)
    requires Step(cfg, st, x, n) == Failure(StartWhileOpen(m, text))
    ensures st.phase.Open? && Opens(cfg, x) && m == n && text == x
  {
  }

  /** With an interval open, a start-tagged line fails the step. */
  lemma StepOpensWhileOpen(cfg: Config, st: ScanState, x: string, n: nat)
    requires st.phase.Open? && Opens(cfg, x)
    ensures Step(cfg, st, x, n) == Failure(StartWhileOpen(n, x))
  {
  }

  /** A step failing after a prefix that scans fails the whole scan with the
      same error. */
  lemma FailsAt(cfg: Config, lines: seq<string>, k: nat, e: ScanError)
    requires k < |lines| && Scanned(cfg, lines[..k]).Success?
    requires Step(cfg, Scanned(cfg, lines[..k]).value, lines[k], k + 1) == Failure(e)
    ensures ParseIntervals(cfg, lines) == Failure(e)
  {
    Slices(lines, 0, k);
    ScannedStep(cfg, lines[..k], Scanned(cfg, lines[..k]).value, lines[k]);
    FailurePersists(cfg, lines[..k + 1], lines[k + 1..]);
  }

  /** A scan failing on an end tag without a start cites the first such line. */
  lemma EndWithoutStartSound(cfg: Config, lines: seq<string>, n: nat, text: string)
    requires ParseIntervals(cfg, lines) == Failure(EndWithoutStart(n, text))
    ensures n >= 1 && EndWithoutStartAt(cfg, lines, n - 1) && text == lines[n - 1]
  {
    var k := FirstFailure(cfg, lines);
    var st := Scanned(cfg, lines[..k]).value;
    StepEndWithoutStart(cfg, st, lines[k], k + 1, n, text);
  }

  /** An end-tagged line reached with nothing open fails the scan there. */
  lemma EndWithoutStartComplete(cfg: Config, lines: seq<string>, k: nat)
    requires EndWithoutStartAt(cfg, lines, k)
    ensures ParseIntervals(cfg, lines) == Failure(EndWithoutStart(k + 1, lines[k]))
  {
    var st := Scanned(cfg, lines[..k]).value;
    StepClosesIdle(cfg, st.intervals, lines[k], k + 1);
    assert st == ScanState(Idle, st.intervals);
    FailsAt(cfg, lines, k, EndWithoutStart(k + 1, lines[k]));
  }

  /** The scan fails with "ending interval without starting it" citing line `n`
      exactly when line `n` is the first end-tagged line reached with no
      interval open -- whether or not it also carries the start tag. */
  lemma EndWithoutStartExactly(cfg: Config, lines: seq<string>, n: nat, text: string)
    ensures ParseIntervals(cfg, lines) == Failure(EndWithoutStart(n, text))
        <==> n >= 1 && EndWithoutStartAt(cfg, lines, n - 1) && text == lines[n - 1]
  {
    if ParseIntervals(cfg, lines) == Failure(EndWithoutStart(n, text)) {
      EndWithoutStartSound(cfg, lines, n, text);
    }
    if n >= 1 && EndWithoutStartAt(cfg, lines, n - 1) && text == lines[n - 1] {
      EndWithoutStartComplete(cfg, lines, n - 1);
    }
  }

  /** A scan failing on a start tag while open cites the first such line. */
  lemma StartWhileOpenSound(cfg: Config, lines: seq<string>, n: nat, text: string)
    requires ParseIntervals(cfg, lines) == Failure(StartWhileOpen(n, text))
    ensures n >= 1 && StartWhileOpenAt(cfg, lines, n - 1) && text == lines[n - 1]
  {
    var k := FirstFailure(cfg, lines);
    var st := Scanned(cfg, lines[..k]).value;
    StepStartWhileOpen(cfg, st, lines[k], k + 1, n, text);
  }

  /** A start-tagged line reached with an interval open fails the scan there. */
  lemma StartWhileOpenComplete(cfg: Config, lines: seq<string>, k: nat)
    requires StartWhileOpenAt(cfg, lines, k)
    ensures ParseIntervals(cfg, lines) == Failure(StartWhileOpen(k + 1, lines[k]))
  {
    assert Scanned(cfg, lines[..k]).Success?;
    var st := Scanned(cfg, lines[..k]).value;
    StepOpensWhileOpen(cfg, st, lines[k], k + 1);
    FailsAt(cfg, lines, k, StartWhileOpen(k + 1, lines[k]));
  }

  /** The scan fails with "starting interval when already open" citing line `n`
      exactly when line `n` carries the start tag while the lines before it
      leave an interval open -- whether or not it also carries the end tag. */
  lemma StartWhileOpenExactly(cfg: Config, lines: seq<string>, n: nat, text: string)
    ensures ParseIntervals(cfg, lines) == Failure(StartWhileOpen(n, text))
        <==> n >= 1 && StartWhileOpenAt(cfg, lines, n - 1) && text == lines[n - 1]
  {
    if ParseIntervals(cfg, lines) == Failure(StartWhileOpen(n, text)) {
      StartWhileOpenSound(cfg, lines, n, text);
    }
    if n >= 1 && StartWhileOpenAt(cfg, lines, n - 1) && text == lines[n - 1] {
      StartWhileOpenComplete(cfg, lines, n - 1);
    }
  }

  /** A step fails on an interval running backwards only by closing the open
      interval with an earlier time. */
  lemma StepNegativeDuration(cfg: Config, st: ScanState, x: string, n: nat, iv: Interval)
    requires Step(cfg, st, x, n) == Failure(NegativeDuration(iv))
    ensures st.phase.Open? && Closes(cfg, x) && !Opens(cfg, x)
    ensures iv == Interval(st.phase.start, StampTime(cfg, x), st.phase.lines + [x])
    ensures StampTime(cfg, x) < st.phase.start
  {
  }

  /** A scan failing on an interval running backwards points at where it runs. */
  lemma NegativeDurationSound(cfg: Config, lines: seq<string>, iv: Interval) returns (j: nat, k: nat)
    requires ParseIntervals(cfg, lines) == Failure(NegativeDuration(iv))
    ensures RunsBackwardsAt(cfg, lines, j, k, iv)
  {
    k := FirstFailure(cfg, lines);
    var st := Scanned(cfg, lines[..k]).value;
    StepNegativeDuration(cfg, st, lines[k], k + 1, iv);
    j := OpenOrigin(cfg, lines[..k]);
    PrefixSlices(lines, j, k);
    Slices(lines, j, k);
    assert lines[j..k][0] == lines[j];
  }

  /** With an interval open, a line closing it (and opening nothing) with an
      earlier time fails the step. */
  lemma StepClosesBackwards(cfg: Config, start: Time, run: seq<string>, acc: seq<Interval>, x: string, n: nat)
    requires Closes(cfg, x) && !Opens(cfg, x) && StampTime(cfg, x) < start
    ensures Step(cfg, ScanState(Open(start, run), acc), x, n)
         == Failure(NegativeDuration(Interval(start, StampTime(cfg, x), run + [x])))
  {
  }

  /** An interval running backwards, reached with nothing failed, fails the scan. */
  lemma NegativeDurationComplete(cfg: Config, lines: seq<string>, j: nat, k: nat, iv: Interval)
    requires RunsBackwardsAt(cfg, lines, j, k, iv)
    ensures ParseIntervals(cfg, lines) == Failure(NegativeDuration(iv))
  {
    var acc := Scanned(cfg, lines[..j]).value.intervals;
    var start := StampTime(cfg, lines[j]);
    var run := lines[j..k];
    Slices(lines, j, k);
    ScannedAppendRun(cfg, lines[..j], acc, start, run);
    StepClosesBackwards(cfg, start, run, acc, lines[k], k + 1);
    FailsAt(cfg, lines, k, NegativeDuration(iv));
  }

  /** The scan fails with "negative duration" for `iv` exactly when `iv` is an
      otherwise well-formed interval of the journal whose end precedes its start;
      nothing after it is looked at. */
  lemma NegativeDurationExactly(cfg: Config, lines: seq<string>, iv: Interval)
    ensures ParseIntervals(cfg, lines) == Failure(NegativeDuration(iv))
        <==> exists j, k :: RunsBackwardsAt(cfg, lines, j, k, iv)
  {
    if ParseIntervals(cfg, lines) == Failure(NegativeDuration(iv)) {
      var j, k := NegativeDurationSound(cfg, lines, iv);
    }
    if exists j, k :: RunsBackwardsAt(cfg, lines, j, k, iv) {
      var j: nat, k: nat :| RunsBackwardsAt(cfg, lines, j, k, iv);
      NegativeDurationComplete(cfg, lines, j, k, iv);
    }
  }

  /** A scan ending inside an interval points at where it was opened. */
  lemma UnterminatedSound(cfg: Config, lines: seq<string>) returns (j: nat)
    requires ParseIntervals(cfg, lines) == Failure(Unterminated)
    ensures LeftOpenFrom(cfg, lines, j)
  {
    j := OpenOrigin(cfg, lines);
    assert lines[j..][0] == lines[j];
  }

  /** An interval opened, with nothing failed, and never closed fails the scan. */
  lemma UnterminatedComplete(cfg: Config, lines: seq<string>, j: nat)
    requires LeftOpenFrom(cfg, lines, j)
    ensures ParseIntervals(cfg, lines) == Failure(Unterminated)
  {
    var acc := Scanned(cfg, lines[..j]).value.intervals;
    ScannedAppendRun(cfg, lines[..j], acc, StampTime(cfg, lines[j]), lines[j..]);
    assert lines[..j] + lines[j..] == lines;
  }

  /** The scan fails with "interval not terminated" exactly when the journal
      ends inside an interval: after some start line nothing closes it. */
  lemma UnterminatedExactly(cfg: Config, lines: seq<string>)
    ensures ParseIntervals(cfg, lines) == Failure(Unterminated)
        <==> exists j :: LeftOpenFrom(cfg, lines, j)
  {
    if ParseIntervals(cfg, lines) == Failure(Unterminated) {
      var j := UnterminatedSound(cfg, lines);
    }
    if exists j :: LeftOpenFrom(cfg, lines, j) {
      var j: nat :| LeftOpenFrom(cfg, lines, j);
      UnterminatedComplete(cfg, lines, j);
    }
  }

  /** A line carrying both boundary tags always aborts the scan: if nothing
      failed before it, the error is "ending without starting" when no interval
      is open and "starting when already open" when one is. */
  lemma BothTagsAbort(cfg: Config, lines: seq<string>, k: nat)
    requires k < |lines| && Opens(cfg, lines[k]) && Closes(cfg, lines[k])
    ensures ParseIntervals(cfg, lines).Failure?
    ensures ParseIntervals(cfg, lines[..k]).Success? ==>
              ParseIntervals(cfg, lines) == Failure(EndWithoutStart(k + 1, lines[k]))
    ensures ParseIntervals(cfg, lines[..k]) == Failure(Unterminated) ==>
              ParseIntervals(cfg, lines) == Failure(StartWhileOpen(k + 1, lines[k]))
  {
    EndWithoutStartExactly(cfg, lines, k + 1, lines[k]);
    StartWhileOpenExactly(cfg, lines, k + 1, lines[k]);
    if Scanned(cfg, lines[..k]).Failure? {
      FailurePersists(cfg, lines[..k], lines[k..]);
      assert lines[..k] + lines[k..] == lines;
    }
  }
}
