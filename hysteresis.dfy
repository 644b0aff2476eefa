/**
 * The classifier over a stream of frames: what the hysteresis thresholds,
 * the edge-triggered defect report and the empty-belt reset mean for whole
 * sequences of measurements.
 */
module Hysteresis {
  import opened Assembly
  import opened Classifier

  /** One frame's input to the classifier. */
  datatype Measurement = Measurement(area: int, rect: Rect)

  /** The state after a stream of frames and the record emitted for each frame. */
  datatype Trace = Trace(final: ClassifierState, infos: seq<AssemblyInfo>)

  /** Runs the classifier from `s` over the frames `ms`, in order. */
  function Run(s: ClassifierState, ms: seq<Measurement>, b: Bounds): (t: Trace)
    ensures |t.infos| == |ms|
    ensures forall i :: 0 <= i < |ms| ==> t.infos[i].area == ms[i].area && t.infos[i].rect == ms[i].rect
    ensures Consistent(s) ==> Consistent(t.final)
    decreases |ms|
  {
    if ms == [] then Trace(s, [])
    else
      var o := Classify(s, ms[0].area, ms[0].rect, b);
      var t := Run(o.next, ms[1..], b);
      Trace(t.final, [o.info] + t.infos)
  }

  /** The frames show a part on the belt. */
  predicate AllPresent(ms: seq<Measurement>) {
    forall k :: 0 <= k < |ms| ==> ms[k].area != 0
  }

  /** The failing frames among those showing a part. */
  function FailCount(ms: seq<Measurement>, b: Bounds): nat {
    if ms == [] then 0
    else (if ms[0].area != 0 && FrameFails(ms[0].area, b) then 1 else 0) + FailCount(ms[1..], b)
  }

  function CountParts(infos: seq<AssemblyInfo>): nat {
    if infos == [] then 0 else (if infos[0].incTotal then 1 else 0) + CountParts(infos[1..])
  }

  function CountDefects(infos: seq<AssemblyInfo>): nat {
    if infos == [] then 0 else (if infos[0].defect then 1 else 0) + CountDefects(infos[1..])
  }

  /**
   * A new part is counted exactly on a non-empty frame that follows an empty
   * one (or, for the first frame, when no part was on the belt before).
   */
  lemma {:induction false} IncTotalMarksPartStart(s: ClassifierState, ms: seq<Measurement>, b: Bounds)
    ensures forall i :: 0 <= i < |ms| ==>
              (Run(s, ms, b).infos[i].incTotal <==>
                 ms[i].area != 0 && (if i == 0 then !s.prevSeen else ms[i - 1].area == 0))
    decreases |ms|
  {
    if ms != [] {
      var o := Classify(s, ms[0].area, ms[0].rect, b);
      var rest := Run(o.next, ms[1..], b);
      IncTotalMarksPartStart(o.next, ms[1..], b);
      forall i | 0 <= i < |ms|
        ensures Run(s, ms, b).infos[i].incTotal <==>
                  ms[i].area != 0 && (if i == 0 then !s.prevSeen else ms[i - 1].area == 0)
      {
        if i > 0 {
          assert Run(s, ms, b).infos[i] == rest.infos[i - 1];
          assert ms[1..][i - 1] == ms[i];
          if i > 1 {
            assert ms[1..][i - 2] == ms[i - 1];
          }
        }
      }
    }
  }

  /** Once the part is confirmed defective, no further defect is reported until the belt is empty. */
  lemma {:induction false} NoDefectWhileConfirmed(s: ClassifierState, ms: seq<Measurement>, b: Bounds, j: int)
    requires s.prevDefect
    requires 0 <= j < |ms|
    requires forall k :: 0 <= k < j ==> ms[k].area != 0
    ensures !Run(s, ms, b).infos[j].defect
    decreases |ms|
  {
    var o := Classify(s, ms[0].area, ms[0].rect, b);
    if j > 0 {
      NoDefectWhileConfirmed(o.next, ms[1..], b, j - 1);
      assert Run(s, ms, b).infos[j] == Run(o.next, ms[1..], b).infos[j - 1];
    }
  }

  /** Some frame strictly between `i` and `j` shows an empty belt. */
  predicate GapBetween(ms: seq<Measurement>, i: int, j: int) {
    exists k :: i < k < j && 0 <= k < |ms| && ms[k].area == 0
  }

  /** Between any two reported defects there is an empty-belt frame. */
  lemma {:induction false} DefectsSeparatedByGap(s: ClassifierState, ms: seq<Measurement>, b: Bounds)
    ensures var t := Run(s, ms, b);
            forall i, j :: 0 <= i < j < |ms| && t.infos[i].defect && t.infos[j].defect ==> GapBetween(ms, i, j)
    decreases |ms|
  {
    if ms != [] {
      var t := Run(s, ms, b);
      var o := Classify(s, ms[0].area, ms[0].rect, b);
      var rest := Run(o.next, ms[1..], b);
      assert t.infos == [o.info] + rest.infos;
      DefectsSeparatedByGap(o.next, ms[1..], b);
      forall i, j | 0 <= i < j < |ms| && t.infos[i].defect && t.infos[j].defect
        ensures GapBetween(ms, i, j)
      {
        assert t.infos[j] == rest.infos[j - 1];
        if i > 0 {
          assert t.infos[i] == rest.infos[i - 1];
          assert GapBetween(ms[1..], i - 1, j - 1);
          var k :| i - 1 < k < j - 1 && 0 <= k < |ms[1..]| && ms[1..][k].area == 0;
          assert ms[k + 1].area == 0;
        } else if forall k :: 0 <= k < j - 1 ==> ms[1..][k].area != 0 {
          NoDefectWhileConfirmed(o.next, ms[1..], b, j - 1);
          assert false;
        } else {
          var k :| 0 <= k < j - 1 && ms[1..][k].area == 0;
          assert ms[k + 1].area == 0;
        }
      }
    }
  }

  /** Within one continuous stretch of a part on the belt, at most one defect is reported. */
  lemma DefectAtMostOncePerPart(s: ClassifierState, ms: seq<Measurement>, b: Bounds)
    requires AllPresent(ms)
    ensures forall i, j :: 0 <= i < |ms| && 0 <= j < |ms| &&
              Run(s, ms, b).infos[i].defect && Run(s, ms, b).infos[j].defect
              ==> i == j
  {
    DefectsSeparatedByGap(s, ms, b);
    forall i, j | 0 <= i < j < |ms|
      ensures !GapBetween(ms, i, j)
    {
    }
  }

  /**
   * Hysteresis: as long as the failing frames already counted plus those to
   * come do not exceed the threshold, no defect is reported, whatever the
   * order of passing, failing and empty frames.
   */
  lemma {:induction false} FewFailuresNeverFire(s: ClassifierState, ms: seq<Measurement>, b: Bounds)
    requires s.frameDefectCount + FailCount(ms, b) <= Threshold
    ensures forall i :: 0 <= i < |ms| ==> !Run(s, ms, b).infos[i].defect
    decreases |ms|
  {
    if ms != [] {
      var o := Classify(s, ms[0].area, ms[0].rect, b);
      FewFailuresNeverFire(o.next, ms[1..], b);
      forall i | 1 <= i < |ms|
        ensures Run(s, ms, b).infos[i] == Run(o.next, ms[1..], b).infos[i - 1]
      {
      }
    }
  }

  /** A part seen on at most ten failing frames is never reported defective. */
  lemma PartWithFewFailuresIsNotDefective(ms: seq<Measurement>, b: Bounds)
    requires FailCount(ms, b) <= Threshold
    ensures forall i :: 0 <= i < |ms| ==> !Run(Initial, ms, b).infos[i].defect
  {
    FewFailuresNeverFire(Initial, ms, b);
  }

  /**
   * A part on the belt with `k` failing frames counted and no defect
   * confirmed unless `k` is past the threshold: every further failing frame
   * is counted, the report comes on the frame that takes the count past the
   * threshold, and from then on the passing count stays cleared.
   */
  lemma {:induction false} FailingStreak(k: nat, ok: nat, ms: seq<Measurement>, b: Bounds)
    requires forall i :: 0 <= i < |ms| ==> ms[i].area != 0 && FrameFails(ms[i].area, b)
    ensures var t := Run(ClassifierState(true, k > Threshold, k, if k > Threshold then 0 else ok), ms, b);
            t.final == ClassifierState(true, k + |ms| > Threshold, k + |ms|, if k + |ms| > Threshold then 0 else ok) &&
            forall i :: 0 <= i < |ms| ==> (t.infos[i].defect <==> k + i == Threshold) && !t.infos[i].incTotal
    decreases |ms|
  {
    if ms != [] {
      var s := ClassifierState(true, k > Threshold, k, if k > Threshold then 0 else ok);
      var o := Classify(s, ms[0].area, ms[0].rect, b);
      assert o.next == ClassifierState(true, k + 1 > Threshold, k + 1, if k + 1 > Threshold then 0 else ok);
      FailingStreak(k + 1, ok, ms[1..], b);
      forall i | 1 <= i < |ms|
        ensures Run(s, ms, b).infos[i] == Run(o.next, ms[1..], b).infos[i - 1]
      {
      }
    }
  }

  /**
   * A part on the belt receiving only passing frames: nothing is reported,
   * the passing count grows, and the failing count is cleared once the
   * passing count passes the threshold.
   */
  lemma {:induction false} PassingStreak(k: nat, ok: nat, confirmed: bool, ms: seq<Measurement>, b: Bounds)
    requires forall i :: 0 <= i < |ms| ==> ms[i].area != 0 && !FrameFails(ms[i].area, b)
    ensures var t := Run(ClassifierState(true, confirmed, k, ok), ms, b);
            t.final == ClassifierState(true, confirmed, if ms != [] && ok + |ms| > Threshold then 0 else k, ok + |ms|) &&
            forall i :: 0 <= i < |ms| ==> !t.infos[i].defect && !t.infos[i].incTotal
    decreases |ms|
  {
    if ms != [] {
      var s := ClassifierState(true, confirmed, k, ok);
      var o := Classify(s, ms[0].area, ms[0].rect, b);
      var k' := if ok + 1 > Threshold then 0 else k;
      assert o.next == ClassifierState(true, confirmed, k', ok + 1);
      PassingStreak(k', ok + 1, confirmed, ms[1..], b);
      forall i | 1 <= i < |ms|
        ensures Run(s, ms, b).infos[i] == Run(o.next, ms[1..], b).infos[i - 1]
      {
      }
    }
  }

  /** Running over two streams in turn is running over their concatenation. */
  lemma {:induction false} RunAppend(s: ClassifierState, a: seq<Measurement>, c: seq<Measurement>, b: Bounds)
    ensures var ta := Run(s, a, b);
            var tc := Run(ta.final, c, b);
            Run(s, a + c, b) == Trace(tc.final, ta.infos + tc.infos)
    decreases |a|
  {
    if a == [] {
      assert a + c == c;
    } else {
      var o := Classify(s, a[0].area, a[0].rect, b);
      assert (a + c)[0] == a[0];
      assert (a + c)[1..] == a[1..] + c;
      RunAppend(o.next, a[1..], c, b);
      var ta := Run(o.next, a[1..], b);
      var tc := Run(ta.final, c, b);
      assert [o.info] + (ta.infos + tc.infos) == ([o.info] + ta.infos) + tc.infos;
    }
  }

  /**
   * A part whose every frame fails is counted on its first frame and
   * reported defective on its 11th frame (index 10) and on no other: the
   * first frame already counts as failing.
   */
  lemma EveryFrameFails(ms: seq<Measurement>, b: Bounds)
    requires forall i :: 0 <= i < |ms| ==> ms[i].area != 0 && FrameFails(ms[i].area, b)
    ensures ms != [] ==> Run(Initial, ms, b).final == ClassifierState(true, |ms| > Threshold, |ms|, 0)
    ensures forall i :: 0 <= i < |ms| ==>
              (Run(Initial, ms, b).infos[i].defect <==> i == Threshold) &&
              (Run(Initial, ms, b).infos[i].incTotal <==> i == 0)
  {
    if ms != [] {
      var o := Classify(Initial, ms[0].area, ms[0].rect, b);
      assert o.next == ClassifierState(true, false, 1, 0);
      FailingStreak(1, 0, ms[1..], b);
      forall i | 1 <= i < |ms|
        ensures Run(Initial, ms, b).infos[i] == Run(o.next, ms[1..], b).infos[i - 1]
      {
      }
    }
  }

  /** A part whose every frame passes is counted once, on its first frame, and never flagged. */
  lemma EveryFramePasses(ms: seq<Measurement>, b: Bounds)
    requires forall i :: 0 <= i < |ms| ==> ms[i].area != 0 && !FrameFails(ms[i].area, b)
    ensures forall i :: 0 <= i < |ms| ==>
              !Run(Initial, ms, b).infos[i].defect && !Run(Initial, ms, b).infos[i].show &&
              (Run(Initial, ms, b).infos[i].incTotal <==> i == 0)
  {
    IncTotalMarksPartStart(Initial, ms, b);
    NoFailingFrames(ms, b);
    FewFailuresNeverFire(Initial, ms, b);
    NeverFlaggedWithoutDefect(Initial, ms, b);
    forall i | 0 < i < |ms|
      ensures !Run(Initial, ms, b).infos[i].incTotal
    {
      assert ms[i - 1].area != 0;
    }
  }

  lemma {:induction false} NoFailingFrames(ms: seq<Measurement>, b: Bounds)
    requires forall i :: 0 <= i < |ms| ==> !FrameFails(ms[i].area, b)
    ensures FailCount(ms, b) == 0
    decreases |ms|
  {
    if ms != [] {
      NoFailingFrames(ms[1..], b);
    }
  }

  /** No failing frames at all means no defect report, and with no prior flag, no flag. */
  lemma {:induction false} NeverFlaggedWithoutDefect(s: ClassifierState, ms: seq<Measurement>, b: Bounds)
    requires !s.prevDefect
    requires FailCount(ms, b) == 0
    ensures forall i :: 0 <= i < |ms| ==> !Run(s, ms, b).infos[i].show
    decreases |ms|
  {
    if ms != [] {
      var o := Classify(s, ms[0].area, ms[0].rect, b);
      NeverFlaggedWithoutDefect(o.next, ms[1..], b);
      forall i | 1 <= i < |ms|
        ensures Run(s, ms, b).infos[i] == Run(o.next, ms[1..], b).infos[i - 1]
      {
      }
    }
  }

  /**
   * A part that fails on its first `|bad|` frames (at most ten), then passes
   * on more than ten frames, then fails again: the first failing stretch is
   * forgotten, and the defect is reported on the 11th frame of the second.
   */
  lemma FailuresClearedByPassingStretch(bad: seq<Measurement>, good: seq<Measurement>, worse: seq<Measurement>, b: Bounds)
    requires 1 <= |bad| <= Threshold && |good| > Threshold
    requires forall i :: 0 <= i < |bad| ==> bad[i].area != 0 && FrameFails(bad[i].area, b)
    requires forall i :: 0 <= i < |good| ==> good[i].area != 0 && !FrameFails(good[i].area, b)
    requires forall i :: 0 <= i < |worse| ==> worse[i].area != 0 && FrameFails(worse[i].area, b)
    ensures var infos := Run(Initial, bad + good + worse, b).infos;
            forall i :: 0 <= i < |infos| ==> (infos[i].defect <==> i == |bad| + |good| + Threshold)
  {
    EveryFrameFails(bad, b);
    var t1 := Run(Initial, bad, b);
    PassingStreak(|bad|, 0, false, good, b);
    var t2 := Run(t1.final, good, b);
    assert t2.final == ClassifierState(true, false, 0, |good|);
    FailingStreak(0, |good|, worse, b);
    var t3 := Run(t2.final, worse, b);
    RunAppend(Initial, bad, good, b);
    RunAppend(Initial, bad + good, worse, b);
    var infos := Run(Initial, bad + good + worse, b).infos;
    assert infos == t1.infos + t2.infos + t3.infos;
    forall i | 0 <= i < |infos|
      ensures infos[i].defect <==> i == |bad| + |good| + Threshold
    {
      if i < |bad| {
        assert infos[i] == t1.infos[i];
      } else if i < |bad| + |good| {
        assert infos[i] == t2.infos[i - |bad|];
      } else {
        assert infos[i] == t3.infos[i - |bad| - |good|];
      }
    }
  }

  /**
   * A part that fails on its first `|bad|` frames (at most ten), then passes
   * on at most ten frames, then fails again: the short passing stretch does
   * not clear the failing count, so the defect is reported on the frame that
   * brings the part's failing frames, both stretches together, to eleven.
   */
  lemma FailuresAccumulateAcrossShortPass(bad: seq<Measurement>, good: seq<Measurement>, worse: seq<Measurement>, b: Bounds)
    requires 1 <= |bad| <= Threshold && |good| <= Threshold
    requires forall i :: 0 <= i < |bad| ==> bad[i].area != 0 && FrameFails(bad[i].area, b)
    requires forall i :: 0 <= i < |good| ==> good[i].area != 0 && !FrameFails(good[i].area, b)
    requires forall i :: 0 <= i < |worse| ==> worse[i].area != 0 && FrameFails(worse[i].area, b)
    ensures var infos := Run(Initial, bad + good + worse, b).infos;
            forall i :: 0 <= i < |infos| ==> (infos[i].defect <==> i == |good| + Threshold)
  {
    EveryFrameFails(bad, b);
    var t1 := Run(Initial, bad, b);
    PassingStreak(|bad|, 0, false, good, b);
    var t2 := Run(t1.final, good, b);
    assert t2.final == ClassifierState(true, false, |bad|, |good|);
    FailingStreak(|bad|, |good|, worse, b);
    var t3 := Run(t2.final, worse, b);
    RunAppend(Initial, bad, good, b);
    RunAppend(Initial, bad + good, worse, b);
    var infos := Run(Initial, bad + good + worse, b).infos;
    assert infos == t1.infos + t2.infos + t3.infos;
    forall i | 0 <= i < |infos|
      ensures infos[i].defect <==> i == |good| + Threshold
    {
      if i < |bad| {
        assert infos[i] == t1.infos[i];
      } else if i < |bad| + |good| {
        assert infos[i] == t2.infos[i - |bad|];
      } else {
        assert infos[i] == t3.infos[i - |bad| - |good|];
      }
    }
  }

  /**
   * Counting over any stream from a consistent state: every reported defect
   * is paid for by a counted part, the open part carrying the difference.
   */
  lemma {:induction false} DefectsNeverOutnumberParts(s: ClassifierState, ms: seq<Measurement>, b: Bounds)
    requires Consistent(s)
    ensures var t := Run(s, ms, b);
            CountDefects(t.infos) + OpenPart(t.final) <= CountParts(t.infos) + OpenPart(s)
    decreases |ms|
  {
    if ms != [] {
      var o := Classify(s, ms[0].area, ms[0].rect, b);
      var rest := Run(o.next, ms[1..], b);
      DefectsNeverOutnumberParts(o.next, ms[1..], b);
      assert ([o.info] + rest.infos)[1..] == rest.infos;
    }
  }

  /** From start-up, the defect total never exceeds the part total. */
  lemma TotalsStayOrdered(ms: seq<Measurement>, b: Bounds)
    ensures CountDefects(Run(Initial, ms, b).infos) <= CountParts(Run(Initial, ms, b).infos)
  {
    DefectsNeverOutnumberParts(Initial, ms, b);
  }
}
