/** PerformanceUtil from include/bytearray.h: a list of time points in
    milliseconds, the total span between the first and the last, and the
    intervals between neighbours. The clock reading is a parameter, and
    doubles are modelled as exact reals. */
module Performance {
  import opened Wrappers

  /** The gaps between neighbouring time points, in order. */
  function Intervals(tp: seq<real>): (r: seq<real>)
    ensures |r| == if |tp| < 2 then 0 else |tp| - 1
    ensures forall i :: 0 <= i < |r| ==> r[i] == tp[i + 1] - tp[i]
  {
    if |tp| < 2 then []
    else Intervals(tp[..|tp| - 1]) + [tp[|tp| - 1] - tp[|tp| - 2]]
  }

  function Sum(xs: seq<real>): real {
    if xs == [] then 0.0 else Sum(xs[..|xs| - 1]) + xs[|xs| - 1]
  }

  /** The intervals add up to the span from the first point to the last. */
  lemma {:induction false} Telescope(tp: seq<real>)
    ensures Sum(Intervals(tp)) == if |tp| < 2 then 0.0 else tp[|tp| - 1] - tp[0]
  {
    if |tp| >= 2 {
      var init := tp[..|tp| - 1];
      Telescope(init);
      var r := Intervals(tp);
      assert r[..|r| - 1] == Intervals(init);
    }
  }

  /** Recording one more point adds exactly one interval, the gap from the
      previous last point. */
  lemma {:induction false} IntervalsSnoc(tp: seq<real>, now: real)
    requires |tp| >= 1
    ensures Intervals(tp + [now]) == Intervals(tp) + [now - tp[|tp| - 1]]
  {
    assert (tp + [now])[..|tp|] == tp;
  }

  predicate NonDecreasing(tp: seq<real>) {
    forall i, j :: 0 <= i <= j < |tp| ==> tp[i] <= tp[j]
  }

  /** A clock that never runs backwards gives no negative interval. */
  lemma {:induction false} IntervalsNonNegative(tp: seq<real>)
    requires NonDecreasing(tp)
    ensures forall k :: 0 <= k < |Intervals(tp)| ==> Intervals(tp)[k] >= 0.0
  {
    var r := Intervals(tp);
    forall k | 0 <= k < |r|
      ensures r[k] >= 0.0
    {
      assert tp[k] <= tp[k + 1];
    }
  }

  class PerformanceUtil {
    var timePoints: seq<real>

    /** PerformanceUtil() = default: no time points yet. */
    constructor()
      ensures timePoints == []
    {
      timePoints := [];
    }

    /** reset: forget every point, then record the current time. */
    method Reset(now: real)
      modifies this
      ensures timePoints == [now]
    {
      timePoints := [];
      RecordTimePoint(now);
    }

    /** recordTimePoint: append the current time. */
    method RecordTimePoint(now: real)
      modifies this
      ensures timePoints == old(timePoints) + [now]
    {
      timePoints := timePoints + [now];
    }

    /** getDuration: 0 with fewer than two points, otherwise last minus
        first, which is the sum of all the intervals. */
    function GetDuration(): (d: real)
      reads this
      ensures d == Sum(Intervals(timePoints))
    {
      Telescope(timePoints);
      if |timePoints| < 2 then 0.0
      else timePoints[|timePoints| - 1] - timePoints[0]
    }

    /** getIntervals: one gap per neighbouring pair, from index 1 on. */
    method GetIntervals() returns (intervals: seq<real>)
      ensures intervals == Intervals(timePoints)
    {
      var tp := timePoints;
      intervals := [];
      var i := 1;
      while i < |tp|
        invariant 1 <= i <= Max(|tp|, 1)
        invariant |intervals| == i - 1
        invariant forall k :: 0 <= k < |intervals| ==> intervals[k] == tp[k + 1] - tp[k]
      {
        intervals := intervals + [tp[i] - tp[i - 1]];
        i := i + 1;
      }
      SameIntervals(tp, intervals);
    }
  }

  /** A sequence holding each gap of tp at its index is Intervals(tp). */
  lemma {:induction false} SameIntervals(tp: seq<real>, r: seq<real>)
    requires |r| == if |tp| < 2 then 0 else |tp| - 1
    requires forall k :: 0 <= k < |r| ==> r[k] == tp[k + 1] - tp[k]
    ensures r == Intervals(tp)
  {
    var q := Intervals(tp);
    forall k | 0 <= k < |r|
      ensures r[k] == q[k]
    {
      assert q[k] == tp[k + 1] - tp[k];
    }
  }

  /** Right after reset there is one point, so the duration is 0 and there
      are no intervals; each later point adds its gap to the duration. */
  lemma {:induction false} DurationAfterRecord(tp: seq<real>, now: real)
    ensures Sum(Intervals([now])) == 0.0 && Intervals([now]) == []
    ensures |tp| >= 1 ==> Sum(Intervals(tp + [now])) == Sum(Intervals(tp)) + (now - tp[|tp| - 1])
  {
    Telescope([now]);
    if |tp| >= 1 {
      Telescope(tp);
      Telescope(tp + [now]);
      assert (tp + [now])[0] == tp[0];
    }
  }
}
