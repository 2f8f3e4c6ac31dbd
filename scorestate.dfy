// `ScoreState` and `ExperimentTracks.score` (stories/RIP/clustering/ld/invrep_scoring.py):
// a window of baselined signal that repeats are scored against and that
// resolving a repeat consumes in place.
module ScoreStates {
  import opened Common
  import opened Sorting
  import opened Intervals
  import opened InvRepeats
  import opened Scoring

  class ScoreState {
    const start: int
    const end: int
    /** Signal of positions [start, end), lowered in place by `Resolve`. */
    const scores: array<real>
    const insulators: seq<int>
    const peaks: seq<Interval>
    /** The total length of all peaks. */
    const maxOverlap: int

    /** The fields are fixed at construction; only the signal in `scores` changes. */
    predicate Valid()
    {
      scores.Length == end - start && maxOverlap == TotalLen(peaks)
    }

    constructor (start: int, end: int, scores: array<real>, insulators: seq<int>, peaks: seq<Interval>)
      requires scores.Length == end - start
      ensures Valid()
      ensures this.start == start && this.end == end && this.scores == scores
      ensures this.insulators == insulators && this.peaks == peaks
    {
      this.start := start;
      this.end := end;
      this.scores := scores;
      this.insulators := insulators;
      this.peaks := peaks;
      this.maxOverlap := TotalLen(peaks);
    }

    /**
     * `score`: the raw score of `ir` over the current signal times its
     * weight; never negative while the signal is not.
     */
    function Score(ir: InvRepeat): (s: real)
      reads scores
      requires Valid() && maxOverlap > 0 && |ir.segments| > 0
      requires SegmentsInWindow(scores.Length, start, ir.segments)
      ensures NonNegative(scores[..]) ==> s >= 0.0
    {
      ScoreOn(this, scores[..], ir)
    }

    /** Lowers the signal of `arm` by `sub` position by position, floored at zero. */
    method SubtractArm(arm: Interval, sub: seq<real>)
      requires Valid() && InWindow(scores.Length, start, arm) && |sub| == arm.Len()
      modifies scores
      ensures scores[..] == SubtractedArm(old(scores[..]), start, arm, sub)
    {
      var i := 0;
      while i < arm.Len()
        invariant 0 <= i <= arm.Len()
        invariant forall k :: 0 <= k < scores.Length ==>
          scores[k] == if arm.start <= start + k < arm.start + i then RMax(0.0, old(scores[k]) - sub[start + k - arm.start])
                       else old(scores[k])
      {
        var k := arm.start - start + i;
        scores[k] := RMax(0.0, scores[k] - sub[i]);
        i := i + 1;
      }
      assert forall k :: 0 <= k < scores.Length ==> scores[..][k] == SubtractedArm(old(scores[..]), start, arm, sub)[k];
    }

    /** One segment of `resolve`: both arms lose what their pairs explain. */
    method ResolveOne(seg: Segment) returns (explained: real)
      requires Valid() && SegmentInWindow(scores.Length, start, seg) && seg.left.end <= seg.right.start
      modifies scores
      ensures scores[..] == ResolveSegment(old(scores[..]), start, seg)
      ensures explained == SumReals(Explained(old(scores[..]), start, seg))
    {
      var e := Explained(scores[..], start, seg);
      explained := SumReals(e);
      SubtractArm(seg.left, e);
      SubtractArm(seg.right, Reversed(e));
      ResolveSegmentByArms(old(scores[..]), start, seg);
    }

    /**
     * `resolve`: the segments are resolved one after the other; the result
     * is the total signal they explained.
     */
    method Resolve(ir: InvRepeat) returns (amount: real)
      requires Valid() && SegmentsInWindow(scores.Length, start, ir.segments)
      requires forall i :: 0 <= i < |ir.segments| ==> ir.segments[i].left.end <= ir.segments[i].right.start
      modifies scores
      ensures scores[..] == ResolveAll(old(scores[..]), start, ir.segments)
      ensures amount == ResolvedAmount(old(scores[..]), start, ir.segments)
    {
      ghost var buf := scores[..];
      var segs := ir.segments;
      amount := 0.0;
      var n := 0;
      while n < |segs|
        invariant 0 <= n <= |segs|
        invariant SegmentsInWindow(|buf|, start, segs[..n])
        invariant scores[..] == ResolveAll(buf, start, segs[..n])
        invariant amount == ResolvedAmount(buf, start, segs[..n])
      {
        var explained := ResolveOne(segs[n]);
        amount := amount + explained;
        assert segs[..n + 1][..n] == segs[..n];
        n := n + 1;
      }
      assert segs[..n] == segs;
    }
  }

  lemma ScaledNonNegative(buf: seq<real>, origin: int, segs: seq<Segment>, w: real)
    requires SegmentsInWindow(|buf|, origin, segs) && w >= 0.0
    ensures NonNegative(buf) ==> RawScore(buf, origin, segs) * w >= 0.0
  {
    if NonNegative(buf) {
      RawScoreNonNegative(buf, origin, segs);
      MulNonNegative(RawScore(buf, origin, segs), w);
    }
  }

  /**
   * The weighted score of `ir` against the signal `buf` of the window of
   * `st`: the raw score times the weight; never negative while the signal
   * is not.
   */
  function ScoreOn(st: ScoreState, buf: seq<real>, ir: InvRepeat): (s: real)
    requires st.Valid() && st.maxOverlap > 0 && |ir.segments| > 0
    requires SegmentsInWindow(|buf|, st.start, ir.segments)
    ensures NonNegative(buf) ==> s >= 0.0
  {
    var w := Weight(st.insulators, st.peaks, st.maxOverlap, ir);
    ScaledNonNegative(buf, st.start, ir.segments, w);
    Weighted(RawScore(buf, st.start, ir.segments), w)
  }

  /** A raw score times its weight. */
  function Weighted(raw: real, w: real): real
  {
    raw * w
  }

  lemma WeightedMonotone(r1: real, r2: real, w: real)
    requires r1 <= r2 && w >= 0.0
    ensures Weighted(r1, w) <= Weighted(r2, w)
  {
    MulMonotone(r1, r2, w);
  }

  /** Less signal never raises the weighted score. */
  lemma ScoreOnMonotone(st: ScoreState, b1: seq<real>, b2: seq<real>, ir: InvRepeat)
    requires st.Valid() && st.maxOverlap > 0 && |ir.segments| > 0
    requires |b1| == |b2| && SegmentsInWindow(|b1|, st.start, ir.segments)
    requires forall k :: 0 <= k < |b1| ==> b1[k] <= b2[k]
    ensures ScoreOn(st, b1, ir) <= ScoreOn(st, b2, ir)
  {
    RawScoreMonotone(b1, b2, st.start, ir.segments);
    WeightedMonotone(RawScore(b1, st.start, ir.segments), RawScore(b2, st.start, ir.segments),
                     Weight(st.insulators, st.peaks, st.maxOverlap, ir));
  }

  /** `diff -= diff.min()`: every entry shifted down by the minimum. */
  function Baseline(d: seq<real>): (r: seq<real>)
    requires |d| > 0
    ensures |r| == |d|
  {
    var m := MinOf(d);
    seq(|d|, i requires 0 <= i < |d| => d[i] - m)
  }

  /**
   * A baselined window is never negative, reaches zero somewhere, and keeps
   * every difference between two positions of the original.
   */
  lemma BaselineSpec(d: seq<real>)
    requires |d| > 0
    ensures NonNegative(Baseline(d))
    ensures exists i :: 0 <= i < |d| && Baseline(d)[i] == 0.0
    ensures forall i, j :: 0 <= i < |d| && 0 <= j < |d| ==> Baseline(d)[i] - Baseline(d)[j] == d[i] - d[j]
  {
    var i :| 0 <= i < |d| && d[i] == MinOf(d);
    assert Baseline(d)[i] == 0.0;
  }

  /** The insulator endpoints `x for y in insulators for x in y`, in order. */
  function Endpoints(insulators: seq<(int, int)>): (r: seq<int>)
    ensures |r| == 2 * |insulators|
    ensures forall i :: 0 <= i < |insulators| ==> r[2 * i] == insulators[i].0 && r[2 * i + 1] == insulators[i].1
  {
    if insulators == [] then []
    else [insulators[0].0, insulators[0].1] + Endpoints(insulators[1..])
  }

  /** `signal(start, end) - control(start, end)`. */
  function WindowDiff(signal: seq<real>, control: seq<real>, start: int, end: int): (d: seq<real>)
    requires 0 <= start <= end <= |signal| && end <= |control|
    ensures |d| == end - start
    ensures forall i :: 0 <= i < |d| ==> d[i] == signal[start + i] - control[start + i]
  {
    seq(end - start, i requires 0 <= i < end - start => signal[start + i] - control[start + i])
  }

  /** Subtracts `m` from every entry, in place. */
  method ShiftDown(a: array<real>, m: real)
    modifies a
    ensures forall i :: 0 <= i < a.Length ==> a[i] == old(a[i]) - m
  {
    var k := 0;
    while k < a.Length
      invariant 0 <= k <= a.Length
      invariant forall i :: 0 <= i < k ==> a[i] == old(a[i]) - m
      invariant forall i :: k <= i < a.Length ==> a[i] == old(a[i])
    {
      a[k] := a[k] - m;
      k := k + 1;
    }
  }

  /**
   * `ExperimentTracks`: the averaged signal and control of one contig and
   * strand (loading them from bigWig files is not part of this model).
   */
  class ExperimentTracks {
    const signal: seq<real>
    const control: seq<real>

    constructor (signal: seq<real>, control: seq<real>)
      ensures this.signal == signal && this.control == control
    {
      this.signal := signal;
      this.control := control;
    }

    /**
     * `score`: the baselined signal-minus-control difference of the window
     * [start, end) with the sorted insulator endpoints. An empty window has
     * no minimum (`ValueError`).
     */
    method Score(start: int, end: int, insulators: seq<(int, int)>, peaks: seq<Interval>) returns (r: Result<ScoreState>)
      requires 0 <= start <= end <= |signal| && end <= |control|
      ensures r.Err? <==> start == end
      ensures r.Err? ==> r.error == ValueError
      ensures r.Ok? ==>
        var st := r.value;
        fresh(st) && fresh(st.scores) && st.Valid() && st.start == start && st.end == end && st.peaks == peaks &&
        st.scores[..] == Baseline(WindowDiff(signal, control, start, end)) &&
        st.insulators == SortInts(Endpoints(insulators))
    {
      if start == end {
        return Err(ValueError);
      }
      var d := WindowDiff(signal, control, start, end);
      var diff := new real[end - start](i requires 0 <= i < end - start => d[i]);
      assert diff[..] == d;
      ShiftDown(diff, MinOf(d));
      assert diff[..] == Baseline(d);
      var st := new ScoreState(start, end, diff, SortInts(Endpoints(insulators)), peaks);
      return Ok(st);
    }
  }
}
