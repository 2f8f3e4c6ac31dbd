// Scoring of candidate dsRNA against a window of baselined RIP signal
// (stories/RIP/clustering/ld/invrep_scoring.py). The buffer holds the
// signal of genomic positions [origin, origin + |buf|); resolving a repeat
// consumes the signal its arms explain.
module Scoring {
  import opened Common
  import opened Sorting
  import opened Intervals
  import opened InvRepeats

  predicate NonNegative(buf: seq<real>)
  {
    forall k :: 0 <= k < |buf| ==> buf[k] >= 0.0
  }

  predicate InWindow(size: int, origin: int, iv: Interval)
  {
    origin <= iv.start <= iv.end <= origin + size
  }

  predicate SegmentInWindow(size: int, origin: int, seg: Segment)
  {
    InWindow(size, origin, seg.left) && InWindow(size, origin, seg.right) &&
    seg.left.Len() == seg.right.Len()
  }

  predicate SegmentsInWindow(size: int, origin: int, segs: seq<Segment>)
  {
    forall i :: 0 <= i < |segs| ==> SegmentInWindow(size, origin, segs[i])
  }

  /** Buffer index `k` belongs to an arm of `seg`. */
  predicate InArms(origin: int, seg: Segment, k: int)
  {
    seg.left.Contains(origin + k) || seg.right.Contains(origin + k)
  }

  predicate InAnyArms(origin: int, segs: seq<Segment>, k: int)
  {
    exists i :: 0 <= i < |segs| && InArms(origin, segs[i], k)
  }

  /**
   * `_score`: position `i` of the left arm is paired with position `i` from
   * the end of the right arm; a pair explains the smaller of its two signals.
   */
  function Explained(buf: seq<real>, origin: int, seg: Segment): (e: seq<real>)
    requires SegmentInWindow(|buf|, origin, seg)
    ensures |e| == seg.left.Len()
  {
    seq(seg.left.Len(), i requires 0 <= i < seg.left.Len() =>
      RMin(buf[seg.left.start - origin + i], buf[seg.right.end - origin - 1 - i]))
  }

  /** Pair `i` explains the smaller of its two signals: no more than either, and exactly one of them. */
  lemma ExplainedPair(buf: seq<real>, origin: int, seg: Segment, i: int)
    requires SegmentInWindow(|buf|, origin, seg) && 0 <= i < seg.left.Len()
    ensures var e := Explained(buf, origin, seg);
      var l := buf[seg.left.start - origin + i];
      var r := buf[seg.right.end - origin - 1 - i];
      e[i] <= l && e[i] <= r && (e[i] == l || e[i] == r)
  {
    var e := Explained(buf, origin, seg);
    assert e[i] == RMin(buf[seg.left.start - origin + i], buf[seg.right.end - origin - 1 - i]);
  }

  /** Raw score: the signal explained by all segments of the repeat. */
  function RawScore(buf: seq<real>, origin: int, segs: seq<Segment>): real
    requires SegmentsInWindow(|buf|, origin, segs)
  {
    if segs == [] then 0.0
    else RawScore(buf, origin, segs[..|segs| - 1]) + SumReals(Explained(buf, origin, segs[|segs| - 1]))
  }

  /** intervaltree's `overlap_size`: the number of positions two intervals share. */
  function OverlapSize(a: Interval, b: Interval): (r: int)
    ensures r >= 0
    ensures r > 0 <==> Overlaps(a, b)
  {
    if Overlaps(a, b) then Min(a.end, b.end) - Max(a.start, b.start) else 0
  }

  /** Positions of `arm` covered by each peak, summed over the peaks. */
  function PeakOverlap(arm: Interval, peaks: seq<Interval>): (r: int)
    ensures r >= 0
  {
    if peaks == [] then 0
    else OverlapSize(arm, peaks[0]) + PeakOverlap(arm, peaks[1..])
  }

  /** The summed overlap is zero exactly when no peak touches the arm. */
  lemma {:induction false} PeakOverlapZero(arm: Interval, peaks: seq<Interval>)
    ensures PeakOverlap(arm, peaks) == 0 <==> forall i :: 0 <= i < |peaks| ==> !Overlaps(arm, peaks[i])
  {
    if peaks != [] {
      PeakOverlapZero(arm, peaks[1..]);
      assert forall i :: 1 <= i < |peaks| ==> peaks[i] == peaks[1..][i - 1];
    }
  }

  predicate SortedInts(xs: seq<int>)
  {
    forall i, j :: 0 <= i < j < |xs| ==> xs[i] <= xs[j]
  }

  /** `bisect_left`: the first index whose value is not below `x`. */
  function BisectLeft(xs: seq<int>, x: int): (r: nat)
    ensures r <= |xs|
  {
    if xs == [] || x <= xs[0] then 0
    else 1 + BisectLeft(xs[1..], x)
  }

  /** On a sorted list, `BisectLeft` is the insertion point: below it all values are smaller than `x`, from it on none is. */
  lemma {:induction false} BisectLeftSpec(xs: seq<int>, x: int)
    requires SortedInts(xs)
    ensures forall i :: 0 <= i < BisectLeft(xs, x) ==> xs[i] < x
    ensures forall i :: BisectLeft(xs, x) <= i < |xs| ==> x <= xs[i]
  {
    if xs != [] && x > xs[0] {
      BisectLeftSpec(xs[1..], x);
      assert forall i :: 1 <= i < |xs| ==> xs[i] == xs[1..][i - 1];
    }
  }

  lemma BisectLeftMonotone(xs: seq<int>, x: int, y: int)
    requires SortedInts(xs) && x <= y
    ensures BisectLeft(xs, x) <= BisectLeft(xs, y)
  {
    BisectLeftSpec(xs, x);
    BisectLeftSpec(xs, y);
  }

  function Pow2(k: nat): (r: real)
    ensures r >= 1.0
  {
    if k == 0 then 1.0 else 2.0 * Pow2(k - 1)
  }

  /** Down-weighting of distant arms: 1 up to 1000 positions apart, then 1000 / distance. */
  function DistanceWeight(distance: int): (w: real)
    ensures 0.0 < w <= 1.0
    ensures w == 1.0 <==> distance <= 1000
  {
    if distance > 1000 then 1000.0 / (distance as real) else 1.0
  }

  /** Down-weighting of arms separated by insulators: halved per insulator, at most 20 times. */
  function InsulatorWeight(lind: int, rind: int): (w: real)
    ensures 0.0 < w <= 1.0
    ensures w == 1.0 <==> lind == rind
  {
    if lind != rind then
      var k := if rind - lind < 0 then lind - rind else rind - lind;
      var e := if k < 20 then k else 20;
      1.0 / Pow2(e)
    else 1.0
  }

  /** The weight applied to the raw score of `ir` (everything but the signal). */
  function Weight(insulators: seq<int>, peaks: seq<Interval>, maxOverlap: int, ir: InvRepeat): (w: real)
    requires |ir.segments| > 0 && maxOverlap > 0
    ensures w >= 0.0
  {
    var left := LeftBrange(ir);
    var right := RightBrange(ir);
    var pw := PeakWeight(peaks, maxOverlap, ir);
    var dw := DistanceWeight(right.start - left.end);
    var iw := InsulatorWeight(BisectLeft(insulators, left.end), BisectLeft(insulators, right.start));
    MulNonNegative(dw, iw);
    MulNonNegative(pw, dw * iw);
    pw * (dw * iw)
  }

  /** The share of all peak positions that the two arm envelopes cover. */
  function PeakWeight(peaks: seq<Interval>, maxOverlap: int, ir: InvRepeat): (w: real)
    requires |ir.segments| > 0 && maxOverlap > 0
    ensures w >= 0.0
  {
    var overlap := PeakOverlap(LeftBrange(ir), peaks) + PeakOverlap(RightBrange(ir), peaks);
    overlap as real / maxOverlap as real
  }

  lemma MulNonNegative(a: real, b: real)
    requires a >= 0.0 && b >= 0.0
    ensures a * b >= 0.0
  {
  }

  lemma MulMonotone(a: real, b: real, w: real)
    requires a <= b && w >= 0.0
    ensures a * w <= b * w
  {
  }

  lemma StrictMul(a: real, w: real)
    requires a < 1.0 && w > 0.0
    ensures w * a < w
  {
  }

  /** A repeat whose arms touch no peak gets weight zero, and so scores zero. */
  lemma WeightWithoutPeaks(insulators: seq<int>, peaks: seq<Interval>, maxOverlap: int, ir: InvRepeat)
    requires |ir.segments| > 0 && maxOverlap > 0
    requires forall i :: 0 <= i < |peaks| ==> !Overlaps(LeftBrange(ir), peaks[i]) && !Overlaps(RightBrange(ir), peaks[i])
    ensures Weight(insulators, peaks, maxOverlap, ir) == 0.0
  {
    PeakOverlapZero(LeftBrange(ir), peaks);
    PeakOverlapZero(RightBrange(ir), peaks);
    assert PeakWeight(peaks, maxOverlap, ir) == 0.0;
  }

  /**
   * The peak weight is only ever scaled down by distance and insulators: it
   * is kept in full exactly when the arms are at most 1000 apart and no
   * insulator lies between them.
   */
  lemma WeightDownscaling(insulators: seq<int>, peaks: seq<Interval>, maxOverlap: int, ir: InvRepeat)
    requires |ir.segments| > 0 && maxOverlap > 0
    ensures Weight(insulators, peaks, maxOverlap, ir) <= PeakWeight(peaks, maxOverlap, ir)
    ensures PeakWeight(peaks, maxOverlap, ir) > 0.0 ==>
      (Weight(insulators, peaks, maxOverlap, ir) == PeakWeight(peaks, maxOverlap, ir) <==>
         RightBrange(ir).start - LeftBrange(ir).end <= 1000 &&
         BisectLeft(insulators, LeftBrange(ir).end) == BisectLeft(insulators, RightBrange(ir).start))
  {
    var left, right := LeftBrange(ir), RightBrange(ir);
    var pw := PeakWeight(peaks, maxOverlap, ir);
    var dw := DistanceWeight(right.start - left.end);
    var iw := InsulatorWeight(BisectLeft(insulators, left.end), BisectLeft(insulators, right.start));
    var w := Weight(insulators, peaks, maxOverlap, ir);
    assert w == pw * (dw * iw);
    Downscale(w, pw, dw, iw);
  }

  /** Scaling `pw` by two factors in (0, 1] keeps it exactly when both are 1. */
  lemma Downscale(w: real, pw: real, dw: real, iw: real)
    requires w == pw * (dw * iw) && pw >= 0.0 && 0.0 < dw <= 1.0 && 0.0 < iw <= 1.0
    ensures w <= pw
    ensures pw > 0.0 ==> (w == pw <==> dw == 1.0 && iw == 1.0)
  {
    var f := dw * iw;
    MulMonotone(dw, 1.0, iw);
    assert 0.0 < f <= 1.0;
    assert w == pw * f;
    MulMonotone(f, 1.0, pw);
    if dw == 1.0 && iw == 1.0 {
      assert f == 1.0;
    } else {
      assert f < 1.0 by {
        if dw < 1.0 {
          StrictMul(dw, iw);
        } else {
          assert f == iw;
        }
      }
      if pw > 0.0 {
        StrictMul(f, pw);
      }
    }
  }

  lemma {:induction false} RawScoreNonNegative(buf: seq<real>, origin: int, segs: seq<Segment>)
    requires SegmentsInWindow(|buf|, origin, segs) && NonNegative(buf)
    ensures RawScore(buf, origin, segs) >= 0.0
    decreases |segs|
  {
    if segs != [] {
      RawScoreNonNegative(buf, origin, segs[..|segs| - 1]);
      ExplainedNonNegative(buf, origin, segs[|segs| - 1]);
    }
  }

  lemma ExplainedNonNegative(buf: seq<real>, origin: int, seg: Segment)
    requires SegmentInWindow(|buf|, origin, seg) && NonNegative(buf)
    ensures SumReals(Explained(buf, origin, seg)) >= 0.0
  {
    var e := Explained(buf, origin, seg);
    forall i | 0 <= i < |e| ensures e[i] >= 0.0 {
      ExplainedPair(buf, origin, seg, i);
    }
    SumRealsNonNegative(e);
  }

  lemma {:induction false} ExplainedMonotone(b1: seq<real>, b2: seq<real>, origin: int, seg: Segment)
    requires |b1| == |b2| && SegmentInWindow(|b1|, origin, seg)
    requires forall k :: 0 <= k < |b1| ==> b1[k] <= b2[k]
    ensures SumReals(Explained(b1, origin, seg)) <= SumReals(Explained(b2, origin, seg))
  {
    var e1, e2 := Explained(b1, origin, seg), Explained(b2, origin, seg);
    forall i | 0 <= i < |e1| ensures e1[i] <= e2[i] {
      ExplainedPair(b1, origin, seg, i);
      ExplainedPair(b2, origin, seg, i);
      assert b1[seg.left.start - origin + i] <= b2[seg.left.start - origin + i];
      assert b1[seg.right.end - origin - 1 - i] <= b2[seg.right.end - origin - 1 - i];
    }
    SumRealsMonotone(e1, e2);
  }

  /** Less signal never raises the raw score, and so never raises the weighted score. */
  lemma {:induction false} RawScoreMonotone(b1: seq<real>, b2: seq<real>, origin: int, segs: seq<Segment>)
    requires |b1| == |b2| && SegmentsInWindow(|b1|, origin, segs)
    requires forall k :: 0 <= k < |b1| ==> b1[k] <= b2[k]
    ensures RawScore(b1, origin, segs) <= RawScore(b2, origin, segs)
    decreases |segs|
  {
    if segs != [] {
      RawScoreMonotone(b1, b2, origin, segs[..|segs| - 1]);
      ExplainedMonotone(b1, b2, origin, segs[|segs| - 1]);
    }
  }

  // ---------------------------------------------------------------------
  // Resolution: consuming the signal explained by a repeat.

  /**
   * The buffer after one segment is resolved: each arm position loses the
   * signal its pair explained, floored at zero; other positions are unchanged.
   */
  function ResolveSegment(buf: seq<real>, origin: int, seg: Segment): (r: seq<real>)
    requires SegmentInWindow(|buf|, origin, seg)
    ensures |r| == |buf|
  {
    var e := Explained(buf, origin, seg);
    seq(|buf|, k requires 0 <= k < |buf| =>
      if seg.left.Contains(origin + k) then RMax(0.0, buf[k] - e[origin + k - seg.left.start])
      else if seg.right.Contains(origin + k) then RMax(0.0, buf[k] - e[seg.right.end - 1 - (origin + k)])
      else buf[k])
  }

  /** The buffer with the signal of `arm` lowered by `sub` position by position, floored at zero. */
  function SubtractedArm(buf: seq<real>, origin: int, arm: Interval, sub: seq<real>): (r: seq<real>)
    requires InWindow(|buf|, origin, arm) && |sub| == arm.Len()
    ensures |r| == |buf|
  {
    seq(|buf|, k requires 0 <= k < |buf| =>
      if arm.Contains(origin + k) then RMax(0.0, buf[k] - sub[origin + k - arm.start]) else buf[k])
  }

  /**
   * Resolving a segment whose arms do not overlap is lowering the left arm by
   * the explained signal and then the right arm by the same signal reversed.
   */
  lemma ResolveSegmentByArms(buf: seq<real>, origin: int, seg: Segment)
    requires SegmentInWindow(|buf|, origin, seg) && seg.left.end <= seg.right.start
    ensures ResolveSegment(buf, origin, seg) ==
      SubtractedArm(SubtractedArm(buf, origin, seg.left, Explained(buf, origin, seg)), origin, seg.right,
                    Reversed(Explained(buf, origin, seg)))
  {
    var e := Explained(buf, origin, seg);
    var r := SubtractedArm(SubtractedArm(buf, origin, seg.left, e), origin, seg.right, Reversed(e));
    var want := ResolveSegment(buf, origin, seg);
    forall k | 0 <= k < |buf| ensures r[k] == want[k] {
      ResolveByArmsAt(buf, origin, seg, e, k);
    }
  }

  lemma ResolveByArmsAt(buf: seq<real>, origin: int, seg: Segment, e: seq<real>, k: int)
    requires SegmentInWindow(|buf|, origin, seg) && seg.left.end <= seg.right.start
    requires e == Explained(buf, origin, seg) && 0 <= k < |buf|
    ensures SubtractedArm(SubtractedArm(buf, origin, seg.left, e), origin, seg.right, Reversed(e))[k] ==
            ResolveSegment(buf, origin, seg)[k]
  {
    var mid := SubtractedArm(buf, origin, seg.left, e);
    if seg.right.Contains(origin + k) {
      ResolveOnRight(buf, origin, seg, k);
      ByRightArm(buf, origin, seg, e, k);
    } else if seg.left.Contains(origin + k) {
      ResolveOnLeft(buf, origin, seg, k);
      SubtractedInside(buf, origin, seg.left, e, k);
      SubtractedOutside(mid, origin, seg.right, Reversed(e), k);
    } else {
      ResolveOffArms(buf, origin, seg, k);
      SubtractedOutside(buf, origin, seg.left, e, k);
      SubtractedOutside(mid, origin, seg.right, Reversed(e), k);
    }
  }

  /** On the right arm, the left arm's pass changed nothing and the reversed signal lines up with the pairs. */
  lemma ByRightArm(buf: seq<real>, origin: int, seg: Segment, e: seq<real>, k: int)
    requires SegmentInWindow(|buf|, origin, seg) && seg.left.end <= seg.right.start
    requires |e| == seg.left.Len() && 0 <= k < |buf| && seg.right.Contains(origin + k)
    ensures SubtractedArm(SubtractedArm(buf, origin, seg.left, e), origin, seg.right, Reversed(e))[k] ==
            RMax(0.0, buf[k] - e[seg.right.end - 1 - (origin + k)])
  {
    var mid := SubtractedArm(buf, origin, seg.left, e);
    SubtractedOutside(buf, origin, seg.left, e, k);
    var j := origin + k - seg.right.start;
    SubtractedInside(mid, origin, seg.right, Reversed(e), k);
    assert Reversed(e)[j] == e[seg.right.end - 1 - (origin + k)];
  }

  lemma SubtractedInside(buf: seq<real>, origin: int, arm: Interval, sub: seq<real>, k: int)
    requires InWindow(|buf|, origin, arm) && |sub| == arm.Len() && 0 <= k < |buf| && arm.Contains(origin + k)
    ensures SubtractedArm(buf, origin, arm, sub)[k] == RMax(0.0, buf[k] - sub[origin + k - arm.start])
  {
  }

  lemma SubtractedOutside(buf: seq<real>, origin: int, arm: Interval, sub: seq<real>, k: int)
    requires InWindow(|buf|, origin, arm) && |sub| == arm.Len() && 0 <= k < |buf| && !arm.Contains(origin + k)
    ensures SubtractedArm(buf, origin, arm, sub)[k] == buf[k]
  {
  }

  lemma ResolveOnLeft(buf: seq<real>, origin: int, seg: Segment, k: int)
    requires SegmentInWindow(|buf|, origin, seg) && 0 <= k < |buf| && seg.left.Contains(origin + k)
    ensures ResolveSegment(buf, origin, seg)[k] ==
      RMax(0.0, buf[k] - Explained(buf, origin, seg)[origin + k - seg.left.start])
  {
  }

  lemma ResolveOnRight(buf: seq<real>, origin: int, seg: Segment, k: int)
    requires SegmentInWindow(|buf|, origin, seg) && 0 <= k < |buf|
    requires !seg.left.Contains(origin + k) && seg.right.Contains(origin + k)
    ensures ResolveSegment(buf, origin, seg)[k] ==
      RMax(0.0, buf[k] - Explained(buf, origin, seg)[seg.right.end - 1 - (origin + k)])
  {
  }

  lemma ResolveOffArms(buf: seq<real>, origin: int, seg: Segment, k: int)
    requires SegmentInWindow(|buf|, origin, seg) && 0 <= k < |buf| && !InArms(origin, seg, k)
    ensures ResolveSegment(buf, origin, seg)[k] == buf[k]
  {
  }

  /** The buffer after the segments are resolved one after the other. */
  function ResolveAll(buf: seq<real>, origin: int, segs: seq<Segment>): (r: seq<real>)
    requires SegmentsInWindow(|buf|, origin, segs)
    ensures |r| == |buf|
  {
    if segs == [] then buf
    else ResolveSegment(ResolveAll(buf, origin, segs[..|segs| - 1]), origin, segs[|segs| - 1])
  }

  /** The total signal consumed while resolving the segments one after the other. */
  function ResolvedAmount(buf: seq<real>, origin: int, segs: seq<Segment>): real
    requires SegmentsInWindow(|buf|, origin, segs)
  {
    if segs == [] then 0.0
    else ResolvedAmount(buf, origin, segs[..|segs| - 1]) +
         SumReals(Explained(ResolveAll(buf, origin, segs[..|segs| - 1]), origin, segs[|segs| - 1]))
  }

  lemma ResolvedAt(buf: seq<real>, origin: int, seg: Segment, k: int)
    requires SegmentInWindow(|buf|, origin, seg) && NonNegative(buf) && 0 <= k < |buf|
    ensures 0.0 <= ResolveSegment(buf, origin, seg)[k] <= buf[k]
    ensures !InArms(origin, seg, k) ==> ResolveSegment(buf, origin, seg)[k] == buf[k]
  {
    if seg.left.Contains(origin + k) {
      ResolvedInArm(buf, origin, seg, k, origin + k - seg.left.start);
    } else if seg.right.Contains(origin + k) {
      ResolvedInArm(buf, origin, seg, k, seg.right.end - 1 - (origin + k));
    }
  }

  /** Position `k` of an arm, paired by `i`, keeps its signal less what pair `i` explains, floored at zero. */
  lemma ResolvedInArm(buf: seq<real>, origin: int, seg: Segment, k: int, i: int)
    requires SegmentInWindow(|buf|, origin, seg) && NonNegative(buf) && 0 <= k < |buf| && 0 <= i < seg.left.Len()
    requires ResolveSegment(buf, origin, seg)[k] == RMax(0.0, buf[k] - Explained(buf, origin, seg)[i])
    requires k == seg.left.start - origin + i || k == seg.right.end - origin - 1 - i
    ensures 0.0 <= ResolveSegment(buf, origin, seg)[k] <= buf[k]
  {
    ExplainedPair(buf, origin, seg, i);
    var l, r := seg.left.start - origin + i, seg.right.end - origin - 1 - i;
    assert buf[l] >= 0.0 && buf[r] >= 0.0;
  }

  /** Positions outside the segment's arms keep their signal. */
  lemma ResolveSegmentOutside(buf: seq<real>, origin: int, seg: Segment, k: int)
    requires SegmentInWindow(|buf|, origin, seg) && 0 <= k < |buf| && !InArms(origin, seg, k)
    ensures ResolveSegment(buf, origin, seg)[k] == buf[k]
  {
  }

  lemma ResolveSegmentBounds(buf: seq<real>, origin: int, seg: Segment)
    requires SegmentInWindow(|buf|, origin, seg) && NonNegative(buf)
    ensures forall k :: 0 <= k < |buf| ==> 0.0 <= ResolveSegment(buf, origin, seg)[k] <= buf[k]
    ensures forall k :: 0 <= k < |buf| && !InArms(origin, seg, k) ==> ResolveSegment(buf, origin, seg)[k] == buf[k]
  {
    forall k | 0 <= k < |buf|
      ensures 0.0 <= ResolveSegment(buf, origin, seg)[k] <= buf[k]
      ensures !InArms(origin, seg, k) ==> ResolveSegment(buf, origin, seg)[k] == buf[k]
    {
      ResolvedAt(buf, origin, seg, k);
    }
  }

  /**
   * Resolution only lowers the signal, never below zero, and leaves every
   * position outside the repeat's arms untouched.
   */
  lemma {:induction false} ResolveAllBounds(buf: seq<real>, origin: int, segs: seq<Segment>)
    requires SegmentsInWindow(|buf|, origin, segs) && NonNegative(buf)
    ensures forall k :: 0 <= k < |buf| ==> 0.0 <= ResolveAll(buf, origin, segs)[k] <= buf[k]
    ensures forall k :: 0 <= k < |buf| && !InAnyArms(origin, segs, k) ==> ResolveAll(buf, origin, segs)[k] == buf[k]
    decreases |segs|
  {
    if segs != [] {
      var init := segs[..|segs| - 1];
      var last := segs[|segs| - 1];
      ResolveAllBounds(buf, origin, init);
      var mid := ResolveAll(buf, origin, init);
      ResolveSegmentBounds(mid, origin, last);
      forall k | 0 <= k < |buf| && !InAnyArms(origin, segs, k)
        ensures ResolveAll(buf, origin, segs)[k] == buf[k]
      {
        assert !InArms(origin, last, k);
      }
    }
  }

  /** Arms of distinct segments are disjoint, and each left arm precedes its right arm. */
  predicate ArmsDisjoint(segs: seq<Segment>)
  {
    (forall i :: 0 <= i < |segs| ==> segs[i].left.end <= segs[i].right.start) &&
    (forall i, j :: 0 <= i < |segs| && 0 <= j < |segs| && i != j ==>
       !Overlaps(segs[i].left, segs[j].left) && !Overlaps(segs[i].left, segs[j].right) &&
       !Overlaps(segs[i].right, segs[j].right))
  }

  lemma ValidArmsDisjoint(ir: InvRepeat)
    requires ValidRepeat(ir)
    ensures ArmsDisjoint(ir.segments)
  {
    var segs := ir.segments;
    forall i, j | 0 <= i < |segs| && 0 <= j < |segs| && i != j
      ensures !Overlaps(segs[i].left, segs[j].left) && !Overlaps(segs[i].left, segs[j].right) &&
              !Overlaps(segs[i].right, segs[j].right)
    {
      assert ValidSegment(segs[i]) && ValidSegment(segs[j]);
    }
  }

  /** Explained signal depends only on the buffer at the segment's arms. */
  lemma ExplainedFrame(b1: seq<real>, b2: seq<real>, origin: int, seg: Segment)
    requires |b1| == |b2| && SegmentInWindow(|b1|, origin, seg)
    requires forall k :: 0 <= k < |b1| && InArms(origin, seg, k) ==> b1[k] == b2[k]
    ensures Explained(b1, origin, seg) == Explained(b2, origin, seg)
  {
    var e1, e2 := Explained(b1, origin, seg), Explained(b2, origin, seg);
    forall i | 0 <= i < |e1| ensures e1[i] == e2[i] {
      assert InArms(origin, seg, seg.left.start - origin + i);
      assert InArms(origin, seg, seg.right.end - origin - 1 - i);
    }
  }

  /** After a segment is resolved, none of its pairs explains any signal. */
  lemma ResolveSegmentExhausts(buf: seq<real>, origin: int, seg: Segment)
    requires SegmentInWindow(|buf|, origin, seg) && NonNegative(buf)
    requires seg.left.end <= seg.right.start
    ensures forall i :: 0 <= i < seg.left.Len() ==> Explained(ResolveSegment(buf, origin, seg), origin, seg)[i] == 0.0
  {
    forall i | 0 <= i < seg.left.Len()
      ensures Explained(ResolveSegment(buf, origin, seg), origin, seg)[i] == 0.0
    {
      PairExhausted(buf, origin, seg, i);
    }
  }

  /** Pair `i` has nothing left to explain once the segment is resolved. */
  lemma PairExhausted(buf: seq<real>, origin: int, seg: Segment, i: int)
    requires SegmentInWindow(|buf|, origin, seg) && NonNegative(buf)
    requires seg.left.end <= seg.right.start && 0 <= i < seg.left.Len()
    ensures Explained(ResolveSegment(buf, origin, seg), origin, seg)[i] == 0.0
  {
    var r := ResolveSegment(buf, origin, seg);
    var p := seg.left.start - origin + i;
    var q := seg.right.end - origin - 1 - i;
    ExplainedPair(buf, origin, seg, i);
    ResolveOnLeft(buf, origin, seg, p);
    ResolveOnRight(buf, origin, seg, q);
    ExplainedPair(r, origin, seg, i);
  }

  lemma SharedPositionOverlaps(a: Interval, b: Interval, p: int)
    requires a.Contains(p) && b.Contains(p)
    ensures Overlaps(a, b) && Overlaps(b, a)
  {
  }

  /** A buffer position in an arm of one segment lies in no arm of any other segment. */
  lemma ArmsApart(origin: int, segs: seq<Segment>, j: int, k: int)
    requires ArmsDisjoint(segs) && 0 <= j < |segs| && InArms(origin, segs[j], k)
    ensures forall i :: 0 <= i < |segs| && i != j ==> !InArms(origin, segs[i], k)
  {
    forall i | 0 <= i < |segs| && i != j
      ensures !InArms(origin, segs[i], k)
    {
      var p := origin + k;
      if segs[i].left.Contains(p) {
        if segs[j].left.Contains(p) { SharedPositionOverlaps(segs[i].left, segs[j].left, p); }
        else { SharedPositionOverlaps(segs[i].left, segs[j].right, p); }
      } else if segs[i].right.Contains(p) {
        if segs[j].left.Contains(p) { SharedPositionOverlaps(segs[j].left, segs[i].right, p); }
        else { SharedPositionOverlaps(segs[i].right, segs[j].right, p); }
      }
    }
  }

  lemma ArmsDisjointPrefix(segs: seq<Segment>, n: nat)
    requires ArmsDisjoint(segs) && n <= |segs|
    ensures ArmsDisjoint(segs[..n])
  {
    var init := segs[..n];
    assert forall i :: 0 <= i < |init| ==> init[i] == segs[i];
  }

  /** The raw score depends only on the buffer at the segments' arms. */
  lemma {:induction false} RawScoreFrame(b1: seq<real>, b2: seq<real>, origin: int, segs: seq<Segment>)
    requires |b1| == |b2| && SegmentsInWindow(|b1|, origin, segs)
    requires forall k :: 0 <= k < |b1| && InAnyArms(origin, segs, k) ==> b1[k] == b2[k]
    ensures RawScore(b1, origin, segs) == RawScore(b2, origin, segs)
    decreases |segs|
  {
    if segs != [] {
      var init, last := segs[..|segs| - 1], segs[|segs| - 1];
      forall k | 0 <= k < |b1| && InAnyArms(origin, init, k) ensures b1[k] == b2[k] {
        var i :| 0 <= i < |init| && InArms(origin, init[i], k);
        assert InArms(origin, segs[i], k);
      }
      RawScoreFrame(b1, b2, origin, init);
      forall k | 0 <= k < |b1| && InArms(origin, last, k) ensures b1[k] == b2[k] {
        assert InArms(origin, segs[|segs| - 1], k);
      }
      ExplainedFrame(b1, b2, origin, last);
    }
  }

  /** Resolving all but the last segment leaves the last segment's arms untouched. */
  lemma LastArmsUntouched(buf: seq<real>, origin: int, segs: seq<Segment>)
    requires SegmentsInWindow(|buf|, origin, segs) && NonNegative(buf) && ArmsDisjoint(segs) && segs != []
    ensures forall k :: 0 <= k < |buf| && InArms(origin, segs[|segs| - 1], k) ==>
      ResolveAll(buf, origin, segs[..|segs| - 1])[k] == buf[k]
  {
    var n := |segs| - 1;
    var init := segs[..n];
    ResolveAllBounds(buf, origin, init);
    forall k | 0 <= k < |buf| && InArms(origin, segs[n], k)
      ensures !InAnyArms(origin, init, k)
    {
      ArmsApart(origin, segs, n, k);
      forall i | 0 <= i < |init| ensures !InArms(origin, init[i], k) {
        assert init[i] == segs[i];
      }
    }
  }

  /** Resolving the last segment leaves the arms of the earlier segments untouched. */
  lemma InitArmsUntouched(buf: seq<real>, origin: int, segs: seq<Segment>)
    requires SegmentsInWindow(|buf|, origin, segs) && ArmsDisjoint(segs) && segs != []
    ensures forall k :: 0 <= k < |buf| && InAnyArms(origin, segs[..|segs| - 1], k) ==>
      ResolveAll(buf, origin, segs)[k] == ResolveAll(buf, origin, segs[..|segs| - 1])[k]
  {
    var n := |segs| - 1;
    var init := segs[..n];
    var mid := ResolveAll(buf, origin, init);
    forall k | 0 <= k < |buf| && InAnyArms(origin, init, k)
      ensures ResolveSegment(mid, origin, segs[n])[k] == mid[k]
    {
      var i :| 0 <= i < |init| && InArms(origin, init[i], k);
      assert InArms(origin, segs[i], k);
      ArmsApart(origin, segs, i, k);
      assert !InArms(origin, segs[n], k);
      ResolveSegmentOutside(mid, origin, segs[n], k);
    }
  }

  /**
   * `ScoreState.resolve` returns the raw score: on disjoint arms, resolving
   * one segment never changes what a later one explains.
   */
  lemma {:induction false} ResolvedAmountIsRawScore(buf: seq<real>, origin: int, segs: seq<Segment>)
    requires SegmentsInWindow(|buf|, origin, segs) && NonNegative(buf) && ArmsDisjoint(segs)
    ensures ResolvedAmount(buf, origin, segs) == RawScore(buf, origin, segs)
    decreases |segs|
  {
    if segs != [] {
      var n := |segs| - 1;
      var init := segs[..n];
      assert SegmentsInWindow(|buf|, origin, init);
      assert ResolvedAmount(buf, origin, init) == RawScore(buf, origin, init) by {
        ArmsDisjointPrefix(segs, n);
        ResolvedAmountIsRawScore(buf, origin, init);
      }
      assert Explained(ResolveAll(buf, origin, init), origin, segs[n]) == Explained(buf, origin, segs[n]) by {
        LastArmsUntouched(buf, origin, segs);
        ExplainedFrame(ResolveAll(buf, origin, init), buf, origin, segs[n]);
      }
    }
  }

  /** After a repeat with disjoint arms is resolved, it explains no signal at all. */
  lemma {:induction false} ResolveExhausts(buf: seq<real>, origin: int, segs: seq<Segment>)
    requires SegmentsInWindow(|buf|, origin, segs) && NonNegative(buf) && ArmsDisjoint(segs)
    ensures RawScore(ResolveAll(buf, origin, segs), origin, segs) == 0.0
    decreases |segs|
  {
    if segs != [] {
      var n := |segs| - 1;
      var init, last := segs[..n], segs[n];
      assert SegmentsInWindow(|buf|, origin, init);
      var mid := ResolveAll(buf, origin, init);
      var fin := ResolveAll(buf, origin, segs);
      assert RawScore(fin, origin, init) == 0.0 by {
        ArmsDisjointPrefix(segs, n);
        ResolveExhausts(buf, origin, init);
        InitArmsUntouched(buf, origin, segs);
        RawScoreFrame(fin, mid, origin, init);
      }
      assert SumReals(Explained(fin, origin, last)) == 0.0 by {
        ResolveAllBounds(buf, origin, init);
        ResolveSegmentExhausts(mid, origin, last);
        SumRealsZero(Explained(fin, origin, last));
      }
    }
  }

  /** Resolving any repeat never raises the raw score of any other repeat. */
  lemma ResolveLowersScores(buf: seq<real>, origin: int, segs: seq<Segment>, other: seq<Segment>)
    requires SegmentsInWindow(|buf|, origin, segs) && SegmentsInWindow(|buf|, origin, other) && NonNegative(buf)
    ensures RawScore(ResolveAll(buf, origin, segs), origin, other) <= RawScore(buf, origin, other)
  {
    ResolveAllBounds(buf, origin, segs);
    RawScoreMonotone(ResolveAll(buf, origin, segs), buf, origin, other);
  }
}
