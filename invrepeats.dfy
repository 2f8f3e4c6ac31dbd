// Inverted repeats (dsRNA): a list of segments, each pairing a left arm with a
// right arm of equal length that reads it in reverse. The "unrolled"
// coordinate space concatenates the left arms in order; a range of unrolled
// positions is mapped back to genomic coordinates by cropping segments
// symmetrically (`from_dsRNA_coordinates_to_global`).
module InvRepeats {
  import opened Common
  import opened Intervals

  datatype Segment = Segment(left: Interval, right: Interval)

  datatype InvRepeat = InvRepeat(segments: seq<Segment>)

  /** Arms of equal non-zero length, the left arm entirely before the right one. */
  predicate ValidSegment(s: Segment)
  {
    s.left.NonEmpty() && s.left.Len() == s.right.Len() && s.left.end <= s.right.start
  }

  /**
   * A well-formed repeat: at least one segment; left arms ascending, right
   * arms descending, so every later segment is nested inside the earlier ones.
   */
  predicate ValidRepeat(ir: InvRepeat)
  {
    |ir.segments| > 0 &&
    (forall i :: 0 <= i < |ir.segments| ==> ValidSegment(ir.segments[i])) &&
    (forall i, j :: 0 <= i < j < |ir.segments| ==>
       ir.segments[i].left.end <= ir.segments[j].left.start &&
       ir.segments[j].right.end <= ir.segments[i].right.start)
  }

  function LeftBrange(ir: InvRepeat): Interval
    requires |ir.segments| > 0
  {
    Interval(ir.segments[0].left.start, ir.segments[|ir.segments| - 1].left.end)
  }

  function RightBrange(ir: InvRepeat): Interval
    requires |ir.segments| > 0
  {
    Interval(ir.segments[|ir.segments| - 1].right.start, ir.segments[0].right.end)
  }

  function Brange(ir: InvRepeat): Interval
    requires |ir.segments| > 0
  {
    Interval(ir.segments[0].left.start, ir.segments[0].right.end)
  }

  function Lefts(segs: seq<Segment>): (r: seq<Interval>)
    ensures |r| == |segs| && forall i :: 0 <= i < |segs| ==> r[i] == segs[i].left
  {
    if segs == [] then [] else [segs[0].left] + Lefts(segs[1..])
  }

  function RightsReversed(segs: seq<Segment>): (r: seq<Interval>)
    ensures |r| == |segs| && forall i :: 0 <= i < |segs| ==> r[i] == segs[|segs| - 1 - i].right
  {
    if segs == [] then [] else RightsReversed(segs[1..]) + [segs[0].right]
  }

  /** All arms in genomic order: the left arms, then the right arms ascending. */
  function SeqRanges(ir: InvRepeat): seq<Interval>
  {
    Lefts(ir.segments) + RightsReversed(ir.segments)
  }

  /** The blocks of a repeat identify it: `seqranges` is a faithful key. */
  lemma SeqRangesInjective(a: InvRepeat, b: InvRepeat)
    requires SeqRanges(a) == SeqRanges(b)
    ensures a == b
  {
    var n := |a.segments|;
    assert |SeqRanges(a)| == 2 * n && |SeqRanges(b)| == 2 * |b.segments|;
    forall i | 0 <= i < n ensures a.segments[i] == b.segments[i] {
      assert SeqRanges(a)[i] == a.segments[i].left;
      assert SeqRanges(b)[i] == b.segments[i].left;
      assert SeqRanges(a)[n + (n - 1 - i)] == a.segments[i].right;
      assert SeqRanges(b)[n + (n - 1 - i)] == b.segments[i].right;
    }
    assert a.segments == b.segments;
  }

  /** Start of segment `k` in unrolled coordinates: the length of the left arms before it. */
  function Offset(segs: seq<Segment>, k: nat): int
    requires k <= |segs|
  {
    if k == 0 then 0 else Offset(segs, k - 1) + segs[k - 1].left.Len()
  }

  function UnrolledLength(ir: InvRepeat): int
  {
    Offset(ir.segments, |ir.segments|)
  }

  lemma {:induction false} OffsetMonotone(segs: seq<Segment>, j: nat, k: nat)
    requires j <= k <= |segs|
    requires forall i :: 0 <= i < |segs| ==> segs[i].left.NonEmpty()
    ensures Offset(segs, j) <= Offset(segs, k)
    ensures j < k ==> Offset(segs, j) < Offset(segs, k)
    decreases k - j
  {
    if j < k {
      OffsetMonotone(segs, j, k - 1);
    }
  }

  /**
   * The part of segment `k` that falls inside the unrolled range `iv`: the
   * left arm is cut by the same amounts at its start and end as the right arm
   * is cut at its end and start.
   */
  function CropAt(segs: seq<Segment>, k: nat, iv: Interval): seq<Segment>
    requires k < |segs|
  {
    var u := Offset(segs, k);
    var w := u + segs[k].left.Len();
    var a := Max(u, iv.start);
    var b := Min(w, iv.end);
    if a < b then
      var loffset := a - u;
      var roffset := w - b;
      [Segment(Interval(segs[k].left.start + loffset, segs[k].left.end - roffset),
               Interval(segs[k].right.start + roffset, segs[k].right.end - loffset))]
    else []
  }

  function CropPrefix(segs: seq<Segment>, iv: Interval, k: nat): seq<Segment>
    requires k <= |segs|
  {
    if k == 0 then [] else CropPrefix(segs, iv, k - 1) + CropAt(segs, k - 1, iv)
  }

  /** The repeat restricted to the unrolled range `iv`. */
  function Crop(rna: InvRepeat, iv: Interval): InvRepeat
  {
    InvRepeat(CropPrefix(rna.segments, iv, |rna.segments|))
  }

  lemma {:induction false} CropPrefixEmptyBefore(segs: seq<Segment>, iv: Interval, k: nat)
    requires k <= |segs|
    requires forall i :: 0 <= i < |segs| ==> segs[i].left.NonEmpty()
    requires Offset(segs, k) <= iv.start
    ensures CropPrefix(segs, iv, k) == []
  {
    if k > 0 {
      OffsetMonotone(segs, k - 1, k);
      CropPrefixEmptyBefore(segs, iv, k - 1);
    }
  }

  lemma {:induction false} CropPrefixStableAfter(segs: seq<Segment>, iv: Interval, j: nat, k: nat)
    requires j <= k <= |segs|
    requires forall i :: 0 <= i < |segs| ==> segs[i].left.NonEmpty()
    requires iv.end <= Offset(segs, j)
    ensures CropPrefix(segs, iv, k) == CropPrefix(segs, iv, j)
    decreases k - j
  {
    if j < k {
      CropPrefixStableAfter(segs, iv, j, k - 1);
      OffsetMonotone(segs, j, k - 1);
      assert CropAt(segs, k - 1, iv) == [];
    }
  }

  /** A segment lying wholly inside the range is kept unchanged. */
  lemma CropAtWhole(segs: seq<Segment>, k: nat, iv: Interval)
    requires k < |segs|
    requires segs[k].left.NonEmpty()
    requires iv.start <= Offset(segs, k) && Offset(segs, k + 1) <= iv.end
    ensures CropAt(segs, k, iv) == [segs[k]]
  {
  }

  /** Positions of the range that fall within the first `k` segments. */
  function Covering(segs: seq<Segment>, iv: Interval, k: nat): int
    requires k <= |segs|
  {
    Max(0, Min(iv.end, Offset(segs, k)) - iv.start)
  }

  function LeftLen(segs: seq<Segment>): int
  {
    if segs == [] then 0 else LeftLen(segs[..|segs| - 1]) + segs[|segs| - 1].left.Len()
  }

  lemma {:induction false} LeftLenConcat(s: seq<Segment>, t: seq<Segment>)
    ensures LeftLen(s + t) == LeftLen(s) + LeftLen(t)
    decreases |t|
  {
    if t == [] {
      assert s + t == s;
    } else {
      assert (s + t)[..|s + t| - 1] == s + t[..|t| - 1];
      LeftLenConcat(s, t[..|t| - 1]);
    }
  }

  lemma {:induction false} CropPrefixLength(segs: seq<Segment>, iv: Interval, k: nat)
    requires k <= |segs|
    requires forall i :: 0 <= i < |segs| ==> segs[i].left.NonEmpty()
    requires 0 <= iv.start <= iv.end
    ensures LeftLen(CropPrefix(segs, iv, k)) == Covering(segs, iv, k)
  {
    if k > 0 {
      calc {
        LeftLen(CropPrefix(segs, iv, k));
        { LeftLenStep(CropPrefix(segs, iv, k), CropPrefix(segs, iv, k - 1), CropAt(segs, k - 1, iv)); }
        LeftLen(CropPrefix(segs, iv, k - 1)) + LeftLen(CropAt(segs, k - 1, iv));
        { CropPrefixLength(segs, iv, k - 1); CropAtLength(segs, k - 1, iv); }
        Covering(segs, iv, k);
      }
    }
  }

  lemma LeftLenStep(q: seq<Segment>, p: seq<Segment>, c: seq<Segment>)
    requires q == p + c
    ensures LeftLen(q) == LeftLen(p) + LeftLen(c)
  {
    LeftLenConcat(p, c);
  }

  /** Segment `k` contributes the positions of the range that fall inside it. */
  lemma CropAtLength(segs: seq<Segment>, k: nat, iv: Interval)
    requires k < |segs|
    requires segs[k].left.NonEmpty()
    requires iv.start <= iv.end
    ensures LeftLen(CropAt(segs, k, iv)) == Covering(segs, iv, k + 1) - Covering(segs, iv, k)
  {
    var c := CropAt(segs, k, iv);
    assert Offset(segs, k + 1) == Offset(segs, k) + segs[k].left.Len();
    if c != [] {
      assert LeftLen(c) == c[0].left.Len() by {
        assert c[..0] == [];
      }
    }
  }

  /**
   * The cropped repeat covers exactly as many left-arm positions as the range
   * is long (the assertion of invrep_scoring.py on every produced repeat).
   */
  lemma CropLength(rna: InvRepeat, iv: Interval)
    requires ValidRepeat(rna)
    requires 0 <= iv.start <= iv.end <= UnrolledLength(rna)
    ensures LeftLen(Crop(rna, iv).segments) == iv.Len()
  {
    CropPrefixLength(rna.segments, iv, |rna.segments|);
  }

  /** `sub` is `orig` cut symmetrically: trimming `a` off the left arm's start trims `a` off the right arm's end. */
  predicate CroppedFrom(sub: Segment, orig: Segment)
  {
    orig.left.start <= sub.left.start && sub.left.end <= orig.left.end &&
    orig.right.start <= sub.right.start && sub.right.end <= orig.right.end &&
    sub.left.start - orig.left.start == orig.right.end - sub.right.end &&
    orig.left.end - sub.left.end == sub.right.start - orig.right.start
  }

  predicate Nested(c: seq<Segment>)
  {
    forall i, i' :: 0 <= i < i' < |c| ==>
      c[i].left.end <= c[i'].left.start && c[i'].right.end <= c[i].right.start
  }

  /** `x` is a symmetric crop of one of the first `k` segments. */
  predicate CroppedFromSome(x: Segment, segs: seq<Segment>, k: nat)
    requires k <= |segs|
  {
    exists j :: 0 <= j < k && CroppedFrom(x, segs[j])
  }

  /** Every piece of the cropped prefix is a well-formed crop of one of the first `k` segments. */
  lemma {:induction false} CropPrefixFrom(segs: seq<Segment>, iv: Interval, k: nat)
    requires k <= |segs|
    requires ValidRepeat(InvRepeat(segs))
    ensures forall i :: 0 <= i < |CropPrefix(segs, iv, k)| ==>
      ValidSegment(CropPrefix(segs, iv, k)[i]) && CroppedFromSome(CropPrefix(segs, iv, k)[i], segs, k)
  {
    if k > 0 {
      CropPrefixFrom(segs, iv, k - 1);
      var p := CropPrefix(segs, iv, k - 1);
      var c := CropAt(segs, k - 1, iv);
      var q := p + c;
      assert q == CropPrefix(segs, iv, k);
      forall i | 0 <= i < |q|
        ensures ValidSegment(q[i]) && CroppedFromSome(q[i], segs, k)
      {
        if i < |p| {
          assert q[i] == p[i];
          var j :| 0 <= j < k - 1 && CroppedFrom(p[i], segs[j]);
        } else {
          assert q[i] == c[0];
          assert CroppedFrom(c[0], segs[k - 1]);
        }
      }
    }
  }

  /** The pieces of the cropped prefix are nested like the segments they come from. */
  lemma {:induction false} CropPrefixNested(segs: seq<Segment>, iv: Interval, k: nat)
    requires k <= |segs|
    requires ValidRepeat(InvRepeat(segs))
    ensures Nested(CropPrefix(segs, iv, k))
  {
    if k > 0 {
      CropPrefixNested(segs, iv, k - 1);
      CropPrefixFrom(segs, iv, k - 1);
      var p := CropPrefix(segs, iv, k - 1);
      var c := CropAt(segs, k - 1, iv);
      var q := p + c;
      assert q == CropPrefix(segs, iv, k);
      if c != [] {
        assert CroppedFrom(c[0], segs[k - 1]);
        forall i, i' | 0 <= i < i' < |q|
          ensures q[i].left.end <= q[i'].left.start && q[i'].right.end <= q[i].right.start
        {
          if i' < |p| {
            assert q[i] == p[i] && q[i'] == p[i'];
          } else {
            assert q[i] == p[i] && q[i'] == c[0];
            var j :| 0 <= j < k - 1 && CroppedFrom(p[i], segs[j]);
            CropsNested(p[i], c[0], segs[j], segs[k - 1]);
          }
        }
      } else {
        assert q == p;
      }
    }
  }

  /** Crops of two nested segments are nested the same way. */
  lemma CropsNested(x: Segment, y: Segment, sx: Segment, sy: Segment)
    requires CroppedFrom(x, sx) && CroppedFrom(y, sy)
    requires sx.left.end <= sy.left.start && sy.right.end <= sx.right.start
    ensures x.left.end <= y.left.start && y.right.end <= x.right.start
  {
  }

  /**
   * Cropping a well-formed repeat by a non-empty range of its unrolled
   * coordinates yields a well-formed repeat whose segments are symmetric
   * crops of the original segments.
   */
  lemma CropValid(rna: InvRepeat, iv: Interval)
    requires ValidRepeat(rna)
    requires 0 <= iv.start < iv.end <= UnrolledLength(rna)
    ensures ValidRepeat(Crop(rna, iv))
    ensures forall i :: 0 <= i < |Crop(rna, iv).segments| ==>
      CroppedFromSome(Crop(rna, iv).segments[i], rna.segments, |rna.segments|)
  {
    var c := Crop(rna, iv).segments;
    CropPrefixFrom(rna.segments, iv, |rna.segments|);
    CropPrefixNested(rna.segments, iv, |rna.segments|);
    assert |c| > 0 by {
      CropLength(rna, iv);
      assert LeftLen([]) == 0;
    }
    assert ValidRepeat(InvRepeat(c)) by {
      assert Nested(c);
      assert forall i :: 0 <= i < |c| ==> ValidSegment(c[i]);
    }
  }

  /** Range lists accepted by the mapping: non-empty, ascending, non-overlapping. */
  predicate Ordered(ranges: seq<Interval>)
  {
    (forall i :: 0 <= i < |ranges| ==> ranges[i].NonEmpty()) &&
    (forall i, j :: 0 <= i < j < |ranges| ==> ranges[i].end <= ranges[j].start)
  }

  predicate ArmsNonEmpty(segs: seq<Segment>)
  {
    forall i :: 0 <= i < |segs| ==> segs[i].left.NonEmpty()
  }

  /** The cursor of the mapping: segment `ind` spans unrolled `[start, end)`. */
  predicate Cursor(segs: seq<Segment>, start: int, end: int, ind: int)
  {
    0 <= ind < |segs| && start == Offset(segs, ind) && end == Offset(segs, ind + 1)
  }

  /**
   * `from_dsRNA_coordinates_to_global`: each range of unrolled coordinates
   * becomes the repeat cropped to it. The segment cursor (`start`, `end`,
   * `ind`) is carried from one range to the next, as in the original.
   */
  method FromUnrolled(rna: InvRepeat, ranges: seq<Interval>) returns (result: seq<InvRepeat>)
    requires ValidRepeat(rna)
    requires Ordered(ranges)
    requires forall i :: 0 <= i < |ranges| ==> 0 <= ranges[i].start && ranges[i].end <= UnrolledLength(rna)
    ensures |result| == |ranges|
    ensures forall i :: 0 <= i < |ranges| ==> result[i] == Crop(rna, ranges[i])
  {
    assert ArmsNonEmpty(rna.segments);
    result := CropAll(rna, ranges);
  }

  /** The loop of `from_dsRNA_coordinates_to_global` over the ranges, for a repeat whose left arms are non-empty. */
  method CropAll(rna: InvRepeat, ranges: seq<Interval>) returns (result: seq<InvRepeat>)
    requires ArmsNonEmpty(rna.segments) && |rna.segments| > 0
    requires Ordered(ranges)
    requires forall i :: 0 <= i < |ranges| ==> 0 <= ranges[i].start && ranges[i].end <= UnrolledLength(rna)
    ensures |result| == |ranges| && CropsOf(rna, ranges, result)
  {
    var segs := rna.segments;
    result := [];
    var start, end, ind := 0, segs[0].left.Len(), 0;
    var r := 0;
    while r < |ranges|
      invariant 0 <= r <= |ranges|
      invariant Cursor(segs, start, end, ind)
      invariant Behind(ranges, r, start)
      invariant |result| == r && CropsOf(rna, ranges, result)
    {
      NextRange(rna, ranges, r, start);
      var ir;
      ir, start, end, ind := CropNext(rna, ranges[r], start, end, ind);
      CropsSnoc(rna, ranges, result, ir);
      result := result + [ir];
      r := r + 1;
    }
  }

  /** The cursor starts no later than where the last mapped range ends. */
  predicate Behind(ranges: seq<Interval>, r: int, start: int)
  {
    0 <= r <= |ranges| && (if r == 0 then start == 0 else start <= ranges[r - 1].end)
  }

  /** The next range lies ahead of the cursor and within the unrolled repeat. */
  lemma NextRange(rna: InvRepeat, ranges: seq<Interval>, r: int, start: int)
    requires Ordered(ranges) && r < |ranges| && Behind(ranges, r, start)
    requires forall i :: 0 <= i < |ranges| ==> 0 <= ranges[i].start && ranges[i].end <= UnrolledLength(rna)
    ensures start <= ranges[r].start && 0 <= ranges[r].start < ranges[r].end <= UnrolledLength(rna)
  {
    if r > 0 {
      assert ranges[r - 1].end <= ranges[r].start;
    }
  }

  /** Each result so far is the crop of the range at its position. */
  ghost predicate CropsOf(rna: InvRepeat, ranges: seq<Interval>, result: seq<InvRepeat>)
  {
    |result| <= |ranges| && forall i :: 0 <= i < |result| ==> result[i] == Crop(rna, ranges[i])
  }

  lemma CropsSnoc(rna: InvRepeat, ranges: seq<Interval>, result: seq<InvRepeat>, ir: InvRepeat)
    requires CropsOf(rna, ranges, result) && |result| < |ranges| && ir == Crop(rna, ranges[|result|])
    ensures CropsOf(rna, ranges, result + [ir])
  {
  }

  /** One iteration of the mapping: the crop of `iv`, and the advanced cursor. */
  method CropNext(rna: InvRepeat, iv: Interval, start0: int, end0: int, ind0: int)
    returns (ir: InvRepeat, start: int, end: int, ind: int)
    requires ArmsNonEmpty(rna.segments)
    requires 0 <= iv.start < iv.end <= UnrolledLength(rna)
    requires Cursor(rna.segments, start0, end0, ind0) && start0 <= iv.start
    ensures ir == Crop(rna, iv)
    ensures Cursor(rna.segments, start, end, ind) && start <= iv.end
  {
    var segs := rna.segments;
    var n := |segs|;
    start, end, ind := Seek(segs, iv, start0, end0, ind0);
    // Crop the first segment
    var loffset, roffset := iv.start - start, end - Min(iv.end, end);
    var left := Interval(segs[ind].left.start + loffset, segs[ind].left.end - roffset);
    var right := Interval(segs[ind].right.start + roffset, segs[ind].right.end - loffset);
    var cache := [Segment(left, right)];
    CropFirst(segs, iv, start, end, ind);
    assert cache == CropPrefix(segs, iv, ind + 1) by {
      assert CropPrefix(segs, iv, ind + 1) == CropPrefix(segs, iv, ind) + CropAt(segs, ind, iv);
    }
    if ind + 1 == n || iv.end < end {
      CropPrefixStableAfter(segs, iv, ind + 1, n);
      ir := InvRepeat(cache);
      return;
    }
    // Add the segments wholly inside the range
    start, end, ind := end, end + segs[ind + 1].left.Len(), ind + 1;
    cache, start, end, ind := TakeWhole(segs, iv, cache, start, end, ind);
    cache := CropTail(segs, iv, cache, start, end, ind);
    ir := InvRepeat(cache);
  }

  /** Crops the last segment the range reaches into, if it ends inside it. */
  method CropTail(segs: seq<Segment>, iv: Interval, cache0: seq<Segment>, start: int, end: int, ind: int)
    returns (cache: seq<Segment>)
    requires ArmsNonEmpty(segs)
    requires Cursor(segs, start, end, ind)
    requires iv.start <= start <= iv.end <= Offset(segs, |segs|)
    requires cache0 == CropPrefix(segs, iv, ind)
    requires iv.end < end || ind + 1 == |segs|
    ensures cache == CropPrefix(segs, iv, |segs|)
  {
    cache := cache0;
    CropFinish(segs, iv, cache, start, end, ind);
    if start < iv.end <= end {
      var offset := end - iv.end;
      var left := Interval(segs[ind].left.start, segs[ind].left.end - offset);
      var right := Interval(segs[ind].right.start + offset, segs[ind].right.end);
      cache := cache + [Segment(left, right)];
    }
  }

  lemma CropFinish(segs: seq<Segment>, iv: Interval, cache: seq<Segment>, start: int, end: int, ind: int)
    requires ArmsNonEmpty(segs)
    requires Cursor(segs, start, end, ind)
    requires iv.start <= start <= iv.end <= Offset(segs, |segs|)
    requires cache == CropPrefix(segs, iv, ind)
    requires iv.end < end || ind + 1 == |segs|
    ensures start < iv.end <= end ==>
      (CropPrefix(segs, iv, |segs|) == cache +
        [Segment(Interval(segs[ind].left.start, segs[ind].left.end - (end - iv.end)),
                 Interval(segs[ind].right.start + (end - iv.end), segs[ind].right.end))])
    ensures !(start < iv.end <= end) ==> CropPrefix(segs, iv, |segs|) == cache
  {
    var n := |segs|;
    if start < iv.end <= end {
      CropLast(segs, iv, start, end, ind);
      assert CropPrefix(segs, iv, ind + 1) == cache + CropAt(segs, ind, iv);
      CropPrefixStableAfter(segs, iv, ind + 1, n);
    } else if iv.end <= start {
      CropPrefixStableAfter(segs, iv, ind, n);
    }
  }

  lemma CropFirst(segs: seq<Segment>, iv: Interval, start: int, end: int, ind: int)
    requires Cursor(segs, start, end, ind) && start <= iv.start < end && iv.NonEmpty()
    ensures CropAt(segs, ind, iv) ==
      [Segment(Interval(segs[ind].left.start + (iv.start - start), segs[ind].left.end - (end - Min(iv.end, end))),
               Interval(segs[ind].right.start + (end - Min(iv.end, end)), segs[ind].right.end - (iv.start - start)))]
  {
    var u := Offset(segs, ind);
    var w := u + segs[ind].left.Len();
    assert w == end && u == start;
    assert Max(u, iv.start) == iv.start;
    assert Min(w, iv.end) == Min(iv.end, end);
  }

  lemma CropLast(segs: seq<Segment>, iv: Interval, start: int, end: int, ind: int)
    requires Cursor(segs, start, end, ind) && iv.start <= start < iv.end <= end
    ensures CropAt(segs, ind, iv) ==
      [Segment(Interval(segs[ind].left.start, segs[ind].left.end - (end - iv.end)),
               Interval(segs[ind].right.start + (end - iv.end), segs[ind].right.end))]
  {
    var u := Offset(segs, ind);
    var w := u + segs[ind].left.Len();
    assert w == end && u == start;
    assert Max(u, iv.start) == start;
    assert Min(w, iv.end) == iv.end;
  }

  /** The fast-forward loop: advance the cursor to the segment holding `iv.start`. */
  method Seek(segs: seq<Segment>, iv: Interval, start0: int, end0: int, ind0: int)
    returns (start: int, end: int, ind: int)
    requires ArmsNonEmpty(segs)
    requires 0 <= iv.start < iv.end <= Offset(segs, |segs|)
    requires Cursor(segs, start0, end0, ind0) && start0 <= iv.start
    ensures Cursor(segs, start, end, ind) && start <= iv.start < end
    ensures CropPrefix(segs, iv, ind) == []
  {
    var n := |segs|;
    start, end, ind := start0, end0, ind0;
    CropPrefixEmptyBefore(segs, iv, ind);
    while end <= iv.start
      invariant Cursor(segs, start, end, ind)
      invariant start <= iv.start
      invariant CropPrefix(segs, iv, ind) == []
      decreases n - ind
    {
      if ind + 1 == n {
        assert false;
      }
      CropPrefixEmptyBefore(segs, iv, ind + 1);
      start, end, ind := end, end + segs[ind + 1].left.Len(), ind + 1;
    }
  }

  /** The middle loop: append the segments lying wholly inside `iv`. */
  method TakeWhole(segs: seq<Segment>, iv: Interval, cache0: seq<Segment>, start0: int, end0: int, ind0: int)
    returns (cache: seq<Segment>, start: int, end: int, ind: int)
    requires ArmsNonEmpty(segs)
    requires Cursor(segs, start0, end0, ind0)
    requires iv.start <= start0 <= iv.end
    requires cache0 == CropPrefix(segs, iv, ind0)
    ensures Cursor(segs, start, end, ind)
    ensures iv.start <= start <= iv.end
    ensures cache == CropPrefix(segs, iv, ind)
    ensures iv.end < end || ind + 1 == |segs|
  {
    var n := |segs|;
    cache, start, end, ind := cache0, start0, end0, ind0;
    while end <= iv.end && ind + 1 < n
      invariant Cursor(segs, start, end, ind)
      invariant iv.start <= start <= iv.end
      invariant cache == CropPrefix(segs, iv, ind)
      decreases n - ind
    {
      assert segs[ind].left.NonEmpty();
      CropAtWhole(segs, ind, iv);
      cache := cache + [segs[ind]];
      start, end, ind := end, end + segs[ind + 1].left.Len(), ind + 1;
    }
  }
}
