// `utils/repeto.py`: regions of interest (ROIs) grouped by distance per
// contig and orientation, with insulators that split groups and connectors
// that join ROIs and are dropped afterwards; plus the envelope of a partition.
module Repeto {
  import opened Common
  import opened Intervals
  import opened InvRepeats
  import Bed

  type Key = (string, Strand)

  /** A located interval (`IntoLocus`). */
  datatype Locus = Locus(contig: string, orientation: Strand, interval: Interval)

  function KeyOf(l: Locus): Key { (l.contig, l.orientation) }

  function IntervalOf(l: Locus): Interval { l.interval }

  /** `saveto[contig, orientation]`: the intervals of the loci on `key`, in input order. */
  function On(locs: seq<Locus>, key: Key): seq<Interval>
  {
    Bed.Members(locs, KeyOf, IntervalOf, key)
  }

  datatype RepetoGroup = RepetoGroup(contig: string, orientation: Strand, bsegment: Interval, rois: seq<Interval>)

  // ---------------------------------------------------------------------
  // The RepetoGroup invariant

  function MinStart(s: seq<Interval>): int
    requires |s| > 0
  {
    if |s| == 1 then s[0].start else Min(MinStart(s[..|s| - 1]), s[|s| - 1].start)
  }

  function MaxEnd(s: seq<Interval>): int
    requires |s| > 0
  {
    if |s| == 1 then s[0].end else Max(MaxEnd(s[..|s| - 1]), s[|s| - 1].end)
  }

  lemma {:induction false} MinStartSpec(s: seq<Interval>)
    requires |s| > 0
    ensures forall i :: 0 <= i < |s| ==> MinStart(s) <= s[i].start
    ensures exists i :: 0 <= i < |s| && s[i].start == MinStart(s)
  {
    if |s| > 1 {
      var n := |s| - 1;
      MinStartSpec(s[..n]);
      var i :| 0 <= i < n && s[..n][i].start == MinStart(s[..n]);
      if MinStart(s[..n]) <= s[n].start {
        assert s[i].start == MinStart(s);
      } else {
        assert s[n].start == MinStart(s);
      }
      forall j | 0 <= j < |s| ensures MinStart(s) <= s[j].start {
        if j < n {
          assert s[..n][j] == s[j];
        }
      }
    } else {
      assert s[0].start == MinStart(s);
    }
  }

  lemma {:induction false} MaxEndSpec(s: seq<Interval>)
    requires |s| > 0
    ensures forall i :: 0 <= i < |s| ==> s[i].end <= MaxEnd(s)
    ensures exists i :: 0 <= i < |s| && s[i].end == MaxEnd(s)
  {
    if |s| > 1 {
      var n := |s| - 1;
      MaxEndSpec(s[..n]);
      var i :| 0 <= i < n && s[..n][i].end == MaxEnd(s[..n]);
      if MaxEnd(s[..n]) >= s[n].end {
        assert s[i].end == MaxEnd(s);
      } else {
        assert s[n].end == MaxEnd(s);
      }
      forall j | 0 <= j < |s| ensures s[j].end <= MaxEnd(s) {
        if j < n {
          assert s[..n][j] == s[j];
        }
      }
    } else {
      assert s[0].end == MaxEnd(s);
    }
  }

  /** `b` is the hull of `s`: every interval lies inside it and both of its ends are reached. */
  predicate Spans(b: Interval, s: seq<Interval>)
  {
    (forall i :: 0 <= i < |s| ==> b.start <= s[i].start && s[i].end <= b.end) &&
    (exists i :: 0 <= i < |s| && s[i].start == b.start) &&
    (exists i :: 0 <= i < |s| && s[i].end == b.end)
  }

  /** The minimum start and maximum end of a non-empty list span it. */
  lemma HullSpans(s: seq<Interval>)
    requires |s| > 0
    ensures Spans(Interval(MinStart(s), MaxEnd(s)), s)
  {
    MinStartSpec(s);
    MaxEndSpec(s);
  }

  /**
   * `RepetoGroup(...)`: the minimum over no ROI raises ValueError, and a
   * `bsegment` other than (min start, max end) of the ROIs fails the assertion.
   */
  function MakeGroup(contig: string, orientation: Strand, bsegment: Interval, rois: seq<Interval>): Result<RepetoGroup>
  {
    if rois == [] then Err(ValueError)
    else if MinStart(rois) != bsegment.start || MaxEnd(rois) != bsegment.end then Err(AssertionError)
    else Ok(RepetoGroup(contig, orientation, bsegment, rois))
  }

  /** A group can be built exactly when `bsegment` is the hull of its ROIs. */
  lemma MakeGroupSpec(contig: string, orientation: Strand, bsegment: Interval, rois: seq<Interval>)
    ensures MakeGroup(contig, orientation, bsegment, rois).Ok? <==> Spans(bsegment, rois)
    ensures MakeGroup(contig, orientation, bsegment, rois).Ok? ==>
      MakeGroup(contig, orientation, bsegment, rois).value == RepetoGroup(contig, orientation, bsegment, rois)
    ensures rois == [] ==> MakeGroup(contig, orientation, bsegment, rois) == Err(ValueError)
  {
    if rois != [] {
      MinStartSpec(rois);
      MaxEndSpec(rois);
    }
  }

  /** Separated intervals are spanned by the first start and the last end. */
  lemma SeparatedSpans(s: seq<Interval>)
    requires |s| > 0 && Separated(s)
    ensures Spans(Interval(s[0].start, s[|s| - 1].end), s)
  {
    forall i | 0 <= i < |s| ensures s[0].start <= s[i].start && s[i].end <= s[|s| - 1].end {
      if 0 < i {
        assert s[0].end < s[i].start;
      }
      if i < |s| - 1 {
        assert s[i].end < s[|s| - 1].start;
      }
    }
  }

  // ---------------------------------------------------------------------
  // roi_pairs

  /** The index pairs (i, j), i < j < m, with ROI j at most `maxdist` after ROI i. */
  function NearFrom(rois: seq<Interval>, i: int, m: int, maxdist: int): seq<(int, int)>
    requires 0 <= i < |rois| && m <= |rois|
    decreases m
  {
    if m <= i + 1 then []
    else NearFrom(rois, i, m - 1, maxdist) + (if Close(rois, maxdist, (i, m - 1)) then [(i, m - 1)] else [])
  }

  /** The close index pairs whose first index is below `n`, row by row. */
  function NearUpTo(rois: seq<Interval>, n: int, maxdist: int): seq<(int, int)>
    requires 0 <= n <= |rois|
  {
    if n == 0 then [] else NearUpTo(rois, n - 1, maxdist) + NearFrom(rois, n - 1, |rois|, maxdist)
  }

  predicate LexLess(a: (int, int), b: (int, int))
  {
    a.0 < b.0 || (a.0 == b.0 && a.1 < b.1)
  }

  predicate Close(rois: seq<Interval>, maxdist: int, p: (int, int))
  {
    0 <= p.0 < p.1 < |rois| && rois[p.1].start - rois[p.0].end <= maxdist
  }

  lemma NearFromSpec(rois: seq<Interval>, i: int, m: int, maxdist: int)
    requires 0 <= i < |rois| && m <= |rois|
    ensures forall p :: p in NearFrom(rois, i, m, maxdist) <==> p.0 == i && p.1 < m && Close(rois, maxdist, p)
    ensures forall a, b :: 0 <= a < b < |NearFrom(rois, i, m, maxdist)| ==>
      NearFrom(rois, i, m, maxdist)[a].1 < NearFrom(rois, i, m, maxdist)[b].1
  {
    forall p ensures p in NearFrom(rois, i, m, maxdist) <==> p.0 == i && p.1 < m && Close(rois, maxdist, p) {
      NearFromMember(rois, i, m, maxdist, p);
    }
    NearFromOrdered(rois, i, m, maxdist);
  }

  lemma {:induction false} NearFromMember(rois: seq<Interval>, i: int, m: int, maxdist: int, p: (int, int))
    requires 0 <= i < |rois| && m <= |rois|
    ensures p in NearFrom(rois, i, m, maxdist) <==> p.0 == i && p.1 < m && Close(rois, maxdist, p)
    decreases m
  {
    if m > i + 1 {
      NearFromMember(rois, i, m - 1, maxdist, p);
    }
  }

  lemma {:induction false} NearFromOrdered(rois: seq<Interval>, i: int, m: int, maxdist: int)
    requires 0 <= i < |rois| && m <= |rois|
    ensures forall a :: 0 <= a < |NearFrom(rois, i, m, maxdist)| ==>
      NearFrom(rois, i, m, maxdist)[a].0 == i && NearFrom(rois, i, m, maxdist)[a].1 < m
    ensures forall a, b :: 0 <= a < b < |NearFrom(rois, i, m, maxdist)| ==>
      NearFrom(rois, i, m, maxdist)[a].1 < NearFrom(rois, i, m, maxdist)[b].1
    decreases m
  {
    if m > i + 1 {
      NearFromOrdered(rois, i, m - 1, maxdist);
    }
  }

  /**
   * `roi_pairs` yields exactly the close pairs i < j, each once, in list
   * order: the index pairs come out in strictly increasing (i, j) order.
   */
  lemma NearUpToSpec(rois: seq<Interval>, n: int, maxdist: int)
    requires 0 <= n <= |rois|
    ensures forall p :: p in NearUpTo(rois, n, maxdist) <==> p.0 < n && Close(rois, maxdist, p)
    ensures forall a, b :: 0 <= a < b < |NearUpTo(rois, n, maxdist)| ==>
      LexLess(NearUpTo(rois, n, maxdist)[a], NearUpTo(rois, n, maxdist)[b])
  {
    forall p ensures p in NearUpTo(rois, n, maxdist) <==> p.0 < n && Close(rois, maxdist, p) {
      NearUpToMember(rois, n, maxdist, p);
    }
    NearUpToOrdered(rois, n, maxdist);
  }

  lemma NearUpToMember(rois: seq<Interval>, n: int, maxdist: int, p: (int, int))
    requires 0 <= n <= |rois|
    ensures p in NearUpTo(rois, n, maxdist) <==> p.0 < n && Close(rois, maxdist, p)
  {
    if p in NearUpTo(rois, n, maxdist) {
      NearUpToSound(rois, n, maxdist, p);
    }
    if p.0 < n && Close(rois, maxdist, p) {
      NearUpToComplete(rois, n, maxdist, p);
    }
  }

  lemma {:induction false} NearUpToSound(rois: seq<Interval>, n: int, maxdist: int, p: (int, int))
    requires 0 <= n <= |rois| && p in NearUpTo(rois, n, maxdist)
    ensures p.0 < n && Close(rois, maxdist, p)
  {
    assert n > 0;
    var pre := NearUpTo(rois, n - 1, maxdist);
    var row := NearFrom(rois, n - 1, |rois|, maxdist);
    InEither(NearUpTo(rois, n, maxdist), pre, row, p);
    if p in pre {
      NearUpToSound(rois, n - 1, maxdist, p);
    } else {
      NearFromMember(rois, n - 1, |rois|, maxdist, p);
    }
  }

  lemma {:induction false} NearUpToComplete(rois: seq<Interval>, n: int, maxdist: int, p: (int, int))
    requires 0 <= n <= |rois| && p.0 < n && Close(rois, maxdist, p)
    ensures p in NearUpTo(rois, n, maxdist)
  {
    var pre := NearUpTo(rois, n - 1, maxdist);
    var row := NearFrom(rois, n - 1, |rois|, maxdist);
    assert NearUpTo(rois, n, maxdist) == pre + row;
    if p.0 < n - 1 {
      NearUpToComplete(rois, n - 1, maxdist, p);
      assert p in pre;
    } else {
      NearFromMember(rois, n - 1, |rois|, maxdist, p);
      assert p in row;
    }
  }

  lemma InEither(all: seq<(int, int)>, pre: seq<(int, int)>, row: seq<(int, int)>, p: (int, int))
    requires all == pre + row
    ensures p in all <==> p in pre || p in row
  {
  }

  lemma {:induction false} NearUpToOrdered(rois: seq<Interval>, n: int, maxdist: int)
    requires 0 <= n <= |rois|
    ensures forall a :: 0 <= a < |NearUpTo(rois, n, maxdist)| ==> NearUpTo(rois, n, maxdist)[a].0 < n
    ensures forall a, b :: 0 <= a < b < |NearUpTo(rois, n, maxdist)| ==>
      LexLess(NearUpTo(rois, n, maxdist)[a], NearUpTo(rois, n, maxdist)[b])
  {
    if n > 0 {
      NearUpToOrdered(rois, n - 1, maxdist);
      NearFromOrdered(rois, n - 1, |rois|, maxdist);
      LexConcat(NearUpTo(rois, n - 1, maxdist), NearFrom(rois, n - 1, |rois|, maxdist), n - 1);
    }
  }

  /** Rows of pairs in increasing (i, j) order followed by row `i` in increasing j stay in increasing order. */
  lemma LexConcat(pre: seq<(int, int)>, row: seq<(int, int)>, i: int)
    requires forall a :: 0 <= a < |pre| ==> pre[a].0 < i
    requires forall a, b :: 0 <= a < b < |pre| ==> LexLess(pre[a], pre[b])
    requires forall a :: 0 <= a < |row| ==> row[a].0 == i
    requires forall a, b :: 0 <= a < b < |row| ==> row[a].1 < row[b].1
    ensures forall a :: 0 <= a < |pre + row| ==> (pre + row)[a].0 < i + 1
    ensures forall a, b :: 0 <= a < b < |pre + row| ==> LexLess((pre + row)[a], (pre + row)[b])
  {
    var r := pre + row;
    forall a, b | 0 <= a < b < |r| ensures LexLess(r[a], r[b]) {
      if b < |pre| {
        assert r[a] == pre[a] && r[b] == pre[b];
      } else if a < |pre| {
        assert r[a] == pre[a] && r[b] == row[b - |pre|];
      } else {
        assert r[a] == row[a - |pre|] && r[b] == row[b - |pre|];
      }
    }
  }

  /** Every index pair names two of the ROIs. */
  predicate InRange(rois: seq<Interval>, ps: seq<(int, int)>)
  {
    forall k :: 0 <= k < |ps| ==> 0 <= ps[k].0 < |rois| && 0 <= ps[k].1 < |rois|
  }

  /** The ROI pairs named by index pairs. */
  function Pick(rois: seq<Interval>, ps: seq<(int, int)>): seq<(Interval, Interval)>
    requires InRange(rois, ps)
  {
    seq(|ps|, k requires 0 <= k < |ps| => (rois[ps[k].0], rois[ps[k].1]))
  }

  lemma PickAppend(rois: seq<Interval>, xs: seq<(int, int)>, ys: seq<(int, int)>)
    requires InRange(rois, xs) && InRange(rois, ys)
    ensures InRange(rois, xs + ys) && Pick(rois, xs + ys) == Pick(rois, xs) + Pick(rois, ys)
  {
    var zs := xs + ys;
    forall k | 0 <= k < |zs| ensures 0 <= zs[k].0 < |rois| && 0 <= zs[k].1 < |rois| {
      if k >= |xs| {
        assert zs[k] == ys[k - |xs|];
      }
    }
  }

  lemma PickSnoc(rois: seq<Interval>, ps: seq<(int, int)>, i: int, j: int)
    requires InRange(rois, ps) && 0 <= i < |rois| && 0 <= j < |rois|
    ensures InRange(rois, ps + [(i, j)]) && Pick(rois, ps + [(i, j)]) == Pick(rois, ps) + [(rois[i], rois[j])]
  {
    PickAppend(rois, ps, [(i, j)]);
    assert Pick(rois, [(i, j)]) == [(rois[i], rois[j])];
  }

  lemma {:induction false} NearInRange(rois: seq<Interval>, n: int, maxdist: int)
    requires 0 <= n <= |rois|
    ensures InRange(rois, NearUpTo(rois, n, maxdist))
  {
    NearUpToSpec(rois, n, maxdist);
    forall k | 0 <= k < |NearUpTo(rois, n, maxdist)|
      ensures 0 <= NearUpTo(rois, n, maxdist)[k].0 < |rois| && 0 <= NearUpTo(rois, n, maxdist)[k].1 < |rois|
    {
      assert NearUpTo(rois, n, maxdist)[k] in NearUpTo(rois, n, maxdist);
    }
  }

  /** `roi_pairs(maxdist)` as a list. */
  function RoiPairs(g: RepetoGroup, maxdist: int): seq<(Interval, Interval)>
  {
    NearInRange(g.rois, |g.rois|, maxdist);
    Pick(g.rois, NearUpTo(g.rois, |g.rois|, maxdist))
  }

  /** `roi_pairs`: the double loop over i < j. */
  method RoiPairsOf(g: RepetoGroup, maxdist: int) returns (r: seq<(Interval, Interval)>)
    ensures r == RoiPairs(g, maxdist)
  {
    var rois := g.rois;
    r := [];
    ghost var idx: seq<(int, int)> := [];
    var i := 0;
    while i < |rois|
      invariant 0 <= i <= |rois|
      invariant idx == NearUpTo(rois, i, maxdist) && InRange(rois, idx)
      invariant r == Pick(rois, idx)
    {
      var pairs, row := RowPairs(rois, i, maxdist);
      PickAppend(rois, idx, row);
      r := r + pairs;
      idx := idx + row;
      i := i + 1;
    }
  }

  /** The inner loop of `roi_pairs`: ROI `i` with every later ROI at most `maxdist` after it. */
  method RowPairs(rois: seq<Interval>, i: int, maxdist: int) returns (pairs: seq<(Interval, Interval)>, ghost row: seq<(int, int)>)
    requires 0 <= i < |rois|
    ensures row == NearFrom(rois, i, |rois|, maxdist) && InRange(rois, row)
    ensures pairs == Pick(rois, row)
  {
    pairs, row := [], [];
    var j := i + 1;
    while j < |rois|
      invariant i + 1 <= j <= |rois|
      invariant row == NearFrom(rois, i, j, maxdist) && InRange(rois, row)
      invariant pairs == Pick(rois, row)
    {
      if rois[j].start - rois[i].end <= maxdist {
        PickSnoc(rois, row, i, j);
        pairs := pairs + [(rois[i], rois[j])];
        row := row + [(i, j)];
      }
      j := j + 1;
    }
  }

  // ---------------------------------------------------------------------
  // The distance scan of `group`, one contig and orientation

  /** A group under construction or closed: its `bsegment` and its ROIs. */
  type Span = (Interval, seq<Interval>)

  /** The state of the scan: closed groups, the open one (`cache`, `start`, `end`) and the current insulator. */
  datatype Scan = Scan(done: seq<Span>, cache: seq<Interval>, start: int, end: int,
                       insulate: Option<Interval>, pending: seq<Interval>)

  /** biobit's `intersects`: the two intervals share a position. */
  predicate Intersects(a: Interval, b: Interval)
  {
    a.start < b.end && b.start < a.end
  }

  /** The insulator lies wholly between the group end and the ROI. */
  predicate Between(ins: Interval, end: int, roi: Interval)
  {
    end <= ins.start && roi.start >= ins.end
  }

  function Start(rois: seq<Interval>, insulators: seq<Interval>): Scan
    requires |rois| > 0
  {
    Scan([], [rois[0]], rois[0].start, rois[0].end,
         if insulators == [] then None else Some(insulators[0]),
         if insulators == [] then [] else insulators[1..])
  }

  /** `end = roi.end; cache.append(roi)`. */
  function Extend(s: Scan, roi: Interval): Scan
  {
    s.(end := roi.end, cache := s.cache + [roi])
  }

  /** The open group is closed and `roi` opens the next one. */
  function Restart(s: Scan, roi: Interval): Scan
  {
    s.(done := s.done + [(Interval(s.start, s.end), s.cache)], cache := [roi], start := roi.start, end := roi.end)
  }

  /** Fast-forward: the next insulator while `roi` starts at or past the current one's end. */
  function Advance(s: Scan, roi: Interval): (r: Scan)
    ensures r.done == s.done && r.cache == s.cache && r.start == s.start && r.end == s.end
    decreases |s.pending|
  {
    if s.pending != [] && s.insulate.Some? && roi.start >= s.insulate.value.end then
      Advance(s.(insulate := Some(s.pending[0]), pending := s.pending[1..]), roi)
    else s
  }

  /**
   * One ROI, as `group` evidently means it: a far ROI opens a new group; a
   * near one joins unless the current insulator lies wholly in between; an
   * insulator that intersects the ROI or the group is skipped and the ROI
   * joins once.
   */
  function Place(s: Scan, roi: Interval, maxdist: int): Scan
  {
    if roi.start - s.end > maxdist then Restart(s, roi)
    else match s.insulate
      case None => Extend(s, roi)
      case Some(ins) =>
        if Intersects(ins, roi) || Intersects(ins, Interval(s.start, s.end)) then Extend(s, roi)
        else if Between(ins, s.end, roi) then Restart(s, roi)
        else Extend(s, roi)
  }

  /** One ROI as written at utils/repeto.py:72-85: the intersecting branch falls through to the next `if`. */
  function PlaceAsWritten(s: Scan, roi: Interval, maxdist: int): Scan
  {
    if roi.start - s.end > maxdist then Restart(s, roi)
    else match s.insulate
      case None => Extend(s, roi)
      case Some(ins) =>
        var t := if Intersects(ins, roi) || Intersects(ins, Interval(s.start, s.end)) then Extend(s, roi) else s;
        if Between(ins, t.end, roi) then Restart(t, roi) else Extend(t, roi)
  }

  function Run(s: Scan, rois: seq<Interval>, maxdist: int): Scan
  {
    if rois == [] then s
    else
      var n := |rois| - 1;
      Advance(Place(Run(s, rois[..n], maxdist), rois[n], maxdist), rois[n])
  }

  function RunAsWritten(s: Scan, rois: seq<Interval>, maxdist: int): Scan
  {
    if rois == [] then s
    else
      var n := |rois| - 1;
      Advance(PlaceAsWritten(RunAsWritten(s, rois[..n], maxdist), rois[n], maxdist), rois[n])
  }

  /** The closed groups followed by the last open one, which is always emitted. */
  function Closed(s: Scan): seq<Span>
  {
    s.done + [(Interval(s.start, s.end), s.cache)]
  }

  /** The groups of one contig and orientation: merged ROIs and merged insulators. */
  function ContigGroups(rois: seq<Interval>, insulators: seq<Interval>, maxdist: int): seq<Span>
    requires |rois| > 0
  {
    Closed(Run(Start(rois, insulators), rois[1..], maxdist))
  }

  function ContigGroupsAsWritten(rois: seq<Interval>, insulators: seq<Interval>, maxdist: int): seq<Span>
    requires |rois| > 0
  {
    Closed(RunAsWritten(Start(rois, insulators), rois[1..], maxdist))
  }

  // What the scan guarantees.

  /** The ROIs of the groups, group after group. */
  function Flatten(groups: seq<Span>): seq<Interval>
  {
    if groups == [] then [] else Flatten(groups[..|groups| - 1]) + groups[|groups| - 1].1
  }

  function Last(s: seq<Interval>): Interval
    requires |s| > 0
  {
    s[|s| - 1]
  }

  /** Consecutive ROIs of a group lie at most `maxdist` apart. */
  predicate Chained(c: seq<Interval>, maxdist: int)
  {
    forall i {:trigger c[i]} :: 0 < i < |c| ==> c[i].start - c[i - 1].end <= maxdist
  }

  /** A group: separated ROIs chained within `maxdist`, with their hull as `bsegment`. */
  predicate Hull(g: Span, maxdist: int)
  {
    |g.1| > 0 && Separated(g.1) && Chained(g.1, maxdist) && g.0 == Interval(g.1[0].start, Last(g.1).end)
  }

  /** Between a group ending at `end` and ROI `b` lies a cut: too far apart, or an insulator wholly in between. */
  predicate Cut(end: int, b: Interval, insulators: seq<Interval>, maxdist: int)
  {
    b.start - end > maxdist || exists k :: 0 <= k < |insulators| && Between(insulators[k], end, b)
  }

  predicate CutAfter(groups: seq<Span>, j: int, insulators: seq<Interval>, maxdist: int)
  {
    0 <= j < |groups| - 1 && |groups[j].1| > 0 && |groups[j + 1].1| > 0 &&
    Cut(Last(groups[j].1).end, groups[j + 1].1[0], insulators, maxdist)
  }

  /** Every group is well formed and consecutive groups are separated by a cut. */
  predicate WellFormed(groups: seq<Span>, insulators: seq<Interval>, maxdist: int)
  {
    (forall j :: 0 <= j < |groups| ==> Hull(groups[j], maxdist)) &&
    (forall j :: 0 <= j < |groups| - 1 ==> CutAfter(groups, j, insulators, maxdist))
  }

  lemma WellFormedSnoc(groups: seq<Span>, g: Span, insulators: seq<Interval>, maxdist: int)
    requires groups != []
    ensures WellFormed(groups + [g], insulators, maxdist) <==>
      WellFormed(groups, insulators, maxdist) && Hull(g, maxdist) && |groups[|groups| - 1].1| > 0 && |g.1| > 0 &&
      Cut(Last(groups[|groups| - 1].1).end, g.1[0], insulators, maxdist)
  {
    var r := groups + [g];
    assert forall j :: 0 <= j < |groups| ==> r[j] == groups[j];
    assert forall j :: 0 <= j < |groups| - 1 ==> (CutAfter(r, j, insulators, maxdist) <==> CutAfter(groups, j, insulators, maxdist));
    assert CutAfter(r, |groups| - 1, insulators, maxdist) <==>
      |groups[|groups| - 1].1| > 0 && |g.1| > 0 && Cut(Last(groups[|groups| - 1].1).end, g.1[0], insulators, maxdist);
  }

  /** The current insulator only ever holds insulators of the contig. */
  predicate InsulatorHeld(s: Scan, insulators: seq<Interval>)
  {
    (s.insulate.Some? ==> s.insulate.value in insulators) && (forall x :: x in s.pending ==> x in insulators)
  }

  /** The scan has placed the ROIs `placed`, in well-formed groups. */
  predicate Good(s: Scan, placed: seq<Interval>, insulators: seq<Interval>, maxdist: int)
  {
    Flatten(Closed(s)) == placed && WellFormed(Closed(s), insulators, maxdist) && InsulatorHeld(s, insulators)
  }

  lemma AdvanceInsulator(s: Scan, roi: Interval, insulators: seq<Interval>)
    requires InsulatorHeld(s, insulators)
    ensures InsulatorHeld(Advance(s, roi), insulators)
    decreases |s.pending|
  {
    if s.pending != [] && s.insulate.Some? && roi.start >= s.insulate.value.end {
      assert s.pending[0] in s.pending;
      AdvanceInsulator(s.(insulate := Some(s.pending[0]), pending := s.pending[1..]), roi, insulators);
    }
  }

  /** Appending `roi`, which lies past every ROI of the group, keeps it separated. */
  lemma SeparatedSnoc(c: seq<Interval>, roi: Interval)
    requires |c| > 0 && Separated(c) && roi.NonEmpty() && Last(c).end < roi.start
    ensures Separated(c + [roi])
  {
    var r := c + [roi];
    forall i, j | 0 <= i < j < |r| ensures r[i].end < r[j].start {
      if j == |c| && i < |c| - 1 {
        assert c[i].end < c[|c| - 1].start;
      }
    }
  }

  lemma ChainedSnoc(c: seq<Interval>, roi: Interval, maxdist: int)
    requires |c| > 0 && Chained(c, maxdist) && roi.start - Last(c).end <= maxdist
    ensures Chained(c + [roi], maxdist)
  {
    var r := c + [roi];
    forall i | 0 < i < |r| ensures r[i].start - r[i - 1].end <= maxdist {
      if i < |c| {
        assert r[i] == c[i] && r[i - 1] == c[i - 1];
      }
    }
  }

  lemma FlattenSnoc(groups: seq<Span>, g: Span)
    ensures Flatten(groups + [g]) == Flatten(groups) + g.1
  {
    assert (groups + [g])[..|groups|] == groups;
  }

  /** A ROI within `maxdist` past a group's last ROI joins the group and stretches its hull. */
  lemma HullExtend(g: Span, roi: Interval, maxdist: int)
    requires Hull(g, maxdist) && roi.NonEmpty() && Last(g.1).end < roi.start && roi.start - Last(g.1).end <= maxdist
    ensures Hull((Interval(g.0.start, roi.end), g.1 + [roi]), maxdist)
  {
    SeparatedSnoc(g.1, roi);
    ChainedSnoc(g.1, roi, maxdist);
  }

  /** Replacing the last group by one with the same first ROI keeps the groups well formed. */
  lemma WellFormedReplaceLast(done: seq<Span>, g: Span, g': Span, insulators: seq<Interval>, maxdist: int)
    requires WellFormed(done + [g], insulators, maxdist) && Hull(g', maxdist) && |g.1| > 0 && g'.1[0] == g.1[0]
    ensures WellFormed(done + [g'], insulators, maxdist)
  {
    if done != [] {
      WellFormedSnoc(done, g, insulators, maxdist);
      WellFormedSnoc(done, g', insulators, maxdist);
    } else {
      assert WellFormed([g'], insulators, maxdist);
    }
  }

  lemma ExtendFlatten(s: Scan, roi: Interval)
    ensures Flatten(Closed(Extend(s, roi))) == Flatten(Closed(s)) + [roi]
  {
    var g := (Interval(s.start, s.end), s.cache);
    var g' := (Interval(s.start, roi.end), s.cache + [roi]);
    assert Closed(s) == s.done + [g];
    assert Closed(Extend(s, roi)) == s.done + [g'];
    FlattenSnoc(s.done, g);
    FlattenSnoc(s.done, g');
    SnocAfter(Flatten(s.done), s.cache, roi);
  }

  lemma ExtendWellFormed(s: Scan, roi: Interval, insulators: seq<Interval>, maxdist: int)
    requires WellFormed(Closed(s), insulators, maxdist)
    requires roi.NonEmpty() && s.end < roi.start && roi.start - s.end <= maxdist
    ensures WellFormed(Closed(Extend(s, roi)), insulators, maxdist)
  {
    var g := (Interval(s.start, s.end), s.cache);
    var g' := (Interval(s.start, roi.end), s.cache + [roi]);
    assert Closed(s) == s.done + [g];
    assert Closed(Extend(s, roi)) == s.done + [g'];
    assert Hull(g, maxdist) by {
      assert Closed(s)[|s.done|] == g;
    }
    HullExtend(g, roi, maxdist);
    WellFormedReplaceLast(s.done, g, g', insulators, maxdist);
  }

  /** The last placed ROI closes the open group: its end is the group's end. */
  lemma GoodLast(s: Scan, placed: seq<Interval>, insulators: seq<Interval>, maxdist: int)
    requires Good(s, placed, insulators, maxdist)
    ensures placed != [] && Last(placed).end == s.end
  {
    var g := (Interval(s.start, s.end), s.cache);
    assert Closed(s) == s.done + [g];
    assert Hull(g, maxdist) by {
      assert Closed(s)[|s.done|] == g;
    }
    FlattenSnoc(s.done, g);
  }

  lemma ExtendGood(s: Scan, roi: Interval, placed: seq<Interval>, insulators: seq<Interval>, maxdist: int)
    requires Good(s, placed, insulators, maxdist) && placed != []
    requires roi.NonEmpty() && Last(placed).end < roi.start && roi.start - s.end <= maxdist
    ensures Good(Extend(s, roi), placed + [roi], insulators, maxdist)
  {
    GoodLast(s, placed, insulators, maxdist);
    ExtendFlatten(s, roi);
    ExtendWellFormed(s, roi, insulators, maxdist);
  }

  lemma SnocAfter(a: seq<Interval>, b: seq<Interval>, x: Interval)
    ensures a + (b + [x]) == (a + b) + [x]
  {
  }

  lemma RestartGood(s: Scan, roi: Interval, placed: seq<Interval>, insulators: seq<Interval>, maxdist: int)
    requires Good(s, placed, insulators, maxdist) && placed != []
    requires roi.NonEmpty() && Last(placed).end < roi.start
    requires Cut(s.end, roi, insulators, maxdist)
    ensures Good(Restart(s, roi), placed + [roi], insulators, maxdist)
  {
    var t := Restart(s, roi);
    var g := (Interval(s.start, s.end), s.cache);
    var h := (Interval(roi.start, roi.end), [roi]);
    assert Closed(s) == s.done + [g];
    assert Closed(t) == (s.done + [g]) + [h];
    assert Hull(g, maxdist) && Last(g.1).end == s.end by {
      assert Closed(s)[|s.done|] == g;
    }
    assert Flatten(Closed(t)) == placed + [roi] by {
      assert ((s.done + [g]) + [h])[..|s.done| + 1] == s.done + [g];
    }
    assert WellFormed(Closed(t), insulators, maxdist) by {
      assert Hull(h, maxdist);
      WellFormedSnoc(s.done + [g], h, insulators, maxdist);
    }
    assert InsulatorHeld(t, insulators);
  }

  /** Placing the next ROI of a separated list keeps the groups well formed. */
  lemma PlaceGood(s: Scan, roi: Interval, placed: seq<Interval>, insulators: seq<Interval>, maxdist: int)
    requires Good(s, placed, insulators, maxdist) && placed != []
    requires roi.NonEmpty() && Last(placed).end < roi.start
    ensures Good(Advance(Place(s, roi, maxdist), roi), placed + [roi], insulators, maxdist)
  {
    var t := Place(s, roi, maxdist);
    if roi.start - s.end > maxdist {
      RestartGood(s, roi, placed, insulators, maxdist);
    } else if s.insulate.None? {
      ExtendGood(s, roi, placed, insulators, maxdist);
    } else {
      var ins := s.insulate.value;
      if Intersects(ins, roi) || Intersects(ins, Interval(s.start, s.end)) {
        ExtendGood(s, roi, placed, insulators, maxdist);
      } else if Between(ins, s.end, roi) {
        var k :| 0 <= k < |insulators| && insulators[k] == ins;
        RestartGood(s, roi, placed, insulators, maxdist);
      } else {
        ExtendGood(s, roi, placed, insulators, maxdist);
      }
    }
    AdvanceInsulator(t, roi, insulators);
  }

  lemma StartGood(rois: seq<Interval>, insulators: seq<Interval>, maxdist: int)
    requires Separated(rois) && |rois| > 0
    ensures Good(Start(rois, insulators), [rois[0]], insulators, maxdist)
  {
    var s0 := Start(rois, insulators);
    var g := (Interval(rois[0].start, rois[0].end), [rois[0]]);
    assert Closed(s0) == [g];
    assert Flatten([g]) == [rois[0]] by {
      assert [g][..0] == [];
    }
    assert Hull(g, maxdist);
    assert WellFormed([g], insulators, maxdist);
    if insulators != [] {
      assert insulators[0] in insulators;
      assert forall x :: x in insulators[1..] ==> x in insulators;
    }
  }

  lemma RunSnoc(s: Scan, rois: seq<Interval>, roi: Interval, maxdist: int)
    ensures Run(s, rois + [roi], maxdist) == Advance(Place(Run(s, rois, maxdist), roi, maxdist), roi)
  {
    assert (rois + [roi])[..|rois|] == rois;
  }

  lemma RunStep(rois: seq<Interval>, insulators: seq<Interval>, maxdist: int, n: nat)
    requires Separated(rois) && 1 < n <= |rois|
    requires Good(Run(Start(rois, insulators), rois[1..n - 1], maxdist), rois[..n - 1], insulators, maxdist)
    ensures Good(Run(Start(rois, insulators), rois[1..n], maxdist), rois[..n], insulators, maxdist)
  {
    var s0 := Start(rois, insulators);
    var s := Run(s0, rois[1..n - 1], maxdist);
    var roi := rois[n - 1];
    var placed := rois[..n - 1];
    assert Last(placed).end < roi.start && roi.NonEmpty() by {
      assert Last(placed) == rois[n - 2];
    }
    PlaceGood(s, roi, placed, insulators, maxdist);
    SliceSnoc(rois, 1, n);
    RunSnoc(s0, rois[1..n - 1], roi, maxdist);
    SliceSnoc(rois, 0, n);
    assert rois[0..n] == rois[..n] && rois[0..n - 1] == placed;
  }

  lemma SliceSnoc(s: seq<Interval>, a: int, n: int)
    requires 0 <= a < n <= |s|
    ensures s[a..n] == s[a..n - 1] + [s[n - 1]]
  {
  }

  lemma RunFirst(rois: seq<Interval>, insulators: seq<Interval>, maxdist: int)
    requires |rois| > 0
    ensures Run(Start(rois, insulators), rois[1..1], maxdist) == Start(rois, insulators) && rois[..1] == [rois[0]]
  {
    assert rois[1..1] == [];
  }

  lemma {:induction false} RunGood(rois: seq<Interval>, insulators: seq<Interval>, maxdist: int, n: nat)
    requires Separated(rois) && 0 < n <= |rois|
    ensures Good(Run(Start(rois, insulators), rois[1..n], maxdist), rois[..n], insulators, maxdist)
  {
    var s0 := Start(rois, insulators);
    if n == 1 {
      RunFirst(rois, insulators, maxdist);
      StartGood(rois, insulators, maxdist);
    } else {
      RunGood(rois, insulators, maxdist, n - 1);
      RunStep(rois, insulators, maxdist, n);
    }
  }

  /**
   * The groups of a contig partition its merged ROIs in order; each is a
   * run of ROIs at most `maxdist` apart with its hull as `bsegment` (so the
   * RepetoGroup assertion holds), and consecutive groups are too far apart
   * or have an insulator wholly between them.
   */
  lemma ContigGroupsSpec(rois: seq<Interval>, insulators: seq<Interval>, maxdist: int)
    requires Separated(rois) && |rois| > 0
    ensures Flatten(ContigGroups(rois, insulators, maxdist)) == rois
    ensures WellFormed(ContigGroups(rois, insulators, maxdist), insulators, maxdist)
    ensures forall j :: 0 <= j < |ContigGroups(rois, insulators, maxdist)| ==>
      Spans(ContigGroups(rois, insulators, maxdist)[j].0, ContigGroups(rois, insulators, maxdist)[j].1)
  {
    RunGood(rois, insulators, maxdist, |rois|);
    assert rois[..|rois|] == rois;
    var g := ContigGroups(rois, insulators, maxdist);
    forall j | 0 <= j < |g| ensures Spans(g[j].0, g[j].1) {
      assert Hull(g[j], maxdist);
      SeparatedSpans(g[j].1);
    }
  }

  /**
   * As written, a near ROI that the current insulator intersects, or whose
   * group it intersects, joins the group twice.
   */
  lemma PlaceAsWrittenRepeats(s: Scan, roi: Interval, maxdist: int)
    requires roi.NonEmpty() && roi.start - s.end <= maxdist && s.insulate.Some? && s.insulate.value.Valid()
    requires Intersects(s.insulate.value, roi) || Intersects(s.insulate.value, Interval(s.start, s.end))
    ensures PlaceAsWritten(s, roi, maxdist).cache == s.cache + [roi, roi]
    ensures Place(s, roi, maxdist).cache == s.cache + [roi]
  {
  }

  /** Two ROIs ten apart with an insulator over the second one: the second ROI is listed twice. */
  lemma AsWrittenDuplicate()
    ensures ContigGroupsAsWritten([Interval(0, 10), Interval(20, 30)], [Interval(5, 25)], 100) ==
      [(Interval(0, 30), [Interval(0, 10), Interval(20, 30), Interval(20, 30)])]
    ensures ContigGroups([Interval(0, 10), Interval(20, 30)], [Interval(5, 25)], 100) ==
      [(Interval(0, 30), [Interval(0, 10), Interval(20, 30)])]
  {
    var rois := [Interval(0, 10), Interval(20, 30)];
    var s0 := Start(rois, [Interval(5, 25)]);
    assert rois[1..] == [Interval(20, 30)];
    assert [Interval(20, 30)][..0] == [];
    assert s0 == Scan([], [Interval(0, 10)], 0, 10, Some(Interval(5, 25)), []);
    var w := Scan([], [Interval(0, 10), Interval(20, 30), Interval(20, 30)], 0, 30, Some(Interval(5, 25)), []);
    var c := Scan([], [Interval(0, 10), Interval(20, 30)], 0, 30, Some(Interval(5, 25)), []);
    assert PlaceAsWritten(s0, Interval(20, 30), 100) == w;
    assert Place(s0, Interval(20, 30), 100) == c;
    assert RunAsWritten(s0, [Interval(20, 30)], 100) == Advance(w, Interval(20, 30)) == w;
    assert Run(s0, [Interval(20, 30)], 100) == Advance(c, Interval(20, 30)) == c;
  }

  /** `ys` lists the elements of `xs` in order, each once or twice in a row, and nothing else. */
  ghost predicate Stutters(xs: seq<Interval>, ys: seq<Interval>)
    decreases |ys|
  {
    if xs == [] then ys == []
    else
      var x, pre := xs[|xs| - 1], xs[..|xs| - 1];
      |ys| > 0 && ys[|ys| - 1] == x &&
      (Stutters(pre, ys[..|ys| - 1]) || (|ys| > 1 && ys[|ys| - 2] == x && Stutters(pre, ys[..|ys| - 2])))
  }

  /** A listing that stutters lists at least every element and at most twice as many. */
  lemma {:induction false} StuttersLength(xs: seq<Interval>, ys: seq<Interval>)
    requires Stutters(xs, ys)
    ensures |xs| <= |ys| <= 2 * |xs|
    ensures forall y :: y in ys <==> y in xs
    decreases |ys|
  {
    if xs != [] {
      var x, pre := xs[|xs| - 1], xs[..|xs| - 1];
      assert xs == pre + [x];
      if Stutters(pre, ys[..|ys| - 1]) {
        StuttersLength(pre, ys[..|ys| - 1]);
        assert ys == ys[..|ys| - 1] + [x];
      } else {
        StuttersLength(pre, ys[..|ys| - 2]);
        assert ys == ys[..|ys| - 2] + [x, x];
      }
    }
  }

  /** The listing of the groups after closing the open one, as a function of the scan state. */
  function Listed(s: Scan): seq<Interval>
  {
    Flatten(Closed(s))
  }

  /** As written, one ROI adds itself to the listing once or twice. */
  lemma PlaceAsWrittenListed(s: Scan, roi: Interval, maxdist: int)
    ensures var l := Listed(PlaceAsWritten(s, roi, maxdist));
      l == Listed(s) + [roi] || l == Listed(s) + [roi, roi]
  {
    forall t: Scan ensures Listed(Extend(t, roi)) == Listed(t) + [roi] && Listed(Restart(t, roi)) == Listed(t) + [roi] {
      var g := (Interval(t.start, t.end), t.cache);
      FlattenSnoc(t.done, g);
      FlattenSnoc(t.done, (Interval(t.start, roi.end), t.cache + [roi]));
      FlattenSnoc(t.done + [g], (Interval(roi.start, roi.end), [roi]));
      ConcatAssoc(Flatten(t.done), t.cache, [roi]);
    }
  }

  /** As written, the scan lists the ROIs placed so far, each once or twice in a row. */
  lemma {:induction false} RunAsWrittenStutters(s: Scan, first: seq<Interval>, rois: seq<Interval>, maxdist: int)
    requires Stutters(first, Listed(s))
    ensures Stutters(first + rois, Listed(RunAsWritten(s, rois, maxdist)))
    decreases |rois|
  {
    if rois == [] {
      assert first + rois == first;
    } else {
      var n := |rois| - 1;
      RunAsWrittenStutters(s, first, rois[..n], maxdist);
      var t := RunAsWritten(s, rois[..n], maxdist);
      PlaceAsWrittenListed(t, rois[n], maxdist);
      var l := Listed(PlaceAsWritten(t, rois[n], maxdist));
      assert Listed(RunAsWritten(s, rois, maxdist)) == l;
      assert (first + rois)[..|first + rois| - 1] == first + rois[..n];
      if l == Listed(t) + [rois[n]] {
        assert l[..|l| - 1] == Listed(t);
      } else {
        assert l[..|l| - 2] == Listed(t);
      }
    }
  }

  /**
   * The groups of `group` as written list every ROI once or twice in a row,
   * in order, and nothing else: the duplicates are the only difference in
   * what is listed.
   */
  lemma ContigGroupsAsWrittenStutters(rois: seq<Interval>, insulators: seq<Interval>, maxdist: int)
    requires |rois| > 0
    ensures Stutters(rois, Flatten(ContigGroupsAsWritten(rois, insulators, maxdist)))
    ensures |rois| <= |Flatten(ContigGroupsAsWritten(rois, insulators, maxdist))| <= 2 * |rois|
    ensures forall y :: y in Flatten(ContigGroupsAsWritten(rois, insulators, maxdist)) <==> y in rois
  {
    var s := Start(rois, insulators);
    FlattenSnoc([], (Interval(s.start, s.end), s.cache));
    assert Listed(s) == [rois[0]];
    assert [rois[0]][..0] == [];
    assert Stutters([rois[0]], Listed(s));
    RunAsWrittenStutters(s, [rois[0]], rois[1..], maxdist);
    assert [rois[0]] + rois[1..] == rois;
    StuttersLength(rois, Flatten(ContigGroupsAsWritten(rois, insulators, maxdist)));
  }

  /** One pass of the loop body of `group`: place `roi`, then fast-forward the insulators. */
  method PlaceRoi(done0: seq<Span>, cache0: seq<Interval>, start0: int, end0: int,
                  insulate0: Option<Interval>, pending0: seq<Interval>, roi: Interval, maxdist: int)
    returns (done: seq<Span>, cache: seq<Interval>, start: int, end: int, insulate: Option<Interval>, pending: seq<Interval>)
    ensures Scan(done, cache, start, end, insulate, pending) ==
      Advance(Place(Scan(done0, cache0, start0, end0, insulate0, pending0), roi, maxdist), roi)
  {
    done, cache, start, end, insulate, pending := done0, cache0, start0, end0, insulate0, pending0;
    var distance := roi.start - end;
    if distance > maxdist {
      done := done + [(Interval(start, end), cache)];
      cache := [roi];
      start, end := roi.start, roi.end;
    } else if insulate.Some? {
      var ins := insulate.value;
      if Intersects(ins, roi) || Intersects(ins, Interval(start, end)) {
        end := roi.end;
        cache := cache + [roi];
      } else if Between(ins, end, roi) {
        done := done + [(Interval(start, end), cache)];
        cache := [roi];
        start, end := roi.start, roi.end;
      } else {
        end := roi.end;
        cache := cache + [roi];
      }
    } else {
      end := roi.end;
      cache := cache + [roi];
    }
    ghost var placed := Scan(done, cache, start, end, insulate, pending);
    while pending != [] && insulate.Some? && roi.start >= insulate.value.end
      invariant Advance(Scan(done, cache, start, end, insulate, pending), roi) == Advance(placed, roi)
      decreases |pending|
    {
      insulate := Some(pending[0]);
      pending := pending[1..];
    }
  }

  /** The loop of `group` over one contig's merged ROIs; the last open group is always emitted. */
  method ScanContig(rois: seq<Interval>, insulators: seq<Interval>, maxdist: int) returns (groups: seq<Span>)
    requires |rois| > 0
    ensures groups == ContigGroups(rois, insulators, maxdist)
  {
    var done: seq<Span> := [];
    var cache := [rois[0]];
    var start, end := rois[0].start, rois[0].end;
    var insulate: Option<Interval> := if insulators == [] then None else Some(insulators[0]);
    var pending := if insulators == [] then [] else insulators[1..];
    var i := 1;
    while i < |rois|
      invariant 1 <= i <= |rois|
      invariant Scan(done, cache, start, end, insulate, pending) == Run(Start(rois, insulators), rois[1..i], maxdist)
    {
      var roi := rois[i];
      done, cache, start, end, insulate, pending := PlaceRoi(done, cache, start, end, insulate, pending, roi, maxdist);
      SliceSnoc(rois, 1, i + 1);
      RunSnoc(Start(rois, insulators), rois[1..i], roi, maxdist);
      i := i + 1;
    }
    assert rois[1..i] == rois[1..];
    groups := done + [(Interval(start, end), cache)];
  }

  // ---------------------------------------------------------------------
  // Dropping connectors

  /**
   * What becomes of a group once connectors are dropped: kept as it is when
   * no connector of its contig overlaps its `bsegment`; otherwise its ROIs
   * become the merged overlap of the contig's own ROIs with `bsegment`
   * (`bsegment` is not recomputed), and the group is dropped when that is empty.
   */
  function Reset(g: RepetoGroup, rois: seq<Locus>, connectors: seq<Locus>): Option<RepetoGroup>
  {
    var key := (g.contig, g.orientation);
    if On(connectors, key) == [] then Some(g)
    else if OverlapPieces([g.bsegment], On(connectors, key)) == [] then Some(g)
    else
      var narrowed := Merge(OverlapPieces(On(rois, key), [g.bsegment]));
      if narrowed == [] then None else Some(g.(rois := narrowed))
  }

  /** A separated list is empty exactly when it covers nothing. */
  lemma SeparatedEmpty(s: seq<Interval>)
    requires Separated(s)
    ensures s == [] <==> forall p :: !Covered(s, p)
  {
    if s != [] {
      assert s[0].Contains(s[0].start);
      assert Covered(s, s[0].start);
    }
  }

  lemma ResetSpec(g: RepetoGroup, rois: seq<Locus>, connectors: seq<Locus>)
    ensures var key := (g.contig, g.orientation); var r := Reset(g, rois, connectors);
      (r.Some? ==> r.value.contig == g.contig && r.value.orientation == g.orientation && r.value.bsegment == g.bsegment) &&
      ((forall j :: 0 <= j < |On(connectors, key)| ==> !Overlaps(g.bsegment, On(connectors, key)[j])) ==> r == Some(g)) &&
      ((exists j :: 0 <= j < |On(connectors, key)| && Overlaps(g.bsegment, On(connectors, key)[j])) ==>
        (r.None? <==> forall p :: !(Covered(On(rois, key), p) && g.bsegment.Contains(p))) &&
        (r.Some? ==> Separated(r.value.rois)) &&
        (r.Some? ==> forall p :: Covered(r.value.rois, p) <==> Covered(On(rois, key), p) && g.bsegment.Contains(p)))
  {
    var key := (g.contig, g.orientation);
    var conns := On(connectors, key);
    if exists j :: 0 <= j < |conns| && Overlaps(g.bsegment, conns[j]) {
      ResetNarrows(g, rois, connectors);
    } else {
      ResetUntouched(g, rois, connectors);
    }
  }

  /** No connector of the contig overlaps the segment: the group is kept as it is. */
  lemma ResetUntouched(g: RepetoGroup, rois: seq<Locus>, connectors: seq<Locus>)
    requires var conns := On(connectors, (g.contig, g.orientation));
      forall j :: 0 <= j < |conns| ==> !Overlaps(g.bsegment, conns[j])
    ensures Reset(g, rois, connectors) == Some(g)
  {
    var conns := On(connectors, (g.contig, g.orientation));
    if conns != [] {
      var pieces := OverlapPieces([g.bsegment], conns);
      assert pieces == [];
    }
  }

  /** A connector overlaps the segment: the ROIs become the merged ROI pieces inside it, or the group goes. */
  lemma ResetNarrows(g: RepetoGroup, rois: seq<Locus>, connectors: seq<Locus>)
    requires var conns := On(connectors, (g.contig, g.orientation));
      exists j :: 0 <= j < |conns| && Overlaps(g.bsegment, conns[j])
    ensures var key := (g.contig, g.orientation); var r := Reset(g, rois, connectors);
      (r.None? <==> forall p :: !(Covered(On(rois, key), p) && g.bsegment.Contains(p))) &&
      (r.Some? ==> r == Some(g.(rois := Merge(OverlapPieces(On(rois, key), [g.bsegment]))))) &&
      (r.Some? ==> Separated(r.value.rois)) &&
      (r.Some? ==> forall p :: Covered(r.value.rois, p) <==> Covered(On(rois, key), p) && g.bsegment.Contains(p))
  {
    var key := (g.contig, g.orientation);
    var conns := On(connectors, key);
    var j :| 0 <= j < |conns| && Overlaps(g.bsegment, conns[j]);
    var cut := OverlapPieces([g.bsegment], conns);
    assert cut != [] by {
      assert Overlaps([g.bsegment][0], conns[j]);
    }
    var pieces := OverlapPieces(On(rois, key), [g.bsegment]);
    forall p ensures Covered([g.bsegment], p) <==> g.bsegment.Contains(p) {
      if g.bsegment.Contains(p) {
        assert [g.bsegment][0].Contains(p);
      }
    }
    SeparatedEmpty(Merge(pieces));
  }

  /** The groups that survive, in order, with their ROIs reset. */
  function DropConnectors(groups: seq<RepetoGroup>, rois: seq<Locus>, connectors: seq<Locus>): seq<RepetoGroup>
  {
    if groups == [] then []
    else
      var n := |groups| - 1;
      DropConnectors(groups[..n], rois, connectors) +
      (match Reset(groups[n], rois, connectors) case None => [] case Some(h) => [h])
  }

  /** Every surviving group is what one of the groups resets to. */
  lemma {:induction false} DropConnectorsSound(groups: seq<RepetoGroup>, rois: seq<Locus>, connectors: seq<Locus>, h: RepetoGroup)
    requires h in DropConnectors(groups, rois, connectors)
    ensures exists i :: 0 <= i < |groups| && Reset(groups[i], rois, connectors) == Some(h)
  {
    var n := |groups| - 1;
    var last := match Reset(groups[n], rois, connectors) case None => [] case Some(x) => [x];
    assert DropConnectors(groups, rois, connectors) == DropConnectors(groups[..n], rois, connectors) + last;
    if h in DropConnectors(groups[..n], rois, connectors) {
      DropConnectorsSound(groups[..n], rois, connectors, h);
      var i :| 0 <= i < n && Reset(groups[..n][i], rois, connectors) == Some(h);
      assert groups[i] == groups[..n][i];
    } else {
      assert Reset(groups[n], rois, connectors) == Some(h);
    }
  }

  /** Every group that resets to something survives as that. */
  lemma {:induction false} DropConnectorsComplete(groups: seq<RepetoGroup>, rois: seq<Locus>, connectors: seq<Locus>, i: int)
    requires 0 <= i < |groups| && Reset(groups[i], rois, connectors).Some?
    ensures Reset(groups[i], rois, connectors).value in DropConnectors(groups, rois, connectors)
  {
    var n := |groups| - 1;
    var last := match Reset(groups[n], rois, connectors) case None => [] case Some(x) => [x];
    assert DropConnectors(groups, rois, connectors) == DropConnectors(groups[..n], rois, connectors) + last;
    if i < n {
      assert groups[..n][i] == groups[i];
      DropConnectorsComplete(groups[..n], rois, connectors, i);
    }
  }

  /** A group is in the result exactly when it is what one of the groups resets to. */
  lemma DropConnectorsSpec(groups: seq<RepetoGroup>, rois: seq<Locus>, connectors: seq<Locus>)
    ensures forall h :: h in DropConnectors(groups, rois, connectors) <==>
      exists i :: 0 <= i < |groups| && Reset(groups[i], rois, connectors) == Some(h)
  {
    forall h ensures h in DropConnectors(groups, rois, connectors) <==>
      exists i :: 0 <= i < |groups| && Reset(groups[i], rois, connectors) == Some(h)
    {
      if h in DropConnectors(groups, rois, connectors) {
        DropConnectorsSound(groups, rois, connectors, h);
      }
      if exists i :: 0 <= i < |groups| && Reset(groups[i], rois, connectors) == Some(h) {
        var i :| 0 <= i < |groups| && Reset(groups[i], rois, connectors) == Some(h);
        DropConnectorsComplete(groups, rois, connectors, i);
      }
    }
  }

  // ---------------------------------------------------------------------
  // group

  function AsGroups(key: Key, spans: seq<Span>): seq<RepetoGroup>
  {
    seq(|spans|, i requires 0 <= i < |spans| => RepetoGroup(key.0, key.1, spans[i].0, spans[i].1))
  }

  /**
   * One contig and orientation: ROIs merged with connectors, insulators
   * merged, then the scan; merged ROIs that are all empty leave nothing at
   * index 0 (IndexError).
   */
  function ContigResult(key: Key, rois: seq<Locus>, insulators: seq<Locus>, connectors: seq<Locus>, maxdist: int)
    : Result<seq<RepetoGroup>>
  {
    var merged := Merge(On(rois, key) + On(connectors, key));
    if merged == [] then Err(IndexError)
    else Ok(AsGroups(key, ContigGroups(merged, Merge(On(insulators, key)), maxdist)))
  }

  function ScanAll(keys: seq<Key>, rois: seq<Locus>, insulators: seq<Locus>, connectors: seq<Locus>, maxdist: int)
    : Result<seq<RepetoGroup>>
  {
    if keys == [] then Ok([])
    else
      var n := |keys| - 1;
      match ScanAll(keys[..n], rois, insulators, connectors, maxdist)
      case Err(e) => Err(e)
      case Ok(gs) =>
        match ContigResult(keys[n], rois, insulators, connectors, maxdist)
        case Err(e) => Err(e)
        case Ok(more) => Ok(gs + more)
  }

  /** `group`: the scan of every contig and orientation that has ROIs, in order of appearance, then connectors dropped. */
  function Grouped(rois: seq<Locus>, insulators: seq<Locus>, connectors: seq<Locus>, maxdist: int): Result<seq<RepetoGroup>>
  {
    match ScanAll(Bed.KeysIn(rois, KeyOf), rois, insulators, connectors, maxdist)
    case Err(e) => Err(e)
    case Ok(gs) => Ok(DropConnectors(gs, rois, connectors))
  }

  /** Nothing of ROIs and connectors of `key` covers a position. */
  /** Spans that each cover their ROIs become groups on `key` that pass the RepetoGroup assertion. */
  lemma AsGroupsOk(key: Key, spans: seq<Span>)
    requires forall j :: 0 <= j < |spans| ==> Spans(spans[j].0, spans[j].1)
    ensures forall g :: g in AsGroups(key, spans) ==>
      (g.contig, g.orientation) == key && MakeGroup(g.contig, g.orientation, g.bsegment, g.rois).Ok?
  {
    forall g | g in AsGroups(key, spans)
      ensures (g.contig, g.orientation) == key && MakeGroup(g.contig, g.orientation, g.bsegment, g.rois).Ok?
    {
      var i :| 0 <= i < |spans| && AsGroups(key, spans)[i] == g;
      MakeGroupSpec(g.contig, g.orientation, g.bsegment, g.rois);
    }
  }

  ghost predicate Bare(key: Key, rois: seq<Locus>, connectors: seq<Locus>)
  {
    forall p :: !Covered(On(rois, key) + On(connectors, key), p)
  }

  /**
   * The scan fails exactly when some contig's ROIs and connectors cover
   * nothing; otherwise every group it builds passes the RepetoGroup
   * assertion and lies on one of the contigs.
   */
  lemma {:induction false} ScanAllSpec(keys: seq<Key>, rois: seq<Locus>, insulators: seq<Locus>, connectors: seq<Locus>, maxdist: int)
    ensures ScanAll(keys, rois, insulators, connectors, maxdist).Err? <==>
      exists k :: k in keys && Bare(k, rois, connectors)
    ensures ScanAll(keys, rois, insulators, connectors, maxdist).Ok? ==>
      forall g :: g in ScanAll(keys, rois, insulators, connectors, maxdist).value ==>
        (g.contig, g.orientation) in keys && MakeGroup(g.contig, g.orientation, g.bsegment, g.rois).Ok?
  {
    if keys != [] {
      var n := |keys| - 1;
      ScanAllSpec(keys[..n], rois, insulators, connectors, maxdist);
      assert keys == keys[..n] + [keys[n]];
      var key := keys[n];
      var merged := Merge(On(rois, key) + On(connectors, key));
      SeparatedEmpty(merged);
      assert merged == [] <==> Bare(key, rois, connectors);
      if ScanAll(keys, rois, insulators, connectors, maxdist).Ok? {
        var gs := ScanAll(keys[..n], rois, insulators, connectors, maxdist).value;
        var spans := ContigGroups(merged, Merge(On(insulators, key)), maxdist);
        ContigGroupsSpec(merged, Merge(On(insulators, key)), maxdist);
        AsGroupsOk(key, spans);
        assert key in keys;
      }
    }
  }

  lemma {:induction false} ScanAllPrefixErr(keys: seq<Key>, rois: seq<Locus>, insulators: seq<Locus>, connectors: seq<Locus>, maxdist: int, m: nat)
    requires m <= |keys| && ScanAll(keys[..m], rois, insulators, connectors, maxdist).Err?
    ensures ScanAll(keys, rois, insulators, connectors, maxdist) == ScanAll(keys[..m], rois, insulators, connectors, maxdist)
    decreases |keys| - m
  {
    if m < |keys| {
      assert keys[..m + 1][..m] == keys[..m];
      ScanAllPrefixErr(keys, rois, insulators, connectors, maxdist, m + 1);
    } else {
      assert keys[..m] == keys;
    }
  }

  /** `groups` is the dictionary `Bed.Group` builds from `locs`. */
  ghost predicate Indexed(locs: seq<Locus>, groups: map<Key, seq<Interval>>)
  {
    (forall k :: k in groups ==> groups[k] == On(locs, k)) &&
    (forall k :: k in groups <==> exists i :: 0 <= i < |locs| && KeyOf(locs[i]) == k)
  }

  /** `bed.group` keyed by contig and orientation. */
  method Index(locs: seq<Locus>) returns (keys: seq<Key>, groups: map<Key, seq<Interval>>)
    ensures keys == Bed.KeysIn(locs, KeyOf) && Indexed(locs, groups)
  {
    keys, groups := Bed.Group(locs, KeyOf, IntervalOf);
  }

  /** `dict.get(key, [])` on a dictionary built by `Bed.Group`. */
  method Get(locs: seq<Locus>, groups: map<Key, seq<Interval>>, key: Key) returns (r: seq<Interval>)
    requires Indexed(locs, groups)
    ensures r == On(locs, key)
    ensures r == [] <==> key !in groups
  {
    if key in groups {
      var i :| 0 <= i < |locs| && KeyOf(locs[i]) == key;
      Bed.MembersComplete(locs, KeyOf, IntervalOf);
      assert IntervalOf(locs[i]) in On(locs, key);
      r := groups[key];
    } else {
      Bed.MembersAbsent(locs, KeyOf, IntervalOf, key);
      r := [];
    }
  }

  /** The per-contig loop of `group`. */
  method ScanKeys(keys: seq<Key>, rois: seq<Locus>, insulators: seq<Locus>, connectors: seq<Locus>, maxdist: int,
                  byRoi: map<Key, seq<Interval>>, byIns: map<Key, seq<Interval>>, byCon: map<Key, seq<Interval>>)
    returns (r: Result<seq<RepetoGroup>>)
    requires Indexed(rois, byRoi) && Indexed(insulators, byIns) && Indexed(connectors, byCon)
    ensures r == ScanAll(keys, rois, insulators, connectors, maxdist)
  {
    var result: seq<RepetoGroup> := [];
    var i := 0;
    while i < |keys|
      invariant 0 <= i <= |keys|
      invariant ScanAll(keys[..i], rois, insulators, connectors, maxdist) == Ok(result)
    {
      var key := keys[i];
      assert keys[..i + 1][..i] == keys[..i];
      var own := Get(rois, byRoi, key);
      var ins := Get(insulators, byIns, key);
      var con := Get(connectors, byCon, key);
      var merged := Merge(own + con);
      if merged == [] {
        ScanAllPrefixErr(keys, rois, insulators, connectors, maxdist, i + 1);
        return Err(IndexError);
      }
      var spans := ScanContig(merged, Merge(ins), maxdist);
      result := result + AsGroups(key, spans);
      i := i + 1;
    }
    assert keys[..i] == keys;
    return Ok(result);
  }

  /** The connector-dropping loop of `group`. */
  method DropLoop(result: seq<RepetoGroup>, rois: seq<Locus>, connectors: seq<Locus>,
                  byRoi: map<Key, seq<Interval>>, byCon: map<Key, seq<Interval>>)
    returns (kept: seq<RepetoGroup>)
    requires Indexed(rois, byRoi) && Indexed(connectors, byCon)
    ensures kept == DropConnectors(result, rois, connectors)
  {
    kept := [];
    var j := 0;
    while j < |result|
      invariant 0 <= j <= |result|
      invariant kept == DropConnectors(result[..j], rois, connectors)
    {
      assert result[..j + 1][..j] == result[..j];
      var h := ResetOne(result[j], rois, connectors, byRoi, byCon);
      if h.Some? {
        kept := kept + [h.value];
      }
      j := j + 1;
    }
    assert result[..j] == result;
  }

  /** One group of the connector-dropping loop: kept as is, narrowed to its own ROIs, or dropped. */
  method ResetOne(g: RepetoGroup, rois: seq<Locus>, connectors: seq<Locus>,
                  byRoi: map<Key, seq<Interval>>, byCon: map<Key, seq<Interval>>)
    returns (h: Option<RepetoGroup>)
    requires Indexed(rois, byRoi) && Indexed(connectors, byCon)
    ensures h == Reset(g, rois, connectors)
  {
    var key := (g.contig, g.orientation);
    var con := Get(connectors, byCon, key);
    if key !in byCon {
      h := Some(g);
    } else if OverlapPieces([g.bsegment], con) == [] {
      h := Some(g);
    } else {
      var own := Get(rois, byRoi, key);
      var narrowed := Merge(OverlapPieces(own, [g.bsegment]));
      h := if narrowed != [] then Some(g.(rois := narrowed)) else None;
    }
  }

  /** `group`. */
  method GroupRois(rois: seq<Locus>, insulators: seq<Locus>, connectors: seq<Locus>, maxdist: int)
    returns (r: Result<seq<RepetoGroup>>)
    ensures r == Grouped(rois, insulators, connectors, maxdist)
  {
    var keys, byRoi := Index(rois);
    var insKeys, byIns := Index(insulators);
    var conKeys, byCon := Index(connectors);
    var scanned := ScanKeys(keys, rois, insulators, connectors, maxdist, byRoi, byIns, byCon);
    if scanned.Err? {
      return Err(scanned.error);
    }
    var kept := DropLoop(scanned.value, rois, connectors, byRoi, byCon);
    return Ok(kept);
  }

  // ---------------------------------------------------------------------
  // Partition.envelope

  datatype Partition = Partition(ind: string, contig: string, orientation: Strand, invrep: seq<InvRepeat>, peaks: seq<Interval>)

  /** The blocks of the repeats, repeat after repeat. */
  function Blocks(repeats: seq<InvRepeat>): seq<Interval>
  {
    if repeats == [] then [] else Blocks(repeats[..|repeats| - 1]) + SeqRanges(repeats[|repeats| - 1])
  }

  lemma {:induction false} BlocksHas(repeats: seq<InvRepeat>, i: int, x: Interval)
    requires 0 <= i < |repeats| && x in SeqRanges(repeats[i])
    ensures x in Blocks(repeats)
  {
    var n := |repeats| - 1;
    if i < n {
      BlocksHas(repeats[..n], i, x);
    }
  }

  /** `envelope`: min start and max end over the peaks and every repeat block; nothing at all raises ValueError. */
  function Envelope(p: Partition): Result<Interval>
  {
    var all := p.peaks + Blocks(p.invrep);
    if all == [] then Err(ValueError) else Ok(Interval(MinStart(all), MaxEnd(all)))
  }

  /** The envelope is the hull of the peaks and of the blocks of every repeat. */
  lemma EnvelopeSpec(p: Partition)
    ensures Envelope(p).Err? <==> p.peaks == [] && Blocks(p.invrep) == []
    ensures Envelope(p).Ok? ==> Spans(Envelope(p).value, p.peaks + Blocks(p.invrep))
    ensures Envelope(p).Ok? ==> forall i, x :: 0 <= i < |p.invrep| && x in SeqRanges(p.invrep[i]) ==>
      Envelope(p).value.start <= x.start && x.end <= Envelope(p).value.end
  {
    var all := p.peaks + Blocks(p.invrep);
    if all != [] {
      HullSpans(all);
      var e := Interval(MinStart(all), MaxEnd(all));
      assert Envelope(p) == Ok(e);
      forall i, x | 0 <= i < |p.invrep| && x in SeqRanges(p.invrep[i])
        ensures e.start <= x.start && x.end <= e.end
      {
        var k := BlockIndex(p.peaks, p.invrep, i, x);
      }
    }
  }

  /** A block of one of the repeats sits at some index of the peaks followed by the blocks. */
  lemma BlockIndex(peaks: seq<Interval>, repeats: seq<InvRepeat>, i: int, x: Interval) returns (k: int)
    requires 0 <= i < |repeats| && x in SeqRanges(repeats[i])
    ensures 0 <= k < |peaks + Blocks(repeats)| && (peaks + Blocks(repeats))[k] == x
  {
    BlocksHas(repeats, i, x);
    var blocks := Blocks(repeats);
    var j :| 0 <= j < |blocks| && blocks[j] == x;
    k := |peaks| + j;
    assert (peaks + blocks)[k] == blocks[j];
  }
}
