// `filter_segments` (stories/RIP/clustering/ld/invrep_scoring.py): the
// consensus of several samples' solutions on one dsRNA, measured in the
// dsRNA's unrolled coordinates.
module Consensus {
  import opened Common
  import opened Sorting
  import opened Intervals
  import opened InvRepeats
  import opened Decimal

  /** `Interval.intersection`: the shared part, or None when no position is shared. */
  function Intersection(a: Interval, b: Interval): (r: Option<Interval>)
    ensures r.Some? ==> r.value.NonEmpty()
    ensures r.Some? ==> forall p :: r.value.Contains(p) <==> a.Contains(p) && b.Contains(p)
    ensures r.None? ==> forall p :: !(a.Contains(p) && b.Contains(p))
  {
    var s := Max(a.start, b.start);
    var e := Min(a.end, b.end);
    if s < e then Some(Interval(s, e)) else None
  }

  function SortIntervals(s: seq<Interval>): (r: seq<Interval>)
    ensures |r| == |s|
  {
    IntervalLePreorder();
    SortBy(s, IntervalLe)
  }

  /** Sorting intervals yields them in tuple order, each as often as before. */
  lemma SortIntervalsOrdered(s: seq<Interval>)
    ensures multiset(SortIntervals(s)) == multiset(s)
    ensures SortedBy(SortIntervals(s), IntervalLe)
  {
    IntervalLePreorder();
  }

  /** The left arms of every segment of every solution. */
  function SolutionLefts(solutions: seq<InvRepeat>): seq<Interval>
  {
    if solutions == [] then [] else SolutionLefts(solutions[..|solutions| - 1]) + Lefts(solutions[|solutions| - 1].segments)
  }

  /** A genomic interval inside the left arm of `seg` moved to unrolled coordinates, the arm starting at `pos`. */
  function Shifted(ov: Interval, seg: Segment, pos: int): Interval
  {
    Interval(ov.start - seg.left.start + pos, ov.end - seg.left.start + pos)
  }

  /** What one segment contributes to `mapped`: its left arm's overlap with each solution, in order. */
  function ProjectOne(seg: Segment, sols: seq<Interval>, pos: int): seq<Interval>
  {
    if sols == [] then [] else ProjectOne(seg, sols[..|sols| - 1], pos) + Hit(seg, sols[|sols| - 1], pos)
  }

  /** The shifted overlap of the left arm with one solution, if any. */
  function Hit(seg: Segment, sol: Interval, pos: int): seq<Interval>
  {
    match Intersection(seg.left, sol)
    case Some(ov) => [Shifted(ov, seg, pos)]
    case None => []
  }

  /** `mapped` after the first `n` segments. */
  function Projected(segs: seq<Segment>, sols: seq<Interval>, n: nat): seq<Interval>
    requires n <= |segs|
  {
    if n == 0 then [] else Projected(segs, sols, n - 1) + ProjectOne(segs[n - 1], sols, Offset(segs, n - 1))
  }

  /**
   * An unrolled position is covered by the projection of a segment exactly
   * when the genomic position it stands for is in that segment's left arm
   * and in some solution.
   */
  lemma {:induction false} ProjectOneCovers(seg: Segment, sols: seq<Interval>, pos: int, q: int)
    ensures var g := q - pos + seg.left.start;
      Covered(ProjectOne(seg, sols, pos), q) <==> seg.left.Contains(g) && Covered(sols, g)
    decreases |sols|
  {
    var g := q - pos + seg.left.start;
    if sols != [] {
      var init, last := sols[..|sols| - 1], sols[|sols| - 1];
      ProjectOneCovers(seg, init, pos, q);
      var tail := Hit(seg, last, pos);
      CoveredConcat(ProjectOne(seg, init, pos), tail, q);
      assert sols == init + [last];
      CoveredConcat(init, [last], g);
      if last.Contains(g) { assert [last][0].Contains(g); }
      if Covered([last], g) { assert last.Contains(g); }
      if Covered(tail, q) { assert tail[0].Contains(q); }
      if seg.left.Contains(g) && last.Contains(g) { assert tail[0].Contains(q); }
    }
  }

  /** Every projected interval is non-empty and lies inside its segment's stretch of unrolled coordinates. */
  lemma {:induction false} ProjectOneWithin(seg: Segment, sols: seq<Interval>, pos: int)
    ensures forall i :: 0 <= i < |ProjectOne(seg, sols, pos)| ==>
      var x := ProjectOne(seg, sols, pos)[i];
      x.NonEmpty() && pos <= x.start && x.end <= pos + seg.left.Len()
    decreases |sols|
  {
    if sols != [] {
      ProjectOneWithin(seg, sols[..|sols| - 1], pos);
      var ov := Intersection(seg.left, sols[|sols| - 1]);
      if ov.Some? {
        assert seg.left.Contains(ov.value.start) && seg.left.Contains(ov.value.end - 1);
      }
    }
  }

  lemma {:induction false} ProjectedWithin(segs: seq<Segment>, sols: seq<Interval>, n: nat)
    requires n <= |segs| && ArmsNonEmpty(segs)
    ensures forall i :: 0 <= i < |Projected(segs, sols, n)| ==>
      var x := Projected(segs, sols, n)[i];
      x.NonEmpty() && 0 <= x.start && x.end <= Offset(segs, n)
    decreases n
  {
    if n > 0 {
      ProjectedWithin(segs, sols, n - 1);
      ProjectOneWithin(segs[n - 1], sols, Offset(segs, n - 1));
      OffsetMonotone(segs, 0, n - 1);
    }
  }

  /** The left-arm overlaps of all segments, shifted into unrolled coordinates. */
  method Project(rna: InvRepeat, sols: seq<Interval>) returns (mapped: seq<Interval>)
    ensures mapped == Projected(rna.segments, sols, |rna.segments|)
  {
    var segs := rna.segments;
    mapped := [];
    var pos := 0;
    var n := 0;
    while n < |segs|
      invariant 0 <= n <= |segs|
      invariant pos == Offset(segs, n)
      invariant mapped == Projected(segs, sols, n)
    {
      var seg := segs[n];
      var j := 0;
      while j < |sols|
        invariant 0 <= j <= |sols|
        invariant mapped == Projected(segs, sols, n) + ProjectOne(seg, sols[..j], pos)
      {
        var ov := Intersection(seg.left, sols[j]);
        if ov.Some? {
          mapped := mapped + [Shifted(ov.value, seg, pos)];
        }
        assert sols[..j + 1][..j] == sols[..j];
        j := j + 1;
      }
      assert sols[..j] == sols;
      pos := pos + seg.left.Len();
      n := n + 1;
    }
  }

  /** The number of mapped fragments that share a position with `iv` (`x.intersects(interval)`). */
  function Support(mapped: seq<Interval>, iv: Interval): nat
  {
    if mapped == [] then 0
    else Support(mapped[..|mapped| - 1], iv) + (if Overlaps(mapped[|mapped| - 1], iv) then 1 else 0)
  }

  /** The distinct values of an ascending sequence, strictly ascending. */
  function Dedup(s: seq<int>): (r: seq<int>)
    requires forall i, j :: 0 <= i < j < |s| ==> s[i] <= s[j]
    ensures Ascending(r)
    ensures |s| > 0 ==> |r| > 0 && r[|r| - 1] == s[|s| - 1]
  {
    if |s| <= 1 then s
    else
      var r := Dedup(s[..|s| - 1]);
      if s[|s| - 1] == s[|s| - 2] then r
      else
        assert forall i :: 0 <= i < |r| ==> r[i] <= r[|r| - 1];
        r + [s[|s| - 1]]
  }

  /** Deduplication keeps exactly the values of the list. */
  lemma {:induction false} DedupMembers(s: seq<int>)
    requires forall i, j :: 0 <= i < j < |s| ==> s[i] <= s[j]
    ensures forall x :: x in Dedup(s) <==> x in s
  {
    if |s| > 1 {
      var p := s[..|s| - 1];
      DedupMembers(p);
      assert s == p + [s[|s| - 1]];
      assert s[|s| - 2] in p;
    }
  }

  /** `sorted(set(...))`: the distinct values, strictly ascending. */
  function SortedSet(s: seq<int>): (r: seq<int>)
    ensures Ascending(r)
  {
    Dedup(SortInts(s))
  }

  /** `sorted(set(...))` has exactly the values of the list. */
  lemma SortedSetMembers(s: seq<int>)
    ensures forall x :: x in SortedSet(s) <==> x in s
  {
    var t := SortInts(s);
    DedupMembers(t);
    forall x ensures x in t <==> x in s {
      assert x in t <==> x in multiset(t);
    }
  }

  /** Every start and end of the mapped fragments (`chain.from_iterable((x.start, x.end) ...)`). */
  function EndpointList(mapped: seq<Interval>): (r: seq<int>)
    ensures |r| == 2 * |mapped|
  {
    if mapped == [] then []
    else
      EndpointList(mapped[..|mapped| - 1]) + [mapped[|mapped| - 1].start, mapped[|mapped| - 1].end]
  }

  /** The endpoint list holds exactly the starts and ends of the fragments. */
  lemma {:induction false} EndpointMembers(mapped: seq<Interval>)
    ensures forall x :: x in EndpointList(mapped) <==>
      exists i :: 0 <= i < |mapped| && (x == mapped[i].start || x == mapped[i].end)
  {
    if mapped != [] {
      var p := mapped[..|mapped| - 1];
      EndpointMembers(p);
      assert forall i :: 0 <= i < |p| ==> p[i] == mapped[i];
    }
  }

  /** The elementary piece between boundary `i` and the next one. */
  function Piece(bounds: seq<int>, i: int): Interval
    requires 0 <= i < |bounds| - 1
  {
    Interval(bounds[i], bounds[i + 1])
  }

  predicate Ascending(bounds: seq<int>)
  {
    forall i, j :: 0 <= i < j < |bounds| ==> bounds[i] < bounds[j]
  }

  /** Some elementary piece is supported by at least `minSamples` fragments. */
  predicate AnyReplicated(mapped: seq<Interval>, bounds: seq<int>, minSamples: int)
  {
    exists i :: 0 <= i < |bounds| - 1 && Support(mapped, Piece(bounds, i)) >= minSamples
  }

  /** The `replicated` table after the first `i` elementary pieces. */
  function Table(mapped: seq<Interval>, bounds: seq<int>, minSamples: int, i: nat): map<int, seq<Interval>>
    requires i <= Max(0, |bounds| - 1)
  {
    if i == 0 then map[]
    else
      var table := Table(mapped, bounds, minSamples, i - 1);
      var piece := Piece(bounds, i - 1);
      var count := Support(mapped, piece);
      if count < minSamples then table
      else table[count := (if count in table then table[count] else []) + [piece]]
  }

  /** Every entry of the table is a replicated piece among the first `i`, filed under its support. */
  lemma {:induction false} TableSound(mapped: seq<Interval>, bounds: seq<int>, minSamples: int, i: nat, k: int, iv: Interval)
    requires i <= Max(0, |bounds| - 1)
    requires k in Table(mapped, bounds, minSamples, i) && iv in Table(mapped, bounds, minSamples, i)[k]
    ensures k >= minSamples && Support(mapped, iv) == k
    ensures exists t :: 0 <= t < i && iv == Piece(bounds, t)
  {
    var table := Table(mapped, bounds, minSamples, i - 1);
    var piece := Piece(bounds, i - 1);
    var count := Support(mapped, piece);
    if count >= minSamples && k == count && iv == piece {
    } else {
      assert k in table && iv in table[k];
      TableSound(mapped, bounds, minSamples, i - 1, k, iv);
      var t :| 0 <= t < i - 1 && iv == Piece(bounds, t);
    }
  }

  /** No count is filed with an empty list. */
  lemma {:induction false} TableNonEmpty(mapped: seq<Interval>, bounds: seq<int>, minSamples: int, i: nat, k: int)
    requires i <= Max(0, |bounds| - 1)
    requires k in Table(mapped, bounds, minSamples, i)
    ensures |Table(mapped, bounds, minSamples, i)[k]| > 0
  {
    var count := Support(mapped, Piece(bounds, i - 1));
    if count < minSamples || k != count {
      TableNonEmpty(mapped, bounds, minSamples, i - 1, k);
    }
  }

  /** Every replicated piece among the first `i` is in the table under its support. */
  lemma {:induction false} TableComplete(mapped: seq<Interval>, bounds: seq<int>, minSamples: int, i: nat, t: nat)
    requires i <= Max(0, |bounds| - 1) && t < i
    requires Support(mapped, Piece(bounds, t)) >= minSamples
    ensures Support(mapped, Piece(bounds, t)) in Table(mapped, bounds, minSamples, i)
    ensures Piece(bounds, t) in Table(mapped, bounds, minSamples, i)[Support(mapped, Piece(bounds, t))]
  {
    if t < i - 1 {
      TableComplete(mapped, bounds, minSamples, i - 1, t);
    }
  }

  /**
   * The `replicated` table: for each count reaching `minSamples`, the
   * elementary pieces supported by exactly that many fragments.
   */
  method Replicate(mapped: seq<Interval>, bounds: seq<int>, minSamples: int)
    returns (replicated: map<int, seq<Interval>>)
    ensures forall k :: k in replicated ==> k >= minSamples && |replicated[k]| > 0
    ensures forall k, iv :: k in replicated && iv in replicated[k] ==>
      Support(mapped, iv) == k && exists i :: 0 <= i < |bounds| - 1 && iv == Piece(bounds, i)
    ensures forall i :: 0 <= i < |bounds| - 1 && Support(mapped, Piece(bounds, i)) >= minSamples ==>
      Support(mapped, Piece(bounds, i)) in replicated && Piece(bounds, i) in replicated[Support(mapped, Piece(bounds, i))]
    ensures replicated == map[] <==> !AnyReplicated(mapped, bounds, minSamples)
  {
    replicated := map[];
    var i := 0;
    while i < |bounds| - 1
      invariant 0 <= i <= Max(0, |bounds| - 1)
      invariant replicated == Table(mapped, bounds, minSamples, i)
    {
      var interval := Piece(bounds, i);
      var count := Support(mapped, interval);
      if count >= minSamples {
        var prev := if count in replicated then replicated[count] else [];
        replicated := replicated[count := prev + [interval]];
      }
      i := i + 1;
    }
    var n := Max(0, |bounds| - 1);
    forall k | k in replicated ensures k >= minSamples && |replicated[k]| > 0 {
      TableNonEmpty(mapped, bounds, minSamples, n, k);
      TableSound(mapped, bounds, minSamples, n, k, replicated[k][0]);
    }
    forall k, iv | k in replicated && iv in replicated[k]
      ensures Support(mapped, iv) == k && exists i :: 0 <= i < |bounds| - 1 && iv == Piece(bounds, i)
    {
      TableSound(mapped, bounds, minSamples, n, k, iv);
    }
    forall t | 0 <= t < |bounds| - 1 && Support(mapped, Piece(bounds, t)) >= minSamples
      ensures Support(mapped, Piece(bounds, t)) in replicated && Piece(bounds, t) in replicated[Support(mapped, Piece(bounds, t))]
    {
      TableComplete(mapped, bounds, minSamples, n, t);
    }
    if replicated != map[] {
      NonEmptyMapHasKey(replicated);
      var k :| k in replicated;
      TableNonEmpty(mapped, bounds, minSamples, n, k);
      TableSound(mapped, bounds, minSamples, n, k, replicated[k][0]);
      var t :| 0 <= t < n && replicated[k][0] == Piece(bounds, t);
      assert Support(mapped, Piece(bounds, t)) >= minSamples;
    }
  }

  /** All intervals of the table, one count after the other. */
  method Flatten(replicated: map<int, seq<Interval>>) returns (intervals: seq<Interval>)
    ensures forall iv :: iv in intervals <==> exists k :: k in replicated && iv in replicated[k]
  {
    intervals := [];
    var keys := replicated.Keys;
    while keys != {}
      invariant keys <= replicated.Keys
      invariant forall iv :: iv in intervals <==> exists k :: k in replicated && k !in keys && iv in replicated[k]
      decreases |keys|
    {
      NonEmptySetHasElement(keys);
      var k :| k in keys;
      intervals := intervals + replicated[k];
      keys := keys - {k};
    }
  }

  /** The solutions' left arms in the dsRNA's unrolled coordinates, in tuple order (`mapped`). */
  function Mapped(rna: InvRepeat, solutions: seq<InvRepeat>): seq<Interval>
  {
    SortIntervals(Projected(rna.segments, SortIntervals(SolutionLefts(solutions)), |rna.segments|))
  }

  /** Unrolled position `q` lies in an elementary piece that at least `minSamples` fragments support. */
  predicate ReplicatedAt(mapped: seq<Interval>, bounds: seq<int>, minSamples: int, q: int)
  {
    exists i :: 0 <= i < |bounds| - 1 && Support(mapped, Piece(bounds, i)) >= minSamples && Piece(bounds, i).Contains(q)
  }

  /** `merged` is the union of the qualifying elementary pieces, as `Interval.merge` shapes it. */
  ghost predicate ConsensusRanges(mapped: seq<Interval>, bounds: seq<int>, minSamples: int, merged: seq<Interval>)
  {
    Separated(merged) &&
    forall q :: Covered(merged, q) <==> ReplicatedAt(mapped, bounds, minSamples, q)
  }

  /** `k` is the smallest support among the elementary pieces that reach `minSamples`. */
  predicate LeastReplicated(mapped: seq<Interval>, bounds: seq<int>, minSamples: int, k: int)
  {
    k >= minSamples &&
    (exists i :: 0 <= i < |bounds| - 1 && Support(mapped, Piece(bounds, i)) == k) &&
    (forall i :: 0 <= i < |bounds| - 1 && Support(mapped, Piece(bounds, i)) >= minSamples ==> k <= Support(mapped, Piece(bounds, i)))
  }

  /** The repeat cropped to each range. */
  function Crops(rna: InvRepeat, ranges: seq<Interval>): (r: seq<InvRepeat>)
    ensures |r| == |ranges|
    ensures forall i :: 0 <= i < |ranges| ==> r[i] == Crop(rna, ranges[i])
  {
    seq(|ranges|, i requires 0 <= i < |ranges| => Crop(rna, ranges[i]))
  }

  /** The segments of all repeats, one repeat after the other. */
  function AllSegments(irs: seq<InvRepeat>): seq<Segment>
  {
    if irs == [] then [] else AllSegments(irs[..|irs| - 1]) + irs[|irs| - 1].segments
  }

  /** Segment order by the start of the left arm. */
  function ByLeftStart(): (Segment, Segment) -> bool
  {
    ByKey((s: Segment) => s.left.start)
  }

  /** The smallest key of a non-empty table (`min(replicated.keys())`). */
  method MinKey<V>(m: map<int, V>) returns (k: int)
    requires m != map[]
    ensures k in m
    ensures forall j :: j in m ==> k <= j
  {
    NonEmptyMapHasKey(m);
    k :| k in m;
    var keys := m.Keys - {k};
    while keys != {}
      invariant keys <= m.Keys && k in m
      invariant forall j :: j in m && j !in keys ==> k <= j
      decreases |keys|
    {
      NonEmptySetHasElement(keys);
      var j :| j in keys;
      if j < k {
        k := j;
      }
      keys := keys - {j};
    }
  }

  /**
   * What `filter_segments` returns: the parts of the dsRNA that at least
   * `minSamples` of the solutions' fragments agree on, cropped out of the
   * dsRNA as one repeat, tagged with the smallest support that qualified.
   * When no elementary piece qualifies, both lists are empty.
   */
  ghost predicate Filtered(rna: InvRepeat, solutions: seq<InvRepeat>, minSamples: int,
                           backmapped: seq<InvRepeat>, tags: seq<string>)
    requires ValidRepeat(rna)
  {
    var mapped := Mapped(rna, solutions);
    var bounds := SortedSet(EndpointList(mapped));
    (backmapped == [] <==> !AnyReplicated(mapped, bounds, minSamples)) &&
    (backmapped == [] <==> tags == []) &&
    (backmapped != [] ==> |backmapped| == 1 && |tags| == 1) &&
    (backmapped != [] ==> exists merged ::
       ConsensusRanges(mapped, bounds, minSamples, merged) &&
       backmapped[0].segments == SortBy(AllSegments(Crops(rna, merged)), ByLeftStart())) &&
    (tags != [] ==> exists k: nat :: tags[0] == "N>=" + NatToString(k) && LeastReplicated(mapped, bounds, minSamples, k))
  }

  /** `filter_segments`. */
  method FilterSegments(rna: InvRepeat, solutions: seq<InvRepeat>, minSamples: int)
    returns (backmapped: seq<InvRepeat>, tags: seq<string>)
    requires ValidRepeat(rna)
    ensures Filtered(rna, solutions, minSamples, backmapped, tags)
  {
    var sols := SortIntervals(SolutionLefts(solutions));
    var projected := Project(rna, sols);
    var mapped := SortIntervals(projected);
    SortIntervalsOrdered(projected);
    var bounds := SortedSet(EndpointList(mapped));
    var replicated := Replicate(mapped, bounds, minSamples);
    if replicated == map[] {
      return [], [];
    }
    var intervals := Flatten(replicated);
    var merged := Merge(intervals);
    forall q ensures Covered(merged, q) <==> ReplicatedAt(mapped, bounds, minSamples, q) {
      FlattenCovers(mapped, bounds, minSamples, replicated, intervals, q);
    }
    assert ConsensusRanges(mapped, bounds, minSamples, merged);
    var len := UnrolledLength(rna);
    MappedWithin(rna, sols, mapped);
    SortedSetMembers(EndpointList(mapped));
    TableWithin(mapped, bounds, replicated, intervals, len);
    MergeWithin(intervals, 0, len);
    var irs := FromUnrolled(rna, merged);
    assert irs == Crops(rna, merged);
    ByKeyPreorder((s: Segment) => s.left.start);
    var segments := SortBy(AllSegments(irs), ByLeftStart());
    backmapped := [InvRepeat(segments)];
    var k := MinKey(replicated);
    MinKeyLeast(mapped, bounds, minSamples, replicated, k);
    tags := ["N>=" + NatToString(k)];
  }

  /** Every endpoint of a mapped fragment lies in `[0, UnrolledLength(rna)]`. */
  lemma MappedWithin(rna: InvRepeat, sols: seq<Interval>, mapped: seq<Interval>)
    requires ValidRepeat(rna)
    requires multiset(mapped) == multiset(Projected(rna.segments, sols, |rna.segments|))
    ensures forall x :: x in EndpointList(mapped) ==> 0 <= x <= UnrolledLength(rna)
  {
    var segs := rna.segments;
    assert ArmsNonEmpty(segs);
    var p := Projected(segs, sols, |segs|);
    ProjectedWithin(segs, sols, |segs|);
    EndpointMembers(mapped);
    forall x | x in EndpointList(mapped) ensures 0 <= x <= UnrolledLength(rna) {
      var i :| 0 <= i < |mapped| && (x == mapped[i].start || x == mapped[i].end);
      assert mapped[i] in multiset(p);
      var j :| 0 <= j < |p| && p[j] == mapped[i];
    }
  }

  /** The flattened table stays within the span of the mapped fragments' endpoints. */
  lemma TableWithin(mapped: seq<Interval>, bounds: seq<int>, replicated: map<int, seq<Interval>>,
                    intervals: seq<Interval>, len: int)
    requires forall x :: x in EndpointList(mapped) ==> 0 <= x <= len
    requires forall x :: x in bounds <==> x in EndpointList(mapped)
    requires forall k, iv :: k in replicated && iv in replicated[k] ==>
      Support(mapped, iv) == k && exists i :: 0 <= i < |bounds| - 1 && iv == Piece(bounds, i)
    requires forall iv :: iv in intervals <==> exists k :: k in replicated && iv in replicated[k]
    ensures forall i :: 0 <= i < |intervals| ==> 0 <= intervals[i].start && intervals[i].end <= len
  {
    forall i | 0 <= i < |intervals| ensures 0 <= intervals[i].start && intervals[i].end <= len {
      var iv := intervals[i];
      assert iv in intervals;
      var k :| k in replicated && iv in replicated[k];
      assert Support(mapped, iv) == k && exists t :: 0 <= t < |bounds| - 1 && iv == Piece(bounds, t);
      var t :| 0 <= t < |bounds| - 1 && iv == Piece(bounds, t);
      assert bounds[t] in bounds && bounds[t + 1] in bounds;
    }
  }

  /** The flattened table covers exactly the positions of the qualifying pieces. */
  lemma FlattenCovers(mapped: seq<Interval>, bounds: seq<int>, minSamples: int,
                      replicated: map<int, seq<Interval>>, intervals: seq<Interval>, q: int)
    requires forall k, iv :: k in replicated && iv in replicated[k] ==>
      Support(mapped, iv) == k && exists i :: 0 <= i < |bounds| - 1 && iv == Piece(bounds, i)
    requires forall k :: k in replicated ==> k >= minSamples
    requires forall i :: 0 <= i < |bounds| - 1 && Support(mapped, Piece(bounds, i)) >= minSamples ==>
      Support(mapped, Piece(bounds, i)) in replicated && Piece(bounds, i) in replicated[Support(mapped, Piece(bounds, i))]
    requires forall iv :: iv in intervals <==> exists k :: k in replicated && iv in replicated[k]
    ensures Covered(intervals, q) <==> ReplicatedAt(mapped, bounds, minSamples, q)
  {
    if Covered(intervals, q) {
      var j :| 0 <= j < |intervals| && intervals[j].Contains(q);
      var iv := intervals[j];
      assert iv in intervals;
      var k :| k in replicated && iv in replicated[k];
      assert Support(mapped, iv) == k && exists i :: 0 <= i < |bounds| - 1 && iv == Piece(bounds, i);
      var i :| 0 <= i < |bounds| - 1 && iv == Piece(bounds, i);
      assert Support(mapped, Piece(bounds, i)) >= minSamples && Piece(bounds, i).Contains(q);
    }
    if ReplicatedAt(mapped, bounds, minSamples, q) {
      var i :| 0 <= i < |bounds| - 1 && Support(mapped, Piece(bounds, i)) >= minSamples && Piece(bounds, i).Contains(q);
      var iv := Piece(bounds, i);
      var k := Support(mapped, iv);
      assert iv in intervals;
      var j :| 0 <= j < |intervals| && intervals[j] == iv;
    }
  }

  /** The smallest key of the table is the smallest qualifying support. */
  lemma MinKeyLeast(mapped: seq<Interval>, bounds: seq<int>, minSamples: int,
                    replicated: map<int, seq<Interval>>, k: int)
    requires forall k :: k in replicated ==> k >= minSamples && |replicated[k]| > 0
    requires forall k, iv :: k in replicated && iv in replicated[k] ==>
      Support(mapped, iv) == k && exists i :: 0 <= i < |bounds| - 1 && iv == Piece(bounds, i)
    requires forall i :: 0 <= i < |bounds| - 1 && Support(mapped, Piece(bounds, i)) >= minSamples ==>
      Support(mapped, Piece(bounds, i)) in replicated && Piece(bounds, i) in replicated[Support(mapped, Piece(bounds, i))]
    requires k in replicated && forall j :: j in replicated ==> k <= j
    ensures k >= 0 && LeastReplicated(mapped, bounds, minSamples, k)
  {
    var iv := replicated[k][0];
    assert iv in replicated[k];
    assert Support(mapped, iv) == k && exists i :: 0 <= i < |bounds| - 1 && iv == Piece(bounds, i);
    var i :| 0 <= i < |bounds| - 1 && iv == Piece(bounds, i);
    assert Support(mapped, Piece(bounds, i)) == k;
  }

  lemma NonEmptyMapHasKey<V>(m: map<int, V>)
    requires m != map[]
    ensures exists k :: k in m
  {
    if forall k :: k !in m {
      assert false;
    }
  }
}
