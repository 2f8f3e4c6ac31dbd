// `stories/RIP/clustering/clustering.py`: the peaks and predicted dsRNA of
// one contig and strand split into groups. Curated regions claim their peaks
// and repeats first; the rest become nodes of a graph linked by genomic
// proximity inside insulated regions and by shared transcripts, and each
// connected component is a group. Afterwards each group's peaks lose the
// parts covered by its repeats' arm envelopes.
module Clustering {
  import opened Common
  import opened Intervals
  import opened Sorting
  import opened InvRepeats
  import opened Consensus
  import Bed
  import Graph

  /** A member of a group: a peak or a predicted dsRNA. */
  datatype Element = Peak(iv: Interval) | Repeat(ir: InvRepeat)

  /** An interval-tree entry: an interval and its payload (a curated region's line, a transcript). */
  datatype Entry = Entry(iv: Interval, data: int)

  /** Every repeat has at least one segment, as `InvRepeat` guarantees. */
  predicate Formed(rnas: seq<InvRepeat>)
  {
    forall i :: 0 <= i < |rnas| ==> |rnas[i].segments| > 0
  }

  // ---------------------------------------------------------------------
  // Interval-tree queries (`intervaltree`)

  /** `tree.overlap(q)`: the entries sharing a position with `q`, in tree order. */
  function Touching(tree: seq<Entry>, q: Interval): (r: seq<Entry>)
    ensures forall e :: e in r <==> e in tree && Overlaps(q, e.iv)
    ensures |r| <= |tree|
  {
    if tree == [] then []
    else
      var n := |tree| - 1;
      assert tree == tree[..n] + [tree[n]];
      Touching(tree[..n], q) + (if Overlaps(q, tree[n].iv) then [tree[n]] else [])
  }

  /** `Interval.overlap_size(q)` of an entry spanning `t`: the length shared with `q`, 0 when they do not meet. */
  function OverlapSize(t: Interval, q: Interval): int
  {
    if q.start < t.end && q.end > t.start then Min(t.end, q.end) - Max(t.start, q.start) else 0
  }

  predicate Inside(q: Interval, t: Interval)
  {
    t.start <= q.start && q.end <= t.end
  }

  /** The shared length is all of `q` exactly when `q` is empty or lies inside `t`. */
  lemma FullOverlap(t: Interval, q: Interval)
    requires t.Valid() && q.Valid()
    ensures OverlapSize(t, q) == q.Len() <==> q.Len() == 0 || Inside(q, t)
  {
  }

  /** `index.overlaps(q)` on the tree of peaks: some peak shares a position with `q`. */
  predicate Touches(peaks: seq<Interval>, q: Interval)
  {
    exists i :: 0 <= i < |peaks| && Overlaps(q, peaks[i])
  }

  // ---------------------------------------------------------------------
  // Keeping the repeats anchored in peaks

  /** The bounding range of `rna` touches a peak, and so does one of its blocks. */
  predicate Anchored(peaks: seq<Interval>, rna: InvRepeat)
    requires |rna.segments| > 0
  {
    Touches(peaks, Brange(rna)) && exists b :: b in SeqRanges(rna) && Touches(peaks, b)
  }

  /** The repeats kept for grouping, in input order. */
  function KeepAnchored(rnas: seq<InvRepeat>, peaks: seq<Interval>): (r: seq<InvRepeat>)
    requires Formed(rnas)
    ensures Formed(r)
    ensures forall x :: x in r <==> x in rnas && Anchored(peaks, x)
  {
    if rnas == [] then []
    else
      var n := |rnas| - 1;
      assert rnas == rnas[..n] + [rnas[n]];
      KeepAnchored(rnas[..n], peaks) + (if Anchored(peaks, rnas[n]) then [rnas[n]] else [])
  }

  // ---------------------------------------------------------------------
  // Curated regions

  /**
   * Where a peak goes: `Ok(None)` to the graph when it touches no curated
   * region, `Ok(Some(d))` to region `d` when it touches that one alone and
   * lies inside it; anything else fails the assertions.
   */
  function CuratePeak(curated: seq<Entry>, peak: Interval): Result<Option<int>>
  {
    var hits := Touching(curated, peak);
    if hits == [] then Ok(None)
    else if |hits| != 1 then Err(AssertionError)
    else if OverlapSize(hits[0].iv, peak) != peak.Len() then Err(AssertionError)
    else Ok(Some(hits[0].data))
  }

  predicate AllValidEntries(tree: seq<Entry>)
  {
    forall i :: 0 <= i < |tree| ==> tree[i].iv.Valid()
  }

  lemma CuratePeakSpec(curated: seq<Entry>, peak: Interval)
    requires AllValidEntries(curated) && peak.Valid()
    ensures CuratePeak(curated, peak) == Ok(None) <==> forall e :: e in curated ==> !Overlaps(peak, e.iv)
    ensures CuratePeak(curated, peak).Ok? && CuratePeak(curated, peak).value.Some? <==>
      |Touching(curated, peak)| == 1 && Inside(peak, Touching(curated, peak)[0].iv)
    ensures CuratePeak(curated, peak).Ok? && CuratePeak(curated, peak).value.Some? ==>
      exists e :: e in curated && e.data == CuratePeak(curated, peak).value.value && Inside(peak, e.iv)
  {
    var hits := Touching(curated, peak);
    if hits != [] {
      assert hits[0] in curated;
      assert Overlaps(peak, hits[0].iv);
      FullOverlap(hits[0].iv, peak);
    }
  }

  /** The entries holding both arm envelopes of a repeat whole. */
  function Holding(hits: seq<Entry>, lb: Interval, rb: Interval): (r: seq<Entry>)
    ensures forall e :: e in r <==> e in hits && OverlapSize(e.iv, lb) == lb.Len() && OverlapSize(e.iv, rb) == rb.Len()
  {
    if hits == [] then []
    else
      var n := |hits| - 1;
      assert hits == hits[..n] + [hits[n]];
      var keep := OverlapSize(hits[n].iv, lb) == lb.Len() && OverlapSize(hits[n].iv, rb) == rb.Len();
      Holding(hits[..n], lb, rb) + (if keep then [hits[n]] else [])
  }

  /**
   * Where a repeat goes: `Ok(None)` to the graph when no curated region
   * touching its bounding range holds both arms, `Ok(Some(d))` when region
   * `d` alone does; two such regions fail the assertion.
   */
  function CurateRepeat(curated: seq<Entry>, rna: InvRepeat): Result<Option<int>>
    requires |rna.segments| > 0
  {
    var hold := Holding(Touching(curated, Brange(rna)), LeftBrange(rna), RightBrange(rna));
    if hold == [] then Ok(None)
    else if |hold| != 1 then Err(AssertionError)
    else Ok(Some(hold[0].data))
  }

  lemma ArmsNonEmpty(rna: InvRepeat)
    requires ValidRepeat(rna)
    ensures LeftBrange(rna).NonEmpty() && RightBrange(rna).NonEmpty()
    ensures Brange(rna).start == LeftBrange(rna).start && RightBrange(rna).end == Brange(rna).end
    ensures LeftBrange(rna).end <= RightBrange(rna).start
  {
    var s := rna.segments;
    var n := |s| - 1;
    assert ValidSegment(s[0]) && ValidSegment(s[n]);
    if n > 0 {
      assert s[0].left.end <= s[n].left.start && s[n].right.end <= s[0].right.start;
    }
  }

  /** A region holds a well-formed repeat for curation exactly when both arm envelopes lie inside it. */
  lemma CurateRepeatSpec(curated: seq<Entry>, rna: InvRepeat)
    requires AllValidEntries(curated) && ValidRepeat(rna)
    ensures forall e :: e in Holding(Touching(curated, Brange(rna)), LeftBrange(rna), RightBrange(rna)) <==>
      e in curated && Inside(LeftBrange(rna), e.iv) && Inside(RightBrange(rna), e.iv)
    ensures CurateRepeat(curated, rna) == Ok(None) <==>
      forall e :: e in curated ==> !(Inside(LeftBrange(rna), e.iv) && Inside(RightBrange(rna), e.iv))
  {
    ArmsNonEmpty(rna);
    var lb, rb, br := LeftBrange(rna), RightBrange(rna), Brange(rna);
    var hold := Holding(Touching(curated, br), lb, rb);
    forall e ensures e in hold <==> e in curated && Inside(lb, e.iv) && Inside(rb, e.iv) {
      if e in curated {
        assert e.iv.Valid() by {
          var i :| 0 <= i < |curated| && curated[i] == e;
        }
        FullOverlap(e.iv, lb);
        FullOverlap(e.iv, rb);
      }
    }
    if hold != [] {
      assert hold[0] in hold;
    }
  }

  /**
   * The routing loop of one kind of element: those with no curated region
   * stay, the others are claimed by their region's payload; the first
   * failed assertion ends the loop.
   */
  function Route<T>(items: seq<T>, route: T --> Result<Option<int>>, wrap: T -> Element): Result<(seq<T>, seq<(int, Element)>)>
    requires forall i :: 0 <= i < |items| ==> route.requires(items[i])
  {
    if items == [] then Ok(([], []))
    else
      var n := |items| - 1;
      var prev := Route(items[..n], route, wrap);
      if prev.Err? then prev
      else
        var x := items[n];
        match route(x)
        case Err(e) => Err(e)
        case Ok(None) => Ok((prev.value.0 + [x], prev.value.1))
        case Ok(Some(d)) => Ok((prev.value.0, prev.value.1 + [(d, wrap(x))]))
  }

  /**
   * Routing fails exactly when some element fails; otherwise it keeps the
   * elements with no region and claims every other one for its region.
   */
  lemma {:induction false} RouteSpec<T>(items: seq<T>, route: T --> Result<Option<int>>, wrap: T -> Element)
    requires forall i :: 0 <= i < |items| ==> route.requires(items[i])
    ensures Route(items, route, wrap).Ok? <==> forall i :: 0 <= i < |items| ==> route(items[i]).Ok?
    ensures Route(items, route, wrap).Ok? ==>
      forall x :: x in Route(items, route, wrap).value.0 <==> exists i :: 0 <= i < |items| && items[i] == x && route(x) == Ok(None)
    ensures Route(items, route, wrap).Ok? ==>
      forall d, y :: (d, y) in Route(items, route, wrap).value.1 <==>
        exists i :: 0 <= i < |items| && route(items[i]) == Ok(Some(d)) && wrap(items[i]) == y
  {
    if items != [] {
      var n := |items| - 1;
      var p := items[..n];
      RouteSpec(p, route, wrap);
      assert forall i :: 0 <= i < n ==> p[i] == items[i];
      var r := Route(items, route, wrap);
      var prev := Route(p, route, wrap);
      if prev.Ok? && r.Ok? {
        forall x ensures x in r.value.0 <==> exists i :: 0 <= i < |items| && items[i] == x && route(x) == Ok(None) {
          if x in r.value.0 && x !in prev.value.0 {
            assert items[n] == x;
          }
          if x !in r.value.0 {
            forall i | 0 <= i < |items| && items[i] == x ensures route(x) != Ok(None) {
              if i < n {
                assert p[i] == x;
              }
            }
          }
        }
        forall d, y ensures (d, y) in r.value.1 <==> exists i :: 0 <= i < |items| && route(items[i]) == Ok(Some(d)) && wrap(items[i]) == y {
          if (d, y) in r.value.1 && (d, y) !in prev.value.1 {
            assert route(items[n]) == Ok(Some(d)) && wrap(items[n]) == y;
          }
          if (d, y) !in r.value.1 {
            forall i | 0 <= i < |items| ensures !(route(items[i]) == Ok(Some(d)) && wrap(items[i]) == y) {
              if i < n {
                assert p[i] == items[i];
              }
            }
          }
        }
      }
    }
  }

  /** The elements left for the graph and the curated claims `(region, element)` in claim order. */
  datatype Curation = Curation(peaks: seq<Interval>, rnas: seq<InvRepeat>, claimed: seq<(int, Element)>)

  function PeakRoute(curated: seq<Entry>): Interval -> Result<Option<int>>
  {
    (p: Interval) => CuratePeak(curated, p)
  }

  function RepeatRoute(curated: seq<Entry>): InvRepeat --> Result<Option<int>>
  {
    (x: InvRepeat) requires |x.segments| > 0 => CurateRepeat(curated, x)
  }

  function PeakOf(p: Interval): Element { Peak(p) }

  function RepeatOf(x: InvRepeat): Element { Repeat(x) }

  /** Lines 36-64: the peaks, then the repeats, routed to curated regions when there are any. */
  function Curate(curated: Option<seq<Entry>>, peaks: seq<Interval>, rnas: seq<InvRepeat>): Result<Curation>
    requires Formed(rnas)
  {
    if curated.None? then Ok(Curation(peaks, rnas, []))
    else
      var p := Route(peaks, PeakRoute(curated.value), PeakOf);
      if p.Err? then Err(p.error)
      else
        var q := Route(rnas, RepeatRoute(curated.value), RepeatOf);
        if q.Err? then Err(q.error)
        else Ok(Curation(p.value.0, q.value.0, p.value.1 + q.value.1))
  }

  function First<A, B>(x: (A, B)): A { x.0 }

  function Second<A, B>(x: (A, B)): B { x.1 }

  /** `overlaps.values()`: the claimed elements of each region, regions in order of their first claim. */
  function CuratedGroups(claimed: seq<(int, Element)>): seq<seq<Element>>
  {
    var keys := Bed.KeysIn(claimed, First);
    seq(|keys|, i requires 0 <= i < |keys| => Bed.Members(claimed, First, Second, keys[i]))
  }

  /** Once routing has failed on a prefix, the rest of the elements are never looked at. */
  lemma {:induction false} RoutePrefixErr<T>(items: seq<T>, route: T --> Result<Option<int>>, wrap: T -> Element, k: nat)
    requires forall i :: 0 <= i < |items| ==> route.requires(items[i])
    requires k <= |items| && Route(items[..k], route, wrap).Err?
    ensures Route(items, route, wrap) == Route(items[..k], route, wrap)
    decreases |items|
  {
    if k < |items| {
      var n := |items| - 1;
      assert items[..n][..k] == items[..k];
      RoutePrefixErr(items[..n], route, wrap, k);
    } else {
      assert items[..k] == items;
    }
  }

  /** The routing loop of lines 39-47 and 48-61. */
  method RouteLoop<T>(items: seq<T>, route: T --> Result<Option<int>>, wrap: T -> Element)
    returns (r: Result<(seq<T>, seq<(int, Element)>)>)
    requires forall i :: 0 <= i < |items| ==> route.requires(items[i])
    ensures r == Route(items, route, wrap)
  {
    var kept: seq<T> := [];
    var claims: seq<(int, Element)> := [];
    var i := 0;
    while i < |items|
      invariant 0 <= i <= |items|
      invariant Route(items[..i], route, wrap) == Ok((kept, claims))
    {
      assert items[..i + 1][..i] == items[..i];
      var x := items[i];
      var to := route(x);
      if to.Err? {
        RoutePrefixErr(items, route, wrap, i + 1);
        return Err(to.error);
      }
      if to.value.None? {
        kept := kept + [x];
      } else {
        claims := claims + [(to.value.value, wrap(x))];
      }
      i := i + 1;
    }
    assert items[..|items|] == items;
    r := Ok((kept, claims));
  }

  /** Lines 36-64: the curated routing of the peaks, then of the repeats. */
  method CurateLoop(curated: Option<seq<Entry>>, peaks: seq<Interval>, rnas: seq<InvRepeat>) returns (r: Result<Curation>)
    requires Formed(rnas)
    ensures r == Curate(curated, peaks, rnas)
  {
    if curated.None? {
      return Ok(Curation(peaks, rnas, []));
    }
    var p := RouteLoop(peaks, PeakRoute(curated.value), PeakOf);
    if p.Err? {
      return Err(p.error);
    }
    var q := RouteLoop(rnas, RepeatRoute(curated.value), RepeatOf);
    if q.Err? {
      return Err(q.error);
    }
    r := Ok(Curation(p.value.0, q.value.0, p.value.1 + q.value.1));
  }

  /**
   * Curation fails exactly when a peak or a repeat fails its assertions;
   * otherwise the peaks and repeats left for the graph are those no region
   * claims, and each claim pairs an element with the region that holds it.
   */
  lemma CurateSpec(curated: seq<Entry>, peaks: seq<Interval>, rnas: seq<InvRepeat>)
    requires Formed(rnas)
    ensures Curate(Some(curated), peaks, rnas).Ok? <==>
      (forall i :: 0 <= i < |peaks| ==> CuratePeak(curated, peaks[i]).Ok?) &&
      (forall j :: 0 <= j < |rnas| ==> CurateRepeat(curated, rnas[j]).Ok?)
    ensures Curate(Some(curated), peaks, rnas).Ok? ==>
      var c := Curate(Some(curated), peaks, rnas).value;
      (forall p :: p in c.peaks <==> p in peaks && CuratePeak(curated, p) == Ok(None)) &&
      (forall x :: x in c.rnas <==> x in rnas && CurateRepeat(curated, x) == Ok(None)) &&
      (forall d, p :: (d, Peak(p)) in c.claimed <==> p in peaks && CuratePeak(curated, p) == Ok(Some(d))) &&
      (forall d, x :: (d, Repeat(x)) in c.claimed <==> x in rnas && CurateRepeat(curated, x) == Ok(Some(d)))
  {
    RouteSpec(peaks, PeakRoute(curated), PeakOf);
    RouteSpec(rnas, RepeatRoute(curated), RepeatOf);
    CuratePeaks(curated, peaks, rnas);
    CurateRepeats(curated, peaks, rnas);
  }

  /** The peaks left and the peaks claimed by a successful curation. */
  lemma CuratePeaks(curated: seq<Entry>, peaks: seq<Interval>, rnas: seq<InvRepeat>)
    requires Formed(rnas)
    ensures Curate(Some(curated), peaks, rnas).Ok? ==>
      var c := Curate(Some(curated), peaks, rnas).value;
      (forall p :: p in c.peaks <==> p in peaks && CuratePeak(curated, p) == Ok(None)) &&
      (forall d, p :: (d, Peak(p)) in c.claimed <==> p in peaks && CuratePeak(curated, p) == Ok(Some(d)))
  {
    var pr, rr := PeakRoute(curated), RepeatRoute(curated);
    RouteSpec(peaks, pr, PeakOf);
    RouteSpec(rnas, rr, RepeatOf);
    var p := Route(peaks, pr, PeakOf);
    var q := Route(rnas, rr, RepeatOf);
    if p.Ok? && q.Ok? {
      var c := Curate(Some(curated), peaks, rnas).value;
      assert c.peaks == p.value.0 && c.claimed == p.value.1 + q.value.1;
      forall d, x ensures (d, Peak(x)) in c.claimed <==> x in peaks && CuratePeak(curated, x) == Ok(Some(d)) {
        if x in peaks && CuratePeak(curated, x) == Ok(Some(d)) {
          var i :| 0 <= i < |peaks| && peaks[i] == x;
          assert (d, Peak(x)) in p.value.1;
        }
      }
      forall x ensures x in c.peaks <==> x in peaks && CuratePeak(curated, x) == Ok(None) {
        if x in peaks && CuratePeak(curated, x) == Ok(None) {
          var i :| 0 <= i < |peaks| && peaks[i] == x;
        }
      }
    }
  }

  /** The repeats left and the repeats claimed by a successful curation. */
  lemma CurateRepeats(curated: seq<Entry>, peaks: seq<Interval>, rnas: seq<InvRepeat>)
    requires Formed(rnas)
    ensures Curate(Some(curated), peaks, rnas).Ok? ==>
      var c := Curate(Some(curated), peaks, rnas).value;
      (forall x :: x in c.rnas <==> x in rnas && CurateRepeat(curated, x) == Ok(None)) &&
      (forall d, x :: (d, Repeat(x)) in c.claimed <==> x in rnas && CurateRepeat(curated, x) == Ok(Some(d)))
  {
    var pr, rr := PeakRoute(curated), RepeatRoute(curated);
    RouteSpec(peaks, pr, PeakOf);
    RouteSpec(rnas, rr, RepeatOf);
    var p := Route(peaks, pr, PeakOf);
    var q := Route(rnas, rr, RepeatOf);
    if p.Ok? && q.Ok? {
      var c := Curate(Some(curated), peaks, rnas).value;
      assert c.rnas == q.value.0 && c.claimed == p.value.1 + q.value.1;
      forall d, x ensures (d, Repeat(x)) in c.claimed <==> x in rnas && CurateRepeat(curated, x) == Ok(Some(d)) {
        if x in rnas && CurateRepeat(curated, x) == Ok(Some(d)) {
          var j :| 0 <= j < |rnas| && rnas[j] == x;
          assert (d, Repeat(x)) in q.value.1;
        }
      }
      forall x ensures x in c.rnas <==> x in rnas && CurateRepeat(curated, x) == Ok(None) {
        if x in rnas && CurateRepeat(curated, x) == Ok(None) {
          var j :| 0 <= j < |rnas| && rnas[j] == x;
        }
      }
    }
  }

  /** Every curated group is non-empty and holds exactly the elements claimed by one region; no region appears twice. */
  lemma CuratedGroupsSpec(claimed: seq<(int, Element)>)
    ensures forall g :: 0 <= g < |CuratedGroups(claimed)| ==> |CuratedGroups(claimed)[g]| > 0
    ensures forall i :: 0 <= i < |claimed| ==>
      exists g :: 0 <= g < |CuratedGroups(claimed)| && claimed[i].1 in CuratedGroups(claimed)[g]
    ensures forall g, y :: 0 <= g < |CuratedGroups(claimed)| && y in CuratedGroups(claimed)[g] ==>
      exists i :: 0 <= i < |claimed| && claimed[i].1 == y && claimed[i].0 == Bed.KeysIn(claimed, First)[g]
  {
    var keys := Bed.KeysIn(claimed, First);
    var groups := CuratedGroups(claimed);
    KeysFacts(claimed);
    forall g | 0 <= g < |groups| ensures |groups[g]| > 0 {
      assert keys[g] in keys;
      var i :| 0 <= i < |claimed| && First(claimed[i]) == keys[g];
      Bed.MembersComplete(claimed, First, Second);
      assert Second(claimed[i]) in groups[g];
    }
    forall i | 0 <= i < |claimed| ensures exists g :: 0 <= g < |groups| && claimed[i].1 in groups[g] {
      Bed.MembersComplete(claimed, First, Second);
      assert exists i0 :: 0 <= i0 < |claimed| && First(claimed[i0]) == First(claimed[i]);
      assert First(claimed[i]) in keys;
      var g :| 0 <= g < |keys| && keys[g] == First(claimed[i]);
      assert Second(claimed[i]) in groups[g];
    }
    forall g, y | 0 <= g < |groups| && y in groups[g]
      ensures exists i :: 0 <= i < |claimed| && claimed[i].1 == y && claimed[i].0 == keys[g]
    {
      Bed.MembersSound(claimed, First, Second, keys[g]);
    }
  }

  /** The keys of a dictionary filled from `items` are exactly the keys of its items. */
  lemma {:induction false} KeysFacts<V>(claimed: seq<(int, V)>)
    ensures forall k :: k in Bed.KeysIn(claimed, First) <==> exists i :: 0 <= i < |claimed| && First(claimed[i]) == k
    decreases |claimed|
  {
    if claimed != [] {
      var n := |claimed| - 1;
      var p := claimed[..n];
      KeysFacts(p);
      forall k ensures k in Bed.KeysIn(claimed, First) <==> exists i :: 0 <= i < |claimed| && First(claimed[i]) == k {
        if k in Bed.KeysIn(p, First) {
          var i :| 0 <= i < |p| && First(p[i]) == k;
          assert claimed[i] == p[i];
        }
        if exists i :: 0 <= i < |claimed| && First(claimed[i]) == k {
          var i :| 0 <= i < |claimed| && First(claimed[i]) == k;
          if i < n {
            assert p[i] == claimed[i];
          }
        }
      }
    }
  }

  // ---------------------------------------------------------------------
  // Nodes (lines 66-76)

  /** `index`: node `k` is a peak for `k < |peaks|`, else the repeat `k - |peaks|`. */
  function Index(peaks: seq<Interval>, rnas: seq<InvRepeat>): (r: seq<Element>)
    ensures |r| == |peaks| + |rnas|
    ensures forall i :: 0 <= i < |peaks| ==> r[i] == Peak(peaks[i])
    ensures forall j :: 0 <= j < |rnas| ==> r[|peaks| + j] == Repeat(rnas[j])
  {
    seq(|peaks|, i requires 0 <= i < |peaks| => Peak(peaks[i])) + seq(|rnas|, j requires 0 <= j < |rnas| => Repeat(rnas[j]))
  }

  /** The blocks of repeats `base`, `base + 1`, ... tagged with their node. */
  function RepeatBlocks(base: int, rnas: seq<InvRepeat>): seq<(int, Interval)>
  {
    if rnas == [] then []
    else
      var n := |rnas| - 1;
      RepeatBlocks(base, rnas[..n]) + Tagged(base + n, SeqRanges(rnas[n]))
  }

  /** The blocks of node `k`. */
  function Tagged(k: int, blocks: seq<Interval>): (r: seq<(int, Interval)>)
    ensures |r| == |blocks| && forall i :: 0 <= i < |blocks| ==> r[i] == (k, blocks[i])
  {
    seq(|blocks|, i requires 0 <= i < |blocks| => (k, blocks[i]))
  }

  lemma TaggedMembers(k: int, blocks: seq<Interval>)
    ensures forall j, b :: (j, b) in Tagged(k, blocks) <==> j == k && b in blocks
  {
    var t := Tagged(k, blocks);
    forall j, b | j == k && b in blocks ensures (j, b) in t {
      var i :| 0 <= i < |blocks| && blocks[i] == b;
      assert t[i] == (j, b);
    }
  }

  /** `all_elements` before sorting: each peak with its node, then every block of every repeat with the repeat's node. */
  function Elements(peaks: seq<Interval>, rnas: seq<InvRepeat>): seq<(int, Interval)>
  {
    seq(|peaks|, i requires 0 <= i < |peaks| => (i, peaks[i])) + RepeatBlocks(|peaks|, rnas)
  }

  lemma RepeatBlocksSpec(base: int, rnas: seq<InvRepeat>)
    ensures forall k, b :: (k, b) in RepeatBlocks(base, rnas) <==>
      base <= k < base + |rnas| && b in SeqRanges(rnas[k - base])
  {
    forall k, b ensures (k, b) in RepeatBlocks(base, rnas) <==> base <= k < base + |rnas| && b in SeqRanges(rnas[k - base]) {
      RepeatBlockIn(base, rnas, k, b);
    }
  }

  /** The block `b` tagged `k` is among the repeats' blocks exactly when `b` is a block of repeat `k - base`. */
  lemma {:induction false} RepeatBlockIn(base: int, rnas: seq<InvRepeat>, k: int, b: Interval)
    ensures (k, b) in RepeatBlocks(base, rnas) <==> base <= k < base + |rnas| && b in SeqRanges(rnas[k - base])
    decreases |rnas|
  {
    if rnas != [] {
      var n := |rnas| - 1;
      var p := rnas[..n];
      RepeatBlockIn(base, p, k, b);
      TaggedMembers(base + n, SeqRanges(rnas[n]));
      var head, tail := RepeatBlocks(base, p), Tagged(base + n, SeqRanges(rnas[n]));
      assert RepeatBlocks(base, rnas) == head + tail;
      assert (k, b) in head + tail <==> (k, b) in head || (k, b) in tail;
      if base <= k < base + n {
        assert p[k - base] == rnas[k - base];
      }
    }
  }

  /** Each peak is one node; each repeat is one node shared by all of its blocks. */
  lemma ElementsSpec(peaks: seq<Interval>, rnas: seq<InvRepeat>)
    ensures forall k, b :: (k, b) in Elements(peaks, rnas) <==>
      (0 <= k < |peaks| && b == peaks[k]) ||
      (|peaks| <= k < |peaks| + |rnas| && b in SeqRanges(rnas[k - |peaks|]))
  {
    RepeatBlocksSpec(|peaks|, rnas);
    var head := seq(|peaks|, i requires 0 <= i < |peaks| => (i, peaks[i]));
    forall k, b ensures (k, b) in head <==> 0 <= k < |peaks| && b == peaks[k] {
      if 0 <= k < |peaks| && b == peaks[k] {
        assert head[k] == (k, b);
      }
    }
  }

  /** The enumeration loops of lines 67-76. */
  method Enumerate(peaks: seq<Interval>, rnas: seq<InvRepeat>) returns (index: seq<Element>, elements: seq<(int, Interval)>)
    ensures index == Index(peaks, rnas) && elements == Elements(peaks, rnas)
  {
    index, elements := EnumeratePeaks(peaks);
    ghost var head := elements;
    assert Enumerated(peaks, rnas, 0, head, index, elements);
    for j := 0 to |rnas|
      invariant Enumerated(peaks, rnas, j, head, index, elements)
    {
      ghost var before := elements;
      elements := AddBlocks(elements, |index|, SeqRanges(rnas[j]));
      EnumeratedStep(peaks, rnas, j, head, index, before, elements);
      index := index + [Repeat(rnas[j])];
    }
    assert rnas[..|rnas|] == rnas;
  }

  /** The state after the first `j` repeats of the second enumeration loop. */
  ghost predicate Enumerated(peaks: seq<Interval>, rnas: seq<InvRepeat>, j: nat, head: seq<(int, Interval)>,
                             index: seq<Element>, elements: seq<(int, Interval)>)
    requires j <= |rnas|
  {
    index == Index(peaks, rnas[..j]) && elements == head + RepeatBlocks(|peaks|, rnas[..j])
  }

  /** Adding the blocks of repeat `j` and then its node keeps the enumeration state. */
  lemma EnumeratedStep(peaks: seq<Interval>, rnas: seq<InvRepeat>, j: nat, head: seq<(int, Interval)>,
                       index: seq<Element>, before: seq<(int, Interval)>, elements: seq<(int, Interval)>)
    requires j < |rnas| && Enumerated(peaks, rnas, j, head, index, before)
    requires elements == before + Tagged(|index|, SeqRanges(rnas[j]))
    ensures Enumerated(peaks, rnas, j + 1, head, index + [Repeat(rnas[j])], elements)
  {
    IndexSnoc(peaks, rnas, j);
    RepeatBlocksSnoc(|peaks|, rnas, j);
    ConcatAssoc(head, RepeatBlocks(|peaks|, rnas[..j]), Tagged(|peaks| + j, SeqRanges(rnas[j])));
  }

  /** The loop of lines 69-71: one node per peak, tagged with its own interval. */
  method EnumeratePeaks(peaks: seq<Interval>) returns (index: seq<Element>, elements: seq<(int, Interval)>)
    ensures index == Index(peaks, []) && elements == seq(|peaks|, i requires 0 <= i < |peaks| => (i, peaks[i]))
  {
    index, elements := [], [];
    for i := 0 to |peaks|
      invariant |index| == i && forall k :: 0 <= k < i ==> index[k] == Peak(peaks[k])
      invariant elements == seq(i, k requires 0 <= k < i => (k, peaks[k]))
    {
      elements := elements + [(|index|, peaks[i])];
      index := index + [Peak(peaks[i])];
    }
  }

  /** One more repeat adds its node to the index. */
  lemma IndexSnoc(peaks: seq<Interval>, rnas: seq<InvRepeat>, j: nat)
    requires j < |rnas|
    ensures Index(peaks, rnas[..j + 1]) == Index(peaks, rnas[..j]) + [Repeat(rnas[j])]
  {
    var xs, ys := Index(peaks, rnas[..j + 1]), Index(peaks, rnas[..j]) + [Repeat(rnas[j])];
    forall i | 0 <= i < |xs| ensures xs[i] == ys[i] {
      if i >= |peaks| {
        assert rnas[..j + 1][i - |peaks|] == rnas[i - |peaks|];
      }
    }
  }

  /** One more repeat adds its tagged blocks to the elements. */
  lemma RepeatBlocksSnoc(base: int, rnas: seq<InvRepeat>, j: nat)
    requires j < |rnas|
    ensures RepeatBlocks(base, rnas[..j + 1]) == RepeatBlocks(base, rnas[..j]) + Tagged(base + j, SeqRanges(rnas[j]))
  {
    var s := rnas[..j + 1];
    assert s[..j] == rnas[..j] && s[j] == rnas[j] && |s| - 1 == j;
  }

  /** The inner loop of lines 74-75: every block of one repeat, tagged with its node. */
  method AddBlocks(elements0: seq<(int, Interval)>, k: int, blocks: seq<Interval>) returns (elements: seq<(int, Interval)>)
    ensures elements == elements0 + Tagged(k, blocks)
  {
    elements := elements0;
    for b := 0 to |blocks|
      invariant elements == elements0 + Tagged(k, blocks[..b])
    {
      elements := elements + [(k, blocks[b])];
    }
    assert blocks[..|blocks|] == blocks;
  }

  // ---------------------------------------------------------------------
  // Links by genomic proximity (lines 79-95)

  /** A cell assignment `connections[a, b] = v`. */
  type Write = (int, int, bool)

  /** `bisect_left(ins, x)`: how many leading values of `ins` lie below `x`. */
  function Rank(ins: seq<int>, x: int): (r: nat)
    ensures r <= |ins|
  {
    if ins == [] || ins[0] >= x then 0 else 1 + Rank(ins[1..], x)
  }

  /** In an ascending list the rank splits the values below `x` from the rest. */
  lemma {:induction false} RankSpec(ins: seq<int>, x: int)
    requires Ascending(ins)
    ensures forall k :: 0 <= k < |ins| ==> (k < Rank(ins, x) <==> ins[k] < x)
  {
    if ins != [] && ins[0] < x {
      var t := ins[1..];
      assert Ascending(t) by {
        forall i, j | 0 <= i < j < |t| ensures t[i] < t[j] {
          assert t[i] == ins[i + 1] && t[j] == ins[j + 1];
        }
      }
      RankSpec(t, x);
      forall k | 1 <= k < |ins| ensures k < Rank(ins, x) <==> ins[k] < x {
        assert ins[k] == t[k - 1];
      }
    } else if ins != [] {
      forall k | 0 <= k < |ins| ensures ins[k] >= x {
        if k > 0 {
          assert ins[0] < ins[k];
        }
      }
    }
  }

  /** Two positions have equal ranks exactly when no insulator lies in `[x, y)`: the same insulated region. */
  lemma SameRank(ins: seq<int>, x: int, y: int)
    requires Ascending(ins) && x <= y
    ensures Rank(ins, x) == Rank(ins, y) <==> forall k :: 0 <= k < |ins| ==> !(x <= ins[k] < y)
  {
    RankSpec(ins, x);
    RankSpec(ins, y);
    RankMonotone(ins, x, y);
    var rx, ry := Rank(ins, x), Rank(ins, y);
    if rx < ry {
      assert x <= ins[rx] < y;
    }
  }

  lemma {:induction false} RankMonotone(ins: seq<int>, x: int, y: int)
    requires x <= y
    ensures Rank(ins, x) <= Rank(ins, y)
  {
    if ins != [] && ins[0] < x {
      RankMonotone(ins[1..], x, y);
    }
  }

  /** `sorted(set(insulators))`, or no insulators at all. */
  function Insulators(ins: Option<seq<int>>): (r: seq<int>)
    ensures Ascending(r)
    ensures ins.Some? ==> forall x :: x in r <==> x in ins.value
  {
    if ins.None? then []
    else
      SortedSetMembers(ins.value);
      SortedSet(ins.value)
  }

  predicate Near(e: seq<(int, Interval)>, maxd: int, f: int, s: int)
    requires 0 <= f < |e| && 0 <= s < |e|
  {
    e[s].1.start - e[f].1.end <= maxd
  }

  /** The rank of the second element's start equals that of the first element's end. */
  predicate Gate(e: seq<(int, Interval)>, ins: seq<int>, f: int, s: int)
    requires 0 <= f < |e| && 0 <= s < |e|
  {
    Rank(ins, e[s].1.start) == Rank(ins, e[f].1.end)
  }

  predicate NodesBelow(e: seq<(int, Interval)>, n: int)
  {
    forall i :: 0 <= i < |e| ==> 0 <= e[i].0 < n
  }

  /** The assignments of the inner loop for `first = f` from `second = s` on, up to the first element out of range. */
  function Scan(e: seq<(int, Interval)>, ins: seq<int>, maxd: int, f: int, s: int): (r: seq<Write>)
    requires 0 <= f < |e| && 0 <= s <= |e|
    decreases |e| - s
  {
    if s == |e| || !Near(e, maxd, f, s) then []
    else [(e[f].0, e[s].0, Gate(e, ins, f, s))] + Scan(e, ins, maxd, f, s + 1)
  }

  /** The assignments of the outer loop from `first = f` on, in execution order. */
  function Writes(e: seq<(int, Interval)>, ins: seq<int>, maxd: int, f: int): (r: seq<Write>)
    requires 0 <= f <= |e|
    decreases |e| - f
  {
    if f == |e| then [] else Scan(e, ins, maxd, f, f + 1) + Writes(e, ins, maxd, f + 1)
  }

  function Zero(n: nat): (m: seq<seq<bool>>)
    ensures Graph.Square(m) && |m| == n
  {
    seq(n, i => seq(n, j => false))
  }

  /** `connections[a, b] = v`; every assignment the scans make is inside the matrix. */
  function Set(m: seq<seq<bool>>, w: Write): (r: seq<seq<bool>>)
    requires Graph.Square(m)
    ensures Graph.Square(r) && |r| == |m|
  {
    if 0 <= w.0 < |m| && 0 <= w.1 < |m| then m[w.0 := m[w.0][w.1 := w.2]] else m
  }

  /** The matrix after the assignments `w`, in order. */
  function Apply(m: seq<seq<bool>>, w: seq<Write>): (r: seq<seq<bool>>)
    requires Graph.Square(m)
    ensures Graph.Square(r) && |r| == |m|
    decreases |w|
  {
    if w == [] then m else Apply(Set(m, w[0]), w[1..])
  }

  /** The value of the last assignment to cell `(a, b)` in `w`, if there is one. */
  function Latest(w: seq<Write>, a: int, b: int): Option<bool>
    decreases |w|
  {
    if w == [] then None
    else
      var later := Latest(w[1..], a, b);
      if later.Some? then later
      else if w[0].0 == a && w[0].1 == b then Some(w[0].2)
      else None
  }

  /** A cell ends with the value of its last assignment, and keeps its value when never assigned. */
  lemma {:induction false} ApplyCell(m: seq<seq<bool>>, w: seq<Write>, a: int, b: int)
    requires Graph.Square(m) && 0 <= a < |m| && 0 <= b < |m|
    ensures Apply(m, w)[a][b] == (if Latest(w, a, b).Some? then Latest(w, a, b).value else m[a][b])
    decreases |w|
  {
    if w != [] {
      ApplyCell(Set(m, w[0]), w[1..], a, b);
    }
  }

  /** The last assignment to a cell is one of its assignments; there is none exactly when the cell is never assigned. */
  lemma {:induction false} LatestSpec(w: seq<Write>, a: int, b: int)
    ensures Latest(w, a, b).None? <==> forall v :: (a, b, v) !in w
    ensures Latest(w, a, b).Some? ==> (a, b, Latest(w, a, b).value) in w
    decreases |w|
  {
    if w != [] {
      var t := w[1..];
      LatestSpec(t, a, b);
      assert w == [w[0]] + t;
      if Latest(t, a, b).Some? {
        assert (a, b, Latest(t, a, b).value) in t;
      } else if w[0].0 == a && w[0].1 == b {
        var v0: bool := w[0].2;
        assert (a, b, v0) == w[0] && w[0] in w;
        assert (a, b, v0) in w;
        assert !forall v :: (a, b, v) !in w;
      } else {
        forall v ensures (a, b, v) !in w {
          assert (a, b, v) != w[0];
          assert (a, b, v) !in t;
        }
      }
    }
  }

  /** Assignments that come later win. */
  lemma {:induction false} LatestConcat(x: seq<Write>, y: seq<Write>, a: int, b: int)
    ensures Latest(x + y, a, b) == if Latest(y, a, b).Some? then Latest(y, a, b) else Latest(x, a, b)
    decreases |x|
  {
    if x == [] {
      assert x + y == y;
    } else {
      assert (x + y)[1..] == x[1..] + y;
      LatestConcat(x[1..], y, a, b);
    }
  }

  predicate StartsSorted(e: seq<(int, Interval)>)
  {
    forall i, j :: 0 <= i < j < |e| ==> e[i].1.start <= e[j].1.start
  }

  /** `w` is the assignment made for the in-range pair of positions `f < s`. */
  predicate WriteOf(e: seq<(int, Interval)>, ins: seq<int>, maxd: int, f: int, s: int, w: Write)
  {
    0 <= f < s < |e| && Near(e, maxd, f, s) && w == (e[f].0, e[s].0, Gate(e, ins, f, s))
  }

  /** Elements sorted by start: stopping at the first element out of range skips no element in range. */
  lemma {:induction false} ScanSpec(e: seq<(int, Interval)>, ins: seq<int>, maxd: int, f: int, s: int)
    requires StartsSorted(e) && 0 <= f < s <= |e|
    ensures forall w :: w in Scan(e, ins, maxd, f, s) <==> exists t :: s <= t && WriteOf(e, ins, maxd, f, t, w)
    decreases |e| - s
  {
    if s < |e| {
      if Near(e, maxd, f, s) {
        ScanSpec(e, ins, maxd, f, s + 1);
        var head := (e[f].0, e[s].0, Gate(e, ins, f, s));
        assert Scan(e, ins, maxd, f, s) == [head] + Scan(e, ins, maxd, f, s + 1);
        assert WriteOf(e, ins, maxd, f, s, head);
        forall w | exists t :: s <= t && WriteOf(e, ins, maxd, f, t, w)
          ensures w in Scan(e, ins, maxd, f, s)
        {
          var t :| s <= t && WriteOf(e, ins, maxd, f, t, w);
          if t == s {
            assert w == Scan(e, ins, maxd, f, s)[0];
          }
        }
      } else {
        forall t | s <= t < |e| ensures !Near(e, maxd, f, t) {
          if s < t {
            assert e[s].1.start <= e[t].1.start;
          }
        }
      }
    }
  }

  /** The assignments of the whole scan are exactly one per in-range pair of sorted positions. */
  lemma {:induction false} WritesSpec(e: seq<(int, Interval)>, ins: seq<int>, maxd: int, f: int)
    requires StartsSorted(e) && 0 <= f <= |e|
    ensures forall w :: w in Writes(e, ins, maxd, f) <==> exists g, t :: f <= g && WriteOf(e, ins, maxd, g, t, w)
    decreases |e| - f
  {
    if f < |e| {
      ScanSpec(e, ins, maxd, f, f + 1);
      WritesSpec(e, ins, maxd, f + 1);
      forall w | exists g, t :: f <= g && WriteOf(e, ins, maxd, g, t, w)
        ensures w in Writes(e, ins, maxd, f)
      {
        var g, t :| f <= g && WriteOf(e, ins, maxd, g, t, w);
        if g == f {
          assert w in Scan(e, ins, maxd, f, f + 1);
        } else {
          assert w in Writes(e, ins, maxd, f + 1);
        }
      }
    }
  }

  /**
   * The proximity cell `(a, b)` holds the gate of the last in-range pair
   * from node `a` to node `b`. It is set only by such a pair in one
   * insulated region, and it is set whenever every such pair is in one region.
   */
  lemma ProximityCell(n: nat, e: seq<(int, Interval)>, ins: seq<int>, maxd: int, a: int, b: int)
    requires NodesBelow(e, n) && StartsSorted(e) && 0 <= a < n && 0 <= b < n
    ensures Apply(Zero(n), Writes(e, ins, maxd, 0))[a][b] <==> Latest(Writes(e, ins, maxd, 0), a, b) == Some(true)
    ensures Apply(Zero(n), Writes(e, ins, maxd, 0))[a][b] ==> exists f, s :: WriteOf(e, ins, maxd, f, s, (a, b, true))
    ensures (exists f, s :: WriteOf(e, ins, maxd, f, s, (a, b, true))) &&
            (forall f, s :: !WriteOf(e, ins, maxd, f, s, (a, b, false))) ==>
            Apply(Zero(n), Writes(e, ins, maxd, 0))[a][b]
  {
    var w := Writes(e, ins, maxd, 0);
    ApplyCell(Zero(n), w, a, b);
    LatestSpec(w, a, b);
    WritesSpec(e, ins, maxd, 0);
  }

  /**
   * The cell is assigned, not or-ed: a repeat whose first block lies next to
   * a peak in the same region, and whose second block lies across an
   * insulator, ends unlinked from that peak.
   */
  lemma ProximityOverwrite()
    ensures var e := [(0, Interval(0, 10)), (1, Interval(12, 20)), (1, Interval(30, 40))];
      WriteOf(e, [25], 100, 0, 1, (0, 1, true)) && !Apply(Zero(2), Writes(e, [25], 100, 0))[0][1]
  {
    var e := [(0, Interval(0, 10)), (1, Interval(12, 20)), (1, Interval(30, 40))];
    assert Rank([25], 10) == 0 && Rank([25], 12) == 0 && Rank([25], 20) == 0 && Rank([25], 30) == 1;
    assert Scan(e, [25], 100, 0, 3) == [];
    assert Scan(e, [25], 100, 0, 2) == [(0, 1, false)];
    assert Scan(e, [25], 100, 0, 1) == [(0, 1, true), (0, 1, false)];
    assert Writes(e, [25], 100, 3) == [];
    assert Writes(e, [25], 100, 2) == [];
    assert Scan(e, [25], 100, 1, 2) == [(1, 1, false)];
    assert Writes(e, [25], 100, 1) == [(1, 1, false)];
    var w := [(0, 1, true), (0, 1, false)] + [(1, 1, false)];
    assert Writes(e, [25], 100, 0) == w;
    ApplyCell(Zero(2), w, 0, 1);
    assert Latest(w, 0, 1) == Some(false) by {
      LatestConcat([(0, 1, true), (0, 1, false)], [(1, 1, false)], 0, 1);
      LatestConcat([(0, 1, true)], [(0, 1, false)], 0, 1);
      assert [(0, 1, true)] + [(0, 1, false)] == [(0, 1, true), (0, 1, false)];
    }
  }

  lemma {:induction false} ApplyConcat(m: seq<seq<bool>>, x: seq<Write>, y: seq<Write>)
    requires Graph.Square(m)
    ensures Apply(m, x + y) == Apply(Apply(m, x), y)
    decreases |x|
  {
    if x == [] {
      assert x + y == y;
    } else {
      assert (x + y)[1..] == x[1..] + y;
      ApplyConcat(Set(m, x[0]), x[1..], y);
    }
  }

  /** The proximity loops of lines 82-95, with the cell assigned. */
  method Proximity(n: nat, e: seq<(int, Interval)>, ins: seq<int>, maxd: int) returns (m: seq<seq<bool>>)
    requires NodesBelow(e, n)
    ensures m == Apply(Zero(n), Writes(e, ins, maxd, 0))
  {
    m := Zero(n);
    ghost var target := Apply(Zero(n), Writes(e, ins, maxd, 0));
    var closest := seq(|e|, i requires 0 <= i < |e| => Rank(ins, e[i].1.start));
    var first := 0;
    while first < |e|
      invariant 0 <= first <= |e|
      invariant Graph.Square(m) && |m| == n
      invariant Apply(m, Writes(e, ins, maxd, first)) == target
    {
      ApplyConcat(m, Scan(e, ins, maxd, first, first + 1), Writes(e, ins, maxd, first + 1));
      m := ScanRow(m, e, ins, maxd, first, closest);
      first := first + 1;
    }
  }

  /** The inner loop of lines 88-95 for one `first`. */
  method ScanRow(m0: seq<seq<bool>>, e: seq<(int, Interval)>, ins: seq<int>, maxd: int, first: int, closest: seq<int>)
    returns (m: seq<seq<bool>>)
    requires Graph.Square(m0) && NodesBelow(e, |m0|) && 0 <= first < |e|
    requires |closest| == |e| && forall i :: 0 <= i < |e| ==> closest[i] == Rank(ins, e[i].1.start)
    ensures m == Apply(m0, Scan(e, ins, maxd, first, first + 1))
  {
    m := m0;
    ghost var target := Apply(m0, Scan(e, ins, maxd, first, first + 1));
    var (find, felement) := e[first];
    var finsulator := Rank(ins, felement.end);
    var second := first + 1;
    while second < |e|
      invariant first < second <= |e|
      invariant Graph.Square(m) && |m| == |m0|
      invariant Apply(m, Scan(e, ins, maxd, first, second)) == target
    {
      var (sind, selement) := e[second];
      var sinsulator := closest[second];
      if selement.start - felement.end <= maxd {
        var w := (find, sind, sinsulator == finsulator);
        var rest := Scan(e, ins, maxd, first, second + 1);
        assert Scan(e, ins, maxd, first, second) == [w] + rest;
        assert ([w] + rest)[1..] == rest;
        m := m[find := m[find][sind := sinsulator == finsulator]];
        second := second + 1;
      } else {
        assert Scan(e, ins, maxd, first, second) == [];
        break;
      }
    }
  }

  // ---------------------------------------------------------------------
  // Links by shared transcripts (lines 98-115)

  /** The `rna_overlap` appends for one element: one per transcript entry it touches. */
  function HitsOf(x: (int, Interval), tree: seq<Entry>): (r: seq<(int, (int, Interval))>)
    ensures forall d, y :: (d, y) in r <==> y == x && exists t :: t in tree && t.data == d && Overlaps(x.1, t.iv)
  {
    var t := Touching(tree, x.1);
    var r := seq(|t|, i requires 0 <= i < |t| => (t[i].data, x));
    forall d, y | y == x && exists u :: u in tree && u.data == d && Overlaps(x.1, u.iv) ensures (d, y) in r {
      var u :| u in tree && u.data == d && Overlaps(x.1, u.iv);
      var i :| 0 <= i < |t| && t[i] == u;
      assert r[i] == (d, y);
    }
    r
  }

  /** All the `rna_overlap` appends, element by element: pairs (transcript, (node, element)). */
  function Hits(e: seq<(int, Interval)>, tree: seq<Entry>): seq<(int, (int, Interval))>
  {
    if e == [] then []
    else
      var n := |e| - 1;
      Hits(e[..n], tree) + HitsOf(e[n], tree)
  }

  lemma {:induction false} HitsSpec(e: seq<(int, Interval)>, tree: seq<Entry>)
    ensures forall d, y :: (d, y) in Hits(e, tree) <==> y in e && exists t :: t in tree && t.data == d && Overlaps(y.1, t.iv)
    decreases |e|
  {
    if e != [] {
      var n := |e| - 1;
      HitsSpec(e[..n], tree);
      assert e == e[..n] + [e[n]];
      forall d, y ensures (d, y) in Hits(e, tree) <==> y in e && exists t :: t in tree && t.data == d && Overlaps(y.1, t.iv) {
        assert (d, y) in Hits(e, tree) <==> (d, y) in Hits(e[..n], tree) || (d, y) in HitsOf(e[n], tree);
        assert y in e <==> y in e[..n] || y == e[n];
      }
    }
  }

  /** The nodes of the element pairs that transcript `d` maps (`rna.map(element) is not None`), in order. */
  function Mapped(overlaps: seq<(int, Interval)>, maps: (int, Interval) -> bool, d: int): seq<int>
  {
    if overlaps == [] then []
    else
      var n := |overlaps| - 1;
      Mapped(overlaps[..n], maps, d) + (if maps(d, overlaps[n].1) then [overlaps[n].0] else [])
  }

  lemma {:induction false} MappedSpec(overlaps: seq<(int, Interval)>, maps: (int, Interval) -> bool, d: int)
    ensures forall k :: k in Mapped(overlaps, maps, d) <==> exists x :: x in overlaps && x.0 == k && maps(d, x.1)
    decreases |overlaps|
  {
    if overlaps != [] {
      var n := |overlaps| - 1;
      MappedSpec(overlaps[..n], maps, d);
      assert overlaps == overlaps[..n] + [overlaps[n]];
      forall k ensures k in Mapped(overlaps, maps, d) <==> exists x :: x in overlaps && x.0 == k && maps(d, x.1) {
        if exists x :: x in overlaps && x.0 == k && maps(d, x.1) {
          var x :| x in overlaps && x.0 == k && maps(d, x.1);
          if x != overlaps[n] {
            assert x in overlaps[..n];
          }
        }
      }
    }
  }

  /** The assignments linking `nodes[x]` to every later node of the list. */
  function LinkRow(nodes: seq<int>, x: int, y: int): seq<Write>
    requires 0 <= x < |nodes| && 0 <= y <= |nodes|
    decreases |nodes| - y
  {
    if y == |nodes| then [] else [(nodes[x], nodes[y], true)] + LinkRow(nodes, x, y + 1)
  }

  /** The assignments of the pair loops of lines 111-115, from `first = x` on. */
  function LinkAll(nodes: seq<int>, x: int): seq<Write>
    requires 0 <= x <= |nodes|
    decreases |nodes| - x
  {
    if x == |nodes| then [] else LinkRow(nodes, x, x + 1) + LinkAll(nodes, x + 1)
  }

  lemma {:induction false} LinkRowSpec(nodes: seq<int>, x: int, y: int)
    requires 0 <= x < |nodes| && 0 <= y <= |nodes|
    ensures forall w :: w in LinkRow(nodes, x, y) <==> exists j :: y <= j < |nodes| && w == (nodes[x], nodes[j], true)
    decreases |nodes| - y
  {
    if y < |nodes| {
      LinkRowSpec(nodes, x, y + 1);
    }
  }

  lemma {:induction false} LinkAllSpec(nodes: seq<int>, x: int)
    requires 0 <= x <= |nodes|
    ensures forall w :: w in LinkAll(nodes, x) <==> exists i, j :: x <= i < j < |nodes| && w == (nodes[i], nodes[j], true)
    decreases |nodes| - x
  {
    if x < |nodes| {
      LinkRowSpec(nodes, x, x + 1);
      LinkAllSpec(nodes, x + 1);
      forall w | exists i, j :: x <= i < j < |nodes| && w == (nodes[i], nodes[j], true)
        ensures w in LinkAll(nodes, x)
      {
        var i, j :| x <= i < j < |nodes| && w == (nodes[i], nodes[j], true);
        if i == x {
          assert w in LinkRow(nodes, x, x + 1);
        } else {
          assert w in LinkAll(nodes, x + 1);
        }
      }
    }
  }

  /** In an ascending list, the pair loops link every node to every larger node, and nothing else. */
  lemma LinkAllAscending(nodes: seq<int>)
    requires Ascending(nodes)
    ensures forall a, b, v :: (a, b, v) in LinkAll(nodes, 0) <==> v && a in nodes && b in nodes && a < b
  {
    LinkAllSpec(nodes, 0);
    forall a, b, v | v && a in nodes && b in nodes && a < b ensures (a, b, v) in LinkAll(nodes, 0) {
      var i :| 0 <= i < |nodes| && nodes[i] == a;
      var j :| 0 <= j < |nodes| && nodes[j] == b;
      assert i < j;
      assert (a, b, v) == (nodes[i], nodes[j], true);
    }
  }

  /** The nodes mapped onto transcript `d`: `list({x[0] for x in mapped})`, ascending. */
  function KeyNodes(hits: seq<(int, (int, Interval))>, maps: (int, Interval) -> bool, d: int): seq<int>
  {
    SortedSet(Mapped(Bed.Members(hits, First, Second, d), maps, d))
  }

  /** The assignments of the loop over `rna_overlap`, transcripts in the order of `keys`. */
  function KeyWrites(keys: seq<int>, nodesOf: int -> seq<int>): seq<Write>
  {
    if keys == [] then [] else LinkAll(nodesOf(keys[0]), 0) + KeyWrites(keys[1..], nodesOf)
  }

  function TranscriptWrites(e: seq<(int, Interval)>, tree: seq<Entry>, maps: (int, Interval) -> bool): seq<Write>
  {
    var hits := Hits(e, tree);
    KeyWrites(Bed.KeysIn(hits, First), d => KeyNodes(hits, maps, d))
  }

  /** Node `k` has an element that touches an entry of transcript `d` and maps onto it. */
  predicate OnTranscript(e: seq<(int, Interval)>, tree: seq<Entry>, maps: (int, Interval) -> bool, d: int, k: int)
  {
    exists y :: y in e && y.0 == k && maps(d, y.1) && exists t :: t in tree && t.data == d && Overlaps(y.1, t.iv)
  }

  lemma MappedOn(e: seq<(int, Interval)>, tree: seq<Entry>, maps: (int, Interval) -> bool, d: int)
    ensures forall k :: k in Mapped(Bed.Members(Hits(e, tree), First, Second, d), maps, d) <==> OnTranscript(e, tree, maps, d, k)
  {
    var hits := Hits(e, tree);
    var ov := Bed.Members(hits, First, Second, d);
    MappedSpec(ov, maps, d);
    forall k | k in Mapped(ov, maps, d) ensures OnTranscript(e, tree, maps, d, k) {
      var x :| x in ov && x.0 == k && maps(d, x.1);
      assert (d, x) in hits by {
        Bed.MembersSound(hits, First, Second, d);
        var i :| 0 <= i < |hits| && First(hits[i]) == d && Second(hits[i]) == x;
        assert (d, x) == hits[i];
      }
      HitsSpec(e, tree);
    }
    forall k | OnTranscript(e, tree, maps, d, k) ensures k in Mapped(ov, maps, d) {
      var y :| y in e && y.0 == k && maps(d, y.1) && exists t :: t in tree && t.data == d && Overlaps(y.1, t.iv);
      assert y in ov by {
        HitsSpec(e, tree);
        assert (d, y) in hits;
        var i :| 0 <= i < |hits| && hits[i] == (d, y);
        Bed.MembersComplete(hits, First, Second);
        assert Second(hits[i]) in Bed.Members(hits, First, Second, First(hits[i]));
      }
    }
  }

  lemma KeyNodesSpec(e: seq<(int, Interval)>, tree: seq<Entry>, maps: (int, Interval) -> bool, d: int)
    ensures Ascending(KeyNodes(Hits(e, tree), maps, d))
    ensures forall k :: k in KeyNodes(Hits(e, tree), maps, d) <==> OnTranscript(e, tree, maps, d, k)
  {
    MappedOn(e, tree, maps, d);
    SortedSetMembers(Mapped(Bed.Members(Hits(e, tree), First, Second, d), maps, d));
  }

  lemma {:induction false} KeyWritesSpec(keys: seq<int>, nodesOf: int -> seq<int>)
    ensures forall w :: w in KeyWrites(keys, nodesOf) <==> exists g :: 0 <= g < |keys| && w in LinkAll(nodesOf(keys[g]), 0)
    decreases |keys|
  {
    if keys != [] {
      KeyWritesSpec(keys[1..], nodesOf);
      forall w | exists g :: 0 <= g < |keys| && w in LinkAll(nodesOf(keys[g]), 0)
        ensures w in KeyWrites(keys, nodesOf)
      {
        var g :| 0 <= g < |keys| && w in LinkAll(nodesOf(keys[g]), 0);
        if g > 0 {
          assert keys[g] == keys[1..][g - 1];
        }
      }
      forall w | w in KeyWrites(keys[1..], nodesOf)
        ensures exists g :: 0 <= g < |keys| && w in LinkAll(nodesOf(keys[g]), 0)
      {
        var g :| 0 <= g < |keys[1..]| && w in LinkAll(nodesOf(keys[1..][g]), 0);
        assert keys[1..][g] == keys[g + 1];
      }
    }
  }

  /** Every pair of nodes mapped onto one transcript gets linked, smaller node first, and nothing else is assigned. */
  lemma TranscriptWritesSpec(e: seq<(int, Interval)>, tree: seq<Entry>, maps: (int, Interval) -> bool)
    ensures forall a, b, v :: (a, b, v) in TranscriptWrites(e, tree, maps) <==>
      v && a < b && exists d :: OnTranscript(e, tree, maps, d, a) && OnTranscript(e, tree, maps, d, b)
  {
    var hits := Hits(e, tree);
    var keys := Bed.KeysIn(hits, First);
    var nodesOf := d => KeyNodes(hits, maps, d);
    KeyWritesSpec(keys, nodesOf);
    forall a, b, v | (a, b, v) in TranscriptWrites(e, tree, maps)
      ensures v && a < b && exists d :: OnTranscript(e, tree, maps, d, a) && OnTranscript(e, tree, maps, d, b)
    {
      var g :| 0 <= g < |keys| && (a, b, v) in LinkAll(nodesOf(keys[g]), 0);
      KeyNodesSpec(e, tree, maps, keys[g]);
      LinkAllAscending(KeyNodes(hits, maps, keys[g]));
    }
    forall a, b, v | v && a < b && exists d :: OnTranscript(e, tree, maps, d, a) && OnTranscript(e, tree, maps, d, b)
      ensures (a, b, v) in TranscriptWrites(e, tree, maps)
    {
      var d :| OnTranscript(e, tree, maps, d, a) && OnTranscript(e, tree, maps, d, b);
      assert d in keys by {
        var y :| y in e && y.0 == a && maps(d, y.1) && exists t :: t in tree && t.data == d && Overlaps(y.1, t.iv);
        HitsSpec(e, tree);
        assert (d, y) in hits;
        var i :| 0 <= i < |hits| && hits[i] == (d, y);
        KeysFacts(hits);
        assert First(hits[i]) == d;
      }
      var g :| 0 <= g < |keys| && keys[g] == d;
      KeyNodesSpec(e, tree, maps, d);
      LinkAllAscending(KeyNodes(hits, maps, d));
      assert (a, b, v) in LinkAll(nodesOf(keys[g]), 0);
    }
  }

  /** The inner loop of lines 101-102 for one element. */
  method AddHits(hits0: seq<(int, (int, Interval))>, x: (int, Interval), tree: seq<Entry>)
    returns (hits: seq<(int, (int, Interval))>)
    ensures hits == hits0 + HitsOf(x, tree)
  {
    var touching := Touching(tree, x.1);
    hits := hits0;
    for k := 0 to |touching|
      invariant hits == hits0 + seq(k, i requires 0 <= i < k => (touching[i].data, x))
    {
      hits := hits + [(touching[k].data, x)];
    }
  }

  /** The filter of lines 105-108, keeping the nodes. */
  method MappedLoop(overlaps: seq<(int, Interval)>, maps: (int, Interval) -> bool, d: int) returns (mapped: seq<int>)
    ensures mapped == Mapped(overlaps, maps, d)
  {
    mapped := [];
    for i := 0 to |overlaps|
      invariant mapped == Mapped(overlaps[..i], maps, d)
    {
      assert overlaps[..i + 1][..i] == overlaps[..i];
      if maps(d, overlaps[i].1) {
        mapped := mapped + [overlaps[i].0];
      }
    }
    assert overlaps[..|overlaps|] == overlaps;
  }

  /** The inner pair loop of lines 113-115 for `first = x`. */
  method LinkRowLoop(m0: seq<seq<bool>>, nodes: seq<int>, x: int) returns (m: seq<seq<bool>>)
    requires Graph.Square(m0) && 0 <= x < |nodes|
    ensures m == Apply(m0, LinkRow(nodes, x, x + 1))
  {
    m := m0;
    ghost var target := Apply(m0, LinkRow(nodes, x, x + 1));
    for y := x + 1 to |nodes|
      invariant Graph.Square(m) && |m| == |m0|
      invariant Apply(m, LinkRow(nodes, x, y)) == target
    {
      var w := (nodes[x], nodes[y], true);
      assert LinkRow(nodes, x, y) == [w] + LinkRow(nodes, x, y + 1);
      assert ([w] + LinkRow(nodes, x, y + 1))[1..] == LinkRow(nodes, x, y + 1);
      m := Set(m, w);
    }
  }

  /** The pair loops of lines 111-115. */
  method LinkPairs(m0: seq<seq<bool>>, nodes: seq<int>) returns (m: seq<seq<bool>>)
    requires Graph.Square(m0)
    ensures m == Apply(m0, LinkAll(nodes, 0))
  {
    m := m0;
    ghost var target := Apply(m0, LinkAll(nodes, 0));
    for x := 0 to |nodes|
      invariant Graph.Square(m) && |m| == |m0|
      invariant Apply(m, LinkAll(nodes, x)) == target
    {
      ApplyConcat(m, LinkRow(nodes, x, x + 1), LinkAll(nodes, x + 1));
      m := LinkRowLoop(m, nodes, x);
    }
  }

  /** The loops of lines 99-115 on the proximity matrix `m0`. */
  method TranscriptLinks(m0: seq<seq<bool>>, e: seq<(int, Interval)>, tree: seq<Entry>, maps: (int, Interval) -> bool)
    returns (m: seq<seq<bool>>)
    requires Graph.Square(m0)
    ensures m == Apply(m0, TranscriptWrites(e, tree, maps))
  {
    var hits := HitsLoop(e, tree);
    var keys, overlaps := Bed.Group(hits, First, Second);
    m := KeyLinks(m0, keys, overlaps, maps, hits);
  }

  /** The loop of lines 100-102: every element's transcript hits, in element order. */
  method HitsLoop(e: seq<(int, Interval)>, tree: seq<Entry>) returns (hits: seq<(int, (int, Interval))>)
    ensures hits == Hits(e, tree)
  {
    hits := [];
    for i := 0 to |e|
      invariant hits == Hits(e[..i], tree)
    {
      assert e[..i + 1][..i] == e[..i];
      hits := AddHits(hits, e[i], tree);
    }
    assert e[..|e|] == e;
  }

  /** The loop of lines 104-115: the mapped nodes of each transcript in `keys`, linked pairwise. */
  method KeyLinks(m0: seq<seq<bool>>, keys: seq<int>, overlaps: map<int, seq<(int, Interval)>>,
                  maps: (int, Interval) -> bool, ghost hits: seq<(int, (int, Interval))>)
    returns (m: seq<seq<bool>>)
    requires Graph.Square(m0)
    requires forall d :: d in keys ==> d in overlaps && overlaps[d] == Bed.Members(hits, First, Second, d)
    ensures m == Apply(m0, KeyWrites(keys, d => KeyNodes(hits, maps, d)))
  {
    ghost var nodesOf := d => KeyNodes(hits, maps, d);
    ghost var target := Apply(m0, KeyWrites(keys, nodesOf));
    m := m0;
    for g := 0 to |keys|
      invariant Graph.Square(m) && |m| == |m0|
      invariant Apply(m, KeyWrites(keys[g..], nodesOf)) == target
    {
      var d := keys[g];
      var mapped := MappedLoop(overlaps[d], maps, d);
      var nodes := SortedSet(mapped);
      assert keys[g..][1..] == keys[g + 1..];
      ApplyConcat(m, LinkAll(nodes, 0), KeyWrites(keys[g + 1..], nodesOf));
      m := LinkPairs(m, nodes);
    }
  }

  // ---------------------------------------------------------------------
  // The graph and its components (lines 127-138)

  /** `connections` once both kinds of links are in. */
  function Connections(n: nat, e: seq<(int, Interval)>, ins: seq<int>, maxd: int,
                       transcripts: Option<seq<Entry>>, maps: (int, Interval) -> bool): (m: seq<seq<bool>>)
    ensures Graph.Square(m) && |m| == n
  {
    Apply(Zero(n), Writes(e, ins, maxd, 0) + (if transcripts.Some? then TranscriptWrites(e, transcripts.value, maps) else []))
  }

  /** Nodes `a < b` are both mapped onto one transcript. */
  ghost predicate SameTranscript(e: seq<(int, Interval)>, transcripts: Option<seq<Entry>>, maps: (int, Interval) -> bool, a: int, b: int)
  {
    transcripts.Some? && a < b &&
    exists d :: OnTranscript(e, transcripts.value, maps, d, a) && OnTranscript(e, transcripts.value, maps, d, b)
  }

  /**
   * A cell of the graph is set exactly when its nodes share a transcript or
   * the proximity scan assigned it true last; transcript links are never undone.
   */
  lemma ConnectionsCell(n: nat, e: seq<(int, Interval)>, ins: seq<int>, maxd: int,
                        transcripts: Option<seq<Entry>>, maps: (int, Interval) -> bool, a: int, b: int)
    requires 0 <= a < n && 0 <= b < n
    ensures Connections(n, e, ins, maxd, transcripts, maps)[a][b] <==>
      SameTranscript(e, transcripts, maps, a, b) || Latest(Writes(e, ins, maxd, 0), a, b) == Some(true)
  {
    var x := Writes(e, ins, maxd, 0);
    var y := if transcripts.Some? then TranscriptWrites(e, transcripts.value, maps) else [];
    ApplyCell(Zero(n), x + y, a, b);
    LatestConcat(x, y, a, b);
    LatestSpec(y, a, b);
    LatestSpec(x, a, b);
    if transcripts.Some? {
      TranscriptWritesSpec(e, transcripts.value, maps);
      if SameTranscript(e, transcripts, maps, a, b) {
        assert (a, b, true) in y;
      }
    }
  }

  function StartKey(x: (int, Interval)): int { x.1.start }

  /** `sorted(all_elements, key=lambda x: x[1].start)`. */
  function Sorted(elements: seq<(int, Interval)>): (r: seq<(int, Interval)>)
    ensures StartsSorted(r) && multiset(r) == multiset(elements)
  {
    ByKeyPreorder(StartKey);
    var r := SortBy(elements, ByKey(StartKey));
    forall i, j | 0 <= i < j < |r| ensures r[i].1.start <= r[j].1.start {
      SortedByKey(r, StartKey, i, j);
    }
    r
  }

  /** The properties `rustworkx.connected_components` guarantees of `comps` on the graph `adj`. */
  ghost predicate ComponentsOf(adj: seq<seq<bool>>, comps: seq<seq<int>>)
  {
    Graph.Square(adj) &&
    (forall g :: 0 <= g < |comps| ==> |comps[g]| > 0) &&
    (forall g, k :: 0 <= g < |comps| && 0 <= k < |comps[g]| ==> 0 <= comps[g][k] < |adj|) &&
    (forall i :: 0 <= i < |adj| ==> Graph.InSomeGroup(comps, i)) &&
    (forall g, h, i :: 0 <= g < |comps| && 0 <= h < |comps| && i in comps[g] && i in comps[h] ==> g == h) &&
    (forall g, a, b :: 0 <= g < |comps| && a in comps[g] && Graph.Linked(adj, a, b) ==> b in comps[g]) &&
    (forall g, a, b :: 0 <= g < |comps| && a in comps[g] && b in comps[g] ==> Graph.Connected(adj, a, b))
  }

  /** `[[index[ind] for ind in component] for component in components]`. */
  function Resolve(index: seq<Element>, comps: seq<seq<int>>): seq<seq<Element>>
    requires forall g, k :: 0 <= g < |comps| && 0 <= k < |comps[g]| ==> 0 <= comps[g][k] < |index|
  {
    seq(|comps|, g requires 0 <= g < |comps| =>
      seq(|comps[g]|, k requires 0 <= k < |comps[g]| => index[comps[g][k]]))
  }

  /** Lines 66-128: the nodes of the peaks and repeats, and the connection matrix over them. */
  method Adjacency(peaks: seq<Interval>, rnas: seq<InvRepeat>, transcripts: Option<seq<Entry>>,
                   maps: (int, Interval) -> bool, insulators: Option<seq<int>>, maxd: int)
    returns (index: seq<Element>, m: seq<seq<bool>>)
    ensures index == Index(peaks, rnas)
    ensures m == Connections(|index|, Sorted(Elements(peaks, rnas)), Insulators(insulators), maxd, transcripts, maps)
  {
    var elements;
    index, elements := Enumerate(peaks, rnas);
    var n := |index|;
    ElementsSpec(peaks, rnas);
    var e := Sorted(elements);
    assert NodesBelow(e, n) by {
      forall i | 0 <= i < |e| ensures 0 <= e[i].0 < n {
        assert e[i] in multiset(elements);
        assert e[i] in elements;
      }
    }
    var ins := Insulators(insulators);
    m := Proximity(n, e, ins, maxd);
    if transcripts.Some? {
      ApplyConcat(Zero(n), Writes(e, ins, maxd, 0), TranscriptWrites(e, transcripts.value, maps));
      m := TranscriptLinks(m, e, transcripts.value, maps);
    } else {
      assert Writes(e, ins, maxd, 0) + [] == Writes(e, ins, maxd, 0);
    }
  }

  /**
   * `group_all`. A null peak fails the peak tree's construction; a curated
   * assertion fails the whole call. Otherwise the result is the curated
   * groups followed by the connected components of the graph over the
   * remaining nodes, every remaining node in exactly one component.
   */
  method GroupAll(rnas: seq<InvRepeat>, peaks: seq<Interval>, transcripts: Option<seq<Entry>>,
                  maps: (int, Interval) -> bool, curated: Option<seq<Entry>>, insulators: Option<seq<int>>, maxd: int)
    returns (r: Result<seq<seq<Element>>>, ghost adj: seq<seq<bool>>, ghost comps: seq<seq<int>>)
    requires Formed(rnas)
    ensures !AllNonEmpty(peaks) ==> r == Err(ValueError)
    ensures r.Err? <==> !AllNonEmpty(peaks) || Curate(curated, peaks, KeepAnchored(rnas, peaks)).Err?
    ensures r.Ok? ==>
      var c := Curate(curated, peaks, KeepAnchored(rnas, peaks)).value;
      var index := Index(c.peaks, c.rnas);
      adj == Connections(|index|, Sorted(Elements(c.peaks, c.rnas)), Insulators(insulators), maxd, transcripts, maps) &&
      ComponentsOf(adj, comps) &&
      r.value == CuratedGroups(c.claimed) + Resolve(index, comps)
  {
    if !AllNonEmpty(peaks) {
      return Err(ValueError), [], [];
    }
    var kept := KeepAnchored(rnas, peaks);
    var c := CurateLoop(curated, peaks, kept);
    if c.Err? {
      return Err(c.error), [], [];
    }
    var keys, byRegion := Bed.Group(c.value.claimed, First, Second);
    var groups := seq(|keys|, i requires 0 <= i < |keys| => byRegion[keys[i]]);
    assert groups == CuratedGroups(c.value.claimed);
    var index, m := Adjacency(c.value.peaks, c.value.rnas, transcripts, maps, insulators, maxd);
    adj := m;
    var components := Graph.Components(m);
    comps := components;
    r := Ok(groups + Resolve(index, components));
  }

  // ---------------------------------------------------------------------
  // posprocess_groups (lines 141-164)

  function RepeatsOf(group: seq<Element>): seq<InvRepeat>
  {
    if group == [] then []
    else
      var n := |group| - 1;
      RepeatsOf(group[..n]) + (if group[n].Repeat? then [group[n].ir] else [])
  }

  function PeaksOf(group: seq<Element>): seq<Interval>
  {
    if group == [] then []
    else
      var n := |group| - 1;
      PeaksOf(group[..n]) + (if group[n].Peak? then [group[n].iv] else [])
  }

  /** The left and right arm envelopes of every repeat. */
  function Envelopes(rnas: seq<InvRepeat>): seq<Interval>
    requires Formed(rnas)
  {
    if rnas == [] then []
    else
      var n := |rnas| - 1;
      Envelopes(rnas[..n]) + [LeftBrange(rnas[n]), RightBrange(rnas[n])]
  }

  /** The peaks of a group after `posprocess_groups`. */
  function Trimmed(group: seq<Element>): seq<Interval>
    requires Formed(RepeatsOf(group))
  {
    var peaks, rnas := PeaksOf(group), RepeatsOf(group);
    if peaks != [] && rnas != [] then Subtract(SortByStart(peaks), SortByStart(Envelopes(rnas))) else peaks
  }

  predicate FormedGroup(group: seq<Element>)
  {
    forall i :: 0 <= i < |group| && group[i].Repeat? ==> |group[i].ir.segments| > 0
  }

  lemma {:induction false} RepeatsOfFormed(group: seq<Element>)
    requires FormedGroup(group)
    ensures Formed(RepeatsOf(group))
    decreases |group|
  {
    if group != [] {
      var n := |group| - 1;
      assert FormedGroup(group[..n]) by {
        forall i | 0 <= i < n && group[..n][i].Repeat? ensures |group[..n][i].ir.segments| > 0 {
          assert group[..n][i] == group[i];
        }
      }
      RepeatsOfFormed(group[..n]);
    }
  }

  /** The split loop of lines 145-151, then the subtraction of lines 155-162. */
  method PostProcess(group: seq<Element>) returns (rnas: seq<InvRepeat>, peaks: seq<Interval>)
    requires FormedGroup(group)
    ensures Formed(RepeatsOf(group))
    ensures rnas == RepeatsOf(group) && peaks == Trimmed(group)
  {
    RepeatsOfFormed(group);
    rnas, peaks := [], [];
    for i := 0 to |group|
      invariant rnas == RepeatsOf(group[..i]) && peaks == PeaksOf(group[..i])
    {
      assert group[..i + 1][..i] == group[..i];
      if group[i].Repeat? {
        rnas := rnas + [group[i].ir];
      } else {
        peaks := peaks + [group[i].iv];
      }
    }
    assert group[..|group|] == group;
    if peaks != [] && rnas != [] {
      peaks := Subtract(SortByStart(peaks), SortByStart(Envelopes(rnas)));
    }
  }

  lemma {:induction false} PeaksOfSpec(group: seq<Element>)
    ensures forall p :: p in PeaksOf(group) <==> Peak(p) in group
    ensures forall x :: x in RepeatsOf(group) <==> Repeat(x) in group
    decreases |group|
  {
    if group != [] {
      var n := |group| - 1;
      PeaksOfSpec(group[..n]);
      assert group == group[..n] + [group[n]];
    }
  }

  /** Position `p` lies in an arm envelope of `x`. */
  predicate ArmCovers(x: InvRepeat, p: int)
  {
    |x.segments| > 0 && (LeftBrange(x).Contains(p) || RightBrange(x).Contains(p))
  }

  lemma {:induction false} EnvelopesSpec(rnas: seq<InvRepeat>, p: int)
    requires Formed(rnas)
    ensures Covered(Envelopes(rnas), p) <==> exists j :: 0 <= j < |rnas| && ArmCovers(rnas[j], p)
    decreases |rnas|
  {
    if rnas != [] {
      var n := |rnas| - 1;
      var front := rnas[..n];
      EnvelopesSpec(front, p);
      var pair := [LeftBrange(rnas[n]), RightBrange(rnas[n])];
      CoveredConcat(Envelopes(front), pair, p);
      assert Covered(pair, p) <==> ArmCovers(rnas[n], p) by {
        if Covered(pair, p) {
          var i :| 0 <= i < 2 && pair[i].Contains(p);
        }
        if LeftBrange(rnas[n]).Contains(p) {
          assert pair[0].Contains(p);
        }
        if RightBrange(rnas[n]).Contains(p) {
          assert pair[1].Contains(p);
        }
      }
      if exists j :: 0 <= j < |rnas| && ArmCovers(rnas[j], p) {
        var j :| 0 <= j < |rnas| && ArmCovers(rnas[j], p);
        if j < n {
          assert front[j] == rnas[j];
        }
      }
      if exists j :: 0 <= j < n && ArmCovers(front[j], p) {
        var j :| 0 <= j < n && ArmCovers(front[j], p);
        assert front[j] == rnas[j];
      }
    }
  }

  /** The peak positions of a group that `posprocess_groups` keeps. */
  ghost predicate Kept(group: seq<Element>, p: int)
  {
    (exists q :: Peak(q) in group && q.Contains(p)) &&
    !(exists x :: Repeat(x) in group && ArmCovers(x, p))
  }

  lemma PeaksCovered(group: seq<Element>, p: int)
    ensures Covered(PeaksOf(group), p) <==> exists q :: Peak(q) in group && q.Contains(p)
  {
    var peaks := PeaksOf(group);
    PeaksOfSpec(group);
    if exists q :: Peak(q) in group && q.Contains(p) {
      var q :| Peak(q) in group && q.Contains(p);
      var i :| 0 <= i < |peaks| && peaks[i] == q;
    }
  }

  lemma ArmsCovered(group: seq<Element>, p: int)
    requires Formed(RepeatsOf(group))
    ensures Covered(Envelopes(RepeatsOf(group)), p) <==> exists x :: Repeat(x) in group && ArmCovers(x, p)
  {
    var rnas := RepeatsOf(group);
    PeaksOfSpec(group);
    EnvelopesSpec(rnas, p);
    if exists x :: Repeat(x) in group && ArmCovers(x, p) {
      var x :| Repeat(x) in group && ArmCovers(x, p);
      var j :| 0 <= j < |rnas| && rnas[j] == x;
    }
  }

  lemma TrimmedCell(group: seq<Element>, p: int)
    requires Formed(RepeatsOf(group))
    requires PeaksOf(group) != [] && RepeatsOf(group) != []
    ensures Covered(Trimmed(group), p) <==> Kept(group, p)
  {
    var peaks, envelopes := PeaksOf(group), Envelopes(RepeatsOf(group));
    var sp, se := SortByStart(peaks), SortByStart(envelopes);
    assert Trimmed(group) == Subtract(sp, se);
    CoveredSameElements(sp, peaks, p);
    CoveredSameElements(se, envelopes, p);
    PeaksCovered(group, p);
    ArmsCovered(group, p);
  }

  lemma TrimmedSpec(group: seq<Element>)
    requires FormedGroup(group)
    ensures Formed(RepeatsOf(group))
    ensures PeaksOf(group) == [] || RepeatsOf(group) == [] ==> Trimmed(group) == PeaksOf(group)
    ensures PeaksOf(group) != [] && RepeatsOf(group) != [] ==>
      AllNonEmpty(Trimmed(group)) && forall p :: Covered(Trimmed(group), p) <==> Kept(group, p)
  {
    RepeatsOfFormed(group);
    if PeaksOf(group) != [] && RepeatsOf(group) != [] {
      forall p ensures Covered(Trimmed(group), p) <==> Kept(group, p) {
        TrimmedCell(group, p);
      }
    }
  }
}
