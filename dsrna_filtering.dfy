// stories/RIP/clustering/dsRNA-filtering.py: the per-sample greedy selection
// of dsRNA fragments that the sample's signal supports, and the cross-sample
// aggregation that feeds `filter_segments`.
module DsRnaFiltering {
  import opened Common
  import opened Sorting
  import opened Intervals
  import opened InvRepeats
  import opened Scoring
  import opened ScoreStates
  import opened Graph
  import opened Consensus
  import opened Decimal

  // ---------------------------------------------------------------------
  // cache_dsRNA: one repeat per distinct set of blocks

  /** The start of the bounding range (`brange().start`). */
  function BStart(ir: InvRepeat): int
  {
    if |ir.segments| > 0 then ir.segments[0].left.start else 0
  }

  /** Some prediction lists `x`. */
  predicate Predicted(predicted: seq<seq<InvRepeat>>, x: InvRepeat)
  {
    exists i :: 0 <= i < |predicted| && x in predicted[i]
  }

  /**
   * `cache_dsRNA`: every predicted repeat once, ordered by the start of its
   * bounding range. Repeats are keyed by their blocks; the source's check
   * that equal keys hold equal repeats always passes, since the blocks
   * determine the repeat.
   */
  method CacheDsRna(predicted: seq<seq<InvRepeat>>) returns (unique: seq<InvRepeat>)
    ensures forall x :: x in unique <==> Predicted(predicted, x)
    ensures forall x :: multiset(unique)[x] <= 1
    ensures SortedBy(unique, ByKey(BStart))
  {
    var index: map<seq<Interval>, InvRepeat> := map[];
    var order: seq<InvRepeat> := [];
    for i := 0 to |predicted|
      invariant forall x :: x in order <==> exists k :: 0 <= k < i && x in predicted[k]
      invariant forall x :: multiset(order)[x] <= 1
      invariant forall x :: x in order ==> SeqRanges(x) in index && index[SeqRanges(x)] == x
      invariant forall key :: key in index ==> index[key] in order && SeqRanges(index[key]) == key
    {
      for j := 0 to |predicted[i]|
        invariant forall x :: x in order <==> (exists k :: 0 <= k < i && x in predicted[k]) || x in predicted[i][..j]
        invariant forall x :: multiset(order)[x] <= 1
        invariant forall x :: x in order ==> SeqRanges(x) in index && index[SeqRanges(x)] == x
        invariant forall key :: key in index ==> index[key] in order && SeqRanges(index[key]) == key
      {
        var rna := predicted[i][j];
        var key := SeqRanges(rna);
        assert predicted[i][..j + 1] == predicted[i][..j] + [rna];
        if key in index {
          SeqRangesInjective(index[key], rna);
          assert index[key] == rna;
        } else {
          assert rna !in order;
          index := index[key := rna];
          order := order + [rna];
        }
      }
      assert predicted[i][..|predicted[i]|] == predicted[i];
    }
    ByKeyPreorder(BStart);
    unique := SortBy(order, ByKey(BStart));
    SortByMembers(order, ByKey(BStart));
  }

  // ---------------------------------------------------------------------
  // Filtering groups: arm envelopes linked by proximity

  /** A repeat's index with one of its two arm envelopes. */
  type Unit = (int, Interval)

  function UnitStart(u: Unit): int
  {
    u.1.start
  }

  /** Each repeat's left and right arm envelopes, in repeat order. */
  function UnitsOf(dsRNA: seq<InvRepeat>): (u: seq<Unit>)
    requires forall i :: 0 <= i < |dsRNA| ==> |dsRNA[i].segments| > 0
    ensures |u| == 2 * |dsRNA|
    ensures forall i :: 0 <= i < |dsRNA| ==>
      u[2 * i] == (i, LeftBrange(dsRNA[i])) && u[2 * i + 1] == (i, RightBrange(dsRNA[i]))
  {
    seq(2 * |dsRNA|, k requires 0 <= k < 2 * |dsRNA| =>
      if k % 2 == 0 then (k / 2, LeftBrange(dsRNA[k / 2])) else (k / 2, RightBrange(dsRNA[k / 2])))
  }

  /** The units sorted by the start of their envelope. */
  function Units(dsRNA: seq<InvRepeat>): (u: seq<Unit>)
    requires forall i :: 0 <= i < |dsRNA| ==> |dsRNA[i].segments| > 0
    ensures multiset(u) == multiset(UnitsOf(dsRNA))
    ensures SortedBy(u, ByKey(UnitStart))
  {
    ByKeyPreorder(UnitStart);
    SortBy(UnitsOf(dsRNA), ByKey(UnitStart))
  }

  /** Unit `s` lies after unit `f` and starts within `maxDistance` of `f`'s end. */
  predicate Near(units: seq<Unit>, maxDistance: int, f: int, s: int)
  {
    0 <= f < s < |units| && units[s].1.start - units[f].1.end <= maxDistance
  }

  /** Some unit of `a` among the first `k` is near a later unit of `b`. */
  ghost predicate LinkedBefore(units: seq<Unit>, maxDistance: int, k: int, a: int, b: int)
  {
    exists f, s :: f < k && Near(units, maxDistance, f, s) && units[f].0 == a && units[s].0 == b
  }

  /** Unit `f` is near some unit of `b` before position `e`. */
  ghost predicate NearBefore(units: seq<Unit>, maxDistance: int, f: int, e: int, b: int)
  {
    exists s :: s < e && Near(units, maxDistance, f, s) && units[s].0 == b
  }

  /**
   * The `connections` matrix: cell (a, b) is set iff some envelope of `a`
   * is followed, within `maxDistance`, by an envelope of `b`. The scan from
   * each unit stops at the first unit too far away; because the units are
   * sorted by start, no later unit could be near, so stopping loses no link.
   */
  method Link(units: seq<Unit>, n: nat, maxDistance: int) returns (adj: seq<seq<bool>>)
    requires forall i :: 0 <= i < |units| ==> 0 <= units[i].0 < n
    requires SortedBy(units, ByKey(UnitStart))
    ensures |adj| == n && Square(adj)
    ensures forall a, b :: 0 <= a < n && 0 <= b < n ==> (adj[a][b] <==> LinkedBefore(units, maxDistance, |units|, a, b))
  {
    var connections := new bool[n, n]((a, b) => false);
    var first := 0;
    while first < |units|
      invariant 0 <= first <= |units|
      invariant forall a, b :: 0 <= a < n && 0 <= b < n ==>
        (connections[a, b] <==> LinkedBefore(units, maxDistance, first, a, b))
    {
      var find, felement := units[first].0, units[first].1;
      var second := first + 1;
      while second < |units|
        invariant first + 1 <= second <= |units|
        invariant forall a, b :: 0 <= a < n && 0 <= b < n ==>
          (connections[a, b] <==>
             (LinkedBefore(units, maxDistance, first, a, b) || (a == find && NearBefore(units, maxDistance, first, second, b))))
      {
        var sind, selement := units[second].0, units[second].1;
        if selement.start - felement.end <= maxDistance {
          connections[find, sind] := true;
          assert Near(units, maxDistance, first, second);
        } else {
          forall s | second <= s < |units| ensures !Near(units, maxDistance, first, s) {
            SortedByKey(units, UnitStart, second, s);
          }
          break;
        }
        second := second + 1;
      }
      assert forall b :: NearBefore(units, maxDistance, first, second, b) <==> NearBefore(units, maxDistance, first, |units|, b);
      first := first + 1;
    }
    adj := seq(n, a requires 0 <= a < n reads connections =>
      seq(n, b requires 0 <= b < n reads connections => connections[a, b]));
  }

  // ---------------------------------------------------------------------
  // Peaks in unrolled coordinates

  /** `IntervalTree.overlap(start, end)`: the peaks sharing a position with `iv`. */
  function Overlapping(peaks: seq<Interval>, iv: Interval): (r: seq<Interval>)
    ensures forall x :: x in r <==> x in peaks && Overlaps(x, iv)
  {
    if peaks == [] then []
    else
      var last := peaks[|peaks| - 1];
      assert forall x :: x in peaks <==> x in peaks[..|peaks| - 1] || x == last by {
        assert peaks == peaks[..|peaks| - 1] + [last];
      }
      Overlapping(peaks[..|peaks| - 1], iv) + (if Overlaps(last, iv) then [last] else [])
  }

  /** The total length of the first `k` blocks of a chain. */
  function ChainOffset(chain: seq<Interval>, k: nat): int
    requires k <= |chain|
  {
    if k == 0 then 0 else ChainOffset(chain, k - 1) + chain[k - 1].Len()
  }

  /** The part of `iv` inside block `k`, in chain coordinates. */
  function BlockHit(chain: seq<Interval>, iv: Interval, k: nat): seq<Interval>
    requires k < |chain|
  {
    match Intersection(chain[k], iv)
    case Some(ov) => [Interval(ov.start - chain[k].start + ChainOffset(chain, k), ov.end - chain[k].start + ChainOffset(chain, k))]
    case None => []
  }

  /** The parts of `iv` inside the first `k` blocks, in chain coordinates. */
  function ChainPieces(chain: seq<Interval>, iv: Interval, k: nat): seq<Interval>
    requires k <= |chain|
  {
    if k == 0 then [] else ChainPieces(chain, iv, k - 1) + BlockHit(chain, iv, k - 1)
  }

  /**
   * `ChainMap.map_interval`: the hull, in chain coordinates, of the parts of
   * `iv` that the chain's blocks cover; None when they cover none of it.
   */
  function MapInterval(chain: seq<Interval>, iv: Interval): Option<Interval>
  {
    var p := ChainPieces(chain, iv, |chain|);
    if p == [] then None else Some(Interval(p[0].start, p[|p| - 1].end))
  }

  /** Block `k` contributes at most one piece, inside its own stretch of the chain, and one exactly when it meets `iv`. */
  lemma BlockHitSpec(chain: seq<Interval>, iv: Interval, k: nat)
    requires k < |chain| && chain[k].NonEmpty()
    ensures |BlockHit(chain, iv, k)| <= 1
    ensures BlockHit(chain, iv, k) == [] <==> !Overlaps(chain[k], iv)
    ensures BlockHit(chain, iv, k) != [] ==>
      ChainOffset(chain, k) <= BlockHit(chain, iv, k)[0].start < BlockHit(chain, iv, k)[0].end <= ChainOffset(chain, k + 1)
  {
    var b := chain[k];
    OverlapsShare(b, iv);
    var ov := Intersection(b, iv);
    if ov.Some? {
      assert b.Contains(ov.value.start) && b.Contains(ov.value.end - 1);
    }
  }

  lemma {:induction false} ChainPiecesEmpty(chain: seq<Interval>, iv: Interval, k: nat)
    requires k <= |chain| && AllNonEmpty(chain)
    ensures ChainPieces(chain, iv, k) == [] <==> forall j :: 0 <= j < k ==> !Overlaps(chain[j], iv)
    decreases k
  {
    if k > 0 {
      var init, hit := ChainPieces(chain, iv, k - 1), BlockHit(chain, iv, k - 1);
      assert ChainPieces(chain, iv, k) == init + hit;
      ChainPiecesEmpty(chain, iv, k - 1);
      BlockHitSpec(chain, iv, k - 1);
      assert init + hit == [] <==> init == [] && hit == [];
    }
  }

  /** The pieces are non-empty, ascending and inside the first `k` blocks' stretch of the chain. */
  lemma {:induction false} ChainPiecesBounds(chain: seq<Interval>, iv: Interval, k: nat)
    requires k <= |chain| && AllNonEmpty(chain)
    ensures forall i :: 0 <= i < |ChainPieces(chain, iv, k)| ==>
      0 <= ChainPieces(chain, iv, k)[i].start < ChainPieces(chain, iv, k)[i].end <= ChainOffset(chain, k)
    ensures forall i, j :: 0 <= i < j < |ChainPieces(chain, iv, k)| ==>
      ChainPieces(chain, iv, k)[i].end <= ChainPieces(chain, iv, k)[j].start
    decreases k
  {
    if k > 0 {
      var init, hit := ChainPieces(chain, iv, k - 1), BlockHit(chain, iv, k - 1);
      var p := init + hit;
      assert ChainPieces(chain, iv, k) == p;
      ChainPiecesBounds(chain, iv, k - 1);
      ChainOffsetMonotone(chain, k - 1);
      BlockHitSpec(chain, iv, k - 1);
      assert ChainOffset(chain, k - 1) <= ChainOffset(chain, k);
      forall i | 0 <= i < |p| ensures 0 <= p[i].start < p[i].end <= ChainOffset(chain, k) {
        if i < |init| { assert p[i] == init[i]; } else { assert p[i] == hit[0]; }
      }
      forall i, j | 0 <= i < j < |p| ensures p[i].end <= p[j].start {
        if j < |init| {
          assert p[i] == init[i] && p[j] == init[j];
        } else {
          assert p[j] == hit[0] && p[i] == init[i];
        }
      }
    }
  }

  lemma {:induction false} ChainOffsetMonotone(chain: seq<Interval>, k: nat)
    requires k <= |chain| && AllNonEmpty(chain)
    ensures ChainOffset(chain, k) >= 0
    decreases k
  {
    if k > 0 {
      ChainOffsetMonotone(chain, k - 1);
    }
  }

  /**
   * The hull is a non-empty range of chain coordinates, and it exists
   * exactly when some block shares a position with `iv`.
   */
  lemma MapIntervalSpec(chain: seq<Interval>, iv: Interval)
    requires AllNonEmpty(chain)
    ensures MapInterval(chain, iv).None? <==> forall j :: 0 <= j < |chain| ==> !Overlaps(chain[j], iv)
    ensures MapInterval(chain, iv).Some? ==>
      0 <= MapInterval(chain, iv).value.start < MapInterval(chain, iv).value.end <= ChainOffset(chain, |chain|)
  {
    ChainPiecesEmpty(chain, iv, |chain|);
    ChainPiecesBounds(chain, iv, |chain|);
    var p := ChainPieces(chain, iv, |chain|);
    if |p| > 1 {
      assert p[0].end <= p[|p| - 1].start;
    }
  }

  /** A right-arm range of the chain read from the other end (`length - end`, `length - start`). */
  function Mirror(x: Interval, length: int): Interval
  {
    Interval(length - x.end, length - x.start)
  }

  /** The mapped hits of `hits` on the chain, in order, skipping those the chain misses. */
  function MapHits(chain: seq<Interval>, hits: seq<Interval>): seq<Interval>
  {
    if hits == [] then []
    else
      var rest := MapHits(chain, hits[..|hits| - 1]);
      match MapInterval(chain, hits[|hits| - 1])
      case Some(m) => rest + [m]
      case None => rest
  }

  /** The mapped hits of `hits` on a right-arm chain, read from the other end of `length`. */
  function MirroredHits(chain: seq<Interval>, hits: seq<Interval>, length: int): seq<Interval>
  {
    if hits == [] then []
    else
      var rest := MirroredHits(chain, hits[..|hits| - 1], length);
      match MapInterval(chain, hits[|hits| - 1])
      case Some(m) => rest + [Mirror(m, length)]
      case None => rest
  }

  /** A hit extended by 128 on both sides and clipped to `[0, length]`. */
  function Pad(x: Interval, length: int): Interval
  {
    Interval(Max(0, x.start - 128), Min(length, x.end + 128))
  }

  function PadAll(s: seq<Interval>, length: int): (r: seq<Interval>)
    ensures |r| == |s| && forall i :: 0 <= i < |s| ==> r[i] == Pad(s[i], length)
  {
    seq(|s|, i requires 0 <= i < |s| => Pad(s[i], length))
  }

  /** The right arms, in segment order. */
  function Rights(segs: seq<Segment>): (r: seq<Interval>)
    ensures |r| == |segs| && forall i :: 0 <= i < |segs| ==> r[i] == segs[i].right
  {
    seq(|segs|, i requires 0 <= i < |segs| => segs[i].right)
  }

  /** The mapped peak hits of both arms, in unrolled coordinates (`lmapped + rmapped`). */
  function Hits(rna: InvRepeat, lov: seq<Interval>, rov: seq<Interval>): seq<Interval>
  {
    var length := UnrolledLength(rna);
    MapHits(Merge(Lefts(rna.segments)), lov) + MirroredHits(Merge(Rights(rna.segments)), rov, length)
  }

  /**
   * The unrolled ranges a repeat is cropped to: none unless both arm
   * envelopes overlap a peak; otherwise the merged, padded hits.
   */
  function Windows(rna: InvRepeat, pindex: seq<Interval>): seq<Interval>
    requires |rna.segments| > 0
  {
    var lov := Overlapping(pindex, LeftBrange(rna));
    var rov := Overlapping(pindex, RightBrange(rna));
    if lov == [] || rov == [] then []
    else Merge(PadAll(Hits(rna, lov, rov), UnrolledLength(rna)))
  }

  /** Padded hits, merged: ordered ranges inside `[0, length]`. */
  lemma PaddedOrdered(hits: seq<Interval>, length: int)
    ensures var w := Merge(PadAll(hits, length));
      Ordered(w) && forall i :: 0 <= i < |w| ==> 0 <= w[i].start && w[i].end <= length
  {
    MergeWithin(PadAll(hits, length), 0, length);
  }

  /** `q` is within 128 of some hit. */
  predicate NearHit(hits: seq<Interval>, q: int)
  {
    exists i :: 0 <= i < |hits| && hits[i].start - 128 <= q < hits[i].end + 128
  }

  /** Padded hits, merged, cover a position iff it is in `[0, length)` and within 128 of a hit. */
  lemma PaddedCover(hits: seq<Interval>, length: int, q: int)
    ensures Covered(Merge(PadAll(hits, length)), q) <==> 0 <= q < length && NearHit(hits, q)
  {
    var padded := PadAll(hits, length);
    if Covered(padded, q) {
      var i :| 0 <= i < |padded| && padded[i].Contains(q);
    }
    if 0 <= q < length && exists i :: 0 <= i < |hits| && hits[i].start - 128 <= q < hits[i].end + 128 {
      var i :| 0 <= i < |hits| && hits[i].start - 128 <= q < hits[i].end + 128;
      assert padded[i].Contains(q);
    }
  }

  /**
   * The windows are ordered ranges inside the unrolled coordinates, so the
   * repeat can be cropped to them.
   */
  lemma WindowsSpec(rna: InvRepeat, pindex: seq<Interval>)
    requires |rna.segments| > 0
    ensures var w := Windows(rna, pindex);
      Ordered(w) && forall i :: 0 <= i < |w| ==> 0 <= w[i].start && w[i].end <= UnrolledLength(rna)
  {
    var lov := Overlapping(pindex, LeftBrange(rna));
    var rov := Overlapping(pindex, RightBrange(rna));
    if lov != [] && rov != [] {
      PaddedOrdered(Hits(rna, lov, rov), UnrolledLength(rna));
    }
  }

  /**
   * When both arm envelopes meet a peak, the windows cover a position
   * exactly when it lies in the unrolled coordinates within 128 of a hit.
   */
  lemma WindowsCover(rna: InvRepeat, pindex: seq<Interval>, q: int)
    requires |rna.segments| > 0
    requires Overlapping(pindex, LeftBrange(rna)) != [] && Overlapping(pindex, RightBrange(rna)) != []
    ensures Covered(Windows(rna, pindex), q) <==>
      0 <= q < UnrolledLength(rna) && NearHit(Hits(rna, Overlapping(pindex, LeftBrange(rna)), Overlapping(pindex, RightBrange(rna))), q)
  {
    var hits := Hits(rna, Overlapping(pindex, LeftBrange(rna)), Overlapping(pindex, RightBrange(rna)));
    assert Windows(rna, pindex) == Merge(PadAll(hits, UnrolledLength(rna)));
    PaddedCover(hits, UnrolledLength(rna), q);
  }

  /** The pieces of one repeat: its crops to its windows. */
  function Frags(rna: InvRepeat, pindex: seq<Interval>): seq<InvRepeat>
    requires |rna.segments| > 0
  {
    Crops(rna, Windows(rna, pindex))
  }

  /** The left and right arms as chains, and the total left-arm length. */
  method Chains(rna: InvRepeat) returns (lchain: seq<Interval>, rchain: seq<Interval>, length: int)
    ensures lchain == Lefts(rna.segments) && rchain == Rights(rna.segments)
    ensures length == UnrolledLength(rna)
  {
    var segs := rna.segments;
    lchain, rchain, length := [], [], 0;
    for i := 0 to |segs|
      invariant |lchain| == i && forall j :: 0 <= j < i ==> lchain[j] == segs[j].left
      invariant |rchain| == i && forall j :: 0 <= j < i ==> rchain[j] == segs[j].right
      invariant length == Offset(segs, i)
    {
      lchain := lchain + [segs[i].left];
      rchain := rchain + [segs[i].right];
      length := length + segs[i].left.Len();
    }
    assert lchain == Lefts(segs) && rchain == Rights(segs);
  }

  /** `lmapped`: the peaks of the left arm envelope in chain coordinates. */
  method MapLeft(chain: seq<Interval>, lov: seq<Interval>) returns (lmapped: seq<Interval>)
    ensures lmapped == MapHits(chain, lov)
  {
    lmapped := [];
    for i := 0 to |lov|
      invariant lmapped == MapHits(chain, lov[..i])
    {
      assert lov[..i + 1][..i] == lov[..i];
      var m := MapInterval(chain, lov[i]);
      if m.Some? {
        lmapped := lmapped + [m.value];
      }
    }
    assert lov[..|lov|] == lov;
  }

  /** `rmapped`: the peaks of the right arm envelope in chain coordinates, mirrored. */
  method MapRight(chain: seq<Interval>, rov: seq<Interval>, length: int) returns (rmapped: seq<Interval>)
    ensures rmapped == MirroredHits(chain, rov, length)
  {
    rmapped := [];
    for i := 0 to |rov|
      invariant rmapped == MirroredHits(chain, rov[..i], length)
    {
      assert rov[..i + 1][..i] == rov[..i];
      var m := MapInterval(chain, rov[i]);
      if m.Some? {
        rmapped := rmapped + [Mirror(m.value, length)];
      }
    }
    assert rov[..|rov|] == rov;
  }

  /**
   * One repeat's share of the chopping loop: the peaks of each arm
   * envelope are mapped through the arm's chain, padded, merged and used
   * to crop the repeat.
   */
  method Chop(rna: InvRepeat, pindex: seq<Interval>) returns (frags: seq<InvRepeat>)
    requires ValidRepeat(rna)
    ensures frags == Frags(rna, pindex)
  {
    var lov := Overlapping(pindex, LeftBrange(rna));
    var rov := Overlapping(pindex, RightBrange(rna));
    if lov == [] || rov == [] {
      return [];
    }
    var lchain, rchain, length := Chains(rna);
    var lmapped := MapLeft(Merge(lchain), lov);
    var rmapped := MapRight(Merge(rchain), rov, length);
    var overlaps := Merge(PadAll(lmapped + rmapped, length));
    assert overlaps == Windows(rna, pindex);
    WindowsSpec(rna, pindex);
    frags := FromUnrolled(rna, overlaps);
  }
  // ---------------------------------------------------------------------
  // The pieces of a filtering group

  /** A distinct crop with the repeats (by index) it was cut from (`{'dsRNA': ..., 'origin': [...]}`). */
  datatype Piece = Piece(dsRNA: InvRepeat, origin: seq<int>)

  /** `ind` once for every copy of `ir` among `frags`. */
  function Credit(frags: seq<InvRepeat>, ir: InvRepeat, ind: int): seq<int>
  {
    if frags == [] then []
    else Credit(frags[..|frags| - 1], ir, ind) + (if frags[|frags| - 1] == ir then [ind] else [])
  }

  lemma {:induction false} CreditAbsent(frags: seq<InvRepeat>, ir: InvRepeat, ind: int)
    requires ir !in frags
    ensures Credit(frags, ir, ind) == []
    decreases |frags|
  {
    if frags != [] {
      assert frags == frags[..|frags| - 1] + [frags[|frags| - 1]];
      CreditAbsent(frags[..|frags| - 1], ir, ind);
    }
  }

  predicate ValidPayload(dsRNA: seq<InvRepeat>, payload: seq<int>)
  {
    (forall i :: 0 <= i < |payload| ==> 0 <= payload[i] < |dsRNA|) &&
    (forall i :: 0 <= i < |dsRNA| ==> ValidRepeat(dsRNA[i]))
  }

  /** The pieces cut from each repeat of the payload, in payload order. */
  function Cuts(dsRNA: seq<InvRepeat>, payload: seq<int>, pindex: seq<Interval>): (r: seq<seq<InvRepeat>>)
    requires ValidPayload(dsRNA, payload)
    ensures |r| == |payload|
    ensures forall i :: 0 <= i < |payload| ==> r[i] == Frags(dsRNA[payload[i]], pindex)
  {
    seq(|payload|, i requires 0 <= i < |payload| => Frags(dsRNA[payload[i]], pindex))
  }

  /** The origin list of `ir` after the first `k` cut lists (repeat `payload[i]` gave `cuts[i]`). */
  function Origins(cuts: seq<seq<InvRepeat>>, payload: seq<int>, ir: InvRepeat, k: nat): seq<int>
    requires |cuts| == |payload| && k <= |payload|
  {
    if k == 0 then []
    else Origins(cuts, payload, ir, k - 1) + Credit(cuts[k - 1], ir, payload[k - 1])
  }

  /** `ir` is among the first `k` cut lists. */
  ghost predicate CutBefore(cuts: seq<seq<InvRepeat>>, ir: InvRepeat, k: nat)
    requires k <= |cuts|
  {
    exists i :: 0 <= i < k && ir in cuts[i]
  }

  lemma {:induction false} OriginsAbsent(cuts: seq<seq<InvRepeat>>, payload: seq<int>, ir: InvRepeat, k: nat)
    requires |cuts| == |payload| && k <= |payload|
    requires !CutBefore(cuts, ir, k)
    ensures Origins(cuts, payload, ir, k) == []
    decreases k
  {
    if k > 0 {
      assert !CutBefore(cuts, ir, k - 1);
      OriginsAbsent(cuts, payload, ir, k - 1);
      CreditAbsent(cuts[k - 1], ir, payload[k - 1]);
    }
  }

  /** The keys are the table's domain, listed once each, each the ranges of its piece. */
  ghost predicate KeyedTable(keys: seq<seq<Interval>>, pieces: map<seq<Interval>, Piece>)
  {
    (forall key :: key in pieces <==> key in keys) &&
    (forall i, j :: 0 <= i < j < |keys| ==> keys[i] != keys[j]) &&
    (forall key :: key in pieces ==> SeqRanges(pieces[key].dsRNA) == key)
  }

  /** The pieces met so far: the first `k` cut lists and `u` pieces of the next one. */
  ghost predicate Seen(cuts: seq<seq<InvRepeat>>, ir: InvRepeat, k: nat, u: nat)
    requires k <= |cuts|
  {
    CutBefore(cuts, ir, k) || (k < |cuts| && u <= |cuts[k]| && ir in cuts[k][..u])
  }

  /** The origins recorded once `u` pieces of cut list `k` are in. */
  function OriginsSoFar(cuts: seq<seq<InvRepeat>>, payload: seq<int>, ir: InvRepeat, k: nat, u: nat): seq<int>
    requires |cuts| == |payload| && k <= |payload|
  {
    Origins(cuts, payload, ir, k) +
      (if k < |payload| && u <= |cuts[k]| then Credit(cuts[k][..u], ir, payload[k]) else [])
  }

  /** The table after the first `k` cut lists and `u` pieces of the next one. */
  ghost predicate Collected(cuts: seq<seq<InvRepeat>>, payload: seq<int>,
                            keys: seq<seq<Interval>>, pieces: map<seq<Interval>, Piece>, k: nat, u: nat)
    requires |cuts| == |payload| && k <= |payload|
  {
    KeyedTable(keys, pieces) &&
    (k == |payload| ==> u == 0) &&
    (k < |payload| ==> u <= |cuts[k]|) &&
    (forall key :: key in pieces ==> Seen(cuts, pieces[key].dsRNA, k, u)) &&
    (forall key :: key in pieces ==> pieces[key].origin == OriginsSoFar(cuts, payload, pieces[key].dsRNA, k, u)) &&
    (forall ir :: Seen(cuts, ir, k, u) ==> SeqRanges(ir) in pieces)
  }

  lemma SeenNext(cuts: seq<seq<InvRepeat>>, ir: InvRepeat, k: nat, u: nat)
    requires k < |cuts| && u < |cuts[k]|
    ensures Seen(cuts, ir, k, u + 1) <==> Seen(cuts, ir, k, u) || ir == cuts[k][u]
  {
    assert cuts[k][..u + 1] == cuts[k][..u] + [cuts[k][u]];
  }

  lemma OriginsNext(cuts: seq<seq<InvRepeat>>, payload: seq<int>, ir: InvRepeat, k: nat, u: nat)
    requires |cuts| == |payload| && k < |payload| && u < |cuts[k]|
    ensures OriginsSoFar(cuts, payload, ir, k, u + 1) ==
      OriginsSoFar(cuts, payload, ir, k, u) + (if ir == cuts[k][u] then [payload[k]] else [])
  {
    assert cuts[k][..u + 1][..u] == cuts[k][..u];
  }

  lemma OriginsFirst(cuts: seq<seq<InvRepeat>>, payload: seq<int>, ir: InvRepeat, k: nat, u: nat)
    requires |cuts| == |payload| && k < |payload| && u <= |cuts[k]|
    requires !Seen(cuts, ir, k, u)
    ensures OriginsSoFar(cuts, payload, ir, k, u) == []
  {
    OriginsAbsent(cuts, payload, ir, k);
    CreditAbsent(cuts[k][..u], ir, payload[k]);
  }

  /** Recording a repeat whose key is already in the table. */
  lemma AddKnown(cuts: seq<seq<InvRepeat>>, payload: seq<int>,
                 keys: seq<seq<Interval>>, pieces0: map<seq<Interval>, Piece>, k: nat, u: nat)
    requires |cuts| == |payload| && k < |payload| && u < |cuts[k]|
    requires Collected(cuts, payload, keys, pieces0, k, u)
    requires SeqRanges(cuts[k][u]) in pieces0
    ensures Collected(cuts, payload, keys,
      pieces0[SeqRanges(cuts[k][u]) := Piece(cuts[k][u], pieces0[SeqRanges(cuts[k][u])].origin + [payload[k]])], k, u + 1)
  {
    var mapped := cuts[k][u];
    var key := SeqRanges(mapped);
    var pieces := pieces0[key := Piece(mapped, pieces0[key].origin + [payload[k]])];
    assert pieces0[key].dsRNA == mapped by {
      SeqRangesInjective(pieces0[key].dsRNA, mapped);
    }
    assert KeyedTable(keys, pieces);
    assert forall key' :: key' in pieces ==> Seen(cuts, pieces[key'].dsRNA, k, u + 1) by {
      forall key' | key' in pieces ensures Seen(cuts, pieces[key'].dsRNA, k, u + 1) {
        SeenNext(cuts, pieces[key'].dsRNA, k, u);
      }
    }
    assert forall key' :: key' in pieces ==>
        pieces[key'].origin == OriginsSoFar(cuts, payload, pieces[key'].dsRNA, k, u + 1) by {
      forall key' | key' in pieces
        ensures pieces[key'].origin == OriginsSoFar(cuts, payload, pieces[key'].dsRNA, k, u + 1)
      {
        OriginsNext(cuts, payload, pieces[key'].dsRNA, k, u);
      }
    }
    assert forall ir :: Seen(cuts, ir, k, u + 1) ==> SeqRanges(ir) in pieces by {
      forall ir | Seen(cuts, ir, k, u + 1) ensures SeqRanges(ir) in pieces {
        SeenNext(cuts, ir, k, u);
      }
    }
    CollectedIntro(cuts, payload, keys, pieces, k, u + 1);
  }

  /** The parts of `Collected`, put together. */
  lemma CollectedIntro(cuts: seq<seq<InvRepeat>>, payload: seq<int>,
                       keys: seq<seq<Interval>>, pieces: map<seq<Interval>, Piece>, k: nat, u: nat)
    requires |cuts| == |payload| && k < |payload| && u <= |cuts[k]|
    requires KeyedTable(keys, pieces)
    requires forall key :: key in pieces ==> Seen(cuts, pieces[key].dsRNA, k, u)
    requires forall key :: key in pieces ==> pieces[key].origin == OriginsSoFar(cuts, payload, pieces[key].dsRNA, k, u)
    requires forall ir :: Seen(cuts, ir, k, u) ==> SeqRanges(ir) in pieces
    ensures Collected(cuts, payload, keys, pieces, k, u)
  {
  }

  /** Recording a repeat whose key is new. */
  lemma AddFresh(cuts: seq<seq<InvRepeat>>, payload: seq<int>,
                 keys0: seq<seq<Interval>>, pieces0: map<seq<Interval>, Piece>, k: nat, u: nat)
    requires |cuts| == |payload| && k < |payload| && u < |cuts[k]|
    requires Collected(cuts, payload, keys0, pieces0, k, u)
    requires SeqRanges(cuts[k][u]) !in pieces0
    ensures Collected(cuts, payload, keys0 + [SeqRanges(cuts[k][u])],
      pieces0[SeqRanges(cuts[k][u]) := Piece(cuts[k][u], [payload[k]])], k, u + 1)
  {
    var mapped := cuts[k][u];
    var key := SeqRanges(mapped);
    var keys := keys0 + [key];
    var pieces := pieces0[key := Piece(mapped, [payload[k]])];
    assert !Seen(cuts, mapped, k, u);
    OriginsFirst(cuts, payload, mapped, k, u);
    assert KeyedTable(keys, pieces);
    forall key' | key' in pieces
      ensures Seen(cuts, pieces[key'].dsRNA, k, u + 1)
      ensures pieces[key'].origin == OriginsSoFar(cuts, payload, pieces[key'].dsRNA, k, u + 1)
    {
      SeenNext(cuts, pieces[key'].dsRNA, k, u);
      OriginsNext(cuts, payload, pieces[key'].dsRNA, k, u);
    }
    forall ir | Seen(cuts, ir, k, u + 1) ensures SeqRanges(ir) in pieces {
      SeenNext(cuts, ir, k, u);
    }
    CollectedIntro(cuts, payload, keys, pieces, k, u + 1);
  }

  /** Adds piece `u` of cut list `k` to the table. */
  method AddPiece(ghost cuts: seq<seq<InvRepeat>>, payload: seq<int>,
                  keys0: seq<seq<Interval>>, pieces0: map<seq<Interval>, Piece>, k: nat, u: nat, mapped: InvRepeat)
    returns (keys: seq<seq<Interval>>, pieces: map<seq<Interval>, Piece>)
    requires |cuts| == |payload| && k < |payload| && u < |cuts[k]| && mapped == cuts[k][u]
    requires Collected(cuts, payload, keys0, pieces0, k, u)
    ensures Collected(cuts, payload, keys, pieces, k, u + 1)
  {
    var key := SeqRanges(mapped);
    if key in pieces0 {
      AddKnown(cuts, payload, keys0, pieces0, k, u);
      keys, pieces := keys0, pieces0[key := Piece(mapped, pieces0[key].origin + [payload[k]])];
    } else {
      AddFresh(cuts, payload, keys0, pieces0, k, u);
      keys, pieces := keys0 + [key], pieces0[key := Piece(mapped, [payload[k]])];
    }
  }

  /** Finishing cut list `k` is starting cut list `k + 1`. */
  lemma NextRepeat(cuts: seq<seq<InvRepeat>>, payload: seq<int>,
                   keys: seq<seq<Interval>>, pieces: map<seq<Interval>, Piece>, k: nat)
    requires |cuts| == |payload| && k < |payload|
    requires Collected(cuts, payload, keys, pieces, k, |cuts[k]|)
    ensures Collected(cuts, payload, keys, pieces, k + 1, 0)
  {
    assert cuts[k][..|cuts[k]|] == cuts[k];
    forall ir ensures CutBefore(cuts, ir, k + 1) <==> CutBefore(cuts, ir, k) || ir in cuts[k] {
      if CutBefore(cuts, ir, k + 1) {
        var i :| 0 <= i < k + 1 && ir in cuts[i];
        if i < k {
          assert CutBefore(cuts, ir, k);
        }
      }
    }
    if k + 1 < |payload| {
      assert cuts[k + 1][..0] == [];
    }
  }

  /**
   * The `pieces` table of one group: every crop of every repeat of the
   * payload under its blocks, with the indices of all repeats it was cut
   * from, in payload order, and the keys in insertion order.
   */
  method Collect(dsRNA: seq<InvRepeat>, payload: seq<int>, pindex: seq<Interval>)
    returns (keys: seq<seq<Interval>>, pieces: map<seq<Interval>, Piece>)
    requires ValidPayload(dsRNA, payload)
    ensures KeyedTable(keys, pieces)
    ensures forall key :: key in pieces ==> CutBefore(Cuts(dsRNA, payload, pindex), pieces[key].dsRNA, |payload|)
    ensures forall key :: key in pieces ==>
      pieces[key].origin == Origins(Cuts(dsRNA, payload, pindex), payload, pieces[key].dsRNA, |payload|)
    ensures forall ir :: CutBefore(Cuts(dsRNA, payload, pindex), ir, |payload|) ==> SeqRanges(ir) in pieces
  {
    ghost var cuts := Cuts(dsRNA, payload, pindex);
    keys, pieces := [], map[];
    CollectedStart(cuts, payload);
    for k := 0 to |payload|
      invariant Collected(cuts, payload, keys, pieces, k, 0)
    {
      var frags := Chop(dsRNA[payload[k]], pindex);
      keys, pieces := AddPieces(cuts, payload, keys, pieces, k, frags);
    }
    CollectedDone(cuts, payload, keys, pieces);
  }

  /** Adds the pieces of repeat `payload[k]` to the table, in order. */
  method AddPieces(ghost cuts: seq<seq<InvRepeat>>, payload: seq<int>,
                   keys0: seq<seq<Interval>>, pieces0: map<seq<Interval>, Piece>, k: nat, frags: seq<InvRepeat>)
    returns (keys: seq<seq<Interval>>, pieces: map<seq<Interval>, Piece>)
    requires |cuts| == |payload| && k < |payload| && frags == cuts[k]
    requires Collected(cuts, payload, keys0, pieces0, k, 0)
    ensures Collected(cuts, payload, keys, pieces, k + 1, 0)
  {
    keys, pieces := keys0, pieces0;
    for u := 0 to |frags|
      invariant Collected(cuts, payload, keys, pieces, k, u)
    {
      keys, pieces := AddPiece(cuts, payload, keys, pieces, k, u, frags[u]);
    }
    NextRepeat(cuts, payload, keys, pieces, k);
  }

  lemma CollectedStart(cuts: seq<seq<InvRepeat>>, payload: seq<int>)
    requires |cuts| == |payload|
    ensures Collected(cuts, payload, [], map[], 0, 0)
  {
    forall ir ensures !Seen(cuts, ir, 0, 0) {
      if 0 < |cuts| {
        assert cuts[0][..0] == [];
      }
    }
  }

  lemma CollectedDone(cuts: seq<seq<InvRepeat>>, payload: seq<int>,
                      keys: seq<seq<Interval>>, pieces: map<seq<Interval>, Piece>)
    requires |cuts| == |payload|
    requires Collected(cuts, payload, keys, pieces, |payload|, 0)
    ensures KeyedTable(keys, pieces)
    ensures forall key :: key in pieces ==> CutBefore(cuts, pieces[key].dsRNA, |payload|)
    ensures forall key :: key in pieces ==> pieces[key].origin == Origins(cuts, payload, pieces[key].dsRNA, |payload|)
    ensures forall ir :: CutBefore(cuts, ir, |payload|) ==> SeqRanges(ir) in pieces
  {
    var n := |payload|;
    forall ir ensures Seen(cuts, ir, n, 0) <==> CutBefore(cuts, ir, n) {
      SeenDone(cuts, ir);
    }
    CollectedOrigins(cuts, payload, keys, pieces);
  }

  lemma CollectedOrigins(cuts: seq<seq<InvRepeat>>, payload: seq<int>,
                         keys: seq<seq<Interval>>, pieces: map<seq<Interval>, Piece>)
    requires |cuts| == |payload|
    requires forall key :: key in pieces ==> pieces[key].origin == OriginsSoFar(cuts, payload, pieces[key].dsRNA, |payload|, 0)
    ensures forall key :: key in pieces ==> pieces[key].origin == Origins(cuts, payload, pieces[key].dsRNA, |payload|)
  {
    forall key | key in pieces ensures pieces[key].origin == Origins(cuts, payload, pieces[key].dsRNA, |payload|) {
      SoFarDone(cuts, payload, pieces[key].dsRNA);
    }
  }

  lemma SeenDone(cuts: seq<seq<InvRepeat>>, ir: InvRepeat)
    ensures Seen(cuts, ir, |cuts|, 0) <==> CutBefore(cuts, ir, |cuts|)
  {
  }

  lemma SoFarDone(cuts: seq<seq<InvRepeat>>, payload: seq<int>, ir: InvRepeat)
    requires |cuts| == |payload|
    ensures OriginsSoFar(cuts, payload, ir, |payload|, 0) == Origins(cuts, payload, ir, |payload|)
  {
    assert Origins(cuts, payload, ir, |payload|) + [] == Origins(cuts, payload, ir, |payload|);
  }
}
