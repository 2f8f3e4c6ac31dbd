// Gap-tiling RNA models of one contig strand: every canonical RNA core is
// stretched over the consecutive TSS boundaries upstream and TES boundaries
// downstream of it, and everything left uncovered up to the last boundary is
// cut at transcription boundaries into single-block chains.
module RnaModels {
  import opened Common
  import opened Sorting
  import opened Intervals
  import opened Boundaries
  import opened Scoring
  import RnaCore

  // ---------------------------------------------------------------------
  // Steps over the boundary index

  /** How far `pos` may still move towards `side` inside the index. */
  function Reach(idx: BoundariesIndex, pos: int, side: Side): int
    reads idx
  {
    var b := idx.boundaries;
    if |b| == 0 then 0 else if side == Left then pos - b[0] else b[|b| - 1] - pos
  }

  /** The neighbour a window reaches: its start on the left, its end on the right. */
  function Far(w: Interval, side: Side): int
  {
    if side == Left then w.start else w.end
  }

  /** An unclipped window that can be built moves strictly towards its side and stays inside the index. */
  lemma WindowStep(idx: BoundariesIndex, pos: int, side: Side)
    requires idx.Valid() && side != OtherSide
    requires idx.Window(pos, side, None).Ok?
    ensures var w := idx.Window(pos, side, None).value.0;
      Reach(idx, pos, side) > 0 && 0 <= Reach(idx, Far(w, side), side) < Reach(idx, pos, side)
  {
    var b, d := idx.boundaries, idx.data;
    if side == Left {
      var k := LastBelow(b, pos);
      if k >= 0 {
        assert b[0] <= b[k];
      }
    } else {
      var k := FirstAbove(b, pos);
      assert b[k] <= b[|b| - 1];
    }
  }

  /** The answer of `closest` is a stored (position, label) entry. */
  lemma NearestEntry(b: seq<int>, d: seq<string>, pos: int, side: Side)
    requires |b| == |d| && Nearest(b, d, pos, side).Ok?
    ensures exists k :: 0 <= k < |b| && Nearest(b, d, pos, side).value == (b[k], d[k])
  {
    if side == Left && LastBelow(b, pos) < 0 {
      assert Nearest(b, d, pos, side).value == (b[|b| - 1], d[|b| - 1]);
    }
  }

  /** The right neighbour lies strictly above `pos` and not past the last boundary. */
  lemma NearestRightStep(b: seq<int>, d: seq<string>, pos: int)
    requires |b| == |d| && SortedInts(b) && Nearest(b, d, pos, Right).Ok?
    ensures pos < Nearest(b, d, pos, Right).value.0 <= b[|b| - 1]
    ensures Nearest(b, d, pos, Right).value.0 in b
  {
    var k := FirstAbove(b, pos);
    assert b[k] <= b[|b| - 1];
  }

  /**
   * The extension walk of lines 26-36: window after window towards `side`
   * while the reached boundary carries `mark`; the position the last window
   * was taken from. A window that cannot be built fails the walk.
   */
  function Walk(idx: BoundariesIndex, pos: int, side: Side, mark: string): Result<int>
    reads idx
    requires idx.Valid() && side != OtherSide
    decreases Reach(idx, pos, side)
  {
    var w := idx.Window(pos, side, None);
    if w.Err? then Err(w.error)
    else if w.value.1 != mark then Ok(pos)
    else
      WindowStep(idx, pos, side);
      Walk(idx, Far(w.value.0, side), side, mark)
  }

  /**
   * A walk only moves towards its side; it stops in front of a boundary
   * whose mark differs, and when it moved it stopped on a boundary with
   * the mark.
   */
  lemma {:induction false} WalkSpec(idx: BoundariesIndex, pos: int, side: Side, mark: string)
    requires idx.Valid() && side != OtherSide
    ensures var r := Walk(idx, pos, side, mark);
      r.Ok? ==>
        (side == Left ==> r.value <= pos) && (side == Right ==> r.value >= pos) &&
        idx.Window(r.value, side, None).Ok? && idx.Window(r.value, side, None).value.1 != mark &&
        (r.value != pos ==> exists k :: 0 <= k < |idx.boundaries| && idx.boundaries[k] == r.value && idx.data[k] == mark)
    decreases Reach(idx, pos, side)
  {
    var w := idx.Window(pos, side, None);
    if w.Ok? && w.value.1 == mark {
      WindowStep(idx, pos, side);
      var next := Far(w.value.0, side);
      WalkSpec(idx, next, side, mark);
      var r := Walk(idx, next, side, mark);
      if r.Ok? && r.value == next {
        var b, d := idx.boundaries, idx.data;
        NearestEntry(b, d, pos, side);
        var k :| 0 <= k < |b| && Nearest(b, d, pos, side).value == (b[k], d[k]);
        assert b[k] == next && d[k] == mark;
      }
    }
  }

  /** One `while key == ...` loop of lines 27-29 / 33-35. */
  method WalkLoop(idx: BoundariesIndex, pos: int, side: Side, mark: string) returns (r: Result<int>)
    requires idx.Valid() && side != OtherSide
    ensures r == Walk(idx, pos, side, mark)
  {
    var at := pos;
    var w := idx.Window(at, side, None);
    while w.Ok? && w.value.1 == mark
      invariant w == idx.Window(at, side, None)
      invariant Walk(idx, at, side, mark) == Walk(idx, pos, side, mark)
      decreases Reach(idx, at, side)
    {
      WindowStep(idx, at, side);
      at := Far(w.value.0, side);
      w := idx.Window(at, side, None);
    }
    if w.Err? {
      return Err(w.error);
    }
    return Ok(at);
  }

  // ---------------------------------------------------------------------
  // Extended RNA models (lines 20-43)

  /** The exons with the first one reaching back to `lo` and the last one on to `hi`. */
  function Stretched(exons: seq<Interval>, lo: int, hi: int): seq<Interval>
    requires |exons| > 0
  {
    var n := |exons| - 1;
    [Interval(lo, exons[0].end)] + (if n == 0 then [] else exons[1..n]) + [Interval(exons[n].start, hi)]
  }

  /** Upstream is the left side on the forward strand and the right side otherwise. */
  function Upstream(strand: Strand): Side { if strand == Forward then Left else Right }

  function Downstream(strand: Strand): Side { if strand == Forward then Right else Left }

  /**
   * One RNA core extended to the farthest consecutive TSS upstream and TES
   * downstream, as merged blocks. No exons is an `IndexError`; an extension
   * that does not contain the core fails the assertion of line 39.
   */
  function Extend(idx: BoundariesIndex, strand: Strand, exons: seq<Interval>): Result<seq<Interval>>
    reads idx
    requires idx.Valid()
  {
    if exons == [] then Err(IndexError)
    else
      var start, end := exons[0].start, exons[|exons| - 1].end;
      var fwd := strand == Forward;
      var tss := Walk(idx, if fwd then start else end, Upstream(strand), "tss");
      var tes := Walk(idx, if fwd then end else start, Downstream(strand), "tes");
      Enclose(exons, fwd, tss, tes)
  }

  /** Lines 30-40 once both walks are done: the exons stretched to the walks' ends, if those enclose them. */
  function Enclose(exons: seq<Interval>, fwd: bool, tss: Result<int>, tes: Result<int>): Result<seq<Interval>>
    requires |exons| > 0
  {
    if tss.Err? then Err(tss.error)
    else if tes.Err? then Err(tes.error)
    else
      var lo, hi := if fwd then tss.value else tes.value, if fwd then tes.value else tss.value;
      if !(lo <= exons[0].start < exons[|exons| - 1].end <= hi) then Err(AssertionError)
      else Ok(Merge(Stretched(exons, lo, hi)))
  }

  /** The smallest and largest covered positions of separated blocks are the first start and the last end. */
  lemma SeparatedBounds(r: seq<Interval>)
    requires Separated(r) && |r| > 0
    ensures Covered(r, r[0].start) && Covered(r, r[|r| - 1].end - 1)
    ensures forall p :: Covered(r, p) ==> r[0].start <= p < r[|r| - 1].end
  {
    assert r[0].Contains(r[0].start);
    assert r[|r| - 1].Contains(r[|r| - 1].end - 1);
    forall p | Covered(r, p) ensures r[0].start <= p < r[|r| - 1].end {
      var i :| 0 <= i < |r| && r[i].Contains(p);
    }
  }

  lemma StretchedCovers(exons: seq<Interval>, lo: int, hi: int, p: int)
    requires |exons| > 0
    ensures var n := |exons| - 1;
      Covered(Stretched(exons, lo, hi), p) <==>
        lo <= p < exons[0].end || Covered(if n == 0 then [] else exons[1..n], p) || exons[n].start <= p < hi
  {
    var n := |exons| - 1;
    var mid := if n == 0 then [] else exons[1..n];
    CoveredConcat([Interval(lo, exons[0].end)] + mid, [Interval(exons[n].start, hi)], p);
    CoveredCons(Interval(lo, exons[0].end), mid, p);
    CoveredCons(Interval(exons[n].start, hi), [], p);
  }

  /** Every exon position lies in the stretched exons. */
  lemma StretchedKeepsExons(exons: seq<Interval>, lo: int, hi: int, p: int)
    requires |exons| > 0 && lo <= exons[0].start && exons[|exons| - 1].end <= hi
    requires Covered(exons, p)
    ensures Covered(Stretched(exons, lo, hi), p)
  {
    var n := |exons| - 1;
    StretchedCovers(exons, lo, hi, p);
    var i :| 0 <= i < |exons| && exons[i].Contains(p);
    if 0 < i < n {
      assert exons[1..n][i - 1] == exons[i];
    }
  }

  /**
   * Stretching merged exons to `lo` and `hi` and merging again gives a
   * non-empty run of separated blocks from `lo` to `hi` that keeps every
   * exon position and covers what the stretched exons cover.
   */
  lemma MergedStretch(exons: seq<Interval>, lo: int, hi: int)
    requires Separated(exons) && |exons| > 0
    requires lo <= exons[0].start && exons[|exons| - 1].end <= hi
    ensures var r := Merge(Stretched(exons, lo, hi));
      Separated(r) && |r| > 0 && r[0].start == lo && r[|r| - 1].end == hi &&
      (forall p :: Covered(exons, p) ==> Covered(r, p)) &&
      (forall p :: Covered(r, p) <==> Covered(Stretched(exons, lo, hi), p))
  {
    StretchBlocks(exons, lo, hi, Merge(Stretched(exons, lo, hi)));
  }

  /** The same for any separated blocks covering what the stretched exons cover. */
  lemma StretchBlocks(exons: seq<Interval>, lo: int, hi: int, r: seq<Interval>)
    requires Separated(exons) && |exons| > 0
    requires lo <= exons[0].start && exons[|exons| - 1].end <= hi
    requires Separated(r) && forall p :: Covered(r, p) <==> Covered(Stretched(exons, lo, hi), p)
    ensures |r| > 0 && r[0].start == lo && r[|r| - 1].end == hi
    ensures forall p :: Covered(exons, p) ==> Covered(r, p)
  {
    StretchedCovers(exons, lo, hi, lo);
    StretchedCovers(exons, lo, hi, hi - 1);
    assert Covered(r, lo) && Covered(r, hi - 1);
    SeparatedBounds(r);
    forall p | Covered(r, p) ensures lo <= p < hi {
      StretchedWithin(exons, lo, hi, p);
    }
    forall p | Covered(exons, p) ensures Covered(r, p) {
      StretchedKeepsExons(exons, lo, hi, p);
    }
  }

  lemma StretchedWithin(exons: seq<Interval>, lo: int, hi: int, p: int)
    requires Separated(exons) && |exons| > 0
    requires lo <= exons[0].start && exons[|exons| - 1].end <= hi
    requires Covered(Stretched(exons, lo, hi), p)
    ensures lo <= p < hi
  {
    var n := |exons| - 1;
    StretchedCovers(exons, lo, hi, p);
    if Covered(if n == 0 then [] else exons[1..n], p) {
      var i :| 0 <= i < |exons[1..n]| && exons[1..n][i].Contains(p);
      assert exons[1..n][i] == exons[i + 1];
      assert exons[0].end < exons[i + 1].start && exons[i + 1].end < exons[n].start;
    }
  }

  /**
   * `r` is a non-empty run of separated blocks from `a` to `z`, around the
   * exons' span, that keeps every exon position and covers exactly what the
   * exons stretched to `a` and `z` cover.
   */
  ghost predicate StretchedShape(exons: seq<Interval>, r: seq<Interval>, a: int, z: int)
    requires |exons| > 0
  {
    Separated(r) && |r| > 0 &&
    r[0].start == a <= exons[0].start && exons[|exons| - 1].end <= z == r[|r| - 1].end &&
    (forall p :: Covered(exons, p) ==> Covered(r, p)) &&
    (forall p :: Covered(r, p) <==> Covered(Stretched(exons, a, z), p))
  }

  /**
   * For exons as `Interval.merge` returns them, an extended model is a
   * non-empty run of separated blocks from the upstream walk's end to the
   * downstream walk's end; it keeps every exon position and adds exactly the
   * stretches before the first exon and after the last.
   */
  lemma ExtendSpec(idx: BoundariesIndex, strand: Strand, exons: seq<Interval>)
    requires idx.Valid() && Separated(exons)
    ensures Extend(idx, strand, exons).Ok? ==>
      var start, end := exons[0].start, exons[|exons| - 1].end;
      var fwd := strand == Forward;
      var lo := Walk(idx, if fwd then start else end, Upstream(strand), "tss");
      var hi := Walk(idx, if fwd then end else start, Downstream(strand), "tes");
      var (a, z) := if fwd then (lo, hi) else (hi, lo);
      a.Ok? && z.Ok? && StretchedShape(exons, Extend(idx, strand, exons).value, a.value, z.value)
  {
    if Extend(idx, strand, exons).Ok? {
      var start, end := exons[0].start, exons[|exons| - 1].end;
      var fwd := strand == Forward;
      var lo := Walk(idx, if fwd then start else end, Upstream(strand), "tss");
      var hi := Walk(idx, if fwd then end else start, Downstream(strand), "tes");
      var (a, z) := if fwd then (lo, hi) else (hi, lo);
      ExtendOk(idx, strand, exons, a, z);
      MergedShape(exons, a.value, z.value);
    }
  }

  /** Merging the exons stretched around their span gives that shape. */
  lemma MergedShape(exons: seq<Interval>, a: int, z: int)
    requires Separated(exons) && |exons| > 0
    requires a <= exons[0].start && exons[|exons| - 1].end <= z
    ensures StretchedShape(exons, Merge(Stretched(exons, a, z)), a, z)
  {
    MergedStretch(exons, a, z);
  }

  /** A successful extension is the merge of the exons stretched to the walks' ends, which enclose the exons. */
  lemma ExtendOk(idx: BoundariesIndex, strand: Strand, exons: seq<Interval>, a: Result<int>, z: Result<int>)
    requires idx.Valid() && Extend(idx, strand, exons).Ok?
    requires var start, end := exons[0].start, exons[|exons| - 1].end;
      var fwd := strand == Forward;
      var lo := Walk(idx, if fwd then start else end, Upstream(strand), "tss");
      var hi := Walk(idx, if fwd then end else start, Downstream(strand), "tes");
      (a, z) == if fwd then (lo, hi) else (hi, lo)
    ensures a.Ok? && z.Ok? && a.value <= exons[0].start && exons[|exons| - 1].end <= z.value
    ensures Extend(idx, strand, exons).value == Merge(Stretched(exons, a.value, z.value))
  {
  }

  /** The walks and the stretch of lines 23-40 for one core. */
  method ExtendOne(idx: BoundariesIndex, strand: Strand, exons: seq<Interval>) returns (r: Result<seq<Interval>>)
    requires idx.Valid()
    ensures r == Extend(idx, strand, exons)
  {
    if |exons| == 0 {
      return Err(IndexError);
    }
    var start, end := exons[0].start, exons[|exons| - 1].end;
    var fwd := strand == Forward;
    var tss := WalkLoop(idx, if fwd then start else end, Upstream(strand), "tss");
    if tss.Err? {
      return Err(tss.error);
    }
    var tes := WalkLoop(idx, if fwd then end else start, Downstream(strand), "tes");
    if tes.Err? {
      return Err(tes.error);
    }
    var lo, hi := if fwd then tss.value else tes.value, if fwd then tes.value else tss.value;
    if !(lo <= start < end <= hi) {
      return Err(AssertionError);
    }
    return Ok(Merge(Stretched(exons, lo, hi)));
  }

  /** What each core's extension gives. */
  function Extended(idx: BoundariesIndex, strand: Strand, cores: seq<RnaCore.Core>): (r: seq<Result<seq<Interval>>>)
    reads idx
    requires idx.Valid()
    ensures |r| == |cores|
  {
    seq(|cores|, i requires 0 <= i < |cores| && idx.Valid() reads idx => Extend(idx, strand, cores[i].exons))
  }

  /** The extended models of the cores, in order; the first failure stops the job. */
  function Extensions(idx: BoundariesIndex, strand: Strand, cores: seq<RnaCore.Core>): Result<seq<seq<Interval>>>
    reads idx
    requires idx.Valid()
  {
    FirstErr(Extended(idx, strand, cores))
  }

  /** The model of every core is its extension, in the order of the cores. */
  lemma ExtensionsSpec(idx: BoundariesIndex, strand: Strand, cores: seq<RnaCore.Core>)
    requires idx.Valid()
    ensures Extensions(idx, strand, cores).Ok? <==> forall i :: 0 <= i < |cores| ==> Extend(idx, strand, cores[i].exons).Ok?
    ensures Extensions(idx, strand, cores).Ok? ==>
      var ch := Extensions(idx, strand, cores).value;
      |ch| == |cores| && forall i :: 0 <= i < |cores| ==> Extend(idx, strand, cores[i].exons) == Ok(ch[i])
  {
    var rs := Extended(idx, strand, cores);
    FirstErrSpec(rs);
    forall i | 0 <= i < |cores| ensures rs[i] == Extend(idx, strand, cores[i].exons) {
    }
  }

  /** All blocks of all chains, in order (`allcovered.extend`). */
  function Blocks(chains: seq<seq<Interval>>): seq<Interval>
  {
    if chains == [] then [] else Blocks(chains[..|chains| - 1]) + chains[|chains| - 1]
  }

  lemma {:induction false} BlocksCovered(chains: seq<seq<Interval>>, p: int)
    ensures Covered(Blocks(chains), p) <==> exists i :: 0 <= i < |chains| && Covered(chains[i], p)
  {
    if chains != [] {
      var n := |chains| - 1;
      BlocksCovered(chains[..n], p);
      CoveredConcat(Blocks(chains[..n]), chains[n], p);
      if exists i :: 0 <= i < |chains| && Covered(chains[i], p) {
        var i :| 0 <= i < |chains| && Covered(chains[i], p);
        if i < n {
          assert chains[..n][i] == chains[i];
        }
      }
      if exists i :: 0 <= i < n && Covered(chains[..n][i], p) {
        var i :| 0 <= i < n && Covered(chains[..n][i], p);
        assert chains[..n][i] == chains[i];
      }
    }
  }

  // ---------------------------------------------------------------------
  // Gap tiling (lines 45-66)

  /** Intervals in order, each ending no later than the next one starts. */
  predicate Chained(s: seq<Interval>)
  {
    forall i, j :: 0 <= i < j < |s| ==> s[i].end <= s[j].start
  }

  /**
   * The walk of lines 48-61 from `position` at covered block `ind`: jump
   * over a covered block that starts here, otherwise emit the stretch up to
   * the next boundary on the right or the block's start, whichever is
   * nearer. A position past the block's start fails the assertion of line 50.
   */
  function Gaps(idx: BoundariesIndex, cov: seq<Interval>, position: int, ind: nat): Result<seq<Interval>>
    reads idx
    requires idx.Valid() && ind <= |cov|
    decreases |cov| - ind, if ind < |cov| then cov[ind].start - position else 0
  {
    if ind == |cov| then Ok([])
    else if position > cov[ind].start then Err(AssertionError)
    else if position == cov[ind].start then Gaps(idx, cov, cov[ind].end, ind + 1)
    else
      var c := Nearest(idx.boundaries, idx.data, position, Right);
      if c.Err? then Err(c.error)
      else
        NearestRightStep(idx.boundaries, idx.data, position);
        var nxt := Min(cov[ind].start, c.value.0);
        var rest := Gaps(idx, cov, nxt, ind);
        if rest.Err? then rest else Ok([Interval(position, nxt)] + rest.value)
  }

  /** Where the gap walk ends: the end of the last covered block, or where it started if none is left. */
  function Reached(cov: seq<Interval>, position: int, ind: nat): int
    requires ind <= |cov|
  {
    if ind < |cov| then cov[|cov| - 1].end else position
  }

  /** The walk of lines 63-66: boundary to boundary until the last one. */
  function Tail(idx: BoundariesIndex, position: int): Result<seq<Interval>>
    reads idx
    requires idx.Valid()
    decreases Reach(idx, position, Right)
  {
    var b := idx.boundaries;
    if |b| == 0 then Err(IndexError)
    else if position == b[|b| - 1] then Ok([])
    else
      var c := Nearest(b, idx.data, position, Right);
      if c.Err? then Err(c.error)
      else
        NearestRightStep(b, idx.data, position);
        var rest := Tail(idx, c.value.0);
        if rest.Err? then rest else Ok([Interval(position, c.value.0)] + rest.value)
  }

  /** A block is contained in a covering that starts no later and ends no earlier. */
  lemma CoveredSuffix(cov: seq<Interval>, ind: nat, p: int)
    requires Separated(cov) && ind < |cov| && p < cov[ind].start
    ensures !Covered(cov[ind..], p) && p < cov[|cov| - 1].end
  {
    forall j | 0 <= j < |cov[ind..]| ensures !cov[ind..][j].Contains(p) {
      assert cov[ind..][j] == cov[ind + j];
    }
    assert cov[ind].start <= cov[|cov| - 1].start;
  }

  /** The gap step: the emitted stretch, then the rest of the walk. */
  lemma GapStep(cov: seq<Interval>, ind: nat, position: int, nxt: int, rest: seq<Interval>, reached: int)
    requires Separated(cov) && ind < |cov| && position < nxt <= cov[ind].start
    requires reached == cov[|cov| - 1].end
    requires AllNonEmpty(rest) && Chained(rest)
    requires forall p :: Covered(rest, p) <==> nxt <= p < reached && !Covered(cov[ind..], p)
    ensures var g := [Interval(position, nxt)] + rest;
      AllNonEmpty(g) && Chained(g) &&
      forall p :: Covered(g, p) <==> position <= p < reached && !Covered(cov[ind..], p)
  {
    var x := Interval(position, nxt);
    var g := [x] + rest;
    forall p ensures Covered(g, p) <==> position <= p < reached && !Covered(cov[ind..], p) {
      CoveredCons(x, rest, p);
      if position <= p < nxt {
        CoveredSuffix(cov, ind, p);
      }
    }
    forall j | 0 < j < |g| ensures x.end <= g[j].start {
      assert g[j] == rest[j - 1] && rest[j - 1].Contains(rest[j - 1].start);
      assert Covered(rest, rest[j - 1].start);
    }
  }

  /** The jump over covered block `ind`. */
  lemma JumpStep(cov: seq<Interval>, ind: nat, g: seq<Interval>, reached: int)
    requires ind < |cov| && reached == cov[|cov| - 1].end && cov[ind].NonEmpty()
    requires forall p :: Covered(g, p) <==> cov[ind].end <= p < reached && !Covered(cov[ind + 1..], p)
    ensures forall p :: Covered(g, p) <==> cov[ind].start <= p < reached && !Covered(cov[ind..], p)
  {
    forall p ensures Covered(g, p) <==> cov[ind].start <= p < reached && !Covered(cov[ind..], p) {
      assert cov[ind..] == [cov[ind]] + cov[ind + 1..];
      CoveredCons(cov[ind], cov[ind + 1..], p);
    }
  }

  /**
   * The gap walk emits non-empty stretches in order that cover exactly the
   * positions from `position` to the end of the last covered block that no
   * covered block from `ind` on covers; each stretch ends at a boundary or
   * at the start of a covered block.
   */
  lemma {:induction false} GapsSpec(idx: BoundariesIndex, cov: seq<Interval>, position: int, ind: nat)
    requires idx.Valid() && Separated(cov) && ind <= |cov|
    ensures Gaps(idx, cov, position, ind).Ok? ==>
      var g := Gaps(idx, cov, position, ind).value;
      (ind < |cov| ==> position <= cov[ind].start) &&
      AllNonEmpty(g) && Chained(g) &&
      (forall p :: Covered(g, p) <==> position <= p < Reached(cov, position, ind) && !Covered(cov[ind..], p)) &&
      (forall i :: 0 <= i < |g| ==> g[i].end in idx.boundaries || exists j :: ind <= j < |cov| && cov[j].start == g[i].end)
    decreases |cov| - ind, if ind < |cov| then cov[ind].start - position else 0
  {
    if ind < |cov| && Gaps(idx, cov, position, ind).Ok? {
      var g := Gaps(idx, cov, position, ind).value;
      var reached := cov[|cov| - 1].end;
      if position == cov[ind].start {
        GapsSpec(idx, cov, cov[ind].end, ind + 1);
        assert Reached(cov, cov[ind].end, ind + 1) == reached;
        JumpStep(cov, ind, g, reached);
      } else {
        var c := Nearest(idx.boundaries, idx.data, position, Right);
        NearestRightStep(idx.boundaries, idx.data, position);
        var nxt := Min(cov[ind].start, c.value.0);
        GapsSpec(idx, cov, nxt, ind);
        var rest := Gaps(idx, cov, nxt, ind).value;
        GapStep(cov, ind, position, nxt, rest, reached);
        assert g == [Interval(position, nxt)] + rest;
        forall i | 0 <= i < |g|
          ensures g[i].end in idx.boundaries || exists j :: ind <= j < |cov| && cov[j].start == g[i].end
        {
          if i > 0 {
            assert g[i] == rest[i - 1];
          } else if nxt == cov[ind].start {
            assert cov[ind].start == g[i].end;
          }
        }
      }
    }
  }

  /**
   * `t` is a run of non-empty stretches in order, each ending at a boundary,
   * that covers exactly the positions from `position` to the last boundary.
   */
  ghost predicate TailShape(t: seq<Interval>, position: int, b: seq<int>)
  {
    |b| > 0 && position <= b[|b| - 1] && AllNonEmpty(t) && Chained(t) &&
    (forall p :: Covered(t, p) <==> position <= p < b[|b| - 1]) &&
    (forall i :: 0 <= i < |t| ==> t[i].end in b)
  }

  /**
   * The tail walk ends at the last boundary: it emits non-empty stretches
   * in order, each ending at a boundary, that cover exactly the positions
   * from `position` to the last boundary.
   */
  lemma {:induction false} TailSpec(idx: BoundariesIndex, position: int)
    requires idx.Valid()
    ensures Tail(idx, position).Ok? ==> TailShape(Tail(idx, position).value, position, idx.boundaries)
    decreases Reach(idx, position, Right)
  {
    var b := idx.boundaries;
    if Tail(idx, position).Ok? && position != b[|b| - 1] {
      var t := Tail(idx, position).value;
      var c := Nearest(b, idx.data, position, Right);
      NearestRightStep(b, idx.data, position);
      var n := c.value.0;
      TailSpec(idx, n);
      var rest := Tail(idx, n).value;
      assert t == [Interval(position, n)] + rest;
      TailCons(rest, position, n, b);
    }
  }

  /** A stretch from `position` to the boundary `n` in front of the tail from `n`. */
  lemma TailCons(rest: seq<Interval>, position: int, n: int, b: seq<int>)
    requires TailShape(rest, n, b) && position < n && n in b
    ensures TailShape([Interval(position, n)] + rest, position, b)
  {
    var x := Interval(position, n);
    var t := [x] + rest;
    forall p ensures Covered(t, p) <==> position <= p < b[|b| - 1] {
      CoveredCons(x, rest, p);
    }
    forall j | 0 < j < |t| ensures x.end <= t[j].start {
      assert t[j] == rest[j - 1] && rest[j - 1].Contains(rest[j - 1].start);
      assert Covered(rest, rest[j - 1].start);
    }
    forall i | 0 < i < |t| ensures t[i].end in b {
      assert t[i] == rest[i - 1];
    }
  }

  // ---------------------------------------------------------------------
  // The job (lines 14-67) and the stored order (line 87)

  /** One single-block chain per interval. */
  function Singles(s: seq<Interval>): (r: seq<seq<Interval>>)
    ensures |r| == |s| && forall i :: 0 <= i < |s| ==> r[i] == [s[i]]
  {
    seq(|s|, i requires 0 <= i < |s| => [s[i]])
  }

  /** `chains` with a chain appended for each emitted stretch, or the walk's failure. */
  function Append(chains: seq<seq<Interval>>, walk: Result<seq<Interval>>): Result<seq<seq<Interval>>>
  {
    if walk.Err? then Err(walk.error) else Ok(chains + Singles(walk.value))
  }

  /**
   * `job`: the extended models of the cores, then one chain per uncovered
   * stretch up to the last covered position, then one per stretch between
   * consecutive boundaries up to the last boundary.
   */
  function Models(idx: BoundariesIndex, strand: Strand, cores: seq<RnaCore.Core>): Result<seq<seq<Interval>>>
    reads idx
    requires idx.Valid()
  {
    var ext := Extensions(idx, strand, cores);
    if ext.Err? then Err(ext.error)
    else
      var cov := Merge(Blocks(ext.value));
      var g := Gaps(idx, cov, 0, 0);
      if g.Err? then Err(g.error)
      else Append(ext.value + Singles(g.value), Tail(idx, Reached(cov, 0, 0)))
  }

  /** Emitting one stretch and appending its chain first leaves the same chains in the end. */
  lemma AppendCons(chains: seq<seq<Interval>>, x: Interval, rest: Result<seq<Interval>>)
    ensures Append(chains, if rest.Err? then rest else Ok([x] + rest.value)) == Append(chains + [[x]], rest)
  {
    if rest.Ok? {
      assert Singles([x] + rest.value) == [[x]] + Singles(rest.value);
      assert chains + Singles([x] + rest.value) == (chains + [[x]]) + Singles(rest.value);
    }
  }

  /** One stretch of the gap walk up to the next boundary or covered block. */
  lemma GapsStep(idx: BoundariesIndex, cov: seq<Interval>, position: int, ind: nat, chains: seq<seq<Interval>>)
    requires idx.Valid() && ind < |cov| && position < cov[ind].start
    requires Nearest(idx.boundaries, idx.data, position, Right).Ok?
    ensures var nxt := Min(cov[ind].start, Nearest(idx.boundaries, idx.data, position, Right).value.0);
      Append(chains, Gaps(idx, cov, position, ind)) == Append(chains + [[Interval(position, nxt)]], Gaps(idx, cov, nxt, ind))
  {
    NearestRightStep(idx.boundaries, idx.data, position);
    var nxt := Min(cov[ind].start, Nearest(idx.boundaries, idx.data, position, Right).value.0);
    var rest := Gaps(idx, cov, nxt, ind);
    assert Gaps(idx, cov, position, ind) == if rest.Err? then rest else Ok([Interval(position, nxt)] + rest.value);
    AppendCons(chains, Interval(position, nxt), rest);
  }

  /** One stretch of the tail walk up to the next boundary. */
  lemma TailStep(idx: BoundariesIndex, position: int, chains: seq<seq<Interval>>)
    requires idx.Valid() && |idx.boundaries| > 0 && position != idx.boundaries[|idx.boundaries| - 1]
    requires Nearest(idx.boundaries, idx.data, position, Right).Ok?
    ensures var nxt := Nearest(idx.boundaries, idx.data, position, Right).value.0;
      Append(chains, Tail(idx, position)) == Append(chains + [[Interval(position, nxt)]], Tail(idx, nxt))
  {
    NearestRightStep(idx.boundaries, idx.data, position);
    var nxt := Nearest(idx.boundaries, idx.data, position, Right).value.0;
    var rest := Tail(idx, nxt);
    assert Tail(idx, position) == if rest.Err? then rest else Ok([Interval(position, nxt)] + rest.value);
    AppendCons(chains, Interval(position, nxt), rest);
  }

  /** The loop of lines 48-61, appending to `chains0`; `position` is where it ends. */
  method GapLoop(idx: BoundariesIndex, cov: seq<Interval>, chains0: seq<seq<Interval>>)
    returns (r: Result<seq<seq<Interval>>>, position: int)
    requires idx.Valid()
    ensures r == Append(chains0, Gaps(idx, cov, 0, 0))
    ensures r.Ok? ==> position == Reached(cov, 0, 0)
  {
    var chains := chains0;
    var ind := 0;
    position := 0;
    while ind < |cov|
      invariant 0 <= ind <= |cov|
      invariant Append(chains, Gaps(idx, cov, position, ind)) == Append(chains0, Gaps(idx, cov, 0, 0))
      invariant Reached(cov, position, ind) == Reached(cov, 0, 0)
      decreases |cov| - ind, if ind < |cov| then cov[ind].start - position else 0
    {
      if position > cov[ind].start {
        return Err(AssertionError), position;
      }
      if position == cov[ind].start {
        position := cov[ind].end;
        ind := ind + 1;
        continue;
      }
      var c := idx.Closest(position, Right);
      if c.Err? {
        return Err(c.error), position;
      }
      NearestRightStep(idx.boundaries, idx.data, position);
      var nxt := Min(cov[ind].start, c.value.0);
      var x := Interval(position, nxt);
      GapsStep(idx, cov, position, ind, chains);
      chains := chains + [[x]];
      position := nxt;
    }
    assert Singles([]) == [] && chains + [] == chains;
    return Ok(chains), position;
  }

  /** The loop of lines 63-66, appending to `chains0`. */
  method TailLoop(idx: BoundariesIndex, position0: int, chains0: seq<seq<Interval>>) returns (r: Result<seq<seq<Interval>>>)
    requires idx.Valid()
    ensures r == Append(chains0, Tail(idx, position0))
  {
    var b := idx.boundaries;
    if |b| == 0 {
      return Err(IndexError);
    }
    var chains := chains0;
    var position := position0;
    while position != b[|b| - 1]
      invariant Append(chains, Tail(idx, position)) == Append(chains0, Tail(idx, position0))
      decreases Reach(idx, position, Right)
    {
      var c := idx.Closest(position, Right);
      if c.Err? {
        return Err(c.error);
      }
      NearestRightStep(b, idx.data, position);
      var nxt := c.value.0;
      var x := Interval(position, nxt);
      TailStep(idx, position, chains);
      chains := chains + [[x]];
      position := nxt;
    }
    assert Singles([]) == [] && chains + [] == chains;
    return Ok(chains);
  }

  /** The loop of lines 22-43: every core extended in turn, and all their blocks. */
  method ExtendAll(idx: BoundariesIndex, strand: Strand, cores: seq<RnaCore.Core>)
    returns (r: Result<seq<seq<Interval>>>, allcovered: seq<Interval>)
    requires idx.Valid()
    ensures r == Extensions(idx, strand, cores)
    ensures r.Ok? ==> allcovered == Blocks(r.value)
  {
    ghost var rs := Extended(idx, strand, cores);
    var chains: seq<seq<Interval>> := [];
    allcovered := [];
    for i := 0 to |cores|
      invariant FirstErr(rs[..i]) == Ok(chains) && allcovered == Blocks(chains)
    {
      var x := ExtendOne(idx, strand, cores[i].exons);
      assert x == rs[i];
      ExtendedStep(rs, i, chains);
      if x.Err? {
        FirstErrPrefix(rs, i + 1);
        return Err(x.error), allcovered;
      }
      chains := chains + [x.value];
      allcovered := allcovered + x.value;
    }
    assert rs[..|cores|] == rs;
    return Ok(chains), allcovered;
  }

  /** One more core's extension: the job fails with it, or its model joins the chains. */
  lemma ExtendedStep(rs: seq<Result<seq<Interval>>>, i: nat, chains: seq<seq<Interval>>)
    requires i < |rs| && FirstErr(rs[..i]) == Ok(chains)
    ensures rs[i].Err? ==> FirstErr(rs[..i + 1]) == Err(rs[i].error)
    ensures rs[i].Ok? ==> FirstErr(rs[..i + 1]) == Ok(chains + [rs[i].value])
    ensures rs[i].Ok? ==> Blocks(chains + [rs[i].value]) == Blocks(chains) + rs[i].value
  {
    assert rs[..i + 1][..i] == rs[..i];
    if rs[i].Ok? {
      assert (chains + [rs[i].value])[..|chains|] == chains;
    }
  }

  /** `job` for one contig strand. */
  method Job(idx: BoundariesIndex, strand: Strand, cores: seq<RnaCore.Core>) returns (r: Result<seq<seq<Interval>>>)
    requires idx.Valid()
    ensures r == Models(idx, strand, cores)
  {
    var ext, allcovered := ExtendAll(idx, strand, cores);
    if ext.Err? {
      return Err(ext.error);
    }
    var cov := Merge(allcovered);
    var withGaps, position := GapLoop(idx, cov, ext.value);
    if withGaps.Err? {
      return Err(withGaps.error);
    }
    r := TailLoop(idx, position, withGaps.value);
  }

  /** Covered positions of separated blocks lie between the first start and the last end. */
  lemma CoveredWithin(cov: seq<Interval>, p: int)
    requires Separated(cov) && Covered(cov, p)
    ensures cov[0].start <= p < cov[|cov| - 1].end
  {
    SeparatedBounds(cov);
  }

  /** Two chained runs, the first below `r` and the second from `r` on, chain together. */
  lemma ChainedConcat(g: seq<Interval>, t: seq<Interval>, r: int)
    requires AllNonEmpty(g) && AllNonEmpty(t) && Chained(g) && Chained(t)
    requires forall p :: Covered(g, p) ==> p < r
    requires forall p :: Covered(t, p) ==> r <= p
    ensures AllNonEmpty(g + t) && Chained(g + t)
  {
    forall i, j | 0 <= i < j < |g + t| ensures (g + t)[i].end <= (g + t)[j].start {
      if i < |g| && j >= |g| {
        assert g[i].Contains(g[i].end - 1) && Covered(g, g[i].end - 1);
        assert t[j - |g|].Contains(t[j - |g|].start) && Covered(t, t[j - |g|].start);
      }
    }
  }

  /**
   * Gap and tail stretches together: non-empty, in order, covering exactly
   * the positions from 0 to the last boundary that no covered block covers;
   * the covered blocks lie inside that range.
   */
  lemma Tiling(idx: BoundariesIndex, cov: seq<Interval>, g: seq<Interval>, t: seq<Interval>)
    requires idx.Valid() && Separated(cov)
    requires Gaps(idx, cov, 0, 0) == Ok(g) && Tail(idx, Reached(cov, 0, 0)) == Ok(t)
    ensures |idx.boundaries| > 0
    ensures AllNonEmpty(g + t) && Chained(g + t)
    ensures forall p :: Covered(g + t, p) <==> 0 <= p < idx.boundaries[|idx.boundaries| - 1] && !Covered(cov, p)
    ensures forall p :: Covered(cov, p) ==> 0 <= p < idx.boundaries[|idx.boundaries| - 1]
  {
    var b := idx.boundaries;
    var reached := Reached(cov, 0, 0);
    GapsSpec(idx, cov, 0, 0);
    TailSpec(idx, reached);
    assert cov[0..] == cov;
    var last := b[|b| - 1];
    assert forall p :: Covered(cov, p) ==> 0 <= p < reached by {
      forall p | Covered(cov, p) ensures 0 <= p < reached {
        CoveredWithin(cov, p);
      }
    }
    assert forall p :: Covered(g, p) <==> 0 <= p < reached && !Covered(cov, p);
    assert forall p :: Covered(t, p) <==> reached <= p < last;
    forall p ensures Covered(g + t, p) <==> 0 <= p < last && !Covered(cov, p) {
      CoveredConcat(g, t, p);
    }
    ChainedConcat(g, t, reached);
  }

  /** A stretch's single-block chain covers what the stretch covers. */
  lemma SinglesCovered(s: seq<Interval>, p: int)
    ensures (exists i :: 0 <= i < |s| && Covered(Singles(s)[i], p)) <==> Covered(s, p)
  {
    if Covered(s, p) {
      var i :| 0 <= i < |s| && s[i].Contains(p);
      assert Singles(s)[i][0] == s[i];
    }
    if exists i :: 0 <= i < |s| && Covered(Singles(s)[i], p) {
      var i :| 0 <= i < |s| && Covered(Singles(s)[i], p);
      var k :| 0 <= k < 1 && Singles(s)[i][k].Contains(p);
    }
  }

  /** Some chain covers `p`. */
  ghost predicate InChains(chains: seq<seq<Interval>>, p: int)
  {
    exists i :: 0 <= i < |chains| && Covered(chains[i], p)
  }

  /** A position of the chains `ch + Singles(pieces)`: in a chain of `ch` or in one of the pieces. */
  lemma LayoutCovered(ch: seq<seq<Interval>>, pieces: seq<Interval>, p: int)
    ensures InChains(ch + Singles(pieces), p) <==> Covered(Blocks(ch), p) || Covered(pieces, p)
  {
    var chains := ch + Singles(pieces);
    BlocksCovered(ch, p);
    SinglesCovered(pieces, p);
    if InChains(chains, p) {
      var i :| 0 <= i < |chains| && Covered(chains[i], p);
      if i < |ch| {
        assert chains[i] == ch[i];
      } else {
        assert chains[i] == Singles(pieces)[i - |ch|];
      }
    }
    if Covered(Blocks(ch), p) {
      var i :| 0 <= i < |ch| && Covered(ch[i], p);
      assert chains[i] == ch[i];
    }
    if Covered(pieces, p) {
      var i :| 0 <= i < |pieces| && Covered(Singles(pieces)[i], p);
      assert chains[|ch| + i] == Singles(pieces)[i];
    }
  }

  /**
   * The chains from index `k` on are single non-empty blocks in order that
   * avoid every chain before `k`, and all chains together cover exactly the
   * positions from 0 to `last`.
   */
  ghost predicate LaidOut(chains: seq<seq<Interval>>, k: int, last: int)
  {
    0 <= k &&
    (forall i :: k <= i < |chains| ==> |chains[i]| == 1 && chains[i][0].NonEmpty()) &&
    (forall i, j :: k <= i < j < |chains| ==> |chains[i]| == 1 && |chains[j]| == 1 && chains[i][0].end <= chains[j][0].start) &&
    (forall i, m, p :: 0 <= m < k <= i < |chains| && |chains[i]| == 1 && chains[i][0].Contains(p) ==> !Covered(chains[m], p)) &&
    (forall p :: 0 <= p < last <==> InChains(chains, p))
  }

  /** The layout of the chains once the pieces tile the range around the models. */
  lemma Layout(ch: seq<seq<Interval>>, pieces: seq<Interval>, cov: seq<Interval>, last: int)
    requires forall p :: Covered(cov, p) <==> Covered(Blocks(ch), p)
    requires AllNonEmpty(pieces) && Chained(pieces)
    requires forall p :: Covered(pieces, p) <==> 0 <= p < last && !Covered(cov, p)
    requires forall p :: Covered(cov, p) ==> 0 <= p < last
    ensures LaidOut(ch + Singles(pieces), |ch|, last)
  {
    var chains := ch + Singles(pieces);
    var k := |ch|;
    LayoutPieces(ch, pieces);
    LayoutAvoid(ch, pieces, cov, last);
    forall p ensures 0 <= p < last <==> InChains(chains, p) {
      LayoutCovered(ch, pieces, p);
    }
  }

  /** The chains after the models are the pieces, one block each. */
  lemma LayoutPieces(ch: seq<seq<Interval>>, pieces: seq<Interval>)
    requires AllNonEmpty(pieces) && Chained(pieces)
    ensures var chains := ch + Singles(pieces);
      (forall i :: |ch| <= i < |chains| ==> |chains[i]| == 1 && chains[i][0].NonEmpty()) &&
      (forall i, j :: |ch| <= i < j < |chains| ==> |chains[i]| == 1 && |chains[j]| == 1 && chains[i][0].end <= chains[j][0].start)
  {
    var chains := ch + Singles(pieces);
    forall i | |ch| <= i < |chains| ensures chains[i] == [pieces[i - |ch|]] {
    }
  }

  /** A piece avoids every model, as it avoids what the models cover. */
  lemma LayoutAvoid(ch: seq<seq<Interval>>, pieces: seq<Interval>, cov: seq<Interval>, last: int)
    requires forall p :: Covered(cov, p) <==> Covered(Blocks(ch), p)
    requires forall p :: Covered(pieces, p) <==> 0 <= p < last && !Covered(cov, p)
    ensures var chains: seq<seq<Interval>> := ch + Singles(pieces);
      forall i, m, p :: 0 <= m < |ch| <= i < |chains| && |chains[i]| == 1 && chains[i][0].Contains(p) ==> !Covered(chains[m], p)
  {
    var chains: seq<seq<Interval>> := ch + Singles(pieces);
    var k := |ch|;
    forall i: int, m: int, p: int | 0 <= m < k <= i < |chains| && |chains[i]| == 1 && chains[i][0].Contains(p) ensures !Covered(chains[m], p) {
      assert chains[i] == [pieces[i - k]];
      assert pieces[i - k].Contains(p) && Covered(pieces, p);
      BlocksCovered(ch, p);
      assert chains[m] == ch[m];
    }
  }

  /** The job stores the extended model of every core first, in the order of the cores. */
  lemma ModelsExtend(idx: BoundariesIndex, strand: Strand, cores: seq<RnaCore.Core>)
    requires idx.Valid()
    ensures Models(idx, strand, cores).Ok? ==>
      var chains := Models(idx, strand, cores).value;
      |chains| >= |cores| && forall i :: 0 <= i < |cores| ==> Extend(idx, strand, cores[i].exons) == Ok(chains[i])
  {
    if Models(idx, strand, cores).Ok? {
      var ch, g, t := ModelsParts(idx, strand, cores);
      ExtensionsSpec(idx, strand, cores);
    }
  }

  /**
   * After the extended models come single-block chains, non-empty and in
   * order, that avoid every extended model; together all chains cover
   * exactly the positions from 0 to the last boundary.
   */
  lemma ModelsSpec(idx: BoundariesIndex, strand: Strand, cores: seq<RnaCore.Core>)
    requires idx.Valid()
    ensures Models(idx, strand, cores).Ok? ==>
      var chains := Models(idx, strand, cores).value;
      var k := |cores|;
      var b := idx.boundaries;
      |chains| >= k && |b| > 0 && LaidOut(chains, k, b[|b| - 1])
  {
    if Models(idx, strand, cores).Ok? {
      var ch, g, t := ModelsParts(idx, strand, cores);
      assert |ch| == |cores| by {
        ExtensionsSpec(idx, strand, cores);
      }
      var cov := Merge(Blocks(ch));
      Tiling(idx, cov, g, t);
      Layout(ch, g + t, cov, idx.boundaries[|idx.boundaries| - 1]);
    }
  }

  /** The parts a successful job is made of. */
  lemma ModelsParts(idx: BoundariesIndex, strand: Strand, cores: seq<RnaCore.Core>)
    returns (ch: seq<seq<Interval>>, g: seq<Interval>, t: seq<Interval>)
    requires idx.Valid() && Models(idx, strand, cores).Ok?
    ensures Extensions(idx, strand, cores) == Ok(ch)
    ensures Gaps(idx, Merge(Blocks(ch)), 0, 0) == Ok(g)
    ensures Tail(idx, Reached(Merge(Blocks(ch)), 0, 0)) == Ok(t)
    ensures Models(idx, strand, cores).value == ch + Singles(g + t)
  {
    ch := Extensions(idx, strand, cores).value;
    var cov := Merge(Blocks(ch));
    g := Gaps(idx, cov, 0, 0).value;
    t := Tail(idx, Reached(cov, 0, 0)).value;
    SinglesConcat(ch, g, t);
  }

  lemma SinglesConcat(ch: seq<seq<Interval>>, g: seq<Interval>, t: seq<Interval>)
    ensures ch + Singles(g) + Singles(t) == ch + Singles(g + t)
  {
    assert Singles(g) + Singles(t) == Singles(g + t);
  }

  /** The start of a chain's first block, which `sorted(chains, ...)` orders by. */
  function FirstStart(chain: seq<Interval>): int
  {
    if chain == [] then 0 else chain[0].start
  }

  /**
   * Line 87: the chains in order of their first block's start, equal starts
   * keeping their order; a chain without blocks fails the sort key.
   */
  function Stored(chains: seq<seq<Interval>>): (r: Result<seq<seq<Interval>>>)
    ensures r.Err? <==> exists i :: 0 <= i < |chains| && chains[i] == []
    ensures r.Ok? ==> multiset(r.value) == multiset(chains)
    ensures r.Ok? ==> forall i, j :: 0 <= i < j < |r.value| ==> FirstStart(r.value[i]) <= FirstStart(r.value[j])
  {
    if exists i :: 0 <= i < |chains| && chains[i] == [] then Err(IndexError)
    else
      ByKeyPreorder(FirstStart);
      var r := SortBy(chains, ByKey(FirstStart));
      forall i, j | 0 <= i < j < |r| ensures FirstStart(r[i]) <= FirstStart(r[j]) {
        SortedByKey(r, FirstStart, i, j);
      }
      Ok(r)
  }
}
