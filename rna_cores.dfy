// RNA cores of the annotated genes: for each gene with exactly one canonical
// boundary transcript, its span shifted to the nearest boundaries, its
// reference exons with boundary windows at both ends, the read-in,
// divergent and read-through regions found by walking the boundary index,
// and the intron cores between consecutive reference exons.
module RnaCores {
  import opened Common
  import opened Intervals
  import opened Boundaries
  import opened Filters
  import opened RnaCore
  import RnaModels
  import Bed

  /** A gene: identifier, contig, strand, span and transcript identifiers in order. */
  datatype Gene = Gene(ind: string, seqid: string, strand: Strand, loc: Interval, transcripts: seq<string>)

  /** `Strand.flipped()`. */
  function Flip(s: Strand): Strand
  {
    match s
    case Forward => Reverse
    case Reverse => Forward
    case Other => Other
  }

  /** The annotation is GENCODE: every record carries GENCODE attributes. */
  predicate AllGencode(rnas: map<string, Rna>)
  {
    forall t :: t in rnas ==> rnas[t].attrs.Gencode?
  }

  /** The test of line 39: a transcription-boundary transcript tagged "Ensembl canonical". */
  predicate IsReference(rna: Rna)
    requires rna.attrs.Gencode?
  {
    IsTranscriptionBoundary(rna) && "Ensembl canonical" in rna.attrs.tags
  }

  // ---------------------------------------------------------------------
  // The reference transcript (lines 36-45)

  /** The reference transcripts among `tids`, in order; an unknown identifier is a `KeyError`. */
  function References(tids: seq<string>, rnas: map<string, Rna>): Result<seq<Rna>>
    requires AllGencode(rnas)
  {
    if tids == [] then Ok([])
    else
      var n := |tids| - 1;
      var front := References(tids[..n], rnas);
      if front.Err? then front
      else if tids[n] !in rnas then Err(KeyError)
      else if IsReference(rnas[tids[n]]) then Ok(front.value + [rnas[tids[n]]])
      else front
  }

  lemma {:induction false} ReferencesPrefixErr(tids: seq<string>, rnas: map<string, Rna>, i: nat)
    requires AllGencode(rnas) && i <= |tids| && References(tids[..i], rnas).Err?
    ensures References(tids, rnas) == References(tids[..i], rnas)
    decreases |tids| - i
  {
    if i < |tids| {
      assert tids[..i + 1][..i] == tids[..i];
      ReferencesPrefixErr(tids, rnas, i + 1);
    } else {
      assert tids[..i] == tids;
    }
  }

  /**
   * The scan fails exactly when some identifier is unknown; otherwise it
   * keeps exactly the records of `tids` that are references.
   */
  lemma {:induction false} ReferencesSpec(tids: seq<string>, rnas: map<string, Rna>)
    requires AllGencode(rnas)
    ensures References(tids, rnas).Ok? <==> forall i :: 0 <= i < |tids| ==> tids[i] in rnas
    ensures References(tids, rnas).Err? ==> References(tids, rnas).error == KeyError
    ensures References(tids, rnas).Ok? ==> forall r :: r in References(tids, rnas).value <==>
      exists i :: 0 <= i < |tids| && tids[i] in rnas && rnas[tids[i]] == r && IsReference(r)
  {
    if tids != [] {
      var n := |tids| - 1;
      var front := tids[..n];
      ReferencesSpec(front, rnas);
      assert forall i :: 0 <= i < n ==> front[i] == tids[i];
      if References(tids, rnas).Ok? {
        var v := References(tids, rnas).value;
        forall r ensures r in v <==> exists i :: 0 <= i < |tids| && tids[i] in rnas && rnas[tids[i]] == r && IsReference(r) {
          if exists i :: 0 <= i < |tids| && tids[i] in rnas && rnas[tids[i]] == r && IsReference(r) {
            var i :| 0 <= i < |tids| && tids[i] in rnas && rnas[tids[i]] == r && IsReference(r);
            if i < n {
              assert front[i] == tids[i];
            }
          }
        }
      }
    }
  }

  /** The loop of lines 37-40. */
  method ReferencesLoop(tids: seq<string>, rnas: map<string, Rna>) returns (r: Result<seq<Rna>>)
    requires AllGencode(rnas)
    ensures r == References(tids, rnas)
  {
    var canonical: seq<Rna> := [];
    for i := 0 to |tids|
      invariant References(tids[..i], rnas) == Ok(canonical)
    {
      assert tids[..i + 1][..i] == tids[..i];
      if tids[i] !in rnas {
        ReferencesPrefixErr(tids, rnas, i + 1);
        return Err(KeyError);
      }
      var rna := rnas[tids[i]];
      if IsReference(rna) {
        canonical := canonical + [rna];
      }
    }
    assert tids[..|tids|] == tids;
    return Ok(canonical);
  }

  // ---------------------------------------------------------------------
  // The gene span (lines 47-52)

  /**
   * The gene's span shifted to the boundary right of its start and the one
   * left of its end, but never cutting into the reference transcript.
   */
  function Span(gene: Gene, ref: Rna, idx: BoundariesIndex): Result<Interval>
    reads idx
    requires idx.Valid()
  {
    var r := Nearest(idx.boundaries, idx.data, gene.loc.start, Right);
    var l := Nearest(idx.boundaries, idx.data, gene.loc.end, Left);
    if r.Err? then Err(r.error)
    else if l.Err? then Err(l.error)
    else
      var start, end := Min(ref.loc.start, r.value.0), Max(ref.loc.end, l.value.0);
      if !(start <= ref.loc.start < ref.loc.end <= end) then Err(AssertionError)
      else Ok(Interval(start, end))
  }

  /**
   * The span holds the reference transcript; each end is the transcript's
   * own end or the stored boundary next to the gene's end on that side;
   * only an empty reference transcript fails the assertion.
   */
  lemma SpanSpec(gene: Gene, ref: Rna, idx: BoundariesIndex)
    requires idx.Valid()
    ensures var b, d := idx.boundaries, idx.data;
      Nearest(b, d, gene.loc.start, Right).Ok? && Nearest(b, d, gene.loc.end, Left).Ok? ==>
        (Span(gene, ref, idx).Ok? <==> ref.loc.start < ref.loc.end)
    ensures Span(gene, ref, idx).Ok? ==>
      var s := Span(gene, ref, idx).value;
      s.start <= ref.loc.start < ref.loc.end <= s.end &&
      (s.start == ref.loc.start || (s.start in idx.boundaries && s.start > gene.loc.start)) &&
      (s.end == ref.loc.end || s.end in idx.boundaries)
  {
    var b, d := idx.boundaries, idx.data;
    if Span(gene, ref, idx).Ok? {
      RnaModels.NearestRightStep(b, d, gene.loc.start);
      RnaModels.NearestEntry(b, d, gene.loc.end, Left);
    }
  }

  // ---------------------------------------------------------------------
  // Reference exons (lines 63-80)

  /** A window clipped to a positive size moves strictly towards its side. */
  lemma ClippedStep(idx: BoundariesIndex, pos: int, side: Side, size: int)
    requires idx.Valid() && side != OtherSide && size > 0
    requires idx.Window(pos, side, Some(size)).Ok?
    ensures var w := idx.Window(pos, side, Some(size)).value.0;
      (side == Left ==> w.start < pos) && (side == Right ==> pos < w.end)
  {
    var b, d := idx.boundaries, idx.data;
    if side == Right {
      RnaModels.NearestRightStep(b, d, pos);
    }
  }

  /**
   * The reference exons: with more than one exon, the first becomes the
   * window left of its end and the last the window right of its start, each
   * clipped to that exon's length, merged with the middle exons; the list
   * order follows the strand's upstream-to-downstream naming.
   */
  function RefExons(exons: seq<Interval>, idx: BoundariesIndex, strand: Strand): Result<seq<Interval>>
    reads idx
    requires idx.Valid() && strand != Other
  {
    if |exons| <= 1 then Ok(exons)
    else
      var n := |exons| - 1;
      var a := idx.Window(exons[0].end, Left, Some(exons[0].Len()));
      var z := idx.Window(exons[n].start, Right, Some(exons[n].Len()));
      if a.Err? then Err(a.error)
      else if z.Err? then Err(z.error)
      else
        var mid := exons[1..n];
        Ok(Merge(if strand == Forward then [a.value.0] + mid + [z.value.0] else [z.value.0] + mid + [a.value.0]))
  }

  lemma EndsCovered(a: Interval, mid: seq<Interval>, z: Interval, p: int)
    ensures Covered([a] + mid + [z], p) <==> a.Contains(p) || Covered(mid, p) || z.Contains(p)
    ensures Covered([z] + mid + [a], p) <==> a.Contains(p) || Covered(mid, p) || z.Contains(p)
  {
    CoveredConcat([a] + mid, [z], p);
    CoveredCons(a, mid, p);
    CoveredCons(z, [], p);
    CoveredConcat([z] + mid, [a], p);
    CoveredCons(z, mid, p);
    CoveredCons(a, [], p);
  }

  /**
   * A single exon is kept as it is. Otherwise the first exon's window ends
   * where that exon ends and the last exon's window starts where that exon
   * starts, neither longer than its exon (a zero length does not clip), and
   * the result covers exactly the two windows and the middle exons.
   */
  lemma RefExonsSpec(exons: seq<Interval>, idx: BoundariesIndex, strand: Strand)
    requires idx.Valid() && strand != Other
    ensures |exons| <= 1 ==> RefExons(exons, idx, strand) == Ok(exons)
    ensures |exons| > 1 && RefExons(exons, idx, strand).Ok? ==>
      var n := |exons| - 1;
      var r := RefExons(exons, idx, strand).value;
      idx.Window(exons[0].end, Left, Some(exons[0].Len())).Ok? &&
      idx.Window(exons[n].start, Right, Some(exons[n].Len())).Ok? &&
      var a := idx.Window(exons[0].end, Left, Some(exons[0].Len())).value.0;
      var z := idx.Window(exons[n].start, Right, Some(exons[n].Len())).value.0;
      a.end == exons[0].end && z.start == exons[n].start &&
      (exons[0].Len() != 0 ==> a.Len() <= exons[0].Len()) &&
      (exons[n].Len() != 0 ==> z.Len() <= exons[n].Len()) &&
      Separated(r) &&
      forall p :: Covered(r, p) <==> a.Contains(p) || Covered(exons[1..n], p) || z.Contains(p)
  {
    if |exons| > 1 && RefExons(exons, idx, strand).Ok? {
      var n := |exons| - 1;
      var a := idx.Window(exons[0].end, Left, Some(exons[0].Len())).value.0;
      var z := idx.Window(exons[n].start, Right, Some(exons[n].Len())).value.0;
      forall p ensures Covered(RefExons(exons, idx, strand).value, p) <==> a.Contains(p) || Covered(exons[1..n], p) || z.Contains(p) {
        EndsCovered(a, exons[1..n], z, p);
      }
    }
  }

  // ---------------------------------------------------------------------
  // Read-in, divergent and read-through regions (lines 82-98)

  /**
   * The read-in window at the end of the upstream walk over TSS boundaries,
   * the divergent window on the opposite strand's index from the read-in's
   * near end, and the read-through window at the end of the downstream walk
   * over TES boundaries.
   */
  function Regions(idx: BoundariesIndex, os: BoundariesIndex, strand: Strand, span: Interval): Result<(Interval, Interval, Interval)>
    reads idx, os
    requires idx.Valid() && os.Valid() && strand != Other
  {
    var up, down := RnaModels.Upstream(strand), RnaModels.Downstream(strand);
    var fwd := strand == Forward;
    var w := RnaModels.Walk(idx, if fwd then span.start else span.end, up, "tss");
    if w.Err? then Err(w.error)
    else
      RnaModels.WalkSpec(idx, if fwd then span.start else span.end, up, "tss");
      var readIn := idx.Window(w.value, up, None).value.0;
      var dv := os.Window(if fwd then readIn.end else readIn.start, up, None);
      if dv.Err? then Err(dv.error)
      else
        var t := RnaModels.Walk(idx, if fwd then span.end else span.start, down, "tes");
        if t.Err? then Err(t.error)
        else
          RnaModels.WalkSpec(idx, if fwd then span.end else span.start, down, "tes");
          var readThrough := idx.Window(t.value, down, None).value.0;
          Ok((readIn, dv.value.0, readThrough))
  }

  /**
   * The read-in region reaches upstream from where the TSS walk stopped to
   * a boundary that is not a TSS; the divergent region ends where the
   * read-in does; the read-through region reaches downstream from where
   * the TES walk stopped to a boundary that is not a TES.
   */
  lemma RegionsSpec(idx: BoundariesIndex, os: BoundariesIndex, strand: Strand, span: Interval)
    requires idx.Valid() && os.Valid() && strand != Other
    ensures Regions(idx, os, strand, span).Ok? ==>
      var (readIn, divergent, readThrough) := Regions(idx, os, strand, span).value;
      var fwd := strand == Forward;
      var tss := RnaModels.Walk(idx, if fwd then span.start else span.end, RnaModels.Upstream(strand), "tss");
      var tes := RnaModels.Walk(idx, if fwd then span.end else span.start, RnaModels.Downstream(strand), "tes");
      tss.Ok? && tes.Ok? &&
      (fwd ==> readIn.end == tss.value <= span.start && divergent.end == readIn.end &&
               span.end <= tes.value == readThrough.start) &&
      (!fwd ==> span.end <= tss.value == readIn.start && divergent.start == readIn.start &&
                readThrough.end == tes.value <= span.start) &&
      idx.Window(tss.value, RnaModels.Upstream(strand), None).Ok? &&
      idx.Window(tss.value, RnaModels.Upstream(strand), None).value.1 != "tss" &&
      idx.Window(tes.value, RnaModels.Downstream(strand), None).Ok? &&
      idx.Window(tes.value, RnaModels.Downstream(strand), None).value.1 != "tes"
  {
    var fwd := strand == Forward;
    RnaModels.WalkSpec(idx, if fwd then span.start else span.end, RnaModels.Upstream(strand), "tss");
    RnaModels.WalkSpec(idx, if fwd then span.end else span.start, RnaModels.Downstream(strand), "tes");
  }

  /** The walks of lines 83-98. */
  method RegionsLoop(idx: BoundariesIndex, os: BoundariesIndex, strand: Strand, span: Interval)
    returns (r: Result<(Interval, Interval, Interval)>)
    requires idx.Valid() && os.Valid() && strand != Other
    ensures r == Regions(idx, os, strand, span)
  {
    var up, down := RnaModels.Upstream(strand), RnaModels.Downstream(strand);
    var fwd := strand == Forward;
    var w := RnaModels.WalkLoop(idx, if fwd then span.start else span.end, up, "tss");
    if w.Err? {
      return Err(w.error);
    }
    RnaModels.WalkSpec(idx, if fwd then span.start else span.end, up, "tss");
    var readIn := idx.Window(w.value, up, None).value.0;
    var dv := os.Window(if fwd then readIn.end else readIn.start, up, None);
    if dv.Err? {
      return Err(dv.error);
    }
    var t := RnaModels.WalkLoop(idx, if fwd then span.end else span.start, down, "tes");
    if t.Err? {
      return Err(t.error);
    }
    RnaModels.WalkSpec(idx, if fwd then span.end else span.start, down, "tes");
    var readThrough := idx.Window(t.value, down, None).value.0;
    return Ok((readIn, dv.value.0, readThrough));
  }

  // ---------------------------------------------------------------------
  // Introns (lines 100-118)

  /**
   * The pieces of an intron from `s` to `e`: the window right of its start
   * and the window left of its end, each clipped to the intron's length,
   * merged.
   */
  function Pieces(idx: BoundariesIndex, s: int, e: int): Result<seq<Interval>>
    reads idx
    requires idx.Valid()
  {
    var first := idx.Window(s, Right, Some(e - s));
    var last := idx.Window(e, Left, Some(e - s));
    if first.Err? then Err(first.error)
    else if last.Err? then Err(last.error)
    else Ok(Merge([first.value.0, last.value.0]))
  }

  /** Two windows anchored at the ends of a gap and no longer than it. */
  lemma TwoWindows(first: Interval, last: Interval, s: int, e: int)
    requires first.start == s < first.end && first.Len() <= e - s
    requires last.start < last.end == e && last.Len() <= e - s
    ensures var r := Merge([first, last]);
      Separated(r) && Covered(r, s) && Covered(r, e - 1) &&
      (forall p :: Covered(r, p) <==> first.Contains(p) || last.Contains(p)) &&
      forall p :: Covered(r, p) ==> s <= p < e
  {
    var r := Merge([first, last]);
    forall p ensures Covered(r, p) <==> first.Contains(p) || last.Contains(p) {
      assert Covered(r, p) <==> Covered([first, last], p);
      assert [first, last][0] == first && [first, last][1] == last;
    }
    assert first.Contains(s) && last.Contains(e - 1);
  }

  /**
   * The pieces are the window starting at the intron's start and the one
   * ending at its end, both inside the intron; they cover both of its edge
   * positions and nothing outside it.
   */
  lemma PiecesSpec(idx: BoundariesIndex, s: int, e: int)
    requires idx.Valid() && s < e
    ensures Pieces(idx, s, e).Ok? ==>
      idx.Window(s, Right, Some(e - s)).Ok? && idx.Window(e, Left, Some(e - s)).Ok? &&
      var r := Pieces(idx, s, e).value;
      var first, last := idx.Window(s, Right, Some(e - s)).value.0, idx.Window(e, Left, Some(e - s)).value.0;
      Separated(r) && Covered(r, s) && Covered(r, e - 1) &&
      (forall p :: Covered(r, p) <==> first.Contains(p) || last.Contains(p)) &&
      forall p :: Covered(r, p) ==> s <= p < e
  {
    if Pieces(idx, s, e).Ok? {
      ClippedStep(idx, s, Right, e - s);
      ClippedStep(idx, e, Left, e - s);
      TwoWindows(idx.Window(s, Right, Some(e - s)).value.0, idx.Window(e, Left, Some(e - s)).value.0, s, e);
    }
  }

  /** The intron between exons `i-1` and `i`; donor and acceptor follow the strand. */
  function IntronAt(exons: seq<Interval>, i: int, idx: BoundariesIndex, strand: Strand): Result<IntronCore>
    reads idx
    requires idx.Valid() && 1 <= i < |exons|
  {
    var s, e := exons[i - 1].end, exons[i].start;
    if !(s < e) then Err(AssertionError)
    else
      var blocks := Pieces(idx, s, e);
      if blocks.Err? then Err(blocks.error)
      else if strand == Forward then MakeIntronCore(exons[i - 1], exons[i], blocks.value)
      else MakeIntronCore(exons[i], exons[i - 1], blocks.value)
  }

  /**
   * Exons that touch or overlap fail the assertion; otherwise the intron
   * holds the pieces of the gap between them, and the donor is the
   * upstream exon on the forward strand and the downstream one otherwise.
   */
  lemma IntronAtSpec(exons: seq<Interval>, i: int, idx: BoundariesIndex, strand: Strand)
    requires idx.Valid() && 1 <= i < |exons|
    ensures exons[i - 1].end >= exons[i].start ==> IntronAt(exons, i, idx, strand) == Err(AssertionError)
    ensures IntronAt(exons, i, idx, strand).Ok? ==>
      var c := IntronAt(exons, i, idx, strand).value;
      exons[i - 1].end < exons[i].start &&
      Pieces(idx, exons[i - 1].end, exons[i].start) == Ok(c.intron) &&
      (strand == Forward ==> c.donor == exons[i - 1] && c.acceptor == exons[i]) &&
      (strand != Forward ==> c.donor == exons[i] && c.acceptor == exons[i - 1])
  {
  }

  /** Lines 110-112. */
  method PiecesStep(idx: BoundariesIndex, s: int, e: int) returns (r: Result<seq<Interval>>)
    requires idx.Valid()
    ensures r == Pieces(idx, s, e)
  {
    var first := idx.Window(s, Right, Some(e - s));
    if first.Err? {
      return Err(first.error);
    }
    var last := idx.Window(e, Left, Some(e - s));
    if last.Err? {
      return Err(last.error);
    }
    return Ok(Merge([first.value.0, last.value.0]));
  }

  /** One iteration of lines 105-118. */
  method IntronStep(exons: seq<Interval>, i: int, idx: BoundariesIndex, strand: Strand) returns (c: Result<IntronCore>)
    requires idx.Valid() && 1 <= i < |exons|
    ensures c == IntronAt(exons, i, idx, strand)
  {
    var s, e := exons[i - 1].end, exons[i].start;
    if !(s < e) {
      return Err(AssertionError);
    }
    var blocks := PiecesStep(idx, s, e);
    if blocks.Err? {
      return Err(blocks.error);
    }
    if strand == Forward {
      c := MakeIntronCore(exons[i - 1], exons[i], blocks.value);
    } else {
      c := MakeIntronCore(exons[i], exons[i - 1], blocks.value);
    }
  }

  /** The intron results, one per pair of consecutive exons. */
  function IntronsAt(exons: seq<Interval>, idx: BoundariesIndex, strand: Strand): (r: seq<Result<IntronCore>>)
    reads idx
    requires idx.Valid()
    ensures |exons| > 0 ==> |r| == |exons| - 1
  {
    if |exons| == 0 then []
    else seq(|exons| - 1, k requires 0 <= k < |exons| - 1 && idx.Valid() reads idx => IntronAt(exons, k + 1, idx, strand))
  }

  /** No intron list for a single exon; otherwise every intron, the first failure stopping. */
  function Introns(exons: seq<Interval>, idx: BoundariesIndex, strand: Strand): Result<Option<seq<IntronCore>>>
    reads idx
    requires idx.Valid()
  {
    if |exons| <= 1 then Ok(None)
    else
      var r := FirstErr(IntronsAt(exons, idx, strand));
      if r.Err? then Err(r.error) else Ok(Some(r.value))
  }

  /** One intron core per pair of consecutive exons, in order, each the one `IntronAt` builds. */
  lemma IntronsSpec(exons: seq<Interval>, idx: BoundariesIndex, strand: Strand)
    requires idx.Valid()
    ensures |exons| <= 1 ==> Introns(exons, idx, strand) == Ok(None)
    ensures |exons| > 1 ==>
      (Introns(exons, idx, strand).Ok? <==> forall i :: 1 <= i < |exons| ==> IntronAt(exons, i, idx, strand).Ok?)
    ensures |exons| > 1 && Introns(exons, idx, strand).Ok? ==>
      var v := Introns(exons, idx, strand).value;
      v.Some? && |v.value| == |exons| - 1 &&
      forall i :: 1 <= i < |exons| ==> IntronAt(exons, i, idx, strand) == Ok(v.value[i - 1])
  {
    if |exons| > 1 {
      var rs := IntronsAt(exons, idx, strand);
      FirstErrSpec(rs);
      assert forall i :: 1 <= i < |exons| ==> rs[i - 1] == IntronAt(exons, i, idx, strand);
    }
  }

  /** The loop of lines 102-118. */
  method IntronsLoop(exons: seq<Interval>, idx: BoundariesIndex, strand: Strand) returns (r: Result<Option<seq<IntronCore>>>)
    requires idx.Valid()
    ensures r == Introns(exons, idx, strand)
  {
    if |exons| <= 1 {
      return Ok(None);
    }
    ghost var rs := IntronsAt(exons, idx, strand);
    var introns: seq<IntronCore> := [];
    for i := 1 to |exons|
      invariant FirstErr(rs[..i - 1]) == Ok(introns)
    {
      assert rs[..i][..i - 1] == rs[..i - 1];
      assert rs[i - 1] == IntronAt(exons, i, idx, strand);
      var c := IntronStep(exons, i, idx, strand);
      if c.Err? {
        FirstErrPrefix(rs, i);
        return Err(c.error);
      }
      introns := introns + [c.value];
    }
    assert rs[..|exons| - 1] == rs;
    return Ok(Some(introns));
  }

  // ---------------------------------------------------------------------
  // One gene (lines 27-122)

  /** Lines 47-122 once the reference transcript is known. */
  function Assemble(gene: Gene, ref: Rna, idx: BoundariesIndex, os: BoundariesIndex): Result<Core>
    reads idx, os
    requires idx.Valid() && os.Valid()
  {
    var span := Span(gene, ref, idx);
    if span.Err? then Err(span.error)
    else if gene.strand == Other then Err(ValueError)
    else
      var exons := RefExons(ref.exons, idx, gene.strand);
      if exons.Err? then Err(exons.error)
      else
        var regions := Regions(idx, os, gene.strand, span.value);
        if regions.Err? then Err(regions.error)
        else
          var introns := Introns(exons.value, idx, gene.strand);
          if introns.Err? then Err(introns.error)
          else
            var (readIn, divergent, readThrough) := regions.value;
            Ok(Core(gene.ind, gene.seqid, gene.strand, exons.value, introns.value, readThrough, readIn, divergent))
  }

  /**
   * A core keeps the gene's identifier, contig and strand, which is never
   * `Other`; its read-in region lies upstream of the reference transcript
   * and its read-through region downstream; its exons are the reference
   * exons, with intron cores exactly when there is more than one of them.
   */
  lemma AssembleSpec(gene: Gene, ref: Rna, idx: BoundariesIndex, os: BoundariesIndex)
    requires idx.Valid() && os.Valid()
    ensures Span(gene, ref, idx).Ok? && gene.strand == Other ==> Assemble(gene, ref, idx, os) == Err(ValueError)
    ensures Assemble(gene, ref, idx, os).Ok? ==>
      var c := Assemble(gene, ref, idx, os).value;
      c.gid == gene.ind && c.seqid == gene.seqid && c.strand == gene.strand != Other &&
      RefExons(ref.exons, idx, gene.strand) == Ok(c.exons) &&
      Regions(idx, os, gene.strand, Span(gene, ref, idx).value) == Ok((c.readIn, c.divergent, c.readThrough)) &&
      Introns(c.exons, idx, gene.strand) == Ok(c.introns) &&
      (c.introns.Some? <==> |c.exons| > 1) &&
      (c.strand == Forward ==> c.readIn.end <= ref.loc.start && ref.loc.end <= c.readThrough.start) &&
      (c.strand == Reverse ==> ref.loc.end <= c.readIn.start && c.readThrough.end <= ref.loc.start)
  {
    if Assemble(gene, ref, idx, os).Ok? {
      var c := Assemble(gene, ref, idx, os).value;
      SpanSpec(gene, ref, idx);
      RegionsSpec(idx, os, gene.strand, Span(gene, ref, idx).value);
      IntronsSpec(c.exons, idx, gene.strand);
    }
  }

  /** Every boundary index is well formed. */
  ghost predicate Indexed(indexes: map<(string, Strand), BoundariesIndex>)
    reads indexes.Values
  {
    forall k :: k in indexes ==> indexes[k].Valid()
  }

  /**
   * One gene: mitochondrial genes and genes without a reference transcript
   * give nothing; a missing index is a `KeyError`; two reference
   * transcripts fail the assertion.
   */
  function Derive(gene: Gene, rnas: map<string, Rna>, indexes: map<(string, Strand), BoundariesIndex>): Result<Option<Core>>
    reads indexes.Values
    requires AllGencode(rnas) && Indexed(indexes)
  {
    if gene.seqid == "chrM" then Ok(None)
    else if (gene.seqid, gene.strand) !in indexes || (gene.seqid, Flip(gene.strand)) !in indexes then Err(KeyError)
    else
      var refs := References(gene.transcripts, rnas);
      if refs.Err? then Err(refs.error)
      else if |refs.value| == 0 then Ok(None)
      else if |refs.value| > 1 then Err(AssertionError)
      else
        var core := Assemble(gene, refs.value[0], indexes[(gene.seqid, gene.strand)], indexes[(gene.seqid, Flip(gene.strand))]);
        if core.Err? then Err(core.error) else Ok(Some(core.value))
  }

  /**
   * A gene yields nothing exactly when it is mitochondrial or, with both
   * indexes present, none of its transcripts is a reference.
   */
  lemma DeriveNone(gene: Gene, rnas: map<string, Rna>, indexes: map<(string, Strand), BoundariesIndex>)
    requires AllGencode(rnas) && Indexed(indexes)
    ensures Derive(gene, rnas, indexes) == Ok(None) <==>
      gene.seqid == "chrM" ||
      ((gene.seqid, gene.strand) in indexes && (gene.seqid, Flip(gene.strand)) in indexes &&
       References(gene.transcripts, rnas) == Ok([]))
  {
  }

  /** Two reference transcripts fail the assertion. */
  lemma DeriveAmbiguous(gene: Gene, rnas: map<string, Rna>, indexes: map<(string, Strand), BoundariesIndex>)
    requires AllGencode(rnas) && Indexed(indexes)
    requires gene.seqid != "chrM" && (gene.seqid, gene.strand) in indexes && (gene.seqid, Flip(gene.strand)) in indexes
    requires References(gene.transcripts, rnas).Ok? && |References(gene.transcripts, rnas).value| > 1
    ensures Derive(gene, rnas, indexes) == Err(AssertionError)
  {
  }

  /** A core is built from the gene's single reference transcript with the gene's own indexes. */
  lemma DeriveSome(gene: Gene, rnas: map<string, Rna>, indexes: map<(string, Strand), BoundariesIndex>) returns (ref: Rna)
    requires AllGencode(rnas) && Indexed(indexes)
    requires Derive(gene, rnas, indexes).Ok? && Derive(gene, rnas, indexes).value.Some?
    ensures (gene.seqid, gene.strand) in indexes && (gene.seqid, Flip(gene.strand)) in indexes
    ensures References(gene.transcripts, rnas) == Ok([ref])
    ensures Assemble(gene, ref, indexes[(gene.seqid, gene.strand)], indexes[(gene.seqid, Flip(gene.strand))]) ==
      Ok(Derive(gene, rnas, indexes).value.value)
  {
    var refs := References(gene.transcripts, rnas);
    assert refs.Ok? && |refs.value| == 1;
    ref := refs.value[0];
    assert refs.value == [ref];
  }

  /** The body of the gene loop, lines 28-122. */
  method DeriveOne(gene: Gene, rnas: map<string, Rna>, indexes: map<(string, Strand), BoundariesIndex>) returns (r: Result<Option<Core>>)
    requires AllGencode(rnas) && Indexed(indexes)
    ensures r == Derive(gene, rnas, indexes)
  {
    if gene.seqid == "chrM" {
      return Ok(None);
    }
    if (gene.seqid, gene.strand) !in indexes || (gene.seqid, Flip(gene.strand)) !in indexes {
      return Err(KeyError);
    }
    var idx, os := indexes[(gene.seqid, gene.strand)], indexes[(gene.seqid, Flip(gene.strand))];
    var canonical := ReferencesLoop(gene.transcripts, rnas);
    if canonical.Err? {
      return Err(canonical.error);
    }
    if |canonical.value| == 0 {
      return Ok(None);
    }
    if |canonical.value| > 1 {
      return Err(AssertionError);
    }
    var ref := canonical.value[0];
    var right := idx.Closest(gene.loc.start, Right);
    if right.Err? {
      return Err(right.error);
    }
    var left := idx.Closest(gene.loc.end, Left);
    if left.Err? {
      return Err(left.error);
    }
    var start, end := Min(ref.loc.start, right.value.0), Max(ref.loc.end, left.value.0);
    if !(start <= ref.loc.start < ref.loc.end <= end) {
      return Err(AssertionError);
    }
    var span := Interval(start, end);
    if gene.strand == Other {
      return Err(ValueError);
    }
    var exons := RefExons(ref.exons, idx, gene.strand);
    if exons.Err? {
      return Err(exons.error);
    }
    var regions := RegionsLoop(idx, os, gene.strand, span);
    if regions.Err? {
      return Err(regions.error);
    }
    var introns := IntronsLoop(exons.value, idx, gene.strand);
    if introns.Err? {
      return Err(introns.error);
    }
    var (readIn, divergent, readThrough) := regions.value;
    return Ok(Some(Core(gene.ind, gene.seqid, gene.strand, exons.value, introns.value, readThrough, readIn, divergent)));
  }

  // ---------------------------------------------------------------------
  // All genes (lines 14-27, 120-122)

  /** The values present in `rs`, in order; the first failure stops. */
  function Present<T>(rs: seq<Result<Option<T>>>): Result<seq<T>>
  {
    if rs == [] then Ok([])
    else
      var n := |rs| - 1;
      var front := Present(rs[..n]);
      if front.Err? then front
      else if rs[n].Err? then Err(rs[n].error)
      else if rs[n].value.None? then front
      else Ok(front.value + [rs[n].value.value])
  }

  lemma {:induction false} PresentPrefixErr<T>(rs: seq<Result<Option<T>>>, i: nat)
    requires i <= |rs| && Present(rs[..i]).Err?
    ensures Present(rs) == Present(rs[..i])
    decreases |rs| - i
  {
    if i < |rs| {
      assert rs[..i + 1][..i] == rs[..i];
      PresentPrefixErr(rs, i + 1);
    } else {
      assert rs[..i] == rs;
    }
  }

  lemma PresentSnoc<T>(rs: seq<Result<Option<T>>>, i: nat)
    requires i < |rs| && Present(rs[..i]).Ok? && rs[i].Ok?
    ensures Present(rs[..i + 1]) ==
      if rs[i].value.Some? then Ok(Present(rs[..i]).value + [rs[i].value.value]) else Present(rs[..i])
  {
    assert rs[..i + 1][..i] == rs[..i];
  }

  /** Success exactly when no result fails; then exactly the present values. */
  lemma {:induction false} PresentSpec<T>(rs: seq<Result<Option<T>>>)
    ensures Present(rs).Ok? <==> forall i :: 0 <= i < |rs| ==> rs[i].Ok?
    ensures Present(rs).Ok? ==> forall x :: x in Present(rs).value <==> exists i :: 0 <= i < |rs| && rs[i] == Ok(Some(x))
  {
    if rs != [] {
      var n := |rs| - 1;
      var front := rs[..n];
      PresentSpec(front);
      assert forall i :: 0 <= i < n ==> front[i] == rs[i];
      if Present(rs).Ok? {
        var v := Present(rs).value;
        forall x ensures x in v <==> exists i :: 0 <= i < |rs| && rs[i] == Ok(Some(x)) {
          if exists i :: 0 <= i < |rs| && rs[i] == Ok(Some(x)) {
            var i :| 0 <= i < |rs| && rs[i] == Ok(Some(x));
            if i < n {
              assert front[i] == rs[i];
            }
          }
        }
      }
    }
  }

  /** What each gene's derivation gives. */
  function Derived(genes: seq<Gene>, rnas: map<string, Rna>, indexes: map<(string, Strand), BoundariesIndex>): (r: seq<Result<Option<Core>>>)
    reads indexes.Values
    requires AllGencode(rnas) && Indexed(indexes)
    ensures |r| == |genes|
  {
    seq(|genes|, i requires 0 <= i < |genes| && AllGencode(rnas) && Indexed(indexes) reads indexes.Values => Derive(genes[i], rnas, indexes))
  }

  /** The cores of all genes in order; the first failure stops the job. */
  function Cores(genes: seq<Gene>, rnas: map<string, Rna>, indexes: map<(string, Strand), BoundariesIndex>): Result<seq<Core>>
    reads indexes.Values
    requires AllGencode(rnas) && Indexed(indexes)
  {
    Present(Derived(genes, rnas, indexes))
  }

  /**
   * Every core comes from a gene: the job succeeds exactly when every
   * gene's derivation does, and then its cores are those the genes yield.
   */
  lemma CoresSpec(genes: seq<Gene>, rnas: map<string, Rna>, indexes: map<(string, Strand), BoundariesIndex>)
    requires AllGencode(rnas) && Indexed(indexes)
    ensures Cores(genes, rnas, indexes).Ok? <==> forall i :: 0 <= i < |genes| ==> Derive(genes[i], rnas, indexes).Ok?
    ensures Cores(genes, rnas, indexes).Ok? ==> forall c :: c in Cores(genes, rnas, indexes).value <==>
      exists i :: 0 <= i < |genes| && Derive(genes[i], rnas, indexes) == Ok(Some(c))
  {
    var ds := Derived(genes, rnas, indexes);
    PresentSpec(ds);
    assert forall i :: 0 <= i < |genes| ==> ds[i] == Derive(genes[i], rnas, indexes);
  }

  /** The `results` key of a core. */
  function KeyOf(c: Core): (string, Strand)
  {
    (c.seqid, c.strand)
  }

  function Itself(c: Core): Core
  {
    c
  }

  /** The cores grouped by contig and strand, each group in order. */
  function Grouped(cores: seq<Core>): map<(string, Strand), seq<Core>>
  {
    map k | k in (set c | c in cores :: KeyOf(c)) :: Bed.Members(cores, KeyOf, Itself, k)
  }

  /** Each group holds exactly the cores on its contig and strand, and no group is empty. */
  lemma GroupedSpec(cores: seq<Core>)
    ensures forall k :: k in Grouped(cores) <==> exists c :: c in cores && KeyOf(c) == k
    ensures forall k, c :: k in Grouped(cores) ==> (c in Grouped(cores)[k] <==> c in cores && KeyOf(c) == k)
  {
    Bed.MembersComplete(cores, KeyOf, Itself);
    forall k, c | k in Grouped(cores) ensures c in Grouped(cores)[k] <==> c in cores && KeyOf(c) == k {
      Bed.MembersSound(cores, KeyOf, Itself, k);
      if c in cores && KeyOf(c) == k {
        var i :| 0 <= i < |cores| && cores[i] == c;
        assert Itself(cores[i]) in Bed.Members(cores, KeyOf, Itself, KeyOf(cores[i]));
      }
    }
  }

  /** Appending a core appends it to its own group. */
  lemma GroupedSnoc(cores: seq<Core>, c: Core)
    ensures var g := Grouped(cores);
      Grouped(cores + [c]) == g[KeyOf(c) := (if KeyOf(c) in g then g[KeyOf(c)] else []) + [c]]
  {
    var g, h := Grouped(cores), Grouped(cores + [c]);
    var m := g[KeyOf(c) := (if KeyOf(c) in g then g[KeyOf(c)] else []) + [c]];
    assert (cores + [c])[..|cores|] == cores;
    if KeyOf(c) !in g {
      forall i | 0 <= i < |cores| ensures KeyOf(cores[i]) != KeyOf(c) {
        assert cores[i] in cores;
      }
      Bed.MembersAbsent(cores, KeyOf, Itself, KeyOf(c));
    }
    assert (set x | x in cores + [c] :: KeyOf(x)) == (set x | x in cores :: KeyOf(x)) + {KeyOf(c)};
    forall k | k in h ensures k in m && h[k] == m[k] {
      assert Bed.Members(cores + [c], KeyOf, Itself, k) ==
        Bed.Members(cores, KeyOf, Itself, k) + (if KeyOf(c) == k then [c] else []);
    }
    assert h.Keys == m.Keys;
  }

  /** `results[loc.seqid, loc.strand].append(...)` of lines 120-122. */
  method AddCore(results: map<(string, Strand), seq<Core>>, ghost cores: seq<Core>, core: Core) returns (r: map<(string, Strand), seq<Core>>)
    requires results == Grouped(cores)
    ensures r == Grouped(cores + [core])
  {
    var k := KeyOf(core);
    GroupedSnoc(cores, core);
    r := results[k := (if k in results then results[k] else []) + [core]];
  }

  /** The job of lines 14-122: one core per gene that yields one, appended to its contig and strand. */
  function Job(genes: seq<Gene>, rnas: map<string, Rna>, indexes: map<(string, Strand), BoundariesIndex>): Result<map<(string, Strand), seq<Core>>>
    reads indexes.Values
    requires AllGencode(rnas) && Indexed(indexes)
  {
    var cores := Cores(genes, rnas, indexes);
    if cores.Err? then Err(cores.error) else Ok(Grouped(cores.value))
  }

  /** The loop of lines 27-122 with its `defaultdict(list)` of results. */
  method JobLoop(genes: seq<Gene>, rnas: map<string, Rna>, indexes: map<(string, Strand), BoundariesIndex>)
    returns (r: Result<map<(string, Strand), seq<Core>>>)
    requires AllGencode(rnas) && Indexed(indexes)
    ensures r == Job(genes, rnas, indexes)
  {
    var results: map<(string, Strand), seq<Core>> := map[];
    ghost var cores: seq<Core> := [];
    ghost var ds := Derived(genes, rnas, indexes);
    for i := 0 to |genes|
      invariant Present(ds[..i]) == Ok(cores)
      invariant results == Grouped(cores)
    {
      assert ds[..i + 1][..i] == ds[..i];
      assert ds[i] == Derive(genes[i], rnas, indexes);
      var d := DeriveOne(genes[i], rnas, indexes);
      if d.Err? {
        PresentPrefixErr(ds, i + 1);
        return Err(d.error);
      }
      PresentSnoc(ds, i);
      if d.value.Some? {
        results := AddCore(results, cores, d.value.value);
        cores := cores + [d.value.value];
      }
    }
    assert ds[..|genes|] == ds;
    return Ok(results);
  }
}
