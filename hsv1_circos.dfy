// The circos annotation of the HSV-1 story (`circos` in features.py): the
// transcripts of each strand's BED12 track are filtered, laid out in rows,
// their heights rescaled to [0, 1] (negated on '-'), and every transcript is
// cut into exon, intron, 5′ end and 3′ end intervals.
module HSV1Circos {
  import opened Common
  import opened Strs
  import opened Decimal
  import opened Intervals
  import Bed
  import HSV1Features

  /**
   * One transcript of a strand's BED12 track as `circos` reads it: its name,
   * start and strand column, the block-size and block-start columns as
   * text, and its score (the height the row layout gave it).
   */
  datatype Row = Row(name: string, start: int, strand: string, sizes: string, starts: string, score: real)

  /** One circos interval: start, end, transcript name, score and colour. */
  datatype Track = Track(start: int, end: int, name: string, score: real, color: string)

  /** The four tracks of one strand. */
  datatype Tracks = Tracks(introns: seq<Track>, exons: seq<Track>, fivePrime: seq<Track>, threePrime: seq<Track>)

  /** The colour of the 5′ and 3′ end intervals. */
  const Black: string := "#000000"

  const NoTracks := Tracks([], [], [], [])

  /** The tracks of `a` followed by those of `b`, track by track. */
  function Append(a: Tracks, b: Tracks): Tracks
  {
    Tracks(a.introns + b.introns, a.exons + b.exons, a.fivePrime + b.fivePrime, a.threePrime + b.threePrime)
  }

  // ---------------------------------------------------------------------
  // Blocks

  /** One block: `int(length)` and `int(start) + gene.start`, ending `length` later. */
  function ParseBlock(origin: int, length: string, start: string): (r: Result<Interval>)
    ensures r.Err? ==> r.error == ValueError
  {
    var l, s := Bed.ParseInt(length), Bed.ParseInt(start);
    if l.Some? && s.Some? then Ok(Interval(origin + s.value, origin + s.value + l.value)) else Err(ValueError)
  }

  /** The size and start columns split on ',' and zipped: the shorter column decides how many blocks there are. */
  function Blocks(g: Row): (r: seq<Result<Interval>>)
    ensures |r| == Min(|Split(g.sizes, ',')|, |Split(g.starts, ',')|)
  {
    Zipped(g.start, Split(g.sizes, ','), Split(g.starts, ','))
  }

  /** `zip(sizes, starts)`, each pair parsed as a block. */
  function Zipped(origin: int, sizes: seq<string>, starts: seq<string>): (r: seq<Result<Interval>>)
    ensures |r| == Min(|sizes|, |starts|)
  {
    seq(Min(|sizes|, |starts|), i requires 0 <= i < Min(|sizes|, |starts|) => ParseBlock(origin, sizes[i], starts[i]))
  }

  /** Columns holding the numbers `ls` and `ss` give the blocks of those sizes and starts. */
  lemma ZippedOk(origin: int, sizes: seq<string>, starts: seq<string>, ls: seq<int>, ss: seq<int>)
    requires |sizes| == |starts| == |ls| == |ss|
    requires forall i :: 0 <= i < |ls| ==> Bed.ParseInt(sizes[i]) == Some(ls[i]) && Bed.ParseInt(starts[i]) == Some(ss[i])
    ensures forall i :: 0 <= i < |ls| ==> Zipped(origin, sizes, starts)[i] == Ok(Interval(origin + ss[i], origin + ss[i] + ls[i]))
  {
    forall i | 0 <= i < |ls| {
      ZippedAt(origin, sizes, starts, ls, ss, i);
    }
  }

  lemma ZippedAt(origin: int, sizes: seq<string>, starts: seq<string>, ls: seq<int>, ss: seq<int>, i: int)
    requires 0 <= i < |sizes| == |starts| == |ls| == |ss|
    requires Bed.ParseInt(sizes[i]) == Some(ls[i]) && Bed.ParseInt(starts[i]) == Some(ss[i])
    ensures Zipped(origin, sizes, starts)[i] == Ok(Interval(origin + ss[i], origin + ss[i] + ls[i]))
  {
    ParseBlockOk(origin, sizes[i], starts[i], ls[i], ss[i]);
  }


  /** `excoords`: the exons of a transcript; a block that is not a number raises `ValueError`. */
  function ExonCoords(g: Row): (r: Result<seq<Interval>>)
    ensures r.Err? ==> r.error == ValueError
    ensures r.Ok? ==> |r.value| >= 1
  {
    var parsed := Blocks(g);
    FirstErrSpec(parsed);
    if FirstErr(parsed).Err? then
      FirstErrFrom(parsed);
      FirstErr(parsed)
    else FirstErr(parsed)
  }

  /** The gaps between consecutive exons: from the end of one to the start of the next. */
  function Introns(ex: seq<Interval>): seq<Interval>
  {
    if |ex| <= 1 then []
    else seq(|ex| - 1, i requires 0 <= i < |ex| - 1 => Interval(ex[i].end, ex[i + 1].start))
  }

  /** An interval of transcript `g` with colour `c`. */
  function Tag(iv: Interval, g: Row, c: string): Track
  {
    Track(iv.start, iv.end, g.name, g.score, c)
  }

  function Tagged(ivs: seq<Interval>, g: Row, c: string): seq<Track>
  {
    seq(|ivs|, i requires 0 <= i < |ivs| => Tag(ivs[i], g, c))
  }

  lemma TaggedSnoc(ivs: seq<Interval>, g: Row, c: string)
    requires |ivs| >= 1
    ensures Tagged(ivs, g, c) == Tagged(ivs[..|ivs| - 1], g, c) + [Tag(ivs[|ivs| - 1], g, c)]
  {
  }

  /** The 5′ end: the first exon on '+', the last one otherwise. */
  function FivePrime(g: Row, ex: seq<Interval>): Interval
    requires |ex| >= 1
  {
    if g.strand == "+" then ex[0] else ex[|ex| - 1]
  }

  /** The 3′ end: the last exon on '+', the first one otherwise. */
  function ThreePrime(g: Row, ex: seq<Interval>): Interval
    requires |ex| >= 1
  {
    if g.strand == "+" then ex[|ex| - 1] else ex[0]
  }

  /**
   * The intervals one transcript contributes: its introns and exons in the
   * colour of its class, and its 5′ and 3′ ends in black.
   */
  function GeneTracks(g: Row, color: string -> string): Result<Tracks>
  {
    match ExonCoords(g)
    case Err(e) => Err(e)
    case Ok(ex) => Ok(TracksOf(g, ex, color(g.name)))
  }

  /** The intervals of transcript `g` with exons `ex`, introns and exons in colour `c`. */
  function TracksOf(g: Row, ex: seq<Interval>, c: string): Tracks
    requires |ex| >= 1
  {
    Tracks(Tagged(Introns(ex), g, c), Tagged(ex, g, c), [Tag(FivePrime(g, ex), g, Black)], [Tag(ThreePrime(g, ex), g, Black)])
  }

  /** The tracks of a strand, transcript by transcript; the first failing transcript raises. */
  function StrandTracks(genes: seq<Row>, color: string -> string): Result<Tracks>
  {
    if genes == [] then Ok(NoTracks)
    else
      match StrandTracks(genes[..|genes| - 1], color)
      case Err(e) => Err(e)
      case Ok(t) =>
        match GeneTracks(genes[|genes| - 1], color)
        case Err(e) => Err(e)
        case Ok(u) => Ok(Append(t, u))
  }

  /**
   * The tracks of one transcript: one exon interval per exon, one intron
   * interval between each two consecutive exons, and a single 5′ and a
   * single 3′ interval, which are the first and the last exon, swapped on
   * '-'.
   */
  lemma TracksShape(g: Row, ex: seq<Interval>, c: string)
    requires |ex| >= 1
    ensures var t := TracksOf(g, ex, c);
      |t.exons| == |ex| && |t.introns| == |ex| - 1 && |t.fivePrime| == 1 && |t.threePrime| == 1 &&
      (forall i :: 0 <= i < |ex| ==> t.exons[i].start == ex[i].start && t.exons[i].end == ex[i].end) &&
      (forall i :: 0 <= i < |ex| - 1 ==> t.introns[i].start == ex[i].end && t.introns[i].end == ex[i + 1].start) &&
      (g.strand == "+" ==> t.fivePrime[0].start == ex[0].start && t.threePrime[0].end == ex[|ex| - 1].end) &&
      (g.strand != "+" ==> t.fivePrime[0].end == ex[|ex| - 1].end && t.threePrime[0].start == ex[0].start)
  {
    var t := TracksOf(g, ex, c);
    forall i | 0 <= i < |ex| - 1 ensures t.introns[i].start == ex[i].end && t.introns[i].end == ex[i + 1].start {
      assert Introns(ex)[i] == Interval(ex[i].end, ex[i + 1].start);
    }
  }

  /** Between exons that do not overlap, every intron is a gap that ends no earlier than it starts. */
  lemma IntronsBetween(ex: seq<Interval>)
    requires HSV1Features.ValidBlocks(ex)
    ensures |Introns(ex)| == if |ex| == 0 then 0 else |ex| - 1
    ensures forall i :: 0 <= i < |Introns(ex)| ==>
      ex[i].end == Introns(ex)[i].start <= Introns(ex)[i].end == ex[i + 1].start
  {
    var r := Introns(ex);
    forall i | 0 <= i < |r| ensures ex[i].end == r[i].start <= r[i].end == ex[i + 1].start {
      assert r[i] == Interval(ex[i].end, ex[i + 1].start);
      assert i < |ex| - 1;
    }
  }

  // ---------------------------------------------------------------------
  // Reading back a transcript record

  /** `",".join(map(str, ns))`. */
  function Joined(ns: seq<int>): string
    requires forall i :: 0 <= i < |ns| ==> ns[i] >= 0
  {
    Join(seq(|ns|, i requires 0 <= i < |ns| => NatToString(ns[i])), ',')
  }

  /** The row `circos` reads for a BED12 record the `genes` step wrote, with the height `score`. */
  function RowOf(b: Bed.Bed12, score: real): Row
    requires forall i :: 0 <= i < |b.blockSizes| ==> b.blockSizes[i] >= 0
    requires forall i :: 0 <= i < |b.blockStarts| ==> b.blockStarts[i] >= 0
  {
    Row(b.name, b.start, [Symbol(b.strand)], Joined(b.blockSizes), Joined(b.blockStarts), score)
  }

  /** Writing numbers joined by ',' and splitting the text again gives back one piece per number. */
  lemma JoinedSplit(ns: seq<int>)
    requires |ns| >= 1 && forall i :: 0 <= i < |ns| ==> ns[i] >= 0
    ensures var p := Split(Joined(ns), ',');
      |p| == |ns| && forall i :: 0 <= i < |ns| ==> Bed.ParseInt(p[i]) == Some(ns[i])
  {
    var pieces := seq(|ns|, i requires 0 <= i < |ns| => NatToString(ns[i]));
    forall i | 0 <= i < |ns| ensures ',' !in pieces[i] && Bed.ParseInt(pieces[i]) == Some(ns[i]) {
      assert forall k :: 0 <= k < |pieces[i]| ==> IsDigit(pieces[i][k]);
      Bed.ParseIntOfNat(ns[i]);
    }
    SplitJoin(pieces, ',');
  }

  /** The blocks `circos` reads from a record are the record's blocks. */
  lemma RowBlocks(b: Bed.Bed12, score: real)
    requires |b.blockSizes| == |b.blockStarts| >= 1
    requires forall i :: 0 <= i < |b.blockSizes| ==> b.blockSizes[i] >= 0
    requires forall i :: 0 <= i < |b.blockStarts| ==> b.blockStarts[i] >= 0
    ensures var parsed := Blocks(RowOf(b, score));
      |parsed| == |b.blockSizes| && forall i :: 0 <= i < |parsed| ==> parsed[i] == Ok(Bed.BlocksOf(b)[i])
  {
    var g := RowOf(b, score);
    var sizes, starts := Split(g.sizes, ','), Split(g.starts, ',');
    JoinedSplit(b.blockSizes);
    JoinedSplit(b.blockStarts);
    ZippedBlocks(b, sizes, starts);
    assert Blocks(g) == Zipped(b.start, sizes, starts);
  }

  lemma ZippedBlocks(b: Bed.Bed12, sizes: seq<string>, starts: seq<string>)
    requires |sizes| == |starts| == |b.blockSizes| == |b.blockStarts|
    requires forall i :: 0 <= i < |sizes| ==>
      Bed.ParseInt(sizes[i]) == Some(b.blockSizes[i]) && Bed.ParseInt(starts[i]) == Some(b.blockStarts[i])
    ensures forall i :: 0 <= i < |sizes| ==> Zipped(b.start, sizes, starts)[i] == Ok(Bed.BlocksOf(b)[i])
  {
    ZippedOk(b.start, sizes, starts, b.blockSizes, b.blockStarts);
    forall i | 0 <= i < |sizes| ensures Zipped(b.start, sizes, starts)[i] == Ok(Bed.BlocksOf(b)[i]) {
      assert Bed.BlocksOf(b)[i] == Interval(b.start + b.blockStarts[i], b.start + b.blockStarts[i] + b.blockSizes[i]);
    }
  }

  lemma ParseBlockOk(origin: int, length: string, start: string, l: int, s: int)
    requires Bed.ParseInt(length) == Some(l) && Bed.ParseInt(start) == Some(s)
    ensures ParseBlock(origin, length, start) == Ok(Interval(origin + s, origin + s + l))
  {
  }

  /** The exons of a block record, written out and read back, are the exons it was built from. */
  lemma BlockRowRoundTrip(contig: string, exons: seq<Interval>, name: string, strand: Strand, col: string, score: real)
    requires |exons| >= 1
    requires forall i :: 0 <= i < |exons| ==> exons[i].start <= exons[i].end && exons[0].start <= exons[i].start
    ensures var b := HSV1Features.BlockRecord(contig, exons, name, strand, col);
      (forall i :: 0 <= i < |b.blockSizes| ==> b.blockSizes[i] >= 0) &&
      (forall i :: 0 <= i < |b.blockStarts| ==> b.blockStarts[i] >= 0) &&
      ExonCoords(RowOf(b, score)) == Ok(exons)
  {
    var b := HSV1Features.BlockRecord(contig, exons, name, strand, col);
    HSV1Features.BlockRecordBlocks(contig, exons, name, strand, col);
    RowBlocks(b, score);
    FirstErrOk(Blocks(RowOf(b, score)), exons);
  }

  /** Results that are all values give those values. */
  lemma FirstErrOk<T>(rs: seq<Result<T>>, vs: seq<T>)
    requires |rs| == |vs| && forall i :: 0 <= i < |rs| ==> rs[i] == Ok(vs[i])
    ensures FirstErr(rs) == Ok(vs)
  {
    FirstErrSpec(rs);
    assert FirstErr(rs).value == vs;
  }

  /**
   * A transcript record of the `genes` step, read back by `circos`: its
   * exons are the transcript's sorted exons, its 5′ end starts at the
   * transcript's start on '+' and ends at the transcript's end on '-', and
   * its 3′ end the other way round.
   */
  lemma GeneRecordEnds(contig: string, gene: HSV1Features.Feature, t: HSV1Features.Transcript,
                       palette: string -> string, color: string -> string, score: real)
    requires HSV1Features.GeneRecord(contig, gene, t, palette).Ok? && HSV1Features.WellFormedExons(t)
    ensures var b := HSV1Features.GeneRecord(contig, gene, t, palette).value;
      (forall i :: 0 <= i < |b.blockSizes| ==> b.blockSizes[i] >= 0) &&
      (forall i :: 0 <= i < |b.blockStarts| ==> b.blockStarts[i] >= 0) &&
      var g := RowOf(b, score);
      ExonCoords(g) == Ok(HSV1Features.SortedExons(t)) && GeneTracks(g, color).Ok? &&
      (t.strand == 1 ==> GeneTracks(g, color).value.fivePrime[0].start == t.loc.start &&
                          GeneTracks(g, color).value.threePrime[0].end == t.loc.end) &&
      (t.strand == -1 ==> GeneTracks(g, color).value.fivePrime[0].end == t.loc.end &&
                           GeneTracks(g, color).value.threePrime[0].start == t.loc.start)
  {
    var b := HSV1Features.GeneRecord(contig, gene, t, palette).value;
    var ex := HSV1Features.SortedExons(t);
    HSV1Features.GeneRecordBlocks(contig, gene, t, palette);
    HSV1Features.GeneRecordNonNegative(contig, gene, t, palette);
    assert b == HSV1Features.BlockRecord(contig, ex, b.name, b.strand, b.color);
    forall i | 0 <= i < |ex| ensures ex[i].start <= ex[i].end && ex[0].start <= ex[i].start {
      assert b.blockSizes[i] >= 0 && b.blockStarts[i] >= 0;
    }
    BlockRowRoundTrip(contig, ex, b.name, b.strand, b.color, score);
    var g := RowOf(b, score);
    assert g.strand == "+" <==> t.strand == 1;
    assert GeneTracks(g, color) == Ok(TracksOf(g, ex, color(g.name)));
    TracksShape(g, ex, color(g.name));
  }

  // ---------------------------------------------------------------------
  // Heights

  /** `[x for x in genes if x.name not in SKIP]`. */
  function Kept(genes: seq<Row>, skip: set<string>): seq<Row>
  {
    if genes == [] then []
    else Kept(genes[..|genes| - 1], skip) + (if genes[|genes| - 1].name in skip then [] else [genes[|genes| - 1]])
  }

  /** A transcript is kept exactly when it is listed and its name is not skipped. */
  lemma {:induction false} KeptMembers(genes: seq<Row>, skip: set<string>)
    ensures forall g :: g in Kept(genes, skip) <==> g in genes && g.name !in skip
    decreases |genes|
  {
    if genes != [] {
      var n := |genes| - 1;
      KeptMembers(genes[..n], skip);
      assert genes == genes[..n] + [genes[n]];
    }
  }

  function Scores(genes: seq<Row>): (r: seq<real>)
    ensures |r| == |genes| && forall i :: 0 <= i < |genes| ==> r[i] == genes[i].score
  {
    seq(|genes|, i requires 0 <= i < |genes| => genes[i].score)
  }

  /** The transcripts with their scores replaced by `v`. */
  function Rescored(genes: seq<Row>, v: seq<real>): (r: seq<Row>)
    requires |v| == |genes|
  {
    seq(|genes|, i requires 0 <= i < |genes| => genes[i].(score := v[i]))
  }

  /**
   * Every score moved to (x - min) / (max - min): `max` of no scores raises
   * `ValueError`, and equal scores divide by zero.
   */
  function Renormalised(xs: seq<real>): Result<seq<real>>
  {
    if |xs| == 0 then Err(ValueError)
    else
      var hi, lo := MaxOf(xs), MinOf(xs);
      if hi == lo then Err(ZeroDivisionError)
      else Ok(Rescale(xs, lo, hi))
  }

  /** Rescaling fails exactly on no scores (`ValueError`) or on equal scores (`ZeroDivisionError`). */
  lemma RenormalisedFails(xs: seq<real>)
    ensures Renormalised(xs) == Err(ValueError) <==> |xs| == 0
    ensures Renormalised(xs) == Err(ZeroDivisionError) <==> |xs| > 0 && forall i :: 0 <= i < |xs| ==> xs[i] == xs[0]
  {
    if |xs| > 0 {
      var hi, lo := MaxOf(xs), MinOf(xs);
      if hi == lo {
        forall i | 0 <= i < |xs| ensures xs[i] == xs[0] {
        }
      } else {
        var a :| 0 <= a < |xs| && xs[a] == lo;
        var z :| 0 <= z < |xs| && xs[z] == hi;
        assert xs[a] != xs[0] || xs[z] != xs[0];
      }
    }
  }

  /** `(x - lo) / (hi - lo)` for every score. */
  function Rescale(xs: seq<real>, lo: real, hi: real): (r: seq<real>)
    requires lo < hi
    ensures |r| == |xs|
  {
    seq(|xs|, i requires 0 <= i < |xs| => (xs[i] - lo) / (hi - lo))
  }

  /**
   * Otherwise every score lands in [0, 1], the order of the scores is kept,
   * and the smallest becomes 0 and the largest 1.
   */
  lemma RenormalisedRange(xs: seq<real>)
    requires Renormalised(xs).Ok?
    ensures var r := Renormalised(xs).value;
      |r| == |xs| &&
      (forall i :: 0 <= i < |r| ==> 0.0 <= r[i] <= 1.0) &&
      (forall i, j :: 0 <= i < |r| && 0 <= j < |r| ==> (xs[i] <= xs[j] <==> r[i] <= r[j])) &&
      (exists i :: 0 <= i < |r| && r[i] == 0.0) && (exists j :: 0 <= j < |r| && r[j] == 1.0)
  {
    var hi, lo := MaxOf(xs), MinOf(xs);
    assert lo < hi by {
      assert lo <= xs[0] <= hi;
    }
    assert Renormalised(xs).value == Rescale(xs, lo, hi);
    RescaleRange(xs, lo, hi);
  }

  lemma RescaleRange(xs: seq<real>, lo: real, hi: real)
    requires lo < hi
    requires forall i :: 0 <= i < |xs| ==> lo <= xs[i] <= hi
    requires (exists i :: 0 <= i < |xs| && xs[i] == lo) && (exists j :: 0 <= j < |xs| && xs[j] == hi)
    ensures var r := Rescale(xs, lo, hi);
      (forall i :: 0 <= i < |r| ==> 0.0 <= r[i] <= 1.0) &&
      (forall i, j :: 0 <= i < |r| && 0 <= j < |r| ==> (xs[i] <= xs[j] <==> r[i] <= r[j])) &&
      (exists i :: 0 <= i < |r| && r[i] == 0.0) && (exists j :: 0 <= j < |r| && r[j] == 1.0)
  {
    var r := Rescale(xs, lo, hi);
    forall i | 0 <= i < |r| ensures 0.0 <= r[i] <= 1.0 {
      Scaled(xs[i], lo, hi);
    }
    forall i, j | 0 <= i < |r| && 0 <= j < |r| ensures xs[i] <= xs[j] <==> r[i] <= r[j] {
      ScaledMonotone(xs[i], xs[j], lo, hi);
    }
    var a :| 0 <= a < |xs| && xs[a] == lo;
    var z :| 0 <= z < |xs| && xs[z] == hi;
    assert r[a] == (xs[a] - lo) / (hi - lo) && xs[a] - lo == 0.0;
    Over(0.0, hi - lo);
    assert r[z] == (xs[z] - lo) / (hi - lo) && xs[z] - lo == hi - lo;
    Over(hi - lo, hi - lo);
  }

  lemma Over(x: real, d: real)
    requires d != 0.0
    ensures x == 0.0 ==> x / d == 0.0
    ensures x == d ==> x / d == 1.0
  {
  }

  lemma Scaled(x: real, lo: real, hi: real)
    requires lo <= x <= hi && lo < hi
    ensures 0.0 <= (x - lo) / (hi - lo) <= 1.0
  {
    assert (x - lo) / (hi - lo) * (hi - lo) == x - lo;
  }

  lemma ScaledMonotone(x: real, y: real, lo: real, hi: real)
    requires lo < hi
    ensures x <= y <==> (x - lo) / (hi - lo) <= (y - lo) / (hi - lo)
  {
    var d := hi - lo;
    assert (x - lo) / d * d == x - lo;
    assert (y - lo) / d * d == y - lo;
    if (x - lo) / d <= (y - lo) / d {
      assert (x - lo) / d * d <= (y - lo) / d * d;
    }
  }

  /** The transcripts of one strand with their rescaled heights. */
  function RenormalisedRows(genes: seq<Row>): (r: Result<seq<Row>>)
  {
    match Renormalised(Scores(genes))
    case Err(e) => Err(e)
    case Ok(v) => Ok(Rescored(genes, v))
  }

  /**
   * The rows of one strand once filtered, laid out and rescaled; `assort`
   * is the row layout, which writes each transcript's height into its
   * score.
   */
  function PerStrand(genes: seq<Row>, skip: set<string>, assort: seq<Row> -> seq<Row>): Result<seq<Row>>
  {
    RenormalisedRows(assort(Kept(genes, skip)))
  }

  /** The '-' heights turned below the axis. */
  function Negated(genes: seq<Row>): (r: seq<Row>)
  {
    seq(|genes|, i requires 0 <= i < |genes| => genes[i].(score := -genes[i].score))
  }

  /** The circos annotation: both strands' tracks, '+' first; the first failure raises. */
  function CircosOf(fwd: seq<Row>, rev: seq<Row>, skip: set<string>, assort: seq<Row> -> seq<Row>,
                    color: string -> string): Result<(Tracks, Tracks)>
  {
    match PerStrand(fwd, skip, assort)
    case Err(e) => Err(e)
    case Ok(f) =>
      match PerStrand(rev, skip, assort)
      case Err(e) => Err(e)
      case Ok(r) =>
        match StrandTracks(f, color)
        case Err(e) => Err(e)
        case Ok(tf) =>
          match StrandTracks(Negated(r), color)
          case Err(e) => Err(e)
          case Ok(tr) => Ok((tf, tr))
  }

  // ---------------------------------------------------------------------
  // Properties of the tracks

  /** `x` carries the name and the score of one of `genes`. */
  predicate Owned(x: Track, genes: seq<Row>)
  {
    exists k :: 0 <= k < |genes| && x.name == genes[k].name && x.score == genes[k].score
  }

  predicate Sourced(xs: seq<Track>, genes: seq<Row>)
  {
    forall i :: 0 <= i < |xs| ==> Owned(xs[i], genes)
  }

  /** Every interval of a strand's tracks carries the name and the score of one of its transcripts. */
  predicate FromRows(t: Tracks, genes: seq<Row>)
  {
    Sourced(t.introns, genes) && Sourced(t.exons, genes) && Sourced(t.fivePrime, genes) && Sourced(t.threePrime, genes)
  }

  /** Every interval of `xs` carries the name and score of `g`. */
  predicate AllOf(xs: seq<Track>, g: Row)
  {
    forall i :: 0 <= i < |xs| ==> xs[i].name == g.name && xs[i].score == g.score
  }

  lemma TracksOwn(g: Row, ex: seq<Interval>, c: string)
    requires |ex| >= 1
    ensures var u := TracksOf(g, ex, c);
      AllOf(u.introns, g) && AllOf(u.exons, g) && AllOf(u.fivePrime, g) && AllOf(u.threePrime, g)
  {
  }

  /** Intervals owned by a prefix of the transcripts, then those of the next transcript, are owned by the longer prefix. */
  lemma SourcedSnoc(xs: seq<Track>, ys: seq<Track>, genes: seq<Row>)
    requires |genes| >= 1
    requires Sourced(xs, genes[..|genes| - 1]) && AllOf(ys, genes[|genes| - 1])
    ensures Sourced(xs + ys, genes)
  {
    var n := |genes| - 1;
    forall i | 0 <= i < |xs| ensures Owned(xs[i], genes) {
      OwnedPrefix(xs[i], genes, n);
    }
    forall i | 0 <= i < |ys| ensures Owned(ys[i], genes) {
      assert ys[i].name == genes[n].name && ys[i].score == genes[n].score;
    }
    forall i | 0 <= i < |xs + ys| ensures Owned((xs + ys)[i], genes) {
      if i < |xs| {
        assert (xs + ys)[i] == xs[i];
      } else {
        assert (xs + ys)[i] == ys[i - |xs|];
      }
    }
  }

  /** An interval owned by a prefix of the transcripts is owned by all of them. */
  lemma OwnedPrefix(x: Track, genes: seq<Row>, n: int)
    requires 0 <= n <= |genes| && Owned(x, genes[..n])
    ensures Owned(x, genes)
  {
    var k :| 0 <= k < n && x.name == genes[..n][k].name && x.score == genes[..n][k].score;
    assert genes[..n][k] == genes[k];
  }

  lemma {:induction false} StrandTracksFromRows(genes: seq<Row>, color: string -> string)
    requires StrandTracks(genes, color).Ok?
    ensures FromRows(StrandTracks(genes, color).value, genes)
    decreases |genes|
  {
    if genes != [] {
      var n := |genes| - 1;
      StrandTracksFromRows(genes[..n], color);
      var t := StrandTracks(genes[..n], color).value;
      var u := GeneTracks(genes[n], color).value;
      TracksOwn(genes[n], ExonCoords(genes[n]).value, color(genes[n].name));
      SourcedSnoc(t.introns, u.introns, genes);
      SourcedSnoc(t.exons, u.exons, genes);
      SourcedSnoc(t.fivePrime, u.fivePrime, genes);
      SourcedSnoc(t.threePrime, u.threePrime, genes);
    }
  }

  /** Every interval of `xs` scores within `[lo, hi]`. */
  predicate ScoredWithin(xs: seq<Track>, lo: real, hi: real)
  {
    forall i :: 0 <= i < |xs| ==> lo <= xs[i].score <= hi
  }

  /** Every interval of the four tracks scores within `[lo, hi]`. */
  predicate Within(t: Tracks, lo: real, hi: real)
  {
    ScoredWithin(t.introns, lo, hi) && ScoredWithin(t.exons, lo, hi) &&
    ScoredWithin(t.fivePrime, lo, hi) && ScoredWithin(t.threePrime, lo, hi)
  }

  lemma SourcedWithin(xs: seq<Track>, genes: seq<Row>, lo: real, hi: real)
    requires Sourced(xs, genes)
    requires forall k :: 0 <= k < |genes| ==> lo <= genes[k].score <= hi
    ensures ScoredWithin(xs, lo, hi)
  {
    forall i | 0 <= i < |xs| ensures lo <= xs[i].score <= hi {
      var k :| 0 <= k < |genes| && xs[i].name == genes[k].name && xs[i].score == genes[k].score;
    }
  }

  /** Every score of a strand's tracks lies within `[lo, hi]` when every transcript's score does. */
  lemma ScoresWithin(t: Tracks, genes: seq<Row>, lo: real, hi: real)
    requires FromRows(t, genes)
    requires forall k :: 0 <= k < |genes| ==> lo <= genes[k].score <= hi
    ensures Within(t, lo, hi)
  {
    SourcedWithin(t.introns, genes, lo, hi);
    SourcedWithin(t.exons, genes, lo, hi);
    SourcedWithin(t.fivePrime, genes, lo, hi);
    SourcedWithin(t.threePrime, genes, lo, hi);
  }

  /** Rescaled rows keep their transcripts and carry scores in [0, 1]. */
  lemma RenormalisedRowsSpec(genes: seq<Row>)
    requires RenormalisedRows(genes).Ok?
    ensures var r := RenormalisedRows(genes).value;
      |r| == |genes| && forall k :: 0 <= k < |r| ==> 0.0 <= r[k].score <= 1.0 && r[k].name == genes[k].name
  {
    RenormalisedRange(Scores(genes));
  }

  /** The '+' intervals all score within [0, 1] and the '-' intervals within [-1, 0]. */
  lemma CircosScores(fwd: seq<Row>, rev: seq<Row>, skip: set<string>, assort: seq<Row> -> seq<Row>,
                     color: string -> string)
    requires CircosOf(fwd, rev, skip, assort, color).Ok?
    ensures Within(CircosOf(fwd, rev, skip, assort, color).value.0, 0.0, 1.0)
    ensures Within(CircosOf(fwd, rev, skip, assort, color).value.1, -1.0, 0.0)
  {
    var f := PerStrand(fwd, skip, assort).value;
    var r := PerStrand(rev, skip, assort).value;
    RenormalisedRowsSpec(assort(Kept(fwd, skip)));
    RenormalisedRowsSpec(assort(Kept(rev, skip)));
    var nr := Negated(r);
    StrandTracksFromRows(f, color);
    StrandTracksFromRows(nr, color);
    ScoresWithin(StrandTracks(f, color).value, f, 0.0, 1.0);
    ScoresWithin(StrandTracks(nr, color).value, nr, -1.0, 0.0);
  }

  // ---------------------------------------------------------------------
  // The procedure

  /** The intervals of one transcript, block by block. */
  method TranscriptTracks(g: Row, color: string -> string) returns (r: Result<Tracks>)
    ensures r == GeneTracks(g, color)
  {
    var sizes, starts := Split(g.sizes, ','), Split(g.starts, ',');
    var c := color(g.name);
    ghost var parsed := Blocks(g);
    var excoords: seq<Interval> := [];
    var exons: seq<Track> := [];
    for i := 0 to Min(|sizes|, |starts|)
      invariant FirstErr(parsed[..i]) == Ok(excoords)
      invariant exons == Tagged(excoords, g, c)
    {
      var block := ParseBlock(g.start, sizes[i], starts[i]);
      assert parsed[i] == block;
      if block.Err? {
        assert parsed[..i + 1][..i] == parsed[..i];
        FirstErrPrefix(parsed, i + 1);
        return Err(block.error);
      }
      FirstErrSnoc(parsed, i, excoords, block.value);
      TaggedSnoc(excoords + [block.value], g, c);
      assert (excoords + [block.value])[..|excoords|] == excoords;
      excoords := excoords + [block.value];
      exons := exons + [Tag(block.value, g, c)];
    }
    assert parsed[..|parsed|] == parsed;
    assert ExonCoords(g) == Ok(excoords);
    var introns := IntronTracks(excoords, g, c);
    var five := if g.strand == "+" then excoords[0] else excoords[|excoords| - 1];
    var three := if g.strand == "+" then excoords[|excoords| - 1] else excoords[0];
    r := Ok(Tracks(introns, exons, [Tag(five, g, Black)], [Tag(three, g, Black)]));
    assert r == Ok(TracksOf(g, excoords, c));
  }

  /** `zip(excoords[:-1], excoords[1:])`: one interval per gap between consecutive exons. */
  method IntronTracks(excoords: seq<Interval>, g: Row, c: string) returns (introns: seq<Track>)
    requires |excoords| >= 1
    ensures introns == Tagged(Introns(excoords), g, c)
  {
    introns := [];
    for i := 0 to |excoords| - 1
      invariant introns == Tagged(Introns(excoords)[..i], g, c)
    {
      assert Introns(excoords)[i] == Interval(excoords[i].end, excoords[i + 1].start);
      TaggedSnoc(Introns(excoords)[..i + 1], g, c);
      assert Introns(excoords)[..i + 1][..i] == Introns(excoords)[..i];
      introns := introns + [Tag(Interval(excoords[i].end, excoords[i + 1].start), g, c)];
    }
    assert Introns(excoords)[..|excoords| - 1] == Introns(excoords);
  }

  /** The tracks of one strand, transcript by transcript. */
  method CollectTracks(genes: seq<Row>, color: string -> string) returns (r: Result<Tracks>)
    ensures r == StrandTracks(genes, color)
  {
    var acc := NoTracks;
    for i := 0 to |genes|
      invariant StrandTracks(genes[..i], color) == Ok(acc)
    {
      assert genes[..i + 1][..i] == genes[..i];
      var u := TranscriptTracks(genes[i], color);
      if u.Err? {
        StrandTracksFailed(genes, i + 1, color);
        return Err(u.error);
      }
      acc := Append(acc, u.value);
    }
    assert genes[..|genes|] == genes;
    r := Ok(acc);
  }

  /** Once a prefix of the transcripts fails, the whole strand fails with the same error. */
  lemma {:induction false} StrandTracksFailed(genes: seq<Row>, i: nat, color: string -> string)
    requires i <= |genes| && StrandTracks(genes[..i], color).Err?
    ensures StrandTracks(genes, color) == StrandTracks(genes[..i], color)
    decreases |genes| - i
  {
    if i < |genes| {
      assert genes[..i + 1][..i] == genes[..i];
      StrandTracksFailed(genes, i + 1, color);
    } else {
      assert genes[..i] == genes;
    }
  }

  /** The heights of one strand rescaled, transcript by transcript. */
  method Renormalise(genes: seq<Row>) returns (r: Result<seq<Row>>)
    ensures r == RenormalisedRows(genes)
  {
    if |genes| == 0 {
      return Err(ValueError);
    }
    var hi, lo := MaxOf(Scores(genes)), MinOf(Scores(genes));
    if hi == lo {
      return Err(ZeroDivisionError);
    }
    ghost var v := Renormalised(Scores(genes)).value;
    var out: seq<Row> := [];
    for i := 0 to |genes|
      invariant out == Rescored(genes[..i], v[..i])
    {
      out := out + [genes[i].(score := (genes[i].score - lo) / (hi - lo))];
    }
    assert genes[..|genes|] == genes && v[..|genes|] == v;
    r := Ok(out);
  }

  /** The '-' heights turned below the axis, transcript by transcript. */
  method Negate(genes: seq<Row>) returns (neg: seq<Row>)
    ensures neg == Negated(genes)
  {
    neg := genes;
    for i := 0 to |neg|
      invariant |neg| == |genes|
      invariant neg == Negated(genes)[..i] + genes[i..]
    {
      neg := neg[i := neg[i].(score := -neg[i].score)];
    }
    assert neg == Negated(genes);
  }

  /**
   * `circos`: each strand's transcripts not in `skip` are laid out by
   * `assort` and their heights rescaled to [0, 1]; the '-' heights are
   * negated; then every transcript of each strand is cut into its tracks.
   */
  method Circos(fwd: seq<Row>, rev: seq<Row>, skip: set<string>, assort: seq<Row> -> seq<Row>,
                color: string -> string) returns (r: Result<(Tracks, Tracks)>)
    ensures r == CircosOf(fwd, rev, skip, assort, color)
  {
    var f := Renormalise(assort(Kept(fwd, skip)));
    if f.Err? {
      return Err(f.error);
    }
    var rv := Renormalise(assort(Kept(rev, skip)));
    if rv.Err? {
      return Err(rv.error);
    }
    var neg := Negate(rv.value);
    var tf := CollectTracks(f.value, color);
    if tf.Err? {
      return Err(tf.error);
    }
    var tr := CollectTracks(neg, color);
    if tr.Err? {
      return Err(tr.error);
    }
    r := Ok((tf.value, tr.value));
  }
}
