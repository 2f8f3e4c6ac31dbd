// The transcription-boundary labels of an assembly: for every contig and
// strand, the sequence ends plus the TSS, TES, donor and acceptor positions
// of the transcripts that may mark a boundary.
module RnaBoundaries {
  import opened Common
  import opened Intervals
  import opened Strs
  import opened Filters

  /** The labels of boundary positions. */
  datatype Tag = SeqStart | SeqEnd | Tss | Tes | Donor | Acceptor

  /** The label as the index stores it. */
  function TagName(t: Tag): string
  {
    match t
    case SeqStart => "seq-start"
    case SeqEnd => "seq-end"
    case Tss => "tss"
    case Tes => "tes"
    case Donor => "donor"
    case Acceptor => "acceptor"
  }

  type Key = (string, Strand)
  type Labels = set<(int, Tag)>
  type Index = map<Key, Labels>

  /** `boundaries[key]` on a defaultdict(set). */
  function Get(idx: Index, key: Key): Labels
  {
    if key in idx then idx[key] else {}
  }

  function AddTo(idx: Index, key: Key, entries: Labels): (r: Index)
    ensures Get(r, key) == Get(idx, key) + entries
    ensures forall k :: k != key ==> Get(r, k) == Get(idx, k)
  {
    idx[key := Get(idx, key) + entries]
  }

  /** The intron edges of `exons`: `prv.end` labelled `first` and `nxt.start` labelled `second` where exons do not abut. */
  function IntronEdges(exons: seq<Interval>, first: Tag, second: Tag): Labels
  {
    if |exons| < 2 then {}
    else
      var n := |exons|;
      IntronEdges(exons[..n - 1], first, second) +
        (if exons[n - 2].end != exons[n - 1].start then {(exons[n - 2].end, first), (exons[n - 1].start, second)} else {})
  }

  /** Pair `k` of `exons` does not abut and puts `e` at one of its edges. */
  predicate EdgeAt(exons: seq<Interval>, k: int, first: Tag, second: Tag, e: (int, Tag))
    requires 0 < k < |exons|
  {
    exons[k - 1].end != exons[k].start && (e == (exons[k - 1].end, first) || e == (exons[k].start, second))
  }

  /** A label is an intron edge exactly when some consecutive, non-abutting pair puts it there. */
  lemma {:induction false} IntronEdgesSpec(exons: seq<Interval>, first: Tag, second: Tag, e: (int, Tag))
    ensures e in IntronEdges(exons, first, second) <==> exists k :: 0 < k < |exons| && EdgeAt(exons, k, first, second, e)
    decreases |exons|
  {
    if |exons| >= 2 {
      var n := |exons|;
      var pre := exons[..n - 1];
      IntronEdgesSpec(pre, first, second, e);
      if e in IntronEdges(pre, first, second) {
        var k :| 0 < k < |pre| && EdgeAt(pre, k, first, second, e);
        assert exons[k - 1] == pre[k - 1] && exons[k] == pre[k];
        assert EdgeAt(exons, k, first, second, e);
      } else if e in IntronEdges(exons, first, second) {
        assert EdgeAt(exons, n - 1, first, second, e);
      }
      if exists k :: 0 < k < |exons| && EdgeAt(exons, k, first, second, e) {
        var k :| 0 < k < |exons| && EdgeAt(exons, k, first, second, e);
        if k < n - 1 {
          assert exons[k - 1] == pre[k - 1] && exons[k] == pre[k];
          assert EdgeAt(pre, k, first, second, e);
        } else {
          assert IntronEdges(exons, first, second) == IntronEdges(pre, first, second) + {(exons[n - 2].end, first), (exons[n - 1].start, second)};
        }
      }
    }
  }

  /**
   * The labels one transcript contributes: on '+' its start is the TSS, its
   * end the TES, `prv.end` a donor and `nxt.start` an acceptor; on '-' all of
   * them swap. Any other strand is a ValueError.
   */
  function TranscriptLabels(rna: Rna): (r: Result<Labels>)
    ensures r.Err? <==> rna.strand == Other
    ensures rna.strand == Forward ==> (rna.loc.start, Tss) in r.value && (rna.loc.end, Tes) in r.value
    ensures rna.strand == Reverse ==> (rna.loc.end, Tss) in r.value && (rna.loc.start, Tes) in r.value
  {
    match rna.strand
    case Forward => Ok({(rna.loc.start, Tss), (rna.loc.end, Tes)} + IntronEdges(rna.exons, Donor, Acceptor))
    case Reverse => Ok({(rna.loc.end, Tss), (rna.loc.start, Tes)} + IntronEdges(rna.exons, Acceptor, Donor))
    case Other => Err(ValueError)
  }

  /** RefSeq records count only for curated mRNA/ncRNA accessions. */
  predicate CuratedAccession(rna: Rna)
  {
    StartsWith(rna.ind, "rna-NR_") || StartsWith(rna.ind, "rna-NM_")
  }

  /** The transcripts selected from GENCODE and from RefSeq, in that order. */
  function Selected(gencode: seq<Rna>, refseq: seq<Rna>): (r: seq<Rna>)
    ensures forall x :: x in r ==> IsTranscriptionBoundary(x)
    ensures forall x :: x in gencode && IsTranscriptionBoundary(x) ==> x in r
    ensures forall x :: x in refseq && CuratedAccession(x) && IsTranscriptionBoundary(x) ==> x in r
    ensures forall x :: x in r ==> x in gencode || (x in refseq && CuratedAccession(x))
  {
    if refseq != [] then
      var n := |refseq| - 1;
      var r := Selected(gencode, refseq[..n]);
      assert forall x :: x in refseq[..n] ==> x in refseq;
      assert forall x :: x in refseq ==> x in refseq[..n] || x == refseq[n];
      if CuratedAccession(refseq[n]) && IsTranscriptionBoundary(refseq[n]) then r + [refseq[n]] else r
    else if gencode != [] then
      var n := |gencode| - 1;
      var r := Selected(gencode[..n], []);
      assert forall x :: x in gencode[..n] ==> x in gencode;
      assert forall x :: x in gencode ==> x in gencode[..n] || x == gencode[n];
      if IsTranscriptionBoundary(gencode[n]) then r + [gencode[n]] else r
    else []
  }

  /** The sequence ends of every contig on both strands. */
  function SeqEnds(sizes: seq<(string, int)>): Index
  {
    if sizes == [] then map[]
    else
      var n := |sizes| - 1;
      var (seqid, size) := sizes[n];
      var ends := {(0, SeqStart), (size, SeqEnd)};
      AddTo(AddTo(SeqEnds(sizes[..n]), (seqid, Forward), ends), (seqid, Reverse), ends)
  }

  /** Every transcript's labels added under its own contig and strand, failing at the first bad strand. */
  function AddAll(idx: Index, rnas: seq<Rna>): Result<Index>
  {
    if rnas == [] then Ok(idx)
    else
      var n := |rnas| - 1;
      match AddAll(idx, rnas[..n])
      case Err(e) => Err(e)
      case Ok(acc) =>
        match TranscriptLabels(rnas[n])
        case Err(e) => Err(e)
        case Ok(labels) => Ok(AddTo(acc, (rnas[n].seqid, rnas[n].strand), labels))
  }

  /** What the labelling records for one transcript on `key`. */
  predicate LabelledBy(rna: Rna, key: Key, e: (int, Tag))
  {
    (rna.seqid, rna.strand) == key && TranscriptLabels(rna).Ok? && e in TranscriptLabels(rna).value
  }

  /** Contig `i` of `sizes` puts sequence end `e` on `key`. */
  predicate EndAt(sizes: seq<(string, int)>, i: int, key: Key, e: (int, Tag))
    requires 0 <= i < |sizes|
  {
    key.1 != Other && sizes[i].0 == key.0 && (e == (0, SeqStart) || e == (sizes[i].1, SeqEnd))
  }

  lemma SeqEndsStep(sizes: seq<(string, int)>, key: Key, e: (int, Tag))
    requires sizes != []
    ensures e in Get(SeqEnds(sizes), key) <==> e in Get(SeqEnds(sizes[..|sizes| - 1]), key) || EndAt(sizes, |sizes| - 1, key, e)
  {
    var n := |sizes| - 1;
    var seqid := sizes[n].0;
    var ends := {(0, SeqStart), (sizes[n].1, SeqEnd)};
    var fwd := AddTo(SeqEnds(sizes[..n]), (seqid, Forward), ends);
    assert SeqEnds(sizes) == AddTo(fwd, (seqid, Reverse), ends);
    assert EndAt(sizes, n, key, e) <==> (key == (seqid, Forward) || key == (seqid, Reverse)) && e in ends;
  }

  lemma {:induction false} SeqEndsSpec(sizes: seq<(string, int)>, key: Key, e: (int, Tag))
    ensures e in Get(SeqEnds(sizes), key) <==> SomeEnd(sizes, key, e)
    decreases |sizes|
  {
    if sizes != [] {
      SeqEndsSpec(sizes[..|sizes| - 1], key, e);
      SeqEndsStep(sizes, key, e);
      SomeEndSnoc(sizes, key, e);
    }
  }

  /** Some contig of `sizes` puts sequence end `e` on `key`. */
  ghost predicate SomeEnd(sizes: seq<(string, int)>, key: Key, e: (int, Tag))
  {
    exists i :: 0 <= i < |sizes| && EndAt(sizes, i, key, e)
  }

  lemma SomeEndSnoc(sizes: seq<(string, int)>, key: Key, e: (int, Tag))
    requires sizes != []
    ensures SomeEnd(sizes, key, e) <==> SomeEnd(sizes[..|sizes| - 1], key, e) || EndAt(sizes, |sizes| - 1, key, e)
  {
    var n := |sizes| - 1;
    var pre := sizes[..n];
    if SomeEnd(pre, key, e) {
      var i :| 0 <= i < n && EndAt(pre, i, key, e);
      assert sizes[i] == pre[i];
      assert EndAt(sizes, i, key, e);
    }
    if SomeEnd(sizes, key, e) {
      var i :| 0 <= i < |sizes| && EndAt(sizes, i, key, e);
      if i < n {
        assert sizes[i] == pre[i];
        assert EndAt(pre, i, key, e);
      }
    }
  }

  lemma AddAllStep(idx: Index, rnas: seq<Rna>, key: Key, e: (int, Tag))
    requires rnas != [] && AddAll(idx, rnas).Ok?
    ensures AddAll(idx, rnas[..|rnas| - 1]).Ok? && rnas[|rnas| - 1].strand != Other
    ensures e in Get(AddAll(idx, rnas).value, key) <==>
      e in Get(AddAll(idx, rnas[..|rnas| - 1]).value, key) || LabelledBy(rnas[|rnas| - 1], key, e)
  {
    var n := |rnas| - 1;
    var acc := AddAll(idx, rnas[..n]).value;
    var labels := TranscriptLabels(rnas[n]).value;
    assert AddAll(idx, rnas).value == AddTo(acc, (rnas[n].seqid, rnas[n].strand), labels);
  }

  lemma AddAllSpec(idx: Index, rnas: seq<Rna>, key: Key, e: (int, Tag))
    requires AddAll(idx, rnas).Ok?
    ensures forall i :: 0 <= i < |rnas| ==> rnas[i].strand != Other
    ensures e in Get(AddAll(idx, rnas).value, key) <==>
      e in Get(idx, key) || exists i :: 0 <= i < |rnas| && LabelledBy(rnas[i], key, e)
  {
    AddAllErr(idx, rnas);
    AddAllMember(idx, rnas, key, e);
  }

  /** A label is in the index after the additions exactly when it was before or some RNA adds it. */
  lemma {:induction false} AddAllMember(idx: Index, rnas: seq<Rna>, key: Key, e: (int, Tag))
    requires AddAll(idx, rnas).Ok?
    ensures e in Get(AddAll(idx, rnas).value, key) <==> e in Get(idx, key) || SomeLabels(rnas, key, e)
    decreases |rnas|
  {
    if rnas != [] {
      AddAllStep(idx, rnas, key, e);
      AddAllMember(idx, rnas[..|rnas| - 1], key, e);
      SomeLabelsSnoc(rnas, key, e);
    }
  }

  /** Some transcript of `rnas` labels `e` on `key`. */
  ghost predicate SomeLabels(rnas: seq<Rna>, key: Key, e: (int, Tag))
  {
    exists i :: 0 <= i < |rnas| && LabelledBy(rnas[i], key, e)
  }

  lemma SomeLabelsSnoc(rnas: seq<Rna>, key: Key, e: (int, Tag))
    requires rnas != []
    ensures SomeLabels(rnas, key, e) <==> SomeLabels(rnas[..|rnas| - 1], key, e) || LabelledBy(rnas[|rnas| - 1], key, e)
  {
    var n := |rnas| - 1;
    var pre := rnas[..n];
    if SomeLabels(pre, key, e) {
      var i :| 0 <= i < n && LabelledBy(pre[i], key, e);
      assert pre[i] == rnas[i];
    }
    if SomeLabels(rnas, key, e) {
      var i :| 0 <= i < |rnas| && LabelledBy(rnas[i], key, e);
      if i < n {
        assert pre[i] == rnas[i];
      }
    }
  }

  /** A bad strand anywhere in the list makes the whole labelling fail. */
  lemma {:induction false} AddAllErr(idx: Index, rnas: seq<Rna>)
    ensures AddAll(idx, rnas).Err? <==> exists i :: 0 <= i < |rnas| && rnas[i].strand == Other
    ensures AddAll(idx, rnas).Err? ==> AddAll(idx, rnas).error == ValueError
    decreases |rnas|
  {
    if rnas != [] {
      var n := |rnas| - 1;
      AddAllErr(idx, rnas[..n]);
      assert forall i :: 0 <= i < n ==> rnas[..n][i] == rnas[i];
    }
  }

  /**
   * The contents of the index `job` builds: a contig's strands hold its two
   * sequence ends, and a key holds exactly those plus the labels of the
   * selected transcripts on that contig and strand.
   */
  lemma IndexSpec(sizes: seq<(string, int)>, sel: seq<Rna>, key: Key, e: (int, Tag))
    requires AddAll(SeqEnds(sizes), sel).Ok?
    ensures e in Get(AddAll(SeqEnds(sizes), sel).value, key) <==>
      (exists i :: 0 <= i < |sizes| && EndAt(sizes, i, key, e)) || (exists i :: 0 <= i < |sel| && LabelledBy(sel[i], key, e))
  {
    SeqEndsSpec(sizes, key, e);
    AddAllSpec(SeqEnds(sizes), sel, key, e);
  }

  /** Labels `rna` on `key` one entry at a time. */
  method AddTranscript(boundaries: Index, rna: Rna) returns (r: Result<Index>)
    ensures r == (match TranscriptLabels(rna)
                  case Err(e) => Err(e)
                  case Ok(labels) => Ok(AddTo(boundaries, (rna.seqid, rna.strand), labels)))
  {
    if rna.strand == Other {
      return Err(ValueError);
    }
    var first := if rna.strand == Forward then Donor else Acceptor;
    var second := if rna.strand == Forward then Acceptor else Donor;
    var key := (rna.seqid, rna.strand);
    var tss := if rna.strand == Forward then rna.loc.start else rna.loc.end;
    var tes := if rna.strand == Forward then rna.loc.end else rna.loc.start;
    var labels := Get(boundaries, key) + {(tss, Tss), (tes, Tes)};
    var k := 1;
    while k < |rna.exons|
      invariant 1 <= k
      invariant labels == Get(boundaries, key) + {(tss, Tss), (tes, Tes)} + IntronEdges(rna.exons[..Min(k, |rna.exons|)], first, second)
    {
      assert rna.exons[..k + 1][..k] == rna.exons[..k];
      var prv, nxt := rna.exons[k - 1], rna.exons[k];
      if prv.end != nxt.start {
        labels := labels + {(prv.end, first), (nxt.start, second)};
      }
      k := k + 1;
    }
    assert rna.exons[..Min(k, |rna.exons|)] == rna.exons;
    var own := {(tss, Tss), (tes, Tes)} + IntronEdges(rna.exons, first, second);
    assert TranscriptLabels(rna) == Ok(own);
    assert labels == Get(boundaries, key) + own;
    assert AddTo(boundaries, key, own) == boundaries[key := labels];
    return Ok(boundaries[key := labels]);
  }

  /** `job`: the sequence ends of every contig, then the labels of each selected transcript. */
  method Job(sizes: seq<(string, int)>, gencode: seq<Rna>, refseq: seq<Rna>) returns (r: Result<Index>)
    ensures r == AddAll(SeqEnds(sizes), Selected(gencode, refseq))
  {
    var boundaries := EndsLoop(sizes);
    r := AddLoop(boundaries, Selected(gencode, refseq));
  }

  /** The loop over the contig sizes: both strands of each contig get its two sequence ends. */
  method EndsLoop(sizes: seq<(string, int)>) returns (boundaries: Index)
    ensures boundaries == SeqEnds(sizes)
  {
    boundaries := map[];
    var i := 0;
    while i < |sizes|
      invariant 0 <= i <= |sizes|
      invariant boundaries == SeqEnds(sizes[..i])
    {
      assert sizes[..i + 1][..i] == sizes[..i];
      var (seqid, size) := sizes[i];
      boundaries := AddTo(boundaries, (seqid, Forward), {(0, SeqStart), (size, SeqEnd)});
      boundaries := AddTo(boundaries, (seqid, Reverse), {(0, SeqStart), (size, SeqEnd)});
      i := i + 1;
    }
    assert sizes[..i] == sizes;
  }

  /** The loop over the selected transcripts, labelling each in turn; the first failure stops it. */
  method AddLoop(start: Index, selected: seq<Rna>) returns (r: Result<Index>)
    ensures r == AddAll(start, selected)
  {
    var boundaries := start;
    var j := 0;
    while j < |selected|
      invariant 0 <= j <= |selected|
      invariant AddAll(start, selected[..j]) == Ok(boundaries)
    {
      assert selected[..j + 1][..j] == selected[..j];
      var next := AddTranscript(boundaries, selected[j]);
      if next.Err? {
        AddAllPrefixErr(start, selected, j + 1);
        return next;
      }
      boundaries := next.value;
      j := j + 1;
    }
    assert selected[..j] == selected;
    return Ok(boundaries);
  }

  lemma {:induction false} AddAllPrefixErr(idx: Index, rnas: seq<Rna>, k: int)
    requires 0 <= k <= |rnas| && AddAll(idx, rnas[..k]).Err?
    ensures AddAll(idx, rnas) == AddAll(idx, rnas[..k])
    decreases |rnas|
  {
    if k < |rnas| {
      var n := |rnas| - 1;
      assert rnas[..n][..k] == rnas[..k];
      AddAllPrefixErr(idx, rnas[..n], k);
    } else {
      assert rnas[..k] == rnas;
    }
  }
}
