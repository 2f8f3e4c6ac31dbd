// The first filter of the peak universe: each row is excluded by an ordered
// series of column assignments (viral contigs, rRNA, homopolymers, low
// replication, short runs), rescued by editing sites, and excluded again when
// curated as such. The universe and the rows that pass are written as BED.
module Prefiltering {
  import opened Common
  import opened Sorting
  import opened Intervals
  import opened Decimal
  import PeakFeatures

  /** A row of the annotated universe with the columns the filter reads. */
  datatype Peak = Peak(
    row: PeakFeatures.Row,
    region: Option<PeakFeatures.Region>,
    repeatMasker: string,
    replication: nat,
    mergedLength: int,
    editingSites: nat,
    curatedIncluded: bool,
    curatedExcluded: bool)

  /** The thresholds of the peak configuration. */
  datatype Thresholds = Thresholds(relaxedMinReplication: int, minLength: int, relaxedMinEditingSites: int)

  /** Line 53: no region (viral contig) or an off-host contig. */
  predicate Viral(p: Peak)
  {
    p.region.None? || p.region == Some(PeakFeatures.NotHost)
  }

  /** Line 56: the repeat class is a ribosomal RNA. */
  predicate RRna(p: Peak)
  {
    p.repeatMasker == "SSU-rRNA_Hsa" || p.repeatMasker == "LSU-rRNA_Hsa"
  }

  /** Line 61: the repeat class `(x)n` of one nucleotide. */
  function Homopolymer(x: char): string
  {
    "(" + [x] + ")n"
  }

  const Nucleotides := "ATGC"

  predicate AnyHomopolymer(p: Peak)
  {
    exists k :: 0 <= k < |Nucleotides| && p.repeatMasker == Homopolymer(Nucleotides[k])
  }

  predicate LowReplication(p: Peak, th: Thresholds)
  {
    p.replication < th.relaxedMinReplication
  }

  predicate Short(p: Peak, th: Thresholds)
  {
    p.mergedLength <= th.minLength
  }

  predicate Edited(p: Peak, th: Thresholds)
  {
    p.editingSites >= th.relaxedMinEditingSites
  }

  /** Any of the reasons of lines 52-67 for excluding a row. */
  predicate Suspicious(p: Peak, th: Thresholds)
  {
    Viral(p) || RRna(p) || AnyHomopolymer(p) || LowReplication(p, th) || Short(p, th)
  }

  /**
   * The final `auto-excluded` flag: curated exclusion always wins, editing
   * sites rescue everything else, and otherwise any reason excludes.
   */
  predicate AutoExcluded(p: Peak, th: Thresholds)
  {
    p.curatedExcluded || (!Edited(p, th) && Suspicious(p, th))
  }

  /** Lines 46-47: a row both curated-included and curated-excluded. */
  predicate Impossible(peaks: seq<Peak>)
  {
    exists i :: 0 <= i < |peaks| && peaks[i].curatedIncluded && peaks[i].curatedExcluded
  }

  /** `universe.loc[mask, 'auto-excluded'] = value`. */
  method Assign<T>(excluded: array<bool>, peaks: seq<T>, mask: T -> bool, value: bool)
    requires excluded.Length == |peaks|
    modifies excluded
    ensures forall i :: 0 <= i < |peaks| ==> excluded[i] == if mask(peaks[i]) then value else old(excluded[i])
  {
    for i := 0 to |peaks|
      invariant forall j :: 0 <= j < i ==> excluded[j] == if mask(peaks[j]) then value else old(excluded[j])
      invariant forall j :: i <= j < |peaks| ==> excluded[j] == old(excluded[j])
    {
      if mask(peaks[i]) {
        excluded[i] := value;
      }
    }
  }

  /** The first reasons, lines 53-61, as set so far. */
  predicate Early(p: Peak, done: nat)
    requires done <= |Nucleotides|
  {
    Viral(p) || RRna(p) || exists k :: 0 <= k < done && p.repeatMasker == Homopolymer(Nucleotides[k])
  }

  /** Lines 59-61: one assignment per homopolymer. */
  method Homopolymers(excluded: array<bool>, peaks: seq<Peak>)
    requires excluded.Length == |peaks|
    requires forall i :: 0 <= i < |peaks| ==> excluded[i] == Early(peaks[i], 0)
    modifies excluded
    ensures forall i :: 0 <= i < |peaks| ==> excluded[i] == (Viral(peaks[i]) || RRna(peaks[i]) || AnyHomopolymer(peaks[i]))
  {
    for k := 0 to |Nucleotides|
      invariant forall i :: 0 <= i < |peaks| ==> excluded[i] == Early(peaks[i], k)
    {
      var name := Homopolymer(Nucleotides[k]);
      Assign(excluded, peaks, (p: Peak) => p.repeatMasker == name, true);
    }
  }

  /**
   * Lines 45-74: the `auto-excluded` column, or the assertion error of a row
   * curated both ways. The column holds `AutoExcluded` of every row.
   */
  method Prefilter(peaks: seq<Peak>, th: Thresholds) returns (r: Result<seq<bool>>)
    ensures r.Err? <==> Impossible(peaks)
    ensures r.Err? ==> r.error == AssertionError
    ensures r.Ok? ==> |r.value| == |peaks| && forall i :: 0 <= i < |peaks| ==> r.value[i] == AutoExcluded(peaks[i], th)
  {
    if exists i :: 0 <= i < |peaks| && peaks[i].curatedIncluded && peaks[i].curatedExcluded {
      return Err(AssertionError);
    }
    var excluded := new bool[|peaks|](_ => false);
    Assign(excluded, peaks, Viral, true);
    Assign(excluded, peaks, RRna, true);
    Homopolymers(excluded, peaks);
    Assign(excluded, peaks, p => LowReplication(p, th), true);
    Assign(excluded, peaks, p => Short(p, th), true);
    assert forall i :: 0 <= i < |peaks| ==> excluded[i] == Suspicious(peaks[i], th);
    Assign(excluded, peaks, p => Edited(p, th), false);
    Assign(excluded, peaks, (p: Peak) => p.curatedExcluded, true);
    r := Ok(excluded[..]);
  }

  // ---------------------------------------------------------------------
  // Output (lines 76-84)

  /** A pybedtools `Interval`: contig, span, strand and name. */
  datatype BedLine = BedLine(contig: string, span: Interval, strand: char, name: string)

  /** Lines 79-83: a row as a BED line named `N=<replication>`. */
  function Line(p: Peak): BedLine
  {
    BedLine(p.row.contig, PeakFeatures.Span(p.row), Symbol(p.row.orientation), "N=" + NatToString(p.replication))
  }

  /** `BedTool.sort()`: by contig, then by start. */
  predicate LineLe(a: BedLine, b: BedLine)
  {
    StrLe(a.contig, b.contig) && (a.contig == b.contig ==> a.span.start <= b.span.start)
  }

  lemma LineLePreorder()
    ensures TotalPreorder(LineLe)
  {
    forall a: BedLine, b: BedLine ensures LineLe(a, b) || LineLe(b, a) {
      StrLeTotal(a.contig, b.contig);
      if StrLe(a.contig, b.contig) && StrLe(b.contig, a.contig) {
        StrLeAntisymmetric(a.contig, b.contig);
      }
    }
    forall a: BedLine, b: BedLine, c: BedLine | LineLe(a, b) && LineLe(b, c) ensures LineLe(a, c) {
      StrLeTransitive(a.contig, b.contig, c.contig);
      if a.contig == c.contig {
        StrLeAntisymmetric(a.contig, b.contig);
      }
    }
  }

  /** The BED lines of some rows, sorted. */
  function SortedLines(peaks: seq<Peak>): (r: seq<BedLine>)
    ensures |r| == |peaks| && SortedBy(r, LineLe)
    ensures multiset(r) == multiset(seq(|peaks|, i requires 0 <= i < |peaks| => Line(peaks[i])))
  {
    LineLePreorder();
    SortBy(seq(|peaks|, i requires 0 <= i < |peaks| => Line(peaks[i])), LineLe)
  }

  /** Line 77: the rows whose flag is clear, in table order. */
  function Passed<T>(peaks: seq<T>, excluded: seq<bool>): seq<T>
    requires |excluded| == |peaks|
  {
    if peaks == [] then []
    else
      var n := |peaks| - 1;
      Passed(peaks[..n], excluded[..n]) + (if excluded[n] then [] else [peaks[n]])
  }

  /** A row passes exactly when some copy of it has its flag clear. */
  lemma PassedMembers<T>(peaks: seq<T>, excluded: seq<bool>, p: T)
    requires |excluded| == |peaks|
    ensures p in Passed(peaks, excluded) <==> exists i :: 0 <= i < |peaks| && peaks[i] == p && !excluded[i]
  {
    if p in Passed(peaks, excluded) {
      PassedSound(peaks, excluded, p);
    }
    if exists i :: 0 <= i < |peaks| && peaks[i] == p && !excluded[i] {
      var i :| 0 <= i < |peaks| && peaks[i] == p && !excluded[i];
      PassedComplete(peaks, excluded, i);
    }
  }

  lemma {:induction false} PassedSound<T>(peaks: seq<T>, excluded: seq<bool>, p: T)
    requires |excluded| == |peaks| && p in Passed(peaks, excluded)
    ensures exists i :: 0 <= i < |peaks| && peaks[i] == p && !excluded[i]
  {
    var n := |peaks| - 1;
    if p in Passed(peaks[..n], excluded[..n]) {
      PassedSound(peaks[..n], excluded[..n], p);
      var i :| 0 <= i < n && peaks[..n][i] == p && !excluded[..n][i];
      assert peaks[i] == p && !excluded[i];
    } else {
      assert peaks[n] == p && !excluded[n];
    }
  }

  lemma {:induction false} PassedComplete<T>(peaks: seq<T>, excluded: seq<bool>, i: int)
    requires |excluded| == |peaks| && 0 <= i < |peaks| && !excluded[i]
    ensures peaks[i] in Passed(peaks, excluded)
  {
    var n := |peaks| - 1;
    if i < n {
      assert peaks[..n][i] == peaks[i] && !excluded[..n][i];
      PassedComplete(peaks[..n], excluded[..n], i);
    }
  }

  /** The passing rows are those left after the flagged ones, counted with multiplicity. */
  lemma {:induction false} PassedCount<T>(peaks: seq<T>, excluded: seq<bool>)
    requires |excluded| == |peaks|
    ensures |Passed(peaks, excluded)| == |peaks| - CountTrue(excluded, |peaks|)
  {
    if peaks != [] {
      var n := |peaks| - 1;
      PassedCount(peaks[..n], excluded[..n]);
      CountTruePrefix(excluded, n);
    }
  }

  lemma CountTruePrefix(v: seq<bool>, n: nat)
    requires n < |v|
    ensures CountTrue(v, n + 1) == CountTrue(v[..n], n) + (if v[n] then 1 else 0)
  {
    CountTrueSame(v, v[..n], n);
  }

  lemma {:induction false} CountTrueSame(v: seq<bool>, w: seq<bool>, n: nat)
    requires n <= |v| && n <= |w| && v[..n] == w[..n]
    ensures CountTrue(v, n) == CountTrue(w, n)
  {
    if n > 0 {
      assert v[..n - 1] == w[..n - 1];
      assert v[n - 1] == v[..n][n - 1];
      CountTrueSame(v, w, n - 1);
    }
  }

  /** Lines 45-87: the universe BED, the prefiltered BED and the passing rows. */
  method PrefilterJob(peaks: seq<Peak>, th: Thresholds) returns (r: Result<(seq<BedLine>, seq<BedLine>, seq<Peak>)>)
    ensures r.Err? <==> Impossible(peaks)
    ensures r.Ok? ==> r.value.0 == SortedLines(peaks)
    ensures r.Ok? ==> r.value.2 == Passed(peaks, seq(|peaks|, i requires 0 <= i < |peaks| => AutoExcluded(peaks[i], th)))
    ensures r.Ok? ==> r.value.1 == SortedLines(r.value.2)
  {
    var flags := Prefilter(peaks, th);
    if flags.Err? {
      return Err(flags.error);
    }
    assert flags.value == seq(|peaks|, i requires 0 <= i < |peaks| => AutoExcluded(peaks[i], th));
    var passed := Passed(peaks, flags.value);
    r := Ok((SortedLines(peaks), SortedLines(passed), passed));
  }
}
