// The final filter of the prefiltered peaks: a peak without a dsRNA overlap
// and with weak replication is excluded, the touching runs are recomputed on
// the survivors, and a survivor is kept when its run is long enough or it
// overlaps a dsRNA.
module PeakFiltering {
  import opened Common
  import opened Intervals
  import PeakFeatures
  import Prefiltering
  import Sorting

  /** A prefiltered row with its recomputed `dsRNA[Individual]` and replication. */
  datatype Candidate = Candidate(row: PeakFeatures.Row, dsRNA: int, replication: nat, excluded: bool)

  datatype Thresholds = Thresholds(strongMinReplication: int, minLength: int)

  /** Line 24: no dsRNA overlap and fewer comparisons than the strong minimum. */
  predicate Weak(c: Candidate, th: Thresholds)
  {
    c.dsRNA == 0 && c.replication < th.strongMinReplication
  }

  /** Lines 24-25: the `auto-excluded` column after the weak rows are flagged. */
  function Flags(cs: seq<Candidate>, th: Thresholds): (f: seq<bool>)
    ensures |f| == |cs|
  {
    seq(|cs|, i requires 0 <= i < |cs| => cs[i].excluded || Weak(cs[i], th))
  }

  /** Line 26: the rows left unflagged. */
  function Survivors(cs: seq<Candidate>, th: Thresholds): seq<Candidate>
  {
    Prefiltering.Passed(cs, Flags(cs, th))
  }

  function Rows(cs: seq<Candidate>): (r: seq<PeakFeatures.Row>)
    ensures |r| == |cs| && forall i :: 0 <= i < |cs| ==> r[i] == cs[i].row
  {
    seq(|cs|, i requires 0 <= i < |cs| => cs[i].row)
  }

  /** Line 29: which survivors fail both the length and the dsRNA test. */
  function Short(s: seq<Candidate>, merged: seq<PeakFeatures.Neighbour>, th: Thresholds): (f: seq<bool>)
    requires |merged| == |s|
    ensures |f| == |s|
  {
    seq(|s|, i requires 0 <= i < |s| => !(merged[i].merged >= th.minLength || s[i].dsRNA > 0))
  }

  /**
   * Lines 24-29: the kept rows, or the assertion error of the run lengths
   * when a survivor is listed twice.
   */
  function Filtered(cs: seq<Candidate>, th: Thresholds): Result<seq<Candidate>>
  {
    var s := Survivors(cs, th);
    var col := PeakFeatures.NeighbourColumn(Rows(s));
    if col.Err? then Err(col.error)
    else Ok(Prefiltering.Passed(s, Short(s, col.value, th)))
  }

  /** A row survives exactly when it was neither excluded before nor weak. */
  lemma SurvivorsSpec(cs: seq<Candidate>, th: Thresholds, c: Candidate)
    ensures c in Survivors(cs, th) <==> c in cs && !c.excluded && !Weak(c, th)
  {
    Prefiltering.PassedMembers(cs, Flags(cs, th), c);
  }

  /** The run lengths fail exactly when a survivor's row is listed twice. */
  lemma FilteredErr(cs: seq<Candidate>, th: Thresholds)
    ensures Filtered(cs, th).Err? <==> exists i, j :: 0 <= i < j < |Survivors(cs, th)| && Survivors(cs, th)[i].row == Survivors(cs, th)[j].row
  {
    var s := Survivors(cs, th);
    PeakFeatures.NeighbourColumnErr(Rows(s));
    if exists i, j :: 0 <= i < j < |s| && s[i].row == s[j].row {
      var i, j :| 0 <= i < j < |s| && s[i].row == s[j].row;
      assert Rows(s)[i] == Rows(s)[j];
    }
  }

  /**
   * A survivor is kept exactly when its recomputed run is at least
   * `min_length` long or it overlaps a dsRNA; excluded and weak rows never are.
   */
  lemma FilteredAt(cs: seq<Candidate>, th: Thresholds, k: int)
    requires Filtered(cs, th).Ok? && 0 <= k < |Survivors(cs, th)|
    ensures var s := Survivors(cs, th);
      s[k] in Filtered(cs, th).value <==>
        PeakFeatures.NeighbourColumn(Rows(s)).value[k].merged >= th.minLength || s[k].dsRNA > 0
  {
    var s := Survivors(cs, th);
    var col := PeakFeatures.NeighbourColumn(Rows(s));
    var short := Short(s, col.value, th);
    FilteredErr(cs, th);
    Prefiltering.PassedMembers(s, short, s[k]);
    forall i | 0 <= i < |s| && s[i] == s[k] ensures i == k {
      assert Rows(s)[i] == Rows(s)[k];
    }
  }

  /** Every kept row was a survivor: not excluded before and not weak. */
  lemma FilteredSurvive(cs: seq<Candidate>, th: Thresholds, c: Candidate)
    requires Filtered(cs, th).Ok? && c in Filtered(cs, th).value
    ensures c in cs && !c.excluded && !Weak(c, th)
  {
    var s := Survivors(cs, th);
    var col := PeakFeatures.NeighbourColumn(Rows(s));
    Prefiltering.PassedMembers(s, Short(s, col.value, th), c);
    SurvivorsSpec(cs, th, c);
  }

  /** Lines 11-37: the filtered BED lines, sorted, and the kept rows. */
  method FilterJob(cs: seq<Candidate>, th: Thresholds) returns (r: Result<(seq<Prefiltering.BedLine>, seq<Candidate>)>)
    ensures r.Err? <==> Filtered(cs, th).Err?
    ensures r.Ok? ==> r.value.1 == Filtered(cs, th).value && r.value.0 == SortedLines(r.value.1)
  {
    var flags := new bool[|cs|](i requires 0 <= i < |cs| => cs[i].excluded);
    Prefiltering.Assign(flags, cs, (c: Candidate) => Weak(c, th), true);
    assert flags[..] == Flags(cs, th);
    var survivors := Prefiltering.Passed(cs, flags[..]);
    var col := PeakFeatures.NeighbourColumn(Rows(survivors));
    if col.Err? {
      return Err(col.error);
    }
    var kept := Prefiltering.Passed(survivors, Short(survivors, col.value, th));
    r := Ok((SortedLines(kept), kept));
  }

  /** Lines 32-36: a kept row as a BED line with the default name. */
  function Line(c: Candidate): Prefiltering.BedLine
  {
    Prefiltering.BedLine(c.row.contig, PeakFeatures.Span(c.row), Symbol(c.row.orientation), ".")
  }

  /** Line 37: the lines sorted by contig and start. */
  function SortedLines(cs: seq<Candidate>): (r: seq<Prefiltering.BedLine>)
    ensures |r| == |cs| && Sorting.SortedBy(r, Prefiltering.LineLe)
    ensures multiset(r) == multiset(seq(|cs|, i requires 0 <= i < |cs| => Line(cs[i])))
  {
    Prefiltering.LineLePreorder();
    Sorting.SortBy(seq(|cs|, i requires 0 <= i < |cs| => Line(cs[i])), Prefiltering.LineLe)
  }
}
