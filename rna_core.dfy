// The RNA core of a gene: its trimmed exons, its intron cores and the
// read-through, read-in and divergent regions around it, with the
// truncation that caps those three regions at given lengths.
module RnaCore {
  import opened Common
  import opened Sorting
  import opened Intervals

  /** Donor and acceptor exons around an intron split into pieces. */
  datatype IntronCore = IntronCore(donor: Interval, acceptor: Interval, intron: seq<Interval>)

  /** Donor, pieces and acceptor sorted by start. */
  function Segments(c: IntronCore): (r: seq<Interval>)
    ensures |r| == |c.intron| + 2 && SortedByStart(r)
    ensures multiset(r) == multiset([c.donor] + c.intron + [c.acceptor])
  {
    SortByStart([c.donor] + c.intron + [c.acceptor])
  }

  /** What the constructor asserts of each consecutive pair. */
  predicate ChainOk(s: seq<Interval>)
  {
    forall k {:trigger s[k]} :: 0 <= k < |s| - 1 ==> s[k].start < s[k].end <= s[k + 1].start < s[k + 1].end
  }

  /** The checked construction of an `IntronCore`. */
  function MakeIntronCore(donor: Interval, acceptor: Interval, intron: seq<Interval>): (r: Result<IntronCore>)
    ensures r.Ok? ==> r.value == IntronCore(donor, acceptor, intron)
    ensures r.Err? ==> r.error == AssertionError
  {
    var c := IntronCore(donor, acceptor, intron);
    if ChainOk(Segments(c)) then Ok(c) else Err(AssertionError)
  }

  /** Consecutive checks are enough: all segments are non-empty and pairwise disjoint. */
  lemma {:induction false} ChainDisjoint(s: seq<Interval>)
    requires ChainOk(s) && |s| >= 2
    ensures forall k :: 0 <= k < |s| ==> s[k].NonEmpty()
    ensures forall a, b :: 0 <= a < b < |s| ==> s[a].end <= s[b].start
    decreases |s|
  {
    if |s| > 2 {
      var t := s[..|s| - 1];
      assert ChainOk(t) by {
        forall k {:trigger t[k]} | 0 <= k < |t| - 1 ensures t[k].start < t[k].end <= t[k + 1].start < t[k + 1].end {
          assert t[k] == s[k] && t[k + 1] == s[k + 1];
        }
      }
      ChainDisjoint(t);
      forall a, b | 0 <= a < b < |s| ensures s[a].end <= s[b].start {
        if b < |s| - 1 {
          assert t[a] == s[a] && t[b] == s[b];
        } else if a < b - 1 {
          assert t[a] == s[a] && t[b - 1] == s[b - 1];
          assert s[b - 1].start < s[b - 1].end <= s[b].start;
        } else {
          assert s[a].end <= s[a + 1].start;
        }
      }
    }
    forall k | 0 <= k < |s| ensures s[k].NonEmpty() {
      if k < |s| - 1 {
        assert s[k].start < s[k].end;
      } else {
        assert s[k - 1].start < s[k - 1].end <= s[k].start < s[k].end;
      }
    }
    forall a, b | 0 <= a < b < |s| && |s| == 2 ensures s[a].end <= s[b].start {
      assert s[0].end <= s[1].start;
    }
  }

  /** A constructed intron core consists of non-empty, pairwise disjoint segments. */
  lemma IntronCoreDisjoint(donor: Interval, acceptor: Interval, intron: seq<Interval>)
    requires MakeIntronCore(donor, acceptor, intron).Ok?
    ensures donor.NonEmpty() && acceptor.NonEmpty()
    ensures forall k :: 0 <= k < |intron| ==> intron[k].NonEmpty()
    ensures forall a, b :: 0 <= a < b < |intron| + 2 ==>
      Segments(IntronCore(donor, acceptor, intron))[a].end <= Segments(IntronCore(donor, acceptor, intron))[b].start
  {
    var s := Segments(IntronCore(donor, acceptor, intron));
    ChainDisjoint(s);
    PiecesNonEmpty(donor, acceptor, intron, s);
  }

  /** When every segment is non-empty, so is every piece they were sorted from. */
  lemma PiecesNonEmpty(donor: Interval, acceptor: Interval, intron: seq<Interval>, s: seq<Interval>)
    requires multiset(s) == multiset([donor] + intron + [acceptor])
    requires forall k :: 0 <= k < |s| ==> s[k].NonEmpty()
    ensures donor.NonEmpty() && acceptor.NonEmpty()
    ensures forall k :: 0 <= k < |intron| ==> intron[k].NonEmpty()
  {
    var all := [donor] + intron + [acceptor];
    forall x | x in all ensures x.NonEmpty() {
      assert x in multiset(all);
      assert x in multiset(s);
      var k :| 0 <= k < |s| && s[k] == x;
    }
    assert all[0] == donor && all[|all| - 1] == acceptor;
    forall k | 0 <= k < |intron| ensures intron[k].NonEmpty() {
      assert all[k + 1] == intron[k];
    }
  }

  datatype Core = Core(
    gid: string, seqid: string, strand: Strand,
    exons: seq<Interval>, introns: Option<seq<IntronCore>>,
    readThrough: Interval, readIn: Interval, divergent: Interval)

  /** The first `n` positions of `iv`. */
  function KeepStart(iv: Interval, n: int): Result<Interval>
  {
    MakeInterval(iv.start, Min(iv.end, iv.start + n))
  }

  /** The last `n` positions of `iv`. */
  function KeepEnd(iv: Interval, n: int): Result<Interval>
  {
    MakeInterval(Max(iv.start, iv.end - n), iv.end)
  }

  /** The same core with new regions, or the first region that could not be built. */
  function Rebuild(c: Core, rt: Result<Interval>, ri: Result<Interval>, dv: Result<Interval>): Result<Core>
  {
    if rt.Ok? && ri.Ok? && dv.Ok? then Ok(c.(readThrough := rt.value, readIn := ri.value, divergent := dv.value))
    else Err(InvalidInterval)
  }

  /**
   * `truncate`: on '+' the read-through keeps its start and read-in and
   * divergent keep their ends; on '-' the roles mirror; each is cut to its
   * maximum length. Other strands raise ValueError.
   */
  function Truncate(c: Core, maxReadThrough: int, maxReadIn: int, maxDivergent: int): (r: Result<Core>)
    ensures c.strand == Other ==> r == Err(ValueError)
    ensures r.Ok? ==> r.value == c.(readThrough := r.value.readThrough, readIn := r.value.readIn, divergent := r.value.divergent)
  {
    match c.strand
    case Other => Err(ValueError)
    case Forward =>
      Rebuild(c, KeepStart(c.readThrough, maxReadThrough), KeepEnd(c.readIn, maxReadIn), KeepEnd(c.divergent, maxDivergent))
    case Reverse =>
      Rebuild(c, KeepEnd(c.readThrough, maxReadThrough), KeepStart(c.readIn, maxReadIn), KeepStart(c.divergent, maxDivergent))
  }

  predicate CoreValid(c: Core)
  {
    c.readThrough.Valid() && c.readIn.Valid() && c.divergent.Valid()
  }

  /** `a` lies within `b`. */
  predicate Within(a: Interval, b: Interval)
  {
    b.start <= a.start <= a.end <= b.end
  }

  /**
   * Truncating valid regions with non-negative limits succeeds on either
   * strand; each region lies inside the original, is at most its limit long,
   * and keeps the end that faces the gene.
   */
  lemma TruncateBounds(c: Core, maxReadThrough: nat, maxReadIn: nat, maxDivergent: nat)
    requires CoreValid(c) && c.strand != Other
    ensures Truncate(c, maxReadThrough, maxReadIn, maxDivergent).Ok?
    ensures var t := Truncate(c, maxReadThrough, maxReadIn, maxDivergent).value;
      CoreValid(t) &&
      Within(t.readThrough, c.readThrough) && Within(t.readIn, c.readIn) && Within(t.divergent, c.divergent) &&
      t.readThrough.Len() <= maxReadThrough && t.readIn.Len() <= maxReadIn && t.divergent.Len() <= maxDivergent &&
      (c.strand == Forward ==>
        t.readThrough.start == c.readThrough.start && t.readIn.end == c.readIn.end && t.divergent.end == c.divergent.end) &&
      (c.strand == Reverse ==>
        t.readThrough.end == c.readThrough.end && t.readIn.start == c.readIn.start && t.divergent.start == c.divergent.start)
  {
  }

  /** Truncating twice with the same limits is truncating once. */
  lemma TruncateIdempotent(c: Core, maxReadThrough: nat, maxReadIn: nat, maxDivergent: nat)
    requires CoreValid(c) && c.strand != Other
    ensures Truncate(c, maxReadThrough, maxReadIn, maxDivergent).Ok?
    ensures var t := Truncate(c, maxReadThrough, maxReadIn, maxDivergent).value;
      Truncate(t, maxReadThrough, maxReadIn, maxDivergent) == Ok(t)
  {
    TruncateBounds(c, maxReadThrough, maxReadIn, maxDivergent);
  }

  /** A negative limit makes a region whose start passes its end, which is refused. */
  lemma TruncateNegative(c: Core, maxReadThrough: int)
    requires CoreValid(c) && c.strand != Other && maxReadThrough < 0
    ensures Truncate(c, maxReadThrough, 0, 0) == Err(InvalidInterval)
  {
  }
}
