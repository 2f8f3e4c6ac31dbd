// Per-peak features of the dsRNA peak table: replication across
// comparisons, not-covered regions, the repeat class, the genomic region,
// curated flags, touching-run lengths with neighbour distances, the largest
// overlap with a repeat arm and the number of editing sites.
module PeakFeatures {
  import opened Common
  import opened Sorting
  import opened Intervals
  import InvRepeats

  /** A row of the peak table: contig, orientation and the half-open span. */
  datatype Row = Row(contig: string, orientation: Strand, start: int, end: int)

  function Span(r: Row): Interval
  {
    Interval(r.start, r.end)
  }

  /** An `intervaltree` query: some stored interval overlaps `q`. */
  predicate AnyOverlap(ivs: seq<Interval>, q: Interval)
  {
    exists i :: 0 <= i < |ivs| && Overlaps(ivs[i], q)
  }

  // ---------------------------------------------------------------------
  // Replication (lines 56-79)

  /** One comparison's peaks, per contig and orientation. */
  type PeakIndex = map<(string, Strand), seq<Interval>>

  /** Line 69: the row's contig and orientation are indexed and one of their peaks overlaps it. */
  predicate Hit(index: PeakIndex, r: Row)
  {
    (r.contig, r.orientation) in index && AnyOverlap(index[(r.contig, r.orientation)], Span(r))
  }

  /** `counts[key]` after lines 66-70: how many rows with this key hit the index. */
  function Tally(rows: seq<Row>, index: PeakIndex, key: Row): nat
  {
    if rows == [] then 0
    else
      var n := |rows| - 1;
      Tally(rows[..n], index, key) + (if rows[n] == key && Hit(index, rows[n]) then 1 else 0)
  }

  /** Lines 65-72: the counts of one comparison; a key that never hits is absent. */
  method OverlapWithPeaks(rows: seq<Row>, index: PeakIndex) returns (counts: map<Row, nat>)
    ensures forall k :: k in counts ==> counts[k] == Tally(rows, index, k) > 0
    ensures forall k :: k !in counts ==> Tally(rows, index, k) == 0
  {
    counts := map[];
    for i := 0 to |rows|
      invariant forall k :: k in counts ==> counts[k] == Tally(rows[..i], index, k) > 0
      invariant forall k :: k !in counts ==> Tally(rows[..i], index, k) == 0
    {
      assert rows[..i + 1][..i] == rows[..i];
      var r := rows[i];
      var key := (r.contig, r.orientation);
      if key in index && exists j :: 0 <= j < |index[key]| && Overlaps(index[key][j], Span(r)) {
        counts := counts[r := (if r in counts then counts[r] else 0) + 1];
      }
    }
    assert rows[..|rows|] == rows;
  }

  /** Line 76: the sum of one key's counts over all comparisons. */
  function Replication(rows: seq<Row>, indexes: seq<PeakIndex>, key: Row): nat
  {
    if indexes == [] then 0
    else
      var n := |indexes| - 1;
      Replication(rows, indexes[..n], key) + Tally(rows, indexes[n], key)
  }

  /** How many comparisons have a peak overlapping the row. */
  function Comparisons(indexes: seq<PeakIndex>, r: Row): nat
  {
    if indexes == [] then 0
    else
      var n := |indexes| - 1;
      Comparisons(indexes[..n], r) + (if Hit(indexes[n], r) then 1 else 0)
  }

  lemma {:induction false} TallyAbsent(rows: seq<Row>, index: PeakIndex, key: Row)
    requires key !in rows
    ensures Tally(rows, index, key) == 0
  {
    if rows != [] {
      var n := |rows| - 1;
      assert forall x :: x in rows[..n] ==> x in rows;
      TallyAbsent(rows[..n], index, key);
    }
  }

  lemma {:induction false} TallyOnce(rows: seq<Row>, index: PeakIndex, i: nat)
    requires i < |rows| && forall a, b :: 0 <= a < b < |rows| ==> rows[a] != rows[b]
    ensures Tally(rows, index, rows[i]) == if Hit(index, rows[i]) then 1 else 0
  {
    var n := |rows| - 1;
    if i < n {
      TallyOnce(rows[..n], index, i);
    } else {
      assert rows[i] !in rows[..n];
      TallyAbsent(rows[..n], index, rows[i]);
    }
  }

  /**
   * Over a table whose rows are distinct, a row's replication is the number
   * of comparisons with a peak overlapping it.
   */
  lemma {:induction false} ReplicationSpec(rows: seq<Row>, indexes: seq<PeakIndex>, i: nat)
    requires i < |rows| && forall a, b :: 0 <= a < b < |rows| ==> rows[a] != rows[b]
    ensures Replication(rows, indexes, rows[i]) == Comparisons(indexes, rows[i])
  {
    if indexes != [] {
      var n := |indexes| - 1;
      ReplicationSpec(rows, indexes[..n], i);
      TallyOnce(rows, indexes[n], i);
    }
  }

  /** A repeated row counts once per copy in every comparison it hits. */
  lemma ReplicationDuplicate(index: PeakIndex, r: Row)
    requires Hit(index, r)
    ensures Replication([r, r], [index], r) == 2
  {
    assert [r, r][..1] == [r];
    assert [r][..0] == [];
    assert Tally([r], index, r) == 1;
    assert Tally([r, r], index, r) == 2;
    assert [index][..0] == [];
  }

  /** Lines 74-78: the `Replication` column. */
  method ReplicationColumn(rows: seq<Row>, indexes: seq<PeakIndex>) returns (column: seq<nat>)
    ensures |column| == |rows|
    ensures forall i :: 0 <= i < |rows| ==> column[i] == Replication(rows, indexes, rows[i])
  {
    var counts := CountsOf(rows, indexes);
    column := [];
    for i := 0 to |rows|
      invariant |column| == i
      invariant forall a :: 0 <= a < i ==> column[a] == Replication(rows, indexes, rows[a])
    {
      var total := SumCounts(rows, indexes, counts, rows[i]);
      column := column + [total];
    }
  }

  /** The counts of every comparison hold the tallies of `rows`. */
  ghost predicate Counted(rows: seq<Row>, indexes: seq<PeakIndex>, counts: seq<map<Row, nat>>)
  {
    |counts| == |indexes| &&
    (forall j, k :: 0 <= j < |counts| && k in counts[j] ==> counts[j][k] == Tally(rows, indexes[j], k)) &&
    (forall j, k :: 0 <= j < |counts| && k !in counts[j] ==> Tally(rows, indexes[j], k) == 0)
  }

  /** Line 74: the counts of each comparison in turn. */
  method CountsOf(rows: seq<Row>, indexes: seq<PeakIndex>) returns (counts: seq<map<Row, nat>>)
    ensures Counted(rows, indexes, counts)
  {
    counts := [];
    for c := 0 to |indexes|
      invariant Counted(rows, indexes[..c], counts)
    {
      var m := OverlapWithPeaks(rows, indexes[c]);
      counts := counts + [m];
    }
    assert indexes[..|indexes|] == indexes;
  }

  /** Line 76 for one key. */
  method SumCounts(rows: seq<Row>, indexes: seq<PeakIndex>, counts: seq<map<Row, nat>>, key: Row) returns (total: nat)
    requires Counted(rows, indexes, counts)
    ensures total == Replication(rows, indexes, key)
  {
    total := 0;
    for c := 0 to |counts|
      invariant total == Replication(rows, indexes[..c], key)
    {
      assert indexes[..c + 1][..c] == indexes[..c];
      total := total + if key in counts[c] then counts[c][key] else 0;
    }
    assert indexes[..|indexes|] == indexes;
  }

  // ---------------------------------------------------------------------
  // Not-covered regions (lines 106-116)

  /**
   * The complement of covered segments sorted by start within a contig of
   * length `size`: the stretch before the first segment when it starts
   * after 0, the stretch between each consecutive pair, and the stretch
   * after the last segment when it ends before `size`.
   */
  function Gaps(t: seq<Interval>, size: int): seq<Interval>
    requires |t| > 0
  {
    Head(t) + Between(t) + Tail(t, size)
  }

  /** The gap before the first segment, if any. */
  function Head(t: seq<Interval>): seq<Interval>
    requires |t| > 0
  {
    if t[0].start > 0 then [Interval(0, t[0].start)] else []
  }

  /** The gap after the last segment, if any. */
  function Tail(t: seq<Interval>, size: int): seq<Interval>
    requires |t| > 0
  {
    if t[|t| - 1].end < size then [Interval(t[|t| - 1].end, size)] else []
  }

  function Between(t: seq<Interval>): (r: seq<Interval>)
    ensures |t| > 0 ==> |r| == |t| - 1
    ensures forall i :: 0 <= i < |t| - 1 ==> r[i] == Interval(t[i].end, t[i + 1].start)
  {
    if |t| <= 1 then [] else seq(|t| - 1, i requires 0 <= i < |t| - 1 => Interval(t[i].end, t[i + 1].start))
  }

  /** The last segment starting at or before `p`, or -1. */
  function LastStart(t: seq<Interval>, p: int): (r: int)
    ensures -1 <= r < |t|
    ensures r >= 0 ==> t[r].start <= p
    ensures forall j :: r < j < |t| ==> t[j].start > p
  {
    if t == [] then -1
    else if t[|t| - 1].start <= p then |t| - 1
    else LastStart(t[..|t| - 1], p)
  }

  lemma BetweenUncovered(t: seq<Interval>, k: int, p: int)
    requires Separated(t) && 0 <= k < |t| - 1 && t[k].end <= p < t[k + 1].start
    ensures !Covered(t, p)
  {
    forall i | 0 <= i < |t| ensures !t[i].Contains(p) {
      if i < k {
        assert t[i].end < t[k].start;
      } else if i > k + 1 {
        assert t[k + 1].end < t[i].start;
      }
    }
  }

  lemma OutsideUncovered(t: seq<Interval>, p: int)
    requires Separated(t) && |t| > 0 && (p < t[0].start || t[|t| - 1].end <= p)
    ensures !Covered(t, p)
  {
    forall i | 0 <= i < |t| ensures !t[i].Contains(p) {
      if 0 < i {
        assert t[0].end < t[i].start;
      }
      if i < |t| - 1 {
        assert t[i].end < t[|t| - 1].start;
      }
    }
  }

  /** A gap point is not covered. */
  lemma GapUncovered(t: seq<Interval>, size: int, p: int)
    requires |t| > 0 && Separated(t) && Covered(Gaps(t, size), p)
    ensures !Covered(t, p)
  {
    var head, tail := Head(t), Tail(t, size);
    var b := Between(t);
    assert Gaps(t, size) == head + b + tail;
    CoveredConcat(head + b, tail, p);
    CoveredConcat(head, b, p);
    if Covered(head, p) {
      assert head[0].Contains(p);
      OutsideUncovered(t, p);
    } else if Covered(b, p) {
      var k :| 0 <= k < |b| && b[k].Contains(p);
      BetweenUncovered(t, k, p);
    } else {
      assert tail[0].Contains(p);
      OutsideUncovered(t, p);
    }
  }

  /** An uncovered point of the contig lies in a gap. */
  lemma UncoveredGap(t: seq<Interval>, size: int, p: int)
    requires |t| > 0 && Separated(t) && 0 <= p < size && !Covered(t, p)
    ensures Covered(Gaps(t, size), p)
  {
    var head, tail := Head(t), Tail(t, size);
    CoveredConcat(head + Between(t), tail, p);
    CoveredConcat(head, Between(t), p);
    var i := LastStart(t, p);
    if i < 0 {
      assert head[0].Contains(p);
    } else {
      assert !t[i].Contains(p);
      if i == |t| - 1 {
        assert tail[0].Contains(p);
      } else {
        assert Between(t)[i].Contains(p);
      }
    }
  }

  /** Two separated lists, the first ending before the second starts, join into one. */
  lemma SeparatedConcat(a: seq<Interval>, b: seq<Interval>)
    requires Separated(a) && Separated(b)
    requires |a| > 0 && |b| > 0 ==> a[|a| - 1].end < b[0].start
    ensures Separated(a + b)
  {
    var c := a + b;
    forall x, y | 0 <= x < y < |c| ensures c[x].end < c[y].start {
      if x < |a| <= y {
        if x < |a| - 1 {
          assert a[x].end < a[|a| - 1].start;
        }
        if y > |a| {
          assert b[0].end < b[y - |a|].start;
        }
      } else if y < |a| {
        assert c[x] == a[x] && c[y] == a[y];
      } else {
        assert c[x] == b[x - |a|] && c[y] == b[y - |a|];
      }
    }
  }

  lemma BetweenSeparated(t: seq<Interval>)
    requires Separated(t)
    ensures Separated(Between(t))
  {
    var b := Between(t);
    forall x, y | 0 <= x < y < |b| ensures b[x].end < b[y].start {
      if x + 1 < y {
        assert t[x + 1].end < t[y].start;
      }
    }
  }

  /** Gaps are sorted, non-empty and do not touch. */
  lemma GapsSeparated(t: seq<Interval>, size: int)
    requires |t| > 0 && Separated(t)
    ensures Separated(Gaps(t, size))
  {
    BetweenSeparated(t);
    EndsSeparated(t, size);
    HeadBeforeBetween(t);
    FrontBeforeTail(t, size);
    SeparatedJoin(Head(t), Between(t), Tail(t, size));
  }

  /** Three separated lists, each ending before the next starts, join into one. */
  lemma SeparatedJoin(a: seq<Interval>, b: seq<Interval>, c: seq<Interval>)
    requires Separated(a) && Separated(b) && Separated(c)
    requires |a| > 0 && |b| > 0 ==> a[|a| - 1].end < b[0].start
    requires |a + b| > 0 && |c| > 0 ==> (a + b)[|a + b| - 1].end < c[0].start
    ensures Separated(a + b + c)
  {
    SeparatedConcat(a, b);
    SeparatedConcat(a + b, c);
  }

  /** The gaps at either end are non-empty when present. */
  lemma EndsSeparated(t: seq<Interval>, size: int)
    requires |t| > 0
    ensures Separated(Head(t)) && Separated(Tail(t, size))
  {
  }

  lemma HeadBeforeBetween(t: seq<Interval>)
    requires |t| > 0 && Separated(t)
    ensures |Head(t)| > 0 && |Between(t)| > 0 ==> Head(t)[0].end < Between(t)[0].start
  {
    assert t[0].NonEmpty();
  }

  lemma FrontBeforeTail(t: seq<Interval>, size: int)
    requires |t| > 0 && Separated(t)
    ensures var front := Head(t) + Between(t);
      |front| > 0 && |Tail(t, size)| > 0 ==> front[|front| - 1].end < Tail(t, size)[0].start
  {
    var front, b, n := Head(t) + Between(t), Between(t), |t| - 1;
    assert t[n].NonEmpty();
    if |b| > 0 {
      assert front[|front| - 1] == b[n - 1];
    } else if |front| > 0 {
      assert front[0] == Head(t)[0];
    }
  }

  /**
   * Within the contig, a position is in a gap exactly when no covered
   * segment holds it; gaps hold no covered position and are themselves
   * sorted, non-empty and apart.
   */
  lemma GapsSpec(t: seq<Interval>, size: int)
    requires |t| > 0 && Separated(t)
    ensures Separated(Gaps(t, size))
    ensures forall p :: Covered(Gaps(t, size), p) ==> !Covered(t, p)
    ensures forall p :: 0 <= p < size ==> (Covered(Gaps(t, size), p) <==> !Covered(t, p))
  {
    GapsSeparated(t, size);
    forall p | Covered(Gaps(t, size), p) ensures !Covered(t, p) {
      GapUncovered(t, size, p);
    }
    forall p | 0 <= p < size && !Covered(t, p) ensures Covered(Gaps(t, size), p) {
      UncoveredGap(t, size, p);
    }
  }

  /** Lines 113-114: the gap after each segment but the last, one by one. */
  method BetweenOf(t: seq<Interval>) returns (gaps: seq<Interval>)
    requires |t| > 0
    ensures gaps == Between(t)
  {
    gaps := [];
    for i := 0 to |t| - 1
      invariant |gaps| == i
      invariant forall k :: 0 <= k < i ==> gaps[k] == Interval(t[k].end, t[k + 1].start)
    {
      gaps := gaps + [Interval(t[i].end, t[i + 1].start)];
    }
  }

  /** Lines 111-116: the gaps of sorted segments. */
  method GapsOf(t: seq<Interval>, size: int) returns (gaps: seq<Interval>)
    requires |t| > 0
    ensures gaps == Gaps(t, size)
  {
    var head := if t[0].start > 0 then [Interval(0, t[0].start)] else [];
    var between := BetweenOf(t);
    var tail := if t[|t| - 1].end < size then [Interval(t[|t| - 1].end, size)] else [];
    assert head == Head(t) && tail == Tail(t, size);
    gaps := head + between + tail;
  }

  /** Lines 110-116 for one contig and strand. */
  method NotCovered(cov: seq<Interval>, size: int) returns (gaps: seq<Interval>)
    requires |cov| > 0
    ensures gaps == Gaps(SortByStart(cov), size)
  {
    gaps := GapsOf(SortByStart(cov), size);
  }

  /**
   * Lines 109-116 over every contig and strand with covered segments; a
   * contig without a size is a `KeyError`.
   */
  function NotCoveredAll(covgroups: map<(string, Strand), seq<Interval>>, sizes: map<string, int>): (r: Result<map<(string, Strand), seq<Interval>>>)
    requires forall k :: k in covgroups ==> |covgroups[k]| > 0
    ensures r.Err? <==> exists k :: k in covgroups && k.0 !in sizes
    ensures r.Ok? ==> r.value.Keys == covgroups.Keys
    ensures r.Ok? ==> forall k :: k in covgroups ==> r.value[k] == Gaps(SortByStart(covgroups[k]), sizes[k.0])
  {
    if exists k :: k in covgroups && k.0 !in sizes then Err(KeyError)
    else Ok(map k | k in covgroups :: Gaps(SortByStart(covgroups[k]), sizes[k.0]))
  }

  // ---------------------------------------------------------------------
  // Repeat class (lines 156-182)

  /** A RepeatMasker record. */
  datatype Repeat = Repeat(contig: string, loc: Interval, name: string)

  /**
   * Line 175: the entries of the contig's tree that overlap `q`. The tree
   * keeps one copy of equal (interval, name) entries; the order of the
   * query's result is taken to be the records' order.
   */
  function RepeatHits(repeats: seq<Repeat>, contig: string, q: Interval): seq<(Interval, string)>
  {
    if repeats == [] then []
    else
      var n := |repeats| - 1;
      var front := RepeatHits(repeats[..n], contig, q);
      var r := repeats[n];
      if r.contig == contig && Overlaps(r.loc, q) && (r.loc, r.name) !in front then front + [(r.loc, r.name)]
      else front
  }

  /** Line 176: the length of the overlap. */
  function OverlapLen(a: Interval, q: Interval): int
  {
    Min(a.end, q.end) - Max(a.start, q.start)
  }

  /** A dictionary of weights: (name, weight) in insertion order. */
  type Weights = seq<(string, int)>

  predicate NamesDistinct(w: Weights)
  {
    forall i, j :: 0 <= i < j < |w| ==> w[i].0 != w[j].0
  }

  /** Where `name` sits in `w`, or -1. */
  function Find(w: Weights, name: string): (i: int)
    ensures -1 <= i < |w|
    ensures i >= 0 ==> w[i].0 == name
    ensures i < 0 ==> forall j :: 0 <= j < |w| ==> w[j].0 != name
  {
    if w == [] then -1
    else if w[|w| - 1].0 == name then |w| - 1
    else Find(w[..|w| - 1], name)
  }

  /** `weights[name]` of a `defaultdict(int)`. */
  function WeightOf(w: Weights, name: string): int
  {
    var i := Find(w, name);
    if i >= 0 then w[i].1 else 0
  }

  /** `weights[name] = value`. */
  function SetWeight(w: Weights, name: string, value: int): (r: Weights)
    ensures |r| > 0
  {
    var i := Find(w, name);
    if i >= 0 then w[i := (name, value)] else w + [(name, value)]
  }

  /** `weights[name] += len`. */
  function AddWeight(w: Weights, name: string, len: int): Weights
  {
    SetWeight(w, name, WeightOf(w, name) + len)
  }

  function Total(w: Weights): int
  {
    if w == [] then 0 else Total(w[..|w| - 1]) + w[|w| - 1].1
  }

  lemma {:induction false} TotalUpdate(w: Weights, i: int, e: (string, int))
    requires 0 <= i < |w|
    ensures Total(w[i := e]) == Total(w) - w[i].1 + e.1
  {
    var n := |w| - 1;
    assert w[i := e][..n] == if i < n then w[..n][i := e] else w[..n];
    if i < n {
      TotalUpdate(w[..n], i, e);
    }
  }

  /** `Find` looks at the names only. */
  lemma {:induction false} FindByNames(w: Weights, r: Weights, m: string)
    requires |w| == |r| && forall j :: 0 <= j < |w| ==> w[j].0 == r[j].0
    ensures Find(w, m) == Find(r, m)
  {
    if w != [] {
      FindByNames(w[..|w| - 1], r[..|r| - 1], m);
    }
  }

  /** Setting a weight changes only that name's weight and adds it if new. */
  lemma SetWeightAt(w: Weights, name: string, value: int, m: string)
    ensures WeightOf(SetWeight(w, name, value), m) == if m == name then value else WeightOf(w, m)
    ensures Find(SetWeight(w, name, value), m) >= 0 <==> m == name || Find(w, m) >= 0
  {
    var r := SetWeight(w, name, value);
    var i := Find(w, name);
    if i >= 0 {
      FindByNames(w, r, m);
      var j := Find(w, m);
      if j >= 0 && j != i {
        assert r[j] == w[j];
      }
    } else {
      assert r[..|w|] == w;
      var j := Find(w, m);
      if j >= 0 {
        assert r[j] == w[j];
      }
    }
  }

  /** Setting a weight keeps the names distinct. */
  lemma SetWeightDistinct(w: Weights, name: string, value: int)
    requires NamesDistinct(w)
    ensures NamesDistinct(SetWeight(w, name, value))
  {
  }

  /** Setting a weight moves the total by the difference. */
  lemma SetWeightTotal(w: Weights, name: string, value: int)
    ensures Total(SetWeight(w, name, value)) == Total(w) - WeightOf(w, name) + value
  {
    var i := Find(w, name);
    if i >= 0 {
      TotalUpdate(w, i, (name, value));
    } else {
      assert SetWeight(w, name, value)[..|w|] == w;
    }
  }

  /** Lines 174-178: every overlapping entry adds its overlap to its name. */
  function Weigh(hits: seq<(Interval, string)>, q: Interval): Weights
  {
    if hits == [] then []
    else
      var n := |hits| - 1;
      AddWeight(Weigh(hits[..n], q), hits[n].1, OverlapLen(hits[n].0, q))
  }

  /** The summed overlap of the entries named `name`. */
  function NameTotal(hits: seq<(Interval, string)>, q: Interval, name: string): int
  {
    if hits == [] then 0
    else
      var n := |hits| - 1;
      NameTotal(hits[..n], q, name) + (if hits[n].1 == name then OverlapLen(hits[n].0, q) else 0)
  }

  function OverlapTotal(hits: seq<(Interval, string)>, q: Interval): int
  {
    if hits == [] then 0 else OverlapTotal(hits[..|hits| - 1], q) + OverlapLen(hits[|hits| - 1].0, q)
  }

  predicate HasName(hits: seq<(Interval, string)>, m: string)
  {
    exists i :: 0 <= i < |hits| && hits[i].1 == m
  }

  lemma NameStep(hits: seq<(Interval, string)>, m: string)
    requires hits != []
    ensures HasName(hits, m) <==> m == hits[|hits| - 1].1 || HasName(hits[..|hits| - 1], m)
  {
    var n := |hits| - 1;
    var front := hits[..n];
    if HasName(hits, m) {
      var i :| 0 <= i < |hits| && hits[i].1 == m;
      if i < n {
        assert front[i].1 == m;
      }
    }
    if HasName(front, m) {
      var i :| 0 <= i < n && front[i].1 == m;
      assert hits[i].1 == m;
    }
  }

  /** One `+=` moves only the weight of the name it adds to. */
  lemma AddWeightAt(w: Weights, name: string, len: int, m: string)
    ensures WeightOf(AddWeight(w, name, len), m) == WeightOf(w, m) + (if name == m then len else 0)
  {
    SetWeightAt(w, name, WeightOf(w, name) + len, m);
  }

  /** Each name weighs the summed overlap of its entries. */
  lemma {:induction false} WeighAt(hits: seq<(Interval, string)>, q: Interval, m: string)
    ensures WeightOf(Weigh(hits, q), m) == NameTotal(hits, q, m)
  {
    if hits != [] {
      var n := |hits| - 1;
      WeighAt(hits[..n], q, m);
      AddWeightAt(Weigh(hits[..n], q), hits[n].1, OverlapLen(hits[n].0, q), m);
    }
  }

  /** The names of the weights are exactly the entries' names. */
  lemma {:induction false} WeighNames(hits: seq<(Interval, string)>, q: Interval, m: string)
    ensures Find(Weigh(hits, q), m) >= 0 <==> HasName(hits, m)
  {
    if hits != [] {
      var n := |hits| - 1;
      WeighNames(hits[..n], q, m);
      AddWeightNames(Weigh(hits[..n], q), hits[n].1, OverlapLen(hits[n].0, q), m);
      NameStep(hits, m);
    }
  }

  /** One `+=` adds its name to the weights and no other. */
  lemma AddWeightNames(w: Weights, name: string, len: int, m: string)
    ensures Find(AddWeight(w, name, len), m) >= 0 <==> m == name || Find(w, m) >= 0
  {
    SetWeightAt(w, name, WeightOf(w, name) + len, m);
  }

  /** A name appears once among the weights. */
  lemma {:induction false} WeighDistinct(hits: seq<(Interval, string)>, q: Interval)
    ensures NamesDistinct(Weigh(hits, q))
  {
    if hits != [] {
      var n := |hits| - 1;
      WeighDistinct(hits[..n], q);
      AddWeightDistinct(Weigh(hits[..n], q), hits[n].1, OverlapLen(hits[n].0, q));
    }
  }

  lemma AddWeightDistinct(w: Weights, name: string, len: int)
    requires NamesDistinct(w)
    ensures NamesDistinct(AddWeight(w, name, len))
  {
    SetWeightDistinct(w, name, WeightOf(w, name) + len);
  }

  /** The weights add up to the whole overlap. */
  lemma {:induction false} WeighTotal(hits: seq<(Interval, string)>, q: Interval)
    ensures Total(Weigh(hits, q)) == OverlapTotal(hits, q)
  {
    if hits != [] {
      var n := |hits| - 1;
      WeighTotal(hits[..n], q);
      AddWeightTotal(Weigh(hits[..n], q), hits[n].1, OverlapLen(hits[n].0, q));
    }
  }

  /** One `+=` grows the total by the added length. */
  lemma AddWeightTotal(w: Weights, name: string, len: int)
    ensures Total(AddWeight(w, name, len)) == Total(w) + len
  {
    SetWeightTotal(w, name, WeightOf(w, name) + len);
  }

  /** An overlapping entry covers a positive length. */
  lemma HitsOverlap(repeats: seq<Repeat>, contig: string, q: Interval)
    ensures forall i :: 0 <= i < |RepeatHits(repeats, contig, q)| ==> OverlapLen(RepeatHits(repeats, contig, q)[i].0, q) > 0
  {
    if repeats != [] {
      HitsOverlap(repeats[..|repeats| - 1], contig, q);
    }
  }

  /** The position of the first heaviest entry (`max` keeps the first maximum). */
  function ArgMax(w: Weights): (k: nat)
    requires |w| > 0
    ensures k < |w|
    ensures forall j :: 0 <= j < |w| ==> w[j].1 <= w[k].1
    ensures forall j :: 0 <= j < k ==> w[j].1 < w[k].1
  {
    if |w| == 1 then 0
    else
      var k := ArgMax(w[..|w| - 1]);
      if w[|w| - 1].1 > w[k].1 then |w| - 1 else k
  }

  /** The name of the part of a row no repeat covers. */
  const RepeatFree := "Repeat-free"

  /** Line 179: the weights with RepeatFree set to the part nothing covers. */
  function Classified(hits: seq<(Interval, string)>, q: Interval): (w: Weights)
    ensures |w| > 0
  {
    Remainder(Weigh(hits, q), q, RepeatFree)
  }

  /** The weights `w` with `f` set to the part of `q` they do not cover. */
  function Remainder(w: Weights, q: Interval, f: string): (r: Weights)
    ensures |r| > 0
  {
    SetWeight(w, f, q.Len() - Total(w))
  }

  /**
   * Lines 161-164: the contig has a tree. The index is a plain dict once
   * built, so a host contig without RepeatMasker records has no entry.
   */
  predicate Indexed(repeats: seq<Repeat>, contig: string)
  {
    exists i :: 0 <= i < |repeats| && repeats[i].contig == contig
  }

  /** Lines 169-181: the class of one row; line 175 raises a KeyError for a host contig with no tree. */
  function RepeatClass(repeats: seq<Repeat>, host: set<string>, contig: string, q: Interval): Result<string>
  {
    if contig !in host then Ok("Not host")
    else if !Indexed(repeats, contig) then Err(KeyError)
    else
      var w := Classified(RepeatHits(repeats, contig, q), q);
      Ok(w[ArgMax(w)].0)
  }

  /**
   * Every repeat name weighs its overlap with the row, RepeatFree weighs
   * the rest of the row's length, and all weights add up to that length.
   */
  lemma ClassifiedAt(hits: seq<(Interval, string)>, q: Interval, m: string)
    ensures m != RepeatFree ==> WeightOf(Classified(hits, q), m) == NameTotal(hits, q, m)
    ensures m == RepeatFree ==> WeightOf(Classified(hits, q), m) == q.Len() - OverlapTotal(hits, q)
    ensures Find(Classified(hits, q), m) >= 0 <==> m == RepeatFree || HasName(hits, m)
  {
    WeighAt(hits, q, m);
    WeighNames(hits, q, m);
    WeighTotal(hits, q);
    RemainderAt(Weigh(hits, q), q, RepeatFree, m);
  }

  /** The remainder replaces the weight of `f` and leaves the other names as they are. */
  lemma RemainderAt(w: Weights, q: Interval, f: string, m: string)
    ensures WeightOf(Remainder(w, q, f), m) == if m == f then q.Len() - Total(w) else WeightOf(w, m)
    ensures Find(Remainder(w, q, f), m) >= 0 <==> m == f || Find(w, m) >= 0
  {
    SetWeightAt(w, f, q.Len() - Total(w), m);
  }

  /** The remainder brings the total to the row's length, less what `f` weighed before. */
  lemma RemainderTotal(w: Weights, q: Interval, f: string)
    ensures Total(Remainder(w, q, f)) == q.Len() - WeightOf(w, f)
  {
    SetWeightTotal(w, f, q.Len() - Total(w));
  }

  /**
   * All weights add up to the row's length, unless a repeat itself is named
   * RepeatFree: its overlap is then overwritten.
   */
  lemma ClassifiedTotal(hits: seq<(Interval, string)>, q: Interval)
    ensures Total(Classified(hits, q)) == q.Len() - NameTotal(hits, q, RepeatFree)
  {
    WeighAt(hits, q, RepeatFree);
    RemainderTotal(Weigh(hits, q), q, RepeatFree);
  }

  /**
   * Off-host contigs are "Not host"; a host contig without records is a
   * KeyError; otherwise the class is a name of greatest weight, and a row
   * that no repeat overlaps is RepeatFree.
   */
  lemma RepeatClassSpec(repeats: seq<Repeat>, host: set<string>, contig: string, q: Interval, m: string)
    ensures contig !in host ==> RepeatClass(repeats, host, contig, q) == Ok("Not host")
    ensures RepeatClass(repeats, host, contig, q).Err? <==> contig in host && !Indexed(repeats, contig)
    ensures RepeatClass(repeats, host, contig, q).Err? ==> RepeatClass(repeats, host, contig, q).error == KeyError
    ensures contig in host && Indexed(repeats, contig) && Find(Classified(RepeatHits(repeats, contig, q), q), m) >= 0 ==>
      WeightOf(Classified(RepeatHits(repeats, contig, q), q), m) <=
      WeightOf(Classified(RepeatHits(repeats, contig, q), q), RepeatClass(repeats, host, contig, q).value)
    ensures contig in host && Indexed(repeats, contig) && RepeatHits(repeats, contig, q) == [] ==>
      RepeatClass(repeats, host, contig, q) == Ok(RepeatFree)
  {
    if contig in host && Indexed(repeats, contig) {
      var hits := RepeatHits(repeats, contig, q);
      var v := Weigh(hits, q);
      WeighDistinct(hits, q);
      SetWeightDistinct(v, RepeatFree, q.Len() - Total(v));
      MaxWeight(Classified(hits, q), m);
      if hits == [] {
        RemainderEmpty(v, q, RepeatFree);
      }
    }
  }

  /** The first heaviest entry weighs at least as much as any name present. */
  lemma MaxWeight(w: Weights, m: string)
    requires |w| > 0 && NamesDistinct(w)
    ensures Find(w, m) >= 0 ==> WeightOf(w, m) <= WeightOf(w, w[ArgMax(w)].0)
  {
    var k := ArgMax(w);
    assert Find(w, w[k].0) == k;
  }

  /** Without weights, the remainder is the only entry and so the heaviest. */
  lemma RemainderEmpty(w: Weights, q: Interval, f: string)
    requires w == []
    ensures var r := Remainder(w, q, f); r[ArgMax(r)].0 == f
  {
    assert Remainder(w, q, f) == [(f, q.Len())];
  }

  /** Lines 174-178: the weights, accumulated entry by entry. */
  method WeighOf(hits: seq<(Interval, string)>, q: Interval) returns (weights: Weights)
    requires forall i :: 0 <= i < |hits| ==> OverlapLen(hits[i].0, q) > 0
    ensures weights == Weigh(hits, q)
  {
    weights := [];
    for i := 0 to |hits|
      invariant weights == Weigh(hits[..i], q)
    {
      assert hits[..i + 1][..i] == hits[..i];
      var length := OverlapLen(hits[i].0, q);
      assert length > 0;
      weights := AddWeight(weights, hits[i].1, length);
    }
    assert hits[..|hits|] == hits;
  }

  /** Lines 169-181 for one row. */
  method RepeatClassOf(repeats: seq<Repeat>, host: set<string>, contig: string, q: Interval) returns (c: Result<string>)
    ensures c == RepeatClass(repeats, host, contig, q)
  {
    if contig !in host {
      return Ok("Not host");
    }
    var found := false;
    for i := 0 to |repeats|
      invariant found <==> exists j :: 0 <= j < i && repeats[j].contig == contig
    {
      if repeats[i].contig == contig {
        found := true;
      }
    }
    if !found {
      return Err(KeyError);
    }
    var hits := RepeatHits(repeats, contig, q);
    HitsOverlap(repeats, contig, q);
    var weights := WeighOf(hits, q);
    weights := Remainder(weights, q, RepeatFree);
    c := Ok(weights[ArgMax(weights)].0);
  }

  // ---------------------------------------------------------------------
  // Genomic region (lines 185-224)

  datatype Region = NotHost | Cds | Exon | Intron | Intergenic

  /** Some annotation entry named `name` overlaps `q`. */
  predicate Named(ivs: seq<(Interval, string)>, q: Interval, name: string)
  {
    exists i :: 0 <= i < |ivs| && Overlaps(ivs[i].0, q) && ivs[i].1 == name
  }

  /** Some overlapping entry is named other than "intron" and "intergenic". */
  predicate Genic(ivs: seq<(Interval, string)>, q: Interval)
  {
    exists i :: 0 <= i < |ivs| && Overlaps(ivs[i].0, q) && ivs[i].1 != "intron" && ivs[i].1 != "intergenic"
  }

  /**
   * Lines 197-222 for one row: "Not host" off-host, nothing without an
   * annotation for the contig and orientation, else CDS before other exonic
   * names before intron before intergenic, which must be present.
   */
  function RegionOf(sizes: set<string>, index: map<(string, Strand), seq<(Interval, string)>>, r: Row): Result<Option<Region>>
  {
    if r.contig !in sizes then Ok(Some(NotHost))
    else if (r.contig, r.orientation) !in index then Ok(None)
    else
      var hits := RegionHits(index[(r.contig, r.orientation)], Span(r));
      var intergenic, intronic := "intergenic" in hits, "intron" in hits;
      var rest := hits - {"intergenic", "intron"};
      if "CDS" in rest then Ok(Some(Cds))
      else if rest != {} then Ok(Some(Exon))
      else if intronic then Ok(Some(Intron))
      else if intergenic then Ok(Some(Intergenic))
      else Err(AssertionError)
  }

  /** Line 210: the names of the entries overlapping `q`. */
  function RegionHits(ivs: seq<(Interval, string)>, q: Interval): set<string>
  {
    set i | 0 <= i < |ivs| && Overlaps(ivs[i].0, q) :: ivs[i].1
  }

  lemma HitsNamed(ivs: seq<(Interval, string)>, q: Interval, name: string)
    ensures Named(ivs, q, name) <==> name in RegionHits(ivs, q)
  {
    if name in RegionHits(ivs, q) {
      var i :| 0 <= i < |ivs| && Overlaps(ivs[i].0, q) && ivs[i].1 == name;
    }
  }

  lemma HitsGenic(ivs: seq<(Interval, string)>, q: Interval)
    ensures Genic(ivs, q) <==> RegionHits(ivs, q) - {"intergenic", "intron"} != {}
  {
    var hits := RegionHits(ivs, q);
    if Genic(ivs, q) {
      var i :| 0 <= i < |ivs| && Overlaps(ivs[i].0, q) && ivs[i].1 != "intron" && ivs[i].1 != "intergenic";
      assert ivs[i].1 in hits - {"intergenic", "intron"};
    }
    if hits - {"intergenic", "intron"} != {} {
      var x :| x in hits - {"intergenic", "intron"};
      var i :| 0 <= i < |ivs| && Overlaps(ivs[i].0, q) && ivs[i].1 == x;
    }
  }

  lemma HitsAny(ivs: seq<(Interval, string)>, q: Interval)
    ensures AnyOverlap(Keys(ivs), q) <==> RegionHits(ivs, q) != {}
  {
    if AnyOverlap(Keys(ivs), q) {
      var i :| 0 <= i < |Keys(ivs)| && Overlaps(Keys(ivs)[i], q);
      assert ivs[i].1 in RegionHits(ivs, q);
    }
    if RegionHits(ivs, q) != {} {
      var x :| x in RegionHits(ivs, q);
      var i :| 0 <= i < |ivs| && Overlaps(ivs[i].0, q) && ivs[i].1 == x;
      assert Keys(ivs)[i] == ivs[i].0;
    }
  }

  /** The priority of lines 214-222 in terms of the overlapping entries. */
  lemma RegionSpec(sizes: set<string>, index: map<(string, Strand), seq<(Interval, string)>>, r: Row)
    ensures r.contig !in sizes ==> RegionOf(sizes, index, r) == Ok(Some(NotHost))
    ensures r.contig in sizes && (r.contig, r.orientation) !in index ==> RegionOf(sizes, index, r) == Ok(None)
    ensures r.contig in sizes && (r.contig, r.orientation) in index ==>
      var ivs, q := index[(r.contig, r.orientation)], Span(r);
      (RegionOf(sizes, index, r) == Ok(Some(Cds)) <==> Named(ivs, q, "CDS")) &&
      (RegionOf(sizes, index, r) == Ok(Some(Exon)) <==> !Named(ivs, q, "CDS") && Genic(ivs, q)) &&
      (RegionOf(sizes, index, r) == Ok(Some(Intron)) <==> !Genic(ivs, q) && Named(ivs, q, "intron")) &&
      (RegionOf(sizes, index, r) == Ok(Some(Intergenic)) <==>
        !Genic(ivs, q) && !Named(ivs, q, "intron") && Named(ivs, q, "intergenic")) &&
      (RegionOf(sizes, index, r).Err? <==> !AnyOverlap(Keys(ivs), q))
  {
    if r.contig in sizes && (r.contig, r.orientation) in index {
      var ivs, q := index[(r.contig, r.orientation)], Span(r);
      HitsNamed(ivs, q, "CDS");
      HitsNamed(ivs, q, "intron");
      HitsNamed(ivs, q, "intergenic");
      HitsGenic(ivs, q);
      HitsAny(ivs, q);
      var hits := RegionHits(ivs, q);
      assert "CDS" in hits <==> "CDS" in hits - {"intergenic", "intron"};
    }
  }

  function Keys(ivs: seq<(Interval, string)>): (r: seq<Interval>)
    ensures |r| == |ivs| && forall i :: 0 <= i < |ivs| ==> r[i] == ivs[i].0
  {
    seq(|ivs|, i requires 0 <= i < |ivs| => ivs[i].0)
  }

  // ---------------------------------------------------------------------
  // Curated regions (lines 227-243)

  /**
   * Lines 237-241: whether the row overlaps an excluded and an included
   * curated interval on its contig, whatever its orientation; a missing
   * curated file contributes no interval.
   */
  function CuratedFlags(excluded: seq<(string, Interval)>, included: seq<(string, Interval)>, r: Row): (bool, bool)
  {
    var hits := TagHits(Tagged(excluded, included), r);
    (true in hits, false in hits)
  }

  /** The excluded intervals tagged `true`, then the included ones tagged `false`. */
  function Tagged(excluded: seq<(string, Interval)>, included: seq<(string, Interval)>): (e: seq<((string, Interval), bool)>)
    ensures |e| == |excluded| + |included|
    ensures forall i :: 0 <= i < |excluded| ==> e[i] == (excluded[i], true)
    ensures forall i :: |excluded| <= i < |e| ==> e[i] == (included[i - |excluded|], false)
  {
    seq(|excluded|, i requires 0 <= i < |excluded| => (excluded[i], true))
      + seq(|included|, i requires 0 <= i < |included| => (included[i], false))
  }

  /** The tags of the entries on the row's contig that overlap it. */
  function TagHits(entries: seq<((string, Interval), bool)>, r: Row): set<bool>
  {
    set i | 0 <= i < |entries| && entries[i].0.0 == r.contig && Overlaps(entries[i].0.1, Span(r)) :: entries[i].1
  }

  predicate Touches(curated: seq<(string, Interval)>, r: Row)
  {
    exists i :: 0 <= i < |curated| && curated[i].0 == r.contig && Overlaps(curated[i].1, Span(r))
  }

  /** Each flag is set exactly when a curated interval of its kind overlaps the row. */
  lemma CuratedSpec(excluded: seq<(string, Interval)>, included: seq<(string, Interval)>, r: Row)
    ensures CuratedFlags(excluded, included, r).0 <==> Touches(excluded, r)
    ensures CuratedFlags(excluded, included, r).1 <==> Touches(included, r)
  {
    CuratedExcluded(excluded, included, r);
    CuratedIncluded(excluded, included, r);
  }

  lemma CuratedExcluded(excluded: seq<(string, Interval)>, included: seq<(string, Interval)>, r: Row)
    ensures true in TagHits(Tagged(excluded, included), r) <==> Touches(excluded, r)
  {
    var entries := Tagged(excluded, included);
    if Touches(excluded, r) {
      var i :| 0 <= i < |excluded| && excluded[i].0 == r.contig && Overlaps(excluded[i].1, Span(r));
      assert entries[i] == (excluded[i], true);
    }
    if true in TagHits(entries, r) {
      var i :| 0 <= i < |entries| && entries[i].0.0 == r.contig && Overlaps(entries[i].0.1, Span(r)) && entries[i].1;
      assert i < |excluded|;
    }
  }

  lemma CuratedIncluded(excluded: seq<(string, Interval)>, included: seq<(string, Interval)>, r: Row)
    ensures false in TagHits(Tagged(excluded, included), r) <==> Touches(included, r)
  {
    var entries := Tagged(excluded, included);
    if Touches(included, r) {
      var i :| 0 <= i < |included| && included[i].0 == r.contig && Overlaps(included[i].1, Span(r));
      assert entries[|excluded| + i] == (included[i], false);
    }
    if false in TagHits(entries, r) {
      var i :| 0 <= i < |entries| && entries[i].0.0 == r.contig && Overlaps(entries[i].0.1, Span(r)) && !entries[i].1;
      assert entries[i].0 == included[i - |excluded|];
    }
  }

  // ---------------------------------------------------------------------
  // Touching runs and neighbour distances (lines 246-294)

  /** A run of touching peaks: the merged span and its peaks in order. */
  datatype Run = Run(span: Interval, members: seq<Interval>)

  /** Lines 250-259: a peak joins the last run when it starts where that run ends. */
  function Runs(s: seq<Interval>): seq<Run>
  {
    if s == [] then [] else Absorb(Runs(s[..|s| - 1]), s[|s| - 1])
  }

  /** Lines 254-259 for one peak. */
  function Absorb(rs: seq<Run>, x: Interval): seq<Run>
  {
    if rs != [] && rs[|rs| - 1].span.end == x.start then
      var last := rs[|rs| - 1];
      rs[..|rs| - 1] + [Run(Interval(last.span.start, x.end), last.members + [x])]
    else rs + [Run(x, [x])]
  }

  /** The peaks of the runs, run after run. */
  function Flatten(rs: seq<Run>): seq<Interval>
  {
    if rs == [] then [] else Flatten(rs[..|rs| - 1]) + rs[|rs| - 1].members
  }

  /** `b` starts where `a` ends. */
  predicate Touch(a: Interval, b: Interval)
  {
    a.end == b.start
  }

  /** A run spans its peaks from the first start to the last end, each touching the next. */
  ghost predicate GoodRun(x: Run)
  {
    |x.members| > 0 &&
    x.span.start == x.members[0].start &&
    x.span.end == x.members[|x.members| - 1].end &&
    forall j, k {:trigger x.members[j], x.members[k]} :: 0 <= j < k < |x.members| && k == j + 1 ==> Touch(x.members[j], x.members[k])
  }

  /** Every run is good and no run's first peak touches the run before. */
  ghost predicate RunsGood(rs: seq<Run>)
  {
    (forall r :: 0 <= r < |rs| ==> GoodRun(rs[r])) &&
    forall q, r {:trigger rs[q], rs[r]} :: 0 <= q < r < |rs| && r == q + 1 ==> !Touch(rs[q].span, rs[r].members[0])
  }

  lemma FlattenSnoc(rs: seq<Run>, x: Run)
    ensures Flatten(rs + [x]) == Flatten(rs) + x.members
  {
    assert (rs + [x])[..|rs|] == rs;
  }

  /** A peak that touches the last run extends it. */
  lemma RunsMerge(rs: seq<Run>, x: Interval)
    requires rs != [] && RunsGood(rs) && rs[|rs| - 1].span.end == x.start
    ensures var m := |rs| - 1;
      var out := rs[..m] + [Run(Interval(rs[m].span.start, x.end), rs[m].members + [x])];
      RunsGood(out) && Flatten(out) == Flatten(rs) + [x]
  {
    var m := |rs| - 1;
    var last := rs[m];
    var merged := Run(Interval(last.span.start, x.end), last.members + [x]);
    var out := rs[..m] + [merged];
    assert rs == rs[..m] + [last];
    FlattenSnoc(rs[..m], last);
    FlattenSnoc(rs[..m], merged);
    assert GoodRun(merged) by {
      forall j, k | 0 <= j < k < |merged.members| && k == j + 1 ensures Touch(merged.members[j], merged.members[k]) {
        if k < |last.members| {
          assert merged.members[j] == last.members[j] && merged.members[k] == last.members[k];
        }
      }
    }
    forall r | 0 <= r < |out| ensures GoodRun(out[r]) {
      if r < m {
        assert out[r] == rs[r];
      }
    }
    forall q, r | 0 <= q < r < |out| && r == q + 1 ensures !Touch(out[q].span, out[r].members[0]) {
      assert out[q] == rs[q] && out[r].members[0] == rs[r].members[0];
    }
  }

  /** A peak that does not touch the last run starts a new one. */
  lemma RunsFresh(rs: seq<Run>, x: Interval)
    requires RunsGood(rs) && (rs != [] ==> rs[|rs| - 1].span.end != x.start)
    ensures RunsGood(rs + [Run(x, [x])]) && Flatten(rs + [Run(x, [x])]) == Flatten(rs) + [x]
  {
    var out := rs + [Run(x, [x])];
    FlattenSnoc(rs, Run(x, [x]));
    forall r | 0 <= r < |out| ensures GoodRun(out[r]) {
      if r < |rs| {
        assert out[r] == rs[r];
      }
    }
    forall q, r | 0 <= q < r < |out| && r == q + 1 ensures !Touch(out[q].span, out[r].members[0]) {
      if r < |rs| {
        assert out[q] == rs[q] && out[r] == rs[r];
      }
    }
  }

  /**
   * The runs cut the sorted peaks into maximal touching stretches: read in
   * order they give back the peaks, peaks inside a run touch, and
   * consecutive runs do not.
   */
  lemma {:induction false} RunsSpec(s: seq<Interval>)
    ensures Flatten(Runs(s)) == s
    ensures RunsGood(Runs(s))
  {
    if s != [] {
      var n := |s| - 1;
      var rs := Runs(s[..n]);
      RunsSpec(s[..n]);
      assert s == s[..n] + [s[n]];
      if rs != [] && rs[|rs| - 1].span.end == s[n].start {
        RunsMerge(rs, s[n]);
      } else {
        RunsFresh(rs, s[n]);
      }
    }
  }

  /** Lines 262-265 and 267-275: what the row of a peak receives. */
  datatype Neighbour = Neighbour(merged: int, left: int, right: int)

  /** Lines 268-269: the distance to the run before, -1 for the first run. */
  function LeftGap(rs: seq<Run>, r: int): int
    requires 0 <= r < |rs|
  {
    if r == 0 then -1 else rs[r].span.start - rs[r - 1].span.end
  }

  /** Lines 268-269: the distance to the run after, -1 for the last run. */
  function RightGap(rs: seq<Run>, r: int): int
    requires 0 <= r < |rs|
  {
    if r == |rs| - 1 then -1 else rs[r + 1].span.start - rs[r].span.end
  }

  /** Lines 270-274: the entries written for the peaks of run `r`. */
  function Labels(rs: seq<Run>, r: int): (es: seq<(Interval, Neighbour)>)
    requires 0 <= r < |rs|
    ensures |es| == |rs[r].members|
    ensures forall k :: 0 <= k < |es| ==>
      es[k] == (rs[r].members[k], Neighbour(rs[r].span.Len(), LeftGap(rs, r), RightGap(rs, r)))
  {
    var v := Neighbour(rs[r].span.Len(), LeftGap(rs, r), RightGap(rs, r));
    seq(|rs[r].members|, k requires 0 <= k < |rs[r].members| => (rs[r].members[k], v))
  }

  /** The entries of the first `n` runs, in the order the loops write them. */
  function Entries(rs: seq<Run>, n: int): seq<(Interval, Neighbour)>
    requires 0 <= n <= |rs|
  {
    if n == 0 then [] else Entries(rs, n - 1) + Labels(rs, n - 1)
  }

  function EntryKeys(es: seq<(Interval, Neighbour)>): (r: seq<Interval>)
    ensures |r| == |es| && forall i :: 0 <= i < |es| ==> r[i] == es[i].0
  {
    seq(|es|, i requires 0 <= i < |es| => es[i].0)
  }

  /** The entries are keyed by the peaks of the runs, in order. */
  lemma {:induction false} EntriesKeys(rs: seq<Run>, n: int)
    requires 0 <= n <= |rs|
    ensures EntryKeys(Entries(rs, n)) == Flatten(rs[..n])
  {
    if n > 0 {
      EntriesKeys(rs, n - 1);
      assert rs[..n][..n - 1] == rs[..n - 1];
      assert EntryKeys(Entries(rs, n)) == EntryKeys(Entries(rs, n - 1)) + rs[n - 1].members;
    }
  }

  /** Every peak's entry is among the entries of the runs up to and including its own. */
  lemma {:induction false} EntriesHave(rs: seq<Run>, n: int, r: int, k: int)
    requires 0 <= r < n <= |rs| && 0 <= k < |rs[r].members|
    ensures Labels(rs, r)[k] in Entries(rs, n)
  {
    if r < n - 1 {
      EntriesHave(rs, n - 1, r, k);
    } else {
      assert Entries(rs, n)[|Entries(rs, n - 1)| + k] == Labels(rs, r)[k];
    }
  }

  /**
   * Lines 270-274 as a dictionary: entries are written in order, and a
   * peak written twice fails the assertion of line 272.
   */
  function Table(es: seq<(Interval, Neighbour)>): (t: Result<map<Interval, Neighbour>>)
    ensures t.Err? ==> t.error == AssertionError
  {
    if es == [] then Ok(map[])
    else
      var n := |es| - 1;
      var t := Table(es[..n]);
      if t.Err? then t
      else if es[n].0 in t.value then Err(AssertionError)
      else Ok(t.value[es[n].0 := es[n].1])
  }

  /** The table is built exactly when no peak is written twice. */
  lemma TableOk(es: seq<(Interval, Neighbour)>)
    ensures Table(es).Ok? <==> Distinct(EntryKeys(es))
  {
    if Distinct(EntryKeys(es)) {
      DistinctTableOk(es);
    }
    if Table(es).Ok? {
      TableOkDistinct(es);
    }
  }

  lemma {:induction false} DistinctTableOk(es: seq<(Interval, Neighbour)>)
    requires Distinct(EntryKeys(es))
    ensures Table(es).Ok?
  {
    if es != [] {
      var n := |es| - 1;
      var front := es[..n];
      var ks := EntryKeys(es);
      assert EntryKeys(front) == ks[..n];
      DistinctTableOk(front);
      TableOnly(front);
      forall i | 0 <= i < n ensures ks[..n][i] != es[n].0 {
        assert ks[i] != ks[n];
      }
    }
  }

  lemma {:induction false} TableOkDistinct(es: seq<(Interval, Neighbour)>)
    requires Table(es).Ok?
    ensures Distinct(EntryKeys(es))
  {
    if es != [] {
      var n := |es| - 1;
      var front := es[..n];
      var ks := EntryKeys(es);
      assert EntryKeys(front) == ks[..n];
      TableOkDistinct(front);
      TableHas(front);
      forall i, j | 0 <= i < j < |ks| ensures ks[i] != ks[j] {
        if j == n {
          assert front[i].0 in Table(front).value;
        } else {
          assert ks[..n][i] == ks[i] && ks[..n][j] == ks[j];
        }
      }
    }
  }

  /** A built table holds every entry. */
  lemma {:induction false} TableHas(es: seq<(Interval, Neighbour)>)
    ensures Table(es).Ok? ==> forall i :: 0 <= i < |es| ==> es[i].0 in Table(es).value && Table(es).value[es[i].0] == es[i].1
  {
    if es != [] {
      var n := |es| - 1;
      var front := es[..n];
      TableHas(front);
      if Table(es).Ok? {
        forall i | 0 <= i < n ensures es[i].0 in Table(es).value && Table(es).value[es[i].0] == es[i].1 {
          assert front[i] == es[i];
          assert es[i].0 in Table(front).value;
        }
      }
    }
  }

  /** A built table holds nothing but the entries. */
  lemma {:induction false} TableOnly(es: seq<(Interval, Neighbour)>)
    ensures Table(es).Ok? ==> forall k :: k in Table(es).value ==> k in EntryKeys(es)
  {
    if es != [] {
      var n := |es| - 1;
      var front := es[..n];
      TableOnly(front);
      var ks := EntryKeys(es);
      assert EntryKeys(front) == ks[..n];
      if Table(es).Ok? {
        forall k | k in Table(es).value ensures k in ks {
          if k != es[n].0 {
            assert k in ks[..n];
          }
        }
      }
    }
  }

  /**
   * The table is built exactly when no peak is written twice, and then
   * holds every entry and nothing else.
   */
  lemma TableSpec(es: seq<(Interval, Neighbour)>)
    ensures Table(es).Ok? <==> Distinct(EntryKeys(es))
    ensures Table(es).Ok? ==> forall i :: 0 <= i < |es| ==> es[i].0 in Table(es).value && Table(es).value[es[i].0] == es[i].1
    ensures Table(es).Ok? ==> forall k :: k in Table(es).value ==> k in EntryKeys(es)
  {
    TableOk(es);
    TableHas(es);
    TableOnly(es);
  }

  /** Lines 248-275 for the peaks of one contig and orientation. */
  function NeighbourTable(peaks: seq<Interval>): Result<map<Interval, Neighbour>>
  {
    var rs := Runs(SortByStart(peaks));
    Table(Entries(rs, |rs|))
  }

  /** The table fails exactly when a peak is listed twice. */
  lemma NeighbourErr(peaks: seq<Interval>)
    ensures NeighbourTable(peaks).Err? <==> !Distinct(peaks)
  {
    var sorted := SortByStart(peaks);
    var rs := Runs(sorted);
    NeighbourEntryKeys(peaks);
    TableSpec(Entries(rs, |rs|));
    DistinctCounts(peaks);
    DistinctCounts(sorted);
  }

  lemma RunsFlatten(s: seq<Interval>)
    ensures Flatten(Runs(s)) == s
  {
    RunsSpec(s);
  }

  /** The entries of a group are keyed by its sorted peaks. */
  lemma NeighbourEntryKeys(peaks: seq<Interval>)
    ensures var rs := Runs(SortByStart(peaks));
      EntryKeys(Entries(rs, |rs|)) == SortByStart(peaks)
  {
    var rs := Runs(SortByStart(peaks));
    RunsFlatten(SortByStart(peaks));
    EntriesKeys(rs, |rs|);
    assert rs[..|rs|] == rs;
  }

  /** A table holds the peaks and nothing else. */
  lemma NeighbourKeys(peaks: seq<Interval>)
    ensures NeighbourTable(peaks).Ok? ==> NeighbourTable(peaks).value.Keys == set x | x in peaks
  {
    var sorted := SortByStart(peaks);
    var rs := Runs(sorted);
    var es := Entries(rs, |rs|);
    NeighbourEntryKeys(peaks);
    var ks := EntryKeys(es);
    TableSpec(es);
    if Table(es).Ok? {
      var t := Table(es).value;
      forall x | x in peaks ensures x in t {
        assert x in ks;
        var i :| 0 <= i < |ks| && ks[i] == x;
        assert es[i].0 == x;
      }
      forall x | x in t ensures x in peaks {
        assert x in ks;
      }
    }
  }

  /**
   * A table maps each peak to the length of its touching run and that
   * run's distances to its neighbours.
   */
  lemma NeighbourAt(peaks: seq<Interval>, r: int, k: int)
    requires 0 <= r < |Runs(SortByStart(peaks))| && 0 <= k < |Runs(SortByStart(peaks))[r].members|
    ensures NeighbourTable(peaks).Ok? ==>
      var rs := Runs(SortByStart(peaks));
      rs[r].members[k] in NeighbourTable(peaks).value &&
      NeighbourTable(peaks).value[rs[r].members[k]] == Neighbour(rs[r].span.Len(), LeftGap(rs, r), RightGap(rs, r))
  {
    var rs := Runs(SortByStart(peaks));
    TableSpec(Entries(rs, |rs|));
    EntriesHave(rs, |rs|, r, k);
  }

  /** Lines 254-259: one peak extends the last merged span or starts a new one. */
  method MergeStep(ghost rs: seq<Run>, merged: seq<Interval>, coordinates: seq<seq<Interval>>, x: Interval)
    returns (merged': seq<Interval>, coordinates': seq<seq<Interval>>)
    requires Zipped(rs, merged, coordinates)
    ensures Zipped(Absorb(rs, x), merged', coordinates')
  {
    if |merged| > 0 && merged[|merged| - 1].end == x.start {
      var m := |merged| - 1;
      assert rs[m] == Run(merged[m], coordinates[m]);
      merged' := merged[m := Interval(merged[m].start, x.end)];
      coordinates' := coordinates[m := coordinates[m] + [x]];
      ghost var out := Absorb(rs, x);
      assert out[m] == Run(merged'[m], coordinates'[m]);
      forall j | 0 <= j < m ensures out[j] == Run(merged'[j], coordinates'[j]) {
        assert out[j] == rs[j];
      }
    } else {
      merged' := merged + [x];
      coordinates' := coordinates + [[x]];
      ghost var out := Absorb(rs, x);
      forall j | 0 <= j < |rs| ensures out[j] == Run(merged'[j], coordinates'[j]) {
        assert out[j] == rs[j];
      }
    }
  }

  /** Lines 250-259: the merged spans and the peaks of each, as two parallel lists. */
  method MergeTouching(s: seq<Interval>) returns (merged: seq<Interval>, coordinates: seq<seq<Interval>>)
    ensures Zipped(Runs(s), merged, coordinates)
  {
    merged, coordinates := [], [];
    for i := 0 to |s|
      invariant Zipped(Runs(s[..i]), merged, coordinates)
    {
      assert s[..i + 1][..i] == s[..i];
      merged, coordinates := MergeStep(Runs(s[..i]), merged, coordinates, s[i]);
    }
    assert s[..|s|] == s;
  }

  lemma TableSnoc(es: seq<(Interval, Neighbour)>, e: (Interval, Neighbour))
    ensures Table(es + [e]) ==
      if Table(es).Err? then Table(es)
      else if e.0 in Table(es).value then Err(AssertionError)
      else Ok(Table(es).value[e.0 := e.1])
  {
    assert (es + [e])[..|es|] == es;
  }

  lemma {:induction false} TablePrefixErr(es: seq<(Interval, Neighbour)>, more: seq<(Interval, Neighbour)>)
    requires Table(es).Err?
    ensures Table(es + more).Err?
  {
    if more != [] {
      var n := |more| - 1;
      TablePrefixErr(es, more[..n]);
      assert es + more == (es + more[..n]) + [more[n]];
      TableSnoc(es + more[..n], more[n]);
    } else {
      assert es + more == es;
    }
  }

  /** Lines 267-268: -1, the gaps between consecutive merged spans, -1. */
  function Distances(merged: seq<Interval>): (d: seq<int>)
    ensures |d| == (if merged == [] then 2 else |merged| + 1) && d[0] == -1 && d[|merged|] == -1
    ensures forall j :: 0 < j < |merged| ==> d[j] == merged[j].start - merged[j - 1].end
  {
    var gaps := if |merged| > 0 then seq(|merged| - 1, j requires 0 <= j < |merged| - 1 => merged[j + 1].start - merged[j].end) else [];
    var d := [-1] + gaps + [-1];
    assert forall j :: 0 < j < |merged| ==> d[j] == gaps[j - 1];
    d
  }

  /** Writing one more entry: it is added, or it was there and the table fails. */
  lemma WriteStep(pre: seq<(Interval, Neighbour)>, labels: seq<(Interval, Neighbour)>, k: int, t: map<Interval, Neighbour>)
    requires 0 <= k < |labels| && Table(pre + labels[..k]) == Ok(t)
    ensures labels[k].0 !in t ==> Table(pre + labels[..k + 1]) == Ok(t[labels[k].0 := labels[k].1])
    ensures labels[k].0 in t ==> Table(pre + labels).Err?
  {
    var front, next := pre + labels[..k], pre + labels[..k + 1];
    assert next == front + [labels[k]];
    TableSnoc(front, labels[k]);
    if labels[k].0 in t {
      TablePrefixErr(next, labels[k + 1..]);
      SplitAt(pre, labels, k + 1);
    }
  }

  /** Cutting the written entries at `k` and joining them again. */
  lemma SplitAt(pre: seq<(Interval, Neighbour)>, labels: seq<(Interval, Neighbour)>, k: int)
    requires 0 <= k <= |labels|
    ensures (pre + labels[..k]) + labels[k..] == pre + labels
  {
    assert labels[..k] + labels[k..] == labels;
  }

  /** Lines 271-274 for the peaks of run `ind`. */
  method WriteRun(ghost rs: seq<Run>, ind: int, coords: seq<Interval>, v: Neighbour, table: map<Interval, Neighbour>)
    returns (res: Result<map<Interval, Neighbour>>)
    requires 0 <= ind < |rs| && coords == rs[ind].members
    requires v == Neighbour(rs[ind].span.Len(), LeftGap(rs, ind), RightGap(rs, ind))
    requires Table(Entries(rs, ind)) == Ok(table)
    ensures res == Table(Entries(rs, ind + 1))
  {
    ghost var pre, labels := Entries(rs, ind), Labels(rs, ind);
    assert Entries(rs, ind + 1) == pre + labels;
    var t := table;
    assert pre + labels[..0] == pre;
    for k := 0 to |coords|
      invariant Table(pre + labels[..k]) == Ok(t)
    {
      var c := coords[k];
      assert labels[k] == (c, v);
      WriteStep(pre, labels, k, t);
      if c in t {
        return Err(AssertionError);
      }
      t := t[c := v];
    }
    assert labels[..|labels|] == labels;
    res := Ok(t);
  }

  /** The distances of lines 267-268 are the gaps of the runs. */
  lemma DistancesGaps(rs: seq<Run>, merged: seq<Interval>, ind: int)
    requires |merged| == |rs| && forall j :: 0 <= j < |rs| ==> rs[j].span == merged[j]
    requires 0 <= ind < |rs|
    ensures Distances(merged)[ind] == LeftGap(rs, ind) && Distances(merged)[ind + 1] == RightGap(rs, ind)
  {
    var d := Distances(merged);
    assert rs[ind].span == merged[ind];
    if ind > 0 {
      assert rs[ind - 1].span == merged[ind - 1];
      assert d[ind] == merged[ind].start - merged[ind - 1].end;
    }
    if ind + 1 < |rs| {
      assert rs[ind + 1].span == merged[ind + 1];
      assert d[ind + 1] == merged[ind + 1].start - merged[ind].end;
    }
  }

  /** A run that fails the table fails it for good. */
  lemma EntriesErr(rs: seq<Run>, n: int)
    requires 0 <= n <= |rs| && Table(Entries(rs, n)).Err?
    ensures Table(Entries(rs, |rs|)) == Err(AssertionError)
  {
    TablePrefixErr(Entries(rs, n), Concat(rs, n));
    ConcatAll(rs, n);
  }

  /** The parallel lists of lines 251-252 hold the runs. */
  predicate Zipped(rs: seq<Run>, merged: seq<Interval>, coordinates: seq<seq<Interval>>)
  {
    |merged| == |coordinates| == |rs| && forall j :: 0 <= j < |rs| ==> rs[j] == Run(merged[j], coordinates[j])
  }

  /** Lines 270-274 for run `ind`, with its distances. */
  method JobStep(ghost rs: seq<Run>, ind: int, merged: seq<Interval>, coordinates: seq<seq<Interval>>,
                 distances: seq<int>, table: map<Interval, Neighbour>) returns (res: Result<map<Interval, Neighbour>>)
    requires Zipped(rs, merged, coordinates) && distances == Distances(merged)
    requires 0 <= ind < |rs| && Table(Entries(rs, ind)) == Ok(table)
    ensures res == Table(Entries(rs, ind + 1))
  {
    DistancesGaps(rs, merged, ind);
    var v := Neighbour(merged[ind].end - merged[ind].start, distances[ind], distances[ind + 1]);
    res := WriteRun(rs, ind, coordinates[ind], v, table);
  }

  /** Lines 248-275 for the peaks of one contig and orientation. */
  method NeighbourJob(peaks: seq<Interval>) returns (t: Result<map<Interval, Neighbour>>)
    ensures t == NeighbourTable(peaks)
  {
    var sorted := SortByStart(peaks);
    var merged, coordinates := MergeTouching(sorted);
    t := TableOf(Runs(sorted), merged, coordinates);
  }

  /** Lines 268-275: the table of the runs held in the parallel lists. */
  method TableOf(ghost rs: seq<Run>, merged: seq<Interval>, coordinates: seq<seq<Interval>>)
    returns (t: Result<map<Interval, Neighbour>>)
    requires Zipped(rs, merged, coordinates)
    ensures t == Table(Entries(rs, |rs|))
  {
    var distances := Distances(merged);
    var table: map<Interval, Neighbour> := map[];
    for ind := 0 to |coordinates|
      invariant Table(Entries(rs, ind)) == Ok(table)
    {
      var res := JobStep(rs, ind, merged, coordinates, distances, table);
      if res.Err? {
        EntriesErr(rs, ind + 1);
        return Err(AssertionError);
      }
      table := res.value;
    }
    t := Ok(table);
  }

  /** The entries of the runs from `n` on. */
  function Concat(rs: seq<Run>, n: int): seq<(Interval, Neighbour)>
    requires 0 <= n <= |rs|
    decreases |rs| - n
  {
    if n == |rs| then [] else Labels(rs, n) + Concat(rs, n + 1)
  }

  lemma {:induction false} ConcatAll(rs: seq<Run>, n: int)
    requires 0 <= n <= |rs|
    ensures Entries(rs, n) + Concat(rs, n) == Entries(rs, |rs|)
    decreases |rs| - n
  {
    if n < |rs| {
      ConcatAll(rs, n + 1);
      var e, l, c := Entries(rs, n), Labels(rs, n), Concat(rs, n + 1);
      assert Concat(rs, n) == l + c;
      assert Entries(rs, n + 1) == e + l;
      ConcatAssoc(e, l, c);
    }
  }

  function KeyOf(r: Row): (string, Strand)
  {
    (r.contig, r.orientation)
  }

  /** Line 279: the peaks of the rows with this contig and orientation, in row order. */
  function GroupPeaks(rows: seq<Row>, key: (string, Strand)): seq<Interval>
  {
    if rows == [] then []
    else
      var n := |rows| - 1;
      GroupPeaks(rows[..n], key) + (if KeyOf(rows[n]) == key then [Span(rows[n])] else [])
  }

  lemma {:induction false} GroupMember(rows: seq<Row>, key: (string, Strand), x: Interval)
    ensures x in GroupPeaks(rows, key) <==> exists j :: 0 <= j < |rows| && KeyOf(rows[j]) == key && Span(rows[j]) == x
  {
    if rows != [] {
      var n := |rows| - 1;
      GroupMember(rows[..n], key, x);
      if exists j :: 0 <= j < |rows| && KeyOf(rows[j]) == key && Span(rows[j]) == x {
        var j :| 0 <= j < |rows| && KeyOf(rows[j]) == key && Span(rows[j]) == x;
        if j < n {
          assert rows[..n][j] == rows[j];
        }
      }
    }
  }

  /** No row with this contig and orientation is repeated. */
  predicate NoRepeat(rows: seq<Row>, key: (string, Strand))
  {
    forall i, j :: 0 <= i < j < |rows| && rows[i] == rows[j] ==> KeyOf(rows[i]) != key
  }

  /** A group lists a peak twice exactly when a row of it is repeated. */
  lemma {:induction false} GroupDistinct(rows: seq<Row>, key: (string, Strand))
    ensures Distinct(GroupPeaks(rows, key)) <==> NoRepeat(rows, key)
  {
    if rows != [] {
      var n := |rows| - 1;
      var front := rows[..n];
      GroupDistinct(front, key);
      var g := GroupPeaks(front, key);
      var x := rows[n];
      GroupMember(front, key, Span(x));
      if KeyOf(x) == key {
        if Distinct(g + [Span(x)]) {
          assert Distinct(g) by {
            forall i, j | 0 <= i < j < |g| ensures g[i] != g[j] {
              assert (g + [Span(x)])[i] == g[i] && (g + [Span(x)])[j] == g[j];
            }
          }
          forall i | 0 <= i < |g| ensures g[i] != Span(x) {
            assert (g + [Span(x)])[i] == g[i] && (g + [Span(x)])[|g|] == Span(x);
          }
          forall i, j | 0 <= i < j < |rows| && rows[i] == rows[j] ensures KeyOf(rows[i]) != key {
            assert front[i] == rows[i];
            if j < n {
              assert front[j] == rows[j];
            }
          }
        }
        if NoRepeat(rows, key) {
          assert NoRepeat(front, key);
          assert Span(x) !in g;
          forall i, j | 0 <= i < j < |g| + 1 ensures (g + [Span(x)])[i] != (g + [Span(x)])[j] {
            if j < |g| {
              assert (g + [Span(x)])[i] == g[i] && (g + [Span(x)])[j] == g[j];
            } else {
              assert (g + [Span(x)])[i] == g[i];
            }
          }
        }
      } else {
        assert GroupPeaks(rows, key) == g;
        if NoRepeat(front, key) {
          forall i, j | 0 <= i < j < |rows| && rows[i] == rows[j] ensures KeyOf(rows[i]) != key {
            if j < n {
              assert front[i] == rows[i] && front[j] == rows[j];
            }
          }
        }
        if NoRepeat(rows, key) {
          forall i, j | 0 <= i < j < n && front[i] == front[j] ensures KeyOf(front[i]) != key {
            assert rows[i] == front[i] && rows[j] == front[j];
          }
        }
      }
    }
  }

  /** The table of a row's group holds the row's peak. */
  lemma GroupHas(rows: seq<Row>, i: int)
    requires 0 <= i < |rows|
    ensures NeighbourTable(GroupPeaks(rows, KeyOf(rows[i]))).Ok? ==> Span(rows[i]) in NeighbourTable(GroupPeaks(rows, KeyOf(rows[i]))).value
  {
    GroupMember(rows, KeyOf(rows[i]), Span(rows[i]));
    NeighbourKeys(GroupPeaks(rows, KeyOf(rows[i])));
  }

  /** Lines 287-289: one row's entry of its group's table. */
  function Lookup(rows: seq<Row>, i: int): Neighbour
    requires 0 <= i < |rows| && NeighbourTable(GroupPeaks(rows, KeyOf(rows[i]))).Ok?
  {
    GroupHas(rows, i);
    NeighbourTable(GroupPeaks(rows, KeyOf(rows[i]))).value[Span(rows[i])]
  }

  /** Lines 277-291: the three columns, one entry per row. */
  function NeighbourColumn(rows: seq<Row>): Result<seq<Neighbour>>
  {
    if exists i :: 0 <= i < |rows| && NeighbourTable(GroupPeaks(rows, KeyOf(rows[i]))).Err? then Err(AssertionError)
    else Ok(seq(|rows|, i requires 0 <= i < |rows| && NeighbourTable(GroupPeaks(rows, KeyOf(rows[i]))).Ok? => Lookup(rows, i)))
  }

  /** The columns fail exactly when some row of the table is repeated. */
  lemma NeighbourColumnErr(rows: seq<Row>)
    ensures NeighbourColumn(rows).Err? <==> exists i, j :: 0 <= i < j < |rows| && rows[i] == rows[j]
  {
    if exists i, j :: 0 <= i < j < |rows| && rows[i] == rows[j] {
      var i, j :| 0 <= i < j < |rows| && rows[i] == rows[j];
      GroupDistinct(rows, KeyOf(rows[i]));
      NeighbourErr(GroupPeaks(rows, KeyOf(rows[i])));
    }
    if NeighbourColumn(rows).Err? {
      var i :| 0 <= i < |rows| && NeighbourTable(GroupPeaks(rows, KeyOf(rows[i]))).Err?;
      GroupDistinct(rows, KeyOf(rows[i]));
      NeighbourErr(GroupPeaks(rows, KeyOf(rows[i])));
    }
  }

  /**
   * Each row receives the merged length and neighbour distances of the
   * touching run its peak belongs to among the peaks of its contig and
   * orientation.
   */
  lemma NeighbourColumnAt(rows: seq<Row>, i: int)
    requires 0 <= i < |rows| && NeighbourColumn(rows).Ok?
    ensures var rs := Runs(SortByStart(GroupPeaks(rows, KeyOf(rows[i]))));
      exists r, k :: 0 <= r < |rs| && 0 <= k < |rs[r].members| && rs[r].members[k] == Span(rows[i]) &&
        NeighbourColumn(rows).value[i] == Neighbour(rs[r].span.Len(), LeftGap(rs, r), RightGap(rs, r))
  {
    var g := GroupPeaks(rows, KeyOf(rows[i]));
    var sorted := SortByStart(g);
    var rs := Runs(sorted);
    GroupMember(rows, KeyOf(rows[i]), Span(rows[i]));
    RunsFlatten(sorted);
    assert Span(rows[i]) in sorted;
    var r, k := FindMember(rs, Span(rows[i]));
    NeighbourAt(g, r, k);
  }

  /** A peak of the flattened runs sits in some run. */
  lemma {:induction false} FindMember(rs: seq<Run>, x: Interval) returns (r: int, k: int)
    requires x in Flatten(rs)
    ensures 0 <= r < |rs| && 0 <= k < |rs[r].members| && rs[r].members[k] == x
  {
    var n := |rs| - 1;
    if x in rs[n].members {
      k :| 0 <= k < |rs[n].members| && rs[n].members[k] == x;
      r := n;
    } else {
      r, k := FindMember(rs[..n], x);
    }
  }

  // ---------------------------------------------------------------------
  // dsRNA overlap (lines 297-332)

  /** Lines 303-306: the blocks of all repeats, repeat after repeat. */
  function Blocks(repeats: seq<InvRepeats.InvRepeat>): seq<Interval>
  {
    if repeats == [] then [] else Blocks(repeats[..|repeats| - 1]) + InvRepeats.SeqRanges(repeats[|repeats| - 1])
  }

  /**
   * Lines 310-313: the largest overlap of the peak with a block, 0 when no
   * block overlaps it.
   */
  function Individual(blocks: seq<Interval>, peak: Interval): int
  {
    if blocks == [] then 0
    else
      var n := |blocks| - 1;
      var m := Individual(blocks[..n], peak);
      if Overlaps(blocks[n], peak) then Max(m, OverlapLen(blocks[n], peak)) else m
  }

  /**
   * The value is the largest overlap with an overlapping block: at least
   * each of them, attained by one, 0 exactly when none overlaps, and never
   * more than the peak's length.
   */
  lemma {:induction false} IndividualSpec(blocks: seq<Interval>, peak: Interval)
    ensures 0 <= Individual(blocks, peak)
    ensures forall i :: 0 <= i < |blocks| && Overlaps(blocks[i], peak) ==> OverlapLen(blocks[i], peak) <= Individual(blocks, peak)
    ensures Individual(blocks, peak) > 0 ==>
      exists i :: 0 <= i < |blocks| && Overlaps(blocks[i], peak) && OverlapLen(blocks[i], peak) == Individual(blocks, peak)
    ensures Individual(blocks, peak) == 0 <==> !AnyOverlap(blocks, peak)
    ensures Individual(blocks, peak) <= Max(peak.Len(), 0)
  {
    if blocks != [] {
      var n := |blocks| - 1;
      IndividualSpec(blocks[..n], peak);
      assert forall i :: 0 <= i < n ==> blocks[i] == blocks[..n][i];
    }
  }

  /** Line 313: the `max` over the overlapping blocks, one block at a time. */
  method IndividualOf(blocks: seq<Interval>, peak: Interval) returns (best: int)
    ensures best == Individual(blocks, peak)
  {
    best := 0;
    for i := 0 to |blocks|
      invariant best == Individual(blocks[..i], peak)
    {
      assert blocks[..i + 1][..i] == blocks[..i];
      if Overlaps(blocks[i], peak) {
        best := Max(best, OverlapLen(blocks[i], peak));
      }
    }
    assert blocks[..|blocks|] == blocks;
  }

  /**
   * Lines 300-314 for the peaks of one contig and orientation: a record for
   * each peak some block overlaps, holding its largest overlap.
   */
  method DsRnaJob(repeats: seq<InvRepeats.InvRepeat>, peaks: seq<Interval>) returns (records: map<Interval, int>)
    ensures forall p :: p in records <==> p in peaks && AnyOverlap(Blocks(repeats), p)
    ensures forall p :: p in records ==> records[p] == Individual(Blocks(repeats), p) > 0
  {
    var blocks := Blocks(repeats);
    records := map[];
    for i := 0 to |peaks|
      invariant forall p :: p in records <==> p in peaks[..i] && AnyOverlap(blocks, p)
      invariant forall p :: p in records ==> records[p] == Individual(blocks, p) > 0
    {
      assert peaks[..i + 1] == peaks[..i] + [peaks[i]];
      var best := IndividualOf(blocks, peaks[i]);
      IndividualSpec(blocks, peaks[i]);
      if best > 0 {
        records := records[peaks[i] := best];
      }
    }
    assert peaks[..|peaks|] == peaks;
  }

  /**
   * Lines 316-329: each row's largest overlap with the blocks of the
   * repeats of its contig and orientation, 0 when there are none.
   */
  function DsRnaColumn(dsRNAs: map<(string, Strand), seq<InvRepeats.InvRepeat>>, rows: seq<Row>): (col: seq<int>)
    ensures |col| == |rows|
    ensures forall i :: 0 <= i < |rows| ==> 0 <= col[i] <= Max(Span(rows[i]).Len(), 0)
    ensures forall i :: 0 <= i < |rows| && KeyOf(rows[i]) !in dsRNAs ==> col[i] == 0
    ensures forall i :: 0 <= i < |rows| ==>
      (col[i] > 0 <==> KeyOf(rows[i]) in dsRNAs && AnyOverlap(Blocks(dsRNAs[KeyOf(rows[i])]), Span(rows[i])))
  {
    seq(|rows|, i requires 0 <= i < |rows| => DsRnaAt(dsRNAs, rows[i]))
  }

  /** Line 327 for one row. */
  function DsRnaAt(dsRNAs: map<(string, Strand), seq<InvRepeats.InvRepeat>>, r: Row): (v: int)
    ensures 0 <= v <= Max(Span(r).Len(), 0)
    ensures KeyOf(r) !in dsRNAs ==> v == 0
    ensures v > 0 <==> KeyOf(r) in dsRNAs && AnyOverlap(Blocks(dsRNAs[KeyOf(r)]), Span(r))
  {
    if KeyOf(r) in dsRNAs then
      IndividualSpec(Blocks(dsRNAs[KeyOf(r)]), Span(r));
      Individual(Blocks(dsRNAs[KeyOf(r)]), Span(r))
    else 0
  }

  // ---------------------------------------------------------------------
  // Editing sites (lines 126-153)

  /** A putative or detected editing site. */
  datatype Site = Site(contig: string, orientation: Strand, start: int, end: int)

  /** Lines 131-141: the distinct sites of one contig and orientation. */
  function SiteSet(sites: seq<Site>, key: (string, Strand)): set<Interval>
  {
    set i | 0 <= i < |sites| && (sites[i].contig, sites[i].orientation) == key :: Interval(sites[i].start, sites[i].end)
  }

  /** Lines 148-150: the distinct sites of the row's contig and orientation that overlap it. */
  function SiteHits(sites: seq<Site>, r: Row): set<Interval>
  {
    set x | x in SiteSet(sites, KeyOf(r)) && Overlaps(x, Span(r))
  }

  /**
   * A row counts no site exactly when no site record of its contig and
   * orientation overlaps it, and never more than there are such records.
   */
  lemma SiteHitsSpec(sites: seq<Site>, r: Row)
    ensures |SiteHits(sites, r)| == 0 <==>
      forall i :: 0 <= i < |sites| && KeyOf(r) == (sites[i].contig, sites[i].orientation) ==>
        !Overlaps(Interval(sites[i].start, sites[i].end), Span(r))
    ensures |SiteHits(sites, r)| <= |sites|
  {
    var hits := SiteHits(sites, r);
    if hits == {} {
      forall i | 0 <= i < |sites| && KeyOf(r) == (sites[i].contig, sites[i].orientation)
        ensures !Overlaps(Interval(sites[i].start, sites[i].end), Span(r))
      {
        var x := Interval(sites[i].start, sites[i].end);
        assert x in SiteSet(sites, KeyOf(r));
        assert x !in hits;
      }
    } else {
      var x :| x in hits;
    }
    var all := set i | 0 <= i < |sites| :: Interval(sites[i].start, sites[i].end);
    assert hits <= all;
    SetSizeBound(sites);
    SubsetCard(hits, all);
  }

  /** A set built from the records has at most as many elements as records. */
  lemma {:induction false} SetSizeBound(sites: seq<Site>)
    ensures |set i | 0 <= i < |sites| :: Interval(sites[i].start, sites[i].end)| <= |sites|
  {
    if sites != [] {
      var n := |sites| - 1;
      SetSizeBound(sites[..n]);
      var front := set i | 0 <= i < n :: Interval(sites[..n][i].start, sites[..n][i].end);
      var all := set i | 0 <= i < |sites| :: Interval(sites[i].start, sites[i].end);
      assert all == front + {Interval(sites[n].start, sites[n].end)};
    }
  }

  lemma SubsetCard<T>(a: set<T>, b: set<T>)
    requires a <= b
    ensures |a| <= |b|
  {
    if a != {} {
      var x :| x in a;
      SubsetCard(a - {x}, b - {x});
    }
  }

  /** Two records of the same site count once. */
  lemma SiteDuplicate(r: Row, s: Site)
    requires (s.contig, s.orientation) == KeyOf(r) && Overlaps(Interval(s.start, s.end), Span(r))
    ensures |SiteHits([s, s], r)| == 1
  {
    var x := Interval(s.start, s.end);
    assert x in SiteSet([s, s], KeyOf(r)) by {
      assert [s, s][0] == s;
    }
    forall y | y in SiteSet([s, s], KeyOf(r)) ensures y == x {
    }
    assert SiteHits([s, s], r) == {x};
  }

  /** Lines 145-152: each row counts the overlapping sites one by one. */
  method EditingSites(sites: seq<Site>, rows: seq<Row>) returns (annotation: seq<nat>)
    ensures |annotation| == |rows|
    ensures forall i :: 0 <= i < |rows| ==> annotation[i] == |SiteHits(sites, rows[i])|
  {
    annotation := [];
    for i := 0 to |rows|
      invariant |annotation| == i
      invariant forall j :: 0 <= j < i ==> annotation[j] == |SiteHits(sites, rows[j])|
    {
      var rest := SiteHits(sites, rows[i]);
      var total := 0;
      while rest != {}
        invariant total + |rest| == |SiteHits(sites, rows[i])|
        decreases |rest|
      {
        var x :| x in rest;
        rest := rest - {x};
        total := total + 1;
      }
      annotation := annotation + [total];
    }
  }
}
