// The filtering of A-to-I editing candidates: positions are counted over
// the samples, a position seen in enough samples is replicated, an
// unreplicated one is rescued when a REDIportal site covers it, positions
// near splice sites are dropped, and each sample's table then keeps only
// the positions that passed for its contig and orientation.
module A2ICandidates {
  import opened Common
  import opened Intervals
  import opened Strs
  import A2ILoad

  type Key = A2ILoad.Key
  type Row = A2ILoad.Row

  // ---------------------------------------------------------------------
  // 1. Samples

  /** `name.endswith(suffix)`. */
  predicate EndsWith(name: string, suffix: string)
  {
    |suffix| <= |name| && name[|name| - |suffix|..] == suffix
  }

  /** Line 24: the tables of pooled replicates are not samples. */
  predicate Counted(name: string)
  {
    !EndsWith(name, "[merged].csv.gz")
  }

  /** A sample's file name with the rows of its table. */
  datatype Sample = Sample(name: string, rows: seq<Row>)

  /** Lines 14-28: the loaded rows of every counted sample, one table after the other. */
  function Loaded(samples: seq<Sample>, th: A2ILoad.Thresholds): seq<Row>
  {
    if samples == [] then []
    else
      var n := |samples| - 1;
      Loaded(samples[..n], th)
      + (if Counted(samples[n].name) then RowsOf(A2ILoad.Reat(samples[n].rows, th)) else [])
  }

  function RowsOf(s: seq<A2ILoad.Scored>): (r: seq<Row>)
    ensures |r| == |s| && forall i :: 0 <= i < |s| ==> r[i] == s[i].row
  {
    seq(|s|, i requires 0 <= i < |s| => s[i].row)
  }

  /** Every loaded row passed the loader's thresholds in a counted sample. */
  lemma {:induction false} LoadedFrom(samples: seq<Sample>, th: A2ILoad.Thresholds, r: Row)
    requires r in Loaded(samples, th)
    ensures exists i :: 0 <= i < |samples| && Counted(samples[i].name) && r in samples[i].rows && A2ILoad.Keep(r, th)
    decreases |samples|
  {
    var n := |samples| - 1;
    if r in Loaded(samples[..n], th) {
      LoadedFrom(samples[..n], th, r);
      var i :| 0 <= i < n && Counted(samples[..n][i].name) && r in samples[..n][i].rows && A2ILoad.Keep(r, th);
      assert samples[i] == samples[..n][i];
    } else {
      var s := A2ILoad.Reat(samples[n].rows, th);
      var j :| 0 <= j < |s| && s[j].row == r;
      assert s[j] in s;
      A2ILoad.ReatMembers(samples[n].rows, th, s[j]);
    }
  }

  // ---------------------------------------------------------------------
  // 2. Replication counts

  /** A position under its (contig, orientation). */
  type Loc = (Key, int)

  /** Line 31: the orientation of a row, which must be "+" or "-". */
  function LocOf(r: Row): (l: Result<Loc>)
    ensures l.Ok? <==> A2ILoad.Orientation(r.trstrand).Ok?
    ensures l.Err? ==> l.error == ValueError
    ensures l.Ok? ==> l.value == ((r.contig, A2ILoad.Orientation(r.trstrand).value), r.pos)
  {
    var o := A2ILoad.Orientation(r.trstrand);
    if o.Err? then Err(o.error) else Ok(((r.contig, o.value), r.pos))
  }

  function LocsOf(rows: seq<Row>): (r: seq<Result<Loc>>)
    ensures |r| == |rows| && forall i :: 0 <= i < |rows| ==> r[i] == LocOf(rows[i])
  {
    seq(|rows|, i requires 0 <= i < |rows| => LocOf(rows[i]))
  }

  /** One more row at `x`. */
  function Bump(t: map<Key, map<int, nat>>, x: Loc): map<Key, map<int, nat>>
  {
    var inner := if x.0 in t then t[x.0] else map[];
    t[x.0 := inner[x.1 := (if x.1 in inner then inner[x.1] else 0) + 1]]
  }

  /** Lines 28-31: per (contig, orientation), how many rows list each position. */
  function Tally(locs: seq<Loc>): map<Key, map<int, nat>>
  {
    if locs == [] then map[]
    else Bump(Tally(locs[..|locs| - 1]), locs[|locs| - 1])
  }

  /** A key is tallied exactly when some row carries it. */
  lemma {:induction false} TallyKeys(locs: seq<Loc>, k: Key)
    ensures k in Tally(locs) <==> exists i :: 0 <= i < |locs| && locs[i].0 == k
    decreases |locs|
  {
    if locs != [] {
      var n := |locs| - 1;
      TallyKeys(locs[..n], k);
      if exists i :: 0 <= i < n && locs[..n][i].0 == k {
        var i :| 0 <= i < n && locs[..n][i].0 == k;
        assert locs[i] == locs[..n][i];
      }
      if exists i :: 0 <= i < |locs| && locs[i].0 == k {
        var i :| 0 <= i < |locs| && locs[i].0 == k;
        if i < n {
          assert locs[..n][i] == locs[i];
        }
      }
    }
  }

  /**
   * Under a tallied key, a position is listed exactly when some row lists
   * it there, and its count is the number of rows listing it.
   */
  lemma {:induction false} TallySpec(locs: seq<Loc>, k: Key, p: int)
    requires k in Tally(locs)
    ensures p in Tally(locs)[k] <==> (k, p) in locs
    ensures p in Tally(locs)[k] ==> Tally(locs)[k][p] == multiset(locs)[(k, p)]
    decreases |locs|
  {
    var n := |locs| - 1;
    var front := Tally(locs[..n]);
    assert locs == locs[..n] + [locs[n]];
    assert multiset(locs) == multiset(locs[..n]) + multiset{locs[n]};
    if k in front {
      TallySpec(locs[..n], k, p);
    } else {
      TallyKeys(locs[..n], k);
      assert (k, p) !in locs[..n];
    }
    if (k, p) !in locs[..n] {
      assert multiset(locs[..n])[(k, p)] == 0;
    }
  }

  /** Lines 28-31: the counts, or the error of a row on neither strand. */
  function Replication(rows: seq<Row>): Result<map<Key, map<int, nat>>>
  {
    var locs := FirstErr(LocsOf(rows));
    if locs.Err? then Err(locs.error) else Ok(Tally(locs.value))
  }

  /** Counting fails exactly on a row on neither strand, with a value error. */
  lemma ReplicationErr(rows: seq<Row>)
    ensures Replication(rows).Err? <==> exists i :: 0 <= i < |rows| && A2ILoad.Orientation(rows[i].trstrand).Err?
    ensures Replication(rows).Err? ==> Replication(rows).error == ValueError
  {
    FirstErrSpec(LocsOf(rows));
    if Replication(rows).Err? {
      FirstErrFrom(LocsOf(rows));
    }
  }

  /** The loop that counts the rows. */
  method CountReplication(rows: seq<Row>) returns (r: Result<map<Key, map<int, nat>>>)
    ensures r == Replication(rows)
  {
    var groups: map<Key, map<int, nat>> := map[];
    ghost var locs: seq<Loc> := [];
    ghost var rs := LocsOf(rows);
    for i := 0 to |rows|
      invariant FirstErr(rs[..i]) == Ok(locs)
      invariant groups == Tally(locs)
    {
      var l := LocOf(rows[i]);
      if l.Err? {
        assert rs[..i + 1][..i] == rs[..i];
        FirstErrPrefix(rs, i + 1);
        assert rs[..|rows|] == rs;
        return Err(l.error);
      }
      FirstErrSnoc(rs, i, locs, l.value);
      assert (locs + [l.value])[..|locs|] == locs;
      locs := locs + [l.value];
      groups := Bump(groups, l.value);
    }
    assert rs[..|rows|] == rs;
    r := Ok(groups);
  }

  // ---------------------------------------------------------------------
  // 4. One (contig, orientation)

  /** Line 46: the single base at `p`. */
  function Unit(p: int): Interval
  {
    Interval(p, p + 1)
  }

  /** Every interval is a single base. */
  predicate Units(s: seq<Interval>)
  {
    forall i :: 0 <= i < |s| ==> s[i].end == s[i].start + 1
  }

  lemma UnitsConcat(s: seq<Interval>, t: seq<Interval>)
    ensures Units(s + t) <==> Units(s) && Units(t)
  {
    assert forall i :: 0 <= i < |s| ==> (s + t)[i] == s[i];
    assert forall i :: 0 <= i < |t| ==> (s + t)[|s| + i] == t[i];
  }

  /** Lines 44-50: the replicated and the unreplicated positions, each as a single base. */
  function Split(positions: seq<(int, nat)>, minSamples: int): (r: (seq<Interval>, seq<Interval>))
  {
    if positions == [] then ([], [])
    else
      var n := |positions| - 1;
      var front := Split(positions[..n], minSamples);
      var it := Unit(positions[n].0);
      if positions[n].1 >= minSamples then (front.0 + [it], front.1) else (front.0, front.1 + [it])
  }

  /** Position `p` is listed with a count that `keep` accepts. */
  predicate Listed(positions: seq<(int, nat)>, p: int, replicated: bool, minSamples: int)
  {
    exists i :: 0 <= i < |positions| && positions[i].0 == p && (positions[i].1 >= minSamples <==> replicated)
  }

  /**
   * A position is replicated exactly when it is listed with a count of at
   * least `min_samples`, and unreplicated exactly when it is listed with less.
   */
  lemma {:induction false} SplitSpec(positions: seq<(int, nat)>, minSamples: int, p: int)
    ensures Units(Split(positions, minSamples).0) && Units(Split(positions, minSamples).1)
    ensures Covered(Split(positions, minSamples).0, p) <==> Listed(positions, p, true, minSamples)
    ensures Covered(Split(positions, minSamples).1, p) <==> Listed(positions, p, false, minSamples)
    decreases |positions|
  {
    if positions != [] {
      var n := |positions| - 1;
      var front := Split(positions[..n], minSamples);
      SplitSpec(positions[..n], minSamples, p);
      var it := Unit(positions[n].0);
      CoveredConcat(front.0, [it], p);
      CoveredConcat(front.1, [it], p);
      assert Covered([it], p) <==> it.Contains(p) by {
        if it.Contains(p) { assert [it][0].Contains(p); }
      }
      forall b | b in {true, false}
        ensures Listed(positions, p, b, minSamples) <==>
          Listed(positions[..n], p, b, minSamples) || (positions[n].0 == p && (positions[n].1 >= minSamples <==> b))
      {
        if Listed(positions, p, b, minSamples) {
          var i :| 0 <= i < |positions| && positions[i].0 == p && (positions[i].1 >= minSamples <==> b);
          if i < n {
            assert positions[..n][i] == positions[i];
          }
        }
        if Listed(positions[..n], p, b, minSamples) {
          var i :| 0 <= i < n && positions[..n][i].0 == p && (positions[..n][i].1 >= minSamples <==> b);
          assert positions[i] == positions[..n][i];
        }
      }
    }
  }

  /** The intersections of `x` with `b` lie inside `x`. */
  lemma {:induction false} ClipWithin(x: Interval, b: seq<Interval>)
    ensures forall i :: 0 <= i < |Clip(x, b)| ==> x.start <= Clip(x, b)[i].start && Clip(x, b)[i].end <= x.end
    decreases |b|
  {
    if b != [] {
      ClipWithin(x, b[1..]);
    }
  }

  /** Overlap pieces of single bases are single bases. */
  lemma {:induction false} OverlapUnits(a: seq<Interval>, b: seq<Interval>)
    requires Units(a)
    ensures Units(OverlapPieces(a, b))
    decreases |a|
  {
    if a != [] {
      ClipWithin(a[0], b);
      UnitsConcat([a[0]], a[1..]);
      assert a == [a[0]] + a[1..];
      OverlapUnits(a[1..], b);
      var head: seq<Interval>, tail: seq<Interval> := Clip(a[0], b), OverlapPieces(a[1..], b);
      assert OverlapPieces(a, b) == head + tail;
      assert Units(head) by {
        forall i | 0 <= i < |head| ensures head[i].end == head[i].start + 1 {
          assert head[i].NonEmpty();
        }
      }
      UnitsConcat(head, tail);
    }
  }

  /** A single base minus separated intervals is itself or nothing. */
  lemma CutUnit(x: Interval, bs: seq<Interval>)
    requires Separated(bs) && x.end == x.start + 1
    ensures Cut(x, bs) == [] || Cut(x, bs) == [x]
  {
    var r := Cut(x, bs);
    SeparatedCount(r, x.start, x.end);
    if |r| == 1 {
      assert r[0].NonEmpty();
    }
  }

  /** Separated intervals inside `[lo, hi)` are at most `hi - lo`. */
  lemma {:induction false} SeparatedCount(r: seq<Interval>, lo: int, hi: int)
    requires Separated(r) && lo <= hi
    requires forall i :: 0 <= i < |r| ==> lo <= r[i].start && r[i].end <= hi
    ensures |r| <= hi - lo
    decreases |r|
  {
    if r != [] {
      var t := r[1..];
      assert forall i :: 0 <= i < |t| ==> t[i] == r[i + 1];
      assert r[0].NonEmpty();
      SeparatedCount(t, r[0].end, hi);
    }
  }

  /** Subtracting from single bases leaves some of them, in order. */
  lemma {:induction false} SubtractUnits(a: seq<Interval>, bs: seq<Interval>)
    requires Units(a) && Separated(bs)
    ensures Units(SubtractMerged(a, bs)) && |SubtractMerged(a, bs)| <= |a|
    decreases |a|
  {
    if a != [] {
      CutUnit(a[0], bs);
      assert a == [a[0]] + a[1..];
      UnitsConcat([a[0]], a[1..]);
      SubtractUnits(a[1..], bs);
      var head: seq<Interval>, tail: seq<Interval> := Cut(a[0], bs), SubtractMerged(a[1..], bs);
      assert SubtractMerged(a, bs) == head + tail;
      UnitsConcat(head, tail);
    }
  }

  lemma {:induction false} TotalLenUnits(s: seq<Interval>)
    requires Units(s)
    ensures TotalLen(s) == |s|
    decreases |s|
  {
    if s != [] {
      assert s == [s[0]] + s[1..];
      UnitsConcat([s[0]], s[1..]);
      TotalLenUnits(s[1..]);
    }
  }

  /** Line 53: the replicated positions, then the unreplicated ones REDIportal covers. */
  function Rescued(positions: seq<(int, nat)>, redi: seq<Interval>, minSamples: int): seq<Interval>
  {
    var split := Split(positions, minSamples);
    split.0 + OverlapPieces(split.1, redi)
  }

  /** The sites kept for one key and how many bases the splice windows removed. */
  datatype Outcome = Outcome(key: Key, sites: seq<Interval>, ignored: int)

  /**
   * Lines 39-61: the rescued positions, refused when merging them would
   * shrink their total length (a position listed twice), minus the splice
   * windows, with the number of bases those removed.
   */
  function KeyJob(k: Key, positions: seq<(int, nat)>, ssites: seq<Interval>, redi: seq<Interval>, minSamples: int): Result<Outcome>
  {
    var s := Screened(Rescued(positions, redi, minSamples), ssites);
    if s.Err? then Err(s.error) else Ok(Outcome(k, s.value.0, s.value.1))
  }

  /** Lines 54-61: the assertion on the rescued sites, then the subtraction of the splice windows. */
  function Screened(rescued: seq<Interval>, ssites: seq<Interval>): Result<(seq<Interval>, int)>
  {
    if TotalLen(rescued) != TotalLen(Merge(rescued)) then Err(AssertionError)
    else
      var kept := Subtract(rescued, ssites);
      Ok((kept, TotalLen(rescued) - TotalLen(kept)))
  }

  /** Position `p` is replicated, or rescued by a REDIportal site. */
  predicate Replicated(positions: seq<(int, nat)>, redi: seq<Interval>, minSamples: int, p: int)
  {
    Listed(positions, p, true, minSamples) || (Listed(positions, p, false, minSamples) && Covered(redi, p))
  }

  /**
   * A kept site is a single base; a position is kept exactly when it is
   * replicated or rescued and no splice window covers it; and the ignored
   * count is the number of rescued bases the windows removed, never negative.
   */
  lemma KeyJobSpec(k: Key, positions: seq<(int, nat)>, ssites: seq<Interval>, redi: seq<Interval>, minSamples: int, p: int)
    requires KeyJob(k, positions, ssites, redi, minSamples).Ok?
    ensures var o := KeyJob(k, positions, ssites, redi, minSamples).value;
      o.key == k && Units(o.sites) && 0 <= o.ignored <= |Rescued(positions, redi, minSamples)|
    ensures var o := KeyJob(k, positions, ssites, redi, minSamples).value;
      Covered(o.sites, p) <==> Replicated(positions, redi, minSamples, p) && !Covered(ssites, p)
  {
    var rescued := Rescued(positions, redi, minSamples);
    RescuedSpec(positions, redi, minSamples, p);
    SubtractUnits(rescued, Merge(ssites));
    TotalLenUnits(rescued);
    TotalLenUnits(Subtract(rescued, ssites));
  }

  /** The rescued sites are single bases, at the replicated and rescued positions. */
  lemma RescuedSpec(positions: seq<(int, nat)>, redi: seq<Interval>, minSamples: int, p: int)
    ensures Units(Rescued(positions, redi, minSamples))
    ensures Covered(Rescued(positions, redi, minSamples), p) <==> Replicated(positions, redi, minSamples, p)
  {
    var split := Split(positions, minSamples);
    var rescued := Rescued(positions, redi, minSamples);
    SplitSpec(positions, minSamples, p);
    OverlapUnits(split.1, redi);
    var o := OverlapPieces(split.1, redi);
    UnitsConcat(split.0, o);
    CoveredConcat(split.0, o, p);
  }

  /** Lines 44-50 as the loop they are. */
  method SplitLoop(positions: seq<(int, nat)>, minSamples: int) returns (replicated: seq<Interval>, unreplicated: seq<Interval>)
    ensures (replicated, unreplicated) == Split(positions, minSamples)
  {
    replicated, unreplicated := [], [];
    for i := 0 to |positions|
      invariant (replicated, unreplicated) == Split(positions[..i], minSamples)
    {
      var (pos, observed) := positions[i];
      var it := Unit(pos);
      assert positions[..i + 1][..i] == positions[..i];
      if observed >= minSamples {
        replicated := replicated + [it];
      } else {
        unreplicated := unreplicated + [it];
      }
    }
    assert positions[..|positions|] == positions;
  }

  /** Lines 44-61: the split, the rescue, the assertion, the subtraction and the ignored count. */
  method RunKey(k: Key, positions: seq<(int, nat)>, ssites: seq<Interval>, redi: seq<Interval>, minSamples: int)
    returns (r: Result<Outcome>)
    ensures r == KeyJob(k, positions, ssites, redi, minSamples)
  {
    var replicated, unreplicated := SplitLoop(positions, minSamples);
    replicated := replicated + OverlapPieces(unreplicated, redi);
    var screened := Screened(replicated, ssites);
    if screened.Err? {
      return Err(screened.error);
    }
    r := Ok(Outcome(k, screened.value.0, screened.value.1));
  }

  // ---------------------------------------------------------------------
  // Passed sites

  /** A BED line; `score` is absent where the line has none. */
  datatype BedLine = BedLine(chrom: string, start: int, end: int, strand: char, score: Option<int>)

  function Line(k: Key, it: Interval): BedLine
  {
    BedLine(k.0, it.start, it.end, Symbol(k.1), None)
  }

  /** The starts of the sites. */
  function Starts(s: seq<Interval>): set<int>
  {
    set i | 0 <= i < |s| :: s[i].start
  }

  /** Lines 68-76: the passed positions per key. */
  function PassedSets(outs: seq<Outcome>): map<Key, set<int>>
  {
    if outs == [] then map[]
    else
      var n := |outs| - 1;
      var m := PassedSets(outs[..n]);
      m[outs[n].key := (if outs[n].key in m then m[outs[n].key] else {}) + Starts(outs[n].sites)]
  }

  /** Line 75: the BED lines of every kept site, key after key. */
  function Lines(outs: seq<Outcome>): seq<BedLine>
  {
    if outs == [] then []
    else
      var n := |outs| - 1;
      Lines(outs[..n]) + seq(|outs[n].sites|, i requires 0 <= i < |outs[n].sites| => Line(outs[n].key, outs[n].sites[i]))
  }

  /** Line 76: the bases ignored near splice sites, over all keys. */
  function IgnoredTotal(outs: seq<Outcome>): int
  {
    if outs == [] then 0 else IgnoredTotal(outs[..|outs| - 1]) + outs[|outs| - 1].ignored
  }

  predicate AllUnits(outs: seq<Outcome>)
  {
    forall i :: 0 <= i < |outs| ==> Units(outs[i].sites)
  }

  /** The passed sets, the BED lines and the ignored count; line 73 asserts every site is one base. */
  datatype Collection = Collection(passed: map<Key, set<int>>, bed: seq<BedLine>, ignored: int)

  /** Lines 68-76. */
  function Collect(outs: seq<Outcome>): Result<Collection>
  {
    if !AllUnits(outs) then Err(AssertionError)
    else Ok(Collection(PassedSets(outs), Lines(outs), IgnoredTotal(outs)))
  }

  /** A position passed under `k` exactly when a kept site of an outcome for `k` starts there. */
  lemma {:induction false} PassedSetsSpec(outs: seq<Outcome>, k: Key, p: int)
    ensures k in PassedSets(outs) <==> exists i :: 0 <= i < |outs| && outs[i].key == k
    ensures k in PassedSets(outs) ==> (p in PassedSets(outs)[k] <==>
      exists i, j :: 0 <= i < |outs| && outs[i].key == k && 0 <= j < |outs[i].sites| && outs[i].sites[j].start == p)
    decreases |outs|
  {
    if outs != [] {
      var n := |outs| - 1;
      PassedSetsSpec(outs[..n], k, p);
      assert forall i :: 0 <= i < n ==> outs[..n][i] == outs[i];
      if exists i, j :: 0 <= i < |outs| && outs[i].key == k && 0 <= j < |outs[i].sites| && outs[i].sites[j].start == p {
        var i, j :| 0 <= i < |outs| && outs[i].key == k && 0 <= j < |outs[i].sites| && outs[i].sites[j].start == p;
        if i == n {
          assert p in Starts(outs[n].sites);
        }
      }
    }
  }

  /** One site added to the passed sets. */
  function AddStart(m: map<Key, set<int>>, k: Key, p: int): map<Key, set<int>>
  {
    m[k := (if k in m then m[k] else {}) + {p}]
  }

  lemma StartsSnoc(s: seq<Interval>, j: int)
    requires 0 <= j < |s|
    ensures Starts(s[..j + 1]) == Starts(s[..j]) + {s[j].start}
  {
    assert forall i :: 0 <= i < j ==> s[..j + 1][i] == s[..j][i];
    assert s[..j + 1][j] == s[j];
  }

  /** The loop of lines 69-75 for one outcome. */
  method CollectOne(passed: map<Key, set<int>>, bed: seq<BedLine>, o: Outcome) returns (r: Result<(map<Key, set<int>>, seq<BedLine>)>)
    ensures r.Err? <==> !Units(o.sites)
    ensures r.Err? ==> r.error == AssertionError
    ensures r.Ok? ==> r.value.0 == passed[o.key := (if o.key in passed then passed[o.key] else {}) + Starts(o.sites)]
    ensures r.Ok? ==> r.value.1 == bed + seq(|o.sites|, i requires 0 <= i < |o.sites| => Line(o.key, o.sites[i]))
  {
    var k := o.key;
    var m := passed;
    if k !in m {
      m := m[k := {}];
    }
    ghost var base := m[k];
    assert base + Starts(o.sites[..0]) == base;
    assert m == passed[k := base];
    for j := 0 to |o.sites|
      invariant m == passed[k := base + Starts(o.sites[..j])]
      invariant forall i :: 0 <= i < j ==> o.sites[i].end == o.sites[i].start + 1
    {
      var site := o.sites[j];
      if site.end - site.start != 1 {
        return Err(AssertionError);
      }
      StartsSnoc(o.sites, j);
      assert base + Starts(o.sites[..j + 1]) == (base + Starts(o.sites[..j])) + {site.start};
      m := AddStart(m, k, site.start);
    }
    assert o.sites[..|o.sites|] == o.sites;
    r := Ok((m, bed + seq(|o.sites|, i requires 0 <= i < |o.sites| => Line(k, o.sites[i]))));
  }

  /** Lines 68-76 as the loop they are. */
  method CollectLoop(outs: seq<Outcome>) returns (r: Result<Collection>)
    ensures r == Collect(outs)
  {
    var passed: map<Key, set<int>> := map[];
    var bed: seq<BedLine> := [];
    var ssignored := 0;
    for i := 0 to |outs|
      invariant AllUnits(outs[..i])
      invariant passed == PassedSets(outs[..i]) && bed == Lines(outs[..i]) && ssignored == IgnoredTotal(outs[..i])
    {
      assert outs[..i + 1][..i] == outs[..i];
      var next := CollectOne(passed, bed, outs[i]);
      if next.Err? {
        return Err(next.error);
      }
      passed, bed := next.value.0, next.value.1;
      ssignored := ssignored + outs[i].ignored;
    }
    assert outs[..|outs|] == outs;
    r := Ok(Collection(passed, bed, ssignored));
  }

  // ---------------------------------------------------------------------
  // 5. One assembly

  /** `dict.get(key, [])`. */
  function Get(m: map<Key, seq<Interval>>, k: Key): seq<Interval>
  {
    if k in m then m[k] else []
  }

  /** `items` lists each position of `m` with its count. */
  ghost predicate Enumerates(items: seq<(int, nat)>, m: map<int, nat>)
  {
    forall x :: x in items <==> x.0 in m && m[x.0] == x.1
  }

  /** `positions.items()`, in whatever order the dictionary keeps. */
  method Enumerate(m: map<int, nat>) returns (items: seq<(int, nat)>)
    ensures Enumerates(items, m)
  {
    var rest := m.Keys;
    items := [];
    while rest != {}
      invariant rest <= m.Keys
      invariant forall x :: x in items <==> x.0 in m && x.0 !in rest && m[x.0] == x.1
      decreases |rest|
    {
      NonEmptySetHasElement(rest);
      var p :| p in rest;
      items := items + [(p, m[p])];
      rest := rest - {p};
    }
  }

  /** The position `p` under one key survives: observed, replicated or in REDIportal, and away from splice sites. */
  predicate Passes(counts: map<int, nat>, ssites: seq<Interval>, redi: seq<Interval>, minSamples: int, p: int)
  {
    p in counts && (counts[p] >= minSamples || Covered(redi, p)) && !Covered(ssites, p)
  }

  /** An enumeration lists a position as replicated exactly when its count reaches `min_samples`. */
  lemma ListedEnumerated(items: seq<(int, nat)>, m: map<int, nat>, minSamples: int, p: int)
    requires Enumerates(items, m)
    ensures Listed(items, p, true, minSamples) <==> p in m && m[p] >= minSamples
    ensures Listed(items, p, false, minSamples) <==> p in m && m[p] < minSamples
  {
    if p in m {
      assert (p, m[p]) in items;
    }
  }

  /** The outcome for its key keeps exactly the positions that pass. */
  ghost predicate Done(o: Outcome, groups: map<Key, map<int, nat>>, ssites: map<Key, seq<Interval>>, redi: map<Key, seq<Interval>>, minSamples: int)
  {
    o.key in groups && Units(o.sites) &&
    forall p :: Covered(o.sites, p) <==> Passes(groups[o.key], Get(ssites, o.key), Get(redi, o.key), minSamples, p)
  }

  lemma KeyJobDone(k: Key, items: seq<(int, nat)>, groups: map<Key, map<int, nat>>, ssites: map<Key, seq<Interval>>, redi: map<Key, seq<Interval>>, minSamples: int)
    requires k in groups && Enumerates(items, groups[k])
    requires KeyJob(k, items, Get(ssites, k), Get(redi, k), minSamples).Ok?
    ensures Done(KeyJob(k, items, Get(ssites, k), Get(redi, k), minSamples).value, groups, ssites, redi, minSamples)
  {
    forall p ensures var o := KeyJob(k, items, Get(ssites, k), Get(redi, k), minSamples).value;
      Covered(o.sites, p) <==> Passes(groups[k], Get(ssites, k), Get(redi, k), minSamples, p)
    {
      KeyJobSpec(k, items, Get(ssites, k), Get(redi, k), minSamples, p);
      ListedEnumerated(items, groups[k], minSamples, p);
    }
    KeyJobSpec(k, items, Get(ssites, k), Get(redi, k), minSamples, 0);
  }

  /** Every counted key has its outcome and every passed set is exactly the positions that pass. */
  ghost predicate PassedAs(passed: map<Key, set<int>>, groups: map<Key, map<int, nat>>, ssites: map<Key, seq<Interval>>, redi: map<Key, seq<Interval>>, minSamples: int)
  {
    (forall k :: k in passed <==> k in groups) &&
    forall k, p :: k in passed ==> (p in passed[k] <==> Passes(groups[k], Get(ssites, k), Get(redi, k), minSamples, p))
  }

  /** Collecting outcomes that are done, one or more per counted key, gives the passed sets. */
  lemma CollectDone(outs: seq<Outcome>, groups: map<Key, map<int, nat>>, ssites: map<Key, seq<Interval>>, redi: map<Key, seq<Interval>>, minSamples: int)
    requires forall i :: 0 <= i < |outs| ==> Done(outs[i], groups, ssites, redi, minSamples)
    requires forall k :: k in groups ==> exists i :: 0 <= i < |outs| && outs[i].key == k
    ensures Collect(outs).Ok?
    ensures PassedAs(Collect(outs).value.passed, groups, ssites, redi, minSamples)
  {
    var passed := PassedSets(outs);
    forall k ensures k in passed <==> k in groups {
      PassedSetsSpec(outs, k, 0);
    }
    forall k, p | k in passed ensures p in passed[k] <==> Passes(groups[k], Get(ssites, k), Get(redi, k), minSamples, p) {
      PassedSetsSpec(outs, k, p);
      var i0 :| 0 <= i0 < |outs| && outs[i0].key == k;
      if p in passed[k] {
        var i, j :| 0 <= i < |outs| && outs[i].key == k && 0 <= j < |outs[i].sites| && outs[i].sites[j].start == p;
        assert outs[i].sites[j].Contains(p);
      }
    }
  }

  /** The splice-site windows reach 15 bases into the intron (the default of `splice_sites`). */
  const SpliceOffset := 15

  /**
   * Lines 13-78: count the positions over the samples, screen every
   * (contig, orientation) and collect what passed. The errors come in the
   * order the steps run: a row on neither strand, a transcript the splice
   * windows cannot handle, a REDIportal record on neither strand or with
   * an invalid interval, and a failed assertion while screening.
   */
  method AssemblyJob(samples: seq<Sample>, th: A2ILoad.Thresholds, minSamples: int,
                     rnas: seq<A2ILoad.Rna>, rediportal: seq<A2ILoad.BedSite>)
    returns (r: Result<Collection>, outs: seq<Outcome>)
    ensures Replication(Loaded(samples, th)).Err? ==> r == Err(ValueError)
    ensures Replication(Loaded(samples, th)).Ok? && A2ILoad.SpliceSites(rnas, SpliceOffset).Err? ==>
      r == Err(A2ILoad.SpliceSites(rnas, SpliceOffset).error)
    ensures Replication(Loaded(samples, th)).Ok? && A2ILoad.SpliceSites(rnas, SpliceOffset).Ok? && A2ILoad.Sites(rediportal).Err? ==>
      r == Err(A2ILoad.Sites(rediportal).error)
    ensures r.Err? ==> r.error in {ValueError, InvalidInterval, AssertionError}
    ensures r.Ok? ==> Replication(Loaded(samples, th)).Ok? && A2ILoad.SpliceSites(rnas, SpliceOffset).Ok? && A2ILoad.Sites(rediportal).Ok?
    ensures r.Ok? ==> r == Collect(outs)
    ensures r.Ok? ==> PassedAs(r.value.passed, Replication(Loaded(samples, th)).value,
      A2ILoad.SpliceSites(rnas, SpliceOffset).value, A2ILoad.Sites(rediportal).value, minSamples)
  {
    outs := [];
    var counted := CountReplication(Loaded(samples, th));
    if counted.Err? {
      ReplicationErr(Loaded(samples, th));
      return Err(counted.error), outs;
    }
    var groups := counted.value;
    var ssites := A2ILoad.SpliceSitesLoop(rnas, SpliceOffset);
    if ssites.Err? {
      A2ILoad.SpliceSitesErr(rnas, SpliceOffset);
      return Err(ssites.error), outs;
    }
    var redi := A2ILoad.SitesLoop(rediportal);
    if redi.Err? {
      FirstErrFrom(A2ILoad.SiteItems(rediportal));
      return Err(redi.error), outs;
    }
    var filtered := ScreenAll(groups, ssites.value, redi.value, minSamples);
    if filtered.Err? {
      return Err(filtered.error), outs;
    }
    outs := filtered.value;
    CollectDone(outs, groups, ssites.value, redi.value, minSamples);
    r := CollectLoop(outs);
  }

  /** Lines 63-66: the screening job of one counted key, with its splice windows and REDIportal sites. */
  method ScreenKey(k: Key, groups: map<Key, map<int, nat>>, ssites: map<Key, seq<Interval>>, redi: map<Key, seq<Interval>>, minSamples: int)
    returns (r: Result<Outcome>)
    requires k in groups
    ensures r.Err? ==> r.error == AssertionError
    ensures r.Ok? ==> r.value.key == k && Done(r.value, groups, ssites, redi, minSamples)
  {
    var items := Enumerate(groups[k]);
    r := RunKey(k, items, Get(ssites, k), Get(redi, k), minSamples);
    if r.Ok? {
      KeyJobDone(k, items, groups, ssites, redi, minSamples);
    }
  }

  /** Lines 39-66: one screening job per counted key, in the dictionary's order. */
  method ScreenAll(groups: map<Key, map<int, nat>>, ssites: map<Key, seq<Interval>>, redi: map<Key, seq<Interval>>, minSamples: int)
    returns (r: Result<seq<Outcome>>)
    ensures r.Err? ==> r.error == AssertionError
    ensures r.Ok? ==> forall i :: 0 <= i < |r.value| ==> Done(r.value[i], groups, ssites, redi, minSamples)
    ensures r.Ok? ==> forall k :: k in groups ==> exists i :: 0 <= i < |r.value| && r.value[i].key == k
  {
    var outs := [];
    var keys := groups.Keys;
    while keys != {}
      invariant keys <= groups.Keys
      invariant forall i :: 0 <= i < |outs| ==> Done(outs[i], groups, ssites, redi, minSamples)
      invariant forall k :: k in groups && k !in keys ==> exists i :: 0 <= i < |outs| && outs[i].key == k
      decreases |keys|
    {
      NonEmptyHasMember(keys);
      var k :| k in keys;
      var o := ScreenKey(k, groups, ssites, redi, minSamples);
      if o.Err? {
        return Err(o.error);
      }
      ghost var before := outs;
      outs := outs + [o.value];
      assert forall i :: 0 <= i < |before| ==> outs[i] == before[i];
      assert outs[|outs| - 1].key == k;
      keys := keys - {k};
    }
    r := Ok(outs);
  }

  // ---------------------------------------------------------------------
  // 6. Per-sample filter

  /** `passed.get(key, set())`. */
  function Lookup(passed: map<Key, set<int>>, k: Key): set<int>
  {
    if k in passed then passed[k] else {}
  }

  /** Lines 98-100: the track line of a kept row, its score the frequency in thousandths, truncated. */
  function Track(s: A2ILoad.Scored, o: Strand): BedLine
  {
    BedLine(s.row.contig, s.row.pos, s.row.pos + 1, Symbol(o), Some((s.freq * 1000.0).Floor))
  }

  function OrientationsOf(rows: seq<A2ILoad.Scored>): (r: seq<Result<Strand>>)
    ensures |r| == |rows| && forall i :: 0 <= i < |rows| ==> r[i] == A2ILoad.Orientation(rows[i].row.trstrand)
  {
    seq(|rows|, i requires 0 <= i < |rows| => A2ILoad.Orientation(rows[i].row.trstrand))
  }

  /** Line 95: the row's position passed for its contig and orientation. */
  predicate Hit(passed: map<Key, set<int>>, s: A2ILoad.Scored, o: Strand)
  {
    s.row.pos in Lookup(passed, (s.row.contig, o))
  }

  /** Lines 93-102: the kept rows with their track lines. */
  function Kept(rows: seq<A2ILoad.Scored>, os: seq<Strand>, passed: map<Key, set<int>>): (r: (seq<A2ILoad.Scored>, seq<BedLine>))
    requires |os| == |rows|
  {
    if rows == [] then ([], [])
    else
      var n := |rows| - 1;
      var front := Kept(rows[..n], os[..n], passed);
      if Hit(passed, rows[n], os[n]) then (front.0 + [rows[n]], front.1 + [Track(rows[n], os[n])]) else front
  }

  /** What one sample's filtering writes: the kept rows, their track and how many remained. */
  datatype Filtered = Filtered(rows: seq<A2ILoad.Scored>, track: seq<BedLine>, remained: nat)

  /** Lines 87-105: the sample's loaded rows kept where their position passed. */
  function FilterSample(raw: seq<Row>, th: A2ILoad.Thresholds, passed: map<Key, set<int>>): Result<Filtered>
  {
    var rows := A2ILoad.Reat(raw, th);
    var os := FirstErr(OrientationsOf(rows));
    if os.Err? then Err(os.error)
    else
      assert |os.value| == |rows| by { FirstErrSpec(OrientationsOf(rows)); }
      var k := Kept(rows, os.value, passed);
      Ok(Filtered(k.0, k.1, |k.0|))
  }

  /**
   * A kept row is a loaded row whose position passed for its contig and
   * orientation, every such row is kept, each has its track line, and the
   * count of remaining rows is the number kept.
   */
  lemma {:induction false} KeptSpec(rows: seq<A2ILoad.Scored>, os: seq<Strand>, passed: map<Key, set<int>>, s: A2ILoad.Scored)
    requires |os| == |rows|
    ensures |Kept(rows, os, passed).0| == |Kept(rows, os, passed).1|
    ensures s in Kept(rows, os, passed).0 <==> exists i :: 0 <= i < |rows| && rows[i] == s && Hit(passed, s, os[i])
    ensures forall j :: 0 <= j < |Kept(rows, os, passed).0| ==>
      exists i :: 0 <= i < |rows| && rows[i] == Kept(rows, os, passed).0[j] && Kept(rows, os, passed).1[j] == Track(rows[i], os[i])
    decreases |rows|
  {
    if rows != [] {
      var n := |rows| - 1;
      KeptSpec(rows[..n], os[..n], passed, s);
      assert forall i :: 0 <= i < n ==> rows[..n][i] == rows[i] && os[..n][i] == os[i];
    }
  }

  /** Lines 94-102 as the loop they are. */
  method FilterSampleLoop(raw: seq<Row>, th: A2ILoad.Thresholds, passed: map<Key, set<int>>) returns (r: Result<Filtered>)
    ensures r == FilterSample(raw, th, passed)
  {
    var rows := A2ILoad.Reat(raw, th);
    var os := FirstErr(OrientationsOf(rows));
    if os.Err? {
      return Err(os.error);
    }
    FirstErrSpec(OrientationsOf(rows));
    var kept, intervals, remained := [], [], 0;
    for i := 0 to |rows|
      invariant (kept, intervals) == Kept(rows[..i], os.value[..i], passed) && remained == |kept|
    {
      assert rows[..i + 1][..i] == rows[..i] && os.value[..i + 1][..i] == os.value[..i];
      var (contig, orient, pos, freq) := (rows[i].row.contig, os.value[i], rows[i].row.pos, rows[i].freq);
      if pos in Lookup(passed, (contig, orient)) {
        remained := remained + 1;
        kept := kept + [rows[i]];
        intervals := intervals + [Track(rows[i], orient)];
      }
    }
    assert rows[..|rows|] == rows && os.value[..|rows|] == os.value;
    r := Ok(Filtered(kept, intervals, remained));
  }
}
