// Normalisation bins of a genome: the exons and introns of every gene
// merged into one bin per (category, gene), the intergenic gaps that
// complete each strand of each contig, and whole-contig bins for the
// mitochondrion and the viral segments.
module BinGenome {
  import opened Common
  import opened Intervals

  // Intergenic regions of one (seqid, strand).

  /** The gap of every consecutive pair of annotated regions that do not abut. */
  function Between(a: seq<Interval>): seq<Interval>
  {
    if |a| < 2 then []
    else
      var n := |a| - 1;
      Between(a[..n]) + (if a[n - 1].end != a[n].start then [Interval(a[n - 1].end, a[n].start)] else [])
  }

  /**
   * The intergenic regions of a contig of length `seqlen` around the merged
   * annotated regions `a`: the whole contig when nothing is annotated,
   * otherwise the gap before the first region, the gaps between regions and
   * the gap after the last one, each only when it is not empty. A region
   * starting before 0 or ending past `seqlen` makes an interval with
   * start > end, which is rejected.
   */
  function IntergenicOf(seqlen: int, a: seq<Interval>): Result<seq<Interval>>
  {
    if a == [] then
      if 0 <= seqlen then Ok([Interval(0, seqlen)]) else Err(InvalidInterval)
    else if a[0].start < 0 || a[|a| - 1].end > seqlen then Err(InvalidInterval)
    else
      Ok((if a[0].start != 0 then [Interval(0, a[0].start)] else []) +
         Between(a) +
         (if a[|a| - 1].end != seqlen then [Interval(a[|a| - 1].end, seqlen)] else []))
  }

  /** `p` lies in the gap between regions `k - 1` and `k`. */
  predicate InGap(a: seq<Interval>, k: int, p: int)
    requires 0 < k < |a|
  {
    a[k - 1].end <= p < a[k].start
  }

  /** Every interval ends no later than the next one starts. */
  predicate InOrder(s: seq<Interval>)
  {
    forall i, j :: 0 <= i < j < |s| ==> s[i].end <= s[j].start
  }

  /** The gaps between separated regions are non-empty, in order, and lie between the first region's end and the last one's start. */
  lemma BetweenShape(a: seq<Interval>)
    requires Separated(a)
    ensures Separated(Between(a))
    ensures |a| >= 2 ==> forall x :: x in Between(a) ==> a[0].end <= x.start && x.end <= a[|a| - 1].start
  {
    BetweenWithin(a);
    BetweenSeparated(a);
  }

  lemma {:induction false} BetweenWithin(a: seq<Interval>)
    requires Separated(a)
    ensures |a| >= 2 ==> forall x :: x in Between(a) ==> a[0].end <= x.start && x.end <= a[|a| - 1].start
    decreases |a|
  {
    if |a| >= 2 {
      var n := |a| - 1;
      var pre := a[..n];
      assert Separated(pre);
      BetweenWithin(pre);
      var tail := if a[n - 1].end != a[n].start then [Interval(a[n - 1].end, a[n].start)] else [];
      assert Between(a) == Between(pre) + tail;
      assert a[n - 1].end <= a[n].start;
      if n >= 2 {
        assert pre[0] == a[0] && pre[|pre| - 1] == a[n - 1];
        assert a[0].end < a[n - 1].start && a[n - 1].start < a[n - 1].end;
      }
    }
  }

  lemma {:induction false} BetweenSeparated(a: seq<Interval>)
    requires Separated(a)
    ensures Separated(Between(a))
    decreases |a|
  {
    if |a| >= 2 {
      var n := |a| - 1;
      var pre := a[..n];
      assert Separated(pre);
      BetweenSeparated(pre);
      BetweenWithin(pre);
      var b := Between(pre);
      if a[n - 1].end != a[n].start {
        var g := Interval(a[n - 1].end, a[n].start);
        assert Between(a) == b + [g];
        assert a[n - 1].start < a[n - 1].end && a[n - 1].end < a[n].start;
        forall i | 0 <= i < |b| ensures b[i].end < g.start {
          assert b[i] in b;
          assert pre[|pre| - 1] == a[n - 1];
        }
        forall i, j | 0 <= i < j < |b + [g]| ensures (b + [g])[i].end < (b + [g])[j].start {
          if j == |b| {
            assert (b + [g])[i] == b[i];
          } else {
            assert (b + [g])[i] == b[i] && (b + [g])[j] == b[j];
          }
        }
      }
    }
  }

  /** A point lies in a gap exactly when it falls between two consecutive regions. */
  lemma {:induction false} BetweenCovered(a: seq<Interval>, p: int)
    ensures Covered(Between(a), p) <==> exists k :: 0 < k < |a| && InGap(a, k, p)
    decreases |a|
  {
    if |a| >= 2 {
      var n := |a| - 1;
      var pre := a[..n];
      BetweenCovered(pre, p);
      var tail := if a[n - 1].end != a[n].start then [Interval(a[n - 1].end, a[n].start)] else [];
      CoveredConcat(Between(pre), tail, p);
      if exists k :: 0 < k < |pre| && InGap(pre, k, p) {
        var k :| 0 < k < |pre| && InGap(pre, k, p);
        assert InGap(a, k, p);
      }
      if exists k :: 0 < k < |a| && InGap(a, k, p) {
        var k :| 0 < k < |a| && InGap(a, k, p);
        if k < n {
          assert InGap(pre, k, p);
        } else {
          assert tail[0].Contains(p);
          assert Covered(tail, p);
        }
      }
      if Covered(tail, p) {
        assert InGap(a, n, p);
      }
    }
  }

  /** Between the first region's start and the last one's end, a point not in any region lies in some gap. */
  lemma {:induction false} GapExists(a: seq<Interval>, p: int)
    requires Separated(a) && a != [] && a[0].start <= p < a[|a| - 1].end && !Covered(a, p)
    ensures exists k :: 0 < k < |a| && InGap(a, k, p)
    decreases |a|
  {
    var n := |a| - 1;
    if n == 0 {
      assert false;
    } else if p < a[n - 1].end {
      var pre := a[..n];
      assert Separated(pre);
      assert !Covered(pre, p);
      GapExists(pre, p);
      var k :| 0 < k < |pre| && InGap(pre, k, p);
      assert InGap(a, k, p);
    } else {
      assert !a[n].Contains(p);
      assert InGap(a, n, p);
    }
  }

  /** A point in a gap lies in no region. */
  lemma GapNotCovered(a: seq<Interval>, k: int, p: int)
    requires Separated(a) && 0 < k < |a| && InGap(a, k, p)
    ensures !Covered(a, p)
  {
    forall i | 0 <= i < |a| ensures !a[i].Contains(p) {
      if i < k - 1 {
        assert a[i].end < a[k - 1].start;
      } else if i > k {
        assert a[k].end < a[i].start;
      }
    }
  }

  /** The annotated regions span from the first one's start to the last one's end. */
  lemma SeparatedSpan(a: seq<Interval>)
    requires Separated(a) && a != []
    ensures forall i :: 0 <= i < |a| ==> a[0].start <= a[i].start && a[i].end <= a[|a| - 1].end
  {
    var n := |a| - 1;
    forall i | 0 <= i < |a| ensures a[0].start <= a[i].start && a[i].end <= a[n].end {
      if 0 < i {
        assert a[0].end < a[i].start;
      }
      if i < n {
        assert a[i].end < a[n].start;
      }
    }
  }

  /** Two runs in order, the first ending by `m` and the second starting from it, are in order together. */
  lemma InOrderConcat(x: seq<Interval>, y: seq<Interval>, m: int)
    requires InOrder(x) && InOrder(y)
    requires forall i :: 0 <= i < |x| ==> x[i].end <= m
    requires forall j :: 0 <= j < |y| ==> m <= y[j].start
    ensures InOrder(x + y)
  {
    forall i, j | 0 <= i < j < |x + y| ensures (x + y)[i].end <= (x + y)[j].start {
      if j < |x| {
        assert (x + y)[i] == x[i] && (x + y)[j] == x[j];
      } else if i >= |x| {
        assert (x + y)[i] == y[i - |x|] && (x + y)[j] == y[j - |x|];
      } else {
        assert (x + y)[i] == x[i] && (x + y)[j] == y[j - |x|];
      }
    }
  }

  /** The gaps between separated regions are in order and lie within the regions' span. */
  lemma BetweenInside(a: seq<Interval>)
    requires Separated(a) && a != []
    ensures InOrder(Between(a))
    ensures forall j :: 0 <= j < |Between(a)| ==> a[0].start <= Between(a)[j].start && Between(a)[j].end <= a[|a| - 1].end
  {
    var n := |a| - 1;
    var b := Between(a);
    BetweenShape(a);
    assert a[0].NonEmpty() && a[n].NonEmpty();
    forall j | 0 <= j < |b| ensures a[0].start <= b[j].start && b[j].end <= a[n].end {
      assert b[j] in b;
    }
  }

  /** Two runs that both end by `m` end by `m` together. */
  lemma EndsBy(x: seq<Interval>, y: seq<Interval>, m: int)
    requires forall i :: 0 <= i < |x| ==> x[i].end <= m
    requires forall j :: 0 <= j < |y| ==> y[j].end <= m
    ensures forall i :: 0 <= i < |x + y| ==> (x + y)[i].end <= m
  {
    forall i | 0 <= i < |x + y| ensures (x + y)[i].end <= m {
      if i >= |x| {
        assert (x + y)[i] == y[i - |x|];
      }
    }
  }

  /** The gaps before, between and after the regions come in order. */
  lemma IntergenicInOrder(seqlen: int, a: seq<Interval>, head: seq<Interval>, tail: seq<Interval>)
    requires Separated(a) && a != []
    requires head == [] || head == [Interval(0, a[0].start)]
    requires tail == [] || tail == [Interval(a[|a| - 1].end, seqlen)]
    ensures InOrder(head + Between(a) + tail)
  {
    var n := |a| - 1;
    var b := Between(a);
    BetweenInside(a);
    assert a[0].start <= a[n].end by {
      assert a[0].NonEmpty();
      if n > 0 {
        assert a[0].end < a[n].start;
      }
    }
    InOrderConcat(head, b, a[0].start);
    EndsBy(head, b, a[n].end);
    InOrderConcat(head + b, tail, a[n].end);
  }

  /** One point: it is intergenic exactly when it is on the contig and in no region. */
  lemma IntergenicPoint(seqlen: int, a: seq<Interval>, head: seq<Interval>, tail: seq<Interval>, p: int)
    requires Separated(a) && a != [] && 0 <= a[0].start && a[|a| - 1].end <= seqlen
    requires head == if a[0].start != 0 then [Interval(0, a[0].start)] else []
    requires tail == if a[|a| - 1].end != seqlen then [Interval(a[|a| - 1].end, seqlen)] else []
    ensures Covered(head + Between(a) + tail, p) <==> 0 <= p < seqlen && !Covered(a, p)
  {
    CoveredConcat(head + Between(a), tail, p);
    CoveredConcat(head, Between(a), p);
    if Covered(head + Between(a) + tail, p) {
      IntergenicPointSound(seqlen, a, head, tail, p);
    }
    if 0 <= p < seqlen && !Covered(a, p) {
      IntergenicPointComplete(seqlen, a, head, tail, p);
    }
  }

  lemma IntergenicPointSound(seqlen: int, a: seq<Interval>, head: seq<Interval>, tail: seq<Interval>, p: int)
    requires Separated(a) && a != [] && 0 <= a[0].start && a[|a| - 1].end <= seqlen
    requires head == if a[0].start != 0 then [Interval(0, a[0].start)] else []
    requires tail == if a[|a| - 1].end != seqlen then [Interval(a[|a| - 1].end, seqlen)] else []
    requires Covered(head, p) || Covered(Between(a), p) || Covered(tail, p)
    ensures 0 <= p < seqlen && !Covered(a, p)
  {
    var n := |a| - 1;
    SeparatedSpan(a);
    if Covered(Between(a), p) {
      BetweenCovered(a, p);
      var k :| 0 < k < |a| && InGap(a, k, p);
      GapNotCovered(a, k, p);
      assert a[0].start <= a[k - 1].start;
      assert a[k].end <= a[n].end;
    } else if Covered(head, p) {
      assert head[0].Contains(p);
      forall i | 0 <= i < |a| ensures !a[i].Contains(p) {
        assert a[0].start <= a[i].start;
      }
    } else {
      assert tail[0].Contains(p);
      forall i | 0 <= i < |a| ensures !a[i].Contains(p) {
        assert a[i].end <= a[n].end;
      }
    }
  }

  lemma IntergenicPointComplete(seqlen: int, a: seq<Interval>, head: seq<Interval>, tail: seq<Interval>, p: int)
    requires Separated(a) && a != [] && 0 <= a[0].start && a[|a| - 1].end <= seqlen
    requires head == if a[0].start != 0 then [Interval(0, a[0].start)] else []
    requires tail == if a[|a| - 1].end != seqlen then [Interval(a[|a| - 1].end, seqlen)] else []
    requires 0 <= p < seqlen && !Covered(a, p)
    ensures Covered(head, p) || Covered(Between(a), p) || Covered(tail, p)
  {
    var n := |a| - 1;
    if p < a[0].start {
      assert head[0].Contains(p);
    } else if p >= a[n].end {
      assert tail[0].Contains(p);
    } else {
      GapExists(a, p);
      BetweenCovered(a, p);
    }
  }

  /**
   * The intergenic regions exist exactly when the annotated regions lie in
   * [0, seqlen); then they are in order and cover exactly the points of
   * [0, seqlen) that no annotated region covers, so annotated and
   * intergenic regions tile the contig.
   */
  lemma IntergenicTiles(seqlen: int, a: seq<Interval>)
    requires Separated(a)
    ensures IntergenicOf(seqlen, a).Ok? <==>
      if a == [] then 0 <= seqlen else 0 <= a[0].start && a[|a| - 1].end <= seqlen
    ensures IntergenicOf(seqlen, a).Ok? ==> InOrder(IntergenicOf(seqlen, a).value)
    ensures IntergenicOf(seqlen, a).Ok? ==> forall p :: Covered(a, p) ==> 0 <= p < seqlen
    ensures IntergenicOf(seqlen, a).Ok? ==>
      forall p :: Covered(IntergenicOf(seqlen, a).value, p) <==> 0 <= p < seqlen && !Covered(a, p)
  {
    if IntergenicOf(seqlen, a).Ok? && a == [] {
      forall p | 0 <= p < seqlen ensures Covered(IntergenicOf(seqlen, a).value, p) {
        assert IntergenicOf(seqlen, a).value[0].Contains(p);
      }
    } else if IntergenicOf(seqlen, a).Ok? {
      var n := |a| - 1;
      var head := if a[0].start != 0 then [Interval(0, a[0].start)] else [];
      var tail := if a[n].end != seqlen then [Interval(a[n].end, seqlen)] else [];
      assert head + Between(a) + tail == IntergenicOf(seqlen, a).value;
      IntergenicInOrder(seqlen, a, head, tail);
      SeparatedSpan(a);
      forall p ensures Covered(a, p) ==> 0 <= p < seqlen {
        if Covered(a, p) {
          var i :| 0 <= i < |a| && a[i].Contains(p);
        }
      }
      forall p ensures Covered(head + Between(a) + tail, p) <==> 0 <= p < seqlen && !Covered(a, p) {
        IntergenicPoint(seqlen, a, head, tail, p);
      }
    }
  }

  /** The gap loop of `bin_genome`, asserting that merged regions never touch. */
  method Intergenic(seqlen: int, annotated: seq<Interval>) returns (r: Result<seq<Interval>>)
    requires Separated(annotated)
    ensures r == IntergenicOf(seqlen, annotated)
  {
    if |annotated| == 0 {
      if seqlen < 0 {
        return Err(InvalidInterval);
      }
      return Ok([Interval(0, seqlen)]);
    }
    var gaps: seq<Interval> := [];
    if annotated[0].start != 0 {
      if annotated[0].start < 0 {
        return Err(InvalidInterval);
      }
      gaps := [Interval(0, annotated[0].start)];
    }
    var head := gaps;
    var k := 1;
    while k < |annotated|
      invariant 1 <= k <= |annotated|
      invariant gaps == head + Between(annotated[..k])
    {
      assert annotated[..k + 1][..k] == annotated[..k];
      var prv, nxt := annotated[k - 1], annotated[k];
      assert prv.end < nxt.start;
      if nxt.start != prv.end {
        gaps := gaps + [Interval(prv.end, nxt.start)];
      }
      k := k + 1;
    }
    assert annotated[..k] == annotated;
    assert head == if annotated[0].start != 0 then [Interval(0, annotated[0].start)] else [];
    var last := annotated[|annotated| - 1];
    if last.end != seqlen {
      if last.end > seqlen {
        return Err(InvalidInterval);
      }
      gaps := gaps + [Interval(last.end, seqlen)];
    } else {
      assert gaps == head + Between(annotated) + [];
    }
    return Ok(gaps);
  }

  // Exon and intron parts of every gene.

  datatype Rna = Rna(seqid: string, gene: string, exons: seq<Interval>)

  /** A (category, gene) key of the parts table. */
  type PartKey = (string, string)

  /** A dict of lists: its keys in first-insertion order and the list under each. */
  datatype Parts = Parts(order: seq<PartKey>, items: map<PartKey, seq<Interval>>)

  predicate PartsValid(p: Parts)
  {
    Distinct(p.order) && (forall k :: k in p.items ==> k in p.order) && (forall k :: k in p.order ==> k in p.items)
  }

  /** `parts[key].append(iv)` on a defaultdict of lists. */
  function Append(p: Parts, key: PartKey, iv: Interval): (r: Parts)
    ensures PartsValid(p) ==> PartsValid(r)
    ensures key in r.items && forall k :: k in r.items <==> k in p.items || k == key
  {
    if key in p.items then Parts(p.order, p.items[key := p.items[key] + [iv]])
    else Parts(p.order + [key], p.items[key := [iv]])
  }

  function AppendAll(p: Parts, entries: seq<(PartKey, Interval)>): Parts
  {
    if entries == [] then p
    else
      var n := |entries| - 1;
      Append(AppendAll(p, entries[..n]), entries[n].0, entries[n].1)
  }

  /** An interval lies in the list under `key`. */
  predicate Holds(p: Parts, key: PartKey, iv: Interval)
  {
    key in p.items && iv in p.items[key]
  }

  /** Appending keeps what was there and adds exactly the appended entries. */
  lemma {:induction false} AppendAllSpec(p: Parts, entries: seq<(PartKey, Interval)>, key: PartKey, iv: Interval)
    ensures PartsValid(p) ==> PartsValid(AppendAll(p, entries))
    ensures Holds(AppendAll(p, entries), key, iv) <==> Holds(p, key, iv) || (key, iv) in entries
    decreases |entries|
  {
    if entries != [] {
      var n := |entries| - 1;
      AppendAllSpec(p, entries[..n], key, iv);
      assert entries == entries[..n] + [entries[n]];
    }
  }

  /** The introns of one transcript: each consecutive pair that does not abut; a pair out of order cannot form an interval. */
  function Gaps(exons: seq<Interval>): Result<seq<Interval>>
  {
    if |exons| < 2 then Ok([])
    else
      var n := |exons| - 1;
      match Gaps(exons[..n])
      case Err(e) => Err(e)
      case Ok(g) =>
        if exons[n].start == exons[n - 1].end then Ok(g)
        else if exons[n].start < exons[n - 1].end then Err(InvalidInterval)
        else Ok(g + [Interval(exons[n - 1].end, exons[n].start)])
  }

  /** Exons `k - 1` and `k` overlap, so the gap between them is not an interval. */
  predicate Inverted(exons: seq<Interval>, k: int)
    requires 0 < k < |exons|
  {
    exons[k].start < exons[k - 1].end
  }

  /** Exons `k - 1` and `k` are strictly apart and `iv` is the gap between them. */
  predicate GapAt(exons: seq<Interval>, k: int, iv: Interval)
    requires 0 < k < |exons|
  {
    exons[k - 1].end < exons[k].start && iv == Interval(exons[k - 1].end, exons[k].start)
  }

  /** Gaps fail exactly on overlapping neighbours; otherwise they are the gaps of the strictly separated pairs. */
  lemma {:induction false} GapsSpec(exons: seq<Interval>, iv: Interval)
    ensures Gaps(exons).Err? <==> exists k :: 0 < k < |exons| && Inverted(exons, k)
    ensures Gaps(exons).Err? ==> Gaps(exons).error == InvalidInterval
    ensures Gaps(exons).Ok? ==> (iv in Gaps(exons).value <==> exists k :: 0 < k < |exons| && GapAt(exons, k, iv))
    decreases |exons|
  {
    if |exons| >= 2 {
      var n := |exons| - 1;
      var pre := exons[..n];
      GapsSpec(pre, iv);
      if exists k :: 0 < k < |pre| && Inverted(pre, k) {
        var k :| 0 < k < |pre| && Inverted(pre, k);
        assert Inverted(exons, k);
      }
      if exists k :: 0 < k < |exons| && Inverted(exons, k) {
        var k :| 0 < k < |exons| && Inverted(exons, k);
        if k < n {
          assert Inverted(pre, k);
        }
      }
      if Gaps(pre).Ok? && Inverted(exons, n) {
        assert Gaps(exons).Err?;
      }
      if Gaps(exons).Ok? {
        var g := Gaps(pre).value;
        if exists k :: 0 < k < |pre| && GapAt(pre, k, iv) {
          var k :| 0 < k < |pre| && GapAt(pre, k, iv);
          assert GapAt(exons, k, iv);
        }
        if GapAt(exons, n, iv) {
          assert Gaps(exons).value == g + [iv];
        } else if exons[n].start != exons[n - 1].end {
          assert Gaps(exons).value == g + [Interval(exons[n - 1].end, exons[n].start)];
        }
        if exists k :: 0 < k < |exons| && GapAt(exons, k, iv) {
          var k :| 0 < k < |exons| && GapAt(exons, k, iv);
          if k < n {
            assert GapAt(pre, k, iv);
          }
        }
      }
    }
  }

  function Keyed(key: PartKey, ivs: seq<Interval>): (r: seq<(PartKey, Interval)>)
    ensures |r| == |ivs| && forall i :: 0 <= i < |ivs| ==> r[i] == (key, ivs[i])
  {
    seq(|ivs|, i requires 0 <= i < |ivs| => (key, ivs[i]))
  }

  /** What one transcript appends: nothing on chrM, otherwise its exons, then its introns. */
  function RnaEntries(rna: Rna): Result<seq<(PartKey, Interval)>>
  {
    if rna.seqid == "chrM" then Ok([])
    else
      match Gaps(rna.exons)
      case Err(e) => Err(e)
      case Ok(g) => Ok(Keyed(("exon", rna.gene), rna.exons) + Keyed(("intron", rna.gene), g))
  }

  /** The parts table after the transcripts of `rnas`. */
  function PartsOf(rnas: seq<Rna>): (r: Result<Parts>)
    ensures r.Ok? ==> PartsValid(r.value)
  {
    if rnas == [] then Ok(Parts([], map[]))
    else
      var n := |rnas| - 1;
      match PartsOf(rnas[..n])
      case Err(e) => Err(e)
      case Ok(p) =>
        match RnaEntries(rnas[n])
        case Err(e) => Err(e)
        case Ok(entries) =>
          AppendAllSpec(p, entries, ("", ""), Interval(0, 0));
          Ok(AppendAll(p, entries))
  }

  /** Transcript `rna` puts `iv` under `key`. */
  predicate Contributes(rna: Rna, key: PartKey, iv: Interval)
  {
    RnaEntries(rna).Ok? && (key, iv) in RnaEntries(rna).value
  }

  /** Off chrM, a transcript files each exon under ("exon", gene) and each gap of a strictly separated pair under ("intron", gene), and nothing else. */
  lemma RnaEntriesSpec(rna: Rna, key: PartKey, iv: Interval)
    requires RnaEntries(rna).Ok?
    ensures key.0 == "exon" ==> (Contributes(rna, key, iv) <==> rna.seqid != "chrM" && key.1 == rna.gene && iv in rna.exons)
    ensures key.0 == "intron" ==>
      (Contributes(rna, key, iv) <==> rna.seqid != "chrM" && key.1 == rna.gene && exists k :: 0 < k < |rna.exons| && GapAt(rna.exons, k, iv))
    ensures key.0 != "exon" && key.0 != "intron" ==> !Contributes(rna, key, iv)
  {
    if rna.seqid != "chrM" {
      GapsSpec(rna.exons, iv);
      var exons, introns := Keyed(("exon", rna.gene), rna.exons), Keyed(("intron", rna.gene), Gaps(rna.exons).value);
      assert (key, iv) in exons + introns <==> (key, iv) in exons || (key, iv) in introns;
      if (key, iv) in exons {
        var i :| 0 <= i < |exons| && exons[i] == (key, iv);
      }
      if key.0 == "exon" && key.1 == rna.gene && iv in rna.exons {
        var i :| 0 <= i < |rna.exons| && rna.exons[i] == iv;
        assert exons[i] == (key, iv);
      }
      if (key, iv) in introns {
        var i :| 0 <= i < |introns| && introns[i] == (key, iv);
      }
      if key.0 == "intron" && key.1 == rna.gene && iv in Gaps(rna.exons).value {
        var i :| 0 <= i < |Gaps(rna.exons).value| && Gaps(rna.exons).value[i] == iv;
        assert introns[i] == (key, iv);
      }
    }
  }

  /** The parts table fails exactly when some transcript off chrM has overlapping neighbouring exons. */
  lemma {:induction false} PartsErr(rnas: seq<Rna>)
    ensures PartsOf(rnas).Err? <==> exists i :: 0 <= i < |rnas| && RnaEntries(rnas[i]).Err?
    decreases |rnas|
  {
    if rnas != [] {
      var n := |rnas| - 1;
      var pre := rnas[..n];
      PartsErr(pre);
      if exists i :: 0 <= i < |pre| && RnaEntries(pre[i]).Err? {
        var i :| 0 <= i < |pre| && RnaEntries(pre[i]).Err?;
        assert rnas[i] == pre[i];
      }
      if exists i :: 0 <= i < |rnas| && RnaEntries(rnas[i]).Err? {
        var i :| 0 <= i < |rnas| && RnaEntries(rnas[i]).Err?;
        if i < n {
          assert rnas[i] == pre[i];
        }
      }
    }
  }

  /** The parts table holds an interval under a key exactly when some transcript contributes it; each key is listed once. */
  lemma {:induction false} PartsSpec(rnas: seq<Rna>, key: PartKey, iv: Interval)
    requires PartsOf(rnas).Ok?
    ensures PartsValid(PartsOf(rnas).value)
    ensures Holds(PartsOf(rnas).value, key, iv) <==> exists i :: 0 <= i < |rnas| && Contributes(rnas[i], key, iv)
    decreases |rnas|
  {
    if rnas != [] {
      var n := |rnas| - 1;
      var pre := rnas[..n];
      PartsSpec(pre, key, iv);
      var p := PartsOf(pre).value;
      AppendAllSpec(p, RnaEntries(rnas[n]).value, key, iv);
      if exists i :: 0 <= i < |pre| && Contributes(pre[i], key, iv) {
        var i :| 0 <= i < |pre| && Contributes(pre[i], key, iv);
        assert rnas[i] == pre[i];
      }
      if exists i :: 0 <= i < |rnas| && Contributes(rnas[i], key, iv) {
        var i :| 0 <= i < |rnas| && Contributes(rnas[i], key, iv);
        if i < n {
          assert rnas[i] == pre[i];
        }
      }
    }
  }

  lemma AppendAllSnoc(p: Parts, entries: seq<(PartKey, Interval)>, key: PartKey, iv: Interval)
    ensures AppendAll(p, entries + [(key, iv)]) == Append(AppendAll(p, entries), key, iv)
  {
    assert (entries + [(key, iv)])[..|entries|] == entries;
  }

  lemma {:induction false} AppendAllConcat(p: Parts, a: seq<(PartKey, Interval)>, b: seq<(PartKey, Interval)>)
    ensures AppendAll(p, a + b) == AppendAll(AppendAll(p, a), b)
    decreases |b|
  {
    if b == [] {
      assert a + b == a;
    } else {
      var n := |b| - 1;
      var (key, iv) := b[n];
      var front := b[..n];
      AppendAllConcat(p, a, front);
      assert b == front + [(key, iv)];
      assert a + b == (a + front) + [(key, iv)];
      calc {
        AppendAll(p, a + b);
        AppendAll(p, (a + front) + [(key, iv)]);
        { AppendAllSnoc(p, a + front, key, iv); }
        Append(AppendAll(p, a + front), key, iv);
        Append(AppendAll(AppendAll(p, a), front), key, iv);
        { AppendAllSnoc(AppendAll(p, a), front, key, iv); }
        AppendAll(AppendAll(p, a), front + [(key, iv)]);
      }
    }
  }

  /** `for x in ivs: parts[key].append(x)`. */
  method AddEach(p: Parts, key: PartKey, ivs: seq<Interval>) returns (q: Parts)
    ensures q == AppendAll(p, Keyed(key, ivs))
  {
    q := p;
    var j := 0;
    while j < |ivs|
      invariant 0 <= j <= |ivs|
      invariant q == AppendAll(p, Keyed(key, ivs[..j]))
    {
      assert Keyed(key, ivs[..j + 1]) == Keyed(key, ivs[..j]) + [(key, ivs[j])];
      AppendAllSnoc(p, Keyed(key, ivs[..j]), key, ivs[j]);
      q := Append(q, key, ivs[j]);
      j := j + 1;
    }
    assert ivs[..j] == ivs;
  }

  /** The intron loop over `zip(exons[:-1], exons[1:])`. */
  method AddGaps(p: Parts, key: PartKey, exons: seq<Interval>) returns (r: Result<Parts>)
    ensures Gaps(exons).Err? ==> r == Err(Gaps(exons).error)
    ensures Gaps(exons).Ok? ==> r == Ok(AppendAll(p, Keyed(key, Gaps(exons).value)))
  {
    var q := p;
    var gaps: seq<Interval> := [];
    var k := 1;
    while k < |exons|
      invariant 1 <= k <= Max(1, |exons|)
      invariant Gaps(exons[..Min(k, |exons|)]) == Ok(gaps)
      invariant q == AppendAll(p, Keyed(key, gaps))
    {
      assert exons[..k + 1][..k] == exons[..k];
      var prv, nxt := exons[k - 1], exons[k];
      if nxt.start != prv.end {
        if nxt.start < prv.end {
          GapsPrefixErr(exons, k + 1);
          return Err(InvalidInterval);
        }
        var gap := Interval(prv.end, nxt.start);
        assert Keyed(key, gaps + [gap]) == Keyed(key, gaps) + [(key, gap)];
        AppendAllSnoc(p, Keyed(key, gaps), key, gap);
        gaps := gaps + [gap];
        q := Append(q, key, gap);
      }
      k := k + 1;
    }
    assert exons[..Min(k, |exons|)] == exons;
    return Ok(q);
  }

  /** One transcript off chrM: its exons, then its introns. */
  method AddRna(p: Parts, rna: Rna) returns (r: Result<Parts>)
    requires rna.seqid != "chrM"
    ensures RnaEntries(rna).Err? ==> r == Err(RnaEntries(rna).error)
    ensures RnaEntries(rna).Ok? ==> r == Ok(AppendAll(p, RnaEntries(rna).value))
  {
    var q := AddEach(p, ("exon", rna.gene), rna.exons);
    r := AddGaps(q, ("intron", rna.gene), rna.exons);
    if r.Ok? {
      AppendAllConcat(p, Keyed(("exon", rna.gene), rna.exons), Keyed(("intron", rna.gene), Gaps(rna.exons).value));
    }
  }

  /** The first loop of `bin_genome`: chrM transcripts skipped, exons then introns appended per transcript. */
  method CollectParts(rnas: seq<Rna>) returns (r: Result<Parts>)
    ensures r == PartsOf(rnas)
  {
    var p := Parts([], map[]);
    var i := 0;
    while i < |rnas|
      invariant 0 <= i <= |rnas|
      invariant PartsOf(rnas[..i]) == Ok(p)
    {
      assert rnas[..i + 1][..i] == rnas[..i];
      if rnas[i].seqid != "chrM" {
        var next := AddRna(p, rnas[i]);
        if next.Err? {
          PartsPrefixErr(rnas, i + 1);
          return next;
        }
        p := next.value;
      } else {
        assert RnaEntries(rnas[i]) == Ok([]);
      }
      i := i + 1;
    }
    assert rnas[..i] == rnas;
    return Ok(p);
  }

  lemma {:induction false} GapsPrefixErr(exons: seq<Interval>, m: nat)
    requires 2 <= m <= |exons| && Gaps(exons[..m]).Err?
    ensures Gaps(exons) == Gaps(exons[..m])
    decreases |exons| - m
  {
    if m < |exons| {
      assert exons[..m + 1][..m] == exons[..m];
      GapsPrefixErr(exons, m + 1);
    } else {
      assert exons[..m] == exons;
    }
  }

  lemma {:induction false} PartsPrefixErr(rnas: seq<Rna>, m: nat)
    requires m <= |rnas| && PartsOf(rnas[..m]).Err?
    ensures PartsOf(rnas) == PartsOf(rnas[..m])
    decreases |rnas| - m
  {
    if m < |rnas| {
      assert rnas[..m + 1][..m] == rnas[..m];
      PartsPrefixErr(rnas, m + 1);
    } else {
      assert rnas[..m] == rnas;
    }
  }

  // Bins per (seqid, strand).

  /** Where a gene lies, from the gene records. */
  datatype Locus = Locus(seqid: string, strand: Strand)

  /** The name a bin is written under: "gene[category]", "seqid:start-end", "virus[strand]" or "chrM[strand]". */
  datatype BinName = GenePart(gene: string, category: string) | Region(seqid: string, start: int, end: int)
                   | Virus(name: string, strand: Strand) | Mito(strand: Strand)

  datatype NormBin = NormBin(ind: BinName, category: string, seqid: string, strand: Strand, intervals: seq<Interval>)

  /** The bins dict of lists, keyed by (seqid, strand). */
  type Bins = map<(string, Strand), seq<NormBin>>

  /** `bins.get(key, [])`. */
  function At(bins: Bins, key: (string, Strand)): seq<NormBin>
  {
    if key in bins then bins[key] else []
  }

  /** `bins[key].append(b)` on a defaultdict of lists. */
  function Push(bins: Bins, key: (string, Strand), b: NormBin): (r: Bins)
    ensures At(r, key) == At(bins, key) + [b]
    ensures forall k :: k != key ==> At(r, k) == At(bins, k)
  {
    bins[key := At(bins, key) + [b]]
  }

  /** The bin of one (category, gene) part with its merged intervals, under the gene's seqid and strand. */
  function GeneBin(key: PartKey, loc: Locus, merged: seq<Interval>): NormBin
  {
    NormBin(GenePart(key.1, key.0), key.0, loc.seqid, loc.strand, merged)
  }

  /** Every part's intervals merged (`Interval.merge`). */
  function MergedParts(items: map<PartKey, seq<Interval>>): (r: map<PartKey, seq<Interval>>)
    ensures r.Keys == items.Keys
  {
    map k | k in items :: Merge(items[k])
  }

  /** A merged part is separated and covers exactly the points of the part. */
  lemma MergedPartsSpec(items: map<PartKey, seq<Interval>>, key: PartKey)
    requires key in items
    ensures Separated(MergedParts(items)[key])
    ensures forall p :: Covered(MergedParts(items)[key], p) <==> Covered(items[key], p)
  {
  }

  /** One bin per part, in the parts' key order; a gene without a record is a KeyError. */
  function GeneBins(order: seq<PartKey>, items: map<PartKey, seq<Interval>>, records: map<string, Locus>): Result<Bins>
    requires forall k :: k in order ==> k in items
  {
    if order == [] then Ok(map[])
    else
      var n := |order| - 1;
      match GeneBins(order[..n], items, records)
      case Err(e) => Err(e)
      case Ok(bins) =>
        var key := order[n];
        if key.1 !in records then Err(KeyError)
        else Ok(Push(bins, (records[key.1].seqid, records[key.1].strand), GeneBin(key, records[key.1], items[key])))
  }

  /** Part `order[j]` belongs to a recorded gene at `loc` and `b` is its bin. */
  predicate BinOfPart(order: seq<PartKey>, items: map<PartKey, seq<Interval>>, records: map<string, Locus>, j: int,
                      loc: (string, Strand), b: NormBin)
    requires 0 <= j < |order| && order[j] in items
  {
    order[j].1 in records && (records[order[j].1].seqid, records[order[j].1].strand) == loc &&
    b == GeneBin(order[j], records[order[j].1], items[order[j]])
  }

  /** Part `j` belongs to a gene without a record. */
  predicate Unrecorded(order: seq<PartKey>, records: map<string, Locus>, j: int)
    requires 0 <= j < |order|
  {
    order[j].1 !in records
  }

  /** Gene bins fail exactly when a part's gene has no record. */
  lemma {:induction false} GeneBinsErr(order: seq<PartKey>, items: map<PartKey, seq<Interval>>, records: map<string, Locus>)
    requires forall k :: k in order ==> k in items
    ensures GeneBins(order, items, records).Err? <==> exists j :: 0 <= j < |order| && Unrecorded(order, records, j)
    decreases |order|
  {
    if order != [] {
      var n := |order| - 1;
      var pre := order[..n];
      assert forall k :: k in pre ==> k in order;
      GeneBinsErr(pre, items, records);
      if GeneBins(pre, items, records).Err? {
        var j :| 0 <= j < |pre| && Unrecorded(pre, records, j);
        assert Unrecorded(order, records, j);
      } else if Unrecorded(order, records, n) {
        assert GeneBins(order, items, records).Err?;
      } else {
        assert GeneBins(order, items, records).Ok?;
        forall j | 0 <= j < |order| ensures !Unrecorded(order, records, j) {
          if j < n {
            assert !Unrecorded(pre, records, j);
          }
        }
      }
    }
  }

  /** Each part's bin sits under its gene's seqid and strand, and nothing else is binned. */
  lemma GeneBinsSpec(order: seq<PartKey>, items: map<PartKey, seq<Interval>>, records: map<string, Locus>,
                     loc: (string, Strand), b: NormBin)
    requires forall k :: k in order ==> k in items
    requires GeneBins(order, items, records).Ok?
    ensures b in At(GeneBins(order, items, records).value, loc) <==> exists j :: 0 <= j < |order| && BinOfPart(order, items, records, j, loc, b)
  {
    if b in At(GeneBins(order, items, records).value, loc) {
      GeneBinsSound(order, items, records, loc, b);
    }
    if exists j :: 0 <= j < |order| && BinOfPart(order, items, records, j, loc, b) {
      var j :| 0 <= j < |order| && BinOfPart(order, items, records, j, loc, b);
      GeneBinsComplete(order, items, records, j, loc, b);
    }
  }

  /** A binned part bin comes from some part of a recorded gene at that seqid and strand. */
  lemma {:induction false} GeneBinsSound(order: seq<PartKey>, items: map<PartKey, seq<Interval>>, records: map<string, Locus>,
                                         loc: (string, Strand), b: NormBin)
    requires forall k :: k in order ==> k in items
    requires GeneBins(order, items, records).Ok? && b in At(GeneBins(order, items, records).value, loc)
    ensures exists j :: 0 <= j < |order| && BinOfPart(order, items, records, j, loc, b)
    decreases |order|
  {
    var n := |order| - 1;
    var pre := order[..n];
    assert forall k :: k in pre ==> k in order;
    var bins := GeneBins(pre, items, records).value;
    var key := order[n];
    var at := (records[key.1].seqid, records[key.1].strand);
    var nb := GeneBin(key, records[key.1], items[key]);
    assert GeneBins(order, items, records).value == Push(bins, at, nb);
    if b in At(bins, loc) {
      GeneBinsSound(pre, items, records, loc, b);
      var j :| 0 <= j < |pre| && BinOfPart(pre, items, records, j, loc, b);
      assert order[j] == pre[j];
      assert BinOfPart(order, items, records, j, loc, b);
    } else {
      assert loc == at && b == nb;
      assert BinOfPart(order, items, records, n, loc, b);
    }
  }

  /** The bin of every part of a recorded gene is filed under that gene's seqid and strand. */
  lemma {:induction false} GeneBinsComplete(order: seq<PartKey>, items: map<PartKey, seq<Interval>>, records: map<string, Locus>,
                                            j: int, loc: (string, Strand), b: NormBin)
    requires forall k :: k in order ==> k in items
    requires GeneBins(order, items, records).Ok? && 0 <= j < |order| && BinOfPart(order, items, records, j, loc, b)
    ensures b in At(GeneBins(order, items, records).value, loc)
    decreases |order|
  {
    var n := |order| - 1;
    var pre := order[..n];
    assert forall k :: k in pre ==> k in order;
    var bins := GeneBins(pre, items, records).value;
    var key := order[n];
    var at := (records[key.1].seqid, records[key.1].strand);
    var nb := GeneBin(key, records[key.1], items[key]);
    assert GeneBins(order, items, records).value == Push(bins, at, nb);
    var after := At(Push(bins, at, nb), loc);
    if j < n {
      assert order[j] == pre[j];
      assert BinOfPart(pre, items, records, j, loc, b);
      GeneBinsComplete(pre, items, records, j, loc, b);
      assert after == At(bins, loc) || after == At(bins, loc) + [nb];
    } else {
      assert loc == at && b == nb;
      assert after == At(bins, loc) + [nb];
    }
  }

  /** The second loop of `bin_genome`: merge each part and file it under its gene's seqid and strand. */
  method CollectGeneBins(p: Parts, records: map<string, Locus>) returns (r: Result<Bins>)
    requires PartsValid(p)
    ensures r == GeneBins(p.order, MergedParts(p.items), records)
  {
    ghost var merged := MergedParts(p.items);
    var bins: Bins := map[];
    var i := 0;
    while i < |p.order|
      invariant 0 <= i <= |p.order|
      invariant GeneBins(p.order[..i], merged, records) == Ok(bins)
    {
      assert p.order[..i + 1][..i] == p.order[..i];
      var key := p.order[i];
      if key.1 !in records {
        GeneBinsPrefixErr(p.order, merged, records, i + 1);
        return Err(KeyError);
      }
      var loc := records[key.1];
      var intervals := Merge(p.items[key]);
      assert intervals == merged[key];
      bins := Push(bins, (loc.seqid, loc.strand), GeneBin(key, loc, intervals));
      i := i + 1;
    }
    assert p.order[..i] == p.order;
    return Ok(bins);
  }

  lemma {:induction false} GeneBinsPrefixErr(order: seq<PartKey>, items: map<PartKey, seq<Interval>>, records: map<string, Locus>, m: nat)
    requires forall k :: k in order ==> k in items
    requires m <= |order| && GeneBins(order[..m], items, records).Err?
    ensures GeneBins(order, items, records) == GeneBins(order[..m], items, records)
    decreases |order| - m
  {
    if m < |order| {
      assert order[..m + 1][..m] == order[..m];
      GeneBinsPrefixErr(order, items, records, m + 1);
    } else {
      assert order[..m] == order;
    }
  }

  // Intergenic bins of every contig but chrM.

  /** All intervals of the bins, in order. */
  function Flatten(bs: seq<NormBin>): seq<Interval>
  {
    if bs == [] then [] else Flatten(bs[..|bs| - 1]) + bs[|bs| - 1].intervals
  }

  lemma {:induction false} FlattenConcat(x: seq<NormBin>, y: seq<NormBin>)
    ensures Flatten(x + y) == Flatten(x) + Flatten(y)
    decreases |y|
  {
    if y == [] {
      assert x + y == x;
    } else {
      var n := |y| - 1;
      FlattenConcat(x, y[..n]);
      var xy := x + y;
      assert xy[..|xy| - 1] == x + y[..n] && xy[|xy| - 1] == y[n];
      assert Flatten(xy) == Flatten(x + y[..n]) + y[n].intervals;
      assert Flatten(y) == Flatten(y[..n]) + y[n].intervals;
    }
  }

  /** One intergenic bin per region, named after its coordinates. */
  function RegionBins(seqid: string, strand: Strand, ivs: seq<Interval>): (r: seq<NormBin>)
    ensures |r| == |ivs|
  {
    seq(|ivs|, i requires 0 <= i < |ivs| => NormBin(Region(seqid, ivs[i].start, ivs[i].end), "intergenic", seqid, strand, [ivs[i]]))
  }

  lemma {:induction false} FlattenRegions(seqid: string, strand: Strand, ivs: seq<Interval>)
    ensures Flatten(RegionBins(seqid, strand, ivs)) == ivs
    decreases |ivs|
  {
    if ivs != [] {
      var n := |ivs| - 1;
      assert RegionBins(seqid, strand, ivs)[..n] == RegionBins(seqid, strand, ivs[..n]);
      FlattenRegions(seqid, strand, ivs[..n]);
    }
  }

  /** The annotated regions of one (seqid, strand): everything binned there so far, merged. */
  function Annotated(bins: Bins, key: (string, Strand)): seq<Interval>
  {
    Merge(Flatten(At(bins, key)))
  }

  /** The intergenic bins of one (seqid, strand) appended after its gene bins. */
  function StrandIntergenic(bins: Bins, seqid: string, strand: Strand, seqlen: int): Result<Bins>
  {
    var key := (seqid, strand);
    match IntergenicOf(seqlen, Annotated(bins, key))
    case Err(e) => Err(e)
    case Ok(ivs) => Ok(bins[key := At(bins, key) + RegionBins(seqid, strand, ivs)])
  }

  /** The intergenic pass over the contigs in `seqsizes` order, chrM skipped, '+' before '-'. */
  function WithIntergenic(bins: Bins, sizes: seq<(string, int)>): Result<Bins>
  {
    if sizes == [] then Ok(bins)
    else
      var n := |sizes| - 1;
      var (seqid, seqlen) := sizes[n];
      match WithIntergenic(bins, sizes[..n])
      case Err(e) => Err(e)
      case Ok(b) =>
        if seqid == "chrM" then Ok(b)
        else
          match StrandIntergenic(b, seqid, Forward, seqlen)
          case Err(e) => Err(e)
          case Ok(b') => StrandIntergenic(b', seqid, Reverse, seqlen)
  }

  /**
   * After the intergenic bins of a strand, its bins cover exactly
   * [0, seqlen): the merged annotated regions lie on the contig and the
   * intergenic regions are precisely the rest.
   */
  lemma StrandTiles(bins: Bins, seqid: string, strand: Strand, seqlen: int)
    requires StrandIntergenic(bins, seqid, strand, seqlen).Ok?
    ensures var r := StrandIntergenic(bins, seqid, strand, seqlen).value;
      (forall k :: k != (seqid, strand) ==> At(r, k) == At(bins, k)) &&
      Tiles(At(r, (seqid, strand)), At(bins, (seqid, strand)), seqlen)
  {
    var key := (seqid, strand);
    var a := Annotated(bins, key);
    var ivs := IntergenicOf(seqlen, a).value;
    var r := StrandIntergenic(bins, seqid, strand, seqlen).value;
    assert At(r, key) == At(bins, key) + RegionBins(seqid, strand, ivs);
    StrandCover(At(bins, key), seqid, strand, seqlen, ivs);
  }

  /** Gene bins followed by the intergenic bins of their merged regions cover exactly [0, seqlen). */
  lemma StrandCover(genes: seq<NormBin>, seqid: string, strand: Strand, seqlen: int, ivs: seq<Interval>)
    requires IntergenicOf(seqlen, Merge(Flatten(genes))) == Ok(ivs)
    ensures Tiles(genes + RegionBins(seqid, strand, ivs), genes, seqlen)
  {
    var a := Merge(Flatten(genes));
    IntergenicTiles(seqlen, a);
    FlattenConcat(genes, RegionBins(seqid, strand, ivs));
    FlattenRegions(seqid, strand, ivs);
    forall p ensures Covered(Flatten(genes + RegionBins(seqid, strand, ivs)), p) <==> 0 <= p < seqlen {
      CoveredConcat(Flatten(genes), ivs, p);
    }
  }

  /** Contigs not yet reached, chrM and strands other than '+' and '-' keep their bins through the pass. */
  lemma {:induction false} WithIntergenicFrame(bins: Bins, sizes: seq<(string, int)>, key: (string, Strand))
    requires WithIntergenic(bins, sizes).Ok?
    requires key.0 == "chrM" || key.1 == Other || forall i :: 0 <= i < |sizes| ==> sizes[i].0 != key.0
    ensures At(WithIntergenic(bins, sizes).value, key) == At(bins, key)
    decreases |sizes|
  {
    if sizes != [] {
      var n := |sizes| - 1;
      WithIntergenicFrame(bins, sizes[..n], key);
    }
  }

  /** The last contig of the pass leaves every other contig's bins alone. */
  lemma WithIntergenicStep(bins: Bins, sizes: seq<(string, int)>, key: (string, Strand))
    requires sizes != [] && WithIntergenic(bins, sizes).Ok? && sizes[|sizes| - 1].0 != key.0
    ensures WithIntergenic(bins, sizes[..|sizes| - 1]).Ok?
    ensures At(WithIntergenic(bins, sizes).value, key) == At(WithIntergenic(bins, sizes[..|sizes| - 1]).value, key)
  {
  }

  /**
   * Every contig but chrM, on both strands, ends the pass tiled: its gene
   * bins come first and all its bins together cover exactly [0, seqlen).
   */
  lemma {:induction false} WithIntergenicTiles(bins: Bins, sizes: seq<(string, int)>, i: int, strand: Strand)
    requires WithIntergenic(bins, sizes).Ok?
    requires Distinct(Firsts(sizes)) && 0 <= i < |sizes| && sizes[i].0 != "chrM" && strand != Other
    ensures var key := (sizes[i].0, strand);
      Tiles(At(WithIntergenic(bins, sizes).value, key), At(bins, key), sizes[i].1)
    decreases |sizes|
  {
    var n := |sizes| - 1;
    var key := (sizes[i].0, strand);
    if i < n {
      var pre := sizes[..n];
      FirstsStep(sizes, i);
      WithIntergenicTiles(bins, pre, i, strand);
      WithIntergenicStep(bins, sizes, key);
    } else {
      WithIntergenicNewest(bins, sizes, strand);
    }
  }

  /** Dropping the last contig keeps the names distinct, and the last name differs from every earlier one. */
  lemma FirstsStep(sizes: seq<(string, int)>, i: int)
    requires Distinct(Firsts(sizes)) && 0 <= i < |sizes| - 1
    ensures Distinct(Firsts(sizes[..|sizes| - 1])) && sizes[..|sizes| - 1][i] == sizes[i]
    ensures sizes[|sizes| - 1].0 != sizes[i].0
  {
    var n := |sizes| - 1;
    assert Firsts(sizes[..n]) == Firsts(sizes)[..n];
    assert Firsts(sizes)[n] != Firsts(sizes)[i];
  }

  /** The contig reached last: none before it shares its name, so its bins are the gene bins until its own turn. */
  lemma WithIntergenicNewest(bins: Bins, sizes: seq<(string, int)>, strand: Strand)
    requires WithIntergenic(bins, sizes).Ok?
    requires Distinct(Firsts(sizes)) && sizes != [] && sizes[|sizes| - 1].0 != "chrM" && strand != Other
    ensures var n := |sizes| - 1; var key := (sizes[n].0, strand);
      Tiles(At(WithIntergenic(bins, sizes).value, key), At(bins, key), sizes[n].1)
  {
    var n := |sizes| - 1;
    var key := (sizes[n].0, strand);
    var pre := sizes[..n];
    forall j | 0 <= j < |pre| ensures pre[j].0 != key.0 {
      assert Firsts(sizes)[j] != Firsts(sizes)[n];
    }
    WithIntergenicFrame(bins, pre, key);
    WithIntergenicLast(WithIntergenic(bins, pre).value, sizes[n].0, sizes[n].1, strand);
  }

  /** The contig just reached: both strands tiled, in turn. */
  lemma WithIntergenicLast(b: Bins, seqid: string, seqlen: int, strand: Strand)
    requires StrandIntergenic(b, seqid, Forward, seqlen).Ok?
    requires StrandIntergenic(StrandIntergenic(b, seqid, Forward, seqlen).value, seqid, Reverse, seqlen).Ok?
    requires strand != Other
    ensures var r := At(StrandIntergenic(StrandIntergenic(b, seqid, Forward, seqlen).value, seqid, Reverse, seqlen).value, (seqid, strand));
      Tiles(r, At(b, (seqid, strand)), seqlen)
  {
    StrandTiles(b, seqid, Forward, seqlen);
    var b' := StrandIntergenic(b, seqid, Forward, seqlen).value;
    StrandTiles(b', seqid, Reverse, seqlen);
  }

  /** The bins `r` start with `base` and together cover exactly [0, seqlen). */
  ghost predicate Tiles(r: seq<NormBin>, base: seq<NormBin>, seqlen: int)
  {
    Extends(r, base) && forall p :: Covered(Flatten(r), p) <==> 0 <= p < seqlen
  }

  /** `r` starts with `s`. */
  predicate Extends(r: seq<NormBin>, s: seq<NormBin>)
  {
    |s| <= |r| && r[..|s|] == s
  }

  /** The contig names, in order. */
  function Firsts(sizes: seq<(string, int)>): (r: seq<string>)
    ensures |r| == |sizes| && forall i :: 0 <= i < |sizes| ==> r[i] == sizes[i].0
  {
    seq(|sizes|, i requires 0 <= i < |sizes| => sizes[i].0)
  }

  /** The intergenic regions of one strand of a contig, appended to its bins. */
  method AddStrand(bins: Bins, seqid: string, strand: Strand, seqlen: int) returns (r: Result<Bins>)
    ensures r == StrandIntergenic(bins, seqid, strand, seqlen)
  {
    var key := (seqid, strand);
    var annotated := Merge(Flatten(At(bins, key)));
    var ivs := Intergenic(seqlen, annotated);
    if ivs.Err? {
      return Err(ivs.error);
    }
    return Ok(bins[key := At(bins, key) + RegionBins(seqid, strand, ivs.value)]);
  }

  /** The intergenic pass of `bin_genome`. */
  method IntergenicPass(bins: Bins, sizes: seq<(string, int)>) returns (r: Result<Bins>)
    ensures r == WithIntergenic(bins, sizes)
  {
    var b := bins;
    var i := 0;
    while i < |sizes|
      invariant 0 <= i <= |sizes|
      invariant WithIntergenic(bins, sizes[..i]) == Ok(b)
    {
      assert sizes[..i + 1][..i] == sizes[..i];
      var (seqid, seqlen) := sizes[i];
      if seqid != "chrM" {
        var forward := AddStrand(b, seqid, Forward, seqlen);
        if forward.Err? {
          IntergenicPrefixErr(bins, sizes, i + 1);
          return Err(forward.error);
        }
        var reverse := AddStrand(forward.value, seqid, Reverse, seqlen);
        if reverse.Err? {
          IntergenicPrefixErr(bins, sizes, i + 1);
          return Err(reverse.error);
        }
        b := reverse.value;
      }
      i := i + 1;
    }
    assert sizes[..i] == sizes;
    return Ok(b);
  }

  lemma {:induction false} IntergenicPrefixErr(bins: Bins, sizes: seq<(string, int)>, m: nat)
    requires m <= |sizes| && WithIntergenic(bins, sizes[..m]).Err?
    ensures WithIntergenic(bins, sizes) == WithIntergenic(bins, sizes[..m])
    decreases |sizes| - m
  {
    if m < |sizes| {
      assert sizes[..m + 1][..m] == sizes[..m];
      IntergenicPrefixErr(bins, sizes, m + 1);
    } else {
      assert sizes[..m] == sizes;
    }
  }

  // Viral segments and the mitochondrion.

  /** A viral segment: the virus, the segment and its length. */
  type Segment = (string, string, int)

  /** One whole-segment vRNA bin per segment on `strand`. */
  function VirusBins(bins: Bins, strand: Strand, segs: seq<Segment>): Bins
  {
    if segs == [] then bins
    else
      var n := |segs| - 1;
      var (virus, seqid, seqlen) := segs[n];
      Push(VirusBins(bins, strand, segs[..n]), (seqid, strand), NormBin(Virus(virus, strand), "vRNA", seqid, strand, [Interval(0, seqlen)]))
  }

  /** `seqsizes[name]`. */
  function Lookup(sizes: seq<(string, int)>, name: string): (r: Option<int>)
    ensures r.Some? <==> name in Firsts(sizes)
    ensures r.Some? ==> (name, r.value) in sizes
  {
    if sizes == [] then None
    else if sizes[0].0 == name then Some(sizes[0].1)
    else
      var r := Lookup(sizes[1..], name);
      assert Firsts(sizes) == [sizes[0].0] + Firsts(sizes[1..]);
      r
  }

  /** The whole-chrM MT bin on one strand. */
  function MtBin(strand: Strand, size: int): NormBin
  {
    NormBin(Mito(strand), "MT", "chrM", strand, [Interval(0, size)])
  }

  /** For '+' then '-': the vRNA bins, then the MT bin; an assembly without chrM is a KeyError. */
  function Extras(bins: Bins, sizes: seq<(string, int)>, segs: seq<Segment>): Result<Bins>
  {
    match Lookup(sizes, "chrM")
    case None => Err(KeyError)
    case Some(mt) =>
      var forward := Push(VirusBins(bins, Forward, segs), ("chrM", Forward), MtBin(Forward, mt));
      Ok(Push(VirusBins(forward, Reverse, segs), ("chrM", Reverse), MtBin(Reverse, mt)))
  }

  /** Keys that are not a viral segment on that strand keep their bins. */
  lemma {:induction false} VirusBinsFrame(bins: Bins, strand: Strand, segs: seq<Segment>, key: (string, Strand))
    requires key.1 != strand || forall i :: 0 <= i < |segs| ==> segs[i].1 != key.0
    ensures At(VirusBins(bins, strand, segs), key) == At(bins, key)
    decreases |segs|
  {
    if segs != [] {
      VirusBinsFrame(bins, strand, segs[..|segs| - 1], key);
    }
  }

  /** Every segment gets its whole-segment vRNA bin on the strand. */
  lemma {:induction false} VirusBinsHave(bins: Bins, strand: Strand, segs: seq<Segment>, i: int)
    requires 0 <= i < |segs|
    ensures NormBin(Virus(segs[i].0, strand), "vRNA", segs[i].1, strand, [Interval(0, segs[i].2)]) in At(VirusBins(bins, strand, segs), (segs[i].1, strand))
    decreases |segs|
  {
    var n := |segs| - 1;
    if i < n {
      VirusBinsHave(bins, strand, segs[..n], i);
    }
  }

  /**
   * With chrM in the assembly, each strand of chrM ends with its whole-contig
   * MT bin and every viral segment gets a vRNA bin on both strands; without
   * chrM the step fails.
   */
  lemma ExtrasSpec(bins: Bins, sizes: seq<(string, int)>, segs: seq<Segment>)
    ensures Extras(bins, sizes, segs).Err? <==> "chrM" !in Firsts(sizes)
    ensures Extras(bins, sizes, segs).Ok? ==>
      var r := Extras(bins, sizes, segs).value; var mt := Lookup(sizes, "chrM").value;
      ("chrM", mt) in sizes &&
      At(r, ("chrM", Reverse))[|At(r, ("chrM", Reverse))| - 1] == MtBin(Reverse, mt) &&
      (forall i :: 0 <= i < |segs| && segs[i].1 != "chrM" ==>
        NormBin(Virus(segs[i].0, Forward), "vRNA", segs[i].1, Forward, [Interval(0, segs[i].2)]) in At(r, (segs[i].1, Forward)) &&
        NormBin(Virus(segs[i].0, Reverse), "vRNA", segs[i].1, Reverse, [Interval(0, segs[i].2)]) in At(r, (segs[i].1, Reverse)))
  {
    if Extras(bins, sizes, segs).Ok? {
      var r := Extras(bins, sizes, segs).value;
      forall i | 0 <= i < |segs| && segs[i].1 != "chrM"
        ensures NormBin(Virus(segs[i].0, Forward), "vRNA", segs[i].1, Forward, [Interval(0, segs[i].2)]) in At(r, (segs[i].1, Forward))
        ensures NormBin(Virus(segs[i].0, Reverse), "vRNA", segs[i].1, Reverse, [Interval(0, segs[i].2)]) in At(r, (segs[i].1, Reverse))
      {
        ExtrasVirus(bins, sizes, segs, i);
      }
    }
  }

  /** One viral segment not called chrM has its vRNA bin on both strands. */
  lemma ExtrasVirus(bins: Bins, sizes: seq<(string, int)>, segs: seq<Segment>, i: int)
    requires Extras(bins, sizes, segs).Ok? && 0 <= i < |segs| && segs[i].1 != "chrM"
    ensures var r := Extras(bins, sizes, segs).value;
      NormBin(Virus(segs[i].0, Forward), "vRNA", segs[i].1, Forward, [Interval(0, segs[i].2)]) in At(r, (segs[i].1, Forward)) &&
      NormBin(Virus(segs[i].0, Reverse), "vRNA", segs[i].1, Reverse, [Interval(0, segs[i].2)]) in At(r, (segs[i].1, Reverse))
  {
    var mt := Lookup(sizes, "chrM").value;
    var forward := Push(VirusBins(bins, Forward, segs), ("chrM", Forward), MtBin(Forward, mt));
    VirusBinsHave(bins, Forward, segs, i);
    VirusBinsHave(forward, Reverse, segs, i);
    VirusBinsFrame(forward, Reverse, segs, (segs[i].1, Forward));
  }

  /** The chrM bins on '+' end with the MT bin too, unless a viral segment is itself called chrM. */
  lemma ExtrasMtForward(bins: Bins, sizes: seq<(string, int)>, segs: seq<Segment>)
    requires Extras(bins, sizes, segs).Ok?
    ensures var r := Extras(bins, sizes, segs).value;
      |At(r, ("chrM", Forward))| > 0 &&
      At(r, ("chrM", Forward))[|At(r, ("chrM", Forward))| - 1] == MtBin(Forward, Lookup(sizes, "chrM").value)
  {
    var mt := Lookup(sizes, "chrM").value;
    var forward := Push(VirusBins(bins, Forward, segs), ("chrM", Forward), MtBin(Forward, mt));
    VirusBinsFrame(forward, Reverse, segs, ("chrM", Forward));
  }

  /** `for virus, segments in ...: for seqid, seqlen in segments: ...` on one strand. */
  method AddVirusBins(bins: Bins, strand: Strand, segs: seq<Segment>) returns (b: Bins)
    ensures b == VirusBins(bins, strand, segs)
  {
    b := bins;
    var i := 0;
    while i < |segs|
      invariant 0 <= i <= |segs|
      invariant b == VirusBins(bins, strand, segs[..i])
    {
      assert segs[..i + 1][..i] == segs[..i];
      var (virus, seqid, seqlen) := segs[i];
      b := Push(b, (seqid, strand), NormBin(Virus(virus, strand), "vRNA", seqid, strand, [Interval(0, seqlen)]));
      i := i + 1;
    }
    assert segs[..i] == segs;
  }

  /** The viral and MT loops of `bin_genome`, '+' then '-'. */
  method AddExtras(bins: Bins, sizes: seq<(string, int)>, segs: seq<Segment>) returns (r: Result<Bins>)
    ensures r == Extras(bins, sizes, segs)
  {
    var b := AddVirusBins(bins, Forward, segs);
    var found := Lookup(sizes, "chrM");
    if found.None? {
      return Err(KeyError);
    }
    b := Push(b, ("chrM", Forward), MtBin(Forward, found.value));
    b := AddVirusBins(b, Reverse, segs);
    b := Push(b, ("chrM", Reverse), MtBin(Reverse, found.value));
    return Ok(b);
  }

  // The whole of `bin_genome`.

  /** Gene parts, gene bins, intergenic bins, then viral and MT bins. */
  function Binned(rnas: seq<Rna>, records: map<string, Locus>, sizes: seq<(string, int)>, segs: seq<Segment>): Result<Bins>
  {
    match PartsOf(rnas)
    case Err(e) => Err(e)
    case Ok(p) =>
      match GeneBins(p.order, MergedParts(p.items), records)
      case Err(e) => Err(e)
      case Ok(genes) =>
        match WithIntergenic(genes, sizes)
        case Err(e) => Err(e)
        case Ok(b) => Extras(b, sizes, segs)
  }

  /** `bin_genome`: every stage in turn, stopping at the first error. */
  method BinGenomeJob(rnas: seq<Rna>, records: map<string, Locus>, sizes: seq<(string, int)>, segs: seq<Segment>)
    returns (r: Result<Bins>)
    ensures r == Binned(rnas, records, sizes, segs)
  {
    var parts := CollectParts(rnas);
    if parts.Err? {
      return Err(parts.error);
    }
    var genes := CollectGeneBins(parts.value, records);
    if genes.Err? {
      return Err(genes.error);
    }
    var b := IntergenicPass(genes.value, sizes);
    if b.Err? {
      return Err(b.error);
    }
    r := AddExtras(b.value, sizes, segs);
  }

  /**
   * Every host contig other than chrM that is not also a viral segment ends
   * up tiled on both strands: its gene bins come first and all its bins
   * together cover exactly [0, seqlen).
   */
  lemma BinnedTiles(rnas: seq<Rna>, records: map<string, Locus>, sizes: seq<(string, int)>, segs: seq<Segment>,
                    i: int, strand: Strand)
    requires Binned(rnas, records, sizes, segs).Ok?
    requires Distinct(Firsts(sizes)) && 0 <= i < |sizes| && sizes[i].0 != "chrM" && strand != Other
    requires forall j :: 0 <= j < |segs| ==> segs[j].1 != sizes[i].0
    ensures var p := PartsOf(rnas).value; var key := (sizes[i].0, strand);
      var genes := GeneBins(p.order, MergedParts(p.items), records).value;
      Tiles(At(Binned(rnas, records, sizes, segs).value, key), At(genes, key), sizes[i].1)
  {
    var p := PartsOf(rnas).value;
    var genes := GeneBins(p.order, MergedParts(p.items), records).value;
    var key := (sizes[i].0, strand);
    WithIntergenicTiles(genes, sizes, i, strand);
    var b := WithIntergenic(genes, sizes).value;
    var mt := Lookup(sizes, "chrM").value;
    VirusBinsFrame(b, Forward, segs, key);
    var forward := Push(VirusBins(b, Forward, segs), ("chrM", Forward), MtBin(Forward, mt));
    VirusBinsFrame(forward, Reverse, segs, key);
    var r := Push(VirusBins(forward, Reverse, segs), ("chrM", Reverse), MtBin(Reverse, mt));
    assert Binned(rnas, records, sizes, segs) == Extras(b, sizes, segs) == Ok(r);
    assert At(r, key) == At(b, key);
  }
}
