// Half-open genomic intervals [start, end) and the interval-set operations the
// analysis code relies on: merging, pairwise overlap pieces and subtraction.
module Intervals {
  import opened Common
  import opened Sorting

  datatype Interval = Interval(start: int, end: int) {
    predicate Valid() { start <= end }
    predicate NonEmpty() { start < end }
    function Len(): int { end - start }
    predicate Contains(p: int) { start <= p < end }
  }

  /** biobit's `Interval(start, end)`, which refuses start > end. */
  function MakeInterval(start: int, end: int): (r: Result<Interval>)
    ensures r.Ok? <==> start <= end
    ensures r.Ok? ==> r.value == Interval(start, end) && r.value.Valid()
    ensures r.Err? ==> r.error == InvalidInterval
  {
    if start <= end then Ok(Interval(start, end)) else Err(InvalidInterval)
  }

  /** Two intervals share at least one position. */
  predicate Overlaps(a: Interval, b: Interval)
  {
    a.NonEmpty() && b.NonEmpty() && a.start < b.end && b.start < a.end
  }

  lemma OverlapsShare(a: Interval, b: Interval)
    ensures Overlaps(a, b) <==> exists p :: a.Contains(p) && b.Contains(p)
  {
    if Overlaps(a, b) {
      var p := Max(a.start, b.start);
      assert a.Contains(p) && b.Contains(p);
    }
  }

  predicate AllValid(s: seq<Interval>)
  {
    forall i :: 0 <= i < |s| ==> s[i].Valid()
  }

  predicate AllNonEmpty(s: seq<Interval>)
  {
    forall i :: 0 <= i < |s| ==> s[i].NonEmpty()
  }

  /** Position `p` lies in some interval of `s`. */
  predicate Covered(s: seq<Interval>, p: int)
  {
    exists i :: 0 <= i < |s| && s[i].Contains(p)
  }

  /** Sorted, pairwise disjoint and not touching: the shape `Interval.merge` returns. */
  predicate Separated(s: seq<Interval>)
  {
    (forall i :: 0 <= i < |s| ==> s[i].NonEmpty()) &&
    (forall i, j :: 0 <= i < j < |s| ==> s[i].end < s[j].start)
  }

  function StartLe(): (Interval, Interval) -> bool
  {
    (a: Interval, b: Interval) => a.start <= b.start
  }

  lemma StartLePreorder()
    ensures TotalPreorder(StartLe())
  {
  }

  predicate SortedByStart(s: seq<Interval>)
  {
    forall i, j :: 0 <= i < j < |s| ==> s[i].start <= s[j].start
  }

  /** Intervals sorted by start (`sorted(..., key=lambda x: x.start)`). */
  function SortByStart(s: seq<Interval>): (r: seq<Interval>)
    ensures multiset(r) == multiset(s) && |r| == |s|
    ensures SortedByStart(r)
    ensures forall x :: x in r <==> x in s
  {
    StartLePreorder();
    SortByMembers(s, StartLe());
    SortBy(s, StartLe())
  }

  lemma CoveredSameElements(s: seq<Interval>, t: seq<Interval>, p: int)
    requires forall x :: x in s <==> x in t
    ensures Covered(s, p) <==> Covered(t, p)
  {
    if Covered(s, p) {
      var i :| 0 <= i < |s| && s[i].Contains(p);
      assert s[i] in t;
      var j :| 0 <= j < |t| && t[j] == s[i];
    }
    if Covered(t, p) {
      var i :| 0 <= i < |t| && t[i].Contains(p);
      assert t[i] in s;
      var j :| 0 <= j < |s| && s[j] == t[i];
    }
  }

  lemma CoveredConcat(s: seq<Interval>, t: seq<Interval>, p: int)
    ensures Covered(s + t, p) <==> Covered(s, p) || Covered(t, p)
  {
    if Covered(s + t, p) {
      var i :| 0 <= i < |s + t| && (s + t)[i].Contains(p);
      if i < |s| { assert s[i].Contains(p); } else { assert t[i - |s|].Contains(p); }
    }
    if Covered(s, p) {
      var i :| 0 <= i < |s| && s[i].Contains(p);
      assert (s + t)[i].Contains(p);
    }
    if Covered(t, p) {
      var i :| 0 <= i < |t| && t[i].Contains(p);
      assert (s + t)[|s| + i].Contains(p);
    }
  }

  lemma CoveredCons(x: Interval, t: seq<Interval>, p: int)
    ensures Covered([x] + t, p) <==> x.Contains(p) || Covered(t, p)
  {
    CoveredConcat([x], t, p);
    if x.Contains(p) { assert [x][0].Contains(p); }
  }

  /**
   * Coalesces `rest` (sorted by start) into the running interval `cur`:
   * touching or overlapping intervals are fused.
   */
  function {:induction false} MergeFrom(cur: Interval, rest: seq<Interval>): (r: seq<Interval>)
    requires cur.NonEmpty() && AllNonEmpty(rest)
    requires SortedByStart(rest)
    requires forall i :: 0 <= i < |rest| ==> cur.start <= rest[i].start
    ensures |r| >= 1 && r[0].start == cur.start
    ensures Separated(r)
    ensures forall i :: 0 <= i < |r| ==> cur.start <= r[i].start
    ensures forall p :: Covered(r, p) <==> cur.Contains(p) || Covered(rest, p)
    decreases |rest|
  {
    if rest == [] then
      assert forall p :: cur.Contains(p) ==> [cur][0].Contains(p);
      [cur]
    else if rest[0].start <= cur.end then
      var next := Interval(cur.start, Max(cur.end, rest[0].end));
      var r := MergeFrom(next, rest[1..]);
      assert forall p :: Covered(rest, p) <==> rest[0].Contains(p) || Covered(rest[1..], p) by {
        assert rest == [rest[0]] + rest[1..];
        forall p ensures Covered(rest, p) <==> rest[0].Contains(p) || Covered(rest[1..], p) {
          CoveredCons(rest[0], rest[1..], p);
        }
      }
      r
    else
      var t := MergeFrom(rest[0], rest[1..]);
      var r := [cur] + t;
      assert forall p :: Covered(rest, p) <==> rest[0].Contains(p) || Covered(rest[1..], p) by {
        assert rest == [rest[0]] + rest[1..];
        forall p ensures Covered(rest, p) <==> rest[0].Contains(p) || Covered(rest[1..], p) {
          CoveredCons(rest[0], rest[1..], p);
        }
      }
      assert forall p :: Covered(r, p) <==> cur.Contains(p) || Covered(t, p) by {
        forall p ensures Covered(r, p) <==> cur.Contains(p) || Covered(t, p) {
          CoveredCons(cur, t, p);
        }
      }
      r
  }

  /** Drops empty intervals, keeping the order of the rest. */
  function NonEmptyOnly(s: seq<Interval>): (r: seq<Interval>)
    ensures AllNonEmpty(r)
    ensures forall x :: x in r <==> x in s && x.NonEmpty()
    ensures forall p :: Covered(r, p) <==> Covered(s, p)
  {
    if s == [] then []
    else
      var t := NonEmptyOnly(s[1..]);
      assert s == [s[0]] + s[1..];
      assert forall p :: Covered(s, p) <==> s[0].Contains(p) || Covered(s[1..], p) by {
        forall p ensures Covered(s, p) <==> s[0].Contains(p) || Covered(s[1..], p) {
          CoveredCons(s[0], s[1..], p);
        }
      }
      if s[0].NonEmpty() then
        assert forall p :: Covered([s[0]] + t, p) <==> s[0].Contains(p) || Covered(t, p) by {
          forall p ensures Covered([s[0]] + t, p) <==> s[0].Contains(p) || Covered(t, p) {
            CoveredCons(s[0], t, p);
          }
        }
        [s[0]] + t
      else t
  }

  /**
   * `Interval.merge`: the union of `s` as sorted, disjoint, non-touching,
   * non-empty intervals covering exactly the positions `s` covers.
   */
  function Merge(s: seq<Interval>): (r: seq<Interval>)
    ensures Separated(r)
    ensures forall p :: Covered(r, p) <==> Covered(s, p)
  {
    var u := NonEmptyOnly(s);
    var t := SortByStart(u);
    forall p ensures Covered(t, p) <==> Covered(u, p) {
      CoveredSameElements(t, u, p);
    }
    assert AllNonEmpty(t) by {
      forall i | 0 <= i < |t| ensures t[i].NonEmpty() {
        assert t[i] in u;
      }
    }
    MergeSorted(t)
  }

  function MergeSorted(t: seq<Interval>): (r: seq<Interval>)
    requires AllNonEmpty(t) && SortedByStart(t)
    ensures Separated(r)
    ensures forall p :: Covered(r, p) <==> Covered(t, p)
  {
    if t == [] then []
    else
      forall p ensures Covered(t, p) <==> t[0].Contains(p) || Covered(t[1..], p) {
        assert t == [t[0]] + t[1..];
        CoveredCons(t[0], t[1..], p);
      }
      MergeFrom(t[0], t[1..])
  }

  /** Merging never reaches outside the bounds its inputs respect. */
  lemma MergeWithin(s: seq<Interval>, lo: int, hi: int)
    requires forall i :: 0 <= i < |s| ==> lo <= s[i].start && s[i].end <= hi
    ensures forall i :: 0 <= i < |Merge(s)| ==> lo <= Merge(s)[i].start && Merge(s)[i].end <= hi
  {
    var r := Merge(s);
    forall i | 0 <= i < |r| ensures lo <= r[i].start && r[i].end <= hi {
      assert r[i].Contains(r[i].start) && r[i].Contains(r[i].end - 1);
      assert Covered(r, r[i].start) && Covered(r, r[i].end - 1);
      var j :| 0 <= j < |s| && s[j].Contains(r[i].start);
      var k :| 0 <= k < |s| && s[k].Contains(r[i].end - 1);
    }
  }

  /** Separated intervals are ordered by start, ascending. */
  lemma SeparatedSorted(s: seq<Interval>)
    requires Separated(s)
    ensures SortedByStart(s)
  {
  }

  /**
   * `Interval.overlap(a, b)`: every non-empty intersection of an interval of
   * `a` with an interval of `b`, in the order of `a` then `b`.
   */
  function OverlapPieces(a: seq<Interval>, b: seq<Interval>): (r: seq<Interval>)
    ensures AllNonEmpty(r)
    ensures forall p :: Covered(r, p) <==> Covered(a, p) && Covered(b, p)
    ensures r == [] <==> forall i, j :: 0 <= i < |a| && 0 <= j < |b| ==> !Overlaps(a[i], b[j])
  {
    if a == [] then []
    else
      var head := Clip(a[0], b);
      var tail := OverlapPieces(a[1..], b);
      forall p ensures Covered(a, p) <==> a[0].Contains(p) || Covered(a[1..], p) {
        assert a == [a[0]] + a[1..];
        CoveredCons(a[0], a[1..], p);
      }
      forall p ensures Covered(head + tail, p) <==> Covered(head, p) || Covered(tail, p) {
        CoveredConcat(head, tail, p);
      }
      assert (forall i, j :: 0 <= i < |a| && 0 <= j < |b| ==> !Overlaps(a[i], b[j])) <==>
        (forall j :: 0 <= j < |b| ==> !Overlaps(a[0], b[j])) &&
        (forall i, j :: 0 <= i < |a[1..]| && 0 <= j < |b| ==> !Overlaps(a[1..][i], b[j])) by {
        assert forall i :: 1 <= i < |a| ==> a[i] == a[1..][i - 1];
      }
      head + tail
  }

  /** The non-empty intersections of `x` with each interval of `b`. */
  function Clip(x: Interval, b: seq<Interval>): (r: seq<Interval>)
    ensures AllNonEmpty(r)
    ensures forall p :: Covered(r, p) <==> x.Contains(p) && Covered(b, p)
    ensures r == [] <==> forall j :: 0 <= j < |b| ==> !Overlaps(x, b[j])
  {
    if b == [] then []
    else
      var tail := Clip(x, b[1..]);
      forall p ensures Covered(b, p) <==> b[0].Contains(p) || Covered(b[1..], p) {
        assert b == [b[0]] + b[1..];
        CoveredCons(b[0], b[1..], p);
      }
      assert (forall j :: 0 <= j < |b| ==> !Overlaps(x, b[j])) <==>
        !Overlaps(x, b[0]) && (forall j :: 0 <= j < |b[1..]| ==> !Overlaps(x, b[1..][j])) by {
        assert forall j :: 1 <= j < |b| ==> b[j] == b[1..][j - 1];
      }
      if Overlaps(x, b[0]) then
        var piece := Interval(Max(x.start, b[0].start), Min(x.end, b[0].end));
        assert piece.NonEmpty();
        assert AllNonEmpty([piece] + tail) by {
          assert forall i :: 1 <= i < |tail| + 1 ==> ([piece] + tail)[i] == tail[i - 1];
        }
        forall p ensures Covered([piece] + tail, p) <==> piece.Contains(p) || Covered(tail, p) {
          CoveredCons(piece, tail, p);
        }
        [piece] + tail
      else
        tail
  }

  /**
   * The parts of `x` not covered by the separated intervals `bs`
   * (bedtools subtract of a single interval).
   */
  function {:induction false} Cut(x: Interval, bs: seq<Interval>): (r: seq<Interval>)
    requires Separated(bs)
    ensures Separated(r)
    ensures forall i :: 0 <= i < |r| ==> x.start <= r[i].start && r[i].end <= x.end
    ensures forall p :: Covered(r, p) <==> x.Contains(p) && !Covered(bs, p)
    decreases |bs|
  {
    if bs == [] then
      if x.NonEmpty() then
        assert forall p :: x.Contains(p) ==> [x][0].Contains(p);
        [x]
      else []
    else
      forall p ensures Covered(bs, p) <==> bs[0].Contains(p) || Covered(bs[1..], p) {
        assert bs == [bs[0]] + bs[1..];
        CoveredCons(bs[0], bs[1..], p);
      }
      if bs[0].end <= x.start then
        Cut(x, bs[1..])
      else if x.end <= bs[0].start then
        if x.NonEmpty() then
          assert forall p :: x.Contains(p) ==> [x][0].Contains(p);
          [x]
        else []
      else
        var head := if x.start < bs[0].start then [Interval(x.start, bs[0].start)] else [];
        var tail := Cut(Interval(bs[0].end, x.end), bs[1..]);
        forall p ensures Covered(head + tail, p) <==> Covered(head, p) || Covered(tail, p) {
          CoveredConcat(head, tail, p);
        }
        assert forall p :: Covered(head, p) <==> x.start <= p < bs[0].start by {
          if x.start < bs[0].start {
            assert forall p :: x.start <= p < bs[0].start ==> head[0].Contains(p);
          }
        }
        head + tail
  }

  /**
   * Every interval of `a`, minus the positions covered by `b`
   * (`bedtools subtract`): the pieces that remain, in the order of `a`.
   */
  function Subtract(a: seq<Interval>, b: seq<Interval>): (r: seq<Interval>)
    ensures AllNonEmpty(r)
    ensures forall p :: Covered(r, p) <==> Covered(a, p) && !Covered(b, p)
  {
    SubtractMerged(a, Merge(b))
  }

  function SubtractMerged(a: seq<Interval>, bs: seq<Interval>): (r: seq<Interval>)
    requires Separated(bs)
    ensures AllNonEmpty(r)
    ensures forall p :: Covered(r, p) <==> Covered(a, p) && !Covered(bs, p)
  {
    if a == [] then []
    else
      var head := Cut(a[0], bs);
      var tail := SubtractMerged(a[1..], bs);
      forall p ensures Covered(a, p) <==> a[0].Contains(p) || Covered(a[1..], p) {
        assert a == [a[0]] + a[1..];
        CoveredCons(a[0], a[1..], p);
      }
      forall p ensures Covered(head + tail, p) <==> Covered(head, p) || Covered(tail, p) {
        CoveredConcat(head, tail, p);
      }
      head + tail
  }

  /** Sum of the lengths of `s`. */
  function TotalLen(s: seq<Interval>): int
  {
    if s == [] then 0 else s[0].Len() + TotalLen(s[1..])
  }

  lemma {:induction false} TotalLenConcat(s: seq<Interval>, t: seq<Interval>)
    ensures TotalLen(s + t) == TotalLen(s) + TotalLen(t)
    decreases |s|
  {
    if s == [] {
      assert s + t == t;
    } else {
      assert (s + t)[1..] == s[1..] + t;
      TotalLenConcat(s[1..], t);
    }
  }

  /** Non-empty intervals have a positive total length as soon as there is one. */
  lemma {:induction false} TotalLenPositive(s: seq<Interval>)
    requires AllNonEmpty(s)
    ensures TotalLen(s) >= 0 && (s != [] ==> TotalLen(s) > 0)
    decreases |s|
  {
    if s != [] {
      assert AllNonEmpty(s[1..]) by {
        forall i | 0 <= i < |s| - 1 ensures s[1..][i].NonEmpty() {
          assert s[1..][i] == s[i + 1];
        }
      }
      TotalLenPositive(s[1..]);
    }
  }

  /** Python's tuple order on intervals: by start, then by end. */
  predicate IntervalLe(a: Interval, b: Interval)
  {
    a.start < b.start || (a.start == b.start && a.end <= b.end)
  }

  lemma IntervalLePreorder()
    ensures TotalPreorder(IntervalLe)
  {
  }
}
