// The transcription-boundary index: positions kept in sorted order with a
// label each, answering "closest boundary on the left/right" and
// "window up to the closest boundary" queries.
module Boundaries {
  import opened Common
  import opened Sorting
  import opened Intervals
  import opened Scoring

  datatype Side = Left | Right | OtherSide

  /** Python's tuple order on (position, label). */
  predicate EntryLe(a: (int, string), b: (int, string))
  {
    a.0 < b.0 || (a.0 == b.0 && StrLe(a.1, b.1))
  }

  lemma EntryLePreorder()
    ensures TotalPreorder(EntryLe)
  {
    forall a: (int, string), b: (int, string) ensures EntryLe(a, b) || EntryLe(b, a) {
      StrLeTotal(a.1, b.1);
    }
    forall a: (int, string), b: (int, string), c: (int, string) | EntryLe(a, b) && EntryLe(b, c)
      ensures EntryLe(a, c)
    {
      if a.0 == b.0 && b.0 == c.0 {
        StrLeTransitive(a.1, b.1, c.1);
      }
    }
  }

  /** The largest index holding a position below `pos`, or -1. */
  function LastBelow(b: seq<int>, pos: int): (k: int)
    ensures -1 <= k < |b|
    ensures k >= 0 ==> b[k] < pos
    ensures forall j :: k < j < |b| ==> b[j] >= pos
  {
    if b == [] then -1
    else if b[|b| - 1] < pos then |b| - 1
    else LastBelow(b[..|b| - 1], pos)
  }

  /** The smallest index holding a position above `pos`, or |b|. */
  function FirstAbove(b: seq<int>, pos: int): (k: int)
    ensures 0 <= k <= |b|
    ensures k < |b| ==> b[k] > pos
    ensures forall j :: 0 <= j < k ==> b[j] <= pos
  {
    if b == [] then 0
    else if b[0] > pos then 0
    else
      var k := 1 + FirstAbove(b[1..], pos);
      assert forall j :: 1 <= j < k ==> b[j] == b[1..][j - 1];
      k
  }

  /**
   * What `closest` answers. An empty index fails on `boundaries[0]`, a
   * position outside [first, last] fails the assertion; on the left the
   * answer is the nearest smaller position, except at the first boundary
   * where index -1 wraps round to the last boundary; on the right it is the
   * nearest larger position; any other side is a `ValueError`.
   */
  function Nearest(b: seq<int>, d: seq<string>, pos: int, side: Side): Result<(int, string)>
    requires |b| == |d|
  {
    if b == [] then Err(IndexError)
    else if !(b[0] <= pos <= b[|b| - 1]) then Err(AssertionError)
    else
      match side
      case Left =>
        var k := LastBelow(b, pos);
        if k >= 0 then Ok((b[k], d[k]))
        else if b[|b| - 1] != pos then Ok((b[|b| - 1], d[|d| - 1]))
        else Err(IndexError)
      case Right =>
        var k := FirstAbove(b, pos);
        if k < |b| then Ok((b[k], d[k])) else Err(IndexError)
      case OtherSide => Err(ValueError)
  }

  /** Inside the index, the left neighbour is the closest stored position strictly below `pos`. */
  lemma NearestLeft(b: seq<int>, d: seq<string>, pos: int)
    requires |b| == |d| && SortedInts(b) && |b| > 0 && b[0] < pos <= b[|b| - 1]
    ensures Nearest(b, d, pos, Left).Ok?
    ensures var (n, _) := Nearest(b, d, pos, Left).value;
      n < pos && n in b && forall x :: x in b && x < pos ==> x <= n
  {
  }

  /** Inside the index, the right neighbour is the closest stored position strictly above `pos`. */
  lemma NearestRight(b: seq<int>, d: seq<string>, pos: int)
    requires |b| == |d| && SortedInts(b) && |b| > 0 && b[0] <= pos < b[|b| - 1]
    ensures Nearest(b, d, pos, Right).Ok?
    ensures var (n, _) := Nearest(b, d, pos, Right).value;
      n > pos && n in b && forall x :: x in b && x > pos ==> n <= x
  {
  }

  /** At the first boundary the left neighbour wraps round to the last boundary. */
  lemma NearestLeftWraps(b: seq<int>, d: seq<string>)
    requires |b| == |d| && SortedInts(b) && |b| > 0 && b[0] < b[|b| - 1]
    ensures Nearest(b, d, b[0], Left) == Ok((b[|b| - 1], d[|d| - 1]))
  {
  }

  /** At the last boundary there is no right neighbour; with one distinct position there is no left one either. */
  lemma NearestEdges(b: seq<int>, d: seq<string>)
    requires |b| == |d| && SortedInts(b) && |b| > 0
    ensures Nearest(b, d, b[|b| - 1], Right) == Err(IndexError)
    ensures b[0] == b[|b| - 1] ==> Nearest(b, d, b[0], Left) == Err(IndexError)
  {
  }

  /** The sorted entries as positions and labels. */
  function Entries(b: seq<int>, d: seq<string>): (r: seq<(int, string)>)
    requires |b| == |d|
    ensures |r| == |b|
  {
    seq(|b|, i requires 0 <= i < |b| => (b[i], d[i]))
  }

  /** A falsy `maxsize` (None or 0) means no clipping. */
  predicate Clips(maxsize: Option<int>)
  {
    maxsize.Some? && maxsize.value != 0
  }

  class BoundariesIndex {
    var boundaries: seq<int>
    var data: seq<string>

    ghost predicate Valid()
      reads this
    {
      |boundaries| == |data| && SortedInts(boundaries)
    }

    /** Stores the entries sorted by (position, label), positions and labels side by side. */
    constructor (entries: seq<(int, string)>)
      ensures Valid()
      ensures multiset(Entries(boundaries, data)) == multiset(entries)
      ensures SortedBy(Entries(boundaries, data), EntryLe)
    {
      EntryLePreorder();
      var sorted := SortBy(entries, EntryLe);
      var positions, labels := [], [];
      var i := 0;
      while i < |sorted|
        invariant 0 <= i <= |sorted| && |positions| == |labels| == i
        invariant forall j :: 0 <= j < i ==> (positions[j], labels[j]) == sorted[j]
      {
        positions := positions + [sorted[i].0];
        labels := labels + [sorted[i].1];
        i := i + 1;
      }
      assert Entries(positions, labels) == sorted;
      forall x, y | 0 <= x < y < |positions| ensures positions[x] <= positions[y] {
        assert EntryLe(sorted[x], sorted[y]);
      }
      boundaries, data := positions, labels;
    }

    /** `closest`: bisect, then step over positions equal to `pos` with Python's negative indexing. */
    method Closest(pos: int, side: Side) returns (r: Result<(int, string)>)
      requires Valid()
      ensures r == Nearest(boundaries, data, pos, side)
    {
      var n := |boundaries|;
      if n == 0 {
        return Err(IndexError);
      }
      if !(boundaries[0] <= pos <= boundaries[n - 1]) {
        return Err(AssertionError);
      }
      var start := BisectLeft(boundaries, pos);
      BisectLeftSpec(boundaries, pos);
      var ind := start;
      match side {
        case Left =>
          while true
            invariant -n <= ind <= start
            invariant ind < start ==> start == 0 && forall j :: n + ind <= j < n ==> boundaries[j] == pos
            decreases ind + n
          {
            if ind - 1 < -n {
              return Err(IndexError);
            }
            var k := if ind - 1 < 0 then ind - 1 + n else ind - 1;
            if boundaries[k] != pos {
              return Ok((boundaries[k], data[k]));
            }
            ind := ind - 1;
          }
        case Right =>
          while true
            invariant start <= ind <= n
            invariant forall j :: start <= j < ind ==> boundaries[j] == pos
            decreases n - ind
          {
            if ind >= n {
              return Err(IndexError);
            }
            if boundaries[ind] != pos {
              return Ok((boundaries[ind], data[ind]));
            }
            ind := ind + 1;
          }
        case OtherSide =>
          return Err(ValueError);
      }
    }

    /**
     * `window`: from the left neighbour up to `pos`, or from `pos` up to the
     * right neighbour, clipped to `maxsize` when it is truthy, with the
     * neighbour's label; an interval with start > end is rejected.
     */
    function Window(pos: int, side: Side, maxsize: Option<int>): (r: Result<(Interval, string)>)
      reads this
      requires Valid()
      ensures r.Ok? ==> Nearest(boundaries, data, pos, side).Ok? && r.value.1 == Nearest(boundaries, data, pos, side).value.1
      ensures r.Ok? && side == Left ==> r.value.0.end == pos && r.value.0.start <= pos
      ensures r.Ok? && side == Right ==> r.value.0.start == pos && pos <= r.value.0.end
      ensures r.Ok? && Clips(maxsize) ==> r.value.0.Len() <= maxsize.value
      ensures Nearest(boundaries, data, pos, side).Err? ==> r == Err(Nearest(boundaries, data, pos, side).error)
    {
      match Nearest(boundaries, data, pos, side)
      case Err(e) => Err(e)
      case Ok(found) =>
        var (neighbor, tag) := found;
        match side
        case Left =>
          var lo := if Clips(maxsize) then Max(neighbor, pos - maxsize.value) else neighbor;
          if lo <= pos then Ok((Interval(lo, pos), tag)) else Err(InvalidInterval)
        case Right =>
          var hi := if Clips(maxsize) then Min(neighbor, pos + maxsize.value) else neighbor;
          if pos <= hi then Ok((Interval(pos, hi), tag)) else Err(InvalidInterval)
        case OtherSide => Err(ValueError)
    }

    /** `__contains__`: bisect, then compare; a position past the last boundary indexes past the end. */
    function Contains(item: int): (r: Result<bool>)
      reads this
      requires Valid()
    {
      var ind := BisectLeft(boundaries, item);
      if ind < |boundaries| then Ok(boundaries[ind] == item) else Err(IndexError)
    }
  }

  /** Membership answers whether the position is stored; only positions past the last one fail. */
  lemma ContainsSpec(idx: BoundariesIndex, item: int)
    requires idx.Valid()
    ensures idx.Contains(item).Err? <==> forall x :: x in idx.boundaries ==> x < item
    ensures idx.Contains(item).Ok? ==> (idx.Contains(item).value <==> item in idx.boundaries)
  {
    var b := idx.boundaries;
    BisectLeftSpec(b, item);
    var ind := BisectLeft(b, item);
    if ind < |b| {
      assert b[ind] in b && !(b[ind] < item);
      if item in b {
        var k :| 0 <= k < |b| && b[k] == item;
        assert b[ind] <= b[k];
      }
    } else {
      forall x | x in b ensures x < item {
        var k :| 0 <= k < |b| && b[k] == x;
      }
    }
  }

  /** A left window at the first boundary wraps to the last one and can never be built. */
  lemma WindowAtFirstFails(idx: BoundariesIndex, maxsize: Option<int>)
    requires idx.Valid() && |idx.boundaries| > 0 && idx.boundaries[0] < idx.boundaries[|idx.boundaries| - 1]
    ensures idx.Window(idx.boundaries[0], Left, maxsize).Err?
  {
    NearestLeftWraps(idx.boundaries, idx.data);
  }

  /** Inside the index, a right window never passes the next boundary and a left one never precedes the previous. */
  lemma WindowWithinNeighbours(idx: BoundariesIndex, pos: int, maxsize: Option<int>)
    requires idx.Valid() && |idx.boundaries| > 0
    requires idx.boundaries[0] < pos < idx.boundaries[|idx.boundaries| - 1]
    requires maxsize.None? || maxsize.value >= 0
    ensures idx.Window(pos, Left, maxsize).Ok? && idx.Window(pos, Right, maxsize).Ok?
    ensures forall x :: x in idx.boundaries && x < pos ==> x <= idx.Window(pos, Left, maxsize).value.0.start
    ensures forall x :: x in idx.boundaries && x > pos ==> idx.Window(pos, Right, maxsize).value.0.end <= x
  {
    NearestLeft(idx.boundaries, idx.data, pos);
    NearestRight(idx.boundaries, idx.data, pos);
  }
}
