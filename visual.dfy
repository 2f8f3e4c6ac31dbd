// Row layout for drawing genes: intervals of one contig are packed greedily
// into levels so that intervals drawn on the same level keep more than
// `offset` positions apart; each level is then turned into a height
// between two limits.
module Visual {
  import opened Common
  import opened Sorting
  import opened Intervals
  import Bed

  datatype Gene = Gene(chrom: string, loc: Interval)

  /** `sorted(..., key=lambda x: (x.start, -x.length))`. */
  predicate GeneLe(a: Gene, b: Gene)
  {
    a.loc.start < b.loc.start || (a.loc.start == b.loc.start && a.loc.Len() >= b.loc.Len())
  }

  lemma GeneLePreorder()
    ensures TotalPreorder(GeneLe)
  {
  }

  predicate Increasing(s: seq<int>)
  {
    forall a, b :: 0 <= a < b < |s| ==> s[a] < s[b]
  }

  /** Two intervals on one level are more than `offset` apart. */
  predicate SameLevelApart(ivs: seq<Interval>, lv: seq<int>, offset: int)
    requires |lv| == |ivs|
  {
    forall i, j :: 0 <= i < j < |lv| && lv[i] == lv[j] && lv[i] >= 0 ==> ivs[j].start - ivs[i].end > offset
  }

  /** Interval `i` could not join level `level`: an earlier interval there is too close. */
  predicate Blocked(ivs: seq<Interval>, lv: seq<int>, i: int, level: int, offset: int)
    requires |lv| == |ivs| && 0 <= i < |ivs|
  {
    exists j :: 0 <= j < i && lv[j] == level && ivs[i].start - ivs[j].end <= offset
  }

  /**
   * `lv` is the first-fit layout of `ivs`: every interval sits on the lowest
   * level on which no earlier interval of that level is within `offset` of it.
   */
  ghost predicate FirstFit(ivs: seq<Interval>, lv: seq<int>, offset: int)
  {
    |lv| == |ivs| &&
    (forall k :: 0 <= k < |lv| ==> lv[k] >= 0) &&
    SameLevelApart(ivs, lv, offset) &&
    (forall i, l :: 0 <= i < |lv| && 0 <= l < lv[i] ==> Blocked(ivs, lv, i, l, offset))
  }

  /** Whether interval `i` is blocked on a level depends only on the levels before it. */
  lemma BlockedPrefix(ivs: seq<Interval>, a: seq<int>, b: seq<int>, i: int, level: int, offset: int)
    requires |a| == |b| == |ivs| && 0 <= i < |ivs| && a[..i] == b[..i]
    ensures Blocked(ivs, a, i, level, offset) <==> Blocked(ivs, b, i, level, offset)
  {
    if Blocked(ivs, a, i, level, offset) {
      var j :| 0 <= j < i && a[j] == level && ivs[i].start - ivs[j].end <= offset;
      assert a[..i][j] == b[..i][j];
    }
    if Blocked(ivs, b, i, level, offset) {
      var j :| 0 <= j < i && b[j] == level && ivs[i].start - ivs[j].end <= offset;
      assert a[..i][j] == b[..i][j];
    }
  }

  /** The first-fit layout is unique: there is only one way to meet `FirstFit`. */
  lemma {:induction false} FirstFitUnique(ivs: seq<Interval>, a: seq<int>, b: seq<int>, offset: int)
    requires FirstFit(ivs, a, offset) && FirstFit(ivs, b, offset)
    ensures a == b
  {
    var n := 0;
    while n < |ivs|
      invariant 0 <= n <= |ivs| && a[..n] == b[..n]
    {
      BlockedPrefix(ivs, a, b, n, a[n], offset);
      BlockedPrefix(ivs, a, b, n, b[n], offset);
      if a[n] != b[n] {
        assert false;
      }
      assert a[..n + 1] == a[..n] + [a[n]] && b[..n + 1] == b[..n] + [b[n]];
      n := n + 1;
    }
    assert a == a[..n] && b == b[..n];
  }

  /** Genes [0,10), [5,25) and [20,30) with offset 0: the third returns to level 0, the only first-fit layout. */
  lemma FirstFitExample(lv: seq<int>)
    requires FirstFit([Interval(0, 10), Interval(5, 25), Interval(20, 30)], lv, 0)
    ensures lv == [0, 1, 0]
  {
    var ivs := [Interval(0, 10), Interval(5, 25), Interval(20, 30)];
    assert FirstFit(ivs, [0, 1, 0], 0) by {
      assert Blocked(ivs, [0, 1, 0], 1, 0, 0) by {
        assert [0, 1, 0][0] == 0;
      }
    }
    FirstFitUnique(ivs, lv, [0, 1, 0], 0);
  }

  predicate HasLevel(lv: seq<int>, level: int)
  {
    exists k :: 0 <= k < |lv| && lv[k] == level
  }

  /**
   * The state between two passes: `lv[k]` is the level of interval `k`, or
   * -1 while it waits in `left`; levels below `level` are all used and
   * spread apart, and everything placed on a level, or still waiting
   * for one, was blocked on every level below it.
   */
  predicate Layout(ivs: seq<Interval>, offset: int, lv: seq<int>, left: seq<int>, level: int)
  {
    |lv| == |ivs| && level >= 0 &&
    (forall k :: 0 <= k < |lv| ==> -1 <= lv[k] < level) &&
    Increasing(left) &&
    (forall m :: 0 <= m < |left| ==> 0 <= left[m] < |lv|) &&
    (forall k :: 0 <= k < |lv| ==> (lv[k] == -1 <==> k in left)) &&
    SameLevelApart(ivs, lv, offset) &&
    (forall i, l :: 0 <= i < |lv| && 0 <= l < lv[i] ==> Blocked(ivs, lv, i, l, offset)) &&
    (forall m, l :: 0 <= m < |left| && 0 <= l < level ==> Blocked(ivs, lv, left[m], l, offset)) &&
    (forall l :: 0 <= l < level ==> HasLevel(lv, l))
  }

  /** Placing more intervals keeps every witness of an earlier blocking. */
  lemma BlockedKept(ivs: seq<Interval>, lv: seq<int>, lv': seq<int>, i: int, level: int, offset: int)
    requires |lv| == |lv'| == |ivs| && 0 <= i < |ivs| && level >= 0
    requires forall k :: 0 <= k < |lv| && lv[k] >= 0 ==> lv'[k] == lv[k]
    requires Blocked(ivs, lv, i, level, offset)
    ensures Blocked(ivs, lv', i, level, offset)
  {
    var j :| 0 <= j < i && lv[j] == level && ivs[i].start - ivs[j].end <= offset;
    assert lv'[j] == level;
  }

  /** The state inside one pass, after looking at `left[..t]`, with `left[ci]` the latest pick. */
  predicate InPass(ivs: seq<Interval>, offset: int, lv0: seq<int>, left: seq<int>, level: int,
                   lv: seq<int>, ci: int, t: int, deferred: seq<int>)
  {
    |lv| == |ivs| == |lv0| && 0 <= ci < t <= |left| && level >= 0 &&
    Increasing(left) && (forall m :: 0 <= m < |left| ==> 0 <= left[m] < |lv|) &&
    lv[left[ci]] == -1 &&
    (forall k :: 0 <= k < |lv| && lv0[k] >= 0 ==> lv[k] == lv0[k]) &&
    (forall k :: 0 <= k < |lv| && lv[k] != lv0[k] ==> lv0[k] == -1 && lv[k] == level) &&
    (forall m :: t <= m < |left| ==> lv[left[m]] == -1) &&
    (forall m :: 0 <= m < t ==> lv[left[m]] == level || m == ci || left[m] in deferred) &&
    (forall a :: 0 <= a < |deferred| ==> 0 <= deferred[a] <= left[t - 1]) &&
    (forall a :: 0 <= a < |deferred| ==> lv[deferred[a]] == -1 && left[ci] != deferred[a]) &&
    |deferred| <= t - 1 &&
    Increasing(deferred) &&
    SameLevelApart(ivs, lv, offset) &&
    (forall k :: 0 <= k < |lv| && lv[k] == level ==> k < left[ci] && ivs[left[ci]].start - ivs[k].end > offset) &&
    (forall a :: 0 <= a < |deferred| ==>
      (ivs[deferred[a]].start - ivs[left[ci]].end <= offset && left[ci] < deferred[a]) ||
      Blocked(ivs, lv, deferred[a], level, offset))
  }

  /** The next waiting interval clears the latest pick: the pick gets `level`, the newcomer becomes the pick. */
  lemma Pick(ivs: seq<Interval>, offset: int, lv0: seq<int>, left: seq<int>, level: int,
             lv: seq<int>, ci: int, t: int, deferred: seq<int>)
    requires SortedByStart(ivs)
    requires InPass(ivs, offset, lv0, left, level, lv, ci, t, deferred) && t < |left|
    requires ivs[left[t]].start - ivs[left[ci]].end > offset
    ensures InPass(ivs, offset, lv0, left, level, lv[left[ci] := level], t, t + 1, deferred)
  {
    var cur, ind := left[ci], left[t];
    var lv' := lv[cur := level];
    assert cur < ind;
    assert ivs[ind].start >= ivs[cur].start;
    forall a | 0 <= a < |deferred|
      ensures Blocked(ivs, lv', deferred[a], level, offset)
    {
      if ivs[deferred[a]].start - ivs[cur].end <= offset && cur < deferred[a] {
        assert lv'[cur] == level;
      } else {
        BlockedKept(ivs, lv, lv', deferred[a], level, offset);
      }
    }
    forall k | 0 <= k < |lv'| && lv'[k] == level
      ensures k < ind && ivs[ind].start - ivs[k].end > offset
    {
      if k != cur {
        assert ivs[cur].start - ivs[k].end > offset;
      }
    }
    forall i, j | 0 <= i < j < |lv'| && lv'[i] == lv'[j] && lv'[i] >= 0
      ensures ivs[j].start - ivs[i].end > offset
    {
      if j == cur {
        assert lv[i] == level;
      }
    }
  }

  /** The next waiting interval is too close to the latest pick: it waits for the next pass. */
  lemma Defer(ivs: seq<Interval>, offset: int, lv0: seq<int>, left: seq<int>, level: int,
              lv: seq<int>, ci: int, t: int, deferred: seq<int>)
    requires InPass(ivs, offset, lv0, left, level, lv, ci, t, deferred) && t < |left|
    requires ivs[left[t]].start - ivs[left[ci]].end <= offset
    ensures InPass(ivs, offset, lv0, left, level, lv, ci, t + 1, deferred + [left[t]])
  {
    assert left[ci] < left[t] && left[t - 1] < left[t];
  }

  /**
   * One pass of the greedy fill: the first waiting interval opens level
   * `level`, and each later one joins it when it starts more than `offset`
   * after the last one picked; the others wait for the next pass.
   */
  method Pass(ivs: seq<Interval>, offset: int, lv: seq<int>, left: seq<int>, level: int)
    returns (lv': seq<int>, left': seq<int>)
    requires SortedByStart(ivs)
    requires Layout(ivs, offset, lv, left, level) && left != []
    ensures Layout(ivs, offset, lv', left', level + 1)
    ensures |left'| < |left|
  {
    var ci, t, deferred, cur_lv := 0, 1, [], lv;
    Open(ivs, offset, lv, left, level);
    while t < |left|
      invariant InPass(ivs, offset, lv, left, level, cur_lv, ci, t, deferred)
      decreases |left| - t
    {
      if ivs[left[t]].start - ivs[left[ci]].end > offset {
        Pick(ivs, offset, lv, left, level, cur_lv, ci, t, deferred);
        cur_lv, ci := cur_lv[left[ci] := level], t;
      } else {
        Defer(ivs, offset, lv, left, level, cur_lv, ci, t, deferred);
        deferred := deferred + [left[t]];
      }
      t := t + 1;
    }
    lv', left' := cur_lv[left[ci] := level], deferred;
    Close(ivs, offset, lv, left, level, cur_lv, ci, deferred);
  }

  /** Opening a pass: the first waiting interval is the first pick. */
  lemma Open(ivs: seq<Interval>, offset: int, lv: seq<int>, left: seq<int>, level: int)
    requires Layout(ivs, offset, lv, left, level) && left != []
    ensures InPass(ivs, offset, lv, left, level, lv, 0, 1, [])
  {
    assert lv[left[0]] == -1 by {
      assert left[0] in left;
    }
    forall m | 0 <= m < |left| ensures lv[left[m]] == -1 {
      assert left[m] in left;
    }
    forall k | 0 <= k < |lv| && lv[k] == level ensures false {
    }
  }

  /** Closing a pass: the last pick gets `level` and the deferred intervals wait for the next pass. */
  lemma Close(ivs: seq<Interval>, offset: int, lv: seq<int>, left: seq<int>, level: int,
              cur_lv: seq<int>, ci: int, deferred: seq<int>)
    requires Layout(ivs, offset, lv, left, level)
    requires InPass(ivs, offset, lv, left, level, cur_lv, ci, |left|, deferred)
    ensures Layout(ivs, offset, cur_lv[left[ci] := level], deferred, level + 1)
  {
    CloseBlocked(ivs, offset, lv, left, level, cur_lv, ci, deferred);
    CloseDeferred(ivs, offset, lv, left, level, cur_lv, ci, deferred);
    CloseLevels(ivs, offset, lv, left, level, cur_lv, ci, deferred);
    CloseWaiting(ivs, offset, lv, left, level, cur_lv, ci, deferred);
    CloseApart(ivs, offset, lv, left, level, cur_lv, ci, deferred);
  }

  lemma CloseBlocked(ivs: seq<Interval>, offset: int, lv: seq<int>, left: seq<int>, level: int,
                     cur_lv: seq<int>, ci: int, deferred: seq<int>)
    requires Layout(ivs, offset, lv, left, level)
    requires InPass(ivs, offset, lv, left, level, cur_lv, ci, |left|, deferred)
    ensures var lv' := cur_lv[left[ci] := level];
      forall i, l :: 0 <= i < |lv'| && 0 <= l < lv'[i] ==> Blocked(ivs, lv', i, l, offset)
  {
    var lv' := cur_lv[left[ci] := level];
    forall i, l | 0 <= i < |lv'| && 0 <= l < lv'[i] ensures Blocked(ivs, lv', i, l, offset) {
      if lv[i] >= 0 {
        BlockedKept(ivs, lv, lv', i, l, offset);
      } else {
        assert i in left;
        var m :| 0 <= m < |left| && left[m] == i;
        BlockedKept(ivs, lv, lv', i, l, offset);
      }
    }
  }

  lemma CloseDeferred(ivs: seq<Interval>, offset: int, lv: seq<int>, left: seq<int>, level: int,
                      cur_lv: seq<int>, ci: int, deferred: seq<int>)
    requires Layout(ivs, offset, lv, left, level)
    requires InPass(ivs, offset, lv, left, level, cur_lv, ci, |left|, deferred)
    ensures var lv' := cur_lv[left[ci] := level];
      forall a, l :: 0 <= a < |deferred| && 0 <= l < level + 1 ==> Blocked(ivs, lv', deferred[a], l, offset)
  {
    var cur := left[ci];
    var lv' := cur_lv[cur := level];
    forall a, l | 0 <= a < |deferred| && 0 <= l < level + 1 ensures Blocked(ivs, lv', deferred[a], l, offset) {
      if l < level {
        assert deferred[a] in left;
        var m :| 0 <= m < |left| && left[m] == deferred[a];
        BlockedKept(ivs, lv, lv', deferred[a], l, offset);
      } else if ivs[deferred[a]].start - ivs[cur].end <= offset && cur < deferred[a] {
        assert lv'[cur] == level;
      } else {
        BlockedKept(ivs, cur_lv, lv', deferred[a], level, offset);
      }
    }
  }

  lemma CloseLevels(ivs: seq<Interval>, offset: int, lv: seq<int>, left: seq<int>, level: int,
                    cur_lv: seq<int>, ci: int, deferred: seq<int>)
    requires Layout(ivs, offset, lv, left, level)
    requires InPass(ivs, offset, lv, left, level, cur_lv, ci, |left|, deferred)
    ensures var lv' := cur_lv[left[ci] := level];
      (forall l :: 0 <= l < level + 1 ==> HasLevel(lv', l)) &&
      (forall k :: 0 <= k < |lv'| ==> -1 <= lv'[k] < level + 1)
  {
    var cur := left[ci];
    var lv' := cur_lv[cur := level];
    forall l | 0 <= l < level + 1 ensures HasLevel(lv', l) {
      if l < level {
        assert HasLevel(lv, l);
        var k :| 0 <= k < |lv| && lv[k] == l;
        assert lv'[k] == l;
      } else {
        assert lv'[cur] == l;
      }
    }
  }

  lemma CloseWaiting(ivs: seq<Interval>, offset: int, lv: seq<int>, left: seq<int>, level: int,
                     cur_lv: seq<int>, ci: int, deferred: seq<int>)
    requires Layout(ivs, offset, lv, left, level)
    requires InPass(ivs, offset, lv, left, level, cur_lv, ci, |left|, deferred)
    ensures var lv' := cur_lv[left[ci] := level];
      forall k :: 0 <= k < |lv'| ==> (lv'[k] == -1 <==> k in deferred)
  {
    var lv' := cur_lv[left[ci] := level];
    forall k | 0 <= k < |lv'| ensures (lv'[k] == -1 <==> k in deferred) {
      if lv'[k] == -1 {
        assert k in left;
        var m :| 0 <= m < |left| && left[m] == k;
      }
    }
  }

  lemma CloseApart(ivs: seq<Interval>, offset: int, lv: seq<int>, left: seq<int>, level: int,
                   cur_lv: seq<int>, ci: int, deferred: seq<int>)
    requires InPass(ivs, offset, lv, left, level, cur_lv, ci, |left|, deferred)
    ensures SameLevelApart(ivs, cur_lv[left[ci] := level], offset)
  {
    var cur := left[ci];
    var lv' := cur_lv[cur := level];
    forall i, j | 0 <= i < j < |lv'| && lv'[i] == lv'[j] && lv'[i] >= 0
      ensures ivs[j].start - ivs[i].end > offset
    {
      if j == cur {
        assert cur_lv[i] == level;
      }
    }
  }

  /** Before the first pass every interval waits and no level is used. */
  lemma Initial(ivs: seq<Interval>, offset: int)
    ensures Layout(ivs, offset, seq(|ivs|, k => -1), seq(|ivs|, k => k), 0)
  {
    var lv := seq(|ivs|, k => -1);
    var left := seq(|ivs|, k => k);
    forall k | 0 <= k < |lv| ensures k in left {
      assert left[k] == k;
    }
  }

  /**
   * The level assignment of `assort_genes_by_height` for one contig whose
   * intervals are sorted by start: every interval gets exactly one level,
   * levels 0 .. count-1 are all used, intervals sharing a level are more
   * than `offset` apart, and an interval on level L was blocked by a
   * closer earlier interval on each level below L: the levels are the
   * first-fit layout, which `FirstFitUnique` shows is the only one.
   */
  method AssignLevels(ivs: seq<Interval>, offset: int) returns (levels: seq<int>, count: nat)
    requires SortedByStart(ivs)
    ensures |levels| == |ivs|
    ensures forall k :: 0 <= k < |levels| ==> 0 <= levels[k] < count
    ensures ivs != [] ==> count >= 1
    ensures ivs == [] ==> count == 0
    ensures forall l :: 0 <= l < count ==> HasLevel(levels, l)
    ensures SameLevelApart(ivs, levels, offset)
    ensures forall i, l :: 0 <= i < |levels| && 0 <= l < levels[i] ==> Blocked(ivs, levels, i, l, offset)
    ensures FirstFit(ivs, levels, offset)
    ensures ivs != [] ==> levels[0] == 0
  {
    var lv := seq(|ivs|, k => -1);
    var left := seq(|ivs|, k => k);
    var level := 0;
    Initial(ivs, offset);
    while left != []
      invariant Layout(ivs, offset, lv, left, level)
      invariant ivs != [] ==> level >= 1 || left != []
      invariant ivs == [] ==> level == 0
      decreases |left|
    {
      lv, left := Pass(ivs, offset, lv, left, level);
      level := level + 1;
    }
    levels, count := lv, level;
    assert ivs != [] ==> !Blocked(ivs, levels, 0, 0, offset);
  }

  /** The default step: 0 with a single level, else the limits' distance spread over the top level. */
  function DefaultStep(limits: (real, real), maxlvl: nat): (step: real)
    ensures step >= 0.0
    ensures maxlvl > 0 ==> step * (maxlvl as real) == RAbs(limits.1 - limits.0)
  {
    if maxlvl == 0 then 0.0 else RAbs(limits.1 - limits.0) / (maxlvl as real)
  }

  function RAbs(x: real): real { if x < 0.0 then -x else x }

  /** Height of a level: down from limits.0 when limits.0 > limits.1, up from it otherwise. */
  function Height(limits: (real, real), level: nat, step: real): real
  {
    if limits.0 > limits.1 then limits.0 - (level as real) * step
    else limits.0 + (level as real) * step
  }

  /** With the default step every height lies between the two limits; level 0 sits at limits.0 and the top level at limits.1. */
  lemma HeightWithinLimits(limits: (real, real), level: nat, maxlvl: nat)
    requires level <= maxlvl
    ensures var h := Height(limits, level, DefaultStep(limits, maxlvl));
      RMin(limits.0, limits.1) <= h <= RMax(limits.0, limits.1)
    ensures Height(limits, 0, DefaultStep(limits, maxlvl)) == limits.0
    ensures maxlvl > 0 ==> Height(limits, maxlvl, DefaultStep(limits, maxlvl)) == limits.1
  {
    var step := DefaultStep(limits, maxlvl);
    if maxlvl > 0 {
      assert (level as real) * step <= (maxlvl as real) * step by {
        assert (level as real) <= (maxlvl as real);
      }
    }
  }

  function ChromOf(g: Gene): string { g.chrom }
  function Identity(g: Gene): Gene { g }
  function StartOf(g: Gene): int { g.loc.start }

  function Locs(gs: seq<Gene>): (r: seq<Interval>)
    ensures |r| == |gs| && forall i :: 0 <= i < |gs| ==> r[i] == gs[i].loc
  {
    seq(|gs|, i requires 0 <= i < |gs| => gs[i].loc)
  }

  /** Genes sorted by start, each paired with the level `AssignLevels` gives its interval. */
  method Pack(ordered: seq<Gene>, offset: int) returns (laid: seq<(Gene, nat)>, count: nat)
    requires forall i, j :: 0 <= i < j < |ordered| ==> ordered[i].loc.start <= ordered[j].loc.start
    ensures Firsts(laid) == ordered
    ensures forall k :: 0 <= k < |laid| ==> laid[k].1 < count
    ensures ordered != [] ==> count >= 1 && exists k :: 0 <= k < |laid| && laid[k].1 == count - 1
    ensures ordered == [] ==> count == 0
    ensures forall i, j :: 0 <= i < j < |laid| && laid[i].1 == laid[j].1 ==>
      laid[j].0.loc.start - laid[i].0.loc.end > offset
    ensures FirstFit(Locs(ordered), Seconds(laid), offset)
  {
    var ivs := Locs(ordered);
    var levels;
    levels, count := AssignLevels(ivs, offset);
    laid := seq(|ordered|, i requires 0 <= i < |ordered| => (ordered[i], levels[i] as nat));
    assert Seconds(laid) == levels;
    if ordered != [] {
      assert HasLevel(levels, count - 1);
      var k :| 0 <= k < |levels| && levels[k] == count - 1;
      assert laid[k].1 == count - 1;
    }
  }

  /**
   * `laid` is a layout of `members`: each gene once, as often as in
   * `members`, with a level below `count`; levels 0 .. count-1 reach the top,
   * genes sharing a level are more than `offset` apart, the genes come by
   * start, longer first, and their levels are the first-fit layout.
   */
  ghost predicate LaidContig(members: seq<Gene>, laid: seq<(Gene, nat)>, count: nat, offset: int)
  {
    |laid| == |members| &&
    (forall k :: 0 <= k < |laid| ==> laid[k].0 in members && laid[k].1 < count) &&
    multiset(Firsts(laid)) == multiset(members) &&
    (members != [] ==> count >= 1 && exists k :: 0 <= k < |laid| && laid[k].1 == count - 1) &&
    (members == [] ==> count == 0) &&
    (forall i, j :: 0 <= i < j < |laid| && laid[i].1 == laid[j].1 ==>
      laid[j].0.loc.start - laid[i].0.loc.end > offset) &&
    SortedBy(Firsts(laid), GeneLe) &&
    FirstFit(Locs(Firsts(laid)), Seconds(laid), offset)
  }

  /** Gene `i` could not join `level`: an earlier gene of its contig there is too close. */
  ghost predicate ContigBlocked(gs: seq<Gene>, lv: seq<nat>, i: int, level: int, offset: int)
    requires |lv| == |gs| && 0 <= i < |gs|
  {
    exists j :: 0 <= j < i && gs[j].chrom == gs[i].chrom && lv[j] == level && gs[i].loc.start - gs[j].loc.end <= offset
  }

  /** Genes of one contig sharing a level are more than `offset` apart. */
  ghost predicate ContigApart(gs: seq<Gene>, lv: seq<nat>, offset: int)
    requires |lv| == |gs|
  {
    forall i, j :: 0 <= i < j < |gs| && gs[i].chrom == gs[j].chrom && lv[i] == lv[j] ==>
      gs[j].loc.start - gs[i].loc.end > offset
  }

  /** Every gene was blocked on each level below its own by a gene of its contig. */
  ghost predicate ContigFirstFit(gs: seq<Gene>, lv: seq<nat>, offset: int)
  {
    |lv| == |gs| &&
    forall i, l :: 0 <= i < |gs| && 0 <= l < lv[i] ==> ContigBlocked(gs, lv, i, l, offset)
  }

  /** Within each contig the genes come by start, longer first. */
  ghost predicate SortedWithin(gs: seq<Gene>)
  {
    forall i, j :: 0 <= i < j < |gs| && gs[i].chrom == gs[j].chrom ==> GeneLe(gs[i], gs[j])
  }

  lemma ContigBlockedPrefix(gs: seq<Gene>, a: seq<nat>, b: seq<nat>, i: int, level: int, offset: int)
    requires |a| == |b| == |gs| && 0 <= i < |gs| && a[..i] == b[..i]
    ensures ContigBlocked(gs, a, i, level, offset) <==> ContigBlocked(gs, b, i, level, offset)
  {
    if ContigBlocked(gs, a, i, level, offset) {
      var j :| 0 <= j < i && gs[j].chrom == gs[i].chrom && a[j] == level && gs[i].loc.start - gs[j].loc.end <= offset;
      assert a[..i][j] == b[..i][j];
    }
    if ContigBlocked(gs, b, i, level, offset) {
      var j :| 0 <= j < i && gs[j].chrom == gs[i].chrom && b[j] == level && gs[i].loc.start - gs[j].loc.end <= offset;
      assert a[..i][j] == b[..i][j];
    }
  }

  /** For genes in a given order, the per-contig first-fit levels are unique. */
  lemma {:induction false} ContigFirstFitUnique(gs: seq<Gene>, a: seq<nat>, b: seq<nat>, offset: int)
    requires ContigFirstFit(gs, a, offset) && ContigApart(gs, a, offset)
    requires ContigFirstFit(gs, b, offset) && ContigApart(gs, b, offset)
    ensures a == b
  {
    var n := 0;
    while n < |gs|
      invariant 0 <= n <= |gs| && a[..n] == b[..n]
    {
      ContigBlockedPrefix(gs, a, b, n, a[n], offset);
      ContigBlockedPrefix(gs, a, b, n, b[n], offset);
      if a[n] != b[n] {
        assert false;
      }
      assert a[..n + 1] == a[..n] + [a[n]] && b[..n + 1] == b[..n] + [b[n]];
      n := n + 1;
    }
    assert a == a[..n] && b == b[..n];
  }

  /** One contig: its genes sorted by start, longest first, each with its level. */
  method LayContig(members: seq<Gene>, offset: int) returns (laid: seq<(Gene, nat)>, count: nat)
    ensures LaidContig(members, laid, count, offset)
  {
    GeneLePreorder();
    var ordered := SortBy(members, GeneLe);
    forall i, j | 0 <= i < j < |ordered| ensures ordered[i].loc.start <= ordered[j].loc.start {
      assert GeneLe(ordered[i], ordered[j]);
    }
    laid, count := Pack(ordered, offset);
    forall k | 0 <= k < |laid| ensures laid[k].0 in members {
      assert ordered[k] in multiset(members);
    }
  }

  function Firsts<A, B>(s: seq<(A, B)>): (r: seq<A>)
    ensures |r| == |s| && forall i :: 0 <= i < |s| ==> r[i] == s[i].0
  {
    seq(|s|, i requires 0 <= i < |s| => s[i].0)
  }

  lemma FirstsConcat<A, B>(a: seq<(A, B)>, b: seq<(A, B)>)
    ensures Firsts(a + b) == Firsts(a) + Firsts(b)
  {
  }

  /** Group `k` holds every gene of contig `k`, as often as the input does, and no other gene. */
  lemma {:induction false} MembersCount(items: seq<Gene>, k: string, g: Gene)
    ensures multiset(Bed.Members(items, ChromOf, Identity, k))[g] == if g.chrom == k then multiset(items)[g] else 0
    decreases |items|
  {
    if items != [] {
      var n := |items| - 1;
      MembersCount(items[..n], k, g);
      assert items == items[..n] + [items[n]];
    }
  }

  /** Every gene of group `k` is one of the input genes. */
  lemma GroupMembers(items: seq<Gene>, k: string)
    ensures forall x :: x in Bed.Members(items, ChromOf, Identity, k) ==> x in items && x.chrom == k
  {
    Bed.MembersSound(items, ChromOf, Identity, k);
  }

  /** `top` is the highest of `levels`, or 0 when there is none. */
  ghost predicate IsTop(levels: seq<nat>, top: nat)
  {
    (forall k :: 0 <= k < |levels| ==> levels[k] <= top) &&
    (top == 0 || exists k :: 0 <= k < |levels| && levels[k] == top)
  }

  /** Genes of one contig that share a level are more than `offset` apart. */
  ghost predicate Apart(laid: seq<(Gene, nat)>, offset: int)
  {
    forall i, j :: 0 <= i < j < |laid| && laid[i].0.chrom == laid[j].0.chrom && laid[i].1 == laid[j].1 ==>
      laid[j].0.loc.start - laid[i].0.loc.end > offset
  }

  /** Every laid-out gene of the next contig lies on that contig. */
  lemma GatherChroms(bystart: seq<Gene>, k: string, part: seq<(Gene, nat)>)
    requires multiset(Firsts(part)) == multiset(Bed.Members(bystart, ChromOf, Identity, k))
    ensures forall i :: 0 <= i < |part| ==> part[i].0.chrom == k
  {
    GroupMembers(bystart, k);
    forall i | 0 <= i < |part| ensures part[i].0.chrom == k {
      assert Firsts(part)[i] in multiset(Firsts(part));
    }
  }

  /** One gene's count after adding the genes of contig `k` to those of the contigs `seen`. */
  lemma CountStep(bystart: seq<Gene>, seen: seq<string>, k: string, before: multiset<Gene>, g: Gene)
    requires k !in seen
    requires before[g] == if g.chrom in seen then multiset(bystart)[g] else 0
    ensures (before + multiset(Bed.Members(bystart, ChromOf, Identity, k)))[g] ==
      if g.chrom in seen + [k] then multiset(bystart)[g] else 0
  {
    MembersCount(bystart, k, g);
  }

  /** `m` counts every gene of the contigs `seen` as often as `bystart` does, and no other gene. */
  ghost predicate Counted(m: multiset<Gene>, bystart: seq<Gene>, seen: seq<string>)
  {
    forall g: Gene :: m[g] == if g.chrom in seen then multiset(bystart)[g] else 0
  }

  /** Adding the genes of the next contig counts that contig's genes too. */
  lemma GatherCounts(bystart: seq<Gene>, seen: seq<string>, k: string, before: multiset<Gene>)
    requires k !in seen
    requires Counted(before, bystart, seen)
    ensures Counted(before + multiset(Bed.Members(bystart, ChromOf, Identity, k)), bystart, seen + [k])
  {
    forall g: Gene ensures (before + multiset(Bed.Members(bystart, ChromOf, Identity, k)))[g] ==
      if g.chrom in seen + [k] then multiset(bystart)[g] else 0
    {
      CountStep(bystart, seen, k, before, g);
    }
  }

  /** Once every contig of `bystart` is counted, the count is `bystart`'s. */
  lemma CountedAll(bystart: seq<Gene>, seen: seq<string>, m: multiset<Gene>)
    requires forall i :: 0 <= i < |bystart| ==> bystart[i].chrom in seen
    requires Counted(m, bystart, seen)
    ensures m == multiset(bystart)
  {
    forall g: Gene ensures m[g] == multiset(bystart)[g] {
      if g in bystart {
        var i :| 0 <= i < |bystart| && bystart[i] == g;
        assert g.chrom in seen;
      }
    }
  }

  /** Appending a contig whose genes all lie on a contig not seen before keeps same-level genes apart. */
  lemma GatherApart(laid: seq<(Gene, nat)>, part: seq<(Gene, nat)>, seen: seq<string>, k: string, offset: int)
    requires k !in seen
    requires forall i :: 0 <= i < |laid| ==> laid[i].0.chrom in seen
    requires forall i :: 0 <= i < |part| ==> part[i].0.chrom == k
    requires Apart(laid, offset)
    requires forall i, j :: 0 <= i < j < |part| && part[i].1 == part[j].1 ==>
      part[j].0.loc.start - part[i].0.loc.end > offset
    ensures Apart(laid + part, offset)
  {
    var all := laid + part;
    forall i, j | 0 <= i < j < |all|
      ensures all[i].0.chrom == all[j].0.chrom && all[i].1 == all[j].1 ==> all[j].0.loc.start - all[i].0.loc.end > offset
    {
      if j < |laid| {
        assert all[i] == laid[i] && all[j] == laid[j];
      } else if i >= |laid| {
        assert all[i] == part[i - |laid|] && all[j] == part[j - |laid|];
      } else {
        assert all[i].0.chrom in seen && all[j].0.chrom == k;
      }
    }
  }

  /** The highest level after appending a contig whose levels run from 0 to `count - 1`. */
  lemma RaiseTop(laid: seq<(Gene, nat)>, part: seq<(Gene, nat)>, top: nat, count: nat)
    requires IsTop(Seconds(laid), top)
    requires forall k :: 0 <= k < |part| ==> part[k].1 < count
    requires part != [] ==> count >= 1 && exists k :: 0 <= k < |part| && part[k].1 == count - 1
    requires part == [] ==> count == 0
    ensures IsTop(Seconds(laid + part), if count == 0 then top else Max(top, count - 1))
  {
    var all := laid + part;
    if top != 0 {
      var k :| 0 <= k < |laid| && laid[k].1 == top;
      assert Seconds(all)[k] == top;
    }
    if count != 0 {
      var k :| 0 <= k < |part| && part[k].1 == count - 1;
      assert Seconds(all)[|laid| + k] == count - 1;
    }
  }

  /** The genes of the contigs `seen`, laid out contig after contig, with `top` their highest level. */
  ghost predicate Laid(bystart: seq<Gene>, seen: seq<string>, laid: seq<(Gene, nat)>, top: nat, offset: int)
  {
    (forall k :: 0 <= k < |laid| ==> laid[k].0.chrom in seen) &&
    IsTop(Seconds(laid), top) &&
    Counted(multiset(Firsts(laid)), bystart, seen) &&
    Apart(laid, offset) &&
    SortedWithin(Firsts(laid)) &&
    ContigFirstFit(Firsts(laid), Seconds(laid), offset)
  }

  /** Laying out one more contig, as `LayContig` promises, keeps `Laid`. */
  lemma LayStep(bystart: seq<Gene>, seen: seq<string>, k: string, laid: seq<(Gene, nat)>, top: nat, offset: int,
                part: seq<(Gene, nat)>, count: nat)
    requires k !in seen && Laid(bystart, seen, laid, top, offset)
    requires LaidContig(Bed.Members(bystart, ChromOf, Identity, k), part, count, offset)
    ensures Laid(bystart, seen + [k], laid + part, if count == 0 then top else Max(top, count - 1), offset)
  {
    LayStepPlaced(bystart, seen, k, laid, top, offset, part, count);
    LayStepCounted(bystart, seen, k, laid, top, offset, part, count);
    LayStepFits(bystart, seen, k, laid, top, offset, part, count);
    RaiseTop(laid, part, top, count);
  }

  lemma LayStepFits(bystart: seq<Gene>, seen: seq<string>, k: string, laid: seq<(Gene, nat)>, top: nat, offset: int,
                    part: seq<(Gene, nat)>, count: nat)
    requires k !in seen && Laid(bystart, seen, laid, top, offset)
    requires LaidContig(Bed.Members(bystart, ChromOf, Identity, k), part, count, offset)
    ensures SortedWithin(Firsts(laid + part))
    ensures ContigFirstFit(Firsts(laid + part), Seconds(laid + part), offset)
  {
    GatherChroms(bystart, k, part);
    GatherSorted(laid, part, seen, k);
    GatherFirstFit(laid, part, seen, k, offset);
  }

  /** Appending the sorted genes of a new contig keeps every contig sorted. */
  lemma GatherSorted(laid: seq<(Gene, nat)>, part: seq<(Gene, nat)>, seen: seq<string>, k: string)
    requires k !in seen
    requires forall i :: 0 <= i < |laid| ==> laid[i].0.chrom in seen
    requires forall i :: 0 <= i < |part| ==> part[i].0.chrom == k
    requires SortedWithin(Firsts(laid)) && SortedBy(Firsts(part), GeneLe)
    ensures SortedWithin(Firsts(laid + part))
  {
    var gs := Firsts(laid + part);
    forall i, j | 0 <= i < j < |gs| && gs[i].chrom == gs[j].chrom ensures GeneLe(gs[i], gs[j]) {
      if j < |laid| {
        assert gs[i] == Firsts(laid)[i] && gs[j] == Firsts(laid)[j];
      } else if i >= |laid| {
        assert gs[i] == Firsts(part)[i - |laid|] && gs[j] == Firsts(part)[j - |laid|];
      }
    }
  }

  /** Appending a first-fit layout of a new contig keeps every gene blocked below its level. */
  lemma GatherFirstFit(laid: seq<(Gene, nat)>, part: seq<(Gene, nat)>, seen: seq<string>, k: string, offset: int)
    requires forall i :: 0 <= i < |part| ==> part[i].0.chrom == k
    requires ContigFirstFit(Firsts(laid), Seconds(laid), offset)
    requires FirstFit(Locs(Firsts(part)), Seconds(part), offset)
    ensures ContigFirstFit(Firsts(laid + part), Seconds(laid + part), offset)
  {
    var all := laid + part;
    var gs, lv := Firsts(all), Seconds(all);
    forall i, l | 0 <= i < |gs| && 0 <= l < lv[i] ensures ContigBlocked(gs, lv, i, l, offset) {
      if i < |laid| {
        assert ContigBlocked(Firsts(laid), Seconds(laid), i, l, offset);
        var j :| 0 <= j < i && Firsts(laid)[j].chrom == Firsts(laid)[i].chrom && Seconds(laid)[j] == l &&
          Firsts(laid)[i].loc.start - Firsts(laid)[j].loc.end <= offset;
        assert all[j] == laid[j] && all[i] == laid[i];
      } else {
        var p := i - |laid|;
        assert all[i] == part[p];
        assert Blocked(Locs(Firsts(part)), Seconds(part), p, l, offset);
        var q :| 0 <= q < p && Seconds(part)[q] == l && Locs(Firsts(part))[p].start - Locs(Firsts(part))[q].end <= offset;
        assert all[|laid| + q] == part[q];
      }
    }
  }

  lemma LayStepPlaced(bystart: seq<Gene>, seen: seq<string>, k: string, laid: seq<(Gene, nat)>, top: nat, offset: int,
                      part: seq<(Gene, nat)>, count: nat)
    requires k !in seen && Laid(bystart, seen, laid, top, offset)
    requires LaidContig(Bed.Members(bystart, ChromOf, Identity, k), part, count, offset)
    ensures forall i :: 0 <= i < |laid + part| ==> (laid + part)[i].0.chrom in seen + [k]
    ensures Apart(laid + part, offset)
  {
    GatherChroms(bystart, k, part);
    GatherApart(laid, part, seen, k, offset);
  }

  lemma LayStepCounted(bystart: seq<Gene>, seen: seq<string>, k: string, laid: seq<(Gene, nat)>, top: nat, offset: int,
                       part: seq<(Gene, nat)>, count: nat)
    requires k !in seen && Laid(bystart, seen, laid, top, offset)
    requires LaidContig(Bed.Members(bystart, ChromOf, Identity, k), part, count, offset)
    ensures Counted(multiset(Firsts(laid + part)), bystart, seen + [k])
  {
    GatherCounts(bystart, seen, k, multiset(Firsts(laid)));
    FirstsConcat(laid, part);
  }

  /** `contigs` are the distinct contigs of `bystart` and `groups` holds each one's genes in order. */
  ghost predicate Grouped(bystart: seq<Gene>, contigs: seq<string>, groups: map<string, seq<Gene>>)
  {
    Distinct(contigs) &&
    (forall i :: 0 <= i < |bystart| ==> bystart[i].chrom in contigs) &&
    (forall k :: k in contigs ==> k in groups && groups[k] == Bed.Members(bystart, ChromOf, Identity, k))
  }

  /** `defaultdict(list)` filled gene by gene. */
  method Contigs(bystart: seq<Gene>) returns (contigs: seq<string>, groups: map<string, seq<Gene>>)
    ensures Grouped(bystart, contigs, groups)
  {
    contigs, groups := Bed.Group(bystart, ChromOf, Identity);
  }

  lemma GroupAt(bystart: seq<Gene>, contigs: seq<string>, groups: map<string, seq<Gene>>, c: int)
    requires Grouped(bystart, contigs, groups) && 0 <= c < |contigs|
    ensures contigs[c] in groups && groups[contigs[c]] == Bed.Members(bystart, ChromOf, Identity, contigs[c])
    ensures contigs[c] !in contigs[..c]
  {
    assert contigs[c] in contigs;
    forall i | 0 <= i < c ensures contigs[..c][i] != contigs[c] {
      assert contigs[..c][i] == contigs[i];
    }
  }

  /** The next contig laid out and appended. */
  method LayNext(bystart: seq<Gene>, contigs: seq<string>, groups: map<string, seq<Gene>>, c: int,
                 laid: seq<(Gene, nat)>, top: nat, offset: int) returns (laid': seq<(Gene, nat)>, top': nat)
    requires Grouped(bystart, contigs, groups) && 0 <= c < |contigs|
    requires Laid(bystart, contigs[..c], laid, top, offset)
    ensures Laid(bystart, contigs[..c + 1], laid', top', offset)
  {
    GroupAt(bystart, contigs, groups, c);
    var part, count := LayContig(groups[contigs[c]], offset);
    LayStep(bystart, contigs[..c], contigs[c], laid, top, offset, part, count);
    PrefixSnoc(contigs, c);
    laid' := laid + part;
    top' := if count == 0 then top else Max(top, count - 1);
  }

  /** Every contig laid out in turn, in order of its first gene, with the highest level over all of them. */
  method LayAll(bystart: seq<Gene>, offset: int) returns (laid: seq<(Gene, nat)>, top: nat)
    ensures multiset(Firsts(laid)) == multiset(bystart)
    ensures IsTop(Seconds(laid), top)
    ensures Apart(laid, offset)
    ensures SortedWithin(Firsts(laid))
    ensures ContigFirstFit(Firsts(laid), Seconds(laid), offset)
  {
    var contigs, groups := Contigs(bystart);
    laid, top := [], 0;
    var c := 0;
    while c < |contigs|
      invariant 0 <= c <= |contigs|
      invariant Laid(bystart, contigs[..c], laid, top, offset)
    {
      laid, top := LayNext(bystart, contigs, groups, c, laid, top, offset);
      c := c + 1;
    }
    assert contigs[..c] == contigs;
    CountedAll(bystart, contigs, multiset(Firsts(laid)));
  }

  /**
   * `assort_genes_by_height`: genes are grouped by contig (contigs in order
   * of their first gene by start), each contig's genes sorted by start and
   * longest first, packed into levels, and every gene paired with its
   * level's height. The highest level `top` is taken over all contigs and
   * `used` is the step the heights are spaced by.
   */
  method Assort(genes: seq<Gene>, limits: (real, real), offset: int, step: Option<real>)
    returns (placed: seq<(Gene, real)>, levels: seq<nat>, top: nat, used: real)
    ensures genes == [] ==> placed == []
    ensures multiset(Firsts(placed)) == multiset(genes)
    ensures |levels| == |placed| && IsTop(levels, top)
    ensures forall k :: 0 <= k < |placed| ==> placed[k].1 == Height(limits, levels[k], used)
    ensures used == if step.Some? then step.value else DefaultStep(limits, top)
    ensures forall i, j :: 0 <= i < j < |placed| && placed[i].0.chrom == placed[j].0.chrom && levels[i] == levels[j] ==>
      placed[j].0.loc.start - placed[i].0.loc.end > offset
    ensures step.None? ==> forall k :: 0 <= k < |placed| ==>
      RMin(limits.0, limits.1) <= placed[k].1 <= RMax(limits.0, limits.1)
    ensures SortedWithin(Firsts(placed))
    ensures ContigFirstFit(Firsts(placed), levels, offset)
  {
    if genes == [] {
      return [], [], 0, if step.Some? then step.value else DefaultStep(limits, 0);
    }
    ByKeyPreorder(StartOf);
    var bystart := SortBy(genes, ByKey(StartOf));
    var laid;
    laid, top := LayAll(bystart, offset);
    used := if step.Some? then step.value else DefaultStep(limits, top);
    levels := Seconds(laid);
    placed := seq(|laid|, j requires 0 <= j < |laid| => (laid[j].0, Height(limits, laid[j].1, used)));
    assert Firsts(placed) == Firsts(laid);
    forall j | 0 <= j < |placed| && step.None?
      ensures RMin(limits.0, limits.1) <= placed[j].1 <= RMax(limits.0, limits.1)
    {
      HeightWithinLimits(limits, laid[j].1, top);
    }
  }
}
