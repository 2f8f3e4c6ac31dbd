// The greedy selection and the trimming step of `optimize`
// (stories/RIP/clustering/dsRNA-filtering.py): candidates are rescored,
// the best non-clashing ones resolved, and the rest rescored against what
// signal is left, until nothing scores; the solution is then trimmed to the
// best candidates that carry 90% of its score.
module Selection {
  import opened Common
  import opened Sorting
  import opened Intervals
  import opened InvRepeats
  import opened Scoring
  import opened ScoreStates

  /** A candidate with its score, `(score, ir)`. */
  type Scored = (real, InvRepeat)

  function ScoreOf(x: Scored): real
  {
    x.0
  }

  /** The repeats of a scored list, in order. */
  function Irs(s: seq<Scored>): (r: seq<InvRepeat>)
    ensures |r| == |s| && forall i :: 0 <= i < |s| ==> r[i] == s[i].1
  {
    Seconds(s)
  }

  lemma {:induction false} IrsConcat(a: seq<Scored>, b: seq<Scored>)
    ensures Irs(a + b) == Irs(a) + Irs(b)
  {
    SecondsConcat(a, b);
  }

  /** Every candidate is a well-formed repeat whose arms lie in the scoring window. */
  predicate Fits(size: int, origin: int, s: seq<Scored>)
  {
    forall x :: x in s ==> ValidRepeat(x.1) && SegmentsInWindow(size, origin, x.1.segments)
  }

  /** Dropping the last candidate keeps the rest fitting, and their repeats among the candidates'. */
  lemma FitsInit(size: int, origin: int, s: seq<Scored>)
    requires Fits(size, origin, s) && s != []
    ensures Fits(size, origin, s[..|s| - 1])
    ensures s[|s| - 1].1 in Irs(s) && forall y :: y in Irs(s[..|s| - 1]) ==> y in Irs(s)
  {
    var init := s[..|s| - 1];
    assert forall y :: y in init ==> y in s;
    assert s[|s| - 1].1 == Irs(s)[|s| - 1];
    forall y | y in Irs(init) ensures y in Irs(s) {
      var i :| 0 <= i < |init| && Irs(init)[i] == y;
      assert Irs(s)[i] == y;
    }
  }

  /** `1e-32`: a candidate scoring less is dropped. */
  const Tiny: real := 0.00000000000000000000000000000001

  /** A score that keeps its candidate in the race: `score >= 1e-32 and score >= 0.1 * maxscore`. */
  predicate Keep(score: real, maxscore: real)
  {
    score >= Tiny && score >= 0.1 * maxscore
  }

  // ---------------------------------------------------------------------
  // Rescoring

  /** The candidates that still score, each with its score against the signal `buf`. */
  function Rescored(st: ScoreState, buf: seq<real>, s: seq<Scored>, maxscore: real): (r: seq<Scored>)
    requires st.Valid() && st.maxOverlap > 0 && |buf| == st.scores.Length && Fits(|buf|, st.start, s)
    ensures forall x :: x in r ==> x.1 in Irs(s) && x.0 == ScoreOn(st, buf, x.1) && Keep(x.0, maxscore)
  {
    if s == [] then []
    else
      var init := s[..|s| - 1];
      var x := s[|s| - 1];
      FitsInit(|buf|, st.start, s);
      var rest := Rescored(st, buf, init, maxscore);
      var score := ScoreOn(st, buf, x.1);
      if Keep(score, maxscore) then rest + [(score, x.1)] else rest
  }

  /**
   * Rescoring keeps each candidate at most once and keeps exactly those
   * whose current score passes both thresholds.
   */
  lemma RescoredSpec(st: ScoreState, buf: seq<real>, s: seq<Scored>, maxscore: real)
    requires st.Valid() && st.maxOverlap > 0 && |buf| == st.scores.Length && Fits(|buf|, st.start, s)
    ensures multiset(Irs(Rescored(st, buf, s, maxscore))) <= multiset(Irs(s))
    ensures forall x :: x in s && Keep(ScoreOn(st, buf, x.1), maxscore) ==> (ScoreOn(st, buf, x.1), x.1) in Rescored(st, buf, s, maxscore)
  {
    RescoredOnce(st, buf, s, maxscore);
    forall x | x in s && Keep(ScoreOn(st, buf, x.1), maxscore) ensures (ScoreOn(st, buf, x.1), x.1) in Rescored(st, buf, s, maxscore) {
      RescoredKeeps(st, buf, s, maxscore, x);
    }
  }

  /** Rescoring keeps each candidate at most as often as it was listed. */
  lemma {:induction false} RescoredOnce(st: ScoreState, buf: seq<real>, s: seq<Scored>, maxscore: real)
    requires st.Valid() && st.maxOverlap > 0 && |buf| == st.scores.Length && Fits(|buf|, st.start, s)
    ensures multiset(Irs(Rescored(st, buf, s, maxscore))) <= multiset(Irs(s))
    decreases |s|
  {
    if s != [] {
      var init := s[..|s| - 1];
      var x := s[|s| - 1];
      assert s == init + [x];
      assert Irs(s) == Irs(init) + [x.1];
      RescoredOnce(st, buf, init, maxscore);
      var rest := Rescored(st, buf, init, maxscore);
      var score := ScoreOn(st, buf, x.1);
      if Keep(score, maxscore) {
        assert Irs(rest + [(score, x.1)]) == Irs(rest) + [x.1];
      }
    }
  }

  /** A listed candidate whose current score passes both thresholds is kept, with that score. */
  lemma {:induction false} RescoredKeeps(st: ScoreState, buf: seq<real>, s: seq<Scored>, maxscore: real, x: Scored)
    requires st.Valid() && st.maxOverlap > 0 && |buf| == st.scores.Length && Fits(|buf|, st.start, s)
    requires x in s && Keep(ScoreOn(st, buf, x.1), maxscore)
    ensures (ScoreOn(st, buf, x.1), x.1) in Rescored(st, buf, s, maxscore)
    decreases |s|
  {
    var init := s[..|s| - 1];
    var last := s[|s| - 1];
    assert s == init + [last];
    if x != last {
      assert x in init;
      RescoredKeeps(st, buf, init, maxscore, x);
    }
  }

  /** The rescored candidates still fit the window. */
  lemma {:induction false} RescoredFits(st: ScoreState, buf: seq<real>, s: seq<Scored>, maxscore: real)
    requires st.Valid() && st.maxOverlap > 0 && |buf| == st.scores.Length && Fits(|buf|, st.start, s)
    ensures Fits(|buf|, st.start, Rescored(st, buf, s, maxscore))
  {
    forall x | x in Rescored(st, buf, s, maxscore)
      ensures ValidRepeat(x.1) && SegmentsInWindow(|buf|, st.start, x.1.segments)
    {
      var i :| 0 <= i < |s| && Irs(s)[i] == x.1;
      assert s[i] in s;
    }
  }

  /** The rescoring loop at the top of each round. */
  method Rescore(st: ScoreState, unresolved: seq<Scored>, maxscore: real) returns (cache: seq<Scored>)
    requires st.Valid() && st.maxOverlap > 0 && Fits(st.scores.Length, st.start, unresolved)
    ensures cache == Rescored(st, st.scores[..], unresolved, maxscore)
  {
    cache := [];
    for i := 0 to |unresolved|
      invariant cache == Rescored(st, st.scores[..], unresolved[..i], maxscore)
    {
      var ir := unresolved[i].1;
      var score := st.Score(ir);
      assert unresolved[..i + 1][..i] == unresolved[..i];
      if score >= Tiny && score >= 0.1 * maxscore {
        cache := cache + [(score, ir)];
      }
    }
    assert unresolved[..|unresolved|] == unresolved;
  }

  // ---------------------------------------------------------------------
  // Picking the non-clashing candidates of one round

  /** Every candidate has at least one segment. */
  predicate Candidates(s: seq<Scored>)
  {
    forall i :: 0 <= i < |s| ==> |s[i].1.segments| > 0
  }

  /** The envelope `[left_brange, right_brange]` of a candidate. */
  function Envelope(ir: InvRepeat): seq<Interval>
    requires |ir.segments| > 0
  {
    [LeftBrange(ir), RightBrange(ir)]
  }

  /** The envelopes of the accepted candidates (`cache`), in acceptance order. */
  function Taken(r: seq<Scored>): (c: seq<Interval>)
    requires Candidates(r)
    ensures |c| == 2 * |r|
    ensures forall i :: 0 <= i < |r| ==> c[2 * i] == LeftBrange(r[i].1) && c[2 * i + 1] == RightBrange(r[i].1)
  {
    if r == [] then [] else Taken(r[..|r| - 1]) + Envelope(r[|r| - 1].1)
  }

  /** `len(Interval.overlap([lbrange, rbrange], cache)) > 0`. */
  predicate Clash(ir: InvRepeat, cache: seq<Interval>)
    requires |ir.segments| > 0
  {
    OverlapPieces(Envelope(ir), cache) != []
  }

  /** No arm envelope of `a` overlaps one of `b`. */
  predicate Apart(a: InvRepeat, b: InvRepeat)
    requires |a.segments| > 0 && |b.segments| > 0
  {
    !Overlaps(LeftBrange(a), LeftBrange(b)) && !Overlaps(LeftBrange(a), RightBrange(b)) &&
    !Overlaps(RightBrange(a), LeftBrange(b)) && !Overlaps(RightBrange(a), RightBrange(b))
  }

  /**
   * The inner loop of a round, over the candidates in the order they are
   * popped: one is accepted when it clashes with none accepted before it,
   * and left for the next round otherwise.
   */
  function PickFrom(q: seq<Scored>): (r: (seq<Scored>, seq<Scored>))
    requires Candidates(q)
    ensures Candidates(r.0) && Candidates(r.1)
  {
    if q == [] then ([], [])
    else
      var rest := PickFrom(q[..|q| - 1]);
      var x := q[|q| - 1];
      if Clash(x.1, Taken(rest.0)) then (rest.0, rest.1 + [x]) else (rest.0 + [x], rest.1)
  }

  /** A round splits the popped candidates between the accepted and the left. */
  lemma {:induction false} PickPartition(q: seq<Scored>)
    requires Candidates(q)
    ensures multiset(PickFrom(q).0) + multiset(PickFrom(q).1) == multiset(q)
    decreases |q|
  {
    if q != [] {
      var init := q[..|q| - 1];
      assert q == init + [q[|q| - 1]];
      PickPartition(init);
    }
  }

  /** The first candidate popped is always accepted. */
  lemma {:induction false} PickFirst(q: seq<Scored>)
    requires Candidates(q) && q != []
    ensures PickFrom(q).0 != [] && PickFrom(q).0[0] == q[0]
    decreases |q|
  {
    var init := q[..|q| - 1];
    if init == [] {
      assert Taken(PickFrom(init).0) == [];
      assert !Clash(q[0].1, []);
    } else {
      PickFirst(init);
      assert init[0] == q[0];
    }
  }

  /** Some envelope of `ir` overlaps some interval of `cache`. */
  predicate Touches(ir: InvRepeat, cache: seq<Interval>)
    requires |ir.segments| > 0
  {
    exists j :: 0 <= j < |cache| && (Overlaps(LeftBrange(ir), cache[j]) || Overlaps(RightBrange(ir), cache[j]))
  }

  lemma {:induction false} ClashTouches(ir: InvRepeat, cache: seq<Interval>)
    requires |ir.segments| > 0
    ensures Clash(ir, cache) <==> Touches(ir, cache)
  {
    var e := Envelope(ir);
    assert OverlapPieces(e, cache) == [] <==> forall i, j :: 0 <= i < |e| && 0 <= j < |cache| ==> !Overlaps(e[i], cache[j]);
    assert e[0] == LeftBrange(ir) && e[1] == RightBrange(ir);
    if Touches(ir, cache) {
      var j :| 0 <= j < |cache| && (Overlaps(LeftBrange(ir), cache[j]) || Overlaps(RightBrange(ir), cache[j]));
      if Overlaps(LeftBrange(ir), cache[j]) {
        assert Overlaps(e[0], cache[j]);
      } else {
        assert Overlaps(e[1], cache[j]);
      }
    }
  }

  lemma {:induction false} TouchesTaken(ir: InvRepeat, r: seq<Scored>)
    requires |ir.segments| > 0 && Candidates(r)
    ensures Touches(ir, Taken(r)) ==> exists k :: 0 <= k < |r| && !Apart(ir, r[k].1)
  {
    var c := Taken(r);
    if Touches(ir, c) {
      var j :| 0 <= j < |c| && (Overlaps(LeftBrange(ir), c[j]) || Overlaps(RightBrange(ir), c[j]));
      var k := Halve(j);
      assert !Apart(ir, r[k].1);
    }
  }

  lemma {:induction false} TouchesAt(ir: InvRepeat, cache: seq<Interval>, j: int)
    requires |ir.segments| > 0 && 0 <= j < |cache|
    requires Overlaps(LeftBrange(ir), cache[j]) || Overlaps(RightBrange(ir), cache[j])
    ensures Touches(ir, cache)
  {
  }

  lemma {:induction false} ApartTaken(ir: InvRepeat, r: seq<Scored>, k: int)
    requires |ir.segments| > 0 && Candidates(r) && 0 <= k < |r| && !Apart(ir, r[k].1)
    ensures Touches(ir, Taken(r))
  {
    var c := Taken(r);
    if Overlaps(LeftBrange(ir), LeftBrange(r[k].1)) || Overlaps(RightBrange(ir), LeftBrange(r[k].1)) {
      TouchesAt(ir, c, 2 * k);
    } else {
      TouchesAt(ir, c, 2 * k + 1);
    }
  }

  /** The clash test against the envelopes taken so far is a clash with one of them. */
  lemma {:induction false} ClashTaken(ir: InvRepeat, r: seq<Scored>)
    requires |ir.segments| > 0 && Candidates(r)
    ensures Clash(ir, Taken(r)) <==> exists k :: 0 <= k < |r| && !Apart(ir, r[k].1)
  {
    ClashTouches(ir, Taken(r));
    TouchesTaken(ir, r);
    if exists k :: 0 <= k < |r| && !Apart(ir, r[k].1) {
      var k :| 0 <= k < |r| && !Apart(ir, r[k].1);
      ApartTaken(ir, r, k);
    }
  }

  /** A round accepts pairwise apart candidates. */
  lemma {:induction false} PickApart(q: seq<Scored>)
    requires Candidates(q)
    ensures forall i, j :: 0 <= i < j < |PickFrom(q).0| ==> Apart(PickFrom(q).0[i].1, PickFrom(q).0[j].1)
    decreases |q|
  {
    if q != [] {
      var init := q[..|q| - 1];
      var x := q[|q| - 1];
      var rest := PickFrom(init);
      PickApart(init);
      if !Clash(x.1, Taken(rest.0)) {
        ClashTaken(x.1, rest.0);
        AcceptKeepsApart(rest.0, x);
      }
    }
  }

  /** Every candidate a round leaves clashes with one it accepted. */
  lemma {:induction false} PickBlocked(q: seq<Scored>)
    requires Candidates(q)
    ensures forall y :: y in PickFrom(q).1 ==> exists k :: 0 <= k < |PickFrom(q).0| && !Apart(y.1, PickFrom(q).0[k].1)
    decreases |q|
  {
    if q != [] {
      var init := q[..|q| - 1];
      var x := q[|q| - 1];
      var rest := PickFrom(init);
      PickBlocked(init);
      ClashTaken(x.1, rest.0);
      if Clash(x.1, Taken(rest.0)) {
        assert PickFrom(q) == (rest.0, rest.1 + [x]);
      } else {
        AcceptKeepsBlocked(rest.0, rest.1, x);
      }
    }
  }

  /** Accepting a candidate apart from all accepted ones keeps them pairwise apart. */
  lemma AcceptKeepsApart(acc: seq<Scored>, x: Scored)
    requires Candidates(acc) && |x.1.segments| > 0
    requires forall i, j :: 0 <= i < j < |acc| ==> Apart(acc[i].1, acc[j].1)
    requires forall k :: 0 <= k < |acc| ==> Apart(x.1, acc[k].1)
    ensures forall i, j :: 0 <= i < j < |acc + [x]| ==> Apart((acc + [x])[i].1, (acc + [x])[j].1)
  {
    var r := acc + [x];
    forall i, j | 0 <= i < j < |r| ensures Apart(r[i].1, r[j].1) {
      if j == |acc| {
        assert r[j] == x && r[i] == acc[i];
        assert Apart(x.1, acc[i].1);
      } else {
        assert r[i] == acc[i] && r[j] == acc[j];
      }
    }
  }

  /** A candidate left behind still clashes with an accepted one after more are accepted. */
  lemma AcceptKeepsBlocked(acc: seq<Scored>, left: seq<Scored>, x: Scored)
    requires Candidates(acc) && Candidates(left) && |x.1.segments| > 0
    requires forall y :: y in left ==> exists k :: 0 <= k < |acc| && !Apart(y.1, acc[k].1)
    ensures forall y :: y in left ==> exists k :: 0 <= k < |acc + [x]| && !Apart(y.1, (acc + [x])[k].1)
  {
    var r := acc + [x];
    forall y | y in left ensures exists k :: 0 <= k < |r| && !Apart(y.1, r[k].1) {
      var k :| 0 <= k < |acc| && !Apart(y.1, acc[k].1);
      assert r[k] == acc[k];
    }
  }

  /**
   * The inner `while unresolved` loop: candidates are popped from the end
   * of the ascending list, so the best-scoring come first.
   */
  method Pick(sorted: seq<Scored>) returns (resolved: seq<Scored>, left: seq<Scored>)
    requires Candidates(sorted)
    ensures (resolved, left) == PickFrom(Reversed(sorted))
  {
    ghost var q := Reversed(sorted);
    var cache: seq<Interval> := [];
    resolved, left := [], [];
    assert q[..0] == [];
    for n := 0 to |sorted|
      invariant Candidates(q[..n]) && (resolved, left) == PickFrom(q[..n])
      invariant Candidates(resolved) && cache == Taken(resolved)
    {
      var x := sorted[|sorted| - 1 - n];
      resolved, left, cache := PopOne(q, n, x, resolved, left, cache);
    }
    assert q[..|sorted|] == q;
  }

  /** One pass of the inner loop: the popped candidate `x` is accepted or left. */
  method PopOne(ghost q: seq<Scored>, ghost n: nat, x: Scored,
                resolved0: seq<Scored>, left0: seq<Scored>, cache0: seq<Interval>)
    returns (resolved: seq<Scored>, left: seq<Scored>, cache: seq<Interval>)
    requires Candidates(q) && n < |q| && x == q[n]
    requires Candidates(q[..n]) && (resolved0, left0) == PickFrom(q[..n])
    requires Candidates(resolved0) && cache0 == Taken(resolved0)
    ensures Candidates(q[..n + 1]) && (resolved, left) == PickFrom(q[..n + 1])
    ensures Candidates(resolved) && cache == Taken(resolved)
  {
    PickStep(q, n);
    assert x in q;
    var lbrange, rbrange := LeftBrange(x.1), RightBrange(x.1);
    var conflict := OverlapPieces([lbrange, rbrange], cache0);
    assert [lbrange, rbrange] == Envelope(x.1);
    if |conflict| > 0 {
      resolved, left, cache := resolved0, left0 + [x], cache0;
    } else {
      resolved, left, cache := resolved0 + [x], left0, cache0 + [lbrange, rbrange];
      assert resolved[..|resolved| - 1] == resolved0;
    }
  }

  /** One more popped candidate. */
  lemma {:induction false} PickStep(q: seq<Scored>, n: nat)
    requires Candidates(q) && n < |q|
    ensures Candidates(q[..n]) && Candidates(q[..n + 1])
    ensures PickFrom(q[..n + 1]) ==
      if Clash(q[n].1, Taken(PickFrom(q[..n]).0)) then (PickFrom(q[..n]).0, PickFrom(q[..n]).1 + [q[n]])
      else (PickFrom(q[..n]).0 + [q[n]], PickFrom(q[..n]).1)
  {
    assert q[..n + 1][..n] == q[..n];
  }

  // ---------------------------------------------------------------------
  // The rounds

  /** The signal after the repeats are resolved one after the other. */
  function ResolveMany(buf: seq<real>, origin: int, irs: seq<InvRepeat>): (r: seq<real>)
    requires forall i :: 0 <= i < |irs| ==> SegmentsInWindow(|buf|, origin, irs[i].segments)
    ensures |r| == |buf|
  {
    if irs == [] then buf
    else ResolveAll(ResolveMany(buf, origin, irs[..|irs| - 1]), origin, irs[|irs| - 1].segments)
  }

  lemma {:induction false} ResolveManyConcat(buf: seq<real>, origin: int, a: seq<InvRepeat>, b: seq<InvRepeat>)
    requires forall i :: 0 <= i < |a| ==> SegmentsInWindow(|buf|, origin, a[i].segments)
    requires forall i :: 0 <= i < |b| ==> SegmentsInWindow(|buf|, origin, b[i].segments)
    ensures ResolveMany(buf, origin, a + b) == ResolveMany(ResolveMany(buf, origin, a), origin, b)
    decreases |b|
  {
    if b == [] {
      assert a + b == a;
    } else {
      assert (a + b)[..|a + b| - 1] == a + b[..|b| - 1];
      ResolveManyConcat(buf, origin, a, b[..|b| - 1]);
    }
  }

  /** Resolving repeats only lowers the signal, and never below zero. */
  lemma {:induction false} ResolveManyBounds(buf: seq<real>, origin: int, irs: seq<InvRepeat>)
    requires forall i :: 0 <= i < |irs| ==> SegmentsInWindow(|buf|, origin, irs[i].segments)
    requires NonNegative(buf)
    ensures forall k :: 0 <= k < |buf| ==> 0.0 <= ResolveMany(buf, origin, irs)[k] <= buf[k]
    decreases |irs|
  {
    if irs != [] {
      var init := irs[..|irs| - 1];
      ResolveManyBounds(buf, origin, init);
      var mid := ResolveMany(buf, origin, init);
      ResolveAllBounds(mid, origin, irs[|irs| - 1].segments);
    }
  }

  /** `for _, ir in resolved: scoring.resolve(ir)`. */
  method ResolveEach(st: ScoreState, resolved: seq<Scored>)
    requires st.Valid() && Fits(st.scores.Length, st.start, resolved)
    modifies st.scores
    ensures st.scores[..] == ResolveMany(old(st.scores[..]), st.start, Irs(resolved))
  {
    ghost var buf := st.scores[..];
    for i := 0 to |resolved|
      invariant st.scores[..] == ResolveMany(buf, st.start, Irs(resolved[..i]))
    {
      var ir := resolved[i].1;
      assert resolved[i] in resolved;
      assert Irs(resolved[..i + 1]) == Irs(resolved[..i]) + [ir];
      var _ := st.Resolve(ir);
    }
    assert resolved[..|resolved|] == resolved;
  }

  /**
   * One round of `optimize`'s loop against the signal `buf`: the
   * candidates that still score, sorted by score and popped best first,
   * split into the accepted and the left.
   */
  function RoundOn(st: ScoreState, buf: seq<real>, unresolved: seq<Scored>, maxscore: real): (r: (seq<Scored>, seq<Scored>))
    requires st.Valid() && st.maxOverlap > 0 && |buf| == st.scores.Length && Fits(|buf|, st.start, unresolved)
    ensures Candidates(r.0) && Candidates(r.1)
    ensures Fits(|buf|, st.start, r.0) && Fits(|buf|, st.start, r.1)
    ensures forall i :: 0 <= i < |Irs(r.0)| ==> SegmentsInWindow(|buf|, st.start, Irs(r.0)[i].segments)
    ensures multiset(Irs(r.0)) + multiset(Irs(r.1)) <= multiset(Irs(unresolved))
    ensures forall x :: x in r.0 ==> Keep(x.0, maxscore)
    ensures unresolved != [] ==> |r.1| < |unresolved|
  {
    if unresolved == [] then ([], [])
    else
      var cache := Rescored(st, buf, unresolved, maxscore);
      RescoredFits(st, buf, unresolved, maxscore);
      RescoredSpec(st, buf, unresolved, maxscore);
      FitsCandidates(|buf|, st.start, cache);
      var r := PickFrom(BestFirst(cache));
      Chosen(|buf|, st.start, maxscore, unresolved, cache, BestFirst(cache), r.0, r.1);
      FitsWindows(|buf|, st.start, r.0);
      r
  }

  /**
   * The order a round pops its candidates in: sorted by score ascending
   * (stably) and popped from the end, so the best come first.
   */
  function BestFirst(cache: seq<Scored>): (q: seq<Scored>)
    ensures |q| == |cache| && multiset(q) == multiset(cache)
    ensures Candidates(cache) ==> Candidates(q)
    ensures forall i, j :: 0 <= i < j < |q| ==> q[j].0 <= q[i].0
  {
    ByRealKeyPreorder(ScoreOf);
    var sorted := SortBy(cache, ByRealKey(ScoreOf));
    ReversedMultiset(sorted);
    var q := Reversed(sorted);
    ReversedDescending(sorted);
    CandidatesPermuted(cache, q);
    q
  }

  /** An ascending list read from the end is descending. */
  lemma ReversedDescending(sorted: seq<Scored>)
    requires SortedBy(sorted, ByRealKey(ScoreOf))
    ensures forall i, j :: 0 <= i < j < |Reversed(sorted)| ==> Reversed(sorted)[j].0 <= Reversed(sorted)[i].0
  {
    var q := Reversed(sorted);
    forall i, j | 0 <= i < j < |q| ensures q[j].0 <= q[i].0 {
      var a, b := sorted[|q| - 1 - j], sorted[|q| - 1 - i];
      assert ByRealKey(ScoreOf)(a, b);
      assert ScoreOf(a) <= ScoreOf(b);
      assert q[j] == a && q[i] == b;
    }
  }

  /**
   * A round over candidates popped best first: every candidate is accepted
   * or left, the accepted ones have pairwise apart arms, each left one
   * clashes with an accepted one, and the first accepted is a best-scoring
   * candidate.
   */
  lemma {:induction false} PickBestFirst(cache: seq<Scored>)
    requires Candidates(cache)
    ensures var r := PickFrom(BestFirst(cache));
      multiset(r.0) + multiset(r.1) == multiset(cache)
    ensures var r := PickFrom(BestFirst(cache));
      forall i, j :: 0 <= i < j < |r.0| ==> Apart(r.0[i].1, r.0[j].1)
    ensures var r := PickFrom(BestFirst(cache));
      forall y :: y in r.1 ==> exists k :: 0 <= k < |r.0| && !Apart(y.1, r.0[k].1)
    ensures var r := PickFrom(BestFirst(cache));
      cache != [] ==> r.0 != [] && r.0[0] in cache && forall x :: x in cache ==> x.0 <= r.0[0].0
  {
    var q := BestFirst(cache);
    PickPartition(q);
    PickApart(q);
    PickBlocked(q);
    if cache != [] {
      PickBest(cache, q);
    }
  }

  /** Popping a best-first order accepts the best-scoring candidate first. */
  lemma {:induction false} PickBest(cache: seq<Scored>, q: seq<Scored>)
    requires Candidates(q) && multiset(q) == multiset(cache) && cache != []
    requires forall i, j :: 0 <= i < j < |q| ==> q[j].0 <= q[i].0
    ensures PickFrom(q).0 != [] && PickFrom(q).0[0] in cache
    ensures forall x :: x in cache ==> x.0 <= PickFrom(q).0[0].0
  {
    assert |q| == |multiset(cache)| > 0;
    PickFirst(q);
    assert q[0] in multiset(cache);
    forall x | x in cache ensures x.0 <= q[0].0 {
      assert x in multiset(q);
      var i :| 0 <= i < |q| && q[i] == x;
    }
  }

  /**
   * What one round does with the rescored candidates: every one of them is
   * accepted or left, the accepted ones have pairwise apart arms, each left
   * one clashes with an accepted one, and the first accepted is the best
   * scoring, so a round accepts something whenever something still scores.
   */
  lemma {:induction false} RoundOnSpec(st: ScoreState, buf: seq<real>, unresolved: seq<Scored>, maxscore: real)
    requires st.Valid() && st.maxOverlap > 0 && |buf| == st.scores.Length && Fits(|buf|, st.start, unresolved)
    ensures multiset(RoundOn(st, buf, unresolved, maxscore).0) + multiset(RoundOn(st, buf, unresolved, maxscore).1)
            == multiset(Rescored(st, buf, unresolved, maxscore))
    ensures var r := RoundOn(st, buf, unresolved, maxscore);
      forall i, j :: 0 <= i < j < |r.0| ==> Apart(r.0[i].1, r.0[j].1)
    ensures var r := RoundOn(st, buf, unresolved, maxscore);
      forall y :: y in r.1 ==> exists k :: 0 <= k < |r.0| && !Apart(y.1, r.0[k].1)
    ensures var r := RoundOn(st, buf, unresolved, maxscore);
      Rescored(st, buf, unresolved, maxscore) != [] ==>
        r.0 != [] && r.0[0] in Rescored(st, buf, unresolved, maxscore) &&
        forall x :: x in Rescored(st, buf, unresolved, maxscore) ==> x.0 <= r.0[0].0
  {
    if unresolved != [] {
      RescoredFits(st, buf, unresolved, maxscore);
      var cache := Rescored(st, buf, unresolved, maxscore);
      FitsCandidates(|buf|, st.start, cache);
      assert RoundOn(st, buf, unresolved, maxscore) == PickFrom(BestFirst(cache));
      PickBestFirst(cache);
    }
  }

  /**
   * The rounds of `optimize`'s outer loop from the signal `buf`: each
   * round's accepted candidates, resolved before the next round rescores
   * the ones it left, until none is left.
   */
  function Rounds(st: ScoreState, buf: seq<real>, unresolved: seq<Scored>, maxscore: real): (r: seq<Scored>)
    requires st.Valid() && st.maxOverlap > 0 && |buf| == st.scores.Length && Fits(|buf|, st.start, unresolved)
    ensures Fits(|buf|, st.start, r)
    decreases |unresolved|
  {
    if unresolved == [] then []
    else
      var round := RoundOn(st, buf, unresolved, maxscore);
      FitsWindows(|buf|, st.start, round.0);
      var next := ResolveMany(buf, st.start, Irs(round.0));
      var rest := Rounds(st, next, round.1, maxscore);
      IrsConcat(round.0, rest);
      round.0 + rest
  }

  /** The rounds choose each candidate at most as often as it is listed, and only kept scores. */
  lemma {:induction false} RoundsDrawn(st: ScoreState, buf: seq<real>, unresolved: seq<Scored>, maxscore: real)
    requires st.Valid() && st.maxOverlap > 0 && |buf| == st.scores.Length && Fits(|buf|, st.start, unresolved)
    ensures multiset(Irs(Rounds(st, buf, unresolved, maxscore))) <= multiset(Irs(unresolved))
    ensures forall x :: x in Rounds(st, buf, unresolved, maxscore) ==> Keep(x.0, maxscore)
    decreases |unresolved|
  {
    if unresolved != [] {
      var round := RoundOn(st, buf, unresolved, maxscore);
      var next := ResolveMany(buf, st.start, Irs(round.0));
      RoundsDrawn(st, next, round.1, maxscore);
      var rest := Rounds(st, next, round.1, maxscore);
      IrsConcat(round.0, rest);
      assert Rounds(st, buf, unresolved, maxscore) == round.0 + rest;
    }
  }

  /** The rounds from a non-empty list: the first round, then the rounds after it. */
  lemma RoundsUnfold(st: ScoreState, buf: seq<real>, unresolved: seq<Scored>, maxscore: real)
    requires st.Valid() && st.maxOverlap > 0 && |buf| == st.scores.Length && Fits(|buf|, st.start, unresolved)
    requires unresolved != []
    ensures var round := RoundOn(st, buf, unresolved, maxscore);
      Rounds(st, buf, unresolved, maxscore) ==
      round.0 + Rounds(st, ResolveMany(buf, st.start, Irs(round.0)), round.1, maxscore)
  {
  }

  /** The repeats of fitting candidates lie in the window. */
  lemma FitsConcat(size: int, origin: int, a: seq<Scored>, b: seq<Scored>)
    requires Fits(size, origin, a) && Fits(size, origin, b)
    ensures Fits(size, origin, a + b)
  {
  }

  lemma FitsWindows(size: int, origin: int, s: seq<Scored>)
    requires Fits(size, origin, s)
    ensures forall i :: 0 <= i < |Irs(s)| ==> SegmentsInWindow(size, origin, Irs(s)[i].segments)
  {
    forall i | 0 <= i < |Irs(s)| ensures SegmentsInWindow(size, origin, Irs(s)[i].segments) {
      assert s[i] in s;
    }
  }

  /** The signal the rounds leave: `buf` with every chosen candidate resolved in order. */
  function Spent(st: ScoreState, buf: seq<real>, unresolved: seq<Scored>, maxscore: real): (r: seq<real>)
    requires st.Valid() && st.maxOverlap > 0 && |buf| == st.scores.Length && Fits(|buf|, st.start, unresolved)
    ensures |r| == |buf|
  {
    var solution := Rounds(st, buf, unresolved, maxscore);
    FitsWindows(|buf|, st.start, solution);
    ResolveMany(buf, st.start, Irs(solution))
  }

  /**
   * The first candidate the rounds choose is the best-scoring one that
   * still scores against `buf`, so the rounds choose something exactly
   * when anything scores.
   */
  lemma {:induction false} RoundsFirst(st: ScoreState, buf: seq<real>, unresolved: seq<Scored>, maxscore: real)
    requires st.Valid() && st.maxOverlap > 0 && |buf| == st.scores.Length && Fits(|buf|, st.start, unresolved)
    ensures var solution := Rounds(st, buf, unresolved, maxscore);
      Rescored(st, buf, unresolved, maxscore) != [] ==>
        solution != [] && solution[0] in Rescored(st, buf, unresolved, maxscore) &&
        forall x :: x in Rescored(st, buf, unresolved, maxscore) ==> x.0 <= solution[0].0
    ensures Rescored(st, buf, unresolved, maxscore) == [] ==> Rounds(st, buf, unresolved, maxscore) == []
  {
    RoundOnSpec(st, buf, unresolved, maxscore);
    if unresolved != [] {
      var round := RoundOn(st, buf, unresolved, maxscore);
      FitsWindows(|buf|, st.start, round.0);
      var next := ResolveMany(buf, st.start, Irs(round.0));
      var rest := Rounds(st, next, round.1, maxscore);
      assert Rounds(st, buf, unresolved, maxscore) == round.0 + rest;
      if Rescored(st, buf, unresolved, maxscore) == [] {
        assert BestFirst([]) == [];
        assert round == ([], []);
        assert rest == [];
      }
    }
  }

  /**
   * The rounds stop only when nothing scores any more: on a non-negative
   * signal, every candidate is either chosen or scores below a threshold
   * against the signal the rounds leave.
   */
  lemma {:induction false} RoundsExhaust(st: ScoreState, buf: seq<real>, unresolved: seq<Scored>, maxscore: real)
    requires st.Valid() && st.maxOverlap > 0 && |buf| == st.scores.Length && Fits(|buf|, st.start, unresolved)
    requires NonNegative(buf)
    ensures forall x :: x in unresolved ==>
      x.1 in Irs(Rounds(st, buf, unresolved, maxscore)) || !Keep(ScoreOn(st, Spent(st, buf, unresolved, maxscore), x.1), maxscore)
    decreases |unresolved|
  {
    if unresolved != [] {
      var round := RoundOn(st, buf, unresolved, maxscore);
      var next := ResolveMany(buf, st.start, Irs(round.0));
      var chosen := Irs(Rounds(st, buf, unresolved, maxscore));
      var final := Spent(st, buf, unresolved, maxscore);
      SpentStep(st, buf, unresolved, maxscore);
      SpentBelow(st, buf, unresolved, maxscore);
      ResolveManyBounds(buf, st.start, Irs(round.0));
      RoundsExhaust(st, next, round.1, maxscore);
      forall y | y in round.0 ensures y.1 in chosen {
        assert Irs(round.0)[IndexOf(round.0, y)] == y.1;
      }
      forall x | x in unresolved
        ensures x.1 in chosen || !Keep(ScoreOn(st, final, x.1), maxscore)
      {
        ExhaustOne(st, buf, unresolved, maxscore, final, chosen, x);
      }
    }
  }

  /** The rounds from a non-empty list: the first round's choice, then the rounds from the signal it leaves. */
  lemma SpentStep(st: ScoreState, buf: seq<real>, unresolved: seq<Scored>, maxscore: real)
    requires st.Valid() && st.maxOverlap > 0 && |buf| == st.scores.Length && Fits(|buf|, st.start, unresolved)
    requires unresolved != []
    ensures var round := RoundOn(st, buf, unresolved, maxscore);
      var next := ResolveMany(buf, st.start, Irs(round.0));
      Irs(Rounds(st, buf, unresolved, maxscore)) == Irs(round.0) + Irs(Rounds(st, next, round.1, maxscore)) &&
      Spent(st, buf, unresolved, maxscore) == Spent(st, next, round.1, maxscore)
  {
    var round := RoundOn(st, buf, unresolved, maxscore);
    var next := ResolveMany(buf, st.start, Irs(round.0));
    var rest := Rounds(st, next, round.1, maxscore);
    RoundsUnfold(st, buf, unresolved, maxscore);
    IrsConcat(round.0, rest);
    FitsWindows(|buf|, st.start, rest);
    ResolveManyConcat(buf, st.start, Irs(round.0), Irs(rest));
  }

  /** On a non-negative signal the rounds leave a non-negative signal below it. */
  lemma SpentBelow(st: ScoreState, buf: seq<real>, unresolved: seq<Scored>, maxscore: real)
    requires st.Valid() && st.maxOverlap > 0 && |buf| == st.scores.Length && Fits(|buf|, st.start, unresolved)
    requires NonNegative(buf)
    ensures forall k :: 0 <= k < |buf| ==> 0.0 <= Spent(st, buf, unresolved, maxscore)[k] <= buf[k]
  {
    var solution := Rounds(st, buf, unresolved, maxscore);
    FitsWindows(|buf|, st.start, solution);
    ResolveManyBounds(buf, st.start, Irs(solution));
  }

  /**
   * One candidate of a round: if it still scores it is accepted or left,
   * and a left one is chosen later or stops scoring; if it does not score,
   * less signal does not make it score.
   */
  lemma ExhaustOne(st: ScoreState, buf: seq<real>, unresolved: seq<Scored>, maxscore: real,
                   final: seq<real>, chosen: seq<InvRepeat>, x: Scored)
    requires st.Valid() && st.maxOverlap > 0 && |buf| == st.scores.Length && Fits(|buf|, st.start, unresolved)
    requires x in unresolved && |final| == |buf| && forall k :: 0 <= k < |buf| ==> final[k] <= buf[k]
    requires forall y :: y in RoundOn(st, buf, unresolved, maxscore).0 ==> y.1 in chosen
    requires forall y :: y in RoundOn(st, buf, unresolved, maxscore).1 ==>
      y.1 in chosen || !Keep(ScoreOn(st, final, y.1), maxscore)
    ensures x.1 in chosen || !Keep(ScoreOn(st, final, x.1), maxscore)
  {
    FitsInUnresolved(|buf|, st.start, unresolved, x);
    var score := ScoreOn(st, buf, x.1);
    if Keep(score, maxscore) {
      RescoredKeeps(st, buf, unresolved, maxscore, x);
      RoundOnSpec(st, buf, unresolved, maxscore);
      var round := RoundOn(st, buf, unresolved, maxscore);
      var y := (score, x.1);
      assert y in multiset(round.0) + multiset(round.1);
      if y !in round.0 {
        assert y in round.1;
      }
    } else {
      ScoreOnMonotone(st, final, buf, x.1);
    }
  }

  /** A listed candidate fits the window. */
  lemma FitsInUnresolved(size: int, origin: int, s: seq<Scored>, x: Scored)
    requires Fits(size, origin, s) && x in s
    ensures ValidRepeat(x.1) && SegmentsInWindow(size, origin, x.1.segments) && |x.1.segments| > 0
  {
  }

  /** The position of a listed element. */
  function IndexOf<T(==)>(s: seq<T>, x: T): (i: nat)
    requires x in s
    ensures i < |s| && s[i] == x
  {
    if s[0] == x then 0 else 1 + IndexOf(s[1..], x)
  }

  /**
   * The greedy rounds of `optimize`: the solution is what the rounds choose
   * from the candidates against the signal as it was, the signal is what
   * resolving them in order leaves, and on a non-negative signal every
   * candidate not chosen no longer scores.
   */
  method Greedy(st: ScoreState, candidates: seq<Scored>, maxscore: real) returns (solution: seq<Scored>)
    requires st.Valid() && st.maxOverlap > 0 && Fits(st.scores.Length, st.start, candidates)
    modifies st.scores
    ensures solution == Rounds(st, old(st.scores[..]), candidates, maxscore)
    ensures Fits(st.scores.Length, st.start, solution)
    ensures multiset(Irs(solution)) <= multiset(Irs(candidates))
    ensures forall x :: x in solution ==> Keep(x.0, maxscore)
    ensures st.scores[..] == ResolveMany(old(st.scores[..]), st.start, Irs(solution))
    ensures NonNegative(old(st.scores[..])) ==>
      forall x :: x in candidates ==> x.1 in Irs(solution) || !Keep(st.Score(x.1), maxscore)
  {
    ghost var buf := st.scores[..];
    var unresolved := candidates;
    solution := [];
    while unresolved != []
      invariant Fits(st.scores.Length, st.start, unresolved) && Fits(st.scores.Length, st.start, solution)
      invariant solution + Rounds(st, st.scores[..], unresolved, maxscore) == Rounds(st, buf, candidates, maxscore)
      invariant st.scores[..] == ResolveMany(buf, st.start, Irs(solution))
      decreases |unresolved|
    {
      solution, unresolved := NextRound(st, buf, candidates, maxscore, solution, unresolved);
    }
    Finished(st, buf, candidates, maxscore, solution, st.scores[..]);
  }

  /**
   * One pass of the outer loop: a round (`Step`), then
   * `solution.extend(resolved)` and `unresolved = left`. What is chosen so
   * far followed by the rounds from what is left stays the rounds from the
   * start, the signal is the start's with the chosen resolved, and fewer
   * candidates are left.
   */
  method NextRound(st: ScoreState, ghost buf: seq<real>, ghost candidates: seq<Scored>, maxscore: real,
                   solution0: seq<Scored>, unresolved0: seq<Scored>)
    returns (solution: seq<Scored>, unresolved: seq<Scored>)
    requires st.Valid() && st.maxOverlap > 0 && |buf| == st.scores.Length && Fits(|buf|, st.start, candidates)
    requires unresolved0 != []
    requires Fits(st.scores.Length, st.start, unresolved0) && Fits(st.scores.Length, st.start, solution0)
    requires solution0 + Rounds(st, st.scores[..], unresolved0, maxscore) == Rounds(st, buf, candidates, maxscore)
    requires st.scores[..] == ResolveMany(buf, st.start, Irs(solution0))
    modifies st.scores
    ensures Fits(st.scores.Length, st.start, unresolved) && Fits(st.scores.Length, st.start, solution)
    ensures solution + Rounds(st, st.scores[..], unresolved, maxscore) == Rounds(st, buf, candidates, maxscore)
    ensures st.scores[..] == ResolveMany(buf, st.start, Irs(solution))
    ensures |unresolved| < |unresolved0|
  {
    ghost var mid := st.scores[..];
    var resolved, left := Step(st, unresolved0, maxscore);
    Advance(st, buf, candidates, maxscore, solution0, unresolved0, mid, resolved, left);
    IrsConcat(solution0, resolved);
    FitsWindows(|buf|, st.start, solution0);
    FitsWindows(|buf|, st.start, resolved);
    ResolveManyConcat(buf, st.start, Irs(solution0), Irs(resolved));
    solution := solution0 + resolved;
    unresolved := left;
  }

  /** The account `NextRound` keeps, carried across one round on the signal `mid` it starts from. */
  lemma Advance(st: ScoreState, buf: seq<real>, candidates: seq<Scored>, maxscore: real,
                solution0: seq<Scored>, unresolved0: seq<Scored>, mid: seq<real>, resolved: seq<Scored>, left: seq<Scored>)
    requires st.Valid() && st.maxOverlap > 0 && |buf| == |mid| == st.scores.Length && Fits(|buf|, st.start, candidates)
    requires unresolved0 != [] && Fits(|buf|, st.start, unresolved0) && Fits(|buf|, st.start, solution0)
    requires solution0 + Rounds(st, mid, unresolved0, maxscore) == Rounds(st, buf, candidates, maxscore)
    requires mid == ResolveMany(buf, st.start, Irs(solution0))
    requires (resolved, left) == RoundOn(st, mid, unresolved0, maxscore)
    requires Fits(|buf|, st.start, resolved) && Fits(|buf|, st.start, left)
    ensures Fits(|buf|, st.start, solution0 + resolved)
    ensures (solution0 + resolved) + Rounds(st, ResolveMany(mid, st.start, Irs(resolved)), left, maxscore) ==
      Rounds(st, buf, candidates, maxscore)
  {
    RoundsStep(st, mid, unresolved0, maxscore, solution0, resolved, left, Rounds(st, buf, candidates, maxscore));
    FitsConcat(|buf|, st.start, solution0, resolved);
  }

  /** The loop's account of the rounds: what is chosen so far, then the rounds from what is left. */
  lemma RoundsStep(st: ScoreState, mid: seq<real>, unresolved: seq<Scored>, maxscore: real,
                   solution: seq<Scored>, resolved: seq<Scored>, left: seq<Scored>, whole: seq<Scored>)
    requires st.Valid() && st.maxOverlap > 0 && |mid| == st.scores.Length && Fits(|mid|, st.start, unresolved)
    requires unresolved != [] && (resolved, left) == RoundOn(st, mid, unresolved, maxscore)
    requires solution + Rounds(st, mid, unresolved, maxscore) == whole
    ensures (solution + resolved) + Rounds(st, ResolveMany(mid, st.start, Irs(resolved)), left, maxscore) == whole
  {
    var rest := Rounds(st, ResolveMany(mid, st.start, Irs(resolved)), left, maxscore);
    RoundsUnfold(st, mid, unresolved, maxscore);
    ConcatAssoc(solution, resolved, rest);
  }

  /**
   * What the rounds leave once the loop ends: the chosen fit the window, are
   * drawn from the candidates and kept, and, on a signal that is never
   * negative, every candidate not chosen no longer scores well enough on the
   * resolved signal `now`.
   */
  lemma Finished(st: ScoreState, buf: seq<real>, candidates: seq<Scored>, maxscore: real,
                 solution: seq<Scored>, now: seq<real>)
    requires st.Valid() && st.maxOverlap > 0 && |buf| == st.scores.Length && Fits(|buf|, st.start, candidates)
    requires solution == Rounds(st, buf, candidates, maxscore)
    requires now == ResolveMany(buf, st.start, Irs(solution))
    ensures Fits(|buf|, st.start, solution)
    ensures multiset(Irs(solution)) <= multiset(Irs(candidates))
    ensures forall x :: x in solution ==> Keep(x.0, maxscore)
    ensures NonNegative(buf) ==>
      forall x :: x in candidates ==> x.1 in Irs(solution) || !Keep(ScoreOn(st, now, x.1), maxscore)
  {
    RoundsDrawn(st, buf, candidates, maxscore);
    if NonNegative(buf) {
      FitsWindows(|buf|, st.start, solution);
      RoundsExhaust(st, buf, candidates, maxscore);
    }
  }

  /**
   * One round of `optimize`'s loop: rescore what is unresolved, sort it by
   * score, take the best non-clashing candidates and resolve them.
   */
  method Step(st: ScoreState, unresolved: seq<Scored>, maxscore: real) returns (resolved: seq<Scored>, left: seq<Scored>)
    requires st.Valid() && st.maxOverlap > 0 && Fits(st.scores.Length, st.start, unresolved) && unresolved != []
    modifies st.scores
    ensures (resolved, left) == RoundOn(st, old(st.scores[..]), unresolved, maxscore)
    ensures Fits(st.scores.Length, st.start, resolved) && Fits(st.scores.Length, st.start, left)
    ensures multiset(Irs(resolved)) + multiset(Irs(left)) <= multiset(Irs(unresolved))
    ensures forall x :: x in resolved ==> Keep(x.0, maxscore)
    ensures |left| < |unresolved|
    ensures st.scores[..] == ResolveMany(old(st.scores[..]), st.start, Irs(resolved))
  {
    var cache := Rescore(st, unresolved, maxscore);
    RescoredFits(st, st.scores[..], unresolved, maxscore);
    ByRealKeyPreorder(ScoreOf);
    var sorted := SortBy(cache, ByRealKey(ScoreOf));
    FitsCandidates(st.scores.Length, st.start, cache);
    assert Reversed(sorted) == BestFirst(cache);
    CandidatesPermuted(cache, sorted);
    resolved, left := Pick(sorted);
    assert (resolved, left) == RoundOn(st, st.scores[..], unresolved, maxscore);
    ResolveEach(st, resolved);
  }

  /** What a round keeps of the rescored candidates, whatever the signal. */
  lemma {:induction false} Chosen(size: int, origin: int, maxscore: real, unresolved: seq<Scored>, cache: seq<Scored>,
                                  q: seq<Scored>, resolved: seq<Scored>, left: seq<Scored>)
    requires unresolved != [] && Fits(size, origin, cache) && multiset(Irs(cache)) <= multiset(Irs(unresolved))
    requires forall x :: x in cache ==> Keep(x.0, maxscore)
    requires multiset(q) == multiset(cache) && Candidates(q)
    requires (resolved, left) == PickFrom(q)
    ensures Fits(size, origin, resolved) && Fits(size, origin, left)
    ensures multiset(Irs(resolved)) + multiset(Irs(left)) <= multiset(Irs(unresolved))
    ensures forall x :: x in resolved ==> Keep(x.0, maxscore)
    ensures |left| < |unresolved|
  {
    FitsCandidates(size, origin, cache);
    Round(cache, q, resolved, left);
    SubMultisetLength(Irs(cache), Irs(unresolved));
    forall x | x in resolved ensures x in cache && Keep(x.0, maxscore) {
      assert x in resolved + left;
    }
    forall x | x in left ensures x in cache {
      assert x in resolved + left;
    }
    FitsWithin(size, origin, resolved, cache);
    FitsWithin(size, origin, left, cache);
  }

  lemma {:induction false} FitsWithin(size: int, origin: int, a: seq<Scored>, b: seq<Scored>)
    requires Fits(size, origin, b) && forall x :: x in a ==> x in b
    ensures Fits(size, origin, a)
  {
  }

  lemma {:induction false} FitsCandidates(size: int, origin: int, s: seq<Scored>)
    requires Fits(size, origin, s)
    ensures Candidates(s)
  {
    forall i | 0 <= i < |s| ensures |s[i].1.segments| > 0 {
      assert s[i] in s;
    }
  }

  /** What one round keeps: the rescored candidates split between accepted and left, fewer left than came in. */
  lemma {:induction false} Round(cache: seq<Scored>, q: seq<Scored>, resolved: seq<Scored>, left: seq<Scored>)
    requires multiset(q) == multiset(cache) && Candidates(cache) && Candidates(q)
    requires (resolved, left) == PickFrom(q)
    ensures multiset(Irs(resolved)) + multiset(Irs(left)) == multiset(Irs(cache))
    ensures forall x :: x in resolved + left ==> x in cache
    ensures cache != [] ==> |left| < |cache|
  {
    PickPartition(q);
    assert multiset(resolved + left) == multiset(cache);
    RoundParts(cache, resolved, left);
    if cache != [] {
      assert |q| == |cache| by {
        assert |multiset(q)| == |multiset(cache)|;
      }
      PickFirst(q);
    }
  }

  /** Reordering candidates keeps them candidates. */
  lemma CandidatesPermuted(s: seq<Scored>, t: seq<Scored>)
    requires multiset(t) == multiset(s)
    ensures Candidates(s) ==> Candidates(t)
  {
    if Candidates(s) {
      forall i | 0 <= i < |t| ensures |t[i].1.segments| > 0 {
        assert t[i] in multiset(s);
        var k :| 0 <= k < |s| && s[k] == t[i];
      }
    }
  }

  lemma {:induction false} RoundParts(cache: seq<Scored>, resolved: seq<Scored>, left: seq<Scored>)
    requires multiset(resolved + left) == multiset(cache)
    ensures multiset(Irs(resolved)) + multiset(Irs(left)) == multiset(Irs(cache))
    ensures forall x :: x in resolved + left ==> x in cache
    ensures |resolved| + |left| == |cache|
  {
    forall x | x in resolved + left ensures x in cache {
      assert x in multiset(resolved + left);
    }
    IrsMultiset(resolved + left, cache);
    IrsConcat(resolved, left);
    assert |multiset(resolved + left)| == |multiset(cache)|;
  }

  /** Equal multisets of candidates have equal multisets of repeats. */
  lemma {:induction false} IrsMultiset(a: seq<Scored>, b: seq<Scored>)
    requires multiset(a) == multiset(b)
    ensures multiset(Irs(a)) == multiset(Irs(b))
  {
    SecondsMultiset(a, b);
  }

  // ---------------------------------------------------------------------
  // Trimming

  /** The sum of the scores. */
  function Total(s: seq<Scored>): real
  {
    if s == [] then 0.0 else Total(s[..|s| - 1]) + s[|s| - 1].0
  }

  /** All scores are positive. */
  predicate Positive(s: seq<Scored>)
  {
    forall x :: x in s ==> x.0 > 0.0
  }

  /** `solution.sort(reverse=True, key=lambda x: x[0])`. */
  function Descending(s: seq<Scored>): (r: seq<Scored>)
    ensures |r| == |s|
    ensures multiset(r) == multiset(s)
    ensures SortedBy(r, ByRealKeyDesc(ScoreOf))
  {
    ByRealKeyDescPreorder(ScoreOf);
    SortBy(s, ByRealKeyDesc(ScoreOf))
  }

  /** With positive scores, a longer prefix has a larger total. */
  lemma {:induction false} TotalPrefix(s: seq<Scored>, m: nat, n: nat)
    requires Positive(s) && m <= n <= |s|
    ensures Total(s[..m]) <= Total(s[..n])
    ensures m < n ==> Total(s[..m]) < Total(s[..n])
    decreases n - m
  {
    if m < n {
      TotalPrefix(s, m, n - 1);
      assert s[..n][..n - 1] == s[..n - 1];
      assert s[n - 1] in s;
    }
  }

  /**
   * The trimming loop: the best candidates are kept, as few as carry at
   * least 90% of the solution's total score.
   */
  method Trim(solution: seq<Scored>) returns (kept: seq<Scored>)
    ensures |kept| <= |solution| && kept == Descending(solution)[..|kept|]
    ensures Positive(solution) ==> Total(kept) >= 0.9 * Total(Descending(solution))
    ensures Positive(solution) ==>
      forall n :: 0 <= n < |kept| ==> Total(Descending(solution)[..n]) < 0.9 * Total(Descending(solution))
  {
    var sorted := Descending(solution);
    var total := Total(sorted);
    var desired := 0.9 * total;
    kept := sorted;
    assert sorted[..|sorted|] == sorted;
    if Positive(solution) {
      PositiveSorted(sorted, solution);
      TotalPrefix(sorted, 0, |sorted|);
    }
    while kept != [] && total > desired
      invariant |kept| <= |sorted| && kept == sorted[..|kept|]
      invariant total == Total(kept)
      invariant Positive(solution) ==> total >= desired
      decreases |kept|
    {
      var score := kept[|kept| - 1].0;
      if total - score >= desired {
        total := total - score;
        kept := kept[..|kept| - 1];
        assert sorted[..|kept|] == sorted[..|kept| + 1][..|kept|];
      } else {
        break;
      }
    }
    if Positive(solution) {
      TrimMinimal(sorted, solution, kept, desired);
    }
  }

  lemma {:induction false} PositiveSorted(sorted: seq<Scored>, solution: seq<Scored>)
    requires multiset(sorted) == multiset(solution) && Positive(solution)
    ensures Positive(sorted)
  {
    forall x | x in sorted ensures x.0 > 0.0 {
      assert x in multiset(solution);
    }
  }

  lemma {:induction false} TrimMinimal(sorted: seq<Scored>, solution: seq<Scored>, kept: seq<Scored>, desired: real)
    requires multiset(sorted) == multiset(solution) && Positive(solution)
    requires |kept| <= |sorted| && kept == sorted[..|kept|] && desired == 0.9 * Total(sorted)
    requires kept == [] || Total(kept) <= desired || Total(kept) - kept[|kept| - 1].0 < desired
    ensures forall n :: 0 <= n < |kept| ==> Total(sorted[..n]) < desired
  {
    PositiveSorted(sorted, solution);
    if kept != [] {
      var m := |kept| - 1;
      assert kept[..m] == sorted[..m];
      assert Total(sorted[..m]) < desired by {
        TotalPrefix(sorted, m, |kept|);
      }
      forall n | 0 <= n < |kept| ensures Total(sorted[..n]) < desired {
        TotalPrefix(sorted, n, m);
      }
    }
  }
}
