// The repeat composition of RIP peaks and inverted repeats: every peak
// scores the repeat annotations it overlaps, every inverted-repeat arm
// pair is walked base by base so that each pair of annotations facing each
// other is scored, and the best scores become fractions of one.
module RipComposition {
  import opened Common
  import opened Intervals

  /** A RepeatMasker annotation: its name and strand. */
  type Anno = (string, string)

  /** Lines 69, 98-99: the annotation of a stretch no repeat overlaps. */
  const RepeatFree: Anno := ("Repeat-free", ".")

  /** The keys of the score table: one annotation (peaks) or a left/right pair (arms); `Undefined` only for an empty table. */
  datatype Category = Undefined | Single(anno: Anno) | Pair(left: Anno, right: Anno)

  type Scores = map<Category, real>

  /** `scores[k]` of the `defaultdict(int)`. */
  function Get(s: Scores, k: Category): real
  {
    if k in s then s[k] else 0.0
  }

  /** Lines 68-69, 98-99: an empty annotation stands for the repeat-free one. */
  function OrFree(a: set<Anno>): (r: set<Anno>)
    ensures r != {}
  {
    if a == {} then {RepeatFree} else a
  }

  function Singles(a: set<Anno>): set<Category>
  {
    set x | x in a :: Single(x)
  }

  function Pairs(l: set<Anno>, r: set<Anno>): set<Category>
  {
    set x, y | x in l && y in r :: Pair(x, y)
  }

  // ---------------------------------------------------------------------
  // Raising scores

  /** Lines 72, 103: every key of `keys` keeps the larger of its score and `score`. */
  function Raise(s: Scores, keys: set<Category>, score: real): (r: Scores)
    ensures r.Keys == s.Keys + keys
    ensures forall k :: Get(r, k) == if k in keys then RMax(Get(s, k), score) else Get(s, k)
  {
    map k | k in s.Keys + keys :: if k in keys then RMax(Get(s, k), score) else s[k]
  }

  /** Raising one more key. */
  lemma RaiseSnoc(s: Scores, done: set<Category>, k: Category, score: real)
    requires k !in done
    ensures Raise(s, done + {k}, score) == Raise(s, done, score)[k := RMax(Get(Raise(s, done, score), k), score)]
  {
    var a, b := Raise(s, done + {k}, score), Raise(s, done, score)[k := RMax(Get(Raise(s, done, score), k), score)];
    assert a.Keys == b.Keys;
    forall x | x in a.Keys ensures a[x] == b[x] {
      assert Get(a, x) == a[x] && Get(b, x) == b[x];
    }
  }

  /** A score event: the keys it raises and the score it raises them to. */
  type Event = (set<Category>, real)

  /** The table after the events, in order. */
  function Fold(s: Scores, ev: seq<Event>): Scores
  {
    if ev == [] then s else Raise(Fold(s, ev[..|ev| - 1]), ev[|ev| - 1].0, ev[|ev| - 1].1)
  }

  lemma {:induction false} FoldConcat(s: Scores, a: seq<Event>, b: seq<Event>)
    ensures Fold(s, a + b) == Fold(Fold(s, a), b)
    decreases |b|
  {
    if b == [] {
      assert a + b == a;
    } else {
      var n := |b| - 1;
      assert (a + b)[..|a + b| - 1] == a + b[..n];
      FoldConcat(s, a, b[..n]);
    }
  }

  /**
   * The table after the events keeps every earlier key and gains exactly
   * the raised ones; each score is the largest of its earlier score and
   * the scores of the events that raised it, and is one of them.
   */
  lemma {:induction false} FoldMax(s: Scores, ev: seq<Event>, k: Category)
    ensures k in Fold(s, ev) <==> k in s || exists i :: 0 <= i < |ev| && k in ev[i].0
    ensures Get(Fold(s, ev), k) >= Get(s, k)
    ensures forall i :: 0 <= i < |ev| && k in ev[i].0 ==> Get(Fold(s, ev), k) >= ev[i].1
    ensures Get(Fold(s, ev), k) == Get(s, k) || exists i :: 0 <= i < |ev| && k in ev[i].0 && Get(Fold(s, ev), k) == ev[i].1
    decreases |ev|
  {
    if ev != [] {
      var n := |ev| - 1;
      FoldMax(s, ev[..n], k);
      assert forall i :: 0 <= i < n ==> ev[..n][i] == ev[i];
      if exists i :: 0 <= i < |ev| && k in ev[i].0 {
        var i :| 0 <= i < |ev| && k in ev[i].0;
        if i < n {
          assert k in ev[..n][i].0;
        }
      }
      if Get(Fold(s, ev[..n]), k) != Get(s, k) {
        var i :| 0 <= i < n && k in ev[..n][i].0 && Get(Fold(s, ev[..n]), k) == ev[..n][i].1;
        assert k in ev[i].0;
      }
    }
  }

  /** Line 72 in its loop: raise the annotation of every element of `annos`. */
  method RaiseSingles(s: Scores, annos: set<Anno>, score: real) returns (r: Scores)
    ensures r == Raise(s, Singles(annos), score)
  {
    r := s;
    var rest := annos;
    assert Raise(s, Singles(annos - rest), score) == s;
    while rest != {}
      invariant rest <= annos
      invariant r == Raise(s, Singles(annos - rest), score)
      decreases |rest|
    {
      NonEmptyHasMember(rest);
      var anno :| anno in rest;
      assert Singles(annos - (rest - {anno})) == Singles(annos - rest) + {Single(anno)};
      RaiseSnoc(s, Singles(annos - rest), Single(anno), score);
      r := r[Single(anno) := RMax(Get(r, Single(anno)), score)];
      rest := rest - {anno};
    }
    assert annos - rest == annos;
  }

  /** Line 103 in its inner loop: raise the pair of `l` with every element of `right`. */
  method RaisePairs(s: Scores, l: Anno, right: set<Anno>, score: real) returns (r: Scores)
    ensures r == Raise(s, Pairs({l}, right), score)
  {
    r := s;
    var rest := right;
    assert Raise(s, Pairs({l}, right - rest), score) == s;
    while rest != {}
      invariant rest <= right
      invariant r == Raise(s, Pairs({l}, right - rest), score)
      decreases |rest|
    {
      NonEmptyHasMember(rest);
      var a :| a in rest;
      assert Pairs({l}, right - (rest - {a})) == Pairs({l}, right - rest) + {Pair(l, a)};
      RaiseSnoc(s, Pairs({l}, right - rest), Pair(l, a), score);
      r := r[Pair(l, a) := RMax(Get(r, Pair(l, a)), score)];
      rest := rest - {a};
    }
    assert right - rest == right;
  }

  lemma RaiseUnion(s: Scores, a: set<Category>, b: set<Category>, score: real)
    ensures Raise(Raise(s, a, score), b, score) == Raise(s, a + b, score)
  {
    var x, y := Raise(Raise(s, a, score), b, score), Raise(s, a + b, score);
    assert x.Keys == y.Keys;
    forall k | k in x.Keys ensures x[k] == y[k] {
      assert Get(x, k) == x[k] && Get(y, k) == y[k];
    }
  }

  /** Lines 100-103: raise every pair of a left and a right annotation. */
  method RaiseAllPairs(s: Scores, left: set<Anno>, right: set<Anno>, score: real) returns (r: Scores)
    ensures r == Raise(s, Pairs(left, right), score)
  {
    r := s;
    var rest := left;
    assert Raise(s, Pairs(left - rest, right), score) == s;
    while rest != {}
      invariant rest <= left
      invariant r == Raise(s, Pairs(left - rest, right), score)
      decreases |rest|
    {
      NonEmptyHasMember(rest);
      var l :| l in rest;
      assert Pairs(left - (rest - {l}), right) == Pairs(left - rest, right) + Pairs({l}, right);
      RaiseUnion(s, Pairs(left - rest, right), Pairs({l}, right), score);
      r := RaisePairs(r, l, right, score);
      rest := rest - {l};
    }
    assert left - rest == left;
  }

  // ---------------------------------------------------------------------
  // Walking an arm pair

  /** A step of the repeat index over a range: a stretch and the annotations overlapping it. */
  type Step = (Interval, set<Anno>)

  /** Line 90: a left step as offsets from the arm's start. */
  function LeftOffset(arm: Interval, st: Step): (int, int)
  {
    (st.0.start - arm.start, st.0.end - arm.start)
  }

  /** Line 91: a right step as offsets back from the arm's end, so that the arm reads from its end. */
  function RightOffset(arm: Interval, st: Step): (int, int)
  {
    (arm.end - st.0.end, arm.end - st.0.start)
  }

  function LeftOffsets(arm: Interval, steps: seq<Step>): (r: seq<(int, int)>)
    ensures |r| == |steps|
    ensures forall i :: 0 <= i < |steps| ==> r[i] == LeftOffset(arm, steps[i])
  {
    seq(|steps|, i requires 0 <= i < |steps| => LeftOffset(arm, steps[i]))
  }

  /** Line 85: the right arm's steps are taken last first. */
  function RightOffsets(arm: Interval, steps: seq<Step>): (r: seq<(int, int)>)
    ensures |r| == |steps|
    ensures forall i :: 0 <= i < |steps| ==> r[i] == RightOffset(arm, steps[|steps| - 1 - i])
  {
    seq(|steps|, i requires 0 <= i < |steps| => RightOffset(arm, steps[|steps| - 1 - i]))
  }

  function Annos(steps: seq<Step>): (r: seq<set<Anno>>)
    ensures |r| == |steps| && forall i :: 0 <= i < |steps| ==> r[i] == steps[i].1
  {
    seq(|steps|, i requires 0 <= i < |steps| => steps[i].1)
  }

  /**
   * Lines 87-113 from indices `li`, `ri` with `covered` bases so far: the
   * current left and right stretches overlap on [max of starts, min of
   * ends), that overlap scores every pair of their annotations, and each
   * index whose stretch ends there moves on. The walk stops once both
   * lists are used up; reading past the end of one list while the other
   * still has stretches is an index error.
   */
  function WalkFrom(lo: seq<(int, int)>, la: seq<set<Anno>>, ro: seq<(int, int)>, ra: seq<set<Anno>>,
                    li: nat, ri: nat, score: real, covered: int): Result<(seq<Event>, int)>
    requires |lo| == |la| && |ro| == |ra| && li <= |lo| && ri <= |ro|
    decreases |lo| + |ro| - li - ri
  {
    if li == |lo| || ri == |ro| then Err(IndexError)
    else
      var start, end := Max(lo[li].0, ro[ri].0), Min(lo[li].1, ro[ri].1);
      var ev := (Pairs(OrFree(la[li]), OrFree(ra[ri])), score);
      var c := covered + (end - start);
      var li', ri' := if lo[li].1 == end then li + 1 else li, if ro[ri].1 == end then ri + 1 else ri;
      if li' == |lo| && ri' == |ro| then Ok(([ev], c))
      else
        var rest := WalkFrom(lo, la, ro, ra, li', ri', score, c);
        if rest.Err? then rest else Ok(([ev] + rest.value.0, rest.value.1))
  }

  /**
   * A walk that ends makes at most one event per stretch of either arm;
   * each raises the pairs of one left and one right stretch's annotations
   * to the arm pair's score.
   */
  lemma {:induction false} WalkEvents(lo: seq<(int, int)>, la: seq<set<Anno>>, ro: seq<(int, int)>, ra: seq<set<Anno>>,
                                      li: nat, ri: nat, score: real, covered: int)
    requires |lo| == |la| && |ro| == |ra| && li <= |lo| && ri <= |ro|
    requires WalkFrom(lo, la, ro, ra, li, ri, score, covered).Ok?
    ensures var ev := WalkFrom(lo, la, ro, ra, li, ri, score, covered).value.0;
      0 < |ev| <= |lo| + |ro| - li - ri &&
      forall e :: e in ev ==>
        (e.1 == score && exists x, y :: li <= x < |lo| && ri <= y < |ro| && e.0 == Pairs(OrFree(la[x]), OrFree(ra[y])))
    decreases |lo| + |ro| - li - ri
  {
    var end := Min(lo[li].1, ro[ri].1);
    var li', ri' := if lo[li].1 == end then li + 1 else li, if ro[ri].1 == end then ri + 1 else ri;
    var ev := WalkFrom(lo, la, ro, ra, li, ri, score, covered).value.0;
    var c := covered + (end - Max(lo[li].0, ro[ri].0));
    if !(li' == |lo| && ri' == |ro|) {
      WalkEvents(lo, la, ro, ra, li', ri', score, c);
      var rest := WalkFrom(lo, la, ro, ra, li', ri', score, c).value.0;
      assert ev == [ev[0]] + rest;
      forall e | e in ev
        ensures e.1 == score && exists x, y :: li <= x < |lo| && ri <= y < |ro| && e.0 == Pairs(OrFree(la[x]), OrFree(ra[y]))
      {
        if e != ev[0] {
          assert e in rest;
        }
      }
    }
  }

  /** Stretches that tile `[0, len)` in order, none empty. */
  ghost predicate Tiles(t: seq<(int, int)>, len: int)
  {
    |t| > 0 && t[0].0 == 0 && t[|t| - 1].1 == len &&
    (forall i :: 0 <= i < |t| ==> t[i].0 < t[i].1) &&
    (forall i :: 0 <= i < |t| - 1 ==> t[i].1 == t[i + 1].0)
  }

  /** Only the last stretch of a tiling reaches its end. */
  lemma {:induction false} TilesEnd(t: seq<(int, int)>, len: int, i: nat)
    requires Tiles(t, len) && i < |t|
    ensures t[i].1 <= len
    ensures i < |t| - 1 ==> t[i].1 < len
    decreases |t| - i
  {
    if i < |t| - 1 {
      TilesEnd(t, len, i + 1);
    }
  }

  /**
   * When both arms are tiled over the same length and both current
   * stretches hold the covered position, which is the later of their
   * starts, the walk ends without an error with the whole length covered.
   */
  lemma {:induction false} WalkTiled(lo: seq<(int, int)>, la: seq<set<Anno>>, ro: seq<(int, int)>, ra: seq<set<Anno>>,
                                     li: nat, ri: nat, score: real, c: int, len: int)
    requires |lo| == |la| && |ro| == |ra| && Tiles(lo, len) && Tiles(ro, len)
    requires li < |lo| && ri < |ro|
    requires lo[li].0 <= c < lo[li].1 && ro[ri].0 <= c < ro[ri].1 && Max(lo[li].0, ro[ri].0) == c
    ensures WalkFrom(lo, la, ro, ra, li, ri, score, c).Ok?
    ensures WalkFrom(lo, la, ro, ra, li, ri, score, c).value.1 == len
    decreases |lo| + |ro| - li - ri
  {
    var end := Min(lo[li].1, ro[ri].1);
    TilesEnd(lo, len, li);
    TilesEnd(ro, len, ri);
    var li', ri' := if lo[li].1 == end then li + 1 else li, if ro[ri].1 == end then ri + 1 else ri;
    if !(li' == |lo| && ri' == |ro|) {
      if li' < |lo| && li' > li {
        assert lo[li'].0 == end;
      }
      if ri' < |ro| && ri' > ri {
        assert ro[ri'].0 == end;
      }
      WalkTiled(lo, la, ro, ra, li', ri', score, end, len);
    }
  }

  /** The stretches of `steps` tile the arm, in order, none empty. */
  ghost predicate StepsTile(arm: Interval, steps: seq<Step>)
  {
    |steps| > 0 && steps[0].0.start == arm.start && steps[|steps| - 1].0.end == arm.end &&
    (forall i :: 0 <= i < |steps| ==> steps[i].0.start < steps[i].0.end) &&
    (forall i :: 0 <= i < |steps| - 1 ==> steps[i].0.end == steps[i + 1].0.start)
  }

  /** Steps tiling an arm give offsets tiling its length, from either end. */
  lemma OffsetsTile(arm: Interval, steps: seq<Step>)
    requires StepsTile(arm, steps)
    ensures Tiles(LeftOffsets(arm, steps), arm.Len())
    ensures Tiles(RightOffsets(arm, steps), arm.Len())
  {
    var ro := RightOffsets(arm, steps);
    var m := |steps|;
    forall i | 0 <= i < m - 1 ensures ro[i].1 == ro[i + 1].0 {
      assert steps[m - 2 - i].0.end == steps[m - 1 - i].0.start;
    }
  }

  /** One pair of arms: their stretches, signals and the steps of the repeat index over each. */
  datatype Arm = Arm(left: Interval, right: Interval, leftSignal: real, rightSignal: real,
                     leftSteps: seq<Step>, rightSteps: seq<Step>)

  /** Line 77: the arm pair's score. */
  function ArmScore(arm: Arm): real
  {
    arm.leftSignal + arm.rightSignal
  }

  /** Lines 80-113: the walk over one arm pair, from the start of both. */
  function ArmWalk(arm: Arm): Result<(seq<Event>, int)>
  {
    WalkFrom(LeftOffsets(arm.left, arm.leftSteps), Annos(arm.leftSteps),
             RightOffsets(arm.right, arm.rightSteps), Reversed(Annos(arm.rightSteps)), 0, 0, ArmScore(arm), 0)
  }

  /** Lines 76-114: the walk over one arm pair, then the assertion that it covered the left arm's length. */
  function ArmEvents(arm: Arm): Result<seq<Event>>
  {
    var w := ArmWalk(arm);
    if w.Err? then Err(w.error)
    else if w.value.1 != arm.left.Len() then Err(AssertionError)
    else Ok(w.value.0)
  }

  /**
   * Arms of equal length, each tiled by its steps, are walked without an
   * error and the assertion on the covered length holds.
   */
  lemma ArmEventsOk(arm: Arm)
    requires arm.left.Len() == arm.right.Len()
    requires StepsTile(arm.left, arm.leftSteps) && StepsTile(arm.right, arm.rightSteps)
    ensures ArmEvents(arm).Ok?
  {
    OffsetsTile(arm.left, arm.leftSteps);
    OffsetsTile(arm.right, arm.rightSteps);
    var lo, ro := LeftOffsets(arm.left, arm.leftSteps), RightOffsets(arm.right, arm.rightSteps);
    WalkTiled(lo, Annos(arm.leftSteps), ro, Reversed(Annos(arm.rightSteps)), 0, 0, ArmScore(arm), 0, arm.left.Len());
  }

  /** The rest of a walk after the events already scored. */
  function Then(done: seq<Event>, r: Result<(seq<Event>, int)>): Result<(seq<Event>, int)>
  {
    if r.Err? then r else Ok((done + r.value.0, r.value.1))
  }

  lemma FoldSnoc(s: Scores, done: seq<Event>, ev: Event)
    ensures Fold(s, done + [ev]) == Raise(Fold(s, done), ev.0, ev.1)
  {
    assert (done + [ev])[..|done|] == done;
  }

  /** One step of the walk: its event, and where the walk goes on from. */
  lemma WalkStep(lo: seq<(int, int)>, la: seq<set<Anno>>, ro: seq<(int, int)>, ra: seq<set<Anno>>,
                 li: nat, ri: nat, score: real, c: int, done: seq<Event>,
                 li': nat, ri': nat, c': int, ev: Event)
    requires |lo| == |la| && |ro| == |ra| && li < |lo| && ri < |ro|
    requires ev == (Pairs(OrFree(la[li]), OrFree(ra[ri])), score)
    requires c' == c + (Min(lo[li].1, ro[ri].1) - Max(lo[li].0, ro[ri].0))
    requires li' == (if lo[li].1 == Min(lo[li].1, ro[ri].1) then li + 1 else li)
    requires ri' == (if ro[ri].1 == Min(lo[li].1, ro[ri].1) then ri + 1 else ri)
    ensures li' <= |lo| && ri' <= |ro|
    ensures li' == |lo| && ri' == |ro| ==> Then(done, WalkFrom(lo, la, ro, ra, li, ri, score, c)) == Ok((done + [ev], c'))
    ensures !(li' == |lo| && ri' == |ro|) ==>
      Then(done, WalkFrom(lo, la, ro, ra, li, ri, score, c)) == Then(done + [ev], WalkFrom(lo, la, ro, ra, li', ri', score, c'))
  {
    if !(li' == |lo| && ri' == |ro|) {
      var rest := WalkFrom(lo, la, ro, ra, li', ri', score, c');
      if rest.Ok? {
        assert done + ([ev] + rest.value.0) == (done + [ev]) + rest.value.0;
      }
    }
  }

  /** The table after a walk's events, with the walk's covered length. */
  function Scored(s: Scores, w: Result<(seq<Event>, int)>): Result<(Scores, int)>
  {
    if w.Err? then Err(w.error) else Ok((Fold(s, w.value.0), w.value.1))
  }

  /** Lines 80-113 as the loop they are: the table raised by the walk, and the covered length. */
  method WalkArm(s: Scores, arm: Arm) returns (r: Result<(Scores, int)>)
    ensures r == Scored(s, ArmWalk(arm))
  {
    var score := arm.leftSignal + arm.rightSignal;
    var left, right := arm.leftSteps, Reversed(arm.rightSteps);
    ghost var lo, la := LeftOffsets(arm.left, arm.leftSteps), Annos(arm.leftSteps);
    ghost var ro, ra := RightOffsets(arm.right, arm.rightSteps), Reversed(Annos(arm.rightSteps));
    ghost var whole := ArmWalk(arm);
    ghost var done: seq<Event> := [];
    var lind, rind, covered := 0, 0, 0;
    var scores := s;
    assert whole.Ok? ==> done + whole.value.0 == whole.value.0;
    while true
      invariant lind <= |left| && rind <= |right|
      invariant whole == Then(done, WalkFrom(lo, la, ro, ra, lind, rind, score, covered))
      invariant scores == Fold(s, done)
      decreases |left| + |right| - lind - rind
    {
      if lind == |left| || rind == |right| {
        return Err(IndexError);
      }
      var loff := LeftOffset(arm.left, left[lind]);
      var roff := RightOffset(arm.right, right[rind]);
      assert loff == lo[lind] && roff == ro[rind];
      var offset := (Max(loff.0, roff.0), Min(loff.1, roff.1));
      var lanno := OrFree(left[lind].1);
      var ranno := OrFree(right[rind].1);
      ghost var ev := (Pairs(lanno, ranno), score);
      scores := RaiseAllPairs(scores, lanno, ranno, score);
      FoldSnoc(s, done, ev);
      ghost var li, ri, c, prior := lind, rind, covered, done;
      done := done + [ev];
      covered := covered + (offset.1 - offset.0);
      if loff.1 == offset.1 {
        lind := lind + 1;
      }
      if roff.1 == offset.1 {
        rind := rind + 1;
      }
      WalkStep(lo, la, ro, ra, li, ri, score, c, prior, lind, rind, covered, ev);
      if lind == |left| && rind == |right| {
        break;
      }
    }
    r := Ok((scores, covered));
  }

  // ---------------------------------------------------------------------
  // Scoring a partition

  /** A peak: its signal and the steps of the repeat index over it. */
  datatype Peak = Peak(score: real, steps: seq<Step>)

  /** A partition: its id, its peaks and the arm pairs of its inverted repeats. */
  datatype Partition = Partition(ind: string, peaks: seq<Peak>, invreps: seq<seq<Arm>>)

  /** Lines 67-72: each step of a peak raises the annotations over it to the peak's score. */
  function StepEvents(p: Peak): (r: seq<Event>)
    ensures |r| == |p.steps| && forall j :: 0 <= j < |p.steps| ==> r[j] == (Singles(OrFree(p.steps[j].1)), p.score)
  {
    seq(|p.steps|, j requires 0 <= j < |p.steps| => (Singles(OrFree(p.steps[j].1)), p.score))
  }

  /** Lines 65-72: the events of the peaks, in order. */
  function PeakEvents(ps: seq<Peak>): seq<Event>
  {
    if ps == [] then [] else PeakEvents(ps[..|ps| - 1]) + StepEvents(ps[|ps| - 1])
  }

  /** Every event of the peaks is a step event of one of them. */
  lemma {:induction false} PeakEventsFrom(ps: seq<Peak>, e: Event)
    requires e in PeakEvents(ps)
    ensures exists i :: 0 <= i < |ps| && e in StepEvents(ps[i])
    decreases |ps|
  {
    if ps != [] {
      var n := |ps| - 1;
      if e in PeakEvents(ps[..n]) {
        PeakEventsFrom(ps[..n], e);
        var i :| 0 <= i < n && e in StepEvents(ps[..n][i]);
        assert ps[..n][i] == ps[i];
      }
    }
  }

  /** Every step event of a peak is an event of the peaks. */
  lemma {:induction false} PeakEventsTo(ps: seq<Peak>, i: nat, e: Event)
    requires i < |ps| && e in StepEvents(ps[i])
    ensures e in PeakEvents(ps)
    decreases |ps|
  {
    var n := |ps| - 1;
    if i < n {
      assert ps[..n][i] == ps[i];
      PeakEventsTo(ps[..n], i, e);
    }
  }

  /** Some step of peak `p` is annotated with `a` (the repeat-free one when it has none). */
  predicate Hits(p: Peak, a: Anno)
  {
    exists j :: 0 <= j < |p.steps| && a in OrFree(p.steps[j].1)
  }

  /** A peak raises `a` exactly when it is over `a`, and always to its own score. */
  lemma StepEventsHit(p: Peak, a: Anno)
    ensures Hits(p, a) <==> exists e :: e in StepEvents(p) && Single(a) in e.0
    ensures forall e :: e in StepEvents(p) ==> e.1 == p.score
  {
    var ev := StepEvents(p);
    if Hits(p, a) {
      var j :| 0 <= j < |p.steps| && a in OrFree(p.steps[j].1);
      assert Single(a) in ev[j].0;
    }
    if exists e :: e in ev && Single(a) in e.0 {
      var e :| e in ev && Single(a) in e.0;
      var j :| 0 <= j < |ev| && ev[j] == e;
      assert a in OrFree(p.steps[j].1);
    }
  }

  /** Lines 62-72: after the peaks, an annotation has a score exactly when some peak is over it. */
  lemma PeakScoresKeys(ps: seq<Peak>, a: Anno)
    ensures Single(a) in Fold(map[], PeakEvents(ps)) <==> exists i :: 0 <= i < |ps| && Hits(ps[i], a)
  {
    var ev, k := PeakEvents(ps), Single(a);
    FoldMax(map[], ev, k);
    if exists i :: 0 <= i < |ps| && Hits(ps[i], a) {
      var i :| 0 <= i < |ps| && Hits(ps[i], a);
      StepEventsHit(ps[i], a);
      var e :| e in StepEvents(ps[i]) && k in e.0;
      PeakEventsTo(ps, i, e);
      var x :| 0 <= x < |ev| && ev[x] == e;
    }
    if k in Fold(map[], ev) {
      var x :| 0 <= x < |ev| && k in ev[x].0;
      PeakEventsFrom(ps, ev[x]);
      var i :| 0 <= i < |ps| && ev[x] in StepEvents(ps[i]);
      StepEventsHit(ps[i], a);
    }
  }

  /** Lines 70-72: an annotation scores at least every peak over it. */
  lemma PeakScoresBound(ps: seq<Peak>, a: Anno, i: nat)
    requires i < |ps| && Hits(ps[i], a)
    ensures Get(Fold(map[], PeakEvents(ps)), Single(a)) >= ps[i].score
  {
    var ev, k := PeakEvents(ps), Single(a);
    FoldMax(map[], ev, k);
    StepEventsHit(ps[i], a);
    var e :| e in StepEvents(ps[i]) && k in e.0;
    PeakEventsTo(ps, i, e);
    var x :| 0 <= x < |ev| && ev[x] == e;
  }

  /** Lines 62, 72: an annotation's score is the table's default of 0 or the score of a peak over it. */
  lemma PeakScoresAttained(ps: seq<Peak>, a: Anno)
    ensures Get(Fold(map[], PeakEvents(ps)), Single(a)) == 0.0 ||
      exists i :: 0 <= i < |ps| && Hits(ps[i], a) && Get(Fold(map[], PeakEvents(ps)), Single(a)) == ps[i].score
  {
    var ev, k := PeakEvents(ps), Single(a);
    FoldMax(map[], ev, k);
    if Get(Fold(map[], ev), k) != 0.0 {
      var x :| 0 <= x < |ev| && k in ev[x].0 && Get(Fold(map[], ev), k) == ev[x].1;
      PeakEventsFrom(ps, ev[x]);
      var i :| 0 <= i < |ps| && ev[x] in StepEvents(ps[i]);
      StepEventsHit(ps[i], a);
    }
  }

  /** Lines 75-114 over the arms of one inverted repeat, in order; the first failing arm ends the job. */
  function ArmsScores(s: Scores, arms: seq<Arm>): Result<Scores>
    decreases |arms|
  {
    if arms == [] then Ok(s)
    else
      var e := ArmEvents(arms[0]);
      if e.Err? then Err(e.error) else ArmsScores(Fold(s, e.value), arms[1..])
  }

  /** Lines 74-114: every inverted repeat of the partition, in order. */
  function InvRepsScores(s: Scores, invreps: seq<seq<Arm>>): Result<Scores>
    decreases |invreps|
  {
    if invreps == [] then Ok(s)
    else
      var r := ArmsScores(s, invreps[0]);
      if r.Err? then r else InvRepsScores(r.value, invreps[1..])
  }

  /** Lines 61-114: the score table of a partition, peaks first. */
  function PartitionScores(p: Partition): Result<Scores>
  {
    InvRepsScores(Fold(map[], PeakEvents(p.peaks)), p.invreps)
  }

  /** An arm pair of equal lengths, each arm tiled by its steps. */
  ghost predicate ArmFits(arm: Arm)
  {
    arm.left.Len() == arm.right.Len() && StepsTile(arm.left, arm.leftSteps) && StepsTile(arm.right, arm.rightSteps)
  }

  lemma {:induction false} ArmsScoresOk(s: Scores, arms: seq<Arm>)
    requires forall i :: 0 <= i < |arms| ==> ArmFits(arms[i])
    ensures ArmsScores(s, arms).Ok?
    decreases |arms|
  {
    if arms != [] {
      ArmEventsOk(arms[0]);
      ArmsScoresOk(Fold(s, ArmEvents(arms[0]).value), arms[1..]);
    }
  }

  /** A partition whose every arm pair fits is scored without an index or assertion error. */
  lemma {:induction false} InvRepsScoresOk(s: Scores, invreps: seq<seq<Arm>>)
    requires forall i, j :: 0 <= i < |invreps| && 0 <= j < |invreps[i]| ==> ArmFits(invreps[i][j])
    ensures InvRepsScores(s, invreps).Ok?
    decreases |invreps|
  {
    if invreps != [] {
      ArmsScoresOk(s, invreps[0]);
      InvRepsScoresOk(ArmsScores(s, invreps[0]).value, invreps[1..]);
    }
  }

  /** Lines 65-72 as their loops: raise the annotations of every step of every peak. */
  method ScorePeaks(s: Scores, peaks: seq<Peak>) returns (r: Scores)
    ensures r == Fold(s, PeakEvents(peaks))
  {
    r := s;
    for i := 0 to |peaks|
      invariant r == Fold(s, PeakEvents(peaks[..i]))
    {
      assert peaks[..i + 1][..i] == peaks[..i];
      ghost var before := PeakEvents(peaks[..i]);
      ghost var ev := StepEvents(peaks[i]);
      assert before + ev[..0] == before;
      for j := 0 to |peaks[i].steps|
        invariant r == Fold(s, before + ev[..j])
      {
        var annotation := OrFree(peaks[i].steps[j].1);
        r := RaiseSingles(r, annotation, peaks[i].score);
        FoldSnoc(s, before + ev[..j], ev[j]);
        assert before + ev[..j + 1] == (before + ev[..j]) + [ev[j]];
      }
      assert ev[..|peaks[i].steps|] == ev;
    }
    assert peaks[..|peaks|] == peaks;
  }

  /** Lines 75-114 as their loop: walk every arm pair of one inverted repeat and assert its coverage. */
  method ScoreArms(s: Scores, arms: seq<Arm>) returns (r: Result<Scores>)
    ensures r == ArmsScores(s, arms)
  {
    var scores := s;
    for i := 0 to |arms|
      invariant ArmsScores(s, arms) == ArmsScores(scores, arms[i..])
    {
      assert arms[i..][1..] == arms[i + 1..];
      var armlength := arms[i].left.Len();
      var w := WalkArm(scores, arms[i]);
      if w.Err? {
        return Err(w.error);
      }
      if w.value.1 != armlength {
        return Err(AssertionError);
      }
      scores := w.value.0;
    }
    r := Ok(scores);
  }

  /** Lines 60-114 for one partition: its peaks, then its inverted repeats. */
  method ScorePartition(p: Partition) returns (r: Result<Scores>)
    ensures r == PartitionScores(p)
  {
    var scores := ScorePeaks(map[], p.peaks);
    for i := 0 to |p.invreps|
      invariant PartitionScores(p) == InvRepsScores(scores, p.invreps[i..])
    {
      assert p.invreps[i..][1..] == p.invreps[i + 1..];
      var a := ScoreArms(scores, p.invreps[i]);
      if a.Err? {
        return a;
      }
      scores := a.value;
    }
    r := Ok(scores);
  }

  // ---------------------------------------------------------------------
  // Resolving scores into fractions

  /** Line 43: the margin kept below the smallest score. */
  const Epsilon: real := 0.000001

  /** The entries of a table, in its iteration order. */
  type Items = seq<(Category, real)>

  /** `items` lists every entry of `s` once. */
  ghost predicate Enumerates(s: Scores, items: Items)
  {
    (forall i :: 0 <= i < |items| ==> items[i].0 in s && items[i].1 == s[items[i].0]) &&
    (forall k :: k in s ==> exists i :: 0 <= i < |items| && items[i].0 == k) &&
    (forall i, j :: 0 <= i < j < |items| ==> items[i].0 != items[j].0)
  }

  /** Line 44: every score less `m`. */
  function Shifted(items: Items, m: real): (r: Items)
    ensures |r| == |items| && forall i :: 0 <= i < |items| ==> r[i] == (items[i].0, items[i].1 - m)
  {
    seq(|items|, i requires 0 <= i < |items| => (items[i].0, items[i].1 - m))
  }

  /** Lines 48-49: every score over `total`; the keys are distinct, so each `+=` sets a fresh entry. */
  function Over(items: Items, total: real): (r: Items)
    requires total != 0.0
    ensures |r| == |items| && forall i :: 0 <= i < |items| ==> r[i] == (items[i].0, items[i].1 / total)
  {
    seq(|items|, i requires 0 <= i < |items| => (items[i].0, items[i].1 / total))
  }

  lemma {:induction false} SumRealsPositive(v: seq<real>)
    requires |v| > 0 && forall i :: 0 <= i < |v| ==> v[i] > 0.0
    ensures SumReals(v) > 0.0
    decreases |v|
  {
    SumRealsNonNegative(v[..|v| - 1]);
  }

  /** Dividing every entry divides the sum. */
  lemma {:induction false} SumOver(items: Items, total: real)
    requires total != 0.0
    ensures SumReals(Seconds(Over(items, total))) == SumReals(Seconds(items)) / total
    decreases |items|
  {
    if items != [] {
      var n := |items| - 1;
      assert Seconds(Over(items, total))[..n] == Seconds(Over(items[..n], total));
      assert Seconds(items)[..n] == Seconds(items[..n]);
      SumOver(items[..n], total);
      AddOver(SumReals(Seconds(items[..n])), items[n].1, total);
    }
  }

  /** The shifted scores of a non-empty table, which are all at least `Epsilon`. */
  function ShiftedOf(items: Items): (r: Items)
    requires |items| > 0
    ensures |r| == |items| && forall i :: 0 <= i < |r| ==> r[i].0 == items[i].0 && r[i].1 >= Epsilon
  {
    Shifted(items, MinOf(Seconds(items)) - Epsilon)
  }

  /** Line 46: the total of the shifted scores, which line 47 asserts is positive. */
  function Total(items: Items): (t: real)
    requires |items| > 0
    ensures t > 0.0
  {
    SumRealsPositive(Seconds(ShiftedOf(items)));
    SumReals(Seconds(ShiftedOf(items)))
  }

  /**
   * Lines 39-51: an empty table is all undefined; otherwise every score is
   * shifted to just above the smallest and divided by their total.
   */
  function Resolved(items: Items): Items
  {
    if items == [] then [(Undefined, 1.0)] else Over(ShiftedOf(items), Total(items))
  }

  /** The fractions of a non-empty table keep its keys in its order and are positive. */
  lemma ResolvedKeys(items: Items)
    ensures items == [] ==> Resolved(items) == [(Undefined, 1.0)]
    ensures items != [] ==> |Resolved(items)| == |items|
    ensures items != [] ==> forall i :: 0 <= i < |items| ==> Resolved(items)[i].0 == items[i].0 && Resolved(items)[i].1 > 0.0
  {
    if items != [] {
      var shifted, total := ShiftedOf(items), Total(items);
      forall i | 0 <= i < |items| ensures Resolved(items)[i].1 > 0.0 {
        DivPositive(shifted[i].1, total);
      }
    }
  }

  /** Lines 48-50: the fractions sum to one. */
  lemma ResolvedSum(items: Items)
    ensures SumReals(Seconds(Resolved(items))) == 1.0
  {
    if items == [] {
      assert Seconds(Resolved(items))[..0] == [];
    } else {
      var shifted, total := ShiftedOf(items), Total(items);
      SumOver(shifted, total);
      assert SumReals(Seconds(shifted)) == total;
      assert SumReals(Seconds(Resolved(items))) == total / total;
      DivSelf(total);
    }
  }

  /** A larger score gets a larger fraction, and the other way round. */
  lemma ResolvedOrder(items: Items)
    ensures forall i, j :: 0 <= i < |items| && 0 <= j < |items| ==>
      (Resolved(items)[i].1 <= Resolved(items)[j].1 <==> items[i].1 <= items[j].1)
  {
    if items != [] {
      var shifted, total := ShiftedOf(items), Total(items);
      forall i, j | 0 <= i < |items| && 0 <= j < |items|
        ensures Resolved(items)[i].1 <= Resolved(items)[j].1 <==> items[i].1 <= items[j].1
      {
        DivMonotone(shifted[i].1, shifted[j].1, total);
      }
    }
  }

  lemma AddOver(a: real, b: real, t: real)
    requires t != 0.0
    ensures a / t + b / t == (a + b) / t
  {
  }

  lemma DivSelf(t: real)
    requires t > 0.0
    ensures t / t == 1.0
  {
  }

  lemma DivPositive(a: real, t: real)
    requires a > 0.0 && t > 0.0
    ensures a / t > 0.0
  {
  }

  lemma DivMonotone(a: real, b: real, t: real)
    requires t > 0.0
    ensures a / t <= b / t <==> a <= b
  {
    if a <= b {
      assert b / t - a / t == (b - a) / t;
    } else {
      assert a / t - b / t == (a - b) / t;
    }
  }

  /** The entries of a table, each once, in some order. */
  method EnumerateScores(s: Scores) returns (items: Items)
    ensures Enumerates(s, items)
  {
    items := [];
    var rest := s.Keys;
    while rest != {}
      invariant rest <= s.Keys
      invariant forall i :: 0 <= i < |items| ==> items[i].0 in s && items[i].0 !in rest && items[i].1 == s[items[i].0]
      invariant forall k :: k in s && k !in rest ==> exists i :: 0 <= i < |items| && items[i].0 == k
      invariant forall i, j :: 0 <= i < j < |items| ==> items[i].0 != items[j].0
      decreases |rest|
    {
      NonEmptyHasMember(rest);
      var k :| k in rest;
      ghost var before := items;
      items := items + [(k, s[k])];
      rest := rest - {k};
      forall k' | k' in s && k' !in rest ensures exists i :: 0 <= i < |items| && items[i].0 == k' {
        if k' == k {
          assert items[|before|].0 == k';
        } else {
          var i :| 0 <= i < |before| && before[i].0 == k';
          assert items[i].0 == k';
        }
      }
    }
  }

  /** Lines 46-49 as their loop: every score over the total. */
  method Divide(items: Items, total: real) returns (fractions: Items)
    requires total > 0.0
    ensures fractions == Over(items, total)
  {
    fractions := [];
    for i := 0 to |items|
      invariant fractions == Over(items[..i], total)
    {
      fractions := fractions + [(items[i].0, items[i].1 / total)];
    }
    assert items[..|items|] == items;
  }

  /**
   * Lines 39-51: the fractions of the table's entries in the order they
   * are listed. Both assertions of the source hold over the reals: the
   * total of the shifted scores is positive and the fractions sum to one.
   */
  method ResolveSequence(scores: Scores) returns (r: Result<Items>, items: Items)
    ensures Enumerates(scores, items)
    ensures r == Ok(Resolved(items))
  {
    items := EnumerateScores(scores);
    if |items| == 0 {
      return Ok([(Undefined, 1.0)]), items;
    }
    var minval := MinOf(Seconds(items)) - Epsilon;
    var shifted := Shifted(items, minval);
    var total := SumReals(Seconds(shifted));
    assert shifted == ShiftedOf(items) && total == Total(items);
    if !(total > 0.0) {
      assert false;
      return Err(AssertionError), items;
    }
    var fractions := Divide(shifted, total);
    ResolvedSum(items);
    var sum := SumReals(Seconds(fractions));
    if !(-0.001 < sum - 1.0 < 0.001) {
      assert false;
      return Err(AssertionError), items;
    }
    r := Ok(fractions);
  }

  /** `fractions` are the resolved entries of `s`, listed in some order. */
  ghost predicate ResolvesTo(s: Scores, fractions: Items)
  {
    exists items :: Enumerates(s, items) && fractions == Resolved(items)
  }

  /** Whatever order a table is listed in, its fractions sum to one. */
  lemma ResolvesToSum(s: Scores, fractions: Items)
    requires ResolvesTo(s, fractions)
    ensures SumReals(Seconds(fractions)) == 1.0
  {
    var items: Items :| Enumerates(s, items) && fractions == Resolved(items);
    ResolvedSum(items);
  }

  /**
   * Whatever order a table is listed in, an empty one is all undefined and
   * otherwise each of its keys has one positive fraction.
   */
  lemma ResolvesToKeys(s: Scores, fractions: Items)
    requires ResolvesTo(s, fractions)
    ensures s == map[] ==> fractions == [(Undefined, 1.0)]
    ensures s != map[] ==> |fractions| == |s| && forall i :: 0 <= i < |fractions| ==> fractions[i].0 in s && fractions[i].1 > 0.0
    ensures forall k :: k in s ==> exists i :: 0 <= i < |fractions| && fractions[i].0 == k
  {
    var items: Items :| Enumerates(s, items) && fractions == Resolved(items);
    ResolvedKeys(items);
    EnumeratesCard(s, items);
    if s == map[] {
      assert items == [];
    } else {
      NonEmptyHasMember(s.Keys);
      var k0 :| k0 in s;
      var i0 :| 0 <= i0 < |items| && items[i0].0 == k0;
      assert items != [];
      forall i | 0 <= i < |fractions| ensures fractions[i].0 in s && fractions[i].1 > 0.0 {
        assert fractions[i].0 == items[i].0;
      }
      forall k | k in s ensures exists i :: 0 <= i < |fractions| && fractions[i].0 == k {
        var i :| 0 <= i < |items| && items[i].0 == k;
        assert fractions[i].0 == k;
      }
    }
  }

  /** A listing of a table has as many entries as the table. */
  lemma EnumeratesCard(s: Scores, items: Items)
    requires Enumerates(s, items)
    ensures |items| == |s|
  {
    var keys := set i | 0 <= i < |items| :: items[i].0;
    assert keys == s.Keys;
    IndexedCard(items);
  }

  lemma {:induction false} IndexedCard(items: Items)
    requires forall i, j :: 0 <= i < j < |items| ==> items[i].0 != items[j].0
    ensures |set i | 0 <= i < |items| :: items[i].0| == |items|
    decreases |items|
  {
    if items != [] {
      var n := |items| - 1;
      IndexedCard(items[..n]);
      var before := set i | 0 <= i < n :: items[..n][i].0;
      assert (set i | 0 <= i < |items| :: items[i].0) == before + {items[n].0};
      assert items[n].0 !in before;
    }
  }

  /** Line 116 with the scoring before it: the fractions of one partition, or the error its walk ends with. */
  method ResolvePartition(p: Partition) returns (r: Result<Items>)
    ensures r.Err? <==> PartitionScores(p).Err?
    ensures r.Err? ==> r.error == PartitionScores(p).error
    ensures r.Ok? ==> ResolvesTo(PartitionScores(p).value, r.value)
  {
    var scores := ScorePartition(p);
    if scores.Err? {
      return Err(scores.error);
    }
    var fractions, items := ResolveSequence(scores.value);
    r := fractions;
  }

  /**
   * Lines 54-117: the fractions of every partition under its id, in order;
   * the first partition whose walk fails ends the job with its error.
   */
  method Job(partitions: seq<Partition>) returns (r: Result<seq<(string, Items)>>)
    ensures r.Ok? <==> forall i :: 0 <= i < |partitions| ==> PartitionScores(partitions[i]).Ok?
    ensures r.Err? ==> exists i :: 0 <= i < |partitions| && PartitionScores(partitions[i]) == Err(r.error)
    ensures r.Ok? ==> |r.value| == |partitions| && forall i :: 0 <= i < |partitions| ==>
      r.value[i].0 == partitions[i].ind && ResolvesTo(PartitionScores(partitions[i]).value, r.value[i].1)
  {
    var results: seq<(string, Items)> := [];
    for i := 0 to |partitions|
      invariant |results| == i
      invariant forall j :: 0 <= j < i ==> PartitionScores(partitions[j]).Ok?
      invariant forall j :: 0 <= j < i ==>
        results[j].0 == partitions[j].ind && ResolvesTo(PartitionScores(partitions[j]).value, results[j].1)
    {
      var fractions := ResolvePartition(partitions[i]);
      if fractions.Err? {
        return Err(fractions.error);
      }
      results := results + [(partitions[i].ind, fractions.value)];
    }
    r := Ok(results);
  }
}
