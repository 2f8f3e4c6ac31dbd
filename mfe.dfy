// Stems of a minimum-free-energy fold in dot-bracket notation: runs of
// stacked base pairs, each a left arm of '(' and a right arm of ')' of the
// same length.
module Mfe {
  import opened Common
  import opened Intervals

  datatype Stem = Stem(left: Interval, right: Interval)

  /** Occurrences of `c` in `s`. */
  function Count(s: string, c: char): (n: nat)
    ensures n <= |s|
  {
    if s == [] then 0
    else Count(s[..|s| - 1], c) + (if s[|s| - 1] == c then 1 else 0)
  }

  /** Open brackets minus close brackets. */
  function Depth(s: string): int
  {
    Count(s, '(') - Count(s, ')')
  }

  /** No prefix closes more brackets than it opened. */
  predicate NeverNegative(fold: string)
  {
    forall j :: 0 <= j <= |fold| ==> Depth(fold[..j]) >= 0
  }

  /** Every position of `iv` lies in `fold` and holds `c`. */
  predicate AllOf(fold: string, iv: Interval, c: char)
  {
    0 <= iv.start && iv.end <= |fold| && forall k :: iv.start <= k < iv.end ==> fold[k] == c
  }

  /** What the source asserts of each stem: equal, non-empty arms of '(' and ')'. */
  predicate StemOk(fold: string, s: Stem)
  {
    s.left.Len() == s.right.Len() >= 1 && AllOf(fold, s.left, '(') && AllOf(fold, s.right, ')')
  }

  /** Right arms come in order and never overlap. */
  predicate RightArmsOrdered(stems: seq<Stem>)
  {
    forall a, b :: 0 <= a < b < |stems| ==> stems[a].right.end <= stems[b].right.start
  }

  function LeftTotal(stems: seq<Stem>): int
  {
    if stems == [] then 0 else LeftTotal(stems[..|stems| - 1]) + stems[|stems| - 1].left.Len()
  }

  lemma PrefixStep(fold: string, i: int, c: char)
    requires 0 <= i < |fold|
    ensures Count(fold[..i + 1], c) == Count(fold[..i], c) + (if fold[i] == c then 1 else 0)
  {
    assert fold[..i + 1][..i] == fold[..i];
  }

  lemma LeftTotalReplaceLast(stems: seq<Stem>, s: Stem)
    requires stems != []
    ensures LeftTotal(stems[..|stems| - 1] + [s]) == LeftTotal(stems) - stems[|stems| - 1].left.Len() + s.left.Len()
  {
    assert (stems[..|stems| - 1] + [s])[..|stems| - 1] == stems[..|stems| - 1];
  }

  lemma LeftTotalAppend(stems: seq<Stem>, s: Stem)
    ensures LeftTotal(stems + [s]) == LeftTotal(stems) + s.left.Len()
  {
    assert (stems + [s])[..|stems|] == stems;
  }

  /**
   * The ')' at `q` closes the '(' at `p`: after `p` the depth stays above
   * its level before `p` until the ')' at `q` brings it back.
   */
  ghost predicate Matched(fold: string, p: int, q: int)
  {
    0 <= p < q < |fold| && fold[p] == '(' && fold[q] == ')' &&
    Depth(fold[..q + 1]) == Depth(fold[..p]) &&
    forall j :: p < j <= q ==> Depth(fold[..j]) > Depth(fold[..p])
  }

  /** A ')' closes at most one '('. */
  lemma MatchedUnique(fold: string, p: int, p': int, q: int)
    requires Matched(fold, p, q) && Matched(fold, p', q)
    ensures p == p'
  {
    if p != p' {
      assert false;
    }
  }

  /** Stacked pair `t` of a stem: `t` positions in from the outer ends of its arms. */
  ghost predicate StemPair(fold: string, s: Stem, t: int)
  {
    Matched(fold, s.left.start + t, s.right.end - 1 - t)
  }

  /** The arms of a stem are stacked pairs: the k-th '(' from the outside matches the k-th ')' from the outside. */
  ghost predicate Stacked(fold: string, s: Stem)
  {
    forall t :: 0 <= t < s.left.Len() ==> StemPair(fold, s, t)
  }

  /** A stem can grow neither outwards nor inwards: the pairs around and inside it do not match. */
  ghost predicate Maximal(fold: string, s: Stem)
  {
    !Matched(fold, s.left.start - 1, s.right.end) && !Matched(fold, s.left.end, s.right.start - 1)
  }

  /** Some stem's right arm holds position `q`. */
  ghost predicate CoveredBy(stems: seq<Stem>, q: int)
  {
    exists k :: 0 <= k < |stems| && stems[k].right.Contains(q)
  }

  /**
   * The stack after reading `fold[..i]`: the k-th entry is a '(' read at
   * depth k, and the depth has stayed above k since.
   */
  ghost predicate Pending(fold: string, i: int, stack: seq<int>)
  {
    0 <= i <= |fold| &&
    (forall k :: 0 <= k < |stack| ==> 0 <= stack[k] < i && fold[stack[k]] == '(' && Depth(fold[..stack[k]]) == k) &&
    (forall k, j :: 0 <= k < |stack| && stack[k] < j <= i ==> Depth(fold[..j]) > k)
  }

  /**
   * The stems after reading `fold[..i]`: stacked pairs that cannot grow
   * inwards, nor outwards once closed before `i`; every ')' read lies in
   * a right arm, and a ')' just read ends the last stem.
   */
  ghost predicate Shaped(fold: string, i: int, stems: seq<Stem>)
  {
    0 <= i <= |fold| &&
    AllStacked(fold, stems) && ClosedMaximal(fold, i, stems) && Covered(fold, i, stems) &&
    (0 < i && fold[i - 1] == ')' ==> stems != [] && stems[|stems| - 1].right.end == i)
  }

  /** Every stem is a run of stacked pairs that cannot grow inwards. */
  ghost predicate AllStacked(fold: string, stems: seq<Stem>)
  {
    forall k :: 0 <= k < |stems| ==> Stacked(fold, stems[k]) && !Matched(fold, stems[k].left.end, stems[k].right.start - 1)
  }

  /** A stem closed before `i` cannot grow outwards. */
  ghost predicate ClosedMaximal(fold: string, i: int, stems: seq<Stem>)
  {
    forall k :: 0 <= k < |stems| && stems[k].right.end < i ==> !Matched(fold, stems[k].left.start - 1, stems[k].right.end)
  }

  /** Every ')' before `i` lies in a right arm. */
  ghost predicate Covered(fold: string, i: int, stems: seq<Stem>)
    requires 0 <= i <= |fold|
  {
    forall q :: 0 <= q < i && fold[q] == ')' ==> CoveredBy(stems, q)
  }

  lemma PendingPush(fold: string, i: int, stack: seq<int>)
    requires Pending(fold, i, stack) && |stack| == Depth(fold[..i]) && i < |fold| && fold[i] == '('
    ensures Pending(fold, i + 1, stack + [i])
  {
    PrefixStep(fold, i, '(');
    PrefixStep(fold, i, ')');
  }

  lemma PendingOther(fold: string, i: int, stack: seq<int>)
    requires Pending(fold, i, stack) && |stack| == Depth(fold[..i]) && i < |fold| && fold[i] != '(' && fold[i] != ')'
    ensures Pending(fold, i + 1, stack)
  {
    PrefixStep(fold, i, '(');
    PrefixStep(fold, i, ')');
  }

  /** A ')' closes the '(' on top of the stack, and popping keeps the stack pending. */
  lemma PendingPop(fold: string, i: int, stack: seq<int>)
    requires Pending(fold, i, stack) && |stack| == Depth(fold[..i]) && i < |fold| && fold[i] == ')' && stack != []
    ensures Matched(fold, stack[|stack| - 1], i)
    ensures Pending(fold, i + 1, stack[..|stack| - 1])
  {
    PrefixStep(fold, i, '(');
    PrefixStep(fold, i, ')');
    var s := stack[..|stack| - 1];
    forall k | 0 <= k < |s| ensures 0 <= s[k] < i + 1 && fold[s[k]] == '(' && Depth(fold[..s[k]]) == k {
      assert s[k] == stack[k];
    }
  }

  /** A character other than ')' leaves the stems shaped. */
  lemma ShapedSkip(fold: string, i: int, stems: seq<Stem>)
    requires Shaped(fold, i, stems) && i < |fold| && fold[i] != ')'
    ensures Shaped(fold, i + 1, stems)
  {
  }

  /** Growing the last stem outwards by the pair (`popped`, `i`) keeps the stems shaped. */
  lemma ShapedGrow(fold: string, i: int, stems: seq<Stem>, popped: int, grown: Stem)
    requires Shaped(fold, i, stems) && StemsBefore(fold, stems, i) && i < |fold| && fold[i] == ')'
    requires Matched(fold, popped, i)
    requires stems != [] && stems[|stems| - 1].right.end == i && popped == stems[|stems| - 1].left.start - 1
    requires grown == Stem(Interval(popped, stems[|stems| - 1].left.end), Interval(stems[|stems| - 1].right.start, i + 1))
    ensures Shaped(fold, i + 1, stems[..|stems| - 1] + [grown])
  {
    GrowStacked(fold, i, stems, popped, grown);
    GrowMaximal(fold, i, stems, grown);
    assert StemOk(fold, stems[|stems| - 1]);
    GrowCovered(fold, i, stems, grown);
  }

  lemma GrowStacked(fold: string, i: int, stems: seq<Stem>, popped: int, grown: Stem)
    requires AllStacked(fold, stems) && Matched(fold, popped, i)
    requires stems != [] && stems[|stems| - 1].right.end == i && popped == stems[|stems| - 1].left.start - 1
    requires StemOk(fold, stems[|stems| - 1])
    requires grown == Stem(Interval(popped, stems[|stems| - 1].left.end), Interval(stems[|stems| - 1].right.start, i + 1))
    ensures AllStacked(fold, stems[..|stems| - 1] + [grown])
  {
    var n := |stems| - 1;
    GrowPairs(fold, stems[n], popped, grown);
    assert AllStacked(fold, stems[..n]) by {
      forall k | 0 <= k < n ensures stems[..n][k] == stems[k] {
      }
    }
    AllStackedSnoc(fold, stems[..n], grown);
  }

  lemma AllStackedSnoc(fold: string, init: seq<Stem>, x: Stem)
    requires AllStacked(fold, init) && Stacked(fold, x) && !Matched(fold, x.left.end, x.right.start - 1)
    ensures AllStacked(fold, init + [x])
  {
    forall k | 0 <= k < |init| + 1
      ensures Stacked(fold, (init + [x])[k]) && !Matched(fold, (init + [x])[k].left.end, (init + [x])[k].right.start - 1)
    {
      if k < |init| {
        assert (init + [x])[k] == init[k];
      }
    }
  }

  /** The pair just outside a stem, added to it, keeps its pairs stacked. */
  lemma GrowPairs(fold: string, prev: Stem, popped: int, grown: Stem)
    requires Stacked(fold, prev) && Matched(fold, popped, prev.right.end) && popped == prev.left.start - 1
    requires grown == Stem(Interval(popped, prev.left.end), Interval(prev.right.start, prev.right.end + 1))
    ensures Stacked(fold, grown)
  {
    forall t | 0 <= t < grown.left.Len() ensures StemPair(fold, grown, t) {
      if t > 0 {
        assert StemPair(fold, prev, t - 1);
      }
    }
  }

  lemma GrowMaximal(fold: string, i: int, stems: seq<Stem>, grown: Stem)
    requires ClosedMaximal(fold, i, stems) && RightArmsOrdered(stems)
    requires stems != [] && stems[|stems| - 1].right.end == i && StemOk(fold, stems[|stems| - 1])
    requires grown.right.end == i + 1
    ensures ClosedMaximal(fold, i + 1, stems[..|stems| - 1] + [grown])
  {
    var n := |stems| - 1;
    var s' := stems[..n] + [grown];
    forall k | 0 <= k < |s'| && s'[k].right.end < i + 1
      ensures !Matched(fold, s'[k].left.start - 1, s'[k].right.end)
    {
      assert k < n && s'[k] == stems[k];
      assert stems[k].right.end <= stems[n].right.start;
    }
  }

  lemma GrowCovered(fold: string, i: int, stems: seq<Stem>, grown: Stem)
    requires 0 <= i < |fold| && Covered(fold, i, stems)
    requires stems != [] && grown.right.start == stems[|stems| - 1].right.start && grown.right.end == i + 1
    requires stems[|stems| - 1].right.start < stems[|stems| - 1].right.end == i
    ensures Covered(fold, i + 1, stems[..|stems| - 1] + [grown])
  {
    var n := |stems| - 1;
    var s' := stems[..n] + [grown];
    forall q | 0 <= q < i + 1 && fold[q] == ')' ensures CoveredBy(s', q) {
      if q == i {
        assert s'[n].right.Contains(q);
      } else {
        var k :| 0 <= k < |stems| && stems[k].right.Contains(q);
        assert s'[k].right.Contains(q);
      }
    }
  }

  /** Opening a one-pair stem (`popped`, `i`) when the last stem cannot grow keeps the stems shaped. */
  lemma ShapedOpen(fold: string, i: int, stems: seq<Stem>, popped: int, single: Stem)
    requires Shaped(fold, i, stems) && StemsBefore(fold, stems, i) && i < |fold| && fold[i] == ')'
    requires Matched(fold, popped, i)
    requires !(stems != [] && stems[|stems| - 1].right.end == i && popped == stems[|stems| - 1].left.start - 1)
    requires single == Stem(Interval(popped, popped + 1), Interval(i, i + 1))
    ensures Shaped(fold, i + 1, stems + [single])
  {
    if stems != [] {
      assert StemOk(fold, stems[|stems| - 1]) && Stacked(fold, stems[|stems| - 1]);
    }
    OpenInward(fold, i, stems, popped);
    OpenStacked(fold, i, stems, popped, single);
    OpenMaximal(fold, i, stems, popped, single);
    OpenCovered(fold, i, stems, single);
  }

  /** When the last stem cannot grow, the pair just inside (`popped`, `i`) does not match. */
  lemma OpenInward(fold: string, i: int, stems: seq<Stem>, popped: int)
    requires 0 <= i < |fold| && (0 < i && fold[i - 1] == ')' ==> stems != [] && stems[|stems| - 1].right.end == i)
    requires stems != [] ==> StemOk(fold, stems[|stems| - 1]) && Stacked(fold, stems[|stems| - 1])
    requires !(stems != [] && stems[|stems| - 1].right.end == i && popped == stems[|stems| - 1].left.start - 1)
    ensures !Matched(fold, popped + 1, i - 1)
  {
    if 0 < i && fold[i - 1] == ')' {
      assert StemPair(fold, stems[|stems| - 1], 0);
      if Matched(fold, popped + 1, i - 1) {
        assert false;
      }
    }
  }

  lemma OpenStacked(fold: string, i: int, stems: seq<Stem>, popped: int, single: Stem)
    requires AllStacked(fold, stems) && Matched(fold, popped, i)
    requires !Matched(fold, popped + 1, i - 1)
    requires single == Stem(Interval(popped, popped + 1), Interval(i, i + 1))
    ensures AllStacked(fold, stems + [single])
  {
    assert Stacked(fold, single) by {
      assert StemPair(fold, single, 0);
    }
    AllStackedSnoc(fold, stems, single);
  }

  /** Only the last stem can end where the scan stands. */
  lemma LastEndsLatest(fold: string, stems: seq<Stem>, i: int)
    requires StemsBefore(fold, stems, i)
    ensures forall k :: 0 <= k < |stems| - 1 ==> stems[k].right.end < stems[|stems| - 1].right.end <= i
  {
    forall k | 0 <= k < |stems| - 1 ensures stems[k].right.end < stems[|stems| - 1].right.end {
      assert StemOk(fold, stems[|stems| - 1]);
    }
  }

  lemma OpenMaximal(fold: string, i: int, stems: seq<Stem>, popped: int, single: Stem)
    requires ClosedMaximal(fold, i, stems) && StemsBefore(fold, stems, i) && Matched(fold, popped, i)
    requires !(stems != [] && stems[|stems| - 1].right.end == i && popped == stems[|stems| - 1].left.start - 1)
    requires single.right.end == i + 1
    ensures ClosedMaximal(fold, i + 1, stems + [single])
  {
    var s' := stems + [single];
    LastEndsLatest(fold, stems, i);
    forall k | 0 <= k < |s'| && s'[k].right.end < i + 1
      ensures !Matched(fold, s'[k].left.start - 1, s'[k].right.end)
    {
      assert s'[k] == stems[k];
      if stems[k].right.end == i && Matched(fold, stems[k].left.start - 1, i) {
        MatchedUnique(fold, stems[k].left.start - 1, popped, i);
      }
    }
  }

  lemma OpenCovered(fold: string, i: int, stems: seq<Stem>, single: Stem)
    requires 0 <= i < |fold| && Covered(fold, i, stems) && single.right == Interval(i, i + 1)
    ensures Covered(fold, i + 1, stems + [single])
  {
    var s' := stems + [single];
    forall q | 0 <= q < i + 1 && fold[q] == ')' ensures CoveredBy(s', q) {
      if q == i {
        assert s'[|stems|].right.Contains(q);
      } else {
        var k :| 0 <= k < |stems| && stems[k].right.Contains(q);
        assert s'[k].right.Contains(q);
      }
    }
  }

  /** Well-formed stems, in order, all closed before position `i`. */
  predicate StemsBefore(fold: string, stems: seq<Stem>, i: int)
  {
    (forall k :: 0 <= k < |stems| ==> StemOk(fold, stems[k]) && stems[k].right.end <= i) &&
    RightArmsOrdered(stems)
  }

  lemma StemsBeforeAppend(fold: string, stems: seq<Stem>, i: int, s: Stem)
    requires StemsBefore(fold, stems, i) && StemOk(fold, s) && i <= s.right.start && s.right.end <= i + 1
    ensures StemsBefore(fold, stems + [s], i + 1)
  {
  }

  lemma StemsBeforeGrow(fold: string, stems: seq<Stem>, i: int, s: Stem)
    requires StemsBefore(fold, stems, i) && stems != [] && StemOk(fold, s)
    requires s.right.start == stems[|stems| - 1].right.start && s.right.end == i + 1
    ensures StemsBefore(fold, stems[..|stems| - 1] + [s], i + 1)
  {
    var t := stems[..|stems| - 1] + [s];
    forall a, b | 0 <= a < b < |t| ensures t[a].right.end <= t[b].right.start {
      if b == |t| - 1 {
        assert t[a] == stems[a];
        assert stems[a].right.end <= stems[|stems| - 1].right.start;
      } else {
        assert t[a] == stems[a] && t[b] == stems[b];
      }
    }
  }

  /** What the scan keeps after reading `fold[..i]`. */
  predicate Scanned(fold: string, i: int, stack: seq<int>, stems: seq<Stem>)
  {
    0 <= i <= |fold| &&
    |stack| == Depth(fold[..i]) &&
    (forall k :: 0 <= k < |stack| ==> 0 <= stack[k] < i && fold[stack[k]] == '(') &&
    StemsBefore(fold, stems, i) &&
    LeftTotal(stems) == Count(fold[..i], ')')
  }

  /** Popping the stack on a ')' keeps it the list of open '(' positions. */
  lemma ClosePop(fold: string, i: int, stack: seq<int>)
    requires 0 <= i < |fold| && fold[i] == ')' && stack != [] && |stack| == Depth(fold[..i])
    requires forall k :: 0 <= k < |stack| ==> 0 <= stack[k] < i && fold[stack[k]] == '('
    ensures var s := stack[..|stack| - 1];
      |s| == Depth(fold[..i + 1]) && (forall k :: 0 <= k < |s| ==> 0 <= s[k] < i + 1 && fold[s[k]] == '(')
    ensures 0 <= stack[|stack| - 1] < i && fold[stack[|stack| - 1]] == '('
  {
    PrefixStep(fold, i, '(');
    PrefixStep(fold, i, ')');
  }

  /**
   * One ')' with a non-empty stack: pop the '(' this ')' matches, then
   * grow the last stem outwards when its right arm ends here and its left
   * arm starts just after the popped '(', or else open a one-pair stem.
   */
  method Close(fold: string, i: int, stack: seq<int>, stems: seq<Stem>) returns (stack': seq<int>, stems': seq<Stem>)
    requires Reading(fold, i, stack, stems) && i < |fold| && fold[i] == ')' && stack != []
    ensures Reading(fold, i + 1, stack', stems')
    ensures Matched(fold, stack[|stack| - 1], i) && stack' == stack[..|stack| - 1]
    ensures var p, n := stack[|stack| - 1], |stems| - 1;
      if stems != [] && stems[n].right.end == i && p == stems[n].left.start - 1
      then stems' == stems[..n] + [Stem(Interval(p, stems[n].left.end), Interval(stems[n].right.start, i + 1))]
      else stems' == stems + [Stem(Interval(p, p + 1), Interval(i, i + 1))]
  {
    PendingPop(fold, i, stack);
    var popped := stack[|stack| - 1];
    stack' := stack[..|stack| - 1];
    if stems != [] && stems[|stems| - 1].right.end == i && popped == stems[|stems| - 1].left.start - 1 {
      var prev := stems[|stems| - 1];
      var grown := Stem(Interval(popped, prev.left.end), Interval(prev.right.start, i + 1));
      ReadGrow(fold, i, stack, stems, grown);
      stems' := stems[..|stems| - 1] + [grown];
    } else {
      var single := Stem(Interval(popped, popped + 1), Interval(i, i + 1));
      ReadOpen(fold, i, stack, stems, single);
      stems' := stems + [single];
    }
  }

  lemma ReadGrow(fold: string, i: int, stack: seq<int>, stems: seq<Stem>, grown: Stem)
    requires Reading(fold, i, stack, stems) && i < |fold| && fold[i] == ')' && stack != []
    requires stems != [] && stems[|stems| - 1].right.end == i && stack[|stack| - 1] == stems[|stems| - 1].left.start - 1
    requires grown == Stem(Interval(stack[|stack| - 1], stems[|stems| - 1].left.end), Interval(stems[|stems| - 1].right.start, i + 1))
    ensures Reading(fold, i + 1, stack[..|stack| - 1], stems[..|stems| - 1] + [grown])
  {
    ClosePop(fold, i, stack);
    PendingPop(fold, i, stack);
    PrefixStep(fold, i, ')');
    CloseGrow(fold, i, stems, stack[|stack| - 1], grown);
    ShapedGrow(fold, i, stems, stack[|stack| - 1], grown);
  }

  lemma ReadOpen(fold: string, i: int, stack: seq<int>, stems: seq<Stem>, single: Stem)
    requires Reading(fold, i, stack, stems) && i < |fold| && fold[i] == ')' && stack != []
    requires !(stems != [] && stems[|stems| - 1].right.end == i && stack[|stack| - 1] == stems[|stems| - 1].left.start - 1)
    requires single == Stem(Interval(stack[|stack| - 1], stack[|stack| - 1] + 1), Interval(i, i + 1))
    ensures Reading(fold, i + 1, stack[..|stack| - 1], stems + [single])
  {
    ClosePop(fold, i, stack);
    PendingPop(fold, i, stack);
    PrefixStep(fold, i, ')');
    CloseOpen(fold, i, stems, stack[|stack| - 1], single);
    ShapedOpen(fold, i, stems, stack[|stack| - 1], single);
  }

  /** A ')' right after the last stem's right arm, matching the '(' right before its left arm, grows that stem. */
  lemma CloseGrow(fold: string, i: int, stems: seq<Stem>, popped: int, grown: Stem)
    requires 0 <= i < |fold| && fold[i] == ')' && 0 <= popped < i && fold[popped] == '('
    requires StemsBefore(fold, stems, i) && LeftTotal(stems) == Count(fold[..i], ')')
    requires stems != [] && stems[|stems| - 1].right.end == i && popped == stems[|stems| - 1].left.start - 1
    requires grown == Stem(Interval(popped, stems[|stems| - 1].left.end), Interval(stems[|stems| - 1].right.start, i + 1))
    ensures StemsBefore(fold, stems[..|stems| - 1] + [grown], i + 1)
    ensures LeftTotal(stems[..|stems| - 1] + [grown]) == Count(fold[..i + 1], ')')
  {
    PrefixStep(fold, i, ')');
    var prev := stems[|stems| - 1];
    assert StemOk(fold, prev);
    forall k | grown.left.start <= k < grown.left.end ensures fold[k] == '(' {
      if k != popped {
        assert prev.left.start <= k < prev.left.end;
      }
    }
    forall k | grown.right.start <= k < grown.right.end ensures fold[k] == ')' {
      if k != i {
        assert prev.right.start <= k < prev.right.end;
      }
    }
    LeftTotalReplaceLast(stems, grown);
    StemsBeforeGrow(fold, stems, i, grown);
  }

  /** Any other ')' opens a one-pair stem with the popped '('. */
  lemma CloseOpen(fold: string, i: int, stems: seq<Stem>, popped: int, single: Stem)
    requires 0 <= i < |fold| && fold[i] == ')' && 0 <= popped < i && fold[popped] == '('
    requires StemsBefore(fold, stems, i) && LeftTotal(stems) == Count(fold[..i], ')')
    requires single == Stem(Interval(popped, popped + 1), Interval(i, i + 1))
    ensures StemsBefore(fold, stems + [single], i + 1)
    ensures LeftTotal(stems + [single]) == Count(fold[..i + 1], ')')
  {
    PrefixStep(fold, i, ')');
    LeftTotalAppend(stems, single);
    StemsBeforeAppend(fold, stems, i, single);
  }

  /** Everything the scan keeps track of after reading `fold[..i]`. */
  ghost predicate Reading(fold: string, i: int, stack: seq<int>, stems: seq<Stem>)
  {
    Scanned(fold, i, stack, stems) && Pending(fold, i, stack) && Shaped(fold, i, stems)
  }

  /** Any character but ')': a '(' pushes its position, anything else is skipped. */
  method Open(fold: string, i: int, stack: seq<int>, stems: seq<Stem>) returns (stack': seq<int>)
    requires Reading(fold, i, stack, stems) && i < |fold| && fold[i] != ')'
    ensures Reading(fold, i + 1, stack', stems)
    ensures stack' == if fold[i] == '(' then stack + [i] else stack
  {
    PrefixStep(fold, i, '(');
    PrefixStep(fold, i, ')');
    ShapedSkip(fold, i, stems);
    if fold[i] == '(' {
      PendingPush(fold, i, stack);
      stack' := stack + [i];
    } else {
      PendingOther(fold, i, stack);
      stack' := stack;
    }
  }

  /** Read `fold[i]`; a ')' with nothing to pop fails, which happens exactly when the prefix closes too much. */
  method Step(fold: string, i: int, stack: seq<int>, stems: seq<Stem>) returns (ok: bool, stack': seq<int>, stems': seq<Stem>)
    requires Reading(fold, i, stack, stems) && i < |fold|
    ensures ok <==> Depth(fold[..i + 1]) >= 0
    ensures ok ==> Reading(fold, i + 1, stack', stems')
  {
    PrefixStep(fold, i, '(');
    PrefixStep(fold, i, ')');
    if fold[i] != ')' {
      stack' := Open(fold, i, stack, stems);
      return true, stack', stems;
    } else if stack == [] {
      return false, stack, stems;
    }
    stack', stems' := Close(fold, i, stack, stems);
    return true, stack', stems';
  }

  /** Once the whole fold is read, no stem can grow outwards either. */
  lemma ShapedDone(fold: string, stems: seq<Stem>)
    requires Shaped(fold, |fold|, stems)
    ensures forall k :: 0 <= k < |stems| ==> Stacked(fold, stems[k]) && Maximal(fold, stems[k])
  {
  }

  /**
   * The stem derivation of `job`: a '(' pushes its position; a ')' pops the
   * matching '(' and either extends the previous stem outwards (when that
   * stem's right arm ends here and its left arm starts just after the
   * popped position) or opens a new one-pair stem. Popping an empty stack
   * is an IndexError, and the final bracket-count assertion fails exactly
   * when some '(' stays unmatched; the per-stem assertions always hold.
   */
  method DeriveStems(fold: string) returns (r: Result<seq<Stem>>)
    ensures r == Err(IndexError) <==> !NeverNegative(fold)
    ensures r == Err(AssertionError) <==> NeverNegative(fold) && Depth(fold) != 0
    ensures r.Ok? ==> Count(fold, '(') + Count(fold, ')') == 2 * LeftTotal(r.value)
    ensures r.Ok? ==> forall k :: 0 <= k < |r.value| ==> StemOk(fold, r.value[k])
    ensures r.Ok? ==> RightArmsOrdered(r.value)
    ensures r.Ok? ==> forall k :: 0 <= k < |r.value| ==> Stacked(fold, r.value[k]) && Maximal(fold, r.value[k])
    ensures r.Ok? ==> forall q :: 0 <= q < |fold| && fold[q] == ')' ==> CoveredBy(r.value, q)
  {
    var ok, stack, stems := Scan(fold);
    if !ok {
      return Err(IndexError);
    }
    ReadAll(fold, stack, stems);
    if Count(fold, '(') + Count(fold, ')') != 2 * LeftTotal(stems) {
      return Err(AssertionError);
    }
    return Ok(stems);
  }

  /** The scan over the fold; it stops at the first ')' with nothing to pop. */
  method Scan(fold: string) returns (ok: bool, stack: seq<int>, stems: seq<Stem>)
    ensures ok <==> NeverNegative(fold)
    ensures ok ==> Reading(fold, |fold|, stack, stems)
  {
    stack, stems := [], [];
    var i := 0;
    ReadingStart(fold);
    while i < |fold|
      invariant 0 <= i <= |fold| && Reading(fold, i, stack, stems) && PrefixesOk(fold, i)
    {
      ok, stack, stems := Step(fold, i, stack, stems);
      if !ok {
        return false, stack, stems;
      }
      i := i + 1;
    }
    return true, stack, stems;
  }

  /** No prefix of `fold[..i]` closes more brackets than it opened. */
  ghost predicate PrefixesOk(fold: string, i: int)
  {
    i <= |fold| && forall j :: 0 <= j <= i ==> Depth(fold[..j]) >= 0
  }

  lemma ReadingStart(fold: string)
    ensures Reading(fold, 0, [], []) && PrefixesOk(fold, 0)
  {
    assert fold[..0] == [];
  }

  /** What a finished scan knows: the stack is as deep as the fold, and the stems are well-formed, stacked, maximal and cover every ')'. */
  lemma ReadAll(fold: string, stack: seq<int>, stems: seq<Stem>)
    requires Reading(fold, |fold|, stack, stems)
    ensures |stack| == Depth(fold) && LeftTotal(stems) == Count(fold, ')')
    ensures forall k :: 0 <= k < |stems| ==> StemOk(fold, stems[k])
    ensures RightArmsOrdered(stems)
    ensures forall k :: 0 <= k < |stems| ==> Stacked(fold, stems[k]) && Maximal(fold, stems[k])
    ensures forall q :: 0 <= q < |fold| && fold[q] == ')' ==> CoveredBy(stems, q)
  {
    assert fold[..|fold|] == fold;
    ShapedDone(fold, stems);
  }
}
