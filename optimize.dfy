// `optimize` (stories/RIP/clustering/dsRNA-filtering.py): the repeats of one
// contig and strand are split into filtering groups; each group is chopped
// into pieces around the sample's peaks, the pieces are scored against the
// sample's signal in the group's window, greedily selected and trimmed, and
// every selected piece is reported with the repeats it was cut from.
module Optimization {
  import opened Common
  import opened Sorting
  import opened Intervals
  import opened InvRepeats
  import opened Scoring
  import opened ScoreStates
  import opened Graph
  import opened DsRnaFiltering
  import opened Selection

  /** A selected piece with the indices of the repeats it was cut from. */
  type Hit = (InvRepeat, seq<int>)

  // ---------------------------------------------------------------------
  // The bounding range of a group

  /** The range from the leftmost start to the rightmost end of the group's bounding ranges. */
  function Span(dsRNA: seq<InvRepeat>, payload: seq<int>): (r: Interval)
    requires ValidPayload(dsRNA, payload) && payload != []
    ensures forall i :: 0 <= i < |payload| ==>
      r.start <= Brange(dsRNA[payload[i]]).start && Brange(dsRNA[payload[i]]).end <= r.end
    ensures exists i :: 0 <= i < |payload| && r.start == Brange(dsRNA[payload[i]]).start
    ensures exists i :: 0 <= i < |payload| && r.end == Brange(dsRNA[payload[i]]).end
    decreases |payload|
  {
    var n := |payload| - 1;
    var b := Brange(dsRNA[payload[n]]);
    if n == 0 then b
    else
      var rest := Span(dsRNA, payload[..n]);
      assert forall i :: 0 <= i < n ==> payload[..n][i] == payload[i];
      Interval(Min(rest.start, b.start), Max(rest.end, b.end))
  }

  /** The loop over the payload that widens `start` and `end` repeat by repeat. */
  method Hull(dsRNA: seq<InvRepeat>, payload: seq<int>) returns (hull: Interval)
    requires ValidPayload(dsRNA, payload) && payload != []
    ensures hull == Span(dsRNA, payload)
  {
    hull := Brange(dsRNA[payload[0]]);
    assert payload[..1] == [payload[0]];
    for i := 1 to |payload|
      invariant hull == Span(dsRNA, payload[..i])
    {
      var brange := Brange(dsRNA[payload[i]]);
      SpanSnoc(dsRNA, payload, i);
      hull := Interval(Min(hull.start, brange.start), Max(hull.end, brange.end));
    }
    assert payload[..|payload|] == payload;
  }

  /** Widening the span of a prefix by the next repeat gives the span of the longer prefix. */
  lemma SpanSnoc(dsRNA: seq<InvRepeat>, payload: seq<int>, i: int)
    requires ValidPayload(dsRNA, payload) && 0 < i < |payload|
    ensures var rest := Span(dsRNA, payload[..i]);
      var b := Brange(dsRNA[payload[i]]);
      Span(dsRNA, payload[..i + 1]) == Interval(Min(rest.start, b.start), Max(rest.end, b.end))
  {
    var p := payload[..i + 1];
    assert p[..i] == payload[..i];
  }

  /** `pindex`: the peaks overlapping the group's bounding range. */
  function PIndex(dsRNA: seq<InvRepeat>, payload: seq<int>, smpeaks: seq<Interval>): seq<Interval>
    requires ValidPayload(dsRNA, payload) && payload != []
  {
    Overlapping(smpeaks, Span(dsRNA, payload))
  }

  // ---------------------------------------------------------------------
  // What a piece is

  /** The bounding range of `ir` lies in `[lo, hi]`. */
  predicate Inside(ir: InvRepeat, lo: int, hi: int)
  {
    |ir.segments| > 0 && lo <= ir.segments[0].left.start && ir.segments[0].right.end <= hi
  }

  /** Every arm of a well-formed repeat lies within its bounding range. */
  lemma {:induction false} ArmsInside(ir: InvRepeat, lo: int, hi: int)
    requires ValidRepeat(ir) && Inside(ir, lo, hi)
    ensures SegmentsInWindow(hi - lo, lo, ir.segments)
  {
    var segs := ir.segments;
    forall i | 0 <= i < |segs| ensures SegmentInWindow(hi - lo, lo, segs[i]) {
      assert ValidSegment(segs[i]) && ValidSegment(segs[0]);
      if i > 0 {
        assert segs[0].left.end <= segs[i].left.start && segs[i].right.end <= segs[0].right.start;
      }
    }
  }

  /**
   * A piece cut from a well-formed repeat is well formed and lies within
   * the repeat's bounding range.
   */
  lemma {:induction false} CropInside(rna: InvRepeat, pindex: seq<Interval>, ir: InvRepeat, lo: int, hi: int)
    requires ValidRepeat(rna) && Inside(rna, lo, hi) && ir in Frags(rna, pindex)
    ensures ValidRepeat(ir) && Inside(ir, lo, hi)
  {
    var w := Windows(rna, pindex);
    WindowsSpec(rna, pindex);
    var j :| 0 <= j < |w| && ir == Crop(rna, w[j]);
    CropValid(rna, w[j]);
    var m :| 0 <= m < |rna.segments| && CroppedFrom(ir.segments[0], rna.segments[m]);
    NestedInFirst(rna, m);
  }

  /** Every segment of a well-formed repeat lies within its first segment's span. */
  lemma {:induction false} NestedInFirst(rna: InvRepeat, m: int)
    requires ValidRepeat(rna) && 0 <= m < |rna.segments|
    ensures rna.segments[0].left.start <= rna.segments[m].left.start
    ensures rna.segments[m].right.end <= rna.segments[0].right.end
  {
    assert ValidSegment(rna.segments[0]) && ValidSegment(rna.segments[m]);
    if m > 0 {
      assert rna.segments[0].left.end <= rna.segments[m].left.start;
      assert rna.segments[m].right.end <= rna.segments[0].right.start;
    }
  }

  /** A repeat is chopped into pieces only when some peak meets one of its arm envelopes. */
  lemma {:induction false} FragsNeedPeaks(rna: InvRepeat, pindex: seq<Interval>)
    requires ValidRepeat(rna) && Frags(rna, pindex) != []
    ensures pindex != []
  {
    var lov := Overlapping(pindex, LeftBrange(rna));
    assert lov != [];
    assert lov[0] in pindex;
  }

  /** Every piece of the table is a well-formed crop inside `[0, size]`, and there are peaks if there is a piece. */
  lemma {:induction false} TableInside(dsRNA: seq<InvRepeat>, payload: seq<int>, pindex: seq<Interval>, size: int,
                                       pieces: map<seq<Interval>, Piece>)
    requires ValidPayload(dsRNA, payload)
    requires forall k :: 0 <= k < |dsRNA| ==> Inside(dsRNA[k], 0, size)
    requires forall key :: key in pieces ==> CutBefore(Cuts(dsRNA, payload, pindex), pieces[key].dsRNA, |payload|)
    ensures forall key :: key in pieces ==> ValidRepeat(pieces[key].dsRNA) && Inside(pieces[key].dsRNA, 0, size)
    ensures pieces != map[] ==> pindex != []
  {
    var cuts := Cuts(dsRNA, payload, pindex);
    forall key | key in pieces ensures ValidRepeat(pieces[key].dsRNA) && Inside(pieces[key].dsRNA, 0, size) {
      var i :| 0 <= i < |payload| && pieces[key].dsRNA in cuts[i];
      CropInside(dsRNA[payload[i]], pindex, pieces[key].dsRNA, 0, size);
    }
    if pieces != map[] {
      var key :| key in pieces;
      var i :| 0 <= i < |payload| && pieces[key].dsRNA in cuts[i];
      FragsNeedPeaks(dsRNA[payload[i]], pindex);
    }
  }

  // ---------------------------------------------------------------------
  // The scoring window

  /** The window from the first block start to the last block end over all keys. */
  function KeySpan(keys: seq<seq<Interval>>): (r: Interval)
    requires keys != [] && forall i :: 0 <= i < |keys| ==> |keys[i]| > 0
    ensures forall i :: 0 <= i < |keys| ==> r.start <= keys[i][0].start && keys[i][|keys[i]| - 1].end <= r.end
    ensures exists i :: 0 <= i < |keys| && r.start == keys[i][0].start
    ensures exists i :: 0 <= i < |keys| && r.end == keys[i][|keys[i]| - 1].end
    decreases |keys|
  {
    var n := |keys| - 1;
    var key := keys[n];
    if n == 0 then Interval(key[0].start, key[|key| - 1].end)
    else
      var rest := KeySpan(keys[..n]);
      assert forall i :: 0 <= i < n ==> keys[..n][i] == keys[i];
      Interval(Min(rest.start, key[0].start), Max(rest.end, key[|key| - 1].end))
  }

  /** The first block of a repeat is its first left arm, the last block its first right arm. */
  lemma {:induction false} KeyEnds(ir: InvRepeat)
    requires |ir.segments| > 0
    ensures var key := SeqRanges(ir);
      |key| > 0 && key[0] == ir.segments[0].left && key[|key| - 1] == ir.segments[0].right
  {
  }

  // ---------------------------------------------------------------------
  // The first scoring

  /** The pieces in the table's insertion order (`pieces.values()`). */
  function Values(keys: seq<seq<Interval>>, pieces: map<seq<Interval>, Piece>): (r: seq<InvRepeat>)
    requires forall i :: 0 <= i < |keys| ==> keys[i] in pieces
    ensures |r| == |keys| && forall i :: 0 <= i < |keys| ==> r[i] == pieces[keys[i]].dsRNA
  {
    seq(|keys|, i requires 0 <= i < |keys| => pieces[keys[i]].dsRNA)
  }

  /** Different keys hold different pieces, so the values are distinct. */
  lemma {:induction false} ValuesDistinct(keys: seq<seq<Interval>>, pieces: map<seq<Interval>, Piece>)
    requires KeyedTable(keys, pieces)
    ensures Distinct(Values(keys, pieces))
  {
    var v := Values(keys, pieces);
    forall i, j | 0 <= i < j < |v| ensures v[i] != v[j] {
      assert keys[i] in pieces && keys[j] in pieces;
      assert SeqRanges(v[i]) == keys[i] && SeqRanges(v[j]) == keys[j];
    }
  }

  /** Every repeat of `irs` can be scored in the window of `st`. */
  predicate Scorable(st: ScoreState, irs: seq<InvRepeat>)
  {
    forall i :: 0 <= i < |irs| ==> |irs[i].segments| > 0 && SegmentsInWindow(st.scores.Length, st.start, irs[i].segments)
  }

  /** Each repeat paired with its score against the current signal. */
  function Initial(st: ScoreState, irs: seq<InvRepeat>): (r: seq<Scored>)
    reads st.scores
    requires st.Valid() && st.maxOverlap > 0 && Scorable(st, irs)
    ensures Irs(r) == irs
    ensures forall i :: 0 <= i < |r| ==> r[i].0 == st.Score(irs[i])
  {
    seq(|irs|, i requires 0 <= i < |irs| reads st.scores => (st.Score(irs[i]), irs[i]))
  }

  /** The best score (`max(x[0] for x in unresolved)`). */
  function MaxScore(s: seq<Scored>): (m: real)
    requires s != []
    ensures forall i :: 0 <= i < |s| ==> s[i].0 <= m
    ensures exists i :: 0 <= i < |s| && s[i].0 == m
    decreases |s|
  {
    var n := |s| - 1;
    if n == 0 then s[0].0
    else
      var rest := MaxScore(s[..n]);
      assert forall i :: 0 <= i < n ==> s[..n][i] == s[i];
      RMax(rest, s[n].0)
  }

  /** The candidates scoring at least a tenth of `maxscore`, in order. */
  function Prefilter(s: seq<Scored>, maxscore: real): (r: seq<Scored>)
    ensures forall x :: x in r <==> x in s && x.0 >= 0.1 * maxscore
    ensures multiset(r) <= multiset(s)
    decreases |s|
  {
    if s == [] then []
    else
      var n := |s| - 1;
      assert s == s[..n] + [s[n]];
      Prefilter(s[..n], maxscore) + (if s[n].0 >= 0.1 * maxscore then [s[n]] else [])
  }

  // ---------------------------------------------------------------------
  // One group

  /** `ir` is a piece of the group, reported with the origins the table gave it. */
  ghost predicate FromGroup(dsRNA: seq<InvRepeat>, payload: seq<int>, smpeaks: seq<Interval>, hit: Hit)
    requires ValidPayload(dsRNA, payload) && payload != []
  {
    var cuts := Cuts(dsRNA, payload, PIndex(dsRNA, payload, smpeaks));
    ValidRepeat(hit.0) && CutBefore(cuts, hit.0, |payload|) && hit.1 == Origins(cuts, payload, hit.0, |payload|)
  }

  /**
   * The body of the loop over the groups: chop, score, select, trim.
   * Every reported piece is a well-formed crop of a repeat of the group,
   * listed once, with all the repeats of the group it was cut from.
   */
  method OptimizeGroup(tracks: ExperimentTracks, dsRNA: seq<InvRepeat>, payload: seq<int>,
                       smpeaks: seq<Interval>, insulators: seq<(int, int)>)
    returns (hits: seq<Hit>, kept: seq<Scored>, ghost solution: seq<Scored>, ghost maxscore: real)
    requires ValidPayload(dsRNA, payload) && payload != []
    requires forall k :: 0 <= k < |dsRNA| ==> Inside(dsRNA[k], 0, |tracks.signal|) && Inside(dsRNA[k], 0, |tracks.control|)
    ensures forall i :: 0 <= i < |hits| ==> FromGroup(dsRNA, payload, smpeaks, hits[i])
    ensures forall i, j :: 0 <= i < j < |hits| ==> hits[i].0 != hits[j].0
    ensures |hits| == |kept| && forall i :: 0 <= i < |hits| ==> hits[i].0 == kept[i].1
    ensures Trimmed(solution, maxscore, kept)
    ensures Led(solution, maxscore, kept)
  {
    var hull := Hull(dsRNA, payload);
    var pindex := Overlapping(smpeaks, hull);
    var keys, pieces := Collect(dsRNA, payload, pindex);
    if keys == [] {
      assert Descending([]) == [];
      return [], [], [], 0.0;
    }
    assert pindex == PIndex(dsRNA, payload, smpeaks);
    OverlappingNonEmpty(smpeaks, hull);
    ghost var size := if |tracks.signal| <= |tracks.control| then |tracks.signal| else |tracks.control|;
    TableInside(dsRNA, payload, pindex, size, pieces);
    assert keys[0] in pieces;
    hits, kept, solution, maxscore := Select(tracks, dsRNA, payload, smpeaks, insulators, pindex, keys, pieces, size);
  }

  /** What follows `if not pieces: continue` for one group. */
  method Select(tracks: ExperimentTracks, dsRNA: seq<InvRepeat>, payload: seq<int>, smpeaks: seq<Interval>,
                insulators: seq<(int, int)>, pindex: seq<Interval>, keys: seq<seq<Interval>>, pieces: map<seq<Interval>, Piece>,
                ghost size: int)
    returns (hits: seq<Hit>, kept: seq<Scored>, ghost solution: seq<Scored>, ghost maxscore: real)
    requires ValidPayload(dsRNA, payload) && payload != [] && keys != []
    requires pindex == PIndex(dsRNA, payload, smpeaks) && pindex != [] && AllNonEmpty(pindex)
    requires size <= |tracks.signal| && size <= |tracks.control|
    requires forall key :: key in pieces ==> ValidRepeat(pieces[key].dsRNA) && Inside(pieces[key].dsRNA, 0, size)
    requires KeyedTable(keys, pieces)
    requires forall key :: key in pieces ==> CutBefore(Cuts(dsRNA, payload, pindex), pieces[key].dsRNA, |payload|)
    requires forall key :: key in pieces ==>
      pieces[key].origin == Origins(Cuts(dsRNA, payload, pindex), payload, pieces[key].dsRNA, |payload|)
    ensures forall i :: 0 <= i < |hits| ==> FromGroup(dsRNA, payload, smpeaks, hits[i])
    ensures forall i, j :: 0 <= i < j < |hits| ==> hits[i].0 != hits[j].0
    ensures |hits| == |kept| && forall i :: 0 <= i < |hits| ==> hits[i].0 == kept[i].1
    ensures Trimmed(solution, maxscore, kept)
    ensures Led(solution, maxscore, kept)
  {
    var irs := Values(keys, pieces);
    kept, solution, maxscore := Solve(tracks, keys, pieces, irs, pindex, insulators, size);
    ReportFromGroup(dsRNA, payload, smpeaks, keys, pieces, irs, kept);
    hits := Report(pieces, kept);
  }

  lemma {:induction false} OverlappingNonEmpty(peaks: seq<Interval>, iv: Interval)
    ensures AllNonEmpty(Overlapping(peaks, iv))
  {
    var r := Overlapping(peaks, iv);
    forall i | 0 <= i < |r| ensures r[i].NonEmpty() {
      assert r[i] in r;
    }
  }

  /**
   * `kept` is what trimming leaves of the greedy `solution`: every chosen
   * candidate scored at least `1e-32` and a tenth of `maxscore` when it was
   * chosen, and `kept` is the shortest prefix of the solution, best first,
   * that carries 90% of the solution's total score.
   */
  ghost predicate Trimmed(solution: seq<Scored>, maxscore: real, kept: seq<Scored>)
  {
    (forall x :: x in solution ==> Keep(x.0, maxscore)) &&
    |kept| <= |solution| && kept == Descending(solution)[..|kept|] &&
    Total(kept) >= 0.9 * Total(Descending(solution)) &&
    forall n :: 0 <= n < |kept| ==> Total(Descending(solution)[..n]) < 0.9 * Total(Descending(solution))
  }

  /**
   * The greedy `solution` opens with the best initial score `maxscore`, and
   * is empty exactly when that score is below `1e-32`; trimming a non-empty
   * solution keeps something.
   */
  ghost predicate Led(solution: seq<Scored>, maxscore: real, kept: seq<Scored>)
  {
    (solution != [] <==> maxscore >= Tiny) &&
    (solution != [] ==> solution[0].0 == maxscore && kept != [])
  }

  /**
   * Scoring, greedy selection and trimming of a non-empty table: the kept
   * candidates are distinct pieces of the table, trimmed from a greedy
   * solution drawn from the table's repeats.
   */
  method Solve(tracks: ExperimentTracks, keys: seq<seq<Interval>>, pieces: map<seq<Interval>, Piece>,
               irs: seq<InvRepeat>, pindex: seq<Interval>, insulators: seq<(int, int)>, ghost size: int)
    returns (kept: seq<Scored>, ghost solution: seq<Scored>, ghost maxscore: real)
    requires keys != [] && KeyedTable(keys, pieces) && irs == Values(keys, pieces)
    requires forall key :: key in pieces ==> ValidRepeat(pieces[key].dsRNA) && Inside(pieces[key].dsRNA, 0, size)
    requires size <= |tracks.signal| && size <= |tracks.control|
    requires pindex != [] && AllNonEmpty(pindex)
    ensures multiset(Irs(kept)) <= multiset(irs) && Distinct(Irs(kept))
    ensures multiset(Irs(solution)) <= multiset(irs)
    ensures Trimmed(solution, maxscore, kept)
    ensures Led(solution, maxscore, kept)
  {
    var window := Window(keys, pieces, irs, size);
    var r := tracks.Score(window.start, window.end, insulators, pindex);
    var st := r.value;
    TotalLenPositive(pindex);
    ScorableValues(st, irs, window);
    var unresolved := Initial(st, irs);
    var best := MaxScore(unresolved);
    var candidates := Prefilter(unresolved, best);
    CandidatesFit(st, irs, unresolved, candidates, best);
    ghost var buf := st.scores[..];
    BestChosen(st, buf, irs, unresolved, best, candidates);
    var kept', chosen := GreedyTrim(st, candidates, best);
    solution, maxscore := chosen, best;
    ValuesDistinct(keys, pieces);
    KeptDistinct(irs, candidates, chosen, kept');
    kept := kept';
  }

  /**
   * The greedy loop, then the trimming of its solution: the solution is the
   * rounds over the candidates, and trimming keeps something of any
   * non-empty solution.
   */
  method GreedyTrim(st: ScoreState, candidates: seq<Scored>, maxscore: real)
    returns (kept: seq<Scored>, ghost solution: seq<Scored>)
    requires st.Valid() && st.maxOverlap > 0 && Fits(st.scores.Length, st.start, candidates)
    modifies st.scores
    ensures solution == Rounds(st, old(st.scores[..]), candidates, maxscore)
    ensures multiset(Irs(solution)) <= multiset(Irs(candidates))
    ensures Trimmed(solution, maxscore, kept)
    ensures solution != [] ==> kept != []
  {
    var chosen := Greedy(st, candidates, maxscore);
    solution := chosen;
    assert Positive(chosen);
    kept := Trim(chosen);
    if chosen != [] {
      KeptNonEmpty(chosen, kept);
    }
  }

  /** The scoring window of the table: non-empty, inside the tracks, holding every piece. */
  method Window(keys: seq<seq<Interval>>, pieces: map<seq<Interval>, Piece>, irs: seq<InvRepeat>, ghost size: int)
    returns (window: Interval)
    requires keys != [] && KeyedTable(keys, pieces) && irs == Values(keys, pieces)
    requires forall key :: key in pieces ==> ValidRepeat(pieces[key].dsRNA) && Inside(pieces[key].dsRNA, 0, size)
    ensures 0 <= window.start < window.end <= size
    ensures forall i :: 0 <= i < |irs| ==> Inside(irs[i], window.start, window.end)
  {
    KeysBracket(keys, pieces, irs, size);
    window := KeySpan(keys);
    WindowInside(keys, irs, size, window);
  }

  /** Each key starts with its repeat's first left arm and ends with its first right arm. */
  lemma KeysBracket(keys: seq<seq<Interval>>, pieces: map<seq<Interval>, Piece>, irs: seq<InvRepeat>, size: int)
    requires KeyedTable(keys, pieces) && irs == Values(keys, pieces)
    requires forall key :: key in pieces ==> ValidRepeat(pieces[key].dsRNA) && Inside(pieces[key].dsRNA, 0, size)
    ensures forall i :: 0 <= i < |keys| ==> (ValidRepeat(irs[i]) && Inside(irs[i], 0, size) && |keys[i]| > 0 &&
      keys[i][0] == irs[i].segments[0].left && keys[i][|keys[i]| - 1] == irs[i].segments[0].right)
  {
    forall i | 0 <= i < |keys| ensures ValidRepeat(irs[i]) && Inside(irs[i], 0, size) && |keys[i]| > 0 &&
      keys[i][0] == irs[i].segments[0].left && keys[i][|keys[i]| - 1] == irs[i].segments[0].right
    {
      assert keys[i] in pieces;
      KeyEnds(irs[i]);
    }
  }

  lemma WindowInside(keys: seq<seq<Interval>>, irs: seq<InvRepeat>, size: int, window: Interval)
    requires keys != [] && |irs| == |keys|
    requires forall i :: 0 <= i < |keys| ==> (ValidRepeat(irs[i]) && Inside(irs[i], 0, size) && |keys[i]| > 0 &&
      keys[i][0] == irs[i].segments[0].left && keys[i][|keys[i]| - 1] == irs[i].segments[0].right)
    requires window == KeySpan(keys)
    ensures 0 <= window.start < window.end <= size
    ensures forall i :: 0 <= i < |irs| ==> Inside(irs[i], window.start, window.end)
  {
    assert ValidSegment(irs[0].segments[0]);
    var a :| 0 <= a < |keys| && window.start == keys[a][0].start;
    var b :| 0 <= b < |keys| && window.end == keys[b][|keys[b]| - 1].end;
    assert Inside(irs[a], 0, size) && Inside(irs[b], 0, size);
  }

  lemma {:induction false} ScorableValues(st: ScoreState, irs: seq<InvRepeat>, window: Interval)
    requires st.Valid() && st.start == window.start && st.end == window.end
    requires forall i :: 0 <= i < |irs| ==> ValidRepeat(irs[i]) && Inside(irs[i], window.start, window.end)
    ensures Scorable(st, irs)
  {
    forall i | 0 <= i < |irs| ensures SegmentsInWindow(st.scores.Length, st.start, irs[i].segments) {
      ArmsInside(irs[i], window.start, window.end);
    }
  }

  /** The prefiltered candidates are pieces of the table that fit the window. */
  lemma {:induction false} CandidatesFit(st: ScoreState, irs: seq<InvRepeat>, unresolved: seq<Scored>,
                                         candidates: seq<Scored>, maxscore: real)
    requires st.Valid() && Irs(unresolved) == irs
    requires forall i :: 0 <= i < |irs| ==> ValidRepeat(irs[i]) && SegmentsInWindow(st.scores.Length, st.start, irs[i].segments)
    requires candidates == Prefilter(unresolved, maxscore)
    ensures Fits(st.scores.Length, st.start, candidates)
    ensures multiset(Irs(candidates)) <= multiset(irs)
  {
    forall x | x in candidates ensures ValidRepeat(x.1) && SegmentsInWindow(st.scores.Length, st.start, x.1.segments) {
      var i :| 0 <= i < |unresolved| && unresolved[i] == x;
      assert irs[i] == x.1;
    }
    SecondsSubMultiset(candidates, unresolved);
  }

  /**
   * The rounds over the prefiltered candidates open with the best initial
   * score, and choose nothing exactly when that score is below `1e-32`.
   */
  lemma {:induction false} BestChosen(st: ScoreState, buf: seq<real>, irs: seq<InvRepeat>, unresolved: seq<Scored>,
                                      best: real, candidates: seq<Scored>)
    requires st.Valid() && st.maxOverlap > 0 && buf == st.scores[..] && Scorable(st, irs)
    requires unresolved == Initial(st, irs) && unresolved != []
    requires best == MaxScore(unresolved) && candidates == Prefilter(unresolved, best)
    requires Fits(|buf|, st.start, candidates) && multiset(Irs(candidates)) <= multiset(irs)
    ensures var solution := Rounds(st, buf, candidates, best);
      (solution != [] <==> best >= Tiny) && (solution != [] ==> solution[0].0 == best)
  {
    RoundsFirst(st, buf, candidates, best);
    var cache := Rescored(st, buf, candidates, best);
    forall x | x in cache ensures x.0 <= best {
      assert x.1 in multiset(Irs(candidates));
      var j :| 0 <= j < |irs| && irs[j] == x.1;
      assert unresolved[j].0 == st.Score(irs[j]) <= best;
    }
    if best >= Tiny {
      var i :| 0 <= i < |unresolved| && unresolved[i].0 == best;
      assert unresolved[i] in candidates;
      RescoredKeeps(st, buf, candidates, best, unresolved[i]);
    }
  }

  /** Trimming a non-empty solution of positive scores keeps at least its best candidate. */
  lemma {:induction false} KeptNonEmpty(solution: seq<Scored>, kept: seq<Scored>)
    requires Positive(solution) && solution != []
    requires Total(kept) >= 0.9 * Total(Descending(solution))
    ensures kept != []
  {
    var sorted := Descending(solution);
    PositiveSorted(sorted, solution);
    TotalPrefix(sorted, 0, |sorted|);
    assert sorted[..0] == [] && sorted[..|sorted|] == sorted;
  }

  /** What is kept was among the candidates, so it is among the distinct pieces, once each. */
  lemma {:induction false} KeptDistinct(irs: seq<InvRepeat>, candidates: seq<Scored>, solution: seq<Scored>, kept: seq<Scored>)
    requires Distinct(irs) && multiset(Irs(candidates)) <= multiset(irs)
    requires multiset(Irs(solution)) <= multiset(Irs(candidates))
    requires |kept| <= |solution| && kept == Descending(solution)[..|kept|]
    ensures multiset(Irs(kept)) <= multiset(irs) && Distinct(Irs(kept))
  {
    var sorted := Descending(solution);
    assert sorted == kept + sorted[|kept|..];
    assert multiset(kept) <= multiset(sorted);
    SecondsSubMultiset(kept, solution);
    DistinctCounts(irs);
    DistinctCounts(Irs(kept));
  }

  /** `(ir, pieces[tuple(ir.seqranges())]['origin']) for _, ir in solution`. */
  function Report(pieces: map<seq<Interval>, Piece>, kept: seq<Scored>): (r: seq<Hit>)
    requires forall i :: 0 <= i < |kept| ==> SeqRanges(kept[i].1) in pieces
    ensures |r| == |kept| && forall i :: 0 <= i < |kept| ==> r[i].0 == kept[i].1
  {
    seq(|kept|, i requires 0 <= i < |kept| => (kept[i].1, pieces[SeqRanges(kept[i].1)].origin))
  }

  /** Every kept candidate is a piece of the table, so it is reported with the origins the table gave it. */
  lemma {:induction false} ReportFromGroup(dsRNA: seq<InvRepeat>, payload: seq<int>, smpeaks: seq<Interval>,
                                           keys: seq<seq<Interval>>, pieces: map<seq<Interval>, Piece>,
                                           irs: seq<InvRepeat>, kept: seq<Scored>)
    requires ValidPayload(dsRNA, payload) && payload != []
    requires KeyedTable(keys, pieces) && irs == Values(keys, pieces)
    requires forall key :: key in pieces ==> ValidRepeat(pieces[key].dsRNA)
    requires forall key :: key in pieces ==>
      CutBefore(Cuts(dsRNA, payload, PIndex(dsRNA, payload, smpeaks)), pieces[key].dsRNA, |payload|)
    requires forall key :: key in pieces ==>
      pieces[key].origin == Origins(Cuts(dsRNA, payload, PIndex(dsRNA, payload, smpeaks)), payload, pieces[key].dsRNA, |payload|)
    requires multiset(Irs(kept)) <= multiset(irs)
    ensures forall i :: 0 <= i < |kept| ==> SeqRanges(kept[i].1) in pieces
    ensures forall i :: 0 <= i < |kept| ==> FromGroup(dsRNA, payload, smpeaks, Report(pieces, kept)[i])
    ensures Distinct(Irs(kept)) ==> forall i, j :: 0 <= i < j < |kept| ==> Report(pieces, kept)[i].0 != Report(pieces, kept)[j].0
  {
    KeptInTable(keys, pieces, irs, kept);
    var r := Report(pieces, kept);
    forall i | 0 <= i < |kept| ensures FromGroup(dsRNA, payload, smpeaks, r[i]) {
      var key := SeqRanges(kept[i].1);
      assert r[i] == (pieces[key].dsRNA, pieces[key].origin);
    }
    if Distinct(Irs(kept)) {
      forall i, j | 0 <= i < j < |kept| ensures r[i].0 != r[j].0 {
        assert Irs(kept)[i] == r[i].0 && Irs(kept)[j] == r[j].0;
      }
    }
  }

  /** A kept candidate is a value of the table, filed under its own blocks. */
  lemma KeptInTable(keys: seq<seq<Interval>>, pieces: map<seq<Interval>, Piece>, irs: seq<InvRepeat>, kept: seq<Scored>)
    requires KeyedTable(keys, pieces) && irs == Values(keys, pieces)
    requires multiset(Irs(kept)) <= multiset(irs)
    ensures forall i :: 0 <= i < |kept| ==>
      SeqRanges(kept[i].1) in pieces && pieces[SeqRanges(kept[i].1)].dsRNA == kept[i].1
  {
    forall i | 0 <= i < |kept|
      ensures SeqRanges(kept[i].1) in pieces && pieces[SeqRanges(kept[i].1)].dsRNA == kept[i].1
    {
      assert Irs(kept)[i] in multiset(Irs(kept));
      assert kept[i].1 in irs;
      var j :| 0 <= j < |irs| && irs[j] == kept[i].1;
      assert keys[j] in pieces;
    }
  }

  // ---------------------------------------------------------------------
  // One contig and strand

  /** Every unit names a repeat of the list. */
  lemma {:induction false} UnitIndices(dsRNA: seq<InvRepeat>)
    requires forall i :: 0 <= i < |dsRNA| ==> |dsRNA[i].segments| > 0
    ensures forall i :: 0 <= i < |Units(dsRNA)| ==> 0 <= Units(dsRNA)[i].0 < |dsRNA|
  {
    var u, all := Units(dsRNA), UnitsOf(dsRNA);
    forall i | 0 <= i < |u| ensures 0 <= u[i].0 < |dsRNA| {
      assert u[i] in multiset(all);
      var j :| 0 <= j < |all| && all[j] == u[i];
      var k := Halve(j);
    }
  }

  /**
   * The graph `optimize` splits into groups: repeats `a` and `b` are joined
   * iff some arm envelope of `a` is followed, within `maxDistance`, by an
   * envelope of `b`.
   */
  ghost function Proximity(dsRNA: seq<InvRepeat>, maxDistance: int): (adj: seq<seq<bool>>)
    requires forall k :: 0 <= k < |dsRNA| ==> ValidRepeat(dsRNA[k])
    ensures |adj| == |dsRNA| && Square(adj)
  {
    assert forall i :: 0 <= i < |dsRNA| ==> |dsRNA[i].segments| > 0 by {
      forall i | 0 <= i < |dsRNA| ensures |dsRNA[i].segments| > 0 {
        assert ValidRepeat(dsRNA[i]);
      }
    }
    var u := Units(dsRNA);
    seq(|dsRNA|, a => seq(|dsRNA|, b => LinkedBefore(u, maxDistance, |u|, a, b)))
  }

  /**
   * `optimize` for one contig and strand: the repeats are grouped by
   * proximity of their arm envelopes and every group is optimized on its
   * own. Every result is a piece of one group (`owner` says which), reported
   * with the group's repeats it was cut from; the groups split the repeats.
   */
  method Optimize(tracks: ExperimentTracks, dsRNA: seq<InvRepeat>, smpeaks: seq<Interval>,
                  insulators: seq<(int, int)>, maxDistance: int)
    returns (results: seq<Hit>, ghost groups: seq<seq<int>>, ghost owner: seq<int>)
    requires forall k :: 0 <= k < |dsRNA| ==> ValidRepeat(dsRNA[k])
    requires forall k :: 0 <= k < |dsRNA| ==> Inside(dsRNA[k], 0, |tracks.signal|) && Inside(dsRNA[k], 0, |tracks.control|)
    ensures forall i :: 0 <= i < |dsRNA| ==> InSomeGroup(groups, i)
    ensures forall g, h, i :: 0 <= g < |groups| && 0 <= h < |groups| && i in groups[g] && i in groups[h] ==> g == h
    ensures var adj := Proximity(dsRNA, maxDistance);
      forall g, a, b :: 0 <= g < |groups| && a in groups[g] && Linked(adj, a, b) ==> b in groups[g]
    ensures var adj := Proximity(dsRNA, maxDistance);
      forall g, a, b :: 0 <= g < |groups| && a in groups[g] && b in groups[g] ==> Connected(adj, a, b)
    ensures |owner| == |results|
    ensures forall k :: 0 <= k < |results| ==>
      0 <= owner[k] < |groups| && groups[owner[k]] != [] && ValidPayload(dsRNA, groups[owner[k]]) &&
      FromGroup(dsRNA, groups[owner[k]], smpeaks, results[k])
    ensures forall k, l :: 0 <= k < l < |results| && owner[k] == owner[l] ==> results[k].0 != results[l].0
  {
    var units := Units(dsRNA);
    UnitIndices(dsRNA);
    var connections := Link(units, |dsRNA|, maxDistance);
    assert connections == Proximity(dsRNA, maxDistance) by {
      var adj := Proximity(dsRNA, maxDistance);
      forall a | 0 <= a < |dsRNA| ensures connections[a] == adj[a] {
        assert |connections[a]| == |adj[a]|;
      }
    }
    var comps := Components(connections);
    groups := comps;
    assert forall g :: 0 <= g < |groups| ==> ValidPayload(dsRNA, groups[g]);
    results, owner := [], [];
    for g := 0 to |comps|
      invariant |owner| == |results|
      invariant forall k :: 0 <= k < |results| ==>
        0 <= owner[k] < g && groups[owner[k]] != [] && ValidPayload(dsRNA, groups[owner[k]]) &&
        FromGroup(dsRNA, groups[owner[k]], smpeaks, results[k])
      invariant forall k, l :: 0 <= k < l < |results| && owner[k] == owner[l] ==> results[k].0 != results[l].0
    {
      results, owner := AddGroup(tracks, dsRNA, smpeaks, insulators, comps, g, results, owner);
    }
  }

  /** One round of the loop over the groups: group `g`'s hits are appended, each owned by `g`. */
  method AddGroup(tracks: ExperimentTracks, dsRNA: seq<InvRepeat>, smpeaks: seq<Interval>, insulators: seq<(int, int)>,
                  groups: seq<seq<int>>, g: int, results0: seq<Hit>, ghost owner0: seq<int>)
    returns (results: seq<Hit>, ghost owner: seq<int>)
    requires 0 <= g < |groups| && groups[g] != [] && ValidPayload(dsRNA, groups[g])
    requires forall k :: 0 <= k < |dsRNA| ==> Inside(dsRNA[k], 0, |tracks.signal|) && Inside(dsRNA[k], 0, |tracks.control|)
    requires |owner0| == |results0|
    requires forall k :: 0 <= k < |results0| ==>
      0 <= owner0[k] < g && groups[owner0[k]] != [] && ValidPayload(dsRNA, groups[owner0[k]]) &&
      FromGroup(dsRNA, groups[owner0[k]], smpeaks, results0[k])
    requires forall k, l :: 0 <= k < l < |results0| && owner0[k] == owner0[l] ==> results0[k].0 != results0[l].0
    ensures |owner| == |results|
    ensures forall k :: 0 <= k < |results| ==>
      0 <= owner[k] < g + 1 && groups[owner[k]] != [] && ValidPayload(dsRNA, groups[owner[k]]) &&
      FromGroup(dsRNA, groups[owner[k]], smpeaks, results[k])
    ensures forall k, l :: 0 <= k < l < |results| && owner[k] == owner[l] ==> results[k].0 != results[l].0
  {
    var hits, kept;
    ghost var solution, maxscore;
    hits, kept, solution, maxscore := OptimizeGroup(tracks, dsRNA, groups[g], smpeaks, insulators);
    DistinctPerOwner(results0, owner0, hits, g);
    OwnedPerGroup(dsRNA, smpeaks, groups, g, results0, owner0, hits);
    owner := owner0 + seq(|hits|, _ => g);
    results := results0 + hits;
  }

  /** Appending hits of group `g` keeps every hit a piece of the group that owns it. */
  lemma OwnedPerGroup(dsRNA: seq<InvRepeat>, smpeaks: seq<Interval>, groups: seq<seq<int>>, g: int,
                      results: seq<Hit>, owner: seq<int>, hits: seq<Hit>)
    requires 0 <= g < |groups| && groups[g] != [] && ValidPayload(dsRNA, groups[g])
    requires |owner| == |results|
    requires forall k :: 0 <= k < |results| ==>
      0 <= owner[k] < g && groups[owner[k]] != [] && ValidPayload(dsRNA, groups[owner[k]]) &&
      FromGroup(dsRNA, groups[owner[k]], smpeaks, results[k])
    requires forall i :: 0 <= i < |hits| ==> FromGroup(dsRNA, groups[g], smpeaks, hits[i])
    ensures var r, o := results + hits, owner + seq(|hits|, _ => g);
      forall k :: 0 <= k < |r| ==>
        0 <= o[k] < g + 1 && groups[o[k]] != [] && ValidPayload(dsRNA, groups[o[k]]) &&
        FromGroup(dsRNA, groups[o[k]], smpeaks, r[k])
  {
    var r, o := results + hits, owner + seq(|hits|, _ => g);
    forall k | 0 <= k < |r|
      ensures 0 <= o[k] < g + 1 && groups[o[k]] != [] && ValidPayload(dsRNA, groups[o[k]]) &&
        FromGroup(dsRNA, groups[o[k]], smpeaks, r[k])
    {
      if k < |results| {
        assert o[k] == owner[k] && r[k] == results[k];
      } else {
        assert o[k] == g && r[k] == hits[k - |results|];
      }
    }
  }

  /** Appending the distinct hits of a new group keeps the hits of each group distinct. */
  lemma DistinctPerOwner(results: seq<Hit>, owner: seq<int>, hits: seq<Hit>, g: int)
    requires |owner| == |results| && forall k :: 0 <= k < |owner| ==> owner[k] < g
    requires forall k, l :: 0 <= k < l < |results| && owner[k] == owner[l] ==> results[k].0 != results[l].0
    requires forall i, j :: 0 <= i < j < |hits| ==> hits[i].0 != hits[j].0
    ensures var r, o := results + hits, owner + seq(|hits|, _ => g);
      forall k, l :: 0 <= k < l < |r| && o[k] == o[l] ==> r[k].0 != r[l].0
  {
    var r, o := results + hits, owner + seq(|hits|, _ => g);
    forall k, l | 0 <= k < l < |r| && o[k] == o[l] ensures r[k].0 != r[l].0 {
      if l < |results| {
      } else if k >= |results| {
        assert r[k] == hits[k - |results|] && r[l] == hits[l - |results|];
      } else {
        assert false;
      }
    }
  }
}
