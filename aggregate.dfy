// The aggregation after `optimize` (stories/RIP/clustering/dsRNA-filtering.py):
// every selected piece is credited to each predicted repeat it was cut from,
// per contig, strand and blocks; then each repeat keeps the consensus of its
// pieces that enough samples agree on.
module Aggregation {
  import opened Common
  import opened Intervals
  import opened InvRepeats
  import opened Consensus
  import opened Optimization

  /** A contig and strand, `(seqid, orientation)`. */
  type Contig = (string, Strand)

  /** A record key, `(seqid, orientation, *rna.seqranges())`. */
  type Key = (Contig, seq<Interval>)

  /** A predicted repeat with the pieces credited to it (`{'dsRNA': ..., 'solutions': [...]}`). */
  datatype Record = Record(dsRNA: InvRepeat, solutions: seq<InvRepeat>)

  /** One result of `optimize`: its contig and strand, and the selected pieces with their origins. */
  type Run = (Contig, seq<Hit>)

  /** A piece credited to repeat `ind` of a contig. */
  datatype Vote = Vote(contig: Contig, ind: int, ir: InvRepeat)

  /** The records in insertion order, and the records themselves. */
  datatype Table = Table(order: seq<Key>, records: map<Key, Record>)

  // ---------------------------------------------------------------------
  // The credits, in loop order

  /** One credit per origin of a piece. */
  function IndVotes(c: Contig, inds: seq<int>, ir: InvRepeat): (r: seq<Vote>)
    ensures |r| == |inds| && forall i :: 0 <= i < |inds| ==> r[i] == Vote(c, inds[i], ir)
  {
    seq(|inds|, i requires 0 <= i < |inds| => Vote(c, inds[i], ir))
  }

  /** The credits of the pieces of one run, piece after piece. */
  function HitVotes(c: Contig, hits: seq<Hit>): seq<Vote>
  {
    if hits == [] then []
    else HitVotes(c, hits[..|hits| - 1]) + IndVotes(c, hits[|hits| - 1].1, hits[|hits| - 1].0)
  }

  /** The credits of all runs, run after run. */
  function Votes(runs: seq<Run>): seq<Vote>
  {
    if runs == [] then []
    else Votes(runs[..|runs| - 1]) + HitVotes(runs[|runs| - 1].0, runs[|runs| - 1].1)
  }

  /** Every origin of every run names a predicted repeat of its contig. */
  predicate Indexed(dsRNA: map<Contig, seq<InvRepeat>>, runs: seq<Run>)
  {
    forall r :: 0 <= r < |runs| ==> HitsIndexed(dsRNA, runs[r].0, runs[r].1)
  }

  /** Every origin of every piece names a predicted repeat of contig `c`. */
  predicate HitsIndexed(dsRNA: map<Contig, seq<InvRepeat>>, c: Contig, hits: seq<Hit>)
  {
    forall h :: 0 <= h < |hits| ==> c in dsRNA && forall i :: 0 <= i < |hits[h].1| ==> 0 <= hits[h].1[i] < |dsRNA[c]|
  }

  /** The vote names a predicted repeat. */
  predicate Names(dsRNA: map<Contig, seq<InvRepeat>>, v: Vote)
  {
    v.contig in dsRNA && 0 <= v.ind < |dsRNA[v.contig]|
  }

  /** The record a vote goes to. */
  function KeyOf(dsRNA: map<Contig, seq<InvRepeat>>, v: Vote): Key
    requires Names(dsRNA, v)
  {
    (v.contig, SeqRanges(dsRNA[v.contig][v.ind]))
  }

  // ---------------------------------------------------------------------
  // The records

  /** The loop body: credit `v.ir` to the record of repeat `v.ind`, creating the record on first sight. */
  function Tally(t: Table, dsRNA: map<Contig, seq<InvRepeat>>, v: Vote): Table
  {
    if !Names(dsRNA, v) then t
    else
      var rna := dsRNA[v.contig][v.ind];
      var key := (v.contig, SeqRanges(rna));
      if key in t.records then
        Table(t.order, t.records[key := Record(t.records[key].dsRNA, t.records[key].solutions + [v.ir])])
      else
        Table(t.order + [key], t.records[key := Record(rna, [v.ir])])
  }

  /** The records after the votes, in order, starting from none. */
  function TallyAll(dsRNA: map<Contig, seq<InvRepeat>>, votes: seq<Vote>): Table
  {
    if votes == [] then Table([], map[])
    else Tally(TallyAll(dsRNA, votes[..|votes| - 1]), dsRNA, votes[|votes| - 1])
  }

  /** The pieces credited to `key`, in vote order. */
  function Credited(dsRNA: map<Contig, seq<InvRepeat>>, votes: seq<Vote>, key: Key): seq<InvRepeat>
  {
    if votes == [] then []
    else
      var v := votes[|votes| - 1];
      Credited(dsRNA, votes[..|votes| - 1], key) + (if Names(dsRNA, v) && KeyOf(dsRNA, v) == key then [v.ir] else [])
  }

  /**
   * The table the votes build: its order lists each record once; a record
   * exists exactly for the keys some vote credits; it holds a predicted
   * repeat with those blocks and every piece credited to it, in order.
   */
  ghost predicate Tallied(dsRNA: map<Contig, seq<InvRepeat>>, votes: seq<Vote>, t: Table)
  {
    (forall key :: key in t.records <==> key in t.order) &&
    Distinct(t.order) &&
    (forall key :: key in t.records <==> Credited(dsRNA, votes, key) != []) &&
    (forall key :: key in t.records ==>
       key.0 in dsRNA && t.records[key].dsRNA in dsRNA[key.0] && SeqRanges(t.records[key].dsRNA) == key.1 &&
       t.records[key].solutions == Credited(dsRNA, votes, key))
  }

  lemma {:induction false} TallyAllSpec(dsRNA: map<Contig, seq<InvRepeat>>, votes: seq<Vote>)
    ensures Tallied(dsRNA, votes, TallyAll(dsRNA, votes))
    decreases |votes|
  {
    if votes != [] {
      var n := |votes| - 1;
      TallyAllSpec(dsRNA, votes[..n]);
      TallyStep(dsRNA, votes[..n], votes[n], TallyAll(dsRNA, votes[..n]));
      assert votes[..n] + [votes[n]] == votes;
    }
  }

  lemma {:induction false} TallyStep(dsRNA: map<Contig, seq<InvRepeat>>, votes: seq<Vote>, v: Vote, t: Table)
    requires Tallied(dsRNA, votes, t)
    ensures Tallied(dsRNA, votes + [v], Tally(t, dsRNA, v))
  {
    var all := votes + [v];
    assert all[..|votes|] == votes;
    var t' := Tally(t, dsRNA, v);
    if Names(dsRNA, v) {
      var key := KeyOf(dsRNA, v);
      assert dsRNA[v.contig][v.ind] in dsRNA[v.contig];
      forall k ensures Credited(dsRNA, all, k) == Credited(dsRNA, votes, k) + (if k == key then [v.ir] else []) {
      }
      if key !in t.records {
        forall i, j | 0 <= i < j < |t'.order| ensures t'.order[i] != t'.order[j] {
          if j == |t.order| {
            assert t'.order[i] == t.order[i];
            assert t.order[i] in t.records;
          }
        }
      }
    } else {
      forall k ensures Credited(dsRNA, all, k) == Credited(dsRNA, votes, k) {
      }
    }
  }

  // ---------------------------------------------------------------------
  // The loops

  lemma {:induction false} TallyAllSnoc(dsRNA: map<Contig, seq<InvRepeat>>, votes: seq<Vote>, v: Vote)
    ensures TallyAll(dsRNA, votes + [v]) == Tally(TallyAll(dsRNA, votes), dsRNA, v)
  {
    assert (votes + [v])[..|votes|] == votes;
  }

  /** With every origin in range, every credit names a predicted repeat: none is dropped. */
  lemma {:induction false} VotesNamed(dsRNA: map<Contig, seq<InvRepeat>>, runs: seq<Run>)
    requires Indexed(dsRNA, runs)
    ensures forall i :: 0 <= i < |Votes(runs)| ==> Names(dsRNA, Votes(runs)[i])
    decreases |runs|
  {
    if runs != [] {
      var n := |runs| - 1;
      assert forall r :: 0 <= r < n ==> runs[..n][r] == runs[r];
      VotesNamed(dsRNA, runs[..n]);
      HitVotesNamed(dsRNA, runs[n].0, runs[n].1);
    }
  }

  lemma {:induction false} HitVotesNamed(dsRNA: map<Contig, seq<InvRepeat>>, c: Contig, hits: seq<Hit>)
    requires HitsIndexed(dsRNA, c, hits)
    ensures forall i :: 0 <= i < |HitVotes(c, hits)| ==> Names(dsRNA, HitVotes(c, hits)[i])
    decreases |hits|
  {
    if hits != [] {
      var n := |hits| - 1;
      assert forall h :: 0 <= h < n ==> hits[..n][h] == hits[h];
      HitVotesNamed(dsRNA, c, hits[..n]);
    }
  }

  /** The loop over the runs, their pieces and the pieces' origins. */
  method Aggregate(runs: seq<Run>, dsRNA: map<Contig, seq<InvRepeat>>) returns (t: Table)
    requires Indexed(dsRNA, runs)
    ensures t == TallyAll(dsRNA, Votes(runs))
    ensures Tallied(dsRNA, Votes(runs), t)
    ensures forall i :: 0 <= i < |Votes(runs)| ==> Names(dsRNA, Votes(runs)[i])
  {
    VotesNamed(dsRNA, runs);
    t := Table([], map[]);
    for r := 0 to |runs|
      invariant t == TallyAll(dsRNA, Votes(runs[..r]))
    {
      assert runs[..r + 1][..r] == runs[..r];
      t := AggregateRun(Votes(runs[..r]), t, dsRNA, runs[r].0, runs[r].1);
    }
    assert runs[..|runs|] == runs;
    TallyAllSpec(dsRNA, Votes(runs));
  }

  /** The pieces of one run. */
  method AggregateRun(ghost done: seq<Vote>, t0: Table, dsRNA: map<Contig, seq<InvRepeat>>, c: Contig, solution: seq<Hit>)
    returns (t: Table)
    requires t0 == TallyAll(dsRNA, done)
    ensures t == TallyAll(dsRNA, done + HitVotes(c, solution))
  {
    t := t0;
    assert done + HitVotes(c, solution[..0]) == done;
    for h := 0 to |solution|
      invariant t == TallyAll(dsRNA, done + HitVotes(c, solution[..h]))
    {
      assert solution[..h + 1][..h] == solution[..h];
      assert done + HitVotes(c, solution[..h + 1]) == done + HitVotes(c, solution[..h]) + IndVotes(c, solution[h].1, solution[h].0);
      t := AggregateHit(done + HitVotes(c, solution[..h]), t, dsRNA, c, solution[h].0, solution[h].1);
    }
    assert solution[..|solution|] == solution;
  }

  /** The origins of one piece. */
  method AggregateHit(ghost done: seq<Vote>, t0: Table, dsRNA: map<Contig, seq<InvRepeat>>, c: Contig, ir: InvRepeat, inds: seq<int>)
    returns (t: Table)
    requires t0 == TallyAll(dsRNA, done)
    ensures t == TallyAll(dsRNA, done + IndVotes(c, inds, ir))
  {
    t := t0;
    assert done + IndVotes(c, inds[..0], ir) == done;
    for i := 0 to |inds|
      invariant t == TallyAll(dsRNA, done + IndVotes(c, inds[..i], ir))
    {
      assert done + IndVotes(c, inds[..i + 1], ir) == done + IndVotes(c, inds[..i], ir) + [Vote(c, inds[i], ir)];
      TallyAllSnoc(dsRNA, done + IndVotes(c, inds[..i], ir), Vote(c, inds[i], ir));
      t := Tally(t, dsRNA, Vote(c, inds[i], ir));
    }
    assert inds[..|inds|] == inds;
  }

  // ---------------------------------------------------------------------
  // Replication filter

  /** `filter_segments` keeps something of the record: some elementary piece has enough support. */
  predicate Passes(rec: Record, minSamples: int)
  {
    var mapped := Mapped(rec.dsRNA, rec.solutions);
    AnyReplicated(mapped, SortedSet(EndpointList(mapped)), minSamples)
  }

  /** Every key of the insertion order has its record. */
  predicate Complete(t: Table)
  {
    forall i :: 0 <= i < |t.order| ==> t.order[i] in t.records
  }

  /** `v[i]` is the verdict of `filter_segments` on the `i`-th record of the insertion order. */
  predicate JudgedAt(t: Table, minSamples: int, v: seq<bool>, i: int)
  {
    0 <= i < |v| && i < |t.order| && t.order[i] in t.records &&
    v[i] == Passes(t.records[t.order[i]], minSamples)
  }

  /** `v` holds the verdicts on the first `|v|` records. */
  predicate JudgedUpTo(t: Table, minSamples: int, v: seq<bool>)
  {
    |v| <= |t.order| && forall i :: 0 <= i < |v| ==> JudgedAt(t, minSamples, v, i)
  }

  /** `v` holds the verdict on every record, in insertion order. */
  predicate Judged(t: Table, minSamples: int, v: seq<bool>)
  {
    |v| == |t.order| && JudgedUpTo(t, minSamples, v)
  }

  /** The contig of each record, in insertion order. */
  function Contigs(t: Table): (r: seq<Contig>)
    ensures |r| == |t.order| && forall i :: 0 <= i < |t.order| ==> r[i] == t.order[i].0
  {
    seq(|t.order|, i requires 0 <= i < |t.order| => t.order[i].0)
  }

  /** The pairs of `a` and `b` up to the shorter of the two (`zip`). */
  function Zip<A, B>(a: seq<A>, b: seq<B>): (r: seq<(A, B)>)
    ensures |r| == if |a| <= |b| then |a| else |b|
    ensures forall i :: 0 <= i < |r| ==> r[i] == (a[i], b[i])
  {
    var n := if |a| <= |b| then |a| else |b|;
    seq(n, i requires 0 <= i < n => (a[i], b[i]))
  }

  /** What `filter_segments` returned on one record: the repeats and their tags. */
  type Filing = (seq<InvRepeat>, seq<string>)

  /** The first `k` filings, in insertion order, are what `filter_segments` returns on their records. */
  ghost predicate FiledUpTo(t: Table, minSamples: int, filed: seq<Filing>, k: int)
  {
    Complete(t) && 0 <= k <= |t.order| && |filed| == k &&
    forall i :: 0 <= i < k ==>
      ValidRepeat(t.records[t.order[i]].dsRNA) &&
      Filtered(t.records[t.order[i]].dsRNA, t.records[t.order[i]].solutions, minSamples, filed[i].0, filed[i].1)
  }

  /** The pairs the first `k` filings file under contig `c`, in insertion order. */
  function FiledOn(t: Table, filed: seq<Filing>, k: nat, c: Contig): seq<(InvRepeat, string)>
    requires k <= |t.order| && k <= |filed|
  {
    if k == 0 then []
    else FiledOn(t, filed, k - 1, c) + if t.order[k - 1].0 == c then Zip(filed[k - 1].0, filed[k - 1].1) else []
  }

  /** The entries of contig `c`, none if it has none yet (`defaultdict(list)`). */
  function Entries(result: map<Contig, seq<(InvRepeat, string)>>, c: Contig): seq<(InvRepeat, string)>
  {
    if c in result then result[c] else []
  }

  /**
   * The loop over the records in insertion order: each record's
   * consensus, if any, is filed under its contig with its tag. `after`
   * counts the records that kept something, and each contig gets one
   * entry per such record of its own; `verdicts` records which records
   * kept something.
   */
  method Consolidate(t: Table, minReplication: int)
    returns (result: map<Contig, seq<(InvRepeat, string)>>, after: nat, ghost verdicts: seq<bool>, ghost filed: seq<Filing>)
    requires Complete(t)
    requires forall i :: 0 <= i < |t.order| ==> ValidRepeat(t.records[t.order[i]].dsRNA)
    ensures Judged(t, minReplication, verdicts)
    ensures after == CountTrue(verdicts, |t.order|)
    ensures forall c :: |Entries(result, c)| == CountOn(Contigs(t), verdicts, |t.order|, c)
    ensures FiledUpTo(t, minReplication, filed, |t.order|)
    ensures forall c :: Entries(result, c) == FiledOn(t, filed, |t.order|, c)
  {
    result, after, verdicts, filed := map[], 0, [], [];
    for k := 0 to |t.order|
      invariant |verdicts| == k && JudgedUpTo(t, minReplication, verdicts)
      invariant after == CountTrue(verdicts, k)
      invariant forall c :: |Entries(result, c)| == CountOn(Contigs(t), verdicts, k, c)
      invariant FiledUpTo(t, minReplication, filed, k)
      invariant forall c :: Entries(result, c) == FiledOn(t, filed, k, c)
    {
      result, after, verdicts, filed := FileNext(t, minReplication, k, result, after, verdicts, filed);
    }
  }

  /** The loop body: the `k`-th record is filed, counted and judged. */
  method FileNext(t: Table, minReplication: int, k: int, result0: map<Contig, seq<(InvRepeat, string)>>, after0: nat,
                  ghost verdicts0: seq<bool>, ghost filed0: seq<Filing>)
    returns (result: map<Contig, seq<(InvRepeat, string)>>, after: nat, ghost verdicts: seq<bool>, ghost filed: seq<Filing>)
    requires Complete(t) && 0 <= k < |t.order|
    requires ValidRepeat(t.records[t.order[k]].dsRNA)
    requires |verdicts0| == k && JudgedUpTo(t, minReplication, verdicts0)
    requires after0 == CountTrue(verdicts0, k)
    requires forall c :: |Entries(result0, c)| == CountOn(Contigs(t), verdicts0, k, c)
    requires FiledUpTo(t, minReplication, filed0, k)
    requires forall c :: Entries(result0, c) == FiledOn(t, filed0, k, c)
    ensures |verdicts| == k + 1 && JudgedUpTo(t, minReplication, verdicts)
    ensures after == CountTrue(verdicts, k + 1)
    ensures forall c :: |Entries(result, c)| == CountOn(Contigs(t), verdicts, k + 1, c)
    ensures FiledUpTo(t, minReplication, filed, k + 1)
    ensures forall c :: Entries(result, c) == FiledOn(t, filed, k + 1, c)
  {
    var key := t.order[k];
    var solution, tag, passed;
    solution, tag, passed, verdicts := Judge(t, minReplication, k, verdicts0);
    CountSnoc(Contigs(t), verdicts0, passed);
    result, after := File(result0, after0, key, solution, tag, passed);
    filed := filed0 + [(solution, tag)];
    FiledSnoc(t, minReplication, filed0, solution, tag);
    FiledStep(t, filed0, solution, tag, passed, result0, result);
    CountedStep(t, verdicts0, passed, result0, result);
  }

  /** The counts after filing the next record. */
  lemma CountedStep(t: Table, verdicts0: seq<bool>, passed: bool,
                    result0: map<Contig, seq<(InvRepeat, string)>>, result: map<Contig, seq<(InvRepeat, string)>>)
    requires |verdicts0| < |t.order|
    requires forall c :: |Entries(result0, c)| == CountOn(Contigs(t), verdicts0, |verdicts0|, c)
    requires forall c :: |Entries(result, c)| == |Entries(result0, c)| + if c == t.order[|verdicts0|].0 && passed then 1 else 0
    ensures forall c :: |Entries(result, c)| == CountOn(Contigs(t), verdicts0 + [passed], |verdicts0| + 1, c)
  {
    CountSnoc(Contigs(t), verdicts0, passed);
  }

  /** The entries after filing the next record. */
  lemma FiledStep(t: Table, filed0: seq<Filing>, solution: seq<InvRepeat>, tag: seq<string>, passed: bool,
                  result0: map<Contig, seq<(InvRepeat, string)>>, result: map<Contig, seq<(InvRepeat, string)>>)
    requires |filed0| < |t.order| && passed == (solution != [])
    requires forall c :: Entries(result0, c) == FiledOn(t, filed0, |filed0|, c)
    requires forall c ::
      Entries(result, c) == Entries(result0, c) + if c == t.order[|filed0|].0 && passed then Zip(solution, tag) else []
    ensures forall c :: Entries(result, c) == FiledOn(t, filed0 + [(solution, tag)], |filed0| + 1, c)
  {
    var filed, k := filed0 + [(solution, tag)], |filed0|;
    var added := Zip(solution, tag);
    assert !passed ==> added == [];
    forall c ensures Entries(result, c) == FiledOn(t, filed, k + 1, c) {
      FiledOnPrefix(t, filed0, filed, k, c);
      assert Entries(result0, c) == FiledOn(t, filed0, k, c);
      assert filed[k] == (solution, tag);
    }
  }

  /** Filing the next record extends the filings. */
  lemma FiledSnoc(t: Table, minSamples: int, filed0: seq<Filing>, solution: seq<InvRepeat>, tag: seq<string>)
    requires FiledUpTo(t, minSamples, filed0, |filed0|) && |filed0| < |t.order|
    requires ValidRepeat(t.records[t.order[|filed0|]].dsRNA)
    requires Filtered(t.records[t.order[|filed0|]].dsRNA, t.records[t.order[|filed0|]].solutions, minSamples, solution, tag)
    ensures FiledUpTo(t, minSamples, filed0 + [(solution, tag)], |filed0| + 1)
  {
  }

  /** The pairs filed by the first `k` filings do not depend on the later ones. */
  lemma {:induction false} FiledOnPrefix(t: Table, a: seq<Filing>, b: seq<Filing>, k: nat, c: Contig)
    requires k <= |t.order| && k <= |a| && k <= |b| && a[..k] == b[..k]
    ensures FiledOn(t, a, k, c) == FiledOn(t, b, k, c)
  {
    if k > 0 {
      assert a[..k - 1] == a[..k][..k - 1] && b[..k - 1] == b[..k][..k - 1];
      FiledOnPrefix(t, a, b, k - 1, c);
      assert a[k - 1] == a[..k][k - 1] && b[k - 1] == b[..k][k - 1];
    }
  }

  /** `filter_segments` on the next record of the insertion order, its verdict appended to `verdicts0`. */
  method Judge(t: Table, minReplication: int, k: int, ghost verdicts0: seq<bool>)
    returns (solution: seq<InvRepeat>, tag: seq<string>, passed: bool, ghost verdicts: seq<bool>)
    requires Complete(t) && 0 <= k < |t.order| && |verdicts0| == k && JudgedUpTo(t, minReplication, verdicts0)
    requires ValidRepeat(t.records[t.order[k]].dsRNA)
    ensures verdicts == verdicts0 + [passed] && JudgedUpTo(t, minReplication, verdicts)
    ensures passed ==> |solution| == 1 && |tag| == 1
    ensures passed == (solution != [])
    ensures Filtered(t.records[t.order[k]].dsRNA, t.records[t.order[k]].solutions, minReplication, solution, tag)
  {
    solution, tag, passed := Keep(t.records[t.order[k]], minReplication);
    verdicts := verdicts0 + [passed];
    JudgedSnoc(t, minReplication, verdicts0, passed);
  }

  /** Judging the next record extends the verdicts. */
  lemma JudgedSnoc(t: Table, minSamples: int, v: seq<bool>, passed: bool)
    requires JudgedUpTo(t, minSamples, v) && |v| < |t.order| && t.order[|v|] in t.records
    requires passed == Passes(t.records[t.order[|v|]], minSamples)
    ensures JudgedUpTo(t, minSamples, v + [passed])
  {
    var w := v + [passed];
    assert JudgedAt(t, minSamples, w, |v|);
    forall i | 0 <= i < |v| ensures JudgedAt(t, minSamples, w, i) {
      assert JudgedAt(t, minSamples, v, i);
    }
  }

  /** One record of the loop: the entry filed under the contig if `filter_segments` kept something. */
  method File(result0: map<Contig, seq<(InvRepeat, string)>>, after0: nat, key: Key,
              solution: seq<InvRepeat>, tag: seq<string>, passed: bool)
    returns (result: map<Contig, seq<(InvRepeat, string)>>, after: nat)
    requires passed ==> |solution| == 1 && |tag| == 1
    ensures after == after0 + if passed then 1 else 0
    ensures forall c :: |Entries(result, c)| == |Entries(result0, c)| + if c == key.0 && passed then 1 else 0
    ensures forall c :: Entries(result, c) == Entries(result0, c) + if c == key.0 && passed then Zip(solution, tag) else []
    ensures forall c :: c in result <==> c in result0 || (c == key.0 && passed)
  {
    result, after := result0, after0;
    if passed {
      var c := key.0;
      result := result[c := Entries(result, c) + Zip(solution, tag)];
      after := after + 1;
    }
  }

  /** `filter_segments` on one record: one repeat and one tag when it passes, nothing otherwise. */
  method Keep(data: Record, minReplication: int) returns (solution: seq<InvRepeat>, tag: seq<string>, passed: bool)
    requires ValidRepeat(data.dsRNA)
    ensures passed == Passes(data, minReplication)
    ensures passed ==> |solution| == 1 && |tag| == 1
    ensures passed == (solution != [])
    ensures Filtered(data.dsRNA, data.solutions, minReplication, solution, tag)
  {
    solution, tag := FilterSegments(data.dsRNA, data.solutions, minReplication);
    passed := solution != [];
  }

  /**
   * The aggregation and the replication filter together: every piece is
   * credited to the records of its origins, and each record files its
   * consensus under its contig when enough solutions agree.
   */
  method Filter(runs: seq<Run>, dsRNA: map<Contig, seq<InvRepeat>>, minReplication: int)
    returns (result: map<Contig, seq<(InvRepeat, string)>>, after: nat, ghost t: Table, ghost verdicts: seq<bool>,
             ghost filed: seq<Filing>)
    requires Indexed(dsRNA, runs)
    requires forall c :: c in dsRNA ==> forall i :: 0 <= i < |dsRNA[c]| ==> ValidRepeat(dsRNA[c][i])
    ensures Tallied(dsRNA, Votes(runs), t)
    ensures Complete(t)
    ensures Judged(t, minReplication, verdicts)
    ensures after == CountTrue(verdicts, |t.order|) && after <= |t.order|
    ensures forall c :: |Entries(result, c)| == CountOn(Contigs(t), verdicts, |t.order|, c)
    ensures forall c :: |Entries(result, c)| <= after
    ensures FiledUpTo(t, minReplication, filed, |t.order|)
    ensures forall c :: Entries(result, c) == FiledOn(t, filed, |t.order|, c)
  {
    var records := Aggregate(runs, dsRNA);
    t := records;
    forall i | 0 <= i < |records.order| ensures records.order[i] in records.records && ValidRepeat(records.records[records.order[i]].dsRNA) {
      var key := records.order[i];
      assert key in records.records;
      var rna := records.records[key].dsRNA;
      assert rna in dsRNA[key.0];
    }
    result, after, verdicts, filed := Consolidate(records, minReplication);
    CountTrueBound(verdicts, |records.order|);
    forall c ensures |Entries(result, c)| <= after {
      CountOnSplit(Contigs(records), verdicts, |records.order|, c);
    }
  }
}
