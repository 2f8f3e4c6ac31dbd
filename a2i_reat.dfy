// The REAT run of the A-to-I editing analysis: the command line handed to
// the `reat site` tool, and the selection of A-to-I candidates from the
// nucleotide counts it reports, with the reference and mismatch counts
// taken from the transcript's strand and the thresholds applied after.
module A2IReat {
  import opened Common
  import opened Decimal
  import opened Strs
  import A2ILoad

  /** A path as its directory components, its stem and its suffix (`Path.suffix`). */
  datatype FilePath = FilePath(dir: seq<string>, stem: string, suffix: string)

  /** `Path.with_suffix(suffix)`. */
  function WithSuffix(p: FilePath, suffix: string): FilePath
  {
    p.(suffix := suffix)
  }

  /** The path as a command-line argument. */
  function Render(p: FilePath): string
  {
    Join(p.dir + [p.stem + p.suffix], '/')
  }

  /** `str(n)` of a Python integer. */
  function IntToString(n: int): string
  {
    if n < 0 then "-" + NatToString(-n) else NatToString(n)
  }

  /** The arguments of one run. */
  datatype Options = Options(
    fasta: string, inputs: seq<string>, stranding: string, paired: bool, exclude: string,
    minCoverage: int, minEdits: int, lo: real, hi: real, threads: int)

  /** Lines 31-36: the command before the paired-end flags. */
  function BaseCommand(o: Options): (r: seq<string>)
    ensures |r| == |o.inputs| + 23
    ensures r[..3] == ["reat", "site", "-i"] && r[3..3 + |o.inputs|] == o.inputs
  {
    ["reat", "site", "-i"] + o.inputs
    + ["--exclude", o.exclude, "-r", o.fasta, "--stranding", o.stranding, "-t", IntToString(o.threads),
       "--mapq", "254", "--ex-flags", "2828", "--phread", "25",
       "--out-min-cov", IntToString(o.minCoverage), "--out-min-freq", "0",
       "--out-min-mismatches", IntToString(o.minEdits)]
  }

  /** Lines 37-38 and 11: the full command, with the output buffer appended last. */
  function Command(o: Options, buffer: FilePath): seq<string>
  {
    BaseCommand(o) + (if o.paired then ["--in-flags", "3"] else []) + ["-o", Render(buffer)]
  }

  /**
   * Paired input adds exactly the two flags `--in-flags 3` before the output
   * argument; otherwise the paired and single-end commands are the same.
   */
  lemma PairedCommand(o: Options, buffer: FilePath)
    requires o.paired
    ensures |Command(o, buffer)| == |Command(o.(paired := false), buffer)| + 2
    ensures Command(o, buffer) == BaseCommand(o) + ["--in-flags", "3"] + Command(o.(paired := false), buffer)[|BaseCommand(o)|..]
  {
    assert BaseCommand(o) == BaseCommand(o.(paired := false));
    var single := Command(o.(paired := false), buffer);
    assert single == BaseCommand(o) + ["-o", Render(buffer)];
    assert single[|BaseCommand(o)|..] == ["-o", Render(buffer)];
  }

  /** A row of the tool's output: per-nucleotide read counts at one position. */
  datatype Site = Site(contig: string, refnuc: string, prednuc: string, trstrand: string, pos: nat, a: nat, c: nat, g: nat, t: nat)

  /** `s == [c]` for a one-letter column value. */
  predicate Is(s: string, c: char)
  {
    |s| == 1 && s[0] == c
  }

  /** Lines 43-46: an A-to-G change on a forward transcript. */
  predicate Forward(s: Site)
  {
    Is(s.trstrand, '+') && s.a > 0 && Is(s.refnuc, 'A') && s.a + s.g > s.t + s.c
  }

  /** Lines 47-50: the same change read on the reverse strand, T-to-C. */
  predicate Reverse(s: Site)
  {
    Is(s.trstrand, '-') && s.t > 0 && Is(s.refnuc, 'T') && s.t + s.c > s.a + s.g
  }

  predicate Candidate(s: Site)
  {
    Forward(s) || Reverse(s)
  }

  function IsCandidate(): Site -> bool
  {
    (s: Site) => Candidate(s)
  }

  /** Lines 53-54: the reference and mismatch counts taken from the transcript's strand. */
  function Counted(s: Site): (r: A2ILoad.Row)
    ensures r.contig == s.contig && r.trstrand == s.trstrand && r.pos == s.pos
    ensures Is(s.trstrand, '+') ==> r.refnuc == s.a && r.misnuc == s.g
    ensures !Is(s.trstrand, '+') ==> r.refnuc == s.t && r.misnuc == s.c
  {
    if Is(s.trstrand, '+') then A2ILoad.Row(s.contig, s.trstrand, s.pos, s.a, s.g)
    else A2ILoad.Row(s.contig, s.trstrand, s.pos, s.t, s.c)
  }

  /** A candidate always has reads of its reference base, so its frequency is defined. */
  lemma CandidateCovered(s: Site)
    requires Candidate(s)
    ensures A2ILoad.Coverage(Counted(s)) > 0
    ensures Counted(s).refnuc > 0
    ensures Counted(s).refnuc + Counted(s).misnuc > 0
  {
  }

  function CountedAll(sites: seq<Site>): (r: seq<A2ILoad.Row>)
    ensures |r| == |sites| && forall i :: 0 <= i < |sites| ==> r[i] == Counted(sites[i])
  {
    seq(|sites|, i requires 0 <= i < |sites| => Counted(sites[i]))
  }

  /** The items of `s` that `keep` accepts, in order (a pandas mask). */
  function Filter<T>(s: seq<T>, keep: T -> bool): seq<T>
  {
    if s == [] then []
    else
      var n := |s| - 1;
      Filter(s[..n], keep) + (if keep(s[n]) then [s[n]] else [])
  }

  lemma {:induction false} FilterMembers<T>(s: seq<T>, keep: T -> bool, x: T)
    ensures x in Filter(s, keep) <==> x in s && keep(x)
    decreases |s|
  {
    if s != [] {
      var n := |s| - 1;
      FilterMembers(s[..n], keep, x);
      assert s == s[..n] + [s[n]];
    }
  }

  /** Two masks applied one after the other are their conjunction. */
  lemma {:induction false} FilterTwice<T>(s: seq<T>, f: T -> bool, g: T -> bool, h: T -> bool)
    requires forall x :: h(x) == (f(x) && g(x))
    ensures Filter(Filter(s, f), g) == Filter(s, h)
    decreases |s|
  {
    if s != [] {
      var n := |s| - 1;
      FilterTwice(s[..n], f, g, h);
      var t := Filter(s[..n], f);
      var tail := if f(s[n]) then [s[n]] else [];
      assert Filter(s, f) == t + tail;
      FilterAppend(t, tail, g);
      if f(s[n]) {
        assert tail == [s[n]] && Filter(tail, g) == Filter(tail[..0], g) + (if g(s[n]) then [s[n]] else []);
      }
    }
  }

  lemma {:induction false} FilterAppend<T>(s: seq<T>, t: seq<T>, keep: T -> bool)
    ensures Filter(s + t, keep) == Filter(s, keep) + Filter(t, keep)
    decreases |t|
  {
    if t == [] {
      assert s + t == s;
    } else {
      var n := |t| - 1;
      FilterAppend(s, t[..n], keep);
      assert (s + t)[..|s + t| - 1] == s + t[..n];
    }
  }

  /** Line 57: inside the frequency band. */
  function InBand(lo: real, hi: real): A2ILoad.Row -> bool
  {
    (r: A2ILoad.Row) => A2ILoad.Coverage(r) > 0 && lo <= A2ILoad.Freq(r) <= hi
  }

  /** Line 59: enough reads. */
  function Deep(minCoverage: int): A2ILoad.Row -> bool
  {
    (r: A2ILoad.Row) => A2ILoad.Coverage(r) >= minCoverage
  }

  /** Line 60: enough edited reads. */
  function Edited(minEdits: int): A2ILoad.Row -> bool
  {
    (r: A2ILoad.Row) => r.misnuc >= minEdits
  }

  function Thresholds(o: Options): A2ILoad.Thresholds
  {
    A2ILoad.Thresholds(o.minCoverage, o.minEdits, o.lo, o.hi)
  }

  /** The three thresholds together: the row filter of the loader. */
  function Passes(o: Options): A2ILoad.Row -> bool
  {
    (r: A2ILoad.Row) => A2ILoad.Keep(r, Thresholds(o))
  }

  /** Lines 43-62: the candidates' counts that pass every threshold, in the tool's order. */
  function Selected(sites: seq<Site>, o: Options): seq<A2ILoad.Row>
  {
    Filter(CountedAll(Filter(sites, IsCandidate())), Passes(o))
  }

  /**
   * A row is selected exactly when it is the counts of an A-to-I candidate
   * reported by the tool and it passes the frequency band, the coverage and
   * the edit-count thresholds.
   */
  lemma SelectedMembers(sites: seq<Site>, o: Options, r: A2ILoad.Row)
    ensures r in Selected(sites, o) <==>
      (exists s :: s in sites && Candidate(s) && Counted(s) == r) && A2ILoad.Keep(r, Thresholds(o))
  {
    var cands := Filter(sites, IsCandidate());
    FilterMembers(CountedAll(cands), Passes(o), r);
    if r in CountedAll(cands) {
      var i :| 0 <= i < |cands| && CountedAll(cands)[i] == r;
      FilterMembers(sites, IsCandidate(), cands[i]);
    }
    if exists s :: s in sites && Candidate(s) && Counted(s) == r {
      var s :| s in sites && Candidate(s) && Counted(s) == r;
      FilterMembers(sites, IsCandidate(), s);
      var i :| 0 <= i < |cands| && cands[i] == s;
      assert CountedAll(cands)[i] == r;
    }
  }

  /** Loading the written table with the same thresholds keeps every row. */
  lemma SelectedReloads(sites: seq<Site>, o: Options)
    ensures |A2ILoad.Reat(Selected(sites, o), Thresholds(o))| == |Selected(sites, o)|
  {
    var rows := Selected(sites, o);
    forall i | 0 <= i < |rows| ensures A2ILoad.Keep(rows[i], Thresholds(o)) {
      SelectedMembers(sites, o, rows[i]);
    }
    A2ILoad.ReatShorter(rows, Thresholds(o));
  }

  /** What a run does. */
  datatype Outcome =
    | Skipped
    | Written(command: seq<string>, saveto: FilePath, rows: seq<A2ILoad.Row>)

  /**
   * Lines 23-65: refuse an output path that is not a `.csv`, skip the run when
   * its `.csv.gz` exists, otherwise run the tool (whose rows are `reported`)
   * and write the selected rows next to the buffer, gzip-compressed.
   */
  method Run(o: Options, saveto: FilePath, gzExists: bool, reported: seq<Site>) returns (r: Result<Outcome>)
    ensures r.Err? <==> saveto.suffix != ".csv"
    ensures r.Err? ==> r.error == AssertionError
    ensures r == Ok(Skipped) <==> saveto.suffix == ".csv" && gzExists
    ensures r.Ok? && r.value.Written? ==> r.value.command == Command(o, saveto)
    ensures r.Ok? && r.value.Written? ==> r.value.saveto == WithSuffix(saveto, ".csv.gz")
    ensures r.Ok? && r.value.Written? ==> r.value.rows == Selected(reported, o)
  {
    if saveto.suffix != ".csv" {
      return Err(AssertionError);
    }
    if gzExists {
      return Ok(Skipped);
    }
    var command := BaseCommand(o);
    if o.paired {
      command := command + ["--in-flags", "3"];
    }
    command := command + ["-o", Render(saveto)];
    var esites := Filter(reported, IsCandidate());
    var rows := CountedAll(esites);
    rows := Filter(rows, InBand(o.lo, o.hi));
    rows := Filter(rows, Deep(o.minCoverage));
    rows := Filter(rows, Edited(o.minEdits));
    ThresholdsInOrder(CountedAll(esites), o);
    r := Ok(Written(command, WithSuffix(saveto, ".csv.gz"), rows));
  }

  /** Lines 56-60: the band, then the coverage, then the edit count is the loader's filter. */
  lemma ThresholdsInOrder(rows: seq<A2ILoad.Row>, o: Options)
    ensures Filter(Filter(Filter(rows, InBand(o.lo, o.hi)), Deep(o.minCoverage)), Edited(o.minEdits)) == Filter(rows, Passes(o))
  {
    var both := (r: A2ILoad.Row) => A2ILoad.Coverage(r) > 0 && o.lo <= A2ILoad.Freq(r) <= o.hi && A2ILoad.Coverage(r) >= o.minCoverage;
    FilterTwice(rows, InBand(o.lo, o.hi), Deep(o.minCoverage), both);
    FilterTwice(rows, both, Edited(o.minEdits), Passes(o));
  }
}
