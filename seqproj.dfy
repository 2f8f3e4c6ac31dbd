// The JCC sequencing project: `initialize` turns FASTQ paths into a table
// whose columns are parsed from the file names, and `parse` groups the
// table into paired runs, experiments and samples through builders the
// caller supplies.
module SeqProj {
  import opened Common
  import opened Strs
  import opened Sorting
  import Bed

  /** A file system path as its components; its name is the last one. */
  type Path = seq<string>

  /** `path.relative_to(root)`: the components after `root`, or `ValueError`. */
  function RelativeTo(p: Path, root: Path): (r: Result<Path>)
    ensures r.Ok? <==> |root| <= |p| && p[..|root|] == root
    ensures r.Err? ==> r.error == ValueError
    ensures r.Ok? ==> root + r.value == p
  {
    if |root| <= |p| && p[..|root|] == root then
      assert root + p[|root|..] == p;
      Ok(p[|root|..])
    else Err(ValueError)
  }

  /** `path.name`. */
  function Name(p: Path): string
  {
    if p == [] then "" else p[|p| - 1]
  }

  /** A path put back under the root it was made relative to. */
  function Under(reroot: Option<Path>, p: Path): Path
  {
    if reroot.None? then p else reroot.value + p
  }

  /** Lines 22-24: the paths, made relative to `reroot` when one is given. */
  function Rerooted(fastq: seq<Path>, reroot: Option<Path>): (r: Result<seq<Path>>)
    ensures r.Ok? <==> reroot.None? || forall i :: 0 <= i < |fastq| ==> RelativeTo(fastq[i], reroot.value).Ok?
    ensures r.Err? ==> r.error == ValueError
    ensures r.Ok? ==> |r.value| == |fastq| && forall i :: 0 <= i < |fastq| ==> Under(reroot, r.value[i]) == fastq[i]
  {
    if reroot.None? then Ok(fastq)
    else if forall i :: 0 <= i < |fastq| ==> RelativeTo(fastq[i], reroot.value).Ok? then
      Ok(seq(|fastq|, i requires 0 <= i < |fastq| => RelativeTo(fastq[i], reroot.value).value))
    else Err(ValueError)
  }

  // ---------------------------------------------------------------------
  // File names

  /** The '_'-separated fields of a file name; `middle` is what lies between project and sample. */
  datatype Fields = Fields(
    experiment: string, project: string, middle: seq<string>,
    sample: string, lane: string, mate: string, postfix: string)

  /** Lines 30-36: the fields of a file name, or `IndexError` when it has fewer than six. */
  function ParseName(fname: string): Result<Fields>
  {
    var parts := Split(fname, '_');
    var n := |parts|;
    if n < 6 then Err(IndexError)
    else Ok(Fields(parts[0], parts[1], parts[2..n - 4], parts[n - 4], parts[n - 3], parts[n - 2], parts[n - 1]))
  }

  /** The fields in file-name order. */
  function Parts(f: Fields): seq<string>
  {
    [f.experiment, f.project] + f.middle + [f.sample, f.lane, f.mate, f.postfix]
  }

  /** Joining the parsed fields with '_' gives back the file name. */
  lemma ParseNameJoin(fname: string)
    requires ParseName(fname).Ok?
    ensures Join(Parts(ParseName(fname).value), '_') == fname
  {
    var parts := Split(fname, '_');
    assert Parts(ParseName(fname).value) == parts;
    JoinSplit(fname, '_');
  }

  /** Fields free of '_' joined into a file name parse back to themselves. */
  lemma ParseNameOfJoin(f: Fields)
    requires forall x :: x in Parts(f) ==> '_' !in x
    ensures ParseName(Join(Parts(f), '_')) == Ok(f)
  {
    var p := Parts(f);
    SplitJoin(p, '_');
    var n := |p|;
    assert p[2..n - 4] == f.middle;
  }

  /**
   * Lines 30-36: the fields popped off the list of parts, postfix, read mate,
   * lane and sample from the end, experiment and project from the front.
   */
  method PopFields(fname: string) returns (r: Result<Fields>)
    ensures r == ParseName(fname)
  {
    var all := Split(fname, '_');
    var n := |all|;
    var parts := all;
    var postfix := parts[|parts| - 1];
    parts := parts[..|parts| - 1];
    assert parts == all[..n - 1];
    if parts == [] {
      return Err(IndexError);
    }
    var mate := parts[|parts| - 1];
    parts := parts[..|parts| - 1];
    assert parts == all[..n - 2];
    if parts == [] {
      return Err(IndexError);
    }
    var lane := parts[|parts| - 1];
    parts := parts[..|parts| - 1];
    assert parts == all[..n - 3];
    if parts == [] {
      return Err(IndexError);
    }
    var sample := parts[|parts| - 1];
    parts := parts[..|parts| - 1];
    assert parts == all[..n - 4];
    if parts == [] {
      return Err(IndexError);
    }
    var experiment := parts[0];
    parts := parts[1..];
    assert parts == all[1..n - 4];
    if parts == [] {
      return Err(IndexError);
    }
    var project := parts[0];
    parts := parts[1..];
    assert parts == all[2..n - 4];
    r := Ok(Fields(experiment, project, parts, sample, lane, mate, postfix));
  }

  /** Line 39: the middle fields without "Feb2025", in order. */
  function Tags(middle: seq<string>): seq<string>
  {
    if middle == [] then []
    else
      var n := |middle| - 1;
      Tags(middle[..n]) + (if middle[n] != "Feb2025" then [middle[n]] else [])
  }

  /** The tags are exactly the middle fields other than "Feb2025". */
  lemma {:induction false} TagsMembers(middle: seq<string>, x: string)
    ensures x in Tags(middle) <==> x in middle && x != "Feb2025"
    decreases |middle|
  {
    if middle != [] {
      var n := |middle| - 1;
      TagsMembers(middle[..n], x);
      assert middle == middle[..n] + [middle[n]];
    }
  }

  /** A row of the table `initialize` returns. */
  datatype Row = Row(
    fastq: Path, fname: string, experiment: string, project: string, tags: seq<string>,
    sample: string, lane: string, mate: string, postfix: string)

  function RowOf(p: Path, f: Fields): Row
  {
    Row(p, Name(p), f.experiment, f.project, Tags(f.middle), f.sample, f.lane, f.mate, f.postfix)
  }

  /** The row of one path, or the error of its file name. */
  function RowFor(p: Path): Result<Row>
  {
    var f := ParseName(Name(p));
    if f.Err? then Err(f.error) else Ok(RowOf(p, f.value))
  }

  function RowsFor(paths: seq<Path>): (r: seq<Result<Row>>)
    ensures |r| == |paths|
  {
    seq(|paths|, i requires 0 <= i < |paths| => RowFor(paths[i]))
  }

  /** Lines 28-43: the rows of the table, or the first parse error. */
  function Table(paths: seq<Path>): Result<seq<Row>>
  {
    FirstErr(RowsFor(paths))
  }

  /** The file name at `i` parses. */
  predicate Parses(paths: seq<Path>, i: int)
    requires 0 <= i < |paths|
  {
    ParseName(Name(paths[i])).Ok?
  }

  /**
   * The table is built exactly when every file name parses, each row holding
   * the fields of its path's name; otherwise it is an `IndexError`.
   */
  lemma TableSpec(paths: seq<Path>)
    ensures Table(paths).Ok? <==> forall i :: 0 <= i < |paths| ==> Parses(paths, i)
    ensures Table(paths).Err? ==> Table(paths).error == IndexError
    ensures Table(paths).Ok? ==> |Table(paths).value| == |paths|
    ensures Table(paths).Ok? ==> forall i :: 0 <= i < |paths| ==>
      ParseName(Name(paths[i])).Ok? && Table(paths).value[i] == RowOf(paths[i], ParseName(Name(paths[i])).value)
  {
    var rs := RowsFor(paths);
    FirstErrSpec(rs);
    forall i | 0 <= i < |paths| ensures rs[i].Ok? <==> Parses(paths, i) {
      assert rs[i] == RowFor(paths[i]);
    }
    if Table(paths).Ok? {
      var rows := Table(paths).value;
      forall i | 0 <= i < |paths| ensures ParseName(Name(paths[i])).Ok? && rows[i] == RowOf(paths[i], ParseName(Name(paths[i])).value) {
        assert rs[i] == RowFor(paths[i]) == Ok(rows[i]);
      }
    } else {
      FirstErrFrom(rs);
      var i :| 0 <= i < |rs| && rs[i] == Err(FirstErr(rs).error);
      assert RowFor(paths[i]).Err?;
    }
  }

  /** Lines 21-45: the table of the given FASTQ files. */
  function Initialized(fastq: seq<Path>, reroot: Option<Path>): Result<seq<Row>>
  {
    var paths := Rerooted(fastq, reroot);
    if paths.Err? then Err(paths.error) else Table(paths.value)
  }

  /** Lines 21-45: the per-file loop filling the columns. */
  method Initialize(fastq: seq<Path>, reroot: Option<Path>) returns (r: Result<seq<Row>>)
    ensures r == Initialized(fastq, reroot)
  {
    var paths := Rerooted(fastq, reroot);
    if paths.Err? {
      return Err(paths.error);
    }
    var ps := paths.value;
    ghost var rs := RowsFor(ps);
    var rows: seq<Row> := [];
    for i := 0 to |ps|
      invariant FirstErr(rs[..i]) == Ok(rows)
    {
      var f := PopFields(Name(ps[i]));
      assert rs[i] == RowFor(ps[i]);
      if f.Err? {
        assert rs[..i + 1][..i] == rs[..i];
        FirstErrPrefix(rs, i + 1);
        return Err(f.error);
      }
      FirstErrSnoc(rs, i, rows, RowOf(ps[i], f.value));
      rows := rows + [RowOf(ps[i], f.value)];
    }
    assert rs[..|ps|] == rs;
    r := Ok(rows);
  }

  // ---------------------------------------------------------------------
  // Runs

  /** Line 74: a paired-end layout, R1 then R2, mates facing inward. */
  datatype Layout = Paired(r1: Path, r2: Path)

  datatype Run = Run(ind: string, layout: Layout, machine: string)

  function Itself(r: Row): Row { r }

  function RunKey(r: Row): (string, string, string) { (r.experiment, r.sample, r.lane) }

  /** The order of `groupby` keys: by experiment, then sample, then lane. */
  predicate RunKeyLe(a: (string, string, string), b: (string, string, string))
  {
    StrLe(a.0, b.0) && (a.0 == b.0 ==> StrLe(a.1, b.1) && (a.1 == b.1 ==> StrLe(a.2, b.2)))
  }

  lemma RunKeyLePreorder()
    ensures TotalPreorder(RunKeyLe)
  {
    forall a: (string, string, string), b: (string, string, string) ensures RunKeyLe(a, b) || RunKeyLe(b, a) {
      StrLeTotal(a.0, b.0);
      StrLeTotal(a.1, b.1);
      StrLeTotal(a.2, b.2);
      if StrLe(a.0, b.0) && StrLe(b.0, a.0) {
        StrLeAntisymmetric(a.0, b.0);
      }
      if StrLe(a.1, b.1) && StrLe(b.1, a.1) {
        StrLeAntisymmetric(a.1, b.1);
      }
    }
    forall a: (string, string, string), b: (string, string, string), c: (string, string, string)
      | RunKeyLe(a, b) && RunKeyLe(b, c) ensures RunKeyLe(a, c)
    {
      StrLeTransitive(a.0, b.0, c.0);
      if a.0 == c.0 {
        StrLeAntisymmetric(a.0, b.0);
        StrLeTransitive(a.1, b.1, c.1);
        if a.1 == c.1 {
          StrLeAntisymmetric(a.1, b.1);
          StrLeTransitive(a.2, b.2, c.2);
        }
      }
    }
  }

  /** The rows of the group keyed `k`, in table order. */
  function RunGroup(data: seq<Row>, k: (string, string, string)): seq<Row>
  {
    Bed.Members(data, RunKey, Itself, k)
  }

  /** Lines 66-69: exactly two files, one R1 and one R2. */
  predicate Paired2(g: seq<Row>)
  {
    |g| == 2 && {g[0].mate, g[1].mate} == {"R1", "R2"}
  }

  /** Lines 71-72: the file of the row whose read mate is `m`. */
  function Mate(g: seq<Row>, m: string): Path
  {
    if |g| > 0 && g[0].mate == m then g[0].fastq
    else if |g| > 1 then g[1].fastq
    else []
  }

  /** Lines 74-77: the run of the group keyed `k`. */
  function RunOf(data: seq<Row>, k: (string, string, string), machine: string): Run
  {
    var g := RunGroup(data, k);
    Run(k.0 + "-" + k.1 + "-" + k.2, Paired(Mate(g, "R1"), Mate(g, "R2")), machine)
  }

  /** The run reads R1 from row `i` of the group and R2 from row `j`. */
  predicate ReadsFrom(g: seq<Row>, run: Run, i: int, j: int)
  {
    0 <= i < |g| && 0 <= j < |g| && i != j
    && g[i].mate == "R1" && run.layout.r1 == g[i].fastq
    && g[j].mate == "R2" && run.layout.r2 == g[j].fastq
  }

  /** A paired run reads R1 from the group's R1 file and R2 from its R2 file. */
  lemma RunOfSpec(data: seq<Row>, k: (string, string, string), machine: string)
    requires Paired2(RunGroup(data, k))
    ensures var g, run := RunGroup(data, k), RunOf(data, k, machine);
      run.ind == k.0 + "-" + k.1 + "-" + k.2 && run.machine == machine
      && exists i, j :: ReadsFrom(g, run, i, j)
  {
    var g := RunGroup(data, k);
    assert g[0].mate in {"R1", "R2"} && g[1].mate in {"R1", "R2"};
    assert "R1" in {g[0].mate, g[1].mate};
    var run := RunOf(data, k, machine);
    if g[0].mate == "R1" {
      assert g[1].mate == "R2";
      assert ReadsFrom(g, run, 0, 1);
    } else {
      assert g[0].mate == "R2" && g[1].mate == "R1";
      assert ReadsFrom(g, run, 1, 0);
    }
  }

  /** What `f` gives for the keys of `ks` under experiment `e` and sample `s`, in order. */
  function Picked<V>(ks: seq<(string, string, string)>, e: string, s: string, f: ((string, string, string)) -> V): seq<V>
  {
    if ks == [] then []
    else
      var n := |ks| - 1;
      Picked(ks[..n], e, s, f) + (if ks[n].0 == e && ks[n].1 == s then [f(ks[n])] else [])
  }

  lemma {:induction false} PickedMembers<V>(ks: seq<(string, string, string)>, e: string, s: string, f: ((string, string, string)) -> V, v: V)
    ensures v in Picked(ks, e, s, f) <==> exists i :: 0 <= i < |ks| && ks[i].0 == e && ks[i].1 == s && v == f(ks[i])
    decreases |ks|
  {
    if ks != [] {
      var n := |ks| - 1;
      PickedMembers(ks[..n], e, s, f, v);
      assert forall i :: 0 <= i < n ==> ks[..n][i] == ks[i];
    }
  }

  /** The runs appended to `seqruns[(e, s)]` while visiting the keys `ks` in order. */
  function RunsFor(data: seq<Row>, ks: seq<(string, string, string)>, machine: string, e: string, s: string): seq<Run>
  {
    Picked(ks, e, s, k => RunOf(data, k, machine))
  }

  /** The runs collected for an experiment and sample are those of its lanes' keys. */
  lemma RunsForMembers(data: seq<Row>, ks: seq<(string, string, string)>, machine: string, e: string, s: string, run: Run)
    ensures run in RunsFor(data, ks, machine, e, s) <==>
      exists i :: 0 <= i < |ks| && ks[i].0 == e && ks[i].1 == s && run == RunOf(data, ks[i], machine)
  {
    PickedMembers(ks, e, s, k => RunOf(data, k, machine), run);
  }

  /** `seqruns[(e, s)]` of the defaultdict: missing keys read as empty. */
  function Lookup(seqruns: map<(string, string), seq<Run>>, e: string, s: string): seq<Run>
  {
    if (e, s) in seqruns then seqruns[(e, s)] else []
  }

  /** The `groupby` keys of the runs, sorted. */
  function SortedRunKeys(data: seq<Row>): seq<(string, string, string)>
  {
    RunKeyLePreorder();
    SortBy(Bed.KeysIn(data, RunKey), RunKeyLe)
  }

  /** Some (experiment, sample, lane) group is not one R1 and one R2 file. */
  predicate BadRuns(data: seq<Row>)
  {
    exists i :: 0 <= i < |data| && !Paired2(RunGroup(data, RunKey(data[i])))
  }

  /** One turn of the run loop. */
  method AddRun(data: seq<Row>, ks: seq<(string, string, string)>, i: int, machine: string, seqruns: map<(string, string), seq<Run>>)
    returns (next: map<(string, string), seq<Run>>)
    requires 0 <= i < |ks|
    requires forall e, s :: Lookup(seqruns, e, s) == RunsFor(data, ks[..i], machine, e, s)
    ensures forall e, s :: Lookup(next, e, s) == RunsFor(data, ks[..i + 1], machine, e, s)
  {
    var k := ks[i];
    var key := (k.0, k.1);
    next := seqruns[key := Lookup(seqruns, k.0, k.1) + [RunOf(data, k, machine)]];
    assert ks[..i + 1][..i] == ks[..i];
    forall e, s ensures Lookup(next, e, s) == RunsFor(data, ks[..i + 1], machine, e, s) {
      if (e, s) != key {
        assert Lookup(next, e, s) == Lookup(seqruns, e, s);
      }
    }
  }

  /** Some row carries the key `k`. */
  predicate Occurs<K(==)>(data: seq<Row>, key: Row -> K, k: K)
  {
    exists j :: 0 <= j < |data| && key(data[j]) == k
  }

  /** `groupby(...)` with sorted keys: each key once, with the rows that carry it. */
  method SortedGroups<K(==,!new)>(data: seq<Row>, key: Row -> K, le: (K, K) -> bool)
    returns (ks: seq<K>, groups: map<K, seq<Row>>)
    requires TotalPreorder(le)
    ensures ks == SortBy(Bed.KeysIn(data, key), le) && Distinct(ks)
    ensures forall i :: 0 <= i < |ks| ==>
      ks[i] in groups && groups[ks[i]] == Bed.Members(data, key, Itself, ks[i]) && Occurs(data, key, ks[i])
    ensures forall j :: 0 <= j < |data| ==> key(data[j]) in ks
  {
    var keys;
    keys, groups := Bed.Group(data, key, Itself);
    ks := SortBy(keys, le);
    SortByMembers(keys, le);
    DistinctCounts(keys);
    DistinctCounts(ks);
    forall j | 0 <= j < |data| ensures key(data[j]) in ks {
      assert key(data[j]) in keys;
    }
    forall i | 0 <= i < |ks| ensures ks[i] in groups && Occurs(data, key, ks[i]) {
      assert ks[i] in keys;
    }
  }

  /** A run group of the table that is not one R1 and one R2 file. */
  lemma BadAt(data: seq<Row>, k: (string, string, string))
    requires Occurs(data, RunKey, k) && !Paired2(RunGroup(data, k))
    ensures BadRuns(data)
  {
    var row :| 0 <= row < |data| && RunKey(data[row]) == k;
  }

  /** Every run group of the table is one R1 and one R2 file. */
  lemma NoBadRuns(data: seq<Row>, ks: seq<(string, string, string)>)
    requires forall j :: 0 <= j < |data| ==> RunKey(data[j]) in ks
    requires forall j :: 0 <= j < |ks| ==> Paired2(RunGroup(data, ks[j]))
    ensures !BadRuns(data)
  {
    forall row | 0 <= row < |data| ensures Paired2(RunGroup(data, RunKey(data[row]))) {
      assert RunKey(data[row]) in ks;
    }
  }

  /** Lines 63-77 over the run keys `ks`, in their order. */
  method RunsLoop(data: seq<Row>, machine: string, ks: seq<(string, string, string)>, groups: map<(string, string, string), seq<Row>>)
    returns (r: Result<map<(string, string), seq<Run>>>)
    requires forall i :: 0 <= i < |ks| ==>
      ks[i] in groups && groups[ks[i]] == RunGroup(data, ks[i]) && Occurs(data, RunKey, ks[i])
    ensures r.Err? ==> BadRuns(data) && r.error == ValueError
    ensures r.Ok? ==> forall j :: 0 <= j < |ks| ==> Paired2(RunGroup(data, ks[j]))
    ensures r.Ok? ==> forall e, s :: Lookup(r.value, e, s) == RunsFor(data, ks, machine, e, s)
  {
    var seqruns: map<(string, string), seq<Run>> := map[];
    for i := 0 to |ks|
      invariant forall e, s :: Lookup(seqruns, e, s) == RunsFor(data, ks[..i], machine, e, s)
      invariant forall j :: 0 <= j < i ==> Paired2(RunGroup(data, ks[j]))
    {
      if !Paired2(groups[ks[i]]) {
        BadAt(data, ks[i]);
        return Err(ValueError);
      }
      seqruns := AddRun(data, ks, i, machine, seqruns);
    }
    assert ks[..|ks|] == ks;
    r := Ok(seqruns);
  }

  /** Lines 63-77: the paired runs of each experiment and sample, lanes in key order. */
  method BuildRuns(data: seq<Row>, machine: string) returns (r: Result<map<(string, string), seq<Run>>>)
    ensures r.Err? <==> BadRuns(data)
    ensures r.Err? ==> r.error == ValueError
    ensures r.Ok? ==> forall e, s :: Lookup(r.value, e, s) == RunsFor(data, SortedRunKeys(data), machine, e, s)
  {
    RunKeyLePreorder();
    var ks, groups := SortedGroups(data, RunKey, RunKeyLe);
    r := RunsLoop(data, machine, ks, groups);
    if r.Ok? {
      NoBadRuns(data, ks);
    }
  }

  // ---------------------------------------------------------------------
  // Samples, experiments and the project

  function SampleKey(r: Row): string { r.sample }

  function ExperimentKey(r: Row): string { r.experiment }

  function ProjectKey(r: Row): string { r.project }

  /** The `groupby("Sample")` keys, sorted. */
  function SortedSamples(data: seq<Row>): seq<string>
  {
    StrLePreorder();
    SortBy(Bed.KeysIn(data, SampleKey), StrLe)
  }

  /** The `groupby("Experiment")` keys, sorted. */
  function SortedExperiments(data: seq<Row>): seq<string>
  {
    StrLePreorder();
    SortBy(Bed.KeysIn(data, ExperimentKey), StrLe)
  }

  /** Lines 59-61: a sample built from its rows. */
  function SampleOf<S>(data: seq<Row>, sampleBuilder: (string, seq<Row>) -> S, s: string): S
  {
    sampleBuilder(s, Bed.Members(data, SampleKey, Itself, s))
  }

  /** The sample of an experiment's rows: the first row's. */
  function FirstSample(sub: seq<Row>): string
  {
    if sub == [] then "" else sub[0].sample
  }

  /** Line 82: the rows of an experiment name one sample. */
  predicate OneSample(sub: seq<Row>)
  {
    forall i :: 0 <= i < |sub| ==> sub[i].sample == FirstSample(sub)
  }

  /** Some experiment spans more than one sample. */
  predicate MixedExperiment(data: seq<Row>)
  {
    exists i :: 0 <= i < |data| && !OneSample(Bed.Members(data, ExperimentKey, Itself, data[i].experiment))
  }

  /** Lines 84-91: the experiment keyed `e`, its runs collected over the run keys `rks`. */
  function ExperimentOf<S, L, E>(
    data: seq<Row>, rks: seq<(string, string, string)>, machine: string, e: string,
    sampleBuilder: (string, seq<Row>) -> S,
    libraryBuilder: (string, string, seq<Row>) -> L,
    experimentBuilder: (string, S, L, seq<Run>, seq<Row>) -> E): E
  {
    var sub := Bed.Members(data, ExperimentKey, Itself, e);
    var s := FirstSample(sub);
    experimentBuilder(e, SampleOf(data, sampleBuilder, s), libraryBuilder(e, s, sub),
                      RunsFor(data, rks, machine, e, s), sub)
  }

  /** The sample an experiment names is one of the table's samples. */
  lemma SampleOfExperiment(data: seq<Row>, e: string)
    requires Occurs(data, ExperimentKey, e)
    ensures Occurs(data, SampleKey, FirstSample(Bed.Members(data, ExperimentKey, Itself, e)))
  {
    var sub := Bed.Members(data, ExperimentKey, Itself, e);
    Bed.MembersComplete(data, ExperimentKey, Itself);
    var i :| 0 <= i < |data| && ExperimentKey(data[i]) == e;
    assert data[i] in sub;
    Bed.MembersSound(data, ExperimentKey, Itself, e);
    assert sub[0] in sub;
    var m :| 0 <= m < |data| && ExperimentKey(data[m]) == e && Itself(data[m]) == sub[0];
    assert SampleKey(data[m]) == FirstSample(sub);
  }

  /** An experiment of the table spanning several samples. */
  lemma MixedAt(data: seq<Row>, e: string)
    requires Occurs(data, ExperimentKey, e) && !OneSample(Bed.Members(data, ExperimentKey, Itself, e))
    ensures MixedExperiment(data)
  {
    var row :| 0 <= row < |data| && ExperimentKey(data[row]) == e;
  }

  /** No experiment of the table spans several samples. */
  lemma NotMixed(data: seq<Row>, es: seq<string>)
    requires forall j :: 0 <= j < |data| ==> ExperimentKey(data[j]) in es
    requires forall j :: 0 <= j < |es| ==> OneSample(Bed.Members(data, ExperimentKey, Itself, es[j]))
    ensures !MixedExperiment(data)
  {
    forall row | 0 <= row < |data| ensures OneSample(Bed.Members(data, ExperimentKey, Itself, data[row].experiment)) {
      assert ExperimentKey(data[row]) in es;
    }
  }

  /** One turn of the experiment loop: lines 84-91 for the experiment `e`. */
  method BuildExperiment<S, L, E>(
    data: seq<Row>, ghost rks: seq<(string, string, string)>, machine: string, e: string,
    sampleBuilder: (string, seq<Row>) -> S,
    libraryBuilder: (string, string, seq<Row>) -> L,
    experimentBuilder: (string, S, L, seq<Run>, seq<Row>) -> E,
    sub: seq<Row>, sample: S, runs: seq<Run>)
    returns (built: E)
    requires sub == Bed.Members(data, ExperimentKey, Itself, e)
    requires sample == SampleOf(data, sampleBuilder, FirstSample(sub))
    requires runs == RunsFor(data, rks, machine, e, FirstSample(sub))
    ensures built == ExperimentOf(data, rks, machine, e, sampleBuilder, libraryBuilder, experimentBuilder)
  {
    var library := libraryBuilder(e, FirstSample(sub), sub);
    built := experimentBuilder(e, sample, library, runs, sub);
  }

  /** Lines 82-91 for the experiment `e`: its sample must be unique. */
  method ExperimentStep<S, L, E>(
    data: seq<Row>, ghost rks: seq<(string, string, string)>, machine: string, e: string,
    sampleBuilder: (string, seq<Row>) -> S,
    libraryBuilder: (string, string, seq<Row>) -> L,
    experimentBuilder: (string, S, L, seq<Run>, seq<Row>) -> E,
    sub: seq<Row>, samples: map<string, S>, seqruns: map<(string, string), seq<Run>>, ghost want: string -> E)
    returns (r: Result<E>)
    requires sub == Bed.Members(data, ExperimentKey, Itself, e) && Occurs(data, ExperimentKey, e)
    requires forall j :: 0 <= j < |data| ==> data[j].sample in samples && samples[data[j].sample] == SampleOf(data, sampleBuilder, data[j].sample)
    requires forall e, s :: Lookup(seqruns, e, s) == RunsFor(data, rks, machine, e, s)
    requires want(e) == ExperimentOf(data, rks, machine, e, sampleBuilder, libraryBuilder, experimentBuilder)
    ensures r.Err? <==> !OneSample(sub)
    ensures r.Err? ==> r.error == ValueError
    ensures r.Ok? ==> r.value == want(e)
  {
    if !OneSample(sub) {
      return Err(ValueError);
    }
    var smplid := FirstSample(sub);
    SampleOfExperiment(data, e);
    var row :| 0 <= row < |data| && data[row].sample == smplid;
    var built := BuildExperiment(data, rks, machine, e, sampleBuilder, libraryBuilder, experimentBuilder,
                                 sub, samples[smplid], Lookup(seqruns, e, smplid));
    r := Ok(built);
  }

  /** Lines 80-91 over the experiment keys `es`, in their order. */
  method ExperimentLoop<S, L, E>(
    data: seq<Row>, ghost rks: seq<(string, string, string)>, machine: string,
    sampleBuilder: (string, seq<Row>) -> S,
    libraryBuilder: (string, string, seq<Row>) -> L,
    experimentBuilder: (string, S, L, seq<Run>, seq<Row>) -> E,
    es: seq<string>, groups: map<string, seq<Row>>,
    samples: map<string, S>, seqruns: map<(string, string), seq<Run>>, ghost want: string -> E)
    returns (r: Result<seq<E>>)
    requires Distinct(es)
    requires forall i :: 0 <= i < |es| ==>
      es[i] in groups && groups[es[i]] == Bed.Members(data, ExperimentKey, Itself, es[i]) && Occurs(data, ExperimentKey, es[i])
    requires forall j :: 0 <= j < |data| ==> data[j].sample in samples && samples[data[j].sample] == SampleOf(data, sampleBuilder, data[j].sample)
    requires forall e, s :: Lookup(seqruns, e, s) == RunsFor(data, rks, machine, e, s)
    requires forall e :: want(e) == ExperimentOf(data, rks, machine, e, sampleBuilder, libraryBuilder, experimentBuilder)
    ensures r.Err? ==> MixedExperiment(data) && r.error == ValueError
    ensures r.Ok? ==> |r.value| == |es|
    ensures r.Ok? ==> forall i :: 0 <= i < |es| ==> r.value[i] == want(es[i]) && OneSample(Bed.Members(data, ExperimentKey, Itself, es[i]))
  {
    var ids: seq<string> := [];
    var values: seq<E> := [];
    for i := 0 to |es|
      invariant ids == es[..i] && |values| == i
      invariant forall j :: 0 <= j < i ==> values[j] == want(es[j]) && OneSample(Bed.Members(data, ExperimentKey, Itself, es[j]))
    {
      var expid := es[i];
      var step := ExperimentStep(data, rks, machine, expid, sampleBuilder, libraryBuilder, experimentBuilder,
                                 groups[expid], samples, seqruns, want);
      if step.Err? {
        MixedAt(data, expid);
        return Err(ValueError);
      }
      assert expid !in ids;
      values := values + [step.value];
      ids := ids + [expid];
    }
    r := Ok(values);
  }

  /** Lines 80-91: the experiments in key order, each built once. */
  method BuildExperiments<S, L, E>(
    data: seq<Row>, ghost rks: seq<(string, string, string)>, machine: string,
    sampleBuilder: (string, seq<Row>) -> S,
    libraryBuilder: (string, string, seq<Row>) -> L,
    experimentBuilder: (string, S, L, seq<Run>, seq<Row>) -> E,
    samples: map<string, S>, seqruns: map<(string, string), seq<Run>>)
    returns (r: Result<(seq<string>, seq<E>)>)
    requires forall j :: 0 <= j < |data| ==> data[j].sample in samples && samples[data[j].sample] == SampleOf(data, sampleBuilder, data[j].sample)
    requires forall e, s :: Lookup(seqruns, e, s) == RunsFor(data, rks, machine, e, s)
    ensures r.Err? <==> MixedExperiment(data)
    ensures r.Err? ==> r.error == ValueError
    ensures r.Ok? ==> Distinct(r.value.0) && r.value.0 == SortedExperiments(data)
    ensures r.Ok? ==> r.value.1 == Experiments(data, rks, machine, sampleBuilder, libraryBuilder, experimentBuilder)
  {
    StrLePreorder();
    var es, groups := SortedGroups(data, ExperimentKey, StrLe);
    ghost var want := e => ExperimentOf(data, rks, machine, e, sampleBuilder, libraryBuilder, experimentBuilder);
    var values := ExperimentLoop(data, rks, machine, sampleBuilder, libraryBuilder, experimentBuilder,
                                 es, groups, samples, seqruns, want);
    if values.Err? {
      return Err(values.error);
    }
    NotMixed(data, es);
    r := Ok((es, values.value));
  }

  /** Lines 58-61: the samples in key order. */
  function Samples<S>(data: seq<Row>, sampleBuilder: (string, seq<Row>) -> S): seq<S>
  {
    var ss := SortedSamples(data);
    seq(|ss|, i requires 0 <= i < |ss| => SampleOf(data, sampleBuilder, ss[i]))
  }

  /** Lines 59-61 over the sample keys `ss`, in their order. */
  method SamplesLoop<S>(data: seq<Row>, sampleBuilder: (string, seq<Row>) -> S, ss: seq<string>, groups: map<string, seq<Row>>)
    returns (samples: map<string, S>, values: seq<S>)
    requires forall i :: 0 <= i < |ss| ==> ss[i] in groups && groups[ss[i]] == Bed.Members(data, SampleKey, Itself, ss[i])
    ensures |values| == |ss| && forall i :: 0 <= i < |ss| ==> values[i] == SampleOf(data, sampleBuilder, ss[i])
    ensures forall i :: 0 <= i < |ss| ==> ss[i] in samples && samples[ss[i]] == SampleOf(data, sampleBuilder, ss[i])
  {
    samples := map[];
    values := [];
    for i := 0 to |ss|
      invariant |values| == i
      invariant forall j :: 0 <= j < i ==> values[j] == SampleOf(data, sampleBuilder, ss[j])
      invariant forall j :: 0 <= j < i ==> ss[j] in samples && samples[ss[j]] == SampleOf(data, sampleBuilder, ss[j])
    {
      var built := sampleBuilder(ss[i], groups[ss[i]]);
      samples := samples[ss[i] := built];
      values := values + [built];
    }
  }

  /** Lines 58-61: the sample dict and its values in key order. */
  method BuildSamples<S>(data: seq<Row>, sampleBuilder: (string, seq<Row>) -> S) returns (r: (map<string, S>, seq<S>))
    ensures forall j :: 0 <= j < |data| ==> data[j].sample in r.0 && r.0[data[j].sample] == SampleOf(data, sampleBuilder, data[j].sample)
    ensures r.1 == Samples(data, sampleBuilder)
  {
    StrLePreorder();
    var ss, groups := SortedGroups(data, SampleKey, StrLe);
    var samples, values := SamplesLoop(data, sampleBuilder, ss, groups);
    forall j | 0 <= j < |data| ensures data[j].sample in samples && samples[data[j].sample] == SampleOf(data, sampleBuilder, data[j].sample) {
      assert SampleKey(data[j]) in ss;
    }
    r := (samples, values);
  }

  /** Lines 79-91: the experiments in key order, their runs collected over the run keys `rks`. */
  function Experiments<S, L, E>(
    data: seq<Row>, rks: seq<(string, string, string)>, machine: string,
    sampleBuilder: (string, seq<Row>) -> S,
    libraryBuilder: (string, string, seq<Row>) -> L,
    experimentBuilder: (string, S, L, seq<Run>, seq<Row>) -> E): seq<E>
  {
    var es := SortedExperiments(data);
    seq(|es|, i requires 0 <= i < |es| => ExperimentOf(data, rks, machine, es[i], sampleBuilder, libraryBuilder, experimentBuilder))
  }

  /**
   * Lines 47-94: the project built from the samples, the paired runs and the
   * experiments; a run group that is not one R1 and one R2 file, or an
   * experiment with several samples, is a `ValueError`.
   */
  method Parse<S, L, E, P>(
    data: seq<Row>, machine: string,
    sampleBuilder: (string, seq<Row>) -> S,
    libraryBuilder: (string, string, seq<Row>) -> L,
    experimentBuilder: (string, S, L, seq<Run>, seq<Row>) -> E,
    projectBuilder: (seq<string>, seq<E>, seq<S>) -> P)
    returns (r: Result<P>)
    ensures r.Err? <==> BadRuns(data) || MixedExperiment(data)
    ensures r.Err? ==> r.error == ValueError
    ensures r.Ok? ==> r.value == projectBuilder(Bed.KeysIn(data, ProjectKey),
      Experiments(data, SortedRunKeys(data), machine, sampleBuilder, libraryBuilder, experimentBuilder), Samples(data, sampleBuilder))
  {
    var samples := BuildSamples(data, sampleBuilder);
    var seqruns := BuildRuns(data, machine);
    if seqruns.Err? {
      return Err(seqruns.error);
    }
    var experiments := BuildExperiments(data, SortedRunKeys(data), machine, sampleBuilder, libraryBuilder, experimentBuilder, samples.0, seqruns.value);
    if experiments.Err? {
      return Err(experiments.error);
    }
    var prjind, _ := Bed.Group(data, ProjectKey, Itself);
    r := Ok(projectBuilder(prjind, experiments.value.1, samples.1));
  }
}
