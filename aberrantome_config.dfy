// The configuration of one aberrant-transcription comparison: a frozen
// record whose post-initialisation step sorts the treatment and control
// experiments by (project, experiment id), checks that no experiment is on
// both sides and derives the paths of the result tables.
module AberrantomeConfig {
  import opened Common
  import opened Sorting

  /** A file system path as its components. */
  type Path = seq<string>

  /** A sequencing experiment; only its id takes part in the configuration, `rest` stands for the others. */
  datatype Experiment = Experiment(ind: string, rest: seq<string>)

  /** A project id with one of its experiments. */
  type Entry = (string, Experiment)

  /** Line 31: the sort key `(project, experiment id)`. */
  function Key(e: Entry): (string, string)
  {
    (e.0, e.1.ind)
  }

  predicate EntryLe(a: Entry, b: Entry)
  {
    StrPairLe(Key(a), Key(b))
  }

  lemma EntryLePreorder()
    ensures TotalPreorder(EntryLe)
  {
    StrPairLePreorder();
  }

  /** Lines 31-32: the entries sorted by key. */
  function SortedEntries(entries: seq<Entry>): (r: seq<Entry>)
    ensures |r| == |entries| && multiset(r) == multiset(entries) && SortedBy(r, EntryLe)
  {
    EntryLePreorder();
    SortBy(entries, EntryLe)
  }

  /** The keys of the entries, in order. */
  function Keys(entries: seq<Entry>): (r: seq<(string, string)>)
    ensures |r| == |entries| && forall i :: 0 <= i < |entries| ==> r[i] == Key(entries[i])
  {
    seq(|entries|, i requires 0 <= i < |entries| => Key(entries[i]))
  }

  /** Lines 34-36: no (project, experiment id) key is on both sides. */
  predicate Disjoint(treatment: seq<Entry>, control: seq<Entry>)
  {
    forall i, j :: 0 <= i < |treatment| && 0 <= j < |control| ==> Key(treatment[i]) != Key(control[j])
  }

  /** Sorting either side does not change whether the sides share a key. */
  lemma DisjointSorted(treatment: seq<Entry>, control: seq<Entry>)
    ensures Disjoint(SortedEntries(treatment), SortedEntries(control)) <==> Disjoint(treatment, control)
  {
    var t, c := SortedEntries(treatment), SortedEntries(control);
    EntryLePreorder();
    SortByMembers(treatment, EntryLe);
    SortByMembers(control, EntryLe);
    if Disjoint(t, c) {
      forall i, j | 0 <= i < |treatment| && 0 <= j < |control| ensures Key(treatment[i]) != Key(control[j]) {
        assert treatment[i] in t && control[j] in c;
      }
    }
    if Disjoint(treatment, control) {
      forall i, j | 0 <= i < |t| && 0 <= j < |c| ensures Key(t[i]) != Key(c[j]) {
        assert t[i] in treatment && c[j] in control;
      }
    }
  }

  /** Both sides sorted by key, with no key on both. */
  predicate ValidSides(treatment: seq<Entry>, control: seq<Entry>)
  {
    SortedBy(treatment, EntryLe) && SortedBy(control, EntryLe) && Disjoint(treatment, control)
  }

  /** Lines 31-36: both sides sorted by key, or the assertion error when they share a key. */
  function Sides(treatment: seq<Entry>, control: seq<Entry>): Result<(seq<Entry>, seq<Entry>)>
  {
    var t, c := SortedEntries(treatment), SortedEntries(control);
    if Disjoint(t, c) then Ok((t, c)) else Err(AssertionError)
  }

  /** The sides are sorted exactly when they share no key, and then they are valid. */
  lemma SidesSpec(treatment: seq<Entry>, control: seq<Entry>)
    ensures Sides(treatment, control).Err? <==> !Disjoint(treatment, control)
    ensures Sides(treatment, control).Err? ==> Sides(treatment, control).error == AssertionError
    ensures Sides(treatment, control).Ok? ==> ValidSides(Sides(treatment, control).value.0, Sides(treatment, control).value.1)
  {
    DisjointSorted(treatment, control);
  }

  /** Lines 50-54: the keys of the entries, sorted. */
  function SortedKeys(entries: seq<Entry>): (r: seq<(string, string)>)
    ensures multiset(r) == multiset(Keys(entries)) && SortedBy(r, StrPairLe)
  {
    StrPairLePreorder();
    SortBy(Keys(entries), StrPairLe)
  }

  /** Entries sorted by key have their keys in order, so sorting the keys changes nothing. */
  lemma KeysOfSorted(entries: seq<Entry>)
    requires SortedBy(entries, EntryLe)
    ensures SortedBy(Keys(entries), StrPairLe)
    ensures SortedKeys(entries) == Keys(entries)
  {
    StrPairLePreorder();
    var ks := Keys(entries);
    forall i, j | 0 <= i < j < |ks| ensures StrPairLe(ks[i], ks[j]) {
      assert EntryLe(entries[i], entries[j]);
    }
    SortBySorted(ks, StrPairLe);
  }

  class Config {
    var ind: string
    var assembly: string
    var treatment: seq<Entry>
    var control: seq<Entry>
    var treatmentLabel: string
    var controlLabel: string
    var results: Path
    var readThrough: Path
    var readIn: Path
    var divergent: Path
    var intronic: Path

    /** Lines 7-26: the dataclass initialiser; the derived paths are not set yet. */
    constructor (ind: string, assembly: string, treatment: seq<Entry>, control: seq<Entry>,
                 treatmentLabel: string, controlLabel: string, results: Path)
      ensures this.ind == ind && this.assembly == assembly
      ensures this.treatment == treatment && this.control == control
      ensures this.treatmentLabel == treatmentLabel && this.controlLabel == controlLabel
      ensures this.results == results
      ensures readThrough == readIn == divergent == intronic == []
    {
      this.ind := ind;
      this.assembly := assembly;
      this.treatment := treatment;
      this.control := control;
      this.treatmentLabel := treatmentLabel;
      this.controlLabel := controlLabel;
      this.results := results;
      readThrough, readIn, divergent, intronic := [], [], [], [];
    }

    /** Lines 38-42: the result tables under `results`. */
    predicate PathsDerived()
      reads this
    {
      readThrough == results + ["read_through.csv.gz"] && readIn == results + ["read_in.csv.gz"]
      && divergent == results + ["divergent.csv.gz"] && intronic == results + ["intronic.csv.gz"]
    }

    /** A configuration after its post-initialisation step. */
    predicate Valid()
      reads this
    {
      ValidSides(treatment, control) && PathsDerived()
    }

    /** Lines 31-36: sort both sides and assert that they share no key; a failed assertion changes nothing. */
    method SortSides() returns (r: Result<()>)
      modifies this
      ensures r.Err? ==> Sides(old(treatment), old(control)) == Err(r.error) && unchanged(this)
      ensures r.Ok? ==> Sides(old(treatment), old(control)) == Ok((treatment, control))
      ensures ind == old(ind) && assembly == old(assembly) && results == old(results)
      ensures treatmentLabel == old(treatmentLabel) && controlLabel == old(controlLabel)
    {
      var sides := Sides(treatment, control);
      if sides.Err? {
        return Err(sides.error);
      }
      treatment, control := sides.value.0, sides.value.1;
      r := Ok(());
    }

    /** Lines 38-42: move `results` under the configuration's id and derive the table paths. */
    method DerivePaths()
      modifies this
      ensures PathsDerived() && results == old(results) + [old(ind)]
      ensures ind == old(ind) && assembly == old(assembly)
      ensures treatment == old(treatment) && control == old(control)
      ensures treatmentLabel == old(treatmentLabel) && controlLabel == old(controlLabel)
    {
      var dir := results + [ind];
      results := dir;
      divergent := dir + ["divergent.csv.gz"];
      readThrough := dir + ["read_through.csv.gz"];
      readIn := dir + ["read_in.csv.gz"];
      intronic := dir + ["intronic.csv.gz"];
    }

    /**
     * Lines 29-48: sort both sides, assert that they share no key, then
     * move `results` under the configuration's id and derive the table paths.
     * A failed assertion leaves the record as it was.
     */
    method PostInit() returns (r: Result<()>)
      modifies this
      ensures r.Err? <==> !Disjoint(old(treatment), old(control))
      ensures r.Err? ==> r.error == AssertionError && unchanged(this)
      ensures r.Ok? ==> Valid()
      ensures r.Ok? ==> Sides(old(treatment), old(control)) == Ok((treatment, control))
      ensures r.Ok? ==> results == old(results) + [old(ind)]
      ensures ind == old(ind) && assembly == old(assembly)
      ensures treatmentLabel == old(treatmentLabel) && controlLabel == old(controlLabel)
    {
      SidesSpec(treatment, control);
      r := SortSides();
      if r.Ok? {
        DerivePaths();
      }
    }

    /** Lines 50-51: the treatment keys, sorted. */
    function TreatmentKey(): seq<(string, string)>
      reads this
    {
      SortedKeys(treatment)
    }

    /** Lines 53-54: the control keys, sorted. */
    function ControlKey(): seq<(string, string)>
      reads this
    {
      SortedKeys(control)
    }

    /**
     * After the post-initialisation step the keys list the stored sides in
     * their order, and no key is on both sides.
     */
    lemma ValidKeys()
      requires Valid()
      ensures TreatmentKey() == Keys(treatment) && ControlKey() == Keys(control)
      ensures forall k :: k in TreatmentKey() ==> k !in ControlKey()
    {
      KeysOfSorted(treatment);
      KeysOfSorted(control);
      forall k | k in TreatmentKey() ensures k !in ControlKey() {
        var i :| 0 <= i < |treatment| && Keys(treatment)[i] == k;
        assert forall j :: 0 <= j < |control| ==> Keys(control)[j] != k;
      }
    }
  }
}
