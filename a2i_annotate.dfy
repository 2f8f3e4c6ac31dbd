// The genomic annotation of A-to-I editing sites: genic and downstream
// regions are derived from the transcripts, chrM is mitochondrial, the
// overlapping regions are resolved by a fixed priority, and every site is
// labelled by the one resolved region it falls in, or as intergenic.
module A2IAnnotate {
  import opened Common
  import opened Intervals

  /** The region categories, `Intergenic` for a site in none of them. */
  datatype Label = MT | Exon | Intron | Tes1kb | Tes5kb | Tes10kb | Intergenic

  /** Line 42: the categories from the most to the least important. */
  const Priority: seq<Label> := [MT, Exon, Intron, Tes1kb, Tes5kb, Tes10kb]

  /** A contig and a strand symbol. */
  type Key = (string, char)

  /** A transcript: its contig, strand, exons in order and transcription end site. */
  datatype Rna = Rna(seqid: string, strand: char, exons: seq<Interval>, tes: int)

  /** A stretch of one category on one contig and strand. */
  datatype Entry = Entry(cat: Label, key: Key, iv: Interval)

  // ---------------------------------------------------------------------
  // Resolution

  /** Lines 42-45 from the `i`-th category on. */
  function ResolutionFrom(keys: set<Label>, i: nat): (r: Label)
    requires i <= |Priority|
    ensures r == Intergenic || (r in keys && exists j :: i <= j < |Priority| && Priority[j] == r)
    decreases |Priority| - i
  {
    if i == |Priority| then Intergenic
    else if Priority[i] in keys then Priority[i]
    else ResolutionFrom(keys, i + 1)
  }

  /** Lines 41-45: the most important category present, or intergenic. */
  function Resolution(keys: set<Label>): Label
  {
    ResolutionFrom(keys, 0)
  }

  lemma {:induction false} ResolutionFromSpec(keys: set<Label>, i: nat)
    requires i <= |Priority|
    ensures ResolutionFrom(keys, i) == Intergenic <==> forall j :: i <= j < |Priority| ==> Priority[j] !in keys
    ensures forall j, k :: i <= j < k < |Priority| && Priority[k] == ResolutionFrom(keys, i) ==> Priority[j] !in keys
    decreases |Priority| - i
  {
    if i < |Priority| && Priority[i] !in keys {
      ResolutionFromSpec(keys, i + 1);
    }
  }

  /**
   * The resolution is intergenic exactly when no category is present;
   * otherwise it is a present category and no more important one is present.
   */
  lemma ResolutionSpec(keys: set<Label>)
    ensures Resolution(keys) == Intergenic <==> forall j :: 0 <= j < |Priority| ==> Priority[j] !in keys
    ensures Resolution(keys) != Intergenic ==> Resolution(keys) in keys
    ensures forall j, k :: 0 <= j < k < |Priority| && Priority[k] == Resolution(keys) ==> Priority[j] !in keys
  {
    ResolutionFromSpec(keys, 0);
  }

  /** Every derived category outranks intergenic, so a site with any region is never intergenic. */
  lemma ResolutionPresent(keys: set<Label>)
    requires keys != {} && Intergenic !in keys
    ensures Resolution(keys) != Intergenic && Resolution(keys) in keys
  {
    ResolutionSpec(keys);
    var l :| l in keys;
    assert Priority[Rank(l)] == l;
  }

  /** The place of a derived category in the priority. */
  function Rank(l: Label): (r: nat)
    ensures l != Intergenic ==> r < |Priority| && Priority[r] == l
  {
    match l
    case MT => 0
    case Exon => 1
    case Intron => 2
    case Tes1kb => 3
    case Tes5kb => 4
    case Tes10kb => 5
    case Intergenic => 6
  }

  /** Mitochondrial sites are MT whatever else overlaps them. */
  lemma ResolutionMT(keys: set<Label>)
    requires MT in keys
    ensures Resolution(keys) == MT
  {
  }

  // ---------------------------------------------------------------------
  // Deriving the regions

  /** Lines 18-20 up to the `n`-th exon: a gap between consecutive exons is an intron, abutting ones have none. */
  function Introns(exons: seq<Interval>): seq<Interval>
  {
    if |exons| < 2 then []
    else
      var n := |exons| - 1;
      Introns(exons[..n]) + (if exons[n - 1].end < exons[n].start then [Interval(exons[n - 1].end, exons[n].start)] else [])
  }

  /** The introns are exactly the non-empty gaps between consecutive exons, at most one fewer than the exons. */
  lemma {:induction false} IntronsSpec(exons: seq<Interval>, iv: Interval)
    ensures iv in Introns(exons) <==>
      exists i :: 0 < i < |exons| && exons[i - 1].end < exons[i].start && iv == Interval(exons[i - 1].end, exons[i].start)
    ensures iv in Introns(exons) ==> iv.NonEmpty()
    ensures |Introns(exons)| <= |exons| - 1 || exons == []
    decreases |exons|
  {
    if |exons| >= 2 {
      var n := |exons| - 1;
      var pre := exons[..n];
      IntronsSpec(pre, iv);
      var last := if exons[n - 1].end < exons[n].start then [Interval(exons[n - 1].end, exons[n].start)] else [];
      assert Introns(exons) == Introns(pre) + last;
      if exists i :: 0 < i < |exons| && exons[i - 1].end < exons[i].start && iv == Interval(exons[i - 1].end, exons[i].start) {
        var i :| 0 < i < |exons| && exons[i - 1].end < exons[i].start && iv == Interval(exons[i - 1].end, exons[i].start);
        if i < n {
          assert pre[i - 1] == exons[i - 1] && pre[i] == exons[i];
          assert iv in Introns(pre);
        } else {
          assert iv in last;
        }
      }
      if iv in Introns(pre) {
        var i :| 0 < i < n && pre[i - 1].end < pre[i].start && iv == Interval(pre[i - 1].end, pre[i].start);
        assert exons[i - 1] == pre[i - 1] && exons[i] == pre[i];
      }
    }
  }

  /** Line 17: every exon under its transcript's contig and strand. */
  function ExonEntries(rna: Rna): (r: seq<Entry>)
    ensures |r| == |rna.exons| && forall i :: 0 <= i < |r| ==> r[i] == Entry(Exon, (rna.seqid, rna.strand), rna.exons[i])
  {
    seq(|rna.exons|, i requires 0 <= i < |rna.exons| => Entry(Exon, (rna.seqid, rna.strand), rna.exons[i]))
  }

  function IntronEntries(rna: Rna): (r: seq<Entry>)
    ensures |r| == |Introns(rna.exons)|
    ensures forall i :: 0 <= i < |r| ==> r[i] == Entry(Intron, (rna.seqid, rna.strand), Introns(rna.exons)[i])
  {
    var ivs := Introns(rna.exons);
    seq(|ivs|, i requires 0 <= i < |ivs| => Entry(Intron, (rna.seqid, rna.strand), ivs[i]))
  }

  /** Lines 22-33: the windows downstream of the transcription end site, by strand. */
  function TesEntries(rna: Rna): Result<seq<Entry>>
  {
    var key := (rna.seqid, rna.strand);
    if rna.strand == '+' then
      Ok([Entry(Tes1kb, key, Interval(rna.tes, rna.tes + 1000)), Entry(Tes5kb, key, Interval(rna.tes, rna.tes + 5000)),
          Entry(Tes10kb, key, Interval(rna.tes, rna.tes + 10000))])
    else if rna.strand == '-' then
      Ok([Entry(Tes1kb, key, Interval(rna.tes - 1000, rna.tes)), Entry(Tes5kb, key, Interval(rna.tes - 5000, rna.tes)),
          Entry(Tes10kb, key, Interval(rna.tes - 10000, rna.tes))])
    else Err(ValueError)
  }

  /** The downstream window of `label`, as long as its name says. */
  function WindowSize(l: Label): int
  {
    match l
    case Tes1kb => 1000
    case Tes5kb => 5000
    case Tes10kb => 10000
    case _ => 0
  }

  /**
   * A transcript on either strand gets one window of each size that starts
   * at its end site and runs downstream (towards higher coordinates on
   * '+', lower on '-'); any other strand is a value error.
   */
  lemma TesEntriesSpec(rna: Rna)
    ensures TesEntries(rna).Err? <==> rna.strand != '+' && rna.strand != '-'
    ensures TesEntries(rna).Err? ==> TesEntries(rna).error == ValueError
    ensures TesEntries(rna).Ok? ==> |TesEntries(rna).value| == 3
    ensures TesEntries(rna).Ok? ==>
      (TesEntries(rna).value[0].cat == Tes1kb && TesEntries(rna).value[1].cat == Tes5kb && TesEntries(rna).value[2].cat == Tes10kb)
    ensures TesEntries(rna).Ok? ==> forall e :: e in TesEntries(rna).value ==>
      (e.key == (rna.seqid, rna.strand) && e.iv.Len() == WindowSize(e.cat) &&
       (rna.strand == '+' ==> e.iv.start == rna.tes) && (rna.strand == '-' ==> e.iv.end == rna.tes))
  {
  }

  /** Lines 16-33: the regions of one transcript. */
  function RnaEntries(rna: Rna): Result<seq<Entry>>
  {
    var tes := TesEntries(rna);
    if tes.Err? then Err(tes.error) else Ok(ExonEntries(rna) + IntronEntries(rna) + tes.value)
  }

  /** Lines 36-38: all of chrM, on both strands. */
  function MtEntries(mt: nat): seq<Entry>
  {
    [Entry(MT, ("chrM", '+'), Interval(0, mt)), Entry(MT, ("chrM", '-'), Interval(0, mt))]
  }

  /** Lines 14-33 over the transcripts, in order. */
  function RnasEntries(rnas: seq<Rna>): Result<seq<Entry>>
  {
    if rnas == [] then Ok([])
    else
      var before := RnasEntries(rnas[..|rnas| - 1]);
      var last := RnaEntries(rnas[|rnas| - 1]);
      if before.Err? then before else if last.Err? then last else Ok(before.value + last.value)
  }

  /** Lines 13-38: the regions of every transcript, then chrM. */
  function Regions(rnas: seq<Rna>, mt: nat): Result<seq<Entry>>
  {
    var r := RnasEntries(rnas);
    if r.Err? then r else Ok(r.value + MtEntries(mt))
  }

  /** Line 33: a transcript on neither strand. */
  predicate BadStrand(rna: Rna)
  {
    rna.strand != '+' && rna.strand != '-'
  }

  lemma RnaEntriesErr(rna: Rna)
    ensures RnaEntries(rna).Err? <==> BadStrand(rna)
    ensures RnaEntries(rna).Err? ==> RnaEntries(rna).error == ValueError
  {
  }

  /** The regions fail exactly when a transcript has neither strand, with a value error. */
  lemma {:induction false} RnasEntriesErr(rnas: seq<Rna>)
    ensures RnasEntries(rnas).Err? <==> exists i :: 0 <= i < |rnas| && BadStrand(rnas[i])
    ensures RnasEntries(rnas).Err? ==> RnasEntries(rnas).error == ValueError
    decreases |rnas|
  {
    if rnas != [] {
      var n := |rnas| - 1;
      RnasEntriesErr(rnas[..n]);
      RnaEntriesErr(rnas[n]);
      if exists i :: 0 <= i < |rnas| && BadStrand(rnas[i]) {
        var i :| 0 <= i < |rnas| && BadStrand(rnas[i]);
        if i < n {
          assert rnas[..n][i] == rnas[i];
        }
      }
      if exists i :: 0 <= i < n && BadStrand(rnas[..n][i]) {
        var i :| 0 <= i < n && BadStrand(rnas[..n][i]);
        assert rnas[i] == rnas[..n][i];
      }
    }
  }

  /** A transcript that fails fails the whole derivation. */
  lemma {:induction false} RnasEntriesErrPrefix(rnas: seq<Rna>, i: nat)
    requires i <= |rnas| && RnasEntries(rnas[..i]).Err?
    ensures RnasEntries(rnas) == RnasEntries(rnas[..i])
    decreases |rnas| - i
  {
    if i < |rnas| {
      assert rnas[..i + 1][..i] == rnas[..i];
      RnasEntriesErrPrefix(rnas, i + 1);
    } else {
      assert rnas[..i] == rnas;
    }
  }

  /** The categories of the regions over position `p` of a contig and strand. */
  ghost function KeysAt(entries: seq<Entry>, key: Key, p: int): set<Label>
  {
    set e | e in entries && e.key == key && e.iv.Contains(p) :: e.cat
  }

  /** Lines 36-38, 41-44: every position of chrM resolves to MT, on both strands. */
  lemma ChrMIsMT(rnas: seq<Rna>, mt: nat, strand: char, p: int)
    requires Regions(rnas, mt).Ok? && (strand == '+' || strand == '-') && 0 <= p < mt
    ensures Resolution(KeysAt(Regions(rnas, mt).value, ("chrM", strand), p)) == MT
  {
    var entries := Regions(rnas, mt).value;
    var e := if strand == '+' then MtEntries(mt)[0] else MtEntries(mt)[1];
    assert e in entries;
    assert MT in KeysAt(entries, ("chrM", strand), p);
  }

  /** Line 17: one exon entry after another. */
  method AddExons(regions: seq<Entry>, rna: Rna) returns (r: seq<Entry>)
    ensures r == regions + ExonEntries(rna)
  {
    r := regions;
    for j := 0 to |rna.exons|
      invariant r == regions + ExonEntries(rna)[..j]
    {
      r := r + [Entry(Exon, (rna.seqid, rna.strand), rna.exons[j])];
      assert ExonEntries(rna)[..j + 1] == ExonEntries(rna)[..j] + [ExonEntries(rna)[j]];
    }
    assert ExonEntries(rna)[..|rna.exons|] == ExonEntries(rna);
  }

  /** Lines 18-20: the introns between consecutive exons, in order. */
  method AddIntrons(regions: seq<Entry>, rna: Rna) returns (r: seq<Entry>)
    ensures r == regions + IntronEntries(rna)
  {
    ghost var key := (rna.seqid, rna.strand);
    ghost var found: seq<Interval> := [];
    r := regions;
    if |rna.exons| > 0 {
      for j := 1 to |rna.exons|
        invariant found == Introns(rna.exons[..j])
        invariant |r| == |regions| + |found|
        invariant r[..|regions|] == regions
        invariant forall i :: 0 <= i < |found| ==> r[|regions| + i] == Entry(Intron, key, found[i])
      {
        var prv, nxt := rna.exons[j - 1], rna.exons[j];
        assert rna.exons[..j + 1][..j] == rna.exons[..j];
        if prv.end < nxt.start {
          r := r + [Entry(Intron, (rna.seqid, rna.strand), Interval(prv.end, nxt.start))];
          found := found + [Interval(prv.end, nxt.start)];
        }
      }
      assert rna.exons[..|rna.exons|] == rna.exons;
    }
    assert found == Introns(rna.exons);
    assert |r| == |regions + IntronEntries(rna)|;
    forall i | 0 <= i < |r| ensures r[i] == (regions + IntronEntries(rna))[i] {
      if i < |regions| {
        assert r[i] == r[..|regions|][i];
      }
    }
  }

  /** Lines 14-33 for one transcript. */
  method AddRna(regions: seq<Entry>, rna: Rna) returns (r: Result<seq<Entry>>)
    ensures RnaEntries(rna).Err? ==> r == Err(RnaEntries(rna).error)
    ensures RnaEntries(rna).Ok? ==> r == Ok(regions + RnaEntries(rna).value)
  {
    var withExons := AddExons(regions, rna);
    var withIntrons := AddIntrons(withExons, rna);
    var tes := rna.tes;
    var key := (rna.seqid, rna.strand);
    match rna.strand {
      case '+' =>
        r := Ok(withIntrons + [Entry(Tes1kb, key, Interval(tes, tes + 1000))]
                + [Entry(Tes5kb, key, Interval(tes, tes + 5000))] + [Entry(Tes10kb, key, Interval(tes, tes + 10000))]);
        assert r.value == regions + (ExonEntries(rna) + IntronEntries(rna) + TesEntries(rna).value);
      case '-' =>
        r := Ok(withIntrons + [Entry(Tes1kb, key, Interval(tes - 1000, tes))]
                + [Entry(Tes5kb, key, Interval(tes - 5000, tes))] + [Entry(Tes10kb, key, Interval(tes - 10000, tes))]);
        assert r.value == regions + (ExonEntries(rna) + IntronEntries(rna) + TesEntries(rna).value);
      case _ =>
        r := Err(ValueError);
    }
  }

  /** Lines 13-38: the regions of every transcript, then chrM; the first transcript on neither strand fails. */
  method DeriveRegions(rnas: seq<Rna>, mt: nat) returns (r: Result<seq<Entry>>)
    ensures r == Regions(rnas, mt)
  {
    var regions: seq<Entry> := [];
    for i := 0 to |rnas|
      invariant RnasEntries(rnas[..i]) == Ok(regions)
    {
      assert rnas[..i + 1][..i] == rnas[..i];
      var next := AddRna(regions, rnas[i]);
      if next.Err? {
        RnasEntriesErrPrefix(rnas, i + 1);
        assert rnas[..i + 1] == rnas[..i] + [rnas[i]];
        return next;
      }
      regions := next.value;
    }
    assert rnas[..|rnas|] == rnas;
    regions := regions + [Entry(MT, ("chrM", '+'), Interval(0, mt))];
    regions := regions + [Entry(MT, ("chrM", '-'), Interval(0, mt))];
    assert regions == RnasEntries(rnas).value + MtEntries(mt);
    r := Ok(regions);
  }

  // ---------------------------------------------------------------------
  // Annotating sites

  /** A site from the BED file. */
  datatype Site = Site(chrom: string, strand: char, start: int, end: int)

  /** The interval trees: for each contig and strand, the resolved stretches with their categories. */
  type Trees = map<Key, set<(Interval, Label)>>

  function Tree(trees: Trees, k: Key): set<(Interval, Label)>
  {
    if k in trees then trees[k] else {}
  }

  /** Lines 49-54: the resolved stretches, each added under its contig and strand. */
  function TreesOf(pieces: seq<Entry>): Trees
  {
    if pieces == [] then map[]
    else
      var t := TreesOf(pieces[..|pieces| - 1]);
      var x := pieces[|pieces| - 1];
      t[x.key := Tree(t, x.key) + {(x.iv, x.cat)}]
  }

  /** A tree holds exactly the stretches added under its key. */
  lemma {:induction false} TreesOfSpec(pieces: seq<Entry>, k: Key, x: (Interval, Label))
    ensures x in Tree(TreesOf(pieces), k) <==> exists i :: 0 <= i < |pieces| && pieces[i].key == k && (pieces[i].iv, pieces[i].cat) == x
    decreases |pieces|
  {
    if pieces != [] {
      var n := |pieces| - 1;
      TreesOfSpec(pieces[..n], k, x);
      if exists i :: 0 <= i < |pieces| && pieces[i].key == k && (pieces[i].iv, pieces[i].cat) == x {
        var i :| 0 <= i < |pieces| && pieces[i].key == k && (pieces[i].iv, pieces[i].cat) == x;
        if i < n {
          assert pieces[..n][i] == pieces[i];
        }
      }
      if exists i :: 0 <= i < n && pieces[..n][i].key == k && (pieces[..n][i].iv, pieces[..n][i].cat) == x {
        var i :| 0 <= i < n && pieces[..n][i].key == k && (pieces[..n][i].iv, pieces[..n][i].cat) == x;
        assert pieces[i] == pieces[..n][i];
      }
    }
  }

  /** Lines 49-54 as their loop. */
  method BuildTrees(pieces: seq<Entry>) returns (trees: Trees)
    ensures trees == TreesOf(pieces)
  {
    trees := map[];
    for i := 0 to |pieces|
      invariant trees == TreesOf(pieces[..i])
    {
      assert pieces[..i + 1][..i] == pieces[..i];
      var tkey := pieces[i].key;
      trees := trees[tkey := Tree(trees, tkey) + {(pieces[i].iv, pieces[i].cat)}];
    }
    assert pieces[..|pieces|] == pieces;
  }

  /** Two stretches share at least one base. */
  predicate Shares(a: Interval, start: int, end: int)
  {
    Max(a.start, start) < Min(a.end, end)
  }

  /** Line 59: the stretches of the site's tree that share a base with it. */
  function Overlap(trees: Trees, s: Site): set<(Interval, Label)>
  {
    set x | x in Tree(trees, (s.chrom, s.strand)) && Shares(x.0, s.start, s.end)
  }

  /** Lines 59-62: the category of the one stretch the site is in, intergenic when none, an assertion error when several. */
  ghost function SiteCategory(trees: Trees, s: Site): Result<Label>
  {
    var o := Overlap(trees, s);
    if |o| > 1 then Err(AssertionError)
    else if o == {} then Ok(Intergenic)
    else
      var x :| x in o;
      Ok(x.1)
  }

  type Categories = map<Label, seq<Site>>

  type Mapping = map<(string, char, int), Label>

  function Listed(c: Categories, l: Label): seq<Site>
  {
    if l in c then c[l] else []
  }

  /** Lines 57-64 over the sites, in order; the first failed assertion ends the annotation. */
  ghost function Annotated(trees: Trees, sites: seq<Site>): Result<(Categories, Mapping)>
  {
    if sites == [] then Ok((map[], map[]))
    else
      var before := Annotated(trees, sites[..|sites| - 1]);
      var s := sites[|sites| - 1];
      var cat := SiteCategory(trees, s);
      if before.Err? then before
      else if cat.Err? then Err(cat.error)
      else
        var (c, m) := before.value;
        Ok((c[cat.value := Listed(c, cat.value) + [s]], m[(s.chrom, s.strand, s.start) := cat.value]))
  }

  /** A set of one element is that element. */
  lemma Singleton<T>(o: set<T>, x: T)
    requires |o| <= 1 && x in o
    ensures o == {x}
  {
    var rest := o - {x};
    assert o == rest + {x} && x !in rest;
    assert |rest| == 0;
  }

  /** Lines 58-64 for one site. */
  method AnnotateSite(trees: Trees, s: Site, categories: Categories, mapping: Mapping) returns (r: Result<(Categories, Mapping)>)
    ensures var cat := SiteCategory(trees, s);
      (cat.Err? ==> r == Err(cat.error)) &&
      (cat.Ok? ==> r == Ok((categories[cat.value := Listed(categories, cat.value) + [s]],
                             mapping[(s.chrom, s.strand, s.start) := cat.value])))
  {
    var tree := Tree(trees, (s.chrom, s.strand));
    var overlap := set x | x in tree && Shares(x.0, s.start, s.end);
    assert overlap == Overlap(trees, s);
    if |overlap| > 1 {
      return Err(AssertionError);
    }
    var cat := Intergenic;
    if overlap != {} {
      var x :| x in overlap;
      Singleton(overlap, x);
      cat := x.1;
    }
    r := Ok((categories[cat := Listed(categories, cat) + [s]], mapping[(s.chrom, s.strand, s.start) := cat]));
  }

  /** Lines 57-65 as their loop. */
  method AnnotateSites(trees: Trees, sites: seq<Site>) returns (r: Result<(Categories, Mapping)>)
    ensures r == Annotated(trees, sites)
  {
    var categories: Categories, mapping: Mapping := map[], map[];
    for i := 0 to |sites|
      invariant Annotated(trees, sites[..i]) == Ok((categories, mapping))
    {
      assert sites[..i + 1][..i] == sites[..i];
      var next := AnnotateSite(trees, sites[i], categories, mapping);
      if next.Err? {
        AnnotatedErrPrefix(trees, sites, i + 1);
        return next;
      }
      categories, mapping := next.value.0, next.value.1;
    }
    assert sites[..|sites|] == sites;
    r := Ok((categories, mapping));
  }

  /** A site that fails fails the whole annotation. */
  lemma {:induction false} AnnotatedErrPrefix(trees: Trees, sites: seq<Site>, i: nat)
    requires i <= |sites| && Annotated(trees, sites[..i]).Err?
    ensures Annotated(trees, sites) == Annotated(trees, sites[..i])
    decreases |sites| - i
  {
    if i < |sites| {
      assert sites[..i + 1][..i] == sites[..i];
      AnnotatedErrPrefix(trees, sites, i + 1);
    } else {
      assert sites[..i] == sites;
    }
  }

  /** The sites of category `l`, in order. */
  ghost function SitesOf(trees: Trees, sites: seq<Site>, l: Label): seq<Site>
  {
    if sites == [] then []
    else SitesOf(trees, sites[..|sites| - 1], l) + (if SiteCategory(trees, sites[|sites| - 1]) == Ok(l) then [sites[|sites| - 1]] else [])
  }

  /** Annotation fails exactly when a site shares bases with more than one stretch, with an assertion error. */
  lemma {:induction false} AnnotatedErr(trees: Trees, sites: seq<Site>)
    ensures Annotated(trees, sites).Err? <==> exists i :: 0 <= i < |sites| && |Overlap(trees, sites[i])| > 1
    ensures Annotated(trees, sites).Err? ==> Annotated(trees, sites).error == AssertionError
    decreases |sites|
  {
    if sites != [] {
      var n := |sites| - 1;
      AnnotatedErr(trees, sites[..n]);
      if exists i :: 0 <= i < |sites| && |Overlap(trees, sites[i])| > 1 {
        var i :| 0 <= i < |sites| && |Overlap(trees, sites[i])| > 1;
        if i < n {
          assert sites[..n][i] == sites[i];
        }
      }
      if exists i :: 0 <= i < n && |Overlap(trees, sites[..n][i])| > 1 {
        var i :| 0 <= i < n && |Overlap(trees, sites[..n][i])| > 1;
        assert sites[i] == sites[..n][i];
      }
    }
  }

  /** Lines 62-63: each category lists exactly its sites, in order. */
  lemma {:induction false} AnnotatedLists(trees: Trees, sites: seq<Site>, l: Label)
    requires Annotated(trees, sites).Ok?
    ensures Listed(Annotated(trees, sites).value.0, l) == SitesOf(trees, sites, l)
    decreases |sites|
  {
    if sites != [] {
      AnnotatedLists(trees, sites[..|sites| - 1], l);
    }
  }

  /** Line 64: every site's position is mapped. */
  lemma {:induction false} AnnotatedMapped(trees: Trees, sites: seq<Site>)
    requires Annotated(trees, sites).Ok?
    ensures forall i :: 0 <= i < |sites| ==> (sites[i].chrom, sites[i].strand, sites[i].start) in Annotated(trees, sites).value.1
    decreases |sites|
  {
    if sites != [] {
      var n := |sites| - 1;
      AnnotatedMapped(trees, sites[..n]);
      forall i | 0 <= i < n ensures (sites[i].chrom, sites[i].strand, sites[i].start) in Annotated(trees, sites).value.1 {
        assert sites[..n][i] == sites[i];
      }
    }
  }

  /** The last site at a position decides its category in the mapping. */
  lemma {:induction false} MappingLast(trees: Trees, sites: seq<Site>, i: nat)
    requires Annotated(trees, sites).Ok? && i < |sites|
    requires forall j :: i < j < |sites| ==>
      (sites[j].chrom, sites[j].strand, sites[j].start) != (sites[i].chrom, sites[i].strand, sites[i].start)
    ensures SiteCategory(trees, sites[i]).Ok?
    ensures (sites[i].chrom, sites[i].strand, sites[i].start) in Annotated(trees, sites).value.1 &&
      Annotated(trees, sites).value.1[(sites[i].chrom, sites[i].strand, sites[i].start)] == SiteCategory(trees, sites[i]).value
    decreases |sites|
  {
    var n := |sites| - 1;
    if i < n {
      assert sites[..n][i] == sites[i];
      forall j | i < j < n ensures (sites[..n][j].chrom, sites[..n][j].strand, sites[..n][j].start) != (sites[i].chrom, sites[i].strand, sites[i].start) {
        assert sites[..n][j] == sites[j];
      }
      MappingLast(trees, sites[..n], i);
    }
  }

  // ---------------------------------------------------------------------
  // Sites against the resolved regions

  /**
   * What line 47 is relied on to produce from the regions: stretches of
   * one contig and strand that share a base are the same stretch with the
   * same category; each stretch carries the resolution of the regions over
   * each of its positions; and every position some region covers lies in
   * a stretch.
   */
  ghost predicate ResolvedFrom(entries: seq<Entry>, pieces: seq<Entry>)
  {
    (forall i, j ::
       (0 <= i < |pieces| && 0 <= j < |pieces| && pieces[i].key == pieces[j].key && Shares(pieces[i].iv, pieces[j].iv.start, pieces[j].iv.end))
       ==> pieces[i].iv == pieces[j].iv && pieces[i].cat == pieces[j].cat) &&
    (forall i, p :: 0 <= i < |pieces| && pieces[i].iv.Contains(p) ==>
       KeysAt(entries, pieces[i].key, p) != {} && pieces[i].cat == Resolution(KeysAt(entries, pieces[i].key, p))) &&
    (forall k, p :: KeysAt(entries, k, p) != {} ==> exists i :: 0 <= i < |pieces| && pieces[i].key == k && pieces[i].iv.Contains(p))
  }

  /**
   * Lines 56-64 against lines 13-47: a one-base site in the resolved
   * regions gets the resolution of the regions over it, and one outside
   * every region is intergenic; the assertion never fails for it.
   */
  lemma SiteLabel(entries: seq<Entry>, pieces: seq<Entry>, s: Site)
    requires ResolvedFrom(entries, pieces) && s.end == s.start + 1
    ensures KeysAt(entries, (s.chrom, s.strand), s.start) == {} ==> SiteCategory(TreesOf(pieces), s) == Ok(Intergenic)
    ensures KeysAt(entries, (s.chrom, s.strand), s.start) != {} ==>
      SiteCategory(TreesOf(pieces), s) == Ok(Resolution(KeysAt(entries, (s.chrom, s.strand), s.start)))
  {
    var trees, k, p := TreesOf(pieces), (s.chrom, s.strand), s.start;
    var o := Overlap(trees, s);
    forall x | x in o
      ensures exists i :: 0 <= i < |pieces| && pieces[i].key == k && (pieces[i].iv, pieces[i].cat) == x && pieces[i].iv.Contains(p)
      ensures KeysAt(entries, k, p) != {}
    {
      TreesOfSpec(pieces, k, x);
    }
    if KeysAt(entries, k, p) == {} {
      assert o == {};
    } else {
      var i :| 0 <= i < |pieces| && pieces[i].key == k && pieces[i].iv.Contains(p);
      var x := (pieces[i].iv, pieces[i].cat);
      TreesOfSpec(pieces, k, x);
      assert x in o;
      forall y | y in o ensures y == x {
        var j :| 0 <= j < |pieces| && pieces[j].key == k && (pieces[j].iv, pieces[j].cat) == y && pieces[j].iv.Contains(p);
        assert Shares(pieces[i].iv, pieces[j].iv.start, pieces[j].iv.end);
      }
      assert o == {x};
    }
  }

  /** Line 60: over resolved regions, one-base sites never trip the assertion. */
  lemma {:induction false} SitesNeverAssert(entries: seq<Entry>, pieces: seq<Entry>, sites: seq<Site>)
    requires ResolvedFrom(entries, pieces)
    requires forall i :: 0 <= i < |sites| ==> sites[i].end == sites[i].start + 1
    ensures Annotated(TreesOf(pieces), sites).Ok?
    decreases |sites|
  {
    if sites != [] {
      var n := |sites| - 1;
      SitesNeverAssert(entries, pieces, sites[..n]);
      SiteLabel(entries, pieces, sites[n]);
    }
  }
}
