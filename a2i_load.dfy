// Loading helpers of the A-to-I editing analysis: the windows around the
// splice junctions of an annotation, the sites of a BED file, both grouped
// per (contig, orientation) and merged, and the row filter applied to the
// editing-site tables.
module A2ILoad {
  import opened Common
  import opened Intervals
  import Bed

  // ---------------------------------------------------------------------
  // Grouping per (contig, orientation)

  type Key = (string, Strand)

  /** An interval filed under its (contig, orientation). */
  type Item = (Key, Interval)

  function ItemKey(x: Item): Key { x.0 }

  function ItemSpan(x: Item): Interval { x.1 }

  /** `biobit.Orientation(s)`: "+" and "-" are the two orientations, anything else is refused. */
  function Orientation(s: string): (r: Result<Strand>)
    ensures r.Ok? <==> s == "+" || s == "-"
    ensures r.Ok? ==> r.value != Other && Symbol(r.value) == s[0]
    ensures r.Err? ==> r.error == ValueError
  {
    if |s| != 1 then Err(ValueError)
    else if s[0] == '+' then Ok(Forward)
    else if s[0] == '-' then Ok(Reverse)
    else Err(ValueError)
  }

  /** The intervals of the items filed under `k`, in input order. */
  function Filed(items: seq<Item>, k: Key): seq<Interval>
  {
    if items == [] then []
    else
      var n := |items| - 1;
      Filed(items[..n], k) + (if items[n].0 == k then [items[n].1] else [])
  }

  lemma {:induction false} FiledCover(items: seq<Item>, k: Key, p: int)
    ensures Covered(Filed(items, k), p) <==> exists i :: 0 <= i < |items| && items[i].0 == k && items[i].1.Contains(p)
    decreases |items|
  {
    if items != [] {
      var n := |items| - 1;
      var last := if items[n].0 == k then [items[n].1] else [];
      FiledCover(items[..n], k, p);
      CoveredConcat(Filed(items[..n], k), last, p);
      if exists i :: 0 <= i < n && items[..n][i].0 == k && items[..n][i].1.Contains(p) {
        var i :| 0 <= i < n && items[..n][i].0 == k && items[..n][i].1.Contains(p);
        assert items[i] == items[..n][i];
      }
      if exists i :: 0 <= i < |items| && items[i].0 == k && items[i].1.Contains(p) {
        var i :| 0 <= i < |items| && items[i].0 == k && items[i].1.Contains(p);
        if i < n {
          assert items[..n][i] == items[i];
        } else {
          assert last[0].Contains(p);
        }
      }
    }
  }

  lemma {:induction false} FiledAbsent(items: seq<Item>, k: Key)
    requires forall i :: 0 <= i < |items| ==> items[i].0 != k
    ensures Filed(items, k) == []
    decreases |items|
  {
    if items != [] {
      FiledAbsent(items[..|items| - 1], k);
    }
  }

  /** The `defaultdict(list)` the intervals are appended to, one list per key in input order. */
  function Grouped(items: seq<Item>): map<Key, seq<Interval>>
  {
    map k | k in (set x | x in items :: x.0) :: Filed(items, k)
  }

  /** Appending an item appends its interval to the list of its key. */
  lemma GroupedSnoc(items: seq<Item>, x: Item)
    ensures var g := Grouped(items);
      Grouped(items + [x]) == g[x.0 := (if x.0 in g then g[x.0] else []) + [x.1]]
  {
    var g, h := Grouped(items), Grouped(items + [x]);
    var m := g[x.0 := (if x.0 in g then g[x.0] else []) + [x.1]];
    assert (items + [x])[..|items|] == items;
    if x.0 !in g {
      forall i | 0 <= i < |items| ensures items[i].0 != x.0 {
        assert items[i] in items;
      }
      FiledAbsent(items, x.0);
    }
    assert (set y | y in items + [x] :: y.0) == (set y | y in items :: y.0) + {x.0};
    forall k | k in h ensures k in m && h[k] == m[k] {
      assert Filed(items + [x], k) == Filed(items, k) + (if x.0 == k then [x.1] else []);
    }
    assert h.Keys == m.Keys;
  }

  /** Lines 28 and 36: every list merged. */
  function Merged(g: map<Key, seq<Interval>>): (r: map<Key, seq<Interval>>)
    ensures r.Keys == g.Keys
  {
    map k | k in g :: Merge(g[k])
  }

  /** A key is among the merged groups exactly when some item carries it. */
  lemma MergedGroupsKeys(items: seq<Item>, k: Key)
    ensures k in Merged(Grouped(items)) <==> exists i :: 0 <= i < |items| && items[i].0 == k
  {
    if exists i :: 0 <= i < |items| && items[i].0 == k {
      var i :| 0 <= i < |items| && items[i].0 == k;
      assert items[i] in items;
    }
  }

  /**
   * The merged intervals of a key are separated and cover exactly the
   * positions the intervals filed under it cover.
   */
  lemma MergedGroupsCover(items: seq<Item>, k: Key, p: int)
    requires k in Grouped(items)
    ensures Separated(Merged(Grouped(items))[k])
    ensures Covered(Merged(Grouped(items))[k], p) <==> exists i :: 0 <= i < |items| && items[i].0 == k && items[i].1.Contains(p)
  {
    FiledCover(items, k, p);
  }

  /** The lists of `xss` one after the other. */
  function Flat<T>(xss: seq<seq<T>>): seq<T>
  {
    if xss == [] then [] else Flat(xss[..|xss| - 1]) + xss[|xss| - 1]
  }

  lemma {:induction false} FlatMembers<T>(xss: seq<seq<T>>, x: T)
    ensures x in Flat(xss) <==> exists i :: 0 <= i < |xss| && x in xss[i]
    decreases |xss|
  {
    if xss != [] {
      var n := |xss| - 1;
      FlatMembers(xss[..n], x);
      if exists i :: 0 <= i < n && x in xss[..n][i] {
        var i :| 0 <= i < n && x in xss[..n][i];
        assert xss[..n][i] == xss[i];
      }
      if exists i :: 0 <= i < |xss| && x in xss[i] {
        var i :| 0 <= i < |xss| && x in xss[i];
        if i < n {
          assert xss[..n][i] == xss[i];
        }
      }
    }
  }

  // ---------------------------------------------------------------------
  // splice_sites

  /** An annotated transcript: its contig, its strand and its exons in order. */
  datatype Rna = Rna(seqid: string, strand: Strand, exons: seq<Interval>)

  /**
   * The windows of the first `n` junctions: `offset` bases after the end of
   * the exon before, then `offset` bases before the start of the exon after.
   */
  function Junctions(exons: seq<Interval>, offset: int, n: nat): (r: seq<Interval>)
    requires n == 0 || n < |exons|
    ensures |r| == 2 * n
  {
    if n == 0 then []
    else
      Junctions(exons, offset, n - 1)
      + [Interval(exons[n - 1].end, exons[n - 1].end + offset), Interval(exons[n].start - offset, exons[n].start)]
  }

  /** Lines 18-25: junction `j` contributes windows `2j` and `2j + 1`, whether or not its exons abut. */
  lemma {:induction false} JunctionsAt(exons: seq<Interval>, offset: int, n: nat, j: int)
    requires n == 0 || n < |exons|
    requires 0 <= j < n
    ensures Junctions(exons, offset, n)[2 * j] == Interval(exons[j].end, exons[j].end + offset)
    ensures Junctions(exons, offset, n)[2 * j + 1] == Interval(exons[j + 1].start - offset, exons[j + 1].start)
  {
    if j < n - 1 {
      JunctionsAt(exons, offset, n - 1, j);
    }
  }

  /** Position `p` lies in one of the two windows of junction `j`. */
  predicate NearJunction(exons: seq<Interval>, offset: int, j: int, p: int)
    requires 0 <= j < |exons| - 1
  {
    exons[j].end <= p < exons[j].end + offset || exons[j + 1].start - offset <= p < exons[j + 1].start
  }

  lemma JunctionsCover(exons: seq<Interval>, offset: int, n: nat, p: int)
    requires n == 0 || n < |exons|
    ensures Covered(Junctions(exons, offset, n), p) <==> exists j :: 0 <= j < n && NearJunction(exons, offset, j, p)
  {
    var w := Junctions(exons, offset, n);
    if Covered(w, p) {
      var i :| 0 <= i < |w| && w[i].Contains(p);
      JunctionsAt(exons, offset, n, i / 2);
      assert NearJunction(exons, offset, i / 2, p);
    }
    if exists j :: 0 <= j < n && NearJunction(exons, offset, j, p) {
      var j :| 0 <= j < n && NearJunction(exons, offset, j, p);
      JunctionsAt(exons, offset, n, j);
      if w[2 * j].Contains(p) {
        assert Covered(w, p);
      } else {
        assert w[2 * j + 1].Contains(p);
      }
    }
  }

  /**
   * Lines 18-25 for one transcript: its junction windows, the assertion
   * error when it has a junction on a strand that is neither "+" nor "-",
   * and the interval error of a negative offset.
   */
  function Windows(rna: Rna, offset: int): Result<seq<Interval>>
  {
    if |rna.exons| < 2 then Ok([])
    else if rna.strand == Other then Err(AssertionError)
    else if offset < 0 then Err(InvalidInterval)
    else Ok(Junctions(rna.exons, offset, |rna.exons| - 1))
  }

  function KeyOf(rna: Rna): Key
  {
    (rna.seqid, rna.strand)
  }

  /** The windows of a transcript filed under its contig and orientation. */
  function Keyed(rna: Rna, offset: int): (r: Result<seq<Item>>)
    ensures r.Ok? <==> Windows(rna, offset).Ok?
    ensures r.Err? ==> r.error == Windows(rna, offset).error
    ensures r.Ok? ==> |r.value| == |Windows(rna, offset).value|
    ensures r.Ok? ==> forall i :: 0 <= i < |r.value| ==> r.value[i] == (KeyOf(rna), Windows(rna, offset).value[i])
  {
    var w := Windows(rna, offset);
    if w.Err? then Err(w.error)
    else Ok(seq(|w.value|, i requires 0 <= i < |w.value| => (KeyOf(rna), w.value[i])))
  }

  function AllKeyed(rnas: seq<Rna>, offset: int): (r: seq<Result<seq<Item>>>)
    ensures |r| == |rnas| && forall i :: 0 <= i < |rnas| ==> r[i] == Keyed(rnas[i], offset)
  {
    seq(|rnas|, i requires 0 <= i < |rnas| => Keyed(rnas[i], offset))
  }

  /** Lines 17-25: every window in transcript order, or the first failure. */
  function Collected(rnas: seq<Rna>, offset: int): Result<seq<Item>>
  {
    var all := FirstErr(AllKeyed(rnas, offset));
    if all.Err? then Err(all.error) else Ok(Flat(all.value))
  }

  /** Lines 14-29: the merged junction windows per (contig, orientation). */
  function SpliceSites(rnas: seq<Rna>, offset: int): Result<map<Key, seq<Interval>>>
  {
    var items := Collected(rnas, offset);
    if items.Err? then Err(items.error) else Ok(Merged(Grouped(items.value)))
  }

  /** A transcript the loop cannot get past. */
  predicate Rejects(rna: Rna, offset: int)
  {
    |rna.exons| >= 2 && (rna.strand == Other || offset < 0)
  }

  /**
   * The splice sites fail exactly when some transcript with a junction is on
   * neither strand or the offset is negative; with a non-negative offset the
   * failure is the strand assertion, and with every strand known it is the
   * interval error.
   */
  lemma SpliceSitesErr(rnas: seq<Rna>, offset: int)
    ensures SpliceSites(rnas, offset).Err? <==> exists i :: 0 <= i < |rnas| && Rejects(rnas[i], offset)
    ensures SpliceSites(rnas, offset).Err? && offset >= 0 ==> SpliceSites(rnas, offset).error == AssertionError
    ensures SpliceSites(rnas, offset).Err? && (forall i :: 0 <= i < |rnas| ==> rnas[i].strand != Other) ==>
      SpliceSites(rnas, offset).error == InvalidInterval
  {
    var rs := AllKeyed(rnas, offset);
    FirstErrSpec(rs);
    if exists i :: 0 <= i < |rnas| && Rejects(rnas[i], offset) {
      var i :| 0 <= i < |rnas| && Rejects(rnas[i], offset);
      assert rs[i].Err?;
    }
    if FirstErr(rs).Err? {
      FirstErrFrom(rs);
      var i :| 0 <= i < |rs| && rs[i] == Err(FirstErr(rs).error);
      assert Rejects(rnas[i], offset);
    }
  }

  /** The windows of transcript `i` reach `p` under key `k`. */
  predicate WindowAt(rnas: seq<Rna>, offset: int, k: Key, p: int, i: int)
    requires 0 <= i < |rnas|
  {
    KeyOf(rnas[i]) == k && exists j :: 0 <= j < |rnas[i].exons| - 1 && NearJunction(rnas[i].exons, offset, j, p)
  }

  /** `iv` is one of the windows of `rna`. */
  predicate WindowOf(rna: Rna, offset: int, iv: Interval)
  {
    Windows(rna, offset).Ok? && iv in Windows(rna, offset).value
  }

  /** The collected items are exactly the windows of the transcripts, each under its transcript's key. */
  lemma CollectedMembers(rnas: seq<Rna>, offset: int, x: Item)
    requires Collected(rnas, offset).Ok?
    ensures x in Collected(rnas, offset).value <==>
      exists i :: 0 <= i < |rnas| && x.0 == KeyOf(rnas[i]) && WindowOf(rnas[i], offset, x.1)
  {
    var rs := AllKeyed(rnas, offset);
    var vs := FirstErr(rs).value;
    FirstErrSpec(rs);
    FlatMembers(vs, x);
    if exists i :: 0 <= i < |vs| && x in vs[i] {
      var i :| 0 <= i < |vs| && x in vs[i];
      var w := Windows(rnas[i], offset).value;
      var m :| 0 <= m < |vs[i]| && vs[i][m] == x;
      assert x == (KeyOf(rnas[i]), w[m]);
      assert x.1 in w;
    }
    if exists i :: 0 <= i < |rnas| && x.0 == KeyOf(rnas[i]) && WindowOf(rnas[i], offset, x.1) {
      var i :| 0 <= i < |rnas| && x.0 == KeyOf(rnas[i]) && WindowOf(rnas[i], offset, x.1);
      var w := Windows(rnas[i], offset).value;
      var m :| 0 <= m < |w| && w[m] == x.1;
      assert vs[i][m] == x;
    }
  }

  /** Lines 14-29: on success a key is present exactly when a transcript with a junction carries it. */
  lemma SpliceSitesKeys(rnas: seq<Rna>, offset: int, k: Key)
    requires SpliceSites(rnas, offset).Ok?
    ensures k in SpliceSites(rnas, offset).value <==> exists i :: 0 <= i < |rnas| && KeyOf(rnas[i]) == k && |rnas[i].exons| >= 2
  {
    var items := Collected(rnas, offset).value;
    MergedGroupsKeys(items, k);
    SpliceSitesErr(rnas, offset);
    if exists n :: 0 <= n < |items| && items[n].0 == k {
      var n :| 0 <= n < |items| && items[n].0 == k;
      CollectedMembers(rnas, offset, items[n]);
      var i :| 0 <= i < |rnas| && items[n].0 == KeyOf(rnas[i]) && WindowOf(rnas[i], offset, items[n].1);
      assert |rnas[i].exons| >= 2;
    }
    if exists i :: 0 <= i < |rnas| && KeyOf(rnas[i]) == k && |rnas[i].exons| >= 2 {
      var i :| 0 <= i < |rnas| && KeyOf(rnas[i]) == k && |rnas[i].exons| >= 2;
      assert !Rejects(rnas[i], offset);
      var w := Windows(rnas[i], offset).value;
      assert WindowOf(rnas[i], offset, w[0]);
      CollectedMembers(rnas, offset, (k, w[0]));
      var n :| 0 <= n < |items| && items[n] == (k, w[0]);
    }
  }

  /**
   * Lines 14-29: the merged windows of a key are separated and cover exactly
   * the positions near a junction of a transcript with that key.
   */
  lemma SpliceSitesCover(rnas: seq<Rna>, offset: int, k: Key, p: int)
    requires SpliceSites(rnas, offset).Ok? && k in SpliceSites(rnas, offset).value
    ensures Separated(SpliceSites(rnas, offset).value[k])
    ensures Covered(SpliceSites(rnas, offset).value[k], p) <==> exists i :: 0 <= i < |rnas| && WindowAt(rnas, offset, k, p, i)
  {
    var items := Collected(rnas, offset).value;
    MergedGroupsCover(items, k, p);
    if exists n :: 0 <= n < |items| && items[n].0 == k && items[n].1.Contains(p) {
      var n :| 0 <= n < |items| && items[n].0 == k && items[n].1.Contains(p);
      CollectedWindow(rnas, offset, n, p);
    }
    if exists i :: 0 <= i < |rnas| && WindowAt(rnas, offset, k, p, i) {
      var i :| 0 <= i < |rnas| && WindowAt(rnas, offset, k, p, i);
      WindowItem(rnas, offset, k, p, i);
    }
  }

  /** A collected item reaching `p` is a junction window of a transcript with its key. */
  lemma CollectedWindow(rnas: seq<Rna>, offset: int, n: int, p: int)
    requires Collected(rnas, offset).Ok? && 0 <= n < |Collected(rnas, offset).value|
    requires Collected(rnas, offset).value[n].1.Contains(p)
    ensures exists i :: 0 <= i < |rnas| && WindowAt(rnas, offset, Collected(rnas, offset).value[n].0, p, i)
  {
    var x := Collected(rnas, offset).value[n];
    CollectedMembers(rnas, offset, x);
    var i :| 0 <= i < |rnas| && x.0 == KeyOf(rnas[i]) && WindowOf(rnas[i], offset, x.1);
    var w := Windows(rnas[i], offset).value;
    var m :| 0 <= m < |w| && w[m] == x.1;
    assert Covered(w, p);
    JunctionsCover(rnas[i].exons, offset, |rnas[i].exons| - 1, p);
    assert WindowAt(rnas, offset, x.0, p, i);
  }

  /** A junction window of a transcript reaching `p` is collected under the transcript's key. */
  lemma WindowItem(rnas: seq<Rna>, offset: int, k: Key, p: int, i: int)
    requires Collected(rnas, offset).Ok? && 0 <= i < |rnas| && WindowAt(rnas, offset, k, p, i)
    ensures exists n :: 0 <= n < |Collected(rnas, offset).value| && Collected(rnas, offset).value[n].0 == k && Collected(rnas, offset).value[n].1.Contains(p)
  {
    var rs := AllKeyed(rnas, offset);
    FirstErrSpec(rs);
    assert rs[i].Ok?;
    var w := Windows(rnas[i], offset).value;
    JunctionsCover(rnas[i].exons, offset, |rnas[i].exons| - 1, p);
    var m :| 0 <= m < |w| && w[m].Contains(p);
    var x := (k, w[m]);
    assert WindowOf(rnas[i], offset, x.1);
    CollectedMembers(rnas, offset, x);
    var items := Collected(rnas, offset).value;
    var n :| 0 <= n < |items| && items[n] == x;
  }

  /** `ss[key].append(window)` of lines 20-25. */
  method Append(ss: map<Key, seq<Interval>>, ghost items: seq<Item>, x: Item) returns (r: map<Key, seq<Interval>>)
    requires ss == Grouped(items)
    ensures r == Grouped(items + [x])
  {
    GroupedSnoc(items, x);
    r := ss[x.0 := (if x.0 in ss then ss[x.0] else []) + [x.1]];
  }

  /** The junction loop of lines 18-25 for one transcript. */
  method TranscriptWindows(ss: map<Key, seq<Interval>>, ghost items: seq<Item>, rna: Rna, offset: int)
    returns (r: Result<map<Key, seq<Interval>>>, ghost added: seq<Item>)
    requires ss == Grouped(items)
    ensures r.Err? <==> Keyed(rna, offset).Err?
    ensures r.Err? ==> r.error == Keyed(rna, offset).error
    ensures r.Ok? ==> added == Keyed(rna, offset).value && r.value == Grouped(items + added)
  {
    var res := ss;
    added := [];
    var k := KeyOf(rna);
    var j := 0;
    assert items + added == items;
    while j + 1 < |rna.exons|
      invariant 0 <= j && (j == 0 || j < |rna.exons|)
      invariant |added| == 2 * j
      invariant forall m :: 0 <= m < |added| ==> added[m] == (k, Junctions(rna.exons, offset, j)[m])
      invariant j > 0 ==> rna.strand != Other && offset >= 0
      invariant res == Grouped(items + added)
    {
      var prv, nxt := rna.exons[j], rna.exons[j + 1];
      if rna.strand != Forward && rna.strand != Reverse {
        return Err(AssertionError), added;
      }
      var a := MakeInterval(prv.end, prv.end + offset);
      if a.Err? {
        return Err(a.error), added;
      }
      var b := MakeInterval(nxt.start - offset, nxt.start);
      res := Append(res, items + added, (k, a.value));
      res := Append(res, items + added + [(k, a.value)], (k, b.value));
      assert items + added + [(k, a.value)] + [(k, b.value)] == items + (added + [(k, a.value), (k, b.value)]);
      added := added + [(k, a.value), (k, b.value)];
      j := j + 1;
    }
    r := Ok(res);
  }

  /** Lines 14-29 as the loops they are. */
  method SpliceSitesLoop(rnas: seq<Rna>, offset: int) returns (r: Result<map<Key, seq<Interval>>>)
    ensures r == SpliceSites(rnas, offset)
  {
    var ss: map<Key, seq<Interval>> := map[];
    ghost var vs: seq<seq<Item>> := [];
    ghost var rs := AllKeyed(rnas, offset);
    for i := 0 to |rnas|
      invariant FirstErr(rs[..i]) == Ok(vs)
      invariant ss == Grouped(Flat(vs))
    {
      var next, added := TranscriptWindows(ss, Flat(vs), rnas[i], offset);
      if next.Err? {
        assert rs[..i + 1][..i] == rs[..i];
        FirstErrPrefix(rs, i + 1);
        assert rs[..|rnas|] == rs;
        return Err(next.error);
      }
      FirstErrSnoc(rs, i, vs, added);
      assert (vs + [added])[..|vs|] == vs;
      vs := vs + [added];
      ss := next.value;
    }
    assert rs[..|rnas|] == rs;
    r := Ok(Merged(ss));
  }

  // ---------------------------------------------------------------------
  // sites

  /** A BED record: contig, start, end and strand column. */
  datatype BedSite = BedSite(chrom: string, start: int, end: int, strand: string)

  /** Line 35: the record filed under its contig and orientation; the orientation is parsed first. */
  function SiteItem(s: BedSite): (r: Result<Item>)
    ensures r.Ok? <==> Orientation(s.strand).Ok? && s.start <= s.end
    ensures r.Err? ==> r.error == (if Orientation(s.strand).Err? then ValueError else InvalidInterval)
    ensures r.Ok? ==> r.value == ((s.chrom, Orientation(s.strand).value), Interval(s.start, s.end))
  {
    var o := Orientation(s.strand);
    if o.Err? then Err(o.error)
    else
      var iv := MakeInterval(s.start, s.end);
      if iv.Err? then Err(iv.error) else Ok(((s.chrom, o.value), iv.value))
  }

  function SiteItems(records: seq<BedSite>): (r: seq<Result<Item>>)
    ensures |r| == |records| && forall i :: 0 <= i < |records| ==> r[i] == SiteItem(records[i])
  {
    seq(|records|, i requires 0 <= i < |records| => SiteItem(records[i]))
  }

  /** Lines 32-37: the merged sites of a BED file per (contig, orientation). */
  function Sites(records: seq<BedSite>): Result<map<Key, seq<Interval>>>
  {
    var items := FirstErr(SiteItems(records));
    if items.Err? then Err(items.error) else Ok(Merged(Grouped(items.value)))
  }

  /** Record `s` is filed under key `k`. */
  predicate FiledUnder(s: BedSite, k: Key)
  {
    Orientation(s.strand).Ok? && (s.chrom, Orientation(s.strand).value) == k
  }

  /** Loading fails exactly when a record has an unknown strand or ends before it starts. */
  lemma SitesErr(records: seq<BedSite>)
    ensures Sites(records).Err? <==> exists i :: 0 <= i < |records| && SiteItem(records[i]).Err?
  {
    FirstErrSpec(SiteItems(records));
  }

  /** The items of loaded records are the records themselves, filed under their keys. */
  lemma SiteItemsOk(records: seq<BedSite>, i: int)
    requires FirstErr(SiteItems(records)).Ok? && 0 <= i < |records|
    ensures |FirstErr(SiteItems(records)).value| == |records|
    ensures FiledUnder(records[i], FirstErr(SiteItems(records)).value[i].0)
    ensures FirstErr(SiteItems(records)).value[i].1 == Interval(records[i].start, records[i].end)
  {
    FirstErrSpec(SiteItems(records));
  }

  lemma SitesOk(records: seq<BedSite>)
    requires Sites(records).Ok?
    ensures FirstErr(SiteItems(records)).Ok?
    ensures Sites(records).value == Merged(Grouped(FirstErr(SiteItems(records)).value))
    ensures |FirstErr(SiteItems(records)).value| == |records|
  {
    FirstErrSpec(SiteItems(records));
  }

  /** Lines 32-37: a key is loaded exactly when some record is filed under it. */
  lemma SitesKeys(records: seq<BedSite>, k: Key)
    requires Sites(records).Ok?
    ensures k in Sites(records).value <==> exists i :: 0 <= i < |records| && FiledUnder(records[i], k)
  {
    SitesOk(records);
    var items := FirstErr(SiteItems(records)).value;
    MergedGroupsKeys(items, k);
    if exists i :: 0 <= i < |items| && items[i].0 == k {
      var i :| 0 <= i < |items| && items[i].0 == k;
      SiteItemsOk(records, i);
    }
    if exists i :: 0 <= i < |records| && FiledUnder(records[i], k) {
      var i :| 0 <= i < |records| && FiledUnder(records[i], k);
      SiteItemsOk(records, i);
      assert items[i].0 == k;
    }
  }

  /**
   * Lines 32-37: the merged sites of a key are separated and cover exactly
   * the positions of the records filed under it.
   */
  lemma SitesCover(records: seq<BedSite>, k: Key, p: int)
    requires Sites(records).Ok? && k in Sites(records).value
    ensures Separated(Sites(records).value[k])
    ensures Covered(Sites(records).value[k], p) <==>
      exists i :: 0 <= i < |records| && FiledUnder(records[i], k) && records[i].start <= p < records[i].end
  {
    SitesOk(records);
    var items := FirstErr(SiteItems(records)).value;
    MergedGroupsCover(items, k, p);
    if exists i :: 0 <= i < |items| && items[i].0 == k && items[i].1.Contains(p) {
      var i :| 0 <= i < |items| && items[i].0 == k && items[i].1.Contains(p);
      SiteItemsOk(records, i);
    }
    if exists i :: 0 <= i < |records| && FiledUnder(records[i], k) && records[i].start <= p < records[i].end {
      var i :| 0 <= i < |records| && FiledUnder(records[i], k) && records[i].start <= p < records[i].end;
      SiteItemsOk(records, i);
      assert items[i].0 == k && items[i].1.Contains(p);
    }
  }

  /** The loop of lines 34-35. */
  method SitesLoop(records: seq<BedSite>) returns (r: Result<map<Key, seq<Interval>>>)
    ensures r == Sites(records)
  {
    var index: map<Key, seq<Interval>> := map[];
    ghost var items: seq<Item> := [];
    ghost var rs := SiteItems(records);
    for i := 0 to |records|
      invariant FirstErr(rs[..i]) == Ok(items)
      invariant index == Grouped(items)
    {
      var site := records[i];
      var o := Orientation(site.strand);
      if o.Err? {
        assert rs[..i + 1][..i] == rs[..i];
        FirstErrPrefix(rs, i + 1);
        assert rs[..|records|] == rs;
        return Err(o.error);
      }
      var iv := MakeInterval(site.start, site.end);
      if iv.Err? {
        assert rs[..i + 1][..i] == rs[..i];
        FirstErrPrefix(rs, i + 1);
        assert rs[..|records|] == rs;
        return Err(iv.error);
      }
      FirstErrSnoc(rs, i, items, ((site.chrom, o.value), iv.value));
      index := Append(index, items, ((site.chrom, o.value), iv.value));
      items := items + [((site.chrom, o.value), iv.value)];
    }
    assert rs[..|records|] == rs;
    r := Ok(Merged(index));
  }

  // ---------------------------------------------------------------------
  // reat

  /** A row of an editing-site table: reference and mismatch read counts at one position. */
  datatype Row = Row(contig: string, trstrand: string, pos: nat, refnuc: nat, misnuc: nat)

  /** A row with its `freq` column. */
  datatype Scored = Scored(row: Row, freq: real)

  datatype Thresholds = Thresholds(minCoverage: int, minEdits: int, lo: real, hi: real)

  function Coverage(r: Row): nat
  {
    r.refnuc + r.misnuc
  }

  /** Line 44: the edited fraction; a row without reads has none (NaN), recorded as 0. */
  function Freq(r: Row): real
  {
    if Coverage(r) == 0 then 0.0 else r.misnuc as real / Coverage(r) as real
  }

  /** Lines 46-48: the row mask; NaN fails every comparison, so a row without reads is dropped. */
  predicate Keep(r: Row, th: Thresholds)
  {
    Coverage(r) > 0 && th.lo <= Freq(r) <= th.hi && Coverage(r) >= th.minCoverage && r.misnuc >= th.minEdits
  }

  /** Lines 40-50: the rows that pass, in table order, with their frequency. */
  function Reat(rows: seq<Row>, th: Thresholds): seq<Scored>
  {
    if rows == [] then []
    else
      var n := |rows| - 1;
      Reat(rows[..n], th) + (if Keep(rows[n], th) then [Scored(rows[n], Freq(rows[n]))] else [])
  }

  /**
   * A scored row is in the result exactly when its row is in the table and
   * passes the frequency band, the coverage and the edit-count thresholds,
   * and its frequency is the mismatch share of its reads.
   */
  lemma {:induction false} ReatMembers(rows: seq<Row>, th: Thresholds, s: Scored)
    ensures s in Reat(rows, th) <==> s.row in rows && Keep(s.row, th) && s.freq == Freq(s.row)
    decreases |rows|
  {
    if rows != [] {
      var n := |rows| - 1;
      ReatMembers(rows[..n], th, s);
      assert rows == rows[..n] + [rows[n]];
    }
  }

  /** The filter keeps the table's order and never adds rows. */
  lemma {:induction false} ReatShorter(rows: seq<Row>, th: Thresholds)
    ensures |Reat(rows, th)| <= |rows|
    ensures (forall i :: 0 <= i < |rows| ==> Keep(rows[i], th)) ==> |Reat(rows, th)| == |rows|
    decreases |rows|
  {
    if rows != [] {
      var n := |rows| - 1;
      ReatShorter(rows[..n], th);
      assert forall i :: 0 <= i < n ==> rows[..n][i] == rows[i];
    }
  }
}
