// GENCODE biotype resolution: the annotation categories a transcript
// contributes (exons under its biotype, introns, CDS blocks, UTRs) and the
// rules that reduce the categories overlapping one region to one.
module ResolveGencode {
  import opened Common
  import opened Intervals
  import opened Strs

  /** `MAPPING`: GENCODE transcript types grouped into coarser categories; unknown types map to themselves. */
  function MapBiotype(k: string): string
  {
    if k in {"IG_D_pseudogene", "translated_unprocessed_pseudogene", "IG_C_pseudogene", "TR_J_pseudogene",
             "IG_V_pseudogene", "TR_V_pseudogene", "transcribed_unitary_pseudogene",
             "transcribed_unprocessed_pseudogene", "translated_processed_pseudogene", "transcribed_processed_pseudogene",
             "unitary_pseudogene", "unprocessed_pseudogene", "processed_pseudogene", "IG_pseudogene", "IG_J_pseudogene",
             "rRNA_pseudogene"} then "pseudogene"
    else if k in {"IG_D_gene", "TR_D_gene", "IG_J_gene", "IG_V_gene", "IG_C_gene", "TR_V_gene", "TR_J_gene", "TR_C_gene",
                  "IG_LV_gene", "protein_coding"} then "mRNA"
    else if k in {"non_stop_decay", "protein_coding_LoF", "nonsense_mediated_decay",
                  "retained_intron", "protein_coding_CDS_not_defined"} then "mRNA defective"
    else if k in {"scRNA", "vault_RNA", "snoRNA", "snRNA", "miRNA", "scaRNA", "sRNA"} then "smRNA"
    else if k in {"lncRNA", "processed_transcript"} then "lncRNA"
    else k
  }

  /** The suppression table: when the core is present, the listed keys are removed, rule by rule. */
  const Rules: seq<(string, set<string>)> := [
    ("mRNA", {"mRNA defective", "pseudogene"}),
    ("CDS", {"3'UTR", "5'UTR", "intron"}),
    ("mRNA defective", {"3'UTR", "5'UTR", "CDS", "pseudogene", "TEC", "intron"}),
    ("lncRNA", {"TEC", "mRNA defective", "pseudogene", "intron"}),
    ("pseudogene", {"mRNA defective", "TEC", "intron"}),
    ("ribozyme", {"lncRNA", "TEC", "pseudogene", "intron"}),
    ("TEC", {"intron"})
  ]

  /** The keys other than "intergenic", mapped to their categories. */
  function Mapped(keys: set<string>): set<string>
  {
    set k | k in keys && k != "intergenic" :: MapBiotype(k)
  }

  /** `keys` after the first `n` rules of the table. */
  function Suppressed(keys: set<string>, n: nat): set<string>
    requires n <= |Rules|
  {
    if n == 0 then keys
    else
      var acc := Suppressed(keys, n - 1);
      var (core, suppressible) := Rules[n - 1];
      if core in acc then acc - suppressible else acc
  }

  /** The first of `order` present in `keys`, if any. */
  function FirstIn(order: seq<string>, keys: set<string>): (r: Option<string>)
    ensures r.Some? ==> r.value in keys && r.value in order
    ensures r.None? ==> forall k :: k in order ==> k !in keys
  {
    if order == [] then None
    else if order[0] in keys then Some(order[0])
    else FirstIn(order[1..], keys)
  }

  /**
   * `resolve_inner`: an empty set fails the assertion and a single key is
   * returned as it is; otherwise the keys are mapped without "intergenic",
   * MT, 7SK and 7SL win outright, the suppression rules run in table order,
   * mRNA resolves to CDS > 5'UTR > 3'UTR > mRNA, then smRNA, rRNA, tRNA and
   * misc_RNA win, and whatever remains is returned.
   */
  function Resolution(keys: set<string>): Result<set<string>>
  {
    if keys == {} then Err(AssertionError)
    else if |keys| == 1 then Ok(keys)
    else Ok(ResolveMapped(Mapped(keys)))
  }

  /** The rules after mapping, from the outright winners on. */
  function ResolveMapped(mapped: set<string>): set<string>
  {
    match FirstIn(["MT", "7SK", "7SL"], mapped)
    case Some(k) => {k}
    case None =>
      var left := Suppressed(mapped, |Rules|);
      if "mRNA" in left then
        match FirstIn(["CDS", "5'UTR", "3'UTR"], left)
        case Some(k) => {k}
        case None => {"mRNA"}
      else
        match FirstIn(["smRNA", "rRNA", "tRNA", "misc_RNA"], left)
        case Some(k) => {k}
        case None => left
  }

  /** The suppression rules never remove a core that fired, so they never empty the set. */
  lemma {:induction false} SuppressedKeeps(keys: set<string>, n: nat)
    requires n <= |Rules|
    ensures Suppressed(keys, n) <= keys
    ensures keys != {} ==> Suppressed(keys, n) != {}
  {
    if n > 0 {
      SuppressedKeeps(keys, n - 1);
      var acc := Suppressed(keys, n - 1);
      var (core, suppressible) := Rules[n - 1];
      assert core !in suppressible;
      if core in acc {
        assert core in Suppressed(keys, n);
      }
    }
  }

  /** What resolving gives: one key unchanged, otherwise a non-empty subset of the mapped keys. */
  lemma ResolutionShape(keys: set<string>)
    ensures Resolution(keys).Err? <==> keys == {}
    ensures |keys| == 1 ==> Resolution(keys) == Ok(keys)
    ensures Resolution(keys).Ok? ==> Resolution(keys).value != {}
    ensures |keys| > 1 ==> Resolution(keys).value <= Mapped(keys) + {"mRNA"}
    ensures |keys| > 1 ==> "intergenic" !in Resolution(keys).value
  {
    if |keys| > 1 {
      var mapped := Mapped(keys);
      var x :| x in keys && x != "intergenic" by {
        var a :| a in keys;
        assert |keys - {a}| == |keys| - 1;
        var b :| b in keys - {a};
      }
      assert MapBiotype(x) in mapped;
      SuppressedKeeps(mapped, |Rules|);
      assert "intergenic" !in mapped;
    }
  }

  /** MT, then 7SK, then 7SL win over everything else. */
  lemma SingletonsWin(m: set<string>)
    ensures "MT" in m ==> ResolveMapped(m) == {"MT"}
    ensures "MT" !in m && "7SK" in m ==> ResolveMapped(m) == {"7SK"}
    ensures "MT" !in m && "7SK" !in m && "7SL" in m ==> ResolveMapped(m) == {"7SL"}
  {
    if "MT" !in m {
      assert FirstIn(["MT", "7SK", "7SL"], m) == FirstIn(["7SK", "7SL"], m);
      if "7SK" !in m {
        assert FirstIn(["7SK", "7SL"], m) == FirstIn(["7SL"], m);
      }
    }
  }

  /** Later rules only remove more. */
  lemma {:induction false} SuppressedMonotone(keys: set<string>, a: nat, b: nat)
    requires a <= b <= |Rules|
    ensures Suppressed(keys, b) <= Suppressed(keys, a)
    decreases b - a
  {
    if a < b {
      SuppressedMonotone(keys, a, b - 1);
    }
  }

  /** A key that no rule from `a` on lists survives those rules. */
  lemma {:induction false} SuppressedKeepsKey(keys: set<string>, x: string, a: nat, b: nat)
    requires a <= b <= |Rules| && x in Suppressed(keys, a)
    requires forall i :: a <= i < b ==> x !in Rules[i].1
    ensures x in Suppressed(keys, b)
    decreases b - a
  {
    if a < b {
      SuppressedKeepsKey(keys, x, a, b - 1);
      assert x !in Rules[b - 1].1;
    }
  }

  /**
   * With an mRNA the answer is CDS, else 5'UTR, else 3'UTR, else mRNA: the
   * mRNA rule removes "mRNA defective" before it could suppress CDS or UTRs.
   */
  lemma MrnaPriority(m: set<string>)
    requires "mRNA" in m && "MT" !in m && "7SK" !in m && "7SL" !in m
    ensures "CDS" in m ==> ResolveMapped(m) == {"CDS"}
    ensures "CDS" !in m && "5'UTR" in m ==> ResolveMapped(m) == {"5'UTR"}
    ensures "CDS" !in m && "5'UTR" !in m && "3'UTR" in m ==> ResolveMapped(m) == {"3'UTR"}
    ensures "CDS" !in m && "5'UTR" !in m && "3'UTR" !in m ==> ResolveMapped(m) == {"mRNA"}
  {
    var left := Suppressed(m, |Rules|);
    SuppressedKeeps(m, |Rules|);
    assert Suppressed(m, 0) == m;
    assert "mRNA defective" !in Suppressed(m, 1);
    SuppressedMonotone(m, 1, 2);
    assert Suppressed(m, 3) == Suppressed(m, 2);
    SuppressedKeepsKey(m, "mRNA", 0, |Rules|);
    if "CDS" in m {
      SuppressedKeepsKey(m, "CDS", 0, 2);
      SuppressedKeepsKey(m, "CDS", 3, |Rules|);
    } else {
      assert Suppressed(m, 2) == Suppressed(m, 1);
      assert "CDS" !in left;
      assert FirstIn(["CDS", "5'UTR", "3'UTR"], left) == FirstIn(["5'UTR", "3'UTR"], left);
      if "5'UTR" in m {
        SuppressedKeepsKey(m, "5'UTR", 0, 1);
        SuppressedKeepsKey(m, "5'UTR", 3, |Rules|);
      } else {
        assert "5'UTR" !in left;
        assert FirstIn(["5'UTR", "3'UTR"], left) == FirstIn(["3'UTR"], left);
        if "3'UTR" in m {
          SuppressedKeepsKey(m, "3'UTR", 0, 1);
          SuppressedKeepsKey(m, "3'UTR", 3, |Rules|);
        }
      }
    }
  }

  /** `resolve`: one record per resolved key. */
  function Resolve(contig: string, strand: Strand, start: int, end: int, keys: set<string>): (r: Result<set<(string, string, Strand, int, int)>>)
    ensures r.Ok? <==> keys != {}
    ensures r.Ok? ==> forall k :: k in Resolution(keys).value <==> (k, contig, strand, start, end) in r.value
  {
    match Resolution(keys)
    case Err(e) => Err(e)
    case Ok(resolved) => Ok(set k | k in resolved :: (k, contig, strand, start, end))
  }

  /** The first of `order` present in `keys`, by a scan that returns at the first hit. */
  method FirstOf(order: seq<string>, keys: set<string>) returns (r: Option<string>)
    ensures r == FirstIn(order, keys)
  {
    var i := 0;
    while i < |order|
      invariant 0 <= i <= |order|
      invariant FirstIn(order, keys) == FirstIn(order[i..], keys)
    {
      assert order[i..][1..] == order[i + 1..];
      if order[i] in keys {
        return Some(order[i]);
      }
      i := i + 1;
    }
    return None;
  }

  /** The loop over the suppression rules, in their order. */
  method SuppressAll(mapped: set<string>) returns (left: set<string>)
    ensures left == Suppressed(mapped, |Rules|)
  {
    left := mapped;
    var n := 0;
    while n < |Rules|
      invariant 0 <= n <= |Rules|
      invariant left == Suppressed(mapped, n)
    {
      var (core, suppressible) := Rules[n];
      if core in left {
        left := RemoveAll(left, suppressible);
      }
      n := n + 1;
    }
  }

  /** The inner loop: each suppressible key still present is removed. */
  method RemoveAll(left: set<string>, suppressible: set<string>) returns (kept: set<string>)
    ensures kept == left - suppressible
  {
    var pending := suppressible;
    kept := left;
    while pending != {}
      invariant kept == left - (suppressible - pending)
      invariant pending <= suppressible
      decreases |pending|
    {
      var k :| k in pending;
      if k in kept {
        kept := kept - {k};
      }
      pending := pending - {k};
    }
  }

  /** `resolve_inner` as written: the rules remove keys from the set one at a time. */
  method ResolveInner(keys: set<string>) returns (r: Result<set<string>>)
    ensures r == Resolution(keys)
  {
    if |keys| == 0 {
      return Err(AssertionError);
    }
    if |keys| == 1 {
      return Ok(keys);
    }
    var mapped := Mapped(keys);
    var single := FirstOf(["MT", "7SK", "7SL"], mapped);
    if single.Some? {
      return Ok({single.value});
    }
    var left := SuppressAll(mapped);
    if "mRNA" in left {
      var part := FirstOf(["CDS", "5'UTR", "3'UTR"], left);
      if part.Some? {
        return Ok({part.value});
      }
      return Ok({"mRNA"});
    }
    var small := FirstOf(["smRNA", "rRNA", "tRNA", "misc_RNA"], left);
    if small.Some? {
      return Ok({small.value});
    }
    return Ok(left);
  }

  // The annotation one GENCODE transcript contributes (`job`).

  datatype Transcript = Transcript(seqid: string, strand: Strand, name: Option<string>, kind: string,
                                   exons: seq<Interval>, cds: seq<string>)

  /** A coding sequence: its span and its blocks. */
  datatype Cds = Cds(seqid: string, strand: Strand, loc: Interval, blocks: seq<Interval>)

  /** One appended annotation: a category and an interval on the transcript's seqid and strand. */
  type Entry = (string, Interval)

  function Tagged(category: string, ivs: seq<Interval>): (r: seq<Entry>)
    ensures |r| == |ivs|
    ensures forall i :: 0 <= i < |ivs| ==> r[i] == (category, ivs[i])
  {
    seq(|ivs|, i requires 0 <= i < |ivs| => (category, ivs[i]))
  }

  /** The intervals filed under `category`, in order. */
  function Of(entries: seq<Entry>, category: string): seq<Interval>
  {
    if entries == [] then []
    else
      var n := |entries| - 1;
      Of(entries[..n], category) + (if entries[n].0 == category then [entries[n].1] else [])
  }

  lemma {:induction false} OfConcat(a: seq<Entry>, b: seq<Entry>, category: string)
    ensures Of(a + b, category) == Of(a, category) + Of(b, category)
    decreases |b|
  {
    if b != [] {
      var n := |b| - 1;
      assert (a + b)[..|a| + n] == a + b[..n];
      assert (a + b)[|a| + n] == b[n];
      OfConcat(a, b[..n], category);
    } else {
      assert a + b == a;
    }
  }

  lemma {:induction false} OfTagged(tag: string, ivs: seq<Interval>, category: string)
    ensures Of(Tagged(tag, ivs), category) == if tag == category then ivs else []
    decreases |ivs|
  {
    if ivs != [] {
      var n := |ivs| - 1;
      assert Tagged(tag, ivs)[..n] == Tagged(tag, ivs[..n]);
      OfTagged(tag, ivs[..n], category);
    }
  }

  /** Gaps between consecutive exons, kept only where the exons are strictly apart. */
  function Introns(exons: seq<Interval>): seq<Interval>
  {
    if |exons| < 2 then []
    else
      var n := |exons|;
      Introns(exons[..n - 1]) +
        (if exons[n - 2].end < exons[n - 1].start then [Interval(exons[n - 2].end, exons[n - 1].start)] else [])
  }

  /** Exons `k - 1` and `k` are strictly apart and `iv` is the gap between them. */
  predicate GapAt(exons: seq<Interval>, k: int, iv: Interval)
    requires 0 < k < |exons|
  {
    exons[k - 1].end < exons[k].start && iv == Interval(exons[k - 1].end, exons[k].start)
  }

  /** An intron is exactly the gap of a strictly separated consecutive pair; it is never empty. */
  lemma {:induction false} IntronsSpec(exons: seq<Interval>, iv: Interval)
    ensures iv in Introns(exons) <==> exists k :: 0 < k < |exons| && GapAt(exons, k, iv)
    ensures iv in Introns(exons) ==> iv.start < iv.end
    decreases |exons|
  {
    if |exons| >= 2 {
      var n := |exons|;
      var pre := exons[..n - 1];
      IntronsSpec(pre, iv);
      if iv in Introns(pre) {
        var k :| 0 < k < |pre| && GapAt(pre, k, iv);
        assert exons[k - 1] == pre[k - 1] && exons[k] == pre[k];
        assert GapAt(exons, k, iv);
      } else if iv in Introns(exons) {
        assert GapAt(exons, n - 1, iv);
      }
      if exists k :: 0 < k < |exons| && GapAt(exons, k, iv) {
        var k :| 0 < k < |exons| && GapAt(exons, k, iv);
        if k < n - 1 {
          assert exons[k - 1] == pre[k - 1] && exons[k] == pre[k];
          assert GapAt(pre, k, iv);
        } else {
          assert Introns(exons) == Introns(pre) + [iv];
        }
      }
    }
  }

  /** The intron loop over `zip(exons[:-1], exons[1:])`. */
  method IntronsOf(exons: seq<Interval>) returns (r: seq<Interval>)
    ensures r == Introns(exons)
  {
    r := [];
    var k := 1;
    while k < |exons|
      invariant 1 <= k <= Max(1, |exons|)
      invariant r == Introns(exons[..Min(k, |exons|)])
    {
      assert exons[..k + 1][..k] == exons[..k];
      var prv, nxt := exons[k - 1], exons[k];
      if prv.end < nxt.start {
        r := r + [Interval(prv.end, nxt.start)];
      }
      k := k + 1;
    }
    assert exons[..Min(k, |exons|)] == exons;
  }

  /** The part of an exon strictly straddling the CDS start that lies before it. */
  function Straddle5(ex: Interval, start: int): seq<Interval>
  {
    if ex.start < start < ex.end then [Interval(ex.start, start)] else []
  }

  /** The part of an exon strictly straddling the CDS end that lies after it. */
  function Straddle3(ex: Interval, end: int): seq<Interval>
  {
    if ex.start < end < ex.end then [Interval(end, ex.end)] else []
  }

  /** The 5'UTR scan from the front: whole exons while they end before `start`, then the straddling piece. */
  function Utr5(exons: seq<Interval>, start: int): seq<Interval>
  {
    if exons == [] then []
    else if exons[0].end < start then [exons[0]] + Utr5(exons[1..], start)
    else Straddle5(exons[0], start)
  }

  /** The 3'UTR scan from the back: whole exons while they start after `end`, then the straddling piece. */
  function Utr3(exons: seq<Interval>, end: int): seq<Interval>
  {
    if exons == [] then []
    else
      var n := |exons| - 1;
      if exons[n].start > end then [exons[n]] + Utr3(exons[..n], end)
      else Straddle3(exons[n], end)
  }

  /** How many leading exons end before `start`. */
  function Leading(exons: seq<Interval>, start: int): (k: nat)
    ensures k <= |exons|
    ensures forall j :: 0 <= j < k ==> exons[j].end < start
    ensures k < |exons| ==> exons[k].end >= start
  {
    if exons == [] || exons[0].end >= start then 0
    else
      var k := 1 + Leading(exons[1..], start);
      assert forall j :: 1 <= j < k ==> exons[j] == exons[1..][j - 1];
      k
  }

  /** How many trailing exons start after `end`. */
  function Trailing(exons: seq<Interval>, end: int): (k: nat)
    ensures k <= |exons|
    ensures forall j :: |exons| - k <= j < |exons| ==> exons[j].start > end
    ensures k < |exons| ==> exons[|exons| - 1 - k].start <= end
  {
    if exons == [] || exons[|exons| - 1].start <= end then 0
    else
      var n := |exons| - 1;
      var k := 1 + Trailing(exons[..n], end);
      assert forall j :: n - (k - 1) <= j < n ==> exons[j] == exons[..n][j];
      k
  }

  /**
   * The 5'UTR is the leading exons that end before the CDS start, followed
   * by the clipped part of the next exon when it strictly straddles the
   * start. An exon ending exactly at the CDS start stops the scan and adds
   * nothing.
   */
  lemma {:induction false} Utr5Shape(exons: seq<Interval>, start: int)
    ensures var k := Leading(exons, start);
      Utr5(exons, start) == exons[..k] + (if k < |exons| then Straddle5(exons[k], start) else [])
    decreases |exons|
  {
    if exons != [] && exons[0].end < start {
      var k := Leading(exons, start);
      Utr5Shape(exons[1..], start);
      assert exons[..k] == [exons[0]] + exons[1..][..k - 1];
      if k < |exons| {
        assert exons[k] == exons[1..][k - 1];
      }
    }
  }

  /** The 3'UTR is the trailing exons that start after the CDS end, back to front, then the clipped straddling exon. */
  lemma {:induction false} Utr3Shape(exons: seq<Interval>, end: int)
    ensures var k := Trailing(exons, end);
      Utr3(exons, end) == Reversed(exons[|exons| - k..]) + (if k < |exons| then Straddle3(exons[|exons| - 1 - k], end) else [])
    decreases |exons|
  {
    if exons != [] && exons[|exons| - 1].start > end {
      var n := |exons| - 1;
      var pre := exons[..n];
      assert Utr3(exons, end) == [exons[n]] + Utr3(pre, end);
      var k := Trailing(exons, end);
      TrailingStep(exons, end);
      Utr3Shape(pre, end);
      var tail := exons[n + 1 - k..n];
      var rest := if k < |exons| then Straddle3(exons[|exons| - 1 - k], end) else [];
      var j := Trailing(pre, end);
      assert j == k - 1 && pre[|pre| - j..] == tail;
      var rest' := if j < |pre| then Straddle3(pre[|pre| - 1 - j], end) else [];
      assert rest' == rest;
      assert Utr3(pre, end) == Reversed(pre[|pre| - j..]) + rest';
      assert Reversed(pre[|pre| - j..]) == Reversed(tail);
      assert Utr3(pre, end) == Reversed(tail) + rest;
      ReversedSnocPlus(Utr3(exons, end), Utr3(pre, end), exons[n], tail, rest, exons[|exons| - k..]);
    } else {
      assert Trailing(exons, end) == 0;
      assert Reversed(exons[|exons|..]) == [];
    }
  }

  lemma TrailingStep(exons: seq<Interval>, end: int)
    requires exons != [] && exons[|exons| - 1].start > end
    ensures var n, k := |exons| - 1, Trailing(exons, end);
      k == 1 + Trailing(exons[..n], end) &&
      exons[..n][n - (k - 1)..] == exons[n + 1 - k..n] &&
      exons[n + 1 - k..n] + [exons[n]] == exons[|exons| - k..] &&
      (k < |exons| ==> exons[|exons| - 1 - k] == exons[..n][n - 1 - (k - 1)])
  {
  }

  lemma ReversedSnoc(s: seq<Interval>, x: Interval)
    ensures Reversed(s + [x]) == [x] + Reversed(s)
  {
  }

  /** One step of `Utr3Shape`: prepending the last exon to the reversed prefix reverses the longer suffix. */
  lemma ReversedSnocPlus(u: seq<Interval>, up: seq<Interval>, x: Interval, s: seq<Interval>, rest: seq<Interval>, whole: seq<Interval>)
    requires u == [x] + up && up == Reversed(s) + rest && s + [x] == whole
    ensures u == Reversed(whole) + rest
  {
    ReversedSnoc(s, x);
    assert [x] + (Reversed(s) + rest) == ([x] + Reversed(s)) + rest;
  }

  /** Every 5'UTR piece ends at or before the CDS start and lies inside an exon; an abutting exon adds nothing. */
  lemma Utr5Bounds(exons: seq<Interval>, start: int)
    ensures forall p :: p in Utr5(exons, start) ==> p.end <= start && exists j :: 0 <= j < |exons| && InsideOf(p, exons[j])
    ensures var k := Leading(exons, start); k < |exons| && exons[k].end == start ==> Utr5(exons, start) == exons[..k]
  {
    Utr5Shape(exons, start);
    var k := Leading(exons, start);
    forall p | p in Utr5(exons, start)
      ensures p.end <= start && exists j :: 0 <= j < |exons| && InsideOf(p, exons[j])
    {
      if p in exons[..k] {
        var j :| 0 <= j < k && exons[j] == p;
        assert InsideOf(p, exons[j]);
      } else {
        assert InsideOf(p, exons[k]);
      }
    }
  }

  /** Every 3'UTR piece starts at or after the CDS end and lies inside an exon; an abutting exon adds nothing. */
  lemma Utr3Bounds(exons: seq<Interval>, end: int)
    ensures forall p :: p in Utr3(exons, end) ==> p.start >= end && exists j :: 0 <= j < |exons| && InsideOf(p, exons[j])
    ensures var k := Trailing(exons, end);
      k < |exons| && exons[|exons| - 1 - k].start == end ==> Utr3(exons, end) == Reversed(exons[|exons| - k..])
  {
    Utr3Shape(exons, end);
    var k := Trailing(exons, end);
    var tail := Reversed(exons[|exons| - k..]);
    var rest := if k < |exons| then Straddle3(exons[|exons| - 1 - k], end) else [];
    forall p | p in Utr3(exons, end)
      ensures p.start >= end && exists j :: 0 <= j < |exons| && InsideOf(p, exons[j])
    {
      assert p in tail + rest;
      if p in tail {
        TrailingPieceInside(exons, end, p);
      } else {
        assert InsideOf(p, exons[|exons| - 1 - k]);
      }
    }
  }

  /** A whole trailing exon of the 3'UTR starts after the CDS end and is one of the exons. */
  lemma TrailingPieceInside(exons: seq<Interval>, end: int, p: Interval)
    requires p in Reversed(exons[|exons| - Trailing(exons, end)..])
    ensures p.start >= end && exists j :: 0 <= j < |exons| && InsideOf(p, exons[j])
  {
    var k := Trailing(exons, end);
    var tail := exons[|exons| - k..];
    var i :| 0 <= i < |tail| && Reversed(tail)[i] == p;
    var j := |exons| - 1 - i;
    assert tail[|tail| - 1 - i] == exons[j];
    assert InsideOf(p, exons[j]);
  }

  predicate InsideOf(p: Interval, ex: Interval)
  {
    ex.start <= p.start && p.end <= ex.end
  }

  /** The 5'UTR loop of `job`, with its `break`. */
  method SplitUtr5(exons: seq<Interval>, start: int) returns (utr: seq<Interval>)
    ensures utr == Utr5(exons, start)
  {
    utr := [];
    var i := 0;
    while i < |exons|
      invariant 0 <= i <= |exons|
      invariant utr == exons[..i]
      invariant forall j :: 0 <= j < i ==> exons[j].end < start
    {
      var ex := exons[i];
      if ex.end < start {
        assert exons[..i + 1] == exons[..i] + [ex];
        utr := utr + [ex];
      } else {
        assert Leading(exons, start) == i;
        utr := utr + Straddle5(ex, start);
        break;
      }
      i := i + 1;
    }
    Utr5Shape(exons, start);
    if i == |exons| {
      assert Leading(exons, start) == i;
    }
  }

  /** The 3'UTR loop of `job` over `exons[::-1]`, with its `break`. */
  method SplitUtr3(exons: seq<Interval>, end: int) returns (utr: seq<Interval>)
    ensures utr == Utr3(exons, end)
  {
    utr := [];
    var i := |exons|;
    while i > 0
      invariant 0 <= i <= |exons|
      invariant utr == Reversed(exons[i..])
      invariant forall j :: i <= j < |exons| ==> exons[j].start > end
    {
      var ex := exons[i - 1];
      if ex.start > end {
        assert exons[i - 1..] == [ex] + exons[i..];
        utr := utr + [ex];
      } else {
        assert Trailing(exons, end) == |exons| - i;
        utr := utr + Straddle3(ex, end);
        break;
      }
      i := i - 1;
    }
    Utr3Shape(exons, end);
    if i == 0 {
      assert Trailing(exons, end) == |exons|;
    }
  }

  /** The labels of the regions before and after the CDS: 5'UTR then 3'UTR on '+', swapped on any other strand. */
  function UtrLabels(strand: Strand): (string, string)
  {
    if strand == Forward then ("5'UTR", "3'UTR") else ("3'UTR", "5'UTR")
  }

  /** What one CDS adds: its blocks, then the UTR before it, then the UTR after it. */
  function CdsPart(t: Transcript, cds: Cds): seq<Entry>
  {
    var (first, second) := UtrLabels(t.strand);
    Tagged("CDS", cds.blocks) + Tagged(first, Utr5(t.exons, cds.loc.start)) + Tagged(second, Utr3(t.exons, cds.loc.end))
  }

  /** A CDS id that resolves to a CDS on the transcript's seqid and strand. */
  predicate CdsOk(t: Transcript, table: map<string, Cds>, id: string)
  {
    id in table && table[id].seqid == t.seqid && table[id].strand == t.strand
  }

  /** The CDS loop: a missing id is a KeyError, a CDS elsewhere fails the assertion. */
  function CdsEntries(t: Transcript, table: map<string, Cds>, ids: seq<string>): (r: Result<seq<Entry>>)
    ensures r.Err? ==> r.error == KeyError || r.error == AssertionError
  {
    if ids == [] then Ok([])
    else
      var n := |ids| - 1;
      match CdsEntries(t, table, ids[..n])
      case Err(e) => Err(e)
      case Ok(acc) =>
        if ids[n] !in table then Err(KeyError)
        else if !CdsOk(t, table, ids[n]) then Err(AssertionError)
        else Ok(acc + CdsPart(t, table[ids[n]]))
  }

  /** A transcript named RN7SL... or RN7SK... */
  predicate NamedLike(t: Transcript, prefix: string)
  {
    t.name.Some? && StartsWith(t.name.value, prefix)
  }

  /**
   * The entries one transcript adds: a 7SL or 7SK transcript adds its first
   * exon only (an IndexError without exons); any other adds its exons under
   * its type, its introns, and for every CDS the blocks and the two UTRs.
   */
  function TranscriptEntries(t: Transcript, table: map<string, Cds>): Result<seq<Entry>>
  {
    if NamedLike(t, "RN7SL") || NamedLike(t, "RN7SK") then
      if t.exons == [] then Err(IndexError)
      else Ok([(if NamedLike(t, "RN7SL") then "7SL" else "7SK", t.exons[0])])
    else
      match CdsEntries(t, table, t.cds)
      case Err(e) => Err(e)
      case Ok(rest) => Ok(Tagged(t.kind, t.exons) + Tagged("intron", Introns(t.exons)) + rest)
  }

  lemma {:induction false} CdsEntriesErr(t: Transcript, table: map<string, Cds>, ids: seq<string>)
    ensures CdsEntries(t, table, ids).Err? <==> exists i :: 0 <= i < |ids| && !CdsOk(t, table, ids[i])
    decreases |ids|
  {
    if ids != [] {
      var n := |ids| - 1;
      CdsEntriesErr(t, table, ids[..n]);
      if exists i :: 0 <= i < n && !CdsOk(t, table, ids[..n][i]) {
        var i :| 0 <= i < n && !CdsOk(t, table, ids[..n][i]);
        assert ids[i] == ids[..n][i];
      }
      if exists i :: 0 <= i < |ids| && !CdsOk(t, table, ids[i]) {
        var i :| 0 <= i < |ids| && !CdsOk(t, table, ids[i]);
        if i < n {
          assert ids[i] == ids[..n][i];
        }
      }
    }
  }

  /** The first failing CDS decides the error, whatever follows it. */
  lemma {:induction false} CdsEntriesPrefixErr(t: Transcript, table: map<string, Cds>, ids: seq<string>, m: nat)
    requires m <= |ids| && CdsEntries(t, table, ids[..m]).Err?
    ensures CdsEntries(t, table, ids) == CdsEntries(t, table, ids[..m])
    decreases |ids| - m
  {
    if m < |ids| {
      assert ids[..m + 1][..m] == ids[..m];
      CdsEntriesPrefixErr(t, table, ids, m + 1);
    } else {
      assert ids[..m] == ids;
    }
  }

  /** On '+' the region before the CDS is the 5'UTR and the one after the 3'UTR; on any other strand they swap. */
  lemma CdsPartLabels(t: Transcript, cds: Cds)
    ensures Of(CdsPart(t, cds), "CDS") == cds.blocks
    ensures Of(CdsPart(t, cds), "5'UTR") == if t.strand == Forward then Utr5(t.exons, cds.loc.start) else Utr3(t.exons, cds.loc.end)
    ensures Of(CdsPart(t, cds), "3'UTR") == if t.strand == Forward then Utr3(t.exons, cds.loc.end) else Utr5(t.exons, cds.loc.start)
  {
    var (first, second) := UtrLabels(t.strand);
    var utr5, utr3 := Utr5(t.exons, cds.loc.start), Utr3(t.exons, cds.loc.end);
    assert "5'UTR"[0] != "3'UTR"[0];
    OfThree("CDS", first, second, cds.blocks, utr5, utr3, "CDS");
    OfThree("CDS", first, second, cds.blocks, utr5, utr3, "5'UTR");
    OfThree("CDS", first, second, cds.blocks, utr5, utr3, "3'UTR");
  }

  /** Filing three tagged runs one after the other. */
  lemma OfThree(x: string, y: string, z: string, xs: seq<Interval>, ys: seq<Interval>, zs: seq<Interval>, category: string)
    ensures Of(Tagged(x, xs) + Tagged(y, ys) + Tagged(z, zs), category) ==
      (if x == category then xs else []) + (if y == category then ys else []) + (if z == category then zs else [])
  {
    var a, b, c := Tagged(x, xs), Tagged(y, ys), Tagged(z, zs);
    OfConcat(a + b, c, category);
    OfConcat(a, b, category);
    OfTagged(x, xs, category);
    OfTagged(y, ys, category);
    OfTagged(z, zs, category);
  }

  /** Pairs every interval with the category, in order. */
  method TagEach(category: string, ivs: seq<Interval>) returns (entries: seq<Entry>)
    ensures entries == Tagged(category, ivs)
  {
    entries := [];
    var i := 0;
    while i < |ivs|
      invariant 0 <= i <= |ivs|
      invariant entries == Tagged(category, ivs[..i])
    {
      entries := entries + [(category, ivs[i])];
      i := i + 1;
    }
    assert ivs[..i] == ivs;
  }

  /** The entries one CDS adds: its blocks as "CDS", then the UTRs before and after it. */
  method CdsJob(t: Transcript, cds: Cds) returns (part: seq<Entry>)
    ensures part == CdsPart(t, cds)
  {
    var (first, second) := UtrLabels(t.strand);
    var blocks := TagEach("CDS", cds.blocks);
    var utr5 := SplitUtr5(t.exons, cds.loc.start);
    var utr3 := SplitUtr3(t.exons, cds.loc.end);
    part := blocks + Tagged(first, utr5) + Tagged(second, utr3);
  }

  /** The CDS loop after its first `c` ids: every one resolved so far, their entries appended to `base`. */
  ghost predicate CdsDone(t: Transcript, table: map<string, Cds>, c: nat, base: seq<Entry>, entries: seq<Entry>)
    requires c <= |t.cds|
  {
    CdsEntries(t, table, t.cds[..c]).Ok? && entries == base + CdsEntries(t, table, t.cds[..c]).value
  }

  /** One more CDS id: its error, or its part appended. */
  lemma CdsStep(t: Transcript, table: map<string, Cds>, c: nat, base: seq<Entry>, entries: seq<Entry>)
    requires c < |t.cds| && CdsDone(t, table, c, base, entries)
    ensures t.cds[c] !in table ==> CdsEntries(t, table, t.cds) == Err(KeyError)
    ensures t.cds[c] in table && !CdsOk(t, table, t.cds[c]) ==> CdsEntries(t, table, t.cds) == Err(AssertionError)
    ensures CdsOk(t, table, t.cds[c]) ==> CdsDone(t, table, c + 1, base, entries + CdsPart(t, table[t.cds[c]]))
  {
    var ids := t.cds[..c + 1];
    assert ids[..c] == t.cds[..c] && ids[c] == t.cds[c];
    var acc := CdsEntries(t, table, t.cds[..c]).value;
    assert CdsEntries(t, table, ids) == if t.cds[c] !in table then Err(KeyError)
      else if !CdsOk(t, table, t.cds[c]) then Err(AssertionError)
      else Ok(acc + CdsPart(t, table[t.cds[c]]));
    if !CdsOk(t, table, t.cds[c]) {
      CdsEntriesPrefixErr(t, table, t.cds, c + 1);
    } else {
      ConcatAssoc(base, acc, CdsPart(t, table[t.cds[c]]));
    }
  }

  /** The per-transcript body of `job`, appending as it goes. */
  method TranscriptJob(t: Transcript, table: map<string, Cds>) returns (r: Result<seq<Entry>>)
    ensures r == TranscriptEntries(t, table)
  {
    if NamedLike(t, "RN7SL") {
      if t.exons == [] {
        return Err(IndexError);
      }
      return Ok([("7SL", t.exons[0])]);
    } else if NamedLike(t, "RN7SK") {
      if t.exons == [] {
        return Err(IndexError);
      }
      return Ok([("7SK", t.exons[0])]);
    }
    var entries := TagEach(t.kind, t.exons);
    var introns := IntronsOf(t.exons);
    entries := entries + Tagged("intron", introns);
    ghost var base := entries;
    var c := 0;
    assert CdsDone(t, table, 0, base, entries) by {
      assert t.cds[..0] == [];
    }
    while c < |t.cds|
      invariant 0 <= c <= |t.cds|
      invariant CdsDone(t, table, c, base, entries)
    {
      var id := t.cds[c];
      CdsStep(t, table, c, base, entries);
      if id !in table {
        return Err(KeyError);
      }
      var cds := table[id];
      if !(cds.seqid == t.seqid && cds.strand == t.strand) {
        return Err(AssertionError);
      }
      var part := CdsJob(t, cds);
      entries := entries + part;
      c := c + 1;
    }
    assert t.cds[..c] == t.cds;
    return Ok(entries);
  }
}
