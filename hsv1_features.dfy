// HSV-1 annotation tracks (`features.py` of the HSV-1 story): primer and
// miRNA hits on both strands of the genome, ORF and transcript BED12
// records, and the exon / intron / 5′ / 3′ tracks of the circos plot.
module HSV1Features {
  import opened Common
  import opened Sorting
  import opened Strs
  import opened Decimal
  import opened Intervals
  import Bed

  // ---------------------------------------------------------------------
  // Nucleotides

  /** The Watson-Crick partner of a base; any other character is kept. */
  function Complement(c: char): char
  {
    match c
    case 'A' => 'T'
    case 'T' => 'A'
    case 'C' => 'G'
    case 'G' => 'C'
    case _ => c
  }

  /** `Seq.complement()`: every base replaced by its partner, in place. */
  function Complemented(s: string): (r: string)
    ensures |r| == |s| && forall i :: 0 <= i < |s| ==> r[i] == Complement(s[i])
  {
    seq(|s|, i requires 0 <= i < |s| => Complement(s[i]))
  }

  /** `Seq.reverse_complement()`. */
  function RevComp(s: string): string
  {
    Reversed(Complemented(s))
  }

  /** Taking the reverse complement twice gives the sequence back. */
  lemma RevCompInvolution(s: string)
    ensures RevComp(RevComp(s)) == s
  {
    var r := RevComp(RevComp(s));
    assert |r| == |s|;
    forall i | 0 <= i < |s| ensures r[i] == s[i] {
      assert Complement(Complement(s[i])) == s[i];
    }
  }

  /**
   * A window of the reverse complement of `g` is the reverse complement of
   * the mirrored window of `g`: [a, b) on the reverse strand is
   * [|g| - b, |g| - a) on the forward one.
   */
  lemma RevCompWindow(g: string, a: nat, b: nat)
    requires a <= b <= |g|
    ensures RevComp(g)[a..b] == RevComp(g[|g| - b..|g| - a])
  {
    var lhs, rhs := RevComp(g)[a..b], RevComp(g[|g| - b..|g| - a]);
    assert |lhs| == |rhs|;
    forall k | 0 <= k < |lhs| ensures lhs[k] == rhs[k] {
      assert lhs[k] == Complement(g[|g| - 1 - a - k]);
    }
  }

  // ---------------------------------------------------------------------
  // Literal pattern search

  /**
   * `re.finditer(pat, text)` for a pattern made of plain letters: the starts
   * of the non-overlapping occurrences from position `i` on, scanning left
   * to right and resuming after each match.
   */
  function Occurrences(pat: string, text: string, i: nat): seq<nat>
    requires |pat| > 0 && i <= |text|
    decreases |text| - i
  {
    if i + |pat| > |text| then []
    else if text[i..i + |pat|] == pat then [i] + Occurrences(pat, text, i + |pat|)
    else Occurrences(pat, text, i + 1)
  }

  /** `pat` occurs in `text` at position `j`. */
  predicate OccursAt(pat: string, text: string, j: int)
  {
    0 <= j && j + |pat| <= |text| && text[j..j + |pat|] == pat
  }

  /** Each of `r` is an occurrence at or after `i`, and no two of them overlap. */
  predicate Matches(pat: string, text: string, i: int, r: seq<nat>)
  {
    (forall k :: 0 <= k < |r| ==> i <= r[k] && OccursAt(pat, text, r[k])) &&
    (forall k :: 0 <= k < |r| - 1 ==> r[k] + |pat| <= r[k + 1])
  }

  /** Every reported start is an occurrence, and reported matches do not overlap. */
  lemma {:induction false} OccurrencesSound(pat: string, text: string, i: nat)
    requires |pat| > 0 && i <= |text|
    ensures Matches(pat, text, i, Occurrences(pat, text, i))
    decreases |text| - i
  {
    if i + |pat| <= |text| {
      var r := Occurrences(pat, text, i);
      if text[i..i + |pat|] == pat {
        var rest := Occurrences(pat, text, i + |pat|);
        OccurrencesSound(pat, text, i + |pat|);
        assert r == [i] + rest;
        forall k | 0 <= k < |r| ensures i <= r[k] && OccursAt(pat, text, r[k]) {
          if k > 0 {
            assert r[k] == rest[k - 1];
          }
        }
        forall k | 0 <= k < |r| - 1 ensures r[k] + |pat| <= r[k + 1] {
          assert r[k + 1] == rest[k];
          if k > 0 {
            assert r[k] == rest[k - 1];
          }
        }
      } else {
        OccurrencesSound(pat, text, i + 1);
      }
    }
  }

  /** Position `j` falls inside one of the matches of length `m` starting at `r`. */
  predicate Covered(r: seq<nat>, m: nat, j: int)
  {
    exists k :: 0 <= k < |r| && r[k] <= j < r[k] + m
  }

  /** No occurrence is missed: each one overlaps a reported match. */
  lemma {:induction false} OccurrencesComplete(pat: string, text: string, i: nat, j: nat)
    requires |pat| > 0 && i <= j && OccursAt(pat, text, j)
    ensures Covered(Occurrences(pat, text, i), |pat|, j)
    decreases |text| - i
  {
    var r := Occurrences(pat, text, i);
    if text[i..i + |pat|] == pat {
      assert r[0] == i;
      if j < i + |pat| {
        assert Covered(r, |pat|, j);
      } else {
        var rest := Occurrences(pat, text, i + |pat|);
        OccurrencesComplete(pat, text, i + |pat|, j);
        var k :| 0 <= k < |rest| && rest[k] <= j < rest[k] + |pat|;
        assert r == [i] + rest;
        assert 0 <= k + 1 < |r| && r[k + 1] <= j < r[k + 1] + |pat|;
        assert Covered(r, |pat|, j);
      }
    } else {
      assert j != i;
      OccurrencesComplete(pat, text, i + 1, j);
    }
  }

  /** The search finds nothing exactly when the pattern does not occur. */
  lemma OccurrencesNone(pat: string, text: string)
    requires |pat| > 0
    ensures Occurrences(pat, text, 0) == [] <==> forall j :: !OccursAt(pat, text, j)
  {
    var r := Occurrences(pat, text, 0);
    OccurrencesSound(pat, text, 0);
    if r != [] {
      assert OccursAt(pat, text, r[0]);
    }
    forall j | OccursAt(pat, text, j) ensures r != [] {
      OccurrencesComplete(pat, text, 0, j);
    }
  }

  // ---------------------------------------------------------------------
  // primers

  /** A named BED6 interval on the HSV-1 contig. */
  datatype Hit = Hit(chrom: string, start: int, end: int, name: string, strand: Strand)

  /** A primer pair of one target: its forward and reverse primers. */
  datatype PrimerPair = PrimerPair(gene: string, fwd: string, rev: string)

  /** The two primers of a pair, named "<gene>-fwd" and "<gene>-rev". */
  function PairProbes(p: PrimerPair): seq<(string, string)>
  {
    [(p.gene + "-fwd", p.fwd), (p.gene + "-rev", p.rev)]
  }

  /** All primers, pair by pair. */
  function Probes(pairs: seq<PrimerPair>): seq<(string, string)>
  {
    if pairs == [] then [] else Probes(pairs[..|pairs| - 1]) + PairProbes(pairs[|pairs| - 1])
  }

  /** The genome is made of exactly the four bases, each present. */
  predicate Alphabet(g: string)
  {
    (forall i :: 0 <= i < |g| ==> g[i] in "ACGT") && 'A' in g && 'C' in g && 'G' in g && 'T' in g
  }

  /** The matches of a primer in the genome, on '+'. */
  function ForwardHits(chrom: string, name: string, pat: string, genome: string): seq<Hit>
    requires |pat| > 0
  {
    var fw := Occurrences(pat, genome, 0);
    seq(|fw|, k requires 0 <= k < |fw| => Hit(chrom, fw[k], fw[k] + |pat|, name, Forward))
  }

  /** The matches of a primer in the reverse complement, mapped back to (size - end, size - start) on '-'. */
  function ReverseHits(chrom: string, size: int, name: string, pat: string, genome: string): seq<Hit>
    requires |pat| > 0
  {
    var rv := Occurrences(pat, RevComp(genome), 0);
    seq(|rv|, k requires 0 <= k < |rv| => Hit(chrom, size - (rv[k] + |pat|), size - rv[k], name, Reverse))
  }

  /** The hits of one primer: those on '+', then those on '-'. */
  function PrimerHits(chrom: string, size: int, name: string, pat: string, genome: string): seq<Hit>
    requires |pat| > 0
  {
    ForwardHits(chrom, name, pat, genome) + ReverseHits(chrom, size, name, pat, genome)
  }

  /** `h` is a hit of primer `name` reading as `pat` on its own strand, within the genome. */
  predicate ReadsAs(h: Hit, chrom: string, name: string, pat: string, genome: string)
  {
    h.chrom == chrom && h.name == name && 0 <= h.start && h.start + |pat| == h.end <= |genome| &&
    (h.strand == Forward ==> genome[h.start..h.end] == pat) &&
    (h.strand == Reverse ==> RevComp(genome[h.start..h.end]) == pat) &&
    h.strand != Other
  }

  lemma ForwardHitsSound(chrom: string, name: string, pat: string, genome: string)
    requires |pat| > 0
    ensures forall h :: h in ForwardHits(chrom, name, pat, genome) ==> ReadsAs(h, chrom, name, pat, genome)
  {
    var fw := Occurrences(pat, genome, 0);
    OccurrencesSound(pat, genome, 0);
    var hits := ForwardHits(chrom, name, pat, genome);
    forall h | h in hits ensures ReadsAs(h, chrom, name, pat, genome) {
      var k :| 0 <= k < |hits| && hits[k] == h;
      assert OccursAt(pat, genome, fw[k]);
    }
  }

  lemma ReverseHitsSound(chrom: string, size: int, name: string, pat: string, genome: string)
    requires |pat| > 0 && size == |genome|
    ensures forall h :: h in ReverseHits(chrom, size, name, pat, genome) ==> ReadsAs(h, chrom, name, pat, genome)
  {
    var rc := RevComp(genome);
    var rv := Occurrences(pat, rc, 0);
    OccurrencesSound(pat, rc, 0);
    var hits := ReverseHits(chrom, size, name, pat, genome);
    forall h | h in hits ensures ReadsAs(h, chrom, name, pat, genome) {
      var k :| 0 <= k < |hits| && hits[k] == h;
      ReverseHitAt(genome, pat, rv[k]);
    }
  }

  /** A match at `st` on the reverse strand is the mirrored window of the genome, read backwards and complemented. */
  lemma ReverseHitAt(genome: string, pat: string, st: int)
    requires OccursAt(pat, RevComp(genome), st)
    ensures 0 <= |genome| - (st + |pat|) && |genome| - st <= |genome|
    ensures RevComp(genome[|genome| - (st + |pat|)..|genome| - st]) == pat
  {
    RevCompWindow(genome, st, st + |pat|);
  }

  /**
   * Every hit of a primer reads as the primer on its own strand: a '+' hit
   * spells it, and, when `size` is the genome length, a '-' hit lies within
   * the genome and its reverse complement spells it.
   */
  lemma PrimerHitsSound(chrom: string, size: int, name: string, pat: string, genome: string)
    requires |pat| > 0 && size == |genome|
    ensures forall h :: h in PrimerHits(chrom, size, name, pat, genome) ==> ReadsAs(h, chrom, name, pat, genome)
  {
    ForwardHitsSound(chrom, name, pat, genome);
    ReverseHitsSound(chrom, size, name, pat, genome);
  }

  /** A primer is reported as unmatched exactly when neither it nor its reverse complement's match occurs. */
  lemma PrimerHitsNone(chrom: string, size: int, name: string, pat: string, genome: string)
    requires |pat| > 0
    ensures PrimerHits(chrom, size, name, pat, genome) == [] <==>
      (forall j :: !OccursAt(pat, genome, j)) && (forall j :: !OccursAt(pat, RevComp(genome), j))
  {
    OccurrencesNone(pat, genome);
    OccurrencesNone(pat, RevComp(genome));
  }

  /** Every primer is a non-empty pattern. */
  predicate Primed(probes: seq<(string, string)>)
  {
    forall k :: 0 <= k < |probes| ==> |probes[k].1| > 0
  }

  /** The hits of all primers, primer by primer. */
  function PrimersBed(chrom: string, size: int, probes: seq<(string, string)>, genome: string): seq<Hit>
    requires Primed(probes)
  {
    if probes == [] then []
    else
      var n := |probes| - 1;
      PrimersBed(chrom, size, probes[..n], genome) + PrimerHits(chrom, size, probes[n].0, probes[n].1, genome)
  }

  /** The names of the primers with no hit, in order. */
  function Unmatched(chrom: string, size: int, probes: seq<(string, string)>, genome: string): seq<string>
    requires Primed(probes)
  {
    if probes == [] then []
    else
      var n := |probes| - 1;
      Unmatched(chrom, size, probes[..n], genome) +
      (if PrimerHits(chrom, size, probes[n].0, probes[n].1, genome) == [] then [probes[n].0] else [])
  }

  /** Every hit of the track belongs to one of the primers and reads as it. */
  lemma {:induction false} PrimersBedSound(chrom: string, size: int, probes: seq<(string, string)>, genome: string)
    requires Primed(probes)
    requires size == |genome|
    ensures forall h :: h in PrimersBed(chrom, size, probes, genome) ==>
      exists k :: 0 <= k < |probes| && h.name == probes[k].0 && h in PrimerHits(chrom, size, probes[k].0, probes[k].1, genome)
    decreases |probes|
  {
    if probes != [] {
      var n := |probes| - 1;
      PrimersBedSound(chrom, size, probes[..n], genome);
      forall h | h in PrimersBed(chrom, size, probes, genome)
        ensures exists k :: 0 <= k < |probes| && h.name == probes[k].0 && h in PrimerHits(chrom, size, probes[k].0, probes[k].1, genome)
      {
        if h in PrimersBed(chrom, size, probes[..n], genome) {
          var k :| 0 <= k < n && h.name == probes[..n][k].0 && h in PrimerHits(chrom, size, probes[..n][k].0, probes[..n][k].1, genome);
          assert probes[..n][k] == probes[k];
        } else {
          PrimerHitsSound(chrom, size, probes[n].0, probes[n].1, genome);
        }
      }
    }
  }

  /** A primer is listed as unmatched exactly when it matches neither strand. */
  lemma {:induction false} UnmatchedSpec(chrom: string, size: int, probes: seq<(string, string)>, genome: string, k: nat)
    requires Primed(probes)
    requires k < |probes|
    requires forall m :: 0 <= m < |probes| && m != k ==> probes[m].0 != probes[k].0
    ensures probes[k].0 in Unmatched(chrom, size, probes, genome) <==>
      (forall j :: !OccursAt(probes[k].1, genome, j)) && (forall j :: !OccursAt(probes[k].1, RevComp(genome), j))
    decreases |probes|
  {
    var n := |probes| - 1;
    var front := probes[..n];
    assert forall m :: 0 <= m < n ==> front[m] == probes[m];
    var tail := if PrimerHits(chrom, size, probes[n].0, probes[n].1, genome) == [] then [probes[n].0] else [];
    assert Unmatched(chrom, size, probes, genome) == Unmatched(chrom, size, front, genome) + tail;
    if k < n {
      UnmatchedSpec(chrom, size, front, genome, k);
      assert front[k] == probes[k];
      assert probes[k].0 !in tail;
    } else {
      UnmatchedAbsent(chrom, size, front, genome, probes[k].0);
      PrimerHitsNone(chrom, size, probes[k].0, probes[k].1, genome);
    }
  }

  /** A name no primer carries is never listed. */
  lemma {:induction false} UnmatchedAbsent(chrom: string, size: int, probes: seq<(string, string)>, genome: string, name: string)
    requires Primed(probes)
    requires forall m :: 0 <= m < |probes| ==> probes[m].0 != name
    ensures name !in Unmatched(chrom, size, probes, genome)
    decreases |probes|
  {
    if probes != [] {
      var n := |probes| - 1;
      assert forall m :: 0 <= m < n ==> probes[..n][m] == probes[m];
      UnmatchedAbsent(chrom, size, probes[..n], genome, name);
    }
  }

  /** Searching one more primer extends the track and the unmatched list by that primer's share. */
  lemma PrimersSnoc(chrom: string, size: int, done: seq<(string, string)>, probes: seq<(string, string)>, j: nat, genome: string)
    requires j < |probes| && Primed(done + probes)
    ensures Primed(done + probes[..j]) && Primed(done + probes[..j + 1]) && |probes[j].1| > 0
    ensures PrimersBed(chrom, size, done + probes[..j + 1], genome) ==
      PrimersBed(chrom, size, done + probes[..j], genome) + PrimerHits(chrom, size, probes[j].0, probes[j].1, genome)
    ensures Unmatched(chrom, size, done + probes[..j + 1], genome) ==
      Unmatched(chrom, size, done + probes[..j], genome) +
      (if PrimerHits(chrom, size, probes[j].0, probes[j].1, genome) == [] then [probes[j].0] else [])
  {
    var ps := done + probes[..j + 1];
    assert ps[..|done| + j] == done + probes[..j];
    assert ps[|done| + j] == probes[j] == (done + probes)[|done| + j];
    forall k | 0 <= k < |ps| ensures |ps[k].1| > 0 {
      assert ps[k] == (done + probes)[k];
    }
  }

  lemma ProbesSnoc(pairs: seq<PrimerPair>, k: nat)
    requires k < |pairs|
    ensures Probes(pairs[..k + 1]) == Probes(pairs[..k]) + PairProbes(pairs[k])
  {
    assert pairs[..k + 1][..k] == pairs[..k];
  }

  /**
   * `primers`: the genome must consist of exactly A, C, G and T; then every
   * primer of every pair is searched on both strands. The result holds the
   * hits and the names of the primers that matched nowhere (which the
   * original prints).
   */
  method Primers(chrom: string, size: int, genome: string, pairs: seq<PrimerPair>)
    returns (r: Result<(seq<Hit>, seq<string>)>)
    requires forall p :: p in pairs ==> |p.fwd| > 0 && |p.rev| > 0
    ensures Primed(Probes(pairs))
    ensures r.Err? <==> !Alphabet(genome)
    ensures r.Err? ==> r.error == AssertionError
    ensures r.Ok? ==> r.value == (PrimersBed(chrom, size, Probes(pairs), genome), Unmatched(chrom, size, Probes(pairs), genome))
  {
    ProbesNonEmpty(pairs);
    if !Alphabet(genome) {
      return Err(AssertionError);
    }
    var bed: seq<Hit> := [];
    var missing: seq<string> := [];
    for i := 0 to |pairs|
      invariant Primed(Probes(pairs[..i]))
      invariant bed == PrimersBed(chrom, size, Probes(pairs[..i]), genome)
      invariant missing == Unmatched(chrom, size, Probes(pairs[..i]), genome)
    {
      ProbesSnoc(pairs, i);
      assert forall p :: p in pairs[..i + 1] ==> p in pairs;
      ProbesNonEmpty(pairs[..i + 1]);
      var done := Probes(pairs[..i]);
      var probes := PairProbes(pairs[i]);
      assert done + probes[..0] == done;
      assert Primed(done + probes);
      for j := 0 to 2
        invariant Primed(done + probes[..j])
        invariant bed == PrimersBed(chrom, size, done + probes[..j], genome)
        invariant missing == Unmatched(chrom, size, done + probes[..j], genome)
      {
        var (name, pat) := probes[j];
        var hits := PrimerHits(chrom, size, name, pat, genome);
        var found := hits != [];
        PrimersSnoc(chrom, size, done, probes, j, genome);
        bed := bed + hits;
        if !found {
          missing := missing + [name];
        }
      }
      assert probes[..2] == probes;
    }
    assert pairs[..|pairs|] == pairs;
    r := Ok((bed, missing));
  }

  /** Every primer is non-empty when every pair's primers are. */
  lemma {:induction false} ProbesNonEmpty(pairs: seq<PrimerPair>)
    requires forall p :: p in pairs ==> |p.fwd| > 0 && |p.rev| > 0
    ensures Primed(Probes(pairs))
    decreases |pairs|
  {
    if pairs != [] {
      var n := |pairs| - 1;
      assert forall p :: p in pairs[..n] ==> p in pairs;
      ProbesNonEmpty(pairs[..n]);
      assert pairs[n] in pairs;
    }
  }

  // ---------------------------------------------------------------------
  // miRNA

  /** `str.upper()` on one character (ASCII letters). */
  function Upper(c: char): char
  {
    if 'a' <= c <= 'z' then (c as int - 32) as char else c
  }

  /** `str.upper()`. */
  function UpperAll(s: string): (r: string)
    ensures |r| == |s| && forall i :: 0 <= i < |s| ==> r[i] == Upper(s[i])
  {
    seq(|s|, i requires 0 <= i < |s| => Upper(s[i]))
  }

  /** `v.upper().replace("U", "T")`: an RNA sequence written in DNA letters. */
  function AsDna(s: string): (r: string)
    ensures |r| == |s|
    ensures forall i :: 0 <= i < |s| ==> r[i] != 'U' && r[i] != 'u' && !('a' <= r[i] <= 'z')
    ensures forall i :: 0 <= i < |s| && s[i] in "uU" ==> r[i] == 'T'
    ensures forall i :: 0 <= i < |s| && s[i] in "ACGT" ==> r[i] == s[i]
  {
    seq(|s|, i requires 0 <= i < |s| => if Upper(s[i]) == 'U' then 'T' else Upper(s[i]))
  }

  /** The miRNAs with their sequences in DNA letters. */
  function DnaProbes(mirs: seq<(string, string)>): (r: seq<(string, string)>)
    ensures |r| == |mirs| && forall k :: 0 <= k < |mirs| ==> r[k] == (mirs[k].0, AsDna(mirs[k].1))
  {
    seq(|mirs|, k requires 0 <= k < |mirs| => (mirs[k].0, AsDna(mirs[k].1)))
  }

  /** Python's `s[a:b]` for non-negative bounds: both are clamped to the length. */
  function Slice(s: string, a: nat, b: nat): (r: string)
    ensures b <= |s| && a <= b ==> r == s[a..b]
    ensures |r| <= |s| && (b > |s| ==> |r| < b - a || b <= a)
  {
    var lo := if a < |s| then a else |s|;
    var hi := if b < lo then lo else if b < |s| then b else |s|;
    s[lo..hi]
  }

  /**
   * The scan's test at `st`: the window [st, st + |pat|) of `text` (as a
   * clamped slice), reversed when scanning the complement strand, equals
   * the miRNA.
   */
  predicate HitAt(text: string, pat: string, st: nat, reversed: bool)
  {
    var w := Slice(text, st, st + |pat|);
    (if reversed then Reversed(w) else w) == pat
  }

  /**
   * On the genome the test is an exact match of the window, on its
   * complement a match of the window's reverse complement; a window that
   * runs past the end never matches a non-empty miRNA.
   */
  lemma HitAtMeaning(g: string, pat: string, st: nat)
    ensures st + |pat| <= |g| ==> (HitAt(g, pat, st, false) <==> g[st..st + |pat|] == pat)
    ensures st + |pat| <= |g| ==> (HitAt(Complemented(g), pat, st, true) <==> RevComp(g[st..st + |pat|]) == pat)
    ensures st + |pat| > |g| && |pat| > 0 ==> !HitAt(g, pat, st, false) && !HitAt(Complemented(g), pat, st, true)
  {
    if st + |pat| <= |g| {
      var w := g[st..st + |pat|];
      assert Complemented(g)[st..st + |pat|] == Complemented(w);
    } else if |pat| > 0 {
      var w := Slice(Complemented(g), st, st + |pat|);
      assert |Reversed(w)| == |w| < |pat|;
    }
  }

  /** The windows [st, st + |pat|), st < n, where the scan finds the miRNA, by ascending st. */
  function Scan(text: string, pat: string, reversed: bool, n: nat): seq<(int, int)>
  {
    if n == 0 then []
    else
      Scan(text, pat, reversed, n - 1) +
      (if HitAt(text, pat, n - 1, reversed) then [(n - 1, n - 1 + |pat|)] else [])
  }

  /** The scan lists exactly the windows whose test succeeds. */
  lemma {:induction false} ScanMembers(text: string, pat: string, reversed: bool, n: nat, w: (int, int))
    ensures w in Scan(text, pat, reversed, n) <==> 0 <= w.0 < n && w.1 == w.0 + |pat| && HitAt(text, pat, w.0, reversed)
  {
    if n > 0 {
      ScanMembers(text, pat, reversed, n - 1, w);
      var front := Scan(text, pat, reversed, n - 1);
      var ext := if HitAt(text, pat, n - 1, reversed) then [(n - 1, n - 1 + |pat|)] else [];
      assert Scan(text, pat, reversed, n) == front + ext;
      assert w in front + ext <==> w in front || w in ext;
    }
  }

  predicate AscendingStarts(r: seq<(int, int)>)
  {
    forall i, j :: 0 <= i < j < |r| ==> r[i].0 < r[j].0
  }

  /** The windows come by strictly ascending start. */
  lemma {:induction false} ScanAscending(text: string, pat: string, reversed: bool, n: nat)
    ensures AscendingStarts(Scan(text, pat, reversed, n))
  {
    if n > 0 {
      ScanAscending(text, pat, reversed, n - 1);
      var front := Scan(text, pat, reversed, n - 1);
      if HitAt(text, pat, n - 1, reversed) {
        forall i | 0 <= i < |front| ensures front[i].0 < n - 1 {
          ScanMembers(text, pat, reversed, n - 1, front[i]);
        }
        var r := Scan(text, pat, reversed, n);
        assert r == front + [(n - 1, n - 1 + |pat|)];
        forall i, j | 0 <= i < j < |r| ensures r[i].0 < r[j].0 {
          assert r[i] == front[i];
          if j < |front| {
            assert r[j] == front[j];
          }
        }
      }
    }
  }

  /** The hits of every miRNA on '+' and on '-' over the scanned starts [0, size). */
  function MirHits(g: string, probes: seq<(string, string)>, size: nat): (r: seq<(seq<(int, int)>, seq<(int, int)>)>)
    ensures |r| == |probes|
  {
    seq(|probes|, k requires 0 <= k < |probes| =>
      (Scan(g, probes[k].1, false, size), Scan(Complemented(g), probes[k].1, true, size)))
  }

  /** One BED interval per window. */
  function Spans(chrom: string, name: string, strand: Strand, ws: seq<(int, int)>): (r: seq<Hit>)
    ensures |r| == |ws| && forall i :: 0 <= i < |ws| ==> r[i] == Hit(chrom, ws[i].0, ws[i].1, name, strand)
  {
    seq(|ws|, i requires 0 <= i < |ws| => Hit(chrom, ws[i].0, ws[i].1, name, strand))
  }

  /** The BED track: miRNA by miRNA, its '+' windows then its '-' windows. */
  function MiRNABed(chrom: string, probes: seq<(string, string)>, hits: seq<(seq<(int, int)>, seq<(int, int)>)>): seq<Hit>
    requires |hits| == |probes|
  {
    if probes == [] then []
    else
      var n := |probes| - 1;
      MiRNABed(chrom, probes[..n], hits[..n]) +
      Spans(chrom, probes[n].0, Forward, hits[n].0) + Spans(chrom, probes[n].0, Reverse, hits[n].1)
  }

  /** The windows of the miRNA `k` on the strand of `h` hold `h`'s coordinates. */
  predicate WindowOf(probes: seq<(string, string)>, hits: seq<(seq<(int, int)>, seq<(int, int)>)>, k: int, h: Hit)
    requires |hits| == |probes|
  {
    0 <= k < |probes| && h.name == probes[k].0 &&
    ((h.strand == Forward && (h.start, h.end) in hits[k].0) || (h.strand == Reverse && (h.start, h.end) in hits[k].1))
  }

  lemma SpansMembers(chrom: string, name: string, strand: Strand, ws: seq<(int, int)>, h: Hit)
    ensures h in Spans(chrom, name, strand, ws) <==> h.chrom == chrom && h.name == name && h.strand == strand && (h.start, h.end) in ws
  {
    var r := Spans(chrom, name, strand, ws);
    if h.chrom == chrom && h.name == name && h.strand == strand && (h.start, h.end) in ws {
      var i :| 0 <= i < |ws| && ws[i] == (h.start, h.end);
      assert r[i] == h;
    }
  }

  /** An interval is in the track exactly when it is a window of some miRNA on its strand. */
  lemma {:induction false} MiRNABedMembers(chrom: string, probes: seq<(string, string)>, hits: seq<(seq<(int, int)>, seq<(int, int)>)>, h: Hit)
    requires |hits| == |probes|
    ensures h in MiRNABed(chrom, probes, hits) <==> h.chrom == chrom && (exists k :: WindowOf(probes, hits, k, h))
    decreases |probes|
  {
    if probes != [] {
      var n := |probes| - 1;
      var fp, fh := probes[..n], hits[..n];
      MiRNABedMembers(chrom, fp, fh, h);
      SpansMembers(chrom, probes[n].0, Forward, hits[n].0, h);
      SpansMembers(chrom, probes[n].0, Reverse, hits[n].1, h);
      assert MiRNABed(chrom, probes, hits) == MiRNABed(chrom, fp, fh) +
        Spans(chrom, probes[n].0, Forward, hits[n].0) + Spans(chrom, probes[n].0, Reverse, hits[n].1);
      if k :| WindowOf(fp, fh, k, h) {
        assert fp[k] == probes[k] && fh[k] == hits[k];
        assert WindowOf(probes, hits, k, h);
      }
      if k :| WindowOf(probes, hits, k, h) {
        if k < n {
          assert fp[k] == probes[k] && fh[k] == hits[k];
          assert WindowOf(fp, fh, k, h);
        } else if h.chrom == chrom {
          assert h in Spans(chrom, probes[n].0, Forward, hits[n].0) || h in Spans(chrom, probes[n].0, Reverse, hits[n].1);
        }
      }
      if h in Spans(chrom, probes[n].0, Forward, hits[n].0) || h in Spans(chrom, probes[n].0, Reverse, hits[n].1) {
        assert WindowOf(probes, hits, n, h);
      }
    }
  }

  /**
   * `miRNA`: every miRNA, in DNA letters, is tried at every start
   * st in [0, size): a '+' hit is an exact match of the upper-cased genome
   * at [st, st + len), a '-' hit a match of the reversed complement window.
   */
  method MiRNA(chrom: string, size: nat, genome: string, mirs: seq<(string, string)>) returns (bed: seq<Hit>)
    ensures bed == MiRNABed(chrom, DnaProbes(mirs), MirHits(UpperAll(genome), DnaProbes(mirs), size))
  {
    var probes := DnaProbes(mirs);
    var plus := UpperAll(genome);
    var minus := Complemented(plus);
    var hits: seq<(seq<(int, int)>, seq<(int, int)>)> := seq(|probes|, k => ([], []));
    for st := 0 to size
      invariant ScannedTo(plus, probes, hits, st)
    {
      hits := ScanAt(plus, probes, hits, st);
    }
    assert hits == MirHits(plus, probes, size);
    bed := [];
    for k := 0 to |probes|
      invariant bed == MiRNABed(chrom, probes[..k], hits[..k])
    {
      assert probes[..k + 1][..k] == probes[..k] && hits[..k + 1][..k] == hits[..k];
      bed := bed + Spans(chrom, probes[k].0, Forward, hits[k].0) + Spans(chrom, probes[k].0, Reverse, hits[k].1);
    }
    assert probes[..|probes|] == probes && hits[..|hits|] == hits;
  }

  /** `hits` holds every miRNA's windows over the starts [0, st) on both strands. */
  predicate ScannedTo(plus: string, probes: seq<(string, string)>, hits: seq<(seq<(int, int)>, seq<(int, int)>)>, st: nat)
  {
    |hits| == |probes| &&
    forall k :: 0 <= k < |probes| ==>
      hits[k] == (Scan(plus, probes[k].1, false, st), Scan(Complemented(plus), probes[k].1, true, st))
  }

  /** One start position of the scan: every miRNA is tried at `st` on both strands. */
  method ScanAt(plus: string, probes: seq<(string, string)>, hits: seq<(seq<(int, int)>, seq<(int, int)>)>, st: nat)
    returns (next: seq<(seq<(int, int)>, seq<(int, int)>)>)
    requires ScannedTo(plus, probes, hits, st)
    ensures ScannedTo(plus, probes, next, st + 1)
  {
    var minus := Complemented(plus);
    next := hits;
    for k := 0 to |probes|
      invariant |next| == |probes|
      invariant forall m :: 0 <= m < k ==>
        next[m] == (Scan(plus, probes[m].1, false, st + 1), Scan(minus, probes[m].1, true, st + 1))
      invariant forall m :: k <= m < |probes| ==> next[m] == hits[m]
    {
      var fw, rv := TryAt(plus, minus, probes[k].1, st, next[k].0, next[k].1);
      next := next[k := (fw, rv)];
    }
  }

  /** One miRNA tried at `st`: the window is added on each strand whose test succeeds. */
  method TryAt(plus: string, minus: string, pat: string, st: nat, fw0: seq<(int, int)>, rv0: seq<(int, int)>)
    returns (fw: seq<(int, int)>, rv: seq<(int, int)>)
    requires fw0 == Scan(plus, pat, false, st) && rv0 == Scan(minus, pat, true, st)
    ensures fw == Scan(plus, pat, false, st + 1) && rv == Scan(minus, pat, true, st + 1)
  {
    var en := st + |pat|;
    fw, rv := fw0, rv0;
    if HitAt(plus, pat, st, false) {
      fw := fw + [(st, en)];
    }
    if HitAt(minus, pat, st, true) {
      rv := rv + [(st, en)];
    }
  }

  /**
   * miRNA `k` matches the genome window of `h`: `h` starts at a scanned
   * position, is as long as the miRNA, and the scan's test succeeds on its
   * strand.
   */
  predicate MatchedBy(g: string, probes: seq<(string, string)>, size: nat, k: int, h: Hit)
  {
    0 <= k < |probes| && h.name == probes[k].0 && 0 <= h.start < size && h.end == h.start + |probes[k].1| &&
    ((h.strand == Forward && HitAt(g, probes[k].1, h.start, false)) ||
     (h.strand == Reverse && HitAt(Complemented(g), probes[k].1, h.start, true)))
  }

  /**
   * The miRNA track read against the genome: an interval is in it exactly
   * when it lies on the contig and some miRNA matches its window (see
   * `HitAtMeaning` for what the test means on each strand).
   */
  lemma MiRNATrack(chrom: string, size: nat, genome: string, mirs: seq<(string, string)>, h: Hit)
    ensures var probes := DnaProbes(mirs);
      var g := UpperAll(genome);
      h in MiRNABed(chrom, probes, MirHits(g, probes, size)) <==>
      h.chrom == chrom && exists k :: MatchedBy(g, probes, size, k, h)
  {
    var probes := DnaProbes(mirs);
    var g := UpperAll(genome);
    var hits := MirHits(g, probes, size);
    MiRNABedMembers(chrom, probes, hits, h);
    if k :| WindowOf(probes, hits, k, h) {
      ScanMembers(g, probes[k].1, false, size, (h.start, h.end));
      ScanMembers(Complemented(g), probes[k].1, true, size, (h.start, h.end));
      assert MatchedBy(g, probes, size, k, h);
    }
    if k :| MatchedBy(g, probes, size, k, h) {
      ScanMembers(g, probes[k].1, false, size, (h.start, h.end));
      ScanMembers(Complemented(g), probes[k].1, true, size, (h.start, h.end));
      assert WindowOf(probes, hits, k, h);
    }
  }

  // ---------------------------------------------------------------------
  // BED12 records shared by the ORF and transcript tracks

  /**
   * The BED12 record of sorted blocks: it spans from the first block's start
   * to the last block's end, is thick over the whole span, and lists the
   * block sizes and the block starts relative to its start.
   */
  function BlockRecord(contig: string, exons: seq<Interval>, name: string, strand: Strand, color: string): Bed.Bed12
    requires |exons| >= 1
  {
    var start, end := exons[0].start, exons[|exons| - 1].end;
    Bed.Bed12(contig, start, end, name, strand, start, end, color, |exons|,
              seq(|exons|, i requires 0 <= i < |exons| => exons[i].end - exons[i].start),
              seq(|exons|, i requires 0 <= i < |exons| => exons[i].start - start))
  }

  /** The blocks a record describes are exactly the blocks it was built from. */
  lemma BlockRecordBlocks(contig: string, exons: seq<Interval>, name: string, strand: Strand, color: string)
    requires |exons| >= 1
    ensures var b := BlockRecord(contig, exons, name, strand, color);
      |b.blockSizes| == |b.blockStarts| == b.blockCount == |exons| && Bed.BlocksOf(b) == exons &&
      b.blockStarts[0] == 0 && b.start + b.blockStarts[b.blockCount - 1] + b.blockSizes[b.blockCount - 1] == b.end
  {
    var b := BlockRecord(contig, exons, name, strand, color);
    assert forall i :: 0 <= i < |exons| ==> Bed.BlocksOf(b)[i] == exons[i];
  }

  /** The records among `records` on strand `s`, in order. */
  function OnStrand(records: seq<Bed.Bed12>, s: Strand): seq<Bed.Bed12>
  {
    if records == [] then []
    else
      var n := |records| - 1;
      OnStrand(records[..n], s) + (if records[n].strand == s then [records[n]] else [])
  }

  /** A record is in the list of strand `s` exactly when it is among the records and on `s`. */
  lemma {:induction false} OnStrandMembers(records: seq<Bed.Bed12>, s: Strand, b: Bed.Bed12)
    ensures b in OnStrand(records, s) <==> b in records && b.strand == s
    decreases |records|
  {
    if records != [] {
      var n := |records| - 1;
      OnStrandMembers(records[..n], s, b);
      assert records == records[..n] + [records[n]];
    }
  }

  /**
   * The records split into the '+' and the '-' list, each in input order,
   * or the first error among them.
   */
  function ByStrand(results: seq<Result<Bed.Bed12>>): Result<(seq<Bed.Bed12>, seq<Bed.Bed12>)>
  {
    var all := FirstErr(results);
    if all.Err? then Err(all.error) else Ok((OnStrand(all.value, Forward), OnStrand(all.value, Reverse)))
  }

  /** A prefix that already failed decides the outcome of the whole sequence. */
  lemma FirstErrOfPrefix<T>(rs: seq<Result<T>>, ts: seq<Result<T>>)
    requires rs <= ts && FirstErr(rs).Err?
    ensures FirstErr(ts) == FirstErr(rs)
  {
    assert ts[..|rs|] == rs;
    FirstErrPrefix(ts, |rs|);
  }

  /**
   * Splitting by strand keeps every record: on success each result lands in
   * the list of its strand and nowhere else, and the split fails exactly
   * when some result is an error.
   */
  lemma ByStrandSpec(results: seq<Result<Bed.Bed12>>)
    ensures ByStrand(results).Ok? <==> forall i :: 0 <= i < |results| ==> results[i].Ok?
    ensures ByStrand(results).Ok? ==> forall i :: 0 <= i < |results| ==>
      (results[i].value.strand == Forward ==> results[i].value in ByStrand(results).value.0) &&
      (results[i].value.strand == Reverse ==> results[i].value in ByStrand(results).value.1)
    ensures ByStrand(results).Ok? ==> forall b :: b in ByStrand(results).value.0 || b in ByStrand(results).value.1 ==>
      exists i :: 0 <= i < |results| && results[i] == Ok(b)
  {
    FirstErrSpec(results);
    var all := FirstErr(results);
    if all.Ok? {
      forall b | b in OnStrand(all.value, Forward) || b in OnStrand(all.value, Reverse)
        ensures exists i :: 0 <= i < |results| && results[i] == Ok(b)
      {
        OnStrandMembers(all.value, Forward, b);
        OnStrandMembers(all.value, Reverse, b);
        var i :| 0 <= i < |all.value| && all.value[i] == b;
        assert results[i] == Ok(b);
      }
      forall i | 0 <= i < |results|
        ensures results[i].value.strand == Forward ==> results[i].value in OnStrand(all.value, Forward)
        ensures results[i].value.strand == Reverse ==> results[i].value in OnStrand(all.value, Reverse)
      {
        assert all.value[i] == results[i].value;
        OnStrandMembers(all.value, Forward, results[i].value);
        OnStrandMembers(all.value, Reverse, results[i].value);
      }
    }
  }

  // ---------------------------------------------------------------------
  // orfs

  /** One row of the ORF table: its type, its location "contig:s-e|s-e|..." and its strand. */
  datatype OrfRow = OrfRow(kind: string, location: string, strand: string)

  /** `s, e = x.split('-')` and `(int(s), int(e))`; anything but two integers is a `ValueError`. */
  function ParseExon(x: string): (r: Result<Interval>)
    ensures r.Err? ==> r.error == ValueError
  {
    var parts := Split(x, '-');
    if |parts| != 2 then Err(ValueError)
    else
      match (Bed.ParseInt(parts[0]), Bed.ParseInt(parts[1]))
      case (Some(s), Some(e)) => Ok(Interval(s, e))
      case _ => Err(ValueError)
  }

  /**
   * The exons of an ORF location: the text after the first ':' (an
   * `IndexError` without one), split on '|', each piece parsed as "s-e",
   * then sorted as (start, end) tuples.
   */
  function ParseLocation(loc: string): (r: Result<seq<Interval>>)
    ensures r.Err? ==> r.error == IndexError || r.error == ValueError
    ensures r.Ok? ==> |r.value| >= 1 && SortedBy(r.value, IntervalLe)
  {
    var parts := Split(loc, ':');
    if |parts| < 2 then Err(IndexError)
    else
      var pieces := Split(parts[1], '|');
      var parsed := seq(|pieces|, i requires 0 <= i < |pieces| => ParseExon(pieces[i]));
      var exons := FirstErr(parsed);
      FirstErrSpec(parsed);
      if exons.Err? then
        FirstErrFrom(parsed);
        Err(exons.error)
      else
        IntervalLePreorder();
        Ok(SortBy(exons.value, IntervalLe))
  }

  /** "s-e" for one exon. */
  function FormatExon(x: Interval): string
    requires x.start >= 0 && x.end >= 0
  {
    NatToString(x.start) + "-" + NatToString(x.end)
  }

  /** "contig:s-e|s-e|...", the form the ORF table uses. */
  function FormatLocation(contig: string, exons: seq<Interval>): string
    requires forall i :: 0 <= i < |exons| ==> exons[i].start >= 0 && exons[i].end >= 0
  {
    contig + ":" + Join(seq(|exons|, i requires 0 <= i < |exons| => FormatExon(exons[i])), '|')
  }

  /** "s-e" parses back to the exon and holds neither '|' nor ':'. */
  lemma ExonRoundTrip(x: Interval)
    requires x.start >= 0 && x.end >= 0
    ensures '|' !in FormatExon(x) && ':' !in FormatExon(x) && ParseExon(FormatExon(x)) == Ok(x)
  {
    var a, b := NatToString(x.start), NatToString(x.end);
    assert forall k :: 0 <= k < |a| ==> IsDigit(a[k]);
    assert forall k :: 0 <= k < |b| ==> IsDigit(b[k]);
    assert '|' !in a && '|' !in b && ':' !in a && ':' !in b && '-' !in a && '-' !in b;
    var text := a + ['-'] + b;
    assert FormatExon(x) == text;
    Bed.SplitPair(a, b, '-');
    var parts := Split(text, '-');
    assert parts[0] == a && parts[1] == b && |parts| == 2;
    Bed.ParseIntOfNat(x.start);
    Bed.ParseIntOfNat(x.end);
  }

  /** A location written from sorted exons parses back to those exons. */
  lemma LocationRoundTrip(contig: string, exons: seq<Interval>)
    requires ':' !in contig && |exons| >= 1 && SortedBy(exons, IntervalLe)
    requires forall i :: 0 <= i < |exons| ==> exons[i].start >= 0 && exons[i].end >= 0
    ensures ParseLocation(FormatLocation(contig, exons)) == Ok(exons)
  {
    var pieces := seq(|exons|, i requires 0 <= i < |exons| => FormatExon(exons[i]));
    LocationPieces(contig, exons, pieces);
    ParsedExons(pieces, exons);
    IntervalLePreorder();
    SortBySorted(exons, IntervalLe);
  }

  /** The text after the ':' of a written location splits back into the written exons. */
  lemma LocationPieces(contig: string, exons: seq<Interval>, pieces: seq<string>)
    requires ':' !in contig && |exons| >= 1
    requires forall i :: 0 <= i < |exons| ==> exons[i].start >= 0 && exons[i].end >= 0
    requires pieces == seq(|exons|, i requires 0 <= i < |exons| => FormatExon(exons[i]))
    ensures var parts := Split(FormatLocation(contig, exons), ':');
      |parts| == 2 && Split(parts[1], '|') == pieces
    ensures forall i :: 0 <= i < |exons| ==> ParseExon(pieces[i]) == Ok(exons[i])
  {
    forall i | 0 <= i < |exons| ensures '|' !in pieces[i] && ':' !in pieces[i] && ParseExon(pieces[i]) == Ok(exons[i]) {
      ExonRoundTrip(exons[i]);
    }
    var body := Join(pieces, '|');
    JoinFree(pieces, '|', ':');
    assert FormatLocation(contig, exons) == contig + [':'] + body;
    Bed.SplitPair(contig, body, ':');
    SplitJoin(pieces, '|');
  }

  /** Pieces that each parse to an exon parse, all together, to those exons. */
  lemma ParsedExons(pieces: seq<string>, exons: seq<Interval>)
    requires |pieces| == |exons|
    requires forall i :: 0 <= i < |exons| ==> ParseExon(pieces[i]) == Ok(exons[i])
    ensures FirstErr(seq(|pieces|, i requires 0 <= i < |pieces| => ParseExon(pieces[i]))) == Ok(exons)
  {
    var parsed := seq(|pieces|, i requires 0 <= i < |pieces| => ParseExon(pieces[i]));
    FirstErrSpec(parsed);
    assert FirstErr(parsed).value == exons;
  }

  /** Joining pieces free of a character other than the separator keeps it out. */
  lemma {:induction false} JoinFree(pieces: seq<string>, sep: char, c: char)
    requires c != sep && forall i :: 0 <= i < |pieces| ==> c !in pieces[i]
    ensures c !in Join(pieces, sep)
    decreases |pieces|
  {
    if |pieces| > 1 {
      JoinFree(pieces[1..], sep, c);
    }
  }

  /**
   * As written, the assertion on the parsed exons compares each
   * (start, end) tuple with the next tuple, and sorting has already put
   * them in that order.
   */
  predicate TuplesOrdered(exons: seq<Interval>)
  {
    forall i :: 0 <= i < |exons| - 1 ==> IntervalLe(exons[i], exons[i + 1])
  }

  /** The as-written check passes on every location that parses. */
  lemma TuplesOrderedVacuous(loc: string)
    requires ParseLocation(loc).Ok?
    ensures TuplesOrdered(ParseLocation(loc).value)
  {
  }

  /**
   * An exon whose end precedes its start ("c:10-5") gets through the
   * as-written check and would become a block of negative size; the
   * intended check rejects it.
   */
  lemma ReversedExonAccepted()
    ensures ParseLocation(FormatLocation("c", [Interval(10, 5)])) == Ok([Interval(10, 5)])
    ensures TuplesOrdered([Interval(10, 5)]) && !ValidBlocks([Interval(10, 5)])
    ensures OrfRecord("chr", OrfRow("ORF", FormatLocation("c", [Interval(10, 5)]), "+")) == Err(AssertionError)
  {
    IntervalLePreorder();
    LocationRoundTrip("c", [Interval(10, 5)]);
  }

  /** The intended check: every block ends no earlier than it starts and no later than the next one starts. */
  predicate ValidBlocks(exons: seq<Interval>)
  {
    (forall i :: 0 <= i < |exons| ==> exons[i].start <= exons[i].end) &&
    (forall i :: 0 <= i < |exons| - 1 ==> exons[i].end <= exons[i + 1].start)
  }

  /**
   * The BED12 record of one ORF: its exons parsed and checked, its type as
   * the name, black as the colour and its strand, which must be '+' or '-'
   * (the per-strand lookup raises `KeyError` otherwise).
   */
  function OrfRecord(contig: string, row: OrfRow): (r: Result<Bed.Bed12>)
    ensures r.Ok? ==> r.value.strand != Other
  {
    var exons := ParseLocation(row.location);
    if exons.Err? then Err(exons.error)
    else if !ValidBlocks(exons.value) then Err(AssertionError)
    else if row.strand != "+" && row.strand != "-" then Err(KeyError)
    else Ok(BlockRecord(contig, exons.value, row.kind, if row.strand == "+" then Forward else Reverse, "0,0,0"))
  }

  /**
   * A record of an ORF holds its exons, in order and non-overlapping, as
   * blocks with non-negative sizes and relative starts, on the row's strand.
   */
  lemma OrfRecordBlocks(contig: string, row: OrfRow)
    requires OrfRecord(contig, row).Ok?
    ensures var b := OrfRecord(contig, row).value;
      var exons := ParseLocation(row.location).value;
      Bed.BlocksOf(b) == exons && ValidBlocks(exons) && b.name == row.kind &&
      (b.strand == Forward <==> row.strand == "+") &&
      (forall i :: 0 <= i < b.blockCount ==> b.blockSizes[i] >= 0 && b.blockStarts[i] >= 0)
  {
    var exons := ParseLocation(row.location).value;
    BlockRecordBlocks(contig, exons, row.kind, OrfRecord(contig, row).value.strand, "0,0,0");
    forall i | 0 <= i < |exons| ensures exons[i].start >= exons[0].start {
      if i > 0 {
        assert IntervalLe(exons[0], exons[i]);
      }
    }
  }

  /** `orfs`: one record per row, split into the '+' and the '-' track; the first failing row raises. */
  method Orfs(contig: string, rows: seq<OrfRow>) returns (r: Result<(seq<Bed.Bed12>, seq<Bed.Bed12>)>)
    ensures r == ByStrand(seq(|rows|, i requires 0 <= i < |rows| => OrfRecord(contig, rows[i])))
  {
    ghost var results := seq(|rows|, i requires 0 <= i < |rows| => OrfRecord(contig, rows[i]));
    var fwd: seq<Bed.Bed12> := [];
    var rev: seq<Bed.Bed12> := [];
    ghost var done: seq<Bed.Bed12> := [];
    for i := 0 to |rows|
      invariant FirstErr(results[..i]) == Ok(done)
      invariant fwd == OnStrand(done, Forward) && rev == OnStrand(done, Reverse)
    {
      var rec := OrfRecord(contig, rows[i]);
      assert results[..i + 1][..i] == results[..i];
      if rec.Err? {
        FirstErrOfPrefix(results[..i + 1], results);
        return Err(rec.error);
      }
      assert (done + [rec.value])[..|done|] == done;
      if rec.value.strand == Forward {
        fwd := fwd + [rec.value];
      } else {
        rev := rev + [rec.value];
      }
      done := done + [rec.value];
    }
    assert results[..|rows|] == results;
    r := Ok((fwd, rev));
  }

  // ---------------------------------------------------------------------
  // genes

  /** A sub-feature of a transcript (exon, CDS, ...) with its location. */
  datatype Part = Part(kind: string, loc: Interval)

  /**
   * A transcript of the GFF3: its type, id, location, strand (1 or -1), its
   * "Name" qualifier values when it has that qualifier, and its parts.
   */
  datatype Transcript = Transcript(kind: string, id: string, loc: Interval, strand: int, names: Option<seq<string>>, parts: seq<Part>)

  /** A top-level feature of the GFF3 contig with its transcripts. */
  datatype Feature = Feature(kind: string, loc: Interval, transcripts: seq<Transcript>)

  /** The locations of the parts of type "exon", in order. */
  function ExonSpans(parts: seq<Part>): seq<Interval>
  {
    if parts == [] then []
    else
      var n := |parts| - 1;
      ExonSpans(parts[..n]) + (if parts[n].kind == "exon" then [parts[n].loc] else [])
  }

  /** A location is listed exactly when some part of type "exon" has it. */
  lemma {:induction false} ExonSpansMembers(parts: seq<Part>)
    ensures forall x :: x in ExonSpans(parts) <==> exists i :: 0 <= i < |parts| && parts[i].kind == "exon" && parts[i].loc == x
    decreases |parts|
  {
    if parts != [] {
      var n := |parts| - 1;
      ExonSpansMembers(parts[..n]);
      assert forall i :: 0 <= i < n ==> parts[..n][i] == parts[i];
    }
  }

  /** `sorted` exon locations, as (start, end) tuples. */
  function SortedExons(t: Transcript): (r: seq<Interval>)
    ensures SortedBy(r, IntervalLe) && multiset(r) == multiset(ExonSpans(t.parts))
  {
    IntervalLePreorder();
    SortBy(ExonSpans(t.parts), IntervalLe)
  }

  /** The first "Name" qualifier value (an `IndexError` when the list is empty), else the id. */
  function TranscriptName(t: Transcript): Result<string>
  {
    match t.names
    case Some(ns) => if |ns| == 0 then Err(IndexError) else Ok(ns[0])
    case None => Ok(t.id)
  }

  /**
   * The BED12 record of one transcript of `gene`. Its type must be mRNA,
   * ncRNA or transcript, it must lie within the gene, it must have an exon,
   * its sorted exons must start at its start and end at its end, and its
   * strand must be 1 ('+') or -1 ('-'); each failure is an
   * `AssertionError`. `color` stands for the palette colour of the
   * transcript's class.
   */
  function GeneRecord(contig: string, gene: Feature, t: Transcript, color: string -> string): (r: Result<Bed.Bed12>)
    ensures r.Ok? ==> r.value.strand != Other
  {
    if t.kind !in {"mRNA", "ncRNA", "transcript"} then Err(AssertionError)
    else if !(t.loc.start >= gene.loc.start && t.loc.end <= gene.loc.end) then Err(AssertionError)
    else
      var exons := SortedExons(t);
      if |exons| < 1 then Err(AssertionError)
      else if !(exons[0].start == t.loc.start && exons[|exons| - 1].end == t.loc.end) then Err(AssertionError)
      else if t.strand != 1 && t.strand != -1 then Err(AssertionError)
      else
        match TranscriptName(t)
        case Err(e) => Err(e)
        case Ok(name) => Ok(BlockRecord(contig, exons, name, if t.strand == 1 then Forward else Reverse, color(name)))
  }

  /** Every exon of a transcript ends no earlier than it starts, as GFF3 locations do. */
  predicate WellFormedExons(t: Transcript)
  {
    forall i :: 0 <= i < |t.parts| && t.parts[i].kind == "exon" ==> t.parts[i].loc.start <= t.parts[i].loc.end
  }

  /** A transcript's record spans the transcript, lies within its gene and holds its exons, sorted, as blocks. */
  lemma GeneRecordBlocks(contig: string, gene: Feature, t: Transcript, color: string -> string)
    requires GeneRecord(contig, gene, t, color).Ok?
    ensures var b := GeneRecord(contig, gene, t, color).value;
      b.start == t.loc.start && b.end == t.loc.end &&
      gene.loc.start <= b.start && b.end <= gene.loc.end &&
      Bed.BlocksOf(b) == SortedExons(t) &&
      (b.strand == Forward <==> t.strand == 1)
  {
    var b := GeneRecord(contig, gene, t, color).value;
    BlockRecordBlocks(contig, SortedExons(t), b.name, b.strand, b.color);
  }

  /** The blocks of well-formed exons have non-negative sizes and relative starts. */
  lemma GeneRecordNonNegative(contig: string, gene: Feature, t: Transcript, color: string -> string)
    requires GeneRecord(contig, gene, t, color).Ok? && WellFormedExons(t)
    ensures var b := GeneRecord(contig, gene, t, color).value;
      forall i :: 0 <= i < b.blockCount ==> b.blockSizes[i] >= 0 && b.blockStarts[i] >= 0
  {
    var exons := SortedExons(t);
    var b := GeneRecord(contig, gene, t, color).value;
    assert b == BlockRecord(contig, exons, b.name, b.strand, b.color);
    forall i | 0 <= i < |exons| ensures exons[i].start <= exons[i].end && exons[0].start <= exons[i].start {
      assert exons[i] in multiset(exons);
      assert exons[i] in multiset(ExonSpans(t.parts));
      assert exons[i] in ExonSpans(t.parts);
      ExonSpansMembers(t.parts);
      if i > 0 {
        assert IntervalLe(exons[0], exons[i]);
      }
    }
  }

  /** The transcripts of one feature, each with the feature. */
  function OwnJobs(f: Feature): (r: seq<(Feature, Transcript)>)
    ensures |r| == |f.transcripts| && forall i :: 0 <= i < |r| ==> r[i] == (f, f.transcripts[i])
  {
    seq(|f.transcripts|, i requires 0 <= i < |f.transcripts| => (f, f.transcripts[i]))
  }

  /**
   * As written, `genes` announces that it skips a feature whose type is not
   * "gene" but goes on to its transcripts all the same.
   */
  function JobsAsWritten(features: seq<Feature>): seq<(Feature, Transcript)>
  {
    if features == [] then []
    else JobsAsWritten(features[..|features| - 1]) + OwnJobs(features[|features| - 1])
  }

  /** The transcripts visited: those of the features of type "gene", in order. */
  function Jobs(features: seq<Feature>): seq<(Feature, Transcript)>
  {
    if features == [] then []
    else
      var n := |features| - 1;
      Jobs(features[..n]) + (if features[n].kind == "gene" then OwnJobs(features[n]) else [])
  }

  /** Only transcripts of genes are visited, and all of them. */
  lemma {:induction false} JobsSpec(features: seq<Feature>)
    ensures forall j: (Feature, Transcript) :: j in Jobs(features) <==>
      j.0 in features && j.0.kind == "gene" && j.1 in j.0.transcripts
    decreases |features|
  {
    if features != [] {
      var n := |features| - 1;
      JobsSpec(features[..n]);
      assert features == features[..n] + [features[n]];
      forall j: (Feature, Transcript) | j.0 == features[n] && j.0.kind == "gene" && j.1 in j.0.transcripts
        ensures j in OwnJobs(features[n])
      {
        var i :| 0 <= i < |features[n].transcripts| && features[n].transcripts[i] == j.1;
        assert OwnJobs(features[n])[i] == j;
      }
    }
  }

  /** The record of every visited transcript, in order. */
  function GeneResults(contig: string, jobs: seq<(Feature, Transcript)>, color: string -> string): (r: seq<Result<Bed.Bed12>>)
    ensures |r| == |jobs|
  {
    seq(|jobs|, k requires 0 <= k < |jobs| => GeneRecord(contig, jobs[k].0, jobs[k].1, color))
  }

  lemma GeneResultsPrefix(contig: string, jobs: seq<(Feature, Transcript)>, more: seq<(Feature, Transcript)>, color: string -> string)
    requires jobs <= more
    ensures GeneResults(contig, jobs, color) <= GeneResults(contig, more, color)
  {
  }

  lemma {:induction false} JobsPrefix(features: seq<Feature>, i: nat)
    requires i <= |features|
    ensures Jobs(features[..i]) <= Jobs(features)
    decreases |features| - i
  {
    if i < |features| {
      JobsPrefix(features, i + 1);
      assert features[..i + 1][..i] == features[..i];
    } else {
      assert features[..i] == features;
    }
  }

  /**
   * A feature of another type holding a transcript of type "exon": as
   * written its transcript is checked and the run stops with an
   * `AssertionError`; skipping it, as announced, yields empty tracks.
   */
  lemma SkippedFeatureProcessed(contig: string, color: string -> string)
    ensures var f := Feature("region", Interval(0, 10), [Transcript("exon", "x", Interval(0, 10), 1, None, [])]);
      ByStrand(GeneResults(contig, JobsAsWritten([f]), color)) == Err(AssertionError) &&
      ByStrand(GeneResults(contig, Jobs([f]), color)) == Ok(([], []))
  {
    var t := Transcript("exon", "x", Interval(0, 10), 1, None, []);
    var f := Feature("region", Interval(0, 10), [t]);
    assert [f][..0] == [];
    assert JobsAsWritten([f]) == [(f, t)];
    assert Jobs([f]) == [];
    assert "exon" !in {"mRNA", "ncRNA", "transcript"};
    var rs := GeneResults(contig, [(f, t)], color);
    assert rs == [Err(AssertionError)];
    assert rs[..0] == [];
    assert FirstErr(rs) == Err(AssertionError);
  }

  /** The outcome of a concatenation: the first part's error, else the second's, else both value lists. */
  lemma {:induction false} FirstErrConcat<T>(a: seq<Result<T>>, b: seq<Result<T>>)
    ensures FirstErr(a + b) ==
      if FirstErr(a).Err? then FirstErr(a)
      else if FirstErr(b).Err? then Err(FirstErr(b).error)
      else Ok(FirstErr(a).value + FirstErr(b).value)
    decreases |b|
  {
    if b == [] {
      assert a + b == a;
      assert FirstErr(b) == Ok([]);
      if FirstErr(a).Ok? {
        assert FirstErr(a).value + [] == FirstErr(a).value;
      }
    } else {
      var n := |b| - 1;
      FirstErrConcat(a, b[..n]);
      assert (a + b)[..|a + b| - 1] == a + b[..n];
      assert (a + b)[|a + b| - 1] == b[n];
      var fa, fb := FirstErr(a), FirstErr(b[..n]);
      if fa.Ok? && fb.Ok? && b[n].Ok? {
        assert FirstErr(b) == Ok(fb.value + [b[n].value]);
        assert FirstErr(a + b) == Ok(fa.value + fb.value + [b[n].value]);
        assert fa.value + (fb.value + [b[n].value]) == fa.value + fb.value + [b[n].value];
      }
    }
  }

  lemma {:induction false} OnStrandConcat(a: seq<Bed.Bed12>, b: seq<Bed.Bed12>, s: Strand)
    ensures OnStrand(a + b, s) == OnStrand(a, s) + OnStrand(b, s)
    decreases |b|
  {
    if b == [] {
      assert a + b == a;
    } else {
      var n := |b| - 1;
      OnStrandConcat(a, b[..n], s);
      assert (a + b)[..|a + b| - 1] == a + b[..n];
    }
  }

  /** The outcome after one more feature: the features so far, then that feature's own transcripts. */
  lemma GenesSnoc(contig: string, features: seq<Feature>, i: nat, color: string -> string)
    requires i < |features|
    ensures var own := if features[i].kind == "gene" then OwnJobs(features[i]) else [];
      var a, b := FirstErr(GeneResults(contig, Jobs(features[..i]), color)), FirstErr(GeneResults(contig, own, color));
      FirstErr(GeneResults(contig, Jobs(features[..i + 1]), color)) ==
        if a.Err? then a else if b.Err? then Err(b.error) else Ok(a.value + b.value)
  {
    var own := if features[i].kind == "gene" then OwnJobs(features[i]) else [];
    var before := Jobs(features[..i]);
    assert features[..i + 1][..i] == features[..i];
    assert Jobs(features[..i + 1]) == before + own;
    assert GeneResults(contig, before + own, color) == GeneResults(contig, before, color) + GeneResults(contig, own, color);
    FirstErrConcat(GeneResults(contig, before, color), GeneResults(contig, own, color));
  }

  /** Once the features so far fail, the whole run fails with the same error. */
  lemma GenesFailed(contig: string, features: seq<Feature>, i: nat, color: string -> string)
    requires i <= |features| && FirstErr(GeneResults(contig, Jobs(features[..i]), color)).Err?
    ensures FirstErr(GeneResults(contig, Jobs(features), color)) == FirstErr(GeneResults(contig, Jobs(features[..i]), color))
  {
    JobsPrefix(features, i);
    GeneResultsPrefix(contig, Jobs(features[..i]), Jobs(features), color);
    FirstErrOfPrefix(GeneResults(contig, Jobs(features[..i]), color), GeneResults(contig, Jobs(features), color));
  }

  /** The records of one gene's transcripts, in order; the first failing one raises. */
  method GeneTranscripts(contig: string, gene: Feature, color: string -> string) returns (r: Result<seq<Bed.Bed12>>)
    ensures r == FirstErr(GeneResults(contig, OwnJobs(gene), color))
  {
    ghost var results := GeneResults(contig, OwnJobs(gene), color);
    var out: seq<Bed.Bed12> := [];
    for j := 0 to |gene.transcripts|
      invariant FirstErr(results[..j]) == Ok(out)
    {
      var rec := GeneRecord(contig, gene, gene.transcripts[j], color);
      assert results[j] == rec;
      if rec.Err? {
        assert results[..j + 1][..j] == results[..j];
        FirstErrPrefix(results, j + 1);
        return Err(rec.error);
      }
      FirstErrSnoc(results, j, out, rec.value);
      out := out + [rec.value];
    }
    assert results[..|gene.transcripts|] == results;
    r := Ok(out);
  }

  /**
   * `genes`: every transcript of every feature of type "gene" becomes a
   * record on the '+' or the '-' track; the first failing transcript
   * raises.
   */
  method Genes(contig: string, features: seq<Feature>, color: string -> string)
    returns (r: Result<(seq<Bed.Bed12>, seq<Bed.Bed12>)>)
    ensures r == ByStrand(GeneResults(contig, Jobs(features), color))
  {
    var fwd: seq<Bed.Bed12> := [];
    var rev: seq<Bed.Bed12> := [];
    ghost var done: seq<Bed.Bed12> := [];
    for i := 0 to |features|
      invariant FirstErr(GeneResults(contig, Jobs(features[..i]), color)) == Ok(done)
      invariant fwd == OnStrand(done, Forward) && rev == OnStrand(done, Reverse)
    {
      var gene := features[i];
      GenesSnoc(contig, features, i, color);
      if gene.kind == "gene" {
        var recs := GeneTranscripts(contig, gene, color);
        if recs.Err? {
          GenesFailed(contig, features, i + 1, color);
          return Err(recs.error);
        }
        OnStrandConcat(done, recs.value, Forward);
        OnStrandConcat(done, recs.value, Reverse);
        fwd := fwd + OnStrand(recs.value, Forward);
        rev := rev + OnStrand(recs.value, Reverse);
        done := done + recs.value;
      } else {
        assert done + [] == done;
      }
    }
    assert features[..|features|] == features;
    r := Ok((fwd, rev));
  }
}
