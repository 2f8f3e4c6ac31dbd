// BED helpers: grouping records by key, the BED12 block builder
// (`blocks.make` / `blocks.from_iterable`) and the coordinate parser.
module Bed {
  import opened Common
  import opened Sorting
  import opened Intervals
  import opened Decimal
  import opened Strs

  // ---------------------------------------------------------------------
  // group

  /** The values of the items whose key is `k`, in input order. */
  function Members<V, K(==), W>(items: seq<V>, key: V -> K, value: V -> W, k: K): seq<W>
  {
    if items == [] then []
    else
      var n := |items| - 1;
      Members(items[..n], key, value, k) + (if key(items[n]) == k then [value(items[n])] else [])
  }

  /** Every member of group `k` is the value of an item keyed `k`. */
  lemma {:induction false} MembersSound<V, K, W>(items: seq<V>, key: V -> K, value: V -> W, k: K)
    ensures forall w :: w in Members(items, key, value, k) ==>
      exists i :: 0 <= i < |items| && key(items[i]) == k && value(items[i]) == w
    decreases |items|
  {
    if items != [] {
      var n := |items| - 1;
      MembersSound(items[..n], key, value, k);
      forall w | w in Members(items, key, value, k)
        ensures exists i :: 0 <= i < |items| && key(items[i]) == k && value(items[i]) == w
      {
        if w in Members(items[..n], key, value, k) {
          var i :| 0 <= i < n && key(items[..n][i]) == k && value(items[..n][i]) == w;
          assert items[i] == items[..n][i];
        } else {
          assert key(items[n]) == k && value(items[n]) == w;
        }
      }
    }
  }

  /** Every item's value lands in the group of its own key. */
  lemma {:induction false} MembersComplete<V, K, W>(items: seq<V>, key: V -> K, value: V -> W)
    ensures forall i :: 0 <= i < |items| ==> value(items[i]) in Members(items, key, value, key(items[i]))
    decreases |items|
  {
    if items != [] {
      var n := |items| - 1;
      MembersComplete(items[..n], key, value);
      forall i | 0 <= i < |items| ensures value(items[i]) in Members(items, key, value, key(items[i])) {
        if i < n {
          assert items[..n][i] == items[i];
        }
      }
    }
  }

  lemma {:induction false} MembersAbsent<V, K, W>(items: seq<V>, key: V -> K, value: V -> W, k: K)
    requires forall i :: 0 <= i < |items| ==> key(items[i]) != k
    ensures Members(items, key, value, k) == []
    decreases |items|
  {
    if items != [] {
      MembersAbsent(items[..|items| - 1], key, value, k);
    }
  }

  /** The distinct keys of `items` in order of first occurrence: a dictionary's insertion order. */
  function KeysIn<V, K(==)>(items: seq<V>, key: V -> K): seq<K>
  {
    if items == [] then []
    else
      var n := |items| - 1;
      var keys := KeysIn(items[..n], key);
      if key(items[n]) in keys then keys else keys + [key(items[n])]
  }

  /** The dictionary `group` builds: each key's values appended in input order. */
  function GroupsIn<V, K(==), W>(items: seq<V>, key: V -> K, value: V -> W): map<K, seq<W>>
  {
    if items == [] then map[]
    else
      var n := |items| - 1;
      var g := GroupsIn(items[..n], key, value);
      var k := key(items[n]);
      if k in g then g[k := g[k] + [value(items[n])]] else g[k := [value(items[n])]]
  }

  /** The insertion order lists each key of the items exactly once. */
  lemma {:induction false} KeysInSpec<V, K>(items: seq<V>, key: V -> K)
    ensures Distinct(KeysIn(items, key))
    ensures forall k :: k in KeysIn(items, key) <==> exists i :: 0 <= i < |items| && key(items[i]) == k
    ensures forall i :: 0 <= i < |items| ==> key(items[i]) in KeysIn(items, key)
    decreases |items|
  {
    if items != [] {
      var n := |items| - 1;
      var pre := items[..n];
      KeysInSpec(pre, key);
      forall k ensures k in KeysIn(items, key) <==> exists i :: 0 <= i < |items| && key(items[i]) == k {
        if k in KeysIn(pre, key) {
          var i :| 0 <= i < n && key(pre[i]) == k;
          assert items[i] == pre[i];
        }
        if exists i :: 0 <= i < |items| && key(items[i]) == k {
          var i :| 0 <= i < |items| && key(items[i]) == k;
          if i < n {
            assert key(pre[i]) == k;
          }
        }
      }
    }
  }

  /** A key missing from the insertion order has no values. */
  lemma {:induction false} MembersUnlisted<V, K, W>(items: seq<V>, key: V -> K, value: V -> W, k: K)
    requires k !in KeysIn(items, key)
    ensures Members(items, key, value, k) == []
    decreases |items|
  {
    if items != [] {
      MembersUnlisted(items[..|items| - 1], key, value, k);
    }
  }

  /** The dictionary holds exactly the listed keys, each with the values of its items in order. */
  lemma {:induction false} GroupsInKey<V, K, W>(items: seq<V>, key: V -> K, value: V -> W, k: K)
    ensures k in GroupsIn(items, key, value) <==> k in KeysIn(items, key)
    ensures k in GroupsIn(items, key, value) ==> GroupsIn(items, key, value)[k] == Members(items, key, value, k)
    decreases |items|
  {
    if items != [] {
      var n := |items| - 1;
      var pre := items[..n];
      GroupsInKey(pre, key, value, k);
      if key(items[n]) == k && k !in KeysIn(pre, key) {
        MembersUnlisted(pre, key, value, k);
      }
    }
  }

  /**
   * `group`: a dictionary from each key to the values of its items in input
   * order; `keys` lists the dictionary's keys in insertion order.
   */
  method Group<V, K(==), W>(items: seq<V>, key: V -> K, value: V -> W) returns (keys: seq<K>, groups: map<K, seq<W>>)
    ensures Distinct(keys)
    ensures forall k :: k in groups <==> k in keys
    ensures forall k :: k in keys <==> exists i :: 0 <= i < |items| && key(items[i]) == k
    ensures forall k :: k in groups ==> groups[k] == Members(items, key, value, k)
    ensures keys == KeysIn(items, key)
  {
    keys, groups := [], map[];
    var i := 0;
    while i < |items|
      invariant 0 <= i <= |items|
      invariant keys == KeysIn(items[..i], key)
      invariant groups == GroupsIn(items[..i], key, value)
    {
      var k, w := key(items[i]), value(items[i]);
      assert items[..i + 1][..i] == items[..i];
      GroupsInKey(items[..i], key, value, k);
      if k in groups {
        groups := groups[k := groups[k] + [w]];
      } else {
        keys := keys + [k];
        groups := groups[k := [w]];
      }
      i := i + 1;
    }
    assert items[..|items|] == items;
    KeysInSpec(items, key);
    forall k ensures (k in groups <==> k in keys) && (k in groups ==> groups[k] == Members(items, key, value, k)) {
      GroupsInKey(items, key, value, k);
    }
  }

  // ---------------------------------------------------------------------
  // blocks

  /** A BED12 record; the block columns are kept as numbers. */
  datatype Bed12 = Bed12(
    seqid: string, start: int, end: int, name: string, strand: Strand,
    thickStart: int, thickEnd: int, color: string,
    blockCount: nat, blockSizes: seq<int>, blockStarts: seq<int>)

  /** Each block is non-empty and ends no later than the next one starts. */
  predicate Chained(s: seq<Interval>)
  {
    forall i, j :: 0 <= i < |s| && j == i + 1 < |s| ==> s[i].start < s[i].end <= s[j].start < s[j].end
  }

  /**
   * `blocks.make`: the intervals sorted by start become one BED12 record;
   * an empty list or touching-free order violation fails the assertion.
   */
  function MakeBlocks(seqid: string, intervals: seq<Interval>, strand: Strand, name: string, color: string): (r: Result<Bed12>)
    ensures r.Err? <==> |intervals| == 0 || !Chained(SortByStart(intervals))
    ensures r.Err? ==> r.error == AssertionError
    ensures r.Ok? ==> r.value.blockCount == |intervals| && |r.value.blockSizes| == |r.value.blockStarts| == |intervals|
  {
    var s := SortByStart(intervals);
    if |s| == 0 || !Chained(s) then Err(AssertionError)
    else
      var start, end := s[0].start, s[|s| - 1].end;
      Ok(Bed12(seqid, start, end, name, strand, start, end, color, |s|,
               seq(|s|, i requires 0 <= i < |s| => s[i].end - s[i].start),
               seq(|s|, i requires 0 <= i < |s| => s[i].start - start)))
  }

  /** The blocks a BED12 record describes, in absolute coordinates. */
  function BlocksOf(b: Bed12): (r: seq<Interval>)
    requires |b.blockSizes| == |b.blockStarts|
    ensures |r| == |b.blockSizes|
  {
    seq(|b.blockSizes|, i requires 0 <= i < |b.blockSizes| =>
      Interval(b.start + b.blockStarts[i], b.start + b.blockStarts[i] + b.blockSizes[i]))
  }

  /** Reading the blocks back from the record gives the sorted input intervals. */
  lemma BlocksRoundTrip(seqid: string, intervals: seq<Interval>, strand: Strand, name: string, color: string)
    requires MakeBlocks(seqid, intervals, strand, name, color).Ok?
    ensures BlocksOf(MakeBlocks(seqid, intervals, strand, name, color).value) == SortByStart(intervals)
  {
  }

  /**
   * The record spans its blocks exactly: the first block starts at offset 0,
   * the last one ends at `end - start`, the thick part is the whole span and
   * blocks of a multi-block record are non-empty and ascending.
   */
  lemma BlocksSpan(seqid: string, intervals: seq<Interval>, strand: Strand, name: string, color: string)
    requires MakeBlocks(seqid, intervals, strand, name, color).Ok?
    ensures var b := MakeBlocks(seqid, intervals, strand, name, color).value;
      var n := b.blockCount;
      n >= 1 && b.blockStarts[0] == 0 &&
      b.blockStarts[n - 1] + b.blockSizes[n - 1] == b.end - b.start &&
      b.thickStart == b.start && b.thickEnd == b.end &&
      (n >= 2 ==> forall i :: 0 <= i < n ==> b.blockSizes[i] > 0) &&
      (forall i :: 0 <= i < n - 1 ==> b.blockStarts[i] + b.blockSizes[i] <= b.blockStarts[i + 1])
  {
    var s := SortByStart(intervals);
    var b := MakeBlocks(seqid, intervals, strand, name, color).value;
    var n := b.blockCount;
    assert Chained(s);
    assert b.blockSizes == seq(|s|, i requires 0 <= i < |s| => s[i].end - s[i].start);
    if n >= 2 {
      forall i | 0 <= i < n ensures b.blockSizes[i] > 0 {
        if i < n - 1 {
          ChainedAt(s, i);
        } else {
          ChainedAt(s, i - 1);
        }
      }
    }
  }

  /** Two neighbours of a chained run are non-empty and in order. */
  lemma ChainedAt(s: seq<Interval>, i: int)
    requires Chained(s) && 0 <= i && i + 1 < |s|
    ensures s[i].start < s[i].end <= s[i + 1].start < s[i + 1].end
  {
    var j := i + 1;
    var x, y := s[i], s[j];
    assert x.start < x.end <= y.start < y.end;
  }

  /** A single interval is never checked: even an empty one is accepted, as a zero-size block. */
  lemma SingleBlockUnchecked(seqid: string, x: Interval, strand: Strand, name: string, color: string)
    requires x.start == x.end
    ensures MakeBlocks(seqid, [x], strand, name, color).Ok?
    ensures MakeBlocks(seqid, [x], strand, name, color).value.blockSizes == [0]
  {
    assert SortByStart([x]) == [x] by {
      assert multiset(SortByStart([x])) == multiset([x]);
      assert x in SortByStart([x]);
    }
  }

  /** One input of `blocks.from_iterable`: seqid, intervals, strand, name and optional color. */
  datatype BlockRecord = BlockRecord(seqid: string, intervals: seq<Interval>, strand: Strand, name: string, color: Option<string>)

  function ColorOf(r: BlockRecord): string
  {
    match r.color
    case Some(c) => c
    case None => "0,0,0"
  }

  function MakeRecord(r: BlockRecord): Result<Bed12>
  {
    MakeBlocks(r.seqid, r.intervals, r.strand, r.name, ColorOf(r))
  }

  /** `BedTool.sort()`: by seqid, then by start. */
  predicate BedLe(a: Bed12, b: Bed12)
  {
    StrLe(a.seqid, b.seqid) && (a.seqid == b.seqid ==> a.start <= b.start)
  }

  lemma BedLePreorder()
    ensures TotalPreorder(BedLe)
  {
    forall a: Bed12, b: Bed12 ensures BedLe(a, b) || BedLe(b, a) {
      StrLeTotal(a.seqid, b.seqid);
      if StrLe(a.seqid, b.seqid) && StrLe(b.seqid, a.seqid) {
        StrLeAntisymmetric(a.seqid, b.seqid);
      }
    }
    forall a: Bed12, b: Bed12, c: Bed12 | BedLe(a, b) && BedLe(b, c) ensures BedLe(a, c) {
      StrLeTransitive(a.seqid, b.seqid, c.seqid);
      if a.seqid == c.seqid {
        StrLeAntisymmetric(a.seqid, b.seqid);
      }
    }
  }

  /** The records of all inputs, in input order (all of them must build). */
  function Made(records: seq<BlockRecord>): (r: seq<Bed12>)
    requires forall i :: 0 <= i < |records| ==> MakeRecord(records[i]).Ok?
    ensures |r| == |records|
    ensures forall i :: 0 <= i < |records| ==> r[i] == MakeRecord(records[i]).value
  {
    if records == [] then []
    else
      var n := |records| - 1;
      var init := records[..n];
      assert forall i :: 0 <= i < n ==> init[i] == records[i];
      var rest := Made(init);
      var r := rest + [MakeRecord(records[n]).value];
      assert forall i :: 0 <= i < n ==> r[i] == rest[i];
      r
  }

  /** Applies `f` to every input in order, stopping at the first error. */
  method BuildAll<A, B>(xs: seq<A>, f: A -> Result<B>) returns (r: Result<seq<B>>)
    ensures r.Err? <==> exists i :: 0 <= i < |xs| && f(xs[i]).Err?
    ensures r.Ok? ==> |r.value| == |xs| && forall i :: 0 <= i < |xs| ==> f(xs[i]).Ok? && r.value[i] == f(xs[i]).value
  {
    var out: seq<B> := [];
    var i := 0;
    while i < |xs|
      invariant 0 <= i <= |xs| && |out| == i
      invariant forall j :: 0 <= j < i ==> f(xs[j]).Ok? && out[j] == f(xs[j]).value
    {
      var y := f(xs[i]);
      if y.Err? {
        return Err(y.error);
      }
      out := out + [y.value];
      i := i + 1;
    }
    r := Ok(out);
  }

  /**
   * `blocks.from_iterable`: one record per input, color defaulting to
   * "0,0,0"; the first failing input's assertion error is the result.
   */
  method FromIterable(records: seq<BlockRecord>, sort: bool) returns (r: Result<seq<Bed12>>)
    ensures r.Err? <==> exists i :: 0 <= i < |records| && MakeRecord(records[i]).Err?
    ensures r.Ok? ==>
      (forall i :: 0 <= i < |records| ==> MakeRecord(records[i]).Ok?) &&
      (!sort ==> r.value == Made(records)) &&
      (sort ==> SortedBy(r.value, BedLe) && multiset(r.value) == multiset(Made(records)))
  {
    r := BuildAll(records, MakeRecord);
    if r.Ok? {
      assert r.value == Made(records);
    }
    if r.Ok? && sort {
      BedLePreorder();
      r := Ok(SortBy(r.value, BedLe));
    }
  }

  // ---------------------------------------------------------------------
  // parse_coords

  /**
   * Decimal digits as `int` accepts them: ASCII digits, each but the
   * first possibly preceded by a single underscore.
   */
  predicate Grouped(d: string)
  {
    |d| > 0 && IsDigit(d[0]) && GroupedTail(d[1..])
  }

  /** What may follow a digit: nothing, or a digit or `_` and a digit, and again. */
  predicate GroupedTail(r: string)
    decreases |r|
  {
    r == [] ||
    (IsDigit(r[0]) && GroupedTail(r[1..])) ||
    (|r| > 1 && r[0] == '_' && IsDigit(r[1]) && GroupedTail(r[2..]))
  }

  /** Dropping the underscores from grouped digits leaves only digits. */
  lemma {:induction false} GroupedTailDigits(r: string)
    requires GroupedTail(r)
    ensures AllDigits(Delete(r, '_'))
    decreases |r|
  {
    if r != [] {
      if IsDigit(r[0]) && GroupedTail(r[1..]) {
        GroupedTailDigits(r[1..]);
      } else {
        GroupedTailDigits(r[2..]);
        assert r[1..][1..] == r[2..];
      }
    }
  }

  /** Plain digits are grouped digits. */
  lemma {:induction false} DigitsGroupedTail(r: string)
    requires AllDigits(r)
    ensures GroupedTail(r)
    decreases |r|
  {
    if r != [] {
      DigitsGroupedTail(r[1..]);
    }
  }

  /**
   * `int(s)` on a string: optional surrounding whitespace, an optional
   * sign, then grouped ASCII digits, read in base 10 with the underscores
   * dropped.
   */
  function ParseInt(s: string): Option<int>
  {
    var t := Strip(s);
    var signed := |t| > 0 && (t[0] == '-' || t[0] == '+');
    var digits := if signed then t[1..] else t;
    if Grouped(digits) then
      var v: int := GroupedValue(digits);
      Some(if signed && t[0] == '-' then -v else v)
    else None
  }

  /** The value of grouped digits: the digits read in base 10, the underscores dropped. */
  function GroupedValue(d: string): (v: nat)
    requires Grouped(d)
    ensures AllDigits(d) ==> v == Value(d)
  {
    var plain := Delete(d, '_');
    assert AllDigits(plain) by {
      GroupedTailDigits(d[1..]);
      assert d == [d[0]] + d[1..];
    }
    Value(plain)
  }

  /** `int(str(n)) == n`. */
  lemma ParseIntOfNat(n: nat)
    ensures ParseInt(NatToString(n)) == Some(n)
  {
    var s := NatToString(n);
    assert IsDigit(s[0]) && IsDigit(s[|s| - 1]);
    StripClean(s);
    assert Strip(s) == s;
    assert !(s[0] == '-' || s[0] == '+');
    ValueOfNatToString(n);
    DigitsGroupedTail(s[1..]);
  }

  function Fields(seqid: string, start: string, end: string): Result<(string, int, int)>
  {
    match (ParseInt(start), ParseInt(end))
    case (Some(s), Some(e)) => Ok((seqid, s, e))
    case _ => Err(ValueError)
  }

  /**
   * `parse_coords`: after removing commas, "seqid:start-end" (exactly one
   * ':' and one '-' after it) or exactly three whitespace-separated fields;
   * anything else is a `ValueError`.
   */
  function ParseCoords(coords: string): (r: Result<(string, int, int)>)
    ensures r.Err? ==> r.error == ValueError
  {
    var c := Delete(coords, ',');
    if ':' in c then
      var parts := Split(c, ':');
      if |parts| != 2 then Err(ValueError)
      else
        var ends := Split(parts[1], '-');
        if |ends| != 2 then Err(ValueError) else Fields(parts[0], ends[0], ends[1])
    else
      var parts := Tokens(c);
      if |parts| != 3 then Err(ValueError)
      else
        assert parts[0] in SplitWhere(c, IsSpace);
        Fields(parts[0], parts[1], parts[2])
  }

  lemma DeleteAbsent(s: string, c: char)
    requires c !in s
    ensures Delete(s, c) == s
  {
    if s != [] {
      DeleteAbsent(s[1..], c);
      assert [s[0]] + s[1..] == s;
    }
  }

  /** Joining two separator-free strings with the separator and splitting gives the two strings back. */
  lemma SplitPair(a: string, b: string, c: char)
    requires c !in a && c !in b
    ensures Split(a + [c] + b, c) == [a, b]
  {
    assert Join([a, b], c) == a + [c] + b;
    SplitJoin([a, b], c);
  }

  /** Formatting coordinates as "seqid:start-end" and parsing them back gives the coordinates. */
  lemma ParseCoordsRoundTrip(seqid: string, start: nat, end: nat)
    requires ':' !in seqid && ',' !in seqid
    ensures ParseCoords(seqid + ":" + NatToString(start) + "-" + NatToString(end)) == Ok((seqid, start, end))
  {
    var a, b := NatToString(start), NatToString(end);
    assert forall i :: 0 <= i < |a| ==> IsDigit(a[i]);
    assert forall i :: 0 <= i < |b| ==> IsDigit(b[i]);
    assert ':' !in a && ':' !in b && ',' !in a && ',' !in b && '-' !in a && '-' !in b;
    var range := a + ['-'] + b;
    var text := seqid + [':'] + range;
    assert seqid + ":" + a + "-" + b == text;
    assert ',' !in text;
    DeleteAbsent(text, ',');
    SplitPair(seqid, range, ':');
    SplitPair(a, b, '-');
    ParseIntOfNat(start);
    ParseIntOfNat(end);
    assert ':' in text;
    assert Fields(seqid, a, b) == Ok((seqid, start, end));
  }
}
