// The differential-expression front end: comparisons and their validation,
// the renaming of samples, attributes, levels and features to plain
// identifiers before the R wrapper runs, and the count filter applied to
// each comparison's table.
module DESeq2 {
  import opened Common
  import opened Strs
  import opened Decimal

  /** The alternative hypotheses DESeq2 accepts. */
  datatype Alternative = GreaterAbs | LessAbs | Greater | Less

  /** A comparison; sample identifiers are the counts table's column names. */
  datatype Comparison = Comparison(
    ind: string, samples: seq<string>, design: string, alternative: Alternative,
    attribute: string, target: string, reference: string,
    log2fcThr: real, padjThr: real, minCounts: int, minReplicates: int)

  /** The post-init invariant of a comparison. */
  predicate WellFormed(c: Comparison)
  {
    c.target != c.reference
  }

  /** Building a comparison: the assertion that target and reference levels differ. */
  function MakeComparison(
    ind: string, samples: seq<string>, design: string, alternative: Alternative,
    attribute: string, target: string, reference: string,
    log2fcThr: real, padjThr: real, minCounts: int, minReplicates: int): (r: Result<Comparison>)
    ensures r.Ok? <==> target != reference
    ensures r.Err? ==> r.error == AssertionError
    ensures r.Ok? ==> (WellFormed(r.value) && r.value.ind == ind && r.value.samples == samples
      && r.value.target == target && r.value.reference == reference)
  {
    if target == reference then Err(AssertionError)
    else Ok(Comparison(ind, samples, design, alternative, attribute, target, reference,
                       log2fcThr, padjThr, minCounts, minReplicates))
  }

  // ---------------------------------------------------------------------
  // Dictionaries

  /** A Python dict of strings: its items in insertion order. */
  type Dict = seq<(string, string)>

  /** No key is listed twice. */
  predicate IsDict(d: Dict)
  {
    forall i, j :: 0 <= i < j < |d| ==> d[i].0 != d[j].0
  }

  /** `d.get(k)`. */
  function Get(d: Dict, k: string): (r: Option<string>)
    ensures r.Some? <==> exists i :: 0 <= i < |d| && d[i].0 == k
    ensures r.Some? ==> exists i :: 0 <= i < |d| && d[i] == (k, r.value)
  {
    if d == [] then None
    else if d[0].0 == k then Some(d[0].1)
    else
      var r := Get(d[1..], k);
      assert forall i :: 1 <= i < |d| ==> d[i] == d[1..][i - 1];
      r
  }

  /** `d[k] = v`: an existing key keeps its place, a new key goes last. */
  function Put(d: Dict, k: string, v: string): (r: Dict)
    ensures |r| == |d| || |r| == |d| + 1
  {
    if d == [] then [(k, v)]
    else if d[0].0 == k then [(k, v)] + d[1..]
    else [d[0]] + Put(d[1..], k, v)
  }

  /** After `d[k] = v`, `k` gives `v` and every other key what it gave before. */
  lemma {:induction false} PutGet(d: Dict, k: string, v: string, x: string)
    ensures Get(Put(d, k, v), x) == if x == k then Some(v) else Get(d, x)
    decreases |d|
  {
    if d != [] && d[0].0 != k && d[0].0 != x {
      PutGet(d[1..], k, v, x);
      assert Put(d, k, v)[1..] == Put(d[1..], k, v);
    } else if d != [] && d[0].0 == k && x != k {
      assert Put(d, k, v)[1..] == d[1..];
    }
  }

  /** `d[k] = v` adds the item `(k, v)` and keeps only items of `d` besides. */
  lemma {:induction false} PutItems(d: Dict, k: string, v: string)
    ensures forall i :: 0 <= i < |Put(d, k, v)| ==> Put(d, k, v)[i] == (k, v) || Put(d, k, v)[i] in d
    decreases |d|
  {
    if d != [] {
      var r := Put(d, k, v);
      if d[0].0 == k {
        assert forall i :: 1 <= i < |r| ==> r[i] == d[i];
      } else {
        var rest := Put(d[1..], k, v);
        PutItems(d[1..], k, v);
        assert forall i :: 1 <= i < |r| ==> r[i] == rest[i - 1];
        assert forall x :: x in d[1..] ==> x in d;
      }
    }
  }

  /** `d[k] = v` keeps the keys distinct. */
  lemma {:induction false} PutDict(d: Dict, k: string, v: string)
    requires IsDict(d)
    ensures IsDict(Put(d, k, v))
    decreases |d|
  {
    if d != [] {
      var r := Put(d, k, v);
      if d[0].0 == k {
        assert forall i :: 1 <= i < |r| ==> r[i] == d[i];
      } else {
        var rest := Put(d[1..], k, v);
        PutDict(d[1..], k, v);
        PutItems(d[1..], k, v);
        assert forall i :: 1 <= i < |r| ==> r[i] == rest[i - 1];
        forall j | 1 <= j < |r| ensures r[0].0 != r[j].0 {
          if rest[j - 1] != (k, v) {
            var m :| 0 <= m < |d[1..]| && d[1..][m] == rest[j - 1];
            assert d[m + 1] == rest[j - 1];
          }
        }
      }
    }
  }

  // ---------------------------------------------------------------------
  // Plain identifiers

  predicate IsAlnum(c: char)
  {
    'a' <= c <= 'z' || 'A' <= c <= 'Z' || '0' <= c <= '9'
  }

  /** A symbol that survives normalisation. */
  predicate Plain(c: char)
  {
    IsAlnum(c) || c == '_'
  }

  predicate AllPlain(s: string)
  {
    forall i :: 0 <= i < |s| ==> Plain(s[i])
  }

  /** `s` with every symbol that is not plain turned into '_'. */
  function Sanitize(s: string): (r: string)
    ensures |r| == |s| && AllPlain(r)
  {
    seq(|s|, i requires 0 <= i < |s| => if Plain(s[i]) then s[i] else '_')
  }

  /** `_normalize_string`: sanitised, split on '_', empty pieces dropped, joined with '_'. */
  function Normalized(s: string): string
  {
    Join(Pieces(s), '_')
  }

  /** The non-empty '_'-pieces of the sanitised string. */
  function Pieces(s: string): seq<string>
  {
    NonEmptyStrings(Split(Sanitize(s), '_'))
  }

  /** `s` after the symbols of `done` that are not plain were replaced by '_'. */
  function Masked(s: string, done: set<char>): (r: string)
    ensures |r| == |s|
  {
    seq(|s|, i requires 0 <= i < |s| => if s[i] in done && !Plain(s[i]) then '_' else s[i])
  }

  /** `t` with every `c` turned into '_'. */
  function Swapped(t: string, c: char): (r: string)
    ensures |r| == |t|
  {
    seq(|t|, i requires 0 <= i < |t| => if t[i] == c then '_' else t[i])
  }

  /** Replacing a single symbol swaps each of its occurrences. */
  lemma {:induction false} ReplaceSymbol(t: string, c: char)
    ensures Replace(t, [c], "_") == Swapped(t, c)
    decreases |t|
  {
    if t != [] {
      ReplaceSymbol(t[1..], c);
      assert StartsWith(t, [c]) <==> t[0] == c by {
        assert |t| >= 1 ==> t[..1] == [t[0]];
      }
      assert t[|[c]|..] == t[1..];
      assert Swapped(t, c) == [if t[0] == c then '_' else t[0]] + Swapped(t[1..], c);
    }
  }

  /** One turn of the replace loop masks one more symbol. */
  lemma MaskStep(s: string, done: set<char>, c: char)
    requires c !in done && !Plain(c)
    ensures Replace(Masked(s, done), [c], "_") == Masked(s, done + {c})
  {
    ReplaceSymbol(Masked(s, done), c);
  }

  /** A plain symbol is never masked. */
  lemma MaskPlain(s: string, done: set<char>, c: char)
    requires Plain(c)
    ensures Masked(s, done) == Masked(s, done + {c})
  {
    forall i | 0 <= i < |s| ensures Masked(s, done)[i] == Masked(s, done + {c})[i] {
      assert s[i] in done + {c} <==> s[i] in done || s[i] == c;
    }
  }

  /** Once every symbol of `s` is done, `s` is sanitised. */
  lemma MaskedAll(s: string, all: set<char>)
    requires forall i :: 0 <= i < |s| ==> s[i] in all
    ensures Masked(s, all) == Sanitize(s)
  {
    forall i | 0 <= i < |s| ensures Masked(s, all)[i] == Sanitize(s)[i] {
      assert s[i] in all;
    }
  }

  /**
   * Lines 81-90: every symbol of the string that is neither alphanumeric nor
   * '_' is replaced by '_', in whatever order the set yields them, then the
   * empty '_'-pieces are dropped.
   */
  method NormalizeString(s: string) returns (r: string)
    ensures r == Normalized(s)
  {
    var all := set c | c in s;
    var rest := all;
    var t := s;
    while rest != {}
      invariant rest <= all
      invariant t == Masked(s, all - rest)
      decreases |rest|
    {
      var c :| c in rest;
      if !Plain(c) {
        MaskStep(s, all - rest, c);
        t := Replace(t, [c], "_");
      } else {
        MaskPlain(s, all - rest, c);
      }
      assert (all - rest) + {c} == all - (rest - {c});
      rest := rest - {c};
    }
    assert all - rest == all;
    MaskedAll(s, all);
    r := Join(NonEmptyStrings(Split(t, '_')), '_');
  }

  /** Every symbol of a piece of `Split(t, c)` occurs in `t`. */
  lemma {:induction false} SplitSymbols(t: string, c: char)
    ensures var r := Split(t, c);
      forall i, k :: 0 <= i < |r| && 0 <= k < |r[i]| ==> r[i][k] in t
    decreases |t|
  {
    if t != [] {
      SplitSymbols(t[1..], c);
      var rest := Split(t[1..], c);
      assert SplitWhere(t[1..], x => x == c) == rest;
      assert forall x :: x in t[1..] ==> x in t by {
        assert t == [t[0]] + t[1..];
      }
      var r := Split(t, c);
      if t[0] == c {
        assert r == [""] + rest;
      } else {
        assert r == [[t[0]] + rest[0]] + rest[1..];
        forall i, k | 0 <= i < |r| && 0 <= k < |r[i]| ensures r[i][k] in t {
          if i == 0 && k > 0 {
            assert r[i][k] == rest[0][k - 1];
          } else if i > 0 {
            assert r[i] == rest[i];
          }
        }
      }
    }
  }

  /** Joining plain pieces with '_' gives a plain string. */
  lemma {:induction false} JoinPlain(pieces: seq<string>)
    requires forall i :: 0 <= i < |pieces| ==> AllPlain(pieces[i])
    ensures AllPlain(Join(pieces, '_'))
    decreases |pieces|
  {
    if |pieces| > 1 {
      JoinPlain(pieces[1..]);
    }
  }

  /** The pieces that `Normalized` joins: non-empty, plain and free of '_'. */
  lemma NormalizedPieces(s: string)
    ensures var p := Pieces(s);
      forall i :: 0 <= i < |p| ==> p[i] != [] && '_' !in p[i] && AllPlain(p[i])
  {
    var t := Sanitize(s);
    var pieces := Split(t, '_');
    var p := NonEmptyStrings(pieces);
    SplitSymbols(t, '_');
    forall i | 0 <= i < |p| ensures p[i] != [] && '_' !in p[i] && AllPlain(p[i]) {
      assert p[i] in p;
      assert p[i] in pieces;
      var j :| 0 <= j < |pieces| && pieces[j] == p[i];
      forall k | 0 <= k < |p[i]| ensures Plain(p[i][k]) {
        assert pieces[j][k] in t;
      }
    }
  }

  /** A normalised string holds only alphanumerics and '_'. */
  lemma NormalizedPlain(s: string)
    ensures AllPlain(Normalized(s))
  {
    NormalizedPieces(s);
    JoinPlain(Pieces(s));
  }

  /** Splitting a normalised string on '_' gives no empty piece. */
  lemma NormalizedSplit(s: string)
    ensures Normalized(s) == [] || forall x :: x in Split(Normalized(s), '_') ==> x != []
  {
    var p := Pieces(s);
    NormalizedPieces(s);
    if |p| >= 1 {
      SplitJoin(p, '_');
    }
  }

  /** Non-empty pieces free of `c` joined with `c`: `c` is never first, last or doubled. */
  lemma {:induction false} JoinSeparated(pieces: seq<string>, c: char)
    requires forall i :: 0 <= i < |pieces| ==> pieces[i] != [] && c !in pieces[i]
    ensures var r := Join(pieces, c);
      (r != [] ==> r[0] != c && r[|r| - 1] != c)
      && forall i :: 0 <= i < |r| - 1 && r[i] == c ==> r[i + 1] != c
    decreases |pieces|
  {
    if |pieces| > 1 {
      var head, rest := pieces[0], Join(pieces[1..], c);
      JoinSeparated(pieces[1..], c);
      var r := Join(pieces, c);
      assert r == head + [c] + rest;
      assert rest != [] by {
        assert rest == pieces[1] || rest[..|pieces[1]|] == pieces[1];
      }
      forall i | 0 <= i < |r| - 1 && r[i] == c ensures r[i + 1] != c {
        if i > |head| {
          assert r[i] == rest[i - |head| - 1] && r[i + 1] == rest[i - |head|];
        }
      }
    }
  }

  /** A normalised string neither starts nor ends with '_' and never doubles it. */
  lemma NormalizedSeparated(s: string)
    ensures var r := Normalized(s);
      (r != [] ==> r[0] != '_' && r[|r| - 1] != '_')
      && forall i :: 0 <= i < |r| - 1 && r[i] == '_' ==> r[i + 1] != '_'
  {
    NormalizedPieces(s);
    JoinSeparated(Pieces(s), '_');
  }

  /** Normalising twice is normalising once. */
  lemma NormalizedIdempotent(s: string)
    ensures Normalized(Normalized(s)) == Normalized(s)
  {
    var r := Normalized(s);
    var p := Pieces(s);
    NormalizedPlain(s);
    NormalizedPieces(s);
    assert Sanitize(r) == r;
    if |p| == 0 {
      assert r == [];
      assert Split(r, '_') == [""];
      assert NonEmptyStrings([""]) == [];
    } else {
      SplitJoin(p, '_');
      NonEmptyKeeps(p);
    }
  }

  /** Dropping the empty strings of a list that has none changes nothing. */
  lemma {:induction false} NonEmptyKeeps(p: seq<string>)
    requires forall i :: 0 <= i < |p| ==> p[i] != []
    ensures NonEmptyStrings(p) == p
    decreases |p|
  {
    if p != [] {
      NonEmptyKeeps(p[1..]);
      assert [p[0]] + p[1..] == p;
    }
  }

  // ---------------------------------------------------------------------
  // Generated identifiers

  /** Lines 94, 100, 104, 110: the identifier of the `i`-th key. */
  function Id(key: string, i: nat): string
  {
    Normalized(key) + "_" + NatToString(i)
  }

  /** The number after the last '_' decides the identifier. */
  lemma SuffixIndex(p: string, i: nat, q: string, j: nat)
    requires p + "_" + NatToString(i) == q + "_" + NatToString(j)
    ensures i == j
  {
    var x := p + "_" + NatToString(i);
    var di, dj := NatToString(i), NatToString(j);
    LastUnderscore(p, di);
    LastUnderscore(q, dj);
    assert |p| == |q|;
    assert di == x[|p| + 1..] == dj;
    ValueOfNatToString(i);
    ValueOfNatToString(j);
  }

  /** In `p + "_" + d` with `d` all digits, the '_' after `p` is the last one. */
  lemma LastUnderscore(p: string, d: string)
    requires AllDigits(d)
    ensures var x := p + "_" + d;
      x[|p|] == '_' && forall k :: |p| < k < |x| ==> x[k] != '_'
  {
    var x := p + "_" + d;
    forall k | |p| < k < |x| ensures x[k] != '_' {
      assert x[k] == d[k - |p| - 1];
    }
  }

  /** Identifiers at different positions differ, whatever the keys. */
  lemma IdsDistinct(a: string, i: nat, b: string, j: nat)
    requires i != j
    ensures Id(a, i) != Id(b, j)
  {
    if Id(a, i) == Id(b, j) {
      SuffixIndex(Normalized(a), i, Normalized(b), j);
    }
  }

  /** `{key: Id(key, i) for i, key in enumerate(keys)}`. */
  function IdMap(keys: seq<string>): (d: Dict)
    ensures IsDict(d)
  {
    if keys == [] then []
    else
      var n := |keys| - 1;
      PutDict(IdMap(keys[..n]), keys[n], Id(keys[n], n));
      Put(IdMap(keys[..n]), keys[n], Id(keys[n], n))
  }

  /** The item is some key together with the identifier of one of its positions. */
  predicate Labelled(keys: seq<string>, item: (string, string))
  {
    exists j :: 0 <= j < |keys| && item == (keys[j], Id(keys[j], j))
  }

  /** Each item maps a key to the identifier of one of its positions. */
  lemma {:induction false} IdMapItems(keys: seq<string>)
    ensures forall i :: 0 <= i < |IdMap(keys)| ==> Labelled(keys, IdMap(keys)[i])
    decreases |keys|
  {
    if keys != [] {
      var n := |keys| - 1;
      var pre := keys[..n];
      var e := IdMap(pre);
      IdMapItems(pre);
      PutItems(e, keys[n], Id(keys[n], n));
      var d := IdMap(keys);
      forall i | 0 <= i < |d| ensures Labelled(keys, d[i]) {
        if d[i] == (keys[n], Id(keys[n], n)) {
          assert Labelled(keys, d[i]);
        } else {
          assert d[i] in e;
          var m :| 0 <= m < |e| && e[m] == d[i];
          assert Labelled(pre, e[m]);
          var j :| 0 <= j < |pre| && e[m] == (pre[j], Id(pre[j], j));
          assert pre[j] == keys[j];
        }
      }
    }
  }

  /** Every key gets an identifier, and nothing else does. */
  lemma {:induction false} IdMapKeys(keys: seq<string>, k: string)
    ensures Get(IdMap(keys), k).Some? <==> k in keys
    decreases |keys|
  {
    if keys != [] {
      var n := |keys| - 1;
      IdMapKeys(keys[..n], k);
      PutGet(IdMap(keys[..n]), keys[n], Id(keys[n], n), k);
      assert keys == keys[..n] + [keys[n]];
    }
  }

  /** Different keys never share an identifier. */
  lemma IdMapInjective(keys: seq<string>, a: string, b: string)
    requires Get(IdMap(keys), a).Some? && Get(IdMap(keys), a) == Get(IdMap(keys), b)
    ensures a == b
  {
    var d := IdMap(keys);
    var v := Get(d, a).value;
    var p :| 0 <= p < |d| && d[p] == (a, v);
    var q :| 0 <= q < |d| && d[q] == (b, v);
    IdMapItems(keys);
    assert Labelled(keys, d[p]) && Labelled(keys, d[q]);
    var i :| 0 <= i < |keys| && d[p] == (keys[i], Id(keys[i], i));
    var j :| 0 <= j < |keys| && d[q] == (keys[j], Id(keys[j], j));
    if i != j {
      IdsDistinct(keys[i], i, keys[j], j);
    }
  }

  /** Line 120: `{v: k for k, v in d.items()}`. */
  function Invert(d: Dict): Dict
  {
    if d == [] then []
    else
      var n := |d| - 1;
      Put(Invert(d[..n]), d[n].1, d[n].0)
  }

  /** Inverting a dict whose values differ maps each value back to its key. */
  lemma {:induction false} InvertItem(d: Dict, i: int)
    requires forall p, q :: 0 <= p < q < |d| ==> d[p].1 != d[q].1
    requires 0 <= i < |d|
    ensures Get(Invert(d), d[i].1) == Some(d[i].0)
    decreases |d|
  {
    var n := |d| - 1;
    PutGet(Invert(d[..n]), d[n].1, d[n].0, d[i].1);
    if i < n {
      InvertItem(d[..n], i);
    }
  }

  /** Lines 110-121: renaming a feature to its identifier and back gives the feature. */
  lemma FeatureRoundTrip(keys: seq<string>, k: string)
    requires k in keys
    ensures Get(IdMap(keys), k).Some?
    ensures Get(Invert(IdMap(keys)), Get(IdMap(keys), k).value) == Some(k)
  {
    var d := IdMap(keys);
    IdMapKeys(keys, k);
    forall p, q | 0 <= p < q < |d| ensures d[p].1 != d[q].1 {
      if d[p].1 == d[q].1 {
        assert Get(d, d[p].0) == Some(d[p].1) && Get(d, d[q].0) == Some(d[q].1) by {
          GetItem(d, p);
          GetItem(d, q);
        }
        IdMapInjective(keys, d[p].0, d[q].0);
      }
    }
    var v := Get(d, k).value;
    var p :| 0 <= p < |d| && d[p] == (k, v);
    InvertItem(d, p);
  }

  /** In a dict, looking up an item's key gives its value. */
  lemma {:induction false} GetItem(d: Dict, p: int)
    requires IsDict(d) && 0 <= p < |d|
    ensures Get(d, d[p].0) == Some(d[p].1)
    decreases |d|
  {
    if p > 0 {
      GetItem(d[1..], p - 1);
    }
  }

  // ---------------------------------------------------------------------
  // Normalising a comparison

  /** Lines 42-43 as written: each attribute name replaced in turn, as a substring. */
  function Rewrite(design: string, items: Dict): string
    decreases |items|
  {
    if items == [] then design
    else Rewrite(Replace(design, items[0].0, items[0].1), items[1..])
  }

  /**
   * An attribute whose name is part of another's corrupts it: with the
   * attributes `a` and `ab`, the design `ab` becomes `a_0b`, which names
   * neither.
   */
  lemma RewriteCorrupts()
    ensures Rewrite("ab", [("a", "a_0"), ("ab", "ab_1")]) == "a_0b"
  {
    assert Replace("", "a", "a_0") == "";
    assert Replace("b", "a", "a_0") == "b";
    assert Replace("ab", "a", "a_0") == "a_0b";
    var s := "a_0b";
    forall k | 0 <= k <= |s| ensures !StartsWith(s[k..], "ab") {
      if k + 2 <= |s| {
        assert s[k..][..2] != "ab" by {
          if k == 0 {
            assert s[k..][1] == s[1];
          } else {
            assert s[k..][0] == s[k];
          }
        }
      }
    }
    ReplaceAbsent(s, "ab", "ab_1");
  }

  /** A symbol that can be part of an R variable name. */
  predicate IsWordChar(c: char)
  {
    IsAlnum(c) || c == '_' || c == '.'
  }

  /** A non-empty run of word symbols. */
  predicate IsWord(w: string)
  {
    w != [] && forall k :: 0 <= k < |w| ==> IsWordChar(w[k])
  }

  /** The longest prefix of `s` made of word symbols. */
  function WordRun(s: string): (w: string)
    ensures |w| <= |s|
    ensures s != [] && IsWordChar(s[0]) ==> |w| >= 1
  {
    if s != [] && IsWordChar(s[0]) then [s[0]] + WordRun(s[1..]) else []
  }

  /** A word's identifier, or the word itself when it names no attribute. */
  function Renamed(d: Dict, w: string): string
  {
    var v := Get(d, w);
    if v.Some? then v.value else w
  }

  /** The design with each whole variable name that is an attribute renamed. */
  function Rename(design: string, d: Dict): string
    decreases |design|
  {
    if design == [] then []
    else if IsWordChar(design[0]) then
      var w := WordRun(design);
      Renamed(d, w) + Rename(design[|w|..], d)
    else [design[0]] + Rename(design[1..], d)
  }

  /** A word ended by a non-word symbol or the end of the text is one run. */
  lemma {:induction false} WordRunOf(w: string, rest: string)
    requires IsWord(w)
    requires rest == [] || !IsWordChar(rest[0])
    ensures WordRun(w + rest) == w
    decreases |w|
  {
    var s := w + rest;
    assert s[0] == w[0];
    if |w| > 1 {
      WordRunOf(w[1..], rest);
      assert s[1..] == w[1..] + rest;
      assert [w[0]] + w[1..] == w;
    } else {
      assert s[1..] == rest;
      assert rest == [] || !IsWordChar(rest[0]);
      assert WordRun(rest) == [];
    }
  }

  /** Such a word is renamed whole. */
  lemma RenameWord(w: string, rest: string, d: Dict)
    requires IsWord(w)
    requires rest == [] || !IsWordChar(rest[0])
    ensures Rename(w + rest, d) == Renamed(d, w) + Rename(rest, d)
  {
    var s := w + rest;
    assert s[0] == w[0];
    WordRunOf(w, rest);
    assert s[|w|..] == rest;
  }

  /** A symbol that is not part of a name is kept. */
  lemma RenameSymbol(c: char, s: string, d: Dict)
    requires !IsWordChar(c)
    ensures Rename([c] + s, d) == [c] + Rename(s, d)
  {
    assert ([c] + s)[1..] == s;
  }

  /** Symbols that are not part of a name are kept. */
  lemma {:induction false} RenameSymbols(sym: string, s: string, d: Dict)
    requires forall k :: 0 <= k < |sym| ==> !IsWordChar(sym[k])
    ensures Rename(sym + s, d) == sym + Rename(s, d)
    decreases |sym|
  {
    if sym != [] {
      var t := sym[1..] + s;
      assert sym + s == [sym[0]] + t;
      RenameSymbol(sym[0], t, d);
      RenameSymbols(sym[1..], s, d);
      assert [sym[0]] + (sym[1..] + Rename(s, d)) == sym + Rename(s, d);
    } else {
      assert sym + s == s && sym + Rename(s, d) == Rename(s, d);
    }
  }

  /** The design `~ w1 + w2 + ...` R builds from its variables. */
  function Formula(words: seq<string>): string
  {
    "~ " + Terms(words)
  }

  function Terms(words: seq<string>): string
  {
    if words == [] then []
    else if |words| == 1 then words[0]
    else words[0] + (" + " + Terms(words[1..]))
  }

  /** Each word replaced by its identifier, if it has one. */
  function RenamedAll(d: Dict, words: seq<string>): (r: seq<string>)
    ensures |r| == |words|
  {
    if words == [] then [] else [Renamed(d, words[0])] + RenamedAll(d, words[1..])
  }

  /** Every word of an additive design is renamed on its own. */
  lemma {:induction false} RenameTerms(words: seq<string>, d: Dict)
    requires forall i :: 0 <= i < |words| ==> IsWord(words[i])
    ensures Rename(Terms(words), d) == Terms(RenamedAll(d, words))
    decreases |words|
  {
    if |words| == 1 {
      RenameWord(words[0], [], d);
      assert words[0] + [] == words[0];
      assert Renamed(d, words[0]) + [] == Renamed(d, words[0]);
    } else if |words| > 1 {
      var w, tail := words[0], Terms(words[1..]);
      RenameTerms(words[1..], d);
      RenameWord(w, " + " + tail, d);
      RenameSymbols(" + ", tail, d);
    }
  }

  /** Renaming `~ w1 + w2 + ...` renames each attribute and nothing else. */
  lemma RenameFormula(words: seq<string>, d: Dict)
    requires forall i :: 0 <= i < |words| ==> IsWord(words[i])
    ensures Rename(Formula(words), d) == Formula(RenamedAll(d, words))
  {
    RenameSymbols("~ ", Terms(words), d);
    RenameTerms(words, d);
  }

  /**
   * Lines 40-50: the comparison in plain identifiers; a sample, attribute or
   * level missing from its map is a `KeyError`. The design is renamed word by
   * word (see `Rewrite` for the substring replacement as written).
   */
  function Normalize(c: Comparison, smplmap: Dict, attrmap: Dict, lvlmap: Dict): (r: Result<Comparison>)
    ensures r.Ok? <==> ((forall s :: s in c.samples ==> Get(smplmap, s).Some?)
      && Get(attrmap, c.attribute).Some? && Get(lvlmap, c.target).Some? && Get(lvlmap, c.reference).Some?)
    ensures r.Err? ==> r.error == KeyError
    ensures r.Ok? ==> (|r.value.samples| == |c.samples|
      && (forall i :: 0 <= i < |c.samples| ==> Get(smplmap, c.samples[i]) == Some(r.value.samples[i]))
      && Get(attrmap, c.attribute) == Some(r.value.attribute)
      && Get(lvlmap, c.target) == Some(r.value.target) && Get(lvlmap, c.reference) == Some(r.value.reference)
      && r.value.design == Rename(c.design, attrmap) && r.value.ind == c.ind)
  {
    var samples := Lookup(smplmap, c.samples);
    var attribute := Get(attrmap, c.attribute);
    var target := Get(lvlmap, c.target);
    var reference := Get(lvlmap, c.reference);
    if samples.None? || attribute.None? || target.None? || reference.None? then Err(KeyError)
    else Ok(Comparison(c.ind, samples.value, Rename(c.design, attrmap), c.alternative,
                       attribute.value, target.value, reference.value,
                       c.log2fcThr, c.padjThr, c.minCounts, c.minReplicates))
  }

  /** `tuple(d[k] for k in keys)`, or nothing when a key is missing. */
  function Lookup(d: Dict, keys: seq<string>): (r: Option<seq<string>>)
    ensures r.Some? <==> forall k :: k in keys ==> Get(d, k).Some?
    ensures r.Some? ==> |r.value| == |keys| && forall i :: 0 <= i < |keys| ==> Get(d, keys[i]) == Some(r.value[i])
  {
    if keys == [] then Some([])
    else
      var head := Get(d, keys[0]);
      var rest := Lookup(d, keys[1..]);
      assert forall k :: k in keys <==> k == keys[0] || k in keys[1..] by {
        assert keys == [keys[0]] + keys[1..];
      }
      if head.None? || rest.None? then None
      else Some([head.value] + rest.value)
  }

  // ---------------------------------------------------------------------
  // Validation

  /** The samples table: row index, attribute columns and level cells. */
  datatype Sheet = Sheet(index: seq<string>, columns: seq<string>, cells: seq<seq<string>>)

  /** `set(samples[attr].unique())`. */
  function Levels(sh: Sheet, attr: string): set<string>
  {
    set i, j | 0 <= i < |sh.cells| && 0 <= j < |sh.columns| && j < |sh.cells[i]| && sh.columns[j] == attr :: sh.cells[i][j]
  }

  /** The identifiers of some comparisons. */
  function Inds(cmps: seq<Comparison>): set<string>
  {
    set c | c in cmps :: c.ind
  }

  /** Lines 68-79: the assertions on one comparison, given the identifiers seen before it. */
  predicate Accepted(c: Comparison, sh: Sheet, seen: set<string>)
  {
    c.ind !in seen
    && (forall s :: s in c.samples ==> s in sh.index)
    && c.attribute in sh.columns
    && c.target in Levels(sh, c.attribute) && c.reference in Levels(sh, c.attribute)
    && 0.0 <= c.log2fcThr && 0.0 <= c.padjThr <= 1.0
  }

  /** Lines 61-79: the error building the analysis raises, if any. */
  function Checked(columns: seq<string>, sh: Sheet, cmps: seq<Comparison>): Option<Error>
  {
    if (set x | x in sh.index) != (set x | x in columns) then Some(ValueError)
    else if exists k :: 0 <= k < |cmps| && !Accepted(cmps[k], sh, Inds(cmps[..k])) then Some(AssertionError)
    else None
  }

  /** The analysis: counts (features by samples), samples table, comparisons. */
  datatype Analysis = Analysis(features: seq<string>, columns: seq<string>, counts: seq<seq<int>>, sheet: Sheet, comparisons: seq<Comparison>)

  /** Lines 61-79: building an analysis checks it and raises the first error. */
  method NewAnalysis(features: seq<string>, columns: seq<string>, counts: seq<seq<int>>, sh: Sheet, cmps: seq<Comparison>)
    returns (r: Result<Analysis>)
    ensures r.Err? <==> Checked(columns, sh, cmps).Some?
    ensures r.Err? ==> r.error == Checked(columns, sh, cmps).value
    ensures r.Ok? ==> r.value == Analysis(features, columns, counts, sh, cmps)
  {
    var samples := set x | x in sh.index;
    if samples != set x | x in columns {
      return Err(ValueError);
    }
    var inds: set<string> := {};
    for k := 0 to |cmps|
      invariant inds == Inds(cmps[..k])
      invariant forall m :: 0 <= m < k ==> Accepted(cmps[m], sh, Inds(cmps[..m]))
    {
      var c := cmps[k];
      if !Accepted(c, sh, inds) {
        return Err(AssertionError);
      }
      assert cmps[..k + 1] == cmps[..k] + [c];
      inds := inds + {c.ind};
    }
    assert cmps[..|cmps|] == cmps;
    return Ok(Analysis(features, columns, counts, sh, cmps));
  }

  /** An accepted analysis has pairwise distinct comparison identifiers. */
  lemma CheckedDistinct(columns: seq<string>, sh: Sheet, cmps: seq<Comparison>, i: int, j: int)
    requires Checked(columns, sh, cmps) == None
    requires 0 <= i < j < |cmps|
    ensures cmps[i].ind != cmps[j].ind
  {
    assert Accepted(cmps[j], sh, Inds(cmps[..j]));
    assert cmps[..j][i] == cmps[i];
  }

  /**
   * Lines 94-115: in an accepted analysis of well-formed comparisons, the maps
   * `run` builds let every comparison normalise, and the normalised target and
   * reference still differ. `levels` lists the distinct cells in the order the
   * set of levels yields them.
   */
  lemma NormalizeAccepted(columns: seq<string>, sh: Sheet, cmps: seq<Comparison>, levels: seq<string>, k: int)
    requires Checked(columns, sh, cmps) == None
    requires 0 <= k < |cmps| && WellFormed(cmps[k])
    requires forall i, j :: 0 <= i < |sh.cells| && 0 <= j < |sh.cells[i]| ==> sh.cells[i][j] in levels
    ensures var r := Normalize(cmps[k], IdMap(sh.index), IdMap(sh.columns), IdMap(levels));
      r.Ok? && WellFormed(r.value)
  {
    var c := cmps[k];
    assert Accepted(c, sh, Inds(cmps[..k]));
    forall s | s in c.samples ensures Get(IdMap(sh.index), s).Some? {
      IdMapKeys(sh.index, s);
    }
    IdMapKeys(sh.columns, c.attribute);
    IdMapKeys(levels, c.target);
    IdMapKeys(levels, c.reference);
    if Get(IdMap(levels), c.target) == Get(IdMap(levels), c.reference) {
      IdMapInjective(levels, c.target, c.reference);
    }
  }

  // ---------------------------------------------------------------------
  // Count filter

  /** How many of a row's counts reach `minCounts`. */
  function Replicates(row: seq<int>, minCounts: int): nat
  {
    if row == [] then 0
    else Replicates(row[..|row| - 1], minCounts) + (if row[|row| - 1] >= minCounts then 1 else 0)
  }

  /** The samples of a row whose count reaches `minCounts`. */
  function Reaching(row: seq<int>, minCounts: int): set<nat>
  {
    set j | 0 <= j < |row| && row[j] >= minCounts
  }

  /** `(counts >= min_counts).sum(axis=1)` counts exactly the samples reaching the minimum. */
  lemma {:induction false} ReplicatesCount(row: seq<int>, minCounts: int)
    ensures Replicates(row, minCounts) == |Reaching(row, minCounts)|
    decreases |row|
  {
    if row != [] {
      var n := |row| - 1;
      ReplicatesCount(row[..n], minCounts);
      var before := Reaching(row[..n], minCounts);
      assert forall j :: j in before <==> j in Reaching(row, minCounts) && j < n;
      if row[n] >= minCounts {
        assert Reaching(row, minCounts) == before + {n};
      } else {
        assert Reaching(row, minCounts) == before;
      }
    }
  }

  /** At most every sample reaches the minimum. */
  lemma {:induction false} ReplicatesBound(row: seq<int>, minCounts: int)
    ensures Replicates(row, minCounts) <= |row|
    decreases |row|
  {
    if row != [] {
      ReplicatesBound(row[..|row| - 1], minCounts);
    }
  }

  /** A stricter minimum count never lets more samples through. */
  lemma {:induction false} ReplicatesMonotone(row: seq<int>, low: int, high: int)
    requires low <= high
    ensures Replicates(row, high) <= Replicates(row, low)
    decreases |row|
  {
    if row != [] {
      ReplicatesMonotone(row[..|row| - 1], low, high);
    }
  }

  /** Line 134: a row is kept when enough samples reach the minimum count. */
  predicate Enough(row: seq<int>, c: Comparison)
  {
    Replicates(row, c.minCounts) >= c.minReplicates
  }

  /** Line 134: the kept rows of the table, in order. */
  function FilterRows(rows: seq<(string, seq<int>)>, c: Comparison): seq<(string, seq<int>)>
  {
    if rows == [] then []
    else
      var n := |rows| - 1;
      FilterRows(rows[..n], c) + (if Enough(rows[n].1, c) then [rows[n]] else [])
  }

  /** A row survives the filter exactly when it is in the table with enough replicates. */
  lemma {:induction false} FilterRowsMembers(rows: seq<(string, seq<int>)>, c: Comparison, x: (string, seq<int>))
    ensures x in FilterRows(rows, c) <==> x in rows && Enough(x.1, c)
    decreases |rows|
  {
    if rows != [] {
      var n := |rows| - 1;
      FilterRowsMembers(rows[..n], c, x);
      assert rows == rows[..n] + [rows[n]];
    }
  }

  /** Requiring more replicates than there are samples keeps nothing. */
  lemma {:induction false} FilterRowsTooMany(rows: seq<(string, seq<int>)>, c: Comparison)
    requires forall i :: 0 <= i < |rows| ==> |rows[i].1| < c.minReplicates
    ensures FilterRows(rows, c) == []
    decreases |rows|
  {
    if rows != [] {
      var n := |rows| - 1;
      FilterRowsTooMany(rows[..n], c);
      ReplicatesBound(rows[n].1, c.minCounts);
    }
  }
}
