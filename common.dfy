// Shared value types: optional values, results carrying the Python
// exception class that the original code would raise, and strands.
module Common {

  datatype Option<T> = None | Some(value: T)

  /** The exception classes the original code raises on its error paths. */
  datatype Error =
    | IndexError
    | ValueError
    | KeyError
    | AssertionError
    | InvalidInterval
    | ZeroDivisionError

  datatype Result<T> = Ok(value: T) | Err(error: Error) {
    predicate IsOk() { Ok? }
  }

  /** A genomic strand. `Other` stands for any value that is neither "+" nor "-". */
  datatype Strand = Forward | Reverse | Other

  function Symbol(s: Strand): (c: char)
    ensures s == Forward <==> c == '+'
    ensures s == Reverse <==> c == '-'
  {
    match s
    case Forward => '+'
    case Reverse => '-'
    case Other => '.'
  }

  function Max(a: int, b: int): int { if a < b then b else a }
  function Min(a: int, b: int): int { if a < b then a else b }
  function RMax(a: real, b: real): real { if a < b then b else a }
  function RMin(a: real, b: real): real { if a < b then a else b }

  /** `min(v)`: the smallest entry. */
  function MinOf(v: seq<real>): (m: real)
    requires |v| > 0
    ensures forall i :: 0 <= i < |v| ==> m <= v[i]
    ensures exists i :: 0 <= i < |v| && v[i] == m
  {
    if |v| == 1 then v[0] else RMin(MinOf(v[..|v| - 1]), v[|v| - 1])
  }

  /** `max(v)`: the largest entry. */
  function MaxOf(v: seq<real>): (m: real)
    requires |v| > 0
    ensures forall i :: 0 <= i < |v| ==> v[i] <= m
    ensures exists i :: 0 <= i < |v| && v[i] == m
  {
    if |v| == 1 then v[0] else RMax(MaxOf(v[..|v| - 1]), v[|v| - 1])
  }

  function SumInts(s: seq<int>): int
  {
    if s == [] then 0 else SumInts(s[..|s| - 1]) + s[|s| - 1]
  }

  function SumReals(s: seq<real>): real
  {
    if s == [] then 0.0 else SumReals(s[..|s| - 1]) + s[|s| - 1]
  }

  lemma {:induction false} SumRealsAppend(s: seq<real>, t: seq<real>)
    ensures SumReals(s + t) == SumReals(s) + SumReals(t)
    decreases |t|
  {
    if t == [] {
      assert s + t == s;
    } else {
      assert (s + t)[..|s + t| - 1] == s + t[..|t| - 1];
      SumRealsAppend(s, t[..|t| - 1]);
    }
  }

  lemma {:induction false} SumRealsNonNegative(s: seq<real>)
    requires forall i :: 0 <= i < |s| ==> s[i] >= 0.0
    ensures SumReals(s) >= 0.0
    decreases |s|
  {
    if s != [] {
      SumRealsNonNegative(s[..|s| - 1]);
    }
  }

  lemma {:induction false} SumRealsMonotone(s: seq<real>, t: seq<real>)
    requires |s| == |t|
    requires forall i :: 0 <= i < |s| ==> s[i] <= t[i]
    ensures SumReals(s) <= SumReals(t)
    decreases |s|
  {
    if s != [] {
      SumRealsMonotone(s[..|s| - 1], t[..|t| - 1]);
    }
  }

  lemma {:induction false} SumRealsZero(s: seq<real>)
    requires forall i :: 0 <= i < |s| ==> s[i] == 0.0
    ensures SumReals(s) == 0.0
    decreases |s|
  {
    if s != [] {
      SumRealsZero(s[..|s| - 1]);
    }
  }

  /** The sequence read back to front (numpy's `[::-1]`). */
  function Reversed<T>(s: seq<T>): (r: seq<T>)
    ensures |r| == |s|
    ensures forall i :: 0 <= i < |s| ==> r[i] == s[|s| - 1 - i]
  {
    seq(|s|, i requires 0 <= i < |s| => s[|s| - 1 - i])
  }

  lemma ReversedInvolution<T>(s: seq<T>)
    ensures Reversed(Reversed(s)) == s
  {
  }

  lemma {:induction false} ReversedMultiset<T>(s: seq<T>)
    ensures multiset(Reversed(s)) == multiset(s)
    decreases |s|
  {
    if s != [] {
      var t := s[1..];
      assert s == [s[0]] + t;
      assert Reversed(s) == Reversed(t) + [s[0]];
      ReversedMultiset(t);
    }
  }

  /** The second components of a sequence of pairs, in order. */
  function Seconds<A, B>(s: seq<(A, B)>): (r: seq<B>)
    ensures |r| == |s| && forall i :: 0 <= i < |s| ==> r[i] == s[i].1
  {
    seq(|s|, i requires 0 <= i < |s| => s[i].1)
  }

  /** A prefix one longer is the prefix and the next element. */
  lemma ConcatAssoc<T>(a: seq<T>, b: seq<T>, c: seq<T>)
    ensures a + b + c == a + (b + c)
  {
  }

  lemma PrefixSnoc<T>(s: seq<T>, c: int)
    requires 0 <= c < |s|
    ensures s[..c + 1] == s[..c] + [s[c]]
  {
  }

  lemma {:induction false} SecondsConcat<A, B>(a: seq<(A, B)>, b: seq<(A, B)>)
    ensures Seconds(a + b) == Seconds(a) + Seconds(b)
  {
  }

  /** Taking entry `j` out of a sequence of pairs takes its second component out of the seconds. */
  lemma {:induction false} SecondsRemove<A, B>(b: seq<(A, B)>, j: int)
    requires 0 <= j < |b|
    ensures multiset(b) == multiset(b[..j] + b[j + 1..]) + multiset{b[j]}
    ensures multiset(Seconds(b)) == multiset(Seconds(b[..j] + b[j + 1..])) + multiset{b[j].1}
  {
    assert b == b[..j] + [b[j]] + b[j + 1..];
    SecondsConcat(b[..j] + [b[j]], b[j + 1..]);
    SecondsConcat(b[..j], [b[j]]);
    SecondsConcat(b[..j], b[j + 1..]);
  }

  /** Permuting a sequence of pairs permutes its seconds. */
  lemma {:induction false} SecondsMultiset<A, B>(a: seq<(A, B)>, b: seq<(A, B)>)
    requires multiset(a) == multiset(b)
    ensures multiset(Seconds(a)) == multiset(Seconds(b))
    decreases |a|
  {
    if a != [] {
      var n := |a| - 1;
      var x := a[n];
      assert x in multiset(b);
      var j :| 0 <= j < |b| && b[j] == x;
      SecondsRemove(a, n);
      SecondsRemove(b, j);
      assert a[..n] + a[n + 1..] == a[..n];
      assert multiset(a[..n]) == multiset(a) - multiset{x};
      assert multiset(b[..j] + b[j + 1..]) == multiset(b) - multiset{x};
      SecondsMultiset(a[..n], b[..j] + b[j + 1..]);
    }
  }

  /** A sub-multiset of a sequence's is no longer than the sequence. */
  lemma {:induction false} SubMultisetLength<T>(a: seq<T>, b: seq<T>)
    requires multiset(a) <= multiset(b)
    ensures |a| <= |b|
  {
    var d := multiset(b) - multiset(a);
    assert multiset(b) == multiset(a) + d;
    assert |multiset(b)| == |multiset(a)| + |d|;
    assert |multiset(a)| == |a| && |multiset(b)| == |b|;
  }

  /** A sub-multiset of pairs has a sub-multiset of seconds. */
  lemma {:induction false} SecondsSubMultiset<A, B>(a: seq<(A, B)>, b: seq<(A, B)>)
    requires multiset(a) <= multiset(b)
    ensures multiset(Seconds(a)) <= multiset(Seconds(b))
    decreases |a|
  {
    if a != [] {
      var n := |a| - 1;
      var x := a[n];
      assert x in multiset(b);
      var j :| 0 <= j < |b| && b[j] == x;
      SecondsRemove(a, n);
      SecondsRemove(b, j);
      assert a[..n] + a[n + 1..] == a[..n];
      assert multiset(a[..n]) == multiset(a) - multiset{x};
      assert multiset(b[..j] + b[j + 1..]) == multiset(b) - multiset{x};
      SecondsSubMultiset(a[..n], b[..j] + b[j + 1..]);
    }
  }

  /** No two positions hold the same element. */
  predicate Distinct<T(==)>(s: seq<T>)
  {
    forall i, j :: 0 <= i < j < |s| ==> s[i] != s[j]
  }

  /** Distinct elements are exactly those counted at most once. */
  lemma {:induction false} DistinctCounts<T>(s: seq<T>)
    ensures Distinct(s) <==> forall x :: multiset(s)[x] <= 1
    decreases |s|
  {
    if s != [] {
      var n := |s| - 1;
      var init, last := s[..n], s[n];
      assert s == init + [last];
      DistinctCounts(init);
      if Distinct(s) {
        assert Distinct(init);
        forall i | 0 <= i < n ensures init[i] != last {
          assert s[i] != s[n];
        }
        assert last !in init;
      }
      if forall x :: multiset(s)[x] <= 1 {
        assert forall x :: multiset(init)[x] <= multiset(s)[x];
        assert multiset(s)[last] == multiset(init)[last] + 1;
        assert last !in init;
        forall i | 0 <= i < n ensures s[i] != last {
          assert init[i] in init;
        }
      }
    }
  }

  /** Every natural number is twice some `k`, or twice it plus one. */
  lemma {:induction false} Halve(j: nat) returns (k: nat)
    ensures j == 2 * k || j == 2 * k + 1
    decreases j
  {
    if j < 2 {
      k := 0;
    } else {
      var h := Halve(j - 2);
      k := h + 1;
    }
  }

  /** How many of the first `n` flags are set. */
  function CountTrue(v: seq<bool>, n: nat): nat
    requires n <= |v|
  {
    if n == 0 then 0 else CountTrue(v, n - 1) + (if v[n - 1] then 1 else 0)
  }

  /** How many of the first `n` flags are set on a position labelled `c`. */
  function CountOn<K(==)>(labels: seq<K>, v: seq<bool>, n: nat, c: K): nat
    requires n <= |v| && n <= |labels|
  {
    if n == 0 then 0 else CountOn(labels, v, n - 1, c) + (if labels[n - 1] == c && v[n - 1] then 1 else 0)
  }

  lemma {:induction false} CountTrueBound(v: seq<bool>, n: nat)
    requires n <= |v|
    ensures CountTrue(v, n) <= n
  {
    if n > 0 {
      CountTrueBound(v, n - 1);
    }
  }

  /** Splitting the set flags by label: the per-label counts add up to the total. */
  lemma {:induction false} CountOnSplit<K>(labels: seq<K>, v: seq<bool>, n: nat, c: K)
    requires n <= |v| && n <= |labels|
    ensures CountOn(labels, v, n, c) <= CountTrue(v, n)
  {
    if n > 0 {
      CountOnSplit(labels, v, n - 1, c);
    }
  }

  /** The counts look at the first `n` flags only. */
  lemma {:induction false} CountPrefix<K>(labels: seq<K>, v: seq<bool>, w: seq<bool>, n: nat, c: K)
    requires n <= |v| && n <= |w| && n <= |labels| && v[..n] == w[..n]
    ensures CountTrue(v, n) == CountTrue(w, n)
    ensures CountOn(labels, v, n, c) == CountOn(labels, w, n, c)
  {
    if n > 0 {
      assert v[..n - 1] == v[..n][..n - 1] && w[..n - 1] == w[..n][..n - 1];
      assert v[n - 1] == v[..n][n - 1] && w[n - 1] == w[..n][n - 1];
      CountPrefix(labels, v, w, n - 1, c);
    }
  }

  /** Appending a flag adds it to the counts. */
  lemma CountSnoc<K>(labels: seq<K>, v: seq<bool>, b: bool)
    requires |v| < |labels|
    ensures CountTrue(v + [b], |v| + 1) == CountTrue(v, |v|) + (if b then 1 else 0)
    ensures forall c :: CountOn(labels, v + [b], |v| + 1, c) == CountOn(labels, v, |v|, c) + (if labels[|v|] == c && b then 1 else 0)
  {
    assert (v + [b])[..|v|] == v[..|v|];
    forall c ensures CountOn(labels, v + [b], |v|, c) == CountOn(labels, v, |v|, c) {
      CountPrefix(labels, v + [b], v, |v|, c);
    }
    CountPrefix(labels, v + [b], v, |v|, labels[0]);
  }

  /** The values of `rs` in order, or the first failure among them. */
  function FirstErr<T>(rs: seq<Result<T>>): Result<seq<T>>
  {
    if rs == [] then Ok([])
    else
      var n := |rs| - 1;
      var front := FirstErr(rs[..n]);
      if front.Err? then front
      else if rs[n].Err? then Err(rs[n].error) else Ok(front.value + [rs[n].value])
  }

  lemma {:induction false} FirstErrPrefix<T>(rs: seq<Result<T>>, i: nat)
    requires i <= |rs| && FirstErr(rs[..i]).Err?
    ensures FirstErr(rs) == FirstErr(rs[..i])
    decreases |rs| - i
  {
    if i < |rs| {
      assert rs[..i + 1][..i] == rs[..i];
      FirstErrPrefix(rs, i + 1);
    } else {
      assert rs[..i] == rs;
    }
  }

  /** One more success extends the collected values. */
  lemma FirstErrSnoc<T>(rs: seq<Result<T>>, i: nat, vs: seq<T>, v: T)
    requires i < |rs| && FirstErr(rs[..i]) == Ok(vs) && rs[i] == Ok(v)
    ensures FirstErr(rs[..i + 1]) == Ok(vs + [v])
  {
    assert rs[..i + 1][..i] == rs[..i];
  }

  /** All values when every result is one, each in its place. */
  lemma {:induction false} FirstErrSpec<T>(rs: seq<Result<T>>)
    ensures FirstErr(rs).Ok? <==> forall i :: 0 <= i < |rs| ==> rs[i].Ok?
    ensures FirstErr(rs).Ok? ==> |FirstErr(rs).value| == |rs| && forall i :: 0 <= i < |rs| ==> rs[i] == Ok(FirstErr(rs).value[i])
  {
    if rs != [] {
      var n := |rs| - 1;
      FirstErrSpec(rs[..n]);
      assert forall i :: 0 <= i < n ==> rs[..n][i] == rs[i];
    }
  }

  /** A set that is not empty has a member to pick. */
  lemma NonEmptySetHasElement(s: set<int>)
    requires s != {}
    ensures exists x :: x in s
  {
    if forall x :: x !in s {
      assert false;
    }
  }

  /** The same for sets of any type. */
  lemma NonEmptyHasMember<T>(s: set<T>)
    requires s != {}
    ensures exists x :: x in s
  {
    if forall x :: x !in s {
      assert false;
    }
  }

  /** A failure of the collection is the failure of one of its results. */
  lemma {:induction false} FirstErrFrom<T>(rs: seq<Result<T>>)
    requires FirstErr(rs).Err?
    ensures exists i :: 0 <= i < |rs| && rs[i] == Err(FirstErr(rs).error)
  {
    var n := |rs| - 1;
    if FirstErr(rs[..n]).Err? {
      FirstErrFrom(rs[..n]);
      var i :| 0 <= i < n && rs[..n][i] == Err(FirstErr(rs[..n]).error);
      assert rs[i] == rs[..n][i];
    }
  }
}
