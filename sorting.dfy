// Sorting as used by the analysis code (`sorted`, `list.sort`): an insertion sort
// over a total preorder, proved to return an ordered permutation.
module Sorting {

  ghost predicate TotalPreorder<T(!new)>(le: (T, T) -> bool)
  {
    (forall a, b :: le(a, b) || le(b, a)) &&
    (forall a, b, c :: le(a, b) && le(b, c) ==> le(a, c))
  }

  predicate SortedBy<T>(s: seq<T>, le: (T, T) -> bool)
  {
    forall i, j :: 0 <= i < j < |s| ==> le(s[i], s[j])
  }

  function Insert<T(!new)>(s: seq<T>, x: T, le: (T, T) -> bool): (r: seq<T>)
    requires TotalPreorder(le) && SortedBy(s, le)
    ensures |r| == |s| + 1
    ensures multiset(r) == multiset(s) + multiset{x}
    ensures r[0] == x || (|s| > 0 && r[0] == s[0])
    ensures SortedBy(r, le)
  {
    if s == [] then [x]
    else if le(s[0], x) then
      var t := Insert(s[1..], x, le);
      assert s == [s[0]] + s[1..];
      ConsSorted(s[0], t, le);
      [s[0]] + t
    else
      ConsSorted(x, s, le);
      [x] + s
  }

  /** An element no greater than the head of a sorted list may go in front of it. */
  lemma ConsSorted<T(!new)>(h: T, t: seq<T>, le: (T, T) -> bool)
    requires TotalPreorder(le) && SortedBy(t, le) && (t == [] || le(h, t[0]))
    ensures SortedBy([h] + t, le)
  {
    forall j | 0 <= j < |t| ensures le(h, t[j]) {
      if j > 0 {
        assert le(t[0], t[j]);
      }
    }
  }

  /** `sorted(s, key=...)`: an ordered permutation of `s`. */
  function SortBy<T(!new)>(s: seq<T>, le: (T, T) -> bool): (r: seq<T>)
    requires TotalPreorder(le)
    ensures |r| == |s|
    ensures multiset(r) == multiset(s)
    ensures SortedBy(r, le)
  {
    if s == [] then []
    else
      assert s == s[..|s| - 1] + [s[|s| - 1]];
      Insert(SortBy(s[..|s| - 1], le), s[|s| - 1], le)
  }

  /** Sorting neither adds nor drops a value. */
  lemma SortByMembers<T(!new)>(s: seq<T>, le: (T, T) -> bool)
    requires TotalPreorder(le)
    ensures forall y :: y in SortBy(s, le) <==> y in s
  {
    var r := SortBy(s, le);
    forall y ensures y in r <==> y in s {
      assert y in r <==> y in multiset(r);
    }
  }

  /** Ordering of integer keys, ascending. */
  function ByKey<T>(key: T -> int): (T, T) -> bool
  {
    (a: T, b: T) => key(a) <= key(b)
  }

  lemma ByKeyPreorder<T(!new)>(key: T -> int)
    ensures TotalPreorder(ByKey(key))
  {
  }

  /** In a list sorted by an integer key, keys ascend. */
  lemma SortedByKey<T>(s: seq<T>, key: T -> int, i: int, j: int)
    requires SortedBy(s, ByKey(key)) && 0 <= i <= j < |s|
    ensures key(s[i]) <= key(s[j])
  {
    if i < j {
      assert ByKey(key)(s[i], s[j]);
    }
  }

  /** Ordering of real keys, ascending. */
  function ByRealKey<T>(key: T -> real): (T, T) -> bool
  {
    (a: T, b: T) => key(a) <= key(b)
  }

  lemma ByRealKeyPreorder<T(!new)>(key: T -> real)
    ensures TotalPreorder(ByRealKey(key))
  {
  }

  /** Ordering of real keys, descending (`sort(reverse=True)`). */
  function ByRealKeyDesc<T>(key: T -> real): (T, T) -> bool
  {
    (a: T, b: T) => key(a) >= key(b)
  }

  lemma ByRealKeyDescPreorder<T(!new)>(key: T -> real)
    ensures TotalPreorder(ByRealKeyDesc(key))
  {
  }

  /** Python's ordering of strings: lexicographic by code point. */
  predicate StrLe(a: string, b: string)
  {
    a == [] || (b != [] && (a[0] < b[0] || (a[0] == b[0] && StrLe(a[1..], b[1..]))))
  }

  lemma {:induction false} StrLeTotal(a: string, b: string)
    ensures StrLe(a, b) || StrLe(b, a)
    decreases |a|
  {
    if a != [] && b != [] && a[0] == b[0] {
      StrLeTotal(a[1..], b[1..]);
    }
  }

  lemma {:induction false} StrLeTransitive(a: string, b: string, c: string)
    requires StrLe(a, b) && StrLe(b, c)
    ensures StrLe(a, c)
    decreases |a|
  {
    if a != [] && b != [] && c != [] && a[0] == b[0] && b[0] == c[0] {
      StrLeTransitive(a[1..], b[1..], c[1..]);
    }
  }

  lemma {:induction false} StrLeAntisymmetric(a: string, b: string)
    requires StrLe(a, b) && StrLe(b, a)
    ensures a == b
    decreases |a|
  {
    if a != [] {
      StrLeAntisymmetric(a[1..], b[1..]);
      assert a == [a[0]] + a[1..] && b == [b[0]] + b[1..];
    }
  }

  lemma StrLePreorder()
    ensures TotalPreorder(StrLe)
  {
    forall a: string, b: string ensures StrLe(a, b) || StrLe(b, a) {
      StrLeTotal(a, b);
    }
    forall a: string, b: string, c: string | StrLe(a, b) && StrLe(b, c) ensures StrLe(a, c) {
      StrLeTransitive(a, b, c);
    }
  }

  /** Python's ordering of string pairs: by the first, then by the second. */
  predicate StrPairLe(a: (string, string), b: (string, string))
  {
    StrLe(a.0, b.0) && (a.0 == b.0 ==> StrLe(a.1, b.1))
  }

  lemma StrPairLePreorder()
    ensures TotalPreorder(StrPairLe)
  {
    forall a: (string, string), b: (string, string) ensures StrPairLe(a, b) || StrPairLe(b, a) {
      StrLeTotal(a.0, b.0);
      StrLeTotal(a.1, b.1);
      if StrLe(a.0, b.0) && StrLe(b.0, a.0) {
        StrLeAntisymmetric(a.0, b.0);
      }
    }
    forall a: (string, string), b: (string, string), c: (string, string) | StrPairLe(a, b) && StrPairLe(b, c)
      ensures StrPairLe(a, c)
    {
      StrLeTransitive(a.0, b.0, c.0);
      if a.0 == c.0 {
        StrLeAntisymmetric(a.0, b.0);
        StrLeTransitive(a.1, b.1, c.1);
      }
    }
  }

  /** Inserting a value no smaller than every element appends it. */
  lemma {:induction false} InsertLast<T(!new)>(s: seq<T>, x: T, le: (T, T) -> bool)
    requires TotalPreorder(le) && SortedBy(s, le)
    requires forall i :: 0 <= i < |s| ==> le(s[i], x)
    ensures Insert(s, x, le) == s + [x]
    decreases |s|
  {
    if s != [] {
      var t := s[1..];
      assert SortedBy(t, le) by {
        forall i, j | 0 <= i < j < |t| ensures le(t[i], t[j]) {
          assert t[i] == s[i + 1] && t[j] == s[j + 1];
        }
      }
      InsertLast(t, x, le);
      assert le(s[0], x) && s == [s[0]] + t;
      assert Insert(s, x, le) == [s[0]] + Insert(t, x, le);
    }
  }

  /** Sorting a list that is already in order leaves it as it is. */
  lemma {:induction false} SortBySorted<T(!new)>(s: seq<T>, le: (T, T) -> bool)
    requires TotalPreorder(le) && SortedBy(s, le)
    ensures SortBy(s, le) == s
    decreases |s|
  {
    if s != [] {
      var n := |s| - 1;
      SortBySorted(s[..n], le);
      InsertLast(s[..n], s[n], le);
      assert s[..n] + [s[n]] == s;
    }
  }

  predicate IntLe(a: int, b: int) { a <= b }

  lemma IntLePreorder()
    ensures TotalPreorder(IntLe)
  {
  }

  /** `sorted` on a list of integers: the ascending permutation. */
  function SortInts(s: seq<int>): (r: seq<int>)
    ensures |r| == |s| && multiset(r) == multiset(s)
    ensures forall i, j :: 0 <= i < j < |r| ==> r[i] <= r[j]
  {
    IntLePreorder();
    var r := SortBy(s, IntLe);
    assert forall i, j :: 0 <= i < j < |r| ==> IntLe(r[i], r[j]);
    r
  }
}
