// Sequence classes of dsRNA arms for the RIP plots: the weighted repeat
// annotations of a dsRNA are resolved into one (class, family) pair,
// preferring inverted repeats of nearly the same weight; and the
// per-experiment induction and enrichment flags.
module RipResolve {
  import opened Common
  import opened Sorting
  import opened Strs

  datatype Annotation = Annotation(name: string, strand: string)

  /** A single-arm annotation, or the annotations of the left and right arms. */
  datatype AnnotationKey = Single(a: Annotation) | Pair(left: Annotation, right: Annotation)

  /** What `RepmaskerClassification.classify` gives for a repeat name: its family and its class. */
  type Classifier = string -> (string, string)

  const RepeatFree := "Repeat-free"
  const Inv := "Inv. "

  predicate IsInverted(k: (string, string))
  {
    StartsWith(k.0, "Inv.") && StartsWith(k.1, "Inv.")
  }

  /**
   * The (class, family) of one key. Both arms repeat-free is an inverted
   * non-repetitive sequence, one of them repeat-free is complex; otherwise
   * equal classes give "Inv. <class>" on opposite strands and the class on
   * the same strand, different classes give "Complex", and the family
   * (falling back to the class when empty) follows the same rule. The
   * source asserts that equal families come with equal classes.
   */
  function ResolveKey(classify: Classifier, k: AnnotationKey): (r: Result<(string, string)>)
    ensures r.Err? ==> r.error == AssertionError
  {
    match k
    case Single(_) => Ok(("Unresolved", "Unresolved"))
    case Pair(left, right) =>
      if left.name == RepeatFree && right.name == RepeatFree then Ok(("Inv. non-repetitive", "Inv. non-repetitive"))
      else if left.name == RepeatFree || right.name == RepeatFree then Ok(("Complex", "Complex"))
      else
        var (lfam0, lcls) := classify(left.name);
        var (rfam0, rcls) := classify(right.name);
        var lfam := if lfam0 != "" then lfam0 else lcls;
        var rfam := if rfam0 != "" then rfam0 else rcls;
        var inverted := left.strand != right.strand;
        var cls := if lcls == rcls && inverted then Inv + lcls else if lcls == rcls then lcls else "Complex";
        if lfam == rfam && inverted then
          if cls != Inv + lcls then Err(AssertionError) else Ok((cls, Inv + lfam))
        else if lfam == rfam then
          if cls != lcls then Err(AssertionError) else Ok((cls, lfam))
        else Ok((cls, "Complex"))
  }

  /** Two repeat arms of one class on opposite strands resolve to an inverted class. */
  lemma InvertedPair(classify: Classifier, left: Annotation, right: Annotation)
    requires left.name != RepeatFree && right.name != RepeatFree && left.strand != right.strand
    requires classify(left.name).1 == classify(right.name).1
    ensures ResolveKey(classify, Pair(left, right)).Ok?
    ensures IsInverted(ResolveKey(classify, Pair(left, right)).value) <==>
      classify(left.name).0 == classify(right.name).0 ||
      (classify(left.name).0 == "" && classify(right.name).0 == "") ||
      (classify(left.name).0 == "" && classify(right.name).0 == classify(left.name).1) ||
      (classify(right.name).0 == "" && classify(left.name).0 == classify(left.name).1)
  {
    var cls := classify(left.name).1;
    assert StartsWith(Inv + cls, "Inv.") by {
      assert (Inv + cls)[..4] == "Inv.";
    }
    assert !StartsWith("Complex", "Inv.") by {
      assert "Complex"[0] != "Inv."[0];
    }
  }

  /** Equal families with different classes trip the source's assertion. */
  lemma FamilyWithoutClass(classify: Classifier, left: Annotation, right: Annotation)
    requires left.name != RepeatFree && right.name != RepeatFree
    requires classify(left.name).0 == classify(right.name).0 != ""
    requires classify(left.name).1 != classify(right.name).1 && classify(left.name).1 != "Complex"
    ensures ResolveKey(classify, Pair(left, right)) == Err(AssertionError)
  {
    var lcls := classify(left.name).1;
    assert "Complex" != Inv + lcls by {
      assert (Inv + lcls)[0] == 'I' && "Complex"[0] == 'C';
    }
  }

  /** One collected item per key. */
  predicate KeysDistinct(items: seq<((string, string), real)>)
  {
    forall i, j :: 0 <= i < j < |items| ==> items[i].0 != items[j].0
  }

  function Keys(items: seq<((string, string), real)>): set<(string, string)>
  {
    set x | x in items :: x.0
  }

  /** The weight stored for `key`: `resolved[key]` on a defaultdict(float). */
  function WeightOf(items: seq<((string, string), real)>, key: (string, string)): (w: real)
    ensures key !in Keys(items) ==> w == 0.0
    ensures key in Keys(items) ==> (key, w) in items
  {
    if items == [] then 0.0
    else if items[0].0 == key then items[0].1
    else
      assert Keys(items) == {items[0].0} + Keys(items[1..]);
      WeightOf(items[1..], key)
  }

  /** `resolved[key] = max(resolved[key], w)` on a dict kept in insertion order. */
  function Upsert(items: seq<((string, string), real)>, key: (string, string), w: real): (r: seq<((string, string), real)>)
    ensures Keys(r) == Keys(items) + {key}
    ensures KeysDistinct(items) ==> KeysDistinct(r)
  {
    if items == [] then [(key, RMax(0.0, w))]
    else if items[0].0 == key then
      var r := [(key, RMax(items[0].1, w))] + items[1..];
      assert Keys(items) == {key} + Keys(items[1..]);
      assert Keys(r) == {key} + Keys(items[1..]);
      r
    else
      var t := Upsert(items[1..], key, w);
      assert Keys(items) == {items[0].0} + Keys(items[1..]);
      assert Keys([items[0]] + t) == {items[0].0} + Keys(t);
      assert KeysDistinct(items) ==> items[0].0 !in Keys(items[1..]);
      [items[0]] + t
  }

  /** An upsert raises the weight of its own key to the larger one and leaves the others alone. */
  lemma {:induction false} UpsertWeight(items: seq<((string, string), real)>, key: (string, string), w: real, k: (string, string))
    ensures WeightOf(Upsert(items, key, w), k) ==
      if k == key then RMax(WeightOf(items, k), w) else WeightOf(items, k)
    decreases |items|
  {
    if items != [] && items[0].0 != key {
      UpsertWeight(items[1..], key, w, k);
      assert (Upsert(items, key, w))[1..] == Upsert(items[1..], key, w);
    }
  }

  /** The upsert found at index `m` by a linear search. */
  lemma UpsertAt(items: seq<((string, string), real)>, key: (string, string), w: real, m: int)
    requires 0 <= m <= |items| && forall q :: 0 <= q < m ==> items[q].0 != key
    requires m < |items| ==> items[m].0 == key
    ensures Upsert(items, key, w) ==
      if m < |items| then items[m := (key, RMax(items[m].1, w))] else items + [(key, RMax(0.0, w))]
  {
    if m < |items| {
      UpsertFound(items, key, w, m);
    } else {
      UpsertAppended(items, key, w);
    }
  }

  /** A key first met at index `m` has its weight raised there. */
  lemma {:induction false} UpsertFound(items: seq<((string, string), real)>, key: (string, string), w: real, m: int)
    requires 0 <= m < |items| && forall q :: 0 <= q < m ==> items[q].0 != key
    requires items[m].0 == key
    ensures Upsert(items, key, w) == items[m := (key, RMax(items[m].1, w))]
    decreases m
  {
    if m > 0 {
      var tail := items[1..];
      forall q | 0 <= q < m - 1 ensures tail[q].0 != key {
        assert tail[q] == items[q + 1];
      }
      assert tail[m - 1] == items[m];
      UpsertFound(tail, key, w, m - 1);
      UpsertShift(items, key, w, m, (key, RMax(items[m].1, w)));
    }
  }

  /** One step of `UpsertFound`: the head is kept in front of the tail's update. */
  lemma UpsertShift(items: seq<((string, string), real)>, key: (string, string), w: real, m: int, v: ((string, string), real))
    requires 0 < m < |items| && items[0].0 != key
    requires Upsert(items[1..], key, w) == items[1..][m - 1 := v]
    ensures Upsert(items, key, w) == items[m := v]
  {
    var tail := items[1..];
    var lhs, rhs := [items[0]] + tail[m - 1 := v], items[m := v];
    assert Upsert(items, key, w) == lhs;
    assert |lhs| == |rhs|;
    forall q | 0 <= q < |lhs| ensures lhs[q] == rhs[q] {
      if q > 0 { assert lhs[q] == tail[m - 1 := v][q - 1]; }
    }
  }

  /** A key absent from `items` is appended at the end. */
  lemma {:induction false} UpsertAppended(items: seq<((string, string), real)>, key: (string, string), w: real)
    requires forall q :: 0 <= q < |items| ==> items[q].0 != key
    ensures Upsert(items, key, w) == items + [(key, RMax(0.0, w))]
    decreases |items|
  {
    if items != [] {
      var tail := items[1..];
      forall q | 0 <= q < |tail| ensures tail[q].0 != key {
        assert tail[q] == items[q + 1];
      }
      UpsertAppended(tail, key, w);
      var v := (key, RMax(0.0, w));
      assert items[0].0 != key;
      assert items == [items[0]] + tail;
      ConcatAssoc([items[0]], tail, [v]);
    }
  }

  /**
   * The resolved keys of `weights` with the largest weight each, in
   * first-seen order; the first key that cannot be resolved stops it.
   */
  function Collect(classify: Classifier, weights: seq<(AnnotationKey, real)>): (r: Result<seq<((string, string), real)>>)
    ensures r.Err? ==> r.error == AssertionError
  {
    if weights == [] then Ok([])
    else
      var n := |weights| - 1;
      match Collect(classify, weights[..n])
      case Err(e) => Err(e)
      case Ok(items) =>
        match ResolveKey(classify, weights[n].0)
        case Err(e) => Err(e)
        case Ok(key) => Ok(Upsert(items, key, weights[n].1))
  }

  /** The largest weight among the entries resolving to `key`, or 0. */
  function Best(classify: Classifier, weights: seq<(AnnotationKey, real)>, key: (string, string)): real
  {
    if weights == [] then 0.0
    else
      var n := |weights| - 1;
      var w := Best(classify, weights[..n], key);
      if ResolveKey(classify, weights[n].0) == Ok(key) then RMax(w, weights[n].1) else w
  }

  /** The keys the entries of `weights` resolve to. */
  function ResolvedKeys(classify: Classifier, weights: seq<(AnnotationKey, real)>): set<(string, string)>
  {
    set i | 0 <= i < |weights| && ResolveKey(classify, weights[i].0).Ok? :: ResolveKey(classify, weights[i].0).value
  }

  /** Once a prefix fails to collect, the whole sequence fails with the same error. */
  lemma {:induction false} CollectPrefixErr(classify: Classifier, weights: seq<(AnnotationKey, real)>, k: int)
    requires 0 <= k <= |weights| && Collect(classify, weights[..k]).Err?
    ensures Collect(classify, weights) == Collect(classify, weights[..k])
    decreases |weights|
  {
    if k < |weights| {
      var n := |weights| - 1;
      assert weights[..n][..k] == weights[..k];
      CollectPrefixErr(classify, weights[..n], k);
    } else {
      assert weights[..k] == weights;
    }
  }

  /** Collecting fails exactly when some entry cannot be resolved. */
  lemma {:induction false} CollectErr(classify: Classifier, weights: seq<(AnnotationKey, real)>)
    ensures Collect(classify, weights).Err? <==> exists i :: 0 <= i < |weights| && ResolveKey(classify, weights[i].0).Err?
    decreases |weights|
  {
    if exists i :: 0 <= i < |weights| && ResolveKey(classify, weights[i].0).Err? {
      var i :| 0 <= i < |weights| && ResolveKey(classify, weights[i].0).Err?;
      assert weights[..i + 1][..i] == weights[..i];
      CollectPrefixErr(classify, weights, i + 1);
    } else if weights != [] {
      var n := |weights| - 1;
      forall i | 0 <= i < n ensures ResolveKey(classify, weights[..n][i].0).Ok? {
        assert weights[..n][i] == weights[i];
      }
      CollectErr(classify, weights[..n]);
    }
  }

  /**
   * What `Collect` gathers: one item per key, exactly the keys the entries
   * resolve to, each with the largest weight among its entries.
   */
  lemma {:induction false} CollectSound(classify: Classifier, weights: seq<(AnnotationKey, real)>)
    requires Collect(classify, weights).Ok?
    ensures KeysDistinct(Collect(classify, weights).value)
    ensures Keys(Collect(classify, weights).value) == ResolvedKeys(classify, weights)
    ensures forall k :: WeightOf(Collect(classify, weights).value, k) == Best(classify, weights, k)
    decreases |weights|
  {
    if weights != [] {
      var n := |weights| - 1;
      var pre := weights[..n];
      CollectSound(classify, pre);
      var items := Collect(classify, pre).value;
      var key := ResolveKey(classify, weights[n].0).value;
      forall k ensures WeightOf(Collect(classify, weights).value, k) == Best(classify, weights, k) {
        UpsertWeight(items, key, weights[n].1, k);
      }
      ResolvedKeysStep(classify, weights);
    }
  }

  lemma ResolvedKeysStep(classify: Classifier, weights: seq<(AnnotationKey, real)>)
    requires weights != [] && ResolveKey(classify, weights[|weights| - 1].0).Ok?
    ensures ResolvedKeys(classify, weights) ==
      ResolvedKeys(classify, weights[..|weights| - 1]) + {ResolveKey(classify, weights[|weights| - 1].0).value}
  {
    var n := |weights| - 1;
    forall k | k in ResolvedKeys(classify, weights)
      ensures k in ResolvedKeys(classify, weights[..n]) + {ResolveKey(classify, weights[n].0).value}
    {
      var i :| 0 <= i < |weights| && ResolveKey(classify, weights[i].0).Ok? && ResolveKey(classify, weights[i].0).value == k;
      if i < n {
        assert weights[..n][i] == weights[i];
      }
    }
    forall k | k in ResolvedKeys(classify, weights[..n]) ensures k in ResolvedKeys(classify, weights) {
      var i :| 0 <= i < n && ResolveKey(classify, weights[..n][i].0).Ok? && ResolveKey(classify, weights[..n][i].0).value == k;
      assert weights[..n][i] == weights[i];
    }
  }

  /** Python's order on (weight, (class, family)) pairs. */
  predicate ItemLe(a: ((string, string), real), b: ((string, string), real))
  {
    a.1 < b.1 || (a.1 == b.1 && (StrLe(a.0.0, b.0.0) && (a.0.0 == b.0.0 ==> StrLe(a.0.1, b.0.1))))
  }

  lemma ItemLePreorder()
    ensures TotalPreorder(ItemLe)
  {
    forall a: ((string, string), real), b: ((string, string), real) ensures ItemLe(a, b) || ItemLe(b, a) {
      StrLeTotal(a.0.0, b.0.0);
      StrLeTotal(a.0.1, b.0.1);
      if a.0.0 != b.0.0 && StrLe(a.0.0, b.0.0) && StrLe(b.0.0, a.0.0) {
        StrLeAntisymmetric(a.0.0, b.0.0);
      }
    }
    forall a: ((string, string), real), b: ((string, string), real), c: ((string, string), real)
      | ItemLe(a, b) && ItemLe(b, c) ensures ItemLe(a, c)
    {
      if a.1 == b.1 && b.1 == c.1 {
        StrLeTransitive(a.0.0, b.0.0, c.0.0);
        if a.0.0 == c.0.0 {
          StrLeAntisymmetric(a.0.0, b.0.0);
          StrLeTransitive(a.0.1, b.0.1, c.0.1);
        }
      }
    }
  }

  /** An alternative that may replace a non-inverted pick: inverted and within 1e-2 of its weight. */
  predicate Replaces(item: ((string, string), real), weight: real)
  {
    IsInverted(item.0) && -0.01 < item.1 - weight < 0.01
  }

  /** Scan `items` (sorted ascending) from the top for the first inverted one near `weight`. */
  method FirstReplacement(items: seq<((string, string), real)>, weight: real) returns (found: Option<(string, string)>)
    ensures found.None? ==> forall i :: 0 <= i < |items| ==> !Replaces(items[i], weight)
    ensures found.Some? ==> exists i :: 0 <= i < |items| && items[i].0 == found.value && Replaces(items[i], weight) &&
                                     forall j :: i < j < |items| ==> !Replaces(items[j], weight)
  {
    var rest := items;
    while rest != []
      invariant |rest| <= |items| && rest == items[..|rest|]
      invariant forall j :: |rest| <= j < |items| ==> !Replaces(items[j], weight)
    {
      var nxt := rest[|rest| - 1];
      rest := rest[..|rest| - 1];
      if Replaces(nxt, weight) {
        assert items[|rest|] == nxt;
        return Some(nxt.0);
      }
    }
    return None;
  }

  /** One more entry: resolve its key and upsert its weight. */
  lemma CollectNext(classify: Classifier, weights: seq<(AnnotationKey, real)>, i: int, items: seq<((string, string), real)>)
    requires 0 <= i < |weights| && Collect(classify, weights[..i]) == Ok(items)
    ensures ResolveKey(classify, weights[i].0).Err? ==> Collect(classify, weights[..i + 1]).Err?
    ensures ResolveKey(classify, weights[i].0).Ok? ==>
      Collect(classify, weights[..i + 1]) == Ok(Upsert(items, ResolveKey(classify, weights[i].0).value, weights[i].1))
  {
    assert weights[..i + 1][..i] == weights[..i];
  }

  /** The linear search of the resolved keys for `key`. */
  method Find(resolved: seq<((string, string), real)>, key: (string, string)) returns (m: int)
    ensures 0 <= m <= |resolved| && forall q :: 0 <= q < m ==> resolved[q].0 != key
    ensures m < |resolved| ==> resolved[m].0 == key
  {
    m := 0;
    while m < |resolved| && resolved[m].0 != key
      invariant 0 <= m <= |resolved|
      invariant forall q :: 0 <= q < m ==> resolved[q].0 != key
    {
      m := m + 1;
    }
  }

  /** The per-key loop of `sequence`. */
  method CollectKeys(classify: Classifier, weights: seq<(AnnotationKey, real)>) returns (r: Result<seq<((string, string), real)>>)
    ensures r == Collect(classify, weights)
  {
    var resolved: seq<((string, string), real)> := [];
    var i := 0;
    while i < |weights|
      invariant 0 <= i <= |weights|
      invariant Collect(classify, weights[..i]) == Ok(resolved)
    {
      CollectNext(classify, weights, i, resolved);
      var key := ResolveKey(classify, weights[i].0);
      if key.Err? {
        CollectPrefixErr(classify, weights, i + 1);
        return Collect(classify, weights[..i + 1]);
      }
      var m := Find(resolved, key.value);
      UpsertAt(resolved, key.value, weights[i].1, m);
      if m < |resolved| {
        resolved := resolved[m := (key.value, RMax(resolved[m].1, weights[i].1))];
      } else {
        resolved := resolved + [(key.value, RMax(0.0, weights[i].1))];
      }
      i := i + 1;
    }
    assert weights[..i] == weights;
    return Ok(resolved);
  }

  /**
   * The pick among collected `items`: the largest (weight, key) when it is
   * inverted or nothing can replace it; otherwise the largest inverted item
   * within 1e-2 of its weight.
   */
  predicate Chosen(items: seq<((string, string), real)>, sol: (string, string))
  {
    exists t :: 0 <= t < |items| && (forall x :: x in items ==> ItemLe(x, items[t])) && Picks(items, items[t], sol)
  }

  predicate Picks(items: seq<((string, string), real)>, top: ((string, string), real), sol: (string, string))
  {
    if IsInverted(top.0) || (forall x :: x in items ==> !Replaces(x, top.1)) then sol == top.0
    else exists a :: 0 <= a < |items| && items[a].0 == sol && Replaces(items[a], top.1) && Above(items, items[a], top.1)
  }

  /** No other replacement outranks `x`. */
  predicate Above(items: seq<((string, string), real)>, x: ((string, string), real), weight: real)
  {
    forall y :: y in items && Replaces(y, weight) ==> ItemLe(y, x)
  }

  /** The last of a sorted permutation is at least every member. */
  lemma SortedTop(resolved: seq<((string, string), real)>, ordered: seq<((string, string), real)>)
    requires TotalPreorder(ItemLe) && SortedBy(ordered, ItemLe) && ordered != []
    requires forall y :: y in ordered <==> y in resolved
    ensures forall x :: x in resolved ==> ItemLe(x, ordered[|ordered| - 1])
  {
    var n := |ordered|;
    forall x | x in resolved ensures ItemLe(x, ordered[n - 1]) {
      var j :| 0 <= j < n && ordered[j] == x;
      if j < n - 1 {
        assert ItemLe(ordered[j], ordered[n - 1]);
      }
    }
  }

  /** The replacement found scanning down from the top outranks every other replacement. */
  lemma SortedReplacement(resolved: seq<((string, string), real)>, ordered: seq<((string, string), real)>, a: int, w: real)
    requires TotalPreorder(ItemLe) && SortedBy(ordered, ItemLe) && 0 <= a < |ordered| - 1
    requires forall y :: y in ordered <==> y in resolved
    requires forall j :: a < j < |ordered| - 1 ==> !Replaces(ordered[j], w)
    requires !Replaces(ordered[|ordered| - 1], w)
    ensures Above(resolved, ordered[a], w)
  {
    forall y | y in resolved && Replaces(y, w) ensures ItemLe(y, ordered[a]) {
      var j :| 0 <= j < |ordered| && ordered[j] == y;
      if j < a {
        assert ItemLe(ordered[j], ordered[a]);
      }
    }
  }

  /** The top item is the pick when it is inverted or nothing can replace it. */
  lemma ChosenTop(items: seq<((string, string), real)>, t: int)
    requires 0 <= t < |items| && forall x :: x in items ==> ItemLe(x, items[t])
    requires IsInverted(items[t].0) || forall x :: x in items ==> !Replaces(x, items[t].1)
    ensures Chosen(items, items[t].0)
  {
  }

  /** Otherwise the pick is the highest-ranked replacement. */
  lemma ChosenReplacement(items: seq<((string, string), real)>, t: int, a: int)
    requires 0 <= t < |items| && forall x :: x in items ==> ItemLe(x, items[t])
    requires !IsInverted(items[t].0)
    requires 0 <= a < |items| && Replaces(items[a], items[t].1) && Above(items, items[a], items[t].1)
    ensures Chosen(items, items[a].0)
  {
    assert Picks(items, items[t], items[a].0);
  }

  /** A non-inverted top with a replacement found below it. */
  lemma SortedReplacementChosen(resolved: seq<((string, string), real)>, ordered: seq<((string, string), real)>, a: int)
    requires TotalPreorder(ItemLe) && SortedBy(ordered, ItemLe) && 0 <= a < |ordered| - 1
    requires forall y :: y in ordered <==> y in resolved
    requires !IsInverted(ordered[|ordered| - 1].0) && Replaces(ordered[a], ordered[|ordered| - 1].1)
    requires forall j :: a < j < |ordered| - 1 ==> !Replaces(ordered[j], ordered[|ordered| - 1].1)
    ensures Chosen(resolved, ordered[a].0)
  {
    var n := |ordered|;
    var top := ordered[n - 1];
    assert top in ordered && ordered[a] in ordered;
    var t :| 0 <= t < |resolved| && resolved[t] == top;
    var ra :| 0 <= ra < |resolved| && resolved[ra] == ordered[a];
    SortedTop(resolved, ordered);
    SortedReplacement(resolved, ordered, a, top.1);
    ChosenReplacement(resolved, t, ra);
  }

  /** A top that is inverted, or that nothing below it replaces. */
  lemma SortedTopChosen(resolved: seq<((string, string), real)>, ordered: seq<((string, string), real)>)
    requires TotalPreorder(ItemLe) && SortedBy(ordered, ItemLe) && ordered != []
    requires forall y :: y in ordered <==> y in resolved
    requires IsInverted(ordered[|ordered| - 1].0) ||
      forall j :: 0 <= j < |ordered| - 1 ==> !Replaces(ordered[j], ordered[|ordered| - 1].1)
    ensures Chosen(resolved, ordered[|ordered| - 1].0)
  {
    var n := |ordered|;
    var top := ordered[n - 1];
    assert top in ordered;
    var t :| 0 <= t < |resolved| && resolved[t] == top;
    SortedTop(resolved, ordered);
    if !IsInverted(top.0) {
      forall y | y in resolved ensures !Replaces(y, top.1) {
        var j :| 0 <= j < n && ordered[j] == y;
      }
    }
    ChosenTop(resolved, t);
  }

  /** The selection step of `sequence`: sort, take the top, look for a replacement. */
  method Choose(resolved: seq<((string, string), real)>) returns (sol: (string, string))
    requires resolved != []
    ensures Chosen(resolved, sol)
  {
    assert TotalPreorder(ItemLe) by {
      ItemLePreorder();
    }
    var ordered := SortBy(resolved, ItemLe);
    SortByMembers(resolved, ItemLe);
    var n := |ordered|;
    var top := ordered[n - 1];
    if IsInverted(top.0) {
      SortedTopChosen(resolved, ordered);
      return top.0;
    }
    var below := ordered[..n - 1];
    var alt := FirstReplacement(below, top.1);
    if alt.Some? {
      var a :| 0 <= a < |below| && below[a].0 == alt.value && Replaces(below[a], top.1) &&
        forall j :: a < j < |below| ==> !Replaces(below[j], top.1);
      assert forall j :: 0 <= j < n - 1 ==> below[j] == ordered[j];
      SortedReplacementChosen(resolved, ordered, a);
      return alt.value;
    }
    assert forall j :: 0 <= j < n - 1 ==> below[j] == ordered[j];
    SortedTopChosen(resolved, ordered);
    return top.0;
  }

  /**
   * `sequence`: checks that all weights are positive and sum to 1 within
   * 1e-3, resolves every key keeping the largest weight per resolved key,
   * picks the largest (weight, key) and, when it is not inverted, replaces
   * it by the largest inverted alternative whose weight is within 1e-2.
   */
  method Sequence(classify: Classifier, weights: seq<(AnnotationKey, real)>) returns (r: Result<(string, string)>)
    ensures r.Err? <==>
      (exists i :: 0 <= i < |weights| && weights[i].1 <= 0.0) ||
      !(-0.001 < SumReals(Seconds(weights)) - 1.0 < 0.001) ||
      (exists i :: 0 <= i < |weights| && ResolveKey(classify, weights[i].0).Err?)
    ensures r.Err? ==> r.error == AssertionError
    ensures r.Ok? ==> Collect(classify, weights).Ok? && Chosen(Collect(classify, weights).value, r.value)
  {
    CollectErr(classify, weights);
    if exists i :: 0 <= i < |weights| && weights[i].1 <= 0.0 {
      return Err(AssertionError);
    }
    var total := SumReals(Seconds(weights));
    if !(-0.001 < total - 1.0 < 0.001) {
      return Err(AssertionError);
    }
    assert Seconds(weights) != [];
    var resolved := CollectKeys(classify, weights);
    if resolved.Err? {
      return Err(resolved.error);
    }
    CollectSound(classify, weights);
    assert ResolveKey(classify, weights[0].0).value in Keys(resolved.value);
    var sol := Choose(resolved.value);
    return Ok(sol);
  }

  /** Per-experiment differential statistics of one row: log2 fold change and adjusted p-value. */
  datatype Stats = Stats(log2fc: real, padj: real)

  predicate Hit(s: Stats, log2fc: real, padj: real) { s.log2fc >= log2fc && s.padj <= padj }

  /**
   * `virus_induction` for one key: OR-s the hit masks of its experiments
   * into an all-false mask. A missing experiment column is a KeyError.
   */
  method Induced(table: map<string, seq<Stats>>, n: nat, exps: seq<string>, log2fc: real, padj: real)
    returns (r: Result<seq<bool>>)
    requires forall e :: e in table ==> |table[e]| == n
    ensures r.Err? <==> exists e :: e in exps && e !in table
    ensures r.Err? ==> r.error == KeyError
    ensures r.Ok? ==> |r.value| == n && forall i :: 0 <= i < n ==>
      (r.value[i] <==> exists e :: e in exps && e in table && Hit(table[e][i], log2fc, padj))
  {
    var mask := seq(n, _ => false);
    var k := 0;
    while k < |exps|
      invariant 0 <= k <= |exps| && |mask| == n
      invariant forall e :: e in exps[..k] ==> e in table
      invariant forall i :: 0 <= i < n ==> (mask[i] <==> exists e :: e in exps[..k] && Hit(table[e][i], log2fc, padj))
    {
      var e := exps[k];
      if e !in table {
        return Err(KeyError);
      }
      assert exps[..k + 1] == exps[..k] + [e];
      mask := seq(n, i requires 0 <= i < n => mask[i] || Hit(table[e][i], log2fc, padj));
      k := k + 1;
    }
    assert exps[..k] == exps;
    return Ok(mask);
  }

  /**
   * `rip_enrichment`: each new name gets the hit mask of its old experiment;
   * an old experiment named twice trips the rename-uniqueness assertion and
   * a missing one is a KeyError, whichever comes first.
   */
  method Enrichment(table: map<string, seq<Stats>>, n: nat, experiments: seq<(string, string)>, log2fc: real, padj: real)
    returns (r: Result<seq<(string, seq<bool>)>>)
    requires forall e :: e in table ==> |table[e]| == n
    ensures r.Ok? <==> Distinct(Seconds(experiments)) && forall k :: 0 <= k < |experiments| ==> experiments[k].1 in table
    ensures r.Err? ==> r.error == AssertionError || r.error == KeyError
    ensures r.Ok? ==> |r.value| == |experiments| && forall k :: 0 <= k < |experiments| ==>
      r.value[k].0 == experiments[k].0 && |r.value[k].1| == n &&
      forall i :: 0 <= i < n ==> (r.value[k].1[i] <==> Hit(table[experiments[k].1][i], log2fc, padj))
  {
    var seen: seq<string> := [];
    var columns: seq<(string, seq<bool>)> := [];
    var k := 0;
    while k < |experiments|
      invariant 0 <= k <= |experiments|
      invariant seen == Seconds(experiments[..k]) && Distinct(seen)
      invariant forall j :: 0 <= j < k ==> experiments[j].1 in table
      invariant |columns| == k
      invariant forall j :: 0 <= j < k ==> columns[j].0 == experiments[j].0 && |columns[j].1| == n
      invariant forall j, i :: 0 <= j < k && 0 <= i < n ==> (columns[j].1[i] <==> Hit(table[experiments[j].1][i], log2fc, padj))
    {
      var (newname, oldname) := experiments[k];
      assert experiments[..k + 1] == experiments[..k] + [experiments[k]];
      SecondsConcat(experiments[..k], [experiments[k]]);
      if oldname in seen {
        var j :| 0 <= j < |seen| && seen[j] == oldname;
        assert Seconds(experiments)[j] == Seconds(experiments)[k] by {
          assert Seconds(experiments)[j] == experiments[j].1 == seen[j];
        }
        return Err(AssertionError);
      }
      if oldname !in table {
        return Err(KeyError);
      }
      var mask := seq(n, i requires 0 <= i < n => Hit(table[oldname][i], log2fc, padj));
      columns := columns + [(newname, mask)];
      seen := seen + [oldname];
      k := k + 1;
    }
    assert experiments[..k] == experiments;
    return Ok(columns);
  }
}
