// Undirected graphs given by a boolean connectivity matrix and their
// connected components (the part of `rustworkx` the analysis code uses:
// `PyGraph.add_edges_from_no_data` followed by `connected_components`).
module Graph {
  import opened Common

  predicate Square(adj: seq<seq<bool>>)
  {
    forall i :: 0 <= i < |adj| ==> |adj[i]| == |adj|
  }

  /** A set cell joins its two nodes in both directions. */
  predicate Linked(adj: seq<seq<bool>>, a: int, b: int)
    requires Square(adj)
  {
    0 <= a < |adj| && 0 <= b < |adj| && (adj[a][b] || adj[b][a])
  }

  /** A walk along linked nodes. */
  ghost predicate IsPath(adj: seq<seq<bool>>, p: seq<int>)
    requires Square(adj)
  {
    |p| >= 1 &&
    (forall i :: 0 <= i < |p| ==> 0 <= p[i] < |adj|) &&
    (forall i :: 0 <= i < |p| - 1 ==> Linked(adj, p[i], p[i + 1]))
  }

  ghost predicate Connected(adj: seq<seq<bool>>, a: int, b: int)
    requires Square(adj)
  {
    exists p :: IsPath(adj, p) && p[0] == a && p[|p| - 1] == b
  }

  /** Every link joins nodes of equal comp. */
  predicate Stable(adj: seq<seq<bool>>, comp: seq<int>)
    requires Square(adj) && |comp| == |adj|
  {
    forall a, b :: 0 <= a < |adj| && 0 <= b < |adj| && adj[a][b] ==> comp[a] == comp[b]
  }

  /** Each node's comp is a node it is connected to, witnessed by `paths`. */
  ghost predicate Witnessed(adj: seq<seq<bool>>, comp: seq<int>, paths: seq<seq<int>>)
    requires Square(adj)
  {
    |comp| == |adj| && |paths| == |adj| &&
    (forall i :: 0 <= i < |adj| ==> 0 <= comp[i] < |adj|) &&
    (forall i :: 0 <= i < |adj| ==>
       IsPath(adj, paths[i]) && paths[i][0] == i && paths[i][|paths[i]| - 1] == comp[i])
  }

  lemma {:induction false} SumIntsUpdate(s: seq<int>, i: int, v: int)
    requires 0 <= i < |s|
    ensures SumInts(s[i := v]) == SumInts(s) - s[i] + v
    decreases |s|
  {
    var t := s[i := v];
    if i < |s| - 1 {
      assert t[..|t| - 1] == s[..|s| - 1][i := v];
      SumIntsUpdate(s[..|s| - 1], i, v);
    } else {
      assert t[..|t| - 1] == s[..|s| - 1];
    }
  }

  lemma {:induction false} SumIntsNonNegative(s: seq<int>)
    requires forall i :: 0 <= i < |s| ==> s[i] >= 0
    ensures SumInts(s) >= 0
    decreases |s|
  {
    if s != [] {
      SumIntsNonNegative(s[..|s| - 1]);
    }
  }

  /**
   * Moves node `a` into the comp of its neighbour `b`, extending the
   * neighbour's witness path by one step.
   */
  lemma Relabel(adj: seq<seq<bool>>, comp: seq<int>, paths: seq<seq<int>>, a: int, b: int)
    requires Square(adj) && Witnessed(adj, comp, paths)
    requires 0 <= a < |adj| && 0 <= b < |adj| && (adj[a][b] || adj[b][a])
    ensures Witnessed(adj, comp[a := comp[b]], paths[a := [a] + paths[b]])
  {
    var p := [a] + paths[b];
    assert Linked(adj, a, b);
    assert forall i :: 0 <= i < |p| - 1 ==> Linked(adj, p[i], p[i + 1]) by {
      forall i | 0 <= i < |p| - 1 ensures Linked(adj, p[i], p[i + 1]) {
        if i > 0 {
          assert p[i] == paths[b][i - 1] && p[i + 1] == paths[b][i];
        }
      }
    }
    assert IsPath(adj, p);
  }

  /** One sweep over row `a`: each link of `a` pulls the larger label down to the smaller. */
  method SweepRow(adj: seq<seq<bool>>, comp0: seq<int>, ghost paths0: seq<seq<int>>, a: int)
    returns (comp: seq<int>, ghost paths: seq<seq<int>>, changed: bool)
    requires Square(adj) && Witnessed(adj, comp0, paths0) && 0 <= a < |adj|
    ensures Witnessed(adj, comp, paths)
    ensures changed ==> SumInts(comp) < SumInts(comp0)
    ensures !changed ==> comp == comp0 && forall y :: 0 <= y < |adj| && adj[a][y] ==> comp[a] == comp[y]
  {
    var n := |adj|;
    comp, paths, changed := comp0, paths0, false;
    var b := 0;
    while b < n
      invariant 0 <= b <= n
      invariant Witnessed(adj, comp, paths)
      invariant changed ==> SumInts(comp) < SumInts(comp0)
      invariant !changed ==> comp == comp0
      invariant !changed ==> forall y :: 0 <= y < b && adj[a][y] ==> comp[a] == comp[y]
    {
      if adj[a][b] && comp[a] != comp[b] {
        if comp[b] < comp[a] {
          Relabel(adj, comp, paths, a, b);
          SumIntsUpdate(comp, a, comp[b]);
          comp, paths := comp[a := comp[b]], paths[a := [a] + paths[b]];
        } else {
          Relabel(adj, comp, paths, b, a);
          SumIntsUpdate(comp, b, comp[a]);
          comp, paths := comp[b := comp[a]], paths[b := [b] + paths[a]];
        }
        changed := true;
      }
      b := b + 1;
    }
  }

  /** One sweep over every cell. */
  method Sweep(adj: seq<seq<bool>>, comp0: seq<int>, ghost paths0: seq<seq<int>>)
    returns (comp: seq<int>, ghost paths: seq<seq<int>>, changed: bool)
    requires Square(adj) && Witnessed(adj, comp0, paths0)
    ensures Witnessed(adj, comp, paths)
    ensures changed ==> SumInts(comp) < SumInts(comp0)
    ensures !changed ==> comp == comp0 && Stable(adj, comp)
  {
    var n := |adj|;
    comp, paths, changed := comp0, paths0, false;
    var a := 0;
    while a < n
      invariant 0 <= a <= n
      invariant Witnessed(adj, comp, paths)
      invariant changed ==> SumInts(comp) < SumInts(comp0)
      invariant !changed ==> comp == comp0
      invariant !changed ==> forall x, y :: 0 <= x < a && 0 <= y < n && adj[x][y] ==> comp[x] == comp[y]
    {
      var c, p, rowChanged := SweepRow(adj, comp, paths, a);
      comp, paths := c, p;
      changed := changed || rowChanged;
      a := a + 1;
    }
  }

  /**
   * Labels every node with a node of its component such that linked nodes
   * share their comp: sweeps until nothing changes.
   */
  method Label(adj: seq<seq<bool>>) returns (comp: seq<int>, ghost paths: seq<seq<int>>)
    requires Square(adj)
    ensures Witnessed(adj, comp, paths) && Stable(adj, comp)
  {
    var n := |adj|;
    comp := seq(n, i => i);
    paths := seq(n, i => [i]);
    assert Witnessed(adj, comp, paths) by {
      forall i | 0 <= i < n ensures IsPath(adj, paths[i]) {
        assert paths[i] == [i];
      }
    }
    var stable := false;
    SumIntsNonNegative(comp);
    while !stable
      invariant Witnessed(adj, comp, paths)
      invariant stable ==> Stable(adj, comp)
      invariant SumInts(comp) >= 0
      decreases SumInts(comp) + (if stable then 0 else 1)
    {
      var changed;
      comp, paths, changed := Sweep(adj, comp, paths);
      SumIntsNonNegative(comp);
      stable := !changed;
    }
  }

  /** Along a path of a stable labelling, the comp does not change. */
  lemma {:induction false} PathKeepsLabel(adj: seq<seq<bool>>, comp: seq<int>, p: seq<int>)
    requires Square(adj) && |comp| == |adj| && Stable(adj, comp) && IsPath(adj, p)
    ensures comp[p[0]] == comp[p[|p| - 1]]
    decreases |p|
  {
    if |p| > 1 {
      var q := p[..|p| - 1];
      assert IsPath(adj, q);
      PathKeepsLabel(adj, comp, q);
      assert Linked(adj, p[|p| - 2], p[|p| - 1]);
    }
  }

  lemma ReversedPath(adj: seq<seq<bool>>, p: seq<int>)
    requires Square(adj) && IsPath(adj, p)
    ensures IsPath(adj, Reversed(p))
  {
    var r := Reversed(p);
    forall i | 0 <= i < |r| - 1 ensures Linked(adj, r[i], r[i + 1]) {
      assert r[i] == p[|p| - 1 - i] && r[i + 1] == p[|p| - 2 - i];
      assert Linked(adj, p[|p| - 2 - i], p[|p| - 1 - i]);
    }
  }

  lemma JoinedPath(adj: seq<seq<bool>>, p: seq<int>, q: seq<int>)
    requires Square(adj) && IsPath(adj, p) && IsPath(adj, q) && p[|p| - 1] == q[0]
    ensures IsPath(adj, p + q[1..])
  {
    var r := p + q[1..];
    forall i | 0 <= i < |r| - 1 ensures Linked(adj, r[i], r[i + 1]) {
      if i < |p| - 1 {
        assert r[i] == p[i] && r[i + 1] == p[i + 1];
      } else if i == |p| - 1 {
        assert r[i] == q[0] && r[i + 1] == q[1];
      } else {
        assert r[i] == q[i - |p| + 1] && r[i + 1] == q[i - |p| + 2];
      }
    }
  }

  /** Two nodes with witness paths to the same comp are connected. */
  lemma SameLabelConnected(adj: seq<seq<bool>>, comp: seq<int>, paths: seq<seq<int>>, a: int, b: int)
    requires Square(adj) && Witnessed(adj, comp, paths)
    requires 0 <= a < |adj| && 0 <= b < |adj| && comp[a] == comp[b]
    ensures Connected(adj, a, b)
  {
    var back := Reversed(paths[b]);
    ReversedPath(adj, paths[b]);
    JoinedPath(adj, paths[a], back);
    var p := paths[a] + back[1..];
    if |back| > 1 {
      assert p[|p| - 1] == back[|back| - 1];
    }
  }

  predicate InSomeGroup(groups: seq<seq<int>>, i: int)
  {
    exists g :: 0 <= g < |groups| && i in groups[g]
  }

  /** The nodes below `k` whose comp is `r`, ascending. */
  function Members(comp: seq<int>, r: int, k: nat): (m: seq<int>)
    requires k <= |comp|
    ensures forall i :: i in m <==> 0 <= i < k && comp[i] == r
    ensures forall x, y :: 0 <= x < y < |m| ==> m[x] < m[y]
  {
    if k == 0 then []
    else
      var m := Members(comp, r, k - 1);
      forall x | 0 <= x < |m| ensures m[x] < k - 1 {
        assert m[x] in m;
      }
      if comp[k - 1] == r then m + [k - 1] else m
  }

  /**
   * `connected_components`: the components as ascending lists of nodes,
   * listed by their smallest comp. Every node is in exactly one component;
   * a component is closed under links and any two of its nodes are joined
   * by a path.
   */
  method Components(adj: seq<seq<bool>>) returns (groups: seq<seq<int>>)
    requires Square(adj)
    ensures forall g :: 0 <= g < |groups| ==> |groups[g]| > 0
    ensures forall g, k :: 0 <= g < |groups| && 0 <= k < |groups[g]| ==> 0 <= groups[g][k] < |adj|
    ensures forall g, x, y :: 0 <= g < |groups| && 0 <= x < y < |groups[g]| ==> groups[g][x] < groups[g][y]
    ensures forall i :: 0 <= i < |adj| ==> InSomeGroup(groups, i)
    ensures forall g, h, i :: 0 <= g < |groups| && 0 <= h < |groups| && i in groups[g] && i in groups[h] ==> g == h
    ensures forall g, a, b :: 0 <= g < |groups| && a in groups[g] && Linked(adj, a, b) ==> b in groups[g]
    ensures forall g, a, b :: 0 <= g < |groups| && a in groups[g] && b in groups[g] ==> Connected(adj, a, b)
  {
    var n := |adj|;
    var comp, paths := Label(adj);
    var roots: seq<int> := [];
    var r := 0;
    while r < n
      invariant 0 <= r <= n
      invariant forall x :: x in roots <==> 0 <= x < r && comp[x] == x
      invariant forall x, y :: 0 <= x < y < |roots| ==> roots[x] < roots[y]
    {
      if comp[r] == r {
        forall x | 0 <= x < |roots| ensures roots[x] < r {
          assert roots[x] in roots;
        }
        roots := roots + [r];
      }
      r := r + 1;
    }
    groups := seq(|roots|, g requires 0 <= g < |roots| => Members(comp, roots[g], n));
    forall i | 0 <= i < n ensures comp[comp[i]] == comp[i] {
      PathKeepsLabel(adj, comp, paths[i]);
    }
    forall i | 0 <= i < n ensures InSomeGroup(groups, i) {
      assert comp[i] in roots;
      var g :| 0 <= g < |roots| && roots[g] == comp[i];
      assert i in groups[g];
    }
    forall g, a, b | 0 <= g < |groups| && a in groups[g] && b in groups[g] ensures Connected(adj, a, b) {
      SameLabelConnected(adj, comp, paths, a, b);
    }
    forall g | 0 <= g < |groups| ensures |groups[g]| > 0 {
      assert roots[g] in roots;
      assert roots[g] in groups[g];
    }
    forall g, k | 0 <= g < |groups| && 0 <= k < |groups[g]| ensures 0 <= groups[g][k] < n {
      assert groups[g][k] in groups[g];
    }
  }
}
