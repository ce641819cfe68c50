// Directed dependency graphs over names: `g[n]` is the set of names `n`
// depends on. A dependency order lists every node once with all its
// dependencies before it; a cycle is a closed walk along dependency edges.
module Graphs {

  type Graph = map<string, set<string>>

  function Elems<T>(s: seq<T>): set<T> {
    set x | x in s
  }

  predicate Distinct<T(==)>(s: seq<T>) {
    forall i, j :: 0 <= i < j < |s| ==> s[i] != s[j]
  }

  /** Every dependency is itself a node. */
  predicate Closed(g: Graph) {
    forall n :: n in g ==> g[n] <= g.Keys
  }

  /** Consecutive entries are dependency edges. */
  predicate IsPath(g: Graph, p: seq<string>) {
    forall i :: 0 <= i < |p| - 1 ==> p[i] in g && p[i + 1] in g[p[i]]
  }

  /** A non-empty path whose last entry depends on its first (a self-edge is a cycle of one). */
  predicate IsCycle(g: Graph, c: seq<string>) {
    |c| > 0 && IsPath(g, c) && c[|c| - 1] in g && c[0] in g[c[|c| - 1]]
  }

  ghost predicate HasCycle(g: Graph) {
    exists c :: IsCycle(g, c)
  }

  /** Every entry's dependencies appear strictly earlier. */
  predicate DependenciesFirst(g: Graph, order: seq<string>) {
    forall i :: 0 <= i < |order| ==> order[i] in g && g[order[i]] <= Elems(order[..i])
  }

  /** Each node exactly once, dependencies before dependents. */
  predicate IsTopoOrder(g: Graph, order: seq<string>) {
    Distinct(order) && Elems(order) == g.Keys && DependenciesFirst(g, order)
  }

  /** Every node of `s` depends on some node of `s`: no node of `s` can be scheduled. */
  predicate Stuck(g: Graph, s: set<string>) {
    s <= g.Keys && forall n :: n in s ==> g[n] * s != {}
  }

  lemma ElemsAppend<T>(a: seq<T>, b: seq<T>)
    ensures Elems(a + b) == Elems(a) + Elems(b)
  {
  }

  lemma ElemsSnoc<T>(s: seq<T>, x: T)
    ensures Elems(s + [x]) == Elems(s) + {x}
  {
  }

  lemma ElemsCons<T>(x: T, s: seq<T>)
    ensures Elems([x] + s) == {x} + Elems(s)
  {
  }

  /** Extending a prefix of `s` that follows `l` by the next element of `s`. */
  lemma AppendPrefixSnoc<T>(l: seq<T>, s: seq<T>, k: nat)
    requires k < |s|
    ensures (l + s[..k]) + [s[k]] == l + s[..k + 1]
  {
    assert s[..k + 1] == s[..k] + [s[k]];
  }

  lemma DistinctSnoc<T>(s: seq<T>, x: T)
    requires Distinct(s) && x !in s
    ensures Distinct(s + [x])
  {
    var t := s + [x];
    forall i, j | 0 <= i < j < |t| ensures t[i] != t[j] {
      assert t[i] == s[i];
    }
  }

  lemma DistinctTail<T>(s: seq<T>)
    requires Distinct(s) && |s| > 0
    ensures Distinct(s[1..]) && s[0] !in s[1..]
  {
    forall i, j | 0 <= i < j < |s[1..]| ensures s[1..][i] != s[1..][j] {
      assert s[1..][i] == s[i + 1] && s[1..][j] == s[j + 1];
    }
    forall i | 0 <= i < |s[1..]| ensures s[1..][i] != s[0] {
      assert s[1..][i] == s[i + 1];
    }
  }

  /** A node whose dependencies are all listed may be listed next. */
  lemma DependenciesFirstSnoc(g: Graph, order: seq<string>, x: string)
    requires DependenciesFirst(g, order) && x in g && g[x] <= Elems(order)
    ensures DependenciesFirst(g, order + [x])
  {
    var o := order + [x];
    forall i | 0 <= i < |o| ensures o[i] in g && g[o[i]] <= Elems(o[..i]) {
      if i < |order| {
        assert o[..i] == order[..i];
      } else {
        assert o[..i] == order;
      }
    }
  }

  lemma {:induction false} DistinctCard<T>(s: seq<T>)
    requires Distinct(s)
    ensures |Elems(s)| == |s|
    decreases |s|
  {
    if |s| > 0 {
      var init := s[..|s| - 1];
      DistinctCard(init);
      assert Elems(s) == Elems(init) + {s[|s| - 1]};
      assert s[|s| - 1] !in Elems(init);
    }
  }

  /** The position of each entry of a distinct sequence. */
  lemma IndexOfEntry(order: seq<string>, x: string) returns (k: nat)
    requires x in order
    ensures k < |order| && order[k] == x
  {
    k :| 0 <= k < |order| && order[k] == x;
  }

  /** A graph with a dependency order has no cycle: positions would have to fall forever. */
  lemma {:induction false} TopoOrderExcludesCycle(g: Graph, order: seq<string>, c: seq<string>)
    requires Distinct(order) && DependenciesFirst(g, order) && g.Keys <= Elems(order)
    ensures !IsCycle(g, c)
  {
    if IsCycle(g, c) {
      var n := |c|;
      // pos[i] is the position of c[i] in order.
      var pos: seq<nat> := [];
      while |pos| < n
        invariant |pos| <= n
        invariant forall i :: 0 <= i < |pos| ==> pos[i] < |order| && order[pos[i]] == c[i]
      {
        var i := |pos|;
        assert c[i] in g by {
          if i < n - 1 { } else { }
        }
        var k := IndexOfEntry(order, c[i]);
        pos := pos + [k];
      }
      // Along the cycle, each dependency sits strictly earlier.
      forall i | 0 <= i < n - 1 ensures pos[i + 1] < pos[i] {
        assert c[i + 1] in g[order[pos[i]]];
        assert c[i + 1] in Elems(order[..pos[i]]);
        var j :| 0 <= j < pos[i] && order[j] == c[i + 1];
        assert j == pos[i + 1];
      }
      assert c[0] in g[order[pos[n - 1]]];
      var j :| 0 <= j < pos[n - 1] && order[j] == c[0];
      Falling(pos, n - 1);
      assert false;
    }
  }

  lemma {:induction false} Falling(pos: seq<nat>, k: nat)
    requires k < |pos|
    requires forall i :: 0 <= i < |pos| - 1 ==> pos[i + 1] < pos[i]
    ensures pos[k] <= pos[0]
  {
    if k > 0 { Falling(pos, k - 1); }
  }

  /** A stuck set has a cycle: follow dependencies inside it until a node repeats. */
  lemma StuckHasCycle(g: Graph, s: set<string>)
    requires s != {} && Stuck(g, s)
    ensures HasCycle(g)
  {
    var x :| x in s;
    StuckWalk(g, s, [x]);
  }

  lemma {:induction false} StuckWalk(g: Graph, s: set<string>, path: seq<string>)
    requires Stuck(g, s)
    requires |path| > 0 && Distinct(path) && Elems(path) <= s && IsPath(g, path)
    ensures HasCycle(g)
    decreases |s| - |path|
  {
    DistinctCard(path);
    SubsetCard(Elems(path), s);
    var x := path[|path| - 1];
    assert x in Elems(path);
    var d :| d in g[x] * s;
    if d in Elems(path) {
      var k :| 0 <= k < |path| && path[k] == d;
      SuffixIsCycle(g, path, k);
    } else {
      var next := path + [d];
      ExtendPath(g, path, d);
      DistinctCard(next);
      SubsetCard(Elems(next), s);
      StuckWalk(g, s, next);
    }
  }

  /** A path whose last entry depends on an earlier entry closes a cycle from there. */
  lemma SuffixIsCycle(g: Graph, path: seq<string>, k: nat)
    requires IsPath(g, path) && k < |path|
    requires path[|path| - 1] in g && path[k] in g[path[|path| - 1]]
    ensures IsCycle(g, path[k..])
  {
    var c := path[k..];
    forall i | 0 <= i < |c| - 1 ensures c[i] in g && c[i + 1] in g[c[i]] {
      assert c[i] == path[k + i] && c[i + 1] == path[k + i + 1];
    }
  }

  lemma ExtendPath(g: Graph, path: seq<string>, d: string)
    requires |path| > 0 && IsPath(g, path) && Distinct(path) && d !in Elems(path)
    requires path[|path| - 1] in g && d in g[path[|path| - 1]]
    ensures IsPath(g, path + [d]) && Distinct(path + [d])
    ensures Elems(path + [d]) == Elems(path) + {d}
  {
    var next := path + [d];
    forall i | 0 <= i < |next| - 1 ensures next[i] in g && next[i + 1] in g[next[i]] {
      if i < |path| - 1 {
        assert next[i] == path[i] && next[i + 1] == path[i + 1];
      }
    }
    assert d !in path;
  }

  lemma SubsetCard<T>(a: set<T>, b: set<T>)
    requires a <= b
    ensures |a| <= |b|
  {
    assert b == a + (b - a);
  }
}
