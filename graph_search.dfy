// The two traversals of the extension dependency graph, stated on their
// states: the depth-first search that collects cycles, and Kahn's
// algorithm, which repeatedly schedules an extension whose dependencies are
// all scheduled. Each predicate bundles the invariant of one loop; each
// lemma is one step of that loop.
module GraphSearch {
  import opened Graphs

  // ---------------------------------------------------------------------
  // Depth-first cycle search

  /** The first position of `x` in `s` (`iter().position(..)`). */
  function Position(s: seq<string>, x: string): (k: nat)
    requires x in s
    ensures k < |s| && s[k] == x && x !in s[..k]
  {
    if s[0] == x then 0
    else
      var k := 1 + Position(s[1..], x);
      assert s[..k] == [s[0]] + s[1..][..k - 1];
      k
  }

  /**
   * The search's state: `visited` is what is finished plus what is on the
   * current path; the path is a walk along dependency edges; while no cycle
   * has been found, the finished nodes are in dependency order; every
   * recorded cycle is a cycle of the graph.
   */
  predicate DfsState(g: Graph, visited: set<string>, path: seq<string>,
                     cycles: seq<seq<string>>, finished: seq<string>)
  {
    && visited == Elems(finished) + Elems(path)
    && Distinct(finished) && Distinct(path) && Elems(finished) !! Elems(path)
    && Elems(finished) <= g.Keys && Elems(path) <= g.Keys
    && IsPath(g, path)
    && (cycles == [] ==> DependenciesFirst(g, finished))
    && (forall i :: 0 <= i < |cycles| ==> IsCycle(g, cycles[i]))
  }

  /** Entering an unvisited node reached along an edge from the end of the path. */
  lemma DfsEnter(g: Graph, visited: set<string>, path: seq<string>,
                 cycles: seq<seq<string>>, finished: seq<string>, current: string)
    requires DfsState(g, visited, path, cycles, finished)
    requires current in g && current !in visited
    requires |path| > 0 ==> current in g[path[|path| - 1]]
    ensures DfsState(g, visited + {current}, path + [current], cycles, finished)
  {
    var p := path + [current];
    ElemsSnoc(path, current);
    forall i | 0 <= i < |p| - 1 ensures p[i] in g && p[i + 1] in g[p[i]] {
      if i < |path| - 1 {
        assert p[i] == path[i] && p[i + 1] == path[i + 1];
      } else {
        assert p[i] == path[|path| - 1] && p[i + 1] == current;
      }
    }
    assert current !in path;
  }

  /** A dependency on the current path closes a cycle from its position to the end. */
  lemma DfsRecord(g: Graph, visited: set<string>, path: seq<string>,
                  cycles: seq<seq<string>>, finished: seq<string>, dep: string)
    requires DfsState(g, visited, path, cycles, finished)
    requires |path| > 0 && dep in path && dep in g[path[|path| - 1]]
    ensures DfsState(g, visited, path, cycles + [path[Position(path, dep)..]], finished)
  {
    var k := Position(path, dep);
    assert path[|path| - 1] in Elems(path);
    SuffixIsCycle(g, path, k);
    var cs := cycles + [path[k..]];
    forall i | 0 <= i < |cs| ensures IsCycle(g, cs[i]) {
      if i < |cycles| { assert cs[i] == cycles[i]; }
    }
  }

  /** Leaving a node whose dependencies are all finished (or after a cycle was found). */
  lemma DfsLeave(g: Graph, visited: set<string>, path: seq<string>,
                 cycles: seq<seq<string>>, finished: seq<string>, current: string)
    requires DfsState(g, visited, path + [current], cycles, finished)
    requires cycles == [] ==> g[current] <= Elems(finished)
    ensures DfsState(g, visited, path, cycles, finished + [current])
  {
    var p := path + [current];
    ElemsSnoc(path, current);
    var f := finished + [current];
    ElemsSnoc(finished, current);
    assert current in Elems(p);
    assert current !in finished;
    assert current !in path by {
      forall i | 0 <= i < |path| ensures path[i] != current {
        assert path[i] == p[i] && p[|path|] == current;
      }
    }
    forall i | 0 <= i < |path| - 1 ensures path[i] in g && path[i + 1] in g[path[i]] {
      assert path[i] == p[i] && path[i + 1] == p[i + 1];
    }
    if cycles == [] {
      DependenciesFirstSnoc(g, finished, current);
    }
    forall i, j | 0 <= i < j < |path| ensures path[i] != path[j] {
      assert path[i] == p[i] && path[j] == p[j];
    }
  }

  /** Once every node is finished, no recorded cycle means no cycle at all. */
  lemma DfsComplete(g: Graph, visited: set<string>, cycles: seq<seq<string>>, finished: seq<string>)
    requires DfsState(g, visited, [], cycles, finished)
    requires g.Keys <= visited
    ensures cycles == [] <==> !HasCycle(g)
  {
    if cycles == [] {
      forall c ensures !IsCycle(g, c) {
        TopoOrderExcludesCycle(g, finished, c);
      }
    } else {
      assert IsCycle(g, cycles[0]);
    }
  }

  // ---------------------------------------------------------------------
  // Kahn's algorithm

  /** `dt[p]` lists, once each, exactly the nodes that depend on `p`. */
  ghost predicate Reverse(g: Graph, dt: map<string, seq<string>>) {
    && dt.Keys == g.Keys
    && forall p :: p in dt ==>
         Distinct(dt[p]) && forall n :: n in dt[p] <==> n in g && p in g[n]
  }

  /** The nodes without dependencies, in the order of `names` (the queue's seed). */
  function Seeds(names: seq<string>, deps: map<string, seq<string>>): seq<string> {
    if |names| == 0 then []
    else
      var n := names[|names| - 1];
      Seeds(names[..|names| - 1], deps) + (if n !in deps || |deps[n]| == 0 then [n] else [])
  }

  /** One more name: the seed grows by that name exactly when it has no dependencies. */
  lemma SeedsNext(names: seq<string>, i: nat, deps: map<string, seq<string>>)
    requires i < |names|
    ensures Seeds(names[..i + 1], deps) ==
      Seeds(names[..i], deps) + (if names[i] !in deps || |deps[names[i]]| == 0 then [names[i]] else [])
  {
    assert names[..i + 1][..i] == names[..i];
  }

  lemma {:induction false} SeedsFacts(names: seq<string>, deps: map<string, seq<string>>)
    ensures forall n :: n in Seeds(names, deps) <==> n in names && (n !in deps || |deps[n]| == 0)
    ensures Distinct(names) ==> Distinct(Seeds(names, deps))
    decreases |names|
  {
    if |names| > 0 {
      var init := names[..|names| - 1];
      var n := names[|names| - 1];
      SeedsFacts(init, deps);
      assert names == init + [n];
      var s := Seeds(names, deps);
      var si := Seeds(init, deps);
      if Distinct(names) {
        assert Distinct(init) by {
          forall i, j | 0 <= i < j < |init| ensures init[i] != init[j] {
            assert init[i] == names[i] && init[j] == names[j];
          }
        }
        assert n !in init;
        assert n !in si;
        forall i, j | 0 <= i < j < |s| ensures s[i] != s[j] {
          if j < |si| {
            assert s[i] == si[i] && s[j] == si[j];
          } else {
            assert s[j] == n;
            assert s[i] == si[i];
          }
        }
      }
    }
  }

  /**
   * The state of Kahn's algorithm, with `rest` the dependents of the last
   * scheduled node still to be decremented: the scheduled nodes and the
   * queue hold each node at most once, scheduled nodes come after their
   * dependencies, a node's counter is the number of its dependencies not yet
   * scheduled (one more while it is still in `rest`), and a node has been
   * queued exactly when its counter is zero.
   */
  predicate KahnState(g: Graph, inDegree: map<string, int>, done: seq<string>,
                      queue: seq<string>, rest: seq<string>)
  {
    KahnOrder(g, done, queue, rest) && KahnCounts(g, inDegree, done, queue, rest)
  }

  predicate KahnOrder(g: Graph, done: seq<string>, queue: seq<string>, rest: seq<string>) {
    && Distinct(done + queue) && Elems(done + queue) <= g.Keys
    && Distinct(rest) && Elems(rest) <= g.Keys && Elems(rest) !! Elems(done + queue)
    && DependenciesFirst(g, done)
  }

  predicate KahnCounts(g: Graph, inDegree: map<string, int>, done: seq<string>,
                       queue: seq<string>, rest: seq<string>)
  {
    && inDegree.Keys == g.Keys
    && (forall n {:trigger inDegree[n]} :: n in g ==>
         inDegree[n] == |g[n] - Elems(done)| + (if n in rest then 1 else 0))
    && (forall n {:trigger inDegree[n]} :: n in g ==> (n in done + queue <==> inDegree[n] == 0))
  }

  /** The state after the seeding loop. */
  lemma KahnStart(g: Graph, deps: map<string, seq<string>>, names: seq<string>, inDegree: map<string, int>)
    requires Distinct(names) && Elems(names) == g.Keys && deps.Keys == g.Keys
    requires forall n {:trigger deps[n]} :: n in deps ==> Distinct(deps[n]) && Elems(deps[n]) == g[n]
    requires inDegree.Keys == g.Keys
    requires forall n {:trigger inDegree[n]} :: n in inDegree ==> inDegree[n] == |deps[n]|
    ensures KahnState(g, inDegree, [], Seeds(names, deps), [])
  {
    var q := Seeds(names, deps);
    SeedsFacts(names, deps);
    forall n | n in g ensures inDegree[n] == |g[n]| {
      DistinctCard(deps[n]);
    }
    forall n | n in g ensures (n in q <==> inDegree[n] == 0) {
      assert n in Elems(names);
    }
    SeedState(g, inDegree, q);
  }

  lemma SeedState(g: Graph, inDegree: map<string, int>, q: seq<string>)
    requires Distinct(q) && Elems(q) <= g.Keys && inDegree.Keys == g.Keys
    requires forall n {:trigger inDegree[n]} :: n in g ==> inDegree[n] == |g[n]|
    requires forall n {:trigger inDegree[n]} :: n in g ==> (n in q <==> inDegree[n] == 0)
    ensures KahnState(g, inDegree, [], q, [])
  {
    SeedOrder(g, q);
    SeedCounts(g, inDegree, q);
  }

  lemma SeedOrder(g: Graph, q: seq<string>)
    requires Distinct(q) && Elems(q) <= g.Keys
    ensures KahnOrder(g, [], q, [])
  {
    var none: seq<string> := [];
    assert none + q == q;
    assert Elems(none) == {};
  }

  lemma SeedCounts(g: Graph, inDegree: map<string, int>, q: seq<string>)
    requires inDegree.Keys == g.Keys
    requires forall n {:trigger inDegree[n]} :: n in g ==> inDegree[n] == |g[n]|
    requires forall n {:trigger inDegree[n]} :: n in g ==> (n in q <==> inDegree[n] == 0)
    ensures KahnCounts(g, inDegree, [], q, [])
  {
    var none: seq<string> := [];
    assert none + q == q;
    assert Elems(none) == {};
    forall n | n in g ensures inDegree[n] == |g[n] - Elems(none)| + (if n in none then 1 else 0) {
      assert g[n] - Elems(none) == g[n];
    }
    forall n | n in g ensures n in none + q <==> inDegree[n] == 0 {
    }
  }

  /** Scheduling the head of the queue: its dependents are the counters to decrement. */
  lemma KahnPop(g: Graph, dt: map<string, seq<string>>, inDegree: map<string, int>,
                done: seq<string>, queue: seq<string>)
    requires KahnState(g, inDegree, done, queue, []) && |queue| > 0 && Reverse(g, dt)
    ensures queue[0] in dt
    ensures KahnState(g, inDegree, done + [queue[0]], queue[1..], dt[queue[0]])
  {
    var q := queue[0];
    var done2 := done + [q];
    assert done2 + queue[1..] == done + queue;
    assert (done + queue)[|done|] == q;
    assert q in Elems(done + queue);
    assert q !in done by {
      forall i | 0 <= i < |done| ensures done[i] != q {
        assert (done + queue)[i] == done[i];
      }
    }
    assert inDegree[q] == 0;
    assert |g[q] - Elems(done)| == 0;
    forall x | x in g[q] ensures x in Elems(done) {
      assert x !in g[q] - Elems(done);
    }
    ElemsSnoc(done, q);
    DependenciesFirstSnoc(g, done, q);
    var rest := dt[q];
    forall n | n in g
      ensures inDegree[n] == |g[n] - Elems(done2)| + (if n in rest then 1 else 0)
    {
      CardWithout(g[n], Elems(done), q);
    }
    forall n | n in rest ensures n !in Elems(done2 + queue[1..]) {
      assert q in g[n] - Elems(done);
      assert inDegree[n] != 0;
    }
    assert KahnOrder(g, done2, queue[1..], rest);
    assert KahnCounts(g, inDegree, done2, queue[1..], rest);
  }

  /** Adding one more scheduled node removes it from the unscheduled dependencies, if it was one. */
  lemma CardWithout(a: set<string>, e: set<string>, q: string)
    requires q !in e
    ensures |a - e| == |a - (e + {q})| + (if q in a then 1 else 0)
  {
    if q in a {
      assert a - e == (a - (e + {q})) + {q};
    } else {
      assert a - e == a - (e + {q});
    }
  }

  /** Decrementing the counter of the next dependent; it is queued when the counter reaches zero. */
  lemma KahnDecrement(g: Graph, inDegree: map<string, int>, done: seq<string>,
                      queue: seq<string>, rest: seq<string>)
    requires KahnState(g, inDegree, done, queue, rest) && |rest| > 0
    ensures rest[0] in inDegree && inDegree[rest[0]] >= 1
    ensures inDegree[rest[0]] == 1 ==>
      KahnState(g, inDegree[rest[0] := 0], done, queue + [rest[0]], rest[1..])
    ensures inDegree[rest[0]] != 1 ==>
      KahnState(g, inDegree[rest[0] := inDegree[rest[0]] - 1], done, queue, rest[1..])
  {
    var d := rest[0];
    SplitFirst(rest, g.Keys, Elems(done + queue));
    var after := inDegree[d := inDegree[d] - 1];
    Decremented(g, inDegree, done, queue, rest);
    if inDegree[d] == 1 {
      assert after == inDegree[d := 0];
      Requeue(g, after, done, queue, rest[1..], d);
    } else {
      Unqueued(g, after, done, queue, rest[1..], d);
    }
  }

  /** The counters after the decrement, relative to the dependents still to visit. */
  lemma Decremented(g: Graph, inDegree: map<string, int>, done: seq<string>,
                    queue: seq<string>, rest: seq<string>)
    requires KahnCounts(g, inDegree, done, queue, rest) && |rest| > 0 && rest[0] in g
    requires rest[0] !in rest[1..] && forall n :: n != rest[0] ==> (n in rest[1..] <==> n in rest)
    ensures var after := inDegree[rest[0] := inDegree[rest[0]] - 1];
      && after.Keys == g.Keys
      && (forall n {:trigger after[n]} :: n in g ==>
           after[n] == |g[n] - Elems(done)| + (if n in rest[1..] then 1 else 0))
      && (forall n {:trigger after[n]} :: n in g && n != rest[0] ==> (n in done + queue <==> after[n] == 0))
  {
    var d := rest[0];
    var after := inDegree[d := inDegree[d] - 1];
    forall n | n in g ensures after[n] == |g[n] - Elems(done)| + (if n in rest[1..] then 1 else 0) {
      if n != d {
        assert after[n] == inDegree[n];
      }
    }
    forall n | n in g && n != d ensures (n in done + queue <==> after[n] == 0) {
      assert after[n] == inDegree[n];
    }
  }

  /** A counter still positive leaves the queue as it is. */
  lemma Unqueued(g: Graph, after: map<string, int>, done: seq<string>, queue: seq<string>,
                 tail: seq<string>, d: string)
    requires Distinct(done + queue) && Elems(done + queue) <= g.Keys && DependenciesFirst(g, done)
    requires Distinct(tail) && Elems(tail) <= g.Keys && Elems(tail) !! Elems(done + queue)
    requires d in g && d !in Elems(done + queue)
    requires after.Keys == g.Keys
    requires forall n {:trigger after[n]} :: n in g ==>
      after[n] == |g[n] - Elems(done)| + (if n in tail then 1 else 0)
    requires forall n {:trigger after[n]} :: n in g && n != d ==> (n in done + queue <==> after[n] == 0)
    requires after[d] != 0
    ensures KahnState(g, after, done, queue, tail)
  {
    assert KahnOrder(g, done, queue, tail);
    assert KahnCounts(g, after, done, queue, tail);
  }

  /** A counter that reached zero puts its node at the back of the queue. */
  lemma Requeue(g: Graph, after: map<string, int>, done: seq<string>, queue: seq<string>,
                tail: seq<string>, d: string)
    requires Distinct(done + queue) && Elems(done + queue) <= g.Keys && DependenciesFirst(g, done)
    requires Distinct(tail) && Elems(tail) <= g.Keys && Elems(tail) !! Elems(done + queue)
    requires d in g && d !in Elems(done + queue) && d !in tail
    requires after.Keys == g.Keys
    requires forall n {:trigger after[n]} :: n in g ==>
      after[n] == |g[n] - Elems(done)| + (if n in tail then 1 else 0)
    requires forall n {:trigger after[n]} :: n in g && n != d ==> (n in done + queue <==> after[n] == 0)
    requires after[d] == 0
    ensures KahnState(g, after, done, queue + [d], tail)
  {
    var dq := done + queue;
    assert done + (queue + [d]) == dq + [d];
    DistinctSnoc(dq, d);
    ElemsSnoc(dq, d);
    forall n | n in g ensures (n in dq + [d] <==> after[n] == 0) {
      assert n in dq + [d] <==> n in dq || n == d;
    }
    assert KahnOrder(g, done, queue + [d], tail);
    assert KahnCounts(g, after, done, queue + [d], tail);
  }

  /** What removing the first entry of a list of distinct nodes keeps. */
  lemma SplitFirst(rest: seq<string>, keys: set<string>, other: set<string>)
    requires |rest| > 0 && Distinct(rest) && Elems(rest) <= keys && Elems(rest) !! other
    ensures Distinct(rest[1..]) && Elems(rest[1..]) <= keys && Elems(rest[1..]) !! other
    ensures rest[0] in keys && rest[0] !in other && rest[0] !in rest[1..]
    ensures forall n :: n != rest[0] ==> (n in rest[1..] <==> n in rest)
  {
    assert rest == [rest[0]] + rest[1..];
    ElemsCons(rest[0], rest[1..]);
    DistinctTail(rest);
  }

  /** When the queue runs dry in an acyclic graph, every node has been scheduled. */
  lemma KahnFinish(g: Graph, inDegree: map<string, int>, done: seq<string>)
    requires KahnState(g, inDegree, done, [], [])
    requires Closed(g) && !HasCycle(g)
    ensures IsTopoOrder(g, done)
  {
    var r := g.Keys - Elems(done);
    LeftoverStuck(g, inDegree, done);
    if r != {} {
      StuckHasCycle(g, r);
      assert false;
    }
    assert done + [] == done;
    forall n | n in g ensures n in Elems(done) {
      assert n !in r;
    }
  }

  /** The unscheduled nodes of a drained run all wait on one another. */
  lemma LeftoverStuck(g: Graph, inDegree: map<string, int>, done: seq<string>)
    requires KahnState(g, inDegree, done, [], [])
    requires Closed(g)
    ensures Stuck(g, g.Keys - Elems(done))
  {
    var r := g.Keys - Elems(done);
    forall n | n in r ensures g[n] * r != {} {
      assert n !in done + [];
      assert n !in [];
      assert |g[n] - Elems(done)| != 0;
      var d :| d in g[n] - Elems(done);
      assert d in g[n] * r;
    }
  }

  /** The nodes whose counter is still positive. */
  function Pending(inDegree: map<string, int>): set<string> {
    set n | n in inDegree && inDegree[n] > 0
  }

  /** A decrement removes a node from the pending set exactly when its counter was one. */
  lemma PendingDecrement(inDegree: map<string, int>, d: string)
    requires d in inDegree
    ensures |Pending(inDegree[d := inDegree[d] - 1])| ==
      |Pending(inDegree)| - (if inDegree[d] == 1 then 1 else 0)
  {
    var after := inDegree[d := inDegree[d] - 1];
    if inDegree[d] == 1 {
      assert Pending(after) == Pending(inDegree) - {d};
    } else {
      assert Pending(after) == Pending(inDegree);
    }
  }
}
