/** Dependency graphs, their consumer-first orders and their cycles. */
module Digraph {
  import opened Sequences
  import opened StringOrder

  /** Maps every consumer to the set of its dependencies. */
  type Graph = map<string, set<string>>

  ghost predicate Closed(g: Graph) {
    forall v, d :: v in g && d in g[v] ==> d in g
  }

  ghost predicate IsPath(g: Graph, p: seq<string>) {
    && (forall i :: 0 <= i < |p| ==> p[i] in g)
    && (forall i, j :: 0 <= i < |p| && 0 <= j < |p| && j == i + 1 ==> p[j] in g[p[i]])
  }

  /** Edges lead from each node to the next one, and from the last node back to the first. */
  ghost predicate IsCycle(g: Graph, p: seq<string>) {
    |p| > 0 && IsPath(g, p) && p[0] in g[p[|p| - 1]]
  }

  ghost predicate Acyclic(g: Graph) {
    forall p :: !IsCycle(g, p)
  }

  /** Lists every node once, each consumer before each of its dependencies. */
  ghost predicate Topological(g: Graph, order: seq<string>) {
    && NoDup(order)
    && Elements(order) == g.Keys
    && forall i, j :: 0 <= i < |order| && 0 <= j < |order| && order[j] in g[order[i]] ==> i < j
  }

  /** Lexicographic order on sequences of ids: the first difference decides. */
  ghost predicate LexBefore(a: seq<string>, b: seq<string>) {
    exists k :: 0 <= k < |a| && k < |b| && a[..k] == b[..k] && Less(a[k], b[k])
  }

  ghost predicate LeastTopological(g: Graph, order: seq<string>) {
    && Topological(g, order)
    && forall other :: Topological(g, other) ==> other == order || LexBefore(order, other)
  }

  /** Every consumer of `v` is placed, and `v` itself is not. */
  ghost predicate Available(g: Graph, placed: set<string>, v: string) {
    && v in g && v !in placed
    && forall u :: u in g && v in g[u] ==> u in placed
  }

  /** At each position stands the least id available after the ones before it. */
  ghost predicate Greedy(g: Graph, order: seq<string>) {
    forall k :: 0 <= k < |order| ==> GreedyAt(g, order, k)
  }

  ghost predicate GreedyAt(g: Graph, order: seq<string>, k: nat)
    requires k < |order|
  {
    && Available(g, Elements(order[..k]), order[k])
    && forall v :: Available(g, Elements(order[..k]), v) ==> !Less(v, order[k])
  }

  lemma GreedyNoDup(g: Graph, order: seq<string>)
    requires Greedy(g, order)
    ensures NoDup(order) && Elements(order) <= g.Keys
  {
    forall i, j | 0 <= i < j < |order| ensures order[i] != order[j] {
      assert GreedyAt(g, order, j);
      assert order[i] in order[..j];
    }
    forall v | v in Elements(order) ensures v in g {
      var i :| 0 <= i < |order| && order[i] == v;
      assert GreedyAt(g, order, i);
    }
  }

  lemma GreedyIsTopological(g: Graph, order: seq<string>)
    requires Greedy(g, order) && Elements(order) == g.Keys
    ensures Topological(g, order)
  {
    GreedyNoDup(g, order);
    forall i, j | 0 <= i < |order| && 0 <= j < |order| && order[i] in g && order[j] in g[order[i]]
      ensures i < j
    {
      assert GreedyAt(g, order, j);
      assert order[i] in order[..j];
    }
    assert forall i :: 0 <= i < |order| ==> order[i] in Elements(order);
  }

  lemma FirstDifference(a: seq<string>, b: seq<string>) returns (k: nat)
    requires |a| == |b| && a != b
    ensures k < |a| && a[..k] == b[..k] && a[k] != b[k]
  {
    k := 0;
    assert a == a[..|a|] && b == b[..|b|];
    while k < |a| && a[k] == b[k]
      invariant k <= |a| && a[..k] == b[..k]
    {
      assert a[..k + 1] == a[..k] + [a[k]] && b[..k + 1] == b[..k] + [b[k]];
      k := k + 1;
    }
  }

  lemma TopologicalLength(g: Graph, order: seq<string>)
    requires Topological(g, order)
    ensures |order| == |g.Keys|
  {
    NoDupCardinality(order);
  }

  /** What a consumer-first order places next was available. */
  lemma TopologicalPicksAvailable(g: Graph, order: seq<string>, k: nat)
    requires Topological(g, order) && k < |order|
    ensures Available(g, Elements(order[..k]), order[k])
  {
    assert order[k] in Elements(order);
    forall u | u in g && order[k] in g[u] ensures u in Elements(order[..k]) {
      assert u in Elements(order);
      var i :| 0 <= i < |order| && order[i] == u;
      assert i < k && order[..k][i] == u;
    }
  }

  /** Picking the least available id at every step gives the least of all consumer-first orders. */
  lemma GreedyIsLeast(g: Graph, order: seq<string>)
    requires Greedy(g, order) && Elements(order) == g.Keys
    ensures LeastTopological(g, order)
  {
    GreedyIsTopological(g, order);
    forall other | Topological(g, other) && other != order
      ensures LexBefore(order, other)
    {
      TopologicalLength(g, order);
      TopologicalLength(g, other);
      var k := FirstDifference(order, other);
      TopologicalPicksAvailable(g, other, k);
      assert GreedyAt(g, order, k);
      Trichotomy(order[k], other[k]);
    }
  }

  lemma LeastIsUnique(g: Graph, a: seq<string>, b: seq<string>)
    requires LeastTopological(g, a) && LeastTopological(g, b)
    ensures a == b
  {
    if a != b {
      var i :| 0 <= i < |a| && i < |b| && a[..i] == b[..i] && Less(a[i], b[i]);
      var j :| 0 <= j < |b| && j < |a| && b[..j] == a[..j] && Less(b[j], a[j]);
      if i == j {
        Asymmetric(a[i], b[i]);
      } else if i < j {
        assert a[i] == a[..j][i] == b[..j][i] == b[i];
        Irreflexive(a[i]);
      } else {
        assert a[j] == a[..i][j] == b[..i][j] == b[j];
        Irreflexive(a[j]);
      }
    }
  }

  /** A graph with a consumer-first order has no cycle. */
  lemma TopologicalIsAcyclic(g: Graph, order: seq<string>)
    requires Topological(g, order)
    ensures Acyclic(g)
  {
    forall p ensures !IsCycle(g, p) {
      if IsCycle(g, p) {
        assert forall i :: 0 <= i < |p| ==> p[i] in Elements(order);
        var first :| 0 <= first < |order| && order[first] == p[0];
        var k, at := 0, first;
        while k < |p| - 1
          invariant 0 <= k < |p|
          invariant first <= at < |order| && order[at] == p[k]
        {
          assert p[k + 1] in Elements(order);
          var next :| 0 <= next < |order| && order[next] == p[k + 1];
          k, at := k + 1, next;
        }
      }
    }
  }

  ghost predicate HasConsumerIn(g: Graph, rest: set<string>, v: string) {
    exists u :: u in rest && u in g && v in g[u]
  }

  /** If every node of a non-empty set has a consumer in the set, the set holds a cycle:
      follow consumers backwards until, by the pigeonhole principle, one repeats. */
  lemma StuckHasCycle(g: Graph, rest: set<string>)
    requires rest != {} && rest <= g.Keys
    requires forall v {:trigger HasConsumerIn(g, rest, v)} :: v in rest ==> HasConsumerIn(g, rest, v)
    ensures !Acyclic(g)
  {
    var v :| v in rest;
    var p := ExtendToCycle(g, rest, [v]);
    assert IsCycle(g, p);
  }

  /** A path stays one when it is cut short or entered through a consumer of its first node. */
  lemma PrependConsumer(g: Graph, u: string, path: seq<string>, k: nat)
    requires 0 < k <= |path| && IsPath(g, path)
    requires u in g && path[0] in g[u]
    ensures IsPath(g, [u] + path[..k])
  {
    var p := [u] + path[..k];
    forall i, j | 0 <= i < |p| && 0 <= j < |p| && j == i + 1 ensures p[i] in g && p[j] in g[p[i]] {
      if i > 0 {
        assert p[i] == path[i - 1] && p[j] == path[i];
      }
    }
  }

  lemma ExtendToCycle(g: Graph, rest: set<string>, path: seq<string>) returns (p: seq<string>)
    requires rest <= g.Keys
    requires forall v {:trigger HasConsumerIn(g, rest, v)} :: v in rest ==> HasConsumerIn(g, rest, v)
    requires |path| > 0 && NoDup(path) && IsPath(g, path)
    requires Elements(path) <= rest
    ensures IsCycle(g, p)
    decreases |rest| - |path|
  {
    assert path[0] in Elements(path);
    assert HasConsumerIn(g, rest, path[0]);
    var u :| u in rest && u in g && path[0] in g[u];
    if u in path {
      var k :| 0 <= k < |path| && path[k] == u;
      p := CloseCycle(g, u, path, k);
    } else {
      assert IsPath(g, [u] + path) by {
        PrependConsumer(g, u, path, |path|);
        assert path[..|path|] == path;
      }
      FreshPrepend(path, u);
      SubsetCardinality(Elements([u] + path), rest);
      p := ExtendToCycle(g, rest, [u] + path);
    }
  }

  lemma CloseCycle(g: Graph, u: string, path: seq<string>, k: nat) returns (p: seq<string>)
    requires k < |path| && IsPath(g, path) && path[k] == u
    requires u in g && path[0] in g[u]
    ensures IsCycle(g, p)
  {
    if k == 0 {
      p := [u];
    } else {
      p := [u] + path[..k];
      PrependConsumer(g, u, path, k);
      assert p[|p| - 1] == path[k - 1];
    }
  }
}
