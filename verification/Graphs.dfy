/** Dependency graphs: who requires whom, and when there is no cycle. */
module Graphs {
  import opened Packages

  /** Each node with the list of names it requires; names that are not nodes are no edge. */
  type Graph = map<Name, seq<Name>>

  ghost predicate IsWalk(g: Graph, w: seq<Name>) {
    && (forall i :: 0 <= i < |w| ==> w[i] in g)
    && (forall i :: 0 <= i < |w| - 1 ==> w[i + 1] in g[w[i]])
  }

  ghost predicate IsCycle(g: Graph, w: seq<Name>) {
    |w| >= 2 && IsWalk(g, w) && w[0] == w[|w| - 1]
  }

  ghost predicate Acyclic(g: Graph) {
    forall w :: !IsCycle(g, w)
  }

  /** `n` requires `m`, and `m` leads back to `n`. */
  ghost predicate OnCycle(g: Graph, n: Name, m: Name) {
    exists w :: IsCycle(g, w) && w[0] == n && w[1] == m
  }

  /** `h` was obtained from `g` by deleting nodes and edges. */
  ghost predicate IsSubgraph(h: Graph, g: Graph) {
    forall n | n in h :: n in g && forall r | r in h[n] :: r in g[n]
  }

  lemma SubgraphCycle(h: Graph, g: Graph, w: seq<Name>)
    requires IsSubgraph(h, g) && IsCycle(h, w)
    ensures IsCycle(g, w)
  {
  }

  lemma SubgraphAcyclic(h: Graph, g: Graph)
    requires IsSubgraph(h, g) && Acyclic(g)
    ensures Acyclic(h)
  {
    forall w ensures !IsCycle(h, w) {
      if IsCycle(h, w) { SubgraphCycle(h, g, w); }
    }
  }

  ghost predicate Continues(g: Graph, n: Name)
    requires n in g
  {
    exists r :: r in g[n] && r in g
  }

  /** When every node requires another one, there are walks of every length. */
  lemma {:induction false} LongWalk(g: Graph, n: Name, k: nat) returns (w: seq<Name>)
    requires n in g && k > 0
    requires forall m {:trigger Continues(g, m)} | m in g :: Continues(g, m)
    ensures |w| == k && IsWalk(g, w)
  {
    if k == 1 {
      w := [n];
    } else {
      var v := LongWalk(g, n, k - 1);
      assert Continues(g, v[k - 2]);
      var r :| r in g[v[k - 2]] && r in g;
      w := v + [r];
    }
  }

  /** More entries than possible values: some value occurs twice. */
  lemma {:induction false} Pigeonhole(w: seq<Name>, values: set<Name>) returns (i: nat, j: nat)
    requires Elements(w) <= values && |w| > |values|
    ensures i < j < |w| && w[i] == w[j]
  {
    var last := |w| - 1;
    assert w[last] in Elements(w);
    if k :| 0 <= k < last && w[k] == w[last] {
      return k, last;
    }
    i, j := Pigeonhole(w[..last], values - {w[last]});
  }

  /** A walk that never gets stuck closes on itself. */
  lemma NeverStuckHasCycle(g: Graph) returns (w: seq<Name>)
    requires g != map[]
    requires forall m {:trigger Continues(g, m)} | m in g :: Continues(g, m)
    ensures IsCycle(g, w)
  {
    var n :| n in g;
    var v := LongWalk(g, n, |g.Keys| + 1);
    var i, j := Pigeonhole(v, g.Keys);
    w := v[i..j + 1];
  }

  /** A non-empty graph without cycles has a node that requires no node of the graph. */
  lemma AcyclicHasSink(g: Graph) returns (sink: Name)
    requires Acyclic(g) && g != map[]
    ensures sink in g && forall r | r in g[sink] :: r !in g
  {
    if forall m {:trigger Continues(g, m)} | m in g :: Continues(g, m) {
      var w := NeverStuckHasCycle(g);
      assert false;
    }
    sink :| sink in g && !Continues(g, sink);
  }
}
