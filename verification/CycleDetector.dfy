/** The one-shot dependency-cycle detector of the sorter
    (pkg/v2/solver/solver.go, recursiveCheckDeps and depCycleDetector).
 */
module CycleDetector {
  import opened Packages
  import opened Graphs
  import opened PackageThins

  /** The position at which `x` was first pushed on the stack: its rank in the walk. */
  function Rank(s: seq<Name>, x: Name): (k: nat)
    requires x in s
    ensures k < |s| && s[k] == x && x !in s[..k]
  {
    if s[0] == x then 0
    else
      var k := Rank(s[1..], x);
      assert s[..k + 1] == [s[0]] + s[1..][..k];
      k + 1
  }

  lemma RankStable(s: seq<Name>, t: seq<Name>, x: Name)
    requires s <= t && x in s
    ensures x in t && Rank(t, x) == Rank(s, x)
  {
    var k := Rank(s, x);
    assert t[k] == x && t[..k] == s[..k];
    assert forall i | 0 <= i < k :: t[i] == s[..k][i];
  }

  lemma RankFresh(s: seq<Name>, t: seq<Name>, x: Name)
    requires s <= t && x in t && x !in s
    ensures Rank(t, x) >= |s|
  {
    assert forall i | 0 <= i < |s| :: t[i] == s[i];
  }

  /** Every require of `v` was first pushed after `u`. */
  ghost predicate Beyond(g: Graph, s: seq<Name>, u: Name, v: Name)
    requires u in s && v in g
  {
    forall w | w in g[v] && w in g :: w in s && Rank(s, u) < Rank(s, w)
  }

  /** What the walk leaves behind for a node `u` it pushed: each require `v` was pushed too,
      and when it does not come after `u`, all that `v` still requires does. */
  ghost predicate Safe(g: Graph, s: seq<Name>, u: Name)
    requires u in s && u in g
  {
    forall v | v in g[u] && v in g :: SafeEdge(g, s, u, v)
  }

  ghost predicate SafeEdge(g: Graph, s: seq<Name>, u: Name, v: Name)
    requires u in s && v in g
  {
    v in s && (Rank(s, u) < Rank(s, v) || Beyond(g, s, u, v))
  }

  lemma SafeEdgeStable(g: Graph, s: seq<Name>, h: Graph, t: seq<Name>, u: Name, v: Name)
    requires u in s && v in g && s <= t
    requires IsSubgraph(h, g) && h.Keys == g.Keys
    requires SafeEdge(g, s, u, v)
    ensures u in t && SafeEdge(h, t, u, v)
  {
    RankStable(s, t, u);
    RankStable(s, t, v);
    forall w | w in h[v] && w in h && w in s ensures w in t && Rank(t, w) == Rank(s, w) {
      RankStable(s, t, w);
    }
  }

  lemma SafeStable(g: Graph, s: seq<Name>, h: Graph, t: seq<Name>, u: Name)
    requires u in s && u in g && s <= t
    requires IsSubgraph(h, g) && h.Keys == g.Keys
    requires Safe(g, s, u)
    ensures u in t && Safe(h, t, u)
  {
    forall v | v in h[u] && v in h ensures SafeEdge(h, t, u, v) {
      SafeEdgeStable(g, s, h, t, u, v);
    }
  }

  /** The nodes the walk has pushed since the stack was `s0` are safe. */
  ghost predicate SafeSince(g: Graph, s0: seq<Name>, s: seq<Name>) {
    forall u | u in g && u in s && u !in s0 :: Safe(g, s, u)
  }

  /** A walk that starts on a fully explored stack stays on it. */
  lemma {:induction false} StaysOnStack(g: Graph, s: seq<Name>, w: seq<Name>, i: nat)
    requires SafeSince(g, [], s) && IsWalk(g, w)
    requires i < |w| && w[0] in s
    ensures w[i] in s
  {
    if i > 0 {
      StaysOnStack(g, s, w, i - 1);
      assert Safe(g, s, w[i - 1]);
      assert SafeEdge(g, s, w[i - 1], w[i]);
    }
  }

  /** An entry of the walk with the highest rank. */
  lemma {:induction false} HighestRank(s: seq<Name>, w: seq<Name>) returns (m: nat)
    requires w != [] && forall i | 0 <= i < |w| :: w[i] in s
    ensures m < |w| && forall i | 0 <= i < |w| :: Rank(s, w[i]) <= Rank(s, w[m])
  {
    var last := |w| - 1;
    m := last;
    if last > 0 {
      var k := HighestRank(s, w[..last]);
      if Rank(s, w[k]) > Rank(s, w[last]) { m := k; }
    }
  }

  /** Along two steps from a pushed node the rank rises at one of them. */
  lemma TwoStepsRise(g: Graph, s: seq<Name>, u: Name, v: Name, w: Name)
    requires SafeSince(g, [], s) && u in s && u in g && v in g && w in g
    requires v in g[u] && w in g[v]
    ensures v in s && w in s && (Rank(s, u) < Rank(s, v) || Rank(s, u) < Rank(s, w))
  {
    assert Safe(g, s, u) && SafeEdge(g, s, u, v);
    assert Safe(g, s, v) && SafeEdge(g, s, v, w);
  }

  /** No cycle goes through the root of a finished walk: from the highest-ranked node of such
      a cycle the rank could not rise any more. */
  lemma NoCycleThroughStack(g: Graph, s: seq<Name>, w: seq<Name>)
    requires SafeSince(g, [], s) && IsCycle(g, w)
    ensures w[0] !in s
  {
    if w[0] in s {
      forall i | 0 <= i < |w| ensures w[i] in s { StaysOnStack(g, s, w, i); }
      var m := HighestRank(s, w);
      var a := if m == |w| - 1 then 0 else m;
      var b := if a + 1 == |w| - 1 then 0 else a + 1;
      TwoStepsRise(g, s, w[a], w[b], w[b + 1]);
    }
  }

  /** Nodes the walk has not pushed yet. */
  ghost function Unvisited(nodes: set<Name>, s: seq<Name>): set<Name> {
    set n | n in nodes && n !in s
  }

  lemma UnvisitedShrinks(nodes: set<Name>, s: seq<Name>, t: seq<Name>, x: Name)
    requires s <= t
    ensures |Unvisited(nodes, t)| <= |Unvisited(nodes, s)|
    ensures x in nodes && x in t && x !in s ==> |Unvisited(nodes, t)| < |Unvisited(nodes, s)|
  {
    var a, b := Unvisited(nodes, s), Unvisited(nodes, t);
    assert a == b + (a - b);
    if x in nodes && x in t && x !in s { assert x in a - b; }
  }

  /** The requires graph and the stack of a walk. */
  datatype State = State(g: Graph, s: seq<Name>)

  ghost predicate Fresh(rs: seq<Name>, i: nat, s: seq<Name>) {
    forall k | i <= k < |rs| :: rs[k] !in s
  }

  lemma BreakingLeavesFresh(rs: seq<Name>, s: seq<Name>, p: Name)
    requires p in s
    ensures Fresh(Without(rs, Elements(s)), 0, s) && Fresh(Without(rs, Elements(s)), 0, s + [p])
  {
    var out := Without(rs, Elements(s));
    forall k | 0 <= k < |out| ensures out[k] !in s + [p] { assert out[k] in out; }
  }

  /** The walk for `p` entered with the graph `g` and the stack `s`. Its stack is never popped;
      it ends because every call either visits a new package or re-enters one whose remaining
      requires were all unvisited. */
  ghost function Walk(g: Graph, s: seq<Name>, p: Name): (r: State)
    requires p in g
    ensures s + [p] <= r.s && r.g.Keys == g.Keys
    decreases |Unvisited(g.Keys, s)|, if p in s then 1 else 0, 1, 0
  {
    var h := if p in s then g[p := Without(g[p], Elements(s))] else g;
    UnvisitedShrinks(g.Keys, s, s + [p], p);
    assert h.Keys == g.Keys && (p in s ==> Fresh(h[p], 0, s + [p])) by {
      if p in s { BreakingLeavesFresh(g[p], s, p); }
    }
    WalkAll(h, s + [p], h[p], 0)
  }

  /** Walk the requires `rs` from position `i` on, ignoring those that are no node. */
  ghost function WalkAll(g: Graph, s: seq<Name>, rs: seq<Name>, i: nat): (r: State)
    requires i <= |rs|
    ensures s <= r.s && r.g.Keys == g.Keys
    decreases |Unvisited(g.Keys, s)|, if Fresh(rs, i, s) then 1 else 2, 0, |rs| - i
  {
    if i == |rs| then State(g, s)
    else if rs[i] !in g then WalkAll(g, s, rs, i + 1)
    else
      var w := Walk(g, s, rs[i]);
      assert rs[i] == w.s[|s|];
      UnvisitedShrinks(g.Keys, s, w.s, rs[i]);
      WalkAll(w.g, w.s, rs, i + 1)
  }

  /** A finished sub-walk keeps what the walk before it achieved. */
  lemma SafeSinceExtends(g: Graph, s0: seq<Name>, s: seq<Name>, h: Graph, t: seq<Name>)
    requires s0 <= s <= t && Trims(g, h)
    requires SafeSince(g, s0, s) && SafeSince(h, s, t)
    ensures SafeSince(h, s0, t)
  {
    TrimsIsSubgraph(g, h);
    forall u | u in h && u in t && u !in s0 ensures Safe(h, t, u) {
      if u in s { SafeStable(g, s, h, t, u); }
    }
  }

  /** The require just walked is a safe edge of the pushed node `u`. */
  lemma WalkedEdgeSafe(h: Graph, s: seq<Name>, t: seq<Name>, u: Name, v: Name)
    requires s + [v] <= t && u in s && v in h
    requires v in s ==> forall w | w in h[v] && w in h :: w !in s && w in t
    ensures u in t && SafeEdge(h, t, u, v)
  {
    assert v == t[|s|] && s <= t;
    RankStable(s, t, u);
    if v in s {
      forall w | w in h[v] && w in h ensures w in t && Rank(t, u) < Rank(t, w) { RankFresh(s, t, w); }
    } else {
      RankFresh(s, t, v);
    }
  }

  /** What a finished walk for `p`, entered with the stack `s0`, leaves behind. */
  ghost predicate Visited(h: Graph, s0: seq<Name>, s: seq<Name>, p: Name) {
    && p in h
    && s0 + [p] <= s
    && Elements(s) <= h.Keys
    && SafeSince(h, s0, s)
    && (p in s0 ==> forall w | w in h[p] && w in h :: w !in s0 && w in s)
  }

  /** A finished sub-walk for `v`, followed by the rest of the loop of `u`. */
  lemma SubwalkJoins(g: Graph, s: seq<Name>, h: Graph, t: seq<Name>, g': Graph, s': seq<Name>, u: Name, v: Name)
    requires u in s && Trims(g, h) && Visited(h, s, t, v)
    requires t <= s' && Trims(h, g') && SafeSince(g', t, s')
    ensures Trims(g, g') && SafeSince(g', s, s') && u in s' && SafeEdge(g', s', u, v)
  {
    TrimsTrans(g, h, g');
    SafeSinceExtends(h, s, t, g', s');
    WalkedEdgeSafe(h, s, t, u, v);
    TrimsIsSubgraph(h, g');
    SafeEdgeStable(h, t, g', s', u, v);
  }

  lemma WalkVisits(g: Graph, s: seq<Name>, p: Name)
    requires p in g && Elements(s) <= g.Keys
    ensures Trims(g, Walk(g, s, p).g) && Visited(Walk(g, s, p).g, s, Walk(g, s, p).s, p)
    decreases |Unvisited(g.Keys, s)|, if p in s then 1 else 0, 1, 0
  {
    var h := if p in s then g[p := Without(g[p], Elements(s))] else g;
    var r := Walk(g, s, p);
    UnvisitedShrinks(g.Keys, s, s + [p], p);
    TrimsRefl(g);
    if p in s {
      BreakingLeavesFresh(g[p], s, p);
      assert Trimmed(g[p], h[p], g.Keys);
    }
    assert Trims(g, h);
    WalkAllVisits(h, s + [p], h[p], 0, p);
    TrimsTrans(g, h, r.g);
    TrimsIsSubgraph(h, r.g);
    forall u | u in r.g && u in r.s && u !in s ensures Safe(r.g, r.s, u) {
      if u == p { assert forall v | v in r.g[p] && v in r.g :: SafeEdge(r.g, r.s, p, v); }
    }
  }

  lemma WalkAllVisits(g: Graph, s: seq<Name>, rs: seq<Name>, i: nat, p: Name)
    requires i <= |rs| && Elements(s) <= g.Keys && p in s
    ensures var r := WalkAll(g, s, rs, i);
      && Trims(g, r.g) && Elements(r.s) <= g.Keys && p in r.s
      && SafeSince(r.g, s, r.s)
      && forall k | i <= k < |rs| && rs[k] in g :: SafeEdge(r.g, r.s, p, rs[k])
    decreases |Unvisited(g.Keys, s)|, if Fresh(rs, i, s) then 1 else 2, 0, |rs| - i
  {
    hide Trims, SafeEdge;
    var r := WalkAll(g, s, rs, i);
    if i == |rs| {
      TrimsRefl(g);
    } else if rs[i] !in g {
      WalkAllVisits(g, s, rs, i + 1, p);
    } else {
      var w := Walk(g, s, rs[i]);
      assert rs[i] == w.s[|s|];
      UnvisitedShrinks(g.Keys, s, w.s, rs[i]);
      WalkVisits(g, s, rs[i]);
      WalkAllVisits(w.g, w.s, rs, i + 1, p);
      SubwalkJoins(g, s, w.g, w.s, r.g, r.s, p, rs[i]);
    }
  }

  /** Everything a queued package requires is queued or was already emitted. */
  ghost predicate Resolvable(g: Graph, pinject: set<Name>) {
    forall n | n in g :: forall r | r in g[n] :: r in g || r in pinject
  }

  lemma StillResolvable(g: Graph, h: Graph, pinject: set<Name>)
    requires Trims(g, h) && Resolvable(g, pinject)
    ensures Resolvable(h, pinject)
  {
    TrimsIsSubgraph(g, h);
  }

  lemma WalkTrims(g: Graph, s: seq<Name>, p: Name)
    requires p in g && Elements(s) <= g.Keys
    ensures Trims(g, Walk(g, s, p).g) && Elements(Walk(g, s, p).s) <= g.Keys
  {
    WalkVisits(g, s, p);
  }

  /** The recursive walk on the shared packages computes `Walk`, unless it meets a require
      that is neither queued nor emitted. */
  method RecursiveCheckDeps(p: PackageThin, stack0: seq<Name>, queue: Queue, pinject: set<Name>)
    returns (stack: seq<Name>, res: Result<()>)
    requires Registered(queue) && p.name in queue && queue[p.name] == p
    requires Elements(stack0) <= queue.Keys
    modifies queue.Values
    ensures res.Ok? ==> State(GraphOf(queue), stack) == Walk(old(GraphOf(queue)), stack0, p.name)
    ensures res.Err? ==> !Resolvable(old(GraphOf(queue)), pinject) && Trims(old(GraphOf(queue)), GraphOf(queue))
    decreases |Unvisited(queue.Keys, stack0)|, if p.name in stack0 then 1 else 0, 1, 0
  {
    ghost var g0 := GraphOf(queue);
    TrimsRefl(g0);
    UnvisitedShrinks(queue.Keys, stack0, stack0 + [p.name], p.name);
    if p.name in stack0 {
      BreakingLeavesFresh(p.reqs, stack0, p.name);
      p.BreakCyclesOnRequires(stack0);
      assert Trimmed(g0[p.name], p.reqs, g0.Keys);
    }
    ghost var g := GraphOf(queue);
    assert g == if p.name in stack0 then g0[p.name := Without(g0[p.name], Elements(stack0))] else g0;
    stack, res := WalkRequires(p.reqs, stack0 + [p.name], queue, pinject);
    if res.Err? {
      TrimsTrans(g0, g, GraphOf(queue));
    }
  }

  /** The loop of the walk. It runs over the requires that the package had when it was
      pushed; deeper calls may rewrite the package meanwhile. */
  method WalkRequires(snapshot: seq<Name>, stack0: seq<Name>, queue: Queue, pinject: set<Name>)
    returns (stack: seq<Name>, res: Result<()>)
    requires Registered(queue) && Elements(stack0) <= queue.Keys
    modifies queue.Values
    ensures res.Ok? ==> State(GraphOf(queue), stack) == WalkAll(old(GraphOf(queue)), stack0, snapshot, 0)
    ensures res.Err? ==>
      && (Resolvable(old(GraphOf(queue)), pinject) ==> exists r :: r in snapshot && r !in queue && r !in pinject)
      && Trims(old(GraphOf(queue)), GraphOf(queue))
    decreases |Unvisited(queue.Keys, stack0)|, if Fresh(snapshot, 0, stack0) then 1 else 2, 0, |snapshot|
  {
    ghost var g0, g := GraphOf(queue), GraphOf(queue);
    TrimsRefl(g);
    stack := stack0;
    for i := 0 to |snapshot|
      invariant g == GraphOf(queue) && Trims(g0, g)
      invariant stack0 <= stack && Elements(stack) <= queue.Keys
      invariant WalkAll(g0, stack0, snapshot, 0) == WalkAll(g, stack, snapshot, i)
    {
      var r := snapshot[i];
      if r !in queue {
        if r !in pinject {
          return stack, Err("Error on retrieve requires");
        }
        continue;
      }
      UnvisitedShrinks(queue.Keys, stack0, stack, r);
      WalkTrims(g, stack, r);
      ghost var h := g;
      stack, res := RecursiveCheckDeps(queue[r], stack, queue, pinject);
      g := GraphOf(queue);
      TrimsTrans(g0, h, g);
      if res.Err? {
        if Resolvable(g0, pinject) { StillResolvable(g0, h, pinject); }
        return stack, res;
      }
    }
    return stack, Ok(());
  }

  /** The requires after walking from each package of `order`, each time with a new stack. */
  ghost function Detect(g: Graph, order: seq<Name>): (h: Graph)
    requires Elements(order) <= g.Keys
    ensures h.Keys == g.Keys
  {
    if order == [] then g
    else
      var last := |order| - 1;
      assert Elements(order[..last]) <= Elements(order);
      Walk(Detect(g, order[..last]), [], order[last]).g
  }

  /** No cycle of `g` starts at a node of `roots`. */
  ghost predicate Cleared(g: Graph, roots: set<Name>) {
    forall w | IsCycle(g, w) :: w[0] !in roots
  }

  lemma ClearedNext(g: Graph, roots: set<Name>, p: Name)
    requires Cleared(g, roots) && p in g
    ensures Trims(g, Walk(g, [], p).g) && Cleared(Walk(g, [], p).g, roots + {p})
  {
    var r := Walk(g, [], p);
    WalkVisits(g, [], p);
    TrimsIsSubgraph(g, r.g);
    assert p == r.s[0];
    forall w | IsCycle(r.g, w) ensures w[0] !in roots + {p} {
      SubgraphCycle(r.g, g, w);
      NoCycleThroughStack(r.g, r.s, w);
    }
  }

  lemma {:induction false} DetectClears(g: Graph, order: seq<Name>)
    requires Elements(order) <= g.Keys
    ensures Trims(g, Detect(g, order)) && Cleared(Detect(g, order), Elements(order))
  {
    hide Walk, Trims, IsCycle;
    if order == [] {
      TrimsRefl(g);
    } else {
      var last := |order| - 1;
      assert Elements(order[..last]) <= Elements(order);
      var h := Detect(g, order[..last]);
      DetectClears(g, order[..last]);
      ClearedNext(h, Elements(order[..last]), order[last]);
      TrimsTrans(g, h, Detect(g, order));
      assert Elements(order) == Elements(order[..last]) + {order[last]};
    }
  }

  lemma CycleStartsAtNode(g: Graph, w: seq<Name>)
    requires IsCycle(g, w)
    ensures w[0] in g
  {
  }

  /** Whatever the graph and whatever the order of the walks, afterwards there is no cycle,
      and the detector has done nothing but delete requires between queued packages. */
  lemma DetectBreaksAllCycles(g: Graph, order: seq<Name>)
    requires Elements(order) == g.Keys
    ensures Acyclic(Detect(g, order)) && Trims(g, Detect(g, order))
  {
    DetectClears(g, order);
    forall w ensures !IsCycle(Detect(g, order), w) {
      if IsCycle(Detect(g, order), w) { CycleStartsAtNode(Detect(g, order), w); }
    }
  }

  /** One more walk, from a package that was not a root yet. */
  lemma DetectNext(g: Graph, order: seq<Name>, n: Name)
    requires Elements(order) <= g.Keys && n in g && n !in order && NoDuplicates(order)
    ensures Elements(order + [n]) == Elements(order) + {n} && NoDuplicates(order + [n])
    ensures Detect(g, order + [n]) == Walk(Detect(g, order), [], n).g
    ensures Trims(g, Detect(g, order)) && Trims(g, Detect(g, order + [n]))
  {
    assert (order + [n])[..|order|] == order;
    DetectClears(g, order);
    DetectClears(g, order + [n]);
  }

  /** The last check of the detector for one package. */
  method AllAvailable(p: PackageThin, queue: Queue, pinject: set<Name>) returns (ok: bool)
    ensures ok <==> forall r | r in p.reqs :: r in pinject || r in queue
  {
    for i := 0 to |p.reqs|
      invariant forall k | 0 <= k < i :: p.reqs[k] in pinject || p.reqs[k] in queue
    {
      if p.reqs[i] !in pinject && p.reqs[i] !in queue {
        return false;
      }
    }
    return true;
  }

  /** Walk from every queued package. Which order a Go map and the sort by requires yield does
      not matter: it is the arbitrary `order`. */
  method DepCycleDetector(queue: Queue, pinject: set<Name>) returns (res: Result<()>, ghost order: seq<Name>)
    requires Registered(queue)
    modifies queue.Values
    ensures res.Err? ==> !Resolvable(old(GraphOf(queue)), pinject) && Trims(old(GraphOf(queue)), GraphOf(queue))
    ensures res.Ok? ==>
      && NoDuplicates(order) && Elements(order) == queue.Keys
      && GraphOf(queue) == Detect(old(GraphOf(queue)), order)
  {
    ghost var g := GraphOf(queue);
    order := [];
    var todo := queue.Keys;
    while todo != {}
      invariant todo <= queue.Keys && Elements(order) == queue.Keys - todo && NoDuplicates(order)
      invariant GraphOf(queue) == Detect(g, order)
    {
      var n :| n in todo;
      DetectNext(g, order, n);
      ghost var h := GraphOf(queue);
      if Resolvable(g, pinject) { StillResolvable(g, h, pinject); }
      var _, walked := RecursiveCheckDeps(queue[n], [], queue, pinject);
      if walked.Err? {
        TrimsTrans(g, h, GraphOf(queue));
        res := walked;
        return;
      }
      order := order + [n];
      var ok := AllAvailable(queue[n], queue, pinject);
      if !ok {
        if Resolvable(g, pinject) { StillResolvable(g, GraphOf(queue), pinject); }
        res := Err("Found dependency not resolvable");
        return;
      }
      todo := todo - {n};
    }
    res := Ok(());
  }
}
