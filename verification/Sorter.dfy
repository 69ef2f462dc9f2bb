/** The dependency sorter (pkg/v2/solver/solver.go, sortPkgsThinArr): a worklist over Go maps,
    so every scan of the queue visits it in an arbitrary order.
 */
module Sorter {
  import opened Packages
  import opened Graphs
  import opened PackageThins
  import opened CycleDetector
  import opened DetectorEffect

  predicate DistinctNames(list: seq<PackageThin>) {
    forall i, j :: 0 <= i < j < |list| ==> list[i].name != list[j].name
  }

  function NamesOf(list: seq<PackageThin>): (r: seq<Name>)
    ensures |r| == |list| && forall i | 0 <= i < |list| :: r[i] == list[i].name
  {
    seq(|list|, i requires 0 <= i < |list| => list[i].name)
  }

  ghost function ByName(list: seq<PackageThin>): (q: Queue)
    requires DistinctNames(list)
    ensures forall p | p in list :: p.name in q && q[p.name] == p
    ensures forall n | n in q :: q[n] in list && q[n].name == n
  {
    map p | p in list :: p.name := p
  }

  // ----- what an order of the packages is worth -----

  /** The position of the first require that is not in `seen`, or the length if there is none. */
  function FirstMissing(reqs: seq<Name>, seen: set<Name>): (k: nat)
    ensures k <= |reqs| && (forall j | 0 <= j < k :: reqs[j] in seen)
    ensures k < |reqs| ==> reqs[k] !in seen
  {
    if reqs == [] || reqs[0] !in seen then 0 else 1 + FirstMissing(reqs[1..], seen)
  }

  /** If `n` is emitted when only `seen` is, then nothing is missing, or the first missing
      require of `n` is a package that is still to come and itself requires `n`. */
  ghost predicate Justified(g: Graph, seen: set<Name>, n: Name)
    requires n in g
  {
    var k := FirstMissing(g[n], seen);
    k < |g[n]| ==> g[n][k] in g && n in g[g[n][k]]
  }

  ghost predicate AllJustified(g: Graph, order: seq<Name>) {
    forall i | 0 <= i < |order| :: order[i] in g && Justified(g, Elements(order[..i]), order[i])
  }

  /** The packages of `order` are emitted, some are not, and none of those may be. */
  ghost predicate DeadEnd(g: Graph, order: seq<Name>) {
    && AllJustified(g, order) && Elements(order) < g.Keys
    && forall n | n in g && n !in order :: !Justified(g, Elements(order), n)
  }

  /** On the way to the order `names` the sort came to a dead end. */
  ghost predicate GotStuck(g: Graph, names: seq<Name>) {
    exists k: nat :: k <= |names| && DeadEnd(g, names[..k])
  }

  /** Every package comes after all it requires. */
  ghost predicate TopoSorted(g: Graph, order: seq<Name>) {
    forall i | 0 <= i < |order| :: order[i] in g && forall r | r in g[order[i]] :: r in order[..i]
  }

  /** `n` requires at most packages that require nothing. */
  ghost predicate Shallow(g: Graph, n: Name)
    requires n in g
  {
    forall r | r in g[n] :: r in g && g[r] == []
  }

  /** The order begins with packages that come after all they require, and all that require at most
      packages without requires are among these: mutual requires are not broken before. */
  ghost predicate StartsSorted(g: Graph, order: seq<Name>) {
    exists k: nat :: k <= |order| && TopoSorted(g, order[..k]) && forall n | n in g && Shallow(g, n) :: n in order[..k]
  }

  lemma SortedStart(g: Graph, start: seq<Name>, order: seq<Name>)
    requires start <= order && TopoSorted(g, start) && forall n | n in g && Shallow(g, n) :: n in start
    ensures StartsSorted(g, order)
  {
    assert order[..|start|] == start;
  }

  /** Every require is one of the packages of the graph. */
  ghost predicate Closed(g: Graph) {
    Resolvable(g, {})
  }

  /** No two packages require each other, and none requires itself. */
  ghost predicate NoneMutual(g: Graph) {
    forall n, r | n in g && r in g && r in g[n] :: n !in g[r]
  }

  lemma AcyclicIsNoneMutual(g: Graph)
    requires Acyclic(g)
    ensures NoneMutual(g)
  {
    forall n, r | n in g && r in g && r in g[n] ensures n !in g[r] {
      assert IsCycle(g, [n, r, n]) <==> n in g[r];
    }
  }

  /** A justified order of all packages is a topological order exactly if no two of them require each
      other: a missing require that requires the package back is all that justifies it early. */
  lemma JustifiedIsTopoSorted(g: Graph, order: seq<Name>)
    requires AllJustified(g, order) && g.Keys <= Elements(order)
    ensures TopoSorted(g, order) <==> NoneMutual(g)
  {
    if NoneMutual(g) {
      forall i, r | 0 <= i < |order| && r in g[order[i]] ensures r in order[..i] {
        assert Justified(g, Elements(order[..i]), order[i]);
      }
    }
    if TopoSorted(g, order) {
      forall n, r | n in g && r in g && r in g[n] ensures n !in g[r] {
        assert n in order && r in order;
        RequiredEarlier(g, order, n, r);
        if n in g[r] { RequiredEarlier(g, order, r, n); }
      }
    }
  }

  lemma RequiredEarlier(g: Graph, order: seq<Name>, n: Name, r: Name)
    requires TopoSorted(g, order) && n in g && n in order && r in order && r in g[n]
    ensures Rank(order, r) < Rank(order, n)
  {
    var i := Rank(order, n);
    assert order[i] == n && r in order[..i];
    RankStable(order[..i], order, r);
  }

  /** What the order `names` of packages that require each other as in `g` is worth: the sort kept the
      requires `kept`, and no two packages requiring each other it respected all of these. */
  ghost predicate Respects(g: Graph, kept: Graph, names: seq<Name>) {
    && Trims(g, kept)
    && AllJustified(kept, names)
    && (NoneMutual(g) ==> TopoSorted(kept, names))
    && StartsSorted(g, names)
    && (kept == g <==> !GotStuck(g, names))
    && (Closed(g) && Acyclic(g) ==> kept == g)
    && (ListedOnce(g) ==> SparesOneWayIn(g, kept))
  }

  /** Some package may be emitted whatever was emitted before. */
  ghost predicate NoDeadEnd(g: Graph) {
    forall seen: set<Name> | seen < g.Keys :: exists n :: n in g && n !in seen && Justified(g, seen, n)
  }

  lemma NotDeadEnd(g: Graph, order: seq<Name>)
    requires NoDeadEnd(g)
    ensures !DeadEnd(g, order)
  {
    assert forall n | n in g && n !in Elements(order) :: n !in order;
  }

  /** Where no dead end is possible, no require is lost, cycles or not. */
  lemma NothingIsLost(g: Graph, kept: Graph, names: seq<Name>)
    requires Respects(g, kept, names) && NoDeadEnd(g)
    ensures kept == g
  {
    forall k: nat | k <= |names| ensures !DeadEnd(g, names[..k]) { NotDeadEnd(g, names[..k]); }
  }

  /** A justified order of all packages never came to a dead end. */
  lemma JustifiedIsNotStuck(g: Graph, names: seq<Name>)
    requires AllJustified(g, names) && NoDuplicates(names) && g.Keys <= Elements(names)
    ensures !GotStuck(g, names)
  {
    hide Justified;
    forall k: nat | k <= |names| ensures !DeadEnd(g, names[..k]) {
      if k < |names| {
        assert names[k] !in names[..k] && Justified(g, Elements(names[..k]), names[k]);
      } else {
        assert names[..k] == names;
      }
    }
  }

  lemma RespectsKept(g: Graph, kept: Graph, names: seq<Name>)
    requires Trims(g, kept) && AllJustified(kept, names) && NoDuplicates(names) && g.Keys <= Elements(names)
    requires StartsSorted(g, names)
    requires Closed(g) && Acyclic(g) ==> kept == g
    requires kept == g || GotStuck(g, names)
    requires ListedOnce(g) ==> SparesOneWayIn(g, kept)
    ensures Respects(g, kept, names)
  {
    if kept == g { JustifiedIsNotStuck(g, names); }
    if NoneMutual(g) {
      TrimsIsSubgraph(g, kept);
      JustifiedIsTopoSorted(kept, names);
    }
  }

  /** Every package comes after all that it requires and that does not lead back to it. */
  ghost predicate OffCyclesSorted(g: Graph, names: seq<Name>) {
    forall i, r | 0 <= i < |names| && names[i] in g && r in g[names[i]] && !OnCycle(g, names[i], r) :: r in names[..i]
  }

  /** The sort respects every require off the cycles, if no two packages require each other and packages
      to which two ways lead require only what leads back to them. */
  lemma OffCyclesRespected(g: Graph, kept: Graph, names: seq<Name>)
    requires Respects(g, kept, names) && NoneMutual(g) && ListedOnce(g) && ManyWaysOnCyclesOnly(g)
    ensures OffCyclesSorted(g, names)
  {
    SparesOffCycles(g, kept);
  }

  lemma JustifiedSnoc(g: Graph, order: seq<Name>, n: Name)
    requires AllJustified(g, order) && n in g && Justified(g, Elements(order), n)
    ensures AllJustified(g, order + [n])
  {
    var o := order + [n];
    forall i | 0 <= i < |o| ensures o[i] in g && Justified(g, Elements(o[..i]), o[i]) {
      if i < |order| { assert o[..i] == order[..i]; } else { assert o[..i] == order; }
    }
  }

  /** The detector does not touch what justifies the packages already emitted. */
  lemma JustifiedAfterDetector(g: Graph, h: Graph, queued: set<Name>, order: seq<Name>)
    requires AllJustified(g, order) && h.Keys == g.Keys
    requires forall n | n in order :: n !in queued
    requires forall n | n in g :: if n in queued then Trimmed(g[n], h[n], queued) else h[n] == g[n]
    ensures AllJustified(h, order)
  {
    forall i | 0 <= i < |order| ensures Justified(h, Elements(order[..i]), order[i]) {
      var n, seen := order[i], Elements(order[..i]);
      assert Justified(g, seen, n);
      var k := FirstMissing(g[n], seen);
      if k < |g[n]| && g[n][k] in queued {
        assert Trimmed(g[g[n][k]], h[g[n][k]], queued);
      }
    }
  }

  // ----- the scans -----

  /** The state of the sort: emitted packages, their names, and the names still queued. */
  ghost predicate Sorting(all: Queue, g: Graph, ans: seq<PackageThin>, pinject: set<Name>, queued: set<Name>) {
    && g.Keys == all.Keys
    && DistinctNames(ans)
    && pinject == Elements(NamesOf(ans))
    && (forall p | p in ans :: p.name in all && all[p.name] == p)
    && queued <= all.Keys && queued !! pinject
    && AllJustified(g, NamesOf(ans))
  }

  lemma Emit(all: Queue, g: Graph, ans: seq<PackageThin>, pinject: set<Name>, queued: set<Name>, p: PackageThin)
    requires Sorting(all, g, ans, pinject, queued)
    requires p.name in queued && all[p.name] == p
    requires Justified(g, pinject, p.name)
    ensures Sorting(all, g, ans + [p], pinject + {p.name}, queued - {p.name})
  {
    assert NamesOf(ans + [p]) == NamesOf(ans) + [p.name];
    JustifiedSnoc(g, NamesOf(ans), p.name);
    forall i | 0 <= i < |ans| ensures ans[i].name != p.name { assert NamesOf(ans)[i] in pinject; }
  }

  ghost predicate Submap(queue: Queue, all: Queue) {
    forall n | n in queue :: n in all && all[n] == queue[n]
  }

  lemma SubmapValues(queue: Queue, all: Queue)
    requires Submap(queue, all)
    ensures queue.Values <= all.Values
  {
  }

  /** May `p` be emitted? Only the second phase, with `breakCycles`, accepts a package whose
      first missing require is queued and requires the package back. */
  method CanInject(p: PackageThin, queue: Queue, pinject: set<Name>, breakCycles: bool) returns (allReqok: bool)
    ensures var k := FirstMissing(p.reqs, pinject);
      allReqok <==>
        || k == |p.reqs|
        || (breakCycles && p.reqs[k] in queue && queue[p.reqs[k]].RequirePackage(p))
  {
    ghost var k := FirstMissing(p.reqs, pinject);
    for i := 0 to |p.reqs|
      invariant i <= k
    {
      if p.reqs[i] !in pinject {
        return breakCycles && p.reqs[i] in queue && queue[p.reqs[i]].RequirePackage(p);
      }
    }
    return true;
  }

  /** A package all of whose requires are emitted. */
  ghost predicate Ready(g: Graph, pinject: set<Name>, n: Name)
    requires n in g
  {
    FirstMissing(g[n], pinject) == |g[n]|
  }

  ghost predicate AllPlaced(names: set<Name>, pinject: set<Name>, queued: set<Name>) {
    forall n | n in names :: n in pinject || n in queued
  }

  lemma ReadyIsTopoSorted(all: Queue, g: Graph, ans: seq<PackageThin>, pinject: set<Name>, queued: set<Name>,
                          n: Name, p: PackageThin)
    requires Sorting(all, g, ans, pinject, queued) && n in g && Ready(g, pinject, n) && p.name == n
    ensures TopoSorted(g, NamesOf(ans)) ==> TopoSorted(g, NamesOf(ans + [p]))
  {
    var o := NamesOf(ans);
    assert NamesOf(ans + [p]) == o + [n];
    if TopoSorted(g, o) {
      forall i | 0 <= i < |o| + 1
        ensures (o + [n])[i] in g && forall r | r in g[(o + [n])[i]] :: r in (o + [n])[..i]
      {
        if i < |o| { assert (o + [n])[..i] == o[..i]; } else { assert (o + [n])[..i] == o; }
      }
    }
  }

  /** What `CanInject` answers, in terms of the graph. */
  ghost predicate MayEmit(g: Graph, queued: set<Name>, pinject: set<Name>, n: Name, breakCycles: bool)
    requires n in g && queued <= g.Keys
  {
    var k := FirstMissing(g[n], pinject);
    k == |g[n]| || (breakCycles && g[n][k] in queued && n in g[g[n][k]])
  }

  lemma MayEmitMeans(g: Graph, queued: set<Name>, pinject0: set<Name>, pinject: set<Name>, n: Name, breakCycles: bool)
    requires n in g && queued <= g.Keys && pinject0 <= pinject
    ensures MayEmit(g, queued, pinject, n, breakCycles) ==> Justified(g, pinject, n)
    ensures MayEmit(g, queued, pinject, n, false) <==> Ready(g, pinject, n)
    ensures Ready(g, pinject0, n) ==> MayEmit(g, queued, pinject, n, breakCycles)
    ensures breakCycles && AllPlaced(g.Keys, pinject0, queued) && pinject == pinject0 && Justified(g, pinject0, n) ==>
      MayEmit(g, queued, pinject, n, breakCycles)
  {
  }

  /** Where a scan of the packages `queue0` stands: `todo` are still to be looked at, `live` not emitted. */
  ghost predicate Scanned(g: Graph, queue0: set<Name>, ans0: seq<PackageThin>, pinject0: set<Name>,
                          breakCycles: bool, ans: seq<PackageThin>, pinject: set<Name>, todo: set<Name>,
                          live: set<Name>)
    requires queue0 <= g.Keys && live <= queue0
  {
    && ans0 <= ans && (live == queue0 ==> ans == ans0 && pinject == pinject0)
    && (forall n | n in live && n !in todo :: !Ready(g, pinject0, n))
    && (live == queue0 && breakCycles && AllPlaced(g.Keys, pinject0, queue0) ==>
          forall n | n in live && n !in todo :: !Justified(g, pinject0, n))
    && (!breakCycles && TopoSorted(g, NamesOf(ans0)) ==> TopoSorted(g, NamesOf(ans)))
  }

  lemma ScanStarts(g: Graph, queue0: set<Name>, ans0: seq<PackageThin>, pinject0: set<Name>, breakCycles: bool)
    requires queue0 <= g.Keys
    ensures Scanned(g, queue0, ans0, pinject0, breakCycles, ans0, pinject0, queue0, queue0)
  {
  }

  lemma ScanStep(all: Queue, g: Graph, queue0: set<Name>, ans0: seq<PackageThin>, pinject0: set<Name>,
                 breakCycles: bool, ans: seq<PackageThin>, pinject: set<Name>, todo: set<Name>, live: set<Name>,
                 p: PackageThin, emitted: bool)
    requires queue0 <= g.Keys && live <= queue0 && pinject0 <= pinject && Sorting(all, g, ans, pinject, live)
    requires Scanned(g, queue0, ans0, pinject0, breakCycles, ans, pinject, todo, live)
    requires p.name in todo && todo <= live && (emitted <==> MayEmit(g, queue0, pinject, p.name, breakCycles))
    ensures if emitted then
        Scanned(g, queue0, ans0, pinject0, breakCycles, ans + [p], pinject + {p.name}, todo - {p.name}, live - {p.name})
      else Scanned(g, queue0, ans0, pinject0, breakCycles, ans, pinject, todo - {p.name}, live)
  {
    hide Sorting, TopoSorted, Justified, Ready, AllPlaced, MayEmit;
    MayEmitMeans(g, queue0, pinject0, pinject, p.name, breakCycles);
    if emitted {
      if !breakCycles { ReadyIsTopoSorted(all, g, ans, pinject, live, p.name, p); }
      assert p.name in queue0 && p.name !in live - {p.name};
    }
  }

  lemma ScanEnds(g: Graph, queue0: set<Name>, ans0: seq<PackageThin>, pinject0: set<Name>, breakCycles: bool,
                 ans: seq<PackageThin>, pinject: set<Name>, live: set<Name>)
    requires queue0 <= g.Keys && live <= queue0
    requires Scanned(g, queue0, ans0, pinject0, breakCycles, ans, pinject, {}, live)
    ensures ans0 <= ans && forall n | n in live :: !Ready(g, pinject0, n)
    ensures live == queue0 ==> ans == ans0 && pinject == pinject0
    ensures live == queue0 && breakCycles && AllPlaced(g.Keys, pinject0, queue0) ==>
      forall n | n in live :: !Justified(g, pinject0, n)
    ensures !breakCycles && TopoSorted(g, NamesOf(ans0)) ==> TopoSorted(g, NamesOf(ans))
  {
  }

  lemma Removed(queue: Queue, gone: set<Name>, live: set<Name>, pinject0: set<Name>, pinject: set<Name>, all: Queue)
    requires gone <= queue.Keys && Submap(queue, all)
    requires forall n :: n in live <==> n in queue && n !in gone
    requires forall n :: n in pinject <==> n in pinject0 || n in gone
    ensures (queue - gone).Keys == live && Submap(queue - gone, all)
    ensures |queue - gone| == |queue| - |gone|
    ensures forall n :: n in pinject || n in queue - gone <==> n in pinject0 || n in queue
  {
    assert (queue - gone).Keys == queue.Keys - gone == live;
    assert |queue.Keys - gone| == |queue.Keys| - |gone|;
  }

  /** The loop of a scan, in an arbitrary order. A package emitted counts at once for the rest of it. */
  method EmitQueued(ghost all: Queue, queue0: Queue, ans0: seq<PackageThin>, pinject0: set<Name>, breakCycles: bool)
    returns (ans: seq<PackageThin>, pinject: set<Name>, pkgs2remove: set<Name>, ghost live: set<Name>)
    requires Registered(all) && Submap(queue0, all)
    requires Sorting(all, GraphOf(all), ans0, pinject0, queue0.Keys)
    ensures GraphOf(all) == old(GraphOf(all)) && queue0.Keys <= GraphOf(all).Keys
    ensures pkgs2remove <= queue0.Keys && live <= queue0.Keys
    ensures forall n :: n in live <==> n in queue0 && n !in pkgs2remove
    ensures forall n :: n in pinject <==> n in pinject0 || n in pkgs2remove
    ensures Sorting(all, GraphOf(all), ans, pinject, live)
    ensures Scanned(GraphOf(all), queue0.Keys, ans0, pinject0, breakCycles, ans, pinject, {}, live)
  {
    ghost var g := GraphOf(all);
    assert g.Keys == all.Keys;
    hide Scanned, Sorting, TopoSorted, Justified, Ready, AllPlaced;
    ScanStarts(g, queue0.Keys, ans0, pinject0, breakCycles);
    ans, pinject, pkgs2remove, live := ans0, pinject0, {}, queue0.Keys;
    var todo := queue0.Keys;
    while todo != {}
      invariant todo <= live && forall n :: n in live <==> n in queue0 && n !in pkgs2remove
      invariant Sorting(all, g, ans, pinject, live)
      invariant pkgs2remove <= queue0.Keys && forall n :: n in pinject <==> n in pinject0 || n in pkgs2remove
      invariant Scanned(g, queue0.Keys, ans0, pinject0, breakCycles, ans, pinject, todo, live)
    {
      var k :| k in todo;
      var p := queue0[k];
      var allReqok := CanInject(p, queue0, pinject, breakCycles);
      assert allReqok <==> MayEmit(g, queue0.Keys, pinject, k, breakCycles);
      MayEmitMeans(g, queue0.Keys, pinject0, pinject, k, breakCycles);
      ScanStep(all, g, queue0.Keys, ans0, pinject0, breakCycles, ans, pinject, todo, live, p, allReqok);
      if allReqok {
        Emit(all, g, ans, pinject, live, p);
        ans := ans + [p];
        pinject := pinject + {p.name};
        pkgs2remove := pkgs2remove + {k};
        live := live - {k};
      }
      todo := todo - {k};
    }
  }

  /** One scan of the queue. The packages emitted leave the queue only at its end. */
  method ScanQueue(ghost all: Queue, queue0: Queue, ans0: seq<PackageThin>, pinject0: set<Name>, breakCycles: bool)
    returns (ans: seq<PackageThin>, pinject: set<Name>, queue: Queue)
    requires Registered(all) && Submap(queue0, all)
    requires Sorting(all, GraphOf(all), ans0, pinject0, queue0.Keys)
    ensures GraphOf(all) == old(GraphOf(all))
    ensures Submap(queue, all) && Sorting(all, GraphOf(all), ans, pinject, queue.Keys)
    ensures forall n :: n in pinject || n in queue <==> n in pinject0 || n in queue0
    ensures queue.Keys <= queue0.Keys && |queue| <= |queue0|
    ensures forall n | n in queue :: !Ready(GraphOf(all), pinject0, n)
    ensures (exists n :: n in queue0 && Ready(GraphOf(all), pinject0, n)) ==> |queue| < |queue0|
    ensures !breakCycles && TopoSorted(GraphOf(all), NamesOf(ans0)) ==> TopoSorted(GraphOf(all), NamesOf(ans))
    ensures breakCycles && AllPlaced(all.Keys, pinject0, queue0.Keys) ==>
      (exists n :: n in queue0 && Justified(GraphOf(all), pinject0, n)) ==> |queue| < |queue0|
    ensures ans0 <= ans && (|queue| == |queue0| ==> ans == ans0 && pinject == pinject0 && queue == queue0)
  {
    ghost var g := GraphOf(all);
    assert g.Keys == all.Keys;
    hide Scanned, Sorting, TopoSorted, Justified, Ready, AllPlaced;
    var pkgs2remove;
    ghost var live;
    ans, pinject, pkgs2remove, live := EmitQueued(all, queue0, ans0, pinject0, breakCycles);
    queue := queue0 - pkgs2remove;
    Removed(queue0, pkgs2remove, live, pinject0, pinject, all);
    ScanEnds(g, queue0.Keys, ans0, pinject0, breakCycles, ans, pinject, live);
    if |queue| == |queue0| { assert pkgs2remove == {} && live == queue0.Keys && pinject == pinject0; }
  }

  // ----- the sort -----

  ghost function Restrict(g: Graph, nodes: set<Name>): Graph {
    map n | n in g && n in nodes :: g[n]
  }

  /** As long as the queue has no cycle, some queued package is ready. */
  lemma SomeReady(all: Queue, g: Graph, ans: seq<PackageThin>, pinject: set<Name>, queued: set<Name>)
    requires Sorting(all, g, ans, pinject, queued) && queued != {} && AllPlaced(g.Keys, pinject, queued)
    requires Closed(g) && Acyclic(Restrict(g, queued))
    ensures exists n :: n in queued && Ready(g, pinject, n)
  {
    var h := Restrict(g, queued);
    assert h.Keys == queued;
    var n := AcyclicHasSink(h);
    assert forall r | r in g[n] :: r in pinject;
    assert Ready(g, pinject, n);
  }

  /** The state is still consistent after the detector rewrote the queued packages. */
  lemma SortingAfterDetector(all: Queue, g: Graph, h: Graph, ans: seq<PackageThin>, pinject: set<Name>,
                             queued: set<Name>)
    requires Sorting(all, g, ans, pinject, queued) && h.Keys == g.Keys
    requires Trims(Restrict(g, queued), Restrict(h, queued))
    requires forall n | n in g && n !in queued :: h[n] == g[n]
    ensures Sorting(all, h, ans, pinject, queued) && Trims(g, h)
  {
    var rg, rh := Restrict(g, queued), Restrict(h, queued);
    assert rg.Keys == queued;
    forall n | n in g && n in queued ensures Trimmed(g[n], h[n], queued) && Trimmed(g[n], h[n], g.Keys) {
      assert Trimmed(rg[n], rh[n], queued);
    }
    forall n | n in g && n !in queued ensures Trimmed(g[n], h[n], g.Keys) { TrimmedRefl(g[n], g.Keys); }
    JustifiedAfterDetector(g, h, queued, NamesOf(ans));
  }

  /** What the detector spares in the queue it spares in the whole graph. */
  lemma SparesInQueue(g: Graph, h: Graph, queued: set<Name>)
    requires h.Keys == g.Keys && forall n | n in g && n !in queued :: h[n] == g[n]
    requires SparesOneWayIn(Restrict(g, queued), Restrict(h, queued))
    ensures SparesOneWayIn(g, h)
  {
    forall p | p in g && OneWayIn(g, p) && p in queued ensures h[p] == g[p] {
      OneWayInPart(g, Restrict(g, queued), p);
    }
  }

  /** The finished list holds every package of the input exactly once. */
  lemma FinishedIsPermutation(list: seq<PackageThin>, all: Queue, g: Graph, ans: seq<PackageThin>, pinject: set<Name>)
    requires DistinctNames(list) && all == ByName(list)
    requires Sorting(all, g, ans, pinject, {}) && AllPlaced(all.Keys, pinject, {})
    ensures multiset(ans) == multiset(list)
  {
    forall p | p in list ensures p in ans {
      assert p.name in pinject;
      var i :| 0 <= i < |ans| && NamesOf(ans)[i] == p.name;
      assert ans[i] in ans && all[ans[i].name] == ans[i];
    }
    SameMembersPermute(ans, list);
  }

  lemma AllSorted(all: Queue, g: Graph, ans: seq<PackageThin>, pinject: set<Name>)
    requires Sorting(all, g, ans, pinject, {}) && AllPlaced(all.Keys, pinject, {})
    ensures AllJustified(g, NamesOf(ans)) && NoDuplicates(NamesOf(ans)) && g.Keys <= Elements(NamesOf(ans))
  {
  }

  lemma DuplicateCounts<T>(s: seq<T>, i: nat, j: nat)
    requires i < j < |s| && s[i] == s[j]
    ensures multiset(s)[s[i]] >= 2
  {
    assert s == s[..j] + [s[j]] + s[j + 1..];
    assert s[i] in s[..j];
  }

  lemma PermutedInput(list: seq<PackageThin>, refarr: seq<PackageThin>)
    requires DistinctNames(refarr) && multiset(list) == multiset(refarr)
    ensures DistinctNames(list) && ByName(list) == ByName(refarr)
  {
    NoDuplicatesCount(refarr);
    assert forall p :: p in list <==> p in multiset(list);
    assert forall p :: p in refarr <==> p in multiset(refarr);
    forall i, j | 0 <= i < j < |list| ensures list[i].name != list[j].name {
      assert list[i] in refarr && list[j] in refarr;
      if list[i] == list[j] { DuplicateCounts(list, i, j); }
    }
    assert ByName(list).Keys == ByName(refarr).Keys;
  }

  lemma EmitAtOnce(all: Queue, g: Graph, ans: seq<PackageThin>, pinject: set<Name>, queued: set<Name>, p: PackageThin)
    requires Sorting(all, g, ans, pinject, queued)
    requires p.name in all && all[p.name] == p && p.name !in pinject && p.name !in queued
    requires Justified(g, pinject, p.name)
    ensures Sorting(all, g, ans + [p], pinject + {p.name}, queued)
  {
    Emit(all, g, ans, pinject, queued + {p.name}, p);
    assert queued + {p.name} - {p.name} == queued;
  }

  lemma Enqueue(all: Queue, g: Graph, ans: seq<PackageThin>, pinject: set<Name>, queue: Queue, p: PackageThin)
    requires Submap(queue, all) && Sorting(all, g, ans, pinject, queue.Keys)
    requires p.name in all && all[p.name] == p && p.name !in pinject
    ensures queue[p.name := p].Keys == queue.Keys + {p.name}
    ensures Submap(queue[p.name := p], all) && Sorting(all, g, ans, pinject, queue[p.name := p].Keys)
  {
    assert queue[p.name := p].Keys == queue.Keys + {p.name};
  }

  /** Who requires nothing is not queued, and a queued package that requires only such packages waits for
      one of them. */
  ghost predicate Waiting(g: Graph, pinject: set<Name>, queued: set<Name>) {
    forall n | n in queued && n in g :: g[n] != [] && (Shallow(g, n) ==> exists r :: r in g[n] && r !in pinject)
  }

  lemma StillWaiting(g: Graph, pinject0: set<Name>, queued0: set<Name>, pinject: set<Name>, queued: set<Name>)
    requires forall n | n in queued0 && n in g :: g[n] != []
    requires queued <= queued0 && forall n | n in pinject && n !in pinject0 :: n in queued0
    requires forall n | n in queued && n in g :: !Ready(g, pinject0, n)
    ensures Waiting(g, pinject, queued)
  {
    forall n | n in queued && n in g && Shallow(g, n) ensures exists r :: r in g[n] && r !in pinject {
      var r := g[n][FirstMissing(g[n], pinject0)];
      assert r in g[n];
    }
  }

  /** One step of the first phase: emit `p` and scan the queue, or queue `p`. */
  method Place(ghost all: Queue, p: PackageThin, ans0: seq<PackageThin>, pinject0: set<Name>, queue0: Queue)
    returns (ans: seq<PackageThin>, pinject: set<Name>, queue: Queue)
    requires Registered(all) && p.name in all && all[p.name] == p
    requires Submap(queue0, all) && Sorting(all, GraphOf(all), ans0, pinject0, queue0.Keys)
    requires p.name !in pinject0 && p.name !in queue0
    ensures GraphOf(all) == old(GraphOf(all))
    ensures Submap(queue, all) && Sorting(all, GraphOf(all), ans, pinject, queue.Keys)
    ensures forall n :: n in pinject || n in queue <==> n in pinject0 || n in queue0 || n == p.name
    ensures pinject0 <= pinject
    ensures TopoSorted(GraphOf(all), NamesOf(ans0)) ==> TopoSorted(GraphOf(all), NamesOf(ans))
    ensures Waiting(GraphOf(all), pinject0, queue0.Keys) ==> Waiting(GraphOf(all), pinject, queue.Keys)
  {
    hide Sorting, Submap, TopoSorted;
    var allReqok := CanInject(p, queue0, pinject0, false);
    if !p.HasRequires() || allReqok {
      EmitAtOnce(all, GraphOf(all), ans0, pinject0, queue0.Keys, p);
      ReadyIsTopoSorted(all, GraphOf(all), ans0, pinject0, queue0.Keys, p.name, p);
      ans, pinject, queue := ScanQueue(all, queue0, ans0 + [p], pinject0 + {p.name}, false);
      if Waiting(GraphOf(all), pinject0, queue0.Keys) {
        StillWaiting(GraphOf(all), pinject0 + {p.name}, queue0.Keys, pinject, queue.Keys);
      }
    } else {
      Enqueue(all, GraphOf(all), ans0, pinject0, queue0, p);
      ans, pinject, queue := ans0, pinject0, queue0[p.name := p];
    }
  }

  /** The first phase: one pass over the list. */
  method FirstPhase(ghost all: Queue, list: seq<PackageThin>)
    returns (ans: seq<PackageThin>, pinject: set<Name>, queue: Queue)
    requires DistinctNames(list) && all == ByName(list)
    ensures Submap(queue, all) && Sorting(all, GraphOf(all), ans, pinject, queue.Keys)
    ensures AllPlaced(all.Keys, pinject, queue.Keys)
    ensures TopoSorted(GraphOf(all), NamesOf(ans))
    ensures forall n | n in all && Shallow(GraphOf(all), n) :: n in pinject
  {
    hide Sorting, TopoSorted;
    ans, pinject, queue := [], {}, map[];
    StartSorting(all, GraphOf(all));
    assert queue.Keys == {};
    ghost var seen: set<Name> := {};
    for i := 0 to |list|
      invariant Submap(queue, all) && Sorting(all, GraphOf(all), ans, pinject, queue.Keys)
      invariant forall n :: n in pinject || n in queue <==> n in seen
      invariant forall j | 0 <= j < |list| :: list[j].name in seen <==> j < i
      invariant seen <= all.Keys
      invariant TopoSorted(GraphOf(all), NamesOf(ans)) && Waiting(GraphOf(all), pinject, queue.Keys)
    {
      assert list[i] in list;
      ans, pinject, queue := Place(all, list[i], ans, pinject, queue);
      seen := seen + {list[i].name};
    }
    forall n | n in all ensures n in seen { assert all[n] in list; }
  }

  lemma StartSorting(all: Queue, g: Graph)
    requires g.Keys == all.Keys
    ensures Sorting(all, g, [], {}, {}) && TopoSorted(g, NamesOf([]))
  {
  }

  /** What the walks in the queue did to the whole graph. */
  lemma DetectorRan(g: Graph, h: Graph, queued: set<Name>, order: seq<Name>)
    requires h.Keys == g.Keys && forall n | n in g && n !in queued :: h[n] == g[n]
    requires Elements(order) == Restrict(g, queued).Keys && Restrict(h, queued) == Detect(Restrict(g, queued), order)
    ensures Acyclic(Restrict(h, queued)) && Trims(Restrict(g, queued), Restrict(h, queued))
    ensures ListedOnce(g) ==> SparesOneWayIn(g, h)
  {
    hide Detect, Acyclic, Trims, OneWayIn, SparesOneWayIn;
    DetectBreaksAllCycles(Restrict(g, queued), order);
    if ListedOnce(g) {
      DetectorSparesOneWayIn(Restrict(g, queued), order);
      SparesInQueue(g, h, queued);
    }
  }

  method RunDetector(ghost all: Queue, ghost ans: seq<PackageThin>, queue: Queue, pinject: set<Name>)
    returns (res: Result<()>)
    requires Registered(all) && Submap(queue, all)
    requires Sorting(all, GraphOf(all), ans, pinject, queue.Keys) && AllPlaced(all.Keys, pinject, queue.Keys)
    modifies queue.Values
    ensures Trims(old(GraphOf(all)), GraphOf(all))
    ensures Closed(old(GraphOf(all))) ==> res.Ok?
    ensures res.Ok? ==> Acyclic(Restrict(GraphOf(all), queue.Keys))
    ensures res.Ok? && ListedOnce(old(GraphOf(all))) ==> SparesOneWayIn(old(GraphOf(all)), GraphOf(all))
    ensures Sorting(all, GraphOf(all), ans, pinject, queue.Keys)
  {
    hide Sorting, ListedOnce, OneWayIn, SparesOneWayIn, Detect, Acyclic, Trims;
    ghost var g, h := GraphOf(all), GraphOf(queue);
    assert Restrict(g, queue.Keys) == h;
    ghost var order;
    res, order := DepCycleDetector(queue, pinject);
    assert Restrict(GraphOf(all), queue.Keys) == GraphOf(queue);
    if res.Ok? {
      DetectorRan(g, GraphOf(all), queue.Keys, order);
    }
    assert Closed(g) ==> Resolvable(h, pinject);
    SortingAfterDetector(all, g, GraphOf(all), ans, pinject, queue.Keys);
  }

  /** Where the second phase stands, seen from the requires `g0` of the input: an input without
      cycles never gets stuck, and no closed input does once the detector has run. */
  ghost predicate NeverStuck(g0: Graph, g: Graph, queued: set<Name>, lastQueueSize: nat, detectorExecuted: bool) {
    && Trims(g0, g)
    && (!detectorExecuted ==> g == g0)
    && (ListedOnce(g0) ==> SparesOneWayIn(g0, g))
    && (Closed(g0) && Acyclic(g0) ==> !detectorExecuted)
    && (Closed(g0) && detectorExecuted ==> Acyclic(Restrict(g, queued)))
    && (Closed(g0) && (detectorExecuted || Acyclic(g0)) && queued != {} ==> |queued| != lastQueueSize)
  }

  lemma ScanUnsticks(all: Queue, g0: Graph, g: Graph, ans: seq<PackageThin>, pinject: set<Name>, queued: set<Name>,
                     rest: set<Name>, detectorExecuted: bool)
    requires NeverStuck(g0, g, queued, |queued| + 1, detectorExecuted)
    requires Sorting(all, g, ans, pinject, queued) && AllPlaced(g.Keys, pinject, queued)
    requires queued != {} && rest <= queued
    requires (exists n :: n in queued && Ready(g, pinject, n)) ==> |rest| < |queued|
    ensures NeverStuck(g0, g, rest, |queued|, detectorExecuted)
  {
    if Closed(g0) && (detectorExecuted || Acyclic(g0)) {
      StillResolvable(g0, g, {});
      if !detectorExecuted {
        SubgraphAcyclic(Restrict(g, queued), g0);
      }
      SomeReady(all, g, ans, pinject, queued);
    }
    if Closed(g0) && detectorExecuted {
      SubgraphAcyclic(Restrict(g, rest), Restrict(g, queued));
    }
  }

  /** The packages of `order`, a dead end, were emitted first. */
  ghost predicate CameThrough(g: Graph, order: seq<Name>, ans: seq<PackageThin>) {
    DeadEnd(g, order) && order <= NamesOf(ans)
  }

  lemma StillThrough(g: Graph, order: seq<Name>, ans: seq<PackageThin>, ans': seq<PackageThin>)
    requires CameThrough(g, order, ans) && ans <= ans'
    ensures CameThrough(g, order, ans')
  {
  }

  lemma ThroughIsDeadEnd(g: Graph, order: seq<Name>, ans: seq<PackageThin>)
    requires CameThrough(g, order, ans)
    ensures DeadEnd(g, order) && GotStuck(g, NamesOf(ans))
  {
    assert NamesOf(ans)[..|order|] == order;
  }

  /** A scan with nothing to emit means a dead end. */
  lemma StalledIsDeadEnd(all: Queue, g: Graph, ans: seq<PackageThin>, pinject: set<Name>, queued: set<Name>)
    requires Sorting(all, g, ans, pinject, queued) && AllPlaced(all.Keys, pinject, queued) && queued != {}
    requires forall n | n in queued :: !Justified(g, pinject, n)
    ensures CameThrough(g, NamesOf(ans), ans)
  {
    var n :| n in queued;
    assert n in g && n !in pinject;
  }

  /** The second phase: scan until the queue is empty. When five scans in a row emit nothing the
      detector runs, once; if that does not help either the sort gives up. `stalled` tells whether
      some scan emitted nothing. */
  method SecondPhase(ghost all: Queue, ans0: seq<PackageThin>, pinject0: set<Name>, queue0: Queue)
    returns (res: Result<seq<PackageThin>>, ghost pinject: set<Name>, ghost detectorRan: bool, ghost stalled: bool,
             ghost deadEnd: seq<Name>)
    requires Registered(all) && Submap(queue0, all)
    requires Sorting(all, GraphOf(all), ans0, pinject0, queue0.Keys) && AllPlaced(all.Keys, pinject0, queue0.Keys)
    modifies all.Values
    ensures Trims(old(GraphOf(all)), GraphOf(all))
    ensures Closed(old(GraphOf(all))) ==> res.Ok?
    ensures Closed(old(GraphOf(all))) && Acyclic(old(GraphOf(all))) ==> !detectorRan && !stalled
    ensures !detectorRan ==> GraphOf(all) == old(GraphOf(all))
    ensures res.Ok? ==> ans0 <= res.value
    ensures detectorRan ==> DeadEnd(old(GraphOf(all)), deadEnd)
    ensures detectorRan && res.Ok? ==> CameThrough(old(GraphOf(all)), deadEnd, res.value)
    ensures res.Ok? && ListedOnce(old(GraphOf(all))) ==> SparesOneWayIn(old(GraphOf(all)), GraphOf(all))
    ensures res.Ok? ==> Sorting(all, GraphOf(all), res.value, pinject, {}) && AllPlaced(all.Keys, pinject, {})
  {
    hide Sorting, ListedOnce, OneWayIn, CameThrough, DeadEnd, Justified;
    ghost var g0, g := GraphOf(all), GraphOf(all);
    TrimsRefl(g0);
    var ans, injected, queue := ans0, pinject0, queue0;
    var loopCyclesDetectorCounter, lastQueueSize, detectorExecuted := 0, 0, false;
    detectorRan, stalled := false, false;
    deadEnd := [];
    while |queue| > 0
      invariant g == GraphOf(all) && ans0 <= ans
      invariant Submap(queue, all) && Sorting(all, g, ans, injected, queue.Keys)
      invariant AllPlaced(all.Keys, injected, queue.Keys)
      invariant 0 <= loopCyclesDetectorCounter <= 4 && 0 <= lastQueueSize
      invariant NeverStuck(g0, g, queue.Keys, lastQueueSize, detectorExecuted)
      invariant detectorExecuted ==> DeadEnd(g0, deadEnd) && CameThrough(g0, deadEnd, ans)
      invariant |queue| == lastQueueSize && |queue| > 0 && !detectorExecuted ==> CameThrough(g, NamesOf(ans), ans)
      invariant detectorRan == detectorExecuted && (Closed(g0) && Acyclic(g0) ==> !stalled)
      decreases |queue|, if |queue| != lastQueueSize then 1 else 0, if detectorExecuted then 0 else 1,
        5 - loopCyclesDetectorCounter
    {
      if |queue| == lastQueueSize {
        if loopCyclesDetectorCounter > 3 {
          if detectorExecuted {
            return Err("Unexpected error on sort queue"), injected, detectorRan, stalled, deadEnd;
          }
          detectorExecuted, detectorRan := true, true;
          deadEnd := NamesOf(ans);
          ThroughIsDeadEnd(g, deadEnd, ans);
          SubmapValues(queue, all);
          var detected := RunDetector(all, ans, queue, injected);
          g := GraphOf(all);
          if detected.Err? {
            return Err(detected.message), injected, detectorRan, stalled, deadEnd;
          }
        } else {
          loopCyclesDetectorCounter := loopCyclesDetectorCounter + 1;
        }
      } else {
        lastQueueSize := |queue|;
        loopCyclesDetectorCounter := 0;
      }
      ghost var ans', injected', queue' := ans, injected, queue;
      assert queue.Keys != {};
      ans, injected, queue := ScanQueue(all, queue, ans, injected, true);
      ScanUnsticks(all, g0, g, ans', injected', queue'.Keys, queue.Keys, detectorExecuted);
      stalled := stalled || |queue| == |queue'|;
      if |queue| == |queue'| { StalledIsDeadEnd(all, g, ans, injected, queue.Keys); }
      if detectorExecuted { StillThrough(g0, deadEnd, ans', ans); }
    }
    assert queue.Keys == {};
    return Ok(ans), injected, detectorRan, stalled, deadEnd;
  }

  method SortPkgsThinArr(refarr: seq<PackageThin>)
    returns (res: Result<seq<PackageThin>>, ghost detectorRan: bool, ghost stalled: bool)
    requires DistinctNames(refarr)
    modifies Elements(refarr)
    ensures Trims(old(GraphOf(ByName(refarr))), GraphOf(ByName(refarr)))
    ensures Closed(old(GraphOf(ByName(refarr)))) ==> res.Ok?
    ensures res.Ok? ==>
      && multiset(res.value) == multiset(refarr)
      && Respects(old(GraphOf(ByName(refarr))), GraphOf(ByName(refarr)), NamesOf(res.value))
    ensures NoDeadEnd(old(GraphOf(ByName(refarr)))) ==>
      !detectorRan && GraphOf(ByName(refarr)) == old(GraphOf(ByName(refarr)))
    ensures Closed(old(GraphOf(ByName(refarr)))) && Acyclic(old(GraphOf(ByName(refarr)))) ==>
      !detectorRan && !stalled
  {
    ghost var all := ByName(refarr);
    // Sorting by the number of requires: any order will do.
    var list :| multiset(list) == multiset(refarr);
    PermutedInput(list, refarr);
    var ans, pinject, queue := FirstPhase(all, list);
    ghost var injected;
    ghost var g0 := GraphOf(all);
    ghost var deadEnd;
    res, injected, detectorRan, stalled, deadEnd := SecondPhase(all, ans, pinject, queue);
    if NoDeadEnd(g0) { NotDeadEnd(g0, deadEnd); }
    if res.Ok? {
      SortedStart(g0, NamesOf(ans), NamesOf(res.value));
      AllSorted(all, GraphOf(all), res.value, injected);
      if detectorRan { ThroughIsDeadEnd(g0, deadEnd, res.value); }
      RespectsKept(g0, GraphOf(all), NamesOf(res.value));
      FinishedIsPermutation(refarr, all, GraphOf(all), res.value, injected);
    }
  }
}
