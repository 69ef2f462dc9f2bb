/** What the sort does not promise: the cycle detector can delete a require that is on no cycle,
    which ones it deletes depends on the order inside a list of requires, and two packages that
    require each other can be emitted before something else that one of them requires.
 */
module SortExamples {
  import opened CycleDetector
  import opened DetectorEffect
  import opened Graphs
  import opened PackageThins
  import opened Packages
  import opened Sorter

  /** No package can be emitted, so the sort runs the detector. */
  ghost predicate Stuck(g: Graph) {
    Closed(g) && forall n | n in g :: !Justified(g, {}, n)
  }

  // ----- the steps of a walk -----

  /** The only require of a new package. */
  lemma OneRequire(g: Graph, s: seq<Name>, p: Name, r: Name)
    requires p in g && p !in s && g[p] == [r] && r in g
    ensures Walk(g, s, p) == Walk(g, s + [p], r)
  {
    var w := Walk(g, s + [p], r);
    assert Walk(g, s, p) == WalkAll(g, s + [p], [r], 0) == WalkAll(w.g, w.s, [r], 1);
  }

  lemma TwoRequires(g: Graph, s: seq<Name>, p: Name, r: Name, r': Name)
    requires p in g && p !in s && g[p] == [r, r'] && r in g && r' in g
    ensures Walk(g, s, p) == var w := Walk(g, s + [p], r); Walk(w.g, w.s, r')
  {
    var w := Walk(g, s + [p], r);
    var w' := Walk(w.g, w.s, r');
    assert Walk(g, s, p) == WalkAll(g, s + [p], [r, r'], 0) == WalkAll(w.g, w.s, [r, r'], 1)
      == WalkAll(w'.g, w'.s, [r, r'], 2);
  }

  lemma NoRequire(g: Graph, s: seq<Name>, p: Name)
    requires p in g && g[p] == []
    ensures Walk(g, s, p) == State(g, s + [p])
  {
    assert Without([], Elements(s)) == [] && g[p := []] == g;
    assert Walk(g, s, p) == WalkAll(g, s + [p], [], 0);
  }

  /** A package met again loses the requires on the stack: all of them, or all but one. */
  lemma Again(g: Graph, s: seq<Name>, p: Name)
    requires p in g && p in s && Without(g[p], Elements(s)) == []
    ensures Walk(g, s, p) == State(g[p := []], s + [p])
  {
    assert Walk(g, s, p) == WalkAll(g[p := []], s + [p], [], 0);
  }

  lemma AgainButOne(g: Graph, s: seq<Name>, p: Name, r: Name)
    requires p in g && p in s && Without(g[p], Elements(s)) == [r] && r in g
    ensures Walk(g, s, p) == Walk(g[p := [r]], s + [p], r)
  {
    var h := g[p := [r]];
    var w := Walk(h, s + [p], r);
    assert Walk(g, s, p) == WalkAll(h, s + [p], [r], 0) == WalkAll(w.g, w.s, [r], 1);
  }

  lemma {:induction false} WithoutAll(rs: seq<Name>, s: seq<Name>)
    requires forall r | r in rs :: r in s
    ensures Without(rs, Elements(s)) == []
  {
    if rs != [] {
      assert rs[0] in rs;
      WithoutAll(rs[1..], s);
    }
  }

  // ----- a circle of three packages -----

  ghost predicate Circle(g: Graph) {
    g.Keys >= {"x", "y", "z"} && g["x"] == ["y"] && g["y"] == ["z"] && g["z"] == ["x"]
  }

  /** The circle is cut at x when a walk enters it there. */
  lemma RoundTheCircle(g: Graph, s: seq<Name>)
    requires Circle(g) && "x" !in s && "y" !in s && "z" !in s
    ensures Walk(g, s, "x") == State(g["x" := []], s + ["x", "y", "z", "x"])
  {
    hide Walk;
    var t := s + ["x", "y", "z"];
    assert s + ["x"] + ["y"] + ["z"] == t && t[|s|] == "x" && t[|s| + 1] == "y";
    OneRequire(g, s, "x", "y");
    OneRequire(g, s + ["x"], "y", "z");
    OneRequire(g, s + ["x"] + ["y"], "z", "x");
    WithoutAll(["y"], t);
    Again(g, t, "x");
    assert t + ["x"] == s + ["x", "y", "z", "x"];
  }

  /** Walks stay on the circle. */
  lemma {:induction false} CircleIsClosed(g: Graph, w: seq<Name>, i: nat)
    requires Circle(g) && IsWalk(g, w) && i < |w| && w[0] in {"x", "y", "z"}
    ensures w[i] in {"x", "y", "z"}
  {
    if i > 0 {
      CircleIsClosed(g, w, i - 1);
      assert w[i - 1 + 1] in g[w[i - 1]];
    }
  }

  /** A package that requires only x is on no cycle. */
  lemma OnNoCycle(g: Graph, n: Name, w: seq<Name>)
    requires Circle(g) && n in g && g[n] == ["x"] && n !in {"x", "y", "z"} && IsCycle(g, w)
    ensures w[0] != n
  {
    if w[0] == n {
      assert w[0 + 1] in g[n];
      assert w[1..][0] == "x" && IsWalk(g, w[1..]);
      CircleIsClosed(g, w[1..], |w| - 2);
    }
  }

  // ----- a require on no cycle that is lost -----

  /** x, y and z require each other in a circle; c requires x, b requires c, and a requires both b
      and c. */
  ghost const TAILED_CYCLE: Graph :=
    map["x" := ["y"], "y" := ["z"], "z" := ["x"], "c" := ["x"], "b" := ["c"], "a" := ["b", "c"]]

  ghost const CUT := TAILED_CYCLE["x" := []]

  lemma WalkFromB(s: seq<Name>)
    requires s == []
    ensures Walk(TAILED_CYCLE, s, "b").g == CUT
  {
    hide Walk;
    OneRequire(TAILED_CYCLE, s, "b", "c");
    OneRequire(TAILED_CYCLE, s + ["b"], "c", "x");
    RoundTheCircle(TAILED_CYCLE, s + ["b"] + ["c"]);
  }

  lemma WalkFromA(s: seq<Name>)
    requires s == []
    ensures Walk(CUT, s, "a").g == CUT["c" := []]
  {
    hide Walk;
    var t := s + ["a"] + ["b"] + ["c"] + ["x"];
    TwoRequires(CUT, s, "a", "b", "c");
    OneRequire(CUT, s + ["a"], "b", "c");
    OneRequire(CUT, s + ["a"] + ["b"], "c", "x");
    NoRequire(CUT, s + ["a"] + ["b"] + ["c"], "x");
    assert t[2] == "c" && t[3] == "x";
    WithoutAll(["x"], t);
    Again(CUT, t, "c");
  }

  /** The order by number of requires and name. */
  const BY_REQUIRES: seq<Name> := ["b", "c", "x", "y", "z", "a"]

  /** In the cut graph x requires nothing: these walks meet no package twice and change nothing. */
  lemma CutStays(s: seq<Name>, p: Name)
    requires s == [] && p in {"c", "x", "y", "z"}
    ensures Walk(CUT, s, p).g == CUT
  {
    hide Walk;
    NoRequire(CUT, s, "x");
    if p == "y" {
      OneRequire(CUT, s, p, "z");
      OneRequire(CUT, s + [p], "z", "x");
      NoRequire(CUT, s + [p] + ["z"], "x");
    } else if p != "x" {
      OneRequire(CUT, s, p, "x");
      NoRequire(CUT, s + [p], "x");
    }
  }

  lemma StaysCut(pre: seq<Name>, p: Name)
    requires Elements(pre) <= TAILED_CYCLE.Keys && Detect(TAILED_CYCLE, pre) == CUT && p in {"c", "x", "y", "z"}
    ensures Elements(pre + [p]) <= TAILED_CYCLE.Keys && Detect(TAILED_CYCLE, pre + [p]) == CUT
  {
    hide Walk;
    CutStays([], p);
    assert (pre + [p])[..|pre|] == pre;
  }

  lemma DetectTailedCycle()
    ensures Elements(BY_REQUIRES) == TAILED_CYCLE.Keys
    ensures Detect(TAILED_CYCLE, BY_REQUIRES) == CUT["c" := []]
  {
    hide Walk;
    WalkFromB([]);
    assert ["b"][..0] == [] && Detect(TAILED_CYCLE, ["b"]) == CUT;
    StaysCut(["b"], "c");
    assert ["b"] + ["c"] == ["b", "c"];
    StaysCut(["b", "c"], "x");
    assert ["b", "c"] + ["x"] == ["b", "c", "x"];
    StaysCut(["b", "c", "x"], "y");
    assert ["b", "c", "x"] + ["y"] == ["b", "c", "x", "y"];
    StaysCut(["b", "c", "x", "y"], "z");
    assert ["b", "c", "x", "y"] + ["z"] == BY_REQUIRES[..5];
    WalkFromA([]);
  }

  lemma NothingToEmit(n: Name)
    requires n in TAILED_CYCLE
    ensures !Justified(TAILED_CYCLE, {}, n)
  {
    assert FirstMissing(TAILED_CYCLE[n], {}) == 0;
  }

  lemma CutOrder()
    ensures TopoSorted(CUT["c" := []], ["c", "b", "a", "x", "z", "y"])
  {
    var o := ["c", "b", "a", "x", "z", "y"];
    assert o[..1][0] == "c" && o[..2][0] == "c" && o[..2][1] == "b" && o[..4][3] == "x" && o[..5][4] == "z";
  }

  /** The detector deletes more than cycles need. No package of the tailed cycle can be emitted, so
      the sort runs the detector; c is on no cycle, and still it loses its only require, because the
      walk from a comes to c in two ways. Afterwards c may be emitted before x. */
  lemma DetectorDropsHarmlessRequire()
    ensures Stuck(TAILED_CYCLE)
    ensures forall w | IsCycle(TAILED_CYCLE, w) :: w[0] != "c"
    ensures Elements(BY_REQUIRES) == TAILED_CYCLE.Keys
    ensures Detect(TAILED_CYCLE, BY_REQUIRES) == CUT["c" := []]
    ensures TopoSorted(Detect(TAILED_CYCLE, BY_REQUIRES), ["c", "b", "a", "x", "z", "y"])
  {
    hide Justified, TopoSorted, Detect, FirstMissing;
    DetectTailedCycle();
    CutOrder();
    forall n | n in TAILED_CYCLE ensures !Justified(TAILED_CYCLE, {}, n) { NothingToEmit(n); }
    forall w | IsCycle(TAILED_CYCLE, w) ensures w[0] != "c" {
      OnNoCycle(TAILED_CYCLE, "c", w);
    }
  }

  // ----- the order inside a list of requires decides -----

  /** a leads to the circle q, s, p; q also requires v, which requires x of the other circle. The list
      of q is `reqs`. */
  ghost predicate Forks(g: Graph, reqs: seq<Name>) {
    && g.Keys == {"a", "p", "q", "s", "v", "x", "y", "z"} && Circle(g)
    && g["a"] == ["q"] && g["p"] == ["q"] && g["q"] == reqs && g["s"] == ["p"] && g["v"] == ["x"]
  }

  ghost const FORK: Graph :=
    map["a" := ["q"], "p" := ["q"], "q" := [], "s" := ["p"], "v" := ["x"], "x" := ["y"], "y" := ["z"], "z" := ["x"]]

  ghost const BACK_FIRST := FORK["q" := ["s", "v"]]
  ghost const TAIL_FIRST := FORK["q" := ["v", "s"]]

  lemma BothFork()
    ensures Forks(BACK_FIRST, ["s", "v"]) && Forks(TAIL_FIRST, ["v", "s"])
  {
  }

  /** The order by number of requires and name, for both. */
  const Q_LAST: seq<Name> := ["a", "p", "s", "v", "x", "y", "z", "q"]

  lemma {:induction false} DetectSplit(g: Graph, a: seq<Name>, b: seq<Name>)
    requires Elements(a) <= g.Keys && Elements(b) <= g.Keys
    ensures Elements(a + b) <= g.Keys && Detect(g, a + b) == Detect(Detect(g, a), b)
  {
    hide Walk;
    assert Elements(a + b) == Elements(a) + Elements(b);
    if b == [] {
      assert a + b == a;
    } else {
      var last := |b| - 1;
      assert (a + b)[..|a| + last] == a + b[..last] && (a + b)[|a| + last] == b[last];
      assert Elements(b[..last]) <= Elements(b);
      DetectSplit(g, a, b[..last]);
    }
  }

  /** The first walk of the detector, then the others. */
  lemma DetectFirst(g: Graph, s: seq<Name>, order: seq<Name>)
    requires Elements(order) <= g.Keys && order != [] && s == []
    ensures Elements(order[1..]) <= g.Keys
    ensures Detect(g, order) == Detect(Walk(g, s, order[0]).g, order[1..])
  {
    hide Walk;
    var p := order[0];
    assert order == [p] + order[1..] && p in order;
    assert Detect(g, [p]) == Walk(g, s, p).g by { assert [p][..0] == s; }
    DetectSplit(g, [p], order[1..]);
  }

  /** Back first: v is met again after the walk came back to q, and loses its require. */
  lemma WalkBackFirst(g: Graph, s: seq<Name>)
    requires Forks(g, ["s", "v"]) && s == []
    ensures Walk(g, s, "a").g["v"] == []
  {
    hide Walk, Without;
    var h, s4 := g["q" := ["v"]], ["a", "q", "s", "p"];
    var t := s4 + ["q", "v"] + ["x", "y", "z", "x"];
    assert s + ["a"] == ["a"] && s + ["a"] + ["q"] + ["s"] + ["p"] == s4;
    OneRequire(g, s, "a", "q");
    TwoRequires(g, ["a"], "q", "s", "v");
    OneRequire(g, ["a"] + ["q"], "s", "p");
    OneRequire(g, ["a"] + ["q"] + ["s"], "p", "q");
    BackAtQ(s4);
    AgainButOne(g, s4, "q", "v");
    OneRequire(h, s4 + ["q"], "v", "x");
    assert s4 + ["q"] + ["v"] == s4 + ["q", "v"];
    RoundTheCircle(h, s4 + ["q", "v"]);
    assert t[5] == "v" && t[6] == "x";
    WithoutAll(["x"], t);
    Again(h["x" := []], t, "v");
  }

  lemma BackAtQ(s: seq<Name>)
    requires "s" in s && "v" !in s
    ensures Without(["s", "v"], Elements(s)) == ["v"]
  {
    var d := Elements(s);
    assert Without(["s", "v"], d) == Without(["v"], d) == ["v"] + Without([], d);
  }

  /** Tail first: when the walk comes back to q it has passed v already. */
  lemma WalkTailFirst(g: Graph, s: seq<Name>)
    requires Forks(g, ["v", "s"]) && s == []
    ensures Walk(g, s, "a").g == g["x" := []]["q" := []]
  {
    hide Walk, Without;
    var k, t := g["x" := []], ["a", "q", "v"] + ["x", "y", "z", "x"];
    assert s + ["a"] == ["a"] && s + ["a"] + ["q"] + ["v"] == ["a", "q", "v"];
    OneRequire(g, s, "a", "q");
    TwoRequires(g, ["a"], "q", "v", "s");
    OneRequire(g, ["a"] + ["q"], "v", "x");
    RoundTheCircle(g, ["a", "q", "v"]);
    OneRequire(k, t, "s", "p");
    OneRequire(k, t + ["s"], "p", "q");
    var u := t + ["s"] + ["p"];
    assert u[1] == "q" && u[2] == "v" && u[7] == "s";
    WithoutAll(["v", "s"], u);
    Again(k, u, "q");
  }

  lemma ForksIsStuck(g: Graph, reqs: seq<Name>)
    requires Forks(g, reqs) && (reqs == ["s", "v"] || reqs == ["v", "s"])
    ensures Stuck(g)
  {
    forall n | n in g ensures !Justified(g, {}, n) {
      assert FirstMissing(g[n], {}) == 0;
    }
  }

  lemma SomethingRequires(g: Graph, w: seq<Name>, i: nat)
    requires IsWalk(g, w) && 0 < i < |w|
    ensures w[i] in g[w[i - 1]]
  {
    assert w[i - 1 + 1] == w[i];
  }

  /** Once q has lost its requires, no way leads to v but the empty one. */
  lemma NothingRequiresV(g: Graph)
    requires "v" in g && forall n | n in g :: "v" !in g[n]
    ensures OneWayIn(g, "v")
  {
    forall w | IsWalk(g, w) && w != [] && w[|w| - 1] == "v" ensures w == ["v"] {
      forall i: nat | 0 < i < |w| ensures w[i] != "v" { SomethingRequires(g, w, i); }
    }
  }

  lemma ForkKeepsTail(g: Graph, order: seq<Name>)
    requires Forks(g, ["v", "s"]) && Elements(order) == g.Keys && order != [] && order[0] == "a"
    ensures Detect(g, order)["v"] == ["x"]
  {
    hide Walk, Detect, OneWayIn;
    WalkTailFirst(g, []);
    DetectFirst(g, [], order);
    NothingRequiresV(g["x" := []]["q" := []]);
    DetectKeeps(g["x" := []]["q" := []], order[1..], "v");
  }

  lemma ForkLosesTail(g: Graph, order: seq<Name>)
    requires Forks(g, ["s", "v"]) && Elements(order) == g.Keys && order != [] && order[0] == "a"
    ensures Detect(g, order)["v"] == []
  {
    hide Walk;
    var b := Walk(g, [], "a").g;
    WalkBackFirst(g, []);
    DetectFirst(g, [], order);
    DetectClears(b, order[1..]);
    assert Trimmed(b["v"], Detect(b, order[1..])["v"], b.Keys);
  }

  lemma TailIsOnNoCycle(g: Graph, reqs: seq<Name>)
    requires Forks(g, reqs)
    ensures !OnCycle(g, "v", "x")
  {
    forall w | IsCycle(g, w) ensures w[0] != "v" { OnNoCycle(g, "v", w); }
  }

  /** Which requires are lost is not a matter of who requires whom: the two graphs differ in the order
      of one list only, and only one of them loses the require of v, which is on no cycle. */
  lemma OrderOfRequiresDecides()
    ensures Stuck(BACK_FIRST) && Stuck(TAIL_FIRST) && BACK_FIRST.Keys == TAIL_FIRST.Keys == Elements(Q_LAST)
    ensures forall n | n in BACK_FIRST :: multiset(BACK_FIRST[n]) == multiset(TAIL_FIRST[n])
    ensures !OnCycle(BACK_FIRST, "v", "x") && !OnCycle(TAIL_FIRST, "v", "x")
    ensures Detect(BACK_FIRST, Q_LAST)["v"] == [] && Detect(TAIL_FIRST, Q_LAST)["v"] == ["x"]
  {
    hide Stuck, OnCycle, Detect;
    BothFork();
    ForksIsStuck(BACK_FIRST, ["s", "v"]);
    ForksIsStuck(TAIL_FIRST, ["v", "s"]);
    TailIsOnNoCycle(BACK_FIRST, ["s", "v"]);
    TailIsOnNoCycle(TAIL_FIRST, ["v", "s"]);
    ForkLosesTail(BACK_FIRST, Q_LAST);
    ForkKeepsTail(TAIL_FIRST, Q_LAST);
  }

  // ----- two packages that require each other -----

  /** n and m require each other, and so do r and t; n also requires r. */
  ghost const PAIRS: Graph := map["n" := ["m", "r"], "m" := ["n"], "r" := ["t"], "t" := ["r"]]

  lemma {:induction false} FromR(w: seq<Name>, i: nat)
    requires IsWalk(PAIRS, w) && i < |w| && w[0] in {"r", "t"}
    ensures w[i] in {"r", "t"}
  {
    if i > 0 {
      FromR(w, i - 1);
      assert w[i - 1 + 1] in PAIRS[w[i - 1]];
    }
  }

  /** The second phase emits n although r is missing, because only the first missing require counts.
      The order is justified, and the require of r, on no cycle, is not respected. */
  lemma PairHidesRequire()
    ensures Closed(PAIRS) && AllJustified(PAIRS, ["n", "m", "r", "t"])
    ensures !OffCyclesSorted(PAIRS, ["n", "m", "r", "t"])
  {
    var o := ["n", "m", "r", "t"];
    assert FirstMissing(PAIRS["n"], Elements(o[..0])) == 0;
    assert o[..1] == ["n"] && "n" in Elements(o[..1]) && FirstMissing(PAIRS["m"], Elements(o[..1])) == 1;
    assert o[..2] == ["n", "m"] && FirstMissing(PAIRS["r"], Elements(o[..2])) == 0;
    assert o[..3] == ["n", "m", "r"] && "r" in Elements(o[..3]) && FirstMissing(PAIRS["t"], Elements(o[..3])) == 1;
    forall w | IsCycle(PAIRS, w) && w[0] == "n" ensures w[1] != "r" {
      if w[1] == "r" { FromR(w[1..], |w| - 2); }
    }
    assert o[0] == "n" && !OnCycle(PAIRS, "n", "r") && "r" !in o[..0];
  }
}
