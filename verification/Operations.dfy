/** OrderOperations (pkg/v2/solver/solver.go): from the packs of artefacts to install, update and
    remove to one plan.
 */
module Operations {
  import opened Admissions
  import opened DetectorEffect
  import opened Graphs
  import opened OperationPlan
  import opened PackageThins
  import opened Packages
  import opened Sorter

  /** A pack of artefacts; the source accepts nil pointers and reports them. */
  datatype Pack = NoPack | Pack(artifacts: seq<Artifact>)

  predicate NamedOnce(arts: seq<Artifact>) {
    forall i, j :: 0 <= i < j < |arts| ==> arts[i].name != arts[j].name
  }

  function ArtNames(arts: seq<Artifact>): set<Name> {
    set a | a in arts :: a.name
  }

  ghost function ArtsByName(arts: seq<Artifact>): (m: map<Name, Artifact>)
    requires NamedOnce(arts)
    ensures m.Keys == ArtNames(arts)
    ensures forall a | a in arts :: m[a.name] == a
    ensures forall n | n in m :: m[n] in arts && m[n].name == n
  {
    map a | a in arts :: a.name := a
  }

  /** The requires that are themselves among `names`. */
  function Within(reqs: seq<Name>, names: set<Name>): seq<Name> {
    Without(reqs, set r | r in reqs && r !in names)
  }

  /** Who requires whom among the artefacts. */
  ghost function RequiresGraph(arts: seq<Artifact>): (g: Graph)
    requires NamedOnce(arts)
    ensures g.Keys == ArtNames(arts)
  {
    var m := ArtsByName(arts);
    map n | n in m :: Within(m[n].reqs, m.Keys)
  }

  function Ops(action: Action, arts: seq<Artifact>): (r: seq<Operation>)
    ensures |r| == |arts| && forall i | 0 <= i < |r| :: r[i] == Operation(action, arts[i])
  {
    seq(|arts|, i requires 0 <= i < |arts| => Operation(action, arts[i]))
  }

  function OpNames(ops: seq<Operation>): (r: seq<Name>)
    ensures |r| == |ops| && forall i | 0 <= i < |r| :: r[i] == ops[i].artifact.name
  {
    seq(|ops|, i requires 0 <= i < |ops| => ops[i].artifact.name)
  }

  /** The removals of packages that are neither installed nor updated. */
  function PureRemovals(p2r: seq<Artifact>, merged: set<Name>): seq<Operation> {
    if p2r == [] then []
    else
      var last := |p2r| - 1;
      PureRemovals(p2r[..last], merged) +
      if p2r[last].name in merged then [] else [Operation(RemovePackage, p2r[last])]
  }

  /** The artefacts of that name, in order. */
  function Called(arts: seq<Artifact>, n: Name): (r: seq<Artifact>)
    ensures r != [] <==> exists a :: a in arts && a.name == n
  {
    if arts == [] then []
    else
      var last := |arts| - 1;
      assert arts == arts[..last] + [arts[last]];
      if arts[last].name == n then Called(arts[..last], n) + [arts[last]] else Called(arts[..last], n)
  }

  lemma {:induction false} CalledOnce(arts: seq<Artifact>, k: nat)
    requires NamedOnce(arts) && k < |arts|
    ensures Called(arts, arts[k].name) == [arts[k]]
  {
    var last := |arts| - 1;
    if k < last {
      CalledOnce(arts[..last], k);
    } else {
      assert forall a | a in arts[..last] :: a.name != arts[last].name;
      assert Called(arts[..last], arts[last].name) == [];
    }
  }

  lemma CalledEach(arts: seq<Artifact>)
    requires NamedOnce(arts)
    ensures forall a | a in arts :: Called(arts, a.name) == [a]
  {
    forall a | a in arts ensures Called(arts, a.name) == [a] {
      var k :| 0 <= k < |arts| && arts[k] == a;
      CalledOnce(arts, k);
    }
  }

  lemma CalledNext(arts: seq<Artifact>, i: nat)
    requires i < |arts|
    ensures forall n :: Called(arts[..i + 1], n) == Called(arts[..i], n) + if arts[i].name == n then [arts[i]] else []
  {
    assert arts[..i + 1][..i] == arts[..i];
  }

  lemma CalledOf(arts: seq<Artifact>)
    ensures forall n :: Called(arts, n) != [] <==> n in ArtNames(arts)
  {
  }

  method ToMap(arts: seq<Artifact>) returns (m: map<Name, seq<Artifact>>)
    ensures m.Keys == ArtNames(arts)
    ensures forall n | n in m :: m[n] == Called(arts, n)
    ensures NamedOnce(arts) ==> forall a | a in arts :: m[a.name] == [a]
  {
    m := map[];
    for i := 0 to |arts|
      invariant forall n :: n in m <==> Called(arts[..i], n) != []
      invariant forall n | n in m :: m[n] == Called(arts[..i], n)
    {
      hide Called;
      var a := arts[i];
      CalledNext(arts, i);
      m := m[a.name := if a.name in m then m[a.name] + [a] else [a]];
    }
    assert arts[..|arts|] == arts;
    hide Called;
    CalledOf(arts);
    if NamedOnce(arts) { CalledEach(arts); }
  }

  /** Packages that are not in the map are installed already: their names are dropped. */
  method DropInstalled(all: seq<Name>, names: set<Name>) returns (requires_: seq<Name>)
    ensures requires_ == Within(all, names)
    ensures forall r :: r in requires_ <==> r in all && r in names
  {
    ghost var absent := set r | r in all && r !in names;
    requires_ := [];
    for k := 0 to |all|
      invariant requires_ == Without(all[..k], absent)
    {
      WithoutSnoc(all[..k], all[k], absent);
      assert all[..k + 1] == all[..k] + [all[k]];
      if all[k] in names {
        requires_ := requires_ + [all[k]];
      }
    }
    assert all[..|all|] == all;
  }

  /** Thin copies of the artefacts, with the requires that are in the map only. */
  method CreateThinPkgsPlist(p2i: seq<Artifact>, names: set<Name>) returns (pthinarr: seq<PackageThin>)
    ensures |pthinarr| == |p2i|
    ensures forall p | p in pthinarr :: fresh(p)
    ensures forall i | 0 <= i < |p2i| ::
      pthinarr[i].name == p2i[i].name && pthinarr[i].reqs == Within(p2i[i].reqs, names)
  {
    pthinarr := [];
    for i := 0 to |p2i|
      invariant |pthinarr| == i
      invariant forall k | 0 <= k < i :: fresh(pthinarr[k])
      invariant forall k | 0 <= k < i ::
        pthinarr[k].name == p2i[k].name && pthinarr[k].reqs == Within(p2i[k].reqs, names)
    {
      var reqs := DropInstalled(p2i[i].reqs, names);
      var pt := new PackageThin(p2i[i].name, reqs);
      pthinarr := pthinarr + [pt];
    }
  }

  /** The scan for conflicts from the end down to the position after `rmOps`: the last one it meets, or
      -1. That is the first one from there on. */
  method LastLookedAt(ans: seq<Operation>, idxOps: nat, rmOps: nat, p: Artifact, admit: AdmitFn)
    returns (idxConflict: int)
    requires idxOps == |ans|
    ensures var c := FirstConflict(ans, rmOps + 1, p, admit);
      idxConflict == if c < |ans| then c else -1
  {
    idxConflict := -1;
    var idx := idxOps - 1;
    while idx > rmOps
      invariant idx <= idxOps - 1
      invariant if idxConflict == -1 then forall k | rmOps < k < |ans| && idx < k :: !Refuses(admit, ans[k], p)
                else rmOps < idxConflict < |ans| && idx < idxConflict && Refuses(admit, ans[idxConflict], p)
                     && forall k | rmOps < k < idxConflict && idx < k :: !Refuses(admit, ans[k], p)
    {
      var verdict := admit(ans[idx].artifact, p);
      if verdict == Refused {
        idxConflict := idx;
      }
      idx := idx - 1;
    }
  }

  /** The loop that splices the removals into the sorted operations. */
  method SpliceRemovals(head: seq<Operation>, tmpOps: seq<Operation>, p2rmap: map<Name, seq<Artifact>>,
                        ghost removed: Removals, admit: AdmitFn) returns (ans: seq<Operation>)
    requires p2rmap.Keys == removed.Keys && forall n | n in removed :: p2rmap[n] == [removed[n]]
    ensures ans == Build(head, tmpOps, removed, admit)
  {
    ans := head;
    var idxOps, rmOps := |ans|, |ans|;
    for tidx := 0 to |tmpOps|
      invariant ans == Build(head, tmpOps[..tidx], removed, admit)
      invariant idxOps == |ans| && rmOps == |head| <= |ans|
    {
      var op := tmpOps[tidx];
      assert tmpOps[..tidx + 1][..tidx] == tmpOps[..tidx];
      if op.artifact.name in p2rmap {
        var pr := p2rmap[op.artifact.name];
        var idxConflict := LastLookedAt(ans, idxOps, rmOps, op.artifact, admit);
        ghost var c := FirstConflict(ans, rmOps + 1, op.artifact, admit);
        if idxConflict == 0 {
          assert false; // the branch that would put the removal in front of everything
        } else if idxConflict < 0 {
          ans := ans + [Operation(RemovePackage, pr[0]), op];
          idxOps := idxOps + 1;
        } else {
          ans := ans[..idxConflict] + [Operation(RemovePackage, pr[0])] + ans[idxConflict..] + [op];
          idxOps := idxOps + 1;
        }
      } else {
        ans := ans + [op];
      }
      idxOps := idxOps + 1;
    }
    assert tmpOps[..|tmpOps|] == tmpOps;
  }

  /** `ops` handles each artefact of the two packs once, with the action of its pack. */
  ghost predicate Handles(p2i: seq<Artifact>, p2u: seq<Artifact>, ops: seq<Operation>) {
    && NoDuplicates(OpNames(ops))
    && Elements(OpNames(ops)) == ArtNames(p2i + p2u)
    && forall op | op in ops :: op in Ops(AddPackage, p2i) || op in Ops(UpdatePackage, p2u)
  }

  lemma HandlesIsPermutation(p2i: seq<Artifact>, p2u: seq<Artifact>, ops: seq<Operation>)
    requires NamedOnce(p2i + p2u) && Handles(p2i, p2u, ops)
    ensures multiset(ops) == multiset(Ops(AddPackage, p2i) + Ops(UpdatePackage, p2u))
    ensures forall op | op in ops :: op.action != RemovePackage
  {
    var all, arts := Ops(AddPackage, p2i) + Ops(UpdatePackage, p2u), p2i + p2u;
    assert forall k | 0 <= k < |all| :: all[k].artifact == arts[k];
    forall x | x in all ensures x in ops {
      var k :| 0 <= k < |all| && all[k] == x;
      assert arts[k] in arts && arts[k].name in Elements(OpNames(ops));
      var m :| 0 <= m < |ops| && OpNames(ops)[m] == arts[k].name;
      assert ops[m] in all;
      var k' :| 0 <= k' < |all| && all[k'] == ops[m];
      assert k' == k;
    }
    assert forall i | 0 <= i < |ops| :: OpNames(ops)[i] == ops[i].artifact.name;
    SameMembersPermute(ops, all);
  }

  lemma NamedOnceParts(a: seq<Artifact>, b: seq<Artifact>)
    requires NamedOnce(a + b)
    ensures NamedOnce(a) && NamedOnce(b) && ArtNames(a + b) == ArtNames(a) + ArtNames(b)
  {
    assert forall i | 0 <= i < |a| :: (a + b)[i] == a[i];
    assert forall i | 0 <= i < |b| :: (a + b)[|a| + i] == b[i];
  }

  /** The operations for the sorted packages: an install if the package is in the install pack. */
  method ForwardOperations(p2i: seq<Artifact>, p2u: seq<Artifact>, sorted: seq<PackageThin>)
    returns (tmpOps: seq<Operation>)
    requires NamedOnce(p2i + p2u)
    requires forall p | p in sorted :: p.name in ArtNames(p2i + p2u)
    ensures OpNames(tmpOps) == NamesOf(sorted)
    ensures forall op | op in tmpOps :: op in Ops(AddPackage, p2i) || op in Ops(UpdatePackage, p2u)
  {
    NamedOnceParts(p2i, p2u);
    hide NamedOnce, Called;
    var p2imap := ToMap(p2i);
    var p2umap := ToMap(p2u);
    tmpOps := [];
    for i := 0 to |sorted|
      invariant |tmpOps| == i && forall k | 0 <= k < i :: tmpOps[k].artifact.name == sorted[k].name
      invariant forall op | op in tmpOps :: op in Ops(AddPackage, p2i) || op in Ops(UpdatePackage, p2u)
    {
      assert sorted[i] in sorted;
      var op := ForwardOperation(sorted[i].name, p2i, p2u, p2imap, p2umap);
      tmpOps := tmpOps + [op];
    }
  }

  method ForwardOperation(n: Name, p2i: seq<Artifact>, p2u: seq<Artifact>,
                          p2imap: map<Name, seq<Artifact>>, p2umap: map<Name, seq<Artifact>>) returns (op: Operation)
    requires p2imap.Keys == ArtNames(p2i) && p2umap.Keys == ArtNames(p2u) && n in ArtNames(p2i) + ArtNames(p2u)
    requires forall a | a in p2i :: p2imap[a.name] == [a]
    requires forall a | a in p2u :: p2umap[a.name] == [a]
    ensures op.artifact.name == n && (op in Ops(AddPackage, p2i) || op in Ops(UpdatePackage, p2u))
    ensures op.action == AddPackage <==> n in ArtNames(p2i)
  {
    if n in p2imap {
      ghost var k :| 0 <= k < |p2i| && p2i[k].name == n;
      op := Operation(AddPackage, p2imap[n][0]);
      assert Ops(AddPackage, p2i)[k] == op;
    } else {
      ghost var k :| 0 <= k < |p2u| && p2u[k].name == n;
      op := Operation(UpdatePackage, p2umap[n][0]);
      assert Ops(UpdatePackage, p2u)[k] == op;
    }
  }

  /** A single package has nothing it could be ordered against. */
  lemma SingleIsJustified(g: Graph, n: Name)
    requires g.Keys == {n} && forall r | r in g[n] :: r in g
    ensures AllJustified(g, [n])
  {
    var k := FirstMissing(g[n], {});
    if k < |g[n]| { assert g[n][k] in g[n]; }
    assert [n][..0] == [];
  }

  lemma SingleStartsSorted(g: Graph, names: seq<Name>)
    requires |names| <= 1 && g.Keys == Elements(names)
    ensures StartsSorted(g, names)
  {
    var k := if names != [] && g[names[0]] == [] then 1 else 0;
    assert k == 1 ==> names[..1][0] == names[0];
    assert TopoSorted(g, names[..k]);
    assert k == 0 && names != [] ==> g[names[0]][0] in g[names[0]];
  }

  lemma FewAreJustified(arts: seq<Artifact>, names: seq<Name>)
    requires |arts| <= 1 && |names| == |arts| && (names != [] ==> names[0] == arts[0].name)
    ensures Respects(RequiresGraph(arts), RequiresGraph(arts), names)
  {
    hide TopoSorted, Acyclic, Trims;
    var g := RequiresGraph(arts);
    TrimsRefl(g);
    if names != [] {
      assert names == [arts[0].name];
      SingleIsJustified(g, arts[0].name);
    } else {
      assert names == names[..0];
    }
    assert StartsSorted(g, names) by { SingleStartsSorted(g, names); }
    RespectsKept(g, g, names);
  }

  lemma ThinNames(arts: seq<Artifact>, thin: seq<PackageThin>)
    requires NamedOnce(arts) && |thin| == |arts|
    requires forall i | 0 <= i < |arts| :: thin[i].name == arts[i].name
    ensures DistinctNames(thin) && ByName(thin).Keys == ArtNames(arts)
    ensures forall i | 0 <= i < |arts| ::
      ByName(thin)[arts[i].name] == thin[i] && ArtsByName(arts)[arts[i].name] == arts[i]
  {
    assert forall i | 0 <= i < |arts| :: thin[i] in thin && arts[i] in arts;
    forall n | n in ByName(thin) ensures n in ArtNames(arts) {
      var i :| 0 <= i < |thin| && thin[i] == ByName(thin)[n];
    }
  }

  lemma ThinGraph(arts: seq<Artifact>, thin: seq<PackageThin>)
    requires NamedOnce(arts) && |thin| == |arts|
    requires forall i | 0 <= i < |arts| ::
      thin[i].name == arts[i].name && thin[i].reqs == Within(arts[i].reqs, ArtNames(arts))
    ensures DistinctNames(thin)
    ensures GraphOf(ByName(thin)) == RequiresGraph(arts)
  {
    hide Within, NamedOnce, DistinctNames;
    ThinNames(arts, thin);
    var g, h := GraphOf(ByName(thin)), RequiresGraph(arts);
    forall n | n in h ensures g[n] == h[n] {
      var a := ArtsByName(arts)[n];
      var i :| 0 <= i < |arts| && arts[i] == a;
      assert ByName(thin)[n] == thin[i];
    }
  }

  // ----- the order, told by the artefacts' own requires -----

  lemma RequiresGraphClosed(arts: seq<Artifact>)
    requires NamedOnce(arts)
    ensures Closed(RequiresGraph(arts))
  {
  }

  /** Each artefact of the chain requires the next one. */
  ghost predicate Chain(arts: seq<Artifact>, c: seq<Artifact>) {
    && (forall i | 0 <= i < |c| :: c[i] in arts)
    && forall i | 0 <= i < |c| - 1 :: c[i + 1].name in c[i].reqs
  }

  ghost predicate NoCircle(arts: seq<Artifact>) {
    forall c | |c| >= 2 && Chain(arts, c) :: c[0] != c[|c| - 1]
  }

  /** Two different chains with the same first artefact lead to `x`. */
  ghost predicate TwoWaysTo(arts: seq<Artifact>, x: Artifact) {
    exists c, c' :: c != c' && Chain(arts, c) && Chain(arts, c') && c != [] && c' != []
      && c[0] == c'[0] && c[|c| - 1] == x == c'[|c'| - 1]
  }

  ghost function ChainOf(arts: seq<Artifact>, w: seq<Name>): (c: seq<Artifact>)
    requires NamedOnce(arts) && forall i | 0 <= i < |w| :: w[i] in ArtNames(arts)
    ensures |c| == |w| && forall i | 0 <= i < |c| :: c[i] == ArtsByName(arts)[w[i]] && c[i].name == w[i]
  {
    seq(|w|, i requires 0 <= i < |w| => ArtsByName(arts)[w[i]])
  }

  lemma RequiresAre(arts: seq<Artifact>, x: Artifact, n: Name)
    requires NamedOnce(arts) && x in arts
    ensures n in RequiresGraph(arts)[x.name] <==> n in x.reqs && n in ArtNames(arts)
    ensures RequiresGraph(arts)[x.name] == Without(x.reqs, set r | r in x.reqs && r !in ArtNames(arts))
  {
  }

  lemma WalkIsChain(arts: seq<Artifact>, w: seq<Name>)
    requires NamedOnce(arts) && IsWalk(RequiresGraph(arts), w)
    ensures Chain(arts, ChainOf(arts, w))
  {
    var c := ChainOf(arts, w);
    assert forall i | 0 <= i < |c| :: c[i] in arts;
    forall i | 0 <= i < |c| - 1 ensures c[i + 1].name in c[i].reqs { RequiresAre(arts, c[i], w[i + 1]); }
  }

  lemma CycleIsCircle(arts: seq<Artifact>, w: seq<Name>)
    requires NamedOnce(arts) && IsCycle(RequiresGraph(arts), w)
    ensures var c := ChainOf(arts, w); |c| >= 2 && Chain(arts, c) && c[0] == c[|c| - 1]
  {
    WalkIsChain(arts, w);
  }

  lemma NoCircleIsAcyclic(arts: seq<Artifact>)
    requires NamedOnce(arts) && NoCircle(arts)
    ensures Acyclic(RequiresGraph(arts))
  {
    forall w ensures !IsCycle(RequiresGraph(arts), w) {
      if IsCycle(RequiresGraph(arts), w) { CycleIsCircle(arts, w); }
    }
  }

  lemma SameChains(arts: seq<Artifact>, x: Artifact, w: seq<Name>, w': seq<Name>)
    requires NamedOnce(arts) && x in arts && !TwoWaysTo(arts, x)
    requires SameEnds(RequiresGraph(arts), w, w') && w[|w| - 1] == x.name
    ensures w == w'
  {
    hide NamedOnce, RequiresGraph, Chain, ArtsByName, ChainOf, IsWalk, TwoWaysTo;
    WalkIsChain(arts, w);
    WalkIsChain(arts, w');
    ChainEnds(arts, x, ChainOf(arts, w), ChainOf(arts, w'));
    assert forall i | 0 <= i < |w| :: w[i] == ChainOf(arts, w)[i].name;
    assert forall i | 0 <= i < |w'| :: w'[i] == ChainOf(arts, w')[i].name;
  }

  lemma ChainEnds(arts: seq<Artifact>, x: Artifact, c: seq<Artifact>, c': seq<Artifact>)
    requires !TwoWaysTo(arts, x) && Chain(arts, c) && Chain(arts, c') && c != [] && c' != []
    requires c[0] == c'[0] && c[|c| - 1] == x == c'[|c'| - 1]
    ensures c == c'
  {
  }

  lemma OneChainTo(arts: seq<Artifact>, x: Artifact)
    requires NamedOnce(arts) && x in arts && !TwoWaysTo(arts, x)
    ensures OneWayIn(RequiresGraph(arts), x.name)
  {
    hide NamedOnce, TwoWaysTo, RequiresGraph;
    var g := RequiresGraph(arts);
    forall w, w' | SameEnds(g, w, w') && w[|w| - 1] == x.name && Onward(g, w) ensures w == w' {
      SameChains(arts, x, w, w');
    }
  }

  lemma {:induction false} FirstKeptMissing(reqs: seq<Name>, drop: set<Name>, seen: set<Name>, k: nat)
    requires k < |reqs| && reqs[k] !in drop && reqs[k] !in seen
    requires forall j | 0 <= j < k :: reqs[j] in drop || reqs[j] in seen
    ensures var r := Without(reqs, drop); var m := FirstMissing(r, seen); m < |r| && r[m] == reqs[k]
  {
    if k > 0 {
      var r := Without(reqs[1..], drop);
      FirstKeptMissing(reqs[1..], drop, seen, k - 1);
      if reqs[0] !in drop { assert Without(reqs, drop) == [reqs[0]] + r && ([reqs[0]] + r)[1..] == r; }
    }
  }

  /** The requires of `x` that the plan handles are handled before it. */
  ghost predicate AllBefore(arts: seq<Artifact>, ops: seq<Operation>, i: nat)
    requires i < |ops|
  {
    forall n | n in ops[i].artifact.reqs && n in ArtNames(arts) :: n in OpNames(ops[..i])
  }

  lemma OpsPrefix(ops: seq<Operation>, i: nat)
    requires i <= |ops|
    ensures OpNames(ops[..i]) == OpNames(ops)[..i]
  {
  }

  lemma AllBeforeWithoutCircle(arts: seq<Artifact>, kept: Graph, ops: seq<Operation>, i: nat)
    requires NamedOnce(arts) && NoCircle(arts) && i < |ops| && ops[i].artifact in arts
    requires Respects(RequiresGraph(arts), kept, OpNames(ops))
    ensures AllBefore(arts, ops, i)
  {
    var g, x := RequiresGraph(arts), ops[i].artifact;
    NoCircleIsAcyclic(arts);
    AcyclicIsNoneMutual(g);
    RequiresGraphClosed(arts);
    OpsPrefix(ops, i);
    hide RequiresGraph;
    assert kept == g && TopoSorted(g, OpNames(ops)) && OpNames(ops)[i] == x.name;
    forall n | n in x.reqs && n in ArtNames(arts) ensures n in OpNames(ops[..i]) { RequiresAre(arts, x, n); }
  }

  lemma ReqsListedOnce(arts: seq<Artifact>)
    requires NamedOnce(arts) && forall a | a in arts :: NoDuplicates(a.reqs)
    ensures ListedOnce(RequiresGraph(arts))
  {
    var g := RequiresGraph(arts);
    forall n | n in g ensures NoDuplicates(g[n]) {
      var a := ArtsByName(arts)[n];
      WithoutOnce(a.reqs, set r | r in a.reqs && r !in ArtNames(arts));
    }
  }

  /** The first require kept and missing requires the package back. */
  lemma MissingRequiresBack(g: Graph, kept: Graph, names: seq<Name>, i: nat, reqs: seq<Name>, drop: set<Name>, k: nat)
    requires Respects(g, kept, names) && ListedOnce(g) && i < |names| && names[i] in g && OneWayIn(g, names[i])
    requires g[names[i]] == Without(reqs, drop) && k < |reqs| && reqs[k] !in drop && reqs[k] !in names[..i]
    requires forall j | 0 <= j < k :: reqs[j] in drop || reqs[j] in names[..i]
    ensures reqs[k] in g && names[i] in g[reqs[k]]
  {
    var seen := Elements(names[..i]);
    assert kept.Keys == g.Keys && kept[names[i]] == g[names[i]];
    hide Respects, OneWayIn, ListedOnce;
    assert Justified(kept, seen, names[i]) by { assert AllJustified(kept, names); }
    FirstKeptMissing(reqs, drop, seen, k);
    TrimsIsSubgraph(g, kept);
  }

  /** With circles: the first require of `x` that the plan handles, and not before `x`, requires `x`. */
  lemma FirstUnhandled(arts: seq<Artifact>, kept: Graph, names: seq<Name>, i: nat, x: Artifact, k: nat)
    requires NamedOnce(arts) && i < |names| && x in arts && x.name == names[i] && k < |x.reqs|
    requires Respects(RequiresGraph(arts), kept, names)
    requires x.reqs[k] in ArtNames(arts) && x.reqs[k] !in names[..i]
    requires forall j | 0 <= j < k && x.reqs[j] in ArtNames(arts) :: x.reqs[j] in names[..i]
    requires (forall a | a in arts :: NoDuplicates(a.reqs)) && !TwoWaysTo(arts, x)
    ensures x.name in ArtsByName(arts)[x.reqs[k]].reqs
  {
    hide RequiresGraph, Respects, TwoWaysTo, OneWayIn, ListedOnce, NoDuplicates, NamedOnce, Without;
    var g, drop := RequiresGraph(arts), set r | r in x.reqs && r !in ArtNames(arts);
    OneChainTo(arts, x);
    ReqsListedOnce(arts);
    RequiresAre(arts, x, x.name);
    MissingRequiresBack(g, kept, names, i, x.reqs, drop, k);
    RequiresAre(arts, ArtsByName(arts)[x.reqs[k]], x.name);
  }

  /** Installs and updates in the order of the dependency sort. */
  method SortedOperations(p2i: seq<Artifact>, p2u: seq<Artifact>) returns (tmpOps: seq<Operation>, ghost kept: Graph)
    requires NamedOnce(p2i + p2u)
    ensures Handles(p2i, p2u, tmpOps)
    ensures Respects(RequiresGraph(p2i + p2u), kept, OpNames(tmpOps))
  {
    hide Respects;
    var merged := p2i + p2u;
    if |merged| <= 1 {
      tmpOps := if |merged| == 0 then [] else [Operation(if |p2i| > 0 then AddPackage else UpdatePackage, merged[0])];
      kept := RequiresGraph(merged);
      FewAreJustified(merged, OpNames(tmpOps));
      assert |merged| == 1 ==> tmpOps[0] in Ops(AddPackage, p2i) || tmpOps[0] in Ops(UpdatePackage, p2u) by {
        if |p2i| > 0 { assert Ops(AddPackage, p2i)[0] in Ops(AddPackage, p2i); }
        else if |p2u| > 0 { assert Ops(UpdatePackage, p2u)[0] in Ops(UpdatePackage, p2u); }
      }
    } else {
      var sorted;
      sorted, kept := SortArtifacts(merged);
      tmpOps := ForwardOperations(p2i, p2u, sorted);
    }
  }

  /** The thin copies of all artefacts of a plan. */
  method ThinArtifacts(merged: seq<Artifact>) returns (pthinarr: seq<PackageThin>)
    requires NamedOnce(merged)
    ensures DistinctNames(pthinarr) && forall p | p in pthinarr :: fresh(p)
    ensures GraphOf(ByName(pthinarr)) == RequiresGraph(merged) && ByName(pthinarr).Keys == ArtNames(merged)
  {
    hide NamedOnce, DistinctNames, Called, Within;
    var mergedMap := ToMap(merged);
    pthinarr := CreateThinPkgsPlist(merged, mergedMap.Keys);
    ThinGraph(merged, pthinarr);
    assert ByName(pthinarr).Keys == GraphOf(ByName(pthinarr)).Keys;
  }

  method SortArtifacts(merged: seq<Artifact>) returns (sorted: seq<PackageThin>, ghost kept: Graph)
    requires NamedOnce(merged)
    ensures NoDuplicates(NamesOf(sorted)) && Elements(NamesOf(sorted)) == ArtNames(merged)
    ensures forall p | p in sorted :: p.name in ArtNames(merged)
    ensures Respects(RequiresGraph(merged), kept, NamesOf(sorted))
  {
    hide Trims, Respects, Acyclic, Closed, NamedOnce, DistinctNames, Called;
    var pthinarr := ThinArtifacts(merged);
    RequiresGraphClosed(merged);
    var res, _, _ := SortPkgsThinArr(pthinarr);
    kept := GraphOf(ByName(pthinarr));
    sorted := res.value;
    SortedNames(pthinarr, sorted);
  }

  lemma SortedNames(list: seq<PackageThin>, sorted: seq<PackageThin>)
    requires DistinctNames(list) && multiset(sorted) == multiset(list)
    ensures NoDuplicates(NamesOf(sorted))
    ensures Elements(NamesOf(sorted)) == ByName(list).Keys
    ensures forall p | p in sorted :: p.name in ByName(list)
  {
    PermutedInput(sorted, list);
    assert forall n | n in ByName(list) :: ByName(sorted)[n] in sorted;
    forall p | p in sorted ensures p.name in NamesOf(sorted) {
      var i :| 0 <= i < |sorted| && sorted[i] == p;
      assert NamesOf(sorted)[i] == p.name;
    }
  }

  /** The removals of a plan: the pure ones, then those of the replaced packages. Together they
      remove every package of the pack once. */
  lemma RemovalsConserved(p2r: seq<Artifact>, merged: set<Name>, sorted: seq<Operation>)
    requires NamedOnce(p2r) && NoDuplicates(OpNames(sorted)) && Elements(OpNames(sorted)) == merged
    ensures var removed := ArtsByName(p2r);
      multiset(PureRemovals(p2r, merged)) + multiset(ReplacedRemovals(sorted, removed))
        == multiset(Ops(RemovePackage, p2r))
  {
    var removed := ArtsByName(p2r);
    var pure, replaced, all := PureRemovals(p2r, merged), ReplacedRemovals(sorted, removed), Ops(RemovePackage, p2r);
    PureRemovalsAre(p2r, merged);
    ReplacedRemovalsAre(sorted, removed);
    hide PureRemovals, ReplacedRemovals;
    RemovalsAre(p2r);
    hide NamedOnce, ArtsByName, Ops;
    var both := pure + replaced;
    forall x ensures x in both <==> x in all {
      assert x in both <==> x in pure || x in replaced;
    }
    assert NoDuplicates(both);
    SameMembersPermute(both, all);
  }

  lemma RemovalsAre(p2r: seq<Artifact>)
    requires NamedOnce(p2r)
    ensures NoDuplicates(Ops(RemovePackage, p2r))
    ensures forall x :: x in Ops(RemovePackage, p2r) <==>
      x.action == RemovePackage && x.artifact.name in ArtsByName(p2r) && ArtsByName(p2r)[x.artifact.name] == x.artifact
    ensures forall a | a in p2r :: a.name in ArtsByName(p2r) && ArtsByName(p2r)[a.name] == a
  {
    var all := Ops(RemovePackage, p2r);
    assert forall k | 0 <= k < |p2r| :: all[k] in all && p2r[k] in p2r;
    assert forall x :: x in all <==> x.action == RemovePackage && x.artifact in p2r;
  }

  lemma {:induction false} PureRemovalsAre(p2r: seq<Artifact>, merged: set<Name>)
    requires NamedOnce(p2r)
    ensures NoDuplicates(PureRemovals(p2r, merged))
    ensures forall x :: x in PureRemovals(p2r, merged) <==>
      x.action == RemovePackage && x.artifact in p2r && x.artifact.name !in merged
  {
    if p2r != [] {
      var last := |p2r| - 1;
      PureRemovalsAre(p2r[..last], merged);
      assert p2r == p2r[..last] + [p2r[last]];
    }
  }

  lemma {:induction false} ReplacedRemovalsAre(ops: seq<Operation>, removed: Removals)
    requires NoDuplicates(OpNames(ops))
    requires forall n | n in removed :: removed[n].name == n
    ensures NoDuplicates(ReplacedRemovals(ops, removed))
    ensures forall x :: x in ReplacedRemovals(ops, removed) <==>
      && x.action == RemovePackage && x.artifact.name in OpNames(ops)
      && x.artifact.name in removed && removed[x.artifact.name] == x.artifact
  {
    if ops != [] {
      var last := |ops| - 1;
      assert OpNames(ops) == OpNames(ops[..last]) + [ops[last].artifact.name];
      ReplacedRemovalsAre(ops[..last], removed);
    }
  }

  lemma {:induction false} OnlyRemovals(p2r: seq<Artifact>)
    ensures PureRemovals(p2r, {}) == Ops(RemovePackage, p2r)
  {
    if p2r != [] { OnlyRemovals(p2r[..|p2r| - 1]); }
  }

  lemma {:induction false} NothingToSplice(ops: seq<Operation>, admit: AdmitFn)
    ensures Build([], ops, map[], admit) == ops
  {
    if ops != [] { NothingToSplice(ops[..|ops| - 1], admit); }
  }

  lemma NothingRemoved(p2r: seq<Artifact>, tmpOps: seq<Operation>, merged: set<Name>, admit: AdmitFn)
    requires p2r == [] && NamedOnce(p2r)
    ensures Build(PureRemovals(p2r, merged), tmpOps, ArtsByName(p2r), admit) == tmpOps
  {
    assert ArtsByName(p2r) == map[] && PureRemovals(p2r, merged) == [];
    NothingToSplice(tmpOps, admit);
  }

  lemma NothingSpliced(p2r: seq<Artifact>, tmpOps: seq<Operation>, merged: set<Name>, admit: AdmitFn)
    requires NamedOnce(p2r) && tmpOps == [] && merged == {}
    ensures Build(PureRemovals(p2r, merged), tmpOps, ArtsByName(p2r), admit) == PureRemovals(p2r, {})
  {
  }

  lemma PlanInputIsValid(p2r: seq<Artifact>, merged: set<Name>, sorted: seq<Operation>)
    requires NamedOnce(p2r) && NoDuplicates(OpNames(sorted)) && Elements(OpNames(sorted)) == merged
    requires forall op | op in sorted :: op.action != RemovePackage
    ensures ValidInput(PureRemovals(p2r, merged), sorted, ArtsByName(p2r))
  {
    PureRemovalsAre(p2r, merged);
    forall op | op in sorted ensures op.artifact.name in merged {
      var i :| 0 <= i < |sorted| && sorted[i] == op;
      assert OpNames(sorted)[i] in OpNames(sorted);
    }
    assert forall i | 0 <= i < |sorted| :: OpNames(sorted)[i] == sorted[i].artifact.name;
  }

  method RemovalsNotMerged(p2r: seq<Artifact>, merged: set<Name>) returns (newRemoves: seq<Operation>)
    ensures newRemoves == PureRemovals(p2r, merged)
  {
    newRemoves := [];
    for i := 0 to |p2r|
      invariant newRemoves == PureRemovals(p2r[..i], merged)
    {
      assert p2r[..i + 1][..i] == p2r[..i];
      if p2r[i].name !in merged {
        newRemoves := newRemoves + [Operation(RemovePackage, p2r[i])];
      }
    }
    assert p2r[..|p2r|] == p2r;
  }

  /** The plan for operations that are sorted already. */
  method AddRemovals(p2r: seq<Artifact>, tmpOps: seq<Operation>, merged: set<Name>, admit: AdmitFn)
    returns (ans: seq<Operation>)
    requires NamedOnce(p2r) && (tmpOps == [] ==> merged == {})
    ensures ans == Build(PureRemovals(p2r, merged), tmpOps, ArtsByName(p2r), admit)
  {
    hide Called, NamedOnce, Build, PureRemovals, ArtsByName;
    if |p2r| == 0 {
      NothingRemoved(p2r, tmpOps, merged, admit);
      return tmpOps;
    }
    var p2rmap := ToMap(p2r);
    if |tmpOps| == 0 {
      ans := [];
      for i := 0 to |p2r|
        invariant ans == Ops(RemovePackage, p2r[..i])
      {
        assert p2rmap[p2r[i].name] == [p2r[i]];
        ans := ans + [Operation(RemovePackage, p2rmap[p2r[i].name][0])];
      }
      OnlyRemovals(p2r);
      NothingSpliced(p2r, tmpOps, merged, admit);
      assert p2r[..|p2r|] == p2r;
    } else {
      ans := RemovalsNotMerged(p2r, merged);
      ans := SpliceRemovals(ans, tmpOps, p2rmap, ArtsByName(p2r), admit);
    }
  }

  // ----- what the plan promises, told by its operations -----

  /** Without circles every package is handled after all it requires. */
  ghost predicate RequiresFirst(arts: seq<Artifact>, plan: seq<Operation>) {
    NoCircle(arts) ==> forall x, y | x in plan && y in plan && x.action != RemovePackage && y.action != RemovePackage
      && y.artifact.name in x.artifact.reqs :: Precedes(plan, y, x)
  }

  /** With circles: `y` is the first require of `x` that the plan does not handle before it. */
  ghost predicate FirstLate(plan: seq<Operation>, x: Operation, y: Operation, k: nat) {
    && x in plan && y in plan && x.action != RemovePackage && y.action != RemovePackage
    && k < |x.artifact.reqs| && y.artifact.name == x.artifact.reqs[k] && !Precedes(plan, y, x)
    && forall j, z | 0 <= j < k && z in plan && z.action != RemovePackage && z.artifact.name == x.artifact.reqs[j] ::
         Precedes(plan, z, x)
  }

  /** A require comes late only if it requires the package back, or if two ways lead to the package. */
  ghost predicate LateRequireBack(arts: seq<Artifact>, plan: seq<Operation>) {
    (forall a | a in arts :: NoDuplicates(a.reqs)) ==>
      forall x, y, k | FirstLate(plan, x, y, k) && !TwoWaysTo(arts, x.artifact) :: x.artifact.name in y.artifact.reqs
  }

  /** The old version of a package is removed before the new one comes. */
  ghost predicate OldBeforeNew(p2r: seq<Artifact>, plan: seq<Operation>) {
    forall r, x | r in p2r && x in plan && x.action != RemovePackage && x.artifact.name == r.name ::
      Precedes(plan, Operation(RemovePackage, r), x)
  }

  /** What is only removed goes first, in the given order. */
  ghost predicate OnlyRemovedFirst(arts: seq<Artifact>, p2r: seq<Artifact>, plan: seq<Operation>) {
    && (forall r, x | r in p2r && (forall a | a in arts :: a.name != r.name)
          && x in plan && x.action != RemovePackage ::
          Precedes(plan, Operation(RemovePackage, r), x))
    && forall i, j | 0 <= i < j < |p2r|
         && (forall a | a in arts :: a.name != p2r[i].name) && (forall a | a in arts :: a.name != p2r[j].name) ::
         Precedes(plan, Operation(RemovePackage, p2r[i]), Operation(RemovePackage, p2r[j]))
  }

  /** Where an operation of the sorted list stands. */
  lemma OrderInPlan(ops: seq<Operation>, plan: seq<Operation>, i: nat, y: Operation)
    requires Forward(plan) == ops && NoDuplicates(OpNames(ops)) && i < |ops| && y in ops
    requires forall op | op in ops :: op.action != RemovePackage
    ensures Precedes(plan, y, ops[i]) <==> y.artifact.name in OpNames(ops[..i])
  {
    ForwardOrder(plan, y, ops[i]);
    var j :| 0 <= j < |ops| && ops[j] == y;
    assert forall k | 0 <= k < |ops| && ops[k].artifact.name == y.artifact.name :: OpNames(ops)[k] == OpNames(ops)[j];
    assert forall k | 0 <= k < i :: ops[..i][k] == ops[k] && OpNames(ops[..i])[k] == ops[k].artifact.name;
    if j < i { assert OpNames(ops[..i])[j] == y.artifact.name; }
  }

  /** `ops` are the operations of the plan other than removals, one for each artefact. */
  ghost predicate Carries(arts: seq<Artifact>, ops: seq<Operation>, plan: seq<Operation>) {
    && Forward(plan) == ops && NoDuplicates(OpNames(ops)) && Elements(OpNames(ops)) == ArtNames(arts)
    && forall op | op in ops :: op.action != RemovePackage && op.artifact in arts
  }

  lemma InOps(arts: seq<Artifact>, ops: seq<Operation>, plan: seq<Operation>, x: Operation) returns (i: nat)
    requires Carries(arts, ops, plan) && x in plan && x.action != RemovePackage
    ensures i < |ops| && ops[i] == x && OpNames(ops)[i] == x.artifact.name && x.artifact in arts
  {
    ForwardOrder(plan, x, x);
    i :| 0 <= i < |ops| && ops[i] == x;
  }

  lemma PlanRequiresFirst(arts: seq<Artifact>, kept: Graph, ops: seq<Operation>, plan: seq<Operation>)
    requires NamedOnce(arts) && Carries(arts, ops, plan) && Respects(RequiresGraph(arts), kept, OpNames(ops))
    ensures RequiresFirst(arts, plan)
  {
    if NoCircle(arts) {
      hide NamedOnce, NoCircle, Respects, RequiresGraph;
      forall x, y | x in plan && y in plan && x.action != RemovePackage && y.action != RemovePackage
        && y.artifact.name in x.artifact.reqs ensures Precedes(plan, y, x)
      {
        var i := InOps(arts, ops, plan, x);
        var j := InOps(arts, ops, plan, y);
        AllBeforeWithoutCircle(arts, kept, ops, i);
        OrderInPlan(ops, plan, i, y);
      }
    }
  }

  lemma PlanRequiresBack(arts: seq<Artifact>, kept: Graph, ops: seq<Operation>, plan: seq<Operation>,
                         x: Operation, y: Operation, k: nat)
    requires NamedOnce(arts) && Carries(arts, ops, plan) && Respects(RequiresGraph(arts), kept, OpNames(ops))
    requires (forall a | a in arts :: NoDuplicates(a.reqs)) && FirstLate(plan, x, y, k) && !TwoWaysTo(arts, x.artifact)
    ensures x.artifact.name in y.artifact.reqs
  {
    hide Respects, RequiresGraph, TwoWaysTo, NoDuplicates, NamedOnce;
    var i := InOps(arts, ops, plan, x);
    var _ := InOps(arts, ops, plan, y);
    OrderInPlan(ops, plan, i, y);
    OpsPrefix(ops, i);
    forall j | 0 <= j < k && x.artifact.reqs[j] in ArtNames(arts) ensures x.artifact.reqs[j] in OpNames(ops)[..i] {
      var m :| 0 <= m < |ops| && OpNames(ops)[m] == x.artifact.reqs[j];
      ForwardOrder(plan, ops[m], ops[m]);
      OrderInPlan(ops, plan, i, ops[m]);
    }
    FirstUnhandled(arts, kept, OpNames(ops), i, x.artifact, k);
  }

  lemma PlanLateRequireBack(arts: seq<Artifact>, kept: Graph, ops: seq<Operation>, plan: seq<Operation>)
    requires NamedOnce(arts) && Carries(arts, ops, plan) && Respects(RequiresGraph(arts), kept, OpNames(ops))
    ensures LateRequireBack(arts, plan)
  {
    hide Respects, RequiresGraph, TwoWaysTo, NoDuplicates, NamedOnce, Carries, FirstLate;
    if forall a | a in arts :: NoDuplicates(a.reqs) {
      forall x, y, k | FirstLate(plan, x, y, k) && !TwoWaysTo(arts, x.artifact)
        ensures x.artifact.name in y.artifact.reqs
      {
        PlanRequiresBack(arts, kept, ops, plan, x, y, k);
      }
    }
  }

  /** Packages that are only removed keep their order. */
  lemma {:induction false} PureRemovalsInOrder(p2r: seq<Artifact>, merged: set<Name>, i: nat, j: nat)
    requires i < j < |p2r| && p2r[i].name !in merged && p2r[j].name !in merged
    ensures Precedes(PureRemovals(p2r, merged), Operation(RemovePackage, p2r[i]), Operation(RemovePackage, p2r[j]))
  {
    var last, x, y := |p2r| - 1, Operation(RemovePackage, p2r[i]), Operation(RemovePackage, p2r[j]);
    var s, r := PureRemovals(p2r[..last], merged), PureRemovals(p2r, merged);
    if j < last {
      PureRemovalsInOrder(p2r[..last], merged, i, j);
      var a, b :| 0 <= a < b < |s| && s[a] == x && s[b] == y;
      assert r[a] == x && r[b] == y;
    } else {
      PureRemovalHas(p2r[..last], merged, i);
      var a :| 0 <= a < |s| && s[a] == x;
      assert r[a] == x && r[|s|] == y;
    }
  }

  lemma {:induction false} PureRemovalHas(p2r: seq<Artifact>, merged: set<Name>, i: nat)
    requires i < |p2r| && p2r[i].name !in merged
    ensures Operation(RemovePackage, p2r[i]) in PureRemovals(p2r, merged)
  {
    if i < |p2r| - 1 { PureRemovalHas(p2r[..|p2r| - 1], merged, i); }
  }

  lemma InFront(head: seq<Operation>, plan: seq<Operation>, x: Operation, y: Operation)
    requires head <= plan
    ensures Precedes(head, x, y) ==> Precedes(plan, x, y)
    ensures x in head && y in plan && y !in head ==> Precedes(plan, x, y)
  {
    if Precedes(head, x, y) {
      var i, j :| 0 <= i < j < |head| && head[i] == x && head[j] == y;
      assert plan[i] == x && plan[j] == y;
    }
    if x in head && y in plan && y !in head {
      var i :| 0 <= i < |head| && head[i] == x;
      var j :| 0 <= j < |plan| && plan[j] == y;
      assert plan[i] == x && forall k | 0 <= k < |head| :: plan[k] == head[k] && head[k] in head;
    }
  }

  lemma OldVersionFirst(head: seq<Operation>, ops: seq<Operation>, removed: Removals, admit: AdmitFn, r: Artifact,
                        x: Operation)
    requires Forward(Build(head, ops, removed, admit)) == ops
    requires x in Build(head, ops, removed, admit) && x.action != RemovePackage
    requires x.artifact.name in removed && removed[x.artifact.name] == r
    ensures Precedes(Build(head, ops, removed, admit), Operation(RemovePackage, r), x)
  {
    ForwardOrder(Build(head, ops, removed, admit), x, x);
    var j :| 0 <= j < |ops| && ops[j] == x;
    RemovedBeforeReplaced(head, ops, removed, admit, j);
  }

  lemma PureRemovalsFirst(arts: seq<Artifact>, p2r: seq<Artifact>, plan: seq<Operation>)
    requires PureRemovals(p2r, ArtNames(arts)) <= plan
    requires forall h | h in PureRemovals(p2r, ArtNames(arts)) :: h.action == RemovePackage
    ensures OnlyRemovedFirst(arts, p2r, plan)
  {
    var head := PureRemovals(p2r, ArtNames(arts));
    hide PureRemovals, Precedes;
    forall r, x | r in p2r && (forall a | a in arts :: a.name != r.name) && x in plan && x.action != RemovePackage
      ensures Precedes(plan, Operation(RemovePackage, r), x)
    {
      var i :| 0 <= i < |p2r| && p2r[i] == r;
      PureRemovalHas(p2r, ArtNames(arts), i);
      InFront(head, plan, Operation(RemovePackage, r), x);
    }
    forall i, j | 0 <= i < j < |p2r|
      && (forall a | a in arts :: a.name != p2r[i].name) && (forall a | a in arts :: a.name != p2r[j].name)
      ensures Precedes(plan, Operation(RemovePackage, p2r[i]), Operation(RemovePackage, p2r[j]))
    {
      PureRemovalsInOrder(p2r, ArtNames(arts), i, j);
      InFront(head, plan, Operation(RemovePackage, p2r[i]), Operation(RemovePackage, p2r[j]));
    }
  }

  lemma OldVersionsAreFirst(p2r: seq<Artifact>, head: seq<Operation>, ops: seq<Operation>, admit: AdmitFn)
    requires NamedOnce(p2r) && Forward(Build(head, ops, ArtsByName(p2r), admit)) == ops
    ensures OldBeforeNew(p2r, Build(head, ops, ArtsByName(p2r), admit))
  {
    var removed := ArtsByName(p2r);
    hide ArtsByName, NamedOnce, Build, Precedes, Forward;
    forall r, x | r in p2r && x in Build(head, ops, removed, admit) && x.action != RemovePackage
      && x.artifact.name == r.name ensures Precedes(Build(head, ops, removed, admit), Operation(RemovePackage, r), x)
    {
      OldVersionFirst(head, ops, removed, admit, r, x);
    }
  }

  lemma PlanPromises(p2i: seq<Artifact>, p2u: seq<Artifact>, p2r: seq<Artifact>, kept: Graph, ops: seq<Operation>,
                     admit: AdmitFn)
    requires NamedOnce(p2i + p2u) && NamedOnce(p2r) && Handles(p2i, p2u, ops)
    requires Respects(RequiresGraph(p2i + p2u), kept, OpNames(ops))
    requires ValidInput(PureRemovals(p2r, ArtNames(p2i + p2u)), ops, ArtsByName(p2r))
    ensures var arts, plan := p2i + p2u, Build(PureRemovals(p2r, ArtNames(p2i + p2u)), ops, ArtsByName(p2r), admit);
      && RequiresFirst(arts, plan) && LateRequireBack(arts, plan)
      && OldBeforeNew(p2r, plan) && OnlyRemovedFirst(arts, p2r, plan)
  {
    var arts, head, removed := p2i + p2u, PureRemovals(p2r, ArtNames(p2i + p2u)), ArtsByName(p2r);
    var plan := Build(head, ops, removed, admit);
    PlanKeepsSortedOrder(head, ops, removed, admit);
    PlanKeepsFront(head, ops, removed, admit);
    PureRemovalsFirst(arts, p2r, plan);
    OldVersionsAreFirst(p2r, head, ops, admit);
    HandledArtifacts(p2i, p2u, ops);
    hide NamedOnce, Respects, RequiresGraph, Build, PureRemovals, ArtsByName, RequiresFirst, LateRequireBack;
    assert Carries(arts, ops, plan);
    PlanRequiresFirst(arts, kept, ops, plan);
    PlanLateRequireBack(arts, kept, ops, plan);
  }

  lemma HandledArtifacts(p2i: seq<Artifact>, p2u: seq<Artifact>, ops: seq<Operation>)
    requires Handles(p2i, p2u, ops)
    ensures forall op | op in ops :: op.action != RemovePackage && op.artifact in p2i + p2u
  {
    forall op | op in ops ensures op.action != RemovePackage && op.artifact in p2i + p2u {
      if op in Ops(AddPackage, p2i) {
        var k :| 0 <= k < |p2i| && Ops(AddPackage, p2i)[k] == op;
      } else {
        var k :| 0 <= k < |p2u| && Ops(UpdatePackage, p2u)[k] == op;
      }
    }
  }

  /** The whole plan. `sorted` are its installs and updates, `kept` the requires their order
      respects. */
  method OrderOperations(p2i: Pack, p2u: Pack, p2r: Pack, admit: AdmitFn)
    returns (res: Result<seq<Operation>>, ghost sorted: seq<Operation>, ghost kept: Graph)
    requires p2i.Pack? && p2u.Pack? ==> NamedOnce(p2i.artifacts + p2u.artifacts)
    requires p2r.Pack? ==> NamedOnce(p2r.artifacts)
    ensures res.Err? <==> p2i.NoPack? || p2u.NoPack? || p2r.NoPack?
    ensures res.Ok? ==>
      var head := PureRemovals(p2r.artifacts, ArtNames(p2i.artifacts + p2u.artifacts));
      var removed := ArtsByName(p2r.artifacts);
      ValidInput(head, sorted, removed) && res.value == Build(head, sorted, removed, admit)
    ensures res.Ok? ==>
      && multiset(sorted) == multiset(Ops(AddPackage, p2i.artifacts) + Ops(UpdatePackage, p2u.artifacts))
      && multiset(res.value) == multiset(sorted) + multiset(Ops(RemovePackage, p2r.artifacts))
      && Respects(RequiresGraph(p2i.artifacts + p2u.artifacts), kept, OpNames(sorted))
    ensures res.Ok? ==>
      && RequiresFirst(p2i.artifacts + p2u.artifacts, res.value)
      && LateRequireBack(p2i.artifacts + p2u.artifacts, res.value)
      && OldBeforeNew(p2r.artifacts, res.value)
      && OnlyRemovedFirst(p2i.artifacts + p2u.artifacts, p2r.artifacts, res.value)
  {
    hide Respects, ValidInput, NamedOnce, RequiresFirst, LateRequireBack, OldBeforeNew, OnlyRemovedFirst, Precedes;
    hide RequiresGraph;
    sorted, kept := [], map[];
    if p2i.NoPack? || p2u.NoPack? || p2r.NoPack? {
      res := Err("Invalid parameters to OrderOperations");
      return;
    }
    var merged := p2i.artifacts + p2u.artifacts;
    var mergedMap := ToMap(merged);
    var tmpOps;
    tmpOps, kept := SortedOperations(p2i.artifacts, p2u.artifacts);
    sorted := tmpOps;
    HandlesIsPermutation(p2i.artifacts, p2u.artifacts, sorted);
    PlanInputIsValid(p2r.artifacts, mergedMap.Keys, sorted);
    RemovalsConserved(p2r.artifacts, mergedMap.Keys, sorted);
    PlanConserves(PureRemovals(p2r.artifacts, mergedMap.Keys), sorted, ArtsByName(p2r.artifacts), admit);
    assert tmpOps == [] ==> Elements(OpNames(tmpOps)) == {};
    var ans := AddRemovals(p2r.artifacts, tmpOps, mergedMap.Keys, admit);
    PlanPromises(p2i.artifacts, p2u.artifacts, p2r.artifacts, kept, sorted, admit);
    res := Ok(ans);
  }
}
