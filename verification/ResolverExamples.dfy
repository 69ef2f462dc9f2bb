/** Resolutions whose result does not meet a requirement: a version is installed whose requires are
    not met, one that its user refuses, and one that nobody uses.
 */
module ResolverExamples {
  import opened Admissions
  import opened Graphs
  import opened Packages
  import opened Resolver
  import opened VersionOrder

  const NEWEST_FIRST: VersionSorter := _ => Ok(["2", "1"])

  lemma PickNewest(p1: Pkg, p2: Pkg)
    requires p1.version == "1" && p2.version == "2"
    ensures Picked([p1, p2], ["2", "1"]) == [p2, p1]
  {
    var val, vs := [p1, p2], ["2", "1"];
    assert vs[..1] == ["2"] && vs[..1][..0] == [];
    assert val[0].version != "2" && val[1].version == "2";
    FindNext(val, 0, "1");
    FindNext(val, 1, "2");
    assert Picked(val, vs[..1]) == [] + Find(val, "2");
  }

  /** Nothing is in conflict when no package names another one as a conflict. */
  lemma NoConflicts(solver: Solver, ps: seq<Pkg>, a: Pkg)
    requires solver.ignoreConflicts || Indexes(solver.conflictsMap, ps, Conflicts)
    requires a.conflicts == [] && forall p | p in ps :: p.conflicts == []
    ensures !solver.Conflicting(a)
  {
    assert !solver.ignoreConflicts ==> forall p :: !Listed(solver.conflictsMap, a.name, p) by {
      forall p ensures !(p in ps && Names(Entries(p, Conflicts), a.name)) {
      }
    }
    assert a.name in solver.conflictsMap ==>
      forall p | p in solver.conflictsMap[a.name] :: Listed(solver.conflictsMap, a.name, p);
  }

  /** No version is banned. */
  lemma KeepsBoth(solver: Solver, p1: Pkg, p2: Pkg, m: nat)
    requires m <= 1 && !solver.Conflicting(p1) && !solver.Conflicting(p2)
    ensures solver.ConflictVersions([p2, p1][..m]) == {} && solver.Acceptable([p2, p1], m)
    ensures Keep([p2, p1], solver.ConflictVersions([p2, p1][..m])) == [p2, p1]
  {
    var arts := [p2, p1];
    hide Solver.Conflicting;
    assert solver.ConflictVersions(arts[..m]) == {};
    assert arts[..1] == [p2] && arts[..1][..0] == [];
    assert Keep(arts[..1], {}) == [] + [p2] && Keep(arts, {}) == Keep(arts[..1], {}) + [p1];
  }

  /** The first version that suits, after others that are passed at once. */
  lemma Takes(solver: Solver, p1: Pkg, p2: Pkg, m: nat, s: Snapshot)
    requires m <= 1 && !solver.Conflicting(p1) && !solver.Conflicting(p2)
    requires solver.Suits([p2, p1][m], s) && (m == 1 ==> solver.PassedAtOnce(p2, s))
    ensures solver.BestSuits([p2, p1], m, s)
    ensures Keep([p2, p1], solver.ConflictVersions([p2, p1][..m])) == [p2, p1]
  {
    hide Solver.Conflicting, Solver.Suits, Solver.PassedAtOnce;
    KeepsBoth(solver, p1, p2, m);
  }

  // ----- a version whose requires are not met -----

  const INSTALLED_C := Pkg("c", "1", [], [], [])
  /** Version 2 of a requires c, and refuses the installed one; version 1 requires nothing. */
  const A2 := Pkg("a", "2", [Pkg("c", ">=2", [], [], [])], [], [])
  const A1 := Pkg("a", "1", [], [], [])

  function AdmitNewC(p: Pkg, q: Pkg): Admission {
    if p.name == "a" && p.version == "2" && q.name == "c" then Refused else Admitted
  }

  lemma OnlyC(solver: Solver)
    requires Indexes(solver.systemMap, [INSTALLED_C], OwnName)
    ensures "c" in solver.systemMap && solver.systemMap["c"] != [] && solver.systemMap["c"][0] == INSTALLED_C
    ensures forall n | n in solver.systemMap && solver.systemMap[n] != [] :: n == "c"
  {
    assert INSTALLED_C in Entries(INSTALLED_C, OwnName) && Names(Entries(INSTALLED_C, OwnName), "c");
    assert Listed(solver.systemMap, "c", INSTALLED_C);
    assert Listed(solver.systemMap, "c", solver.systemMap["c"][0]);
    forall n | n in solver.systemMap && solver.systemMap[n] != [] ensures n == "c" {
      assert Listed(solver.systemMap, n, solver.systemMap[n][0]);
    }
  }

  /** What the resolver knows about a system with c installed. */
  ghost predicate WithC(solver: Solver) {
    && solver.admit == AdmitNewC && solver.system == [INSTALLED_C]
    && Indexes(solver.systemMap, [INSTALLED_C], OwnName)
    && (solver.ignoreConflicts || Indexes(solver.conflictsMap, [INSTALLED_C], Conflicts))
  }

  /** Version 2 of a is passed over at once, and version 1 suits. */
  lemma OldestSuits(solver: Solver, s: Snapshot)
    requires WithC(solver) && s.candidates == map[]
    ensures solver.BestSuits([A2, A1], 1, s)
    ensures Keep([A2, A1], solver.ConflictVersions([A2, A1][..1])) == [A2, A1]
  {
    NoConflicts(solver, [INSTALLED_C], A1);
    NoConflicts(solver, [INSTALLED_C], A2);
    hide Solver.Conflicting;
    var r := A2.reqs[0];
    OnlyC(solver);
    assert r in A2.reqs && !solver.MetAlready(A2, r, s.provided, s.candidates.Keys);
    Takes(solver, A1, A2, 1, s);
  }

  method BothVersionsOfA() returns (solver: Solver)
    ensures fresh(solver) && solver.Valid() && WithC(solver) && solver.candidatesMap == map[]
    ensures SortedVersions(solver.availableArtsMap, solver.sortVersions, "a") == Ok([A2, A1])
  {
    ghost var g: Graph := map["a" := ["c"], "c" := []];
    solver := new Solver(AdmitNewC, _ => Ok([]), false, NEWEST_FIRST, false, arts => arts, [INSTALLED_C],
                         map["a" := [A1, A2]], {A1, A2}, g);
    PickNewest(A1, A2);
  }

  /** The resolution of a, with c installed: version 2 is passed over without being banned, version 1
      is accepted, and version 2 heads the list that is installed. */
  method PassedOverHeadIsKept() returns (solver: Solver, res: Result<()>)
    ensures fresh(solver) && solver.Valid() && res.Ok?
    ensures "a" in solver.candidatesMap && solver.candidatesMap["a"] == [A2, A1]
    ensures "a" in solver.accepted && solver.accepted["a"] == A1
  {
    hide WithC, Solver.Valid, Solver.BestSuits, Keep, SortedVersions;
    solver := BothVersionsOfA();
    OldestSuits(solver, solver.Now());
    ghost var passed;
    res, passed := solver.ResolvePackage("a", []);
  }

  // ----- a version that its user refuses -----

  const B2 := Pkg("b", "2", [], [], [])
  const B1 := Pkg("b", "1", [], [], [])
  const NEEDS_OLD_B := Pkg("a", "1", [Pkg("b", "<2", [], [], [])], [], [])

  function AdmitOldB(p: Pkg, q: Pkg): Admission {
    if p.name == "a" && q.name == "b" && q.version == "2" then Refused else Admitted
  }

  method BothAreSelected() returns (solver: Solver)
    ensures fresh(solver) && solver.Valid() && solver.admit == AdmitOldB && solver.systemMap == map[]
    ensures solver.candidatesMap == map[] && solver.ignoreConflicts
    ensures SortedVersions(solver.availableArtsMap, solver.sortVersions, "b") == Ok([B2, B1])
    ensures SortedVersions(solver.availableArtsMap, solver.sortVersions, "a") == Ok([NEEDS_OLD_B])
  {
    ghost var g: Graph := map["a" := ["b"], "b" := []];
    solver := new Solver(AdmitOldB, _ => Ok([]), true, NEWEST_FIRST, false, arts => arts, [],
                         map["a" := [NEEDS_OLD_B], "b" := [B1, B2]], {NEEDS_OLD_B, B1, B2}, g);
    PickNewest(B1, B2);
    assert solver.systemMap == map[] by {
      forall n ensures n !in solver.systemMap {
        assert n in solver.systemMap ==> !Listed(solver.systemMap, n, solver.systemMap[n][0]);
      }
    }
  }

  lemma NewestBSuits(solver: Solver, s: Snapshot)
    requires solver.ignoreConflicts && s.candidates == map[]
    ensures solver.BestSuits([B2, B1], 0, s)
    ensures Keep([B2, B1], solver.ConflictVersions([B2, B1][..0])) == [B2, B1]
  {
    Takes(solver, B1, B2, 0, s);
  }

  lemma UserSuits(solver: Solver, s: Snapshot)
    requires solver.ignoreConflicts && solver.admit == AdmitOldB && solver.systemMap == map[]
    requires s.candidates == map["b" := [B2, B1]]
    ensures solver.BestSuits([NEEDS_OLD_B], 0, s)
    ensures Keep([NEEDS_OLD_B], solver.ConflictVersions([NEEDS_OLD_B][..0])) == [NEEDS_OLD_B]
  {
    assert Keep([NEEDS_OLD_B][..0], {}) == [];
  }

  /** The resolution of b and then of a, both of which are selected, where a requires b<2: for the
      require it is enough that b is a candidate, and version 2 of b is installed beside a, which
      refuses it. */
  method RefusedVersionIsInstalled() returns (solver: Solver, res: Result<()>)
    ensures fresh(solver) && solver.Valid() && res.Ok?
    ensures solver.candidatesMap == map["b" := [B2, B1], "a" := [NEEDS_OLD_B]]
    ensures "a" in solver.accepted && solver.accepted["a"] == NEEDS_OLD_B
    ensures NEEDS_OLD_B.reqs[0].name == "b" && solver.admit(NEEDS_OLD_B, B2) == Refused
  {
    hide Solver.Valid, Solver.BestSuits, Keep, SortedVersions;
    solver := BothAreSelected();
    NewestBSuits(solver, solver.Now());
    ghost var passed;
    res, passed := solver.ResolvePackage("b", []);
    UserSuits(solver, solver.Now());
    res, passed := solver.ResolvePackage("a", []);
  }

  // ----- a candidate that nobody uses -----

  const X := Pkg("x", "1", [], [], [])
  /** Like version 2 above, but it requires x first. */
  const A2_WITH_X := Pkg("a", "2", [Pkg("x", "", [], [], []), Pkg("c", ">=2", [], [], [])], [], [])

  function OfferX(r: Pkg): Result<seq<Pkg>> {
    Ok(if r.name == "x" then [X] else [])
  }

  /** What the resolver knows about a repository with x and two versions of a. */
  ghost predicate WithX(solver: Solver) {
    && WithC(solver) && solver.search == OfferX && !solver.mapRepos
    && solver.repo == {A1, A2_WITH_X, X} && solver.g == map["a" := ["x", "c"], "x" := [], "c" := []]
  }

  method BothVersionsOfAWithX() returns (solver: Solver)
    ensures fresh(solver) && solver.Valid() && WithX(solver)
    ensures solver.candidatesMap == map[] && solver.availableArtsMap.Keys == {"a"}
  {
    ghost var g: Graph := map["a" := ["x", "c"], "x" := [], "c" := []];
    solver := new Solver(AdmitNewC, OfferX, false, NEWEST_FIRST, false, arts => arts, [INSTALLED_C],
                         map["a" := [A1, A2_WITH_X]], {A1, A2_WITH_X, X}, g);
  }

  lemma OneIsAdded(solver: Solver, m: PkgsMap, found: seq<Pkg>, n: Name)
    requires |found| == 1 && found[0].name == n && n !in m
    ensures solver.OtherName(found, n) == "" && solver.Added(m, found) == m[n := found]
    ensures SortedVersions(solver.Added(m, found), solver.sortVersions, n) == Ok(found)
  {
    assert found[..0] == [] && [found[0]] == found;
  }

  lemma XSuits(solver: Solver, s: Snapshot)
    requires WithX(solver) && s.candidates == map[]
    ensures solver.BestSuits([X], 0, s)
  {
    NoConflicts(solver, [INSTALLED_C], X);
    hide Solver.Conflicting;
    assert [X][..0] == [];
  }

  /** x is found, and can be taken at once. */
  lemma XIsFound(solver: Solver, s: Snapshot)
    requires WithX(solver) && s.candidates == map[] && s.available.Keys == {"a"}
    requires forall n | n in solver.systemMap :: solver.systemMap[n] != []
    ensures solver.FirstFoundAtOnce(A2_WITH_X, s)
  {
    hide Solver.BestSuits, Solver.OtherName, Solver.Added, SortedVersions;
    var p := A2_WITH_X.reqs[0];
    OnlyC(solver);
    OneIsAdded(solver, s.available, [X], "x");
    assert solver.search(p) == OfferX(p) == Ok([X]);
    XSuits(solver, s.(available := solver.AfterSearch(s.available, p)));
  }

  /** Version 2 refuses the installed c. */
  lemma CIsRefused(solver: Solver)
    requires WithX(solver)
    ensures solver.RestInstalled(A2_WITH_X) && !solver.RestAccepted(A2_WITH_X, 2)
  {
    OnlyC(solver);
    assert A2_WITH_X.reqs[1].name == "c" && |A2_WITH_X.reqs| == 2;
  }

  lemma XLeadsNowhere(g: Graph, w: seq<Name>, i: nat)
    requires IsWalk(g, w) && "x" in g && g["x"] == [] && i + 1 < |w|
    ensures w[i] != "x"
  {
    assert w[i + 1] in g[w[i]];
  }

  lemma XIsOnNoCycle(g: Graph, n: Name)
    requires "x" in g && g["x"] == [] && n != "x"
    ensures !OnCycle(g, n, "x")
  {
    forall w | IsCycle(g, w) && w[0] == n ensures w[1] != "x" {
      if |w| > 2 { XLeadsNowhere(g, w, 1); }
    }
  }

  lemma NothingProvides(solver: Solver, s: Snapshot, n: Name, p: Pkg)
    requires WithX(solver) && solver.CandidatesValid(s) && Listed(s.provided, n, p)
    ensures p.provs == []
  {
    assert solver.Comes(s, p);
    if k :| k in s.candidates && s.candidates[k] != [] && s.candidates[k][0] == p {
      assert solver.Candidate(k, s.candidates[k], s.chosen[k]) && p in s.candidates[k];
    }
  }

  /** Nothing provides x, and x is on no cycle: the require is met only if x is a candidate. */
  lemma OnlyXMeets(solver: Solver, s: Snapshot)
    requires WithX(solver) && solver.CandidatesValid(s) && solver.FirstMet(A2_WITH_X, s)
    requires forall n | n in solver.systemMap :: solver.systemMap[n] != []
    ensures "x" in s.candidates
  {
    hide Solver.CandidatesValid, OnCycle;
    var r := A2_WITH_X.reqs[0];
    OnlyC(solver);
    XIsOnNoCycle(solver.g, "a");
    if "x" in s.provided {
      forall p | p in s.provided["x"] ensures p.provs == [] { NothingProvides(solver, s, "x", p); }
    }
    assert solver.Offers(r) == {"x"};
  }

  lemma Prepared(solver: Solver, s: Snapshot)
    requires WithX(solver) && s.candidates == map[] && s.available.Keys == {"a"} && solver.World()
    ensures A1 in solver.repo && A2_WITH_X in solver.repo && "a" in solver.g
    ensures !solver.Conflicting(A1) && !solver.Conflicting(A2_WITH_X) && solver.AdmittedBy(s.candidates, A2_WITH_X)
    ensures solver.FirstFoundAtOnce(A2_WITH_X, s)
    ensures solver.RestInstalled(A2_WITH_X) && !solver.RestAccepted(A2_WITH_X, |A2_WITH_X.reqs|)
  {
    XIsFound(solver, s);
    CIsRefused(solver);
    NoConflicts(solver, [INSTALLED_C], A1);
    NoConflicts(solver, [INSTALLED_C], A2_WITH_X);
  }

  /** Version 1 suits whatever the candidates, as long as version 2 is not one. */
  lemma OldestIsFree(solver: Solver, s: Snapshot)
    requires WithX(solver) && solver.CandidatesValid(s) && !solver.Conflicting(A1)
    ensures solver.Suits(A1, s) && solver.Decided(A1, s)
  {
    forall n | n in s.candidates ensures s.candidates[n] != [] && solver.admit(s.candidates[n][0], A1) == Admitted {
      assert solver.Candidate(n, s.candidates[n], s.chosen[n]);
    }
  }

  /** The steps of the resolution of a, with c installed: x is stored for version 2 before c is looked
      at; then version 2 is passed over and version 1 accepted. x is installed, although it was not
      selected and no accepted version requires anything. */
  method UnusedCandidateStays() returns (solver: Solver, newest: Result<Verdict>, oldest: Result<Verdict>)
    ensures fresh(solver) && solver.Valid() && newest == Ok(PassedOver) && oldest == Ok(Accepted)
    ensures "x" in solver.candidatesMap && solver.candidatesMap["x"] != []
    ensures "a" in solver.accepted && solver.accepted["a"] == A1 && A1.reqs == []
  {
    hide WithX, Keep, Solver.Conflicting, Solver.ConflictVersions, Solver.CandidatesValid, Solver.Suits, Solver.Decided;
    hide Solver.FirstFoundAtOnce, Solver.FirstMet, Solver.RestInstalled, Solver.RestAccepted, Solver.NewUsed;
    solver := BothVersionsOfAWithX();
    ghost var passed;
    Prepared(solver, solver.Now());
    newest, passed := solver.TryArtefact(A2_WITH_X, []);
    OnlyXMeets(solver, solver.Now());
    OldestIsFree(solver, solver.Now());
    oldest, passed := solver.TryArtefact(A1, []);
    KeepsBoth(solver, A1, A2_WITH_X, 1);
    solver.StoreCandidate("a", [A2_WITH_X, A1], {}, 1);
  }
}
