/** The dependency resolver (pkg/v2/solver/solver.go, resolvePackage and processArtefactDeps):
    mutual recursion over a growing map of candidates, with a stack against cycles.
 */
module Resolver {
  import opened Admissions
  import opened Graphs
  import opened Packages
  import opened VersionOrder

  /** `k`'s list grows by `p`, or starts with it. */
  function AddTo(m: PkgsMap, k: Name, p: Pkg): PkgsMap {
    m[k := (if k in m then m[k] else []) + [p]]
  }

  lemma AddToLists(m: PkgsMap, k: Name, p: Pkg)
    ensures Extends(m, AddTo(m, k, p)) && NamesListed(m, k, p)
  {
  }

  ghost predicate NamesListed(m: PkgsMap, k: Name, p: Pkg) {
    forall n, q :: Listed(AddTo(m, k, p), n, q) <==> Listed(m, n, q) || (n == k && q == p)
  }

  ghost predicate Extends(m: PkgsMap, m': PkgsMap) {
    forall n | n in m :: n in m' && m[n] <= m'[n]
  }

  datatype Verdict = Banned | PassedOver | Accepted

  /** What the resolver has found so far. */
  datatype Snapshot = Snapshot(available: PkgsMap, provided: PkgsMap, candidates: PkgsMap, chosen: map<Name, Pkg>)

  /** Candidates are final and providers only accumulate. */
  ghost predicate Grew(s: Snapshot, s': Snapshot) {
    && Extends(s.provided, s'.provided)
    && (forall n | n in s.candidates :: n in s'.candidates && s'.candidates[n] == s.candidates[n])
    && (forall n | n in s.chosen :: n in s'.chosen && s'.chosen[n] == s.chosen[n])
  }

  lemma ExtendsTrans(a: PkgsMap, b: PkgsMap, c: PkgsMap)
    requires Extends(a, b) && Extends(b, c)
    ensures Extends(a, c)
  {
  }

  lemma GrewRefl(s: Snapshot)
    ensures Grew(s, s)
  {
  }

  lemma GrewTrans(a: Snapshot, b: Snapshot, c: Snapshot)
    requires Grew(a, b) && Grew(b, c)
    ensures Grew(a, c)
  {
  }

  /** The packages on the stack did not become candidates. */
  ghost predicate StackPending(stack: seq<Name>, s: Snapshot, s': Snapshot) {
    forall n | n in stack && n in s'.candidates :: n in s.candidates
  }

  lemma StackPendingTrans(stack: seq<Name>, a: Snapshot, b: Snapshot, c: Snapshot)
    requires StackPending(stack, a, b) && StackPending(stack, b, c)
    ensures StackPending(stack, a, c)
  {
  }

  /** Versions in the given order without the banned ones. */
  function Keep(arts: seq<Pkg>, banned: set<Version>): (r: seq<Pkg>)
    ensures forall a :: a in r <==> a in arts && a.version !in banned
  {
    if arts == [] then []
    else
      var last := |arts| - 1;
      assert arts == arts[..last] + [arts[last]];
      Keep(arts[..last], banned) + if arts[last].version in banned then [] else [arts[last]]
  }

  lemma {:induction false} KeepOfPrefix(arts: seq<Pkg>, banned: set<Version>, k: nat)
    requires k <= |arts|
    ensures Keep(arts[..k], banned) <= Keep(arts, banned)
    decreases |arts|
  {
    if k == |arts| {
      assert arts[..k] == arts;
    } else {
      var before := arts[..|arts| - 1];
      KeepOfPrefix(before, banned, k);
      assert before[..k] == arts[..k];
      assert Keep(before, banned) <= Keep(arts, banned);
    }
  }

  /** The versions kept stay in the given order. */
  lemma KeepInOrder(arts: seq<Pkg>, banned: set<Version>, i: nat)
    requires i < |arts|
    ensures Keep(arts[..0], banned) == [] && Keep(arts[..i + 1], banned) <= Keep(arts, banned)
    ensures Keep(arts[..i + 1], banned) ==
      if arts[i].version in banned then Keep(arts[..i], banned) else Keep(arts[..i], banned) + [arts[i]]
  {
    var upTo := arts[..i + 1];
    assert upTo[..i] == arts[..i] && |upTo| == i + 1 && upTo[i] == arts[i];
    KeepOfPrefix(arts, banned, i + 1);
  }

  lemma {:induction false} KeepNothing(arts: seq<Pkg>, banned: set<Version>)
    requires forall j | 0 <= j < |arts| :: arts[j].version in banned
    ensures Keep(arts, banned) == []
  {
    if arts != [] { KeepNothing(arts[..|arts| - 1], banned); }
  }

  /** The first version kept is the first one that is not banned. */
  lemma {:induction false} KeepHead(arts: seq<Pkg>, banned: set<Version>, k: nat)
    requires k < |arts| && arts[k].version !in banned && forall j | 0 <= j < k :: arts[j].version in banned
    ensures Keep(arts, banned) != [] && Keep(arts, banned)[0] == arts[k]
  {
    var last := |arts| - 1;
    var pre := Keep(arts[..last], banned);
    assert pre <= Keep(arts, banned);
    if k < last {
      KeepHead(arts[..last], banned, k);
      assert pre[0] == arts[k];
    } else {
      KeepNothing(arts[..last], banned);
    }
  }

  /** A require of the package at the end of a walk that is itself on the walk closes a cycle. */
  lemma RequireOnStack(g: Graph, stack: seq<Name>, m: Name)
    requires stack != [] && IsWalk(g, stack) && m in g[stack[|stack| - 1]] && m in stack
    ensures OnCycle(g, stack[|stack| - 1], m)
  {
    var i :| 0 <= i < |stack| && stack[i] == m;
    assert IsCycle(g, [stack[|stack| - 1]] + stack[i..]);
  }

  /** The three indexes of the installed packages: by name, by conflict and by provide. */
  datatype Role = OwnName | Conflicts | Provided

  ghost function Entries(p: Pkg, role: Role): seq<Pkg> {
    match role
    case OwnName => [p]
    case Conflicts => p.conflicts
    case Provided => p.provs
  }

  predicate Names(atoms: seq<Pkg>, n: Name) {
    exists c | c in atoms :: c.name == n
  }

  lemma NamesSnoc(atoms: seq<Pkg>, x: Pkg)
    ensures forall n :: Names(atoms + [x], n) <==> Names(atoms, n) || n == x.name
  {
    assert forall c :: c in atoms + [x] <==> c in atoms || c == x;
    assert x in atoms + [x];
  }

  /** `m` lists under each name exactly the packages of `ps` that use it in this role. */
  ghost predicate Indexes(m: PkgsMap, ps: seq<Pkg>, role: Role) {
    forall n, p :: Listed(m, n, p) <==> p in ps && Names(Entries(p, role), n)
  }

  ghost predicate NoEmptyList(m: PkgsMap) {
    forall n | n in m :: m[n] != []
  }

  /** Register `p` under the name of each entry of `atoms`. */
  method AddAll(m0: PkgsMap, atoms: seq<Pkg>, p: Pkg) returns (m: PkgsMap)
    requires NoEmptyList(m0)
    ensures NoEmptyList(m)
    ensures forall n, q :: Listed(m, n, q) <==> Listed(m0, n, q) || (q == p && Names(atoms, n))
  {
    m := m0;
    for i := 0 to |atoms|
      invariant NoEmptyList(m)
      invariant forall n, q :: Listed(m, n, q) <==> Listed(m0, n, q) || (q == p && Names(atoms[..i], n))
    {
      assert atoms[..i + 1] == atoms[..i] + [atoms[i]];
      NamesSnoc(atoms[..i], atoms[i]);
      m := AddTo(m, atoms[i].name, p);
    }
    assert atoms[..|atoms|] == atoms;
  }

  lemma IndexesNext(m: PkgsMap, ps: seq<Pkg>, role: Role, p: Pkg, m': PkgsMap)
    requires Indexes(m, ps, role)
    requires forall n, q :: Listed(m', n, q) <==> Listed(m, n, q) || (q == p && Names(Entries(p, role), n))
    ensures Indexes(m', ps + [p], role)
  {
  }

  lemma IndexesMean(m: PkgsMap, ps: seq<Pkg>, role: Role)
    requires Indexes(m, ps, role)
    ensures role == OwnName ==> forall n, p :: Listed(m, n, p) <==> p in ps && p.name == n
    ensures role == Conflicts ==>
      forall n, p :: Listed(m, n, p) <==> p in ps && exists c :: c in p.conflicts && c.name == n
    ensures role == Provided ==>
      forall n, p :: Listed(m, n, p) <==> p in ps && exists c :: c in p.provs && c.name == n
  {
  }

  /** The maps of the installed packages (prepareConflictsAndSystemMap). */
  method PrepareConflictsAndSystemMap(systemPkgs: seq<Pkg>, ignoreConflicts: bool)
    returns (conflictsMap: PkgsMap, systemMap: PkgsMap, providesMap: PkgsMap)
    ensures NoEmptyList(systemMap)
    ensures Indexes(systemMap, systemPkgs, OwnName) && Indexes(providesMap, systemPkgs, Provided)
    ensures if ignoreConflicts then conflictsMap == map[] else Indexes(conflictsMap, systemPkgs, Conflicts)
    ensures forall n, p :: Listed(systemMap, n, p) <==> p in systemPkgs && p.name == n
    ensures forall n, p :: Listed(providesMap, n, p) <==> p in systemPkgs && exists c :: c in p.provs && c.name == n
    ensures !ignoreConflicts ==>
      forall n, p :: Listed(conflictsMap, n, p) <==> p in systemPkgs && exists c :: c in p.conflicts && c.name == n
  {
    conflictsMap, systemMap, providesMap := map[], map[], map[];
    for i := 0 to |systemPkgs|
      invariant NoEmptyList(systemMap) && NoEmptyList(conflictsMap) && NoEmptyList(providesMap)
      invariant Indexes(systemMap, systemPkgs[..i], OwnName) && Indexes(providesMap, systemPkgs[..i], Provided)
      invariant if ignoreConflicts then conflictsMap == map[] else Indexes(conflictsMap, systemPkgs[..i], Conflicts)
    {
      var p := systemPkgs[i];
      assert systemPkgs[..i + 1] == systemPkgs[..i] + [p];
      ghost var c, s, v := conflictsMap, systemMap, providesMap;
      if !ignoreConflicts {
        conflictsMap := AddAll(conflictsMap, p.conflicts, p);
        IndexesNext(c, systemPkgs[..i], Conflicts, p, conflictsMap);
      }
      providesMap := AddAll(providesMap, p.provs, p);
      systemMap := AddAll(systemMap, [p], p);
      IndexesNext(v, systemPkgs[..i], Provided, p, providesMap);
      IndexesNext(s, systemPkgs[..i], OwnName, p, systemMap);
    }
    assert systemPkgs[..|systemPkgs|] == systemPkgs;
    IndexesMean(systemMap, systemPkgs, OwnName);
    IndexesMean(providesMap, systemPkgs, Provided);
    if !ignoreConflicts { IndexesMean(conflictsMap, systemPkgs, Conflicts); }
  }

  class Solver {
    const admit: (Pkg, Pkg) -> Admission
    /** What the repositories offer for a require: packages of that name or providing it. */
    const search: Pkg -> Result<seq<Pkg>>
    const sortVersions: VersionSorter
    /** Are the repositories known, and how does their priority sort the versions in place? */
    const mapRepos: bool
    const byRepos: seq<Pkg> -> seq<Pkg>
    const systemMap: PkgsMap
    const conflictsMap: PkgsMap
    const ignoreConflicts: bool

    var availableArtsMap: PkgsMap
    var providesMap: PkgsMap
    var candidatesMap: PkgsMap

    /** All packages the repositories hold, and which names their requires lead to. */
    ghost const repo: set<Pkg>
    ghost const g: Graph
    ghost const system: seq<Pkg>
    /** For each candidate the version whose dependencies were checked. */
    ghost var accepted: map<Name, Pkg>

    constructor (admit: (Pkg, Pkg) -> Admission, search: Pkg -> Result<seq<Pkg>>, ignoreConflicts: bool,
                 sortVersions: VersionSorter, mapRepos: bool, byRepos: seq<Pkg> -> seq<Pkg>,
                 systemPkgs: seq<Pkg>, availableArtsMap: PkgsMap,
                 ghost repo: set<Pkg>, ghost g: Graph)
      requires forall arts :: forall a :: a in byRepos(arts) <==> a in arts
      requires forall a | a in repo :: a.name in g && forall r | r in a.reqs :: r.name in g[a.name]
      requires forall a, r | a in repo && r in a.reqs && search(r).Ok? ::
                 forall b | b in search(r).value :: b in repo && b.name in g[a.name]
      requires forall n | n in availableArtsMap :: forall a | a in availableArtsMap[n] :: a.name == n && a in repo
      ensures Valid() && candidatesMap == map[] && accepted == map[] && this.availableArtsMap == availableArtsMap
      ensures this.admit == admit && this.search == search && this.ignoreConflicts == ignoreConflicts
      ensures this.sortVersions == sortVersions && this.mapRepos == mapRepos && this.byRepos == byRepos
      ensures this.repo == repo && this.g == g && this.system == systemPkgs
      ensures Indexes(systemMap, systemPkgs, OwnName) && Indexes(providesMap, systemPkgs, Provided)
      ensures if ignoreConflicts then conflictsMap == map[] else Indexes(conflictsMap, systemPkgs, Conflicts)
    {
      var conflicts_, system_, provides_ := PrepareConflictsAndSystemMap(systemPkgs, ignoreConflicts);
      this.admit, this.search, this.sortVersions, this.ignoreConflicts := admit, search, sortVersions, ignoreConflicts;
      this.mapRepos, this.byRepos := mapRepos, byRepos;
      this.conflictsMap, this.systemMap, this.providesMap := conflicts_, system_, provides_;
      this.availableArtsMap, this.candidatesMap := availableArtsMap, map[];
      this.repo, this.g, this.system, this.accepted := repo, g, systemPkgs, map[];
    }

    /** The conflict `c` of `a` hits an installed package that `a` does not replace. */
    predicate RejectsInstalled(a: Pkg, c: Pkg) {
      && c.name in systemMap && systemMap[c.name] != []
      && admit(a, systemMap[c.name][0]) != Admitted
      && !exists q | q in a.provs :: q.name == systemMap[c.name][0].name
    }

    /** `a` is in conflict with the installed packages. */
    predicate InConflict(a: Pkg) {
      || (a.name in conflictsMap && exists c | c in conflictsMap[a.name] :: admit(c, a) != Admitted)
      || (exists c | c in a.conflicts :: RejectsInstalled(a, c))
    }

    ghost predicate AdmittedBy(candidates: PkgsMap, a: Pkg) {
      forall n | n in candidates :: candidates[n] != [] && admit(candidates[n][0], a) == Admitted
    }

    /** `a` is banned by the search: it is in conflict, and conflicts count. */
    predicate Conflicting(a: Pkg) {
      !ignoreConflicts && InConflict(a)
    }

    function ConflictVersions(arts: seq<Pkg>): set<Version> {
      set a | a in arts && Conflicting(a) :: a.version
    }

    lemma ConflictVersionsSnoc(arts: seq<Pkg>, i: nat)
      requires i < |arts|
      ensures ConflictVersions(arts[..i + 1]) ==
        ConflictVersions(arts[..i]) + if Conflicting(arts[i]) then {arts[i].version} else {}
    {
      assert arts[..i + 1] == arts[..i] + [arts[i]];
    }

    /** Version `m` was accepted after the versions before it were examined. */
    ghost predicate Acceptable(arts: seq<Pkg>, m: nat) {
      m < |arts| && !Conflicting(arts[m]) && arts[m].version !in ConflictVersions(arts[..m])
    }

    lemma FirstKept(arts: seq<Pkg>, m: nat)
      requires Acceptable(arts, m)
      ensures Keep(arts, ConflictVersions(arts[..m])) != []
      ensures !Conflicting(Keep(arts, ConflictVersions(arts[..m]))[0])
    {
      var k, banned := 0, ConflictVersions(arts[..m]);
      while arts[k].version in banned
        invariant k <= m && forall j | 0 <= j < k :: arts[j].version in banned
        decreases m - k
      {
        k := k + 1;
      }
      KeepHead(arts, banned, k);
      assert k < m ==> arts[..m][k] == arts[k] && arts[k] in arts[..m];
    }

    /** Version `f` is the first one free of conflicts. */
    ghost predicate FirstFree(arts: seq<Pkg>, f: nat) {
      f < |arts| && !Conflicting(arts[f]) && forall k | 0 <= k < f :: Conflicting(arts[k])
    }

    /** The head of a stored list is the first version free of conflicts, whichever was accepted. */
    lemma HeadIsFirstFree(arts: seq<Pkg>, m: nat, f: nat)
      requires OnePerVersion(arts) && FirstFree(arts, f) && m < |arts| && !Conflicting(arts[m])
      ensures f <= m && arts[f].version !in ConflictVersions(arts[..f])
      ensures var kept := Keep(arts, ConflictVersions(arts[..m])); kept != [] && kept[0] == arts[f]
    {
      var banned := ConflictVersions(arts[..m]);
      forall k | 0 <= k < f ensures arts[k].version in banned {
        assert arts[..m][k] == arts[k] && arts[k] in arts[..m];
      }
      forall a | a in arts && Conflicting(a) ensures a.version != arts[f].version {
      }
      KeepHead(arts, banned, f);
    }

    /** The packages that could stand for the require `r`: its name and what the search offers. */
    ghost function Offers(r: Pkg): set<Name> {
      {r.name} + if search(r).Ok? then set b | b in search(r).value :: b.name else {}
    }

    /** The require `r` of `a` needs no search. */
    ghost predicate MetAlready(a: Pkg, r: Pkg, provided: PkgsMap, candidates: set<Name>) {
      if r.name in systemMap then
        systemMap[r.name] != [] && admit(a, systemMap[r.name][0]) == Admitted
      else
        || (r.name in provided && exists p, q :: p in provided[r.name] && q in p.provs && admit(a, q) == Admitted)
        || r.name in candidates
    }

    /** The require `r` of `a` is met by the installed packages, a registered provider, or a
        candidate. */
    ghost predicate Met(a: Pkg, r: Pkg, provided: PkgsMap, candidates: set<Name>) {
      if r.name in systemMap then
        systemMap[r.name] != [] && admit(a, systemMap[r.name][0]) == Admitted
      else
        || (r.name in provided && exists p, q :: p in provided[r.name] && q in p.provs && admit(a, q) == Admitted)
        || (exists m :: m in Offers(r) && m in candidates)
    }

    /** Met, or the require is not installed and lies on a cycle with `a` itself. */
    ghost predicate MetOrCyclic(a: Pkg, r: Pkg, provided: PkgsMap, candidates: set<Name>) {
      Met(a, r, provided, candidates) || (r.name !in systemMap && exists m :: m in Offers(r) && OnCycle(g, a.name, m))
    }

    ghost predicate AllMet(a: Pkg, provided: PkgsMap, candidates: set<Name>) {
      forall r | r in a.reqs :: MetOrCyclic(a, r, provided, candidates)
    }

    /** The repository contents and the requires graph belong together. */
    ghost predicate World() {
      && (forall n | n in systemMap :: systemMap[n] != [])
      && (forall arts :: forall a :: a in byRepos(arts) <==> a in arts)
      && forall a | a in repo :: a.name in g && forall r | r in a.reqs ::
           Offers(r) <= Elements(g[a.name]) && (search(r).Ok? ==> forall b | b in search(r).value :: b in repo)
    }

    ghost predicate Candidate(n: Name, arts: seq<Pkg>, chosen: Pkg) {
      && chosen in arts
      && (forall a | a in arts :: a.name == n && a in repo)
      && !Conflicting(arts[0])
    }

    ghost predicate AllKnown(m: PkgsMap) {
      forall n | n in m :: forall a | a in m[n] :: a.name == n && a in repo
    }

    ghost predicate Valid()
      reads this
    {
      && World()
      && AllKnown(availableArtsMap)
      && CandidatesValid(Now())
    }

    /** `p` will be there after the installation: it is installed, or the head of a candidate list. */
    ghost predicate Comes(s: Snapshot, p: Pkg) {
      p in system || exists n :: n in s.candidates && s.candidates[n] != [] && s.candidates[n][0] == p
    }

    /** Every registered provider will be there. */
    ghost predicate ProvidersCome(s: Snapshot) {
      forall n, p | Listed(s.provided, n, p) :: Comes(s, p)
    }

    lemma ProvidersStillCome(s: Snapshot, n: Name, arts: seq<Pkg>, s': Snapshot)
      requires ProvidersCome(s) && n !in s.candidates && s'.candidates == s.candidates[n := arts]
      requires Registers(s.provided, s'.provided, arts)
      ensures ProvidersCome(s')
    {
      forall k, p | Listed(s'.provided, k, p) ensures Comes(s', p) {
        if Listed(s.provided, k, p) {
          assert Comes(s, p);
          if m :| m in s.candidates && s.candidates[m] != [] && s.candidates[m][0] == p {
            assert s'.candidates[m] == s.candidates[m];
          }
        } else {
          assert s'.candidates[n] == arts && arts[0] == p;
        }
      }
    }

    /** Each candidate list is fit to be installed, and the requires of its accepted version are
        met. */
    ghost predicate CandidatesValid(s: Snapshot) {
      && ProvidersCome(s)
      && s.chosen.Keys == s.candidates.Keys
      && forall n | n in s.candidates ::
           Candidate(n, s.candidates[n], s.chosen[n]) && AllMet(s.chosen[n], s.provided, s.candidates.Keys)
    }

    ghost function Now(): Snapshot
      reads this
    {
      Snapshot(availableArtsMap, providesMap, candidatesMap, accepted)
    }

    // The methods return in `passed` the versions that were passed over after something had been found
    // for their requires. What was stored for these stays.

    /** Versions that can be passed over: known, and free of conflicts. */
    ghost predicate Examined(others: set<Pkg>) {
      forall a | a in others :: a in repo && !Conflicting(a)
    }

    /** `a` requires something that the package `n` could stand for. */
    ghost predicate Wants(a: Pkg, n: Name) {
      exists r :: r in a.reqs && n in Offers(r)
    }

    /** `n` is wanted by the accepted version of a candidate, or by one of `others`. */
    ghost predicate Used(n: Name, s: Snapshot, others: set<Pkg>) {
      exists a :: Wants(a, n) && (a in others || (a.name in s.chosen && s.chosen[a.name] == a))
    }

    /** What became a candidate since `s0` is one of `roots` or used. */
    ghost predicate NewUsed(s0: Snapshot, s: Snapshot, roots: set<Name>, others: set<Pkg>) {
      forall n | n in s.candidates && n !in s0.candidates :: n in roots || Used(n, s, others)
    }

    lemma NothingNew(s: Snapshot)
      ensures forall roots: set<Name>, others: set<Pkg> :: NewUsed(s, s, roots, others)
      ensures Examined({})
    {
    }

    lemma NewUsedJoins(a: Snapshot, b: Snapshot, c: Snapshot, r: set<Name>, r': set<Name>, r'': set<Name>,
                       o: set<Pkg>, o': set<Pkg>, o'': set<Pkg>)
      requires NewUsed(a, b, r, o) && NewUsed(b, c, r', o') && Grew(b, c)
      requires r <= r'' && r' <= r'' && o <= o'' && o' <= o''
      ensures NewUsed(a, c, r'', o'')
    {
      forall n | n in c.candidates && n !in a.candidates && n !in r'' ensures Used(n, c, o'') {
        if n in b.candidates {
          assert Used(n, b, o);
        } else {
          assert Used(n, c, o');
        }
      }
    }

    lemma MetGrows(r: Pkg, a: Pkg, s: Snapshot, s': Snapshot)
      requires Grew(s, s') && MetOrCyclic(a, r, s.provided, s.candidates.Keys)
      ensures MetOrCyclic(a, r, s'.provided, s'.candidates.Keys)
    {
    }

    lemma AllMetGrows(a: Pkg, s: Snapshot, s': Snapshot)
      requires Grew(s, s') && AllMet(a, s.provided, s.candidates.Keys)
      ensures AllMet(a, s'.provided, s'.candidates.Keys)
    {
      forall r | r in a.reqs ensures MetOrCyclic(a, r, s'.provided, s'.candidates.Keys) { MetGrows(r, a, s, s'); }
    }

    lemma AdmittedByEarlier(s: Snapshot, s': Snapshot, a: Pkg)
      requires Grew(s, s') && AdmittedBy(s'.candidates, a)
      ensures AdmittedBy(s.candidates, a)
    {
    }

    /** Requires of repository packages are edges of the graph. */
    lemma OffersAreEdges(a: Pkg, r: Pkg)
      requires World() && a in repo && r in a.reqs
      ensures r.name in Offers(r) && forall m | m in Offers(r) :: m in g[a.name]
      ensures search(r).Ok? ==> forall b | b in search(r).value :: b in repo
    {
    }

    /** A require that turned out to be resolved, or to be under resolution on the stack. */
    lemma ResolvedMeets(a: Pkg, r: Pkg, m: Name, stack: seq<Name>, s: Snapshot)
      requires World() && a in repo && r in a.reqs && r.name !in systemMap
      requires stack != [] && IsWalk(g, stack) && stack[|stack| - 1] == a.name
      requires m in Offers(r) && (m in stack || m in s.candidates)
      ensures MetOrCyclic(a, r, s.provided, s.candidates.Keys)
    {
      OffersAreEdges(a, r);
      if m in stack { RequireOnStack(g, stack, m); }
    }

    /** The repository packages whose resolution has not started. */
    ghost function Free(stack: seq<Name>): set<Name> {
      set a | a in repo && a.name !in stack :: a.name
    }

    lemma FreeShrinks(stack: seq<Name>, a: Pkg)
      requires a in repo && a.name !in stack
      ensures |Free(stack + [a.name])| < |Free(stack)|
    {
      var f, f' := Free(stack), Free(stack + [a.name]);
      assert a.name in f - f' && f' <= f;
      assert f == f' + (f - f');
    }

    /** The stack is a chain of requires that leads to `n`. */
    ghost predicate Chain(stack: seq<Name>, n: Name) {
      IsWalk(g, stack) && (stack != [] ==> n in g[stack[|stack| - 1]])
    }

    lemma WalkOn(stack: seq<Name>, a: Pkg)
      requires World() && a in repo && Chain(stack, a.name)
      ensures IsWalk(g, stack + [a.name])
    {
    }

    /** What a conflict is, told by the installed packages alone, each of which has its own name: an
        installed package that has `a` among its conflicts refuses it, or `a` has an installed package
        among its conflicts, refuses it and does not provide it. */
    lemma ConflictingMeans(a: Pkg, installed: seq<Pkg>)
      requires World() && Indexes(systemMap, installed, OwnName)
      requires ignoreConflicts || Indexes(conflictsMap, installed, Conflicts)
      requires forall p, q | p in installed && q in installed && p.name == q.name :: p == q
      ensures Conflicting(a) <==> !ignoreConflicts && exists q | q in installed ::
        || (admit(q, a) != Admitted && exists c :: c in q.conflicts && c.name == a.name)
        || (admit(a, q) != Admitted && (exists c :: c in a.conflicts && c.name == q.name)
            && forall v | v in a.provs :: v.name != q.name)
    {
      IndexesMean(systemMap, installed, OwnName);
      if !ignoreConflicts { IndexesMean(conflictsMap, installed, Conflicts); }
      hide Indexes;
      forall n | n in systemMap ensures Listed(systemMap, n, systemMap[n][0]) {
      }
      if !ignoreConflicts && a.name in conflictsMap {
        forall q | q in conflictsMap[a.name] ensures Listed(conflictsMap, a.name, q) {
        }
      }
      forall q, c | q in installed && c in a.conflicts && c.name == q.name
        ensures c.name in systemMap && systemMap[c.name][0] == q
      {
        assert Listed(systemMap, c.name, q);
      }
      forall q, c | q in installed && c in q.conflicts && c.name == a.name && !ignoreConflicts
        ensures a.name in conflictsMap && q in conflictsMap[a.name]
      {
        assert Listed(conflictsMap, a.name, q);
      }
    }

    method ArtefactIsInConflict(art: Pkg) returns (conflict: bool)
      ensures conflict <==> InConflict(art)
    {
      if art.name in conflictsMap {
        var cc := conflictsMap[art.name];
        for i := 0 to |cc|
          invariant forall k | 0 <= k < i :: admit(cc[k], art) == Admitted
        {
          if admit(cc[i], art) != Admitted {
            return true;
          }
        }
      }
      for i := 0 to |art.conflicts|
        invariant forall k | 0 <= k < i :: !RejectsInstalled(art, art.conflicts[k])
      {
        if RejectsInstalled(art, art.conflicts[i]) {
          return true;
        }
      }
      return false;
    }

    /** Every candidate so far accepts `art`; only heads are asked. */
    method ArtefactAdmitByQueue(art: Pkg) returns (res: Result<bool>)
      requires Valid()
      ensures res == Ok(true) <==> AdmittedBy(candidatesMap, art)
      ensures res.Err? ==> exists n :: n in candidatesMap && admit(candidatesMap[n][0], art).AdmitError?
    {
      var todo := candidatesMap.Keys;
      while todo != {}
        invariant todo <= candidatesMap.Keys
        invariant forall n | n in candidatesMap && n !in todo :: admit(candidatesMap[n][0], art) == Admitted
      {
        var k :| k in todo;
        match admit(candidatesMap[k][0], art) {
          case AdmitError(message) => return Err(message);
          case Refused => return Ok(false);
          case Admitted =>
        }
        todo := todo - {k};
      }
      return Ok(true);
    }

    lemma VersionsAreKnown(available: PkgsMap, k: Name)
      requires AllKnown(available)
      ensures var res := SortedVersions(available, sortVersions, k);
        res.Ok? ==> OnePerVersion(res.value) && forall a | a in res.value :: a.name == k && a in repo
    {
      if SortedVersions(available, sortVersions, k).Ok? { SortedAreKnown(available, sortVersions, k); }
    }

    /** `a` can be installed as things stand: nothing has to be resolved first. */
    ghost predicate Suits(a: Pkg, s: Snapshot) {
      !Conflicting(a) && AdmittedBy(s.candidates, a) && AllMetAlready(a, s)
    }

    ghost predicate AllMetAlready(a: Pkg, s: Snapshot) {
      forall r | r in a.reqs :: MetAlready(a, r, s.provided, s.candidates.Keys)
    }

    /** Every require of `a` is decided as things stand: installed, or met. */
    ghost predicate RequiresDecided(a: Pkg, s: Snapshot) {
      forall r | r in a.reqs ::
        if r.name in systemMap then systemMap[r.name] != [] && !admit(a, systemMap[r.name][0]).AdmitError?
        else MetAlready(a, r, s.provided, s.candidates.Keys)
    }

    /** Whether `a` is accepted is decided without resolving anything. */
    ghost predicate Decided(a: Pkg, s: Snapshot) {
      && RequiresDecided(a, s)
      && forall n | n in s.candidates :: s.candidates[n] != [] && !admit(s.candidates[n][0], a).AdmitError?
    }

    lemma SuitsIsDecided(a: Pkg, s: Snapshot)
      requires AdmittedBy(s.candidates, a) && AllMetAlready(a, s)
      ensures Decided(a, s)
    {
      forall r | r in a.reqs ensures
        if r.name in systemMap then systemMap[r.name] != [] && !admit(a, systemMap[r.name][0]).AdmitError?
        else MetAlready(a, r, s.provided, s.candidates.Keys)
      {
        assert MetAlready(a, r, s.provided, s.candidates.Keys);
      }
    }

    /** `a` is passed without a change: in conflict, or decided and not suitable. */
    ghost predicate PassedAtOnce(a: Pkg, s: Snapshot) {
      Conflicting(a) || (Decided(a, s) && !Suits(a, s))
    }

    /** Version `m` suits, and every better one is passed at once. */
    ghost predicate BestSuits(arts: seq<Pkg>, m: nat, s: Snapshot) {
      && Acceptable(arts, m) && Suits(arts[m], s)
      && forall k | 0 <= k < m :: PassedAtOnce(arts[k], s)
    }

    /** Where the loop over the versions stands when one of them is the best that suits: nothing
        has changed. */
    ghost predicate TowardsBest(arts: seq<Pkg>, idx: nat, found: bool, s0: Snapshot, s: Snapshot) {
      idx <= |arts| && forall m: nat | BestSuits(arts, m, s0) :: s == s0 && if found then idx == m + 1 else idx <= m
    }

    lemma StartTowardsBest(arts: seq<Pkg>, s: Snapshot)
      ensures TowardsBest(arts, 0, false, s, s)
    {
    }

    lemma BestIsFound(arts: seq<Pkg>, idx: nat, found: bool, s0: Snapshot, s: Snapshot)
      requires TowardsBest(arts, idx, found, s0, s) && (found || idx == |arts|)
      ensures forall k: nat | BestSuits(arts, k, s0) :: found && idx == k + 1 && s == s0
    {
    }

    lemma TowardsBestSkip(arts: seq<Pkg>, idx: nat, s0: Snapshot, s: Snapshot)
      requires TowardsBest(arts, idx, false, s0, s)
      requires idx < |arts| && arts[idx].version in ConflictVersions(arts[..idx])
      ensures TowardsBest(arts, idx + 1, false, s0, s)
    {
    }

    /** What an examination of one version may answer. */
    ghost predicate RightVerdict(a: Pkg, s: Snapshot, verdict: Result<Verdict>, s': Snapshot) {
      && (Conflicting(a) <==> verdict == Ok(Banned))
      && (Conflicting(a) ==> s' == s)
      && (!Conflicting(a) && Decided(a, s) ==> s' == s && verdict == Ok(if Suits(a, s) then Accepted else PassedOver))
    }

    lemma TowardsBestNext(arts: seq<Pkg>, idx: nat, s0: Snapshot, s: Snapshot, verdict: Result<Verdict>, s': Snapshot)
      requires TowardsBest(arts, idx, false, s0, s) && idx < |arts| && RightVerdict(arts[idx], s, verdict, s')
      ensures verdict.Err? ==> forall m: nat :: !BestSuits(arts, m, s0)
      ensures verdict.Ok? ==> TowardsBest(arts, idx + 1, verdict.value == Accepted, s0, s')
    {
      hide Conflicting, Decided;
      forall m: nat | BestSuits(arts, m, s0)
        ensures m == idx ==> verdict == Ok(Accepted) && s' == s
        ensures idx < m ==> verdict.Ok? && verdict.value != Accepted && s' == s
      {
        if m == idx {
          SuitsIsDecided(arts[m], s0);
        } else {
          assert PassedAtOnce(arts[idx], s0);
        }
      }
    }

    lemma BestKeeps(arts: seq<Pkg>, idx: nat, verdict: Result<Verdict>, s0: Snapshot, s: Snapshot, s': Snapshot)
      requires TowardsBest(arts, idx, false, s0, s)
      requires verdict.Err? ==> forall m: nat :: !BestSuits(arts, m, s0)
      requires verdict.Ok? ==> TowardsBest(arts, idx + 1, verdict.value == Accepted, s0, s')
      ensures forall m: nat | BestSuits(arts, m, s0) :: s' == s
    {
    }

    /** `n` is the name of the first package found under a name other than `own`, or `own` itself if there
        is none. */
    ghost predicate GoesOnUnder(found: seq<Pkg>, own: Name, n: Name) {
      || (n == own && forall b | b in found :: b.name == own || b.name == "")
      || exists k :: 0 <= k < |found| && found[k].name == n && n != own && n != ""
                     && forall j | 0 <= j < k :: found[j].name == own || found[j].name == ""
    }

    /** The name of the first package found for a require under another name; empty if none. */
    function OtherName(found: seq<Pkg>, n: Name): (r: Name)
      ensures r == "" || exists b :: b in found && b.name == r
    {
      if found == [] then ""
      else
        var r, b := OtherName(found[..|found| - 1], n), found[|found| - 1];
        if r == "" && b.name != n then b.name else r
    }

    lemma {:induction false} NoOtherName(found: seq<Pkg>, own: Name)
      requires forall k | 0 <= k < |found| :: found[k].name == own || found[k].name == ""
      ensures OtherName(found, own) == ""
    {
      if found != [] { NoOtherName(found[..|found| - 1], own); }
    }

    lemma {:induction false} FirstOtherName(found: seq<Pkg>, own: Name, k: nat)
      requires k < |found| && found[k].name != own && found[k].name != ""
      requires forall j | 0 <= j < k :: found[j].name == own || found[j].name == ""
      ensures OtherName(found, own) == found[k].name
    {
      if k < |found| - 1 {
        FirstOtherName(found[..|found| - 1], own, k);
      } else {
        NoOtherName(found[..k], own);
      }
    }

    lemma OtherNameIs(found: seq<Pkg>, own: Name)
      ensures GoesOnUnder(found, own, if OtherName(found, own) != "" then OtherName(found, own) else own)
    {
      hide OtherName;
      var k := 0;
      while k < |found| && (found[k].name == own || found[k].name == "")
        invariant k <= |found| && forall j | 0 <= j < k :: found[j].name == own || found[j].name == ""
      {
        k := k + 1;
      }
      if k < |found| { FirstOtherName(found, own, k); } else { NoOtherName(found, own); }
    }

    function Added(m: PkgsMap, found: seq<Pkg>): PkgsMap {
      if found == [] then m
      else
        var b := found[|found| - 1];
        AddTo(Added(m, found[..|found| - 1]), b.name, b)
    }

    lemma {:induction false} AddedLists(m: PkgsMap, found: seq<Pkg>)
      ensures forall n, b :: Listed(Added(m, found), n, b) <==> Listed(m, n, b) || (b in found && b.name == n)
    {
      if found != [] {
        var last := |found| - 1;
        AddedLists(m, found[..last]);
        assert found == found[..last] + [found[last]];
      }
    }

    /** What is available once the require `p` has been looked up. */
    function AfterSearch(m: PkgsMap, p: Pkg): PkgsMap {
      if p.name in m then (if mapRepos then m[p.name := byRepos(m[p.name])] else m)
      else if search(p).Ok? then Added(m, search(p).value)
      else m
    }

    /** The lookup of the require `p` succeeds. */
    predicate Searchable(m: PkgsMap, p: Pkg) {
      if p.name in m then mapRepos || SortedVersions(m, sortVersions, p.name).Ok? else search(p).Ok?
    }

    /** The name under which what was found for `p` is resolved: its own, or that of a provider. */
    function Target(m: PkgsMap, p: Pkg): Name {
      if p.name !in m && search(p).Ok? && OtherName(search(p).value, p.name) != "" then
        OtherName(search(p).value, p.name)
      else p.name
    }

    /** The require `p` is found, and the best of its versions that suits can be taken at once. */
    ghost predicate FoundAtOnce(p: Pkg, s: Snapshot) {
      var m, n := AfterSearch(s.available, p), Target(s.available, p);
      && Searchable(s.available, p) && SortedVersions(m, sortVersions, n).Ok?
      && exists k: nat :: BestSuits(SortedVersions(m, sortVersions, n).value, k, s.(available := m))
    }

    /** The first require of `a` can be met at once. */
    ghost predicate FirstFoundAtOnce(a: Pkg, s: Snapshot) {
      a.reqs != [] && a.reqs[0].name !in systemMap && FoundAtOnce(a.reqs[0], s)
    }

    /** All requires of `a` but the first are installed, and `a` has a verdict on each of them. */
    ghost predicate RestInstalled(a: Pkg) {
      forall k | 1 <= k < |a.reqs| ::
        var n := a.reqs[k].name; n in systemMap && systemMap[n] != [] && !admit(a, systemMap[n][0]).AdmitError?
    }

    /** `a` accepts what is installed for its requires up to number `i`, except the first. */
    ghost predicate RestAccepted(a: Pkg, i: nat) {
      i <= |a.reqs| && forall k | 1 <= k < i ::
        var n := a.reqs[k].name; n in systemMap && systemMap[n] != [] && admit(a, systemMap[n][0]) == Admitted
    }

    ghost predicate FirstMet(a: Pkg, s: Snapshot) {
      a.reqs != [] && MetOrCyclic(a, a.reqs[0], s.provided, s.candidates.Keys)
    }

    /** One version of the package under resolution: banned for a conflict, passed over, or
        accepted with all its requires met. */
    method TryArtefact(art: Pkg, stack: seq<Name>) returns (res: Result<Verdict>, ghost passed: set<Pkg>)
      requires Valid() && art in repo && art.name !in stack && Chain(stack, art.name)
      modifies this
      ensures Valid() && Grew(old(Now()), Now())
      ensures StackPending(stack + [art.name], old(Now()), Now())
      ensures RightVerdict(art, old(Now()), res, Now())
      ensures res == Ok(Accepted) ==>
        && AllMet(art, providesMap, candidatesMap.Keys)
        && AdmittedBy(old(candidatesMap), art)
      ensures NewUsed(old(Now()), Now(), {}, passed + {art}) && Examined(passed)
      ensures !Conflicting(art) && AdmittedBy(old(candidatesMap), art) ==>
        FirstFoundAtOnce(art, old(Now())) ==>
          && FirstMet(art, Now())
          && (RestInstalled(art) ==> res == Ok(if RestAccepted(art, |art.reqs|) then Accepted else PassedOver))
      decreases |Free(stack)|, 0, 0
    {
      hide AllMetAlready, RequiresDecided, NewUsed, Examined, FirstFoundAtOnce, FirstMet, AllMet, AllKnown, Grew;
      hide RestInstalled, RestAccepted, World, ProvidersCome, InConflict, MetAlready, IsWalk;
      GrewRefl(Now());
      NothingNew(Now());
      passed := {};
      if !ignoreConflicts {
        var conflict := ArtefactIsInConflict(art);
        if conflict {
          return Ok(Banned), passed;
        }
      }
      var admitted := ArtefactAdmitByQueue(art);
      if admitted.Err? {
        return Err(admitted.message), passed;
      }
      if !admitted.value {
        return Ok(PassedOver), passed;
      }
      FreeShrinks(stack, art);
      WalkOn(stack, art);
      var admittedDeps;
      admittedDeps, passed := ProcessArtefactDeps(art, stack + [art.name]);
      if admittedDeps.Err? {
        return Err(admittedDeps.message), passed;
      }
      return Ok(if admittedDeps.value then Accepted else PassedOver), passed;
    }

    /** The versions passed over after something was found for them, one more having been examined. */
    lemma UsedByVersions(s0: Snapshot, s: Snapshot, s': Snapshot, art: Pkg, chosen: bool,
                         passed: set<Pkg>, more: set<Pkg>)
      returns (passed': set<Pkg>)
      requires NewUsed(s0, s, {}, passed) && NewUsed(s, s', {}, more + {art}) && Grew(s, s')
      requires Examined(passed) && Examined(more) && art in repo && (Conflicting(art) ==> s' == s)
      ensures Examined(passed')
      ensures if chosen then NewUsed(s0, s', {}, passed' + {art}) else NewUsed(s0, s', {}, passed')
      ensures passed' == passed + (if s' == s then {} else more) + (if chosen || s' == s then {} else {art})
    {
      passed' := passed + (if s' == s then {} else more) + (if chosen || s' == s then {} else {art});
      if s' != s {
        NewUsedJoins(s0, s, s', {}, {}, {}, passed, more + {art}, if chosen then passed' + {art} else passed');
      }
    }

    /** The loop over the versions of one package: stop at the first that is accepted. The versions
        banned on the way are those in conflict. */
    method TryVersions(pkgstr: Name, selectedArts: seq<Pkg>, stack: seq<Name>)
      returns (res: Result<bool>, bannedVersion: set<Version>, ghost m: nat, ghost passed: set<Pkg>)
      requires Valid() && Chain(stack, pkgstr) && pkgstr !in stack
      requires forall a | a in selectedArts :: a.name == pkgstr && a in repo
      modifies this
      ensures Valid() && Grew(old(Now()), Now()) && StackPending(stack + [pkgstr], old(Now()), Now())
      ensures res == Ok(true) ==>
        && Acceptable(selectedArts, m) && bannedVersion == ConflictVersions(selectedArts[..m])
        && AllMet(selectedArts[m], providesMap, candidatesMap.Keys)
        && AdmittedBy(old(candidatesMap), selectedArts[m])
      ensures res == Ok(true) ==>
        selectedArts[m].name == pkgstr && NewUsed(old(Now()), Now(), {}, passed + {selectedArts[m]})
      ensures res != Ok(true) ==> NewUsed(old(Now()), Now(), {}, passed)
      ensures Examined(passed)
      ensures forall k: nat | BestSuits(selectedArts, k, old(Now())) :: passed == {}
      ensures forall k: nat | BestSuits(selectedArts, k, old(Now())) :: res == Ok(true) && m == k && Now() == old(Now())
      decreases |Free(stack)|, 0, 1
    {
      hide CandidatesValid, Grew, AllMet, World, BestSuits, Suits, Decided, ConflictVersions, Conflicting;
      hide InConflict, Free, TowardsBest, AllKnown, NewUsed;
      ghost var s0 := Now();
      GrewRefl(s0);
      NothingNew(s0);
      passed := {};
      var foundMatched, idx := false, 0;
      bannedVersion, m := {}, 0;
      StartTowardsBest(selectedArts, s0);
      NoVersions(selectedArts);
      while idx < |selectedArts| && !foundMatched
        invariant Valid() && Grew(s0, Now()) && StackPending(stack + [pkgstr], s0, Now())
        invariant 0 <= idx <= |selectedArts|
        invariant bannedVersion == ConflictVersions(selectedArts[..idx])
        invariant foundMatched ==>
          idx == m + 1 && Acceptable(selectedArts, m) && bannedVersion == ConflictVersions(selectedArts[..m])
        invariant foundMatched ==> AllMet(selectedArts[m], providesMap, candidatesMap.Keys)
        invariant foundMatched ==> AdmittedBy(s0.candidates, selectedArts[m])
        invariant if foundMatched then NewUsed(s0, Now(), {}, passed + {selectedArts[m]})
                  else NewUsed(s0, Now(), {}, passed)
        invariant Examined(passed) && forall k: nat | BestSuits(selectedArts, k, s0) :: passed == {}
        invariant TowardsBest(selectedArts, idx, foundMatched, s0, Now())
        decreases |selectedArts| - idx
      {
        var art := selectedArts[idx];
        ConflictVersionsSnoc(selectedArts, idx);
        m, idx := idx, idx + 1;
        if art.version in bannedVersion {
          TowardsBestSkip(selectedArts, m, s0, Now());
          continue;
        }
        ghost var s := Now();
        var verdict;
        ghost var more;
        verdict, more := TryArtefact(art, stack);
        passed := UsedByVersions(s0, s, Now(), art, verdict == Ok(Accepted), passed, more);
        GrewTrans(s0, s, Now());
        StackPendingTrans(stack + [pkgstr], s0, s, Now());
        TowardsBestNext(selectedArts, m, s0, s, verdict, Now());
        BestKeeps(selectedArts, m, verdict, s0, s, Now());
        if verdict.Err? {
          return Err(verdict.message), bannedVersion, m, passed;
        }
        if verdict.value == Banned {
          bannedVersion := bannedVersion + {art.version};
        } else if verdict.value == Accepted {
          AdmittedByEarlier(s0, s, art);
          foundMatched := true;
        }
      }
      BestIsFound(selectedArts, idx, foundMatched, s0, Now());
      return Ok(foundMatched), bannedVersion, m, passed;
    }

    lemma NoVersions(arts: seq<Pkg>)
      ensures ConflictVersions(arts[..0]) == {}
    {
    }

    /** Some version was accepted, and the versions that were not banned on the way are stored. */
    ghost predicate Resolved(n: Name, arts: seq<Pkg>, s: Snapshot) {
      && n in s.candidates && n in s.chosen
      && exists m: nat :: Acceptable(arts, m) && s.chosen[n] == arts[m]
           && s.candidates[n] == Keep(arts, ConflictVersions(arts[..m]))
    }

    lemma ChosenAreCandidates(s: Snapshot)
      requires CandidatesValid(s)
      ensures s.chosen.Keys == s.candidates.Keys
    {
    }

    lemma NewUsedWeaker(s0: Snapshot, s: Snapshot, n: Name, passed: set<Pkg>)
      requires NewUsed(s0, s, {}, passed)
      ensures NewUsed(s0, s, {n}, passed)
    {
    }

    method ResolvePackage(pkgstr: Name, stack: seq<Name>) returns (res: Result<()>, ghost passed: set<Pkg>)
      requires Valid() && Chain(stack, pkgstr)
      modifies this
      ensures Valid() && Grew(old(Now()), Now())
      ensures StackPending(stack, old(Now()), Now())
      ensures res.Ok? ==> pkgstr in stack || pkgstr in candidatesMap
      ensures pkgstr in stack || pkgstr in old(candidatesMap) ==> res.Ok? && Now() == old(Now())
      ensures var sorted := SortedVersions(old(availableArtsMap), sortVersions, pkgstr);
        pkgstr !in stack && pkgstr !in old(candidatesMap) ==>
          && (res.Ok? ==>
            && sorted.Ok? && Resolved(pkgstr, sorted.value, Now())
            && AdmittedBy(old(candidatesMap), accepted[pkgstr])
            && HeadAndChoice(pkgstr, sorted.value, old(Now()), Now()))
          && (sorted.Ok? ==> forall k: nat | BestSuits(sorted.value, k, old(Now())) ::
            res.Ok? && Stored(old(Now()), pkgstr, sorted.value, k, Now()) && passed == {})
      ensures NewUsed(old(Now()), Now(), {pkgstr}, passed) && Examined(passed)
      decreases |Free(stack)|, 0, 2
    {
      hide CandidatesValid, Grew, AllMet, World, AllKnown, BestSuits, Suits, Stored, Free, Acceptable;
      hide Resolved, HeadAndChoice, ConflictVersions, OnePerVersion, AdmittedBy, NewUsed;
      ghost var s0 := Now();
      GrewRefl(s0);
      NothingNew(s0);
      passed := {};
      if pkgstr in stack || pkgstr in candidatesMap {
        return Ok(()), passed;
      }
      VersionsAreKnown(availableArtsMap, pkgstr);
      var sorted := GetSortedArtifactsByKey(availableArtsMap, sortVersions, pkgstr);
      if sorted.Err? {
        return Err(sorted.message), passed;
      }
      var foundMatched, bannedVersion;
      ghost var m;
      foundMatched, bannedVersion, m, passed := TryVersions(pkgstr, sorted.value, stack);
      if foundMatched != Ok(true) { NewUsedWeaker(s0, Now(), pkgstr, passed); }
      if foundMatched.Err? {
        return Err(foundMatched.message), passed;
      }
      if !foundMatched.value {
        return Err(if |stack| > 0 then "No valid or admitted version found for dependency " + pkgstr
                   else "No valid candidate or valid dependencies found for " + pkgstr), passed;
      }
      ghost var s := Now();
      ChosenAreCandidates(s);
      StoreCandidate(pkgstr, sorted.value, bannedVersion, m);
      GrewTrans(s0, s, Now());
      StoredIsNew(s0, s, pkgstr, sorted.value, m, Now(), stack);
      HeadIsAcceptedVersion(s0, pkgstr, sorted.value, m, Now());
      NewUsedStored(s0, s, pkgstr, sorted.value, m, Now(), passed);
      return Ok(()), passed;
    }

    /** `a` is refused as things stand, by a candidate or for an installed package it requires. */
    ghost predicate RefusedNow(a: Pkg, s: Snapshot) {
      || (exists n :: n in s.candidates && s.candidates[n] != [] && admit(s.candidates[n][0], a) != Admitted)
      || (exists r :: r in a.reqs && r.name in systemMap && systemMap[r.name] != []
                      && admit(a, systemMap[r.name][0]) != Admitted)
    }

    /** Everything `a` requires is installed or a candidate. */
    ghost predicate NothingToResolve(a: Pkg, s: Snapshot) {
      forall r | r in a.reqs :: r.name in systemMap || r.name in s.candidates
    }

    /** What became of the first version `f` free of conflicts. Install takes it, because it heads the
        stored list. It is not the accepted version if it was refused when the resolution began; and
        if there was nothing to resolve for it, it is the accepted one exactly if it was suitable. */
    ghost predicate HeadAndChoice(n: Name, arts: seq<Pkg>, s0: Snapshot, s: Snapshot) {
      n in s.candidates && n in s.chosen && forall f: nat | FirstFree(arts, f) ::
        && s.candidates[n] != [] && s.candidates[n][0] == arts[f]
        && (RefusedNow(arts[f], s0) ==> s.chosen[n] != arts[f])
        && (NothingToResolve(arts[f], s0) ==> (s.chosen[n] == arts[f] <==> Suits(arts[f], s0)))
    }

    lemma FirstFreeSuits(arts: seq<Pkg>, f: nat, s: Snapshot)
      requires OnePerVersion(arts) && FirstFree(arts, f) && Suits(arts[f], s)
      ensures BestSuits(arts, f, s)
    {
      HeadIsFirstFree(arts, f, f);
    }

    /** What an accepted version was when the resolution began. */
    lemma AcceptedWasFit(a: Pkg, s0: Snapshot, s: Snapshot)
      requires AdmittedBy(s0.candidates, a) && AllMet(a, s.provided, s.candidates.Keys) && !Conflicting(a)
      ensures !RefusedNow(a, s0)
      ensures NothingToResolve(a, s0) ==> Suits(a, s0)
    {
      assert forall r | r in a.reqs :: MetOrCyclic(a, r, s.provided, s.candidates.Keys);
    }

    lemma HeadIsAcceptedVersion(s0: Snapshot, n: Name, arts: seq<Pkg>, m: nat, s: Snapshot)
      requires OnePerVersion(arts) && Acceptable(arts, m)
      requires CandidatesValid(s) && n in s.candidates && n in s.chosen && s.chosen[n] == arts[m]
      requires s.candidates[n] == Keep(arts, ConflictVersions(arts[..m]))
      requires AdmittedBy(s0.candidates, arts[m])
      requires forall k: nat | BestSuits(arts, k, s0) :: m == k
      ensures HeadAndChoice(n, arts, s0, s)
    {
      hide Conflicting, Suits, RefusedNow, NothingToResolve, BestSuits, ConflictVersions, Keep, AdmittedBy;
      AcceptedWasFit(arts[m], s0, s);
      forall f: nat | FirstFree(arts, f)
        ensures s.candidates[n] != [] && s.candidates[n][0] == arts[f]
        ensures RefusedNow(arts[f], s0) ==> s.chosen[n] != arts[f]
        ensures NothingToResolve(arts[f], s0) ==> (s.chosen[n] == arts[f] <==> Suits(arts[f], s0))
      {
        HeadIsFirstFree(arts, m, f);
        if Suits(arts[f], s0) { FirstFreeSuits(arts, f, s0); }
      }
    }

    lemma StoredIsNew(s0: Snapshot, s: Snapshot, n: Name, arts: seq<Pkg>, m: nat, s': Snapshot, stack: seq<Name>)
      requires Stored(s, n, arts, m, s') && Acceptable(arts, m) && n !in stack && StackPending(stack + [n], s0, s)
      ensures n in s'.candidates && n in s'.chosen && s'.chosen[n] == arts[m]
      ensures s'.candidates[n] == Keep(arts, ConflictVersions(arts[..m]))
      ensures Resolved(n, arts, s') && StackPending(stack, s0, s')
    {
    }

    /** The candidates of `n` are stored, and what their head provides is registered. */
    ghost predicate Stored(s: Snapshot, n: Name, arts: seq<Pkg>, m: nat, s': Snapshot) {
      && m < |arts| && s'.available == s.available
      && s'.candidates == s.candidates[n := Keep(arts, ConflictVersions(arts[..m]))]
      && s'.chosen == s.chosen[n := arts[m]]
      && Registers(s.provided, s'.provided, Keep(arts, ConflictVersions(arts[..m])))
    }

    /** The accepted version of a stored candidate keeps using what was stored for it. */
    lemma NewUsedStored(s0: Snapshot, s: Snapshot, n: Name, arts: seq<Pkg>, m: nat, s': Snapshot, passed: set<Pkg>)
      requires Stored(s, n, arts, m, s') && n !in s.chosen && arts[m].name == n
      requires NewUsed(s0, s, {}, passed + {arts[m]})
      ensures NewUsed(s0, s', {n}, passed)
    {
      forall k | k in s'.candidates && k !in s0.candidates && k != n ensures Used(k, s', passed) {
        assert Used(k, s, passed + {arts[m]});
        var a :| Wants(a, k) && (a in passed + {arts[m]} || (a.name in s.chosen && s.chosen[a.name] == a));
        assert s'.chosen[n] == arts[m];
      }
    }

    /** What the first of `arts` provides was added to `m`. */
    ghost predicate Registers(m: PkgsMap, m': PkgsMap, arts: seq<Pkg>) {
      forall n, q :: Listed(m', n, q) <==> Listed(m, n, q) || (arts != [] && q == arts[0] && Names(arts[0].provs, n))
    }

    method RegisterProvides(p: Pkg)
      modifies this`providesMap
      ensures Extends(old(providesMap), providesMap)
      ensures forall n, q :: Listed(providesMap, n, q) <==>
        Listed(old(providesMap), n, q) || (q == p && Names(p.provs, n))
    {
      ghost var m := providesMap;
      for k := 0 to |p.provs|
        invariant Extends(m, providesMap)
        invariant forall n, q :: Listed(providesMap, n, q) <==> Listed(m, n, q) || (q == p && Names(p.provs[..k], n))
      {
        hide AddTo, Names, Listed, Extends;
        assert p.provs[..k + 1] == p.provs[..k] + [p.provs[k]];
        NamesSnoc(p.provs[..k], p.provs[k]);
        AddToLists(providesMap, p.provs[k].name, p);
        ExtendsTrans(m, providesMap, AddTo(providesMap, p.provs[k].name, p));
        providesMap := AddTo(providesMap, p.provs[k].name, p);
      }
      assert p.provs[..|p.provs|] == p.provs;
    }

    /** The versions that are not banned; the provides of the first of them are registered. */
    method ValidVersions(selectedArts: seq<Pkg>, bannedVersion: set<Version>) returns (validArts: seq<Pkg>)
      modifies this`providesMap
      ensures validArts == Keep(selectedArts, bannedVersion)
      ensures Extends(old(providesMap), providesMap)
      ensures Registers(old(providesMap), providesMap, validArts)
    {
      ghost var provided0 := providesMap;
      var firstValid := false;
      validArts := [];
      for i := 0 to |selectedArts|
        invariant validArts == Keep(selectedArts[..i], bannedVersion)
        invariant Extends(provided0, providesMap)
        invariant firstValid <==> validArts != []
        invariant Registers(provided0, providesMap, validArts)
      {
        var art := selectedArts[i];
        assert selectedArts[..i + 1][..i] == selectedArts[..i];
        if art.version !in bannedVersion {
          if !firstValid {
            ghost var provided := providesMap;
            RegisterProvides(art);
            ExtendsTrans(provided0, provided, providesMap);
            firstValid := true;
          }
          validArts := validArts + [art];
        }
      }
      assert selectedArts[..|selectedArts|] == selectedArts;
    }

    /** The accepted version is number `m`; the list of candidates keeps all that are not banned. */
    method StoreCandidate(pkgstr: Name, selectedArts: seq<Pkg>, bannedVersion: set<Version>, ghost m: nat)
      requires Valid() && pkgstr !in candidatesMap
      requires Acceptable(selectedArts, m) && bannedVersion == ConflictVersions(selectedArts[..m])
      requires forall a | a in selectedArts :: a.name == pkgstr && a in repo
      requires AllMet(selectedArts[m], providesMap, candidatesMap.Keys)
      modifies this
      ensures Valid() && Grew(old(Now()), Now())
      ensures Stored(old(Now()), pkgstr, selectedArts, m, Now())
    {
      hide CandidatesValid, Grew, AllMet, World, ConflictVersions, Conflicting;
      ghost var s0 := Now();
      var validArts := ValidVersions(selectedArts, bannedVersion);
      candidatesMap := candidatesMap[pkgstr := validArts];
      accepted := accepted[pkgstr := selectedArts[m]];
      StoredIsValid(s0, pkgstr, selectedArts, m, Now());
    }

    lemma KeptIsCandidate(n: Name, arts: seq<Pkg>, m: nat)
      requires Acceptable(arts, m)
      requires forall a | a in arts :: a.name == n && a in repo
      ensures Candidate(n, Keep(arts, ConflictVersions(arts[..m])), arts[m])
    {
      FirstKept(arts, m);
    }

    lemma StillValid(k: Name, s: Snapshot, s': Snapshot)
      requires CandidatesValid(s) && Grew(s, s') && k in s.candidates
      ensures k in s'.candidates && k in s'.chosen
      ensures Candidate(k, s'.candidates[k], s'.chosen[k]) && AllMet(s'.chosen[k], s'.provided, s'.candidates.Keys)
    {
      hide Candidate;
      AllMetGrows(s.chosen[k], s, s');
    }

    lemma StoredGrew(s0: Snapshot, n: Name, arts: seq<Pkg>, a: Pkg, s: Snapshot)
      requires n !in s0.candidates && n !in s0.chosen && Extends(s0.provided, s.provided)
      requires s.candidates == s0.candidates[n := arts] && s.chosen == s0.chosen[n := a]
      ensures Grew(s0, s)
    {
    }

    lemma StoredIsValid(s0: Snapshot, n: Name, arts: seq<Pkg>, m: nat, s: Snapshot)
      requires CandidatesValid(s0) && n !in s0.candidates && Extends(s0.provided, s.provided)
      requires Acceptable(arts, m) && forall a | a in arts :: a.name == n && a in repo
      requires AllMet(arts[m], s0.provided, s0.candidates.Keys)
      requires Stored(s0, n, arts, m, s)
      ensures CandidatesValid(s) && Grew(s0, s)
    {
      hide Candidate, AllMet, Keep, Extends, Grew, Acceptable, ConflictVersions, Registers, ProvidersCome;
      var kept := Keep(arts, ConflictVersions(arts[..m]));
      KeptIsCandidate(n, arts, m);
      StoredGrew(s0, n, kept, arts[m], s);
      ProvidersStillCome(s0, n, kept, s);
      AllMetGrows(arts[m], s0, s);
      forall k | k in s.candidates && k != n
        ensures Candidate(k, s.candidates[k], s.chosen[k]) && AllMet(s.chosen[k], s.provided, s.candidates.Keys)
      {
        StillValid(k, s0, s);
      }
    }

    /** Does a registered package provide something that `candidate` accepts? */
    method IsProvided(candidate: Pkg, p: Pkg) returns (provMatched: bool)
      ensures provMatched <==>
        && p.name in providesMap
        && exists a, q :: a in providesMap[p.name] && q in a.provs && admit(candidate, q) == Admitted
    {
      if p.name !in providesMap {
        return false;
      }
      var provides_ := providesMap[p.name];
      for i := 0 to |provides_|
        invariant forall k, q | 0 <= k < i && q in provides_[k].provs :: admit(candidate, q) != Admitted
      {
        for j := 0 to |provides_[i].provs|
          invariant forall k | 0 <= k < j :: admit(candidate, provides_[i].provs[k]) != Admitted
        {
          if admit(candidate, provides_[i].provs[j]) == Admitted {
            return true;
          }
        }
      }
      return false;
    }

    /** Register everything a search has found. */
    method AddFound(found: seq<Pkg>, n: Name) returns (provStr: Name)
      modifies this`availableArtsMap
      ensures availableArtsMap == Added(old(availableArtsMap), found)
      ensures provStr == OtherName(found, n)
    {
      ghost var m := availableArtsMap;
      provStr := "";
      for i := 0 to |found|
        invariant availableArtsMap == Added(m, found[..i])
        invariant provStr == OtherName(found[..i], n)
      {
        var depArt := found[i];
        assert found[..i + 1][..i] == found[..i];
        if provStr == "" && depArt.name != n {
          provStr := depArt.name;
        }
        availableArtsMap := AddTo(availableArtsMap, depArt.name, depArt);
      }
      assert found[..|found|] == found;
    }

    lemma StillKnown(m: PkgsMap, p: Pkg)
      requires World() && AllKnown(m) && (search(p).Ok? ==> forall b | b in search(p).value :: b in repo)
      ensures AllKnown(AfterSearch(m, p))
    {
      if p.name !in m && search(p).Ok? {
        var found := search(p).value;
        AddedLists(m, found);
        forall n, a | n in Added(m, found) && a in Added(m, found)[n] ensures a.name == n && a in repo {
          assert Listed(Added(m, found), n, a);
        }
      }
    }

    /** Make the versions that could meet the require `p` available, and tell under which name to
        resolve them. A search happens only for a name that is not available yet. */
    method FindArtefacts(p: Pkg) returns (res: Result<Name>)
      requires Valid() && (search(p).Ok? ==> forall b | b in search(p).value :: b in repo)
      modifies this`availableArtsMap
      ensures Valid() && availableArtsMap == AfterSearch(old(availableArtsMap), p)
      ensures res.Ok? <==> Searchable(old(availableArtsMap), p)
      ensures res.Ok? ==> res.value == Target(old(availableArtsMap), p) && res.value in Offers(p)
      ensures p.name in old(availableArtsMap) ==>
        && (res.Ok? ==> res.value == p.name)
        && (res.Ok? <==> mapRepos || SortedVersions(availableArtsMap, sortVersions, p.name).Ok?)
        && availableArtsMap == if mapRepos then old(availableArtsMap)[p.name := byRepos(old(availableArtsMap)[p.name])]
                               else old(availableArtsMap)
      ensures p.name !in old(availableArtsMap) && search(p).Err? ==>
        res.Err? && availableArtsMap == old(availableArtsMap)
      ensures p.name !in old(availableArtsMap) && search(p).Ok? ==> res.Ok?
      ensures p.name !in old(availableArtsMap) && res.Ok? ==>
        && search(p).Ok? && GoesOnUnder(search(p).value, p.name, res.value)
        && forall n, b :: Listed(availableArtsMap, n, b) <==>
             Listed(old(availableArtsMap), n, b) || (b in search(p).value && b.name == n)
    {
      StillKnown(availableArtsMap, p);
      if p.name in availableArtsMap {
        if mapRepos {
          availableArtsMap := availableArtsMap[p.name := byRepos(availableArtsMap[p.name])];
        } else {
          var selectedArts := GetSortedArtifactsByKey(availableArtsMap, sortVersions, p.name);
          if selectedArts.Err? {
            return Err(selectedArts.message);
          }
        }
        return Ok(p.name);
      }
      var found := search(p);
      if found.Err? {
        return Err(found.message);
      }
      AddedLists(availableArtsMap, found.value);
      OtherNameIs(found.value, p.name);
      var provStr := AddFound(found.value, p.name);
      return Ok(if provStr != "" then provStr else p.name);
    }

    /** The require `p` has to be searched for, and neither its name nor the one found for it was known
        before. */
    ghost predicate FoundNew(p: Pkg, stack: seq<Name>, s: Snapshot) {
      && p.name !in s.available && search(p).Ok?
      && var n := Target(s.available, p); n !in s.candidates && n !in stack && n !in s.available
    }

    /** Nothing that is there or on its way meets the require `p` of `a`. */
    ghost predicate SearchedFor(a: Pkg, p: Pkg, stack: seq<Name>, s: Snapshot) {
      p.name !in systemMap && !MetAlready(a, p, s.provided, s.candidates.Keys) && p.name !in stack
    }

    /** The candidates of `n` are headed by one of the versions found; if `a` accepts all of these, it
        accepts the head. */
    ghost predicate FoundHead(a: Pkg, found: seq<Pkg>, n: Name, s: Snapshot) {
      && n in s.candidates && s.candidates[n] != [] && s.candidates[n][0] in found
      && ((forall b | b in found :: admit(a, b) == Admitted) ==> admit(a, s.candidates[n][0]) == Admitted)
    }

    /** What is stored for a name that only the search for `p` has made available. */
    lemma HeadWasFound(a: Pkg, available: PkgsMap, p: Pkg, n: Name, s: Snapshot)
      requires p.name !in available && n !in available && search(p).Ok?
      requires SortedVersions(AfterSearch(available, p), sortVersions, n).Ok?
      requires Resolved(n, SortedVersions(AfterSearch(available, p), sortVersions, n).value, s) && CandidatesValid(s)
      ensures FoundHead(a, search(p).value, n, s)
    {
      var m := AfterSearch(available, p);
      var arts := SortedVersions(m, sortVersions, n).value;
      SortedAreKnown(m, sortVersions, n);
      AddedLists(available, search(p).value);
      assert Candidate(n, s.candidates[n], s.chosen[n]);
      var b := s.candidates[n][0];
      assert b in arts && Listed(m, n, b);
    }

    /** What is resolved for a require is wanted by the version that has it. */
    lemma RootIsWanted(s0: Snapshot, s: Snapshot, a: Pkg, p: Pkg, n: Name, passed: set<Pkg>)
      requires NewUsed(s0, s, {n}, passed) && p in a.reqs && n in Offers(p)
      ensures NewUsed(s0, s, {}, passed + {a})
    {
      assert Wants(a, n);
      forall k | k in s.candidates && k !in s0.candidates ensures Used(k, s, passed + {a}) {
        if k != n { assert Used(k, s, passed); }
      }
    }

    lemma LookedUp(s0: Snapshot, m: PkgsMap, stack: seq<Name>)
      ensures var s := s0.(available := m); Grew(s0, s) && StackPending(stack, s0, s) && NewUsed(s0, s, {}, {})
    {
    }

    /** The search for `p` offers versions of one other package only, which the resolver does not know yet,
        and the best of them that suits can be taken at once. */
    ghost predicate OneProviderSuits(p: Pkg, n: Name, stack: seq<Name>, s: Snapshot) {
      && p.name !in s.available && search(p).Ok? && search(p).value != []
      && n != p.name && n != "" && (forall b | b in search(p).value :: b.name == n)
      && n !in s.available && n !in s.candidates && n !in stack
      && SortedVersions(map[n := search(p).value], sortVersions, n).Ok?
      && exists k: nat :: BestSuits(SortedVersions(map[n := search(p).value], sortVersions, n).value, k, s)
    }

    /** What is found is added behind what was known, in order. */
    lemma {:induction false} AddedUnderOne(m: PkgsMap, found: seq<Pkg>, n: Name)
      requires found != [] && forall b | b in found :: b.name == n
      ensures Added(m, found) == m[n := (if n in m then m[n] else []) + found]
    {
      var last, known := |found| - 1, if n in m then m[n] else [];
      assert found == found[..last] + [found[last]] && found[last].name == n;
      if last > 0 {
        AddedUnderOne(m, found[..last], n);
        var before := m[n := known + found[..last]];
        assert AddTo(before, n, found[last]) == m[n := known + found[..last] + [found[last]]];
        assert known + found[..last] + [found[last]] == known + found;
      } else {
        assert found[..last] == [] && found == [found[last]];
      }
    }

    lemma SuitsWhateverAvailable(arts: seq<Pkg>, k: nat, s: Snapshot, m: PkgsMap)
      requires BestSuits(arts, k, s)
      ensures BestSuits(arts, k, s.(available := m))
    {
      assert forall a :: PassedAtOnce(a, s) ==> PassedAtOnce(a, s.(available := m));
    }

    lemma ProviderIsNew(p: Pkg, n: Name, found: seq<Pkg>, m: PkgsMap)
      requires p.name !in m && search(p) == Ok(found) && found != [] && n != p.name && n != "" && n !in m
      requires forall b | b in found :: b.name == n
      ensures AfterSearch(m, p) == m[n := found] && Target(m, p) == n
    {
      AddedUnderOne(m, found, n);
      assert [] + found == found && found[0] in found;
      FirstOtherName(found, p.name, 0);
    }

    lemma ProviderIsFound(p: Pkg, n: Name, stack: seq<Name>, s: Snapshot)
      requires OneProviderSuits(p, n, stack, s)
      ensures FoundAtOnce(p, s) && Target(s.available, p) == n
    {
      var found := search(p).value;
      ProviderIsNew(p, n, found, s.available);
      hide Added, OtherName, BestSuits, AfterSearch, Target;
      var m := AfterSearch(s.available, p);
      var arts := SortedVersions(map[n := found], sortVersions, n).value;
      assert SortedVersions(m, sortVersions, n) == Ok(arts);
      var k: nat :| BestSuits(arts, k, s);
      SuitsWhateverAvailable(arts, k, s, m);
    }

    /** Look up the missing require `p` of `candidate`, and resolve what was found. */
    method ResolveFound(candidate: Pkg, p: Pkg, stack: seq<Name>) returns (res: Result<bool>, ghost passed: set<Pkg>)
      requires Valid() && candidate in repo && p in candidate.reqs && p.name !in systemMap
      requires stack != [] && IsWalk(g, stack) && stack[|stack| - 1] == candidate.name
      modifies this
      ensures Valid() && Grew(old(Now()), Now()) && StackPending(stack, old(Now()), Now())
      ensures res == Ok(true) ==> MetOrCyclic(candidate, p, providesMap, candidatesMap.Keys)
      ensures NewUsed(old(Now()), Now(), {}, passed + {candidate}) && Examined(passed)
      ensures FoundAtOnce(p, old(Now())) ==> res == Ok(true)
      ensures forall n | OneProviderSuits(p, n, stack, old(Now())) :: res == Ok(true) && n in candidatesMap
      ensures res == Ok(true) && FoundNew(p, stack, old(Now())) ==>
        FoundHead(candidate, search(p).value, Target(old(availableArtsMap), p), Now())
      decreases |Free(stack)|, 0, 3
    {
      hide CandidatesValid, Grew, AllKnown, HeadAndChoice, Resolved, BestSuits, Stored, NewUsed, Examined, FoundHead;
      hide GoesOnUnder, Target, Offers;
      ghost var s0 := Now();
      GrewRefl(s0);
      NothingNew(s0);
      passed := {};
      OffersAreEdges(candidate, p);
      forall n | OneProviderSuits(p, n, stack, s0) ensures FoundAtOnce(p, s0) && Target(s0.available, p) == n {
        ProviderIsFound(p, n, stack, s0);
      }
      var target := FindArtefacts(p);
      if target.Err? {
        return Err(target.message), passed;
      }
      LookedUp(s0, availableArtsMap, stack);
      ghost var s := Now();
      var resolved;
      resolved, passed := ResolvePackage(target.value, stack);
      GrewTrans(s0, s, Now());
      StackPendingTrans(stack, s0, s, Now());
      NewUsedJoins(s0, s, Now(), {}, {target.value}, {target.value}, {}, passed, passed);
      RootIsWanted(s0, Now(), candidate, p, target.value, passed);
      if resolved.Ok? && FoundNew(p, stack, s0) {
        HeadWasFound(candidate, s0.available, p, target.value, Now());
      }
      if resolved.Err? {
        if "No valid" <= resolved.message {
          return Ok(false), passed;
        }
        return Err(resolved.message), passed;
      }
      ResolvedMeets(candidate, p, target.value, stack, Now());
      return Ok(true), passed;
    }

    /** One require of the version `candidate`: is it met, or can it be? */
    method ResolveRequire(candidate: Pkg, p: Pkg, stack: seq<Name>)
      returns (res: Result<bool>, ghost passed: set<Pkg>)
      requires Valid() && candidate in repo && p in candidate.reqs
      requires stack != [] && IsWalk(g, stack) && stack[|stack| - 1] == candidate.name
      modifies this
      ensures Valid() && Grew(old(Now()), Now()) && StackPending(stack, old(Now()), Now())
      ensures res == Ok(true) ==> MetOrCyclic(candidate, p, providesMap, candidatesMap.Keys)
      ensures MetAlready(candidate, p, old(providesMap), old(candidatesMap).Keys) ==>
        res == Ok(true) && Now() == old(Now())
      ensures p.name in systemMap ==>
        var verdict := admit(candidate, systemMap[p.name][0]);
        && Now() == old(Now())
        && (verdict == Admitted <==> res == Ok(true))
        && (verdict == Refused <==> res == Ok(false))
      ensures NewUsed(old(Now()), Now(), {}, passed + {candidate}) && Examined(passed)
      ensures p.name !in systemMap && FoundAtOnce(p, old(Now())) ==> res == Ok(true)
      ensures res == Ok(true) && SearchedFor(candidate, p, stack, old(Now())) && FoundNew(p, stack, old(Now())) ==>
        FoundHead(candidate, search(p).value, Target(old(availableArtsMap), p), Now())
      decreases |Free(stack)|, 0, 4
    {
      hide CandidatesValid, Grew, AllKnown, HeadAndChoice, Resolved, BestSuits, Stored, NewUsed, Examined, FoundHead;
      hide FoundAtOnce;
      ghost var s0 := Now();
      GrewRefl(s0);
      NothingNew(s0);
      passed := {};
      OffersAreEdges(candidate, p);
      if p.name in systemMap {
        match admit(candidate, systemMap[p.name][0]) {
          case AdmitError(message) => return Err(message), passed;
          case Refused => return Ok(false), passed;
          case Admitted => return Ok(true), passed;
        }
      }
      var provided := IsProvided(candidate, p);
      if provided {
        return Ok(true), passed;
      }
      if p.name in candidatesMap || p.name in stack {
        ResolvedMeets(candidate, p, p.name, stack, Now());
        return Ok(true), passed;
      }
      res, passed := ResolveFound(candidate, p, stack);
    }

    /** The first `i` requires of `a` are met. */
    ghost predicate MetUpTo(a: Pkg, i: nat, s: Snapshot) {
      i <= |a.reqs| && forall k | 0 <= k < i :: MetOrCyclic(a, a.reqs[k], s.provided, s.candidates.Keys)
    }

    lemma MetUpToNext(a: Pkg, i: nat, s: Snapshot, s': Snapshot)
      requires MetUpTo(a, i, s) && Grew(s, s') && i < |a.reqs|
      requires MetOrCyclic(a, a.reqs[i], s'.provided, s'.candidates.Keys)
      ensures MetUpTo(a, i + 1, s')
    {
      forall k | 0 <= k < i ensures MetOrCyclic(a, a.reqs[k], s'.provided, s'.candidates.Keys) {
        MetGrows(a.reqs[k], a, s, s');
      }
    }

    ghost predicate MetAlreadyUpTo(a: Pkg, i: nat, s: Snapshot) {
      i <= |a.reqs| && forall k | 0 <= k < i :: MetAlready(a, a.reqs[k], s.provided, s.candidates.Keys)
    }

    /** The first require stays met while the others are examined. */
    lemma FirstRequire(a: Pkg, i: nat, s: Snapshot, met: bool, s': Snapshot)
      requires i < |a.reqs| && Grew(s, s')
      requires met ==> MetOrCyclic(a, a.reqs[i], s'.provided, s'.candidates.Keys)
      ensures if i == 0 then met ==> FirstMet(a, s') else FirstMet(a, s) ==> FirstMet(a, s')
    {
      if i > 0 && FirstMet(a, s) { MetGrows(a.reqs[0], a, s, s'); }
    }

    /** What the verdict on one installed require means for all but the first. */
    lemma RestDecides(a: Pkg, i: nat, met: Result<bool>)
      requires i < |a.reqs|
      requires var n := a.reqs[i].name;
        n in systemMap && systemMap[n] != [] ==>
          && (admit(a, systemMap[n][0]) == Admitted <==> met == Ok(true))
          && (admit(a, systemMap[n][0]) == Refused <==> met == Ok(false))
      ensures RestInstalled(a) && i > 0 ==> met == Ok(true) || (met == Ok(false) && !RestAccepted(a, |a.reqs|))
      ensures RestInstalled(a) && RestAccepted(a, i) && (i == 0 || met == Ok(true)) ==> RestAccepted(a, i + 1)
    {
    }

    /** A decided require is met already, or refuses the installed package. */
    lemma DecidedRequire(a: Pkg, i: nat, s: Snapshot)
      requires i < |a.reqs|
      ensures var r := a.reqs[i];
        RequiresDecided(a, s) && !MetAlready(a, r, s.provided, s.candidates.Keys) ==>
          && r.name in systemMap && systemMap[r.name] != [] && admit(a, systemMap[r.name][0]) == Refused
          && !AllMetAlready(a, s)
      ensures MetAlreadyUpTo(a, i, s) && MetAlready(a, a.reqs[i], s.provided, s.candidates.Keys) ==>
        MetAlreadyUpTo(a, i + 1, s)
      ensures MetAlreadyUpTo(a, |a.reqs|, s) ==> AllMetAlready(a, s)
    {
    }

    lemma StartMet(a: Pkg, stack: seq<Name>, s: Snapshot)
      ensures MetUpTo(a, 0, s) && MetAlreadyUpTo(a, 0, s) && StackPending(stack, s, s)
      ensures RestAccepted(a, 0)
    {
    }

    lemma AllAreMet(a: Pkg, s0: Snapshot, s: Snapshot)
      requires MetUpTo(a, |a.reqs|, s)
      ensures AllMet(a, s.provided, s.candidates.Keys)
      ensures MetAlreadyUpTo(a, |a.reqs|, s0) ==> AllMetAlready(a, s0)
    {
    }

    lemma ExaminedBoth(a: set<Pkg>, b: set<Pkg>)
      requires Examined(a) && Examined(b)
      ensures Examined(a + b)
    {
    }

    method ProcessArtefactDeps(candidate: Pkg, stack: seq<Name>)
      returns (res: Result<bool>, ghost passed: set<Pkg>)
      requires Valid() && candidate in repo
      requires stack != [] && IsWalk(g, stack) && stack[|stack| - 1] == candidate.name
      modifies this
      ensures Valid() && Grew(old(Now()), Now()) && StackPending(stack, old(Now()), Now())
      ensures res == Ok(true) ==> AllMet(candidate, providesMap, candidatesMap.Keys)
      ensures RequiresDecided(candidate, old(Now())) ==>
        res == Ok(AllMetAlready(candidate, old(Now()))) && Now() == old(Now())
      ensures NewUsed(old(Now()), Now(), {}, passed + {candidate}) && Examined(passed)
      ensures FirstFoundAtOnce(candidate, old(Now())) ==>
        && FirstMet(candidate, Now())
        && (RestInstalled(candidate) ==> res == Ok(RestAccepted(candidate, |candidate.reqs|)))
      decreases |Free(stack)|, 0, 5
    {
      hide MetAlready, MetOrCyclic, MetUpTo, World, CandidatesValid, Grew, StackPending, Free, IsWalk;
      hide RequiresDecided, AllMetAlready, MetAlreadyUpTo, AllKnown, NewUsed, Examined, AllMet, FirstMet, FoundAtOnce;
      hide RestInstalled, RestAccepted;
      ghost var s0 := Now();
      GrewRefl(s0);
      NothingNew(s0);
      StartMet(candidate, stack, s0);
      passed := {};
      for i := 0 to |candidate.reqs|
        invariant Valid() && Grew(s0, Now()) && StackPending(stack, s0, Now())
        invariant MetUpTo(candidate, i, Now())
        invariant NewUsed(s0, Now(), {}, passed + {candidate}) && Examined(passed)
        invariant if i == 0 then Now() == s0 else FirstMet(candidate, Now())
        invariant RestInstalled(candidate) ==> RestAccepted(candidate, i)
        invariant RequiresDecided(candidate, s0) ==> Now() == s0 && MetAlreadyUpTo(candidate, i, s0)
      {
        ghost var s := Now();
        var met;
        ghost var more;
        met, more := ResolveRequire(candidate, candidate.reqs[i], stack);
        NewUsedJoins(s0, s, Now(), {}, {}, {}, passed + {candidate}, more + {candidate}, passed + more + {candidate});
        ExaminedBoth(passed, more);
        passed := passed + more;
        GrewTrans(s0, s, Now());
        StackPendingTrans(stack, s0, s, Now());
        DecidedRequire(candidate, i, s0);
        FirstRequire(candidate, i, s, met == Ok(true), Now());
        RestDecides(candidate, i, met);
        if met.Err? || !met.value {
          return met, passed;
        }
        MetUpToNext(candidate, i, s, Now());
      }
      AllAreMet(candidate, s0, Now());
      return Ok(true), passed;
    }

    /** Versions that were accepted in the end do not count as passed over. */
    lemma NotAccepted(s0: Snapshot, s: Snapshot, roots: set<Name>, roots': set<Name>, passed: set<Pkg>)
      returns (passed': set<Pkg>)
      requires roots <= roots' && NewUsed(s0, s, roots, passed) && Examined(passed)
      ensures NewUsed(s0, s, roots', passed') && Examined(passed')
      ensures forall a | a in passed' :: !(a.name in s.chosen && s.chosen[a.name] == a)
    {
      passed' := set a | a in passed && !(a.name in s.chosen && s.chosen[a.name] == a);
      forall n | n in s.candidates && n !in s0.candidates && n !in roots ensures Used(n, s, passed') {
        assert Used(n, s, passed);
      }
    }

    /** The loop of Install over the selected packages. */
    method ResolveAll(pList: seq<Name>, force: bool) returns (res: Result<()>, ghost passed: set<Pkg>)
      requires Valid()
      modifies this
      ensures Valid() && Grew(old(Now()), Now())
      ensures res.Ok? && !force ==> forall n | n in pList :: n in candidatesMap
      ensures force ==> res.Ok?
      ensures NewUsed(old(Now()), Now(), Elements(pList), passed)
      ensures forall a | a in passed :: a in repo && !Conflicting(a) && !(a.name in accepted && accepted[a.name] == a)
    {
      hide CandidatesValid, World, AllKnown, BestSuits, Stored, AdmittedBy, Extends, NewUsed, HeadAndChoice, Resolved;
      ghost var s0 := Now();
      GrewRefl(s0);
      NothingNew(s0);
      passed := {};
      ghost var roots: set<Name> := {};
      for i := 0 to |pList|
        invariant Valid() && Grew(s0, Now())
        invariant roots <= Elements(pList) && NewUsed(s0, Now(), roots, passed) && Examined(passed)
        invariant !force ==> forall k | 0 <= k < i :: pList[k] in candidatesMap
      {
        ghost var s := Now();
        var resolved;
        ghost var more;
        resolved, more := ResolvePackage(pList[i], []);
        GrewTrans(s0, s, Now());
        NewUsedJoins(s0, s, Now(), roots, {pList[i]}, roots + {pList[i]}, passed, more, passed + more);
        roots := roots + {pList[i]};
        passed := passed + more;
        if !force && resolved.Err? {
          passed := NotAccepted(s0, Now(), roots, Elements(pList), passed);
          return resolved, passed;
        }
      }
      passed := NotAccepted(s0, Now(), roots, Elements(pList), passed);
      return Ok(()), passed;
    }

    /** The require `r` of `a` is met by what will be there: an installed package, a provider that is
        installed or heads a candidate list, or a candidate. */
    ghost predicate MetForGood(a: Pkg, r: Pkg, s: Snapshot) {
      if r.name in systemMap then
        systemMap[r.name] != [] && admit(a, systemMap[r.name][0]) == Admitted
      else
        || (exists p, q :: Listed(s.provided, r.name, p) && Comes(s, p) && q in p.provs && admit(a, q) == Admitted)
        || (exists m :: m in Offers(r) && m in s.candidates)
    }

    /** Without cycles among the requires, every candidate list holds a version whose requires are all
        met for good. */
    lemma AcyclicCandidatesAreClosed(s: Snapshot, n: Name, r: Pkg)
      requires CandidatesValid(s) && Acyclic(g)
      requires n in s.candidates && r in s.chosen[n].reqs
      ensures s.chosen[n] in s.candidates[n] && MetForGood(s.chosen[n], r, s)
    {
      assert MetOrCyclic(s.chosen[n], r, s.provided, s.candidates.Keys);
      assert forall p | r.name in s.provided && p in s.provided[r.name] :: Listed(s.provided, r.name, p);
    }
  }
}
