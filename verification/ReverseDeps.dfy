/** The reverse-dependency closure that uninstall removes (pkg/v2/installer/rdepend.go). */
module ReverseDeps {
  import opened Packages

  datatype Installed = Installed(name: Name, provided: seq<Name>, reqs: seq<Name>)

  /** `p` names `n` among its provides or requires. */
  predicate Uses(p: Installed, n: Name) {
    n in p.provided || n in p.reqs
  }

  /** Whoever provides or requires a member is a member. */
  ghost predicate ClosedSet(system: seq<Installed>, names: set<Name>) {
    forall p, n | p in system && n in names && Uses(p, n) :: p.name in names
  }

  /** `names` is the least closed set that contains `requested`. */
  ghost predicate LeastClosed(system: seq<Installed>, requested: set<Name>, names: set<Name>) {
    && ClosedSet(system, names)
    && requested <= names
    && forall c: set<Name> | ClosedSet(system, c) && requested <= c :: names <= c
  }

  function InstalledNames(ps: seq<Installed>): (r: seq<Name>)
    ensures |r| == |ps| && forall i | 0 <= i < |r| :: r[i] == ps[i].name
  {
    seq(|ps|, i requires 0 <= i < |ps| => ps[i].name)
  }

  /** Removing a closed set leaves no package behind that requires or provides a removed one. */
  lemma NothingDangles(system: seq<Installed>, requested: set<Name>, removed: set<Name>, p: Installed, n: Name)
    requires LeastClosed(system, requested, removed)
    requires p in system && p.name !in removed && (n in p.reqs || n in p.provided)
    ensures n !in removed
  {
    if n in removed { assert Uses(p, n); }
  }

  /** An installed package called `m` requires or provides `n`. */
  ghost predicate Pulls(system: seq<Installed>, n: Name, m: Name) {
    exists p | p in system :: p.name == m && (n in p.reqs || n in p.provided)
  }

  /** A chain in which each name pulls the next one. */
  ghost predicate Leads(system: seq<Installed>, c: seq<Name>) {
    c != [] && forall i | 0 <= i < |c| - 1 :: Pulls(system, c[i], c[i + 1])
  }

  ghost predicate LedTo(system: seq<Installed>, requested: set<Name>, n: Name) {
    exists c :: Leads(system, c) && c[0] in requested && c[|c| - 1] == n
  }

  lemma {:induction false} LeadsWithin(system: seq<Installed>, names: set<Name>, c: seq<Name>, i: nat)
    requires ClosedSet(system, names) && Leads(system, c) && c[0] in names && i < |c|
    ensures c[i] in names
  {
    if i > 0 {
      LeadsWithin(system, names, c, i - 1);
      assert Pulls(system, c[i - 1], c[i - 1 + 1]);
      var p :| p in system && p.name == c[i] && (c[i - 1] in p.reqs || c[i - 1] in p.provided);
      assert Uses(p, c[i - 1]);
    }
  }

  lemma LeadsFurther(system: seq<Installed>, requested: set<Name>, n: Name, p: Installed)
    requires LedTo(system, requested, n) && p in system && (n in p.reqs || n in p.provided)
    ensures LedTo(system, requested, p.name)
  {
    assert Pulls(system, n, p.name);
    hide Pulls;
    var c :| Leads(system, c) && c[0] in requested && c[|c| - 1] == n;
    var d := c + [p.name];
    assert Leads(system, d) && d[|d| - 1] == p.name && d[0] == c[0];
  }

  /** What is removed: the packages to which such a chain leads from a request, and no others. */
  lemma RemovedMeans(system: seq<Installed>, requested: set<Name>, removed: set<Name>, n: Name)
    requires LeastClosed(system, requested, removed)
    ensures n in removed <==> LedTo(system, requested, n)
  {
    var led := set m | m in removed && LedTo(system, requested, m);
    forall m | m in requested ensures m in led { assert Leads(system, [m]) && [m][0] == m; }
    forall p, m | p in system && m in led && Uses(p, m) ensures p.name in led { LeadsFurther(system, requested, m, p); }
    assert removed <= led;
    if LedTo(system, requested, n) {
      var c :| Leads(system, c) && c[0] in requested && c[|c| - 1] == n;
      LeadsWithin(system, removed, c, |c| - 1);
    }
  }

  /** The order of the requests does not matter. */
  lemma LeastClosedIsUnique(system: seq<Installed>, requested: set<Name>, a: set<Name>, b: set<Name>)
    requires LeastClosed(system, requested, a) && LeastClosed(system, requested, b)
    ensures a == b
  {
  }

  type RdepsMap = map<Name, seq<Installed>>

  /** Under each name the map lists the packages of `system` that use it. */
  ghost predicate ListsUsers(m: RdepsMap, system: seq<Installed>) {
    forall n, p :: Listed(m, n, p) <==> p in system && Uses(p, n)
  }

  lemma UsersAre(m: RdepsMap, system: seq<Installed>, n: Name, val: seq<Installed>)
    requires ListsUsers(m, system) && val == if n in m then m[n] else []
    ensures forall p :: p in val <==> p in system && Uses(p, n)
  {
    assert forall p :: p in val <==> Listed(m, n, p);
  }

  /** `matches` holds each resolved name once. */
  ghost predicate OnceEach(matches: seq<Installed>, resolved: set<Name>) {
    NoDuplicates(InstalledNames(matches)) && Elements(InstalledNames(matches)) == resolved
  }

  lemma OneMoreMatch(matches: seq<Installed>, resolved: set<Name>, p: Installed)
    requires OnceEach(matches, resolved) && p.name !in resolved
    ensures OnceEach(matches + [p], resolved + {p.name})
  {
    assert InstalledNames(matches + [p]) == InstalledNames(matches) + [p.name];
  }

  /** The matches, told by chains: each package once to which one leads from a request. */
  lemma MatchesAre(system: seq<Installed>, requested: set<Name>, matches: seq<Installed>, resolved: set<Name>)
    requires OnceEach(matches, resolved) && LeastClosed(system, requested, resolved)
    ensures forall n :: LedTo(system, requested, n) <==> exists m :: m in matches && m.name == n
    ensures forall i, j | 0 <= i < j < |matches| :: matches[i].name != matches[j].name
  {
    var names := InstalledNames(matches);
    forall n ensures LedTo(system, requested, n) <==> exists m :: m in matches && m.name == n {
      RemovedMeans(system, requested, resolved, n);
      assert n in resolved <==> n in names;
      if n in names {
        var i :| 0 <= i < |names| && names[i] == n;
        assert matches[i] in matches && matches[i].name == n;
      }
      if m :| m in matches && m.name == n {
        var i :| 0 <= i < |matches| && matches[i] == m;
        assert names[i] == n;
      }
    }
    assert forall i | 0 <= i < |matches| :: names[i] == matches[i].name;
  }

  /** A search from `root` that found `before` resolved has resolved nothing it did not have to. */
  ghost predicate OnlyNeeded(system: seq<Installed>, before: set<Name>, root: Name, resolved: set<Name>) {
    forall c: set<Name> | ClosedSet(system, c) && before <= c && root in c :: resolved <= c
  }

  /** The users of the names resolved since `before` are resolved too. */
  ghost predicate UsersResolved(system: seq<Installed>, before: set<Name>, resolved: set<Name>) {
    forall q, n | q in system && n in resolved && n !in before && Uses(q, n) :: q.name in resolved
  }

  lemma SearchStarts(system: seq<Installed>, before: set<Name>, root: Name)
    ensures OnlyNeeded(system, before, root, before + {root})
    ensures UsersResolved(system, before + {root}, before + {root})
    ensures root in before ==> OnlyNeeded(system, before, root, before) && UsersResolved(system, before, before)
  {
  }

  lemma SearchEnds(system: seq<Installed>, before: set<Name>, root: Name, resolved: set<Name>)
    requires UsersResolved(system, before + {root}, resolved)
    requires forall q | q in system && Uses(q, root) :: q.name in resolved
    ensures UsersResolved(system, before, resolved)
  {
  }

  /** A sub-search from the user `d` of `root` fits into the search from `root`. */
  lemma SubsearchFits(system: seq<Installed>, before: set<Name>, root: Name, done: set<Name>, d: Installed,
                      resolved: set<Name>)
    requires before + {root} <= done <= resolved && d in system && Uses(d, root)
    requires OnlyNeeded(system, before, root, done) && UsersResolved(system, before + {root}, done)
    requires OnlyNeeded(system, done, d.name, resolved) && UsersResolved(system, done, resolved)
    ensures OnlyNeeded(system, before, root, resolved) && UsersResolved(system, before + {root}, resolved)
  {
    forall c: set<Name> | ClosedSet(system, c) && before <= c && root in c ensures resolved <= c {
      assert done <= c && d.name in c;
    }
  }

  /** One more request on top of a finished closure. */
  lemma RequestExtends(system: seq<Installed>, requested: set<Name>, before: set<Name>, root: Name, resolved: set<Name>)
    requires LeastClosed(system, requested, before) && before + {root} <= resolved
    requires OnlyNeeded(system, before, root, resolved) && UsersResolved(system, before, resolved)
    ensures LeastClosed(system, requested + {root}, resolved)
  {
    forall c: set<Name> | ClosedSet(system, c) && requested + {root} <= c ensures resolved <= c {
      assert before <= c;
    }
  }

  ghost function Unresolved(system: seq<Installed>, resolved: set<Name>): set<Name> {
    set p | p in system && p.name !in resolved :: p.name
  }

  lemma UnresolvedShrinks(system: seq<Installed>, before: set<Name>, resolved: set<Name>, p: Installed)
    requires before <= resolved
    ensures |Unresolved(system, resolved)| <= |Unresolved(system, before)|
    ensures p in system && p.name in resolved && p.name !in before ==>
      |Unresolved(system, resolved)| < |Unresolved(system, before)|
  {
    var a, b := Unresolved(system, before), Unresolved(system, resolved);
    assert b <= a && a == b + (a - b);
    if p in system && p.name in resolved && p.name !in before { assert p.name in a - b; }
  }

  class ResolveRdependsTask {
    const System: seq<Installed>
    var resolvedMap: set<Name>
    var SystemRdepsMap: RdepsMap
    var Matches: seq<Installed>
    /** The packages that were asked for so far. */
    ghost var requested: set<Name>

    constructor (system: seq<Installed>)
      ensures System == system && Valid() && requested == {} && Matches == []
    {
      System, resolvedMap, SystemRdepsMap, Matches, requested := system, {}, map[], [], {};
    }

    ghost predicate Valid()
      reads this
    {
      && OnceEach(Matches, resolvedMap) && LeastClosed(System, requested, resolvedMap)
      && forall m | m in Matches :: m in System || m.name in requested
    }

    method AddRdep2Map(p: Installed, d: Name)
      modifies this`SystemRdepsMap
      ensures forall n, q :: Listed(SystemRdepsMap, n, q) <==> Listed(old(SystemRdepsMap), n, q) || (n == d && q == p)
    {
      if d in SystemRdepsMap {
        SystemRdepsMap := SystemRdepsMap[d := SystemRdepsMap[d] + [p]];
      } else {
        SystemRdepsMap := SystemRdepsMap[d := [p]];
      }
    }

    /** Register `p` under each of `names`. */
    method AddNames(p: Installed, names: seq<Name>)
      modifies this`SystemRdepsMap
      ensures forall n, q :: Listed(SystemRdepsMap, n, q) <==>
        Listed(old(SystemRdepsMap), n, q) || (n in names && q == p)
    {
      ghost var m0 := SystemRdepsMap;
      for i := 0 to |names|
        invariant forall n, q :: Listed(SystemRdepsMap, n, q) <==> Listed(m0, n, q) || (n in names[..i] && q == p)
      {
        assert names[..i + 1] == names[..i] + [names[i]];
        AddRdep2Map(p, names[i]);
      }
      assert names[..|names|] == names;
    }

    /** Extend the matches by the closure of one more package. */
    method ResolveRuntime(p: Installed)
      requires Valid()
      modifies this
      ensures Valid() && requested == old(requested) + {p.name}
      ensures old(Matches) <= Matches
      ensures forall n :: LedTo(System, requested, n) <==> exists m :: m in Matches && m.name == n
      ensures forall i, j | 0 <= i < j < |Matches| :: Matches[i].name != Matches[j].name
    {
      SystemRdepsMap := map[];
      for i := 0 to |System|
        invariant ListsUsers(SystemRdepsMap, System[..i])
        invariant unchanged(`Matches, `resolvedMap, `requested)
      {
        assert System[..i + 1] == System[..i] + [System[i]];
        AddNames(System[i], System[i].provided);
        AddNames(System[i], System[i].reqs);
      }
      assert System[..|System|] == System;
      ghost var before := resolvedMap;
      RecursiveResolveRdep(p);
      RequestExtends(System, requested, before, p.name, resolvedMap);
      requested := requested + {p.name};
      MatchesAre(System, requested, Matches, resolvedMap);
    }

    method RecursiveResolveRdep(p: Installed)
      requires ListsUsers(SystemRdepsMap, System) && OnceEach(Matches, resolvedMap)
      modifies this`resolvedMap, this`Matches
      ensures OnceEach(Matches, resolvedMap) && old(Matches) <= Matches
      ensures old(resolvedMap) + {p.name} <= resolvedMap
      ensures OnlyNeeded(System, old(resolvedMap), p.name, resolvedMap)
      ensures UsersResolved(System, old(resolvedMap), resolvedMap)
      ensures forall m | m in Matches :: m in old(Matches) || m == p || m in System
      decreases |Unresolved(System, resolvedMap)|, if p in System then 0 else 1
    {
      hide OnlyNeeded, UsersResolved, OnceEach, ListsUsers;
      ghost var before := resolvedMap;
      SearchStarts(System, before, p.name);
      if p.name in resolvedMap {
        return;
      }
      OneMoreMatch(Matches, resolvedMap, p);
      resolvedMap := resolvedMap + {p.name};
      Matches := Matches + [p];
      var val := if p.name in SystemRdepsMap then SystemRdepsMap[p.name] else [];
      UsersAre(SystemRdepsMap, System, p.name, val);
      for i := 0 to |val|
        invariant OnceEach(Matches, resolvedMap) && old(Matches) <= Matches
        invariant forall m | m in Matches :: m in old(Matches) || m == p || m in System
        invariant before + {p.name} <= resolvedMap
        invariant forall k | 0 <= k < i :: val[k].name in resolvedMap
        invariant OnlyNeeded(System, before, p.name, resolvedMap)
        invariant UsersResolved(System, before + {p.name}, resolvedMap)
      {
        var d := val[i];
        if d.name !in resolvedMap {
          ghost var done := resolvedMap;
          UnresolvedShrinks(System, before, done, p);
          RecursiveResolveRdep(d);
          SubsearchFits(System, before, p.name, done, d, resolvedMap);
        }
      }
      SearchEnds(System, before, p.name, resolvedMap);
    }
  }
}
