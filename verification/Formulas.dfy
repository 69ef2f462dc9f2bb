/** The clauses that say what a valid installation is, and their two builders: V1 with a fresh
    visited map for each package (pkg/package/package.go, pkg/solver/solver.go), V2 with one map
    for the whole world (pkg/solver/solver_v2.go).
 */
module Formulas {
  import opened Packages

  datatype Definition = Definition(id: Id, reqs: seq<Id>, confls: seq<Id>)

  type Db = map<Id, Definition>

  /** A disjunction: one of `neg` is false or one of `pos` is true. Nested disjunctions of the
      source are flattened, so the order and repetition of literals do not count. */
  datatype Clause = Clause(neg: set<Id>, pos: set<Id>)

  predicate IsSelector(r: Id) {
    exists c | c in r.version :: c in {'<', '>', '='}
  }

  /** The definition database, without provides, and the version comparison of the selectors. */
  datatype World = World(db: Db, selects: (Version, Version) -> bool) {

    predicate Valid() {
      forall i | i in db :: db[i].id == i
    }

    /** The stored package, or for an undefined one the bare requirement itself. */
    function Def(i: Id): Definition {
      if i in db then db[i] else Definition(i, [], [])
    }

    function Versions(name: Name): set<Id> {
      set i | i in db && i.name == name
    }

    /** The stored packages a requirement names. */
    function Selected(r: Id): set<Id> {
      set i | i in db && if IsSelector(r) then i.name == r.name && selects(r.version, i.version) else i == r
    }

    /** `a` excludes the other versions of its package, if there are more than `atLeast`. */
    function VersionClauses(a: Id, atLeast: nat): set<Clause> {
      if |Versions(a.name)| > atLeast then set b | b in Versions(a.name) && b != a :: Clause({a, b}, {}) else {}
    }

    /** `a` needs its requirement `r`: for a selector exactly one of the packages it selects. */
    function RequireClauses(a: Id, r: Id): set<Clause> {
      var s := Selected(r);
      if IsSelector(r) && s != {} then
        (set o, i | o in s && i in s && o != i :: Clause({a, i, o}, {})) + {Clause({a}, s)}
      else
        {Clause({a}, {r})}
    }

    /** The packages a conflict is about. */
    function Targets(r: Id): set<Id> {
      if Selected(r) != {} then Selected(r) else {r}
    }

    function ConflictClauses(a: Id, r: Id): set<Clause> {
      set b | b in Targets(r) :: Clause({a, b}, {})
    }

    /** All clauses of one package. */
    function Local(a: Id, atLeast: nat): set<Clause> {
      VersionClauses(a, atLeast)
      + (set r, c | r in Def(a).reqs && c in RequireClauses(a, r) :: c)
      + (set r, c | r in Def(a).confls && c in ConflictClauses(a, r) :: c)
    }

    /** The packages the builders go on with after `a`. */
    function Next(a: Id): set<Id> {
      (set r | r in Def(a).reqs && !(IsSelector(r) && Selected(r) != {}))
      + (set r, b | r in Def(a).confls && b in Targets(r) :: b)
    }

    /** The definitions and the undefined requirements they mention. */
    function Reach(): set<Id> {
      db.Keys + set a, b | a in db && b in Next(a) :: b
    }

    lemma ReachIsClosed(a: Id)
      requires Valid() && a in Reach()
      ensures Next(a) <= Reach()
    {
    }
  }

  /** The formulas `f` are `f0` and all clauses of the packages visited since `before`. */
  ghost predicate Emitted(w: World, atLeast: nat, f0: seq<Clause>, f: seq<Clause>, before: set<Id>, visited: set<Id>) {
    forall c :: c in f <==> c in f0 || exists i :: i in visited && i !in before && c in w.Local(i, atLeast)
  }

  /** The same in the middle of the call for `a`, which has emitted only `own` for itself. */
  ghost predicate Emitting(w: World, atLeast: nat, f0: seq<Clause>, f: seq<Clause>, before: set<Id>, visited: set<Id>,
                           a: Id, own: set<Clause>) {
    forall c :: c in f <==>
      c in f0 || c in own || exists i :: i in visited && i !in before && i != a && c in w.Local(i, atLeast)
  }

  lemma EmitStarts(w: World, atLeast: nat, f: seq<Clause>, before: set<Id>, a: Id)
    ensures Emitted(w, atLeast, f, f, before, before)
    ensures Emitting(w, atLeast, f, f, before, before + {a}, a, {})
  {
  }

  lemma EmitMore(w: World, atLeast: nat, f0: seq<Clause>, f: seq<Clause>, before: set<Id>, visited: set<Id>, a: Id,
                 own: set<Clause>, cs: seq<Clause>, own': set<Clause>)
    requires Emitting(w, atLeast, f0, f, before, visited, a, own)
    requires forall c :: c in own' <==> c in own || c in cs
    ensures Emitting(w, atLeast, f0, f + cs, before, visited, a, own')
  {
  }

  lemma EmitNested(w: World, atLeast: nat, f0: seq<Clause>, f: seq<Clause>, before: set<Id>, visited: set<Id>, a: Id,
                   own: set<Clause>, f': seq<Clause>, visited': set<Id>)
    requires Emitting(w, atLeast, f0, f, before, visited, a, own)
    requires Emitted(w, atLeast, f, f', visited, visited')
    requires Walked(w, before, a, visited) && visited <= visited'
    ensures Emitting(w, atLeast, f0, f', before, visited', a, own)
  {
  }

  lemma EmitVersions(w: World, atLeast: nat, f: seq<Clause>, before: set<Id>, a: Id, cs: seq<Clause>)
    requires forall c :: c in cs <==> c in w.VersionClauses(a, atLeast)
    ensures Emitting(w, atLeast, f, f + cs, before, before + {a}, a, Parts(w, a, atLeast, 0, 0))
  {
  }

  lemma EmitEnds(w: World, atLeast: nat, f0: seq<Clause>, f: seq<Clause>, before: set<Id>, visited: set<Id>, a: Id)
    requires Emitting(w, atLeast, f0, f, before, visited, a, Parts(w, a, atLeast, |w.Def(a).reqs|, |w.Def(a).confls|))
    requires Walked(w, before, a, visited) && a !in before
    ensures Emitted(w, atLeast, f0, f, before, visited)
  {
    PartsAreLocal(w, a, atLeast);
  }

  /** The walk of one builder call for `a`, so far. */
  ghost predicate Walked(w: World, before: set<Id>, a: Id, visited: set<Id>) {
    && before + {a} <= visited <= before + w.Reach()
    && forall i | i in visited && i !in before && i != a :: w.Next(i) <= visited
  }

  /** A finished call for `a`. */
  ghost predicate Visited(w: World, before: set<Id>, a: Id, visited: set<Id>) {
    && before + {a} <= visited <= before + w.Reach()
    && forall i | i in visited && i !in before :: w.Next(i) <= visited
  }

  lemma WalkNested(w: World, before: set<Id>, a: Id, v: set<Id>, b: Id, v': set<Id>)
    requires Walked(w, before, a, v) && Visited(w, v, b, v')
    ensures Walked(w, before, a, v') && v + {b} <= v'
  {
  }

  lemma Unvisited(w: World, before: set<Id>, a: Id, visited: set<Id>)
    requires Walked(w, before, a, visited) && a in w.Reach() && a !in before
    ensures |w.Reach() - visited| < |w.Reach() - before|
  {
    var x, y := w.Reach() - before, w.Reach() - visited;
    assert a in x - y && y <= x;
    assert x == y + (x - y);
  }

  /** One clause for each other version of `a`, in an arbitrary order. */
  method VersionFormulas(w: World, a: Id, atLeast: nat) returns (cs: seq<Clause>)
    ensures forall c :: c in cs <==> c in w.VersionClauses(a, atLeast)
  {
    cs := [];
    var packages := w.Versions(a.name);
    if |packages| > atLeast {
      var todo := packages;
      while todo != {}
        invariant todo <= packages
        invariant forall c :: c in cs <==> exists b :: b in packages && b !in todo && b != a && c == Clause({a, b}, {})
      {
        var cp :| cp in todo;
        if a != cp {
          cs := cs + [Clause({a, cp}, {})];
        }
        todo := todo - {cp};
      }
    }
  }

  /** At most one and at least one of the selected packages. */
  method SelectorFormulas(w: World, a: Id, r: Id) returns (cs: seq<Clause>)
    requires IsSelector(r) && w.Selected(r) != {}
    ensures forall c :: c in cs <==> c in w.RequireClauses(a, r)
  {
    cs := [];
    var packages := w.Selected(r);
    var todo := packages;
    while todo != {}
      invariant todo <= packages
      invariant forall c :: c in cs <==>
        exists o, i :: o in packages && o !in todo && i in packages && o != i && c == Clause({a, i, o}, {})
    {
      var o :| o in todo;
      var others := packages;
      ghost var cs0 := cs;
      while others != {}
        invariant others <= packages
        invariant forall c :: c in cs <==>
          c in cs0 || exists i :: i in packages && i !in others && o != i && c == Clause({a, i, o}, {})
      {
        var i :| i in others;
        if o != i {
          cs := cs + [Clause({a, i, o}, {})];
        }
        others := others - {i};
      }
      todo := todo - {o};
    }
    cs := cs + [Clause({a}, packages)];
  }

  // ----- the clauses of a package, requirement by requirement -----

  ghost function FirstRequires(w: World, a: Id, k: nat): set<Clause>
    requires k <= |w.Def(a).reqs|
  {
    if k == 0 then {} else FirstRequires(w, a, k - 1) + w.RequireClauses(a, w.Def(a).reqs[k - 1])
  }

  ghost function FirstConflicts(w: World, a: Id, k: nat): set<Clause>
    requires k <= |w.Def(a).confls|
  {
    if k == 0 then {} else FirstConflicts(w, a, k - 1) + w.ConflictClauses(a, w.Def(a).confls[k - 1])
  }

  lemma {:induction false} FirstRequiresAre(w: World, a: Id, k: nat)
    requires k <= |w.Def(a).reqs|
    ensures FirstRequires(w, a, k) == set r, c | r in w.Def(a).reqs[..k] && c in w.RequireClauses(a, r) :: c
  {
    if k > 0 {
      FirstRequiresAre(w, a, k - 1);
      var rs := w.Def(a).reqs;
      assert rs[..k] == rs[..k - 1] + [rs[k - 1]];
    }
  }

  lemma {:induction false} FirstConflictsAre(w: World, a: Id, k: nat)
    requires k <= |w.Def(a).confls|
    ensures FirstConflicts(w, a, k) == set r, c | r in w.Def(a).confls[..k] && c in w.ConflictClauses(a, r) :: c
  {
    if k > 0 {
      FirstConflictsAre(w, a, k - 1);
      var rs := w.Def(a).confls;
      assert rs[..k] == rs[..k - 1] + [rs[k - 1]];
    }
  }

  /** The clauses of `a` for its versions, its first `i` requires and its first `j` conflicts. */
  ghost function Parts(w: World, a: Id, atLeast: nat, i: nat, j: nat): set<Clause>
    requires i <= |w.Def(a).reqs| && j <= |w.Def(a).confls|
  {
    w.VersionClauses(a, atLeast) + FirstRequires(w, a, i) + FirstConflicts(w, a, j)
  }

  lemma PartsAreLocal(w: World, a: Id, atLeast: nat)
    ensures Parts(w, a, atLeast, |w.Def(a).reqs|, |w.Def(a).confls|) == w.Local(a, atLeast)
  {
    var d := w.Def(a);
    FirstRequiresAre(w, a, |d.reqs|);
    FirstConflictsAre(w, a, |d.confls|);
    assert d.reqs[..|d.reqs|] == d.reqs && d.confls[..|d.confls|] == d.confls;
  }

  /** The requirement `r` of `a` needs no further package to be visited, or it was. */
  ghost predicate Followed(w: World, visited: set<Id>, r: Id) {
    (IsSelector(r) && w.Selected(r) != {}) || r in visited
  }

  /** The first `i` requires and `j` conflicts of `a` were followed. */
  ghost predicate FollowedUpTo(w: World, visited: set<Id>, a: Id, i: nat, j: nat)
    requires i <= |w.Def(a).reqs| && j <= |w.Def(a).confls|
  {
    && (forall k | 0 <= k < i :: Followed(w, visited, w.Def(a).reqs[k]))
    && (forall k | 0 <= k < j :: w.Targets(w.Def(a).confls[k]) <= visited)
  }

  lemma FollowStarts(w: World, visited: set<Id>, a: Id)
    ensures FollowedUpTo(w, visited, a, 0, 0)
  {
  }

  lemma FollowRequire(w: World, v: set<Id>, a: Id, i: nat, v': set<Id>)
    requires i < |w.Def(a).reqs| && FollowedUpTo(w, v, a, i, 0)
    requires v <= v' && Followed(w, v', w.Def(a).reqs[i])
    ensures FollowedUpTo(w, v', a, i + 1, 0)
  {
  }

  lemma FollowConflict(w: World, v: set<Id>, a: Id, j: nat, v': set<Id>)
    requires j < |w.Def(a).confls| && FollowedUpTo(w, v, a, |w.Def(a).reqs|, j)
    requires v <= v' && w.Targets(w.Def(a).confls[j]) <= v'
    ensures FollowedUpTo(w, v', a, |w.Def(a).reqs|, j + 1)
  {
  }

  lemma WalkEnds(w: World, before: set<Id>, a: Id, visited: set<Id>)
    requires Walked(w, before, a, visited)
    requires FollowedUpTo(w, visited, a, |w.Def(a).reqs|, |w.Def(a).confls|)
    ensures Visited(w, before, a, visited)
  {
    assert forall r | r in w.Def(a).reqs :: Followed(w, visited, r);
    assert forall r | r in w.Def(a).confls :: w.Targets(r) <= visited;
  }

  lemma WalkStarts(w: World, before: set<Id>, a: Id)
    requires a in w.Reach()
    ensures Walked(w, before, a, before + {a})
    ensures a in before ==> Visited(w, before, a, before)
  {
  }

  lemma NextIsReached(w: World, a: Id, b: Id)
    requires w.Valid() && a in w.Reach()
    ensures (b in w.Def(a).reqs && !(IsSelector(b) && w.Selected(b) != {})) ==> b in w.Reach()
    ensures b in w.Def(a).confls ==> w.Targets(b) <= w.Reach()
  {
    w.ReachIsClosed(a);
  }

  /** One visited map and one list of formulas. V2 uses one builder for the whole world and asks
      for more than one version; V1 uses a new one for each package and asks for any. V1 returns
      the formulas of a nested call to the caller, which appends them at once: the same list. */
  class Builder {
    const w: World
    const atLeast: nat
    var visited: set<Id>
    var formulas: seq<Clause>

    constructor (w: World, atLeast: nat)
      ensures this.w == w && this.atLeast == atLeast && visited == {} && formulas == []
    {
      this.w, this.atLeast, visited, formulas := w, atLeast, {}, [];
    }

    method BuildFormula(a: Id)
      requires w.Valid() && a in w.Reach()
      modifies this
      ensures Visited(w, old(visited), a, visited)
      ensures Emitted(w, atLeast, old(formulas), formulas, old(visited), visited)
      decreases |w.Reach() - visited|, 1
    {
      hide Emitted, Emitting, Walked, Visited, Parts, FollowedUpTo;
      ghost var before, f0 := visited, formulas;
      WalkStarts(w, before, a);
      EmitStarts(w, atLeast, f0, before, a);
      if a in visited {
        return;
      }
      visited := visited + {a};
      var cs := VersionFormulas(w, a, atLeast);
      EmitVersions(w, atLeast, f0, before, a, cs);
      formulas := formulas + cs;
      AddRequires(a, before, f0);
      AddConflicts(a, before, f0);
      WalkEnds(w, before, a, visited);
      EmitEnds(w, atLeast, f0, formulas, before, visited, a);
    }

    method AddRequires(a: Id, ghost before: set<Id>, ghost f0: seq<Clause>)
      requires w.Valid() && a in w.Reach() && a !in before && Walked(w, before, a, visited)
      requires Emitting(w, atLeast, f0, formulas, before, visited, a, Parts(w, a, atLeast, 0, 0))
      modifies this
      ensures Walked(w, before, a, visited)
      ensures Emitting(w, atLeast, f0, formulas, before, visited, a, Parts(w, a, atLeast, |w.Def(a).reqs|, 0))
      ensures FollowedUpTo(w, visited, a, |w.Def(a).reqs|, 0)
      decreases |w.Reach() - before|, 0, 1
    {
      hide Emitted, Emitting, Walked, Visited, Parts, FollowedUpTo;
      FollowStarts(w, visited, a);
      for i := 0 to |w.Def(a).reqs|
        invariant Walked(w, before, a, visited)
        invariant Emitting(w, atLeast, f0, formulas, before, visited, a, Parts(w, a, atLeast, i, 0))
        invariant FollowedUpTo(w, visited, a, i, 0)
      {
        ghost var v := visited;
        AddRequire(a, i, before, f0);
        FollowRequire(w, v, a, i, visited);
      }
    }

    method AddConflicts(a: Id, ghost before: set<Id>, ghost f0: seq<Clause>)
      requires w.Valid() && a in w.Reach() && a !in before && Walked(w, before, a, visited)
      requires Emitting(w, atLeast, f0, formulas, before, visited, a, Parts(w, a, atLeast, |w.Def(a).reqs|, 0))
      requires FollowedUpTo(w, visited, a, |w.Def(a).reqs|, 0)
      modifies this
      ensures Walked(w, before, a, visited)
      ensures Emitting(w, atLeast, f0, formulas, before, visited, a,
                       Parts(w, a, atLeast, |w.Def(a).reqs|, |w.Def(a).confls|))
      ensures FollowedUpTo(w, visited, a, |w.Def(a).reqs|, |w.Def(a).confls|)
      decreases |w.Reach() - before|, 0, 1
    {
      hide Emitted, Emitting, Walked, Visited, Parts, FollowedUpTo;
      for j := 0 to |w.Def(a).confls|
        invariant Walked(w, before, a, visited)
        invariant Emitting(w, atLeast, f0, formulas, before, visited, a, Parts(w, a, atLeast, |w.Def(a).reqs|, j))
        invariant FollowedUpTo(w, visited, a, |w.Def(a).reqs|, j)
      {
        ghost var v := visited;
        AddConflict(a, j, before, f0);
        FollowConflict(w, v, a, j, visited);
      }
    }

    /** The requirement number `i` of `a`, inside the call for `a`. */
    method AddRequire(a: Id, i: nat, ghost before: set<Id>, ghost f0: seq<Clause>)
      requires w.Valid() && a in w.Reach() && a !in before && i < |w.Def(a).reqs|
      requires Walked(w, before, a, visited)
      requires Emitting(w, atLeast, f0, formulas, before, visited, a, Parts(w, a, atLeast, i, 0))
      modifies this
      ensures old(visited) <= visited && Walked(w, before, a, visited)
      ensures Emitting(w, atLeast, f0, formulas, before, visited, a, Parts(w, a, atLeast, i + 1, 0))
      ensures Followed(w, visited, w.Def(a).reqs[i])
      decreases |w.Reach() - before|, 0, 0
    {
      hide Emitted, Emitting, Walked, Visited;
      var r := w.Def(a).reqs[i];
      if IsSelector(r) && w.Selected(r) != {} {
        var sel := SelectorFormulas(w, a, r);
        EmitMore(w, atLeast, f0, formulas, before, visited, a, Parts(w, a, atLeast, i, 0), sel,
                 Parts(w, a, atLeast, i + 1, 0));
        formulas := formulas + sel;
      } else {
        EmitMore(w, atLeast, f0, formulas, before, visited, a, Parts(w, a, atLeast, i, 0), [Clause({a}, {r})],
                 Parts(w, a, atLeast, i + 1, 0));
        formulas := formulas + [Clause({a}, {r})];
        ghost var v, f := visited, formulas;
        Unvisited(w, before, a, v);
        NextIsReached(w, a, r);
        BuildFormula(r);
        WalkNested(w, before, a, v, r, visited);
        EmitNested(w, atLeast, f0, f, before, v, a, Parts(w, a, atLeast, i + 1, 0), formulas, visited);
      }
    }

    /** The conflict number `j` of `a`, inside the call for `a`. */
    method AddConflict(a: Id, j: nat, ghost before: set<Id>, ghost f0: seq<Clause>)
      requires w.Valid() && a in w.Reach() && a !in before && j < |w.Def(a).confls|
      requires Walked(w, before, a, visited)
      requires Emitting(w, atLeast, f0, formulas, before, visited, a, Parts(w, a, atLeast, |w.Def(a).reqs|, j))
      modifies this
      ensures old(visited) <= visited && Walked(w, before, a, visited)
      ensures Emitting(w, atLeast, f0, formulas, before, visited, a, Parts(w, a, atLeast, |w.Def(a).reqs|, j + 1))
      ensures w.Targets(w.Def(a).confls[j]) <= visited
      decreases |w.Reach() - before|, 0, 0
    {
      hide Emitted, Emitting, Walked, Visited;
      var r := w.Def(a).confls[j];
      var packages := w.Targets(r);
      NextIsReached(w, a, r);
      ghost var base := Parts(w, a, atLeast, |w.Def(a).reqs|, j);
      ghost var own := base;
      var todo := packages;
      while todo != {}
        invariant todo <= packages && old(visited) <= visited && packages - todo <= visited
        invariant Walked(w, before, a, visited)
        invariant forall c :: c in own <==>
          c in base || exists b :: b in packages && b !in todo && c == Clause({a, b}, {})
        invariant Emitting(w, atLeast, f0, formulas, before, visited, a, own)
      {
        var b :| b in todo;
        var cs := [Clause({a, b}, {})];
        EmitMore(w, atLeast, f0, formulas, before, visited, a, own, cs, own + {Clause({a, b}, {})});
        formulas := formulas + cs;
        own := own + {Clause({a, b}, {})};
        ghost var v, f := visited, formulas;
        Unvisited(w, before, a, v);
        BuildFormula(b);
        WalkNested(w, before, a, v, b, visited);
        EmitNested(w, atLeast, f0, f, before, v, a, own, formulas, visited);
        todo := todo - {b};
      }
      assert own == Parts(w, a, atLeast, |w.Def(a).reqs|, j + 1);
    }
  }

  // ----- the world -----

  /** What either builder is meant to emit for the whole world. */
  ghost predicate IsWorldClause(w: World, atLeast: nat, c: Clause) {
    exists i :: i in w.Reach() && c in w.Local(i, atLeast)
  }

  /** The packages of `order` and all that follows them were visited. */
  ghost predicate Covers(w: World, order: seq<Id>, visited: set<Id>) {
    && (forall i | i in order :: i in visited)
    && visited <= w.Reach()
    && forall i | i in visited :: w.Next(i) <= visited
  }

  lemma CoversAll(w: World, order: seq<Id>, visited: set<Id>)
    requires Covers(w, order, visited) && Elements(order) == w.db.Keys
    ensures visited == w.Reach()
  {
  }

  lemma CoversNext(w: World, order: seq<Id>, v: set<Id>, a: Id, v': set<Id>)
    requires Covers(w, order, v) && Visited(w, v, a, v')
    ensures Covers(w, order + [a], v')
  {
  }

  method BuildWorldV2(w: World, order: seq<Id>) returns (formulas: seq<Clause>)
    requires w.Valid() && Elements(order) == w.db.Keys
    ensures forall c :: c in formulas <==> IsWorldClause(w, 1, c)
  {
    hide Covers, Visited;
    var m := new Builder(w, 1);
    assert Covers(w, [], m.visited) by { StartCovers(w); }
    for k := 0 to |order|
      invariant Covers(w, order[..k], m.visited)
      invariant Emitted(w, 1, [], m.formulas, {}, m.visited)
    {
      assert order[..k + 1] == order[..k] + [order[k]];
      ghost var v, f := m.visited, m.formulas;
      assert order[k] in Elements(order);
      m.BuildFormula(order[k]);
      CoversNext(w, order[..k], v, order[k], m.visited);
      EmittedNext(w, 1, f, v, m.formulas, m.visited, order[k]);
    }
    assert order[..|order|] == order;
    CoversAll(w, order, m.visited);
    formulas := m.formulas;
  }

  lemma StartCovers(w: World)
    ensures Covers(w, [], {})
  {
  }

  lemma EmittedNext(w: World, atLeast: nat, f: seq<Clause>, v: set<Id>, f': seq<Clause>, v': set<Id>, a: Id)
    requires Emitted(w, atLeast, [], f, {}, v) && Emitted(w, atLeast, f, f', v, v') && Visited(w, v, a, v')
    ensures Emitted(w, atLeast, [], f', {}, v')
  {
  }

  method BuildWorldV1(w: World, order: seq<Id>) returns (formulas: seq<Clause>)
    requires w.Valid() && Elements(order) == w.db.Keys
    ensures forall c :: c in formulas <==> IsWorldClause(w, 0, c)
  {
    hide Visited;
    formulas := [];
    ghost var all: set<Id> := {};
    for k := 0 to |order|
      invariant Covers(w, order[..k], all)
      invariant Emitted(w, 0, [], formulas, {}, all)
    {
      assert order[..k + 1] == order[..k] + [order[k]];
      var b := new Builder(w, 0);
      assert order[k] in Elements(order);
      b.BuildFormula(order[k]);
      FreshIsAlone(w, order[k], b.visited);
      formulas := formulas + b.formulas;
      all := all + b.visited;
    }
    assert order[..|order|] == order;
    CoversAll(w, order, all);
  }

  lemma FreshIsAlone(w: World, a: Id, visited: set<Id>)
    requires Visited(w, {}, a, visited)
    ensures a in visited && visited <= w.Reach() && forall i | i in visited :: w.Next(i) <= visited
  {
  }

  // ----- V1 against V2 -----

  lemma OnlyMember(s: set<Id>, b: Id)
    requires b in s && |s| <= 1
    ensures s == {b}
  {
    assert |s - {b}| == |s| - 1;
    assert s == {b} + (s - {b});
  }

  lemma UndefinedHasNoRules(w: World, a: Id, atLeast: nat)
    requires a !in w.db
    ensures w.Local(a, atLeast) == w.VersionClauses(a, atLeast)
  {
    assert w.Def(a).reqs == [] && w.Def(a).confls == [];
  }

  lemma SingleVersion(w: World, a: Id, b: Id)
    requires w.Versions(a.name) == {b}
    ensures w.VersionClauses(a, 1) == {}
    ensures w.VersionClauses(a, 0) == if a == b then {} else {Clause({a, b}, {})}
  {
  }

  /** Stored packages give the same clauses to both builders; so do undefined ones, unless
      exactly one version of their name is stored. */
  lemma SameLocal(w: World, a: Id)
    ensures w.Local(a, 0) == w.Local(a, 1) <==> a in w.db || |w.Versions(a.name)| != 1
  {
    var vs := w.Versions(a.name);
    if |vs| == 1 {
      var b :| b in vs;
      OnlyMember(vs, b);
      SingleVersion(w, a, b);
      if a in w.db {
        assert a in vs;
      } else {
        UndefinedHasNoRules(w, a, 0);
        UndefinedHasNoRules(w, a, 1);
        assert Clause({a, b}, {}) in w.Local(a, 0);
      }
    } else if |vs| == 0 {
      assert w.VersionClauses(a, 0) == w.VersionClauses(a, 1);
    }
  }

  /** The package of a clause is always among its negative literals. */
  lemma OwnClause(w: World, i: Id, atLeast: nat, c: Clause)
    requires c in w.Local(i, atLeast)
    ensures i in c.neg
  {
    if r :| r in w.Def(i).reqs && c in w.RequireClauses(i, r) {
    } else if r :| r in w.Def(i).confls && c in w.ConflictClauses(i, r) {
    }
  }

  /** A conflict clause between a stored and an undefined package comes from a conflict of the
      stored one that names the other. */
  lemma ConflictWithUndefined(w: World, b: Id, a: Id, r: Id)
    requires a !in w.db && b in w.db && Clause({a, b}, {}) in w.ConflictClauses(b, r)
    ensures a == r
  {
    var t :| t in w.Targets(r) && Clause({b, t}, {}) == Clause({a, b}, {});
    assert a in {b, t};
  }

  lemma RequireOfUndefined(w: World, b: Id, a: Id, r: Id)
    requires a !in w.db && b in w.db
    ensures Clause({a, b}, {}) !in w.RequireClauses(b, r)
  {
    var c, s := Clause({a, b}, {}), w.Selected(r);
    if IsSelector(r) && s != {} {
      assert c.pos != s;
      forall o, i | o in s && i in s && o != i ensures Clause({b, i, o}, {}) != c {
        assert a !in {b, i, o};
        assert a in c.neg;
      }
    } else {
      assert r in Clause({b}, {r}).pos;
    }
  }

  lemma UndefinedIsTarget(w: World, a: Id)
    requires a in w.Reach() && a !in w.db
    ensures w.Targets(a) == {a}
  {
    var x :| x in w.db && a in w.Next(x);
    if a !in w.Def(x).reqs || (IsSelector(a) && w.Selected(a) != {}) {
      var r :| r in w.Def(x).confls && a in w.Targets(r);
      assert w.Selected(r) == {} && r == a;
    }
  }

  /** V2 emits the clause that forbids an undefined package beside the single stored version of its
      name exactly if that version has a conflict with it. */
  lemma PairClause(w: World, a: Id, b: Id)
    requires a in w.Reach() && a !in w.db && w.Versions(a.name) == {b}
    ensures Clause({a, b}, {}) in w.Local(b, 1) <==> a in w.Def(b).confls
    ensures Clause({a, b}, {}) !in w.Local(a, 1)
  {
    var c := Clause({a, b}, {});
    assert b in w.Versions(a.name);
    SingleVersion(w, a, b);
    SingleVersion(w, b, b);
    UndefinedHasNoRules(w, a, 1);
    assert forall r | r in w.Def(b).reqs :: c !in w.RequireClauses(b, r) by {
      forall r | r in w.Def(b).reqs ensures c !in w.RequireClauses(b, r) { RequireOfUndefined(w, b, a, r); }
    }
    if r :| r in w.Def(b).confls && c in w.ConflictClauses(b, r) { ConflictWithUndefined(w, b, a, r); }
    if a in w.Def(b).confls {
      assert w.Versions(a.name) == {b} && a !in w.Versions(a.name);
      UndefinedIsTarget(w, a);
      assert c == Clause({b, a}, {}) && c in w.ConflictClauses(b, a);
    }
  }

  lemma FewerClauses(w: World, a: Id)
    ensures w.Local(a, 1) <= w.Local(a, 0)
  {
    assert w.VersionClauses(a, 1) <= w.VersionClauses(a, 0);
  }

  /** What V1 emits beyond V2. */
  lemma MoreClauses(w: World, a: Id, c: Clause)
    requires c in w.Local(a, 0) && c !in w.Local(a, 1)
    ensures a !in w.db && exists b :: w.Versions(a.name) == {b} && c == Clause({a, b}, {})
  {
    SameLocal(w, a);
    var b :| b in w.Versions(a.name);
    OnlyMember(w.Versions(a.name), b);
    SingleVersion(w, a, b);
    UndefinedHasNoRules(w, a, 0);
  }

  /** The two builders emit the same clauses for a world exactly if every stored package that is the
      only version of an undefined requirement has a conflict with that requirement. */
  lemma SameWorld(w: World)
    ensures (forall c :: IsWorldClause(w, 0, c) <==> IsWorldClause(w, 1, c)) <==>
      forall a, b | a in w.Reach() && a !in w.db && w.Versions(a.name) == {b} :: a in w.Def(b).confls
  {
    hide World.Local, World.Reach;
    if forall c :: IsWorldClause(w, 0, c) <==> IsWorldClause(w, 1, c) {
      forall a, b | a in w.Reach() && a !in w.db && w.Versions(a.name) == {b} ensures a in w.Def(b).confls {
        ForbiddenBeside(w, a, b);
      }
    }
    if forall a, b | a in w.Reach() && a !in w.db && w.Versions(a.name) == {b} :: a in w.Def(b).confls {
      forall c ensures IsWorldClause(w, 0, c) <==> IsWorldClause(w, 1, c) {
        SameWorldClause(w, c);
      }
    }
  }

  lemma ForbiddenBeside(w: World, a: Id, b: Id)
    requires a in w.Reach() && a !in w.db && w.Versions(a.name) == {b}
    requires IsWorldClause(w, 0, Clause({a, b}, {})) ==> IsWorldClause(w, 1, Clause({a, b}, {}))
    ensures a in w.Def(b).confls
  {
    hide World.Local, World.Reach;
    var c := Clause({a, b}, {});
    PairInV1(w, a, b);
    assert IsWorldClause(w, 0, c);
    var i :| i in w.Reach() && c in w.Local(i, 1);
    OwnClause(w, i, 1, c);
    PairClause(w, a, b);
  }

  lemma PairInV1(w: World, a: Id, b: Id)
    requires a !in w.db && w.Versions(a.name) == {b}
    ensures Clause({a, b}, {}) in w.Local(a, 0)
  {
    assert b in w.Versions(a.name);
    SingleVersion(w, a, b);
  }

  lemma StoredIsReached(w: World, a: Id, b: Id)
    requires w.Versions(a.name) == {b}
    ensures b in w.Reach()
  {
    assert b in w.Versions(a.name);
  }

  lemma SameWorldClause(w: World, c: Clause)
    requires forall a, b | a in w.Reach() && a !in w.db && w.Versions(a.name) == {b} :: a in w.Def(b).confls
    ensures IsWorldClause(w, 0, c) <==> IsWorldClause(w, 1, c)
  {
    hide World.Local, World.Reach;
    if a :| a in w.Reach() && c in w.Local(a, 1) {
      FewerClauses(w, a);
    }
    if a :| a in w.Reach() && c in w.Local(a, 0) {
      if c !in w.Local(a, 1) {
        MoreClauses(w, a, c);
        var b :| w.Versions(a.name) == {b} && c == Clause({a, b}, {});
        PairClause(w, a, b);
        StoredIsReached(w, a, b);
      }
    }
  }

  ghost predicate OneUndefined(w: World, p: Id, q: Id, missing: Id) {
    && w.db == map[p := Definition(p, [missing], []), q := Definition(q, [], [])]
    && q.name == missing.name && p.name != q.name && missing != q && !IsSelector(missing)
  }

  lemma OneUndefinedClauses(w: World, p: Id, q: Id, missing: Id)
    requires OneUndefined(w, p, q, missing)
    ensures w.Local(missing, 0) == {Clause({missing, q}, {})} && w.Local(missing, 1) == {}
    ensures w.Local(q, 1) == {} && w.Local(p, 1) == {Clause({p}, {missing})}
  {
    assert w.Versions(q.name) == {q} && w.Versions(p.name) == {p};
    SingleVersion(w, missing, q);
    SingleVersion(w, q, q);
    SingleVersion(w, p, p);
    UndefinedHasNoRules(w, missing, 0);
    UndefinedHasNoRules(w, missing, 1);
    assert w.RequireClauses(p, missing) == {Clause({p}, {missing})};
  }

  /** One undefined requirement next to a single stored version tells the builders apart: V1
      forbids to have both, V2 does not. */
  lemma UndefinedRequirementDiffers(w: World, p: Id, q: Id, missing: Id)
    requires OneUndefined(w, p, q, missing)
    ensures IsWorldClause(w, 0, Clause({missing, q}, {}))
    ensures !IsWorldClause(w, 1, Clause({missing, q}, {}))
  {
    OneUndefinedClauses(w, p, q, missing);
    assert missing in w.Next(p);
    assert w.Next(p) == {missing} && w.Next(q) == {};
    assert w.Reach() == {p, q, missing};
    assert Clause({missing, q}, {}).neg != {p} by { assert q in Clause({missing, q}, {}).neg; }
  }

  // ----- what the clauses mean -----

  /** `on` is the set of packages taken to be installed. */
  predicate Satisfies(on: set<Id>, c: Clause) {
    (exists n | n in c.neg :: n !in on) || exists p | p in c.pos :: p in on
  }

  /** Every requirement and conflict names a stored package. */
  ghost predicate ClosedWorld(w: World) {
    forall a, r | a in w.db && (r in w.db[a].reqs || r in w.db[a].confls) ::
      if '<' in r.version || '>' in r.version || '=' in r.version then
        exists i :: i in w.db && i.name == r.name && w.selects(r.version, i.version)
      else r in w.db
  }

  /** What the package `a` asks of an installation it is part of, told by the stored definitions alone: for
      a require with a comparison in its version, exactly one stored version of the required package that
      the comparison accepts; for any other, the required package itself; no stored package that a conflict
      is about in the same way; and no other version of `a`. */
  ghost predicate Installable(w: World, on: set<Id>, a: Id)
    requires a in w.db
  {
    && (forall r | r in w.db[a].reqs ::
          if '<' in r.version || '>' in r.version || '=' in r.version then
            exists b :: b in w.db && b in on && b.name == r.name && w.selects(r.version, b.version)
              && forall i | i in w.db && i in on && i.name == r.name && w.selects(r.version, i.version) :: i == b
          else r in w.db && r in on)
    && (forall r, b | r in w.db[a].confls && b in w.db && b in on ::
          if '<' in r.version || '>' in r.version || '=' in r.version then
            !(b.name == r.name && w.selects(r.version, b.version))
          else b != r)
    && (forall b | b in w.db && b in on && b.name == a.name :: b == a)
  }

  /** Exactly one member of `s` is on. */
  ghost predicate ExactlyOne(on: set<Id>, s: set<Id>) {
    exists b :: b in s && b in on && forall i | i in s && i in on :: i == b
  }

  lemma SelectedAre(w: World, r: Id)
    ensures forall i :: i in w.Selected(r) <==>
      && i in w.db
      && if '<' in r.version || '>' in r.version || '=' in r.version then
           i.name == r.name && w.selects(r.version, i.version)
         else i == r
  {
    assert IsSelector(r) <==> '<' in r.version || '>' in r.version || '=' in r.version;
  }

  lemma ClosedSelects(w: World, a: Id, r: Id)
    requires ClosedWorld(w) && a in w.db && (r in w.db[a].reqs || r in w.db[a].confls)
    ensures w.Selected(r) != {}
  {
    SelectedAre(w, r);
    if '<' in r.version || '>' in r.version || '=' in r.version {
      var i :| i in w.db && i.name == r.name && w.selects(r.version, i.version);
      assert i in w.Selected(r);
    } else {
      assert r in w.Selected(r);
    }
  }

  lemma RequireIs(w: World, on: set<Id>, r: Id)
    ensures ExactlyOne(on, w.Selected(r)) <==>
      if '<' in r.version || '>' in r.version || '=' in r.version then
        exists b :: b in w.db && b in on && b.name == r.name && w.selects(r.version, b.version)
          && forall i | i in w.db && i in on && i.name == r.name && w.selects(r.version, i.version) :: i == b
      else r in w.db && r in on
  {
    SelectedAre(w, r);
    hide World.Selected;
    if '<' !in r.version && '>' !in r.version && '=' !in r.version && r in w.db && r in on {
      assert r in w.Selected(r);
    }
  }

  lemma ConflictIs(w: World, on: set<Id>, r: Id)
    ensures (forall b | b in w.Selected(r) :: b !in on) <==>
      forall b | b in w.db && b in on ::
        if '<' in r.version || '>' in r.version || '=' in r.version then
          !(b.name == r.name && w.selects(r.version, b.version))
        else b != r
  {
    SelectedAre(w, r);
  }

  ghost predicate AllSatisfied(on: set<Id>, cs: set<Clause>) {
    forall c | c in cs :: Satisfies(on, c)
  }

  lemma PairMeans(on: set<Id>, a: Id, b: Id)
    requires a in on
    ensures Satisfies(on, Clause({a, b}, {})) <==> b !in on
  {
    assert b in Clause({a, b}, {}).neg;
  }

  lemma TripleMeans(on: set<Id>, a: Id, i: Id, o: Id)
    requires a in on
    ensures Satisfies(on, Clause({a, i, o}, {})) <==> i !in on || o !in on
  {
    assert i in Clause({a, i, o}, {}).neg && o in Clause({a, i, o}, {}).neg;
  }

  lemma ExactRequireMeans(w: World, on: set<Id>, a: Id, r: Id)
    requires a in on && w.Selected(r) != {} && !IsSelector(r)
    ensures AllSatisfied(on, w.RequireClauses(a, r)) <==> ExactlyOne(on, w.Selected(r))
  {
    assert w.Selected(r) == {r} && w.RequireClauses(a, r) == {Clause({a}, {r})};
    assert Satisfies(on, Clause({a}, {r})) <==> r in on;
  }

  lemma SelectorRequireMeans(w: World, on: set<Id>, a: Id, r: Id)
    requires a in on && w.Selected(r) != {} && IsSelector(r)
    ensures AllSatisfied(on, w.RequireClauses(a, r)) <==> ExactlyOne(on, w.Selected(r))
  {
    hide Satisfies;
    var s, cs := w.Selected(r), w.RequireClauses(a, r);
    assert Clause({a}, s) in cs && (Satisfies(on, Clause({a}, s)) <==> exists p :: p in s && p in on) by {
      AtLeastOneMeans(on, a, s);
    }
    if AllSatisfied(on, cs) {
      var b :| b in s && b in on;
      forall i | i in s && i in on ensures i == b {
        if i != b {
          assert Clause({a, i, b}, {}) in cs;
          TripleMeans(on, a, i, b);
        }
      }
    }
    if ExactlyOne(on, s) {
      forall c | c in cs ensures Satisfies(on, c) {
        if o, i :| o in s && i in s && o != i && c == Clause({a, i, o}, {}) { TripleMeans(on, a, i, o); }
      }
    }
  }

  lemma AtLeastOneMeans(on: set<Id>, a: Id, s: set<Id>)
    requires a in on
    ensures Satisfies(on, Clause({a}, s)) <==> exists p :: p in s && p in on
  {
  }

  lemma PairsMean(on: set<Id>, a: Id, s: set<Id>, cs: set<Clause>)
    requires a in on && forall c :: c in cs <==> exists b :: b in s && c == Clause({a, b}, {})
    ensures AllSatisfied(on, cs) <==> forall b | b in s :: b !in on
  {
    forall b | b in s ensures Clause({a, b}, {}) in cs && (Satisfies(on, Clause({a, b}, {})) <==> b !in on) {
      PairMeans(on, a, b);
    }
    assert forall c | c in cs :: exists b :: b in s && c == Clause({a, b}, {});
  }

  /** The three kinds of clauses of an installed package say what it asks for. */
  lemma LocalMeans(w: World, on: set<Id>, a: Id, atLeast: nat)
    requires ClosedWorld(w) && a in w.db && a in on && atLeast <= 1
    ensures AllSatisfied(on, w.Local(a, atLeast)) <==> Installable(w, on, a)
  {
    hide Satisfies, ExactlyOne, AllSatisfied, IsSelector, World.RequireClauses, World.Local, World.Selected;
    var d, vs := w.db[a], w.Versions(a.name);
    assert a in vs && forall b :: b in vs <==> b in w.db && b.name == a.name;
    if |vs| <= 1 { OnlyMember(vs, a); }
    PairsMean(on, a, vs - {a}, w.VersionClauses(a, atLeast));
    forall r | r in d.reqs
      ensures AllSatisfied(on, w.RequireClauses(a, r)) <==>
        if '<' in r.version || '>' in r.version || '=' in r.version then
          exists b :: b in w.db && b in on && b.name == r.name && w.selects(r.version, b.version)
            && forall i | i in w.db && i in on && i.name == r.name && w.selects(r.version, i.version) :: i == b
        else r in w.db && r in on
    {
      ClosedSelects(w, a, r);
      RequireIs(w, on, r);
      if IsSelector(r) { SelectorRequireMeans(w, on, a, r); } else { ExactRequireMeans(w, on, a, r); }
    }
    forall r | r in d.confls
      ensures AllSatisfied(on, w.ConflictClauses(a, r)) <==>
        forall b | b in w.db && b in on ::
          if '<' in r.version || '>' in r.version || '=' in r.version then
            !(b.name == r.name && w.selects(r.version, b.version))
          else b != r
    {
      ClosedSelects(w, a, r);
      ConflictIs(w, on, r);
      PairsMean(on, a, w.Selected(r), w.ConflictClauses(a, r));
    }
    LocalParts(w, on, a, atLeast);
  }

  lemma LocalParts(w: World, on: set<Id>, a: Id, atLeast: nat)
    ensures AllSatisfied(on, w.Local(a, atLeast)) <==>
      && AllSatisfied(on, w.VersionClauses(a, atLeast))
      && (forall r | r in w.Def(a).reqs :: AllSatisfied(on, w.RequireClauses(a, r)))
      && (forall r | r in w.Def(a).confls :: AllSatisfied(on, w.ConflictClauses(a, r)))
  {
    hide Satisfies;
    var d := w.Def(a);
    forall r, c | r in d.reqs && c in w.RequireClauses(a, r) ensures c in w.Local(a, atLeast) {}
    forall r, c | r in d.confls && c in w.ConflictClauses(a, r) ensures c in w.Local(a, atLeast) {}
  }

  /** A package that is off has nothing to ask for. */
  lemma OffIsSatisfied(w: World, on: set<Id>, a: Id, atLeast: nat)
    requires a !in on
    ensures AllSatisfied(on, w.Local(a, atLeast))
  {
    LocalParts(w, on, a, atLeast);
    assert forall c | c in w.VersionClauses(a, atLeast) :: a in c.neg;
    forall r | r in w.Def(a).reqs ensures AllSatisfied(on, w.RequireClauses(a, r)) {
      assert forall c | c in w.RequireClauses(a, r) :: a in c.neg;
    }
    forall r | r in w.Def(a).confls ensures AllSatisfied(on, w.ConflictClauses(a, r)) {
      assert forall c | c in w.ConflictClauses(a, r) :: a in c.neg;
    }
  }

  /** Without provides, and with every requirement and conflict stored, the clauses of the world
      hold exactly for the sets of packages in which each one has its requires on, with one
      package only for a selector, and nothing it conflicts with or another version of itself. */
  lemma WorldMeansValidInstallation(w: World, on: set<Id>, atLeast: nat)
    requires ClosedWorld(w) && atLeast <= 1
    ensures (forall c | IsWorldClause(w, atLeast, c) :: Satisfies(on, c)) <==>
      forall a | a in w.db && a in on :: Installable(w, on, a)
  {
    hide Satisfies, Installable, ClosedWorld;
    ClosedReach(w);
    forall a | a in w.db
      ensures AllSatisfied(on, w.Local(a, atLeast)) <==> (a in on ==> Installable(w, on, a))
    {
      if a in on { LocalMeans(w, on, a, atLeast); } else { OffIsSatisfied(w, on, a, atLeast); }
    }
    forall a, c | a in w.db && c in w.Local(a, atLeast) ensures IsWorldClause(w, atLeast, c) {}
  }

  lemma ClosedReach(w: World)
    requires ClosedWorld(w)
    ensures w.Reach() == w.db.Keys
  {
    forall a, b | a in w.db && b in w.Next(a) ensures b in w.db {
      if r :| r in w.Def(a).confls && b in w.Targets(r) {
        ClosedSelects(w, a, r);
      }
      if b in w.Def(a).reqs { ClosedSelects(w, a, b); }
    }
  }

  // ----- the formula handed to the SAT solver -----

  /** Each wanted package, and with it every installed one. */
  method WantedFormulas(wanted: seq<Id>, installed: seq<Id>) returns (formulas: seq<Clause>)
    ensures forall c :: c in formulas <==>
      exists i :: (i in wanted || (wanted != [] && i in installed)) && c == Clause({}, {i})
  {
    formulas := [];
    for k := 0 to |wanted|
      invariant forall c :: c in formulas <==>
        exists i :: (i in wanted[..k] || (k > 0 && i in installed)) && c == Clause({}, {i})
    {
      ghost var f := formulas;
      assert wanted[..k + 1] == wanted[..k] + [wanted[k]];
      if |installed| == 0 {
        formulas := formulas + [Clause({}, {wanted[k]})];
        continue;
      }
      for j := 0 to |installed|
        invariant forall c :: c in formulas <==>
          c in f || (j > 0 && c == Clause({}, {wanted[k]})) || exists i :: i in installed[..j] && c == Clause({}, {i})
      {
        assert installed[..j + 1] == installed[..j] + [installed[j]];
        formulas := formulas + [Clause({}, {wanted[k]}), Clause({}, {installed[j]})];
      }
      assert installed[..|installed|] == installed;
    }
    assert wanted[..|wanted|] == wanted;
  }

  /** Every package of `on` is stored rightly beside the others. */
  ghost predicate ValidInstallation(w: World, on: set<Id>) {
    forall a | a in w.db && a in on :: Installable(w, on, a)
  }

  /** A valid installation with all wanted packages and, if anything is wanted, all installed ones. */
  ghost predicate Granted(w: World, on: set<Id>, wanted: seq<Id>, installed: seq<Id>) {
    && ValidInstallation(w, on)
    && (forall i | i in wanted :: i in on)
    && (wanted != [] ==> forall i | i in installed :: i in on)
  }

  ghost predicate Models(on: set<Id>, formulas: seq<Clause>) {
    forall c | c in formulas :: Satisfies(on, c)
  }

  lemma SolutionMeans(w: World, on: set<Id>, atLeast: nat, wanted: seq<Id>, installed: seq<Id>, formulas: seq<Clause>)
    requires ClosedWorld(w) && atLeast <= 1
    requires forall c :: c in formulas <==>
      (|| IsWorldClause(w, atLeast, c)
       || exists i :: (i in wanted || (wanted != [] && i in installed)) && c == Clause({}, {i}))
    ensures Models(on, formulas) <==> Granted(w, on, wanted, installed)
  {
    WorldMeansValidInstallation(w, on, atLeast);
    hide Installable, IsWorldClause;
    forall i | i in wanted || (wanted != [] && i in installed)
      ensures Clause({}, {i}) in formulas && (Satisfies(on, Clause({}, {i})) <==> i in on)
    {
    }
  }

  /** The models of the V2 formula are exactly the installations that grant what is wanted. */
  method BuildFormulaV2(w: World, order: seq<Id>, wanted: seq<Id>, installed: seq<Id>) returns (formulas: seq<Clause>)
    requires w.Valid() && Elements(order) == w.db.Keys
    ensures ClosedWorld(w) ==> forall on: set<Id> :: Models(on, formulas) <==> Granted(w, on, wanted, installed)
  {
    hide ClosedWorld, Granted, Models, IsWorldClause;
    var r := BuildWorldV2(w, order);
    formulas := WantedFormulas(wanted, installed);
    formulas := formulas + r;
    if ClosedWorld(w) {
      forall on: set<Id> ensures Models(on, formulas) <==> Granted(w, on, wanted, installed) {
        SolutionMeans(w, on, 1, wanted, installed, formulas);
      }
    }
  }

  /** The V1 formula has the same models. */
  method BuildFormulaV1(w: World, order: seq<Id>, wanted: seq<Id>, installed: seq<Id>) returns (formulas: seq<Clause>)
    requires w.Valid() && Elements(order) == w.db.Keys
    ensures ClosedWorld(w) ==> forall on: set<Id> :: Models(on, formulas) <==> Granted(w, on, wanted, installed)
  {
    hide ClosedWorld, Granted, Models, IsWorldClause;
    var r := BuildWorldV1(w, order);
    formulas := WantedFormulas(wanted, installed);
    formulas := formulas + r;
    if ClosedWorld(w) {
      forall on: set<Id> ensures Models(on, formulas) <==> Granted(w, on, wanted, installed) {
        SolutionMeans(w, on, 0, wanted, installed, formulas);
      }
    }
  }
}
