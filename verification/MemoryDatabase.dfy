/** The in-memory package database with its version cache (pkg/package/database_mem.go), against
    the scan of the whole world that the Bolt database makes (pkg/package/database_boltdb.go).
    Packages have no provides here.
 */
module MemoryDatabase {
  import opened Packages

  datatype Stored = Stored(id: Id, content: string)

  /** Does a version satisfy a selector? Between a selector and a version this never fails. */
  type Matcher = (Version, Version) -> bool

  /** `database` by fingerprint, the cached versions of each name, and the fingerprints that ever
      went through the cache. */
  datatype Store = Store(database: map<Id, Stored>, cache: map<Name, map<Version, Stored>>, cached: set<Id>) {

    predicate InCache(i: Id) {
      i.name in cache && i.version in cache[i.name]
    }

    /** Every cached version is stored, and is known to the cache. */
    ghost predicate Valid() {
      && (forall i | i in database :: database[i].id == i)
      && (forall i | InCache(i) :: i in database && i in cached)
    }

    /** Stored packages that the cache does not know. */
    ghost function Lost(): set<Id> {
      set i | i in database && !InCache(i)
    }

    function Create(p: Stored): Store {
      var db := database[p.id := p];
      if p.id in cached then Store(db, cache, cached)
      else
        var versions := if p.id.name in cache then cache[p.id.name] else map[];
        Store(db, cache[p.id.name := versions[p.id.version := p]], cached + {p.id})
    }

    function Update(p: Stored): Store {
      Store(database[p.id := p], cache, cached)
    }

    function Remove(i: Id): Store {
      Store(database - {i}, if i.name in cache then cache[i.name := cache[i.name] - {i.version}] else cache, cached)
    }
  }

  const EMPTY := Store(map[], map[], {})

  datatype Op = Create(p: Stored) | Update(p: Stored) | Remove(i: Id)

  function Apply(s: Store, op: Op): Store {
    match op
    case Create(p) => s.Create(p)
    case Update(p) => s.Update(p)
    case Remove(i) => s.Remove(i)
  }

  function Run(s: Store, ops: seq<Op>): Store {
    if ops == [] then s else Apply(Run(s, ops[..|ops| - 1]), ops[|ops| - 1])
  }

  /** The operations that keep the cache complete: creating a package that is new to the database
      or is stored right now, and updating a stored one. Creating again what was removed is not
      among them. */
  predicate KeepsCache(s: Store, op: Op) {
    match op
    case Create(p) => p.id !in s.cached || p.id in s.database
    case Update(p) => p.id in s.database
    case Remove(_) => true
  }

  lemma ApplyKeepsValid(s: Store, op: Op)
    requires s.Valid()
    ensures Apply(s, op).Valid()
  {
    var t := Apply(s, op);
    match op
    case Create(p) => assert forall i :: t.InCache(i) <==> s.InCache(i) || (p.id !in s.cached && i == p.id);
    case Update(p) =>
    case Remove(r) => assert forall i :: t.InCache(i) <==> s.InCache(i) && i != r;
  }

  /** In every reachable store, whatever the operations were, the cached versions are all stored:
      looking one up cannot fail. */
  lemma {:induction false} RunIsValid(ops: seq<Op>)
    ensures Run(EMPTY, ops).Valid()
  {
    if ops != [] {
      RunIsValid(ops[..|ops| - 1]);
      ApplyKeepsValid(Run(EMPTY, ops[..|ops| - 1]), ops[|ops| - 1]);
    }
  }

  /** One operation on a store with a complete cache leaves it complete exactly if it is one of
      those that keep it. */
  lemma StaysComplete(s: Store, op: Op)
    requires s.Valid() && s.Lost() == {}
    ensures Apply(s, op).Lost() == {} <==> KeepsCache(s, op)
  {
    var t := Apply(s, op);
    assert forall i | i in s.database :: s.InCache(i) by {
      forall i | i in s.database ensures s.InCache(i) { assert i !in s.Lost(); }
    }
    match op
    case Create(p) =>
      assert forall i :: t.InCache(i) <==> s.InCache(i) || (p.id !in s.cached && i == p.id);
      assert p.id in t.Lost() <==> !t.InCache(p.id);
    case Update(p) =>
      assert forall i :: t.InCache(i) <==> s.InCache(i);
      assert p.id in t.Lost() <==> !t.InCache(p.id);
    case Remove(r) =>
      assert forall i :: t.InCache(i) <==> s.InCache(i) && i != r;
  }

  /** Every operation of the run keeps the cache complete. */
  predicate AllKeepCache(ops: seq<Op>) {
    ops == [] || (AllKeepCache(ops[..|ops| - 1]) && KeepsCache(Run(EMPTY, ops[..|ops| - 1]), ops[|ops| - 1]))
  }

  /** The cache is complete after every operation of the run. */
  ghost predicate AlwaysComplete(ops: seq<Op>) {
    Run(EMPTY, ops).Lost() == {} && (ops == [] || AlwaysComplete(ops[..|ops| - 1]))
  }

  /** The cache is complete all along a run exactly if every operation of it keeps the cache; in
      particular if no removed fingerprint is ever created again and only stored packages are
      updated. */
  lemma {:induction false} RunStaysComplete(ops: seq<Op>)
    ensures AlwaysComplete(ops) <==> AllKeepCache(ops)
  {
    if ops == [] {
      assert EMPTY.Lost() == {};
    } else {
      var pre, op := ops[..|ops| - 1], ops[|ops| - 1];
      RunStaysComplete(pre);
      RunIsValid(pre);
      if Run(EMPTY, pre).Lost() == {} { StaysComplete(Run(EMPTY, pre), op); }
    }
  }

  /** Installing a package again after its removal: it is stored, but no selector finds it. */
  lemma CreatedAgainIsLost(p: Stored)
    ensures Run(EMPTY, [Create(p), Remove(p.id), Create(p)]).Lost() == {p.id}
  {
    var ops := [Create(p), Remove(p.id), Create(p)];
    assert ops[..2] == [Create(p), Remove(p.id)] && ops[..2][..1] == [Create(p)] && ops[..2][..1][..0] == [];
    assert Run(EMPTY, ops[..2][..1]) == EMPTY.Create(p);
    assert Run(EMPTY, ops[..2]) == EMPTY.Create(p).Remove(p.id);
    assert Run(EMPTY, ops) == EMPTY.Create(p).Remove(p.id).Create(p);
  }

  // ----- what the cache holds after a run -----

  predicate Creates(op: Op, i: Id) {
    op.Create? && op.p.id == i
  }

  /** `i` was created, and not removed since it was created for the first time. */
  ghost predicate CreatedForGood(ops: seq<Op>, i: Id) {
    exists k: nat :: FirstCreated(ops, i, k) && forall j | k < j < |ops| :: ops[j] != Remove(i)
  }

  ghost predicate FirstCreated(ops: seq<Op>, i: Id, k: nat) {
    k < |ops| && Creates(ops[k], i) && forall j | 0 <= j < k :: !Creates(ops[j], i)
  }

  ghost predicate EverCreated(ops: seq<Op>, i: Id) {
    exists k | 0 <= k < |ops| :: Creates(ops[k], i)
  }

  lemma EverCreatedNext(ops: seq<Op>, op: Op, i: Id)
    ensures EverCreated(ops + [op], i) <==> EverCreated(ops, i) || Creates(op, i)
  {
    var all := ops + [op];
    assert all[|ops|] == op;
    if k :| 0 <= k < |ops| && Creates(ops[k], i) { assert all[k] == ops[k]; }
  }

  lemma CreatedForGoodNext(ops: seq<Op>, op: Op, i: Id)
    ensures CreatedForGood(ops + [op], i) <==>
      (CreatedForGood(ops, i) && op != Remove(i)) || (!EverCreated(ops, i) && Creates(op, i))
  {
    var all := ops + [op];
    assert all[|ops|] == op;
    forall k: nat | k < |ops| ensures FirstCreated(all, i, k) <==> FirstCreated(ops, i, k) {
      assert forall j | 0 <= j <= k :: all[j] == ops[j];
    }
    if !EverCreated(ops, i) && Creates(op, i) {
      assert FirstCreated(all, i, |ops|);
    }
    if k: nat :| FirstCreated(ops, i, k) && (forall j | k < j < |ops| :: ops[j] != Remove(i)) && op != Remove(i) {
      assert FirstCreated(all, i, k) && forall j | k < j < |ops| :: all[j] == ops[j];
    }
    if k: nat :| FirstCreated(all, i, k) && forall j | k < j < |all| :: all[j] != Remove(i) {
      assert forall j | 0 <= j < |ops| :: all[j] == ops[j];
      if k < |ops| {
        assert FirstCreated(ops, i, k) && all[|ops|] != Remove(i);
      } else {
        assert forall j | 0 <= j < |ops| :: !Creates(all[j], i);
      }
    }
  }

  /** The cache knows every fingerprint that was ever created, and holds those created for good. */
  lemma {:induction false} CacheHolds(ops: seq<Op>, i: Id)
    ensures i in Run(EMPTY, ops).cached <==> EverCreated(ops, i)
    ensures Run(EMPTY, ops).InCache(i) <==> CreatedForGood(ops, i)
  {
    if ops != [] {
      var pre, op := ops[..|ops| - 1], ops[|ops| - 1];
      CacheHolds(pre, i);
      EverCreatedNext(pre, op, i);
      CreatedForGoodNext(pre, op, i);
      assert ops == pre + [op];
      CacheAfter(Run(EMPTY, pre), op, i);
    }
  }

  lemma CacheAfter(s: Store, op: Op, i: Id)
    ensures i in Apply(s, op).cached <==> i in s.cached || Creates(op, i)
    ensures Apply(s, op).InCache(i) <==>
      (s.InCache(i) && op != Remove(i)) || (i !in s.cached && Creates(op, i))
  {
  }

  // ----- what is stored after a run -----

  predicate Writes(op: Op, i: Id) {
    (op.Create? || op.Update?) && op.p.id == i
  }

  /** The operation `k` wrote `i`, and none after it wrote or removed it. */
  ghost predicate LastWrite(ops: seq<Op>, i: Id, k: nat) {
    k < |ops| && Writes(ops[k], i) && forall j | k < j < |ops| :: !Writes(ops[j], i) && ops[j] != Remove(i)
  }

  /** `p` is what the last operation on its fingerprint wrote. */
  ghost predicate LastWritten(ops: seq<Op>, p: Stored) {
    exists k: nat :: LastWrite(ops, p.id, k) && ops[k].p == p
  }

  lemma LastWriteNext(ops: seq<Op>, op: Op, i: Id, k: nat)
    ensures LastWrite(ops + [op], i, k) <==>
      if Writes(op, i) then k == |ops| else LastWrite(ops, i, k) && op != Remove(i)
  {
    var all := ops + [op];
    assert all[|ops|] == op && forall j | 0 <= j < |ops| :: all[j] == ops[j];
    if LastWrite(all, i, k) && k < |ops| {
      assert !Writes(all[|ops|], i) && all[|ops|] != Remove(i);
    }
  }

  /** A package is stored exactly if some operation created or updated it and no later one removed it;
      and what is stored is what the last of these operations wrote. */
  lemma {:induction false} DatabaseHolds(ops: seq<Op>, i: Id)
    ensures i in Run(EMPTY, ops).database <==> exists k: nat :: LastWrite(ops, i, k)
    ensures forall k: nat | LastWrite(ops, i, k) ::
      i in Run(EMPTY, ops).database && Run(EMPTY, ops).database[i] == ops[k].p
  {
    if ops != [] {
      var pre, op := ops[..|ops| - 1], ops[|ops| - 1];
      DatabaseHolds(pre, i);
      assert ops == pre + [op];
      forall k: nat ensures LastWrite(ops, i, k) <==>
        if Writes(op, i) then k == |pre| else LastWrite(pre, i, k) && op != Remove(i)
      {
        LastWriteNext(pre, op, i, k);
      }
      assert Writes(op, i) ==> LastWrite(ops, i, |pre|);
      DatabaseAfter(Run(EMPTY, pre), op, i);
    }
  }

  lemma DatabaseAfter(s: Store, op: Op, i: Id)
    ensures Writes(op, i) ==> i in Apply(s, op).database && Apply(s, op).database[i] == op.p
    ensures !Writes(op, i) ==>
      && (i in Apply(s, op).database <==> i in s.database && op != Remove(i))
      && (i in Apply(s, op).database ==> Apply(s, op).database[i] == s.database[i])
  {
  }

  /** A name is known to the cache as soon as one of its versions was created. */
  lemma {:induction false} NameIsCached(ops: seq<Op>, name: Name)
    ensures name in Run(EMPTY, ops).cache <==> exists k | 0 <= k < |ops| :: ops[k].Create? && ops[k].p.id.name == name
  {
    if ops != [] {
      var pre, op := ops[..|ops| - 1], ops[|ops| - 1];
      NameIsCached(pre, name);
      assert forall k | 0 <= k < |pre| :: ops[k] == pre[k];
      CachedNames(pre);
      assert ops[|pre|] == op;
    }
  }

  lemma {:induction false} CachedNames(ops: seq<Op>)
    ensures forall i | i in Run(EMPTY, ops).cached :: i.name in Run(EMPTY, ops).cache
  {
    if ops != [] { CachedNames(ops[..|ops| - 1]); }
  }

  // ----- the queries -----

  /** The answer from the cache: the matching versions of the name, as they are stored. */
  function CacheAnswer(s: Store, matches: Matcher, name: Name, selector: Version): Result<set<Stored>> {
    if name !in s.cache then Err("No versions found")
    else
      Ok(set v | v in s.cache[name] && matches(selector, v) && Id(name, v) in s.database :: s.database[Id(name, v)])
  }

  /** The answer from a scan of the world. */
  function ScanAnswer(world: seq<Stored>, matches: Matcher, name: Name, selector: Version): set<Stored> {
    set p | p in world && p.id.name == name && matches(selector, p.id.version)
  }

  /** `world` lists what is stored. */
  ghost predicate Lists(world: seq<Stored>, database: map<Id, Stored>) {
    forall p :: p in world <==> p.id in database && database[p.id] == p
  }

  /** The scan of the Bolt database over all stored packages, in the order of the world. */
  method BoltFindPackages(world: seq<Stored>, matches: Matcher, name: Name, selector: Version)
    returns (found: seq<Stored>)
    ensures Elements(found) == ScanAnswer(world, matches, name, selector)
  {
    found := [];
    for k := 0 to |world|
      invariant forall p :: p in found <==> p in world[..k] && p.id.name == name && matches(selector, p.id.version)
    {
      var w := world[k];
      assert world[..k + 1] == world[..k] + [w];
      if w.id.name != name {
        continue;
      }
      if matches(selector, w.id.version) {
        found := found + [w];
      }
    }
    assert world[..|world|] == world;
  }

  class InMemoryDatabase {
    var Database: map<Id, Stored>
    var CacheNoVersion: map<Name, map<Version, Stored>>
    var cached: set<Id>

    constructor ()
      ensures State() == EMPTY
    {
      Database, CacheNoVersion, cached := map[], map[], {};
    }

    function State(): Store
      reads this
    {
      Store(Database, CacheNoVersion, cached)
    }

    method CreatePackage(p: Stored)
      modifies this
      ensures State() == old(State()).Create(p)
    {
      Database := Database[p.id := p];
      PopulateCaches(p);
    }

    method PopulateCaches(p: Stored)
      modifies this`CacheNoVersion, this`cached
      ensures p.id in old(cached) ==> CacheNoVersion == old(CacheNoVersion) && cached == old(cached)
      ensures p.id !in old(cached) ==>
        && cached == old(cached) + {p.id}
        && var versions := if p.id.name in old(CacheNoVersion) then old(CacheNoVersion)[p.id.name] else map[];
           CacheNoVersion == old(CacheNoVersion)[p.id.name := versions[p.id.version := p]]
    {
      if p.id in cached {
        return;
      }
      cached := cached + {p.id};
      if p.id.name !in CacheNoVersion {
        CacheNoVersion := CacheNoVersion[p.id.name := map[]];
      }
      CacheNoVersion := CacheNoVersion[p.id.name := CacheNoVersion[p.id.name][p.id.version := p]];
    }

    method UpdatePackage(p: Stored)
      modifies this
      ensures State() == old(State()).Update(p)
    {
      Database := Database[p.id := p];
    }

    method RemovePackage(i: Id)
      modifies this
      ensures State() == old(State()).Remove(i)
    {
      if i.name in CacheNoVersion {
        CacheNoVersion := CacheNoVersion[i.name := CacheNoVersion[i.name] - {i.version}];
      }
      Database := Database - {i};
    }

    /** FindPackages for a selector: the versions in the cache that match, each looked up in the
        database. On a valid store the look-up succeeds. */
    method FindPackages(matches: Matcher, name: Name, selector: Version) returns (res: Result<seq<Stored>>)
      requires State().Valid()
      ensures res.Err? <==> CacheAnswer(State(), matches, name, selector).Err?
      ensures res.Ok? ==> Elements(res.value) == CacheAnswer(State(), matches, name, selector).value
    {
      if name !in CacheNoVersion {
        return Err("No versions found");
      }
      var versions := CacheNoVersion[name];
      var todo := versions.Keys;
      var found: seq<Stored> := [];
      while todo != {}
        invariant todo <= versions.Keys
        invariant forall p :: p in found <==>
          exists v :: v in versions && v !in todo && matches(selector, v)
                      && Id(name, v) in Database && p == Database[Id(name, v)]
      {
        var ve :| ve in todo;
        todo := todo - {ve};
        if matches(selector, ve) {
          assert State().InCache(Id(name, ve));
          if Id(name, ve) !in Database {
            assert false; // "Cache mismatch - this shouldn't happen"
          } else {
            found := found + [Database[Id(name, ve)]];
          }
        }
      }
      return Ok(found);
    }
  }

  // ----- the answer after a run -----

  /** A selector query fails exactly if no version of the name was ever created; otherwise it finds the
      matching packages that were created for good, each as the last operation on it wrote it. */
  lemma AnswerHolds(ops: seq<Op>, matches: Matcher, name: Name, selector: Version)
    ensures CacheAnswer(Run(EMPTY, ops), matches, name, selector).Err? <==>
      forall k | 0 <= k < |ops| && ops[k].Create? :: ops[k].p.id.name != name
    ensures CacheAnswer(Run(EMPTY, ops), matches, name, selector).Ok? ==>
      forall p :: p in CacheAnswer(Run(EMPTY, ops), matches, name, selector).value <==>
        && p.id.name == name && matches(selector, p.id.version) && CreatedForGood(ops, p.id)
        && LastWritten(ops, p)
  {
    var s := Run(EMPTY, ops);
    NameIsCached(ops, name);
    RunIsValid(ops);
    hide Run, LastWritten, CreatedForGood;
    if CacheAnswer(s, matches, name, selector).Ok? {
      forall p: Stored ensures p in CacheAnswer(s, matches, name, selector).value <==>
        && p.id.name == name && matches(selector, p.id.version) && CreatedForGood(ops, p.id)
        && LastWritten(ops, p)
      {
        StoredForGood(ops, p);
        InAnswer(s, matches, name, selector, p);
      }
    }
  }

  lemma StoredForGood(ops: seq<Op>, p: Stored)
    ensures var s := Run(EMPTY, ops);
      s.InCache(p.id) && p.id in s.database && s.database[p.id] == p <==>
        CreatedForGood(ops, p.id) && LastWritten(ops, p)
  {
    CacheHolds(ops, p.id);
    DatabaseHolds(ops, p.id);
  }

  lemma InAnswer(s: Store, matches: Matcher, name: Name, selector: Version, p: Stored)
    requires s.Valid() && name in s.cache
    ensures p in CacheAnswer(s, matches, name, selector).value <==>
      && p.id.name == name && matches(selector, p.id.version) && s.InCache(p.id)
      && p.id in s.database && s.database[p.id] == p
  {
    if p.id.name == name && s.InCache(p.id) && p.id in s.database && s.database[p.id] == p {
      assert p.id == Id(name, p.id.version);
    }
  }

  // ----- both databases after the same run -----

  /** The members of an answer; an error counts as an empty one. */
  function Members(answer: Result<set<Stored>>): set<Stored> {
    if answer.Ok? then answer.value else {}
  }

  /** What the cache does not find: the matching packages it has lost. */
  lemma CacheMisses(s: Store, world: seq<Stored>, matches: Matcher, name: Name, selector: Version, p: Stored)
    requires s.Valid() && Lists(world, s.database)
    ensures p in Members(CacheAnswer(s, matches, name, selector)) <==>
      p in ScanAnswer(world, matches, name, selector) && p.id !in s.Lost()
  {
    if p in Members(CacheAnswer(s, matches, name, selector)) {
      var v :| v in s.cache[name] && matches(selector, v) && Id(name, v) in s.database && p == s.database[Id(name, v)];
      assert s.InCache(Id(name, v)) && p.id == Id(name, v);
    }
    if p in ScanAnswer(world, matches, name, selector) && p.id !in s.Lost() {
      assert s.InCache(p.id) && p.id == Id(name, p.id.version);
    }
  }

  /** Over every run that never creates a removed fingerprint again and updates only stored packages,
      the memory database answers every selector as the scan of the Bolt database does. */
  lemma CacheRefinesScan(ops: seq<Op>, world: seq<Stored>, matches: Matcher, name: Name, selector: Version)
    requires AllKeepCache(ops) && Lists(world, Run(EMPTY, ops).database)
    ensures Members(CacheAnswer(Run(EMPTY, ops), matches, name, selector)) == ScanAnswer(world, matches, name, selector)
  {
    var s := Run(EMPTY, ops);
    RunIsValid(ops);
    RunStaysComplete(ops);
    forall p ensures p in Members(CacheAnswer(s, matches, name, selector)) <==>
      p in ScanAnswer(world, matches, name, selector)
    {
      CacheMisses(s, world, matches, name, selector, p);
    }
  }

  ghost predicate AnswersAgree(s: Store, world: seq<Stored>, matches: Matcher) {
    forall name: Name, selector: Version ::
      Members(CacheAnswer(s, matches, name, selector)) == ScanAnswer(world, matches, name, selector)
  }

  /** After any run the two databases give the same answers to all selectors exactly if every stored
      fingerprint was created, and never removed since it was created first; given that every version
      satisfies some selector, as `>=` with itself does. */
  lemma AnswersAgreeIff(ops: seq<Op>, world: seq<Stored>, matches: Matcher, selectorFor: Version -> Version)
    requires Lists(world, Run(EMPTY, ops).database)
    requires forall v :: matches(selectorFor(v), v)
    ensures AnswersAgree(Run(EMPTY, ops), world, matches) <==>
      forall i | i in Run(EMPTY, ops).database :: CreatedForGood(ops, i)
  {
    var s := Run(EMPTY, ops);
    RunIsValid(ops);
    forall i: Id ensures s.InCache(i) <==> CreatedForGood(ops, i) { CacheHolds(ops, i); }
    forall name: Name, selector: Version, p
      ensures p in Members(CacheAnswer(s, matches, name, selector)) <==>
        p in ScanAnswer(world, matches, name, selector) && p.id !in s.Lost()
    {
      CacheMisses(s, world, matches, name, selector, p);
    }
    if i :| i in s.database && !CreatedForGood(ops, i) {
      var p, selector := s.database[i], selectorFor(i.version);
      assert p in world && p.id == i && i in s.Lost();
      assert p in ScanAnswer(world, matches, i.name, selector);
      assert p !in Members(CacheAnswer(s, matches, i.name, selector));
    }
  }
}
