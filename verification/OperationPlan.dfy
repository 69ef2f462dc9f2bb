/** How OrderOperations splices the removals into the sorted plan
    (pkg/v2/solver/solver.go): the plan as a function, and what that order guarantees.
 */
module OperationPlan {
  import opened Admissions
  import opened Packages

  /** A package artefact, as far as the plan looks at it. */
  datatype Artifact = Artifact(name: Name, version: Version, reqs: seq<Name>)

  datatype Action = AddPackage | UpdatePackage | RemovePackage

  datatype Operation = Operation(action: Action, artifact: Artifact)

  /** Does the first package accept the second one beside it? */
  type AdmitFn = (Artifact, Artifact) -> Admission

  /** The installed packages that the plan removes, by name. */
  type Removals = map<Name, Artifact>

  predicate Replaced(removed: Removals, op: Operation) {
    op.artifact.name in removed
  }

  function Removal(removed: Removals, op: Operation): Operation
    requires Replaced(removed, op)
  {
    Operation(RemovePackage, removed[op.artifact.name])
  }

  predicate Refuses(admit: AdmitFn, x: Operation, p: Artifact) {
    admit(x.artifact, p) == Refused
  }

  /** The lowest position from `from` on whose package refuses `p`; the length if none does. */
  function FirstConflict(ans: seq<Operation>, from: nat, p: Artifact, admit: AdmitFn): (c: nat)
    ensures c <= |ans| && (c < |ans| ==> from <= c && Refuses(admit, ans[c], p))
    ensures forall k | from <= k < c :: !Refuses(admit, ans[k], p)
    decreases |ans| - from
  {
    if from >= |ans| || Refuses(admit, ans[from], p) then (if from > |ans| then |ans| else from)
    else FirstConflict(ans, from + 1, p, admit)
  }

  /** One more operation for the plan `ans`, whose first `rmOps` entries are pure removals. The
      scan for conflicts leaves out position `rmOps` itself. */
  function Step(ans: seq<Operation>, rmOps: nat, op: Operation, removed: Removals, admit: AdmitFn): seq<Operation> {
    if Replaced(removed, op) then
      var c := FirstConflict(ans, rmOps + 1, op.artifact, admit);
      ans[..c] + [Removal(removed, op)] + ans[c..] + [op]
    else
      ans + [op]
  }

  function Build(head: seq<Operation>, ops: seq<Operation>, removed: Removals, admit: AdmitFn): seq<Operation> {
    if ops == [] then head
    else
      var last := |ops| - 1;
      Step(Build(head, ops[..last], removed, admit), |head|, ops[last], removed, admit)
  }

  /** `x` stands somewhere before `y`. */
  ghost predicate Precedes(s: seq<Operation>, x: Operation, y: Operation) {
    exists i, j :: 0 <= i < j < |s| && s[i] == x && s[j] == y
  }

  /** The plan is built from named packages: removals are found by name, no package is handled
      twice, and the pure removals concern none of the packages to install or update. */
  ghost predicate ValidInput(head: seq<Operation>, ops: seq<Operation>, removed: Removals) {
    && (forall i, j :: 0 <= i < j < |ops| ==> ops[i].artifact.name != ops[j].artifact.name)
    && (forall op | op in ops :: op.action != RemovePackage)
    && (forall n | n in removed :: removed[n].name == n)
    && NoDuplicates(head)
    && (forall h | h in head :: h.action == RemovePackage)
    && (forall h, op | h in head && op in ops :: h.artifact.name != op.artifact.name)
  }

  lemma ValidPrefix(head: seq<Operation>, ops: seq<Operation>, removed: Removals, k: nat)
    requires ValidInput(head, ops, removed) && k <= |ops|
    ensures ValidInput(head, ops[..k], removed)
  {
  }

  // ----- one step -----

  lemma StepKeepsOrder(ans: seq<Operation>, rmOps: nat, op: Operation, removed: Removals, admit: AdmitFn,
                       x: Operation, y: Operation)
    requires Precedes(ans, x, y)
    ensures Precedes(Step(ans, rmOps, op, removed, admit), x, y)
  {
    var i, j :| 0 <= i < j < |ans| && ans[i] == x && ans[j] == y;
    var r := Step(ans, rmOps, op, removed, admit);
    if Replaced(removed, op) {
      var c := FirstConflict(ans, rmOps + 1, op.artifact, admit);
      var i', j' := if i < c then i else i + 1, if j < c then j else j + 1;
      assert r[i'] == x && r[j'] == y;
    } else {
      assert r[i] == x && r[j] == y;
    }
  }

  /** The removal splits the plan where the scan found the first conflict. */
  lemma StepSplits(ans: seq<Operation>, rmOps: nat, op: Operation, removed: Removals, admit: AdmitFn, k: nat)
    requires Replaced(removed, op) && k < |ans|
    ensures var r := Step(ans, rmOps, op, removed, admit);
      if forall i | rmOps < i <= k :: !Refuses(admit, ans[i], op.artifact)
      then Precedes(r, ans[k], Removal(removed, op)) else Precedes(r, Removal(removed, op), ans[k])
  {
    var r := Step(ans, rmOps, op, removed, admit);
    var c := FirstConflict(ans, rmOps + 1, op.artifact, admit);
    assert r[c] == Removal(removed, op);
    if k < c {
      assert r[k] == ans[k];
    } else {
      assert r[k + 1] == ans[k];
    }
  }

  lemma StepMembers(ans: seq<Operation>, rmOps: nat, op: Operation, removed: Removals, admit: AdmitFn, x: Operation)
    ensures x in Step(ans, rmOps, op, removed, admit) <==>
      x in ans || x == op || (Replaced(removed, op) && x == Removal(removed, op))
  {
    if Replaced(removed, op) {
      var c := FirstConflict(ans, rmOps + 1, op.artifact, admit);
      assert ans == ans[..c] + ans[c..];
    }
  }

  lemma StepCounts(ans: seq<Operation>, rmOps: nat, op: Operation, removed: Removals, admit: AdmitFn)
    ensures multiset(Step(ans, rmOps, op, removed, admit)) ==
      multiset(ans) + multiset{op} + if Replaced(removed, op) then multiset{Removal(removed, op)} else multiset{}
  {
    if Replaced(removed, op) {
      var c := FirstConflict(ans, rmOps + 1, op.artifact, admit);
      assert ans == ans[..c] + ans[c..];
    }
  }

  // ----- the whole plan -----

  /** The operations of a plan other than removals, in order. */
  function Forward(plan: seq<Operation>): seq<Operation> {
    if plan == [] then []
    else if plan[0].action == RemovePackage then Forward(plan[1..])
    else [plan[0]] + Forward(plan[1..])
  }

  lemma {:induction false} ForwardConcat(a: seq<Operation>, b: seq<Operation>)
    ensures Forward(a + b) == Forward(a) + Forward(b)
  {
    if a == [] {
      assert a + b == b;
    } else {
      assert (a + b)[1..] == a[1..] + b;
      ForwardConcat(a[1..], b);
    }
  }

  lemma PrecedesCons(a: Operation, t: seq<Operation>, x: Operation, y: Operation)
    ensures Precedes([a] + t, x, y) <==> (a == x && y in t) || Precedes(t, x, y)
  {
    var s := [a] + t;
    if a == x && y in t {
      var j :| 0 <= j < |t| && t[j] == y;
      assert s[0] == x && s[j + 1] == y;
    }
    if Precedes(t, x, y) {
      var i, j :| 0 <= i < j < |t| && t[i] == x && t[j] == y;
      assert s[i + 1] == x && s[j + 1] == y;
    }
    if Precedes(s, x, y) {
      var i, j :| 0 <= i < j < |s| && s[i] == x && s[j] == y;
      assert t[j - 1] == y && (i > 0 ==> t[i - 1] == x);
    }
  }

  /** Leaving out the removals does not change the order of the others. */
  lemma {:induction false} ForwardOrder(s: seq<Operation>, x: Operation, y: Operation)
    requires x.action != RemovePackage && y.action != RemovePackage
    ensures x in Forward(s) <==> x in s
    ensures y in Forward(s) <==> y in s
    ensures Precedes(Forward(s), x, y) <==> Precedes(s, x, y)
  {
    if s != [] {
      ForwardOrder(s[1..], x, y);
      assert s == [s[0]] + s[1..];
      PrecedesCons(s[0], s[1..], x, y);
      PrecedesCons(s[0], Forward(s[1..]), x, y);
    }
  }

  /** The removals of the replaced packages, in the order of `ops`. */
  function ReplacedRemovals(ops: seq<Operation>, removed: Removals): seq<Operation> {
    if ops == [] then []
    else
      var last := |ops| - 1;
      ReplacedRemovals(ops[..last], removed) +
      if Replaced(removed, ops[last]) then [Removal(removed, ops[last])] else []
  }

  /** Conservation: the plan consists of the pure removals, each operation once, and one removal
      for each replaced package. */
  lemma {:induction false} PlanConserves(head: seq<Operation>, ops: seq<Operation>, removed: Removals, admit: AdmitFn)
    ensures multiset(Build(head, ops, removed, admit)) ==
      multiset(head) + multiset(ops) + multiset(ReplacedRemovals(ops, removed))
  {
    if ops != [] {
      var last := |ops| - 1;
      PlanConserves(head, ops[..last], removed, admit);
      StepCounts(Build(head, ops[..last], removed, admit), |head|, ops[last], removed, admit);
      assert ops == ops[..last] + [ops[last]];
    }
  }

  lemma StepForward(ans: seq<Operation>, rmOps: nat, op: Operation, removed: Removals, admit: AdmitFn)
    requires op.action != RemovePackage
    ensures Forward(Step(ans, rmOps, op, removed, admit)) == Forward(ans) + [op]
  {
    assert Forward([op]) == [op];
    if Replaced(removed, op) {
      var c := FirstConflict(ans, rmOps + 1, op.artifact, admit);
      var a, b, d := ans[..c], ans[c..], [Removal(removed, op)];
      assert Forward(d) == [];
      ForwardConcat(a + d + b, [op]);
      ForwardConcat(a + d, b);
      ForwardConcat(a, d);
      ForwardConcat(a, b);
      assert ans == a + b;
    } else {
      ForwardConcat(ans, [op]);
    }
  }

  /** The installs and updates keep the order of the sort. */
  lemma {:induction false} PlanKeepsSortedOrder(head: seq<Operation>, ops: seq<Operation>, removed: Removals,
                                                admit: AdmitFn)
    requires ValidInput(head, ops, removed)
    ensures Forward(Build(head, ops, removed, admit)) == ops
  {
    if ops == [] {
      ForwardOfRemovals(head);
    } else {
      var last := |ops| - 1;
      ValidPrefix(head, ops, removed, last);
      PlanKeepsSortedOrder(head, ops[..last], removed, admit);
      StepForward(Build(head, ops[..last], removed, admit), |head|, ops[last], removed, admit);
      assert ops == ops[..last] + [ops[last]];
    }
  }

  lemma {:induction false} ForwardOfRemovals(head: seq<Operation>)
    requires forall h | h in head :: h.action == RemovePackage
    ensures Forward(head) == []
  {
    if head != [] { ForwardOfRemovals(head[1..]); }
  }

  /** The pure removals stay in front, and so does whatever came first after them. */
  lemma {:induction false} PlanKeepsFront(head: seq<Operation>, ops: seq<Operation>, removed: Removals, admit: AdmitFn)
    ensures head <= Build(head, ops, removed, admit)
    ensures ops != [] ==>
      && |head| < |Build(head, ops, removed, admit)|
      && Build(head, ops, removed, admit)[|head|] ==
           if Replaced(removed, ops[0]) then Removal(removed, ops[0]) else ops[0]
  {
    if |ops| > 1 {
      PlanKeepsFront(head, ops[..|ops| - 1], removed, admit);
    }
  }

  lemma {:induction false} PlanMembers(head: seq<Operation>, ops: seq<Operation>, removed: Removals, admit: AdmitFn,
                                       x: Operation)
    ensures x in Build(head, ops, removed, admit) <==>
      x in head || x in ops || exists op :: op in ops && Replaced(removed, op) && x == Removal(removed, op)
  {
    if ops != [] {
      var last := |ops| - 1;
      PlanMembers(head, ops[..last], removed, admit, x);
      StepMembers(Build(head, ops[..last], removed, admit), |head|, ops[last], removed, admit, x);
      assert forall op :: op in ops <==> op in ops[..last] || op == ops[last];
    }
  }

  /** No operation appears twice in a plan. */
  lemma {:induction false} PlanHasNoDuplicates(head: seq<Operation>, ops: seq<Operation>, removed: Removals,
                                               admit: AdmitFn)
    requires ValidInput(head, ops, removed)
    ensures NoDuplicates(Build(head, ops, removed, admit))
  {
    if ops != [] {
      var last := |ops| - 1;
      var ans, op := Build(head, ops[..last], removed, admit), ops[last];
      ValidPrefix(head, ops, removed, last);
      PlanHasNoDuplicates(head, ops[..last], removed, admit);
      PlanMembers(head, ops[..last], removed, admit, op);
      if Replaced(removed, op) {
        PlanMembers(head, ops[..last], removed, admit, Removal(removed, op));
      }
    }
  }

  lemma OneOrderOnly(s: seq<Operation>, x: Operation, y: Operation)
    requires NoDuplicates(s) && Precedes(s, x, y)
    ensures !Precedes(s, y, x)
  {
  }

  /** What an early part of the plan put in order stays in order. */
  lemma {:induction false} OrderPersists(head: seq<Operation>, ops: seq<Operation>, removed: Removals, admit: AdmitFn,
                                         k: nat, x: Operation, y: Operation)
    requires k <= |ops| && Precedes(Build(head, ops[..k], removed, admit), x, y)
    ensures Precedes(Build(head, ops, removed, admit), x, y)
  {
    if k == |ops| {
      assert ops[..k] == ops;
    } else {
      var last := |ops| - 1;
      assert ops[..last][..k] == ops[..k];
      OrderPersists(head, ops[..last], removed, admit, k, x, y);
      StepKeepsOrder(Build(head, ops[..last], removed, admit), |head|, ops[last], removed, admit, x, y);
    }
  }

  /** A replaced package is removed before it is installed again. */
  lemma RemovedBeforeReplaced(head: seq<Operation>, ops: seq<Operation>, removed: Removals, admit: AdmitFn, j: nat)
    requires j < |ops| && Replaced(removed, ops[j])
    ensures Precedes(Build(head, ops, removed, admit), Removal(removed, ops[j]), ops[j])
  {
    var ans := Build(head, ops[..j], removed, admit);
    assert ops[..j + 1][..j] == ops[..j];
    var r := Step(ans, |head|, ops[j], removed, admit);
    var c := FirstConflict(ans, |head| + 1, ops[j].artifact, admit);
    assert r[c] == Removal(removed, ops[j]) && r[|r| - 1] == ops[j];
    OrderPersists(head, ops, removed, admit, j + 1, Removal(removed, ops[j]), ops[j]);
  }

  /** Where the old version of a replaced package p is removed, seen from everything planned earlier: it
      comes after the entry at position `k` exactly if neither that one nor any before it refuses p,
      apart from the pure removals and the first entry after them, which are not asked. */
  lemma RemovalPosition(head: seq<Operation>, ops: seq<Operation>, removed: Removals, admit: AdmitFn, j: nat, k: nat)
    requires ValidInput(head, ops, removed) && j < |ops| && Replaced(removed, ops[j])
    requires k < |Build(head, ops[..j], removed, admit)|
    ensures var ans, plan := Build(head, ops[..j], removed, admit), Build(head, ops, removed, admit);
      var d := Removal(removed, ops[j]);
      if forall i | |head| < i <= k :: !Refuses(admit, ans[i], ops[j].artifact)
      then Precedes(plan, ans[k], d) && !Precedes(plan, d, ans[k])
      else Precedes(plan, d, ans[k]) && !Precedes(plan, ans[k], d)
  {
    var ans, plan := Build(head, ops[..j], removed, admit), Build(head, ops, removed, admit);
    var d := Removal(removed, ops[j]);
    assert ops[..j + 1][..j] == ops[..j];
    PlanHasNoDuplicates(head, ops, removed, admit);
    StepSplits(ans, |head|, ops[j], removed, admit, k);
    if forall i | |head| < i <= k :: !Refuses(admit, ans[i], ops[j].artifact) {
      OrderPersists(head, ops, removed, admit, j + 1, ans[k], d);
      OneOrderOnly(plan, ans[k], d);
    } else {
      OrderPersists(head, ops, removed, admit, j + 1, d, ans[k]);
      OneOrderOnly(plan, d, ans[k]);
    }
  }

  /** The order the splice is for: the old version of a replaced package p is removed before any
      operation planned earlier whose package refuses p. It holds for every such operation `x`
      except the very first one after the pure removals, and for that one it always fails. */
  lemma RemovalBeforeConflicts(head: seq<Operation>, ops: seq<Operation>, removed: Removals, admit: AdmitFn, j: nat,
                               x: Operation)
    requires ValidInput(head, ops, removed) && j < |ops| && Replaced(removed, ops[j])
    requires x in Build(head, ops[..j], removed, admit) && x !in head
    requires Refuses(admit, x, ops[j].artifact)
    ensures |head| < |Build(head, ops, removed, admit)|
    ensures Precedes(Build(head, ops, removed, admit), Removal(removed, ops[j]), x) <==>
      x != Build(head, ops, removed, admit)[|head|]
  {
    var ans, plan := Build(head, ops[..j], removed, admit), Build(head, ops, removed, admit);
    PlanKeepsFront(head, ops, removed, admit);
    PlanKeepsFront(head, ops[..j], removed, admit);
    ValidPrefix(head, ops, removed, j);
    PlanHasNoDuplicates(head, ops[..j], removed, admit);
    var k :| 0 <= k < |ans| && ans[k] == x;
    assert forall i | 0 <= i < |head| :: ans[i] == head[i] && ans[i] in head;
    assert k >= |head| && plan[|head|] == ans[|head|] && (x == ans[|head|] <==> k == |head|);
    RemovalPosition(head, ops, removed, admit, j, k);
    hide Build, ValidInput, Refuses, Precedes;
    assert k > |head| ==> Refuses(admit, ans[k], ops[j].artifact);
  }

  /** The operation the scan overlooks: installing a comes first, a refuses the new b, and still
      the old b is removed only after a is in place. */
  lemma FirstConflictIsMissed(admit: AdmitFn, a: Artifact, b: Artifact, oldB: Artifact)
    requires a.name != b.name && oldB.name == b.name
    requires admit(a, b) == Refused
    ensures Build([], [Operation(AddPackage, a), Operation(UpdatePackage, b)], map[b.name := oldB], admit) ==
      [Operation(AddPackage, a), Operation(RemovePackage, oldB), Operation(UpdatePackage, b)]
  {
    var ops := [Operation(AddPackage, a), Operation(UpdatePackage, b)];
    var removed := map[b.name := oldB];
    assert ops[..1] == [Operation(AddPackage, a)] && ops[..1][..0] == [];
    assert Build([], ops[..1], removed, admit) == ops[..1];
    assert FirstConflict(ops[..1], 1, b, admit) == 1;
  }
}
