/** What the cycle detector of the sorter deletes (pkg/v2/solver/solver.go, depCycleDetector). A
    package keeps its requires unless two different ways lead to it from somewhere, and nothing at
    all is deleted exactly if there is only one way from any package to any other that still
    requires something. The proofs follow the walk, once with the ways that led to the entries of
    its stack, once with the entries that a way leads to.
 */
module DetectorEffect {
  import opened CycleDetector
  import opened Graphs
  import opened PackageThins
  import opened Packages

  // ----- nothing deleted ever comes back -----

  lemma {:induction false} WithoutIsShorter(s: seq<Name>, drop: set<Name>)
    ensures |Without(s, drop)| <= |s|
    ensures |Without(s, drop)| == |s| ==> Without(s, drop) == s
  {
    if s != [] { WithoutIsShorter(s[1..], drop); }
  }

  lemma {:induction false} WithoutForeign(s: seq<Name>, drop: set<Name>)
    requires forall x | x in s :: x !in drop
    ensures Without(s, drop) == s
  {
    if s != [] {
      assert s[0] in s;
      WithoutForeign(s[1..], drop);
    }
  }

  lemma TrimsBack(g: Graph, h: Graph)
    requires Trims(g, h) && Trims(h, g)
    ensures g == h
  {
    forall n | n in g ensures g[n] == h[n] {
      assert Trimmed(g[n], h[n], g.Keys) && Trimmed(h[n], g[n], h.Keys);
      var d: set<Name> :| d <= g.Keys && h[n] == Without(g[n], d);
      var e: set<Name> :| e <= h.Keys && g[n] == Without(h[n], e);
      WithoutIsShorter(g[n], d);
      WithoutIsShorter(h[n], e);
    }
  }

  // ----- the condition -----

  /** Two walks with the same first and the same last package. */
  ghost predicate SameEnds(g: Graph, w: seq<Name>, w': seq<Name>) {
    && w != [] && w' != [] && IsWalk(g, w) && IsWalk(g, w')
    && w[0] == w'[0] && w[|w| - 1] == w'[|w'| - 1]
  }

  /** The last package of the walk still requires another one of the graph. */
  ghost predicate Onward(g: Graph, w: seq<Name>) {
    w != [] && w[|w| - 1] in g && Continues(g, w[|w| - 1])
  }

  /** From `root`, one way at most leads to `p`; if `p` requires nothing of the graph any number may. */
  ghost predicate OneWayTo(g: Graph, root: Name, p: Name) {
    forall w, w' | SameEnds(g, w, w') && w[0] == root && w[|w| - 1] == p && Onward(g, w) :: w == w'
  }

  ghost predicate OneWayFrom(g: Graph, root: Name) {
    forall w, w' | SameEnds(g, w, w') && w[0] == root && Onward(g, w) :: w == w'
  }

  ghost predicate ListedOnce(g: Graph) {
    forall n | n in g :: NoDuplicates(g[n])
  }

  // ----- one way only: the requires stay -----

  /** Each entry of the stack was pushed at the end of its own walk from `root`. */
  ghost predicate Led(g: Graph, root: Name, ws: seq<seq<Name>>, s: seq<Name>) {
    |ws| == |s| && forall i | 0 <= i < |s| :: LedTo(g, root, ws[i], s[i])
  }

  ghost predicate LedTo(g: Graph, root: Name, w: seq<Name>, p: Name) {
    w != [] && IsWalk(g, w) && w[0] == root && w[|w| - 1] == p
  }

  /** Of the walks recorded so far, those through the end of `way` went on to its first `i` requires. */
  ghost predicate WentOn(ws: seq<seq<Name>>, way: seq<Name>, rs: seq<Name>, i: nat)
    requires i <= |rs|
  {
    forall k | 0 <= k < |ws| && way <= ws[k] :: ws[k] == way || exists j :: 0 <= j < i && way + [rs[j]] <= ws[k]
  }

  ghost predicate NoneThrough(ws: seq<seq<Name>>, way: seq<Name>) {
    forall k | 0 <= k < |ws| :: !(way <= ws[k])
  }

  ghost predicate AllThrough(ws: seq<seq<Name>>, from: nat, way: seq<Name>) {
    forall k | from <= k < |ws| :: way <= ws[k]
  }

  /** A package met again that one way leads to requires nothing of the graph, so breaking its cycles
      changes nothing. */
  lemma MetAgain(g: Graph, h: Graph, s: seq<Name>, p: Name, root: Name, ws: seq<seq<Name>>, way: seq<Name>)
    requires p in g && p in s && Elements(s) <= g.Keys && IsSubgraph(h, g) && p in h && OneWayTo(g, root, p)
    requires Led(g, root, ws, s) && LedTo(g, root, way, p) && NoneThrough(ws, way)
    ensures Without(h[p], Elements(s)) == h[p]
  {
    var i :| 0 <= i < |s| && s[i] == p;
    assert LedTo(g, root, ws[i], p) && SameEnds(g, way, ws[i]);
    assert way <= way && way != ws[i];
    assert !Continues(g, p);
    WithoutForeign(h[p], Elements(s));
  }

  lemma PrefixEntry(way: seq<Name>, x: Name, w: seq<Name>)
    requires way + [x] <= w
    ensures way <= w && |w| > |way| && w[|way|] == x
  {
    assert way == (way + [x])[..|way|] == w[..|way|];
    assert w[|way|] == (way + [x])[|way|];
  }

  lemma NextIsNew(ws: seq<seq<Name>>, way: seq<Name>, rs: seq<Name>, i: nat)
    requires i < |rs| && NoDuplicates(rs) && WentOn(ws, way, rs, i)
    ensures NoneThrough(ws, way + [rs[i]])
  {
    forall k, j | 0 <= k < |ws| && 0 <= j <= i && way + [rs[j]] <= ws[k]
      ensures way <= ws[k] && |ws[k]| > |way| && ws[k][|way|] == rs[j]
    {
      PrefixEntry(way, rs[j], ws[k]);
    }
  }

  lemma WentOnNext(ws: seq<seq<Name>>, ws': seq<seq<Name>>, way: seq<Name>, rs: seq<Name>, i: nat)
    requires i < |rs| && WentOn(ws, way, rs, i) && ws <= ws' && AllThrough(ws', |ws|, way + [rs[i]])
    ensures WentOn(ws', way, rs, i + 1) && AllThrough(ws', |ws|, way)
  {
    forall k | |ws| <= k < |ws'| ensures way <= ws'[k] {
      PrefixEntry(way, rs[i], ws'[k]);
    }
    forall k | 0 <= k < |ws'| && way <= ws'[k]
      ensures ws'[k] == way || exists j :: 0 <= j < i + 1 && way + [rs[j]] <= ws'[k]
    {
      if k < |ws| { assert ws'[k] == ws[k]; }
    }
  }

  lemma WentOnSkip(ws: seq<seq<Name>>, way: seq<Name>, rs: seq<Name>, i: nat)
    requires i < |rs| && WentOn(ws, way, rs, i)
    ensures WentOn(ws, way, rs, i + 1)
  {
  }

  lemma AllThroughNone(ws: seq<seq<Name>>, way: seq<Name>)
    ensures AllThrough(ws, |ws|, way)
  {
  }

  lemma AllThroughJoins(a: seq<seq<Name>>, b: seq<seq<Name>>, c: seq<seq<Name>>, way: seq<Name>)
    requires a <= b <= c && AllThrough(b, |a|, way) && AllThrough(c, |b|, way)
    ensures AllThrough(c, |a|, way)
  {
    assert forall k | |a| <= k < |b| :: c[k] == b[k];
  }

  /** The list `rs` came from the requires of `p` by deletions. */
  ghost predicate OfRequires(g: Graph, p: Name, rs: seq<Name>) {
    p in g && NoDuplicates(rs) && forall r | r in rs :: r in g[p]
  }

  lemma NextWay(g: Graph, root: Name, ws: seq<seq<Name>>, way: seq<Name>, rs: seq<Name>, i: nat)
    requires way != [] && LedTo(g, root, way, way[|way| - 1]) && OfRequires(g, way[|way| - 1], rs)
    requires i < |rs| && rs[i] in g && WentOn(ws, way, rs, i)
    ensures LedTo(g, root, way + [rs[i]], rs[i]) && NoneThrough(ws, way + [rs[i]])
  {
    NextIsNew(ws, way, rs, i);
  }

  lemma {:induction false} WithoutOnce(s: seq<Name>, drop: set<Name>)
    requires NoDuplicates(s)
    ensures NoDuplicates(Without(s, drop))
  {
    if s != [] {
      WithoutOnce(s[1..], drop);
      assert s[0] !in s[1..];
    }
  }

  lemma TrimmedOfRequires(g: Graph, h: Graph, p: Name)
    requires Trims(g, h) && ListedOnce(g) && p in g
    ensures OfRequires(g, p, h[p])
  {
    assert Trimmed(g[p], h[p], g.Keys);
    var d: set<Name> :| d <= g.Keys && h[p] == Without(g[p], d);
    WithoutOnce(g[p], d);
  }

  /** The graph in which the loop of a walk for `q` starts. */
  lemma Entered(g: Graph, h: Graph, s: seq<Name>, q: Name) returns (h': Graph)
    requires q in g && Trims(g, h) && Elements(s) <= g.Keys
    ensures h' == if q in s then h[q := Without(h[q], Elements(s))] else h
    ensures Trims(g, h') && Walk(h, s, q) == WalkAll(h', s + [q], h'[q], 0)
    ensures q in s ==> Fresh(h'[q], 0, s + [q])
  {
    h' := if q in s then h[q := Without(h[q], Elements(s))] else h;
    if q in s {
      BreakingLeavesFresh(h[q], s, q);
      forall n | n in h ensures Trimmed(h[n], h'[n], h.Keys) {
        if n != q { TrimmedRefl(h[n], h.Keys); }
      }
      TrimsTrans(g, h, h');
    }
  }

  /** The walk of the detector in the current graph `h`, seen in the graph `g` from which it came: a
      package `p` to which one way leads keeps its requires. */
  lemma WalkKeeps(g: Graph, h: Graph, s: seq<Name>, q: Name, p: Name, root: Name, ws: seq<seq<Name>>, way: seq<Name>)
    returns (ws': seq<seq<Name>>)
    requires p in g && q in g && Trims(g, h) && Elements(s) <= g.Keys && ListedOnce(g) && OneWayTo(g, root, p)
    requires Led(g, root, ws, s) && LedTo(g, root, way, q) && NoneThrough(ws, way)
    ensures Walk(h, s, q).g[p] == h[p]
    ensures ws <= ws' && Led(g, root, ws', Walk(h, s, q).s) && AllThrough(ws', |ws|, way)
    decreases |Unvisited(g.Keys, s)|, if q in s then 1 else 0, 1, 0
  {
    hide Walk, WalkAll, Trims, OneWayTo, ListedOnce;
    UnvisitedShrinks(g.Keys, s, s + [q], q);
    var h' := Entered(g, h, s, q);
    if q == p && p in s {
      TrimsIsSubgraph(g, h);
      MetAgain(g, h, s, p, root, ws, way);
    }
    TrimmedOfRequires(g, h', q);
    ws' := WalkAllKeeps(g, h', s + [q], h'[q], 0, p, root, ws + [way], way);
    assert forall k | |ws| <= k < |ws'| :: way <= ws'[k] by {
      assert (ws + [way])[|ws|] == way;
    }
  }

  lemma WalkAllKeeps(g: Graph, h: Graph, s: seq<Name>, rs: seq<Name>, i: nat,
                     p: Name, root: Name, ws: seq<seq<Name>>, way: seq<Name>)
    returns (ws': seq<seq<Name>>)
    requires p in g && Trims(g, h) && i <= |rs| && Elements(s) <= g.Keys && ListedOnce(g) && OneWayTo(g, root, p)
    requires Led(g, root, ws, s) && way != [] && LedTo(g, root, way, way[|way| - 1])
    requires OfRequires(g, way[|way| - 1], rs) && WentOn(ws, way, rs, i)
    ensures WalkAll(h, s, rs, i).g[p] == h[p]
    ensures ws <= ws' && Led(g, root, ws', WalkAll(h, s, rs, i).s) && AllThrough(ws', |ws|, way)
    decreases |Unvisited(g.Keys, s)|, if Fresh(rs, i, s) then 1 else 2, 0, |rs| - i
  {
    assert h.Keys == g.Keys;
    hide Led, LedTo, WentOn, NoneThrough, AllThrough, ListedOnce, OneWayTo, OfRequires, Trims;
    if i == |rs| {
      ws' := ws;
      AllThroughNone(ws, way);
    } else if rs[i] !in g {
      WentOnSkip(ws, way, rs, i);
      ws' := WalkAllKeeps(g, h, s, rs, i + 1, p, root, ws, way);
    } else {
      var w := Walk(h, s, rs[i]);
      assert rs[i] == w.s[|s|];
      UnvisitedShrinks(g.Keys, s, w.s, rs[i]);
      WalkTrims(h, s, rs[i]);
      TrimsTrans(g, h, w.g);
      NextWay(g, root, ws, way, rs, i);
      var ws1 := WalkKeeps(g, h, s, rs[i], p, root, ws, way + [rs[i]]);
      WentOnNext(ws, ws1, way, rs, i);
      ws' := WalkAllKeeps(g, w.g, w.s, rs, i + 1, p, root, ws1, way);
      AllThroughJoins(ws, ws1, ws', way);
    }
  }

  // ----- the walk changes nothing: one way only -----

  /** Every entry that requires something has one of its requires on the stack or in `more`. */
  ghost predicate Pursued(g: Graph, s: seq<Name>, more: set<Name>) {
    forall u | u in s && u in g && Continues(g, u) && u !in more :: exists r :: r in g[u] && r in g && r in s
  }

  /** No entry pushed since `s0` that requires something was or will be on the stack twice. */
  ghost predicate PushedOnce(g: Graph, s0: seq<Name>, s: seq<Name>) {
    s0 <= s && forall i, j | 0 <= i < j < |s| && |s0| <= j && s[i] == s[j] :: s[j] in g ==> !Continues(g, s[j])
  }

  lemma PushedOnceJoins(g: Graph, a: seq<Name>, b: seq<Name>, c: seq<Name>)
    requires PushedOnce(g, a, b) && PushedOnce(g, b, c)
    ensures PushedOnce(g, a, c)
  {
    forall i, j | 0 <= i < j < |c| && |a| <= j && c[i] == c[j] ensures c[j] in g ==> !Continues(g, c[j]) {
      if j < |b| { assert b[i] == c[i] && b[j] == c[j]; }
    }
  }

  lemma PushedOnceWithin(g: Graph, a: seq<Name>, b: seq<Name>, c: seq<Name>, d: seq<Name>)
    requires PushedOnce(g, a, d) && a <= b <= c <= d
    ensures PushedOnce(g, b, c)
  {
    assert forall i | 0 <= i < |c| :: c[i] == d[i];
  }

  /** What an unchanged walk for `p` was given: the requires of `p` are as they were, and unless `p`
      requires nothing it was not on the stack. */
  lemma EnteredUnchanged(g: Graph, s: seq<Name>, p: Name)
    requires p in g && Elements(s) <= g.Keys && Walk(g, s, p).g == g
    ensures p in s ==> g[p := Without(g[p], Elements(s))] == g
    ensures Walk(g, s, p) == WalkAll(g, s + [p], g[p], 0)
    ensures p in s ==> forall r | r in g[p] :: r !in s
  {
    if p in s {
      var h := g[p := Without(g[p], Elements(s))];
      forall n | n in g ensures Trimmed(g[n], h[n], g.Keys) {
        if n != p { TrimmedRefl(g[n], g.Keys); }
      }
      assert Elements(s + [p]) <= h.Keys;
      UnvisitedShrinks(g.Keys, s, s + [p], p);
      BreakingLeavesFresh(g[p], s, p);
      WalkAllVisits(h, s + [p], h[p], 0, p);
      TrimsBack(g, h);
      assert forall r | r in s :: r in Elements(s);
    }
  }

  lemma SubwalkUnchanged(g: Graph, s: seq<Name>, rs: seq<Name>, i: nat, p: Name)
    requires i < |rs| && rs[i] in g && Elements(s) <= g.Keys && p in s && WalkAll(g, s, rs, i).g == g
    ensures var w := Walk(g, s, rs[i]);
      && w.g == g && Elements(w.s) <= g.Keys && s + [rs[i]] <= w.s
      && WalkAll(g, s, rs, i) == WalkAll(g, w.s, rs, i + 1)
  {
    var w := Walk(g, s, rs[i]);
    assert rs[i] == w.s[|s|];
    WalkTrims(g, s, rs[i]);
    assert p in w.s;
    WalkAllVisits(w.g, w.s, rs, i + 1, p);
    TrimsBack(g, w.g);
  }

  lemma WalkOnce(g: Graph, s: seq<Name>, p: Name)
    requires p in g && Elements(s) <= g.Keys && Walk(g, s, p).g == g
    requires forall u | u in s && u in g && Continues(g, u) :: exists r :: r in g[u] && r in g && (r in s || r == p)
    ensures PushedOnce(g, s, Walk(g, s, p).s) && Pursued(g, Walk(g, s, p).s, {})
    decreases |Unvisited(g.Keys, s)|, if p in s then 1 else 0, 1, 0
  {
    EnteredUnchanged(g, s, p);
    UnvisitedShrinks(g.Keys, s, s + [p], p);
    if p in s { BreakingLeavesFresh(g[p], s, p); }
    assert p in s ==> !Continues(g, p);
    WalkAllOnce(g, s + [p], g[p], 0, p);
    assert PushedOnce(g, s, s + [p]);
    PushedOnceJoins(g, s, s + [p], Walk(g, s, p).s);
  }

  lemma WalkAllOnce(g: Graph, s: seq<Name>, rs: seq<Name>, i: nat, p: Name)
    requires i <= |rs| && Elements(s) <= g.Keys && p in s && p in g && rs == g[p]
    requires WalkAll(g, s, rs, i).g == g && Pursued(g, s, {p})
    ensures PushedOnce(g, s, WalkAll(g, s, rs, i).s) && Pursued(g, WalkAll(g, s, rs, i).s, {p})
    ensures forall k | i <= k < |rs| && rs[k] in g :: rs[k] in WalkAll(g, s, rs, i).s
    decreases |Unvisited(g.Keys, s)|, if Fresh(rs, i, s) then 1 else 2, 0, |rs| - i
  {
    if i == |rs| {
    } else if rs[i] !in g {
      WalkAllOnce(g, s, rs, i + 1, p);
    } else {
      SubwalkUnchanged(g, s, rs, i, p);
      var t := Walk(g, s, rs[i]).s;
      assert rs[i] == t[|s|];
      UnvisitedShrinks(g.Keys, s, t, rs[i]);
      WalkOnce(g, s, rs[i]);
      WalkAllOnce(g, t, rs, i + 1, p);
      PushedOnceJoins(g, s, t, WalkAll(g, s, rs, i).s);
    }
  }

  /** The call for the k-th require, inside the loop from position `i` on. */
  lemma ChildCall(g: Graph, s: seq<Name>, rs: seq<Name>, i: nat, k: nat, p: Name) returns (t: seq<Name>)
    requires i <= k < |rs| && rs[k] in g && Elements(s) <= g.Keys && p in s && WalkAll(g, s, rs, i).g == g
    ensures s <= t && Elements(t) <= g.Keys && p in t && Walk(g, t, rs[k]).g == g
    ensures Walk(g, t, rs[k]).s <= WalkAll(g, s, rs, i).s
    decreases k - i
  {
    if i == k {
      SubwalkUnchanged(g, s, rs, i, p);
      t := s;
    } else if rs[i] !in g {
      t := ChildCall(g, s, rs, i + 1, k, p);
    } else {
      SubwalkUnchanged(g, s, rs, i, p);
      assert p in Walk(g, s, rs[i]).s;
      t := ChildCall(g, Walk(g, s, rs[i]).s, rs, i + 1, k, p);
    }
  }

  /** The calls for two requires: the second finds on the stack all that the first pushed. */
  lemma TwoCalls(g: Graph, s: seq<Name>, rs: seq<Name>, i: nat, j: nat, k: nat, p: Name)
    returns (t: seq<Name>, t': seq<Name>)
    requires i <= j < k < |rs| && rs[j] in g && rs[k] in g
    requires Elements(s) <= g.Keys && p in s && WalkAll(g, s, rs, i).g == g
    ensures s <= t && Elements(t) <= g.Keys && p in t && Walk(g, t, rs[j]).g == g
    ensures Walk(g, t, rs[j]).s <= t' && Elements(t') <= g.Keys && p in t' && Walk(g, t', rs[k]).g == g
    ensures Walk(g, t', rs[k]).s <= WalkAll(g, s, rs, i).s
    decreases j - i
  {
    if rs[i] in g {
      SubwalkUnchanged(g, s, rs, i, p);
      assert p in Walk(g, s, rs[i]).s;
    }
    if i == j {
      t := s;
      t' := ChildCall(g, Walk(g, s, rs[i]).s, rs, i + 1, k, p);
    } else if rs[i] !in g {
      t, t' := TwoCalls(g, s, rs, i + 1, j, k, p);
    } else {
      t, t' := TwoCalls(g, Walk(g, s, rs[i]).s, rs, i + 1, j, k, p);
    }
  }

  /** The walk of the detector follows every walk of the graph. */
  lemma {:induction false} EndIsPushed(g: Graph, s: seq<Name>, p: Name, w: seq<Name>) returns (i: nat)
    requires p in g && Elements(s) <= g.Keys && Walk(g, s, p).g == g
    requires w != [] && IsWalk(g, w) && w[0] == p
    ensures |s| <= i < |Walk(g, s, p).s| && Walk(g, s, p).s[i] == w[|w| - 1]
    ensures |w| > 1 ==> i > |s|
    decreases |w|
  {
    EnteredUnchanged(g, s, p);
    if |w| == 1 {
      i := |s|;
      assert (s + [p])[i] == p;
    } else {
      var k :| 0 <= k < |g[p]| && g[p][k] == w[0 + 1];
      var t := ChildCall(g, s + [p], g[p], 0, k, p);
      i := EndIsPushed(g, t, w[1], w[1..]);
    }
  }

  /** An unchanged walk cannot come to one of its entries in two ways. */
  lemma TwoPositions(g: Graph, s0: seq<Name>, s: seq<Name>, i: nat, j: nat)
    requires PushedOnce(g, s0, s) && |s0| <= i < |s| && |s0| <= j < |s|
    requires s[i] == s[j] && s[j] in g && Continues(g, s[j])
    ensures i == j
  {
  }

  lemma {:induction false} OneWayWithin(g: Graph, s: seq<Name>, p: Name, w: seq<Name>, w': seq<Name>)
    requires p in g && Elements(s) <= g.Keys && Walk(g, s, p).g == g && PushedOnce(g, s, Walk(g, s, p).s)
    requires SameEnds(g, w, w') && w[0] == p && Onward(g, w)
    ensures w == w'
    decreases |w|
  {
    var r, v := Walk(g, s, p).s, w[|w| - 1];
    EnteredUnchanged(g, s, p);
    if |w| == 1 || |w'| == 1 {
      var i := EndIsPushed(g, s, p, w);
      var i' := EndIsPushed(g, s, p, w');
      assert r[|s|] == (s + [p])[|s|] == p;
      TwoPositions(g, s, r, i, |s|);
      TwoPositions(g, s, r, i', |s|);
    } else {
      var k :| 0 <= k < |g[p]| && g[p][k] == w[0 + 1];
      var k' :| 0 <= k' < |g[p]| && g[p][k'] == w'[0 + 1];
      if w[1] == w'[1] {
        var t := ChildCall(g, s + [p], g[p], 0, k, p);
        PushedOnceWithin(g, s, t, Walk(g, t, w[1]).s, r);
        OneWayWithin(g, t, w[1], w[1..], w'[1..]);
        assert w == [p] + w[1..] && w' == [p] + w'[1..];
      } else {
        Apart(g, s, p, w, w', k, k');
      }
    }
  }

  /** Walks that part at once push their common end twice. */
  lemma Apart(g: Graph, s: seq<Name>, p: Name, w: seq<Name>, w': seq<Name>, k: nat, k': nat)
    requires p in g && Elements(s) <= g.Keys && Walk(g, s, p).g == g && PushedOnce(g, s, Walk(g, s, p).s)
    requires SameEnds(g, w, w') && w[0] == p && Onward(g, w) && |w| > 1 && |w'| > 1
    requires k < |g[p]| && g[p][k] == w[1] && k' < |g[p]| && g[p][k'] == w'[1]
    ensures w[1] == w'[1]
  {
    var r := Walk(g, s, p).s;
    EnteredUnchanged(g, s, p);
    if k < k' {
      var t, t' := TwoCalls(g, s + [p], g[p], 0, k, k', p);
      var i := EndIsPushed(g, t, w[1], w[1..]);
      var j := EndIsPushed(g, t', w'[1], w'[1..]);
      TwoPositions(g, s, r, i, j);
    } else if k' < k {
      var t, t' := TwoCalls(g, s + [p], g[p], 0, k', k, p);
      var i := EndIsPushed(g, t, w'[1], w'[1..]);
      var j := EndIsPushed(g, t', w[1], w[1..]);
      TwoPositions(g, s, r, i, j);
    }
  }

  // ----- the detector -----

  lemma UnchangedIsOneWay(g: Graph, s: seq<Name>, p: Name)
    requires p in g && s == [] && Walk(g, s, p).g == g
    ensures OneWayFrom(g, p)
  {
    hide Walk, PushedOnce, Pursued;
    WalkOnce(g, s, p);
    forall w, w' | SameEnds(g, w, w') && w[0] == p && Onward(g, w) ensures w == w' {
      OneWayWithin(g, s, p, w, w');
    }
  }

  lemma OneStep(g: Graph, p: Name)
    requires p in g
    ensures IsWalk(g, [p])
  {
  }

  /** One walk, in whatever the walks before it left of `g`. */
  lemma RootWalkKeeps(g: Graph, h: Graph, s: seq<Name>, root: Name, p: Name)
    requires p in g && root in g && s == [] && Trims(g, h) && ListedOnce(g) && OneWayTo(g, root, p)
    ensures Walk(h, s, root).g[p] == h[p]
  {
    hide Walk, OneWayTo, ListedOnce, AllThrough, IsWalk, Trims;
    assert IsWalk(g, [root]) by { OneStep(g, root); }
    assert LedTo(g, root, [root], root);
    var _ := WalkKeeps(g, h, s, root, p, root, [], [root]);
  }

  /** The walk from one package changes nothing exactly if there is one way only from it to anything
      that still requires something. */
  lemma WalkUnchanged(g: Graph, root: Name)
    requires root in g && ListedOnce(g)
    ensures Walk(g, [], root).g == g <==> OneWayFrom(g, root)
  {
    hide Walk, ListedOnce;
    if Walk(g, [], root).g == g {
      UnchangedIsOneWay(g, [], root);
    }
    if OneWayFrom(g, root) {
      TrimsRefl(g);
      forall p | p in g ensures Walk(g, [], root).g[p] == g[p] { RootWalkKeeps(g, g, [], root, p); }
    }
  }

  lemma {:induction false} DetectUnchanged(g: Graph, order: seq<Name>)
    requires Elements(order) <= g.Keys && ListedOnce(g)
    ensures Detect(g, order) == g <==> forall p | p in order :: OneWayFrom(g, p)
  {
    if order == [] {
    } else {
      var pre, p := order[..|order| - 1], order[|order| - 1];
      assert order == pre + [p] && Elements(pre) <= Elements(order);
      DetectUnchanged(g, pre);
      WalkUnchanged(g, p);
      DetectClears(g, pre);
      if Detect(g, order) == g {
        WalkTrims(Detect(g, pre), [], p);
        TrimsBack(g, Detect(g, pre));
      }
    }
  }

  /** For every graph and every order of the walks, the detector leaves all requires in place
      exactly if no two different walks from one package end at a package that requires another
      one: on diamonds with something below them it deletes, and on every graph with a cycle. */
  lemma DetectorLeavesAlone(g: Graph, order: seq<Name>)
    requires Elements(order) == g.Keys && ListedOnce(g)
    ensures Detect(g, order) == g <==>
      forall w, w' | SameEnds(g, w, w') && Onward(g, w) :: w == w'
  {
    DetectUnchanged(g, order);
    if forall w, w' | SameEnds(g, w, w') && Onward(g, w) :: w == w' {
      forall p | p in order ensures OneWayFrom(g, p) {
      }
    }
    if forall p | p in order :: OneWayFrom(g, p) {
      forall w, w' | SameEnds(g, w, w') && Onward(g, w) ensures w == w' {
        assert w[0] in Elements(order);
      }
    }
  }

  /** From everywhere, one way at most leads to `p`; if `p` requires nothing of the graph any number
      may. */
  ghost predicate OneWayIn(g: Graph, p: Name) {
    forall w, w' | SameEnds(g, w, w') && w[|w| - 1] == p && Onward(g, w) :: w == w'
  }

  /** Only packages to which two ways lead have lost requires. */
  ghost predicate SparesOneWayIn(g: Graph, h: Graph)
    requires h.Keys == g.Keys
  {
    forall p | p in g && OneWayIn(g, p) :: h[p] == g[p]
  }

  lemma {:induction false} DetectKeeps(g: Graph, order: seq<Name>, p: Name)
    requires Elements(order) <= g.Keys && ListedOnce(g) && p in g && OneWayIn(g, p)
    ensures Detect(g, order)[p] == g[p]
  {
    if order == [] {
    } else {
      hide ListedOnce;
      var pre, root := order[..|order| - 1], order[|order| - 1];
      assert order == pre + [root] && Elements(pre) <= Elements(order);
      DetectKeeps(g, pre, p);
      DetectClears(g, pre);
      RootWalkKeeps(g, Detect(g, pre), [], root, p);
    }
  }

  /** A package to which two different ways lead requires only what leads back to it. */
  ghost predicate ManyWaysOnCyclesOnly(g: Graph) {
    forall w, w', r | SameEnds(g, w, w') && w != w' && r in g[w[|w| - 1]] && r in g :: OnCycle(g, w[|w| - 1], r)
  }

  /** Only requires that lie on cycles were deleted. */
  ghost predicate CutsOnCyclesOnly(g: Graph, h: Graph)
    requires h.Keys == g.Keys
  {
    forall p, r | p in g && r in g[p] && r !in h[p] :: OnCycle(g, p, r)
  }

  /** When no require off the cycles can be lost. */
  lemma SparesOffCycles(g: Graph, h: Graph)
    requires Trims(g, h) && SparesOneWayIn(g, h) && ManyWaysOnCyclesOnly(g)
    ensures CutsOnCyclesOnly(g, h)
  {
    forall p, r | p in g && r in g[p] && r !in h[p] ensures OnCycle(g, p, r) {
      assert Trimmed(g[p], h[p], g.Keys) && r in g;
      assert !OneWayIn(g, p);
    }
  }

  /** Whatever cycles the graph has and whatever the order of the walks, a package keeps all its
      requires unless two different ways lead to it from one package; and if such packages require
      only what leads back to them, no require off the cycles is lost. */
  lemma DetectorSparesOneWayIn(g: Graph, order: seq<Name>)
    requires Elements(order) <= g.Keys && ListedOnce(g)
    ensures SparesOneWayIn(g, Detect(g, order))
    ensures ManyWaysOnCyclesOnly(g) ==> CutsOnCyclesOnly(g, Detect(g, order))
  {
    forall p | p in g && OneWayIn(g, p) ensures Detect(g, order)[p] == g[p] { DetectKeeps(g, order, p); }
    DetectClears(g, order);
    if ManyWaysOnCyclesOnly(g) { SparesOffCycles(g, Detect(g, order)); }
  }

  /** A walk of a part of the graph is a walk of the graph. */
  lemma OneWayInPart(g: Graph, part: Graph, p: Name)
    requires IsSubgraph(part, g) && OneWayIn(g, p)
    ensures OneWayIn(part, p)
  {
    forall w, w' | SameEnds(part, w, w') && w[|w| - 1] == p && Onward(part, w) ensures w == w' {
      assert SameEnds(g, w, w') && Onward(g, w);
    }
  }
}
