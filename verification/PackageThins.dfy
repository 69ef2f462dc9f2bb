/** The thin packages that the sorter works on (pkg/package/package_thin.go). They are
    shared heap objects: the cycle breaker rewrites their requires in place.
 */
module PackageThins {
  import opened Packages
  import opened Graphs

  /** The list `s` without the members of `drop`, in the same order. */
  function Without(s: seq<Name>, drop: set<Name>): (r: seq<Name>)
    ensures forall x :: x in r <==> x in s && x !in drop
  {
    if s == [] then []
    else if s[0] in drop then Without(s[1..], drop)
    else [s[0]] + Without(s[1..], drop)
  }

  lemma {:induction false} WithoutSnoc(s: seq<Name>, x: Name, drop: set<Name>)
    ensures Without(s + [x], drop) == Without(s, drop) + if x in drop then [] else [x]
  {
    if s == [] {
    } else {
      assert (s + [x])[1..] == s[1..] + [x];
      WithoutSnoc(s[1..], x, drop);
    }
  }

  lemma {:induction false} WithoutTwice(s: seq<Name>, a: set<Name>, b: set<Name>)
    ensures Without(Without(s, a), b) == Without(s, a + b)
  {
    if s == [] {
    } else {
      WithoutTwice(s[1..], a, b);
    }
  }

  lemma {:induction false} WithoutNothing(s: seq<Name>)
    ensures Without(s, {}) == s
  {
    if s == [] {
    } else {
      WithoutNothing(s[1..]);
    }
  }

  class PackageThin {
    const name: Name
    var reqs: seq<Name>

    constructor (name: Name, reqs: seq<Name>)
      ensures this.name == name && this.reqs == reqs
    {
      this.name := name;
      this.reqs := reqs;
    }

    predicate HasRequires()
      reads this
    {
      |reqs| > 0
    }

    predicate RequirePackage(m: PackageThin)
      reads this
    {
      m.name in reqs
    }

    /** Drop the requires that are on the stack, keep the others in order. */
    method BreakCyclesOnRequires(stack: seq<Name>)
      modifies this
      ensures reqs == Without(old(reqs), Elements(stack))
    {
      var newRequires: seq<Name> := [];
      for i := 0 to |reqs|
        invariant reqs == old(reqs)
        invariant newRequires == Without(reqs[..i], Elements(stack))
      {
        WithoutSnoc(reqs[..i], reqs[i], Elements(stack));
        assert reqs[..i + 1] == reqs[..i] + [reqs[i]];
        if reqs[i] !in stack {
          newRequires := newRequires + [reqs[i]];
        }
      }
      assert reqs[..|reqs|] == reqs;
      reqs := newRequires;
    }
  }

  type Queue = map<Name, PackageThin>

  /** Every package sits in the queue under its own name. */
  predicate Registered(queue: Queue) {
    forall n | n in queue :: queue[n].name == n
  }

  /** The current requires of the queued packages. */
  ghost function GraphOf(queue: Queue): Graph
    reads queue.Values
  {
    map n | n in queue :: queue[n].reqs
  }

  /** `to` is the list `from` after deleting some names of `within`. */
  ghost predicate Trimmed(from: seq<Name>, to: seq<Name>, within: set<Name>) {
    exists drop: set<Name> :: drop <= within && to == Without(from, drop)
  }

  /** Nothing but requires between nodes was deleted from `g` to reach `h`. */
  ghost predicate Trims(g: Graph, h: Graph) {
    h.Keys == g.Keys && forall n | n in g :: Trimmed(g[n], h[n], g.Keys)
  }

  lemma TrimmedRefl(s: seq<Name>, within: set<Name>)
    ensures Trimmed(s, s, within)
  {
    WithoutNothing(s);
  }

  lemma TrimmedTrans(a: seq<Name>, b: seq<Name>, c: seq<Name>, w1: set<Name>, w2: set<Name>)
    requires Trimmed(a, b, w1) && Trimmed(b, c, w2)
    ensures Trimmed(a, c, w1 + w2)
  {
    var d1: set<Name> :| d1 <= w1 && b == Without(a, d1);
    var d2: set<Name> :| d2 <= w2 && c == Without(b, d2);
    WithoutTwice(a, d1, d2);
    assert d1 + d2 <= w1 + w2;
  }

  lemma TrimsRefl(g: Graph)
    ensures Trims(g, g)
  {
    forall n | n in g ensures Trimmed(g[n], g[n], g.Keys) { TrimmedRefl(g[n], g.Keys); }
  }

  lemma TrimsTrans(a: Graph, b: Graph, c: Graph)
    requires Trims(a, b) && Trims(b, c)
    ensures Trims(a, c)
  {
    forall n | n in a ensures Trimmed(a[n], c[n], a.Keys) {
      TrimmedTrans(a[n], b[n], c[n], a.Keys, a.Keys);
      assert a.Keys + a.Keys == a.Keys;
    }
  }

  lemma TrimsIsSubgraph(g: Graph, h: Graph)
    requires Trims(g, h)
    ensures IsSubgraph(h, g)
  {
    forall n, r | n in h && r in h[n] ensures r in g[n] {
      assert Trimmed(g[n], h[n], g.Keys);
    }
  }
}
