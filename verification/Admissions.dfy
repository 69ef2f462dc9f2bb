/** When one package accepts another beside it (pkg/package/package.go, Admit). What a version
    selector accepts is the business of the Gentoo version library and stays abstract.
 */
module Admissions {
  import opened Packages

  /** A package definition; the entries of its lists are read as selectors. */
  datatype Pkg = Pkg(name: Name, version: Version, reqs: seq<Pkg>, conflicts: seq<Pkg>, provs: seq<Pkg>)

  /** What `Admit` answers; only `Admitted` comes with the value true. */
  datatype Admission = Admitted | Refused | AdmitError(message: string)

  /** The version library: parsing a package, and whether a selector accepts a version. */
  datatype Gentoo = Gentoo(parse: Pkg -> Result<()>, accepts: (Pkg, Pkg) -> Result<bool>)

  /** Both can be parsed, and the library answers `b` to whether the selector `c` accepts `t`. */
  ghost predicate Says(gentoo: Gentoo, c: Pkg, t: Pkg, b: bool) {
    gentoo.parse(c).Ok? && gentoo.parse(t).Ok? && gentoo.accepts(c, t) == Ok(b)
  }

  /** The library answers as it is wanted for `a` itself, if the selector names it, or else for everything
      that `a` provides under the name of the selector. */
  ghost predicate HoldsFor(gentoo: Gentoo, c: Pkg, a: Pkg, wanted: bool) {
    if c.name == a.name then Says(gentoo, c, a, wanted) else HoldsForFirst(gentoo, c, a, wanted, |a.provs|)
  }

  /** The same for the first `k` provides of `a`. */
  ghost predicate HoldsForFirst(gentoo: Gentoo, c: Pkg, a: Pkg, wanted: bool, k: nat)
    requires k <= |a.provs|
  {
    forall j | 0 <= j < k && a.provs[j].name == c.name :: Says(gentoo, c, a.provs[j], wanted)
  }

  /** The first answer that is not as it is wanted is the opposite, not an error. */
  ghost predicate FailsFor(gentoo: Gentoo, c: Pkg, a: Pkg, wanted: bool) {
    if c.name == a.name then Says(gentoo, c, a, !wanted)
    else exists k: nat :: k < |a.provs| && a.provs[k].name == c.name && Says(gentoo, c, a.provs[k], !wanted)
                          && HoldsForFirst(gentoo, c, a, wanted, k)
  }

  /** The first selector that does not hold fails without an error. */
  ghost predicate OneFails(gentoo: Gentoo, selectors: seq<Pkg>, a: Pkg, wanted: bool) {
    exists i :: 0 <= i < |selectors| && FailsFor(gentoo, selectors[i], a, wanted)
                && forall j | 0 <= j < i :: HoldsFor(gentoo, selectors[j], a, wanted)
  }

  ghost predicate AllHold(gentoo: Gentoo, selectors: seq<Pkg>, a: Pkg, wanted: bool) {
    forall c | c in selectors :: HoldsFor(gentoo, c, a, wanted)
  }

  lemma NotBoth(gentoo: Gentoo, c: Pkg, a: Pkg, wanted: bool)
    requires FailsFor(gentoo, c, a, wanted)
    ensures !HoldsFor(gentoo, c, a, wanted)
  {
  }

  method CheckOne(gentoo: Gentoo, c: Pkg, t: Pkg, wanted: bool) returns (v: Admission)
    ensures v == Admitted <==> Says(gentoo, c, t, wanted)
    ensures v == Refused <==> Says(gentoo, c, t, !wanted)
  {
    var selector := gentoo.parse(c);
    if selector.Err? {
      return AdmitError(selector.message);
    }
    var target := gentoo.parse(t);
    if target.Err? {
      return AdmitError(target.message);
    }
    var admitted := gentoo.accepts(c, t);
    if admitted.Err? {
      return AdmitError(admitted.message);
    }
    return if admitted.value == wanted then Admitted else Refused;
  }

  /** The selector `c` against what `a` provides. */
  method CheckProvides(gentoo: Gentoo, c: Pkg, a: Pkg, wanted: bool) returns (v: Admission)
    requires c.name != a.name
    ensures v == Admitted <==> HoldsFor(gentoo, c, a, wanted)
    ensures v == Refused <==> FailsFor(gentoo, c, a, wanted)
  {
    for i := 0 to |a.provs|
      invariant HoldsForFirst(gentoo, c, a, wanted, i)
    {
      hide Says;
      if c.name == a.provs[i].name {
        v := CheckOne(gentoo, c, a.provs[i], wanted);
        if v != Admitted {
          OnlyFirstFailure(gentoo, c, a, wanted, i);
          return;
        }
      }
    }
    NeverFails(gentoo, c, a, wanted);
    return Admitted;
  }

  /** Which provide fails first is determined. */
  lemma OnlyFirstFailure(gentoo: Gentoo, c: Pkg, a: Pkg, wanted: bool, k: nat)
    requires c.name != a.name && k < |a.provs| && a.provs[k].name == c.name
    requires HoldsForFirst(gentoo, c, a, wanted, k) && !Says(gentoo, c, a.provs[k], wanted)
    ensures !HoldsFor(gentoo, c, a, wanted)
    ensures FailsFor(gentoo, c, a, wanted) <==> Says(gentoo, c, a.provs[k], !wanted)
  {
    forall m: nat | m < |a.provs| && a.provs[m].name == c.name && Says(gentoo, c, a.provs[m], !wanted)
      && HoldsForFirst(gentoo, c, a, wanted, m) ensures m == k
    {
    }
  }

  lemma NeverFails(gentoo: Gentoo, c: Pkg, a: Pkg, wanted: bool)
    requires HoldsFor(gentoo, c, a, wanted)
    ensures !FailsFor(gentoo, c, a, wanted)
  {
  }

  method CheckList(gentoo: Gentoo, selectors: seq<Pkg>, a: Pkg, wanted: bool) returns (v: Admission)
    ensures v == Admitted <==> AllHold(gentoo, selectors, a, wanted)
    ensures v == Refused <==> OneFails(gentoo, selectors, a, wanted)
  {
    for i := 0 to |selectors|
      invariant forall j | 0 <= j < i :: HoldsFor(gentoo, selectors[j], a, wanted)
    {
      hide Says, HoldsForFirst;
      var c := selectors[i];
      if c.name == a.name {
        v := CheckOne(gentoo, c, a, wanted);
      } else {
        v := CheckProvides(gentoo, c, a, wanted);
      }
      if v != Admitted {
        OnlyFirstSelector(gentoo, selectors, a, wanted, i);
        return;
      }
    }
    NoSelectorFails(gentoo, selectors, a, wanted);
    return Admitted;
  }

  lemma OnlyFirstSelector(gentoo: Gentoo, selectors: seq<Pkg>, a: Pkg, wanted: bool, i: nat)
    requires i < |selectors| && !HoldsFor(gentoo, selectors[i], a, wanted)
    requires forall j | 0 <= j < i :: HoldsFor(gentoo, selectors[j], a, wanted)
    ensures !AllHold(gentoo, selectors, a, wanted)
    ensures OneFails(gentoo, selectors, a, wanted) <==> FailsFor(gentoo, selectors[i], a, wanted)
  {
    hide HoldsFor, FailsFor;
    forall m | 0 <= m < |selectors| && FailsFor(gentoo, selectors[m], a, wanted)
      && forall j | 0 <= j < m :: HoldsFor(gentoo, selectors[j], a, wanted) ensures m == i
    {
      if m < i { NotBoth(gentoo, selectors[m], a, wanted); }
    }
    assert selectors[i] in selectors;
  }

  lemma NoSelectorFails(gentoo: Gentoo, selectors: seq<Pkg>, a: Pkg, wanted: bool)
    requires forall j | 0 <= j < |selectors| :: HoldsFor(gentoo, selectors[j], a, wanted)
    ensures AllHold(gentoo, selectors, a, wanted) && !OneFails(gentoo, selectors, a, wanted)
  {
    forall m | 0 <= m < |selectors| ensures !FailsFor(gentoo, selectors[m], a, wanted) {
      NeverFails(gentoo, selectors[m], a, wanted);
    }
  }

  /** Does `p` accept `a` beside it? The requires are looked at first, and then the conflicts; the first
      that does not come out as it should decides, with an error if the library could not answer. */
  method Admit(gentoo: Gentoo, p: Pkg, a: Pkg) returns (v: Admission)
    ensures p.reqs == [] && p.conflicts == [] ==> v == Admitted
    ensures p.reqs != [] || p.conflicts != [] ==>
      && (v == Admitted <==>
           gentoo.parse(a).Ok? && AllHold(gentoo, p.reqs, a, true) && AllHold(gentoo, p.conflicts, a, false))
      && (v == Refused <==>
           && gentoo.parse(a).Ok?
           && (|| OneFails(gentoo, p.reqs, a, true)
               || (AllHold(gentoo, p.reqs, a, true) && OneFails(gentoo, p.conflicts, a, false))))
  {
    hide AllHold, OneFails;
    if |p.reqs| == 0 && |p.conflicts| == 0 {
      return Admitted;
    }
    if gentoo.parse(a).Err? {
      return AdmitError(gentoo.parse(a).message);
    }
    v := CheckList(gentoo, p.reqs, a, true);
    if v != Admitted {
      return;
    }
    v := CheckList(gentoo, p.conflicts, a, false);
  }

  /** Told by the library alone: a package is admitted exactly if every require that names it accepts it,
      every other require accepts all that it provides under that name, and no conflict does either. */
  lemma AdmittedMeans(gentoo: Gentoo, p: Pkg, a: Pkg)
    ensures AllHold(gentoo, p.reqs, a, true) && AllHold(gentoo, p.conflicts, a, false) <==>
      && (forall c | c in p.reqs && c.name == a.name ::
            gentoo.parse(c).Ok? && gentoo.parse(a).Ok? && gentoo.accepts(c, a) == Ok(true))
      && (forall c, q | c in p.reqs && c.name != a.name && q in a.provs && q.name == c.name ::
            gentoo.parse(c).Ok? && gentoo.parse(q).Ok? && gentoo.accepts(c, q) == Ok(true))
      && (forall c | c in p.conflicts && c.name == a.name ::
            gentoo.parse(c).Ok? && gentoo.parse(a).Ok? && gentoo.accepts(c, a) == Ok(false))
      && (forall c, q | c in p.conflicts && c.name != a.name && q in a.provs && q.name == c.name ::
            gentoo.parse(c).Ok? && gentoo.parse(q).Ok? && gentoo.accepts(c, q) == Ok(false))
  {
    forall c, wanted ensures HoldsFor(gentoo, c, a, wanted) <==>
      if c.name == a.name then Says(gentoo, c, a, wanted)
      else forall q | q in a.provs && q.name == c.name :: Says(gentoo, c, q, wanted)
    {
      assert forall j | 0 <= j < |a.provs| :: a.provs[j] in a.provs;
    }
  }
}
