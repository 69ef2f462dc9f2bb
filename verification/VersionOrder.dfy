/** The known versions of a package, best first (pkg/v2/compiler/types/artifact/map.go,
    GetSortedArtifactsByKey). Parsing, ordering and printing versions is the business of the Gentoo
    version library and stays abstract.
 */
module VersionOrder {
  import opened Admissions
  import opened Packages

  type PkgsMap = map<Name, seq<Pkg>>

  /** Versions sorted and printed, best first, or an error for one that cannot be parsed. */
  type VersionSorter = seq<Version> -> Result<seq<Version>>

  function VersionList(arts: seq<Pkg>): (r: seq<Version>)
    ensures |r| == |arts| && forall i | 0 <= i < |r| :: r[i] == arts[i].version
  {
    seq(|arts|, i requires 0 <= i < |arts| => arts[i].version)
  }

  /** The first artefact of that version, if there is one. */
  function Find(arts: seq<Pkg>, v: Version): (r: seq<Pkg>)
    ensures |r| <= 1 && (r == [] <==> forall a | a in arts :: a.version != v)
    ensures r != [] ==> r[0] in arts && r[0].version == v
  {
    if arts == [] then []
    else if arts[0].version == v then [arts[0]]
    else
      assert arts == [arts[0]] + arts[1..];
      Find(arts[1..], v)
  }

  function Picked(arts: seq<Pkg>, vs: seq<Version>): seq<Pkg> {
    if vs == [] then [] else Picked(arts, vs[..|vs| - 1]) + Find(arts, vs[|vs| - 1])
  }

  function SortedVersions(available: PkgsMap, sortVersions: VersionSorter, k: Name): Result<seq<Pkg>> {
    if k !in available then Err("Package " + k + " not found on map")
    else if |available[k]| == 1 then Ok(available[k])
    else
      match sortVersions(VersionList(available[k]))
      case Err(message) => Err(message)
      case Ok(vs) => Ok(Picked(available[k], vs))
  }

  /** Two entries of one version are the same artefact. */
  ghost predicate OnePerVersion(arts: seq<Pkg>) {
    forall a, b | a in arts && b in arts && a.version == b.version :: a == b
  }

  lemma {:induction false} PickedAre(arts: seq<Pkg>, vs: seq<Version>, a: Pkg)
    ensures a in Picked(arts, vs) <==> a.version in vs && Find(arts, a.version) == [a]
  {
    if vs != [] {
      var before, v := vs[..|vs| - 1], vs[|vs| - 1];
      PickedAre(arts, before, a);
      assert a.version in vs <==> a.version in before || a.version == v;
      assert a in Picked(arts, vs) <==> a in Picked(arts, before) || a in Find(arts, v);
    }
  }

  /** The sorted list holds known versions only, one artefact for each, and no version is lost that
      the library prints as it is written. */
  lemma SortedAreKnown(available: PkgsMap, sortVersions: VersionSorter, k: Name)
    requires SortedVersions(available, sortVersions, k).Ok?
    ensures var arts := SortedVersions(available, sortVersions, k).value;
      && k in available && OnePerVersion(arts) && (forall a | a in arts :: a in available[k])
      && (|available[k]| > 1 ==>
            forall a | a in available[k] && a.version in sortVersions(VersionList(available[k])).value ::
              exists b :: b in arts && b.version == a.version)
  {
    var val := available[k];
    if |val| != 1 {
      var vs := sortVersions(VersionList(val)).value;
      forall a: Pkg ensures a in Picked(val, vs) <==> a.version in vs && Find(val, a.version) == [a] {
        PickedAre(val, vs, a);
      }
      forall a | a in val && a.version in vs ensures exists b :: b in Picked(val, vs) && b.version == a.version {
        var b := Find(val, a.version)[0];
        assert Find(val, b.version) == [b];
      }
    }
  }

  /** The j-th artefact is the first of that version. */
  predicate IsFirst(arts: seq<Pkg>, j: int, v: Version) {
    0 <= j < |arts| && arts[j].version == v && forall i | 0 <= i < j :: arts[i].version != v
  }

  lemma {:induction false} PickedOfPrefix(arts: seq<Pkg>, vs: seq<Version>, k: nat)
    requires k <= |vs|
    ensures Picked(arts, vs[..k]) <= Picked(arts, vs)
    decreases |vs|
  {
    if k == |vs| {
      assert vs[..k] == vs;
    } else {
      PickedOfPrefix(arts, vs[..|vs| - 1], k);
      assert vs[..|vs| - 1][..k] == vs[..k];
    }
  }

  /** The sorted list follows the printed versions, best first: each adds the first artefact that is
      written that way, or nothing if there is none. */
  lemma PickedInOrder(arts: seq<Pkg>, vs: seq<Version>, i: nat)
    requires i < |vs|
    ensures Picked(arts, vs[..0]) == [] && Picked(arts, vs[..i + 1]) <= Picked(arts, vs)
    ensures forall j | IsFirst(arts, j, vs[i]) :: Picked(arts, vs[..i + 1]) == Picked(arts, vs[..i]) + [arts[j]]
    ensures (forall j | 0 <= j < |arts| :: arts[j].version != vs[i]) ==>
      Picked(arts, vs[..i + 1]) == Picked(arts, vs[..i])
  {
    PickedOfPrefix(arts, vs, i + 1);
    var upTo := vs[..i + 1];
    assert upTo[..|upTo| - 1] == vs[..i] && upTo[|upTo| - 1] == vs[i];
    assert Picked(arts, upTo) == Picked(arts, vs[..i]) + Find(arts, vs[i]);
    forall j | IsFirst(arts, j, vs[i]) ensures Find(arts, vs[i]) == [arts[j]] {
      FindNext(arts, j, vs[i]);
    }
  }

  lemma FindNext(arts: seq<Pkg>, j: nat, v: Version)
    requires j < |arts| && arts[j].version == v && forall i | 0 <= i < j :: arts[i].version != v
    ensures Find(arts, v) == [arts[j]]
  {
    if j > 0 {
      FindNext(arts[1..], j - 1, v);
    }
  }

  lemma SortedAfter(available: PkgsMap, sortVersions: VersionSorter, k: Name, ans: seq<Pkg>)
    requires k in available && |available[k]| != 1 && sortVersions(VersionList(available[k])).Ok?
    requires ans == Picked(available[k], sortVersions(VersionList(available[k])).value)
    ensures SortedVersions(available, sortVersions, k) == Ok(ans)
  {
  }

  /** The first artefact of that version, if there is one. */
  method FirstOf(val: seq<Pkg>, pstr: Version) returns (found: seq<Pkg>)
    ensures found == Find(val, pstr)
  {
    for j := 0 to |val|
      invariant forall i | 0 <= i < j :: val[i].version != pstr
    {
      if val[j].version == pstr {
        FindNext(val, j, pstr);
        return [val[j]];
      }
    }
    return [];
  }

  method GetSortedArtifactsByKey(available: PkgsMap, sortVersions: VersionSorter, k: Name)
    returns (res: Result<seq<Pkg>>)
    ensures res == SortedVersions(available, sortVersions, k)
    ensures res.Err? <==>
      k !in available || (|available[k]| != 1 && sortVersions(VersionList(available[k])).Err?)
    ensures k in available && |available[k]| == 1 ==> res == Ok(available[k])
    ensures res.Ok? && |available[k]| != 1 ==>
      res.value == Picked(available[k], sortVersions(VersionList(available[k])).value)
  {
    if k !in available {
      return Err("Package " + k + " not found on map");
    }
    var val := available[k];
    if |val| == 1 {
      return Ok(val);
    }
    var glist := sortVersions(VersionList(val));
    if glist.Err? {
      return Err(glist.message);
    }
    hide SortedVersions, Find, IsFirst;
    var ans: seq<Pkg> := [];
    assert Picked(val, glist.value[..0]) == [];
    for idx := 0 to |glist.value|
      invariant ans == Picked(val, glist.value[..idx])
    {
      var pstr := glist.value[idx];
      assert glist.value[..idx + 1][..idx] == glist.value[..idx];
      var found := FirstOf(val, pstr);
      ans := ans + found;
    }
    assert glist.value[..|glist.value|] == glist.value;
    res := Ok(ans);
    SortedAfter(available, sortVersions, k, ans);
  }
}
