/** Vocabulary shared by every component: package names, versions and the
    success/error result that stands for the `error` return values of the program.
 */
module Packages {

  /** The string `category/name` that keys every map of the program. */
  type Name = string

  type Version = string

  datatype Result<+T> = Ok(value: T) | Err(message: string)

  /** A package version; in requires and conflicts the version may be a selector. */
  datatype Id = Id(name: Name, version: Version)

  /** `x` is in the list that the map holds for the name. */
  predicate Listed<T(==)>(m: map<Name, seq<T>>, n: Name, x: T) {
    n in m && x in m[n]
  }

  /** A package identity as the source stores it. */
  datatype Atom = Atom(category: string, name: string)

  function PackageName(a: Atom): Name {
    if a.category != "" && a.name != "" then a.category + "/" + a.name
    else if a.category != "" then a.category
    else a.name
  }

  /** Atoms as every tree definition writes them: a category without a slash, and a name. */
  predicate Plain(a: Atom) {
    a.category != "" && a.name != "" && '/' !in a.category
  }

  /** Maps are keyed by `PackageName` while lists are searched with `AtomMatches`
      (equal name and equal category): on plain atoms the two tests agree, so the
      other modules identify a package by its `Name` alone. */
  lemma PackageNameIdentifiesAtom(a: Atom, b: Atom)
    requires Plain(a) && Plain(b)
    ensures PackageName(a) == PackageName(b) <==> a == b
  {
    var s, t := PackageName(a), PackageName(b);
    assert s[|a.category|] == '/' && t[|b.category|] == '/';
    assert forall i :: 0 <= i < |a.category| ==> s[i] == a.category[i];
    assert forall i :: 0 <= i < |b.category| ==> t[i] == b.category[i];
    if s == t {
      assert a.category == s[..|a.category|] == b.category;
      assert a.name == s[|a.category| + 1..] == b.name;
    }
  }

  /** Without a plain category the key no longer tells two packages apart. */
  lemma PackageNameAmbiguous()
    ensures exists a, b :: a != b && PackageName(a) == PackageName(b)
  {
    var a, b := Atom("a", "b/c"), Atom("a/b", "c");
    assert PackageName(a) == "a/b/c" == PackageName(b);
    assert a.category != b.category;
  }

  /** The elements of a sequence. */
  function Elements<T(==)>(s: seq<T>): set<T>
  {
    set x | x in s
  }

  predicate NoDuplicates<T(==)>(s: seq<T>) {
    forall i, j :: 0 <= i < j < |s| ==> s[i] != s[j]
  }

  lemma {:induction false} NoDuplicatesCount<T>(s: seq<T>)
    requires NoDuplicates(s)
    ensures forall x :: multiset(s)[x] == if x in s then 1 else 0
  {
    if s != [] {
      var last := |s| - 1;
      NoDuplicatesCount(s[..last]);
      assert s == s[..last] + [s[last]];
      forall x ensures multiset(s)[x] == if x in s then 1 else 0 {
        assert x in s <==> x in s[..last] || x == s[last];
      }
    }
  }

  /** Two lists without duplicates and with the same members are permutations of each other. */
  lemma SameMembersPermute<T>(s: seq<T>, t: seq<T>)
    requires NoDuplicates(s) && NoDuplicates(t)
    requires forall x :: x in s <==> x in t
    ensures multiset(s) == multiset(t)
  {
    NoDuplicatesCount(s);
    NoDuplicatesCount(t);
  }
}
