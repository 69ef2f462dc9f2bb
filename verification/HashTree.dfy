/** The hash tree of build images (pkg/compiler/imagehashtree.go) over lists of package assertions
    (pkg/solver/decoder.go).
 */
module HashTree {
  import opened Packages

  datatype BuildPackage = BuildPackage(name: string, category: string, version: string) {
    function GetFingerPrint(): string {
      name + "-" + category + "-" + version
    }

    function Mark(): BuildPackage {
      this.(name := "@@" + name)
    }

    predicate Matches(p: BuildPackage) {
      GetFingerPrint() == p.GetFingerPrint()
    }
  }

  datatype PackageHash = PackageHash(buildHash: string, packageHash: string)

  datatype Assertion = Assertion(pkg: BuildPackage, value: bool, hash: PackageHash) {
    function ToString(): string {
      pkg.category + "/" + pkg.name + " " + pkg.version + " " + if value then "installed" else "not installed"
    }
  }

  type Salts = map<string, string>

  type Digest = string -> string

  // ----- what is hashed -----

  function Salt(p: BuildPackage, salts: Salts): string {
    if p.GetFingerPrint() in salts then salts[p.GetFingerPrint()] else ""
  }

  function Line(a: Assertion, salts: Salts): string {
    a.ToString() + Salt(a.pkg, salts)
  }

  /** One line for each installed package, in order. */
  function Lines(s: seq<Assertion>, salts: Salts): seq<string> {
    if s == [] then []
    else
      var a := s[|s| - 1];
      if a.value then Lines(s[..|s| - 1], salts) + [Line(a, salts)] else Lines(s[..|s| - 1], salts)
  }

  function Joined(lines: seq<string>): string {
    if lines == [] then ""
    else Joined(lines[..|lines| - 1]) + lines[|lines| - 1] + "\n"
  }

  lemma JoinedSnoc(lines: seq<string>, l: string)
    ensures Joined(lines + [l]) == Joined(lines) + l + "\n"
  {
    assert (lines + [l])[..|lines|] == lines;
  }

  function Digested(s: seq<Assertion>, salts: Salts, sha: Digest): string {
    sha(Joined(Lines(s, salts)))
  }

  predicate OneLine(s: string) { '\n' !in s }

  lemma LastLine(a: string, l: string, b: string, m: string)
    requires a + l + "\n" == b + m + "\n"
    requires OneLine(l) && OneLine(m)
    requires a == "" || a[|a| - 1] == '\n'
    requires b == "" || b[|b| - 1] == '\n'
    ensures a == b && l == m
  {
    var t := a + l + "\n";
    assert |a| + |l| == |b| + |m|;
    assert a == t[..|a|] && b == t[..|b|];
    assert l == t[|a|..|a| + |l|] && m == t[|b|..|b| + |m|];
  }

  /** The joined text determines its lines. */
  lemma {:induction false} JoinedIsInjective(x: seq<string>, y: seq<string>)
    requires forall l | l in x + y :: OneLine(l)
    requires Joined(x) == Joined(y)
    ensures x == y
  {
    if x == [] || y == [] {
      assert |Joined(x)| == 0 ==> x == [];
    } else {
      var u, v := x[..|x| - 1], y[..|y| - 1];
      assert forall l | l in u + v :: l in x + y;
      assert x[|x| - 1] in x + y && y[|y| - 1] in x + y;
      LastLine(Joined(u), x[|x| - 1], Joined(v), y[|y| - 1]);
      JoinedIsInjective(u, v);
      assert x == u + [x[|x| - 1]] && y == v + [y[|y| - 1]];
    }
  }

  /** What comes before the first `c` determines the rest. */
  lemma SplitAtFirst(c: char, x: string, y: string, x': string, y': string)
    requires c !in x && c !in x' && x + [c] + y == x' + [c] + y'
    ensures x == x' && y == y'
  {
    var s := x + [c] + y;
    assert s[|x|] == c && s[|x'|] == c;
    assert forall i | 0 <= i < |x| :: s[i] == x[i] && x[i] in x;
    assert forall i | 0 <= i < |x'| :: s[i] == x'[i] && x'[i] in x';
    assert |x| == |x'|;
    assert x == s[..|x|] == x';
    assert y == s[|x| + 1..] == y';
  }

  /** A category without slashes, a name and a version without spaces, and no line breaks, as package
      definitions write them. */
  predicate Plainly(p: BuildPackage, salts: Salts) {
    && '/' !in p.category && ' ' !in p.name && ' ' !in p.version
    && OneLine(p.category) && OneLine(p.name) && OneLine(p.version) && OneLine(Salt(p, salts))
  }

  /** The line of an installed package determines the package and its salt. */
  lemma LineIsInjective(a: Assertion, salts: Salts, b: Assertion, salts': Salts)
    requires a.value && b.value && Plainly(a.pkg, salts) && Plainly(b.pkg, salts')
    ensures Line(a, salts) == Line(b, salts') <==> a.pkg == b.pkg && Salt(a.pkg, salts) == Salt(b.pkg, salts')
  {
    var p, q := a.pkg, b.pkg;
    var u3, v3 := "installed" + Salt(p, salts), "installed" + Salt(q, salts');
    var u2, v2 := p.version + [' '] + u3, q.version + [' '] + v3;
    var u1, v1 := p.name + [' '] + u2, q.name + [' '] + v2;
    assert Line(a, salts) == p.category + ['/'] + u1 && Line(b, salts') == q.category + ['/'] + v1;
    if Line(a, salts) == Line(b, salts') {
      SplitAtFirst('/', p.category, u1, q.category, v1);
      SplitAtFirst(' ', p.name, u2, q.name, v2);
      SplitAtFirst(' ', p.version, u3, q.version, v3);
      assert Salt(p, salts) == u3[9..] == v3[9..] == Salt(q, salts');
    }
  }

  lemma LineIsOneLine(a: Assertion, salts: Salts)
    requires Plainly(a.pkg, salts)
    ensures OneLine(Line(a, salts))
  {
  }

  lemma {:induction false} LinesOfTrues(s: seq<Assertion>, salts: Salts)
    ensures |Lines(s, salts)| == |Trues(s)|
    ensures forall i | 0 <= i < |Trues(s)| :: Lines(s, salts)[i] == Line(Trues(s)[i], salts)
  {
    if s != [] { LinesOfTrues(s[..|s| - 1], salts); }
  }

  /** The same packages with the same build specifications, in the same order. */
  ghost predicate SameBuilds(a: seq<Assertion>, salts: Salts, b: seq<Assertion>, salts': Salts) {
    && |a| == |b|
    && forall i | 0 <= i < |a| :: a[i].pkg == b[i].pkg && Salt(a[i].pkg, salts) == Salt(b[i].pkg, salts')
  }

  lemma SameLines(s: seq<Assertion>, salts: Salts, t: seq<Assertion>, salts': Salts)
    requires forall a | a in Trues(s) :: Plainly(a.pkg, salts)
    requires forall a | a in Trues(t) :: Plainly(a.pkg, salts')
    ensures Lines(s, salts) == Lines(t, salts') <==> SameBuilds(Trues(s), salts, Trues(t), salts')
  {
    hide Plainly, Line;
    var a, b := Trues(s), Trues(t);
    LinesOfTrues(s, salts);
    LinesOfTrues(t, salts');
    if |a| == |b| {
      forall i | 0 <= i < |a|
        ensures Line(a[i], salts) == Line(b[i], salts') <==>
          a[i].pkg == b[i].pkg && Salt(a[i].pkg, salts) == Salt(b[i].pkg, salts')
      {
        assert a[i] in a && b[i] in b;
        LineIsInjective(a[i], salts, b[i], salts');
      }
      if SameBuilds(a, salts, b, salts') {
        assert Lines(s, salts) == Lines(t, salts');
      }
      if Lines(s, salts) == Lines(t, salts') {
        forall i | 0 <= i < |a| ensures a[i].pkg == b[i].pkg && Salt(a[i].pkg, salts) == Salt(b[i].pkg, salts') {
          assert Lines(s, salts)[i] == Lines(t, salts')[i];
        }
      }
    }
  }

  lemma PlainLines(s: seq<Assertion>, salts: Salts)
    requires forall a | a in Trues(s) :: Plainly(a.pkg, salts)
    ensures forall l | l in Lines(s, salts) :: OneLine(l)
  {
    LinesOfTrues(s, salts);
    forall l | l in Lines(s, salts) ensures OneLine(l) {
      var i :| 0 <= i < |Trues(s)| && Lines(s, salts)[i] == l;
      assert Trues(s)[i] in Trues(s);
      LineIsOneLine(Trues(s)[i], salts);
    }
  }

  /** Two hashes are equal exactly if the installed packages, their build specifications and their
      order are, as long as the digest tells the two texts apart when they differ. */
  lemma HashIdentifiesContents(s: seq<Assertion>, salts: Salts, t: seq<Assertion>, salts': Salts, sha: Digest)
    requires forall a | a in Trues(s) :: Plainly(a.pkg, salts)
    requires forall a | a in Trues(t) :: Plainly(a.pkg, salts')
    requires sha(Joined(Lines(s, salts))) == sha(Joined(Lines(t, salts'))) ==>
      Joined(Lines(s, salts)) == Joined(Lines(t, salts'))
    ensures Digested(s, salts, sha) == Digested(t, salts', sha) <==> SameBuilds(Trues(s), salts, Trues(t), salts')
  {
    PlainLines(s, salts);
    PlainLines(t, salts');
    SameLines(s, salts, t, salts');
    if Joined(Lines(s, salts)) == Joined(Lines(t, salts')) {
      JoinedIsInjective(Lines(s, salts), Lines(t, salts'));
    }
  }

  // ----- the list operations -----

  function Trues(s: seq<Assertion>): (r: seq<Assertion>)
    ensures forall a | a in r :: a.value
  {
    if s == [] then []
    else if s[|s| - 1].value then Trues(s[..|s| - 1]) + [s[|s| - 1]]
    else Trues(s[..|s| - 1])
  }

  function Dropped(s: seq<Assertion>, p: BuildPackage): seq<Assertion> {
    if s == [] then []
    else Dropped(s[..|s| - 1], p) + if s[|s| - 1].pkg.Matches(p) then [] else [s[|s| - 1]]
  }

  function Marked(s: seq<Assertion>, p: BuildPackage): (r: seq<Assertion>)
    ensures |r| == |s|
  {
    seq(|s|, i requires 0 <= i < |s| => if s[i].pkg.Matches(p) then s[i].(pkg := s[i].pkg.Mark()) else s[i])
  }

  function MarkedAlone(a: Assertion): Assertion {
    a.(pkg := a.pkg.Mark())
  }

  method SaltedAssertionHash(s: seq<Assertion>, salts: Salts, sha: Digest) returns (hash: string)
    ensures hash == Digested(s, salts, sha)
  {
    var fingerprint := "";
    for i := 0 to |s|
      invariant fingerprint == Joined(Lines(s[..i], salts))
    {
      assert s[..i + 1][..i] == s[..i];
      if s[i].value {
        var fp := s[i].pkg.GetFingerPrint();
        ghost var before := Lines(s[..i], salts);
        JoinedSnoc(before, Line(s[i], salts));
        if fp in salts {
          fingerprint := fingerprint + (s[i].ToString() + salts[fp]) + "\n";
        } else {
          assert Line(s[i], salts) == s[i].ToString();
          fingerprint := fingerprint + s[i].ToString() + "\n";
        }
      }
    }
    assert s[..|s|] == s;
    hash := sha(fingerprint);
  }

  method Drop(s: seq<Assertion>, p: BuildPackage) returns (ass: seq<Assertion>)
    ensures ass == Dropped(s, p)
  {
    ass := [];
    for i := 0 to |s|
      invariant ass == Dropped(s[..i], p)
    {
      assert s[..i + 1][..i] == s[..i];
      if !s[i].pkg.Matches(p) {
        ass := ass + [s[i]];
      }
    }
    assert s[..|s|] == s;
  }

  method TrueLen(s: seq<Assertion>) returns (count: nat)
    ensures count == |Trues(s)|
  {
    count := 0;
    for i := 0 to |s|
      invariant count == |Trues(s[..i])|
    {
      assert s[..i + 1][..i] == s[..i];
      if s[i].value {
        count := count + 1;
      }
    }
    assert s[..|s|] == s;
  }

  lemma {:induction false} TruesOfPrefix(s: seq<Assertion>, k: nat)
    requires k <= |s|
    ensures Trues(s[..k]) <= Trues(s)
    decreases |s|
  {
    if k == |s| {
      assert s[..k] == s;
    } else {
      TruesOfPrefix(s[..|s| - 1], k);
      assert s[..|s| - 1][..k] == s[..k];
    }
  }

  lemma TruesStep(s: seq<Assertion>, i: nat)
    requires i < |s|
    ensures Trues(s[..0]) == []
    ensures Trues(s[..i + 1]) == if s[i].value then Trues(s[..i]) + [s[i]] else Trues(s[..i])
    ensures s[i].value ==> |Trues(s[..i])| < |Trues(s)| && Trues(s)[|Trues(s[..i])|] == s[i]
  {
    assert s[..i + 1][..i] == s[..i];
    TruesOfPrefix(s, i + 1);
    assert s[i].value ==> Trues(s[..i + 1])[|Trues(s[..i])|] == s[i];
  }

  /** The installed assertions up to and including the first one for `p`, or all of them. */
  method Cut(s: seq<Assertion>, p: BuildPackage) returns (ass: seq<Assertion>)
    ensures ass <= Trues(s)
    ensures forall i | 0 <= i < |ass| - 1 :: !ass[i].pkg.Matches(p)
    ensures ass != Trues(s) ==> |ass| > 0 && ass[|ass| - 1].pkg.Matches(p)
  {
    ass := [];
    for i := 0 to |s|
      invariant ass == Trues(s[..i])
      invariant forall j | 0 <= j < |ass| :: !ass[j].pkg.Matches(p)
    {
      assert s[..i + 1][..i] == s[..i];
      if s[i].value {
        ass := ass + [s[i]];
        if s[i].pkg.Matches(p) {
          TruesOfPrefix(s, i + 1);
          return;
        }
      }
    }
    assert s[..|s|] == s;
  }

  method Mark(s: seq<Assertion>, p: BuildPackage) returns (ass: seq<Assertion>)
    ensures ass == Marked(s, p)
  {
    ass := [];
    for i := 0 to |s|
      invariant ass == Marked(s, p)[..i]
    {
      var a := s[i];
      if a.pkg.Matches(p) {
        a := a.(pkg := a.pkg.Mark());
      }
      ass := ass + [a];
    }
  }

  function SaltsWithMark(p: BuildPackage, salts: Salts): Salts {
    if p.GetFingerPrint() in salts then salts[p.Mark().GetFingerPrint() := salts[p.GetFingerPrint()]] else salts
  }

  /** The hash of what a package is built on; when nothing is left, of the package itself under a
      marked name, which inherits its salt. */
  method SaltedHashFrom(s: seq<Assertion>, p: BuildPackage, salts0: Salts, sha: Digest)
    returns (hash: string, salts: Salts)
    ensures Trues(Dropped(s, p)) != [] ==> salts == salts0 && hash == Digested(Dropped(s, p), salts, sha)
    ensures Trues(Dropped(s, p)) == [] ==>
      salts == SaltsWithMark(p, salts0) && hash == Digested(Marked(s, p), salts, sha)
  {
    salts := salts0;
    var latestsolution := Drop(s, p);
    var n := TrueLen(latestsolution);
    if n == 0 {
      if p.GetFingerPrint() in salts {
        salts := salts[p.Mark().GetFingerPrint() := salts[p.GetFingerPrint()]];
      }
      var marked := Mark(s, p);
      hash := SaltedAssertionHash(marked, salts, sha);
    } else {
      hash := SaltedAssertionHash(latestsolution, salts, sha);
    }
  }

  // ----- the chain -----

  /** One fingerprint for both: name, category and version joined by dashes. */
  ghost predicate Alike(p: BuildPackage, q: BuildPackage) {
    p.name + "-" + p.category + "-" + p.version == q.name + "-" + q.category + "-" + q.version
  }

  lemma MatchesMeans()
    ensures forall p: BuildPackage, q: BuildPackage :: p.Matches(q) <==> Alike(p, q)
  {
  }

  ghost predicate DistinctFingerprints(s: seq<Assertion>) {
    forall i, j | 0 <= i < j < |s| :: !Alike(s[i].pkg, s[j].pkg)
  }

  /** Cutting at the i-th of `t` leaves its first i+1. */
  lemma CutLength(t: seq<Assertion>, i: nat, n: nat)
    requires i < |t| && n <= |t| && DistinctFingerprints(t)
    requires forall k | 0 <= k < n - 1 :: !t[k].pkg.Matches(t[i].pkg)
    requires n != |t| ==> n > 0 && t[n - 1].pkg.Matches(t[i].pkg)
    ensures n == i + 1
  {
    assert t[i].pkg.Matches(t[i].pkg);
  }

  lemma {:induction false} NothingDropped(s: seq<Assertion>, p: BuildPackage)
    requires forall a | a in s :: !a.pkg.Matches(p)
    ensures Dropped(s, p) == s
  {
    if s != [] {
      NothingDropped(s[..|s| - 1], p);
      assert s[|s| - 1] in s;
    }
  }

  /** Dropping the last package of a prefix leaves the shorter prefix. */
  lemma DropLast(t: seq<Assertion>, i: nat)
    requires i < |t| && DistinctFingerprints(t)
    ensures Dropped(t[..i + 1], t[i].pkg) == t[..i]
  {
    assert t[..i + 1][..i] == t[..i];
    forall a | a in t[..i] ensures !a.pkg.Matches(t[i].pkg) {
      var k :| 0 <= k < i && t[k] == a;
    }
    NothingDropped(t[..i], t[i].pkg);
  }

  lemma {:induction false} AllTrue(s: seq<Assertion>)
    requires forall a | a in s :: a.value
    ensures Trues(s) == s
  {
    if s != [] {
      assert s[|s| - 1] in s;
      AllTrue(s[..|s| - 1]);
    }
  }

  /** `hashed` are the packages of `t` with their two hashes: what was installed before, and what is
      installed once the package is. */
  ghost predicate Chained(t: seq<Assertion>, hashed: seq<Assertion>, salts: Salts, sha: Digest) {
    && |hashed| <= |t|
    && (forall i | 0 <= i < |hashed| :: hashed[i] == t[i].(hash := hashed[i].hash))
    && (forall i | 0 <= i < |hashed| :: hashed[i].hash.packageHash == Digested(t[..i + 1], salts, sha))
    && (forall i | 1 <= i < |hashed| :: hashed[i].hash.buildHash == Digested(t[..i], salts, sha))
    && (hashed != [] ==> hashed[0].hash.buildHash == Digested([MarkedAlone(t[0])], salts, sha))
  }

  /** Each package is built on exactly the image its predecessor produced. */
  lemma BuiltOnPredecessor(t: seq<Assertion>, hashed: seq<Assertion>, salts: Salts, sha: Digest, i: nat)
    requires Chained(t, hashed, salts, sha)
    requires 1 <= i < |hashed|
    ensures hashed[i].hash.buildHash == hashed[i - 1].hash.packageHash
  {
    assert t[..i - 1 + 1] == t[..i];
  }

  /** The salt of each package: the hash of its build specification. */
  function SpecSalts(s: seq<Assertion>, specHash: BuildPackage -> Result<string>): Salts {
    if s == [] then map[]
    else
      var salts, p := SpecSalts(s[..|s| - 1], specHash), s[|s| - 1].pkg;
      if specHash(p).Ok? then salts[p.GetFingerPrint() := specHash(p).value] else salts
  }

  lemma {:induction false} SaltOf(s: seq<Assertion>, specHash: BuildPackage -> Result<string>, i: nat)
    requires i < |s| && DistinctFingerprints(s) && specHash(s[i].pkg).Ok?
    ensures var fp := s[i].pkg.GetFingerPrint();
      fp in SpecSalts(s, specHash) && SpecSalts(s, specHash)[fp] == specHash(s[i].pkg).value
  {
    if i < |s| - 1 {
      SaltOf(s[..|s| - 1], specHash, i);
      assert !s[i].pkg.Matches(s[|s| - 1].pkg);
    }
  }

  lemma SpecSaltsSnoc(s: seq<Assertion>, a: Assertion, specHash: BuildPackage -> Result<string>)
    requires specHash(a.pkg).Ok?
    ensures SpecSalts(s + [a], specHash) == SpecSalts(s, specHash)[a.pkg.GetFingerPrint() := specHash(a.pkg).value]
  {
    assert (s + [a])[..|s|] == s;
  }

  lemma InTrues(s: seq<Assertion>, i: nat)
    requires i < |s| && s[i].value
    ensures s[i] in Trues(s)
  {
    assert s[..i + 1][..i] == s[..i];
    assert s[i] in Trues(s[..i + 1]);
    TruesOfPrefix(s, i + 1);
  }

  method ComputeSalts(dependencies: seq<Assertion>, specHash: BuildPackage -> Result<string>) returns (r: Result<Salts>)
    ensures r.Err? <==> exists a | a in Trues(dependencies) :: specHash(a.pkg).Err?
    ensures r.Ok? ==> r.value == SpecSalts(Trues(dependencies), specHash)
  {
    var salts: Salts := map[];
    for i := 0 to |dependencies|
      invariant salts == SpecSalts(Trues(dependencies[..i]), specHash)
      invariant forall a | a in Trues(dependencies[..i]) :: specHash(a.pkg).Ok?
    {
      var a := dependencies[i];
      assert dependencies[..i + 1][..i] == dependencies[..i];
      if a.value {
        var hash := specHash(a.pkg);
        if hash.Err? {
          InTrues(dependencies, i);
          return Err(hash.message);
        }
        SpecSaltsSnoc(Trues(dependencies[..i]), a, specHash);
        salts := salts[a.pkg.GetFingerPrint() := hash.value];
      }
    }
    assert dependencies[..|dependencies|] == dependencies;
    return Ok(salts);
  }

  /** What the i-th package of `t` is hashed to: what was installed before it, and with it. */
  ghost predicate HashedAt(t: seq<Assertion>, i: nat, hash: PackageHash, salts: Salts, sha: Digest)
    requires i < |t|
  {
    && hash.packageHash == Digested(t[..i + 1], salts, sha)
    && hash.buildHash == Digested(if i == 0 then [MarkedAlone(t[0])] else t[..i], salts, sha)
  }

  /** One round of the second loop, for the i-th installed package. */
  method HashOne(dependencies: seq<Assertion>, a: Assertion, salts0: Salts, sha: Digest, ghost i: nat)
    returns (hash: PackageHash, salts: Salts)
    requires i < |Trues(dependencies)| && Trues(dependencies)[i] == a
    ensures DistinctFingerprints(Trues(dependencies)) ==>
      && salts == (if i == 0 then SaltsWithMark(a.pkg, salts0) else salts0)
      && HashedAt(Trues(dependencies), i, hash, salts, sha)
  {
    ghost var t := Trues(dependencies);
    var nthsolution := Cut(dependencies, a.pkg);
    if DistinctFingerprints(t) {
      assert forall k | 0 <= k < |nthsolution| :: t[k] == nthsolution[k];
      CutLength(t, i, |nthsolution|);
      assert nthsolution == t[..i + 1];
      DropLast(t, i);
      AllTrue(t[..i]);
    }
    var buildHash;
    buildHash, salts := SaltedHashFrom(nthsolution, a.pkg, salts0, sha);
    var packageHash := SaltedAssertionHash(nthsolution, salts, sha);
    assert i == 0 && nthsolution == [a] ==> Marked(nthsolution, a.pkg) == [MarkedAlone(a)];
    hash := PackageHash(buildHash, packageHash);
  }

  /** The salts in use once the first package has been hashed. */
  function SaltsAfterFirst(t: seq<Assertion>, salts: Salts): Salts {
    if t == [] then salts else SaltsWithMark(t[0].pkg, salts)
  }

  function FinalSalts(t: seq<Assertion>, specHash: BuildPackage -> Result<string>): Salts {
    SaltsAfterFirst(t, SpecSalts(t, specHash))
  }

  lemma ChainedSnoc(t: seq<Assertion>, hashed: seq<Assertion>, salts: Salts, sha: Digest, hash: PackageHash)
    requires Chained(t, hashed, salts, sha)
    requires |hashed| < |t| && HashedAt(t, |hashed|, hash, salts, sha)
    ensures Chained(t, hashed + [t[|hashed|].(hash := hash)], salts, sha)
  {
    hide Digested, BuildPackage.Mark;
    var n := |hashed|;
    var after := hashed + [t[n].(hash := hash)];
    assert after[n] == t[n].(hash := hash) && forall i | 0 <= i < n :: after[i] == hashed[i];
  }

  /** `hashed` are the first packages of `t`, with hashes. */
  ghost predicate SameButHashes(t: seq<Assertion>, hashed: seq<Assertion>) {
    |hashed| <= |t| && forall i | 0 <= i < |hashed| :: hashed[i] == t[i].(hash := hashed[i].hash)
  }

  lemma SameSnoc(t: seq<Assertion>, hashed: seq<Assertion>, hash: PackageHash)
    requires SameButHashes(t, hashed) && |hashed| < |t|
    ensures SameButHashes(t, hashed + [t[|hashed|].(hash := hash)])
  {
  }

  /** A round of the second loop: `a` is the next installed package. */
  method HashNext(dependencies: seq<Assertion>, a: Assertion, assertions: seq<Assertion>, salts: Salts, sha: Digest,
                  ghost after: Salts)
    returns (assertions': seq<Assertion>, salts': Salts)
    requires SameButHashes(Trues(dependencies), assertions)
    requires |assertions| < |Trues(dependencies)| && Trues(dependencies)[|assertions|] == a
    ensures SameButHashes(Trues(dependencies), assertions') && |assertions'| == |assertions| + 1
    ensures (
        && DistinctFingerprints(Trues(dependencies)) && Chained(Trues(dependencies), assertions, after, sha)
        && after == (if assertions == [] then SaltsWithMark(a.pkg, salts) else salts)
      ) ==> Chained(Trues(dependencies), assertions', after, sha) && salts' == after
  {
    hide Trues, Lines, SaltsWithMark, Digested, Chained, DistinctFingerprints, HashedAt, SameButHashes;
    ghost var t := Trues(dependencies);
    var hash;
    hash, salts' := HashOne(dependencies, a, salts, sha, |assertions|);
    SameSnoc(t, assertions, hash);
    if DistinctFingerprints(t) && Chained(t, assertions, after, sha)
      && after == (if assertions == [] then SaltsWithMark(a.pkg, salts) else salts)
    {
      ChainedSnoc(t, assertions, after, sha, hash);
    }
    assertions' := assertions + [a.(hash := hash)];
  }

  method HashAll(dependencies: seq<Assertion>, salts0: Salts, sha: Digest) returns (assertions: seq<Assertion>)
    ensures |assertions| == |Trues(dependencies)| && SameButHashes(Trues(dependencies), assertions)
    ensures DistinctFingerprints(Trues(dependencies)) ==>
      Chained(Trues(dependencies), assertions, SaltsAfterFirst(Trues(dependencies), salts0), sha)
  {
    ghost var t := Trues(dependencies);
    ghost var after := SaltsAfterFirst(t, salts0);
    assert t != [] ==> after == SaltsWithMark(t[0].pkg, salts0);
    assert Trues(dependencies[..0]) == [] && Chained(t, [], after, sha) && SameButHashes(t, []);
    hide Trues, Lines, SpecSalts, SaltsWithMark, SaltsAfterFirst, Digested;
    hide Chained, DistinctFingerprints, SameButHashes;
    var salts := salts0;
    assertions := [];
    for i := 0 to |dependencies|
      invariant |assertions| == |Trues(dependencies[..i])| && SameButHashes(t, assertions)
      invariant DistinctFingerprints(t) ==> salts == if |assertions| == 0 then salts0 else after
      invariant DistinctFingerprints(t) ==> Chained(t, assertions, after, sha)
    {
      TruesStep(dependencies, i);
      if dependencies[i].value {
        assertions, salts := HashNext(dependencies, dependencies[i], assertions, salts, sha, after);
      }
    }
    assert dependencies[..|dependencies|] == dependencies;
  }

  /** Hashes every installed package of a solution. */
  method Resolve(dependencies: seq<Assertion>, specHash: BuildPackage -> Result<string>, sha: Digest)
    returns (r: Result<seq<Assertion>>)
    ensures r.Err? <==> exists a | a in Trues(dependencies) :: specHash(a.pkg).Err?
    ensures r.Ok? ==> |r.value| == |Trues(dependencies)| && SameButHashes(Trues(dependencies), r.value)
    ensures r.Ok? && DistinctFingerprints(Trues(dependencies)) ==>
      Chained(Trues(dependencies), r.value, FinalSalts(Trues(dependencies), specHash), sha)
  {
    var salts := ComputeSalts(dependencies, specHash);
    if salts.Err? { return Err(salts.message); }
    var assertions := HashAll(dependencies, salts.value, sha);
    return Ok(assertions);
  }

  datatype ImageTree = ImageTree(target: Assertion, dependencies: seq<Assertion>, solution: seq<Assertion>,
                                 imageHashes: map<string, string>, sourceHash: string, builderImageHash: string)

  method Search(s: seq<Assertion>, p: BuildPackage) returns (found: seq<Assertion>)
    ensures found == [] <==> forall a | a in s && a.value :: !a.pkg.Matches(p)
    ensures found != [] ==> |found| == 1 && found[0] in s && found[0].value && found[0].pkg.Matches(p)
  {
    for i := 0 to |s|
      invariant forall j | 0 <= j < i :: !(s[j].value && s[j].pkg.Matches(p))
    {
      if s[i].value && s[i].pkg.Matches(p) {
        return [s[i]];
      }
    }
    return [];
  }

  /** The image tag a dependency is built from. */
  function ImageTag(a: Assertion, hasImage: bool, target: Assertion, tag: (BuildPackage, string) -> string): string {
    if hasImage then a.hash.buildHash else tag(a.pkg, target.hash.packageHash)
  }

  /** The image tags by fingerprint; of two dependencies with one fingerprint the last counts. */
  function Tags(ds: seq<Assertion>, target: Assertion, spec: BuildPackage -> Result<bool>,
                tag: (BuildPackage, string) -> string): map<string, string> {
    if ds == [] then map[]
    else
      var d, before := ds[|ds| - 1], Tags(ds[..|ds| - 1], target, spec, tag);
      if spec(d.pkg).Ok? then before[d.pkg.GetFingerPrint() := ImageTag(d, spec(d.pkg).value, target, tag)] else before
  }

  /** The map has an entry under the fingerprint of `d`: the image it was built on, if its specification
      names an image, and otherwise the tag for it under the hash of the target. */
  ghost predicate TagIs(d: Assertion, tags: map<string, string>, target: Assertion,
                        spec: BuildPackage -> Result<bool>, tag: (BuildPackage, string) -> string) {
    var fp := d.pkg.name + "-" + d.pkg.category + "-" + d.pkg.version;
    && fp in tags && spec(d.pkg).Ok?
    && tags[fp] == if spec(d.pkg).value then d.hash.buildHash else tag(d.pkg, target.hash.packageHash)
  }

  lemma {:induction false} TagOf(ds: seq<Assertion>, target: Assertion, spec: BuildPackage -> Result<bool>,
                                 tag: (BuildPackage, string) -> string, i: nat)
    requires i < |ds| && DistinctFingerprints(ds) && spec(ds[i].pkg).Ok?
    ensures TagIs(ds[i], Tags(ds, target, spec, tag), target, spec, tag)
  {
    if i < |ds| - 1 {
      TagOf(ds[..|ds| - 1], target, spec, tag, i);
      assert !Alike(ds[i].pkg, ds[|ds| - 1].pkg);
    }
  }

  method DependencyTags(ds: seq<Assertion>, target: Assertion, spec: BuildPackage -> Result<bool>,
                        tag: (BuildPackage, string) -> string)
    returns (r: Result<map<string, string>>, sourceHash: string)
    ensures r.Err? <==> exists a | a in ds :: spec(a.pkg).Err?
    ensures r.Ok? ==> r.value == Tags(ds, target, spec, tag)
    ensures r.Ok? ==> sourceHash == if ds == [] then "" else ds[|ds| - 1].hash.packageHash
  {
    sourceHash := "";
    var imageHashes: map<string, string> := map[];
    for i := 0 to |ds|
      invariant sourceHash == if i == 0 then "" else ds[i - 1].hash.packageHash
      invariant imageHashes == Tags(ds[..i], target, spec, tag)
      invariant forall j | 0 <= j < i :: spec(ds[j].pkg).Ok?
    {
      var a := ds[i];
      var compileSpec := spec(a.pkg);
      if compileSpec.Err? { return Err(compileSpec.message), sourceHash; }
      assert ds[..i + 1][..i] == ds[..i];
      var depbuildImageTag := if compileSpec.value then a.hash.buildHash else tag(a.pkg, target.hash.packageHash);
      imageHashes := imageHashes[a.pkg.GetFingerPrint() := depbuildImageTag];
      sourceHash := a.hash.packageHash;
    }
    assert ds[..|ds|] == ds;
    return Ok(imageHashes), sourceHash;
  }

  // ----- the hashes, told by the packages -----

  /** The salt of the j-th package is the hash of its own specification. A package whose fingerprint is
      that of the first one's marked name has the salt of the first. */
  function UsedSalt(t: seq<Assertion>, j: nat, specHash: BuildPackage -> Result<string>): string
    requires j < |t| && forall a | a in t :: specHash(a.pkg).Ok?
  {
    var first, p := t[0].pkg, t[j].pkg;
    if p.name + "-" + p.category + "-" + p.version == "@@" + first.name + "-" + first.category + "-" + first.version
    then specHash(first).value else specHash(p).value
  }

  function SpecLine(p: BuildPackage, name: string, salt: string): string {
    p.category + "/" + name + " " + p.version + " installed" + salt + "\n"
  }

  /** One line for each of the first `n` packages. */
  function Text(t: seq<Assertion>, n: nat, specHash: BuildPackage -> Result<string>): string
    requires n <= |t| && forall a | a in t :: specHash(a.pkg).Ok?
  {
    if n == 0 then ""
    else Text(t, n - 1, specHash) + SpecLine(t[n - 1].pkg, t[n - 1].pkg.name, UsedSalt(t, n - 1, specHash))
  }

  lemma UsedSaltIs(t: seq<Assertion>, j: nat, specHash: BuildPackage -> Result<string>)
    requires j < |t| && DistinctFingerprints(t) && forall a | a in t :: specHash(a.pkg).Ok?
    ensures Salt(t[j].pkg, FinalSalts(t, specHash)) == UsedSalt(t, j, specHash)
    ensures Salt(MarkedAlone(t[0]).pkg, FinalSalts(t, specHash)) == specHash(t[0].pkg).value
  {
    SaltOf(t, specHash, 0);
    SaltOf(t, specHash, j);
    var first, p := t[0].pkg, t[j].pkg;
    assert first.Mark().GetFingerPrint() == "@@" + first.name + "-" + first.category + "-" + first.version;
  }

  lemma LineIs(a: Assertion, salts: Salts)
    requires a.value
    ensures Line(a, salts) + "\n" == SpecLine(a.pkg, a.pkg.name, Salt(a.pkg, salts))
  {
    hide Salt;
    assert a.ToString() == a.pkg.category + "/" + a.pkg.name + " " + a.pkg.version + " installed";
  }

  lemma {:induction false} TextIs(t: seq<Assertion>, n: nat, specHash: BuildPackage -> Result<string>)
    requires n <= |t| && DistinctFingerprints(t) && forall a | a in t :: specHash(a.pkg).Ok? && a.value
    ensures Joined(Lines(t[..n], FinalSalts(t, specHash))) == Text(t, n, specHash)
  {
    hide Line, SpecLine, Salt, FinalSalts, UsedSalt, DistinctFingerprints;
    if n > 0 {
      var salts, a := FinalSalts(t, specHash), t[n - 1];
      assert t[..n][..n - 1] == t[..n - 1] && a in t;
      TextIs(t, n - 1, specHash);
      JoinedSnoc(Lines(t[..n - 1], salts), Line(a, salts));
      UsedSaltIs(t, n - 1, specHash);
      LineIs(a, salts);
      var before := Joined(Lines(t[..n - 1], salts));
      assert before + Line(a, salts) + "\n" == before + (Line(a, salts) + "\n");
    }
  }

  /** The two hashes of each package, told by names, versions and specifications only. */
  ghost predicate HashesAre(t: seq<Assertion>, hashed: seq<Assertion>, specHash: BuildPackage -> Result<string>,
                            sha: Digest)
    requires forall a | a in t :: specHash(a.pkg).Ok?
  {
    && |hashed| == |t|
    && forall i | 0 <= i < |t| ::
      && hashed[i].pkg == t[i].pkg && hashed[i].value
      && hashed[i].hash.packageHash == sha(Text(t, i + 1, specHash))
      && hashed[i].hash.buildHash ==
           if i > 0 then sha(Text(t, i, specHash))
           else sha(SpecLine(t[0].pkg, "@@" + t[0].pkg.name, specHash(t[0].pkg).value))
  }

  lemma MarkedTextIs(t: seq<Assertion>, specHash: BuildPackage -> Result<string>)
    requires t != [] && DistinctFingerprints(t) && forall a | a in t :: specHash(a.pkg).Ok? && a.value
    ensures Joined(Lines([MarkedAlone(t[0])], FinalSalts(t, specHash))) ==
      SpecLine(t[0].pkg, "@@" + t[0].pkg.name, specHash(t[0].pkg).value)
  {
    var m, salts := MarkedAlone(t[0]), FinalSalts(t, specHash);
    UsedSaltIs(t, 0, specHash);
    assert t[0] in t && m.pkg.name == "@@" + t[0].pkg.name;
    hide FinalSalts, Salt, Line, SpecLine, UsedSalt, BuildPackage.Mark;
    LineIs(m, salts);
    assert [m][..0] == [] && Lines([m], salts) == [] + [Line(m, salts)];
    JoinedSnoc([], Line(m, salts));
    assert Joined([]) == "";
    assert Joined(Lines([m], salts)) == Line(m, salts) + "\n";
    assert SpecLine(m.pkg, m.pkg.name, Salt(m.pkg, salts)) == SpecLine(t[0].pkg, m.pkg.name, Salt(m.pkg, salts));
  }

  lemma ChainMeans(t: seq<Assertion>, hashed: seq<Assertion>, specHash: BuildPackage -> Result<string>, sha: Digest)
    requires DistinctFingerprints(t) && forall a | a in t :: specHash(a.pkg).Ok? && a.value
    requires |hashed| == |t| && Chained(t, hashed, FinalSalts(t, specHash), sha)
    ensures HashesAre(t, hashed, specHash, sha)
  {
    hide FinalSalts, Lines, SpecLine, Text, DistinctFingerprints;
    forall i | 0 <= i < |t|
      ensures hashed[i].hash.packageHash == sha(Text(t, i + 1, specHash))
      ensures i > 0 ==> hashed[i].hash.buildHash == sha(Text(t, i, specHash))
    {
      TextIs(t, i + 1, specHash);
      TextIs(t, i, specHash);
    }
    if t != [] {
      MarkedTextIs(t, specHash);
    }
    assert forall i | 0 <= i < |t| :: t[i] in t;
  }

  /** The package is installed, and the build specifications are readable. */
  ghost predicate Answerable(t: seq<Assertion>, p: BuildPackage, specHash: BuildPackage -> Result<string>,
                             spec: BuildPackage -> Result<bool>) {
    && (exists a | a in t :: Alike(a.pkg, p))
    && forall a | a in t :: specHash(a.pkg).Ok? && (Alike(a.pkg, p) || spec(a.pkg).Ok?)
  }

  /** Hashing changes nothing but the hashes. */
  lemma SamePackages(t: seq<Assertion>, hashed: seq<Assertion>)
    requires SameButHashes(t, hashed) && |hashed| == |t| && forall a | a in t :: a.value
    ensures forall a | a in hashed :: a.value && exists b :: b in t && b.pkg == a.pkg
    ensures forall b | b in t :: exists a :: a in hashed && a.pkg == b.pkg
  {
    assert forall i | 0 <= i < |t| :: hashed[i].pkg == t[i].pkg && hashed[i].value == t[i].value;
    forall b | b in t ensures exists a :: a in hashed && a.pkg == b.pkg {
      var i :| 0 <= i < |t| && t[i] == b;
      assert hashed[i] in hashed;
    }
  }

  lemma AnswerableMeans(t: seq<Assertion>, hashed: seq<Assertion>, p: BuildPackage,
                        specHash: BuildPackage -> Result<string>, spec: BuildPackage -> Result<bool>)
    requires SameButHashes(t, hashed) && |hashed| == |t| && forall a | a in t :: a.value
    requires forall a | a in t :: specHash(a.pkg).Ok?
    ensures Answerable(t, p, specHash, spec) <==>
      && (exists a :: a in hashed && a.value && a.pkg.Matches(p))
      && (forall a | a in Dropped(hashed, p) :: spec(a.pkg).Ok?)
  {
    MatchesMeans();
    hide SameButHashes, BuildPackage.Matches, Dropped, Alike;
    SamePackages(t, hashed);
    DroppedAre(hashed, p);
  }

  /** The answer for the i-th of the installed packages `t`, told without the lists and texts that the
      computation goes through. */
  ghost predicate Describes(tree: ImageTree, t: seq<Assertion>, i: nat, p: BuildPackage,
                            specHash: BuildPackage -> Result<string>, spec: BuildPackage -> Result<bool>,
                            tag: (BuildPackage, string) -> string, sha: Digest)
    requires forall a | a in t :: specHash(a.pkg).Ok?
  {
    && i < |t| && Alike(t[i].pkg, p)
    && HashesAre(t, tree.solution, specHash, sha)
    && tree.target == tree.solution[i]
    && tree.dependencies == tree.solution[..i] + tree.solution[i + 1..]
    && (forall d | d in tree.dependencies :: TagIs(d, tree.imageHashes, tree.target, spec, tag))
    && tree.builderImageHash == tag(p, tree.target.hash.packageHash)
  }

  lemma TagsOfRest(s: seq<Assertion>, i: nat, target: Assertion, spec: BuildPackage -> Result<bool>,
                   tag: (BuildPackage, string) -> string)
    requires i < |s| && DistinctFingerprints(s)
    requires forall a | a in s :: Alike(a.pkg, s[i].pkg) || spec(a.pkg).Ok?
    ensures var ds := s[..i] + s[i + 1..];
      forall d | d in ds :: TagIs(d, Tags(ds, target, spec, tag), target, spec, tag)
  {
    var ds := s[..i] + s[i + 1..];
    assert forall j | 0 <= j < |ds| :: ds[j] == s[if j < i then j else j + 1];
    hide Alike, TagIs, Tags;
    assert DistinctFingerprints(ds);
    forall d | d in ds ensures TagIs(d, Tags(ds, target, spec, tag), target, spec, tag) {
      var j :| 0 <= j < |ds| && ds[j] == d;
      var k := if j < i then j else j + 1;
      assert ds[j] == s[k] && s[k] in s && !Alike(s[k].pkg, s[i].pkg) by { AlikeCommutes(s[k].pkg, s[i].pkg); }
      TagOf(ds, target, spec, tag, j);
    }
  }

  lemma AlikeCommutes(p: BuildPackage, q: BuildPackage)
    ensures Alike(p, q) == Alike(q, p)
  {
  }

  lemma AnswerDescribes(tree: ImageTree, t: seq<Assertion>, p: BuildPackage,
                        specHash: BuildPackage -> Result<string>, spec: BuildPackage -> Result<bool>,
                        tag: (BuildPackage, string) -> string, sha: Digest)
    requires Answerable(t, p, specHash, spec) && DistinctFingerprints(t) && forall a | a in t :: a.value
    requires |tree.solution| == |t| && Chained(t, tree.solution, FinalSalts(t, specHash), sha)
    requires tree.target in tree.solution && Alike(tree.target.pkg, p)
    requires tree.dependencies == Dropped(tree.solution, p)
    requires tree.imageHashes == Tags(tree.dependencies, tree.target, spec, tag)
    requires tree.builderImageHash == tag(p, tree.target.hash.packageHash)
    ensures exists i: nat :: Describes(tree, t, i, p, specHash, spec, tag, sha)
  {
    var s, ds := tree.solution, tree.dependencies;
    ChainMeans(t, s, specHash, sha);
    assert forall i | 0 <= i < |t| :: s[i].pkg == t[i].pkg && t[i] in t;
    hide Chained, FinalSalts, HashesAre, Tags, TagIs, Dropped;
    var i :| 0 <= i < |s| && s[i] == tree.target;
    assert DistinctFingerprints(s);
    OneDropped(s, p, i);
    forall a | a in s ensures Alike(a.pkg, s[i].pkg) || spec(a.pkg).Ok? {
      var j :| 0 <= j < |s| && s[j] == a;
      assert t[j] in t;
    }
    hide DistinctFingerprints, Alike;
    TagsOfRest(s, i, tree.target, spec, tag);
    assert Describes(tree, t, i, p, specHash, spec, tag, sha);
  }

  /** `spec` tells whether the build specification of a package names its own image. Asking for a
      package that the solution does not install dereferences nil in the source: a failure here. */
  method Query(dependencies: seq<Assertion>, p: BuildPackage, specHash: BuildPackage -> Result<string>,
               spec: BuildPackage -> Result<bool>, tag: (BuildPackage, string) -> string, sha: Digest)
    returns (r: Result<ImageTree>)
    ensures r.Ok? <==> Answerable(Trues(dependencies), p, specHash, spec)
    ensures r.Ok? ==>
      |r.value.solution| == |Trues(dependencies)| && SameButHashes(Trues(dependencies), r.value.solution)
    ensures r.Ok? && DistinctFingerprints(Trues(dependencies)) ==>
      Chained(Trues(dependencies), r.value.solution, FinalSalts(Trues(dependencies), specHash), sha)
    ensures r.Ok? ==> r.value.target in r.value.solution && r.value.target.pkg.Matches(p)
    ensures r.Ok? ==> r.value.dependencies == Dropped(r.value.solution, p)
    ensures r.Ok? ==> r.value.builderImageHash == tag(p, r.value.target.hash.packageHash)
    ensures r.Ok? ==> var ds := r.value.dependencies;
      r.value.sourceHash == if ds == [] then "" else ds[|ds| - 1].hash.packageHash
    ensures r.Ok? ==> r.value.imageHashes == Tags(r.value.dependencies, r.value.target, spec, tag)
    ensures r.Ok? && DistinctFingerprints(Trues(dependencies)) ==>
      exists i: nat :: Describes(r.value, Trues(dependencies), i, p, specHash, spec, tag, sha)
  {
    ghost var t := Trues(dependencies);
    MatchesMeans();
    hide Chained, Trues, Dropped, FinalSalts, BuildPackage.Matches, Tags, SameButHashes;
    var resolved := Resolve(dependencies, specHash, sha);
    if resolved.Err? { return Err(resolved.message); }
    var assertions := resolved.value;
    AnswerableMeans(Trues(dependencies), assertions, p, specHash, spec);
    hide Answerable;
    var found := Search(assertions, p);
    if found == [] { return Err("nil pointer dereference"); }
    var target := found[0];
    var ds := Drop(assertions, p);
    var tags, sourceHash := DependencyTags(ds, target, spec, tag);
    if tags.Err? { return Err(tags.message); }
    var tree := ImageTree(target, ds, assertions, tags.value, sourceHash, tag(p, target.hash.packageHash));
    hide Alike, DistinctFingerprints;
    if DistinctFingerprints(t) {
      AnswerDescribes(tree, t, p, specHash, spec, tag, sha);
    }
    return Ok(tree);
  }

  lemma {:induction false} DroppedAre(s: seq<Assertion>, p: BuildPackage)
    ensures forall a :: a in Dropped(s, p) <==> a in s && !a.pkg.Matches(p)
  {
    if s != [] {
      DroppedAre(s[..|s| - 1], p);
      assert s == s[..|s| - 1] + [s[|s| - 1]];
    }
  }

  /** Only the package that is asked for is dropped, and the others keep their order. */
  lemma {:induction false} OneDropped(s: seq<Assertion>, p: BuildPackage, i: nat)
    requires i < |s| && Alike(s[i].pkg, p) && DistinctFingerprints(s)
    ensures Dropped(s, p) == s[..i] + s[i + 1..]
  {
    var last := |s| - 1;
    if i == last {
      assert s[..last + 1] == s;
      DropLast(s, i);
      DropMatching(s, s[i].pkg, p);
    } else {
      OneDropped(s[..last], p, i);
      assert !Alike(s[i].pkg, s[last].pkg);
      assert s[..last][..i] == s[..i] && s[i + 1..] == s[..last][i + 1..] + [s[last]];
    }
  }

  // ----- the source image of a build -----

  /** A longer list of installed packages has a longer text. */
  lemma TextGrows(t: seq<Assertion>, i: nat, salts: Salts)
    requires i < |t| && forall a | a in t :: a.value
    ensures |Joined(Lines(t, salts))| >= |Joined(Lines(t[..i], salts))| + |Line(t[|t| - 1], salts)| + 1
    decreases |t|
  {
    var before, last := t[..|t| - 1], t[|t| - 1];
    assert last in t && forall a | a in before :: a in t;
    JoinedSnoc(Lines(before, salts), Line(last, salts));
    if i < |before| {
      assert before[..i] == t[..i];
      TextGrows(before, i, salts);
    } else {
      assert t[..i] == before;
    }
  }

  /** The texts that are hashed for a solution. */
  ghost predicate IsText(t: seq<Assertion>, salts: Salts, x: string) {
    || (exists k :: 0 <= k <= |t| && x == Joined(Lines(t[..k], salts)))
    || (t != [] && x == Joined(Lines([MarkedAlone(t[0])], salts)))
  }

  /** The digest tells the texts of the solution apart. */
  ghost predicate TellsApart(sha: Digest, t: seq<Assertion>, salts: Salts) {
    forall x, y | IsText(t, salts, x) && IsText(t, salts, y) && sha(x) == sha(y) :: x == y
  }

  lemma MarkedText(a: Assertion, salts: Salts)
    requires a.value && Salt(a.pkg.Mark(), salts) == Salt(a.pkg, salts)
    ensures |Joined(Lines([MarkedAlone(a)], salts))| == |Line(a, salts)| + 3
  {
    var m := MarkedAlone(a);
    assert [m][..0] == [] && Lines([m], salts) == [] + [Line(m, salts)];
    JoinedSnoc([], Line(m, salts));
    assert Joined([]) == "";
  }

  lemma FirstText(t: seq<Assertion>, salts: Salts)
    requires |t| > 1 && forall a | a in t :: a.value
    ensures |Joined(Lines(t, salts))| > |Line(t[0], salts)| + 3
  {
    assert t[0] in t && t[|t| - 1] in t;
    TextGrows(t, 1, salts);
    assert t[..1][..0] == [] && t[..1][0] == t[0];
    assert Lines(t[..1], salts) == [] + [Line(t[0], salts)];
    JoinedSnoc([], Line(t[0], salts));
    assert |Line(t[|t| - 1], salts)| >= |"/"| + |" "| + |" "| + |"installed"|;
  }

  lemma BuiltOnLast(t: seq<Assertion>, s: seq<Assertion>, p: BuildPackage, salts: Salts, sha: Digest)
    requires DistinctFingerprints(s) && Chained(t, s, salts, sha)
    requires |s| > 1 && s[|s| - 1].pkg.Matches(p)
    ensures Dropped(s, p) == s[..|s| - 1]
    ensures s[|s| - 2].hash.packageHash == s[|s| - 1].hash.buildHash
  {
    var n := |s| - 1;
    assert s[..n + 1] == s;
    DropLast(s, n);
    DropMatching(s, s[n].pkg, p);
    BuiltOnPredecessor(t, s, salts, sha, n);
  }

  lemma BuiltOnEarlier(t: seq<Assertion>, s: seq<Assertion>, i: nat, salts: Salts, sha: Digest)
    requires Chained(t, s, salts, sha) && TellsApart(sha, t, salts)
    requires |s| == |t| && i < |t| - 1 && forall a | a in t :: a.value
    requires Salt(t[0].pkg.Mark(), salts) == Salt(t[0].pkg, salts)
    ensures s[|s| - 1].hash.packageHash != s[i].hash.buildHash
  {
    hide Lines, Line, Joined;
    var n := |t|;
    assert t[..n - 1 + 1] == t[..n] == t && t[0] in t;
    var x, y := Joined(Lines(t[..n], salts)), Joined(Lines(if i == 0 then [MarkedAlone(t[0])] else t[..i], salts));
    assert IsText(t, salts, x) && IsText(t, salts, y);
    if i == 0 {
      MarkedText(t[0], salts);
      FirstText(t, salts);
    } else {
      TextGrows(t, i, salts);
    }
  }

  /** When the target closes the solution, it is built from the image that its last dependency
      produced. */
  lemma SourceIsBuildImage(t: seq<Assertion>, tree: ImageTree, p: BuildPackage, salts: Salts, sha: Digest)
    requires DistinctFingerprints(tree.solution) && Chained(t, tree.solution, salts, sha)
    requires |tree.solution| == |t| > 1 && t[|t| - 1].pkg.Matches(p)
    requires tree.target in tree.solution && tree.target.pkg.Matches(p)
    requires tree.dependencies == Dropped(tree.solution, p)
    requires var ds := tree.dependencies; ds != [] ==> tree.sourceHash == ds[|ds| - 1].hash.packageHash
    ensures tree.sourceHash == tree.target.hash.buildHash
  {
    hide BuildPackage.Matches, Dropped;
    var s, n := tree.solution, |t| - 1;
    SamePackage(t, s, salts, sha, n);
    var i :| 0 <= i <= n && s[i] == tree.target;
    hide Chained;
    BuiltOnLast(t, s, p, salts, sha);
    MatchesOnce(s, p, i, n);
  }

  /** A target that does not close the solution is built from another image than the one its last
      dependency produced, provided the digest tells the texts of this solution apart. */
  lemma SourceIsOtherImage(t: seq<Assertion>, tree: ImageTree, p: BuildPackage, salts: Salts, sha: Digest)
    requires Chained(t, tree.solution, salts, sha)
    requires |tree.solution| == |t| > 1 && !t[|t| - 1].pkg.Matches(p)
    requires tree.target in tree.solution && tree.target.pkg.Matches(p)
    requires tree.dependencies == Dropped(tree.solution, p)
    requires var ds := tree.dependencies; ds != [] ==> tree.sourceHash == ds[|ds| - 1].hash.packageHash
    requires TellsApart(sha, t, salts) && forall a | a in t :: a.value
    requires Salt(t[0].pkg.Mark(), salts) == Salt(t[0].pkg, salts)
    ensures tree.sourceHash != tree.target.hash.buildHash
  {
    hide BuildPackage.Matches, Dropped, TellsApart, Salt;
    var s, n := tree.solution, |t| - 1;
    SamePackage(t, s, salts, sha, n);
    var i :| 0 <= i <= n && s[i] == tree.target;
    hide Chained;
    assert i != n;
    DropKeepsLast(s, p);
    BuiltOnEarlier(t, s, i, salts, sha);
  }

  /** The marked name inherits the salt of the first package. */
  lemma MarkInheritsSalt(t: seq<Assertion>, specHash: BuildPackage -> Result<string>)
    requires t != [] && DistinctFingerprints(t) && specHash(t[0].pkg).Ok?
    ensures Salt(t[0].pkg.Mark(), FinalSalts(t, specHash)) == Salt(t[0].pkg, FinalSalts(t, specHash))
  {
    SaltOf(t, specHash, 0);
    assert |t[0].pkg.Mark().GetFingerPrint()| == |t[0].pkg.GetFingerPrint()| + 2;
  }

  lemma DropKeepsLast(s: seq<Assertion>, p: BuildPackage)
    requires s != [] && !s[|s| - 1].pkg.Matches(p)
    ensures Dropped(s, p) != [] && Dropped(s, p)[|Dropped(s, p)| - 1] == s[|s| - 1]
  {
  }

  lemma SamePackage(t: seq<Assertion>, s: seq<Assertion>, salts: Salts, sha: Digest, i: nat)
    requires Chained(t, s, salts, sha) && i < |s|
    ensures s[i].pkg == t[i].pkg
  {
  }

  lemma MatchesOnce(s: seq<Assertion>, p: BuildPackage, i: nat, j: nat)
    requires DistinctFingerprints(s) && i <= j < |s| && s[i].pkg.Matches(p) && s[j].pkg.Matches(p)
    ensures i == j
  {
    assert s[i].pkg.Matches(s[j].pkg);
  }

  lemma {:induction false} DropMatching(s: seq<Assertion>, p: BuildPackage, q: BuildPackage)
    requires p.Matches(q)
    ensures Dropped(s, p) == Dropped(s, q)
  {
    if s != [] { DropMatching(s[..|s| - 1], p, q); }
  }
}
