/** The file-conflict gate before an install or an upgrade, and the ownership of files that the
    package database records (pkg/v2/installer/manager.go).
 */
module FileConflicts {
  import opened Packages

  type Path = string

  /** A package is identified by its fingerprint. */
  type Fingerprint = string

  datatype FileArtifact = FileArtifact(pkg: Fingerprint, files: seq<Path>)

  /** The installed packages and the file lists registered for them. */
  datatype Db = Db(packages: set<Fingerprint>, files: map<Fingerprint, seq<Path>>) {
    function FilesOf(p: Fingerprint): seq<Path> {
      if p in files then files[p] else []
    }

    predicate Owns(p: Fingerprint, f: Path) {
      p in packages && p in files && f in files[p]
    }

    ghost predicate SingleOwner() {
      forall p, q, f | Owns(p, f) && Owns(q, f) :: p == q
    }

    ghost predicate AllOnDisk(disk: set<Path>) {
      forall p, f | Owns(p, f) :: f in disk
    }

    function Register(a: FileArtifact): Db {
      Db(packages + {a.pkg}, files[a.pkg := a.files])
    }

    function Remove(p: Fingerprint): Db {
      Db(packages - {p}, files - {p})
    }
  }

  // ----- what the gate looks for -----

  function Entries(a: FileArtifact): (r: seq<(Path, Fingerprint)>)
    ensures |r| == |a.files| && forall i | 0 <= i < |r| :: r[i] == (a.files[i], a.pkg)
  {
    seq(|a.files|, i requires 0 <= i < |a.files| => (a.files[i], a.pkg))
  }

  /** Every path to install with its package, in the order the lists give them. */
  function Listing(toInstall: seq<FileArtifact>): seq<(Path, Fingerprint)> {
    if toInstall == [] then []
    else Listing(toInstall[..|toInstall| - 1]) + Entries(toInstall[|toInstall| - 1])
  }

  /** The k-th path repeats an earlier one or is blocked by the system. */
  ghost predicate Clash(l: seq<(Path, Fingerprint)>, k: nat, blocked: set<Path>)
    requires k < |l|
  {
    l[k].0 in blocked || exists j :: 0 <= j < k && l[j].0 == l[k].0
  }

  ghost predicate ClashFree(l: seq<(Path, Fingerprint)>, blocked: set<Path>) {
    forall k | 0 <= k < |l| :: !Clash(l, k, blocked)
  }

  /** The files of a package to remove: the artefact's own list or, when that is empty, the registered one. */
  function FreedBy(db: Db, r: FileArtifact): seq<Path> {
    if r.files != [] then r.files else db.FilesOf(r.pkg)
  }

  ghost predicate Frees(db: Db, toRemove: seq<FileArtifact>, f: Path) {
    exists r :: r in toRemove && f in FreedBy(db, r)
  }

  datatype Index = NoIndex | Index(owners: map<Path, Fingerprint>)

  ghost predicate IsIndexOf(owners: map<Path, Fingerprint>, db: Db) {
    && (forall f | f in owners :: db.Owns(owners[f], f))
    && (forall p, f | db.Owns(p, f) :: f in owners)
  }

  /** The paths the gate believes to be owned: a retained index is used as it is. */
  ghost predicate Known(index: Index, db: Db, f: Path) {
    if index.NoIndex? then exists p :: db.Owns(p, f) else f in index.owners
  }

  ghost predicate IsBlocked(blocked: set<Path>, index: Index, db: Db, toRemove: seq<FileArtifact>, checkSystem: bool,
                            disk: set<Path>) {
    forall f :: f in blocked <==> checkSystem && f in disk && !Frees(db, toRemove, f) && Known(index, db, f)
  }

  datatype Conflict =
    | Between(path: Path, first: Fingerprint, newcomer: Fingerprint)
    | Owned(path: Path, owner: Fingerprint, newcomer: Fingerprint)

  datatype Verdict = Pass(conflictsIgnored: bool) | Fail(conflict: Conflict)

  // ----- whole plans -----

  datatype Operation = Add(artifact: FileArtifact) | Drop(pkg: Fingerprint)

  function Apply(db: Db, op: Operation): Db {
    match op
    case Add(a) => db.Register(a)
    case Drop(p) => db.Remove(p)
  }

  function Run(db: Db, ops: seq<Operation>): Db {
    if ops == [] then db else Apply(Run(db, ops[..|ops| - 1]), ops[|ops| - 1])
  }

  /** After a run a package is either as its last installation left it, or untouched. */
  lemma {:induction false} RunLeaves(db: Db, ops: seq<Operation>, p: Fingerprint)
    requires p in Run(db, ops).packages
    ensures
      || (exists a :: Add(a) in ops && a.pkg == p && Run(db, ops).FilesOf(p) == a.files)
      || (p in db.packages && Run(db, ops).FilesOf(p) == db.FilesOf(p) && Drop(p) !in ops)
  {
    if ops != [] {
      var op, before := ops[|ops| - 1], ops[..|ops| - 1];
      if op.Add? && op.artifact.pkg == p {
        assert Add(op.artifact) in ops;
      } else {
        RunLeaves(db, before, p);
        assert forall o :: o in ops <==> o in before || o == op;
      }
    }
  }

  /** The operation adds or drops the package. */
  predicate Concerns(op: Operation, p: Fingerprint) {
    if op.Add? then op.artifact.pkg == p else op.pkg == p
  }

  ghost predicate LastConcerns(ops: seq<Operation>, p: Fingerprint, k: nat) {
    k < |ops| && Concerns(ops[k], p) && forall j | k < j < |ops| :: !Concerns(ops[j], p)
  }

  /** What the database holds for a package after a run: what the last operation on it left, an addition
      its file list, a removal nothing, not even the file list; or what was there if there was none. */
  lemma {:induction false} RunHolds(db: Db, ops: seq<Operation>, p: Fingerprint)
    ensures forall k: nat | LastConcerns(ops, p, k) :: Left(Run(db, ops), ops[k], p)
    ensures (forall k | 0 <= k < |ops| :: !Concerns(ops[k], p)) ==> Untouched(db, Run(db, ops), p)
  {
    if ops != [] {
      var op, before := ops[|ops| - 1], ops[..|ops| - 1];
      RunHolds(db, before, p);
      ApplyHolds(Run(db, before), op, p);
      hide Apply, Concerns, Left, Untouched;
      if Concerns(op, p) {
        assert forall k: nat | LastConcerns(ops, p, k) :: k == |before|;
      } else {
        forall k: nat | LastConcerns(ops, p, k) ensures LastConcerns(before, p, k) && Left(Run(db, ops), ops[k], p) {
          assert ops[k] == before[k];
          StaysLeft(Run(db, before), Run(db, ops), ops[k], p);
        }
        if forall k | 0 <= k < |ops| :: !Concerns(ops[k], p) {
          assert forall k | 0 <= k < |before| :: ops[k] == before[k];
          StaysUntouched(db, Run(db, before), Run(db, ops), p);
        }
      }
    }
  }

  /** An addition has left the package with its file list, a removal without any. */
  ghost predicate Left(db: Db, op: Operation, p: Fingerprint) {
    if op.Add? then p in db.packages && p in db.files && db.files[p] == op.artifact.files
    else p !in db.packages && p !in db.files
  }

  ghost predicate Untouched(db: Db, db': Db, p: Fingerprint) {
    && (p in db'.packages <==> p in db.packages)
    && (p in db'.files <==> p in db.files)
    && (p in db.files ==> db'.files[p] == db.files[p])
  }

  lemma ApplyHolds(db: Db, op: Operation, p: Fingerprint)
    ensures Concerns(op, p) ==> Left(Apply(db, op), op, p)
    ensures !Concerns(op, p) ==> Untouched(db, Apply(db, op), p)
  {
  }

  lemma StaysLeft(db: Db, db': Db, op: Operation, p: Fingerprint)
    requires Left(db, op, p) && Untouched(db, db', p)
    ensures Left(db', op, p)
  {
  }

  lemma StaysUntouched(a: Db, b: Db, c: Db, p: Fingerprint)
    requires Untouched(a, b, p) && Untouched(b, c, p)
    ensures Untouched(a, c, p)
  {
  }

  /** A package that no operation names stays as it is. */
  lemma {:induction false} RunKeeps(db: Db, ops: seq<Operation>, p: Fingerprint)
    requires p in db.packages
    requires forall op | op in ops :: op != Drop(p) && !(op.Add? && op.artifact.pkg == p)
    ensures p in Run(db, ops).packages && Run(db, ops).FilesOf(p) == db.FilesOf(p)
  {
    if ops != [] {
      var before := ops[..|ops| - 1];
      assert ops[|ops| - 1] in ops && forall op | op in before :: op in ops;
      RunKeeps(db, before, p);
    }
  }

  /** A package installed once and never dropped has the files of its artefact. */
  lemma {:induction false} RunAdds(db: Db, ops: seq<Operation>, a: FileArtifact)
    requires Add(a) in ops && Drop(a.pkg) !in ops
    requires forall b | Add(b) in ops && b.pkg == a.pkg :: b == a
    ensures Run(db, ops).packages >= {a.pkg} && Run(db, ops).FilesOf(a.pkg) == a.files
  {
    var op, before := ops[|ops| - 1], ops[..|ops| - 1];
    assert forall o :: o in ops <==> o in before || o == op;
    if op != Add(a) {
      RunAdds(db, before, a);
      assert op.Add? ==> Add(op.artifact) in ops;
    }
  }

  function Unpacked(disk: set<Path>, a: FileArtifact): set<Path> {
    disk + set f | f in a.files
  }

  function Deleted(disk: set<Path>, db: Db, p: Fingerprint, kept: set<Path>): set<Path> {
    disk - set f | f in db.FilesOf(p) && f !in kept
  }

  function ApplyDisk(disk: set<Path>, db: Db, op: Operation, kept: set<Path>): set<Path> {
    match op
    case Add(a) => Unpacked(disk, a)
    case Drop(p) => Deleted(disk, db, p, kept)
  }

  /** The files on the target after a run. */
  function RunDisk(disk: set<Path>, db: Db, ops: seq<Operation>, kept: set<Path>): set<Path> {
    if ops == [] then disk
    else
      var before := ops[..|ops| - 1];
      ApplyDisk(RunDisk(disk, db, before, kept), Run(db, before), ops[|ops| - 1], kept)
  }

  lemma RunNext(disk: set<Path>, db: Db, ops: seq<Operation>, op: Operation, kept: set<Path>)
    ensures Run(db, ops + [op]) == Apply(Run(db, ops), op)
    ensures RunDisk(disk, db, ops + [op], kept) == ApplyDisk(RunDisk(disk, db, ops, kept), Run(db, ops), op, kept)
  {
    assert (ops + [op])[..|ops|] == ops;
  }

  /** The operation number `j` deletes `f`. */
  ghost predicate Deletes(db: Db, ops: seq<Operation>, kept: set<Path>, j: nat, f: Path)
    requires j < |ops|
  {
    && ops[j].Drop? && f !in kept
    && ops[j].pkg in Run(db, ops[..j]).files && f in Run(db, ops[..j]).files[ops[j].pkg]
  }

  ghost predicate Unpacks(ops: seq<Operation>, j: nat, f: Path)
    requires j < |ops|
  {
    ops[j].Add? && f in ops[j].artifact.files
  }

  /** A file that is on disk at some point of a run and is not deleted later is there at the end. */
  lemma {:induction false} StaysOnDisk(disk: set<Path>, db: Db, ops: seq<Operation>, kept: set<Path>, i: nat, f: Path)
    requires i <= |ops| && f in RunDisk(disk, db, ops[..i], kept)
    requires forall j | i <= j < |ops| :: !Deletes(db, ops, kept, j, f)
    ensures f in RunDisk(disk, db, ops, kept)
    decreases |ops|
  {
    if i == |ops| {
      assert ops[..i] == ops;
    } else {
      var before := ops[..|ops| - 1];
      assert before[..i] == ops[..i];
      forall j | i <= j < |before| ensures !Deletes(db, before, kept, j, f) {
        assert before[..j] == ops[..j] && !Deletes(db, ops, kept, j, f);
      }
      StaysOnDisk(disk, db, before, kept, i, f);
      assert !Deletes(db, ops, kept, |ops| - 1, f);
    }
  }

  /** A file that is missing at some point of a run and is not unpacked later is missing at the end. */
  lemma {:induction false} StaysOffDisk(disk: set<Path>, db: Db, ops: seq<Operation>, kept: set<Path>, i: nat, f: Path)
    requires i <= |ops| && f !in RunDisk(disk, db, ops[..i], kept)
    requires forall j | i <= j < |ops| :: !Unpacks(ops, j, f)
    ensures f !in RunDisk(disk, db, ops, kept)
    decreases |ops|
  {
    if i == |ops| {
      assert ops[..i] == ops;
    } else {
      var before := ops[..|ops| - 1];
      assert before[..i] == ops[..i];
      forall j | i <= j < |before| ensures !Unpacks(before, j, f) {
        assert !Unpacks(ops, j, f);
      }
      StaysOffDisk(disk, db, before, kept, i, f);
      assert !Unpacks(ops, |ops| - 1, f);
    }
  }

  /** The file is on disk after a run exactly if the last operation that unpacks or deletes it unpacks it,
      or there is none and it was there. */
  lemma {:induction false} DiskHolds(disk: set<Path>, db: Db, ops: seq<Operation>, kept: set<Path>, f: Path)
    ensures f in RunDisk(disk, db, ops, kept) <==>
      || (exists k: nat :: k < |ops| && Unpacks(ops, k, f) && forall j | k < j < |ops| :: !Deletes(db, ops, kept, j, f))
      || (f in disk && forall j | 0 <= j < |ops| :: !Deletes(db, ops, kept, j, f))
  {
    if ops != [] {
      var before, last := ops[..|ops| - 1], |ops| - 1;
      DiskHolds(disk, db, before, kept, f);
      forall j | 0 <= j < last
        ensures Deletes(db, before, kept, j, f) <==> Deletes(db, ops, kept, j, f)
        ensures Unpacks(before, j, f) <==> Unpacks(ops, j, f)
      {
        assert before[..j] == ops[..j];
      }
      hide Run;
      if Unpacks(ops, last, f) {
        assert f in RunDisk(disk, db, ops, kept);
      } else if Deletes(db, ops, kept, last, f) {
        assert f !in RunDisk(disk, db, ops, kept);
      } else {
        assert f in RunDisk(disk, db, ops, kept) <==> f in RunDisk(disk, db, before, kept);
        if k: nat :| k < last && Unpacks(before, k, f) && forall j | k < j < last :: !Deletes(db, before, kept, j, f) {
          assert Unpacks(ops, k, f) && forall j | k < j < |ops| :: !Deletes(db, ops, kept, j, f);
        }
      }
    }
  }

  /** The entries of each artefact form a stretch of the listing. */
  lemma {:induction false} ListingHas(toInstall: seq<FileArtifact>, a: FileArtifact) returns (offset: nat)
    requires a in toInstall
    ensures offset + |a.files| <= |Listing(toInstall)|
    ensures forall i | 0 <= i < |a.files| :: Listing(toInstall)[offset + i] == (a.files[i], a.pkg)
  {
    var before, last := toInstall[..|toInstall| - 1], toInstall[|toInstall| - 1];
    if last == a {
      offset := |Listing(before)|;
    } else {
      offset := ListingHas(before, a);
    }
  }

  lemma {:induction false} ListingFrom(toInstall: seq<FileArtifact>, k: nat) returns (a: FileArtifact)
    requires k < |Listing(toInstall)|
    ensures a in toInstall && Listing(toInstall)[k].0 in a.files && Listing(toInstall)[k].1 == a.pkg
  {
    var before, last := toInstall[..|toInstall| - 1], toInstall[|toInstall| - 1];
    if k < |Listing(before)| {
      a := ListingFrom(before, k);
    } else {
      a := last;
    }
  }

  ghost predicate DistinctPackages(arts: seq<FileArtifact>) {
    forall i, j | 0 <= i < j < |arts| :: arts[i].pkg != arts[j].pkg
  }

  lemma {:induction false} ListingDistinct(toInstall: seq<FileArtifact>)
    requires DistinctPackages(toInstall) && forall a | a in toInstall :: NoDuplicates(a.files)
    ensures NoDuplicates(Listing(toInstall))
  {
    if toInstall != [] {
      var before, last := toInstall[..|toInstall| - 1], toInstall[|toInstall| - 1];
      assert last in toInstall && forall a | a in before :: a in toInstall;
      ListingDistinct(before);
      forall k | 0 <= k < |Listing(before)| ensures Listing(before)[k].1 != last.pkg {
        var a := ListingFrom(before, k);
      }
    }
  }

  // ----- the gate keeps single ownership, and refuses nothing else -----

  /** `ops` carries out the plan, in any order. */
  ghost predicate Executes(ops: seq<Operation>, toInstall: seq<FileArtifact>, toRemove: seq<FileArtifact>) {
    && (forall a :: Add(a) in ops <==> a in toInstall)
    && (forall p :: Drop(p) in ops <==> exists r :: r in toRemove && r.pkg == p)
  }

  /** What the removals claim to free is what the database has registered for them. */
  ghost predicate RemovalsAgree(db: Db, toRemove: seq<FileArtifact>) {
    forall r | r in toRemove ::
      && r.pkg in db.packages
      && (r.files != [] ==> forall f :: f in r.files <==> f in db.FilesOf(r.pkg))
  }

  lemma FreedIsRemoved(db: Db, toRemove: seq<FileArtifact>, p: Fingerprint, f: Path)
    requires db.SingleOwner() && RemovalsAgree(db, toRemove) && db.Owns(p, f)
    ensures Frees(db, toRemove, f) <==> exists r :: r in toRemove && r.pkg == p
  {
    if Frees(db, toRemove, f) {
      var r :| r in toRemove && f in FreedBy(db, r);
      assert db.Owns(r.pkg, f);
    }
    if r :| r in toRemove && r.pkg == p {
      assert f in FreedBy(db, r);
    }
  }

  lemma NoPathTwice(l: seq<(Path, Fingerprint)>, blocked: set<Path>)
    requires ClashFree(l, blocked)
    ensures forall j, k | 0 <= j < k < |l| :: l[j].0 != l[k].0
  {
    forall j, k | 0 <= j < k < |l| ensures l[j].0 != l[k].0 {
      NoClash(l, k, blocked);
    }
  }

  lemma NoClash(l: seq<(Path, Fingerprint)>, k: nat, blocked: set<Path>)
    requires ClashFree(l, blocked) && k < |l|
    ensures forall j | 0 <= j < k :: l[j].0 != l[k].0
  {
    assert !Clash(l, k, blocked);
  }

  lemma NewNew(toInstall: seq<FileArtifact>, blocked: set<Path>, a: FileArtifact, b: FileArtifact, f: Path)
    requires ClashFree(Listing(toInstall), blocked)
    requires a in toInstall && b in toInstall && f in a.files && f in b.files
    ensures a.pkg == b.pkg
  {
    var l := Listing(toInstall);
    var i := ListingHas(toInstall, a);
    var j := ListingHas(toInstall, b);
    var u :| 0 <= u < |a.files| && a.files[u] == f;
    var v :| 0 <= v < |b.files| && b.files[v] == f;
    assert l[i + u] == (f, a.pkg) && l[j + v] == (f, b.pkg);
    NoPathTwice(l, blocked);
  }

  lemma NotBlocked(toInstall: seq<FileArtifact>, blocked: set<Path>, a: FileArtifact, f: Path)
    requires ClashFree(Listing(toInstall), blocked)
    requires a in toInstall && f in a.files
    ensures f !in blocked
  {
    var i := ListingHas(toInstall, a);
    var u :| 0 <= u < |a.files| && a.files[u] == f;
    assert Listing(toInstall)[i + u] == (f, a.pkg) && !Clash(Listing(toInstall), i + u, blocked);
  }

  /** The gate sees every path to install that a package which stays already owns: the check of the
      system is on and the path is on disk. */
  ghost predicate TakenAreSeen(db: Db, toInstall: seq<FileArtifact>, toRemove: seq<FileArtifact>, checkSystem: bool,
                               disk: set<Path>) {
    forall a, f | a in toInstall && f in a.files && Known(NoIndex, db, f) && !Frees(db, toRemove, f) ::
      checkSystem && f in disk
  }

  /** A plan that passed installs no path that a package which stays owns, if the gate sees them. */
  lemma KeptIsUntouched(db: Db, toInstall: seq<FileArtifact>, toRemove: seq<FileArtifact>, ops: seq<Operation>,
                        checkSystem: bool, disk: set<Path>, blocked: set<Path>,
                        p: Fingerprint, a: FileArtifact, f: Path)
    requires db.SingleOwner() && RemovalsAgree(db, toRemove) && Executes(ops, toInstall, toRemove)
    requires IsBlocked(blocked, NoIndex, db, toRemove, checkSystem, disk)
    requires ClashFree(Listing(toInstall), blocked) && TakenAreSeen(db, toInstall, toRemove, checkSystem, disk)
    requires db.Owns(p, f) && Drop(p) !in ops && a in toInstall
    ensures f !in a.files
  {
    FreedIsRemoved(db, toRemove, p, f);
    assert Known(NoIndex, db, f);
    if f in a.files { NotBlocked(toInstall, blocked, a, f); }
  }

  lemma OwnersAgree(db: Db, toInstall: seq<FileArtifact>, toRemove: seq<FileArtifact>, ops: seq<Operation>,
                    checkSystem: bool, disk: set<Path>, blocked: set<Path>, p: Fingerprint, q: Fingerprint, f: Path)
    requires db.SingleOwner() && RemovalsAgree(db, toRemove) && Executes(ops, toInstall, toRemove)
    requires IsBlocked(blocked, NoIndex, db, toRemove, checkSystem, disk)
    requires ClashFree(Listing(toInstall), blocked) && TakenAreSeen(db, toInstall, toRemove, checkSystem, disk)
    requires Run(db, ops).Owns(p, f) && Run(db, ops).Owns(q, f)
    ensures p == q
  {
    hide ClashFree, Run;
    RunLeaves(db, ops, p);
    RunLeaves(db, ops, q);
    if a :| Add(a) in ops && a.pkg == p && f in a.files {
      if b :| Add(b) in ops && b.pkg == q && f in b.files {
        NewNew(toInstall, blocked, a, b, f);
      } else {
        KeptIsUntouched(db, toInstall, toRemove, ops, checkSystem, disk, blocked, q, a, f);
      }
    } else if b :| Add(b) in ops && b.pkg == q && f in b.files {
      KeptIsUntouched(db, toInstall, toRemove, ops, checkSystem, disk, blocked, p, b, f);
    } else {
      assert db.Owns(p, f) && db.Owns(q, f);
    }
  }

  lemma SeenKeepsSingleOwner(db: Db, toInstall: seq<FileArtifact>, toRemove: seq<FileArtifact>, ops: seq<Operation>,
                             checkSystem: bool, disk: set<Path>, blocked: set<Path>)
    requires db.SingleOwner() && RemovalsAgree(db, toRemove) && Executes(ops, toInstall, toRemove)
    requires IsBlocked(blocked, NoIndex, db, toRemove, checkSystem, disk)
    requires ClashFree(Listing(toInstall), blocked) && TakenAreSeen(db, toInstall, toRemove, checkSystem, disk)
    ensures Run(db, ops).SingleOwner()
  {
    var after := Run(db, ops);
    forall p, q, f | after.Owns(p, f) && after.Owns(q, f) ensures p == q {
      OwnersAgree(db, toInstall, toRemove, ops, checkSystem, disk, blocked, p, q, f);
    }
  }

  /** With every registered file on disk, carrying out a plan that passed leaves every file with one
      owner. */
  lemma PassKeepsSingleOwner(db: Db, toInstall: seq<FileArtifact>, toRemove: seq<FileArtifact>, ops: seq<Operation>,
                             disk: set<Path>, blocked: set<Path>)
    requires db.SingleOwner() && db.AllOnDisk(disk) && RemovalsAgree(db, toRemove)
    requires Executes(ops, toInstall, toRemove)
    requires IsBlocked(blocked, NoIndex, db, toRemove, true, disk)
    requires ClashFree(Listing(toInstall), blocked)
    ensures Run(db, ops).SingleOwner()
  {
    SeenKeepsSingleOwner(db, toInstall, toRemove, ops, true, disk, blocked);
  }

  ghost predicate AllNew(db: Db, toInstall: seq<FileArtifact>) {
    DistinctPackages(toInstall) && forall a | a in toInstall :: a.pkg !in db.packages
  }

  lemma InstalledOwner(db: Db, toInstall: seq<FileArtifact>, toRemove: seq<FileArtifact>, ops: seq<Operation>,
                       a: FileArtifact)
    requires RemovalsAgree(db, toRemove) && Executes(ops, toInstall, toRemove)
    requires AllNew(db, toInstall) && a in toInstall
    ensures a.pkg in Run(db, ops).packages && Run(db, ops).FilesOf(a.pkg) == a.files
  {
    RunAdds(db, ops, a);
  }

  /** A new package that lists an owned path which is not freed becomes its second owner. */
  lemma TakenHasTwoOwners(db: Db, toInstall: seq<FileArtifact>, toRemove: seq<FileArtifact>, ops: seq<Operation>,
                          a: FileArtifact, f: Path)
    requires db.SingleOwner() && RemovalsAgree(db, toRemove) && Executes(ops, toInstall, toRemove)
    requires AllNew(db, toInstall) && a in toInstall && f in a.files
    requires Known(NoIndex, db, f) && !Frees(db, toRemove, f)
    ensures !Run(db, ops).SingleOwner()
  {
    var p :| db.Owns(p, f);
    FreedIsRemoved(db, toRemove, p, f);
    RunKeeps(db, ops, p);
    InstalledOwner(db, toInstall, toRemove, ops, a);
    assert Run(db, ops).Owns(p, f) && Run(db, ops).Owns(a.pkg, f);
  }

  /** What a pass is worth in general: a plan of new packages that passed leaves every file with one
      owner exactly if the gate sees every owned path to install that is not freed. */
  lemma PassIsSafeIfSeen(db: Db, toInstall: seq<FileArtifact>, toRemove: seq<FileArtifact>, ops: seq<Operation>,
                         checkSystem: bool, disk: set<Path>, blocked: set<Path>)
    requires db.SingleOwner() && RemovalsAgree(db, toRemove) && Executes(ops, toInstall, toRemove)
    requires IsBlocked(blocked, NoIndex, db, toRemove, checkSystem, disk)
    requires AllNew(db, toInstall) && ClashFree(Listing(toInstall), blocked)
    ensures Run(db, ops).SingleOwner() <==> TakenAreSeen(db, toInstall, toRemove, checkSystem, disk)
  {
    if TakenAreSeen(db, toInstall, toRemove, checkSystem, disk) {
      SeenKeepsSingleOwner(db, toInstall, toRemove, ops, checkSystem, disk, blocked);
    }
    if !TakenAreSeen(db, toInstall, toRemove, checkSystem, disk) {
      var a, f :| a in toInstall && f in a.files && Known(NoIndex, db, f) && !Frees(db, toRemove, f);
      TakenHasTwoOwners(db, toInstall, toRemove, ops, a, f);
    }
  }

  /** A plan of new packages that would leave every file with one owner passes. */
  lemma SingleOwnerPasses(db: Db, toInstall: seq<FileArtifact>, toRemove: seq<FileArtifact>, ops: seq<Operation>,
                          checkSystem: bool, disk: set<Path>, blocked: set<Path>)
    requires db.SingleOwner() && RemovalsAgree(db, toRemove) && Executes(ops, toInstall, toRemove)
    requires IsBlocked(blocked, NoIndex, db, toRemove, checkSystem, disk)
    requires AllNew(db, toInstall)
    requires Run(db, ops).SingleOwner() && forall a | a in toInstall :: NoDuplicates(a.files)
    ensures ClashFree(Listing(toInstall), blocked)
  {
    var l, after := Listing(toInstall), Run(db, ops);
    ListingDistinct(toInstall);
    forall k | 0 <= k < |l| ensures !Clash(l, k, blocked) {
      var a := ListingFrom(toInstall, k);
      InstalledOwner(db, toInstall, toRemove, ops, a);
      assert after.Owns(a.pkg, l[k].0);
      if l[k].0 in blocked {
        TakenHasTwoOwners(db, toInstall, toRemove, ops, a, l[k].0);
      }
      if j :| 0 <= j < k && l[j].0 == l[k].0 {
        var b := ListingFrom(toInstall, j);
        InstalledOwner(db, toInstall, toRemove, ops, b);
        assert after.Owns(b.pkg, l[j].0);
      }
    }
  }

  lemma PassMeansNoDuplicates(toInstall: seq<FileArtifact>, blocked: set<Path>, a: FileArtifact)
    requires ClashFree(Listing(toInstall), blocked) && a in toInstall
    ensures NoDuplicates(a.files)
  {
    var i := ListingHas(toInstall, a);
    forall u, v | 0 <= u < v < |a.files| ensures a.files[u] != a.files[v] {
      NoPathTwice(Listing(toInstall), blocked);
      assert Listing(toInstall)[i + u].0 == a.files[u] && Listing(toInstall)[i + v].0 == a.files[v];
    }
  }

  /** For new packages the gate is exact: it passes when, and only when, the plan leaves every file
      with one owner and no artefact lists a file twice. */
  lemma GateIsExact(db: Db, toInstall: seq<FileArtifact>, toRemove: seq<FileArtifact>, ops: seq<Operation>,
                    disk: set<Path>, blocked: set<Path>)
    requires db.SingleOwner() && db.AllOnDisk(disk) && RemovalsAgree(db, toRemove)
    requires Executes(ops, toInstall, toRemove)
    requires IsBlocked(blocked, NoIndex, db, toRemove, true, disk)
    requires AllNew(db, toInstall)
    ensures ClashFree(Listing(toInstall), blocked)
       <==> Run(db, ops).SingleOwner() && forall a | a in toInstall :: NoDuplicates(a.files)
  {
    if ClashFree(Listing(toInstall), blocked) {
      PassKeepsSingleOwner(db, toInstall, toRemove, ops, disk, blocked);
      forall a | a in toInstall ensures NoDuplicates(a.files) { PassMeansNoDuplicates(toInstall, blocked, a); }
    } else if Run(db, ops).SingleOwner() && forall a | a in toInstall :: NoDuplicates(a.files) {
      SingleOwnerPasses(db, toInstall, toRemove, ops, true, disk, blocked);
    }
  }

  /** A registered file that is missing from the disk is not checked: the gate passes and the file
      ends up with two owners. */
  lemma MissingFileIsNotChecked()
    ensures exists db: Db, a: FileArtifact, disk: set<Path> ::
      && db.SingleOwner()
      && IsBlocked({}, NoIndex, db, [], true, disk)
      && ClashFree(Listing([a]), {})
      && !Run(db, [Add(a)]).SingleOwner()
  {
    var db, a := Db({"old"}, map["old" := ["/f"]]), FileArtifact("new", ["/f"]);
    assert Listing([a])[..] == Listing([]) + Entries(a);
    assert ClashFree(Listing([a]), {});
    assert IsBlocked({}, NoIndex, db, [], true, {});
    var after := Run(db, [Add(a)]);
    var ops := [Add(a)];
    assert ops[..|ops| - 1] == [] && Run(db, []) == db;
    assert after == db.Register(a);
    assert after.Owns("old", "/f") && after.Owns("new", "/f");
  }

  // ----- what a plan does to the files on disk -----

  /** No file that a plan installs is deleted later by the removal of the package it was taken from. */
  ghost predicate NothingDeletedLate(db: Db, ops: seq<Operation>, kept: set<Path>) {
    forall i, j, f | 0 <= i < j < |ops| && Unpacks(ops, i, f) && ops[j].Drop? && f in db.FilesOf(ops[j].pkg) ::
      f in kept
  }

  /** Until it is removed, a package has the files it had before the plan. */
  lemma DroppedFiles(db: Db, toInstall: seq<FileArtifact>, toRemove: seq<FileArtifact>, ops: seq<Operation>, j: nat)
    requires RemovalsAgree(db, toRemove) && Executes(ops, toInstall, toRemove) && AllNew(db, toInstall)
    requires NoDuplicates(ops) && j < |ops| && ops[j].Drop?
    ensures ops[j].pkg in db.packages && Run(db, ops[..j]).FilesOf(ops[j].pkg) == db.FilesOf(ops[j].pkg)
  {
    var q := ops[j].pkg;
    assert Drop(q) in ops;
    var r :| r in toRemove && r.pkg == q;
    forall op | op in ops[..j] ensures op != Drop(q) && !(op.Add? && op.artifact.pkg == q) {
      var i :| 0 <= i < j && ops[i] == op;
      if op.Add? { assert Add(op.artifact) in ops; }
    }
    RunKeeps(db, ops[..j], q);
  }

  lemma AddedStays(db: Db, toInstall: seq<FileArtifact>, toRemove: seq<FileArtifact>, ops: seq<Operation>,
                   disk: set<Path>, kept: set<Path>, i: nat, f: Path)
    requires RemovalsAgree(db, toRemove) && Executes(ops, toInstall, toRemove) && AllNew(db, toInstall)
    requires NoDuplicates(ops) && NothingDeletedLate(db, ops, kept) && i < |ops| && Unpacks(ops, i, f)
    ensures f in RunDisk(disk, db, ops, kept)
  {
    assert ops[..i + 1][..i] == ops[..i];
    forall j | i + 1 <= j < |ops| ensures !Deletes(db, ops, kept, j, f) {
      if ops[j].Drop? { DroppedFiles(db, toInstall, toRemove, ops, j); }
    }
    StaysOnDisk(disk, db, ops, kept, i + 1, f);
  }

  lemma OnlyOwner(db: Db, p: Fingerprint, q: Fingerprint, f: Path)
    requires db.SingleOwner() && db.Owns(p, f) && q in db.packages && p != q
    ensures f !in db.FilesOf(q)
  {
    assert !db.Owns(q, f);
  }

  lemma KeptStays(db: Db, toInstall: seq<FileArtifact>, toRemove: seq<FileArtifact>, ops: seq<Operation>,
                  disk: set<Path>, kept: set<Path>, p: Fingerprint, f: Path)
    requires db.SingleOwner() && db.AllOnDisk(disk) && db.Owns(p, f) && Drop(p) !in ops
    requires RemovalsAgree(db, toRemove) && Executes(ops, toInstall, toRemove)
    requires AllNew(db, toInstall) && NoDuplicates(ops)
    ensures f in RunDisk(disk, db, ops, kept)
  {
    assert ops[..0] == [];
    forall j | 0 <= j < |ops| ensures !Deletes(db, ops, kept, j, f) {
      if ops[j].Drop? {
        assert ops[j] in ops;
        DroppedFiles(db, toInstall, toRemove, ops, j);
        OnlyOwner(db, p, ops[j].pkg, f);
      }
    }
    StaysOnDisk(disk, db, ops, kept, 0, f);
  }

  lemma DeletedLateIsGone(db: Db, toInstall: seq<FileArtifact>, toRemove: seq<FileArtifact>, ops: seq<Operation>,
                          disk: set<Path>, kept: set<Path>, blocked: set<Path>, i: nat, j: nat, f: Path)
    requires RemovalsAgree(db, toRemove) && Executes(ops, toInstall, toRemove) && AllNew(db, toInstall)
    requires NoDuplicates(ops) && ClashFree(Listing(toInstall), blocked)
    requires i < j < |ops| && Unpacks(ops, i, f) && ops[j].Drop? && f in db.FilesOf(ops[j].pkg) && f !in kept
    ensures !Run(db, ops).AllOnDisk(RunDisk(disk, db, ops, kept))
  {
    hide ClashFree;
    var a := ops[i].artifact;
    assert ops[i] in ops && a in toInstall;
    DroppedFiles(db, toInstall, toRemove, ops, j);
    assert ops[..j + 1][..j] == ops[..j];
    forall k | j + 1 <= k < |ops| ensures !Unpacks(ops, k, f) {
      if Unpacks(ops, k, f) {
        assert ops[k] in ops && ops[k].artifact in toInstall;
        NewNew(toInstall, blocked, a, ops[k].artifact, f);
      }
    }
    StaysOffDisk(disk, db, ops, kept, j + 1, f);
    InstalledOwner(db, toInstall, toRemove, ops, a);
    assert Run(db, ops).Owns(a.pkg, f);
  }

  /** After a plan of new packages that passed, every registered file is on disk exactly if no file
      that moves to a new package is deleted later with the old one. */
  lemma DiskStaysComplete(db: Db, toInstall: seq<FileArtifact>, toRemove: seq<FileArtifact>, ops: seq<Operation>,
                          disk: set<Path>, kept: set<Path>, blocked: set<Path>)
    requires db.SingleOwner() && db.AllOnDisk(disk) && RemovalsAgree(db, toRemove)
    requires Executes(ops, toInstall, toRemove) && AllNew(db, toInstall) && NoDuplicates(ops)
    requires ClashFree(Listing(toInstall), blocked)
    ensures Run(db, ops).AllOnDisk(RunDisk(disk, db, ops, kept)) <==> NothingDeletedLate(db, ops, kept)
  {
    hide ClashFree;
    if NothingDeletedLate(db, ops, kept) {
      forall p, f | Run(db, ops).Owns(p, f) ensures f in RunDisk(disk, db, ops, kept) {
        RunLeaves(db, ops, p);
        if a :| Add(a) in ops && a.pkg == p && f in a.files {
          var i :| 0 <= i < |ops| && ops[i] == Add(a);
          AddedStays(db, toInstall, toRemove, ops, disk, kept, i, f);
        } else {
          KeptStays(db, toInstall, toRemove, ops, disk, kept, p, f);
        }
      }
    } else {
      var i, j, f :|
        0 <= i < j < |ops| && Unpacks(ops, i, f) && ops[j].Drop? && f in db.FilesOf(ops[j].pkg) && f !in kept;
      DeletedLateIsGone(db, toInstall, toRemove, ops, disk, kept, blocked, i, j, f);
    }
  }

  /** A file that moves from a package to a new one is lost when the new one is installed before the
      other is updated, although the plan passes. */
  lemma MovedFileIsDeleted()
    ensures var db, a, b := Db({"b-1"}, map["b-1" := ["/f"]]), FileArtifact("a-1", ["/f"]), FileArtifact("b-2", []);
      var ops := [Add(a), Drop("b-1"), Add(b)];
      && ClashFree(Listing([a, b]), Blocked(NoIndex, db, [FileArtifact("b-1", [])], true, {"/f"}))
      && Run(db, ops).Owns("a-1", "/f")
      && RunDisk({"/f"}, db, ops, {}) == {}
  {
    var db, a, b := Db({"b-1"}, map["b-1" := ["/f"]]), FileArtifact("a-1", ["/f"]), FileArtifact("b-2", []);
    var r, ops := FileArtifact("b-1", []), [Add(a), Drop("b-1"), Add(b)];
    assert [a, b][..1] == [a] && [a][..0] == [] && Listing([a]) == [("/f", "a-1")];
    assert Listing([a, b]) == [("/f", "a-1")];
    assert "/f" in FreedBy(db, r) && Frees(db, [r], "/f");
    RunNext({"/f"}, db, [], Add(a), {});
    RunNext({"/f"}, db, [Add(a)], Drop("b-1"), {});
    RunNext({"/f"}, db, [Add(a), Drop("b-1")], Add(b), {});
    assert [] + [Add(a)] == [Add(a)] && [Add(a)] + [Drop("b-1")] + [Add(b)] == ops;
    assert Unpacked({"/f"}, a) == {"/f"} && db.Register(a).FilesOf("b-1") == ["/f"];
    assert Deleted({"/f"}, db.Register(a), "b-1", {}) == {} && Unpacked({}, b) == {};
  }

  /** What a check without an index says about the owners after the plan. */
  lemma PassMeans(db: Db, toInstall: seq<FileArtifact>, toRemove: seq<FileArtifact>, ops: seq<Operation>,
                  checkSystem: bool, disk: set<Path>, blocked: set<Path>)
    requires db.SingleOwner() && RemovalsAgree(db, toRemove) && Executes(ops, toInstall, toRemove)
    requires IsBlocked(blocked, NoIndex, db, toRemove, checkSystem, disk)
    ensures ClashFree(Listing(toInstall), blocked) && TakenAreSeen(db, toInstall, toRemove, checkSystem, disk) ==>
      Run(db, ops).SingleOwner()
    ensures AllNew(db, toInstall) ==>
      (Run(db, ops).SingleOwner() && (forall a | a in toInstall :: NoDuplicates(a.files)) <==>
        ClashFree(Listing(toInstall), blocked) && TakenAreSeen(db, toInstall, toRemove, checkSystem, disk))
  {
    hide ClashFree, AllNew, TakenAreSeen;
    if ClashFree(Listing(toInstall), blocked) {
      if TakenAreSeen(db, toInstall, toRemove, checkSystem, disk) {
        SeenKeepsSingleOwner(db, toInstall, toRemove, ops, checkSystem, disk, blocked);
      }
      if AllNew(db, toInstall) {
        PassIsSafeIfSeen(db, toInstall, toRemove, ops, checkSystem, disk, blocked);
      }
      forall a | a in toInstall ensures NoDuplicates(a.files) { PassMeansNoDuplicates(toInstall, blocked, a); }
    } else if
      AllNew(db, toInstall) && Run(db, ops).SingleOwner() && forall a | a in toInstall :: NoDuplicates(a.files)
    {
      SingleOwnerPasses(db, toInstall, toRemove, ops, checkSystem, disk, blocked);
    }
  }

  // ----- the manager -----

  ghost function Blocked(index: Index, db: Db, toRemove: seq<FileArtifact>, checkSystem: bool,
                         disk: set<Path>): (r: set<Path>)
    ensures IsBlocked(r, index, db, toRemove, checkSystem, disk)
  {
    set f | f in disk && checkSystem && !Frees(db, toRemove, f) && Known(index, db, f)
  }

  /** `l` clashes at `k` for the first time, and `c` reports it. */
  ghost predicate Reports(c: Conflict, l: seq<(Path, Fingerprint)>, k: nat, blocked: set<Path>) {
    && k < |l|
    && (forall j | 0 <= j < k :: !Clash(l, j, blocked))
    && c.path == l[k].0 && c.newcomer == l[k].1
    && (c.Between? ==> (c.path, c.first) in l[..k])
    && (c.Owned? ==> c.path in blocked && c.path !in Paths(l[..k]))
  }

  function Paths(l: seq<(Path, Fingerprint)>): (r: seq<Path>)
    ensures |r| == |l| && forall i | 0 <= i < |r| :: r[i] == l[i].0
  {
    seq(|l|, i requires 0 <= i < |l| => l[i].0)
  }

  lemma ClashFreeSnoc(l: seq<(Path, Fingerprint)>, x: (Path, Fingerprint), blocked: set<Path>)
    ensures ClashFree(l + [x], blocked) <==> ClashFree(l, blocked) && x.0 !in blocked && x.0 !in Paths(l)
  {
    var m := l + [x];
    forall k | 0 <= k < |l| ensures Clash(m, k, blocked) <==> Clash(l, k, blocked) {
      assert forall j | 0 <= j < |l| :: m[j] == l[j];
    }
    assert Clash(m, |l|, blocked) <==> x.0 in blocked || x.0 in Paths(l) by {
      if x.0 in Paths(l) {
        var j :| 0 <= j < |l| && Paths(l)[j] == x.0;
        assert m[j].0 == x.0;
      }
    }
  }

  lemma ReportsAtEnd(c: Conflict, done: seq<(Path, Fingerprint)>, x: (Path, Fingerprint), l: seq<(Path, Fingerprint)>,
                     blocked: set<Path>)
    requires ClashFree(done, blocked) && done + [x] <= l
    requires c.path == x.0 && c.newcomer == x.1
    requires c.Between? ==> (c.path, c.first) in done
    requires c.Owned? ==> c.path in blocked && c.path !in Paths(done)
    ensures Reports(c, l, |done|, blocked) && Clash(l, |done|, blocked)
  {
    assert l[..|done|] == done && l[|done|] == x;
    forall j | 0 <= j < |done| ensures !Clash(l, j, blocked) {
      assert !Clash(done, j, blocked);
      assert forall i | 0 <= i < |done| :: l[i] == done[i];
    }
    if c.Between? {
      var j :| 0 <= j < |done| && done[j] == (c.path, c.first);
      assert l[j].0 == l[|done|].0;
    }
  }

  lemma {:induction false} ListingOfPrefix(toInstall: seq<FileArtifact>, k: nat)
    requires k <= |toInstall|
    ensures Listing(toInstall[..k]) <= Listing(toInstall)
    decreases |toInstall|
  {
    if k == |toInstall| {
      assert toInstall[..k] == toInstall;
    } else {
      ListingOfPrefix(toInstall[..|toInstall| - 1], k);
      assert toInstall[..|toInstall| - 1][..k] == toInstall[..k];
    }
  }

  lemma ListingStep(toInstall: seq<FileArtifact>, i: nat)
    requires i < |toInstall|
    ensures Listing(toInstall[..i + 1]) == Listing(toInstall[..i]) + Entries(toInstall[i])
    ensures Listing(toInstall[..i]) + Entries(toInstall[i]) <= Listing(toInstall)
  {
    assert toInstall[..i + 1][..i] == toInstall[..i];
    ListingOfPrefix(toInstall, i + 1);
  }

  /** The files of the last artefact after a listing. */
  lemma {:induction false} ClashFreeAppend(l: seq<(Path, Fingerprint)>, a: FileArtifact, k: nat, blocked: set<Path>)
    requires k <= |a.files|
    ensures ClashFree(l + Entries(a)[..k], blocked) <==>
      && ClashFree(l, blocked) && NoDuplicates(a.files[..k])
      && (forall i | 0 <= i < k :: a.files[i] !in blocked && a.files[i] !in Paths(l))
  {
    hide ClashFree;
    var es := Entries(a);
    if k == 0 {
      assert l + es[..0] == l;
    } else {
      ClashFreeAppend(l, a, k - 1, blocked);
      var m := l + es[..k - 1];
      assert l + es[..k] == m + [es[k - 1]];
      ClashFreeSnoc(m, es[k - 1], blocked);
      assert Paths(m) == Paths(l) + a.files[..k - 1];
      assert a.files[..k] == a.files[..k - 1] + [a.files[k - 1]];
    }
  }

  lemma {:induction false} ListedPaths(toInstall: seq<FileArtifact>, f: Path)
    ensures f in Paths(Listing(toInstall)) <==> exists i :: 0 <= i < |toInstall| && f in toInstall[i].files
  {
    if toInstall != [] {
      var before, last := toInstall[..|toInstall| - 1], toInstall[|toInstall| - 1];
      ListedPaths(before, f);
      assert Paths(Listing(toInstall)) == Paths(Listing(before)) + last.files;
      if i :| 0 <= i < |before| && f in before[i].files {
        assert f in toInstall[i].files;
      }
    }
  }

  /** No path is to be installed twice, and none is blocked. */
  ghost predicate EachOnce(toInstall: seq<FileArtifact>, blocked: set<Path>) {
    && (forall i | 0 <= i < |toInstall| :: NoDuplicates(toInstall[i].files))
    && (forall i, j, f | 0 <= i < j < |toInstall| && f in toInstall[i].files :: f !in toInstall[j].files)
    && (forall i, f | 0 <= i < |toInstall| && f in toInstall[i].files :: f !in blocked)
  }

  lemma EachOnceSnoc(toInstall: seq<FileArtifact>, a: FileArtifact, blocked: set<Path>)
    ensures EachOnce(toInstall + [a], blocked) <==>
      && EachOnce(toInstall, blocked) && NoDuplicates(a.files)
      && (forall f | f in a.files :: f !in blocked && forall i | 0 <= i < |toInstall| :: f !in toInstall[i].files)
  {
    hide NoDuplicates;
    var all := toInstall + [a];
    assert all[|toInstall|] == a && forall i | 0 <= i < |toInstall| :: all[i] == toInstall[i];
  }

  lemma {:induction false} ClashFreeMeans(toInstall: seq<FileArtifact>, blocked: set<Path>)
    ensures ClashFree(Listing(toInstall), blocked) <==> EachOnce(toInstall, blocked)
  {
    if toInstall != [] {
      var before, last := toInstall[..|toInstall| - 1], toInstall[|toInstall| - 1];
      hide ClashFree, EachOnce, NoDuplicates;
      ClashFreeMeans(before, blocked);
      assert Entries(last)[..|last.files|] == Entries(last) && last.files[..|last.files|] == last.files;
      ClashFreeAppend(Listing(before), last, |last.files|, blocked);
      assert toInstall == before + [last];
      EachOnceSnoc(before, last, blocked);
      forall f ensures f in Paths(Listing(before)) <==> exists i :: 0 <= i < |before| && f in before[i].files {
        ListedPaths(before, f);
      }
    }
  }

  /** The file is on the system, the gate looks there, some package is known to own it, and no package
      to remove gives it up: neither by its own list nor, if that is empty, by the registered one. */
  ghost predicate InTheWay(index: Index, db: Db, toRemove: seq<FileArtifact>, checkSystem: bool, disk: set<Path>,
                           f: Path)
  {
    && checkSystem && f in disk
    && (if index.NoIndex? then exists p :: p in db.packages && p in db.files && f in db.files[p]
        else f in index.owners)
    && (forall r | r in toRemove :: f !in r.files)
    && (forall r | r in toRemove && r.files == [] && r.pkg in db.files :: f !in db.files[r.pkg])
  }

  lemma BlockedMeans(index: Index, db: Db, toRemove: seq<FileArtifact>, checkSystem: bool, disk: set<Path>, f: Path)
    ensures f in Blocked(index, db, toRemove, checkSystem, disk) <==>
      InTheWay(index, db, toRemove, checkSystem, disk, f)
  {
    assert Known(index, db, f) <==>
      if index.NoIndex? then exists p :: p in db.packages && p in db.files && f in db.files[p] else f in index.owners
    by {
      if index.NoIndex? && exists p :: p in db.packages && p in db.files && f in db.files[p] {
        var p :| p in db.packages && p in db.files && f in db.files[p];
        assert db.Owns(p, f);
      }
    }
    forall r | r in toRemove
      ensures f in FreedBy(db, r) <==> f in r.files || (r.files == [] && r.pkg in db.files && f in db.files[r.pkg])
    {
    }
  }

  /** No artefact lists a path twice, no two artefacts share one, and none is in the way on the system. */
  ghost predicate Fits(toInstall: seq<FileArtifact>, index: Index, db: Db, toRemove: seq<FileArtifact>,
                       checkSystem: bool, disk: set<Path>)
  {
    && (forall i, k, l | 0 <= i < |toInstall| && 0 <= k < l < |toInstall[i].files| ::
          toInstall[i].files[k] != toInstall[i].files[l])
    && (forall i, j, f | 0 <= i < j < |toInstall| && f in toInstall[i].files :: f !in toInstall[j].files)
    && (forall a, f | a in toInstall && f in a.files :: !InTheWay(index, db, toRemove, checkSystem, disk, f))
  }

  /** The gate passes a plan exactly if it fits. */
  lemma GateMeans(toInstall: seq<FileArtifact>, index: Index, db: Db, toRemove: seq<FileArtifact>, checkSystem: bool,
                  disk: set<Path>)
    ensures ClashFree(Listing(toInstall), Blocked(index, db, toRemove, checkSystem, disk)) <==>
      Fits(toInstall, index, db, toRemove, checkSystem, disk)
  {
    var blocked := Blocked(index, db, toRemove, checkSystem, disk);
    hide InTheWay, Blocked, ClashFree, IsBlocked;
    ClashFreeMeans(toInstall, blocked);
    forall f ensures f in blocked <==> InTheWay(index, db, toRemove, checkSystem, disk, f) {
      BlockedMeans(index, db, toRemove, checkSystem, disk, f);
    }
  }

  lemma ClashMeansNotFree(l: seq<(Path, Fingerprint)>, blocked: set<Path>)
    requires exists k | 0 <= k < |l| :: Clash(l, k, blocked)
    ensures !ClashFree(l, blocked)
  {
  }

  lemma FreesSnoc(db: Db, toRemove: seq<FileArtifact>, i: nat)
    requires i < |toRemove|
    ensures forall f :: Frees(db, toRemove[..i + 1], f) <==>
      Frees(db, toRemove[..i], f) || f in FreedBy(db, toRemove[i])
  {
    assert toRemove[..i + 1] == toRemove[..i] + [toRemove[i]];
    assert toRemove[i] in toRemove[..i + 1];
    forall f ensures Frees(db, toRemove[..i + 1], f) <== Frees(db, toRemove[..i], f) || f in FreedBy(db, toRemove[i]) {
      if r :| r in toRemove[..i] && f in FreedBy(db, r) {
        assert r in toRemove[..i + 1];
      }
    }
  }

  /** The index is as it was, or has just been built. */
  ghost predicate IndexStep(before: Index, now: Index, db: Db) {
    now == before || (before.NoIndex? && now.Index? && IsIndexOf(now.owners, db))
  }

  lemma StillKnown(before: Index, now: Index, db: Db)
    requires IndexStep(before, now, db)
    ensures forall f :: Known(now, db, f) <==> Known(before, db, f)
  {
  }

  ghost predicate Fresh(index: Index, db: Db) {
    index.Index? ==> IsIndexOf(index.owners, db)
  }

  /** A retained index stands for the database exactly if its paths are the owned ones. */
  ghost predicate UpToDate(owners: map<Path, Fingerprint>, db: Db) {
    forall f :: f in owners <==> exists p :: db.Owns(p, f)
  }

  /** With a retained index the gate blocks the same paths as without one, for every disk and all
      removals, exactly if the index is up to date. */
  lemma RetainedIndexBlocksTheSame(owners: map<Path, Fingerprint>, db: Db)
    ensures (forall disk: set<Path>, toRemove ::
              Blocked(Index(owners), db, toRemove, true, disk) == Blocked(NoIndex, db, toRemove, true, disk))
       <==> UpToDate(owners, db)
  {
    if !UpToDate(owners, db) {
      var f :| !(f in owners <==> exists p :: db.Owns(p, f));
      assert f in Blocked(Index(owners), db, [], true, {f}) <==> Known(Index(owners), db, f);
      assert f in Blocked(NoIndex, db, [], true, {f}) <==> Known(NoIndex, db, f);
    }
  }

  lemma FreshKnows(index: Index, db: Db, toRemove: seq<FileArtifact>, checkSystem: bool, disk: set<Path>)
    requires Fresh(index, db)
    ensures Blocked(index, db, toRemove, checkSystem, disk) == Blocked(NoIndex, db, toRemove, checkSystem, disk)
  {
  }

  /** The owner that a report names is the one in the index. */
  ghost predicate NamesIndexed(c: Conflict, index: Index) {
    c.Owned? ==> index.Index? && c.path in index.owners && index.owners[c.path] == c.owner
  }

  lemma FreshNamesOwner(before: Index, now: Index, db: Db, c: Conflict)
    requires IndexStep(before, now, db) && NamesIndexed(c, now) && Fresh(before, db) && c.Owned?
    ensures db.Owns(c.owner, c.path)
  {
  }

  lemma IndexStepStart(index: Index, db: Db)
    ensures IndexStep(index, index, db)
  {
  }

  lemma IndexStepsJoin(a: Index, b: Index, c: Index, db: Db)
    requires IndexStep(a, b, db) && IndexStep(b, c, db)
    ensures IndexStep(a, c, db)
  {
  }

  /** The paths to install so far, each with a package that lists it. */
  ghost predicate Records(filesToInstall: map<Path, Fingerprint>, done: seq<(Path, Fingerprint)>) {
    forall f :: (f in filesToInstall <==> f in Paths(done)) && (f in filesToInstall ==> (f, filesToInstall[f]) in done)
  }

  lemma RecordsSnoc(filesToInstall: map<Path, Fingerprint>, done: seq<(Path, Fingerprint)>, f: Path, p: Fingerprint)
    requires Records(filesToInstall, done)
    ensures Records(filesToInstall[f := p], done + [(f, p)])
  {
    var after := done + [(f, p)];
    assert Paths(after) == Paths(done) + [f];
    assert after[|done|] == (f, p);
    forall x | x in done ensures x in after {
    }
  }

  datatype Hit = Clear | Hit(conflict: Conflict)

  class ArtifactsManager {
    var db: Db
    var fileIndex: Index
    /** The files on the target. */
    var disk: set<Path>
    /** The configuration files that a removal leaves in place. */
    const kept: set<Path>

    constructor (db: Db, disk: set<Path>, kept: set<Path>)
      ensures this.db == db && fileIndex == NoIndex && this.disk == disk && this.kept == kept
    {
      this.db, this.disk, this.kept := db, disk, kept;
      fileIndex := NoIndex;
    }

    method BuildIndexFiles()
      modifies this`fileIndex
      ensures IndexStep(old(fileIndex), fileIndex, db) && fileIndex.Index?
    {
      if fileIndex.NoIndex? {
        var owners: map<Path, Fingerprint> := map[];
        var rest := db.packages;
        while rest != {}
          invariant rest <= db.packages
          invariant forall f | f in owners :: db.Owns(owners[f], f)
          invariant forall p, f | db.Owns(p, f) && p !in rest :: f in owners
        {
          var p :| p in rest;
          owners := IndexPackage(p, owners);
          rest := rest - {p};
        }
        fileIndex := Index(owners);
      }
    }

    method IndexPackage(p: Fingerprint, owners0: map<Path, Fingerprint>) returns (owners: map<Path, Fingerprint>)
      requires p in db.packages
      requires forall f | f in owners0 :: db.Owns(owners0[f], f)
      ensures forall f | f in owners :: db.Owns(owners[f], f)
      ensures forall f :: f in owners <==> f in owners0 || f in db.FilesOf(p)
      ensures forall f | f in db.FilesOf(p) :: owners[f] == p
    {
      owners := owners0;
      var files := db.FilesOf(p);
      assert forall f | f in files :: db.Owns(p, f);
      hide Db.Owns, Db.FilesOf;
      for i := 0 to |files|
        invariant forall f | f in owners :: db.Owns(owners[f], f)
        invariant forall f :: f in owners <==> f in owners0 || f in files[..i]
        invariant forall f | f in files[..i] :: owners[f] == p
      {
        assert forall f :: f in files[..i + 1] <==> f in files[..i] || f == files[i];
        owners := owners[files[i] := p];
      }
    }

    method ExistsPackageFile(file: Path) returns (found: bool, p: Fingerprint)
      modifies this`fileIndex
      ensures IndexStep(old(fileIndex), fileIndex, db) && fileIndex.Index?
      ensures found <==> Known(old(fileIndex), db, file)
      ensures found ==> file in fileIndex.owners && p == fileIndex.owners[file]
    {
      BuildIndexFiles();
      found, p := false, "";
      if file in fileIndex.owners {
        found, p := true, fileIndex.owners[file];
      }
    }

    method FilesToRemove(toRemove: seq<FileArtifact>) returns (freed: set<Path>)
      ensures forall f :: f in freed <==> Frees(db, toRemove, f)
    {
      freed := {};
      for i := 0 to |toRemove|
        invariant forall f :: f in freed <==> Frees(db, toRemove[..i], f)
      {
        var files := toRemove[i].files;
        if |files| == 0 {
          files := db.FilesOf(toRemove[i].pkg);
        }
        hide Frees;
        FreesSnoc(db, toRemove, i);
        assert files == FreedBy(db, toRemove[i]);
        freed := freed + set f | f in files;
      }
      assert toRemove[..|toRemove|] == toRemove;
    }

    /** Looks one path to install up in the system. */
    method CheckSystemFile(f: Path, p: Fingerprint, freed: set<Path>, checkSystem: bool) returns (hit: Hit)
      modifies this`fileIndex
      ensures IndexStep(old(fileIndex), fileIndex, db)
      ensures hit.Hit? <==> checkSystem && f in disk && f !in freed && Known(old(fileIndex), db, f)
      ensures hit.Hit? ==> hit.conflict.Owned? && hit.conflict.path == f && hit.conflict.newcomer == p
      ensures hit.Hit? ==> NamesIndexed(hit.conflict, fileIndex)
    {
      hit := Clear;
      if checkSystem {
        if f in disk {
          if f !in freed {
            var exists_, owner := ExistsPackageFile(f);
            if exists_ {
              hit := Hit(Owned(f, owner, p));
            }
          }
        }
      }
    }

    /** One path of a package to install. */
    method CheckFile(f: Path, p: Fingerprint, filesToInstall: map<Path, Fingerprint>, freed: set<Path>,
                     checkSystem: bool, safeCheck: bool,
                     ghost done: seq<(Path, Fingerprint)>, ghost blocked: set<Path>)
      returns (filesToInstall': map<Path, Fingerprint>, hit: Hit)
      requires Records(filesToInstall, done)
      requires forall g :: g in blocked <==> checkSystem && g in disk && g !in freed && Known(fileIndex, db, g)
      modifies this`fileIndex
      ensures IndexStep(old(fileIndex), fileIndex, db)
      ensures hit.Hit? <==> f in blocked || f in Paths(done)
      ensures hit.Hit? ==> hit.conflict.path == f && hit.conflict.newcomer == p
      ensures hit.Hit? && hit.conflict.Between? ==> (f, hit.conflict.first) in done
      ensures hit.Hit? && hit.conflict.Owned? && !safeCheck ==> f in blocked && f !in Paths(done)
      ensures hit.Hit? ==> NamesIndexed(hit.conflict, fileIndex)
      ensures hit.Clear? || safeCheck ==> Records(filesToInstall', done + [(f, p)])
    {
      hit := Clear;
      filesToInstall' := filesToInstall;
      if f in filesToInstall {
        hit := Hit(Between(f, filesToInstall[f], p));
        if !safeCheck { return; }
      }
      RecordsSnoc(filesToInstall, done, f, p);
      filesToInstall' := filesToInstall[f := p];
      var inSystem := CheckSystemFile(f, p, freed, checkSystem);
      if inSystem.Hit? {
        hit := inSystem;
      }
    }

    method CheckArtifact(a: FileArtifact, filesToInstall0: map<Path, Fingerprint>, freed: set<Path>,
                         checkSystem: bool, safeCheck: bool,
                         ghost done: seq<(Path, Fingerprint)>, ghost l: seq<(Path, Fingerprint)>,
                         ghost blocked: set<Path>)
      returns (filesToInstall: map<Path, Fingerprint>, conflictsFound: bool, failure: Hit)
      requires Records(filesToInstall0, done) && done + Entries(a) <= l
      requires forall g :: g in blocked <==> checkSystem && g in disk && g !in freed && Known(fileIndex, db, g)
      requires !safeCheck ==> ClashFree(done, blocked)
      modifies this`fileIndex
      ensures IndexStep(old(fileIndex), fileIndex, db)
      ensures failure.Clear? ==> Records(filesToInstall, done + Entries(a))
      ensures failure.Clear? ==>
        (!ClashFree(done + Entries(a), blocked) <==> !ClashFree(done, blocked) || conflictsFound)
      ensures failure.Clear? && !safeCheck ==> !conflictsFound
      ensures failure.Hit? ==> !safeCheck && NamesIndexed(failure.conflict, fileIndex)
      ensures failure.Hit? ==>
        exists k | 0 <= k < |l| :: Clash(l, k, blocked) && Reports(failure.conflict, l, k, blocked)
    {
      hide ClashFree, Clash, Records, Reports, Known, IndexStep, NamesIndexed;
      ghost var es := Entries(a);
      filesToInstall, conflictsFound, failure := filesToInstall0, false, Clear;
      assert done + es[..0] == done;
      IndexStepStart(fileIndex, db);
      for i := 0 to |a.files|
        invariant IndexStep(old(fileIndex), fileIndex, db)
        invariant Records(filesToInstall, done + es[..i])
        invariant !ClashFree(done + es[..i], blocked) <==> !ClashFree(done, blocked) || conflictsFound
        invariant !safeCheck ==> !conflictsFound
      {
        assert done + es[..i + 1] == done + es[..i] + [(a.files[i], a.pkg)];
        ghost var before := fileIndex;
        StillKnown(old(fileIndex), before, db);
        ClashFreeSnoc(done + es[..i], es[i], blocked);
        var hit;
        filesToInstall, hit := CheckFile(a.files[i], a.pkg, filesToInstall, freed, checkSystem, safeCheck,
                                         done + es[..i], blocked);
        IndexStepsJoin(old(fileIndex), before, fileIndex, db);
        if hit.Hit? {
          if !safeCheck {
            failure := hit;
            ReportsAtEnd(hit.conflict, done + es[..i], es[i], l, blocked);
            return;
          }
          conflictsFound := true;
        }
      }
      assert es[..|es|] == es;
    }

    /** Checks a plan before it is carried out. A failure keeps the index, everything else drops it. */
    method CheckFileConflicts(toInstall: seq<FileArtifact>, toRemove: seq<FileArtifact>, checkSystem: bool,
                              safeCheck: bool)
      returns (v: Verdict)
      modifies this`fileIndex
      ensures v.Fail? <==>
        !safeCheck && !ClashFree(Listing(toInstall), Blocked(old(fileIndex), db, toRemove, checkSystem, disk))
      ensures v.Fail? <==> !safeCheck && !Fits(toInstall, old(fileIndex), db, toRemove, checkSystem, disk)
      ensures v.Pass? ==>
        (v.conflictsIgnored <==> !Fits(toInstall, old(fileIndex), db, toRemove, checkSystem, disk))
      ensures v.Fail? ==> exists k | 0 <= k < |Listing(toInstall)| ::
        Reports(v.conflict, Listing(toInstall), k, Blocked(old(fileIndex), db, toRemove, checkSystem, disk))
      ensures v.Pass? ==> (v.conflictsIgnored <==>
        !ClashFree(Listing(toInstall), Blocked(old(fileIndex), db, toRemove, checkSystem, disk)))
      ensures v.Pass? ==> fileIndex == NoIndex
      ensures v.Fail? ==> IndexStep(old(fileIndex), fileIndex, db) && NamesIndexed(v.conflict, fileIndex)
      ensures v.Fail? && v.conflict.Owned? && Fresh(old(fileIndex), db) ==> db.Owns(v.conflict.owner, v.conflict.path)
    {
      ghost var l := Listing(toInstall);
      ghost var blocked := Blocked(fileIndex, db, toRemove, checkSystem, disk);
      ghost var start := fileIndex;
      GateMeans(toInstall, fileIndex, db, toRemove, checkSystem, disk);
      hide Fits;
      var freed: set<Path> := {};
      if checkSystem {
        freed := FilesToRemove(toRemove);
      }
      assert forall g :: g in blocked <==> checkSystem && g in disk && g !in freed && Known(start, db, g);
      var conflictsFound := false;
      var filesToInstall: map<Path, Fingerprint> := map[];
      assert Listing(toInstall[..0]) == [];
      assert ClashFree([], blocked) && Records(filesToInstall, []);
      IndexStepStart(fileIndex, db);
      hide ClashFree, Clash, Records, Reports, Known, IndexStep, IsBlocked, Blocked, Frees, NamesIndexed, Fresh;
      for i := 0 to |toInstall|
        invariant IndexStep(start, fileIndex, db)
        invariant Records(filesToInstall, Listing(toInstall[..i]))
        invariant conflictsFound <==> !ClashFree(Listing(toInstall[..i]), blocked)
        invariant conflictsFound ==> safeCheck
      {
        ghost var before := fileIndex;
        StillKnown(start, before, db);
        ListingStep(toInstall, i);
        var found, failure;
        filesToInstall, found, failure := CheckArtifact(toInstall[i], filesToInstall, freed, checkSystem, safeCheck,
                                                        Listing(toInstall[..i]), l, blocked);
        IndexStepsJoin(start, before, fileIndex, db);
        if failure.Hit? {
          ClashMeansNotFree(l, blocked);
          if failure.conflict.Owned? && Fresh(start, db) {
            FreshNamesOwner(start, fileIndex, db, failure.conflict);
          }
          return Fail(failure.conflict);
        }
        conflictsFound := conflictsFound || found;
      }
      assert toInstall[..|toInstall|] == toInstall;
      fileIndex := NoIndex;
      v := Pass(conflictsFound);
    }

    /** Unpacks the files of an artefact. */
    method InstallPackage(a: FileArtifact)
      modifies this`disk
      ensures disk == Unpacked(old(disk), a)
    {
      for i := 0 to |a.files|
        invariant disk == old(disk) + set f | f in a.files[..i]
      {
        assert forall f :: f in a.files[..i + 1] <==> f in a.files[..i] || f == a.files[i];
        disk := disk + {a.files[i]};
      }
    }

    /** The effect on the database of registering an artefact. */
    method RegisterPackage(a: FileArtifact)
      modifies this`db
      ensures db == old(db).Register(a)
    {
      db := Db(db.packages, db.files[a.pkg := a.files]);
      db := Db(db.packages + {a.pkg}, db.files);
    }

    /** Deletes the registered files of a package, except those that are kept, and then its entries
        in the database. */
    method RemovePackage(p: Fingerprint)
      modifies this`db, this`disk
      ensures db == old(db).Remove(p)
      ensures disk == Deleted(old(disk), old(db), p, kept)
    {
      var files := db.FilesOf(p);
      for i := 0 to |files|
        invariant db == old(db)
        invariant disk == old(disk) - set f | f in files[..i] && f !in kept
      {
        assert forall f :: f in files[..i + 1] <==> f in files[..i] || f == files[i];
        if files[i] !in kept {
          disk := disk - {files[i]};
        }
      }
      db := Db(db.packages, db.files - {p});
      db := Db(db.packages - {p}, db.files);
    }

    method Execute(ops: seq<Operation>)
      modifies this`db, this`disk
      ensures db == Run(old(db), ops) && disk == RunDisk(old(disk), old(db), ops, kept)
    {
      for i := 0 to |ops|
        invariant db == Run(old(db), ops[..i]) && disk == RunDisk(old(disk), old(db), ops[..i], kept)
      {
        assert ops[..i + 1][..i] == ops[..i];
        match ops[i]
        case Add(a) =>
          InstallPackage(a);
          RegisterPackage(a);
        case Drop(p) =>
          RemovePackage(p);
      }
      assert ops[..|ops|] == ops;
    }

    /** Every file has one owner and is on disk, and a retained index is up to date. */
    ghost predicate Sound()
      reads this
    {
      db.SingleOwner() && db.AllOnDisk(disk) && Fresh(fileIndex, db)
    }

    /** An install or an upgrade: the gate, then the operations. */
    method Transact(toInstall: seq<FileArtifact>, toRemove: seq<FileArtifact>, ops: seq<Operation>,
                    checkSystem: bool, pretend: bool, force: bool) returns (v: Verdict)
      requires db.SingleOwner() && Fresh(fileIndex, db)
      requires RemovalsAgree(db, toRemove) && Executes(ops, toInstall, toRemove)
      modifies this
      ensures Fresh(fileIndex, db)
      ensures v.Fail? || pretend ==> db == old(db) && disk == old(disk)
      ensures v.Pass? && !pretend ==>
        db == Run(old(db), ops) && disk == RunDisk(old(disk), old(db), ops, kept)
      ensures v.Fail? <==> !pretend && !force && !Fits(toInstall, NoIndex, old(db), toRemove, checkSystem, old(disk))
      ensures v.Pass? ==>
        (v.conflictsIgnored <==> !Fits(toInstall, NoIndex, old(db), toRemove, checkSystem, old(disk)))
      ensures v.Pass? && !v.conflictsIgnored && TakenAreSeen(old(db), toInstall, toRemove, checkSystem, old(disk)) ==>
        db.SingleOwner()
      ensures v.Pass? && !pretend && AllNew(old(db), toInstall) ==>
        (db.SingleOwner() && (forall a | a in toInstall :: NoDuplicates(a.files)) <==>
          !v.conflictsIgnored && TakenAreSeen(old(db), toInstall, toRemove, checkSystem, old(disk)))
      ensures old(Sound()) && checkSystem && !force && AllNew(old(db), toInstall) && NoDuplicates(ops) ==>
        (Sound() <==> v.Fail? || pretend || NothingDeletedLate(old(db), ops, kept))
    {
      FreshKnows(fileIndex, db, toRemove, checkSystem, disk);
      GateMeans(toInstall, NoIndex, db, toRemove, checkSystem, disk);
      GateMeans(toInstall, fileIndex, db, toRemove, checkSystem, disk);
      hide Fits;
      ghost var blocked := Blocked(NoIndex, db, toRemove, checkSystem, disk);
      v := CheckFileConflicts(toInstall, toRemove, checkSystem, pretend || force);
      if v.Pass? && !pretend {
        PassMeans(db, toInstall, toRemove, ops, checkSystem, disk, blocked);
        if ClashFree(Listing(toInstall), blocked) && db.AllOnDisk(disk) && AllNew(db, toInstall) && NoDuplicates(ops)
          && checkSystem
        {
          DiskStaysComplete(db, toInstall, toRemove, ops, disk, kept, blocked);
        }
        Execute(ops);
      }
    }
  }

  /** The check of one new file on disk. */
  lemma OneFile(index: Index, db: Db, toRemove: seq<FileArtifact>, disk: set<Path>, a: FileArtifact, f: Path)
    requires a.files == [f] && f in disk && toRemove == []
    ensures var l, blocked := Listing([a]), Blocked(index, db, toRemove, true, disk);
      && (ClashFree(l, blocked) <==> !Known(index, db, f))
      && forall c, k | 0 <= k < |l| && Reports(c, l, k, blocked) :: c.Owned? && c.path == f && c.newcomer == a.pkg
  {
    assert [a][..0] == [] && Listing([a]) == [] + Entries(a);
    assert Clash(Listing([a]), 0, Blocked(index, db, toRemove, true, disk)) <==> Known(index, db, f);
  }

  /** A refused install leaves an index behind. When the package in its way is removed afterwards and
      its configuration file stays on disk, the next check refuses the file because of an owner that
      is gone; without the retained index it would pass. */
  method RefusalLeavesStaleIndex() returns (m: ArtifactsManager, first: Verdict, second: Verdict)
    ensures fresh(m) && first.Fail? && second.Fail?
    ensures m.db.packages == {} && second.conflict == Owned("/etc/f", "old", "new")
    ensures ClashFree(Listing([FileArtifact("new", ["/etc/f"])]), Blocked(NoIndex, m.db, [], true, m.disk))
  {
    hide ClashFree, Reports, Listing, Blocked;
    var a := FileArtifact("new", ["/etc/f"]);
    m := new ArtifactsManager(Db({"old"}, map["old" := ["/etc/f"]]), {"/etc/f"}, {"/etc/f"});
    assert m.db.FilesOf("old")[0] == "/etc/f" && m.db.Owns("old", "/etc/f");
    OneFile(NoIndex, m.db, [], m.disk, a, "/etc/f");
    first := m.CheckFileConflicts([a], [], true, false);
    ghost var index := m.fileIndex;
    assert "/etc/f" in index.owners && index.owners["/etc/f"] == "old";
    m.RemovePackage("old");
    OneFile(index, m.db, [], m.disk, a, "/etc/f");
    OneFile(NoIndex, m.db, [], m.disk, a, "/etc/f");
    second := m.CheckFileConflicts([a], [], true, false);
  }
}
