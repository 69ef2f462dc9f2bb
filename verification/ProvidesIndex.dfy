/** Searching a repository by package (pkg/v2/repository/wagon_stones.go): the scan of the whole
    tree against the scan of the requested categories plus the provides index that ExplodeMetadata
    (pkg/v2/repository/wagon.go) builds.
 */
module ProvidesIndex {
  import opened CategoryScan
  import opened Packages

  /** The directory `category/name/version` of an artefact in the tree. */
  datatype Dir = Dir(atom: Atom, version: Version)

  datatype Metadata = Metadata(provided: seq<Atom>, hidden: bool, masked: bool)

  /** The tree: each directory with a definition holds the metadata of its own package. */
  type Tree = map<Dir, Metadata>

  /** A requested package; `version` is a selector. */
  datatype Request = Request(atom: Atom, version: Version)

  type AdmitFn = (Version, Version) -> bool

  datatype Options = Options(packages: seq<Request>, showHidden: bool, ignoreMasks: bool, admit: AdmitFn)

  type Index = map<Name, seq<Dir>>

  /** The request `p` asks for the package itself, or for something it provides. */
  predicate Answers(d: Dir, m: Metadata, p: Request, admit: AdmitFn) {
    p.atom in m.provided || (d.atom == p.atom && admit(p.version, d.version))
  }

  predicate Hit(tree: Tree, d: Dir, opts: Options) {
    && d in tree
    && (opts.ignoreMasks || !tree[d].masked)
    && (opts.showHidden || !tree[d].hidden)
    && exists p | p in opts.packages :: Answers(d, tree[d], p, opts.admit)
  }

  predicate Provides(provided: seq<Atom>, n: Name) {
    exists q | q in provided :: PackageName(q) == n
  }

  /** The index lists under each name exactly the artefacts that provide it. */
  ghost predicate IsIndexOf(index: Index, tree: Tree) {
    forall n, d :: Listed(index, n, d) <==> d in tree && Provides(tree[d].provided, n)
  }

  lemma ProvidesSnoc(provided: seq<Atom>, q: Atom)
    ensures forall n :: Provides(provided + [q], n) <==> Provides(provided, n) || n == PackageName(q)
  {
    assert forall x :: x in provided + [q] <==> x in provided || x == q;
    assert q in provided + [q];
  }

  /** Register the directory under the name of each of its provides. */
  method AddProvides(index0: Index, d: Dir, provided: seq<Atom>) returns (index: Index)
    ensures forall n, e :: Listed(index, n, e) <==> Listed(index0, n, e) || (e == d && Provides(provided, n))
  {
    index := index0;
    for i := 0 to |provided|
      invariant forall n, e :: Listed(index, n, e) <==> Listed(index0, n, e) || (e == d && Provides(provided[..i], n))
    {
      ProvidesSnoc(provided[..i], provided[i]);
      assert provided[..i + 1] == provided[..i] + [provided[i]];
      var n := PackageName(provided[i]);
      index := index[n := if n in index then index[n] + [d] else [d]];
    }
    assert provided[..|provided|] == provided;
  }

  /** The index that ExplodeMetadata writes, for a catalogue in any order; entries without a
      directory in the tree are skipped. */
  method ExplodeMetadata(catalog: seq<Dir>, tree: Tree) returns (index: Index)
    ensures forall n, d :: Listed(index, n, d) <==> d in catalog && d in tree && Provides(tree[d].provided, n)
    ensures forall n, d :: n in index && d in index[n] <==>
      d in catalog && d in tree && exists q :: q in tree[d].provided && PackageName(q) == n
    ensures tree.Keys <= Elements(catalog) ==> IsIndexOf(index, tree)
  {
    index := map[];
    for i := 0 to |catalog|
      invariant forall n, d :: Listed(index, n, d) <==> d in catalog[..i] && d in tree && Provides(tree[d].provided, n)
    {
      assert catalog[..i + 1] == catalog[..i] + [catalog[i]];
      if catalog[i] in tree {
        index := AddProvides(index, catalog[i], tree[catalog[i]].provided);
      }
    }
    assert catalog[..|catalog|] == catalog;
    forall n, d
      ensures n in index && d in index[n] <==>
        d in catalog && d in tree && exists q :: q in tree[d].provided && PackageName(q) == n
    {
      assert Listed(index, n, d) <==> d in catalog && d in tree && Provides(tree[d].provided, n);
    }
  }

  /** A repository on disk: the category directories of the tree, those that cannot be listed, the
      package directories that cannot be analysed in this search, and the provides file. */
  datatype Repository = Repository(tree: Tree, categories: seq<string>, lost: set<string>, broken: set<Dir>,
                                   index: Result<Index>)
  {
    predicate Valid() {
      forall d | d in tree :: d.atom.category in categories
    }

    /** The scan of the category reports no error. */
    predicate Readable(c: string) {
      c !in lost && forall d | d in tree && d.atom.category == c :: d !in broken
    }
  }

  method AnalyzePackageDir(repo: Repository, d: Dir, opts: Options) returns (r: Result<bool>)
    ensures r.Err? <==> d in repo.tree && d in repo.broken
    ensures r.Ok? ==> (r.value <==> Hit(repo.tree, d, opts))
  {
    var tree := repo.tree;
    if d !in tree {
      return Ok(false);
    }
    if d in repo.broken {
      return Err("Error on analyze directory");
    }
    if (!opts.ignoreMasks && tree[d].masked) || (!opts.showHidden && tree[d].hidden) {
      return Ok(false);
    }
    var found := false;
    for i := 0 to |opts.packages|
      invariant found <==> exists k :: 0 <= k < i && Answers(d, tree[d], opts.packages[k], opts.admit)
    {
      var p := opts.packages[i];
      assert p in opts.packages;
      if p.atom in tree[d].provided {
        found := true;
      }
      if d.atom.category != p.atom.category || d.atom.name != p.atom.name {
        continue;
      }
      if opts.admit(p.version, d.version) {
        return Ok(true);
      }
    }
    return Ok(found);
  }

  /** The work of one worker: the first error ends the scan of its category. */
  method AnalyzeCatDir(repo: Repository, c: string, opts: Options) returns (res: Response<Dir>)
    ensures res.Ok? <==> repo.Readable(c)
    ensures res.Ok? ==> forall d :: d in res.value <==> Hit(repo.tree, d, opts) && d.atom.category == c
  {
    if c in repo.lost {
      return Err("Error on read directory");
    }
    var ans: seq<Dir> := [];
    var all: set<Dir> := set d | d in repo.tree && d.atom.category == c;
    var todo := all;
    while todo != {}
      invariant todo <= all
      invariant forall d | d in all && d !in todo :: d !in repo.broken
      invariant forall d :: d in ans <==> d in all && d !in todo && Hit(repo.tree, d, opts)
    {
      var d :| d in todo;
      todo := todo - {d};
      var found := AnalyzePackageDir(repo, d, opts);
      if found.Err? {
        return Err(found.message);
      }
      if found.value {
        ans := ans + [d];
      }
    }
    return Ok(ans);
  }

  predicate Requested(opts: Options, c: string) {
    exists p | p in opts.packages :: p.atom.category == c
  }

  /** The scan of the requested categories, or of all. The answers of the workers are collected in
      the order of the categories; an error is dropped. */
  method ScanCategories(repo: Repository, opts: Options, onlyPackages: bool)
    returns (ans: seq<Dir>, ghost responses: seq<Response<Dir>>)
    requires repo.Valid()
    ensures ans == Answer(responses)
    ensures forall d :: d in ans <==>
      Hit(repo.tree, d, opts) && repo.Readable(d.atom.category) && (onlyPackages ==> Requested(opts, d.atom.category))
  {
    var catMap: set<string> := set p | p in opts.packages :: p.atom.category;
    ans, responses := [], [];
    for i := 0 to |repo.categories|
      invariant ans == Answer(responses)
      invariant forall d :: d in ans <==> (
        && d.atom.category in repo.categories[..i] && Hit(repo.tree, d, opts)
        && repo.Readable(d.atom.category) && (onlyPackages ==> Requested(opts, d.atom.category)))
    {
      hide Hit, Repository.Readable;
      var c := repo.categories[i];
      assert repo.categories[..i + 1] == repo.categories[..i] + [c];
      if onlyPackages && c !in catMap {
        continue;
      }
      var resp := AnalyzeCatDir(repo, c, opts);
      assert (responses + [resp])[..|responses|] == responses;
      responses := responses + [resp];
      if resp.Ok? {
        ans := ans + resp.value;
      }
    }
    assert repo.categories[..|repo.categories|] == repo.categories;
  }

  /** The index lists the directory under the name of a request. */
  predicate ListedFor(index: Index, opts: Options, d: Dir) {
    exists p | p in opts.packages :: Listed(index, PackageName(p.atom), d)
  }

  /** The artefacts that the index lists for the requested names and that are not in `arts`. Here an
      error ends the search. */
  method SearchProvides(repo: Repository, opts: Options, arts: seq<Dir>) returns (res: Result<seq<Dir>>)
    ensures res.Err? <==> (
      || repo.index.Err?
      || exists d :: d !in arts && d in repo.tree && d in repo.broken && ListedFor(repo.index.value, opts, d))
    ensures res.Ok? ==> forall d :: d in res.value <==>
      d in arts || (Hit(repo.tree, d, opts) && ListedFor(repo.index.value, opts, d))
  {
    if repo.index.Err? {
      return Err(repo.index.message);
    }
    var index := repo.index.value;
    var ans := arts;
    for i := 0 to |opts.packages|
      invariant forall d :: d in ans <==>
        || d in arts
        || (Hit(repo.tree, d, opts) && exists k :: 0 <= k < i && Listed(index, PackageName(opts.packages[k].atom), d))
      invariant forall k, d | 0 <= k < i && Listed(index, PackageName(opts.packages[k].atom), d) ::
        d in arts || d !in repo.tree || d !in repo.broken
    {
      hide Hit;
      var n := PackageName(opts.packages[i].atom);
      assert opts.packages[i] in opts.packages;
      if n in index {
        var more := AnalyzeListed(repo, opts, index[n], arts);
        if more.Err? {
          return Err(more.message);
        }
        ans := ans + more.value;
      }
    }
    return Ok(ans);
  }

  /** The directories of one entry of the index that are hits and not in `arts`. */
  method AnalyzeListed(repo: Repository, opts: Options, provArts: seq<Dir>, arts: seq<Dir>)
    returns (res: Result<seq<Dir>>)
    ensures res.Err? <==> exists d :: d in provArts && d !in arts && d in repo.tree && d in repo.broken
    ensures res.Ok? ==> forall d :: d in res.value <==> d in provArts && d !in arts && Hit(repo.tree, d, opts)
  {
    var ans: seq<Dir> := [];
    for j := 0 to |provArts|
      invariant forall d :: d in ans <==> d in provArts[..j] && d !in arts && Hit(repo.tree, d, opts)
      invariant forall d | d in provArts[..j] && d !in arts :: d !in repo.tree || d !in repo.broken
    {
      assert provArts[..j + 1] == provArts[..j] + [provArts[j]];
      if provArts[j] in arts {
        continue;
      }
      var found := AnalyzePackageDir(repo, provArts[j], opts);
      if found.Err? {
        return Err(found.message);
      }
      if found.value {
        ans := ans + [provArts[j]];
      }
    }
    assert provArts[..|provArts|] == provArts;
    return Ok(ans);
  }

  /** What the whole-tree scan finds is in a requested category or in the index. */
  lemma HitIsReachable(tree: Tree, index: Index, opts: Options, d: Dir)
    requires IsIndexOf(index, tree) && Hit(tree, d, opts)
    ensures Requested(opts, d.atom.category) || ListedFor(index, opts, d)
  {
    var p :| p in opts.packages && Answers(d, tree[d], p, opts.admit);
    if p.atom in tree[d].provided { assert Provides(tree[d].provided, PackageName(p.atom)); }
  }

  /** Neither masked nor hidden, unless the options say so, and one of the requests names something the
      artefact provides, or the artefact itself with a version that is admitted. */
  predicate Asked(repo: Repository, opts: Options, d: Dir)
    requires d in repo.tree
  {
    var m := repo.tree[d];
    && (m.masked ==> opts.ignoreMasks)
    && (m.hidden ==> opts.showHidden)
    && exists i | 0 <= i < |opts.packages| ::
      var p := opts.packages[i];
      p.atom in m.provided || (p.atom == d.atom && opts.admit(p.version, d.version))
  }

  lemma HitMeans(repo: Repository, opts: Options, d: Dir)
    ensures Hit(repo.tree, d, opts) <==> d in repo.tree && Asked(repo, opts, d)
  {
    if d in repo.tree {
      var m := repo.tree[d];
      assert forall p :: p in opts.packages <==> exists i :: 0 <= i < |opts.packages| && opts.packages[i] == p;
      assert (exists p | p in opts.packages :: Answers(d, m, p, opts.admit)) <==>
        exists i :: 0 <= i < |opts.packages| && Answers(d, m, opts.packages[i], opts.admit);
    }
  }

  /** The provides file lists the directory under the name of a request. */
  predicate InIndex(index: Index, opts: Options, d: Dir) {
    exists i :: 0 <= i < |opts.packages| &&
      var n := PackageName(opts.packages[i].atom);
      n in index && d in index[n]
  }

  lemma InIndexMeans(index: Index, opts: Options, d: Dir)
    ensures ListedFor(index, opts, d) <==> InIndex(index, opts, d)
  {
    if ListedFor(index, opts, d) {
      var p :| p in opts.packages && Listed(index, PackageName(p.atom), d);
      var i :| 0 <= i < |opts.packages| && opts.packages[i] == p;
    }
  }

  /** A scan comes to the directory: its category is listed, no directory of that category fails, and
      the shortcut takes the category because some request names it. */
  predicate Scanned(repo: Repository, opts: Options, onlyPackages: bool, d: Dir) {
    && d.atom.category !in repo.lost
    && (forall e | e in repo.broken && e.atom.category == d.atom.category :: e !in repo.tree)
    && (onlyPackages ==>
          exists i :: 0 <= i < |opts.packages| && opts.packages[i].atom.category == d.atom.category)
  }

  lemma ScannedMeans(repo: Repository, opts: Options, onlyPackages: bool, d: Dir)
    ensures Scanned(repo, opts, onlyPackages, d) <==>
      repo.Readable(d.atom.category) && (onlyPackages ==> Requested(opts, d.atom.category))
  {
    if p :| p in opts.packages && p.atom.category == d.atom.category {
      var i :| 0 <= i < |opts.packages| && opts.packages[i] == p;
    }
  }

  /** The search for packages, with the shortcut through the requested categories and the index, or
      over the whole tree. */
  method SearchArtifacts(repo: Repository, opts: Options, onlyPackages: bool) returns (res: Result<seq<Dir>>)
    requires repo.Valid()
    ensures res.Err? ==> onlyPackages
    ensures onlyPackages ==> (res.Err? <==> (
      || repo.index.Err?
      || exists d :: d in repo.tree && d in repo.broken && ListedFor(repo.index.value, opts, d)))
    ensures res.Ok? ==> forall d :: d in res.value <==>
      Hit(repo.tree, d, opts) && FoundIn(repo, opts, onlyPackages, d)
    ensures onlyPackages ==> (res.Err? <==> (
      || repo.index.Err?
      || exists d :: d in repo.tree && d in repo.broken && InIndex(repo.index.value, opts, d)))
    ensures res.Ok? ==> forall d :: d in res.value <==>
      && d in repo.tree && Asked(repo, opts, d)
      && (Scanned(repo, opts, onlyPackages, d) || (onlyPackages && InIndex(repo.index.value, opts, d)))
  {
    hide Hit, Asked, ListedFor, InIndex, Scanned, Requested;
    forall d: Dir
      ensures Hit(repo.tree, d, opts) <==> d in repo.tree && Asked(repo, opts, d)
      ensures repo.index.Ok? ==> (ListedFor(repo.index.value, opts, d) <==> InIndex(repo.index.value, opts, d))
      ensures Scanned(repo, opts, onlyPackages, d) <==>
        repo.Readable(d.atom.category) && (onlyPackages ==> Requested(opts, d.atom.category))
    {
      HitMeans(repo, opts, d);
      if repo.index.Ok? { InIndexMeans(repo.index.value, opts, d); }
      ScannedMeans(repo, opts, onlyPackages, d);
    }
    var ans, _ := ScanCategories(repo, opts, onlyPackages);
    if onlyPackages {
      res := SearchProvides(repo, opts, ans);
    } else {
      res := Ok(ans);
    }
  }

  /** Where the search looks for a hit: in a scanned category that could be read, or in the index. */
  predicate FoundIn(repo: Repository, opts: Options, onlyPackages: bool, d: Dir)
    requires onlyPackages ==> repo.index.Ok?
  {
    || (repo.Readable(d.atom.category) && (onlyPackages ==> Requested(opts, d.atom.category)))
    || (onlyPackages && ListedFor(repo.index.value, opts, d))
  }

  /** With the index of the tree, a search that reports no error finds all hits of the tree exactly if
      every hit lies in a category that can be read or, for the shortcut, is provided under a
      requested name. */
  lemma SearchIsComplete(repo: Repository, opts: Options, onlyPackages: bool, found: seq<Dir>)
    requires onlyPackages ==> repo.index.Ok? && IsIndexOf(repo.index.value, repo.tree)
    requires forall d :: d in found <==> Hit(repo.tree, d, opts) && FoundIn(repo, opts, onlyPackages, d)
    ensures (forall d :: d in found <==> Hit(repo.tree, d, opts)) <==>
      forall d | Hit(repo.tree, d, opts) ::
        repo.Readable(d.atom.category) || (onlyPackages && ListedFor(repo.index.value, opts, d))
  {
    hide Hit, Repository.Readable, Requested, ListedFor, IsIndexOf;
    if onlyPackages {
      forall d | Hit(repo.tree, d, opts)
        ensures Requested(opts, d.atom.category) || ListedFor(repo.index.value, opts, d)
      {
        HitIsReachable(repo.tree, repo.index.value, opts, d);
      }
    }
  }
}
