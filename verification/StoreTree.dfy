/** How the store's files lie in the directory tree, and what each file operation does there. */
module StoreTree {
  import opened Bytes
  import opened FileTree
  import opened StorePaths
  import opened UploadStore
  import opened StoreRefinement

  /**
   The tree holds exactly `files`, each at its own path; no path the store may ever use is
   blocked by an entry of the wrong kind. Other files may be anywhere else, locks included.
   */
  ghost predicate Represents(c: Config, t: Tree<Content>, files: map<Loc, Content>) {
    && Admissible(c)
    && WellFormed(t)
    && (forall l :: l in files ==> ValidLoc(l) && !l.Lock? && (l.Info? <==> files[l].Meta?))
    && (forall l :: ValidLoc(l) ==> AtPath(c, t, l) == AtLoc(files, l) || l.Lock?)
    && (forall l :: ValidLoc(l) ==> PathOf(c, l) !in t.dirs)
    && (forall l, d :: ValidLoc(l) && d <= DirOf(c, l) ==> d !in t.files)
  }

  function AtPath(c: Config, t: Tree<Content>, l: Loc): Option<Content>
    requires Admissible(c) && ValidLoc(l)
  {
    if PathOf(c, l) in t.files then Some(t.files[PathOf(c, l)]) else None
  }

  function AtLoc(files: map<Loc, Content>, l: Loc): Option<Content> {
    if l in files then Some(files[l]) else None
  }

  /** The files that are not records or bytes of uploads, locks included. */
  ghost function Foreign(c: Config, t: Tree<Content>): map<Path, Content>
    requires Admissible(c)
  {
    map p | p in t.files && !IsStorePath(c, p) :: t.files[p]
  }

  lemma SameForeign(c: Config, t: Tree<Content>, t': Tree<Content>, own: set<Path>)
    requires Admissible(c) && forall p :: p in own ==> IsStorePath(c, p)
    requires t.files - own == t'.files - own
    ensures Foreign(c, t') == Foreign(c, t)
  {
    forall p | !IsStorePath(c, p) ensures p in t.files <==> p in t'.files
      ensures p in t.files ==> t.files[p] == t'.files[p]
    {
      assert p in t.files <==> p in t.files - own;
      assert p in t'.files <==> p in t'.files - own;
    }
  }

  // ------------------------------------------------------------------ operations on the tree

  function Ancestry(d: Path): set<Path> {
    set i | 0 <= i <= |d| :: d[..i]
  }

  /** MkdirAll: fails iff a file is in the way. */
  function MkdirAll<F>(t: Tree<F>, d: Path): (Tree<F>, Status) {
    if exists p :: p in Ancestry(d) && p in t.files then (t, Failed)
    else (t.(dirs := t.dirs + Ancestry(d)), Ok)
  }

  function Put<F>(t: Tree<F>, p: Path, x: F): Tree<F> {
    t.(files := t.files[p := x])
  }

  /** os.Rename onto a file path: replaces what was there. */
  function Rename<F>(t: Tree<F>, old_: Path, new_: Path): Tree<F>
    requires old_ in t.files
  {
    t.(files := (t.files - {old_})[new_ := t.files[old_]])
  }

  // ------------------------------------------------------------------ representation lemmas

  lemma InAncestry(d: Path, p: Path)
    ensures p in Ancestry(d) <==> p <= d
  {
    if p <= d {
      assert p == d[..|p|];
    }
  }

  lemma MkdirRepresents(c: Config, t: Tree<Content>, files: map<Loc, Content>, l: Loc, d: Path)
    requires Represents(c, t, files) && ValidLoc(l) && d <= DirOf(c, l)
    ensures MkdirAll(t, d) == (t.(dirs := t.dirs + Ancestry(d)), Ok)
    ensures Represents(c, MkdirAll(t, d).0, files)
    ensures d in MkdirAll(t, d).0.dirs
  {
    forall p ensures p in Ancestry(d) <==> p <= d {
      InAncestry(d, p);
    }
    forall p | p in Ancestry(d) ensures p !in t.files {
      assert p <= DirOf(c, l);
    }
    var t' := MkdirAll(t, d).0;
    forall k | ValidLoc(k) ensures PathOf(c, k) !in t'.dirs {
      if PathOf(c, k) <= d {
        DirFrame(c, k, l, PathOf(c, k));
      }
    }
    forall p | Entry(t', p) && p != [] ensures Parent(p) in t'.dirs {
      if p in Ancestry(d) {
        assert Parent(p) <= d;
      }
    }
    assert forall k :: ValidLoc(k) ==> AtPath(c, t', k) == AtPath(c, t, k);
  }

  lemma PutAt(c: Config, t: Tree<Content>, files: map<Loc, Content>, l: Loc, x: Content, k: Loc)
    requires Admissible(c) && ValidLoc(l) && ValidLoc(k)
    requires AtPath(c, t, k) == AtLoc(files, k) || k.Lock?
    ensures AtPath(c, Put(t, PathOf(c, l), x), k) == AtLoc(files[l := x], k) || k.Lock?
  {
    if k != l && PathOf(c, k) == PathOf(c, l) {
      PathFrame(c, k, l);
    }
  }

  lemma PutRepresents(c: Config, t: Tree<Content>, files: map<Loc, Content>, l: Loc, x: Content)
    requires Represents(c, t, files) && ValidLoc(l) && !l.Lock? && DirOf(c, l) in t.dirs && (l.Info? <==> x.Meta?)
    ensures Represents(c, Put(t, PathOf(c, l), x), files[l := x])
    ensures Foreign(c, Put(t, PathOf(c, l), x)) == Foreign(c, t)
  {
    var p := PathOf(c, l);
    var t' := Put(t, p, x);
    forall k | ValidLoc(k) ensures AtPath(c, t', k) == AtLoc(files[l := x], k) || k.Lock? {
      PutAt(c, t, files, l, x, k);
    }
    forall k, d | ValidLoc(k) && d <= DirOf(c, k) ensures d !in t'.files {
      if d == p {
        DirFrame(c, l, k, d);
      }
    }
    SameForeign(c, t, t', {p});
  }

  lemma DropRepresents(c: Config, t: Tree<Content>, files: map<Loc, Content>, l: Loc)
    requires Represents(c, t, files) && ValidLoc(l)
    ensures Represents(c, t.(files := t.files - {PathOf(c, l)}), files - {l})
  {
    var t' := t.(files := t.files - {PathOf(c, l)});
    forall k | ValidLoc(k) ensures AtPath(c, t', k) == AtLoc(files - {l}, k) || k.Lock? {
      assert AtPath(c, t, k) == AtLoc(files, k) || k.Lock?;
      if k != l && PathOf(c, k) == PathOf(c, l) {
        PathFrame(c, k, l);
      }
    }
  }

  lemma MoveRepresents(c: Config, t: Tree<Content>, files: map<Loc, Content>, a: Loc, b: Loc)
    requires Represents(c, t, files) && ValidLoc(a) && ValidLoc(b) && !a.Lock? && !b.Lock? && (a.Info? <==> b.Info?)
    requires DirOf(c, b) in t.dirs && a in files
    requires PathOf(c, a) in t.files && t.files[PathOf(c, a)] == files[a]
    ensures Represents(c, Rename(t, PathOf(c, a), PathOf(c, b)), (files - {a})[b := files[a]])
    ensures Foreign(c, Rename(t, PathOf(c, a), PathOf(c, b))) == Foreign(c, t)
  {
    DropRepresents(c, t, files, a);
    SameForeign(c, t, t.(files := t.files - {PathOf(c, a)}), {PathOf(c, a)});
    PutRepresents(c, t.(files := t.files - {PathOf(c, a)}), files - {a}, b, files[a]);
  }

  ghost function Paths(c: Config, locs: set<Loc>): set<Path>
    requires Admissible(c) && forall l :: l in locs ==> ValidLoc(l)
  {
    set l | l in locs :: PathOf(c, l)
  }

  /** Removing files with the directories they leave empty removes those files and no others. */
  lemma SweepRepresents(c: Config, t: Tree<Content>, files: map<Loc, Content>, locs: set<Loc>)
    requires Represents(c, t, files) && forall l :: l in locs ==> ValidLoc(l)
    ensures Represents(c, Sweep(t, c.base, Paths(c, locs)), files - locs)
  {
    var t' := Sweep(t, c.base, Paths(c, locs));
    SweepWellFormed(t, c.base, Paths(c, locs));
    forall k | ValidLoc(k) ensures AtPath(c, t', k) == AtLoc(files - locs, k) || k.Lock? {
      if PathOf(c, k) in Paths(c, locs) {
        var l :| l in locs && PathOf(c, l) == PathOf(c, k);
        PathFrame(c, k, l);
      } else {
        assert k !in locs;
      }
    }
  }

  lemma SweepKeepsForeign(c: Config, t: Tree<Content>, locs: set<Loc>)
    requires Admissible(c) && forall l :: l in locs ==> ValidLoc(l) && !l.Lock?
    ensures Foreign(c, Sweep(t, c.base, Paths(c, locs))) == Foreign(c, t)
  {
    SameForeign(c, t, Sweep(t, c.base, Paths(c, locs)), Paths(c, locs));
  }

  lemma SweepOne(c: Config, t: Tree<Content>, files: map<Loc, Content>, l: Loc)
    requires Represents(c, t, files) && ValidLoc(l)
    ensures WellFormed(t) && PathOf(c, l) !in t.dirs && Text(c.base) <= Text(PathOf(c, l))
    ensures Represents(c, Sweep(t, c.base, {PathOf(c, l)}), files - {l})
  {
    SweepRepresents(c, t, files, {l});
    assert Paths(c, {l}) == {PathOf(c, l)};
    TextPrefix(c.base, PathOf(c, l));
  }

  /** Sweeping the condemned locations is sweeping those of them that exist. */
  lemma SweepCondemned(c: Config, t: Tree<Content>, files: map<Loc, Content>, ids: set<Id>, rows: Table, locs: set<Loc>)
    requires Represents(c, t, files)
    requires forall l :: l in locs ==> ValidLoc(l) && !l.Lock?
    requires forall l :: l in files ==> (l in locs <==> Condemned(rows, ids, l))
    ensures Sweep(t, c.base, Paths(c, locs)) == Sweep(t, c.base, Paths(c, CondemnedFiles(Store(rows, files), ids)))
    ensures files - locs == files - CondemnedFiles(Store(rows, files), ids)
  {
    var condemned := CondemnedFiles(Store(rows, files), ids);
    forall p | p in t.files ensures p in Paths(c, locs) <==> p in Paths(c, condemned) {
      if p in Paths(c, locs) {
        var l :| l in locs && PathOf(c, l) == p;
        assert AtPath(c, t, l) == AtLoc(files, l);
        assert l in condemned;
      }
      if p in Paths(c, condemned) {
        var l :| l in condemned && PathOf(c, l) == p;
        assert l in locs;
      }
    }
    SweepExisting(t, c.base, Paths(c, locs), Paths(c, condemned));
  }

  lemma SweepPair(c: Config, t: Tree<Content>, files: map<Loc, Content>, a: Loc, b: Loc)
    requires Represents(c, t, files) && ValidLoc(a) && ValidLoc(b)
    ensures Sweep(Sweep(t, c.base, {PathOf(c, a)}), c.base, {PathOf(c, b)}) == Sweep(t, c.base, Paths(c, {a, b}))
    ensures files - {a} - {b} == files - {a, b}
  {
    SweepTwice(t, c.base, {PathOf(c, a)}, {PathOf(c, b)});
    assert {PathOf(c, a)} + {PathOf(c, b)} == Paths(c, {a, b});
  }

  // ------------------------------------------------------------------ termination on disk

  /** Table, files and directories together. */
  datatype Disk = Disk(store: Store, tree: Tree<Content>)

  ghost function TerminateOnDisk(c: Config, d: Disk, ids: set<Id>): Disk
    requires Represents(c, d.tree, d.store.files)
  {
    Disk(TerminateAll(d.store, ids), Sweep(d.tree, c.base, Paths(c, CondemnedFiles(d.store, ids))))
  }

  /** Terminate for one id after the other. */
  ghost function TerminateEachOnDisk(c: Config, d: Disk, ids: seq<Id>): Disk
    requires Represents(c, d.tree, d.store.files)
    decreases |ids|
  {
    if ids == [] then d
    else
      SweepRepresents(c, d.tree, d.store.files, CondemnedFiles(d.store, {ids[0]}));
      TerminateEachOnDisk(c, TerminateOnDisk(c, d, {ids[0]}), ids[1..])
  }

  lemma TerminateOnDiskTwice(c: Config, d: Disk, first: set<Id>, second: set<Id>)
    requires Represents(c, d.tree, d.store.files)
    ensures var d1 := TerminateOnDisk(c, d, first);
      && Represents(c, d1.tree, d1.store.files)
      && TerminateOnDisk(c, d1, second) == TerminateOnDisk(c, d, first + second)
  {
    var gone := CondemnedFiles(d.store, first);
    var d1 := TerminateOnDisk(c, d, first);
    var gone' := CondemnedFiles(d1.store, second);
    SweepRepresents(c, d.tree, d.store.files, gone);
    TerminateTwice(d.store, first, second);
    SweepTwice(d.tree, c.base, Paths(c, gone), Paths(c, gone'));
    assert Paths(c, gone) + Paths(c, gone') == Paths(c, gone + gone');
  }

  /**
   Terminating uploads one by one gives the same rows, files and directories in every order,
   and for every repetition of ids: those of terminating the set at once.
   */
  lemma {:induction false} OrderIrrelevant(c: Config, d: Disk, ids: seq<Id>)
    requires Represents(c, d.tree, d.store.files)
    ensures TerminateEachOnDisk(c, d, ids) == TerminateOnDisk(c, d, Ids(ids))
    decreases |ids|
  {
    if ids == [] {
      TerminateEachIsAll(d.store, []);
      assert forall l :: !Condemned(d.store.rows, {}, l);
      SweepNothing(d.tree, c.base, Paths(c, CondemnedFiles(d.store, {})));
    } else {
      TerminateOnDiskTwice(c, d, {ids[0]}, Ids(ids[1..]));
      OrderIrrelevant(c, TerminateOnDisk(c, d, {ids[0]}), ids[1..]);
      assert Ids(ids) == {ids[0]} + Ids(ids[1..]);
    }
  }

  /**
   On disk after any run: each live upload's bytes lie at the path its row resolves to, and the
   record, unfinished and blob paths that exist are exactly those a live row calls for.
   */
  lemma DiskHoldsExactly(sha: Bytes -> Hash, c: Config, t: Tree<Content>, ops: seq<Op>)
    requires AllowedRun(FRESH, ops) && InjectiveOn(sha, PlainRun(FRESH, ops).hashed)
    requires Represents(c, t, Run(sha, EMPTY, ops).files)
    ensures var s, content := Run(sha, EMPTY, ops), PlainRun(FRESH, ops).content;
      && (forall id :: id in content ==> IsUid(id) && AtPath(c, t, BinLoc(s.rows, id)) == Some(Bin(content[id])))
      && (forall l :: ValidLoc(l) && !l.Lock? ==> (PathOf(c, l) in t.files <==> Justified(s.rows, l)))
  {
    RunRefines(sha, ops);
    var s, content := Run(sha, EMPTY, ops), PlainRun(FRESH, ops).content;
    forall id | id in content ensures IsUid(id) && AtPath(c, t, BinLoc(s.rows, id)) == Some(Bin(content[id])) {
      var l := BinLoc(s.rows, id);
      assert AtPath(c, t, l) == AtLoc(s.files, l);
      assert Read(s, id) == Some(content[id]) && Good(sha, l, s.files[l]);
    }
    forall l | ValidLoc(l) && !l.Lock? ensures PathOf(c, l) in t.files <==> Justified(s.rows, l) {
      assert AtPath(c, t, l) == AtLoc(s.files, l);
    }
  }
}
