/** What one operation does to the directories below meta and complete: it leaves none of them empty. */
module StoreDirectories {
  import opened Bytes
  import opened FileTree
  import opened StorePaths
  import opened UploadStore
  import opened StoreRefinement
  import opened StoreTree

  /** The meta and complete directories and what is below them. */
  predicate Pruned(c: Config, d: Path) {
    c.base + ["meta"] <= d || c.base + ["complete"] <= d
  }

  /** There is a file at or below the directory, or it is on the way to one of those left behind. */
  ghost predicate Accounted(t: Tree<Content>, left: set<Path>, d: Path) {
    (exists p :: p in t.files && d <= p) || exists q :: q in left && d <= q
  }

  /** No such directory stands empty but on the way to those left behind. */
  ghost predicate TidyBut(c: Config, t: Tree<Content>, left: set<Path>) {
    forall d :: d in t.dirs && Pruned(c, d) ==> Accounted(t, left, d)
  }

  /** None stands empty: there is a file at or below each. */
  ghost predicate Tidy(c: Config, t: Tree<Content>) {
    TidyBut(c, t, {})
  }

  // ------------------------------------------------------------------ operations on disk

  /** The directories an operation leaves. */
  ghost function DirsAfter(sha: Bytes -> Hash, c: Config, d: Disk, op: Op): set<Path>
    requires Represents(c, d.tree, d.store.files) && (op.New? ==> IsUid(op.id))
  {
    match op
    case New(id, _, _) => d.tree.dirs + Ancestry(DirOf(c, Info(id))) + Ancestry(DirOf(c, Incomplete(id)))
    case Write(_, _) => d.tree.dirs
    case Concat(_, _) => d.tree.dirs
    case Finish(id) =>
      d.tree.dirs + if Read(d.store, id).Some? && id in d.store.rows
        then Ancestry(DirOf(c, Complete(sha(Read(d.store, id).value)))) else {}
    case Remove(id) => TerminateOnDisk(c, d, {id}).tree.dirs
  }

  /** One operation on table, files and directories; files that are not the store's stay as they are. */
  ghost predicate DiskStep(sha: Bytes -> Hash, c: Config, d: Disk, op: Op, d': Disk) {
    && Represents(c, d.tree, d.store.files)
    && (op.New? ==> IsUid(op.id))
    && d'.store == Step(sha, d.store, op)
    && Represents(c, d'.tree, d'.store.files)
    && Foreign(c, d'.tree) == Foreign(c, d.tree)
    && d'.tree.dirs == DirsAfter(sha, c, d, op)
  }

  /** A file stays if it is foreign or the store keeps it. */
  lemma FileStays(sha: Bytes -> Hash, c: Config, d: Disk, op: Op, d': Disk, p: Path)
    requires DiskStep(sha, c, d, op, d') && p in d.tree.files
    requires forall l :: l in d.store.files && l !in d'.store.files ==> PathOf(c, l) != p
    ensures p in d'.tree.files
  {
    if IsStorePath(c, p) {
      var l :| ValidLoc(l) && !l.Lock? && PathOf(c, l) == p;
      assert AtPath(c, d.tree, l) == AtLoc(d.store.files, l) && AtPath(c, d'.tree, l) == AtLoc(d'.store.files, l);
    } else {
      assert p in Foreign(c, d.tree) && p in Foreign(c, d'.tree);
    }
  }

  lemma StoredAt(c: Config, d: Disk, l: Loc)
    requires Represents(c, d.tree, d.store.files) && l in d.store.files && !l.Lock?
    ensures ValidLoc(l) && PathOf(c, l) in d.tree.files && DirOf(c, l) <= PathOf(c, l)
  {
    assert AtPath(c, d.tree, l) == AtLoc(d.store.files, l);
  }

  // ------------------------------------------------------------------ no empty directories

  /** Removing files with the directories they empty leaves no empty directory. */
  lemma SweepTidy(c: Config, t: Tree<Content>, gone: set<Path>, left: set<Path>)
    requires WellFormed(t) && TidyBut(c, t, left)
    ensures TidyBut(c, Sweep(t, c.base, gone), left)
  {
    var r := Sweep(t, c.base, gone);
    forall d | d in r.dirs && Pruned(c, d) ensures Accounted(r, left, d) {
      TextPrefix(c.base, d);
      assert Reachable(c.base, d) && !Emptied(t, c.base, gone, d);
      var e :| Entry(t, e) && d <= e && !OnChain(t, gone, e);
      if e in t.files {
        assert e in r.files;
      } else {
        assert Accounted(t, left, e);
        if p :| p in t.files && e <= p {
          assert p in r.files && d <= p;
        }
      }
    }
  }

  lemma NewTidy(sha: Bytes -> Hash, c: Config, d: Disk, op: Op, d': Disk, left: set<Path>)
    requires DiskStep(sha, c, d, op, d') && TidyBut(c, d.tree, left) && op.New? && op.id !in d.store.rows
    ensures TidyBut(c, d'.tree, left)
  {
    forall q | q in d'.tree.dirs && Pruned(c, q) ensures Accounted(d'.tree, left, q) {
      if q in d.tree.dirs {
        assert Accounted(d.tree, left, q);
        if p :| p in d.tree.files && q <= p {
          FileStays(sha, c, d, op, d', p);
        }
      } else {
        assert q in Ancestry(DirOf(c, Info(op.id))) || q in Ancestry(DirOf(c, Incomplete(op.id)));
        StoredAt(c, d', Info(op.id));
        assert q <= PathOf(c, Info(op.id));
      }
    }
  }

  /** Where bytes went that could be read. */
  lemma FinishedAt(sha: Bytes -> Hash, s: Store, id: Id)
    requires Exact(sha, s) && Read(s, id).Some? && id in s.rows
    ensures Complete(sha(Read(s, id).value)) in FinishUpload(sha, s, id).0.files
  {
    var l := BinLoc(s.rows, id);
    assert Good(sha, l, s.files[l]);
  }

  lemma NotIncomplete(c: Config, q: Path, id: Id)
    requires Admissible(c) && IsUid(id) && Pruned(c, q)
    ensures !(q <= PathOf(c, Incomplete(id)))
  {
    assert PathOf(c, Incomplete(id))[|c.base|] == "incomplete";
  }

  /** Of all files finishing takes only unfinished bytes from their place. */
  lemma FinishTakes(sha: Bytes -> Hash, s: Store, id: Id, l: Loc)
    requires l in s.files && l !in FinishUpload(sha, s, id).0.files
    ensures l == Incomplete(id)
  {
  }

  lemma FinishKeepsFile(sha: Bytes -> Hash, c: Config, d: Disk, id: Id, d': Disk, q: Path, p: Path)
    requires DiskStep(sha, c, d, Finish(id), d') && p in d.tree.files && q <= p && Pruned(c, q)
    ensures p in d'.tree.files
  {
    forall l | l in d.store.files && l !in d'.store.files ensures PathOf(c, l) != p {
      FinishTakes(sha, d.store, id, l);
      NotIncomplete(c, q, id);
    }
    FileStays(sha, c, d, Finish(id), d', p);
  }

  lemma FinishTidy(sha: Bytes -> Hash, c: Config, d: Disk, op: Op, d': Disk, left: set<Path>)
    requires DiskStep(sha, c, d, op, d') && TidyBut(c, d.tree, left) && op.Finish? && Exact(sha, d.store)
    ensures TidyBut(c, d'.tree, left)
  {
    forall q | q in d'.tree.dirs && Pruned(c, q) ensures Accounted(d'.tree, left, q) {
      if q in d.tree.dirs {
        assert Accounted(d.tree, left, q);
        if p :| p in d.tree.files && q <= p {
          FinishKeepsFile(sha, c, d, op.id, d', q, p);
        }
      } else {
        FinishedAt(sha, d.store, op.id);
        var l := Complete(sha(Read(d.store, op.id).value));
        StoredAt(c, d', l);
        assert q in Ancestry(DirOf(c, l));
        assert q <= PathOf(c, l);
      }
    }
  }

  lemma StepOfFinish(sha: Bytes -> Hash, s: Store, id: Id)
    ensures Step(sha, s, Finish(id)) == FinishUpload(sha, s, id).0
  {
  }

  /** Hashing, row update, MkdirAll and rename are one operation on disk. */
  lemma FinishStep(sha: Bytes -> Hash, c: Config, d: Disk, id: Id, d': Disk)
    requires Represents(c, d.tree, d.store.files) && Represents(c, d'.tree, d'.store.files)
    requires d'.store == FinishUpload(sha, d.store, id).0 && Foreign(c, d'.tree) == Foreign(c, d.tree)
    requires Read(d.store, id).Some? && id in d.store.rows
    requires d'.tree.dirs == d.tree.dirs + Ancestry(DirOf(c, Complete(sha(Read(d.store, id).value))))
    ensures DiskStep(sha, c, d, Finish(id), d')
    ensures Tidy(c, d.tree) && Exact(sha, d.store) ==> Tidy(c, d'.tree)
  {
    StepOfFinish(sha, d.store, id);
    if Tidy(c, d.tree) && Exact(sha, d.store) {
      FinishTidy(sha, c, d, Finish(id), d', {});
    }
  }

  lemma AppendTidy(sha: Bytes -> Hash, c: Config, d: Disk, op: Op, d': Disk, left: set<Path>)
    requires DiskStep(sha, c, d, op, d') && TidyBut(c, d.tree, left) && (op.Write? || op.Concat?)
    ensures TidyBut(c, d'.tree, left)
  {
    forall q | q in d'.tree.dirs && Pruned(c, q) ensures Accounted(d'.tree, left, q) {
      assert Accounted(d.tree, left, q);
      if p :| p in d.tree.files && q <= p {
        FileStays(sha, c, d, op, d', p);
      }
    }
  }

  lemma RemoveTidy(sha: Bytes -> Hash, c: Config, d: Disk, op: Op, d': Disk, left: set<Path>)
    requires DiskStep(sha, c, d, op, d') && TidyBut(c, d.tree, left) && op.Remove?
    ensures TidyBut(c, d'.tree, left)
  {
    var t' := TerminateOnDisk(c, d, {op.id}).tree;
    SweepTidy(c, d.tree, Paths(c, CondemnedFiles(d.store, {op.id})), left);
    SweepRepresents(c, d.tree, d.store.files, CondemnedFiles(d.store, {op.id}));
    SweepKeepsForeign(c, d.tree, CondemnedFiles(d.store, {op.id}));
    forall q | q in d'.tree.dirs && Pruned(c, q) ensures Accounted(d'.tree, left, q) {
      assert Accounted(t', left, q);
      if p :| p in t'.files && q <= p {
        SameFiles(c, t', d'.tree, d'.store.files, p);
      }
    }
  }

  lemma RemoveStep(sha: Bytes -> Hash, c: Config, d: Disk, id: Id)
    requires Represents(c, d.tree, d.store.files)
    ensures DiskStep(sha, c, d, Remove(id), TerminateOnDisk(c, d, {id}))
    ensures Tidy(c, d.tree) ==> Tidy(c, TerminateOnDisk(c, d, {id}).tree)
  {
    SweepRepresents(c, d.tree, d.store.files, CondemnedFiles(d.store, {id}));
    SweepKeepsForeign(c, d.tree, CondemnedFiles(d.store, {id}));
    if Tidy(c, d.tree) {
      SweepTidy(c, d.tree, Paths(c, CondemnedFiles(d.store, {id})), {});
    }
  }

  /** Two trees that represent the same files, and have the same others, have the same paths. */
  lemma SameFiles(c: Config, t: Tree<Content>, t': Tree<Content>, files: map<Loc, Content>, p: Path)
    requires Represents(c, t, files) && Represents(c, t', files) && Foreign(c, t) == Foreign(c, t') && p in t.files
    ensures p in t'.files
  {
    if IsStorePath(c, p) {
      var l :| ValidLoc(l) && !l.Lock? && PathOf(c, l) == p;
      assert AtPath(c, t, l) == AtLoc(files, l) && AtPath(c, t', l) == AtLoc(files, l);
    } else {
      assert p in Foreign(c, t) && p in Foreign(c, t');
    }
  }

  /** What an operation may create besides directories below meta and complete. */
  lemma NewDirectory(sha: Bytes -> Hash, c: Config, d: Disk, op: Op, q: Path)
    requires Represents(c, d.tree, d.store.files) && (op.New? ==> IsUid(op.id))
    requires q in DirsAfter(sha, c, d, op) && !Pruned(c, q)
    ensures q in d.tree.dirs || q <= c.base + ["incomplete"]
  {
    if q !in d.tree.dirs {
      var l := if op.New? then (if q in Ancestry(DirOf(c, Info(op.id))) then Info(op.id) else Incomplete(op.id))
        else Complete(sha(Read(d.store, op.id).value));
      assert q in Ancestry(DirOf(c, l)) && q <= DirOf(c, l);
      if !l.Incomplete? {
        assert |q| <= |c.base|;
        assert q <= c.base;
      }
    }
  }
}
