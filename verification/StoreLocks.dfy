/**
 Runs of the store on disk, locks included. A lock file lies beside the record of its upload and is
 removed without a walk, so that unlocking an upload that was terminated can leave directories empty:
 when it does, and what there is after every run.
 */
module StoreLocks {
  import opened Bytes
  import opened FileTree
  import opened StorePaths
  import opened UploadStore
  import opened StoreRefinement
  import opened StoreTree
  import opened StoreDirectories

  // ------------------------------------------------------------------ lock and unlock

  datatype Locking = Locked | Busy | NoDirectory

  function LockPath(c: Config, id: Id): Path
    requires Admissible(c) && IsUid(id)
  {
    PathOf(c, Lock(id))
  }

  function WithLock(c: Config, t: Tree<Content>, id: Id, owner: Bytes): (Tree<Content>, Locking)
    requires Admissible(c) && IsUid(id)
  {
    if DirOf(c, Lock(id)) !in t.dirs then (t, NoDirectory)
    else if LockPath(c, id) in t.files then (t, Busy)
    else (Put(t, LockPath(c, id), Bin(owner)), Locked)
  }

  function WithoutLock(c: Config, t: Tree<Content>, id: Id): Tree<Content>
    requires Admissible(c) && IsUid(id)
  {
    t.(files := t.files - {LockPath(c, id)})
  }

  /** The lock file is there and no other file is in its directory or below. */
  ghost predicate Bare(c: Config, t: Tree<Content>, id: Id)
    requires Admissible(c) && IsUid(id)
  {
    && LockPath(c, id) in t.files
    && forall p :: p in t.files && DirOf(c, Lock(id)) <= p ==> p == LockPath(c, id)
  }

  /** What TryLock answers and does, on the files and directories themselves. */
  lemma LockAnswers(c: Config, t: Tree<Content>, id: Id, owner: Bytes)
    requires Admissible(c) && IsUid(id)
    ensures var (t', answer) := WithLock(c, t, id, owner);
      && (answer == NoDirectory <==> DirOf(c, Info(id)) !in t.dirs)
      && (answer == Busy <==> DirOf(c, Info(id)) in t.dirs && LockPath(c, id) in t.files)
      && (answer == Locked <==> DirOf(c, Info(id)) in t.dirs && LockPath(c, id) !in t.files)
      && t'.dirs == t.dirs
      && t'.files == if answer == Locked then t.files[LockPath(c, id) := Bin(owner)] else t.files
  {
    assert DirOf(c, Lock(id)) == DirOf(c, Info(id));
  }

  lemma LockRepresents(c: Config, t: Tree<Content>, files: map<Loc, Content>, id: Id, owner: Bytes)
    requires Represents(c, t, files) && IsUid(id)
    ensures Represents(c, WithLock(c, t, id, owner).0, files)
  {
    var l := Lock(id);
    var t' := WithLock(c, t, id, owner).0;
    forall k | ValidLoc(k) ensures AtPath(c, t', k) == AtLoc(files, k) || k.Lock? {
      assert AtPath(c, t, k) == AtLoc(files, k) || k.Lock?;
      if PathOf(c, k) == PathOf(c, l) {
        PathFrame(c, k, l);
      }
    }
    forall k, d | ValidLoc(k) && d <= DirOf(c, k) ensures d !in t'.files {
      if d == PathOf(c, l) {
        DirFrame(c, l, k, d);
      }
    }
  }

  lemma UnlockRepresents(c: Config, t: Tree<Content>, files: map<Loc, Content>, id: Id)
    requires Represents(c, t, files) && IsUid(id)
    ensures Represents(c, WithoutLock(c, t, id), files)
  {
    DropRepresents(c, t, files, Lock(id));
    assert files - {Lock(id)} == files;
  }

  lemma LockTidy(c: Config, t: Tree<Content>, id: Id, owner: Bytes, left: set<Path>)
    requires Admissible(c) && IsUid(id)
    ensures TidyBut(c, t, left) ==> TidyBut(c, WithLock(c, t, id, owner).0, left)
  {
    var t' := WithLock(c, t, id, owner).0;
    forall d | Accounted(t, left, d) ensures Accounted(t', left, d) {
      if p :| p in t.files && d <= p {
        assert p in t'.files;
      }
    }
  }

  /** What unlocking can leave behind: nothing, or the directory of the lock file. */
  ghost function LeftBy(c: Config, t: Tree<Content>, id: Id): set<Path>
    requires Admissible(c) && IsUid(id)
  {
    if Bare(c, t, id) then {DirOf(c, Lock(id))} else {}
  }

  lemma UnlockTidy(c: Config, t: Tree<Content>, id: Id, left: set<Path>)
    requires Admissible(c) && WellFormed(t) && IsUid(id) && TidyBut(c, t, left)
    ensures TidyBut(c, WithoutLock(c, t, id), left + LeftBy(c, t, id))
  {
    var t', dir := WithoutLock(c, t, id), DirOf(c, Lock(id));
    forall d | d in t'.dirs && Pruned(c, d) ensures Accounted(t', left + LeftBy(c, t, id), d) {
      assert Accounted(t, left, d);
      if p :| p in t.files && d <= p {
        if p != LockPath(c, id) {
          assert p in t'.files;
        } else {
          assert d != p && Parent(p) == dir;
          assert d <= dir;
          if Bare(c, t, id) {
            assert dir in LeftBy(c, t, id);
          } else {
            var p' :| p' in t.files && dir <= p' && p' != p;
            assert p' in t'.files && d <= p';
          }
        }
      }
    }
  }

  /** A bare unlock leaves the directory, with nothing in it. */
  lemma BareUnlockLeaves(c: Config, t: Tree<Content>, id: Id)
    requires Admissible(c) && WellFormed(t) && IsUid(id) && Bare(c, t, id)
    ensures var t', dir := WithoutLock(c, t, id), DirOf(c, Info(id));
      dir in t'.dirs && !Tidy(c, t') && forall p :: p in t'.files ==> !(dir <= p)
  {
    var t', dir := WithoutLock(c, t, id), DirOf(c, Lock(id));
    assert Parent(LockPath(c, id)) == dir && dir in t.dirs && Pruned(c, dir);
    assert !Accounted(t', {}, dir);
  }

  /** Unlocking leaves a tidy tree tidy exactly if there was no lock, or another file in its directory or below. */
  lemma UnlockTidyIff(c: Config, t: Tree<Content>, id: Id)
    requires Admissible(c) && WellFormed(t) && IsUid(id) && Tidy(c, t)
    ensures Tidy(c, WithoutLock(c, t, id)) <==> !Bare(c, t, id)
  {
    UnlockTidy(c, t, id, {});
    if Bare(c, t, id) {
      BareUnlockLeaves(c, t, id);
    }
  }

  // ------------------------------------------------------------------ when an unlock is bare

  /** Never while the upload is live: its record is beside the lock. */
  lemma UnlockOfLiveIsNotBare(sha: Bytes -> Hash, c: Config, d: Disk, id: Id)
    requires Represents(c, d.tree, d.store.files) && Exact(sha, d.store) && Live(d.store.rows, id)
    ensures IsUid(id) && !Bare(c, d.tree, id)
  {
    assert Justified(d.store.rows, Info(id));
    StoredAt(c, d, Info(id));
    PathsDiffer(c, Info(id), Lock(id));
    assert DirOf(c, Lock(id)) == DirOf(c, Info(id));
  }

  lemma PathsDiffer(c: Config, a: Loc, b: Loc)
    requires Admissible(c) && ValidLoc(a) && ValidLoc(b) && a != b
    ensures PathOf(c, a) != PathOf(c, b)
  {
    if PathOf(c, a) == PathOf(c, b) {
      PathFrame(c, a, b);
    }
  }

  lemma LockIsForeign(c: Config, id: Id)
    requires Admissible(c) && IsUid(id)
    ensures !IsStorePath(c, LockPath(c, id))
  {
    forall l | ValidLoc(l) && !l.Lock? ensures PathOf(c, l) != LockPath(c, id) {
      PathsDiffer(c, l, Lock(id));
    }
  }

  /**
   The unlock after a Terminate of a locked upload is bare exactly if record and lock were the only
   files in their directory or below.
   */
  lemma LockedDeleteIsBareIff(sha: Bytes -> Hash, c: Config, d: Disk, id: Id, d': Disk)
    requires DiskStep(sha, c, d, Remove(id), d') && IsUid(id)
    ensures Bare(c, d'.tree, id) <==>
      && LockPath(c, id) in d.tree.files
      && forall p :: p in d.tree.files && DirOf(c, Info(id)) <= p ==> p == LockPath(c, id) || p == PathOf(c, Info(id))
  {
    var dir := DirOf(c, Info(id));
    LockIsForeign(c, id);
    assert LockPath(c, id) in d.tree.files <==> LockPath(c, id) in Foreign(c, d.tree);
    assert LockPath(c, id) in d'.tree.files <==> LockPath(c, id) in Foreign(c, d'.tree);
    forall p | dir <= p && p != LockPath(c, id)
      ensures p in d'.tree.files <==> p in d.tree.files && p != PathOf(c, Info(id))
    {
      RemovedInRecordDir(sha, c, d, id, d', p);
    }
  }

  /** Of the files at or below the directory of its record, a Terminate removes the record. */
  lemma RemovedInRecordDir(sha: Bytes -> Hash, c: Config, d: Disk, id: Id, d': Disk, p: Path)
    requires DiskStep(sha, c, d, Remove(id), d') && IsUid(id) && DirOf(c, Info(id)) <= p
    ensures p in d'.tree.files <==> p in d.tree.files && p != PathOf(c, Info(id))
  {
    if IsStorePath(c, p) {
      var l :| ValidLoc(l) && !l.Lock? && PathOf(c, l) == p;
      assert AtPath(c, d.tree, l) == AtLoc(d.store.files, l) && AtPath(c, d'.tree, l) == AtLoc(d'.store.files, l);
      InMetaIsRecord(c, l, id);
      RemovedRecord(sha, d.store, id, l.id);
      if l.id != id {
        PathsDiffer(c, l, Info(id));
      }
    } else {
      assert p in d.tree.files <==> p in Foreign(c, d.tree);
      assert p in d'.tree.files <==> p in Foreign(c, d'.tree);
      assert p != PathOf(c, Info(id));
    }
  }

  lemma RemovedRecord(sha: Bytes -> Hash, s: Store, id: Id, j: Id)
    ensures Info(j) in Step(sha, s, Remove(id)).files <==> Info(j) in s.files && j != id
  {
    assert Condemned(s.rows, {id}, Info(j)) <==> j == id;
  }

  lemma InMetaIsRecord(c: Config, l: Loc, id: Id)
    requires Admissible(c) && ValidLoc(l) && !l.Lock? && IsUid(id) && DirOf(c, Info(id)) <= PathOf(c, l)
    ensures l.Info?
  {
    assert DirOf(c, Info(id))[|c.base|] == "meta" && PathOf(c, l)[|c.base|] == "meta";
  }

  // ------------------------------------------------------------------ every run

  datatype Event = Call(op: Op) | TakeLock(id: Id, owner: Bytes, answer: Locking) | DropLock(id: Id)

  ghost predicate DiskEvent(sha: Bytes -> Hash, c: Config, d: Disk, e: Event, d': Disk) {
    match e
    case Call(op) => DiskStep(sha, c, d, op, d')
    case TakeLock(id, owner, answer) =>
      && Represents(c, d.tree, d.store.files) && IsUid(id)
      && d'.store == d.store && (d'.tree, answer) == WithLock(c, d.tree, id, owner)
    case DropLock(id) => Represents(c, d.tree, d.store.files) && IsUid(id) && d' == d.(tree := WithoutLock(c, d.tree, id))
  }

  function Calls(events: seq<Event>): seq<Op> {
    if events == [] then []
    else Calls(events[..|events| - 1]) + if events[|events| - 1].Call? then [events[|events| - 1].op] else []
  }

  /** The disk before each event of an allowed run, and after the last. */
  ghost predicate Trace(sha: Bytes -> Hash, c: Config, disks: seq<Disk>, events: seq<Event>) {
    && |disks| == |events| + 1
    && AllowedRun(FRESH, Calls(events))
    && disks[0].store == EMPTY
    && Represents(c, disks[0].tree, map[])
    && forall i :: 0 <= i < |events| ==> DiskEvent(sha, c, disks[i], events[i], disks[i + 1])
  }

  /** The event unlocks, and nothing but the lock is left in its directory. */
  ghost predicate BareUnlock(c: Config, d: Disk, e: Event) {
    e.DropLock? && Admissible(c) && IsUid(e.id) && Bare(c, d.tree, e.id)
  }

  /** The directories of the bare unlocks of a run. */
  ghost function LeftBehind(c: Config, disks: seq<Disk>, events: seq<Event>): set<Path>
    requires Admissible(c) && |disks| == |events| + 1
  {
    if events == [] then {}
    else
      var n := |events| - 1;
      LeftBehind(c, disks[..n + 1], events[..n])
        + if BareUnlock(c, disks[n], events[n]) then {DirOf(c, Lock(events[n].id))} else {}
  }

  /** The files of others, locks apart. */
  ghost function Strangers(c: Config, t: Tree<Content>): map<Path, Content>
    requires Admissible(c)
  {
    map p | p in Foreign(c, t) && !exists id :: IsUid(id) && LockPath(c, id) == p :: t.files[p]
  }

  /** One event, from a tree that is tidy but for some directories left behind. */
  lemma EventTidy(sha: Bytes -> Hash, c: Config, d: Disk, e: Event, d': Disk, p: Plain, left: set<Path>)
    requires DiskEvent(sha, c, d, e, d') && Refines(sha, d.store, p) && TidyBut(c, d.tree, left)
    requires e.Call? ==> Allowed(p, e.op)
    ensures TidyBut(c, d'.tree, left + if BareUnlock(c, d, e) then {DirOf(c, Lock(e.id))} else {})
  {
    match e
    case Call(op) => {
      assert left + {} == left;
      match op {
        case New(_, _, _) => NewTidy(sha, c, d, op, d', left);
        case Write(_, _) => AppendTidy(sha, c, d, op, d', left);
        case Concat(_, _) => AppendTidy(sha, c, d, op, d', left);
        case Finish(_) => FinishTidy(sha, c, d, op, d', left);
        case Remove(_) => RemoveTidy(sha, c, d, op, d', left);
      }
    }
    case TakeLock(id, owner, _) =>
      assert left + {} == left;
      LockTidy(c, d.tree, id, owner, left);
    case DropLock(id) => UnlockTidy(c, d.tree, id, left);
  }

  lemma EventKeepsStrangers(sha: Bytes -> Hash, c: Config, d: Disk, e: Event, d': Disk)
    requires DiskEvent(sha, c, d, e, d')
    ensures Represents(c, d'.tree, d'.store.files) && Strangers(c, d'.tree) == Strangers(c, d.tree)
    ensures e.Call? ==> Foreign(c, d'.tree) == Foreign(c, d.tree)
  {
    match e
    case Call(_) => StrangersOfForeign(c, d.tree, d'.tree);
    case TakeLock(id, owner, _) =>
      LockRepresents(c, d.tree, d.store.files, id, owner);
    case DropLock(id) =>
      UnlockRepresents(c, d.tree, d.store.files, id);
  }

  lemma StrangersOfForeign(c: Config, t: Tree<Content>, t': Tree<Content>)
    requires Admissible(c) && Foreign(c, t') == Foreign(c, t)
    ensures Strangers(c, t') == Strangers(c, t)
  {
    forall p ensures p in Foreign(c, t) ==> t.files[p] == Foreign(c, t)[p]
      ensures p in Foreign(c, t') ==> t'.files[p] == Foreign(c, t')[p] {}
  }

  lemma RunOneMore(sha: Bytes -> Hash, ops: seq<Op>, op: Op)
    requires AllowedRun(FRESH, ops + [op])
    ensures AllowedRun(FRESH, ops) && Allowed(PlainRun(FRESH, ops), op)
    ensures PlainRun(FRESH, ops).hashed <= PlainRun(FRESH, ops + [op]).hashed
    ensures Run(sha, EMPTY, ops + [op]) == Step(sha, Run(sha, EMPTY, ops), op)
  {
    var more := ops + [op];
    assert more[..|more| - 1] == ops && more[|more| - 1] == op;
    assert PlainRun(FRESH, more) == PlainStep(PlainRun(FRESH, ops), op);
  }

  lemma CallsBefore(sha: Bytes -> Hash, events: seq<Event>)
    requires events != [] && AllowedRun(FRESH, Calls(events))
    ensures var e, ops := events[|events| - 1], Calls(events[..|events| - 1]);
      && AllowedRun(FRESH, ops)
      && PlainRun(FRESH, ops).hashed <= PlainRun(FRESH, Calls(events)).hashed
      && if e.Call? then
           Allowed(PlainRun(FRESH, ops), e.op) && Run(sha, EMPTY, Calls(events)) == Step(sha, Run(sha, EMPTY, ops), e.op)
         else Calls(events) == ops
  {
    var e, ops := events[|events| - 1], Calls(events[..|events| - 1]);
    if e.Call? {
      assert Calls(events) == ops + [e.op];
      RunOneMore(sha, ops, e.op);
    } else {
      assert Calls(events) == ops + [] == ops;
    }
  }

  /** The same trace without its last event. */
  lemma TraceBefore(sha: Bytes -> Hash, c: Config, disks: seq<Disk>, events: seq<Event>)
    requires Trace(sha, c, disks, events) && events != []
    ensures Trace(sha, c, disks[..|events|], events[..|events| - 1]) && disks[..|events|][|events| - 1] == disks[|events| - 1]
  {
    CallsBefore(sha, events);
    var disks', events' := disks[..|events|], events[..|events| - 1];
    forall i | 0 <= i < |events'| ensures DiskEvent(sha, c, disks'[i], events'[i], disks'[i + 1]) {
      assert DiskEvent(sha, c, disks[i], events[i], disks[i + 1]);
    }
  }

  /** Table and files are those of the run of calls; the files of others, locks apart, stay as they are. */
  lemma {:induction false} TraceStores(sha: Bytes -> Hash, c: Config, disks: seq<Disk>, events: seq<Event>)
    requires Trace(sha, c, disks, events)
    ensures var d := disks[|events|];
      && d.store == Run(sha, EMPTY, Calls(events))
      && Represents(c, d.tree, d.store.files)
      && Strangers(c, d.tree) == Strangers(c, disks[0].tree)
      && ((forall i :: 0 <= i < |events| ==> events[i].Call?) ==> Foreign(c, d.tree) == Foreign(c, disks[0].tree))
      && forall q :: q in d.tree.dirs && !Pruned(c, q) ==> q in disks[0].tree.dirs || q <= c.base + ["incomplete"]
    decreases |events|
  {
    if events != [] {
      var n := |events| - 1;
      CallsBefore(sha, events);
      TraceBefore(sha, c, disks, events);
      TraceStores(sha, c, disks[..n + 1], events[..n]);
      assert DiskEvent(sha, c, disks[n], events[n], disks[n + 1]);
      EventKeepsStrangers(sha, c, disks[n], events[n], disks[n + 1]);
      forall q | q in disks[n + 1].tree.dirs && !Pruned(c, q) && events[n].Call?
        ensures q in disks[n].tree.dirs || q <= c.base + ["incomplete"]
      {
        NewDirectory(sha, c, disks[n], events[n].op, q);
      }
    }
  }

  lemma {:induction false} TraceTidy(sha: Bytes -> Hash, c: Config, disks: seq<Disk>, events: seq<Event>)
    requires Trace(sha, c, disks, events) && InjectiveOn(sha, PlainRun(FRESH, Calls(events)).hashed) && Tidy(c, disks[0].tree)
    ensures TidyBut(c, disks[|events|].tree, LeftBehind(c, disks, events))
    decreases |events|
  {
    if events != [] {
      var n := |events| - 1;
      var d, before := disks[n], LeftBehind(c, disks[..n + 1], events[..n]);
      CallsBefore(sha, events);
      TraceBefore(sha, c, disks, events);
      TraceTidy(sha, c, disks[..n + 1], events[..n]);
      TraceStores(sha, c, disks[..n + 1], events[..n]);
      RunRefines(sha, Calls(events[..n]));
      assert DiskEvent(sha, c, d, events[n], disks[n + 1]);
      EventTidy(sha, c, d, events[n], disks[n + 1], PlainRun(FRESH, Calls(events[..n])), before);
    }
  }

  // ------------------------------------------------------------------ mutual exclusion

  /** A lock file stays over every event but the unlocking of its own upload. */
  lemma LockStays(sha: Bytes -> Hash, c: Config, d: Disk, e: Event, d': Disk, id: Id)
    requires DiskEvent(sha, c, d, e, d') && IsUid(id) && LockPath(c, id) in d.tree.files && e != DropLock(id)
    ensures LockPath(c, id) in d'.tree.files
  {
    match e
    case Call(_) =>
      LockIsForeign(c, id);
      assert LockPath(c, id) in Foreign(c, d.tree) && LockPath(c, id) in Foreign(c, d'.tree);
    case TakeLock(j, owner, _) => LockAnswers(c, d.tree, j, owner);
    case DropLock(j) => PathsDiffer(c, Lock(j), Lock(id));
  }

  /** A lock granted by event i is there until event j, if no event between the two unlocks the upload. */
  lemma {:induction false} LockHeld(sha: Bytes -> Hash, c: Config, disks: seq<Disk>, events: seq<Event>, i: nat, j: nat, id: Id)
    requires Trace(sha, c, disks, events) && i < j <= |events| && IsUid(id)
    requires events[i].TakeLock? && events[i].id == id && events[i].answer == Locked
    requires forall k :: i < k < j ==> events[k] != DropLock(id)
    ensures LockPath(c, id) in disks[j].tree.files
    decreases j
  {
    var d, e, d' := disks[j - 1], events[j - 1], disks[j];
    assert DiskEvent(sha, c, d, e, d');
    if j == i + 1 {
      LockAnswers(c, d.tree, id, e.owner);
    } else {
      LockHeld(sha, c, disks, events, i, j - 1, id);
      LockStays(sha, c, d, e, d', id);
    }
  }

  /**
   Mutual exclusion, in every run: between the granting of an upload's lock and its next unlocking every
   further attempt to lock it is refused as busy and changes nothing, whatever calls lie between,
   a Terminate of that upload included.
   */
  lemma LockedOnce(sha: Bytes -> Hash, c: Config, disks: seq<Disk>, events: seq<Event>, i: nat, j: nat, id: Id)
    requires Trace(sha, c, disks, events) && i < j < |events| && IsUid(id)
    requires events[i].TakeLock? && events[i].id == id && events[i].answer == Locked
    requires forall k :: i < k < j ==> events[k] != DropLock(id)
    requires events[j].TakeLock? && events[j].id == id
    ensures events[j].answer == Busy && disks[j + 1] == disks[j]
  {
    LockHeld(sha, c, disks, events, i, j, id);
    assert DiskEvent(sha, c, disks[j], events[j], disks[j + 1]) && DiskEvent(sha, c, disks[i], events[i], disks[i + 1]);
    LockAnswers(c, disks[j].tree, id, events[j].owner);
    assert WellFormed(disks[j].tree) && Parent(LockPath(c, id)) == DirOf(c, Info(id)) by {
      assert DirOf(c, Lock(id)) == DirOf(c, Info(id));
    }
    assert Entry(disks[j].tree, LockPath(c, id));
  }

  // ------------------------------------------------------------------ what there is after every run

  /** A record or blob of a live upload, or a file of others, lock files included, is below the directory. */
  ghost predicate Needed(c: Config, t: Tree<Content>, rows: Table, q: Path)
    requires Admissible(c)
  {
    || (exists l :: ValidLoc(l) && Justified(rows, l) && q < PathOf(c, l))
    || (exists p :: p in Foreign(c, t) && q < p)
  }

  lemma NeededIsThere(sha: Bytes -> Hash, c: Config, d: Disk, q: Path)
    requires Represents(c, d.tree, d.store.files) && Exact(sha, d.store) && Needed(c, d.tree, d.store.rows, q)
    ensures q in d.tree.dirs
  {
    if l :| ValidLoc(l) && Justified(d.store.rows, l) && q < PathOf(c, l) {
      StoredAt(c, d, l);
      AncestorsAreDirs(d.tree, PathOf(c, l), q);
    } else {
      var p :| p in Foreign(c, d.tree) && q < p;
      AncestorsAreDirs(d.tree, p, q);
    }
  }

  lemma ThereIsNeeded(sha: Bytes -> Hash, c: Config, d: Disk, q: Path, left: set<Path>)
    requires Represents(c, d.tree, d.store.files) && Exact(sha, d.store) && TidyBut(c, d.tree, left)
    requires Pruned(c, q) && q in d.tree.dirs
    ensures Needed(c, d.tree, d.store.rows, q) || exists e :: e in left && q <= e
  {
    assert Accounted(d.tree, left, q);
    if p :| p in d.tree.files && q <= p {
      assert q != p;
      assert q < p;
      if IsStorePath(c, p) {
        var l :| ValidLoc(l) && !l.Lock? && PathOf(c, l) == p;
        assert AtPath(c, d.tree, l) == AtLoc(d.store.files, l);
        assert ValidLoc(l) && Justified(d.store.rows, l) && q < PathOf(c, l);
      } else {
        assert p in Foreign(c, d.tree);
      }
    }
  }

  /** The needed directories are there, and of meta and complete no others but on the way to those left behind. */
  ghost predicate NeededBut(c: Config, t: Tree<Content>, rows: Table, left: set<Path>)
    requires Admissible(c)
  {
    && (forall q :: Needed(c, t, rows, q) ==> q in t.dirs)
    && (forall q :: q in t.dirs && Pruned(c, q) ==> Needed(c, t, rows, q) || exists e :: e in left && q <= e)
  }

  lemma ThereIffNeeded(sha: Bytes -> Hash, c: Config, d: Disk, left: set<Path>)
    requires Represents(c, d.tree, d.store.files) && Exact(sha, d.store) && TidyBut(c, d.tree, left)
    ensures NeededBut(c, d.tree, d.store.rows, left)
  {
    forall q | Needed(c, d.tree, d.store.rows, q) ensures q in d.tree.dirs {
      NeededIsThere(sha, c, d, q);
    }
    forall q | q in d.tree.dirs && Pruned(c, q)
      ensures Needed(c, d.tree, d.store.rows, q) || exists e :: e in left && q <= e
    {
      ThereIsNeeded(sha, c, d, q, left);
    }
  }

  /**
   After every allowed run, from a disk without empty directories below meta and complete: every directory
   there that is needed exists, and one that is not lies on the way to one that a bare unlock left. Only the
   way to the unfinished bytes is made besides, and stays; files of others, locks apart, are as they were.
   */
  lemma DirectoriesExact(sha: Bytes -> Hash, c: Config, disks: seq<Disk>, events: seq<Event>)
    requires Trace(sha, c, disks, events) && InjectiveOn(sha, PlainRun(FRESH, Calls(events)).hashed) && Tidy(c, disks[0].tree)
    ensures var t, t', rows := disks[0].tree, disks[|events|].tree, Run(sha, EMPTY, Calls(events)).rows;
      && Strangers(c, t') == Strangers(c, t)
      && NeededBut(c, t', rows, LeftBehind(c, disks, events))
      && (forall q :: q in t'.dirs && !Pruned(c, q) ==> q in t.dirs || q <= c.base + ["incomplete"])
  {
    TraceStores(sha, c, disks, events);
    TraceTidy(sha, c, disks, events);
    RunRefines(sha, Calls(events));
    ThereIffNeeded(sha, c, disks[|events|], LeftBehind(c, disks, events));
  }

  ghost predicate AllTidy(c: Config, disks: seq<Disk>) {
    forall i :: 0 <= i < |disks| ==> Tidy(c, disks[i].tree)
  }

  ghost predicate NoneBare(c: Config, disks: seq<Disk>, events: seq<Event>)
    requires |disks| == |events| + 1
  {
    forall i :: 0 <= i < |events| ==> !BareUnlock(c, disks[i], events[i])
  }

  lemma {:induction false} NothingLeft(c: Config, disks: seq<Disk>, events: seq<Event>)
    requires Admissible(c) && |disks| == |events| + 1
    requires NoneBare(c, disks, events)
    ensures LeftBehind(c, disks, events) == {}
    decreases |events|
  {
    if events != [] {
      OneMoreEvent(c, disks, events);
      NothingLeft(c, disks[..|events|], events[..|events| - 1]);
    }
  }

  /** Without bare unlocks, then, a directory there exists exactly if it is needed; without locks, files of others are as they were. */
  lemma DirectoriesExactUnlessBare(sha: Bytes -> Hash, c: Config, disks: seq<Disk>, events: seq<Event>)
    requires Trace(sha, c, disks, events) && InjectiveOn(sha, PlainRun(FRESH, Calls(events)).hashed) && Tidy(c, disks[0].tree)
    requires NoneBare(c, disks, events)
    ensures var t, t', rows := disks[0].tree, disks[|events|].tree, Run(sha, EMPTY, Calls(events)).rows;
      && (forall q :: Pruned(c, q) ==> (q in t'.dirs <==> Needed(c, t', rows, q)))
      && ((forall i :: 0 <= i < |events| ==> events[i].Call?) ==> Foreign(c, t') == Foreign(c, t))
  {
    DirectoriesExact(sha, c, disks, events);
    TraceStores(sha, c, disks, events);
    NothingLeft(c, disks, events);
  }

  lemma LastEventTidyIff(sha: Bytes -> Hash, c: Config, d: Disk, e: Event, d': Disk, p: Plain)
    requires DiskEvent(sha, c, d, e, d') && Refines(sha, d.store, p) && Tidy(c, d.tree)
    requires e.Call? ==> Allowed(p, e.op)
    ensures Tidy(c, d'.tree) <==> !BareUnlock(c, d, e)
  {
    EventTidy(sha, c, d, e, d', p, {});
    if e.DropLock? {
      UnlockTidyIff(c, d.tree, e.id);
    }
  }

  lemma OneMoreEvent(c: Config, disks: seq<Disk>, events: seq<Event>)
    requires |disks| == |events| + 1 && events != []
    ensures var n := |events| - 1;
      && (AllTidy(c, disks) <==> AllTidy(c, disks[..n + 1]) && Tidy(c, disks[n + 1].tree))
      && (AllTidy(c, disks[..n + 1]) ==> Tidy(c, disks[n].tree))
      && (NoneBare(c, disks, events) <==> NoneBare(c, disks[..n + 1], events[..n]) && !BareUnlock(c, disks[n], events[n]))
  {
    var n := |events| - 1;
    assert disks[..n + 1][n] == disks[n];
    assert forall i :: 0 <= i < n ==> disks[..n + 1][i] == disks[i] && events[..n][i] == events[i];
  }

  /** No directory below meta and complete ever stands empty in a run exactly if none did at first and no unlock is bare. */
  lemma {:induction false} AlwaysTidyIff(sha: Bytes -> Hash, c: Config, disks: seq<Disk>, events: seq<Event>)
    requires Trace(sha, c, disks, events) && InjectiveOn(sha, PlainRun(FRESH, Calls(events)).hashed)
    ensures AllTidy(c, disks) <==> Tidy(c, disks[0].tree) && NoneBare(c, disks, events)
    decreases |events|
  {
    if events != [] {
      var n := |events| - 1;
      CallsBefore(sha, events);
      TraceBefore(sha, c, disks, events);
      AlwaysTidyIff(sha, c, disks[..n + 1], events[..n]);
      OneMoreEvent(c, disks, events);
      TraceStores(sha, c, disks[..n + 1], events[..n]);
      RunRefines(sha, Calls(events[..n]));
      assert DiskEvent(sha, c, disks[n], events[n], disks[n + 1]);
      if Tidy(c, disks[n].tree) {
        LastEventTidyIff(sha, c, disks[n], events[n], disks[n + 1], PlainRun(FRESH, Calls(events[..n])));
      }
    }
  }

  /** A client's DELETE on a disk without other files: lock, terminate, unlock. */
  function LockedDelete(id: Id, now: int, info: UploadInfo, owner: Bytes): seq<Event> {
    [Call(New(id, now, info)), TakeLock(id, owner, Locked), Call(Remove(id)), DropLock(id)]
  }

  /** Every file is one of the store's or a foreign one. */
  lemma OwnOrForeign(c: Config, d: Disk, p: Path)
    requires Represents(c, d.tree, d.store.files) && p in d.tree.files
    ensures p in Foreign(c, d.tree) || exists l :: l in d.store.files && ValidLoc(l) && !l.Lock? && PathOf(c, l) == p
  {
    if IsStorePath(c, p) {
      var l :| ValidLoc(l) && !l.Lock? && PathOf(c, l) == p;
      assert AtPath(c, d.tree, l) == AtLoc(d.store.files, l);
    }
  }

  /** A lock taken beside a lone record. */
  lemma LockBesideRecord(c: Config, t: Tree<Content>, id: Id, owner: Bytes)
    requires Admissible(c) && IsUid(id) && DirOf(c, Info(id)) in t.dirs
    requires forall p :: p in t.files && DirOf(c, Info(id)) <= p ==> p == PathOf(c, Info(id))
    ensures var t' := WithLock(c, t, id, owner).0;
      && LockPath(c, id) in t'.files
      && forall p :: p in t'.files && DirOf(c, Info(id)) <= p ==> p == LockPath(c, id) || p == PathOf(c, Info(id))
  {
    assert DirOf(c, Info(id)) == DirOf(c, Lock(id)) <= LockPath(c, id);
    PathsDiffer(c, Info(id), Lock(id));
  }

  /** The first upload of a disk without files has its record's directory to itself. */
  lemma FirstUploadAlone(sha: Bytes -> Hash, c: Config, d0: Disk, id: Id, now: int, info: UploadInfo, d1: Disk)
    requires IsUid(id) && DiskStep(sha, c, d0, New(id, now, info), d1) && d0.store == EMPTY && d0.tree.files == map[]
    ensures DirOf(c, Info(id)) in d1.tree.dirs
    ensures forall p :: p in d1.tree.files && DirOf(c, Info(id)) <= p ==> p == PathOf(c, Info(id))
  {
    NewMakesDir(sha, c, d0, id, now, info, d1);
    forall p | p in d1.tree.files && DirOf(c, Info(id)) <= p ensures p == PathOf(c, Info(id)) {
      OneRecordAlone(sha, c, d0, id, now, info, d1, p);
    }
  }

  lemma NewMakesDir(sha: Bytes -> Hash, c: Config, d0: Disk, id: Id, now: int, info: UploadInfo, d1: Disk)
    requires DiskStep(sha, c, d0, New(id, now, info), d1)
    ensures DirOf(c, Info(id)) in d1.tree.dirs
  {
    InAncestry(DirOf(c, Info(id)), DirOf(c, Info(id)));
  }

  lemma OneRecordAlone(sha: Bytes -> Hash, c: Config, d0: Disk, id: Id, now: int, info: UploadInfo, d1: Disk, p: Path)
    requires IsUid(id) && DiskStep(sha, c, d0, New(id, now, info), d1) && d0.store == EMPTY && d0.tree.files == map[]
    requires p in d1.tree.files && DirOf(c, Info(id)) <= p
    ensures p == PathOf(c, Info(id))
  {
    OwnOrForeign(c, d1, p);
    assert p !in Foreign(c, d0.tree);
    var l :| l in d1.store.files && ValidLoc(l) && !l.Lock? && PathOf(c, l) == p;
    InMetaIsRecord(c, l, id);
    assert d1.store.files.Keys == {Incomplete(id), Info(id)};
  }

  lemma LockedDeleteSteps(sha: Bytes -> Hash, c: Config, id: Id, now: int, info: UploadInfo, owner: Bytes,
      d0: Disk, d1: Disk, d2: Disk, d3: Disk)
    requires IsUid(id) && d0.store == EMPTY && d0.tree.files == map[] && DiskStep(sha, c, d0, New(id, now, info), d1)
    requires d2 == d1.(tree := WithLock(c, d1.tree, id, owner).0) && DiskStep(sha, c, d2, Remove(id), d3)
    ensures Bare(c, d3.tree, id)
  {
    FirstUploadAlone(sha, c, d0, id, now, info, d1);
    LockBesideRecord(c, d1.tree, id, owner);
    LockedDeleteIsBareIff(sha, c, d2, id, d3);
  }

  /** It leaves the directory of the record, with nothing in it. */
  lemma LockedDeleteLeavesDirectory(sha: Bytes -> Hash, c: Config, disks: seq<Disk>, id: Id, now: int, info: UploadInfo, owner: Bytes)
    requires IsUid(id) && Trace(sha, c, disks, LockedDelete(id, now, info, owner)) && disks[0].tree.files == map[]
    ensures var t, dir := disks[4].tree, DirOf(c, Info(id));
      dir in t.dirs && !Tidy(c, t) && forall p :: p in t.files ==> !(dir <= p)
  {
    var events := LockedDelete(id, now, info, owner);
    assert DiskEvent(sha, c, disks[0], events[0], disks[1]) && DiskEvent(sha, c, disks[1], events[1], disks[2]);
    assert DiskEvent(sha, c, disks[2], events[2], disks[3]) && DiskEvent(sha, c, disks[3], events[3], disks[4]);
    LockedDeleteSteps(sha, c, id, now, info, owner, disks[0], disks[1], disks[2], disks[3]);
    BareUnlockLeaves(c, disks[3].tree, id);
  }
}
