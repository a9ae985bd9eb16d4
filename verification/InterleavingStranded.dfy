/**
 The window of the prune is exact and can be reached: a walk that prunes what a FinishUpload has made
 can be followed by its failing rename, and the upload can then be neither read, written nor finished.
 */
module InterleavingStranded {
  import opened Bytes
  import opened FileTree
  import opened StorePaths
  import opened UploadStore
  import opened StoreRefinement
  import opened Interleaving
  import opened InterleavingDirs
  import opened InterleavingWindows

  /** Stranded for good, as far as its own calls go: its bytes lie where nobody looks for them. */
  predicate Lost(sys: System, id: Id) {
    && Stranded(sys, id)
    && Read(sys.store, id) == None
    && Incomplete(id) in sys.store.files
    && !Writable(sys, id) && !Enabled(sys, HashBytes(id))
  }

  // ------------------------------------------------------------------ the window is exact

  /** What a prune takes away is neither there afterwards, nor is anything below it. */
  lemma PrunedIsGone(sha: Bytes -> Hash, sys: System, pid: nat, d: Path)
    requires DirsSound(sys) && Enabled(sys, Prune(pid)) && sys.terminators[pid].phase.at <= d
    ensures !HasDir(Next(sha, sys, Prune(pid)), d)
  {
    var at, sys' := sys.terminators[pid].phase.at, Next(sha, sys, Prune(pid));
    DirsStaySound(sha, sys, Prune(pid));
    if d in sys'.dirs {
      DirsAbove(sys', d, at);
    }
  }

  /** A rename whose directory is gone fails, and leaves the upload lost. */
  lemma FailedMoveLoses(sha: Bytes -> Hash, sys: System, id: Id)
    requires Sound(sha, sys) && Placed(sys) && Renaming(sys, id) && ReadyToMove(sys, id)
    requires !HasDir(sys, DirBelow(sys.shards, sys.finishing[id].hash))
    ensures Enabled(sys, MoveFails(id)) && Lost(Next(sha, sys, MoveFails(id)), id)
  {
    var h := sys.finishing[id].hash;
    assert Complete(h) !in sys.store.files;
    assert Unfinished(sys, id);
  }

  /** With the directory above it gone, the next one is not made, and MkdirAll gives up. */
  lemma MakeDirGivesUp(sha: Bytes -> Hash, sys: System, id: Id)
    requires DirsSound(sys) && Renaming(sys, id) && !ReadyToMove(sys, id)
    requires !HasDir(sys, MadeDir(sys, id))
    ensures Enabled(sys, MakeDir(id))
    ensures var sys' := Next(sha, sys, MakeDir(id));
      && Renaming(sys', id) && ReadyToMove(sys', id) && sys'.finishing[id].hash == sys.finishing[id].hash
      && !HasDir(sys', DirBelow(sys'.shards, sys'.finishing[id].hash))
  {
    var d := DirBelow(sys.shards, sys.finishing[id].hash);
    if d in sys.dirs {
      DirsAbove(sys, d, MadeDir(sys, id));
    }
  }

  /** A step that is in neither of the other two windows, whatever the state. */
  predicate Harmless(a: Action) {
    !a.Move? && !a.SetHash?
  }

  /** Some steps left of its FinishUpload lose the upload. */
  ghost predicate FailsFrom(sha: Bytes -> Hash, sys: System, rest: seq<Action>, id: Id) {
    && EnabledForward(sha, sys, rest)
    && Lost(Forward(sha, sys, rest), id)
    && forall i :: 0 <= i < |rest| ==> Harmless(rest[i])
  }

  /** Once what was made is gone, the FinishUpload has one or two steps left, and they lose the upload. */
  lemma FinishFails(sha: Bytes -> Hash, sys: System, id: Id)
    requires Sound(sha, sys) && Placed(sys) && Renaming(sys, id)
    requires !HasDir(sys, MadeDir(sys, id))
    ensures exists rest :: FailsFrom(sha, sys, rest, id)
  {
    if ReadyToMove(sys, id) {
      FailedMoveLoses(sha, sys, id);
      OneStep(sha, sys, MoveFails(id));
      assert FailsFrom(sha, sys, [MoveFails(id)], id);
    } else {
      MakeDirGivesUp(sha, sys, id);
      SoundnessKept(sha, sys, MakeDir(id));
      PlacedStays(sha, sys, MakeDir(id));
      FailedMoveLoses(sha, Next(sha, sys, MakeDir(id)), id);
      OneStep(sha, Next(sha, sys, MakeDir(id)), MoveFails(id));
      assert [MakeDir(id), MoveFails(id)][1..] == [MoveFails(id)];
      assert FailsFrom(sha, sys, [MakeDir(id), MoveFails(id)], id);
    }
  }

  /**
   From any state of a run in which what MkdirAll has made is still there, a prune in its window can be
   followed by the steps the FinishUpload has left so that its upload is lost.
   */
  lemma PruneLoses(sha: Bytes -> Hash, sys: System, a: Action)
    requires Sound(sha, sys) && Placed(sys) && MadeIsThere(sys) && Enabled(sys, a) && InPruneWindow(sys, a)
    ensures exists rest, id :: FailsFrom(sha, Next(sha, sys, a), rest, id)
  {
    var id :| Renaming(sys, id) && sys.terminators[a.pid].phase.at <= MadeDir(sys, id);
    SoundnessKept(sha, sys, a);
    PlacedStays(sha, sys, a);
    PrunedIsGone(sha, sys, a.pid, MadeDir(sys, id));
    SameRenaming(sha, sys, a, id);
    FinishFails(sha, Next(sha, sys, a), id);
  }

  lemma SameRenaming(sha: Bytes -> Hash, sys: System, a: Action, id: Id)
    requires Enabled(sys, a) && a.Prune? && Renaming(sys, id)
    ensures var sys' := Next(sha, sys, a);
      && Renaming(sys', id) && sys'.finishing == sys.finishing && sys'.shards == sys.shards
      && MadeDir(sys', id) == MadeDir(sys, id)
  {
  }

  lemma PlacedStays(sha: Bytes -> Hash, sys: System, a: Action)
    requires Sound(sha, sys) && Placed(sys) && Enabled(sys, a)
    ensures Placed(Next(sha, sys, a))
  {
    DirsStaySound(sha, sys, a);
    BlobsStayPlaced(sha, sys, a);
    BytesStayKept(sha, sys, a);
  }

  lemma OneStep(sha: Bytes -> Hash, sys: System, a: Action)
    requires Enabled(sys, a)
    ensures EnabledForward(sha, sys, [a]) && Forward(sha, sys, [a]) == Next(sha, sys, a)
  {
    assert [a][1..] == [];
  }

  // ------------------------------------------------------------------ and it is reached

  lemma ResolveStep(sha: Bytes -> Hash, sys: System, pid: nat, id: Id, h: Hash)
    requires pid in sys.terminators && sys.terminators[pid] == Terminator(id, Counted(0)) && HashOf(sys.store.rows, id) == Some(h)
    ensures Enabled(sys, Resolve(pid))
    ensures Next(sha, sys, Resolve(pid)) == At(sys, pid, Resolved(0, Complete(h)))
  {
  }

  lemma RemoveRecordStep(sha: Bytes -> Hash, sys: System, pid: nat, id: Id, h: Hash)
    requires pid in sys.terminators && sys.terminators[pid] == Terminator(id, Resolved(0, Complete(h)))
    ensures Enabled(sys, RemoveRecord(pid))
    ensures Next(sha, sys, RemoveRecord(pid)) ==
      WithFiles(At(sys, pid, RecordGone(0, Complete(h))), sys.store.files - {Info(id)}).(stripped := sys.stripped + {id})
  {
  }

  lemma RemoveBytesStep(sha: Bytes -> Hash, sys: System, pid: nat, id: Id, h: Hash)
    requires pid in sys.terminators && sys.terminators[pid] == Terminator(id, RecordGone(0, Complete(h)))
    requires Complete(h) in sys.store.files
    ensures Enabled(sys, RemoveBytes(pid))
    ensures Next(sha, sys, RemoveBytes(pid)) ==
      WithFiles(At(sys, pid, Pruning(DirBelow(sys.shards, h))), sys.store.files - {Complete(h)})
  {
  }

  /** Upload a's blob and record are gone, its directory is to be looked at next; b has the same hash, and is hashed. */
  function BlobGone(sha: Bytes -> Hash, c: Layout, a: Id, b: Id, info: UploadInfo): System {
    var s0, h := OneDoneOneHashed(sha, c, a, b, info), sha([]);
    WithFiles(s0, s0.store.files - {Info(a)} - {Complete(h)})
      .(terminators := map[0 := Terminator(a, Pruning(DirBelow(c, h)))], stripped := {a})
  }

  /** What a Terminate that has counted nobody else does next. */
  function BytesRemoved(sys: System, pid: nat, id: Id, h: Hash): System
    requires pid in sys.terminators
  {
    WithFiles(At(sys, pid, Pruning(DirBelow(sys.shards, h))), sys.store.files - {Info(id)} - {Complete(h)})
      .(stripped := sys.stripped + {id})
  }

  lemma RemovalSteps(sha: Bytes -> Hash, sys: System, pid: nat, id: Id, h: Hash)
    requires pid in sys.terminators && sys.terminators[pid] == Terminator(id, Counted(0))
    requires HashOf(sys.store.rows, id) == Some(h) && Complete(h) in sys.store.files
    ensures Enabled(sys, Resolve(pid))
    ensures var s1 := Next(sha, sys, Resolve(pid));
      && Enabled(s1, RemoveRecord(pid))
      && var s2 := Next(sha, s1, RemoveRecord(pid));
      Enabled(s2, RemoveBytes(pid)) && Next(sha, s2, RemoveBytes(pid)) == BytesRemoved(sys, pid, id, h)
  {
    ResolveStep(sha, sys, pid, id, h);
    var s1 := At(sys, pid, Resolved(0, Complete(h)));
    RemoveRecordStep(sha, s1, pid, id, h);
    var s2 := WithFiles(At(s1, pid, RecordGone(0, Complete(h))), s1.store.files - {Info(id)}).(stripped := sys.stripped + {id});
    RemoveBytesStep(sha, s2, pid, id, h);
    var walk := Terminator(id, Pruning(DirBelow(sys.shards, h)));
    assert s2.terminators[pid := walk] == sys.terminators[pid := walk];
  }

  lemma BlobGoneAttainable(sha: Bytes -> Hash, c: Layout, a: Id, b: Id, info: UploadInfo)
    requires a != b
    ensures Attainable(sha, BlobGone(sha, c, a, b, info))
  {
    var s0 := OneDoneOneHashed(sha, c, a, b, info).(terminators := map[0 := Terminator(a, Counted(0))]);
    CountedAttainable(sha, c, a, b, info);
    RemovalSteps(sha, s0, 0, a, sha([]));
    AttainableNext(sha, s0, Resolve(0));
    var s1 := Next(sha, s0, Resolve(0));
    AttainableNext(sha, s1, RemoveRecord(0));
    AttainableNext(sha, Next(sha, s1, RemoveRecord(0)), RemoveBytes(0));
    BlobGoneIs(sha, c, a, b, info);
  }

  lemma BlobGoneIs(sha: Bytes -> Hash, c: Layout, a: Id, b: Id, info: UploadInfo)
    requires a != b
    ensures var s0 := OneDoneOneHashed(sha, c, a, b, info).(terminators := map[0 := Terminator(a, Counted(0))]);
      BytesRemoved(s0, 0, a, sha([])) == BlobGone(sha, c, a, b, info)
  {
    var s0 := OneDoneOneHashed(sha, c, a, b, info).(terminators := map[0 := Terminator(a, Counted(0))]);
    var walk := Terminator(a, Pruning(DirBelow(c, sha([]))));
    assert s0.terminators[0 := walk] == map[0 := walk];
    assert s0.stripped + {a} == {a};
  }

  /** Now b's row is updated and MkdirAll finds the directory there. */
  function PruneDue(sha: Bytes -> Hash, c: Layout, a: Id, b: Id, info: UploadInfo): System {
    var s3 := BlobGone(sha, c, a, b, info);
    s3.(store := s3.store.(rows := s3.store.rows[b := NewRow(0, info).(hash := Some(sha([])))]),
        finishing := map[b := RowSet(sha([]), |DirBelow(c, sha([]))|)])
  }

  lemma PruneDueIs(sha: Bytes -> Hash, c: Layout, a: Id, b: Id, info: UploadInfo)
    requires a != b
    ensures var s3 := BlobGone(sha, c, a, b, info);
      && Enabled(s3, SetHash(b)) && !InWindow(s3, SetHash(b))
      && var s4 := Next(sha, s3, SetHash(b));
      && b in s4.finishing && s4.finishing[b] == RowSet(sha([]), 0) && s4.shards == c
      && WithDirs(s4, b) == PruneDue(sha, c, a, b, info)
  {
    var s3 := BlobGone(sha, c, a, b, info);
    assert s3.terminators[0].id != b;
    var s4, goal := Next(sha, s3, SetHash(b)), PruneDue(sha, c, a, b, info);
    assert WithDirs(s4, b).dirs == goal.dirs;
    assert WithDirs(s4, b).finishing == goal.finishing;
  }

  lemma PruneDueAttainable(sha: Bytes -> Hash, c: Layout, a: Id, b: Id, info: UploadInfo)
    requires a != b
    ensures Attainable(sha, PruneDue(sha, c, a, b, info))
  {
    var s3 := BlobGone(sha, c, a, b, info);
    BlobGoneAttainable(sha, c, a, b, info);
    PruneDueIs(sha, c, a, b, info);
    AttainableNext(sha, s3, SetHash(b));
    var s4 := Next(sha, s3, SetHash(b));
    MakeDirsAttainable(sha, s4, b);
  }

  lemma PruneDueInWindow(sha: Bytes -> Hash, c: Layout, a: Id, b: Id, info: UploadInfo)
    requires a != b
    ensures var sys := PruneDue(sha, c, a, b, info);
      MadeIsThere(sys) && Enabled(sys, Prune(0)) && InPruneWindow(sys, Prune(0))
  {
    var sys, d := PruneDue(sha, c, a, b, info), DirBelow(c, sha([]));
    assert d == d[..|d|] && d in sys.dirs;
    forall e | e in sys.dirs && e != [] ensures Parent(e) != d {
      assert |e| <= |d|;
    }
    forall l | l in sys.store.files ensures !l.Complete? {
      assert l == Incomplete(b) || l == Info(b);
    }
    assert Renaming(sys, b) && MadeDir(sys, b) == d;
  }

  /** The window is reached, outside the other two: a's Terminate prunes what b's FinishUpload has found to be there. */
  lemma PruneWindowAttainable(sha: Bytes -> Hash, c: Layout, a: Id, b: Id, info: UploadInfo)
    requires a != b
    ensures exists sys ::
      && Attainable(sha, sys) && sys.shards == c && MadeIsThere(sys)
      && Enabled(sys, Prune(0)) && InPruneWindow(sys, Prune(0))
  {
    PruneDueAttainable(sha, c, a, b, info);
    PruneDueInWindow(sha, c, a, b, info);
  }

  lemma {:induction false} AttainableForward(sha: Bytes -> Hash, sys: System, rest: seq<Action>)
    requires Attainable(sha, sys) && EnabledForward(sha, sys, rest) && forall i :: 0 <= i < |rest| ==> Harmless(rest[i])
    ensures Attainable(sha, Forward(sha, sys, rest)) && Forward(sha, sys, rest).shards == sys.shards
    decreases |rest|
  {
    if rest != [] {
      AttainableNext(sha, sys, rest[0]);
      SameLayout(sha, sys, rest[0]);
      AttainableForward(sha, Next(sha, sys, rest[0]), rest[1..]);
    }
  }

  /** From the empty store, for every two ids, a run outside the other two windows comes to a lost upload. */
  lemma LostAttainable(sha: Bytes -> Hash, c: Layout, a: Id, b: Id, info: UploadInfo)
    requires a != b
    ensures exists sys, id :: Attainable(sha, sys) && sys.shards == c && Lost(sys, id)
  {
    PruneWindowAttainable(sha, c, a, b, info);
    var sys :|
      && Attainable(sha, sys) && sys.shards == c && MadeIsThere(sys)
      && Enabled(sys, Prune(0)) && InPruneWindow(sys, Prune(0));
    AttainableIsSound(sha, sys);
    PruneLoses(sha, sys, Prune(0));
    var sys1 := Next(sha, sys, Prune(0));
    AttainableNext(sha, sys, Prune(0));
    SameLayout(sha, sys, Prune(0));
    var rest, id :| FailsFrom(sha, sys1, rest, id);
    AttainableForward(sha, sys1, rest);
  }
}
