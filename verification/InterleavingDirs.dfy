/**
 The directories of blobs in concurrent runs. FinishUpload makes the directory and renames into it; a
 Terminate's walk may prune it in between, and then the rename fails after the row has its hash. Unless
 that happens, every FinishUpload that has set its row goes through.
 */
module InterleavingDirs {
  import opened Bytes
  import opened FileTree
  import opened StorePaths
  import opened UploadStore
  import opened StoreRefinement
  import opened Interleaving

  // ------------------------------------------------------------------ in every run

  /** The directories lie below the base, each in another or in the base. */
  ghost predicate DirsSound(sys: System) {
    forall d :: d in sys.dirs ==> d != [] && HasDir(sys, Parent(d))
  }

  ghost predicate BlobsPlaced(sys: System) {
    forall l :: l in sys.store.files && l.Complete? ==> DirBelow(sys.shards, l.hash) in sys.dirs
  }

  /** Once made, and until its FinishUpload is through, an upload's unfinished bytes stay, as long as its record does. */
  predicate Unfinished(sys: System, id: Id) {
    && id in sys.store.rows && id !in sys.stripped
    && !(id in sys.creating && sys.creating[id] == RowInserted)
    && (sys.store.rows[id].hash.None? || id in sys.finishing)
  }

  ghost predicate BytesKept(sys: System) {
    forall id :: Unfinished(sys, id) ==> Incomplete(id) in sys.store.files
  }

  ghost predicate Placed(sys: System) {
    DirsSound(sys) && BlobsPlaced(sys) && BytesKept(sys)
  }

  /** With a directory every one above it is there, down from the base. */
  lemma {:induction false} DirsAbove(sys: System, d: Path, e: Path)
    requires DirsSound(sys) && d in sys.dirs && e <= d
    ensures HasDir(sys, e)
    decreases |d|
  {
    if e != d {
      assert e <= Parent(d);
      if Parent(d) in sys.dirs {
        DirsAbove(sys, Parent(d), e);
      }
    }
  }

  lemma DirInhabits(sys: System, d: Path)
    requires d in sys.dirs && d != []
    ensures Inhabited(sys, Parent(d))
  {
  }

  lemma BlobInhabits(sys: System, l: Loc)
    requires l in sys.store.files && l.Complete?
    ensures Inhabited(sys, DirBelow(sys.shards, l.hash))
  {
  }

  lemma DirsStaySound(sha: Bytes -> Hash, sys: System, a: Action)
    requires DirsSound(sys) && Enabled(sys, a)
    ensures DirsSound(Next(sha, sys, a))
  {
    var sys' := Next(sha, sys, a);
    forall d | d in sys'.dirs ensures d != [] && HasDir(sys', Parent(d)) {
      if d !in sys.dirs {
        assert Parent(d) == DirBelow(sys.shards, sys.finishing[a.id].hash)[..sys.finishing[a.id].made];
      } else if a.Prune? {
        DirInhabits(sys, d);
      }
    }
  }

  lemma BlobsStayPlaced(sha: Bytes -> Hash, sys: System, a: Action)
    requires BlobsPlaced(sys) && CreatorsSound(sys) && Enabled(sys, a)
    ensures BlobsPlaced(Next(sha, sys, a))
  {
    var sys' := Next(sha, sys, a);
    forall l | l in sys'.store.files && l.Complete? ensures DirBelow(sys'.shards, l.hash) in sys'.dirs {
      if l in sys.store.files {
        BlobInhabits(sys, l);
      } else {
        assert a.Move?;
      }
    }
  }

  lemma BytesStayKept(sha: Bytes -> Hash, sys: System, a: Action)
    requires Sound(sha, sys) && BytesKept(sys) && Enabled(sys, a)
    ensures BytesKept(Next(sha, sys, a))
  {
    var sys' := Next(sha, sys, a);
    forall id | Unfinished(sys', id) ensures Incomplete(id) in sys'.store.files {
      BytesStay(sha, sys, a, id);
    }
  }

  lemma BytesStay(sha: Bytes -> Hash, sys: System, a: Action, id: Id)
    requires Sound(sha, sys) && BytesKept(sys) && Enabled(sys, a) && Unfinished(Next(sha, sys, a), id)
    ensures Incomplete(id) in Next(sha, sys, a).store.files
  {
    if OfWriter(a) {
      BytesStayByWriter(sha, sys, a, id);
    } else if OfFinisher(a) {
      BytesStayByFinisher(sha, sys, a, id);
    } else {
      TerminatorLeavesCalls(sha, sys, a);
      assert Unfinished(sys, id);
    }
  }

  lemma BytesStayByWriter(sha: Bytes -> Hash, sys: System, a: Action, id: Id)
    requires CreatorsSound(sys) && BytesKept(sys) && Enabled(sys, a) && OfWriter(a) && Unfinished(Next(sha, sys, a), id)
    ensures Incomplete(id) in Next(sha, sys, a).store.files
  {
    if a != OpenBin(id) {
      assert Unfinished(sys, id);
    }
  }

  lemma BytesStayByFinisher(sha: Bytes -> Hash, sys: System, a: Action, id: Id)
    requires FinishersSound(sha, sys) && CreatorsSound(sys) && BytesKept(sys)
    requires Enabled(sys, a) && OfFinisher(a) && Unfinished(Next(sha, sys, a), id)
    ensures Incomplete(id) in Next(sha, sys, a).store.files
  {
    assert Unfinished(sys, id);
  }

  lemma {:induction false} AlwaysPlaced(sha: Bytes -> Hash, c: Layout, actions: seq<Action>)
    requires EnabledRun(sha, Start(c), actions)
    ensures Placed(Reached(sha, Start(c), actions)) && Reached(sha, Start(c), actions).shards == c
    decreases |actions|
  {
    if actions != [] {
      var earlier := actions[..|actions| - 1];
      var sys, a := Reached(sha, Start(c), earlier), actions[|actions| - 1];
      AlwaysSound(sha, c, earlier);
      AlwaysPlaced(sha, c, earlier);
      DirsStaySound(sha, sys, a);
      BlobsStayPlaced(sha, sys, a);
      BytesStayKept(sha, sys, a);
      SameLayout(sha, sys, a);
    }
  }

  lemma SameLayout(sha: Bytes -> Hash, sys: System, a: Action)
    requires Enabled(sys, a)
    ensures Next(sha, sys, a).shards == sys.shards
  {
  }

  // ------------------------------------------------------------------ the window of the prune

  /** A live upload that keeps its record, between its row update and its rename. */
  predicate Renaming(sys: System, id: Id) {
    id in sys.finishing && sys.finishing[id].RowSet? && Live(sys.store.rows, id) && id !in sys.stripped
  }

  /** What MkdirAll is done with for it. */
  function MadeDir(sys: System, id: Id): Path
    requires id in sys.finishing && sys.finishing[id].RowSet?
  {
    var d := DirBelow(sys.shards, sys.finishing[id].hash);
    if sys.finishing[id].made < |d| then d[..sys.finishing[id].made] else d
  }

  /** A walk removes a directory that MkdirAll has made, or found, for an upload not yet renamed. */
  ghost predicate InPruneWindow(sys: System, a: Action) {
    && a.Prune?
    && Listing(sys, a.pid)
    && exists id :: Renaming(sys, id) && sys.terminators[a.pid].phase.at <= MadeDir(sys, id)
  }

  /** What was made for it is there. */
  predicate MadeThere(sys: System, id: Id)
    requires id in sys.finishing && sys.finishing[id].RowSet?
  {
    HasDir(sys, MadeDir(sys, id))
  }

  ghost predicate MadeIsThere(sys: System) {
    forall id :: Renaming(sys, id) ==> MadeThere(sys, id)
  }

  /** The row has its hash and the bytes are still there, but nothing reads them and no FinishUpload is under way. */
  predicate Stranded(sys: System, id: Id) {
    && Live(sys.store.rows, id) && id !in sys.stripped && sys.store.rows[id].hash.Some?
    && id !in sys.done && id !in sys.finishing
  }

  ghost predicate NoneStranded(sys: System) {
    forall id :: !Stranded(sys, id)
  }

  lemma MadeAtFirst(sha: Bytes -> Hash, sys: System, id: Id)
    requires Enabled(sys, SetHash(id))
    ensures MadeThere(Next(sha, sys, SetHash(id)), id)
  {
  }

  lemma OneMoreMade(sha: Bytes -> Hash, sys: System, id: Id)
    requires Enabled(sys, MakeDir(id)) && MadeThere(sys, id)
    ensures MadeThere(Next(sha, sys, MakeDir(id)), id)
  {
    var d := DirBelow(sys.shards, sys.finishing[id].hash);
    assert d[..|d|] == d;
    assert MadeDir(Next(sha, sys, MakeDir(id)), id) == d[..sys.finishing[id].made + 1];
  }

  lemma StillMadeByCalls(sha: Bytes -> Hash, sys: System, a: Action, id: Id)
    requires Enabled(sys, a) && (OfWriter(a) || OfFinisher(a)) && a != SetHash(id) && a != MakeDir(id) && a != HashBytes(id)
    requires id in sys.finishing && sys.finishing[id].RowSet? && MadeThere(sys, id) && id in Next(sha, sys, a).finishing
    ensures Next(sha, sys, a).finishing[id] == sys.finishing[id] && MadeThere(Next(sha, sys, a), id)
  {
  }

  lemma StillMadeByTerminator(sha: Bytes -> Hash, sys: System, a: Action, id: Id)
    requires Enabled(sys, a) && !OfWriter(a) && !OfFinisher(a)
    requires id in sys.finishing && sys.finishing[id].RowSet? && MadeThere(sys, id)
    requires a.Prune? ==> sys.terminators[a.pid].phase.at != MadeDir(sys, id)
    ensures Next(sha, sys, a).finishing == sys.finishing && MadeThere(Next(sha, sys, a), id)
  {
  }

  lemma RenamingBefore(sha: Bytes -> Hash, sys: System, a: Action, id: Id)
    requires Sound(sha, sys) && Enabled(sys, a) && Renaming(Next(sha, sys, a), id) && a != SetHash(id)
    ensures Renaming(sys, id) && a != HashBytes(id)
  {
    if OfWriter(a) || OfFinisher(a) {
      RenamingBeforeCalls(sha, sys, a, id);
    } else {
      TerminatorLeavesCalls(sha, sys, a);
    }
  }

  lemma RenamingBeforeCalls(sha: Bytes -> Hash, sys: System, a: Action, id: Id)
    requires FinishersSound(sha, sys) && Enabled(sys, a) && (OfWriter(a) || OfFinisher(a))
    requires Renaming(Next(sha, sys, a), id) && a != SetHash(id)
    ensures Renaming(sys, id) && a != HashBytes(id)
  {
  }

  lemma MadeStays(sha: Bytes -> Hash, sys: System, a: Action, id: Id)
    requires Sound(sha, sys) && MadeIsThere(sys) && Enabled(sys, a) && !InPruneWindow(sys, a)
    requires Renaming(Next(sha, sys, a), id)
    ensures MadeThere(Next(sha, sys, a), id)
  {
    if a == SetHash(id) {
      MadeAtFirst(sha, sys, id);
    } else {
      RenamingBefore(sha, sys, a, id);
      if a == MakeDir(id) {
        OneMoreMade(sha, sys, id);
      } else {
        if OfWriter(a) || OfFinisher(a) {
          StillMadeByCalls(sha, sys, a, id);
        } else {
          StillMadeByTerminator(sha, sys, a, id);
        }
      }
    }
  }

  /** Outside that window the rename of a live upload that keeps its record does not fail. */
  lemma RenameGoesThrough(sha: Bytes -> Hash, sys: System, id: Id)
    requires FinishersSound(sha, sys) && BytesKept(sys) && CreatorsSound(sys) && MadeIsThere(sys) && Renaming(sys, id)
    ensures !Enabled(sys, MoveFails(id))
    ensures ReadyToMove(sys, id) ==> Enabled(sys, Move(id))
    ensures !ReadyToMove(sys, id) ==> Enabled(sys, MakeDir(id)) && HasDir(sys, MadeDir(sys, id))
  {
    assert Unfinished(sys, id);
  }

  lemma NoneStrandedKept(sha: Bytes -> Hash, sys: System, a: Action)
    requires Sound(sha, sys) && BytesKept(sys) && MadeIsThere(sys) && NoneStranded(sys) && Enabled(sys, a)
    ensures NoneStranded(Next(sha, sys, a))
  {
    forall id ensures !Stranded(Next(sha, sys, a), id) {
      if Stranded(Next(sha, sys, a), id) {
        NotStranded(sha, sys, a, id);
      }
    }
  }

  lemma NotStranded(sha: Bytes -> Hash, sys: System, a: Action, id: Id)
    requires Sound(sha, sys) && BytesKept(sys) && MadeIsThere(sys) && !Stranded(sys, id) && Enabled(sys, a)
    ensures !Stranded(Next(sha, sys, a), id)
  {
    if OfWriter(a) || OfFinisher(a) {
      if a == MoveFails(id) && Renaming(sys, id) {
        RenameGoesThrough(sha, sys, id);
      }
      NotStrandedByCalls(sha, sys, a, id);
    } else {
      TerminatorLeavesCalls(sha, sys, a);
    }
  }

  lemma NotStrandedByCalls(sha: Bytes -> Hash, sys: System, a: Action, id: Id)
    requires FinishersSound(sha, sys) && !Stranded(sys, id) && Enabled(sys, a) && (OfWriter(a) || OfFinisher(a))
    requires !(a == MoveFails(id) && Renaming(sys, id))
    ensures !Stranded(Next(sha, sys, a), id)
  {
  }

  ghost predicate AvoidsPrunes(sha: Bytes -> Hash, sys: System, actions: seq<Action>)
    requires EnabledRun(sha, sys, actions)
    decreases |actions|
  {
    actions == [] ||
    (AvoidsPrunes(sha, sys, actions[..|actions| - 1])
     && !InPruneWindow(Reached(sha, sys, actions[..|actions| - 1]), actions[|actions| - 1]))
  }

  /**
   In every interleaving in which no walk prunes what a FinishUpload has just made, none strands its
   upload: its row having its hash, an upload is finished, or its rename is still to come and will not fail.
   */
  lemma {:induction false} NoneEverStranded(sha: Bytes -> Hash, c: Layout, actions: seq<Action>)
    requires EnabledRun(sha, Start(c), actions) && AvoidsPrunes(sha, Start(c), actions)
    ensures var sys := Reached(sha, Start(c), actions);
      && NoneStranded(sys) && MadeIsThere(sys)
      && forall id :: Renaming(sys, id) ==> !Enabled(sys, MoveFails(id))
    decreases |actions|
  {
    if actions != [] {
      var earlier := actions[..|actions| - 1];
      var sys, a := Reached(sha, Start(c), earlier), actions[|actions| - 1];
      AlwaysSound(sha, c, earlier);
      AlwaysPlaced(sha, c, earlier);
      NoneEverStranded(sha, c, earlier);
      NoneStrandedKept(sha, sys, a);
      forall id | Renaming(Next(sha, sys, a), id)
        ensures MadeThere(Next(sha, sys, a), id)
      {
        MadeStays(sha, sys, a, id);
      }
    }
    AlwaysSound(sha, c, actions);
    AlwaysPlaced(sha, c, actions);
    forall id | Renaming(Reached(sha, Start(c), actions), id) ensures !Enabled(Reached(sha, Start(c), actions), MoveFails(id)) {
      RenameGoesThrough(sha, Reached(sha, Start(c), actions), id);
    }
  }

  /**
   Outside all three windows, then, every live upload that keeps its record and whose row has its hash is
   served in full, or its FinishUpload is still under way and its rename will go through.
   */
  lemma ServedOrUnderWay(sha: Bytes -> Hash, c: Layout, actions: seq<Action>, id: Id)
    requires EnabledRun(sha, Start(c), actions) && AvoidsWindows(sha, Start(c), actions) && AvoidsPrunes(sha, Start(c), actions)
    requires InjectiveOn(sha, Reached(sha, Start(c), actions).done.Values)
    requires var sys := Reached(sha, Start(c), actions);
      Live(sys.store.rows, id) && id !in sys.stripped && sys.store.rows[id].hash.Some?
    ensures var sys := Reached(sha, Start(c), actions);
      if id in sys.done then
        && Read(sys.store, id) == Some(sys.done[id])
        && id in sys.infos && GetInfo(sys.store, id) == Some((sys.infos[id], |sys.done[id]|))
      else
        Renaming(sys, id) && !Enabled(sys, MoveFails(id))
  {
    NoneEverStranded(sha, c, actions);
    AlwaysSound(sha, c, actions);
    var sys := Reached(sha, Start(c), actions);
    assert !Stranded(sys, id);
    if id in sys.done {
      InterleavedSafety(sha, c, actions, id);
    }
  }
}
