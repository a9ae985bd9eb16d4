/**
 The windows of Interleaving are exact and can be reached, and a condition on row updates alone
 keeps a run out of them.
 */
module InterleavingWindows {
  import opened Bytes
  import opened FileTree
  import opened StorePaths
  import opened UploadStore
  import opened StoreRefinement
  import opened Interleaving
  import opened InterleavingDirs
  import Recovery

  // ------------------------------------------------------------------ the windows are exact

  /** What an armed Terminate has left to do, up to the removal of the bytes. */
  function RestOf(pid: nat, phase: Phase): seq<Action> {
    match phase
    case Looked(_) => [Count(pid), Resolve(pid), RemoveRecord(pid), RemoveBytes(pid)]
    case Counted(_) => [Resolve(pid), RemoveRecord(pid), RemoveBytes(pid)]
    case Resolved(_, _) => [RemoveRecord(pid), RemoveBytes(pid)]
    case RecordGone(_, _) => [RemoveBytes(pid)]
    case _ => []
  }

  /** The next of those steps can be taken; it touches no row and no record but its own upload's. */
  lemma ArmedGoesOn(sha: Bytes -> Hash, sys: System, pid: nat, h: Hash)
    requires pid in sys.terminators && Armed(sys.store.rows, sys.terminators[pid], h)
    ensures var rest := RestOf(pid, sys.terminators[pid].phase);
      && rest != [] && Enabled(sys, rest[0])
      && var sys1 := Next(sha, sys, rest[0]);
      && sys1.store.rows == sys.store.rows && sys1.done == sys.done
      && sys1.stripped <= sys.stripped + {sys.terminators[pid].id}
  {
  }

  /** It either is the removal of the blob or leaves the Terminate armed. */
  lemma ArmedStep(sha: Bytes -> Hash, sys: System, pid: nat, h: Hash, step: Action)
    requires pid in sys.terminators && Armed(sys.store.rows, sys.terminators[pid], h)
    requires step == RestOf(pid, sys.terminators[pid].phase)[0] && Enabled(sys, step)
    ensures var rest, sys1 := RestOf(pid, sys.terminators[pid].phase), Next(sha, sys, step);
      if |rest| == 1 then Complete(h) !in sys1.store.files
      else && pid in sys1.terminators && sys1.terminators[pid].id == sys.terminators[pid].id
           && Armed(sys1.store.rows, sys1.terminators[pid], h) && RestOf(pid, sys1.terminators[pid].phase) == rest[1..]
  {
  }

  /** Left alone, an armed Terminate gets through to the removal and the blob is gone. */
  lemma {:induction false} ArmedRemoves(sha: Bytes -> Hash, sys: System, pid: nat, h: Hash)
    requires pid in sys.terminators && Armed(sys.store.rows, sys.terminators[pid], h)
    ensures var rest := RestOf(pid, sys.terminators[pid].phase);
      && EnabledForward(sha, sys, rest)
      && var sys' := Forward(sha, sys, rest);
      && Complete(h) !in sys'.store.files && sys'.store.rows == sys.store.rows
      && sys'.done == sys.done && sys'.stripped <= sys.stripped + {sys.terminators[pid].id}
    decreases |RestOf(pid, sys.terminators[pid].phase)|
  {
    var rest := RestOf(pid, sys.terminators[pid].phase);
    ArmedGoesOn(sha, sys, pid, h);
    ArmedStep(sha, sys, pid, h, rest[0]);
    if |rest| > 1 {
      ArmedRemoves(sha, Next(sha, sys, rest[0]), pid, h);
    } else {
      assert rest[1..] == [];
    }
  }

  ghost predicate EnabledForward(sha: Bytes -> Hash, sys: System, actions: seq<Action>)
    decreases |actions|
  {
    actions == [] || (Enabled(sys, actions[0]) && EnabledForward(sha, Next(sha, sys, actions[0]), actions[1..]))
  }

  ghost function Forward(sha: Bytes -> Hash, sys: System, actions: seq<Action>): System
    requires EnabledForward(sha, sys, actions)
    decreases |actions|
  {
    if actions == [] then sys else Forward(sha, Next(sha, sys, actions[0]), actions[1..])
  }

  /**
   Exactly the windows: a step taken in one of them, from any sound state, can be followed by
   the remaining steps of a Terminate that is already under way so that a protected upload has lost its bytes.
   */
  lemma WindowLoses(sha: Bytes -> Hash, sys: System, a: Action)
    requires Inv(sha, sys) && Enabled(sys, a) && InWindow(sys, a)
    ensures exists rest, id ::
      && EnabledForward(sha, Next(sha, sys, a), rest)
      && var sys' := Forward(sha, Next(sha, sys, a), rest);
      && Protected(sys', id) && Read(sys'.store, id) == None
  {
    var sys1 := Next(sha, sys, a);
    var pid, id := WindowOpens(sha, sys, a);
    var h := sys.finishing[a.id].hash;
    ArmedRemoves(sha, sys1, pid, h);
    var rest := RestOf(pid, sys1.terminators[pid].phase);
    var sys' := Forward(sha, sys1, rest);
    assert Protected(sys', id) && Read(sys'.store, id) == None;
  }

  /** A step in a window leaves a protected upload whose blob the Terminate of another one is going to remove. */
  lemma WindowOpens(sha: Bytes -> Hash, sys: System, a: Action) returns (pid: nat, id: Id)
    requires Inv(sha, sys) && Enabled(sys, a) && InWindow(sys, a)
    ensures a.Move? || a.SetHash?
    ensures var sys1, h := Next(sha, sys, a), sys.finishing[a.id].hash;
      && Protected(sys1, id) && sys1.store.rows[id].hash == Some(h)
      && pid in sys1.terminators && sys1.terminators[pid].id != id
      && Armed(sys1.store.rows, sys1.terminators[pid], h)
  {
    var h := sys.finishing[a.id].hash;
    if a.Move? {
      id := a.id;
      pid :| pid in sys.terminators && sys.terminators[pid].id != id && Armed(sys.store.rows, sys.terminators[pid], h);
    } else {
      id :| Protected(sys, id) && sys.store.rows[id].hash == Some(h);
      pid :| pid in sys.terminators && sys.terminators[pid].id == a.id
        && (sys.terminators[pid].phase == Looked(None) || sys.terminators[pid].phase == Counted(0));
    }
  }

  // ------------------------------------------------------------------ the windows can be reached

  /** Some run from the empty store gets here without a step in a window. */
  ghost predicate Attainable(sha: Bytes -> Hash, sys: System) {
    exists actions ::
      && EnabledRun(sha, Start(sys.shards), actions) && AvoidsWindows(sha, Start(sys.shards), actions)
      && Reached(sha, Start(sys.shards), actions) == sys
  }

  lemma AttainableNext(sha: Bytes -> Hash, sys: System, a: Action)
    requires Attainable(sha, sys) && Enabled(sys, a) && !InWindow(sys, a)
    ensures Attainable(sha, Next(sha, sys, a))
  {
    var c := sys.shards;
    var actions :| EnabledRun(sha, Start(c), actions) && AvoidsWindows(sha, Start(c), actions) && Reached(sha, Start(c), actions) == sys;
    var more := actions + [a];
    assert more[..|more| - 1] == actions;
    SameLayout(sha, sys, a);
    assert EnabledRun(sha, Start(c), more) && AvoidsWindows(sha, Start(c), more) && Reached(sha, Start(c), more) == Next(sha, sys, a);
  }

  /** What holds of every attainable state. */
  lemma AttainableIsSound(sha: Bytes -> Hash, sys: System)
    requires Attainable(sha, sys)
    ensures Sound(sha, sys) && Placed(sys)
    ensures InjectiveOn(sha, sys.done.Values) ==> Inv(sha, sys)
  {
    var c := sys.shards;
    var actions :| EnabledRun(sha, Start(c), actions) && AvoidsWindows(sha, Start(c), actions) && Reached(sha, Start(c), actions) == sys;
    AlwaysSound(sha, c, actions);
    AlwaysPlaced(sha, c, actions);
    if InjectiveOn(sha, sys.done.Values) {
      InvAlways(sha, c, actions);
    }
  }

  /** The directories below the base on the way to a blob, from a length on. */
  function Ladder(d: Path, from: nat): set<Path> {
    set k | from < k <= |d| :: d[..k]
  }

  /** MkdirAll for an upload, from where it stands. */
  function WithDirs(sys: System, id: Id): System
    requires id in sys.finishing && sys.finishing[id].RowSet?
  {
    var h, made := sys.finishing[id].hash, sys.finishing[id].made;
    sys.(dirs := sys.dirs + Ladder(DirBelow(sys.shards, h), made), finishing := sys.finishing[id := RowSet(h, |DirBelow(sys.shards, h)|)])
  }

  lemma OneRung(sha: Bytes -> Hash, sys: System, id: Id)
    requires Enabled(sys, MakeDir(id)) && HasDir(sys, DirBelow(sys.shards, sys.finishing[id].hash)[..sys.finishing[id].made])
    ensures var sys' := Next(sha, sys, MakeDir(id));
      && id in sys'.finishing && sys'.finishing[id] == RowSet(sys.finishing[id].hash, sys.finishing[id].made + 1)
      && HasDir(sys', DirBelow(sys.shards, sys.finishing[id].hash)[..sys.finishing[id].made + 1])
      && WithDirs(sys', id) == WithDirs(sys, id)
  {
    var sys', d, made := Next(sha, sys, MakeDir(id)), DirBelow(sys.shards, sys.finishing[id].hash), sys.finishing[id].made;
    assert Ladder(d, made) == {d[..made + 1]} + Ladder(d, made + 1);
    assert sys'.finishing[id := RowSet(sys.finishing[id].hash, |d|)] == sys.finishing[id := RowSet(sys.finishing[id].hash, |d|)];
  }

  lemma NothingToMake(sys: System, id: Id)
    requires ReadyToMove(sys, id) && sys.finishing[id].made <= |DirBelow(sys.shards, sys.finishing[id].hash)|
    ensures WithDirs(sys, id) == sys
  {
    assert Ladder(DirBelow(sys.shards, sys.finishing[id].hash), sys.finishing[id].made) == {};
    assert sys.finishing[id := sys.finishing[id]] == sys.finishing;
  }

  lemma {:induction false} MakeDirsAttainable(sha: Bytes -> Hash, sys: System, id: Id)
    requires Attainable(sha, sys) && id in sys.finishing && sys.finishing[id].RowSet?
    requires sys.finishing[id].made <= |DirBelow(sys.shards, sys.finishing[id].hash)|
    requires HasDir(sys, DirBelow(sys.shards, sys.finishing[id].hash)[..sys.finishing[id].made])
    ensures Attainable(sha, WithDirs(sys, id))
    decreases |DirBelow(sys.shards, sys.finishing[id].hash)| - sys.finishing[id].made
  {
    if ReadyToMove(sys, id) {
      NothingToMake(sys, id);
    } else {
      AttainableNext(sha, sys, MakeDir(id));
      OneRung(sha, sys, id);
      MakeDirsAttainable(sha, Next(sha, sys, MakeDir(id)), id);
    }
  }

  /** A first upload is finished and nothing else is going on. */
  function OneDone(sha: Bytes -> Hash, c: Layout, a: Id, info: UploadInfo): System {
    var h := sha([]);
    Start(c).(
      store := Store(map[a := NewRow(0, info).(hash := Some(h))], map[Complete(h) := Bin([]), Info(a) := Meta(info.(id := a))]),
      dirs := Ladder(DirBelow(c, h), 0),
      infos := map[a := info.(id := a)],
      done := map[a := []])
  }

  /** A freshly created upload. */
  function WithNew(sys: System, id: Id, info: UploadInfo): System {
    sys.(store := Store(sys.store.rows[id := NewRow(0, info)],
                        sys.store.files[Incomplete(id) := Bin([])][Info(id) := Meta(info.(id := id))]),
         infos := sys.infos[id := info.(id := id)])
  }

  lemma CreateSteps(sha: Bytes -> Hash, sys: System, id: Id, info: UploadInfo)
    requires id !in sys.store.rows && Incomplete(id) !in sys.store.files && id !in sys.creating
    ensures var s1 := Next(sha, sys, InsertRow(id, 0, info));
      && Enabled(s1, OpenBin(id))
      && var s2 := Next(sha, s1, OpenBin(id));
      && Enabled(s2, WriteRecord(id)) && Next(sha, s2, WriteRecord(id)) == WithNew(sys, id, info)
  {
    var s1 := Next(sha, sys, InsertRow(id, 0, info));
    assert BinLoc(s1.store.rows, id) == Incomplete(id);
    assert sys.creating[id := RowInserted][id := BinOpened] - {id} == sys.creating;
  }

  lemma CreateAttainable(sha: Bytes -> Hash, sys: System, id: Id, info: UploadInfo)
    requires Attainable(sha, sys) && id !in sys.store.rows && Incomplete(id) !in sys.store.files && id !in sys.creating
    ensures Attainable(sha, WithNew(sys, id, info))
  {
    CreateSteps(sha, sys, id, info);
    AttainableNext(sha, sys, InsertRow(id, 0, info));
    var s1 := Next(sha, sys, InsertRow(id, 0, info));
    AttainableNext(sha, s1, OpenBin(id));
    AttainableNext(sha, Next(sha, s1, OpenBin(id)), WriteRecord(id));
  }

  /** The only upload there is, its row updated. */
  function FirstRowSet(sha: Bytes -> Hash, c: Layout, a: Id, info: UploadInfo): System {
    var s0 := WithNew(Start(c), a, info);
    s0.(store := s0.store.(rows := map[a := NewRow(0, info).(hash := Some(sha([])))]),
        finishing := map[a := RowSet(sha([]), 0)])
  }

  lemma FirstRowSetSteps(sha: Bytes -> Hash, c: Layout, a: Id, info: UploadInfo)
    ensures var s0 := WithNew(Start(c), a, info);
      && Enabled(s0, HashBytes(a))
      && var s1 := Next(sha, s0, HashBytes(a));
      && Enabled(s1, SetHash(a)) && s1.terminators == map[] && Next(sha, s1, SetHash(a)) == FirstRowSet(sha, c, a, info)
  {
    var s0 := WithNew(Start(c), a, info);
    assert BinLoc(s0.store.rows, a) == Incomplete(a) && Read(s0.store, a) == Some([]);
    var s1 := Next(sha, s0, HashBytes(a));
    assert s1.finishing == map[a := Hashed(sha([]))];
  }

  lemma FirstMoveSteps(sha: Bytes -> Hash, c: Layout, a: Id, info: UploadInfo)
    ensures var s2 := WithDirs(FirstRowSet(sha, c, a, info), a);
      Enabled(s2, Move(a)) && s2.terminators == map[] && Next(sha, s2, Move(a)) == OneDone(sha, c, a, info)
  {
    var s2, goal, d := WithDirs(FirstRowSet(sha, c, a, info), a), OneDone(sha, c, a, info), DirBelow(c, sha([]));
    assert d == d[..|d|] && d in Ladder(d, 0);
    var s3 := Next(sha, s2, Move(a));
    assert s3.store.files == goal.store.files && s3.finishing == map[] && s3.done == goal.done && s3.infos == goal.infos;
    assert s3.dirs == goal.dirs;
  }

  lemma OneDoneAttainable(sha: Bytes -> Hash, c: Layout, a: Id, info: UploadInfo)
    ensures Attainable(sha, OneDone(sha, c, a, info))
  {
    assert EnabledRun(sha, Start(c), []) && AvoidsWindows(sha, Start(c), []) && Reached(sha, Start(c), []) == Start(c);
    CreateAttainable(sha, Start(c), a, info);
    var s0 := WithNew(Start(c), a, info);
    FirstRowSetSteps(sha, c, a, info);
    AttainableNext(sha, s0, HashBytes(a));
    AttainableNext(sha, Next(sha, s0, HashBytes(a)), SetHash(a));
    var s2 := FirstRowSet(sha, c, a, info);
    MakeDirsAttainable(sha, s2, a);
    FirstMoveSteps(sha, c, a, info);
    AttainableNext(sha, WithDirs(s2, a), Move(a));
  }

  /** Upload a is finished, upload b has the same (no) bytes, and its FinishUpload has hashed them. */
  function OneDoneOneHashed(sha: Bytes -> Hash, c: Layout, a: Id, b: Id, info: UploadInfo): System {
    WithNew(OneDone(sha, c, a, info), b, info).(finishing := map[b := Hashed(sha([]))])
  }

  lemma OneDoneOneHashedAttainable(sha: Bytes -> Hash, c: Layout, a: Id, b: Id, info: UploadInfo)
    requires a != b
    ensures Attainable(sha, OneDoneOneHashed(sha, c, a, b, info))
  {
    OneDoneAttainable(sha, c, a, info);
    CreateAttainable(sha, OneDone(sha, c, a, info), b, info);
    var s := WithNew(OneDone(sha, c, a, info), b, info);
    assert BinLoc(s.store.rows, b) == Incomplete(b) && Read(s.store, b) == Some([]);
    AttainableNext(sha, s, HashBytes(b));
    assert Next(sha, s, HashBytes(b)).finishing == map[b := Hashed(sha([]))];
  }

  lemma CountSteps(sha: Bytes -> Hash, sys: System, pid: nat, id: Id)
    requires pid !in sys.terminators
    ensures var s1 := Next(sha, sys, Begin(pid, id));
      && Enabled(s1, LookUp(pid))
      && var s2 := Next(sha, s1, LookUp(pid));
      && Enabled(s2, Count(pid))
      && var t := Terminator(id, Counted(|Duplicates(sys.store.rows, HashOf(sys.store.rows, id), id)|));
      Next(sha, s2, Count(pid)) == sys.(terminators := sys.terminators[pid := t])
  {
    var s1 := Next(sha, sys, Begin(pid, id));
    var t2 := Terminator(id, Looked(HashOf(sys.store.rows, id)));
    assert s1.terminators[pid := t2] == sys.terminators[pid := t2];
    var t3 := Terminator(id, Counted(|Duplicates(sys.store.rows, HashOf(sys.store.rows, id), id)|));
    assert sys.terminators[pid := t2][pid := t3] == sys.terminators[pid := t3];
  }

  /** a's Terminate has counted, before b's row has its hash, that nobody else has a's. */
  lemma CountedAttainable(sha: Bytes -> Hash, c: Layout, a: Id, b: Id, info: UploadInfo)
    requires a != b
    ensures Attainable(sha, OneDoneOneHashed(sha, c, a, b, info).(terminators := map[0 := Terminator(a, Counted(0))]))
  {
    var s0 := OneDoneOneHashed(sha, c, a, b, info);
    OneDoneOneHashedAttainable(sha, c, a, b, info);
    CountSteps(sha, s0, 0, a);
    AttainableNext(sha, s0, Begin(0, a));
    var s1 := Next(sha, s0, Begin(0, a));
    AttainableNext(sha, s1, LookUp(0));
    AttainableNext(sha, Next(sha, s1, LookUp(0)), Count(0));
    NobodyElse(sha, c, a, b, info);
    assert s0.terminators[0 := Terminator(a, Counted(0))] == map[0 := Terminator(a, Counted(0))];
  }

  lemma NobodyElse(sha: Bytes -> Hash, c: Layout, a: Id, b: Id, info: UploadInfo)
    requires a != b
    ensures var rows := OneDoneOneHashed(sha, c, a, b, info).store.rows; Duplicates(rows, HashOf(rows, a), a) == {}
  {
  }

  /**
   The rename window is reached: a's Terminate counts before b's row has the hash, and b's directory is made
   and its rename due before the removal.
   */
  lemma RenameWindowAttainable(sha: Bytes -> Hash, c: Layout, a: Id, b: Id, info: UploadInfo)
    requires a != b
    ensures exists sys ::
      && Attainable(sha, sys) && sys.shards == c && sys.done == map[a := []]
      && Enabled(sys, Move(b)) && InWindow(sys, Move(b))
  {
    var s0 := OneDoneOneHashed(sha, c, a, b, info).(terminators := map[0 := Terminator(a, Counted(0))]);
    CountedAttainable(sha, c, a, b, info);
    assert !StaleLookup(s0, b);
    AttainableNext(sha, s0, SetHash(b));
    var s1 := Next(sha, s0, SetHash(b));
    MakeDirsAttainable(sha, s1, b);
    MadeAll(s1, b);
    var s2 := WithDirs(s1, b);
    assert s2.terminators[0].id != b && Armed(s2.store.rows, s2.terminators[0], sha([]));
    assert Enabled(s2, Move(b)) && InWindow(s2, Move(b));
  }

  lemma MadeAll(sys: System, id: Id)
    requires id in sys.finishing && sys.finishing[id].RowSet? && sys.finishing[id].made <= 0
    ensures ReadyToMove(WithDirs(sys, id), id) && HasDir(WithDirs(sys, id), DirBelow(sys.shards, sys.finishing[id].hash))
  {
    var d := DirBelow(sys.shards, sys.finishing[id].hash);
    assert d == d[..|d|] && d in Ladder(d, sys.finishing[id].made);
  }

  /** The lookup window is reached: b's Terminate looks up a NULL hash before b's row gets the hash that a has. */
  lemma LookupWindowAttainable(sha: Bytes -> Hash, c: Layout, a: Id, b: Id, info: UploadInfo)
    requires a != b
    ensures exists sys ::
      && Attainable(sha, sys) && sys.shards == c && sys.done == map[a := []]
      && Enabled(sys, SetHash(b)) && InWindow(sys, SetHash(b))
  {
    var s0 := OneDoneOneHashed(sha, c, a, b, info);
    OneDoneOneHashedAttainable(sha, c, a, b, info);
    AttainableNext(sha, s0, Begin(0, b));
    var s1 := Next(sha, s0, Begin(0, b));
    AttainableNext(sha, s1, LookUp(0));
    var s2 := Next(sha, s1, LookUp(0));
    assert s2.terminators[0] == Terminator(b, Looked(None));
    assert StaleLookup(s2, b) && Protected(s2, a);
    assert Enabled(s2, SetHash(b)) && InWindow(s2, SetHash(b));
  }

  /** From here the action can be taken and be followed by steps after which a protected upload is lost. */
  ghost predicate CanLose(sha: Bytes -> Hash, sys: System, a: Action) {
    Enabled(sys, a) &&
    exists rest, id ::
      && EnabledForward(sha, Next(sha, sys, a), rest)
      && var sys' := Forward(sha, Next(sha, sys, a), rest);
      && Protected(sys', id) && Read(sys'.store, id) == None
  }

  /** Both losses happen: from the empty store, for every two ids, a run leads into each window and on to a lost upload. */
  lemma LossesAttainable(sha: Bytes -> Hash, c: Layout, a: Id, b: Id, info: UploadInfo)
    requires a != b
    ensures exists sys :: Attainable(sha, sys) && sys.shards == c && CanLose(sha, sys, Move(b))
    ensures exists sys :: Attainable(sha, sys) && sys.shards == c && CanLose(sha, sys, SetHash(b))
  {
    RenameWindowAttainable(sha, c, a, b, info);
    var sys :| Attainable(sha, sys) && sys.shards == c && sys.done == map[a := []]
      && Enabled(sys, Move(b)) && InWindow(sys, Move(b));
    AttainableWindowLoses(sha, sys, a, Move(b));
    LookupWindowAttainable(sha, c, a, b, info);
    var sys' :| Attainable(sha, sys') && sys'.shards == c && sys'.done == map[a := []]
      && Enabled(sys', SetHash(b)) && InWindow(sys', SetHash(b));
    AttainableWindowLoses(sha, sys', a, SetHash(b));
  }

  lemma AttainableWindowLoses(sha: Bytes -> Hash, sys: System, a: Id, action: Action)
    requires Attainable(sha, sys) && sys.done == map[a := []] && Enabled(sys, action) && InWindow(sys, action)
    ensures CanLose(sha, sys, action)
  {
    AttainableIsSound(sha, sys);
    WindowLoses(sha, sys, action);
  }

  // ------------------------------------------------------------------ runs that stay out

  /**
   From the moment a live upload's row carries its hash, no Terminate of another upload can newly
   take the blob for unshared.
   */
  lemma NoNewThreatAfterRowUpdate(sha: Bytes -> Hash, sys: System, a: Action, id: Id, pid: nat)
    requires Sound(sha, sys) && Enabled(sys, a) && !(a.SetHash? && StaleLookup(sys, a.id))
    requires id in sys.finishing && sys.finishing[id].RowSet? && Live(Next(sha, sys, a).store.rows, id)
    requires pid in Next(sha, sys, a).terminators && Next(sha, sys, a).terminators[pid].id != id
    ensures Armed(Next(sha, sys, a).store.rows, Next(sha, sys, a).terminators[pid], sys.finishing[id].hash)
        ==> pid in sys.terminators && Armed(sys.store.rows, sys.terminators[pid], sys.finishing[id].hash)
  {
    StaysLiveBefore(sha, sys, a, id);
    NotNewlyArmed(sha, sys, a, id, pid);
  }

  lemma StaysLiveBefore(sha: Bytes -> Hash, sys: System, a: Action, id: Id)
    requires Enabled(sys, a) && id in sys.store.rows && Live(Next(sha, sys, a).store.rows, id)
    ensures Live(sys.store.rows, id)
  {
  }

  /**
   A condition on row updates alone: when a row gets its hash, no Terminate of the same upload is
   between its two lookups, and none of another upload has already counted the blob as unshared.
   */
  ghost predicate UpdatesInTime(sys: System, a: Action) {
    a.SetHash? && a.id in sys.finishing ==>
      !StaleLookup(sys, a.id) && !RemovalPending(sys, a.id, sys.finishing[a.id].hash)
  }

  ghost predicate AllUpdatesInTime(sha: Bytes -> Hash, sys: System, actions: seq<Action>)
    requires EnabledRun(sha, sys, actions)
    decreases |actions|
  {
    actions == [] ||
    (AllUpdatesInTime(sha, sys, actions[..|actions| - 1])
     && UpdatesInTime(Reached(sha, sys, actions[..|actions| - 1]), actions[|actions| - 1]))
  }

  /** No removal is pending for a blob about to be renamed into place. */
  ghost predicate FinishersUnthreatened(sys: System) {
    forall id :: id in sys.finishing && sys.finishing[id].RowSet? && Live(sys.store.rows, id) ==>
      !RemovalPending(sys, id, sys.finishing[id].hash)
  }

  lemma FinisherStaysUnthreatened(sha: Bytes -> Hash, sys: System, a: Action, id: Id, pid: nat)
    requires Sound(sha, sys) && FinishersUnthreatened(sys) && Enabled(sys, a) && UpdatesInTime(sys, a)
    requires id in sys.finishing && sys.finishing[id].RowSet? && Live(Next(sha, sys, a).store.rows, id)
    requires pid in Next(sha, sys, a).terminators && Next(sha, sys, a).terminators[pid].id != id
    ensures !Armed(Next(sha, sys, a).store.rows, Next(sha, sys, a).terminators[pid], sys.finishing[id].hash)
  {
    StaysLiveBefore(sha, sys, a, id);
    assert !RemovalPending(sys, id, sys.finishing[id].hash);
    NoNewThreatAfterRowUpdate(sha, sys, a, id, pid);
    var s' := Next(sha, sys, a);
    if Armed(s'.store.rows, s'.terminators[pid], sys.finishing[id].hash) {
      SameTarget(sha, sys, a, pid);
    }
  }

  lemma SameFinisher(sha: Bytes -> Hash, sys: System, a: Action, id: Id)
    requires Sound(sha, sys) && Enabled(sys, a) && a != SetHash(id)
    requires id in Next(sha, sys, a).finishing && Next(sha, sys, a).finishing[id].RowSet?
    ensures id in sys.finishing && sys.finishing[id].RowSet? && Next(sha, sys, a).finishing[id].hash == sys.finishing[id].hash
  {
    if OfWriter(a) || OfFinisher(a) {
      SameFinisherByCalls(sha, sys, a, id);
    } else {
      TerminatorLeavesCalls(sha, sys, a);
    }
  }

  lemma SameFinisherByCalls(sha: Bytes -> Hash, sys: System, a: Action, id: Id)
    requires Enabled(sys, a) && (OfWriter(a) || OfFinisher(a)) && a != SetHash(id)
    requires id in Next(sha, sys, a).finishing && Next(sha, sys, a).finishing[id].RowSet?
    ensures id in sys.finishing && sys.finishing[id].RowSet? && Next(sha, sys, a).finishing[id].hash == sys.finishing[id].hash
  {
  }

  lemma SameTarget(sha: Bytes -> Hash, sys: System, a: Action, pid: nat)
    requires Enabled(sys, a) && pid in sys.terminators && pid in Next(sha, sys, a).terminators
    ensures Next(sha, sys, a).terminators[pid].id == sys.terminators[pid].id
  {
  }

  lemma FinishersStayUnthreatened(sha: Bytes -> Hash, sys: System, a: Action)
    requires Sound(sha, sys) && FinishersUnthreatened(sys) && Enabled(sys, a) && UpdatesInTime(sys, a)
    ensures FinishersUnthreatened(Next(sha, sys, a))
  {
    var sys' := Next(sha, sys, a);
    forall id, pid | id in sys'.finishing && sys'.finishing[id].RowSet? && Live(sys'.store.rows, id)
        && pid in sys'.terminators && sys'.terminators[pid].id != id
      ensures !Armed(sys'.store.rows, sys'.terminators[pid], sys'.finishing[id].hash)
    {
      if a == SetHash(id) {
        assert !RemovalPending(sys, id, sys'.finishing[id].hash);
      } else {
        SameFinisher(sha, sys, a, id);
        FinisherStaysUnthreatened(sha, sys, a, id, pid);
      }
    }
  }

  /** Such a run never enters a window: a rename is in one only if some count came before the row update. */
  lemma {:induction false} UpdatesInTimeAvoidWindows(sha: Bytes -> Hash, c: Layout, actions: seq<Action>)
    requires EnabledRun(sha, Start(c), actions) && AllUpdatesInTime(sha, Start(c), actions)
    ensures AvoidsWindows(sha, Start(c), actions) && FinishersUnthreatened(Reached(sha, Start(c), actions))
    decreases |actions|
  {
    if actions != [] {
      var earlier := actions[..|actions| - 1];
      UpdatesInTimeAvoidWindows(sha, c, earlier);
      AlwaysSound(sha, c, earlier);
      FinishersStayUnthreatened(sha, Reached(sha, Start(c), earlier), actions[|actions| - 1]);
    }
  }

  /**
   A FinishUpload is safe even against Terminates of uploads with the same bytes, if its row update
   comes before their counts: in every run with all row updates in time, every finished live upload
   whose record no Terminate has removed is served in full.
   */
  lemma InTimeRunsAreSafe(sha: Bytes -> Hash, c: Layout, actions: seq<Action>, id: Id)
    requires EnabledRun(sha, Start(c), actions) && AllUpdatesInTime(sha, Start(c), actions)
    requires InjectiveOn(sha, Reached(sha, Start(c), actions).done.Values)
    requires Protected(Reached(sha, Start(c), actions), id)
    ensures var sys := Reached(sha, Start(c), actions);
      && Read(sys.store, id) == Some(sys.done[id])
      && id in sys.infos && GetInfo(sys.store, id) == Some((sys.infos[id], |sys.done[id]|))
  {
    UpdatesInTimeAvoidWindows(sha, c, actions);
    InterleavedSafety(sha, c, actions, id);
  }

  // ------------------------------------------------------------------ the split calls, undisturbed

  function TerminateSteps(pid: nat, id: Id): seq<Action> {
    [Begin(pid, id), LookUp(pid), Count(pid), Resolve(pid), RemoveRecord(pid), RemoveBytes(pid)]
  }

  /** The state after the first n steps of a Terminate that nothing disturbs. */
  ghost function Alone(sha: Bytes -> Hash, sys: System, pid: nat, id: Id, n: nat): (r: Option<System>)
    requires n <= 6
  {
    if n == 0 then Some(sys)
    else
      match Alone(sha, sys, pid, id, n - 1)
      case None => None
      case Some(s) =>
        if Enabled(s, TerminateSteps(pid, id)[n - 1]) then Some(Next(sha, s, TerminateSteps(pid, id)[n - 1])) else None
  }

  lemma AloneUpToLookUp(sha: Bytes -> Hash, sys: System, pid: nat, id: Id)
    requires pid !in sys.terminators
    ensures var t := Terminator(id, Looked(HashOf(sys.store.rows, id)));
      Alone(sha, sys, pid, id, 2) == Some(sys.(terminators := sys.terminators[pid := t]))
  {
    var begun := sys.terminators[pid := Terminator(id, Begun)];
    assert Alone(sha, sys, pid, id, 0) == Some(sys);
    assert Alone(sha, sys, pid, id, 1) == Some(sys.(terminators := begun));
    var t := Terminator(id, Looked(HashOf(sys.store.rows, id)));
    assert begun[pid := t] == sys.terminators[pid := t];
  }

  lemma AloneUpToResolve(sha: Bytes -> Hash, sys: System, pid: nat, id: Id)
    requires pid !in sys.terminators
    ensures var t := Terminator(id, Resolved(|Duplicates(sys.store.rows, HashOf(sys.store.rows, id), id)|, BinLoc(sys.store.rows, id)));
      Alone(sha, sys, pid, id, 4) == Some(sys.(terminators := sys.terminators[pid := t]))
  {
    AloneUpToLookUp(sha, sys, pid, id);
    var rows := sys.store.rows;
    var looked := sys.terminators[pid := Terminator(id, Looked(HashOf(rows, id)))];
    var t3 := Terminator(id, Counted(|Duplicates(rows, HashOf(rows, id), id)|));
    assert looked[pid := t3] == sys.terminators[pid := t3];
    assert Alone(sha, sys, pid, id, 3) == Some(sys.(terminators := sys.terminators[pid := t3]));
    var t4 := Terminator(id, Resolved(t3.phase.duplicates, BinLoc(rows, id)));
    assert sys.terminators[pid := t3][pid := t4] == sys.terminators[pid := t4];
  }

  /** Left alone, a walk goes on to the base and the row is marked. */
  lemma {:induction false} WalkEnds(sha: Bytes -> Hash, sys: System, pid: nat) returns (walk: seq<Action>)
    requires DirsSound(sys) && pid in sys.terminators && sys.terminators[pid].phase.Pruning?
    requires HasDir(sys, sys.terminators[pid].phase.at)
    ensures EnabledForward(sha, sys, walk)
    ensures Forward(sha, sys, walk).store == sys.store.(rows := MarkDeleted(sys.store.rows, {sys.terminators[pid].id}))
    decreases |sys.terminators[pid].phase.at|
  {
    var at := sys.terminators[pid].phase.at;
    if at == [] {
      walk := [Mark(pid)];
      assert walk[1..] == [];
    } else {
      var step := if Inhabited(sys, at) then Climb(pid) else Prune(pid);
      WalkGoesUp(sha, sys, pid, step);
      DirsStaySound(sha, sys, step);
      var rest := WalkEnds(sha, Next(sha, sys, step), pid);
      walk := [step] + rest;
      assert walk[1..] == rest;
    }
  }

  lemma WalkGoesUp(sha: Bytes -> Hash, sys: System, pid: nat, step: Action)
    requires DirsSound(sys) && pid in sys.terminators && sys.terminators[pid].phase.Pruning?
    requires var at := sys.terminators[pid].phase.at;
      at in sys.dirs && at != [] && step == if Inhabited(sys, at) then Climb(pid) else Prune(pid)
    ensures Enabled(sys, step)
    ensures var at, sys' := sys.terminators[pid].phase.at, Next(sha, sys, step);
      && at != [] && sys'.store == sys.store && pid in sys'.terminators
      && sys'.terminators[pid] == Terminator(sys.terminators[pid].id, Pruning(Parent(at)))
      && HasDir(sys', Parent(at))
  {
  }

  /** The store after the record, and then the bytes, are removed. */
  lemma AloneUpToRemoval(sha: Bytes -> Hash, sys: System, pid: nat, id: Id)
    requires pid !in sys.terminators
    ensures Alone(sha, sys, pid, id, 5).Some?
    ensures var s, s5 := sys.store, Alone(sha, sys, pid, id, 5).value;
      && s5.store == Recovery.Attempted(s, id, Recovery.RecordGone) && s5.dirs == sys.dirs && s5.shards == sys.shards
      && Enabled(s5, RemoveBytes(pid)) && s5.terminators[pid].id == id
      && Alone(sha, sys, pid, id, 6) == Some(Next(sha, s5, RemoveBytes(pid)))
      && Next(sha, s5, RemoveBytes(pid)).store == Recovery.Attempted(s, id, Recovery.BytesGone)
  {
    var s := sys.store;
    var t := Terminator(id, Resolved(|Duplicates(s.rows, HashOf(s.rows, id), id)|, BinLoc(s.rows, id)));
    var s4 := sys.(terminators := sys.terminators[pid := t]);
    AloneUpToResolve(sha, sys, pid, id);
    FilesAfterRemoval(s, id, t.phase.duplicates);
    assert TerminateSteps(pid, id)[4] == RemoveRecord(pid);
    assert Alone(sha, sys, pid, id, 5) == Some(Next(sha, s4, RemoveRecord(pid)));
    assert TerminateSteps(pid, id)[5] == RemoveBytes(pid);
  }

  /**
   Undisturbed, the steps of a Terminate are the Terminate of the serial store, and stopping
   after the file steps leaves what Recovery calls a cut attempt.
   */
  lemma SplitTerminateIsTerminate(sha: Bytes -> Hash, sys: System, pid: nat, id: Id)
    requires pid !in sys.terminators && Placed(sys)
    ensures var s := sys.store;
      && Alone(sha, sys, pid, id, 5).Some? && Alone(sha, sys, pid, id, 5).value.store == Recovery.Attempted(s, id, Recovery.RecordGone)
      && Alone(sha, sys, pid, id, 6).Some? && Alone(sha, sys, pid, id, 6).value.store == Recovery.Attempted(s, id, Recovery.BytesGone)
      && var s6 := Alone(sha, sys, pid, id, 6).value;
      exists walk :: EnabledForward(sha, s6, walk) && Forward(sha, s6, walk).store == Terminate(s, id).0
  {
    AloneUpToRemoval(sha, sys, pid, id);
    var s5 := Alone(sha, sys, pid, id, 5).value;
    assert BlobsPlaced(s5);
    RemovalLeadsToWalk(sha, s5, pid);
    var walk := WalkEnds(sha, Next(sha, s5, RemoveBytes(pid)), pid);
  }

  lemma RemovalLeadsToWalk(sha: Bytes -> Hash, sys: System, pid: nat)
    requires DirsSound(sys) && BlobsPlaced(sys) && Enabled(sys, RemoveBytes(pid))
    ensures var sys' := Next(sha, sys, RemoveBytes(pid));
      && DirsSound(sys') && sys'.store.rows == sys.store.rows
      && pid in sys'.terminators && sys'.terminators[pid].id == sys.terminators[pid].id
      && sys'.terminators[pid].phase.Pruning? && HasDir(sys', sys'.terminators[pid].phase.at)
  {
    DirsStaySound(sha, sys, RemoveBytes(pid));
  }

  lemma FilesAfterRemoval(s: Store, id: Id, duplicates: nat)
    requires duplicates == |Duplicates(s.rows, HashOf(s.rows, id), id)|
    ensures s.files - CondemnedFiles(s, {id})
         == if duplicates == 0 then s.files - {Info(id)} - {BinLoc(s.rows, id)} else s.files - {Info(id)}
  {
    CondemnedOne(s.rows, id);
  }

  /** Left alone, MkdirAll goes through and the upload can be renamed. */
  lemma {:induction false} MakeDirsAlone(sha: Bytes -> Hash, sys: System, id: Id) returns (makes: seq<Action>)
    requires id in sys.finishing && sys.finishing[id].RowSet?
    requires sys.finishing[id].made <= |DirBelow(sys.shards, sys.finishing[id].hash)|
    requires HasDir(sys, DirBelow(sys.shards, sys.finishing[id].hash)[..sys.finishing[id].made])
    ensures EnabledForward(sha, sys, makes) && Forward(sha, sys, makes) == WithDirs(sys, id)
    decreases |DirBelow(sys.shards, sys.finishing[id].hash)| - sys.finishing[id].made
  {
    if ReadyToMove(sys, id) {
      NothingToMake(sys, id);
      makes := [];
    } else {
      OneRung(sha, sys, id);
      var rest := MakeDirsAlone(sha, Next(sha, sys, MakeDir(id)), id);
      makes := [MakeDir(id)] + rest;
      assert makes[1..] == rest;
    }
  }

  /** Undisturbed, the steps of a FinishUpload are the FinishUpload of the serial store. */
  lemma SplitFinishIsFinish(sha: Bytes -> Hash, sys: System, id: Id)
    requires Enabled(sys, HashBytes(id))
    ensures var s1 := Next(sha, sys, HashBytes(id));
      && Enabled(s1, SetHash(id))
      && var s2 := Next(sha, s1, SetHash(id));
      exists makes ::
        && EnabledForward(sha, s2, makes)
        && var s3 := Forward(sha, s2, makes);
        && Enabled(s3, Move(id))
        && (Next(sha, s3, Move(id)).store, Ok) == FinishUpload(sha, sys.store, id)
  {
    var s2 := Next(sha, Next(sha, sys, HashBytes(id)), SetHash(id));
    var makes := MakeDirsAlone(sha, s2, id);
    MadeAll(s2, id);
    assert Enabled(WithDirs(s2, id), Move(id));
  }

  /** Undisturbed, the steps of a NewUpload with a fresh id are the NewUpload of the serial store. */
  lemma SplitNewIsNew(sha: Bytes -> Hash, sys: System, id: Id, now: int, info: UploadInfo)
    requires id !in sys.store.rows
    ensures var s1 := Next(sha, sys, InsertRow(id, now, info));
      && Enabled(s1, OpenBin(id))
      && var s2 := Next(sha, s1, OpenBin(id));
      && Enabled(s2, WriteRecord(id))
      && (Next(sha, s2, WriteRecord(id)).store, Ok) == NewUpload(sys.store, id, now, info)
  {
    var s1 := Next(sha, sys, InsertRow(id, now, info));
    assert BinLoc(s1.store.rows, id) == Incomplete(id);
    if Incomplete(id) in sys.store.files {
      assert sys.store.files[Incomplete(id) := sys.store.files[Incomplete(id)]] == sys.store.files;
    }
  }

  /** Writes are those of the serial store; every other step touches no more than it is there for. */
  lemma StepsTouchNoMore(sha: Bytes -> Hash, sys: System, a: Action)
    requires Enabled(sys, a)
    ensures var s, s' := sys.store, Next(sha, sys, a).store;
      && (a.Chunk? ==> s' == Append(s, a.id, a.data))
      && (s'.rows != s.rows ==> a.InsertRow? || a.SetHash? || a.Mark?)
      && (s'.files != s.files ==>
            a.OpenBin? || a.WriteRecord? || a.Chunk? || a.Move? || a.RemoveRecord? || a.RemoveBytes?)
  {
  }
}
