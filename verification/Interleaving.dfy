/**
 Calls of the store run concurrently: the expirer and DELETE requests against each other and
 against uploads that are being created, written and finished. NewUpload, FinishUpload and
 Terminate are split into their database and file steps, which interleave freely. Files are named
 by what they hold; that different names are different paths is StorePaths.PathFrame. Of the directories
 those of the blobs are followed: FinishUpload makes them one by one, Terminate prunes them one by one.
 */
module Interleaving {
  import opened Bytes
  import opened FileTree
  import opened StorePaths
  import opened UploadStore
  import opened StoreRefinement

  /** The shard directories of a hash. */
  type Layout = Hash -> Path

  /** The directory of a blob, as a path from the base. */
  function DirBelow(layout: Layout, h: Hash): Path {
    ["complete"] + layout(h)
  }

  /** Such a layout is that of the store, at every admissible depth. */
  function LayoutOf(c: Config): Layout
    requires Admissible(c)
  {
    (h: Hash) => HexLength(h); ShardPath(Hex(h), c.layers)
  }

  lemma LayoutIsDirOf(c: Config, h: Hash)
    requires Admissible(c)
    ensures c.base + DirBelow(LayoutOf(c), h) == DirOf(c, Complete(h))
  {
    assert c.base + ["complete"] + LayoutOf(c)(h) == c.base + (["complete"] + LayoutOf(c)(h));
  }

  /** What a Terminate has done so far and what it remembers of it. */
  datatype Phase =
    | Begun
    | Looked(hash: Option<Hash>)                 // lookupHash inside getDuplicateCount
    | Counted(duplicates: nat)                   // the count query, with that hash
    | Resolved(duplicates: nat, bin: Loc)        // binPath, which looks the hash up again
    | RecordGone(duplicates: nat, bin: Loc)
    | Pruning(at: Path)                          // the bytes are gone, and the directories below this one looked at

  datatype Terminator = Terminator(id: Id, phase: Phase)

  /** What a NewUpload has done so far. */
  datatype Creator = RowInserted | BinOpened

  /** What a FinishUpload has done so far. */
  datatype Finisher =
    | Hashed(hash: Hash)
    | RowSet(hash: Hash, made: nat)              // how many components of the blob's directory MkdirAll is done with

  /**
   `stripped`: the ids whose record some Terminate has removed. `infos`: the records that
   NewUpload was given. `done`: the uploads whose FinishUpload has returned without error, with
   their bytes. `dirs`: the directories of blobs, as paths from the base, which stays.
   */
  datatype System = System(
    shards: Layout,
    store: Store,
    dirs: set<Path>,
    creating: map<Id, Creator>,
    finishing: map<Id, Finisher>,
    terminators: map<nat, Terminator>,
    stripped: set<Id>,
    infos: map<Id, UploadInfo>,
    done: map<Id, Bytes>)

  function Start(c: Layout): System {
    System(c, EMPTY, {}, map[], map[], map[], {}, map[], map[])
  }

  datatype Action =
    | InsertRow(id: Id, now: int, info: UploadInfo)
    | OpenBin(id: Id)
    | WriteRecord(id: Id)
    | Chunk(id: Id, data: Bytes)
    | HashBytes(id: Id)
    | SetHash(id: Id)
    | MakeDir(id: Id)                            // the next directory of MkdirAll
    | Move(id: Id)
    | MoveFails(id: Id)                          // the rename reports an error
    | Begin(pid: nat, id: Id)
    | LookUp(pid: nat)
    | Count(pid: nat)
    | Resolve(pid: nat)
    | RemoveRecord(pid: nat)
    | RemoveBytes(pid: nat)
    | Prune(pid: nat)                            // the walk finds a directory empty and removes it
    | Climb(pid: nat)                            // the walk finds something in it, a file of others perhaps
    | Mark(pid: nat)
    | Abandon(pid: nat)                          // the Terminate fails or is cut short

  /** A step of a NewUpload or a write. */
  predicate OfWriter(a: Action) {
    a.InsertRow? || a.OpenBin? || a.WriteRecord? || a.Chunk?
  }

  /** A step of a FinishUpload; the others are those of a Terminate. */
  predicate OfFinisher(a: Action) {
    a.HashBytes? || a.SetHash? || a.MakeDir? || a.Move? || a.MoveFails?
  }

  // ------------------------------------------------------------------ steps

  function PhaseOf(sys: System, pid: nat): Option<Phase> {
    if pid in sys.terminators then Some(sys.terminators[pid].phase) else None
  }

  predicate HasDir(sys: System, d: Path) {
    d in sys.dirs || d == []
  }

  /** A directory or a blob is in it. */
  predicate Inhabited(sys: System, d: Path) {
    || (exists e :: e in sys.dirs && e != [] && Parent(e) == d)
    || (exists l :: l in sys.store.files && l.Complete? && DirBelow(sys.shards, l.hash) == d)
  }

  /** MkdirAll is through, or has given up, which is ignored. */
  predicate ReadyToMove(sys: System, id: Id) {
    id in sys.finishing && sys.finishing[id].RowSet? && sys.finishing[id].made >= |DirBelow(sys.shards, sys.finishing[id].hash)|
  }

  /** The rename finds its file and the directory to move it to. */
  predicate CanMove(sys: System, id: Id)
    requires id in sys.finishing
  {
    HasDir(sys, DirBelow(sys.shards, sys.finishing[id].hash)) && Incomplete(id) in sys.store.files
  }

  /** The walk has come to this directory and can list it. */
  predicate Listing(sys: System, pid: nat) {
    PhaseOf(sys, pid).Some? && PhaseOf(sys, pid).value.Pruning? && PhaseOf(sys, pid).value.at in sys.dirs
      && PhaseOf(sys, pid).value.at != []
  }

  /**
   tusd hands out an id only when NewUpload has returned, and its lock admits one writer or
   finisher per upload; nothing holds back a Terminate.
   */
  predicate Enabled(sys: System, a: Action) {
    if OfWriter(a) then WriterEnabled(sys, a)
    else if OfFinisher(a) then FinisherEnabled(sys, a)
    else TerminatorEnabled(sys, a)
  }

  predicate WriterEnabled(sys: System, a: Action)
    requires OfWriter(a)
  {
    match a
    case InsertRow(id, _, _) => id !in sys.store.rows
    case OpenBin(id) => id in sys.creating && sys.creating[id] == RowInserted
    case WriteRecord(id) => id in sys.creating && sys.creating[id] == BinOpened && id in sys.infos
    case Chunk(id, _) => Writable(sys, id)
  }

  predicate FinisherEnabled(sys: System, a: Action)
    requires OfFinisher(a)
  {
    match a
    case HashBytes(id) => Writable(sys, id) && Read(sys.store, id).Some?
    case SetHash(id) => id in sys.finishing && sys.finishing[id].Hashed? && id in sys.store.rows
    case MakeDir(id) => id in sys.finishing && sys.finishing[id].RowSet? && !ReadyToMove(sys, id)
    case Move(id) => ReadyToMove(sys, id) && CanMove(sys, id)
    case MoveFails(id) => ReadyToMove(sys, id) && !CanMove(sys, id)
  }

  predicate TerminatorEnabled(sys: System, a: Action)
    requires !OfWriter(a) && !OfFinisher(a)
  {
    match a
    case Begin(pid, _) => pid !in sys.terminators
    case LookUp(pid) => PhaseOf(sys, pid) == Some(Begun)
    case Count(pid) => PhaseOf(sys, pid).Some? && PhaseOf(sys, pid).value.Looked?
    case Resolve(pid) => PhaseOf(sys, pid).Some? && PhaseOf(sys, pid).value.Counted?
    case RemoveRecord(pid) => PhaseOf(sys, pid).Some? && PhaseOf(sys, pid).value.Resolved?
    case RemoveBytes(pid) => PhaseOf(sys, pid).Some? && PhaseOf(sys, pid).value.RecordGone?
    case Prune(pid) => Listing(sys, pid) && !Inhabited(sys, PhaseOf(sys, pid).value.at)
    case Climb(pid) => Listing(sys, pid)
    case Mark(pid) => PhaseOf(sys, pid) == Some(Pruning([]))
    case Abandon(pid) => pid in sys.terminators
  }

  predicate Writable(sys: System, id: Id) {
    id in sys.store.rows && HashOf(sys.store.rows, id).None? && id !in sys.creating && id !in sys.finishing
  }

  function At(sys: System, pid: nat, phase: Phase): System
    requires pid in sys.terminators
  {
    sys.(terminators := sys.terminators[pid := Terminator(sys.terminators[pid].id, phase)])
  }

  function WithFiles(sys: System, files: map<Loc, Content>): System {
    sys.(store := sys.store.(files := files))
  }

  function Next(sha: Bytes -> Hash, sys: System, a: Action): System
    requires Enabled(sys, a)
  {
    if OfWriter(a) then NextWriter(sys, a)
    else if OfFinisher(a) then NextFinisher(sha, sys, a)
    else NextTerminator(sys, a)
  }

  function NextWriter(sys: System, a: Action): System
    requires OfWriter(a) && WriterEnabled(sys, a)
  {
    var rows, files := sys.store.rows, sys.store.files;
    match a
    case InsertRow(id, now, info) =>
      sys.(store := sys.store.(rows := rows[id := NewRow(now, info)]),
           creating := sys.creating[id := RowInserted],
           infos := sys.infos[id := info.(id := id)])
    case OpenBin(id) =>
      var l := BinLoc(rows, id);
      WithFiles(sys, if l in files then files else files[l := Bin([])]).(creating := sys.creating[id := BinOpened])
    case WriteRecord(id) =>
      WithFiles(sys, files[Info(id) := Meta(sys.infos[id])]).(creating := sys.creating - {id})
    case Chunk(id, data) => sys.(store := Append(sys.store, id, data))
  }

  function NextFinisher(sha: Bytes -> Hash, sys: System, a: Action): System
    requires OfFinisher(a) && FinisherEnabled(sys, a)
  {
    var rows, files := sys.store.rows, sys.store.files;
    match a
    case HashBytes(id) => sys.(finishing := sys.finishing[id := Hashed(sha(Read(sys.store, id).value))])
    case SetHash(id) =>
      var h := sys.finishing[id].hash;
      sys.(store := sys.store.(rows := rows[id := rows[id].(hash := Some(h))]), 
           finishing := sys.finishing[id := RowSet(h, 0)])
    case MakeDir(id) =>
      var h, made := sys.finishing[id].hash, sys.finishing[id].made;
      if HasDir(sys, DirBelow(sys.shards, h)[..made])
      then sys.(dirs := sys.dirs + {DirBelow(sys.shards, h)[..made + 1]}, finishing := sys.finishing[id := RowSet(h, made + 1)])
      else sys.(finishing := sys.finishing[id := RowSet(h, |DirBelow(sys.shards, h)|)])
    case Move(id) =>
      var content := files[Incomplete(id)];
      WithFiles(sys, (files - {Incomplete(id)})[Complete(sys.finishing[id].hash) := content])
        .(finishing := sys.finishing - {id}, done := sys.done[id := BytesOf(content)])
    case MoveFails(id) => sys.(finishing := sys.finishing - {id})
  }

  function NextTerminator(sys: System, a: Action): System
    requires !OfWriter(a) && !OfFinisher(a) && TerminatorEnabled(sys, a)
  {
    var rows, files := sys.store.rows, sys.store.files;
    match a
    case Begin(pid, id) => sys.(terminators := sys.terminators[pid := Terminator(id, Begun)])
    case LookUp(pid) => At(sys, pid, Looked(HashOf(rows, sys.terminators[pid].id)))
    case Count(pid) =>
      var t := sys.terminators[pid];
      At(sys, pid, Counted(|Duplicates(rows, t.phase.hash, t.id)|))
    case Resolve(pid) =>
      var t := sys.terminators[pid];
      At(sys, pid, Resolved(t.phase.duplicates, BinLoc(rows, t.id)))
    case RemoveRecord(pid) =>
      var t := sys.terminators[pid];
      WithFiles(At(sys, pid, RecordGone(t.phase.duplicates, t.phase.bin)), files - {Info(t.id)})
        .(stripped := sys.stripped + {t.id})
    case RemoveBytes(pid) =>
      var t := sys.terminators[pid];
      var walks := t.phase.duplicates == 0 && t.phase.bin in files && t.phase.bin.Complete?;
      WithFiles(At(sys, pid, Pruning(if walks then DirBelow(sys.shards, t.phase.bin.hash) else [])),
                if t.phase.duplicates == 0 then files - {t.phase.bin} else files)
    case Prune(pid) =>
      var at := sys.terminators[pid].phase.at;
      At(sys, pid, Pruning(Parent(at))).(dirs := sys.dirs - {at})
    case Climb(pid) => At(sys, pid, Pruning(Parent(sys.terminators[pid].phase.at)))
    case Mark(pid) =>
      sys.(store := sys.store.(rows := MarkDeleted(rows, {sys.terminators[pid].id})), terminators := sys.terminators - {pid})
    case Abandon(pid) => sys.(terminators := sys.terminators - {pid})
  }

  // ------------------------------------------------------------------ what is protected, and the windows

  /**
   A finished upload that is live and whose record no Terminate has removed. One that is being
   terminated is protected up to that step, and stays so if the Terminate is abandoned before it.
   */
  predicate Protected(sys: System, id: Id) {
    id in sys.done && Live(sys.store.rows, id) && id !in sys.stripped
  }

  /** A Terminate that is going to remove the blob of this hash, having taken it for unshared. */
  predicate Armed(rows: Table, t: Terminator, h: Hash) {
    match t.phase
    case Looked(hash) => hash.None? && HashOf(rows, t.id) == Some(h)
    case Counted(duplicates) => duplicates == 0 && HashOf(rows, t.id) == Some(h)
    case Resolved(duplicates, bin) => duplicates == 0 && bin == Complete(h)
    case RecordGone(duplicates, bin) => duplicates == 0 && bin == Complete(h)
    case _ => false
  }

  /** Some Terminate of another upload than `id` is going to. */
  ghost predicate RemovalPending(sys: System, id: Id, h: Hash) {
    exists pid :: pid in sys.terminators && sys.terminators[pid].id != id && Armed(sys.store.rows, sys.terminators[pid], h)
  }

  /** A Terminate of this upload has looked up a NULL hash and has not resolved its path yet. */
  ghost predicate StaleLookup(sys: System, id: Id) {
    exists pid :: pid in sys.terminators && sys.terminators[pid].id == id
      && (sys.terminators[pid].phase == Looked(None) || sys.terminators[pid].phase == Counted(0))
  }

  /**
   The two windows. A rename, for a live upload that keeps its record, while another upload's
   Terminate is going to remove that very blob; and a row update with a hash that a protected
   upload has, while a Terminate of the same id stands between its two hash lookups.
   */
  ghost predicate InWindow(sys: System, a: Action) {
    match a
    case Move(id) =>
      && id in sys.finishing
      && Live(sys.store.rows, id) && id !in sys.stripped
      && RemovalPending(sys, id, sys.finishing[id].hash)
    case SetHash(id) =>
      && id in sys.finishing
      && StaleLookup(sys, id)
      && exists j :: Protected(sys, j) && sys.store.rows[j].hash == Some(sys.finishing[id].hash)
    case _ => false
  }

  // ------------------------------------------------------------------ the invariant

  predicate FinisherSound(sha: Bytes -> Hash, sys: System, id: Id)
    requires id in sys.finishing
  {
    && id in sys.store.rows
    && id !in sys.done
    && sys.store.rows[id].hash == (if sys.finishing[id].Hashed? then None else Some(sys.finishing[id].hash))
    && (Incomplete(id) in sys.store.files ==> sha(BytesOf(sys.store.files[Incomplete(id)])) == sys.finishing[id].hash)
  }

  ghost predicate FinishersSound(sha: Bytes -> Hash, sys: System) {
    forall id :: id in sys.finishing ==> FinisherSound(sha, sys, id)
  }

  ghost predicate DoneSound(sha: Bytes -> Hash, sys: System) {
    forall id :: id in sys.done ==>
      id in sys.store.rows && sys.store.rows[id].hash == Some(sha(sys.done[id]))
  }

  predicate TerminatorSound(sys: System, t: Terminator) {
    && (t.phase.RecordGone? || t.phase.Pruning? ==> t.id in sys.stripped)
    && (t.phase.Resolved? || t.phase.RecordGone? ==> t.phase.bin == Incomplete(t.id) || t.phase.bin.Complete?)
    && (t.phase.Looked? && t.phase.hash.Some? ==> HashOf(sys.store.rows, t.id) == t.phase.hash)
  }

  ghost predicate TerminatorsSound(sys: System) {
    forall pid :: pid in sys.terminators ==> TerminatorSound(sys, sys.terminators[pid])
  }

  ghost predicate CreatorsSound(sys: System) {
    forall id :: id in sys.creating ==>
      id in sys.store.rows && sys.store.rows[id].hash.None? && id !in sys.finishing && id !in sys.done
  }

  /** The upload has a record in the books, and one on disk unless it is being created or was stripped. */
  predicate RecordKept(sys: System, id: Id) {
    && id in sys.infos
    && (id !in sys.creating && id !in sys.stripped ==>
          Info(id) in sys.store.files && sys.store.files[Info(id)] == Meta(sys.infos[id]))
  }

  /** Records disappear only with a Terminate of their own upload. */
  ghost predicate RecordsKept(sys: System) {
    forall id :: id in sys.store.rows ==> RecordKept(sys, id)
  }

  ghost predicate NoneThreatened(sys: System) {
    forall id :: Protected(sys, id) && sys.store.rows[id].hash.Some? ==>
      !RemovalPending(sys, id, sys.store.rows[id].hash.value)
  }

  ghost predicate AllReadable(sys: System) {
    forall id :: Protected(sys, id) ==> Read(sys.store, id) == Some(sys.done[id])
  }

  ghost predicate Sound(sha: Bytes -> Hash, sys: System) {
    FinishersSound(sha, sys) && DoneSound(sha, sys) && TerminatorsSound(sys) && CreatorsSound(sys) && RecordsKept(sys)
  }

  ghost predicate Inv(sha: Bytes -> Hash, sys: System) {
    && Sound(sha, sys)
    && NoneThreatened(sys)
    && AllReadable(sys)
  }

  // ------------------------------------------------------------------ what the steps leave alone

  /** No upload is touched but that rows are marked deleted, records stripped, and files removed. */
  ghost predicate LeavesCalls(sys: System, sys': System) {
    && sys'.shards == sys.shards && sys'.creating == sys.creating && sys'.finishing == sys.finishing
    && sys'.infos == sys.infos && sys'.done == sys.done && sys.stripped <= sys'.stripped
    && sys'.store.rows.Keys == sys.store.rows.Keys
    && (forall id :: id in sys.store.rows ==>
          sys'.store.rows[id].hash == sys.store.rows[id].hash && (sys.store.rows[id].deleted ==> sys'.store.rows[id].deleted))
    && (forall l :: l in sys'.store.files ==> l in sys.store.files && sys'.store.files[l] == sys.store.files[l])
    && (forall id :: Info(id) in sys.store.files && Info(id) !in sys'.store.files ==> id in sys'.stripped)
    && (forall id :: Incomplete(id) in sys.store.files && Incomplete(id) !in sys'.store.files ==> id in sys'.stripped)
  }

  /** That is what a Terminate does at most. */
  lemma TerminatorLeavesCalls(sha: Bytes -> Hash, sys: System, a: Action)
    requires TerminatorsSound(sys) && !OfWriter(a) && !OfFinisher(a) && TerminatorEnabled(sys, a)
    ensures LeavesCalls(sys, NextTerminator(sys, a))
  {
  }

  lemma FinishersKeptByWriter(sha: Bytes -> Hash, sys: System, a: Action)
    requires FinishersSound(sha, sys) && CreatorsSound(sys) && OfWriter(a) && WriterEnabled(sys, a)
    ensures FinishersSound(sha, NextWriter(sys, a))
  {
    forall id | id in sys.finishing ensures FinisherSound(sha, NextWriter(sys, a), id) {
      assert FinisherSound(sha, sys, id);
    }
  }

  lemma FinishersKeptByFinisher(sha: Bytes -> Hash, sys: System, a: Action)
    requires FinishersSound(sha, sys) && DoneSound(sha, sys) && OfFinisher(a) && FinisherEnabled(sys, a)
    ensures FinishersSound(sha, NextFinisher(sha, sys, a))
  {
    forall id | id in NextFinisher(sha, sys, a).finishing ensures FinisherSound(sha, NextFinisher(sha, sys, a), id) {
      assert id in sys.finishing ==> FinisherSound(sha, sys, id);
      if id == a.id {
        OwnFinisherSound(sha, sys, a);
      } else {
        FinisherLeavesOthers(sha, sys, a, id);
      }
    }
  }

  lemma OwnFinisherSound(sha: Bytes -> Hash, sys: System, a: Action)
    requires OfFinisher(a) && FinisherEnabled(sys, a)
    requires a.id in sys.finishing ==> FinisherSound(sha, sys, a.id)
    requires a.id in sys.finishing || a.id !in sys.done
    requires a.id in NextFinisher(sha, sys, a).finishing
    ensures FinisherSound(sha, NextFinisher(sha, sys, a), a.id)
  {
  }

  /** What a step of one FinishUpload leaves alone of another upload. */
  lemma FinisherLeavesOthers(sha: Bytes -> Hash, sys: System, a: Action, id: Id)
    requires OfFinisher(a) && FinisherEnabled(sys, a) && a.id != id
    ensures var sys' := NextFinisher(sha, sys, a);
      && (id in sys'.finishing <==> id in sys.finishing) && (id in sys.finishing ==> sys'.finishing[id] == sys.finishing[id])
      && (id in sys'.done <==> id in sys.done)
      && (id in sys'.store.rows <==> id in sys.store.rows) && (id in sys.store.rows ==> sys'.store.rows[id] == sys.store.rows[id])
      && (Incomplete(id) in sys'.store.files <==> Incomplete(id) in sys.store.files)
      && (Incomplete(id) in sys.store.files ==> sys'.store.files[Incomplete(id)] == sys.store.files[Incomplete(id)])
  {
  }

  lemma FinishersKeptByTerminator(sha: Bytes -> Hash, sys: System, sys': System)
    requires FinishersSound(sha, sys) && LeavesCalls(sys, sys')
    ensures FinishersSound(sha, sys')
  {
    forall id | id in sys'.finishing ensures FinisherSound(sha, sys', id) {
      assert FinisherSound(sha, sys, id);
    }
  }

  lemma FinishersKept(sha: Bytes -> Hash, sys: System, a: Action)
    requires Sound(sha, sys) && Enabled(sys, a)
    ensures FinishersSound(sha, Next(sha, sys, a))
  {
    if OfWriter(a) {
      FinishersKeptByWriter(sha, sys, a);
    } else if OfFinisher(a) {
      FinishersKeptByFinisher(sha, sys, a);
    } else {
      TerminatorLeavesCalls(sha, sys, a);
      FinishersKeptByTerminator(sha, sys, NextTerminator(sys, a));
    }
  }

  lemma DoneKeptByWriter(sha: Bytes -> Hash, sys: System, a: Action)
    requires DoneSound(sha, sys) && OfWriter(a) && WriterEnabled(sys, a)
    ensures DoneSound(sha, NextWriter(sys, a)) && NextWriter(sys, a).done == sys.done
  {
  }

  lemma DoneKeptByFinisher(sha: Bytes -> Hash, sys: System, a: Action)
    requires FinishersSound(sha, sys) && DoneSound(sha, sys) && OfFinisher(a) && FinisherEnabled(sys, a)
    ensures DoneSound(sha, NextFinisher(sha, sys, a))
    ensures forall id :: id in sys.done ==> id in NextFinisher(sha, sys, a).done && NextFinisher(sha, sys, a).done[id] == sys.done[id]
  {
    assert a.id in sys.finishing ==> FinisherSound(sha, sys, a.id);
  }

  /** What was finished stays recorded with the bytes it was finished with. */
  lemma DoneKept(sha: Bytes -> Hash, sys: System, a: Action)
    requires Sound(sha, sys) && Enabled(sys, a)
    ensures DoneSound(sha, Next(sha, sys, a))
    ensures sys.done.Values <= Next(sha, sys, a).done.Values
  {
    if OfWriter(a) {
      DoneKeptByWriter(sha, sys, a);
    } else if OfFinisher(a) {
      DoneKeptByFinisher(sha, sys, a);
    } else {
      TerminatorLeavesCalls(sha, sys, a);
    }
    var done' := Next(sha, sys, a).done;
    forall v | v in sys.done.Values ensures v in done'.Values {
      var id :| id in sys.done && sys.done[id] == v;
      assert id in done' && done'[id] == v;
    }
  }

  lemma TerminatorsKeptByCalls(sha: Bytes -> Hash, sys: System, a: Action)
    requires FinishersSound(sha, sys) && TerminatorsSound(sys) && Enabled(sys, a) && (OfWriter(a) || OfFinisher(a))
    ensures TerminatorsSound(Next(sha, sys, a))
  {
    forall pid | pid in sys.terminators ensures TerminatorSound(Next(sha, sys, a), sys.terminators[pid]) {
      assert TerminatorSound(sys, sys.terminators[pid]);
    }
  }

  lemma TerminatorsKeptByTerminator(sys: System, a: Action)
    requires TerminatorsSound(sys) && !OfWriter(a) && !OfFinisher(a) && TerminatorEnabled(sys, a)
    ensures TerminatorsSound(NextTerminator(sys, a))
  {
    var sys' := NextTerminator(sys, a);
    forall pid | pid in sys'.terminators ensures TerminatorSound(sys', sys'.terminators[pid]) {
      assert pid in sys.terminators ==> TerminatorSound(sys, sys.terminators[pid]);
    }
  }

  lemma TerminatorsKept(sha: Bytes -> Hash, sys: System, a: Action)
    requires FinishersSound(sha, sys) && TerminatorsSound(sys) && Enabled(sys, a)
    ensures TerminatorsSound(Next(sha, sys, a))
  {
    if OfWriter(a) || OfFinisher(a) {
      TerminatorsKeptByCalls(sha, sys, a);
    } else {
      TerminatorsKeptByTerminator(sys, a);
    }
  }

  lemma CreatorsKeptByWriter(sha: Bytes -> Hash, sys: System, a: Action)
    requires FinishersSound(sha, sys) && DoneSound(sha, sys) && CreatorsSound(sys) && OfWriter(a) && WriterEnabled(sys, a)
    ensures CreatorsSound(NextWriter(sys, a))
  {
  }

  lemma CreatorsKeptByFinisher(sha: Bytes -> Hash, sys: System, a: Action)
    requires CreatorsSound(sys) && OfFinisher(a) && FinisherEnabled(sys, a)
    ensures CreatorsSound(NextFinisher(sha, sys, a))
  {
    assert a.id !in sys.creating;
  }

  lemma CreatorsKept(sha: Bytes -> Hash, sys: System, a: Action)
    requires Sound(sha, sys) && Enabled(sys, a)
    ensures CreatorsSound(Next(sha, sys, a))
  {
    if OfWriter(a) {
      CreatorsKeptByWriter(sha, sys, a);
    } else if OfFinisher(a) {
      CreatorsKeptByFinisher(sha, sys, a);
    } else {
      TerminatorLeavesCalls(sha, sys, a);
    }
  }

  lemma RecordKeptByWriter(sha: Bytes -> Hash, sys: System, a: Action, id: Id)
    requires CreatorsSound(sys) && (id in sys.store.rows ==> RecordKept(sys, id)) && OfWriter(a) && WriterEnabled(sys, a)
    requires id in NextWriter(sys, a).store.rows
    ensures RecordKept(NextWriter(sys, a), id)
  {
  }

  lemma RecordKeptByFinisher(sha: Bytes -> Hash, sys: System, a: Action, id: Id)
    requires (id in sys.store.rows ==> RecordKept(sys, id)) && OfFinisher(a) && FinisherEnabled(sys, a)
    requires id in NextFinisher(sha, sys, a).store.rows
    ensures RecordKept(NextFinisher(sha, sys, a), id)
  {
  }

  lemma RecordsStayKept(sha: Bytes -> Hash, sys: System, a: Action)
    requires Sound(sha, sys) && Enabled(sys, a)
    ensures RecordsKept(Next(sha, sys, a))
  {
    forall id | id in Next(sha, sys, a).store.rows ensures RecordKept(Next(sha, sys, a), id) {
      assert id in sys.store.rows ==> RecordKept(sys, id);
      if OfWriter(a) {
        RecordKeptByWriter(sha, sys, a, id);
      } else if OfFinisher(a) {
        RecordKeptByFinisher(sha, sys, a, id);
      } else {
        TerminatorLeavesCalls(sha, sys, a);
      }
    }
  }

  lemma SoundnessKept(sha: Bytes -> Hash, sys: System, a: Action)
    requires Sound(sha, sys) && Enabled(sys, a)
    ensures Sound(sha, Next(sha, sys, a))
    ensures sys.done.Values <= Next(sha, sys, a).done.Values
  {
    FinishersKept(sha, sys, a);
    DoneKept(sha, sys, a);
    TerminatorsKept(sha, sys, a);
    CreatorsKept(sha, sys, a);
    RecordsStayKept(sha, sys, a);
  }

  /** Only a row update or a rename can make an upload protected or its hash threatened. */
  lemma NoneThreatenedKept(sha: Bytes -> Hash, sys: System, a: Action)
    requires Inv(sha, sys) && Enabled(sys, a) && !InWindow(sys, a)
    ensures NoneThreatened(Next(sha, sys, a))
  {
    var sys' := Next(sha, sys, a);
    forall id, pid | Protected(sys', id) && sys'.store.rows[id].hash.Some? && pid in sys'.terminators && sys'.terminators[pid].id != id
      ensures !Armed(sys'.store.rows, sys'.terminators[pid], sys'.store.rows[id].hash.value)
    {
      NotArmedLater(sha, sys, a, id, pid);
    }
  }

  /** Outside the windows, no step of a call makes the removal a Terminate is about to do hit another, protected, upload. */
  lemma NotArmedLater(sha: Bytes -> Hash, sys: System, a: Action, id: Id, pid: nat)
    requires Sound(sha, sys) && NoneThreatened(sys) && Enabled(sys, a) && !InWindow(sys, a)
    requires var sys' := Next(sha, sys, a);
      && Protected(sys', id) && sys'.store.rows[id].hash.Some?
      && pid in sys'.terminators && sys'.terminators[pid].id != id
    ensures var sys' := Next(sha, sys, a);
      !Armed(sys'.store.rows, sys'.terminators[pid], sys'.store.rows[id].hash.value)
  {
    if a.Move? {
      NotArmedByMove(sha, sys, a.id, id, pid);
    } else {
      StaysProtected(sha, sys, a, id);
      assert !RemovalPending(sys, id, sys.store.rows[id].hash.value);
      NotNewlyArmed(sha, sys, a, id, pid);
    }
  }

  lemma NotArmedByMove(sha: Bytes -> Hash, sys: System, mover: Id, id: Id, pid: nat)
    requires FinishersSound(sha, sys) && NoneThreatened(sys) && Enabled(sys, Move(mover)) && !InWindow(sys, Move(mover))
    requires Protected(Next(sha, sys, Move(mover)), id) && sys.store.rows[id].hash.Some?
    requires pid in sys.terminators && sys.terminators[pid].id != id
    ensures !Armed(sys.store.rows, sys.terminators[pid], sys.store.rows[id].hash.value)
  {
    if mover != id {
      assert Protected(sys, id);
    }
    assert !RemovalPending(sys, id, sys.store.rows[id].hash.value);
  }

  lemma StaysProtectedByCalls(sha: Bytes -> Hash, sys: System, a: Action, id: Id)
    requires FinishersSound(sha, sys) && DoneSound(sha, sys) && Enabled(sys, a) && (OfWriter(a) || OfFinisher(a)) && !a.Move?
    requires Protected(Next(sha, sys, a), id)
    ensures var sys' := Next(sha, sys, a);
      Protected(sys, id) && sys'.done[id] == sys.done[id] && sys'.store.rows[id].hash == sys.store.rows[id].hash
  {
  }

  lemma StaysProtected(sha: Bytes -> Hash, sys: System, a: Action, id: Id)
    requires Sound(sha, sys) && Enabled(sys, a) && !a.Move? && Protected(Next(sha, sys, a), id)
    ensures var sys' := Next(sha, sys, a);
      Protected(sys, id) && sys'.done[id] == sys.done[id] && sys'.store.rows[id].hash == sys.store.rows[id].hash
  {
    if OfWriter(a) || OfFinisher(a) {
      StaysProtectedByCalls(sha, sys, a, id);
    } else {
      TerminatorLeavesCalls(sha, sys, a);
    }
  }

  lemma NotArmedByCalls(sha: Bytes -> Hash, sys: System, a: Action, h: Hash, pid: nat)
    requires Enabled(sys, a) && (OfWriter(a) || OfFinisher(a))
    requires a.SetHash? && sys.finishing[a.id].hash == h ==> !StaleLookup(sys, a.id)
    requires pid in Next(sha, sys, a).terminators && Armed(Next(sha, sys, a).store.rows, Next(sha, sys, a).terminators[pid], h)
    ensures pid in sys.terminators && sys.terminators[pid] == Next(sha, sys, a).terminators[pid]
    ensures Armed(sys.store.rows, sys.terminators[pid], h)
  {
  }

  lemma NotArmedByTerminator(sha: Bytes -> Hash, sys: System, a: Action, id: Id, h: Hash, pid: nat)
    requires TerminatorsSound(sys) && Enabled(sys, a) && !OfWriter(a) && !OfFinisher(a) && Carries(sys.store.rows, id, h)
    requires pid in Next(sha, sys, a).terminators && Next(sha, sys, a).terminators[pid].id != id
    requires Armed(Next(sha, sys, a).store.rows, Next(sha, sys, a).terminators[pid], h)
    ensures pid in sys.terminators && sys.terminators[pid].id != id && Armed(sys.store.rows, sys.terminators[pid], h)
  {
    if pid in sys.terminators && sys.terminators[pid].id != id {
      CarrierCounts(sys.store.rows, id, h, sys.terminators[pid].id);
    }
  }

  lemma CarrierCounts(rows: Table, id: Id, h: Hash, other: Id)
    requires Carries(rows, id, h) && id != other
    ensures |Duplicates(rows, Some(h), other)| > 0
  {
    assert id in Duplicates(rows, Some(h), other);
  }

  /** Once a live row carries a hash, only a row update behind a stale lookup can newly arm a Terminate of another upload. */
  lemma NotNewlyArmed(sha: Bytes -> Hash, sys: System, a: Action, id: Id, pid: nat)
    requires TerminatorsSound(sys) && Enabled(sys, a)
    requires Live(sys.store.rows, id) && sys.store.rows[id].hash.Some?
    requires a.SetHash? && sys.finishing[a.id].hash == sys.store.rows[id].hash.value ==> !StaleLookup(sys, a.id)
    requires pid in Next(sha, sys, a).terminators && Next(sha, sys, a).terminators[pid].id != id
    ensures var h := sys.store.rows[id].hash.value;
      Armed(Next(sha, sys, a).store.rows, Next(sha, sys, a).terminators[pid], h) ==>
        pid in sys.terminators && sys.terminators[pid].id != id && Armed(sys.store.rows, sys.terminators[pid], h)
  {
    var h := sys.store.rows[id].hash.value;
    if Armed(Next(sha, sys, a).store.rows, Next(sha, sys, a).terminators[pid], h) {
      if OfWriter(a) || OfFinisher(a) {
        NotArmedByCalls(sha, sys, a, h, pid);
      } else {
        NotArmedByTerminator(sha, sys, a, id, h, pid);
      }
    }
  }

  lemma MoveKeepsReadable(sha: Bytes -> Hash, sys: System, mover: Id, id: Id)
    requires FinishersSound(sha, sys) && DoneSound(sha, sys) && AllReadable(sys) && Enabled(sys, Move(mover))
    requires InjectiveOn(sha, Next(sha, sys, Move(mover)).done.Values)
    requires Protected(Next(sha, sys, Move(mover)), id)
    ensures var sys' := Next(sha, sys, Move(mover)); Read(sys'.store, id) == Some(sys'.done[id])
  {
    var sys' := Next(sha, sys, Move(mover));
    assert sys'.done[mover] in sys'.done.Values && sys'.done[id] in sys'.done.Values;
    if id != mover {
      assert Protected(sys, id);
    }
  }

  lemma CallsKeepReadable(sha: Bytes -> Hash, sys: System, a: Action, id: Id)
    requires DoneSound(sha, sys) && CreatorsSound(sys) && FinishersSound(sha, sys)
    requires Enabled(sys, a) && (OfWriter(a) || OfFinisher(a)) && !a.Move?
    requires Protected(sys, id) && Read(sys.store, id) == Some(sys.done[id])
    requires Protected(Next(sha, sys, a), id) && Next(sha, sys, a).done[id] == sys.done[id]
    ensures Read(Next(sha, sys, a).store, id) == Some(sys.done[id])
  {
  }

  lemma TerminatorKeepsReadable(sys: System, a: Action, id: Id)
    requires TerminatorsSound(sys) && !OfWriter(a) && !OfFinisher(a) && TerminatorEnabled(sys, a)
    requires NoneThreatened(sys) && Protected(sys, id) && sys.store.rows[id].hash.Some? && Read(sys.store, id).Some?
    requires Live(NextTerminator(sys, a).store.rows, id)
    ensures Read(NextTerminator(sys, a).store, id) == Read(sys.store, id)
  {
    if a.RemoveBytes? {
      assert TerminatorSound(sys, sys.terminators[a.pid]);
      assert sys.terminators[a.pid].id != id;
      assert !Armed(sys.store.rows, sys.terminators[a.pid], sys.store.rows[id].hash.value);
    }
  }

  lemma OthersKeepReadable(sha: Bytes -> Hash, sys: System, a: Action, id: Id)
    requires Sound(sha, sys)
    requires NoneThreatened(sys) && AllReadable(sys) && Enabled(sys, a) && !a.Move?
    requires Protected(Next(sha, sys, a), id)
    ensures var sys' := Next(sha, sys, a); Read(sys'.store, id) == Some(sys'.done[id])
  {
    StaysProtected(sha, sys, a, id);
    assert Read(sys.store, id) == Some(sys.done[id]);
    if OfWriter(a) || OfFinisher(a) {
      CallsKeepReadable(sha, sys, a, id);
    } else {
      TerminatorKeepsReadable(sys, a, id);
    }
  }

  lemma AllReadableKept(sha: Bytes -> Hash, sys: System, a: Action)
    requires Inv(sha, sys) && Enabled(sys, a) && !InWindow(sys, a)
    requires InjectiveOn(sha, Next(sha, sys, a).done.Values)
    ensures AllReadable(Next(sha, sys, a))
  {
    forall id | Protected(Next(sha, sys, a), id)
      ensures Read(Next(sha, sys, a).store, id) == Some(Next(sha, sys, a).done[id])
    {
      if a.Move? {
        MoveKeepsReadable(sha, sys, a.id, id);
      } else {
        OthersKeepReadable(sha, sys, a, id);
      }
    }
  }

  lemma InvKept(sha: Bytes -> Hash, sys: System, a: Action)
    requires Inv(sha, sys) && Enabled(sys, a) && !InWindow(sys, a)
    requires InjectiveOn(sha, Next(sha, sys, a).done.Values)
    ensures Inv(sha, Next(sha, sys, a))
  {
    SoundnessKept(sha, sys, a);
    NoneThreatenedKept(sha, sys, a);
    AllReadableKept(sha, sys, a);
  }

  // ------------------------------------------------------------------ every run

  ghost predicate EnabledRun(sha: Bytes -> Hash, sys: System, actions: seq<Action>)
    decreases |actions|, 0
  {
    actions == [] ||
    (EnabledRun(sha, sys, actions[..|actions| - 1])
     && Enabled(Reached(sha, sys, actions[..|actions| - 1]), actions[|actions| - 1]))
  }

  ghost function Reached(sha: Bytes -> Hash, sys: System, actions: seq<Action>): System
    requires EnabledRun(sha, sys, actions)
    decreases |actions|, 1
  {
    if actions == [] then sys else Next(sha, Reached(sha, sys, actions[..|actions| - 1]), actions[|actions| - 1])
  }

  ghost predicate AvoidsWindows(sha: Bytes -> Hash, sys: System, actions: seq<Action>)
    requires EnabledRun(sha, sys, actions)
    decreases |actions|
  {
    actions == [] ||
    (AvoidsWindows(sha, sys, actions[..|actions| - 1])
     && !InWindow(Reached(sha, sys, actions[..|actions| - 1]), actions[|actions| - 1]))
  }

  lemma {:induction false} InvAlways(sha: Bytes -> Hash, c: Layout, actions: seq<Action>)
    requires EnabledRun(sha, Start(c), actions) && AvoidsWindows(sha, Start(c), actions)
    requires InjectiveOn(sha, Reached(sha, Start(c), actions).done.Values)
    ensures Inv(sha, Reached(sha, Start(c), actions))
    decreases |actions|
  {
    if actions != [] {
      var sys, a := Reached(sha, Start(c), actions[..|actions| - 1]), actions[|actions| - 1];
      AlwaysSound(sha, c, actions[..|actions| - 1]);
      SoundnessKept(sha, sys, a);
      InvAlways(sha, c, actions[..|actions| - 1]);
      InvKept(sha, sys, a);
    }
  }

  /**
   In every interleaving that stays out of the two windows, every finished upload that is live
   and whose record no Terminate has removed is served in full: the bytes it was finished with,
   and the record it was created with.
   */
  lemma InterleavedSafety(sha: Bytes -> Hash, c: Layout, actions: seq<Action>, id: Id)
    requires EnabledRun(sha, Start(c), actions) && AvoidsWindows(sha, Start(c), actions)
    requires InjectiveOn(sha, Reached(sha, Start(c), actions).done.Values)
    requires Protected(Reached(sha, Start(c), actions), id)
    ensures var sys := Reached(sha, Start(c), actions);
      && Read(sys.store, id) == Some(sys.done[id])
      && id in sys.infos && GetInfo(sys.store, id) == Some((sys.infos[id], |sys.done[id]|))
  {
    InvAlways(sha, c, actions);
  }

  lemma {:induction false} AlwaysSound(sha: Bytes -> Hash, c: Layout, actions: seq<Action>)
    requires EnabledRun(sha, Start(c), actions)
    ensures Sound(sha, Reached(sha, Start(c), actions))
    decreases |actions|
  {
    if actions != [] {
      AlwaysSound(sha, c, actions[..|actions| - 1]);
      SoundnessKept(sha, Reached(sha, Start(c), actions[..|actions| - 1]), actions[|actions| - 1]);
    }
  }
}
