/**
 The store behaves as a plain map from upload ids to bytes, over every run of operations,
 however many uploads share a blob; and it keeps exactly the files the live uploads need.
 */
module StoreRefinement {
  import opened Bytes
  import opened StorePaths
  import opened UploadStore

  datatype Op =
    | New(id: Id, now: int, info: UploadInfo)
    | Write(id: Id, data: Bytes)              // data: what arrived before the reader stopped
    | Concat(dest: Id, sources: seq<Id>)
    | Finish(id: Id)
    | Remove(id: Id)

  /**
   What clients see: the bytes and the record of each live upload. `hashed` collects all contents
   that were ever finished; `info` keeps the records of all uploads there ever were.
   */
  datatype Plain = Plain(
    content: map<Id, Bytes>, info: map<Id, UploadInfo>, finished: set<Id>, used: set<Id>, hashed: set<Bytes>)

  const FRESH := Plain(map[], map[], {}, {}, {})

  // ------------------------------------------------------------------ steps and runs

  ghost function StepResult(sha: Bytes -> Hash, s: Store, op: Op): (Store, Status) {
    match op
    case New(id, now, info) => NewUpload(s, id, now, info)
    case Write(id, data) => (Append(s, id, data), if Read(s, id).Some? then Ok else Failed)
    case Concat(dest, sources) => ConcatUploads(s, dest, sources)
    case Finish(id) => FinishUpload(sha, s, id)
    case Remove(id) => Terminate(s, id)
  }

  ghost function Step(sha: Bytes -> Hash, s: Store, op: Op): Store {
    StepResult(sha, s, op).0
  }

  ghost function Run(sha: Bytes -> Hash, s: Store, ops: seq<Op>): Store {
    if ops == [] then s else Step(sha, Run(sha, s, ops[..|ops| - 1]), ops[|ops| - 1])
  }

  function PlainGather(content: map<Id, Bytes>, sources: seq<Id>): Bytes
    requires forall i :: i in sources ==> i in content
  {
    if sources == [] then [] else content[sources[0]] + PlainGather(content, sources[1..])
  }

  /** What tusd and the id generator guarantee about each call. */
  predicate Allowed(p: Plain, op: Op) {
    match op
    case New(id, _, _) => IsUid(id) && id !in p.used
    case Write(id, _) => id in p.content && id !in p.finished
    case Concat(dest, sources) =>
      dest in p.content && dest !in p.finished && dest !in sources && forall i :: i in sources ==> i in p.content
    case Finish(_) => true
    case Remove(_) => true
  }

  function PlainStep(p: Plain, op: Op): Plain
    requires Allowed(p, op)
  {
    match op
    case New(id, _, info) =>
      p.(content := p.content[id := []], info := p.info[id := info.(id := id)], used := p.used + {id})
    case Write(id, data) => p.(content := p.content[id := p.content[id] + data])
    case Concat(dest, sources) =>
      p.(content := p.content[dest := p.content[dest] + PlainGather(p.content, sources)])
    case Finish(id) =>
      if id in p.content then p.(finished := p.finished + {id}, hashed := p.hashed + {p.content[id]}) else p
    case Remove(id) => p.(content := p.content - {id}, finished := p.finished - {id})
  }

  /** Which calls succeed. */
  predicate PlainOk(p: Plain, op: Op) {
    match op
    case Finish(id) => id in p.content && id !in p.finished
    case Remove(id) => id in p.used
    case _ => true
  }

  predicate AllowedRun(p: Plain, ops: seq<Op>)
    decreases |ops|, 0
  {
    ops == [] || (AllowedRun(p, ops[..|ops| - 1]) && Allowed(PlainRun(p, ops[..|ops| - 1]), ops[|ops| - 1]))
  }

  function PlainRun(p: Plain, ops: seq<Op>): Plain
    requires AllowedRun(p, ops)
    decreases |ops|, 1
  {
    if ops == [] then p else PlainStep(PlainRun(p, ops[..|ops| - 1]), ops[|ops| - 1])
  }

  ghost predicate InjectiveOn(sha: Bytes -> Hash, contents: set<Bytes>) {
    forall a, b :: a in contents && b in contents && sha(a) == sha(b) ==> a == b
  }

  // ------------------------------------------------------------------ the invariant

  /** The files a table calls for. */
  ghost predicate Justified(rows: Table, l: Loc) {
    match l
    case Info(id) => Live(rows, id)
    case Lock(_) => false
    case Incomplete(id) => Live(rows, id) && rows[id].hash.None?
    case Complete(h) => exists id :: Carries(rows, id, h)
  }

  predicate Good(sha: Bytes -> Hash, l: Loc, c: Content) {
    match l
    case Info(id) => c.Meta? && c.info.id == id
    case Lock(_) => false
    case Incomplete(_) => c.Bin?
    case Complete(h) => c.Bin? && sha(c.bytes) == h
  }

  /** Exactly the justified files exist, and each blob is stored under its own hash. */
  ghost predicate Exact(sha: Bytes -> Hash, s: Store) {
    && (forall id :: id in s.rows ==> IsUid(id))
    && (forall l :: l in s.files <==> Justified(s.rows, l))
    && (forall l :: l in s.files ==> Good(sha, l, s.files[l]))
  }

  /** Table and bytes are what the plain map says. */
  ghost predicate HoldsBytes(sha: Bytes -> Hash, s: Store, p: Plain) {
    && Exact(sha, s)
    && s.rows.Keys == p.used
    && (forall id :: id in p.content <==> Live(s.rows, id))
    && (forall id :: id in p.finished <==> Live(s.rows, id) && s.rows[id].hash.Some?)
    && (forall id :: id in p.content ==> Read(s, id) == Some(p.content[id]))
    && (forall id :: id in p.finished ==> p.content[id] in p.hashed && s.rows[id].hash == Some(sha(p.content[id])))
  }

  ghost predicate HoldsRecords(s: Store, p: Plain) {
    forall id :: id in p.content ==> Info(id) in s.files && id in p.info && s.files[Info(id)] == Meta(p.info[id])
  }

  /** The store holds what the plain map says. */
  ghost predicate Refines(sha: Bytes -> Hash, s: Store, p: Plain) {
    HoldsBytes(sha, s, p) && HoldsRecords(s, p)
  }

  // ------------------------------------------------------------------ one step

  /** A new upload is empty; no other reads differently. */
  lemma NewReads(sha: Bytes -> Hash, s: Store, op: Op, id: Id)
    requires op.New? && op.id !in s.rows && Incomplete(op.id) !in s.files
    requires id == op.id || (id in s.rows && Read(s, id).Some?)
    ensures Read(Step(sha, s, op), id) == if id == op.id then Some([]) else Read(s, id)
  {
    assert BinLoc(Step(sha, s, op).rows, id) == if id == op.id then Incomplete(id) else BinLoc(s.rows, id);
  }

  lemma NewHolds(sha: Bytes -> Hash, s: Store, p: Plain, op: Op)
    requires HoldsBytes(sha, s, p) && op.New? && Allowed(p, op)
    ensures HoldsBytes(sha, Step(sha, s, op), PlainStep(p, op))
  {
    NewExact(sha, s, op);
    assert !Justified(s.rows, Incomplete(op.id));
    forall id | id in PlainStep(p, op).content ensures Read(Step(sha, s, op), id) == Some(PlainStep(p, op).content[id]) {
      NewReads(sha, s, op, id);
    }
  }

  lemma NewExact(sha: Bytes -> Hash, s: Store, op: Op)
    requires Exact(sha, s) && op.New? && IsUid(op.id) && op.id !in s.rows
    ensures Exact(sha, Step(sha, s, op))
  {
    var s' := Step(sha, s, op);
    assert !Justified(s.rows, Incomplete(op.id));
    forall l ensures l in s'.files <==> Justified(s'.rows, l) {
      JustifiedAfterNew(s.rows, op.id, NewRow(op.now, op.info), l);
    }
  }

  lemma JustifiedAfterNew(rows: Table, id: Id, row: Row, l: Loc)
    requires id !in rows && row.hash.None? && !row.deleted
    ensures Justified(rows[id := row], l) <==> Justified(rows, l) || l == Info(id) || l == Incomplete(id)
  {
    var rows' := rows[id := row];
    match l
    case Complete(h) =>
      forall j ensures Carries(rows', j, h) <==> Carries(rows, j, h) {}
    case _ =>
  }

  /** Appending to an unfinished upload changes that upload alone. */
  lemma AppendHolds(sha: Bytes -> Hash, s: Store, p: Plain, id: Id, more: Bytes)
    requires HoldsBytes(sha, s, p) && id in p.content && id !in p.finished
    ensures HoldsBytes(sha, Append(s, id, more), p.(content := p.content[id := p.content[id] + more]))
  {
    assert BinLoc(s.rows, id) == Incomplete(id);
  }

  /**
   Why writes need an unfinished upload: bytes appended to an upload show up in another live one
   exactly if the two share a blob.
   */
  lemma AppendReachesSharers(sha: Bytes -> Hash, s: Store, id: Id, j: Id, more: Bytes)
    requires Exact(sha, s) && Live(s.rows, id) && Live(s.rows, j) && j != id && more != []
    ensures Read(Append(s, id, more), j) != Read(s, j)
       <==> s.rows[id].hash.Some? && s.rows[j].hash == s.rows[id].hash
  {
    var l := BinLoc(s.rows, j);
    if l.Complete? {
      assert Carries(s.rows, j, l.hash);
    }
    assert Justified(s.rows, l);
    assert |BytesOf(s.files[l]) + more| != |BytesOf(s.files[l])|;
  }

  lemma {:induction false} GatherHolds(sha: Bytes -> Hash, s: Store, p: Plain, sources: seq<Id>)
    requires HoldsBytes(sha, s, p) && forall i :: i in sources ==> i in p.content
    ensures Gather(s, sources) == (PlainGather(p.content, sources), Ok)
  {
    if sources != [] {
      assert sources[0] in p.content;
      GatherHolds(sha, s, p, sources[1..]);
    }
  }

  lemma FinishExact(sha: Bytes -> Hash, s: Store, id: Id)
    requires Exact(sha, s) && Live(s.rows, id) && s.rows[id].hash.None?
    ensures Incomplete(id) in s.files && Read(s, id) == Some(BytesOf(s.files[Incomplete(id)]))
    ensures FinishUpload(sha, s, id).1 == Ok && Exact(sha, FinishUpload(sha, s, id).0)
  {
    assert Justified(s.rows, Incomplete(id));
    var h := sha(Read(s, id).value);
    var s' := FinishUpload(sha, s, id).0;
    forall l ensures l in s'.files <==> Justified(s'.rows, l) {
      if l == Complete(h) {
        assert Carries(s'.rows, id, h);
      } else if l.Complete? {
        assert forall j :: Carries(s'.rows, j, l.hash) <==> Carries(s.rows, j, l.hash);
      }
    }
  }

  /** The blob that a finished upload leaves is what every upload with its hash reads. */
  lemma FinishReads(sha: Bytes -> Hash, s: Store, p: Plain, id: Id, j: Id)
    requires HoldsBytes(sha, s, p) && id in p.content && id !in p.finished && j in p.content
    requires InjectiveOn(sha, p.hashed + {p.content[id]})
    ensures Read(FinishUpload(sha, s, id).0, j) == Some(p.content[j])
  {
    FinishExact(sha, s, id);
    assert Read(s, id) == Some(p.content[id]) && Read(s, j) == Some(p.content[j]);
    if j != id && s.rows[j].hash == Some(sha(p.content[id])) {
      assert j in p.finished && sha(p.content[j]) == sha(p.content[id]);
    }
  }

  lemma FinishHolds(sha: Bytes -> Hash, s: Store, p: Plain, op: Op)
    requires HoldsBytes(sha, s, p) && op.Finish?
    requires InjectiveOn(sha, PlainStep(p, op).hashed)
    ensures HoldsBytes(sha, Step(sha, s, op), PlainStep(p, op))
    ensures StepResult(sha, s, op).1 == if PlainOk(p, op) then Ok else Failed
  {
    var id := op.id;
    if id in p.content && id !in p.finished {
      FinishExact(sha, s, id);
      assert Read(s, id) == Some(p.content[id]);
      assert Step(sha, s, op).rows == s.rows[id := s.rows[id].(hash := Some(sha(p.content[id])))];
      assert PlainStep(p, op).content == p.content;
      forall j | j in p.content ensures Read(Step(sha, s, op), j) == Some(p.content[j]) {
        FinishReads(sha, s, p, id, j);
      }
    } else {
      FinishAgain(sha, s, id);
      assert id in p.finished ==> p.content[id] in p.hashed;
      assert PlainStep(p, op) == p;
    }
  }

  /** Finishing an upload that is finished already, gone, or unknown fails and changes nothing. */
  lemma FinishAgain(sha: Bytes -> Hash, s: Store, id: Id)
    requires Exact(sha, s) && !(Live(s.rows, id) && s.rows[id].hash.None?)
    ensures FinishUpload(sha, s, id) == (s, Failed)
  {
    assert !Justified(s.rows, Incomplete(id));
    if Read(s, id).Some? && id in s.rows {
      assert s.rows[id].hash == Some(sha(Read(s, id).value));
      assert s.rows[id := s.rows[id]] == s.rows;
    }
  }

  lemma RemoveExact(sha: Bytes -> Hash, s: Store, ids: set<Id>)
    requires Exact(sha, s)
    ensures Exact(sha, TerminateAll(s, ids))
  {
    var s' := TerminateAll(s, ids);
    forall l ensures l in s'.files <==> Justified(s'.rows, l) {
      if l.Complete? {
        assert forall j :: Carries(s'.rows, j, l.hash) <==> Carries(s.rows, j, l.hash) && j !in ids;
      }
    }
  }

  /** Terminating uploads leaves the bytes of every other live upload as they were. */
  lemma RemoveKeepsOthers(sha: Bytes -> Hash, s: Store, ids: set<Id>, j: Id)
    requires Exact(sha, s) && Live(s.rows, j) && j !in ids
    ensures Live(TerminateAll(s, ids).rows, j) && Read(TerminateAll(s, ids), j) == Read(s, j) && Read(s, j).Some?
  {
    var l := BinLoc(s.rows, j);
    assert BinLoc(TerminateAll(s, ids).rows, j) == l;
    if l.Complete? {
      assert Carries(s.rows, j, l.hash);
    }
    assert Justified(s.rows, l) && !Condemned(s.rows, ids, l);
  }

  lemma RemoveHolds(sha: Bytes -> Hash, s: Store, p: Plain, op: Op)
    requires HoldsBytes(sha, s, p) && op.Remove?
    ensures HoldsBytes(sha, Step(sha, s, op), PlainStep(p, op))
  {
    RemoveExact(sha, s, {op.id});
    forall j | j in p.content && j != op.id
      ensures Read(Step(sha, s, op), j) == Some(p.content[j])
    {
      RemoveKeepsOthers(sha, s, {op.id}, j);
    }
  }

  lemma RecordStays(sha: Bytes -> Hash, s: Store, op: Op, id: Id)
    requires Info(id) in s.files && Info(id) in Step(sha, s, op).files && s.files[Info(id)].Meta?
    requires !(op.New? && op.id == id)
    ensures Step(sha, s, op).files[Info(id)] == s.files[Info(id)]
  {
  }

  lemma RecordGoesWithUpload(sha: Bytes -> Hash, s: Store, op: Op, id: Id)
    requires Info(id) in s.files && op != Remove(id)
    ensures Info(id) in Step(sha, s, op).files
  {
    if op.Remove? {
      assert !Condemned(s.rows, {op.id}, Info(id));
    }
  }

  lemma StepHoldsRecords(sha: Bytes -> Hash, s: Store, p: Plain, op: Op)
    requires Refines(sha, s, p) && Allowed(p, op)
    ensures HoldsRecords(Step(sha, s, op), PlainStep(p, op))
  {
    var s', p' := Step(sha, s, op), PlainStep(p, op);
    forall id | id in p'.content ensures Info(id) in s'.files && id in p'.info && s'.files[Info(id)] == Meta(p'.info[id]) {
      if !(op.New? && op.id == id) {
        assert id in p.content && op != Remove(id) && p'.info[id] == p.info[id];
        RecordGoesWithUpload(sha, s, op, id);
        RecordStays(sha, s, op, id);
      }
    }
  }

  lemma StepRefines(sha: Bytes -> Hash, s: Store, p: Plain, op: Op)
    requires Refines(sha, s, p) && Allowed(p, op)
    requires InjectiveOn(sha, PlainStep(p, op).hashed)
    ensures Refines(sha, Step(sha, s, op), PlainStep(p, op))
    ensures StepResult(sha, s, op).1 == if PlainOk(p, op) then Ok else Failed
  {
    StepHoldsRecords(sha, s, p, op);
    match op
    case New(_, _, _) => NewHolds(sha, s, p, op);
    case Write(id, data) => AppendHolds(sha, s, p, id, data);
    case Concat(dest, sources) =>
      GatherHolds(sha, s, p, sources);
      AppendHolds(sha, s, p, dest, PlainGather(p.content, sources));
    case Finish(_) => FinishHolds(sha, s, p, op);
    case Remove(_) => RemoveHolds(sha, s, p, op);
  }

  // ------------------------------------------------------------------ any step, allowed or not

  /** Exactly when an operation reports success, and that most failures change nothing. */
  lemma StatusIsExact(sha: Bytes -> Hash, s: Store, op: Op)
    ensures var (s', status) := StepResult(sha, s, op);
      match op
      case New(id, _, _) => (status == Ok <==> id !in s.rows) && (status == Failed ==> s' == s)
      case Write(id, _) => (status == Ok <==> Read(s, id).Some?) && (status == Failed ==> s' == s)
      case Concat(dest, sources) =>
        && (status == Ok <==> Read(s, dest).Some? && forall i :: 0 <= i < |sources| ==> Read(s, sources[i]).Some?)
        && (Read(s, dest).None? ==> s' == s)
      case Finish(id) =>
        && (status == Ok <==> id in s.rows && Read(s, id).Some? && Incomplete(id) in s.files)
        && (!(id in s.rows && Read(s, id).Some?) ==> s' == s)
      case Remove(id) => status == Ok <==> id in s.rows
  {
    if op.Concat? {
      GatherStatus(s, op.sources);
    }
  }

  lemma {:induction false} GatherStatus(s: Store, sources: seq<Id>)
    ensures Gather(s, sources).1 == Ok <==> forall i :: 0 <= i < |sources| ==> Read(s, sources[i]).Some?
  {
    if sources != [] {
      GatherStatus(s, sources[1..]);
      assert forall i :: 0 < i < |sources| ==> sources[i] == sources[1..][i - 1];
    }
  }

  /**
   What an operation does to a row: creation time, account and issuer never change, only a Terminate of the upload
   marks it, only its FinishUpload sets a hash, that of the bytes it could read, and only a NewUpload adds it.
   */
  lemma RowsAfterStep(sha: Bytes -> Hash, s: Store, op: Op, id: Id)
    ensures var rows, rows' := s.rows, Step(sha, s, op).rows;
      && (id in rows ==>
            && id in rows'
            && rows'[id] == rows[id].(
                 deleted := rows[id].deleted || op == Remove(id),
                 hash := if op == Finish(id) && Read(s, id).Some? then Some(sha(Read(s, id).value)) else rows[id].hash))
      && (id !in rows ==> (id in rows' <==> op.New? && op.id == id))
  {
  }

  /** Which files an operation may touch at all. */
  predicate MayTouch(sha: Bytes -> Hash, s: Store, op: Op, l: Loc) {
    match op
    case New(id, _, _) => l == Info(id) || l == Incomplete(id)
    case Write(id, _) => l == BinLoc(s.rows, id)
    case Concat(dest, _) => l == BinLoc(s.rows, dest)
    case Finish(id) => l == Incomplete(id) || (Read(s, id).Some? && l == Complete(sha(Read(s, id).value)))
    case Remove(id) => l == Info(id) || l == BinLoc(s.rows, id)
  }

  lemma FilesAfterStep(sha: Bytes -> Hash, s: Store, op: Op, l: Loc)
    requires !MayTouch(sha, s, op, l)
    ensures l in Step(sha, s, op).files <==> l in s.files
    ensures l in s.files ==> Step(sha, s, op).files[l] == s.files[l]
  {
    if op.Remove? {
      CondemnedOne(s.rows, op.id);
    }
  }

  // ------------------------------------------------------------------ every run

  /** The store refines the plain map over every run, assuming no two contents hashed in it collide. */
  lemma {:induction false} RunRefines(sha: Bytes -> Hash, ops: seq<Op>)
    requires AllowedRun(FRESH, ops)
    requires InjectiveOn(sha, PlainRun(FRESH, ops).hashed)
    ensures Refines(sha, Run(sha, EMPTY, ops), PlainRun(FRESH, ops))
  {
    if ops == [] {
      assert forall l :: !Justified(EMPTY.rows, l);
    } else {
      var earlier := ops[..|ops| - 1];
      var p := PlainRun(FRESH, earlier);
      assert p.hashed <= PlainRun(FRESH, ops).hashed;
      RunRefines(sha, earlier);
      StepRefines(sha, Run(sha, EMPTY, earlier), p, ops[|ops| - 1]);
    }
  }

  /** What a client reads after any run: a live upload's bytes, record and length; no other id has a record. */
  lemma ReadAfterRun(sha: Bytes -> Hash, ops: seq<Op>, id: Id)
    requires AllowedRun(FRESH, ops) && InjectiveOn(sha, PlainRun(FRESH, ops).hashed)
    ensures var s, content := Run(sha, EMPTY, ops), PlainRun(FRESH, ops).content;
      if id in content
      then Read(s, id) == Some(content[id]) && id in PlainRun(FRESH, ops).info
        && GetInfo(s, id) == Some((PlainRun(FRESH, ops).info[id], |content[id]|))
      else GetInfo(s, id) == None
  {
    RunRefines(sha, ops);
    var s := Run(sha, EMPTY, ops);
    assert Justified(s.rows, Info(id)) <==> Live(s.rows, id);
  }

  // ------------------------------------------------------------------ exact storage

  lemma {:induction false} ImageSize(sha: Bytes -> Hash, contents: set<Bytes>)
    requires InjectiveOn(sha, contents)
    ensures |set c | c in contents :: Complete(sha(c))| == |contents|
  {
    var image := set c | c in contents :: Complete(sha(c));
    if contents == {} {
      assert image == {};
    } else {
      var c :| c in contents;
      var fewer := contents - {c};
      ImageSize(sha, fewer);
      var image' := set c | c in fewer :: Complete(sha(c));
      assert Complete(sha(c)) !in image';
      assert image == image' + {Complete(sha(c))};
    }
  }

  /**
   After any run a blob is stored under a hash iff some row with deleted = 0 carries that hash,
   unfinished bytes iff a live row has no hash, and a record iff the row is live; and there are
   as many blobs as there are distinct contents among the live finished uploads.
   */
  lemma ExactStorage(sha: Bytes -> Hash, ops: seq<Op>)
    requires AllowedRun(FRESH, ops) && InjectiveOn(sha, PlainRun(FRESH, ops).hashed)
    ensures var s, p := Run(sha, EMPTY, ops), PlainRun(FRESH, ops);
      && (forall h :: Complete(h) in s.files <==> exists id :: Carries(s.rows, id, h))
      && (forall h :: Complete(h) in s.files ==> sha(BytesOf(s.files[Complete(h)])) == h)
      && (forall id :: Incomplete(id) in s.files <==> Live(s.rows, id) && s.rows[id].hash == None)
      && (forall id :: Info(id) in s.files <==> Live(s.rows, id))
      && p.finished <= p.content.Keys
      && |set l | l in s.files && l.Complete?| == |set id | id in p.finished :: p.content[id]|
  {
    RunRefines(sha, ops);
    var s, p := Run(sha, EMPTY, ops), PlainRun(FRESH, ops);
    BlobsAreContents(sha, s, p);
    forall l: Loc ensures l in s.files <==> Justified(s.rows, l) {}
    forall id ensures Incomplete(id) in s.files <==> Justified(s.rows, Incomplete(id)) {}
    forall id ensures Info(id) in s.files <==> Justified(s.rows, Info(id)) {}
    forall h ensures Complete(h) in s.files <==> Justified(s.rows, Complete(h)) {}
  }

  lemma BlobsAreContents(sha: Bytes -> Hash, s: Store, p: Plain)
    requires Refines(sha, s, p) && InjectiveOn(sha, p.hashed)
    ensures p.finished <= p.content.Keys
    ensures |set l | l in s.files && l.Complete?| == |set id | id in p.finished :: p.content[id]|
  {
    var contents := set id | id in p.finished :: p.content[id];
    assert contents <= p.hashed;
    var blobs := set l | l in s.files && l.Complete?;
    var image := set c | c in contents :: Complete(sha(c));
    forall l | l in blobs ensures l in image {
      assert Justified(s.rows, l);
      var id :| Carries(s.rows, id, l.hash);
      assert id in p.finished && p.content[id] in contents && l == Complete(sha(p.content[id]));
    }
    forall l | l in image ensures l in blobs {
      var c :| c in contents && l == Complete(sha(c));
      var id :| id in p.finished && c == p.content[id];
      assert Carries(s.rows, id, l.hash);
      assert Justified(s.rows, l);
    }
    assert blobs == image;
    ImageSize(sha, contents);
  }
}
