/**
 A Terminate that is cut short leaves its row selectable, harms no other upload, and is made
 good by running it again, whatever whole operations happen in between.
 */
module Recovery {
  import opened Bytes
  import opened StorePaths
  import opened UploadStore
  import opened StoreRefinement

  /** How far an attempt got before it was cut: the row is marked only after all of these. */
  datatype Stage = Counted | RecordGone | BytesGone

  ghost function Attempted(s: Store, id: Id, stage: Stage): Store {
    match stage
    case Counted => s
    case RecordGone => s.(files := s.files - {Info(id)})
    case BytesGone => s.(files := s.files - CondemnedFiles(s, {id}))
  }

  datatype Event = Whole(op: Op) | Attempt(stage: Stage)

  predicate Touches(op: Op, id: Id) {
    match op
    case New(i, _, _) => i == id
    case Write(i, _) => i == id
    case Concat(dest, sources) => dest == id || id in sources
    case Finish(i) => i == id
    case Remove(i) => i == id
  }

  /** Whole operations on other uploads, and attempts on `id` that are all cut short. */
  predicate SparesId(events: seq<Event>, id: Id) {
    forall i :: 0 <= i < |events| && events[i].Whole? ==> !Touches(events[i].op, id)
  }

  ghost function FaultyRun(sha: Bytes -> Hash, s: Store, id: Id, events: seq<Event>): Store {
    if events == [] then s
    else
      var s' := FaultyRun(sha, s, id, events[..|events| - 1]);
      match events[|events| - 1]
      case Whole(op) => Step(sha, s', op)
      case Attempt(stage) => Attempted(s', id, stage)
  }

  /** The operations of the run without the attempts. */
  function Wholes(events: seq<Event>): seq<Op> {
    if events == [] then []
    else
      Wholes(events[..|events| - 1]) + match events[|events| - 1] case Whole(op) => [op] case Attempt(_) => []
  }

  /** s is u, except that files which terminating `id` would remove may be missing. */
  ghost predicate Lags(s: Store, u: Store, id: Id) {
    && s.rows == u.rows
    && (forall l :: l in s.files ==> l in u.files && s.files[l] == u.files[l])
    && (forall l :: l in u.files && l !in s.files ==> Condemned(u.rows, {id}, l))
  }

  lemma AttemptLags(s: Store, u: Store, id: Id, stage: Stage)
    requires Lags(s, u, id)
    ensures Lags(Attempted(s, id, stage), u, id)
  {
  }

  /** What every other live upload reads is still there. */
  lemma OthersReadable(sha: Bytes -> Hash, s: Store, u: Store, id: Id, j: Id)
    requires Exact(sha, u) && Lags(s, u, id) && Live(u.rows, j) && j != id
    ensures Read(s, j) == Read(u, j) && Read(u, j).Some?
    ensures GetInfo(s, j) == GetInfo(u, j)
  {
    var l := BinLoc(u.rows, j);
    if l.Complete? {
      assert Carries(u.rows, j, l.hash);
    }
    assert Justified(u.rows, l) && !Condemned(u.rows, {id}, l);
    assert Justified(u.rows, Info(j)) && !Condemned(u.rows, {id}, Info(j));
  }

  lemma {:induction false} GatherLags(sha: Bytes -> Hash, s: Store, u: Store, id: Id, sources: seq<Id>)
    requires Exact(sha, u) && Lags(s, u, id) && forall j :: j in sources ==> j != id && Live(u.rows, j)
    ensures Gather(s, sources) == Gather(u, sources)
  {
    if sources != [] {
      assert sources[0] in sources;
      OthersReadable(sha, s, u, id, sources[0]);
      forall j | j in sources[1..] ensures j in sources {}
      GatherLags(sha, s, u, id, sources[1..]);
    }
  }

  lemma AppendLags(sha: Bytes -> Hash, s: Store, u: Store, id: Id, j: Id, more: Bytes)
    requires Exact(sha, u) && Lags(s, u, id) && Live(u.rows, j) && j != id
    ensures Lags(Append(s, j, more), Append(u, j, more), id)
  {
    OthersReadable(sha, s, u, id, j);
  }

  lemma FinishLags(sha: Bytes -> Hash, s: Store, u: Store, id: Id, j: Id)
    requires Exact(sha, u) && Lags(s, u, id) && j != id
    ensures Lags(FinishUpload(sha, s, j).0, FinishUpload(sha, u, j).0, id)
  {
    if Live(u.rows, j) && u.rows[j].hash.None? {
      OthersReadable(sha, s, u, id, j);
      var h := sha(Read(u, j).value);
      var s', u' := FinishUpload(sha, s, j).0, FinishUpload(sha, u, j).0;
      forall l | l in u'.files && l !in s'.files ensures Condemned(u'.rows, {id}, l) {
        assert l != Complete(h) && Condemned(u.rows, {id}, l);
        if l.Complete? {
          assert forall k :: Carries(u'.rows, k, l.hash) ==> Carries(u.rows, k, l.hash);
        }
      }
    } else {
      FinishAgain(sha, u, j);
      assert !Justified(u.rows, Incomplete(j));
      if Read(s, j).Some? && j in s.rows {
        assert Read(s, j) == Read(u, j);
      }
    }
  }

  lemma RemoveLags(s: Store, u: Store, id: Id, j: Id)
    requires Lags(s, u, id)
    ensures Lags(TerminateAll(s, {j}), TerminateAll(u, {j}), id)
  {
    var u' := TerminateAll(u, {j});
    forall l | l in u'.files && l !in TerminateAll(s, {j}).files ensures Condemned(u'.rows, {id}, l) {
      assert Condemned(u.rows, {id}, l);
      assert l.Complete? ==> forall k :: Carries(u'.rows, k, l.hash) ==> Carries(u.rows, k, l.hash);
    }
  }

  lemma NewLags(sha: Bytes -> Hash, s: Store, u: Store, id: Id, op: Op)
    requires Exact(sha, u) && Lags(s, u, id) && op.New? && op.id != id
    ensures Lags(Step(sha, s, op), Step(sha, u, op), id)
  {
    var s', u' := Step(sha, s, op), Step(sha, u, op);
    if op.id !in u.rows {
      assert !Justified(u.rows, Incomplete(op.id));
      forall l | l in u'.files && l !in s'.files ensures Condemned(u'.rows, {id}, l) {
        assert Condemned(u.rows, {id}, l);
        assert l.Complete? ==> forall k :: Carries(u'.rows, k, l.hash) ==> Carries(u.rows, k, l.hash);
      }
    }
  }

  lemma StepLags(sha: Bytes -> Hash, s: Store, u: Store, p: Plain, id: Id, op: Op)
    requires Refines(sha, u, p) && Allowed(p, op) && !Touches(op, id) && Lags(s, u, id)
    ensures Lags(Step(sha, s, op), Step(sha, u, op), id)
  {
    match op
    case New(_, _, _) => NewLags(sha, s, u, id, op);
    case Write(j, data) => AppendLags(sha, s, u, id, j, data);
    case Concat(dest, sources) =>
      OthersReadable(sha, s, u, id, dest);
      GatherLags(sha, s, u, id, sources);
      AppendLags(sha, s, u, id, dest, Gather(u, sources).0);
    case Finish(j) => FinishLags(sha, s, u, id, j);
    case Remove(j) => RemoveLags(s, u, id, j);
  }

  lemma {:induction false} FaultyRunLags(sha: Bytes -> Hash, ops: seq<Op>, id: Id, events: seq<Event>)
    requires AllowedRun(FRESH, ops + Wholes(events)) && InjectiveOn(sha, PlainRun(FRESH, ops + Wholes(events)).hashed)
    requires SparesId(events, id)
    ensures Lags(FaultyRun(sha, Run(sha, EMPTY, ops), id, events), Run(sha, EMPTY, ops + Wholes(events)), id)
    ensures var u := Run(sha, EMPTY, ops + Wholes(events));
      Refines(sha, u, PlainRun(FRESH, ops + Wholes(events)))
    decreases |events|
  {
    RunRefines(sha, ops + Wholes(events));
    if events == [] {
      assert ops + [] == ops;
    } else {
      var earlier := events[..|events| - 1];
      assert SparesId(earlier, id);
      match events[|events| - 1]
      case Whole(op) =>
        WholeAppended(sha, ops, events, op);
        FaultyRunLags(sha, ops, id, earlier);
        var s, u := FaultyRun(sha, Run(sha, EMPTY, ops), id, earlier), Run(sha, EMPTY, ops + Wholes(earlier));
        StepLags(sha, s, u, PlainRun(FRESH, ops + Wholes(earlier)), id, op);
        assert FaultyRun(sha, Run(sha, EMPTY, ops), id, events) == Step(sha, s, op);
      case Attempt(stage) =>
        assert Wholes(events) == Wholes(earlier);
        FaultyRunLags(sha, ops, id, earlier);
        AttemptLags(FaultyRun(sha, Run(sha, EMPTY, ops), id, earlier), Run(sha, EMPTY, ops + Wholes(earlier)), id, stage);
    }
  }

  lemma WholeAppended(sha: Bytes -> Hash, ops: seq<Op>, events: seq<Event>, op: Op)
    requires events != [] && events[|events| - 1] == Whole(op) && AllowedRun(FRESH, ops + Wholes(events))
    ensures var all, earlier := ops + Wholes(events), ops + Wholes(events[..|events| - 1]);
      && all != [] && all[..|all| - 1] == earlier && all[|all| - 1] == op
      && AllowedRun(FRESH, earlier) && PlainRun(FRESH, earlier).hashed <= PlainRun(FRESH, all).hashed
      && Allowed(PlainRun(FRESH, earlier), op)
      && Run(sha, EMPTY, all) == Step(sha, Run(sha, EMPTY, earlier), op)
  {
    var all, earlier := ops + Wholes(events), ops + Wholes(events[..|events| - 1]);
    assert all == earlier + [op];
  }

  /**
   However often Terminate is cut short, with whole operations on other uploads in between:
   every other live upload reads as if nothing had been attempted, the row is as selectable as
   before, and a rerun gives the rows and files of an uninterrupted Terminate at that point.
   */
  lemma InterruptedTerminateIsRepaired(sha: Bytes -> Hash, ops: seq<Op>, id: Id, events: seq<Event>)
    requires AllowedRun(FRESH, ops + Wholes(events)) && InjectiveOn(sha, PlainRun(FRESH, ops + Wholes(events)).hashed)
    requires SparesId(events, id)
    ensures var s := FaultyRun(sha, Run(sha, EMPTY, ops), id, events);
      var u := Run(sha, EMPTY, ops + Wholes(events));
      var content := PlainRun(FRESH, ops + Wholes(events)).content;
      && (forall j :: j in content && j != id ==> Read(s, j) == Some(content[j]) && GetInfo(s, j) == GetInfo(u, j))
      && s.rows == u.rows
      && Terminate(s, id) == Terminate(u, id)
  {
    FaultyRunLags(sha, ops, id, events);
    var s := FaultyRun(sha, Run(sha, EMPTY, ops), id, events);
    var u := Run(sha, EMPTY, ops + Wholes(events));
    var content := PlainRun(FRESH, ops + Wholes(events)).content;
    forall j | j in content && j != id
      ensures Read(s, j) == Some(content[j]) && GetInfo(s, j) == GetInfo(u, j)
    {
      OthersReadable(sha, s, u, id, j);
    }
    assert TerminateAll(s, {id}).files == TerminateAll(u, {id}).files;
  }

  /** While only other uploads are touched, a row that is live stays live: gc will select it again. */
  lemma {:induction false} RowStaysLive(sha: Bytes -> Hash, s: Store, id: Id, events: seq<Event>)
    requires Live(s.rows, id) && SparesId(events, id)
    ensures var rows := FaultyRun(sha, s, id, events).rows;
      Live(rows, id) && rows[id] == s.rows[id]
    decreases |events|
  {
    if events != [] {
      RowStaysLive(sha, s, id, events[..|events| - 1]);
    }
  }

  // ------------------------------------------------------------------ a FinishUpload cut short

  /** The row has its hash, the rename has not happened. */
  function CutFinish(sha: Bytes -> Hash, s: Store, id: Id): Store
    requires id in s.rows && Read(s, id).Some?
  {
    s.(rows := s.rows[id := s.rows[id].(hash := Some(sha(Read(s, id).value)))])
  }

  /**
   FinishUpload is not made good by running it again: cut between its two steps, the upload can
   be read, and finished by a rerun, exactly if another live upload has the same hash.
   */
  lemma CutFinishNeedsASharer(sha: Bytes -> Hash, s: Store, id: Id)
    requires Exact(sha, s) && Live(s.rows, id) && s.rows[id].hash.None?
    ensures Read(s, id).Some?
    ensures var s', h := CutFinish(sha, s, id), sha(Read(s, id).value);
      && (Read(s', id).Some? <==> exists j :: Carries(s.rows, j, h))
      && (FinishUpload(sha, s', id).1 == Ok <==> exists j :: Carries(s.rows, j, h))
      && ((exists j :: Carries(s.rows, j, h)) ==> FinishUpload(sha, s', id).0 == FinishUpload(sha, s, id).0)
      && (!(exists j :: Carries(s.rows, j, h)) ==> FinishUpload(sha, s', id).0 == s')
  {
    FinishExact(sha, s, id);
    var s', h := CutFinish(sha, s, id), sha(Read(s, id).value);
    assert Complete(h) in s.files <==> Justified(s.rows, Complete(h));
    if Complete(h) in s.files {
      assert Good(sha, Complete(h), s.files[Complete(h)]);
      assert s'.rows[id := s'.rows[id]] == s'.rows;
    }
  }

  /** Without a sharer, then: cut in its FinishUpload, the only upload of a store can neither be read nor be finished. */
  lemma OnlyUploadIsLost(sha: Bytes -> Hash, id: Id, now: int, info: UploadInfo)
    requires IsUid(id)
    ensures var s := Run(sha, EMPTY, [New(id, now, info)]);
      && Live(s.rows, id) && Read(s, id) == Some([])
      && Read(CutFinish(sha, s, id), id) == None
      && FinishUpload(sha, CutFinish(sha, s, id), id) == (CutFinish(sha, s, id), Failed)
  {
    var ops := [New(id, now, info)];
    assert ops[..|ops| - 1] == [];
    assert AllowedRun(FRESH, []) && PlainRun(FRESH, []) == FRESH && Run(sha, EMPTY, []) == EMPTY;
    assert PlainRun(FRESH, ops) == PlainStep(FRESH, ops[0]) && Run(sha, EMPTY, ops) == Step(sha, EMPTY, ops[0]);
    RunRefines(sha, ops);
    var s := Run(sha, EMPTY, ops);
    assert forall j, h :: !Carries(s.rows, j, h);
    CutFinishNeedsASharer(sha, s, id);
  }
}
