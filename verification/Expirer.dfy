/** The garbage collector: which uploads a cycle selects, what it removes, and how long uploads live. */
module Expirer {
  import opened Bytes
  import opened StorePaths
  import opened UploadStore
  import opened StoreTree
  import opened StoreRefinement
  import opened ShardedFileStore

  /** The two age limits, in seconds. */
  datatype Limits = Limits(maxAge: real, identifiedMaxAge: real)

  /** An upload belongs to the identified class iff its row has an account. */
  function ExpiresAt(row: Row, limits: Limits): real {
    row.createdAt as real + if row.account.None? then limits.maxAge else limits.identifiedMaxAge
  }

  /** The ids the expiry query selects at a time. */
  function Expired(rows: Table, limits: Limits, now: int): set<Id> {
    set id | id in rows && now as real >= ExpiresAt(rows[id], limits) && !rows[id].deleted
  }

  class Expirer {
    const store: ShardedFileStore
    const limits: Limits

    constructor (store: ShardedFileStore, limits: Limits)
      ensures this.store == store && this.limits == limits
    {
      this.store, this.limits := store, limits;
    }

    /** The selected ids, in whatever order the query returns them. */
    method GetExpired(now: int) returns (expiredIds: seq<Id>)
      ensures Ids(expiredIds) == Expired(store.rows, limits, now)
      ensures |expiredIds| == |Expired(store.rows, limits, now)|
      ensures forall id :: id in expiredIds <==>
        && id in store.rows && !store.rows[id].deleted
        && (now as real) - store.rows[id].createdAt as real
             >= (if store.rows[id].account == None then limits.maxAge else limits.identifiedMaxAge)
    {
      var remaining := Expired(store.rows, limits, now);
      expiredIds := [];
      while remaining != {}
        invariant Ids(expiredIds) + remaining == Expired(store.rows, limits, now)
        invariant |expiredIds| + |remaining| == |Expired(store.rows, limits, now)|
        decreases remaining
      {
        var id :| id in remaining;
        IdsSnoc(expiredIds, id);
        expiredIds := expiredIds + [id];
        remaining := remaining - {id};
      }
      forall id ensures id in expiredIds <==> id in Ids(expiredIds) {}
    }

    /** One cycle; a failed termination does not end it. The outcome does not depend on the order of the ids. */
    method Gc(now: int)
      requires store.Valid()
      modifies store
      ensures store.Valid()
      ensures Disk(store.Contents(), store.tree)
           == TerminateOnDisk(store.config, old(Disk(store.Contents(), store.tree)), Expired(old(store.rows), limits, now))
    {
      var expiredIds := GetExpired(now);
      ghost var before := Disk(store.Contents(), store.tree);
      OrderIrrelevant(store.config, before, []);
      for i := 0 to |expiredIds|
        invariant store.Valid()
        invariant store.rows.Keys == before.store.rows.Keys
        invariant Disk(store.Contents(), store.tree) == TerminateOnDisk(store.config, before, Ids(expiredIds[..i]))
      {
        assert expiredIds[i] in Ids(expiredIds);
        assert expiredIds[..i + 1] == expiredIds[..i] + [expiredIds[i]];
        IdsSnoc(expiredIds[..i], expiredIds[i]);
        TerminateOnDiskTwice(store.config, before, Ids(expiredIds[..i]), {expiredIds[i]});
        var status := store.Terminate(expiredIds[i]);
        if status == Failed {
          continue;
        }
      }
      assert expiredIds[..|expiredIds|] == expiredIds;
    }
  }

  /** A blob goes in a termination of many uploads iff no row that stays live carries its hash. */
  lemma BlobGoesIffUnreferenced(sha: Bytes -> Hash, s: Store, ids: set<Id>, h: Hash)
    requires Exact(sha, s) && Complete(h) in s.files
    ensures Complete(h) !in TerminateAll(s, ids).files
       <==> !exists j :: Carries(s.rows, j, h) && j !in ids
  {
    RemoveExact(sha, s, ids);
    var s' := TerminateAll(s, ids);
    assert Complete(h) in s'.files <==> Justified(s'.rows, Complete(h));
    forall j ensures Carries(s'.rows, j, h) <==> Carries(s.rows, j, h) && j !in ids {}
  }

  // ------------------------------------------------------------------ runs with a clock

  datatype Action = Client(op: Op) | Collect

  datatype Event = Event(now: int, action: Action)

  /** The store next to the plain map it should behave as. */
  datatype World = World(store: Store, plain: Plain)

  const START := World(EMPTY, FRESH)

  function Without(p: Plain, ids: set<Id>): Plain {
    p.(content := p.content - ids, finished := p.finished - ids)
  }

  ghost predicate EventAllowed(w: World, e: Event) {
    e.action.Client? ==>
      && Allowed(w.plain, e.action.op)
      && (e.action.op.New? ==> e.action.op.now == e.now)
  }

  ghost function After(sha: Bytes -> Hash, limits: Limits, w: World, e: Event): World
    requires EventAllowed(w, e)
  {
    match e.action
    case Client(op) => World(Step(sha, w.store, op), PlainStep(w.plain, op))
    case Collect =>
      var expired := Expired(w.store.rows, limits, e.now);
      World(TerminateAll(w.store, expired), Without(w.plain, expired))
  }

  /** Every event is allowed where it happens, and the clock does not run backwards. */
  ghost predicate Timeline(sha: Bytes -> Hash, limits: Limits, events: seq<Event>)
    decreases |events|, 0
  {
    events == [] ||
    (var earlier := events[..|events| - 1];
     && Timeline(sha, limits, earlier)
     && (earlier != [] ==> earlier[|earlier| - 1].now <= events[|events| - 1].now)
     && EventAllowed(History(sha, limits, earlier), events[|events| - 1]))
  }

  ghost function History(sha: Bytes -> Hash, limits: Limits, events: seq<Event>): World
    requires Timeline(sha, limits, events)
    decreases |events|, 1
  {
    if events == [] then START
    else After(sha, limits, History(sha, limits, events[..|events| - 1]), events[|events| - 1])
  }

  lemma CollectRefines(sha: Bytes -> Hash, s: Store, p: Plain, ids: set<Id>)
    requires Refines(sha, s, p)
    ensures Refines(sha, TerminateAll(s, ids), Without(p, ids))
  {
    RemoveExact(sha, s, ids);
    forall j | j in p.content && j !in ids
      ensures Read(TerminateAll(s, ids), j) == Some(p.content[j])
    {
      RemoveKeepsOthers(sha, s, ids, j);
    }
  }

  /** Collecting garbage in between does not break the refinement. */
  lemma {:induction false} HistoryRefines(sha: Bytes -> Hash, limits: Limits, events: seq<Event>)
    requires Timeline(sha, limits, events)
    requires InjectiveOn(sha, History(sha, limits, events).plain.hashed)
    ensures var w := History(sha, limits, events); Refines(sha, w.store, w.plain)
  {
    if events == [] {
      RunRefines(sha, []);
    } else {
      var w := History(sha, limits, events[..|events| - 1]);
      var e := events[|events| - 1];
      assert w.plain.hashed <= After(sha, limits, w, e).plain.hashed;
      HistoryRefines(sha, limits, events[..|events| - 1]);
      match e.action
      case Client(op) => StepRefines(sha, w.store, w.plain, op);
      case Collect => CollectRefines(sha, w.store, w.plain, Expired(w.store.rows, limits, e.now));
    }
  }

  /** A client's DELETE. */
  predicate Deletes(e: Event, id: Id) {
    e.action == Client(Remove(id))
  }

  /**
   Account, issuer and creation time of a row never change, and its creation time is that of its NewUpload;
   a client's DELETE and a cycle past its age limit delete it, for good, and nothing else does.
   */
  lemma RowsKeepAge(sha: Bytes -> Hash, limits: Limits, w: World, e: Event, id: Id)
    requires EventAllowed(w, e)
    ensures var rows, rows' := w.store.rows, After(sha, limits, w, e).store.rows;
      && (id !in rows && id in rows' ==> rows'[id].createdAt == e.now && !rows'[id].deleted)
      && (id in rows ==>
            && id in rows'
            && var row := rows[id];
            var limit := if row.account == None then limits.maxAge else limits.identifiedMaxAge;
            var collected := e.action.Collect? && e.now as real >= row.createdAt as real + limit;
            rows'[id] == row.(hash := rows'[id].hash, deleted := row.deleted || Deletes(e, id) || collected))
  {
  }

  /**
   No upload is collected before its time: in every run with a clock that does not run backwards,
   an upload that no client deleted and whose age limit has not been reached is live.
   */
  lemma {:induction false} NotCollectedEarly(sha: Bytes -> Hash, limits: Limits, events: seq<Event>, id: Id)
    requires Timeline(sha, limits, events) && events != []
    requires id in History(sha, limits, events).store.rows
    requires forall i :: 0 <= i < |events| ==> !Deletes(events[i], id)
    requires var row := History(sha, limits, events).store.rows[id];
      (events[|events| - 1].now as real)
        < row.createdAt as real + if row.account == None then limits.maxAge else limits.identifiedMaxAge
    ensures Live(History(sha, limits, events).store.rows, id)
  {
    var earlier, e := events[..|events| - 1], events[|events| - 1];
    var w := History(sha, limits, earlier);
    RowsKeepAge(sha, limits, w, e, id);
    if id in w.store.rows {
      assert earlier != [];
      NotCollectedEarly(sha, limits, earlier, id);
    }
  }

  /**
   After a cycle no live row is past the expiry evaluated at its selection; every other live
   upload keeps its record and bytes, and is still live.
   */
  lemma CycleIsExact(sha: Bytes -> Hash, limits: Limits, events: seq<Event>, now: int, id: Id)
    requires Timeline(sha, limits, events + [Event(now, Collect)])
    requires InjectiveOn(sha, History(sha, limits, events + [Event(now, Collect)]).plain.hashed)
    ensures (events + [Event(now, Collect)])[..|events|] == events && Timeline(sha, limits, events)
    ensures var s, s' := History(sha, limits, events).store, History(sha, limits, events + [Event(now, Collect)]).store;
      && (Live(s'.rows, id) <==>
            && Live(s.rows, id)
            && var row := s.rows[id];
            (now as real) < row.createdAt as real + if row.account == None then limits.maxAge else limits.identifiedMaxAge)
      && (Live(s'.rows, id) ==> Read(s', id) == Read(s, id) && Read(s, id).Some? && GetInfo(s', id) == GetInfo(s, id))
  {
    var all := events + [Event(now, Collect)];
    assert all[..|all| - 1] == events;
    var w := History(sha, limits, events);
    HistoryRefines(sha, limits, events);
    HistoryRefines(sha, limits, all);
    if Live(w.store.rows, id) && id !in Expired(w.store.rows, limits, now) {
      RemoveKeepsOthers(sha, w.store, Expired(w.store.rows, limits, now), id);
    }
  }
}
