/** A client that resumes at the reported offset stores its source, whichever writes are cut short. */
module ResumableUpload {
  import opened Bytes
  import opened StorePaths
  import opened UploadStore
  import opened StoreRefinement

  /**
   Patch(n): the client asks for the offset and sends the rest of its source, of which n bytes
   arrive. Other: somebody else's operation.
   */
  datatype Move = Patch(n: nat) | Other(op: Op)

  /** Store and plain map side by side. */
  datatype Pair = Pair(store: Store, plain: Plain)

  function Offset(s: Store, id: Id): nat {
    match GetInfo(s, id)
    case None => 0
    case Some((_, offset)) => offset
  }

  function Sent(source: Bytes, offset: nat, n: nat): Bytes {
    if offset + n <= |source| then source[offset..offset + n]
    else if offset <= |source| then source[offset..]
    else []
  }

  function OpOf(s: Store, id: Id, source: Bytes, m: Move): Op {
    match m
    case Patch(n) => Write(id, Sent(source, Offset(s, id), n))
    case Other(op) => op
  }

  /** Other clients may read the upload, as a source of a concatenation, but not change it. */
  predicate Changes(op: Op, id: Id) {
    match op
    case New(i, _, _) => i == id
    case Write(i, _) => i == id
    case Concat(dest, _) => dest == id
    case Finish(i) => i == id
    case Remove(i) => i == id
  }

  ghost predicate MoveAllowed(p: Pair, id: Id, m: Move) {
    m.Other? ==> Allowed(p.plain, m.op) && !Changes(m.op, id)
  }

  /** The upload is under way and holds a prefix of the source. */
  ghost predicate UnderWay(p: Pair, id: Id, source: Bytes) {
    id in p.plain.content && id !in p.plain.finished && p.plain.content[id] <= source
  }

  ghost predicate SessionAllowed(sha: Bytes -> Hash, p: Pair, id: Id, source: Bytes, moves: seq<Move>)
    decreases |moves|, 0
  {
    moves == [] ||
    (var earlier := moves[..|moves| - 1];
     && SessionAllowed(sha, p, id, source, earlier)
     && var p' := Session(sha, p, id, source, earlier);
     MoveAllowed(p', id, moves[|moves| - 1]) && Allowed(p'.plain, OpOf(p'.store, id, source, moves[|moves| - 1])))
  }

  ghost function Session(sha: Bytes -> Hash, p: Pair, id: Id, source: Bytes, moves: seq<Move>): Pair
    requires SessionAllowed(sha, p, id, source, moves)
    decreases |moves|, 1
  {
    if moves == [] then p
    else
      var p' := Session(sha, p, id, source, moves[..|moves| - 1]);
      var op := OpOf(p'.store, id, source, moves[|moves| - 1]);
      Pair(Step(sha, p'.store, op), PlainStep(p'.plain, op))
  }

  /** What an offset-addressed write would do to the file. */
  function WriteAt(file: Bytes, offset: nat, data: Bytes): Bytes
    requires offset <= |file|
  {
    file[..offset] + data + if offset + |data| <= |file| then file[offset + |data|..] else []
  }

  /** The append ignores the offset it is given; at the reported offset it writes the same file. */
  lemma AppendIsWriteAtOffset(s: Store, id: Id, data: Bytes)
    requires GetInfo(s, id).Some?
    ensures Offset(s, id) == |Read(s, id).value|
    ensures Read(Append(s, id, data), id) == Some(WriteAt(Read(s, id).value, Offset(s, id), data))
  {
    var file := Read(s, id).value;
    assert file[..|file|] == file;
    assert file[|file|..] == [];
    assert file + data + [] == file + data;
    assert WriteAt(file, |file|, data) == file + data;
  }

  /** One move keeps the stored bytes a prefix of the source and never shortens them. */
  lemma MoveKeepsPrefix(sha: Bytes -> Hash, p: Pair, id: Id, source: Bytes, m: Move)
    requires Refines(sha, p.store, p.plain) && UnderWay(p, id, source) && MoveAllowed(p, id, m)
    requires Allowed(p.plain, OpOf(p.store, id, source, m))
    ensures var p' := PlainStep(p.plain, OpOf(p.store, id, source, m));
      && id in p'.content && id !in p'.finished
      && p.plain.content[id] <= p'.content[id] <= source
      && (m.Patch? ==> |p'.content[id]| == if |p.plain.content[id]| + m.n <= |source| then |p.plain.content[id]| + m.n else |source|)
  {
    assert Justified(p.store.rows, Info(id));
    assert Offset(p.store, id) == |p.plain.content[id]|;
  }

  lemma {:induction false} SessionRefines(sha: Bytes -> Hash, p: Pair, id: Id, source: Bytes, moves: seq<Move>)
    requires Refines(sha, p.store, p.plain) && UnderWay(p, id, source)
    requires SessionAllowed(sha, p, id, source, moves)
    requires InjectiveOn(sha, Session(sha, p, id, source, moves).plain.hashed)
    ensures var p' := Session(sha, p, id, source, moves); Refines(sha, p'.store, p'.plain) && UnderWay(p', id, source)
    decreases |moves|
  {
    if moves != [] {
      var p' := Session(sha, p, id, source, moves[..|moves| - 1]);
      var op := OpOf(p'.store, id, source, moves[|moves| - 1]);
      assert p'.plain.hashed <= PlainStep(p'.plain, op).hashed;
      SessionRefines(sha, p, id, source, moves[..|moves| - 1]);
      MoveKeepsPrefix(sha, p', id, source, moves[|moves| - 1]);
      StepRefines(sha, p'.store, p'.plain, op);
    }
  }

  /** After any session the stored bytes are a prefix of the source, and the reported offset is their length. */
  lemma StoredIsPrefix(sha: Bytes -> Hash, p: Pair, id: Id, source: Bytes, moves: seq<Move>)
    requires Refines(sha, p.store, p.plain) && UnderWay(p, id, source)
    requires SessionAllowed(sha, p, id, source, moves)
    requires InjectiveOn(sha, Session(sha, p, id, source, moves).plain.hashed)
    ensures var s := Session(sha, p, id, source, moves).store;
      Read(s, id).Some? && Read(s, id).value <= source && Offset(s, id) == |Read(s, id).value|
  {
    SessionRefines(sha, p, id, source, moves);
    var p' := Session(sha, p, id, source, moves);
    assert Justified(p'.store.rows, Info(id));
  }

  /** Nothing stored is ever lost: what was stored before a move is a prefix of what is stored after it. */
  lemma NothingStoredIsLost(sha: Bytes -> Hash, p: Pair, id: Id, source: Bytes, moves: seq<Move>)
    requires Refines(sha, p.store, p.plain) && UnderWay(p, id, source) && moves != []
    requires SessionAllowed(sha, p, id, source, moves)
    requires InjectiveOn(sha, Session(sha, p, id, source, moves).plain.hashed)
    ensures var before, after := Session(sha, p, id, source, moves[..|moves| - 1]).store, Session(sha, p, id, source, moves).store;
      && Read(before, id).Some? && Read(after, id).Some?
      && Read(before, id).value <= Read(after, id).value
      && Offset(before, id) <= Offset(after, id)
  {
    var earlier := moves[..|moves| - 1];
    var p' := Session(sha, p, id, source, earlier);
    assert p'.plain.hashed <= PlainStep(p'.plain, OpOf(p'.store, id, source, moves[|moves| - 1])).hashed;
    StoredIsPrefix(sha, p, id, source, earlier);
    StoredIsPrefix(sha, p, id, source, moves);
    SessionRefines(sha, p, id, source, earlier);
    SessionRefines(sha, p, id, source, moves);
    MoveKeepsPrefix(sha, p', id, source, moves[|moves| - 1]);
  }

  /** When the reported offset has reached the length of the source, finishing records the hash of the whole source. */
  lemma FinishedHashIsOfSource(sha: Bytes -> Hash, p: Pair, id: Id, source: Bytes, moves: seq<Move>)
    requires Refines(sha, p.store, p.plain) && UnderWay(p, id, source)
    requires SessionAllowed(sha, p, id, source, moves)
    requires InjectiveOn(sha, Session(sha, p, id, source, moves).plain.hashed)
    ensures var s := Session(sha, p, id, source, moves).store;
      var (s', status) := FinishUpload(sha, s, id);
      Offset(s, id) == |source| ==>
        status == Ok && id in s'.rows && s'.rows[id].hash == Some(sha(source)) && Read(s', id) == Some(source)
  {
    StoredIsPrefix(sha, p, id, source, moves);
    SessionRefines(sha, p, id, source, moves);
    var p' := Session(sha, p, id, source, moves);
    if Offset(p'.store, id) == |source| {
      FinishOfWhole(sha, p'.store, p'.plain, id, source);
    }
  }

  lemma FinishOfWhole(sha: Bytes -> Hash, s: Store, p: Plain, id: Id, source: Bytes)
    requires Refines(sha, s, p) && id in p.content && id !in p.finished
    requires Read(s, id).Some? && Read(s, id).value <= source && |Read(s, id).value| == |source|
    ensures var (s', status) := FinishUpload(sha, s, id);
      status == Ok && id in s'.rows && s'.rows[id].hash == Some(sha(source)) && Read(s', id) == Some(source)
  {
    assert Read(s, id).value == source;
    FinishExact(sha, s, id);
  }
}
