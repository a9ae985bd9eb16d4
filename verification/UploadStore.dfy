/**
 The uploads table and the stored files, and what each operation of the store does to them.
 Files are named by what they hold; ShardedFileStore places them in a directory tree.
 */
module UploadStore {
  import opened Bytes
  import opened StorePaths

  /** The info record tusd keeps for an upload. */
  datatype UploadInfo = UploadInfo(id: Id, size: nat, metadata: map<Bytes, Bytes>)

  datatype Content = Bin(bytes: Bytes) | Meta(info: UploadInfo)

  function BytesOf(c: Content): Bytes {
    match c
    case Bin(bytes) => bytes
    case Meta(_) => []
  }

  /** A row of the uploads table; None is NULL. */
  datatype Row = Row(hash: Option<Hash>, createdAt: int, deleted: bool, account: Option<Bytes>, issuer: Option<Bytes>)

  type Table = map<Id, Row>

  datatype Store = Store(rows: Table, files: map<Loc, Content>)

  const EMPTY := Store(map[], map[])

  // ------------------------------------------------------------------ queries

  /** lookupHash: None for a NULL hash and for a missing row alike. */
  function HashOf(rows: Table, id: Id): Option<Hash> {
    if id in rows then rows[id].hash else None
  }

  predicate Live(rows: Table, id: Id) {
    id in rows && !rows[id].deleted
  }

  /** The file that holds the bytes of an upload. */
  function BinLoc(rows: Table, id: Id): Loc {
    match HashOf(rows, id)
    case None => Incomplete(id)
    case Some(h) => Complete(h)
  }

  /** A row that is not deleted and carries the hash. */
  predicate Carries(rows: Table, id: Id, h: Hash) {
    Live(rows, id) && rows[id].hash == Some(h)
  }

  /** The ids the duplicate query selects; comparing with a NULL hash selects none. */
  function Duplicates(rows: Table, hash: Option<Hash>, id: Id): set<Id> {
    match hash
    case None => {}
    case Some(h) => set j | j in rows && j != id && Carries(rows, j, h)
  }

  /** What NewUpload inserts: the account of the metadata unless missing or empty, and the issuer only with it. */
  lemma RowRecords(now: int, info: UploadInfo)
    ensures var row, m := NewRow(now, info), info.metadata;
      && row.hash == None && row.createdAt == now && !row.deleted
      && (row.account.Some? <==> "account" in m && m["account"] != "")
      && (row.account.Some? ==>
            row.account.value == m["account"] && row.issuer == Some(if "issuer" in m then m["issuer"] else ""))
      && (row.account.None? ==> row.issuer == None)
  {
  }

  // ------------------------------------------------------------------ operations

  function AccountOf(info: UploadInfo): Bytes {
    if "account" in info.metadata then info.metadata["account"] else ""
  }

  function IssuerOf(info: UploadInfo): Bytes {
    if "issuer" in info.metadata then info.metadata["issuer"] else ""
  }

  function NewRow(now: int, info: UploadInfo): Row {
    if AccountOf(info) == "" then Row(None, now, false, None, None)
    else Row(None, now, false, Some(AccountOf(info)), Some(IssuerOf(info)))
  }

  /** NewUpload: an id that is already a primary key is refused; an existing .bin is opened, not truncated. */
  function NewUpload(s: Store, id: Id, now: int, info: UploadInfo): (Store, Status) {
    if id in s.rows then (s, Failed)
    else
      var bin := if Incomplete(id) in s.files then s.files[Incomplete(id)] else Bin([]);
      (Store(s.rows[id := NewRow(now, info)],
             s.files[Incomplete(id) := bin][Info(id) := Meta(info.(id := id))]), Ok)
  }

  /** Appends to whatever file the id resolves to. */
  function Append(s: Store, id: Id, more: Bytes): Store {
    var l := BinLoc(s.rows, id);
    if l in s.files then s.(files := s.files[l := Bin(BytesOf(s.files[l]) + more)]) else s
  }

  /** GetReader. */
  function Read(s: Store, id: Id): Option<Bytes> {
    var l := BinLoc(s.rows, id);
    if l in s.files then Some(BytesOf(s.files[l])) else None
  }

  /** GetInfo: the stored record together with the current length. */
  function GetInfo(s: Store, id: Id): Option<(UploadInfo, nat)> {
    if Info(id) in s.files && s.files[Info(id)].Meta? && Read(s, id).Some?
    then Some((s.files[Info(id)].info, |Read(s, id).value|))
    else None
  }

  /** The bytes of the sources in order, up to the first one that cannot be read. */
  function Gather(s: Store, sources: seq<Id>): (Bytes, Status) {
    if sources == [] then ([], Ok)
    else
      match Read(s, sources[0])
      case None => ([], Failed)
      case Some(bytes) =>
        var (rest, status) := Gather(s, sources[1..]);
        (bytes + rest, status)
  }

  function ConcatUploads(s: Store, dest: Id, sources: seq<Id>): (Store, Status) {
    if Read(s, dest).None? then (s, Failed)
    else
      var (bytes, status) := Gather(s, sources);
      (Append(s, dest, bytes), status)
  }

  /** FinishUpload: the row gets the hash first, the file is moved second. */
  function FinishUpload(sha: Bytes -> Hash, s: Store, id: Id): (Store, Status) {
    if Read(s, id).None? || id !in s.rows then (s, Failed)
    else
      var h := sha(Read(s, id).value);
      var rows := s.rows[id := s.rows[id].(hash := Some(h))];
      if Incomplete(id) in s.files
      then (Store(rows, (s.files - {Incomplete(id)})[Complete(h) := s.files[Incomplete(id)]]), Ok)
      else (s.(rows := rows), Failed)
  }

  // ------------------------------------------------------------------ termination

  /**
   The files that terminating the uploads `ids` removes: their info records, their unfinished
   bytes, and every blob of theirs that no live upload outside `ids` carries.
   */
  ghost predicate Condemned(rows: Table, ids: set<Id>, l: Loc) {
    match l
    case Info(id) => id in ids
    case Lock(_) => false
    case Incomplete(id) => id in ids && HashOf(rows, id).None?
    case Complete(h) =>
      && (exists id :: id in ids && HashOf(rows, id) == Some(h))
      && forall j :: Carries(rows, j, h) ==> j in ids
  }

  ghost function CondemnedFiles(s: Store, ids: set<Id>): set<Loc> {
    set l | l in s.files && Condemned(s.rows, ids, l)
  }

  function MarkDeleted(rows: Table, ids: set<Id>): Table {
    map id | id in rows :: if id in ids then rows[id].(deleted := true) else rows[id]
  }

  ghost function TerminateAll(s: Store, ids: set<Id>): Store {
    Store(MarkDeleted(s.rows, ids), s.files - CondemnedFiles(s, ids))
  }

  /** An unknown id has no row to mark, which is an error. */
  ghost function Terminate(s: Store, id: Id): (Store, Status) {
    (TerminateAll(s, {id}), if id in s.rows then Ok else Failed)
  }

  /** Terminating one by one. */
  ghost function TerminateEach(s: Store, ids: seq<Id>): Store
    decreases |ids|
  {
    if ids == [] then s else TerminateEach(TerminateAll(s, {ids[0]}), ids[1..])
  }

  function Ids(ids: seq<Id>): set<Id> {
    set i | 0 <= i < |ids| :: ids[i]
  }

  lemma IdsSnoc(ids: seq<Id>, id: Id)
    ensures Ids(ids + [id]) == Ids(ids) + {id}
  {
    forall j | j in Ids(ids) + {id} ensures j in Ids(ids + [id]) {
      if j == id {
        assert (ids + [id])[|ids|] == id;
      } else {
        var i :| 0 <= i < |ids| && ids[i] == j;
        assert (ids + [id])[i] == j;
      }
    }
  }

  lemma CondemnedTwice(rows: Table, first: set<Id>, second: set<Id>, l: Loc)
    ensures Condemned(rows, first + second, l)
       <==> Condemned(rows, first, l) || Condemned(MarkDeleted(rows, first), second, l)
  {
    var rows' := MarkDeleted(rows, first);
    assert forall id :: HashOf(rows', id) == HashOf(rows, id);
    assert l.Complete? ==> forall j :: Carries(rows', j, l.hash) <==> Carries(rows, j, l.hash) && j !in first;
  }

  /** The duplicate count decides what one upload's termination removes. */
  lemma CondemnedOne(rows: Table, id: Id)
    ensures forall l :: Condemned(rows, {id}, l) <==>
      l == Info(id) || (l == BinLoc(rows, id) && |Duplicates(rows, HashOf(rows, id), id)| == 0)
  {
    var d := Duplicates(rows, HashOf(rows, id), id);
    assert |d| == 0 <==> d == {};
    forall l ensures Condemned(rows, {id}, l) <==> l == Info(id) || (l == BinLoc(rows, id) && d == {}) {
      if l == BinLoc(rows, id) && l.Complete? {
        assert d == {} <==> forall j :: Carries(rows, j, l.hash) ==> j in {id} by {
          forall j ensures j in d <==> Carries(rows, j, l.hash) && j != id {}
        }
      }
    }
  }

  /** Terminating in two batches is terminating the union at once. */
  lemma TerminateTwice(s: Store, first: set<Id>, second: set<Id>)
    ensures TerminateAll(TerminateAll(s, first), second) == TerminateAll(s, first + second)
    ensures CondemnedFiles(s, first + second) == CondemnedFiles(s, first) + CondemnedFiles(TerminateAll(s, first), second)
  {
    forall l ensures Condemned(s.rows, first + second, l)
                <==> Condemned(s.rows, first, l) || Condemned(MarkDeleted(s.rows, first), second, l) {
      CondemnedTwice(s.rows, first, second, l);
    }
  }

  /** The rows and files after terminating a list of uploads depend only on which uploads are in it. */
  lemma {:induction false} TerminateEachIsAll(s: Store, ids: seq<Id>)
    ensures TerminateEach(s, ids) == TerminateAll(s, Ids(ids))
    decreases |ids|
  {
    if ids == [] {
      assert forall l :: !Condemned(s.rows, {}, l);
      assert CondemnedFiles(s, {}) == {};
      assert s.files - {} == s.files;
    } else {
      var s1 := TerminateAll(s, {ids[0]});
      TerminateEachIsAll(s1, ids[1..]);
      TerminateTwice(s, {ids[0]}, Ids(ids[1..]));
      assert Ids(ids) == {ids[0]} + Ids(ids[1..]);
    }
  }
}
