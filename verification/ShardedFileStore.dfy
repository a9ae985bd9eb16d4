/**
 The store as a class over the uploads table and a directory tree. Each method follows the
 source step by step, and is proved to do to table, files and directories what UploadStore says.
 */
module ShardedFileStore {
  import opened Bytes
  import opened FileTree
  import opened StorePaths
  import opened UploadStore
  import opened Concatenation
  import opened StoreRefinement
  import opened StoreTree
  import opened StoreDirectories
  import opened StoreLocks

  /** GetInfo's result: an id shorter than the shard depth makes it panic. */
  datatype Lookup = Found(info: UploadInfo, offset: nat) | NotFound | IdTooShort

  class ShardedFileStore {
    const config: Config
    const sha: Bytes -> Hash
    var rows: Table
    var tree: Tree<Content>
    ghost var files: map<Loc, Content>  // the store's own files in the tree

    ghost predicate Valid()
      reads this
    {
      && Represents(config, tree, files)
      && forall id :: id in rows ==> IsUid(id)
    }

    ghost function Contents(): Store
      reads this
    {
      Store(rows, files)
    }

    ghost function OnDisk(): Disk
      reads this
    {
      Disk(Contents(), tree)
    }

    /** A store over a table and the files that are there already; an empty table and none for a new one. */
    constructor (config: Config, sha: Bytes -> Hash, rows: Table, tree: Tree<Content>, ghost files: map<Loc, Content>)
      requires Represents(config, tree, files) && forall id :: id in rows ==> IsUid(id)
      ensures Valid() && OnDisk() == Disk(Store(rows, files), tree)
      ensures this.config == config && this.sha == sha
    {
      this.config, this.sha := config, sha;
      this.rows, this.tree := rows, tree;
      this.files := files;
    }

    function BinPath(id: Id): Path
      requires Valid() && IsUid(id)
      reads this
    {
      PathOf(config, BinLoc(rows, id))
    }

    /** MkdirAll of the directory of one of the store's files, which nothing can be in the way of. */
    method MakeDirFor(l: Loc)
      requires Valid() && ValidLoc(l)
      modifies this`tree
      ensures Valid() && tree == old(tree).(dirs := old(tree).dirs + Ancestry(DirOf(config, l)))
      ensures DirOf(config, l) in tree.dirs
    {
      MkdirRepresents(config, tree, files, l, DirOf(config, l));
      tree := MkdirAll(tree, DirOf(config, l)).0;
    }

    /** Creates or replaces one of the store's files. */
    method WriteFile(l: Loc, content: Content)
      requires Valid() && ValidLoc(l) && !l.Lock? && DirOf(config, l) in tree.dirs && (l.Info? <==> content.Meta?)
      modifies this`tree, this`files
      ensures Valid() && tree == Put(old(tree), PathOf(config, l), content)
      ensures files == old(files)[l := content] && Foreign(config, tree) == old(Foreign(config, tree))
    {
      PutRepresents(config, tree, files, l, content);
      tree := Put(tree, PathOf(config, l), content);
      files := files[l := content];
    }

    method NewUpload(id: Id, now: int, info: UploadInfo) returns (status: Status)
      requires Valid() && IsUid(id)
      modifies this
      ensures Valid()
      ensures (Contents(), status) == UploadStore.NewUpload(old(Contents()), id, now, info)
      ensures DiskStep(sha, config, old(OnDisk()), New(id, now, info), OnDisk())
      ensures tree.dirs == old(tree.dirs) + Ancestry(DirOf(config, Info(id))) + Ancestry(DirOf(config, Incomplete(id)))
      ensures old(Tidy(config, tree)) && status == Ok ==> Tidy(config, tree)
    {
      MakeDirFor(Info(id));
      MakeDirFor(Incomplete(id));
      if id in rows {
        return Failed;  // primary key
      }
      rows := rows[id := NewRow(now, info)];
      CreateFiles(id, info);
      if old(Tidy(config, tree)) {
        NewTidy(sha, config, old(OnDisk()), New(id, now, info), OnDisk(), {});
      }
      return Ok;
    }

    /** Opens the .bin for creation without truncating it, and writes the record. */
    method CreateFiles(id: Id, info: UploadInfo)
      requires Valid() && IsUid(id) && HashOf(rows, id).None?
      requires DirOf(config, Info(id)) in tree.dirs && DirOf(config, Incomplete(id)) in tree.dirs
      modifies this`tree, this`files
      ensures Valid() && tree.dirs == old(tree.dirs) && Foreign(config, tree) == old(Foreign(config, tree))
      ensures files == old(files)
        [Incomplete(id) := if Incomplete(id) in old(files) then old(files)[Incomplete(id)] else Bin([])]
        [Info(id) := Meta(info.(id := id))]
    {
      CreateBin(id);
      WriteFile(Info(id), Meta(info.(id := id)));
    }

    method CreateBin(id: Id)
      requires Valid() && IsUid(id) && HashOf(rows, id).None? && DirOf(config, Incomplete(id)) in tree.dirs
      modifies this`tree, this`files
      ensures Valid() && tree.dirs == old(tree.dirs) && Foreign(config, tree) == old(Foreign(config, tree))
      ensures files == old(files)
        [Incomplete(id) := if Incomplete(id) in old(files) then old(files)[Incomplete(id)] else Bin([])]
    {
      assert AtPath(config, tree, Incomplete(id)) == AtLoc(files, Incomplete(id));
      if BinPath(id) !in tree.files {
        WriteFile(Incomplete(id), Bin([]));
      } else {
        assert files == files[Incomplete(id) := files[Incomplete(id)]];
      }
    }

    /**
     Opens the file the id resolves to for appending; a missing file is an error. `src` is what
     the reader delivers before it ends or fails.
     */
    method WriteChunk(id: Id, src: Bytes) returns (n: nat, status: Status)
      requires Valid() && IsUid(id)
      modifies this`tree, this`files
      ensures Valid() && tree.dirs == old(tree.dirs) && Foreign(config, tree) == old(Foreign(config, tree))
      ensures Contents() == Append(old(Contents()), id, src)
      ensures DiskStep(sha, config, old(OnDisk()), Write(id, src), OnDisk())
      ensures old(Tidy(config, tree)) ==> Tidy(config, tree)
      ensures match Read(old(Contents()), id)
        case None => n == 0 && status == Failed && Contents() == old(Contents())
        case Some(bytes) => n == |src| && status == Ok && Read(Contents(), id) == Some(bytes + src)
    {
      var l := BinLoc(rows, id);
      assert AtPath(config, tree, l) == AtLoc(files, l);
      if BinPath(id) !in tree.files {
        return 0, Failed;
      }
      WriteFile(l, Bin(BytesOf(tree.files[BinPath(id)]) + src));
      if old(Tidy(config, tree)) {
        AppendTidy(sha, config, old(OnDisk()), Write(id, src), OnDisk(), {});
      }
      return |src|, Ok;
    }

    method GetReader(id: Id) returns (r: Option<Bytes>)
      requires Valid() && IsUid(id)
      ensures r == Read(Contents(), id)
    {
      var l := BinLoc(rows, id);
      assert AtPath(config, tree, l) == AtLoc(files, l);
      var bin := BinPath(id);
      r := if bin in tree.files then Some(BytesOf(tree.files[bin])) else None;
    }

    /**
     The record and the length of the bytes, for whatever stands for the id in the URL. What no
     generator made is found only if others put files where it leads, which is never to the store's own.
     */
    method GetInfo(id: Bytes) returns (r: Lookup)
      requires Valid() && '/' !in id
      ensures r == IdTooShort <==> |id| < config.layers
      ensures IsUid(id) ==> r == match UploadStore.GetInfo(Contents(), id)
        case None => NotFound
        case Some((info, offset)) => Found(info, offset)
      ensures !IsUid(id) && r.Found? ==>
        && !IsStorePath(config, InfoPath(config, id)) && InfoPath(config, id) in tree.files
        && tree.files[InfoPath(config, id)] == Meta(r.info)
        && !IsStorePath(config, IncompletePath(config, id)) && IncompletePath(config, id) in tree.files
        && r.offset == |BytesOf(tree.files[IncompletePath(config, id)])|
    {
      if |id| < config.layers {
        return IdTooShort;
      }
      if IsUid(id) {
        UidPaths(config, id);
        assert AtPath(config, tree, Info(id)) == AtLoc(files, Info(id));
        assert AtPath(config, tree, BinLoc(rows, id)) == AtLoc(files, BinLoc(rows, id));
      } else {
        OtherIdsMissTheStore(config, id);
      }
      var path := InfoPath(config, id);
      if path !in tree.files || !tree.files[path].Meta? {
        return NotFound;
      }
      var bin := if HashOf(rows, id) == None then IncompletePath(config, id) else BinPath(id);
      if bin !in tree.files {
        return NotFound;
      }
      return Found(tree.files[path].info, |BytesOf(tree.files[bin])|);
    }

    /** Opens the destination and copies the sources; a copy that has no end is the result NeverEnds. */
    method ConcatUploads(dest: Id, uploads: seq<Id>) returns (r: Copying)
      requires Valid() && IsUid(dest) && forall i :: i in uploads ==> IsUid(i)
      modifies this`tree, this`files
      ensures Valid()
      ensures (Contents(), r) == Concatenate(old(Contents()), dest, uploads)
      ensures tree.dirs == old(tree.dirs) && Foreign(config, tree) == old(Foreign(config, tree))
      ensures r.Copied? ==> (Contents(), r.status) == UploadStore.ConcatUploads(old(Contents()), dest, uploads)
      ensures r.Copied? ==> DiskStep(sha, config, old(OnDisk()), Concat(dest, uploads), OnDisk())
      ensures old(Tidy(config, tree)) ==> Tidy(config, tree)
    {
      var l := BinLoc(rows, dest);
      assert AtPath(config, tree, l) == AtLoc(files, l);
      if BinPath(dest) !in tree.files {
        return Copied(Failed);
      }
      CopyEndsIff(Contents(), dest, uploads);
      r := CopySources(dest, uploads);
    }

    /** The copy loop, with the destination open. */
    method CopySources(dest: Id, uploads: seq<Id>) returns (r: Copying)
      requires Valid() && IsUid(dest) && Read(Contents(), dest).Some? && forall i :: i in uploads ==> IsUid(i)
      modifies this`tree, this`files
      ensures Valid() && tree.dirs == old(tree.dirs) && Foreign(config, tree) == old(Foreign(config, tree))
      ensures (Contents(), r) == CopyInto(old(Contents()), dest, uploads)
      ensures old(Tidy(config, tree)) ==> Tidy(config, tree)
    {
      ghost var before := Contents();
      assert uploads[0..] == uploads;
      for i := 0 to |uploads|
        invariant Valid() && tree.dirs == old(tree.dirs) && Foreign(config, tree) == old(Foreign(config, tree))
        invariant old(Tidy(config, tree)) ==> Tidy(config, tree)
        invariant Read(Contents(), dest).Some?
        invariant CopyInto(before, dest, uploads) == CopyInto(Contents(), dest, uploads[i..])
      {
        assert uploads[i] in uploads && uploads[i..][1..] == uploads[i + 1..];
        var src := GetReader(uploads[i]);
        if src == None {
          return Copied(Failed);
        }
        CopyIntoNext(Contents(), dest, uploads[i..]);
        if BinLoc(rows, uploads[i]) == BinLoc(rows, dest) && src.value != [] {
          return NeverEnds;
        }
        var _, _ := WriteChunk(dest, src.value);
      }
      return Copied(Ok);
    }

    /** TryLock makes the lock file beside the record, unless there is one; without that directory it fails. */
    method LockUpload(id: Id, owner: Bytes) returns (r: Locking)
      requires Valid() && IsUid(id)
      modifies this`tree
      ensures Valid() && tree.dirs == old(tree.dirs)
      ensures r == NoDirectory <==> DirOf(config, Info(id)) !in old(tree.dirs)
      ensures r == Busy <==> DirOf(config, Info(id)) in old(tree.dirs) && LockPath(config, id) in old(tree.files)
      ensures tree.files == if r == Locked then old(tree.files)[LockPath(config, id) := Bin(owner)] else old(tree.files)
      ensures DiskEvent(sha, config, old(OnDisk()), TakeLock(id, owner, r), OnDisk())
      ensures old(Tidy(config, tree)) ==> Tidy(config, tree)
    {
      LockRepresents(config, tree, files, id, owner);
      LockAnswers(config, tree, id, owner);
      LockTidy(config, tree, id, owner, {});
      var path := LockPath(config, id);
      if Parent(path) !in tree.dirs {
        return NoDirectory;
      }
      if path in tree.files {
        return Busy;
      }
      tree := Put(tree, path, Bin(owner));
      return Locked;
    }

    /** Removes the lock file; that there is none is no error. No directory is looked at. */
    method UnlockUpload(id: Id)
      requires Valid() && IsUid(id)
      modifies this`tree
      ensures Valid() && tree.dirs == old(tree.dirs) && tree.files == old(tree.files) - {LockPath(config, id)}
      ensures DiskEvent(sha, config, old(OnDisk()), DropLock(id), OnDisk())
      ensures old(Tidy(config, tree)) ==> (Tidy(config, tree) <==> !Bare(config, old(tree), id))
    {
      UnlockRepresents(config, tree, files, id);
      if Tidy(config, tree) {
        UnlockTidyIff(config, tree, id);
      }
      var path := LockPath(config, id);
      if path in tree.files {
        tree := tree.(files := tree.files - {path});
      } else {
        assert tree.files - {path} == tree.files;
      }
    }

    method HashFile(id: Id) returns (r: Option<Hash>)
      requires Valid() && IsUid(id)
      ensures r == match Read(Contents(), id) case None => None case Some(bytes) => Some(sha(bytes))
    {
      var bytes := GetReader(id);
      r := if bytes == None then None else Some(sha(bytes.value));
    }

    /** Hashes the bytes, records the hash, and moves the file to its place among the complete ones. */
    method FinishUpload(id: Id) returns (status: Status)
      requires Valid() && IsUid(id)
      modifies this
      ensures Valid()
      ensures (Contents(), status) == UploadStore.FinishUpload(sha, old(Contents()), id)
      ensures DiskStep(sha, config, old(OnDisk()), Finish(id), OnDisk())
      ensures match Read(old(Contents()), id)
        case Some(bytes) =>
          tree.dirs == if id in old(rows) then old(tree.dirs) + Ancestry(DirOf(config, Complete(sha(bytes)))) else old(tree.dirs)
        case None => tree == old(tree)
      ensures old(Tidy(config, tree)) && Exact(sha, old(Contents())) ==> Tidy(config, tree)
    {
      ghost var before := OnDisk();
      var hash := HashFile(id);
      if hash == None {
        return Failed;
      }
      if id !in rows {
        return Failed;  // no row affected
      }
      rows := rows[id := rows[id].(hash := hash)];
      MakeDirFor(Complete(hash.value));
      status := Relocate(id, hash.value);
      FinishStep(sha, config, before, id, OnDisk());
    }

    /** The rename from the incomplete to the complete place, replacing a blob of the same hash. */
    method Relocate(id: Id, hash: Hash) returns (status: Status)
      requires Valid() && IsUid(id) && DirOf(config, Complete(hash)) in tree.dirs
      modifies this`tree, this`files
      ensures Valid() && tree.dirs == old(tree.dirs) && Foreign(config, tree) == old(Foreign(config, tree))
      ensures files == if Incomplete(id) in old(files)
        then (old(files) - {Incomplete(id)})[Complete(hash) := old(files)[Incomplete(id)]] else old(files)
      ensures status == if Incomplete(id) in old(files) then Ok else Failed
    {
      var oldPath, newPath := PathOf(config, Incomplete(id)), PathOf(config, Complete(hash));
      assert AtPath(config, tree, Incomplete(id)) == AtLoc(files, Incomplete(id));
      if oldPath !in tree.files {
        return Failed;
      }
      MoveRepresents(config, tree, files, Incomplete(id), Complete(hash));
      tree := Rename(tree, oldPath, newPath);
      files := (files - {Incomplete(id)})[Complete(hash) := files[Incomplete(id)]];
      return Ok;
    }

    /**
     The query goes over the rows. Its count is zero exactly if the upload's bytes, and not only its
     record, are what terminating it is to remove.
     */
    method GetDuplicateCount(id: Id) returns (duplicates: nat)
      ensures duplicates == |Duplicates(rows, HashOf(rows, id), id)|
      ensures forall l :: Condemned(rows, {id}, l) <==> l == Info(id) || (l == BinLoc(rows, id) && duplicates == 0)
    {
      var hash := HashOf(rows, id);
      var unseen := rows.Keys;
      duplicates := 0;
      while unseen != {}
        invariant unseen <= rows.Keys
        invariant duplicates == |Duplicates(rows, hash, id) - unseen|
        decreases unseen
      {
        var j :| j in unseen;
        OneMoreRow(Duplicates(rows, hash, id), unseen, j);
        unseen := unseen - {j};
        if hash.Some? && rows[j].hash == hash && j != id && !rows[j].deleted {
          duplicates := duplicates + 1;
        }
      }
      assert Duplicates(rows, hash, id) - {} == Duplicates(rows, hash, id);
      CondemnedOne(rows, id);
    }

    /** RemoveWithDirs on one of the store's files. */
    method Remove(l: Loc) returns (status: Status)
      requires Valid() && ValidLoc(l)
      modifies this`tree, this`files
      ensures Valid()
      ensures tree == Sweep(old(tree), config.base, {PathOf(config, l)}) && files == old(files) - {l}
      ensures status == Ok
    {
      SweepOne(config, tree, files, l);
      var removed, ok := RemoveWithDirs(tree, PathOf(config, l), config.base);
      tree := removed;
      files := files - {l};
      return if ok then Ok else Failed;
    }

    /**
     Counts the other rows that carry the hash, removes the record, then the bytes if the count
     was zero, and marks the row last.
     */
    method Terminate(id: Id) returns (status: Status)
      requires Valid() && IsUid(id)
      modifies this
      ensures Valid()
      ensures (Contents(), status) == UploadStore.Terminate(old(Contents()), id)
      ensures tree == Sweep(old(tree), config.base, Paths(config, CondemnedFiles(old(Contents()), {id})))
      ensures DiskStep(sha, config, old(OnDisk()), StoreRefinement.Remove(id), OnDisk())
      ensures old(Tidy(config, tree)) ==> Tidy(config, tree)
    {
      ghost var before := Contents();
      RemoveStep(sha, config, OnDisk(), id);
      var duplicates := GetDuplicateCount(id);
      status := RemoveFiles(id, duplicates);
      if status == Failed {
        return Failed;
      }
      if id !in rows {
        assert MarkDeleted(before.rows, {id}) == before.rows;
        return Failed;  // no row affected
      }
      rows := rows[id := rows[id].(deleted := true)];
      assert MarkDeleted(before.rows, {id}) == rows;
      return Ok;
    }

    /** The file steps of Terminate: the record always, the bytes if no other row needs them. */
    method RemoveFiles(id: Id, duplicates: nat) returns (status: Status)
      requires Valid() && IsUid(id) && duplicates == |Duplicates(rows, HashOf(rows, id), id)|
      modifies this`tree, this`files
      ensures Valid()
      ensures files == old(files) - CondemnedFiles(old(Contents()), {id})
      ensures tree == Sweep(old(tree), config.base, Paths(config, CondemnedFiles(old(Contents()), {id})))
      ensures status == Ok
    {
      ghost var before, t := files, tree;
      var bin := BinLoc(rows, id);
      CondemnedOne(rows, id);
      ghost var locs := if duplicates == 0 then {Info(id), bin} else {Info(id)};
      SweepCondemned(config, t, before, {id}, rows, locs);
      status := Remove(Info(id));
      if status == Failed {
        return Failed;
      }
      if duplicates == 0 {
        status := Remove(bin);
        SweepPair(config, t, before, Info(id), bin);
      } else {
        assert {PathOf(config, Info(id))} == Paths(config, locs);
      }
    }
  }

  lemma OneMoreRow(selected: set<Id>, unseen: set<Id>, j: Id)
    requires j in unseen
    ensures |selected - (unseen - {j})| == |selected - unseen| + if j in selected then 1 else 0
  {
    assert selected - (unseen - {j}) == selected - unseen + if j in selected then {j} else {};
  }
}
