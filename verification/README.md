# Verified model of the Kiwi IRC file uploader

A Dafny 4.11 model of the parts of the file uploader that keep state: the deduplicating upload
store, its garbage collector, the rewriting of the Upload-Metadata header, the event broadcaster,
and the browser plugin's token cache. `dafny verify dfyconfig.toml` checks everything.

## How the model is layered

The store is modelled at three levels, each proved to refine the one above.

1. **Plain map** (`StoreRefinement.Plain`): upload ids to bytes and records. This is what clients see.
2. **Table and named files** (`UploadStore`): the `uploads` table as a map from id to row, and the
   stored files named by what they hold (`Info id`, `Incomplete id`, `Complete hash`). Recovery,
   expiry, resumption and the interleaving of concurrent calls are all stated here; the latter
   follows the directories of blobs as well, for any layout (`Interleaving.LayoutIsDirOf`: the store's is one).
3. **Directory tree** (`FileTree`, `StoreTree`, `StoreDirectories`, `StoreLocks`, `ShardedFileStore`):
   paths, files and directories, and a class whose methods follow the source step by step. Each
   method's contract says that it is one `DiskEvent`, and `StoreLocks` speaks of every run of those.

The removal of a file with the directories it empties is specified declaratively (`FileTree.Sweep`:
a directory goes if everything at or below it is on the way to a removed file), and the upward walk
of `RemoveWithDirs` is proved to compute it.

The metadata codec works on Go strings as bytes (`Bytes.Byte` is a character below 256), with Go's
notions of white space, splitting and base64 (section 4 of RFC 4648, line breaks skipped when
decoding, unused low bits not checked). The order in which `serializeMeta` ranges over its map is
arbitrary, and theorems about it hold for every order.

The token cache is a state machine whose steps are the synchronous stretches of the JavaScript
(`TokenSteps`), and two classes whose methods are proved to be those steps (`TokenManager`);
`TokenHistory` says which answers a history of requests leads to. The broadcaster is a state machine
over sends and receives (`EventSteps`), and a class with the sending loop (`EventBroadcaster`).

## Assumptions

- SHA-256 is a function parameter `sha`. Theorems over runs assume that no two contents *hashed in
  that run* collide (`InjectiveOn`), never injectivity everywhere.
- Ids come from tusd's generator: 32 lower-case hex digits, never handed out twice. The shard depth
  is at most 32, since a deeper one makes the source panic.
- An id that comes with a request, not from the generator, may be any string without a slash
  (`GetInfo`); the other operations are for ids as the generator makes them.
- tusd's own guards are the `Allowed` predicate of `StoreRefinement`: writes and concatenation
  targets are live and unfinished, concatenation sources are live and differ from the target.
  `StoreRefinement.AppendReachesSharers` says exactly what goes wrong without the first of these,
  and `Concatenation.CopyEndsIff` what goes wrong without the last.
- Removing an existing file succeeds, and no other program interferes with the store's paths.
  Lock files and foreign files may lie anywhere else. A rename fails only if its file or the
  directory to move it to is missing. Lock files are those of the one server process.
- `UPDATE` counts matched rows, as in SQLite; comparing with a NULL hash selects no row.
- JWT decoding, time claims and signatures are function parameters (`JwtLibrary`). The remote
  address, or the reason why there is none, is an input.

## Where the code departs from what its comments suggest

- `RemoveWithDirs` documents removal "up to the given basePath", but it compares strings. It removes
  nothing but entries strictly below the base exactly if the path lies below the base, component by
  component, or fails the test (`FileTree.StaysBelowIff`); a sibling directory whose name begins like
  the base is pruned (`FileTree.SiblingOfBaseIsPruned`).
- The upward walk of `RemoveWithDirs` is not repeated for a path that is gone. A Terminate cut between
  the removal of a file and the walk leaves directories that no rerun removes, unless none was
  emptied (`FileTree.CutWalkIsNotResumed`).
- `Terminate` removes the "empty parent directories", but a client's DELETE does so under the lock,
  whose file lies in the record's directory, and `UnlockUpload` removes it without a walk. If nothing
  but record and lock is in that directory or below, it is left empty (`StoreLocks.LockedDeleteIsBareIff`,
  `StoreLocks.LockedDeleteLeavesDirectory`). Serial uncut runs leave no empty directory below `meta` and
  `complete` exactly if no unlock finds its lock file alone (`StoreLocks.AlwaysTidyIff`); besides,
  only `incomplete` may stand empty (`StoreLocks.DirectoriesExact`).
- `processJwt` means to refuse client-set account and issuer fields, but the branch for `account` is
  empty, so only `issuer` is refused (`HeaderPipeline.GetsThroughIff`). Without a token that names an
  account, an upload is recorded under whatever `account` the client wrote
  (`HeaderPipeline.RecordedAccount`, `HeaderPipeline.IdentifiedWithoutToken`); a header with nothing
  else is passed on (`HeaderPipeline.ClientAccountPasses`).
- `FinishUpload` writes the row before it renames. Cut in between, the upload can be read, and
  finished by a rerun, exactly if another live upload has the same hash
  (`Recovery.CutFinishNeedsASharer`); the only upload of a store is lost (`Recovery.OnlyUploadIsLost`).
- `Terminate` takes two looks at the hash and counts before it removes. A finished live upload whose
  record no Terminate has removed can lose its bytes in exactly two windows: a rename onto a blob
  whose removal is pending, and a row update of an upload that a Terminate has looked up but not yet
  resolved while another upload has that hash (`Interleaving.InterleavedSafety`,
  `InterleavingWindows.WindowLoses`). Runs from the empty store lead into both and on to a lost upload
  (`InterleavingWindows.LossesAttainable`). A run whose row updates all come before the counts that
  matter never enters one (`InterleavingWindows.InTimeRunsAreSafe`).
- `FinishUpload` makes the blob's directory and renames into it. A Terminate's walk can prune that
  directory in between; then the rename fails after the row has its hash, and a fully uploaded live
  upload can be neither read, written nor finished. In every interleaving without such a prune no
  rename of a live upload that keeps its record fails (`InterleavingDirs.NoneEverStranded`), each such
  prune can be followed by the loss
  (`InterleavingStranded.PruneLoses`), and runs from the empty store come to it, outside the two
  windows above (`InterleavingStranded.LostAttainable`).
- A concatenation that gets to a source sharing the destination's non-empty file appends to what it
  reads: as much is left to read after every round as before, and it does not end
  (`Concatenation.SelfCopyKeepsUnread`, `Concatenation.CopyEndsIff`, `Concatenation.ConcatenationOntoItself`).

## Model

| member | source | states |
|---|---|---|
| `StorePaths.Shards` | shardedfilestore/shardedfilestore.go:339-348 | The shard loop yields one directory per leading character, and panics (None) iff the name is shorter than the depth. |
| `StorePaths.PathFrame` | shardedfilestore/shardedfilestore.go:339-397 | For every id, hash and admissible depth, record, lock, unfinished and blob paths are injective and disjoint, and none is an ancestor of another. |
| `StorePaths.DirFrame` | shardedfilestore/shardedfilestore.go:350-397 | No directory the store creates is at or below one of its file paths. |
| `FileTree.RemoveWithDirs` | shardedfilestore/shardedfilestore.go:166-211 | The upward walk removes the file and exactly the directories that this leaves without entries; a path that fails the base test is an error and one that does not exist is not; the tree stays well formed and the walk ends. |
| `FileTree.EmptyIffEmptied` | shardedfilestore/shardedfilestore.go:203-206 | When the walk arrives at a directory, that directory is found empty iff everything at or below it was on the way to the removed file. |
| `FileTree.VisitedIsKeptIffInhabited` | shardedfilestore/shardedfilestore.go:192-211 | Afterwards a visited ancestor exists iff it still has an entry, and whatever is kept is kept with all its ancestors: walking on past a non-empty one removes nothing more. |
| `FileTree.SweepStaysBelow` | shardedfilestore/shardedfilestore.go:179-201 | For a path below the base nothing but the path and ancestors strictly below the base is removed. |
| `FileTree.StaysBelowIff` | shardedfilestore/shardedfilestore.go:179-201 | For every tree with the base and an existing path: nothing but entries strictly below the base is removed iff the path lies below the base, component by component, or fails the string test. |
| `FileTree.SiblingOfBaseIsPruned` | shardedfilestore/shardedfilestore.go:179-201 | A tree where the string comparison lets a sibling of the base and its file go, and what is left of it. |
| `FileTree.SweepTwice` | shardedfilestore/shardedfilestore.go:166-211 | Removing some files and then others leaves the files and directories of removing all at once. |
| `FileTree.CutWalkIsNotResumed` | shardedfilestore/shardedfilestore.go:183-211 | Cut before its walk or after any number of levels, a removal leaves the directories not yet pruned, and running it again changes nothing: it comes to the uncut result iff no emptied directory was left. |
| `UploadStore.TerminateTwice` | shardedfilestore/shardedfilestore.go:213-247 | Terminating two sets of uploads in turn gives the rows and files, and removes the files, of terminating their union. |
| `UploadStore.TerminateEachIsAll` | expirer/expirer.go:71-83 | The rows and files after terminating a list of ids depend only on the set of ids. |
| `UploadStore.RowRecords` | shardedfilestore/shardedfilestore.go:86-94 | A new row has the time, is not deleted and has no hash; account and issuer are those of the metadata if the account is not empty, else both are NULL. |
| `StoreRefinement.NewHolds` | shardedfilestore/shardedfilestore.go:72-109 | A new upload is live, unfinished and empty, and all others are as before. |
| `StoreRefinement.AppendHolds` | shardedfilestore/shardedfilestore.go:111-120 | A write to a live unfinished upload appends to that upload and changes no other, shared blobs included. |
| `StoreRefinement.AppendReachesSharers` | shardedfilestore/shardedfilestore.go:111-120 | Bytes appended to an upload appear in another live one iff the two share a blob, which is why writes need an unfinished upload. |
| `StoreRefinement.GatherHolds` | shardedfilestore/shardedfilestore.go:250-269 | The copy loop of a concatenation yields the sources' plain contents in order and no error. |
| `StoreRefinement.FinishHolds` | shardedfilestore/shardedfilestore.go:409-443 | Finishing succeeds iff the upload is live and unfinished; no upload's bytes change, whether or not a blob of that hash exists already. |
| `StoreRefinement.FinishAgain` | shardedfilestore/shardedfilestore.go:409-443 | Finishing an upload that is finished, deleted or unknown is an error and changes nothing. |
| `StoreRefinement.RemoveKeepsOthers` | shardedfilestore/shardedfilestore.go:213-247 | Terminating any set of uploads leaves every other live upload live, with the same bytes, though they share blobs. |
| `StoreRefinement.StepRefines` | shardedfilestore/shardedfilestore.go:72-269 | Each operation keeps the store a representation of the plain map, and succeeds exactly when the plain operation makes sense. |
| `StoreRefinement.RunRefines` | shardedfilestore/shardedfilestore.go:72-269 | The same over every run of allowed operations from the empty store. |
| `StoreRefinement.StatusIsExact` | shardedfilestore/shardedfilestore.go:72-269 | For every store and operation, allowed or not: the operation reports success iff the files and rows it needs are there. |
| `StoreRefinement.RowsAfterStep` | shardedfilestore/shardedfilestore.go:72-269 | For every store and operation: which rows there are afterwards, and what each of them says. |
| `StoreRefinement.FilesAfterStep` | shardedfilestore/shardedfilestore.go:72-269 | For every store and operation: no file outside the few the operation is about changes. |
| `StoreRefinement.ReadAfterRun` | shardedfilestore/shardedfilestore.go:122-144 | After every run GetReader and GetInfo give a live upload's plain bytes, its record and its length, and GetInfo fails for every other id. |
| `StoreRefinement.BlobsAreContents` | shardedfilestore/shardedfilestore.go:146-164 | There are as many blobs as distinct contents of live finished uploads. |
| `StoreRefinement.ExactStorage` | shardedfilestore/shardedfilestore.go:86-107 | After every run a blob of a hash exists iff a row with deleted = 0 carries it, its content has that hash, unfinished bytes exist iff a live row has no hash, a record iff the row is live, and there are as many blobs as distinct contents of live finished uploads. |
| `StoreTree.DiskHoldsExactly` | shardedfilestore/shardedfilestore.go:359-397 | On the tree: a live upload's bytes lie at the path its row resolves to, and exactly the justified record, unfinished and blob paths are there. The next rows say the same of directories. |
| `StoreDirectories.SweepTidy` | shardedfilestore/shardedfilestore.go:192-211 | Removing files with the directories they empty leaves a file at or below every directory of meta and complete, if there was one before. |
| `StoreDirectories.FinishTidy` | shardedfilestore/shardedfilestore.go:430-442 | A finish, whether it succeeds or fails, leaves no empty directory: the one made for the blob has it, and no file leaves meta or complete. |
| `StoreLocks.UnlockTidyIff` | shardedfilestore/shardedfilestore.go:285-301 | Unlocking leaves no directory of meta and complete empty iff there was no lock file, or another file in its directory or below. |
| `StoreLocks.UnlockOfLiveIsNotBare` | shardedfilestore/shardedfilestore.go:285-301 | The lock file of a live upload is never alone in its directory. |
| `StoreLocks.LockedDeleteIsBareIff` | shardedfilestore/shardedfilestore.go:213-301 | After a Terminate, its lock file is alone in its directory and below iff record and lock were the only files there before. |
| `StoreLocks.LockedDeleteLeavesDirectory` | shardedfilestore/shardedfilestore.go:213-301 | NewUpload, lock, Terminate, unlock on a disk without files: the directory of the record stays, with no file in it or below. |
| `StoreLocks.AlwaysTidyIff` | shardedfilestore/shardedfilestore.go:72-301 | In every allowed run of operations, locks and unlocks: no directory of meta and complete stands empty at any time iff none did at first and no unlock finds its lock file alone. |
| `StoreLocks.DirectoriesExact` | shardedfilestore/shardedfilestore.go:72-301 | After every such run each directory above the record or blob of a live upload, or above a file of others, is there; any other of meta and complete lies on the way to one that such an unlock left; besides, only the way to incomplete is ever made; files of others, locks apart, are as they were. |
| `StoreLocks.DirectoriesExactUnlessBare` | shardedfilestore/shardedfilestore.go:72-301 | Without such an unlock a directory of meta and complete is there iff a live upload or a file of others needs it; without locks, all files of others are as they were. |
| `StoreTree.SweepRepresents` | shardedfilestore/shardedfilestore.go:221-230 | Removing some of the store's files with their emptied directories leaves every other file of the store in place. |
| `StoreTree.OrderIrrelevant` | expirer/expirer.go:71-83 | Terminating ids one after another gives the same rows, files and directories in every order. |
| `ShardedFileStore.ShardedFileStore.constructor` | shardedfilestore/shardedfilestore.go:40-54 | A store over whatever table, files and directories are there already, which it does not touch. |
| `ShardedFileStore.ShardedFileStore.NewUpload` | shardedfilestore/shardedfilestore.go:72-109 | New table, files and directories, other files untouched; the two directories are made in any case, and then a used id is refused; a new one leaves no empty directory. |
| `ShardedFileStore.ShardedFileStore.CreateFiles` | shardedfilestore/shardedfilestore.go:99-108 | The .bin is opened without truncation and the record is written. |
| `ShardedFileStore.ShardedFileStore.WriteChunk` | shardedfilestore/shardedfilestore.go:111-120 | What is read afterwards is what was there followed by the chunk, whose length is reported; a missing file is an error that changes nothing. |
| `StorePaths.UidPaths` | shardedfilestore/shardedfilestore.go:339-356 | The shard loop over runes and the joined path give, for ids as the generator makes them, the store's own record and unfinished paths. |
| `StorePaths.OtherIdsMissTheStore` | shardedfilestore/shardedfilestore.go:350-391 | For every other string neither path is one the store uses, whatever UTF-8 and dots the string holds. |
| `StorePaths.HexDigits` | shardedfilestore/shardedfilestore.go:359-367 | Character by character a blob is named by the two lower-case hexadecimal digits of each byte of the hash. |
| `StorePaths.UidIff` | shardedfilestore/shardedfilestore.go:72-74 | The ids of the generator are exactly the lower-case hexadecimal names of 16 bytes. |
| `StorePaths.PathExamples` | shardedfilestore/shardedfilestore.go:350-397 | Where record, lock, unfinished bytes and blob of an id and a hash lie, written out for a base and two shard levels. |
| `StorePaths.RuneShardsByRune` | shardedfilestore/shardedfilestore.go:339-348 | For a request id the loop takes one UTF-8 encoded character per level; a dot vanishes when the path is joined. |
| `ShardedFileStore.ShardedFileStore.GetInfo` | shardedfilestore/shardedfilestore.go:122-140 | For whatever stands for the id in the URL: a panic iff it is shorter than the shard depth; for a generated id the record with the length of the bytes, an error if either file is missing; for any other an error unless others put files outside the store's paths. |
| `ShardedFileStore.ShardedFileStore.GetReader` | shardedfilestore/shardedfilestore.go:142-144 | The bytes of the file the id resolves to. |
| `ShardedFileStore.ShardedFileStore.GetDuplicateCount` | shardedfilestore/shardedfilestore.go:146-164 | The query over the rows counts the others with deleted = 0 and the same hash, none for a NULL hash; the count is zero iff the bytes, and not only the record, are what terminating the upload is to remove. |
| `UploadStore.CondemnedOne` | shardedfilestore/shardedfilestore.go:213-230 | The duplicate count removes exactly the record and, if no other live row carries the hash, the bytes. |
| `ShardedFileStore.ShardedFileStore.Remove` | shardedfilestore/shardedfilestore.go:222-230 | RemoveWithDirs on one of the store's files, present or not, reports no error, and takes that file and the directories it leaves empty. |
| `ShardedFileStore.ShardedFileStore.RemoveFiles` | shardedfilestore/shardedfilestore.go:221-235 | The file steps of Terminate, none of which fails, remove the condemned files and the directories they leave empty. |
| `ShardedFileStore.ShardedFileStore.Terminate` | shardedfilestore/shardedfilestore.go:213-247 | New table, files and directories, no directory left empty, other files untouched; an unknown id is an error. |
| `Concatenation.SelfCopyKeepsUnread` | shardedfilestore/shardedfilestore.go:263-265 | Copied onto its own end, in rounds of any sizes, a file has as much left to read after any number of rounds as before. |
| `Concatenation.CopyAppendsWhatWasRead` | shardedfilestore/shardedfilestore.go:263-265 | Copied onto another file, in rounds of any sizes, the source stays as it is and what was read is what was appended. |
| `Concatenation.CopyOfOne` | shardedfilestore/shardedfilestore.go:263-265 | A copy can end iff it is not of a file with bytes in it onto itself; then every way of cutting it into rounds is finite and comes to the source appended; otherwise every number of rounds is followed by another. |
| `Concatenation.CopyEndsIff` | shardedfilestore/shardedfilestore.go:257-266 | The loop of such copies ends iff it does not get to a source that shares a destination with bytes in it; then it appends what the sources held at the start, up to the first that cannot be read. |
| `Concatenation.ConcatenationOntoItself` | shardedfilestore/shardedfilestore.go:250-269 | An upload of one byte among its own sources: the concatenation does not end. |
| `ShardedFileStore.ShardedFileStore.ConcatUploads` | shardedfilestore/shardedfilestore.go:250-269 | For all ids: appends the sources up to the first that cannot be read and reports whether there was one, or does not end. |
| `ShardedFileStore.ShardedFileStore.CopySources` | shardedfilestore/shardedfilestore.go:257-266 | The loop does what the copies in rounds, one after another, come to. |
| `ShardedFileStore.ShardedFileStore.LockUpload` | shardedfilestore/shardedfilestore.go:271-283 | On the tree itself: fails iff the directory of the record is missing, is busy iff that is there and the lock file too, and otherwise makes the lock file; nothing else changes. |
| `ShardedFileStore.ShardedFileStore.UnlockUpload` | shardedfilestore/shardedfilestore.go:285-301 | Removes the lock file if there is one, and no other file and no directory; a tidy tree stays tidy iff it was not alone. |
| `StoreLocks.LockAnswers` | shardedfilestore/shardedfilestore.go:271-283 | For every tree: which of the three answers TryLock gives, by record directory and lock file, and that only the answer Locked changes anything. |
| `StoreLocks.LockedOnce` | shardedfilestore/shardedfilestore.go:271-301 | Mutual exclusion in every run on disk: once a lock is granted, every further attempt on that id is answered busy and changes nothing until it is unlocked, whatever happens in between, a Terminate of the upload included. |
| `ShardedFileStore.ShardedFileStore.HashFile` | shardedfilestore/shardedfilestore.go:445-458 | The hash of the bytes the id resolves to. |
| `ShardedFileStore.ShardedFileStore.FinishUpload` | shardedfilestore/shardedfilestore.go:409-443 | Row, files and directories after hashing, recording and moving, and its two error cases; other files untouched; no directory left empty if the store was exact. |
| `ShardedFileStore.ShardedFileStore.Relocate` | shardedfilestore/shardedfilestore.go:430-442 | The rename moves the unfinished bytes over the blob, or fails if they are missing. |
| `Expirer.Expirer.GetExpired` | expirer/expirer.go:86-117 | Each id once, in any order, whose row is not deleted and whose age has reached the limit of its class: the identified one iff an account is stored. |
| `Expirer.Expirer.Gc` | expirer/expirer.go:58-84 | A cycle terminates exactly the selected uploads; table, files and directories do not depend on their order. |
| `Expirer.BlobGoesIffUnreferenced` | shardedfilestore/shardedfilestore.go:146-164 | A blob is removed in a batch iff no row that stays live carries its hash. |
| `Expirer.HistoryRefines` | expirer/expirer.go:58-84 | Runs of client calls with gc cycles in between still refine the plain map. |
| `Expirer.RowsKeepAge` | shardedfilestore/shardedfilestore.go:86-94 | Creation time, account and issuer of a row never change, and its creation time is that of its NewUpload; a row becomes deleted with a DELETE by a client or a cycle at or past its age limit, never otherwise, and stays so. |
| `Expirer.NotCollectedEarly` | expirer/expirer.go:86-97 | In every run with a clock that does not run backwards, an upload no client deleted is live until created_at plus the limit of its class, which is the identified one iff an account was stored. |
| `Expirer.CycleIsExact` | expirer/expirer.go:58-97 | After a cycle a row is live iff it was and is not past the expiry evaluated at selection, and every live upload keeps record and bytes. |
| `Recovery.FaultyRunLags` | shardedfilestore/shardedfilestore.go:213-247 | However often Terminate is cut short, with whole operations on other uploads in between, the store differs from the undisturbed one only by files that terminating that upload removes anyway. |
| `Recovery.InterruptedTerminateIsRepaired` | shardedfilestore/shardedfilestore.go:213-247 | Meanwhile all other live uploads read as if undisturbed, the row is as selectable as before, and a rerun gives the rows and files of an uninterrupted Terminate at that point. |
| `Recovery.RowStaysLive` | expirer/expirer.go:86-97 | Until the last step the row stays live and unchanged, so a later cycle selects it again. |
| `Recovery.CutFinishNeedsASharer` | shardedfilestore/shardedfilestore.go:420-442 | A FinishUpload cut between row update and rename leaves the upload readable, and repairable by a rerun, iff another live upload has the same hash. |
| `Recovery.OnlyUploadIsLost` | shardedfilestore/shardedfilestore.go:420-442 | Such a cut on the only upload of a store: neither readable nor finished by a rerun. |
| `Interleaving.InvAlways` | shardedfilestore/shardedfilestore.go:213-247 | The invariant behind the next row: no pending removal aims at the blob of a protected upload, in every interleaving outside the windows. |
| `Interleaving.InterleavedSafety` | shardedfilestore/shardedfilestore.go:213-247 | In every interleaving of split Terminates, NewUploads and FinishUploads, MkdirAll and prune included, and of writes that stays out of two windows, every finished live upload whose record no Terminate has removed yet is served in full: its bytes and its record. An upload whose Terminate was abandoned before that stays protected. |
| `Interleaving.AlwaysSound` | shardedfilestore/shardedfilestore.go:221-224 | In every interleaving, windows included: a record disappears only with a Terminate of its own upload, what was finished stays recorded under its hash, and a FinishUpload under way has the hash of its bytes. |
| `InterleavingDirs.AlwaysPlaced` | shardedfilestore/shardedfilestore.go:192-211 | In every interleaving: every blob lies in an existing directory, directories reach down from the base without a gap, and unfinished bytes stay until the rename or until a Terminate has removed the record. |
| `InterleavingDirs.RenameGoesThrough` | shardedfilestore/shardedfilestore.go:430-442 | Where what MkdirAll made is still there, the rename of a live upload that keeps its record does not fail. |
| `InterleavingDirs.NoneEverStranded` | shardedfilestore/shardedfilestore.go:192-211 | In every interleaving in which no walk prunes a directory that MkdirAll has made or found for an upload not yet renamed, no live upload that keeps its record has its hash but neither is finished nor has a rename to come that will not fail. |
| `InterleavingDirs.ServedOrUnderWay` | shardedfilestore/shardedfilestore.go:409-443 | Outside all three windows, every live upload that keeps its record and whose row has its hash is served in full, or its FinishUpload is under way and will not fail. |
| `InterleavingStranded.PruneLoses` | shardedfilestore/shardedfilestore.go:203-206 | Where what MkdirAll made is still there, a prune in that window can be followed by the last steps of the FinishUpload so that its upload is lost: live, with its bytes where nobody looks, neither readable nor writable nor finishable. |
| `InterleavingStranded.PruneWindowAttainable` | shardedfilestore/shardedfilestore.go:430-442 | For every layout and every two ids a run from the empty store, outside the other two windows, leads into this one. |
| `InterleavingStranded.LostAttainable` | shardedfilestore/shardedfilestore.go:409-443 | And on to a lost upload. |
| `InterleavingWindows.WindowLoses` | shardedfilestore/shardedfilestore.go:409-443 | From any sound state, a step in one of the windows can be followed by the remaining steps of a running Terminate so that such an upload has lost its bytes: the windows are exact. |
| `InterleavingWindows.RenameWindowAttainable` | shardedfilestore/shardedfilestore.go:420-442 | A run from the empty store leads into the first window: a count before the row update, the rename before the removal. |
| `InterleavingWindows.LookupWindowAttainable` | shardedfilestore/shardedfilestore.go:213-219 | A run leads into the second: a NULL looked up before the row update, the path resolved after it. |
| `InterleavingWindows.LossesAttainable` | shardedfilestore/shardedfilestore.go:213-247 | For every two ids, runs from the empty store end with a finished live upload that has lost its bytes, through either window. |
| `InterleavingWindows.SplitTerminateIsTerminate` | shardedfilestore/shardedfilestore.go:213-247 | Undisturbed, the split steps of a Terminate do what the serial Terminate does, and its cut attempts are those steps stopped early. |
| `InterleavingWindows.SplitFinishIsFinish` | shardedfilestore/shardedfilestore.go:409-443 | Undisturbed, the split steps of a FinishUpload do what the serial FinishUpload does. |
| `InterleavingWindows.SplitNewIsNew` | shardedfilestore/shardedfilestore.go:72-109 | Undisturbed, the split steps of a NewUpload do what the serial NewUpload does. |
| `InterleavingWindows.NoNewThreatAfterRowUpdate` | shardedfilestore/shardedfilestore.go:146-164 | One step: once a live row carries its hash, no Terminate of another upload newly takes the blob for unshared. |
| `InterleavingWindows.UpdatesInTimeAvoidWindows` | shardedfilestore/shardedfilestore.go:146-164 | Every run: if each row update comes before every count that would take its blob for unshared, and not between the two lookups of a Terminate of the same upload, no step is in a window; so a rename is in one only if such a count came before its row update. |
| `InterleavingWindows.InTimeRunsAreSafe` | shardedfilestore/shardedfilestore.go:146-164 | In every such run every finished live upload whose record no Terminate has removed is served in full, concurrent FinishUploads and Terminates of the same bytes included. |
| `Interleaving.NotArmedLater` | shardedfilestore/shardedfilestore.go:146-164 | Outside the windows no step makes a pending removal aim at a protected upload's blob. |
| `ResumableUpload.AppendIsWriteAtOffset` | shardedfilestore/shardedfilestore.go:111-137 | At the offset GetInfo reports, the append writes what a write at that offset would. |
| `ResumableUpload.MoveKeepsPrefix` | shardedfilestore/shardedfilestore.go:111-140 | A resumed write that stops after any number of bytes extends the stored prefix of the source by exactly those. |
| `ResumableUpload.SessionRefines` | shardedfilestore/shardedfilestore.go:111-140 | Every session, other clients included, keeps the upload under way with a prefix of the source. |
| `ResumableUpload.StoredIsPrefix` | shardedfilestore/shardedfilestore.go:111-140 | After every session the stored bytes are a prefix of the source and the reported offset is their length. |
| `ResumableUpload.NothingStoredIsLost` | shardedfilestore/shardedfilestore.go:111-140 | What was stored before any move is a prefix of what is stored after it, so the reported offset never falls. |
| `ResumableUpload.FinishedHashIsOfSource` | shardedfilestore/shardedfilestore.go:409-427 | When the offset has reached the end, finishing records the hash of the whole source. |
| `Base64.GroupsRoundTrip` | server/tusd-metadata.go:50-67 | Group by group, with and without padding, decoding gives the encoded bytes. |
| `Base64.RoundTrip` | server/tusd-metadata.go:50-67 | Decoding undoes encoding, for all values. |
| `Base64.EncodeIsText` | server/tusd-metadata.go:67 | Encoded text consists of alphabet characters and padding only, so it has no comma or white space, and is empty only for the empty value. |
| `Base64.DecodesToNothing` | server/tusd-metadata.go:50 | Only text of line breaks decodes to the empty value. |
| `Base64.DigitsAreTheAlphabet` | server/tusd-metadata.go:67 | The digits are those of Table 1 of RFC 4648. |
| `Base64.DecodeIsExact` | server/tusd-metadata.go:50-53 | For every text: it decodes iff, line breaks apart, it consists of groups of four digits with at most two padding characters at the end; then to the bytes whose encoding it is, up to the unused low bits of the last digit. An element with any other text is ignored. |
| `Metadata.ParseMeta` | server/tusd-metadata.go:35-59 | The parsing loop computes the meaning of the header that the rows from ParseOfElements to LastEntryWins spell out. |
| `Metadata.ParseOfElements` | server/tusd-metadata.go:38 | Pieces without commas, put together with commas, mean what the pieces mean one after another. |
| `Metadata.ParseElementIff` | server/tusd-metadata.go:39-55 | A piece sets a key to a value iff, white space at its ends apart, it is the key, one space and base64 of the value. |
| `Metadata.TrimIsExact` | server/tusd-metadata.go:39 | Trimming takes away white-space characters at both ends, all of them, and nothing else. |
| `Metadata.SpaceIsWhite` | server/tusd-metadata.go:39 | White space are the UTF-8 encodings of the characters with the Unicode property White_Space. |
| `Metadata.PaddedElementRoundTrip` | server/tusd-metadata.go:39-67 | A printed entry with any white space around it parses to its key and value. |
| `Metadata.LastEntryWins` | server/tusd-metadata.go:38-56 | A key is in the result iff some element sets it, with the value of the last one that does. |
| `Metadata.SerializeMeta` | server/tusd-metadata.go:64-77 | The printed header lists every entry once, in some order, separated by commas. |
| `Metadata.PrintedSplits` | server/tusd-metadata.go:66-77 | Split at commas, a printed map is its entries, each a key, one space and base64, with no comma at the end; only the empty map prints as nothing. |
| `Metadata.ParsedIsGood` | server/tusd-metadata.go:38-56 | Parsed keys are not empty, hold no space or comma and do not begin with white space; parsed values are not empty. |
| `Metadata.ParsePrinted` | server/tusd-metadata.go:35-77 | Printing any list of good keys of a map and parsing it gives exactly their non-empty entries. |
| `Metadata.MapRoundTrip` | server/tusd-metadata.go:35-77 | For every map with such keys and every order, parsing what was printed gives the map minus exactly the entries with an empty value. |
| `Metadata.Normalisation` | server/tusd-metadata.go:35-77 | For every header and every order, parsing, printing and parsing again gives the first result. |
| `Metadata.SurvivesIffGood` | server/tusd-metadata.go:35-77 | A map survives printing and parsing iff all keys are good and no value is empty. |
| `HeaderPipeline.AddRemoteIPToMetadata` | server/tushandlers.go:176-202 | The header is reprinted with the address, unless the client set RemoteIP or there is no address; then it is left alone. |
| `HeaderPipeline.ProcessJwt` | server/tushandlers.go:243-284 | The header is reprinted with issuer and account, or left alone and the error reported, as the rows ParsesIff and PipelineAddsExactly spell out. |
| `HeaderPipeline.ParsesIff` | server/tushandlers.go:214-241 | A token is accepted iff it can be read, is HMAC, has a textual issuer with a secret, matches that secret and is timely; the error is that of an unknown issuer iff it is HMAC and names one without a secret; and the signature is what is wrong iff it is one, under that secret, and does not match. |
| `HeaderPipeline.PostFile` | server/tushandlers.go:143-174 | The outcome of each request and the metadata tusd will parse, for any order in which the two rewrites print. |
| `HeaderPipeline.GetsThroughIff` | server/tushandlers.go:129-174 | Which requests are passed on, and which get 401 (a token that can be read and has a known issuer, with a signature other than the secret's; one that is no base64 gets 400), 406 and 500. |
| `HeaderPipeline.PipelineAddsExactly` | server/tushandlers.go:176-284 | A request that gets through carries the client's metadata plus RemoteIP, with issuer and account of the token's claims added or overwritten iff it is read, HMAC, of a configured issuer, matching, timely and names an account; what is empty vanishes. |
| `HeaderPipeline.UnknownIssuerAddsNothing` | server/tushandlers.go:129-141 | A token of an unknown issuer is not fatal and adds nothing. |
| `HeaderPipeline.RecordedAccount` | shardedfilestore/shardedfilestore.go:86-94 | For every request passed on: the row gets account and issuer of the verified token if it names an account (none if that is empty), else the account the client wrote with an empty issuer, else none. |
| `HeaderPipeline.IdentifiedWithoutToken` | server/tushandlers.go:243-284 | Without a token that names an account, an upload is identified iff the client wrote an account field. |
| `HeaderPipeline.ClientAccountPasses` | server/tushandlers.go:245-252 | A request with one client-set account field and no token is passed on and recorded under that account. |
| `TokenSteps.RunKeepsInv` | fileuploader-kiwiirc-plugin/src/cache-loader.js:14-44 | The invariant behind the next rows, over every interleaving. |
| `TokenSteps.SingleFlight` | fileuploader-kiwiirc-plugin/src/cache-loader.js:28-44 | In every interleaving at most one loader call per key is unfinished. |
| `TokenSteps.LoadingIffUnfinished` | fileuploader-kiwiirc-plugin/src/cache-loader.js:28-44 | In every interleaving a key is in `loading` iff its call has not run its finally. |
| `TokenSteps.CachedWasValid` | fileuploader-kiwiirc-plugin/src/cache-loader.js:36-40 | In every interleaving each cached value came from a finished call for its key and was valid when stored. |
| `TokenSteps.SynchronousTokenIsFresh` | fileuploader-kiwiirc-plugin/src/token-manager.js:80-86 | A token returned at once was acquired from that network at most 15 seconds ago, and asking changed nothing. |
| `TokenSteps.UnsupportedLeftAlone` | fileuploader-kiwiirc-plugin/src/token-manager.js:21-28 | In every interleaving, a request to a network that refused an earlier one is sent no sooner than five minutes after the refusal was recorded. |
| `TokenSteps.RefusedNetworkAnswersFalse` | fileuploader-kiwiirc-plugin/src/token-manager.js:21-26 | Until then get answers false at once and changes nothing. |
| `TokenSteps.WaitersGetFalse` | fileuploader-kiwiirc-plugin/src/token-manager.js:30-40 | Every caller waiting on the refused request, whether it started or joined it, gets false rather than a rejection. |
| `TokenSteps.MatcherIsExact` | fileuploader-kiwiirc-plugin/src/token-manager.js:51-57 | Which messages settle a request with a token, with a refusal, or by making the matcher throw. |
| `TokenSteps.UpperIsExtjwt` | fileuploader-kiwiirc-plugin/src/token-manager.js:52-56 | Upper-casing finds EXTJWT in exactly the words that spell it, letter by letter in either case. |
| `TokenSteps.GrantIsDelivered` | fileuploader-kiwiirc-plugin/src/token-manager.js:46-78 | A message of the network that grants a token settles the waiting request: starter and joiners get that token, which is cached with the time. |
| `TokenSteps.RefusalIsDelivered` | fileuploader-kiwiirc-plugin/src/token-manager.js:66-72 | One that refuses gives all of them false, and the time of the refusal is noted. |
| `TokenSteps.ExpiryIsRejection` | fileuploader-kiwiirc-plugin/src/token-manager.js:92-98 | When the timer fires all of them get a rejection; nothing is cached or noted. |
| `TokenSteps.OthersLeaveItWaiting` | fileuploader-kiwiirc-plugin/src/token-manager.js:100-112 | Every other message, and every message of another network, leaves the request waiting. |
| `TokenSteps.AnswersComeFromTheNetwork` | fileuploader-kiwiirc-plugin/src/token-manager.js:46-78 | Every token is the second parameter of an EXTJWT message that its own network sent while that request was waiting, and a refusal stems from that network's 421 for EXTJWT in that time. |
| `TokenHistory.AnsweredAtOnceIff` | fileuploader-kiwiirc-plugin/src/token-manager.js:21-44 | In every interleaving get has its answer at once iff some request to the network was refused less than five minutes ago or some call to it ended with a token acquired at most 15 seconds ago. |
| `TokenHistory.GetIsExact` | fileuploader-kiwiirc-plugin/src/token-manager.js:21-44 | In every interleaving: get answers false iff a request to the network was refused less than five minutes ago; otherwise, if a call to it ended with a token acquired at most 15 seconds ago, it is the token of the last call that ended with one; otherwise a promise on the call under way, or on a new one that is sent. |
| `TokenHistory.WaitersGetOutcome` | fileuploader-kiwiirc-plugin/src/token-manager.js:28-40 | In every interleaving: what each promise handed out comes to and when, for the caller that started the call and for those that joined it. |
| `TokenHistory.CacheStaysLatest` | fileuploader-kiwiirc-plugin/src/cache-loader.js:36-40 | No step leaves an older record in the cache than one a call to that network has ended with. |
| `TokenManager.CacheLoader.Get` | fileuploader-kiwiirc-plugin/src/cache-loader.js:14-26 | The valid cached value, or whatever load gives. |
| `TokenManager.CacheLoader.Load` | fileuploader-kiwiirc-plugin/src/cache-loader.js:28-34 | Joins the call in progress or starts one. |
| `TokenManager.CacheLoader.FinishLoad` | fileuploader-kiwiirc-plugin/src/cache-loader.js:36-43 | Checks, caches, and in any case takes the key out of `loading`. |
| `TokenManager.TokenManager.Get` | fileuploader-kiwiirc-plugin/src/token-manager.js:21-44 | One step of the state machine: GetIsExact says what it answers. |
| `TokenManager.TokenManager.OnMessage` | fileuploader-kiwiirc-plugin/src/token-manager.js:100-115 | Each waiting listener of the network settles its request, or stays, according to the message. |
| `TokenManager.TokenManager.FinishRequest` | fileuploader-kiwiirc-plugin/src/token-manager.js:63-77 | Stamps the token with the time, or records the refusal, or passes the failure on. |
| `UploadGate.HandleBeforeUpload` | fileuploader-kiwiirc-plugin/src/handlers/uppy/acquire-extjwt-before-upload.js:6-49 | The batch starts iff no network's token is pending; then the files whose network answers with a token that is not empty have it under `extjwt`, and all other metadata is as before; otherwise no file is touched, the pending networks are being asked, and the restart waits for a promise of each of them and of no others. |
| `UploadGate.RestartStarts` | fileuploader-kiwiirc-plugin/src/handlers/uppy/acquire-extjwt-before-upload.js:26-29 | When all promises are fulfilled and their calls are past their finally, within 15 seconds of the replies, the handler called again starts the batch, if every network that needed no promise still has its answer at once. |
| `UploadGate.StampFiles` | fileuploader-kiwiirc-plugin/src/handlers/uppy/acquire-extjwt-before-upload.js:41-48 | The second loop writes each network's token, if it is not empty, under `extjwt`, changes no other metadata and leaves the token cache alone. |
| `UploadGate.UniqueNetworks` | fileuploader-kiwiirc-plugin/src/handlers/uppy/acquire-extjwt-before-upload.js:7-12 | Every network of the batch once. |
| `UploadGate.AnswersIndependent` | fileuploader-kiwiirc-plugin/src/handlers/uppy/acquire-extjwt-before-upload.js:14-17 | Asking about any networks before turns no answer into a promise or back. |
| `UploadGate.PromisedAreLoading` | fileuploader-kiwiirc-plugin/src/handlers/uppy/acquire-extjwt-before-upload.js:14-38 | Every network answered with a promise is being loaded once the first loop is done. |
| `EventSteps.OrderedFanOut` | events/tus-events.go:60-91 | In every run, what a listener received followed by what its buffer holds is exactly the events whose broadcast began since its registration, in the order of the run, up to the one in progress; buffers hold at most 16. |
| `EventSteps.LogIsWhatBegan` | events/tus-events.go:34-91 | The log and the registrations behind the row above are those of the steps of the run. |
| `EventSteps.ReceivesDeliverInOrder` | events/tus-events.go:34-91 | In every run the n receives of a listener have delivered the first n broadcasts since its registration. |
| `EventSteps.InvKept` | events/tus-events.go:34-43 | Every registration, send and receive keeps that true of every listener. |
| `EventSteps.OnlyAFullBufferBlocks` | events/tus-events.go:79-91 | A broadcast in progress is held up only by a full buffer, and one receive by that listener frees it. |
| `EventBroadcaster.TusEventBroadcaster.Listen` | events/tus-events.go:34-43 | A new empty channel is registered after the others, which are unchanged. |
| `EventBroadcaster.TusEventBroadcaster.Broadcast` | events/tus-events.go:79-91 | The sending loop gives every listener the event once, after all it was sent before, whatever is received meanwhile. |

## Left out

- HTTP routing, CORS, gin, the rest of tusd, signal handling, configuration, logging and schema migrations: library plumbing.
- SHA-256, HMAC and JWT decoding: function parameters with the stated assumptions.
- File permissions, open handles, JSON encoding of the record: a record is a stored value, a file operation is one step.
- The error a reader returns after its bytes were appended; I/O errors other than a missing file, a used id, a failing rename and an unknown row.
- Lock files of dead or other processes, which the lock file library takes over or refuses; in the interleaving model tusd's exclusion is a guard.
- MySQL's count of changed rather than matched rows, under which a second Terminate of the same id would report an error.
- `Unlisten`, which has no caller, and broadcasts that race with `Close`.
- X-Forwarded-For and CIDR parsing: the chosen address, or the reason for its absence, is an input of the request.
- Interleaving.InterleavedSafety: does not follow the directories of records and of unfinished bytes: pruning those can make a NewUpload fail before its id is handed out, or another walk abort, and both may happen at any step. A write is one step: bytes written through a handle after the file is removed reach no upload.
- ShardedFileStore.ShardedFileStore.ConcatUploads: a copy without end is a result; the disk running full is not modelled.
- UploadGate.RestartStarts: does not model the message shown to the user when a promise is rejected.
- TokenSteps.RunKeepsInv: lets the response timer fire at any time, not only after ten seconds; upper-casing is that of ASCII letters.
- Dashboard, paste and drag handlers, the sidebar component and the small utilities: user interface.
