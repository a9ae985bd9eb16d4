/**
 Concatenation as it runs: each source is copied when its turn comes, in rounds of reading some bytes
 and appending them. When that ends, and that it then appends what the sources held before it began.
 */
module Concatenation {
  import opened Bytes
  import opened StorePaths
  import opened UploadStore
  import opened StoreRefinement

  // ------------------------------------------------------------------ one copy, in rounds

  /** The store, and how far the source has been read. */
  datatype Copier = Copier(store: Store, offset: nat)

  /** There are n more bytes to read. */
  predicate CanRead(copier: Copier, source: Id, n: nat) {
    Read(copier.store, source).Some? && 1 <= n <= |Read(copier.store, source).value| - copier.offset
  }

  /** One round of io.Copy, whatever the size of its buffer and of what the read returned. */
  function Round(copier: Copier, dest: Id, source: Id, n: nat): Copier
    requires CanRead(copier, source, n)
  {
    var offset := copier.offset;
    Copier(Append(copier.store, dest, Read(copier.store, source).value[offset..offset + n]), offset + n)
  }

  predicate CanCopy(copier: Copier, dest: Id, source: Id, chunks: seq<nat>)
    decreases |chunks|
  {
    chunks == [] || (CanRead(copier, source, chunks[0]) && CanCopy(Round(copier, dest, source, chunks[0]), dest, source, chunks[1..]))
  }

  function Rounds(copier: Copier, dest: Id, source: Id, chunks: seq<nat>): Copier
    requires CanCopy(copier, dest, source, chunks)
    decreases |chunks|
  {
    if chunks == [] then copier else Rounds(Round(copier, dest, source, chunks[0]), dest, source, chunks[1..])
  }

  /** The next read meets the end of the file. */
  predicate AtEnd(copier: Copier, source: Id) {
    Read(copier.store, source).Some? && copier.offset >= |Read(copier.store, source).value|
  }

  /** The copy ends after these rounds. */
  predicate Ends(s: Store, dest: Id, source: Id, chunks: seq<nat>) {
    CanCopy(Copier(s, 0), dest, source, chunks) && AtEnd(Rounds(Copier(s, 0), dest, source, chunks), source)
  }

  predicate Shares(s: Store, dest: Id, source: Id) {
    BinLoc(s.rows, source) == BinLoc(s.rows, dest)
  }

  /** Copied onto its own end, a file grows by what is read: as much is left to read after any rounds as before. */
  lemma {:induction false} SelfCopyKeepsUnread(copier: Copier, dest: Id, source: Id, chunks: seq<nat>)
    requires Shares(copier.store, dest, source) && Read(copier.store, source).Some?
    requires CanCopy(copier, dest, source, chunks)
    ensures var after := Rounds(copier, dest, source, chunks);
      && Read(after.store, source).Some?
      && |Read(after.store, source).value| - after.offset == |Read(copier.store, source).value| - copier.offset
    decreases |chunks|
  {
    if chunks != [] {
      SelfCopyKeepsUnread(Round(copier, dest, source, chunks[0]), dest, source, chunks[1..]);
    }
  }

  /** Copied onto another file, it stays as it is, and what was read is what was appended. */
  lemma {:induction false} CopyAppendsWhatWasRead(s: Store, dest: Id, source: Id, copier: Copier, chunks: seq<nat>)
    requires !Shares(s, dest, source) && Read(s, dest).Some? && s.files[BinLoc(s.rows, dest)].Bin? && Read(s, source).Some?
    requires copier.offset <= |Read(s, source).value|
    requires copier.store == Append(s, dest, Read(s, source).value[..copier.offset])
    requires CanCopy(copier, dest, source, chunks)
    ensures var after, bytes := Rounds(copier, dest, source, chunks), Read(s, source).value;
      && copier.offset + |chunks| <= after.offset <= |bytes|
      && after.store == Append(s, dest, bytes[..after.offset])
      && Read(after.store, source) == Some(bytes)
    decreases |chunks|
  {
    if chunks != [] {
      var bytes, offset, n := Read(s, source).value, copier.offset, chunks[0];
      assert Read(copier.store, source) == Some(bytes);
      AppendTwice(s, dest, bytes[..offset], bytes[offset..offset + n]);
      assert bytes[..offset] + bytes[offset..offset + n] == bytes[..offset + n];
      CopyAppendsWhatWasRead(s, dest, source, Round(copier, dest, source, n), chunks[1..]);
    }
  }

  /**
   A copy can end exactly if it is not of a file with bytes in it onto itself; then every way of
   cutting it into rounds comes to the source appended. Otherwise every number of rounds is followed by more.
   */
  lemma CopyOfOne(s: Store, dest: Id, source: Id)
    requires Read(s, dest).Some? && s.files[BinLoc(s.rows, dest)].Bin? && Read(s, source).Some?
    ensures var bytes, endless := Read(s, source).value, Shares(s, dest, source) && Read(s, source).value != [];
      && ((exists chunks :: Ends(s, dest, source, chunks)) <==> !endless)
      && (forall chunks :: Ends(s, dest, source, chunks) ==> Rounds(Copier(s, 0), dest, source, chunks).store == Append(s, dest, bytes))
      && (!endless ==> forall chunks :: CanCopy(Copier(s, 0), dest, source, chunks) ==> |chunks| <= |bytes|)
      && (endless ==> forall chunks :: CanCopy(Copier(s, 0), dest, source, chunks) ==>
            CanRead(Rounds(Copier(s, 0), dest, source, chunks), source, 1))
  {
    AppendNothing(s, dest);
    var bytes, start := Read(s, source).value, Copier(s, 0);
    if Shares(s, dest, source) {
      forall chunks | CanCopy(start, dest, source, chunks)
        ensures bytes != [] ==> CanRead(Rounds(start, dest, source, chunks), source, 1)
        ensures bytes == [] ==> chunks == []
      {
        SelfCopyKeepsUnread(start, dest, source, chunks);
      }
    } else {
      assert bytes[..0] == [] && bytes[..|bytes|] == bytes;
      forall chunks | CanCopy(start, dest, source, chunks)
        ensures |chunks| <= |bytes|
        ensures AtEnd(Rounds(start, dest, source, chunks), source) ==>
          Rounds(start, dest, source, chunks).store == Append(s, dest, bytes)
      {
        CopyAppendsWhatWasRead(s, dest, source, start, chunks);
      }
      if bytes != [] {
        CopyAppendsWhatWasRead(s, dest, source, start, [|bytes|]);
        assert Ends(s, dest, source, [|bytes|]);
      }
    }
    if bytes == [] {
      assert Ends(s, dest, source, []);
    }
  }

  // ------------------------------------------------------------------ the loop over the sources

  /** How a concatenation ends, if it does. */
  datatype Copying = Copied(status: Status) | NeverEnds

  /** If the copy of a source has no end, the store is given as it is when that copy begins. */
  ghost function CopyInto(s: Store, dest: Id, sources: seq<Id>): (Store, Copying)
    decreases |sources|
  {
    if sources == [] then (s, Copied(Ok))
    else if Read(s, sources[0]).None? then (s, Copied(Failed))
    else if chunks :| Ends(s, dest, sources[0], chunks)
    then CopyInto(Rounds(Copier(s, 0), dest, sources[0], chunks).store, dest, sources[1..])
    else (s, NeverEnds)
  }

  ghost function Concatenate(s: Store, dest: Id, sources: seq<Id>): (Store, Copying) {
    if Read(s, dest).None? then (s, Copied(Failed)) else CopyInto(s, dest, sources)
  }

  /** The loop, by what each copy comes to. */
  lemma CopyIntoNext(s: Store, dest: Id, sources: seq<Id>)
    requires Read(s, dest).Some? && s.files[BinLoc(s.rows, dest)].Bin?
    requires sources != [] && Read(s, sources[0]).Some?
    ensures CopyInto(s, dest, sources) ==
      if Shares(s, dest, sources[0]) && Read(s, sources[0]).value != [] then (s, NeverEnds)
      else CopyInto(Append(s, dest, Read(s, sources[0]).value), dest, sources[1..])
  {
    CopyOfOne(s, dest, sources[0]);
  }

  predicate NonEmpty(s: Store, id: Id) {
    Read(s, id).Some? && Read(s, id).value != []
  }

  /** Source i shares the destination's file, can be got to, and the destination or a source before it is not empty. */
  predicate CopiesItself(s: Store, dest: Id, sources: seq<Id>, i: nat) {
    && i < |sources|
    && Shares(s, dest, sources[i])
    && (forall k | 0 <= k < i :: Read(s, sources[k]).Some?)
    && (NonEmpty(s, dest) || exists k | 0 <= k < i :: NonEmpty(s, sources[k]))
  }

  // ------------------------------------------------------------------ when it ends

  lemma AppendNothing(s: Store, id: Id)
    requires Read(s, id).Some? && s.files[BinLoc(s.rows, id)].Bin?
    ensures Append(s, id, []) == s
  {
    var l := BinLoc(s.rows, id);
    assert BytesOf(s.files[l]) + [] == BytesOf(s.files[l]) && s.files[l := s.files[l]] == s.files;
  }

  /** Appending to one upload does not change what is read of the sources, up to the first that shares its file. */
  lemma {:induction false} GatherBesideAppend(s: Store, dest: Id, more: Bytes, sources: seq<Id>)
    requires forall i | 0 <= i < |sources| && Shares(s, dest, sources[i]) :: exists k | 0 <= k < i :: Read(s, sources[k]).None?
    ensures Gather(Append(s, dest, more), sources) == Gather(s, sources)
  {
    if sources != [] {
      assert !Shares(s, dest, sources[0]);
      if Read(s, sources[0]).Some? {
        forall i | 0 <= i < |sources| - 1 && Shares(s, dest, sources[1..][i])
          ensures exists k | 0 <= k < i :: Read(s, sources[1..][k]).None?
        {
          var k :| 0 <= k < i + 1 && Read(s, sources[k]).None?;
          assert sources[1..][k - 1] == sources[k];
        }
        GatherBesideAppend(s, dest, more, sources[1..]);
      }
    }
  }

  /** After one round the loop runs into itself at a source iff it did so before, one source further on. */
  lemma CopiesItselfNext(s: Store, dest: Id, sources: seq<Id>, bytes: Bytes, i: nat)
    requires Read(s, dest).Some? && s.files[BinLoc(s.rows, dest)].Bin?
    requires sources != [] && Read(s, sources[0]) == Some(bytes) && !(Shares(s, dest, sources[0]) && bytes != [])
    ensures CopiesItself(s, dest, sources, i + 1) <==> CopiesItself(Append(s, dest, bytes), dest, sources[1..], i)
  {
    var s1, rest := Append(s, dest, bytes), sources[1..];
    if bytes == [] {
      AppendNothing(s, dest);
      assert s1 == s;
    } else {
      assert NonEmpty(s, sources[0]);
      assert NonEmpty(s1, dest);
    }
    assert forall id :: Read(s1, id).Some? <==> Read(s, id).Some?;
    if CopiesItself(s, dest, sources, i + 1) {
      assert forall k | 0 <= k < i :: rest[k] == sources[k + 1];
      if bytes == [] && !NonEmpty(s, dest) {
        var k :| 0 <= k < i + 1 && NonEmpty(s, sources[k]);
        assert NonEmpty(s1, rest[k - 1]);
      }
    }
    if CopiesItself(s1, dest, rest, i) {
      forall k | 0 <= k < i + 1 ensures Read(s, sources[k]).Some? {
        assert k > 0 ==> sources[k] == rest[k - 1];
      }
      if bytes == [] && !NonEmpty(s1, dest) {
        var k :| 0 <= k < i && NonEmpty(s1, rest[k]);
        assert NonEmpty(s, sources[k + 1]);
      }
    }
  }

  /**
   The loop runs without end exactly if it gets to a source that shares a destination with bytes in it;
   otherwise it appends what the sources held at the start, up to the first that cannot be read.
   */
  lemma {:induction false} CopyEndsIff(s: Store, dest: Id, sources: seq<Id>)
    requires Read(s, dest).Some? && s.files[BinLoc(s.rows, dest)].Bin?
    ensures CopyInto(s, dest, sources).1.NeverEnds? <==> exists i :: CopiesItself(s, dest, sources, i)
    ensures !CopyInto(s, dest, sources).1.NeverEnds? ==>
      CopyInto(s, dest, sources) == (ConcatUploads(s, dest, sources).0, Copied(ConcatUploads(s, dest, sources).1))
    decreases |sources|
  {
    if sources == [] || Read(s, sources[0]).None? {
      AppendNothing(s, dest);
      assert forall i :: CopiesItself(s, dest, sources, i) ==> i == 0;
    } else if Shares(s, dest, sources[0]) && Read(s, sources[0]).value != [] {
      CopyIntoNext(s, dest, sources);
      assert CopiesItself(s, dest, sources, 0);
    } else {
      var bytes, rest := Read(s, sources[0]).value, sources[1..];
      var s1 := Append(s, dest, bytes);
      CopyIntoNext(s, dest, sources);
      CopyEndsIff(s1, dest, rest);
      forall i: nat ensures CopiesItself(s, dest, sources, i + 1) <==> CopiesItself(s1, dest, rest, i) {
        CopiesItselfNext(s, dest, sources, bytes, i);
      }
      assert !CopiesItself(s, dest, sources, 0);
      if i: nat :| CopiesItself(s, dest, sources, i) {
        assert CopiesItself(s1, dest, rest, i - 1);
      }
      if !CopyInto(s, dest, sources).1.NeverEnds? {
        GatherAfterRound(s, dest, sources, bytes);
        AppendTwice(s, dest, bytes, Gather(s, rest).0);
      }
    }
  }

  lemma GatherAfterRound(s: Store, dest: Id, sources: seq<Id>, bytes: Bytes)
    requires Read(s, dest).Some? && s.files[BinLoc(s.rows, dest)].Bin?
    requires sources != [] && Read(s, sources[0]) == Some(bytes)
    requires !exists i :: CopiesItself(s, dest, sources, i)
    ensures Gather(Append(s, dest, bytes), sources[1..]) == Gather(s, sources[1..])
  {
    if bytes == [] {
      AppendNothing(s, dest);
    } else {
      var rest := sources[1..];
      forall i | 0 <= i < |rest| && Shares(s, dest, rest[i]) ensures exists k | 0 <= k < i :: Read(s, rest[k]).None? {
        assert !CopiesItself(s, dest, sources, i + 1) && NonEmpty(s, sources[0]);
        var k :| 0 <= k < i + 1 && Read(s, sources[k]).None?;
        assert rest[k - 1] == sources[k];
      }
      GatherBesideAppend(s, dest, bytes, rest);
    }
  }

  lemma AppendTwice(s: Store, id: Id, a: Bytes, b: Bytes)
    ensures Append(Append(s, id, a), id, b) == Append(s, id, a + b)
  {
    var l := BinLoc(s.rows, id);
    if l in s.files {
      assert BytesOf(s.files[l]) + a + b == BytesOf(s.files[l]) + (a + b);
      assert Append(Append(s, id, a), id, b).files == Append(s, id, a + b).files;
    }
  }

  /** Such a store: an upload with one byte, named among its own sources. */
  lemma ConcatenationOntoItself(sha: Bytes -> Hash, id: Id, now: int, info: UploadInfo)
    ensures var s := Append(Step(sha, EMPTY, New(id, now, info)), id, "x");
      Read(s, id) == Some("x") && Concatenate(s, id, [id]) == (s, NeverEnds)
  {
    var s := Append(Step(sha, EMPTY, New(id, now, info)), id, "x");
    assert BinLoc(s.rows, id) == Incomplete(id) && [] + "x" == "x";
    assert Read(s, id) == Some("x");
    CopyIntoNext(s, id, [id]);
  }
}
