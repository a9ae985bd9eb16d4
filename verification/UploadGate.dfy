/** The handler that lets a batch of uploads start only when all its tokens are at hand. */
module UploadGate {
  import opened Bytes
  import opened TokenSteps
  import opened TokenManager
  import opened TokenHistory

  /** An uppy file; its meta object is updated in place. */
  class FileObj {
    const network: Network
    var meta: map<string, string>

    constructor (network: Network, meta: map<string, string>)
      ensures this.network == network && this.meta == meta
    {
      this.network, this.meta := network, meta;
    }
  }

  /** A token that JavaScript takes for true. */
  function TokenOf(a: Answer): Option<string> {
    if a.Now? && a.token.Some? && a.token.value != "" then a.token else None
  }

  function Stamped(meta: map<string, string>, a: Answer): map<string, string> {
    match TokenOf(a)
    case None => meta
    case Some(token) => meta["extjwt" := token]
  }

  /** Asking about several networks in turn. */
  function GetEach(s: State, networks: seq<Network>): State {
    if networks == [] then s else Get(GetEach(s, networks[..|networks| - 1]), networks[|networks| - 1]).0
  }

  /** Asking about other networks does not turn an answer into a promise or back, nor change a token. */
  lemma {:induction false} AnswersIndependent(s: State, networks: seq<Network>, n: Network)
    ensures var s' := GetEach(s, networks);
      && s'.now == s.now
      && (IsPromise(Get(s', n).1) <==> IsPromise(Get(s, n).1))
      && (!IsPromise(Get(s, n).1) ==> Get(s', n).1 == Get(s, n).1)
    decreases |networks|
  {
    if networks != [] {
      AnswersIndependent(s, networks[..|networks| - 1], n);
    }
  }

  /** If none of the answers is a promise, asking changed nothing. */
  lemma {:induction false} SynchronousAsksChangeNothing(s: State, networks: seq<Network>)
    requires forall n :: n in networks ==> !IsPromise(Get(s, n).1)
    ensures GetEach(s, networks) == s
    decreases |networks|
  {
    if networks != [] {
      assert networks[|networks| - 1] in networks;
      SynchronousAsksChangeNothing(s, networks[..|networks| - 1]);
    }
  }

  /** Whoever was answered with a promise is being loaded from then on. */
  lemma {:induction false} PromisedAreLoading(s: State, networks: seq<Network>, n: Network)
    requires n in networks && IsPromise(Get(s, n).1)
    ensures n in GetEach(s, networks).loading
    decreases |networks|
  {
    var earlier, last := networks[..|networks| - 1], networks[|networks| - 1];
    if n in earlier {
      PromisedAreLoading(s, earlier, n);
    } else {
      assert n == last;
      AnswersIndependent(s, earlier, n);
    }
  }

  predicate Distinct(networks: seq<Network>) {
    forall i, j :: 0 <= i < j < |networks| ==> networks[i] != networks[j]
  }

  /** The networks of the files, each once. */
  ghost predicate NetworksOf(networks: seq<Network>, files: seq<FileObj>) {
    && Distinct(networks)
    && forall n :: n in networks <==> exists f :: f in files && f.network == n
  }

  // ------------------------------------------------------------------ what the batch waits for

  /** The promises that asking about these networks handed out: one for each network that had no answer at once. */
  ghost predicate PromisesFor(before: State, s: State, networks: seq<Network>, promises: seq<Answer>) {
    && (forall a :: a in promises ==> IsPromise(a) && a.call < |s.calls| && s.calls[a.call].network in networks)
    && forall n :: n in networks && IsPromise(Get(before, n).1) ==>
         exists a :: a in promises && IsPromise(a) && a.call < |s.calls| && s.calls[a.call].network == n
  }

  lemma OneMorePromise(before: State, s: State, networks: seq<Network>, promises: seq<Answer>, n: Network)
    requires LoadingExact(s) && PromisesFor(before, s, networks, promises)
    requires IsPromise(Get(before, n).1) ==> IsPromise(Get(s, n).1)
    ensures LoadingExact(Get(s, n).0)
    ensures PromisesFor(before, Get(s, n).0, networks + [n], if IsPromise(Get(s, n).1) then promises + [Get(s, n).1] else promises)
  {
    LoadingKeptByAsk(s, n);
    var (s', answer) := Get(s, n);
    assert |s'.calls| >= |s.calls| && s'.calls[..|s.calls|] == s.calls;
    var promises' := if IsPromise(answer) then promises + [answer] else promises;
    forall m | m in networks + [n] && IsPromise(Get(before, m).1)
      ensures exists a :: a in promises' && IsPromise(a) && a.call < |s'.calls| && s'.calls[a.call].network == m
    {
      if m in networks {
        var a :| a in promises && IsPromise(a) && a.call < |s.calls| && s.calls[a.call].network == m;
        assert a in promises' && s'.calls[a.call] == s.calls[a.call];
      } else {
        assert answer in promises' && s'.calls[answer.call].network == n;
      }
    }
  }

  /**
   handleBeforeUpload. If a token is pending the batch does not start and no file is touched; the
   networks concerned are being asked, and their promises are what the restart waits for.
   Otherwise it starts, the token cache is as before, and each file carries the token of its own
   network if there is one.
   */
  method HandleBeforeUpload(files: seq<FileObj>, tokenManager: TokenManager, now: int)
    returns (started: bool, tokenPromises: seq<Answer>)
    modifies tokenManager.cacheLoader, set f | f in files
    ensures started <==> forall f :: f in files ==> !IsPromise(Get(old(tokenManager.View(now)), f.network).1)
    ensures started <==> tokenPromises == []
    ensures started ==> tokenManager.View(now) == old(tokenManager.View(now))
    ensures started ==> forall f :: f in files ==>
      match Get(old(tokenManager.View(now)), f.network).1
      case Now(Some(token)) => f.meta == if token != "" then old(f.meta)["extjwt" := token] else old(f.meta)
      case _ => f.meta == old(f.meta)
    ensures !started ==> forall f :: f in files ==> f.meta == old(f.meta)
    ensures !started ==>
      exists networks :: NetworksOf(networks, files) && tokenManager.View(now) == GetEach(old(tokenManager.View(now)), networks)
        && (LoadingExact(old(tokenManager.View(now))) ==>
              PromisesFor(old(tokenManager.View(now)), tokenManager.View(now), networks, tokenPromises))
    ensures !started ==> forall f :: f in files && IsPromise(Get(old(tokenManager.View(now)), f.network).1) ==>
      f.network in tokenManager.cacheLoader.loading
  {
    ghost var before := tokenManager.View(now);
    var uniqNetworks := UniqueNetworks(files);
    tokenPromises := AskEach(uniqNetworks, tokenManager, now);
    if tokenPromises != [] {
      forall f | f in files && IsPromise(Get(before, f.network).1) ensures f.network in tokenManager.cacheLoader.loading {
        PromisedAreLoading(before, uniqNetworks, f.network);
      }
      return false, tokenPromises;
    }
    SynchronousAsksChangeNothing(before, uniqNetworks);
    StampFiles(files, tokenManager, now);
    return true, [];
  }

  /** The first loop: asks for every network's token and keeps the answers that are promises. */
  method AskEach(networks: seq<Network>, tokenManager: TokenManager, now: int) returns (tokenPromises: seq<Answer>)
    modifies tokenManager.cacheLoader
    ensures tokenManager.View(now) == GetEach(old(tokenManager.View(now)), networks)
    ensures tokenPromises != [] <==> exists n :: n in networks && IsPromise(Get(old(tokenManager.View(now)), n).1)
    ensures LoadingExact(old(tokenManager.View(now))) ==>
      PromisesFor(old(tokenManager.View(now)), tokenManager.View(now), networks, tokenPromises)
  {
    ghost var before := tokenManager.View(now);
    tokenPromises := [];
    assert networks[..0] == [];
    for i := 0 to |networks|
      invariant tokenManager.View(now) == GetEach(before, networks[..i])
      invariant tokenPromises != [] <==> exists n :: n in networks[..i] && IsPromise(Get(before, n).1)
      invariant LoadingExact(before) ==>
        LoadingExact(tokenManager.View(now)) && PromisesFor(before, tokenManager.View(now), networks[..i], tokenPromises)
    {
      assert networks[..i + 1][..i] == networks[..i] && networks[..i + 1] == networks[..i] + [networks[i]];
      AnswersIndependent(before, networks[..i], networks[i]);
      if LoadingExact(before) {
        OneMorePromise(before, tokenManager.View(now), networks[..i], tokenPromises, networks[i]);
      }
      var token := tokenManager.Get(networks[i], now);
      if IsPromise(token) {
        tokenPromises := tokenPromises + [token];
      }
    }
    assert networks[..|networks|] == networks;
  }

  /**
   The restart: Promise.all over the promises calls the handler again once all are fulfilled. It
   then starts the batch, if their requests settled in the last 15 seconds and every network that
   needed none lately gave a token or refused. (For the whole of a batch AnsweredAtOnceIff says when.)
   */
  lemma RestartStarts(steps: seq<Step>, networks: seq<Network>, promises: seq<Answer>)
    requires EnabledRun(steps)
    requires forall a :: a in promises ==>
      && IsPromise(a) && a.call < |Run(steps).calls|
      && Fulfilled(Run(steps), a) && !Unfinished(Run(steps).calls[a.call])
      && Run(steps).now - SettledAt(Run(steps).calls[a.call]).value <= 15_000
    requires forall n :: n in networks ==>
      || (exists a :: a in promises && IsPromise(a) && Run(steps).calls[a.call].network == n)
      || LatelyRefused(Run(steps), n)
      || LatelyLoaded(Run(steps), n)
    ensures forall n :: n in networks ==> !IsPromise(Get(Run(steps), n).1)
  {
    forall n | n in networks ensures !IsPromise(Get(Run(steps), n).1) {
      if a :| a in promises && IsPromise(a) && Run(steps).calls[a.call].network == n {
        FulfilledIsAnswered(steps, a);
      } else {
        AnsweredAtOnceIff(steps, n);
      }
    }
  }

  method UniqueNetworks(files: seq<FileObj>) returns (networks: seq<Network>)
    ensures NetworksOf(networks, files)
  {
    networks := [];
    for i := 0 to |files|
      invariant Distinct(networks)
      invariant forall n :: n in networks <==> exists j :: 0 <= j < i && files[j].network == n
    {
      if files[i].network !in networks {
        networks := networks + [files[i].network];
      }
    }
  }

  /** The second loop: asks again for each file and writes the token into its meta object. */
  method StampFiles(files: seq<FileObj>, tokenManager: TokenManager, now: int)
    requires forall f :: f in files ==> !IsPromise(Get(tokenManager.View(now), f.network).1)
    modifies tokenManager.cacheLoader, set f | f in files
    ensures tokenManager.View(now) == old(tokenManager.View(now))
    ensures forall f :: f in files ==>
      match Get(tokenManager.View(now), f.network).1
      case Now(Some(token)) => f.meta == if token != "" then old(f.meta)["extjwt" := token] else old(f.meta)
      case _ => f.meta == old(f.meta)
  {
    ghost var before := tokenManager.View(now);
    for i := 0 to |files|
      invariant tokenManager.View(now) == before
      invariant forall f :: f in files ==>
        f.meta == if f in files[..i] then Stamped(old(f.meta), Get(before, f.network).1) else old(f.meta)
    {
      assert files[i] in files;
      var token := tokenManager.Get(files[i].network, now);
      if TokenOf(token).Some? {
        files[i].meta := files[i].meta["extjwt" := TokenOf(token).value];
      }
      assert forall f :: f in files[..i + 1] <==> f in files[..i] || f == files[i];
    }
  }
}
