/** What get answers at once is decided by the history of requests alone: the exact condition, in every run. */
module TokenHistory {
  import opened Bytes
  import opened TokenSteps

  // ------------------------------------------------------------------ the invariant

  /** When the loader's promise settled, if it did. */
  function SettledAt(c: Call): Option<int> {
    match c.phase
    case Settled(_, at) => Some(at)
    case Finished(_, at, _, _) => Some(at)
    case _ => None
  }

  function RecordOf(c: Call): Option<Record> {
    match c.phase
    case Settled(Value(r), _) => Some(r)
    case Finished(Value(r), _, _, _) => Some(r)
    case _ => None
  }

  predicate Timed(c: Call, now: int) {
    && c.sentAt <= now
    && (SettledAt(c).Some? ==> c.sentAt <= SettledAt(c).value <= now)
    && (RecordOf(c).Some? ==> SettledAt(c) == Some(RecordOf(c).value.acquiredAt))
    && (c.phase.Finished? ==>
          && c.phase.finishedAt <= now
          && c.phase.result ==
               if c.phase.outcome.Value? && !IsValid(c.phase.outcome.record, c.phase.finishedAt) then Rejected else c.phase.outcome)
  }

  ghost predicate AllTimed(s: State) {
    forall k :: 0 <= k < |s.calls| ==> Timed(s.calls[k], s.now)
  }

  /** A call to a network is sent no earlier than the one before settled. */
  ghost predicate InOrder(s: State) {
    forall j, k :: 0 <= j < k < |s.calls| && s.calls[j].network == s.calls[k].network && SettledAt(s.calls[j]).Some? ==>
      SettledAt(s.calls[j]).value <= s.calls[k].sentAt
  }

  /** The call ended with a record that is cached, or an older one. */
  predicate CachedSince(s: State, c: Call) {
    c.phase.Finished? && c.phase.result.Value? ==>
      c.network in s.cache && c.phase.result.record.acquiredAt <= s.cache[c.network].acquiredAt
  }

  ghost predicate CacheIsLatest(s: State) {
    forall k :: 0 <= k < |s.calls| ==> CachedSince(s, s.calls[k])
  }

  /** Call k ended with the record, and no later call to the network with any. */
  ghost predicate LastYield(s: State, n: Network, k: nat, r: Record) {
    && k < |s.calls| && s.calls[k].network == n && Yielded(s.calls[k], r)
    && forall j :: k < j < |s.calls| && s.calls[j].network == n ==> !(s.calls[j].phase.Finished? && s.calls[j].phase.result.Value?)
  }

  ghost predicate CacheFromLast(s: State) {
    forall n :: n in s.cache ==> exists k :: LastYield(s, n, k, s.cache[n])
  }

  ghost predicate RefusalsSound(s: State) {
    forall n :: n in s.unsupported ==>
      exists k :: 0 <= k < |s.calls| && s.calls[k].network == n && RefusedAt(s.calls[k], s.unsupported[n])
  }

  ghost predicate HistoryInv(s: State) {
    AllTimed(s) && InOrder(s) && CacheIsLatest(s) && CacheFromLast(s) && RefusalsSound(s)
  }

  lemma CallStaysTimed(s: State, step: Step, k: nat)
    requires Enabled(s, step) && k < |s.calls| && Timed(s.calls[k], s.now)
    ensures Timed(Next(s, step).calls[k], Next(s, step).now)
  {
    match step
    case ResumeRequest(_) =>
    case ResumeLoad(_) =>
    case _ =>
  }

  lemma TimedKept(s: State, step: Step)
    requires AllTimed(s) && Enabled(s, step)
    ensures AllTimed(Next(s, step))
  {
    var s' := Next(s, step);
    forall k | 0 <= k < |s'.calls| ensures Timed(s'.calls[k], s'.now) {
      if k < |s.calls| {
        CallStaysTimed(s, step, k);
      }
    }
  }

  lemma InOrderKept(s: State, step: Step)
    requires AllTimed(s) && InOrder(s) && OneAfterTheOther(s) && Enabled(s, step)
    ensures InOrder(Next(s, step))
  {
    var s' := Next(s, step);
    forall j, k | 0 <= j < k < |s'.calls| && s'.calls[j].network == s'.calls[k].network && SettledAt(s'.calls[j]).Some?
      ensures SettledAt(s'.calls[j]).value <= s'.calls[k].sentAt
    {
      assert Timed(s.calls[j], s.now);
      if k < |s.calls| {
        SameCall(s, step, j);
        SameCall(s, step, k);
        assert !Unfinished(s.calls[j]);
      }
    }
  }

  /** When a call ends, every other call to its network has ended, with an older record. */
  lemma LoadedIsLatest(s: State, k: nat, j: nat)
    requires AllTimed(s) && InOrder(s) && OneAfterTheOther(s) && LoadingExact(s) && Enabled(s, ResumeLoad(k))
    requires j < |s.calls| && j != k && s.calls[j].network == s.calls[k].network
    requires RecordOf(s.calls[j]).Some? && RecordOf(s.calls[k]).Some?
    ensures RecordOf(s.calls[j]).value.acquiredAt <= RecordOf(s.calls[k]).value.acquiredAt
  {
    assert Unfinished(s.calls[k]) && Timed(s.calls[j], s.now) && Timed(s.calls[k], s.now);
    assert j < k;
  }

  lemma LoadedCaches(s: State, k: nat, j: nat)
    requires AllTimed(s) && InOrder(s) && CacheIsLatest(s) && OneAfterTheOther(s) && LoadingExact(s)
    requires Enabled(s, ResumeLoad(k)) && j < |s.calls|
    ensures CachedSince(Loaded(s, k), Loaded(s, k).calls[j])
  {
    if j != k {
      assert CachedSince(s, s.calls[j]) && Timed(s.calls[j], s.now);
      if s.calls[j].network == s.calls[k].network && RecordOf(s.calls[j]).Some? && RecordOf(s.calls[k]).Some? {
        LoadedIsLatest(s, k, j);
      }
    }
  }

  lemma CacheStaysLatest(s: State, step: Step)
    requires AllTimed(s) && InOrder(s) && CacheIsLatest(s) && OneAfterTheOther(s) && LoadingExact(s) && Enabled(s, step)
    ensures CacheIsLatest(Next(s, step))
  {
    var s' := Next(s, step);
    forall j | 0 <= j < |s'.calls| ensures CachedSince(s', s'.calls[j]) {
      if step.ResumeLoad? {
        LoadedCaches(s, step.call, j);
      } else if j < |s.calls| {
        assert CachedSince(s, s.calls[j]);
      }
    }
  }

  /** The call that loads into the cache is the last one to its network. */
  lemma LoadedIsLast(s: State, k: nat)
    requires OneAfterTheOther(s) && LoadingExact(s) && Enabled(s, ResumeLoad(k))
    ensures forall j :: k < j < |s.calls| ==> s.calls[j].network != s.calls[k].network
  {
    assert Unfinished(s.calls[k]);
  }

  lemma CacheStaysFromLast(s: State, step: Step)
    requires CacheFromLast(s) && OneAfterTheOther(s) && LoadingExact(s) && Enabled(s, step)
    ensures CacheFromLast(Next(s, step))
  {
    var s' := Next(s, step);
    forall n | n in s'.cache ensures exists k :: LastYield(s', n, k, s'.cache[n]) {
      if step.ResumeLoad? && n == s.calls[step.call].network && s'.calls[step.call].phase.result.Value? {
        NewYield(s, step.call);
      } else {
        SameCached(s, step, n);
        var k: nat :| LastYield(s, n, k, s.cache[n]);
        LastYieldStays(s, step, n, k, s.cache[n]);
      }
    }
  }

  lemma NewYield(s: State, k: nat)
    requires OneAfterTheOther(s) && LoadingExact(s) && Enabled(s, ResumeLoad(k)) && Loaded(s, k).calls[k].phase.result.Value?
    ensures s.calls[k].network in Loaded(s, k).cache
    ensures LastYield(Loaded(s, k), s.calls[k].network, k, Loaded(s, k).cache[s.calls[k].network])
  {
    LoadedIsLast(s, k);
  }

  lemma SameCached(s: State, step: Step, n: Network)
    requires Enabled(s, step) && n in Next(s, step).cache
    requires !(step.ResumeLoad? && n == s.calls[step.call].network && Next(s, step).calls[step.call].phase.result.Value?)
    ensures n in s.cache && Next(s, step).cache[n] == s.cache[n]
  {
  }

  lemma LastYieldStays(s: State, step: Step, n: Network, k: nat, r: Record)
    requires Enabled(s, step) && LastYield(s, n, k, r)
    requires !(step.ResumeLoad? && n == s.calls[step.call].network && Next(s, step).calls[step.call].phase.result.Value?)
    ensures LastYield(Next(s, step), n, k, r)
  {
    var s' := Next(s, step);
    assert s'.calls[k] == s.calls[k];
    forall j | k < j < |s'.calls| && s'.calls[j].network == n
      ensures !(s'.calls[j].phase.Finished? && s'.calls[j].phase.result.Value?)
    {
      if j < |s.calls| {
        SameCall(s, step, j);
      }
    }
  }

  lemma RefusalStays(s: State, step: Step, k: nat, at: int)
    requires Enabled(s, step) && k < |s.calls| && RefusedAt(s.calls[k], at)
    ensures k < |Next(s, step).calls| && RefusedAt(Next(s, step).calls[k], at)
    ensures Next(s, step).calls[k].network == s.calls[k].network
  {
  }

  lemma RefusalsStaySound(s: State, step: Step)
    requires RefusalsSound(s) && Enabled(s, step)
    ensures RefusalsSound(Next(s, step))
  {
    var s' := Next(s, step);
    forall n | n in s'.unsupported
      ensures exists k :: 0 <= k < |s'.calls| && s'.calls[k].network == n && RefusedAt(s'.calls[k], s'.unsupported[n])
    {
      if n in s.unsupported && s'.unsupported[n] == s.unsupported[n] {
        var k :| 0 <= k < |s.calls| && s.calls[k].network == n && RefusedAt(s.calls[k], s.unsupported[n]);
        RefusalStays(s, step, k, s.unsupported[n]);
      } else {
        assert RefusedAt(s'.calls[step.call], s'.unsupported[n]);
      }
    }
  }

  lemma {:induction false} RunKeepsHistory(steps: seq<Step>)
    requires EnabledRun(steps)
    ensures HistoryInv(Run(steps))
    decreases |steps|
  {
    if steps != [] {
      var s, step := Run(steps[..|steps| - 1]), steps[|steps| - 1];
      RunKeepsInv(steps[..|steps| - 1]);
      RunKeepsHistory(steps[..|steps| - 1]);
      TimedKept(s, step);
      InOrderKept(s, step);
      CacheStaysLatest(s, step);
      CacheStaysFromLast(s, step);
      RefusalsStaySound(s, step);
    }
  }

  // ------------------------------------------------------------------ the exact condition

  /** Some request to the network was refused less than five minutes ago. */
  ghost predicate LatelyRefused(s: State, n: Network) {
    exists k, at :: 0 <= k < |s.calls| && s.calls[k].network == n && RefusedAt(s.calls[k], at) && s.now - at < 300_000
  }

  /** Some call to the network has ended with a token acquired at most 15 seconds ago. */
  ghost predicate LatelyLoaded(s: State, n: Network) {
    exists k, r :: 0 <= k < |s.calls| && s.calls[k].network == n && Yielded(s.calls[k], r) && s.now - r.acquiredAt <= 15_000
  }

  lemma AtOnceHasCause(s: State, n: Network)
    requires CacheSound(s) && RefusalsSound(s) && !IsPromise(Get(s, n).1)
    ensures LatelyRefused(s, n) || LatelyLoaded(s, n)
  {
    if n in s.unsupported && s.now - s.unsupported[n] < UNSUPPORTED_TTL {
      var k :| 0 <= k < |s.calls| && s.calls[k].network == n && RefusedAt(s.calls[k], s.unsupported[n]);
      assert LatelyRefused(s, n);
    } else {
      var k :| 0 <= k < |s.calls| && s.calls[k].network == n && Yielded(s.calls[k], s.cache[n]);
      assert LatelyLoaded(s, n);
    }
  }

  lemma RefusedIsAnswered(s: State, n: Network)
    requires RefusalsRecorded(s) && LatelyRefused(s, n)
    ensures !IsPromise(Get(s, n).1)
  {
    var k, at :| 0 <= k < |s.calls| && s.calls[k].network == n && RefusedAt(s.calls[k], at) && s.now - at < 300_000;
    assert n in s.unsupported && at <= s.unsupported[n];
  }

  lemma LoadedIsAnswered(s: State, n: Network)
    requires CacheIsLatest(s) && LatelyLoaded(s, n)
    ensures !IsPromise(Get(s, n).1)
  {
    var k, r :| 0 <= k < |s.calls| && s.calls[k].network == n && Yielded(s.calls[k], r) && s.now - r.acquiredAt <= 15_000;
    assert CachedSince(s, s.calls[k]);
  }

  /** In every run get has its answer at once exactly if the network lately refused or lately gave a token. */
  lemma AnsweredAtOnceIff(steps: seq<Step>, n: Network)
    requires EnabledRun(steps)
    ensures var s := Run(steps); !IsPromise(Get(s, n).1) <==> LatelyRefused(s, n) || LatelyLoaded(s, n)
  {
    RunKeepsInv(steps);
    RunKeepsHistory(steps);
    var s := Run(steps);
    if !IsPromise(Get(s, n).1) {
      AtOnceHasCause(s, n);
    } else if LatelyRefused(s, n) {
      RefusedIsAnswered(s, n);
    } else if LatelyLoaded(s, n) {
      LoadedIsAnswered(s, n);
    }
  }

  /** A call to the network is under way. */
  ghost predicate UnderWay(s: State, n: Network, k: nat) {
    k < |s.calls| && s.calls[k].network == n && Unfinished(s.calls[k])
  }

  /**
   What get does, in every run: it answers false exactly if the network lately refused; else, if the network
   lately gave a token, with the token of the last call that ended with one; else it joins the call under way, or
   sends a request if there is none. Only the last of these changes anything.
   */
  lemma GetIsExact(steps: seq<Step>, n: Network)
    requires EnabledRun(steps)
    ensures var s := Run(steps);
      var (s', answer) := Get(s, n);
      && (answer == No <==> LatelyRefused(s, n))
      && (!LatelyRefused(s, n) && LatelyLoaded(s, n) ==>
            exists k, r :: LastYield(s, n, k, r) && s.now - r.acquiredAt <= 15_000 && answer == Now(r.token))
      && (!LatelyRefused(s, n) && !LatelyLoaded(s, n) ==>
            || (exists k :: UnderWay(s, n, k) && answer == Joined(k))
            || ((forall k :: !UnderWay(s, n, k)) && answer == Started(|s.calls|)
                && s' == s.(calls := s.calls + [Call(n, s.now, Waiting)], loading := s.loading[n := |s.calls|])))
      && (!answer.Started? ==> s' == s)
  {
    RunKeepsInv(steps);
    RunKeepsHistory(steps);
    AnsweredAtOnceIff(steps, n);
    var s := Run(steps);
    RefusedAnswersNo(s, n);
    if !LatelyRefused(s, n) && LatelyLoaded(s, n) {
      assert n in s.cache && IsValid(s.cache[n], s.now);
      var k: nat :| LastYield(s, n, k, s.cache[n]);
      assert Get(s, n).1 == Now(s.cache[n].token);
    } else if !LatelyRefused(s, n) {
      if n in s.loading {
        assert UnderWay(s, n, s.loading[n]);
      }
    }
  }

  lemma RefusedAnswersNo(s: State, n: Network)
    requires RefusalsRecorded(s) && RefusalsSound(s)
    ensures Get(s, n).1 == No <==> LatelyRefused(s, n)
  {
    if Get(s, n).1 == No {
      var k :| 0 <= k < |s.calls| && s.calls[k].network == n && RefusedAt(s.calls[k], s.unsupported[n]);
    }
    if LatelyRefused(s, n) {
      var k, at :| 0 <= k < |s.calls| && s.calls[k].network == n && RefusedAt(s.calls[k], at) && s.now - at < 300_000;
      assert n in s.unsupported && at <= s.unsupported[n];
    }
  }

  /**
   What those who wait for a call get, in every run: who joined it, what its request came to; who started it, the same
   once the finally has run, but a rejection for a token more than 15 seconds old by then.
   */
  lemma WaitersGetOutcome(steps: seq<Step>, k: nat)
    requires EnabledRun(steps) && k < |Run(steps).calls|
    ensures var s, phase := Run(steps), Run(steps).calls[k].phase;
      && (phase.Waiting? || phase.Answered? ==> Awaited(s, Joined(k)) == None && Awaited(s, Started(k)) == None)
      && (phase.Settled? ==> Awaited(s, Started(k)) == None)
      && (phase.Settled? || phase.Finished? ==>
            match phase.outcome
            case Value(r) =>
              && Awaited(s, Joined(k)) == Some(Delivered(r.token))
              && (phase.Finished? ==>
                    Awaited(s, Started(k)) ==
                      Some(if phase.finishedAt - r.acquiredAt <= 15_000 then Delivered(r.token) else DeliveredRejection))
            case Unsupported =>
              && Awaited(s, Joined(k)) == Some(DeliveredFalse)
              && (phase.Finished? ==> Awaited(s, Started(k)) == Some(DeliveredFalse))
            case Rejected =>
              && Awaited(s, Joined(k)) == Some(DeliveredRejection)
              && (phase.Finished? ==> Awaited(s, Started(k)) == Some(DeliveredRejection)))
  {
    RunKeepsHistory(steps);
    assert Timed(Run(steps).calls[k], Run(steps).now);
  }

  predicate Fulfilled(s: State, a: Answer)
    requires IsPromise(a)
  {
    Awaited(s, a).Some? && Awaited(s, a) != Some(DeliveredRejection)
  }

  /** A promise that was fulfilled, its call being past its finally, makes get answer at once for the next 15 seconds. */
  lemma FulfilledIsAnswered(steps: seq<Step>, a: Answer)
    requires EnabledRun(steps) && IsPromise(a) && a.call < |Run(steps).calls|
    requires Fulfilled(Run(steps), a)
    requires !Unfinished(Run(steps).calls[a.call])
    requires Run(steps).now - SettledAt(Run(steps).calls[a.call]).value <= 15_000
    ensures !IsPromise(Get(Run(steps), Run(steps).calls[a.call].network).1)
  {
    RunKeepsInv(steps);
    RunKeepsHistory(steps);
    var s := Run(steps);
    var c := s.calls[a.call];
    assert Timed(c, s.now) && CachedSince(s, c);
    if c.phase.outcome == Unsupported {
      assert RefusedAt(c, c.phase.at);
    }
  }
}
