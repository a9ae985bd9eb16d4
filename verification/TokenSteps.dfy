/**
 The browser side's token cache: a single-flight CacheLoader, and a TokenManager that asks IRC
 networks for EXTJWT tokens. Each synchronous stretch of the JavaScript, from one await to the
 next, is one step; steps of different calls interleave freely.
 */
module TokenSteps {
  import opened Bytes

  /** An IRC network, by identity. */
  type Network = nat

  /** Milliseconds. */
  const TOKEN_LIMIT := 15_000
  const UNSUPPORTED_TTL := 300_000

  /** None is an undefined token. */
  datatype Record = Record(token: Option<string>, acquiredAt: int)

  /** assertValid does not throw. */
  predicate IsValid(r: Record, now: int) {
    now - r.acquiredAt <= TOKEN_LIMIT
  }

  // ------------------------------------------------------------------ messages

  datatype Message = Message(command: string, params: seq<string>)

  /** What the promise for the server's response settles with. */
  datatype Reply = TokenReply(token: Option<string>) | CommandUnknown | Lost

  function Upper(s: string): string {
    seq(|s|, i requires 0 <= i < |s| => if 'a' <= s[i] <= 'z' then (s[i] as int - 32) as char else s[i])
  }

  /** The matcher; None leaves the listener waiting. A 421 without a second parameter makes it throw. */
  function Classify(m: Message): Option<Reply> {
    if m.command == "421" && |m.params| < 2 then Some(Lost)
    else if m.command == "421" && Upper(m.params[1]) == "EXTJWT" then Some(CommandUnknown)
    else if Upper(m.command) == "EXTJWT" && |m.params| > 0 && m.params[0] == "*"
    then Some(TokenReply(if |m.params| > 1 then Some(m.params[1]) else None))
    else None
  }

  // ------------------------------------------------------------------ state

  /** How the promise of requestToken, or that of load, settles. */
  datatype Outcome = Value(record: Record) | Unsupported | Rejected

  /** Progress of one loader call: response awaited, response there, requestToken returned, load past its finally. */
  datatype Phase =
    | Waiting
    | Answered(reply: Reply)
    | Settled(outcome: Outcome, at: int)
    | Finished(outcome: Outcome, at: int, result: Outcome, finishedAt: int)

  datatype Call = Call(network: Network, sentAt: int, phase: Phase)

  datatype State = State(
    now: int,
    cache: map<Network, Record>,
    loading: map<Network, nat>,
    unsupported: map<Network, int>,
    calls: seq<Call>)

  const FRESH := State(0, map[], map[], map[], [])

  /** What TokenManager.get returns at once: false, a token, or a promise on a call it started or joined. */
  datatype Answer = No | Now(token: Option<string>) | Started(call: nat) | Joined(call: nat)

  predicate IsPromise(a: Answer) {
    a.Started? || a.Joined?
  }

  // ------------------------------------------------------------------ steps

  datatype Step =
    | Tick(elapsed: nat)
    | Ask(network: Network)
    | Receive(network: Network, message: Message)
    | Expire(call: nat)          // the response timer
    | ResumeRequest(call: nat)   // requestToken after its await
    | ResumeLoad(call: nat)      // load after its await

  function PhaseOf(s: State, call: nat): Option<Phase> {
    if call < |s.calls| then Some(s.calls[call].phase) else None
  }

  predicate Enabled(s: State, step: Step) {
    match step
    case Expire(k) => PhaseOf(s, k) == Some(Waiting)
    case ResumeRequest(k) => PhaseOf(s, k).Some? && PhaseOf(s, k).value.Answered?
    case ResumeLoad(k) => PhaseOf(s, k).Some? && PhaseOf(s, k).value.Settled?
    case _ => true
  }

  function SetPhase(s: State, call: nat, phase: Phase): State
    requires call < |s.calls|
  {
    s.(calls := s.calls[call := s.calls[call].(phase := phase)])
  }

  /** CacheLoader.load up to its await, the loader being requestToken. */
  function Load(s: State, n: Network): (State, Answer) {
    if n in s.loading then (s, Joined(s.loading[n]))
    else (s.(calls := s.calls + [Call(n, s.now, Waiting)], loading := s.loading[n := |s.calls|]), Started(|s.calls|))
  }

  /** TokenManager.get. */
  function Get(s: State, n: Network): (State, Answer) {
    if n in s.unsupported && s.now - s.unsupported[n] < UNSUPPORTED_TTL then (s, No)
    else if n in s.cache && IsValid(s.cache[n], s.now) then (s, Now(s.cache[n].token))
    else Load(s, n)
  }

  function Heard(c: Call, n: Network, m: Message): Call {
    if c.network == n && c.phase == Waiting && Classify(m).Some? then c.(phase := Answered(Classify(m).value)) else c
  }

  /** requestToken after its await. */
  function Requested(s: State, k: nat): State
    requires Enabled(s, ResumeRequest(k))
  {
    match s.calls[k].phase.reply
    case TokenReply(token) => SetPhase(s, k, Settled(Value(Record(token, s.now)), s.now))
    case CommandUnknown =>
      SetPhase(s, k, Settled(Unsupported, s.now)).(unsupported := s.unsupported[s.calls[k].network := s.now])
    case Lost => SetPhase(s, k, Settled(Rejected, s.now))
  }

  /** load after its await: the value is checked before it is cached, and the key leaves `loading` in any case. */
  function Loaded(s: State, k: nat): State
    requires Enabled(s, ResumeLoad(k))
  {
    var n, outcome, at := s.calls[k].network, s.calls[k].phase.outcome, s.calls[k].phase.at;
    var s' := s.(loading := s.loading - {n});
    if outcome.Value? && IsValid(outcome.record, s.now)
    then SetPhase(s', k, Finished(outcome, at, outcome, s.now)).(cache := s.cache[n := outcome.record])
    else SetPhase(s', k, Finished(outcome, at, if outcome.Value? then Rejected else outcome, s.now))
  }

  function Next(s: State, step: Step): State
    requires Enabled(s, step)
  {
    match step
    case Tick(elapsed) => s.(now := s.now + elapsed)
    case Ask(n) => Get(s, n).0
    case Receive(n, m) => s.(calls := seq(|s.calls|, k requires 0 <= k < |s.calls| => Heard(s.calls[k], n, m)))
    case Expire(k) => SetPhase(s, k, Answered(Lost))
    case ResumeRequest(k) => Requested(s, k)
    case ResumeLoad(k) => Loaded(s, k)
  }

  /** What a promise handed out by get comes to: the token, false, or a rejection; None while it is pending. */
  datatype Delivery = Delivered(token: Option<string>) | DeliveredFalse | DeliveredRejection

  function Deliver(o: Outcome): Delivery {
    match o
    case Value(r) => Delivered(r.token)
    case Unsupported => DeliveredFalse
    case Rejected => DeliveredRejection
  }

  /** The caller that started the call waits for load, one that joined waits for the loader's own promise. */
  function Awaited(s: State, a: Answer): Option<Delivery>
    requires IsPromise(a)
  {
    match PhaseOf(s, a.call)
    case None => None
    case Some(phase) =>
      match phase
      case Settled(outcome, _) => if a.Joined? then Some(Deliver(outcome)) else None
      case Finished(outcome, _, result, _) => Some(Deliver(if a.Joined? then outcome else result))
      case _ => None
  }

  // ------------------------------------------------------------------ the invariant

  predicate Unfinished(c: Call) {
    !c.phase.Finished?
  }

  /** The call was answered 421, and this was recorded at time `at`. */
  predicate RefusedAt(c: Call, at: int) {
    (c.phase.Settled? || c.phase.Finished?) && c.phase.outcome == Unsupported && c.phase.at == at
  }

  /** The call ended with this record, which was valid at that moment. */
  predicate Yielded(c: Call, r: Record) {
    c.phase.Finished? && c.phase.result == Value(r) && IsValid(r, c.phase.finishedAt)
  }

  /** A network is in `loading`, with its call, iff that call has not run its finally. */
  ghost predicate LoadingExact(s: State) {
    && (forall n :: n in s.loading ==>
          s.loading[n] < |s.calls| && s.calls[s.loading[n]].network == n && Unfinished(s.calls[s.loading[n]]))
    && (forall k :: 0 <= k < |s.calls| && Unfinished(s.calls[k]) ==>
          s.calls[k].network in s.loading && s.loading[s.calls[k].network] == k)
  }

  /** A call to a network begins only when the earlier ones are past their finally. */
  ghost predicate OneAfterTheOther(s: State) {
    forall j, k :: 0 <= j < k < |s.calls| && s.calls[j].network == s.calls[k].network ==> !Unfinished(s.calls[j])
  }

  ghost predicate CacheSound(s: State) {
    forall n :: n in s.cache ==> exists k :: 0 <= k < |s.calls| && s.calls[k].network == n && Yielded(s.calls[k], s.cache[n])
  }

  ghost predicate RefusalsRecorded(s: State) {
    forall k, at :: 0 <= k < |s.calls| && RefusedAt(s.calls[k], at) ==>
      s.calls[k].network in s.unsupported && at <= s.unsupported[s.calls[k].network] <= s.now
  }

  /** No request goes to a network before the time to live of an earlier refusal has passed. */
  ghost predicate NotPestered(s: State) {
    forall j, k, at :: 0 <= j < k < |s.calls| && s.calls[j].network == s.calls[k].network && RefusedAt(s.calls[j], at) ==>
      s.calls[k].sentAt >= at + UNSUPPORTED_TTL
  }

  ghost predicate RefusalsHeard(s: State) {
    forall k :: 0 <= k < |s.calls| && s.calls[k].phase.Finished? && s.calls[k].phase.outcome == Unsupported ==>
      s.calls[k].phase.result == Unsupported
  }

  ghost predicate Inv(s: State) {
    LoadingExact(s) && OneAfterTheOther(s) && CacheSound(s) && RefusalsRecorded(s) && NotPestered(s) && RefusalsHeard(s)
  }

  /** What a step that changes no key set does to the calls keeps `loading` exact. */
  lemma LoadingKeptByCalls(s: State, s': State)
    requires LoadingExact(s) && s'.loading == s.loading && |s'.calls| == |s.calls|
    requires forall k :: 0 <= k < |s.calls| ==>
      s'.calls[k].network == s.calls[k].network && (Unfinished(s'.calls[k]) <==> Unfinished(s.calls[k]))
    ensures LoadingExact(s')
  {
  }

  lemma LoadingKept(s: State, step: Step)
    requires LoadingExact(s) && Enabled(s, step)
    ensures LoadingExact(Next(s, step))
  {
    match step
    case Tick(_) =>
    case Ask(n) => LoadingKeptByAsk(s, n);
    case Receive(_, _) => LoadingKeptByCalls(s, Next(s, step));
    case Expire(_) => LoadingKeptByCalls(s, Next(s, step));
    case ResumeRequest(_) => LoadingKeptByCalls(s, Next(s, step));
    case ResumeLoad(k) => LoadingKeptByLoaded(s, k);
  }

  lemma LoadingKeptByAsk(s: State, n: Network)
    requires LoadingExact(s)
    ensures LoadingExact(Get(s, n).0)
  {
    var s' := Load(s, n).0;
    forall k | 0 <= k < |s'.calls| && Unfinished(s'.calls[k])
      ensures s'.calls[k].network in s'.loading && s'.loading[s'.calls[k].network] == k
    {
      assert k < |s.calls| ==> s'.calls[k] == s.calls[k];
    }
  }

  lemma LoadingKeptByLoaded(s: State, k: nat)
    requires LoadingExact(s) && Enabled(s, ResumeLoad(k))
    ensures LoadingExact(Loaded(s, k))
  {
    var s' := Loaded(s, k);
    assert s'.loading == s.loading - {s.calls[k].network};
    forall j | 0 <= j < |s.calls| && j != k ensures s'.calls[j] == s.calls[j] {}
    assert Unfinished(s.calls[k]) && !Unfinished(s'.calls[k]);
  }

  /** A call keeps its network and the time it was sent, and once it has ended it stays as it is. */
  lemma SameCall(s: State, step: Step, k: nat)
    requires Enabled(s, step) && k < |s.calls|
    ensures var c, c' := s.calls[k], Next(s, step).calls[k];
      c'.network == c.network && c'.sentAt == c.sentAt && (c.phase.Finished? ==> c' == c)
  {
  }

  lemma OrderKept(s: State, step: Step)
    requires LoadingExact(s) && OneAfterTheOther(s) && Enabled(s, step)
    ensures OneAfterTheOther(Next(s, step))
  {
    var s' := Next(s, step);
    forall j, k | 0 <= j < k < |s'.calls| && s'.calls[j].network == s'.calls[k].network
      ensures !Unfinished(s'.calls[j])
    {
      SameCall(s, step, j);
      if k < |s.calls| {
        SameCall(s, step, k);
        assert !Unfinished(s.calls[j]);
      }
    }
  }

  lemma CacheKept(s: State, step: Step)
    requires CacheSound(s) && Enabled(s, step)
    ensures CacheSound(Next(s, step))
  {
    var s' := Next(s, step);
    forall n | n in s'.cache
      ensures exists k :: 0 <= k < |s'.calls| && s'.calls[k].network == n && Yielded(s'.calls[k], s'.cache[n])
    {
      if n in s.cache && s'.cache[n] == s.cache[n] {
        var k :| 0 <= k < |s.calls| && s.calls[k].network == n && Yielded(s.calls[k], s.cache[n]);
        assert s'.calls[k] == s.calls[k];
      } else {
        assert s'.calls[step.call].network == n && Yielded(s'.calls[step.call], s'.cache[n]);
      }
    }
  }

  lemma RefusalsKept(s: State, step: Step)
    requires RefusalsRecorded(s) && RefusalsHeard(s) && Enabled(s, step)
    ensures RefusalsRecorded(Next(s, step)) && RefusalsHeard(Next(s, step))
  {
    var s' := Next(s, step);
    forall k, at | 0 <= k < |s'.calls| && RefusedAt(s'.calls[k], at)
      ensures s'.calls[k].network in s'.unsupported && at <= s'.unsupported[s'.calls[k].network] <= s'.now
    {
      assert RefusedAt(s.calls[k], at) || (step == ResumeRequest(k) && at == s.now);
    }
  }

  lemma NotPesteredKept(s: State, step: Step)
    requires OneAfterTheOther(s) && RefusalsRecorded(s) && NotPestered(s) && Enabled(s, step)
    ensures NotPestered(Next(s, step))
  {
    var s' := Next(s, step);
    forall j, k, at | 0 <= j < k < |s'.calls| && s'.calls[j].network == s'.calls[k].network && RefusedAt(s'.calls[j], at)
      ensures s'.calls[k].sentAt >= at + UNSUPPORTED_TTL
    {
      if k < |s.calls| {
        SameCall(s, step, j);
        SameCall(s, step, k);
        assert !Unfinished(s.calls[j]);
      }
      assert RefusedAt(s.calls[j], at);
    }
  }

  // ------------------------------------------------------------------ every run

  predicate EnabledRun(steps: seq<Step>)
    decreases |steps|, 0
  {
    steps == [] || (EnabledRun(steps[..|steps| - 1]) && Enabled(Run(steps[..|steps| - 1]), steps[|steps| - 1]))
  }

  function Run(steps: seq<Step>): State
    requires EnabledRun(steps)
    decreases |steps|, 1
  {
    if steps == [] then FRESH else Next(Run(steps[..|steps| - 1]), steps[|steps| - 1])
  }

  lemma {:induction false} RunKeepsInv(steps: seq<Step>)
    requires EnabledRun(steps)
    ensures Inv(Run(steps))
    decreases |steps|
  {
    if steps != [] {
      var s, step := Run(steps[..|steps| - 1]), steps[|steps| - 1];
      RunKeepsInv(steps[..|steps| - 1]);
      LoadingKept(s, step);
      OrderKept(s, step);
      CacheKept(s, step);
      RefusalsKept(s, step);
      NotPesteredKept(s, step);
    }
  }

  /** Single flight: in every run at most one call per network is unfinished. */
  lemma SingleFlight(steps: seq<Step>, j: nat, k: nat)
    requires EnabledRun(steps) && j < |Run(steps).calls| && k < |Run(steps).calls|
    requires Run(steps).calls[j].network == Run(steps).calls[k].network
    requires Unfinished(Run(steps).calls[j]) && Unfinished(Run(steps).calls[k])
    ensures j == k
  {
    RunKeepsInv(steps);
  }

  /** In every run a network is in `loading` iff it has a call that has not run its finally. */
  lemma LoadingIffUnfinished(steps: seq<Step>, n: Network)
    requires EnabledRun(steps)
    ensures n in Run(steps).loading <==>
      exists k :: 0 <= k < |Run(steps).calls| && Run(steps).calls[k].network == n && Unfinished(Run(steps).calls[k])
  {
    RunKeepsInv(steps);
  }

  /** Each cached record is what a finished call to that network yielded, and was valid when it was stored. */
  lemma CachedWasValid(steps: seq<Step>, n: Network)
    requires EnabledRun(steps) && n in Run(steps).cache
    ensures var s := Run(steps);
      exists k :: 0 <= k < |s.calls| && s.calls[k].network == n && Yielded(s.calls[k], s.cache[n])
  {
    RunKeepsInv(steps);
  }

  /** A token returned at once was acquired from that network at most 15 seconds ago, and asking changed nothing. */
  lemma SynchronousTokenIsFresh(steps: seq<Step>, n: Network)
    requires EnabledRun(steps) && Get(Run(steps), n).1.Now?
    ensures var s := Run(steps);
      && Get(s, n).0 == s
      && exists k, r :: 0 <= k < |s.calls| && s.calls[k].network == n && Yielded(s.calls[k], r)
           && Get(s, n).1 == Now(r.token) && s.now - r.acquiredAt <= 15_000
  {
    RunKeepsInv(steps);
  }

  /**
   Unsupported networks are left alone: in every run, a request to a network that refused an
   earlier one is sent no sooner than five minutes after the refusal was recorded.
   */
  lemma UnsupportedLeftAlone(steps: seq<Step>, j: nat, at: int, k: nat)
    requires EnabledRun(steps) && j < k < |Run(steps).calls|
    requires Run(steps).calls[k].network == Run(steps).calls[j].network && RefusedAt(Run(steps).calls[j], at)
    ensures Run(steps).calls[k].sentAt - at >= 300_000
  {
    RunKeepsInv(steps);
  }

  /** Until then get answers false at once and changes nothing. */
  lemma RefusedNetworkAnswersFalse(steps: seq<Step>, j: nat, at: int)
    requires EnabledRun(steps) && j < |Run(steps).calls| && RefusedAt(Run(steps).calls[j], at)
    requires Run(steps).now - at < 300_000
    ensures Get(Run(steps), Run(steps).calls[j].network) == (Run(steps), No)
  {
    RunKeepsInv(steps);
  }

  /** Every caller waiting on the refused request gets false: one that joined it at once, the one that started it after its finally. */
  lemma WaitersGetFalse(steps: seq<Step>, j: nat, at: int)
    requires EnabledRun(steps) && j < |Run(steps).calls| && RefusedAt(Run(steps).calls[j], at)
    ensures Awaited(Run(steps), Joined(j)) == Some(DeliveredFalse)
    ensures Awaited(Run(steps), Started(j)) == if Unfinished(Run(steps).calls[j]) then None else Some(DeliveredFalse)
  {
    RunKeepsInv(steps);
  }

  // ------------------------------------------------------------------ where tokens come from

  /** The word EXTJWT, each letter in either case. */
  predicate SaysExtjwt(text: string) {
    && |text| == 6
    && text[0] in "Ee" && text[1] in "Xx" && text[2] in "Tt" && text[3] in "Jj" && text[4] in "Ww" && text[5] in "Tt"
  }

  lemma UpperIsExtjwt(text: string)
    ensures Upper(text) == "EXTJWT" <==> SaysExtjwt(text)
  {
    if SaysExtjwt(text) {
      assert Upper(text) == "EXTJWT";
    }
    if Upper(text) == "EXTJWT" {
      assert |Upper(text)| == 6;
      assert Upper(text)[0] == 'E' && Upper(text)[1] == 'X' && Upper(text)[2] == 'T';
      assert Upper(text)[3] == 'J' && Upper(text)[4] == 'W' && Upper(text)[5] == 'T';
    }
  }

  /** A message that hands out this token. */
  predicate Grants(m: Message, token: Option<string>) {
    && SaysExtjwt(m.command)
    && |m.params| > 0 && m.params[0] == "*"
    && token == (if |m.params| > 1 then Some(m.params[1]) else None)
  }

  /** A message that says EXTJWT is no command there. */
  predicate Refuses(m: Message) {
    m.command == "421" && |m.params| > 1 && SaysExtjwt(m.params[1])
  }

  /** The matcher settles the request exactly on these messages, and on a 421 that makes it throw. */
  lemma MatcherIsExact(m: Message)
    ensures forall token :: Classify(m) == Some(TokenReply(token)) <==> Grants(m, token)
    ensures Classify(m) == Some(CommandUnknown) <==> Refuses(m)
    ensures Classify(m) == Some(Lost) <==> m.command == "421" && |m.params| < 2
  {
    UpperIsExtjwt(m.command);
    if |m.params| > 1 {
      UpperIsExtjwt(m.params[1]);
    }
  }

  /** A message of the network that hands out a token settles the waiting request with it; it is cached and delivered. */
  lemma GrantIsDelivered(s: State, k: nat, m: Message, token: Option<string>)
    requires PhaseOf(s, k) == Some(Waiting) && Grants(m, token)
    ensures var n := s.calls[k].network;
      var s1 := Next(s, Receive(n, m));
      && Enabled(s1, ResumeRequest(k))
      && var s2 := Next(s1, ResumeRequest(k));
      && Awaited(s2, Joined(k)) == Some(Delivered(token)) && Enabled(s2, ResumeLoad(k))
      && var s3 := Next(s2, ResumeLoad(k));
      && Awaited(s3, Started(k)) == Some(Delivered(token))
      && s3.cache == s.cache[n := Record(token, s.now)] && s3.loading == s.loading - {n} && s3.unsupported == s.unsupported
  {
    MatcherIsExact(m);
  }

  /** One that refuses settles it with false, which is noted with the time. */
  lemma RefusalIsDelivered(s: State, k: nat, m: Message)
    requires PhaseOf(s, k) == Some(Waiting) && Refuses(m)
    ensures var n := s.calls[k].network;
      var s1 := Next(s, Receive(n, m));
      && Enabled(s1, ResumeRequest(k))
      && var s2 := Next(s1, ResumeRequest(k));
      && Awaited(s2, Joined(k)) == Some(DeliveredFalse) && Enabled(s2, ResumeLoad(k))
      && var s3 := Next(s2, ResumeLoad(k));
      && Awaited(s3, Started(k)) == Some(DeliveredFalse)
      && s3.cache == s.cache && s3.loading == s.loading - {n} && s3.unsupported == s.unsupported[n := s.now]
  {
    MatcherIsExact(m);
  }

  /** When the timer runs out, those who wait get a rejection, and nothing is noted. */
  lemma ExpiryIsRejection(s: State, k: nat)
    requires PhaseOf(s, k) == Some(Waiting)
    ensures var n, s1 := s.calls[k].network, Next(s, Expire(k));
      && Enabled(s1, ResumeRequest(k))
      && var s2 := Next(s1, ResumeRequest(k));
      && Awaited(s2, Joined(k)) == Some(DeliveredRejection) && Enabled(s2, ResumeLoad(k))
      && var s3 := Next(s2, ResumeLoad(k));
      && Awaited(s3, Started(k)) == Some(DeliveredRejection)
      && s3.cache == s.cache && s3.loading == s.loading - {n} && s3.unsupported == s.unsupported
  {
  }

  /** Any other message leaves the request waiting, and so does every message of another network. */
  lemma OthersLeaveItWaiting(s: State, k: nat, n: Network, m: Message)
    requires PhaseOf(s, k) == Some(Waiting)
    requires n != s.calls[k].network || (!(exists token :: Grants(m, token)) && !Refuses(m) && !(m.command == "421" && |m.params| < 2))
    ensures PhaseOf(Next(s, Receive(n, m)), k) == Some(Waiting)
  {
    MatcherIsExact(m);
  }

  /** Step i finds the request of call k sent and without a response. */
  predicate AwaitedAt(steps: seq<Step>, i: nat, k: nat) {
    && i < |steps|
    && EnabledRun(steps[..i])
    && PhaseOf(Run(steps[..i]), k) == Some(Waiting)
  }

  /** A message from that network, received while the request was waiting, bears out what call k was told. */
  ghost predicate BorneOut(steps: seq<Step>, k: nat, n: Network, r: Reply) {
    match r
    case TokenReply(token) => exists i: nat, m :: AwaitedAt(steps, i, k) && steps[i] == Receive(n, m) && Grants(m, token)
    case CommandUnknown => exists i: nat, m :: AwaitedAt(steps, i, k) && steps[i] == Receive(n, m) && Refuses(m)
    case Lost => true
  }

  /** The answer behind the phase of a call. */
  function ReplyBehind(p: Phase): Reply {
    match p
    case Waiting => Lost
    case Answered(reply) => reply
    case Settled(outcome, _) => ReplyOf(outcome)
    case Finished(outcome, _, _, _) => ReplyOf(outcome)
  }

  function ReplyOf(o: Outcome): Reply {
    match o
    case Value(r) => TokenReply(r.token)
    case Unsupported => CommandUnknown
    case Rejected => Lost
  }

  lemma BorneOutLater(steps: seq<Step>, step: Step, k: nat, n: Network, r: Reply)
    requires BorneOut(steps, k, n, r)
    ensures BorneOut(steps + [step], k, n, r)
  {
    match r
    case TokenReply(token) =>
      var i: nat, m :| AwaitedAt(steps, i, k) && steps[i] == Receive(n, m) && Grants(m, token);
      assert (steps + [step])[..i] == steps[..i];
      assert AwaitedAt(steps + [step], i, k) && (steps + [step])[i] == Receive(n, m);
    case CommandUnknown =>
      var i: nat, m :| AwaitedAt(steps, i, k) && steps[i] == Receive(n, m) && Refuses(m);
      assert (steps + [step])[..i] == steps[..i];
      assert AwaitedAt(steps + [step], i, k) && (steps + [step])[i] == Receive(n, m);
    case Lost =>
  }

  lemma HeardIsBorneOut(steps: seq<Step>, n: Network, m: Message, k: nat)
    requires EnabledRun(steps) && PhaseOf(Run(steps), k) == Some(Waiting)
    ensures var c := Run(steps).calls[k]; BorneOut(steps + [Receive(n, m)], k, c.network, ReplyBehind(Heard(c, n, m).phase))
  {
    MatcherIsExact(m);
    var all := steps + [Receive(n, m)];
    assert all[..|steps|] == steps;
    assert AwaitedAt(all, |steps|, k) && all[|steps|] == Receive(n, m);
  }

  /**
   Every token a call ends with is the second parameter of an EXTJWT message that its own network
   sent while the request was waiting, and a network counts as refusing only after its 421 for EXTJWT then.
   */
  lemma {:induction false} AnswersComeFromTheNetwork(steps: seq<Step>, k: nat)
    requires EnabledRun(steps) && k < |Run(steps).calls|
    ensures BorneOut(steps, k, Run(steps).calls[k].network, ReplyBehind(Run(steps).calls[k].phase))
    decreases |steps|
  {
    var earlier, step := steps[..|steps| - 1], steps[|steps| - 1];
    var s := Run(earlier);
    assert steps == earlier + [step];
    if k < |s.calls| {
      var c := s.calls[k];
      AnswersComeFromTheNetwork(earlier, k);
      BorneOutLater(earlier, step, k, c.network, ReplyBehind(c.phase));
      if step.Receive? && c.phase == Waiting {
        HeardIsBorneOut(earlier, step.network, step.message, k);
      }
      ReplyStays(s, step, k);
    }
  }

  /** Only a message to a waiting call brings a new reply. */
  lemma ReplyStays(s: State, step: Step, k: nat)
    requires Enabled(s, step) && k < |s.calls|
    ensures var c, c' := s.calls[k], Next(s, step).calls[k];
      && c'.network == c.network
      && if step.Receive? && c.phase == Waiting then c' == Heard(c, step.network, step.message)
         else ReplyBehind(c'.phase) == ReplyBehind(c.phase)
  {
  }
}
