/**
 The event broadcaster as a state machine: registrations, the read loop's broadcasts split into
 their sends, and the listeners' receives, interleaving as the lock and the bounded channels allow.
 */
module EventSteps {
  import opened Bytes

  /** How many events a listener may leave unread before the broadcast blocks. */
  const BUFFER_SIZE := 16

  /** A channel with what its owner has taken from it, and how many broadcasts had begun when it was registered. */
  datatype Listener<E> = Listener(received: seq<E>, buffer: seq<E>, since: nat)

  /** The broadcast that holds the read lock, and the listener it sends to next. */
  datatype Broadcast<E> = Broadcast(event: E, next: nat)

  /** `log`: all events whose broadcast has begun. */
  datatype State<E> = State(listeners: seq<Listener<E>>, log: seq<E>, current: Option<Broadcast<E>>)

  datatype Step<E> =
    | Listen                // under the write lock
    | Begin(event: E)       // the read loop picks up an event and takes the read lock
    | Send                  // blocks while the buffer is full
    | End
    | Receive(listener: nat)

  predicate Enabled<E>(s: State<E>, step: Step<E>) {
    match step
    case Listen => s.current.None?
    case Begin(_) => s.current.None?
    case Send =>
      && s.current.Some?
      && s.current.value.next < |s.listeners|
      && |s.listeners[s.current.value.next].buffer| < BUFFER_SIZE
    case End => s.current.Some? && s.current.value.next == |s.listeners|
    case Receive(k) => k < |s.listeners| && |s.listeners[k].buffer| > 0
  }

  function Next<E>(s: State<E>, step: Step<E>): State<E>
    requires Enabled(s, step)
  {
    match step
    case Listen => s.(listeners := s.listeners + [Listener([], [], |s.log|)])
    case Begin(event) => s.(log := s.log + [event], current := Some(Broadcast(event, 0)))
    case Send =>
      var Broadcast(event, k) := s.current.value;
      var l := s.listeners[k];
      s.(listeners := s.listeners[k := l.(buffer := l.buffer + [event])], current := Some(Broadcast(event, k + 1)))
    case End => s.(current := None)
    case Receive(k) =>
      var l := s.listeners[k];
      s.(listeners := s.listeners[k := l.(received := l.received + [l.buffer[0]], buffer := l.buffer[1..])])
  }

  /** How many of the broadcasts begun have been sent to listener k: all but the one in progress, or all. */
  function SentTo<E>(s: State<E>, k: nat): int {
    if s.current.Some? && k >= s.current.value.next then |s.log| - 1 else |s.log|
  }

  ghost predicate ListenerSound<E>(s: State<E>, k: nat)
    requires k < |s.listeners|
  {
    var l := s.listeners[k];
    && l.since <= SentTo(s, k)
    && |l.buffer| <= BUFFER_SIZE
    && l.received + l.buffer == s.log[l.since..SentTo(s, k)]
  }

  ghost predicate Inv<E>(s: State<E>) {
    && (s.current.Some? ==>
          s.current.value.next <= |s.listeners| && s.log != [] && s.current.value.event == s.log[|s.log| - 1])
    && forall k :: 0 <= k < |s.listeners| ==> ListenerSound(s, k)
  }

  lemma InvKept<E>(s: State<E>, step: Step<E>)
    requires Inv(s) && Enabled(s, step)
    ensures Inv(Next(s, step))
  {
    var s' := Next(s, step);
    forall k | 0 <= k < |s'.listeners| ensures ListenerSound(s', k) {
      if k < |s.listeners| {
        var l, l' := s.listeners[k], s'.listeners[k];
        assert ListenerSound(s, k);
        assert l'.received + l'.buffer == l.received + l.buffer
          || (step.Send? && l'.received + l'.buffer == l.received + l.buffer + [s.log[|s.log| - 1]]);
        assert step.Begin? ==> s'.log[l.since..|s.log|] == s.log[l.since..|s.log|];
        assert step.Send? && k == s.current.value.next ==>
          s.log[l.since..|s.log| - 1] + [s.log[|s.log| - 1]] == s.log[l.since..|s.log|];
      }
    }
  }

  predicate EnabledRun<E>(steps: seq<Step<E>>)
    decreases |steps|, 0
  {
    |steps| == 0 || (EnabledRun(steps[..|steps| - 1]) && Enabled(Run(steps[..|steps| - 1]), steps[|steps| - 1]))
  }

  function Run<E>(steps: seq<Step<E>>): State<E>
    requires EnabledRun(steps)
    decreases |steps|, 1
  {
    if |steps| == 0 then State([], [], None) else Next(Run(steps[..|steps| - 1]), steps[|steps| - 1])
  }

  lemma {:induction false} RunKeepsInv<E>(steps: seq<Step<E>>)
    requires EnabledRun(steps)
    ensures Inv(Run(steps))
    decreases |steps|
  {
    if |steps| > 0 {
      RunKeepsInv(steps[..|steps| - 1]);
      InvKept(Run(steps[..|steps| - 1]), steps[|steps| - 1]);
    }
  }

  /** The events of the broadcasts begun, in order. */
  function Begun<E>(steps: seq<Step<E>>): seq<E> {
    if |steps| == 0 then []
    else Begun(steps[..|steps| - 1]) + if steps[|steps| - 1].Begin? then [steps[|steps| - 1].event] else []
  }

  /** For each registration, in order, how many broadcasts had begun before it. */
  function Registered<E>(steps: seq<Step<E>>): seq<nat> {
    if |steps| == 0 then []
    else
      var earlier := steps[..|steps| - 1];
      Registered(earlier) + if steps[|steps| - 1].Listen? then [|Begun(earlier)|] else []
  }

  /** The log is what was broadcast, and the listeners are those that registered, each since its registration. */
  lemma {:induction false} LogIsWhatBegan<E>(steps: seq<Step<E>>)
    requires EnabledRun(steps)
    ensures var s := Run(steps);
      && s.log == Begun(steps)
      && |s.listeners| == |Registered(steps)|
      && forall k :: 0 <= k < |s.listeners| ==> s.listeners[k].since == Registered(steps)[k]
    decreases |steps|
  {
    if |steps| > 0 {
      LogIsWhatBegan(steps[..|steps| - 1]);
    }
  }

  /**
   In every run, what a listener has received followed by what sits in its buffer is exactly the
   broadcasts since it registered, in order, up to the one in progress; no buffer exceeds 16, and
   nobody has registered in the middle of the broadcast in progress.
   */
  lemma OrderedFanOut<E>(steps: seq<Step<E>>, k: nat)
    requires EnabledRun(steps) && k < |Run(steps).listeners|
    ensures |Run(steps).listeners| == |Registered(steps)|
    ensures var s, begun := Run(steps), Begun(steps);
      var l, since := s.listeners[k], Registered(steps)[k];
      && since <= SentTo(s, k) <= |begun|
      && l.received + l.buffer == begun[since..SentTo(s, k)]
      && |l.buffer| <= 16
      && (s.current.None? ==> l.received + l.buffer == begun[since..])
      && (s.current.Some? ==>
            && begun != [] && s.current.value.event == begun[|begun| - 1]
            && SentTo(s, k) == if k < s.current.value.next then |begun| else |begun| - 1)
  {
    RunKeepsInv(steps);
    LogIsWhatBegan(steps);
    var s := Run(steps);
    assert ListenerSound(s, k);
    assert s.log[..|s.log|] == s.log;
  }

  /** How many events a listener has taken. */
  function Receives<E>(steps: seq<Step<E>>, k: nat): nat {
    if |steps| == 0 then 0
    else
      var step := steps[|steps| - 1];
      Receives(steps[..|steps| - 1], k) + if step.Receive? && step.listener == k then 1 else 0
  }

  lemma {:induction false} ReceivesAreCounted<E>(steps: seq<Step<E>>, k: nat)
    requires EnabledRun(steps)
    ensures Receives(steps, k) == if k < |Run(steps).listeners| then |Run(steps).listeners[k].received| else 0
    decreases |steps|
  {
    if |steps| > 0 {
      ReceivesAreCounted(steps[..|steps| - 1], k);
    }
  }

  /** The n receives of a listener deliver the first n broadcasts since its registration. */
  lemma ReceivesDeliverInOrder<E>(steps: seq<Step<E>>, k: nat)
    requires EnabledRun(steps) && k < |Run(steps).listeners| == |Registered(steps)|
    ensures var since, n := Registered(steps)[k], Receives(steps, k);
      && since + n <= |Begun(steps)|
      && Run(steps).listeners[k].received == Begun(steps)[since..since + n]
  {
    OrderedFanOut(steps, k);
    ReceivesAreCounted(steps, k);
    var l := Run(steps).listeners[k];
    assert l.received == (l.received + l.buffer)[..|l.received|];
  }

  /** A broadcast in progress is held up only by a full buffer, and one receive by its owner frees it. */
  lemma OnlyAFullBufferBlocks<E>(steps: seq<Step<E>>)
    requires EnabledRun(steps) && Run(steps).current.Some?
    ensures var s := Run(steps);
      || Enabled(s, Send) || Enabled(s, End)
      || (s.current.value.next < |s.listeners| && |s.listeners[s.current.value.next].buffer| == 16
          && Enabled(s, Receive(s.current.value.next)) && Enabled(Next(s, Receive(s.current.value.next)), Send))
  {
    RunKeepsInv(steps);
    var s := Run(steps);
    if s.current.value.next < |s.listeners| {
      assert ListenerSound(s, s.current.value.next);
    }
  }
}
