/** The broadcaster as a class over channels, with the sends of a broadcast as the loop they are. */
module EventBroadcaster {
  import opened EventSteps

  /** A bounded channel; `received` is what its owner has taken from it. */
  class Channel<E> {
    var buffer: seq<E>
    ghost var received: seq<E>

    constructor ()
      ensures buffer == [] && received == []
    {
      buffer, received := [], [];
    }

    /** All that was ever sent, in order. */
    ghost function Sent(): seq<E>
      reads this
    {
      received + buffer
    }

    method Send(event: E)
      requires |buffer| < BUFFER_SIZE
      modifies this
      ensures Sent() == old(Sent()) + [event]
      ensures received == old(received) && |buffer| == old(|buffer|) + 1
    {
      buffer := buffer + [event];
    }

    /** The owner takes some of the events waiting. */
    method Take(count: nat)
      requires count <= |buffer|
      modifies this
      ensures Sent() == old(Sent()) && |buffer| == old(|buffer|) - count
    {
      ghost var taken := buffer[..count];
      assert buffer == taken + buffer[count..];
      received := received + taken;
      buffer := buffer[count..];
    }
  }

  class TusEventBroadcaster<E> {
    var listeners: seq<Channel<E>>

    ghost predicate Valid()
      reads this, listeners
    {
      && (forall i, j :: 0 <= i < j < |listeners| ==> listeners[i] != listeners[j])
      && (forall l :: l in listeners ==> |l.buffer| <= BUFFER_SIZE)
    }

    constructor ()
      ensures Valid() && listeners == []
    {
      listeners := [];
    }

    method Listen() returns (newListener: Channel<E>)
      requires Valid()
      modifies this
      ensures Valid() && fresh(newListener) && listeners == old(listeners) + [newListener]
      ensures newListener.Sent() == []
      ensures forall l :: l in old(listeners) ==> unchanged(l)
    {
      newListener := new Channel();
      listeners := listeners + [newListener];
    }

    /** What the owners do while a send waits: any of them may take events, and the one waited for makes room. */
    method AwaitRoom(l: Channel<E>)
      requires Valid() && l in listeners
      modifies listeners
      ensures Valid() && |l.buffer| < BUFFER_SIZE
      ensures forall c :: c in listeners ==> c.Sent() == old(c.Sent())
    {
      for i := 0 to |listeners|
        invariant Valid()
        invariant forall c :: c in listeners ==> c.Sent() == old(c.Sent())
      {
        var count :| 0 <= count <= |listeners[i].buffer|;
        listeners[i].Take(count);
      }
      if |l.buffer| == BUFFER_SIZE {
        l.Take(1);
      }
    }

    /** Under the read lock: every listener is sent the event once, after all it was sent before. */
    method Broadcast(event: E)
      requires Valid()
      modifies listeners
      ensures Valid()
      ensures forall l :: l in listeners ==> l.Sent() == old(l.Sent()) + [event]
    {
      for i := 0 to |listeners|
        invariant Valid()
        invariant forall j :: 0 <= j < i ==> listeners[j].Sent() == old(listeners[j].Sent()) + [event]
        invariant forall j :: i <= j < |listeners| ==> listeners[j].Sent() == old(listeners[j].Sent())
      {
        var l := listeners[i];
        AwaitRoom(l);
        l.Send(event);
      }
    }
  }
}
