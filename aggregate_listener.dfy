/**
 * The listener that fans every load event out to a fixed array of listeners, isolating each
 * listener's exception so that it reaches neither the later listeners nor the publisher.
 */
module AggregateListener {
  import opened Wrappers
  import opened Errors
  import opened LoadEvents
  import opened Entities
  import VersionIndex
  import VersionListener

  /**
   * One listener of the array. What it does with an event is outside this model; what matters
   * here is whether its `publishEvent` returns normally or throws.
   */
  datatype Listener = Listener(accept: LoadEvent -> Option<Exception>)

  /** One delivery: which listener (by array position) got which event, and what it threw. */
  datatype Delivery = Delivery(listener: nat, event: LoadEvent, thrown: Option<Exception>)

  /** The deliveries of one event to a run of listeners, in array order. */
  function Fanout(listeners: seq<Listener>, event: LoadEvent): (d: seq<Delivery>)
    ensures |d| == |listeners|
    ensures forall i | 0 <= i < |d| :: d[i].listener == i && d[i].event == event
    ensures forall i | 0 <= i < |d| :: d[i].thrown == listeners[i].accept(event)
  {
    if |listeners| == 0 then []
    else
      var n := |listeners| - 1;
      Fanout(listeners[..n], event) + [Delivery(n, event, listeners[n].accept(event))]
  }

  /** A listener that throws does not keep any later listener from receiving the event. */
  lemma ThrowDoesNotStopLater(listeners: seq<Listener>, event: LoadEvent, i: nat, j: nat)
    requires i < j < |listeners|
    requires listeners[i].accept(event).Some?
    ensures Fanout(listeners, event)[i].thrown.Some?
    ensures Fanout(listeners, event)[j] == Delivery(j, event, listeners[j].accept(event))
  {
  }

  /** The four event kinds are forwarded alike: the same listeners in the same order. */
  lemma EventKindsForwardedAlike(listeners: seq<Listener>, first: LoadEvent, second: LoadEvent)
    ensures |Fanout(listeners, first)| == |Fanout(listeners, second)|
    ensures forall i | 0 <= i < |listeners| :: Fanout(listeners, first)[i].listener == Fanout(listeners, second)[i].listener
  {
  }

  /** Fanning out to a concatenation of arrays is fanning out to each, the second shifted. */
  lemma {:induction false} FanoutAppend(front: seq<Listener>, back: seq<Listener>, event: LoadEvent)
    ensures |Fanout(front + back, event)| == |front| + |back|
    ensures Fanout(front + back, event)[..|front|] == Fanout(front, event)
    ensures forall j | 0 <= j < |back| :: Fanout(front + back, event)[|front| + j] == Delivery(|front| + j, event, back[j].accept(event))
  {
    var all := Fanout(front + back, event);
    var head := Fanout(front, event);
    assert |all[..|front|]| == |head|;
    forall k | 0 <= k < |head|
      ensures all[..|front|][k] == head[k]
    {
      assert (front + back)[k] == front[k];
    }
    forall j | 0 <= j < |back|
      ensures all[|front| + j] == Delivery(|front| + j, event, back[j].accept(event))
    {
      assert (front + back)[|front| + j] == back[j];
    }
  }

  /** The version listener placed in the array: it throws only on a loaded entity that is not a policy. */
  ghost function VersionListenerOf(st: VersionIndex.IndexState): (l: Listener)
    ensures forall event :: l.accept(event) == VersionListener.React(st, event).thrown
  {
    Listener((event: LoadEvent) => VersionListener.React(st, event).thrown)
  }

  /**
   * A loaded entity that is not a policy makes the version listener throw, and the listener
   * after it in the array still receives the event.
   */
  lemma NonPolicyLoadStillReachesNext(st: VersionIndex.IndexState, next: Listener, info: EntityInfo,
                                      changeType: ChangeType, isBootstrap: bool)
    ensures var event := Operation(Loaded(OtherKind(info), changeType, isBootstrap));
      var d := Fanout([VersionListenerOf(st), next], event);
      d[0].thrown == Some(NotAPolicy(info)) && d[1] == Delivery(1, event, next.accept(event))
  {
  }

  /** `AggregateEntityLoadListener`: the listener array is fixed at construction. */
  class AggregateEntityLoadListener {
    const listeners: array<Listener>
    /** Every delivery made so far, in order; the logger's record of caught exceptions is part of it. */
    ghost var deliveries: seq<Delivery>

    constructor(listeners: array<Listener>)
      ensures this.listeners == listeners
      ensures deliveries == []
    {
      this.listeners := listeners;
      deliveries := [];
    }

    /**
     * `publishEvent` (all four overloads, through `executeOnAll`): each listener in array order
     * gets the event; whatever one throws is caught, and the method itself never throws.
     */
    method PublishEvent(event: LoadEvent)
      modifies this`deliveries
      ensures deliveries == old(deliveries) + Fanout(listeners[..], event)
    {
      ghost var before := deliveries;
      var i := 0;
      while i < listeners.Length
        invariant 0 <= i <= listeners.Length
        invariant deliveries == before + Fanout(listeners[..i], event)
      {
        var thrown := listeners[i].accept(event);
        deliveries := deliveries + [Delivery(i, event, thrown)];
        assert listeners[..i + 1][..i] == listeners[..i];
        i := i + 1;
      }
      assert listeners[..listeners.Length] == listeners[..];
    }
  }
}
