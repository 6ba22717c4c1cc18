/**
 * The message-bus service: one mutable registry of events, each event an
 * object whose subscriber list is updated in place. Every method is proved
 * against the value-level operation of module BusModel that it carries out
 * on Snapshot(), the registry's current contents.
 */
module MessagesBus {
  import opened Wrappers
  import opened BusModel
  import opened BusProperties

  /** The `messagesBusConstants` record shared by the whole module. */
  datatype Constants = Constants(apiVersion: string)

  const MessagesBusConstants: Constants := Constants("1.0.0")

  /** An event of the registry: its name and its live subscriber list. */
  class Event {
    const eventName: string
    var subscribers: seq<Subscriber>

    /** A new event `{eventName, subscribers: []}`. */
    constructor (eventName: string)
      ensures this.eventName == eventName && subscribers == []
    {
      this.eventName := eventName;
      subscribers := [];
    }

    /** The event's current contents as a value. */
    function Entry(): (e: EventEntry)
      reads this
      ensures e.eventName == eventName && e.subscribers == subscribers
    {
      EventEntry(eventName, subscribers)
    }
  }

  /** The `messagesBusService`: the registry and the operations on it. */
  class MessagesBusService {
    /** The registry: the events, in the order they were created. */
    var registry: seq<Event>

    /** The registry never holds one event object twice, so updating one
        event changes one position of the registry only; and the bus's own
        invariants hold: no two events share a name, and no two subscribers
        of one event do. */
    ghost predicate Valid()
      reads this, registry
    {
      && (forall i, j :: 0 <= i < j < |registry| ==> registry[i] != registry[j])
      && EventNamesUnique(Snapshot())
      && AllSubscriberNamesUnique(Snapshot())
    }

    /** A bus with an empty registry. */
    constructor ()
      ensures Valid() && registry == []
    {
      registry := [];
    }

    /** What `registry()` shows: the current contents of every event, as a
        read-only value. */
    function Snapshot(): (r: Registry)
      reads this, registry
      ensures |r| == |registry|
      ensures forall i :: 0 <= i < |registry| ==> r[i] == registry[i].Entry()
    {
      var events := registry;
      seq(|events|, i reads events requires 0 <= i < |events| => events[i].Entry())
    }

    /** apiVersion: the version fixed by the module's constants, whatever
        the registry holds. */
    function ApiVersion(): (v: string)
      ensures v == "1.0.0"
    {
      MessagesBusConstants.apiVersion
    }

    /** getEvent without creation: the first event of the registry with that
        name, found without changing anything. */
    function ExistingEvent(eventName: string): (r: Option<Event>)
      reads this, registry
      ensures r.None? <==> forall j :: 0 <= j < |registry| ==> registry[j].eventName != eventName
      ensures r.Some? ==> exists k :: 0 <= k < |registry| && registry[k] == r.value
                                  && r.value.eventName == eventName
                                  && forall j :: 0 <= j < k ==> registry[j].eventName != eventName
      ensures r.Some? ==> FindEvent(Snapshot(), eventName).Some?
                          && r.value == registry[FindEvent(Snapshot(), eventName).value]
    {
      match FindEvent(Snapshot(), eventName)
      case None => None
      case Some(k) => Some(registry[k])
    }

    /** getEvent: the first event with that name; when there is none and
        `createIfNotExist` holds, a new empty event is appended to the
        registry and returned. */
    method GetEvent(eventName: string, createIfNotExist: bool) returns (r: Option<Event>)
      requires Valid()
      modifies this
      ensures Valid()
      ensures var g := BusModel.GetEvent(old(Snapshot()), eventName, createIfNotExist);
              && Snapshot() == g.0
              && (r.Some? <==> g.1.Some?)
              && (r.Some? ==> r.value == registry[g.1.value])
      ensures registry == old(registry)
              || (r.Some? && fresh(r.value) && registry == old(registry) + [r.value])
    {
      GetEventKeepsUnique(Snapshot(), eventName, createIfNotExist);
      r := ExistingEvent(eventName);
      if r.None? && createIfNotExist {
        var event := new Event(eventName);
        registry := registry + [event];
        r := Some(event);
      }
    }

    /** register: find or create the event, then append the subscriber
        unless one of the same name is already registered on it. */
    method Register(eventName: string, subscriber: Subscriber)
      requires Valid()
      modifies this, registry
      ensures Valid()
      ensures Snapshot() == BusModel.Register(old(Snapshot()), eventName, subscriber)
      ensures old(registry) <= registry && |registry| <= |old(registry)| + 1
      ensures forall k :: |old(registry)| <= k < |registry| ==> fresh(registry[k])
    {
      ghost var before := Snapshot();
      RegisterKeepsEventNamesUnique(before, eventName, subscriber);
      RegisterKeepsSubscriberNamesUnique(before, eventName, subscriber);
      var r := GetEvent(eventName, true);
      var event := r.value;
      ghost var k := BusModel.GetEvent(before, eventName, true).1.value;
      if GetSubscriber(event.Entry(), subscriber.name).None? {
        event.subscribers := event.subscribers + [subscriber];
        assert Snapshot() == BusModel.GetEvent(before, eventName, true).0
                               [k := event.Entry()];
      }
    }

    /** unregister: look the event up without creating it and, if it has a
        subscriber of that name, replace its list by the list filtered of
        that name. */
    method Unregister(eventName: string, subscriberName: string)
      requires Valid()
      modifies registry
      ensures Valid() && registry == old(registry)
      ensures Snapshot() == BusModel.Unregister(old(Snapshot()), eventName, subscriberName)
    {
      UnregisterKeepsUnique(Snapshot(), eventName, subscriberName);
      var r := ExistingEvent(eventName);
      if r.Some? {
        var event := r.value;
        ghost var k := FindEvent(Snapshot(), eventName).value;
        var subscriber := GetSubscriber(event.Entry(), subscriberName);
        if subscriber.Some? {
          ghost var before := Snapshot();
          event.subscribers := WithoutName(event.subscribers, subscriberName);
          assert Snapshot() == before[k := event.Entry()];
        }
      }
    }

    /** publish: call, in order and with `eventData`, every subscriber with
        a handler of the event of that name; the calls made are returned.
        Nothing is changed. */
    method Publish<D>(eventName: string, eventData: D) returns (trace: seq<Invocation<D>>)
      requires Valid()
      ensures trace == PublishTrace(Snapshot(), eventName, eventData)
    {
      trace := [];
      var r := ExistingEvent(eventName);
      if r.Some? {
        var subscribers := r.value.subscribers;
        var i := 0;
        while i < |subscribers|
          invariant 0 <= i <= |subscribers|
          invariant trace == Invocations(subscribers[..i], eventData)
        {
          var item := subscribers[i];
          if item.handler.Some? {
            trace := trace + [Invocation(item.name, item.handler.value, eventData)];
          }
          assert subscribers[..i + 1][..i] == subscribers[..i];
          i := i + 1;
        }
        assert subscribers[..i] == subscribers;
      }
    }
  }
}
