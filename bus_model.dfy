/**
 * The message-bus registry as a value: an ordered list of events, each an
 * event name with an ordered list of named subscribers. Every operation of
 * the bus is a function from the old registry to the new one (and to what
 * the operation returns), and the properties the bus promises are lemmas
 * about these functions.
 *
 * Lookups take the FIRST match, as the bus does, so nothing here assumes
 * that names are unique; uniqueness is proved to be preserved instead.
 */
module BusModel {
  import opened Wrappers

  /** Handlers are opaque callables; a handler is known here by an identifier. */
  type HandlerId = nat

  /** A subscriber `{name, handler}`; the handler may be absent. */
  datatype Subscriber = Subscriber(name: string, handler: Option<HandlerId>)

  /** An event `{eventName, subscribers}`, subscribers in registration order. */
  datatype EventEntry = EventEntry(eventName: string, subscribers: seq<Subscriber>)

  /** The registry: events in the order they were created. */
  type Registry = seq<EventEntry>

  /** One call of a subscriber's handler made by a publish. */
  datatype Invocation<D> = Invocation(subscriber: string, handler: HandlerId, data: D)

  // ---------------------------------------------------------------------
  // Invariants the bus keeps

  /** No two events of the registry share a name. */
  ghost predicate EventNamesUnique(reg: Registry) {
    forall i, j :: 0 <= i < j < |reg| ==> reg[i].eventName != reg[j].eventName
  }

  /** No two subscribers of one event share a name. */
  ghost predicate SubscriberNamesUnique(subs: seq<Subscriber>) {
    forall i, j :: 0 <= i < j < |subs| ==> subs[i].name != subs[j].name
  }

  /** Every event of the registry has uniquely named subscribers. */
  ghost predicate AllSubscriberNamesUnique(reg: Registry) {
    forall i :: 0 <= i < |reg| ==> SubscriberNamesUnique(reg[i].subscribers)
  }

  /** Some subscriber in `subs` is called `name`. */
  ghost predicate HasName(subs: seq<Subscriber>, name: string) {
    exists i :: 0 <= i < |subs| && subs[i].name == name
  }

  // ---------------------------------------------------------------------
  // Lookups

  /** The index of the first element of `s` that satisfies `p`, which is
      what `$.grep(s, p)[0]` picks; None when no element does. */
  function FirstMatch<T>(s: seq<T>, p: T -> bool): (r: Option<nat>)
    ensures r.Some? ==> r.value < |s| && p(s[r.value])
    ensures r.Some? ==> forall j :: 0 <= j < r.value ==> !p(s[j])
    ensures r.None? <==> forall j :: 0 <= j < |s| ==> !p(s[j])
  {
    if s == [] then None
    else if p(s[0]) then Some(0)
    else match FirstMatch(s[1..], p)
      case None => None
      case Some(k) => Some(k + 1)
  }

  /** The position of the first event called `eventName`. */
  function FindEvent(reg: Registry, eventName: string): Option<nat> {
    FirstMatch(reg, (e: EventEntry) => e.eventName == eventName)
  }

  /** getEvent: the first event called `eventName`; when there is none and
      `createIfNotExist` holds, a new event with no subscribers is appended
      and returned. Gives the new registry and the position of the result. */
  function GetEvent(reg: Registry, eventName: string, createIfNotExist: bool): (r: (Registry, Option<nat>))
    ensures r.1 == FindEvent(r.0, eventName)
    ensures createIfNotExist ==> r.1.Some?
    ensures r.0 == reg || (createIfNotExist && FindEvent(reg, eventName).None?
                           && r.0 == reg + [EventEntry(eventName, [])])
  {
    match FindEvent(reg, eventName)
    case Some(k) => (reg, Some(k))
    case None =>
      if createIfNotExist then
        var reg' := reg + [EventEntry(eventName, [])];
        assert reg'[|reg|].eventName == eventName;
        (reg', Some(|reg|))
      else (reg, None)
  }

  /** getSubscriber: the first subscriber of `event` called `subscriberName`. */
  function GetSubscriber(event: EventEntry, subscriberName: string): (r: Option<Subscriber>)
    ensures r.None? <==> !HasName(event.subscribers, subscriberName)
    ensures r.Some? ==> exists i :: 0 <= i < |event.subscribers| && event.subscribers[i] == r.value
                               && r.value.name == subscriberName
                               && forall j :: 0 <= j < i ==> event.subscribers[j].name != subscriberName
  {
    match FirstMatch(event.subscribers, (s: Subscriber) => s.name == subscriberName)
    case None => None
    case Some(i) => Some(event.subscribers[i])
  }

  /** The subscribers of the first event called `eventName`, or none. */
  function SubscribersOf(reg: Registry, eventName: string): seq<Subscriber> {
    match FindEvent(reg, eventName)
    case None => []
    case Some(k) => reg[k].subscribers
  }

  // ---------------------------------------------------------------------
  // The three operations

  /** register: find or create the event, then append the subscriber unless
      one of that name is already there. */
  function Register(reg: Registry, eventName: string, subscriber: Subscriber): Registry {
    var g := GetEvent(reg, eventName, true);
    var k := g.1.value;
    var event := g.0[k];
    if GetSubscriber(event, subscriber.name).None? then
      g.0[k := event.(subscribers := event.subscribers + [subscriber])]
    else
      g.0
  }

  /** The subscribers of `subs` whose name differs from `name`, in their
      order: the filter unregister applies. */
  function WithoutName(subs: seq<Subscriber>, name: string): (r: seq<Subscriber>)
    ensures forall s :: s in r <==> s in subs && s.name != name
    ensures |r| <= |subs|
  {
    if subs == [] then []
    else (if subs[0].name != name then [subs[0]] else []) + WithoutName(subs[1..], name)
  }

  /** unregister: look the event up without creating it; if it has a
      subscriber of that name, keep only the subscribers of other names. */
  function Unregister(reg: Registry, eventName: string, subscriberName: string): Registry {
    match FindEvent(reg, eventName)
    case None => reg
    case Some(k) =>
      if GetSubscriber(reg[k], subscriberName).None? then reg
      else reg[k := reg[k].(subscribers := WithoutName(reg[k].subscribers, subscriberName))]
  }

  /** The call a subscriber receives from a publish, if it has a handler. */
  function Call<D>(s: Subscriber, data: D): seq<Invocation<D>> {
    if s.handler.Some? then [Invocation(s.name, s.handler.value, data)] else []
  }

  /** The calls made by notifying `subs` in order with `data`. */
  function Invocations<D>(subs: seq<Subscriber>, data: D): (r: seq<Invocation<D>>)
    ensures |r| <= |subs|
    ensures forall k :: 0 <= k < |r| ==> r[k].data == data
  {
    if subs == [] then []
    else Invocations(subs[..|subs| - 1], data) + Call(subs[|subs| - 1], data)
  }

  /** publish: look the event up without creating it and call each of its
      subscribers that has a handler. The registry is not changed. */
  function PublishTrace<D>(reg: Registry, eventName: string, data: D): seq<Invocation<D>> {
    match FindEvent(reg, eventName)
    case None => []
    case Some(k) => Invocations(reg[k].subscribers, data)
  }
}
