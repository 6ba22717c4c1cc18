# Message bus registry

A Dafny model of the in-process publish/subscribe message bus of
`angular-messages-bus` (`src/messagesBus.js`). The bus keeps one registry:
an ordered list of events, each an event name with an ordered list of
subscribers `{name, handler}`. Components `register` a subscriber on an
event name (creating the event on first use), `unregister` it by name, and
`publish` data to every current subscriber of an event, in registration
order. Two lookups, `getEvent` (optionally creating) and `getSubscriber`,
serve both the operations and callers; `apiVersion` returns the fixed
version `1.0.0` from `messagesBusConstants`.

The project has two layers.

- `BusModel` (`bus_model.dfy`) is the registry as a value: datatypes
  `Subscriber`, `EventEntry` and `Registry`, and one function per operation
  (`GetEvent`, `GetSubscriber`, `Register`, `Unregister`, `PublishTrace`).
  Lookups take the first match, as the JavaScript `$.grep(...)[0]` does, so
  nothing assumes names are unique. `BusProperties` (`bus_properties.dfy`)
  proves what the bus promises about these functions, including that both
  uniqueness invariants are preserved.
- `MessagesBus` (`messages_bus.dfy`) is the service as the source has it:
  class `Event` with a mutable subscriber list, and class
  `MessagesBusService` with a mutable `registry: seq<Event>`. `Register`
  updates the event object's subscriber field with the list extended by the
  subscriber, `Unregister` updates it with the filtered list, and `GetEvent`
  appends a new event object. `Valid()` holds of every state the service
  reaches: distinct event objects, unique event names and unique subscriber
  names within each event. Each method's
  postcondition ties `Snapshot()` (the registry's contents) to the
  matching `BusModel` function of the old contents. `Publish` walks the
  list in a loop and returns the calls it makes.

Handlers are opaque, so a handler is an identifier (`Option<HandlerId>`; no
handler is `None`). `Publish` returns the trace of calls
`Invocation(subscriber name, handler, data)` instead of calling foreign
code. "Not found" is `None`. The source actually yields `undefined` there:
`$.grep` always returns an array, so `events ? events[0] : null` gives
`events[0]`. Its doc comment and test suite say `null`, and the model does
not tell the two apart. The registry is an ordered array searched by a
linear first-match lookup, and the model keeps that order.

`BusScenarios` (`bus_scenarios.dfy`) replays the test suite's cases on a
fresh `MessagesBusService`. It adds one more case: removing a middle
subscriber keeps the others' order.

## Model

| member | source | states |
|---|---|---|
| `BusModel.FirstMatch` | src/messagesBus.js:141-146 | the index picked by grep-then-first is the least position satisfying the predicate; None exactly when no element does |
| `BusModel.GetEvent` | src/messagesBus.js:137-154 | the result is always the first match in the resulting registry; with creation something is always found; the registry either is unchanged, or, only when creating and no match existed, gains `{eventName, []}` at the end |
| `BusModel.GetSubscriber` | src/messagesBus.js:162-172 | not-found exactly when no subscriber has that name; otherwise the first subscriber of the event with that name |
| `BusModel.WithoutName` | src/messagesBus.js:98-100 | as a set, the kept subscribers are those of the list whose name differs, and the list never grows; order and multiplicity are stated by `WithoutNameAppend` and `WithoutNameRemovesOne` |
| `BusModel.Invocations` | src/messagesBus.js:120-125 | no more calls than subscribers, every call carrying the published data; order and once-only calls are stated by `InvocationsOrdered` and `InvocationsOnce` |
| `BusModel.Register` | src/messagesBus.js:64-78 | no contract of its own; described by `RegisterSubscribers`, `RegisterEvents` and `RegisterTwice` |
| `BusModel.Unregister` | src/messagesBus.js:85-104 | no contract of its own; described by `UnregisterUnknown` and `UnregisterRemoves` |
| `BusModel.PublishTrace` | src/messagesBus.js:112-128 | no contract of its own; described by `PublishDelivers` |
| `BusProperties.GetEventWithoutCreation` | src/messagesBus.js:141-146 | without creation the registry is unchanged and the result is the first event of that name, or not-found exactly when none has it |
| `BusProperties.GetEventCreates` | src/messagesBus.js:147-150 | with creation and no match, `{eventName, subscribers: []}` is appended at the end and it is the result |
| `BusProperties.GetEventRepeated` | src/messagesBus.js:141-153 | calling getEvent again after a creating call, with either flag, changes nothing and finds the same event: no duplicates |
| `BusProperties.GetSubscriberFound` | src/messagesBus.js:166-171 | within an event whose subscriber names are unique, the subscriber found is the only one of that name, wherever it stands |
| `BusProperties.GetEventKeepsUnique` | src/messagesBus.js:141-150 | getEvent, with or without creation, preserves unique event names and unique subscriber names |
| `BusProperties.RegisterSubscribers` | src/messagesBus.js:71-75 | the event's list afterwards is the old list plus the new subscriber when its name is new, and the old list (first handler kept) otherwise |
| `BusProperties.RegisterNewEvent` | src/messagesBus.js:68-72 | registering on an absent event name appends one event holding just that subscriber |
| `BusProperties.RegisterExistingEvent` | src/messagesBus.js:68-72 | registering a new name on an existing event appends it to that event alone |
| `BusProperties.RegisterEvents` | src/messagesBus.js:68 | afterwards an event of that name exists; at most one event is added, at the end, only when none had that name; all names keep their positions and every other event is unchanged |
| `BusProperties.RegisterOtherEvent` | src/messagesBus.js:64-78 | every other event name is found at the same place with the same subscribers |
| `BusProperties.RegisterTwice` | src/messagesBus.js:71-75 | a second registration under the same name on the same event changes nothing, so one entry with the first handler remains |
| `BusProperties.RegisterKeepsEventNamesUnique` | src/messagesBus.js:141-150 | register preserves unique event names and leaves exactly one event with that name |
| `BusProperties.RegisterKeepsSubscriberNamesUnique` | src/messagesBus.js:71-72 | register preserves unique subscriber names within every event |
| `BusProperties.WithoutNameAbsent` | src/messagesBus.js:98-100 | filtering a name no subscriber has leaves the list as it is |
| `BusProperties.WithoutNameAppend` | src/messagesBus.js:98-100 | the filter works piecewise over concatenation, so relative order is kept |
| `BusProperties.WithoutNameRemovesOne` | src/messagesBus.js:98-100 | with unique names, filtering the name at position i gives the list without exactly position i |
| `BusProperties.WithoutNameKeepsUnique` | src/messagesBus.js:98-100 | filtering never creates duplicate names |
| `BusProperties.UnregisterUnknown` | src/messagesBus.js:89-97 | an unknown event or an unknown subscriber name leaves the registry unchanged |
| `BusProperties.UnregisterRemoves` | src/messagesBus.js:89-101 | the event's list becomes the old list filtered of that name; the registry keeps its length and names, so the event stays (possibly empty), and no other event changes |
| `BusProperties.UnregisterKeepsUnique` | src/messagesBus.js:98-100 | unregister preserves unique event names and unique subscriber names |
| `BusProperties.RegisterThenUnregister` | src/messagesBus.js:64-104 | registering a new name and unregistering it leaves the registry as getEvent-with-creation left it: the event present with its former (possibly no) subscribers |
| `BusProperties.InvocationsAppend` | src/messagesBus.js:120-125 | notifying two lists in turn makes the calls of the first, then those of the second |
| `BusProperties.InvocationsSound` | src/messagesBus.js:120-124 | every call is of a subscriber of the list, with that subscriber's handler |
| `BusProperties.InvocationsComplete` | src/messagesBus.js:120-124 | every subscriber with a handler is called with the published data |
| `BusProperties.InvocationsOrdered` | src/messagesBus.js:120 | of two subscribers with handlers, the earlier-registered one is called first |
| `BusProperties.InvocationsOnce` | src/messagesBus.js:120-125 | with unique subscriber names, no subscriber is called twice |
| `BusProperties.PublishDelivers` | src/messagesBus.js:116-126 | the calls are exactly those of the named event's subscribers with handlers, each with the data; names not on that event are never called; an unknown event gives no calls |
| `MessagesBus.Event.constructor` | src/messagesBus.js:148 | a new event has the given name and no subscribers |
| `MessagesBus.MessagesBusService.constructor` | src/messagesBus.js:39 | the bus starts with an empty registry, in which the invariants hold |
| `MessagesBus.MessagesBusService.Snapshot` | src/messagesBus.js:53-56 | the registry accessor as a read-only view: one entry per event, each the event's current contents |
| `MessagesBus.MessagesBusService.ApiVersion` | src/messagesBus.js:12-14 | always `1.0.0`, reading no state |
| `MessagesBus.MessagesBusService.ExistingEvent` | src/messagesBus.js:141-146 | not-found exactly when no event has that name; otherwise the first event object of that name in the registry |
| `MessagesBus.MessagesBusService.GetEvent` | src/messagesBus.js:137-154 | the new contents and the event returned are the value-level getEvent of the old contents; the registry is unchanged or gains exactly the fresh returned event at the end; unique event and subscriber names are kept |
| `MessagesBus.MessagesBusService.Register` | src/messagesBus.js:64-78 | the new contents are the value-level register of the old; the registry only grows, by at most one fresh event; unique event and subscriber names are kept |
| `MessagesBus.MessagesBusService.Unregister` | src/messagesBus.js:85-104 | the new contents are the value-level unregister of the old; the registry holds the same event objects; unique event and subscriber names are kept |
| `MessagesBus.MessagesBusService.Publish` | src/messagesBus.js:112-128 | the calls made, in order, are the value-level publish trace of the current contents; nothing changes |
| `BusScenarios.NamesDistinct` | test/messagesBusSpec.js:98-121 | the suite's event names and subscriber names are pairwise distinct |
| `BusScenarios.RegisterStoresOnce` | test/messagesBusSpec.js:44-69 | registering the same subscriber twice leaves one event holding it once, with its handler |
| `BusScenarios.UnregisterRemovesExisting` | test/messagesBusSpec.js:71-95 | unknown targets leave one subscriber; removing the known one leaves the event with none, still in the registry |
| `BusScenarios.ThreeRegistrations` | test/messagesBusSpec.js:129-134 | the registry after each of the three registrations: two events, the first with two subscribers |
| `BusScenarios.PublishOnEvent1` | test/messagesBusSpec.js:138-143 | publishing on the first event calls its two subscribers in order, never the third |
| `BusScenarios.PublishNotifiesSubscribers` | test/messagesBusSpec.js:97-144 | two events exist, and publish calls subscriber1 then subscriber2 with the data, never subscriber3 |
| `BusScenarios.GetEventOnUnknownName` | test/messagesBusSpec.js:152-160 | without creation nothing is found; with creation the result is named `unknown` and has no subscribers |
| `BusScenarios.RegisterThreeUnregisterMiddle` | src/messagesBus.js:98-100 | after registering A, B, C and unregistering B, the event holds A then C |
| `BusScenarios.PublishOnE` | src/messagesBus.js:120-125 | publishing on an event holding A then C calls A then C |
| `BusScenarios.UnregisterKeepsOrder` | src/messagesBus.js:85-128 | register A, B, C, unregister B, publish: A is called, then C, and B never |

## Left out

- Angular wiring: the module declaration, the factory with its dependency list, and `$rootScope` (src/messagesBus.js:5, 21) are host-framework glue. The constants are a Dafny constant, and the service is a class built by its constructor.
- Logging: the `$log.debug` calls and the `angular.toJson(registry)` snapshots have no effect on behaviour.
- Handler bodies and handler exceptions: handlers are opaque foreign callables, so publish returns the trace of calls it makes. Whether a throwing handler stops the rest of the notifications is not modelled.
- Reentrancy: a handler that registers or unregisters during a publish is not modelled, because handlers cannot call back into the model.
- External mutation through the live `registry()` array: the accessor is `Snapshot()`, a read-only view. The suite's cases that push events straight into the array (test/messagesBusSpec.js:146-150, 162-174) are not replayed. Duplicate event names could only come from such pushes; the lookups still handle them by taking the first match.
- JavaScript details: loose `==` and `!=` on names is modelled as string equality, and handler truthiness as `Option`. The `null`/`undefined` distinction of the not-found result is one `None`. An omitted or falsy `createIfNotExist` acts as `false`, which the model's `bool` parameter states directly (the suite omits it at test/messagesBusSpec.js:135, 149 and 153). A subscriber without a `name`, and a non-event passed to `getSubscriber` (which the source would dereference and fail on), are not modelled.
- Array and subscriber aliasing: the source pushes onto the event's shared `subscribers` array (src/messagesBus.js:72) and replaces that array on unregister (src/messagesBus.js:98), so code holding the old array sees a later register but not a later unregister; the model's field holds a sequence value, so a held copy sees neither. The source also stores the caller's own subscriber object, so a later change to its `handler` shows up on publish; the model stores a copy.
- One event object held at two positions of the registry, and duplicate event or subscriber names, which only an external push could cause, are excluded: the service methods require `Valid()`, which says the registry's event objects are pairwise distinct and both kinds of names unique. Every state the constructor and the methods produce satisfies it.
- Event names are constant fields. The source's `eventName` property is mutable, but the bus never changes it.
