/**
 * The behaviours the bus's test suite checks, replayed on a fresh
 * MessagesBusService: each method drives the service through the same calls
 * and its postcondition states what the suite expects to observe. The
 * registry contents each sequence of calls produces are worked out, as
 * values, by the lemmas beside the methods.
 */
module BusScenarios {
  import opened Wrappers
  import opened BusModel
  import opened BusProperties
  import opened MessagesBus

  const S1: Subscriber := Subscriber("event-subscriber1", Some(1))
  const S2: Subscriber := Subscriber("event-subscriber2", Some(2))
  const S3: Subscriber := Subscriber("event-subscriber3", Some(3))

  /** The suite's event names and subscriber names are distinct. */
  lemma NamesDistinct()
    ensures S1.name != S2.name && S1.name != S3.name && S2.name != S3.name
    ensures "event1" != "event2"
  {
    assert S1.name[16] != S2.name[16];
    assert S1.name[16] != S3.name[16];
    assert S2.name[16] != S3.name[16];
    assert "event1"[5] != "event2"[5];
  }

  // ---------------------------------------------------------------------
  // register should store subscriber only once in registry

  /** Registering S1 twice on "event" stores it once. */
  method RegisterStoresOnce() returns (contents: Registry)
    ensures contents == [EventEntry("event", [S1])]
  {
    var bus := new MessagesBusService();
    bus.Register("event", S1);
    bus.Register("event", S1);
    RegisterNewEvent([], "event", S1);
    RegisterTwice([], "event", S1, S1);
    contents := bus.Snapshot();
  }

  // ---------------------------------------------------------------------
  // unregister should remove subscriber from registry if it exists

  /** Unregistering an unknown subscriber, or from an unknown event, leaves
      the one subscriber in place; unregistering it empties the event, which
      stays in the registry. The event object read from the registry sees
      each change. */
  method UnregisterRemovesExisting() returns (afterUnknown: nat, afterKnown: nat, events: nat)
    ensures afterUnknown == 1 && afterKnown == 0 && events == 1
  {
    var bus := new MessagesBusService();
    bus.Register("event", S1);
    RegisterNewEvent([], "event", S1);
    var event := bus.registry[0];
    bus.Unregister("event", "unknown");
    assert !HasName([S1], "unknown");
    bus.Unregister("unknown", S1.name);
    afterUnknown := |event.subscribers|;
    bus.Unregister("event", S1.name);
    assert WithoutName([S1], S1.name) == [];
    afterKnown := |event.subscribers|;
    events := |bus.registry|;
  }

  // ---------------------------------------------------------------------
  // publish should notify appropriate subscribers

  /** The registry after S1 and S2 register on "event1" and S3 on "event2",
      call by call. */
  lemma ThreeRegistrations()
    ensures Register([], "event1", S1) == [EventEntry("event1", [S1])]
    ensures Register([EventEntry("event1", [S1])], "event1", S2) == [EventEntry("event1", [S1, S2])]
    ensures Register([EventEntry("event1", [S1, S2])], "event2", S3)
              == [EventEntry("event1", [S1, S2]), EventEntry("event2", [S3])]
  {
    NamesDistinct();
    RegisterNewEvent([], "event1", S1);
    var one := [EventEntry("event1", [S1])];
    assert FindEvent(one, "event1") == Some(0);
    assert !HasName([S1], S2.name);
    RegisterExistingEvent(one, "event1", S2, 0);
    assert [S1] + [S2] == [S1, S2];
    var two := [EventEntry("event1", [S1, S2])];
    assert one[0 := EventEntry("event1", [S1, S2])] == two;
    assert FindEvent(two, "event2").None?;
    RegisterNewEvent(two, "event2", S3);
    assert two + [EventEntry("event2", [S3])] == [EventEntry("event1", [S1, S2]), EventEntry("event2", [S3])];
  }

  /** Publishing on "event1" calls S1 then S2. */
  lemma PublishOnEvent1()
    ensures PublishTrace([EventEntry("event1", [S1, S2]), EventEntry("event2", [S3])], "event1", "event1 data")
              == [Invocation(S1.name, 1, "event1 data"), Invocation(S2.name, 2, "event1 data")]
  {
    var reg := [EventEntry("event1", [S1, S2]), EventEntry("event2", [S3])];
    assert FindEvent(reg, "event1") == Some(0);
    assert [S1, S2][..1] == [S1];
    assert [S1][..0] == [];
    assert Invocations([S1], "event1 data") == [Invocation(S1.name, 1, "event1 data")];
    assert Invocations([S1, S2], "event1 data")
             == Invocations([S1], "event1 data") + [Invocation(S2.name, 2, "event1 data")];
  }

  /** Publishing on "event1" calls exactly its two subscribers, in order, with
      the published data, and never the subscriber of "event2". */
  method PublishNotifiesSubscribers() returns (events: nat, trace: seq<Invocation<string>>)
    ensures events == 2
    ensures trace == [Invocation("event-subscriber1", 1, "event1 data"),
                      Invocation("event-subscriber2", 2, "event1 data")]
  {
    var bus := new MessagesBusService();
    bus.Register("event1", S1);
    bus.Register("event1", S2);
    bus.Register("event2", S3);
    ThreeRegistrations();
    events := |bus.registry|;
    trace := bus.Publish("event1", "event1 data");
    PublishOnEvent1();
  }

  // ---------------------------------------------------------------------
  // getEvent should return null if it does not exist and
  // createIfNotExist is set to false / true

  /** getEvent without creation on an unknown name finds nothing; with
      creation it gives a new empty event of that name. */
  method GetEventOnUnknownName() returns (found: bool, name: string, subscribers: nat)
    ensures !found && name == "unknown" && subscribers == 0
  {
    var bus := new MessagesBusService();
    var missing := bus.GetEvent("unknown", false);
    found := missing.Some?;
    var created := bus.GetEvent("unknown", true);
    name := created.value.eventName;
    subscribers := |created.value.subscribers|;
  }

  // ---------------------------------------------------------------------
  // Removing a middle subscriber keeps the order of the others

  const A: Subscriber := Subscriber("A", Some(1))
  const B: Subscriber := Subscriber("B", Some(2))
  const C: Subscriber := Subscriber("C", Some(3))

  /** The registry after A, B and C register on "e" and B unregisters, call
      by call. */
  lemma RegisterThreeUnregisterMiddle()
    ensures Register([], "e", A) == [EventEntry("e", [A])]
    ensures Register([EventEntry("e", [A])], "e", B) == [EventEntry("e", [A, B])]
    ensures Register([EventEntry("e", [A, B])], "e", C) == [EventEntry("e", [A, B, C])]
    ensures Unregister([EventEntry("e", [A, B, C])], "e", "B") == [EventEntry("e", [A, C])]
  {
    RegisterNewEvent([], "e", A);
    var one := [EventEntry("e", [A])];
    assert FindEvent(one, "e") == Some(0);
    assert !HasName([A], "B");
    RegisterExistingEvent(one, "e", B, 0);
    var two := [EventEntry("e", [A, B])];
    assert [A] + [B] == [A, B];
    assert one[0 := EventEntry("e", [A, B])] == two;
    assert FindEvent(two, "e") == Some(0);
    assert !HasName([A, B], "C");
    RegisterExistingEvent(two, "e", C, 0);
    var three := [EventEntry("e", [A, B, C])];
    assert [A, B] + [C] == [A, B, C];
    assert two[0 := EventEntry("e", [A, B, C])] == three;
    assert FindEvent(three, "e") == Some(0);
    assert HasName([A, B, C], "B") by {
      assert [A, B, C][1].name == "B";
    }
    WithoutNameRemovesOne([A, B, C], 1);
    assert [A, B, C][..1] + [A, B, C][2..] == [A, C];
    assert three[0 := EventEntry("e", [A, C])] == [EventEntry("e", [A, C])];
  }

  /** Publishing on "e" with A and C registered calls A then C. */
  lemma PublishOnE()
    ensures PublishTrace([EventEntry("e", [A, C])], "e", 7) == [Invocation("A", 1, 7), Invocation("C", 3, 7)]
  {
    assert FindEvent([EventEntry("e", [A, C])], "e") == Some(0);
    assert [A, C][..1] == [A];
    assert [A][..0] == [];
    assert Invocations([A], 7) == [Invocation("A", 1, 7)];
  }

  /** Registering A, B and C on "e", then unregistering B, makes a publish
      call A and then C. */
  method UnregisterKeepsOrder() returns (trace: seq<Invocation<int>>)
    ensures trace == [Invocation("A", 1, 7), Invocation("C", 3, 7)]
  {
    var bus := new MessagesBusService();
    bus.Register("e", A);
    assert bus.Snapshot() == [EventEntry("e", [A])] by { RegisterThreeUnregisterMiddle(); }
    bus.Register("e", B);
    assert bus.Snapshot() == [EventEntry("e", [A, B])] by { RegisterThreeUnregisterMiddle(); }
    bus.Register("e", C);
    assert bus.Snapshot() == [EventEntry("e", [A, B, C])] by { RegisterThreeUnregisterMiddle(); }
    bus.Unregister("e", "B");
    assert bus.Snapshot() == [EventEntry("e", [A, C])] by { RegisterThreeUnregisterMiddle(); }
    trace := bus.Publish("e", 7);
    PublishOnE();
  }
}
