/**
 * What the message bus promises, stated and proved about the value-level
 * registry of module BusModel.
 */
module BusProperties {
  import opened Wrappers
  import opened BusModel

  // ---------------------------------------------------------------------
  // Lookups

  /** Two sequences whose elements agree on `p` position by position have
      the same first match. */
  lemma FirstMatchAgree<T, U>(s: seq<T>, p: T -> bool, t: seq<U>, q: U -> bool)
    requires |s| == |t|
    requires forall j :: 0 <= j < |s| ==> p(s[j]) == q(t[j])
    ensures FirstMatch(s, p) == FirstMatch(t, q)
  {
    var a, b := FirstMatch(s, p), FirstMatch(t, q);
    if a.Some? && b.Some? {
      assert !(a.value < b.value) && !(b.value < a.value);
    }
  }

  /** A registry whose event names are those of `reg`, position by position,
      finds every event name where `reg` does. */
  lemma FindEventSameNames(reg: Registry, reg': Registry, m: string)
    requires |reg| == |reg'|
    requires forall j :: 0 <= j < |reg| ==> reg[j].eventName == reg'[j].eventName
    ensures FindEvent(reg, m) == FindEvent(reg', m)
  {
    FirstMatchAgree(reg, (e: EventEntry) => e.eventName == m, reg', (e: EventEntry) => e.eventName == m);
  }

  /** Appending an event never changes where an existing name is found. */
  lemma FindEventAppend(reg: Registry, e: EventEntry, m: string)
    requires FindEvent(reg, m).Some?
    ensures FindEvent(reg + [e], m) == FindEvent(reg, m)
  {
    var k := FindEvent(reg, m).value;
    var r := FindEvent(reg + [e], m);
    assert (reg + [e])[k] == reg[k];
    assert r.Some? && r.value <= k;
  }

  /** getEvent without creation never changes the registry and gives the
      first event of that name, or not-found. */
  lemma GetEventWithoutCreation(reg: Registry, eventName: string)
    ensures GetEvent(reg, eventName, false).0 == reg
    ensures var k := GetEvent(reg, eventName, false).1;
            (k.None? <==> forall j :: 0 <= j < |reg| ==> reg[j].eventName != eventName)
            && (k.Some? ==> reg[k.value].eventName == eventName
                            && forall j :: 0 <= j < k.value ==> reg[j].eventName != eventName)
  {
  }

  /** getEvent with creation and no match appends an empty event of that name
      at the end and returns it. */
  lemma GetEventCreates(reg: Registry, eventName: string)
    requires forall j :: 0 <= j < |reg| ==> reg[j].eventName != eventName
    ensures GetEvent(reg, eventName, true) == (reg + [EventEntry(eventName, [])], Some(|reg|))
  {
  }

  /** Repeating getEvent after a creating call creates nothing more. */
  lemma GetEventRepeated(reg: Registry, eventName: string, createIfNotExist: bool)
    ensures var g := GetEvent(reg, eventName, true);
            GetEvent(g.0, eventName, createIfNotExist) == g
  {
  }

  /** Within an event whose subscriber names are unique, getSubscriber finds
      the one and only subscriber of that name, wherever it stands. */
  lemma GetSubscriberFound(event: EventEntry, subscriberName: string, i: nat)
    requires SubscriberNamesUnique(event.subscribers)
    requires i < |event.subscribers| && event.subscribers[i].name == subscriberName
    ensures GetSubscriber(event, subscriberName) == Some(event.subscribers[i])
  {
    var subs := event.subscribers;
    var i0 :| 0 <= i0 < |subs| && subs[i0] == GetSubscriber(event, subscriberName).value
              && subs[i0].name == subscriberName
              && forall j :: 0 <= j < i0 ==> subs[j].name != subscriberName;
    assert i0 == i;
  }

  /** getEvent keeps event names and subscriber names unique: an event it
      creates has a name no event had, and no subscribers. */
  lemma GetEventKeepsUnique(reg: Registry, eventName: string, createIfNotExist: bool)
    requires EventNamesUnique(reg) && AllSubscriberNamesUnique(reg)
    ensures EventNamesUnique(GetEvent(reg, eventName, createIfNotExist).0)
    ensures AllSubscriberNamesUnique(GetEvent(reg, eventName, createIfNotExist).0)
  {
    var r := GetEvent(reg, eventName, createIfNotExist).0;
    if r != reg {
      assert forall j :: 0 <= j < |reg| ==> r[j] == reg[j];
    }
  }

  // ---------------------------------------------------------------------
  // register

  /** register appends the subscriber to its event when the name is new, and
      otherwise leaves the list, and so the first handler, as it was. */
  lemma RegisterSubscribers(reg: Registry, eventName: string, subscriber: Subscriber)
    ensures var before := SubscribersOf(reg, eventName);
            SubscribersOf(Register(reg, eventName, subscriber), eventName)
              == if HasName(before, subscriber.name) then before else before + [subscriber]
  {
    var g := GetEvent(reg, eventName, true);
    var k := g.1.value;
    var r := Register(reg, eventName, subscriber);
    assert g.0[k].subscribers == SubscribersOf(reg, eventName) by {
      if FindEvent(reg, eventName).None? {
        assert k == |reg|;
      }
    }
    FindEventSameNames(g.0, r, eventName);
  }

  /** register on a name no event has appends a new event holding just
      that subscriber. */
  lemma RegisterNewEvent(reg: Registry, eventName: string, subscriber: Subscriber)
    requires FindEvent(reg, eventName).None?
    ensures Register(reg, eventName, subscriber) == reg + [EventEntry(eventName, [subscriber])]
  {
    var g := GetEvent(reg, eventName, true);
    assert g.0 == reg + [EventEntry(eventName, [])] && g.1 == Some(|reg|);
    assert !HasName(g.0[|reg|].subscribers, subscriber.name);
    var e := EventEntry(eventName, [] + [subscriber]);
    assert [] + [subscriber] == [subscriber];
    assert g.0[|reg| := e] == reg + [e];
  }

  /** register on an existing event with a new subscriber name appends the
      subscriber to that event alone. */
  lemma RegisterExistingEvent(reg: Registry, eventName: string, subscriber: Subscriber, k: nat)
    requires FindEvent(reg, eventName) == Some(k)
    requires !HasName(reg[k].subscribers, subscriber.name)
    ensures Register(reg, eventName, subscriber)
              == reg[k := EventEntry(eventName, reg[k].subscribers + [subscriber])]
  {
  }

  /** register creates at most one event, at the end, named `eventName`;
      afterwards an event of that name exists, and every other event is
      exactly as it was. */
  lemma RegisterEvents(reg: Registry, eventName: string, subscriber: Subscriber)
    ensures var r := Register(reg, eventName, subscriber);
            && FindEvent(r, eventName).Some?
            && (|r| == |reg| || (|r| == |reg| + 1 && r[|reg|].eventName == eventName
                                 && forall j :: 0 <= j < |reg| ==> reg[j].eventName != eventName))
            && (forall j :: 0 <= j < |reg| ==> r[j].eventName == reg[j].eventName)
            && (forall j :: 0 <= j < |reg| && FindEvent(reg, eventName) != Some(j) ==> r[j] == reg[j])
  {
    var g := GetEvent(reg, eventName, true);
    var r := Register(reg, eventName, subscriber);
    FindEventSameNames(g.0, r, eventName);
    if FindEvent(reg, eventName).Some? {
      assert g.0 == reg;
    }
  }

  /** register leaves every other event name where it was found, with the
      same subscribers. */
  lemma RegisterOtherEvent(reg: Registry, eventName: string, subscriber: Subscriber, other: string)
    requires other != eventName
    ensures FindEvent(Register(reg, eventName, subscriber), other) == FindEvent(reg, other)
    ensures SubscribersOf(Register(reg, eventName, subscriber), other) == SubscribersOf(reg, other)
  {
    var g := GetEvent(reg, eventName, true);
    var r := Register(reg, eventName, subscriber);
    FindEventSameNames(g.0, r, other);
    if g.0 != reg && FindEvent(reg, other).Some? {
      FindEventAppend(reg, EventEntry(eventName, []), other);
    }
    RegisterEvents(reg, eventName, subscriber);
  }

  /** Registering a second subscriber of the same name on the same event
      changes nothing: one entry, with the first handler. */
  lemma RegisterTwice(reg: Registry, eventName: string, first: Subscriber, second: Subscriber)
    requires first.name == second.name
    ensures Register(Register(reg, eventName, first), eventName, second) == Register(reg, eventName, first)
  {
    var r := Register(reg, eventName, first);
    RegisterEvents(reg, eventName, first);
    RegisterSubscribers(reg, eventName, first);
    var k := FindEvent(r, eventName).value;
    assert HasName(r[k].subscribers, second.name) by {
      var before := SubscribersOf(reg, eventName);
      if !HasName(before, first.name) {
        assert r[k].subscribers[|before|] == first;
      }
    }
  }

  /** register keeps event names unique, and leaves exactly one event named
      `eventName`. */
  lemma RegisterKeepsEventNamesUnique(reg: Registry, eventName: string, subscriber: Subscriber)
    requires EventNamesUnique(reg)
    ensures EventNamesUnique(Register(reg, eventName, subscriber))
    ensures var r := Register(reg, eventName, subscriber);
            forall j :: 0 <= j < |r| && r[j].eventName == eventName ==> FindEvent(r, eventName) == Some(j)
  {
    RegisterEvents(reg, eventName, subscriber);
  }

  /** register keeps subscriber names unique within every event. */
  lemma RegisterKeepsSubscriberNamesUnique(reg: Registry, eventName: string, subscriber: Subscriber)
    requires AllSubscriberNamesUnique(reg)
    ensures AllSubscriberNamesUnique(Register(reg, eventName, subscriber))
  {
    var g := GetEvent(reg, eventName, true);
    var k := g.1.value;
    var event := g.0[k];
    var r := Register(reg, eventName, subscriber);
    assert AllSubscriberNamesUnique(g.0);
    if GetSubscriber(event, subscriber.name).None? {
      var subs := event.subscribers + [subscriber];
      assert r[k].subscribers == subs;
      assert SubscriberNamesUnique(subs) by {
        forall i, j | 0 <= i < j < |subs| ensures subs[i].name != subs[j].name {
          if j == |subs| - 1 {
            assert subs[i] == event.subscribers[i];
          }
        }
      }
    }
  }

  // ---------------------------------------------------------------------
  // unregister

  /** The filter keeps a list with no entry of that name as it is. */
  lemma {:induction false} WithoutNameAbsent(subs: seq<Subscriber>, name: string)
    requires !HasName(subs, name)
    ensures WithoutName(subs, name) == subs
  {
    if subs != [] {
      assert subs[0].name != name;
      WithoutNameAbsent(subs[1..], name);
      assert subs == [subs[0]] + subs[1..];
    }
  }

  /** The filter works piecewise, so it keeps relative order. */
  lemma {:induction false} WithoutNameAppend(a: seq<Subscriber>, b: seq<Subscriber>, name: string)
    ensures WithoutName(a + b, name) == WithoutName(a, name) + WithoutName(b, name)
  {
    if a != [] {
      assert (a + b)[1..] == a[1..] + b;
      WithoutNameAppend(a[1..], b, name);
    } else {
      assert a + b == b;
    }
  }

  /** Dropping the head of a list keeps its names unique. */
  lemma UniqueTail(subs: seq<Subscriber>)
    requires SubscriberNamesUnique(subs) && subs != []
    ensures SubscriberNamesUnique(subs[1..])
  {
    var tail := subs[1..];
    forall i, j | 0 <= i < j < |tail| ensures tail[i].name != tail[j].name {
      assert tail[i] == subs[i + 1] && tail[j] == subs[j + 1];
    }
  }

  /** Within a list of unique names, the filter removes exactly the one entry
      of that name and keeps all others in order. */
  lemma {:induction false} WithoutNameRemovesOne(subs: seq<Subscriber>, i: nat)
    requires SubscriberNamesUnique(subs)
    requires i < |subs|
    ensures WithoutName(subs, subs[i].name) == subs[..i] + subs[i + 1..]
  {
    var name := subs[i].name;
    UniqueTail(subs);
    if i == 0 {
      assert !HasName(subs[1..], name) by {
        forall j | 0 <= j < |subs[1..]| ensures subs[1..][j].name != name {
          assert subs[1..][j] == subs[j + 1];
        }
      }
      WithoutNameAbsent(subs[1..], name);
    } else {
      WithoutNameRemovesOne(subs[1..], i - 1);
      assert subs[1..][i - 1] == subs[i];
      assert subs[0].name != name;
      assert [subs[0]] + (subs[1..][..i - 1] + subs[1..][i..]) == subs[..i] + subs[i + 1..];
    }
  }

  /** The filter never introduces a duplicate name. */
  lemma {:induction false} WithoutNameKeepsUnique(subs: seq<Subscriber>, name: string)
    requires SubscriberNamesUnique(subs)
    ensures SubscriberNamesUnique(WithoutName(subs, name))
  {
    if subs != [] {
      var tail := subs[1..];
      UniqueTail(subs);
      WithoutNameKeepsUnique(tail, name);
      var rest := WithoutName(tail, name);
      var r := WithoutName(subs, name);
      if subs[0].name != name {
        assert r == [subs[0]] + rest;
        forall i, j | 0 <= i < j < |r| ensures r[i].name != r[j].name {
          if i == 0 {
            assert r[j] == rest[j - 1];
            assert rest[j - 1] in tail;
            var t :| 0 <= t < |tail| && tail[t] == rest[j - 1];
            assert subs[t + 1] == tail[t];
          } else {
            assert r[i] == rest[i - 1] && r[j] == rest[j - 1];
          }
        }
      } else {
        assert r == rest;
      }
    }
  }

  /** unregister of an unknown event or an unknown subscriber name changes
      nothing. */
  lemma UnregisterUnknown(reg: Registry, eventName: string, subscriberName: string)
    requires FindEvent(reg, eventName).None? || !HasName(SubscribersOf(reg, eventName), subscriberName)
    ensures Unregister(reg, eventName, subscriberName) == reg
  {
  }

  /** unregister leaves the event's list filtered of that name, in order; the
      event itself stays, possibly with no subscribers, and no other event
      changes. */
  lemma UnregisterRemoves(reg: Registry, eventName: string, subscriberName: string)
    ensures var r := Unregister(reg, eventName, subscriberName);
            && SubscribersOf(r, eventName) == WithoutName(SubscribersOf(reg, eventName), subscriberName)
            && |r| == |reg|
            && (forall j :: 0 <= j < |reg| ==> r[j].eventName == reg[j].eventName)
            && (forall j :: 0 <= j < |reg| && FindEvent(reg, eventName) != Some(j) ==> r[j] == reg[j])
  {
    var r := Unregister(reg, eventName, subscriberName);
    FindEventSameNames(reg, r, eventName);
    var subs := SubscribersOf(reg, eventName);
    if !HasName(subs, subscriberName) {
      WithoutNameAbsent(subs, subscriberName);
    }
  }

  /** unregister keeps both uniqueness invariants. */
  lemma UnregisterKeepsUnique(reg: Registry, eventName: string, subscriberName: string)
    requires EventNamesUnique(reg) && AllSubscriberNamesUnique(reg)
    ensures EventNamesUnique(Unregister(reg, eventName, subscriberName))
    ensures AllSubscriberNamesUnique(Unregister(reg, eventName, subscriberName))
  {
    var f := FindEvent(reg, eventName);
    if f.Some? {
      WithoutNameKeepsUnique(reg[f.value].subscribers, subscriberName);
    }
  }

  /** Registering a new name and unregistering it again leaves the event in
      the registry with the subscribers it had (none, if it was new). */
  lemma RegisterThenUnregister(reg: Registry, eventName: string, subscriber: Subscriber)
    requires !HasName(SubscribersOf(reg, eventName), subscriber.name)
    ensures Unregister(Register(reg, eventName, subscriber), eventName, subscriber.name)
              == GetEvent(reg, eventName, true).0
  {
    var g := GetEvent(reg, eventName, true);
    var k := g.1.value;
    var r := Register(reg, eventName, subscriber);
    var subs := g.0[k].subscribers;
    assert subs == SubscribersOf(reg, eventName) by {
      if FindEvent(reg, eventName).None? {
        assert k == |reg|;
      }
    }
    FindEventSameNames(g.0, r, eventName);
    assert r[k].subscribers == subs + [subscriber];
    assert HasName(r[k].subscribers, subscriber.name) by {
      assert r[k].subscribers[|subs|] == subscriber;
    }
    WithoutNameAppend(subs, [subscriber], subscriber.name);
    WithoutNameAbsent(subs, subscriber.name);
    assert WithoutName([subscriber], subscriber.name) == [];
    assert subs + [] == subs;
  }

  // ---------------------------------------------------------------------
  // publish

  /** Notifying two lists in turn makes the calls of both, in turn. */
  lemma {:induction false} InvocationsAppend<D>(a: seq<Subscriber>, b: seq<Subscriber>, data: D)
    ensures Invocations(a + b, data) == Invocations(a, data) + Invocations(b, data)
  {
    if b == [] {
      assert a + b == a;
    } else {
      var b' := b[..|b| - 1];
      assert (a + b)[..|a + b| - 1] == a + b';
      assert (a + b)[|a + b| - 1] == b[|b| - 1];
      InvocationsAppend(a, b', data);
    }
  }

  /** Every call is of a subscriber of the list, with that subscriber's
      handler. */
  lemma {:induction false} InvocationsSound<D>(subs: seq<Subscriber>, data: D, k: nat)
    requires k < |Invocations(subs, data)|
    ensures exists i :: 0 <= i < |subs| && subs[i].name == Invocations(subs, data)[k].subscriber
                        && subs[i].handler == Some(Invocations(subs, data)[k].handler)
  {
    var init := subs[..|subs| - 1];
    var last := subs[|subs| - 1];
    if k < |Invocations(init, data)| {
      InvocationsSound(init, data, k);
      var i :| 0 <= i < |init| && init[i].name == Invocations(init, data)[k].subscriber
               && init[i].handler == Some(Invocations(init, data)[k].handler);
      assert subs[i] == init[i];
    } else {
      assert Invocations(subs, data)[k] == Invocation(last.name, last.handler.value, data);
    }
  }

  /** Every subscriber of the list that has a handler is called, with the
      published data. */
  lemma {:induction false} InvocationsComplete<D>(subs: seq<Subscriber>, data: D, i: nat)
    requires i < |subs| && subs[i].handler.Some?
    ensures Invocation(subs[i].name, subs[i].handler.value, data) in Invocations(subs, data)
  {
    var init := subs[..|subs| - 1];
    if i < |init| {
      assert init[i] == subs[i];
      InvocationsComplete(init, data, i);
    } else {
      assert Call(subs[i], data) == [Invocation(subs[i].name, subs[i].handler.value, data)];
    }
  }

  /** Subscribers are called in list order: of two subscribers with handlers,
      the earlier one's call comes first. */
  lemma InvocationsOrdered<D>(subs: seq<Subscriber>, data: D, i: nat, j: nat)
    requires i < j < |subs| && subs[i].handler.Some? && subs[j].handler.Some?
    ensures exists p, q :: 0 <= p < q < |Invocations(subs, data)|
              && Invocations(subs, data)[p] == Invocation(subs[i].name, subs[i].handler.value, data)
              && Invocations(subs, data)[q] == Invocation(subs[j].name, subs[j].handler.value, data)
  {
    var a, b, c := subs[..i], subs[i + 1..j], subs[j + 1..];
    assert subs == a + [subs[i]] + b + [subs[j]] + c;
    InvocationsAppend(a + [subs[i]] + b + [subs[j]], c, data);
    InvocationsAppend(a + [subs[i]] + b, [subs[j]], data);
    InvocationsAppend(a + [subs[i]], b, data);
    InvocationsAppend(a, [subs[i]], data);
    assert Invocations([subs[i]], data) == Call(subs[i], data) by {
      assert [subs[i]][..0] == [];
    }
    assert Invocations([subs[j]], data) == Call(subs[j], data) by {
      assert [subs[j]][..0] == [];
    }
    var t := Invocations(subs, data);
    var p := |Invocations(a, data)|;
    var q := p + 1 + |Invocations(b, data)|;
    assert t[p] == Invocation(subs[i].name, subs[i].handler.value, data);
    assert t[q] == Invocation(subs[j].name, subs[j].handler.value, data);
  }

  /** No subscriber occurs twice in a trace of calls. */
  ghost predicate EachCalledOnce<D>(t: seq<Invocation<D>>) {
    forall p, q :: 0 <= p < q < |t| ==> t[p].subscriber != t[q].subscriber
  }

  /** With unique subscriber names, no subscriber is called twice. */
  lemma {:induction false} InvocationsOnce<D>(subs: seq<Subscriber>, data: D)
    requires SubscriberNamesUnique(subs)
    ensures EachCalledOnce(Invocations(subs, data))
  {
    if subs != [] {
      var init := subs[..|subs| - 1];
      var last := subs[|subs| - 1];
      assert SubscriberNamesUnique(init) by {
        forall i, j | 0 <= i < j < |init| ensures init[i].name != init[j].name {
          assert init[i] == subs[i] && init[j] == subs[j];
        }
      }
      InvocationsOnce(init, data);
      var t := Invocations(subs, data);
      var t0 := Invocations(init, data);
      assert t == t0 + Call(last, data);
      forall p, q | 0 <= p < q < |t| ensures t[p].subscriber != t[q].subscriber {
        if q >= |t0| {
          assert p < |t0| && t[p] == t0[p];
          assert t[q].subscriber == last.name;
          InvocationsSound(init, data, p);
          var i :| 0 <= i < |init| && init[i].name == t0[p].subscriber
                   && init[i].handler == Some(t0[p].handler);
          assert subs[i] == init[i];
          assert subs[i].name != subs[|subs| - 1].name;
          assert t[p].subscriber == subs[i].name;
        } else {
          assert t[p] == t0[p] && t[q] == t0[q];
        }
      }
    }
  }

  /** publish calls exactly the subscribers with a handler of the first
      event of that name, each with the published data; a subscriber that
      is not on that event is never called, and an unknown event gives no
      calls at all. */
  lemma PublishDelivers<D>(reg: Registry, eventName: string, data: D)
    ensures var t := PublishTrace(reg, eventName, data);
            var subs := SubscribersOf(reg, eventName);
            && t == Invocations(subs, data)
            && (FindEvent(reg, eventName).None? ==> t == [])
            && (forall k :: 0 <= k < |t| ==> t[k].data == data && HasName(subs, t[k].subscriber))
            && (forall i :: 0 <= i < |subs| && subs[i].handler.Some? ==>
                  Invocation(subs[i].name, subs[i].handler.value, data) in t)
  {
    var t := PublishTrace(reg, eventName, data);
    var subs := SubscribersOf(reg, eventName);
    forall k | 0 <= k < |t| ensures HasName(subs, t[k].subscriber) {
      InvocationsSound(subs, data, k);
    }
    forall i | 0 <= i < |subs| && subs[i].handler.Some?
      ensures Invocation(subs[i].name, subs[i].handler.value, data) in t
    {
      InvocationsComplete(subs, data, i);
    }
  }
}
