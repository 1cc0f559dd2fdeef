/** The bus as an object: `subscribe` grows the map of sender lists, `publish` snapshots one list
  * and loops over it. Run without interruption they are runs of the steps of Channel. */
module LocalChannels {
  import opened Wrappers
  import opened Channel

  function Sends(call: nat, n: nat): seq<Step> {
    if n == 0 then [] else Sends(call, n - 1) + [Step.Send(call)]
  }

  // The steps of a publish call that nothing interrupts.
  function PublishSteps(b: Bus, publisher: nat, envelope: Envelope): seq<Step> {
    var n := |Handles(b, envelope.topic)|;
    var c := |b.calls|;
    if n == 0 then [Step.Publish(publisher, envelope)]
    else [Step.Publish(publisher, envelope)] + Sends(c, n) + [Step.Return(c)]
  }

  lemma RunOneMore(b: Bus, steps: seq<Step>, step: Step)
    ensures Run(b, steps + [step]) == Next(Run(b, steps), step)
  {
    assert (steps + [step])[..|steps|] == steps;
  }

  // The bus after n sends of one call.
  function AfterSends(b: Bus, c: nat, n: nat): Bus {
    if n == 0 then b else Next(AfterSends(b, c, n - 1), Step.Send(c))
  }

  lemma SendsOneMore(steps: seq<Step>, c: nat, n: nat)
    requires n > 0
    ensures steps + Sends(c, n) == (steps + Sends(c, n - 1)) + [Step.Send(c)]
  {}

  lemma RunOneMoreSend(b: Bus, steps: seq<Step>, c: nat, n: nat)
    requires n > 0
    ensures Run(b, steps + Sends(c, n)) == Next(Run(b, steps + Sends(c, n - 1)), Step.Send(c))
  {
    SendsOneMore(steps, c, n);
    RunOneMore(b, steps + Sends(c, n - 1), Step.Send(c));
  }

  lemma {:induction false} RunOfSends(b: Bus, steps: seq<Step>, c: nat, n: nat)
    ensures Run(b, steps + Sends(c, n)) == AfterSends(Run(b, steps), c, n)
  {
    if n == 0 {
      assert steps + Sends(c, 0) == steps;
    } else {
      RunOfSends(b, steps, c, n - 1);
      RunOneMoreSend(b, steps, c, n);
    }
  }

  // The run of a publish call, step by step.
  lemma PublishIsRun(b: Bus, publisher: nat, envelope: Envelope)
    ensures var taken, n, c := Next(b, Step.Publish(publisher, envelope)), |Handles(b, envelope.topic)|, |b.calls|;
      Run(b, PublishSteps(b, publisher, envelope))
      == if n == 0 then taken else Next(AfterSends(taken, c, n), Step.Return(c))
  {
    var first, n, c := [Step.Publish(publisher, envelope)], |Handles(b, envelope.topic)|, |b.calls|;
    RunOneMore(b, [], Step.Publish(publisher, envelope));
    assert [] + first == first;
    if n > 0 {
      RunOfSends(b, first, c, n);
      RunOneMore(b, first + Sends(c, n), Step.Return(c));
    }
  }

  // Every sender handle has a receiver: SubscribersListed, which every reachable bus satisfies,
  // implies it.
  predicate HandlesExist(b: Bus, topic: Topic) {
    forall i :: 0 <= i < |Handles(b, topic)| ==> Handles(b, topic)[i] < |b.receivers|
  }

  lemma ReachableHandlesExist(capacity: nat, steps: seq<Step>, topic: Topic)
    ensures HandlesExist(Run(Init(capacity), steps), topic)
  {
    var b := Run(Init(capacity), steps);
    ReachableInv(capacity, steps);
    forall i | 0 <= i < |Handles(b, topic)| ensures Handles(b, topic)[i] < |b.receivers| {
      assert Handles(b, topic)[i] in Handles(b, topic) && IsSubscription(b, topic, Handles(b, topic)[i]);
    }
  }

  class LocalChannel {
    const capacity: nat
    var subscribers: map<Topic, seq<nat>>
    var receivers: seq<Receiver>
    // The publish calls made so far; queued messages are named by their position here.
    var calls: seq<Call>

    ghost function State(): Bus
      reads this
    {
      Bus(capacity, subscribers, receivers, calls)
    }

    constructor WithCapacity(capacity: nat)
      ensures State() == Init(capacity)
    {
      this.capacity := capacity;
      subscribers, receivers, calls := map[], [], [];
    }

    method Subscribe(topic: Topic) returns (rx: nat)
      requires capacity > 0
      modifies this`subscribers, this`receivers
      ensures rx == |old(receivers)| && State() == Next(old(State()), Step.Subscribe(topic))
    {
      rx := |receivers|;
      var senders := if topic in subscribers then subscribers[topic] else [];
      subscribers := subscribers[topic := senders + [rx]];
      receivers := receivers + [Receiver(topic, true, [], |calls|, [], false)];
    }

    // `try_send` on the next sender handle of a call.
    method SendNext(c: nat)
      requires InFlight(State(), c) && calls[c].next < |calls[c].snapshot|
      requires calls[c].snapshot[calls[c].next] < |receivers|
      modifies this`receivers, this`calls
      ensures State() == Next(old(State()), Step.Send(c))
      ensures |receivers| == |old(receivers)| && |calls| == |old(calls)|
      ensures calls[c] == old(calls)[c].(next := old(calls)[c].next + 1)
    {
      var r := calls[c].snapshot[calls[c].next];
      receivers := receivers[r := TrySend(capacity, receivers[r], c)];
      calls := calls[c := calls[c].(next := calls[c].next + 1)];
    }

    // The loop over the sender handles of a call that has just taken its snapshot.
    method SendAll(c: nat)
      requires InFlight(State(), c) && calls[c].next == 0
      requires forall i :: 0 <= i < |calls[c].snapshot| ==> calls[c].snapshot[i] < |receivers|
      modifies this`receivers, this`calls
      ensures State() == AfterSends(old(State()), c, |old(calls)[c].snapshot|)
      ensures |calls| == |old(calls)|
      ensures calls[c] == old(calls)[c].(next := |old(calls)[c].snapshot|)
    {
      for i := 0 to |calls[c].snapshot|
        invariant |calls| == |old(calls)| && calls[c] == old(calls)[c].(next := i)
        invariant |receivers| == |old(receivers)|
        invariant State() == AfterSends(old(State()), c, i)
      {
        SendNext(c);
      }
    }

    method Publish(publisher: nat, envelope: Envelope) returns (result: Outcome)
      requires Idle(State(), publisher) && HandlesExist(State(), envelope.topic)
      modifies this`receivers, this`calls
      ensures State() == Run(old(State()), PublishSteps(old(State()), publisher, envelope))
      ensures |calls| == |old(calls)| + 1 && calls[|old(calls)|].result == Some(result)
      ensures result == NoSubscribers <==> Handles(old(State()), envelope.topic) == []
    {
      ghost var before := State();
      var c := |calls|;
      var senders := if envelope.topic in subscribers then subscribers[envelope.topic] else [];
      calls := calls + [Call(publisher, envelope, senders, 0, if senders == [] then Some(NoSubscribers) else None)];
      assert State() == Next(before, Step.Publish(publisher, envelope));
      PublishIsRun(before, publisher, envelope);
      if senders == [] {
        return NoSubscribers;
      }
      SendAll(c);
      calls := calls[c := calls[c].(result := Some(Delivered))];
      result := Delivered;
    }
  }
}
