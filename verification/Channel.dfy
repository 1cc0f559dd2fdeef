/** The in-process service bus as a step system: publishers snapshot the subscriber list under the
  * lock and send outside it, interleaved with subscriptions, receives and dropped receivers. */
module Channel {
  import opened Wrappers

  type Topic = string
  datatype Envelope = Envelope(topic: Topic, source: string, payload: string)

  // A subscription. A queued message is named by the publish call that sent it. Besides the state
  // of the queue this records what an observer needs: how many publish calls had taken their
  // snapshot before the subscription, everything ever queued, and whether a send ever failed.
  datatype Receiver = Receiver(
    topic: Topic, open: bool, queue: seq<nat>, since: nat, history: seq<nat>, missed: bool)

  datatype Outcome = Delivered | NoSubscribers

  // A publish call: the snapshot of sender handles it took, how many of them it has tried, and
  // what it returned.
  datatype Call = Call(publisher: nat, envelope: Envelope, snapshot: seq<nat>, next: nat, result: Option<Outcome>)

  datatype Bus = Bus(capacity: nat, subscribers: map<Topic, seq<nat>>, receivers: seq<Receiver>, calls: seq<Call>)

  datatype Step =
    | Subscribe(topic: Topic)
    | Publish(publisher: nat, envelope: Envelope)
    | Send(call: nat)
    | Return(call: nat)
    | Receive(receiver: nat)
    | Drop(receiver: nat)

  function Init(capacity: nat): Bus {
    Bus(capacity, map[], [], [])
  }

  function Handles(b: Bus, topic: Topic): seq<nat> {
    if topic in b.subscribers then b.subscribers[topic] else []
  }

  predicate Idle(b: Bus, publisher: nat) {
    forall c :: 0 <= c < |b.calls| && b.calls[c].publisher == publisher ==> b.calls[c].result.Some?
  }

  // `try_send`: refused when the receiver is gone or its queue is full.
  function TrySend(capacity: nat, r: Receiver, call: nat): Receiver {
    if !r.open || |r.queue| >= capacity then r.(missed := true)
    else r.(queue := r.queue + [call], history := r.history + [call])
  }

  predicate InFlight(b: Bus, c: nat) {
    c < |b.calls| && b.calls[c].result.None?
  }

  // One atomic step. A step that is not enabled changes nothing. A channel of capacity zero cannot
  // be created, and a publisher makes one call at a time.
  function Next(b: Bus, step: Step): Bus {
    match step
    case Subscribe(topic) =>
      if b.capacity == 0 then b
      else
        b.(subscribers := b.subscribers[topic := Handles(b, topic) + [|b.receivers|]],
           receivers := b.receivers + [Receiver(topic, true, [], |b.calls|, [], false)])
    case Publish(publisher, envelope) =>
      if !Idle(b, publisher) then b
      else
        var snapshot := Handles(b, envelope.topic);
        var result := if snapshot == [] then Some(NoSubscribers) else None;
        b.(calls := b.calls + [Call(publisher, envelope, snapshot, 0, result)])
    case Send(c) =>
      if !InFlight(b, c) || b.calls[c].next >= |b.calls[c].snapshot| then b
      else
        var call := b.calls[c];
        var r := call.snapshot[call.next];
        b.(calls := b.calls[c := call.(next := call.next + 1)],
           receivers :=
             if r < |b.receivers| then b.receivers[r := TrySend(b.capacity, b.receivers[r], c)] else b.receivers)
    case Return(c) =>
      if !InFlight(b, c) || b.calls[c].next < |b.calls[c].snapshot| then b
      else b.(calls := b.calls[c := b.calls[c].(result := Some(Delivered))])
    case Receive(r) =>
      if r >= |b.receivers| || b.receivers[r].queue == [] then b
      else b.(receivers := b.receivers[r := b.receivers[r].(queue := b.receivers[r].queue[1..])])
    case Drop(r) =>
      if r >= |b.receivers| then b
      else b.(receivers := b.receivers[r := b.receivers[r].(open := false, queue := [])])
  }

  function Run(b: Bus, steps: seq<Step>): Bus {
    if steps == [] then b else Next(Run(b, steps[..|steps| - 1]), steps[|steps| - 1])
  }

  // ---- the invariant ----

  predicate Increasing(s: seq<nat>) {
    forall i, j :: 0 <= i < j < |s| ==> s[i] < s[j]
  }

  // Whether a publish call has a receiver among its targets: same topic, subscribed before.
  predicate Targets(b: Bus, c: nat, r: nat)
    requires c < |b.calls|
  {
    r < |b.receivers| && b.receivers[r].topic == b.calls[c].envelope.topic && b.receivers[r].since <= c
  }

  predicate SamePublisher(b: Bus, c: nat, d: nat) {
    c < |b.calls| && d < |b.calls| && b.calls[c].publisher == b.calls[d].publisher
  }

  predicate Tried(call: Call, r: nat) {
    call.next <= |call.snapshot| && r in call.snapshot[..call.next]
  }

  predicate IsSubscription(b: Bus, t: Topic, r: nat) {
    r < |b.receivers| && b.receivers[r].topic == t
  }

  // The map lists, for each topic, exactly its subscriptions in order.
  ghost predicate SubscribersListed(b: Bus) {
    && (forall t :: t in b.subscribers ==> b.subscribers[t] != [])
    && (forall t :: Increasing(Handles(b, t)))
    && (forall t, r: nat :: r in Handles(b, t) <==> IsSubscription(b, t, r))
    && (forall r :: 0 <= r < |b.receivers| ==> b.receivers[r].since <= |b.calls|)
  }

  // A snapshot holds exactly the subscriptions to the topic that preceded it.
  ghost predicate SnapshotsExact(b: Bus) {
    forall c :: 0 <= c < |b.calls| ==>
      && Increasing(b.calls[c].snapshot)
      && (forall r: nat :: r in b.calls[c].snapshot <==> Targets(b, c, r))
  }

  ghost predicate CallsProgress(b: Bus) {
    && (forall c :: 0 <= c < |b.calls| ==>
          && b.calls[c].next <= |b.calls[c].snapshot|
          && (b.calls[c].result == Some(NoSubscribers) <==> b.calls[c].snapshot == [])
          && (b.calls[c].result == Some(Delivered) ==> b.calls[c].next == |b.calls[c].snapshot|))
    && (forall c, d :: 0 <= c < d < |b.calls| && b.calls[c].publisher == b.calls[d].publisher ==>
          b.calls[c].result.Some?)
  }

  ghost predicate QueueBounded(b: Bus, r: nat)
    requires r < |b.receivers|
  {
    var it := b.receivers[r];
    && |it.queue| <= b.capacity
    && |it.queue| <= |it.history|
    && (it.open ==> it.history[|it.history| - |it.queue|..] == it.queue)
  }

  // What a receiver was ever given: only calls that target it and have tried it, each once, and
  // the calls of one publisher in the order they were made.
  ghost predicate HistoryTrue(b: Bus, r: nat)
    requires r < |b.receivers|
  {
    var h := b.receivers[r].history;
    && (forall i :: 0 <= i < |h| ==> h[i] < |b.calls| && Tried(b.calls[h[i]], r))
    && (forall i, j :: 0 <= i < j < |h| ==> h[i] != h[j])
    && (forall i, j :: 0 <= i < j < |h| ==> SamePublisher(b, h[i], h[j]) ==> h[i] < h[j])
  }

  ghost predicate NothingMissed(b: Bus, r: nat)
    requires r < |b.receivers|
  {
    !b.receivers[r].missed ==>
      forall c :: 0 <= c < |b.calls| && Tried(b.calls[c], r) ==> c in b.receivers[r].history
  }

  ghost predicate ReceiversTrue(b: Bus) {
    forall r :: 0 <= r < |b.receivers| ==> ReceiverTrue(b, r)
  }

  ghost predicate Inv(b: Bus) {
    SubscribersListed(b) && SnapshotsExact(b) && CallsProgress(b) && ReceiversTrue(b)
  }

  ghost predicate ReceiverTrue(b: Bus, r: nat)
    requires r < |b.receivers|
  {
    QueueBounded(b, r) && HistoryTrue(b, r) && NothingMissed(b, r)
  }

  // A receiver that a step does not touch stays right when no call newly tries it.
  lemma UntouchedReceiver(b: Bus, b': Bus, r: nat)
    requires r < |b.receivers| && r < |b'.receivers| && b'.receivers[r] == b.receivers[r]
    requires b'.capacity == b.capacity && |b.calls| <= |b'.calls|
    requires forall c :: 0 <= c < |b.calls| ==>
      b'.calls[c].publisher == b.calls[c].publisher && (Tried(b'.calls[c], r) <==> Tried(b.calls[c], r))
    requires forall c :: |b.calls| <= c < |b'.calls| ==> !Tried(b'.calls[c], r)
    requires ReceiverTrue(b, r)
    ensures ReceiverTrue(b', r)
  {
    var h := b.receivers[r].history;
    forall i, j | 0 <= i < j < |h| && SamePublisher(b', h[i], h[j]) ensures h[i] < h[j] {
      assert SamePublisher(b, h[i], h[j]);
    }
  }

  // The steps that change neither subscriptions nor what calls aim at.
  ghost predicate SameShape(b: Bus, b': Bus) {
    && b'.capacity == b.capacity && b'.subscribers == b.subscribers
    && |b'.receivers| == |b.receivers| && |b'.calls| == |b.calls|
    && (forall r :: 0 <= r < |b.receivers| ==>
          b'.receivers[r].topic == b.receivers[r].topic && b'.receivers[r].since == b.receivers[r].since)
    && (forall c :: 0 <= c < |b.calls| ==>
          && b'.calls[c].publisher == b.calls[c].publisher
          && b'.calls[c].envelope == b.calls[c].envelope
          && b'.calls[c].snapshot == b.calls[c].snapshot)
  }

  lemma ShapeKeepsLists(b: Bus, b': Bus)
    requires SameShape(b, b') && SubscribersListed(b)
    ensures SubscribersListed(b')
  {
    forall t ensures Handles(b', t) == Handles(b, t) {}
    forall t, r: nat ensures IsSubscription(b', t, r) <==> IsSubscription(b, t, r) {}
  }

  lemma ShapeKeepsSnapshots(b: Bus, b': Bus)
    requires SameShape(b, b') && SnapshotsExact(b)
    ensures SnapshotsExact(b')
  {
    forall c: nat, r: nat | c < |b.calls| ensures Targets(b', c, r) <==> Targets(b, c, r) {}
  }

  lemma SubscribeKeepsOrder(b: Bus, topic: Topic)
    requires SubscribersListed(b) && b.capacity > 0
    ensures forall t :: Increasing(Handles(Next(b, Subscribe(topic)), t))
  {
    var b' := Next(b, Subscribe(topic));
    forall t ensures Increasing(Handles(b', t)) {
      var h := Handles(b, t);
      assert Increasing(h) && forall i :: 0 <= i < |h| ==> h[i] in h && IsSubscription(b, t, h[i]);
      assert Handles(b', t) == if t == topic then h + [|b.receivers|] else h;
    }
  }

  lemma SubscribeKeepsLists(b: Bus, topic: Topic)
    requires SubscribersListed(b) && b.capacity > 0
    ensures SubscribersListed(Next(b, Subscribe(topic)))
  {
    var b' := Next(b, Subscribe(topic));
    var n := |b.receivers|;
    SubscribeKeepsOrder(b, topic);
    forall t, r: nat ensures r in Handles(b', t) <==> IsSubscription(b', t, r) {
      assert Handles(b', t) == if t == topic then Handles(b, t) + [n] else Handles(b, t);
      assert IsSubscription(b', t, r) <==> IsSubscription(b, t, r) || (t == topic && r == n);
    }
  }

  lemma SubscribeKeepsSnapshots(b: Bus, topic: Topic)
    requires SnapshotsExact(b) && b.capacity > 0
    ensures SnapshotsExact(Next(b, Subscribe(topic)))
  {
    var b' := Next(b, Subscribe(topic));
    forall c: nat, r: nat | c < |b.calls| ensures Targets(b', c, r) <==> Targets(b, c, r) {}
  }

  lemma SubscribeKeepsInv(b: Bus, topic: Topic)
    requires Inv(b) && b.capacity > 0
    ensures Inv(Next(b, Subscribe(topic)))
  {
    var b' := Next(b, Subscribe(topic));
    SubscribeKeepsLists(b, topic);
    SubscribeKeepsSnapshots(b, topic);
    forall r | 0 <= r < |b'.receivers| ensures ReceiverTrue(b', r) {
      if r < |b.receivers| {
        UntouchedReceiver(b, b', r);
      } else {
        forall c | 0 <= c < |b.calls| ensures !Tried(b.calls[c], r) {
          assert !Targets(b, c, r);
        }
      }
    }
  }

  lemma PublishKeepsSnapshots(b: Bus, publisher: nat, envelope: Envelope)
    requires SubscribersListed(b) && SnapshotsExact(b) && Idle(b, publisher)
    ensures SnapshotsExact(Next(b, Publish(publisher, envelope)))
  {
    var b' := Next(b, Publish(publisher, envelope));
    forall c: nat, r: nat | c < |b.calls| ensures Targets(b', c, r) <==> Targets(b, c, r) {}
  }

  lemma PublishKeepsInv(b: Bus, publisher: nat, envelope: Envelope)
    requires Inv(b) && Idle(b, publisher)
    ensures Inv(Next(b, Publish(publisher, envelope)))
  {
    var b' := Next(b, Publish(publisher, envelope));
    assert forall t :: Handles(b', t) == Handles(b, t);
    assert SubscribersListed(b');
    PublishKeepsSnapshots(b, publisher, envelope);
    assert CallsProgress(b');
    forall r | 0 <= r < |b'.receivers| ensures ReceiverTrue(b', r) {
      UntouchedReceiver(b, b', r);
    }
  }

  // The call at hand is the latest of its publisher, and this receiver does not have it yet.
  lemma CallAtHandIsNew(b: Bus, c: nat, r: nat)
    requires Inv(b) && InFlight(b, c) && r < |b.receivers| && !Tried(b.calls[c], r)
    ensures var h := b.receivers[r].history;
      c !in h && forall i :: 0 <= i < |h| && SamePublisher(b, h[i], c) ==> h[i] < c
  {
    assert ReceiverTrue(b, r);
  }

  lemma SendTries(b: Bus, c: nat)
    requires Inv(b) && InFlight(b, c) && b.calls[c].next < |b.calls[c].snapshot|
    ensures var call, r := b.calls[c], b.calls[c].snapshot[b.calls[c].next];
      && r < |b.receivers| && !Tried(call, r)
      && forall q: nat :: Tried(call.(next := call.next + 1), q) <==> Tried(call, q) || q == r
  {
    var call := b.calls[c];
    var r := call.snapshot[call.next];
    assert Targets(b, c, r);
    assert call.snapshot[..call.next + 1] == call.snapshot[..call.next] + [r];
  }

  // A history stays true when the call at hand is added to it.
  lemma HistoryGrows(b: Bus, b': Bus, c: nat, r: nat)
    requires r < |b.receivers| == |b'.receivers| && c < |b.calls| == |b'.calls| && HistoryTrue(b, r)
    requires forall d :: 0 <= d < |b.calls| ==>
      b'.calls[d].publisher == b.calls[d].publisher && (Tried(b.calls[d], r) ==> Tried(b'.calls[d], r))
    requires Tried(b'.calls[c], r) && c !in b.receivers[r].history
    requires var h := b.receivers[r].history;
      && (forall i :: 0 <= i < |h| && SamePublisher(b, h[i], c) ==> h[i] < c)
      && (b'.receivers[r].history == h || b'.receivers[r].history == h + [c])
    ensures HistoryTrue(b', r)
  {
    var h, h' := b.receivers[r].history, b'.receivers[r].history;
    forall i, j | 0 <= i < j < |h'| && SamePublisher(b', h'[i], h'[j]) ensures h'[i] < h'[j] {
      assert SamePublisher(b, h'[i], h'[j]);
    }
  }

  // The history of the receiver that a send reaches.
  lemma SentHistoryTrue(b: Bus, c: nat)
    requires Inv(b) && InFlight(b, c) && b.calls[c].next < |b.calls[c].snapshot|
    ensures var r := b.calls[c].snapshot[b.calls[c].next];
      r < |b.receivers| && HistoryTrue(Next(b, Send(c)), r)
  {
    var b' := Next(b, Send(c));
    var r := b.calls[c].snapshot[b.calls[c].next];
    SendTries(b, c);
    CallAtHandIsNew(b, c, r);
    assert ReceiverTrue(b, r);
    HistoryGrows(b, b', c, r);
  }

  // Its queue, and what it has missed.
  lemma SentQueueBounded(b: Bus, c: nat, r: nat)
    requires r < |b.receivers| && QueueBounded(b, r) && InFlight(b, c)
    requires b.calls[c].next < |b.calls[c].snapshot| && r == b.calls[c].snapshot[b.calls[c].next]
    ensures QueueBounded(Next(b, Send(c)), r)
  {}

  lemma SentNothingMissed(b: Bus, c: nat, r: nat)
    requires r < |b.receivers| && NothingMissed(b, r) && InFlight(b, c)
    requires b.calls[c].next < |b.calls[c].snapshot| && r == b.calls[c].snapshot[b.calls[c].next]
    requires forall q: nat :: Tried(b.calls[c].(next := b.calls[c].next + 1), q) <==> Tried(b.calls[c], q) || q == r
    ensures NothingMissed(Next(b, Send(c)), r)
  {
    var b' := Next(b, Send(c));
    forall d | 0 <= d < |b'.calls| && Tried(b'.calls[d], r) ensures d == c || Tried(b.calls[d], r) {}
  }

  lemma SentReceiverStaysTrue(b: Bus, c: nat)
    requires Inv(b) && InFlight(b, c) && b.calls[c].next < |b.calls[c].snapshot|
    ensures var r := b.calls[c].snapshot[b.calls[c].next];
      r < |b.receivers| && ReceiverTrue(Next(b, Send(c)), r)
  {
    var r := b.calls[c].snapshot[b.calls[c].next];
    SendTries(b, c);
    assert ReceiverTrue(b, r);
    SentQueueBounded(b, c, r);
    SentHistoryTrue(b, c);
    SentNothingMissed(b, c, r);
  }

  lemma SendKeepsInv(b: Bus, c: nat)
    requires Inv(b) && InFlight(b, c) && b.calls[c].next < |b.calls[c].snapshot|
    ensures Inv(Next(b, Send(c)))
  {
    var b' := Next(b, Send(c));
    SendTries(b, c);
    SentReceiverStaysTrue(b, c);
    ShapeKeepsLists(b, b');
    ShapeKeepsSnapshots(b, b');
    assert CallsProgress(b');
    forall q | 0 <= q < |b'.receivers| ensures ReceiverTrue(b', q) {
      if q != b.calls[c].snapshot[b.calls[c].next] {
        UntouchedReceiver(b, b', q);
      }
    }
  }

  lemma ReturnKeepsInv(b: Bus, c: nat)
    requires Inv(b) && InFlight(b, c) && b.calls[c].next >= |b.calls[c].snapshot|
    ensures Inv(Next(b, Return(c)))
  {
    var b' := Next(b, Return(c));
    ShapeKeepsLists(b, b');
    ShapeKeepsSnapshots(b, b');
    assert CallsProgress(b');
    forall q | 0 <= q < |b'.receivers| ensures ReceiverTrue(b', q) {
      UntouchedReceiver(b, b', q);
    }
  }

  lemma HistoryDependsOnCalls(b: Bus, b': Bus, r: nat)
    requires r < |b.receivers| == |b'.receivers| && b'.calls == b.calls && HistoryTrue(b, r)
    requires b'.receivers[r].history == b.receivers[r].history
    ensures HistoryTrue(b', r)
  {
    forall c: nat, d: nat ensures SamePublisher(b', c, d) <==> SamePublisher(b, c, d) {}
  }

  // Taking from a queue, or dropping it.
  lemma ReceiverStepKeepsReceiver(b: Bus, r: nat, step: Step)
    requires r < |b.receivers| && ReceiverTrue(b, r)
    requires step == Drop(r) || (step == Receive(r) && b.receivers[r].queue != [])
    ensures ReceiverTrue(Next(b, step), r)
  {
    HistoryDependsOnCalls(b, Next(b, step), r);
  }

  lemma ReceiverStepKeepsInv(b: Bus, r: nat, step: Step)
    requires Inv(b) && r < |b.receivers|
    requires step == Drop(r) || (step == Receive(r) && b.receivers[r].queue != [])
    ensures Inv(Next(b, step))
  {
    var b' := Next(b, step);
    ShapeKeepsLists(b, b');
    ShapeKeepsSnapshots(b, b');
    assert CallsProgress(b');
    assert ReceiverTrue(b, r);
    ReceiverStepKeepsReceiver(b, r, step);
    forall q | 0 <= q < |b'.receivers| ensures ReceiverTrue(b', q) {
      if q != r {
        UntouchedReceiver(b, b', q);
      }
    }
  }

  lemma NextKeepsInv(b: Bus, step: Step)
    requires Inv(b)
    ensures Inv(Next(b, step))
  {
    if Next(b, step) != b {
      match step
      case Subscribe(topic) => SubscribeKeepsInv(b, topic);
      case Publish(publisher, envelope) => PublishKeepsInv(b, publisher, envelope);
      case Send(c) => SendKeepsInv(b, c);
      case Return(c) => ReturnKeepsInv(b, c);
      case Receive(r) => ReceiverStepKeepsInv(b, r, step);
      case Drop(r) => ReceiverStepKeepsInv(b, r, step);
    }
  }

  lemma {:induction false} ReachableInv(capacity: nat, steps: seq<Step>)
    ensures Inv(Run(Init(capacity), steps))
  {
    if steps != [] {
      var n := |steps| - 1;
      ReachableInv(capacity, steps[..n]);
      NextKeepsInv(Run(Init(capacity), steps[..n]), steps[n]);
    }
  }

  // ---- what the invariant means to users of the bus ----

  // In every interleaving a receiver is given only messages of its topic whose publish call took
  // its snapshot after the subscription, each call's at most once, and those of one publisher in
  // order; its queue never exceeds the capacity.
  lemma ReceiversGetTheirMessages(capacity: nat, steps: seq<Step>, r: nat)
    requires r < |Run(Init(capacity), steps).receivers|
    ensures var b := Run(Init(capacity), steps);
      var it := b.receivers[r];
      && |it.queue| <= b.capacity
      && (forall i :: 0 <= i < |it.history| ==> it.since <= it.history[i] < |b.calls|)
      && (forall i :: 0 <= i < |it.history| && it.history[i] < |b.calls| ==>
            b.calls[it.history[i]].envelope.topic == it.topic)
      && (forall i, j :: 0 <= i < j < |it.history| ==> it.history[i] != it.history[j])
      && (forall i, j :: 0 <= i < j < |it.history| && SamePublisher(b, it.history[i], it.history[j]) ==>
            it.history[i] < it.history[j])
      && (it.open ==> exists consumed :: consumed + it.queue == it.history)
  {
    var b := Run(Init(capacity), steps);
    var it := b.receivers[r];
    ReachableInv(capacity, steps);
    assert ReceiverTrue(b, r);
    forall i | 0 <= i < |it.history| ensures Targets(b, it.history[i], r) {
      var call := b.calls[it.history[i]];
      assert r in call.snapshot[..call.next] && r in call.snapshot;
    }
    if it.open {
      assert it.history[..|it.history| - |it.queue|] + it.queue == it.history;
    }
  }

  // `NoSubscribers` is returned exactly when no subscription to the topic preceded the snapshot.
  lemma NoSubscribersExactly(capacity: nat, steps: seq<Step>, c: nat)
    requires c < |Run(Init(capacity), steps).calls|
    ensures var b := Run(Init(capacity), steps);
      b.calls[c].result == Some(NoSubscribers) <==> forall r: nat :: !Targets(b, c, r)
  {
    var b := Run(Init(capacity), steps);
    ReachableInv(capacity, steps);
    if b.calls[c].snapshot != [] {
      assert b.calls[c].snapshot[0] in b.calls[c].snapshot;
      assert Targets(b, c, b.calls[c].snapshot[0]);
    }
  }

  // A send that receiver r does not take, being gone or full.
  predicate Refuses(b: Bus, step: Step, r: nat) {
    && step.Send? && InFlight(b, step.call) && b.calls[step.call].next < |b.calls[step.call].snapshot|
    && r == b.calls[step.call].snapshot[b.calls[step.call].next] && r < |b.receivers|
    && (!b.receivers[r].open || |b.receivers[r].queue| >= b.capacity)
  }

  lemma MissedOneMore(b: Bus, step: Step, r: nat)
    requires r < |Next(b, step).receivers|
    ensures Next(b, step).receivers[r].missed <==> (r < |b.receivers| && b.receivers[r].missed) || Refuses(b, step, r)
  {}

  // Whether receiver r, if it exists, is open and has room for one more message.
  predicate HasRoom(b: Bus, r: nat) {
    r < |b.receivers| ==> b.receivers[r].open && |b.receivers[r].queue| < b.capacity
  }

  // Throughout the run receiver r is open and not full.
  ghost predicate AlwaysHasRoom(capacity: nat, steps: seq<Step>, r: nat) {
    forall n :: 0 <= n < |steps| ==> HasRoom(Run(Init(capacity), steps[..n]), r)
  }

  ghost predicate MissedNothing(b: Bus, r: nat) {
    r < |b.receivers| ==> !b.receivers[r].missed
  }

  lemma RoomTakesTheSend(b: Bus, step: Step, r: nat)
    requires HasRoom(b, r) && MissedNothing(b, r)
    ensures MissedNothing(Next(b, step), r)
  {
    if r < |Next(b, step).receivers| {
      MissedOneMore(b, step, r);
    }
  }

  lemma RoomBefore(capacity: nat, steps: seq<Step>, r: nat)
    requires steps != [] && AlwaysHasRoom(capacity, steps, r)
    ensures AlwaysHasRoom(capacity, steps[..|steps| - 1], r)
    ensures HasRoom(Run(Init(capacity), steps[..|steps| - 1]), r)
  {
    var first := steps[..|steps| - 1];
    forall n | 0 <= n < |first| ensures HasRoom(Run(Init(capacity), first[..n]), r) {
      assert first[..n] == steps[..n];
    }
  }

  lemma {:induction false} RoomyReceiverMissesNothing(capacity: nat, steps: seq<Step>, r: nat)
    requires AlwaysHasRoom(capacity, steps, r)
    ensures MissedNothing(Run(Init(capacity), steps), r)
  {
    if steps != [] {
      var n := |steps| - 1;
      RoomBefore(capacity, steps, r);
      RoomyReceiverMissesNothing(capacity, steps[..n], r);
      RoomTakesTheSend(Run(Init(capacity), steps[..n]), steps[n], r);
    }
  }

  // A receiver to which no send was refused has every completed publish that targets it.
  lemma CompletedPublishesArrive(capacity: nat, steps: seq<Step>, c: nat, r: nat)
    requires var b := Run(Init(capacity), steps);
      && c < |b.calls| && b.calls[c].result == Some(Delivered)
      && Targets(b, c, r) && !b.receivers[r].missed
    ensures c in Run(Init(capacity), steps).receivers[r].history
  {
    var b := Run(Init(capacity), steps);
    ReachableInv(capacity, steps);
    assert ReceiverTrue(b, r);
    assert b.calls[c].snapshot[..b.calls[c].next] == b.calls[c].snapshot;
  }

  // A receiver that is open and not full throughout a run has every completed publish whose
  // snapshot it subscribed in time for.
  lemma RoomyReceiversGetEverything(capacity: nat, steps: seq<Step>, c: nat, r: nat)
    requires var b := Run(Init(capacity), steps);
      c < |b.calls| && b.calls[c].result == Some(Delivered) && Targets(b, c, r)
    requires AlwaysHasRoom(capacity, steps, r)
    ensures c in Run(Init(capacity), steps).receivers[r].history
  {
    RoomyReceiverMissesNothing(capacity, steps, r);
    CompletedPublishesArrive(capacity, steps, c, r);
  }

  // ---- what a message says, and how it is taken ----

  // What a step leaves of a call: its publisher, its envelope and its snapshot.
  ghost predicate SameCall(b: Bus, b': Bus, c: nat) {
    && c < |b.calls| && c < |b'.calls|
    && b'.calls[c].publisher == b.calls[c].publisher && b'.calls[c].envelope == b.calls[c].envelope
    && b'.calls[c].snapshot == b.calls[c].snapshot
  }

  lemma StepKeepsCall(b: Bus, step: Step, c: nat)
    requires c < |b.calls|
    ensures SameCall(b, Next(b, step), c)
  {}

  lemma {:induction false} RunKeepsCall(b: Bus, steps: seq<Step>, c: nat)
    requires c < |b.calls|
    ensures SameCall(b, Run(b, steps), c)
  {
    if steps != [] {
      RunKeepsCall(b, steps[..|steps| - 1], c);
      StepKeepsCall(Run(b, steps[..|steps| - 1]), steps[|steps| - 1], c);
    }
  }

  // A publish call is recorded with the envelope that was published, topic, source and payload,
  // and the queues that name the call mean that envelope ever after.
  lemma PublishedEnvelopeStays(b: Bus, publisher: nat, envelope: Envelope, later: seq<Step>)
    requires Idle(b, publisher)
    ensures var b' := Next(b, Publish(publisher, envelope));
      && |b'.calls| == |b.calls| + 1 && |Run(b', later).calls| > |b.calls|
      && Run(b', later).calls[|b.calls|].envelope == envelope
      && Run(b', later).calls[|b.calls|].publisher == publisher
  {
    RunKeepsCall(Next(b, Publish(publisher, envelope)), later, |b.calls|);
  }

  // A new subscription is open, empty and due every publish that takes its snapshot from now on.
  lemma SubscribeOpens(b: Bus, topic: Topic)
    requires b.capacity > 0
    ensures var b' := Next(b, Subscribe(topic));
      && b'.receivers == b.receivers + [Receiver(topic, true, [], |b.calls|, [], false)] && b'.calls == b.calls
      && |Handles(b', topic)| == |Handles(b, topic)| + 1 && Handles(b', topic)[|Handles(b, topic)|] == |b.receivers|
      && forall t :: t != topic ==> Handles(b', t) == Handles(b, t)
  {}

  // A receive takes the oldest message of that receiver's queue and nothing else.
  lemma ReceiveTakesOldest(b: Bus, r: nat)
    requires r < |b.receivers| && b.receivers[r].queue != []
    ensures var b' := Next(b, Receive(r));
      && |b'.receivers| == |b.receivers| && b'.calls == b.calls && b'.subscribers == b.subscribers
      && [b.receivers[r].queue[0]] + b'.receivers[r].queue == b.receivers[r].queue
      && b'.receivers[r].history == b.receivers[r].history && b'.receivers[r].open == b.receivers[r].open
      && forall q :: 0 <= q < |b.receivers| && q != r ==> b'.receivers[q] == b.receivers[q]
  {}

  ghost predicate StaysGone(b: Bus, b': Bus, r: nat) {
    && r < |b.receivers| && r < |b'.receivers|
    && !b'.receivers[r].open && b'.receivers[r].history == b.receivers[r].history
  }

  lemma StepLeavesGone(b: Bus, step: Step, r: nat)
    requires r < |b.receivers| && !b.receivers[r].open
    ensures StaysGone(b, Next(b, step), r)
  {}

  // A dropped receiver is gone for good and is given nothing more.
  lemma {:induction false} DroppedReceiversGetNothing(b: Bus, r: nat, later: seq<Step>)
    requires r < |b.receivers|
    ensures Next(b, Drop(r)).receivers[r].queue == [] && StaysGone(b, Run(Next(b, Drop(r)), later), r)
  {
    if later != [] {
      var n := |later| - 1;
      DroppedReceiversGetNothing(b, r, later[..n]);
      StepLeavesGone(Run(Next(b, Drop(r)), later[..n]), later[n], r);
    }
  }

  // ---- one receiver's fate does not depend on the others ----

  // A bus in which only receiver r keeps the state of its queue.
  function Erased(b: Bus, r: nat): Bus {
    b.(receivers := seq(|b.receivers|, i requires 0 <= i < |b.receivers| =>
      if i == r then b.receivers[i] else b.receivers[i].(open := true, queue := [], history := [], missed := false)))
  }

  // The steps of a run without what the other receivers do with their queues.
  function WithoutOthers(steps: seq<Step>, r: nat): seq<Step> {
    if steps == [] then []
    else
      var n := |steps| - 1;
      WithoutOthers(steps[..n], r) + if IsOthers(steps[n], r) then [] else [steps[n]]
  }

  predicate IsOthers(step: Step, r: nat) {
    (step.Receive? || step.Drop?) && step.receiver != r
  }

  lemma OthersAreErased(b: Bus, step: Step, r: nat)
    requires IsOthers(step, r)
    ensures Erased(Next(b, step), r) == Erased(b, r)
  {}

  lemma NextRespectsErasure(a: Bus, b: Bus, step: Step, r: nat)
    requires Erased(a, r) == Erased(b, r) && !IsOthers(step, r)
    ensures Erased(Next(a, step), r) == Erased(Next(b, step), r)
  {
    var x, y := Erased(a, r), Erased(b, r);
    assert |x.receivers| == |a.receivers| && |y.receivers| == |b.receivers|;
    assert x.calls == a.calls && y.calls == b.calls && x.subscribers == a.subscribers && y.subscribers == b.subscribers;
    if r < |a.receivers| {
      assert x.receivers[r] == a.receivers[r] && y.receivers[r] == b.receivers[r];
    }
    forall i | 0 <= i < |a.receivers|
      ensures a.receivers[i].topic == b.receivers[i].topic && a.receivers[i].since == b.receivers[i].since
    {
      assert x.receivers[i] == y.receivers[i];
    }
  }

  // Whether other receivers are full, slow or gone makes no difference to what receiver r holds
  // and was given, nor to what any publish call returns.
  lemma {:induction false} OthersDoNotMatter(capacity: nat, steps: seq<Step>, r: nat)
    ensures Erased(Run(Init(capacity), steps), r) == Erased(Run(Init(capacity), WithoutOthers(steps, r)), r)
  {
    if steps != [] {
      var n := |steps| - 1;
      var a, b := Run(Init(capacity), steps[..n]), Run(Init(capacity), WithoutOthers(steps[..n], r));
      OthersDoNotMatter(capacity, steps[..n], r);
      if IsOthers(steps[n], r) {
        OthersAreErased(a, steps[n], r);
        assert WithoutOthers(steps, r) == WithoutOthers(steps[..n], r);
      } else {
        NextRespectsErasure(a, b, steps[n], r);
        assert WithoutOthers(steps, r)[..|WithoutOthers(steps, r)| - 1] == WithoutOthers(steps[..n], r);
      }
    }
  }
}
