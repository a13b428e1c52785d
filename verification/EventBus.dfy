/**
 The event bus as its goroutines see it: a bounded queue and a done signal, used by any
 number of publishers, one consumer, and whoever closes the bus.
 */
module EventBus {
  import opened Prelude

  const DEFAULT_CAPACITY: nat := 1024

  type Event = int
  type Pid = int

  /** Publish tests the done signal first, then makes one attempt to enqueue. */
  datatype Publishing = Tests(ev: Event) | Enqueues(ev: Event)

  datatype Consuming = Waits | Handles(ev: Event) | Returned

  datatype Bus = Bus(
    capacity: nat, queue: seq<Event>, done: bool,
    publishers: map<Pid, Publishing>, consumer: Consuming,
    accepted: seq<Event>, handled: seq<Event>,
    late: set<Pid>)

  /** One atomic step of one goroutine. */
  datatype Step =
    | StartPublish(p: Pid, ev: Event)
    | TestDone(p: Pid)
    | Enqueue(p: Pid)
    | Receive
    | Finish
    | StopConsuming
    | Consume
    | Close

  function NewBus(capacity: int): Bus {
    Bus(if capacity <= 0 then DEFAULT_CAPACITY else capacity, [], false, map[], Returned, [], [], {})
  }

  /** What has to hold for a step to be possible; context cancellation may stop the consumer any time. */
  predicate Enabled(b: Bus, s: Step) {
    match s
    case StartPublish(p, _) => p !in b.publishers && p !in b.late
    case TestDone(p) => p in b.publishers && b.publishers[p].Tests?
    case Enqueue(p) => p in b.publishers && b.publishers[p].Enqueues?
    case Receive => b.consumer.Waits? && b.queue != []
    case Finish => b.consumer.Handles?
    case StopConsuming => b.consumer.Waits?
    case Consume => b.consumer.Returned?
    case Close => true
  }

  /** The step; a publisher that starts after the bus is closed is remembered as late. */
  function After(b: Bus, s: Step): Bus
    requires Enabled(b, s)
  {
    match s
    case StartPublish(p, ev) =>
      b.(publishers := b.publishers[p := Tests(ev)], late := if b.done then b.late + {p} else b.late)
    case TestDone(p) =>
      if b.done then b.(publishers := b.publishers - {p})
      else b.(publishers := b.publishers[p := Enqueues(b.publishers[p].ev)])
    case Enqueue(p) =>
      var ev, b' := b.publishers[p].ev, b.(publishers := b.publishers - {p});
      if |b.queue| < b.capacity then b'.(queue := b.queue + [ev], accepted := b.accepted + [ev]) else b'
    case Receive => b.(queue := b.queue[1..], consumer := Handles(b.queue[0]))
    case Finish => b.(consumer := Waits, handled := b.handled + [b.consumer.ev])
    case StopConsuming => b.(consumer := Returned)
    case Consume => b.(consumer := Waits)
    case Close => b.(done := true)
  }

  /** What Publish returns at the step that ends it. */
  function PublishAnswer(b: Bus, s: Step): Option<bool>
    requires Enabled(b, s)
  {
    match s
    case TestDone(_) => if b.done then Some(false) else None
    case Enqueue(_) => Some(|b.queue| < b.capacity)
    case _ => None
  }

  function InProgress(b: Bus): seq<Event> {
    if b.consumer.Handles? then [b.consumer.ev] else []
  }

  ghost predicate Inv(b: Bus) {
    && 0 < b.capacity && |b.queue| <= b.capacity
    && b.accepted == b.handled + InProgress(b) + b.queue
    && (b.late != {} ==> b.done)
    && (forall p :: p in b.late && p in b.publishers ==> b.publishers[p].Tests?)
  }

  /** A run is a list of steps, each possible where it is taken. */
  ghost predicate Runs(b: Bus, steps: seq<Step>)
    decreases |steps|
  {
    steps == [] || (Enabled(b, steps[0]) && Runs(After(b, steps[0]), steps[1..]))
  }

  ghost function State(b: Bus, steps: seq<Step>): Bus
    requires Runs(b, steps)
    decreases |steps|
  {
    if steps == [] then b else State(After(b, steps[0]), steps[1..])
  }

  lemma StepKeepsInv(b: Bus, s: Step)
    requires Inv(b) && Enabled(b, s)
    ensures Inv(After(b, s))
  {
    var b' := After(b, s);
    match s
    case Enqueue(p) =>
      assert |b.queue| < b.capacity ==> b'.accepted == b.handled + InProgress(b) + b'.queue;
    case Receive =>
      assert b.queue == [b.queue[0]] + b.queue[1..];
      assert b.handled + [] + b.queue == b.handled + [b.queue[0]] + b.queue[1..];
    case Finish =>
      assert b'.handled + [] + b.queue == b.handled + [b.consumer.ev] + b.queue;
    case _ =>
  }

  lemma {:induction false} RunKeepsInv(b: Bus, steps: seq<Step>)
    requires Inv(b) && Runs(b, steps)
    ensures Inv(State(b, steps))
    decreases |steps|
  {
    if steps != [] {
      StepKeepsInv(b, steps[0]);
      RunKeepsInv(After(b, steps[0]), steps[1..]);
    }
  }

  /**
   What Publish's answer means: true, that the event was put at the end of the queue, which had
   room; false, that the queue was left alone, the bus being closed or the queue full.
   */
  lemma AnswerMeans(b: Bus, s: Step)
    requires Enabled(b, s)
    ensures PublishAnswer(b, s) == Some(true) ==>
              && s.Enqueue? && |b.queue| < b.capacity
              && After(b, s).queue == b.queue + [b.publishers[s.p].ev] && s.p !in After(b, s).publishers
    ensures PublishAnswer(b, s) == Some(false) ==>
              && ((s.TestDone? && b.done) || (s.Enqueue? && |b.queue| >= b.capacity))
              && After(b, s).queue == b.queue && s.p !in After(b, s).publishers
    ensures PublishAnswer(b, s) == None ==> s.Receive? || After(b, s).queue == b.queue
    ensures s.Receive? ==> b.queue == [After(b, s).consumer.ev] + After(b, s).queue
  {
  }

  /** A publisher keeps the event it was started with until it ends. */
  lemma {:induction false} EventStays(b: Bus, steps: seq<Step>, p: Pid)
    requires Runs(b, steps) && forall s <- steps :: !(s.StartPublish? && s.p == p)
    ensures p in State(b, steps).publishers ==> p in b.publishers && State(b, steps).publishers[p].ev == b.publishers[p].ev
    decreases |steps|
  {
    if steps != [] {
      assert steps[0] in steps;
      EventStays(After(b, steps[0]), steps[1..], p);
    }
  }

  /** The events for which Publish answered true, in the order of the answers. */
  ghost function Published(b: Bus, steps: seq<Step>): seq<Event>
    requires Runs(b, steps)
    decreases |steps|
  {
    if steps == [] then []
    else
      (if steps[0].Enqueue? && PublishAnswer(b, steps[0]) == Some(true) then [b.publishers[steps[0].p].ev] else [])
      + Published(After(b, steps[0]), steps[1..])
  }

  lemma {:induction false} AcceptedIsPublished(b: Bus, steps: seq<Step>)
    requires Runs(b, steps)
    ensures State(b, steps).accepted == b.accepted + Published(b, steps)
    ensures State(b, steps).capacity == b.capacity
    decreases |steps|
  {
    if steps != [] {
      AcceptedIsPublished(After(b, steps[0]), steps[1..]);
    }
  }

  /**
   In every interleaving the queue stays within its capacity, and the events for which Publish
   answered true are the handled ones, the one being handled and the queued ones, in that order.
   */
  lemma EveryRunIsFifo(capacity: int, steps: seq<Step>)
    requires Runs(NewBus(capacity), steps)
    ensures var b := State(NewBus(capacity), steps);
            && |b.queue| <= b.capacity == (if capacity > 0 then capacity else 1024)
            && b.accepted == Published(NewBus(capacity), steps) == b.handled + InProgress(b) + b.queue
  {
    RunKeepsInv(NewBus(capacity), steps);
    AcceptedIsPublished(NewBus(capacity), steps);
  }

  lemma {:induction false} LateStays(b: Bus, steps: seq<Step>)
    requires Runs(b, steps)
    ensures b.late <= State(b, steps).late && (b.done ==> State(b, steps).done)
    decreases |steps|
  {
    if steps != [] {
      LateStays(After(b, steps[0]), steps[1..]);
    }
  }

  /**
   A Publish that starts once the bus is closed never enqueues its event: whatever runs in
   between, its next step is the test of the done signal, and it answers that the event is dropped.
   `before` is the run up to the start, `between` the run from there to the publisher's next step.
   */
  lemma LatePublishIsDropped(capacity: int, before: seq<Step>, p: Pid, ev: Event, between: seq<Step>, next: Step)
    requires Runs(NewBus(capacity), before) && State(NewBus(capacity), before).done
    requires var b := State(NewBus(capacity), before);
             Enabled(b, StartPublish(p, ev)) && Runs(After(b, StartPublish(p, ev)), between)
    requires var b' := State(After(State(NewBus(capacity), before), StartPublish(p, ev)), between);
             Enabled(b', next) && (next == TestDone(p) || next == Enqueue(p))
    ensures next == TestDone(p)
    ensures var b' := State(After(State(NewBus(capacity), before), StartPublish(p, ev)), between);
            PublishAnswer(b', next) == Some(false) && After(b', next).accepted == b'.accepted
  {
    var b := State(NewBus(capacity), before);
    RunKeepsInv(NewBus(capacity), before);
    var b1 := After(b, StartPublish(p, ev));
    StepKeepsInv(b, StartPublish(p, ev));
    LateStays(b1, between);
    RunKeepsInv(b1, between);
  }
}
