/** Two processes piped together: when the promise settles, and how. */
module RunPipe {
  import opened Common

  /** How a process ended; a signal death has no code. */
  datatype Exit = Code(code: int) | Signal {
    predicate IsZero() { this == Code(0) }
  }

  datatype Source = ProducerProcess | ConsumerProcess | InputStream | OutputStream

  datatype Event =
    | ErrorOf(source: Source)
    | BrokenPipe
    | ProducerClose(exit: Exit)
    | ConsumerClose(exit: Exit)

  datatype Outcome = Resolved | RejectedByError(source: Source) | ProducerFailed(exit: Exit) | ConsumerFailed(exit: Exit)

  /** The closure variables, and what the output stream is doing. */
  datatype State = State(
    settled: Option<Outcome>,
    producerExit: Option<Exit>,
    consumerExit: Option<Exit>,
    draining: bool)

  const INITIAL: State := State(None, None, None, false)

  function Settle(s: State, outcome: Outcome): State {
    if s.settled.Some? then s else s.(settled := Some(outcome))
  }

  /** What two exits decide: the producer's comes first. */
  function Verdict(producer: Exit, consumer: Exit): (outcome: Outcome)
    ensures outcome == Resolved <==> producer == Code(0) && consumer == Code(0)
    ensures outcome == ProducerFailed(producer) <==> producer != Code(0)
  {
    if !producer.IsZero() then ProducerFailed(producer)
    else if !consumer.IsZero() then ConsumerFailed(consumer)
    else Resolved
  }

  function Done(s: State): State {
    if s.producerExit.None? || s.consumerExit.None? then s
    else Settle(s, Verdict(s.producerExit.value, s.consumerExit.value))
  }

  function Next(s: State, e: Event): State {
    match e
    case ErrorOf(source) => Settle(s, RejectedByError(source))
    case BrokenPipe => s.(draining := true)
    case ProducerClose(exit) => if s.producerExit.Some? then s else Done(s.(producerExit := Some(exit)))
    case ConsumerClose(exit) => if s.consumerExit.Some? then s else Done(s.(consumerExit := Some(exit)))
  }

  function Run(events: seq<Event>): State {
    if events == [] then INITIAL else Next(Run(events[..|events| - 1]), events[|events| - 1])
  }

  // ---- The listeners ----

  class PipeRun {
    var settled: Option<Outcome>
    var producerExit: Option<Exit>
    var consumerExit: Option<Exit>
    var draining: bool

    ghost function Value(): State
      reads this
    {
      State(settled, producerExit, consumerExit, draining)
    }

    constructor ()
      ensures Value() == INITIAL
    {
      settled, producerExit, consumerExit, draining := None, None, None, false;
    }

    method Fail(outcome: Outcome)
      modifies this`settled
      ensures Value() == Settle(old(Value()), outcome)
    {
      if settled.Some? { return; }
      settled := Some(outcome);
    }

    method CheckDone()
      modifies this`settled
      ensures Value() == Done(old(Value()))
    {
      if producerExit.None? || consumerExit.None? { return; }
      if !producerExit.value.IsZero() {
        Fail(ProducerFailed(producerExit.value));
      } else if !consumerExit.value.IsZero() {
        Fail(ConsumerFailed(consumerExit.value));
      } else if settled.None? {
        settled := Some(Resolved);
      }
    }

    method OnEvent(e: Event)
      modifies this
      ensures Value() == Next(old(Value()), e)
    {
      match e {
        case ErrorOf(source) =>
          Fail(RejectedByError(source));
        case BrokenPipe =>
          draining := true;
        case ProducerClose(exit) =>
          if producerExit.Some? { return; }
          producerExit := Some(exit);
          CheckDone();
        case ConsumerClose(exit) =>
          if consumerExit.Some? { return; }
          consumerExit := Some(exit);
          CheckDone();
      }
    }

    /** Handles a whole trace. */
    method Drive(events: seq<Event>)
      requires Value() == INITIAL
      modifies this
      ensures Value() == Run(events)
    {
      for n := 0 to |events|
        invariant Value() == Run(events[..n])
      {
        assert events[..n + 1][..n] == events[..n];
        OnEvent(events[n]);
      }
      assert events[..|events|] == events;
    }
  }

  // ---- What a trace decides ----

  /** The exit of the first producer close. */
  function ProducerExit(events: seq<Event>): Option<Exit> {
    if events == [] then None
    else if events[0].ProducerClose? then Some(events[0].exit)
    else ProducerExit(events[1..])
  }

  function ConsumerExit(events: seq<Event>): Option<Exit> {
    if events == [] then None
    else if events[0].ConsumerClose? then Some(events[0].exit)
    else ConsumerExit(events[1..])
  }

  /** The source of the first error that is not a broken pipe. */
  function FirstError(events: seq<Event>): Option<Source> {
    if events == [] then None
    else if events[0].ErrorOf? then Some(events[0].source)
    else FirstError(events[1..])
  }

  ghost predicate BothClosed(events: seq<Event>) { ProducerExit(events).Some? && ConsumerExit(events).Some? }

  lemma {:induction false} FirstsAppend(events: seq<Event>, e: Event)
    ensures ProducerExit(events + [e]) ==
            if ProducerExit(events).None? && e.ProducerClose? then Some(e.exit) else ProducerExit(events)
    ensures ConsumerExit(events + [e]) ==
            if ConsumerExit(events).None? && e.ConsumerClose? then Some(e.exit) else ConsumerExit(events)
    ensures FirstError(events + [e]) ==
            if FirstError(events).None? && e.ErrorOf? then Some(e.source) else FirstError(events)
  {
    if events == [] {
      assert events + [e] == [e];
    } else {
      FirstsAppend(events[1..], e);
      assert (events + [e])[1..] == events[1..] + [e];
    }
  }

  lemma {:induction false} ExitsAreFirstCloses(events: seq<Event>)
    ensures Run(events).producerExit == ProducerExit(events) && Run(events).consumerExit == ConsumerExit(events)
    ensures Run(events).draining <==> BrokenPipe in events
  {
    if events != [] {
      var front, last := events[..|events| - 1], events[|events| - 1];
      assert events == front + [last];
      ExitsAreFirstCloses(front);
      FirstsAppend(front, last);
      hide ProducerExit, ConsumerExit, FirstError;
    }
  }

  /** Once settled, nothing that follows changes the outcome. */
  lemma {:induction false} SettlesAtMostOnce(events: seq<Event>, more: seq<Event>)
    ensures Run(events).settled.Some? ==> Run(events + more).settled == Run(events).settled
  {
    if more == [] {
      assert events + more == events;
    } else {
      SettlesAtMostOnce(events, more[..|more| - 1]);
      assert (events + more)[..|events + more| - 1] == events + more[..|more| - 1];
    }
  }

  /** While nothing is settled, no error came and some process is still open. */
  lemma {:induction false} UnsettledIff(events: seq<Event>)
    ensures Run(events).settled.None? <==> FirstError(events).None? && !BothClosed(events)
  {
    if events != [] {
      var front, last := events[..|events| - 1], events[|events| - 1];
      assert events == front + [last];
      UnsettledIff(front);
      ExitsAreFirstCloses(front);
      FirstsAppend(front, last);
      hide ProducerExit, ConsumerExit, FirstError;
    }
  }

  /** Both processes closed: settled, whatever else happened. */
  lemma SettledOnceBothClosed(events: seq<Event>)
    requires BothClosed(events)
    ensures Run(events).settled.Some?
  {
    UnsettledIff(events);
  }

  /** Without an error other than a broken pipe, the two exits decide, in whichever order they came. */
  lemma {:induction false} ExitsDecide(events: seq<Event>)
    requires FirstError(events).None?
    ensures Run(events).settled ==
            if BothClosed(events) then Some(Verdict(ProducerExit(events).value, ConsumerExit(events).value)) else None
  {
    if events != [] {
      var front, last := events[..|events| - 1], events[|events| - 1];
      assert events == front + [last];
      FirstsAppend(front, last);
      ExitsAreFirstCloses(front);
      UnsettledIff(front);
      UnsettledIff(events);
      hide ProducerExit, ConsumerExit, FirstError, Verdict;
      ExitsDecide(front);
    }
  }

  /** Two traces with broken pipes as their only errors and the same exits have the same outcome. */
  lemma OrderOfClosesIsImmaterial(a: seq<Event>, b: seq<Event>)
    requires FirstError(a).None? && FirstError(b).None?
    requires ProducerExit(a) == ProducerExit(b) && ConsumerExit(a) == ConsumerExit(b)
    ensures Run(a).settled == Run(b).settled
  {
    ExitsDecide(a);
    ExitsDecide(b);
  }

  /** An error that comes before both processes have closed is the outcome. */
  lemma ErrorFirstRejects(before: seq<Event>, source: Source, after: seq<Event>)
    requires FirstError(before).None? && !BothClosed(before)
    ensures Run(before + [ErrorOf(source)] + after).settled == Some(RejectedByError(source))
  {
    var trace := before + [ErrorOf(source)];
    UnsettledIff(before);
    assert trace[..|trace| - 1] == before;
    SettlesAtMostOnce(trace, after);
  }

  /** Both exits are 0 in the first `n` events, with no error but broken pipes among them. */
  ghost predicate ResolvesAt(events: seq<Event>, n: int) {
    0 <= n <= |events| && FirstError(events[..n]).None? &&
    ProducerExit(events[..n]) == Some(Code(0)) && ConsumerExit(events[..n]) == Some(Code(0))
  }

  /** It resolves exactly when there is such a point in the trace. */
  lemma ResolvesIff(events: seq<Event>)
    ensures Run(events).settled == Some(Resolved) <==> exists n :: ResolvesAt(events, n)
  {
    if n :| ResolvesAt(events, n) {
      PointResolves(events, n);
    }
    if Run(events).settled == Some(Resolved) {
      var n := ResolvedHasPoint(events);
    }
  }

  lemma PointResolves(events: seq<Event>, n: nat)
    requires ResolvesAt(events, n)
    ensures Run(events).settled == Some(Resolved)
  {
    hide Run, ProducerExit, ConsumerExit, FirstError;
    ExitsDecide(events[..n]);
    assert events[..n] + events[n..] == events;
    SettlesAtMostOnce(events[..n], events[n..]);
  }

  lemma {:induction false} ResolvedHasPoint(events: seq<Event>) returns (n: nat)
    requires Run(events).settled == Some(Resolved)
    ensures ResolvesAt(events, n)
  {
    hide ProducerExit, ConsumerExit, FirstError;
    var front, last := events[..|events| - 1], events[|events| - 1];
    if Run(front).settled.Some? {
      n := ResolvedHasPoint(front);
      assert front[..n] == events[..n];
    } else {
      assert events == front + [last] && events[..|events|] == events;
      UnsettledIff(front);
      FirstsAppend(front, last);
      ExitsAreFirstCloses(events);
      n := |events|;
    }
  }

  // ---- The drain ----

  /** The listeners' state, the bytes the producer still has to write, and the bytes in the pipe. */
  datatype Plant = Plant(state: State, left: nat, fill: nat)

  /** An event, or bytes moving into or out of the pipe. */
  datatype Action = Happens(e: Event) | Write(n: nat) | Read(n: nat)

  /** The consumer reads until it closes; after a broken pipe the output stream is drained instead. */
  predicate IsRead(s: State) { s.draining || s.consumerExit.None? }

  ghost predicate Allowed(p: Plant, capacity: nat, a: Action) {
    match a
    case Happens(e) => true
    case Write(n) => p.state.producerExit.None? && 0 < n <= p.left && p.fill + n <= capacity
    case Read(n) => IsRead(p.state) && 0 < n <= p.fill
  }

  function Act(p: Plant, a: Action): Plant {
    match a
    case Happens(e) => p.(state := Next(p.state, e))
    case Write(n) => if n <= p.left then p.(left := p.left - n, fill := p.fill + n) else p
    case Read(n) => if n <= p.fill then p.(fill := p.fill - n) else p
  }

  function ActAll(p: Plant, actions: seq<Action>): Plant {
    if actions == [] then p else Act(ActAll(p, actions[..|actions| - 1]), actions[|actions| - 1])
  }

  ghost predicate AllAllowed(p: Plant, capacity: nat, actions: seq<Action>) {
    actions != [] ==>
      var front := actions[..|actions| - 1];
      AllAllowed(p, capacity, front) && Allowed(ActAll(p, front), capacity, actions[|actions| - 1])
  }

  /** No byte can move, in whatever way. */
  ghost predicate IsStuck(p: Plant, capacity: nat) {
    forall a: Action :: (a.Write? || a.Read?) ==> !Allowed(p, capacity, a)
  }

  function Transfers(actions: seq<Action>): nat {
    if actions == [] then 0
    else Transfers(actions[..|actions| - 1]) + if actions[|actions| - 1].Happens? then 0 else 1
  }

  /** However events and transfers interleave, there are finitely many transfers, and the pipe does not overflow. */
  lemma {:induction false} TransfersAreBounded(p: Plant, capacity: nat, actions: seq<Action>)
    requires AllAllowed(p, capacity, actions) && p.fill <= capacity
    ensures var q := ActAll(p, actions);
            Transfers(actions) + 2 * q.left + q.fill <= 2 * p.left + p.fill && q.fill <= capacity
  {
    if actions != [] {
      TransfersAreBounded(p, capacity, actions[..|actions| - 1]);
    }
  }

  lemma {:induction false} DrainsSinceBrokenPipe(p: Plant, actions: seq<Action>)
    ensures ActAll(p, actions).state.draining <==> p.state.draining || Happens(BrokenPipe) in actions
    ensures p.state.consumerExit.Some? ==> ActAll(p, actions).state.consumerExit.Some?
  {
    if actions != [] {
      var front, last := actions[..|actions| - 1], actions[|actions| - 1];
      assert actions == front + [last];
      DrainsSinceBrokenPipe(p, front);
    }
  }

  predicate IsProducerClose(a: Action) { a.Happens? && a.e.ProducerClose? }

  lemma {:induction false} ProducerStaysOpen(p: Plant, actions: seq<Action>)
    requires p.state.producerExit.None? && forall a :: a in actions ==> !IsProducerClose(a)
    ensures ActAll(p, actions).state.producerExit.None?
  {
    if actions != [] {
      ProducerStaysOpen(p, actions[..|actions| - 1]);
      assert !IsProducerClose(actions[|actions| - 1]);
    }
  }

  /** Once the consumer has closed and until a broken pipe, bytes only move from the producer into the pipe. */
  lemma {:induction false} UnreadPipeFills(p: Plant, capacity: nat, actions: seq<Action>)
    requires AllAllowed(p, capacity, actions)
    requires p.state.consumerExit.Some? && !p.state.draining && Happens(BrokenPipe) !in actions
    ensures ActAll(p, actions).left + ActAll(p, actions).fill == p.left + p.fill
  {
    if actions != [] {
      var front, last := actions[..|actions| - 1], actions[|actions| - 1];
      assert actions == front + [last];
      UnreadPipeFills(p, capacity, front);
      DrainsSinceBrokenPipe(p, front);
    }
  }

  /** A pipe with room, or one that is read, moves while the producer has bytes left. */
  lemma StuckMeansFull(p: Plant, capacity: nat)
    requires IsStuck(p, capacity) && p.state.producerExit.None? && p.fill <= capacity
    ensures p.left == 0 || (p.fill == capacity && (capacity == 0 || !IsRead(p.state)))
  {
    assert !Allowed(p, capacity, Write(1)) && !Allowed(p, capacity, Read(1));
  }

  /**
   After the consumer has closed, in every interleaving that goes on until no byte can move, a running
   producer gets to write everything exactly when the broken pipe is reported or the rest fits.
   */
  lemma ProducerFinishesIff(p: Plant, capacity: nat, actions: seq<Action>)
    requires capacity > 0 && p.fill <= capacity
    requires p.state.consumerExit.Some? && !p.state.draining && p.state.producerExit.None?
    requires forall a :: a in actions ==> !IsProducerClose(a)
    requires AllAllowed(p, capacity, actions) && IsStuck(ActAll(p, actions), capacity)
    ensures ActAll(p, actions).left == 0 <==> Happens(BrokenPipe) in actions || p.left + p.fill <= capacity
  {
    var q := ActAll(p, actions);
    TransfersAreBounded(p, capacity, actions);
    ProducerStaysOpen(p, actions);
    DrainsSinceBrokenPipe(p, actions);
    StuckMeansFull(q, capacity);
    if Happens(BrokenPipe) !in actions {
      UnreadPipeFills(p, capacity, actions);
    }
  }

  /** While the consumer is open and reading, the producer finishes too. */
  lemma ReadProducerFinishes(p: Plant, capacity: nat, actions: seq<Action>)
    requires capacity > 0 && p.fill <= capacity && p.state.producerExit.None?
    requires forall a :: a in actions ==> !IsProducerClose(a)
    requires AllAllowed(p, capacity, actions) && IsStuck(ActAll(p, actions), capacity)
    requires IsRead(ActAll(p, actions).state)
    ensures ActAll(p, actions).left == 0
  {
    TransfersAreBounded(p, capacity, actions);
    ProducerStaysOpen(p, actions);
    StuckMeansFull(ActAll(p, actions), capacity);
  }

  // ---- The two together ----

  function EventsOf(actions: seq<Action>): seq<Event> {
    if actions == [] then []
    else
      var last := actions[|actions| - 1];
      var before := EventsOf(actions[..|actions| - 1]);
      if last.Happens? then before + [last.e] else before
  }

  lemma {:induction false} TransfersDoNotDecide(left: nat, actions: seq<Action>)
    ensures ActAll(Plant(INITIAL, left, 0), actions).state == Run(EventsOf(actions))
  {
    if actions != [] {
      var front, last := actions[..|actions| - 1], actions[|actions| - 1];
      TransfersDoNotDecide(left, front);
      if last.Happens? {
        assert (EventsOf(front) + [last.e])[..|EventsOf(front)|] == EventsOf(front);
      }
    }
  }

  /**
   A consumer that exits 0 without reading everything: the broken pipe is reported, the producer writes
   everything, exits 0, and the promise resolves.
   */
  lemma EarlyConsumerResolves(left: nat, capacity: nat, actions: seq<Action>)
    requires capacity > 0
    requires AllAllowed(Plant(INITIAL, left, 0), capacity, actions)
    requires IsStuck(ActAll(Plant(INITIAL, left, 0), actions), capacity)
    requires forall a :: a in actions ==> !IsProducerClose(a)
    requires Happens(BrokenPipe) in actions
    requires FirstError(EventsOf(actions)).None? && ConsumerExit(EventsOf(actions)) == Some(Code(0))
    ensures var finished := ActAll(Plant(INITIAL, left, 0), actions);
            finished.left == 0 &&
            Act(finished, Happens(ProducerClose(Code(0)))).state.settled == Some(Resolved)
  {
    var p := Plant(INITIAL, left, 0);
    var finished := ActAll(p, actions);
    var events := EventsOf(actions);
    DrainsSinceBrokenPipe(p, actions);
    ReadProducerFinishes(p, capacity, actions);
    ProducerStaysOpen(p, actions);
    TransfersDoNotDecide(left, actions);
    ExitsAreFirstCloses(events);
    UnsettledIff(events);
  }
}
