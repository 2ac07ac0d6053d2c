/** The wake-up rule of the DisplayPort event ring.

  The interrupt handler fills the ring in one locked section and, after that, schedules the
  work item if the section has found the ring empty. The work item takes one event at a time
  in locked sections of its own until it sees the ring empty. A run is any sequence of
  actions; an action that is not enabled has no effect.

  The work queue is a contract: scheduling pending work has no effect, starting the work
  clears the pending mark, and the work never runs twice at the same time.
*/
module DpWakeup {
  import opened DpQueue

  datatype Worker = Idle | Draining | Leaving

  datatype State = State(
    ring: seq<DpEvent>,
    head: nat,
    tail: nat,
    mustSchedule: bool,      // the handler has left its locked section and will schedule
    pending: bool,           // the work is in the work queue
    worker: Worker,
    offered: seq<DpEvent>,   // history: every event an interrupt has brought
    accepted: seq<DpEvent>,  // those that were stored
    handled: seq<DpEvent>)   // those that the work item has taken

  datatype Action =
    | Interrupt(events: seq<DpEvent>)
    | Schedule
    | Start
    | Take
    | Leave
    | Cancel

  function Init(): State {
    State(seq(MAX_DP_EVENT_NUM, _ => DpEvent(0, NoInterrupt)), 0, 0, false, false, Idle, [], [], [])
  }

  predicate Enabled(s: State, a: Action) {
    match a
    // one handler at a time
    case Interrupt(_) => !s.mustSchedule
    case Schedule => s.mustSchedule
    case Start => s.pending && s.worker.Idle?
    case Take => s.worker.Draining?
    case Leave => s.worker.Leaving?
    // suspend waits for the running work to finish
    case Cancel => s.worker.Idle?
  }

  /** One event arrives in the locked section of the handler. */
  function Store(s: State, e: DpEvent): State {
    var s := s.(mustSchedule := s.mustSchedule || Depth(s.head, s.tail) == 0, offered := s.offered + [e]);
    if Depth(s.head, s.tail) < MAX_DP_QUEUE_DEPTH && s.tail < |s.ring| then
      s.(ring := s.ring[s.tail := e], tail := Advance(s.tail), accepted := s.accepted + [e])
    else s
  }

  function Fill(s: State, events: seq<DpEvent>): State
    decreases |events|
  {
    if events == [] then s else Store(Fill(s, events[..|events| - 1]), events[|events| - 1])
  }

  function Step(s: State, a: Action): State
    requires Enabled(s, a)
  {
    match a
    case Interrupt(events) => Fill(s, events)
    case Schedule => s.(mustSchedule := false, pending := true)
    case Start => s.(pending := false, worker := Draining)
    case Take =>
      if Depth(s.head, s.tail) == 0 || s.head >= |s.ring| then s.(worker := Leaving)
      else s.(handled := s.handled + [s.ring[s.head]], head := Advance(s.head))
    case Leave => s.(worker := Idle)
    case Cancel => s.(pending := false)
  }

  function Next(s: State, a: Action): State {
    if Enabled(s, a) then Step(s, a) else s
  }

  function Run(s: State, actions: seq<Action>): State
    decreases |actions|
  {
    if actions == [] then s else Run(Next(s, actions[0]), actions[1..])
  }

  /** The handler and the work item only; nobody cancels. */
  predicate WithoutCancel(actions: seq<Action>) {
    forall k :: 0 <= k < |actions| ==> !actions[k].Cancel?
  }

  ghost predicate RingInv(s: State) {
    |s.ring| == MAX_DP_EVENT_NUM && Position(s.head) && Position(s.tail)
  }

  ghost function Contents(s: State): seq<DpEvent>
    requires RingInv(s)
  {
    Queued(s.ring, s.head, s.tail)
  }

  ghost predicate FifoInv(s: State) {
    RingInv(s) && s.accepted == s.handled + Contents(s)
  }

  /** Somebody is going to look at the ring. */
  predicate Awake(s: State) {
    s.mustSchedule || s.pending || s.worker.Draining?
  }

  ghost predicate WakeInv(s: State) {
    RingInv(s) && (Contents(s) != [] ==> Awake(s))
  }

  // Every action keeps the invariants.

  lemma StoreOffers(s: State, e: DpEvent)
    requires FifoInv(s)
    ensures var t := Store(s, e);
            && FifoInv(t)
            && Contents(t) == Offer(Contents(s), e)
            && t == s.(ring := t.ring, tail := t.tail, accepted := t.accepted, offered := s.offered + [e],
                       mustSchedule := s.mustSchedule || Contents(s) == [])
  {
    hide Queued, Depth, Advance;
    DepthIsLength(s.ring, s.head, s.tail);
    if Depth(s.head, s.tail) < MAX_DP_QUEUE_DEPTH {
      StoreAppends(s.ring, s.head, s.tail, e);
      assert s.handled + (Contents(s) + [e]) == (s.handled + Contents(s)) + [e];
    }
  }

  /** The locked section offers its events in order and notices that the ring was empty. */
  lemma {:induction false} FillOffers(s: State, events: seq<DpEvent>)
    requires FifoInv(s)
    ensures var t := Fill(s, events);
            && FifoInv(t)
            && Contents(t) == OfferAll(Contents(s), events)
            && t == s.(ring := t.ring, tail := t.tail, accepted := t.accepted, offered := s.offered + events,
                       mustSchedule := s.mustSchedule || (Contents(s) == [] && events != []))
    decreases |events|
  {
    hide Queued, Store;
    if events == [] {
      assert s.offered + events == s.offered;
    } else {
      var n := |events| - 1;
      FillOffers(s, events[..n]);
      StoreOffers(Fill(s, events[..n]), events[n]);
      DepthIsLength(s.ring, s.head, s.tail);
      OfferAllKeepsOrder(Contents(s), events[..n]);
      assert events == events[..n] + [events[n]];
      assert s.offered + events[..n] + [events[n]] == s.offered + events;
    }
  }

  lemma InitIsEmpty()
    ensures FifoInv(Init()) && Contents(Init()) == []
  {
  }

  lemma FifoStep(s: State, a: Action)
    requires FifoInv(s)
    ensures FifoInv(Next(s, a))
  {
    hide Queued, Depth, Advance, Fill;
    if a.Interrupt? {
      FillOffers(s, a.events);
    } else if a.Take? && s.worker.Draining? && Depth(s.head, s.tail) != 0 {
      AdvanceTakes(s.ring, s.head, s.tail);
      var t := Next(s, a);
      assert s.handled + ([s.ring[s.head]] + Contents(t)) == (s.handled + [s.ring[s.head]]) + Contents(t);
    }
  }

  lemma WakeStep(s: State, a: Action)
    requires FifoInv(s) && WakeInv(s) && !a.Cancel?
    ensures WakeInv(Next(s, a))
  {
    if a.Interrupt? {
      FillOffers(s, a.events);
      if a.events == [] { assert Fill(s, a.events) == s; }
    } else if a.Take? {
      FifoStep(s, a);
      DepthIsLength(s.ring, s.head, s.tail);
    }
  }

  // What holds after every sequence of actions.

  lemma {:induction false} RunKeepsFifo(s: State, actions: seq<Action>)
    requires FifoInv(s)
    ensures FifoInv(Run(s, actions))
    decreases |actions|
  {
    hide FifoInv, Next;
    if actions == [] {
    } else {
      FifoStep(s, actions[0]);
      RunKeepsFifo(Next(s, actions[0]), actions[1..]);
    }
  }

  lemma {:induction false} RunKeepsWake(s: State, actions: seq<Action>)
    requires FifoInv(s) && WakeInv(s) && WithoutCancel(actions)
    ensures WakeInv(Run(s, actions))
    decreases |actions|
  {
    hide FifoInv, WakeInv, Next;
    if actions == [] {
    } else {
      FifoStep(s, actions[0]);
      WakeStep(s, actions[0]);
      RunKeepsWake(Next(s, actions[0]), actions[1..]);
    }
  }

  /** The ring is a bounded FIFO: accepted events are the handled ones and then the queued ones. */
  lemma RingIsBoundedFifo(actions: seq<Action>)
    ensures var s := Run(Init(), actions);
            && RingInv(s)
            && s.accepted == s.handled + Contents(s)
            && |Contents(s)| == Depth(s.head, s.tail) <= MAX_DP_QUEUE_DEPTH
  {
    RunKeepsFifo(Init(), actions);
    var s := Run(Init(), actions);
    DepthIsLength(s.ring, s.head, s.tail);
  }

  /** An interrupt drops an event only once 63 are queued, and keeps the others in order. */
  lemma DropsOnlyWhenFull(actions: seq<Action>, events: seq<DpEvent>)
    ensures var s := Run(Init(), actions);
            var t := Fill(s, events);
            && RingInv(s) && RingInv(t)
            && |Contents(s)| <= MAX_DP_QUEUE_DEPTH
            && Contents(t) == Contents(s) + events[..Room(Contents(s), events)]
            && t.accepted == s.accepted + events[..Room(Contents(s), events)]
            && (Room(Contents(s), events) < |events| ==> |Contents(t)| == MAX_DP_QUEUE_DEPTH)
  {
    hide Queued, Depth, Run, Fill, Init;
    InitIsEmpty();
    RunKeepsFifo(Init(), actions);
    var s := Run(Init(), actions);
    DepthIsLength(s.ring, s.head, s.tail);
    FillOffers(s, events);
    OfferAllKeepsOrder(Contents(s), events);
    var x := events[..Room(Contents(s), events)];
    assert s.handled + (Contents(s) + x) == (s.handled + Contents(s)) + x;
  }

  /** As long as nobody cancels the work, no queued event is forgotten. */
  lemma NoLostWakeup(actions: seq<Action>)
    requires WithoutCancel(actions)
    ensures var s := Run(Init(), actions);
            RingInv(s) && (Contents(s) != [] ==> s.mustSchedule || s.pending || s.worker.Draining?)
  {
    RunKeepsWake(Init(), actions);
  }

  /** What is left to do, counted in steps. */
  ghost function Work(s: State): nat
    requires RingInv(s)
  {
    |Contents(s)| + (if s.mustSchedule then 4 else 0) + (if s.pending then 3 else 0)
    + match s.worker case Draining => 2 case Leaving => 1 case Idle => 0
  }

  /** A step of the handler or the worker that brings no event. */
  predicate Progress(a: Action) {
    !a.Interrupt? && !a.Cancel?
  }

  /** A schedule of such steps, each of them possible when it is taken. */
  predicate Schedulable(s: State, actions: seq<Action>)
    decreases |actions|
  {
    actions != [] ==>
      Progress(actions[0]) && Enabled(s, actions[0]) && Schedulable(Next(s, actions[0]), actions[1..])
  }

  /** Neither side can go on. */
  predicate AtRest(s: State) {
    !Enabled(s, Schedule) && !Enabled(s, Start) && !Enabled(s, Take) && !Enabled(s, Leave)
  }

  lemma ProgressIsWork(s: State, a: Action)
    requires FifoInv(s) && Progress(a) && Enabled(s, a)
    ensures FifoInv(Next(s, a)) && Work(Next(s, a)) < Work(s) && Next(s, a).accepted == s.accepted
  {
    hide Queued, Depth, Advance;
    FifoStep(s, a);
    if a.Take? {
      DepthIsLength(s.ring, s.head, s.tail);
      if Depth(s.head, s.tail) != 0 { AdvanceTakes(s.ring, s.head, s.tail); }
    } else {
      assert Contents(Next(s, a)) == Contents(s);
    }
  }

  /** Every schedule of both sides drains the ring: it is finite, and when neither side can go on, all
    that was accepted has been handled. */
  lemma {:induction false} EveryScheduleDrains(s: State, actions: seq<Action>)
    requires FifoInv(s) && WakeInv(s) && Schedulable(s, actions)
    ensures |actions| <= Work(s)
    ensures AtRest(Run(s, actions)) ==> Run(s, actions).handled == s.accepted
    decreases |actions|
  {
    hide FifoInv, Queued;
    if actions == [] {
      RestIsDrained(s);
    } else {
      ProgressIsWork(s, actions[0]);
      WakeStep(s, actions[0]);
      hide WakeInv, Next, Enabled;
      EveryScheduleDrains(Next(s, actions[0]), actions[1..]);
    }
  }

  lemma RestIsDrained(s: State)
    requires FifoInv(s) && WakeInv(s)
    ensures AtRest(s) ==> s.handled == s.accepted
  {
    if AtRest(s) {
      assert Contents(s) == [];
    }
  }

  /** The same after every run without a cancel. */
  lemma RunsAreDrained(actions: seq<Action>, more: seq<Action>)
    requires WithoutCancel(actions) && Schedulable(Run(Init(), actions), more)
    ensures RingInv(Run(Init(), actions)) && |more| <= Work(Run(Init(), actions))
    ensures var s := Run(Init(), actions); AtRest(Run(s, more)) ==> Run(s, more).handled == s.accepted
  {
    InitIsEmpty();
    RunKeepsFifo(Init(), actions);
    RunKeepsWake(Init(), actions);
    EveryScheduleDrains(Run(Init(), actions), more);
  }

  // What cancelling the work does.

  /** Events wait in the ring and nobody is going to look at them. */
  ghost predicate Stalled(s: State) {
    FifoInv(s) && Contents(s) != [] && !Awake(s) && s.worker.Idle?
  }

  /** Cancelling keeps the wake-up rule exactly if the ring is empty or the handler will schedule. */
  lemma CancelKeepsWakeIff(s: State)
    requires FifoInv(s) && WakeInv(s) && Enabled(s, Cancel)
    ensures WakeInv(Step(s, Cancel)) <==> Contents(s) == [] || s.mustSchedule
    ensures !WakeInv(Step(s, Cancel)) <==> Stalled(Step(s, Cancel))
  {
    hide Queued;
    assert Contents(Step(s, Cancel)) == Contents(s);
  }

  /** One event and a suspend before the work has started are enough. */
  lemma CancelCanStall(e: DpEvent)
    ensures Stalled(Run(Init(), [Interrupt([e])] + [Schedule] + [Cancel]))
  {
    hide Queued, Fill, Init;
    var s := Init();
    InitIsEmpty();
    FillOffers(s, [e]);
    OfferAllKeepsOrder([], [e]);
    InitIsQuiet();
    var t := Next(Next(Fill(s, [e]), Schedule), Cancel);
    assert Contents(t) == Contents(Fill(s, [e])) == [e];
    RunAppend(s, [Interrupt([e])] + [Schedule], [Cancel]);
    RunAppend(s, [Interrupt([e])], [Schedule]);
  }

  lemma InitIsQuiet()
    ensures !Awake(Init()) && Init().worker.Idle?
  {
  }

  lemma {:induction false} RunAppend(s: State, x: seq<Action>, y: seq<Action>)
    ensures Run(s, x + y) == Run(Run(s, x), y)
    decreases |x|
  {
    hide Next;
    if x == [] {
      assert x + y == y;
    } else {
      assert (x + y)[1..] == x[1..] + y;
      RunAppend(Next(s, x[0]), x[1..], y);
    }
  }

  /** A stall is for ever: whatever happens next, no event is handled any more. */
  lemma {:induction false} StallIsPermanent(s: State, actions: seq<Action>)
    requires Stalled(s)
    ensures Stalled(Run(s, actions)) && Run(s, actions).handled == s.handled
    decreases |actions|
  {
    if actions == [] {
    } else {
      StallStep(s, actions[0]);
      hide Stalled, Next;
      StallIsPermanent(Next(s, actions[0]), actions[1..]);
    }
  }

  lemma StallStep(s: State, a: Action)
    requires Stalled(s)
    ensures Stalled(Next(s, a)) && Next(s, a).handled == s.handled
  {
    hide Queued, Fill;
    FifoStep(s, a);
    if a.Interrupt? {
      FillOffers(s, a.events);
      DepthIsLength(s.ring, s.head, s.tail);
      OfferAllKeepsOrder(Contents(s), a.events);
    }
  }
}
