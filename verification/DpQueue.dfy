/** The ring of DisplayPort events between the hot-plug interrupt handler and its work item. */
module DpQueue {
  import opened BitMasks

  const MAX_DP_EVENT_NUM: nat := 64
  const MAX_DP_QUEUE_DEPTH: nat := MAX_DP_EVENT_NUM - 1

  datatype DpInterrupt = NoInterrupt | PlugIn | HdmiOut | DpOut | ShortPulse

  datatype DpEvent = DpEvent(device: bv32, kind: DpInterrupt)

  predicate Position(p: nat) {
    p < MAX_DP_EVENT_NUM
  }

  function Depth(head: nat, tail: nat): int {
    if head <= tail then tail - head else MAX_DP_EVENT_NUM - head + tail
  }

  function Advance(position: nat): nat {
    if position < MAX_DP_QUEUE_DEPTH then position + 1 else 0
  }

  // The abstract queue.

  /** The events between head and tail, oldest first. */
  function Queued(ring: seq<DpEvent>, head: nat, tail: nat): seq<DpEvent>
    requires |ring| == MAX_DP_EVENT_NUM && Position(head) && Position(tail)
  {
    if head <= tail then ring[head..tail] else ring[head..] + ring[..tail]
  }

  lemma DepthIsLength(ring: seq<DpEvent>, head: nat, tail: nat)
    requires |ring| == MAX_DP_EVENT_NUM && Position(head) && Position(tail)
    ensures Depth(head, tail) == |Queued(ring, head, tail)| <= MAX_DP_QUEUE_DEPTH
    ensures Depth(head, tail) == (tail - head) % MAX_DP_EVENT_NUM
  {
  }

  /** Storing at the tail and advancing it appends, unless the queue is full. */
  lemma StoreAppends(ring: seq<DpEvent>, head: nat, tail: nat, e: DpEvent)
    requires |ring| == MAX_DP_EVENT_NUM && Position(head) && Position(tail)
    requires Depth(head, tail) < MAX_DP_QUEUE_DEPTH
    ensures Position(Advance(tail))
    ensures Queued(ring[tail := e], head, Advance(tail)) == Queued(ring, head, tail) + [e]
  {
    var q, r := Queued(ring, head, tail), Queued(ring[tail := e], head, Advance(tail));
    assert |r| == |q| + 1;
    assert forall k :: 0 <= k < |q| ==> r[k] == q[k];
    assert r[|q|] == e;
  }

  /** Advancing the head takes the oldest event off. */
  lemma AdvanceTakes(ring: seq<DpEvent>, head: nat, tail: nat)
    requires |ring| == MAX_DP_EVENT_NUM && Position(head) && Position(tail)
    requires Depth(head, tail) != 0
    ensures Position(Advance(head))
    ensures Queued(ring, head, tail) == [ring[head]] + Queued(ring, Advance(head), tail)
  {
  }

  /** A bounded queue accepts events as long as it has room and drops the others. */
  function Offer(q: seq<DpEvent>, e: DpEvent): seq<DpEvent> {
    if |q| < MAX_DP_QUEUE_DEPTH then q + [e] else q
  }

  function OfferAll(q: seq<DpEvent>, events: seq<DpEvent>): seq<DpEvent> {
    if events == [] then q
    else Offer(OfferAll(q, events[..|events| - 1]), events[|events| - 1])
  }

  /** How many of the events offered are accepted: all that fit, the first ones. */
  function Room(q: seq<DpEvent>, events: seq<DpEvent>): nat
    requires |q| <= MAX_DP_QUEUE_DEPTH
  {
    if |events| <= MAX_DP_QUEUE_DEPTH - |q| then |events| else MAX_DP_QUEUE_DEPTH - |q|
  }

  lemma {:induction false} OfferAllKeepsOrder(q: seq<DpEvent>, events: seq<DpEvent>)
    requires |q| <= MAX_DP_QUEUE_DEPTH
    ensures OfferAll(q, events) == q + events[..Room(q, events)]
  {
    if events == [] {
    } else {
      var front, last := events[..|events| - 1], events[|events| - 1];
      OfferAllKeepsOrder(q, front);
      var n := Room(q, front);
      assert front[..n] == events[..n];
      if n == |front| && |q| + n < MAX_DP_QUEUE_DEPTH {
        assert events[..n + 1] == events[..n] + [last];
      }
    }
  }

  /** The queue never holds more than 63 events. */
  lemma OfferAllIs(q: seq<DpEvent>, events: seq<DpEvent>)
    requires |q| <= 63
    ensures OfferAll(q, events) == q + if |events| <= 63 - |q| then events else events[..63 - |q|]
  {
    OfferAllKeepsOrder(q, events);
  }

  // What one hot-plug interrupt means.

  lemma OnIsZero(x: bv32, y: bv32)
    ensures On(x, y) == 0 <==> x == 0 && y == 0
    ensures On(x, 0) == x
  {
  }

  lemma OnAssociates(x: bv32, y: bv32, z: bv32)
    ensures On(x, On(y, z)) == On(On(x, y), z)
  {
  }

  /** A connector, with what the display BIOS says about its interrupt. */
  datatype Port = Port(
    polled: bool,      // it reports hot-plug interrupts
    intBit: bv32,
    enabled: bool,
    digital: bool,     // DisplayPort or HDMI
    output: bv32,
    interrupt: DpInterrupt)

  predicate Concerned(p: Port, hpd: bv32) {
    p.polled && Meets(p.intBit, hpd) && p.enabled
  }

  predicate Plugs(p: Port) {
    !p.digital || p.interrupt.HdmiOut? || p.interrupt.DpOut?
  }

  /** The unplug interrupt of a digital port, which compliance tests want to know about. */
  predicate Unplugs(p: Port) {
    p.digital && (p.interrupt.HdmiOut? || p.interrupt.DpOut?)
  }

  /** The connectors that a hot-plug interrupt marks as unplugged. */
  function UnpluggedOf(ports: seq<Port>, hpd: bv32): set<nat> {
    set k: nat | k < |ports| && Concerned(ports[k], hpd) && Unplugs(ports[k])
  }

  predicate Queues(p: Port) {
    p.digital && (p.interrupt.ShortPulse? || p.interrupt.PlugIn?)
  }

  function EventsOf(ports: seq<Port>, hpd: bv32): seq<DpEvent> {
    if ports == [] then []
    else
      var front, p := EventsOf(ports[..|ports| - 1], hpd), ports[|ports| - 1];
      if Concerned(p, hpd) && Queues(p) then front + [DpEvent(p.output, p.interrupt)] else front
  }

  function PluggedOf(ports: seq<Port>, hpd: bv32): bv32 {
    if ports == [] then 0
    else
      var front, p := PluggedOf(ports[..|ports| - 1], hpd), ports[|ports| - 1];
      if Concerned(p, hpd) && Plugs(p) then On(front, p.output) else front
  }

  /** What handling one event asks for: nothing, a detection, or one that compares the EDID. */
  datatype Answer = NoConnector | Nothing | Detect(compareEdid: bool)

  function DetectOf(events: seq<DpEvent>, answers: seq<Answer>): bv32
    requires |events| == |answers|
  {
    if events == [] then 0
    else
      var n := |events| - 1;
      var front := DetectOf(events[..n], answers[..n]);
      if answers[n].Detect? then On(front, events[n].device) else front
  }

  function CompareOf(events: seq<DpEvent>, answers: seq<Answer>): bv32
    requires |events| == |answers|
  {
    if events == [] then 0
    else
      var n := |events| - 1;
      var front := CompareOf(events[..n], answers[..n]);
      if answers[n].Detect? && answers[n].compareEdid then On(front, events[n].device) else front
  }

  /** The ports that bring an event, in ascending order. */
  function Bringing(ports: seq<Port>, hpd: bv32): (at: seq<nat>)
    ensures forall j :: 0 <= j < |at| ==> at[j] < |ports|
    ensures forall j, k :: 0 <= j < k < |at| ==> at[j] < at[k]
  {
    if ports == [] then []
    else
      var n := |ports| - 1;
      Bringing(ports[..n], hpd) + if Concerned(ports[n], hpd) && Queues(ports[n]) then [n] else []
  }

  lemma {:induction false} BringingAre(ports: seq<Port>, hpd: bv32, k: nat)
    ensures k in Bringing(ports, hpd) <==> k < |ports| && Concerned(ports[k], hpd) && Queues(ports[k])
  {
    hide Concerned, Queues;
    if ports == [] {
    } else {
      var n := |ports| - 1;
      var last := if Concerned(ports[n], hpd) && Queues(ports[n]) then [n] else [];
      BringingAre(ports[..n], hpd, k);
      assert k in last <==> k == n && Concerned(ports[n], hpd) && Queues(ports[n]);
      assert Bringing(ports, hpd) == Bringing(ports[..n], hpd) + last;
      if k < n { assert ports[..n][k] == ports[k]; }
      hide Bringing;
    }
  }

  /** These are the enabled digital ports that the interrupt concerns and that report a plug or a short pulse. */
  lemma BringingMeans(ports: seq<Port>, hpd: bv32, k: nat)
    ensures k in Bringing(ports, hpd)
            <==> && k < |ports| && ports[k].polled && ports[k].enabled && Meets(ports[k].intBit, hpd)
                 && ports[k].digital && (ports[k].interrupt == PlugIn || ports[k].interrupt == ShortPulse)
  {
    BringingAre(ports, hpd, k);
    hide Meets, Bringing;
  }

  /** Each of them brings one event. */
  lemma {:induction false} EventsAre(ports: seq<Port>, hpd: bv32, j: nat)
    ensures |EventsOf(ports, hpd)| == |Bringing(ports, hpd)|
    ensures j < |Bringing(ports, hpd)| ==>
              var p := ports[Bringing(ports, hpd)[j]]; EventsOf(ports, hpd)[j] == DpEvent(p.output, p.interrupt)
  {
    hide Concerned, Queues;
    if ports == [] {
    } else {
      var n := |ports| - 1;
      EventsAre(ports[..n], hpd, j);
    }
  }

  /** The outputs that are looked at: those of ports that are not digital, and of unplugged digital ones. */
  lemma {:induction false} PluggedMeans(ports: seq<Port>, hpd: bv32, b: bv32)
    requires OneBit(b)
    ensures Has(PluggedOf(ports, hpd), b)
            <==> exists p :: p in ports && p.polled && p.enabled && Meets(p.intBit, hpd)
                             && (!p.digital || p.interrupt == HdmiOut || p.interrupt == DpOut) && Has(p.output, b)
  {
    hide OneBit, Has, On, Meets;
    if ports == [] {
      NothingIsNoBit(b);
    } else {
      var n := |ports| - 1;
      PluggedMeans(ports[..n], hpd, b);
      OnBit(PluggedOf(ports[..n], hpd), ports[n].output, b);
      assert forall p :: p in ports <==> p in ports[..n] || p == ports[n];
    }
  }

  lemma {:induction false} DetectMeans(events: seq<DpEvent>, answers: seq<Answer>, b: bv32)
    requires |events| == |answers| && OneBit(b)
    ensures Has(DetectOf(events, answers), b)
            <==> exists k :: 0 <= k < |events| && answers[k].Detect? && Has(events[k].device, b)
    ensures Has(CompareOf(events, answers), b)
            <==> exists k :: 0 <= k < |events| && answers[k] == Detect(true) && Has(events[k].device, b)
  {
    hide OneBit, Has, On, Meets;
    if events == [] {
      NothingIsNoBit(b);
    } else {
      var n := |events| - 1;
      DetectMeans(events[..n], answers[..n], b);
      OnBit(DetectOf(events[..n], answers[..n]), events[n].device, b);
      OnBit(CompareOf(events[..n], answers[..n]), events[n].device, b);
      assert forall k :: 0 <= k < n ==> events[..n][k] == events[k] && answers[..n][k] == answers[k];
    }
  }

  /** Which connectors a compliance test wants marked, and when hot-plug work is needed. */
  lemma UnpluggedMeans(ports: seq<Port>, hpd: bv32)
    ensures forall k: nat :: k in UnpluggedOf(ports, hpd)
              <==> && k < |ports| && ports[k].polled && ports[k].enabled && Meets(ports[k].intBit, hpd)
                   && ports[k].digital && (ports[k].interrupt == HdmiOut || ports[k].interrupt == DpOut)
    ensures (exists k :: 0 <= k < |ports| && Concerned(ports[k], hpd) && Plugs(ports[k]))
            <==> exists k :: && 0 <= k < |ports| && ports[k].polled && ports[k].enabled && Meets(ports[k].intBit, hpd)
                             && (!ports[k].digital || ports[k].interrupt == HdmiOut || ports[k].interrupt == DpOut)
  {
    hide Meets;
    forall k: nat | k < |ports|
      ensures k in UnpluggedOf(ports, hpd) <==> Concerned(ports[k], hpd) && Unplugs(ports[k])
    {
    }
  }

  /** The part of the display state that the handler and the work item share. */
  class DpEventRing {
    var head: nat
    var tail: nat
    var event: array<DpEvent>
    var hpdOutputs: bv32
    var compareEdidOutputs: bv32
    var hpdOut: set<nat>     // the connectors marked as unplugged

    ghost predicate Valid()
      reads this
    {
      event.Length == MAX_DP_EVENT_NUM && Position(head) && Position(tail)
    }

    ghost function Contents(): seq<DpEvent>
      reads this, event
      requires Valid()
    {
      Queued(event[..], head, tail)
    }

    constructor ()
      ensures Valid() && fresh(event) && Contents() == []
      ensures hpdOutputs == 0 && compareEdidOutputs == 0 && hpdOut == {}
    {
      head, tail := 0, 0;
      event := new DpEvent[MAX_DP_EVENT_NUM](_ => DpEvent(0, NoInterrupt));
      hpdOutputs, compareEdidOutputs, hpdOut := 0, 0, {};
    }

    /** Offers one event; says whether the queue was empty before. */
    method Push(e: DpEvent) returns (wasEmpty: bool)
      requires Valid()
      modifies this`tail, event
      ensures Valid() && Contents() == Offer(old(Contents()), e)
      ensures Contents() == if |old(Contents())| < 63 then old(Contents()) + [e] else old(Contents())
      ensures wasEmpty <==> old(Contents()) == []
    {
      DepthIsLength(event[..], head, tail);
      wasEmpty := Depth(head, tail) == 0;
      if !(Depth(head, tail) >= MAX_DP_QUEUE_DEPTH) {
        StoreAppends(event[..], head, tail, e);
        ghost var before := event[..];
        event[tail] := e;
        assert event[..] == before[tail := e];
        tail := Advance(tail);
      }
    }

    /** Takes the oldest event, if there is one. */
    method Pop() returns (empty: bool, e: DpEvent)
      requires Valid()
      modifies this`head
      ensures Valid()
      ensures empty <==> old(Contents()) == []
      ensures empty ==> Contents() == []
      ensures !empty ==> old(Contents()) == [e] + Contents()
    {
      DepthIsLength(event[..], head, tail);
      empty, e := Depth(head, tail) == 0, DpEvent(0, NoInterrupt);
      if !empty {
        AdvanceTakes(event[..], head, tail);
        e := event[head];
        head := Advance(head);
      }
    }

    /** The locked section of the handler; cts says that a compliance test is running. */
    method HpdHandle(ports: seq<Port>, hpd: bv32, cts: bool) returns (hpdHappen: bool, queueIrqWork: bool)
      requires Valid()
      modifies this`tail, this`hpdOutputs, this`hpdOut, event
      ensures Valid()
      ensures Contents() == OfferAll(old(Contents()), EventsOf(ports, hpd))
      ensures hpdOutputs == On(old(hpdOutputs), PluggedOf(ports, hpd))
      ensures hpdOut == old(hpdOut) + if cts then UnpluggedOf(ports, hpd) else {}
      ensures hpdHappen <==> exists k :: 0 <= k < |ports| && Concerned(ports[k], hpd) && Plugs(ports[k])
      // the work is requested exactly for a change from empty to non-empty
      ensures queueIrqWork <==> old(Contents()) == [] && EventsOf(ports, hpd) != []
    {
      hide Queued, Depth, Concerned, EventsOf, PluggedOf, UnpluggedOf, OfferAll, On;
      hpdHappen, queueIrqWork := false, false;
      DepthIsLength(event[..], head, tail);
      NothingOffered(Contents(), ports, hpd);
      assert UnpluggedOf(ports[..0], hpd) == {} by { NothingUnplugged(ports, hpd); }
      OnIsZero(hpdOutputs, 0);
      for i := 0 to |ports|
        invariant Valid()
        invariant Contents() == OfferAll(old(Contents()), EventsOf(ports[..i], hpd))
        invariant hpdOutputs == On(old(hpdOutputs), PluggedOf(ports[..i], hpd))
        invariant hpdOut == old(hpdOut) + if cts then UnpluggedOf(ports[..i], hpd) else {}
        invariant hpdHappen <==> exists k :: 0 <= k < i && Concerned(ports[k], hpd) && Plugs(ports[k])
        invariant queueIrqWork <==> old(Contents()) == [] && EventsOf(ports[..i], hpd) != []
      {
        var p := ports[i];
        PortAdds(ports, i, hpd, old(Contents()), old(hpdOutputs));
        UnpluggedOneMore(ports, i, hpd);
        if Concerned(p, hpd) {
          if Plugs(p) {
            hpdHappen := true;
            hpdOutputs := On(hpdOutputs, p.output);
            if Unplugs(p) && cts {
              hpdOut := hpdOut + {i};
            }
          } else if Queues(p) {
            var wasEmpty := Push(DpEvent(p.output, p.interrupt));
            if wasEmpty {
              queueIrqWork := true;
            }
          }
        }
      }
      assert ports[..|ports|] == ports;
    }

    /** The work item: handles events until the queue is empty, and says whether hot-plug work is needed. */
    method HandleDpIrqs(answers: seq<Answer>) returns (handled: seq<DpEvent>, hotplug: bool)
      requires Valid() && |answers| >= |Contents()|
      modifies this`head, this`hpdOutputs, this`compareEdidOutputs
      ensures Valid() && Contents() == []
      ensures handled == old(Contents())
      ensures hotplug <==> DetectOf(handled, answers[..|handled|]) != 0
      ensures hpdOutputs == On(old(hpdOutputs), DetectOf(handled, answers[..|handled|]))
      ensures compareEdidOutputs == On(old(compareEdidOutputs), CompareOf(handled, answers[..|handled|]))
    {
      hide Queued, Depth, On;
      handled := [];
      var detectDevices, compEdidDevs: bv32 := 0, 0;
      var empty := false;
      while !empty
        invariant Valid()
        invariant handled + Contents() == old(Contents())
        invariant empty ==> Contents() == []
        invariant detectDevices == DetectOf(handled, answers[..|handled|])
        invariant compEdidDevs == CompareOf(handled, answers[..|handled|])
        invariant unchanged(`hpdOutputs) && unchanged(`compareEdidOutputs)
        decreases |Contents()|, !empty
      {
        var e: DpEvent;
        empty, e := Pop();
        if !empty {
          var n := |handled|;
          var answer := answers[n];
          assert answers[..n + 1][..n] == answers[..n] && (handled + [e])[..n] == handled;
          handled := handled + [e];
          if answer.Detect? {
            detectDevices := On(detectDevices, e.device);
            if answer.compareEdid {
              compEdidDevs := On(compEdidDevs, e.device);
            }
          }
        }
      }
      hotplug := detectDevices != 0;
      if hotplug {
        hpdOutputs := On(hpdOutputs, detectDevices);
        compareEdidOutputs := On(compareEdidOutputs, compEdidDevs);
      } else {
        NothingDetected(handled, answers[..|handled|]);
        OnIsZero(hpdOutputs, 0);
        OnIsZero(compareEdidOutputs, 0);
      }
    }
  }

  lemma NothingUnplugged(ports: seq<Port>, hpd: bv32)
    ensures UnpluggedOf(ports[..0], hpd) == {}
  {
  }

  lemma UnpluggedOneMore(ports: seq<Port>, i: nat, hpd: bv32)
    requires i < |ports|
    ensures UnpluggedOf(ports[..i + 1], hpd)
            == UnpluggedOf(ports[..i], hpd) + if Concerned(ports[i], hpd) && Unplugs(ports[i]) then {i} else {}
    ensures Unplugs(ports[i]) ==> Plugs(ports[i])
  {
  }

  lemma OfferOneMore(q: seq<DpEvent>, events: seq<DpEvent>, e: DpEvent)
    ensures OfferAll(q, events + [e]) == Offer(OfferAll(q, events), e)
  {
    assert (events + [e])[..|events|] == events;
  }

  lemma NothingOffered(q: seq<DpEvent>, ports: seq<Port>, hpd: bv32)
    ensures EventsOf(ports[..0], hpd) == [] && PluggedOf(ports[..0], hpd) == 0
    ensures OfferAll(q, EventsOf(ports[..0], hpd)) == q
  {
  }

  lemma PortAdds(ports: seq<Port>, i: nat, hpd: bv32, q: seq<DpEvent>, outputs: bv32)
    requires i < |ports| && |q| <= MAX_DP_QUEUE_DEPTH
    ensures var p := ports[i];
            && EventsOf(ports[..i + 1], hpd)
               == (if Concerned(p, hpd) && Queues(p)
                   then EventsOf(ports[..i], hpd) + [DpEvent(p.output, p.interrupt)]
                   else EventsOf(ports[..i], hpd))
            && (Concerned(p, hpd) && Queues(p) ==>
                  OfferAll(q, EventsOf(ports[..i + 1], hpd))
                  == Offer(OfferAll(q, EventsOf(ports[..i], hpd)), DpEvent(p.output, p.interrupt)))
            && On(outputs, PluggedOf(ports[..i + 1], hpd))
               == (if Concerned(p, hpd) && Plugs(p) then On(On(outputs, PluggedOf(ports[..i], hpd)), p.output)
                   else On(outputs, PluggedOf(ports[..i], hpd)))
    ensures OfferAll(q, EventsOf(ports[..i], hpd)) == [] <==> q == [] && EventsOf(ports[..i], hpd) == []
  {
    hide On, Concerned, OfferAll;
    assert ports[..i + 1][..i] == ports[..i];
    OnAssociates(outputs, PluggedOf(ports[..i], hpd), ports[i].output);
    OfferAllKeepsOrder(q, EventsOf(ports[..i], hpd));
    OfferOneMore(q, EventsOf(ports[..i], hpd), DpEvent(ports[i].output, ports[i].interrupt));
  }

  lemma {:induction false} NothingDetected(events: seq<DpEvent>, answers: seq<Answer>)
    requires |events| == |answers| && DetectOf(events, answers) == 0
    ensures CompareOf(events, answers) == 0
  {
    if events == [] {
    } else {
      var n := |events| - 1;
      OnIsZero(DetectOf(events[..n], answers[..n]), events[n].device);
      NothingDetected(events[..n], answers[..n]);
    }
  }
}
