/** The fence tracking protocol of the DMA fence driver.

  Threads that want to be told about a fence arm it: the fence enters a list that is
  guarded by the driver lock. The event thread splices that list out, retires the fences
  the hardware has finished and splices the rest back. Every atomic step of both sides is
  an action below; a run is any sequence of actions, in which an action that is not
  enabled has no effect. What is proved for every sequence of actions therefore holds in
  every interleaving.

  The Linux fence core is a contract: `enable_signaling` is asked at most once for a fence,
  and only while the fence is not signalled; if it answers no, the core signals the fence.
*/
module FenceTracking {
  import opened Basics

  type Fence = nat

  datatype Lock = Free | Held(fence: Fence, linked: bool)

  /** Where the event thread is. In `Scan(i)` its cursor is at position i of the process list. */
  datatype ThreadPc =
    | Waiting
    | SpliceIn
    | Scan(i: nat)
    | Unlinked(i: nat, fence: Fence)
    | Uncounted(i: nat, fence: Fence)
    | Signalled(i: nat, fence: Fence)
    | SpliceBack
    | Stopped

  datatype State = State(
    canFreeze: bool,
    reported: set<Fence>,      // fences for which the hardware now answers "back"
    everReported: set<Fence>,  // fences for which it has answered so at some time
    refs: map<Fence, nat>,     // the reference counter of every fence created so far
    external: map<Fence, nat>, // the references that are held outside the lists
    freed: set<Fence>,
    enabled: set<Fence>,       // enable_signaling has been asked
    waiting: set<Fence>,       // armers past the first test that have not got the lock yet
    lock: Lock,
    fenceList: seq<Fence>,
    processList: seq<Fence>,
    fenceCount: int,
    pc: ThreadPc,
    signalled: set<Fence>,
    log: seq<Fence>,           // all fences ever linked, in arming order
    removed: set<Fence>)       // all fences ever unlinked by the event thread

  datatype Action =
    | Create(f: Fence)
    | Get(f: Fence)
    | Put(f: Fence)
    | Report(back: set<Fence>)
    | Poll(f: Fence)
    | BeginArm(f: Fence)
    | EnterLock(f: Fence)
    | Link
    | CountAndUnlock
    | Wake
    | DoSpliceIn
    | ScanStep
    | Uncount
    | SignalFence
    | PutFence
    | EndScan(freezing: bool, stop: bool)
    | DoSpliceBack(stop: bool)

  function Init(canFreeze: bool): State {
    State(canFreeze, {}, {}, map[], map[], {}, {}, {}, Free, [], [], 0, Waiting, {}, [], {})
  }

  predicate Arming(s: State, f: Fence) {
    f in s.waiting || (s.lock.Held? && s.lock.fence == f)
  }

  predicate Enabled(s: State, a: Action) {
    match a
    case Create(f) => f !in s.refs
    case Get(f) => f in s.refs && f in s.external && s.external[f] > 0
    case Put(f) => f in s.refs && s.refs[f] > 0 && f in s.external && s.external[f] > (if Arming(s, f) then 1 else 0)
    case Report(_) => true
    case Poll(f) => f in s.external && s.external[f] > 0
    case BeginArm(f) =>
      f in s.external && s.external[f] > 0 && f !in s.enabled && f !in s.signalled
    case EnterLock(f) => f in s.waiting && s.lock.Free? && f in s.refs
    case Link => s.lock.Held? && !s.lock.linked
    case CountAndUnlock => s.lock.Held? && s.lock.linked
    case Wake => s.pc.Waiting?
    case DoSpliceIn => s.pc.SpliceIn? && s.lock.Free?
    case ScanStep => s.pc.Scan? && s.pc.i < |s.processList|
    case Uncount => s.pc.Unlinked?
    case SignalFence => s.pc.Uncounted?
    case PutFence => s.pc.Signalled? && s.pc.fence in s.refs && s.refs[s.pc.fence] > 0
    case EndScan(_, _) => s.pc.Scan? && s.pc.i == |s.processList|
    case DoSpliceBack(_) => s.pc.SpliceBack? && s.lock.Free?
  }

  /** Drops one reference of f, and frees f with the last one. */
  function DropRef(s: State, f: Fence): State
    requires f in s.refs && s.refs[f] > 0
  {
    s.(refs := s.refs[f := s.refs[f] - 1],
       freed := if s.refs[f] == 1 then s.freed + {f} else s.freed)
  }

  function Step(s: State, a: Action): State
    requires Enabled(s, a)
  {
    match a
    case Create(f) => s.(refs := s.refs[f := 1], external := s.external[f := 1])
    case Get(f) =>
      s.(refs := s.refs[f := s.refs[f] + 1], external := s.external[f := s.external[f] + 1])
    case Put(f) =>
      DropRef(s, f).(external := s.external[f := s.external[f] - 1])
    case Report(back) => s.(reported := back, everReported := s.everReported + back)
    // anyone who asks the core whether f is signalled makes the core signal it
    case Poll(f) => if f in s.reported then s.(signalled := s.signalled + {f}) else s
    // the first test, before the driver lock is taken
    case BeginArm(f) =>
      var s := s.(enabled := s.enabled + {f});
      if f in s.reported then s.(signalled := s.signalled + {f})
      else s.(waiting := s.waiting + {f})
    // the second test, under the driver lock, and the reference for the list
    case EnterLock(f) =>
      var s := s.(waiting := s.waiting - {f});
      if f in s.reported then s.(signalled := s.signalled + {f})
      else s.(refs := s.refs[f := s.refs[f] + 1], lock := Held(f, false))
    case Link =>
      s.(fenceList := s.fenceList + [s.lock.fence], log := s.log + [s.lock.fence],
         lock := Held(s.lock.fence, true))
    case CountAndUnlock => s.(fenceCount := s.fenceCount + 1, lock := Free)
    case Wake => s.(pc := SpliceIn)
    // list_splice_init puts the spliced list in front
    case DoSpliceIn =>
      s.(processList := s.fenceList + s.processList, fenceList := [], pc := Scan(0))
    case ScanStep =>
      var i, f := s.pc.i, s.processList[s.pc.i];
      if f in s.reported then
        s.(processList := s.processList[..i] + s.processList[i + 1..],
           removed := s.removed + {f}, pc := Unlinked(i, f))
      else s.(pc := Scan(i + 1))
    case Uncount => s.(fenceCount := s.fenceCount - 1, pc := Uncounted(s.pc.i, s.pc.fence))
    case SignalFence =>
      s.(signalled := s.signalled + {s.pc.fence}, pc := Signalled(s.pc.i, s.pc.fence))
    case PutFence => DropRef(s, s.pc.fence).(pc := Scan(s.pc.i))
    case EndScan(freezing, stop) =>
      if s.canFreeze then
        if freezing && s.processList != [] then s.(pc := Scan(0))
        else if freezing && s.fenceList != [] then s.(pc := SpliceIn)
        else s.(pc := SpliceBack)
      else s.(pc := if stop then Stopped else Waiting)
    case DoSpliceBack(stop) =>
      s.(fenceList := s.processList + s.fenceList, processList := [],
         pc := if stop then Stopped else Waiting)
  }

  function Next(s: State, a: Action): State {
    if Enabled(s, a) then Step(s, a) else s
  }

  function Run(s: State, actions: seq<Action>): State
    decreases |actions|
  {
    if actions == [] then s else Run(Next(s, actions[0]), actions[1..])
  }

  /** The arming log without the fences that the event thread has removed. */
  function Remaining(log: seq<Fence>, removed: set<Fence>): seq<Fence> {
    if log == [] then []
    else
      var rest := Remaining(log[..|log| - 1], removed);
      var last := log[|log| - 1];
      if last in removed then rest else rest + [last]
  }

  predicate Retiring(pc: ThreadPc) {
    pc.Unlinked? || pc.Uncounted? || pc.Signalled?
  }

  /** f has a reference that belongs to the lists, or to the step that puts f in or takes it out. */
  predicate Tracked(s: State, f: Fence) {
    || f in s.fenceList
    || f in s.processList
    || (s.lock.Held? && s.lock.fence == f)
    || (Retiring(s.pc) && s.pc.fence == f)
  }

  // The invariant, in five parts.

  ghost predicate ArmInv(s: State) {
    && (forall f :: f in s.log ==> f in s.enabled)
    && s.waiting <= s.enabled
    && (forall f :: f in s.waiting ==> f !in s.log)
    && (s.lock.Held? ==>
        && s.lock.fence in s.enabled
        && s.lock.fence !in s.waiting
        && (s.lock.fence in s.log <==> s.lock.linked)
        && (s.lock.linked ==> s.lock.fence in s.fenceList))
    && (forall f :: f in s.waiting ==> f in s.external && s.external[f] > 0)
    && (s.lock.Held? ==> s.lock.fence in s.external && s.external[s.lock.fence] > 0)
  }

  /** The two lists hold each fence that was linked and not removed exactly once. */
  ghost predicate Partition(log: seq<Fence>, removed: set<Fence>, p: seq<Fence>, q: seq<Fence>) {
    && Distinct(log)
    && Distinct(p + q)
    && (forall f :: f in p || f in q <==> f in log && f !in removed)
    && (forall f :: f in removed ==> f in log)
  }

  ghost predicate ListInv(s: State) {
    && Partition(s.log, s.removed, s.processList, s.fenceList)
    && (s.pc.Scan? ==> s.pc.i <= |s.processList|)
    && (Retiring(s.pc) ==> s.pc.i <= |s.processList| && s.pc.fence in s.removed)
  }

  ghost predicate CountInv(s: State) {
    s.fenceCount == |s.fenceList| + |s.processList|
                    - (if s.lock.Held? && s.lock.linked then 1 else 0)
                    + (if s.pc.Unlinked? then 1 else 0)
  }

  ghost predicate RefInv(s: State) {
    && s.refs.Keys == s.external.Keys
    && (forall f :: Tracked(s, f) ==> f in s.refs)
    && (forall f :: f in s.refs ==> s.refs[f] == s.external[f] + (if Tracked(s, f) then 1 else 0))
    && (forall f :: f in s.freed <==> f in s.refs && s.refs[f] == 0)
    && (forall f :: f in s.removed ==> f in s.refs)
  }

  ghost predicate SignalInv(s: State) {
    && s.reported <= s.everReported
    && s.signalled <= s.everReported
    && s.removed <= s.everReported
    && (forall f :: f in s.removed ==>
          f in s.signalled || ((s.pc.Unlinked? || s.pc.Uncounted?) && s.pc.fence == f))
  }

  /** Only for a driver that may freeze: the lists keep the arming order. */
  ghost predicate OrderInv(s: State) {
    && s.canFreeze
    && s.processList + s.fenceList == Remaining(s.log, s.removed)
    && (s.pc.Waiting? || s.pc.SpliceIn? || s.pc.Stopped? ==> s.processList == [])
  }

  ghost predicate Inv(s: State) {
    ArmInv(s) && ListInv(s) && CountInv(s) && RefInv(s) && SignalInv(s)
  }

  // Facts about the remaining log.

  lemma {:induction false} RemainingMember(log: seq<Fence>, removed: set<Fence>, f: Fence)
    ensures f in Remaining(log, removed) <==> f in log && f !in removed
  {
    if log == [] {
    } else {
      RemainingMember(log[..|log| - 1], removed, f);
      assert log == log[..|log| - 1] + [log[|log| - 1]];
    }
  }

  lemma {:induction false} RemainingUnchanged(log: seq<Fence>, removed: set<Fence>, f: Fence)
    requires f !in log
    ensures Remaining(log, removed + {f}) == Remaining(log, removed)
  {
    if log == [] {
    } else {
      RemainingUnchanged(log[..|log| - 1], removed, f);
    }
  }

  /** Removing one more fence takes exactly its one occurrence out of the remaining log. */
  lemma {:induction false} RemainingWithout(log: seq<Fence>, removed: set<Fence>, i: nat)
    requires Distinct(log) && i < |Remaining(log, removed)|
    ensures var r := Remaining(log, removed);
            Remaining(log, removed + {r[i]}) == r[..i] + r[i + 1..]
  {
    var r := Remaining(log, removed);
    var front, last := log[..|log| - 1], log[|log| - 1];
    var rest := Remaining(front, removed);
    if i < |rest| {
      RemainingWithout(front, removed, i);
      RemainingMember(front, removed, rest[i]);
      assert rest[i] in front;
      if last !in removed {
        assert r == rest + [last];
        assert rest[i] != last;
        assert r[..i] + r[i + 1..] == (rest[..i] + rest[i + 1..]) + [last];
      }
    } else {
      assert r == rest + [last];
      assert last !in front;
      RemainingUnchanged(front, removed, last);
      assert r[..i] + r[i + 1..] == rest;
    }
  }

  // Every action keeps every part of the invariant. The proofs go actor by actor.

  predicate ByHolder(a: Action) {
    a.Create? || a.Get? || a.Put? || a.Report? || a.Poll?
  }

  predicate ByArmer(a: Action) {
    a.BeginArm? || a.EnterLock? || a.Link? || a.CountAndUnlock?
  }

  predicate ByThread(a: Action) {
    !ByHolder(a) && !ByArmer(a)
  }

  lemma ArmStep(s: State, a: Action)
    requires ArmInv(s) && Enabled(s, a)
    ensures ArmInv(Step(s, a))
  {
    if ByHolder(a) {
    } else if ByArmer(a) {
      ArmStepArmer(s, a);
    } else {
      ArmStepThread(s, a);
    }
  }

  lemma ArmStepArmer(s: State, a: Action)
    requires ArmInv(s) && Enabled(s, a) && ByArmer(a)
    ensures ArmInv(Step(s, a))
  {
  }

  lemma ArmStepThread(s: State, a: Action)
    requires ArmInv(s) && Enabled(s, a) && ByThread(a)
    ensures ArmInv(Step(s, a))
  {
  }

  lemma PartitionSwap(log: seq<Fence>, removed: set<Fence>, p: seq<Fence>, q: seq<Fence>)
    requires Partition(log, removed, p, q)
    ensures Partition(log, removed, q, p)
    ensures Partition(log, removed, q + p, [])
    ensures Partition(log, removed, [], p + q)
  {
    var x, y := p + q, q + p;
    assert forall i :: 0 <= i < |y| ==> y[i] == x[if i < |q| then |p| + i else i - |q|];
    forall i, j | 0 <= i < j < |y| ensures y[i] != y[j] {
    }
    assert q + p + [] == y && [] + (p + q) == x;
  }

  lemma PartitionLink(log: seq<Fence>, removed: set<Fence>, p: seq<Fence>, q: seq<Fence>, f: Fence)
    requires Partition(log, removed, p, q) && f !in log
    ensures Partition(log + [f], removed, p, q + [f])
  {
    assert p + (q + [f]) == (p + q) + [f];
    forall g | g in p + q ensures g != f {
      assert g in p || g in q;
    }
  }

  lemma WithoutAt(x: seq<Fence>, i: nat)
    requires Distinct(x) && i < |x|
    ensures Distinct(x[..i] + x[i + 1..])
    ensures forall f :: f in x[..i] + x[i + 1..] <==> f in x && f != x[i]
  {
    var y := x[..i] + x[i + 1..];
    forall k | 0 <= k < |y| ensures y[k] == x[if k < i then k else k + 1] {
    }
    forall f | f in x && f != x[i] ensures f in y {
      var k :| 0 <= k < |x| && x[k] == f;
      assert y[if k < i then k else k - 1] == f;
    }
  }

  lemma CutFront(p: seq<Fence>, q: seq<Fence>, i: nat)
    requires i < |p|
    ensures (p + q)[..i] + (p + q)[i + 1..] == p[..i] + p[i + 1..] + q
  {
    assert (p + q)[..i] == p[..i];
    assert (p + q)[i + 1..] == p[i + 1..] + q;
  }

  lemma PartitionUnlink(log: seq<Fence>, removed: set<Fence>, p: seq<Fence>, q: seq<Fence>, i: nat)
    requires Partition(log, removed, p, q) && i < |p|
    ensures Partition(log, removed + {p[i]}, p[..i] + p[i + 1..], q)
    ensures forall f :: f in p[..i] + p[i + 1..] <==> f in p && f != p[i]
    ensures p[i] !in q
  {
    var x := p + q;
    assert forall k :: 0 <= k < |p| ==> x[k] == p[k];
    assert forall k :: 0 <= k < |q| ==> x[|p| + k] == q[k];
    WithoutAt(x, i);
    WithoutAt(p, i);
    CutFront(p, q, i);
  }

  lemma ListStep(s: State, a: Action)
    requires ListInv(s) && Enabled(s, a) && (a.Link? ==> s.lock.fence !in s.log)
    ensures ListInv(Step(s, a))
  {
    hide Partition;
    var p, q := s.processList, s.fenceList;
    if a.Link? {
      PartitionLink(s.log, s.removed, p, q, s.lock.fence);
    } else if a.ScanStep? {
      PartitionUnlink(s.log, s.removed, p, q, s.pc.i);
    } else if a.DoSpliceIn? || a.DoSpliceBack? {
      PartitionSwap(s.log, s.removed, p, q);
    }
  }

  lemma CountStep(s: State, a: Action)
    requires CountInv(s) && Enabled(s, a)
    ensures CountInv(Step(s, a))
  {
  }

  lemma RefStepHolder(s: State, a: Action)
    requires RefInv(s) && Enabled(s, a) && ByHolder(a)
    ensures RefInv(Step(s, a))
  {
    var t := Step(s, a);
    HolderTracksNothing(s, a);
    hide Tracked;
  }

  lemma HolderTracksNothing(s: State, a: Action)
    requires Enabled(s, a) && ByHolder(a)
    ensures forall f :: Tracked(Step(s, a), f) <==> Tracked(s, f)
  {
  }

  lemma RefStepArmer(s: State, a: Action)
    requires ArmInv(s) && ListInv(s) && RefInv(s) && Enabled(s, a) && ByArmer(a)
    ensures RefInv(Step(s, a))
  {
    if a.EnterLock? && a.f !in s.reported {
      RefStepEnter(s, a.f);
    } else {
      RefStepSameArmer(s, a);
    }
  }

  lemma RefStepEnter(s: State, f: Fence)
    requires ArmInv(s) && ListInv(s) && RefInv(s) && Enabled(s, EnterLock(f)) && f !in s.reported
    ensures RefInv(Step(s, EnterLock(f)))
  {
    var t := Step(s, EnterLock(f));
    assert !Tracked(s, f) && Tracked(t, f);
    forall g | g != f ensures Tracked(t, g) <==> Tracked(s, g) {
    }
  }

  /** Where no counter moves and what is tracked stays the same, there is nothing to show. */
  lemma SameTracked(s: State, t: State)
    requires RefInv(s) && t.refs == s.refs && t.external == s.external && t.freed == s.freed && t.removed == s.removed
    requires forall f :: Tracked(t, f) <==> Tracked(s, f)
    ensures RefInv(t)
  {
  }

  lemma RefStepSameArmer(s: State, a: Action)
    requires ArmInv(s) && RefInv(s) && Enabled(s, a) && ByArmer(a) && (a.EnterLock? ==> a.f in s.reported)
    ensures RefInv(Step(s, a))
  {
    hide RefInv;
    var t := Step(s, a);
    forall f ensures Tracked(t, f) <==> Tracked(s, f) {
    }
    SameTracked(s, t);
  }

  lemma RefStepSameThread(s: State, a: Action)
    requires RefInv(s) && Enabled(s, a) && ByThread(a) && !a.ScanStep? && !a.PutFence?
    ensures RefInv(Step(s, a))
  {
    hide RefInv;
    var t := Step(s, a);
    forall f ensures Tracked(t, f) <==> Tracked(s, f) {
    }
    SameTracked(s, t);
  }

  lemma RefStepScan(s: State)
    requires ListInv(s) && RefInv(s) && Enabled(s, ScanStep)
    ensures RefInv(Step(s, ScanStep))
  {
    var t := Step(s, ScanStep);
    PartitionUnlink(s.log, s.removed, s.processList, s.fenceList, s.pc.i);
    forall f ensures Tracked(t, f) <==> Tracked(s, f) {
    }
  }

  lemma RefStepThread(s: State, a: Action)
    requires ArmInv(s) && ListInv(s) && RefInv(s) && Enabled(s, a) && ByThread(a)
    ensures RefInv(Step(s, a))
  {
    if a.PutFence? {
      RefStepPut(s);
    } else if a.ScanStep? {
      RefStepScan(s);
    } else {
      RefStepSameThread(s, a);
    }
  }

  lemma RefStepPut(s: State)
    requires ArmInv(s) && ListInv(s) && RefInv(s) && Enabled(s, PutFence)
    ensures RefInv(Step(s, PutFence))
  {
    var t, f := Step(s, PutFence), s.pc.fence;
    assert f in s.removed && Tracked(s, f) && !Tracked(t, f);
    forall g | g != f ensures Tracked(t, g) <==> Tracked(s, g) {
    }
  }

  lemma SignalStep(s: State, a: Action)
    requires ListInv(s) && SignalInv(s) && Enabled(s, a)
    ensures SignalInv(Step(s, a))
  {
  }

  lemma OrderStep(s: State, a: Action)
    requires ArmInv(s) && ListInv(s) && OrderInv(s) && Enabled(s, a)
    ensures OrderInv(Step(s, a))
  {
    if ByThread(a) {
      OrderStepThread(s, a);
    } else if a.Link? {
      var t := Step(s, a);
      assert t.log[..|t.log| - 1] == s.log;
      assert t.processList + t.fenceList == (s.processList + s.fenceList) + [s.lock.fence];
      assert s.lock.fence !in s.removed;
    }
  }

  lemma OrderStepThread(s: State, a: Action)
    requires ListInv(s) && OrderInv(s) && Enabled(s, a) && ByThread(a)
    ensures OrderInv(Step(s, a))
  {
    if a.ScanStep? {
      OrderStepScan(s);
    } else if a.DoSpliceIn? || a.DoSpliceBack? {
      var t := Step(s, a);
      assert t.processList + t.fenceList == s.processList + s.fenceList;
    }
  }

  lemma OrderStepScan(s: State)
    requires Distinct(s.log) && OrderInv(s) && Enabled(s, ScanStep)
    ensures OrderInv(Step(s, ScanStep))
  {
    var i, p := s.pc.i, s.processList;
    if p[i] in s.reported {
      CutFront(p, s.fenceList, i);
      assert (p + s.fenceList)[i] == p[i];
      RemainingWithout(s.log, s.removed, i);
    }
  }

  lemma InvStep(s: State, a: Action)
    requires Inv(s)
    ensures Inv(Next(s, a)) && Next(s, a).canFreeze == s.canFreeze
    ensures OrderInv(s) ==> OrderInv(Next(s, a))
  {
    if Enabled(s, a) {
      ArmStep(s, a);
      ListStep(s, a);
      CountStep(s, a);
      if ByHolder(a) {
        RefStepHolder(s, a);
      } else if ByArmer(a) {
        RefStepArmer(s, a);
      } else {
        RefStepThread(s, a);
      }
      SignalStep(s, a);
      if s.canFreeze && OrderInv(s) { OrderStep(s, a); }
    }
  }

  // What holds after every sequence of actions.

  lemma {:induction false} RunKeeps(s: State, actions: seq<Action>)
    requires Inv(s)
    ensures var t := Run(s, actions);
            Inv(t) && t.canFreeze == s.canFreeze && (OrderInv(s) ==> OrderInv(t))
    decreases |actions|
  {
    hide Next, Inv, OrderInv;
    if actions == [] {
    } else {
      InvStep(s, actions[0]);
      RunKeeps(Next(s, actions[0]), actions[1..]);
    }
  }

  lemma Reachable(canFreeze: bool, actions: seq<Action>)
    ensures var s := Run(Init(canFreeze), actions);
            Inv(s) && s.canFreeze == canFreeze && (canFreeze ==> OrderInv(s))
  {
    RunKeeps(Init(canFreeze), actions);
  }

  /** Each armed fence is in exactly one of the two lists and the removed fences, and once. */
  lemma NothingLostOrDuplicated(canFreeze: bool, actions: seq<Action>)
    ensures var s := Run(Init(canFreeze), actions);
            && (forall f :: f in s.log <==> f in s.fenceList || f in s.processList || f in s.removed)
            && (forall f :: f in s.removed ==> f !in s.fenceList && f !in s.processList)
            && Distinct(s.processList + s.fenceList)
  {
    Reachable(canFreeze, actions);
  }

  /** The counter is never negative, and outside the two windows it is the length of the lists. */
  lemma CountIsListLength(canFreeze: bool, actions: seq<Action>)
    ensures var s := Run(Init(canFreeze), actions);
            && 0 <= s.fenceCount
            && (s.lock.Free? && !s.pc.Unlinked? ==> s.fenceCount == |s.fenceList| + |s.processList|)
  {
    Reachable(canFreeze, actions);
    var s := Run(Init(canFreeze), actions);
    if s.lock.Held? && s.lock.linked {
      assert s.lock.fence in s.fenceList;
    }
  }

  /** The lists own exactly one reference of each member, so no fence in a list is ever freed. */
  lemma ListsHoldOneReference(canFreeze: bool, actions: seq<Action>)
    ensures var s := Run(Init(canFreeze), actions);
            && (forall f :: f in s.fenceList || f in s.processList ==>
                  f in s.refs && f in s.external && s.refs[f] == s.external[f] + 1 && f !in s.freed)
            && (s.lock.Free? && !Retiring(s.pc) ==>
                  forall f :: f in s.removed ==>
                    f in s.refs && f in s.external && s.refs[f] == s.external[f])
  {
    Reachable(canFreeze, actions);
  }

  lemma {:induction false} EverReported(s: State, actions: seq<Action>, f: Fence)
    requires f in Run(s, actions).everReported && f !in s.everReported
    ensures exists k :: 0 <= k < |actions| && actions[k].Report? && f in actions[k].back
    decreases |actions|
  {
    var a, rest := actions[0], actions[1..];
    if f in Next(s, a).everReported {
      assert actions[0].Report? && f in actions[0].back;
    } else {
      EverReported(Next(s, a), rest, f);
      var k :| 0 <= k < |rest| && rest[k].Report? && f in rest[k].back;
      assert actions[k + 1] == rest[k];
    }
  }

  /** A fence is retired or signalled only if the hardware reported it back at some time. */
  lemma OnlyReportedFencesSignal(canFreeze: bool, actions: seq<Action>, f: Fence)
    requires var s := Run(Init(canFreeze), actions); f in s.signalled || f in s.removed
    ensures exists k :: 0 <= k < |actions| && actions[k].Report? && f in actions[k].back
  {
    Reachable(canFreeze, actions);
    EverReported(Init(canFreeze), actions, f);
  }

  /** The event thread never drops a fence without signalling it. */
  lemma RetiredFencesAreSignalled(canFreeze: bool, actions: seq<Action>)
    ensures var s := Run(Init(canFreeze), actions);
            && (!s.pc.Unlinked? && !s.pc.Uncounted? ==> s.removed <= s.signalled)
            && (forall f :: f in s.log && f !in s.signalled ==>
                  || f in s.fenceList || f in s.processList
                  || ((s.pc.Unlinked? || s.pc.Uncounted?) && s.pc.fence == f))
  {
    Reachable(canFreeze, actions);
  }

  /** With the freezing protocol on, the two lists are the arming log without the removed fences. */
  lemma ListsKeepArmingOrder(actions: seq<Action>)
    ensures var s := Run(Init(true), actions);
            && s.processList + s.fenceList == Remaining(s.log, s.removed)
            && (s.pc.Waiting? || s.pc.Stopped? ==> s.processList == [])
  {
    Reachable(true, actions);
  }

  lemma {:induction false} RemainingInOrder(log: seq<Fence>, removed: set<Fence>, i: nat, j: nat) returns (k: nat, l: nat)
    requires i < j < |Remaining(log, removed)|
    ensures k < l < |log| && log[k] == Remaining(log, removed)[i] && log[l] == Remaining(log, removed)[j]
  {
    var n := |log| - 1;
    var rest := Remaining(log[..n], removed);
    if j < |rest| {
      k, l := RemainingInOrder(log[..n], removed, i, j);
    } else {
      RemainingMember(log[..n], removed, rest[i]);
      k :| 0 <= k < n && log[..n][k] == rest[i];
      l := n;
    }
  }

  /** So a fence that is in front of another one in the lists has been armed before it. */
  lemma ArmedBefore(actions: seq<Action>, i: nat, j: nat) returns (k: nat, l: nat)
    requires var s := Run(Init(true), actions); i < j < |s.processList + s.fenceList|
    ensures var s := Run(Init(true), actions);
            k < l < |s.log| && s.log[k] == (s.processList + s.fenceList)[i] && s.log[l] == (s.processList + s.fenceList)[j]
  {
    ListsKeepArmingOrder(actions);
    var s := Run(Init(true), actions);
    k, l := RemainingInOrder(s.log, s.removed, i, j);
  }

  /** A splice into the process list keeps the arming order exactly if one of the lists is empty. */
  lemma SpliceKeepsOrderIff(s: State)
    requires Inv(s) && Enabled(s, DoSpliceIn)
    requires s.processList + s.fenceList == Remaining(s.log, s.removed)
    ensures var t := Step(s, DoSpliceIn);
            t.processList + t.fenceList == Remaining(t.log, t.removed)
            <==> s.processList == [] || s.fenceList == []
  {
    var p, q := s.processList, s.fenceList;
    assert q + p + [] == q + p;
    if p == [] || q == [] {
      assert q + p == p + q;
    } else {
      assert (p + q)[0] == p[0] && (q + p)[0] == q[0] == (p + q)[|p|];
    }
  }

  lemma RunNothing(s: State)
    ensures Run(s, []) == s
  {
  }

  lemma {:induction false} RunAppend(s: State, x: seq<Action>, y: seq<Action>)
    ensures Run(s, x + y) == Run(Run(s, x), y)
    decreases |x|
  {
    hide Next;
    if x == [] {
      assert x + y == y;
    } else {
      assert (x + y)[1..] == x[1..] + y;
      RunAppend(Next(s, x[0]), x[1..], y);
    }
  }

  lemma RunFour(s: State, a: Action, b: Action, c: Action, d: Action)
    ensures Run(s, [a, b, c, d]) == Next(Next(Next(Next(s, a), b), c), d)
  {
    hide Next;
    var s1 := Next(s, a);
    var s2 := Next(s1, b);
    var s3 := Next(s2, c);
    assert [a, b, c, d][1..] == [b, c, d] && [b, c, d][1..] == [c, d] && [c, d][1..] == [d];
    assert Run(s, [a, b, c, d]) == Run(s1, [b, c, d]) == Run(s2, [c, d]) == Run(s3, [d]);
    assert Run(s3, [d]) == Run(Next(s3, d), []);
  }

  /** What arming a new fence alone does. */
  function ArmAlone(f: Fence): seq<Action> {
    [Create(f)] + [BeginArm(f), EnterLock(f), Link, CountAndUnlock]
  }

  function Armed(s: State, f: Fence): State {
    s.(refs := s.refs[f := 2], external := s.external[f := 1], enabled := s.enabled + {f},
       fenceList := s.fenceList + [f], log := s.log + [f], fenceCount := s.fenceCount + 1)
  }

  /** Arming a new fence that nobody disturbs and the hardware has not finished links and counts it. */
  lemma ArmAloneLinks(s: State, f: Fence)
    requires f !in s.refs && f !in s.enabled && f !in s.signalled && f !in s.reported
    requires f !in s.waiting && s.lock.Free?
    ensures Run(s, ArmAlone(f)) == Armed(s, f)
  {
    var s1 := s.(refs := s.refs[f := 1], external := s.external[f := 1]);
    var s2 := s1.(enabled := s.enabled + {f}, waiting := s.waiting + {f});
    var s3 := s1.(enabled := s.enabled + {f}, refs := s.refs[f := 2], lock := Held(f, false));
    assert Next(s, Create(f)) == s1 && Next(s1, BeginArm(f)) == s2;
    EnterLockAlone(s2, f);
    assert s2.waiting - {f} == s.waiting && s1.refs[f := 2] == s.refs[f := 2];
    LinkAndCount(s3, f);
    hide Next, Run;
    RunFour(s1, BeginArm(f), EnterLock(f), Link, CountAndUnlock);
    RunOne(s, Create(f), [BeginArm(f), EnterLock(f), Link, CountAndUnlock]);
  }

  lemma EnterLockAlone(s: State, f: Fence)
    requires f in s.waiting && s.lock.Free? && f in s.refs && s.refs[f] == 1 && f !in s.reported
    ensures Next(s, EnterLock(f)) == s.(waiting := s.waiting - {f}, refs := s.refs[f := 2], lock := Held(f, false))
  {
  }

  lemma LinkAndCount(s: State, f: Fence)
    requires s.lock == Held(f, false)
    ensures Next(Next(s, Link), CountAndUnlock)
            == s.(fenceList := s.fenceList + [f], log := s.log + [f], fenceCount := s.fenceCount + 1, lock := Free)
  {
  }

  lemma RunOne(s: State, a: Action, rest: seq<Action>)
    ensures Run(s, [a] + rest) == Run(Next(s, a), rest)
  {
    hide Next;
    assert ([a] + rest)[1..] == rest;
  }

  /** A pass over one fence that is not back, without the freezing protocol. */
  lemma PassKeepsFence(s: State, f: Fence)
    requires !s.canFreeze && s.lock.Free? && s.pc.Waiting? && f !in s.reported
    requires s.fenceList == [f] && s.processList == []
    ensures Run(s, [Wake, DoSpliceIn, ScanStep, EndScan(false, false)])
            == s.(fenceList := [], processList := [f])
  {
    var s2 := s.(pc := Scan(0), fenceList := [], processList := [f]);
    WakeAndSplice(s);
    assert s.fenceList + s.processList == [f];
    ScanKeeps(s2, f);
    EndScanWaits(s2.(pc := Scan(1)));
    hide Next, Run;
    RunFour(s, Wake, DoSpliceIn, ScanStep, EndScan(false, false));
  }

  lemma WakeAndSplice(s: State)
    requires s.pc.Waiting? && s.lock.Free?
    ensures Next(Next(s, Wake), DoSpliceIn)
            == s.(processList := s.fenceList + s.processList, fenceList := [], pc := Scan(0))
  {
  }

  lemma ScanKeeps(s: State, f: Fence)
    requires s.pc == Scan(0) && s.processList == [f] && f !in s.reported
    ensures Next(s, ScanStep) == s.(pc := Scan(1))
  {
  }

  lemma EndScanWaits(s: State)
    requires !s.canFreeze && s.pc == Scan(|s.processList|)
    ensures Next(s, EndScan(false, false)) == s.(pc := Waiting)
  {
  }

  /** Without the freezing protocol the order can be lost: the second pass splices in front. */
  lemma OrderLostWithoutFreezing(f: Fence, g: Fence)
    requires f != g
    ensures exists actions :: var s := Run(Init(false), actions);
              && s.log == [f, g] && s.removed == {} && s.fenceList == []
              && s.processList == [g, f]
  {
    hide Step, Enabled, Next, Run;
    var pass := [Wake, DoSpliceIn, ScanStep, EndScan(false, false)];
    var s0 := Init(false);
    var s1 := Armed(s0, f);
    var s2 := s1.(fenceList := [], processList := [f]);
    ArmAloneLinks(s0, f);
    PassKeepsFence(s1, f);
    ArmAloneLinks(s2, g);
    RunAppend(s0, ArmAlone(f), pass);
    RunAppend(s0, ArmAlone(f) + pass, ArmAlone(g));
    var actions := ArmAlone(f) + pass + ArmAlone(g);
    assert Run(s0, actions) == Armed(s2, g);
    SecondSplice(s0, actions);
    assert [g] + [f] == [g, f];
  }

  lemma SecondSplice(s: State, actions: seq<Action>)
    requires var t := Run(s, actions); t.pc.Waiting? && t.lock.Free?
    ensures var t := Run(s, actions);
            Run(s, actions + [Wake] + [DoSpliceIn])
            == t.(processList := t.fenceList + t.processList, fenceList := [], pc := Scan(0))
  {
    var t := Run(s, actions);
    RunAppend(s, actions + [Wake], [DoSpliceIn]);
    RunAppend(s, actions, [Wake]);
    RunOne(t, Wake, []);
    RunOne(Next(t, Wake), DoSpliceIn, []);
    WakeAndSplice(t);
    assert [Wake] + [] == [Wake] && [DoSpliceIn] + [] == [DoSpliceIn];
    hide Next;
  }
}
