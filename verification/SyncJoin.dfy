/** The synchronisation object: a count-down join over several component fences.

  One thread arms the object by adding a callback to every component. The callbacks of the
  components armed earlier can fire while that loop is still running, and each of them is
  several steps itself. A run is any sequence of actions; an action that is not enabled has
  no effect, so what is proved for every sequence holds in every interleaving.

  The Linux fence core is a contract: adding a callback fails exactly if the component is
  already signalled, signalling runs each callback once, and the lock of the object is held
  from the start of the arming loop until its outcome has been recorded.
*/
module SyncJoin {

  /** What has become of the callback on one component. */
  datatype Callback =
    | NotAdded   // the arming loop has not got here
    | Added      // in the callback list of the component
    | Refused    // the component was signalled already; the loop has not counted that yet
    | Skipped    // and now it has
    | Fired      // the component signals and has taken the callback from its list
    | Hit        // it has counted down to zero and must signal the object
    | Counted    // it has counted down, and signalled if it had to
    | Finished   // it has dropped its reference to the object

  datatype Component = Component(signalled: bool, callback: Callback)

  /** Where the arming thread is; i is the component it works on. */
  datatype ArmPc =
    | GetRef(i: nat)
    | AddCallback(i: nat)
    | DropRef(i: nat)
    | CountDown(i: nat)
    | ReturnTrue
    | ReturnFalse(last: nat)
    | Installed   // the callback of the creator is in the list of the object
    | TooLate     // the object signalled instead, the creator must drop it
    | Dropped     // and has done so: creation answers null

  datatype State = State(
    comps: seq<Component>,
    pending: int,
    arm: ArmPc,
    refs: int,            // the reference counter of the object
    creator: bool,        // the creator still has its reference
    external: nat,        // references of anybody else, except the callbacks
    signalled: bool,      // the object
    userRuns: nat,        // how often the callback of the creator has run
    zeroHits: nat,        // how often a count-down has reached zero
    releases: nat)        // how often the references to the components were dropped

  datatype Action =
    | Signal(k: nat)
    | CallbackCount(k: nat)
    | CallbackSignal(k: nat)
    | CallbackPut(k: nat)
    | Arm
    | Poll
    | Get
    | Put
    | Drop

  /** A new object; done says which components are signalled already. */
  function Init(done: seq<bool>): State {
    State(Fresh(done), |done|, GetRef(0), 1, true, 0, false, 0, 0, 0)
  }

  function Fresh(done: seq<bool>): seq<Component> {
    seq(|done|, k requires 0 <= k < |done| => Component(done[k], NotAdded))
  }

  /** The arming thread holds the lock of the object. */
  predicate Locked(s: State) {
    !s.arm.Installed? && !s.arm.TooLate? && !s.arm.Dropped?
  }

  /** Somebody outside may use the object. */
  predicate Shared(s: State) {
    s.external > 0 || (s.creator && s.arm.Installed?)
  }

  predicate Enabled(s: State, a: Action) {
    match a
    case Signal(k) => k < |s.comps| && !s.comps[k].signalled
    case CallbackCount(k) => k < |s.comps| && s.comps[k].callback.Fired?
    case CallbackSignal(k) => k < |s.comps| && s.comps[k].callback.Hit? && !Locked(s)
    case CallbackPut(k) => k < |s.comps| && s.comps[k].callback.Counted?
    case Arm => Locked(s) || s.arm.TooLate?
    case Poll => Shared(s) && s.pending <= 0 && !Locked(s)
    case Get => Shared(s)
    case Put => s.external > 0
    case Drop => s.creator && s.arm.Installed?
  }

  function SetCallback(s: State, k: nat, c: Callback): State
    requires k < |s.comps|
  {
    s.(comps := s.comps[k := s.comps[k].(callback := c)])
  }

  /** Signalling the object: the first time it runs the callback of the creator, if installed. */
  function SignalObject(s: State): State {
    if s.signalled then s
    else s.(signalled := true, userRuns := s.userRuns + if s.arm.Installed? then 1 else 0)
  }

  /** Dropping a reference of the object; the last one releases the components. */
  function PutObject(s: State): State {
    s.(refs := s.refs - 1, releases := s.releases + if s.refs == 1 then 1 else 0)
  }

  function StepArm(s: State): State {
    match s.arm
    case GetRef(i) =>
      if i < |s.comps| then s.(refs := s.refs + 1, arm := AddCallback(i))
      else s.(arm := ReturnTrue)
    case AddCallback(i) =>
      if i < |s.comps| then
        if s.comps[i].signalled then SetCallback(s, i, Refused).(arm := DropRef(i))
        else SetCallback(s, i, Added).(arm := GetRef(i + 1))
      else s
    case DropRef(i) => PutObject(s).(arm := CountDown(i))
    case CountDown(i) =>
      if i < |s.comps| then
        var s := SetCallback(s, i, Skipped).(pending := s.pending - 1);
        if s.pending == 0 then s.(zeroHits := s.zeroHits + 1, arm := ReturnFalse(i))
        else s.(arm := GetRef(i + 1))
      else s
    // the core adds the callback of the creator, or signals the object
    case ReturnTrue => s.(arm := Installed)
    case ReturnFalse(_) => SignalObject(s).(arm := TooLate)
    case TooLate => PutObject(s).(creator := false, arm := Dropped)
    case _ => s
  }

  function Step(s: State, a: Action): State
    requires Enabled(s, a)
  {
    match a
    case Signal(k) =>
      var c := if s.comps[k].callback.Added? then Fired else s.comps[k].callback;
      s.(comps := s.comps[k := Component(true, c)])
    case CallbackCount(k) =>
      if s.pending - 1 == 0 then
        SetCallback(s, k, Hit).(pending := s.pending - 1, zeroHits := s.zeroHits + 1)
      else
        SetCallback(s, k, Counted).(pending := s.pending - 1)
    case CallbackSignal(k) => SignalObject(SetCallback(s, k, Counted))
    case CallbackPut(k) => PutObject(SetCallback(s, k, Finished))
    case Arm => StepArm(s)
    // anyone who asks whether the object is signalled makes the core signal it
    case Poll => SignalObject(s)
    case Get => s.(refs := s.refs + 1, external := s.external + 1)
    case Put => PutObject(s).(external := s.external - 1)
    case Drop => PutObject(s).(creator := false)
  }

  function Next(s: State, a: Action): State {
    if Enabled(s, a) then Step(s, a) else s
  }

  function Run(s: State, actions: seq<Action>): State
    decreases |actions|
  {
    if actions == [] then s else Run(Next(s, actions[0]), actions[1..])
  }

  // The invariant.

  predicate Accounted(c: Callback) {
    c.Skipped? || c.Hit? || c.Counted? || c.Finished?
  }

  /** The components that num_pending still waits for. */
  function Open(s: State): set<nat> {
    set k: nat | k < |s.comps| && !Accounted(s.comps[k].callback)
  }

  predicate HoldsRef(s: State, k: nat)
    requires k < |s.comps|
  {
    || s.comps[k].callback.Added? || s.comps[k].callback.Fired?
    || s.comps[k].callback.Hit? || s.comps[k].callback.Counted?
    || s.arm == AddCallback(k) || s.arm == DropRef(k)
  }

  /** The components whose callback, or whose turn in the arming loop, owns a reference. */
  function Holders(s: State): set<nat> {
    set k: nat | k < |s.comps| && HoldsRef(s, k)
  }

  /** How far the arming loop has come: the component it has not finished yet. */
  function Reached(s: State): nat {
    match s.arm
    case GetRef(i) => i
    case AddCallback(i) => i
    case DropRef(i) => i
    case CountDown(i) => i
    case _ => |s.comps|
  }

  ghost predicate CallbackInv(s: State) {
    && Reached(s) <= |s.comps|
    && (s.arm.AddCallback? || s.arm.DropRef? || s.arm.CountDown? ==> Reached(s) < |s.comps|)
    && (forall k :: 0 <= k < |s.comps| ==>
          && (k < Reached(s) ==> !s.comps[k].callback.NotAdded? && !s.comps[k].callback.Refused?)
          && (k == Reached(s) ==>
                s.comps[k].callback
                == if s.arm.DropRef? || s.arm.CountDown? then Refused else NotAdded)
          && (k > Reached(s) ==> s.comps[k].callback.NotAdded?)
          && (s.comps[k].callback.Added? ==> !s.comps[k].signalled)
          && (!s.comps[k].callback.Added? && !s.comps[k].callback.NotAdded? ==> s.comps[k].signalled))
  }

  ghost predicate CountInv(s: State) {
    && s.pending == |Open(s)|
    && s.zeroHits == (if s.pending == 0 then 1 else 0)
    && (s.arm.ReturnFalse? ==> s.pending == 0 && s.arm.last == |s.comps| - 1)
  }

  ghost predicate RefInv(s: State) {
    && s.refs == (if s.creator then 1 else 0) + s.external + |Holders(s)|
    && s.releases == (if s.refs == 0 then 1 else 0)
    && (Locked(s) || s.arm.TooLate? ==> s.creator && s.external == 0)
    && (s.arm.Dropped? ==> !s.creator && s.external == 0)
  }

  ghost predicate SignalInv(s: State) {
    && (s.signalled ==> s.pending == 0 && !Locked(s))
    && (s.arm.TooLate? || s.arm.Dropped? ==> s.signalled && s.pending == 0)
    && (s.pending == 0 && !s.signalled ==>
          s.arm.ReturnFalse? || exists k :: 0 <= k < |s.comps| && s.comps[k].callback.Hit?)
    && (forall k :: 0 <= k < |s.comps| && s.comps[k].callback.Hit? ==> s.pending == 0)
    && s.userRuns == (if s.arm.Installed? && s.signalled then 1 else 0)
  }

  ghost predicate Inv(s: State) {
    |s.comps| > 0 && CallbackInv(s) && CountInv(s) && RefInv(s) && SignalInv(s)
  }

  // Every action keeps the invariant.

  /** The components the arming loop has not finished are all open. */
  lemma UnreachedAreOpen(s: State)
    requires CallbackInv(s)
    ensures forall k :: Reached(s) <= k < |s.comps| ==> k in Open(s)
  {
  }

  lemma PairCard(x: set<nat>, i: nat, j: nat)
    requires i in x && j in x && i != j
    ensures |x| >= 2
  {
    assert {i, j} <= x;
    assert |x| == |x - {i, j}| + |{i, j}|;
  }

  /** While the loop has another component to come, the count cannot reach zero. */
  lemma ZeroOnlyAtLast(s: State, i: nat)
    requires CallbackInv(s) && CountInv(s) && s.arm == CountDown(i) && s.pending == 1
    ensures i == |s.comps| - 1
  {
    UnreachedAreOpen(s);
    if i != |s.comps| - 1 {
      PairCard(Open(s), i, |s.comps| - 1);
    }
  }

  predicate ByComponent(a: Action) {
    a.Signal? || a.CallbackCount? || a.CallbackSignal? || a.CallbackPut?
  }

  lemma CallbackStep(s: State, a: Action)
    requires CallbackInv(s) && CountInv(s) && Enabled(s, a)
    ensures CallbackInv(Step(s, a)) && |Step(s, a).comps| == |s.comps|
  {
    if a.Arm? {
      CallbackStepArm(s);
    } else if ByComponent(a) {
      CallbackStepComponent(s, a);
    }
  }

  lemma CallbackStepArm(s: State)
    requires CallbackInv(s) && CountInv(s) && Enabled(s, Arm)
    ensures CallbackInv(Step(s, Arm)) && |Step(s, Arm).comps| == |s.comps|
  {
    hide CountInv;
    if s.arm.CountDown? && s.pending == 1 { ZeroOnlyAtLast(s, s.arm.i); }
  }

  lemma CallbackStepComponent(s: State, a: Action)
    requires CallbackInv(s) && Enabled(s, a) && ByComponent(a)
    ensures CallbackInv(Step(s, a)) && |Step(s, a).comps| == |s.comps|
  {
    var t := Step(s, a);
    assert forall j :: 0 <= j < |s.comps| && j != a.k ==> t.comps[j] == s.comps[j];
  }

  lemma CloseOne(s: State, t: State, k: nat)
    requires |t.comps| == |s.comps| && k < |s.comps|
    requires !Accounted(s.comps[k].callback) && Accounted(t.comps[k].callback)
    requires forall j :: 0 <= j < |s.comps| && j != k ==> t.comps[j].callback == s.comps[j].callback
    ensures Open(t) == Open(s) - {k} && k in Open(s) && |Open(t)| == |Open(s)| - 1
  {
  }

  lemma SameOpen(s: State, t: State)
    requires |t.comps| == |s.comps|
    requires forall j :: 0 <= j < |s.comps| ==>
               (Accounted(t.comps[j].callback) <==> Accounted(s.comps[j].callback))
    ensures Open(t) == Open(s)
  {
  }

  lemma CountStep(s: State, a: Action)
    requires CallbackInv(s) && CountInv(s) && Enabled(s, a)
    ensures CountInv(Step(s, a))
  {
    hide Open;
    var t := Step(s, a);
    if a.CallbackCount? {
      CloseOne(s, t, a.k);
    } else if a.Arm? {
      CountStepArm(s);
    } else {
      SameOpen(s, t);
    }
  }

  lemma CountStepArm(s: State)
    requires CallbackInv(s) && CountInv(s) && Enabled(s, Arm)
    ensures CountInv(Step(s, Arm))
  {
    hide Open;
    if s.arm.CountDown? {
      CountStepDown(s);
    } else {
      SameOpen(s, Step(s, Arm));
    }
  }

  lemma CountStepDown(s: State)
    requires CallbackInv(s) && CountInv(s) && Enabled(s, Arm) && s.arm.CountDown?
    ensures CountInv(Step(s, Arm))
  {
    hide Open;
    CloseOne(s, Step(s, Arm), s.arm.i);
    if s.pending == 1 { ZeroOnlyAtLast(s, s.arm.i); }
  }

  lemma HolderJoins(s: State, t: State, k: nat)
    requires |t.comps| == |s.comps| && k < |s.comps| && !HoldsRef(s, k) && HoldsRef(t, k)
    requires forall j :: 0 <= j < |s.comps| && j != k ==> (HoldsRef(t, j) <==> HoldsRef(s, j))
    ensures |Holders(t)| == |Holders(s)| + 1
  {
    assert Holders(t) == Holders(s) + {k};
  }

  lemma HolderLeaves(s: State, t: State, k: nat)
    requires |t.comps| == |s.comps| && k < |s.comps| && HoldsRef(s, k) && !HoldsRef(t, k)
    requires forall j :: 0 <= j < |s.comps| && j != k ==> (HoldsRef(t, j) <==> HoldsRef(s, j))
    ensures |Holders(t)| == |Holders(s)| - 1
  {
    HolderJoins(t, s, k);
  }

  lemma SameHolders(s: State, t: State)
    requires |t.comps| == |s.comps|
    requires forall j :: 0 <= j < |s.comps| ==> (HoldsRef(t, j) <==> HoldsRef(s, j))
    ensures Holders(t) == Holders(s)
  {
  }

  lemma RefStep(s: State, a: Action)
    requires CallbackInv(s) && RefInv(s) && Enabled(s, a)
    ensures RefInv(Step(s, a))
  {
    hide Holders;
    var t := Step(s, a);
    if a.Arm? {
      RefStepArm(s);
    } else if a.CallbackPut? {
      HolderLeaves(s, t, a.k);
    } else {
      SameHolders(s, t);
    }
  }

  lemma RefStepArm(s: State)
    requires CallbackInv(s) && RefInv(s) && Enabled(s, Arm)
    ensures RefInv(Step(s, Arm))
  {
    hide Holders;
    var t := Step(s, Arm);
    if s.arm.GetRef? && s.arm.i < |s.comps| {
      HolderJoins(s, t, s.arm.i);
    } else if s.arm.DropRef? {
      HolderLeaves(s, t, s.arm.i);
    } else {
      SameHolders(s, t);
    }
  }

  lemma NothingOpenAtZero(s: State, k: nat)
    requires CountInv(s) && s.pending == 0 && k < |s.comps|
    ensures Accounted(s.comps[k].callback)
  {
    assert Open(s) == {};
    assert k !in Open(s);
  }

  lemma SignalStep(s: State, a: Action)
    requires Inv(s) && Enabled(s, a)
    ensures SignalInv(Step(s, a))
  {
    hide Open, Holders, RefInv;
    if s.pending == 0 {
      SignalStepZero(s, a);
    } else {
      var t := Step(s, a);
      if a.CallbackCount? && t.pending == 0 {
        assert t.comps[a.k].callback.Hit?;
      }
    }
  }

  lemma SignalStepZero(s: State, a: Action)
    requires Inv(s) && Enabled(s, a) && s.pending == 0
    ensures SignalInv(Step(s, a))
  {
    hide Open, Holders, RefInv;
    var t := Step(s, a);
    forall k | 0 <= k < |s.comps| ensures Accounted(s.comps[k].callback) {
      NothingOpenAtZero(s, k);
    }
    if !t.signalled && !s.arm.ReturnFalse? {
      var k :| 0 <= k < |s.comps| && s.comps[k].callback.Hit?;
      assert t.comps[k].callback.Hit?;
    }
  }

  lemma InvStep(s: State, a: Action)
    requires Inv(s)
    ensures Inv(Next(s, a)) && |Next(s, a).comps| == |s.comps|
  {
    if Enabled(s, a) {
      hide SignalInv;
      CallbackStep(s, a);
      CountStep(s, a);
      RefStep(s, a);
      SignalStep(s, a);
    }
  }

  lemma {:induction false} AllOpen(s: State)
    requires forall k :: 0 <= k < |s.comps| ==> !Accounted(s.comps[k].callback)
    ensures |Open(s)| == |s.comps|
    decreases |s.comps|
  {
    if |s.comps| == 0 {
    } else {
      var front := s.(comps := s.comps[..|s.comps| - 1]);
      AllOpen(front);
      assert Open(s) == Open(front) + {|s.comps| - 1};
    }
  }

  lemma InvInit(done: seq<bool>)
    requires |done| > 0
    ensures Inv(Init(done))
  {
    AllOpen(Init(done));
    assert Holders(Init(done)) == {};
  }

  lemma {:induction false} RunKeeps(s: State, actions: seq<Action>)
    requires Inv(s)
    ensures Inv(Run(s, actions)) && |Run(s, actions).comps| == |s.comps|
    decreases |actions|
  {
    hide Next, Inv;
    if actions == [] {
    } else {
      InvStep(s, actions[0]);
      RunKeeps(Next(s, actions[0]), actions[1..]);
    }
  }

  lemma {:induction false} RunAppend(s: State, x: seq<Action>, y: seq<Action>)
    ensures Run(s, x + y) == Run(Run(s, x), y)
    decreases |x|
  {
    hide Next;
    if x == [] {
      assert x + y == y;
    } else {
      assert (x + y)[1..] == x[1..] + y;
      RunAppend(Next(s, x[0]), x[1..], y);
    }
  }

  // What holds after every sequence of actions, for any number of components.

  lemma Reachable(done: seq<bool>, actions: seq<Action>)
    requires |done| > 0
    ensures Inv(Run(Init(done), actions)) && |Run(Init(done), actions).comps| == |done|
  {
    InvInit(done);
    RunKeeps(Init(done), actions);
  }

  /** num_pending is the number of components not accounted for, and it reaches zero once. */
  lemma PendingCountsOpen(done: seq<bool>, actions: seq<Action>)
    requires |done| > 0
    ensures var s := Run(Init(done), actions);
            && s.pending == |Open(s)| && 0 <= s.pending
            && s.zeroHits == (if s.pending == 0 then 1 else 0)
  {
    Reachable(done, actions);
  }

  /** The arming loop answers no only at its last component, and then all have signalled. */
  lemma ArmingFailsOnlyAtLast(done: seq<bool>, actions: seq<Action>)
    requires |done| > 0 && Run(Init(done), actions).arm.ReturnFalse?
    ensures var s := Run(Init(done), actions);
            && s.arm.last == |s.comps| - 1 == |done| - 1
            && forall k :: 0 <= k < |s.comps| ==> s.comps[k].signalled
  {
    Reachable(done, actions);
    AllSignalledAtZero(Run(Init(done), actions));
  }

  lemma AllSignalledAtZero(s: State)
    requires Inv(s) && s.pending == 0
    ensures forall k :: 0 <= k < |s.comps| ==> s.comps[k].signalled
  {
    forall k | 0 <= k < |s.comps| ensures s.comps[k].signalled {
      NothingOpenAtZero(s, k);
    }
  }

  /** The object signals only after every component has signalled. */
  lemma SignalsOnlyAfterAll(done: seq<bool>, actions: seq<Action>)
    requires |done| > 0 && Run(Init(done), actions).signalled
    ensures var s := Run(Init(done), actions);
            |s.comps| == |done| && forall k :: 0 <= k < |s.comps| ==> s.comps[k].signalled
  {
    Reachable(done, actions);
    AllSignalledAtZero(Run(Init(done), actions));
  }

  /** No callback is on its way any more. */
  predicate Quiet(s: State) {
    && !Locked(s)
    && forall k :: 0 <= k < |s.comps| ==> !s.comps[k].callback.Fired? && !s.comps[k].callback.Hit?
  }

  /** The signal is not lost: once all components have signalled and run their callbacks. */
  lemma SignalIsNotLost(done: seq<bool>, actions: seq<Action>)
    requires |done| > 0
    requires var s := Run(Init(done), actions);
             Quiet(s) && forall k :: 0 <= k < |s.comps| ==> s.comps[k].signalled
    ensures var s := Run(Init(done), actions);
            s.signalled && (s.arm.Installed? ==> s.userRuns == 1)
  {
    Reachable(done, actions);
    var s := Run(Init(done), actions);
    assert forall k :: 0 <= k < |s.comps| ==> Accounted(s.comps[k].callback);
    assert Open(s) == {};
  }

  /** The callback of the creator runs at most once, exactly if creation did not answer null. */
  lemma CreatorCallbackRunsOnce(done: seq<bool>, actions: seq<Action>)
    requires |done| > 0
    ensures var s := Run(Init(done), actions);
            s.userRuns == (if s.arm.Installed? && s.signalled then 1 else 0)
  {
    Reachable(done, actions);
  }

  /** The object owns one reference to itself for each outstanding callback. */
  lemma SelfReferencesAreCallbacks(done: seq<bool>, actions: seq<Action>)
    requires |done| > 0
    ensures var s := Run(Init(done), actions);
            && s.refs == |Holders(s)| + s.external + (if s.creator then 1 else 0)
            && (!s.arm.AddCallback? && !s.arm.DropRef? ==>
                  Holders(s) == set k: nat | k < |s.comps| && (s.comps[k].callback.Added? || s.comps[k].callback.Fired?
                                                       || s.comps[k].callback.Hit? || s.comps[k].callback.Counted?))
  {
    Reachable(done, actions);
  }

  /** Nothing leaks: once the creation is over, everybody has let go and no callback is outstanding, the
    components have been released. */
  lemma LetGoIsReleased(done: seq<bool>, actions: seq<Action>)
    requires |done| > 0
    requires var s := Run(Init(done), actions);
             && (s.arm.Installed? || s.arm.Dropped?) && !s.creator && s.external == 0
             && forall k :: 0 <= k < |s.comps| ==> s.comps[k].callback.Skipped? || s.comps[k].callback.Finished?
    ensures Run(Init(done), actions).refs == 0 && Run(Init(done), actions).releases == 1
  {
    Reachable(done, actions);
    var s := Run(Init(done), actions);
    assert Holders(s) == {};
  }

  /** No lock-order cycle: a callback that waits for the lock of the object, while its component is
    locked, finds an arming loop that takes no component lock any more. */
  lemma WaitingCallbackFindsLoopDone(done: seq<bool>, actions: seq<Action>, k: nat)
    requires |done| > 0 && k < |Run(Init(done), actions).comps|
    requires Run(Init(done), actions).comps[k].callback.Hit?
    ensures Reached(Run(Init(done), actions)) == |done|
  {
    Reachable(done, actions);
    var s := Run(Init(done), actions);
    UnreachedAreOpen(s);
    assert s.pending == 0 && Open(s) == {};
    assert Reached(s) < |s.comps| ==> Reached(s) in Open(s);
  }

  /** The components are released at most once, and never with a callback outstanding. */
  lemma ReleasedOnceWithoutCallbacks(done: seq<bool>, actions: seq<Action>)
    requires |done| > 0
    ensures var s := Run(Init(done), actions);
            && s.releases <= 1
            && (s.releases == 1 ==>
                  && !Locked(s) && !s.creator && s.external == 0
                  && forall k :: 0 <= k < |s.comps| ==>
                       s.comps[k].callback.Skipped? || s.comps[k].callback.Finished?)
  {
    Reachable(done, actions);
    var s := Run(Init(done), actions);
    if s.releases == 1 {
      assert Holders(s) == {};
      forall k | 0 <= k < |s.comps|
        ensures s.comps[k].callback.Skipped? || s.comps[k].callback.Finished?
      {
        assert k !in Holders(s);
      }
    }
  }
}
