/** Creation, arming and release of synchronisation objects, run without interference.

  References are counted by ownership: a sequence of fences stands for one owned reference
  to each of its elements.
*/
module SyncObjects {
  import opened Basics
  import opened SyncJoin

  datatype FenceRef = FenceRef(id: nat, context: nat, seqno: nat)

  /** What a reservation object holds. */
  datatype Reservation = Reservation(exclusive: Option<FenceRef>, shared: seq<FenceRef>)

  /** The references handed out: everything to a writer, the exclusive fence to a reader. */
  function Handed(r: Reservation, write: bool): seq<FenceRef> {
    (if write then r.shared else []) + if r.exclusive.Some? then [r.exclusive.value] else []
  }

  /** Drops what an earlier call left behind, then collects the fences of the reservation. */
  method ReservationGetFences(r: Reservation, write: bool, left: seq<FenceRef>)
    returns (fences: seq<FenceRef>, dropped: seq<FenceRef>)
    ensures fences == Handed(r, write)
    // a writer gets each shared fence once, and the exclusive one last; a reader gets the exclusive one alone
    ensures write ==> |r.shared| <= |fences| && fences[..|r.shared|] == r.shared
    ensures !write ==> |fences| == if r.exclusive.Some? then 1 else 0
    ensures write ==> |fences| == |r.shared| + if r.exclusive.Some? then 1 else 0
    ensures r.exclusive.Some? ==> fences[|fences| - 1] == r.exclusive.value
    ensures multiset(dropped) == multiset(left)
  {
    var num := |left|;
    dropped := [];
    while num > 0
      invariant 0 <= num <= |left|
      invariant multiset(dropped) == multiset(left[num..])
    {
      num := num - 1;
      assert left[num..] == [left[num]] + left[num + 1..];
      dropped := dropped + [left[num]];
    }
    assert left[0..] == left;
    if write {
      fences := r.shared;
      if r.exclusive.Some? {
        fences := fences + [r.exclusive.value];
      }
    } else {
      fences := if r.exclusive.Some? then [r.exclusive.value] else [];
    }
  }

  /** The position of the first fence with the highest sequence number. */
  ghost predicate IsNewest(fences: seq<FenceRef>, m: int) {
    && 0 <= m < |fences|
    && (forall k :: 0 <= k < |fences| ==> fences[k].seqno <= fences[m].seqno)
    && (forall k :: 0 <= k < m ==> fences[k].seqno < fences[m].seqno)
  }

  lemma OneMore(fences: seq<FenceRef>, i: nat)
    requires i < |fences|
    ensures multiset(fences[..i + 1]) == multiset(fences[..i]) + multiset{fences[i]}
  {
    assert fences[..i + 1] == fences[..i] + [fences[i]];
  }

  lemma NewestOneMore(fences: seq<FenceRef>, i: nat, max: nat)
    requires i < |fences| && IsNewest(fences[..i], max)
    ensures max < i
    ensures IsNewest(fences[..i + 1], if fences[max].seqno < fences[i].seqno then i else max)
  {
  }

  /** Keeps the newest fence and drops the reference to each of the others. */
  method NewestFence(fences: seq<FenceRef>) returns (newest: Option<FenceRef>, dropped: seq<FenceRef>)
    ensures newest.None? <==> fences == []
    ensures newest.None? ==> dropped == []
    ensures newest.Some? ==> multiset(dropped) + multiset{newest.value} == multiset(fences)
    ensures newest.Some? ==> exists m :: && 0 <= m < |fences| && fences[m] == newest.value
                                         && (forall k :: 0 <= k < |fences| ==> fences[k].seqno <= newest.value.seqno)
                                         && (forall k :: 0 <= k < m ==> fences[k].seqno < newest.value.seqno)
  {
    dropped := [];
    if |fences| < 1 {
      return None, dropped;
    }
    var max, i := 0, 1;
    OneMore(fences, 0);
    assert IsNewest(fences[..1], 0);
    hide IsNewest;
    while i < |fences|
      invariant 1 <= i <= |fences| && 0 <= max < i
      invariant IsNewest(fences[..i], max)
      invariant multiset(dropped) + multiset{fences[max]} == multiset(fences[..i])
    {
      OneMore(fences, i);
      NewestOneMore(fences, i, max);
      var loser: FenceRef;
      if fences[max].seqno < fences[i].seqno {
        loser := fences[max];
        max := i;
      } else {
        loser := fences[i];
      }
      dropped := dropped + [loser];
      i := i + 1;
    }
    assert fences[..|fences|] == fences;
    newest := Some(fences[max]);
  }

  /** The fences of other contexts: the object must wait for these. */
  function Foreign(fences: seq<FenceRef>, context: nat): seq<FenceRef> {
    if fences == [] then []
    else (if fences[0].context != context then [fences[0]] else []) + Foreign(fences[1..], context)
  }

  /** The fences of the object's own context, whose order the engine keeps anyway. */
  function Own(fences: seq<FenceRef>, context: nat): seq<FenceRef> {
    if fences == [] then []
    else (if fences[0].context == context then [fences[0]] else []) + Own(fences[1..], context)
  }

  lemma {:induction false} SplitConserves(fences: seq<FenceRef>, context: nat)
    ensures multiset(Own(fences, context)) + multiset(Foreign(fences, context)) == multiset(fences)
  {
    if fences == [] {
    } else {
      SplitConserves(fences[1..], context);
      assert fences == [fences[0]] + fences[1..];
    }
  }

  /** Which fences are foreign and which are own. */
  lemma {:induction false} ForeignAndOwnAre(fences: seq<FenceRef>, context: nat, f: FenceRef)
    ensures f in Foreign(fences, context) <==> f in fences && f.context != context
    ensures f in Own(fences, context) <==> f in fences && f.context == context
  {
    if fences == [] {
    } else {
      ForeignAndOwnAre(fences[1..], context, f);
      assert fences == [fences[0]] + fences[1..];
    }
  }

  /** The foreign ones keep their order. */
  lemma {:induction false} ForeignKeepsOrder(fences: seq<FenceRef>, context: nat, i: nat, j: nat) returns (p: nat, q: nat)
    requires i < j < |Foreign(fences, context)|
    ensures p < q < |fences| && fences[p] == Foreign(fences, context)[i] && fences[q] == Foreign(fences, context)[j]
  {
    if fences[0].context == context {
      p, q := ForeignKeepsOrder(fences[1..], context, i, j);
      p, q := p + 1, q + 1;
    } else if i > 0 {
      p, q := ForeignKeepsOrder(fences[1..], context, i - 1, j - 1);
      p, q := p + 1, q + 1;
    } else {
      ForeignAndOwnAre(fences[1..], context, Foreign(fences[1..], context)[j - 1]);
      var k :| 0 <= k < |fences[1..]| && fences[1..][k] == Foreign(fences[1..], context)[j - 1];
      p, q := 0, k + 1;
    }
  }

  lemma Associate(x: seq<FenceRef>, y: seq<FenceRef>, z: seq<FenceRef>)
    ensures x + (y + z) == (x + y) + z
  {
  }

  lemma {:induction false} ForeignAppend(x: seq<FenceRef>, y: seq<FenceRef>, context: nat)
    ensures Foreign(x + y, context) == Foreign(x, context) + Foreign(y, context)
  {
    if x == [] {
      assert x + y == y;
    } else {
      ForeignAppend(x[1..], y, context);
      Associate(if x[0].context != context then [x[0]] else [], Foreign(x[1..], context), Foreign(y, context));
      assert (x + y)[1..] == x[1..] + y && (x + y)[0] == x[0];
    }
  }

  lemma {:induction false} OwnAppend(x: seq<FenceRef>, y: seq<FenceRef>, context: nat)
    ensures Own(x + y, context) == Own(x, context) + Own(y, context)
  {
    if x == [] {
      assert x + y == y;
    } else {
      OwnAppend(x[1..], y, context);
      Associate(if x[0].context == context then [x[0]] else [], Own(x[1..], context), Own(y, context));
      assert (x + y)[1..] == x[1..] + y && (x + y)[0] == x[0];
    }
  }

  lemma SplitOneMore(fences: seq<FenceRef>, i: nat, context: nat)
    requires i < |fences|
    ensures Foreign(fences[..i + 1], context)
            == Foreign(fences[..i], context) + if fences[i].context != context then [fences[i]] else []
    ensures Own(fences[..i + 1], context)
            == Own(fences[..i], context) + if fences[i].context == context then [fences[i]] else []
  {
    assert fences[..i + 1] == fences[..i] + [fences[i]];
    ForeignAppend(fences[..i], [fences[i]], context);
    OwnAppend(fences[..i], [fences[i]], context);
  }

  /** From the first foreign fence on, the remaining fences bound the number of foreign ones. */
  lemma {:induction false} CapacitySuffices(fences: seq<FenceRef>, i: nat, j: nat, context: nat)
    requires i <= j <= |fences| && Foreign(fences[..i], context) == []
    ensures |Foreign(fences[..j], context)| <= j - i
    decreases j
  {
    if i == j {
    } else {
      CapacitySuffices(fences, i, j - 1, context);
      SplitOneMore(fences, j - 1, context);
    }
  }

  // What one turn of the arming loop comes to.

  function Turn(s: State, i: nat): seq<Action>
  {
    if i < |s.comps| && s.comps[i].signalled then [Arm, Arm] + [Arm, Arm] else [Arm, Arm]
  }

  lemma RunTwo(s: State)
    ensures Run(s, [Arm, Arm]) == Next(Next(s, Arm), Arm)
  {
    hide Next;
    assert [Arm, Arm][1..] == [Arm] && Run(s, [Arm, Arm]) == Run(Next(s, Arm), [Arm]);
    assert Run(Next(s, Arm), [Arm]) == Run(Next(Next(s, Arm), Arm), []);
  }

  lemma AddSteps(s: State, i: nat)
    requires s.arm == GetRef(i) && i < |s.comps| && !s.comps[i].signalled
    ensures Next(Next(s, Arm), Arm)
            == SetCallback(s, i, Added).(refs := s.refs + 1, arm := GetRef(i + 1))
  {
  }

  lemma TurnAdds(s: State, i: nat)
    requires s.arm == GetRef(i) && i < |s.comps| && !s.comps[i].signalled
    ensures Run(s, Turn(s, i))
            == SetCallback(s, i, Added).(refs := s.refs + 1, arm := GetRef(i + 1))
  {
    hide Next, Run;
    AddSteps(s, i);
    RunTwo(s);
  }

  function SkipResult(s: State, i: nat): State
    requires i < |s.comps|
  {
    var t := SetCallback(s, i, Skipped).(pending := s.pending - 1);
    if s.pending == 1 then t.(zeroHits := s.zeroHits + 1, arm := ReturnFalse(i))
    else t.(arm := GetRef(i + 1))
  }

  lemma SkipSteps(s: State, i: nat)
    requires s.arm == GetRef(i) && i < |s.comps| && s.comps[i].signalled && s.refs > 0
    ensures Next(Next(Next(Next(s, Arm), Arm), Arm), Arm) == SkipResult(s, i)
  {
    var refused := SetCallback(s, i, Refused);
    assert Next(s, Arm) == s.(refs := s.refs + 1, arm := AddCallback(i));
    assert Next(Next(s, Arm), Arm) == refused.(refs := s.refs + 1, arm := DropRef(i));
    assert Next(refused.(refs := s.refs + 1, arm := DropRef(i)), Arm) == refused.(arm := CountDown(i));
    assert refused.comps[i := refused.comps[i].(callback := Skipped)] == SetCallback(s, i, Skipped).comps;
  }

  lemma TurnSkips(s: State, i: nat)
    requires s.arm == GetRef(i) && i < |s.comps| && s.comps[i].signalled && s.refs > 0
    ensures Run(s, Turn(s, i)) == SkipResult(s, i)
  {
    hide Next, Run, SkipResult;
    SkipSteps(s, i);
    RunTwo(s);
    RunTwo(Next(Next(s, Arm), Arm));
    RunAppend(s, [Arm, Arm], [Arm, Arm]);
  }

  function DoneFlags(fences: seq<FenceRef>, done: set<nat>): seq<bool> {
    seq(|fences|, k requires 0 <= k < |fences| => fences[k].id in done)
  }

  /** What an object with these components has dropped after so many releases. */
  function DroppedBy(contents: seq<FenceRef>, releases: nat): multiset<FenceRef> {
    if releases == 0 then multiset{} else multiset(contents)
  }

  class SyncObject {
    var fences: array<FenceRef>
    var callbacks: array<Callback>
    var numFences: nat
    var numPending: int
    var refs: int

    /** The component references that this object has dropped. */
    ghost var dropped: multiset<FenceRef>

    /** The state of the join protocol this object is in. */
    ghost var state: State

    ghost predicate Valid()
      reads this, fences, callbacks
    {
      && numFences <= fences.Length == callbacks.Length
      && |state.comps| == numFences
      && (forall k :: 0 <= k < numFences ==> state.comps[k].callback == callbacks[k])
      && state.pending == numPending
      && state.refs == refs
      && Inv(state)
      && dropped == DroppedBy(fences[..numFences], state.releases)
    }

    /** Allocates the object for at most maxFences components; none is stored yet. */
    constructor (maxFences: nat, filler: FenceRef)
      ensures fresh(fences) && fresh(callbacks)
      ensures fences.Length == callbacks.Length == maxFences
      ensures numFences == 0 && numPending == 0 && refs == 1 && dropped == multiset{}
      ensures forall k :: 0 <= k < maxFences ==> callbacks[k] == NotAdded
    {
      fences := new FenceRef[maxFences](_ => filler);
      callbacks := new Callback[maxFences](_ => NotAdded);
      numFences, numPending, refs, dropped := 0, 0, 1, multiset{};
      state := SyncJoin.Init([]);
    }

    /** The fence core has signalled exactly the components with an id in done. */
    ghost predicate Agrees(done: set<nat>)
      reads this, fences, callbacks
      requires Valid()
    {
      forall k :: 0 <= k < numFences ==> state.comps[k].signalled == (fences[k].id in done)
    }

    /** The last reference is gone: the references to the components are dropped. */
    method Release()
      requires numFences <= fences.Length && refs == 0
      modifies this`dropped
      ensures dropped == old(dropped) + multiset(fences[..numFences])
    {
      for i := 0 to numFences
        invariant dropped == old(dropped) + multiset(fences[..i])
      {
        OneMore(fences[..numFences], i);
        assert fences[..numFences][..i] == fences[..i] && fences[..numFences][..i + 1] == fences[..i + 1];
        dropped := dropped + multiset{fences[i]};
      }
    }

    /** Drops one reference of the object; the last one releases the components. */
    method PutReference()
      requires numFences <= fences.Length && refs > 0
      modifies this`refs, this`dropped
      ensures refs == old(refs) - 1
      ensures dropped == old(dropped) + if refs == 0 then multiset(fences[..numFences]) else multiset{}
    {
      refs := refs - 1;
      if refs == 0 {
        Release();
      }
    }

    /** One turn of the arming loop: component i gets a callback, or is counted off. */
    method ArmComponent(i: nat, done: set<nat>)
      requires Valid() && state.arm == GetRef(i) && i < numFences && Agrees(done)
      modifies this`numPending, this`refs, this`state, callbacks
      ensures Valid() && state == Run(old(state), Turn(old(state), i))
      ensures unchanged(fences) && Agrees(done)
      ensures callbacks[i] == if fences[i].id in done then Skipped else Added
      ensures forall k :: 0 <= k < numFences && k != i ==> callbacks[k] == old(callbacks[k])
      ensures fences[i].id in done ==> numPending == old(numPending) - 1 && refs == old(refs)
      ensures fences[i].id !in done ==> numPending == old(numPending) && refs == old(refs) + 1
      ensures state.arm == if fences[i].id in done && numPending == 0 then ReturnFalse(i) else GetRef(i + 1)
    {
      hide Inv, Run, Turn, DroppedBy;
      ghost var turn := Turn(state, i);
      RunKeeps(state, turn);
      if fences[i].id !in done {
        TurnAdds(state, i);
        callbacks[i] := Added;
        refs := refs + 1;
      } else {
        ArmingHolds(state);
        TurnSkips(state, i);
        callbacks[i] := Skipped;
        numPending := numPending - 1;
      }
      state := Run(state, turn);
    }

    /** The loop adds a callback to every component that is not signalled yet. */
    method EnableSignaling(done: set<nat>) returns (ret: bool, ghost actions: seq<Action>)
      requires Valid() && state.arm == GetRef(0) && Agrees(done)
      modifies this`numPending, this`refs, this`state, callbacks
      ensures Valid() && state == Run(old(state), actions)
      ensures unchanged(fences) && Agrees(done)
      ensures ret <==> exists k :: 0 <= k < numFences && fences[k].id !in done
      ensures if ret then state.arm == ReturnTrue else state.arm == ReturnFalse(numFences - 1)
      ensures forall k :: 0 <= k < numFences ==>
                callbacks[k] == if fences[k].id in done then Skipped else Added
      // one reference for each callback added
      ensures refs == old(refs) + numPending && (!ret ==> numPending == 0)
    {
      hide Inv, Run, Turn, DroppedBy;
      ghost var s := state;
      actions := [];
      StartArming(s);
      for i := 0 to numFences
        invariant Valid() && state == Run(s, actions) && state.arm == GetRef(i)
        invariant unchanged(fences) && Agrees(done)
        invariant forall k :: i <= k < numFences ==> callbacks[k] == NotAdded
        invariant forall k :: 0 <= k < i ==>
                    callbacks[k] == if fences[k].id in done then Skipped else Added
        invariant refs == old(refs) + numPending - (numFences - i) && numPending > 0
      {
        ghost var turn := Turn(state, i);
        RunAppend(s, actions, turn);
        ArmComponent(i, done);
        actions := actions + turn;
        if numPending == 0 {
          NothingLeft(state);
          return false, actions;
        }
      }
      ArmEnds(state);
      RunKeeps(state, [Arm]);
      RunAppend(s, actions, [Arm]);
      state := Run(state, [Arm]);
      actions := actions + [Arm];
      ret := true;
    }

    /** Sets the count; the object is new to the protocol from here on. */
    method SetPending(ghost contents: seq<FenceRef>, done: set<nat>)
      requires 0 < numFences <= fences.Length == callbacks.Length && refs == 1
      requires contents == fences[..numFences] && dropped == multiset{}
      requires forall k :: 0 <= k < numFences ==> callbacks[k] == NotAdded
      modifies this`numPending, this`state
      ensures Valid() && state == Init(DoneFlags(contents, done)) && numPending == numFences && Agrees(done)
    {
      hide Inv;
      numPending := numFences;
      InvInit(DoneFlags(contents, done));
      state := Init(DoneFlags(contents, done));
    }

    /** Sets the count and adds the callback of the creator, which arms the object. */
    method StartWaiting(ghost contents: seq<FenceRef>, done: set<nat>)
      returns (armed: bool, ghost actions: seq<Action>)
      requires 0 < numFences <= fences.Length == callbacks.Length && refs == 1
      requires contents == fences[..numFences] && dropped == multiset{}
      requires forall k :: 0 <= k < numFences ==> callbacks[k] == NotAdded
      modifies this, callbacks
      ensures Valid() && state == Run(Init(DoneFlags(contents, done)), actions)
      ensures unchanged(`fences) && unchanged(`callbacks) && unchanged(`numFences) && unchanged(fences)
      ensures armed <==> exists f :: f in contents && f.id !in done
      ensures state.arm == if armed then Installed else Dropped
      ensures !armed ==> refs == 0 && state.releases == 1 && dropped == multiset(contents)
    {
      hide Inv, Run, DroppedBy;
      ghost var s := Init(DoneFlags(contents, done));
      SetPending(contents, done);
      armed, actions := EnableSignaling(done);
      assert forall k :: 0 <= k < numFences ==> fences[k] == contents[k];
      SomeWaits(contents, done);
      if armed {
        RunAppend(s, actions, [Arm]);
        InstallCallback();
        actions := actions + [Arm];
      } else {
        RunAppend(s, actions, [Arm, Arm]);
        GiveUp();
        actions := actions + [Arm, Arm];
      }
    }

    /** The core has armed the object and installs the callback of the creator. */
    method InstallCallback()
      requires Valid() && state.arm == ReturnTrue
      modifies this`state
      ensures Valid() && state == Run(old(state), [Arm]) && state.arm == Installed
    {
      hide Inv, Run;
      CoreAdds(state);
      RunKeeps(state, [Arm]);
      state := Run(state, [Arm]);
    }

    /** The object has signalled instead, and the creator drops it. */
    method GiveUp()
      requires Valid() && state.arm.ReturnFalse? && refs == 1
      modifies this`refs, this`dropped, this`state
      ensures Valid() && state == Run(old(state), [Arm, Arm]) && state.arm == Dropped
      ensures refs == 0 && state.releases == 1 && dropped == multiset(fences[..numFences])
    {
      hide Inv, Run;
      CoreSignals(state);
      RunKeeps(state, [Arm, Arm]);
      LastReference(state);
      state := Run(state, [Arm, Arm]);
      LastReference(state);
      PutReference();
    }

    /** The fence core signals component k and takes the callback from its list. */
    method ComponentSignals(k: nat)
      requires Valid() && k < numFences && !state.comps[k].signalled
      modifies this`state, callbacks
      ensures Valid() && state == Run(old(state), [Signal(k)]) && dropped == old(dropped)
      ensures callbacks[k] == if old(callbacks[k]) == Added then Fired else old(callbacks[k])
      ensures forall j :: 0 <= j < numFences && j != k ==> callbacks[j] == old(callbacks[j])
    {
      hide Inv;
      RunKeeps(state, [Signal(k)]);
      assert Run(state, [Signal(k)]) == Run(Next(state, Signal(k)), []);
      state := Run(state, [Signal(k)]);
      if callbacks[k] == Added {
        callbacks[k] := Fired;
      }
    }

    /** The callback of component k, which has just signalled. */
    method FenceCallback(k: nat)
      requires Valid() && k < numFences && callbacks[k] == Fired && !Locked(state)
      modifies this`numPending, this`refs, this`dropped, this`state, callbacks
      ensures Valid() && state == Run(old(state), [CallbackCount(k)] + [CallbackSignal(k)] + [CallbackPut(k)])
      ensures callbacks[k] == Finished && numPending == old(numPending) - 1 && refs == old(refs) - 1
      ensures forall j :: 0 <= j < numFences && j != k ==> callbacks[j] == old(callbacks[j])
      ensures state.signalled <==> old(state.signalled) || numPending == 0
      ensures state.userRuns <= old(state.userRuns) + 1
      ensures dropped == if refs == 0 then multiset(fences[..numFences]) else old(dropped)
    {
      hide Inv, Run;
      ghost var actions := [CallbackCount(k)] + [CallbackSignal(k)] + [CallbackPut(k)];
      CallbackRun(state, k);
      CallbackHolds(state, k);
      RunKeeps(state, actions);
      LastReference(state);
      state := Run(state, actions);
      LastReference(state);
      numPending := numPending - 1;
      callbacks[k] := Finished;
      PutReference();
    }

    /** The creator, or anybody who has a reference, takes another one. */
    method GetReference()
      requires Valid() && Shared(state)
      modifies this`refs, this`state
      ensures Valid() && state == Run(old(state), [Get]) && refs == old(refs) + 1
    {
      hide Inv;
      assert Run(state, [Get]) == Run(Next(state, Get), []);
      RunKeeps(state, [Get]);
      LastReference(state);
      state := Run(state, [Get]);
      LastReference(state);
      refs := refs + 1;
    }

    /** Somebody other than the creator drops a reference. */
    method PutOutside()
      requires Valid() && state.external > 0
      modifies this`refs, this`dropped, this`state
      ensures Valid() && state == Run(old(state), [Put]) && refs == old(refs) - 1
      ensures dropped == if refs == 0 then multiset(fences[..numFences]) else old(dropped)
    {
      hide Inv;
      assert Run(state, [Put]) == Run(Next(state, Put), []);
      SharedHolds(state);
      RunKeeps(state, [Put]);
      LastReference(state);
      state := Run(state, [Put]);
      LastReference(state);
      PutReference();
    }

    /** The creator drops its reference. */
    method ReleaseCreator()
      requires Valid() && state.creator && state.arm == Installed
      modifies this`refs, this`dropped, this`state
      ensures Valid() && state == Run(old(state), [Drop]) && refs == old(refs) - 1
      ensures dropped == if refs == 0 then multiset(fences[..numFences]) else old(dropped)
    {
      hide Inv;
      assert Run(state, [Drop]) == Run(Next(state, Drop), []);
      SharedHolds(state);
      RunKeeps(state, [Drop]);
      LastReference(state);
      state := Run(state, [Drop]);
      LastReference(state);
      PutReference();
    }
  }

  /** The object is filled but not armed yet. */
  twostate predicate Filled(new obj: SyncObject, contents: seq<FenceRef>)
    reads obj, obj.fences, obj.callbacks
  {
    && fresh(obj) && fresh(obj.fences) && fresh(obj.callbacks)
    && obj.refs == 1 && obj.dropped == multiset{}
    && 0 < obj.numFences <= obj.fences.Length == obj.callbacks.Length
    && obj.fences[..obj.numFences] == contents
    && forall k :: 0 <= k < obj.callbacks.Length ==> obj.callbacks[k] == NotAdded
  }

  /** Collects the foreign fences and drops the others. */
  method CollectForeign(context: nat, fences: seq<FenceRef>)
    returns (obj: SyncObject?, dropped: seq<FenceRef>)
    ensures dropped == Own(fences, context)
    ensures forall f :: f in dropped <==> f in fences && f.context == context
    ensures obj == null <==> forall f :: f in fences ==> f.context == context
    ensures obj != null ==> forall k :: 0 <= k < obj.numFences ==> k < obj.fences.Length && obj.fences[k].context != context
    ensures obj == null <==> Foreign(fences, context) == []
    ensures obj != null ==> Filled(obj, Foreign(fences, context)) && obj.fences.Length <= |fences|
  {
    hide Foreign, Own;
    obj, dropped := null, [];
    ghost var first := 0;
    NothingCollected(fences, context);
    for i := 0 to |fences|
      invariant dropped == Own(fences[..i], context)
      invariant obj == null <==> Foreign(fences[..i], context) == []
      invariant obj != null ==>
                  && Filled(obj, Foreign(fences[..i], context))
                  && first < i && Foreign(fences[..first], context) == []
                  && obj.fences.Length == |fences| - first
    {
      SplitOneMore(fences, i, context);
      if fences[i].context != context {
        if obj == null {
          first := i;
          obj := new SyncObject(|fences| - i, fences[i]);
        }
        CapacitySuffices(fences, first, i + 1, context);
        obj.fences[obj.numFences] := fences[i];
        obj.numFences := obj.numFences + 1;
      } else {
        dropped := dropped + [fences[i]];
      }
    }
    assert fences[..|fences|] == fences;
    forall f
      ensures f in Own(fences, context) <==> f in fences && f.context == context
      ensures f in Foreign(fences, context) <==> f in fences && f.context != context
    {
      ForeignAndOwnAre(fences, context, f);
    }
    if obj != null {
      assert forall k :: 0 <= k < obj.numFences ==> obj.fences[k] in Foreign(fences, context);
    } else {
      assert forall f :: f in fences ==> f !in Foreign(fences, context);
    }
    if f :| f in fences && f.context != context { assert f in Foreign(fences, context); }
    if Foreign(fences, context) != [] { assert Foreign(fences, context)[0] in Foreign(fences, context); }
  }

  lemma NothingCollected(fences: seq<FenceRef>, context: nat)
    ensures Foreign(fences[..0], context) == [] && Own(fences[..0], context) == []
  {
  }

  /** Creates the object that waits for the foreign fences, if there is anything to wait for. The
    loop drops the references in dropped; released are those that an object given up drops again. */
  method CreateSyncObject(context: nat, fences: seq<FenceRef>, done: set<nat>)
    returns (obj: SyncObject?, dropped: seq<FenceRef>, ghost released: multiset<FenceRef>, ghost actions: seq<Action>)
    ensures obj != null <==> exists f :: f in fences && f.context != context && f.id !in done
    ensures dropped == Own(fences, context)
    ensures obj == null ==> multiset(dropped) + released == multiset(fences)
    ensures obj != null ==>
              && fresh(obj) && fresh(obj.fences) && fresh(obj.callbacks) && obj.Valid()
              && obj.fences[..obj.numFences] == Foreign(fences, context)
              && multiset(dropped) + multiset(obj.fences[..obj.numFences]) == multiset(fences)
              && obj.state == Run(Init(DoneFlags(Foreign(fences, context), done)), actions)
              && obj.state.arm == Installed
  {
    hide Foreign, Own, Run, Inv;
    forall f ensures f in Foreign(fences, context) <==> f in fences && f.context != context {
      ForeignAndOwnAre(fences, context, f);
    }
    obj, dropped := CollectForeign(context, fences);
    actions, released := [], multiset{};
    SplitConserves(fences, context);
    if obj != null {
      ghost var contents := Foreign(fences, context);
      assert contents == obj.fences[..obj.numFences];
      var armed: bool;
      armed, actions := obj.StartWaiting(contents, done);
      if !armed {
        released := obj.dropped;
        obj := null;
      }
    }
  }

  // Conservation of the component references over whole lives of an object.

  /** An object with what it has dropped: a release happens when the counter falls to zero. */
  datatype Life = Life(join: State, contents: seq<FenceRef>, dropped: multiset<FenceRef>)

  function Born(contents: seq<FenceRef>, done: set<nat>): Life {
    Life(Init(DoneFlags(contents, done)), contents, multiset{})
  }

  function LifeNext(l: Life, a: Action): Life {
    var t := Next(l.join, a);
    l.(join := t,
       dropped := l.dropped + if l.join.refs > 0 && t.refs <= 0 then multiset(l.contents) else multiset{})
  }

  function LifeRun(l: Life, actions: seq<Action>): Life
    decreases |actions|
  {
    if actions == [] then l else LifeRun(LifeNext(l, actions[0]), actions[1..])
  }

  ghost predicate Conserved(l: Life) {
    Inv(l.join) && l.dropped == if l.join.refs == 0 then multiset(l.contents) else multiset{}
  }

  lemma CounterOnlyFalls(s: State, a: Action)
    requires Inv(s) && s.refs == 0
    ensures Inv(Next(s, a)) && Next(s, a).refs == 0
  {
    InvStep(s, a);
    assert Holders(s) == {};
    assert forall k :: 0 <= k < |s.comps| ==> k !in Holders(s);
  }

  lemma {:induction false} LifeConserves(l: Life, actions: seq<Action>)
    requires Conserved(l)
    ensures Conserved(LifeRun(l, actions))
    ensures LifeRun(l, actions).join == Run(l.join, actions) && LifeRun(l, actions).contents == l.contents
    decreases |actions|
  {
    hide Next, Inv;
    if actions == [] {
    } else {
      InvStep(l.join, actions[0]);
      LastReference(Next(l.join, actions[0]));
      LastReference(l.join);
      if l.join.refs == 0 { CounterOnlyFalls(l.join, actions[0]); }
      LifeConserves(LifeNext(l, actions[0]), actions[1..]);
    }
  }

  /** Nobody has or is going to use a reference to the object. */
  predicate LetGo(s: State) {
    && (s.arm.Installed? || s.arm.Dropped?) && !s.creator && s.external == 0
    && forall k :: 0 <= k < |s.comps| ==> s.comps[k].callback.Skipped? || s.comps[k].callback.Finished?
  }

  /** In every life of every object the references handed out are dropped exactly once: those of the
    own context at creation, the foreign ones when the last reference to the object goes. That is when
    everybody has let go, and no earlier. */
  lemma EveryReferenceIsDroppedOnce(fences: seq<FenceRef>, context: nat, done: set<nat>, actions: seq<Action>)
    requires Foreign(fences, context) != []
    ensures var l := LifeRun(Born(Foreign(fences, context), done), actions);
            && l.join == Run(Init(DoneFlags(Foreign(fences, context), done)), actions)
            && (l.join.refs == 0 <==> LetGo(l.join))
            && (!LetGo(l.join) ==> l.dropped == multiset{})
            && (LetGo(l.join) ==> multiset(Own(fences, context)) + l.dropped == multiset(fences))
  {
    var flags := DoneFlags(Foreign(fences, context), done);
    InvInit(flags);
    LifeConserves(Born(Foreign(fences, context), done), actions);
    SplitConserves(fences, context);
    hide Run, LifeRun, Inv;
    if LetGo(Run(Init(flags), actions)) { LetGoIsReleased(flags, actions); }
    ReleasedOnceWithoutCallbacks(flags, actions);
    LastReference(Run(Init(flags), actions));
    if Run(Init(flags), actions).refs == 0 { ReleasedIsOver(flags, actions); }
  }

  lemma ReleasedIsOver(done: seq<bool>, actions: seq<Action>)
    requires |done| > 0 && Run(Init(done), actions).refs == 0
    ensures Run(Init(done), actions).arm.Installed? || Run(Init(done), actions).arm.Dropped?
  {
    Reachable(done, actions);
  }

  lemma CallbackRun(s: State, k: nat)
    requires k < |s.comps| && s.comps[k].callback.Fired? && !Locked(s)
    ensures var t := SetCallback(s, k, Finished).(pending := s.pending - 1,
                       zeroHits := s.zeroHits + if s.pending == 1 then 1 else 0);
            Run(s, [CallbackCount(k)] + [CallbackSignal(k)] + [CallbackPut(k)])
            == PutObject(if s.pending == 1 then SignalObject(t) else t)
  {
    var x, y := [CallbackCount(k)], [CallbackSignal(k)];
    RunAppend(s, x + y, [CallbackPut(k)]);
    RunAppend(s, x, y);
    var s1 := Run(s, x);
    var s2 := Run(s1, y);
    var c := if s.pending == 1 then Hit else Counted;
    assert s1.comps == SetCallback(s, k, c).comps;
    assert s2.comps == SetCallback(s, k, Counted).comps;
    assert SetCallback(s2, k, Finished).comps == SetCallback(s, k, Finished).comps;
  }

  lemma LastReference(s: State)
    requires Inv(s)
    ensures s.releases == (if s.refs == 0 then 1 else 0) && s.refs >= 0
  {
  }

  lemma SomeWaits(contents: seq<FenceRef>, done: set<nat>)
    ensures (exists f :: f in contents && f.id !in done)
            <==> exists k :: 0 <= k < |contents| && contents[k].id !in done
  {
  }

  lemma CallbackHolds(s: State, k: nat)
    requires Inv(s) && k < |s.comps| && s.comps[k].callback.Fired?
    ensures s.refs > 0
  {
    assert k in Holders(s);
  }

  lemma SharedHolds(s: State)
    requires Inv(s) && (s.external > 0 || s.creator)
    ensures s.refs > 0
  {
  }

  lemma CoreAdds(s: State)
    requires s.arm == ReturnTrue
    ensures Run(s, [Arm]) == s.(arm := Installed)
  {
    assert Run(s, [Arm]) == Run(Next(s, Arm), []);
  }

  function TooLateResult(s: State): State {
    PutObject(s.(signalled := true)).(creator := false, arm := Dropped)
  }

  lemma CoreSignalsSteps(s: State)
    requires s.arm.ReturnFalse?
    ensures Next(Next(s, Arm), Arm) == TooLateResult(s)
  {
    assert Next(s, Arm) == s.(signalled := true, arm := TooLate);
  }

  lemma CoreSignals(s: State)
    requires s.arm.ReturnFalse?
    ensures Run(s, [Arm, Arm]) == TooLateResult(s)
  {
    hide Next, Run, TooLateResult;
    CoreSignalsSteps(s);
    RunTwo(s);
  }

  lemma StartArming(s: State)
    requires Inv(s) && s.arm == GetRef(0)
    ensures Run(s, []) == s && s.pending == |s.comps| > 0
    ensures forall k :: 0 <= k < |s.comps| ==> s.comps[k].callback.NotAdded?
  {
    AllOpen(s);
  }

  lemma ArmEnds(s: State)
    requires Inv(s) && s.arm == GetRef(|s.comps|) && s.pending > 0
    ensures Run(s, [Arm]) == s.(arm := ReturnTrue)
    ensures exists k :: 0 <= k < |s.comps| && !Accounted(s.comps[k].callback)
  {
    assert Open(s) != {};
    var k :| k in Open(s);
    assert Run(s, [Arm]) == Run(Next(s, Arm), []);
  }

  lemma ArmingHolds(s: State)
    requires Inv(s) && Locked(s)
    ensures s.refs > 0
  {
  }

  lemma NothingLeft(s: State)
    requires Inv(s) && s.arm.ReturnFalse?
    ensures s.arm.last == |s.comps| - 1
    ensures forall k :: 0 <= k < |s.comps| ==> s.comps[k].signalled
  {
    AllSignalledAtZero(s);
  }
}
