/** The functions of the fence driver, run without interference.

  Each method is proved to be a run of the interleaved protocol of module FenceTracking, and
  its postconditions say outright what the run achieves.
*/
module FenceDrivers {
  import opened FenceTracking

  /** The fences of a list that the hardware has not finished, in order. */
  function Kept(s: seq<Fence>, reported: set<Fence>): seq<Fence> {
    if s == [] then []
    else (if s[0] in reported then [] else [s[0]]) + Kept(s[1..], reported)
  }

  function Finished(s: seq<Fence>, reported: set<Fence>): set<Fence> {
    set f | f in s && f in reported
  }

  lemma {:induction false} KeptMember(s: seq<Fence>, reported: set<Fence>, f: Fence)
    ensures f in Kept(s, reported) <==> f in s && f !in reported
  {
    if s == [] {
    } else {
      KeptMember(s[1..], reported, f);
      assert s == [s[0]] + s[1..];
    }
  }

  lemma {:induction false} KeptAppend(s: seq<Fence>, t: seq<Fence>, reported: set<Fence>)
    ensures Kept(s + t, reported) == Kept(s, reported) + Kept(t, reported)
  {
    if s == [] {
      assert s + t == t;
    } else {
      KeptAppend(s[1..], t, reported);
      assert (s + t)[1..] == s[1..] + t && (s + t)[0] == s[0];
      var h: seq<Fence> := if s[0] in reported then [] else [s[0]];
      var a, b := Kept(s[1..], reported), Kept(t, reported);
      assert h + (a + b) == (h + a) + b;
    }
  }

  lemma KeptOneMore(all: seq<Fence>, j: nat, reported: set<Fence>)
    requires j < |all|
    ensures Kept(all[..j + 1], reported)
            == Kept(all[..j], reported) + if all[j] in reported then [] else [all[j]]
    ensures Finished(all[..j + 1], reported)
            == Finished(all[..j], reported) + if all[j] in reported then {all[j]} else {}
  {
    assert all[..j + 1] == all[..j] + [all[j]];
    KeptAppend(all[..j], [all[j]], reported);
  }

  /** The list once the first j elements have been looked at. */
  function Scanned(all: seq<Fence>, j: nat, reported: set<Fence>): seq<Fence>
    requires j <= |all|
  {
    Kept(all[..j], reported) + all[j..]
  }

  lemma ScannedOneMore(all: seq<Fence>, j: nat, reported: set<Fence>)
    requires j < |all|
    ensures var i, p := |Kept(all[..j], reported)|, Scanned(all, j, reported);
            && i < |p| && p[i] == all[j]
            && (if all[j] in reported then
                  && Scanned(all, j + 1, reported) == p[..i] + p[i + 1..]
                  && |Kept(all[..j + 1], reported)| == i
                else
                  && Scanned(all, j + 1, reported) == p
                  && |Kept(all[..j + 1], reported)| == i + 1)
  {
    KeptOneMore(all, j, reported);
    assert all[j..] == [all[j]] + all[j + 1..];
  }

  lemma ScannedEnds(all: seq<Fence>, reported: set<Fence>)
    ensures Scanned(all, 0, reported) == all && Kept(all[..0], reported) == []
    ensures Scanned(all, |all|, reported) == Kept(all, reported) && all[..|all|] == all
  {
    assert all[..|all|] == all && all[|all|..] == [] && all[0..] == all;
  }

  function ArmActions(f: Fence, later: set<Fence>): seq<Action> {
    [BeginArm(f)] + [Report(later), EnterLock(f), Link, CountAndUnlock]
  }

  /** The second test and, if it is passed, the critical section. */
  lemma LockedPart(s: State, f: Fence)
    requires s.lock.Free? && f in s.refs && f in s.waiting
    ensures var t := s.(waiting := s.waiting - {f});
            Next(Next(Next(s, EnterLock(f)), Link), CountAndUnlock)
            == if f in s.reported then t.(signalled := s.signalled + {f})
               else t.(refs := s.refs[f := s.refs[f] + 1], fenceList := s.fenceList + [f],
                       log := s.log + [f], fenceCount := s.fenceCount + 1)
  {
    var s1 := Next(s, EnterLock(f));
    var s2 := Next(s1, Link);
    if f in s.reported {
      assert s2 == s1;
    } else {
      assert s2.lock == Held(f, true);
    }
  }

  function ArmResult(s: State, f: Fence, later: set<Fence>): State
    requires f in s.refs
  {
    var t := s.(enabled := s.enabled + {f}, reported := later, everReported := s.everReported + later);
    if f in s.reported || f in later then t.(signalled := s.signalled + {f})
    else t.(refs := s.refs[f := s.refs[f] + 1], fenceList := s.fenceList + [f],
            log := s.log + [f], fenceCount := s.fenceCount + 1)
  }

  lemma ArmRefused(s: State, f: Fence, later: set<Fence>)
    requires Enabled(s, BeginArm(f)) && s.lock.Free? && f in s.refs && f !in s.waiting && f in s.reported
    ensures Run(Next(s, BeginArm(f)), [Report(later), EnterLock(f), Link, CountAndUnlock])
            == ArmResult(s, f, later)
  {
    var s2 := Next(Next(s, BeginArm(f)), Report(later));
    RunFour(Next(s, BeginArm(f)), Report(later), EnterLock(f), Link, CountAndUnlock);
    assert Next(s2, EnterLock(f)) == s2 && Next(s2, Link) == s2 && Next(s2, CountAndUnlock) == s2;
  }

  lemma ArmAdmitted(s: State, f: Fence, later: set<Fence>)
    requires Enabled(s, BeginArm(f)) && s.lock.Free? && f in s.refs && f !in s.waiting && f !in s.reported
    ensures Run(Next(s, BeginArm(f)), [Report(later), EnterLock(f), Link, CountAndUnlock])
            == ArmResult(s, f, later)
  {
    var s2 := Next(Next(s, BeginArm(f)), Report(later));
    RunFour(Next(s, BeginArm(f)), Report(later), EnterLock(f), Link, CountAndUnlock);
    assert (s.waiting + {f}) - {f} == s.waiting;
    assert f in s2.waiting && s2.reported == later;
    LockedPart(s2, f);
  }

  /** What the steps of arming come to when nobody else moves. */
  lemma ArmRun(s: State, f: Fence, later: set<Fence>)
    requires Inv(s) && Enabled(s, BeginArm(f)) && s.lock.Free? && f in s.refs
    ensures Run(s, ArmActions(f, later)) == ArmResult(s, f, later)
  {
    hide Next, ListInv, CountInv, SignalInv, ArmResult;
    assert f !in s.waiting;
    if f in s.reported {
      ArmRefused(s, f, later);
    } else {
      ArmAdmitted(s, f, later);
    }
    assert ArmActions(f, later)[1..] == [Report(later), EnterLock(f), Link, CountAndUnlock];
  }

  function RetireActions(): seq<Action> {
    [ScanStep, Uncount, SignalFence, PutFence]
  }

  function RetireResult(s: State, i: nat): State
    requires i < |s.processList| && s.processList[i] in s.refs && s.refs[s.processList[i]] > 0
  {
    var f := s.processList[i];
    s.(processList := s.processList[..i] + s.processList[i + 1..], pc := Scan(i),
       removed := s.removed + {f}, fenceCount := s.fenceCount - 1,
       signalled := s.signalled + {f}, refs := s.refs[f := s.refs[f] - 1],
       freed := if s.refs[f] == 1 then s.freed + {f} else s.freed)
  }

  lemma RetireSteps(s: State, i: nat)
    requires s.pc == Scan(i) && i < |s.processList| && s.processList[i] in s.reported
    requires s.processList[i] in s.refs && s.refs[s.processList[i]] > 0
    ensures Next(Next(Next(Next(s, ScanStep), Uncount), SignalFence), PutFence) == RetireResult(s, i)
  {
    UnlinkAndUncount(s, i);
    SignalAndPut(Next(Next(s, ScanStep), Uncount), i, s.processList[i]);
    hide Next;
  }

  lemma UnlinkAndUncount(s: State, i: nat)
    requires s.pc == Scan(i) && i < |s.processList| && s.processList[i] in s.reported
    ensures var f := s.processList[i];
            Next(Next(s, ScanStep), Uncount)
            == s.(processList := s.processList[..i] + s.processList[i + 1..], removed := s.removed + {f},
                  fenceCount := s.fenceCount - 1, pc := Uncounted(i, f))
  {
  }

  lemma SignalAndPut(s: State, i: nat, f: Fence)
    requires s.pc == Uncounted(i, f) && f in s.refs && s.refs[f] > 0
    ensures Next(Next(s, SignalFence), PutFence)
            == s.(signalled := s.signalled + {f}, refs := s.refs[f := s.refs[f] - 1],
                  freed := if s.refs[f] == 1 then s.freed + {f} else s.freed, pc := Scan(i))
  {
  }

  /** What the four steps of a retirement come to. */
  lemma RetireRun(s: State, i: nat)
    requires Inv(s) && s.pc == Scan(i) && i < |s.processList| && s.processList[i] in s.reported
    ensures s.processList[i] in s.refs && s.refs[s.processList[i]] > 0
    ensures Run(s, RetireActions()) == RetireResult(s, i)
  {
    hide Next, Run, ListInv, ArmInv, CountInv, SignalInv, RetireResult;
    assert Tracked(s, s.processList[i]);
    RetireSteps(s, i);
    RunFour(s, ScanStep, Uncount, SignalFence, PutFence);
  }

  lemma NewIsNotFreed(s: State, f: Fence)
    requires Inv(s) && f !in s.refs
    ensures f !in s.freed
  {
  }

  class FenceDriver {
    var fenceList: seq<Fence>
    var processList: seq<Fence>
    var fenceCount: int
    var signalled: set<Fence>
    var refs: map<Fence, nat>
    var reported: set<Fence>
    const canFreeze: bool

    /** The protocol state this object is in: the fields above and the history. */
    ghost var state: State

    ghost predicate Valid()
      reads this
    {
      && Inv(state)
      && state.fenceList == fenceList
      && state.processList == processList
      && state.fenceCount == fenceCount
      && state.signalled == signalled
      && state.refs == refs
      && state.reported == reported
      && state.canFreeze == canFreeze
    }

    constructor (canFreeze: bool)
      ensures Valid() && this.canFreeze == canFreeze && state == Init(canFreeze)
    {
      fenceList, processList, fenceCount := [], [], 0;
      signalled, refs, reported := {}, map[], {};
      this.canFreeze := canFreeze;
      state := Init(canFreeze);
    }

    /** A new fence, whose one reference goes to the caller. */
    method CreateFence(f: Fence)
      requires Valid() && f !in refs
      modifies this`refs, this`state
      ensures Valid() && state == Run(old(state), [Create(f)])
      ensures refs == old(refs)[f := 1]
      ensures f in state.external && state.external[f] == 1 && f !in state.freed
    {
      hide Inv;
      assert Run(state, [Create(f)]) == Run(Next(state, Create(f)), []);
      RunKeeps(state, [Create(f)]);
      NewIsNotFreed(state, f);
      state := Run(state, [Create(f)]);
      refs := refs[f := 1];
    }

    /** Arms f. The hardware answers `reported` at the first test and `later` at the second one. */
    method EnableSignaling(f: Fence, later: set<Fence>) returns (ret: bool)
      requires Valid() && state.lock.Free? && Enabled(state, BeginArm(f)) && f in refs
      modifies this
      ensures Valid() && state == Run(old(state), ArmActions(f, later))
      ensures ret <==> f !in old(reported) && f !in later
      ensures processList == old(processList) && reported == later
      ensures ret ==> fenceList == old(fenceList) + [f] && fenceCount == old(fenceCount) + 1
      ensures ret ==> refs == old(refs)[f := old(refs)[f] + 1] && signalled == old(signalled)
      // the core signals the fence that was refused
      ensures !ret ==> fenceList == old(fenceList) && fenceCount == old(fenceCount)
      ensures !ret ==> refs == old(refs) && signalled == old(signalled) + {f}
    {
      hide Inv, Run, Enabled, ArmActions;
      RunKeeps(state, ArmActions(f, later));
      ArmRun(state, f, later);
      state := Run(state, ArmActions(f, later));
      ret := f !in reported;
      // between the two tests the hardware may answer differently
      reported := later;
      if ret && f !in reported {
        refs := refs[f := refs[f] + 1];
        fenceList := fenceList + [f];
        fenceCount := fenceCount + 1;
      } else {
        ret := false;
        signalled := signalled + {f};
      }
    }

    /** The body of one retirement: the fence at the cursor leaves the list for good. */
    method RetireAt(i: nat)
      requires Valid() && state.pc == Scan(i) && i < |processList| && processList[i] in reported
      modifies this
      ensures Valid() && state == Run(old(state), RetireActions())
      ensures processList[..] == old(processList[..i] + processList[i + 1..])
      ensures fenceCount == old(fenceCount) - 1
      ensures signalled == old(signalled + {processList[i]})
      ensures old(processList[i]) in old(refs) && old(refs)[old(processList[i])] > 0
      ensures refs == old(refs)[old(processList[i]) := old(refs)[old(processList[i])] - 1]
      ensures fenceList == old(fenceList) && reported == old(reported)
      ensures state.pc == Scan(i) && state.lock == old(state.lock)
    {
      hide Inv, Run, RetireActions;
      RetireRun(state, i);
      RunKeeps(state, RetireActions());
      state := Run(state, RetireActions());
      var f := processList[i];
      processList := processList[..i] + processList[i + 1..];
      fenceCount := fenceCount - 1;
      signalled := signalled + {f};
      refs := refs[f := refs[f] - 1];
    }

    /** The fence at the cursor is not back: the cursor moves on. */
    ghost method StepOver(i: nat)
      requires Valid() && state.pc == Scan(i) && i < |processList| && processList[i] !in reported
      modifies this`state
      ensures Valid() && state == Run(old(state), [ScanStep])
      ensures state == old(state).(pc := Scan(i + 1))
    {
      InvStep(state, ScanStep);
      hide Inv;
      state := Next(state, ScanStep);
    }

    /** The scan of the process list, from its first to its last element. */
    method ScanProcessList() returns (ghost actions: seq<Action>)
      requires Valid() && state.pc == Scan(0)
      modifies this
      ensures Valid() && state == Run(old(state), actions)
      ensures state.pc == Scan(|processList|) && state.lock == old(state.lock)
      ensures processList == Kept(old(processList), reported)
      ensures fenceCount == old(fenceCount) - (old(|processList|) - |processList|)
      ensures signalled == old(signalled) + Finished(old(processList), reported)
      ensures fenceList == old(fenceList) && reported == old(reported)
    {
      hide Inv, Run, Step, Enabled, RetireActions, Kept, Scanned;
      ghost var s, all := state, processList;
      ScannedEnds(all, reported);
      var i := 0;
      ghost var j := 0;
      actions := [];
      RunNothing(s);
      while i < |processList|
        invariant 0 <= j <= |all| && i == |Kept(all[..j], reported)|
        invariant processList == Scanned(all, j, reported)
        invariant |processList| == i + (|all| - j)
        invariant Valid() && state == Run(s, actions) && state.pc == Scan(i)
        invariant state.lock == s.lock
        invariant fenceCount == old(fenceCount) - (|all| - |processList|)
        invariant signalled == old(signalled) + Finished(all[..j], reported)
        invariant fenceList == old(fenceList) && reported == old(reported)
        decreases |all| - j
      {
        ScannedOneMore(all, j, reported);
        KeptOneMore(all, j, reported);
        if processList[i] in reported {
          RunAppend(s, actions, RetireActions());
          RetireAt(i);
          actions := actions + RetireActions();
        } else {
          RunAppend(s, actions, [ScanStep]);
          StepOver(i);
          actions := actions + [ScanStep];
          i := i + 1;
        }
        j := j + 1;
      }
    }

    /** Takes the fence list over in front of the process list. */
    method SpliceFenceList()
      requires Valid() && state.pc.Waiting? && state.lock.Free?
      modifies this
      ensures Valid() && state == Run(old(state), [Wake] + [DoSpliceIn])
      ensures state.pc == Scan(0) && state.lock.Free? && signalled == old(signalled)
      ensures processList == old(fenceList) + old(processList) && fenceList == []
      ensures fenceCount == old(fenceCount) && reported == old(reported)
    {
      hide Inv;
      RunKeeps(state, [Wake] + [DoSpliceIn]);
      RunAppend(state, [Wake], [DoSpliceIn]);
      state := Run(state, [Wake] + [DoSpliceIn]);
      processList, fenceList := fenceList + processList, [];
    }

    /** After a scan: a driver that may freeze hands the rest back, if it is not to try again. */
    method HandBack(freezing: bool, stop: bool)
      requires Valid() && state.pc == Scan(|processList|) && state.lock.Free?
      requires canFreeze && freezing ==> processList == [] && fenceList == []
      modifies this
      ensures Valid() && state == Run(old(state), [EndScan(freezing, stop)] + [DoSpliceBack(stop)])
      ensures state.pc == (if stop then Stopped else Waiting) && state.lock.Free?
      ensures canFreeze ==> fenceList == old(processList) + old(fenceList) && processList == []
      ensures !canFreeze ==> fenceList == old(fenceList) && processList == old(processList)
      ensures fenceCount == old(fenceCount) && signalled == old(signalled)
      ensures reported == old(reported)
    {
      ghost var actions := [EndScan(freezing, stop)] + [DoSpliceBack(stop)];
      hide Inv;
      RunKeeps(state, actions);
      RunAppend(state, [EndScan(freezing, stop)], [DoSpliceBack(stop)]);
      state := Run(state, actions);
      if canFreeze {
        fenceList, processList := processList + fenceList, [];
      }
    }

    /** During a freeze with fences left: the thread sleeps, the hardware reports, the scan starts again. */
    method TryAgain(back: set<Fence>) returns (ghost actions: seq<Action>)
      requires Valid() && state.pc == Scan(|processList|) && canFreeze && processList != []
      modifies this
      ensures Valid() && state == Run(old(state), actions)
      ensures state.pc == Scan(|processList|) && state.lock == old(state.lock)
      ensures processList == Kept(old(processList), back) && reported == back
      ensures signalled == old(signalled) + Finished(old(processList), back)
      ensures fenceCount == old(fenceCount) - (old(|processList|) - |processList|)
      ensures fenceList == old(fenceList)
    {
      ghost var s := state;
      SleepSteps(s, back);
      hide Inv, Run, Next, Kept, Finished;
      RunKeeps(s, [EndScan(true, false)] + [Report(back)]);
      state := Run(s, [EndScan(true, false)] + [Report(back)]);
      reported := back;
      ghost var scan := ScanProcessList();
      RunAppend(s, [EndScan(true, false)] + [Report(back)], scan);
      actions := [EndScan(true, false)] + [Report(back)] + scan;
    }

    /** One round of the event thread. Each element of freezes is what the hardware reports after a sleep
      in which the thread has been asked to freeze. */
    method EventThreadRound(freezes: seq<set<Fence>>, stop: bool) returns (ghost actions: seq<Action>)
      requires Valid() && state.pc.Waiting? && state.lock.Free?
      modifies this
      ensures Valid() && state == Run(old(state), actions)
      ensures state.pc == (if stop then Stopped else Waiting) && state.lock.Free?
      ensures freezes == [] || !canFreeze ==> reported == old(reported)
      ensures canFreeze ==>
                && fenceList == KeptThrough(old(fenceList + processList), [old(reported)] + freezes)
                && processList == []
      ensures !canFreeze ==> processList == Kept(old(fenceList + processList), reported) && fenceList == []
      ensures signalled == old(signalled) + Lost(old(fenceList + processList), fenceList + processList)
      ensures fenceCount == old(fenceCount) - (old(|fenceList| + |processList|) - |fenceList| - |processList|)
    {
      hide Inv, Run, Kept, Finished, Lost;
      ghost var s, all := state, fenceList + processList;
      SpliceFenceList();
      ghost var scan := ScanProcessList();
      RunAppend(s, [Wake] + [DoSpliceIn], scan);
      actions := [Wake] + [DoSpliceIn] + scan;
      FinishedIsLost(all, reported);
      KeptThroughOne(all, reported, freezes);
      var i := 0;
      while canFreeze && processList != [] && i < |freezes|
        invariant 0 <= i <= |freezes| && (!canFreeze ==> i == 0)
        invariant Valid() && state == Run(s, actions) && state.pc == Scan(|processList|) && state.lock.Free?
        invariant fenceList == [] && (i == 0 ==> reported == old(reported) && processList == Kept(all, reported))
        invariant KeptThrough(processList, freezes[i..]) == KeptThrough(all, [old(reported)] + freezes)
        invariant signalled == old(signalled) + Lost(all, processList)
        invariant forall f :: f in processList ==> f in all
        invariant fenceCount == old(fenceCount) - (|all| - |processList|)
        decreases |freezes| - i
      {
        LostMore(all, processList, freezes[i]);
        KeptThroughStep(processList, freezes, i);
        ghost var more := TryAgain(freezes[i]);
        RunAppend(s, actions, more);
        actions := actions + more;
        i := i + 1;
      }
      KeptThroughEnd(processList, freezes, i);
      ghost var finish := [EndScan(i < |freezes| && canFreeze, stop)] + [DoSpliceBack(stop)];
      ghost var left := processList;
      HandBack(i < |freezes| && canFreeze, stop);
      RunAppend(s, actions, finish);
      actions := actions + finish;
      assert fenceList + processList == left;
    }

    /** The hardware reports other fences. */
    method ReportBack(back: set<Fence>)
      requires Valid()
      modifies this`reported, this`state
      ensures Valid() && state == Run(old(state), [Report(back)])
      ensures state == old(state).(reported := back, everReported := old(state).everReported + back)
    {
      hide Inv;
      RunKeeps(state, [Report(back)]);
      assert Run(state, [Report(back)]) == Run(Next(state, Report(back)), []);
      state := Run(state, [Report(back)]);
      reported := back;
    }

    /** The thread over several rounds: in front of each the hardware reports something, and the thread goes
      on until the round after which it should stop. */
    method EventThread(reports: seq<set<Fence>>, stop: bool) returns (ghost actions: seq<Action>)
      requires Valid() && state.pc.Waiting? && state.lock.Free? && reports != []
      modifies this
      ensures Valid() && state == Run(old(state), actions)
      ensures state.pc == (if stop then Stopped else Waiting) && state.lock.Free?
      // exactly the fences that no round has found reported are left, in order
      ensures fenceList + processList == KeptThrough(old(fenceList + processList), reports)
      ensures forall f, k :: 0 <= k < |reports| && f in old(fenceList + processList) && f in reports[k] ==> f in signalled
      ensures forall f :: f in signalled ==>
                f in old(signalled) || (f in old(fenceList + processList) && exists k :: 0 <= k < |reports| && f in reports[k])
    {
      hide Inv, Run, Kept, Lost, KeptThrough;
      ghost var s, all := state, fenceList + processList;
      actions := [];
      RunNothing(s);
      KeptThroughNothing(all, reports);
      LostNothing(all);
      for i := 0 to |reports|
        invariant Valid() && state == Run(s, actions) && state.lock.Free?
        invariant state.pc == if i == |reports| && stop then Stopped else Waiting
        invariant fenceList + processList == KeptThrough(all, reports[..i])
        invariant signalled == old(signalled) + Lost(all, KeptThrough(all, reports[..i]))
      {
        ghost var before := fenceList + processList;
        ReportBack(reports[i]);
        RunAppend(s, actions, [Report(reports[i])]);
        ghost var round := EventThreadRound([], i == |reports| - 1 && stop);
        RunAppend(s, actions + [Report(reports[i])], round);
        actions := actions + [Report(reports[i])] + round;
        OneRound(all, reports, i);
        KeptOnce(before, reports[i]);
        assert fenceList + processList == Kept(before, reports[i]);
      }
      assert reports[..|reports|] == reports;
      forall f ensures f in Lost(all, KeptThrough(all, reports)) <==> f in all && exists k :: 0 <= k < |reports| && f in reports[k] {
        LostThrough(all, reports, f);
      }
    }
  }

  /** The fences that have gone from a list. */
  function Lost(before: seq<Fence>, after: seq<Fence>): set<Fence> {
    set f | f in before && f !in after
  }

  /** What is left of a list after scans with these reports. */
  function KeptThrough(s: seq<Fence>, reports: seq<set<Fence>>): seq<Fence>
    decreases |reports|
  {
    if reports == [] then s else KeptThrough(Kept(s, reports[0]), reports[1..])
  }

  lemma FinishedIsLost(all: seq<Fence>, reported: set<Fence>)
    ensures Finished(all, reported) == Lost(all, Kept(all, reported))
    ensures forall f :: f in Kept(all, reported) ==> f in all
  {
    forall f ensures f in Kept(all, reported) <==> f in all && f !in reported {
      KeptMember(all, reported, f);
    }
  }

  lemma LostMore(all: seq<Fence>, now: seq<Fence>, back: set<Fence>)
    requires forall f :: f in now ==> f in all
    ensures Lost(all, now) + Finished(now, back) == Lost(all, Kept(now, back))
    ensures forall f :: f in Kept(now, back) ==> f in all
  {
    FinishedIsLost(now, back);
  }

  lemma KeptThroughOne(all: seq<Fence>, reported: set<Fence>, freezes: seq<set<Fence>>)
    ensures KeptThrough(Kept(all, reported), freezes[0..]) == KeptThrough(all, [reported] + freezes)
  {
    assert ([reported] + freezes)[1..] == freezes && freezes[0..] == freezes;
  }

  lemma KeptThroughStep(now: seq<Fence>, freezes: seq<set<Fence>>, i: nat)
    requires i < |freezes|
    ensures KeptThrough(now, freezes[i..]) == KeptThrough(Kept(now, freezes[i]), freezes[i + 1..])
  {
    assert freezes[i..][1..] == freezes[i + 1..];
  }

  lemma {:induction false} KeptThroughEnd(now: seq<Fence>, freezes: seq<set<Fence>>, i: nat)
    requires i <= |freezes|
    ensures now == [] || i == |freezes| ==> KeptThrough(now, freezes[i..]) == now
    decreases |freezes| - i
  {
    if i == |freezes| {
    } else {
      KeptThroughStep(now, freezes, i);
      KeptThroughEnd(now, freezes, i + 1);
    }
  }

  lemma SleepSteps(s: State, back: set<Fence>)
    requires s.pc == Scan(|s.processList|) && s.canFreeze && s.processList != []
    ensures Run(s, [EndScan(true, false)] + [Report(back)])
            == s.(pc := Scan(0), reported := back, everReported := s.everReported + back)
  {
    RunAppend(s, [EndScan(true, false)], [Report(back)]);
  }

  /** A fence is left exactly if it was there and no report has had it. */
  lemma {:induction false} KeptThroughMember(s: seq<Fence>, reports: seq<set<Fence>>, f: Fence)
    ensures f in KeptThrough(s, reports) <==> f in s && forall k :: 0 <= k < |reports| ==> f !in reports[k]
    decreases |reports|
  {
    if reports == [] {
    } else {
      KeptMember(s, reports[0], f);
      KeptThroughMember(Kept(s, reports[0]), reports[1..], f);
      assert reports == [reports[0]] + reports[1..];
    }
  }

  lemma LostThrough(all: seq<Fence>, reports: seq<set<Fence>>, f: Fence)
    ensures f in Lost(all, KeptThrough(all, reports)) <==> f in all && exists k :: 0 <= k < |reports| && f in reports[k]
  {
    KeptThroughMember(all, reports, f);
  }

  /** What is left keeps its order. */
  lemma {:induction false} KeptKeepsOrder(s: seq<Fence>, reported: set<Fence>, i: nat, j: nat) returns (p: nat, q: nat)
    requires i < j < |Kept(s, reported)|
    ensures p < q < |s| && s[p] == Kept(s, reported)[i] && s[q] == Kept(s, reported)[j]
  {
    if s[0] in reported {
      p, q := KeptKeepsOrder(s[1..], reported, i, j);
      p, q := p + 1, q + 1;
    } else if i > 0 {
      p, q := KeptKeepsOrder(s[1..], reported, i - 1, j - 1);
      p, q := p + 1, q + 1;
    } else {
      KeptMember(s[1..], reported, Kept(s[1..], reported)[j - 1]);
      var k :| 0 <= k < |s[1..]| && s[1..][k] == Kept(s[1..], reported)[j - 1];
      p, q := 0, k + 1;
    }
  }

  lemma KeptThroughNothing(s: seq<Fence>, reports: seq<set<Fence>>)
    ensures KeptThrough(s, reports[..0]) == s
  {
  }

  lemma LostNothing(s: seq<Fence>)
    ensures Lost(s, s) == {}
  {
  }

  lemma {:induction false} KeptThroughLast(s: seq<Fence>, reports: seq<set<Fence>>, back: set<Fence>)
    ensures KeptThrough(s, reports + [back]) == Kept(KeptThrough(s, reports), back)
    decreases |reports|
  {
    if reports == [] {
      assert [back][1..] == [] && [] + [back] == [back];
    } else {
      assert (reports + [back])[1..] == reports[1..] + [back];
      KeptThroughLast(Kept(s, reports[0]), reports[1..], back);
    }
  }

  lemma KeptOnce(s: seq<Fence>, back: set<Fence>)
    ensures KeptThrough(s, [back] + []) == Kept(s, back)
  {
    assert [back] + [] == [back] && [back][1..] == [];
  }

  /** One more round: what is left, and what has gone. */
  lemma OneRound(all: seq<Fence>, reports: seq<set<Fence>>, i: nat)
    requires i < |reports|
    ensures var now, next := KeptThrough(all, reports[..i]), KeptThrough(all, reports[..i + 1]);
            next == Kept(now, reports[i]) && Lost(all, now) + Lost(now, next) == Lost(all, next)
  {
    var now := KeptThrough(all, reports[..i]);
    assert reports[..i + 1] == reports[..i] + [reports[i]];
    KeptThroughLast(all, reports[..i], reports[i]);
    forall f ensures f in now ==> f in all {
      KeptThroughMember(all, reports[..i], f);
    }
    FinishedIsLost(now, reports[i]);
    LostMore(all, now, reports[i]);
  }
}
