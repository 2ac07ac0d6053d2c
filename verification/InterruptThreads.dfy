/** Threads that enable and disable interrupts as a whole, while others make requests.

  Enabling and disabling test the mark before they take the lock and do not test it again.
  Each thread is therefore two steps: the test, and the locked part. A locked part is stale
  if the test would no longer let it through. A run is any sequence of actions; an action that
  is not possible has no effect. The steps of installing and removing the interrupt are actions
  as well.

  The history variables say which requests are still in force. They are not in the driver.
*/
module InterruptThreads {
  import opened BitMasks
  import opened InterruptMask

  type Thread = nat

  datatype Machine = Machine(
    chip: State,
    ready: map<Thread, bool>,  // threads past the test, and whether they are going to enable
    everOff: bool,             // history: interrupts have been disabled as a whole since installation
    issued: seq<Call>,         // history: the requests since installation
    origin: bv32,              // history: the mask that the heeded requests started from
    heeded: seq<Call>,         // history: the requests that have not been undone
    cut: nat)                  // history: how many of these precede the last enabling as a whole

  datatype Action =
    | Issue(call: Call)
    | Test(thread: Thread, on: bool)
    | LockedPart(thread: Thread)
    | Preinstall
    | Postinstall
    | Mark
    | Unmark
    | Clear

  /** Before the interrupt is installed. */
  function New(s: State): Machine {
    Machine(s.(enabled := false), map[], false, [], 0, [], 0)
  }

  function Upto(calls: seq<Call>, n: nat): seq<Call> {
    if n <= |calls| then calls[..n] else calls
  }

  function EnableTail(m: Machine): Machine {
    var m := m.(chip := EnableLocked(m.chip),
                heeded := if m.chip.enabled then Upto(m.heeded, m.cut) else m.heeded);
    m.(cut := |m.heeded|)
  }

  function DisableTail(m: Machine): Machine {
    if m.chip.enabled then m.(chip := DisableLocked(m.chip), everOff := true)
    else m.(chip := DisableLocked(m.chip), everOff := true, origin := INT_FENCE, heeded := [], cut := 0)
  }

  function Take(m: Machine, a: Action): Machine {
    match a
    case Issue(c) => m.(chip := Request(m.chip, c), issued := m.issued + [c], heeded := m.heeded + [c])
    case Test(t, on) => if t in m.ready || m.chip.enabled == on then m else m.(ready := m.ready[t := on])
    case LockedPart(t) =>
      if t !in m.ready then m
      else if m.ready[t] then EnableTail(m.(ready := m.ready - {t}))
      else DisableTail(m.(ready := m.ready - {t}))
    case Preinstall => m.(chip := m.chip.(hardware := 0))
    case Postinstall => m.(chip := m.chip.(hardware := On(DEF_INTR, m.chip.saved)))
    case Mark =>
      m.(chip := m.chip.(enabled := true), everOff := false, issued := [], origin := m.chip.hardware, heeded := [], cut := 0)
    case Unmark => m.(chip := m.chip.(enabled := false))
    case Clear => m.(chip := m.chip.(hardware := 0))
  }

  function After(m: Machine, actions: seq<Action>): Machine {
    if actions == [] then m else Take(After(m, actions[..|actions| - 1]), actions[|actions| - 1])
  }

  /** The interrupt stays installed. */
  predicate Serving(actions: seq<Action>) {
    forall k :: 0 <= k < |actions| ==> actions[k].Issue? || actions[k].Test? || actions[k].LockedPart?
  }

  /** Somebody else has been faster since the test. */
  predicate Stale(m: Machine, a: Action) {
    a.LockedPart? && a.thread in m.ready && m.ready[a.thread] == m.chip.enabled
  }

  predicate NoneStale(m: Machine, actions: seq<Action>) {
    actions != [] ==>
      && NoneStale(m, actions[..|actions| - 1])
      && !Stale(After(m, actions[..|actions| - 1]), actions[|actions| - 1])
  }

  /** All requests of a run, in order. */
  function Requests(actions: seq<Action>): seq<Call> {
    if actions == [] then []
    else
      var before, a := Requests(actions[..|actions| - 1]), actions[|actions| - 1];
      if a.Issue? then before + [a.call] else before
  }

  /** The interrupt has just been installed, by the steps that install it. */
  function Start(s: State): Machine {
    After(New(s), [Preinstall] + [Postinstall] + [Mark])
  }

  lemma Then(m: Machine, actions: seq<Action>, a: Action)
    ensures After(m, actions + [a]) == Take(After(m, actions), a)
  {
    assert (actions + [a])[..|actions|] == actions;
  }

  lemma One(m: Machine, a: Action)
    ensures After(m, [a]) == Take(m, a)
  {
    assert [a][..0] == [] && After(m, []) == m;
  }

  lemma StartIs(s: State)
    ensures Start(s) == Machine(Installed(s), map[], false, [], On(DEF_INTR, s.saved), [], 0)
  {
    Then(New(s), [Preinstall] + [Postinstall], Mark);
    Then(New(s), [Preinstall], Postinstall);
    One(New(s), Preinstall);
  }

  // The invariant.

  ghost predicate Inv(m: Machine) {
    && m.cut <= |m.heeded|
    && Has(m.origin, INT_FENCE)
    && Logical(m.chip) == Wanted(m.origin, m.heeded)
    && (!m.chip.enabled ==> m.chip.hardware == 0 && m.everOff)
    && (m.chip.enabled && m.everOff ==> m.chip.saved == Wanted(m.origin, m.heeded[..m.cut]))
    && (!m.everOff ==> m.cut == 0 && m.origin == On(DEF_INTR, m.chip.saved))
    && (forall t :: t in m.ready && m.ready[t] ==> m.everOff)
  }

  lemma StartHolds(s: State)
    ensures Inv(Start(s))
  {
    StartIs(s);
    DefaultsStay(s.saved);
    hide On, Has;
  }

  lemma FenceStays(m: Machine)
    requires Inv(m)
    ensures Has(Logical(m.chip), INT_FENCE)
    ensures m.chip.enabled && m.everOff ==> Has(m.chip.saved, INT_FENCE)
  {
    hide Has, Wanted;
    DefaultsStay(0);
    WantedSpares(m.origin, m.heeded, INT_FENCE);
    WantedSpares(m.origin, m.heeded[..m.cut], INT_FENCE);
  }

  lemma WantedOneMore(mask: bv32, calls: seq<Call>, c: Call)
    ensures Wanted(mask, calls + [c]) == Apply(Wanted(mask, calls), c)
  {
    assert (calls + [c])[..|calls|] == calls;
  }

  lemma IssueHolds(m: Machine, c: Call)
    requires Inv(m)
    ensures Inv(Take(m, Issue(c)))
  {
    hide Has, Apply, Wanted;
    WantedOneMore(m.origin, m.heeded, c);
    assert (m.heeded + [c])[..m.cut] == m.heeded[..m.cut];
  }

  /** Enabling late takes the mask back to what it was when interrupts were last enabled. */
  lemma EnableHolds(m: Machine)
    requires Inv(m) && m.everOff
    ensures Inv(EnableTail(m))
    ensures Logical(EnableTail(m).chip) ==
            if m.chip.enabled then Wanted(m.origin, m.heeded[..m.cut]) else Logical(m.chip)
  {
    FenceStays(m);
    hide Has, Wanted, On;
    OnTwice(m.chip.saved, INT_FENCE);
    assert m.heeded[..|m.heeded|] == m.heeded;
    assert m.heeded[..m.cut][..m.cut] == m.heeded[..m.cut];
  }

  /** Disabling late leaves nothing but the fence interrupt. */
  lemma DisableHolds(m: Machine)
    requires Inv(m)
    ensures Inv(DisableTail(m))
    ensures Logical(DisableTail(m).chip) == if m.chip.enabled then Logical(m.chip) else INT_FENCE
  {
    FenceStays(m);
    DefaultsStay(0);
    assert On(0, INT_FENCE) == INT_FENCE;
    hide Has, On;
    if m.chip.enabled { OnTwice(m.chip.hardware, INT_FENCE); }
  }

  lemma TakeHolds(m: Machine, a: Action)
    requires Inv(m) && Serving([a])
    ensures Inv(Take(m, a))
  {
    hide Has, Wanted, On;
    assert [a][0] == a;
    match a
    case Issue(c) => IssueHolds(m, c);
    case Test(_, _) =>
    case LockedPart(t) =>
      if t in m.ready {
        if m.ready[t] { EnableHolds(m.(ready := m.ready - {t})); } else { DisableHolds(m.(ready := m.ready - {t})); }
      }
  }

  lemma {:induction false} RunHolds(m: Machine, actions: seq<Action>)
    requires Inv(m) && Serving(actions)
    ensures Inv(After(m, actions))
  {
    hide Inv, Take;
    if actions == [] {
    } else {
      var n := |actions| - 1;
      RunHolds(m, actions[..n]);
      TakeHolds(After(m, actions[..n]), actions[n]);
    }
  }

  /** Without a stale locked part no request is undone. */
  lemma {:induction false} NothingUndone(m: Machine, actions: seq<Action>)
    requires Inv(m) && Serving(actions) && NoneStale(m, actions)
    ensures var n := After(m, actions);
            && Inv(n) && n.origin == m.origin
            && n.heeded == m.heeded + Requests(actions) && n.issued == m.issued + Requests(actions)
  {
    hide Inv, Take, Stale;
    if actions == [] {
    } else {
      var n := |actions| - 1;
      NothingUndone(m, actions[..n]);
      TakeHolds(After(m, actions[..n]), actions[n]);
      StepUndoesNothing(After(m, actions[..n]), actions[n]);
      var a := if actions[n].Issue? then [actions[n].call] else [];
      assert Requests(actions) == Requests(actions[..n]) + a;
      assert m.heeded + (Requests(actions[..n]) + a) == (m.heeded + Requests(actions[..n])) + a;
      assert m.issued + (Requests(actions[..n]) + a) == (m.issued + Requests(actions[..n])) + a;
    }
  }

  lemma StepUndoesNothing(m: Machine, a: Action)
    requires Serving([a]) && !Stale(m, a)
    ensures var n, extra := Take(m, a), if a.Issue? then [a.call] else [];
            n.origin == m.origin && n.heeded == m.heeded + extra && n.issued == m.issued + extra
  {
    assert [a][0] == a;
  }

  // What holds for every run.

  /** In every interleaving, stale parts included, the mask is what the requests in force make of
    its origin, and the fence interrupt is on. */
  lemma MaskIsHeeded(s: State, actions: seq<Action>)
    requires Serving(actions)
    ensures var m := After(Start(s), actions);
            && Logical(m.chip) == Wanted(m.origin, m.heeded)
            && Has(Logical(m.chip), INT_FENCE)
            && (!m.chip.enabled ==> m.chip.hardware == 0)
  {
    StartHolds(s);
    RunHolds(Start(s), actions);
    FenceStays(After(Start(s), actions));
  }

  /** If no locked part is stale, these are all requests from the installed mask on: the mask is
    what was asked for, wherever it lives, and every default interrupt is on. */
  lemma MaskIsWanted(s: State, actions: seq<Action>)
    requires Serving(actions) && NoneStale(Start(s), actions)
    ensures var m := After(Start(s), actions);
            && Logical(m.chip) == Wanted(On(DEF_INTR, s.saved), Requests(actions))
            && Has(Logical(m.chip), DEF_INTR)
  {
    StartHolds(s);
    StartIs(s);
    NothingUndone(Start(s), actions);
    hide After, Start, Has, Wanted;
    assert [] + Requests(actions) == Requests(actions);
    DefaultsStay(s.saved);
    WantedSpares(On(DEF_INTR, s.saved), Requests(actions), DEF_INTR);
  }

  /** Every single interrupt is then on exactly if the last request about it turned it on. */
  lemma LastRequestWins(s: State, actions: seq<Action>, b: bv32)
    requires Serving(actions) && NoneStale(Start(s), actions) && OneBit(b)
    ensures Has(Logical(After(Start(s), actions).chip), b)
            <==> LastRequest(Has(On(DEF_INTR, s.saved), b), Requests(actions), b)
  {
    MaskIsWanted(s, actions);
    WantedFollowsLast(On(DEF_INTR, s.saved), Requests(actions), b);
  }

  /** The four pipes do not disturb each other, and hot-plug requests do not disturb them. */
  lemma VblankFollowsLastRequest(s: State, actions: seq<Action>, p: nat)
    requires Serving(actions) && NoneStale(Start(s), actions) && p < 4
    ensures Has(Logical(After(Start(s), actions).chip), VsyncBit(p))
            <==> LastVblank(Has(On(DEF_INTR, s.saved), VsyncBit(p)), Requests(actions), p)
  {
    hide Has, OneBit, VsyncBit;
    VsyncBitOf(p, EnableVblank(p));
    LastRequestWins(s, actions, VsyncBit(p));
    VblankIsRequest(Has(On(DEF_INTR, s.saved), VsyncBit(p)), Requests(actions), p);
  }

  /** A hot-plug interrupt is on exactly if the last hot-plug request with it in its argument turned it on. */
  lemma HotPlugFollowsLastRequest(s: State, actions: seq<Action>, b: bv32)
    requires Serving(actions) && NoneStale(Start(s), actions) && OneBit(b) && Has(INT_HOTPLUG, b)
    ensures Has(Logical(After(Start(s), actions).chip), b)
            <==> LastHotPlug(Has(On(DEF_INTR, s.saved), b), Requests(actions), b)
  {
    hide Has, OneBit;
    LastRequestWins(s, actions, b);
    HotPlugIsRequest(Has(On(DEF_INTR, s.saved), b), Requests(actions), b);
  }

  // Stale locked parts.

  /** A stale disable leaves nothing but the fence interrupt, and so always loses the mask. */
  lemma StaleDisableLosesMask(s: State, actions: seq<Action>, t: Thread)
    requires Serving(actions)
    requires var m := After(Start(s), actions); Stale(m, LockedPart(t)) && !m.ready[t]
    ensures var m := After(Start(s), actions);
            && Logical(Take(m, LockedPart(t)).chip) == INT_FENCE
            && (NoneStale(Start(s), actions) ==> Logical(m.chip) != INT_FENCE)
  {
    StartHolds(s);
    RunHolds(Start(s), actions);
    var m := After(Start(s), actions);
    DisableHolds(m.(ready := m.ready - {t}));
    DefaultsStay(0);
    if NoneStale(Start(s), actions) {
      MaskIsWanted(s, actions);
    }
    hide Has;
  }

  /** A stale enable undoes the requests since interrupts were last enabled. It keeps the mask exactly
    if the last of these about each interrupt, if any, has left it as it was then. */
  lemma StaleEnableKeepsMaskIff(s: State, actions: seq<Action>, t: Thread)
    requires Serving(actions)
    requires var m := After(Start(s), actions); Stale(m, LockedPart(t)) && m.ready[t]
    ensures var m := After(Start(s), actions);
            && m.cut <= |m.heeded|
            && Logical(Take(m, LockedPart(t)).chip) == Wanted(m.origin, m.heeded[..m.cut])
            && (Logical(Take(m, LockedPart(t)).chip) == Logical(m.chip)
                <==> forall b :: OneBit(b) ==>
                       LastRequest(Has(m.origin, b), m.heeded, b) == LastRequest(Has(m.origin, b), m.heeded[..m.cut], b))
  {
    StartHolds(s);
    RunHolds(Start(s), actions);
    var m := After(Start(s), actions);
    EnableHolds(m.(ready := m.ready - {t}));
    SameWantedIff(m.origin, m.heeded, m.heeded[..m.cut]);
    hide Has, OneBit, After;
  }

  /** Two threads that both pass the test and then disable. */
  function TwoDisables(): seq<Action> {
    [Test(1, false)] + [Test(2, false)] + [LockedPart(1)] + [LockedPart(2)]
  }

  lemma TwoTests(s: State)
    ensures After(Start(s), [Test(1, false)] + [Test(2, false)])
            == Machine(Installed(s), map[1 := false, 2 := false], false, [], On(DEF_INTR, s.saved), [], 0)
  {
    hide On;
    StartIs(s);
    One(Start(s), Test(1, false));
    Then(Start(s), [Test(1, false)], Test(2, false));
  }

  lemma TwoDisablesLoseMask(s: State)
    ensures Serving(TwoDisables())
    ensures Logical(After(Start(s), TwoDisables()).chip) == INT_FENCE
    ensures Logical(After(Start(s), TwoDisables()).chip) != Logical(Start(s).chip)
  {
    TwoTests(s);
    StartIs(s);
    hide On, Has, Start;
    var m := Start(s);
    Then(m, [Test(1, false)] + [Test(2, false)], LockedPart(1));
    Then(m, [Test(1, false)] + [Test(2, false)] + [LockedPart(1)], LockedPart(2));
    hide After;
    OnNothing(INT_FENCE);
    DefaultsStay(s.saved);
    OnCommutes(0, INT_FENCE);
  }

  lemma OnCommutes(x: bv32, y: bv32)
    ensures On(x, y) == On(y, x)
  {
  }

  /** One thread disables, and two pass the test for enabling; one of them goes on. */
  function TwoEnables(): seq<Action> {
    [Test(1, false)] + [LockedPart(1)] + [Test(2, true)] + [Test(3, true)] + [LockedPart(2)]
  }

  lemma SwitchOff(s: State)
    ensures var start := On(DEF_INTR, s.saved);
            After(Start(s), [Test(1, false)] + [LockedPart(1)]) == Machine(State(0, start, false), map[], true, [], start, [], 0)
  {
    hide On, Has;
    StartIs(s);
    One(Start(s), Test(1, false));
    Then(Start(s), [Test(1, false)], LockedPart(1));
    DefaultsStay(s.saved);
    OnTwice(On(DEF_INTR, s.saved), INT_FENCE);
    assert map[1 := false] - {1} == map[];
  }

  lemma OffAndTwoTests(s: State)
    ensures var start := On(DEF_INTR, s.saved);
            After(Start(s), [Test(1, false)] + [LockedPart(1)] + [Test(2, true)] + [Test(3, true)])
            == Machine(State(0, start, false), map[2 := true, 3 := true], true, [], start, [], 0)
  {
    SwitchOff(s);
    hide On, After, Start;
    Then(Start(s), [Test(1, false)] + [LockedPart(1)], Test(2, true));
    Then(Start(s), [Test(1, false)] + [LockedPart(1)] + [Test(2, true)], Test(3, true));
  }

  lemma TwoEnablesLeaveOne(s: State)
    ensures var start := On(DEF_INTR, s.saved);
            After(Start(s), TwoEnables()) == Machine(State(start, start, true), map[3 := true], true, [], start, [], 0)
  {
    OffAndTwoTests(s);
    hide On, Has, After, Start;
    Then(Start(s), [Test(1, false)] + [LockedPart(1)] + [Test(2, true)] + [Test(3, true)], LockedPart(2));
    DefaultsStay(s.saved);
    OnTwice(On(DEF_INTR, s.saved), INT_FENCE);
    assert map[2 := true, 3 := true] - {2} == map[3 := true];
  }

  /** A vertical-blank request that comes before the other one goes on is lost. */
  lemma LateEnableLosesRequest(s: State)
    requires !Has(On(DEF_INTR, s.saved), INT_VSYNC1)
    ensures Serving(TwoEnables() + [Issue(EnableVblank(0))] + [LockedPart(3)])
    ensures Has(Logical(After(Start(s), TwoEnables() + [Issue(EnableVblank(0))]).chip), INT_VSYNC1)
    ensures !Has(Logical(After(Start(s), TwoEnables() + [Issue(EnableVblank(0))] + [LockedPart(3)]).chip), INT_VSYNC1)
  {
    TwoEnablesLeaveOne(s);
    hide On, Has, OneBit, After, Start;
    var start := On(DEF_INTR, s.saved);
    Then(Start(s), TwoEnables(), Issue(EnableVblank(0)));
    Then(Start(s), TwoEnables() + [Issue(EnableVblank(0))], LockedPart(3));
    DefaultsStay(s.saved);
    OnTwice(start, INT_FENCE);
    VsyncBitOf(0, EnableVblank(0));
    ApplyBit(start, EnableVblank(0), INT_VSYNC1);
  }

  // Installing and removing.

  function Reinstall(): seq<Action> {
    [Unmark] + [Clear] + [Preinstall] + [Postinstall] + [Mark]
  }

  lemma ReinstallIs(m: Machine)
    ensures After(m, Reinstall()).chip == State(On(DEF_INTR, m.chip.saved), m.chip.saved, true)
  {
    Then(m, [Unmark] + [Clear] + [Preinstall] + [Postinstall], Mark);
    Then(m, [Unmark] + [Clear] + [Preinstall], Postinstall);
    Then(m, [Unmark] + [Clear], Preinstall);
    Then(m, [Unmark], Clear);
    One(m, Unmark);
  }

  /** Removing and installing again undoes the requests since interrupts were last enabled, or since the
    installation if they were never off. It keeps the mask exactly if interrupts are off, or if the last
    of these requests about each interrupt, if any, has left it as it was. */
  lemma ReinstallKeepsMaskIff(s: State, actions: seq<Action>)
    requires Serving(actions) && NoneStale(Start(s), actions)
    ensures var start, m := On(DEF_INTR, s.saved), After(Start(s), actions);
            var n := After(m, Reinstall());
            && m.heeded == Requests(actions) && m.cut <= |Requests(actions)|
            && Logical(n.chip) == Wanted(start, if m.chip.enabled then Requests(actions)[..m.cut] else Requests(actions))
            && (Logical(n.chip) == Logical(m.chip)
                <==> !m.chip.enabled || forall b :: OneBit(b) ==>
                       LastRequest(Has(start, b), Requests(actions), b)
                       == LastRequest(Has(start, b), Requests(actions)[..m.cut], b))
  {
    hide Has, On, OneBit, Wanted, LastRequest;
    StartHolds(s);
    StartIs(s);
    NothingUndone(Start(s), actions);
    MaskIsWanted(s, actions);
    var start, m := On(DEF_INTR, s.saved), After(Start(s), actions);
    hide After, Start;
    assert [] + Requests(actions) == Requests(actions);
    ReinstallIs(m);
    SameWantedIff(start, Requests(actions), Requests(actions)[..m.cut]);
    DefaultsStay(s.saved);
    WantedSpares(start, Requests(actions)[..m.cut], DEF_INTR);
    if m.everOff {
      OnCommutes(DEF_INTR, m.chip.saved);
      OnTwice(m.chip.saved, DEF_INTR);
    } else {
      assert Requests(actions)[..0] == [];
      WantedNothing(start);
    }
  }

  lemma WantedNothing(mask: bv32)
    ensures Wanted(mask, []) == mask
  {
  }

  /** One request is enough to lose something that way. */
  lemma ReinstallLosesRequest(s: State)
    requires !Has(On(DEF_INTR, s.saved), INT_VSYNC1)
    ensures var m := After(Start(s), [Issue(EnableVblank(0))]);
            Has(Logical(m.chip), INT_VSYNC1) && !Has(Logical(After(m, Reinstall()).chip), INT_VSYNC1)
  {
    hide On, Has, OneBit;
    StartIs(s);
    One(Start(s), Issue(EnableVblank(0)));
    ReinstallIs(After(Start(s), [Issue(EnableVblank(0))]));
    VsyncBitOf(0, EnableVblank(0));
    ApplyBit(On(DEF_INTR, s.saved), EnableVblank(0), INT_VSYNC1);
  }

  function Issues(calls: seq<Call>): seq<Action> {
    seq(|calls|, k requires 0 <= k < |calls| => Issue(calls[k]))
  }

  /** Requests while the interrupt is not marked go to the saved word only. */
  lemma {:induction false} UnmarkedIssues(m: Machine, calls: seq<Call>)
    requires !m.chip.enabled
    ensures After(m, Issues(calls)).chip == m.chip.(saved := Wanted(m.chip.saved, calls))
  {
    hide Apply;
    if calls == [] {
    } else {
      var n := |calls| - 1;
      UnmarkedIssues(m, calls[..n]);
      assert Issues(calls)[..n] == Issues(calls[..n]);
    }
  }

  lemma {:induction false} AfterAppend(m: Machine, x: seq<Action>, y: seq<Action>)
    ensures After(m, x + y) == After(After(m, x), y)
  {
    hide Take;
    if y == [] {
      assert x + y == x;
    } else {
      var n := |y| - 1;
      AfterAppend(m, x, y[..n]);
      assert (x + y)[..|x + y| - 1] == x + y[..n];
    }
  }

  /** Requests between setting the hardware mask and the mark have no effect once installed. They do no
    harm exactly if the last of them about each interrupt asks for what is installed anyway. */
  lemma RequestsDuringInstallKeptIff(s: State, calls: seq<Call>)
    ensures var start := On(DEF_INTR, s.saved);
            var m := After(New(s), [Preinstall] + [Postinstall] + Issues(calls) + [Mark]);
            && m.chip == State(start, Wanted(s.saved, calls), true)
            && (Logical(m.chip) == Wanted(start, calls)
                <==> forall b :: OneBit(b) ==> LastRequest(Has(start, b), calls, b) == Has(start, b))
  {
    hide On, Has, OneBit, Wanted;
    var start, half := On(DEF_INTR, s.saved), [Preinstall] + [Postinstall];
    Then(New(s), half + Issues(calls), Mark);
    AfterAppend(New(s), half, Issues(calls));
    Then(New(s), [Preinstall], Postinstall);
    One(New(s), Preinstall);
    UnmarkedIssues(After(New(s), half), calls);
    SameWantedIff(start, calls, []);
    WantedNothing(start);
  }

  /** A single one can be lost that way. */
  lemma RequestDuringInstallIsLost(s: State)
    requires !Has(On(DEF_INTR, s.saved), INT_VSYNC1)
    ensures var m := After(New(s), [Preinstall] + [Postinstall] + Issues([EnableVblank(0)]) + [Mark]);
            !Has(Logical(m.chip), INT_VSYNC1)
  {
    hide On, Has;
    RequestsDuringInstallKeptIff(s, [EnableVblank(0)]);
  }
}
