/** Threads that ask for video sequence indices, give them back and destroy devices at the same time.

  The functions of the driver take no lock. Each is therefore several steps here: a query looks at
  the slot under the shared start index, then stores into it, or counts the start index up and
  wraps it around; a return clears the mark and then the bit of the device; destroying a device
  goes bit by bit. A run is any sequence of actions; an action that is not possible has no effect.

  A step that would write behind the arrays changes nothing here.
*/
module VideoSeqThreads {
  import opened Basics
  import opened VideoSeqIndex

  type Thread = nat

  const END := MAX_VIDEO_SEQ_INDEX_ADD1

  /** Where a thread is; rounds is how often its query has come round. */
  datatype Pc =
    | Idle
    | Looking(handle: Handle, rounds: nat)
    | Storing(handle: Handle, rounds: nat)    // it has seen the slot free
    | Moving                                  // it has stored for a device
    | Counting(handle: Handle, rounds: nat)   // it has seen the slot taken
    | Wrapping(handle: Handle, rounds: nat)
    | Clearing(index: nat, handle: Handle)    // it has cleared the mark of an index that is given back
    | Removing(handle: Handle, next: nat)     // it destroys a device and has come to this index

  datatype Outcome = Got(index: nat) | Failed | Nothing

  datatype Machine = Machine(
    start: nat,
    taken: seq<bool>,
    bitmaps: map<Handle, Bitmap>,
    pcs: map<Thread, Pc>,
    unowned: set<int>,            // history: handed out on an unknown handle and not given back
    out: seq<nat>,                // history: how often each index is handed out and not taken back
    last: map<Thread, Outcome>)   // history: how the last query of each thread has ended

  datatype Action =
    | AddDevice(thread: Thread, handle: Handle)
    | Ask(thread: Thread, handle: Handle)
    | GiveBack(thread: Thread, index: int, handle: Handle)
    | Remove(thread: Thread, handle: Handle)
    | Go(thread: Thread)          // the next step of whatever the thread is doing

  function New(): Machine {
    Machine(MIN_VIDEO_SEQ_INDEX, seq(END, _ => false), map[], map[], {}, seq(END, _ => 0), map[])
  }

  function PcOf(m: Machine, t: Thread): Pc {
    if t in m.pcs then m.pcs[t] else Idle
  }

  function At(m: Machine, t: Thread, pc: Pc): Machine {
    m.(pcs := m.pcs[t := pc])
  }

  function Ends(m: Machine, t: Thread, o: Outcome): Machine {
    At(m, t, Idle).(last := m.last[t := o])
  }

  ghost predicate WellFormed(m: Machine) {
    && |m.taken| == |m.out| == END
    && (forall h :: h in m.bitmaps ==> |m.bitmaps[h]| == BITMAP_BYTES)
  }

  function Less(n: nat): nat {
    if n > 0 then n - 1 else 0
  }

  /** The flag, the owner and the count of the slot under the start index. */
  function Filled(m: Machine, h: Handle): (n: Machine)
    requires WellFormed(m) && m.start < END
    ensures WellFormed(n) && n.pcs == m.pcs && n.last == m.last && n.start == m.start
  {
    var k := m.start;
    var m := m.(taken := m.taken[k := true], out := m.out[k := m.out[k] + 1]);
    if h in m.bitmaps then m.(bitmaps := m.bitmaps[h := Added(m.bitmaps[h], k)])
    else m.(unowned := m.unowned + {k})
  }

  function StoreStep(m: Machine, t: Thread, h: Handle): Machine
    requires WellFormed(m)
  {
    var n := Ends(if m.start < END then Filled(m, h) else m, t, Got(m.start));
    if h in m.bitmaps then At(n, t, Moving) else n
  }

  function WrapStep(m: Machine, t: Thread, h: Handle, rounds: nat): Machine {
    var r := if m.start == END then rounds + 1 else rounds;
    var m := if m.start == END then m.(start := MIN_VIDEO_SEQ_INDEX) else m;
    if r == 2 then Ends(m, t, Failed) else At(m, t, Looking(h, r))
  }

  function ClearStep(m: Machine, t: Thread, k: nat, h: Handle): Machine
    requires WellFormed(m)
  {
    var m := At(m, t, Idle);
    if h in m.bitmaps && k < END then m.(bitmaps := m.bitmaps[h := VideoSeqIndex.Removed(m.bitmaps[h], k)]) else m
  }

  /** The index i of a device goes, and with the last bit of a byte the byte. */
  function DropIndex(m: Machine, h: Handle, i: nat): (n: Machine)
    requires WellFormed(m) && h in m.bitmaps && i < END
    ensures WellFormed(n) && n.pcs == m.pcs && n.last == m.last && n.start == m.start
    ensures forall k :: 0 <= k < END ==> n.out[k] <= m.out[k]
  {
    var b := m.bitmaps[h];
    var m := if HasIndex(b, i) then m.(taken := m.taken[i := false], out := m.out[i := Less(m.out[i])]) else m;
    if i % 8 == 7 then m.(bitmaps := m.bitmaps[h := b[i / 8 := 0]]) else m
  }

  function RemoveStep(m: Machine, t: Thread, h: Handle, i: nat): Machine
    requires WellFormed(m)
  {
    if h !in m.bitmaps then At(m, t, Idle)
    else if i < END then At(DropIndex(m, h, i), t, Removing(h, i + 1))
    else At(m.(bitmaps := m.bitmaps - {h}), t, Idle)
  }

  function GoStep(m: Machine, t: Thread): Machine
    requires WellFormed(m)
  {
    match PcOf(m, t)
    case Idle => m
    case Looking(h, r) =>
      if m.start >= END then Ends(m, t, Nothing)
      else At(m, t, if m.taken[m.start] then Counting(h, r) else Storing(h, r))
    case Storing(h, _) => StoreStep(m, t, h)
    case Moving => At(m.(start := (m.start + 1) % END), t, Idle)
    case Counting(h, r) => At(m.(start := m.start + 1), t, Wrapping(h, r))
    case Wrapping(h, r) => WrapStep(m, t, h, r)
    case Clearing(k, h) => ClearStep(m, t, k, h)
    case Removing(h, i) => RemoveStep(m, t, h, i)
  }

  function Take(m: Machine, a: Action): Machine
    requires WellFormed(m)
  {
    if a.Go? then GoStep(m, a.thread)
    else if !PcOf(m, a.thread).Idle? then m
    else
      match a
      case AddDevice(_, h) => if h in m.bitmaps then m else m.(bitmaps := m.bitmaps[h := Zeros()])
      case Ask(t, h) => At(m, t, Looking(h, 0))
      case GiveBack(t, k, h) =>
        if MIN_VIDEO_SEQ_INDEX <= k < END
        then At(m.(taken := m.taken[k := false], unowned := m.unowned - {k}, out := m.out[k := Less(m.out[k])]), t, Clearing(k, h))
        else m
      case Remove(t, h) => if h in m.bitmaps then At(m, t, Removing(h, 0)) else m
  }

  /** No action touches what the other threads are doing. */
  lemma OthersStay(m: Machine, a: Action, u: Thread)
    requires WellFormed(m) && u != a.thread
    ensures PcOf(Take(m, a), u) == PcOf(m, u)
  {
    hide HasIndex, Filled, DropIndex, VideoSeqIndex.Removed, GoStep;
    if a.Go? { GoStays(m, a.thread, u); }
  }

  lemma GoStays(m: Machine, t: Thread, u: Thread)
    requires WellFormed(m) && u != t
    ensures PcOf(GoStep(m, t), u) == PcOf(m, u)
  {
    hide HasIndex, Filled, DropIndex, VideoSeqIndex.Removed;
  }

  lemma GoIsWellFormed(m: Machine, t: Thread)
    requires WellFormed(m)
    ensures WellFormed(GoStep(m, t))
  {
    hide HasIndex, Filled, DropIndex;
  }

  lemma TakeIsWellFormed(m: Machine, a: Action)
    requires WellFormed(m)
    ensures WellFormed(Take(m, a))
  {
    hide HasIndex, Filled, DropIndex, GoStep;
    if a.Go? { GoIsWellFormed(m, a.thread); }
  }

  function After(m: Machine, actions: seq<Action>): (n: Machine)
    requires WellFormed(m)
    ensures WellFormed(n)
  {
    if actions == [] then m
    else
      var n := After(m, actions[..|actions| - 1]);
      TakeIsWellFormed(n, actions[|actions| - 1]);
      Take(n, actions[|actions| - 1])
  }

  lemma NewIsWellFormed()
    ensures WellFormed(New())
  {
  }

  lemma Then(m: Machine, actions: seq<Action>, a: Action)
    requires WellFormed(m)
    ensures After(m, actions + [a]) == Take(After(m, actions), a)
  {
    assert (actions + [a])[..|actions|] == actions;
  }

  lemma {:induction false} AfterAppend(m: Machine, x: seq<Action>, y: seq<Action>)
    requires WellFormed(m)
    ensures After(m, x + y) == After(After(m, x), y)
  {
    hide Take;
    if y == [] {
      assert x + y == x;
    } else {
      var n := |y| - 1;
      AfterAppend(m, x, y[..n]);
      assert (x + y)[..|x + y| - 1] == x + y[..n];
    }
  }

  // Ownership.

  /** What the threads share, without the start index, as a state of the serialised calls. */
  function Cells(m: Machine): State {
    State(0, m.taken, m.bitmaps, m.unowned)
  }

  /** The same once a thread at pc has finished. */
  function Settle(s: State, pc: Pc): State
    requires Shaped(s)
  {
    match pc
    case Clearing(k, h) =>
      if h in s.bitmaps && k < END then s.(bitmaps := s.bitmaps[h := VideoSeqIndex.Removed(s.bitmaps[h], k)]) else s
    case Removing(h, _) => Destroyed(s, h)
    case _ => s
  }

  lemma CellsAreShaped(m: Machine)
    requires WellFormed(m)
    ensures Shaped(Cells(m))
  {
  }

  /** A taken index is handed out once, a free one is not handed out. */
  ghost predicate Counted(m: Machine)
    requires WellFormed(m)
  {
    forall k :: 0 <= k < END ==> m.out[k] == if m.taken[k] then 1 else 0
  }

  /** In the middle of something that others must not see. */
  predicate Critical(pc: Pc) {
    pc.Storing? || pc.Clearing? || pc.Removing?
  }

  /** What such a thread relies on. */
  ghost predicate Window(m: Machine, pc: Pc)
    requires WellFormed(m)
  {
    && (pc.Storing? ==> m.start < END && !m.taken[m.start])
    && (pc.Removing? ==>
          && pc.next <= END && pc.handle in m.bitmaps
          && forall j :: 0 <= j < pc.next && HasIndex(m.bitmaps[pc.handle], j) ==> !m.taken[j])
  }

  /** Ownership is in order except for what thread t is doing, and no other thread is critical. */
  ghost predicate Focus(m: Machine, t: Thread) {
    && WellFormed(m)
    && (forall u :: u != t ==> !Critical(PcOf(m, u)))
    && Counted(m) && Window(m, PcOf(m, t))
    && Shaped(Cells(m)) && Inv(Settle(Cells(m), PcOf(m, t)))
  }

  /** Another thread is in the middle of something. */
  ghost predicate Disturbs(m: Machine, a: Action) {
    exists u :: u != a.thread && Critical(PcOf(m, u))
  }

  /** No action disturbs another thread, and indices are given back for the device that has them. */
  ghost predicate Undisturbed(m: Machine, actions: seq<Action>)
    requires WellFormed(m)
  {
    actions != [] ==>
      var n, a := After(m, actions[..|actions| - 1]), actions[|actions| - 1];
      && Undisturbed(m, actions[..|actions| - 1])
      && !Disturbs(n, a)
      && (a.GiveBack? ==> MayReturn(Cells(n), a.index, a.handle))
  }

  lemma StartDoesNotMatter(s: State, start: nat)
    requires Inv(s) && start < END
    ensures Inv(s.(start := start))
  {
    hide HasIndex;
    var t := s.(start := start);
    assert Shaped(t);
    forall k | 0 <= k < END ensures InvAt(t, k) {
      SameAt(s, t, k);
    }
  }

  lemma SameAt(s: State, t: State, k: nat)
    requires Shaped(s) && Shaped(t) && t == s.(start := t.start) && k < END && InvAt(s, k)
    ensures InvAt(t, k)
  {
    hide HasIndex;
    forall h ensures Owns(t, h, k) <==> Owns(s, h, k) {
    }
  }

  /** Storing into a free slot is a query that starts there. */
  lemma FilledIsQuery(m: Machine, h: Handle)
    requires WellFormed(m) && m.start < END && !m.taken[m.start]
    ensures Shaped(Cells(m).(start := m.start))
    ensures Cells(Filled(m, h)) == Queried(Cells(m).(start := m.start), h).(start := 0)
  {
    NextFreeStep(m.taken, m.start);
  }

  lemma StoreFocus(m: Machine, t: Thread)
    requires Focus(m, t) && PcOf(m, t).Storing?
    ensures WellFormed(Take(m, Go(t))) && Counted(Take(m, Go(t)))
    ensures Inv(Cells(Take(m, Go(t))))
  {
    var h := PcOf(m, t).handle;
    TakeIsWellFormed(m, Go(t));
    hide Inv, HasIndex, Added;
    FilledIsQuery(m, h);
    StartDoesNotMatter(Cells(m), m.start);
    NextKeeps(Cells(m).(start := m.start), Query(h));
    StartDoesNotMatter(Queried(Cells(m).(start := m.start), h), 0);
    assert Cells(Take(m, Go(t))) == Cells(Filled(m, h));
  }

  lemma GiveBackFocus(m: Machine, t: Thread, k: int, h: Handle)
    requires Focus(m, t) && PcOf(m, t).Idle? && MayReturn(Cells(m), k, h)
    ensures Focus(Take(m, GiveBack(t, k, h)), t)
  {
    var a := GiveBack(t, k, h);
    var n := Take(m, a);
    TakeIsWellFormed(m, a);
    hide Inv, HasIndex, VideoSeqIndex.Removed;
    NextKeeps(Cells(m), Return(k, h));
    CellsAreShaped(n);
    forall u | u != t ensures PcOf(n, u) == PcOf(m, u) { OthersStay(m, a, u); }
    assert Settle(Cells(n), PcOf(n, t)) == Next(Cells(m), Return(k, h));
  }

  lemma DropIndexSettles(m: Machine, h: Handle, i: nat)
    requires WellFormed(m) && i < END && Window(m, Removing(h, i)) && Counted(m)
    ensures var n := DropIndex(m, h, i);
            && WellFormed(n) && Window(n, Removing(h, i + 1)) && Counted(n)
            && Shaped(Cells(m)) && Shaped(Cells(n)) && Destroyed(Cells(n), h) == Destroyed(Cells(m), h)
  {
    var n := DropIndex(m, h, i);
    var b, c := m.bitmaps[h], n.bitmaps[h];
    forall k | 0 <= k < END
      ensures HasIndex(c, k) == (HasIndex(b, k) && !(i % 8 == 7 && k / 8 == i / 8))
    {
      ZeroByte(b, i / 8, k);
    }
    hide HasIndex;
    forall k | 0 <= k < END
      ensures n.taken[k] && !HasIndex(c, k) <==> m.taken[k] && !HasIndex(b, k)
    {
    }
    assert Destroyed(Cells(n), h).taken == Destroyed(Cells(m), h).taken;
    assert Destroyed(Cells(n), h).bitmaps == Destroyed(Cells(m), h).bitmaps;
  }

  lemma ZeroByte(b: Bitmap, i: nat, k: nat)
    requires i < |b| && k < 8 * |b|
    ensures HasIndex(b[i := 0], k) == (HasIndex(b, k) && k / 8 != i)
  {
    BitsAreApart(0, 0, k % 8);
  }

  lemma RemoveFocus(m: Machine, t: Thread)
    requires Focus(m, t) && PcOf(m, t).Removing?
    ensures Focus(Take(m, Go(t)), t)
  {
    var h, i := PcOf(m, t).handle, PcOf(m, t).next;
    var n := Take(m, Go(t));
    TakeIsWellFormed(m, Go(t));
    CellsAreShaped(n);
    hide Inv, HasIndex, DropIndex;
    forall u | u != t ensures PcOf(n, u) == PcOf(m, u) { OthersStay(m, Go(t), u); }
    if i < END {
      DropIndexSettles(m, h, i);
      assert Cells(n) == Cells(DropIndex(m, h, i));
      assert n.taken == DropIndex(m, h, i).taken && n.out == DropIndex(m, h, i).out;
      assert n.bitmaps == DropIndex(m, h, i).bitmaps;
    } else {
      assert Destroyed(Cells(m), h).taken == m.taken;
    }
  }

  lemma AskFocus(m: Machine, a: Action)
    requires Focus(m, a.thread) && PcOf(m, a.thread).Idle? && (a.Ask? || a.Remove? || a.AddDevice?)
    ensures Focus(Take(m, a), a.thread)
  {
    var t, n := a.thread, Take(m, a);
    TakeIsWellFormed(m, a);
    CellsAreShaped(n);
    hide Inv, HasIndex;
    forall u | u != t ensures PcOf(n, u) == PcOf(m, u) { OthersStay(m, a, u); }
    match a
    case AddDevice(_, h) => NextKeeps(Cells(m), Create(h));
    case Ask(_, _) =>
    case Remove(_, h) => NextKeeps(Cells(m), Destroy(h));
  }

  lemma LookFocus(m: Machine, t: Thread)
    requires Focus(m, t) && !Critical(PcOf(m, t))
    ensures Focus(Take(m, Go(t)), t)
  {
    var n := Take(m, Go(t));
    TakeIsWellFormed(m, Go(t));
    CellsAreShaped(n);
    hide Inv, HasIndex, StoreStep, ClearStep, RemoveStep;
    forall u | u != t ensures PcOf(n, u) == PcOf(m, u) { OthersStay(m, Go(t), u); }
    assert Cells(n) == Cells(m);
  }

  lemma ClearFocus(m: Machine, t: Thread)
    requires Focus(m, t) && (PcOf(m, t).Clearing? || PcOf(m, t).Storing?)
    ensures Focus(Take(m, Go(t)), t)
  {
    var n := Take(m, Go(t));
    TakeIsWellFormed(m, Go(t));
    CellsAreShaped(n);
    forall u | u != t ensures PcOf(n, u) == PcOf(m, u) { OthersStay(m, Go(t), u); }
    if PcOf(m, t).Storing? { StoreFocus(m, t); }
    hide Inv, HasIndex, Filled, VideoSeqIndex.Removed;
  }

  /** A step that disturbs nobody keeps ownership in order. */
  lemma TakeFocus(m: Machine, a: Action)
    requires Focus(m, a.thread)
    requires a.GiveBack? ==> MayReturn(Cells(m), a.index, a.handle)
    ensures Focus(Take(m, a), a.thread)
  {
    hide Focus, Critical, MayReturn;
    var pc := PcOf(m, a.thread);
    if a.Go? {
      if pc.Removing? { RemoveFocus(m, a.thread); }
      else if pc.Storing? || pc.Clearing? { ClearFocus(m, a.thread); }
      else { NotCritical(pc); LookFocus(m, a.thread); }
    } else if pc.Idle? {
      if a.GiveBack? { GiveBackFocus(m, a.thread, a.index, a.handle); } else { AskFocus(m, a); }
    }
  }

  lemma NotCritical(pc: Pc)
    requires !pc.Removing? && !pc.Storing? && !pc.Clearing?
    ensures !Critical(pc)
  {
  }

  /** Once nothing critical is going on, any thread may be the next. */
  lemma Refocus(m: Machine, t: Thread, u: Thread)
    requires Focus(m, t) && forall v :: v != u ==> !Critical(PcOf(m, v))
    ensures Focus(m, u)
  {
    hide Inv;
  }

  lemma {:induction false} RunFocus(m: Machine, t: Thread, actions: seq<Action>) returns (u: Thread)
    requires Focus(m, t) && Undisturbed(m, actions)
    ensures Focus(After(m, actions), u)
  {
    assert WellFormed(m);
    hide Focus, Take, MayReturn, Critical;
    if actions == [] {
      u := t;
    } else {
      var n := |actions| - 1;
      var v := RunFocus(m, t, actions[..n]);
      u := actions[n].thread;
      Refocus(After(m, actions[..n]), v, u);
      TakeFocus(After(m, actions[..n]), actions[n]);
    }
  }

  lemma NewFocus()
    ensures Focus(New(), 0)
  {
    assert forall k, h :: !Owns(Cells(New()), h, k);
  }

  // What holds for every run in which no thread steps into the critical part of another one.

  ghost predicate AllSettled(m: Machine) {
    forall t :: !Critical(PcOf(m, t))
  }

  /** No index is handed out twice, at any time. */
  lemma NothingIsHandedOutTwice(actions: seq<Action>, k: nat)
    requires Undisturbed(New(), actions) && k < END
    ensures var m := After(New(), actions); m.out[k] == if m.taken[k] then 1 else 0
  {
    NewFocus();
    var t := RunFocus(New(), 0, actions);
  }

  /** When nothing critical is going on, no index has two owners, and the owned and the unowned
    indices, and no others, are taken. */
  lemma OwnershipIsExclusive(actions: seq<Action>)
    requires Undisturbed(New(), actions) && AllSettled(After(New(), actions))
    ensures Inv(Cells(After(New(), actions)))
  {
    NewFocus();
    var t := RunFocus(New(), 0, actions);
    hide Inv;
  }

  /** Nothing leaks: without devices only what was never owned is taken. */
  lemma NothingLeaks(actions: seq<Action>, k: nat)
    requires Undisturbed(New(), actions) && AllSettled(After(New(), actions)) && k < END
    requires After(New(), actions).bitmaps == map[]
    ensures var m := After(New(), actions); m.taken[k] <==> k in m.unowned
  {
    OwnershipIsExclusive(actions);
    hide Undisturbed, After, HasIndex;
    assert InvAt(Cells(After(New(), actions)), k);
  }

  // Where threads do step in between.

  /** A store keeps ownership in order exactly if the slot under the start index is still free, or the
    start index has left the array. */
  lemma StoreKeepsIff(m: Machine, t: Thread)
    requires WellFormed(m) && Inv(Cells(m)) && Counted(m) && PcOf(m, t).Storing?
    ensures WellFormed(Take(m, Go(t)))
    ensures Inv(Cells(Take(m, Go(t)))) && Counted(Take(m, Go(t))) <==> m.start >= END || !m.taken[m.start]
  {
    TakeIsWellFormed(m, Go(t));
    var n, h := Take(m, Go(t)), PcOf(m, t).handle;
    hide Inv, HasIndex, Added;
    if m.start >= END {
      assert Cells(n) == Cells(m);
    } else if m.taken[m.start] {
      assert n.out[m.start] == 2;
    } else {
      FilledIsQuery(m, h);
      StartDoesNotMatter(Cells(m), m.start);
      NextKeeps(Cells(m).(start := m.start), Query(h));
      StartDoesNotMatter(Queried(Cells(m).(start := m.start), h), 0);
      assert Cells(n) == Cells(Filled(m, h));
    }
  }

  /** Two threads look at the same free slot before either of them stores. */
  function TwoQueries(g: Handle, h: Handle): seq<Action> {
    [AddDevice(1, g)] + [AddDevice(1, h)] + [Ask(1, g)] + [Ask(2, h)] + [Go(1)] + [Go(2)] + [Go(1)] + [Go(2)]
  }

  lemma TwoLooks(g: Handle, h: Handle)
    requires g != h
    ensures After(New(), [AddDevice(1, g)] + [AddDevice(1, h)] + [Ask(1, g)] + [Ask(2, h)] + [Go(1)] + [Go(2)])
            == New().(bitmaps := map[g := Zeros(), h := Zeros()], pcs := map[1 := Storing(g, 0), 2 := Storing(h, 0)])
  {
    var m := New();
    var a := [AddDevice(1, g)];
    var b := a + [AddDevice(1, h)];
    var c := b + [Ask(1, g)];
    var d := c + [Ask(2, h)];
    Then(m, [], AddDevice(1, g));
    assert [] + [AddDevice(1, g)] == a && After(m, []) == m;
    Then(m, a, AddDevice(1, h));
    Then(m, b, Ask(1, g));
    Then(m, c, Ask(2, h));
    Then(m, d, Go(1));
    Then(m, d + [Go(1)], Go(2));
    assert After(m, b) == m.(bitmaps := map[g := Zeros(), h := Zeros()]);
    assert After(m, d) == m.(bitmaps := map[g := Zeros(), h := Zeros()], pcs := map[1 := Looking(g, 0), 2 := Looking(h, 0)]);
  }

  /** Both devices end up with index 0, and both callers have been given it. */
  lemma TwoQueriesShare(g: Handle, h: Handle)
    requires g != h
    ensures var m := After(New(), TwoQueries(g, h));
            && Owns(Cells(m), g, 0) && Owns(Cells(m), h, 0)
            && m.last == map[1 := Got(0), 2 := Got(0)] && m.out[0] == 2
  {
    TwoLooks(g, h);
    var d := [AddDevice(1, g)] + [AddDevice(1, h)] + [Ask(1, g)] + [Ask(2, h)] + [Go(1)] + [Go(2)];
    Then(New(), d, Go(1));
    Then(New(), d + [Go(1)], Go(2));
    hide After, HasIndex, Added;
    BitmapIsSet(Zeros(), 0, 0);
  }

  /** A device gives an index back, and a second thread asks for the same device before the bit is
    cleared: the index stays taken, and nobody owns it any more. */
  function LateClear(h: Handle, k: nat): seq<Action> {
    [GiveBack(1, k, h)] + [Ask(2, h)] + [Go(2)] + [Go(2)] + [Go(1)]
  }

  /** The first of these steps, up to where the slot is seen free. */
  lemma LateClearLooks(m: Machine, h: Handle)
    requires WellFormed(m) && m.pcs == map[] && m.start < END
    ensures var k := m.start;
            After(m, [GiveBack(1, k, h)] + [Ask(2, h)] + [Go(2)])
            == m.(taken := m.taken[k := false], unowned := m.unowned - {k}, out := m.out[k := Less(m.out[k])],
                  pcs := map[1 := Clearing(k, h), 2 := Storing(h, 0)])
  {
    var k := m.start;
    var a := [GiveBack(1, k, h)];
    Then(m, [], GiveBack(1, k, h));
    assert [] + a == a && After(m, []) == m;
    Then(m, a, Ask(2, h));
    Then(m, a + [Ask(2, h)], Go(2));
    hide After;
    assert After(m, a + [Ask(2, h)]).pcs == map[1 := Clearing(k, h), 2 := Looking(h, 0)];
  }

  lemma LateClearStores(m: Machine, h: Handle)
    requires WellFormed(m) && m.pcs == map[] && m.start < END && h in m.bitmaps
    ensures var k := m.start;
            var n := After(m, [GiveBack(1, k, h)] + [Ask(2, h)] + [Go(2)] + [Go(2)]);
            && n.taken == m.taken[k := true] && n.bitmaps == m.bitmaps[h := Added(m.bitmaps[h], k)]
            && n.unowned == m.unowned - {k} && n.last == m.last[2 := Got(k)] && PcOf(n, 1) == Clearing(k, h)
  {
    LateClearLooks(m, h);
    Then(m, [GiveBack(1, m.start, h)] + [Ask(2, h)] + [Go(2)], Go(2));
    hide After, HasIndex, Added;
  }

  lemma LateClearLeaks(m: Machine, h: Handle)
    requires WellFormed(m) && m.pcs == map[] && m.start < END && h in m.bitmaps
    requires Inv(Cells(m)) && Owns(Cells(m), h, m.start)
    ensures var n := After(m, LateClear(h, m.start));
            && n.taken[m.start] && n.last == m.last[2 := Got(m.start)]
            && !Owned(Cells(n), m.start) && m.start !in n.unowned
  {
    var k := m.start;
    assert InvAt(Cells(m), k);
    LateClearStores(m, h);
    Then(m, [GiveBack(1, k, h)] + [Ask(2, h)] + [Go(2)] + [Go(2)], Go(1));
    hide After, HasIndex, Added, VideoSeqIndex.Removed, Inv, InvAt;
    var n := After(m, LateClear(h, k));
    BitmapIsSet(Added(m.bitmaps[h], k), k, k);
    assert n.bitmaps == m.bitmaps[h := VideoSeqIndex.Removed(Added(m.bitmaps[h], k), k)];
    forall g ensures !Owns(Cells(n), g, k) {
      assert g != h ==> (Owns(Cells(n), g, k) <==> Owns(Cells(m), g, k));
    }
  }

  // The start index.

  predicate Turning(pc: Pc) {
    pc.Counting? || pc.Wrapping?
  }

  /** Nobody steps between another thread's counting up and wrapping around. */
  ghost predicate Orderly(m: Machine, actions: seq<Action>)
    requires WellFormed(m)
  {
    actions != [] ==>
      var n, a := After(m, actions[..|actions| - 1]), actions[|actions| - 1];
      Orderly(m, actions[..|actions| - 1]) && forall u :: u != a.thread ==> !Turning(PcOf(n, u))
  }

  ghost predicate InRange(m: Machine, t: Thread) {
    && (forall u :: u != t ==> !Turning(PcOf(m, u)))
    && m.start <= END && (m.start == END ==> PcOf(m, t).Wrapping?)
    && (forall u :: u in m.last ==> !m.last[u].Nothing?)
  }

  lemma TakeInRange(m: Machine, a: Action)
    requires WellFormed(m) && InRange(m, a.thread)
    ensures InRange(Take(m, a), a.thread)
  {
    hide HasIndex, Filled, DropIndex, VideoSeqIndex.Removed;
    forall u | u != a.thread ensures PcOf(Take(m, a), u) == PcOf(m, u) { OthersStay(m, a, u); }
    if a.Go? { GoInRange(m, a.thread); }
  }

  lemma GoInRange(m: Machine, t: Thread)
    requires WellFormed(m) && InRange(m, t)
    ensures var n := GoStep(m, t);
            && n.start <= END && (n.start == END ==> PcOf(n, t).Wrapping?)
            && (forall u :: u in n.last ==> !n.last[u].Nothing?)
  {
    hide HasIndex, Filled, StoreStep, ClearStep, RemoveStep;
    OtherSteps(m, t);
  }

  /** Storing, giving back and destroying leave the start index alone. */
  lemma OtherSteps(m: Machine, t: Thread)
    requires WellFormed(m)
    ensures forall h :: StoreStep(m, t, h).start == m.start && StoreStep(m, t, h).last == m.last[t := Got(m.start)]
    ensures forall k, h :: ClearStep(m, t, k, h).start == m.start && ClearStep(m, t, k, h).last == m.last
    ensures forall h, i :: RemoveStep(m, t, h, i).start == m.start && RemoveStep(m, t, h, i).last == m.last
  {
    hide HasIndex, Added, VideoSeqIndex.Removed;
  }

  /** If nobody steps in there, no query ends without an answer. */
  lemma {:induction false} EveryQueryIsAnswered(actions: seq<Action>) returns (t: Thread)
    requires Orderly(New(), actions)
    ensures InRange(After(New(), actions), t)
  {
    hide Take, InRange;
    if actions == [] {
      t := 0;
      NewInRange();
    } else {
      var n := |actions| - 1;
      var u := EveryQueryIsAnswered(actions[..n]);
      t := actions[n].thread;
      OtherInRange(After(New(), actions[..n]), u, t);
      TakeInRange(After(New(), actions[..n]), actions[n]);
    }
  }

  lemma NewInRange()
    ensures InRange(New(), 0)
  {
  }

  lemma OtherInRange(m: Machine, t: Thread, u: Thread)
    requires InRange(m, t) && forall v :: v != u ==> !Turning(PcOf(m, v))
    ensures InRange(m, u)
  {
  }

  /** The start index has run past the end, and nobody is about to bring it back. */
  ghost predicate Stuck(m: Machine) {
    m.start > END && forall t :: !PcOf(m, t).Storing? && !PcOf(m, t).Moving?
  }

  lemma StuckStep(m: Machine, a: Action)
    requires WellFormed(m) && Stuck(m)
    ensures Stuck(Take(m, a))
    ensures forall k :: 0 <= k < END ==> Take(m, a).out[k] <= m.out[k]
    ensures forall u :: u in Take(m, a).last && Take(m, a).last[u].Got? ==> u in m.last && m.last[u] == Take(m, a).last[u]
  {
    hide HasIndex, GoStep;
    forall u | u != a.thread ensures PcOf(Take(m, a), u) == PcOf(m, u) { OthersStay(m, a, u); }
    if a.Go? { GoStuck(m, a.thread); }
  }

  lemma GoStuck(m: Machine, t: Thread)
    requires WellFormed(m) && m.start > END && !PcOf(m, t).Storing? && !PcOf(m, t).Moving?
    ensures var n := GoStep(m, t);
            && n.start > END && !PcOf(n, t).Storing? && !PcOf(n, t).Moving?
            && (forall k :: 0 <= k < END ==> n.out[k] <= m.out[k])
            && (forall u :: u in n.last && n.last[u].Got? ==> u in m.last && m.last[u] == n.last[u])
  {
    hide HasIndex, Filled, DropIndex, StoreStep, VideoSeqIndex.Removed;
  }

  /** Then no query is given an index any more, whatever happens. */
  lemma {:induction false} StuckIsPermanent(m: Machine, actions: seq<Action>)
    requires WellFormed(m) && Stuck(m)
    ensures var n := After(m, actions);
            && Stuck(n)
            && (forall k :: 0 <= k < END ==> n.out[k] <= m.out[k])
            && (forall u :: u in n.last && n.last[u].Got? ==> u in m.last && m.last[u] == n.last[u])
  {
    hide Take, Stuck;
    if actions == [] {
    } else {
      var n := |actions| - 1;
      StuckIsPermanent(m, actions[..n]);
      StuckStep(After(m, actions[..n]), actions[n]);
    }
  }

  /** Two threads see the last slot taken, and both count up before either looks whether to wrap. */
  function TwoCounts(): seq<Action> {
    [Ask(1, 0)] + [Ask(2, 0)] + [Go(1)] + [Go(2)] + [Go(1)] + [Go(2)]
  }

  lemma TwoAsk(m: Machine)
    requires WellFormed(m) && forall t :: PcOf(m, t).Idle?
    ensures After(m, [Ask(1, 0)] + [Ask(2, 0)]) == m.(pcs := m.pcs[1 := Looking(0, 0)][2 := Looking(0, 0)])
  {
    Then(m, [], Ask(1, 0));
    assert [] + [Ask(1, 0)] == [Ask(1, 0)] && After(m, []) == m;
    Then(m, [Ask(1, 0)], Ask(2, 0));
    hide After;
    assert PcOf(m, 1).Idle? && PcOf(m, 2).Idle?;
  }

  lemma TwoLooksAtTaken(m: Machine)
    requires WellFormed(m) && (forall t :: PcOf(m, t).Idle?) && m.start < END && m.taken[m.start]
    ensures After(m, [Ask(1, 0)] + [Ask(2, 0)] + [Go(1)] + [Go(2)])
            == m.(pcs := m.pcs[1 := Counting(0, 0)][2 := Counting(0, 0)])
  {
    TwoAsk(m);
    var a := [Ask(1, 0)] + [Ask(2, 0)];
    Then(m, a, Go(1));
    Then(m, a + [Go(1)], Go(2));
    hide After;
    assert After(m, a + [Go(1)]).pcs == m.pcs[1 := Counting(0, 0)][2 := Looking(0, 0)];
  }

  lemma TwoCountsStick(m: Machine)
    requires WellFormed(m) && (forall t :: PcOf(m, t).Idle?) && m.start == END - 1 && m.taken[END - 1]
    ensures Stuck(After(m, TwoCounts()))
  {
    TwoLooksAtTaken(m);
    var d := [Ask(1, 0)] + [Ask(2, 0)] + [Go(1)] + [Go(2)];
    Then(m, d, Go(1));
    Then(m, d + [Go(1)], Go(2));
    CountGo(After(m, d), 1);
    CountGo(After(m, d + [Go(1)]), 2);
    hide After, Take;
    var n := After(m, TwoCounts());
    forall t ensures !PcOf(n, t).Storing? && !PcOf(n, t).Moving? {
      assert PcOf(m, t).Idle?;
    }
  }

  lemma CountGo(m: Machine, t: Thread)
    requires WellFormed(m) && PcOf(m, t) == Counting(0, 0)
    ensures Take(m, Go(t)) == At(m.(start := m.start + 1), t, Wrapping(0, 0))
  {
    hide HasIndex, Filled;
  }

  // A query that nobody steps into is the query of the serialised calls.

  /** The machine when the query of thread t has ended with this answer. */
  function Answered(m: Machine, t: Thread, h: Handle, found: Option<nat>): Machine
    requires WellFormed(m) && (found.Some? ==> found.value < END)
  {
    match found
    case None => Ends(m.(start := MIN_VIDEO_SEQ_INDEX), t, Failed)
    case Some(k) =>
      Ends(Filled(m.(start := k), h), t, Got(k)).(start := if h in m.bitmaps then (k + 1) % END else k)
  }

  predicate By(actions: seq<Action>, t: Thread) {
    forall k :: 0 <= k < |actions| ==> actions[k].thread == t
  }

  lemma StoreAlone(m: Machine, t: Thread, h: Handle, rounds: nat) returns (actions: seq<Action>)
    requires WellFormed(m) && m.start < END && PcOf(m, t) == Looking(h, rounds) && !m.taken[m.start]
    ensures By(actions, t) && After(m, actions) == Answered(m, t, h, Some(m.start))
  {
    hide HasIndex, Added;
    Then(m, [], Go(t));
    assert [] + [Go(t)] == [Go(t)] && After(m, []) == m;
    Then(m, [Go(t)], Go(t));
    Then(m, [Go(t)] + [Go(t)], Go(t));
    actions := if h in m.bitmaps then [Go(t)] + [Go(t)] + [Go(t)] else [Go(t)] + [Go(t)];
    assert m.(start := m.start) == m;
    assert After(m, actions).pcs == m.pcs[t := Idle];
  }

  lemma CountAlone(m: Machine, t: Thread, h: Handle, rounds: nat)
    requires WellFormed(m) && m.start < END && PcOf(m, t) == Looking(h, rounds) && m.taken[m.start] && rounds < 2
    ensures var n, wraps := After(m, [Go(t)] + [Go(t)] + [Go(t)]), m.start + 1 == END;
            n == if wraps && rounds == 1 then Ends(m.(start := MIN_VIDEO_SEQ_INDEX), t, Failed)
                 else At(m.(start := if wraps then MIN_VIDEO_SEQ_INDEX else m.start + 1), t,
                         Looking(h, if wraps then rounds + 1 else rounds))
  {
    Then(m, [], Go(t));
    assert [] + [Go(t)] == [Go(t)] && After(m, []) == m;
    Then(m, [Go(t)], Go(t));
    Then(m, [Go(t)] + [Go(t)], Go(t));
    CountUp(m, t, h, rounds);
    WrapAlone(m, t, h, rounds);
    hide After, Take;
  }

  lemma CountUp(m: Machine, t: Thread, h: Handle, rounds: nat)
    requires WellFormed(m) && m.start < END && PcOf(m, t) == Looking(h, rounds) && m.taken[m.start]
    ensures Take(m, Go(t)) == At(m, t, Counting(h, rounds))
    ensures Take(At(m, t, Counting(h, rounds)), Go(t)) == At(m.(start := m.start + 1), t, Wrapping(h, rounds))
  {
    hide HasIndex, Filled;
    assert m.pcs[t := Counting(h, rounds)][t := Wrapping(h, rounds)] == m.pcs[t := Wrapping(h, rounds)];
  }

  lemma WrapAlone(m: Machine, t: Thread, h: Handle, rounds: nat)
    requires WellFormed(m) && m.start < END && rounds < 2
    ensures var n, wraps := Take(At(m.(start := m.start + 1), t, Wrapping(h, rounds)), Go(t)), m.start + 1 == END;
            n == if wraps && rounds == 1 then Ends(m.(start := MIN_VIDEO_SEQ_INDEX), t, Failed)
                 else At(m.(start := if wraps then MIN_VIDEO_SEQ_INDEX else m.start + 1), t,
                         Looking(h, if wraps then rounds + 1 else rounds))
  {
    hide HasIndex, Filled;
    var wraps := m.start + 1 == END;
    var pc := if wraps && rounds == 1 then Idle else Looking(h, if wraps then rounds + 1 else rounds);
    assert m.pcs[t := Wrapping(h, rounds)][t := pc] == m.pcs[t := pc];
  }

  lemma {:induction false} LoopAlone(m: Machine, t: Thread, h: Handle, rounds: nat) returns (actions: seq<Action>)
    requires WellFormed(m) && m.start < END && PcOf(m, t) == Looking(h, rounds) && rounds < 2
    ensures By(actions, t)
    ensures After(m, actions)
            == Answered(m, t, h, if rounds == 0 then Search(m.taken, m.start) else NextFree(m.taken, m.start))
    decreases (2 - rounds) * END - m.start
  {
    hide NextFree, Filled, After, GoStep;
    NextFreeStep(m.taken, m.start);
    if !m.taken[m.start] {
      actions := StoreAlone(m, t, h, rounds);
    } else {
      CountAlone(m, t, h, rounds);
      actions := [Go(t)] + [Go(t)] + [Go(t)];
      var n := After(m, actions);
      if !(m.start + 1 == END && rounds == 1) {
        var more := LoopAlone(n, t, h, if m.start + 1 == END then rounds + 1 else rounds);
        AfterAppend(m, actions, more);
        actions := actions + more;
        SameAnswer(m, n, t, h, if rounds == 0 then Search(m.taken, m.start) else NextFree(m.taken, m.start));
      }
    }
  }

  /** The answer does not depend on where the query was. */
  lemma SameAnswer(m: Machine, n: Machine, t: Thread, h: Handle, found: Option<nat>)
    requires WellFormed(m) && WellFormed(n) && (found.Some? ==> found.value < END)
    requires exists pc :: n == At(m.(start := n.start), t, pc)
    ensures Answered(n, t, h, found) == Answered(m, t, h, found)
  {
    var pc :| n == At(m.(start := n.start), t, pc);
    hide Added;
    assert m.pcs[t := pc][t := Idle] == m.pcs[t := Idle];
  }

  /** A query whose steps come one after the other does what the query of the serialised calls does. */
  lemma QueryAlone(m: Machine, t: Thread, h: Handle) returns (actions: seq<Action>)
    requires WellFormed(m) && m.start < END && PcOf(m, t).Idle?
    ensures By(actions, t)
    ensures After(m, actions) == Answered(m, t, h, Search(m.taken, m.start))
    ensures Shaped(Cells(m).(start := m.start))
    ensures var n := After(m, actions); Cells(n).(start := n.start) == Queried(Cells(m).(start := m.start), h)
  {
    SearchIsComplete(m.taken, m.start);
    AnsweredIsQueried(m, t, h);
    var n := At(m, t, Looking(h, 0));
    Then(m, [], Ask(t, h));
    assert [] + [Ask(t, h)] == [Ask(t, h)] && After(m, []) == m;
    hide NextFree, After, Search, Answered, Queried;
    var more := LoopAlone(n, t, h, 0);
    AfterAppend(m, [Ask(t, h)], more);
    SameAnswer(m, n, t, h, Search(m.taken, m.start));
    actions := [Ask(t, h)] + more;
  }

  lemma AnsweredIsQueried(m: Machine, t: Thread, h: Handle)
    requires WellFormed(m) && m.start < END
    ensures Shaped(Cells(m).(start := m.start))
    ensures Search(m.taken, m.start).Some? ==> Search(m.taken, m.start).value < END
    ensures var n := Answered(m, t, h, Search(m.taken, m.start));
            Cells(n).(start := n.start) == Queried(Cells(m).(start := m.start), h)
  {
    SearchIsComplete(m.taken, m.start);
    hide NextFree, Search, HasIndex, Added;
  }

  /** The first n indices are taken, and the search goes on behind them. */
  ghost predicate FilledUpTo(m: Machine, n: nat) {
    && WellFormed(m) && m.start == n && (forall t :: PcOf(m, t).Idle?) && m.bitmaps.Keys == {0}
    && forall i :: 0 <= i < END ==> (m.taken[i] <==> i < n)
  }

  lemma FreeAtStart(taken: seq<bool>, k: nat)
    requires k < |taken| && !taken[k]
    ensures Search(taken, k) == Some(k)
  {
    NextFreeStep(taken, k);
  }

  lemma FilledOneMore(m: Machine, n: nat)
    requires FilledUpTo(m, n) && n < END - 1
    ensures FilledUpTo(Answered(m, 0, 0, Some(n)), n + 1)
  {
    hide HasIndex;
    var a := Answered(m, 0, 0, Some(n));
    assert a.bitmaps.Keys == {0};
    forall t ensures PcOf(a, t).Idle? {
      assert PcOf(m, t).Idle?;
    }
  }

  lemma {:induction false} FillUpTo(n: nat) returns (actions: seq<Action>)
    requires n < END
    ensures FilledUpTo(After(New(), actions), n)
  {
    if n == 0 {
      actions := [AddDevice(0, 0)];
      Then(New(), [], AddDevice(0, 0));
      assert [] + actions == actions && After(New(), []) == New();
    } else {
      var before := FillUpTo(n - 1);
      var m := After(New(), before);
      FreeAtStart(m.taken, n - 1);
      FilledOneMore(m, n - 1);
      assert PcOf(m, 0).Idle?;
      hide After, FilledUpTo, Answered, Search, Queried;
      var more := QueryAlone(m, 0, 0);
      AfterAppend(New(), before, more);
      actions := before + more;
    }
  }

  /** A query on an unknown handle leaves the start index where it is. */
  lemma LastIsTaken(m: Machine)
    requires FilledUpTo(m, END - 1)
    ensures var n := Answered(m, 0, 1, Some(END - 1));
            WellFormed(n) && (forall t :: PcOf(n, t).Idle?) && n.start == END - 1 && n.taken[END - 1]
  {
    hide HasIndex, Added;
    var n := Answered(m, 0, 1, Some(END - 1));
    assert 1 !in m.bitmaps;
    forall t ensures PcOf(n, t).Idle? {
      assert PcOf(m, t).Idle?;
    }
  }

  /** The search can get stuck for good. */
  lemma SearchCanStick()
    ensures exists actions :: Stuck(After(New(), actions))
  {
    var before := FillUpTo(END - 1);
    var m := After(New(), before);
    FreeAtStart(m.taken, END - 1);
    LastIsTaken(m);
    assert PcOf(m, 0).Idle?;
    hide After, Stuck, FilledUpTo, Answered, Search, Queried;
    var more := QueryAlone(m, 0, 1);
    AfterAppend(New(), before, more);
    AfterAppend(New(), before + more, TwoCounts());
    TwoCountsStick(After(m, more));
    assert Stuck(After(New(), before + more + TwoCounts()));
  }
}
