/** Which outputs each CRTC feeds, as the driver tells the firmware.

  One mask per CRTC. A mode set moves the outputs of the connectors that the CRTC now feeds;
  the new masks are kept only if the firmware takes them.
*/
module ActiveOutputs {
  import opened BitMasks
  import opened Basics

  const MAX_CORE_CRTCS := 4

  /** What the atomic state says about one connector. */
  datatype Connector = Connector(outputType: bv32, inMask: bool, crtc: nat)

  datatype ModeSet = ModeSet(crtc: nat, active: bool, connectors: seq<Connector>, accepted: bool)

  predicate Selected(c: Connector, crtc: nat) {
    c.inMask && c.crtc == crtc
  }

  /** The outputs of the selected connectors. */
  function Moved(cs: seq<Connector>, crtc: nat): bv32 {
    if cs == [] then 0
    else
      var c, rest := cs[|cs| - 1], Moved(cs[..|cs| - 1], crtc);
      if Selected(c, crtc) then On(rest, c.outputType) else rest
  }

  /** Some connector is in the mask of the CRTC. */
  predicate AnyInMask(cs: seq<Connector>) {
    exists k :: 0 <= k < |cs| && cs[k].inMask
  }

  /** The masks once the outputs have been moved to a CRTC. */
  function MoveTo(active: seq<bv32>, numCrtc: nat, crtc: nat, outputs: bv32): seq<bv32> {
    seq(|active|, i requires 0 <= i < |active| =>
      if i == crtc then outputs else if i < numCrtc then Off(active[i], outputs) else active[i])
  }

  /** The mode set gets as far as writing the masks back. */
  predicate Effective(m: ModeSet) {
    AnyInMask(m.connectors) && m.active && m.accepted
  }

  function After(active: seq<bv32>, numCrtc: nat, m: ModeSet): seq<bv32> {
    if Effective(m)
    then MoveTo(active, numCrtc, m.crtc, Moved(m.connectors, m.crtc))
    else active
  }

  function Run(active: seq<bv32>, numCrtc: nat, ms: seq<ModeSet>): seq<bv32> {
    if ms == [] then active else After(Run(active, numCrtc, ms[..|ms| - 1]), numCrtc, ms[|ms| - 1])
  }

  ghost predicate Exclusive(active: seq<bv32>) {
    forall i, j :: 0 <= i < |active| && 0 <= j < |active| && i != j ==> !Meets(active[i], active[j])
  }

  /** The masks have been cleared for the CRTCs that the chip does not have. */
  ghost predicate Shaped(active: seq<bv32>, numCrtc: nat) {
    && numCrtc <= MAX_CORE_CRTCS && |active| == MAX_CORE_CRTCS
    && forall i :: numCrtc <= i < |active| ==> active[i] == 0
  }

  /** The CRTC that feeds an output. */
  ghost function Feeder(active: seq<bv32>, b: bv32): Option<nat> {
    if i :| 0 <= i < |active| && Has(active[i], b) then Some(i) else None
  }

  /** What the mode sets say about one output: the last one that concerns it counts. */
  function Assigned(ms: seq<ModeSet>, b: bv32): Option<nat> {
    if ms == [] then None
    else
      var m, before := ms[|ms| - 1], Assigned(ms[..|ms| - 1], b);
      if !Effective(m) then before
      else if Has(Moved(m.connectors, m.crtc), b) then Some(m.crtc)
      else if before == Some(m.crtc) then None
      else before
  }

  lemma BothOrNone(x: bv32, y: bv32, b: bv32)
    requires OneBit(b) && !Meets(x, y)
    ensures !(Has(x, b) && Has(y, b))
  {
    assert Has(x, b) && Has(y, b) ==> x & y & b == b;
  }

  /** A moved output is one that a selected connector has. */
  lemma {:induction false} MovedMeans(cs: seq<Connector>, crtc: nat, b: bv32)
    requires OneBit(b)
    ensures Has(Moved(cs, crtc), b)
            <==> exists k :: 0 <= k < |cs| && Selected(cs[k], crtc) && Has(cs[k].outputType, b)
  {
    hide OneBit, Has, On;
    if cs == [] {
      NothingIsNoBit(b);
    } else {
      var n := |cs| - 1;
      MovedMeans(cs[..n], crtc, b);
      OnBit(Moved(cs[..n], crtc), cs[n].outputType, b);
      assert forall k :: 0 <= k < n ==> cs[..n][k] == cs[k];
    }
  }

  /** One mode set, bit by bit: a moved output is with the CRTC alone, the CRTC loses all others, and
    nothing else changes. Nothing changes at all if the mode set is refused, inactive or concerns no
    connector. */
  lemma AfterMeans(active: seq<bv32>, numCrtc: nat, m: ModeSet)
    requires m.crtc < numCrtc <= |active|
    ensures |After(active, numCrtc, m)| == |active|
    ensures !m.accepted || !m.active || (forall k :: 0 <= k < |m.connectors| ==> !m.connectors[k].inMask) ==>
              After(active, numCrtc, m) == active
    ensures m.accepted && m.active && (exists k :: 0 <= k < |m.connectors| && m.connectors[k].inMask) ==>
              && (forall i, b :: 0 <= i < numCrtc && OneBit(b) ==>
                    (Has(After(active, numCrtc, m)[i], b)
                     <==> if exists c :: c in m.connectors && c.inMask && c.crtc == m.crtc && Has(c.outputType, b) then i == m.crtc
                          else i != m.crtc && Has(active[i], b)))
              && After(active, numCrtc, m)[numCrtc..] == active[numCrtc..]
  {
    hide OneBit, Has, Off, Moved;
    var outputs := Moved(m.connectors, m.crtc);
    forall i, b | 0 <= i < numCrtc && OneBit(b)
      ensures Has(MoveTo(active, numCrtc, m.crtc, outputs)[i], b)
              <==> if Has(outputs, b) then i == m.crtc else i != m.crtc && Has(active[i], b)
      ensures Has(outputs, b) <==> exists c :: c in m.connectors && c.inMask && c.crtc == m.crtc && Has(c.outputType, b)
    {
      OffBit(active[i], outputs, b);
      MovedMeans(m.connectors, m.crtc, b);
    }
  }

  lemma MovedApart(x: bv32, y: bv32, outputs: bv32)
    requires !Meets(x, y)
    ensures !Meets(Off(x, outputs), Off(y, outputs))
    ensures !Meets(Off(x, outputs), outputs) && !Meets(outputs, Off(x, outputs))
  {
    assert Off(x, outputs) & Off(y, outputs) == (x & y) & !outputs;
  }

  lemma MoveKeeps(active: seq<bv32>, numCrtc: nat, crtc: nat, outputs: bv32)
    requires Shaped(active, numCrtc) && Exclusive(active) && crtc < numCrtc
    ensures Shaped(MoveTo(active, numCrtc, crtc, outputs), numCrtc)
    ensures Exclusive(MoveTo(active, numCrtc, crtc, outputs))
  {
    hide Off, Meets;
    var after := MoveTo(active, numCrtc, crtc, outputs);
    forall i, j | 0 <= i < |active| && 0 <= j < |active| && i != j ensures !Meets(after[i], after[j]) {
      NothingMeets(after[i]);
      NothingMeets(after[j]);
      MovedApart(active[i], active[j], outputs);
      MovedApart(active[j], active[i], outputs);
    }
  }

  /** Every output has at most one feeder after any sequence of mode sets. */
  lemma {:induction false} RunIsExclusive(numCrtc: nat, ms: seq<ModeSet>)
    requires numCrtc <= MAX_CORE_CRTCS
    requires forall k :: 0 <= k < |ms| ==> ms[k].crtc < numCrtc
    ensures var active := Run(seq(MAX_CORE_CRTCS, _ => 0), numCrtc, ms);
            && Shaped(active, numCrtc) && Exclusive(active)
            && forall i, j :: 0 <= i < |active| && 0 <= j < |active| && i != j ==> active[i] & active[j] == 0
  {
    hide MoveTo, Moved;
    var start := seq(MAX_CORE_CRTCS, _ => 0);
    if ms == [] {
      NothingMeets(0);
    } else {
      var n := |ms| - 1;
      RunIsExclusive(numCrtc, ms[..n]);
      MoveKeeps(Run(start, numCrtc, ms[..n]), numCrtc, ms[n].crtc, Moved(ms[n].connectors, ms[n].crtc));
    }
  }

  /** The feeder of an output is the CRTC whose mask has it. */
  lemma FeederIs(active: seq<bv32>, b: bv32, i: nat)
    requires Exclusive(active) && OneBit(b)
    ensures Feeder(active, b) == Some(i) <==> i < |active| && Has(active[i], b)
  {
    hide Has, OneBit, Meets;
    if i < |active| && Has(active[i], b) {
      forall j | 0 <= j < |active| && Has(active[j], b) ensures j == i {
        if j != i { BothOrNone(active[j], active[i], b); }
      }
    }
  }

  lemma MoveFeeds(active: seq<bv32>, numCrtc: nat, crtc: nat, outputs: bv32, b: bv32)
    requires Shaped(active, numCrtc) && Exclusive(active) && crtc < numCrtc && OneBit(b)
    ensures Feeder(MoveTo(active, numCrtc, crtc, outputs), b) ==
            if Has(outputs, b) then Some(crtc)
            else if Feeder(active, b) == Some(crtc) then None
            else Feeder(active, b)
  {
    hide Off, Has, OneBit, Exclusive;
    var after := MoveTo(active, numCrtc, crtc, outputs);
    MoveKeeps(active, numCrtc, crtc, outputs);
    NothingIsNoBit(b);
    forall i | 0 <= i < |active|
      ensures Has(after[i], b) == if i == crtc then Has(outputs, b) else !Has(outputs, b) && Has(active[i], b)
    {
      OffBit(active[i], outputs, b);
    }
    if Has(outputs, b) {
      FeederIs(after, b, crtc);
    } else {
      var f := Feeder(active, b);
      if f != None && f != Some(crtc) {
        FeederIs(after, b, f.value);
      } else if f == Some(crtc) {
        forall i | 0 <= i < |active| && i != crtc ensures !Has(active[i], b) {
          if Has(active[i], b) { FeederIs(active, b, i); }
        }
      }
    }
  }

  /** The masks say for every output where the last accepted mode set has put it. */
  lemma {:induction false} LastModeSetWins(numCrtc: nat, ms: seq<ModeSet>, b: bv32)
    requires numCrtc <= MAX_CORE_CRTCS && OneBit(b)
    requires forall k :: 0 <= k < |ms| ==> ms[k].crtc < numCrtc
    ensures Feeder(Run(seq(MAX_CORE_CRTCS, _ => 0), numCrtc, ms), b) == Assigned(ms, b)
  {
    hide MoveTo, Moved, Has, OneBit, Exclusive, Shaped;
    var start := seq(MAX_CORE_CRTCS, _ => 0);
    if ms == [] {
      NothingIsNoBit(b);
    } else {
      var n := |ms| - 1;
      LastModeSetWins(numCrtc, ms[..n], b);
      RunIsExclusive(numCrtc, ms[..n]);
      MoveFeeds(Run(start, numCrtc, ms[..n]), numCrtc, ms[n].crtc, Moved(ms[n].connectors, ms[n].crtc), b);
    }
  }

  /** The mode set gives an output to its CRTC. */
  predicate Gives(m: ModeSet, b: bv32) {
    m.accepted && m.active && exists c :: c in m.connectors && c.inMask && c.crtc == m.crtc && Has(c.outputType, b)
  }

  /** The mode set rules which outputs its CRTC has. */
  predicate Applies(m: ModeSet) {
    m.accepted && m.active && exists c :: c in m.connectors && c.inMask
  }

  /** A CRTC has an output exactly if some mode set gave it, and none since has given it to a CRTC or
    has ruled anew what this CRTC has. */
  lemma {:induction false} OutputFollowsModeSets(numCrtc: nat, ms: seq<ModeSet>, i: nat, b: bv32)
    requires i < numCrtc <= MAX_CORE_CRTCS && OneBit(b)
    requires forall k :: 0 <= k < |ms| ==> ms[k].crtc < numCrtc
    ensures |Run(seq(MAX_CORE_CRTCS, _ => 0), numCrtc, ms)| == MAX_CORE_CRTCS
    ensures Has(Run(seq(MAX_CORE_CRTCS, _ => 0), numCrtc, ms)[i], b)
            <==> exists k :: && 0 <= k < |ms| && ms[k].crtc == i && Gives(ms[k], b)
                             && forall j :: k < j < |ms| ==> !Gives(ms[j], b) && !(ms[j].crtc == i && Applies(ms[j]))
  {
    hide After, Has, OneBit, Gives, Applies;
    if ms == [] {
      NothingIsNoBit(b);
    } else {
      var n := |ms| - 1;
      OutputFollowsModeSets(numCrtc, ms[..n], i, b);
      OneModeSet(Run(seq(MAX_CORE_CRTCS, _ => 0), numCrtc, ms[..n]), numCrtc, ms[n], i, b);
      assert forall k :: 0 <= k < n ==> ms[..n][k] == ms[k];
      GivesApplies(ms[n], b);
      if Gives(ms[n], b) || (ms[n].crtc == i && Applies(ms[n])) {
      } else if k :| && 0 <= k < n && ms[..n][k].crtc == i && Gives(ms[..n][k], b)
                     && forall j :: k < j < n ==> !Gives(ms[..n][j], b) && !(ms[..n][j].crtc == i && Applies(ms[..n][j])) {
        assert forall j :: k < j <= n ==> !Gives(ms[j], b) && !(ms[j].crtc == i && Applies(ms[j]));
      }
    }
  }

  lemma GivesApplies(m: ModeSet, b: bv32)
    ensures Gives(m, b) ==> Applies(m)
  {
    hide Has;
  }

  lemma OneModeSet(active: seq<bv32>, numCrtc: nat, m: ModeSet, i: nat, b: bv32)
    requires m.crtc < numCrtc <= |active| && i < numCrtc && OneBit(b)
    ensures |After(active, numCrtc, m)| == |active|
    ensures Has(After(active, numCrtc, m)[i], b)
            <==> if Gives(m, b) then i == m.crtc else !(i == m.crtc && Applies(m)) && Has(active[i], b)
  {
    hide After, OneBit, Has;
    AfterMeans(active, numCrtc, m);
    assert (exists k :: 0 <= k < |m.connectors| && m.connectors[k].inMask) <==> exists c :: c in m.connectors && c.inMask;
  }

  // Mode sets of different CRTCs that overlap: each works on a copy of the masks.

  type Thread = nat

  datatype Machine = Machine(active: seq<bv32>, copies: map<Thread, seq<bv32>>)

  datatype Action =
    | Begin(thread: Thread, m: ModeSet)   // copies the masks and moves the outputs in the copy
    | Commit(thread: Thread)              // writes the copy back

  function Take(s: Machine, numCrtc: nat, a: Action): Machine {
    match a
    case Begin(t, m) => if Effective(m) then s.(copies := s.copies[t := After(s.active, numCrtc, m)]) else s
    case Commit(t) => if t in s.copies then Machine(s.copies[t], s.copies - {t}) else s
  }

  function Overlapping(s: Machine, numCrtc: nat, actions: seq<Action>): Machine {
    if actions == [] then s
    else Take(Overlapping(s, numCrtc, actions[..|actions| - 1]), numCrtc, actions[|actions| - 1])
  }

  ghost predicate InOrder(active: seq<bv32>, numCrtc: nat) {
    Shaped(active, numCrtc) && Exclusive(active)
  }

  /** Overlapping mode sets cannot make two CRTCs share an output either. */
  lemma {:induction false} OverlappingIsExclusive(s: Machine, numCrtc: nat, actions: seq<Action>)
    requires InOrder(s.active, numCrtc) && forall t :: t in s.copies ==> InOrder(s.copies[t], numCrtc)
    requires forall k :: 0 <= k < |actions| && actions[k].Begin? ==> actions[k].m.crtc < numCrtc
    ensures var n := Overlapping(s, numCrtc, actions);
            InOrder(n.active, numCrtc) && forall t :: t in n.copies ==> InOrder(n.copies[t], numCrtc)
  {
    hide InOrder, After, Effective;
    if actions == [] {
    } else {
      var n := |actions| - 1;
      OverlappingIsExclusive(s, numCrtc, actions[..n]);
      if actions[n].Begin? { AfterIsInOrder(Overlapping(s, numCrtc, actions[..n]).active, numCrtc, actions[n].m); }
    }
  }

  lemma AfterIsInOrder(active: seq<bv32>, numCrtc: nat, m: ModeSet)
    requires InOrder(active, numCrtc) && m.crtc < numCrtc
    ensures InOrder(After(active, numCrtc, m), numCrtc)
  {
    hide MoveTo, Moved, Exclusive, Shaped;
    MoveKeeps(active, numCrtc, m.crtc, Moved(m.connectors, m.crtc));
  }

  /** But the one that is written back last undoes the other. */
  lemma OverlapUndoesFirst(active: seq<bv32>, numCrtc: nat, m: ModeSet, n: ModeSet)
    requires Effective(m) && Effective(n)
    ensures Overlapping(Machine(active, map[]), numCrtc, [Begin(1, m)] + [Begin(2, n)] + [Commit(1)] + [Commit(2)]).active
            == After(active, numCrtc, n)
  {
    var s, x := Machine(active, map[]), [Begin(1, m)];
    hide After, Effective;
    assert x[..0] == [] && Overlapping(s, numCrtc, x) == Take(s, numCrtc, Begin(1, m));
    Then(s, numCrtc, x, Begin(2, n));
    Then(s, numCrtc, x + [Begin(2, n)], Commit(1));
    Then(s, numCrtc, x + [Begin(2, n)] + [Commit(1)], Commit(2));
  }

  lemma Then(s: Machine, numCrtc: nat, actions: seq<Action>, a: Action)
    ensures Overlapping(s, numCrtc, actions + [a]) == Take(Overlapping(s, numCrtc, actions), numCrtc, a)
  {
    assert (actions + [a])[..|actions|] == actions;
  }

  // The older path, which sets the mask of one CRTC and leaves the others alone.

  datatype Encoder = Encoder(outputType: bv32, crtc: Option<nat>)

  /** The routing when a CRTC is prepared, and whether the firmware takes the masks. */
  datatype Prepare = Prepare(pipe: nat, encoders: seq<Encoder>, accepted: bool)

  /** The outputs of the encoders that the CRTC feeds. */
  function Fed(es: seq<Encoder>, pipe: nat): bv32 {
    if es == [] then 0
    else
      var e, rest := es[|es| - 1], Fed(es[..|es| - 1], pipe);
      if e.crtc == Some(pipe) then On(rest, e.outputType) else rest
  }

  function Prepared(active: seq<bv32>, p: Prepare): seq<bv32> {
    if p.accepted && p.pipe < |active| then active[p.pipe := Fed(p.encoders, p.pipe)] else active
  }

  function RunPrepares(active: seq<bv32>, ps: seq<Prepare>): (after: seq<bv32>)
    ensures |after| == |active|
  {
    if ps == [] then active else Prepared(RunPrepares(active, ps[..|ps| - 1]), ps[|ps| - 1])
  }

  /** The outputs that a CRTC fed when it was last prepared. */
  function LastFed(ps: seq<Prepare>, pipe: nat): bv32 {
    if ps == [] then 0
    else
      var p := ps[|ps| - 1];
      if p.accepted && p.pipe == pipe then Fed(p.encoders, pipe) else LastFed(ps[..|ps| - 1], pipe)
  }

  /** An output is fed if and only if an encoder of the CRTC has it. */
  lemma {:induction false} FedMeans(es: seq<Encoder>, pipe: nat, b: bv32)
    requires OneBit(b)
    ensures Has(Fed(es, pipe), b) <==> exists k :: 0 <= k < |es| && es[k].crtc == Some(pipe) && Has(es[k].outputType, b)
  {
    hide OneBit, Has, On;
    if es == [] {
      NothingIsNoBit(b);
    } else {
      var n := |es| - 1;
      FedMeans(es[..n], pipe, b);
      OnBit(Fed(es[..n], pipe), es[n].outputType, b);
      assert forall k :: 0 <= k < n ==> es[..n][k] == es[k];
    }
  }

  /** Every mask is what its CRTC was last prepared with. */
  lemma {:induction false} MaskIsLastFed(ps: seq<Prepare>, i: nat)
    requires i < MAX_CORE_CRTCS
    ensures RunPrepares(seq(MAX_CORE_CRTCS, _ => 0), ps)[i] == LastFed(ps, i)
  {
    hide Fed;
    if ps == [] {
    } else {
      MaskIsLastFed(ps[..|ps| - 1], i);
    }
  }

  /** The prepare at k takes no output that another CRTC fed when it was last prepared. */
  ghost predicate TakesNone(ps: seq<Prepare>, k: nat)
    requires k < |ps|
  {
    ps[k].accepted ==>
      forall j :: 0 <= j < MAX_CORE_CRTCS && j != ps[k].pipe ==>
        !Meets(Fed(ps[k].encoders, ps[k].pipe), LastFed(ps[..k], j))
  }

  /** The masks are exclusive after each of a sequence of prepares exactly if no accepted one takes an
    output from a CRTC that has not been prepared again before. */
  lemma {:induction false} PreparesAreExclusiveIff(ps: seq<Prepare>)
    requires forall k :: 0 <= k < |ps| ==> ps[k].pipe < MAX_CORE_CRTCS
    ensures (forall n :: 0 <= n <= |ps| ==> Exclusive(RunPrepares(seq(MAX_CORE_CRTCS, _ => 0), ps[..n])))
            <==> forall k :: 0 <= k < |ps| ==> TakesNone(ps, k)
  {
    hide Fed, Meets, LastFed, Exclusive, TakesNone;
    var zeros := seq(MAX_CORE_CRTCS, _ => 0);
    assert ps[..|ps|] == ps;
    if ps == [] {
      ZerosAreExclusive();
    } else {
      var n := |ps| - 1;
      PreparesAreExclusiveIff(ps[..n]);
      assert forall k :: 0 <= k <= n ==> ps[..n][..k] == ps[..k];
      forall k | 0 <= k < n ensures TakesNone(ps[..n], k) <==> TakesNone(ps, k) {
        SamePrefix(ps, n, k);
      }
      if Exclusive(RunPrepares(zeros, ps[..n])) {
        OnePrepare(ps, n);
      }
      assert RunPrepares(zeros, ps[..n + 1]) == RunPrepares(zeros, ps);
    }
  }

  lemma ZerosAreExclusive()
    ensures Exclusive(RunPrepares(seq(MAX_CORE_CRTCS, _ => 0), []))
  {
    NothingMeets(0);
  }

  lemma SamePrefix(ps: seq<Prepare>, n: nat, k: nat)
    requires k < n <= |ps|
    ensures TakesNone(ps[..n], k) <==> TakesNone(ps, k)
  {
    assert ps[..n][..k] == ps[..k];
  }

  lemma OnePrepare(ps: seq<Prepare>, n: nat)
    requires n < |ps| && ps[n].pipe < MAX_CORE_CRTCS
    requires Exclusive(RunPrepares(seq(MAX_CORE_CRTCS, _ => 0), ps[..n]))
    ensures Exclusive(RunPrepares(seq(MAX_CORE_CRTCS, _ => 0), ps[..n + 1])) <==> TakesNone(ps, n)
  {
    hide Fed, Meets, LastFed, Exclusive;
    var before := RunPrepares(seq(MAX_CORE_CRTCS, _ => 0), ps[..n]);
    assert ps[..n + 1][..n] == ps[..n];
    forall j | 0 <= j < MAX_CORE_CRTCS ensures before[j] == LastFed(ps[..n], j) {
      MaskIsLastFed(ps[..n], j);
    }
    SettingIsExclusiveIff(before, ps[n].pipe, Fed(ps[n].encoders, ps[n].pipe));
  }

  lemma SettingIsExclusiveIff(active: seq<bv32>, pipe: nat, outputs: bv32)
    requires Exclusive(active) && pipe < |active|
    ensures Exclusive(active[pipe := outputs])
            <==> forall i :: 0 <= i < |active| && i != pipe ==> !Meets(outputs, active[i])
  {
    hide Meets;
    var after := active[pipe := outputs];
    forall i | 0 <= i < |active| { MeetsSymmetric(outputs, active[i]); }
    if Exclusive(after) {
      forall i | 0 <= i < |active| && i != pipe ensures !Meets(outputs, active[i]) {
        assert !Meets(after[pipe], after[i]);
      }
    }
  }

  /** An output that is fed by one CRTC, then routed to another one, ends up with both. */
  lemma PreparesCanShare(b: bv32)
    requires b != 0
    ensures var ps := [Prepare(0, [Encoder(b, Some(0))], true)] + [Prepare(1, [Encoder(b, Some(1))], true)];
            !Exclusive(RunPrepares(seq(MAX_CORE_CRTCS, _ => 0), ps))
  {
    var first, second := Prepare(0, [Encoder(b, Some(0))], true), Prepare(1, [Encoder(b, Some(1))], true);
    FedAlone(b, 0);
    FedAlone(b, 1);
    var ps := [first] + [second];
    MaskIsLastFed(ps, 0);
    MaskIsLastFed(ps, 1);
    assert ps[..1] == [first];
    ItselfMeets(b);
    hide Meets;
    var after := RunPrepares(seq(MAX_CORE_CRTCS, _ => 0), ps);
    assert after[0] == b && after[1] == b;
  }

  lemma FedAlone(b: bv32, pipe: nat)
    ensures Fed([Encoder(b, Some(pipe))], pipe) == b
  {
    var es := [Encoder(b, Some(pipe))];
    assert es[..0] == [];
    OnNothing(b);
    assert On(0, b) == b;
  }

  lemma MeetsSymmetric(x: bv32, y: bv32)
    ensures Meets(x, y) == Meets(y, x)
  {
    assert x & y == y & x;
  }

  class DisplayInfo {
    const activeOutput: array<bv32>
    const numCrtc: nat

    ghost predicate Valid()
      reads activeOutput
    {
      Shaped(activeOutput[..], numCrtc) && Exclusive(activeOutput[..])
    }

    constructor (numCrtc: nat)
      requires numCrtc <= MAX_CORE_CRTCS
      ensures Valid() && this.numCrtc == numCrtc && activeOutput[..] == seq(MAX_CORE_CRTCS, _ => 0)
    {
      this.numCrtc := numCrtc;
      activeOutput := new bv32[MAX_CORE_CRTCS](_ => 0);
    }

    method UpdateActiveConnector(m: ModeSet)
      requires Valid() && m.crtc < numCrtc
      modifies activeOutput
      ensures Valid() && activeOutput[..] == After(old(activeOutput[..]), numCrtc, m)
      ensures !m.accepted || !m.active || (forall k :: 0 <= k < |m.connectors| ==> !m.connectors[k].inMask) ==>
                activeOutput[..] == old(activeOutput[..])
      ensures m.accepted && m.active && (exists k :: 0 <= k < |m.connectors| && m.connectors[k].inMask) ==>
                && (forall i, b :: 0 <= i < numCrtc && OneBit(b) ==>
                      (Has(activeOutput[..][i], b)
                       <==> if exists c :: c in m.connectors && c.inMask && c.crtc == m.crtc && Has(c.outputType, b)
                            then i == m.crtc
                            else i != m.crtc && Has(old(activeOutput[..])[i], b)))
                && activeOutput[numCrtc..] == old(activeOutput[numCrtc..])
    {
      AfterMeans(activeOutput[..], numCrtc, m);
      hide Exclusive, Shaped, MoveTo, Moved, Has, OneBit;
      if !AnyInMask(m.connectors) || !m.active {
        return;
      }
      var active := new bv32[MAX_CORE_CRTCS](i requires 0 <= i < MAX_CORE_CRTCS reads activeOutput => activeOutput[i]);
      ghost var before := activeOutput[..];
      assert active[..] == before;
      MoveOutputs(active, numCrtc, m);
      assert activeOutput[..] == before;
      MoveKeeps(before, numCrtc, m.crtc, Moved(m.connectors, m.crtc));
      if m.accepted {
        Copy(active, activeOutput);
      }
    }

    /** The older path: the mask of one CRTC from the encoders that it feeds. */
    method CrtcPrepare(p: Prepare)
      requires p.pipe < activeOutput.Length
      modifies activeOutput
      ensures activeOutput[..] == Prepared(old(activeOutput[..]), p)
      ensures !p.accepted ==> activeOutput[..] == old(activeOutput[..])
      ensures forall i :: 0 <= i < activeOutput.Length && i != p.pipe ==> activeOutput[i] == old(activeOutput[i])
      ensures p.accepted ==> forall b :: OneBit(b) ==>
                (Has(activeOutput[p.pipe], b)
                 <==> exists e :: e in p.encoders && e.crtc == Some(p.pipe) && Has(e.outputType, b))
    {
      forall b | OneBit(b)
        ensures Has(Fed(p.encoders, p.pipe), b) <==> exists e :: e in p.encoders && e.crtc == Some(p.pipe) && Has(e.outputType, b)
      {
        FedMeans(p.encoders, p.pipe, b);
      }
      hide On, Has, OneBit;
      var active := new bv32[activeOutput.Length](i requires 0 <= i < activeOutput.Length reads this, activeOutput => activeOutput[i]);
      active[p.pipe] := 0;
      ghost var before := activeOutput[..];
      for k := 0 to |p.encoders|
        invariant activeOutput[..] == before
        invariant active[..] == before[p.pipe := Fed(p.encoders[..k], p.pipe)]
      {
        var encoder := p.encoders[k];
        assert p.encoders[..k + 1][..k] == p.encoders[..k];
        if encoder.crtc == Some(p.pipe) {
          active[p.pipe] := On(active[p.pipe], encoder.outputType);
        }
      }
      assert p.encoders[..|p.encoders|] == p.encoders;
      if p.accepted {
        Copy(active, activeOutput);
      }
    }
  }

  method Copy(from: array<bv32>, to: array<bv32>)
    requires from.Length == to.Length && from != to
    modifies to
    ensures to[..] == from[..]
  {
    forall i | 0 <= i < to.Length {
      to[i] := from[i];
    }
  }

  /** Moves the outputs of the selected connectors to the CRTC, in a copy of the masks. */
  method MoveOutputs(active: array<bv32>, numCrtc: nat, m: ModeSet)
    requires m.crtc < numCrtc <= active.Length
    modifies active
    ensures active[..] == MoveTo(old(active[..]), numCrtc, m.crtc, Moved(m.connectors, m.crtc))
  {
    hide Selected, On, Off, MoveTo, Without;
    ghost var before := active[..];
    active[m.crtc] := 0;
    NothingMoved(before, numCrtc, m.crtc);
    for k := 0 to |m.connectors|
      invariant active[..] == MoveTo(before, numCrtc, m.crtc, Moved(m.connectors[..k], m.crtc))
    {
      var connector := m.connectors[k];
      assert m.connectors[..k + 1][..k] == m.connectors[..k];
      if Selected(connector, m.crtc) {
        TakeAway(active, numCrtc, connector.outputType);
        active[m.crtc] := On(active[m.crtc], connector.outputType);
        OneMoreMoved(before, numCrtc, m.crtc, Moved(m.connectors[..k], m.crtc), connector.outputType);
      }
    }
    assert m.connectors[..|m.connectors|] == m.connectors;
  }

  /** Takes outputs away from all CRTCs. */
  method TakeAway(active: array<bv32>, numCrtc: nat, outputs: bv32)
    requires numCrtc <= active.Length
    modifies active
    ensures active[..] == Without(old(active[..]), numCrtc, outputs)
  {
    for i := 0 to numCrtc
      invariant forall j :: 0 <= j < active.Length ==>
        active[j] == if j < i then Off(old(active[j]), outputs) else old(active[j])
    {
      active[i] := Off(active[i], outputs);
    }
  }

  function Without(active: seq<bv32>, numCrtc: nat, outputs: bv32): seq<bv32> {
    seq(|active|, j requires 0 <= j < |active| => if j < numCrtc then Off(active[j], outputs) else active[j])
  }

  lemma NothingMoved(active: seq<bv32>, numCrtc: nat, crtc: nat)
    requires crtc < |active|
    ensures active[crtc := 0] == MoveTo(active, numCrtc, crtc, 0)
  {
    hide Off;
    forall i | 0 <= i < |active| ensures Off(active[i], 0) == active[i] {
      OnNothing(active[i]);
    }
  }

  lemma OneMoreMoved(active: seq<bv32>, numCrtc: nat, crtc: nat, x: bv32, y: bv32)
    requires crtc < numCrtc <= |active|
    ensures var w := Without(MoveTo(active, numCrtc, crtc, x), numCrtc, y);
            w[crtc := On(w[crtc], y)] == MoveTo(active, numCrtc, crtc, On(x, y))
  {
    hide On, Off;
    OffOn(x, y);
    forall i | 0 <= i < |active| ensures Off(Off(active[i], x), y) == Off(active[i], On(x, y)) {
      OffTwice(active[i], x, y);
    }
  }

  lemma OffOn(x: bv32, y: bv32)
    ensures On(Off(x, y), y) == On(x, y)
  {
    calc {
      On(Off(x, y), y);
      (x & !y) | y;
      x | y;
      On(x, y);
    }
  }

  lemma OffTwice(a: bv32, x: bv32, y: bv32)
    ensures Off(Off(a, x), y) == Off(a, On(x, y))
  {
  }
}
