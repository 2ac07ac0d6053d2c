/** The interrupt-enable mask, which lives in the hardware or in a saved word.

  Threads turn vertical-blank and hot-plug interrupts on and off at any time, also while
  interrupts are disabled as a whole. The chip functions are treated as one register:
  enabling sets it, disabling returns its old value and clears it.
*/
module InterruptMask {
  import opened BitMasks

  const INT_VSYNC1: bv32 := 0x1
  const INT_VSYNC2: bv32 := 0x2
  const INT_VSYNC3: bv32 := 0x4
  const INT_VSYNC4: bv32 := 0x8
  const INT_HOTPLUG: bv32 := 0xF0
  const INT_VIPS: bv32 := 0xF00
  const INT_HDCODEC: bv32 := 0x1000
  const INT_FENCE: bv32 := 0x2000
  const INT_VIDEO_EVENTS: bv32 := 0x3FC000
  const INT_HDCP: bv32 := 0x400000
  const DEF_INTR: bv32 := INT_VIDEO_EVENTS | INT_FENCE | INT_HDCODEC | INT_VIPS | INT_HDCP

  function VsyncBit(pipe: nat): bv32 {
    if pipe == 0 then INT_VSYNC1
    else if pipe == 1 then INT_VSYNC2
    else if pipe == 2 then INT_VSYNC3
    else if pipe == 3 then INT_VSYNC4
    else 0
  }

  /** The requests for single interrupts. */
  datatype Call =
    | EnableVblank(pipe: nat)
    | DisableVblank(pipe: nat)
    | HotPlug(intr: bv32, enable: bool)

  datatype State = State(hardware: bv32, saved: bv32, enabled: bool)

  /** What the driver means to have enabled. */
  function Logical(s: State): bv32 {
    if s.enabled then s.hardware else s.saved
  }

  function Change(s: State, mask: bv32): State {
    if s.enabled then s.(hardware := mask) else s.(saved := mask)
  }

  /** The interrupts that a request is about. */
  function Bits(c: Call): bv32 {
    match c
    case EnableVblank(pipe) => VsyncBit(pipe)
    case DisableVblank(pipe) => VsyncBit(pipe)
    case HotPlug(intr, _) => intr & INT_HOTPLUG
  }

  /** What a request does to the mask. */
  function Apply(mask: bv32, c: Call): bv32 {
    match c
    case EnableVblank(_) => On(mask, Bits(c))
    case DisableVblank(_) => Off(mask, Bits(c))
    case HotPlug(_, enable) => if enable then On(mask, Bits(c)) else Off(mask, Bits(c))
  }

  /** A request goes to the word in force. */
  function Request(s: State, c: Call): State {
    Change(s, Apply(Logical(s), c))
  }

  /** Preinstall clears the hardware mask, postinstall sets it, and then the mark is set. */
  function Installed(s: State): State {
    s.(hardware := On(DEF_INTR, s.saved), enabled := true)
  }

  /** Removal clears the mark and the hardware mask, and saves nothing. */
  function Removed(s: State): State {
    s.(hardware := 0, enabled := false)
  }

  /** The locked part of enabling and disabling as a whole, behind the test. */
  function EnableLocked(s: State): State {
    s.(hardware := On(s.saved, INT_FENCE), enabled := true)
  }

  function DisableLocked(s: State): State {
    State(0, On(s.hardware, INT_FENCE), false)
  }

  /** The requests alone: the mask if interrupts were never disabled as a whole. */
  function Wanted(mask: bv32, calls: seq<Call>): bv32 {
    if calls == [] then mask
    else Apply(Wanted(mask, calls[..|calls| - 1]), calls[|calls| - 1])
  }

  // Facts about single masks.

  predicate TurnsOn(c: Call) {
    c.EnableVblank? || (c.HotPlug? && c.enable)
  }

  /** A request decides about its own bits and leaves the others alone. */
  lemma ApplyBit(mask: bv32, c: Call, b: bv32)
    requires OneBit(b)
    ensures Has(Apply(mask, c), b) == if Has(Bits(c), b) then TurnsOn(c) else Has(mask, b)
  {
    hide On, Off, Has, OneBit, VsyncBit;
    OnBit(mask, Bits(c), b);
    OffBit(mask, Bits(c), b);
    NothingIsNoBit(b);
  }

  lemma VblankMeans(mask: bv32, pipe: nat)
    ensures forall b :: OneBit(b) ==>
              && (Has(On(mask, VsyncBit(pipe)), b) <==> (pipe < 4 && b == [0x1, 0x2, 0x4, 0x8][pipe]) || Has(mask, b))
              && (Has(Off(mask, VsyncBit(pipe)), b) <==> !(pipe < 4 && b == [0x1, 0x2, 0x4, 0x8][pipe]) && Has(mask, b))
  {
    hide On, Off;
    forall b | OneBit(b)
      ensures Has(On(mask, VsyncBit(pipe)), b) <==> (pipe < 4 && b == [0x1, 0x2, 0x4, 0x8][pipe]) || Has(mask, b)
      ensures Has(Off(mask, VsyncBit(pipe)), b) <==> !(pipe < 4 && b == [0x1, 0x2, 0x4, 0x8][pipe]) && Has(mask, b)
    {
      OnBit(mask, VsyncBit(pipe), b);
      OffBit(mask, VsyncBit(pipe), b);
      VsyncBitHas(pipe, b);
    }
  }

  lemma VsyncBitHas(pipe: nat, b: bv32)
    requires OneBit(b)
    ensures Has(VsyncBit(pipe), b) <==> pipe < 4 && b == [0x1, 0x2, 0x4, 0x8][pipe]
  {
  }

  lemma HotPlugMeans(mask: bv32, intr: bv32, enable: bool)
    ensures forall b :: OneBit(b) ==>
              (Has(if enable then On(mask, intr & INT_HOTPLUG) else Off(mask, intr & INT_HOTPLUG), b)
               <==> if Has(intr, b) && Has(INT_HOTPLUG, b) then enable else Has(mask, b))
  {
    hide On, Off, Has, OneBit;
    forall b | OneBit(b)
      ensures Has(if enable then On(mask, intr & INT_HOTPLUG) else Off(mask, intr & INT_HOTPLUG), b)
              <==> if Has(intr, b) && Has(INT_HOTPLUG, b) then enable else Has(mask, b)
    {
      OnBit(mask, intr & INT_HOTPLUG, b);
      OffBit(mask, intr & INT_HOTPLUG, b);
      CommonBit(intr, INT_HOTPLUG, b);
    }
  }

  lemma CommonBit(x: bv32, y: bv32, b: bv32)
    requires OneBit(b)
    ensures Has(x & y, b) <==> Has(x, b) && Has(y, b)
  {
    BitIsInOrOut(x, b);
    BitIsInOrOut(y, b);
    assert (x & y) & b == (x & b) & (y & b);
  }

  /** No request is about a default interrupt. */
  lemma RequestsSpare(mask: bv32, c: Call, keep: bv32)
    requires Has(mask, keep) && Has(DEF_INTR, keep)
    ensures Has(Apply(mask, c), keep)
  {
    hide On, Off, Has;
    BitsAreNotDefaults(c);
    ApartStays(mask, Bits(c), keep);
  }

  lemma BitsAreNotDefaults(c: Call)
    ensures Bits(c) & DEF_INTR == 0
  {
  }

  lemma ApartStays(mask: bv32, bits: bv32, keep: bv32)
    requires Has(mask, keep) && Has(DEF_INTR, keep) && bits & DEF_INTR == 0
    ensures Has(On(mask, bits), keep) && Has(Off(mask, bits), keep)
  {
    PartIsApart(bits, DEF_INTR, keep);
    OthersStayOn(mask, bits, keep);
    OthersStayOff(mask, bits, keep);
    calc {
      Has(On(mask, bits), keep);
      (mask | bits) & keep == keep;
    }
    calc {
      Has(Off(mask, bits), keep);
      (mask & !bits) & keep == keep;
    }
  }

  lemma PartIsApart(bits: bv32, defaults: bv32, keep: bv32)
    requires bits & defaults == 0 && Has(defaults, keep)
    ensures bits & keep == 0
  {
  }

  lemma OthersStayOn(mask: bv32, bits: bv32, keep: bv32)
    requires mask & keep == keep
    ensures (mask | bits) & keep == keep
  {
  }

  lemma OthersStayOff(mask: bv32, bits: bv32, keep: bv32)
    requires mask & keep == keep && bits & keep == 0
    ensures (mask & !bits) & keep == keep
  {
  }

  lemma {:induction false} WantedSpares(mask: bv32, calls: seq<Call>, keep: bv32)
    requires Has(mask, keep) && Has(DEF_INTR, keep)
    ensures Has(Wanted(mask, calls), keep)
  {
    hide Has, Apply;
    if calls == [] {
    } else {
      WantedSpares(mask, calls[..|calls| - 1], keep);
      RequestsSpare(Wanted(mask, calls[..|calls| - 1]), calls[|calls| - 1], keep);
    }
  }

  lemma Absorb(x: bv32, y: bv32)
    ensures x | (x & y) == x && (x | y) & y == y
  {
  }

  lemma OnTwice(mask: bv32, bits: bv32)
    requires Has(mask, bits)
    ensures On(mask, bits) == mask
  {
    Absorb(mask, bits);
  }

  lemma DefaultsStay(mask: bv32)
    ensures Has(On(DEF_INTR, mask), DEF_INTR) && Has(On(DEF_INTR, mask), INT_FENCE)
    ensures Has(DEF_INTR, INT_FENCE) && Has(DEF_INTR, DEF_INTR) && Has(INT_FENCE, INT_FENCE) && !Has(INT_FENCE, DEF_INTR)
  {
  }

  /** Who asked last about the interrupt b; the initial setting, if nobody did. */
  function LastRequest(initial: bool, calls: seq<Call>, b: bv32): bool {
    if calls == [] then initial
    else
      var c := calls[|calls| - 1];
      if Has(Bits(c), b) then TurnsOn(c) else LastRequest(initial, calls[..|calls| - 1], b)
  }

  /** Every single interrupt is wanted exactly if the last request about it turned it on. */
  lemma {:induction false} WantedFollowsLast(mask: bv32, calls: seq<Call>, b: bv32)
    requires OneBit(b)
    ensures Has(Wanted(mask, calls), b) <==> LastRequest(Has(mask, b), calls, b)
  {
    hide Has, OneBit, Bits, Apply;
    if calls == [] {
    } else {
      var before, c := calls[..|calls| - 1], calls[|calls| - 1];
      WantedFollowsLast(mask, before, b);
      ApplyBit(Wanted(mask, before), c, b);
    }
  }

  /** The last request for the vertical blank of pipe p, or the initial setting. */
  function LastVblank(initial: bool, calls: seq<Call>, p: nat): bool {
    if calls == [] then initial
    else
      var c := calls[|calls| - 1];
      if c == EnableVblank(p) then true
      else if c == DisableVblank(p) then false
      else LastVblank(initial, calls[..|calls| - 1], p)
  }

  lemma VsyncBitOf(p: nat, c: Call)
    requires p < 4
    ensures OneBit(VsyncBit(p))
    ensures Has(Bits(c), VsyncBit(p)) <==> c == EnableVblank(p) || c == DisableVblank(p)
  {
    if c.HotPlug? {
      NotAHotPlug(c.intr, VsyncBit(p));
    }
  }

  lemma NotAHotPlug(intr: bv32, b: bv32)
    requires b == 1 || b == 2 || b == 4 || b == 8
    ensures !Has(intr & INT_HOTPLUG, b)
  {
  }

  /** The pipes do not disturb each other, and hot-plug requests do not disturb the pipes. */
  lemma {:induction false} VblankIsRequest(initial: bool, calls: seq<Call>, p: nat)
    requires p < 4
    ensures LastVblank(initial, calls, p) == LastRequest(initial, calls, VsyncBit(p))
  {
    hide Has, OneBit, VsyncBit, Bits;
    if calls == [] {
    } else {
      VblankIsRequest(initial, calls[..|calls| - 1], p);
      VsyncBitOf(p, calls[|calls| - 1]);
    }
  }

  /** The last hot-plug request that was about the interrupt b, or the initial setting. */
  function LastHotPlug(initial: bool, calls: seq<Call>, b: bv32): bool {
    if calls == [] then initial
    else
      var c := calls[|calls| - 1];
      if c.HotPlug? && Has(c.intr, b) then c.enable else LastHotPlug(initial, calls[..|calls| - 1], b)
  }

  lemma NotAVsync(pipe: nat, b: bv32)
    requires OneBit(b) && Has(INT_HOTPLUG, b)
    ensures !Has(VsyncBit(pipe), b)
  {
  }

  /** Requests for the vertical blank do not disturb the hot-plug interrupts. */
  lemma {:induction false} HotPlugIsRequest(initial: bool, calls: seq<Call>, b: bv32)
    requires OneBit(b) && Has(INT_HOTPLUG, b)
    ensures LastHotPlug(initial, calls, b) == LastRequest(initial, calls, b)
  {
    hide Has, OneBit, VsyncBit;
    if calls == [] {
    } else {
      HotPlugIsRequest(initial, calls[..|calls| - 1], b);
      var c := calls[|calls| - 1];
      match c
      case HotPlug(intr, _) => CommonBit(intr, INT_HOTPLUG, b);
      case EnableVblank(pipe) => NotAVsync(pipe, b);
      case DisableVblank(pipe) => NotAVsync(pipe, b);
    }
  }

  /** Two histories lead to the same mask exactly if they agree about every single interrupt. */
  lemma SameWantedIff(mask: bv32, x: seq<Call>, y: seq<Call>)
    ensures Wanted(mask, x) == Wanted(mask, y)
            <==> forall b :: OneBit(b) ==> LastRequest(Has(mask, b), x, b) == LastRequest(Has(mask, b), y, b)
  {
    hide OneBit, Has, Wanted, LastRequest;
    forall b | OneBit(b)
      ensures Has(Wanted(mask, x), b) == LastRequest(Has(mask, b), x, b)
      ensures Has(Wanted(mask, y), b) == LastRequest(Has(mask, b), y, b)
    {
      WantedFollowsLast(mask, x, b);
      WantedFollowsLast(mask, y, b);
    }
    if forall b :: OneBit(b) ==> LastRequest(Has(mask, b), x, b) == LastRequest(Has(mask, b), y, b) {
      SameBits(Wanted(mask, x), Wanted(mask, y));
    }
  }

  // The driver's functions.

  class InterruptControl {
    var hardware: bv32       // the register of the chip
    var intrEnBits: bv32
    var irqEnabled: bool

    ghost function Abstract(): State
      reads this
    {
      State(hardware, intrEnBits, irqEnabled)
    }

    constructor ()
      ensures Abstract() == State(0, 0, false)
    {
      hardware, intrEnBits, irqEnabled := 0, 0, false;
    }

    method EnableVblank(pipe: nat)
      modifies this
      ensures Abstract() == Request(old(Abstract()), Call.EnableVblank(pipe))
      ensures irqEnabled == old(irqEnabled)
      ensures if irqEnabled then intrEnBits == old(intrEnBits) else hardware == old(hardware)
      ensures forall b :: OneBit(b) ==>
                (Has(if irqEnabled then hardware else intrEnBits, b)
                 <==> (pipe < 4 && b == [0x1, 0x2, 0x4, 0x8][pipe]) || old(Has(if irqEnabled then hardware else intrEnBits, b)))
    {
      VblankMeans(if irqEnabled then hardware else intrEnBits, pipe);
      hide On, Off, VsyncBit, Has, OneBit;
      if irqEnabled {
        var intrEn := hardware;
        intrEn := On(intrEn, VsyncBit(pipe));
        hardware := intrEn;
      } else {
        intrEnBits := On(intrEnBits, VsyncBit(pipe));
      }
    }

    method DisableVblank(pipe: nat)
      modifies this
      ensures Abstract() == Request(old(Abstract()), Call.DisableVblank(pipe))
      ensures irqEnabled == old(irqEnabled)
      ensures if irqEnabled then intrEnBits == old(intrEnBits) else hardware == old(hardware)
      ensures forall b :: OneBit(b) ==>
                (Has(if irqEnabled then hardware else intrEnBits, b)
                 <==> !(pipe < 4 && b == [0x1, 0x2, 0x4, 0x8][pipe]) && old(Has(if irqEnabled then hardware else intrEnBits, b)))
    {
      VblankMeans(if irqEnabled then hardware else intrEnBits, pipe);
      hide On, Off, VsyncBit, Has, OneBit;
      if irqEnabled {
        var intrEn := hardware;
        intrEn := Off(intrEn, VsyncBit(pipe));
        hardware := intrEn;
      } else {
        intrEnBits := Off(intrEnBits, VsyncBit(pipe));
      }
    }

    method HotPlugIntrCtrl(intr: bv32, enable: bool)
      modifies this
      ensures Abstract() == Request(old(Abstract()), HotPlug(intr, enable))
      ensures irqEnabled == old(irqEnabled)
      ensures if irqEnabled then intrEnBits == old(intrEnBits) else hardware == old(hardware)
      ensures forall b :: OneBit(b) ==>
                (Has(if irqEnabled then hardware else intrEnBits, b)
                 <==> if Has(intr, b) && Has(INT_HOTPLUG, b) then enable else old(Has(if irqEnabled then hardware else intrEnBits, b)))
    {
      HotPlugMeans(if irqEnabled then hardware else intrEnBits, intr, enable);
      var bits := intr & INT_HOTPLUG;
      hide On, Off, Has, OneBit;
      var intrEn := if irqEnabled then hardware else intrEnBits;
      intrEn := if enable then On(intrEn, bits) else Off(intrEn, bits);
      if irqEnabled {
        hardware := intrEn;
      } else {
        intrEnBits := intrEn;
      }
    }

    /** Enables as a whole, or is the second half of installing the interrupt. */
    method EnableInterrupt(install: bool)
      modifies this
      ensures !install && old(irqEnabled) ==> Abstract() == old(Abstract())
      ensures !install && !old(irqEnabled) ==> Abstract() == EnableLocked(old(Abstract()))
      ensures install ==> Abstract() == old(Abstract()).(hardware := On(DEF_INTR, old(intrEnBits)))
      ensures install || !old(irqEnabled) ==> hardware == old(intrEnBits) | (if install then 0x7FFF00 else 0x2000)
    {
      if !install && irqEnabled {
        return;
      }
      EnableSection(install);
    }

    /** What enabling does under the lock, whether or not the test still holds. */
    method EnableSection(install: bool)
      modifies this
      ensures Abstract() == if install then old(Abstract()).(hardware := On(DEF_INTR, old(intrEnBits)))
                            else EnableLocked(old(Abstract()))
      ensures intrEnBits == old(intrEnBits) && irqEnabled == (!install || old(irqEnabled))
      ensures hardware == old(intrEnBits) | (if install then 0x7FFF00 else 0x2000)
    {
      var intrEn := if install then On(DEF_INTR, intrEnBits) else intrEnBits;
      if intrEn & INT_FENCE == 0 {
        intrEn := On(intrEn, INT_FENCE);
      }
      hardware := intrEn;
      if !install {
        irqEnabled := true;
      }
      MissingFence(old(intrEnBits));
    }

    /** Disables as a whole, or clears the hardware mask around installing and removing. */
    method DisableInterrupt(install: bool)
      modifies this
      ensures !install && !old(irqEnabled) ==> Abstract() == old(Abstract())
      ensures !install && old(irqEnabled) ==> Abstract() == DisableLocked(old(Abstract()))
      ensures install ==> Abstract() == old(Abstract()).(hardware := 0)
      ensures !install && old(irqEnabled) ==> hardware == 0 && !irqEnabled && intrEnBits == old(hardware) | 0x2000
    {
      if !install && !irqEnabled {
        return;
      }
      DisableSection(install);
    }

    /** What disabling does under the lock, whether or not the test still holds. */
    method DisableSection(install: bool)
      modifies this
      ensures Abstract() == if install then old(Abstract()).(hardware := 0) else DisableLocked(old(Abstract()))
      ensures hardware == 0 && irqEnabled == (install && old(irqEnabled))
      ensures intrEnBits == if install then old(intrEnBits) else old(hardware) | 0x2000
    {
      var intrEn := hardware;
      hardware := 0;
      if !install {
        irqEnabled := false;
        intrEnBits := intrEn;
        if intrEn & INT_FENCE == 0 {
          intrEnBits := On(intrEnBits, INT_FENCE);
        }
      }
      MissingFence(old(hardware));
    }

    method Install()
      modifies this
      ensures Abstract() == Installed(old(Abstract()))
      ensures hardware == old(intrEnBits) | 0x7FFF00 && intrEnBits == old(intrEnBits) && irqEnabled
    {
      hide On;
      DisableInterrupt(true);
      EnableInterrupt(true);
      irqEnabled := true;
    }

    method Uninstall()
      modifies this
      ensures Abstract() == Removed(old(Abstract()))
      ensures hardware == 0 && intrEnBits == old(intrEnBits) && !irqEnabled
    {
      irqEnabled := false;
      DisableInterrupt(true);
    }
  }

  lemma MissingFence(mask: bv32)
    ensures mask & INT_FENCE != 0 ==> On(mask, INT_FENCE) == mask
    ensures On(DEF_INTR, mask) & INT_FENCE != 0
  {
  }
}
