/** Choosing the hardware mode for a requested mode, and why every offered mode can be driven.

  A requested mode is driven natively if the device has it. Otherwise, if the adapter can
  scale it, the hardware is set to the preferred or to the largest mode of the device.
*/
module ModeFixup {
  import opened BitMasks
  import opened Basics
  import opened ModeMerge

  datatype Request = Request(width: nat, height: nat, vrefresh: nat, interlaced: bool)

  datatype Signal = Rgb | Y422 | Y444 | Y420

  datatype Scaling = Scaling(supported: bool, customer: bool, adapterModesSize: nat)

  datatype Choice = Native(mode: Mode) | Scaled(mode: Mode) | Unmatched

  predicate Scales(c: Scaling) {
    c.supported && !c.customer && c.adapterModesSize != 0
  }

  predicate IsNative(m: Mode, r: Request) {
    && m.xres == r.width && m.yres == r.height
    && -50 < m.refresh - r.vrefresh * 100 < 50
    && m.scanCaps == if r.interlaced then 2 else 1
  }

  predicate IsAdapterMode(m: Mode, r: Request) {
    m.xres == r.width && m.yres == r.height && m.refresh / 100 == r.vrefresh
  }

  /** The hardware mode is at least as large and as fast as the requested one. */
  predicate Fits(hw: Mode, r: Request) {
    hw.xres >= r.width && hw.yres >= r.height && hw.refresh / 100 >= r.vrefresh
  }

  /** The first mode that satisfies the request natively. */
  function FirstNative(d: seq<Mode>, r: Request): (m: Option<Mode>)
    ensures m.None? <==> forall x :: x in d ==> !IsNative(x, r)
    ensures m.Some? ==> m.value in d && IsNative(m.value, r)
  {
    if d == [] then None
    else if IsNative(d[0], r) then Some(d[0])
    else FirstNative(d[1..], r)
  }

  lemma {:induction false} FirstNativeAt(d: seq<Mode>, r: Request, i: nat)
    requires i < |d| && IsNative(d[i], r) && forall j :: 0 <= j < i ==> !IsNative(d[j], r)
    ensures FirstNative(d, r) == Some(d[i])
  {
    hide IsNative;
    if i == 0 {
    } else {
      FirstNativeAt(d[1..], r, i - 1);
    }
  }

  /** The native mode is the first one of the requested size whose rate is less than half a hertz off
    and whose only scan type is the requested one. */
  lemma NativeIsFirst(d: seq<Mode>, r: Request, i: nat)
    requires i < |d|
    requires && d[i].xres == r.width && d[i].yres == r.height && -50 < d[i].refresh - r.vrefresh * 100 < 50
             && d[i].scanCaps == (if r.interlaced then 2 else 1)
    requires forall j :: 0 <= j < i ==>
               !(&& d[j].xres == r.width && d[j].yres == r.height && -50 < d[j].refresh - r.vrefresh * 100 < 50
                 && d[j].scanCaps == (if r.interlaced then 2 else 1))
    ensures FirstNative(d, r) == Some(d[i])
  {
    FirstNativeAt(d, r, i);
  }

  /** Without such a mode there is none. */
  lemma NoNativeIff(d: seq<Mode>, r: Request)
    ensures FirstNative(d, r) == None
            <==> forall m :: m in d ==>
                   !(&& m.xres == r.width && m.yres == r.height && -50 < m.refresh - r.vrefresh * 100 < 50
                     && m.scanCaps == (if r.interlaced then 2 else 1))
  {
    hide FirstNative;
  }

  /** What a choice promises, and when there is one: the requested mode itself, or a scaled one at least as
    large and as fast, if the adapter has the requested mode and scaling is on. */
  lemma ChoiceMeans(d: seq<Mode>, top: Mode, adapter: seq<Mode>, c: Scaling, r: Request)
    ensures var choice := Choose(d, top, adapter, c, r);
            && (choice.Native? <==> FirstNative(d, r).Some?)
            && (choice.Native? ==> FirstNative(d, r) == Some(choice.mode))
            && (choice.Scaled? ==>
                  && choice.mode.xres >= r.width && choice.mode.yres >= r.height && choice.mode.refresh / 100 >= r.vrefresh
                  && c.supported && !c.customer && c.adapterModesSize != 0
                  && (exists a :: a in adapter && a.xres == r.width && a.yres == r.height && a.refresh / 100 == r.vrefresh)
                  && (choice.mode == top || Some(choice.mode) == Preferred(d)))
            && (&& FirstNative(d, r).None? && c.supported && !c.customer && c.adapterModesSize != 0
                && (exists a :: a in adapter && a.xres == r.width && a.yres == r.height && a.refresh / 100 == r.vrefresh)
                && top.xres >= r.width && top.yres >= r.height && top.refresh / 100 >= r.vrefresh
                ==> choice.Scaled?)
  {
    hide FirstNative, Preferred;
    if a :| a in adapter && IsAdapterMode(a, r) {
      assert a.xres == r.width && a.yres == r.height && a.refresh / 100 == r.vrefresh;
    }
    if a :| a in adapter && a.xres == r.width && a.yres == r.height && a.refresh / 100 == r.vrefresh {
      assert IsAdapterMode(a, r);
    }
  }

  /** Which sizes and rates are offered: those of the device, and those of the adapter that do not exceed
    the largest device mode, if scaling is on. */
  lemma OfferedSizes(d: seq<Mode>, top: Mode, adapter: seq<Mode>, c: Scaling, w: nat, h: nat, f: nat)
    ensures (exists m :: m in Offered(d, top, adapter, c) && m.xres == w && m.yres == h && m.refresh == f)
            <==> || (exists m :: m in d && m.xres == w && m.yres == h && m.refresh == f)
                 || (&& c.supported && !c.customer && c.adapterModesSize != 0
                     && w <= top.xres && h <= top.yres && f <= top.refresh
                     && exists a :: a in adapter && a.xres == w && a.yres == h && a.refresh == f)
  {
    MergedSizes(d, Candidates(adapter, top), w, h, f);
    if a :| a in adapter && a.xres == w && a.yres == h && a.refresh == f {
      CandidatesAre(adapter, top, a);
    }
    if a :| a in Candidates(adapter, top) && a.xres == w && a.yres == h && a.refresh == f {
      CandidatesAre(adapter, top, a);
    }
    hide Candidates, Merged;
  }

  /** Taking up an offer: the request has its size, its rate rounded to hertz, and asks for interlacing
    if the mode can do it. It gets the native mode, or one at least as large and fast. */
  lemma OfferIsServed(d: seq<Mode>, top: Mode, adapter: seq<Mode>, c: Scaling, m: Mode)
    requires m in Offered(d, top, adapter, c)
    requires m in d ==> (m.scanCaps == 1 || m.scanCaps == 2) && m.refresh % 100 != 50
    requires m !in d ==> m.refresh % 100 < 50
    ensures var r := Request(m.xres, m.yres, (m.refresh + 50) / 100, m.scanCaps & 2 == 2);
            var choice := Choose(d, top, adapter, c, r);
            && !choice.Unmatched?
            && (choice.Native? ==> choice.mode.xres == m.xres && choice.mode.yres == m.yres && -50 < choice.mode.refresh - r.vrefresh * 100 < 50)
            && (choice.Scaled? ==> choice.mode.xres >= m.xres && choice.mode.yres >= m.yres && choice.mode.refresh / 100 >= r.vrefresh)
  {
    OfferedIsDrivable(d, top, adapter, c, m);
    SecondBit(m.scanCaps);
    hide Offered, Choose, AsRequest;
    RequestOf(m);
  }

  lemma SecondBit(caps: bv32)
    ensures Meets(caps, 2) <==> caps & 2 == 2
  {
  }

  lemma RequestOf(m: Mode)
    ensures AsRequest(m) == Request(m.xres, m.yres, (m.refresh + 50) / 100, Meets(m.scanCaps, 2))
  {
  }

  /** The first preferred mode, or the last mode if none is preferred. */
  function Preferred(d: seq<Mode>): (m: Option<Mode>)
    ensures m.None? <==> d == []
    ensures m.Some? ==> m.value in d && (m.value.preferred || forall x :: x in d ==> !x.preferred)
  {
    if d == [] then None
    else if d[0].preferred || |d| == 1 then Some(d[0])
    else Preferred(d[1..])
  }

  /** top is the first entry of the buffer of the device, which is there even if the list is empty. */
  function Choose(d: seq<Mode>, top: Mode, adapter: seq<Mode>, c: Scaling, r: Request): Choice {
    var native := FirstNative(d, r);
    if native.Some? then Native(native.value)
    else if Scales(c) && exists a :: a in adapter && IsAdapterMode(a, r) then
      if Preferred(d).Some? && Fits(Preferred(d).value, r) then Scaled(Preferred(d).value)
      else if Fits(top, r) then Scaled(top)
      else Unmatched
    else Unmatched
  }

  function ChooseSignal(choice: Choice, s: Signal): Signal {
    match choice
    case Native(m) => if s == Y420 && !m.supportsY420 then Rgb else if s != Y420 && m.onlyY420 then Y420 else s
    case Scaled(m) => if m.onlyY420 then Y420 else Rgb
    case Unmatched => s
  }

  // What is offered, and what is requested when the user takes an offer.

  function Offered(d: seq<Mode>, top: Mode, adapter: seq<Mode>, c: Scaling): seq<Mode> {
    if Scales(c) then Merged(d, Candidates(adapter, top)) else d
  }

  /** The mode as the user sees it: the refresh rate rounded, and interlaced if it can be. */
  function AsRequest(m: Mode): Request {
    Request(m.xres, m.yres, (m.refresh + 50) / 100, Meets(m.scanCaps, 2))
  }

  predicate Drivable(choice: Choice, r: Request) {
    match choice
    case Native(m) => IsNative(m, r)
    case Scaled(m) => Fits(m, r)
    case Unmatched => false
  }

  /** A device mode is its own native mode exactly if it has one scan type and a clear refresh rate. */
  lemma DeviceModeIsNativeIff(m: Mode)
    ensures IsNative(m, AsRequest(m)) <==> (m.scanCaps == 1 || m.scanCaps == 2) && m.refresh % 100 != 50
  {
    RoundingIsNear(m.refresh);
    ScanBit(m.scanCaps);
  }

  lemma RoundingIsNear(n: nat)
    ensures -50 < n - (n + 50) / 100 * 100 < 50 <==> n % 100 != 50
  {
  }

  lemma ScanBit(caps: bv32)
    ensures caps == 1 ==> !Meets(caps, 2)
    ensures caps == 2 ==> Meets(caps, 2)
  {
  }

  /** A request is driven exactly if the device has it, or the adapter has it and the hardware covers it. */
  lemma DrivenIff(d: seq<Mode>, top: Mode, adapter: seq<Mode>, c: Scaling, r: Request)
    ensures var choice := Choose(d, top, adapter, c, r);
            && (Drivable(choice, r) <==> !choice.Unmatched?)
            && (Drivable(choice, r)
                <==> || (exists m :: m in d && IsNative(m, r))
                     || (&& Scales(c) && (exists a :: a in adapter && IsAdapterMode(a, r))
                         && (Fits(top, r) || (d != [] && Fits(Preferred(d).value, r)))))
  {
    hide IsNative, Fits;
  }

  lemma {:induction false} PreferredIsFirst(d: seq<Mode>, i: nat)
    requires i < |d| && d[i].preferred && forall j :: 0 <= j < i ==> !d[j].preferred
    ensures Preferred(d) == Some(d[i])
  {
    if i == 0 {
    } else {
      PreferredIsFirst(d[1..], i - 1);
    }
  }

  lemma {:induction false} PreferredIsLast(d: seq<Mode>)
    requires d != [] && forall j :: 0 <= j < |d| ==> !d[j].preferred
    ensures Preferred(d) == Some(d[|d| - 1])
  {
    if |d| > 1 {
      PreferredIsLast(d[1..]);
    }
  }

  /** A scaled request goes to the first preferred mode, if there is one that covers it. */
  lemma PreferredIsChosen(d: seq<Mode>, top: Mode, adapter: seq<Mode>, c: Scaling, r: Request, i: nat)
    requires i < |d| && d[i].preferred && (forall j :: 0 <= j < i ==> !d[j].preferred) && Fits(d[i], r)
    ensures var choice := Choose(d, top, adapter, c, r); choice.Scaled? ==> choice.mode == d[i]
  {
    PreferredIsFirst(d, i);
  }

  /** An adapter mode that the merge keeps can be driven. */
  lemma KeptModeIsDrivable(d: seq<Mode>, top: Mode, adapter: seq<Mode>, c: Scaling, a: Mode, interlaced: bool)
    requires Scales(c) && a in Candidates(adapter, top)
    ensures var r := Request(a.xres, a.yres, a.refresh / 100, interlaced);
            Drivable(Choose(d, top, adapter, c, r), r)
  {
    CandidatesAre(adapter, top, a);
    Hundreds(a.refresh, top.refresh);
  }

  lemma Hundreds(x: nat, y: nat)
    requires x <= y
    ensures x / 100 <= y / 100
  {
  }

  /** An offer can be taken up if it is a device mode with one scan type and a clear rate, or an
    adapter mode, alone or combined, whose rate rounds down. What else is offered does not matter. */
  lemma OfferedIsDrivable(d: seq<Mode>, top: Mode, adapter: seq<Mode>, c: Scaling, m: Mode)
    requires m in Offered(d, top, adapter, c)
    requires m in d ==> (m.scanCaps == 1 || m.scanCaps == 2) && m.refresh % 100 != 50
    requires m !in d ==> m.refresh % 100 < 50
    ensures Drivable(Choose(d, top, adapter, c, AsRequest(m)), AsRequest(m))
  {
    hide IsNative, Fits, Choose, Meets, Candidates;
    DrivenIff(d, top, adapter, c, AsRequest(m));
    if m in d {
      DeviceModeIsNativeIff(m);
    } else {
      MergedOrigin(d, Candidates(adapter, top), m);
      AdapterServes(d, top, adapter, c, m);
    }
  }

  /** A candidate with the key of the mode makes it drivable. */
  lemma AdapterServes(d: seq<Mode>, top: Mode, adapter: seq<Mode>, c: Scaling, m: Mode)
    requires Scales(c) && m.refresh % 100 < 50
    requires exists a :: a in Candidates(adapter, top) && KeyOf(a) == KeyOf(m)
    ensures Drivable(Choose(d, top, adapter, c, AsRequest(m)), AsRequest(m))
  {
    hide IsNative, Fits, Choose, Meets, Candidates;
    var r := AsRequest(m);
    var a :| a in Candidates(adapter, top) && KeyOf(a) == KeyOf(m);
    SameKey(a, m);
    RoundsDown(a.refresh);
    assert r.vrefresh == a.refresh / 100;
    KeptModeIsDrivable(d, top, adapter, c, a, r.interlaced);
    assert r == Request(a.xres, a.yres, a.refresh / 100, r.interlaced);
  }

  /** The mode serves its own request: as a device mode that matches itself, or through its adapter mode. */
  predicate ServesItself(d: seq<Mode>, top: Mode, adapter: seq<Mode>, c: Scaling, m: Mode) {
    || (m in d && (m.scanCaps == 1 || m.scanCaps == 2) && m.refresh % 100 != 50)
    || (Scales(c) && m.refresh % 100 < 50 && exists a :: a in Candidates(adapter, top) && KeyOf(a) == KeyOf(m))
  }

  /** Some other mode stands in for it: a device mode that matches its request, or an adapter mode of the
    requested size and rate that is not the mode's own and that the hardware covers. */
  predicate StandsIn(d: seq<Mode>, top: Mode, adapter: seq<Mode>, c: Scaling, m: Mode) {
    var r := AsRequest(m);
    || (exists x :: x in d && x != m && IsNative(x, r))
    || (&& Scales(c) && (Fits(top, r) || (d != [] && Fits(Preferred(d).value, r)))
        && exists a :: a in adapter && IsAdapterMode(a, r) && (KeyOf(a) != KeyOf(m) || !Bounded(a, top)))
  }

  /** An offer can be taken up exactly if it serves itself or some other mode stands in. */
  lemma OfferedIsDrivableIff(d: seq<Mode>, top: Mode, adapter: seq<Mode>, c: Scaling, m: Mode)
    requires m in Offered(d, top, adapter, c)
    ensures Drivable(Choose(d, top, adapter, c, AsRequest(m)), AsRequest(m))
            <==> ServesItself(d, top, adapter, c, m) || StandsIn(d, top, adapter, c, m)
  {
    hide IsNative, Fits, Choose, Meets, Candidates, Bounded, KeyOf;
    var r := AsRequest(m);
    DrivenIff(d, top, adapter, c, r);
    DeviceModeIsNativeIff(m);
    if Scales(c) && m.refresh % 100 < 50 && exists a :: a in Candidates(adapter, top) && KeyOf(a) == KeyOf(m) {
      AdapterServes(d, top, adapter, c, m);
    }
    if a :| a in adapter && IsAdapterMode(a, r) && KeyOf(a) == KeyOf(m) && Bounded(a, top) {
      SameKey(a, m);
      CandidatesAre(adapter, top, a);
      OwnRateRoundsDown(m.refresh);
    }
  }

  lemma OwnRateRoundsDown(n: nat)
    ensures n / 100 == (n + 50) / 100 <==> n % 100 < 50
  {
  }

  /** Not every offer can be: nothing drives a mode with both scan types if nothing scales. */
  lemma BothScansAloneIsNotDrivable(m: Mode, adapter: seq<Mode>, c: Scaling)
    requires !Scales(c) && m.scanCaps == 3
    ensures m in Offered([m], m, adapter, c)
    ensures Choose([m], m, adapter, c, AsRequest(m)) == Unmatched
  {
    DeviceModeIsNativeIff(m);
  }

  lemma SameKey(x: Mode, y: Mode)
    requires KeyOf(x) == KeyOf(y)
    ensures x.xres == y.xres && x.yres == y.yres && x.refresh == y.refresh
  {
  }

  lemma RoundsDown(n: nat)
    requires n % 100 < 50
    ensures (n + 50) / 100 == n / 100
  {
  }

  /** A signal that the chosen mode carries: 4:2:0 only where it is supported, and always where nothing else is. */
  lemma SignalIsCarried(choice: Choice, s: Signal)
    requires !choice.Unmatched? && (choice.mode.onlyY420 ==> choice.mode.supportsY420)
    ensures var t := ChooseSignal(choice, s);
            && (t == Y420 ==> choice.mode.supportsY420)
            && (choice.mode.onlyY420 ==> t == Y420)
            && (choice.Native? && (s != Y420 || choice.mode.supportsY420) && !choice.mode.onlyY420 ==> t == s)
            && ((choice.Scaled? || !choice.mode.supportsY420) && t != s ==> t == Rgb || choice.mode.onlyY420)
            && (choice.Scaled? && !choice.mode.onlyY420 ==> t == Rgb)
  {
  }

  /** The sizes that the adapter can scale; all at 60 Hz, progressive. */
  const ADAPTER_SIZES: seq<(nat, nat)> := [
    (640, 480), (800, 600), (1024, 768), (1280, 720), (1280, 800),
    (1280, 1024), (1366, 768), (1440, 900), (1680, 1050), (1920, 1080)]

  function AdapterModes(colorCaps: bv32): seq<Mode> {
    seq(|ADAPTER_SIZES|, i requires 0 <= i < |ADAPTER_SIZES| =>
      Mode(ADAPTER_SIZES[i].0, ADAPTER_SIZES[i].1, 6000, 1, 0, colorCaps, 0, false, false, false))
  }

  /** The adapter's own table meets what the merge and the choice ask of it. */
  lemma AdapterTableIsRising(colorCaps: bv32)
    ensures Rising(AdapterModes(colorCaps))
    ensures forall a :: a in AdapterModes(colorCaps) ==> a.refresh % 100 < 50
  {
    var t := AdapterModes(colorCaps);
    forall j | 0 <= j < |t| ensures forall i :: 0 <= i < j ==> Above(KeyOf(t[j]), KeyOf(t[i])) {
      SizesGrow(t, j);
    }
  }

  lemma {:induction false} SizesGrow(t: seq<Mode>, j: nat)
    requires j < |t|
    requires forall k :: 0 <= k < |t| - 1 ==> Above(KeyOf(t[k + 1]), KeyOf(t[k]))
    ensures forall i :: 0 <= i < j ==> Above(KeyOf(t[j]), KeyOf(t[i]))
  {
    if j == 0 {
    } else {
      SizesGrow(t, j - 1);
      assert Above(KeyOf(t[j - 1 + 1]), KeyOf(t[j - 1]));
      forall i | 0 <= i < j ensures Above(KeyOf(t[j]), KeyOf(t[i])) {
        AboveIsTransitive(KeyOf(t[j]), KeyOf(t[j - 1]), KeyOf(t[i]));
      }
    }
  }

  // The driver's functions.

  method GetPreferredMode(dev: array<Mode>, num: nat) returns (m: Option<Mode>)
    requires num <= dev.Length
    ensures m == Preferred(dev[..num])
  {
    m := None;
    ghost var d := dev[..num];
    assert d[0..] == d;
    for i := 0 to num
      invariant i == 0 ==> m == None
      invariant i < num ==> Preferred(d) == Preferred(d[i..])
      invariant i == num > 0 ==> m == Preferred(d)
    {
      m := Some(dev[i]);
      if dev[i].preferred {
        break;
      }
      assert d[i..][1..] == d[i + 1..];
    }
  }

  /** The search for a native mode; a match also settles the signal. */
  method FindNative(dev: array<Mode>, num: nat, r: Request, s: Signal) returns (m: Option<Mode>, signal: Signal)
    requires num <= dev.Length
    ensures m == FirstNative(dev[..num], r)
    ensures signal == if m.Some? then ChooseSignal(Native(m.value), s) else s
  {
    hide IsNative;
    m, signal := None, s;
    ghost var d := dev[..num];
    assert d[0..] == d;
    for i := 0 to num
      invariant m == None && signal == s
      invariant FirstNative(d, r) == FirstNative(d[i..], r)
    {
      var mode := dev[i];
      if IsNative(mode, r) {
        if signal == Y420 && !mode.supportsY420 {
          signal := Rgb;
        } else if signal != Y420 && mode.onlyY420 {
          signal := Y420;
        }
        m := Some(mode);
        return;
      }
      assert d[i..][1..] == d[i + 1..];
    }
  }

  method FindScaled(dev: array<Mode>, num: nat, adapter: array<Mode>, adapterNum: nat, r: Request) returns (m: Option<Mode>)
    requires num <= dev.Length && adapterNum <= adapter.Length && 0 < dev.Length
    ensures m == if !exists a :: a in adapter[..adapterNum] && IsAdapterMode(a, r) then None
                 else if Preferred(dev[..num]).Some? && Fits(Preferred(dev[..num]).value, r) then Preferred(dev[..num])
                 else if Fits(dev[0], r) then Some(dev[0])
                 else None
  {
    hide IsAdapterMode, Fits;
    m := None;
    var preferred := GetPreferredMode(dev, num);
    var top := dev[0];
    for i := 0 to adapterNum
      invariant (exists k :: 0 <= k < i && IsAdapterMode(adapter[k], r)) ==>
                  !(preferred.Some? && Fits(preferred.value, r)) && !Fits(top, r)
      invariant m == None
    {
      if IsAdapterMode(adapter[i], r) {
        if preferred.Some? && Fits(preferred.value, r) {
          m := preferred;
          assert adapter[i] in adapter[..adapterNum];
          break;
        }
        if Fits(top, r) {
          m := Some(top);
          assert adapter[i] in adapter[..adapterNum];
          break;
        }
      }
    }
  }

  /** The hardware mode and the signal for a requested mode; dev is null if the device offers no buffer. */
  method EncoderModeFixup(dev: array?<Mode>, num: nat, adapter: array<Mode>, adapterNum: nat, c: Scaling,
                          r: Request, s: Signal)
    returns (choice: Choice, signal: Signal)
    requires dev != null ==> num <= dev.Length && 0 < dev.Length
    requires adapterNum <= adapter.Length
    ensures dev == null ==> choice == Unmatched && signal == Rgb
    ensures dev != null ==>
              && choice == Choose(dev[..num], dev[0], adapter[..adapterNum], c, r)
              && signal == ChooseSignal(choice, s)
  {
    choice, signal := Unmatched, Rgb;
    if dev == null {
      return;
    }
    var native: Option<Mode>;
    native, signal := FindNative(dev, num, r, s);
    if native.Some? {
      return Native(native.value), signal;
    }
    if !c.supported {
      return;
    }
    var size := if !c.customer then c.adapterModesSize else 0;
    if size == 0 {
      return;
    }
    var matched := FindScaled(dev, num, adapter, adapterNum, r);
    if matched.Some? {
      choice := Scaled(matched.value);
      signal := if matched.value.onlyY420 then Y420 else Rgb;
    }
  }

  /** The list that is offered to the user; none if the device offers no buffer. The buffer of the merge
    is as long as both lists together. */
  method GetDeviceModelist(dev: array?<Mode>, num: nat, adapter: array<Mode>, adapterNum: nat, c: Scaling)
    returns (list: array?<Mode>, offered: nat)
    requires dev != null ==> dev != adapter && num <= dev.Length && 0 < dev.Length
    requires adapterNum <= adapter.Length
    modifies adapter
    ensures dev == null ==> list == null && offered == 0 && unchanged(adapter)
    ensures dev != null ==>
              && list != null && offered <= list.Length
              && list[..offered] == Offered(old(dev[..num]), old(dev[0]), old(adapter[..adapterNum]), c)
  {
    if dev == null {
      return null, 0;
    }
    list, offered := dev, num;
    if c.supported {
      var size := if !c.customer then c.adapterModesSize else 0;
      if size != 0 {
        var blank := Mode(0, 0, 0, 0, 0, 0, 0, false, false, false);
        var merge := new Mode[num + adapterNum](_ => blank);
        offered := MergeModes(merge, adapter, adapterNum, dev, num);
        list := merge;
      }
    }
  }
}
