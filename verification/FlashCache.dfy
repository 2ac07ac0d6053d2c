/** The flash operations of the display driver, with a cache of the first flash page.

  What the hardware answers is part of each operation: a read may fail, and a write that fails
  may leave anything in its range.
*/
module FlashCache {
  import opened Basics

  const FLASH_TOTAL_SIZE := 0x100000
  const FLASH_START_ADDR := 0xb0000
  const FLASH_CACHE_SIZE := 0x1000

  const EIO := 5
  const EACCES := 13
  const EINVAL := 22

  datatype WriteOutcome = Written | Failed(left: seq<byte>)

  datatype Op =
    | GetStartAddr
    | GetMaxSize
    | Read(addr: nat, size: nat, works: bool, copies: bool)
    | Write(addr: nat, data: seq<byte>, admin: bool, copies: bool, outcome: WriteOutcome)
    | Unknown

  datatype Result =
    | Value(value: nat)
    | Data(data: seq<byte>)
    | Done
    | Fault                  // the memory of the user could not be accessed
    | Error(code: nat)

  datatype State = State(runOnQt: bool, flash: seq<byte>, valid: bool, cache: seq<byte>)

  predicate InRange(addr: nat, size: nat) {
    FLASH_START_ADDR <= addr && addr + size <= FLASH_TOTAL_SIZE
  }

  predicate InCache(addr: nat, size: nat) {
    addr + size <= FLASH_START_ADDR + FLASH_CACHE_SIZE
  }

  function Page(flash: seq<byte>): seq<byte>
    requires |flash| == FLASH_TOTAL_SIZE
  {
    flash[FLASH_START_ADDR..FLASH_START_ADDR + FLASH_CACHE_SIZE]
  }

  /** The sum of two words of 32 bits, as the driver computes it. */
  function Sum(addr: nat, size: nat): nat {
    (addr + size) % 0x1_0000_0000
  }

  /** The range test of the driver. */
  predicate Passes(addr: nat, size: nat) {
    !(addr < FLASH_START_ADDR || Sum(addr, size) > FLASH_TOTAL_SIZE)
  }

  /** A range that passes the test is in range exactly if the sum fits into 32 bits; what does not
    pass is out of range. */
  lemma PassesIsInRangeIff(addr: nat, size: nat)
    requires addr < 0x1_0000_0000 && size < 0x1_0000_0000
    ensures Passes(addr, size) ==> (InRange(addr, size) <==> addr + size < 0x1_0000_0000)
    ensures !Passes(addr, size) ==> !InRange(addr, size)
    ensures InRange(addr, size) ==> (InCache(addr, size) <==> Sum(addr, size) <= FLASH_START_ADDR + FLASH_CACHE_SIZE)
  {
  }

  /** The last page of the address space passes although it is far behind the flash. */
  lemma WrappingRangePasses()
    ensures Passes(0xFFFF_F000, 0x1000) && !InRange(0xFFFF_F000, 0x1000)
  {
  }

  /** A range that passes and is taken for one of the cached page lies inside the cache exactly if the sum
    fits into 32 bits. */
  lemma CacheIndexIff(addr: nat, size: nat)
    requires addr < 0x1_0000_0000 && size < 0x1_0000_0000
    requires Passes(addr, size) && Sum(addr, size) <= FLASH_START_ADDR + FLASH_CACHE_SIZE
    ensures addr - FLASH_START_ADDR + size <= FLASH_CACHE_SIZE <==> addr + size < 0x1_0000_0000
  {
  }

  /** A range that passes without being in range. */
  predicate Strays(addr: nat, size: nat) {
    Passes(addr, size) && !InRange(addr, size)
  }

  /** The operation would go on with such a range. */
  predicate Astray(runOnQt: bool, op: Op) {
    !runOnQt && match op
    case Read(addr, size, _, _) => Strays(addr, size)
    case Write(addr, data, admin, _, _) => admin && Strays(addr, |data|)
    case _ => false
  }

  predicate Words(op: Op) {
    match op
    case Read(addr, size, _, _) => addr < 0x1_0000_0000 && size < 0x1_0000_0000
    case Write(addr, data, _, _, _) => addr < 0x1_0000_0000 && |data| < 0x1_0000_0000
    case _ => true
  }

  /** The flash after a write to its hardware; a failed one leaves arbitrary bytes in the range. */
  function Stored(flash: seq<byte>, addr: nat, data: seq<byte>, outcome: WriteOutcome): (f: seq<byte>)
    requires addr + |data| <= |flash|
    ensures |f| == |flash|
    ensures forall i :: 0 <= i < |flash| && !(addr <= i < addr + |data|) ==> f[i] == flash[i]
    ensures outcome.Written? ==> f[addr..addr + |data|] == data
  {
    match outcome
    case Written => flash[..addr] + data + flash[addr + |data|..]
    case Failed(left) =>
      var n := if |left| <= |data| then |left| else |data|;
      flash[..addr] + left[..n] + flash[addr + n..]
  }

  function ToUser(data: seq<byte>, copies: bool): Result {
    if copies then Data(data) else Fault
  }

  ghost predicate Coherent(s: State) {
    && |s.flash| == FLASH_TOTAL_SIZE
    && (s.valid ==> s.cache == Page(s.flash))
  }

  // Without a cache.

  function PlainResult(flash: seq<byte>, runOnQt: bool, op: Op): Result
    requires |flash| == FLASH_TOTAL_SIZE
  {
    if runOnQt then Error(EINVAL)
    else
      match op
      case GetStartAddr => Value(FLASH_START_ADDR)
      case GetMaxSize => Value(FLASH_TOTAL_SIZE - FLASH_START_ADDR)
      case Read(addr, size, works, copies) =>
        if !InRange(addr, size) then Error(EINVAL)
        else if !works then Error(EIO)
        else ToUser(flash[addr..addr + size], copies)
      case Write(addr, data, admin, copies, outcome) =>
        if !admin then Error(EACCES)
        else if !InRange(addr, |data|) then Error(EINVAL)
        else if !copies then Fault
        else if outcome.Written? then Done else Error(EIO)
      case Unknown => Error(EINVAL)
  }

  /** The operation gets as far as the hardware of the flash. */
  predicate Writes(runOnQt: bool, op: Op) {
    !runOnQt && op.Write? && op.admin && InRange(op.addr, |op.data|) && op.copies
  }

  function PlainFlash(flash: seq<byte>, runOnQt: bool, op: Op): (f: seq<byte>)
    requires |flash| == FLASH_TOTAL_SIZE
    ensures |f| == FLASH_TOTAL_SIZE
  {
    if Writes(runOnQt, op) then Stored(flash, op.addr, op.data, op.outcome) else flash
  }

  function PlainRun(flash: seq<byte>, runOnQt: bool, ops: seq<Op>): seq<Result>
    requires |flash| == FLASH_TOTAL_SIZE
    decreases |ops|
  {
    if ops == [] then []
    else [PlainResult(flash, runOnQt, ops[0])] + PlainRun(PlainFlash(flash, runOnQt, ops[0]), runOnQt, ops[1..])
  }

  // With the cache.

  predicate ReadsPage(s: State, op: Op) {
    !s.runOnQt && op.Read? && InRange(op.addr, op.size) && InCache(op.addr, op.size)
  }

  /** The read is answered from the cache, without the hardware. */
  predicate Hit(s: State, op: Op) {
    ReadsPage(s, op) && s.valid
  }

  /** junk is what a failed read leaves in the cache. */
  function Next(s: State, op: Op, junk: seq<byte>): State
    requires |s.flash| == FLASH_TOTAL_SIZE
  {
    if ReadsPage(s, op) && !s.valid then
      if op.works then s.(valid := true, cache := Page(s.flash)) else s.(cache := junk)
    else if op.Write? && !s.runOnQt && op.admin && InRange(op.addr, |op.data|) then
      s.(flash := PlainFlash(s.flash, s.runOnQt, op),
         valid := s.valid && !(op.addr <= FLASH_START_ADDR + FLASH_CACHE_SIZE))
    else s
  }

  function CachedResult(s: State, op: Op): Result
    requires |s.flash| == FLASH_TOTAL_SIZE && (s.valid ==> |s.cache| == FLASH_CACHE_SIZE)
  {
    if Hit(s, op) then
      ToUser(s.cache[op.addr - FLASH_START_ADDR..op.addr - FLASH_START_ADDR + op.size], op.copies)
    else PlainResult(s.flash, s.runOnQt, op)
  }

  /** The same operation on hardware that works where the cache has made it unnecessary. */
  function Lucky(s: State, op: Op): Op {
    if Hit(s, op) then op.(works := true) else op
  }

  /** A run gives each operation together with the junk of its possible failed read. */
  datatype Call = Call(op: Op, junk: seq<byte>)

  function CachedRun(s: State, calls: seq<Call>): seq<Result>
    requires Coherent(s)
    decreases |calls|
  {
    if calls == [] then []
    else
      NextIsCoherent(s, calls[0].op, calls[0].junk);
      [CachedResult(s, calls[0].op)] + CachedRun(Next(s, calls[0].op, calls[0].junk), calls[1..])
  }

  function LuckyRun(s: State, calls: seq<Call>): seq<Op>
    requires Coherent(s)
    decreases |calls|
  {
    if calls == [] then []
    else
      NextIsCoherent(s, calls[0].op, calls[0].junk);
      [Lucky(s, calls[0].op)] + LuckyRun(Next(s, calls[0].op, calls[0].junk), calls[1..])
  }

  /** The maximal size is that of the longest range from the start address that is in range; longer ones
    are rejected unless their end wraps around. */
  lemma MaxSizeIsLongest(flash: seq<byte>, size: nat)
    requires |flash| == FLASH_TOTAL_SIZE && size < 0x1_0000_0000
    ensures var start, longest := PlainResult(flash, false, GetStartAddr), PlainResult(flash, false, GetMaxSize);
            && start.Value? && longest.Value?
            && (InRange(start.value, size) <==> size <= longest.value)
            && (Passes(start.value, size) <==> size <= longest.value || start.value + size >= 0x1_0000_0000)
  {
  }

  // The cache and the flash agree.

  lemma NextIsCoherent(s: State, op: Op, junk: seq<byte>)
    requires Coherent(s)
    ensures Coherent(Next(s, op, junk))
    ensures Next(s, op, junk).flash == PlainFlash(s.flash, s.runOnQt, Lucky(s, op))
    ensures Next(s, op, junk).runOnQt == s.runOnQt
  {
    hide Stored;
    var t := Next(s, op, junk);
    if t.valid && op.Write? {
      assert Page(t.flash) == Page(s.flash);
    }
  }

  /** A write changes the cached page only if it starts in front of the page's end. */
  lemma PageChangesOnlyBelow(flash: seq<byte>, addr: nat, data: seq<byte>, outcome: WriteOutcome)
    requires |flash| == FLASH_TOTAL_SIZE && InRange(addr, |data|)
    ensures Page(Stored(flash, addr, data, outcome)) != Page(flash) ==> addr < FLASH_START_ADDR + FLASH_CACHE_SIZE
  {
    hide Stored;
  }

  lemma PartOfPage(flash: seq<byte>, addr: nat, size: nat)
    requires |flash| == FLASH_TOTAL_SIZE && InRange(addr, size) && InCache(addr, size)
    ensures var k := addr - FLASH_START_ADDR;
            k + size <= |Page(flash)| && Page(flash)[k..k + size] == flash[addr..addr + size]
  {
    var k := addr - FLASH_START_ADDR;
    assert |Page(flash)| == FLASH_CACHE_SIZE;
    var cached, wanted := Page(flash)[k..k + size], flash[addr..addr + size];
    forall j | 0 <= j < size ensures cached[j] == wanted[j] {
      assert cached[j] == Page(flash)[k + j] == flash[FLASH_START_ADDR + (k + j)];
      assert wanted[j] == flash[addr + j];
    }
  }

  lemma CachedIsPlain(s: State, op: Op)
    requires Coherent(s)
    ensures CachedResult(s, op) == PlainResult(s.flash, s.runOnQt, Lucky(s, op))
  {
    if Hit(s, op) {
      PartOfPage(s.flash, op.addr, op.size);
    }
  }

  /** Every run with the cache answers like a run without it, on hardware that fails no more often. */
  lemma {:induction false} CacheIsTransparent(s: State, calls: seq<Call>)
    requires Coherent(s)
    ensures CachedRun(s, calls) == PlainRun(s.flash, s.runOnQt, LuckyRun(s, calls))
    decreases |calls|
  {
    hide PlainFlash, PlainResult, Next, CachedResult, Lucky;
    if calls == [] {
    } else {
      var op := calls[0].op;
      var t := Next(s, op, calls[0].junk);
      NextIsCoherent(s, op, calls[0].junk);
      CachedIsPlain(s, op);
      CacheIsTransparent(t, calls[1..]);
      assert LuckyRun(s, calls)[0] == Lucky(s, op) && LuckyRun(s, calls)[1..] == LuckyRun(t, calls[1..]);
    }
  }

  function After(s: State, calls: seq<Call>): (t: State)
    requires Coherent(s)
    ensures Coherent(t)
    decreases |calls|
  {
    if calls == [] then s
    else
      NextIsCoherent(s, calls[0].op, calls[0].junk);
      After(Next(s, calls[0].op, calls[0].junk), calls[1..])
  }

  function Init(runOnQt: bool, flash: seq<byte>): State {
    State(runOnQt, flash, false, [])
  }

  /** Whatever has gone before, a successful read gives what the flash holds. */
  lemma ReadGivesFlash(runOnQt: bool, flash: seq<byte>, calls: seq<Call>, op: Op)
    requires |flash| == FLASH_TOTAL_SIZE && op.Read?
    ensures var s := After(Init(runOnQt, flash), calls);
            CachedResult(s, op).Data? ==>
              InRange(op.addr, op.size) && CachedResult(s, op) == Data(s.flash[op.addr..op.addr + op.size])
  {
    CachedIsPlain(After(Init(runOnQt, flash), calls), op);
  }

  /** What a successful write has stored is read back, with a cold or a warm cache. */
  lemma WriteThenRead(s: State, w: Op, junk: seq<byte>, r: Op)
    requires Coherent(s) && w.Write? && CachedResult(s, w) == Done
    requires r.Read? && r.addr == w.addr && r.size == |w.data| && r.works && r.copies
    ensures Coherent(Next(s, w, junk)) && CachedResult(Next(s, w, junk), r) == Data(w.data)
  {
    NextIsCoherent(s, w, junk);
    CachedIsPlain(Next(s, w, junk), r);
    CachedIsPlain(s, w);
    hide Stored, CachedResult;
  }

  /** A read of the page that works makes the next read of the page independent of the hardware. */
  lemma ReadWarmsCache(s: State, r: Op, junk: seq<byte>, again: Op)
    requires Coherent(s) && ReadsPage(s, r) && (r.works || s.valid)
    requires again.Read? && InRange(again.addr, again.size) && InCache(again.addr, again.size) && again.copies
    ensures Coherent(Next(s, r, junk)) && CachedResult(Next(s, r, junk), again) == Data(s.flash[again.addr..again.addr + again.size])
  {
    NextIsCoherent(s, r, junk);
    CachedIsPlain(Next(s, r, junk), again);
  }

  // The driver's function.

  class DisplayInfo {
    const runOnQt: bool
    var flash: seq<byte>           // the hardware
    var flashCache: array?<byte>
    var flashCacheIsValid: bool

    ghost function Cache(): seq<byte>
      reads this, flashCache
    {
      if flashCache == null then [] else flashCache[..]
    }

    ghost function Abstract(): State
      reads this, flashCache
    {
      State(runOnQt, flash, flashCacheIsValid, Cache())
    }

    ghost predicate Valid()
      reads this, flashCache
    {
      Coherent(Abstract()) && (flashCache != null ==> flashCache.Length == FLASH_CACHE_SIZE)
    }

    constructor (runOnQt: bool, flash: seq<byte>)
      requires |flash| == FLASH_TOTAL_SIZE
      ensures Valid() && Abstract() == Init(runOnQt, flash)
    {
      this.runOnQt, this.flash := runOnQt, flash;
      flashCache, flashCacheIsValid := null, false;
    }

    /** The read primitive of the firmware; a failed read leaves anything in the buffer. */
    method CbiosFlashRead(addr: nat, size: nat, buf: array<byte>, works: bool) returns (ok: bool)
      requires addr + size <= |flash| && buf.Length == size
      modifies buf
      ensures ok == works && (works ==> buf[..] == flash[addr..addr + size])
    {
      ok := works;
      var junk: seq<byte> := *;
      forall i | 0 <= i < size {
        buf[i] := if works then flash[addr + i] else if i < |junk| then junk[i] else 0;
      }
    }

    method CbiosFlashWrite(addr: nat, data: seq<byte>, outcome: WriteOutcome) returns (ok: bool)
      requires addr + |data| <= |flash|
      modifies this`flash
      ensures ok ==> flash == old(flash)[..addr] + data + old(flash)[addr + |data|..]
      ensures ok == outcome.Written? && flash == Stored(old(flash), addr, data, outcome)
    {
      flash := Stored(flash, addr, data, outcome);
      ok := outcome.Written?;
    }

    /** Brings the first page into the cache. */
    method FillCache(works: bool) returns (ok: bool)
      requires Valid() && !flashCacheIsValid
      modifies this`flashCache, this`flashCacheIsValid, flashCache
      ensures Valid() && ok == works && flashCacheIsValid == works
      ensures flashCache != null && (flashCache == old(flashCache) || fresh(flashCache))
    {
      if flashCache == null {
        flashCache := new byte[FLASH_CACHE_SIZE](_ => 0);
      }
      ok := CbiosFlashRead(FLASH_START_ADDR, FLASH_CACHE_SIZE, flashCache, works);
      if !ok {
        return;
      }
      flashCacheIsValid := true;
    }

    method FlashRead(addr: nat, size: nat, works: bool, copies: bool) returns (result: Result, astray: bool)
      requires Valid() && Words(Read(addr, size, works, copies)) && !runOnQt
      modifies this`flashCache, this`flashCacheIsValid, flashCache
      ensures Valid() && astray == Strays(addr, size)
      ensures !astray ==> result == CachedResult(old(Abstract()), Read(addr, size, works, copies))
      ensures !astray ==> Abstract() == Next(old(Abstract()), Read(addr, size, works, copies), Cache())
      ensures !astray ==>
                result == if addr < 0xb0000 || addr + size > 0x100000 then Error(EINVAL)
                          else if !works && !(old(flashCacheIsValid) && addr + size <= 0xb1000) then Error(EIO)
                          else if copies then Data(flash[addr..addr + size]) else Fault
      ensures !astray ==>
                (flashCacheIsValid
                 <==> old(flashCacheIsValid) || (addr >= 0xb0000 && addr + size <= 0x100000 && addr + size <= 0xb1000 && works))
    {
      PassesIsInRangeIff(addr, size);
      if InRange(addr, size) && InCache(addr, size) { PartOfPage(flash, addr, size); }
      hide Page;
      astray := false;
      if addr < FLASH_START_ADDR || Sum(addr, size) > FLASH_TOTAL_SIZE {
        return Error(EINVAL), astray;
      }
      if addr + size != Sum(addr, size) {
        // what follows would leave the cache or the flash
        return Fault, true;
      }
      if Sum(addr, size) <= FLASH_START_ADDR + FLASH_CACHE_SIZE {
        if !flashCacheIsValid {
          var ok := FillCache(works);
          if !ok {
            return Error(EIO), astray;
          }
        }
        var offset := addr - FLASH_START_ADDR;
        result := ToUser(flashCache[offset..offset + size], copies);
      } else {
        var kbuf := new byte[size](_ => 0);
        var ok := CbiosFlashRead(addr, size, kbuf, works);
        result := if ok then ToUser(kbuf[..], copies) else Error(EIO);
      }
    }

    method FlashWrite(addr: nat, data: seq<byte>, admin: bool, copies: bool, outcome: WriteOutcome)
      returns (result: Result, astray: bool)
      requires Valid() && Words(Write(addr, data, admin, copies, outcome)) && !runOnQt
      modifies this`flash, this`flashCacheIsValid
      ensures Valid() && astray == (admin && Strays(addr, |data|))
      ensures !astray ==> result == CachedResult(old(Abstract()), Write(addr, data, admin, copies, outcome))
      ensures !astray ==> Abstract() == Next(old(Abstract()), Write(addr, data, admin, copies, outcome), Cache())
      ensures !astray ==>
                result == if !admin then Error(EACCES)
                          else if addr < 0xb0000 || addr + |data| > 0x100000 then Error(EINVAL)
                          else if !copies then Fault
                          else if outcome.Written? then Done else Error(EIO)
      // only a permitted, valid and complete request reaches the flash, and only its own range
      ensures !astray && result != Done && result != Error(EIO) ==> flash == old(flash)
      ensures !astray && result == Done ==> flash == old(flash)[..addr] + data + old(flash)[addr + |data|..]
      ensures !astray ==> |flash| == |old(flash)| && forall i :: 0 <= i < |flash| && !(addr <= i < addr + |data|) ==> flash[i] == old(flash)[i]
      ensures !astray ==>
                (flashCacheIsValid
                 <==> old(flashCacheIsValid) && !(admin && 0xb0000 <= addr <= 0xb1000 && addr + |data| <= 0x100000))
    {
      hide Stored, Page;
      ghost var op := Write(addr, data, admin, copies, outcome);
      NextIsCoherent(Abstract(), op, Cache());
      PassesIsInRangeIff(addr, |data|);
      astray := false;
      if !admin {
        return Error(EACCES), astray;
      } else if addr < FLASH_START_ADDR || Sum(addr, |data|) > FLASH_TOTAL_SIZE {
        return Error(EINVAL), astray;
      }
      if addr + |data| != Sum(addr, |data|) {
        // what follows would leave the flash
        return Fault, true;
      }
      result := if copies then Done else Fault;
      if copies {
        var ok := CbiosFlashWrite(addr, data, outcome);
        if !ok {
          result := Error(EIO);
        }
      }
      if addr <= FLASH_START_ADDR + FLASH_CACHE_SIZE {
        flashCacheIsValid := false;
      }
    }

    /** All operations; astray says that a range has passed the test without being in the flash, and that
      nothing is said about what the driver does with it. */
    method FlashOperation(op: Op) returns (result: Result, astray: bool)
      requires Valid() && Words(op)
      modifies this, flashCache
      ensures Valid() && astray == Astray(runOnQt, op)
      ensures !astray ==> result == CachedResult(old(Abstract()), op)
      ensures !astray ==> Abstract() == Next(old(Abstract()), op, Cache())
      ensures runOnQt || op.Unknown? ==> result == Error(EINVAL)
      ensures !runOnQt && op.GetStartAddr? ==> result == Value(0xb0000)
      ensures !runOnQt && op.GetMaxSize? ==> result == Value(0x50000)
      ensures runOnQt || !(op.Read? || op.Write?) ==> Abstract() == old(Abstract())
      ensures !astray && !runOnQt && op.Read? ==>
                && flash == old(flash)
                && result == if op.addr < 0xb0000 || op.addr + op.size > 0x100000 then Error(EINVAL)
                             else if !op.works && !(old(flashCacheIsValid) && op.addr + op.size <= 0xb1000) then Error(EIO)
                             else if op.copies then Data(flash[op.addr..op.addr + op.size]) else Fault
      ensures !astray && !runOnQt && op.Write? ==>
                && result == (if !op.admin then Error(EACCES)
                              else if op.addr < 0xb0000 || op.addr + |op.data| > 0x100000 then Error(EINVAL)
                              else if !op.copies then Fault
                              else if op.outcome.Written? then Done else Error(EIO))
                && (result != Done && result != Error(EIO) ==> flash == old(flash))
                && (result == Done ==> flash == old(flash)[..op.addr] + op.data + old(flash)[op.addr + |op.data|..])
    {
      hide Stored, Page, Strays;
      astray := false;
      if runOnQt {
        return Error(EINVAL), astray;
      }
      match op
      case GetStartAddr => result := Value(FLASH_START_ADDR);
      case GetMaxSize => result := Value(FLASH_TOTAL_SIZE - FLASH_START_ADDR);
      case Read(addr, size, works, copies) => result, astray := FlashRead(addr, size, works, copies);
      case Write(addr, data, admin, copies, outcome) => result, astray := FlashWrite(addr, data, admin, copies, outcome);
      case Unknown => result := Error(EINVAL);
    }
  }
}
