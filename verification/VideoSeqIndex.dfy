/** Handing out video sequence indices.

  The adapter marks the indices that are taken. Each device remembers its own in a bitmap of
  16 bytes, so that they can be taken back when the device goes away. The search for a free
  index goes on from where the last one has ended.
*/
module VideoSeqIndex {
  import opened Basics

  const MIN_VIDEO_SEQ_INDEX := 0
  const MAX_VIDEO_SEQ_INDEX_ADD1 := 128
  const BITMAP_BYTES := 16

  type Handle = nat
  type Bitmap = seq<bv8>

  // Bits of a byte.

  /** One shifted by j. */
  function Bit(j: nat): bv8 {
    if j == 0 then 1 else if j == 1 then 2 else if j == 2 then 4 else if j == 3 then 8
    else if j == 4 then 16 else if j == 5 then 32 else if j == 6 then 64 else 128
  }

  predicate HasBit(x: bv8, j: nat) {
    x & Bit(j) != 0
  }

  function SetBit(x: bv8, j: nat): bv8 {
    x | Bit(j)
  }

  function ClearBit(x: bv8, j: nat): bv8 {
    x & !Bit(j)
  }

  lemma BitsAreApart(x: bv8, i: nat, j: nat)
    requires i < 8 && j < 8
    ensures HasBit(SetBit(x, i), j) == (i == j || HasBit(x, j))
    ensures HasBit(ClearBit(x, i), j) == (i != j && HasBit(x, j))
    ensures !HasBit(0, j)
  {
  }

  predicate HasIndex(b: Bitmap, k: int) {
    0 <= k < 8 * |b| && HasBit(b[k / 8], k % 8)
  }

  function Zeros(): Bitmap {
    seq(BITMAP_BYTES, _ => 0)
  }

  function Added(b: Bitmap, k: nat): Bitmap
    requires k < 8 * |b|
  {
    b[k / 8 := SetBit(b[k / 8], k % 8)]
  }

  function Removed(b: Bitmap, k: nat): Bitmap
    requires k < 8 * |b|
  {
    b[k / 8 := ClearBit(b[k / 8], k % 8)]
  }

  /** The bytes i / 8 and bits i % 8 address every index once. */
  lemma BitmapIsSet(b: Bitmap, k: nat, i: int)
    requires k < 8 * |b|
    ensures HasIndex(Added(b, k), i) == (i == k || HasIndex(b, i))
    ensures HasIndex(Removed(b, k), i) == (i != k && HasIndex(b, i))
    ensures !HasIndex(Zeros(), i)
  {
    hide HasBit, SetBit, ClearBit;
    if 0 <= i {
      BitsAreApart(if i / 8 < |b| then b[i / 8] else 0, k % 8, i % 8);
      assert i == k <==> i / 8 == k / 8 && i % 8 == k % 8;
    }
  }

  /** Index k is bit k % 8 of byte k / 8, the lowest bit first. */
  lemma LayoutIs(b: Bitmap, k: nat)
    ensures HasIndex(b, k) <==> k / 8 < |b| && b[k / 8] & [1, 2, 4, 8, 16, 32, 64, 128][k % 8] != 0
  {
  }

  // Searching.

  /** The first free index from there on. */
  function NextFree(taken: seq<bool>, from: nat): (k: Option<nat>)
    requires from <= |taken|
    ensures k.None? <==> forall i :: from <= i < |taken| ==> taken[i]
    ensures k.Some? ==> from <= k.value < |taken| && !taken[k.value] && forall i :: from <= i < k.value ==> taken[i]
    decreases |taken| - from
  {
    if from == |taken| then None
    else if !taken[from] then Some(from)
    else NextFree(taken, from + 1)
  }

  /** The first free index in the order of the search. */
  function Search(taken: seq<bool>, start: nat): Option<nat>
    requires start <= |taken|
  {
    var k := NextFree(taken, start);
    if k.Some? then k else NextFree(taken, MIN_VIDEO_SEQ_INDEX)
  }

  /** The search finds an index if there is a free one, and the nearest in the order of the search. */
  lemma SearchIsComplete(taken: seq<bool>, start: nat)
    requires start <= |taken|
    ensures Search(taken, start).None? <==> forall i :: 0 <= i < |taken| ==> taken[i]
    ensures Search(taken, start).Some? ==>
              var k := Search(taken, start).value;
              && k < |taken| && !taken[k]
              && forall i :: 0 <= i < |taken| && !taken[i] ==>
                   if k >= start then i >= k || i < start else k <= i < start
  {
  }

  // The states.

  datatype State = State(
    start: nat,
    taken: seq<bool>,
    bitmaps: map<Handle, Bitmap>,
    unowned: set<int>)      // history: handed out on an unknown handle and not given back

  datatype Action =
    | Create(handle: Handle)
    | Destroy(handle: Handle)
    | Query(handle: Handle)
    | Return(index: int, handle: Handle)

  function Init(): (s: State)
    ensures Shaped(s)
  {
    State(MIN_VIDEO_SEQ_INDEX, seq(MAX_VIDEO_SEQ_INDEX_ADD1, _ => false), map[], {})
  }

  ghost predicate Shaped(s: State) {
    && |s.taken| == MAX_VIDEO_SEQ_INDEX_ADD1 && s.start < MAX_VIDEO_SEQ_INDEX_ADD1
    && forall h :: h in s.bitmaps ==> |s.bitmaps[h]| == BITMAP_BYTES
  }

  function Queried(s: State, h: Handle): (t: State)
    requires Shaped(s)
  {
    match Search(s.taken, s.start)
    case None => s.(start := MIN_VIDEO_SEQ_INDEX)
    case Some(k) =>
      var t := s.(taken := s.taken[k := true]);
      if h in s.bitmaps
      then t.(bitmaps := s.bitmaps[h := Added(s.bitmaps[h], k)], start := (k + 1) % MAX_VIDEO_SEQ_INDEX_ADD1)
      else t.(unowned := s.unowned + {k}, start := k)
  }

  function Returned(s: State, k: int, h: Handle): (t: State)
    requires Shaped(s)
  {
    if MIN_VIDEO_SEQ_INDEX <= k < MAX_VIDEO_SEQ_INDEX_ADD1 then
      var t := s.(taken := s.taken[k := false], unowned := s.unowned - {k});
      if h in s.bitmaps then t.(bitmaps := s.bitmaps[h := Removed(s.bitmaps[h], k)]) else t
    else s
  }

  function Destroyed(s: State, h: Handle): (t: State)
    requires Shaped(s)
  {
    if h in s.bitmaps then
      s.(taken := seq(|s.taken|, k requires 0 <= k < |s.taken| => s.taken[k] && !HasIndex(s.bitmaps[h], k)),
         bitmaps := s.bitmaps - {h})
    else s
  }

  function Next(s: State, a: Action): State
    requires Shaped(s)
  {
    match a
    case Create(h) => if h in s.bitmaps then s else s.(bitmaps := s.bitmaps[h := Zeros()])
    case Destroy(h) => Destroyed(s, h)
    case Query(h) => Queried(s, h)
    case Return(k, h) => Returned(s, k, h)
  }

  predicate Owns(s: State, h: Handle, k: int) {
    h in s.bitmaps && HasIndex(s.bitmaps[h], k)
  }

  ghost predicate Owned(s: State, k: int) {
    exists h :: Owns(s, h, k)
  }

  /** An index is taken exactly if it has an owner or is unowned, never both, and has no two owners. */
  ghost predicate InvAt(s: State, k: int)
    requires Shaped(s) && 0 <= k < MAX_VIDEO_SEQ_INDEX_ADD1
  {
    && (s.taken[k] <==> Owned(s, k) || k in s.unowned)
    && !(Owned(s, k) && k in s.unowned)
    && forall g, h :: Owns(s, g, k) && Owns(s, h, k) ==> g == h
  }

  ghost predicate Inv(s: State) {
    Shaped(s) && forall k :: 0 <= k < MAX_VIDEO_SEQ_INDEX_ADD1 ==> InvAt(s, k)
  }

  /** No other device has the index. */
  ghost predicate MayReturn(s: State, k: int, h: Handle) {
    forall g :: Owns(s, g, k) ==> g == h
  }

  lemma NextIsShaped(s: State, a: Action)
    requires Shaped(s)
    ensures Shaped(Next(s, a))
  {
    hide NextFree, HasIndex;
    SearchIsComplete(s.taken, s.start);
  }

  /** What one action does to ownership. */
  lemma OwnsAfter(s: State, a: Action, g: Handle, k: int)
    requires Shaped(s)
    ensures Owns(Next(s, a), g, k) <==>
            match a
            case Create(h) => Owns(s, g, k)
            case Destroy(h) => g != h && Owns(s, g, k)
            case Query(h) => Owns(s, g, k) || (g == h && h in s.bitmaps && Search(s.taken, s.start) == Some(k))
            case Return(i, h) => Owns(s, g, k) && !(g == h && i == k)
  {
    hide HasIndex, NextFree;
    SearchIsComplete(s.taken, s.start);
    match a
    case Create(h) =>
      BitmapIsSet(Zeros(), 0, k);
    case Destroy(h) =>
    case Query(h) =>
      var found := Search(s.taken, s.start);
      if found.Some? && h in s.bitmaps {
        BitmapIsSet(s.bitmaps[h], found.value, k);
      }
    case Return(i, h) =>
      if 0 <= i < MAX_VIDEO_SEQ_INDEX_ADD1 && h in s.bitmaps {
        BitmapIsSet(s.bitmaps[h], i, k);
      } else {
        RangeOfIndex(s, g, k);
      }
  }

  lemma RangeOfIndex(s: State, g: Handle, k: int)
    requires Shaped(s)
    ensures Owns(s, g, k) ==> 0 <= k < MAX_VIDEO_SEQ_INDEX_ADD1
  {
  }

  lemma TakenAfter(s: State, a: Action, k: nat)
    requires Shaped(s) && k < MAX_VIDEO_SEQ_INDEX_ADD1
    ensures Shaped(Next(s, a))
    ensures Next(s, a).taken[k] <==>
            match a
            case Create(_) => s.taken[k]
            case Destroy(h) => s.taken[k] && !Owns(s, h, k)
            case Query(_) => s.taken[k] || Search(s.taken, s.start) == Some(k)
            case Return(i, _) => s.taken[k] && i != k
    ensures Search(s.taken, s.start) == Some(k) ==> !s.taken[k]
  {
    hide HasIndex, NextFree;
    NextIsShaped(s, a);
    SearchIsComplete(s.taken, s.start);
  }

  lemma UnownedAfter(s: State, a: Action, k: nat)
    requires Shaped(s) && k < MAX_VIDEO_SEQ_INDEX_ADD1
    ensures k in Next(s, a).unowned <==>
            match a
            case Query(h) => k in s.unowned || (h !in s.bitmaps && Search(s.taken, s.start) == Some(k))
            case Return(i, _) => k in s.unowned && i != k
            case _ => k in s.unowned
  {
    hide HasIndex, Search;
  }

  lemma OneIndexKept(s: State, a: Action, k: nat)
    requires Shaped(s) && k < MAX_VIDEO_SEQ_INDEX_ADD1 && InvAt(s, k)
    requires a.Return? ==> MayReturn(s, a.index, a.handle)
    ensures Shaped(Next(s, a)) && InvAt(Next(s, a), k)
  {
    hide Next, Search, Shaped;
    TakenAfter(s, a, k);
    UnownedAfter(s, a, k);
    forall g { OwnsAfter(s, a, g, k); }
    var t := Next(s, a);
    OwnedAfter(s, a, k);
  }

  lemma OwnedAfter(s: State, a: Action, k: nat)
    requires Shaped(s) && k < MAX_VIDEO_SEQ_INDEX_ADD1 && InvAt(s, k)
    requires a.Return? ==> MayReturn(s, a.index, a.handle)
    ensures Shaped(Next(s, a))
    ensures Owned(Next(s, a), k) <==>
            match a
            case Create(_) => Owned(s, k)
            case Destroy(h) => Owned(s, k) && !Owns(s, h, k)
            case Query(h) => Owned(s, k) || (h in s.bitmaps && Search(s.taken, s.start) == Some(k))
            case Return(i, h) => Owned(s, k) && i != k
  {
    NextIsShaped(s, a);
    hide Next, Search, Shaped, HasIndex;
    var t := Next(s, a);
    forall g { OwnsAfter(s, a, g, k); }
    if Owned(t, k) {
      var g :| Owns(t, g, k);
    }
    if Owned(s, k) {
      var g :| Owns(s, g, k);
      assert a.Create? || a.Query? ==> Owns(t, g, k);
      assert a.Destroy? && !Owns(s, a.handle, k) ==> Owns(t, g, k);
      assert a.Return? && a.index != k ==> Owns(t, g, k);
    }
    if a.Query? && a.handle in s.bitmaps && Search(s.taken, s.start) == Some(k) {
      assert Owns(t, a.handle, k);
    }
  }

  /** Ownership is kept by every action, except by returns that another device would have to make. */
  lemma NextKeeps(s: State, a: Action)
    requires Inv(s) && (a.Return? ==> MayReturn(s, a.index, a.handle))
    ensures Inv(Next(s, a))
  {
    NextIsShaped(s, a);
    hide InvAt, Next, Shaped;
    forall k | 0 <= k < MAX_VIDEO_SEQ_INDEX_ADD1 ensures InvAt(Next(s, a), k) {
      OneIndexKept(s, a, k);
    }
  }

  /** A return keeps it exactly if no other device has the index. */
  lemma ReturnKeepsInvIff(s: State, k: nat, h: Handle)
    requires Inv(s) && k < MAX_VIDEO_SEQ_INDEX_ADD1
    ensures Inv(Next(s, Return(k, h))) <==> MayReturn(s, k, h)
  {
    var a := Return(k, h);
    hide Next, HasIndex;
    if MayReturn(s, k, h) {
      NextKeeps(s, a);
    } else {
      var g :| Owns(s, g, k) && g != h;
      OwnsAfter(s, a, g, k);
      TakenAfter(s, a, k);
      assert Owned(Next(s, a), k) && !Next(s, a).taken[k];
      assert !InvAt(Next(s, a), k);
    }
  }

  // What holds after every sequence of actions.

  function Run(s: State, actions: seq<Action>): (t: State)
    requires Shaped(s)
    ensures Shaped(t)
    decreases |actions|
  {
    if actions == [] then s
    else
      NextIsShaped(s, actions[0]);
      Run(Next(s, actions[0]), actions[1..])
  }

  /** Indices are only given back on behalf of the device that has them. */
  ghost predicate Permitted(s: State, actions: seq<Action>)
    requires Shaped(s)
    decreases |actions|
  {
    actions != [] ==>
      var a := actions[0];
      NextIsShaped(s, a);
      (a.Return? ==> MayReturn(s, a.index, a.handle)) && Permitted(Next(s, a), actions[1..])
  }

  lemma {:induction false} RunKeeps(s: State, actions: seq<Action>)
    requires Inv(s) && Permitted(s, actions)
    ensures Inv(Run(s, actions))
    decreases |actions|
  {
    hide InvAt, Next, Shaped;
    if actions == [] {
    } else {
      NextKeeps(s, actions[0]);
      RunKeeps(Next(s, actions[0]), actions[1..]);
    }
  }

  lemma InitKeeps()
    ensures Inv(Init())
  {
    assert forall k, h :: !Owns(Init(), h, k);
  }

  function Free(s: State): set<int> {
    set i | 0 <= i < |s.taken| && !s.taken[i]
  }

  /** While g has an index that is marked free, h comes by it as well if it only goes on asking. */
  lemma {:induction false} QueriesShare(s: State, k: nat, g: Handle, h: Handle) returns (actions: seq<Action>)
    requires Shaped(s) && k in Free(s) && Owns(s, g, k) && h in s.bitmaps
    ensures forall i :: 0 <= i < |actions| ==> actions[i] == Query(h)
    ensures Owns(Run(s, actions), g, k) && Owns(Run(s, actions), h, k)
    decreases |Free(s)|
  {
    hide HasIndex, NextFree, Search;
    SearchIsComplete(s.taken, s.start);
    var t := Next(s, Query(h));
    NextIsShaped(s, Query(h));
    OwnsAfter(s, Query(h), g, k);
    OwnsAfter(s, Query(h), h, k);
    if Search(s.taken, s.start) == Some(k) {
      actions := [Query(h)];
      assert actions[1..] == [] && Run(t, []) == t;
    } else {
      var j := Search(s.taken, s.start).value;
      assert Free(t) == Free(s) - {j} && j in Free(s);
      var rest := QueriesShare(t, k, g, h);
      actions := [Query(h)] + rest;
      assert actions[1..] == rest;
    }
  }

  /** So a return on behalf of the wrong device ends, after some queries, with two owners. */
  lemma ReturnByOtherIsShared(s: State, k: nat, g: Handle, h: Handle)
    requires Shaped(s) && k < MAX_VIDEO_SEQ_INDEX_ADD1 && Owns(s, g, k) && g != h && h in s.bitmaps
    ensures Shaped(Next(s, Return(k, h)))
    ensures exists actions: seq<Action> ::
              && (forall i :: 0 <= i < |actions| ==> actions[i] == Query(h))
              && Owns(Run(Next(s, Return(k, h)), actions), g, k)
              && Owns(Run(Next(s, Return(k, h)), actions), h, k)
  {
    hide HasIndex, Run;
    TakenAfter(s, Return(k, h), k);
    OwnsAfter(s, Return(k, h), g, k);
    var t := Next(s, Return(k, h));
    var actions := QueriesShare(t, k, g, h);
    assert Owns(Run(t, actions), g, k) && Owns(Run(t, actions), h, k);
  }

  /** Two devices never have the same index, and what a device has is taken. */
  lemma OwnershipIsExclusive(actions: seq<Action>, g: Handle, k: int)
    requires Permitted(Init(), actions)
    ensures var s := Run(Init(), actions);
            Owns(s, g, k) ==> 0 <= k < |s.taken| && s.taken[k] && forall h :: Owns(s, h, k) ==> h == g
  {
    InitKeeps();
    RunKeeps(Init(), actions);
    hide Run, Permitted, Owns;
    var s := Run(Init(), actions);
    RangeOfIndex(s, g, k);
    if Owns(s, g, k) { assert InvAt(s, k); }
  }

  /** Nothing leaks: once every device is gone, only what was never owned is still taken. */
  lemma NothingLeaks(actions: seq<Action>, k: nat)
    requires Permitted(Init(), actions) && k < MAX_VIDEO_SEQ_INDEX_ADD1
    ensures var s := Run(Init(), actions);
            |s.taken| == MAX_VIDEO_SEQ_INDEX_ADD1 && (s.bitmaps == map[] ==> (s.taken[k] <==> k in s.unowned))
  {
    InitKeeps();
    RunKeeps(Init(), actions);
    hide Run, Permitted, HasIndex;
    var s := Run(Init(), actions);
    assert InvAt(s, k);
  }

  /** A query hands out an index that nobody has, and fails exactly if somebody has each. */
  lemma QueryIsFair(s: State)
    requires Inv(s)
    ensures Search(s.taken, s.start).Some? ==>
              var k := Search(s.taken, s.start).value;
              k < MAX_VIDEO_SEQ_INDEX_ADD1 && !Owned(s, k) && k !in s.unowned
    ensures Search(s.taken, s.start).None?
            <==> forall k :: 0 <= k < MAX_VIDEO_SEQ_INDEX_ADD1 ==> Owned(s, k) || k in s.unowned
  {
    SearchIsComplete(s.taken, s.start);
    hide Owned, Search, NextFree;
    forall k | 0 <= k < MAX_VIDEO_SEQ_INDEX_ADD1 ensures s.taken[k] <==> Owned(s, k) || k in s.unowned {
      assert InvAt(s, k);
    }
  }

  /** The search goes round: an index that is given back at once is handed out again only if it is the last. */
  lemma ReturnedIsReusedLast(s: State, h: Handle, k: nat)
    requires Shaped(s) && h in s.bitmaps && Search(s.taken, s.start) == Some(k)
    ensures Shaped(Next(s, Query(h))) && Shaped(Next(Next(s, Query(h)), Return(k, h)))
    ensures var t := Next(Next(s, Query(h)), Return(k, h));
            && t.taken == s.taken
            && (Search(t.taken, t.start) == Some(k) <==> forall i :: 0 <= i < |t.taken| && i != k ==> t.taken[i])
  {
    hide Next, NextFree, HasIndex, Search, Shaped;
    var u := Next(s, Query(h));
    NextIsShaped(s, Query(h));
    NextIsShaped(u, Return(k, h));
    var t := Next(u, Return(k, h));
    QueryTakes(s, h);
    ReturnMeans(u, k, h);
    ShapedMeans(s);
    ShapedMeans(t);
    SearchIsComplete(t.taken, t.start);
    assert t.taken == s.taken;
    if Search(t.taken, t.start) == Some(k) {
      forall i | 0 <= i < |t.taken| && i != k ensures t.taken[i] {
      }
    }
  }

  lemma ShapedMeans(s: State)
    requires Shaped(s)
    ensures |s.taken| == MAX_VIDEO_SEQ_INDEX_ADD1 == 128 && s.start < 128
  {
  }

  /** Destroying a device frees exactly its own indices. */
  lemma DestroyFreesOwn(s: State, h: Handle, k: nat)
    requires Inv(s) && k < MAX_VIDEO_SEQ_INDEX_ADD1
    ensures var t := Next(s, Destroy(h));
            && Inv(t) && h !in t.bitmaps
            && (t.taken[k] <==> s.taken[k] && !Owns(s, h, k))
            && (forall g :: g != h ==> (Owns(t, g, k) <==> Owns(s, g, k)))
            && (Owns(s, h, k) ==> s.taken[k] && !t.taken[k])
  {
    var a := Destroy(h);
    NextKeeps(s, a);
    TakenAfter(s, a, k);
    forall g { OwnsAfter(s, a, g, k); }
    assert InvAt(s, k);
  }

  // The driver's functions.

  class Device {
    var videoSeqIndex: Bitmap

    constructor ()
      ensures videoSeqIndex == Zeros()
    {
      videoSeqIndex := Zeros();
    }
  }

  class Adapter {
    var startIndex: nat
    const endIndex: nat
    const bVideoSeqIndex: array<bool>
    var devices: map<Handle, Device>
    ghost var unowned: set<int>

    ghost function Abstract(): State
      reads this, bVideoSeqIndex, devices.Values
    {
      State(startIndex, bVideoSeqIndex[..], map h | h in devices :: devices[h].videoSeqIndex, unowned)
    }

    ghost predicate Valid()
      reads this, bVideoSeqIndex, devices.Values
    {
      && Shaped(Abstract())
      && startIndex < endIndex == bVideoSeqIndex.Length == MAX_VIDEO_SEQ_INDEX_ADD1
      && (forall h :: h in devices ==> |devices[h].videoSeqIndex| == BITMAP_BYTES)
      && forall g, h :: g in devices && h in devices && devices[g] == devices[h] ==> g == h
    }

    constructor ()
      ensures Valid() && Abstract() == Init() && fresh(bVideoSeqIndex)
    {
      startIndex, endIndex := MIN_VIDEO_SEQ_INDEX, MAX_VIDEO_SEQ_INDEX_ADD1;
      bVideoSeqIndex := new bool[MAX_VIDEO_SEQ_INDEX_ADD1](_ => false);
      devices, unowned := map[], {};
    }

    method CreateDevice(handle: Handle)
      requires Valid() && handle !in devices
      modifies this`devices
      ensures Valid() && Abstract() == Next(old(Abstract()), Create(handle))
      ensures handle in devices && fresh(devices[handle])
    {
      var device := new Device();
      devices := devices[handle := device];
    }

    /** Marks the index that the search has stopped at. */
    method Take(handle: Handle)
      requires Valid() && !bVideoSeqIndex[startIndex]
      modifies this`startIndex, this`unowned, bVideoSeqIndex, devices.Values
      ensures Valid() && Abstract() == Next(old(Abstract()), Query(handle))
    {
      hide NextFree, Added, HasIndex;
      ghost var before := Abstract();
      NextFreeStep(before.taken, startIndex);
      NextIsShaped(before, Query(handle));
      bVideoSeqIndex[startIndex] := true;
      if handle in devices {
        var device := devices[handle];
        device.videoSeqIndex := Added(device.videoSeqIndex, startIndex);
        startIndex := (startIndex + 1) % MAX_VIDEO_SEQ_INDEX_ADD1;
      } else {
        unowned := unowned + {startIndex};
      }
      assert bVideoSeqIndex[..] == before.taken[before.start := true];
      assert Abstract() == Next(before, Query(handle));
    }

    /** Goes round the indices, at most twice, until startIndex is free. */
    method FindFree() returns (found: bool)
      requires startIndex < endIndex == bVideoSeqIndex.Length
      modifies this`startIndex
      ensures startIndex < endIndex
      ensures var k := Search(bVideoSeqIndex[..], old(startIndex));
              found == k.Some? && startIndex == if found then k.value else MIN_VIDEO_SEQ_INDEX
    {
      hide NextFree;
      ghost var taken := bVideoSeqIndex[..];
      found := false;
      var searchNum := 0;
      while startIndex < endIndex
        invariant startIndex < endIndex == |taken| && 0 <= searchNum < 2
        invariant searchNum == 0 ==> NextFree(taken, startIndex) == NextFree(taken, old(startIndex))
        invariant searchNum == 1 ==> NextFree(taken, old(startIndex)) == None
        invariant searchNum == 1 ==> NextFree(taken, startIndex) == NextFree(taken, MIN_VIDEO_SEQ_INDEX)
        decreases (2 - searchNum) * endIndex - startIndex
      {
        NextFreeStep(taken, startIndex);
        if !bVideoSeqIndex[startIndex] {
          found := true;
          return;
        }
        startIndex := startIndex + 1;
        if startIndex == endIndex {
          searchNum := searchNum + 1;
          startIndex := MIN_VIDEO_SEQ_INDEX;
        }
        if searchNum == 2 {
          return;
        }
      }
    }

    method QueryVideoSeqIndex(handle: Handle) returns (status: int, value: nat)
      requires Valid()
      modifies this`startIndex, this`unowned, bVideoSeqIndex, devices.Values
      ensures Valid() && Abstract() == Next(old(Abstract()), Query(handle))
      ensures var found := Search(old(bVideoSeqIndex[..]), old(startIndex));
              if found.Some? then status == 0 && value == found.value else status == -1
      ensures status == -1 <==> forall i :: 0 <= i < bVideoSeqIndex.Length ==> old(bVideoSeqIndex[i])
      ensures status == 0 ==> value < bVideoSeqIndex.Length && !old(bVideoSeqIndex[value])
      ensures bVideoSeqIndex[..] == if status == 0 then old(bVideoSeqIndex[..])[value := true] else old(bVideoSeqIndex[..])
      ensures startIndex == if status != 0 then 0 else if handle in devices then (value + 1) % 128 else value
    {
      QueryTakes(Abstract(), handle);
      hide NextFree, Added, HasIndex, Search, Queried, Next;
      value := 0;
      ghost var before := Abstract();
      var found := FindFree();
      SearchFromFound(before, handle);
      assert Abstract() == before.(start := startIndex);
      if found {
        value := startIndex;
        Take(handle);
        status := 0;
      } else {
        status := -1;
      }
    }

    /** A device gives an index back. */
    method ReturnVideoSeqIndex(value: int, handle: Handle)
      requires Valid()
      modifies this`unowned, bVideoSeqIndex, devices.Values
      ensures Valid() && Abstract() == Next(old(Abstract()), Return(value, handle))
      ensures forall i :: 0 <= i < bVideoSeqIndex.Length ==> bVideoSeqIndex[i] == (old(bVideoSeqIndex[i]) && i != value)
    {
      ReturnMeans(Abstract(), value, handle);
      hide NextFree, Removed, HasIndex;
      ghost var before := Abstract();
      NextIsShaped(before, Return(value, handle));
      if MIN_VIDEO_SEQ_INDEX <= value < MAX_VIDEO_SEQ_INDEX_ADD1 {
        bVideoSeqIndex[value] := false;
        unowned := unowned - {value};
        if handle in devices {
          var device := devices[handle];
          device.videoSeqIndex := Removed(device.videoSeqIndex, value);
        }
        assert bVideoSeqIndex[..] == before.taken[value := false];
      }
      assert Abstract() == Next(before, Return(value, handle));
    }

    /** Takes the indices of a device back, byte by byte and bit by bit. */
    method FreeIndices(bitmap: Bitmap)
      requires bVideoSeqIndex.Length == MAX_VIDEO_SEQ_INDEX_ADD1 && |bitmap| == BITMAP_BYTES
      modifies bVideoSeqIndex
      ensures forall k :: 0 <= k < bVideoSeqIndex.Length ==>
                bVideoSeqIndex[k] == (old(bVideoSeqIndex[k]) && !HasIndex(bitmap, k))
    {
      hide HasBit;
      for i := 0 to BITMAP_BYTES
        invariant forall k :: 0 <= k < bVideoSeqIndex.Length ==>
                    bVideoSeqIndex[k] == (old(bVideoSeqIndex[k]) && !(k < 8 * i && HasIndex(bitmap, k)))
      {
        if bitmap[i] == 0 {
          EmptyByte(bitmap, i);
          continue;
        }
        for j := 0 to 8
          invariant forall k :: 0 <= k < bVideoSeqIndex.Length ==>
                      bVideoSeqIndex[k] == (old(bVideoSeqIndex[k]) && !(k < 8 * i + j && HasIndex(bitmap, k)))
        {
          assert (i * 8 + j) / 8 == i && (i * 8 + j) % 8 == j;
          if HasBit(bitmap[i], j) {
            bVideoSeqIndex[i * 8 + j] := false;
          }
        }
      }
    }

    /** Closes a device; an unknown handle is reported and changes nothing. */
    method DestroyDevice(handle: Handle)
      requires Valid()
      modifies this`devices, bVideoSeqIndex, devices.Values
      ensures Valid() && Abstract() == Next(old(Abstract()), Destroy(handle))
      ensures devices == old(devices) - {handle}
      ensures forall i :: 0 <= i < bVideoSeqIndex.Length ==>
                bVideoSeqIndex[i]
                == (old(bVideoSeqIndex[i]) && !(handle in old(devices) && old(HasIndex(devices[handle].videoSeqIndex, i))))
      ensures forall h :: h in devices ==> devices[h].videoSeqIndex == old(devices[h].videoSeqIndex)
    {
      hide HasIndex;
      ghost var before := Abstract();
      if handle in devices {
        var device := devices[handle];
        FreeIndices(device.videoSeqIndex);
        device.videoSeqIndex := Zeros();
        devices := devices - {handle};
        assert bVideoSeqIndex[..] == Next(before, Destroy(handle)).taken;
      }
      assert Abstract() == Next(before, Destroy(handle));
    }

    /** The same at the end of a process. It does not test for an unknown handle where it destroys the
      device, but passes null on, and the function that it calls uses it. */
    method FinalCleanup(handle: Handle) returns (passesNull: bool)
      requires Valid()
      modifies this`devices, bVideoSeqIndex, devices.Values
      ensures passesNull <==> handle !in old(devices)
      ensures Valid() && Abstract() == Next(old(Abstract()), Destroy(handle))
    {
      passesNull := handle !in devices;
      DestroyDevice(handle);
    }
  }

  lemma QueryTakes(s: State, h: Handle)
    requires Shaped(s)
    ensures var t, found := Next(s, Query(h)), Search(s.taken, s.start);
            && |t.taken| == |s.taken|
            && (found.None? <==> forall i :: 0 <= i < |s.taken| ==> s.taken[i])
            && (found.Some? ==> found.value < |s.taken| && !s.taken[found.value])
            && t.taken == (if found.Some? then s.taken[found.value := true] else s.taken)
            && t.start == (if found.None? then 0 else if h in s.bitmaps then (found.value + 1) % 128 else found.value)
  {
    SearchIsComplete(s.taken, s.start);
    hide HasIndex, Search, NextFree, Added;
  }

  /** What a query does: it takes the first free index from the start on, going round once, for the device. */
  lemma QueryMeans(s: State, h: Handle)
    requires Shaped(s)
    ensures var t, found := Next(s, Query(h)), Search(s.taken, s.start);
            && |t.taken| == |s.taken|
            && (found.None? <==> forall i :: 0 <= i < |s.taken| ==> s.taken[i])
            && (found.Some? ==>
                  && found.value < |s.taken| && !s.taken[found.value]
                  && forall i :: 0 <= i < |s.taken| && !s.taken[i] ==>
                       if found.value >= s.start then i >= found.value || i < s.start else found.value <= i < s.start)
            && (forall i :: 0 <= i < |s.taken| ==> t.taken[i] == (s.taken[i] || found == Some(i)))
            && t.start == (if found.None? then 0 else if h in s.bitmaps then (found.value + 1) % 128 else found.value)
            && t.bitmaps.Keys == s.bitmaps.Keys
            && forall g, i :: g in s.bitmaps ==>
                 (HasIndex(t.bitmaps[g], i) <==> HasIndex(s.bitmaps[g], i) || (g == h && found.Some? && found.value == i))
  {
    SearchIsComplete(s.taken, s.start);
    NextIsShaped(s, Query(h));
    var t, found := Next(s, Query(h)), Search(s.taken, s.start);
    hide HasIndex, Search, NextFree, Added;
    forall g, i | g in s.bitmaps
      ensures HasIndex(t.bitmaps[g], i) <==> HasIndex(s.bitmaps[g], i) || (g == h && found.Some? && found.value == i)
    {
      if found.Some? { BitmapIsSet(s.bitmaps[g], found.value, i); }
    }
  }

  /** What a return does: the index is free again, and the device has it no longer. */
  lemma ReturnMeans(s: State, k: int, h: Handle)
    requires Shaped(s)
    ensures var t := Next(s, Return(k, h));
            && |t.taken| == |s.taken| && t.start == s.start && t.bitmaps.Keys == s.bitmaps.Keys
            && (forall i :: 0 <= i < |s.taken| ==> t.taken[i] == (s.taken[i] && i != k))
            && forall g, i :: g in s.bitmaps ==> (HasIndex(t.bitmaps[g], i) <==> HasIndex(s.bitmaps[g], i) && !(g == h && i == k))
  {
    var t := Next(s, Return(k, h));
    hide HasIndex, Removed;
    forall i | 0 <= i < |s.taken| ensures t.taken[i] == (s.taken[i] && i != k) {
      TakenAfter(s, Return(k, h), i);
    }
    forall g, i | g in s.bitmaps ensures HasIndex(t.bitmaps[g], i) <==> HasIndex(s.bitmaps[g], i) && !(g == h && i == k) {
      OwnsAfter(s, Return(k, h), g, i);
    }
  }

  lemma EmptyByte(b: Bitmap, i: nat)
    requires i < |b| && b[i] == 0
    ensures forall k :: 8 * i <= k < 8 * i + 8 ==> !HasIndex(b, k)
  {
    forall k | 8 * i <= k < 8 * i + 8 ensures !HasIndex(b, k) {
      BitsAreApart(0, 0, k % 8);
    }
  }

  /** Moving on to where the search ends does not change what the query does. */
  lemma SearchFromFound(s: State, h: Handle)
    requires Shaped(s)
    ensures match Search(s.taken, s.start)
            case Some(k) => k < MAX_VIDEO_SEQ_INDEX_ADD1 && Next(s.(start := k), Query(h)) == Next(s, Query(h))
            case None => Next(s, Query(h)) == s.(start := MIN_VIDEO_SEQ_INDEX)
  {
    hide NextFree, Added;
    var k := Search(s.taken, s.start);
    if k.Some? {
      NextFreeStep(s.taken, k.value);
    }
  }

  lemma NextFreeStep(taken: seq<bool>, k: nat)
    requires k < |taken|
    ensures NextFree(taken, k) == if taken[k] then NextFree(taken, k + 1) else Some(k)
    ensures NextFree(taken, |taken|) == None
  {
  }
}
