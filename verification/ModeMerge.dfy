/** Merging the mode list of a device with the list of modes that the adapter can scale.

  Both lists hold size and refresh rate (in hundredths of a hertz). The device list is in
  descending order, the adapter list in ascending order.
*/
module ModeMerge {
  import opened BitMasks
  import opened Basics

  datatype Mode = Mode(
    xres: nat,
    yres: nat,
    refresh: nat,
    scanCaps: bv32,       // 1: progressive, 2: interlaced
    deviceFlags: bv32,
    colorCaps: bv32,
    aspectCaps: bv32,
    preferred: bool,
    supportsY420: bool,
    onlyY420: bool)

  datatype Key = Key(xres: nat, yres: nat, refresh: nat)

  function KeyOf(m: Mode): Key {
    Key(m.xres, m.yres, m.refresh)
  }

  /** Width decides first, then height, then refresh rate. */
  predicate Above(x: Key, y: Key) {
    || x.xres > y.xres
    || (x.xres == y.xres && x.yres > y.yres)
    || (x.xres == y.xres && x.yres == y.yres && x.refresh > y.refresh)
  }

  /** No larger than the top mode in any respect. */
  predicate Bounded(m: Mode, top: Mode) {
    m.xres <= top.xres && m.yres <= top.yres && m.refresh <= top.refresh
  }

  /** A device mode that the adapter has as well. */
  function Combined(d: Mode, a: Mode): (m: Mode)
    ensures KeyOf(m) == KeyOf(d)
  {
    d.(scanCaps := On(d.scanCaps, a.scanCaps), deviceFlags := On(d.deviceFlags, a.deviceFlags),
       colorCaps := On(d.colorCaps, a.colorCaps), aspectCaps := On(d.aspectCaps, a.aspectCaps))
  }

  /** A combined mode can do what either can; everything else is that of the device mode. */
  lemma CombinedCan(d: Mode, a: Mode, b: bv32)
    requires OneBit(b)
    ensures var m := Combined(d, a);
            && (Has(m.scanCaps, b) <==> Has(d.scanCaps, b) || Has(a.scanCaps, b))
            && (Has(m.deviceFlags, b) <==> Has(d.deviceFlags, b) || Has(a.deviceFlags, b))
            && (Has(m.colorCaps, b) <==> Has(d.colorCaps, b) || Has(a.colorCaps, b))
            && (Has(m.aspectCaps, b) <==> Has(d.aspectCaps, b) || Has(a.aspectCaps, b))
            && KeyOf(m) == KeyOf(d) && m.preferred == d.preferred
            && m.supportsY420 == d.supportsY420 && m.onlyY420 == d.onlyY420
  {
    hide Has, On, OneBit;
    OnBit(d.scanCaps, a.scanCaps, b);
    OnBit(d.deviceFlags, a.deviceFlags, b);
    OnBit(d.colorCaps, a.colorCaps, b);
    OnBit(d.aspectCaps, a.aspectCaps, b);
  }

  ghost predicate Falling(s: seq<Mode>) {
    forall i, j :: 0 <= i < j < |s| ==> Above(KeyOf(s[i]), KeyOf(s[j]))
  }

  /** Falling, but neighbours may have the same key. */
  ghost predicate NotRising(s: seq<Mode>) {
    forall i, j :: 0 <= i < j < |s| ==> !Above(KeyOf(s[j]), KeyOf(s[i]))
  }

  ghost predicate Rising(s: seq<Mode>) {
    forall i, j :: 0 <= i < j < |s| ==> Above(KeyOf(s[j]), KeyOf(s[i]))
  }

  function Reversed(s: seq<Mode>): seq<Mode> {
    seq(|s|, i requires 0 <= i < |s| => s[|s| - 1 - i])
  }

  /** The adapter modes that are not larger than the top mode. */
  function Kept(s: seq<Mode>, top: Mode): seq<Mode> {
    if s == [] then []
    else if Bounded(s[0], top) then [s[0]] + Kept(s[1..], top)
    else Kept(s[1..], top)
  }

  function Merged(d: seq<Mode>, a: seq<Mode>): seq<Mode>
    decreases |d| + |a|
  {
    if d == [] then a
    else if a == [] then d
    else if Above(KeyOf(d[0]), KeyOf(a[0])) then [d[0]] + Merged(d[1..], a)
    else if KeyOf(d[0]) == KeyOf(a[0]) then [Combined(d[0], a[0])] + Merged(d[1..], a[1..])
    else [a[0]] + Merged(d, a[1..])
  }

  /** The first mode with this key. */
  function Find(s: seq<Mode>, k: Key): Option<Mode> {
    if s == [] then None
    else if KeyOf(s[0]) == k then Some(s[0])
    else Find(s[1..], k)
  }

  predicate HasKey(s: seq<Mode>, k: Key) {
    exists i :: 0 <= i < |s| && KeyOf(s[i]) == k
  }

  /** The number of adapter modes that the device has as well. */
  function Coincidences(d: seq<Mode>, a: seq<Mode>): nat {
    if a == [] then 0
    else (if HasKey(d, KeyOf(a[0])) then 1 else 0) + Coincidences(d, a[1..])
  }

  // Order.

  lemma AboveIsTransitive(x: Key, y: Key, z: Key)
    ensures Above(x, y) && Above(y, z) ==> Above(x, z)
    ensures Above(x, y) && !Above(z, y) ==> Above(x, z)
    ensures !Above(y, x) && Above(y, z) ==> Above(x, z)
    ensures !Above(x, x) && (x == y || Above(x, y) || Above(y, x))
  {
  }

  lemma {:induction false} FindsIff(s: seq<Mode>, k: Key)
    ensures Find(s, k).Some? <==> HasKey(s, k)
    ensures Find(s, k).Some? ==> KeyOf(Find(s, k).value) == k && Find(s, k).value in s
  {
    if s == [] {
    } else {
      FindsIff(s[1..], k);
      if HasKey(s, k) && KeyOf(s[0]) != k {
        var i :| 0 <= i < |s| && KeyOf(s[i]) == k;
        assert s[1..][i - 1] == s[i];
      }
      if HasKey(s[1..], k) {
        var i :| 0 <= i < |s[1..]| && KeyOf(s[1..][i]) == k;
        assert s[i + 1] == s[1..][i];
      }
    }
  }

  lemma NothingAbove(s: seq<Mode>, k: Key)
    requires NotRising(s) && (s != [] ==> Above(k, KeyOf(s[0])))
    ensures Find(s, k) == None
  {
    FindsIff(s, k);
    forall i | 0 <= i < |s| ensures KeyOf(s[i]) != k {
      assert i == 0 || !Above(KeyOf(s[i]), KeyOf(s[0]));
    }
  }

  lemma FallingIsNotRising(s: seq<Mode>)
    requires Falling(s)
    ensures NotRising(s)
  {
    forall i, j | 0 <= i < j < |s| ensures !Above(KeyOf(s[j]), KeyOf(s[i])) {
      assert Above(KeyOf(s[i]), KeyOf(s[j]));
    }
  }

  lemma Tail(s: seq<Mode>)
    requires s != []
    ensures NotRising(s) ==> NotRising(s[1..])
    ensures Falling(s) ==> Falling(s[1..])
    ensures s == [s[0]] + s[1..]
  {
  }

  // What the merged list holds.

  /** Looking up a key in the merged list combines what the two lists have under it. */
  lemma {:induction false} MergedFinds(d: seq<Mode>, a: seq<Mode>, k: Key)
    requires NotRising(d) && Falling(a)
    ensures Find(Merged(d, a), k) ==
            match (Find(d, k), Find(a, k))
            case (Some(x), Some(y)) => Some(Combined(x, y))
            case (Some(x), None) => Some(x)
            case (None, found) => found
    decreases |d| + |a|
  {
    hide Above, Combined;
    if d == [] || a == [] {
    } else {
      var x, y := KeyOf(d[0]), KeyOf(a[0]);
      Tail(d);
      Tail(a);
      FallingIsNotRising(a);
      AboveIsTransitive(x, y, k);
      AboveIsTransitive(y, x, k);
      if Above(x, y) {
        MergedFinds(d[1..], a, k);
        if x == k { NothingAbove(a, k); }
      } else if x == y {
        MergedFinds(d[1..], a[1..], k);
      } else {
        MergedFinds(d, a[1..], k);
        if y == k { NothingAbove(d, k); }
      }
    }
  }

  /** The merged list has the keys of both lists. */
  lemma MergedKeys(d: seq<Mode>, a: seq<Mode>, k: Key)
    requires NotRising(d) && Falling(a)
    ensures HasKey(Merged(d, a), k) <==> HasKey(d, k) || HasKey(a, k)
  {
    MergedFinds(d, a, k);
    FindsIff(Merged(d, a), k);
    FindsIff(d, k);
    FindsIff(a, k);
  }

  /** Everything in the merged list comes from one of the lists, or from both. */
  lemma {:induction false} MergedOrigin(d: seq<Mode>, a: seq<Mode>, m: Mode)
    requires m in Merged(d, a)
    ensures m in d || m in a || exists x, y :: x in d && y in a && KeyOf(x) == KeyOf(y) && m == Combined(x, y)
    decreases |d| + |a|
  {
    hide Above, Combined;
    if d == [] || a == [] {
    } else {
      if Above(KeyOf(d[0]), KeyOf(a[0])) {
        if m != d[0] { MergedOrigin(d[1..], a, m); }
      } else if KeyOf(d[0]) == KeyOf(a[0]) {
        if m != Combined(d[0], a[0]) { MergedOrigin(d[1..], a[1..], m); }
      } else {
        if m != a[0] { MergedOrigin(d, a[1..], m); }
      }
    }
  }

  /** Nothing gets lost: a mode is in the merged list as it is, or combined with one of the same size and rate. */
  lemma {:induction false} MergedHolds(d: seq<Mode>, a: seq<Mode>, m: Mode)
    ensures m in d ==> m in Merged(d, a) || exists y :: y in a && KeyOf(y) == KeyOf(m) && Combined(m, y) in Merged(d, a)
    ensures m in a ==> m in Merged(d, a) || exists x :: x in d && KeyOf(x) == KeyOf(m) && Combined(x, m) in Merged(d, a)
    decreases |d| + |a|
  {
    hide Above, Combined;
    if d == [] || a == [] {
    } else {
      var r := Merged(d, a);
      assert r == [r[0]] + r[1..];
      if Above(KeyOf(d[0]), KeyOf(a[0])) {
        MergedHolds(d[1..], a, m);
      } else if KeyOf(d[0]) == KeyOf(a[0]) {
        MergedHolds(d[1..], a[1..], m);
        assert Combined(d[0], a[0]) in r;
      } else {
        MergedHolds(d, a[1..], m);
      }
    }
  }

  /** Which sizes and rates the merged list has: those of either list. No order is needed for that. */
  lemma MergedSizes(d: seq<Mode>, a: seq<Mode>, w: nat, h: nat, f: nat)
    ensures (exists m :: m in Merged(d, a) && m.xres == w && m.yres == h && m.refresh == f)
            <==> || (exists m :: m in d && m.xres == w && m.yres == h && m.refresh == f)
                 || (exists m :: m in a && m.xres == w && m.yres == h && m.refresh == f)
  {
    if m :| m in Merged(d, a) && m.xres == w && m.yres == h && m.refresh == f {
      MergedOrigin(d, a, m);
    }
    if m :| m in d && m.xres == w && m.yres == h && m.refresh == f {
      MergedHolds(d, a, m);
    }
    if m :| m in a && m.xres == w && m.yres == h && m.refresh == f {
      MergedHolds(d, a, m);
    }
    hide Merged, Above;
  }

  /** The keys of the merged list do not exceed any bound of both lists. */
  lemma MergedBelow(d: seq<Mode>, a: seq<Mode>, k: Key)
    requires forall i :: 0 <= i < |d| ==> !Above(KeyOf(d[i]), k)
    requires forall i :: 0 <= i < |a| ==> !Above(KeyOf(a[i]), k)
    ensures forall i :: 0 <= i < |Merged(d, a)| ==> !Above(KeyOf(Merged(d, a)[i]), k)
  {
    forall i | 0 <= i < |Merged(d, a)| ensures !Above(KeyOf(Merged(d, a)[i]), k) {
      MergedOrigin(d, a, Merged(d, a)[i]);
    }
  }

  lemma Prepend(m: Mode, s: seq<Mode>)
    requires NotRising(s)
    ensures (forall i :: 0 <= i < |s| ==> !Above(KeyOf(s[i]), KeyOf(m))) ==> NotRising([m] + s)
    ensures Falling(s) && (forall i :: 0 <= i < |s| ==> Above(KeyOf(m), KeyOf(s[i]))) ==> Falling([m] + s)
  {
  }

  /** The merged list is in order. */
  lemma {:induction false} MergedIsNotRising(d: seq<Mode>, a: seq<Mode>)
    requires NotRising(d) && Falling(a)
    ensures NotRising(Merged(d, a))
    decreases |d| + |a|
  {
    hide Above, Combined;
    FallingIsNotRising(a);
    if d == [] || a == [] {
    } else {
      var x, y := KeyOf(d[0]), KeyOf(a[0]);
      Tail(d);
      Tail(a);
      forall i | 0 <= i < |d|
        ensures !Above(KeyOf(d[i]), x) && (!Above(x, y) ==> !Above(KeyOf(d[i]), y))
      {
        AboveIsTransitive(x, y, KeyOf(d[i]));
        AboveIsTransitive(KeyOf(d[i]), y, x);
        assert i == 0 || !Above(KeyOf(d[i]), KeyOf(d[0]));
      }
      forall i | 0 <= i < |a|
        ensures !Above(KeyOf(a[i]), y) && (Above(x, y) || x == y ==> !Above(KeyOf(a[i]), x))
      {
        AboveIsTransitive(x, y, KeyOf(a[i]));
        AboveIsTransitive(KeyOf(a[i]), x, y);
        assert i == 0 || !Above(KeyOf(a[i]), KeyOf(a[0]));
      }
      if Above(x, y) {
        MergedIsNotRising(d[1..], a);
        MergedBelow(d[1..], a, x);
        Prepend(d[0], Merged(d[1..], a));
      } else if x == y {
        MergedIsNotRising(d[1..], a[1..]);
        MergedBelow(d[1..], a[1..], x);
        Prepend(Combined(d[0], a[0]), Merged(d[1..], a[1..]));
      } else {
        MergedIsNotRising(d, a[1..]);
        MergedBelow(d, a[1..], y);
        Prepend(a[0], Merged(d, a[1..]));
      }
    }
  }

  /** If no key occurs twice in the device list, none does in the merged list. */
  lemma {:induction false} MergedIsFalling(d: seq<Mode>, a: seq<Mode>)
    requires Falling(d) && Falling(a)
    ensures Falling(Merged(d, a))
    decreases |d| + |a|
  {
    hide Above, Combined;
    FallingIsNotRising(d);
    FallingIsNotRising(a);
    if d == [] || a == [] {
    } else {
      var x, y := KeyOf(d[0]), KeyOf(a[0]);
      Tail(d);
      Tail(a);
      var rest := Merged(d, a)[1..];
      assert Merged(d, a) == [Merged(d, a)[0]] + rest;
      MergedIsNotRising(d, a);
      if Above(x, y) {
        MergedIsFalling(d[1..], a);
      } else if x == y {
        MergedIsFalling(d[1..], a[1..]);
      } else {
        MergedIsFalling(d, a[1..]);
      }
      HeadIsNew(d, a);
      FallingIsNotRising(rest);
      forall i | 0 <= i < |rest| ensures Above(KeyOf(Merged(d, a)[0]), KeyOf(rest[i])) {
        assert !Above(KeyOf(Merged(d, a)[i + 1]), KeyOf(Merged(d, a)[0]));
        assert KeyOf(rest[i]) != KeyOf(Merged(d, a)[0]);
        AboveIsTransitive(KeyOf(Merged(d, a)[0]), KeyOf(rest[i]), x);
      }
      Prepend(Merged(d, a)[0], rest);
    }
  }

  lemma NoKeyInTail(s: seq<Mode>)
    requires Falling(s) && s != []
    ensures !HasKey(s[1..], KeyOf(s[0]))
  {
    forall i | 0 <= i < |s[1..]| ensures KeyOf(s[1..][i]) != KeyOf(s[0]) {
      assert Above(KeyOf(s[0]), KeyOf(s[i + 1]));
    }
  }

  lemma NoKeyAbove(s: seq<Mode>, k: Key)
    requires Falling(s) && (s != [] ==> Above(k, KeyOf(s[0])))
    ensures !HasKey(s, k)
  {
    FallingIsNotRising(s);
    NothingAbove(s, k);
    FindsIff(s, k);
  }

  lemma HeadIsNew(d: seq<Mode>, a: seq<Mode>)
    requires Falling(d) && Falling(a) && d != [] && a != []
    ensures Merged(d, a) != []
    ensures forall i :: 1 <= i < |Merged(d, a)| ==> KeyOf(Merged(d, a)[i]) != KeyOf(Merged(d, a)[0])
  {
    hide Above, Combined, HasKey;
    var x, y := KeyOf(d[0]), KeyOf(a[0]);
    FallingIsNotRising(d);
    Tail(d);
    Tail(a);
    FallingIsNotRising(d[1..]);
    AboveIsTransitive(x, y, x);
    NoKeyInTail(d);
    NoKeyInTail(a);
    if Above(x, y) {
      NoKeyAbove(a, x);
      MergedKeys(d[1..], a, x);
      NoKeyIn(Merged(d, a)[1..], x);
    } else if x == y {
      MergedKeys(d[1..], a[1..], x);
      NoKeyIn(Merged(d, a)[1..], x);
    } else {
      NoKeyAbove(d, y);
      MergedKeys(d, a[1..], y);
      NoKeyIn(Merged(d, a)[1..], y);
    }
    forall i | 1 <= i < |Merged(d, a)| ensures KeyOf(Merged(d, a)[i]) != KeyOf(Merged(d, a)[0]) {
      assert Merged(d, a)[1..][i - 1] == Merged(d, a)[i];
    }
  }

  lemma NoKeyIn(s: seq<Mode>, k: Key)
    requires !HasKey(s, k)
    ensures forall i :: 0 <= i < |s| ==> KeyOf(s[i]) != k
  {
  }

  // Length.

  /** Every coincidence makes the merged list one shorter. */
  lemma {:induction false} MergedLength(d: seq<Mode>, a: seq<Mode>)
    requires NotRising(d) && Falling(a)
    ensures |Merged(d, a)| == |d| + |a| - Coincidences(d, a)
    decreases |d| + |a|
  {
    hide Above, Combined, HasKey;
    FallingIsNotRising(a);
    if d == [] {
      NoCoincidence(a);
    } else if a != [] {
      var x, y := KeyOf(d[0]), KeyOf(a[0]);
      Tail(d);
      Tail(a);
      AboveIsTransitive(x, y, x);
      HeadHasKey(d);
      if Above(x, y) {
        MergedLength(d[1..], a);
        NoKeyAbove(a, x);
        DropUncoinciding(d, a);
      } else if x == y {
        MergedLength(d[1..], a[1..]);
        NoKeyInTail(a);
        DropUncoinciding(d, a[1..]);
      } else {
        MergedLength(d, a[1..]);
        NothingAbove(d, y);
        FindsIff(d, y);
      }
    }
  }

  lemma HeadHasKey(d: seq<Mode>)
    requires d != []
    ensures HasKey(d, KeyOf(d[0]))
  {
  }

  lemma {:induction false} NoCoincidence(a: seq<Mode>)
    ensures Coincidences([], a) == 0
  {
    if a == [] {
    } else {
      NoCoincidence(a[1..]);
    }
  }

  /** A device mode whose key no adapter mode has does not count. */
  lemma {:induction false} DropUncoinciding(d: seq<Mode>, a: seq<Mode>)
    requires d != [] && !HasKey(a, KeyOf(d[0]))
    ensures Coincidences(d, a) == Coincidences(d[1..], a)
    decreases |a|
  {
    if a == [] {
    } else {
      FindsIff(d, KeyOf(a[0]));
      FindsIff(d[1..], KeyOf(a[0]));
      FindsIff(a, KeyOf(d[0]));
      FindsIff(a[1..], KeyOf(d[0]));
      DropUncoinciding(d, a[1..]);
    }
  }

  // The modes that are kept.

  lemma {:induction false} KeptMeans(s: seq<Mode>, top: Mode, m: Mode)
    ensures m in Kept(s, top) <==> m in s && Bounded(m, top)
  {
    if s == [] {
    } else {
      KeptMeans(s[1..], top, m);
    }
  }

  lemma {:induction false} KeptIsFalling(s: seq<Mode>, top: Mode)
    requires Falling(s)
    ensures Falling(Kept(s, top))
  {
    hide Above, Bounded;
    if s == [] {
    } else {
      Tail(s);
      KeptIsFalling(s[1..], top);
      var rest := Kept(s[1..], top);
      forall i | 0 <= i < |rest| ensures Above(KeyOf(s[0]), KeyOf(rest[i])) {
        KeptMeans(s[1..], top, rest[i]);
        var j :| 0 <= j < |s[1..]| && s[1..][j] == rest[i];
        assert Above(KeyOf(s[0]), KeyOf(s[j + 1]));
      }
      FallingIsNotRising(rest);
      Prepend(s[0], rest);
    }
  }

  lemma {:induction false} KeptLength(s: seq<Mode>, top: Mode)
    ensures |Kept(s, top)| <= |s|
  {
    if s == [] {
    } else {
      KeptLength(s[1..], top);
    }
  }

  lemma ReversedIsFalling(s: seq<Mode>)
    requires Rising(s)
    ensures Falling(Reversed(s))
  {
  }

  lemma ReversedHolds(s: seq<Mode>, m: Mode)
    ensures m in Reversed(s) <==> m in s
  {
    if m in s {
      var i :| 0 <= i < |s| && s[i] == m;
      assert Reversed(s)[|s| - 1 - i] == m;
    }
  }

  /** The adapter modes that go into the merge, in the order of the merge. */
  function Candidates(adapter: seq<Mode>, top: Mode): seq<Mode> {
    Kept(Reversed(adapter), top)
  }

  lemma CandidatesAre(adapter: seq<Mode>, top: Mode, m: Mode)
    ensures m in Candidates(adapter, top) <==> m in adapter && Bounded(m, top)
  {
    KeptMeans(Reversed(adapter), top, m);
    ReversedHolds(adapter, m);
  }

  /** Order, keys, first mode and length of the list that is offered to the user. */
  lemma MergeResult(d: seq<Mode>, adapter: seq<Mode>)
    requires d != [] && NotRising(d) && Rising(adapter)
    ensures var a := Candidates(adapter, d[0]);
            var r := Merged(d, a);
            && NotRising(r) && (Falling(d) ==> Falling(r))
            && (forall k :: HasKey(r, k) <==> HasKey(d, k) || exists m :: m in adapter && Bounded(m, d[0]) && KeyOf(m) == k)
            && r != [] && KeyOf(r[0]) == KeyOf(d[0]) && (r[0] == d[0] || exists m :: m in adapter && r[0] == Combined(d[0], m))
            && |r| == |d| + |a| - Coincidences(d, a) <= |d| + |adapter|
  {
    hide Above, Bounded, HasKey, Combined;
    var a := Candidates(adapter, d[0]);
    var r := Merged(d, a);
    ReversedIsFalling(adapter);
    KeptIsFalling(Reversed(adapter), d[0]);
    KeptLength(Reversed(adapter), d[0]);
    MergedIsNotRising(d, a);
    MergedLength(d, a);
    if Falling(d) { MergedIsFalling(d, a); }
    forall k ensures HasKey(r, k) <==> HasKey(d, k) || exists m :: m in adapter && Bounded(m, d[0]) && KeyOf(m) == k {
      MergedKeys(d, a, k);
      CandidateKeys(adapter, d[0], k);
    }
    if a == [] {
    } else {
      CandidatesAre(adapter, d[0], a[0]);
      BoundedIsNotAbove(a[0], d[0]);
      AboveIsTransitive(KeyOf(d[0]), KeyOf(a[0]), KeyOf(d[0]));
    }
  }

  /** The offered list is ordered by width, then height, then rate, if the device list is and the adapter
    list rises. */
  lemma MergedIsSorted(d: seq<Mode>, adapter: seq<Mode>, i: nat, j: nat)
    requires d != []
    requires forall x, y :: 0 <= x < y < |d| ==>
               || d[x].xres > d[y].xres
               || (d[x].xres == d[y].xres && d[x].yres > d[y].yres)
               || (d[x].xres == d[y].xres && d[x].yres == d[y].yres && d[x].refresh >= d[y].refresh)
    requires forall x, y :: 0 <= x < y < |adapter| ==>
               || adapter[x].xres < adapter[y].xres
               || (adapter[x].xres == adapter[y].xres && adapter[x].yres < adapter[y].yres)
               || (adapter[x].xres == adapter[y].xres && adapter[x].yres == adapter[y].yres && adapter[x].refresh < adapter[y].refresh)
    requires i < j < |Merged(d, Candidates(adapter, d[0]))|
    ensures var r := Merged(d, Candidates(adapter, d[0]));
            || r[i].xres > r[j].xres
            || (r[i].xres == r[j].xres && r[i].yres > r[j].yres)
            || (r[i].xres == r[j].xres && r[i].yres == r[j].yres && r[i].refresh >= r[j].refresh)
  {
    assert NotRising(d) && Rising(adapter);
    MergeResult(d, adapter);
    hide Merged, Candidates;
  }

  lemma BoundedIsNotAbove(m: Mode, top: Mode)
    requires Bounded(m, top)
    ensures !Above(KeyOf(m), KeyOf(top))
    ensures KeyOf(m) == KeyOf(top) || Above(KeyOf(top), KeyOf(m))
  {
  }

  lemma CandidateKeys(adapter: seq<Mode>, top: Mode, k: Key)
    ensures HasKey(Candidates(adapter, top), k) <==> exists m :: m in adapter && Bounded(m, top) && KeyOf(m) == k
  {
    hide Bounded, Candidates;
    var a := Candidates(adapter, top);
    if i :| 0 <= i < |a| && KeyOf(a[i]) == k {
      CandidatesAre(adapter, top, a[i]);
    }
    if m :| m in adapter && Bounded(m, top) && KeyOf(m) == k {
      CandidatesAre(adapter, top, m);
    }
  }

  // The driver's functions.

  method ReverseInPlace(list: array<Mode>, num: nat)
    requires num <= list.Length
    modifies list
    ensures list[..num] == Reversed(old(list[..num])) && list[num..] == old(list[num..])
  {
    for i := 0 to num / 2
      invariant forall k :: 0 <= k < list.Length ==>
                  list[k] == if k < i || num - i <= k < num then old(list[num - 1 - k]) else old(list[k])
    {
      var temp := list[i];
      list[i] := list[num - i - 1];
      list[num - i - 1] := temp;
    }
    assert forall k :: 0 <= k < num ==> list[k] == old(list[num - 1 - k]);
  }

  /** Marks the adapter modes that the largest device mode covers. */
  method MarkValid(adapter: array<Mode>, num: nat, top: Mode) returns (valid: array<bool>)
    requires num <= adapter.Length
    ensures fresh(valid) && valid.Length == num
    ensures forall i :: 0 <= i < num ==> valid[i] == Bounded(adapter[i], top)
  {
    valid := new bool[num](_ => false);
    for i := 0 to num
      invariant forall k :: 0 <= k < i ==> valid[k] == Bounded(adapter[k], top)
    {
      valid[i] := adapter[i].xres <= top.xres && adapter[i].yres <= top.yres && adapter[i].refresh <= top.refresh;
    }
  }

  lemma KeptFrom(s: seq<Mode>, i: nat, top: Mode)
    requires i < |s|
    ensures Kept(s[i..], top) ==
            if Bounded(s[i], top) then [s[i]] + Kept(s[i + 1..], top) else Kept(s[i + 1..], top)
  {
    assert s[i..][1..] == s[i + 1..];
  }

  /** Merges while both lists have something left. rev is the reversed adapter list. */
  method MergeHeads(merge: array<Mode>, rev: array<Mode>, valid: array<bool>, adapterNum: nat,
                    dev: array<Mode>, devNum: nat, ghost top: Mode)
    returns (devIndex: nat, adapterIndex: nat, modeIndex: nat)
    requires merge != rev && merge != dev && adapterNum <= rev.Length && devNum <= dev.Length
    requires devNum + adapterNum <= merge.Length && valid.Length == adapterNum
    requires forall i :: 0 <= i < adapterNum ==> valid[i] == Bounded(rev[i], top)
    modifies merge
    ensures devIndex <= devNum && adapterIndex <= adapterNum && modeIndex <= devIndex + adapterIndex
    ensures devIndex == devNum || adapterIndex == adapterNum
    ensures merge[..modeIndex] + Merged(dev[devIndex..devNum], Kept(rev[adapterIndex..adapterNum], top))
            == Merged(dev[..devNum], Kept(rev[..adapterNum], top))
  {
    hide Above, Bounded, Kept, Merged, Combined;
    ghost var r, d := rev[..adapterNum], dev[..devNum];
    devIndex, adapterIndex, modeIndex := 0, 0, 0;
    assert r[0..] == r && d[0..] == d;
    while devIndex < devNum && adapterIndex < adapterNum
      invariant devIndex <= devNum && adapterIndex <= adapterNum && modeIndex <= devIndex + adapterIndex
      invariant merge[..modeIndex] + Merged(d[devIndex..], Kept(r[adapterIndex..], top)) == Merged(d, Kept(r, top))
      decreases devNum - devIndex + adapterNum - adapterIndex
    {
      KeptFrom(r, adapterIndex, top);
      if !valid[adapterIndex] {
        adapterIndex := adapterIndex + 1;
        continue;
      }
      var x, y := dev[devIndex], rev[adapterIndex];
      MergedStep(d, devIndex, y, Kept(r[adapterIndex + 1..], top), merge[..modeIndex]);
      ghost var before := merge[..modeIndex];
      if Above(KeyOf(x), KeyOf(y)) {
        merge[modeIndex] := x;
        devIndex := devIndex + 1;
      } else if KeyOf(x) == KeyOf(y) {
        merge[modeIndex] := Combined(x, y);
        devIndex, adapterIndex := devIndex + 1, adapterIndex + 1;
      } else {
        merge[modeIndex] := y;
        adapterIndex := adapterIndex + 1;
      }
      modeIndex := modeIndex + 1;
      assert merge[..modeIndex] == before + [merge[modeIndex - 1]];
    }
    assert dev[devIndex..devNum] == d[devIndex..] && rev[adapterIndex..adapterNum] == r[adapterIndex..];
  }

  /** Appends the adapter modes that are left and valid. */
  method AppendValid(merge: array<Mode>, modeIndex: nat, rev: array<Mode>, valid: array<bool>,
                     from: nat, adapterNum: nat, ghost top: Mode)
    returns (num: nat)
    requires merge != rev && from <= adapterNum <= rev.Length && valid.Length == adapterNum
    requires modeIndex + adapterNum - from <= merge.Length
    requires forall i :: 0 <= i < adapterNum ==> valid[i] == Bounded(rev[i], top)
    modifies merge
    ensures modeIndex <= num <= modeIndex + adapterNum - from
    ensures merge[..num] == old(merge[..modeIndex]) + Kept(rev[from..adapterNum], top)
  {
    hide Bounded, Kept;
    ghost var r, goal := rev[..adapterNum], merge[..modeIndex] + Kept(rev[from..adapterNum], top);
    assert rev[from..adapterNum] == r[from..];
    num := modeIndex;
    var adapterIndex := from;
    while adapterIndex < adapterNum
      invariant from <= adapterIndex <= adapterNum && modeIndex <= num <= modeIndex + adapterIndex - from
      invariant merge[..num] + Kept(r[adapterIndex..], top) == goal
    {
      KeptFrom(r, adapterIndex, top);
      ghost var before := merge[..num];
      if valid[adapterIndex] {
        Shift(before, r[adapterIndex], Kept(r[adapterIndex + 1..], top));
        merge[num] := rev[adapterIndex];
        num := num + 1;
        assert merge[..num] == before + [r[adapterIndex]];
      }
      adapterIndex := adapterIndex + 1;
    }
    KeptOfNothing(r[adapterNum..], top);
  }

  /** Merges into a buffer of the caller. The adapter list is left reversed. */
  method MergeModes(merge: array<Mode>, adapter: array<Mode>, adapterNum: nat, dev: array<Mode>, devNum: nat)
    returns (num: nat)
    requires merge != adapter && merge != dev && adapter != dev
    requires adapterNum <= adapter.Length && devNum <= dev.Length && 0 < dev.Length
    requires devNum + adapterNum <= merge.Length
    modifies merge, adapter
    ensures num <= devNum + adapterNum
    ensures merge[..num] == Merged(dev[..devNum], Candidates(old(adapter[..adapterNum]), dev[0]))
  {
    hide Above, Bounded, Kept, Merged, Combined, Reversed;
    ReverseInPlace(adapter, adapterNum);
    ghost var d, top := dev[..devNum], dev[0];
    ghost var goal := Merged(d, Kept(adapter[..adapterNum], top));
    assert goal == Merged(d, Candidates(old(adapter[..adapterNum]), top));
    var valid := MarkValid(adapter, adapterNum, dev[0]);
    var devIndex, adapterIndex, modeIndex := MergeHeads(merge, adapter, valid, adapterNum, dev, devNum, top);
    ghost var before := merge[..modeIndex];
    MergedRest(dev[devIndex..devNum], Kept(adapter[adapterIndex..adapterNum], top));
    KeptOfNothing(adapter[adapterIndex..adapterNum], top);
    num := modeIndex;
    assert before + [] == before;
    assert devIndex == devNum ==> dev[devIndex..devNum] == [];
    assert adapterIndex == adapterNum ==> adapter[adapterIndex..adapterNum] == [];
    if devIndex == devNum && adapterIndex < adapterNum {
      num := AppendValid(merge, modeIndex, adapter, valid, adapterIndex, adapterNum, top);
    }
    if devIndex < devNum && adapterIndex == adapterNum {
      forall k | 0 <= k < devNum - devIndex {
        merge[modeIndex + k] := dev[devIndex + k];
      }
      num := modeIndex + (devNum - devIndex);
      assert merge[..num] == before + dev[devIndex..devNum];
    }
    assert merge[..num] == goal && dev[..devNum] == d && dev[0] == top;
  }

  lemma Shift(x: seq<Mode>, m: Mode, y: seq<Mode>)
    ensures x + ([m] + y) == (x + [m]) + y
  {
  }

  lemma KeptOfNothing(s: seq<Mode>, top: Mode)
    ensures s == [] ==> Kept(s, top) == []
  {
  }

  /** One step of the merge, behind what has been written already. */
  lemma MergedStep(d: seq<Mode>, i: nat, y: Mode, rest: seq<Mode>, before: seq<Mode>)
    requires i < |d|
    ensures before + Merged(d[i..], [y] + rest) ==
            if Above(KeyOf(d[i]), KeyOf(y)) then (before + [d[i]]) + Merged(d[i + 1..], [y] + rest)
            else if KeyOf(d[i]) == KeyOf(y) then (before + [Combined(d[i], y)]) + Merged(d[i + 1..], rest)
            else (before + [y]) + Merged(d[i..], rest)
  {
    hide Above, Combined;
    assert d[i..][1..] == d[i + 1..] && ([y] + rest)[1..] == rest;
  }

  lemma MergedRest(d: seq<Mode>, a: seq<Mode>)
    ensures d == [] ==> Merged(d, a) == a
    ensures a == [] ==> Merged(d, a) == d
  {
  }
}
