/** Reading and writing the register space through a table of segments.

  A request runs over segments and over the holes between them. Each segment is accessed
  with its own width, holes read as zero and ignore writes. The registers are taken as
  memory: one byte per offset, wider accesses in little-endian order.
*/
module Mmio {
  import opened Basics

  datatype Segment = Segment(start: nat, end: nat, alignment: nat)

  /** The table of the driver. */
  const MMIO_SEG_E3K: seq<Segment> := [
    Segment(0x8000, 0x80E4, 4),
    Segment(0x8180, 0x83B0, 4),
    Segment(0x8400, 0x8600, 4),
    Segment(0x8600, 0x8B00, 1),
    Segment(0x9000, 0x9200, 1),
    Segment(0x9400, 0x9600, 1),
    Segment(0x30000, 0x30380, 4),
    Segment(0x33000, 0x35000, 4),
    Segment(0x48C00, 0x48CD0, 4),
    Segment(0x49000, 0x49080, 4)]

  const INT_LIMIT := 0x8000_0000
  const WORD_LIMIT := 0x1_0000_0000
  const SIZE_LIMIT := 0x1_0000_0000_0000_0000

  /** A file offset, narrowed to an int as the search takes it. */
  function Narrow(pos: nat): int {
    if pos % WORD_LIMIT < INT_LIMIT then pos % WORD_LIMIT else pos % WORD_LIMIT - WORD_LIMIT
  }

  lemma NarrowIsSame(pos: nat)
    requires pos < INT_LIMIT
    ensures Narrow(pos) == pos
  {
  }

  /** An offset behind the registers is taken for one inside them exactly if its low word is a register
    offset or has its top bit set. */
  lemma MistakenIff(pos: nat, mmioSize: nat)
    requires mmioSize < INT_LIMIT
    ensures Narrow(pos) < mmioSize <==> pos % WORD_LIMIT < mmioSize || pos % WORD_LIMIT >= INT_LIMIT
  {
  }

  predicate Width(w: nat) {
    w == 1 || w == 2 || w == 4
  }

  /** Sorted, disjoint, with boundaries at multiples of four, and below what an int can hold. */
  ghost predicate WellFormed(t: seq<Segment>) {
    && |t| > 0
    && (forall i :: 0 <= i < |t| ==>
          && t[i].start < t[i].end < INT_LIMIT
          && Multiple(t[i].start, 4) && Multiple(t[i].end, 4)
          && Width(t[i].alignment))
    && (forall i, j :: 0 <= i < j < |t| ==> t[i].end <= t[j].start)
  }

  lemma TableIsWellFormed()
    ensures WellFormed(MMIO_SEG_E3K)
  {
    var t := MMIO_SEG_E3K;
    forall i, j | 0 <= i < j < |t| ensures t[i].end <= t[j].start {
      StartsGrow(j);
    }
  }

  lemma StartsGrow(j: nat)
    requires j < |MMIO_SEG_E3K|
    ensures forall i :: 0 <= i < j ==> MMIO_SEG_E3K[i].end <= MMIO_SEG_E3K[j].start
  {
    var t := MMIO_SEG_E3K;
    assert forall k :: 0 <= k < |t| - 1 ==> t[k].end <= t[k + 1].start;
    if j == 0 {
    } else {
      StartsGrow(j - 1);
    }
  }

  // The byte-by-byte specification.

  predicate InSegment(s: Segment, p: nat) {
    s.start <= p < s.end
  }

  predicate Covered(t: seq<Segment>, p: nat) {
    exists i :: 0 <= i < |t| && InSegment(t[i], p)
  }

  /** The sequence with its bytes from k on replaced by x. */
  function Patched(s: seq<byte>, k: nat, x: seq<byte>): (r: seq<byte>)
    requires k + |x| <= |s|
    ensures |r| == |s|
  {
    s[..k] + x + s[k + |x|..]
  }

  lemma PatchedTwice(s: seq<byte>, k: nat, x: seq<byte>, y: seq<byte>)
    requires k + |x| + |y| <= |s|
    ensures Patched(Patched(s, k, x), k + |x|, y) == Patched(s, k, x + y)
  {
  }

  lemma PatchedNothing(s: seq<byte>, k: nat)
    requires k <= |s|
    ensures Patched(s, k, []) == s
  {
  }

  /** What the read of one byte yields. */
  function ByteAt(t: seq<Segment>, regs: seq<byte>, p: nat): byte
    requires p < |regs|
  {
    if Covered(t, p) then regs[p] else 0
  }

  function ReadBytes(t: seq<Segment>, regs: seq<byte>, p: nat, n: nat): (r: seq<byte>)
    requires p + n <= |regs|
    ensures |r| == n
  {
    seq<byte>(n, k requires 0 <= k < n => ByteAt(t, regs, p + k))
  }

  /** The registers after data has been written at p, byte by byte. */
  function WriteBytes(t: seq<Segment>, regs: seq<byte>, p: nat, data: seq<byte>): (r: seq<byte>)
    requires p + |data| <= |regs|
    ensures |r| == |regs|
  {
    seq<byte>(|regs|, q requires 0 <= q < |regs| =>
      if p <= q < p + |data| && Covered(t, q) then data[q - p] else regs[q])
  }

  /** Reading back what was written yields the data where there are registers and zero in holes. */
  lemma ReadBack(t: seq<Segment>, regs: seq<byte>, p: nat, data: seq<byte>)
    requires p + |data| <= |regs|
    ensures var r := ReadBytes(t, WriteBytes(t, regs, p, data), p, |data|);
            |r| == |data| && forall k :: 0 <= k < |data| ==> r[k] == if Covered(t, p + k) then data[k] else 0
  {
    var w := WriteBytes(t, regs, p, data);
    var r := ReadBytes(t, w, p, |data|);
    forall k | 0 <= k < |data| ensures r[k] == if Covered(t, p + k) then data[k] else 0 {
      assert r[k] == ByteAt(t, w, p + k);
      assert w[p + k] == if Covered(t, p + k) then data[p + k - p] else regs[p + k];
    }
  }

  /** The width that the registers at p want; holes want four. */
  ghost function AlignAt(t: seq<Segment>, p: nat): (w: nat)
    requires WellFormed(t)
    ensures Width(w)
  {
    if Covered(t, p) then (var i :| 0 <= i < |t| && InSegment(t[i], p); t[i].alignment) else 4
  }

  predicate Multiple(a: nat, w: nat) {
    w > 0 && a % w == 0
  }

  /** Both ends of the range lie on access boundaries. */
  ghost predicate Aligned(t: seq<Segment>, pos: nat, n: nat)
    requires WellFormed(t)
  {
    n > 0 && Multiple(pos, AlignAt(t, pos)) && Multiple(pos + n, AlignAt(t, pos + n - 1))
  }

  // Where a position lies.

  /** index is the segment of p, or the first segment behind the hole that p is in. */
  ghost predicate Located(t: seq<Segment>, p: nat, index: nat, empty: bool) {
    && index <= |t|
    && (!empty ==> index < |t| && InSegment(t[index], p))
    && (empty ==> && (index > 0 ==> t[index - 1].end <= p)
                  && (index < |t| ==> p < t[index].start))
  }

  lemma Unique(t: seq<Segment>, p: nat, i: nat, j: nat)
    requires WellFormed(t) && i < |t| && j < |t| && InSegment(t[i], p) && InSegment(t[j], p)
    ensures i == j
  {
  }

  lemma HoleIsNotCovered(t: seq<Segment>, p: nat, index: nat, i: nat)
    requires WellFormed(t) && Located(t, p, index, true) && i < |t|
    ensures !InSegment(t[i], p)
  {
    if i < index {
      assert i == index - 1 || t[i].end <= t[index - 1].start;
    } else {
      assert i == index || t[index].end <= t[i].start;
    }
  }

  lemma LocatedMeans(t: seq<Segment>, p: nat, index: nat, empty: bool)
    requires WellFormed(t) && Located(t, p, index, empty)
    ensures index <= |t| && (!empty ==> index < |t|)
    ensures Covered(t, p) <==> !empty
    ensures AlignAt(t, p) == if empty then 4 else t[index].alignment
  {
    if !empty {
      var i :| 0 <= i < |t| && InSegment(t[i], p) && AlignAt(t, p) == t[i].alignment;
      Unique(t, p, i, index);
    } else {
      forall i | 0 <= i < |t| ensures !InSegment(t[i], p) {
        HoleIsNotCovered(t, p, index, i);
      }
    }
  }

  lemma AlignAtMeans(t: seq<Segment>, p: nat)
    requires WellFormed(t)
    ensures forall s :: s in t && s.start <= p < s.end ==> AlignAt(t, p) == s.alignment
    ensures (forall s :: s in t ==> !(s.start <= p < s.end)) ==> AlignAt(t, p) == 4
  {
    forall s | s in t && s.start <= p < s.end ensures AlignAt(t, p) == s.alignment {
      var i :| 0 <= i < |t| && t[i] == s;
      LocatedMeans(t, p, i, false);
    }
    if Covered(t, p) {
      var i :| 0 <= i < |t| && InSegment(t[i], p);
      assert t[i] in t;
    }
  }

  lemma FitsFirst(t: seq<Segment>, p: nat, q: nat)
    requires WellFormed(t)
    ensures Multiple(q, AlignAt(t, p))
            <==> && (forall s :: s in t && s.start <= p < s.end ==> s.alignment > 0 && q % s.alignment == 0)
                 && ((forall s :: s in t ==> !(s.start <= p < s.end)) ==> q % 4 == 0)
  {
    AlignAtMeans(t, p);
    hide AlignAt, WellFormed;
  }

  lemma FitsLast(t: seq<Segment>, end: nat)
    requires WellFormed(t) && end > 0
    ensures Multiple(end, AlignAt(t, end - 1))
            <==> && (forall s :: s in t && s.start < end <= s.end ==> s.alignment > 0 && end % s.alignment == 0)
                 && ((forall s :: s in t ==> !(s.start < end <= s.end)) ==> end % 4 == 0)
  {
    AlignAtMeans(t, end - 1);
    assert forall s :: s in t ==> (s.start < end <= s.end <==> s.start <= end - 1 < s.end);
    hide AlignAt, WellFormed;
  }

  /** Which ranges are accepted: the start has to fit the segment of the first byte, the end that of
    the last byte, and where there is no segment both are multiples of four. */
  lemma AlignedMeans(t: seq<Segment>, pos: nat, end: nat)
    requires WellFormed(t) && pos < end
    ensures Aligned(t, pos, end - pos)
            <==> && (forall s :: s in t && s.start <= pos < s.end ==> s.alignment > 0 && pos % s.alignment == 0)
                 && ((forall s :: s in t ==> !(s.start <= pos < s.end)) ==> pos % 4 == 0)
                 && (forall s :: s in t && s.start < end <= s.end ==> s.alignment > 0 && end % s.alignment == 0)
                 && ((forall s :: s in t ==> !(s.start < end <= s.end)) ==> end % 4 == 0)
  {
    FitsFirst(t, pos, pos);
    FitsLast(t, end);
    hide AlignAt, WellFormed, Multiple;
    assert pos + (end - pos) == end;
  }

  /** Ranges of whole words are always accepted. */
  lemma WordsAreAligned(t: seq<Segment>, pos: nat, end: nat)
    requires WellFormed(t) && pos < end && pos % 4 == 0 && end % 4 == 0
    ensures Aligned(t, pos, end - pos)
  {
    FourIsAligned(pos, AlignAt(t, pos));
    FourIsAligned(end, AlignAt(t, end - 1));
    hide AlignAt, WellFormed;
  }

  /** Which requests behind the registers are let through. */
  lemma AstrayMeans(t: seq<Segment>, mmioSize: nat, pos: nat)
    requires WellFormed(t)
    ensures var low := pos % 0x1_0000_0000;
            Astray(t, mmioSize, pos)
            <==> && pos >= mmioSize > 0
                 && (low >= 0x8000_0000 || low < mmioSize)
                 && (forall s :: s in t && s.start <= low < s.end ==> s.alignment > 0 && pos % s.alignment == 0)
                 && ((forall s :: s in t ==> !(s.start <= low < s.end)) ==> pos % 4 == 0)
                 && (forall s :: s in t && s.start < mmioSize <= s.end ==> s.alignment > 0 && mmioSize % s.alignment == 0)
                 && ((forall s :: s in t ==> !(s.start < mmioSize <= s.end)) ==> mmioSize % 4 == 0)
  {
    if mmioSize > 0 {
      FitsFirst(t, pos % 0x1_0000_0000, pos);
      FitsLast(t, mmioSize);
    }
    hide AlignAt, WellFormed;
  }

  /** The end of the segment or hole that p is in, as far as the register space goes. */
  function RegionEnd(t: seq<Segment>, index: nat, empty: bool, mmioSize: nat): nat
    requires index <= |t| && (!empty ==> index < |t|)
  {
    if empty then (if index == |t| then mmioSize else t[index].start) else t[index].end
  }

  /** The whole region has the same answer. */
  lemma SameRegion(t: seq<Segment>, p: nat, index: nat, empty: bool, mmioSize: nat, q: nat)
    requires WellFormed(t) && Located(t, p, index, empty)
    requires p <= q < RegionEnd(t, index, empty, mmioSize)
    ensures Located(t, q, index, empty)
  {
  }

  /** The search narrows the offset. A negative one compares as a large unsigned number with the ends of
    the segments, and so counts as the hole behind the last of them. */
  method FindSegment(t: seq<Segment>, mmioSize: nat, offset: nat) returns (ok: bool, index: nat, empty: bool)
    requires WellFormed(t) && mmioSize < INT_LIMIT
    ensures ok <==> mmioSize != 0 && Narrow(offset) < mmioSize
    ensures ok && Narrow(offset) >= 0 ==> Located(t, Narrow(offset), index, empty)
    ensures ok && Narrow(offset) < 0 ==> index == |t| && empty
  {
    var pos := Narrow(offset);
    ok, index, empty := false, 0, false;
    if |t| == 0 || mmioSize == 0 || pos >= mmioSize {
      return;
    }
    ok := true;
    var unsigned := if pos >= 0 then pos else pos + WORD_LIMIT;
    var i := 0;
    while i < |t|
      invariant 0 <= i <= |t| && ok
      invariant i > 0 ==> 0 <= t[0].start <= pos < t[|t| - 1].end && t[i - 1].end <= pos
      invariant 0 < i < |t| ==> t[i].start <= pos
    {
      if pos >= 0 && unsigned < t[0].start {
        index, empty := 0, true;
        return;
      } else if unsigned >= t[|t| - 1].end {
        index, empty := |t|, true;
        return;
      } else if t[i].start <= unsigned < t[i].end {
        index, empty := i, false;
        return;
      } else if unsigned >= t[i].end && unsigned < t[i + 1].start {
        index, empty := i + 1, true;
        return;
      }
      i := i + 1;
    }
  }

  /** The same for an offset that the narrowing leaves alone. */
  method FindSegmentAt(t: seq<Segment>, mmioSize: nat, pos: nat) returns (index: nat, empty: bool)
    requires WellFormed(t) && pos < mmioSize < INT_LIMIT
    ensures Located(t, pos, index, empty)
  {
    NarrowIsSame(pos);
    var ok: bool;
    ok, index, empty := FindSegment(t, mmioSize, pos);
  }

  /** The access width that the tests assume at an offset. */
  ghost function SeenAlign(t: seq<Segment>, pos: nat): nat
    requires WellFormed(t)
  {
    if Narrow(pos) < 0 then 4 else AlignAt(t, Narrow(pos))
  }

  /** A request behind the registers that all tests let through. It would run on from there. */
  ghost predicate Astray(t: seq<Segment>, mmioSize: nat, pos: nat)
    requires WellFormed(t)
  {
    && pos >= mmioSize > 0 && Narrow(pos) < mmioSize
    && Multiple(pos, SeenAlign(t, pos)) && Multiple(mmioSize, AlignAt(t, mmioSize - 1))
  }

  /** The first such offset, on a register space of whole words. */
  lemma TopBitIsAstray(t: seq<Segment>, mmioSize: nat)
    requires WellFormed(t) && 0 < mmioSize < INT_LIMIT && Multiple(mmioSize, 4)
    ensures Astray(t, mmioSize, 0x8000_0000)
  {
    FourIsAligned(mmioSize, AlignAt(t, mmioSize - 1));
  }

  // Register words.

  /** The value of a little-endian word. */
  function Word(s: seq<byte>): nat {
    if s == [] then 0 else s[0] + 256 * Word(s[1..])
  }

  /** The n low bytes of a value. */
  function Bytes(v: nat, n: nat): seq<byte> {
    if n == 0 then [] else [v % 256] + Bytes(v / 256, n - 1)
  }

  lemma {:induction false} WordBytes(s: seq<byte>)
    ensures Bytes(Word(s), |s|) == s
  {
    if s == [] {
    } else {
      WordBytes(s[1..]);
      assert Word(s) / 256 == Word(s[1..]) && Word(s) % 256 == s[0];
    }
  }

  lemma {:induction false} BytesLength(v: nat, n: nat)
    ensures |Bytes(v, n)| == n
  {
    if n == 0 {
    } else {
      BytesLength(v / 256, n - 1);
    }
  }

  lemma FourIsAligned(a: nat, w: nat)
    requires Width(w) && Multiple(a, 4)
    ensures Multiple(a, w)
  {
    var k := a / 4;
    assert a == 4 * k;
    if w == 2 { assert a == 2 * (2 * k); }
  }

  /** The next access fits into what is left. */
  lemma Step(a: nat, left: nat, w: nat)
    requires Width(w) && Multiple(a, w) && Multiple(a + left, w) && left > 0
    ensures left >= w && Multiple(a + w, w)
  {
    if w == 1 {
    } else if w == 2 {
      assert a % 2 == 0 && (a + left) % 2 == 0;
    } else {
      assert a % 4 == 0 && (a + left) % 4 == 0;
    }
  }

  // The device.

  datatype Access = Access(offset: nat, width: nat)

  /** An access is aligned, has the width of its segment and does not leave it. */
  ghost predicate Proper(t: seq<Segment>, a: Access) {
    && Width(a.width) && Multiple(a.offset, a.width)
    && exists i :: && 0 <= i < |t| && InSegment(t[i], a.offset)
                   && a.offset + a.width <= t[i].end && a.width == t[i].alignment
  }

  ghost predicate AllProper(t: seq<Segment>, log: seq<Access>) {
    forall k :: 0 <= k < |log| ==> Proper(t, log[k])
  }

  const EINVAL := 22

  lemma ReadMore(t: seq<Segment>, regs: seq<byte>, p: nat, n: nat, m: nat)
    requires p + n + m <= |regs|
    ensures ReadBytes(t, regs, p, n + m) == ReadBytes(t, regs, p, n) + ReadBytes(t, regs, p + n, m)
  {
  }

  lemma WriteNothing(t: seq<Segment>, regs: seq<byte>, p: nat)
    requires p <= |regs|
    ensures WriteBytes(t, regs, p, []) == regs
  {
  }

  lemma WriteMore(t: seq<Segment>, regs: seq<byte>, p: nat, x: seq<byte>, y: seq<byte>)
    requires p + |x| + |y| <= |regs|
    ensures WriteBytes(t, WriteBytes(t, regs, p, x), p + |x|, y) == WriteBytes(t, regs, p, x + y)
  {
    var a, b := WriteBytes(t, WriteBytes(t, regs, p, x), p + |x|, y), WriteBytes(t, regs, p, x + y);
    forall q | 0 <= q < |regs| ensures a[q] == b[q] {
      if p + |x| <= q < p + |x| + |y| {
        assert (x + y)[q - p] == y[q - (p + |x|)];
      }
    }
  }

  /** Covered bytes are replaced as a block, uncovered ones stay. */
  lemma WriteWord(t: seq<Segment>, regs: seq<byte>, p: nat, data: seq<byte>)
    requires p + |data| <= |regs|
    ensures (forall q :: p <= q < p + |data| ==> Covered(t, q)) ==>
              WriteBytes(t, regs, p, data) == Patched(regs, p, data)
    ensures (forall q :: p <= q < p + |data| ==> !Covered(t, q)) ==> WriteBytes(t, regs, p, data) == regs
  {
    var w := WriteBytes(t, regs, p, data);
    assert forall q :: 0 <= q < |regs| ==>
             w[q] == if p <= q < p + |data| && Covered(t, q) then data[q - p] else regs[q];
  }

  /** A word of a segment is what the bytes are, a word of a hole is zero. */
  lemma ReadWord(t: seq<Segment>, regs: seq<byte>, p: nat, w: nat)
    requires p + w <= |regs|
    ensures (forall q :: p <= q < p + w ==> Covered(t, q)) ==> ReadBytes(t, regs, p, w) == Bytes(Word(regs[p..p + w]), w)
    ensures (forall q :: p <= q < p + w ==> !Covered(t, q)) ==> ReadBytes(t, regs, p, w) == Bytes(0, w)
  {
    var r := ReadBytes(t, regs, p, w);
    if forall q :: p <= q < p + w ==> Covered(t, q) {
      WordBytes(regs[p..p + w]);
      forall k | 0 <= k < w ensures r[k] == regs[p..p + w][k] {
        assert r[k] == ByteAt(t, regs, p + k) && Covered(t, p + k);
      }
      assert r == regs[p..p + w];
    }
    if forall q :: p <= q < p + w ==> !Covered(t, q) {
      ZeroBytes(w);
      forall k | 0 <= k < w ensures r[k] == 0 {
        assert r[k] == ByteAt(t, regs, p + k) && !Covered(t, p + k);
      }
      assert r == Bytes(0, w);
    }
  }

  lemma {:induction false} ZeroBytes(n: nat)
    ensures |Bytes(0, n)| == n && forall k :: 0 <= k < n ==> Bytes(0, n)[k] == 0
  {
    if n == 0 {
    } else {
      ZeroBytes(n - 1);
    }
  }

  lemma WidthOf(t: seq<Segment>, index: nat)
    requires WellFormed(t)
    ensures index < |t| ==> Width(t[index].alignment)
  {
  }

  lemma ReadNothing(t: seq<Segment>, regs: seq<byte>, p: nat)
    requires p <= |regs|
    ensures ReadBytes(t, regs, p, 0) == []
  {
  }

  lemma CoveredMeans(t: seq<Segment>, p: nat)
    ensures Covered(t, p) <==> exists s :: s in t && s.start <= p < s.end
  {
    if s :| s in t && s.start <= p < s.end {
      var i :| 0 <= i < |t| && t[i] == s;
      assert InSegment(t[i], p);
    }
  }

  lemma ReadMeans(t: seq<Segment>, regs: seq<byte>, p: nat, n: nat, before: seq<byte>, after: seq<byte>)
    requires p + n <= |regs| && n <= |before| && after == Patched(before, 0, ReadBytes(t, regs, p, n))
    ensures forall k :: 0 <= k < |after| ==>
              after[k] == if k >= n then before[k]
                          else if exists s :: s in t && s.start <= p + k < s.end then regs[p + k] else 0
  {
    hide Covered;
    forall k | 0 <= k < n
      ensures after[k] == if exists s :: s in t && s.start <= p + k < s.end then regs[p + k] else 0
    {
      CoveredMeans(t, p + k);
      assert after[k] == ByteAt(t, regs, p + k);
    }
  }

  lemma WriteMeans(t: seq<Segment>, before: seq<byte>, p: nat, data: seq<byte>, after: seq<byte>)
    requires p + |data| <= |before| && after == WriteBytes(t, before, p, data)
    ensures forall q :: 0 <= q < |after| ==>
              after[q] == if p <= q < p + |data| && exists s :: s in t && s.start <= q < s.end then data[q - p] else before[q]
  {
    hide Covered;
    forall q | 0 <= q < |after|
      ensures after[q] == if p <= q < p + |data| && exists s :: s in t && s.start <= q < s.end then data[q - p] else before[q]
    {
      CoveredMeans(t, q);
    }
  }

  class MmioDevice {
    const table: seq<Segment>
    const regs: array<byte>
    ghost var log: seq<Access>

    ghost predicate Valid()
      reads this
    {
      WellFormed(table) && AllProper(table, log) && regs.Length < INT_LIMIT
    }

    constructor (table: seq<Segment>, mmioSize: nat)
      requires WellFormed(table) && mmioSize < INT_LIMIT
      ensures Valid() && fresh(regs) && this.table == table && regs.Length == mmioSize && log == []
    {
      this.table := table;
      regs := new byte[mmioSize](_ => 0);
      log := [];
    }

    /** Every access so far was aligned, had the width of its segment and stayed inside it. */
    lemma AccessesAreProper()
      requires Valid()
      ensures forall a :: a in log ==> && a.width in {1, 2, 4} && a.offset % a.width == 0
                                       && exists s :: s in table && s.alignment == a.width
                                                      && s.start <= a.offset && a.offset + a.width <= s.end
    {
      forall a | a in log
        ensures a.width in {1, 2, 4} && a.offset % a.width == 0
        ensures exists s :: s in table && s.alignment == a.width && s.start <= a.offset && a.offset + a.width <= s.end
      {
        var k :| 0 <= k < |log| && log[k] == a;
        assert Proper(table, log[k]);
        var i :| 0 <= i < |table| && InSegment(table[i], a.offset) && a.offset + a.width <= table[i].end && a.width == table[i].alignment;
        assert table[i] in table;
      }
    }

    /** The read primitives of the three widths. */
    method ReadReg(p: nat, w: nat) returns (value: nat)
      requires Valid() && p + w <= regs.Length && Proper(table, Access(p, w))
      modifies this`log
      ensures Valid() && value == Word(regs[p..p + w])
    {
      log := log + [Access(p, w)];
      value := Word(regs[p..p + w]);
    }

    /** Copies one word of a segment, or the zero of a hole. */
    method ReadWordOfRegion(buf: array<byte>, k: nat, p: nat, w: nat, empty: bool)
      requires Valid() && buf != regs && k + w <= buf.Length && p + w <= regs.Length
      requires forall r :: p <= r < p + w ==> (Covered(table, r) <==> !empty)
      requires !empty ==> Proper(table, Access(p, w))
      modifies this`log, buf
      ensures Valid()
      ensures buf[..] == Patched(old(buf[..]), k, ReadBytes(table, regs[..], p, w))
    {
      hide Patched, Multiple, ReadBytes, Bytes, Word, Proper, AlignAt, Covered, WellFormed, AllProper;
      var value := 0;
      if !empty {
        value := ReadReg(p, w);
      }
      ReadWord(table, regs[..], p, w);
      PutUser(buf, k, value, w);
    }

    /** Copies one region, or its part in the range, to the user. */
    method ReadRegion(buf: array<byte>, k: nat, p: nat, length: nat, index: nat, empty: bool)
      requires Valid() && buf != regs && k + length <= buf.Length && p + length <= regs.Length
      requires Located(table, p, index, empty) && p + length <= RegionEnd(table, index, empty, regs.Length)
      requires Multiple(p, AlignAt(table, p)) && Multiple(p + length, AlignAt(table, p))
      modifies this`log, buf
      ensures Valid()
      ensures buf[..] == Patched(old(buf[..]), k, ReadBytes(table, regs[..], p, length))
    {
      hide Patched, Multiple, ReadBytes, Bytes, Word, Proper, AlignAt, Covered, Located, WellFormed, AllProper, InSegment;
      LocatedMeans(table, p, index, empty);
      WidthOf(table, index);
      var align := if empty then 4 else table[index].alignment;
      var done := 0;
      ReadNothing(table, regs[..], p);
      PatchedNothing(buf[..], k);
      while done < length
        invariant 0 <= done <= length && Valid()
        invariant Multiple(p + done, align)
        invariant buf[..] == Patched(old(buf[..]), k, ReadBytes(table, regs[..], p, done))
      {
        Step(p + done, length - done, align);
        SameAnswer(p, index, empty, p + done, align);
        ReadMore(table, regs[..], p, done, align);
        PatchedTwice(old(buf[..]), k, ReadBytes(table, regs[..], p, done), ReadBytes(table, regs[..], p + done, align));
        ReadWordOfRegion(buf, k + done, p + done, align, empty);
        done := done + align;
      }
    }

    lemma SameAnswer(p: nat, index: nat, empty: bool, q: nat, w: nat)
      requires Valid() && Located(table, p, index, empty) && p <= q
      requires q + w <= RegionEnd(table, index, empty, regs.Length)
      ensures forall r :: q <= r < q + w ==> (Covered(table, r) <==> !empty)
      ensures !empty && w == table[index].alignment && Multiple(q, w) ==> Proper(table, Access(q, w))
    {
      forall r | q <= r < q + w ensures Covered(table, r) <==> !empty {
        SameRegion(table, p, index, empty, regs.Length, r);
        LocatedMeans(table, r, index, empty);
      }
    }

    /** The rest of the range lies in this region, or the region ends at a boundary. */
    lemma NextRegion(p: nat, index: nat, empty: bool, left: nat, length: nat)
      requires WellFormed(table) && Located(table, p, index, empty) && p < regs.Length && left > 0
      requires p + left <= regs.Length && Aligned(table, p, left)
      requires var end := RegionEnd(table, index, empty, regs.Length);
               p < end && length == if p + left > end then end - p else left
      ensures 0 < length <= left && Multiple(p, AlignAt(table, p)) && Multiple(p + length, AlignAt(table, p))
      ensures length < left ==> Aligned(table, p + length, left - length)
    {
      hide Multiple, AlignAt, Covered;
      LocatedMeans(table, p, index, empty);
      if length == left {
        SameRegion(table, p, index, empty, regs.Length, p + left - 1);
        LocatedMeans(table, p + left - 1, index, empty);
      } else {
        FourIsAligned(p + length, AlignAt(table, p));
        FourIsAligned(p + length, AlignAt(table, p + length));
      }
    }

    lemma RegionIsAhead(p: nat, index: nat, empty: bool)
      requires Located(table, p, index, empty) && p < regs.Length
      ensures p < RegionEnd(table, index, empty, regs.Length)
    {
    }

    /** The tests in front of both loops; left is what is to be transferred. Behind the registers the
      subtraction that clips the size wraps around. */
    method Admit(size: nat, pos: nat) returns (status: int, left: nat)
      requires Valid() && pos < SIZE_LIMIT
      ensures status == 0 <==> size == 0 || regs.Length == 0 || Narrow(pos) >= regs.Length
      ensures status != 0 && pos < regs.Length ==>
                && left == (if pos + size < regs.Length then size else regs.Length - pos)
                && status == if Aligned(table, pos, left) then 1 else -EINVAL
      ensures status != 0 && pos >= regs.Length ==>
                && left == SIZE_LIMIT - pos + regs.Length > regs.Length
                && status == if Astray(table, regs.Length, pos) then 1 else -EINVAL
    {
      hide Multiple, AlignAt, Covered, Located, WellFormed, AllProper, InSegment, Narrow;
      left := 0;
      if size == 0 {
        return 0, left;
      }
      var ok, index, empty := FindSegment(table, regs.Length, pos);
      if !ok {
        return 0, left;
      }
      if pos < regs.Length { NarrowIsSame(pos); } else { SameWord(regs.Length, pos); }
      left := if pos + size <= regs.Length then size
              else if pos <= regs.Length then regs.Length - pos
              else SIZE_LIMIT - pos + regs.Length;
      if Narrow(pos) >= 0 { LocatedMeans(table, Narrow(pos), index, empty); }
      var align := if empty then 4 else table[index].alignment;
      if !Multiple(pos, align) {
        return -EINVAL, left;
      }
      var last := (pos + left - 1) % SIZE_LIMIT;
      WrappedLast(regs.Length, pos, left);
      index, empty := FindSegmentAt(table, regs.Length, last);
      LocatedMeans(table, last, index, empty);
      align := if empty then 4 else table[index].alignment;
      SameMultiple(regs.Length, align);
      if !Multiple(pos + left, align) {
        return -EINVAL, left;
      }
      status := 1;
    }

    /** The region at p and how much of what is left lies in it. */
    method NextPart(p: nat, left: nat) returns (index: nat, empty: bool, length: nat)
      requires Valid() && left > 0 && p + left <= regs.Length && Aligned(table, p, left)
      ensures Located(table, p, index, empty)
      ensures 0 < length <= left && p + length <= RegionEnd(table, index, empty, regs.Length)
      ensures Multiple(p, AlignAt(table, p)) && Multiple(p + length, AlignAt(table, p))
      ensures length < left ==> Aligned(table, p + length, left - length)
    {
      hide Multiple, AlignAt, Covered, Located, WellFormed, AllProper, RegionEnd, Aligned, InSegment;
      index, empty := FindSegmentAt(table, regs.Length, p);
      LocatedMeans(table, p, index, empty);
      RegionIsAhead(p, index, empty);
      var segEnd := RegionEnd(table, index, empty, regs.Length);
      length := if p + left > segEnd then segEnd - p else left;
      NextRegion(p, index, empty, left, length);
    }

    lemma WordsAreAccepted(pos: nat, n: nat)
      requires WellFormed(table) && n > 0
      ensures pos % 4 == 0 && (pos + n) % 4 == 0 ==> Aligned(table, pos, n)
    {
      if pos % 4 == 0 && (pos + n) % 4 == 0 { WordsAreAligned(table, pos, pos + n); }
      hide Aligned, WellFormed;
    }

    /** The loop that reads. */
    method ReadRange(buf: array<byte>, n: nat, pos: nat) returns (result: int, newPos: nat)
      requires Valid() && buf != regs && n <= buf.Length && pos + n <= regs.Length && Aligned(table, pos, n)
      modifies this`log, buf
      ensures Valid() && result == n && newPos == pos + n
      ensures forall k :: 0 <= k < buf.Length ==>
                buf[k] == if k >= n then old(buf[k])
                          else if exists s :: s in table && s.start <= pos + k < s.end then regs[pos + k] else 0
    {
      hide Patched, Multiple, ReadBytes, AlignAt, Covered, Located, WellFormed, AllProper, RegionEnd, Aligned, SeenAlign, Narrow;
      var left := n;
      result, newPos := 0, pos;
      ReadNothing(table, regs[..], pos);
      PatchedNothing(buf[..], 0);
      while left > 0
        invariant Valid() && 0 <= left <= n && newPos == pos + result && result == n - left
        invariant left > 0 ==> Aligned(table, newPos, left)
        invariant buf[..] == Patched(old(buf[..]), 0, ReadBytes(table, regs[..], pos, n - left))
      {
        var index, empty, length := NextPart(newPos, left);
        ReadMore(table, regs[..], pos, n - left, length);
        PatchedTwice(old(buf[..]), 0, ReadBytes(table, regs[..], pos, result), ReadBytes(table, regs[..], newPos, length));
        ReadRegion(buf, result, newPos, length, index, empty);
        left := left - length;
        newPos := newPos + length;
        result := result + length;
      }
      ReadMeans(table, regs[..], pos, n, old(buf[..]), buf[..]);
    }

    method Read(buf: array<byte>, size: nat, pos: nat) returns (result: int, newPos: nat, astray: bool)
      requires Valid() && buf != regs && size <= buf.Length && pos < SIZE_LIMIT
      modifies this`log, buf
      ensures Valid()
      ensures astray <==> size > 0 && Astray(table, regs.Length, pos)
      ensures size == 0 || (pos >= regs.Length && (regs.Length == 0 || Narrow(pos) >= regs.Length)) ==>
                result == 0 && newPos == pos && unchanged(buf)
      ensures size > 0 && pos >= regs.Length > Narrow(pos) && regs.Length > 0 && !astray ==>
                result == -EINVAL && newPos == pos && unchanged(buf)
      // inside the registers: refused, or all of the range up to the last register
      ensures size > 0 && pos < regs.Length ==>
                var n := if pos + size < regs.Length then size else regs.Length - pos;
                && (pos % 4 == 0 && (pos + n) % 4 == 0 ==> Aligned(table, pos, n))
                && if Aligned(table, pos, n) then result == n > 0 && newPos == pos + n
                   else result == -EINVAL && newPos == pos && unchanged(buf)
      ensures result > 0 && pos < regs.Length ==>
                forall k :: 0 <= k < buf.Length ==>
                  buf[k] == if k >= result then old(buf[k])
                            else if exists s :: s in table && s.start <= pos + k < s.end then regs[pos + k] else 0
    {
      hide Patched, Multiple, ReadBytes, WriteBytes, AlignAt, Covered, Located, WellFormed, AllProper, RegionEnd, Aligned, SeenAlign, Narrow;
      var left: nat;
      if pos < regs.Length { NarrowIsSame(pos); }
      newPos, astray := pos, false;
      result, left := Admit(size, pos);
      if pos < regs.Length && size > 0 { WordsAreAccepted(pos, left); }
      if result != 1 {
        return;
      }
      if pos >= regs.Length {
        // the loops would leave the register space
        astray, result := true, 0;
        return;
      }
      result, newPos := ReadRange(buf, left, pos);
    }

    /** The write primitives of the three widths. */
    method WriteReg(p: nat, w: nat, value: nat)
      requires Valid() && p + w <= regs.Length && Proper(table, Access(p, w))
      modifies this`log, regs
      ensures |Bytes(value, w)| == w
      ensures Valid() && regs[..] == Patched(old(regs[..]), p, Bytes(value, w))
    {
      log := log + [Access(p, w)];
      PutUser(regs, p, value, w);
    }

    /** Stores the part of the range that lies in one region; a hole swallows it. */
    method WriteRegion(buf: array<byte>, k: nat, p: nat, length: nat, index: nat, empty: bool)
      requires Valid() && buf != regs && k + length <= buf.Length && p + length <= regs.Length
      requires Located(table, p, index, empty) && p + length <= RegionEnd(table, index, empty, regs.Length)
      requires Multiple(p, AlignAt(table, p)) && Multiple(p + length, AlignAt(table, p))
      modifies this`log, regs
      ensures Valid()
      ensures regs[..] == WriteBytes(table, old(regs[..]), p, buf[k..k + length])
    {
      hide Patched, Multiple, WriteBytes, Bytes, Word, Proper, AlignAt, Covered, Located, WellFormed, AllProper, InSegment;
      LocatedMeans(table, p, index, empty);
      WidthOf(table, index);
      if empty {
        SameAnswer(p, index, empty, p, length);
        WriteWord(table, regs[..], p, buf[k..k + length]);
        return;
      }
      var align := table[index].alignment;
      var done := 0;
      ghost var before := regs[..];
      WriteNothing(table, before, p);
      assert buf[k..k + 0] == [];
      while done < length
        invariant 0 <= done <= length && Valid()
        invariant Multiple(p + done, align)
        invariant regs[..] == WriteBytes(table, before, p, buf[k..k + done])
      {
        Step(p + done, length - done, align);
        SameAnswer(p, index, empty, p + done, align);
        ghost var data := buf[k + done..k + done + align];
        WriteWord(table, regs[..], p + done, data);
        WriteMore(table, before, p, buf[k..k + done], data);
        assert buf[k..k + done + align] == buf[k..k + done] + data;
        var value := Word(buf[k + done..k + done + align]);
        WordBytes(data);
        WriteReg(p + done, align, value);
        done := done + align;
      }
    }

    /** The loop that writes. */
    method WriteRange(buf: array<byte>, n: nat, pos: nat) returns (result: int, newPos: nat)
      requires Valid() && buf != regs && n <= buf.Length && pos + n <= regs.Length && Aligned(table, pos, n)
      modifies this`log, regs
      ensures Valid() && result == n && newPos == pos + n
      ensures forall q :: 0 <= q < regs.Length ==>
                regs[q] == if pos <= q < pos + n && exists s :: s in table && s.start <= q < s.end then buf[q - pos]
                           else old(regs[q])
    {
      hide Patched, Multiple, WriteBytes, AlignAt, Covered, Located, WellFormed, AllProper, RegionEnd, Aligned, SeenAlign, Narrow;
      var left := n;
      result, newPos := 0, pos;
      ghost var before := regs[..];
      WriteNothing(table, before, pos);
      assert buf[..0] == [];
      while left > 0
        invariant Valid() && 0 <= left <= n && newPos == pos + result && result == n - left
        invariant left > 0 ==> Aligned(table, newPos, left)
        invariant regs[..] == WriteBytes(table, before, pos, buf[..n - left])
      {
        var index, empty, length := NextPart(newPos, left);
        WriteMore(table, before, pos, buf[..result], buf[result..result + length]);
        assert buf[..result + length] == buf[..result] + buf[result..result + length];
        WriteRegion(buf, result, newPos, length, index, empty);
        left := left - length;
        newPos := newPos + length;
        result := result + length;
      }
      WriteMeans(table, before, pos, buf[..n], regs[..]);
    }

    method Write(buf: array<byte>, size: nat, pos: nat) returns (result: int, newPos: nat, astray: bool)
      requires Valid() && buf != regs && size <= buf.Length && pos < SIZE_LIMIT
      modifies this`log, regs
      ensures Valid()
      ensures astray <==> size > 0 && Astray(table, regs.Length, pos)
      ensures size == 0 || (pos >= regs.Length && (regs.Length == 0 || Narrow(pos) >= regs.Length)) ==>
                result == 0 && newPos == pos && unchanged(regs)
      ensures size > 0 && pos >= regs.Length > Narrow(pos) && regs.Length > 0 && !astray ==>
                result == -EINVAL && newPos == pos && unchanged(regs)
      // inside the registers: refused, or all of the range up to the last register
      ensures size > 0 && pos < regs.Length ==>
                var n := if pos + size < regs.Length then size else regs.Length - pos;
                && (pos % 4 == 0 && (pos + n) % 4 == 0 ==> Aligned(table, pos, n))
                && if Aligned(table, pos, n) then result == n > 0 && newPos == pos + n
                   else result == -EINVAL && newPos == pos && unchanged(regs)
      ensures result > 0 && pos < regs.Length ==>
                forall q :: 0 <= q < regs.Length ==>
                  regs[q] == if pos <= q < pos + result && exists s :: s in table && s.start <= q < s.end then buf[q - pos]
                             else old(regs[q])
    {
      hide Patched, Multiple, ReadBytes, WriteBytes, AlignAt, Covered, Located, WellFormed, AllProper, RegionEnd, Aligned, SeenAlign, Narrow;
      var left: nat;
      if pos < regs.Length { NarrowIsSame(pos); }
      newPos, astray := pos, false;
      result, left := Admit(size, pos);
      if pos < regs.Length && size > 0 { WordsAreAccepted(pos, left); }
      if result != 1 {
        return;
      }
      if pos >= regs.Length {
        // the loops would leave the register space
        astray, result := true, 0;
        return;
      }
      result, newPos := WriteRange(buf, left, pos);
    }

    /** An accepted write, followed by a read of the same range. */
    method WriteThenRead(data: array<byte>, out: array<byte>, size: nat, pos: nat)
      requires Valid() && data != regs && out != regs && data != out
      requires 0 < size <= data.Length && size <= out.Length && pos < regs.Length
      requires Aligned(table, pos, if pos + size < regs.Length then size else regs.Length - pos)
      modifies this`log, regs, out
      ensures forall k :: 0 <= k < size && pos + k < regs.Length ==>
                out[k] == if exists s :: s in table && s.start <= pos + k < s.end then data[k] else 0
    {
      hide Aligned, WellFormed, AllProper, SeenAlign, Narrow;
      var written, p, _ := Write(data, size, pos);
      var got, q, _ := Read(out, size, pos);
    }
  }

  /** Stores the low bytes of a value in the buffer of the user. */
  method PutUser(buf: array<byte>, k: nat, value: nat, w: nat)
    requires k + w <= buf.Length
    modifies buf
    ensures |Bytes(value, w)| == w && buf[..] == Patched(old(buf[..]), k, Bytes(value, w))
  {
    BytesLength(value, w);
    var bytes := Bytes(value, w);
    for j := 0 to w
      invariant buf[..] == old(buf[..k]) + bytes[..j] + old(buf[k + j..])
    {
      buf[k + j] := bytes[j];
    }
    assert bytes[..w] == bytes;
  }

  /** Adding a power of two that the widths divide does not matter for them. */
  lemma SameMultiple(a: nat, w: nat)
    requires Width(w)
    ensures Multiple(SIZE_LIMIT + a, w) == Multiple(a, w)
  {
    if w == 1 {
    } else if w == 2 {
      assert (SIZE_LIMIT + a) % 2 == a % 2;
    } else {
      assert (SIZE_LIMIT + a) % 4 == a % 4;
    }
  }

  /** The last byte of a clipped request is the last register, also if the size has wrapped around. */
  lemma WrappedLast(mmioSize: nat, pos: nat, left: nat)
    requires 0 < mmioSize < INT_LIMIT && pos < SIZE_LIMIT
    requires left > 0 && (pos + left <= mmioSize || left == SIZE_LIMIT - pos + mmioSize)
    ensures (pos + left - 1) % SIZE_LIMIT == if pos + left <= mmioSize then pos + left - 1 else mmioSize - 1
    ensures (pos + left - 1) % SIZE_LIMIT < mmioSize
  {
  }

  /** An offset that is refused or mistaken is not the one right behind the registers. */
  lemma SameWord(mmioSize: nat, pos: nat)
    requires mmioSize < INT_LIMIT && pos >= mmioSize && Narrow(pos) < mmioSize
    ensures pos > mmioSize
  {
  }
}
