/** Masks of 32 bits. The operators are named so that proofs can go without their definitions. */
module BitMasks {

  function On(mask: bv32, bits: bv32): bv32 {
    mask | bits
  }

  function Off(mask: bv32, bits: bv32): bv32 {
    mask & !bits
  }

  predicate Has(mask: bv32, bits: bv32) {
    mask & bits == bits
  }

  predicate Meets(x: bv32, y: bv32) {
    x & y != 0
  }

  predicate OneBit(b: bv32) {
    b != 0 && b & (b - 1) == 0
  }

  lemma BitIsInOrOut(x: bv32, b: bv32)
    requires OneBit(b)
    ensures x & b == b || x & b == 0
  {
  }

  lemma OnBit(mask: bv32, bits: bv32, b: bv32)
    requires OneBit(b)
    ensures Has(On(mask, bits), b) == (Has(bits, b) || Has(mask, b))
  {
    BitIsInOrOut(mask, b);
    BitIsInOrOut(bits, b);
    assert (mask | bits) & b == (mask & b) | (bits & b);
  }

  lemma OffBit(mask: bv32, bits: bv32, b: bv32)
    requires OneBit(b)
    ensures Has(Off(mask, bits), b) == (!Has(bits, b) && Has(mask, b))
  {
    BitIsInOrOut(mask, b);
    BitIsInOrOut(bits, b);
    assert (mask & !bits) & b == (mask & b) & !(bits & b);
  }

  lemma NothingIsNoBit(b: bv32)
    requires OneBit(b)
    ensures !Has(0, b)
  {
  }

  lemma OnNothing(x: bv32)
    ensures On(x, 0) == x && Off(x, 0) == x
  {
  }

  lemma NothingMeets(x: bv32)
    ensures !Meets(x, 0) && !Meets(0, x)
  {
  }

  lemma ItselfMeets(x: bv32)
    requires x != 0
    ensures Meets(x, x)
  {
  }

  lemma MeetsOn(x: bv32, a: bv32, b: bv32)
    ensures Meets(x, On(a, b)) <==> Meets(x, a) || Meets(x, b)
  {
    assert x & (a | b) == (x & a) | (x & b);
  }

  /** The lowest bit that is set. */
  function LastBit(x: bv32): bv32 {
    Common(!(x - 1), x)
  }

  function Common(x: bv32, y: bv32): bv32 {
    x & y
  }

  lemma LastBitIsOne(x: bv32)
    requires x != 0
    ensures OneBit(!(x - 1) & x)
  {
  }

  lemma DifferingBit(x: bv32, y: bv32, b: bv32)
    requires OneBit(b) && (x ^ y) & b == b
    ensures Has(x, b) != Has(y, b)
  {
  }

  lemma InsideOf(x: bv32, y: bv32)
    ensures x & (y & x) == y & x
  {
  }

  lemma DifferIsNotZero(x: bv32, y: bv32)
    requires x != y
    ensures x ^ y != 0
  {
  }

  /** A mask is what its single bits are. */
  lemma SameBits(x: bv32, y: bv32)
    requires forall b :: OneBit(b) ==> Has(x, b) == Has(y, b)
    ensures x == y
  {
    hide OneBit, Has;
    if x != y {
      DifferIsNotZero(x, y);
      var b := !((x ^ y) - 1) & (x ^ y);
      LastBitIsOne(x ^ y);
      InsideOf(x ^ y, !((x ^ y) - 1));
      DifferingBit(x, y, b);
      assert false;
    }
  }
}
