/** Single bits of 32-bit and 128-bit words. */
module Bits {

  /** A word with one bit set stands for that bit. */
  predicate IsBit32(b: bv32) {
    b != 0 && b & (b - 1) == 0
  }

  predicate IsBit128(b: bv128) {
    b != 0 && b & (b - 1) == 0
  }

  predicate Has32(v: bv32, b: bv32) {
    v & b != 0
  }

  predicate Has128(v: bv128, b: bv128) {
    v & b != 0
  }

  /** The pattern has, of the word, exactly the bits of the mask. */
  ghost predicate Masks32(v: bv32, mask: bv32, pattern: bv32) {
    forall b: bv32 | IsBit32(b) :: Has32(pattern, b) <==> Has32(mask, b) && Has32(v, b)
  }

  ghost predicate Masks128(v: bv128, mask: bv128, pattern: bv128) {
    forall b: bv128 | IsBit128(b) :: Has128(pattern, b) <==> Has128(mask, b) && Has128(v, b)
  }

  lemma BitOfAnd32(v: bv32, mask: bv32, b: bv32)
    requires IsBit32(b)
    ensures Has32(v & mask, b) <==> Has32(mask, b) && Has32(v, b)
  {
  }

  lemma BitOfAnd128(v: bv128, mask: bv128, b: bv128)
    requires IsBit128(b)
    ensures Has128(v & mask, b) <==> Has128(mask, b) && Has128(v, b)
  {
  }

  /** The lowest bit in which two words differ. */
  lemma DifferingBit32(x: bv32, y: bv32) returns (b: bv32)
    requires x != y
    ensures IsBit32(b) && (Has32(x, b) <==> !Has32(y, b))
  {
    b := (x ^ y) & (!(x ^ y) + 1);
  }

  lemma DifferingBit128(x: bv128, y: bv128) returns (b: bv128)
    requires x != y
    ensures IsBit128(b) && (Has128(x, b) <==> !Has128(y, b))
  {
    b := LowestBit128(x ^ y);
    BitOfXor128(x, y, b);
  }

  lemma LowestBit128(v: bv128) returns (b: bv128)
    requires v != 0
    ensures IsBit128(b) && Has128(v, b)
  {
    b := v & (!v + 1);
  }

  lemma BitOfXor128(x: bv128, y: bv128, b: bv128)
    requires IsBit128(b) && Has128(x ^ y, b)
    ensures Has128(x, b) <==> !Has128(y, b)
  {
  }

  lemma MasksMeans32(v: bv32, mask: bv32, pattern: bv32)
    ensures v & mask == pattern <==> Masks32(v, mask, pattern)
  {
    if v & mask == pattern {
      forall b: bv32 | IsBit32(b) ensures Has32(pattern, b) <==> Has32(mask, b) && Has32(v, b) {
        BitOfAnd32(v, mask, b);
      }
    } else {
      var b := DifferingBit32(v & mask, pattern);
      BitOfAnd32(v, mask, b);
    }
  }

  lemma MaskedHas128(v: bv128, mask: bv128, pattern: bv128)
    requires v & mask == pattern
    ensures Masks128(v, mask, pattern)
  {
    forall b: bv128 | IsBit128(b) ensures Has128(pattern, b) <==> Has128(mask, b) && Has128(v, b) {
      BitOfAnd128(v, mask, b);
    }
  }

  lemma HasIsMasked128(v: bv128, mask: bv128, pattern: bv128)
    requires Masks128(v, mask, pattern)
    ensures v & mask == pattern
  {
    if v & mask != pattern {
      var b := DifferingBit128(v & mask, pattern);
      BitOfAnd128(v, mask, b);
    }
  }
}
