// The eight bits of a bitmap byte: the effect of the shifts and masks of the
// frame allocator, one bit at a time.
module Bits {

  function Mask(j: nat): bv8
    requires j < 8
  {
    (1 as bv8) << j
  }

  predicate Bit(b: bv8, j: nat)
    requires j < 8
  {
    b & Mask(j) != 0
  }

  // The allocator tests a byte against 0xFF before it looks at single bits.
  lemma FullByte(b: bv8)
    ensures b == 0xFF <==> forall j: nat | j < 8 :: Bit(b, j)
  {
    if forall j: nat | j < 8 :: Bit(b, j) {
      assert Bit(b, 0) && Bit(b, 1) && Bit(b, 2) && Bit(b, 3);
      assert Bit(b, 4) && Bit(b, 5) && Bit(b, 6) && Bit(b, 7);
    }
  }

  lemma SetBit(b: bv8, j: nat, k: nat)
    requires j < 8 && k < 8
    ensures Bit(b | Mask(j), k) <==> k == j || Bit(b, k)
  {
    MaskValues(j);
    MaskValues(k);
  }

  lemma ClearBit(b: bv8, j: nat, k: nat)
    requires j < 8 && k < 8
    ensures Bit(b & !Mask(j), k) <==> k != j && Bit(b, k)
  {
    MaskValues(j);
    MaskValues(k);
  }

  // Two bytes with the same eight bits are the same byte.
  lemma SameBits(a: bv8, b: bv8)
    requires forall j: nat | j < 8 :: Bit(a, j) == Bit(b, j)
    ensures a == b
  {
    MaskValues(0);
    MaskValues(1);
    MaskValues(2);
    MaskValues(3);
    MaskValues(4);
    MaskValues(5);
    MaskValues(6);
    MaskValues(7);
    assert Bit(a, 0) == Bit(b, 0) && Bit(a, 1) == Bit(b, 1) && Bit(a, 2) == Bit(b, 2) && Bit(a, 3) == Bit(b, 3);
    assert Bit(a, 4) == Bit(b, 4) && Bit(a, 5) == Bit(b, 5) && Bit(a, 6) == Bit(b, 6) && Bit(a, 7) == Bit(b, 7);
  }

  lemma MaskValues(j: nat)
    requires j < 8
    ensures Mask(j) == if j == 0 then 1 else if j == 1 then 2 else if j == 2 then 4 else if j == 3 then 8
                       else if j == 4 then 16 else if j == 5 then 32 else if j == 6 then 64 else 128
  {
  }
}
