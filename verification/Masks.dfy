/** Permissions are sets of bit numbers in this model and 64-bit masks in the program. The mask
    operations the program uses act on the bits as the set operations used here do. */
module Masks {
  import opened Models

  type Mask = bv64

  function One(k: nat): Mask
    requires k < 64
  {
    (1 as Mask) << k
  }

  predicate Has(m: Mask, bit: Mask) {
    m & bit != 0
  }

  function Bits(m: Mask): Permissions {
    set k: nat | k < 64 && Has(m, One(k))
  }

  lemma OrKeepsLeft(a: Mask, b: Mask, bit: Mask)
    requires Has(a, bit)
    ensures Has(a | b, bit)
  {
  }

  lemma OrKeepsRight(a: Mask, b: Mask, bit: Mask)
    requires Has(b, bit)
    ensures Has(a | b, bit)
  {
  }

  lemma OrAddsNothing(a: Mask, b: Mask, bit: Mask)
    requires Has(a | b, bit) && !Has(a, bit)
    ensures Has(b, bit)
  {
  }

  lemma AndNotKeeps(a: Mask, b: Mask, k: nat)
    requires k < 64 && Has(a, One(k)) && !Has(b, One(k))
    ensures Has(a & !b, One(k))
  {
  }

  lemma AndNotWithin(a: Mask, b: Mask, k: nat)
    requires k < 64 && Has(a & !b, One(k))
    ensures Has(a, One(k))
  {
  }

  lemma AndNotRemoves(a: Mask, b: Mask, k: nat)
    requires k < 64 && Has(a & !b, One(k))
    ensures !Has(b, One(k))
  {
  }

  lemma AllBit(k: nat)
    requires k < 64
    ensures Has(0x7FFF_FFFF, One(k)) <==> k < 31
  {
  }

  lemma {:induction false} OrBit(a: Mask, b: Mask, bit: Mask)
    ensures Has(a | b, bit) <==> Has(a, bit) || Has(b, bit)
  {
    if Has(a, bit) {
      OrKeepsLeft(a, b, bit);
    } else if Has(b, bit) {
      OrKeepsRight(a, b, bit);
    } else if Has(a | b, bit) {
      OrAddsNothing(a, b, bit);
    }
  }

  lemma {:induction false} BitsOfOr(a: Mask, b: Mask)
    ensures Bits(a | b) == Bits(a) + Bits(b)
  {
    forall k: nat | k < 64 ensures Has(a | b, One(k)) <==> Has(a, One(k)) || Has(b, One(k)) {
      OrBit(a, b, One(k));
    }
  }

  lemma {:induction false} BitsOfAndNot(a: Mask, b: Mask)
    ensures Bits(a & !b) == Bits(a) - Bits(b)
  {
    forall k: nat | k < 64 ensures Has(a & !b, One(k)) <==> Has(a, One(k)) && !Has(b, One(k)) {
      if Has(a & !b, One(k)) {
        AndNotWithin(a, b, k);
        AndNotRemoves(a, b, k);
      } else if Has(a, One(k)) && !Has(b, One(k)) {
        AndNotKeeps(a, b, k);
      }
    }
  }

  lemma BitsOfConstants(m: Mask)
    ensures m & 1 != 0 <==> ADMINISTRATOR in Bits(m)
    ensures Bits(0x7FFF_FFFF) == PERMISSION_ALL
  {
    assert One(0) == 1;
    forall k: nat | k < 64 ensures Has(0x7FFF_FFFF, One(k)) <==> k < 31 {
      AllBit(k);
    }
  }
}
