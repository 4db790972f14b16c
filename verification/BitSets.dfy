/** Words of 32 bits as the sets of the places where they have a 1. */
module BitSets {

  const MASKS: seq<bv32> := [
    0x1, 0x2, 0x4, 0x8, 0x10, 0x20, 0x40, 0x80, 0x100, 0x200, 0x400, 0x800, 0x1000, 0x2000, 0x4000, 0x8000,
    0x1_0000, 0x2_0000, 0x4_0000, 0x8_0000, 0x10_0000, 0x20_0000, 0x40_0000, 0x80_0000,
    0x100_0000, 0x200_0000, 0x400_0000, 0x800_0000, 0x1000_0000, 0x2000_0000, 0x4000_0000, 0x8000_0000]

  predicate Has(x: bv32, mask: bv32) {
    x & mask != 0
  }

  ghost function Bits(x: bv32): set<nat> {
    set k | 0 <= k < 32 && Has(x, MASKS[k])
  }

  predicate SingleBit(m: bv32) {
    m != 0 && m & (m - 1) == 0
  }

  lemma EachIsSingle(k: nat)
    requires k < 32
    ensures SingleBit(MASKS[k])
  {
    hide SingleBit;
    Single(0x1); Single(0x2); Single(0x4); Single(0x8); Single(0x10); Single(0x20); Single(0x40); Single(0x80); Single(0x100); Single(0x200); Single(0x400); Single(0x800); Single(0x1000); Single(0x2000); Single(0x4000); Single(0x8000);
    Single(0x10000); Single(0x20000); Single(0x40000); Single(0x80000); Single(0x100000); Single(0x200000); Single(0x400000); Single(0x800000); Single(0x1000000); Single(0x2000000); Single(0x4000000); Single(0x8000000); Single(0x10000000); Single(0x20000000); Single(0x40000000); Single(0x80000000);
    assert k == 0 || k == 1 || k == 2 || k == 3 || k == 4 || k == 5 || k == 6 || k == 7 || k == 8 || k == 9 || k == 10 || k == 11 || k == 12
      || k == 13 || k == 14 || k == 15 || k == 16 || k == 17 || k == 18 || k == 19 || k == 20 || k == 21 || k == 22 || k == 23 || k == 24
      || k == 25 || k == 26 || k == 27 || k == 28 || k == 29 || k == 30 || k == 31;
  }

  lemma Single(m: bv32)
    requires m != 0 && m & (m - 1) == 0
    ensures SingleBit(m)
  {
  }

  lemma HasBoth(x: bv32, y: bv32, m: bv32)
    requires SingleBit(m)
    ensures Has(x & y, m) <==> Has(x, m) && Has(y, m)
  {
  }

  lemma Distributes(x: bv32, y: bv32, m: bv32)
    ensures (x | y) & m == (x & m) | (y & m)
  {
  }

  lemma EitherZero(x: bv32, y: bv32)
    ensures x | y == 0 <==> x == 0 && y == 0
  {
  }

  lemma HasEither(x: bv32, y: bv32, m: bv32)
    ensures Has(x | y, m) <==> Has(x, m) || Has(y, m)
  {
    Distributes(x, y, m);
    EitherZero(x & m, y & m);
  }

  lemma HasNone(x: bv32, y: bv32, m: bv32)
    requires !Has(y, m)
    ensures Has(x & !y, m) <==> Has(x, m)
  {
  }

  lemma HasCleared(x: bv32, y: bv32, m: bv32)
    requires SingleBit(m) && Has(y, m)
    ensures !Has(x & !y, m)
  {
  }

  lemma HasNot(x: bv32, y: bv32, m: bv32)
    requires SingleBit(m)
    ensures Has(x & !y, m) <==> Has(x, m) && !Has(y, m)
  {
    hide Has, SingleBit;
    if Has(y, m) { HasCleared(x, y, m); } else { HasNone(x, y, m); }
  }

  lemma AllClear(x: bv32)
    requires forall k | 0 <= k < 32 :: !Has(x, MASKS[k])
    ensures x == 0
  {
    assert !Has(x, MASKS[0]) && !Has(x, MASKS[1]) && !Has(x, MASKS[2]) && !Has(x, MASKS[3]);
    assert !Has(x, MASKS[4]) && !Has(x, MASKS[5]) && !Has(x, MASKS[6]) && !Has(x, MASKS[7]);
    assert !Has(x, MASKS[8]) && !Has(x, MASKS[9]) && !Has(x, MASKS[10]) && !Has(x, MASKS[11]);
    assert !Has(x, MASKS[12]) && !Has(x, MASKS[13]) && !Has(x, MASKS[14]) && !Has(x, MASKS[15]);
    assert !Has(x, MASKS[16]) && !Has(x, MASKS[17]) && !Has(x, MASKS[18]) && !Has(x, MASKS[19]);
    assert !Has(x, MASKS[20]) && !Has(x, MASKS[21]) && !Has(x, MASKS[22]) && !Has(x, MASKS[23]);
    assert !Has(x, MASKS[24]) && !Has(x, MASKS[25]) && !Has(x, MASKS[26]) && !Has(x, MASKS[27]);
    assert !Has(x, MASKS[28]) && !Has(x, MASKS[29]) && !Has(x, MASKS[30]) && !Has(x, MASKS[31]);
  }

  lemma BitsOfBoth(x: bv32, y: bv32)
    ensures Bits(x & y) == Bits(x) * Bits(y)
  {
    hide Has;
    forall k | 0 <= k < 32 ensures Has(x & y, MASKS[k]) <==> Has(x, MASKS[k]) && Has(y, MASKS[k]) {
      EachIsSingle(k);
      HasBoth(x, y, MASKS[k]);
    }
  }

  lemma BitsOfEither(x: bv32, y: bv32)
    ensures Bits(x | y) == Bits(x) + Bits(y)
  {
    hide Has;
    forall k | 0 <= k < 32 ensures Has(x | y, MASKS[k]) <==> Has(x, MASKS[k]) || Has(y, MASKS[k]) {
      HasEither(x, y, MASKS[k]);
    }
  }

  lemma BitsWithout(x: bv32, y: bv32)
    ensures Bits(x & !y) == Bits(x) - Bits(y)
  {
    hide Has;
    forall k | 0 <= k < 32 ensures Has(x & !y, MASKS[k]) <==> Has(x, MASKS[k]) && !Has(y, MASKS[k]) {
      EachIsSingle(k);
      HasNot(x, y, MASKS[k]);
    }
  }

  lemma NoBits(x: bv32)
    ensures Bits(x) == {} <==> x == 0
  {
    if Bits(x) == {} {
      forall k | 0 <= k < 32 ensures !Has(x, MASKS[k]) { assert k !in Bits(x); }
      AllClear(x);
    }
  }

  /** A word is determined by its bits. */
  lemma SameBits(x: bv32, y: bv32)
    ensures Bits(x) == Bits(y) <==> x == y
  {
    hide Bits;
    BitsWithout(x, y);
    BitsWithout(y, x);
    NoBits(x & !y);
    NoBits(y & !x);
    EqualIfCovering(x, y);
  }

  lemma EqualIfCovering(x: bv32, y: bv32)
    ensures x & !y == 0 && y & !x == 0 ==> x == y
  {
  }
}
