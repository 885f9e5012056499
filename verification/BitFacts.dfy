/** Facts about 32-bit words, each small enough for the solver to settle by bits. */
module BitFacts {

  /** All 32 bits in opposite order. */
  function Reverse(x: bv32): bv32 {
    var a := ((x >> 1) & 0x5555_5555) | ((x & 0x5555_5555) << 1);
    var b := ((a >> 2) & 0x3333_3333) | ((a & 0x3333_3333) << 2);
    var c := ((b >> 4) & 0x0F0F_0F0F) | ((b & 0x0F0F_0F0F) << 4);
    var d := ((c >> 8) & 0x00FF_00FF) | ((c & 0x00FF_00FF) << 8);
    (d >> 16) | (d << 16)
  }

  lemma ReverseXor(x: bv32, y: bv32)
    ensures Reverse(x ^ y) == Reverse(x) ^ Reverse(y)
  {
  }

  lemma ReverseDouble(x: bv32)
    ensures Reverse(x << 1) == Reverse(x) >> 1
  {
  }

  lemma ReverseTop(x: bv32)
    ensures x & 0x8000_0000 != 0 <==> Reverse(x) & 1 != 0
    ensures x & 0x8000 != 0 <==> (Reverse(x) >> 16) & 1 != 0
  {
  }

  lemma XorDown24(a: bv32, b: bv32)
    ensures (a ^ b) >> 24 == (a >> 24) ^ (b >> 24)
  {
  }

  lemma XorDown16(a: bv32, b: bv32)
    ensures (a ^ b) >> 16 == (a >> 16) ^ (b >> 16)
  {
  }

  lemma HalfDown(a: bv32)
    ensures (a >> 1) >> 24 == (a >> 24) >> 1
    ensures (a >> 1) >> 16 == (a >> 16) >> 1
  {
  }

  lemma HalfXor(x: bv32, y: bv32)
    ensures (x ^ y) >> 1 == (x >> 1) ^ (y >> 1)
  {
  }

  lemma OddXor(x: bv32, y: bv32)
    ensures (x ^ y) & 1 != 0 <==> (x & 1 != 0) != (y & 1 != 0)
  {
  }

  lemma XorMoves(a: bv32, b: bv32, p: bv32)
    ensures (a ^ p) ^ b == (a ^ b) ^ p
    ensures (a ^ b) ^ p == a ^ (b ^ p)
  {
  }

  lemma XorCancels(a: bv32, b: bv32, p: bv32)
    ensures (a ^ p) ^ (b ^ p) == a ^ b
  {
  }

  lemma Doubled(y: bv32)
    requires y < 0x8000_0000
    ensures (y << 1) & 1 == 0 && (y << 1) >> 1 == y
  {
  }

  lemma DoubleMore(y: bv32)
    ensures y < 0x100_0000 ==> y << 1 < 0x200_0000
    ensures y < 0x200_0000 ==> y << 1 < 0x400_0000
    ensures y < 0x400_0000 ==> y << 1 < 0x800_0000
    ensures y < 0x800_0000 ==> y << 1 < 0x1000_0000
    ensures y < 0x1000_0000 ==> y << 1 < 0x2000_0000
    ensures y < 0x2000_0000 ==> y << 1 < 0x4000_0000
    ensures y < 0x4000_0000 ==> y << 1 < 0x8000_0000
  {
  }

  lemma EightDoubles(z: bv32)
    ensures z << 8 == (((((((z << 1) << 1) << 1) << 1) << 1) << 1) << 1) << 1
  {
  }

  lemma LowAndHigh(x: bv32)
    ensures x == (x & 0xFF) ^ ((x >> 8) << 8)
    ensures x >> 8 < 0x100_0000
  {
  }

  lemma ByteXor(c: bv32, d: bv8)
    ensures ((c ^ (d as bv32)) & 0xFF) as bv8 as bv32 == (c ^ (d as bv32)) & 0xFF
    ensures (c ^ (d as bv32)) >> 8 == c >> 8
  {
  }

  lemma ByteTwice32(d: bv8)
    ensures Reverse((Reverse(d as bv32) >> 24) << 24) == d as bv32
  {
  }

  lemma ByteTwice16(d: bv8)
    ensures Reverse((Reverse(d as bv32) >> 24) << 8) >> 16 == d as bv32
  {
  }

  lemma ReverseTwice(x: bv32)
    ensures Reverse(Reverse(x)) == x
    ensures Reverse(Reverse(x) >> 16) >> 16 == x & 0xFFFF
  {
  }

  lemma HalfWords(x: bv32)
    ensures x == (x & 0xFFFF) ^ ((x >> 16) << 16)
    ensures x ^ 0 == x
  {
  }

  lemma ReverseHigh(y: bv32)
    ensures Reverse(y << 16) >> 16 == 0
  {
  }

  lemma MaskAll(x: bv32)
    ensures x & 0xFFFF_FFFF == x
    ensures (x >> 16) & 0xFFFF == x >> 16
  {
  }
}
