// Shifts, masks and ors on unsigned integers, as the codec writes them.
module Bits {
  import opened Base
  import opened CheckedMath

  type u16 = n: nat | n < 0x1_0000
  type u32 = n: nat | n < 0x1_0000_0000
  type u64 = n: nat | n < 0x1_0000_0000_0000_0000

  // Drop the lowest bit k times.
  function Shr(v: nat, k: nat): nat {
    if k == 0 then v else Shr(v / 2, k - 1)
  }

  // Put a zero bit below the others k times.
  function Shl(v: nat, k: nat): (r: nat)
    ensures r == v * Pow2(k)
  {
    if k == 0 then v else 2 * Shl(v, k - 1)
  }

  // And and Or work bit by bit, lowest first.
  function And(a: nat, b: nat): nat {
    if a == 0 || b == 0 then 0
    else 2 * And(a / 2, b / 2) + (if a % 2 == 1 && b % 2 == 1 then 1 else 0)
  }

  function Or(a: nat, b: nat): nat
    decreases a + b
  {
    if a == 0 then b
    else if b == 0 then a
    else 2 * Or(a / 2, b / 2) + (if a % 2 == 1 || b % 2 == 1 then 1 else 0)
  }

  // static_cast<uint8_t>((v >> shift) & 0xFF)
  function ByteAt(v: nat, shift: nat): (b: byte)
    ensures b == Shr(v, shift) % 256
  {
    Powers();
    MaskIsMod(Shr(v, shift), 8);
    And(Shr(v, shift), 0xFF)
  }

  lemma Powers()
    ensures Pow2(8) == 0x100 && Pow2(16) == 0x1_0000 && Pow2(24) == 0x100_0000
    ensures Pow2(32) == 0x1_0000_0000 && Pow2(64) == 0x1_0000_0000_0000_0000
  {
    assert Pow2(4) == 16;
    Pow2Adds(4, 4);
    Pow2Adds(8, 8);
    Pow2Adds(16, 8);
    Pow2Adds(16, 16);
    Pow2Adds(32, 32);
  }

  // Masking with k ones keeps the remainder modulo 2^k.
  lemma {:induction false} MaskIsMod(v: nat, k: nat)
    ensures And(v, Pow2(k) - 1) == v % Pow2(k)
  {
    if k > 0 {
      MaskIsMod(v / 2, k - 1);
      ModHalves(v, Pow2(k - 1));
    }
  }

  lemma ModHalves(v: nat, p: nat)
    requires p > 0
    ensures v % (2 * p) == 2 * (v / 2 % p) + v % 2
  {
    var h: int, q: int, r: int := v / 2, v / 2 / p, v / 2 % p;
    assert h == q * p + r;
    assert q * (2 * p) == 2 * (q * p);
    ModUnique(v, 2 * p, q, 2 * r + v % 2);
  }

  // Or-ing a value into cleared low bits adds it.
  lemma {:induction false} OrIsSum(hi: nat, lo: nat, k: nat)
    requires hi % Pow2(k) == 0 && lo < Pow2(k)
    ensures Or(hi, lo) == hi + lo
  {
    if hi != 0 && lo != 0 {
      var p, q := Pow2(k - 1), hi / Pow2(k);
      Pow2Halves(k);
      assert hi == q * (2 * p) + 0;
      assert hi == 2 * (q * p);
      ModUnique(hi / 2, p, q, 0);
      OrIsSum(hi / 2, lo / 2, k - 1);
    }
  }

  // The same for one, two and three bytes, from either side.
  lemma OrLow8(hi: nat, lo: nat)
    requires hi % 0x100 == 0 && lo < 0x100
    ensures Or(hi, lo) == Or(lo, hi) == hi + lo
  {
    Powers();
    OrIsSum(hi, lo, 8);
    OrCommutes(hi, lo);
  }

  lemma OrLow16(hi: nat, lo: nat)
    requires hi % 0x1_0000 == 0 && lo < 0x1_0000
    ensures Or(hi, lo) == Or(lo, hi) == hi + lo
  {
    Powers();
    OrIsSum(hi, lo, 16);
    OrCommutes(hi, lo);
  }

  lemma OrLow24(hi: nat, lo: nat)
    requires hi % 0x100_0000 == 0 && lo < 0x100_0000
    ensures Or(hi, lo) == Or(lo, hi) == hi + lo
  {
    Powers();
    OrIsSum(hi, lo, 24);
    OrCommutes(hi, lo);
  }

  lemma {:induction false} OrCommutes(a: nat, b: nat)
    ensures Or(a, b) == Or(b, a)
    decreases a + b
  {
    if a != 0 && b != 0 {
      OrCommutes(a / 2, b / 2);
    }
  }

  // The shifts of whole bytes, as multiplications.
  lemma ShlBytes(b: byte)
    ensures Shl(b, 8) == 0x100 * b && Shl(b, 16) == 0x1_0000 * b && Shl(b, 24) == 0x100_0000 * b
  {
    Powers();
  }

  // Shifting right by whole bytes drops them one at a time.
  lemma {:induction false} ShrAdds(v: nat, a: nat, b: nat)
    ensures Shr(v, a + b) == Shr(Shr(v, a), b)
  {
    if a > 0 {
      ShrAdds(v / 2, a - 1, b);
    }
  }

  lemma ShrFour(v: nat)
    ensures Shr(v, 4) == v / 16
  {
    assert Shr(v / 8, 1) == v / 16;
    assert Shr(v / 4, 2) == v / 16;
    assert Shr(v / 2, 3) == v / 16;
  }

  lemma ShrByte(v: nat, k: nat)
    ensures Shr(v, 8 + k) == Shr(v / 256, k)
  {
    ShrFour(v);
    ShrFour(v / 16);
    ShrAdds(v, 4, 4);
    ShrAdds(v, 8, k);
  }
}
