/**
  The fixed integer widths of the source, as bounds on natural numbers.

  They are kept as powers of two: the proofs only use how they multiply.
*/
module Words {
  import opened Bits

  const W32: nat := Pow2(32)
  const W64: nat := Pow2(64)
  const Q96: nat := Pow2(96)
  const W127: nat := Pow2(127)
  const W128: nat := Pow2(128)
  const W160: nat := Pow2(160)
  const W255: nat := Pow2(255)
  const W256: nat := Pow2(256)

  type U32 = x: int | 0 <= x < W32
  type U128 = x: int | 0 <= x < W128
  type U256 = x: int | 0 <= x < W256

  lemma Widths()
    ensures W32 == Pow2(32) && W64 == Pow2(64) && Q96 == Pow2(96)
    ensures W127 == Pow2(127) && W128 == Pow2(128) && W160 == Pow2(160)
    ensures W255 == Pow2(255) && W256 == Pow2(256)
  {
  }

  /** Subtraction modulo 2^256. */
  function WrappingSub(a: U256, b: U256): U256 {
    if a >= b then a - b else a - b + W256
  }

  /** A 128-bit word read as two's complement. */
  function AsI128(w: nat): int {
    if w >= W127 then w - W128 else w
  }

  lemma Pow2Of32()
    ensures W32 == 0x1_0000_0000
  {
    assert Pow2(2) == 4;
    assert Pow2(4) == 16;
    assert Pow2(6) == 64;
    assert Pow2(8) == 256;
    Pow2Step8(8);
    Pow2Step8(16);
    Pow2Step8(24);
  }

  lemma Pow2Step8(n: nat)
    ensures Pow2(n + 8) == Pow2(n) * 256
  {
    assert Pow2(n + 2) == 4 * Pow2(n);
    assert Pow2(n + 4) == 4 * Pow2(n + 2);
    assert Pow2(n + 6) == 4 * Pow2(n + 4);
    assert Pow2(n + 8) == 4 * Pow2(n + 6);
  }
}
