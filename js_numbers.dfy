/**
 * The JavaScript number semantics the graph's hit test depends on: the
 * bitwise operator `^` converts both operands with ToInt32 (truncate toward
 * zero, reduce modulo 2^32, read as a signed 32-bit value) and XORs the bits.
 * XOR is defined arithmetically, one bit at a time, over 32 bits.
 */
module JsNumbers {

  function Pow2(k: nat): (p: nat)
    ensures p >= 1
  {
    if k == 0 then 1 else 2 * Pow2(k - 1)
  }

  const TwoTo32: int := 0x1_0000_0000

  lemma Pow2Of32()
    ensures Pow2(32) == TwoTo32
  {
    assert Pow2(2) == 4;
    assert Pow2(4) == 16;
    assert Pow2(6) == 64;
    assert Pow2(8) == 256;
    assert Pow2(10) == 1024;
    assert Pow2(12) == 4096;
    assert Pow2(14) == 16384;
    assert Pow2(16) == 65536;
    assert Pow2(18) == 262144;
    assert Pow2(20) == 1048576;
    assert Pow2(22) == 4194304;
    assert Pow2(24) == 16777216;
    assert Pow2(26) == 67108864;
    assert Pow2(28) == 268435456;
    assert Pow2(30) == 1073741824;
  }

  /** The XOR of the low `k` bits of `a` and `b`. */
  function XorBits(a: nat, b: nat, k: nat): nat
  {
    if k == 0 then 0 else (a % 2 + b % 2) % 2 + 2 * XorBits(a / 2, b / 2, k - 1)
  }

  lemma {:induction false} XorBitsBelow(a: nat, b: nat, k: nat)
    ensures XorBits(a, b, k) < Pow2(k)
  {
    if k > 0 {
      XorBitsBelow(a / 2, b / 2, k - 1);
    }
  }

  /**
   * The all-zero and all-one words: 0^0 = 0, 0^ones = ones^0 = ones and
   * ones^ones = 0.
   */
  lemma {:induction false} XorBitsEnds(k: nat)
    ensures XorBits(0, 0, k) == 0
    ensures XorBits(0, Pow2(k) - 1, k) == Pow2(k) - 1
    ensures XorBits(Pow2(k) - 1, 0, k) == Pow2(k) - 1
    ensures XorBits(Pow2(k) - 1, Pow2(k) - 1, k) == 0
  {
    if k > 0 {
      XorBitsEnds(k - 1);
      assert (Pow2(k) - 1) / 2 == Pow2(k - 1) - 1;
      assert (Pow2(k) - 1) % 2 == 1;
    }
  }

  /**
   * A `k`-bit word whose bits from `j` upwards are all equal: a small
   * non-negative value, or the two's-complement form of a small negative one.
   */
  predicate Narrow(a: nat, k: nat, j: nat)
  {
    a < Pow2(k) && (a < Pow2(j) || Pow2(k) - Pow2(j) <= a)
  }

  /** XOR keeps the upper bits equal when both operands have them equal. */
  lemma {:induction false} XorBitsNarrow(a: nat, b: nat, k: nat, j: nat)
    requires j <= k && Narrow(a, k, j) && Narrow(b, k, j)
    ensures Narrow(XorBits(a, b, k), k, j)
  {
    XorBitsBelow(a, b, k);
    if j == 0 {
      XorBitsEnds(k);
      assert a == 0 || a == Pow2(k) - 1;
      assert b == 0 || b == Pow2(k) - 1;
    } else {
      assert Pow2(k) == 2 * Pow2(k - 1) && Pow2(j) == 2 * Pow2(j - 1);
      XorBitsNarrow(a / 2, b / 2, k - 1, j - 1);
    }
  }

  /** Truncation toward zero, the first step of ToInt32. */
  function Trunc(r: real): (t: int)
    ensures -1.0 < r - t as real < 1.0
    ensures r >= 0.0 ==> t >= 0
    ensures r <= 0.0 ==> t <= 0
  {
    if r >= 0.0 then r.Floor else -((-r).Floor)
  }

  /** ToUint32 of a finite number. */
  function ToUint32(r: real): (u: int)
    ensures 0 <= u < TwoTo32
  {
    Trunc(r) % TwoTo32
  }

  /** A 32-bit word read as a signed value. */
  function Signed32(u: int): int
  {
    if u >= 0x8000_0000 then u - TwoTo32 else u
  }

  /** ToInt32 of a finite number. */
  function ToInt32(r: real): (v: int)
    ensures -0x8000_0000 <= v < 0x8000_0000
  {
    Signed32(ToUint32(r))
  }

  /** JavaScript `a ^ b` on two finite numbers: a signed 32-bit result. */
  function Xor(a: real, b: real): (v: int)
  {
    Signed32(XorBits(ToUint32(a), ToUint32(b), 32))
  }

  /** A word whose signed value lies in [-64, 64) is narrow above bit 6. */
  lemma SmallIsNarrow(r: real)
    requires -65.0 < r < 64.0
    ensures Narrow(ToUint32(r), 32, 6)
  {
    Pow2Of32();
    assert Pow2(6) == 64;
    var t := Trunc(r);
    assert -64 <= t < 64;
    if t < 0 {
      assert ToUint32(r) == t + TwoTo32;
    }
  }

  /** The XOR of two numbers between -64 and 64 lies in [-64, 64). */
  lemma XorOfSmall(a: real, b: real)
    requires -65.0 < a < 64.0 && -65.0 < b < 64.0
    ensures -64 <= Xor(a, b) < 64
  {
    SmallIsNarrow(a);
    SmallIsNarrow(b);
    XorBitsNarrow(ToUint32(a), ToUint32(b), 32, 6);
    Pow2Of32();
    assert Pow2(6) == 64;
  }
}
