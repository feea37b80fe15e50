/** Fixed-width unsigned integers as ranges of `int`, and the bitwise operators
    the sources use on them, written out as arithmetic. */
module Bits {

  type byte = x: int | 0 <= x < 0x100
  type uint16 = x: int | 0 <= x < 0x1_0000
  type uint32 = x: int | 0 <= x < 0x1_0000_0000
  type uint64 = x: int | 0 <= x < 0x1_0000_0000_0000_0000

  const TWO32: nat := 0x1_0000_0000
  const TWO64: nat := 0x1_0000_0000_0000_0000

  function Min(a: int, b: int): int {
    if a < b then a else b
  }

  /** The buffer with `bytes` written at `offset`. */
  function Overwritten<T>(buffer: seq<T>, offset: nat, bytes: seq<T>): (r: seq<T>)
    requires offset + |bytes| <= |buffer|
    ensures |r| == |buffer|
  {
    buffer[..offset] + bytes + buffer[offset + |bytes|..]
  }

  lemma OverwrittenAt<T>(buffer: seq<T>, offset: nat, bytes: seq<T>, k: nat)
    requires offset + |bytes| <= |buffer| && k < |buffer|
    ensures Overwritten(buffer, offset, bytes)[k]
         == if offset <= k < offset + |bytes| then bytes[k - offset] else buffer[k]
  {}

  /** Milliseconds between two readings of a free-running 32-bit clock. */
  function Elapsed(now: uint32, then_: uint32): uint32 {
    (now - then_) % TWO32
  }

  lemma ModuloShift(x: int, k: int)
    ensures (x + k * TWO32) % TWO32 == x % TWO32
  {}

  /** The clock shows what has passed modulo 2^32. */
  lemma ElapsedModulo(before: nat, now: nat)
    requires before <= now
    ensures Elapsed(now % TWO32, before % TWO32) == (now - before) % TWO32
  {
    var turns := now / TWO32 - before / TWO32;
    assert now - before == (now % TWO32 - before % TWO32) + turns * TWO32;
    ModuloShift(now % TWO32 - before % TWO32, turns);
  }

  lemma ElapsedSince(before: nat, now: nat)
    requires before <= now < before + TWO32
    ensures Elapsed(now % TWO32, before % TWO32) == now - before
  {
    ElapsedModulo(before, now);
  }

  lemma SmallModulo(n: nat)
    requires n < TWO32
    ensures n % TWO32 == n
  {}

  /** One more on a 32-bit counter. */
  function Increment(n: uint32): uint32 {
    (n + 1) % TWO32
  }

  lemma IncrementModulo(n: nat)
    ensures Increment(n % TWO32) == (n + 1) % TWO32
  {}

  function Pow2(k: nat): (r: nat)
    ensures r > 0
  {
    if k == 0 then 1 else 2 * Pow2(k - 1)
  }

  lemma Pow2Values()
    ensures Pow2(8) == 0x100 && Pow2(26) == 0x400_0000 && Pow2(32) == TWO32
  {
    assert Pow2(16) == 0x1_0000 by { assert Pow2(8) == 0x100; }
    assert Pow2(24) == 0x100_0000;
  }

  /** Bitwise or. */
  function Or(x: nat, y: nat): nat {
    if x == 0 then y
    else if y == 0 then x
    else 2 * Or(x / 2, y / 2) + (if x % 2 == 1 || y % 2 == 1 then 1 else 0)
  }

  /** Bitwise and. */
  function And(x: nat, y: nat): nat {
    if x == 0 || y == 0 then 0
    else 2 * And(x / 2, y / 2) + (if x % 2 == 1 && y % 2 == 1 then 1 else 0)
  }

  lemma {:induction false} OrBound(x: nat, y: nat, k: nat)
    requires x < Pow2(k) && y < Pow2(k)
    ensures Or(x, y) < Pow2(k)
  {
    if k > 0 && x > 0 && y > 0 {
      OrBound(x / 2, y / 2, k - 1);
    }
  }

  lemma OrDouble(u: nat, v: nat, bit: nat)
    requires bit < 2
    ensures Or(2 * u, 2 * v + bit) == 2 * Or(u, v) + bit
  {}

  lemma MulDouble(x: nat, p: nat)
    ensures x * (2 * p) == 2 * (x * p) >= 0
  {}

  /** Or-ing a number whose low `k` bits are clear leaves the low `k` bits of the other alone. */
  lemma {:induction false} OrShifted(x: nat, a: nat, b: nat, k: nat)
    requires b < Pow2(k)
    ensures x * Pow2(k) >= 0 && a * Pow2(k) + b >= 0
    ensures Or(x * Pow2(k), a * Pow2(k) + b) == Or(x, a) * Pow2(k) + b
  {
    if k > 0 {
      var p := Pow2(k - 1);
      MulDouble(x, p);
      MulDouble(a, p);
      MulDouble(Or(x, a), p);
      OrShifted(x, a, b / 2, k - 1);
      OrDouble(x * p, a * p + b / 2, b % 2);
      assert 2 * (a * p + b / 2) + b % 2 == a * Pow2(k) + b;
    }
  }

  lemma OrAt26(x: nat, a: nat, b: nat)
    requires b < 0x400_0000
    ensures Or(x * 0x400_0000, a * 0x400_0000 + b) == Or(x, a) * 0x400_0000 + b
  {
    Pow2Values();
    OrShifted(x, a, b, 26);
  }

  /** A type code in the high nibble and a value in the low one. */
  lemma OrAt4(x: nat, b: nat)
    requires b < 0x10
    ensures Or(x * 0x10, b) == x * 0x10 + b
  {
    assert Pow2(4) == 0x10;
    OrShifted(x, 0, b, 4);
  }

  lemma OrAt8(x: nat, b: nat)
    requires b < 0x100
    ensures Or(x * 0x100, b) == x * 0x100 + b
  {
    Pow2Values();
    OrShifted(x, 0, b, 8);
  }

  lemma {:induction false} AndSelf(x: nat)
    ensures And(x, x) == x
  {
    if x > 0 { AndSelf(x / 2); }
  }

  // ---------------------------------------------------------------- bit by bit

  predicate Bit(x: nat, k: nat) {
    if k == 0 then x % 2 == 1 else Bit(x / 2, k - 1)
  }

  lemma {:induction false} NoBits(k: nat)
    ensures !Bit(0, k)
  {
    if k > 0 { NoBits(k - 1); }
  }

  lemma {:induction false} OrBits(x: nat, y: nat, k: nat)
    ensures Bit(Or(x, y), k) <==> Bit(x, k) || Bit(y, k)
  {
    NoBits(k);
    if k > 0 && x > 0 && y > 0 {
      OrBits(x / 2, y / 2, k - 1);
      assert Or(x, y) / 2 == Or(x / 2, y / 2);
    }
  }

  lemma {:induction false} AndBits(x: nat, y: nat, k: nat)
    ensures Bit(And(x, y), k) <==> Bit(x, k) && Bit(y, k)
  {
    NoBits(k);
    if k > 0 && x > 0 && y > 0 {
      AndBits(x / 2, y / 2, k - 1);
      assert And(x, y) / 2 == And(x / 2, y / 2);
    }
  }

  lemma {:induction false} SameBits(x: nat, y: nat)
    requires forall k: nat :: Bit(x, k) == Bit(y, k)
    ensures x == y
    decreases x + y
  {
    if x + y > 0 {
      assert Bit(x, 0) == Bit(y, 0);
      forall k: nat ensures Bit(x / 2, k) == Bit(y / 2, k) { assert Bit(x, k + 1) == Bit(y, k + 1); }
      SameBits(x / 2, y / 2);
    }
  }

  ghost predicate HasBitsOf(x: nat, mask: nat) {
    forall k: nat :: Bit(mask, k) ==> Bit(x, k)
  }

  /** A mask passes the numbers that have all its bits. */
  lemma AndMask(x: nat, mask: nat)
    ensures And(x, mask) == mask <==> HasBitsOf(x, mask)
  {
    if And(x, mask) == mask { PassedHasBits(x, mask); }
    if HasBitsOf(x, mask) { MaskPasses(x, mask); }
  }

  lemma PassedHasBits(x: nat, mask: nat)
    requires And(x, mask) == mask
    ensures HasBitsOf(x, mask)
  {
    forall k: nat ensures Bit(mask, k) ==> Bit(x, k) { AndBits(x, mask, k); }
  }

  lemma MaskPasses(x: nat, mask: nat)
    requires HasBitsOf(x, mask)
    ensures And(x, mask) == mask
  {
    forall k: nat ensures Bit(And(x, mask), k) == Bit(mask, k) { AndBits(x, mask, k); }
    SameBits(And(x, mask), mask);
  }
}
