/**
  Unsigned machine words as natural numbers.

  A word is its value; `Bit(w, j)` looks at one bit, and the C operators `&`, `|`, `^`, `~`, `<<` and `>>` are
  defined from it. The lemmas at the end are what the rest of the project uses: what a mask selects, when a mask
  is a remainder, and what the power-of-two rounding trick computes.
 */
module Bits {

  /** `unsigned int`. */
  type U32 = x: int | 0 <= x < 0x1_0000_0000

  type U64 = x: int | 0 <= x < 0x1_0000_0000_0000_0000

  function Wrap(x: nat): U32 {
    x % 0x1_0000_0000
  }

  function Wrap64(x: int): U64 {
    x % 0x1_0000_0000_0000_0000
  }

  function Pow2(k: nat): (p: nat)
    ensures p >= 1
  {
    if k == 0 then 1 else 2 * Pow2(k - 1)
  }

  predicate Bit(w: nat, j: nat) {
    if j == 0 then w % 2 == 1 else Bit(w / 2, j - 1)
  }

  /** Applies `op` to each pair of bits. */
  function Bitwise(op: (bool, bool) -> bool, a: nat, b: nat): nat
    requires !op(false, false)
    decreases a + b
  {
    if a == 0 && b == 0 then 0
    else 2 * Bitwise(op, a / 2, b / 2) + (if op(a % 2 == 1, b % 2 == 1) then 1 else 0)
  }

  const AND: (bool, bool) -> bool := (x, y) => x && y
  const OR: (bool, bool) -> bool := (x, y) => x || y
  const XOR: (bool, bool) -> bool := (x, y) => x != y

  function And(a: nat, b: nat): nat { Bitwise(AND, a, b) }
  function Or(a: nat, b: nat): nat { Bitwise(OR, a, b) }
  function Xor(a: nat, b: nat): nat { Bitwise(XOR, a, b) }
  function Not(a: U32): U32 { 0xFFFF_FFFF - a }

  function Shr(w: nat, k: nat): (r: nat)
    ensures r <= w
  {
    if k == 0 then w else Shr(w / 2, k - 1)
  }

  /** The k low bits of a word. */
  function Low(w: nat, k: nat): (r: nat)
    ensures r < Pow2(k)
  {
    if k == 0 then 0 else 2 * Low(w / 2, k - 1) + w % 2
  }


  /** Shifting left in 32 bits: the bits that leave the word are lost. */
  function Shl(w: U32, k: nat): U32 {
    if k == 0 then w else 2 * Shl(w, k - 1) % 0x1_0000_0000
  }

  lemma Pow2At32()
    ensures Pow2(16) == 0x1_0000 && Pow2(32) == 0x1_0000_0000
  {
    assert Pow2(4) == 16;
    assert Pow2(8) == 256;
    assert Pow2(12) == 4096;
    assert Pow2(16) == 65536;
    assert Pow2(20) == 0x10_0000;
    assert Pow2(24) == 0x100_0000;
    assert Pow2(28) == 0x1000_0000;
  }

  lemma {:induction false} Pow2Monotone(i: nat, j: nat)
    requires i < j
    ensures 2 * Pow2(i) <= Pow2(j)
  {
    if i + 1 < j {
      Pow2Monotone(i, j - 1);
    }
  }

  lemma {:induction false} BitwiseAt(op: (bool, bool) -> bool, a: nat, b: nat, j: nat)
    requires !op(false, false)
    ensures Bit(Bitwise(op, a, b), j) == op(Bit(a, j), Bit(b, j))
    decreases j
  {
    if a == 0 && b == 0 {
      ZeroBits(j);
    } else if j > 0 {
      BitwiseAt(op, a / 2, b / 2, j - 1);
    }
  }

  lemma {:induction false} ZeroBits(j: nat)
    ensures !Bit(0, j)
  {
    if j > 0 { ZeroBits(j - 1); }
  }

  /** Two words with the same bits are the same word. */
  lemma {:induction false} SameBits(a: nat, b: nat)
    requires forall j: nat :: Bit(a, j) == Bit(b, j)
    ensures a == b
    decreases a + b
  {
    if a != 0 || b != 0 {
      assert Bit(a, 0) == Bit(b, 0);
      forall j: nat ensures Bit(a / 2, j) == Bit(b / 2, j) {
        assert Bit(a, j + 1) == Bit(b, j + 1);
      }
      SameBits(a / 2, b / 2);
    }
  }

  /** A word below 2^n has no bit at or above n. */
  lemma {:induction false} HighBitsClear(w: nat, n: nat, j: nat)
    requires w < Pow2(n) && n <= j
    ensures !Bit(w, j)
  {
    if n == 0 { ZeroBits(j); } else { HighBitsClear(w / 2, n - 1, j - 1); }
  }

  lemma {:induction false} BitwiseRange(op: (bool, bool) -> bool, a: nat, b: nat, n: nat)
    requires !op(false, false) && a < Pow2(n) && b < Pow2(n)
    ensures Bitwise(op, a, b) < Pow2(n)
  {
    if n > 0 { BitwiseRange(op, a / 2, b / 2, n - 1); }
  }

  lemma {:induction false} ShrBits(w: nat, k: nat, j: nat)
    ensures Bit(Shr(w, k), j) == Bit(w, j + k)
  {
    if k > 0 { ShrBits(w / 2, k - 1, j); }
  }

  lemma {:induction false} LowBits(w: nat, k: nat, j: nat)
    ensures Bit(Low(w, k), j) <==> j < k && Bit(w, j)
  {
    if k == 0 {
      ZeroBits(j);
    } else {
      Halves(Low(w / 2, k - 1), w % 2);
      if j > 0 { LowBits(w / 2, k - 1, j - 1); }
    }
  }

  lemma Halves(x: nat, b: nat)
    requires b < 2
    ensures (2 * x + b) / 2 == x && (2 * x + b) % 2 == b
  {
  }

  /** Shifting right divides by 2^k; the bits shifted out are the remainder. */
  lemma ShiftDivides(w: nat, k: nat)
    ensures w / Pow2(k) == Shr(w, k) && w % Pow2(k) == Low(w, k)
  {
    ShiftSplit(w, k);
    DivOf(Pow2(k), Shr(w, k), Low(w, k));
  }

  lemma {:induction false} ShiftSplit(w: nat, k: nat)
    ensures w == Pow2(k) * Shr(w, k) + Low(w, k)
  {
    if k > 0 {
      ShiftSplit(w / 2, k - 1);
      DoubleProduct(Pow2(k - 1), Shr(w, k));
    }
  }

  lemma DoubleProduct(p: nat, q: nat)
    ensures 2 * (p * q) == (2 * p) * q
  {
  }

  lemma DivOf(p: nat, q: nat, r: nat)
    requires r < p
    ensures (p * q + r) / p == q && (p * q + r) % p == r
  {
    var x := p * q + r;
    var q', r' := x / p, x % p;
    assert x == p * q' + r';
    assert q' + 1 <= q ==> p * (q' + 1) <= p * q;
    assert q + 1 <= q' ==> p * (q + 1) <= p * q';
  }

  lemma {:induction false} ShlBits(w: U32, k: nat, j: nat)
    requires j < 32
    ensures Bit(Shl(w, k), j) <==> k <= j && Bit(w, j - k)
  {
    if k > 0 {
      DoubleBits(Shl(w, k - 1), j);
      if j > 0 { ShlBits(w, k - 1, j - 1); }
    }
  }

  lemma DoubleBits(x: nat, j: nat)
    requires j < 32
    ensures Bit(2 * x % 0x1_0000_0000, j) <==> 0 < j && Bit(x, j - 1)
  {
    Low32(2 * x);
    LowBits(2 * x, 32, j);
  }

  lemma Low32(x: nat)
    ensures x % 0x1_0000_0000 == Low(x, 32)
  {
    Pow2At32();
    ShiftDivides(x, 32);
  }

  /** The word with the n low bits set. */
  lemma {:induction false} OnesBits(n: nat, j: nat)
    ensures Bit(Pow2(n) - 1, j) <==> j < n
  {
    if n == 0 {
      ZeroBits(j);
    } else if j > 0 {
      assert (Pow2(n) - 1) / 2 == Pow2(n - 1) - 1;
      OnesBits(n - 1, j - 1);
    }
  }

  /** A 32-bit word with every bit set. */
  lemma OnesOnly(w: U32)
    requires forall j: nat :: j < 32 ==> Bit(w, j)
    ensures w == 0xFFFF_FFFF
  {
    Pow2At32();
    forall j: nat ensures Bit(w, j) == Bit(Pow2(32) - 1, j) {
      OnesBits(32, j);
      if j >= 32 { HighBitsClear(w, 32, j); }
    }
    SameBits(w, Pow2(32) - 1);
  }

  /** Masking with 2^k - 1 is taking the remainder modulo 2^k. */
  lemma MaskIsRemainder(x: nat, k: nat)
    ensures And(x, Pow2(k) - 1) == x % Pow2(k)
  {
    MaskIsLow(x, k);
    ShiftDivides(x, k);
  }

  lemma MaskIsLow(x: nat, k: nat)
    ensures And(x, Pow2(k) - 1) == Low(x, k)
  {
    forall j: nat ensures Bit(And(x, Pow2(k) - 1), j) == Bit(Low(x, k), j) {
      BitwiseAt(AND, x, Pow2(k) - 1, j);
      OnesBits(k, j);
      LowBits(x, k, j);
    }
    SameBits(And(x, Pow2(k) - 1), Low(x, k));
  }

  lemma {:induction false} MaskZero(x: nat)
    ensures And(x, 0) == 0 && And(0, x) == 0
  {
    if x > 0 { MaskZero(x / 2); }
  }

  /** Stepping an index of a power-of-two ring under its mask. */
  lemma MaskedStep(i: nat, m: nat)
    requires IsPow2(m) && i < m
    ensures And(i + 1, m - 1) == if i + 1 < m then i + 1 else 0
  {
    var k: nat :| m == Pow2(k);
    MaskIsRemainder(i + 1, k);
    ModStep(i, m);
  }

  lemma ModStep(i: nat, m: nat)
    requires i < m
    ensures (i + 1) % m == if i + 1 < m then i + 1 else 0
  {
    DivOf(m, if i + 1 < m then 0 else 1, if i + 1 < m then i + 1 else 0);
  }

  ghost predicate IsPow2(m: nat) {
    exists k: nat :: m == Pow2(k)
  }

  /** The test `m & (m - 1)` of the source is zero exactly for powers of two. */
  lemma {:induction false} Pow2Test(m: nat)
    requires m > 0
    ensures And(m, m - 1) == 0 <==> IsPow2(m)
  {
    if m == 1 {
      MaskZero(1);
      assert 1 == Pow2(0);
    } else if m % 2 == 0 {
      Pow2Test(m / 2);
      assert (m - 1) / 2 == m / 2 - 1;
      assert And(m, m - 1) == 2 * And(m / 2, m / 2 - 1);
      if IsPow2(m / 2) {
        var k: nat :| m / 2 == Pow2(k);
        assert m == Pow2(k + 1);
      }
      if IsPow2(m) {
        var k: nat :| m == Pow2(k);
        assert m / 2 == Pow2(k - 1);
      }
    } else {
      var h := m / 2;
      assert (m - 1) / 2 == h && And(m, m - 1) == 2 * And(h, h);
      AndSelf(h);
      Pow2Parity(m);
    }
  }

  lemma Pow2Parity(m: nat)
    ensures IsPow2(m) ==> m == 1 || m % 2 == 0
  {
    if k: nat :| m == Pow2(k) { assert k == 0 || m == 2 * Pow2(k - 1); }
  }

  lemma {:induction false} AndSelf(x: nat)
    ensures And(x, x) == x
  {
    if x > 0 { AndSelf(x / 2); }
  }

  // ----- Rounding up to a power of two by smearing the top bit downwards

  ghost predicate BitWithin(x: nat, j: nat, k: nat) {
    exists i: nat :: j <= i < j + k && Bit(x, i)
  }

  /** Bit j of y says whether x has a bit set among positions j .. j+k-1. */
  ghost predicate Smeared(x: nat, y: nat, k: nat) {
    forall j: nat :: Bit(y, j) <==> BitWithin(x, j, k)
  }

  lemma SmearStep(x: nat, y: nat, k: nat)
    requires Smeared(x, y, k)
    ensures Smeared(x, Or(y, Shr(y, k)), 2 * k)
  {
    var z := Or(y, Shr(y, k));
    forall j: nat ensures Bit(z, j) <==> BitWithin(x, j, 2 * k) {
      BitwiseAt(OR, y, Shr(y, k), j);
      ShrBits(y, k, j);
      assert Bit(z, j) <==> BitWithin(x, j, k) || BitWithin(x, j + k, k);
      assert BitWithin(x, j, 2 * k) ==> BitWithin(x, j, k) || BitWithin(x, j + k, k);
    }
  }

  /** A word whose bits are exactly those at or below the top bit of x is the next power of two less one. */
  lemma SmearedIsOnes(x: nat, y: nat)
    requires 0 < x < 0x1_0000_0000 && Smeared(x, y, 32)
    ensures IsPow2(y + 1) && x < y + 1 <= 2 * x
  {
    Pow2At32();
    var t := TopBit(x, 32);
    forall j: nat ensures Bit(y, j) <==> Bit(Pow2(t + 1) - 1, j) {
      OnesBits(t + 1, j);
      assert BitWithin(x, j, 32) ==> j <= t;
      assert j <= t ==> BitWithin(x, j, 32);
    }
    SameBits(y, Pow2(t + 1) - 1);
    assert y + 1 == Pow2(t + 1);
  }

  lemma {:induction false} TopBit(x: nat, n: nat) returns (t: nat)
    requires 0 < x < Pow2(n)
    ensures t < n && Pow2(t) <= x < Pow2(t + 1)
    ensures Bit(x, t) && forall j: nat :: t < j ==> !Bit(x, j)
  {
    if x == 1 {
      t := 0;
      forall j: nat | 0 < j ensures !Bit(1, j) { ZeroBits(j - 1); }
      assert n != 0;
    } else {
      t := TopBit(x / 2, n - 1);
      t := t + 1;
      forall j: nat | t < j ensures !Bit(x, j) { assert !Bit(x / 2, j - 1); }
    }
  }
}
