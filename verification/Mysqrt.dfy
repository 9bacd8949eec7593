/**
  The integer square root of the meltdown sample, `mysqrt` of `meltdown-baohua.c`: Newton's iteration, at most a hundred
  rounds.
 */
module Mysqrt {
  import opened Bits

  /** The C type int. */
  type Int32 = x: int | -0x8000_0000 <= x < 0x8000_0000

  predicate IsRoot(s: nat, val: nat) {
    s * s <= val < (s + 1) * (s + 1)
  }

  /** One more would be a square. */
  predicate OneShort(s: nat, val: nat) {
    val + 1 == (s + 1) * (s + 1)
  }

  function Step(val: nat, r: nat): nat
    requires r > 0
  {
    (val / r + r) / 2
  }

  /** The estimate after n rounds. */
  function Newton(val: nat, n: nat): (r: nat)
    requires val >= 2
    ensures r >= 1
  {
    if n == 0 then val / 2
    else
      StepPositive(val, Newton(val, n - 1));
      Step(val, Newton(val, n - 1))
  }

  lemma StepPositive(val: nat, r: nat)
    requires val >= 2 && r >= 1
    ensures Step(val, r) >= 1
  {
    if r == 1 {
      assert val / r == val;
    }
  }

  // ----- One round

  lemma Quotient(val: nat, r: nat)
    requires r > 0
    ensures (val / r) * r <= val < (val / r + 1) * r
  {
  }

  lemma MulMono(a: nat, b: nat, c: nat, d: nat)
    requires a <= c && b <= d
    ensures a * b <= c * d
  {
    assert a * b <= c * b <= c * d;
  }

  /** Two numbers whose sum is 2s at most have a product of s squared at most. */
  lemma ProductOfSum(a: nat, b: nat, s: nat)
    requires a + b <= 2 * s
    ensures a * b <= s * s
  {
    MulMono(a, b, 2 * s - b, b);
    SquaresApart(s, s - b);
  }

  lemma SquaresApart(s: int, t: int)
    ensures (s + t) * (s - t) <= s * s
  {
    SquareNatural(t);
    assert (s + t) * (s - t) == s * s - t * t;
  }

  lemma SquareNatural(t: int)
    ensures t * t >= 0
  {
  }

  /** A round never goes below the root. */
  lemma StepNotBelow(val: nat, r: nat, s: nat)
    requires IsRoot(s, val) && r > 0
    ensures Step(val, r) >= s
  {
    var q := val / r;
    Quotient(val, r);
    if q + r < 2 * s {
      ProductOfSum(q + 1, r, s);
    }
  }

  /** Above the root a round halves the error. */
  lemma StepHalves(val: nat, r: nat, s: nat)
    requires IsRoot(s, val) && r > s
    ensures Step(val, r) - s <= (r - s) / 2
  {
    var q := val / r;
    Quotient(val, r);
    if q > s {
      MulMono(s + 1, s + 1, q, r);
    }
  }

  /** At the root a round stays, unless one more would be a square. */
  lemma StepAtRoot(val: nat, s: nat)
    requires IsRoot(s, val) && s > 0
    ensures Step(val, s) == if OneShort(s, val) then s + 1 else s
  {
    var q := val / s;
    Quotient(val, s);
    assert (s + 1) * (s + 1) == s * s + 2 * s + 1;
    if q < s {
      MulMono(q + 1, s, s, s);
    } else if q > s + 2 {
      MulMono(s + 3, s, q, s);
    } else if q == s + 2 {
      assert q * s == s * s + 2 * s;
    } else {
      MulMono(q + 1, s, s + 2, s);
      assert (s + 2) * s == s * s + 2 * s;
    }
  }

  // ----- All rounds

  lemma {:induction false} NeverBelow(val: nat, s: nat, n: nat)
    requires val >= 2 && IsRoot(s, val)
    ensures Newton(val, n) >= s >= 1
  {
    assert s >= 1;
    if n == 0 {
      if s >= 2 {
        MulMono(2, s, s, s);
      }
    } else {
      StepNotBelow(val, Newton(val, n - 1), s);
    }
  }

  /** The error e is one at most, or e times p is bounded. */
  predicate Small(e: int, p: nat, bound: nat) {
    e <= 1 || e * p <= bound
  }

  lemma HalvedOnce(e: nat, before: nat, p: nat, bound: nat)
    requires before * p <= bound && 2 * e <= before
    ensures e * (2 * p) <= bound
  {
    MulMono(2 * e, p, before, p);
  }

  /** After n rounds the error is one at most, or has been halved n times. */
  lemma {:induction false} ErrorHalved(val: nat, s: nat, n: nat)
    requires val >= 2 && IsRoot(s, val)
    ensures Small(Newton(val, n) - s, Pow2(n), val / 2)
  {
    if n > 0 {
      ErrorHalved(val, s, n - 1);
      NeverBelow(val, s, n - 1);
      NextError(val, s, Newton(val, n - 1), Pow2(n - 1));
    }
  }

  lemma NextError(val: nat, s: nat, r: nat, p: nat)
    requires val >= 2 && IsRoot(s, val) && r >= s && r > 0 && Small(r - s, p, val / 2)
    ensures Small(Step(val, r) - s, 2 * p, val / 2)
  {
    StepNotBelow(val, r, s);
    if r == s {
      StepAtRoot(val, s);
    } else {
      StepHalves(val, r, s);
      if Step(val, r) - s > 1 {
        HalvedOnce(Step(val, r) - s, r - s, p, val / 2);
      }
    }
  }

  lemma RootSmall(val: nat, s: nat)
    requires IsRoot(s, val) && val < 0x1_0000_0000
    ensures s < 0x1_0000
  {
    if s >= 0x1_0000 {
      MulMono(0x1_0000, 0x1_0000, s, s);
    }
  }

  /** The estimates fit an int. */
  lemma {:induction false} NewtonFits(val: nat, s: nat, n: nat)
    requires 2 <= val < 0x1_0000_0000 && IsRoot(s, val)
    ensures Newton(val, n) < 0x8000_0000
    decreases n
  {
    RootSmall(val, s);
    if n > 0 {
      NewtonFits(val, s, n - 1);
      NeverBelow(val, s, n - 1);
      if Newton(val, n - 1) == s {
        StepAtRoot(val, s);
      } else {
        StepHalves(val, Newton(val, n - 1), s);
      }
    }
  }

  lemma {:induction false} Pow2AtLeast(n: nat)
    requires n >= 31
    ensures Pow2(n) >= 0x8000_0000
  {
    if n == 31 {
      Pow2At32();
      assert Pow2(32) == 2 * Pow2(31);
    } else {
      Pow2AtLeast(n - 1);
    }
  }

  /** From the 31st round on the estimate is the root or one more. */
  lemma CloseFrom31(val: nat, s: nat, n: nat)
    requires 2 <= val < 0x1_0000_0000 && IsRoot(s, val) && n >= 31
    ensures s <= Newton(val, n) <= s + 1
  {
    NeverBelow(val, s, n);
    ErrorHalved(val, s, n);
    Pow2AtLeast(n);
    var e := Newton(val, n) - s;
    if e > 1 {
      MulMono(1, 0x8000_0000, e, Pow2(n));
    }
  }

  /** The root itself is reached after 32 rounds at most. */
  lemma RootReached(val: nat, s: nat)
    requires 2 <= val < 0x1_0000_0000 && IsRoot(s, val)
    ensures exists k :: 0 <= k <= 32 && Newton(val, k) == s
  {
    CloseFrom31(val, s, 31);
    if Newton(val, 31) == s + 1 {
      StepHalves(val, s + 1, s);
      NeverBelow(val, s, 32);
      assert Newton(val, 32) == s;
    }
  }

  lemma StepBackToRoot(val: nat, s: nat)
    requires val >= 2 && IsRoot(s, val)
    ensures Step(val, s + 1) == s
  {
    StepHalves(val, s + 1, s);
    StepNotBelow(val, s + 1, s);
  }

  /** What follows once the root is reached: it stays, or it alternates with one more. */
  lemma {:induction false} FromRoot(val: nat, s: nat, k: nat, n: nat)
    requires val >= 2 && IsRoot(s, val) && k <= n && Newton(val, k) == s
    ensures Newton(val, n) == if OneShort(s, val) && (n - k) % 2 == 1 then s + 1 else s
    decreases n
  {
    if n > k {
      FromRoot(val, s, k, n - 1);
      NextFromRoot(val, s, Newton(val, n - 1), (n - 1 - k) % 2 == 1);
      Parity(n - k);
    }
  }

  lemma Parity(m: nat)
    requires m > 0
    ensures m % 2 == 1 <==> (m - 1) % 2 != 1
  {
  }

  lemma NextFromRoot(val: nat, s: nat, r: nat, odd: bool)
    requires val >= 2 && IsRoot(s, val) && r > 0 && r == if OneShort(s, val) && odd then s + 1 else s
    ensures Step(val, r) == if OneShort(s, val) && !odd then s + 1 else s
  {
    StepBackToRoot(val, s);
    if r == s {
      StepAtRoot(val, s);
    }
  }

  lemma {:induction false} FixedStays(val: nat, k: nat, n: nat)
    requires val >= 2 && 0 < k <= n && Newton(val, k) == Newton(val, k - 1)
    ensures Newton(val, n) == Newton(val, k)
    decreases n
  {
    if n > k {
      FixedStays(val, k, n - 1);
      assert Newton(val, k) == Step(val, Newton(val, k - 1));
    }
  }

  lemma {:induction false} RootExists(val: nat) returns (s: nat)
    ensures IsRoot(s, val)
  {
    if val == 0 {
      s := 0;
    } else {
      s := RootExists(val - 1);
      if (s + 1) * (s + 1) <= val {
        s := s + 1;
      }
    }
  }

  /** `mysqrt`. */
  method Mysqrt(val: nat) returns (root: Int32)
    requires val < 0x1_0000_0000
    ensures val < 2 ==> root == 0
    ensures val >= 2 ==> root == Newton(val, 100)
  {
    root := val / 2;
    var prevroot: Int32, i := 0, 0;
    ghost var s := RootExists(val);
    while prevroot != root && i < 100
      invariant 0 <= i <= 100
      invariant val < 2 ==> root == prevroot == 0
      invariant val >= 2 ==> root == Newton(val, i) && prevroot == if i == 0 then 0 else Newton(val, i - 1)
      decreases 100 - i
    {
      i := i + 1;
      prevroot := root;
      NewtonFits(val, s, i);
      root := (val / root + root) / 2;
    }
    if val >= 2 && i < 100 {
      FixedStays(val, i, 100);
    }
  }

  /**
    The result is the root or one more; it is one more exactly when val is one less than a square and the root comes up
    an odd number of rounds before the last.
   */
  lemma ResultIsRoot(val: nat, s: nat)
    requires 2 <= val < 0x1_0000_0000 && IsRoot(s, val)
    ensures Newton(val, 100) == s || Newton(val, 100) == s + 1
    ensures !OneShort(s, val) ==> Newton(val, 100) == s
    ensures forall k :: 0 <= k <= 100 && Newton(val, k) == s ==>
      (Newton(val, 100) == s + 1 <==> OneShort(s, val) && k % 2 == 1)
  {
    RootReached(val, s);
    forall k | 0 <= k <= 100 && Newton(val, k) == s
      ensures Newton(val, 100) == if OneShort(s, val) && k % 2 == 1 then s + 1 else s
    {
      FromRoot(val, s, k, 100);
    }
  }

  /** The root of 24 comes out as 5. */
  lemma OneTooMany()
    ensures IsRoot(4, 24) && Newton(24, 100) == 5
  {
    assert Newton(24, 0) == 12;
    assert Newton(24, 1) == 7;
    assert Newton(24, 2) == 5;
    assert Newton(24, 3) == 4;
    ResultIsRoot(24, 4);
  }
}
