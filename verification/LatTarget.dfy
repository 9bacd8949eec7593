/**
  The search for the deepest queue that meets a latency target, after `io_u.c`: double the depth until a cycle fails,
  then bisect. Depths are 32-bit unsigned.
 */
module LatTarget {
  import opened Bits

  /** `latency_qd`, `latency_qd_low`, `latency_qd_high`, `latency_end_run` and `done`. */
  datatype Search = Search(qd: U32, low: U32, high: U32, endRun: bool, done: bool)

  function Half(a: U32, b: U32): U32 {
    Wrap(a + b) / 2
  }

  /** Without wrap-around, the midpoint lies where it should. */
  lemma HalfBetween(a: U32, b: U32)
    requires a <= b < 0x8000_0000
    ensures Half(a, b) == Half(b, a) == (a + b) / 2 && a <= Half(a, b) <= b
    ensures a < b ==> Half(a, b) < b
    ensures a + 2 <= b ==> a < Half(a, b)
  {
  }

  lemma DoubleExact(a: U32)
    requires a < 0x8000_0000
    ensures Wrap(2 * a) == 2 * a
  {
  }

  function Init(iodepth: U32): Search {
    Search(1, 1, iodepth, false, false)
  }

  /** A cycle met the target. */
  function Succeed(s: Search, iodepth: U32): Search {
    var raised: U32 := if s.high != iodepth then Half(s.qd, s.high) else Wrap(2 * s.qd);
    var qd := if raised > iodepth then iodepth else raised;
    if qd != s.qd then s.(low := s.qd, qd := qd)
    else if s.endRun then s.(low := s.qd, done := true)
    else s.(low := s.qd, endRun := true)
  }

  /** A cycle missed the target. */
  function Fail(s: Search): Search {
    if s.qd == 1 then s
    else
      var low: U32 := if s.qd == s.low then Wrap(s.low + 0xFFFF_FFFF) else s.low;
      s.(high := s.qd, low := low, qd := Half(s.qd, low))
  }

  /** The controller as the job keeps it. */
  class Controller {
    const iodepth: U32
    var latencyQd: U32
    var latencyQdLow: U32
    var latencyQdHigh: U32
    var latencyEndRun: bool
    var done: bool

    ghost function State(): Search
      reads this
    {
      Search(latencyQd, latencyQdLow, latencyQdHigh, latencyEndRun, done)
    }

    /** `lat_target_init`. */
    constructor (iodepth: U32)
      ensures this.iodepth == iodepth && State() == Init(iodepth)
    {
      this.iodepth := iodepth;
      latencyEndRun, done := false, false;
      latencyQd, latencyQdHigh, latencyQdLow := 1, iodepth, 1;
    }

    /** `lat_target_success`. */
    method Success()
      modifies this
      ensures State() == Succeed(old(State()), iodepth)
    {
      var qd := latencyQd;
      latencyQdLow := latencyQd;
      if latencyQdHigh != iodepth {
        latencyQd := Wrap(latencyQd + latencyQdHigh) / 2;
      } else {
        latencyQd := Wrap(latencyQd * 2);
      }
      if latencyQd > iodepth {
        latencyQd := iodepth;
      }
      if latencyQd == qd {
        if latencyEndRun {
          done := true;
        } else {
          latencyEndRun := true;
        }
      }
    }

    /** `__lat_target_failed`. */
    method Failed() returns (giveUp: bool)
      modifies this
      ensures State() == Fail(old(State())) && giveUp == (old(latencyQd) == 1)
    {
      if latencyQd == 1 {
        return true;
      }
      latencyQdHigh := latencyQd;
      if latencyQd == latencyQdLow {
        latencyQdLow := Wrap(latencyQdLow + 0xFFFF_FFFF);
      }
      latencyQd := Wrap(latencyQd + latencyQdLow) / 2;
      return false;
    }
  }

  // ----- Every run

  /** The state after a series of cycles, each of which met the target or missed it. */
  function After(iodepth: U32, cycles: seq<bool>): Search {
    if cycles == [] then Init(iodepth)
    else
      var s := After(iodepth, cycles[..|cycles| - 1]);
      if cycles[|cycles| - 1] then Succeed(s, iodepth) else Fail(s)
  }

  predicate InBounds(s: Search, iodepth: U32) {
    1 <= s.low <= s.qd <= s.high <= iodepth
  }

  lemma {:induction false} StaysInBounds(iodepth: U32, cycles: seq<bool>)
    requires 1 <= iodepth < 0x8000_0000
    ensures InBounds(After(iodepth, cycles), iodepth)
  {
    if cycles != [] {
      StaysInBounds(iodepth, cycles[..|cycles| - 1]);
      StepInBounds(After(iodepth, cycles[..|cycles| - 1]), iodepth);
    }
  }

  lemma StepInBounds(s: Search, iodepth: U32)
    requires InBounds(s, iodepth) && iodepth < 0x8000_0000
    ensures InBounds(Succeed(s, iodepth), iodepth) && InBounds(Fail(s), iodepth)
  {
    Midpoints(s, iodepth);
  }

  /** What the arithmetic of a step comes to while the depth fits. */
  lemma Midpoints(s: Search, iodepth: U32)
    requires InBounds(s, iodepth) && iodepth < 0x8000_0000
    ensures s.qd <= Half(s.qd, s.high) <= s.high && (s.qd < s.high ==> Half(s.qd, s.high) < s.high)
    ensures s.qd + 2 <= s.high ==> s.qd < Half(s.qd, s.high)
    ensures Wrap(2 * s.qd) == 2 * s.qd
    ensures Wrap(s.low + 0xFFFF_FFFF) == s.low - 1
    ensures forall l: U32 :: l < s.qd ==> l <= Half(s.qd, l) < s.qd && (l + 2 <= s.qd ==> l < Half(s.qd, l))
  {
    HalfBetween(s.qd, s.high);
    DoubleExact(s.qd);
    forall l: U32 | l < s.qd ensures l <= Half(s.qd, l) < s.qd && (l + 2 <= s.qd ==> l < Half(s.qd, l)) {
      HalfBetween(l, s.qd);
    }
  }

  lemma {:induction false} Doubling(iodepth: U32, k: nat)
    requires iodepth >= 0x8000_0000 && k <= 31
    ensures var s := After(iodepth, seq(k, _ => true)); s.qd == Pow2(k) <= 0x8000_0000 && s.high == iodepth
  {
    assert Pow2(31) == 0x8000_0000 by { Pow2At32(); }
    if k < 31 { Pow2Monotone(k, 31); }
    if k > 0 {
      assert seq(k, _ => true)[..k - 1] == seq(k - 1, _ => true);
      Doubling(iodepth, k - 1);
      assert Pow2(k - 1) < 0x8000_0000;
      DoubleExact(Pow2(k - 1));
    }
  }

  /** The bounds hold in every reachable state exactly for the depths that can be doubled in 32 bits. */
  lemma BoundsIff(iodepth: U32)
    ensures (forall cycles :: InBounds(After(iodepth, cycles), iodepth)) <==> 1 <= iodepth < 0x8000_0000
  {
    if 1 <= iodepth < 0x8000_0000 {
      forall cycles { StaysInBounds(iodepth, cycles); }
    } else if iodepth == 0 {
      assert !InBounds(After(iodepth, []), iodepth);
    } else {
      var up := seq(32, _ => true);
      Doubling(iodepth, 31);
      assert Pow2(31) == 0x8000_0000 by { Pow2At32(); }
      assert up[..31] == seq(31, _ => true);
      assert !InBounds(After(iodepth, up), iodepth);
    }
  }

  // ----- Against a fixed threshold

  /** One cycle, when exactly the depths up to t meet the target. */
  function Step(s: Search, iodepth: U32, t: nat): Search {
    if s.qd <= t then Succeed(s, iodepth) else Fail(s)
  }

  /** At most n cycles, stopping when the search is done. */
  function Iterate(s: Search, iodepth: U32, t: nat, n: nat): Search
    decreases n
  {
    if n == 0 || s.done then s else Iterate(Step(s, iodepth, t), iodepth, t, n - 1)
  }

  predicate Searching(s: Search, iodepth: U32, t: nat) {
    && InBounds(s, iodepth)
    && s.low <= t && (s.high == iodepth || (s.high > t && s.qd < s.high))
    && (s.endRun ==> s.qd == (if t < iodepth then t else iodepth) && (s.high == s.qd || s.high == s.qd + 1))
    && (s.done ==> s.endRun)
  }

  /** How far a search is from its end. */
  function Distance(s: Search): int {
    if s.done then 0
    else if s.endRun then 1
    else 2 + 3 * (s.high - s.low) + (if s.qd == s.low then 2 else if s.qd == s.high then 1 else 0)
  }

  lemma StepCloser(s: Search, iodepth: U32, t: nat)
    requires Searching(s, iodepth, t) && !s.done && t != iodepth - 1 && iodepth < 0x8000_0000
    ensures Searching(Step(s, iodepth, t), iodepth, t)
    ensures 0 <= Distance(Step(s, iodepth, t)) < Distance(s)
  {
    Midpoints(s, iodepth);
  }

  lemma {:induction false} SearchEnds(s: Search, iodepth: U32, t: nat, n: nat)
    requires Searching(s, iodepth, t) && t != iodepth - 1 && iodepth < 0x8000_0000 && n >= Distance(s)
    ensures var end := Iterate(s, iodepth, t, n); end.done && Searching(end, iodepth, t)
    decreases n
  {
    if !s.done {
      StepCloser(s, iodepth, t);
      SearchEnds(Step(s, iodepth, t), iodepth, t, n - 1);
    }
  }

  lemma {:induction false} SearchCycles(s: Search, iodepth: U32, n: nat)
    requires 1 < iodepth < 0x8000_0000 && InBounds(s, iodepth)
    requires s.high == iodepth && s.low < iodepth && !s.endRun && !s.done
    ensures !Iterate(s, iodepth, iodepth - 1, n).done
    decreases n
  {
    if n > 0 {
      Midpoints(s, iodepth);
      SearchCycles(Step(s, iodepth, iodepth - 1), iodepth, n - 1);
    }
  }

  /**
    A fixed threshold that the first depth meets is found, unless it is one below the configured depth: then the search
    goes round for ever.
   */
  lemma FindsThreshold(iodepth: U32, t: nat)
    requires 1 <= iodepth < 0x8000_0000 && t >= 1
    ensures (exists n: nat :: Iterate(Init(iodepth), iodepth, t, n).done) <==> t != iodepth - 1
    ensures forall n: nat :: Iterate(Init(iodepth), iodepth, t, n).done ==>
      Iterate(Init(iodepth), iodepth, t, n).qd == if t < iodepth then t else iodepth
  {
    var s := Init(iodepth);
    if t == iodepth - 1 {
      forall n: nat ensures !Iterate(s, iodepth, t, n).done { SearchCycles(s, iodepth, n); }
    } else {
      var bound: nat := Distance(s);
      SearchEnds(s, iodepth, t, bound);
      forall n: nat | Iterate(s, iodepth, t, n).done
        ensures Iterate(s, iodepth, t, n).qd == if t < iodepth then t else iodepth
      {
        KeepsSearching(s, iodepth, t, n);
      }
    }
  }

  lemma {:induction false} KeepsSearching(s: Search, iodepth: U32, t: nat, n: nat)
    requires Searching(s, iodepth, t) && t != iodepth - 1 && iodepth < 0x8000_0000
    ensures Searching(Iterate(s, iodepth, t, n), iodepth, t)
    decreases n
  {
    if n > 0 && !s.done {
      StepCloser(s, iodepth, t);
      KeepsSearching(Step(s, iodepth, t), iodepth, t, n - 1);
    }
  }
}
