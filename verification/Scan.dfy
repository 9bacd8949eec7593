/**
  Where the scan of `__smalloc_pool` (`smalloc.c`) finds room, as a function of the blocks that are taken. Blocks are
  numbered through the pool, 32 to a word of the bitmap.
 */
module Scan {
  import opened Common

  predicate Within(x: nat, p: nat, n: nat) {
    p <= x < p + n
  }

  /** Blocks p .. p+n-1. */
  ghost function Range(p: nat, n: nat): set<nat> {
    set x: nat | x < p + n && Within(x, p, n)
  }

  /** Blocks a .. a+n-1 exist and none is taken. */
  predicate Free(t: set<nat>, words: nat, a: nat, n: nat) {
    a + n <= 32 * words && forall x :: a <= x < a + n ==> x !in t
  }

  /** Bits j .. k-1 of word i are set. */
  predicate Set(t: set<nat>, i: nat, j: nat, k: nat) {
    forall x :: 32 * i + j <= x < 32 * i + k ==> x in t
  }

  predicate FullWord(t: set<nat>, i: nat) {
    Set(t, i, 0, 32)
  }

  /** The first bit of word i from bit j on that is clear, or 32. */
  function FirstClear(t: set<nat>, i: nat, j: nat): (c: nat)
    requires j <= 32
    ensures j <= c <= 32
    decreases 32 - j
  {
    if j == 32 || 32 * i + j !in t then j else FirstClear(t, i, j + 1)
  }

  lemma {:induction false} FirstClearIs(t: set<nat>, i: nat, j: nat)
    requires j <= 32
    ensures var c := FirstClear(t, i, j);
            (c < 32 ==> 32 * i + c !in t) && Set(t, i, j, c)
    decreases 32 - j
  {
    if j < 32 && 32 * i + j in t {
      FirstClearIs(t, i, j + 1);
    }
  }

  lemma {:induction false} FirstClearAt(t: set<nat>, i: nat, j: nat, c: nat)
    requires j <= c <= 32 && (c < 32 ==> 32 * i + c !in t) && Set(t, i, j, c)
    ensures FirstClear(t, i, j) == c
    decreases c - j
  {
    if j < c {
      FirstClearAt(t, i, j + 1, c);
    }
  }

  /**
    What `find_next_zero` comes to: the first clear bit in the rest of the word, or, when there is none, wherever
    `ffz` leads from there; it is then called on a word of all ones.
   */
  function Candidate(t: set<nat>, i: nat, j: nat, beyond: nat -> nat): (idx: nat)
    requires j < 32
    ensures j <= idx
  {
    var c := FirstClear(t, i, j);
    if c < 32 then c else j + beyond(32 * i + j)
  }

  /** A candidate serves if its run is free; one past the first block of the next word never does. */
  predicate Serves(t: set<nat>, words: nat, i: nat, idx: nat, n: nat) {
    idx <= 32 && Free(t, words, 32 * i + idx, n)
  }

  /** Where the scan is next, when candidate idx does not serve. */
  function Next(i: nat, idx: nat, n: nat): (nat, nat) {
    if idx + n < 32 then (i, idx + n) else (i + (idx + n) / 32, 0)
  }

  /** The scan from bit j of word i on for n blocks in a row. */
  function Find(t: set<nat>, words: nat, i: nat, j: nat, n: nat, beyond: nat -> nat): Option<nat>
    requires n > 0 && j < 32
    decreases words - i, 32 - j
  {
    if i >= words then None
    else if FullWord(t, i) then Find(t, words, i + 1, 0, n, beyond)
    else
      var idx := Candidate(t, i, j, beyond);
      if Serves(t, words, i, idx, n) then Some(32 * i + idx)
      else
        var (i', j') := Next(i, idx, n);
        Find(t, words, i', j', n, beyond)
  }

  /** What `ffz` makes of words of all ones is never more than b. */
  ghost predicate UpTo(beyond: nat -> nat, b: nat) {
    forall x :: beyond(x) <= b
  }

  /** The portable `ffz` names a bit of an unsigned long. */
  ghost predicate InLong(beyond: nat -> nat) {
    UpTo(beyond, 63)
  }

  /** The scan from word i on can come to this result, depending on what `ffz` makes of words of all ones. */
  ghost predicate CanGive(t: set<nat>, words: nat, i: nat, n: nat, result: Option<nat>)
    requires n > 0
  {
    exists beyond :: InLong(beyond) && Find(t, words, i, 0, n, beyond) == result
  }

  /** One step of the scan in a word that is not full. */
  lemma FindStep(t: set<nat>, words: nat, i: nat, j: nat, n: nat, beyond: nat -> nat)
    requires n > 0 && j < 32 && i < words && !FullWord(t, i)
    ensures var idx := Candidate(t, i, j, beyond);
            var (i', j') := Next(i, idx, n);
            Find(t, words, i, j, n, beyond) ==
              if Serves(t, words, i, idx, n) then Some(32 * i + idx) else Find(t, words, i', j', n, beyond)
  {
  }

  // ----- What the scan finds

  /** What has been found, if anything, is a free run from block x on. */
  predicate Room(t: set<nat>, words: nat, x: nat, n: nat, found: Option<nat>)
    requires n > 0
  {
    found.Some? ==> x <= found.value && found.value !in t && Free(t, words, found.value, n)
  }

  lemma {:induction false} FoundIsFree(t: set<nat>, words: nat, i: nat, j: nat, n: nat, beyond: nat -> nat)
    requires n > 0 && j < 32
    ensures Room(t, words, 32 * i + j, n, Find(t, words, i, j, n, beyond))
    decreases words - i, 32 - j
  {
    if i < words {
      if FullWord(t, i) {
        FoundIsFree(t, words, i + 1, 0, n, beyond);
      } else {
        var idx := Candidate(t, i, j, beyond);
        if !Serves(t, words, i, idx, n) {
          var (i', j') := Next(i, idx, n);
          FoundIsFree(t, words, i', j', n, beyond);
        }
      }
    }
  }

  /** By how much a step past the rest of a word overshoots the next word when `ffz` of all ones gives b. */
  function Overshoot(n: nat, b: nat): nat {
    if b <= 1 then 0 else 32 * ((31 + b + n) / 32) - 32
  }

  /** By how much the scan may be past the beginning of a free run when it next looks. */
  function Slack(n: nat, b: nat): nat
    requires n > 0
  {
    if n == 1 then 0 else if n < 32 then Max(n - 2, Overshoot(n, b)) else n - 2
  }

  /** The least length of a free run that the scan for n blocks cannot miss. */
  function Least(n: nat, b: nat): nat
    requires n > 0
  {
    n + Slack(n, b)
  }

  lemma LeastPortable(n: nat)
    requires n > 0
    ensures Least(n, 63) == if n == 1 then 1 else if n < 32 then n + 64 else 2 * n - 2
  {
  }

  /** The scan for n blocks looks at the middle of a word only when n is between 2 and 31. */
  predicate Reachable(j: nat, n: nat) {
    j == 0 || 2 <= n <= j < 32
  }

  /** The scan has not yet passed the run of blocks from a on. */
  predicate Ahead(t: set<nat>, words: nat, i: nat, j: nat, n: nat, b: nat, a: nat)
    requires n > 0
  {
    Reachable(j, n) && Free(t, words, a, Least(n, b)) && 32 * i + j <= a + Slack(n, b)
  }

  /** The scan finds room whenever such a run is still ahead; `ffz` matters only when n is between 2 and 31. */
  lemma {:induction false} LongRunFound(t: set<nat>, words: nat, i: nat, j: nat, n: nat, beyond: nat -> nat,
                                        b: nat, a: nat)
    requires n > 0 && (2 <= n <= 31 ==> UpTo(beyond, b)) && Ahead(t, words, i, j, n, b, a)
    ensures Find(t, words, i, j, n, beyond).Some?
    decreases words - i, 32 - j
  {
    InPool(t, words, i, j, n, b, a);
    if FullWord(t, i) {
      FullAhead(t, words, i, j, n, b, a);
      LongRunFound(t, words, i + 1, 0, n, beyond, b, a);
    } else if !Serves(t, words, i, Candidate(t, i, j, beyond), n) {
      NextAhead(t, words, i, j, n, beyond, b, a);
      var (i', j') := Next(i, Candidate(t, i, j, beyond), n);
      LongRunFound(t, words, i', j', n, beyond, b, a);
    }
  }

  lemma InPool(t: set<nat>, words: nat, i: nat, j: nat, n: nat, b: nat, a: nat)
    requires n > 0 && Ahead(t, words, i, j, n, b, a)
    ensures i < words
  {
  }

  /** Stepping over a full word does not lose the run, ... */
  lemma FullAhead(t: set<nat>, words: nat, i: nat, j: nat, n: nat, b: nat, a: nat)
    requires n > 0 && Ahead(t, words, i, j, n, b, a) && FullWord(t, i)
    ensures Ahead(t, words, i + 1, 0, n, b, a)
  {
    var y := if a < 32 * i + j then 32 * i + j else a;
    assert y !in t;
  }

  /** ... nor does stepping on from a candidate that fails. */
  lemma NextAhead(t: set<nat>, words: nat, i: nat, j: nat, n: nat, beyond: nat -> nat, b: nat, a: nat)
    requires n > 0 && (2 <= n <= 31 ==> UpTo(beyond, b)) && Ahead(t, words, i, j, n, b, a) && !FullWord(t, i)
    requires !Serves(t, words, i, Candidate(t, i, j, beyond), n)
    ensures var (i', j') := Next(i, Candidate(t, i, j, beyond), n); Ahead(t, words, i', j', n, b, a)
  {
    FirstClearIs(t, i, j);
    if FirstClear(t, i, j) < 32 {
      ClearFails(t, words, i, j, n, b, a, FirstClear(t, i, j));
    } else {
      RestTaken(t, words, i, j, n, b, a, beyond(32 * i + j));
    }
  }

  /** The next clear bit is before the run, and so is the block that cuts its own run off. */
  lemma ClearFails(t: set<nat>, words: nat, i: nat, j: nat, n: nat, b: nat, a: nat, c: nat)
    requires n > 0 && Ahead(t, words, i, j, n, b, a) && j <= c < 32 && 32 * i + c !in t && Set(t, i, j, c)
    requires !Free(t, words, 32 * i + c, n)
    ensures var (i', j') := Next(i, c, n); Ahead(t, words, i', j', n, b, a)
  {
    var y := if a < 32 * i + j then 32 * i + j else a;
    assert y !in t;
    assert 32 * i + c < a;
    var z :| 32 * i + c <= z < 32 * i + c + n && z in t;
    assert z < a;
  }

  /** The rest of the word is taken, so the run begins in a later word; o is what `ffz` gives. */
  lemma RestTaken(t: set<nat>, words: nat, i: nat, j: nat, n: nat, b: nat, a: nat, o: nat)
    requires n > 0 && Ahead(t, words, i, j, n, b, a) && j < 32 && Set(t, i, j, 32) && !FullWord(t, i)
    requires 2 <= n <= 31 ==> o <= b
    ensures var (i', j') := Next(i, j + o, n); Ahead(t, words, i', j', n, b, a)
  {
    var y := if a < 32 * i + j then 32 * i + j else a;
    assert y !in t;
    assert y >= 32 * i + 32 && a == y;
    assert 0 < j && 2 <= n <= 31;
    assert j + o + n <= 31 + b + n;
  }

  /** From the beginning of a word that is not full, `ffz` does not matter. */
  lemma FromWord(t: set<nat>, words: nat, i: nat, n: nat, f: nat -> nat)
    requires n > 0 && i < words && !FullWord(t, i)
    ensures var c := FirstClear(t, i, 0);
            c < 32 && Candidate(t, i, 0, f) == c && (n == 1 ==> Serves(t, words, i, c, n))
  {
    FirstClearIs(t, i, 0);
  }

  /** For other n the result does not depend on `ffz` at all. */
  lemma {:induction false} FfzIrrelevant(t: set<nat>, words: nat, i: nat, n: nat, f: nat -> nat, g: nat -> nat)
    requires n == 1 || n >= 32
    ensures Find(t, words, i, 0, n, f) == Find(t, words, i, 0, n, g)
    decreases words - i
  {
    if i < words && FullWord(t, i) {
      FfzIrrelevant(t, words, i + 1, n, f, g);
    } else if i < words {
      FromWord(t, words, i, n, f);
      FromWord(t, words, i, n, g);
      if n >= 32 {
        var (i', j') := Next(i, FirstClear(t, i, 0), n);
        FfzIrrelevant(t, words, i', n, f, g);
      }
    }
  }

  /** An empty pool serves from its first block. */
  lemma EmptyServes(t: set<nat>, words: nat, n: nat, beyond: nat -> nat)
    requires 0 < n <= 32 * words && forall x :: 0 <= x < 32 * words ==> x !in t
    ensures Find(t, words, 0, 0, n, beyond) == Some(0)
  {
    assert 0 !in t;
  }

  // ----- What the scan misses

  /** Bit c is the next clear one in its word, but the run from there is cut off at block z, still in the word. */
  lemma CutOff(t: set<nat>, words: nat, i: nat, j: nat, n: nat, beyond: nat -> nat, c: nat, z: nat)
    requires i < words && j <= c < 32 && 32 * i + c !in t && Set(t, i, j, c)
    requires 32 * i + c < z < 32 * i + c + n && z in t
    ensures var (i', j') := Next(i, c, n);
            Find(t, words, i, j, n, beyond) == Find(t, words, i', j', n, beyond)
  {
    FirstClearAt(t, i, j, c);
  }

  /** The rest of word i is taken, bit c of it is not, and `ffz` leads past the next word's first block. */
  lemma Overshoots(t: set<nat>, words: nat, i: nat, j: nat, n: nat, beyond: nat -> nat, c: nat)
    requires i < words && j < 32 && n > 0 && c < 32 && 32 * i + c !in t
    requires Set(t, i, j, 32)
    requires j + beyond(32 * i + j) > 32
    ensures var (i', j') := Next(i, j + beyond(32 * i + j), n);
            Find(t, words, i, j, n, beyond) == Find(t, words, i', j', n, beyond)
  {
    FirstClearAt(t, i, j, 32);
  }

  /** All runs of n blocks from bit j of word i on are cut off. */
  lemma NoRunAhead(t: set<nat>, words: nat, i: nat, j: nat, n: nat, beyond: nat -> nat)
    requires n > 0 && j < 32 && forall x :: 32 * i + j + n - 1 <= x < 32 * words ==> x in t
    ensures Find(t, words, i, j, n, beyond) == None
  {
    FoundIsFree(t, words, i, j, n, beyond);
    var found := Find(t, words, i, j, n, beyond);
    if found.Some? {
      CutsOff(t, words, found.value, n, found.value + n - 1);
    }
  }

  lemma CutsOff(t: set<nat>, words: nat, a: nat, n: nat, z: nat)
    requires a <= z < a + n && (z < 32 * words ==> z in t)
    ensures !Free(t, words, a, n)
  {
  }

  /** Block c is clear and c + 1 is not; then come 2n - 3 clear blocks. */
  predicate Plugged(x: nat, c: nat, n: nat) {
    x < c || x == c + 1 || x + 1 >= c + 2 * n
  }

  /** A free run of 2n - 3 blocks can be missed, whatever `ffz` does: the candidate two blocks before it fails. */
  lemma RunMissed(n: nat) returns (t: set<nat>, words: nat, a: nat)
    requires n >= 2
    ensures Free(t, words, a, 2 * n - 3)
    ensures forall beyond: nat -> nat :: Find(t, words, 0, 0, n, beyond) == None
  {
    var c := if n < 32 then 0 else (32 - n % 32) % 32;
    words, a := (c + 2 * n) / 32 + 1, c + 2;
    t := set x: nat | x < 32 * words && Plugged(x, c, n);
    forall beyond: nat -> nat ensures Find(t, words, 0, 0, n, beyond) == None {
      PluggedMissed(t, words, c, n, beyond);
    }
  }

  lemma PluggedMissed(t: set<nat>, words: nat, c: nat, n: nat, beyond: nat -> nat)
    requires n >= 2 && c < 32 && (c + n < 32 || (c + n) % 32 == 0) && 32 * words > c + 1
    requires forall x: nat :: x in t <==> x < 32 * words && Plugged(x, c, n)
    ensures Find(t, words, 0, 0, n, beyond) == None
  {
    assert c !in t && c + 1 in t;
    CutOff(t, words, 0, 0, n, beyond, c, c + 1);
    var (i, j) := Next(0, c, n);
    assert 32 * i + j == c + n;
    NoRunAhead(t, words, i, j, n, beyond);
  }

  /** Block 31 - n is clear, and the blocks from 32 to below e. */
  predicate Walled(x: nat, n: nat, e: nat) {
    (x < 32 && x + n != 31) || x >= e
  }

  /** The longest run missed when `ffz` leads from the last bit of a word past the next: it is up to b that counts. */
  lemma OvershootMisses(n: nat, b: nat) returns (t: set<nat>, words: nat)
    requires 2 <= n <= 31 && b >= 2
    ensures Free(t, words, 32, n + Overshoot(n, b) - 1)
    ensures Find(t, words, 0, 0, n, _ => b) == None
  {
    var i := (31 + b + n) / 32;
    var e := 32 * i + n - 1;
    words := i + 1;
    t := set x: nat | x < 32 * words && Walled(x, n, e);
    var beyond: nat -> nat := _ => b;
    WalledMissed(t, words, n, e, i, beyond);
  }

  lemma WalledMissed(t: set<nat>, words: nat, n: nat, e: nat, i: nat, beyond: nat -> nat)
    requires 2 <= n <= 31 && beyond(31) >= 2 && i == (31 + beyond(31) + n) / 32 && e == 32 * i + n - 1 && words == i + 1
    requires forall x: nat :: x in t <==> x < 32 * words && Walled(x, n, e)
    ensures Find(t, words, 0, 0, n, beyond) == None
  {
    assert 31 - n !in t && 32 - n in t;
    CutOff(t, words, 0, 0, n, beyond, 31 - n, 32 - n);
    LastBit(t, words, n, i, beyond);
    NoRunAhead(t, words, i, 0, n, beyond);
  }

  lemma LastBit(t: set<nat>, words: nat, n: nat, i: nat, beyond: nat -> nat)
    requires 2 <= n <= 31 && beyond(31) >= 2 && i == (31 + beyond(31) + n) / 32 && words > 0
    requires 31 - n !in t && 31 in t
    ensures Find(t, words, 0, 31, n, beyond) == Find(t, words, i, 0, n, beyond)
  {
    Overshoots(t, words, 0, 31, n, beyond, 31 - n);
  }

  lemma ShorterMissed(n: nat, b: nat) returns (t: set<nat>, words: nat, a: nat, beyond: nat -> nat)
    requires n > 0
    ensures Free(t, words, a, Least(n, b) - 1) && UpTo(beyond, b)
    ensures Find(t, words, 0, 0, n, beyond) == None
  {
    beyond := _ => 0;
    if n == 1 {
      t, words, a := {}, 0, 0;
    } else if n >= 32 || Overshoot(n, b) <= n - 2 {
      t, words, a := RunMissed(n);
    } else {
      t, words := OvershootMisses(n, b);
      a, beyond := 32, _ => b;
    }
  }

  /** A free run of len blocks from the starting word on is enough, in every pool and for every `ffz` up to b. */
  ghost predicate Certain(n: nat, b: nat, len: nat)
    requires n > 0
  {
    forall t, words, i, a, beyond ::
      Free(t, words, a, len) && 32 * i <= a && UpTo(beyond, b) ==> Find(t, words, i, 0, n, beyond).Some?
  }

  /** Exactly the runs of `Least` blocks and more are certain to be served. */
  lemma CertainIff(n: nat, b: nat, len: nat)
    requires n > 0
    ensures Certain(n, b, len) <==> len >= Least(n, b)
  {
    if len >= Least(n, b) {
      forall t, words, i, a, beyond | Free(t, words, a, len) && 32 * i <= a && UpTo(beyond, b)
        ensures Find(t, words, i, 0, n, beyond).Some?
      {
        LongRunFound(t, words, i, 0, n, beyond, b, a);
      }
    } else {
      var t, words, a, beyond := ShorterMissed(n, b);
      assert Free(t, words, a, len) && 32 * 0 <= a;
    }
  }
}
