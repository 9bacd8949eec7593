/**
  I/O units, the files they refer to, and the two containers a job keeps idle units in: the stack of free units and
  the ring of requeued ones. After `io_u_queue.h`, `io_u_queue.c` and the fields of `struct io_u` and
  `struct fio_file` that the unit life cycle uses.
 */
module IoUQueue {
  import opened Bits

  /** `struct fio_file`: the reference count and the flags open, closing and done. */
  class File {
    var references: int
    var open: bool
    var closing: bool
    var done: bool
    ghost var opens: nat   // successful opens so far
    ghost var closes: nat  // real closes so far

    constructor ()
      ensures references == 0 && !open && !closing && !done && opens == 0 && closes == 0
    {
      references, open, closing, done := 0, false, false, false;
      opens, closes := 0, 0;
    }
  }

  datatype Ddir = Read | Write | Trim | Sync

  /**
    `struct io_u`: the flags FREE, IN_CUR_DEPTH and FLIGHT, the direction of its I/O, and the file the unit holds a
    reference to.
   */
  class IoU {
    var ddir: Ddir
    var free: bool
    var inCurDepth: bool
    var flight: bool
    var file: File?

    constructor ()
      ensures free && !inCurDepth && !flight && file == null
    {
      free, inCurDepth, flight, file := true, false, false, null;
    }
  }

  /** The free stack. */
  class Stack {
    const ious: array<IoU?>
    var nr: nat
    ghost var Contents: seq<IoU>

    ghost predicate Valid()
      reads this, ious
    {
      && nr == |Contents| <= ious.Length
      && forall i :: 0 <= i < nr ==> ious[i] == Contents[i]
    }

    constructor (capacity: nat)
      ensures Valid() && fresh(ious) && ious.Length == capacity && Contents == []
    {
      ious := new IoU?[capacity](_ => null);
      nr := 0;
      Contents := [];
    }

    predicate Empty()
      reads this
    {
      nr == 0
    }

    /** The source does not check the bound; the caller must know there is room. */
    method Push(u: IoU)
      requires Valid() && |Contents| < ious.Length
      modifies this`nr, this`Contents, ious
      ensures Valid() && Contents == old(Contents) + [u]
    {
      ious[nr] := u;
      nr := nr + 1;
      Contents := Contents + [u];
    }

    method Pop() returns (u: IoU?)
      requires Valid()
      modifies this`nr, this`Contents
      ensures Valid()
      ensures u == null <==> old(Contents) == []
      ensures u == null ==> Contents == []
      ensures u != null ==> old(Contents) == Contents + [u]
    {
      if nr != 0 {
        nr := nr - 1;
        u := ious[nr];
        Contents := Contents[..nr];
      } else {
        u := null;
      }
    }
  }

  /** The ring size `io_u_rinit` computes, with every step in 32 bits. */
  method RingSize(nr: U32) returns (max: U32)
    // the least power of two above nr, for every count a ring can be sized for ...
    ensures nr < 0x8000_0000 ==> IsPow2(max) && nr + 1 <= max < 2 * (nr + 1)
    // ... and no ring at all beyond that
    ensures nr >= 0x8000_0000 ==> max == 0
  {
    max := (nr + 1) % 0x1_0000_0000;
    var rounding := NeedsRounding(max);
    if rounding {
      max := max - 1;
      max := Smear(max);
      max := (max + 1) % 0x1_0000_0000;
    }
  }

  /** The test `max & (max - 1)` in 32 bits, zero included. */
  method NeedsRounding(m: U32) returns (b: bool)
    ensures b <==> m != 0 && !IsPow2(m)
    ensures b ==> m > 1
    ensures IsPow2(m) ==> m <= 0x8000_0000
  {
    assert 1 == Pow2(0);
    MaskZero((m - 1) % 0x1_0000_0000);
    b := And(m, (m - 1) % 0x1_0000_0000) != 0;
    if m != 0 {
      Pow2Test(m);
    }
    if IsPow2(m) { NoPow2Between(m); }
  }

  /** Copies the top bit of a word to every position below it. */
  method Smear(x: U32) returns (y: U32)
    requires x > 0
    ensures IsPow2(y + 1) && x < y + 1 <= 2 * x
    ensures y + 1 <= 0x8000_0000 || y + 1 == 0x1_0000_0000
  {
    SmearedByOne(x);
    y := SmearOnce(x, x, 1);
    y := SmearOnce(x, y, 2);
    y := SmearOnce(x, y, 4);
    y := SmearOnce(x, y, 8);
    y := SmearOnce(x, y, 16);
    SmearedIsOnes(x, y);
    NoPow2Between(y + 1);
  }

  lemma SmearedByOne(x: nat)
    ensures Smeared(x, x, 1)
  {
    forall j: nat ensures Bit(x, j) <==> BitWithin(x, j, 1) {
      assert Bit(x, j) ==> j <= j < j + 1;
    }
  }

  /** `max |= max >> k`. */
  method SmearOnce(ghost x: nat, y: U32, k: nat) returns (z: U32)
    requires k > 0 && Smeared(x, y, k)
    ensures Smeared(x, z, 2 * k)
  {
    Pow2At32();
    BitwiseRange(OR, y, Shr(y, k), 32);
    SmearStep(x, y, k);
    z := Or(y, Shr(y, k));
  }

  /** A power of two above 2^31 is at least 2^32. */
  lemma NoPow2Between(m: nat)
    requires IsPow2(m)
    ensures m <= 0x8000_0000 || m >= 0x1_0000_0000
  {
    Pow2At32();
    var k: nat :| m == Pow2(k);
    assert Pow2(31) == 0x8000_0000;
    if k < 31 { Pow2Monotone(k, 31); }
    if k > 32 { Pow2Monotone(32, k); }
  }

  /** The requeue ring. */
  class Ring {
    var head: U32
    var tail: U32
    const max: U32
    const ring: array<IoU?>
    ghost var Contents: seq<IoU>

    /** Slot number i, counted round the ring. */
    ghost function Slot(i: nat): nat
      reads this
    {
      if i < max then i else i - max
    }

    ghost predicate Valid()
      reads this, ring
    {
      && IsPow2(max) && ring.Length == max
      && 0 <= tail < max && head == Slot(tail + |Contents|)
      && |Contents| < max
      && forall i {:trigger Contents[i]} :: 0 <= i < |Contents| ==> ring[Slot(tail + i)] == Contents[i]
    }

    constructor (nr: U32)
      ensures fresh(ring)
      ensures nr < 0x8000_0000 ==> Valid() && Contents == [] && nr < max
    {
      var m := RingSize(nr);
      max := m;
      ring := new IoU?[m](_ => null);
      head, tail := 0, 0;
      Contents := [];
    }

    predicate Empty()
      reads this
    {
      head == tail
    }

    /**
      The full test compares `head + 1`, without the mask, to `tail`. With a slot to spare it cannot fire, so the
      source's `assert(0)` is out of reach.
     */
    method Push(u: IoU)
      requires Valid() && |Contents| + 1 < max
      modifies this`head, this`Contents, ring
      ensures Valid() && Contents == old(Contents) + [u]
    {
      if head + 1 != tail {
        ring[head] := u;
        MaskedStep(head, max);
        head := And(head + 1, max - 1);
        Contents := Contents + [u];
      } else {
        assert false;
      }
    }

    method Pop() returns (u: IoU?)
      requires Valid()
      modifies this`tail, this`Contents
      ensures Valid()
      ensures u == null <==> old(Contents) == []
      ensures u == null ==> Contents == []
      ensures u != null ==> old(Contents) == [u] + Contents
    {
      if head != tail {
        u := ring[tail];
        assert u == Contents[0];
        MaskedStep(tail, max);
        tail := And(tail + 1, max - 1);
        Contents := Contents[1..];
      } else {
        u := null;
      }
    }

    /** Exactly when the unmasked test reports a full ring: never while the tail is at slot 0. */
    lemma FullTest()
      requires Valid()
      ensures head + 1 == tail <==> |Contents| == max - 1 && tail != 0
    {
    }

    /** So a ring that is full with its tail at slot 0 would take one more unit and then look empty. */
    lemma FullTestMissesWrap()
      requires Valid() && |Contents| == max - 1 && tail == 0
      ensures head + 1 != tail && And(head + 1, max - 1) == tail
    {
      MaskedStep(head, max);
    }
  }
}
