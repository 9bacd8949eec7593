/**
  The byte fifo of `fifo.c` and `fifo.h`: a buffer whose size is a power of two, with free-running 32-bit indices for
  putting and getting.
 */
module Fifo {
  import opened Bits
  import opened Common

  type Byte = x: int | 0 <= x < 256

  /** `a - b` on `unsigned int`. */
  function Sub(a: U32, b: U32): U32 {
    (a - b) % 0x1_0000_0000
  }

  function Add(a: U32, b: U32): U32 {
    (a + b) % 0x1_0000_0000
  }

  lemma SubAdd(a: U32, b: U32, n: nat)
    requires Sub(a, b) + n < 0x1_0000_0000
    ensures Sub(Add(a, n), b) == Sub(a, b) + n
  {
    AddWraps(a, n);
    SubWraps(a, b);
    SubWraps(Add(a, n), b);
  }

  lemma SubTake(a: U32, b: U32, n: nat)
    requires n <= Sub(a, b)
    ensures Sub(a, Add(b, n)) == Sub(a, b) - n
  {
    AddWraps(b, n);
    SubWraps(a, b);
    SubWraps(a, Add(b, n));
  }

  lemma AddWraps(a: U32, b: U32)
    ensures Add(a, b) == if a + b < 0x1_0000_0000 then a + b else a + b - 0x1_0000_0000
  {
  }

  lemma SubWraps(a: U32, b: U32)
    ensures Sub(a, b) == if a >= b then a - b else a - b + 0x1_0000_0000
  {
  }

  /** Room is what is not used: `size - in + out`. */
  lemma RoomIsRest(size: U32, a: U32, b: U32)
    requires Sub(a, b) <= size
    ensures Add(Sub(size, a), b) == size - Sub(a, b)
  {
    SubWraps(a, b);
    SubWraps(size, a);
    AddWraps(Sub(size, a), b);
  }

  /** Stepping round a ring by no more than its size. */
  function Around(i: nat, size: nat): int {
    if i < size then i else i - size
  }

  lemma AroundTwice(p: nat, m: nat, n: nat, size: nat)
    requires p < size && m + n <= size
    ensures Around(Around(p + m, size) + n, size) == Around(p + m + n, size)
  {
  }

  /** Where a free-running index points: `index & (size - 1)`. */
  function Spot(i: U32, size: U32): nat
    requires size > 0
  {
    And(i, size - 1)
  }

  lemma SpotIsRemainder(i: U32, size: U32)
    requires IsPow2(size)
    ensures Spot(i, size) == i % size < size
  {
    var k: nat :| size == Pow2(k);
    MaskIsRemainder(i, k);
  }

  /** The position of a free-running index moves round the buffer even when the index wraps. */
  lemma IndexAdvances(i: U32, n: nat, size: U32)
    requires IsPow2(size) && n <= size
    ensures Spot(i, size) < size && Spot(Add(i, n), size) == Around(Spot(i, size) + n, size)
  {
    SpotIsRemainder(i, size);
    SpotIsRemainder(Add(i, n), size);
    WrapKeepsPosition(i + n, size);
    PositionAdvances(i, n, size);
  }

  /** The two indices agree with the number of bytes between them. */
  ghost predicate Spans(inIdx: U32, outIdx: U32, n: nat, size: U32)
    requires size > 0
  {
    && n == Sub(inIdx, outIdx) <= size && Spot(outIdx, size) < size
    && Spot(inIdx, size) == Around(Spot(outIdx, size) + n, size)
  }

  lemma SpanStarts(size: U32)
    requires IsPow2(size)
    ensures Spans(0, 0, 0, size)
  {
    SpotIsRemainder(0, size);
    SubWraps(0, 0);
  }

  lemma SpanGrows(inIdx: U32, outIdx: U32, m: nat, n: nat, size: U32)
    requires IsPow2(size) && Spans(inIdx, outIdx, m, size) && m + n <= size
    ensures Spans(Add(inIdx, n), outIdx, m + n, size)
  {
    IndexAdvances(inIdx, n, size);
    AroundTwice(Spot(outIdx, size), m, n, size);
    SubAdd(inIdx, outIdx, n);
  }

  lemma SpanShrinks(inIdx: U32, outIdx: U32, m: nat, n: nat, size: U32)
    requires IsPow2(size) && Spans(inIdx, outIdx, m, size) && n <= m
    ensures Spans(inIdx, Add(outIdx, n), m - n, size)
    ensures Spot(Add(outIdx, n), size) == Around(Spot(outIdx, size) + n, size)
  {
    IndexAdvances(outIdx, n, size);
    IndexAdvances(Add(outIdx, n), 0, size);
    AroundTwice(Spot(outIdx, size), n, m - n, size);
    SubTake(inIdx, outIdx, n);
  }

  lemma PositionAdvances(x: nat, n: nat, m: nat)
    requires n <= m && m > 0
    ensures (x + n) % m == Around(x % m + n, m)
  {
    var q, r := x / m, x % m;
    var carry := if r + n < m then 0 else 1;
    assert x == m * q + r;
    assert m * (q + carry) == m * q + m * carry by { Distribute(m, q, carry); }
    DivOf(m, q + carry, r + n - m * carry);
  }

  lemma Distribute(m: nat, q: nat, c: nat)
    ensures m * (q + c) == m * q + m * c
  {
  }

  lemma WrapKeepsPosition(x: nat, size: U32)
    requires IsPow2(size)
    ensures x % 0x1_0000_0000 % size == x % size
  {
    var k: nat :| size == Pow2(k);
    Pow2At32();
    assert k < 32 by { if k > 32 { Pow2Monotone(32, k); } }
    Low32(x);
    ShiftDivides(x, k);
    ShiftDivides(Low(x, 32), k);
    LowLow(x, 32, k);
  }

  lemma {:induction false} LowLow(x: nat, n: nat, k: nat)
    requires k <= n
    ensures Low(Low(x, n), k) == Low(x, k)
  {
    if k > 0 {
      Halves(Low(x / 2, n - 1), x % 2);
      LowLow(x / 2, n - 1, k - 1);
    }
  }

  /** The mask finds the right position for every index exactly when the size is a power of two. */
  lemma MaskIsPositionIff(size: U32)
    requires size > 0
    ensures (forall i: U32 :: And(i, size - 1) == i % size) <==> IsPow2(size)
  {
    if IsPow2(size) {
      var k: nat :| size == Pow2(k);
      forall i: U32 ensures And(i, size - 1) == i % size { MaskIsRemainder(i, k); }
    } else {
      Pow2Test(size);
      DivOf(size, 1, 0);
      assert And(size, size - 1) != size % size;
    }
  }

  class Fifo {
    const size: U32
    const buffer: array<Byte>
    var inIdx: U32
    var outIdx: U32
    ghost var Contents: seq<Byte>
    ghost var put: seq<Byte>   // every byte ever put
    ghost var got: seq<Byte>   // every byte ever got or discarded

    ghost predicate Valid()
      reads this, buffer
    {
      && IsPow2(size) && buffer.Length == size
      && Spans(inIdx, outIdx, |Contents|, size)
      && Holds(Spot(outIdx, size), Contents)
      && put == got + Contents
    }

    /** The bytes of s lie round the buffer from position p on. */
    ghost predicate Holds(p: nat, s: seq<Byte>)
      requires p < size == buffer.Length && |s| <= size
      reads buffer
    {
      forall k :: 0 <= k < |s| ==> buffer[Around(p + k, size)] == s[k]
    }

    /** `fifo_alloc`. */
    constructor (size: U32)
      requires IsPow2(size)
      ensures Valid() && Contents == [] && put == [] && this.size == size && fresh(buffer)
    {
      this.size := size;
      buffer := new Byte[size](_ => 0);
      inIdx, outIdx := 0, 0;
      Contents, put, got := [], [], [];
      new;
      SpanStarts(size);
    }

    /** `fifo_len`. */
    function Len(): nat
      requires Valid()
      reads this, buffer
      ensures Len() == |Contents|
    {
      Sub(inIdx, outIdx)
    }

    /** `fifo_room`. */
    function Room(): nat
      requires Valid()
      reads this, buffer
      ensures Room() == size - |Contents|
    {
      RoomIsRest(size, inIdx, outIdx);
      Add(Sub(size, inIdx), outIdx)
    }

    /** `memcpy` into the buffer. */
    method CopyIn(p: nat, data: seq<Byte>)
      requires p + |data| <= buffer.Length
      modifies buffer
      ensures buffer[p..p + |data|] == data
      ensures forall i :: 0 <= i < buffer.Length && !(p <= i < p + |data|) ==> buffer[i] == old(buffer[i])
    {
      for i := 0 to |data|
        invariant buffer[p..p + i] == data[..i]
        invariant forall j :: 0 <= j < buffer.Length && !(p <= j < p + i) ==> buffer[j] == old(buffer[j])
      {
        buffer[p + i] := data[i];
      }
    }

    /** The two copies of `fifo_put`: up to the end of the buffer, then from its beginning. */
    method CopyRound(p: nat, data: seq<Byte>)
      requires p < size == buffer.Length && |data| <= size
      modifies buffer
      ensures Holds(p, data)
      ensures forall i :: 0 <= i < buffer.Length && !InArc(i, p, |data|) ==> buffer[i] == old(buffer[i])
    {
      var l := Min(|data|, size - p);
      CopyIn(p, data[..l]);
      ghost var first := buffer[p..p + l];
      CopyIn(0, data[l..]);
      forall k | 0 <= k < |data| ensures buffer[Around(p + k, size)] == data[k] {
        if k < l {
          assert first[k] == data[..l][k] == data[k];
        } else {
          assert buffer[0..|data| - l][k - l] == data[l..][k - l];
        }
      }
    }

    /** Position i is one of the n from p on, round the buffer. */
    ghost predicate InArc(i: nat, p: nat, n: nat) {
      p <= i < p + n || p <= i + size < p + n
    }

    /** Bytes written right behind those already there make one longer run. */
    method Append(p: nat, ghost s: seq<Byte>, at: nat, data: seq<Byte>)
      requires p < size == buffer.Length && |s| + |data| <= size && Holds(p, s)
      requires at == Around(p + |s|, size) < size
      modifies buffer
      ensures Holds(p, s + data)
    {
      CopyRound(at, data);
      forall k | 0 <= k < |s| + |data| ensures buffer[Around(p + k, size)] == (s + data)[k] {
        if k < |s| {
          assert !InArc(Around(p + k, size), at, |data|);
        } else {
          assert Around(p + k, size) == Around(at + (k - |s|), size);
        }
      }
    }

    lemma DropFront(p: nat, s: seq<Byte>, n: nat)
      requires p < size == buffer.Length && n <= |s| <= size && Holds(p, s)
      requires Around(p + n, size) < size
      ensures Holds(Around(p + n, size), s[n..])
    {
      forall k | 0 <= k < |s| - n ensures buffer[Around(Around(p + n, size) + k, size)] == s[n..][k] {
        assert Around(Around(p + n, size) + k, size) == Around(p + (n + k), size);
      }
    }

    /** `fifo_put`: appends as much as there is room for. */
    method Put(data: seq<Byte>) returns (n: nat)
      requires Valid() && |data| < 0x1_0000_0000
      modifies this`inIdx, this`Contents, this`put, buffer
      ensures Valid() && n == Min(|data|, size - |old(Contents)|)
      ensures Contents == old(Contents) + data[..n] && put == old(put) + data[..n]
    {
      n := Min(|data|, Room());
      Extend(data[..n]);
    }

    /** Puts what there is room for. */
    method Extend(data: seq<Byte>)
      requires Valid() && |Contents| + |data| <= size
      modifies this`inIdx, this`Contents, this`put, buffer
      ensures Valid() && Contents == old(Contents) + data && put == old(put) + data
    {
      SpanGrows(inIdx, outIdx, |Contents|, |data|, size);
      Append(Spot(outIdx, size), Contents, Spot(inIdx, size), data);
      inIdx := Add(inIdx, |data|);
      Contents := Contents + data;
      put := put + data;
    }

    /** `fifo_get`; a discard is a get without a destination. */
    method Get(len: nat, wanted: bool) returns (n: nat, data: seq<Byte>)
      requires Valid()
      modifies this`inIdx, this`outIdx, this`Contents, this`got
      ensures Valid() && n == Min(len, |old(Contents)|)
      ensures data == if wanted then old(Contents)[..n] else []
      ensures Contents == old(Contents)[n..] && got == old(got) + old(Contents)[..n]
    {
      n := Min(len, Len());
      data := [];
      if wanted {
        data := CopyOut(Spot(outIdx, size), n);
      }
      Advance(n);
      if inIdx == outIdx {
        SubWraps(inIdx, outIdx);
        SpanStarts(size);
        inIdx, outIdx := 0, 0;
      }
    }

    method Advance(n: nat)
      requires Valid() && n <= |Contents|
      modifies this`outIdx, this`Contents, this`got
      ensures Valid() && Contents == old(Contents)[n..] && got == old(got) + old(Contents)[..n]
    {
      SpanShrinks(inIdx, outIdx, |Contents|, n, size);
      DropFront(Spot(outIdx, size), Contents, n);
      outIdx := Add(outIdx, n);
      got := got + Contents[..n];
      Contents := Contents[n..];
    }

    /** The two copies of `fifo_get`. */
    method CopyOut(p: nat, n: nat) returns (data: seq<Byte>)
      requires Valid() && p == Spot(outIdx, size) && n <= |Contents|
      ensures data == Contents[..n]
    {
      var l := Min(n, size - p);
      data := buffer[p..p + l] + buffer[..n - l];
      forall k | 0 <= k < n ensures data[k] == Contents[k] {
        assert buffer[Around(p + k, size)] == Contents[k];
      }
    }

    /** What has been taken out is the beginning of what has been put in. */
    lemma TakenIsPrefix()
      requires Valid()
      ensures got <= put && put[|got|..] == Contents
    {
    }
  }
}
