/**
  One pool of the shared-memory allocator, after `smalloc.c`.

  A pool is a mapping cut into 32-byte blocks, with one bit per block in a bitmap of 32-bit words, so that a word
  covers 1024 bytes. Bit j of word i stands for block 32 * i + j. An allocation is a run of blocks that starts with a
  header; the header's size field and the two redzones live in the same memory as the caller's data.
 */
module Smalloc {
  import opened Bits
  import opened Common
  import opened Scan

  const HDR: nat := 16                  // sizeof(struct block_hdr)
  const PRE_RED: U32 := 0xdeadbeef
  const POST_RED: U32 := 0x5aa55aa5

  /** Rounding up to the alignment of an int. */
  function RoundUp4(n: nat): nat {
    (n + 3) / 4 * 4
  }

  function SizeToBlocks(size: nat): nat {
    (size + 31) / 32
  }

  /** The size recorded in the header of a request for `size` bytes. */
  function AllocSize(size: nat): nat {
    RoundUp4(size + HDR + 4)
  }

  function BlocksFor(size: nat): (n: nat)
    ensures n > 0
  {
    SizeToBlocks(AllocSize(size))
  }

  /** Where the post redzone goes, as an offset into the pool. */
  function PostRed(hdr: nat, allocSize: nat): nat
    requires allocSize >= 4
  {
    RoundUp4(hdr + allocSize - 4)
  }

  lemma Rounded4(n: nat)
    ensures RoundUp4(n) % 4 == 0 && n <= RoundUp4(n) < n + 4
  {
  }

  lemma RoundedAlready(k: nat)
    ensures RoundUp4(4 * k) == 4 * k
  {
  }

  lemma BlocksCover(n: nat)
    ensures n <= 32 * SizeToBlocks(n) < n + 32
  {
  }

  /** The size recorded for a request is a whole number of words, and enough for header and post redzone. */
  lemma AllocWords(size: nat) returns (b: nat)
    ensures AllocSize(size) == 4 * b && size + HDR + 4 <= 4 * b
  {
    b := (size + HDR + 7) / 4;
  }

  /** The post redzone is the last of these words. */
  lemma PostRedLast(p: nat, b: nat)
    requires b > 0
    ensures PostRed(32 * p, 4 * b) == 32 * p + 4 * b - 4
  {
    RoundedAlready(8 * p + b - 1);
    assert 32 * p + 4 * b - 4 == 4 * (8 * p + b - 1);
  }

  /** Header, payload and post redzone follow one another without overlap and stay inside the blocks. */
  lemma Layout(p: nat, size: nat)
    ensures BlocksFor(size) > 0
    ensures var hdr, post := 32 * p, PostRed(32 * p, AllocSize(size));
            && hdr + HDR + size <= post
            && post + 4 <= 32 * (p + BlocksFor(size))
  {
    var b := AllocWords(size);
    PostRedLast(p, b);
    BlocksCover(4 * b);
  }

  // ----- Which blocks are taken

  /** Block p starts an allocation of runs[p] blocks. */
  type Runs = map<nat, nat>

  ghost predicate Owned(runs: Runs, x: nat) {
    exists p :: p in runs && Within(x, p, runs[p])
  }

  /** The blocks below `limit` that some allocation owns. */
  ghost function Taken(runs: Runs, limit: nat): set<nat> {
    set x: nat | x < limit && Owned(runs, x)
  }

  /** No two allocations share a block. */
  ghost predicate Apart(runs: Runs, limit: nat) {
    && (forall p :: p in runs ==> 0 < runs[p] <= limit - p)
    && forall p, q :: p in runs && q in runs && p < q ==> p + runs[p] <= q
  }

  lemma {:induction false} RangeSize(p: nat, n: nat)
    ensures |Range(p, n)| == n
  {
    if n == 0 {
      assert Range(p, 0) == {};
    } else {
      RangeSize(p, n - 1);
      assert Range(p, n) == Range(p, n - 1) + {p + n - 1};
    }
  }

  lemma ApartAdd(runs: Runs, p: nat, n: nat, limit: nat)
    requires Apart(runs, limit) && 0 < n <= limit - p && Range(p, n) !! Taken(runs, limit)
    ensures p !in runs && Apart(runs[p := n], limit)
  {
    forall q | q in runs ensures q + runs[q] <= p || p + n <= q {
      TakenApart(runs, q, p, n, limit);
    }
  }

  lemma TakenAdd(runs: Runs, p: nat, n: nat, limit: nat)
    requires p !in runs && n <= limit - p && Range(p, n) !! Taken(runs, limit)
    ensures Taken(runs[p := n], limit) == Taken(runs, limit) + Range(p, n)
    ensures |Taken(runs[p := n], limit)| == |Taken(runs, limit)| + n
  {
    OwnedAdd(runs, p, n);
    assert Taken(runs[p := n], limit) == Taken(runs, limit) + Range(p, n);
    RangeSize(p, n);
  }

  /** Blocks no allocation owns lie to one side of every allocation. */
  lemma TakenApart(runs: Runs, q: nat, p: nat, n: nat, limit: nat)
    requires q in runs && 0 < runs[q] <= limit - q && n > 0 && Range(p, n) !! Taken(runs, limit)
    ensures q + runs[q] <= p || p + n <= q
  {
    var x := if p <= q then q else p;
    assert Within(x, q, runs[q]) ==> x in Taken(runs, limit);
    assert Within(x, p, n) ==> x in Range(p, n);
  }

  lemma OwnedAdd(runs: Runs, p: nat, n: nat)
    requires p !in runs
    ensures forall x :: Owned(runs[p := n], x) <==> Owned(runs, x) || Within(x, p, n)
  {
    var after := runs[p := n];
    forall x: nat ensures Owned(after, x) <==> Owned(runs, x) || Within(x, p, n) {
      if q :| q in runs && Within(x, q, runs[q]) {
        assert q in after && Within(x, q, after[q]);
      }
      assert p in after && after[p] == n;
    }
  }

  lemma TakenRemove(runs: Runs, p: nat, limit: nat)
    requires Apart(runs, limit) && p in runs
    ensures Apart(runs - {p}, limit) && Range(p, runs[p]) <= Taken(runs, limit)
    ensures Taken(runs - {p}, limit) == Taken(runs, limit) - Range(p, runs[p])
    ensures |Taken(runs, limit)| == |Taken(runs - {p}, limit)| + runs[p]
  {
    var rest := runs - {p};
    assert rest[p := runs[p]] == runs;
    assert forall x :: x in Range(p, runs[p]) ==> !Owned(rest, x);
    TakenAdd(rest, p, runs[p], limit);
  }

  // ----- Masks

  /** The mask `blocks_iter` builds: n bits from position idx. */
  function Mask(n: nat, idx: nat): U32
    requires n <= 32
  {
    if n == 32 then 0xFFFF_FFFF else Shl(LowOnes(n), idx)
  }

  /** `(1U << n) - 1`. */
  function LowOnes(n: nat): U32
    requires n < 32
  {
    Pow2UpTo32(n);
    Pow2(n) - 1
  }

  lemma Pow2UpTo32(k: nat)
    requires k <= 32
    ensures Pow2(k) <= 0x1_0000_0000
  {
    Pow2At32();
    if k < 32 { Pow2Monotone(k, 32); }
  }

  lemma MaskBits(n: nat, idx: nat, j: nat)
    requires n + idx <= 32
    ensures Bit(Mask(n, idx), j) <==> idx <= j < idx + n
  {
    Pow2At32();
    if j >= 32 {
      HighBitsClear(Mask(n, idx), 32, j);
    } else if n == 32 {
      OnesBits(32, j);
    } else {
      ShlBits(LowOnes(n), idx, j);
      if idx <= j { OnesBits(n, j - idx); }
    }
  }

  ghost predicate AllClear(w: nat, idx: nat, n: nat) {
    forall j: nat :: idx <= j < idx + n ==> !Bit(w, j)
  }

  ghost predicate AllSet(w: nat, idx: nat, n: nat) {
    forall j: nat :: idx <= j < idx + n ==> Bit(w, j)
  }

  lemma MaskedBits(w: U32, n: nat, idx: nat, j: nat)
    requires n + idx <= 32
    ensures Bit(And(w, Mask(n, idx)), j) <==> Bit(w, j) && idx <= j < idx + n
  {
    BitwiseAt(AND, w, Mask(n, idx), j);
    MaskBits(n, idx, j);
  }

  /** What the tests of the `blocks_iter` callbacks say about the bits under the mask. */
  lemma MaskClear(w: U32, n: nat, idx: nat)
    requires n + idx <= 32
    ensures And(w, Mask(n, idx)) == 0 <==> AllClear(w, idx, n)
  {
    var x := And(w, Mask(n, idx));
    forall j: nat ensures Bit(x, j) <==> Bit(w, j) && idx <= j < idx + n { MaskedBits(w, n, idx, j); }
    forall j: nat ensures !Bit(0, j) { ZeroBits(j); }
    if AllClear(w, idx, n) {
      SameBits(x, 0);
    }
  }

  lemma MaskFull(w: U32, n: nat, idx: nat)
    requires n + idx <= 32
    ensures And(w, Mask(n, idx)) == Mask(n, idx) <==> AllSet(w, idx, n)
  {
    var x, m := And(w, Mask(n, idx)), Mask(n, idx);
    forall j: nat
      ensures Bit(x, j) <==> Bit(w, j) && idx <= j < idx + n
      ensures Bit(m, j) <==> idx <= j < idx + n
    {
      MaskedBits(w, n, idx, j);
      MaskBits(n, idx, j);
    }
    if AllSet(w, idx, n) {
      SameBits(x, m);
    }
  }

  function SetMask(w: U32, m: U32): (r: U32) {
    Pow2At32();
    BitwiseRange(OR, w, m, 32);
    Or(w, m)
  }

  function ClearMask(w: U32, m: U32): (r: U32) {
    Pow2At32();
    BitwiseRange(AND, w, Not(m), 32);
    And(w, Not(m))
  }

  lemma SetMaskBits(w: U32, n: nat, idx: nat, j: nat)
    requires n + idx <= 32
    ensures Bit(SetMask(w, Mask(n, idx)), j) <==> Bit(w, j) || idx <= j < idx + n
  {
    BitwiseAt(OR, w, Mask(n, idx), j);
    MaskBits(n, idx, j);
  }

  lemma ClearMaskBits(w: U32, n: nat, idx: nat, j: nat)
    requires n + idx <= 32 && j < 32
    ensures Bit(ClearMask(w, Mask(n, idx)), j) <==> Bit(w, j) && !(idx <= j < idx + n)
  {
    BitwiseAt(AND, w, Not(Mask(n, idx)), j);
    MaskBits(n, idx, j);
    Pow2At32();
    NotBits(Mask(n, idx), 32, j);
  }

  lemma {:induction false} NotBits(m: nat, n: nat, j: nat)
    requires m < Pow2(n) && j < n
    ensures Bit(Pow2(n) - 1 - m, j) <==> !Bit(m, j)
  {
    var c := Pow2(n) - 1 - m;
    assert c % 2 != m % 2 && c / 2 == Pow2(n - 1) - 1 - m / 2;
    if j > 0 { NotBits(m / 2, n - 1, j - 1); }
  }

  lemma ModSmall(x: nat)
    requires x < 0x1_0000_0000
    ensures x % 0x1_0000_0000 == x
  {
  }

  /** The word and bit of the block at a byte offset. */
  lemma BlockAt(p: nat)
    ensures 32 * p / 1024 == p / 32 && 32 * p % 1024 / 32 == p % 32
  {
    assert 32 * p == 1024 * (p / 32) + 32 * (p % 32);
    DivOf(1024, p / 32, 32 * (p % 32));
    DivOf(32, p % 32, 0);
  }

  // ----- The pool

  /** The callback given to `blocks_iter`. */
  datatype MaskOp = MaskCmp | MaskSet | MaskClr

  class Pool {
    const base: nat         // where the mapping starts
    const nrBlocks: nat     // words in the bitmap
    const bitmap: array<U32>
    var freeBlocks: nat
    var nextNonFull: nat
    // what the allocator keeps in the mapping: header sizes and redzone words, by offset
    var sizes: map<nat, nat>
    var words: map<nat, U32>
    ghost var runs: Runs            // live allocations, in blocks
    ghost var live: map<nat, nat>   // live allocations, in bytes asked for

    /** Bit of block 32 * i + j. */
    predicate Marked(i: nat, j: nat)
      requires i < bitmap.Length
      reads bitmap
    {
      Bit(bitmap[i], j)
    }

    // ----- Invariant

    ghost predicate Valid()
      reads this, bitmap
    {
      GeometryOk() && BitmapOk() && MemoryOk()
    }

    ghost predicate GeometryOk() {
      bitmap.Length == nrBlocks && nrBlocks * 1024 < 0x1_0000_0000
    }

    /** The marked blocks are those in t. */
    ghost predicate Shows(t: set<nat>)
      reads bitmap
    {
      forall i, j :: 0 <= i < bitmap.Length && 0 <= j < 32 ==> (Marked(i, j) <==> 32 * i + j in t)
    }

    /** The marked blocks are those of the live allocations, which do not overlap; the rest are free and counted. */
    ghost predicate BitmapOk()
      reads this`freeBlocks, this`runs, bitmap
    {
      && GeometryOk()
      && Apart(runs, 32 * nrBlocks)
      && Shows(Taken(runs, 32 * nrBlocks))
      && freeBlocks == 32 * nrBlocks - |Taken(runs, 32 * nrBlocks)|
    }

    /** Every live allocation has its header and both redzones intact. */
    ghost predicate MemoryOk()
      reads this`sizes, this`words, this`runs, this`live
    {
      RunsOk(runs)
    }

    ghost predicate RunsOk(rs: Runs)
      reads this`sizes, this`words, this`live
    {
      rs.Keys == live.Keys && forall p :: p in live ==> rs[p] == BlocksFor(live[p]) && HeaderOk(p, live[p])
    }

    ghost predicate HeaderOk(p: nat, size: nat)
      reads this`sizes, this`words
    {
      var hdr, post := 32 * p, PostRed(32 * p, AllocSize(size));
      && hdr in sizes && sizes[hdr] == AllocSize(size)
      && hdr + 8 in words && words[hdr + 8] == PRE_RED
      && post in words && words[post] == POST_RED
    }

    // ----- What the invariant says about any reachable state

    /** The bitmap is the union of the live allocations, ... */
    lemma MarkedIsOwned(i: nat, j: nat)
      requires Valid() && i < nrBlocks && j < 32
      ensures Marked(i, j) <==> exists p :: p in live && Within(32 * i + j, p, BlocksFor(live[p]))
    {
      var x := 32 * i + j;
      assert Marked(i, j) <==> x in Taken(runs, 32 * nrBlocks);
      if p :| p in runs && Within(x, p, runs[p]) {
        assert p in live;
      }
      if p :| p in live && Within(x, p, BlocksFor(live[p])) {
        assert p in runs && Within(x, p, runs[p]);
      }
    }

    /** ... which have their bytes to themselves, header and redzones included, inside the mapping. */
    lemma AllocationsApart(p: nat, q: nat)
      requires Valid() && p in live && q in live && p < q
      ensures PostRed(32 * p, AllocSize(live[p])) + 4 <= 32 * q
      ensures PostRed(32 * q, AllocSize(live[q])) + 4 <= nrBlocks * 1024
    {
      assert p in runs && q in runs;
      Layout(p, live[p]);
      Layout(q, live[q]);
    }

    /** A pool over a mapping that is all zeros. */
    constructor (base: nat, nrBlocks: nat)
      requires nrBlocks * 1024 < 0x1_0000_0000
      ensures Valid() && live == map[] && nextNonFull == 0
      ensures this.base == base && this.nrBlocks == nrBlocks && fresh(bitmap)
    {
      this.base, this.nrBlocks := base, nrBlocks;
      bitmap := new U32[nrBlocks](_ => 0);
      freeBlocks := 32 * nrBlocks;
      nextNonFull := 0;
      sizes, words, runs, live := map[], map[], map[], map[];
      new;
      forall i, j | 0 <= i < nrBlocks && 0 <= j < 32 ensures !Marked(i, j) { ZeroBits(j); }
      assert Taken(runs, 32 * nrBlocks) == {};
    }

    // ----- Bitmap

    /** Bits idx .. idx+n-1 of word i are all marked, or all unmarked. */
    ghost predicate WordRun(i: nat, idx: nat, n: nat, marked: bool)
      requires i < bitmap.Length
      reads bitmap
    {
      forall j: nat :: idx <= j < idx + n ==> Marked(i, j) == marked
    }

    /** Applies one callback to one word: `mask_cmp`, `mask_set`, `mask_clear`. */
    method ApplyMask(op: MaskOp, i: nat, n: nat, idx: nat) returns (ok: bool)
      requires i < bitmap.Length && n + idx <= 32
      // the callbacks' assertions
      requires op.MaskSet? ==> WordRun(i, idx, n, false)
      requires op.MaskClr? ==> WordRun(i, idx, n, true)
      modifies if op.MaskCmp? then {} else {bitmap}
      ensures op.MaskCmp? ==> bitmap[i] == old(bitmap[i]) && (ok <==> WordRun(i, idx, n, false))
      ensures !op.MaskCmp? ==> ok && forall j: nat :: j < 32 ==>
        (Marked(i, j) <==> if idx <= j < idx + n then op.MaskSet? else old(Marked(i, j)))
      ensures forall k :: 0 <= k < bitmap.Length && k != i ==> bitmap[k] == old(bitmap[k])
    {
      var w, mask := bitmap[i], Mask(n, idx);
      assert forall j: nat :: Marked(i, j) == Bit(w, j);
      match op
      case MaskCmp =>
        MaskClear(w, n, idx);
        ok := And(w, mask) == 0;
      case MaskSet =>
        MaskClear(w, n, idx);
        assert And(w, mask) == 0;
        bitmap[i] := SetMask(w, mask);
        forall j: nat { SetMaskBits(w, n, idx, j); }
        ok := true;
      case MaskClr =>
        MaskFull(w, n, idx);
        assert And(w, mask) == mask;
        bitmap[i] := ClearMask(w, mask);
        forall j: nat | j < 32 { ClearMaskBits(w, n, idx, j); }
        ok := true;
    }

    /** Whether blocks start .. start+n-1 all exist and all are marked, or unmarked. */
    ghost predicate RunIs(start: nat, n: nat, marked: bool)
      reads bitmap
    {
      && start + n <= 32 * bitmap.Length
      && forall i, j :: 0 <= i < bitmap.Length && 0 <= j < 32 && Within(32 * i + j, start, n) ==> Marked(i, j) == marked
    }

    /**
      `blocks_iter`: the run of n blocks from bit idx of word poolIdx, a word at a time. A position past the last bit
      of a word stands for the first bit of the next.
     */
    method BlocksIter(op: MaskOp, poolIdx: nat, idx: nat, n: nat) returns (ok: bool)
      requires GeometryOk() && idx <= 32
      requires op.MaskSet? ==> RunIs(32 * poolIdx + idx, n, false)
      requires op.MaskClr? ==> RunIs(32 * poolIdx + idx, n, true)
      modifies if op.MaskCmp? then {} else {bitmap}
      ensures op.MaskCmp? ==> bitmap[..] == old(bitmap[..])
      ensures op.MaskCmp? && n > 0 ==> (ok <==> RunIs(32 * poolIdx + idx, n, false))
      ensures !op.MaskCmp? ==> ok && forall i, j :: 0 <= i < bitmap.Length && 0 <= j < 32 ==>
        (Marked(i, j) <==> if Within(32 * i + j, 32 * poolIdx + idx, n) then op.MaskSet? else old(Marked(i, j)))
    {
      var i: nat, at: nat, left: nat := poolIdx, idx, n;
      ghost var start := 32 * poolIdx + idx;
      while left != 0
        invariant left <= n && at <= 32 && (left > 0 ==> 32 * i + at == start + n - left)
        invariant op.MaskCmp? ==> bitmap[..] == old(bitmap[..])
        invariant op.MaskCmp? ==> forall k, j ::
          0 <= k < bitmap.Length && 0 <= j < 32 && Within(32 * k + j, start, n - left) ==> !Marked(k, j)
        invariant n > left ==> start + n - left <= 32 * bitmap.Length
        invariant !op.MaskCmp? ==> forall k, j :: 0 <= k < bitmap.Length && 0 <= j < 32 ==>
          (Marked(k, j) <==> if Within(32 * k + j, start, n - left) then op.MaskSet? else old(Marked(k, j)))
        decreases left, 32 - at + (if at == 32 then 33 else 0)
      {
        if i >= nrBlocks {
          return false;
        }
        var thisBlocks: nat := left;
        if thisBlocks + at > 32 {
          thisBlocks := 32 - at;
          at := 32 - thisBlocks;
        }
        label before:
        var more := ApplyMask(op, i, thisBlocks, at);
        if !more {
          return false;
        }
        if op.MaskCmp? {
          forall k, j | 0 <= k < bitmap.Length && 0 <= j < 32 && Within(32 * k + j, start, n - left + thisBlocks)
            ensures !Marked(k, j)
          {
            assert Within(32 * k + j, start, n - left) || (k == i && at <= j < at + thisBlocks);
            assert old@before(Marked(k, j)) == Marked(k, j);
          }
        } else {
          forall k, j | 0 <= k < bitmap.Length && 0 <= j < 32
            ensures Marked(k, j) <==>
              if Within(32 * k + j, start, n - left + thisBlocks) then op.MaskSet? else old(Marked(k, j))
          {
            assert Within(32 * k + j, start, n - left + thisBlocks)
              <==> Within(32 * k + j, start, n - left) || (k == i && at <= j < at + thisBlocks);
            assert k == i || old@before(Marked(k, j)) == Marked(k, j);
          }
        }
        left := left - thisBlocks;
        at := 0;
        i := i + 1;
      }
      ok := true;
    }

    // ----- Allocation

    /** Every bit of word w from `start` on is set. */
    predicate NoneClear(w: U32, start: nat) {
      forall j: nat :: start <= j < 32 ==> Bit(w, j)
    }

    /**
      `find_next_zero`: the first clear bit at or above `start`. When there is none, `ffz` is called on a word of all
      ones, for which C does not define its result; `ones` is what it happens to give.
     */
    method FindNextZero(w: U32, start: nat, ones: nat) returns (idx: nat)
      requires w != 0xFFFF_FFFF && start < 32
      ensures if NoneClear(w, start) then idx == start + ones
        else start <= idx < 32 && !Bit(w, idx) && forall j: nat :: start <= j < idx ==> Bit(w, j)
    {
      idx := start;
      while idx < 32 && Bit(w, idx)
        invariant start <= idx <= 32
        invariant forall j: nat :: start <= j < idx ==> Bit(w, j)
      {
        idx := idx + 1;
      }
      if idx == 32 {
        idx := start + ones;
      }
    }

    /**
      `blocks_free`. Beyond the end of the word the arithmetic of `blocks_iter` wraps, in 32 bits for the blocks of one
      round and in 64 for those left, and its shifts are by more than C allows; whatever they give, the answer is no.
     */
    method BlocksFree(i: nat, idx: nat, n: nat) returns (ok: bool)
      requires GeometryOk() && 0 < n < 0x1000_0000 && idx < 128
      ensures ok <==> idx <= 32 && RunIs(32 * i + idx, n, false)
    {
      if idx <= 32 {
        ok := BlocksIter(MaskCmp, i, idx, n);
      } else {
        ok := PastWord(i, idx, n);
      }
    }

    /** `blocks_iter` from a position past the word. */
    method PastWord(poolIdx: nat, idx: U32, n: U64) returns (ok: bool)
      requires GeometryOk() && 0 < n < 0x1000_0000 && 32 < idx < 128
      ensures !ok
    {
      var i: nat, at: U32, left: U64 := poolIdx, idx, n;
      while left != 0
        invariant poolIdx <= i
        invariant if i == poolIdx then at == idx && left == n
          else at == 0 && i <= nrBlocks && left >= 0xFFFF_FFFF_0000_0000 - 32 * i
        decreases nrBlocks - i
      {
        if i >= nrBlocks {
          return false;
        }
        var thisBlocks: U32 := Wrap(left);
        if Wrap(thisBlocks + at) > 32 {
          thisBlocks := Minus(32, at);
          at := Minus(32, thisBlocks);
        }
        var free: bool := *;
        if !free {
          return false;
        }
        left := Wrap64(left - thisBlocks);
        at := 0;
        i := i + 1;
      }
      ok := true;
    }

    /** `a - b` on `unsigned int`. */
    function Minus(a: U32, b: U32): U32 {
      if b <= a then a - b else a - b + 0x1_0000_0000
    }

    /** Nothing is taken and the hint is at the start. */
    ghost predicate Untouched()
      reads this`nextNonFull, bitmap
    {
      nextNonFull == 0 && forall i, j :: 0 <= i < bitmap.Length && 0 <= j < 32 ==> !Marked(i, j)
    }

    /** There is a free run of the least length that the scan cannot miss (see Scan.CertainIff). */
    ghost predicate RoomFor(n: nat)
      requires n > 0
      reads this`nextNonFull, bitmap
    {
      exists a: nat :: 32 * nextNonFull <= a && RunIs(a, Least(n, 63), false)
    }

    /** A request for n blocks is certain to be met: the pool is untouched, or has room that the scan cannot miss. */
    ghost predicate CannotMiss(n: nat)
      requires n > 0
      reads this`nextNonFull, this`freeBlocks, bitmap
    {
      (Untouched() && n <= freeBlocks) || RoomFor(n)
    }

    /** The blocks of the live allocations. */
    ghost function Blocks(): set<nat>
      reads this`runs
    {
      Taken(runs, 32 * nrBlocks)
    }

    lemma FreeIff(t: set<nat>, a: nat, n: nat)
      requires GeometryOk() && Shows(t)
      ensures RunIs(a, n, false) <==> Free(t, nrBlocks, a, n)
    {
      if RunIs(a, n, false) {
        FreeRun(a, n, t);
        forall x | a <= x < a + n ensures x !in t { assert x in Range(a, n); }
      }
    }

    /** A word is all ones exactly when its blocks are all taken. */
    lemma FullIff(t: set<nat>, i: nat)
      requires GeometryOk() && Shows(t) && i < nrBlocks
      ensures bitmap[i] == 0xFFFF_FFFF <==> FullWord(t, i)
    {
      if bitmap[i] == 0xFFFF_FFFF {
        AllOnes(i);
        forall x | 32 * i <= x < 32 * i + 32 ensures x in t { assert Marked(i, x - 32 * i); }
      }
      if FullWord(t, i) {
        forall j: nat | j < 32 ensures Bit(bitmap[i], j) {
          assert 32 * i + j in t;
          assert Marked(i, j);
        }
        OnesOnly(bitmap[i]);
      }
    }

    /** The position `find_next_zero` comes to is the scan's candidate. */
    lemma CandidateIs(t: set<nat>, i: nat, start: nat, idx: nat, beyond: nat -> nat)
      requires GeometryOk() && Shows(t) && i < nrBlocks && start < 32
      requires if NoneClear(bitmap[i], start) then idx == start + beyond(32 * i + start)
        else start <= idx < 32 && !Bit(bitmap[i], idx) && forall j: nat :: start <= j < idx ==> Bit(bitmap[i], j)
      ensures Candidate(t, i, start, beyond) == idx
    {
      var c := if NoneClear(bitmap[i], start) then 32 else idx;
      forall x | 32 * i + start <= x < 32 * i + c ensures x in t { assert Marked(i, x - 32 * i); }
      assert c < 32 ==> !Marked(i, c);
      FirstClearAt(t, i, start, c);
    }

    /** One round of the scan from bit `start` of word i: a run, or the place to go on from. */
    method ScanStep(i: nat, start: nat, n: nat, beyond: nat -> nat, ghost t: set<nat>)
      returns (found: bool, i': nat, idx': nat)
      requires GeometryOk() && Shows(t) && 0 < n < 0x1000_0000 && InLong(beyond) && i < nrBlocks && start < 32
      requires bitmap[i] != 0xFFFF_FFFF
      ensures found ==> idx' <= 32 && RunIs(32 * i' + idx', n, false)
      ensures found ==> Find(t, nrBlocks, i, start, n, beyond) == Some(32 * i' + idx')
      ensures !found ==> idx' < 32 && 32 * i + start < 32 * i' + idx'
      ensures !found ==> Find(t, nrBlocks, i, start, n, beyond) == Find(t, nrBlocks, i', idx', n, beyond)
    {
      var idx := FindNextZero(bitmap[i], start, beyond(32 * i + start));
      FullIff(t, i);
      CandidateIs(t, i, start, idx, beyond);
      found, i', idx' := TryCandidate(i, start, idx, n, beyond, t);
    }

    /** The candidate is at bit idx. */
    method TryCandidate(i: nat, ghost start: nat, idx: nat, n: nat, ghost beyond: nat -> nat, ghost t: set<nat>)
      returns (found: bool, i': nat, idx': nat)
      requires GeometryOk() && Shows(t) && 0 < n < 0x1000_0000 && InLong(beyond) && i < nrBlocks && start < 32
      requires !FullWord(t, i) && Candidate(t, i, start, beyond) == idx
      ensures found ==> idx' <= 32 && RunIs(32 * i' + idx', n, false)
      ensures found ==> Find(t, nrBlocks, i, start, n, beyond) == Some(32 * i' + idx')
      ensures !found ==> idx' < 32 && 32 * i + start < 32 * i' + idx'
      ensures !found ==> Find(t, nrBlocks, i, start, n, beyond) == Find(t, nrBlocks, i', idx', n, beyond)
    {
      FreeIff(t, 32 * i + idx, n);
      FindStep(t, nrBlocks, i, start, n, beyond);
      found := BlocksFree(i, idx, n);
      i', idx' := i, idx;
      if !found {
        i', idx' := GoOn(i, idx, n);
      }
    }

    /** Where the scan goes on when the run from bit idx of word i is not free. */
    method GoOn(i: nat, idx: nat, n: nat) returns (i': nat, idx': nat)
      requires n > 0
      ensures (i', idx') == Next(i, idx, n) && idx' < 32
      ensures 32 * i + idx < 32 * i' + idx' || (idx' == 0 && i' > i)
    {
      i', idx' := i, idx + n;
      if idx' >= 32 {
        i' := SkipWords(i, idx');
        idx' := 0;
      }
    }

    /** The scan of `__smalloc_pool`: the word and bit of the run it finds. */
    method FindRun(n: nat, ghost t: set<nat>) returns (at: Option<(nat, nat)>)
      requires GeometryOk() && Shows(t) && 0 < n < 0x1000_0000
      modifies this`nextNonFull
      ensures at.Some? ==> at.value.1 <= 32 && RunIs(32 * at.value.0 + at.value.1, n, false)
      ensures CanGive(t, nrBlocks, old(nextNonFull), n, At(at))
    {
      var ones: nat -> nat := *;
      var beyond: nat -> nat := (x: nat) => ones(x) % 64;
      at := ScanWith(n, beyond, t);
    }

    /** The loop of the scan, when `ffz` of all ones gives beyond(x) at block x. */
    method ScanWith(n: nat, beyond: nat -> nat, ghost t: set<nat>) returns (at: Option<(nat, nat)>)
      requires GeometryOk() && Shows(t) && 0 < n < 0x1000_0000 && InLong(beyond)
      modifies this`nextNonFull
      ensures at.Some? ==> at.value.1 <= 32 && RunIs(32 * at.value.0 + at.value.1, n, false)
      ensures Find(t, nrBlocks, old(nextNonFull), 0, n, beyond) == At(at)
    {
      var i: nat, lastIdx: nat := nextNonFull, 0;
      ghost var result := Find(t, nrBlocks, i, 0, n, beyond);
      while i < nrBlocks
        invariant lastIdx < 32
        invariant Find(t, nrBlocks, i, lastIdx, n, beyond) == result
        decreases 32 * nrBlocks - (32 * i + lastIdx)
      {
        if bitmap[i] == 0xFFFF_FFFF {
          FullIff(t, i);
          i := i + 1;
          nextNonFull := i;
          lastIdx := 0;
          continue;
        }
        var found;
        found, i, lastIdx := ScanStep(i, lastIdx, n, beyond, t);
        if found {
          return Some((i, lastIdx));
        }
      }
      return None;
    }

    /** The block at a word and bit. */
    function At(at: Option<(nat, nat)>): Option<nat> {
      if at.Some? then Some(32 * at.value.0 + at.value.1) else None
    }

    lemma AllOnes(i: nat)
      requires i < bitmap.Length && bitmap[i] == 0xFFFF_FFFF
      ensures forall j: nat :: j < 32 ==> Marked(i, j)
    {
      Pow2At32();
      forall j: nat | j < 32 { OnesBits(32, j); }
    }

    /** `while (idx >= 32) { i++; idx -= 32; }`; what is left of idx is not used. */
    method SkipWords(i: nat, idx: nat) returns (i': nat)
      ensures i' == i + idx / 32
    {
      i' := i;
      var idx' := idx;
      while idx' >= 32
        invariant i' + idx' / 32 == i + idx / 32
      {
        i' := i' + 1;
        idx' := idx' - 32;
      }
    }

    /** `set_blocks` and `clear_blocks` add a run to the marked blocks, or take it away. */
    method MarkRun(op: MaskOp, i: nat, idx: nat, n: nat, ghost t: set<nat>)
      requires GeometryOk() && idx <= 32 && !op.MaskCmp? && Shows(t)
      requires RunIs(32 * i + idx, n, op.MaskClr?)
      modifies bitmap
      ensures Shows(if op.MaskSet? then t + Range(32 * i + idx, n) else t - Range(32 * i + idx, n))
    {
      var _ := BlocksIter(op, i, idx, n);
      ghost var p := 32 * i + idx;
      forall k, j | 0 <= k < bitmap.Length && 0 <= j < 32
        ensures 32 * k + j in Range(p, n) <==> Within(32 * k + j, p, n)
        ensures old(Marked(k, j)) <==> 32 * k + j in t
      {
      }
    }

    lemma FreeRun(p: nat, n: nat, t: set<nat>)
      requires Shows(t) && RunIs(p, n, false)
      ensures Range(p, n) !! t && forall x :: x in Range(p, n) ==> x < 32 * bitmap.Length
    {
      forall x | x in Range(p, n) ensures x !in t && x < 32 * bitmap.Length {
        assert Within(32 * (x / 32) + x % 32, p, n);
        assert !Marked(x / 32, x % 32);
      }
    }

    lemma TakenRun(p: nat, n: nat, t: set<nat>)
      requires Shows(t) && Range(p, n) <= t && (forall x :: x in t ==> x < 32 * bitmap.Length) && n > 0
      ensures RunIs(p, n, true)
    {
      assert Within(p + n - 1, p, n);
      assert p + n - 1 in Range(p, n);
      forall i, j | 0 <= i < bitmap.Length && 0 <= j < 32 && Within(32 * i + j, p, n) ensures Marked(i, j) {
        assert 32 * i + j in Range(p, n);
      }
    }

    method MarkFree(i: nat, idx: nat, n: nat, ghost p: nat, ghost t: set<nat>, ghost t': set<nat>)
      requires GeometryOk() && idx <= 32 && p == 32 * i + idx && Shows(t) && RunIs(p, n, false)
      requires t' == t + Range(p, n)
      modifies bitmap
      ensures Shows(t')
    {
      MarkRun(MaskSet, i, idx, n, t);
    }

    /** Marking a free run as an allocation keeps the bitmap in step with the allocations. */
    method SetBlocks(i: nat, idx: nat, n: nat, ghost p: nat)
      requires BitmapOk() && idx <= 32 && p == 32 * i + idx && 0 < n <= freeBlocks && RunIs(p, n, false)
      modifies this`freeBlocks, this`runs, bitmap
      ensures BitmapOk() && p !in old(runs) && runs == old(runs)[p := n]
    {
      ghost var t := Taken(runs, 32 * nrBlocks);
      ghost var after := RunAdded(p, n);
      ghost var t' := Taken(after, 32 * nrBlocks);
      MarkFree(i, idx, n, p, t, t');
      freeBlocks := freeBlocks - n;
      runs := after;
    }

    lemma RunAdded(p: nat, n: nat) returns (after: Runs)
      requires BitmapOk() && 0 < n && RunIs(p, n, false)
      ensures p !in runs && after == runs[p := n] && Apart(after, 32 * nrBlocks)
      ensures Taken(after, 32 * nrBlocks) == Taken(runs, 32 * nrBlocks) + Range(p, n)
      ensures |Taken(after, 32 * nrBlocks)| == |Taken(runs, 32 * nrBlocks)| + n
    {
      after := runs[p := n];
      FreeRun(p, n, Taken(runs, 32 * nrBlocks));
      ApartAdd(runs, p, n, 32 * nrBlocks);
      TakenAdd(runs, p, n, 32 * nrBlocks);
    }

    /** Clearing the run of a live allocation. */
    method ClearBlocks(i: nat, idx: nat, n: nat, ghost p: nat)
      requires BitmapOk() && idx < 32 && p == 32 * i + idx && p in runs && n == runs[p]
      modifies this`freeBlocks, this`runs, bitmap
      ensures BitmapOk() && runs == old(runs) - {p}
    {
      ghost var t := Taken(runs, 32 * nrBlocks);
      TakenRemove(runs, p, 32 * nrBlocks);
      TakenRun(p, n, t);
      MarkRun(MaskClr, i, idx, n, t);
      freeBlocks := freeBlocks + n;
      runs := runs - {p};
    }

    /** Free blocks in a row are counted as free. */
    lemma FreeIsCounted(a: nat, n: nat)
      requires BitmapOk() && n > 0 && RunIs(a, n, false)
      ensures n <= freeBlocks
    {
      var after := RunAdded(a, n);
      var all := Taken(after, 32 * nrBlocks);
      RangeSize(0, 32 * nrBlocks);
      SubsetSize(all, Range(0, 32 * nrBlocks));
    }

    /** So the check of the free count never turns away what the scan could place. */
    lemma NoneTurnedAway(n: nat, t: set<nat>, beyond: nat -> nat)
      requires BitmapOk() && n > freeBlocks && t == Blocks()
      ensures Find(t, nrBlocks, nextNonFull, 0, n, beyond) == None
    {
      FoundIsFree(t, nrBlocks, nextNonFull, 0, n, beyond);
      var found := Find(t, nrBlocks, nextNonFull, 0, n, beyond);
      if found.Some? {
        FreeIff(t, found.value, n);
        FreeIsCounted(found.value, n);
      }
    }

    lemma NeverGiven(n: nat)
      requires BitmapOk() && n > freeBlocks
      ensures CanGive(Blocks(), nrBlocks, nextNonFull, n, None)
    {
      var beyond: nat -> nat := _ => 0;
      NoneTurnedAway(n, Blocks(), beyond);
      assert InLong(beyond);
    }

    /** Whatever `ffz` does, the scan serves a request from an untouched pool, or where it cannot miss. */
    lemma Serves(n: nat, t: set<nat>, beyond: nat -> nat)
      requires BitmapOk() && n > 0 && t == Blocks() && InLong(beyond) && CannotMiss(n)
      ensures Find(t, nrBlocks, nextNonFull, 0, n, beyond).Some?
    {
      if RoomFor(n) {
        var a: nat :| 32 * nextNonFull <= a && RunIs(a, Least(n, 63), false);
        FreeIff(t, a, Least(n, 63));
        LongRunFound(t, nrBlocks, nextNonFull, 0, n, beyond, 63, a);
      } else {
        forall x | 0 <= x < 32 * nrBlocks ensures x !in t {
          assert !Marked(x / 32, x % 32);
        }
        EmptyServes(t, nrBlocks, n, beyond);
      }
    }

    /** `__smalloc_pool`: the first block of the run that the scan finds, now marked. */
    method AllocBlocks(size: nat) returns (at: Option<nat>)
      requires BitmapOk() && size > 0
      modifies this`nextNonFull, this`freeBlocks, this`runs, bitmap
      ensures BitmapOk()
      ensures at == None ==> runs == old(runs)
      ensures at.Some? ==> at.value !in old(runs) && runs == old(runs)[at.value := SizeToBlocks(size)]
      ensures at.Some? ==> SizeToBlocks(size) <= old(freeBlocks)
      ensures CanGive(old(Blocks()), nrBlocks, old(nextNonFull), SizeToBlocks(size), at)
      ensures old(CannotMiss(SizeToBlocks(size))) ==> at.Some?
    {
      var n := SizeToBlocks(size);
      AllServe(n);
      if n > freeBlocks {
        NeverGiven(n);
        return None;
      }
      at := PlaceRun(n);
    }

    /** The rest of it, once the count of free blocks allows. */
    method PlaceRun(n: nat) returns (at: Option<nat>)
      requires BitmapOk() && 0 < n <= freeBlocks
      modifies this`nextNonFull, this`freeBlocks, this`runs, bitmap
      ensures BitmapOk() && CanGive(old(Blocks()), nrBlocks, old(nextNonFull), n, at)
      ensures at == None ==> runs == old(runs)
      ensures at.Some? ==> at.value !in old(runs) && runs == old(runs)[at.value := n]
    {
      assert n <= 32 * nrBlocks < 0x1000_0000;
      var run := FindRun(n, Blocks());
      at := At(run);
      MarkFound(run, n);
    }

    method MarkFound(run: Option<(nat, nat)>, n: nat)
      requires BitmapOk() && 0 < n <= freeBlocks
      requires run.Some? ==> run.value.1 <= 32 && RunIs(32 * run.value.0 + run.value.1, n, false)
      modifies this`freeBlocks, this`runs, bitmap
      ensures BitmapOk()
      ensures run == None ==> runs == old(runs)
      ensures run.Some? ==> At(run).value !in old(runs) && runs == old(runs)[At(run).value := n]
    {
      if run.Some? {
        var (i, idx) := run.value;
        // offset / 32, where offset = i * 1024 + idx * 32
        SetBlocks(i, idx, n, 32 * i + idx);
      }
    }

    lemma AllServe(n: nat)
      requires BitmapOk() && n > 0
      ensures CannotMiss(n) ==> !CanGive(Blocks(), nrBlocks, nextNonFull, n, None) && n <= freeBlocks
    {
      if CannotMiss(n) {
        if RoomFor(n) {
          var a: nat :| 32 * nextNonFull <= a && RunIs(a, Least(n, 63), false);
          FreeIff(Blocks(), a, Least(n, 63));
          FreeIff(Blocks(), a, n);
          FreeIsCounted(a, n);
        }
        forall beyond | InLong(beyond) ensures Find(Blocks(), nrBlocks, nextNonFull, 0, n, beyond).Some? {
          Serves(n, Blocks(), beyond);
        }
      }
    }

    // ----- Memory

    /** Bytes lo .. lo+len-1 are overwritten, and with them any header or redzone word they touch. */
    method Store(lo: nat, len: nat)
      modifies this`sizes, this`words
      ensures sizes == map a | a in old(sizes) && (a + 8 <= lo || lo + len <= a) :: old(sizes)[a]
      ensures words == map a | a in old(words) && (a + 4 <= lo || lo + len <= a) :: old(words)[a]
    {
      sizes := map a | a in sizes && (a + 8 <= lo || lo + len <= a) :: sizes[a];
      words := map a | a in words && (a + 4 <= lo || lo + len <= a) :: words[a];
    }

    /** The blocks of an allocation other than the one at q keep their header when q's blocks are written. */
    lemma HeaderApart(p: nat, size: nat, q: nat, n: nat, lo: nat, len: nat)
      requires p + BlocksFor(size) <= q || q + n <= p
      requires 32 * q <= lo && lo + len <= 32 * (q + n)
      ensures var hdr, post := 32 * p, PostRed(32 * p, AllocSize(size));
              && (hdr + 16 <= lo || lo + len <= hdr)
              && (post + 4 <= lo || lo + len <= post)
    {
      Layout(p, size);
    }

    /** A write inside the n blocks from q on spares the header and redzones of allocations elsewhere. */
    method StoreInside(ghost q: nat, ghost n: nat, lo: nat, len: nat)
      requires 32 * q <= lo && lo + len <= 32 * (q + n)
      modifies this`sizes, this`words
      ensures sizes == map a | a in old(sizes) && (a + 8 <= lo || lo + len <= a) :: old(sizes)[a]
      ensures words == map a | a in old(words) && (a + 4 <= lo || lo + len <= a) :: old(words)[a]
      ensures OthersKept(q, n)
    {
      Store(lo, len);
      forall p, other | Elsewhere(p, other, q, n) && old(HeaderOk(p, other)) ensures HeaderOk(p, other) {
        HeaderApart(p, other, q, n, lo, len);
      }
    }

    twostate predicate OthersKept(q: nat, n: nat)
      reads this`sizes, this`words
    {
      forall p, other :: Elsewhere(p, other, q, n) && old(HeaderOk(p, other)) ==> HeaderOk(p, other)
    }

    /** Writing the header and both redzones of a new allocation, and clearing its payload. */
    method WriteHeader(q: nat, size: nat)
      modifies this`sizes, this`words
      ensures HeaderOk(q, size) && OthersKept(q, BlocksFor(size))
    {
      var hdr, alloc := 32 * q, AllocSize(size);
      var post := PostRed(hdr, alloc);
      Layout(q, size);
      StoreInside(q, BlocksFor(size), hdr, 12);
      sizes := sizes[hdr := alloc];
      StoreInside(q, BlocksFor(size), post, 4);
      words := words[hdr + 8 := PRE_RED][post := POST_RED];
      assert HeaderOk(q, size);
      assert OthersKept(q, BlocksFor(size));
      StoreInside(q, BlocksFor(size), hdr + HDR, size);
    }

    ghost predicate Elsewhere(p: nat, size: nat, q: nat, n: nat) {
      p + BlocksFor(size) <= q || q + n <= p
    }

    // ----- Operations

    /** The header of a run that has just been marked turns it into a live allocation. */
    method RecordNew(p: nat, size: nat, ghost was: Runs)
      requires Apart(runs, 32 * nrBlocks) && p !in live && runs == was[p := BlocksFor(size)] && was.Keys == live.Keys
      requires forall q :: q in live ==> was[q] == BlocksFor(live[q]) && HeaderOk(q, live[q])
      modifies this`live, this`sizes, this`words
      ensures MemoryOk() && live == old(live)[p := size]
    {
      forall q | q in live ensures Elsewhere(q, live[q], p, BlocksFor(size)) {
        assert q in runs;
      }
      WriteHeader(p, size);
      live := live[p := size];
    }

    /** `smalloc_pool`: a pointer to `size` cleared bytes of a new allocation, or nothing. */
    method SmallocPool(size: nat) returns (ptr: Option<nat>, ghost p: nat)
      requires Valid()
      modifies this`nextNonFull, this`freeBlocks, this`runs, this`live, this`sizes, this`words, bitmap
      ensures Valid()
      ensures ptr == None ==> live == old(live)
      ensures ptr.Some? ==> ptr.value == base + 32 * p + HDR && p !in old(live) && live == old(live)[p := size]
      ensures old(CannotMiss(BlocksFor(size))) ==> ptr.Some?
      ensures ptr.Some? ==> BlocksFor(size) <= old(freeBlocks)
      ensures CanGive(old(Blocks()), nrBlocks, old(nextNonFull), BlocksFor(size), if ptr.Some? then Some(p) else None)
    {
      ghost var was := runs;
      var at := AllocBlocks(AllocSize(size));
      p := if at.Some? then at.value else 0;
      ptr := Deliver(at, size, was);
      assert (if ptr.Some? then Some(p) else None) == at;
    }

    /** What has been found, if anything, becomes an allocation. */
    method Deliver(at: Option<nat>, size: nat, ghost was: Runs) returns (ptr: Option<nat>)
      requires Apart(runs, 32 * nrBlocks) && RunsOk(was)
      requires runs == if at.Some? then was[at.value := BlocksFor(size)] else was
      requires at.Some? ==> at.value !in live
      modifies this`live, this`sizes, this`words
      ensures MemoryOk() && live == if at.Some? then old(live)[at.value := size] else old(live)
      ensures ptr == if at.Some? then Some(base + 32 * at.value + HDR) else None
    {
      if at == None {
        return None;
      }
      RecordNew(at.value, size, was);
      return Some(base + 32 * at.value + HDR);
    }

    /** Writes by the owner of an allocation inside the bytes it asked for. */
    method UserWrite(ghost p: nat, lo: nat, len: nat)
      requires Valid() && p in live && 32 * p + HDR <= lo && lo + len <= 32 * p + HDR + live[p]
      modifies this`sizes, this`words
      ensures Valid()
    {
      Layout(p, live[p]);
      StoreInside(p, BlocksFor(live[p]), lo, len);
      forall q | q in live && q != p ensures Elsewhere(q, live[q], p, BlocksFor(live[p])) {
        assert q in runs && p in runs;
      }
    }

    /** `ptr_valid`. */
    predicate PtrValid(ptr: nat) {
      base <= ptr < base + PoolSize()
    }

    function PoolSize(): nat {
      nrBlocks * 1024 % 0x1_0000_0000
    }

    lemma LivePtrValid(p: nat)
      requires Apart(runs, 32 * nrBlocks) && p in runs && nrBlocks * 1024 < 0x1_0000_0000
      ensures PtrValid(base + 32 * p) && PtrValid(base + 32 * p + HDR)
    {
      ModSmall(nrBlocks * 1024);
    }

    /** What `sfree_pool` works out from the pointer and from the header it finds there. */
    method Inspect(ptr: nat, ghost p: nat) returns (i: nat, idx: nat, n: nat)
      requires MemoryOk() && p in live && ptr == base + 32 * p + HDR
      ensures i == p / 32 && idx == p % 32 && n == runs[p]
    {
      var hdr: nat := ptr - HDR - base;
      var size := sizes[hdr];
      BlockAt(p);
      i, idx, n := hdr / 1024, hdr % 1024 / 32, SizeToBlocks(size);
    }

    /** `sfree_check_redzone`; its assertions hold. */
    method CheckRedzone(hdr: nat, ghost p: nat) returns (intact: bool)
      requires MemoryOk() && p in live && hdr == 32 * p
      ensures intact
    {
      intact := words[hdr + 8] == PRE_RED && words[PostRed(hdr, sizes[hdr])] == POST_RED;
    }

    /** A run whose bits have been cleared is no longer an allocation. */
    ghost method Forget(p: nat, was: Runs)
      requires p in live && runs == was - {p} && RunsOk(was)
      modifies this`live
      ensures MemoryOk() && live == old(live) - {p}
    {
      live := live - {p};
    }

    method Unmark(i: nat, idx: nat, n: nat, ghost p: nat)
      requires BitmapOk() && MemoryOk() && p in live && idx < 32 && p == 32 * i + idx && n == runs[p]
      modifies this`freeBlocks, this`runs, this`live, bitmap
      ensures BitmapOk() && MemoryOk() && live == old(live) - {p}
    {
      ghost var was := runs;
      ClearBlocks(i, idx, n, p);
      Forget(p, was);
    }

    /** `sfree_pool` of a null pointer or a live allocation; its assertions on the pointer and on both redzones hold. */
    method SfreePool(ptr: nat, ghost p: nat)
      requires Valid() && (ptr != 0 ==> p in live && ptr == base + 32 * p + HDR)
      modifies this`nextNonFull, this`freeBlocks, this`runs, this`live, bitmap
      ensures Valid() && live == if ptr == 0 then old(live) else old(live) - {p}
    {
      if ptr == 0 {
        return;
      }
      assert p in runs;
      LivePtrValid(p);
      assert PtrValid(ptr - HDR);
      var intact := CheckRedzone(ptr - HDR - base, p);
      assert intact;
      var i, idx, n := Inspect(ptr, p);
      if i < nextNonFull {
        nextNonFull := i;
      }
      Unmark(i, idx, n, p);
    }
  }
}
