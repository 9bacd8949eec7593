/**
  The pools of the shared-memory allocator together: `add_pool`, `smalloc` and `sfree` of `smalloc.c`.
 */
module SmallocPools {
  import opened Bits
  import opened Common
  import opened Smalloc

  const INITIAL_SIZE: nat := 8388608
  const MAX_POOLS: nat := 128

  // ----- Sizing a pool

  /** Rounding up to whole bitmap words of blocks. */
  function RoundUp1024(n: nat): nat {
    (n + 1023) / 1024 * 1024
  }

  lemma Rounded1024(n: nat)
    ensures n <= RoundUp1024(n) < n + 1024 && RoundUp1024(n) == 1024 * (RoundUp1024(n) / 1024)
  {
  }

  /** The pool bytes `add_pool` settles on, in 32 bits. */
  function PoolBytes(size: U32): U32 {
    Wrap(RoundUp1024(Max(Wrap(Wrap(size + 4) + HDR), INITIAL_SIZE)))
  }

  /** How many words a pool for a request has, and how many bytes get mapped for it. */
  function PoolGeometry(size: U32): (g: (nat, U32)) {
    var words := PoolBytes(size) / 1024;
    (words, Wrap(PoolBytes(size) + 4 * words))
  }

  /** The pool's blocks hold the request, and the mapping holds the blocks and the bitmap behind them. */
  predicate PoolFits(size: U32) {
    var (words, mapped) := PoolGeometry(size);
    BlocksFor(size) <= 32 * words && words * 1024 + 4 * words <= mapped
  }

  /** The pool bytes a request calls for. */
  function PoolNeed(size: nat): nat {
    RoundUp1024(Max(size + HDR + 4, INITIAL_SIZE))
  }

  /** A request small enough for none of these sums to wrap. */
  predicate NoWrap(size: nat) {
    PoolNeed(size) + 4 * (PoolNeed(size) / 1024) < 0x1_0000_0000
  }

  /** The mapping that a request calls for holds the pool's blocks and, behind them, its bitmap. */
  predicate BitmapInside(size: U32) {
    var (words, mapped) := PoolGeometry(size);
    words * 1024 + 4 * words <= mapped
  }

  /** That fails exactly when the bytes for the blocks fit 32 bits and those for the bitmap make the sum wrap. */
  lemma BitmapInsideIff(size: U32)
    ensures BitmapInside(size) <==> NoWrap(size) || PoolNeed(size) >= 0x1_0000_0000
  {
    var need := PoolNeed(size);
    Rounded1024(Max(size + HDR + 4, INITIAL_SIZE));
    if size + HDR + 4 >= 0x1_0000_0000 {
      TinyPool(size);
    } else if need >= 0x1_0000_0000 {
      EmptyPool(size);
    } else {
      PlainPool(size);
    }
  }

  /** Adding the header to the request wraps. */
  predicate Wraps(size: U32) {
    size + HDR + 4 >= 0x1_0000_0000
  }

  /** How many pools are added for a request that none fits: `mappings` can be made, there is room for `room`. */
  function Useless(size: U32, mappings: nat, room: nat): nat {
    if Wraps(size) then Min(mappings, room) else 0
  }

  /** Where the bitmap is inside, no bytes at all are mapped exactly when rounding up wraps. */
  lemma MappedIff(size: U32)
    requires BitmapInside(size)
    ensures PoolGeometry(size).1 != 0 <==> NoWrap(size) || Wraps(size)
    ensures NoWrap(size) ==> !Wraps(size)
  {
    BitmapInsideIff(size);
    Rounded1024(Max(size + HDR + 4, INITIAL_SIZE));
    if Wraps(size) {
      TinyPool(size);
    } else if PoolNeed(size) >= 0x1_0000_0000 {
      EmptyPool(size);
    }
  }

  /** Exactly the requests whose sizes do not wrap get a pool they fit in. */
  lemma PoolFitsIffNoWrap(size: U32)
    ensures PoolFits(size) <==> NoWrap(size)
  {
    var need := PoolNeed(size);
    Rounded1024(Max(size + HDR + 4, INITIAL_SIZE));
    if size + HDR + 4 >= 0x1_0000_0000 {
      RequestBlocks(size);
      TinyPool(size);
    } else if need >= 0x1_0000_0000 {
      RequestBlocks(size);
      EmptyPool(size);
    } else {
      PlainPool(size);
    }
  }

  /** When neither wraps, the pool holds the request, and the mapping decides. */
  lemma PlainPool(size: U32)
    requires PoolNeed(size) < 0x1_0000_0000
    ensures PoolFits(size) <==> NoWrap(size)
  {
    var need := PoolNeed(size);
    Rounded1024(Max(size + HDR + 4, INITIAL_SIZE));
    assert PoolBytes(size) == need;
    WordsHold(size, need / 1024);
    MappedBytes(need);
  }

  lemma Rounded4Below(n: nat, k: nat)
    requires n <= 4 * k
    ensures RoundUp4(n) <= 4 * k
  {
  }

  lemma BlocksBelow(n: nat, k: nat)
    requires n <= 32 * k
    ensures SizeToBlocks(n) <= k
  {
  }

  /** Words for as many bytes as a request needs have blocks enough for it. */
  lemma WordsHold(size: nat, words: nat)
    requires size + HDR + 4 <= 1024 * words
    ensures BlocksFor(size) <= 32 * words
  {
    Rounded4Below(size + HDR + 4, 256 * words);
    BlocksBelow(AllocSize(size), 32 * words);
  }

  lemma RequestBlocks(size: nat)
    ensures size + HDR + 4 <= 32 * BlocksFor(size) < size + HDR + 4 + 36
  {
    Rounded4(size + HDR + 4);
    BlocksCover(AllocSize(size));
  }

  /** When adding the header wraps, the pool is the smallest one. */
  lemma TinyPool(size: U32)
    requires size + HDR + 4 >= 0x1_0000_0000
    ensures PoolBytes(size) == INITIAL_SIZE && PoolGeometry(size).0 == 8192
  {
    assert Wrap(Wrap(size + 4) + HDR) < 20;
  }

  /** When rounding up wraps, the pool has no blocks at all. */
  lemma EmptyPool(size: U32)
    requires size + HDR + 4 < 0x1_0000_0000 <= PoolNeed(size)
    ensures PoolBytes(size) == 0 && PoolGeometry(size).0 == 0
  {
    Rounded1024(Max(size + HDR + 4, INITIAL_SIZE));
    assert PoolNeed(size) == 0x1_0000_0000;
  }

  /** The bytes mapped for a pool, and whether that sum wraps. */
  lemma MappedBytes(need: U32)
    ensures need + 4 * (need / 1024) <= Wrap(need + 4 * (need / 1024)) <==> need + 4 * (need / 1024) < 0x1_0000_0000
  {
  }

  // ----- Several pools

  class Allocator {
    var pools: seq<Pool>    // mp[0] .. mp[nr_pools - 1]
    var lastPool: nat

    ghost predicate Valid()
      reads this, pools, set k | k in pools :: k.bitmap
    {
      && PoolsApart()
      && lastPool <= |pools| <= MAX_POOLS
      && forall k :: k in pools ==> k.Valid()
    }

    /** Distinct pools share neither memory nor address range. */
    ghost predicate PoolsApart()
      reads this`pools
    {
      forall i, j :: 0 <= i < |pools| && 0 <= j < |pools| && i != j ==>
        && pools[i] != pools[j] && pools[i].bitmap != pools[j].bitmap
        && Disjoint(pools[i], pools[j].base, Mapped(pools[j]))
    }

    static function Mapped(pool: Pool): nat {
      pool.nrBlocks * 1024 + 4 * pool.nrBlocks
    }

    static predicate Disjoint(pool: Pool, lo: nat, len: nat) {
      pool.base + Mapped(pool) <= lo || lo + len <= pool.base
    }

    constructor ()
      ensures Valid() && pools == [] && lastPool == 0
    {
      pools, lastPool := [], 0;
    }

    /** `mmap` when it works: a page-aligned range that no pool uses. */
    method Map(len: nat) returns (addr: nat)
      ensures addr % 4096 == 0 && forall k :: k in pools ==> Disjoint(k, addr, len)
    {
      ghost var top := AboveAll(pools);
      addr :| addr % 4096 == 0 && forall k :: k in pools ==> Disjoint(k, addr, len);
    }

    static lemma AboveAll(pools: seq<Pool>) returns (top: nat)
      ensures top % 4096 == 0 && forall k :: k in pools ==> k.base + Mapped(k) <= top
    {
      if pools == [] {
        top := 0;
      } else {
        var rest := AboveAll(pools[1..]);
        var end := pools[0].base + Mapped(pools[0]);
        top := rest + (end / 4096 + 1) * 4096;
      }
    }

    /**
      `add_pool`. Whether the mapping and the pool's lock can be made is up to the system; a mapping of no bytes never
      can.
     */
    method AddPool(size: U32, works: bool) returns (failed: bool)
      requires Valid() && |pools| < MAX_POOLS && BitmapInside(size)
      modifies this`pools
      ensures Valid() && failed == (!works || PoolGeometry(size).1 == 0)
      ensures failed ==> pools == old(pools)
      ensures !failed ==> |pools| == |old(pools)| + 1 && pools[..|old(pools)|] == old(pools)
      ensures !failed ==> fresh(pools[|old(pools)|]) && fresh(pools[|old(pools)|].bitmap)
      ensures !failed ==> pools[|old(pools)|].live == map[] && (NoWrap(size) ==> Sure(pools[|old(pools)|], size))
    {
      PoolFitsIffNoWrap(size);
      var (words, mapped) := PoolGeometry(size);
      if !works || mapped == 0 {
        return true;
      }
      var addr := Map(mapped);
      var pool := new Pool(addr, words);
      assert Mapped(pool) <= mapped;
      forall k | k in pools
        ensures Disjoint(k, pool.base, Mapped(pool)) && Disjoint(pool, k.base, Mapped(k))
        ensures k != pool && k.bitmap != pool.bitmap
      {
      }
      pools := pools + [pool];
      return false;
    }

    /** A pool that is certain to serve a request. */
    ghost predicate Sure(pool: Pool, size: nat)
      reads pool, pool.bitmap
    {
      pool.CannotMiss(BlocksFor(size))
    }

    /** Tries one pool; nothing changes in any other. */
    method TryPool(i: nat, size: nat) returns (ptr: Option<nat>, ghost p: nat)
      requires Valid() && i < |pools|
      modifies pools[i], pools[i].bitmap
      ensures Valid()
      ensures ptr == None ==> pools[i].live == old(pools[i].live) && !old(Sure(pools[i], size))
      ensures ptr.Some? ==> Granted(pools[i], old(pools[i].live), size, ptr.value, p)
      ensures ptr.Some? ==> BlocksFor(size) <= 32 * pools[i].nrBlocks
    {
      assert pools[i] in pools;
      ptr, p := pools[i].SmallocPool(size);
      forall k | k in pools ensures k.Valid() { }
    }

    /** Pool k has given out `size` bytes at ptr, on top of the allocations it had. */
    ghost predicate Granted(k: Pool, was: map<nat, nat>, size: nat, ptr: nat, p: nat)
      reads k
    {
      ptr == k.base + 32 * p + HDR && p !in was && k.live == was[p := size]
    }

    /** The inner loop of `smalloc`: the pools from `start` on, in order. */
    method TryFrom(start: nat, size: nat) returns (ptr: Option<nat>, i: nat, ghost p: nat)
      requires Valid()
      modifies pools, set k | k in pools :: k.bitmap
      ensures Valid() && start <= i <= Max(start, |pools|)
      ensures ptr.Some? ==> i < |pools| && Granted(pools[i], old(pools[i].live), size, ptr.value, p)
      ensures ptr.Some? ==> BlocksFor(size) <= 32 * pools[i].nrBlocks
      ensures ptr == None ==> i >= |pools| && forall j :: start <= j < |pools| ==> !old(Sure(pools[j], size))
      ensures forall j :: 0 <= j < |pools| && (ptr.Some? ==> j != i) ==> pools[j].live == old(pools[j].live)
    {
      i, ptr, p := start, None, 0;
      while i < |pools| && ptr == None
        invariant Valid() && start <= i && (i > |pools| ==> i == start)
        invariant forall j :: i <= j < |pools| ==> ptr == None ==> unchanged(pools[j]) && unchanged(pools[j].bitmap)
        invariant ptr.Some? ==> i < |pools| && Granted(pools[i], old(pools[i].live), size, ptr.value, p)
        invariant ptr.Some? ==> BlocksFor(size) <= 32 * pools[i].nrBlocks
        invariant forall j :: 0 <= j < |pools| && (ptr.Some? ==> j != i) ==> pools[j].live == old(pools[j].live)
        invariant forall j :: start <= j < i && j < |pools| ==> !old(Sure(pools[j], size))
        decreases |pools| - i, ptr == None
      {
        ptr, p := TryPool(i, size);
        if ptr == None {
          i := i + 1;
        }
      }
    }

    /** A request whose pool size wraps fits no pool at all. */
    lemma TooLarge(size: U32, pool: Pool)
      requires PoolNeed(size) >= 0x1_0000_0000 && pool.GeometryOk()
      ensures BlocksFor(size) > 32 * pool.nrBlocks
    {
      RequestBlocks(size);
      Rounded1024(Max(size + HDR + 4, INITIAL_SIZE));
    }

    /**
      `smalloc`, when the system makes `mappings` mappings before it refuses one. The search starts at the pool that
      served the last request and runs to the end; pools before it are not searched. When one pool can be added the
      request is met, unless the size of that pool wraps: then pools are added as long as that is possible, or none
      is, and the request is not met.
     */
    method Smalloc(size: nat, mappings: nat) returns (ptr: Option<nat>, ghost at: nat, ghost p: nat)
      requires Valid() && (size < 0x1_0000_0000 ==> BitmapInside(size))
      modifies this, pools, set k | k in pools :: k.bitmap
      ensures Valid()
      ensures |old(pools)| <= |pools| && pools[..|old(pools)|] == old(pools)
      ensures ptr.Some? ==> old(lastPool) <= at < |pools|
      ensures ptr.Some? ==> Granted(pools[at], old(LiveAt(at)), size, ptr.value, p)
      ensures forall j :: 0 <= j < |pools| && (ptr.Some? ==> j != at) ==> pools[j].live == old(LiveAt(j))
      ensures size >= 0x1_0000_0000 ==> ptr == None && pools == old(pools)
      ensures size < 0x1_0000_0000 ==> if NoWrap(size)
        then |pools| <= |old(pools)| + 1 && (mappings > 0 && |old(pools)| < MAX_POOLS ==> ptr.Some?)
        else ptr == None && |pools| == |old(pools)| + Useless(size, mappings, MAX_POOLS - |old(pools)|)
      ensures ptr == None && size < 0x1_0000_0000 ==> lastPool == 0
      ensures ptr == None && size < 0x1_0000_0000 ==>
        forall j :: old(lastPool) <= j < |old(pools)| ==> !old(SureAt(j, size))
    {
      ptr, at, p := None, 0, 0;
      if size >= 0x1_0000_0000 {
        return;
      }
      var i, more;
      ptr, more, i, p := Round(lastPool, size, mappings);
      at := i;
      if more {
        ptr, at, p := MoreRounds(i, size, if i < |pools| then mappings - 1 else mappings);
      }
    }

    /** The loop after its first round, which has been in vain: only new pools are tried. */
    method MoreRounds(start: nat, size: U32, mappings: nat) returns (ptr: Option<nat>, ghost at: nat, ghost p: nat)
      requires Valid() && BitmapInside(size) && lastPool == 0 && New(start, size)
      modifies this, pools, set k | k in pools :: k.bitmap
      ensures Valid() && |old(pools)| <= |pools| && pools[..|old(pools)|] == old(pools)
      ensures ptr.Some? ==> start <= at < |pools| && Granted(pools[at], old(LiveAt(at)), size, ptr.value, p)
      ensures forall j :: 0 <= j < |pools| && (ptr.Some? ==> j != at) ==> pools[j].live == old(LiveAt(j))
      ensures ptr == None ==> lastPool == 0
      ensures NoWrap(size) ==>
        if start < |old(pools)| then ptr.Some? && pools == old(pools)
        else if mappings > 0 && |old(pools)| < MAX_POOLS then ptr.Some? && |pools| == |old(pools)| + 1
        else ptr == None && pools == old(pools)
      ensures !NoWrap(size) ==>
        ptr == None && |pools| == |old(pools)| + Useless(size, mappings, MAX_POOLS - |old(pools)|)
    {
      ghost var grown := 0;
      var i: nat, left: nat, more := start, mappings, true;
      ptr, at, p := None, 0, 0;
      while more
        invariant Valid() && |pools| == |old(pools)| + grown && pools[..|old(pools)|] == old(pools)
        invariant forall j :: |old(pools)| <= j < |pools| ==> fresh(pools[j]) && fresh(pools[j].bitmap)
        invariant left == mappings - grown && i >= start
        invariant more ==> ptr == None && New(i, size) && (i < |pools| <==> start < |old(pools)| || grown > 0)
        invariant ptr == None ==> lastPool == 0
        invariant grown > 0 ==> if NoWrap(size) then grown == 1 && start >= |old(pools)| else Wraps(size)
        invariant !more && ptr == None ==> (|pools| == MAX_POOLS || left == 0 || !(NoWrap(size) || Wraps(size)))
        invariant !more && ptr == None && NoWrap(size) ==> grown == 0 && start >= |old(pools)|
        invariant ptr.Some? ==> NoWrap(size)
        invariant forall j :: 0 <= j < |pools| && (ptr.Some? ==> j != at) ==> pools[j].live == old(LiveAt(j))
        invariant ptr.Some? ==> start <= at < |pools| && Granted(pools[at], old(LiveAt(at)), size, ptr.value, p)
        decreases more, MAX_POOLS - |pools|
      {
        assert NoWrap(size) && i < |pools| ==> SureAt(i, size);
        ptr, more, i, p := Round(i, size, left);
        at := i;
        if more {
          left := left - 1;
          grown := grown + 1;
        }
      }
    }

    /** There is no pool i, or it is the last one, empty, and serves the request if its size does not wrap. */
    ghost predicate New(i: nat, size: U32)
      reads this`pools, pools, set k | k in pools :: k.bitmap
    {
      && i <= |pools|
      && (i < |pools| ==> i == |pools| - 1 && pools[i].live == map[] && (NoWrap(size) ==> Sure(pools[i], size)))
    }

    /** One round of the loop: a pass over the pools from i on, and what follows if it fails. */
    method Round(i: nat, size: U32, left: nat) returns (ptr: Option<nat>, more: bool, i': nat, ghost p: nat)
      requires Valid() && BitmapInside(size) && i <= |pools|
      modifies this, pools, set k | k in pools :: k.bitmap
      ensures Valid() && |old(pools)| <= |pools| && pools[..|old(pools)|] == old(pools) && i <= i'
      ensures ptr.Some? ==> !more && NoWrap(size) && i' < |old(pools)| == |pools|
      ensures ptr.Some? ==> Granted(pools[i'], old(LiveAt(i')), size, ptr.value, p)
      ensures ptr == None ==> lastPool == 0 && forall j :: i <= j < |old(pools)| ==> !old(SureAt(j, size))
      ensures forall j :: 0 <= j < |pools| && (ptr.Some? ==> j != i') ==> pools[j].live == old(LiveAt(j))
      ensures more && old(lastPool) != 0 ==> pools == old(pools) && i' == |pools|
      ensures more && old(lastPool) == 0 ==> |pools| == |old(pools)| + 1 && i' == |old(pools)| && left > 0
      ensures more && old(lastPool) == 0 ==> NoWrap(size) || Wraps(size)
      ensures more && old(lastPool) == 0 ==> fresh(pools[i']) && fresh(pools[i'].bitmap)
      ensures more ==> New(i', size)
      ensures !more ==> pools == old(pools)
      ensures !more && ptr == None ==> |pools| == MAX_POOLS || left == 0 || !(NoWrap(size) || Wraps(size))
    {
      ptr, i', p := Pass(i, size);
      more := false;
      if ptr.Some? {
        return;
      }
      if lastPool != 0 {
        lastPool := 0;
        more := true;
        return;
      }
      if |pools| + 1 > MAX_POOLS {
        return;
      }
      more := Grow(size, left);
    }

    /** The pass; what it finds is remembered. */
    method Pass(i: nat, size: U32) returns (ptr: Option<nat>, i': nat, ghost p: nat)
      requires Valid() && BitmapInside(size) && i <= |pools|
      modifies this`lastPool, pools, set k | k in pools :: k.bitmap
      ensures Valid() && i <= i' <= |pools|
      ensures ptr.Some? ==> NoWrap(size) && i' < |pools| && lastPool == i'
      ensures ptr.Some? ==> Granted(pools[i'], old(LiveAt(i')), size, ptr.value, p)
      ensures ptr == None ==> lastPool == old(lastPool) && i' == |pools|
      ensures ptr == None ==> forall j :: i <= j < |pools| ==> !old(SureAt(j, size))
      ensures forall j :: 0 <= j < |pools| && (ptr.Some? ==> j != i') ==> pools[j].live == old(LiveAt(j))
    {
      ptr, i', p := TryFrom(i, size);
      if ptr.Some? {
        assert pools[i'] in pools && pools[i'].Valid();
        BitmapInsideIff(size);
        if !NoWrap(size) { TooLarge(size, pools[i']); }
        lastPool := i';
      }
    }

    /** A new pool, if one can be had. */
    method Grow(size: U32, left: nat) returns (grown: bool)
      requires Valid() && BitmapInside(size) && |pools| < MAX_POOLS
      modifies this`pools
      ensures Valid() && grown == (left > 0 && (NoWrap(size) || Wraps(size)))
      ensures !grown ==> pools == old(pools)
      ensures grown ==> |pools| == |old(pools)| + 1 && pools[..|old(pools)|] == old(pools) && New(|old(pools)|, size)
      ensures grown ==> fresh(pools[|old(pools)|]) && fresh(pools[|old(pools)|].bitmap)
    {
      MappedIff(size);
      var failed := AddPool(size, left > 0);
      grown := !failed;
    }

    ghost predicate SureAt(j: nat, size: nat)
      reads this`pools, pools, set k | k in pools :: k.bitmap
    {
      j < |pools| && Sure(pools[j], size)
    }

    /** The live allocations of pool j, or none if there is no such pool. */
    ghost function LiveAt(j: nat): map<nat, nat>
      reads this`pools, pools
    {
      if j < |pools| then pools[j].live else map[]
    }

    /** `sfree` of a null pointer or a live allocation: the search by address finds the pool it came from. */
    method Sfree(ptr: nat, ghost at: nat, ghost p: nat)
      requires Valid()
      requires ptr != 0 ==> at < |pools| && p in pools[at].live && ptr == pools[at].base + 32 * p + HDR
      modifies pools, set k | k in pools :: k.bitmap
      ensures Valid()
      ensures ptr != 0 ==> pools[at].live == old(pools[at].live) - {p}
      ensures forall j :: 0 <= j < |pools| && (ptr != 0 ==> j != at) ==> pools[j].live == old(pools[j].live)
    {
      if ptr == 0 {
        return;
      }
      assert pools[at] in pools && p in pools[at].runs;
      pools[at].LivePtrValid(p);
      var i: nat := 0;
      while !pools[i].PtrValid(ptr)
        invariant i <= at
        decreases at - i
      {
        i := i + 1;
      }
      assert pools[i] in pools;
      OnlyOne(i, at, ptr);
      Release(i, ptr, p);
    }

    /** No address is in two pools. */
    lemma OnlyOne(i: nat, j: nat, ptr: nat)
      requires PoolsApart() && i < |pools| && j < |pools|
      requires pools[i].GeometryOk() && pools[j].GeometryOk()
      ensures i == j || !pools[i].PtrValid(ptr) || !pools[j].PtrValid(ptr)
    {
      assert i == j || Disjoint(pools[i], pools[j].base, Mapped(pools[j]));
      ModSmall(pools[i].nrBlocks * 1024);
      ModSmall(pools[j].nrBlocks * 1024);
    }

    /** Frees in one pool; nothing changes in any other. */
    method Release(i: nat, ptr: nat, ghost p: nat)
      requires Valid() && i < |pools| && p in pools[i].live && ptr == pools[i].base + 32 * p + HDR
      modifies pools[i], pools[i].bitmap
      ensures Valid() && pools[i].live == old(pools[i].live) - {p}
    {
      assert pools[i] in pools;
      pools[i].SfreePool(ptr, p);
      forall k | k in pools ensures k.Valid() { }
    }
  }
}
