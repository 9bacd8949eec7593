/**
  The hash functions of `hash.h`: multiplication by a golden-ratio prime done with shifts and additions, and the
  mixing steps of Bob Jenkins' jhash.
 */
module Hash {
  import opened Bits

  // ----- Multiplicative hashing

  lemma Wrap64Of(q: int, r: U64)
    ensures Wrap64(0x1_0000_0000_0000_0000 * q + r) == r
  {
  }

  lemma WrapMul(a: int, b: int)
    ensures Wrap64(Wrap64(a) * b) == Wrap64(a * b)
  {
    var q := a / 0x1_0000_0000_0000_0000;
    WrapShift(Wrap64(a) * b, q * b);
    Spread(q, Wrap64(a), b);
  }

  lemma Spread(q: int, r: int, b: int)
    ensures (0x1_0000_0000_0000_0000 * q + r) * b == r * b + 0x1_0000_0000_0000_0000 * (q * b)
  {
  }

  lemma WrapShift(x: int, q: int)
    ensures Wrap64(x + 0x1_0000_0000_0000_0000 * q) == Wrap64(x)
  {
    var p := x / 0x1_0000_0000_0000_0000;
    Wrap64Of(p + q, Wrap64(x));
  }

  lemma WrapAdd(a: int, b: int)
    ensures Wrap64(Wrap64(a) + Wrap64(b)) == Wrap64(a + b)
    ensures Wrap64(Wrap64(a) - Wrap64(b)) == Wrap64(a - b)
  {
    var p, q := a / 0x1_0000_0000_0000_0000, b / 0x1_0000_0000_0000_0000;
    WrapShift(Wrap64(a) + Wrap64(b), p + q);
    WrapShift(Wrap64(a) - Wrap64(b), p - q);
  }

  lemma ShiftMultiple(v: int, k: int, m: int)
    ensures Wrap64(Wrap64(v * k) * m) == Wrap64(v * (k * m))
  {
    WrapMul(v * k, m);
    Regroup(v, k, m);
  }

  lemma Regroup(v: int, k: int, m: int)
    ensures v * k * m == v * (k * m)
  {
  }

  lemma AddMultiple(v: int, h: int, k: int)
    ensures Wrap64(Wrap64(v * h) + Wrap64(v * k)) == Wrap64(v * (h + k))
    ensures Wrap64(Wrap64(v * h) - Wrap64(v * k)) == Wrap64(v * (h - k))
  {
    WrapAdd(v * h, v * k);
    assert v * h + v * k == v * (h + k) && v * h - v * k == v * (h - k);
  }

  /** `n <<= k; hash -= n`, when both are known multiples of the same value. */
  method ShiftSub(hash: U64, n: U64, m: nat, ghost v: U64, ghost h: int, ghost k: int) returns (hash': U64, n': U64)
    requires hash == Wrap64(v * h) && n == Wrap64(v * k)
    ensures n' == Wrap64(v * (k * m)) && hash' == Wrap64(v * (h - k * m))
  {
    ShiftMultiple(v, k, m);
    n' := Wrap64(n * m);
    AddMultiple(v, h, k * m);
    hash' := Wrap64(hash - n');
  }

  /** `n <<= k; hash += n`. */
  method ShiftAdd(hash: U64, n: U64, m: nat, ghost v: U64, ghost h: int, ghost k: int) returns (hash': U64, n': U64)
    requires hash == Wrap64(v * h) && n == Wrap64(v * k)
    ensures n' == Wrap64(v * (k * m)) && hash' == Wrap64(v * (h + k * m))
  {
    ShiftMultiple(v, k, m);
    n' := Wrap64(n * m);
    AddMultiple(v, h, k * m);
    hash' := Wrap64(hash + n');
  }

  /** `__hash_u64`. */
  function HashU64(val: U64): U64 {
    Wrap64(val * 0x9e37fffffffc0001)
  }

  /** `__hash_long`: shifts by 18, 33, 3, 3, 4 and 2 places instead of a multiplication. */
  method HashLong(val: U64) returns (hash: U64)
    ensures hash == HashU64(val)
  {
    hash := val;
    var n := hash;
    assert val == Wrap64(val * 1);
    hash, n := ShiftSub(hash, n, 0x4_0000, val, 1, 1);
    hash, n := ShiftSub(hash, n, 0x2_0000_0000, val, 1 - 0x4_0000, 0x4_0000);
    hash, n := ShiftAdd(hash, n, 8, val, 1 - 0x4_0000 - 0x8_0000_0000_0000, 0x8_0000_0000_0000);
    hash, n := ShiftSub(hash, n, 8, val, 1 - 0x4_0000 - 0x8_0000_0000_0000 + 0x40_0000_0000_0000, 0x40_0000_0000_0000);
    hash, n := ShiftAdd(hash, n, 16, val,
      1 - 0x4_0000 - 0x8_0000_0000_0000 + 0x40_0000_0000_0000 - 0x200_0000_0000_0000, 0x200_0000_0000_0000);
    hash, n := ShiftAdd(hash, n, 4, val,
      1 - 0x4_0000 - 0x8_0000_0000_0000 + 0x40_0000_0000_0000 - 0x200_0000_0000_0000 + 0x2000_0000_0000_0000,
      0x2000_0000_0000_0000);
  }

  /** Undoes the multiplication: the factor is the inverse of the prime modulo 2^64. */
  function Unhash(h: U64): U64 {
    Wrap64(h * 0x6208001000040001)
  }

  /** The multiplication loses nothing: every value is found again, so no two values share a hash. */
  lemma HashIsReversible(val: U64)
    ensures Unhash(HashU64(val)) == val && HashU64(Unhash(val)) == val
  {
    ShiftMultiple(val, 0x9e37fffffffc0001, 0x6208001000040001);
    ShiftMultiple(val, 0x6208001000040001, 0x9e37fffffffc0001);
    assert 0x9e37fffffffc0001 * 0x6208001000040001 == 1 + 0x1_0000_0000_0000_0000 * 4365784408515473601;
    Spread(4365784408515473601, 1, val);
    WrapShift(val, 4365784408515473601 * val);
  }

  /** `hash_long`: the top bits of the product, for any width the shift allows. */
  function HashBits(val: U64, bits: nat): (h: nat)
    requires 1 <= bits <= 64
    ensures h < Pow2(bits)
  {
    Pow2At64();
    ShrBound(HashU64(val), 64, 64 - bits);
    Shr(HashU64(val), 64 - bits)
  }

  lemma {:induction false} ShrBound(x: nat, n: nat, k: nat)
    requires x < Pow2(n) && k <= n
    ensures Shr(x, k) < Pow2(n - k)
  {
    if k > 0 { ShrBound(x / 2, n - 1, k - 1); }
  }

  lemma {:induction false} Pow2At64()
    ensures Pow2(64) == 0x1_0000_0000_0000_0000
  {
    Pow2At32();
    assert Pow2(36) == 0x10_0000_0000;
    assert Pow2(40) == 0x100_0000_0000;
    assert Pow2(44) == 0x1000_0000_0000;
    assert Pow2(48) == 0x1_0000_0000_0000;
    assert Pow2(52) == 0x10_0000_0000_0000;
    assert Pow2(56) == 0x100_0000_0000_0000;
    assert Pow2(60) == 0x1000_0000_0000_0000;
  }

  // ----- jhash

  function Sub32(a: U32, b: U32): U32 {
    (a - b) % 0x1_0000_0000
  }

  function Add32(a: U32, b: int): U32 {
    (a + b) % 0x1_0000_0000
  }

  function Xor32(a: U32, b: U32): U32 {
    Pow2At32();
    BitwiseRange(XOR, a, b, 32);
    Xor(a, b)
  }

  function Rol32(word: U32, shift: nat): U32
    requires shift <= 32
  {
    Pow2At32();
    BitwiseRange(OR, Shl(word, shift), Shr(word, 32 - shift), 32);
    Or(Shl(word, shift), Shr(word, 32 - shift))
  }

  lemma XorTwice(x: U32, r: U32)
    ensures Xor32(Xor32(x, r), r) == x
  {
    forall j: nat ensures Bit(Xor(Xor(x, r), r), j) == Bit(x, j) {
      BitwiseAt(XOR, x, r, j);
      BitwiseAt(XOR, Xor(x, r), r, j);
    }
    SameBits(Xor(Xor(x, r), r), x);
  }

  lemma AddSub(a: U32, b: U32)
    ensures Sub32(Add32(a, b), b) == a && Add32(Sub32(a, b), b) == a
  {
  }

  datatype Triple = Triple(a: U32, b: U32, c: U32)

  /** One line of the mix: `x -= z; x ^= rol32(z, s); z += y`. Gives x and z. */
  function MixLine(x: U32, y: U32, z: U32, s: nat): (U32, U32)
    requires s <= 32
  {
    (Xor32(Sub32(x, z), Rol32(z, s)), Add32(z, y))
  }

  function UnmixLine(x: U32, y: U32, z: U32, s: nat): (U32, U32)
    requires s <= 32
  {
    var z0 := Sub32(z, y);
    (Add32(Xor32(x, Rol32(z0, s)), z0), z0)
  }

  lemma MixLineReversible(x: U32, y: U32, z: U32, s: nat)
    requires s <= 32
    ensures var (x', z') := MixLine(x, y, z, s); UnmixLine(x', y, z', s) == (x, z)
    ensures var (x', z') := UnmixLine(x, y, z, s); MixLine(x', y, z', s) == (x, z)
  {
    AddSub(z, y);
    XorTwice(Sub32(x, z), Rol32(z, s));
    AddSub(x, z);
    var z0 := Sub32(z, y);
    AddSub(Xor32(x, Rol32(z0, s)), z0);
    XorTwice(x, Rol32(z0, s));
  }

  /** Three lines, in which each word takes each part once. */
  function MixRound(t: Triple, r: nat, s: nat, u: nat): Triple
    requires r <= 32 && s <= 32 && u <= 32
  {
    var (a, c) := MixLine(t.a, t.b, t.c, r);
    var (b, a') := MixLine(t.b, c, a, s);
    var (c', b') := MixLine(c, a', b, u);
    Triple(a', b', c')
  }

  function UnmixRound(t: Triple, r: nat, s: nat, u: nat): Triple
    requires r <= 32 && s <= 32 && u <= 32
  {
    var (c, b) := UnmixLine(t.c, t.a, t.b, u);
    var (b0, a) := UnmixLine(b, c, t.a, s);
    var (a0, c0) := UnmixLine(a, b0, c, r);
    Triple(a0, b0, c0)
  }

  lemma MixRoundReversible(t: Triple, r: nat, s: nat, u: nat)
    requires r <= 32 && s <= 32 && u <= 32
    ensures UnmixRound(MixRound(t, r, s, u), r, s, u) == t
    ensures MixRound(UnmixRound(t, r, s, u), r, s, u) == t
  {
    MixBack(t, r, s, u);
    MixForth(t, r, s, u);
  }

  lemma MixBack(t: Triple, r: nat, s: nat, u: nat)
    requires r <= 32 && s <= 32 && u <= 32
    ensures UnmixRound(MixRound(t, r, s, u), r, s, u) == t
  {
    var (a, c) := MixLine(t.a, t.b, t.c, r);
    var (b, a') := MixLine(t.b, c, a, s);
    MixLineReversible(t.a, t.b, t.c, r);
    MixLineReversible(t.b, c, a, s);
    MixLineReversible(c, a', b, u);
  }

  lemma MixForth(t: Triple, r: nat, s: nat, u: nat)
    requires r <= 32 && s <= 32 && u <= 32
    ensures MixRound(UnmixRound(t, r, s, u), r, s, u) == t
  {
    var (c, b) := UnmixLine(t.c, t.a, t.b, u);
    var (b0, a) := UnmixLine(b, c, t.a, s);
    MixLineReversible(t.c, t.a, t.b, u);
    MixLineReversible(b, c, t.a, s);
    MixLineReversible(a, b0, c, r);
  }

  /** `__jhash_mix`. */
  function Mix(t: Triple): Triple {
    MixRound(MixRound(t, 4, 6, 8), 16, 19, 4)
  }

  function Unmix(t: Triple): Triple {
    UnmixRound(UnmixRound(t, 16, 19, 4), 4, 6, 8)
  }

  /** "Mix 3 32-bit values reversibly": the mix is a bijection, with this inverse. */
  lemma MixIsReversible(t: Triple)
    ensures Unmix(Mix(t)) == t && Mix(Unmix(t)) == t
  {
    MixRoundReversible(t, 4, 6, 8);
    MixRoundReversible(MixRound(t, 4, 6, 8), 16, 19, 4);
    MixRoundReversible(t, 16, 19, 4);
    MixRoundReversible(UnmixRound(t, 16, 19, 4), 4, 6, 8);
  }

  /** One line of the final mixing: `x ^= y; x -= rol32(y, s)`. */
  function FinalLine(x: U32, y: U32, s: nat): U32
    requires s <= 32
  {
    Sub32(Xor32(x, y), Rol32(y, s))
  }

  function UnfinalLine(x: U32, y: U32, s: nat): U32
    requires s <= 32
  {
    Xor32(Add32(x, Rol32(y, s)), y)
  }

  lemma FinalLineReversible(x: U32, y: U32, s: nat)
    requires s <= 32
    ensures UnfinalLine(FinalLine(x, y, s), y, s) == x && FinalLine(UnfinalLine(x, y, s), y, s) == x
  {
    AddSub(Xor32(x, y), Rol32(y, s));
    XorTwice(x, y);
    XorTwice(Add32(x, Rol32(y, s)), y);
    AddSub(x, Rol32(y, s));
  }

  function FinalRound(t: Triple, r: nat, s: nat, u: nat): Triple
    requires r <= 32 && s <= 32 && u <= 32
  {
    var c := FinalLine(t.c, t.b, r);
    var a := FinalLine(t.a, c, s);
    Triple(a, FinalLine(t.b, a, u), c)
  }

  function UnfinalRound(t: Triple, r: nat, s: nat, u: nat): Triple
    requires r <= 32 && s <= 32 && u <= 32
  {
    var b := UnfinalLine(t.b, t.a, u);
    Triple(UnfinalLine(t.a, t.c, s), b, UnfinalLine(t.c, b, r))
  }

  lemma FinalRoundReversible(t: Triple, r: nat, s: nat, u: nat)
    requires r <= 32 && s <= 32 && u <= 32
    ensures UnfinalRound(FinalRound(t, r, s, u), r, s, u) == t
    ensures FinalRound(UnfinalRound(t, r, s, u), r, s, u) == t
  {
    var c := FinalLine(t.c, t.b, r);
    var a := FinalLine(t.a, c, s);
    FinalLineReversible(t.c, t.b, r);
    FinalLineReversible(t.a, c, s);
    FinalLineReversible(t.b, a, u);
    var b := UnfinalLine(t.b, t.a, u);
    FinalLineReversible(t.b, t.a, u);
    FinalLineReversible(t.a, t.c, s);
    FinalLineReversible(t.c, b, r);
  }

  /** `__jhash_final`. */
  function Final(t: Triple): Triple {
    var t2 := FinalRound(FinalRound(t, 14, 11, 25), 16, 4, 14);
    t2.(c := FinalLine(t2.c, t2.b, 24))
  }

  function Unfinal(t: Triple): Triple {
    var t2 := t.(c := UnfinalLine(t.c, t.b, 24));
    UnfinalRound(UnfinalRound(t2, 16, 4, 14), 14, 11, 25)
  }

  lemma FinalIsReversible(t: Triple)
    ensures Unfinal(Final(t)) == t && Final(Unfinal(t)) == t
  {
    var t1 := FinalRound(t, 14, 11, 25);
    var t2 := FinalRound(t1, 16, 4, 14);
    FinalRoundReversible(t, 14, 11, 25);
    FinalRoundReversible(t1, 16, 4, 14);
    FinalLineReversible(t2.c, t2.b, 24);
    var t3 := t.(c := UnfinalLine(t.c, t.b, 24));
    FinalLineReversible(t.c, t.b, 24);
    FinalRoundReversible(t3, 16, 4, 14);
    FinalRoundReversible(UnfinalRound(t3, 16, 4, 14), 14, 11, 25);
  }

  // ----- Hashing a key

  type Byte = x: int | 0 <= x < 256

  function ByteAt(k: seq<Byte>, i: nat): nat {
    if i < |k| then k[i] else 0
  }

  /** Up to four bytes from position i on, the first one lowest. */
  function Part(k: seq<Byte>, i: nat): U32 {
    ByteAt(k, i) + 0x100 * ByteAt(k, i + 1) + 0x1_0000 * ByteAt(k, i + 2) + 0x100_0000 * ByteAt(k, i + 3)
  }

  /** The last block: all of its bytes count. */
  function LastBlock(t: Triple, k: seq<Byte>): U32
    requires |k| <= 12
  {
    if k == [] then t.c
    else Final(Absorb(t, k)).c
  }

  function Absorb(t: Triple, k: seq<Byte>): Triple {
    Triple(Add32(t.a, Part(k, 0)), Add32(t.b, Part(k, 4)), Add32(t.c, Part(k, 8)))
  }

  /** Of every block before the last one, only three bytes count. */
  function MixBlock(t: Triple, k: seq<Byte>): Triple
    requires |k| > 12
  {
    Mix(Triple(Add32(t.a, k[0]), Add32(t.b, k[4]), Add32(t.c, k[8])))
  }

  function HashBlocks(t: Triple, k: seq<Byte>): U32
    decreases |k|
  {
    if |k| > 12 then HashBlocks(MixBlock(t, k), k[12..]) else LastBlock(t, k)
  }

  function StartTriple(length: nat, initval: U32): Triple {
    var x := (0xfffc_0001 + length + initval) % 0x1_0000_0000;
    Triple(x, x, x)
  }

  /** `jhash`. */
  method Jhash(key: seq<Byte>, initval: U32) returns (h: U32)
    ensures h == HashBlocks(StartTriple(|key|, initval), key)
  {
    var t, k := StartTriple(|key|, initval), key;
    while |k| > 12
      invariant HashBlocks(t, k) == HashBlocks(StartTriple(|key|, initval), key)
    {
      t := MixBlock(t, k);
      k := k[12..];
    }
    h := LastBlock(t, k);
  }

  lemma NextBlock(t: Triple, k: seq<Byte>, k': seq<Byte>)
    requires |k| > 12 && |k'| > 12 && k[0] == k'[0] && k[4] == k'[4] && k[8] == k'[8]
    requires HashBlocks(MixBlock(t, k), k[12..]) == HashBlocks(MixBlock(t, k), k'[12..])
    ensures HashBlocks(t, k) == HashBlocks(t, k')
  {
  }

  /** Of the blocks before the last one most bytes do not count: changing one of them does not change the hash. */
  lemma {:induction false} SkippedByte(key: seq<Byte>, block: nat, i: nat, b: Byte, t: Triple)
    requires i < 12 && i != 0 && i != 4 && i != 8 && 12 * block + 12 < |key|
    ensures HashBlocks(t, key[12 * block + i := b]) == HashBlocks(t, key)
    decreases block
  {
    var changed := key[12 * block + i := b];
    RestChanged(key, block, i, b);
    if block > 0 {
      SkippedByte(key[12..], block - 1, i, b, MixBlock(t, key));
    }
    NextBlock(t, key, changed);
  }

  lemma RestChanged(key: seq<Byte>, block: nat, i: nat, b: Byte)
    requires i < 12 && 12 * block + 12 < |key|
    ensures key[12 * block + i := b][12..] == if block == 0 then key[12..] else key[12..][12 * (block - 1) + i := b]
  {
  }

  lemma PartsCount(k: seq<Byte>, k': seq<Byte>, i: nat)
    requires |k| == |k'| && Part(k, i) == Part(k', i)
    ensures forall j :: i <= j < i + 4 && j < |k| ==> k[j] == k'[j]
  {
    assert ByteAt(k, i + 3) == ByteAt(k', i + 3);
    assert ByteAt(k, i + 2) == ByteAt(k', i + 2);
    assert ByteAt(k, i + 1) == ByteAt(k', i + 1);
    assert ByteAt(k, i) == ByteAt(k', i);
  }

  /** Of the last block every byte counts: keys that differ there leave different words behind. */
  lemma LastBytesCount(t: Triple, k: seq<Byte>, k': seq<Byte>)
    requires |k| == |k'| <= 12
    ensures Final(Absorb(t, k)) == Final(Absorb(t, k')) <==> k == k'
  {
    if Final(Absorb(t, k)) == Final(Absorb(t, k')) {
      FinalIsReversible(Absorb(t, k));
      FinalIsReversible(Absorb(t, k'));
      AddedApart(t.a, Part(k, 0), Part(k', 0));
      AddedApart(t.b, Part(k, 4), Part(k', 4));
      AddedApart(t.c, Part(k, 8), Part(k', 8));
      PartsCount(k, k', 0);
      PartsCount(k, k', 4);
      PartsCount(k, k', 8);
    }
  }

  lemma AddedApart(x: U32, p: U32, q: U32)
    ensures Add32(x, p) == Add32(x, q) ==> p == q
  {
  }
}
