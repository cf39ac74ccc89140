/** MurmurHash2-64A, the hash every cluster routes by. */
module Murmur {
  import opened Words

  const M: U64 := 0xc6a4_a793_5bd1_e995
  // The inverse of M modulo 2^64: M is odd, so multiplying by it loses nothing.
  const M_INVERSE: U64 := 0x5f7a_0ea7_e59b_19bd
  const R: nat := 47

  // ---- Bitwise operations on naturals ----

  function Xor(a: nat, b: nat): nat
    decreases a + b
  {
    if a == 0 then b
    else if b == 0 then a
    else (a + b) % 2 + 2 * Xor(a / 2, b / 2)
  }

  function Or(a: nat, b: nat): nat
    decreases a + b
  {
    if a == 0 then b
    else if b == 0 then a
    else (if a % 2 == 0 && b % 2 == 0 then 0 else 1) + 2 * Or(a / 2, b / 2)
  }

  lemma LowBit(bit: nat, rest: nat)
    requires bit < 2
    ensures (bit + 2 * rest) % 2 == bit && (bit + 2 * rest) / 2 == rest
  {
  }

  /** Xor bit by bit: the lowest bit, and the rest. */
  lemma {:induction false} XorBits(a: nat, b: nat)
    ensures Xor(a, b) % 2 == (a + b) % 2
    ensures Xor(a, b) / 2 == Xor(a / 2, b / 2)
  {
    if a != 0 && b != 0 {
      LowBit((a + b) % 2, Xor(a / 2, b / 2));
    }
  }

  lemma Parity(a: nat, b: nat)
    ensures ((a + b) % 2 + b) % 2 == a % 2
  {
  }

  lemma ParitySum(x: nat, b: nat)
    ensures (x + b) % 2 == (x % 2 + b) % 2
  {
  }

  lemma {:induction false} XorUndoes(a: nat, b: nat)
    ensures Xor(Xor(a, b), b) == a
    decreases a + b
  {
    if a + b != 0 {
      var x := Xor(a, b);
      XorBits(a, b);
      XorBits(x, b);
      XorUndoes(a / 2, b / 2);
      Parity(a, b);
      ParitySum(x, b);
    }
  }

  lemma {:induction false} XorBelow(a: nat, b: nat, n: nat)
    requires a < Pow2(n) && b < Pow2(n)
    ensures Xor(a, b) < Pow2(n)
    decreases n
  {
    if a != 0 && b != 0 {
      XorBelow(a / 2, b / 2, n - 1);
    }
  }

  /** `x >> n`. */
  function Shr(x: nat, n: nat): (r: nat)
    ensures r <= x
  {
    if n == 0 then x else Shr(x / 2, n - 1)
  }

  /** `x << n` before it is cut to a word. */
  function Shl(x: nat, n: nat): nat {
    if n == 0 then x else 2 * Shl(x, n - 1)
  }

  lemma {:induction false} XorShifts(a: nat, b: nat, n: nat)
    ensures Shr(Xor(a, b), n) == Xor(Shr(a, n), Shr(b, n))
    decreases n
  {
    if n != 0 {
      XorBits(a, b);
      XorShifts(a / 2, b / 2, n - 1);
    }
  }

  lemma {:induction false} ShrBelow(x: nat, n: nat, k: nat)
    requires x < Pow2(n)
    ensures Shr(x, k) < Pow2(if n >= k then n - k else 0)
    decreases k
  {
    if k != 0 {
      if n == 0 {
      } else {
        ShrBelow(x / 2, n - 1, k - 1);
      }
    }
  }

  /** Bits that do not overlap combine by addition. */
  lemma {:induction false} OrDisjoint(a: nat, b: nat, n: nat)
    requires a < Pow2(n)
    ensures Or(a, Shl(b, n)) == a + Shl(b, n)
    decreases n
  {
    if n != 0 {
      OrDisjoint(a / 2, b, n - 1);
    }
  }

  lemma DivUnique(a: int, d: int, q: int, r: int)
    requires d > 0 && a == d * q + r && 0 <= r < d
    ensures a / d == q && a % d == r
  {
    var k := a / d - q;
    assert k == 0 by {
      assert k >= 1 ==> d * k >= d;
      assert k <= -1 ==> d * k <= -d;
    }
  }

  // ---- The hash ----

  function XorWord(a: U64, b: U64): (r: U64)
    ensures r == Xor(a, b)
  {
    Pow2Of64();
    XorBelow(a, b, 64);
    Xor(a, b)
  }

  function WrappingMul(a: U64, b: U64): U64 {
    (a * b) % U64_SIZE
  }

  /** `x ^= x >> R`. */
  function XorShift(x: U64): U64 {
    XorWord(x, Shr(x, R))
  }

  /** `u64::from_le_bytes`, on up to eight bytes. */
  function LittleEndian(b: seq<Byte>): (r: U64)
    ensures |b| <= 8 ==> r == LittleEndianSum(b)
  {
    LittleEndianBelow(b);
    LittleEndianSum(b) % U64_SIZE
  }

  function LittleEndianSum(b: seq<Byte>): nat {
    if b == [] then 0 else b[0] + 0x100 * LittleEndianSum(b[1..])
  }

  lemma ShlByte(x: nat, n: nat)
    ensures Shl(x, n + 8) == 0x100 * Shl(x, n)
  {
    assert Shl(x, n + 8) == 2 * Shl(x, n + 7) == 4 * Shl(x, n + 6) == 8 * Shl(x, n + 5) == 16 * Shl(x, n + 4);
    assert Shl(x, n + 4) == 2 * Shl(x, n + 3) == 4 * Shl(x, n + 2) == 8 * Shl(x, n + 1) == 16 * Shl(x, n);
  }

  lemma {:induction false} LittleEndianBelow(b: seq<Byte>)
    ensures LittleEndianSum(b) < Pow2(8 * |b|)
    ensures |b| <= 8 ==> LittleEndianSum(b) < U64_SIZE
  {
    if b != [] {
      LittleEndianBelow(b[1..]);
      Pow2Byte(8 * |b[1..]|);
    }
    if |b| <= 8 {
      Pow2Of64();
      Pow2Monotone(8 * |b|, 64);
    }
  }

  function MixBlock(k: U64): U64 {
    WrappingMul(XorShift(WrappingMul(k, M)), M)
  }

  function Absorb(h: U64, k: U64): U64 {
    WrappingMul(XorWord(h, k), M)
  }

  /** A step that takes some bytes into the state. */
  type Mixer = (U64, seq<Byte>) -> U64

  /** Runs a key through `block`, eight bytes at a time, and what is left through `tail`. */
  function Chunked(block: Mixer, tail: Mixer, h: U64, key: seq<Byte>): U64
    decreases |key|
  {
    if |key| >= 8 then Chunked(block, tail, block(h, key[..8]), key[8..])
    else if key == [] then h
    else tail(h, key)
  }

  function AbsorbBlock(h: U64, b: seq<Byte>): U64 {
    Absorb(h, MixBlock(LittleEndian(b)))
  }

  function AbsorbTail(h: U64, b: seq<Byte>): U64 {
    Absorb(h, LittleEndian(b))
  }

  /** The state after the whole key. */
  function AbsorbAll(h: U64, key: seq<Byte>): U64 {
    Chunked(AbsorbBlock, AbsorbTail, h, key)
  }

  function Start(length: nat, seed: U64): U64 {
    XorWord(seed, WrappingMul(length % U64_SIZE, M))
  }

  function Finish(h: U64): U64 {
    XorShift(WrappingMul(XorShift(h), M))
  }

  function StateAfter(key: seq<Byte>, seed: U64): U64 {
    AbsorbAll(Start(|key|, seed), key)
  }

  function Hash64A(key: seq<Byte>, seed: U64): U64 {
    Finish(StateAfter(key, seed))
  }

  // ---- Every step can be undone ----

  lemma MulUndoes(x: U64)
    ensures WrappingMul(WrappingMul(x, M), M_INVERSE) == x
  {
    var q := x * M / U64_SIZE;
    var r := x * M % U64_SIZE;
    var t := (M * M_INVERSE - 1) / U64_SIZE;
    assert M * M_INVERSE == t * U64_SIZE + 1;
    var p := x * t - q * M_INVERSE;
    DivUnique(r * M_INVERSE, U64_SIZE, p, x);
  }

  lemma MulInjective(x: U64, y: U64)
    ensures WrappingMul(x, M) == WrappingMul(y, M) ==> x == y
  {
    MulUndoes(x);
    MulUndoes(y);
  }

  lemma XorShiftUndoes(x: U64)
    ensures XorShift(XorShift(x)) == x
  {
    var s := Shr(x, R);
    Pow2Of64();
    ShrBelow(x, 64, R);
    ShrBelow(s, 17, R);
    XorShifts(x, s, R);
    XorUndoes(x, s);
  }

  lemma XorShiftInjective(x: U64, y: U64)
    ensures XorShift(x) == XorShift(y) ==> x == y
  {
    XorShiftUndoes(x);
    XorShiftUndoes(y);
  }

  lemma {:induction false} XorCommutes(a: nat, b: nat)
    ensures Xor(a, b) == Xor(b, a)
    decreases a + b
  {
    if a != 0 && b != 0 {
      XorCommutes(a / 2, b / 2);
    }
  }

  /** A step is injective in the state for a fixed block, and in the block for a fixed state. */
  lemma AbsorbInjective(h: U64, k: U64, h': U64, k': U64)
    requires Absorb(h, k) == Absorb(h', k')
    ensures h == h' <==> k == k'
  {
    MulInjective(XorWord(h, k), XorWord(h', k'));
    XorUndoes(h, k);
    XorUndoes(h', k');
    XorCommutes(h, k);
    XorCommutes(h', k');
    XorUndoes(k, h);
    XorUndoes(k', h');
  }

  lemma MixInjective(k: U64, k': U64)
    ensures MixBlock(k) == MixBlock(k') ==> k == k'
  {
    MulInjective(k, k');
    XorShiftInjective(WrappingMul(k, M), WrappingMul(k', M));
    MulInjective(XorShift(WrappingMul(k, M)), XorShift(WrappingMul(k', M)));
  }

  lemma FinishInjective(h: U64, h': U64)
    ensures Finish(h) == Finish(h') ==> h == h'
  {
    XorShiftInjective(h, h');
    MulInjective(XorShift(h), XorShift(h'));
    XorShiftInjective(WrappingMul(XorShift(h), M), WrappingMul(XorShift(h'), M));
  }

  lemma {:induction false} LittleEndianInjective(a: seq<Byte>, b: seq<Byte>)
    requires |a| == |b| && LittleEndianSum(a) == LittleEndianSum(b)
    ensures a == b
  {
    if a != [] {
      LittleEndianInjective(a[1..], b[1..]);
    }
  }

  /** For fixed bytes, different states never come together. */
  ghost predicate KeepsApart(step: Mixer) {
    forall h: U64, h': U64, b: seq<Byte> :: step(h, b) == step(h', b) ==> h == h'
  }

  lemma StepsKeepApart()
    ensures KeepsApart(AbsorbBlock) && KeepsApart(AbsorbTail)
  {
    forall h: U64, h': U64, b: seq<Byte> | AbsorbBlock(h, b) == AbsorbBlock(h', b) ensures h == h' {
      AbsorbInjective(h, MixBlock(LittleEndian(b)), h', MixBlock(LittleEndian(b)));
    }
    forall h: U64, h': U64, b: seq<Byte> | AbsorbTail(h, b) == AbsorbTail(h', b) ensures h == h' {
      AbsorbInjective(h, LittleEndian(b), h', LittleEndian(b));
    }
  }

  lemma {:induction false} SuffixInjective(block: Mixer, tail: Mixer, h: U64, h': U64, key: seq<Byte>)
    requires KeepsApart(block) && KeepsApart(tail)
    requires Chunked(block, tail, h, key) == Chunked(block, tail, h', key)
    ensures h == h'
    decreases |key|
  {
    if |key| >= 8 {
      SuffixInjective(block, tail, block(h, key[..8]), block(h', key[..8]), key[8..]);
    }
  }

  /** A prefix of whole blocks is absorbed before, and independently of, what follows it. */
  lemma {:induction false} ChunksSplit(block: Mixer, tail: Mixer, h: U64, pre: seq<Byte>, rest: seq<Byte>)
    requires |pre| % 8 == 0
    ensures Chunked(block, tail, h, pre + rest) == Chunked(block, tail, Chunked(block, tail, h, pre), rest)
    decreases |pre|
  {
    if pre == [] {
      assert pre + rest == rest;
    } else {
      assert (pre + rest)[..8] == pre[..8] && (pre + rest)[8..] == pre[8..] + rest;
      ChunksSplit(block, tail, block(h, pre[..8]), pre[8..], rest);
    }
  }

  /** Keys share a hash exactly when they leave the same state. */
  lemma HashIsState(key: seq<Byte>, other: seq<Byte>, seed: U64)
    ensures Hash64A(key, seed) == Hash64A(other, seed) <==> StateAfter(key, seed) == StateAfter(other, seed)
  {
    FinishInjective(StateAfter(key, seed), StateAfter(other, seed));
  }

  lemma StateInjective(pre: seq<Byte>, b: seq<Byte>, b': seq<Byte>, post: seq<Byte>, seed: U64)
    requires |pre| % 8 == 0 && |b| == |b'| && (|b| == 8 || (|b| < 8 && post == []))
    requires StateAfter(pre + (b + post), seed) == StateAfter(pre + (b' + post), seed)
    ensures b == b'
  {
    var h := Start(|pre + (b + post)|, seed);
    assert |pre + (b + post)| == |pre + (b' + post)|;
    AbsorbSplits(h, pre, b + post);
    AbsorbSplits(h, pre, b' + post);
    BlockInjective(AbsorbAll(h, pre), b, b', post);
  }

  lemma AbsorbSplits(h: U64, pre: seq<Byte>, rest: seq<Byte>)
    requires |pre| % 8 == 0
    ensures AbsorbAll(h, pre + rest) == AbsorbAll(AbsorbAll(h, pre), rest)
  {
    ChunksSplit(AbsorbBlock, AbsorbTail, h, pre, rest);
  }

  /** Two keys of one length that differ only inside one eight-byte block, or only inside the
      tail, never share a hash, whatever the seed. */
  lemma DifferingBlockNeverCollides(pre: seq<Byte>, b: seq<Byte>, b': seq<Byte>, post: seq<Byte>, seed: U64)
    requires |pre| % 8 == 0 && |b| == |b'|
    requires |b| == 8 || (|b| < 8 && post == [])
    ensures Hash64A(pre + (b + post), seed) == Hash64A(pre + (b' + post), seed) <==> b == b'
  {
    HashIsState(pre + (b + post), pre + (b' + post), seed);
    if StateAfter(pre + (b + post), seed) == StateAfter(pre + (b' + post), seed) {
      StateInjective(pre, b, b', post, seed);
    }
  }

  /** For one key, different seeds never give the same hash. */
  lemma SeedsKeepApart(key: seq<Byte>, s: U64, t: U64)
    ensures Hash64A(key, s) == Hash64A(key, t) <==> s == t
  {
    if Hash64A(key, s) == Hash64A(key, t) {
      FinishInjective(StateAfter(key, s), StateAfter(key, t));
      StepsKeepApart();
      SuffixInjective(AbsorbBlock, AbsorbTail, Start(|key|, s), Start(|key|, t), key);
      var m := WrappingMul(|key| % U64_SIZE, M);
      XorUndoes(s, m);
      XorUndoes(t, m);
    }
  }

  lemma BlockInjective(h: U64, b: seq<Byte>, b': seq<Byte>, post: seq<Byte>)
    requires |b| == |b'| && (|b| == 8 || (|b| < 8 && post == []))
    requires AbsorbAll(h, b + post) == AbsorbAll(h, b' + post)
    ensures b == b'
  {
    if |b| == 8 {
      FullBlockInjective(h, b, b', post);
    } else {
      assert b + post == b && b' + post == b';
      TailInjective(h, b, b');
    }
  }

  lemma FullBlockInjective(h: U64, b: seq<Byte>, b': seq<Byte>, post: seq<Byte>)
    requires |b| == |b'| == 8
    requires AbsorbAll(h, b + post) == AbsorbAll(h, b' + post)
    ensures b == b'
  {
    var k, k' := LittleEndian(b), LittleEndian(b');
    StepsKeepApart();
    SuffixInjective(AbsorbBlock, AbsorbTail, AbsorbBlock(h, b), AbsorbBlock(h, b'), post);
    AbsorbInjective(h, MixBlock(k), h, MixBlock(k'));
    MixInjective(k, k');
    LittleEndianInjective(b, b');
  }

  lemma TailInjective(h: U64, b: seq<Byte>, b': seq<Byte>)
    requires |b| == |b'| < 8
    requires AbsorbAll(h, b) == AbsorbAll(h, b')
    ensures b == b'
  {
    if b != [] {
      AbsorbInjective(h, LittleEndian(b), h, LittleEndian(b'));
      LittleEndianInjective(b, b');
    }
  }

  // ---- The loop ----

  lemma {:induction false} LittleEndianAppend(b: seq<Byte>, x: Byte)
    ensures LittleEndianSum(b + [x]) == LittleEndianSum(b) + Shl(x, 8 * |b|)
  {
    if b == [] {
    } else {
      LittleEndianAppend(b[1..], x);
      assert (b + [x])[1..] == b[1..] + [x];
      ShlByte(x, 8 * |b[1..]|);
    }
  }

  /** `last |= u64::from(byte) << (8 * index)`, where the byte's bits are above those of `last`. */
  lemma TailByte(b: seq<Byte>, x: Byte)
    requires |b| < 8
    ensures Or(LittleEndianSum(b), Shl(x, 8 * |b|) % U64_SIZE) == LittleEndianSum(b + [x]) < U64_SIZE
  {
    LittleEndianBelow(b);
    LittleEndianBelow(b + [x]);
    LittleEndianAppend(b, x);
    SmallWord(Shl(x, 8 * |b|));
    OrDisjoint(LittleEndianSum(b), x, 8 * |b|);
  }

  lemma SmallWord(n: nat)
    requires n < U64_SIZE
    ensures n % U64_SIZE == n
  {
  }

  method MurMurHash2For64A(key: seq<Byte>, seed: U64) returns (h: U64)
    ensures h == Hash64A(key, seed)
  {
    h := XorWord(seed, WrappingMul(|key| % U64_SIZE, M));
    var blocks := |key| / 8;
    ghost var h0 := h;
    for i := 0 to blocks
      invariant AbsorbAll(h, key[8 * i..]) == AbsorbAll(h0, key)
    {
      ghost var rest := key[8 * i..];
      assert key[8 * i..8 * i + 8] == rest[..8] && key[8 * (i + 1)..] == rest[8..];
      var k := LittleEndian(key[8 * i..8 * i + 8]);
      k := WrappingMul(k, M);
      k := XorWord(k, Shr(k, R));
      k := WrappingMul(k, M);
      h := XorWord(h, k);
      h := WrappingMul(h, M);
    }
    var tail := key[8 * blocks..];
    if tail != [] {
      var last: U64 := 0;
      for index := 0 to |tail|
        invariant last == LittleEndianSum(tail[..index])
      {
        TailByte(tail[..index], tail[index]);
        assert tail[..index + 1] == tail[..index] + [tail[index]];
        last := Or(last, Shl(tail[index], 8 * index) % U64_SIZE);
      }
      assert tail[..|tail|] == tail;
      h := XorWord(h, last);
      h := WrappingMul(h, M);
    }
    h := XorWord(h, Shr(h, R));
    h := WrappingMul(h, M);
    h := XorWord(h, Shr(h, R));
  }
}
