/** The hashes the source's own tests write down, worked out from the definition. */
module KnownHashes {
  import opened Words
  import opened Labels
  import opened Murmur
  import opened RoutingBytes

  // ---- Xor of numbers given by their bytes ----

  function Differ(i: nat, j: nat): nat {
    if i == j then 0 else 1
  }

  /** An operation that treats every bit alike, as xor does. Nothing below unfolds it. */
  type Operation = (nat, nat) -> nat

  ghost predicate ByBitAt(f: Operation, u: nat, v: nat) {
    f(u, v) == 2 * f(u / 2, v / 2) + Differ(u % 2, v % 2)
  }

  ghost predicate ByBit(f: Operation) {
    f(0, 0) == 0 && forall u, v :: ByBitAt(f, u, v)
  }

  lemma Whole(n: nat)
    ensures n == 2 * (n / 2) + n % 2
  {
  }

  lemma Parity(u: nat, v: nat)
    ensures (u + v) % 2 == Differ(u % 2, v % 2)
  {
  }

  lemma XorByBit()
    ensures ByBit(Xor)
  {
    forall u: nat, v: nat ensures ByBitAt(Xor, u, v) {
      XorBits(u, v);
      Whole(Xor(u, v));
      Parity(u, v);
    }
  }

  lemma OneBit(f: Operation, a: nat, b: nat, i: nat, j: nat, u: nat, v: nat)
    requires ByBit(f) && i < 2 && j < 2 && u == 2 * a + i && v == 2 * b + j
    ensures f(u, v) == 2 * f(a, b) + Differ(i, j)
  {
    assert ByBitAt(f, u, v);
    assert u / 2 == a && v / 2 == b && u % 2 == i && v % 2 == j;
  }

  // ---- Bytes ----

  function Val(x: bv8): (n: nat)
    ensures n < 0x100
  {
    x as nat
  }

  lemma HalveByte(x: bv8)
    ensures x as nat == 2 * ((x >> 1) as nat) + (x & 1) as nat
  {
  }

  lemma LowBits(x: bv8, y: bv8)
    ensures ((x ^ y) & 1) as nat == Differ((x & 1) as nat, (y & 1) as nat)
    ensures (x & 1) as nat < 2 && (y & 1) as nat < 2
    ensures (x ^ y) >> 1 == (x >> 1) ^ (y >> 1)
  {
  }

  lemma {:induction false} EightBits(f: Operation, x: bv8, y: bv8)
    requires ByBit(f)
    ensures f(x as nat, y as nat) == (x ^ y) as nat
    decreases x as nat + y as nat
  {
    if x != 0 || y != 0 {
      HalveByte(x);
      HalveByte(y);
      HalveByte(x ^ y);
      LowBits(x, y);
      EightBits(f, x >> 1, y >> 1);
      OneBit(f, (x >> 1) as nat, (y >> 1) as nat, (x & 1) as nat, (y & 1) as nat, x as nat, y as nat);
    }
  }

  lemma ByteXor(f: Operation, x: bv8, y: bv8)
    requires ByBit(f)
    ensures f(Val(x), Val(y)) == Val(x ^ y)
  {
    EightBits(f, x, y);
  }

  /** Bits above and bits below are taken apart. */
  lemma {:induction false} Splits(f: Operation, a: nat, b: nat, c: nat, d: nat, n: nat)
    requires ByBit(f) && c < Pow2(n) && d < Pow2(n)
    ensures f(Pow2(n) * a + c, Pow2(n) * b + d) == Pow2(n) * f(a, b) + f(c, d)
    decreases n
  {
    if n > 0 {
      var p := Pow2(n - 1);
      Splits(f, a, b, c / 2, d / 2, n - 1);
      Double(p, a, c);
      Double(p, b, d);
      OneBit(f, p * a + c / 2, p * b + d / 2, c % 2, d % 2, 2 * p * a + c, 2 * p * b + d);
      OneBit(f, c / 2, d / 2, c % 2, d % 2, c, d);
      Double(p, f(a, b), 0);
    }
  }

  lemma Double(p: nat, a: nat, c: nat)
    ensures 2 * (p * a + c / 2) + c % 2 == 2 * p * a + c
  {
  }

  lemma OneByte(f: Operation, a: nat, b: nat, x: nat, y: nat, u: nat, v: nat)
    requires ByBit(f) && x < 0x100 && y < 0x100 && u == 0x100 * a + x && v == 0x100 * b + y
    ensures f(u, v) == 0x100 * f(a, b) + f(x, y)
  {
    Pow2Byte(0);
    Splits(f, a, b, x, y, 8);
  }

  /** The number with these four bytes after those of `a`. */
  function Then(a: nat, x3: nat, x2: nat, x1: nat, x0: nat): nat {
    0x1_0000_0000 * a + 0x100_0000 * x3 + 0x1_0000 * x2 + 0x100 * x1 + x0
  }

  lemma FourBytes(f: Operation, a: nat, b: nat, x3: nat, x2: nat, x1: nat, x0: nat, y3: nat, y2: nat, y1: nat, y0: nat)
    requires ByBit(f) && x3 < 0x100 && x2 < 0x100 && x1 < 0x100 && x0 < 0x100
    requires y3 < 0x100 && y2 < 0x100 && y1 < 0x100 && y0 < 0x100
    ensures f(Then(a, x3, x2, x1, x0), Then(b, y3, y2, y1, y0)) ==
      Then(f(a, b), f(x3, y3), f(x2, y2), f(x1, y1), f(x0, y0))
  {
    var a3, b3 := 0x100 * a + x3, 0x100 * b + y3;
    var a2, b2 := 0x100 * a3 + x2, 0x100 * b3 + y2;
    var a1, b1 := 0x100 * a2 + x1, 0x100 * b2 + y1;
    OneByte(f, a, b, x3, y3, a3, b3);
    OneByte(f, a3, b3, x2, y2, a2, b2);
    OneByte(f, a2, b2, x1, y1, a1, b1);
    OneByte(f, a1, b1, x0, y0, 0x100 * a1 + x0, 0x100 * b1 + y0);
  }

  /** The number with these bytes, the highest first. */
  function Word(x7: bv8, x6: bv8, x5: bv8, x4: bv8, x3: bv8, x2: bv8, x1: bv8, x0: bv8): nat {
    0x100_0000_0000_0000 * Val(x7) + 0x1_0000_0000_0000 * Val(x6) + 0x100_0000_0000 * Val(x5) +
    0x1_0000_0000 * Val(x4) + 0x100_0000 * Val(x3) + 0x1_0000 * Val(x2) + 0x100 * Val(x1) + Val(x0)
  }

  lemma Flatten(x7: nat, x6: nat, x5: nat, x4: nat, x3: nat, x2: nat, x1: nat, x0: nat)
    ensures Then(Then(0, x7, x6, x5, x4), x3, x2, x1, x0) ==
      0x100_0000_0000_0000 * x7 + 0x1_0000_0000_0000 * x6 + 0x100_0000_0000 * x5 + 0x1_0000_0000 * x4 +
      0x100_0000 * x3 + 0x1_0000 * x2 + 0x100 * x1 + x0
  {
  }

  lemma WordIsThen(x7: bv8, x6: bv8, x5: bv8, x4: bv8, x3: bv8, x2: bv8, x1: bv8, x0: bv8)
    ensures Word(x7, x6, x5, x4, x3, x2, x1, x0) ==
      Then(Then(0, Val(x7), Val(x6), Val(x5), Val(x4)), Val(x3), Val(x2), Val(x1), Val(x0))
  {
    Flatten(Val(x7), Val(x6), Val(x5), Val(x4), Val(x3), Val(x2), Val(x1), Val(x0));
  }

  lemma WordBy(f: Operation, x7: bv8, x6: bv8, x5: bv8, x4: bv8, x3: bv8, x2: bv8, x1: bv8, x0: bv8,
               y7: bv8, y6: bv8, y5: bv8, y4: bv8, y3: bv8, y2: bv8, y1: bv8, y0: bv8)
    requires ByBit(f)
    ensures f(Word(x7, x6, x5, x4, x3, x2, x1, x0), Word(y7, y6, y5, y4, y3, y2, y1, y0)) ==
      Word(x7 ^ y7, x6 ^ y6, x5 ^ y5, x4 ^ y4, x3 ^ y3, x2 ^ y2, x1 ^ y1, x0 ^ y0)
  {
    WordIsThen(x7, x6, x5, x4, x3, x2, x1, x0);
    WordIsThen(y7, y6, y5, y4, y3, y2, y1, y0);
    WordIsThen(x7 ^ y7, x6 ^ y6, x5 ^ y5, x4 ^ y4, x3 ^ y3, x2 ^ y2, x1 ^ y1, x0 ^ y0);
    HalfBy(f, 0, 0, x7, x6, x5, x4, y7, y6, y5, y4);
    HalfBy(f, Then(0, Val(x7), Val(x6), Val(x5), Val(x4)), Then(0, Val(y7), Val(y6), Val(y5), Val(y4)),
           x3, x2, x1, x0, y3, y2, y1, y0);
  }

  lemma HalfBy(f: Operation, a: nat, b: nat, x3: bv8, x2: bv8, x1: bv8, x0: bv8, y3: bv8, y2: bv8, y1: bv8, y0: bv8)
    requires ByBit(f)
    ensures f(Then(a, Val(x3), Val(x2), Val(x1), Val(x0)), Then(b, Val(y3), Val(y2), Val(y1), Val(y0))) ==
      Then(f(a, b), Val(x3 ^ y3), Val(x2 ^ y2), Val(x1 ^ y1), Val(x0 ^ y0))
  {
    ByteXor(f, x3, y3);
    ByteXor(f, x2, y2);
    ByteXor(f, x1, y1);
    ByteXor(f, x0, y0);
    FourBytes(f, a, b, Val(x3), Val(x2), Val(x1), Val(x0), Val(y3), Val(y2), Val(y1), Val(y0));
  }

  /** The operation on two numbers given by their bytes. */
  lemma WordIs(f: Operation, x7: bv8, x6: bv8, x5: bv8, x4: bv8, x3: bv8, x2: bv8, x1: bv8, x0: bv8,
               y7: bv8, y6: bv8, y5: bv8, y4: bv8, y3: bv8, y2: bv8, y1: bv8, y0: bv8, a: nat, b: nat, c: nat)
    requires ByBit(f)
    requires a == Word(x7, x6, x5, x4, x3, x2, x1, x0) && b == Word(y7, y6, y5, y4, y3, y2, y1, y0)
    requires c == Word(x7 ^ y7, x6 ^ y6, x5 ^ y5, x4 ^ y4, x3 ^ y3, x2 ^ y2, x1 ^ y1, x0 ^ y0)
    ensures f(a, b) == c
  {
    WordBy(f, x7, x6, x5, x4, x3, x2, x1, x0, y7, y6, y5, y4, y3, y2, y1, y0);
  }

  // ---- The hash by arithmetic, with xor as a parameter ----

  function Times(x: nat): nat {
    x * 0xc6a4_a793_5bd1_e995 % 0x1_0000_0000_0000_0000
  }

  function ShiftBy(f: Operation, x: nat): nat {
    f(x, x / 0x8000_0000_0000)
  }

  function MixBy(f: Operation, k: nat): nat {
    Times(ShiftBy(f, Times(k)))
  }

  function AbsorbBy(f: Operation, h: nat, k: nat): nat {
    Times(f(h, k))
  }

  function KeyBy(f: Operation, h: nat, key: seq<Byte>): nat
    decreases |key|
  {
    if |key| >= 8 then KeyBy(f, AbsorbBy(f, h, MixBy(f, LittleEndianSum(key[..8]))), key[8..])
    else if key == [] then h
    else AbsorbBy(f, h, LittleEndianSum(key))
  }

  function FinishBy(f: Operation, h: nat): nat {
    ShiftBy(f, Times(ShiftBy(f, h)))
  }

  function HashBy(f: Operation, key: seq<Byte>, seed: nat): nat {
    FinishBy(f, KeyBy(f, f(seed, Times(|key|)), key))
  }

  lemma {:induction false} ShrDivides(x: nat, n: nat)
    ensures Shr(x, n) == x / Pow2(n)
    decreases n
  {
    if n != 0 {
      ShrDivides(x / 2, n - 1);
      HalfFirst(x, Pow2(n - 1));
    }
  }

  lemma HalfFirst(x: nat, p: nat)
    requires p > 0
    ensures x / 2 / p == x / (2 * p)
  {
    var q := x / 2 / p;
    var r := x - 2 * p * q;
    assert x / 2 == p * q + x / 2 % p;
    DivUnique(x, 2 * p, q, r);
  }

  lemma Pow2Of47()
    ensures Pow2(47) == 0x8000_0000_0000
  {
    Pow2Of32();
    Pow2Byte(32);
    assert Pow2(47) == 2 * Pow2(46) == 4 * Pow2(45) == 8 * Pow2(44) == 16 * Pow2(43);
    assert Pow2(43) == 2 * Pow2(42) == 4 * Pow2(41) == 8 * Pow2(40);
  }

  lemma ShiftIsShift(x: U64)
    ensures XorShift(x) == ShiftBy(Xor, x)
  {
    ShrDivides(x, 47);
    Pow2Of47();
  }

  lemma BlockIsBlock(h: U64, b: seq<Byte>)
    requires |b| == 8
    ensures AbsorbBlock(h, b) == AbsorbBy(Xor, h, MixBy(Xor, LittleEndianSum(b)))
  {
    ShiftIsShift(WrappingMul(LittleEndian(b), M));
  }

  lemma {:induction false} KeyIsKey(h: U64, key: seq<Byte>)
    ensures AbsorbAll(h, key) == KeyBy(Xor, h, key)
    decreases |key|
  {
    if |key| >= 8 {
      BlockIsBlock(h, key[..8]);
      KeyIsKey(AbsorbBlock(h, key[..8]), key[8..]);
    }
  }

  /** The hash is what plain arithmetic gives, with nothing but xor left to the bits. */
  lemma HashIsArithmetic(key: seq<Byte>, seed: U64)
    ensures Hash64A(key, seed) == HashBy(Xor, key, seed)
  {
    StartIsStart(|key|, seed);
    KeyIsKey(Start(|key|, seed), key);
    FinishIsFinish(StateAfter(key, seed));
  }

  lemma StartIsStart(length: nat, seed: U64)
    ensures Start(length, seed) == Xor(seed, Times(length))
  {
    SameProduct(length);
  }

  lemma SameProduct(x: nat)
    ensures WrappingMul(x % U64_SIZE, M) == Times(x)
  {
    var q, r := x / U64_SIZE, x % U64_SIZE;
    var p := r * M / U64_SIZE;
    assert x * M == U64_SIZE * (q * M + p) + r * M % U64_SIZE;
    DivUnique(x * M, U64_SIZE, q * M + p, r * M % U64_SIZE);
  }

  lemma FinishIsFinish(h: U64)
    ensures Finish(h) == FinishBy(Xor, h)
  {
    ShiftIsShift(h);
    ShiftIsShift(WrappingMul(XorShift(h), M));
  }

  // ---- Evaluating it ----

  /** One block taken in, every step given. */
  lemma BlockIs(f: Operation, h: nat, key: seq<Byte>, k: nat, a: nat, s: nat, b: nat, m: nat, x: nat, r: nat)
    requires |key| >= 8 && LittleEndianSum(key[..8]) == k && Times(k) == a && a / 0x8000_0000_0000 == s && f(a, s) == b
    requires Times(b) == m && f(h, m) == x && Times(x) == r
    ensures KeyBy(f, h, key) == KeyBy(f, r, key[8..])
  {
  }

  lemma TailIs(f: Operation, h: nat, key: seq<Byte>, k: nat, x: nat, r: nat)
    requires 0 < |key| < 8 && LittleEndianSum(key) == k && f(h, k) == x && Times(x) == r
    ensures KeyBy(f, h, key) == r
  {
  }

  lemma FinishIs(f: Operation, h: nat, a: nat, b: nat, r: nat)
    requires f(h, h / 0x8000_0000_0000) == a && Times(a) == b && f(b, b / 0x8000_0000_0000) == r
    ensures FinishBy(f, h) == r
  {
  }

  lemma SumFrom(b: seq<Byte>, k: nat)
    requires k < |b|
    ensures LittleEndianSum(b[k..]) == b[k] + 0x100 * LittleEndianSum(b[k + 1..])
  {
    assert b[k..][1..] == b[k + 1..];
  }

  lemma SumOfThree(b: seq<Byte>, k: nat)
    requires k + 3 <= |b|
    ensures LittleEndianSum(b[k..]) ==
      b[k] + 0x100 * b[k + 1] + 0x1_0000 * b[k + 2] + 0x100_0000 * LittleEndianSum(b[k + 3..])
  {
    SumFrom(b, k);
    SumFrom(b, k + 1);
    SumFrom(b, k + 2);
  }

  // ---- No bytes ----

  lemma EmptyStart(f: Operation)
    requires ByBit(f)
    ensures f(0x2017_0730, 0x0) == 0x2017_0730
  {
    WordIs(f, 0x00, 0x00, 0x00, 0x00, 0x20, 0x17, 0x07, 0x30,
           0x00, 0x00, 0x00, 0x00, 0x00, 0x00, 0x00, 0x00,
           0x2017_0730, 0x0, 0x2017_0730);
  }

  lemma EmptyLast(f: Operation)
    requires ByBit(f)
    ensures f(0x392b_f032_9121_def0, 0x7257) == 0x392b_f032_9121_aca7
  {
    WordIs(f, 0x39, 0x2b, 0xf0, 0x32, 0x91, 0x21, 0xde, 0xf0,
           0x00, 0x00, 0x00, 0x00, 0x00, 0x00, 0x72, 0x57,
           0x392b_f032_9121_def0, 0x7257, 0x392b_f032_9121_aca7);
  }

  lemma EmptyBy(f: Operation)
    requires ByBit(f)
    ensures HashBy(f, [], 0x2017_0730) == 0x392b_f032_9121_aca7
  {
    EmptyStart(f);
    EmptyLast(f);
    FinishIs(f, 0x2017_0730, 0x2017_0730, 0x392b_f032_9121_def0, 0x392b_f032_9121_aca7);
  }

  /** The routing hash of no bytes. */
  lemma HashOfEmpty()
    ensures RouteHash([]) == 4_119_650_384_134_384_807
  {
    XorByBit();
    EmptyBy(Xor);
    HashIsArithmetic([], 0x2017_0730);
  }

  // ---- `cache-0000#0` ----

  lemma LabelStart(f: Operation)
    requires ByBit(f)
    ensures f(0x2017_0730, 0x4fb7_dae8_4dd6_f2fc) == 0x4fb7_dae8_6dc1_f5cc
  {
    WordIs(f, 0x00, 0x00, 0x00, 0x00, 0x20, 0x17, 0x07, 0x30,
           0x4f, 0xb7, 0xda, 0xe8, 0x4d, 0xd6, 0xf2, 0xfc,
           0x2017_0730, 0x4fb7_dae8_4dd6_f2fc, 0x4fb7_dae8_6dc1_f5cc);
  }

  lemma LabelBytes()
    ensures LittleEndianSum([99, 97, 99, 104, 101, 45, 48, 48]) == 0x3030_2d65_6863_6163
  {
    var b: seq<Byte> := [99, 97, 99, 104, 101, 45, 48, 48];
    SumOfThree(b, 0);
    SumOfThree(b, 3);
    SumFrom(b, 6);
    SumFrom(b, 7);
    assert b[8..] == [] && b[0..] == b;
  }

  lemma LabelShift(f: Operation)
    requires ByBit(f)
    ensures f(0xbc45_c5a1_e84d_c99f, 0x1_788b) == 0xbc45_c5a1_e84c_b114
  {
    WordIs(f, 0xbc, 0x45, 0xc5, 0xa1, 0xe8, 0x4d, 0xc9, 0x9f,
           0x00, 0x00, 0x00, 0x00, 0x00, 0x01, 0x78, 0x8b,
           0xbc45_c5a1_e84d_c99f, 0x1_788b, 0xbc45_c5a1_e84c_b114);
  }

  lemma LabelBlock(f: Operation)
    requires ByBit(f)
    ensures f(0x4fb7_dae8_6dc1_f5cc, 0x509c_07b4_af22_44a4) == 0x1f2b_dd5c_c2e3_b168
  {
    WordIs(f, 0x4f, 0xb7, 0xda, 0xe8, 0x6d, 0xc1, 0xf5, 0xcc,
           0x50, 0x9c, 0x07, 0xb4, 0xaf, 0x22, 0x44, 0xa4,
           0x4fb7_dae8_6dc1_f5cc, 0x509c_07b4_af22_44a4, 0x1f2b_dd5c_c2e3_b168);
  }

  lemma LabelTailBytes()
    ensures LittleEndianSum([48, 48, 35, 48]) == 0x3023_3030
  {
    var b: seq<Byte> := [48, 48, 35, 48];
    SumOfThree(b, 0);
    SumFrom(b, 3);
    assert b[4..] == [] && b[0..] == b;
  }

  lemma LabelTail(f: Operation)
    requires ByBit(f)
    ensures f(0x4b1d_070a_78e5_e988, 0x3023_3030) == 0x4b1d_070a_48c6_d9b8
  {
    WordIs(f, 0x4b, 0x1d, 0x07, 0x0a, 0x78, 0xe5, 0xe9, 0x88,
           0x00, 0x00, 0x00, 0x00, 0x30, 0x23, 0x30, 0x30,
           0x4b1d_070a_78e5_e988, 0x3023_3030, 0x4b1d_070a_48c6_d9b8);
  }

  lemma LabelFinish(f: Operation)
    requires ByBit(f)
    ensures f(0xd6a7_9b9d_7f1d_3018, 0x1_ad4f) == 0xd6a7_9b9d_7f1c_9d57
  {
    WordIs(f, 0xd6, 0xa7, 0x9b, 0x9d, 0x7f, 0x1d, 0x30, 0x18,
           0x00, 0x00, 0x00, 0x00, 0x00, 0x01, 0xad, 0x4f,
           0xd6a7_9b9d_7f1d_3018, 0x1_ad4f, 0xd6a7_9b9d_7f1c_9d57);
  }

  lemma LabelLast(f: Operation)
    requires ByBit(f)
    ensures f(0x41c1_f79b_67e2_c2a3, 0x8383) == 0x41c1_f79b_67e2_4120
  {
    WordIs(f, 0x41, 0xc1, 0xf7, 0x9b, 0x67, 0xe2, 0xc2, 0xa3,
           0x00, 0x00, 0x00, 0x00, 0x00, 0x00, 0x83, 0x83,
           0x41c1_f79b_67e2_c2a3, 0x8383, 0x41c1_f79b_67e2_4120);
  }

  lemma LabelParts(key: seq<Byte>)
    requires key == [99, 97, 99, 104, 101, 45, 48, 48, 48, 48, 35, 48]
    ensures LittleEndianSum(key[..8]) == 0x3030_2d65_6863_6163 && LittleEndianSum(key[8..]) == 0x3023_3030
  {
    LabelBytes();
    LabelTailBytes();
    assert key[..8] == [99, 97, 99, 104, 101, 45, 48, 48];
    assert key[8..] == [48, 48, 35, 48];
  }

  lemma LabelFirst(f: Operation, key: seq<Byte>)
    requires ByBit(f) && |key| == 12 && LittleEndianSum(key[..8]) == 0x3030_2d65_6863_6163
    ensures KeyBy(f, 0x4fb7_dae8_6dc1_f5cc, key) == KeyBy(f, 0x4b1d_070a_78e5_e988, key[8..])
  {
    LabelShift(f);
    LabelBlock(f);
    BlockIs(f, 0x4fb7_dae8_6dc1_f5cc, key, 0x3030_2d65_6863_6163, 0xbc45_c5a1_e84d_c99f, 0x1_788b,
            0xbc45_c5a1_e84c_b114, 0x509c_07b4_af22_44a4, 0x1f2b_dd5c_c2e3_b168, 0x4b1d_070a_78e5_e988);
  }

  lemma LabelRest(f: Operation, tail: seq<Byte>)
    requires ByBit(f) && |tail| == 4 && LittleEndianSum(tail) == 0x3023_3030
    ensures KeyBy(f, 0x4b1d_070a_78e5_e988, tail) == 0xd6a7_9b9d_7f1d_3018
  {
    LabelTail(f);
    TailIs(f, 0x4b1d_070a_78e5_e988, tail, 0x3023_3030, 0x4b1d_070a_48c6_d9b8, 0xd6a7_9b9d_7f1d_3018);
  }

  lemma LabelBy(f: Operation, key: seq<Byte>)
    requires ByBit(f) && key == [99, 97, 99, 104, 101, 45, 48, 48, 48, 48, 35, 48]
    ensures HashBy(f, key, 0x2017_0730) == 0x41c1_f79b_67e2_4120
  {
    LabelStart(f);
    LabelParts(key);
    LabelFirst(f, key);
    LabelRest(f, key[8..]);
    LabelEnd(f);
  }

  lemma LabelEnd(f: Operation)
    requires ByBit(f)
    ensures FinishBy(f, 0xd6a7_9b9d_7f1d_3018) == 0x41c1_f79b_67e2_4120
  {
    LabelFinish(f);
    LabelLast(f);
    FinishIs(f, 0xd6a7_9b9d_7f1d_3018, 0xd6a7_9b9d_7f1c_9d57, 0x41c1_f79b_67e2_c2a3, 0x41c1_f79b_67e2_4120);
  }

  /** The routing hash of the first label of a node `cache-0000`: a block and a tail. */
  lemma HashOfLabel()
    ensures RouteHash(Label([99, 97, 99, 104, 101, 45, 48, 48, 48, 48], 0)) == 4_738_340_529_805_345_056
  {
    assert Label([99, 97, 99, 104, 101, 45, 48, 48, 48, 48], 0) == [99, 97, 99, 104, 101, 45, 48, 48, 48, 48, 35, 48];
    XorByBit();
    LabelBy(Xor, [99, 97, 99, 104, 101, 45, 48, 48, 48, 48, 35, 48]);
    HashIsArithmetic([99, 97, 99, 104, 101, 45, 48, 48, 48, 48, 35, 48], 0x2017_0730);
  }
}
