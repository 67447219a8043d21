/** The hashes on words agree with their definitions in natural-number arithmetic, and have known values. */
module MurmurNumbers {
  import opened Machine
  import opened Numbers
  import opened Murmur
  import opened MurmurSpec

  // ----- the operations of the hashes -----

  lemma MulOfNext(x: bv32)
    ensures Mul(x + 1) == Mul(x) + 0x5bd1e995
    ensures Mul(0) == 0
  {
  }

  lemma PlusIs(x: bv32, y: bv32)
    ensures Plus(x, y) == x + y
  {
  }

  lemma MulInc(x: bv32)
    ensures Mul(Inc(x)) == Plus(Mul(x), 0x5bd1e995)
  {
    hide *;
    MulOfNext(x);
    IncIs(x);
    PlusIs(Mul(x), 0x5bd1e995);
  }

  lemma NumberOfFactor()
    ensures Number(0x5bd1e995) == 1540483477
  {
    SmallNumbers();
    hide Number;
    NumberDigit(0x5, 0xb);
    NumberDigit(0x5b, 0xd);
    NumberDigit(0x5bd, 0x1);
    NumberDigit(0x5bd1, 0xe);
    NumberDigit(0x5bd1e, 0x9);
    NumberDigit(0x5bd1e9, 0x9);
    NumberDigit(0x5bd1e99, 0x5);
  }

  lemma ScaledStep(a: nat)
    ensures (Scaled(a) + 1540483477) % RANGE == Scaled(a + 1)
    ensures Scaled(0) == 0
  {
    ModStep(a * 1540483477, 1540483477);
  }

  lemma {:induction false} NumberMul(x: bv32)
    ensures Number(Mul(x)) == Scaled(Number(x))
    decreases x
  {
    hide *;
    if x == 0 {
      NumberOfZero();
      MulOfNext(0);
      ScaledStep(0);
    } else {
      HalfLess(x);
      NumberMul(Dec(x));
      NumberMulNext(x);
    }
  }

  lemma NumberMulNext(x: bv32)
    requires x != 0 && Number(Mul(Dec(x))) == Scaled(Number(Dec(x)))
    ensures Number(Mul(x)) == Scaled(Number(x))
  {
    hide *;
    HalfLess(x);
    MulInc(Dec(x));
    NumberPlus(Mul(Dec(x)), 0x5bd1e995);
    NumberOfFactor();
    NumberInc(Dec(x));
    ScaledStep(Number(Dec(x)));
  }

  lemma NumberShift1(x: bv32)
    ensures Number(x >> 1) == Number(x) / 2
  {
    NumberHalf(x);
    hide Number;
  }

  lemma ShiftSum12(x: bv32)
    ensures x >> 12 == (x >> 8) >> 4
  {
  }

  lemma NumberShift12(x: bv32)
    ensures Number(x >> 12) == Number(x) / 4096
  {
    hide *;
    ShiftSum12(x);
    NumberShift8(x);
    NumberShift4(x >> 8);
  }

  lemma ShiftSum13(x: bv32)
    ensures x >> 13 == (x >> 12) >> 1
  {
  }

  lemma NumberShift13(x: bv32)
    ensures Number(x >> 13) == Number(x) / 8192
  {
    hide *;
    ShiftSum13(x);
    NumberShift12(x);
    NumberShift1(x >> 12);
  }

  lemma ShiftSum15(x: bv32)
    ensures x >> 15 == (x >> 13) >> 2
  {
  }

  lemma NumberShift15(x: bv32)
    ensures Number(x >> 15) == Number(x) / 32768
  {
    hide *;
    ShiftSum15(x);
    NumberShift13(x);
    NumberShift2(x >> 13);
  }

  lemma ShiftSum17(x: bv32)
    ensures x >> 17 == (x >> 16) >> 1
  {
  }

  lemma NumberShift17(x: bv32)
    ensures Number(x >> 17) == Number(x) / 131072
  {
    hide *;
    ShiftSum17(x);
    NumberShift16(x);
    NumberShift1(x >> 16);
  }

  lemma ShiftSum18(x: bv32)
    ensures x >> 18 == (x >> 16) >> 2
  {
  }

  lemma NumberShift18(x: bv32)
    ensures Number(x >> 18) == Number(x) / 262144
  {
    hide *;
    ShiftSum18(x);
    NumberShift16(x);
    NumberShift2(x >> 16);
  }

  lemma ShiftSum19(x: bv32)
    ensures x >> 19 == (x >> 18) >> 1
  {
  }

  lemma NumberShift19(x: bv32)
    ensures Number(x >> 19) == Number(x) / 524288
  {
    hide *;
    ShiftSum19(x);
    NumberShift18(x);
    NumberShift1(x >> 18);
  }

  lemma ShiftSum22(x: bv32)
    ensures x >> 22 == (x >> 18) >> 4
  {
  }

  lemma NumberShift22(x: bv32)
    ensures Number(x >> 22) == Number(x) / 4194304
  {
    hide *;
    ShiftSum22(x);
    NumberShift18(x);
    NumberShift4(x >> 18);
  }

  lemma ShiftSum24(x: bv32)
    ensures x >> 24 == (x >> 16) >> 8
  {
  }

  lemma NumberShift24(x: bv32)
    ensures Number(x >> 24) == Number(x) / 16777216
  {
    hide *;
    ShiftSum24(x);
    NumberShift16(x);
    NumberShift8(x >> 16);
  }

  lemma FoldsAreXors(x: bv32)
    ensures XorShift13(x) == Xor(x, x >> 13) && XorShift15(x) == Xor(x, x >> 15) && XorShift24(x) == Xor(x, x >> 24)
  {
  }

  lemma NumberFolds(x: bv32)
    ensures Number(XorShift13(x)) == Folded(Number(x), 8192)
    ensures Number(XorShift15(x)) == Folded(Number(x), 32768)
    ensures Number(XorShift24(x)) == Folded(Number(x), 16777216)
  {
    FoldsAreXors(x);
    hide Number, Xor, XorShift13, XorShift15, XorShift24, ExclusiveOr;
    NumberShift13(x);
    NumberShift15(x);
    NumberShift24(x);
    NumberXor(x, x >> 13);
    NumberXor(x, x >> 15);
    NumberXor(x, x >> 24);
  }

  // ----- words, steps and the tail -----

  lemma NumberLoad(e: Endian, d: seq<byte>, i: nat)
    requires 4 * i + 4 <= |d|
    ensures Number(Load(e, d[4 * i..4 * i + 4])) == WordAt(e, d, i)
  {
    var w := d[4 * i..4 * i + 4];
    hide Join, Number;
    NumberOfJoin(w[0], w[1], w[2], w[3]);
    NumberOfJoin(w[3], w[2], w[1], w[0]);
  }

  lemma NumberStep(h: bv32, k: bv32)
    ensures Number(Step(h, k)) == Absorbed(Number(h), Number(k))
  {
    hide Mul, XorShift24, Xor, Number, Scaled, Folded, ExclusiveOr;
    NumberMul(k);
    NumberFolds(Mul(k));
    NumberMul(XorShift24(Mul(k)));
    NumberMul(h);
    NumberXor(Mul(h), Mix(k));
  }

  lemma NumberTail(h: bv32, d: seq<byte>)
    ensures Number(Tail(h, d[TailStart(|d|)..])) == Ended(Number(h), d)
  {
    var t := d[TailStart(|d|)..];
    hide Mul, Xor, Number, Scaled, ExclusiveOr, Join;
    if t != [] {
      NoByte();
      NumberOfJoin(if |t| > 0 then t[0] else 0, if |t| > 1 then t[1] else 0, if |t| > 2 then t[2] else 0, 0);
      NumberXor(h, TailWord(t));
      NumberMul(Xor(h, TailWord(t)));
    }
  }

  lemma NoByte()
    ensures ByteNumber(0) == 0
  {
  }

  // ----- the loops -----

  /** The state after one word more, of the 32-bit hash and of both lanes of the 64-bit one. */
  lemma {:induction false} OneMoreWord(h: bv32, d: seq<byte>, n: nat)
    requires 4 * n + 4 <= |d|
    ensures Body32(h, d[..4 * n + 4]) == Step(Body32(h, d[..4 * n]), Load(Little, d[4 * n..4 * n + 4]))
    decreases n
  {
    hide Step, Load;
    var a, b := d[..4 * n + 4], d[..4 * n];
    if n == 0 {
      assert a[..4] == a && a[4..] == [] && b == [] && d[4 * n..4 * n + 4] == a;
    } else {
      var rest := d[4..];
      assert a[..4] == d[..4] && b[..4] == d[..4];
      assert a[4..] == rest[..4 * (n - 1) + 4] && b[4..] == rest[..4 * (n - 1)];
      assert rest[4 * (n - 1)..4 * (n - 1) + 4] == d[4 * n..4 * n + 4];
      OneMoreWord(Step(h, Load(Little, d[..4])), rest, n - 1);
    }
  }

  lemma {:induction false} NumberBody32(h: bv32, d: seq<byte>, n: nat)
    requires 4 * n <= |d|
    ensures Number(Body32(h, d[..4 * n])) == Lane(Little, d, Number(h), n, 1, 0)
  {
    hide Step, Load, Absorbed, WordAt, Number;
    if n == 0 {
      assert d[..0] == [];
    } else {
      NumberBody32(h, d, n - 1);
      assert 4 * (n - 1) + 4 == 4 * n;
      OneMoreWord(h, d, n - 1);
      NumberLoad(Little, d, n - 1);
      NumberStep(Body32(h, d[..4 * (n - 1)]), Load(Little, d[4 * (n - 1)..4 * n]));
    }
  }

  lemma {:induction false} WholeWordsOnly(h: bv32, d: seq<byte>)
    ensures Body32(h, d[..TailStart(|d|)]) == Body32(h, d)
    decreases |d|
  {
    hide Step, Load;
    var t := TailStart(|d|);
    if |d| >= 4 {
      assert d[..t][..4] == d[..4] && d[..t][4..] == d[4..][..t - 4] && TailStart(|d[4..]|) == t - 4;
      WholeWordsOnly(Step(h, Load(Little, d[..4])), d[4..]);
    }
  }

  /** For every input the 32-bit hash is the arithmetic one. */
  lemma Hash32Agrees(d: seq<byte>)
    ensures Number(Murmur32(d)) == Hash32(d)
  {
    hide Mul, XorShift13, XorShift15, Body32, Tail, Number, WordOf, Scaled, Folded, Lane, Ended;
    var h, n := WordOf(|d|), |d| / 4;
    NumberOfWord(|d|);
    NumberBody32(h, d, n);
    WholeWordsOnly(h, d);
    var g := Body32(h, d);
    NumberTail(g, d);
    var f := Tail(g, d[TailStart(|d|)..]);
    NumberFolds(f);
    NumberMul(XorShift13(f));
    NumberFolds(Mul(XorShift13(f)));
  }

  // ----- the 64-bit hash -----

  /** The number of a 64-bit word. */
  function Number64(x: bv64): nat { Number(High(x)) * RANGE + Number(Low(x)) }

  function Fed(e: Endian, p: Lanes, d: seq<byte>, n: nat): Lanes
    requires 4 * n + 4 <= |d|
  {
    var k := Load(e, d[4 * n..4 * n + 4]);
    if n % 2 == 0 then Lanes(Step(p.h1, k), p.h2) else Lanes(p.h1, Step(p.h2, k))
  }

  lemma {:induction false} OneMoreWord64(e: Endian, p: Lanes, d: seq<byte>, n: nat)
    requires 4 * n + 4 <= |d|
    ensures Body64(e, p, d[..4 * n + 4]) == Fed(e, Body64(e, p, d[..4 * n]), d, n)
    decreases n
  {
    hide Step, Load;
    var a, b := d[..4 * n + 4], d[..4 * n];
    if n == 0 {
      assert a[..4] == a && b == [] && d[4 * n..4 * n + 4] == a;
    } else if n == 1 {
      assert a[..4] == d[..4] && a[4..8] == d[4..8] && a[8..] == [] && b == d[..4] && b[..4] == b;
    } else {
      var rest := d[8..];
      assert a[..4] == d[..4] && a[4..8] == d[4..8] && b[..4] == d[..4] && b[4..8] == d[4..8];
      assert a[8..] == rest[..4 * (n - 2) + 4] && b[8..] == rest[..4 * (n - 2)];
      assert rest[4 * (n - 2)..4 * (n - 2) + 4] == d[4 * n..4 * n + 4];
      OneMoreWord64(e, Lanes(Step(p.h1, Load(e, d[..4])), Step(p.h2, Load(e, d[4..8]))), rest, n - 2);
    }
  }

  lemma NoWords(e: Endian, p: Lanes)
    ensures Body64(e, p, []) == p
  {
  }

  lemma {:induction false} NumberBody64(e: Endian, p: Lanes, d: seq<byte>, n: nat)
    requires 4 * n <= |d|
    ensures var q := Body64(e, p, d[..4 * n]);
            Number(q.h1) == Lane(e, d, Number(p.h1), n, 2, 0) && Number(q.h2) == Lane(e, d, Number(p.h2), n, 2, 1)
  {
    hide Step, Load, Absorbed, WordAt, Number, Body64;
    if n == 0 {
      assert d[..0] == [];
      NoWords(e, p);
    } else {
      NumberBody64(e, p, d, n - 1);
      assert 4 * (n - 1) + 4 == 4 * n;
      OneMoreWord64(e, p, d, n - 1);
      NumberLoad(e, d, n - 1);
      var q := Body64(e, p, d[..4 * (n - 1)]);
      NumberStep(q.h1, Load(e, d[4 * (n - 1)..4 * n]));
      NumberStep(q.h2, Load(e, d[4 * (n - 1)..4 * n]));
    }
  }

  lemma {:induction false} WholeWordsOnly64(e: Endian, p: Lanes, d: seq<byte>)
    ensures Body64(e, p, d[..TailStart(|d|)]) == Body64(e, p, d)
    decreases |d|
  {
    hide Step, Load;
    var t := TailStart(|d|);
    if |d| >= 4 { assert d[..t][..4] == d[..4]; }
    if |d| >= 8 {
      assert d[..t][4..8] == d[4..8] && d[..t][8..] == d[8..][..t - 8] && TailStart(|d[8..]|) == t - 8;
      WholeWordsOnly64(e, Lanes(Step(p.h1, Load(e, d[..4])), Step(p.h2, Load(e, d[4..8]))), d[8..]);
    }
  }

  lemma NumberBlend(h: bv32, other: bv32)
    ensures Number(Blend(h, other, 17)) == Scaled(ExclusiveOr(Number(h), Number(other) / 131072))
    ensures Number(Blend(h, other, 18)) == Scaled(ExclusiveOr(Number(h), Number(other) / 262144))
    ensures Number(Blend(h, other, 19)) == Scaled(ExclusiveOr(Number(h), Number(other) / 524288))
    ensures Number(Blend(h, other, 22)) == Scaled(ExclusiveOr(Number(h), Number(other) / 4194304))
  {
    hide Mul, Xor, Number, Scaled, ExclusiveOr;
    NumberShift17(other);
    NumberShift18(other);
    NumberShift19(other);
    NumberShift22(other);
    NumberXor(h, other >> 17);
    NumberXor(h, other >> 18);
    NumberXor(h, other >> 19);
    NumberXor(h, other >> 22);
    NumberMul(Xor(h, other >> 17));
    NumberMul(Xor(h, other >> 18));
    NumberMul(Xor(h, other >> 19));
    NumberMul(Xor(h, other >> 22));
  }

  /** And so is the 64-bit hash, for every input, seed and byte order. */
  lemma Hash64Agrees(e: Endian, d: seq<byte>, seed: bv32)
    ensures Number64(Murmur64(e, d, seed)) == Hash64(e, d, Number(seed))
  {
    hide Blend, Body64, Tail, Number, WordOf, Scaled, Lane, Ended, Xor, ExclusiveOr, High, Low, Combine;
    var p, n := Lanes(Xor(seed, WordOf(|d|)), 0), |d| / 4;
    NumberOfWord(|d|);
    NumberOfZero();
    NumberXor(seed, WordOf(|d|));
    NumberBody64(e, p, d, n);
    WholeWordsOnly64(e, p, d);
    var q := Body64(e, p, d);
    NumberTail(q.h2, d);
    NumberFinish64(q.h1, Tail(q.h2, d[TailStart(|d|)..]));
  }

  lemma NumberFinish64(h1: bv32, h2: bv32)
    ensures var a1 := Scaled(ExclusiveOr(Number(h1), Number(h2) / 262144));
            var a2 := Scaled(ExclusiveOr(Number(h2), a1 / 4194304));
            var b1 := Scaled(ExclusiveOr(a1, a2 / 131072));
            Number64(Combine(Finish64(Lanes(h1, h2)))) == b1 * RANGE + Scaled(ExclusiveOr(a2, b1 / 524288))
  {
    hide Blend, Number, Scaled, ExclusiveOr, High, Low, Combine;
    var a1 := Blend(h1, h2, 18);
    var a2 := Blend(h2, a1, 22);
    var b1 := Blend(a1, a2, 17);
    NumberBlend(h1, h2);
    NumberBlend(h2, a1);
    NumberBlend(a1, a2);
    NumberBlend(a2, b1);
    CombineSplits(Lanes(b1, Blend(a2, b1, 19)));
  }

  // ----- known values -----

  lemma HashInStages(d: seq<byte>, g: bv32, h: bv32, v: bv32)
    requires Body32(WordOf(|d|), d) == g && Tail(g, d[TailStart(|d|)..]) == h && Finish32(h) == v
    ensures Murmur32(d) == v
  {
  }

  lemma SmallWords()
    ensures WordOf(0) == 0 && WordOf(1) == 1 && WordOf(2) == 2 && WordOf(3) == 3 && WordOf(4) == 4 && WordOf(5) == 5
  {
    assert WordOf(1) == Plus(Plus(WordOf(0), WordOf(0)), 1);
    assert WordOf(2) == Plus(Plus(WordOf(1), WordOf(1)), 0) && WordOf(3) == Plus(Plus(WordOf(1), WordOf(1)), 1);
    assert WordOf(4) == Plus(Plus(WordOf(2), WordOf(2)), 0) && WordOf(5) == Plus(Plus(WordOf(2), WordOf(2)), 1);
  }

  lemma HashOfNothing()
    ensures Murmur32([]) == 0
  {
    var d: seq<byte> := [];
    SmallWords();
    assert d[TailStart(0)..] == [];
    assert Finish32(0) == 0;
    hide Body32, Tail, Finish32, WordOf, TailStart, Step, Load, Mul, TailWord, Xor;
    HashInStages(d, 0, 0, 0);
  }

  lemma HashOfOneByte()
    ensures Murmur32([97]) == 0x92685f5e
  {
    var d: seq<byte> := [97];
    SmallWords();
    var t: seq<byte> := [97];
    assert d[TailStart(1)..] == t && TailWord(t) == 0x61;
    assert Tail(1, t) == Mul(Xor(1, 0x61)) == 0x6eb797e0;
    assert Finish32(0x6eb797e0) == 0x92685f5e;
    hide Body32, Tail, Finish32, WordOf, TailStart, Step, Load, Mul, TailWord, Xor;
    HashInStages(d, 1, 0x6eb797e0, 0x92685f5e);
  }

  lemma HashOfTwoBytes()
    ensures Murmur32([97, 98]) == 0x1aa14063
  {
    var d: seq<byte> := [97, 98];
    SmallWords();
    var t: seq<byte> := [97, 98];
    assert d[TailStart(2)..] == t && TailWord(t) == 0x6261;
    assert Tail(2, t) == Mul(Xor(2, 0x6261)) == 0xdd985e9f;
    assert Finish32(0xdd985e9f) == 0x1aa14063;
    hide Body32, Tail, Finish32, WordOf, TailStart, Step, Load, Mul, TailWord, Xor;
    HashInStages(d, 2, 0xdd985e9f, 0x1aa14063);
  }

  lemma HashOfThreeBytes()
    ensures Murmur32([97, 98, 99]) == 0x13577c9b
  {
    var d: seq<byte> := [97, 98, 99];
    SmallWords();
    var t: seq<byte> := [97, 98, 99];
    assert d[TailStart(3)..] == t && TailWord(t) == 0x636261;
    assert Tail(3, t) == Mul(Xor(3, 0x636261)) == 0xd665750a;
    assert Finish32(0xd665750a) == 0x13577c9b;
    hide Body32, Tail, Finish32, WordOf, TailStart, Step, Load, Mul, TailWord, Xor;
    HashInStages(d, 3, 0xd665750a, 0x13577c9b);
  }

  lemma HashOfHello()
    ensures Murmur32([104, 101, 108, 108, 111]) == 0xe56129cb
  {
    var d: seq<byte> := [104, 101, 108, 108, 111];
    SmallWords();
    assert d[..4] == [104, 101, 108, 108] && d[4..] == [111];
    assert Load(Little, [104, 101, 108, 108]) == 0x6c6c6568;
    assert Step(5, 0x6c6c6568) == 0xb98d0278;
    assert Body32(5, d) == Step(5, 0x6c6c6568);
    var t: seq<byte> := [111];
    assert d[TailStart(5)..] == t && TailWord(t) == 0x6f;
    assert Tail(0xb98d0278, t) == Mul(Xor(0xb98d0278, 0x6f)) == 0x37c02663;
    assert Finish32(0x37c02663) == 0xe56129cb;
    hide Body32, Tail, Finish32, WordOf, TailStart, Step, Load, Mul, TailWord, Xor;
    HashInStages(d, 0xb98d0278, 0x37c02663, 0xe56129cb);
  }

  lemma Hash64InStages(e: Endian, d: seq<byte>, seed: bv32, g: Lanes, h2: bv32, r: Lanes, v: bv64)
    requires Body64(e, Lanes(Xor(seed, WordOf(|d|)), 0), d) == g && Tail(g.h2, d[TailStart(|d|)..]) == h2
    requires Finish64(Lanes(g.h1, h2)) == r && Combine(r) == v
    ensures Murmur64(e, d, seed) == v
  {
  }

  /** Both lanes, an odd word, a tail and a seed. */
  lemma LongHash()
    ensures Murmur64(Little, [97, 98, 99, 100, 101, 102, 103, 104, 105, 106, 107, 108, 109], 7) == 0xcabb0f38e585ede1
  {
    var d: seq<byte> := [97, 98, 99, 100, 101, 102, 103, 104, 105, 106, 107, 108, 109];
    SmallWords();
    assert WordOf(6) == Plus(Plus(WordOf(3), WordOf(3)), 0) == 6;
    assert WordOf(13) == Plus(Plus(WordOf(6), WordOf(6)), 1) == 0xd;
    assert Xor(7, 0xd) == 0xa;
    assert Load(Little, [97, 98, 99, 100]) == 0x64636261 && Step(0xa, 0x64636261) == 0x7ac6a6a5;
    assert Load(Little, [101, 102, 103, 104]) == 0x68676665 && Step(0, 0x68676665) == 0x7f52464e;
    assert Load(Little, [105, 106, 107, 108]) == 0x6c6b6a69 && Step(0x7ac6a6a5, 0x6c6b6a69) == 0xd30459f5;
    var rest: seq<byte> := [105, 106, 107, 108, 109];
    assert d[..4] == [97, 98, 99, 100] && d[4..8] == [101, 102, 103, 104] && d[8..] == rest && rest[..4] == [105, 106, 107, 108];
    assert Body64(Little, Lanes(0x7ac6a6a5, 0x7f52464e), rest) == Lanes(0xd30459f5, 0x7f52464e);
    assert Body64(Little, Lanes(0xa, 0), d) == Lanes(0xd30459f5, 0x7f52464e);
    var t: seq<byte> := [109];
    assert d[TailStart(13)..] == t && TailWord(t) == 0x6d;
    assert Tail(0x7f52464e, t) == Mul(Xor(0x7f52464e, 0x6d)) == 0xb04bad5f;
    assert Blend(0xd30459f5, 0xb04bad5f, 18) == 0x3f7ede73 && Blend(0xb04bad5f, 0x3f7ede73, 22) == 0xd456814a;
    assert Blend(0x3f7ede73, 0xd456814a, 17) == 0xcabb0f38 && Blend(0xd456814a, 0xcabb0f38, 19) == 0xe585ede1;
    assert Combine(Lanes(0xcabb0f38, 0xe585ede1)) == 0xcabb0f38e585ede1;
    assert Finish64(Lanes(0xd30459f5, 0xb04bad5f)) == Lanes(0xcabb0f38, 0xe585ede1);
    hide Body64, Tail, Finish64, WordOf, TailStart, Step, Load, Mul, TailWord, Xor, Blend, Combine;
    Hash64InStages(Little, d, 7, Lanes(0xd30459f5, 0x7f52464e), 0xb04bad5f, Lanes(0xcabb0f38, 0xe585ede1), 0xcabb0f38e585ede1);
  }

  /** One word, read on a host of the other byte order. */
  lemma BigEndianHash()
    ensures Murmur64(Big, [97, 98, 99, 100], 0) == 0xfd098d99a5fbba63
  {
    var d: seq<byte> := [97, 98, 99, 100];
    SmallWords();
    assert Xor(0, 4) == 4;
    assert Load(Big, [97, 98, 99, 100]) == 0x61626364 && Step(4, 0x61626364) == 0xbbe6bf9f;
    assert d[..4] == d && d[TailStart(4)..] == [];
    assert Body64(Big, Lanes(4, 0), d) == Lanes(0xbbe6bf9f, 0);
    assert Blend(0xbbe6bf9f, 0, 18) == 0x57843e8b && Blend(0, 0x57843e8b, 22) == 0x88fd59b6;
    assert Blend(0x57843e8b, 0x88fd59b6, 17) == 0xfd098d99 && Blend(0x88fd59b6, 0xfd098d99, 19) == 0xa5fbba63;
    assert Combine(Lanes(0xfd098d99, 0xa5fbba63)) == 0xfd098d99a5fbba63;
    assert Finish64(Lanes(0xbbe6bf9f, 0)) == Lanes(0xfd098d99, 0xa5fbba63);
    hide Body64, Tail, Finish64, WordOf, TailStart, Step, Load, Mul, TailWord, Xor, Blend, Combine;
    Hash64InStages(Big, d, 0, Lanes(0xbbe6bf9f, 0), 0, Lanes(0xfd098d99, 0xa5fbba63), 0xfd098d99a5fbba63);
  }
}
