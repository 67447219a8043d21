/** tflib/expert/d3des.c as it executes where `unsigned long` has 64 bits: words may carry junk above bit 31. */
module Des {
  import opened Machine
  import opened DesCipher
  import opened DesKeys
  import Modes = DesModes

  datatype WideHalves = WideHalves(l: bv64, r: bv64)

  function Low(x: bv64): bv32 { (x & 0xffff_ffff) as bv32 }

  function LowHalves(h: WideHalves): Halves { Halves(Low(h.l), Low(h.r)) }

  function Wide(x: bv32): bv64 { x as bv64 }

  /** Nothing above bit 31. */
  predicate Clean(x: bv64) { x & 0xffff_ffff_0000_0000 == 0 }

  function WideXor(x: bv64, y: bv64): bv64 { x ^ y }

  function WideOr(x: bv64, y: bv64): bv64 { x | y }

  lemma LowOfWide(x: bv32)
    ensures Low(Wide(x)) == x
  {
  }

  lemma WideIsClean(x: bv32)
    ensures Clean(Wide(x))
  {
  }

  lemma LowOfXor(x: bv64, y: bv64)
    ensures Low(WideXor(x, y)) == Xor(Low(x), Low(y))
  {
  }

  lemma CleanXor(x: bv64, y: bv64)
    requires Clean(x) && Clean(y)
    ensures Clean(WideXor(x, y))
  {
  }

  lemma OrOfWide(x: bv32, y: bv32)
    ensures WideOr(Wide(x), Wide(y)) == Wide(Or(x, y))
  {
  }

  // ----- the exchanges: junk shifted down from above bit 31 is always masked away -----

  function WideExchange4(h: WideHalves): WideHalves {
    var work := ((h.l >> 4) ^ h.r) & 0x0f0f0f0f;
    WideHalves(h.l ^ (work << 4), h.r ^ work)
  }

  lemma LowOfLeft4(a: bv64, b: bv64)
    ensures Low(a ^ ((((a >> 4) ^ b) & 0x0f0f0f0f) << 4)) == Exchange4(Halves(Low(a), Low(b))).l
  {
  }

  lemma LowOfRight4(a: bv64, b: bv64)
    ensures Low(b ^ (((a >> 4) ^ b) & 0x0f0f0f0f)) == Exchange4(Halves(Low(a), Low(b))).r
  {
  }

  lemma LowExchange4(h: WideHalves)
    ensures LowHalves(WideExchange4(h)) == Exchange4(LowHalves(h))
  {
    hide Low, Exchange4;
    LowOfLeft4(h.l, h.r);
    LowOfRight4(h.l, h.r);
  }

  function WideExchange16(h: WideHalves): WideHalves {
    var work := ((h.l >> 16) ^ h.r) & 0x0000ffff;
    WideHalves(h.l ^ (work << 16), h.r ^ work)
  }

  lemma LowOfLeft16(a: bv64, b: bv64)
    ensures Low(a ^ ((((a >> 16) ^ b) & 0x0000ffff) << 16)) == Exchange16(Halves(Low(a), Low(b))).l
  {
  }

  lemma LowOfRight16(a: bv64, b: bv64)
    ensures Low(b ^ (((a >> 16) ^ b) & 0x0000ffff)) == Exchange16(Halves(Low(a), Low(b))).r
  {
  }

  lemma LowExchange16(h: WideHalves)
    ensures LowHalves(WideExchange16(h)) == Exchange16(LowHalves(h))
  {
    hide Low, Exchange16;
    LowOfLeft16(h.l, h.r);
    LowOfRight16(h.l, h.r);
  }

  function WideExchange2(h: WideHalves): WideHalves {
    var work := ((h.l >> 2) ^ h.r) & 0x33333333;
    WideHalves(h.l ^ (work << 2), h.r ^ work)
  }

  lemma LowOfLeft2(a: bv64, b: bv64)
    ensures Low(a ^ ((((a >> 2) ^ b) & 0x33333333) << 2)) == Exchange2(Halves(Low(a), Low(b))).l
  {
  }

  lemma LowOfRight2(a: bv64, b: bv64)
    ensures Low(b ^ (((a >> 2) ^ b) & 0x33333333)) == Exchange2(Halves(Low(a), Low(b))).r
  {
  }

  lemma LowExchange2(h: WideHalves)
    ensures LowHalves(WideExchange2(h)) == Exchange2(LowHalves(h))
  {
    hide Low, Exchange2;
    LowOfLeft2(h.l, h.r);
    LowOfRight2(h.l, h.r);
  }

  function WideExchange8(h: WideHalves): WideHalves {
    var work := ((h.l >> 8) ^ h.r) & 0x00ff00ff;
    WideHalves(h.l ^ (work << 8), h.r ^ work)
  }

  lemma LowOfLeft8(a: bv64, b: bv64)
    ensures Low(a ^ ((((a >> 8) ^ b) & 0x00ff00ff) << 8)) == Exchange8(Halves(Low(a), Low(b))).l
  {
  }

  lemma LowOfRight8(a: bv64, b: bv64)
    ensures Low(b ^ (((a >> 8) ^ b) & 0x00ff00ff)) == Exchange8(Halves(Low(a), Low(b))).r
  {
  }

  lemma LowExchange8(h: WideHalves)
    ensures LowHalves(WideExchange8(h)) == Exchange8(LowHalves(h))
  {
    hide Low, Exchange8;
    LowOfLeft8(h.l, h.r);
    LowOfRight8(h.l, h.r);
  }

  function WideExchange0(h: WideHalves): WideHalves {
    var work := (h.l ^ h.r) & 0xaaaaaaaa;
    WideHalves(h.l ^ work, h.r ^ work)
  }

  lemma LowOfLeft0(a: bv64, b: bv64)
    ensures Low(a ^ ((a ^ b) & 0xaaaaaaaa)) == Exchange0(Halves(Low(a), Low(b))).l
  {
  }

  lemma LowOfRight0(a: bv64, b: bv64)
    ensures Low(b ^ ((a ^ b) & 0xaaaaaaaa)) == Exchange0(Halves(Low(a), Low(b))).r
  {
  }

  lemma LowExchange0(h: WideHalves)
    ensures LowHalves(WideExchange0(h)) == Exchange0(LowHalves(h))
  {
    hide Low, Exchange0;
    LowOfLeft0(h.l, h.r);
    LowOfRight0(h.l, h.r);
  }

  lemma Exchange0KeepsClean(h: WideHalves)
    ensures Clean(h.l) ==> Clean(WideExchange0(h).l)
    ensures Clean(h.r) ==> Clean(WideExchange0(h).r)
  {
  }

  /** Rotate the right half left by one within 32 bits. */
  function WideRotateLeft(h: WideHalves): WideHalves {
    WideHalves(h.l, ((h.r << 1) | ((h.r >> 31) & 1)) & 0xffffffff)
  }

  function WideRotateRight(h: WideHalves): WideHalves {
    WideHalves(h.l, (h.r << 31) | (h.r >> 1))
  }

  lemma LowOfRotatedLeft(x: bv64)
    ensures Low(((x << 1) | ((x >> 31) & 1)) & 0xffffffff) == RotateLeft(Low(x))
  {
  }

  lemma RotatedLeftIsClean(x: bv64)
    ensures Clean(((x << 1) | ((x >> 31) & 1)) & 0xffffffff)
  {
  }

  lemma LowRotateLeft(h: WideHalves)
    ensures LowHalves(WideRotateLeft(h)) == Halves(Low(h.l), RotateLeft(Low(h.r)))
    ensures WideRotateLeft(h).l == h.l && Clean(WideRotateLeft(h).r)
  {
    hide Low, Clean, RotateLeft;
    LowOfRotatedLeft(h.r);
    RotatedLeftIsClean(h.r);
  }

  lemma LowOfRotatedRight(x: bv64)
    requires Clean(x)
    ensures Low((x << 31) | (x >> 1)) == RotateRight(Low(x))
  {
  }

  lemma LowRotateRight(h: WideHalves)
    requires Clean(h.r)
    ensures LowHalves(WideRotateRight(h)) == Halves(Low(h.l), RotateRight(Low(h.r)))
    ensures WideRotateRight(h).l == h.l
  {
    hide Low, Clean, RotateRight;
    LowOfRotatedRight(h.r);
  }

  // ----- the round function -----

  function WideFields(w: bv64): Indices {
    Indices((w & 0x3f) as bv6, ((w >> 8) & 0x3f) as bv6, ((w >> 16) & 0x3f) as bv6, ((w >> 24) & 0x3f) as bv6)
  }

  /** The two values of `work` in one round: the turned half and the half itself, each with its key word. */
  function WideWork(half: bv64, k0: bv64, k1: bv64): WideHalves {
    WideHalves(((half << 28) | (half >> 4)) ^ k0, half ^ k1)
  }

  lemma FieldsOfEven(half: bv64, k0: bv64)
    requires Clean(half)
    ensures WideFields(((half << 28) | (half >> 4)) ^ k0) == Fields(Xor(Turned(Low(half)), Low(k0)))
  {
  }

  lemma FieldsOfOdd(half: bv64, k1: bv64)
    ensures WideFields(half ^ k1) == Fields(Xor(Low(half), Low(k1)))
  {
  }

  lemma FieldsOfWork(half: bv64, k0: bv64, k1: bv64)
    requires Clean(half)
    ensures WideFields(WideWork(half, k0, k1).l) == Fields(Xor(Turned(Low(half)), Low(k0)))
    ensures WideFields(WideWork(half, k0, k1).r) == Fields(Xor(Low(half), Low(k1)))
  {
    hide Clean, WideFields, Fields, Xor, Turned, Low;
    FieldsOfEven(half, k0);
    FieldsOfOdd(half, k1);
  }

  /** The four table entries one key word selects, joined to what is there already. */
  method JoinEntries(v0: bv64, ghost x: bv32, e0: bv32, e1: bv32, e2: bv32, e3: bv32) returns (v: bv64)
    requires v0 == Wide(x)
    ensures v == Wide(Or(Or(Or(Or(x, e0), e1), e2), e3))
  {
    hide Wide, WideOr, Or;
    OrOfWide(x, e0);
    OrOfWide(Or(x, e0), e1);
    OrOfWide(Or(Or(x, e0), e1), e2);
    OrOfWide(Or(Or(Or(x, e0), e1), e2), e3);
    v := WideOr(v0, Wide(e0));
    v := WideOr(v, Wide(e1));
    v := WideOr(v, Wide(e2));
    v := WideOr(v, Wide(e3));
  }

  lemma OrFromNothing(e: bv32)
    ensures Or(0, e) == e
  {
  }

  method RoundValue(t: SpTables, half: bv64, k0: bv64, k1: bv64) returns (fval: bv64)
    requires Clean(half)
    ensures Clean(fval)
    ensures Low(fval) == F(t, Low(half), RoundKey(Low(k0), Low(k1)))
  {
    hide Low, Wide, Clean, Xor, Turned, WideWork, Fields, WideFields, Or;
    FieldsOfWork(half, k0, k1);
    var w := WideFields(WideWork(half, k0, k1).l);
    OrFromNothing(t.sp7(w.i0));
    ghost var x := Or(Or(Or(t.sp7(w.i0), t.sp5(w.i8)), t.sp3(w.i16)), t.sp1(w.i24));
    fval := JoinEntries(Wide(0), 0, t.sp7(w.i0), t.sp5(w.i8), t.sp3(w.i16), t.sp1(w.i24));
    var v := WideFields(WideWork(half, k0, k1).r);
    fval := JoinEntries(fval, x, t.sp8(v.i0), t.sp6(v.i8), t.sp4(v.i16), t.sp2(v.i24));
    x := Or(Or(Or(Or(x, t.sp8(v.i0)), t.sp6(v.i8)), t.sp4(v.i16)), t.sp2(v.i24));
    LowOfWide(x);
    WideIsClean(x);
  }

  // ----- desfunc -----

  /** The round keys a register of 32 machine words stands for: only the low halves count. */
  function KeysOf(words: seq<bv64>): (ks: seq<RoundKey>)
    requires |words| == 32
    ensures |ks| == 16
    ensures forall i :: 0 <= i < 16 ==> ks[i] == RoundKey(Low(words[2 * i]), Low(words[2 * i + 1]))
  {
    seq(16, i requires 0 <= i < 16 => RoundKey(Low(words[2 * i]), Low(words[2 * i + 1])))
  }

  function BlockOf(words: seq<bv64>): Halves
    requires |words| == 2
  {
    Halves(Low(words[0]), Low(words[1]))
  }

  function WideSwap(h: WideHalves): WideHalves { WideHalves(h.r, h.l) }

  method InitialPermutation(b0: bv64, b1: bv64) returns (leftt: bv64, right: bv64)
    ensures Halves(Low(leftt), Low(right)) == Ip(Halves(Low(b0), Low(b1)))
    ensures Clean(leftt) && Clean(right)
  {
    hide Low, Clean, Exchange4, Exchange16, Exchange2, Exchange8, Exchange0, RotateLeft, WideRotateLeft,
         WideExchange4, WideExchange16, WideExchange2, WideExchange8, WideExchange0;
    var h := WideHalves(b0, b1);
    LowExchange4(h);
    h := WideExchange4(h);
    LowExchange16(h);
    h := WideSwap(WideExchange16(h));
    LowExchange2(h);
    h := WideExchange2(h);
    LowExchange8(h);
    h := WideSwap(WideExchange8(h));
    LowRotateLeft(h);
    h := WideRotateLeft(h);
    LowExchange0(h);
    Exchange0KeepsClean(h);
    h := WideSwap(WideExchange0(h));
    LowRotateLeft(h);
    h := WideSwap(WideRotateLeft(h));
    leftt, right := h.l, h.r;
  }

  method FinalPermutation(l: bv64, r: bv64) returns (b0: bv64, b1: bv64)
    requires Clean(l) && Clean(r)
    ensures Halves(Low(b0), Low(b1)) == Fp(Halves(Low(l), Low(r)))
  {
    hide Low, Clean, Exchange4, Exchange16, Exchange2, Exchange8, Exchange0, RotateRight, WideRotateRight,
         WideExchange4, WideExchange16, WideExchange2, WideExchange8, WideExchange0;
    var h := WideHalves(l, r);
    LowRotateRight(h);
    h := WideRotateRight(h);
    LowExchange0(h);
    Exchange0KeepsClean(h);
    h := WideSwap(WideExchange0(h));
    LowRotateRight(h);
    h := WideSwap(WideRotateRight(h));
    LowExchange8(h);
    h := WideExchange8(h);
    LowExchange2(h);
    h := WideSwap(WideExchange2(h));
    LowExchange16(h);
    h := WideExchange16(h);
    LowExchange4(h);
    h := WideExchange4(h);
    b0, b1 := h.l, h.r;
  }

  lemma OneMoreRound(t: SpTables, h: Halves, ks: seq<RoundKey>, n: nat)
    requires n < |ks|
    ensures Rounds(t, h, ks[..n + 1]) == Round(t, Rounds(t, h, ks[..n]), ks[n])
  {
    hide *;
    assert ks[..n + 1] == ks[..n] + [ks[n]];
    RoundsAppend(t, h, ks[..n], ks[n]);
  }

  /** The block's low words end up as the 32-bit cipher's, whatever junk block and keys carry above them. */
  method Desfunc(t: SpTables, block: array<bv64>, keys: array<bv64>)
    requires block.Length == 2 && keys.Length == 32 && block != keys
    modifies block
    ensures BlockOf(block[..]) == Crypt(t, KeysOf(keys[..]), BlockOf(old(block[..])))
  {
    hide Low, Clean, Ip, Fp, Rounds, F, Xor, WideXor;
    var leftt, right := InitialPermutation(block[0], block[1]);
    ghost var ks, h := KeysOf(keys[..]), Halves(Low(leftt), Low(right));
    assert Rounds(t, h, ks[..0]) == h by { RoundsOfNone(t, h); assert ks[..0] == []; }
    for round := 0 to 8
      invariant Clean(leftt) && Clean(right)
      invariant Halves(Low(leftt), Low(right)) == Rounds(t, h, ks[..2 * round])
    {
      var fval := RoundValue(t, right, keys[4 * round], keys[4 * round + 1]);
      LowOfXor(leftt, fval);
      CleanXor(leftt, fval);
      OneMoreRound(t, h, ks, 2 * round);
      leftt := WideXor(leftt, fval);
      fval := RoundValue(t, leftt, keys[4 * round + 2], keys[4 * round + 3]);
      LowOfXor(right, fval);
      CleanXor(right, fval);
      OneMoreRound(t, h, ks, 2 * round + 1);
      right := WideXor(right, fval);
    }
    assert ks[..16] == ks;
    block[0], block[1] := FinalPermutation(leftt, right);
  }

  lemma RoundsOfNone(t: SpTables, h: Halves)
    ensures Rounds(t, h, []) == h
  {
  }
}
