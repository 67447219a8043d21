/** The two Murmur hashes of tflib/expert/tf_hash.c: single-word changes never collide. */
module Murmur {
  import opened Machine
  import opened Numbers

  // ----- multiplication by the odd constant is a bijection modulo 2^32 -----

  function Mul(x: bv32): bv32 { x * 0x5bd1e995 }

  function UnMul(x: bv32): bv32 { x * 0xe59b19bd }

  lemma ProductUndone(x: bv32)
    ensures UnMul(x * 0x5bd1e995) == x
  {
  }

  lemma MulUndone(x: bv32)
    ensures UnMul(Mul(x)) == x
  {
    hide UnMul;
    ProductUndone(x);
  }

  lemma MulInjective(x: bv32, y: bv32)
    requires Mul(x) == Mul(y)
    ensures x == y
  {
    hide *;
    MulUndone(x);
    MulUndone(y);
  }

  // ----- so are xor with a shifted copy, and xor with a fixed word -----

  function XorShift24(x: bv32): bv32 { x ^ (x >> 24) }

  function XorShift15(x: bv32): bv32 { x ^ (x >> 15) }

  function XorShift13(x: bv32): bv32 { x ^ (x >> 13) }

  function UnXorShift15(x: bv32): bv32 { x ^ (x >> 15) ^ (x >> 30) }

  function UnXorShift13(x: bv32): bv32 { x ^ (x >> 13) ^ (x >> 26) }

  lemma ShiftedUndone(x: bv32)
    ensures XorShift24(x ^ (x >> 24)) == x
    ensures UnXorShift15(x ^ (x >> 15)) == x
    ensures UnXorShift13(x ^ (x >> 13)) == x
  {
  }

  lemma XorShift24Injective(x: bv32, y: bv32)
    requires XorShift24(x) == XorShift24(y)
    ensures x == y
  {
    ShiftedUndone(x);
    ShiftedUndone(y);
  }

  lemma XorShift15Injective(x: bv32, y: bv32)
    requires XorShift15(x) == XorShift15(y)
    ensures x == y
  {
    hide UnXorShift15;
    ShiftedUndone(x);
    ShiftedUndone(y);
  }

  lemma XorShift13Injective(x: bv32, y: bv32)
    requires XorShift13(x) == XorShift13(y)
    ensures x == y
  {
    hide UnXorShift13;
    ShiftedUndone(x);
    ShiftedUndone(y);
  }

  lemma XorInjective(x: bv32, y: bv32, z: bv32)
    ensures Xor(x, z) == Xor(y, z) ==> x == y
    ensures Xor(z, x) == Xor(z, y) ==> x == y
  {
  }

  // ----- one word is mixed into the state -----

  function Mix(k: bv32): bv32 {
    Mul(XorShift24(Mul(k)))
  }

  function Step(h: bv32, k: bv32): bv32 {
    Xor(Mul(h), Mix(k))
  }

  lemma MixInjective(k: bv32, l: bv32)
    requires Mix(k) == Mix(l)
    ensures k == l
  {
    hide Mul, XorShift24;
    MulInjective(XorShift24(Mul(k)), XorShift24(Mul(l)));
    XorShift24Injective(Mul(k), Mul(l));
    MulInjective(k, l);
  }

  lemma StepInjective(g: bv32, h: bv32, k: bv32, l: bv32)
    requires Step(g, k) == Step(h, l)
    ensures g == h <==> k == l
  {
    hide Mul, Mix, Xor;
    XorInjective(Mul(g), Mul(h), Mix(k));
    XorInjective(Mix(k), Mix(l), Mul(g));
    if g == h {
      MixInjective(k, l);
    } else if k == l {
      MulInjective(g, h);
    }
  }

  // ----- the tail of fewer than four bytes (the fall-through switch) -----

  function Tail(h: bv32, t: seq<byte>): bv32
    requires |t| < 4
  {
    if |t| == 0 then h else Mul(Xor(h, TailWord(t)))
  }

  function TailWord(t: seq<byte>): bv32
    requires |t| < 4
  {
    Join(if |t| > 0 then t[0] else 0, if |t| > 1 then t[1] else 0, if |t| > 2 then t[2] else 0, 0)
  }

  lemma TailWordInjective(s: seq<byte>, t: seq<byte>)
    requires |s| == |t| < 4
    requires TailWord(s) == TailWord(t)
    ensures s == t
  {
    hide Join;
    SplitJoin(if |s| > 0 then s[0] else 0, if |s| > 1 then s[1] else 0, if |s| > 2 then s[2] else 0, 0);
    SplitJoin(if |t| > 0 then t[0] else 0, if |t| > 1 then t[1] else 0, if |t| > 2 then t[2] else 0, 0);
  }

  lemma TailInjective(g: bv32, h: bv32, s: seq<byte>, t: seq<byte>)
    requires |s| == |t| < 4
    requires Tail(g, s) == Tail(h, t)
    ensures g == h <==> s == t
  {
    hide Mul, Xor, TailWord;
    if |s| > 0 {
      MulInjective(Xor(g, TailWord(s)), Xor(h, TailWord(t)));
      XorInjective(g, h, TailWord(s));
      XorInjective(TailWord(s), TailWord(t), g);
      if g == h {
        TailWordInjective(s, t);
      }
    }
  }

  // ----- what "differ in one place only" means -----

  /** Equal lengths, and all the difference lies inside the aligned four bytes at word w. */
  ghost predicate DifferInWord(a: seq<byte>, b: seq<byte>, w: nat) {
    && |a| == |b|
    && 4 * w + 4 <= |a|
    && a[..4 * w] == b[..4 * w]
    && a[4 * w..4 * w + 4] != b[4 * w..4 * w + 4]
    && a[4 * w + 4..] == b[4 * w + 4..]
  }

  /** Where the bytes that do not fill a word begin. */
  function TailStart(n: nat): (t: nat)
    ensures t <= n < t + 4 && t % 4 == 0
  {
    n / 4 * 4
  }

  ghost predicate DifferInTail(a: seq<byte>, b: seq<byte>) {
    && |a| == |b|
    && a[..TailStart(|a|)] == b[..TailStart(|a|)]
    && a[TailStart(|a|)..] != b[TailStart(|a|)..]
  }

  lemma DifferAfterHead(a: seq<byte>, b: seq<byte>, w: nat)
    requires DifferInWord(a, b, w) && w > 0
    ensures a[..4] == b[..4] && DifferInWord(a[4..], b[4..], w - 1)
  {
    assert a[..4] == a[..4 * w][..4] && b[..4] == b[..4 * w][..4];
    assert a[4..][..4 * (w - 1)] == a[..4 * w][4..] && b[4..][..4 * (w - 1)] == b[..4 * w][4..];
    assert a[4..][4 * (w - 1)..4 * (w - 1) + 4] == a[4 * w..4 * w + 4];
    assert b[4..][4 * (w - 1)..4 * (w - 1) + 4] == b[4 * w..4 * w + 4];
    assert a[4..][4 * (w - 1) + 4..] == a[4 * w + 4..] && b[4..][4 * (w - 1) + 4..] == b[4 * w + 4..];
  }

  // ----- the 32-bit hash -----

  /** The state after the whole words of d. */
  function Body32(h: bv32, d: seq<byte>): bv32
    decreases |d|
  {
    if |d| < 4 then h else Body32(Step(h, Load(Little, d[..4])), d[4..])
  }

  function Finish32(h: bv32): bv32 {
    XorShift15(Mul(XorShift13(h)))
  }

  function HashFrom(h: bv32, d: seq<byte>): bv32 {
    Finish32(Tail(Body32(h, d), d[TailStart(|d|)..]))
  }

  /** The length seeds the state, truncated to 32 bits. */
  function Seed32(len: nat): bv32 { WordOf(len) }

  function Murmur32(d: seq<byte>): bv32 {
    HashFrom(Seed32(|d|), d)
  }

  lemma Finish32Injective(g: bv32, h: bv32)
    requires Finish32(g) == Finish32(h)
    ensures g == h
  {
    hide Mul, XorShift13, XorShift15;
    XorShift15Injective(Mul(XorShift13(g)), Mul(XorShift13(h)));
    MulInjective(XorShift13(g), XorShift13(h));
    XorShift13Injective(g, h);
  }

  /** Different states stay different whatever words follow. */
  lemma {:induction false} Body32InjectiveInState(g: bv32, h: bv32, d: seq<byte>)
    requires g != h
    ensures Body32(g, d) != Body32(h, d)
    decreases |d|
  {
    if |d| >= 4 {
      var k := Load(Little, d[..4]);
      assert Step(g, k) != Step(h, k) by {
        hide Step;
        if Step(g, k) == Step(h, k) { StepInjective(g, h, k, k); }
      }
      hide Step, Load;
      Body32InjectiveInState(Step(g, k), Step(h, k), d[4..]);
    }
  }

  lemma StepsDiffer(e: Endian, h: bv32, u: seq<byte>, v: seq<byte>)
    requires |u| == |v| == 4 && u != v
    ensures Step(h, Load(e, u)) != Step(h, Load(e, v))
  {
    hide Step, Load, Store;
    StoreLoad(e, u);
    StoreLoad(e, v);
    if Step(h, Load(e, u)) == Step(h, Load(e, v)) {
      StepInjective(h, h, Load(e, u), Load(e, v));
    }
  }

  lemma {:induction false} Body32SeparatesWords(h: bv32, a: seq<byte>, b: seq<byte>, w: nat)
    requires DifferInWord(a, b, w)
    ensures Body32(h, a) != Body32(h, b)
    decreases |a|
  {
    hide Step, Load;
    if w == 0 {
      StepsDiffer(Little, h, a[..4], b[..4]);
      Body32InjectiveInState(Step(h, Load(Little, a[..4])), Step(h, Load(Little, b[..4])), a[4..]);
    } else {
      DifferAfterHead(a, b, w);
      Body32SeparatesWords(Step(h, Load(Little, a[..4])), a[4..], b[4..], w - 1);
    }
  }

  /** The state after the whole words does not depend on the tail. */
  lemma {:induction false} Body32IgnoresTail(h: bv32, a: seq<byte>, b: seq<byte>)
    requires |a| == |b| && a[..TailStart(|a|)] == b[..TailStart(|a|)]
    ensures Body32(h, a) == Body32(h, b)
    decreases |a|
  {
    hide Step, Load;
    if |a| >= 4 {
      var t := TailStart(|a|);
      assert a[..4] == a[..t][..4] && b[..4] == b[..t][..4];
      assert TailStart(|a[4..]|) == t - 4;
      assert a[4..][..t - 4] == a[..t][4..] && b[4..][..t - 4] == b[..t][4..];
      Body32IgnoresTail(Step(h, Load(Little, a[..4])), a[4..], b[4..]);
    }
  }

  /** All the difference beyond the last whole word, or none of it. */
  lemma SameTail(a: seq<byte>, b: seq<byte>, w: nat)
    requires DifferInWord(a, b, w)
    ensures a[TailStart(|a|)..] == b[TailStart(|b|)..]
  {
    var t, u := TailStart(|a|), 4 * w + 4;
    assert a[t..] == a[u..][t - u..] && b[t..] == b[u..][t - u..];
  }

  lemma HashFromSeparates(h: bv32, a: seq<byte>, b: seq<byte>, w: nat)
    requires DifferInWord(a, b, w) || DifferInTail(a, b)
    ensures HashFrom(h, a) != HashFrom(h, b)
  {
    hide Mul, Step, Load, Tail, Finish32, Body32, TailStart;
    var t := TailStart(|a|);
    var g1, g2 := Body32(h, a), Body32(h, b);
    if DifferInTail(a, b) {
      Body32IgnoresTail(h, a, b);
    } else {
      Body32SeparatesWords(h, a, b, w);
      SameTail(a, b, w);
    }
    if HashFrom(h, a) == HashFrom(h, b) {
      Finish32Injective(Tail(g1, a[t..]), Tail(g2, b[t..]));
      TailInjective(g1, g2, a[t..], b[t..]);
    }
  }

  /** Inputs of one length that differ in a single aligned word, or only in the tail, never collide. */
  lemma Murmur32NoCollision(a: seq<byte>, b: seq<byte>, w: nat)
    requires DifferInWord(a, b, w) || DifferInTail(a, b)
    ensures Murmur32(a) != Murmur32(b)
  {
    hide HashFrom, Seed32;
    HashFromSeparates(Seed32(|a|), a, b, w);
  }

  // ----- the 64-bit hash: two lanes fed alternately, words read in host order -----

  datatype Lanes = Lanes(h1: bv32, h2: bv32)

  function Body64(e: Endian, p: Lanes, d: seq<byte>): Lanes
    decreases |d|
  {
    if |d| >= 8 then
      Body64(e, Lanes(Step(p.h1, Load(e, d[..4])), Step(p.h2, Load(e, d[4..8]))), d[8..])
    else if |d| >= 4 then
      Lanes(Step(p.h1, Load(e, d[..4])), p.h2)
    else
      p
  }

  function Shifted(h: bv32, s: nat): bv32
    requires s in {17, 18, 19, 22}
  {
    if s == 17 then h >> 17 else if s == 18 then h >> 18 else if s == 19 then h >> 19 else h >> 22
  }

  /** One lane absorbs a shift of the other. */
  function Blend(h: bv32, other: bv32, s: nat): bv32
    requires s in {17, 18, 19, 22}
  {
    Mul(Xor(h, Shifted(other, s)))
  }

  function Finish64(p: Lanes): Lanes {
    var a1 := Blend(p.h1, p.h2, 18);
    var a2 := Blend(p.h2, a1, 22);
    var b1 := Blend(a1, a2, 17);
    Lanes(b1, Blend(a2, b1, 19))
  }

  function Combine(p: Lanes): bv64 {
    (p.h1 as bv64 << 32) | p.h2 as bv64
  }

  function Seed64(seed: bv32, len: nat): Lanes {
    Lanes(Xor(seed, WordOf(len)), 0)
  }

  function Hash64From(e: Endian, p: Lanes, d: seq<byte>): bv64 {
    var q := Body64(e, p, d);
    Combine(Finish64(Lanes(q.h1, Tail(q.h2, d[TailStart(|d|)..]))))
  }

  function Murmur64(e: Endian, d: seq<byte>, seed: bv32): bv64 {
    Hash64From(e, Seed64(seed, |d|), d)
  }

  lemma BlendInjective(g: bv32, h: bv32, other: bv32, s: nat)
    requires s in {17, 18, 19, 22}
    requires Blend(g, other, s) == Blend(h, other, s)
    ensures g == h
  {
    hide Mul, Xor, Shifted;
    MulInjective(Xor(g, Shifted(other, s)), Xor(h, Shifted(other, s)));
    XorInjective(g, h, Shifted(other, s));
  }

  lemma Finish64Injective(p: Lanes, q: Lanes)
    requires Finish64(p) == Finish64(q)
    ensures p == q
  {
    hide Blend;
    var a1, c1 := Blend(p.h1, p.h2, 18), Blend(q.h1, q.h2, 18);
    var a2, c2 := Blend(p.h2, a1, 22), Blend(q.h2, c1, 22);
    var b1 := Blend(a1, a2, 17);
    BlendInjective(a2, c2, b1, 19);
    BlendInjective(a1, c1, a2, 17);
    BlendInjective(p.h2, q.h2, a1, 22);
    BlendInjective(p.h1, q.h1, p.h2, 18);
  }

  function High(x: bv64): bv32 { ((x >> 32) & 0xffff_ffff) as bv32 }

  function Low(x: bv64): bv32 { (x & 0xffff_ffff) as bv32 }

  lemma CombineSplits(p: Lanes)
    ensures High(Combine(p)) == p.h1 && Low(Combine(p)) == p.h2
  {
  }

  lemma StepDiffers(g: bv32, h: bv32, k: bv32)
    requires g != h
    ensures Step(g, k) != Step(h, k)
  {
    hide *;
    if Step(g, k) == Step(h, k) { StepInjective(g, h, k, k); }
  }

  lemma {:induction false} Body64InjectiveInState(e: Endian, p: Lanes, q: Lanes, d: seq<byte>)
    requires p != q
    ensures Body64(e, p, d) != Body64(e, q, d)
    decreases |d|
  {
    hide Step, Load;
    if |d| >= 4 {
      if p.h1 != q.h1 { StepDiffers(p.h1, q.h1, Load(e, d[..4])); }
      if |d| >= 8 {
        if p.h2 != q.h2 { StepDiffers(p.h2, q.h2, Load(e, d[4..8])); }
        Body64InjectiveInState(e,
                               Lanes(Step(p.h1, Load(e, d[..4])), Step(p.h2, Load(e, d[4..8]))),
                               Lanes(Step(q.h1, Load(e, d[..4])), Step(q.h2, Load(e, d[4..8]))), d[8..]);
      }
    }
  }

  lemma DifferInSecondWord(a: seq<byte>, b: seq<byte>, w: nat)
    requires DifferInWord(a, b, w)
    ensures w == 0 && |a| >= 8 ==> a[4..8] == b[4..8] && a[8..] == b[8..]
    ensures w == 1 ==> a[..4] == b[..4] && a[4..8] != b[4..8] && a[8..] == b[8..]
    ensures w >= 2 ==> a[..4] == b[..4] && a[4..8] == b[4..8] && DifferInWord(a[8..], b[8..], w - 2)
  {
    if w > 0 {
      DifferAfterHead(a, b, w);
      var a', b' := a[4..], b[4..];
      assert a'[..4] == a[4..8] && b'[..4] == b[4..8] && a'[4..] == a[8..] && b'[4..] == b[8..];
      if w > 1 { DifferAfterHead(a', b', w - 1); }
    } else if |a| >= 8 {
      assert a[4..8] == a[4..][..4] && a[8..] == a[4..][4..];
      assert b[4..8] == b[4..][..4] && b[8..] == b[4..][4..];
    }
  }

  lemma {:induction false} Body64SeparatesWords(e: Endian, p: Lanes, a: seq<byte>, b: seq<byte>, w: nat)
    requires DifferInWord(a, b, w)
    ensures Body64(e, p, a) != Body64(e, p, b)
    decreases |a|
  {
    hide Step, Load;
    DifferInSecondWord(a, b, w);
    if w == 0 {
      assert a[..4] == a[4 * w..4 * w + 4] && b[..4] == b[4 * w..4 * w + 4];
      StepsDiffer(e, p.h1, a[..4], b[..4]);
    } else if w == 1 {
      StepsDiffer(e, p.h2, a[4..8], b[4..8]);
    }
    if w >= 2 {
      Body64SeparatesWords(e, Lanes(Step(p.h1, Load(e, a[..4])), Step(p.h2, Load(e, a[4..8]))), a[8..], b[8..], w - 2);
    } else if |a| >= 8 {
      Body64InjectiveInState(e,
                             Lanes(Step(p.h1, Load(e, a[..4])), Step(p.h2, Load(e, a[4..8]))),
                             Lanes(Step(p.h1, Load(e, b[..4])), Step(p.h2, Load(e, b[4..8]))), a[8..]);
    }
  }

  lemma {:induction false} Body64IgnoresTail(e: Endian, p: Lanes, a: seq<byte>, b: seq<byte>)
    requires |a| == |b| && a[..TailStart(|a|)] == b[..TailStart(|a|)]
    ensures Body64(e, p, a) == Body64(e, p, b)
    decreases |a|
  {
    hide Step, Load;
    var t := TailStart(|a|);
    if |a| >= 4 {
      assert a[..4] == a[..t][..4] && b[..4] == b[..t][..4];
    }
    if |a| >= 8 {
      assert a[4..8] == a[..t][4..8] && b[4..8] == b[..t][4..8];
      assert TailStart(|a[8..]|) == t - 8;
      assert a[8..][..t - 8] == a[..t][8..] && b[8..][..t - 8] == b[..t][8..];
      Body64IgnoresTail(e, Lanes(Step(p.h1, Load(e, a[..4])), Step(p.h2, Load(e, a[4..8]))), a[8..], b[8..]);
    }
  }

  lemma Hash64FromSeparates(e: Endian, p: Lanes, a: seq<byte>, b: seq<byte>, w: nat)
    requires DifferInWord(a, b, w) || DifferInTail(a, b)
    ensures Hash64From(e, p, a) != Hash64From(e, p, b)
  {
    hide Step, Load, Tail, Finish64, Body64, TailStart, Combine, High, Low;
    var t := TailStart(|a|);
    var g, h := Body64(e, p, a), Body64(e, p, b);
    if DifferInTail(a, b) {
      Body64IgnoresTail(e, p, a, b);
    } else {
      Body64SeparatesWords(e, p, a, b, w);
      SameTail(a, b, w);
    }
    if Hash64From(e, p, a) == Hash64From(e, p, b) {
      var g', h' := Lanes(g.h1, Tail(g.h2, a[t..])), Lanes(h.h1, Tail(h.h2, b[t..]));
      CombineSplits(Finish64(g'));
      CombineSplits(Finish64(h'));
      Finish64Injective(g', h');
      TailInjective(g.h2, h.h2, a[t..], b[t..]);
    }
  }

  /** The same for the 64-bit hash, for every seed and host byte order. */
  lemma Murmur64NoCollision(e: Endian, a: seq<byte>, b: seq<byte>, w: nat, seed: bv32)
    requires DifferInWord(a, b, w) || DifferInTail(a, b)
    ensures Murmur64(e, a, seed) != Murmur64(e, b, seed)
  {
    hide Hash64From, Seed64;
    Hash64FromSeparates(e, Seed64(seed, |a|), a, b, w);
  }
}
