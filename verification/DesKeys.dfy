/** The key schedule of tflib/expert/d3des.c: raw 24-bit halves "cooked" into field-aligned words. */
module DesKeys {
  import opened Machine
  import opened DesCipher

  datatype Mode = EN0 | DE1

  function Opposite(m: Mode): Mode { if m == EN0 then DE1 else EN0 }

  type KeyBitIndex = n: nat | n < 64

  type RegisterIndex = n: nat | n < 56

  type Turns = n: nat | n <= 28

  const PC1: seq<KeyBitIndex> :=
    [56, 48, 40, 32, 24, 16,  8,  0, 57, 49, 41, 33, 25, 17] +
    [9,  1, 58, 50, 42, 34, 26, 18, 10,  2, 59, 51, 43, 35] +
    [62, 54, 46, 38, 30, 22, 14,  6, 61, 53, 45, 37, 29, 21] +
    [13,  5, 60, 52, 44, 36, 28, 20, 12,  4, 27, 19, 11,  3]

  const TOTROT: seq<Turns> := [1, 2, 4, 6, 8, 10, 12, 14, 15, 17, 19, 21, 23, 25, 27, 28]

  const PC2: seq<RegisterIndex> :=
    [13, 16, 10, 23,  0,  4,  2, 27, 14,  5, 20,  9] +
    [22, 18, 11,  3, 25,  7, 15,  6, 26, 19, 12,  1] +
    [40, 51, 30, 36, 46, 54, 29, 39, 50, 44, 32, 47] +
    [43, 48, 38, 55, 33, 52, 45, 41, 49, 35, 28, 31]

  function ByteBit(m: nat): byte
    requires m < 8
  {
    match m
    case 0 => 0x80 case 1 => 0x40 case 2 => 0x20 case 3 => 0x10
    case 4 => 0x08 case 5 => 0x04 case 6 => 0x02 case 7 => 0x01
  }

  function BigByte(j: nat): bv32
    requires j < 24
  {
    match j
    case 0 => 0x800000 case 1 => 0x400000 case 2 => 0x200000 case 3 => 0x100000 case 4 => 0x080000 case 5 => 0x040000
    case 6 => 0x020000 case 7 => 0x010000 case 8 => 0x008000 case 9 => 0x004000 case 10 => 0x002000 case 11 => 0x001000
    case 12 => 0x000800 case 13 => 0x000400 case 14 => 0x000200 case 15 => 0x000100 case 16 => 0x000080 case 17 => 0x000040
    case 18 => 0x000020 case 19 => 0x000010 case 20 => 0x000008 case 21 => 0x000004 case 22 => 0x000002 case 23 => 0x000001
  }

  /** The union of the first n big bytes. */
  function Mask(n: nat): bv32
    requires n <= 24
  {
    match n
    case 0 => 0x000000 case 1 => 0x800000 case 2 => 0xc00000 case 3 => 0xe00000 case 4 => 0xf00000
    case 5 => 0xf80000 case 6 => 0xfc0000 case 7 => 0xfe0000 case 8 => 0xff0000 case 9 => 0xff8000
    case 10 => 0xffc000 case 11 => 0xffe000 case 12 => 0xfff000 case 13 => 0xfff800 case 14 => 0xfffc00
    case 15 => 0xfffe00 case 16 => 0xffff00 case 17 => 0xffff80 case 18 => 0xffffc0 case 19 => 0xffffe0
    case 20 => 0xfffff0 case 21 => 0xfffff8 case 22 => 0xfffffc case 23 => 0xfffffe case 24 => 0xffffff
  }

  // ----- one raw word: 24 selected bits, placed one by one -----

  function Placed(p: seq<bool>, n: nat): bv32
    requires n <= |p| == 24
  {
    if n == 0 then 0 else if p[n - 1] then Or(Placed(p, n - 1), BigByte(n - 1)) else Placed(p, n - 1)
  }

  function Negated(p: seq<bool>): (r: seq<bool>)
    ensures |r| == |p| && forall i :: 0 <= i < |p| ==> r[i] == !p[i]
  {
    seq(|p|, i requires 0 <= i < |p| => !p[i])
  }

  lemma MaskGrows(n: nat)
    requires n < 24
    ensures Or(Mask(n), BigByte(n)) == Mask(n + 1)
  {
  }

  lemma MaskApart(n: nat)
    requires n < 24
    ensures Apart(Mask(n), BigByte(n))
  {
  }

  function And(x: bv32, y: bv32): bv32 { x & y }

  predicate Apart(x: bv32, y: bv32) { And(x, y) == 0 }

  lemma OrAbsorbs(a: bv32, m: bv32, b: bv32)
    requires Or(a, m) == m
    ensures Or(Or(a, b), Or(m, b)) == Or(m, b)
  {
  }

  lemma OrAbsorbsMore(a: bv32, m: bv32, b: bv32)
    requires Or(a, m) == m
    ensures Or(a, Or(m, b)) == Or(m, b)
  {
  }

  lemma OrIsXor(x: bv32, b: bv32)
    requires Apart(x, b)
    ensures Or(x, b) == Xor(x, b)
  {
    hide Or, Xor, And;
    OrSplits(x, b);
    OrNothing(Xor(x, b));
  }

  lemma OrSplits(x: bv32, b: bv32)
    ensures Or(x, b) == Or(Xor(x, b), And(x, b))
  {
  }

  lemma OrNothing(x: bv32)
    ensures Or(x, 0) == x
  {
  }

  lemma PartApart(a: bv32, m: bv32, b: bv32)
    requires Or(a, m) == m && Apart(m, b)
    ensures Apart(a, b)
  {
  }

  lemma XorApart(a: bv32, m: bv32, b: bv32)
    requires Apart(a, b) && Apart(m, b)
    ensures Apart(Xor(a, m), b)
  {
  }

  lemma XorCancelsRight(a: bv32, m: bv32, b: bv32)
    ensures Xor(Xor(a, b), Xor(m, b)) == Xor(a, m)
  {
    hide *;
    XorSwapped(a, b, Xor(m, b));
    XorAssociative(a, m, b);
    XorTwice(Xor(a, m), b);
  }

  /** A new bit present on one side only shows in the xor; present on both it does not. */
  lemma XorOfNewBit(a: bv32, m: bv32, b: bv32)
    requires Or(a, m) == m && Apart(m, b)
    ensures Xor(Or(a, b), Or(m, b)) == Xor(a, m)
    ensures Xor(a, Or(m, b)) == Or(Xor(a, m), b)
  {
    hide Or, Xor, Apart;
    PartApart(a, m, b);
    OrIsXor(a, b);
    OrIsXor(m, b);
    XorCancelsRight(a, m, b);
    XorApart(a, m, b);
    OrIsXor(Xor(a, m), b);
    XorAssociative(a, m, b);
  }

  lemma {:induction false} PlacedOfNegated(p: seq<bool>, n: nat)
    requires n <= |p| == 24
    ensures Or(Placed(p, n), Mask(n)) == Mask(n)
    ensures Placed(Negated(p), n) == Xor(Placed(p, n), Mask(n))
  {
    if n > 0 {
      PlacedOfNegated(p, n - 1);
      hide Mask, BigByte, Or, Xor, Apart;
      MaskGrows(n - 1);
      MaskApart(n - 1);
      var a, m, b := Placed(p, n - 1), Mask(n - 1), BigByte(n - 1);
      OrAbsorbs(a, m, b);
      OrAbsorbsMore(a, m, b);
      XorOfNewBit(a, m, b);
    }
  }

  // ----- the registers C and D and their rotations -----

  /** Bit n of the key, numbered from the most significant bit of its first byte. */
  function KeyBit(key: seq<byte>, n: KeyBitIndex): bool
    requires |key| == 8
  {
    key[n / 8] & ByteBit(n % 8) != 0
  }

  function Permuted(key: seq<byte>): (r: seq<bool>)
    requires |key| == 8
    ensures |r| == 56 && forall j :: 0 <= j < 56 ==> r[j] == KeyBit(key, PC1[j])
  {
    seq(56, j requires 0 <= j < 56 => KeyBit(key, PC1[j]))
  }

  /** Where bit j of the rotated registers comes from. */
  function Source(j: nat, turns: Turns): (l: nat)
    requires j < 56
    ensures l < 56 && (l < 28 <==> j < 28)
  {
    var l := j + turns;
    if j < 28 then (if l < 28 then l else l - 28) else (if l < 56 then l else l - 28)
  }

  function Rotated(p: seq<bool>, turns: Turns): (r: seq<bool>)
    requires |p| == 56
    ensures |r| == 56 && forall j :: 0 <= j < 56 ==> r[j] == p[Source(j, turns)]
  {
    seq(56, j requires 0 <= j < 56 => p[Source(j, turns)])
  }

  /** The 24 bits PC2 picks for half a round key: from C for the first half, from D for the second. */
  function Picked(p: seq<bool>, second: bool): (r: seq<bool>)
    requires |p| == 56
    ensures |r| == 24 && forall j :: 0 <= j < 24 ==> r[j] == p[PC2[if second then j + 24 else j]]
  {
    seq(24, j requires 0 <= j < 24 => p[PC2[if second then j + 24 else j]])
  }

  function Raw(key: seq<byte>, i: nat, second: bool): bv32
    requires |key| == 8 && i < 16
  {
    Placed(Picked(Rotated(Permuted(key), TOTROT[i]), second), 24)
  }

  // ----- cooking: four six-bit fields per word -----

  function CookEven(raw0: bv32, raw1: bv32): bv32 {
    ((raw0 & 0x00fc0000) << 6) | ((raw0 & 0x00000fc0) << 10) |
    ((raw1 & 0x00fc0000) >> 10) | ((raw1 & 0x00000fc0) >> 6)
  }

  function CookOdd(raw0: bv32, raw1: bv32): bv32 {
    ((raw0 & 0x0003f000) << 12) | ((raw0 & 0x0000003f) << 16) |
    ((raw1 & 0x0003f000) >> 4) | (raw1 & 0x0000003f)
  }

  function Cooked(key: seq<byte>, i: nat): RoundKey
    requires |key| == 8 && i < 16
  {
    RoundKey(CookEven(Raw(key, i, false), Raw(key, i, true)), CookOdd(Raw(key, i, false), Raw(key, i, true)))
  }

  /** The 16 round keys in the order the rounds consume them. */
  function Schedule(key: seq<byte>, mode: Mode): (r: seq<RoundKey>)
    requires |key| == 8
    ensures |r| == 16
    ensures forall i :: 0 <= i < 16 ==> r[i] == Cooked(key, if mode == DE1 then 15 - i else i)
  {
    seq(16, i requires 0 <= i < 16 => Cooked(key, if mode == DE1 then 15 - i else i))
  }

  /** The decryption schedule is the encryption schedule backwards. */
  lemma ScheduleReverses(key: seq<byte>, mode: Mode)
    requires |key| == 8
    ensures Schedule(key, Opposite(mode)) == Reversed(Schedule(key, mode))
  {
    hide Cooked;
  }

  // ----- complementing every key byte -----

  function NotBytes(b: seq<byte>): (r: seq<byte>)
    ensures |r| == |b| && forall i :: 0 <= i < |b| ==> r[i] == b[i] ^ 0xff
  {
    seq(|b|, i requires 0 <= i < |b| => b[i] ^ 0xff)
  }

  lemma ByteBitOfNot(x: byte, m: nat)
    requires m < 8
    ensures ((x ^ 0xff) & ByteBit(m) != 0) == !(x & ByteBit(m) != 0)
  {
    assert ((x ^ 0xff) & 0x80 != 0) == !(x & 0x80 != 0);
    assert ((x ^ 0xff) & 0x40 != 0) == !(x & 0x40 != 0);
    assert ((x ^ 0xff) & 0x20 != 0) == !(x & 0x20 != 0);
    assert ((x ^ 0xff) & 0x10 != 0) == !(x & 0x10 != 0);
    assert ((x ^ 0xff) & 0x08 != 0) == !(x & 0x08 != 0);
    assert ((x ^ 0xff) & 0x04 != 0) == !(x & 0x04 != 0);
    assert ((x ^ 0xff) & 0x02 != 0) == !(x & 0x02 != 0);
    assert ((x ^ 0xff) & 0x01 != 0) == !(x & 0x01 != 0);
  }

  lemma PermutedOfNot(key: seq<byte>)
    requires |key| == 8
    ensures Permuted(NotBytes(key)) == Negated(Permuted(key))
  {
    forall j | 0 <= j < 56
      ensures KeyBit(NotBytes(key), PC1[j]) == !KeyBit(key, PC1[j])
    {
      ByteBitOfNot(key[PC1[j] / 8], PC1[j] % 8);
    }
  }

  lemma RawOfNot(key: seq<byte>, i: nat, second: bool)
    requires |key| == 8 && i < 16
    ensures Raw(NotBytes(key), i, second) == Xor(Raw(key, i, second), 0xff_ffff)
  {
    PermutedOfNot(key);
    hide Permuted, Placed, Xor;
    var p := Permuted(key);
    assert Rotated(Negated(p), TOTROT[i]) == Negated(Rotated(p, TOTROT[i]));
    var q := Rotated(p, TOTROT[i]);
    assert Picked(Negated(q), second) == Negated(Picked(q, second));
    PlacedOfNegated(Picked(q, second), 24);
  }

  lemma CookEvenLinear(a: bv32, b: bv32, c: bv32, d: bv32)
    ensures CookEven(Xor(a, c), Xor(b, d)) == Xor(CookEven(a, b), CookEven(c, d))
  {
  }

  lemma CookOddLinear(a: bv32, b: bv32, c: bv32, d: bv32)
    ensures CookOdd(Xor(a, c), Xor(b, d)) == Xor(CookOdd(a, b), CookOdd(c, d))
  {
  }

  lemma CookedOfNot(key: seq<byte>, i: nat)
    requires |key| == 8 && i < 16
    ensures Cooked(NotBytes(key), i) == NotKey(Cooked(key, i))
  {
    assert CookEven(0xff_ffff, 0xff_ffff) == FIELD_BITS;
    assert CookOdd(0xff_ffff, 0xff_ffff) == FIELD_BITS;
    hide Raw, CookEven, CookOdd, Xor;
    var r0, r1 := Raw(key, i, false), Raw(key, i, true);
    RawOfNot(key, i, false);
    RawOfNot(key, i, true);
    CookEvenLinear(r0, r1, 0xff_ffff, 0xff_ffff);
    CookOddLinear(r0, r1, 0xff_ffff, 0xff_ffff);
  }

  /** Complementing the key flips every cooked word by exactly 0x3f3f3f3f. */
  lemma ScheduleOfNot(key: seq<byte>, mode: Mode)
    requires |key| == 8
    ensures Schedule(NotBytes(key), mode) == NotKeys(Schedule(key, mode))
  {
    hide Cooked, NotKey;
    forall i | 0 <= i < 16
      ensures Schedule(NotBytes(key), mode)[i] == NotKeys(Schedule(key, mode))[i]
    {
      CookedOfNot(key, if mode == DE1 then 15 - i else i);
    }
  }

  // ----- the cumulative rotations are the standard's round-by-round left shifts -----

  /** FIPS 46-3, table of left shifts per iteration. */
  const SHIFTS: seq<Turns> := [1, 1, 2, 2, 2, 2, 2, 2, 1, 2, 2, 2, 2, 2, 2, 1]

  /** C_i D_i: both halves shifted left, one iteration after the other, from C_0 D_0. */
  function Iterated(p: seq<bool>, i: nat): (r: seq<bool>)
    requires |p| == 56 && i <= 16
    ensures |r| == 56
  {
    if i == 0 then p else Rotated(Iterated(p, i - 1), SHIFTS[i - 1])
  }

  lemma RotationsAdd(p: seq<bool>, a: Turns, b: Turns)
    requires |p| == 56 && a + b <= 28
    ensures Rotated(Rotated(p, a), b) == Rotated(p, a + b)
  {
  }

  lemma {:induction false} RotationsAreIterated(p: seq<bool>, i: nat)
    requires |p| == 56 && i < 16
    ensures Rotated(p, TOTROT[i]) == Iterated(p, i + 1)
  {
    if i == 0 {
      assert Iterated(p, 0) == p;
    } else {
      RotationsAreIterated(p, i - 1);
      RotationsAdd(p, TOTROT[i - 1], SHIFTS[i]);
      assert TOTROT[i - 1] + SHIFTS[i] == TOTROT[i];
    }
  }
}
