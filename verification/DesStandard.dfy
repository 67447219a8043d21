/** The round function, key bits and rounds of FIPS 46-3, and the proof that tflib/expert/d3des.c follows them. The S-boxes
    and P stay inside the tables, which are arbitrary. */
module DesStandard {
  import opened Machine
  import opened DesCipher
  import opened DesKeys
  import opened DesBits
  import Modes = DesModes

  // ----- the bits of the round keys -----

  /** Bit m of a byte from the left. */
  function FromLeft(b: byte, m: nat): bool
    requires m < 8
  {
    match m
    case 0 => (b >> 7) & 1 == 1 case 1 => (b >> 6) & 1 == 1 case 2 => (b >> 5) & 1 == 1 case 3 => (b >> 4) & 1 == 1
    case 4 => (b >> 3) & 1 == 1 case 5 => (b >> 2) & 1 == 1 case 6 => (b >> 1) & 1 == 1 case 7 => b & 1 == 1
  }

  /** Bit n of a key or of a block, counted as the standard does from 1 for the leftmost bit of the first byte. */
  function StandardBit(b: seq<byte>, n: nat): bool
    requires |b| == 8 && 1 <= n <= 64
  {
    FromLeft(b[(n - 1) / 8], (n - 1) % 8)
  }

  /** FIPS 46-3, permuted choice 1: C and then D. */
  const PERMUTED_CHOICE_1: seq<nat> :=
    [57, 49, 41, 33, 25, 17,  9,  1, 58, 50, 42, 34, 26, 18] +
    [10,  2, 59, 51, 43, 35, 27, 19, 11,  3, 60, 52, 44, 36] +
    [63, 55, 47, 39, 31, 23, 15,  7, 62, 54, 46, 38, 30, 22] +
    [14,  6, 61, 53, 45, 37, 29, 21, 13,  5, 28, 20, 12,  4]

  /** FIPS 46-3, permuted choice 2, of the 56 bits of C and D counted from 1. */
  const PERMUTED_CHOICE_2: seq<nat> :=
    [14, 17, 11, 24,  1,  5,  3, 28, 15,  6, 21, 10] +
    [23, 19, 12,  4, 26,  8, 16,  7, 27, 20, 13,  2] +
    [41, 52, 31, 37, 47, 55, 30, 40, 51, 45, 33, 48] +
    [44, 49, 39, 56, 34, 53, 46, 42, 50, 36, 29, 32]

  /** C_0 D_0. */
  function FirstCD(key: seq<byte>): (r: seq<bool>)
    requires |key| == 8
    ensures |r| == 56
  {
    seq(56, j requires 0 <= j < 56 => ChosenBit(key, j))
  }

  function ChosenBit(key: seq<byte>, j: nat): bool
    requires |key| == 8 && j < 56
  {
    Choice1InRange(j);
    StandardBit(key, PERMUTED_CHOICE_1[j])
  }

  lemma Choice1InRange(j: nat)
    ensures j < 56 ==> 1 <= PERMUTED_CHOICE_1[j] <= 64
  {
    Choice1IsStandard(j);
  }

  lemma Choice2InRange(j: nat)
    ensures j < 48 ==> 1 <= PERMUTED_CHOICE_2[j] <= 56
  {
    Choice2IsStandard(j);
  }

  lemma FirstChoice1(j: nat)
    requires j < 14
    ensures PC1[j] == PERMUTED_CHOICE_1[j] - 1
  {
  }

  lemma SecondChoice1(j: nat)
    requires 14 <= j < 28
    ensures PC1[j] == PERMUTED_CHOICE_1[j] - 1
  {
  }

  lemma ThirdChoice1(j: nat)
    requires 28 <= j < 42
    ensures PC1[j] == PERMUTED_CHOICE_1[j] - 1
  {
  }

  lemma FourthChoice1(j: nat)
    requires 42 <= j < 56
    ensures PC1[j] == PERMUTED_CHOICE_1[j] - 1
  {
  }

  lemma FirstChoice2(j: nat)
    requires j < 12
    ensures PC2[j] == PERMUTED_CHOICE_2[j] - 1
  {
  }

  lemma SecondChoice2(j: nat)
    requires 12 <= j < 24
    ensures PC2[j] == PERMUTED_CHOICE_2[j] - 1
  {
  }

  lemma ThirdChoice2(j: nat)
    requires 24 <= j < 36
    ensures PC2[j] == PERMUTED_CHOICE_2[j] - 1
  {
  }

  lemma FourthChoice2(j: nat)
    requires 36 <= j < 48
    ensures PC2[j] == PERMUTED_CHOICE_2[j] - 1
  {
  }

  /** The code's tables are the standard's, counted from 0. */
  lemma Choice1IsStandard(j: nat)
    ensures j < 56 ==> PC1[j] == PERMUTED_CHOICE_1[j] - 1
  {
    if j < 14 {
      FirstChoice1(j);
    } else if j < 28 {
      SecondChoice1(j);
    } else if j < 42 {
      ThirdChoice1(j);
    } else if j < 56 {
      FourthChoice1(j);
    }
  }

  lemma Choice2IsStandard(j: nat)
    ensures j < 48 ==> PC2[j] == PERMUTED_CHOICE_2[j] - 1
  {
    if j < 12 {
      FirstChoice2(j);
    } else if j < 24 {
      SecondChoice2(j);
    } else if j < 36 {
      ThirdChoice2(j);
    } else if j < 48 {
      FourthChoice2(j);
    }
  }

  /** Bit n of the i-th round key: PC2 of C and D, shifted round by round from PC1 of the key. */
  function RoundKeyBit(key: seq<byte>, i: nat, n: nat): bool
    requires |key| == 8 && i < 16 && n < 48
  {
    Choice2InRange(n);
    Iterated(FirstCD(key), i + 1)[PERMUTED_CHOICE_2[n] - 1]
  }

  lemma ByteBits(b: byte, m: nat)
    requires m < 8
    ensures b & ByteBit(m) != 0 <==> FromLeft(b, m)
  {
  }

  lemma KeyBitIsStandard(key: seq<byte>, n: KeyBitIndex)
    requires |key| == 8
    ensures KeyBit(key, n) == StandardBit(key, n + 1)
  {
    hide ByteBit, FromLeft;
    ByteBits(key[n / 8], n % 8);
  }

  lemma PermutedIsStandard(key: seq<byte>)
    requires |key| == 8
    ensures Permuted(key) == FirstCD(key)
  {
    hide KeyBit, StandardBit;
    forall j | 0 <= j < 56 ensures Permuted(key)[j] == FirstCD(key)[j] {
      Choice1IsStandard(j);
      KeyBitIsStandard(key, PC1[j]);
    }
  }

  lemma FirstByte(b0: byte, b1: byte, b2: byte, b3: byte, m: nat)
    requires m < 8
    ensures Bit(Join(b0, b1, b2, b3), m) == FromLeft(b3, m)
  {
  }

  lemma SecondByte(b0: byte, b1: byte, b2: byte, b3: byte, m: nat)
    requires m < 8
    ensures Bit(Join(b0, b1, b2, b3), 8 + m) == FromLeft(b2, m)
  {
  }

  lemma ThirdByte(b0: byte, b1: byte, b2: byte, b3: byte, m: nat)
    requires m < 8
    ensures Bit(Join(b0, b1, b2, b3), 16 + m) == FromLeft(b1, m)
  {
  }

  lemma FourthByte(b0: byte, b1: byte, b2: byte, b3: byte, m: nat)
    requires m < 8
    ensures Bit(Join(b0, b1, b2, b3), 24 + m) == FromLeft(b0, m)
  {
  }

  lemma WordBit(w: seq<byte>, j: nat)
    requires |w| == 4 && j < 32
    ensures Bit(Load(Big, w), j) == FromLeft(w[j / 8], j % 8)
  {
    hide Bit, Join, FromLeft;
    if j < 8 {
      FirstByte(w[3], w[2], w[1], w[0], j % 8);
    } else if j < 16 {
      SecondByte(w[3], w[2], w[1], w[0], j % 8);
    } else if j < 24 {
      ThirdByte(w[3], w[2], w[1], w[0], j % 8);
    } else {
      FourthByte(w[3], w[2], w[1], w[0], j % 8);
    }
  }

  /** A block is read as the standard numbers its bits. */
  lemma BlockIsStandard(b: seq<byte>, n: nat)
    requires |b| == 8 && 1 <= n <= 64
    ensures BlockBit(Modes.Block(b), n - 1) == StandardBit(b, n)
  {
    hide Bit, Load, FromLeft;
    if n <= 32 {
      WordBit(b[..4], n - 1);
    } else {
      WordBit(b[4..], n - 33);
      assert (n - 1) / 8 == (n - 33) / 8 + 4;
    }
  }

  lemma ByteKept(m: bv32, b: bv32)
    ensures Or(b, Or(m, b)) == Or(m, b)
  {
  }

  lemma {:induction false} ByteWithin(j: nat, n: nat)
    requires j < n <= 24
    ensures Or(BigByte(j), Mask(n)) == Mask(n)
  {
    hide Or, Mask, BigByte;
    MaskGrows(n - 1);
    if n == j + 1 {
      ByteKept(Mask(j), BigByte(j));
    } else {
      ByteWithin(j, n - 1);
      OrAbsorbsMore(BigByte(j), Mask(n - 1), BigByte(n - 1));
    }
  }

  lemma {:induction false} PlacedWithin(p: seq<bool>, n: nat, j: nat)
    requires n <= j <= |p| == 24
    ensures Or(Placed(p, n), Mask(j)) == Mask(j)
    decreases j - n
  {
    if n == j {
      PlacedOfNegated(p, n);
    } else {
      PlacedWithin(p, n, j - 1);
      hide Or, Mask, BigByte, Placed;
      MaskGrows(j - 1);
      OrAbsorbsMore(Placed(p, n), Mask(j - 1), BigByte(j - 1));
    }
  }

  lemma AndOfOr(x: bv32, b: bv32, m: bv32)
    ensures And(Or(x, b), m) == Or(And(x, m), And(b, m))
  {
  }

  lemma AndOfSelf(b: bv32)
    ensures And(b, b) == b
  {
  }

  lemma NothingOr(b: bv32)
    ensures Or(0, b) == b
  {
  }

  lemma ByteIsSomething(j: nat)
    requires j < 24
    ensures BigByte(j) != 0
  {
  }

  /** A placed bit is read back from its place. */
  lemma {:induction false} PlacedBit(p: seq<bool>, n: nat, j: nat)
    requires n <= |p| == 24 && j < 24
    ensures And(Placed(p, n), BigByte(j)) != 0 <==> j < n && p[j]
  {
    hide Or, And, Mask, BigByte;
    if j >= n {
      PlacedWithin(p, n, j);
      MaskApart(j);
      PartApart(Placed(p, n), Mask(j), BigByte(j));
    } else if j == n - 1 {
      PlacedBit(p, n - 1, j);
      AndOfOr(Placed(p, n - 1), BigByte(j), BigByte(j));
      AndOfSelf(BigByte(j));
      NothingOr(BigByte(j));
      ByteIsSomething(j);
    } else {
      PlacedBit(p, n - 1, j);
      ByteWithin(j, n - 1);
      MaskApart(n - 1);
      PartApart(BigByte(j), Mask(n - 1), BigByte(n - 1));
      AndOfOr(Placed(p, n - 1), BigByte(n - 1), BigByte(j));
      AndSymmetric(BigByte(j), BigByte(n - 1));
      OrNothing(And(Placed(p, n - 1), BigByte(j)));
    }
  }

  lemma AndSymmetric(x: bv32, y: bv32)
    ensures And(x, y) == And(y, x)
  {
  }

  // ----- six-bit groups -----

  function SixMask(n: nat): bv6
    requires n < 6
  {
    match n case 0 => 32 case 1 => 16 case 2 => 8 case 3 => 4 case 4 => 2 case 5 => 1
  }

  /** Bit n of a group, from the left. */
  function Sixth(v: bv6, n: nat): bool
    requires n < 6
  {
    v & SixMask(n) != 0
  }

  lemma SameSix(v: bv6, w: bv6)
    requires forall n :: 0 <= n < 6 ==> Sixth(v, n) == Sixth(w, n)
    ensures v == w
  {
    assert Sixth(v, 0) == Sixth(w, 0) && Sixth(v, 1) == Sixth(w, 1) && Sixth(v, 2) == Sixth(w, 2);
    assert Sixth(v, 3) == Sixth(w, 3) && Sixth(v, 4) == Sixth(w, 4) && Sixth(v, 5) == Sixth(w, 5);
  }

  function XorSix(v: bv6, w: bv6): bv6 { v ^ w }

  lemma SixthOfXor(v: bv6, w: bv6, n: nat)
    requires n < 6
    ensures Sixth(XorSix(v, w), n) == (Sixth(v, n) != Sixth(w, n))
  {
  }

  lemma FieldsOfXor(x: bv32, y: bv32)
    ensures Fields(Xor(x, y)) == Indices(XorSix(Fields(x).i0, Fields(y).i0), XorSix(Fields(x).i8, Fields(y).i8),
                                         XorSix(Fields(x).i16, Fields(y).i16), XorSix(Fields(x).i24, Fields(y).i24))
  {
  }

  lemma Expanded0(r: bv32, n: nat)
    requires n < 6
    ensures Sixth(Fields(Turned(RotateLeft(r))).i24, n) == Bit(r, if n == 0 then 31 else n - 1)
  {
  }

  lemma Expanded1(r: bv32, n: nat)
    requires n < 6
    ensures Sixth(Fields(RotateLeft(r)).i24, n) == Bit(r, 3 + n)
  {
  }

  lemma Expanded2(r: bv32, n: nat)
    requires n < 6
    ensures Sixth(Fields(Turned(RotateLeft(r))).i16, n) == Bit(r, 7 + n)
  {
  }

  lemma Expanded3(r: bv32, n: nat)
    requires n < 6
    ensures Sixth(Fields(RotateLeft(r)).i16, n) == Bit(r, 11 + n)
  {
  }

  lemma Expanded4(r: bv32, n: nat)
    requires n < 6
    ensures Sixth(Fields(Turned(RotateLeft(r))).i8, n) == Bit(r, 15 + n)
  {
  }

  lemma Expanded5(r: bv32, n: nat)
    requires n < 6
    ensures Sixth(Fields(RotateLeft(r)).i8, n) == Bit(r, 19 + n)
  {
  }

  lemma Expanded6(r: bv32, n: nat)
    requires n < 6
    ensures Sixth(Fields(Turned(RotateLeft(r))).i0, n) == Bit(r, 23 + n)
  {
  }

  lemma Expanded7(r: bv32, n: nat)
    requires n < 6
    ensures Sixth(Fields(RotateLeft(r)).i0, n) == Bit(r, if n == 5 then 0 else 27 + n)
  {
  }

  lemma KeyGroup0(raw0: bv32, raw1: bv32, n: nat)
    requires n < 6
    ensures Sixth(Fields(CookEven(raw0, raw1)).i24, n) <==> And(raw0, BigByte(n)) != 0
  {
  }

  lemma KeyGroup1(raw0: bv32, raw1: bv32, n: nat)
    requires n < 6
    ensures Sixth(Fields(CookOdd(raw0, raw1)).i24, n) <==> And(raw0, BigByte(6 + n)) != 0
  {
  }

  lemma KeyGroup2(raw0: bv32, raw1: bv32, n: nat)
    requires n < 6
    ensures Sixth(Fields(CookEven(raw0, raw1)).i16, n) <==> And(raw0, BigByte(12 + n)) != 0
  {
  }

  lemma KeyGroup3(raw0: bv32, raw1: bv32, n: nat)
    requires n < 6
    ensures Sixth(Fields(CookOdd(raw0, raw1)).i16, n) <==> And(raw0, BigByte(18 + n)) != 0
  {
  }

  lemma KeyGroup4(raw0: bv32, raw1: bv32, n: nat)
    requires n < 6
    ensures Sixth(Fields(CookEven(raw0, raw1)).i8, n) <==> And(raw1, BigByte(n)) != 0
  {
  }

  lemma KeyGroup5(raw0: bv32, raw1: bv32, n: nat)
    requires n < 6
    ensures Sixth(Fields(CookOdd(raw0, raw1)).i8, n) <==> And(raw1, BigByte(6 + n)) != 0
  {
  }

  lemma KeyGroup6(raw0: bv32, raw1: bv32, n: nat)
    requires n < 6
    ensures Sixth(Fields(CookEven(raw0, raw1)).i0, n) <==> And(raw1, BigByte(12 + n)) != 0
  {
  }

  lemma KeyGroup7(raw0: bv32, raw1: bv32, n: nat)
    requires n < 6
    ensures Sixth(Fields(CookOdd(raw0, raw1)).i0, n) <==> And(raw1, BigByte(18 + n)) != 0
  {
  }

  lemma RawBit(key: seq<byte>, i: nat, second: bool, j: nat)
    requires |key| == 8 && i < 16 && j < 24
    ensures And(Raw(key, i, second), BigByte(j)) != 0 <==> RoundKeyBit(key, i, if second then 24 + j else j)
  {
    hide And, BigByte, Placed, Iterated, Permuted;
    var turned := Rotated(Permuted(key), TOTROT[i]);
    PlacedBit(Picked(turned, second), 24, j);
    RotationsAreIterated(Permuted(key), i);
    PermutedIsStandard(key);
    Choice2IsStandard(if second then 24 + j else j);
  }

  // ----- the round function of FIPS 46-3 -----

  /** Bit n of group g of E(R): the table's rows are 32 1 2 3 4 5, then 4 5 6 7 8 9, and so on to 28 29 30 31 32 1. */
  function EBit(r: bv32, g: nat, n: nat): bool
    requires g < 8 && n < 6
  {
    Bit(r, (4 * g + n + 31) % 32)
  }

  /** The index the C code takes for the table of S-box g + 1. */
  function TableIndex(r: bv32, k: RoundKey, g: nat): bv6
    requires g < 8
  {
    var w, v := Fields(Xor(Turned(r), k.even)), Fields(Xor(r, k.odd));
    match g
    case 0 => w.i24
    case 1 => v.i24
    case 2 => w.i16
    case 3 => v.i16
    case 4 => w.i8
    case 5 => v.i8
    case 6 => w.i0
    case 7 => v.i0
  }

  lemma Group0(r: bv32, key: seq<byte>, i: nat, n: nat)
    requires |key| == 8 && i < 16 && n < 6
    ensures Sixth(TableIndex(RotateLeft(r), Cooked(key, i), 0), n) == (EBit(r, 0, n) != RoundKeyBit(key, i, 0 + n))
  {
    hide Fields, Xor, Turned, RotateLeft, CookEven, CookOdd, Raw, XorSix, Sixth, Bit, RoundKeyBit, And, BigByte;
    var raw0, raw1 := Raw(key, i, false), Raw(key, i, true);
    var x, y := Turned(RotateLeft(r)), CookEven(raw0, raw1);
    FieldsOfXor(x, y);
    SixthOfXor(Fields(x).i24, Fields(y).i24, n);
    Expanded0(r, n);
    KeyGroup0(raw0, raw1, n);
    RawBit(key, i, false, n);
  }

  lemma Group1(r: bv32, key: seq<byte>, i: nat, n: nat)
    requires |key| == 8 && i < 16 && n < 6
    ensures Sixth(TableIndex(RotateLeft(r), Cooked(key, i), 1), n) == (EBit(r, 1, n) != RoundKeyBit(key, i, 6 + n))
  {
    hide Fields, Xor, Turned, RotateLeft, CookEven, CookOdd, Raw, XorSix, Sixth, Bit, RoundKeyBit, And, BigByte;
    var raw0, raw1 := Raw(key, i, false), Raw(key, i, true);
    var x, y := RotateLeft(r), CookOdd(raw0, raw1);
    FieldsOfXor(x, y);
    SixthOfXor(Fields(x).i24, Fields(y).i24, n);
    Expanded1(r, n);
    KeyGroup1(raw0, raw1, n);
    RawBit(key, i, false, 6 + n);
  }

  lemma Group2(r: bv32, key: seq<byte>, i: nat, n: nat)
    requires |key| == 8 && i < 16 && n < 6
    ensures Sixth(TableIndex(RotateLeft(r), Cooked(key, i), 2), n) == (EBit(r, 2, n) != RoundKeyBit(key, i, 12 + n))
  {
    hide Fields, Xor, Turned, RotateLeft, CookEven, CookOdd, Raw, XorSix, Sixth, Bit, RoundKeyBit, And, BigByte;
    var raw0, raw1 := Raw(key, i, false), Raw(key, i, true);
    var x, y := Turned(RotateLeft(r)), CookEven(raw0, raw1);
    FieldsOfXor(x, y);
    SixthOfXor(Fields(x).i16, Fields(y).i16, n);
    Expanded2(r, n);
    KeyGroup2(raw0, raw1, n);
    RawBit(key, i, false, 12 + n);
  }

  lemma Group3(r: bv32, key: seq<byte>, i: nat, n: nat)
    requires |key| == 8 && i < 16 && n < 6
    ensures Sixth(TableIndex(RotateLeft(r), Cooked(key, i), 3), n) == (EBit(r, 3, n) != RoundKeyBit(key, i, 18 + n))
  {
    hide Fields, Xor, Turned, RotateLeft, CookEven, CookOdd, Raw, XorSix, Sixth, Bit, RoundKeyBit, And, BigByte;
    var raw0, raw1 := Raw(key, i, false), Raw(key, i, true);
    var x, y := RotateLeft(r), CookOdd(raw0, raw1);
    FieldsOfXor(x, y);
    SixthOfXor(Fields(x).i16, Fields(y).i16, n);
    Expanded3(r, n);
    KeyGroup3(raw0, raw1, n);
    RawBit(key, i, false, 18 + n);
  }

  lemma Group4(r: bv32, key: seq<byte>, i: nat, n: nat)
    requires |key| == 8 && i < 16 && n < 6
    ensures Sixth(TableIndex(RotateLeft(r), Cooked(key, i), 4), n) == (EBit(r, 4, n) != RoundKeyBit(key, i, 24 + n))
  {
    hide Fields, Xor, Turned, RotateLeft, CookEven, CookOdd, Raw, XorSix, Sixth, Bit, RoundKeyBit, And, BigByte;
    var raw0, raw1 := Raw(key, i, false), Raw(key, i, true);
    var x, y := Turned(RotateLeft(r)), CookEven(raw0, raw1);
    FieldsOfXor(x, y);
    SixthOfXor(Fields(x).i8, Fields(y).i8, n);
    Expanded4(r, n);
    KeyGroup4(raw0, raw1, n);
    RawBit(key, i, true, n);
  }

  lemma Group5(r: bv32, key: seq<byte>, i: nat, n: nat)
    requires |key| == 8 && i < 16 && n < 6
    ensures Sixth(TableIndex(RotateLeft(r), Cooked(key, i), 5), n) == (EBit(r, 5, n) != RoundKeyBit(key, i, 30 + n))
  {
    hide Fields, Xor, Turned, RotateLeft, CookEven, CookOdd, Raw, XorSix, Sixth, Bit, RoundKeyBit, And, BigByte;
    var raw0, raw1 := Raw(key, i, false), Raw(key, i, true);
    var x, y := RotateLeft(r), CookOdd(raw0, raw1);
    FieldsOfXor(x, y);
    SixthOfXor(Fields(x).i8, Fields(y).i8, n);
    Expanded5(r, n);
    KeyGroup5(raw0, raw1, n);
    RawBit(key, i, true, 6 + n);
  }

  lemma Group6(r: bv32, key: seq<byte>, i: nat, n: nat)
    requires |key| == 8 && i < 16 && n < 6
    ensures Sixth(TableIndex(RotateLeft(r), Cooked(key, i), 6), n) == (EBit(r, 6, n) != RoundKeyBit(key, i, 36 + n))
  {
    hide Fields, Xor, Turned, RotateLeft, CookEven, CookOdd, Raw, XorSix, Sixth, Bit, RoundKeyBit, And, BigByte;
    var raw0, raw1 := Raw(key, i, false), Raw(key, i, true);
    var x, y := Turned(RotateLeft(r)), CookEven(raw0, raw1);
    FieldsOfXor(x, y);
    SixthOfXor(Fields(x).i0, Fields(y).i0, n);
    Expanded6(r, n);
    KeyGroup6(raw0, raw1, n);
    RawBit(key, i, true, 12 + n);
  }

  lemma Group7(r: bv32, key: seq<byte>, i: nat, n: nat)
    requires |key| == 8 && i < 16 && n < 6
    ensures Sixth(TableIndex(RotateLeft(r), Cooked(key, i), 7), n) == (EBit(r, 7, n) != RoundKeyBit(key, i, 42 + n))
  {
    hide Fields, Xor, Turned, RotateLeft, CookEven, CookOdd, Raw, XorSix, Sixth, Bit, RoundKeyBit, And, BigByte;
    var raw0, raw1 := Raw(key, i, false), Raw(key, i, true);
    var x, y := RotateLeft(r), CookOdd(raw0, raw1);
    FieldsOfXor(x, y);
    SixthOfXor(Fields(x).i0, Fields(y).i0, n);
    Expanded7(r, n);
    KeyGroup7(raw0, raw1, n);
    RawBit(key, i, true, 18 + n);
  }

  lemma GroupsMatch(r: bv32, key: seq<byte>, i: nat, g: nat, n: nat)
    requires |key| == 8 && i < 16 && g < 8 && n < 6
    ensures Sixth(TableIndex(RotateLeft(r), Cooked(key, i), g), n) == (EBit(r, g, n) != RoundKeyBit(key, i, 6 * g + n))
  {
    hide Sixth, TableIndex, Cooked, EBit, RoundKeyBit, RotateLeft;
    match g
    case 0 => Group0(r, key, i, n);
    case 1 => Group1(r, key, i, n);
    case 2 => Group2(r, key, i, n);
    case 3 => Group3(r, key, i, n);
    case 4 => Group4(r, key, i, n);
    case 5 => Group5(r, key, i, n);
    case 6 => Group6(r, key, i, n);
    case 7 => Group7(r, key, i, n);
  }

  function FromBits(b: seq<bool>): bv6
    requires |b| == 6
  {
    (if b[0] then 32 else 0) | (if b[1] then 16 else 0) | (if b[2] then 8 else 0)
    | (if b[3] then 4 else 0) | (if b[4] then 2 else 0) | (if b[5] then 1 else 0)
  }

  lemma SixthOfBits(b: seq<bool>, n: nat)
    requires |b| == 6 && n < 6
    ensures Sixth(FromBits(b), n) == b[n]
  {
  }

  /** The argument of S-box g + 1: E(R) xor the round key. */
  function StandardGroup(r: bv32, key: seq<byte>, i: nat, g: nat): bv6
    requires |key| == 8 && i < 16 && g < 8
  {
    FromBits(seq(6, n requires 0 <= n < 6 => EBit(r, g, n) != RoundKeyBit(key, i, 6 * g + n)))
  }

  /** The C code looks each table up at the argument the standard gives its S-box. */
  lemma IndexIsStandard(r: bv32, key: seq<byte>, i: nat, g: nat)
    requires |key| == 8 && i < 16 && g < 8
    ensures TableIndex(RotateLeft(r), Cooked(key, i), g) == StandardGroup(r, key, i, g)
  {
    hide Sixth, TableIndex, Cooked, EBit, RoundKeyBit, RotateLeft, FromBits;
    var v := TableIndex(RotateLeft(r), Cooked(key, i), g);
    var b := seq(6, n requires 0 <= n < 6 => EBit(r, g, n) != RoundKeyBit(key, i, 6 * g + n));
    forall n | 0 <= n < 6 ensures Sixth(v, n) == Sixth(FromBits(b), n) {
      GroupsMatch(r, key, i, g, n);
      SixthOfBits(b, n);
    }
    SameSix(v, FromBits(b));
  }

  /** What the eight tables give together. */
  function SBoxes(t: SpTables, x: seq<bv6>): bv32
    requires |x| == 8
  {
    var even := Or(Or(Or(t.sp7(x[6]), t.sp5(x[4])), t.sp3(x[2])), t.sp1(x[0]));
    Or(Or(Or(Or(even, t.sp8(x[7])), t.sp6(x[5])), t.sp4(x[3])), t.sp2(x[1]))
  }

  lemma FUsesIndices(t: SpTables, r: bv32, k: RoundKey)
    ensures F(t, r, k) == SBoxes(t, seq(8, g requires 0 <= g < 8 => TableIndex(r, k, g)))
  {
    hide Fields, Xor, Turned, Or;
  }

  /** f(R, K): the tables hold S-boxes and P together, their output turned left by one bit. */
  function StandardF(t: SpTables, r: bv32, key: seq<byte>, i: nat): bv32
    requires |key| == 8 && i < 16
  {
    RotateRight(SBoxes(t, seq(8, g requires 0 <= g < 8 => StandardGroup(r, key, i, g))))
  }

  lemma FIsStandard(t: SpTables, r: bv32, key: seq<byte>, i: nat)
    requires |key| == 8 && i < 16
    ensures RotateRight(F(t, RotateLeft(r), Cooked(key, i))) == StandardF(t, r, key, i)
  {
    hide F, SBoxes, TableIndex, StandardGroup, Cooked, RotateLeft, RotateRight;
    var k := Cooked(key, i);
    FUsesIndices(t, RotateLeft(r), k);
    forall g | 0 <= g < 8 ensures TableIndex(RotateLeft(r), k, g) == StandardGroup(r, key, i, g) {
      IndexIsStandard(r, key, i, g);
    }
    assert seq(8, g requires 0 <= g < 8 => TableIndex(RotateLeft(r), k, g))
           == seq(8, g requires 0 <= g < 8 => StandardGroup(r, key, i, g));
  }

  // ----- enciphering as FIPS 46-3 has it -----

  /** L and R after round i from L and R before it. */
  function StandardRound(t: SpTables, key: seq<byte>, h: Halves, i: nat): Halves
    requires |key| == 8 && i < 16
  {
    Halves(h.r, Xor(h.l, StandardF(t, h.r, key, i)))
  }

  function StandardRounds(t: SpTables, key: seq<byte>, h: Halves, n: nat): Halves
    requires |key| == 8 && n <= 16
  {
    if n == 0 then h else StandardRound(t, key, StandardRounds(t, key, h, n - 1), n - 1)
  }

  function Unturned(h: Halves): Halves { Halves(RotateRight(h.l), RotateRight(h.r)) }

  lemma RoundIsStandard(t: SpTables, h: Halves, key: seq<byte>, i: nat)
    requires |key| == 8 && i < 16
    ensures Unturned(Round(t, h, Cooked(key, i))) == StandardRound(t, key, Unturned(h), i)
  {
    hide F, Cooked, RotateLeft, RotateRight, Xor, StandardF;
    RotationsUndone(h.r);
    FIsStandard(t, RotateRight(h.r), key, i);
    RotateRightLinear(h.l, F(t, h.r, Cooked(key, i)));
  }

  lemma {:induction false} RoundsAreStandard(t: SpTables, h: Halves, key: seq<byte>, n: nat)
    requires |key| == 8 && n <= 16
    ensures Unturned(Rounds(t, h, Schedule(key, EN0)[..n])) == StandardRounds(t, key, Unturned(h), n)
  {
    hide *;
    if n == 0 {
      NoRounds(t, h, key);
    } else {
      RoundsAreStandard(t, h, key, n - 1);
      var done, k := Schedule(key, EN0)[..n - 1], Cooked(key, n - 1);
      NextKey(key, n);
      RoundsAppend(t, h, done, k);
      RoundIsStandard(t, Rounds(t, h, done), key, n - 1);
      OneMoreRound(t, key, Unturned(h), n);
    }
  }

  lemma NextKey(key: seq<byte>, n: nat)
    requires |key| == 8 && 0 < n <= 16
    ensures Schedule(key, EN0)[..n] == Schedule(key, EN0)[..n - 1] + [Cooked(key, n - 1)]
  {
    hide Cooked;
  }

  lemma NoRounds(t: SpTables, h: Halves, key: seq<byte>)
    requires |key| == 8
    ensures Unturned(Rounds(t, h, Schedule(key, EN0)[..0])) == StandardRounds(t, key, Unturned(h), 0)
  {
  }

  lemma OneMoreRound(t: SpTables, key: seq<byte>, h: Halves, n: nat)
    requires |key| == 8 && 0 < n <= 16
    ensures StandardRounds(t, key, h, n) == StandardRound(t, key, StandardRounds(t, key, h, n - 1), n - 1)
  {
    hide StandardRound;
  }

  /** IP of the enciphered block is R16 L16 of the standard's 16 rounds from IP of the block. */
  lemma EncipheringIsStandard(t: SpTables, key: seq<byte>, b: Halves)
    requires |key| == 8
    ensures StandardIp(Crypt(t, Schedule(key, EN0), b)) == Swap(StandardRounds(t, key, StandardIp(b), 16))
  {
    hide Ip, Fp, Rounds, StandardRounds, Schedule, RotateRight;
    var ks := Schedule(key, EN0);
    RoundsAreStandard(t, Ip(b), key, 16);
    assert ks[..16] == ks;
    IpUndoesFp(Rounds(t, Ip(b), ks));
  }
}
