/** The numbers 32-bit words stand for, and what the operations on words do to them. */
module Numbers {
  import opened Machine

  const RANGE := 0x1_0000_0000

  // ----- the operations the proofs take apart -----

  function Odd(x: bv32): bool { x & 1 == 1 }

  function Half(x: bv32): bv32 { x >> 1 }

  function Plus(x: bv32, y: bv32): bv32 { x + y }

  function Inc(x: bv32): bv32 { x + 1 }

  function Dec(x: bv32): bv32 { x - 1 }

  lemma HalfLess(x: bv32)
    requires x != 0
    ensures Half(x) < x && Dec(x) < x && Inc(Dec(x)) == x && Dec(x) != 0xffff_ffff
  {
  }

  /** The number with these binary digits. */
  function Number(x: bv32): nat
    decreases x
  {
    if x == 0 then 0
    else
      HalfLess(x);
      (if Odd(x) then 1 else 0) + 2 * Number(Half(x))
  }

  lemma NumberHalf(x: bv32)
    ensures Number(Half(x)) == Number(x) / 2
    ensures Number(x) == 2 * Number(Half(x)) + if Odd(x) then 1 else 0
  {
    if x == 0 {
      assert Half(0) == 0;
    } else {
      hide Half, Odd;
    }
  }

  // ----- counting -----

  lemma IncBits(x: bv32)
    ensures !Odd(x) ==> Odd(Inc(x)) && Half(Inc(x)) == Half(x)
    ensures Odd(x) && x != 0xffff_ffff ==> !Odd(Inc(x)) && Half(Inc(x)) == Inc(Half(x))
    ensures Half(x) != 0xffff_ffff && (Odd(x) ==> x != 0)
  {
  }

  lemma {:induction false} NumberInc(x: bv32)
    requires x != 0xffff_ffff
    ensures Number(Inc(x)) == Number(x) + 1
    decreases x
  {
    hide *;
    IncBits(x);
    NumberHalf(x);
    NumberHalf(Inc(x));
    if Odd(x) {
      HalfLess(x);
      NumberInc(Half(x));
    }
  }

  /** A hexadecimal digit behind a word. */
  function Digit(x: bv32, d: bv32): bv32 { (x << 4) | d }

  lemma DigitBits(x: bv32, d: bv32)
    requires x < 0x1000_0000 && d < 16
    ensures var y := Digit(x, d);
            && (Odd(y) <==> Odd(d)) && (Odd(Half(y)) <==> Odd(Half(d))) && (Odd(Half(Half(y))) <==> Odd(Half(Half(d))))
            && (Odd(Half(Half(Half(y)))) <==> Odd(Half(Half(Half(d)))))
            && Half(Half(Half(Half(y)))) == x && Half(Half(Half(Half(d)))) == 0
  {
  }

  lemma NumberOfZero()
    ensures Number(0) == 0
  {
  }

  lemma FourDigits(y: bv32)
    ensures Number(y) == (if Odd(y) then 1 else 0) + (if Odd(Half(y)) then 2 else 0) + (if Odd(Half(Half(y))) then 4 else 0)
                         + (if Odd(Half(Half(Half(y)))) then 8 else 0) + 16 * Number(Half(Half(Half(Half(y)))))
  {
    hide *;
    NumberHalf(y);
    NumberHalf(Half(y));
    NumberHalf(Half(Half(y)));
    NumberHalf(Half(Half(Half(y))));
  }

  lemma NumberDigit(x: bv32, d: bv32)
    requires x < 0x1000_0000 && d < 16
    ensures Number(Digit(x, d)) == 16 * Number(x) + Number(d)
  {
    hide *;
    DigitBits(x, d);
    FourDigits(Digit(x, d));
    FourDigits(d);
    NumberOfZero();
  }

  lemma SmallNumbers()
    ensures Number(0) == 0 && Number(1) == 1 && Number(5) == 5 && Number(9) == 9
    ensures Number(11) == 11 && Number(13) == 13 && Number(14) == 14 && Number(15) == 15
  {
    FourDigits(1);
    FourDigits(5);
    FourDigits(9);
    FourDigits(11);
    FourDigits(13);
    FourDigits(14);
    FourDigits(15);
  }

  lemma NumberOfMax()
    ensures Number(0xffff_ffff) == RANGE - 1
  {
    SmallNumbers();
    hide Number;
    NumberDigit(0xf, 15);
    NumberDigit(0xff, 15);
    NumberDigit(0xfff, 15);
    NumberDigit(0xffff, 15);
    NumberDigit(0xf_ffff, 15);
    NumberDigit(0xff_ffff, 15);
    NumberDigit(0xfff_ffff, 15);
  }

  lemma IncMax()
    ensures Inc(0xffff_ffff) == 0
  {
  }

  /** How far a word is from the largest. */
  function Rest(x: bv32): bv32 { 0xffff_ffff - x }

  lemma RestLess(x: bv32)
    requires x != 0xffff_ffff
    ensures Rest(Inc(x)) < Rest(x)
  {
  }

  /** Counting on to the largest word shows that no number is out of range. */
  lemma {:induction false} NumberBelow(x: bv32)
    ensures Number(x) < RANGE
    decreases Rest(x)
  {
    hide *;
    NumberOfMax();
    if x != 0xffff_ffff {
      NumberInc(x);
      RestLess(x);
      NumberBelow(Inc(x));
    }
  }

  lemma NumberIncs(x: bv32)
    ensures Number(Inc(x)) == (Number(x) + 1) % RANGE
    ensures Number(x) < RANGE
  {
    hide *;
    NumberOfMax();
    NumberOfZero();
    IncMax();
    NumberBelow(x);
    if x != 0xffff_ffff {
      NumberInc(x);
      NumberBelow(Inc(x));
    }
  }

  // ----- sums are taken modulo the range -----

  lemma ModStep(u: nat, v: nat)
    ensures (u % RANGE + v) % RANGE == (u + v) % RANGE
  {
  }

  lemma SumOfNext(x: bv32, y: bv32)
    ensures Plus(x, y + 1) == Plus(x, y) + 1
  {
  }

  lemma IncIs(x: bv32)
    ensures Inc(x) == x + 1
  {
  }

  lemma SumInc(x: bv32, y: bv32)
    ensures Plus(x, Inc(y)) == Inc(Plus(x, y))
  {
    hide *;
    SumOfNext(x, y);
    IncIs(y);
    IncIs(Plus(x, y));
  }

  lemma SumUnfolds(x: bv32, y: bv32)
    requires y != 0
    ensures Plus(x, y) == Inc(Plus(x, Dec(y)))
  {
    hide *;
    HalfLess(y);
    SumInc(x, Dec(y));
  }

  lemma NoSum(x: bv32)
    ensures Plus(x, 0) == x
  {
  }

  lemma NumberPlusZero(x: bv32)
    ensures Number(Plus(x, 0)) == Number(x) % RANGE
  {
    hide *;
    NumberBelow(x);
    NoSum(x);
  }

  lemma NumberPlusNext(x: bv32, y: bv32)
    requires y != 0 && Number(Plus(x, Dec(y))) == (Number(x) + Number(Dec(y))) % RANGE
    ensures Number(Plus(x, y)) == (Number(x) + Number(y)) % RANGE
  {
    hide *;
    HalfLess(y);
    SumUnfolds(x, y);
    NumberIncs(Plus(x, Dec(y)));
    NumberInc(Dec(y));
    ModStep(Number(x) + Number(Dec(y)), 1);
  }

  lemma {:induction false} NumberPlus(x: bv32, y: bv32)
    ensures Number(Plus(x, y)) == (Number(x) + Number(y)) % RANGE
    decreases y
  {
    hide *;
    NumberOfZero();
    if y == 0 {
      NumberPlusZero(x);
    } else {
      HalfLess(y);
      NumberPlus(x, Dec(y));
      NumberPlusNext(x, y);
    }
  }

  // ----- shifts divide -----

  lemma ShiftBits(x: bv32)
    ensures x >> 2 == Half(Half(x)) && x >> 4 == (x >> 2) >> 2 && x >> 8 == (x >> 4) >> 4 && x >> 16 == (x >> 8) >> 8
  {
  }

  lemma NumberShift2(x: bv32)
    ensures Number(x >> 2) == Number(x) / 4
  {
    ShiftBits(x);
    NumberHalf(x);
    NumberHalf(Half(x));
  }

  lemma NumberShift4(x: bv32)
    ensures Number(x >> 4) == Number(x) / 16
  {
    ShiftBits(x);
    NumberShift2(x);
    NumberShift2(x >> 2);
  }

  lemma NumberShift8(x: bv32)
    ensures Number(x >> 8) == Number(x) / 0x100
  {
    ShiftBits(x);
    NumberShift4(x);
    NumberShift4(x >> 4);
  }

  lemma NumberShift16(x: bv32)
    ensures Number(x >> 16) == Number(x) / 0x1_0000
  {
    ShiftBits(x);
    NumberShift8(x);
    NumberShift8(x >> 8);
  }

  // ----- exclusive or adds digit by digit without carry -----

  function ExclusiveOr(a: nat, b: nat): nat {
    if a == 0 && b == 0 then 0 else (a + b) % 2 + 2 * ExclusiveOr(a / 2, b / 2)
  }

  lemma XorBits(x: bv32, y: bv32)
    ensures Half(Xor(x, y)) == Xor(Half(x), Half(y))
    ensures Odd(Xor(x, y)) <==> Odd(x) != Odd(y)
    ensures Half(0) == 0 && Xor(0, 0) == 0
  {
  }

  lemma ExclusiveOrUnfolds(p: bool, a: nat, q: bool, b: nat)
    ensures ExclusiveOr((if p then 1 else 0) + 2 * a, (if q then 1 else 0) + 2 * b)
            == (if p != q then 1 else 0) + 2 * ExclusiveOr(a, b)
  {
    var x, y := (if p then 1 else 0) + 2 * a, (if q then 1 else 0) + 2 * b;
    assert x / 2 == a && y / 2 == b && (x + y) % 2 == if p != q then 1 else 0;
    if x == 0 && y == 0 {
      assert a == 0 && b == 0;
    }
  }

  lemma {:induction false} NumberXor(x: bv32, y: bv32)
    ensures Number(Xor(x, y)) == ExclusiveOr(Number(x), Number(y))
    decreases x, y
  {
    hide *;
    XorBits(x, y);
    if x == 0 && y == 0 {
      NumberOfZero();
      ExclusiveOrUnfolds(false, 0, false, 0);
    } else {
      NumberHalf(x);
      NumberHalf(y);
      NumberHalf(Xor(x, y));
      if x != 0 { HalfLess(x); } else { HalfLess(y); }
      NumberXor(Half(x), Half(y));
      ExclusiveOrUnfolds(Odd(x), Number(Half(x)), Odd(y), Number(Half(y)));
    }
  }

  // ----- the word of a number -----

  /** The conversion of a number to 32 bits. */
  function WordOf(n: nat): bv32 {
    if n == 0 then 0 else Plus(Plus(WordOf(n / 2), WordOf(n / 2)), if n % 2 == 1 then 1 else 0)
  }

  /** It keeps the number modulo the range. */
  lemma {:induction false} NumberOfWord(n: nat)
    ensures Number(WordOf(n)) == n % RANGE
  {
    SmallNumbers();
    if n > 0 {
      var w := WordOf(n / 2);
      NumberOfWord(n / 2);
      NumberPlus(w, w);
      NumberPlus(Plus(w, w), if n % 2 == 1 then 1 else 0);
      hide Number, Plus;
      DoubleStep(n);
    }
  }

  lemma DoubleStep(n: nat)
    ensures ((n / 2 % RANGE + n / 2 % RANGE) % RANGE + n % 2) % RANGE == n % RANGE
  {
    ModStep(n / 2, n / 2 % RANGE);
    ModStep(n / 2, n / 2);
    ModStep(n / 2 + n / 2, n % 2);
  }

  // ----- bytes -----

  function ByteNumber(b: byte): nat { Number(b as bv32) }

  lemma ByteRange(b: byte)
    ensures (b as bv32) >> 8 == 0
  {
  }

  /** A byte behind a word. */
  function Behind(x: bv32, b: byte): bv32 { (x << 8) | (b as bv32) }

  lemma TwoDigits(x: bv32, b: byte)
    requires x < 0x100_0000
    ensures x < 0x1000_0000 && Digit(x, (b as bv32) >> 4) < 0x1000_0000 && (b as bv32) >> 4 < 16 && (b as bv32) & 0xf < 16
    ensures Behind(x, b) == Digit(Digit(x, (b as bv32) >> 4), (b as bv32) & 0xf)
    ensures b as bv32 == Digit((b as bv32) >> 4, (b as bv32) & 0xf)
  {
  }

  lemma NumberBehind(x: bv32, b: byte)
    requires x < 0x100_0000
    ensures Number(Behind(x, b)) == 0x100 * Number(x) + ByteNumber(b)
  {
    hide Number, Digit, Behind;
    TwoDigits(x, b);
    NumberDigit(x, (b as bv32) >> 4);
    NumberDigit(Digit(x, (b as bv32) >> 4), (b as bv32) & 0xf);
    NumberDigit((b as bv32) >> 4, (b as bv32) & 0xf);
  }

  lemma JoinBehind(b0: byte, b1: byte, b2: byte, b3: byte)
    ensures Join(b0, b1, b2, b3) == Behind(Behind(Behind(b3 as bv32, b2), b1), b0)
    ensures b3 as bv32 < 0x100_0000 && Behind(b3 as bv32, b2) < 0x100_0000 && Behind(Behind(b3 as bv32, b2), b1) < 0x100_0000
  {
  }

  /** Four bytes join to the number whose digits to the base 256 they are, least significant first. */
  lemma NumberOfJoin(b0: byte, b1: byte, b2: byte, b3: byte)
    ensures Number(Join(b0, b1, b2, b3))
            == ByteNumber(b0) + 0x100 * ByteNumber(b1) + 0x1_0000 * ByteNumber(b2) + 0x100_0000 * ByteNumber(b3)
  {
    hide Join, Behind, Number;
    JoinBehind(b0, b1, b2, b3);
    NumberBehind(b3 as bv32, b2);
    NumberBehind(Behind(b3 as bv32, b2), b1);
    NumberBehind(Behind(Behind(b3 as bv32, b2), b1), b0);
  }
}
