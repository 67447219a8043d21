/** Where the swap tricks of tflib/expert/d3des.c take each bit from: they compute the table IP of FIPS 46-3. */
module DesBits {
  import opened Machine
  import opened DesCipher
  import opened DesKeys

  // ----- the bits of a block, numbered from the most significant bit of the left word -----

  function BitMask(j: nat): bv32
    requires j < 32
  {
    match j
    case 0 => 0x80000000 case 1 => 0x40000000 case 2 => 0x20000000 case 3 => 0x10000000
    case 4 => 0x08000000 case 5 => 0x04000000 case 6 => 0x02000000 case 7 => 0x01000000
    case 8 => 0x00800000 case 9 => 0x00400000 case 10 => 0x00200000 case 11 => 0x00100000
    case 12 => 0x00080000 case 13 => 0x00040000 case 14 => 0x00020000 case 15 => 0x00010000
    case 16 => 0x00008000 case 17 => 0x00004000 case 18 => 0x00002000 case 19 => 0x00001000
    case 20 => 0x00000800 case 21 => 0x00000400 case 22 => 0x00000200 case 23 => 0x00000100
    case 24 => 0x00000080 case 25 => 0x00000040 case 26 => 0x00000020 case 27 => 0x00000010
    case 28 => 0x00000008 case 29 => 0x00000004 case 30 => 0x00000002 case 31 => 0x00000001
  }

  function Bit(x: bv32, j: nat): bool
    requires j < 32
  {
    Meets(x, BitMask(j))
  }

  predicate Meets(x: bv32, m: bv32) { And(x, m) != 0 }

  predicate Avoids(x: bv32, m: bv32) { x & m == 0 }

  function Only(places: bv32, m: bv32): bv32 { m & places }

  function Down(s: nat, m: bv32): bv32 {
    if s == 1 then m >> 1 else if s == 2 then m >> 2 else if s == 4 then m >> 4 else if s == 8 then m >> 8 else m >> 16
  }

  function Up(s: nat, m: bv32): bv32 {
    if s == 1 then m << 1 else if s == 2 then m << 2 else if s == 4 then m << 4 else if s == 8 then m << 8 else m << 16
  }

  // ----- where each exchange takes its bits from -----

  lemma MaskDownEarly(j: nat)
    requires j < 16
    ensures Down(1, BitMask(j)) == BitMask(j + 1)
  {
  }

  lemma MaskDownLate(j: nat)
    requires 16 <= j < 31
    ensures Down(1, BitMask(j)) == BitMask(j + 1)
  {
  }

  lemma MaskDown1(j: nat)
    requires j < 31
    ensures Down(1, BitMask(j)) == BitMask(j + 1)
  {
    hide Down, BitMask;
    if j < 16 { MaskDownEarly(j); } else { MaskDownLate(j); }
  }

  lemma DownTwice1(m: bv32)
    ensures Down(1, Down(1, m)) == Down(2, m)
  {
  }

  lemma MaskDown2(j: nat)
    requires j + 2 < 32
    ensures Down(2, BitMask(j)) == BitMask(j + 2)
  {
    hide Down, BitMask;
    MaskDown1(j);
    MaskDown1(j + 1);
    DownTwice1(BitMask(j));
  }

  lemma DownTwice2(m: bv32)
    ensures Down(2, Down(2, m)) == Down(4, m)
  {
  }

  lemma MaskDown4(j: nat)
    requires j + 4 < 32
    ensures Down(4, BitMask(j)) == BitMask(j + 4)
  {
    hide Down, BitMask;
    MaskDown2(j);
    MaskDown2(j + 2);
    DownTwice2(BitMask(j));
  }

  lemma DownTwice4(m: bv32)
    ensures Down(4, Down(4, m)) == Down(8, m)
  {
  }

  lemma MaskDown8(j: nat)
    requires j + 8 < 32
    ensures Down(8, BitMask(j)) == BitMask(j + 8)
  {
    hide Down, BitMask;
    MaskDown4(j);
    MaskDown4(j + 4);
    DownTwice4(BitMask(j));
  }

  lemma DownTwice8(m: bv32)
    ensures Down(8, Down(8, m)) == Down(16, m)
  {
  }

  lemma MaskDown16(j: nat)
    requires j + 16 < 32
    ensures Down(16, BitMask(j)) == BitMask(j + 16)
  {
    hide Down, BitMask;
    MaskDown8(j);
    MaskDown8(j + 8);
    DownTwice8(BitMask(j));
  }

  lemma UpNothing2(x: bv32, m: bv32)
    ensures Up(2, And(x, Down(2, m))) == 0 <==> And(x, Down(2, m)) == 0
  {
  }

  lemma DownNothing2(x: bv32, m: bv32)
    ensures Down(2, And(x, Up(2, m))) == 0 <==> And(x, Up(2, m)) == 0
  {
  }

  lemma UpDown2(m: bv32)
    requires Avoids(m, 0x00000003)
    ensures Up(2, Down(2, m)) == m
  {
  }

  lemma NothingBelow2(j: nat)
    requires j + 2 < 32
    ensures Avoids(BitMask(j), 0x00000003)
  {
  }

  lemma MaskUp2(j: nat)
    requires j + 2 < 32
    ensures Up(2, BitMask(j + 2)) == BitMask(j)
  {
    hide Up, Down, BitMask, Avoids;
    MaskDown2(j);
    NothingBelow2(j);
    UpDown2(BitMask(j));
  }

  lemma UpNothing4(x: bv32, m: bv32)
    ensures Up(4, And(x, Down(4, m))) == 0 <==> And(x, Down(4, m)) == 0
  {
  }

  lemma DownNothing4(x: bv32, m: bv32)
    ensures Down(4, And(x, Up(4, m))) == 0 <==> And(x, Up(4, m)) == 0
  {
  }

  lemma UpDown4(m: bv32)
    requires Avoids(m, 0x0000000f)
    ensures Up(4, Down(4, m)) == m
  {
  }

  lemma NothingBelow4(j: nat)
    requires j + 4 < 32
    ensures Avoids(BitMask(j), 0x0000000f)
  {
  }

  lemma MaskUp4(j: nat)
    requires j + 4 < 32
    ensures Up(4, BitMask(j + 4)) == BitMask(j)
  {
    hide Up, Down, BitMask, Avoids;
    MaskDown4(j);
    NothingBelow4(j);
    UpDown4(BitMask(j));
  }

  lemma UpNothing8(x: bv32, m: bv32)
    ensures Up(8, And(x, Down(8, m))) == 0 <==> And(x, Down(8, m)) == 0
  {
  }

  lemma DownNothing8(x: bv32, m: bv32)
    ensures Down(8, And(x, Up(8, m))) == 0 <==> And(x, Up(8, m)) == 0
  {
  }

  lemma UpDown8(m: bv32)
    requires Avoids(m, 0x000000ff)
    ensures Up(8, Down(8, m)) == m
  {
  }

  lemma NothingBelow8(j: nat)
    requires j + 8 < 32
    ensures Avoids(BitMask(j), 0x000000ff)
  {
  }

  lemma MaskUp8(j: nat)
    requires j + 8 < 32
    ensures Up(8, BitMask(j + 8)) == BitMask(j)
  {
    hide Up, Down, BitMask, Avoids;
    MaskDown8(j);
    NothingBelow8(j);
    UpDown8(BitMask(j));
  }

  lemma UpNothing16(x: bv32, m: bv32)
    ensures Up(16, And(x, Down(16, m))) == 0 <==> And(x, Down(16, m)) == 0
  {
  }

  lemma DownNothing16(x: bv32, m: bv32)
    ensures Down(16, And(x, Up(16, m))) == 0 <==> And(x, Up(16, m)) == 0
  {
  }

  lemma UpDown16(m: bv32)
    requires Avoids(m, 0x0000ffff)
    ensures Up(16, Down(16, m)) == m
  {
  }

  lemma NothingBelow16(j: nat)
    requires j + 16 < 32
    ensures Avoids(BitMask(j), 0x0000ffff)
  {
  }

  lemma MaskUp16(j: nat)
    requires j + 16 < 32
    ensures Up(16, BitMask(j + 16)) == BitMask(j)
  {
    hide Up, Down, BitMask, Avoids;
    MaskDown16(j);
    NothingBelow16(j);
    UpDown16(BitMask(j));
  }

  lemma Low4(j: nat)
    requires j < 32 && j % 8 >= 4
    ensures Only(0x0f0f0f0f, BitMask(j)) == BitMask(j)
  {
  }

  lemma High4(j: nat)
    requires j < 32 && j % 8 < 4
    ensures Only(0xf0f0f0f0, BitMask(j)) == BitMask(j)
  {
  }

  lemma LeftTraded4(h: Halves, m: bv32)
    ensures And(Exchange4(h).l, Only(0xf0f0f0f0, m)) == Up(4, And(h.r, Down(4, Only(0xf0f0f0f0, m))))
  {
  }

  lemma LeftKept4(h: Halves, m: bv32)
    ensures And(Exchange4(h).l, Only(0x0f0f0f0f, m)) == And(h.l, Only(0x0f0f0f0f, m))
  {
  }

  lemma RightTraded4(h: Halves, m: bv32)
    ensures And(Exchange4(h).r, Only(0x0f0f0f0f, m)) == Down(4, And(h.l, Up(4, Only(0x0f0f0f0f, m))))
  {
  }

  lemma RightKept4(h: Halves, m: bv32)
    ensures And(Exchange4(h).r, Only(0xf0f0f0f0, m)) == And(h.r, Only(0xf0f0f0f0, m))
  {
  }

  lemma Exchanged4(h: Halves, j: nat)
    requires j < 32
    ensures Bit(Exchange4(h).l, j) == if j % 8 < 4 then Bit(h.r, j + 4) else Bit(h.l, j)
    ensures Bit(Exchange4(h).r, j) == if j % 8 < 4 then Bit(h.r, j) else Bit(h.l, j - 4)
  {
    hide And, Only, Down, Up, BitMask, Exchange4;
    if j % 8 < 4 {
      High4(j);
      MaskDown4(j);
      LeftTraded4(h, BitMask(j));
      UpNothing4(h.r, BitMask(j));
      RightKept4(h, BitMask(j));
    } else {
      Low4(j);
      MaskUp4(j - 4);
      LeftKept4(h, BitMask(j));
      RightTraded4(h, BitMask(j));
      DownNothing4(h.l, BitMask(j));
    }
  }

  lemma Low16(j: nat)
    requires j < 32 && j >= 16
    ensures Only(0x0000ffff, BitMask(j)) == BitMask(j)
  {
  }

  lemma High16(j: nat)
    requires j < 32 && j < 16
    ensures Only(0xffff0000, BitMask(j)) == BitMask(j)
  {
  }

  lemma LeftTraded16(h: Halves, m: bv32)
    ensures And(Exchange16(h).l, Only(0xffff0000, m)) == Up(16, And(h.r, Down(16, Only(0xffff0000, m))))
  {
  }

  lemma LeftKept16(h: Halves, m: bv32)
    ensures And(Exchange16(h).l, Only(0x0000ffff, m)) == And(h.l, Only(0x0000ffff, m))
  {
  }

  lemma RightTraded16(h: Halves, m: bv32)
    ensures And(Exchange16(h).r, Only(0x0000ffff, m)) == Down(16, And(h.l, Up(16, Only(0x0000ffff, m))))
  {
  }

  lemma RightKept16(h: Halves, m: bv32)
    ensures And(Exchange16(h).r, Only(0xffff0000, m)) == And(h.r, Only(0xffff0000, m))
  {
  }

  lemma Exchanged16(h: Halves, j: nat)
    requires j < 32
    ensures Bit(Exchange16(h).l, j) == if j < 16 then Bit(h.r, j + 16) else Bit(h.l, j)
    ensures Bit(Exchange16(h).r, j) == if j < 16 then Bit(h.r, j) else Bit(h.l, j - 16)
  {
    hide And, Only, Down, Up, BitMask, Exchange16;
    if j < 16 {
      High16(j);
      MaskDown16(j);
      LeftTraded16(h, BitMask(j));
      UpNothing16(h.r, BitMask(j));
      RightKept16(h, BitMask(j));
    } else {
      Low16(j);
      MaskUp16(j - 16);
      LeftKept16(h, BitMask(j));
      RightTraded16(h, BitMask(j));
      DownNothing16(h.l, BitMask(j));
    }
  }

  lemma Low2(j: nat)
    requires j < 32 && j % 4 >= 2
    ensures Only(0x33333333, BitMask(j)) == BitMask(j)
  {
  }

  lemma High2(j: nat)
    requires j < 32 && j % 4 < 2
    ensures Only(0xcccccccc, BitMask(j)) == BitMask(j)
  {
  }

  lemma LeftTraded2(h: Halves, m: bv32)
    ensures And(Exchange2(h).l, Only(0xcccccccc, m)) == Up(2, And(h.r, Down(2, Only(0xcccccccc, m))))
  {
  }

  lemma LeftKept2(h: Halves, m: bv32)
    ensures And(Exchange2(h).l, Only(0x33333333, m)) == And(h.l, Only(0x33333333, m))
  {
  }

  lemma RightTraded2(h: Halves, m: bv32)
    ensures And(Exchange2(h).r, Only(0x33333333, m)) == Down(2, And(h.l, Up(2, Only(0x33333333, m))))
  {
  }

  lemma RightKept2(h: Halves, m: bv32)
    ensures And(Exchange2(h).r, Only(0xcccccccc, m)) == And(h.r, Only(0xcccccccc, m))
  {
  }

  lemma Exchanged2(h: Halves, j: nat)
    requires j < 32
    ensures Bit(Exchange2(h).l, j) == if j % 4 < 2 then Bit(h.r, j + 2) else Bit(h.l, j)
    ensures Bit(Exchange2(h).r, j) == if j % 4 < 2 then Bit(h.r, j) else Bit(h.l, j - 2)
  {
    hide And, Only, Down, Up, BitMask, Exchange2;
    if j % 4 < 2 {
      High2(j);
      MaskDown2(j);
      LeftTraded2(h, BitMask(j));
      UpNothing2(h.r, BitMask(j));
      RightKept2(h, BitMask(j));
    } else {
      Low2(j);
      MaskUp2(j - 2);
      LeftKept2(h, BitMask(j));
      RightTraded2(h, BitMask(j));
      DownNothing2(h.l, BitMask(j));
    }
  }

  lemma Low8(j: nat)
    requires j < 32 && j % 16 >= 8
    ensures Only(0x00ff00ff, BitMask(j)) == BitMask(j)
  {
  }

  lemma High8(j: nat)
    requires j < 32 && j % 16 < 8
    ensures Only(0xff00ff00, BitMask(j)) == BitMask(j)
  {
  }

  lemma LeftTraded8(h: Halves, m: bv32)
    ensures And(Exchange8(h).l, Only(0xff00ff00, m)) == Up(8, And(h.r, Down(8, Only(0xff00ff00, m))))
  {
  }

  lemma LeftKept8(h: Halves, m: bv32)
    ensures And(Exchange8(h).l, Only(0x00ff00ff, m)) == And(h.l, Only(0x00ff00ff, m))
  {
  }

  lemma RightTraded8(h: Halves, m: bv32)
    ensures And(Exchange8(h).r, Only(0x00ff00ff, m)) == Down(8, And(h.l, Up(8, Only(0x00ff00ff, m))))
  {
  }

  lemma RightKept8(h: Halves, m: bv32)
    ensures And(Exchange8(h).r, Only(0xff00ff00, m)) == And(h.r, Only(0xff00ff00, m))
  {
  }

  lemma Exchanged8(h: Halves, j: nat)
    requires j < 32
    ensures Bit(Exchange8(h).l, j) == if j % 16 < 8 then Bit(h.r, j + 8) else Bit(h.l, j)
    ensures Bit(Exchange8(h).r, j) == if j % 16 < 8 then Bit(h.r, j) else Bit(h.l, j - 8)
  {
    hide And, Only, Down, Up, BitMask, Exchange8;
    if j % 16 < 8 {
      High8(j);
      MaskDown8(j);
      LeftTraded8(h, BitMask(j));
      UpNothing8(h.r, BitMask(j));
      RightKept8(h, BitMask(j));
    } else {
      Low8(j);
      MaskUp8(j - 8);
      LeftKept8(h, BitMask(j));
      RightTraded8(h, BitMask(j));
      DownNothing8(h.l, BitMask(j));
    }
  }

  lemma EvenPlaces(j: nat)
    requires j < 32 && j % 2 == 0
    ensures Only(0xaaaaaaaa, BitMask(j)) == BitMask(j)
  {
  }

  lemma OddPlaces(j: nat)
    requires j < 32 && j % 2 == 1
    ensures Only(0x55555555, BitMask(j)) == BitMask(j)
  {
  }

  lemma LeftTraded0(h: Halves, m: bv32)
    ensures And(Exchange0(h).l, Only(0xaaaaaaaa, m)) == And(h.r, Only(0xaaaaaaaa, m))
  {
  }

  lemma RightTraded0(h: Halves, m: bv32)
    ensures And(Exchange0(h).r, Only(0xaaaaaaaa, m)) == And(h.l, Only(0xaaaaaaaa, m))
  {
  }

  lemma LeftKept0(h: Halves, m: bv32)
    ensures And(Exchange0(h).l, Only(0x55555555, m)) == And(h.l, Only(0x55555555, m))
  {
  }

  lemma RightKept0(h: Halves, m: bv32)
    ensures And(Exchange0(h).r, Only(0x55555555, m)) == And(h.r, Only(0x55555555, m))
  {
  }

  lemma Exchanged0(h: Halves, j: nat)
    requires j < 32
    ensures Bit(Exchange0(h).l, j) == if j % 2 == 0 then Bit(h.r, j) else Bit(h.l, j)
    ensures Bit(Exchange0(h).r, j) == if j % 2 == 0 then Bit(h.l, j) else Bit(h.r, j)
  {
    hide And, Only, BitMask, Exchange0;
    if j % 2 == 0 {
      EvenPlaces(j);
      LeftTraded0(h, BitMask(j));
      RightTraded0(h, BitMask(j));
    } else {
      OddPlaces(j);
      LeftKept0(h, BitMask(j));
      RightKept0(h, BitMask(j));
    }
  }

  lemma RotatedMask(x: bv32, m: bv32)
    ensures And(RotateLeft(x), Only(0xfffffffe, m)) == Up(1, And(x, Down(1, Only(0xfffffffe, m))))
    ensures Up(1, And(x, Down(1, m))) == 0 <==> And(x, Down(1, m)) == 0
  {
  }

  lemma RotatedEnd(x: bv32)
    ensures Meets(RotateLeft(x), 0x00000001) <==> Meets(x, 0x80000000)
  {
  }

  lemma NotLast(j: nat)
    requires j < 31
    ensures Only(0xfffffffe, BitMask(j)) == BitMask(j)
  {
  }

  lemma EndMasks()
    ensures BitMask(31) == 0x00000001 && BitMask(0) == 0x80000000
  {
  }

  lemma RotatedLeft(x: bv32, j: nat)
    requires j < 32
    ensures Bit(RotateLeft(x), j) == if j == 31 then Bit(x, 0) else Bit(x, j + 1)
  {
    hide And, Only, BitMask, Up, Down, RotateLeft;
    RotatedMask(x, BitMask(j));
    RotatedEnd(x);
    EndMasks();
    if j < 31 {
      MaskDown1(j);
      NotLast(j);
    }
  }

  // ----- the initial permutation -----

  function Digit(b: bool): nat { if b then 1 else 0 }

  /** A bit of a block: the word it is in, and the binary digits of its place there. */
  datatype Place = Place(left: bool, a: bool, b: bool, c: bool, d: bool, e: bool) {
    function Index(): (j: nat)
      ensures j < 32
    {
      16 * Digit(a) + 8 * Digit(b) + 4 * Digit(c) + 2 * Digit(d) + Digit(e)
    }

    function Row(): nat { 2 * Digit(a) + Digit(b) }

    function Column(): nat { 4 * Digit(c) + 2 * Digit(d) + Digit(e) }
  }

  function At(h: Halves, p: Place): bool {
    if p.left then Bit(h.l, p.Index()) else Bit(h.r, p.Index())
  }

  lemma Digits(p: Place)
    ensures p.Index() >= 16 <==> p.a
    ensures p.Index() % 16 >= 8 <==> p.b
    ensures p.Index() % 8 >= 4 <==> p.c
    ensures p.Index() % 4 >= 2 <==> p.d
    ensures p.Index() % 2 == 1 <==> p.e
  {
  }

  // Each exchange trades the word of a bit for one digit of its place.
  lemma Traced16(h: Halves, p: Place)
    ensures At(Exchange16(h), p) == At(h, p.(left := p.a, a := p.left))
  {
    hide Exchange16, Bit;
    Digits(p);
    Exchanged16(h, p.Index());
  }

  lemma Traced8(h: Halves, p: Place)
    ensures At(Exchange8(h), p) == At(h, p.(left := p.b, b := p.left))
  {
    hide Exchange8, Bit;
    Digits(p);
    Exchanged8(h, p.Index());
  }

  lemma Traced4(h: Halves, p: Place)
    ensures At(Exchange4(h), p) == At(h, p.(left := p.c, c := p.left))
  {
    hide Exchange4, Bit;
    Digits(p);
    Exchanged4(h, p.Index());
  }

  lemma Traced2(h: Halves, p: Place)
    ensures At(Exchange2(h), p) == At(h, p.(left := p.d, d := p.left))
  {
    hide Exchange2, Bit;
    Digits(p);
    Exchanged2(h, p.Index());
  }

  lemma TracedSwap(h: Halves, p: Place)
    ensures At(Swap(h), p) == At(h, p.(left := !p.left))
  {
  }

  lemma TracedFour(b: Halves, p: Place)
    ensures At(Swap(Exchange8(Exchange2(Swap(Exchange16(Exchange4(b)))))), p)
            == At(b, Place(p.c, !p.d, !p.left, p.a, p.b, p.e))
  {
    hide At, Swap, Exchange4, Exchange16, Exchange2, Exchange8;
    var h1, h2 := Exchange4(b), Exchange16(Exchange4(b));
    var h3 := Exchange2(Swap(h2));
    var p1 := p.(left := !p.left);
    var p2 := p1.(left := p1.b, b := p1.left);
    var p3 := p2.(left := p2.d, d := p2.left);
    var p4 := p3.(left := !p3.left);
    var p5 := p4.(left := p4.a, a := p4.left);
    TracedSwap(Exchange8(h3), p);
    Traced8(h3, p1);
    Traced2(Swap(h2), p2);
    TracedSwap(h2, p3);
    Traced16(h1, p4);
    Traced4(b, p5);
  }

  // ----- the initial permutation of FIPS 46-3 -----

  /** Bit n of a block, counted from zero over both words. */
  function BlockBit(h: Halves, n: nat): bool
    requires n < 64
  {
    if n < 32 then Bit(h.l, n) else Bit(h.r, n - 32)
  }

  /** The table IP: its rows are 58 50 42 34 26 18 10 2, then 60, 62 and 64 likewise for the left half, and 57, 59, 61 and
      63 for the right; bits are counted from one there. */
  function IpTable(p: Place): (n: nat)
    ensures 1 <= n <= 64
  {
    (if p.left then 58 else 57) - 8 * p.Column() + 2 * p.Row()
  }

  /** The two halves IP yields, in the standard's terms: the C code keeps each turned left by one bit. */
  function StandardIp(b: Halves): Halves { Halves(RotateRight(Ip(b).l), RotateRight(Ip(b).r)) }

  lemma LastStage(x: Halves, p: Place)
    ensures var g := Exchange0(Halves(x.l, RotateLeft(x.r)));
            At(Halves(g.l, RotateRight(g.r)), p) == At(x, p.(left := p.e, e := p.left))
  {
    hide Exchange0, Bit, RotateLeft, RotateRight;
    var w := Halves(x.l, RotateLeft(x.r));
    var g := Exchange0(w);
    var j := p.Index();
    Digits(p);
    if p.left {
      Exchanged0(w, j);
      if !p.e { RotatedLeft(x.r, j); }
    } else {
      var i := if j == 0 then 31 else j - 1;
      RotationsUndone(g.r);
      RotatedLeft(RotateRight(g.r), i);
      Exchanged0(w, i);
      RotatedLeft(x.r, i);
    }
  }

  /** The swap tricks of the C code compute the table IP. */
  lemma IpIsStandard(b: Halves, p: Place)
    ensures At(StandardIp(b), p) == BlockBit(b, IpTable(p) - 1)
  {
    var x := Swap(Exchange8(Exchange2(Swap(Exchange16(Exchange4(b))))));
    var q := p.(left := p.e, e := p.left);
    IpStages(b);
    LastStage(x, p);
    TracedFour(b, q);
    hide Exchange0, Exchange2, Exchange4, Exchange8, Exchange16, Bit, RotateLeft, RotateRight, StandardIp;
  }

  lemma IpStages(b: Halves)
    ensures var x := Swap(Exchange8(Exchange2(Swap(Exchange16(Exchange4(b))))));
            var g := Exchange0(Halves(x.l, RotateLeft(x.r)));
            StandardIp(b) == Halves(g.l, RotateRight(g.r))
  {
    hide Exchange0, Exchange2, Exchange4, Exchange8, Exchange16, RotateLeft, RotateRight;
    var x := Swap(Exchange8(Exchange2(Swap(Exchange16(Exchange4(b))))));
    RotationsUndone(Exchange0(Halves(x.l, RotateLeft(x.r))).l);
  }
}
