/** tflib/expert/md5.c: the incremental hasher, proved to compute the one-shot digest for every chunking. */
module Md5 {
  import opened Machine
  import opened Md5Spec

  // ----- MD5Transform: 64 unrolled steps on four locals -----

  /** F1 is written with one operation fewer than the RFC's F. */
  function Core(f: nat, x: bv32, y: bv32, z: bv32): bv32
    requires f < 4
  {
    if f == 0 then z ^ (x & (y ^ z))
    else if f == 1 then y ^ (z & (x ^ y))
    else if f == 2 then x ^ y ^ z
    else y ^ (x | !z)
  }

  lemma ChooseWithoutNot(x: bv32, y: bv32, z: bv32)
    ensures z ^ (x & (y ^ z)) == (x & y) | (!x & z)
  {
  }

  lemma ChooseByLast(x: bv32, y: bv32, z: bv32)
    ensures y ^ (z & (x ^ y)) == (x & z) | (y & !z)
  {
  }

  lemma CoreIsAux(f: nat, x: bv32, y: bv32, z: bv32)
    requires f < 4
    ensures Core(f, x, y, z) == Aux(f, x, y, z)
  {
    ChooseWithoutNot(x, y, z);
    ChooseByLast(x, y, z);
  }

  lemma PlusAssociates(x: bv32, y: bv32, z: bv32)
    ensures Plus(Plus(x, y), z) == Plus(x, Plus(y, z))
  {
    hide *;
    PlusIs(x, y);
    PlusIs(y, z);
    SumsRegroup(x, y, z);
  }

  lemma PlusIs(x: bv32, y: bv32)
    ensures Plus(x, y) == x + y
  {
  }

  lemma SumsRegroup(x: bv32, y: bv32, z: bv32)
    ensures Plus(x + y, z) == Plus(x, y + z)
  {
  }

  lemma SumReordered(w: bv32, f: bv32, k: bv32, t: bv32)
    ensures Plus(w, Plus(f, Plus(k, t))) == Plus(Plus(Plus(w, f), k), t)
  {
    hide *;
    PlusAssociates(w, f, Plus(k, t));
    PlusAssociates(Plus(w, f), k, t);
  }

  lemma PlusCommutes(x: bv32, y: bv32)
    ensures Plus(x, y) == Plus(y, x)
  {
  }

  /** MD5STEP: w += f(x, y, z) + data, rotate, w += x. */
  method Step(f: nat, w0: bv32, x: bv32, y: bv32, z: bv32, k: bv32, t: bv32, s: nat,
              ghost r: Regs, ghost inp: seq<bv32>, ghost n: nat) returns (w: bv32)
    requires n < 64 && f == n / 16 && |inp| == 16 && s == Shift(n)
    requires k == inp[WordIndex(n)] && t == Sine(n)
    requires Operations(r, inp, n) == Regs(w0, x, y, z)
    ensures Operations(r, inp, n + 1) == Regs(z, w, x, y)
  {
    hide Core, Aux, Plus, RotateLeft, Sine, Shift, WordIndex;
    CoreIsAux(f, x, y, z);
    SumReordered(w0, Core(f, x, y, z), k, t);
    w := Plus(w0, Plus(Core(f, x, y, z), Plus(k, t)));
    w := RotateLeft(w, s);
    PlusCommutes(w, x);
    w := Plus(w, x);
  }

  method Round1First(a0: bv32, b0: bv32, c0: bv32, d0: bv32, inp: seq<bv32>, ghost r: Regs)
    returns (a: bv32, b: bv32, c: bv32, d: bv32)
    requires |inp| == 16 && Operations(r, inp, 0) == Regs(a0, b0, c0, d0)
    ensures Operations(r, inp, 8) == Regs(a, b, c, d)
  {
    hide Operations;
    a, b, c, d := a0, b0, c0, d0;
    a := Step(0, a, b, c, d, inp[0], 0xd76aa478, 7, r, inp, 0);
    d := Step(0, d, a, b, c, inp[1], 0xe8c7b756, 12, r, inp, 1);
    c := Step(0, c, d, a, b, inp[2], 0x242070db, 17, r, inp, 2);
    b := Step(0, b, c, d, a, inp[3], 0xc1bdceee, 22, r, inp, 3);
    a := Step(0, a, b, c, d, inp[4], 0xf57c0faf, 7, r, inp, 4);
    d := Step(0, d, a, b, c, inp[5], 0x4787c62a, 12, r, inp, 5);
    c := Step(0, c, d, a, b, inp[6], 0xa8304613, 17, r, inp, 6);
    b := Step(0, b, c, d, a, inp[7], 0xfd469501, 22, r, inp, 7);
  }

  method Round1Second(a0: bv32, b0: bv32, c0: bv32, d0: bv32, inp: seq<bv32>, ghost r: Regs)
    returns (a: bv32, b: bv32, c: bv32, d: bv32)
    requires |inp| == 16 && Operations(r, inp, 8) == Regs(a0, b0, c0, d0)
    ensures Operations(r, inp, 16) == Regs(a, b, c, d)
  {
    hide Operations;
    a, b, c, d := a0, b0, c0, d0;
    a := Step(0, a, b, c, d, inp[8], 0x698098d8, 7, r, inp, 8);
    d := Step(0, d, a, b, c, inp[9], 0x8b44f7af, 12, r, inp, 9);
    c := Step(0, c, d, a, b, inp[10], 0xffff5bb1, 17, r, inp, 10);
    b := Step(0, b, c, d, a, inp[11], 0x895cd7be, 22, r, inp, 11);
    a := Step(0, a, b, c, d, inp[12], 0x6b901122, 7, r, inp, 12);
    d := Step(0, d, a, b, c, inp[13], 0xfd987193, 12, r, inp, 13);
    c := Step(0, c, d, a, b, inp[14], 0xa679438e, 17, r, inp, 14);
    b := Step(0, b, c, d, a, inp[15], 0x49b40821, 22, r, inp, 15);
  }

  method Round2First(a0: bv32, b0: bv32, c0: bv32, d0: bv32, inp: seq<bv32>, ghost r: Regs)
    returns (a: bv32, b: bv32, c: bv32, d: bv32)
    requires |inp| == 16 && Operations(r, inp, 16) == Regs(a0, b0, c0, d0)
    ensures Operations(r, inp, 24) == Regs(a, b, c, d)
  {
    hide Operations;
    a, b, c, d := a0, b0, c0, d0;
    a := Step(1, a, b, c, d, inp[1], 0xf61e2562, 5, r, inp, 16);
    d := Step(1, d, a, b, c, inp[6], 0xc040b340, 9, r, inp, 17);
    c := Step(1, c, d, a, b, inp[11], 0x265e5a51, 14, r, inp, 18);
    b := Step(1, b, c, d, a, inp[0], 0xe9b6c7aa, 20, r, inp, 19);
    a := Step(1, a, b, c, d, inp[5], 0xd62f105d, 5, r, inp, 20);
    d := Step(1, d, a, b, c, inp[10], 0x02441453, 9, r, inp, 21);
    c := Step(1, c, d, a, b, inp[15], 0xd8a1e681, 14, r, inp, 22);
    b := Step(1, b, c, d, a, inp[4], 0xe7d3fbc8, 20, r, inp, 23);
  }

  method Round2Second(a0: bv32, b0: bv32, c0: bv32, d0: bv32, inp: seq<bv32>, ghost r: Regs)
    returns (a: bv32, b: bv32, c: bv32, d: bv32)
    requires |inp| == 16 && Operations(r, inp, 24) == Regs(a0, b0, c0, d0)
    ensures Operations(r, inp, 32) == Regs(a, b, c, d)
  {
    hide Operations;
    a, b, c, d := a0, b0, c0, d0;
    a := Step(1, a, b, c, d, inp[9], 0x21e1cde6, 5, r, inp, 24);
    d := Step(1, d, a, b, c, inp[14], 0xc33707d6, 9, r, inp, 25);
    c := Step(1, c, d, a, b, inp[3], 0xf4d50d87, 14, r, inp, 26);
    b := Step(1, b, c, d, a, inp[8], 0x455a14ed, 20, r, inp, 27);
    a := Step(1, a, b, c, d, inp[13], 0xa9e3e905, 5, r, inp, 28);
    d := Step(1, d, a, b, c, inp[2], 0xfcefa3f8, 9, r, inp, 29);
    c := Step(1, c, d, a, b, inp[7], 0x676f02d9, 14, r, inp, 30);
    b := Step(1, b, c, d, a, inp[12], 0x8d2a4c8a, 20, r, inp, 31);
  }

  method Round3First(a0: bv32, b0: bv32, c0: bv32, d0: bv32, inp: seq<bv32>, ghost r: Regs)
    returns (a: bv32, b: bv32, c: bv32, d: bv32)
    requires |inp| == 16 && Operations(r, inp, 32) == Regs(a0, b0, c0, d0)
    ensures Operations(r, inp, 40) == Regs(a, b, c, d)
  {
    hide Operations;
    a, b, c, d := a0, b0, c0, d0;
    a := Step(2, a, b, c, d, inp[5], 0xfffa3942, 4, r, inp, 32);
    d := Step(2, d, a, b, c, inp[8], 0x8771f681, 11, r, inp, 33);
    c := Step(2, c, d, a, b, inp[11], 0x6d9d6122, 16, r, inp, 34);
    b := Step(2, b, c, d, a, inp[14], 0xfde5380c, 23, r, inp, 35);
    a := Step(2, a, b, c, d, inp[1], 0xa4beea44, 4, r, inp, 36);
    d := Step(2, d, a, b, c, inp[4], 0x4bdecfa9, 11, r, inp, 37);
    c := Step(2, c, d, a, b, inp[7], 0xf6bb4b60, 16, r, inp, 38);
    b := Step(2, b, c, d, a, inp[10], 0xbebfbc70, 23, r, inp, 39);
  }

  method Round3Second(a0: bv32, b0: bv32, c0: bv32, d0: bv32, inp: seq<bv32>, ghost r: Regs)
    returns (a: bv32, b: bv32, c: bv32, d: bv32)
    requires |inp| == 16 && Operations(r, inp, 40) == Regs(a0, b0, c0, d0)
    ensures Operations(r, inp, 48) == Regs(a, b, c, d)
  {
    hide Operations;
    a, b, c, d := a0, b0, c0, d0;
    a := Step(2, a, b, c, d, inp[13], 0x289b7ec6, 4, r, inp, 40);
    d := Step(2, d, a, b, c, inp[0], 0xeaa127fa, 11, r, inp, 41);
    c := Step(2, c, d, a, b, inp[3], 0xd4ef3085, 16, r, inp, 42);
    b := Step(2, b, c, d, a, inp[6], 0x04881d05, 23, r, inp, 43);
    a := Step(2, a, b, c, d, inp[9], 0xd9d4d039, 4, r, inp, 44);
    d := Step(2, d, a, b, c, inp[12], 0xe6db99e5, 11, r, inp, 45);
    c := Step(2, c, d, a, b, inp[15], 0x1fa27cf8, 16, r, inp, 46);
    b := Step(2, b, c, d, a, inp[2], 0xc4ac5665, 23, r, inp, 47);
  }

  method Round4First(a0: bv32, b0: bv32, c0: bv32, d0: bv32, inp: seq<bv32>, ghost r: Regs)
    returns (a: bv32, b: bv32, c: bv32, d: bv32)
    requires |inp| == 16 && Operations(r, inp, 48) == Regs(a0, b0, c0, d0)
    ensures Operations(r, inp, 56) == Regs(a, b, c, d)
  {
    hide Operations;
    a, b, c, d := a0, b0, c0, d0;
    a := Step(3, a, b, c, d, inp[0], 0xf4292244, 6, r, inp, 48);
    d := Step(3, d, a, b, c, inp[7], 0x432aff97, 10, r, inp, 49);
    c := Step(3, c, d, a, b, inp[14], 0xab9423a7, 15, r, inp, 50);
    b := Step(3, b, c, d, a, inp[5], 0xfc93a039, 21, r, inp, 51);
    a := Step(3, a, b, c, d, inp[12], 0x655b59c3, 6, r, inp, 52);
    d := Step(3, d, a, b, c, inp[3], 0x8f0ccc92, 10, r, inp, 53);
    c := Step(3, c, d, a, b, inp[10], 0xffeff47d, 15, r, inp, 54);
    b := Step(3, b, c, d, a, inp[1], 0x85845dd1, 21, r, inp, 55);
  }

  method Round4Second(a0: bv32, b0: bv32, c0: bv32, d0: bv32, inp: seq<bv32>, ghost r: Regs)
    returns (a: bv32, b: bv32, c: bv32, d: bv32)
    requires |inp| == 16 && Operations(r, inp, 56) == Regs(a0, b0, c0, d0)
    ensures Operations(r, inp, 64) == Regs(a, b, c, d)
  {
    hide Operations;
    a, b, c, d := a0, b0, c0, d0;
    a := Step(3, a, b, c, d, inp[8], 0x6fa87e4f, 6, r, inp, 56);
    d := Step(3, d, a, b, c, inp[15], 0xfe2ce6e0, 10, r, inp, 57);
    c := Step(3, c, d, a, b, inp[6], 0xa3014314, 15, r, inp, 58);
    b := Step(3, b, c, d, a, inp[13], 0x4e0811a1, 21, r, inp, 59);
    a := Step(3, a, b, c, d, inp[4], 0xf7537e82, 6, r, inp, 60);
    d := Step(3, d, a, b, c, inp[11], 0xbd3af235, 10, r, inp, 61);
    c := Step(3, c, d, a, b, inp[2], 0x2ad7d2bb, 15, r, inp, 62);
    b := Step(3, b, c, d, a, inp[9], 0xeb86d391, 21, r, inp, 63);
  }

  method Transform(buf: array<bv32>, inp: seq<bv32>)
    requires buf.Length == 4 && |inp| == 16
    modifies buf
    ensures RegsOf(buf[..]) == Compress(RegsOf(old(buf[..])), inp)
  {
    hide Operation, Plus;
    ghost var r := RegsOf(buf[..]);
    var a, b, c, d := buf[0], buf[1], buf[2], buf[3];
    a, b, c, d := Round1First(a, b, c, d, inp, r);
    a, b, c, d := Round1Second(a, b, c, d, inp, r);
    a, b, c, d := Round2First(a, b, c, d, inp, r);
    a, b, c, d := Round2Second(a, b, c, d, inp, r);
    a, b, c, d := Round3First(a, b, c, d, inp, r);
    a, b, c, d := Round3Second(a, b, c, d, inp, r);
    a, b, c, d := Round4First(a, b, c, d, inp, r);
    a, b, c, d := Round4Second(a, b, c, d, inp, r);
    buf[0] := Plus(buf[0], a);
    buf[1] := Plus(buf[1], b);
    buf[2] := Plus(buf[2], c);
    buf[3] := Plus(buf[3], d);
  }

  function RegsOf(buf: seq<bv32>): Regs
    requires |buf| == 4
  {
    Regs(buf[0], buf[1], buf[2], buf[3])
  }
}
