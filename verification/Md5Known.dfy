/** A digest computed by the definition of RFC 1321: sixteen different words, and every shift, table entry and register, take
    part in it. */
module Md5Known {
  import opened Machine
  import opened Md5Spec

  /** The letters in upper and in lower case and the digits 0 to 2. */
  const MESSAGE: seq<byte> :=
    [0x41, 0x42, 0x43, 0x44, 0x45, 0x46, 0x47, 0x48, 0x49, 0x4a, 0x4b, 0x4c, 0x4d, 0x4e, 0x4f, 0x50] +
    [0x51, 0x52, 0x53, 0x54, 0x55, 0x56, 0x57, 0x58, 0x59, 0x5a, 0x61, 0x62, 0x63, 0x64, 0x65, 0x66] +
    [0x67, 0x68, 0x69, 0x6a, 0x6b, 0x6c, 0x6d, 0x6e, 0x6f, 0x70, 0x71, 0x72, 0x73, 0x74, 0x75, 0x76] +
    [0x77, 0x78, 0x79, 0x7a, 0x30, 0x31, 0x32]

  const WORDS: seq<bv32> := [0x44434241, 0x48474645, 0x4c4b4a49, 0x504f4e4d, 0x54535251, 0x58575655, 0x62615a59, 0x66656463,
                            0x6a696867, 0x6e6d6c6b, 0x7271706f, 0x76757473, 0x7a797877, 0x80323130, 0x000001b8, 0x00000000]

  /** Words of a block, one by one. */
  predicate Listed(x: seq<bv32>) {
    |x| == 16 && x[0] == 0x44434241 && x[1] == 0x48474645 && x[2] == 0x4c4b4a49 && x[3] == 0x504f4e4d
    && x[4] == 0x54535251 && x[5] == 0x58575655 && x[6] == 0x62615a59 && x[7] == 0x66656463
    && x[8] == 0x6a696867 && x[9] == 0x6e6d6c6b && x[10] == 0x7271706f && x[11] == 0x76757473
    && x[12] == 0x7a797877 && x[13] == 0x80323130 && x[14] == 0x000001b8 && x[15] == 0x00000000
  }

  // ----- one operation at a time -----

  lemma Next(r: Regs, x: seq<bv32>, n: nat, p: Regs, q: Regs)
    requires n < 64 && |x| == 16 && Operations(r, x, n) == p && Operation(n, p, x) == q
    ensures Operations(r, x, n + 1) == q
  {
  }

  lemma Evaluated(i: nat, a: bv32, b: bv32, c: bv32, d: bv32, x: seq<bv32>, f: bv32, sum: bv32, turned: bv32, e: bv32)
    requires i < 64 && |x| == 16 && f == Aux(i / 16, b, c, d)
    requires sum == Plus(Plus(Plus(a, f), x[WordIndex(i)]), Sine(i)) && turned == RotateLeft(sum, Shift(i)) && e == Plus(b, turned)
    ensures Operation(i, Regs(a, b, c, d), x) == Regs(d, e, b, c)
  {
    hide Aux, Plus, RotateLeft, Shift, Sine, WordIndex;
  }

  lemma Turned1(x: bv32)
    ensures RotateLeft(x, 7) == (x << 7) | (x >> 25)
    ensures RotateLeft(x, 12) == (x << 12) | (x >> 20)
    ensures RotateLeft(x, 17) == (x << 17) | (x >> 15)
    ensures RotateLeft(x, 22) == (x << 22) | (x >> 10)
  {
  }

  lemma Turned2(x: bv32)
    ensures RotateLeft(x, 5) == (x << 5) | (x >> 27)
    ensures RotateLeft(x, 9) == (x << 9) | (x >> 23)
    ensures RotateLeft(x, 14) == (x << 14) | (x >> 18)
    ensures RotateLeft(x, 20) == (x << 20) | (x >> 12)
  {
  }

  lemma Turned3(x: bv32)
    ensures RotateLeft(x, 4) == (x << 4) | (x >> 28)
    ensures RotateLeft(x, 11) == (x << 11) | (x >> 21)
    ensures RotateLeft(x, 16) == (x << 16) | (x >> 16)
    ensures RotateLeft(x, 23) == (x << 23) | (x >> 9)
  {
  }

  lemma Turned4(x: bv32)
    ensures RotateLeft(x, 6) == (x << 6) | (x >> 26)
    ensures RotateLeft(x, 10) == (x << 10) | (x >> 22)
    ensures RotateLeft(x, 15) == (x << 15) | (x >> 17)
    ensures RotateLeft(x, 21) == (x << 21) | (x >> 11)
  {
  }

  lemma Inputs0(x: seq<bv32>)
    requires Listed(x)
    ensures Sine(0) == 0xd76aa478 && Sine(1) == 0xe8c7b756 && Sine(2) == 0x242070db && Sine(3) == 0xc1bdceee
    ensures Sine(4) == 0xf57c0faf && Sine(5) == 0x4787c62a && Sine(6) == 0xa8304613 && Sine(7) == 0xfd469501
    ensures x[WordIndex(0)] == 0x44434241 && x[WordIndex(1)] == 0x48474645 && x[WordIndex(2)] == 0x4c4b4a49 && x[WordIndex(3)] == 0x504f4e4d
    ensures x[WordIndex(4)] == 0x54535251 && x[WordIndex(5)] == 0x58575655 && x[WordIndex(6)] == 0x62615a59 && x[WordIndex(7)] == 0x66656463
    ensures Shift(0) == 7 && Shift(1) == 12 && Shift(2) == 17 && Shift(3) == 22 && Shift(4) == 7 && Shift(5) == 12 && Shift(6) == 17 && Shift(7) == 22
  {
  }

  lemma Inputs8(x: seq<bv32>)
    requires Listed(x)
    ensures Sine(8) == 0x698098d8 && Sine(9) == 0x8b44f7af && Sine(10) == 0xffff5bb1 && Sine(11) == 0x895cd7be
    ensures Sine(12) == 0x6b901122 && Sine(13) == 0xfd987193 && Sine(14) == 0xa679438e && Sine(15) == 0x49b40821
    ensures x[WordIndex(8)] == 0x6a696867 && x[WordIndex(9)] == 0x6e6d6c6b && x[WordIndex(10)] == 0x7271706f && x[WordIndex(11)] == 0x76757473
    ensures x[WordIndex(12)] == 0x7a797877 && x[WordIndex(13)] == 0x80323130 && x[WordIndex(14)] == 0x000001b8 && x[WordIndex(15)] == 0x00000000
    ensures Shift(8) == 7 && Shift(9) == 12 && Shift(10) == 17 && Shift(11) == 22 && Shift(12) == 7 && Shift(13) == 12 && Shift(14) == 17 && Shift(15) == 22
  {
  }

  lemma Inputs16(x: seq<bv32>)
    requires Listed(x)
    ensures Sine(16) == 0xf61e2562 && Sine(17) == 0xc040b340 && Sine(18) == 0x265e5a51 && Sine(19) == 0xe9b6c7aa
    ensures Sine(20) == 0xd62f105d && Sine(21) == 0x02441453 && Sine(22) == 0xd8a1e681 && Sine(23) == 0xe7d3fbc8
    ensures x[WordIndex(16)] == 0x48474645 && x[WordIndex(17)] == 0x62615a59 && x[WordIndex(18)] == 0x76757473 && x[WordIndex(19)] == 0x44434241
    ensures x[WordIndex(20)] == 0x58575655 && x[WordIndex(21)] == 0x7271706f && x[WordIndex(22)] == 0x00000000 && x[WordIndex(23)] == 0x54535251
    ensures Shift(16) == 5 && Shift(17) == 9 && Shift(18) == 14 && Shift(19) == 20 && Shift(20) == 5 && Shift(21) == 9 && Shift(22) == 14 && Shift(23) == 20
  {
  }

  lemma Inputs24(x: seq<bv32>)
    requires Listed(x)
    ensures Sine(24) == 0x21e1cde6 && Sine(25) == 0xc33707d6 && Sine(26) == 0xf4d50d87 && Sine(27) == 0x455a14ed
    ensures Sine(28) == 0xa9e3e905 && Sine(29) == 0xfcefa3f8 && Sine(30) == 0x676f02d9 && Sine(31) == 0x8d2a4c8a
    ensures x[WordIndex(24)] == 0x6e6d6c6b && x[WordIndex(25)] == 0x000001b8 && x[WordIndex(26)] == 0x504f4e4d && x[WordIndex(27)] == 0x6a696867
    ensures x[WordIndex(28)] == 0x80323130 && x[WordIndex(29)] == 0x4c4b4a49 && x[WordIndex(30)] == 0x66656463 && x[WordIndex(31)] == 0x7a797877
    ensures Shift(24) == 5 && Shift(25) == 9 && Shift(26) == 14 && Shift(27) == 20 && Shift(28) == 5 && Shift(29) == 9 && Shift(30) == 14 && Shift(31) == 20
  {
  }

  lemma Inputs32(x: seq<bv32>)
    requires Listed(x)
    ensures Sine(32) == 0xfffa3942 && Sine(33) == 0x8771f681 && Sine(34) == 0x6d9d6122 && Sine(35) == 0xfde5380c
    ensures Sine(36) == 0xa4beea44 && Sine(37) == 0x4bdecfa9 && Sine(38) == 0xf6bb4b60 && Sine(39) == 0xbebfbc70
    ensures x[WordIndex(32)] == 0x58575655 && x[WordIndex(33)] == 0x6a696867 && x[WordIndex(34)] == 0x76757473 && x[WordIndex(35)] == 0x000001b8
    ensures x[WordIndex(36)] == 0x48474645 && x[WordIndex(37)] == 0x54535251 && x[WordIndex(38)] == 0x66656463 && x[WordIndex(39)] == 0x7271706f
    ensures Shift(32) == 4 && Shift(33) == 11 && Shift(34) == 16 && Shift(35) == 23 && Shift(36) == 4 && Shift(37) == 11 && Shift(38) == 16 && Shift(39) == 23
  {
  }

  lemma Inputs40(x: seq<bv32>)
    requires Listed(x)
    ensures Sine(40) == 0x289b7ec6 && Sine(41) == 0xeaa127fa && Sine(42) == 0xd4ef3085 && Sine(43) == 0x04881d05
    ensures Sine(44) == 0xd9d4d039 && Sine(45) == 0xe6db99e5 && Sine(46) == 0x1fa27cf8 && Sine(47) == 0xc4ac5665
    ensures x[WordIndex(40)] == 0x80323130 && x[WordIndex(41)] == 0x44434241 && x[WordIndex(42)] == 0x504f4e4d && x[WordIndex(43)] == 0x62615a59
    ensures x[WordIndex(44)] == 0x6e6d6c6b && x[WordIndex(45)] == 0x7a797877 && x[WordIndex(46)] == 0x00000000 && x[WordIndex(47)] == 0x4c4b4a49
    ensures Shift(40) == 4 && Shift(41) == 11 && Shift(42) == 16 && Shift(43) == 23 && Shift(44) == 4 && Shift(45) == 11 && Shift(46) == 16 && Shift(47) == 23
  {
  }

  lemma Inputs48(x: seq<bv32>)
    requires Listed(x)
    ensures Sine(48) == 0xf4292244 && Sine(49) == 0x432aff97 && Sine(50) == 0xab9423a7 && Sine(51) == 0xfc93a039
    ensures Sine(52) == 0x655b59c3 && Sine(53) == 0x8f0ccc92 && Sine(54) == 0xffeff47d && Sine(55) == 0x85845dd1
    ensures x[WordIndex(48)] == 0x44434241 && x[WordIndex(49)] == 0x66656463 && x[WordIndex(50)] == 0x000001b8 && x[WordIndex(51)] == 0x58575655
    ensures x[WordIndex(52)] == 0x7a797877 && x[WordIndex(53)] == 0x504f4e4d && x[WordIndex(54)] == 0x7271706f && x[WordIndex(55)] == 0x48474645
    ensures Shift(48) == 6 && Shift(49) == 10 && Shift(50) == 15 && Shift(51) == 21 && Shift(52) == 6 && Shift(53) == 10 && Shift(54) == 15 && Shift(55) == 21
  {
  }

  lemma Inputs56(x: seq<bv32>)
    requires Listed(x)
    ensures Sine(56) == 0x6fa87e4f && Sine(57) == 0xfe2ce6e0 && Sine(58) == 0xa3014314 && Sine(59) == 0x4e0811a1
    ensures Sine(60) == 0xf7537e82 && Sine(61) == 0xbd3af235 && Sine(62) == 0x2ad7d2bb && Sine(63) == 0xeb86d391
    ensures x[WordIndex(56)] == 0x6a696867 && x[WordIndex(57)] == 0x00000000 && x[WordIndex(58)] == 0x62615a59 && x[WordIndex(59)] == 0x80323130
    ensures x[WordIndex(60)] == 0x54535251 && x[WordIndex(61)] == 0x76757473 && x[WordIndex(62)] == 0x4c4b4a49 && x[WordIndex(63)] == 0x6e6d6c6b
    ensures Shift(56) == 6 && Shift(57) == 10 && Shift(58) == 15 && Shift(59) == 21 && Shift(60) == 6 && Shift(61) == 10 && Shift(62) == 15 && Shift(63) == 21
  {
  }

  lemma From0(x: seq<bv32>)
    requires Listed(x) && Operations(INITIAL, x, 0) == Regs(0x67452301, 0xefcdab89, 0x98badcfe, 0x10325476)
    ensures Operations(INITIAL, x, 2) == Regs(0x98badcfe, 0x99a09999, 0xc6c10796, 0xefcdab89)
  {
    Inputs0(x);
    hide Listed, Sine, RotateLeft, Operation, Operations, WordIndex, Shift;
    Turned1(0x1bade6b8);
    Evaluated(0, 0x67452301, 0xefcdab89, 0x98badcfe, 0x10325476, x, 0x98badcfe, 0x1bade6b8, 0xd6f35c0d, 0xc6c10796);
    Next(INITIAL, x, 0, Regs(0x67452301, 0xefcdab89, 0x98badcfe, 0x10325476), Regs(0x10325476, 0xc6c10796, 0xefcdab89, 0x98badcfe));
    Turned1(0x203d2df9);
    Evaluated(1, 0x10325476, 0xc6c10796, 0xefcdab89, 0x98badcfe, x, 0xdefbdbe8, 0x203d2df9, 0xd2df9203, 0x99a09999);
    Next(INITIAL, x, 1, Regs(0x10325476, 0xc6c10796, 0xefcdab89, 0x98badcfe), Regs(0x98badcfe, 0x99a09999, 0xc6c10796, 0xefcdab89));
  }

  lemma From2(x: seq<bv32>)
    requires Listed(x) && Operations(INITIAL, x, 2) == Regs(0x98badcfe, 0x99a09999, 0xc6c10796, 0xefcdab89)
    ensures Operations(INITIAL, x, 4) == Regs(0xc6c10796, 0x27bce07a, 0x11067980, 0x99a09999)
  {
    Inputs0(x);
    hide Listed, Sine, RotateLeft, Operation, Operations, WordIndex, Shift;
    Turned1(0xeff3bbb2);
    Evaluated(2, 0x98badcfe, 0x99a09999, 0xc6c10796, 0xefcdab89, x, 0xe6cd2390, 0xeff3bbb2, 0x7765dfe7, 0x11067980);
    Next(INITIAL, x, 2, Regs(0x98badcfe, 0x99a09999, 0xc6c10796, 0xefcdab89), Regs(0xefcdab89, 0x11067980, 0x99a09999, 0xc6c10796));
    Turned1(0xd99be85a);
    Evaluated(3, 0xefcdab89, 0x11067980, 0x99a09999, 0xc6c10796, x, 0xd7c11f96, 0xd99be85a, 0x16b666fa, 0x27bce07a);
    Next(INITIAL, x, 3, Regs(0xefcdab89, 0x11067980, 0x99a09999, 0xc6c10796), Regs(0xc6c10796, 0x27bce07a, 0x11067980, 0x99a09999));
  }

  lemma From4(x: seq<bv32>)
    requires Listed(x) && Operations(INITIAL, x, 4) == Regs(0xc6c10796, 0x27bce07a, 0x11067980, 0x99a09999)
    ensures Operations(INITIAL, x, 6) == Regs(0x11067980, 0xb4ac9218, 0xf22e6c4e, 0x27bce07a)
  {
    Inputs0(x);
    hide Listed, Sine, RotateLeft, Operation, Operations, WordIndex, Shift;
    Turned1(0xa994e317);
    Evaluated(4, 0xc6c10796, 0x27bce07a, 0x11067980, 0x99a09999, x, 0x99047981, 0xa994e317, 0xca718bd4, 0xf22e6c4e);
    Next(INITIAL, x, 4, Regs(0xc6c10796, 0x27bce07a, 0x11067980, 0x99a09999), Regs(0x99a09999, 0xf22e6c4e, 0x27bce07a, 0x11067980));
    Turned1(0x5cac27e2);
    Evaluated(5, 0x99a09999, 0xf22e6c4e, 0x27bce07a, 0x11067980, x, 0x232c71ca, 0x5cac27e2, 0xc27e25ca, 0xb4ac9218);
    Next(INITIAL, x, 5, Regs(0x99a09999, 0xf22e6c4e, 0x27bce07a, 0x11067980), Regs(0x11067980, 0xb4ac9218, 0xf22e6c4e, 0x27bce07a));
  }

  lemma From6(x: seq<bv32>)
    requires Listed(x) && Operations(INITIAL, x, 6) == Regs(0x11067980, 0xb4ac9218, 0xf22e6c4e, 0x27bce07a)
    ensures Operations(INITIAL, x, 8) == Regs(0xf22e6c4e, 0xa4799506, 0xa95a2fc0, 0xb4ac9218)
  {
    Inputs0(x);
    hide Listed, Sine, RotateLeft, Operation, Operations, WordIndex, Shift;
    Turned1(0xced47a56);
    Evaluated(6, 0x11067980, 0xb4ac9218, 0xf22e6c4e, 0x27bce07a, x, 0xb33c606a, 0xced47a56, 0xf4ad9da8, 0xa95a2fc0);
    Next(INITIAL, x, 6, Regs(0x11067980, 0xb4ac9218, 0xf22e6c4e, 0x27bce07a), Regs(0x27bce07a, 0xa95a2fc0, 0xb4ac9218, 0xf22e6c4e));
    Turned1(0x7d951bec);
    Evaluated(7, 0x27bce07a, 0xa95a2fc0, 0xb4ac9218, 0xf22e6c4e, x, 0xf22c420e, 0x7d951bec, 0xfb1f6546, 0xa4799506);
    Next(INITIAL, x, 7, Regs(0x27bce07a, 0xa95a2fc0, 0xb4ac9218, 0xf22e6c4e), Regs(0xf22e6c4e, 0xa4799506, 0xa95a2fc0, 0xb4ac9218));
  }

  lemma From8(x: seq<bv32>)
    requires Listed(x) && Operations(INITIAL, x, 8) == Regs(0xf22e6c4e, 0xa4799506, 0xa95a2fc0, 0xb4ac9218)
    ensures Operations(INITIAL, x, 10) == Regs(0xa95a2fc0, 0xa6e70cfe, 0x1eb3e7c1, 0xa4799506)
  {
    Inputs8(x);
    hide Listed, Sine, RotateLeft, Operation, Operations, WordIndex, Shift;
    Turned1(0x76f474a5);
    Evaluated(8, 0xf22e6c4e, 0xa4799506, 0xa95a2fc0, 0xb4ac9218, x, 0xb0dc0718, 0x76f474a5, 0x7a3a52bb, 0x1eb3e7c1);
    Next(INITIAL, x, 8, Regs(0xf22e6c4e, 0xa4799506, 0xa95a2fc0, 0xb4ac9218), Regs(0xb4ac9218, 0x1eb3e7c1, 0xa4799506, 0xa95a2fc0));
    Turned1(0x53d88332);
    Evaluated(9, 0xb4ac9218, 0x1eb3e7c1, 0xa4799506, 0xa95a2fc0, x, 0xa5798d00, 0x53d88332, 0x8833253d, 0xa6e70cfe);
    Next(INITIAL, x, 9, Regs(0xb4ac9218, 0x1eb3e7c1, 0xa4799506, 0xa95a2fc0), Regs(0xa95a2fc0, 0xa6e70cfe, 0x1eb3e7c1, 0xa4799506));
  }

  lemma From10(x: seq<bv32>)
    requires Listed(x) && Operations(INITIAL, x, 10) == Regs(0xa95a2fc0, 0xa6e70cfe, 0x1eb3e7c1, 0xa4799506)
    ensures Operations(INITIAL, x, 12) == Regs(0x1eb3e7c1, 0x8a7612ec, 0xca27520b, 0xa6e70cfe)
  {
    Inputs8(x);
    hide Listed, Sine, RotateLeft, Operation, Operations, WordIndex, Shift;
    Turned1(0x228691a0);
    Evaluated(10, 0xa95a2fc0, 0xa6e70cfe, 0x1eb3e7c1, 0xa4799506, x, 0x06bb95c0, 0x228691a0, 0x2340450d, 0xca27520b);
    Next(INITIAL, x, 10, Regs(0xa95a2fc0, 0xa6e70cfe, 0x1eb3e7c1, 0xa4799506), Regs(0xa4799506, 0xca27520b, 0xa6e70cfe, 0x1eb3e7c1));
    Turned1(0x3b038701);
    Evaluated(11, 0xa4799506, 0xca27520b, 0xa6e70cfe, 0x1eb3e7c1, x, 0x96b7a5ca, 0x3b038701, 0xc04ec0e1, 0x8a7612ec);
    Next(INITIAL, x, 11, Regs(0xa4799506, 0xca27520b, 0xa6e70cfe, 0x1eb3e7c1), Regs(0x1eb3e7c1, 0x8a7612ec, 0xca27520b, 0xa6e70cfe));
  }

  lemma From12(x: seq<bv32>)
    requires Listed(x) && Operations(INITIAL, x, 12) == Regs(0x1eb3e7c1, 0x8a7612ec, 0xca27520b, 0xa6e70cfe)
    ensures Operations(INITIAL, x, 14) == Regs(0xca27520b, 0xb8decc33, 0x3cbdcd45, 0x8a7612ec)
  {
    Inputs8(x);
    hide Listed, Sine, RotateLeft, Operation, Operations, WordIndex, Shift;
    Turned1(0xb3648f74);
    Evaluated(12, 0x1eb3e7c1, 0x8a7612ec, 0xca27520b, 0xa6e70cfe, x, 0xaea71e1a, 0xb3648f74, 0xb247ba59, 0x3cbdcd45);
    Next(INITIAL, x, 12, Regs(0x1eb3e7c1, 0x8a7612ec, 0xca27520b, 0xa6e70cfe), Regs(0xa6e70cfe, 0x3cbdcd45, 0x8a7612ec, 0xca27520b));
    Turned1(0xeee7c20f);
    Evaluated(13, 0xa6e70cfe, 0x3cbdcd45, 0x8a7612ec, 0xca27520b, x, 0xca36124e, 0xeee7c20f, 0x7c20feee, 0xb8decc33);
    Next(INITIAL, x, 13, Regs(0xa6e70cfe, 0x3cbdcd45, 0x8a7612ec, 0xca27520b), Regs(0xca27520b, 0xb8decc33, 0x3cbdcd45, 0x8a7612ec));
  }

  lemma From14(x: seq<bv32>)
    requires Listed(x) && Operations(INITIAL, x, 14) == Regs(0xca27520b, 0xb8decc33, 0x3cbdcd45, 0x8a7612ec)
    ensures Operations(INITIAL, x, 16) == Regs(0x3cbdcd45, 0xb0bf5ce7, 0xa51c22ed, 0xb8decc33)
  {
    Inputs8(x);
    hide Listed, Sine, RotateLeft, Operation, Operations, WordIndex, Shift;
    Turned1(0xab5d761e);
    Evaluated(14, 0xca27520b, 0xb8decc33, 0x3cbdcd45, 0x8a7612ec, x, 0x3abcdecd, 0xab5d761e, 0xec3d56ba, 0xa51c22ed);
    Next(INITIAL, x, 14, Regs(0xca27520b, 0xb8decc33, 0x3cbdcd45, 0x8a7612ec), Regs(0x8a7612ec, 0xa51c22ed, 0xb8decc33, 0x3cbdcd45));
    Turned1(0x8ce7e82e);
    Evaluated(15, 0x8a7612ec, 0xa51c22ed, 0xb8decc33, 0x3cbdcd45, x, 0xb8bdcd21, 0x8ce7e82e, 0x0ba339fa, 0xb0bf5ce7);
    Next(INITIAL, x, 15, Regs(0x8a7612ec, 0xa51c22ed, 0xb8decc33, 0x3cbdcd45), Regs(0x3cbdcd45, 0xb0bf5ce7, 0xa51c22ed, 0xb8decc33));
  }

  lemma From16(x: seq<bv32>)
    requires Listed(x) && Operations(INITIAL, x, 16) == Regs(0x3cbdcd45, 0xb0bf5ce7, 0xa51c22ed, 0xb8decc33)
    ensures Operations(INITIAL, x, 18) == Regs(0xa51c22ed, 0x39608f25, 0xc8f4584d, 0xb0bf5ce7)
  {
    Inputs16(x);
    hide Listed, Sine, RotateLeft, Operation, Operations, WordIndex, Shift;
    Turned2(0x30c1a7db);
    Evaluated(16, 0x3cbdcd45, 0xb0bf5ce7, 0xa51c22ed, 0xb8decc33, x, 0xb59e6eef, 0x30c1a7db, 0x1834fb66, 0xc8f4584d);
    Next(INITIAL, x, 16, Regs(0x3cbdcd45, 0xb0bf5ce7, 0xa51c22ed, 0xb8decc33), Regs(0xb8decc33, 0xc8f4584d, 0xb0bf5ce7, 0xa51c22ed));
    Turned2(0x6c38361b);
    Evaluated(17, 0xb8decc33, 0xc8f4584d, 0xb0bf5ce7, 0xa51c22ed, x, 0x90b75c4f, 0x6c38361b, 0x706c36d8, 0x39608f25);
    Next(INITIAL, x, 17, Regs(0xb8decc33, 0xc8f4584d, 0xb0bf5ce7, 0xa51c22ed), Regs(0xa51c22ed, 0x39608f25, 0xc8f4584d, 0xb0bf5ce7));
  }

  lemma From18(x: seq<bv32>)
    requires Listed(x) && Operations(INITIAL, x, 18) == Regs(0xa51c22ed, 0x39608f25, 0xc8f4584d, 0xb0bf5ce7)
    ensures Operations(INITIAL, x, 20) == Regs(0xc8f4584d, 0x9879c658, 0x38d83db8, 0x39608f25)
  {
    Inputs16(x);
    hide Listed, Sine, RotateLeft, Operation, Operations, WordIndex, Shift;
    Turned2(0xba4ffdde);
    Evaluated(18, 0xa51c22ed, 0x39608f25, 0xc8f4584d, 0xb0bf5ce7, x, 0x78600c2d, 0xba4ffdde, 0xff77ae93, 0x38d83db8);
    Next(INITIAL, x, 18, Regs(0xa51c22ed, 0x39608f25, 0xc8f4584d, 0xb0bf5ce7), Regs(0xb0bf5ce7, 0x38d83db8, 0x39608f25, 0xc8f4584d));
    Turned2(0x188a05fa);
    Evaluated(19, 0xb0bf5ce7, 0x38d83db8, 0x39608f25, 0xc8f4584d, x, 0x39d09f28, 0x188a05fa, 0x5fa188a0, 0x9879c658);
    Next(INITIAL, x, 19, Regs(0xb0bf5ce7, 0x38d83db8, 0x39608f25, 0xc8f4584d), Regs(0xc8f4584d, 0x9879c658, 0x38d83db8, 0x39608f25));
  }

  lemma From20(x: seq<bv32>)
    requires Listed(x) && Operations(INITIAL, x, 20) == Regs(0xc8f4584d, 0x9879c658, 0x38d83db8, 0x39608f25)
    ensures Operations(INITIAL, x, 22) == Regs(0x38d83db8, 0xa70737d8, 0xa6e8793a, 0x9879c658)
  {
    Inputs16(x);
    hide Listed, Sine, RotateLeft, Operation, Operations, WordIndex, Shift;
    Turned2(0x10737597);
    Evaluated(20, 0xc8f4584d, 0x9879c658, 0x38d83db8, 0x39608f25, x, 0x18f8b698, 0x10737597, 0x0e6eb2e2, 0xa6e8793a);
    Next(INITIAL, x, 20, Regs(0xc8f4584d, 0x9879c658, 0x38d83db8, 0x39608f25), Regs(0x39608f25, 0xa6e8793a, 0x9879c658, 0x38d83db8));
    Turned2(0x4f000f5f);
    Evaluated(21, 0x39608f25, 0xa6e8793a, 0x9879c658, 0x38d83db8, x, 0xa0e9fb78, 0x4f000f5f, 0x001ebe9e, 0xa70737d8);
    Next(INITIAL, x, 21, Regs(0x39608f25, 0xa6e8793a, 0x9879c658, 0x38d83db8), Regs(0x38d83db8, 0xa70737d8, 0xa6e8793a, 0x9879c658));
  }

  lemma From22(x: seq<bv32>)
    requires Listed(x) && Operations(INITIAL, x, 22) == Regs(0x38d83db8, 0xa70737d8, 0xa6e8793a, 0x9879c658)
    ensures Operations(INITIAL, x, 24) == Regs(0xa6e8793a, 0x4433ee59, 0x7ff425d6, 0xa70737d8)
  {
    Inputs16(x);
    hide Listed, Sine, RotateLeft, Operation, Operations, WordIndex, Shift;
    Turned2(0xb7fb63b3);
    Evaluated(22, 0x38d83db8, 0xa70737d8, 0xa6e8793a, 0x9879c658, x, 0xa6813f7a, 0xb7fb63b3, 0xd8ecedfe, 0x7ff425d6);
    Next(INITIAL, x, 22, Regs(0x38d83db8, 0xa70737d8, 0xa6e8793a, 0x9879c658), Regs(0x9879c658, 0x7ff425d6, 0xa70737d8, 0xa6e8793a));
    Turned2(0xfc883c43);
    Evaluated(23, 0x9879c658, 0x7ff425d6, 0xa70737d8, 0xa6e8793a, x, 0x27e727d2, 0xfc883c43, 0xc43fc883, 0x4433ee59);
    Next(INITIAL, x, 23, Regs(0x9879c658, 0x7ff425d6, 0xa70737d8, 0xa6e8793a), Regs(0xa6e8793a, 0x4433ee59, 0x7ff425d6, 0xa70737d8));
  }

  lemma From24(x: seq<bv32>)
    requires Listed(x) && Operations(INITIAL, x, 24) == Regs(0xa6e8793a, 0x4433ee59, 0x7ff425d6, 0xa70737d8)
    ensures Operations(INITIAL, x, 26) == Regs(0x7ff425d6, 0x55e90ef2, 0xc98f2b8b, 0x4433ee59)
  {
    Inputs24(x);
    hide Listed, Sine, RotateLeft, Operation, Operations, WordIndex, Shift;
    Turned2(0x942ad9e9);
    Evaluated(24, 0xa6e8793a, 0x4433ee59, 0x7ff425d6, 0xa70737d8, x, 0x5cf3265e, 0x942ad9e9, 0x855b3d32, 0xc98f2b8b);
    Next(INITIAL, x, 24, Regs(0xa6e8793a, 0x4433ee59, 0x7ff425d6, 0xa70737d8), Regs(0xa70737d8, 0xc98f2b8b, 0x4433ee59, 0x7ff425d6));
    Turned2(0xb3c62cf1);
    Evaluated(25, 0xa70737d8, 0xc98f2b8b, 0x4433ee59, 0x7ff425d6, x, 0x4987eb8b, 0xb3c62cf1, 0x8c59e367, 0x55e90ef2);
    Next(INITIAL, x, 25, Regs(0xa70737d8, 0xc98f2b8b, 0x4433ee59, 0x7ff425d6), Regs(0x7ff425d6, 0x55e90ef2, 0xc98f2b8b, 0x4433ee59));
  }

  lemma From26(x: seq<bv32>)
    requires Listed(x) && Operations(INITIAL, x, 26) == Regs(0x7ff425d6, 0x55e90ef2, 0xc98f2b8b, 0x4433ee59)
    ensures Operations(INITIAL, x, 28) == Regs(0xc98f2b8b, 0xf451399c, 0xba4833a3, 0x55e90ef2)
  {
    Inputs24(x);
    hide Listed, Sine, RotateLeft, Operation, Operations, WordIndex, Shift;
    Turned2(0x92c5917c);
    Evaluated(26, 0x7ff425d6, 0x55e90ef2, 0xc98f2b8b, 0x4433ee59, x, 0xcdad0fd2, 0x92c5917c, 0x645f24b1, 0xba4833a3);
    Next(INITIAL, x, 26, Regs(0x7ff425d6, 0x55e90ef2, 0xc98f2b8b, 0x4433ee59), Regs(0x4433ee59, 0xba4833a3, 0x55e90ef2, 0xc98f2b8b));
    Turned2(0x905f93a0);
    Evaluated(27, 0x4433ee59, 0xba4833a3, 0x55e90ef2, 0xc98f2b8b, x, 0x9c6827f3, 0x905f93a0, 0x3a0905f9, 0xf451399c);
    Next(INITIAL, x, 27, Regs(0x4433ee59, 0xba4833a3, 0x55e90ef2, 0xc98f2b8b), Regs(0xc98f2b8b, 0xf451399c, 0xba4833a3, 0x55e90ef2));
  }

  lemma From28(x: seq<bv32>)
    requires Listed(x) && Operations(INITIAL, x, 28) == Regs(0xc98f2b8b, 0xf451399c, 0xba4833a3, 0x55e90ef2)
    ensures Operations(INITIAL, x, 30) == Regs(0xba4833a3, 0x9b72c600, 0x312123da, 0xf451399c)
  {
    Inputs24(x);
    hide Listed, Sine, RotateLeft, Operation, Operations, WordIndex, Shift;
    Turned2(0xf1e67f51);
    Evaluated(28, 0xc98f2b8b, 0xf451399c, 0xba4833a3, 0x55e90ef2, x, 0xfe413991, 0xf1e67f51, 0x3ccfea3e, 0x312123da);
    Next(INITIAL, x, 28, Regs(0xc98f2b8b, 0xf451399c, 0xba4833a3, 0x55e90ef2), Regs(0x55e90ef2, 0x312123da, 0xf451399c, 0xba4833a3));
    Turned2(0x133528d1);
    Evaluated(29, 0x55e90ef2, 0x312123da, 0xf451399c, 0xba4833a3, x, 0x74112b9e, 0x133528d1, 0x6a51a226, 0x9b72c600);
    Next(INITIAL, x, 29, Regs(0x55e90ef2, 0x312123da, 0xf451399c, 0xba4833a3), Regs(0xba4833a3, 0x9b72c600, 0x312123da, 0xf451399c));
  }

  lemma From30(x: seq<bv32>)
    requires Listed(x) && Operations(INITIAL, x, 30) == Regs(0xba4833a3, 0x9b72c600, 0x312123da, 0xf451399c)
    ensures Operations(INITIAL, x, 32) == Regs(0x312123da, 0xf0b372ef, 0xc2bb0c63, 0x9b72c600)
  {
    Inputs24(x);
    hide Listed, Sine, RotateLeft, Operation, Operations, WordIndex, Shift;
    Turned2(0x198c9d21);
    Evaluated(30, 0xba4833a3, 0x9b72c600, 0x312123da, 0xf451399c, x, 0x91700242, 0x198c9d21, 0x27484663, 0xc2bb0c63);
    Next(INITIAL, x, 30, Regs(0xba4833a3, 0x9b72c600, 0x312123da, 0xf451399c), Regs(0xf451399c, 0xc2bb0c63, 0x9b72c600, 0x312123da));
    Turned2(0x8668c2df);
    Evaluated(31, 0xf451399c, 0xc2bb0c63, 0x9b72c600, 0x312123da, x, 0x8a73c442, 0x8668c2df, 0x2df8668c, 0xf0b372ef);
    Next(INITIAL, x, 31, Regs(0xf451399c, 0xc2bb0c63, 0x9b72c600, 0x312123da), Regs(0x312123da, 0xf0b372ef, 0xc2bb0c63, 0x9b72c600));
  }

  lemma From32(x: seq<bv32>)
    requires Listed(x) && Operations(INITIAL, x, 32) == Regs(0x312123da, 0xf0b372ef, 0xc2bb0c63, 0x9b72c600)
    ensures Operations(INITIAL, x, 34) == Regs(0xc2bb0c63, 0xa313e898, 0x1f8a32c2, 0xf0b372ef)
  {
    Inputs32(x);
    hide Listed, Sine, RotateLeft, Operation, Operations, WordIndex, Shift;
    Turned3(0x32ed6bfd);
    Evaluated(32, 0x312123da, 0xf0b372ef, 0xc2bb0c63, 0x9b72c600, x, 0xa97ab88c, 0x32ed6bfd, 0x2ed6bfd3, 0x1f8a32c2);
    Next(INITIAL, x, 32, Regs(0x312123da, 0xf0b372ef, 0xc2bb0c63, 0x9b72c600), Regs(0x9b72c600, 0x1f8a32c2, 0xf0b372ef, 0xc2bb0c63));
    Turned3(0xbad07136);
    Evaluated(33, 0x9b72c600, 0x1f8a32c2, 0xf0b372ef, 0xc2bb0c63, x, 0x2d824c4e, 0xbad07136, 0x8389b5d6, 0xa313e898);
    Next(INITIAL, x, 33, Regs(0x9b72c600, 0x1f8a32c2, 0xf0b372ef, 0xc2bb0c63), Regs(0xc2bb0c63, 0xa313e898, 0x1f8a32c2, 0xf0b372ef));
  }

  lemma From34(x: seq<bv32>)
    requires Listed(x) && Operations(INITIAL, x, 34) == Regs(0xc2bb0c63, 0xa313e898, 0x1f8a32c2, 0xf0b372ef)
    ensures Operations(INITIAL, x, 36) == Regs(0x1f8a32c2, 0x6c81d3e7, 0x2dc1db90, 0xa313e898)
  {
    Inputs32(x);
    hide Listed, Sine, RotateLeft, Operation, Operations, WordIndex, Shift;
    Turned3(0xf2f88aad);
    Evaluated(34, 0xc2bb0c63, 0xa313e898, 0x1f8a32c2, 0xf0b372ef, x, 0x4c2aa8b5, 0xf2f88aad, 0x8aadf2f8, 0x2dc1db90);
    Next(INITIAL, x, 34, Regs(0xc2bb0c63, 0xa313e898, 0x1f8a32c2, 0xf0b372ef), Regs(0xf0b372ef, 0x2dc1db90, 0xa313e898, 0x1f8a32c2));
    Turned3(0x7ff0ae7d);
    Evaluated(35, 0xf0b372ef, 0x2dc1db90, 0xa313e898, 0x1f8a32c2, x, 0x915801ca, 0x7ff0ae7d, 0x3ebff857, 0x6c81d3e7);
    Next(INITIAL, x, 35, Regs(0xf0b372ef, 0x2dc1db90, 0xa313e898, 0x1f8a32c2), Regs(0x1f8a32c2, 0x6c81d3e7, 0x2dc1db90, 0xa313e898));
  }

  lemma From36(x: seq<bv32>)
    requires Listed(x) && Operations(INITIAL, x, 36) == Regs(0x1f8a32c2, 0x6c81d3e7, 0x2dc1db90, 0xa313e898)
    ensures Operations(INITIAL, x, 38) == Regs(0x2dc1db90, 0xbc19ba8b, 0x5ac61795, 0x6c81d3e7)
  {
    Inputs32(x);
    hide Listed, Sine, RotateLeft, Operation, Operations, WordIndex, Shift;
    Turned3(0xeee4443a);
    Evaluated(36, 0x1f8a32c2, 0x6c81d3e7, 0x2dc1db90, 0xa313e898, x, 0xe253e0ef, 0xeee4443a, 0xee4443ae, 0x5ac61795);
    Next(INITIAL, x, 36, Regs(0x1f8a32c2, 0x6c81d3e7, 0x2dc1db90, 0xa313e898), Regs(0xa313e898, 0x5ac61795, 0x6c81d3e7, 0x2dc1db90));
    Turned3(0x5ecc2a74);
    Evaluated(37, 0xa313e898, 0x5ac61795, 0x6c81d3e7, 0x2dc1db90, x, 0x1b861fe2, 0x5ecc2a74, 0x6153a2f6, 0xbc19ba8b);
    Next(INITIAL, x, 37, Regs(0xa313e898, 0x5ac61795, 0x6c81d3e7, 0x2dc1db90), Regs(0x2dc1db90, 0xbc19ba8b, 0x5ac61795, 0x6c81d3e7));
  }

  lemma From38(x: seq<bv32>)
    requires Listed(x) && Operations(INITIAL, x, 38) == Regs(0x2dc1db90, 0xbc19ba8b, 0x5ac61795, 0x6c81d3e7)
    ensures Operations(INITIAL, x, 40) == Regs(0x5ac61795, 0x92c5067d, 0xc665cfcc, 0xbc19ba8b)
  {
    Inputs32(x);
    hide Listed, Sine, RotateLeft, Operation, Operations, WordIndex, Shift;
    Turned3(0x15410a4c);
    Evaluated(38, 0x2dc1db90, 0xbc19ba8b, 0x5ac61795, 0x6c81d3e7, x, 0x8a5e7ef9, 0x15410a4c, 0x0a4c1541, 0xc665cfcc);
    Next(INITIAL, x, 38, Regs(0x2dc1db90, 0xbc19ba8b, 0x5ac61795, 0x6c81d3e7), Regs(0x6c81d3e7, 0xc665cfcc, 0xbc19ba8b, 0x5ac61795));
    Turned3(0xbe6d6398);
    Evaluated(39, 0x6c81d3e7, 0xc665cfcc, 0xbc19ba8b, 0x5ac61795, x, 0x20ba62d2, 0xbe6d6398, 0xcc5f36b1, 0x92c5067d);
    Next(INITIAL, x, 39, Regs(0x6c81d3e7, 0xc665cfcc, 0xbc19ba8b, 0x5ac61795), Regs(0x5ac61795, 0x92c5067d, 0xc665cfcc, 0xbc19ba8b));
  }

  lemma From40(x: seq<bv32>)
    requires Listed(x) && Operations(INITIAL, x, 40) == Regs(0x5ac61795, 0x92c5067d, 0xc665cfcc, 0xbc19ba8b)
    ensures Operations(INITIAL, x, 42) == Regs(0xc665cfcc, 0x0c9a3a4c, 0x5798b2db, 0x92c5067d)
  {
    Inputs40(x);
    hide Listed, Sine, RotateLeft, Operation, Operations, WordIndex, Shift;
    Turned3(0xec4d3ac5);
    Evaluated(40, 0x5ac61795, 0x92c5067d, 0xc665cfcc, 0xbc19ba8b, x, 0xe8b9733a, 0xec4d3ac5, 0xc4d3ac5e, 0x5798b2db);
    Next(INITIAL, x, 40, Regs(0x5ac61795, 0x92c5067d, 0xc665cfcc, 0xbc19ba8b), Regs(0xbc19ba8b, 0x5798b2db, 0x92c5067d, 0xc665cfcc));
    Turned3(0xee36a030);
    Evaluated(41, 0xbc19ba8b, 0x5798b2db, 0x92c5067d, 0xc665cfcc, x, 0x03387b6a, 0xee36a030, 0xb5018771, 0x0c9a3a4c);
    Next(INITIAL, x, 41, Regs(0xbc19ba8b, 0x5798b2db, 0x92c5067d, 0xc665cfcc), Regs(0xc665cfcc, 0x0c9a3a4c, 0x5798b2db, 0x92c5067d));
  }

  lemma From42(x: seq<bv32>)
    requires Listed(x) && Operations(INITIAL, x, 42) == Regs(0xc665cfcc, 0x0c9a3a4c, 0x5798b2db, 0x92c5067d)
    ensures Operations(INITIAL, x, 44) == Regs(0x5798b2db, 0x67f85729, 0xea22efb7, 0x0c9a3a4c)
  {
    Inputs40(x);
    hide Listed, Sine, RotateLeft, Operation, Operations, WordIndex, Shift;
    Turned3(0xb56bdd88);
    Evaluated(42, 0xc665cfcc, 0x0c9a3a4c, 0x5798b2db, 0x92c5067d, x, 0xc9c78eea, 0xb56bdd88, 0xdd88b56b, 0xea22efb7);
    Next(INITIAL, x, 42, Regs(0xc665cfcc, 0x0c9a3a4c, 0x5798b2db, 0x92c5067d), Regs(0x92c5067d, 0xea22efb7, 0x0c9a3a4c, 0x5798b2db));
    Turned3(0xaacee4fb);
    Evaluated(43, 0x92c5067d, 0xea22efb7, 0x0c9a3a4c, 0x5798b2db, x, 0xb1206720, 0xaacee4fb, 0x7dd56772, 0x67f85729);
    Next(INITIAL, x, 43, Regs(0x92c5067d, 0xea22efb7, 0x0c9a3a4c, 0x5798b2db), Regs(0x5798b2db, 0x67f85729, 0xea22efb7, 0x0c9a3a4c));
  }

  lemma From44(x: seq<bv32>)
    requires Listed(x) && Operations(INITIAL, x, 44) == Regs(0x5798b2db, 0x67f85729, 0xea22efb7, 0x0c9a3a4c)
    ensures Operations(INITIAL, x, 46) == Regs(0xea22efb7, 0xa239e74e, 0x79af7c3b, 0x67f85729)
  {
    Inputs40(x);
    hide Listed, Sine, RotateLeft, Operation, Operations, WordIndex, Shift;
    Turned3(0x211b7251);
    Evaluated(44, 0x5798b2db, 0x67f85729, 0xea22efb7, 0x0c9a3a4c, x, 0x814082d2, 0x211b7251, 0x11b72512, 0x79af7c3b);
    Next(INITIAL, x, 44, Regs(0x5798b2db, 0x67f85729, 0xea22efb7, 0x0c9a3a4c), Regs(0x0c9a3a4c, 0x79af7c3b, 0x67f85729, 0xea22efb7));
    Turned3(0x6265114d);
    Evaluated(45, 0x0c9a3a4c, 0x79af7c3b, 0x67f85729, 0xea22efb7, x, 0xf475c4a5, 0x6265114d, 0x288a6b13, 0xa239e74e);
    Next(INITIAL, x, 45, Regs(0x0c9a3a4c, 0x79af7c3b, 0x67f85729, 0xea22efb7), Regs(0xea22efb7, 0xa239e74e, 0x79af7c3b, 0x67f85729));
  }

  lemma From46(x: seq<bv32>)
    requires Listed(x) && Operations(INITIAL, x, 46) == Regs(0xea22efb7, 0xa239e74e, 0x79af7c3b, 0x67f85729)
    ensures Operations(INITIAL, x, 48) == Regs(0x79af7c3b, 0x42828f19, 0xdb45ad82, 0xa239e74e)
  {
    Inputs40(x);
    hide Listed, Sine, RotateLeft, Operation, Operations, WordIndex, Shift;
    Turned3(0xc634390b);
    Evaluated(46, 0xea22efb7, 0xa239e74e, 0x79af7c3b, 0x67f85729, x, 0xbc6ecc5c, 0xc634390b, 0x390bc634, 0xdb45ad82);
    Next(INITIAL, x, 46, Regs(0xea22efb7, 0xa239e74e, 0x79af7c3b, 0x67f85729), Regs(0x67f85729, 0xdb45ad82, 0xa239e74e, 0x79af7c3b));
    Turned3(0x79c32ece);
    Evaluated(47, 0x67f85729, 0xdb45ad82, 0xa239e74e, 0x79af7c3b, x, 0x00d336f7, 0x79c32ece, 0x673ce197, 0x42828f19);
    Next(INITIAL, x, 47, Regs(0x67f85729, 0xdb45ad82, 0xa239e74e, 0x79af7c3b), Regs(0x79af7c3b, 0x42828f19, 0xdb45ad82, 0xa239e74e));
  }

  lemma From48(x: seq<bv32>)
    requires Listed(x) && Operations(INITIAL, x, 48) == Regs(0x79af7c3b, 0x42828f19, 0xdb45ad82, 0xa239e74e)
    ensures Operations(INITIAL, x, 50) == Regs(0xdb45ad82, 0x0ab809c7, 0xea474de6, 0x42828f19)
  {
    Inputs48(x);
    hide Listed, Sine, RotateLeft, Operation, Operations, WordIndex, Shift;
    Turned4(0x369f12fb);
    Evaluated(48, 0x79af7c3b, 0x42828f19, 0xdb45ad82, 0xa239e74e, x, 0x8483323b, 0x369f12fb, 0xa7c4becd, 0xea474de6);
    Next(INITIAL, x, 48, Regs(0x79af7c3b, 0x42828f19, 0xdb45ad82, 0xa239e74e), Regs(0xa239e74e, 0xea474de6, 0x42828f19, 0xdb45ad82));
    Turned4(0xf8481c2e);
    Evaluated(49, 0xa239e74e, 0xea474de6, 0x42828f19, 0xdb45ad82, x, 0xac7dd0e6, 0xf8481c2e, 0x2070bbe1, 0x0ab809c7);
    Next(INITIAL, x, 49, Regs(0xa239e74e, 0xea474de6, 0x42828f19, 0xdb45ad82), Regs(0xdb45ad82, 0x0ab809c7, 0xea474de6, 0x42828f19));
  }

  lemma From50(x: seq<bv32>)
    requires Listed(x) && Operations(INITIAL, x, 50) == Regs(0xdb45ad82, 0x0ab809c7, 0xea474de6, 0x42828f19)
    ensures Operations(INITIAL, x, 52) == Regs(0xea474de6, 0x3edf0600, 0x0e297811, 0x0ab809c7)
  {
    Inputs48(x);
    hide Listed, Sine, RotateLeft, Operation, Operations, WordIndex, Shift;
    Turned4(0xdc9406e2);
    Evaluated(50, 0xdb45ad82, 0x0ab809c7, 0xea474de6, 0x42828f19, x, 0x55ba3401, 0xdc9406e2, 0x03716e4a, 0x0e297811);
    Next(INITIAL, x, 50, Regs(0xdb45ad82, 0x0ab809c7, 0xea474de6, 0x42828f19), Regs(0x42828f19, 0x0e297811, 0x0ab809c7, 0xea474de6));
    Turned4(0xac6f7985);
    Evaluated(51, 0x42828f19, 0x0e297811, 0x0ab809c7, 0xea474de6, x, 0x1501f3de, 0xac6f7985, 0x30b58def, 0x3edf0600);
    Next(INITIAL, x, 51, Regs(0x42828f19, 0x0e297811, 0x0ab809c7, 0xea474de6), Regs(0xea474de6, 0x3edf0600, 0x0e297811, 0x0ab809c7));
  }

  lemma From52(x: seq<bv32>)
    requires Listed(x) && Operations(INITIAL, x, 52) == Regs(0xea474de6, 0x3edf0600, 0x0e297811, 0x0ab809c7)
    ensures Operations(INITIAL, x, 54) == Regs(0x0e297811, 0x9a84ef4b, 0x438a986f, 0x3edf0600)
  {
    Inputs48(x);
    hide Listed, Sine, RotateLeft, Operation, Operations, WordIndex, Shift;
    Turned4(0xbc12ae49);
    Evaluated(52, 0xea474de6, 0x3edf0600, 0x0e297811, 0x0ab809c7, x, 0xf1f68e29, 0xbc12ae49, 0x04ab926f, 0x438a986f);
    Next(INITIAL, x, 52, Regs(0xea474de6, 0x3edf0600, 0x0e297811, 0x0ab809c7), Regs(0x0ab809c7, 0x438a986f, 0x3edf0600, 0x0e297811));
    Turned4(0xb715be95);
    Evaluated(53, 0x0ab809c7, 0x438a986f, 0x3edf0600, 0x0e297811, x, 0xcd0199ef, 0xb715be95, 0x56fa56dc, 0x9a84ef4b);
    Next(INITIAL, x, 53, Regs(0x0ab809c7, 0x438a986f, 0x3edf0600, 0x0e297811), Regs(0x0e297811, 0x9a84ef4b, 0x438a986f, 0x3edf0600));
  }

  lemma From54(x: seq<bv32>)
    requires Listed(x) && Operations(INITIAL, x, 54) == Regs(0x0e297811, 0x9a84ef4b, 0x438a986f, 0x3edf0600)
    ensures Operations(INITIAL, x, 56) == Regs(0x438a986f, 0x9f11e06e, 0x3ccb7ba7, 0x9a84ef4b)
  {
    Inputs48(x);
    hide Listed, Sine, RotateLeft, Operation, Operations, WordIndex, Shift;
    Turned4(0x18b9448d);
    Evaluated(54, 0x0e297811, 0x9a84ef4b, 0x438a986f, 0x3edf0600, x, 0x982e6790, 0x18b9448d, 0xa2468c5c, 0x3ccb7ba7);
    Next(INITIAL, x, 54, Regs(0x0e297811, 0x9a84ef4b, 0x438a986f, 0x3edf0600), Regs(0x3edf0600, 0x3ccb7ba7, 0x9a84ef4b, 0x438a986f));
    Turned4(0x33263b12);
    Evaluated(55, 0x3edf0600, 0x3ccb7ba7, 0x9a84ef4b, 0x438a986f, x, 0x267b90fc, 0x33263b12, 0x624664c7, 0x9f11e06e);
    Next(INITIAL, x, 55, Regs(0x3edf0600, 0x3ccb7ba7, 0x9a84ef4b, 0x438a986f), Regs(0x438a986f, 0x9f11e06e, 0x3ccb7ba7, 0x9a84ef4b));
  }

  lemma From56(x: seq<bv32>)
    requires Listed(x) && Operations(INITIAL, x, 56) == Regs(0x438a986f, 0x9f11e06e, 0x3ccb7ba7, 0x9a84ef4b)
    ensures Operations(INITIAL, x, 58) == Regs(0x3ccb7ba7, 0x4f3d6c3a, 0xf2548026, 0x9f11e06e)
  {
    Inputs56(x);
    hide Listed, Sine, RotateLeft, Operation, Operations, WordIndex, Shift;
    Turned4(0xe14d0a7e);
    Evaluated(56, 0x438a986f, 0x9f11e06e, 0x3ccb7ba7, 0x9a84ef4b, x, 0xc3b08b59, 0xe14d0a7e, 0x53429fb8, 0xf2548026);
    Next(INITIAL, x, 56, Regs(0x438a986f, 0x9f11e06e, 0x3ccb7ba7, 0x9a84ef4b), Regs(0x9a84ef4b, 0xf2548026, 0x9f11e06e, 0x3ccb7ba7));
    Turned4(0x05173a3b);
    Evaluated(57, 0x9a84ef4b, 0xf2548026, 0x9f11e06e, 0x3ccb7ba7, x, 0x6c656410, 0x05173a3b, 0x5ce8ec14, 0x4f3d6c3a);
    Next(INITIAL, x, 57, Regs(0x9a84ef4b, 0xf2548026, 0x9f11e06e, 0x3ccb7ba7), Regs(0x3ccb7ba7, 0x4f3d6c3a, 0xf2548026, 0x9f11e06e));
  }

  lemma From58(x: seq<bv32>)
    requires Listed(x) && Operations(INITIAL, x, 58) == Regs(0x3ccb7ba7, 0x4f3d6c3a, 0xf2548026, 0x9f11e06e)
    ensures Operations(INITIAL, x, 60) == Regs(0xf2548026, 0x3c2615ed, 0x5b965c27, 0x4f3d6c3a)
  {
    Inputs56(x);
    hide Listed, Sine, RotateLeft, Operation, Operations, WordIndex, Shift;
    Turned4(0xdfda18b1);
    Evaluated(58, 0x3ccb7ba7, 0x4f3d6c3a, 0xf2548026, 0x9f11e06e, x, 0x9dabff9d, 0xdfda18b1, 0x0c58efed, 0x5b965c27);
    Next(INITIAL, x, 58, Regs(0x3ccb7ba7, 0x4f3d6c3a, 0xf2548026, 0x9f11e06e), Regs(0x9f11e06e, 0x5b965c27, 0x4f3d6c3a, 0xf2548026));
    Turned4(0x7dce3704);
    Evaluated(59, 0x9f11e06e, 0x5b965c27, 0x4f3d6c3a, 0xf2548026, x, 0x108213c5, 0x7dce3704, 0xe08fb9c6, 0x3c2615ed);
    Next(INITIAL, x, 59, Regs(0x9f11e06e, 0x5b965c27, 0x4f3d6c3a, 0xf2548026), Regs(0xf2548026, 0x3c2615ed, 0x5b965c27, 0x4f3d6c3a));
  }

  lemma From60(x: seq<bv32>)
    requires Listed(x) && Operations(INITIAL, x, 60) == Regs(0xf2548026, 0x3c2615ed, 0x5b965c27, 0x4f3d6c3a)
    ensures Operations(INITIAL, x, 62) == Regs(0x5b965c27, 0x7e411aee, 0x972d46b6, 0x3c2615ed)
  {
    Inputs56(x);
    hide Listed, Sine, RotateLeft, Operation, Operations, WordIndex, Shift;
    Turned4(0x256c1cc3);
    Evaluated(60, 0xf2548026, 0x3c2615ed, 0x5b965c27, 0x4f3d6c3a, x, 0xe770cbca, 0x256c1cc3, 0x5b0730c9, 0x972d46b6);
    Next(INITIAL, x, 60, Regs(0xf2548026, 0x3c2615ed, 0x5b965c27, 0x4f3d6c3a), Regs(0x4f3d6c3a, 0x972d46b6, 0x3c2615ed, 0x5b965c27));
    Turned4(0x0e39c4f5);
    Evaluated(61, 0x4f3d6c3a, 0x972d46b6, 0x3c2615ed, 0x5b965c27, x, 0x8b4bf213, 0x0e39c4f5, 0xe713d438, 0x7e411aee);
    Next(INITIAL, x, 61, Regs(0x4f3d6c3a, 0x972d46b6, 0x3c2615ed, 0x5b965c27), Regs(0x5b965c27, 0x7e411aee, 0x972d46b6, 0x3c2615ed));
  }

  lemma From62(x: seq<bv32>)
    requires Listed(x) && Operations(INITIAL, x, 62) == Regs(0x5b965c27, 0x7e411aee, 0x972d46b6, 0x3c2615ed)
    ensures Operations(INITIAL, x, 64) == Regs(0x972d46b6, 0xba7e5384, 0x98fab8c5, 0x7e411aee)
  {
    Inputs56(x);
    hide Listed, Sine, RotateLeft, Operation, Operations, WordIndex, Shift;
    Turned4(0x3bae3573);
    Evaluated(62, 0x5b965c27, 0x7e411aee, 0x972d46b6, 0x3c2615ed, x, 0x68f4bc48, 0x3bae3573, 0x1ab99dd7, 0x98fab8c5);
    Next(INITIAL, x, 62, Regs(0x5b965c27, 0x7e411aee, 0x972d46b6, 0x3c2615ed), Regs(0x3c2615ed, 0x98fab8c5, 0x7e411aee, 0x972d46b6));
    Turned4(0x1cd5f90c);
    Evaluated(63, 0x3c2615ed, 0x98fab8c5, 0x7e411aee, 0x972d46b6, x, 0x86bba323, 0x1cd5f90c, 0x21839abf, 0xba7e5384);
    Next(INITIAL, x, 63, Regs(0x3c2615ed, 0x98fab8c5, 0x7e411aee, 0x972d46b6), Regs(0x972d46b6, 0xba7e5384, 0x98fab8c5, 0x7e411aee));
  }

  lemma Compressed()
    ensures Compress(INITIAL, WORDS) == Regs(0xfe7269b7, 0xaa4bff0d, 0x31b595c3, 0x8e736f64)
  {
    assert Operations(INITIAL, WORDS, 0) == Regs(0x67452301, 0xefcdab89, 0x98badcfe, 0x10325476);
    assert Listed(WORDS);
    hide Operations, Listed;
    From0(WORDS);
    From2(WORDS);
    From4(WORDS);
    From6(WORDS);
    From8(WORDS);
    From10(WORDS);
    From12(WORDS);
    From14(WORDS);
    From16(WORDS);
    From18(WORDS);
    From20(WORDS);
    From22(WORDS);
    From24(WORDS);
    From26(WORDS);
    From28(WORDS);
    From30(WORDS);
    From32(WORDS);
    From34(WORDS);
    From36(WORDS);
    From38(WORDS);
    From40(WORDS);
    From42(WORDS);
    From44(WORDS);
    From46(WORDS);
    From48(WORDS);
    From50(WORDS);
    From52(WORDS);
    From54(WORDS);
    From56(WORDS);
    From58(WORDS);
    From60(WORDS);
    From62(WORDS);
  }

  // ----- the padded message -----

  function Bytes(): (b: seq<byte>)
    ensures |b| == 64
  {
    MESSAGE + [0x80] + [0xb8, 0x01, 0x00, 0x00, 0x00, 0x00, 0x00, 0x00]
  }

  lemma Row0()
    ensures Load(Little, Bytes()[0..4]) == 0x44434241
    ensures Load(Little, Bytes()[4..8]) == 0x48474645
    ensures Load(Little, Bytes()[8..12]) == 0x4c4b4a49
    ensures Load(Little, Bytes()[12..16]) == 0x504f4e4d
  {
    var b := Bytes();
    assert b[0..4] == [0x41, 0x42, 0x43, 0x44];
    assert b[4..8] == [0x45, 0x46, 0x47, 0x48];
    assert b[8..12] == [0x49, 0x4a, 0x4b, 0x4c];
    assert b[12..16] == [0x4d, 0x4e, 0x4f, 0x50];
  }

  lemma Row1()
    ensures Load(Little, Bytes()[16..20]) == 0x54535251
    ensures Load(Little, Bytes()[20..24]) == 0x58575655
    ensures Load(Little, Bytes()[24..28]) == 0x62615a59
    ensures Load(Little, Bytes()[28..32]) == 0x66656463
  {
    var b := Bytes();
    assert b[16..20] == [0x51, 0x52, 0x53, 0x54];
    assert b[20..24] == [0x55, 0x56, 0x57, 0x58];
    assert b[24..28] == [0x59, 0x5a, 0x61, 0x62];
    assert b[28..32] == [0x63, 0x64, 0x65, 0x66];
  }

  lemma Row2()
    ensures Load(Little, Bytes()[32..36]) == 0x6a696867
    ensures Load(Little, Bytes()[36..40]) == 0x6e6d6c6b
    ensures Load(Little, Bytes()[40..44]) == 0x7271706f
    ensures Load(Little, Bytes()[44..48]) == 0x76757473
  {
    var b := Bytes();
    assert b[32..36] == [0x67, 0x68, 0x69, 0x6a];
    assert b[36..40] == [0x6b, 0x6c, 0x6d, 0x6e];
    assert b[40..44] == [0x6f, 0x70, 0x71, 0x72];
    assert b[44..48] == [0x73, 0x74, 0x75, 0x76];
  }

  lemma Row3()
    ensures Load(Little, Bytes()[48..52]) == 0x7a797877
    ensures Load(Little, Bytes()[52..56]) == 0x80323130
    ensures Load(Little, Bytes()[56..60]) == 0x000001b8
    ensures Load(Little, Bytes()[60..64]) == 0x00000000
  {
    var b := Bytes();
    assert b[48..52] == [0x77, 0x78, 0x79, 0x7a];
    assert b[52..56] == [0x30, 0x31, 0x32, 0x80];
    assert b[56..60] == [0xb8, 0x01, 0x00, 0x00];
    assert b[60..64] == [0x00, 0x00, 0x00, 0x00];
  }

  lemma WordsOfBytes()
    ensures Words(Bytes()) == WORDS
  {
    Row0();
    Row1();
    Row2();
    Row3();
    hide Load, Bytes;
  }

  lemma BitsOfMessage()
    ensures LowWord(440) == 0x1b8
  {
    assert AsWord(440) == 0x1b8;
    hide AsWord;
    assert 440 % 0x1_0000_0000 == 440;
  }

  lemma NoHighBits()
    ensures LowWord(0) == 0
  {
  }

  lemma BitsStored()
    ensures Store(Little, 0x1b8) == [0xb8, 0x01, 0x00, 0x00] && Store(Little, 0) == [0x00, 0x00, 0x00, 0x00]
  {
  }

  lemma LengthStored()
    ensures LengthBytes(55) == [0xb8, 0x01, 0x00, 0x00, 0x00, 0x00, 0x00, 0x00]
  {
    hide LowWord, Store;
    BitsOfMessage();
    NoHighBits();
    BitsStored();
    assert 8 * 55 == 440 && 440 / 0x1_0000_0000 == 0;
  }

  lemma Padded()
    ensures |MESSAGE| == 55 && MESSAGE + Padding(55) == Bytes()
  {
    LengthStored();
    hide LengthBytes;
    assert Zeros(0) == [];
    assert Padding(55) == [0x80] + Zeros(0) + LengthBytes(55);
  }

  lemma Stored()
    ensures Output(Regs(0xfe7269b7, 0xaa4bff0d, 0x31b595c3, 0x8e736f64))
            == [0xb7, 0x69, 0x72, 0xfe, 0x0d, 0xff, 0x4b, 0xaa,
                               0xc3, 0x95, 0xb5, 0x31, 0x64, 0x6f, 0x73, 0x8e]
  {
  }

  lemma DigestOfMessage()
    ensures Digest(MESSAGE) == [0xb7, 0x69, 0x72, 0xfe, 0x0d, 0xff, 0x4b, 0xaa,
                               0xc3, 0x95, 0xb5, 0x31, 0x64, 0x6f, 0x73, 0x8e]
  {
    Compressed();
    WordsOfBytes();
    Padded();
    Stored();
    hide Compress, Words, Bytes, Padding, Store;
    FoldAppend(INITIAL, [], Bytes());
    assert [] + Bytes() == Bytes() && Fold(INITIAL, []) == INITIAL;
  }
}
