/** MD5 as RFC 1321 defines it, sections 3.1 to 3.5: pad, then fold the compression over 64-byte blocks. */
module Md5Spec {
  import opened Machine

  datatype Regs = Regs(a: bv32, b: bv32, c: bv32, d: bv32)

  /** Section 3.3. */
  const INITIAL: Regs := Regs(0x67452301, 0xefcdab89, 0x98badcfe, 0x10325476)

  // ----- section 3.4: one operation, sixteen per round -----

  function Aux(round: nat, x: bv32, y: bv32, z: bv32): bv32
    requires round < 4
  {
    if round == 0 then (x & y) | (!x & z)
    else if round == 1 then (x & z) | (y & !z)
    else if round == 2 then x ^ y ^ z
    else y ^ (x | !z)
  }

  /** Which word of the block operation i adds. */
  function WordIndex(i: nat): (k: nat)
    requires i < 64
    ensures k < 16
  {
    if i < 16 then i else if i < 32 then (5 * i + 1) % 16 else if i < 48 then (3 * i + 5) % 16 else 7 * i % 16
  }

  function Shift(i: nat): (s: nat)
    requires i < 64
    ensures 0 < s < 32
  {
    var q := i % 4;
    if i < 16 then (if q == 0 then 7 else if q == 1 then 12 else if q == 2 then 17 else 22)
    else if i < 32 then (if q == 0 then 5 else if q == 1 then 9 else if q == 2 then 14 else 20)
    else if i < 48 then (if q == 0 then 4 else if q == 1 then 11 else if q == 2 then 16 else 23)
    else (if q == 0 then 6 else if q == 1 then 10 else if q == 2 then 15 else 21)
  }

  function RotateLeft(x: bv32, s: nat): bv32
    requires 0 < s < 32
  {
    (x << s) | (x >> (32 - s))
  }

  /** Eight entries of the table T. */
  function Among(q: nat, t0: bv32, t1: bv32, t2: bv32, t3: bv32, t4: bv32, t5: bv32, t6: bv32, t7: bv32): bv32
    requires q < 8
  {
    if q == 0 then t0 else if q == 1 then t1 else if q == 2 then t2 else if q == 3 then t3
    else if q == 4 then t4 else if q == 5 then t5 else if q == 6 then t6 else t7
  }

  /** The table T: the integer part of 2^32 |sin(i + 1)|. */
  function Sine(i: nat): bv32
    requires i < 64
  {
    var q := i % 8;
    if i < 8 then Among(q, 0xd76aa478, 0xe8c7b756, 0x242070db, 0xc1bdceee, 0xf57c0faf, 0x4787c62a, 0xa8304613, 0xfd469501)
    else if i < 16 then Among(q, 0x698098d8, 0x8b44f7af, 0xffff5bb1, 0x895cd7be, 0x6b901122, 0xfd987193, 0xa679438e, 0x49b40821)
    else if i < 24 then Among(q, 0xf61e2562, 0xc040b340, 0x265e5a51, 0xe9b6c7aa, 0xd62f105d, 0x02441453, 0xd8a1e681, 0xe7d3fbc8)
    else if i < 32 then Among(q, 0x21e1cde6, 0xc33707d6, 0xf4d50d87, 0x455a14ed, 0xa9e3e905, 0xfcefa3f8, 0x676f02d9, 0x8d2a4c8a)
    else if i < 40 then Among(q, 0xfffa3942, 0x8771f681, 0x6d9d6122, 0xfde5380c, 0xa4beea44, 0x4bdecfa9, 0xf6bb4b60, 0xbebfbc70)
    else if i < 48 then Among(q, 0x289b7ec6, 0xeaa127fa, 0xd4ef3085, 0x04881d05, 0xd9d4d039, 0xe6db99e5, 0x1fa27cf8, 0xc4ac5665)
    else if i < 56 then Among(q, 0xf4292244, 0x432aff97, 0xab9423a7, 0xfc93a039, 0x655b59c3, 0x8f0ccc92, 0xffeff47d, 0x85845dd1)
    else Among(q, 0x6fa87e4f, 0xfe2ce6e0, 0xa3014314, 0x4e0811a1, 0xf7537e82, 0xbd3af235, 0x2ad7d2bb, 0xeb86d391)
  }

  function Plus(x: bv32, y: bv32): bv32 { x + y }

  /** a = b + ((a + f(b, c, d) + X[k] + T[i]) <<< s), after which the registers change roles. */
  function Operation(i: nat, r: Regs, x: seq<bv32>): Regs
    requires i < 64 && |x| == 16
  {
    var sum := Plus(Plus(Plus(r.a, Aux(i / 16, r.b, r.c, r.d)), x[WordIndex(i)]), Sine(i));
    Regs(r.d, Plus(r.b, RotateLeft(sum, Shift(i))), r.b, r.c)
  }

  function Operations(r: Regs, x: seq<bv32>, n: nat): Regs
    requires n <= 64 && |x| == 16
  {
    if n == 0 then r else Operation(n - 1, Operations(r, x, n - 1), x)
  }

  function Compress(r: Regs, x: seq<bv32>): Regs
    requires |x| == 16
  {
    var q := Operations(r, x, 64);
    Regs(Plus(r.a, q.a), Plus(r.b, q.b), Plus(r.c, q.c), Plus(r.d, q.d))
  }

  /** A block as sixteen words, low-order byte first. */
  function Words(block: seq<byte>): (x: seq<bv32>)
    requires |block| == 64
    ensures |x| == 16
    ensures forall i :: 0 <= i < 16 ==> x[i] == Load(Little, block[4 * i..4 * i + 4])
  {
    seq(16, i requires 0 <= i < 16 => Load(Little, block[4 * i..4 * i + 4]))
  }

  /** The registers after all the blocks of d. */
  function Fold(r: Regs, d: seq<byte>): Regs
    requires |d| % 64 == 0
    decreases |d|
  {
    if |d| == 0 then r else Fold(Compress(r, Words(d[..64])), d[64..])
  }

  lemma {:induction false} FoldAppend(r: Regs, d: seq<byte>, block: seq<byte>)
    requires |d| % 64 == 0 && |block| == 64
    ensures Fold(r, d + block) == Compress(Fold(r, d), Words(block))
    decreases |d|
  {
    hide Compress, Words;
    if |d| == 0 {
      assert d + block == block && block[..64] == block && block[64..] == [];
    } else {
      assert (d + block)[..64] == d[..64] && (d + block)[64..] == d[64..] + block;
      FoldAppend(Compress(r, Words(d[..64])), d[64..], block);
    }
  }

  // ----- sections 3.1, 3.2 and 3.5 -----

  function Zeros(n: nat): (z: seq<byte>)
    ensures |z| == n && forall i :: 0 <= i < n ==> z[i] == 0
  {
    seq(n, _ => 0)
  }

  function AsWord(n: nat): bv32
    requires n < 0x1_0000_0000
  {
    n as bv32
  }

  function LowWord(bits: nat): bv32 { AsWord(bits % 0x1_0000_0000) }

  /** The bit count as two words, low-order word first, truncated to 64 bits. */
  function LengthBytes(len: nat): (b: seq<byte>)
    ensures |b| == 8
  {
    Store(Little, LowWord(8 * len)) + Store(Little, LowWord(8 * len / 0x1_0000_0000))
  }

  /** A one bit, the fewest zeros that leave the length at 56 modulo 64, then the bit count. */
  function Padding(len: nat): (p: seq<byte>)
    ensures (len + |p|) % 64 == 0
  {
    WholeBlocks(len);
    [0x80] + Zeros((119 - len % 64) % 64) + LengthBytes(len)
  }

  lemma WholeBlocks(len: nat)
    ensures (len + (1 + (119 - len % 64) % 64 + 8)) % 64 == 0
  {
  }

  function Output(r: Regs): (d: seq<byte>)
    ensures |d| == 16
  {
    Store(Little, r.a) + Store(Little, r.b) + Store(Little, r.c) + Store(Little, r.d)
  }

  function Digest(m: seq<byte>): seq<byte> {
    Output(Fold(INITIAL, m + Padding(|m|)))
  }
}
