/** Bytes, 32-bit words and the two ways a host lays a word out in memory. */
module Machine {
  type byte = bv8

  datatype Endian = Little | Big

  function Join(b0: byte, b1: byte, b2: byte, b3: byte): bv32 {
    (b3 as bv32 << 24) | (b2 as bv32 << 16) | (b1 as bv32 << 8) | (b0 as bv32)
  }

  function Byte0(w: bv32): byte { (w & 0xff) as byte }

  function Byte1(w: bv32): byte { ((w >> 8) & 0xff) as byte }

  function Byte2(w: bv32): byte { ((w >> 16) & 0xff) as byte }

  function Byte3(w: bv32): byte { ((w >> 24) & 0xff) as byte }

  lemma JoinSplit(w: bv32)
    ensures Join(Byte0(w), Byte1(w), Byte2(w), Byte3(w)) == w
  {
  }

  lemma SplitJoin(b0: byte, b1: byte, b2: byte, b3: byte)
    ensures Byte0(Join(b0, b1, b2, b3)) == b0
    ensures Byte1(Join(b0, b1, b2, b3)) == b1
    ensures Byte2(Join(b0, b1, b2, b3)) == b2
    ensures Byte3(Join(b0, b1, b2, b3)) == b3
  {
  }

  /** What `*(uint32_t *)p` reads on a host of the given byte order. */
  function Load(e: Endian, b: seq<byte>): bv32
    requires |b| == 4
  {
    match e
    case Little => Join(b[0], b[1], b[2], b[3])
    case Big => Join(b[3], b[2], b[1], b[0])
  }

  /** What `*(uint32_t *)p = w` leaves in memory on a host of the given byte order. */
  function Store(e: Endian, w: bv32): (b: seq<byte>)
    ensures |b| == 4
  {
    match e
    case Little => [Byte0(w), Byte1(w), Byte2(w), Byte3(w)]
    case Big => [Byte3(w), Byte2(w), Byte1(w), Byte0(w)]
  }

  /** A stored word loads back on the same host. */
  lemma LoadStore(e: Endian, w: bv32)
    ensures Load(e, Store(e, w)) == w
  {
    JoinSplit(w);
  }

  /** Stored bytes are determined by the word they load as. */
  lemma StoreLoad(e: Endian, b: seq<byte>)
    requires |b| == 4
    ensures Store(e, Load(e, b)) == b
  {
    match e {
      case Little => SplitJoin(b[0], b[1], b[2], b[3]);
      case Big => SplitJoin(b[3], b[2], b[1], b[0]);
    }
  }

  // ----- xor and or on words, and laws of xor -----

  function Or(x: bv32, y: bv32): bv32 { x | y }

  function Xor(x: bv32, y: bv32): bv32 { x ^ y }

  lemma XorCommutative(x: bv32, y: bv32)
    ensures Xor(x, y) == Xor(y, x)
  {
  }

  lemma XorAssociative(x: bv32, y: bv32, z: bv32)
    ensures Xor(Xor(x, y), z) == Xor(x, Xor(y, z))
  {
  }

  lemma XorTwice(x: bv32, y: bv32)
    ensures Xor(Xor(x, y), y) == x
  {
  }

  lemma XorSwapped(x: bv32, y: bv32, z: bv32)
    ensures Xor(Xor(x, y), z) == Xor(Xor(x, z), y)
  {
    hide *;
    XorAssociative(x, y, z);
    XorCommutative(y, z);
    XorAssociative(x, z, y);
  }

  lemma XorRearranged(a: bv32, b: bv32, c: bv32, d: bv32)
    ensures Xor(Xor(a, b), Xor(c, d)) == Xor(Xor(a, c), Xor(b, d))
  {
    hide *;
    XorAssociative(Xor(a, b), c, d);
    XorSwapped(a, b, c);
    XorAssociative(Xor(a, c), b, d);
  }
}
