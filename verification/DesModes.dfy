/** What des, Ddes, D2des and D3des compute, as functions of key registers and blocks. */
module DesModes {
  import opened Machine
  import opened DesCipher
  import opened DesKeys

  /** The three key registers KnL, KnR and Kn3 as the rounds read them. */
  datatype Registers = Registers(knL: seq<RoundKey>, knR: seq<RoundKey>, kn3: seq<RoundKey>)

  // ----- bytes and blocks: the most significant byte of each word comes first -----

  function Block(b: seq<byte>): Halves
    requires |b| == 8
  {
    Halves(Load(Big, b[..4]), Load(Big, b[4..]))
  }

  function Bytes(h: Halves): (b: seq<byte>)
    ensures |b| == 8
  {
    Store(Big, h.l) + Store(Big, h.r)
  }

  lemma BlockOfBytes(h: Halves)
    ensures Block(Bytes(h)) == h
  {
    hide Load, Store;
    LoadStore(Big, h.l);
    LoadStore(Big, h.r);
    assert Bytes(h)[..4] == Store(Big, h.l) && Bytes(h)[4..] == Store(Big, h.r);
  }

  lemma BytesOfBlock(b: seq<byte>)
    requires |b| == 8
    ensures Bytes(Block(b)) == b
  {
    hide Load, Store;
    StoreLoad(Big, b[..4]);
    StoreLoad(Big, b[4..]);
  }

  // ----- key loading -----

  function DesKey2(key: seq<byte>, mode: Mode): Registers
    requires |key| == 16
  {
    Registers(Schedule(key[..8], mode), Schedule(key[8..], Opposite(mode)), Schedule(key[..8], mode))
  }

  function DesKey3(key: seq<byte>, mode: Mode): Registers
    requires |key| == 24
  {
    var first, third := if mode == EN0 then key[..8] else key[16..], if mode == EN0 then key[16..] else key[..8];
    Registers(Schedule(first, mode), Schedule(key[8..16], Opposite(mode)), Schedule(third, mode))
  }

  // ----- the four ciphers -----

  function Des(t: SpTables, ks: seq<RoundKey>, b: seq<byte>): (r: seq<byte>)
    requires |b| == 8
    ensures |r| == 8
  {
    Bytes(Crypt(t, ks, Block(b)))
  }

  function Triple(t: SpTables, g: Registers, h: Halves): Halves {
    Crypt(t, g.kn3, Crypt(t, g.knR, Crypt(t, g.knL, h)))
  }

  function Ddes(t: SpTables, g: Registers, b: seq<byte>): (r: seq<byte>)
    requires |b| == 8
    ensures |r| == 8
  {
    Bytes(Triple(t, g, Block(b)))
  }

  datatype Pair = Pair(a: Halves, b: Halves)

  datatype Three = Three(a: Halves, b: Halves, c: Halves)

  function CryptPair(t: SpTables, ks: seq<RoundKey>, p: Pair): Pair {
    Pair(Crypt(t, ks, p.a), Crypt(t, ks, p.b))
  }

  function CryptThree(t: SpTables, ks: seq<RoundKey>, p: Three): Three {
    Three(Crypt(t, ks, p.a), Crypt(t, ks, p.b), Crypt(t, ks, p.c))
  }

  /** Neighbouring blocks trade the words that touch. */
  function Cross(p: Pair): Pair {
    Pair(Halves(p.a.l, p.b.l), Halves(p.a.r, p.b.r))
  }

  function CrossThree(p: Three): Three {
    Three(Halves(p.a.l, p.b.l), Halves(p.a.r, p.c.l), Halves(p.b.r, p.c.r))
  }

  function D2Blocks(t: SpTables, g: Registers, p: Pair): Pair {
    CryptPair(t, g.kn3, Cross(CryptPair(t, g.knR, Cross(CryptPair(t, g.knL, p)))))
  }

  function D3Blocks(t: SpTables, g: Registers, p: Three): Three {
    CryptThree(t, g.kn3, CrossThree(CryptThree(t, g.knR, CrossThree(CryptThree(t, g.knL, p)))))
  }

  function D2des(t: SpTables, g: Registers, b: seq<byte>): (r: seq<byte>)
    requires |b| == 16
    ensures |r| == 16
  {
    var p := D2Blocks(t, g, Pair(Block(b[..8]), Block(b[8..])));
    Bytes(p.a) + Bytes(p.b)
  }

  function D3des(t: SpTables, g: Registers, b: seq<byte>): (r: seq<byte>)
    requires |b| == 24
    ensures |r| == 24
  {
    var p := D3Blocks(t, g, Three(Block(b[..8]), Block(b[8..16]), Block(b[16..])));
    Bytes(p.a) + Bytes(p.b) + Bytes(p.c)
  }

  // ----- deciphering -----

  /** The registers that undo g: each schedule backwards, first and third traded. */
  function Inverse(g: Registers): Registers {
    Registers(Reversed(g.kn3), Reversed(g.knR), Reversed(g.knL))
  }

  lemma OppositeLoadsInverse2(key: seq<byte>, mode: Mode)
    requires |key| == 16
    ensures DesKey2(key, Opposite(mode)) == Inverse(DesKey2(key, mode))
  {
    hide Schedule, Reversed;
    ScheduleReverses(key[..8], mode);
    ScheduleReverses(key[8..], Opposite(mode));
  }

  lemma OppositeLoadsInverse3(key: seq<byte>, mode: Mode)
    requires |key| == 24
    ensures DesKey3(key, Opposite(mode)) == Inverse(DesKey3(key, mode))
  {
    hide Schedule, Reversed;
    ScheduleReverses(key[..8], mode);
    ScheduleReverses(key[8..16], Opposite(mode));
    ScheduleReverses(key[16..], mode);
  }

  lemma TripleUndone(t: SpTables, g: Registers, h: Halves)
    ensures Triple(t, Inverse(g), Triple(t, g, h)) == h
  {
    hide Crypt, Reversed;
    var h1 := Crypt(t, g.knL, h);
    var h2 := Crypt(t, g.knR, h1);
    CryptUndone(t, g.kn3, h2);
    CryptUndone(t, g.knR, h1);
    CryptUndone(t, g.knL, h);
  }

  lemma CryptPairUndone(t: SpTables, ks: seq<RoundKey>, p: Pair)
    ensures CryptPair(t, Reversed(ks), CryptPair(t, ks, p)) == p
  {
    hide Crypt, Reversed;
    CryptUndone(t, ks, p.a);
    CryptUndone(t, ks, p.b);
  }

  lemma CryptThreeUndone(t: SpTables, ks: seq<RoundKey>, p: Three)
    ensures CryptThree(t, Reversed(ks), CryptThree(t, ks, p)) == p
  {
    hide Crypt, Reversed;
    CryptUndone(t, ks, p.a);
    CryptUndone(t, ks, p.b);
    CryptUndone(t, ks, p.c);
  }

  lemma CrossesUndone(p: Pair, q: Three)
    ensures Cross(Cross(p)) == p
    ensures CrossThree(CrossThree(q)) == q
  {
  }

  lemma D2BlocksUndone(t: SpTables, g: Registers, p: Pair)
    ensures D2Blocks(t, Inverse(g), D2Blocks(t, g, p)) == p
  {
    var q := Three(p.a, p.a, p.a);
    hide CryptPair, Reversed, Cross;
    var p1 := CryptPair(t, g.knL, p);
    var p2 := CryptPair(t, g.knR, Cross(p1));
    CryptPairUndone(t, g.kn3, Cross(p2));
    CrossesUndone(p2, q);
    CryptPairUndone(t, g.knR, Cross(p1));
    CrossesUndone(p1, q);
    CryptPairUndone(t, g.knL, p);
  }

  lemma D3BlocksUndone(t: SpTables, g: Registers, p: Three)
    ensures D3Blocks(t, Inverse(g), D3Blocks(t, g, p)) == p
  {
    var q := Pair(p.a, p.a);
    hide CryptThree, Reversed, CrossThree;
    var p1 := CryptThree(t, g.knL, p);
    var p2 := CryptThree(t, g.knR, CrossThree(p1));
    CryptThreeUndone(t, g.kn3, CrossThree(p2));
    CrossesUndone(q, p2);
    CryptThreeUndone(t, g.knR, CrossThree(p1));
    CrossesUndone(q, p1);
    CryptThreeUndone(t, g.knL, p);
  }

  /** des under either mode undoes des under the other, for every key, block and table contents. */
  lemma DesUndone(t: SpTables, key: seq<byte>, mode: Mode, b: seq<byte>)
    requires |key| == 8 && |b| == 8
    ensures Des(t, Schedule(key, Opposite(mode)), Des(t, Schedule(key, mode), b)) == b
  {
    hide Schedule, Crypt, Bytes, Block, Reversed;
    ScheduleReverses(key, mode);
    var ks := Schedule(key, mode);
    BlockOfBytes(Crypt(t, ks, Block(b)));
    CryptUndone(t, ks, Block(b));
    BytesOfBlock(b);
  }

  lemma DdesUndone(t: SpTables, g: Registers, b: seq<byte>)
    requires |b| == 8
    ensures Ddes(t, Inverse(g), Ddes(t, g, b)) == b
  {
    hide Triple, Inverse, Bytes, Block;
    BlockOfBytes(Triple(t, g, Block(b)));
    TripleUndone(t, g, Block(b));
    BytesOfBlock(b);
  }

  lemma D2desUndone(t: SpTables, g: Registers, b: seq<byte>)
    requires |b| == 16
    ensures D2des(t, Inverse(g), D2des(t, g, b)) == b
  {
    hide D2Blocks, Inverse, Bytes, Block;
    var p := Pair(Block(b[..8]), Block(b[8..]));
    var q := D2Blocks(t, g, p);
    var c := D2des(t, g, b);
    assert c[..8] == Bytes(q.a) && c[8..] == Bytes(q.b);
    BlockOfBytes(q.a);
    BlockOfBytes(q.b);
    D2BlocksUndone(t, g, p);
    BytesOfBlock(b[..8]);
    BytesOfBlock(b[8..]);
    assert b == b[..8] + b[8..];
  }

  lemma D3desUndone(t: SpTables, g: Registers, b: seq<byte>)
    requires |b| == 24
    ensures D3des(t, Inverse(g), D3des(t, g, b)) == b
  {
    hide D3Blocks, Inverse, Bytes, Block;
    var p := Three(Block(b[..8]), Block(b[8..16]), Block(b[16..]));
    var q := D3Blocks(t, g, p);
    var c := D3des(t, g, b);
    assert c[..8] == Bytes(q.a) && c[8..16] == Bytes(q.b) && c[16..] == Bytes(q.c);
    BlockOfBytes(q.a);
    BlockOfBytes(q.b);
    BlockOfBytes(q.c);
    D3BlocksUndone(t, g, p);
    BytesOfBlock(b[..8]);
    BytesOfBlock(b[8..16]);
    BytesOfBlock(b[16..]);
    assert b == b[..8] + b[8..16] + b[16..];
  }

  /** Under a double-length key each of the three ciphers undoes itself in the opposite mode. */
  lemma DoubleKeyUndone(t: SpTables, key: seq<byte>, mode: Mode, b1: seq<byte>, b2: seq<byte>, b3: seq<byte>)
    requires |key| == 16 && |b1| == 8 && |b2| == 16 && |b3| == 24
    ensures Ddes(t, DesKey2(key, Opposite(mode)), Ddes(t, DesKey2(key, mode), b1)) == b1
    ensures D2des(t, DesKey2(key, Opposite(mode)), D2des(t, DesKey2(key, mode), b2)) == b2
    ensures D3des(t, DesKey2(key, Opposite(mode)), D3des(t, DesKey2(key, mode), b3)) == b3
  {
    hide *;
    OppositeLoadsInverse2(key, mode);
    DdesUndone(t, DesKey2(key, mode), b1);
    D2desUndone(t, DesKey2(key, mode), b2);
    D3desUndone(t, DesKey2(key, mode), b3);
  }

  /** And under a triple-length key. */
  lemma TripleKeyUndone(t: SpTables, key: seq<byte>, mode: Mode, b1: seq<byte>, b2: seq<byte>, b3: seq<byte>)
    requires |key| == 24 && |b1| == 8 && |b2| == 16 && |b3| == 24
    ensures Ddes(t, DesKey3(key, Opposite(mode)), Ddes(t, DesKey3(key, mode), b1)) == b1
    ensures D2des(t, DesKey3(key, Opposite(mode)), D2des(t, DesKey3(key, mode), b2)) == b2
    ensures D3des(t, DesKey3(key, Opposite(mode)), D3des(t, DesKey3(key, mode), b3)) == b3
  {
    hide *;
    OppositeLoadsInverse3(key, mode);
    DdesUndone(t, DesKey3(key, mode), b1);
    D2desUndone(t, DesKey3(key, mode), b2);
    D3desUndone(t, DesKey3(key, mode), b3);
  }

  // ----- complementation -----

  lemma JoinOfNot(b0: byte, b1: byte, b2: byte, b3: byte)
    ensures Join(b0 ^ 0xff, b1 ^ 0xff, b2 ^ 0xff, b3 ^ 0xff) == Xor(Join(b0, b1, b2, b3), 0xffff_ffff)
  {
  }

  lemma BlockOfNot(b: seq<byte>)
    requires |b| == 8
    ensures Block(NotBytes(b)) == Not(Block(b))
  {
    hide Join, Xor;
    JoinOfNot(b[3], b[2], b[1], b[0]);
    JoinOfNot(b[7], b[6], b[5], b[4]);
  }

  /** Complementing all key bytes and all block bytes complements the output. */
  lemma DesComplementation(t: SpTables, key: seq<byte>, mode: Mode, b: seq<byte>)
    requires |key| == 8 && |b| == 8
    ensures Des(t, Schedule(NotBytes(key), mode), NotBytes(b)) == NotBytes(Des(t, Schedule(key, mode), b))
  {
    hide Schedule, Crypt, Bytes, Block, NotKeys, NotBytes, Not;
    ScheduleOfNot(key, mode);
    BlockOfNot(b);
    var ks := Schedule(key, mode);
    CryptOfNot(t, ks, Block(b));
    var h := Crypt(t, ks, Block(b));
    BlockOfBytes(h);
    BlockOfNot(Bytes(h));
    BytesOfBlock(NotBytes(Bytes(h)));
  }
}
