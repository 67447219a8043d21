/** Double- and triple-length encipherment in terms of single DES on bytes: which key works when, and how the longer modes
    mix their blocks. */
module DesLayers {
  import opened Machine
  import opened DesCipher
  import opened DesKeys
  import opened DesModes

  // ----- one block -----

  lemma DdesIsThreefold(t: SpTables, g: Registers, b: seq<byte>)
    requires |b| == 8
    ensures Ddes(t, g, b) == Des(t, g.kn3, Des(t, g.knR, Des(t, g.knL, b)))
  {
    hide Crypt, Block, Bytes;
    var h := Crypt(t, g.knL, Block(b));
    BlockOfBytes(h);
    BlockOfBytes(Crypt(t, g.knR, h));
  }

  /** A triple-length key enciphers under its first, deciphers under its second and enciphers under its third part, and
      deciphers the other way round. */
  lemma TripleKeyOrder(t: SpTables, k1: seq<byte>, k2: seq<byte>, k3: seq<byte>, b: seq<byte>)
    requires |k1| == |k2| == |k3| == |b| == 8
    ensures Ddes(t, DesKey3(k1 + k2 + k3, EN0), b)
            == Des(t, Schedule(k3, EN0), Des(t, Schedule(k2, DE1), Des(t, Schedule(k1, EN0), b)))
    ensures Ddes(t, DesKey3(k1 + k2 + k3, DE1), b)
            == Des(t, Schedule(k1, DE1), Des(t, Schedule(k2, EN0), Des(t, Schedule(k3, DE1), b)))
  {
    var key := k1 + k2 + k3;
    assert key[..8] == k1 && key[8..16] == k2 && key[16..] == k3;
    hide Schedule, Des, Ddes;
    DdesIsThreefold(t, DesKey3(key, EN0), b);
    DdesIsThreefold(t, DesKey3(key, DE1), b);
  }

  /** A double-length key works as the triple-length one whose third part is its first. */
  lemma DoubleKeyOrder(t: SpTables, k1: seq<byte>, k2: seq<byte>, mode: Mode, b: seq<byte>)
    requires |k1| == |k2| == |b| == 8
    ensures Ddes(t, DesKey2(k1 + k2, EN0), b)
            == Des(t, Schedule(k1, EN0), Des(t, Schedule(k2, DE1), Des(t, Schedule(k1, EN0), b)))
    ensures Ddes(t, DesKey2(k1 + k2, DE1), b)
            == Des(t, Schedule(k1, DE1), Des(t, Schedule(k2, EN0), Des(t, Schedule(k1, DE1), b)))
    ensures DesKey2(k1 + k2, mode) == DesKey3(k1 + k2 + k1, mode)
  {
    var key, long := k1 + k2, k1 + k2 + k1;
    assert key[..8] == k1 && key[8..] == k2;
    assert long[..8] == k1 && long[8..16] == k2 && long[16..] == k1;
    hide Schedule, Des, Ddes;
    DdesIsThreefold(t, DesKey2(key, EN0), b);
    DdesIsThreefold(t, DesKey2(key, DE1), b);
  }

  /** With all parts equal both come down to single DES. */
  lemma EqualParts(t: SpTables, k: seq<byte>, mode: Mode, b: seq<byte>)
    requires |k| == |b| == 8
    ensures Ddes(t, DesKey3(k + k + k, mode), b) == Des(t, Schedule(k, mode), b)
    ensures Ddes(t, DesKey2(k + k, mode), b) == Des(t, Schedule(k, mode), b)
  {
    hide Schedule, Des, Ddes, DesKey2, DesKey3;
    TripleKeyOrder(t, k, k, k, b);
    DoubleKeyOrder(t, k, k, mode, b);
    DesUndone(t, k, mode, b);
  }

  // ----- several blocks -----

  /** Single DES on each block. */
  function Layer(t: SpTables, ks: seq<RoundKey>, b: seq<byte>): (r: seq<byte>)
    requires |b| % 8 == 0
    ensures |r| == |b|
  {
    if b == [] then [] else Des(t, ks, b[..8]) + Layer(t, ks, b[8..])
  }

  /** Of n words, the last of each block and the first of the next change places. */
  function Partner(j: nat, n: nat): (k: nat)
    requires j < n
    ensures k < n
  {
    if j % 2 == 1 && j + 1 < n then j + 1 else if j % 2 == 0 && j > 0 then j - 1 else j
  }

  /** The first n words after the trade. */
  function TradedWords(b: seq<byte>, n: nat): (r: seq<byte>)
    requires 4 * n <= |b|
    ensures |r| == 4 * n
  {
    if n == 0 then []
    else
      var j := Partner(n - 1, |b| / 4);
      TradedWords(b, n - 1) + b[4 * j..4 * j + 4]
  }

  function Traded(b: seq<byte>): (r: seq<byte>)
    requires |b| % 8 == 0
    ensures |r| == |b|
  {
    TradedWords(b, |b| / 4)
  }

  lemma LayerOfBlocks(t: SpTables, ks: seq<RoundKey>, a: Halves, b: Halves, c: Halves)
    ensures Layer(t, ks, Bytes(a) + Bytes(b)) == Bytes(Crypt(t, ks, a)) + Bytes(Crypt(t, ks, b))
    ensures Layer(t, ks, Bytes(a) + Bytes(b) + Bytes(c))
            == Bytes(Crypt(t, ks, a)) + Bytes(Crypt(t, ks, b)) + Bytes(Crypt(t, ks, c))
  {
    hide Crypt, Block, Bytes;
    BlockOfBytes(a);
    BlockOfBytes(b);
    BlockOfBytes(c);
    OneBlock(t, ks, Bytes(b));
    OneBlock(t, ks, Bytes(c));
    MoreBlocks(t, ks, Bytes(a), Bytes(b));
    MoreBlocks(t, ks, Bytes(b), Bytes(c));
    MoreBlocks(t, ks, Bytes(a), Bytes(b) + Bytes(c));
    assert Bytes(a) + Bytes(b) + Bytes(c) == Bytes(a) + (Bytes(b) + Bytes(c));
    hide Layer;
  }

  lemma OneBlock(t: SpTables, ks: seq<RoundKey>, b: seq<byte>)
    requires |b| == 8
    ensures Layer(t, ks, b) == Des(t, ks, b)
  {
    hide Des;
    assert b[..8] == b && b[8..] == [];
  }

  lemma MoreBlocks(t: SpTables, ks: seq<RoundKey>, b: seq<byte>, rest: seq<byte>)
    requires |b| == 8 && |rest| % 8 == 0
    ensures Layer(t, ks, b + rest) == Des(t, ks, b) + Layer(t, ks, rest)
  {
    hide Des;
    assert (b + rest)[..8] == b && (b + rest)[8..] == rest;
  }

  lemma TradedTwo(b: seq<byte>)
    requires |b| == 16
    ensures Traded(b) == b[..4] + b[8..12] + (b[4..8] + b[12..])
  {
    assert TradedWords(b, 1) == [] + b[0..4];
    assert TradedWords(b, 2) == TradedWords(b, 1) + b[8..12];
    assert TradedWords(b, 3) == TradedWords(b, 2) + b[4..8];
    assert TradedWords(b, 4) == TradedWords(b, 3) + b[12..16];
  }

  lemma TradedThree(b: seq<byte>)
    requires |b| == 24
    ensures Traded(b) == b[..4] + b[8..12] + (b[4..8] + b[16..20]) + (b[12..16] + b[20..])
  {
    assert TradedWords(b, 1) == [] + b[0..4];
    assert TradedWords(b, 2) == TradedWords(b, 1) + b[8..12];
    assert TradedWords(b, 3) == TradedWords(b, 2) + b[4..8];
    assert TradedWords(b, 4) == TradedWords(b, 3) + b[16..20];
    assert TradedWords(b, 5) == TradedWords(b, 4) + b[12..16];
    assert TradedWords(b, 6) == TradedWords(b, 5) + b[20..24];
  }

  lemma TradedBlocks(p: Pair)
    ensures Traded(Bytes(p.a) + Bytes(p.b)) == Bytes(Cross(p).a) + Bytes(Cross(p).b)
  {
    hide Store, Traded;
    var b := Bytes(p.a) + Bytes(p.b);
    TradedTwo(b);
    assert b[..4] == Store(Big, p.a.l) && b[4..8] == Store(Big, p.a.r);
    assert b[8..12] == Store(Big, p.b.l) && b[12..] == Store(Big, p.b.r);
  }

  lemma TradedThreeBlocks(q: Three)
    ensures Traded(Bytes(q.a) + Bytes(q.b) + Bytes(q.c))
            == Bytes(CrossThree(q).a) + Bytes(CrossThree(q).b) + Bytes(CrossThree(q).c)
  {
    hide Store, Traded;
    var c := Bytes(q.a) + Bytes(q.b) + Bytes(q.c);
    TradedThree(c);
    assert c[..4] == Store(Big, q.a.l) && c[4..8] == Store(Big, q.a.r);
    assert c[8..12] == Store(Big, q.b.l) && c[12..16] == Store(Big, q.b.r);
    assert c[16..20] == Store(Big, q.c.l) && c[20..] == Store(Big, q.c.r);
  }

  /** The two-block mode is three layers of single DES with words traded between them. */
  lemma D2desInLayers(t: SpTables, g: Registers, b: seq<byte>)
    requires |b| == 16
    ensures D2des(t, g, b) == Layer(t, g.kn3, Traded(Layer(t, g.knR, Traded(Layer(t, g.knL, b)))))
  {
    hide Crypt, Block, Bytes, Layer, Traded, Cross;
    var p := Pair(Block(b[..8]), Block(b[8..]));
    BytesOfBlock(b[..8]);
    BytesOfBlock(b[8..]);
    assert b == Bytes(p.a) + Bytes(p.b);
    var none := p.a;
    var p1 := CryptPair(t, g.knL, p);
    LayerOfBlocks(t, g.knL, p.a, p.b, none);
    TradedBlocks(p1);
    var p2 := CryptPair(t, g.knR, Cross(p1));
    LayerOfBlocks(t, g.knR, Cross(p1).a, Cross(p1).b, none);
    TradedBlocks(p2);
    LayerOfBlocks(t, g.kn3, Cross(p2).a, Cross(p2).b, none);
  }

  /** And so is the three-block mode. */
  lemma D3desInLayers(t: SpTables, g: Registers, b: seq<byte>)
    requires |b| == 24
    ensures D3des(t, g, b) == Layer(t, g.kn3, Traded(Layer(t, g.knR, Traded(Layer(t, g.knL, b)))))
  {
    hide Crypt, Block, Bytes, Layer, Traded, CrossThree;
    var p := Three(Block(b[..8]), Block(b[8..16]), Block(b[16..]));
    BytesOfBlock(b[..8]);
    BytesOfBlock(b[8..16]);
    BytesOfBlock(b[16..]);
    assert b == Bytes(p.a) + Bytes(p.b) + Bytes(p.c);
    var p1 := CryptThree(t, g.knL, p);
    LayerOfBlocks(t, g.knL, p.a, p.b, p.c);
    TradedThreeBlocks(p1);
    var q1 := CrossThree(p1);
    var p2 := CryptThree(t, g.knR, q1);
    LayerOfBlocks(t, g.knR, q1.a, q1.b, q1.c);
    TradedThreeBlocks(p2);
    var q2 := CrossThree(p2);
    LayerOfBlocks(t, g.kn3, q2.a, q2.b, q2.c);
  }
}
