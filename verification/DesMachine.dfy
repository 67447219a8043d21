/** The entry points of tflib/expert/d3des.c: key loading into the three registers and the block calls. */
module DesMachine {
  import opened Machine
  import opened DesCipher
  import opened DesKeys
  import opened Des
  import Layers = DesLayers
  import Modes = DesModes

  /** The caller's key variable: three registers of 32 machine words. */
  class KeyVar {
    const knL: array<bv64>
    const knR: array<bv64>
    const kn3: array<bv64>

    constructor ()
      ensures Valid() && fresh(knL) && fresh(knR) && fresh(kn3)
    {
      knL := new bv64[32];
      knR := new bv64[32];
      kn3 := new bv64[32];
    }

    predicate Valid() {
      && knL.Length == 32 && knR.Length == 32 && kn3.Length == 32
      && knL != knR && knL != kn3 && knR != kn3
    }

    /** The registers as the rounds read them. */
    function Registers(): Modes.Registers
      reads knL, knR, kn3
      requires Valid()
    {
      Modes.Registers(KeysOf(knL[..]), KeysOf(knR[..]), KeysOf(kn3[..]))
    }
  }

  // ----- deskey -----

  /** First loop of deskey: PC1 picks and orders 56 of the key's bits. */
  method Permute(key: array<byte>, off: nat) returns (pc1m: array<bool>)
    requires off + 8 <= key.Length
    ensures fresh(pc1m) && pc1m[..] == Permuted(key[off..off + 8])
  {
    hide ByteBit;
    pc1m := new bool[56];
    for j := 0 to 56
      invariant forall i :: 0 <= i < j ==> pc1m[i] == KeyBit(key[off..off + 8], PC1[i])
    {
      var l := PC1[j];
      var m := l % 8;
      pc1m[j] := key[off + l / 8] & ByteBit(m) != 0;
    }
  }

  /** One iteration's rotation of both registers. */
  method Rotate(pc1m: array<bool>, turns: Turns) returns (pcr: array<bool>)
    requires pc1m.Length == 56
    ensures fresh(pcr) && pcr[..] == Rotated(pc1m[..], turns)
  {
    pcr := new bool[56];
    for j := 0 to 28
      invariant forall i :: 0 <= i < j ==> pcr[i] == pc1m[Source(i, turns)]
    {
      var l := j + turns;
      if l < 28 { pcr[j] := pc1m[l]; } else { pcr[j] := pc1m[l - 28]; }
    }
    for j := 28 to 56
      invariant forall i :: 0 <= i < j ==> pcr[i] == pc1m[Source(i, turns)]
    {
      var l := j + turns;
      if l < 56 { pcr[j] := pc1m[l]; } else { pcr[j] := pc1m[l - 28]; }
    }
  }

  /** The two raw words of one iteration, bit by bit. */
  method PlaceBits(pcr: array<bool>) returns (raw0: bv64, raw1: bv64)
    requires pcr.Length == 56
    ensures raw0 == Wide(Placed(Picked(pcr[..], false), 24))
    ensures raw1 == Wide(Placed(Picked(pcr[..], true), 24))
  {
    hide Wide, WideOr, Or, BigByte;
    ghost var p, q := Picked(pcr[..], false), Picked(pcr[..], true);
    raw0, raw1 := Wide(0), Wide(0);
    for j := 0 to 24
      invariant raw0 == Wide(Placed(p, j)) && raw1 == Wide(Placed(q, j))
    {
      OrOfWide(Placed(p, j), BigByte(j));
      OrOfWide(Placed(q, j), BigByte(j));
      if pcr[PC2[j]] { raw0 := WideOr(raw0, Wide(BigByte(j))); }
      if pcr[PC2[j + 24]] { raw1 := WideOr(raw1, Wide(BigByte(j))); }
    }
  }

  /** Where iteration i's pair of words goes. */
  function Slot(i: nat, edf: Mode): (s: nat)
    requires i < 16
    ensures s < 16
  {
    if edf == DE1 then 15 - i else i
  }

  /** Slot s holds iteration j's two raw words. */
  ghost predicate RawAt(words: seq<bv64>, s: nat, k: seq<byte>, j: nat)
    requires |words| == 32 && s < 16 && |k| == 8 && j < 16
  {
    words[2 * s] == Wide(Raw(k, j, false)) && words[2 * s + 1] == Wide(Raw(k, j, true))
  }

  method Iterate(pc1m: array<bool>, kn: array<bv64>, i: nat, edf: Mode, ghost k: seq<byte>)
    requires i < 16 && kn.Length == 32 && |k| == 8 && pc1m.Length == 56 && pc1m[..] == Permuted(k)
    modifies kn
    ensures RawAt(kn[..], Slot(i, edf), k, i)
    ensures forall x :: 0 <= x < 32 && x / 2 != Slot(i, edf) ==> kn[x] == old(kn[x])
  {
    hide Wide, Placed, Permuted, Rotated, Picked;
    var m := 2 * Slot(i, edf);
    var pcr := Rotate(pc1m, TOTROT[i]);
    kn[m], kn[m + 1] := PlaceBits(pcr);
  }

  method Deskey(key: array<byte>, off: nat, edf: Mode, kv: KeyVar)
    requires kv.Valid() && off + 8 <= key.Length
    modifies kv.knL
    ensures KeysOf(kv.knL[..]) == Schedule(key[off..off + 8], edf)
  {
    hide Wide, Raw, Permuted, KeysOf, Schedule, RawAt;
    ghost var k := key[off..off + 8];
    var pc1m := Permute(key, off);
    var kn := new bv64[32];
    for i := 0 to 16
      invariant pc1m[..] == Permuted(k)
      invariant forall j :: 0 <= j < i ==> RawAt(kn[..], Slot(j, edf), k, j)
    {
      ghost var before := kn[..];
      Iterate(pc1m, kn, i, edf, k);
      forall j | 0 <= j < i
        ensures RawAt(kn[..], Slot(j, edf), k, j)
      {
        RawStays(before, kn[..], Slot(j, edf), k, j);
      }
    }
    forall s | 0 <= s < 16
      ensures RawAt(kn[..], s, k, Slot(s, edf))
    {
      assert Slot(Slot(s, edf), edf) == s;
    }
    Cookey(kn, kv, k, edf);
  }

  lemma RawStays(u: seq<bv64>, v: seq<bv64>, s: nat, k: seq<byte>, j: nat)
    requires |u| == |v| == 32 && s < 16 && |k| == 8 && j < 16
    requires RawAt(u, s, k, j) && v[2 * s] == u[2 * s] && v[2 * s + 1] == u[2 * s + 1]
    ensures RawAt(v, s, k, j)
  {
  }

  // ----- cookey -----

  function WideCookEven(raw0: bv64, raw1: bv64): bv64 {
    ((raw0 & 0x00fc0000) << 6) | ((raw0 & 0x00000fc0) << 10) |
    ((raw1 & 0x00fc0000) >> 10) | ((raw1 & 0x00000fc0) >> 6)
  }

  function WideCookOdd(raw0: bv64, raw1: bv64): bv64 {
    ((raw0 & 0x0003f000) << 12) | ((raw0 & 0x0000003f) << 16) |
    ((raw1 & 0x0003f000) >> 4) | (raw1 & 0x0000003f)
  }

  lemma CookEvenOfWide(a: bv32, b: bv32)
    ensures Low(WideCookEven(Wide(a), Wide(b))) == CookEven(a, b)
  {
  }

  lemma CookOddOfWide(a: bv32, b: bv32)
    ensures Low(WideCookOdd(Wide(a), Wide(b))) == CookOdd(a, b)
  {
  }

  /** The pair of cooked words at slot i is the given round key. */
  ghost predicate CookedAt(words: seq<bv64>, i: nat, rk: RoundKey)
    requires |words| == 32 && i < 16
  {
    RoundKey(Low(words[2 * i]), Low(words[2 * i + 1])) == rk
  }

  method CookPair(raw: array<bv64>, dough: array<bv64>, i: nat, ghost k: seq<byte>, ghost j: nat)
    requires raw.Length == dough.Length == 32 && raw != dough && i < 16 && |k| == 8 && j < 16
    requires RawAt(raw[..], i, k, j)
    modifies dough
    ensures CookedAt(dough[..], i, Cooked(k, j))
    ensures forall x :: 0 <= x < 32 && x / 2 != i ==> dough[x] == old(dough[x])
  {
    hide Wide, Raw, WideCookEven, WideCookOdd, CookEven, CookOdd, Low;
    CookEvenOfWide(Raw(k, j, false), Raw(k, j, true));
    CookOddOfWide(Raw(k, j, false), Raw(k, j, true));
    dough[2 * i] := WideCookEven(raw[2 * i], raw[2 * i + 1]);
    dough[2 * i + 1] := WideCookOdd(raw[2 * i], raw[2 * i + 1]);
  }

  method Cookey(raw: array<bv64>, kv: KeyVar, ghost k: seq<byte>, ghost edf: Mode)
    requires kv.Valid() && raw.Length == 32 && |k| == 8
    requires forall i :: 0 <= i < 16 ==> RawAt(raw[..], i, k, Slot(i, edf))
    modifies kv.knL
    ensures KeysOf(kv.knL[..]) == Schedule(k, edf)
  {
    hide Cooked, RawAt, Low;
    var dough := new bv64[32];
    for i := 0 to 16
      invariant raw[..] == old(raw[..])
      invariant forall j :: 0 <= j < i ==> CookedAt(dough[..], j, Cooked(k, Slot(j, edf)))
    {
      ghost var before := dough[..];
      CookPair(raw, dough, i, k, Slot(i, edf));
      forall j | 0 <= j < i
        ensures CookedAt(dough[..], j, Cooked(k, Slot(j, edf)))
      {
        assert dough[..][2 * j] == before[2 * j] && dough[..][2 * j + 1] == before[2 * j + 1];
      }
    }
    CopyWords(dough, 0, kv.knL, 0);
    assert kv.knL[..] == kv.knL[0..32] == dough[0..32] == dough[..];
    forall i | 0 <= i < 16
      ensures KeysOf(dough[..])[i] == Schedule(k, edf)[i]
    {
      assert CookedAt(dough[..], i, Cooked(k, Slot(i, edf)));
    }
  }

  /** The word-copying loop of usekey, cpkey and their multi-register forms. */
  method CopyWords(from: array<bv64>, fromOff: nat, into: array<bv64>, intoOff: nat)
    requires fromOff + 32 <= from.Length && intoOff + 32 <= into.Length && from != into
    modifies into
    ensures into[intoOff..intoOff + 32] == old(from[fromOff..fromOff + 32])
    ensures into[..intoOff] == old(into[..intoOff]) && into[intoOff + 32..] == old(into[intoOff + 32..])
  {
    for i := 0 to 32
      invariant into[..intoOff] == old(into[..intoOff]) && into[intoOff + 32..] == old(into[intoOff + 32..])
      invariant into[intoOff..intoOff + i] == from[fromOff..fromOff + i]
    {
      into[intoOff + i] := from[fromOff + i];
    }
  }

  // ----- moving whole schedules -----

  method Cpkey(into: array<bv64>, kv: KeyVar)
    requires kv.Valid() && into.Length == 32 && into != kv.knL
    modifies into
    ensures into[..] == kv.knL[..]
  {
    CopyWords(kv.knL, 0, into, 0);
    assert into[..] == into[0..32] && kv.knL[..] == kv.knL[0..32];
  }

  method Usekey(from: array<bv64>, kv: KeyVar)
    requires kv.Valid() && from.Length == 32 && from != kv.knL
    modifies kv.knL
    ensures kv.knL[..] == from[..]
  {
    CopyWords(from, 0, kv.knL, 0);
    assert kv.knL[..] == kv.knL[0..32] && from[..] == from[0..32];
  }

  /** The 96 words of all three registers, in the order cp3key lays them out. */
  function AllWords(kv: KeyVar): (w: seq<bv64>)
    requires kv.Valid()
    reads kv.knL, kv.knR, kv.kn3
    ensures |w| == 96
  {
    kv.knL[..] + kv.knR[..] + kv.kn3[..]
  }

  method Cp3key(into: array<bv64>, kv: KeyVar)
    requires kv.Valid() && into.Length == 96
    modifies into
    ensures into[..] == AllWords(kv)
  {
    CopyWords(kv.knL, 0, into, 0);
    ghost var one := into[0..32];
    CopyWords(kv.knR, 0, into, 32);
    assert into[0..32] == into[..32] == one;
    ghost var two := into[32..64];
    CopyWords(kv.kn3, 0, into, 64);
    assert into[..64] == one + two;
    assert into[..] == into[..64] + into[64..96];
    assert one == kv.knL[..] && two == kv.knR[..] && into[64..96] == kv.kn3[..];
  }

  method Use3key(from: array<bv64>, kv: KeyVar)
    requires kv.Valid() && from.Length == 96
    modifies kv.knL, kv.knR, kv.kn3
    ensures AllWords(kv) == from[..]
  {
    CopyWords(from, 0, kv.knL, 0);
    CopyWords(from, 32, kv.knR, 0);
    CopyWords(from, 64, kv.kn3, 0);
    assert kv.knL[..] == kv.knL[0..32] == from[0..32];
    assert kv.knR[..] == kv.knR[0..32] == from[32..64];
    assert kv.kn3[..] == kv.kn3[0..32] == from[64..96];
    assert from[..] == from[0..32] + from[32..64] + from[64..96];
  }

  method Des2key(hexkey: array<byte>, mode: Mode, kv: KeyVar)
    requires kv.Valid() && hexkey.Length == 16
    modifies kv.knL, kv.knR, kv.kn3
    ensures kv.Registers() == Modes.DesKey2(hexkey[..], mode)
  {
    hide KeysOf, Schedule;
    Deskey(hexkey, 8, Opposite(mode), kv);
    Cpkey(kv.knR, kv);
    Deskey(hexkey, 0, mode, kv);
    Cpkey(kv.kn3, kv);
    assert hexkey[0..8] == hexkey[..][..8] && hexkey[8..16] == hexkey[..][8..];
  }

  method Des3key(hexkey: array<byte>, mode: Mode, kv: KeyVar)
    requires kv.Valid() && hexkey.Length == 24
    modifies kv.knL, kv.knR, kv.kn3
    ensures kv.Registers() == Modes.DesKey3(hexkey[..], mode)
  {
    hide KeysOf, Schedule;
    var revmod, first, third;
    if mode == EN0 {
      revmod, first, third := DE1, 0, 16;
    } else {
      revmod, first, third := EN0, 16, 0;
    }
    LoadThree(hexkey, revmod, first, third, mode, kv);
    assert hexkey[0..8] == hexkey[..][..8] && hexkey[8..16] == hexkey[..][8..16] && hexkey[16..24] == hexkey[..][16..];
  }

  /** The five calls of des3key. */
  method LoadThree(hexkey: array<byte>, revmod: Mode, first: nat, third: nat, mode: Mode, kv: KeyVar)
    requires kv.Valid() && hexkey.Length == 24 && first + 8 <= 24 && third + 8 <= 24
    modifies kv.knL, kv.knR, kv.kn3
    ensures kv.Registers() == Modes.Registers(Schedule(hexkey[first..first + 8], mode), Schedule(hexkey[8..16], revmod),
                                              Schedule(hexkey[third..third + 8], mode))
  {
    hide KeysOf, Schedule;
    Deskey(hexkey, 8, revmod, kv);
    Cpkey(kv.knR, kv);
    Deskey(hexkey, third, mode, kv);
    Cpkey(kv.kn3, kv);
    Deskey(hexkey, first, mode, kv);
  }

  // ----- blocks in and out -----

  function BigEndianWord(b0: byte, b1: byte, b2: byte, b3: byte): bv64 {
    ((b0 as bv64 & 0xff) << 24) | ((b1 as bv64 & 0xff) << 16) | ((b2 as bv64 & 0xff) << 8) | (b3 as bv64 & 0xff)
  }

  lemma BigEndianJoins(b0: byte, b1: byte, b2: byte, b3: byte)
    ensures Low(BigEndianWord(b0, b1, b2, b3)) == Join(b3, b2, b1, b0)
  {
  }

  lemma BigEndianIsClean(b0: byte, b1: byte, b2: byte, b3: byte)
    ensures Clean(BigEndianWord(b0, b1, b2, b3))
  {
  }

  method ScrunchWord(outof: array<byte>, off: nat) returns (w: bv64)
    requires off + 4 <= outof.Length
    ensures Low(w) == Load(Big, outof[off..off + 4]) && Clean(w)
  {
    hide Low, Join, BigEndianWord, Clean;
    BigEndianIsClean(outof[off], outof[off + 1], outof[off + 2], outof[off + 3]);
    BigEndianJoins(outof[off], outof[off + 1], outof[off + 2], outof[off + 3]);
    w := BigEndianWord(outof[off], outof[off + 1], outof[off + 2], outof[off + 3]);
  }

  method Scrunch(outof: array<byte>, off: nat) returns (into: array<bv64>)
    requires off + 8 <= outof.Length
    ensures fresh(into) && into.Length == 2
    ensures BlockOf(into[..]) == Modes.Block(outof[off..off + 8])
    ensures Clean(into[0]) && Clean(into[1])
  {
    hide Low, Load, Clean;
    into := new bv64[2];
    into[0] := ScrunchWord(outof, off);
    into[1] := ScrunchWord(outof, off + 4);
    assert outof[off..off + 8][..4] == outof[off..off + 4] && outof[off..off + 8][4..] == outof[off + 4..off + 8];
  }

  lemma BytesOfLow(w: bv64)
    ensures ((w >> 24) & 0xff) as byte == Byte3(Low(w))
    ensures ((w >> 16) & 0xff) as byte == Byte2(Low(w))
    ensures ((w >> 8) & 0xff) as byte == Byte1(Low(w))
    ensures (w & 0xff) as byte == Byte0(Low(w))
  {
  }

  method UnscrunWord(w: bv64, into: array<byte>, off: nat)
    requires off + 4 <= into.Length
    modifies into
    ensures into[..] == old(into[..off]) + Store(Big, Low(w)) + old(into[off + 4..])
  {
    hide Low, Byte0, Byte1, Byte2, Byte3;
    BytesOfLow(w);
    into[off] := ((w >> 24) & 0xff) as byte;
    into[off + 1] := ((w >> 16) & 0xff) as byte;
    into[off + 2] := ((w >> 8) & 0xff) as byte;
    into[off + 3] := (w & 0xff) as byte;
  }

  method Unscrun(outof: array<bv64>, into: array<byte>, off: nat)
    requires outof.Length == 2 && off + 8 <= into.Length
    modifies into
    ensures into[..] == old(into[..off]) + Modes.Bytes(BlockOf(outof[..])) + old(into[off + 8..])
  {
    hide Low, Store;
    ghost var b := into[..];
    UnscrunWord(outof[0], into, off);
    ghost var c := into[..];
    assert c[..off + 4] == b[..off] + Store(Big, Low(outof[0])) && c[off + 8..] == b[off + 8..];
    UnscrunWord(outof[1], into, off + 4);
  }

  // ----- the block calls; `from` and `into` may be the same buffer -----

  method DesBlock(t: SpTables, from: array<byte>, into: array<byte>, kv: KeyVar)
    requires kv.Valid() && from.Length >= 8 && into.Length >= 8
    modifies into
    ensures into[..] == Modes.Des(t, KeysOf(kv.knL[..]), old(from[..8])) + old(into[8..])
  {
    hide KeysOf, Crypt, BlockOf;
    var work := Scrunch(from, 0);
    Desfunc(t, work, kv.knL);
    Unscrun(work, into, 0);
    assert from[0..8] == from[..8];
  }

  method DdesBlock(t: SpTables, from: array<byte>, into: array<byte>, kv: KeyVar)
    requires kv.Valid() && from.Length >= 8 && into.Length >= 8
    modifies into
    ensures into[..] == Modes.Ddes(t, kv.Registers(), old(from[..8])) + old(into[8..])
  {
    hide KeysOf, Crypt, BlockOf;
    var work := Scrunch(from, 0);
    Desfunc(t, work, kv.knL);
    Desfunc(t, work, kv.knR);
    Desfunc(t, work, kv.kn3);
    Unscrun(work, into, 0);
  }

  /** Two neighbouring blocks trade the words that touch, junk and all. */
  method TradeWords(a: array<bv64>, b: array<bv64>)
    requires a.Length == b.Length == 2 && a != b
    modifies a, b
    ensures BlockOf(a[..]) == Halves(old(BlockOf(a[..])).l, old(BlockOf(b[..])).l)
    ensures BlockOf(b[..]) == Halves(old(BlockOf(a[..])).r, old(BlockOf(b[..])).r)
  {
    hide Low;
    var swap := a[1];
    a[1] := b[0];
    b[0] := swap;
  }

  method DesfuncTwo(t: SpTables, a: array<bv64>, b: array<bv64>, keys: array<bv64>)
    requires a.Length == b.Length == 2 && keys.Length == 32 && a != b && a != keys && b != keys
    modifies a, b
    ensures BlockOf(a[..]) == Crypt(t, KeysOf(keys[..]), old(BlockOf(a[..])))
    ensures BlockOf(b[..]) == Crypt(t, KeysOf(keys[..]), old(BlockOf(b[..])))
  {
    hide KeysOf, Crypt, BlockOf;
    Desfunc(t, a, keys);
    Desfunc(t, b, keys);
  }

  method D2desBlocks(t: SpTables, from: array<byte>, into: array<byte>, kv: KeyVar)
    requires kv.Valid() && from.Length >= 16 && into.Length >= 16
    modifies into
    ensures into[..] == Modes.D2des(t, kv.Registers(), old(from[..16])) + old(into[16..])
  {
    hide KeysOf, Crypt, BlockOf, Modes.Bytes, Modes.Block;
    ghost var b, rest := from[..16], into[16..];
    assert b[..8] == from[0..8] && b[8..] == from[8..16];
    var leftt := Scrunch(from, 0);
    var right := Scrunch(from, 8);
    DesfuncTwo(t, leftt, right, kv.knL);
    TradeWords(leftt, right);
    DesfuncTwo(t, leftt, right, kv.knR);
    TradeWords(leftt, right);
    DesfuncTwo(t, leftt, right, kv.kn3);
    StoreTwo(leftt, right, into);
  }

  method StoreTwo(a: array<bv64>, b: array<bv64>, into: array<byte>)
    requires a.Length == b.Length == 2 && into.Length >= 16
    modifies into
    ensures into[..] == Modes.Bytes(BlockOf(a[..])) + Modes.Bytes(BlockOf(b[..])) + old(into[16..])
  {
    hide BlockOf, Modes.Bytes;
    Unscrun(a, into, 0);
    assert into[..8] == Modes.Bytes(BlockOf(a[..])) && into[16..] == old(into[16..]);
    Unscrun(b, into, 8);
  }

  function ThreeOf(a: seq<bv64>, b: seq<bv64>, c: seq<bv64>): Modes.Three
    requires |a| == |b| == |c| == 2
  {
    Modes.Three(BlockOf(a), BlockOf(b), BlockOf(c))
  }

  method DesfuncThree(t: SpTables, a: array<bv64>, b: array<bv64>, c: array<bv64>, keys: array<bv64>)
    requires a.Length == b.Length == c.Length == 2 && keys.Length == 32
    requires a != b && a != c && b != c && a != keys && b != keys && c != keys
    modifies a, b, c
    ensures ThreeOf(a[..], b[..], c[..]) == Modes.CryptThree(t, KeysOf(keys[..]), old(ThreeOf(a[..], b[..], c[..])))
  {
    hide KeysOf, Crypt, BlockOf;
    Desfunc(t, a, keys);
    Desfunc(t, b, keys);
    Desfunc(t, c, keys);
  }

  method TradeThree(a: array<bv64>, b: array<bv64>, c: array<bv64>)
    requires a.Length == b.Length == c.Length == 2 && a != b && a != c && b != c
    modifies a, b, c
    ensures ThreeOf(a[..], b[..], c[..]) == Modes.CrossThree(old(ThreeOf(a[..], b[..], c[..])))
  {
    hide BlockOf;
    TradeWords(a, b);
    TradeWords(b, c);
  }

  method D3desBlocks(t: SpTables, from: array<byte>, into: array<byte>, kv: KeyVar)
    requires kv.Valid() && from.Length >= 24 && into.Length >= 24
    modifies into
    ensures into[..] == Modes.D3des(t, kv.Registers(), old(from[..24])) + old(into[24..])
  {
    hide KeysOf, BlockOf, Modes.Bytes, Modes.Block, Modes.CryptThree, Modes.CrossThree;
    ghost var b := from[..24];
    assert b[..8] == from[0..8] && b[8..16] == from[8..16] && b[16..] == from[16..24];
    var leftt := Scrunch(from, 0);
    var middl := Scrunch(from, 8);
    var right := Scrunch(from, 16);
    DesfuncThree(t, leftt, middl, right, kv.knL);
    TradeThree(leftt, middl, right);
    DesfuncThree(t, leftt, middl, right, kv.knR);
    TradeThree(leftt, middl, right);
    DesfuncThree(t, leftt, middl, right, kv.kn3);
    StoreTwo(leftt, middl, into);
    assert into[16..] == old(into[16..]);
    assert into[24..] == into[16..][8..] && old(into[24..]) == old(into[16..])[8..];
    Unscrun(right, into, 16);
  }

  // ----- makekey, make2key and make3key: hashing a password into a key -----

  const DF_KEY: seq<byte> := [
    0x01, 0x23, 0x45, 0x67, 0x89, 0xab, 0xcd, 0xef,
    0xfe, 0xdc, 0xba, 0x98, 0x76, 0x54, 0x32, 0x10,
    0x89, 0xab, 0xcd, 0xef, 0x01, 0x23, 0x45, 0x67]

  type KeySize = n: nat | n == 8 || n == 16 || n == 24 witness 8

  /** The fixed key each form enciphers under. */
  function HashRegisters(size: KeySize): Modes.Registers {
    if size == 24 then Modes.DesKey3(DF_KEY, EN0) else Modes.DesKey2(DF_KEY[..16], EN0)
  }

  function HashBlock(t: SpTables, size: KeySize, b: seq<byte>): (r: seq<byte>)
    requires |b| == size
    ensures |r| == size
  {
    if size == 8 then Modes.Ddes(t, HashRegisters(size), b)
    else if size == 16 then Modes.D2des(t, HashRegisters(size), b)
    else Modes.D3des(t, HashRegisters(size), b)
  }

  /** The low seven bits of each character are added to the front of the key. */
  function Absorbed(key: seq<byte>, chunk: seq<byte>): (r: seq<byte>)
    requires |chunk| <= |key|
    ensures |r| == |key|
    ensures forall i :: 0 <= i < |key| ==> r[i] == if i < |chunk| then key[i] ^ (chunk[i] & 0x7f) else key[i]
  {
    seq(|key|, i requires 0 <= i < |key| => if i < |chunk| then key[i] ^ (chunk[i] & 0x7f) else key[i])
  }

  /** At least one block, even for the empty password; then a block per `size` characters. */
  function Hashed(t: SpTables, size: KeySize, key: seq<byte>, password: seq<byte>): (r: seq<byte>)
    requires |key| == size
    ensures |r| == size
    decreases |password|
  {
    var n := if |password| < size then |password| else size;
    var next := HashBlock(t, size, Absorbed(key, password[..n]));
    if |password| == n then next else Hashed(t, size, next, password[n..])
  }

  /** A password of up to eight characters: its low seven bits, added to the fixed key, are enciphered, deciphered and
      enciphered under the two halves of the longer fixed key. */
  lemma ShortPassword(t: SpTables, password: seq<byte>)
    requires |password| <= 8
    ensures var k1: seq<byte> := [0x01, 0x23, 0x45, 0x67, 0x89, 0xab, 0xcd, 0xef];
            var k2: seq<byte> := [0xfe, 0xdc, 0xba, 0x98, 0x76, 0x54, 0x32, 0x10];
            Hashed(t, 8, k1, password)
            == Modes.Des(t, Schedule(k1, EN0), Modes.Des(t, Schedule(k2, DE1),
                         Modes.Des(t, Schedule(k1, EN0), Absorbed(k1, password))))
  {
    var k1: seq<byte> := [0x01, 0x23, 0x45, 0x67, 0x89, 0xab, 0xcd, 0xef];
    var k2: seq<byte> := [0xfe, 0xdc, 0xba, 0x98, 0x76, 0x54, 0x32, 0x10];
    assert DF_KEY[..16] == k1 + k2;
    assert password[..|password|] == password;
    hide Absorbed, Schedule, Modes.Ddes, Modes.Des, Modes.DesKey2;
    Layers.DoubleKeyOrder(t, k1, k2, EN0, Absorbed(k1, password));
  }

  lemma ChunksLeft(n: nat, size: KeySize)
    requires n > 0 && n % size == 0
    ensures n >= size && (n - size) % size == 0
  {
    if size == 8 {
      assert (n - 8) % 8 == 0;
    } else if size == 16 {
      assert (n - 16) % 16 == 0;
    } else {
      assert (n - 24) % 24 == 0;
    }
  }

  /** A password is hashed chunk by chunk: what comes after whole chunks is hashed into what they gave. */
  lemma {:induction false} HashedInChunks(t: SpTables, size: KeySize, key: seq<byte>, p: seq<byte>, q: seq<byte>)
    requires |key| == size && p != [] && |p| % size == 0 && q != []
    ensures Hashed(t, size, key, p + q) == Hashed(t, size, Hashed(t, size, key, p), q)
    decreases |p|
  {
    hide HashBlock, Absorbed;
    ChunksLeft(|p|, size);
    assert (p + q)[..size] == p[..size] && (p + q)[size..] == p[size..] + q;
    if |p| > size {
      HashedInChunks(t, size, HashBlock(t, size, Absorbed(key, p[..size])), p[size..], q);
    } else {
      assert p[..size] == p && p[size..] + q == q;
    }
  }

  method LoadHashKey(size: KeySize, kv: KeyVar)
    requires kv.Valid()
    modifies kv.knL, kv.knR, kv.kn3
    ensures kv.Registers() == HashRegisters(size)
  {
    hide KeysOf, Schedule;
    if size == 24 {
      var k := new byte[24](i requires 0 <= i < 24 => DF_KEY[i]);
      assert k[..] == DF_KEY;
      Des3key(k, EN0, kv);
    } else {
      var k := new byte[16](i requires 0 <= i < 16 => DF_KEY[i]);
      assert k[..] == DF_KEY[..16];
      Des2key(k, EN0, kv);
    }
  }

  method CryptInPlace(t: SpTables, size: KeySize, kptr: array<byte>, kv: KeyVar)
    requires kv.Valid() && kptr.Length == size && kv.Registers() == HashRegisters(size)
    modifies kptr
    ensures kptr[..] == HashBlock(t, size, old(kptr[..]))
  {
    hide HashRegisters, KeysOf, Modes.Ddes, Modes.D2des, Modes.D3des;
    ghost var b := kptr[..];
    assert b == b[..size] == kptr[..size];
    if size == 8 {
      DdesBlock(t, kptr, kptr, kv);
    } else if size == 16 {
      D2desBlocks(t, kptr, kptr, kv);
    } else {
      D3desBlocks(t, kptr, kptr, kv);
    }
  }

  /** One pass of the inner loop: absorb up to `size` characters, wiping each one. */
  method AbsorbChunk(aptr: array<byte>, pos: nat, kptr: array<byte>, size: KeySize, ghost len: nat) returns (next: nat)
    requires kptr.Length == size && aptr != kptr && pos <= len < aptr.Length
    requires aptr[len] == 0 && forall i :: pos <= i < len ==> aptr[i] != 0
    modifies aptr, kptr
    ensures next == if len - pos < size then len else pos + size
    ensures kptr[..] == Absorbed(old(kptr[..]), old(aptr[pos..next]))
    ensures forall i :: 0 <= i < aptr.Length ==> aptr[i] == if pos <= i < next then 0 else old(aptr[i])
  {
    var i := 0;
    next := pos;
    while i < size && aptr[next] != 0
      invariant i <= size && next == pos + i <= len
      invariant forall j :: 0 <= j < size ==>
                  kptr[j] == if j < i then old(kptr[j]) ^ (old(aptr[pos + j]) & 0x7f) else old(kptr[j])
      invariant forall j :: 0 <= j < aptr.Length ==> aptr[j] == if pos <= j < next then 0 else old(aptr[j])
    {
      kptr[i] := kptr[i] ^ (aptr[next] & 0x7f);
      aptr[next] := 0;
      i, next := i + 1, next + 1;
    }
  }

  method StartKey(kptr: array<byte>, size: KeySize)
    requires kptr.Length == size
    modifies kptr
    ensures kptr[..] == DF_KEY[..size]
  {
    for i := 0 to size
      invariant kptr[..i] == DF_KEY[..i]
    {
      kptr[i] := DF_KEY[i];
    }
    assert kptr[..] == kptr[..size];
  }

  lemma HashedUnrolled(t: SpTables, size: KeySize, key: seq<byte>, password: seq<byte>, pos: nat, next: nat)
    requires |key| == size && pos <= next <= |password|
    requires next == if |password| - pos < size then |password| else pos + size
    ensures var k := HashBlock(t, size, Absorbed(key, password[pos..next]));
            Hashed(t, size, key, password[pos..]) ==
            if next == |password| then k else Hashed(t, size, k, password[next..])
  {
    hide HashBlock, Absorbed;
    var rest := password[pos..];
    assert rest[..next - pos] == password[pos..next] && rest[next - pos..] == password[next..];
  }

  /** One round of the outer loop: a chunk of the password goes into the key, which is enciphered. */
  method HashChunk(t: SpTables, aptr: array<byte>, pos: nat, kptr: array<byte>, size: KeySize, kv: KeyVar,
                   ghost password: seq<byte>) returns (next: nat)
    requires kv.Valid() && kptr.Length == size && aptr != kptr && kv.Registers() == HashRegisters(size)
    requires pos <= |password| < aptr.Length && aptr[|password|] == 0
    requires forall i :: pos <= i < |password| ==> aptr[i] == password[i] != 0
    modifies aptr, kptr
    ensures pos <= next <= |password| && (pos < |password| ==> pos < next)
    ensures forall i :: 0 <= i < aptr.Length ==> aptr[i] == if pos <= i < next then 0 else old(aptr[i])
    ensures Hashed(t, size, old(kptr[..]), password[pos..])
            == if next == |password| then kptr[..] else Hashed(t, size, kptr[..], password[next..])
  {
    hide HashRegisters, HashBlock, Absorbed, Hashed, KeysOf;
    ghost var key, now := kptr[..], aptr[..];
    next := AbsorbChunk(aptr, pos, kptr, size, |password|);
    assert now[pos..next] == password[pos..next] by {
      forall i | pos <= i < next ensures now[i] == password[i] {}
    }
    HashedUnrolled(t, size, key, password, pos, next);
    CryptInPlace(t, size, kptr, kv);
  }

  /** The key registers come back as they were and the password is wiped. */
  method MakeKey(t: SpTables, aptr: array<byte>, kptr: array<byte>, size: KeySize, kv: KeyVar, ghost len: nat)
    requires kv.Valid() && kptr.Length == size && aptr != kptr
    requires len < aptr.Length && aptr[len] == 0 && forall i :: 0 <= i < len ==> aptr[i] != 0
    modifies aptr, kptr, kv.knL, kv.knR, kv.kn3
    ensures AllWords(kv) == old(AllWords(kv))
    ensures kptr[..] == Hashed(t, size, DF_KEY[..size], old(aptr[..len]))
    ensures forall i :: 0 <= i < aptr.Length ==> aptr[i] == if i < len then 0 else old(aptr[i])
  {
    hide HashRegisters, HashBlock, Absorbed, Hashed, KeysOf;
    var savek := new bv64[96];
    Cp3key(savek, kv);
    LoadHashKey(size, kv);
    StartKey(kptr, size);
    ghost var password := aptr[..len];
    var first, pos := true, 0;
    while aptr[pos] != 0 || first
      invariant pos <= len && aptr[len] == 0 && forall i :: pos <= i < len ==> aptr[i] == old(aptr[i]) != 0
      invariant forall i :: 0 <= i < aptr.Length ==> aptr[i] == if i < pos then 0 else old(aptr[i])
      invariant savek[..] == old(AllWords(kv)) && kv.Registers() == HashRegisters(size)
      invariant if first || pos < len
                then Hashed(t, size, kptr[..], password[pos..]) == Hashed(t, size, DF_KEY[..size], password)
                else kptr[..] == Hashed(t, size, DF_KEY[..size], password)
      decreases len - pos, first
    {
      var next := HashChunk(t, aptr, pos, kptr, size, kv, password);
      first, pos := false, next;
    }
    Use3key(savek, kv);
  }
}
