/** The loops of tflib/expert/tf_hash.c over a buffer. */
module MurmurLoops {
  import opened Machine
  import opened Numbers
  import opened Murmur
  import opened MurmurNumbers
  import opened MurmurSpec

  function At16(b: byte): bv32 { b as bv32 << 16 }

  function At8(b: byte): bv32 { b as bv32 << 8 }

  function At0(b: byte): bv32 { b as bv32 }

  lemma JoinByBytes(b0: byte, b1: byte, b2: byte)
    ensures Xor(At16(b2), Xor(At8(b1), At0(b0))) == Join(b0, b1, b2, 0)
    ensures Xor(At8(b1), At0(b0)) == Join(b0, b1, 0, 0)
    ensures At0(b0) == Join(b0, 0, 0, 0)
  {
  }

  lemma XorByBytes(h: bv32, b0: byte, b1: byte, b2: byte)
    ensures Xor(Xor(Xor(h, At16(b2)), At8(b1)), At0(b0)) == Xor(h, Join(b0, b1, b2, 0))
    ensures Xor(Xor(h, At8(b1)), At0(b0)) == Xor(h, Join(b0, b1, 0, 0))
    ensures Xor(h, At0(b0)) == Xor(h, Join(b0, 0, 0, 0))
  {
    hide *;
    JoinByBytes(b0, b1, b2);
    XorAssociative(h, At8(b1), At0(b0));
    XorAssociative(Xor(h, At16(b2)), At8(b1), At0(b0));
    XorAssociative(h, At16(b2), Xor(At8(b1), At0(b0)));
  }

  /** The fall-through switch on the bytes left over after the words. */
  method MixTail(h0: bv32, data: array<byte>, pos: nat, left: nat) returns (h: bv32)
    requires left < 4 && pos + left <= data.Length
    ensures h == Tail(h0, data[pos..pos + left])
  {
    hide Mul, Join, Xor, At16, At8, At0;
    h := h0;
    if left > 0 {
      XorByBytes(h, data[pos], if left > 1 then data[pos + 1] else 0, if left > 2 then data[pos + 2] else 0);
    }
    if left == 3 { h := Xor(h, At16(data[pos + 2])); }
    if left >= 2 { h := Xor(h, At8(data[pos + 1])); }
    if left >= 1 {
      h := Xor(h, At0(data[pos]));
      h := Mul(h);
    }
  }

  /** The word at data[pos..pos + 4], scrambled as both loops do before adding it to a lane. */
  method Scramble(e: Endian, data: array<byte>, pos: nat) returns (k: bv32)
    requires pos + 4 <= data.Length
    ensures k == Mix(Load(e, data[pos..pos + 4]))
  {
    hide Mul, Load, XorShift24;
    k := Load(e, data[pos..pos + 4]);
    k := Mul(k);
    k := XorShift24(k);
    k := Mul(k);
  }

  lemma Body32Unrolled(h: bv32, d: seq<byte>, pos: nat)
    requires pos + 4 <= |d|
    ensures Body32(h, d[pos..]) == Body32(Step(h, Load(Little, d[pos..pos + 4])), d[pos + 4..])
  {
    hide Step, Load;
    assert d[pos..][..4] == d[pos..pos + 4] && d[pos..][4..] == d[pos + 4..];
  }

  lemma Body32Done(h: bv32, d: seq<byte>)
    requires |d| < 4
    ensures Body32(h, d) == h
  {
  }

  /** The loop over whole words. */
  method AbsorbWords(data: array<byte>, len: nat, seed: bv32) returns (h: bv32, pos: nat, left: nat)
    requires len <= data.Length
    ensures pos == TailStart(len) && left == len - pos && h == Body32(seed, data[..len])
  {
    hide Mul, Mix, Load, Xor, Body32;
    ghost var d := data[..len];
    h, pos, left := seed, 0, len;
    assert d[0..] == d;
    while left >= 4
      invariant pos + left == len && pos % 4 == 0
      invariant Body32(h, d[pos..]) == Body32(seed, d)
    {
      Body32Unrolled(h, d, pos);
      assert d[pos..pos + 4] == data[pos..pos + 4];
      var k := Scramble(Little, data, pos);
      h := Xor(Mul(h), k);
      pos, left := pos + 4, left - 4;
    }
    Body32Done(h, d[pos..]);
  }

  method TfMurmur32Hash(data: array<byte>, len: nat) returns (h: bv32)
    requires len <= data.Length
    ensures h == Murmur32(data[..len]) && Number(h) == Hash32(data[..len])
  {
    hide Mul, XorShift15, XorShift13, Tail, Seed32, Body32, Hash32, Number;
    h := Seed32(len);
    var pos, left;
    h, pos, left := AbsorbWords(data, len, h);
    assert data[pos..pos + left] == data[..len][TailStart(len)..];
    h := MixTail(h, data, pos, left);
    h := XorShift13(h);
    h := Mul(h);
    h := XorShift15(h);
    Hash32Agrees(data[..len]);
  }

  method FinishLanes(a: bv32, b: bv32) returns (h: bv64)
    ensures h == Combine(Finish64(Lanes(a, b)))
  {
    hide Mul, Xor, Shifted, Combine;
    var h1, h2 := a, b;
    h1 := Mul(Xor(h1, Shifted(h2, 18)));
    h2 := Mul(Xor(h2, Shifted(h1, 22)));
    h1 := Mul(Xor(h1, Shifted(h2, 17)));
    h2 := Mul(Xor(h2, Shifted(h1, 19)));
    h := Combine(Lanes(h1, h2));
  }

  lemma Body64Unrolled(e: Endian, p: Lanes, d: seq<byte>, pos: nat)
    requires pos + 4 <= |d|
    ensures pos + 8 <= |d| ==>
              Body64(e, p, d[pos..]) ==
              Body64(e, Lanes(Step(p.h1, Load(e, d[pos..pos + 4])), Step(p.h2, Load(e, d[pos + 4..pos + 8]))), d[pos + 8..])
    ensures pos + 8 > |d| ==> Body64(e, p, d[pos..]) == Lanes(Step(p.h1, Load(e, d[pos..pos + 4])), p.h2)
  {
    hide Step, Load;
    assert d[pos..][..4] == d[pos..pos + 4];
    if pos + 8 <= |d| {
      assert d[pos..][4..8] == d[pos + 4..pos + 8] && d[pos..][8..] == d[pos + 8..];
    }
  }

  lemma Body64Done(e: Endian, p: Lanes, d: seq<byte>)
    requires |d| < 4
    ensures Body64(e, p, d) == p
  {
  }

  /** The loop over pairs of words. */
  method AbsorbPairs(e: Endian, data: array<byte>, len: nat, p1: bv32, p2: bv32)
    returns (h1: bv32, h2: bv32, pos: nat, left: nat)
    requires len <= data.Length
    ensures pos + left == len && pos % 4 == 0 && left < 8
    ensures Body64(e, Lanes(h1, h2), data[..len][pos..]) == Body64(e, Lanes(p1, p2), data[..len])
  {
    hide Mul, Mix, Load, Xor, Body64;
    ghost var d := data[..len];
    h1, h2, pos, left := p1, p2, 0, len;
    assert d[0..] == d;
    while left >= 8
      invariant pos + left == len && pos % 4 == 0
      invariant Body64(e, Lanes(h1, h2), d[pos..]) == Body64(e, Lanes(p1, p2), d)
    {
      Body64Unrolled(e, Lanes(h1, h2), d, pos);
      assert d[pos..pos + 4] == data[pos..pos + 4] && d[pos + 4..pos + 8] == data[pos + 4..pos + 8];
      var k1 := Scramble(e, data, pos);
      h1 := Xor(Mul(h1), k1);
      var k2 := Scramble(e, data, pos + 4);
      h2 := Xor(Mul(h2), k2);
      pos, left := pos + 8, left - 8;
    }
  }

  /** The single word that may follow the pairs. */
  method AbsorbOdd(e: Endian, data: array<byte>, len: nat, p1: bv32, p2: bv32) returns (h1: bv32, h2: bv32, pos: nat, left: nat)
    requires len <= data.Length
    ensures pos == TailStart(len) && left == len - pos
    ensures Lanes(h1, h2) == Body64(e, Lanes(p1, p2), data[..len])
  {
    hide Mul, Mix, Load, Xor, Body64;
    ghost var d := data[..len];
    h1, h2, pos, left := AbsorbPairs(e, data, len, p1, p2);
    if left < 4 {
      Body64Done(e, Lanes(h1, h2), d[pos..]);
    } else {
      Body64Unrolled(e, Lanes(h1, h2), d, pos);
      assert d[pos..pos + 4] == data[pos..pos + 4];
      var k1 := Scramble(e, data, pos);
      h1 := Xor(Mul(h1), k1);
      pos, left := pos + 4, left - 4;
    }
  }

  method TfMurmur64Hash(e: Endian, data: array<byte>, len: nat, seed: bv32) returns (h: bv64)
    requires len <= data.Length
    ensures h == Murmur64(e, data[..len], seed) && Number64(h) == Hash64(e, data[..len], Number(seed))
  {
    hide Tail, Seed64, Finish64, Combine, Body64, Hash64, Number, Number64;
    var h1, h2, pos, left := AbsorbOdd(e, data, len, Seed64(seed, len).h1, Seed64(seed, len).h2);
    assert data[pos..pos + left] == data[..len][TailStart(len)..];
    h2 := MixTail(h2, data, pos, left);
    h := FinishLanes(h1, h2);
    Hash64Agrees(e, data[..len], seed);
  }
}
