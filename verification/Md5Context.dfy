/** The incremental side of tflib/expert/md5.c: MD5Init, MD5Update and MD5Final on either byte order. */
module Md5Context {
  import opened Machine
  import opened Md5Spec
  import opened Md5

  type uint32 = n: nat | n < WORD

  const WORD := 0x1_0000_0000

  // ----- byteReverse and the word view of a byte buffer -----

  /** The buffer read as native words. */
  function NativeWords(e: Endian, b: seq<byte>): (x: seq<bv32>)
    requires |b| == 64
    ensures |x| == 16
    ensures forall i :: 0 <= i < 16 ==> x[i] == Load(e, b[4 * i..4 * i + 4])
  {
    seq(16, i requires 0 <= i < 16 => Load(e, b[4 * i..4 * i + 4]))
  }

  /** A native read of each of the first `longs` words yields the little-endian value it had before. */
  ghost predicate Reversed(e: Endian, before: seq<byte>, after: seq<byte>, longs: nat) {
    |before| == |after| >= 4 * longs
    && forall i :: 0 <= i < longs ==> Load(e, after[4 * i..4 * i + 4]) == Load(Little, before[4 * i..4 * i + 4])
  }

  method ByteReverse(e: Endian, buf: array<byte>, longs: nat)
    requires 4 * longs <= buf.Length
    modifies buf
    ensures Reversed(e, old(buf[..]), buf[..], longs)
    ensures buf[4 * longs..] == old(buf[4 * longs..])
  {
    hide Load, Store;
    ghost var was := buf[..];
    for k := 0 to longs
      invariant Reversed(e, was, buf[..], k) && buf[4 * k..] == was[4 * k..]
    {
      ghost var before := buf[..];
      assert buf[4 * k..4 * k + 4] == before[4 * k..][..4] == was[4 * k..4 * k + 4];
      var t := Load(Little, buf[4 * k..4 * k + 4]);
      StoreNative(e, buf, 4 * k, t);
      ReversedNext(e, was, before, k);
      assert buf[4 * k + 4..] == before[4 * k..][4..];
    }
  }

  lemma ReversedNext(e: Endian, was: seq<byte>, before: seq<byte>, k: nat)
    requires |was| >= 4 * k + 4 && Reversed(e, was, before, k)
    ensures Reversed(e, was, Stored(before, 4 * k, Store(e, Load(Little, was[4 * k..4 * k + 4]))), k + 1)
  {
    hide Load, Store;
    var t := Load(Little, was[4 * k..4 * k + 4]);
    var after := Stored(before, 4 * k, Store(e, t));
    LoadStore(e, t);
    forall i | 0 <= i < k + 1
      ensures Load(e, after[4 * i..4 * i + 4]) == Load(Little, was[4 * i..4 * i + 4])
    {
      if i < k {
        assert after[4 * i..4 * i + 4] == before[4 * i..4 * i + 4];
      } else {
        assert after[4 * k..4 * k + 4] == Store(e, t);
      }
    }
  }

  function Stored(buf: seq<byte>, off: nat, word: seq<byte>): (r: seq<byte>)
    requires off + 4 <= |buf| && |word| == 4
    ensures |r| == |buf|
  {
    buf[..off] + word + buf[off + 4..]
  }

  method StoreNative(e: Endian, buf: array<byte>, off: nat, w: bv32)
    requires off + 4 <= buf.Length
    modifies buf
    ensures buf[..] == Stored(old(buf[..]), off, Store(e, w))
  {
    hide Store;
    var b := Store(e, w);
    buf[off], buf[off + 1], buf[off + 2], buf[off + 3] := b[0], b[1], b[2], b[3];
  }

  lemma WithinPrefix(b: seq<byte>, i: nat)
    requires i + 4 <= 56 <= |b|
    ensures b[i..i + 4] == b[..56][i..i + 4]
  {
  }

  /** The reversed head and the counter stored natively read as the words of the last block. */
  lemma LastWords(e: Endian, start: seq<byte>, b: seq<byte>, last: seq<byte>, lo: bv32, hi: bv32)
    requires |start| == |b| == |last| == 64 && Reversed(e, start, b, 14) && start[..56] == last[..56]
    requires last[56..60] == Store(Little, lo) && last[60..64] == Store(Little, hi)
    ensures NativeWords(e, Stored(Stored(b, 56, Store(e, lo)), 60, Store(e, hi))) == Words(last)
  {
    hide Load, Store;
    var now := Stored(Stored(b, 56, Store(e, lo)), 60, Store(e, hi));
    LoadStore(e, lo);
    LoadStore(e, hi);
    LoadStore(Little, lo);
    LoadStore(Little, hi);
    forall i | 0 <= i < 16 ensures NativeWords(e, now)[i] == Words(last)[i] {
      if i < 14 {
        assert now[4 * i..4 * i + 4] == b[4 * i..4 * i + 4];
        WithinPrefix(last, 4 * i);
        WithinPrefix(start, 4 * i);
      } else if i == 14 {
        assert now[56..60] == Store(e, lo);
      } else {
        assert now[60..64] == Store(e, hi);
      }
    }
  }

  // ----- the 64-bit counter in two words -----

  function Full(n: nat): (f: nat)
    ensures f <= n < f + 64 && f % 64 == 0
  {
    n / 64 * 64
  }

  lemma WithinBlock(n: nat, more: nat)
    requires n % 64 + more < 64
    ensures Full(n + more) == Full(n) && (n + more) % 64 == n % 64 + more
  {
  }

  lemma PastBoundary(start: nat, rest: nat)
    requires start % 64 == 0 && rest < 64
    ensures Full(start + rest) == start && (start + rest) % 64 == rest
  {
  }

  predicate Counts(lo: uint32, hi: uint32, len: nat) {
    lo == 8 * len % WORD && hi == 8 * len / WORD % WORD
  }

  lemma PendingBytes(lo: uint32, hi: uint32, len: nat)
    requires Counts(lo, hi, len)
    ensures lo / 8 % 64 == len % 64
  {
    assert 8 * len == lo + WORD * (8 * len / WORD);
    assert len == lo / 8 + 0x2000_0000 * (8 * len / WORD);
  }

  lemma LowSum(lo: uint32, add: uint32, lo': uint32)
    requires lo' == (lo + add) % WORD
    ensures lo + add == lo' + (if lo' < lo then WORD else 0)
  {
  }

  lemma SplitCount(n: nat, q: nat, r: nat)
    requires n == r + WORD * q && r < WORD
    ensures n % WORD == r && n / WORD == q
  {
  }

  /** The carry test and the high bits of a long buffer keep the counter exact modulo 2^64. */
  lemma CounterAdvances(lo: uint32, hi: uint32, len: nat, more: nat, lo': uint32, hi': uint32)
    requires Counts(lo, hi, len) && more < WORD
    requires lo' == (lo + 8 * more % WORD) % WORD
    requires hi' == ((if lo' < lo then (hi + 1) % WORD else hi) + more / 0x2000_0000) % WORD
    ensures Counts(lo', hi', len + more)
  {
    var q, m, add := 8 * len / WORD, more / 0x2000_0000, 8 * more % WORD;
    assert 8 * len == lo + WORD * q;
    assert 8 * more == add + WORD * m;
    LowSum(lo, add, lo');
    var c := if lo' < lo then 1 else 0;
    SplitCount(8 * (len + more), q + m + c, lo');
    ModuloOfSum(q, m, c);
  }

  lemma ModuloOfSum(q: nat, m: nat, c: nat)
    requires c <= 1
    ensures (if c == 1 then (q % WORD + 1) % WORD + m else q % WORD + m) % WORD == (q + m + c) % WORD
  {
  }

  // ----- struct MD5Context -----

  class Context {
    const host: Endian
    const buf: array<bv32>
    const inp: array<byte>
    var bits0: uint32
    var bits1: uint32
    /** Everything MD5Update has been given since MD5Init. */
    ghost var fed: seq<byte>

    ghost predicate Shape() {
      buf.Length == 4 && inp.Length == 64
    }

    /** Registers hold the fold of the full blocks, `inp` starts with the tail, the counter counts bits. */
    ghost predicate Valid()
      reads this, buf, inp
    {
      && Shape()
      && RegsOf(buf[..]) == Fold(INITIAL, fed[..Full(|fed|)])
      && inp[..|fed| % 64] == fed[Full(|fed|)..]
      && Counts(bits0, bits1, |fed|)
    }

    constructor Init(host: Endian)
      ensures Valid() && fed == [] && this.host == host && fresh(buf) && fresh(inp)
    {
      this.host := host;
      var b := new bv32[4];
      b[0], b[1], b[2], b[3] := 0x67452301, 0xefcdab89, 0x98badcfe, 0x10325476;
      buf := b;
      inp := new byte[64];
      bits0, bits1, fed := 0, 0, [];
    }

    /** byteReverse(ctx->in, 16) and MD5Transform: one full block goes in. */
    method TransformInput()
      requires Shape()
      modifies buf, inp
      ensures RegsOf(buf[..]) == Compress(RegsOf(old(buf[..])), Words(old(inp[..])))
    {
      ghost var block := inp[..];
      ByteReverse(host, inp, 16);
      assert NativeWords(host, inp[..]) == Words(block);
      hide Compress, Load, RegsOf;
      Transform(buf, NativeWords(host, inp[..]));
    }

    /** memcpy into the input buffer. */
    method Copy(data: seq<byte>, off: nat, n: nat, at: nat)
      requires Shape() && off + n <= |data| && at + n <= 64
      modifies inp
      ensures inp[..] == old(inp[..at]) + data[off..off + n] + old(inp[at + n..])
    {
      for i := 0 to n
        invariant inp[..at] == old(inp[..at]) && inp[at + n..] == old(inp[at + n..])
        invariant inp[at..at + i] == data[off..off + i]
      {
        inp[at + i] := data[off + i];
      }
      assert inp[..] == inp[..at] + inp[at..at + n] + inp[at + n..];
    }

    method CountBits(len: nat)
      requires len < WORD && Counts(bits0, bits1, |fed|)
      modifies this`bits0, this`bits1
      ensures Counts(bits0, bits1, |fed| + len)
    {
      var t := bits0;
      bits0 := (t + 8 * len % WORD) % WORD;
      if bits0 < t {
        bits1 := (bits1 + 1) % WORD;
      }
      bits1 := (bits1 + len / 0x2000_0000) % WORD;
      CounterAdvances(t, old(bits1), |fed|, len, bits0, bits1);
    }

    /** One block more of the whole input has gone through the registers. */
    method AbsorbBlock(ghost all: seq<byte>, ghost p: nat)
      requires Shape() && p % 64 == 0 && p + 64 <= |all| && inp[..] == all[p..p + 64]
      requires RegsOf(buf[..]) == Fold(INITIAL, all[..p])
      modifies buf, inp
      ensures RegsOf(buf[..]) == Fold(INITIAL, all[..p + 64])
    {
      hide Compress, Words, RegsOf, Fold;
      FoldAppend(INITIAL, all[..p], all[p..p + 64]);
      assert all[..p] + all[p..p + 64] == all[..p + 64];
      TransformInput();
    }

    /** The 64-byte chunks of the input, from `start` on. */
    method AbsorbBlocks(data: seq<byte>, start: nat, ghost all: seq<byte>, ghost n: nat) returns (off: nat)
      requires Shape() && start <= |data| && (n + start) % 64 == 0
      requires |all| == n + |data| && all[n..] == data
      requires RegsOf(buf[..]) == Fold(INITIAL, all[..n + start])
      modifies buf, inp
      ensures start <= off <= |data| < off + 64 && (n + off) % 64 == 0
      ensures RegsOf(buf[..]) == Fold(INITIAL, all[..n + off])
    {
      hide RegsOf, Fold;
      off := start;
      while |data| - off >= 64
        invariant start <= off <= |data| && (n + off) % 64 == 0
        invariant RegsOf(buf[..]) == Fold(INITIAL, all[..n + off])
      {
        Copy(data, off, 64, 0);
        assert inp[..] == data[off..off + 64] == all[n + off..n + off + 64];
        AbsorbBlock(all, n + off);
        off := off + 64;
      }
    }

    /** The leading odd-sized chunk fills up the pending block, or just joins it. */
    method FillPending(data: seq<byte>, t: nat, ghost all: seq<byte>, ghost n: nat) returns (off: nat)
      requires Shape() && 0 < t < 64 && t == n % 64
      requires |all| == n + |data| && all[n..] == data && inp[..t] == all[Full(n)..n]
      requires RegsOf(buf[..]) == Fold(INITIAL, all[..Full(n)])
      modifies buf, inp
      ensures off == 64 - t <= |data| || (off == |data| < 64 - t)
      ensures off == 64 - t ==> RegsOf(buf[..]) == Fold(INITIAL, all[..n + off])
      ensures off < 64 - t ==> RegsOf(buf[..]) == Fold(INITIAL, all[..Full(n)]) && inp[..t + off] == all[Full(n)..]
    {
      hide RegsOf, Fold;
      var room := 64 - t;
      if |data| < room {
        Copy(data, 0, |data|, t);
        assert inp[..t + |data|] == all[Full(n)..n] + data;
        return |data|;
      }
      Copy(data, 0, room, t);
      assert inp[..] == all[Full(n)..n] + data[..room] == all[Full(n)..Full(n) + 64];
      AbsorbBlock(all, Full(n));
      off := room;
    }

    method Update(data: seq<byte>)
      requires Valid() && |data| < WORD
      modifies this, buf, inp
      ensures Valid() && fed == old(fed) + data
    {
      hide RegsOf, Fold, Counts, Full;
      var t := bits0;
      ghost var m, n := fed, |fed|;
      PendingBytes(t, bits1, n);
      CountBits(|data|);
      fed := fed + data;
      PendingStays(m, data);
      t := t / 8 % 64;
      AbsorbData(data, t, n);
    }

    /** What MD5Update does once the bits are counted, `t` bytes being pending. */
    method AbsorbData(data: seq<byte>, t: nat, ghost n: nat)
      requires Shape() && t == n % 64
      requires |fed| == n + |data| && fed[n..] == data && inp[..t] == fed[Full(n)..n]
      requires RegsOf(buf[..]) == Fold(INITIAL, fed[..Full(n)])
      modifies buf, inp
      ensures RegsOf(buf[..]) == Fold(INITIAL, fed[..Full(|fed|)]) && inp[..|fed| % 64] == fed[Full(|fed|)..]
    {
      hide RegsOf, Fold;
      var off := 0;
      if t != 0 {
        off := FillPending(data, t, fed, n);
        if off < 64 - t {
          WithinBlock(n, off);
          return;
        }
      }
      off := AbsorbBlocks(data, off, fed, n);
      KeepRest(data, off, n);
    }

    /** memcpy of what is left after the last full block. */
    method KeepRest(data: seq<byte>, off: nat, ghost n: nat)
      requires Shape() && off <= |data| < off + 64 && (n + off) % 64 == 0
      requires |fed| == n + |data| && fed[n..] == data
      modifies inp
      ensures Full(|fed|) == n + off && inp[..|fed| % 64] == fed[Full(|fed|)..]
    {
      Copy(data, off, |data| - off, 0);
      PastBoundary(n + off, |data| - off);
      assert inp[..|data| - off] == data[off..] == fed[n + off..];
    }

    method Clear(from: nat, to: nat)
      requires Shape() && from <= to <= 64
      modifies inp
      ensures inp[..] == old(inp[..from]) + Zeros(to - from) + old(inp[to..])
    {
      for i := from to to
        invariant inp[..from] == old(inp[..from]) && inp[to..] == old(inp[to..])
        invariant inp[from..i] == Zeros(i - from)
      {
        inp[i] := 0;
      }
      assert inp[..] == inp[..from] + inp[from..to] + inp[to..];
    }

    /** byteReverse(ctx->in, 14), the two counter words stored natively, and the last transform. */
    method TransformLast(ghost last: seq<byte>)
      requires Shape() && |last| == 64 && inp[..56] == last[..56]
      requires last[56..60] == Store(Little, AsWord(bits0)) && last[60..64] == Store(Little, AsWord(bits1))
      modifies buf, inp
      ensures RegsOf(buf[..]) == Compress(RegsOf(old(buf[..])), Words(last))
    {
      hide Compress, Load, Store, RegsOf, AsWord, Words, NativeWords, Reversed, Stored;
      ghost var start := inp[..];
      assert start[..56] == last[..56];
      ByteReverse(host, inp, 14);
      LastWords(host, start, inp[..], last, AsWord(bits0), AsWord(bits1));
      StoreNative(host, inp, 56, AsWord(bits0));
      StoreNative(host, inp, 60, AsWord(bits1));
      Transform(buf, NativeWords(host, inp[..]));
    }

    /** Both padding cases: the tail leaves room for the counter, or a block of its own must hold it. */
    method PadAndTransform()
      requires Valid()
      modifies buf, inp
      ensures RegsOf(buf[..]) == Fold(INITIAL, fed + Padding(|fed|))
    {
      hide RegsOf, Fold, Compress, Words, Counts, Load, Store, AsWord, Full;
      ghost var m, n, r := fed, |fed|, |fed| % 64;
      PendingBytes(bits0, bits1, n);
      var count := bits0 / 8 % 64;
      inp[count] := 0x80;
      var p := count + 1;
      count := 64 - 1 - count;
      ghost var head := m[..Full(n)];
      assert inp[..p] == m[Full(n)..] + [0x80];
      if count < 8 {
        Clear(p, p + count);
        ghost var first := m[Full(n)..] + [0x80] + Zeros(count);
        assert inp[..] == first;
        FoldAppend(INITIAL, head, first);
        TransformInput();
        Clear(0, 56);
        ghost var last := Zeros(56) + LengthBytes(n);
        LastBytes(Zeros(56), n, bits0, bits1);
        FoldAppend(INITIAL, head + first, last);
        PaddedInTwo(m);
        TransformLast(last);
      } else {
        Clear(p, p + count - 8);
        ghost var last := m[Full(n)..] + [0x80] + Zeros(count - 8) + LengthBytes(n);
        LastBytes(m[Full(n)..] + [0x80] + Zeros(count - 8), n, bits0, bits1);
        FoldAppend(INITIAL, head, last);
        PaddedInOne(m);
        TransformLast(last);
      }
    }

    /** The registers as they lie in memory. */
    function Memory(): (b: seq<byte>)
      requires Shape()
      reads this, buf
      ensures |b| == 16
    {
      Store(host, buf[0]) + Store(host, buf[1]) + Store(host, buf[2]) + Store(host, buf[3])
    }

    /** byteReverse((unsigned char *)ctx->buf, 4). */
    method ReverseRegisters()
      requires Shape()
      modifies buf
      ensures Memory() == Output(RegsOf(old(buf[..])))
    {
      hide Load, Store;
      for i := 0 to 4
        invariant forall j :: i <= j < 4 ==> buf[j] == old(buf[j])
        invariant forall j :: 0 <= j < i ==> Store(host, buf[j]) == Store(Little, old(buf[j]))
      {
        var t := Load(Little, Store(host, buf[i]));
        ReversedWord(host, buf[i]);
        buf[i] := t;
      }
    }

    /** The digest; the closing memset clears only the bytes a pointer occupies, as `sizeof(ctx)` says. */
    method Final(pointerBytes: nat) returns (digest: seq<byte>)
      requires Valid() && (pointerBytes == 4 || pointerBytes == 8)
      modifies this, buf, inp
      ensures digest == Digest(old(fed))
      ensures Memory() == seq(pointerBytes, _ => 0) + digest[pointerBytes..]
      ensures bits0 == old(bits0) && bits1 == old(bits1) && fed == old(fed)
    {
      PadAndTransform();
      hide RegsOf, Load, Store, Fold, Valid, Memory, Padding;
      ReverseRegisters();
      digest := Memory();
      Wipe(pointerBytes);
    }

    method Wipe(pointerBytes: nat)
      requires Shape() && (pointerBytes == 4 || pointerBytes == 8)
      modifies buf
      ensures Memory() == seq(pointerBytes, _ => 0) + old(Memory())[pointerBytes..]
    {
      hide Store;
      StoreOfZero(host);
      buf[0] := 0;
      if pointerBytes == 8 { buf[1] := 0; }
    }
  }

  lemma StoreOfZero(e: Endian)
    ensures Store(e, 0) == [0, 0, 0, 0]
  {
  }

  /** Reading a native word's bytes low-order first and storing natively leaves them low-order first. */
  lemma ReversedWord(e: Endian, w: bv32)
    ensures Store(e, Load(Little, Store(e, w))) == Store(Little, w)
  {
    match e {
      case Little =>
        JoinSplit(w);
      case Big =>
        SplitJoin(Byte3(w), Byte2(w), Byte1(w), Byte0(w));
    }
  }

  // ----- any chunking -----

  function Flatten(chunks: seq<seq<byte>>): seq<byte> {
    if chunks == [] then [] else Flatten(chunks[..|chunks| - 1]) + chunks[|chunks| - 1]
  }

  /** However the message is cut, empty pieces included, and on either byte order, the digest is the RFC's. */
  method HashChunks(host: Endian, chunks: seq<seq<byte>>) returns (digest: seq<byte>)
    requires forall c :: c in chunks ==> |c| < WORD
    ensures digest == Digest(Flatten(chunks))
  {
    var ctx := new Context.Init(host);
    assert chunks[..0] == [];
    for i := 0 to |chunks|
      invariant ctx.Valid() && ctx.fed == Flatten(chunks[..i])
      invariant fresh(ctx) && fresh(ctx.buf) && fresh(ctx.inp)
    {
      hide Digest, Fold, RegsOf, Counts;
      assert chunks[..i + 1][..i] == chunks[..i];
      ctx.Update(chunks[i]);
    }
    assert chunks[..|chunks|] == chunks;
    digest := ctx.Final(8);
  }

  /** Two ways of cutting one message give one digest. */
  method ChunkingIrrelevant(host: Endian, host': Endian, a: seq<seq<byte>>, b: seq<seq<byte>>)
    returns (d: seq<byte>, d': seq<byte>)
    requires (forall c :: c in a ==> |c| < WORD) && (forall c :: c in b ==> |c| < WORD)
    requires Flatten(a) == Flatten(b)
    ensures d == d'
  {
    d := HashChunks(host, a);
    d' := HashChunks(host', b);
  }

  lemma LastBytes(front: seq<byte>, len: nat, lo: uint32, hi: uint32)
    requires |front| == 56 && Counts(lo, hi, len)
    ensures var last := front + LengthBytes(len);
            |last| == 64 && last[..56] == front
            && last[56..60] == Store(Little, AsWord(lo)) && last[60..64] == Store(Little, AsWord(hi))
  {
    hide Store, AsWord;
  }

  lemma PaddedInOne(m: seq<byte>)
    requires |m| % 64 <= 55
    ensures m + Padding(|m|) ==
            m[..Full(|m|)] + (m[Full(|m|)..] + [0x80] + Zeros(55 - |m| % 64) + LengthBytes(|m|))
  {
    hide LengthBytes;
    assert (119 - |m| % 64) % 64 == 55 - |m| % 64;
    assert m == m[..Full(|m|)] + m[Full(|m|)..];
  }

  lemma PaddedInTwo(m: seq<byte>)
    requires |m| % 64 > 55
    ensures m + Padding(|m|) ==
            m[..Full(|m|)] + (m[Full(|m|)..] + [0x80] + Zeros(63 - |m| % 64)) + (Zeros(56) + LengthBytes(|m|))
  {
    hide LengthBytes;
    assert (119 - |m| % 64) % 64 == 119 - |m| % 64;
    assert Zeros(119 - |m| % 64) == Zeros(63 - |m| % 64) + Zeros(56);
    assert m == m[..Full(|m|)] + m[Full(|m|)..];
  }

  lemma PendingStays(m: seq<byte>, data: seq<byte>)
    ensures (m + data)[..Full(|m|)] == m[..Full(|m|)]
    ensures (m + data)[Full(|m|)..|m|] == m[Full(|m|)..]
    ensures (m + data)[|m|..] == data
    ensures |m| % 64 == 0 ==> Full(|m|) == |m|
  {
  }
}
