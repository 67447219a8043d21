/** The two hashes of tflib/expert/tf_hash.c in natural-number arithmetic: products modulo 2 to the 32, quotients for
    shifts, digit-wise exclusive or. */
module MurmurSpec {
  import opened Machine
  import opened Numbers

  /** Times 0x5bd1e995. */
  function Scaled(x: nat): nat { x * 1540483477 % RANGE }

  function Folded(x: nat, divisor: nat): nat
    requires divisor > 0
  {
    ExclusiveOr(x, x / divisor)
  }

  /** Word number i of the data, read in the given byte order. */
  function WordAt(e: Endian, d: seq<byte>, i: nat): nat
    requires 4 * i + 4 <= |d|
  {
    var b0, b1, b2, b3 := ByteNumber(d[4 * i]), ByteNumber(d[4 * i + 1]), ByteNumber(d[4 * i + 2]), ByteNumber(d[4 * i + 3]);
    match e
    case Little => b0 + 0x100 * b1 + 0x1_0000 * b2 + 0x100_0000 * b3
    case Big => b3 + 0x100 * b2 + 0x1_0000 * b1 + 0x100_0000 * b0
  }

  function Absorbed(h: nat, k: nat): nat {
    ExclusiveOr(Scaled(h), Scaled(Folded(Scaled(k), 16777216)))
  }

  /** A lane that started at `h`, after those of the first n words that are its own: with a step of 1 every word, with a
      step of 2 the words of one parity. */
  function Lane(e: Endian, d: seq<byte>, h: nat, n: nat, step: nat, parity: nat): nat
    requires 4 * n <= |d| && step > 0
  {
    if n == 0 then h
    else
      var g := Lane(e, d, h, n - 1, step, parity);
      if (n - 1) % step == parity then Absorbed(g, WordAt(e, d, n - 1)) else g
  }

  /** The bytes after the last whole word, least significant first; without any the lane stays. */
  function Ended(h: nat, d: seq<byte>): nat {
    var t := |d| / 4 * 4;
    var b0, b1, b2 := if |d| > t then ByteNumber(d[t]) else 0, if |d| > t + 1 then ByteNumber(d[t + 1]) else 0,
                      if |d| > t + 2 then ByteNumber(d[t + 2]) else 0;
    if |d| == t then h else Scaled(ExclusiveOr(h, b0 + 0x100 * b1 + 0x1_0000 * b2))
  }

  /** The 32-bit hash: shifts by 13 and 15 are quotients by 8192 and 32768. */
  function Hash32(d: seq<byte>): nat {
    var h := Ended(Lane(Little, d, |d| % RANGE, |d| / 4, 1, 0), d);
    Folded(Scaled(Folded(h, 8192)), 32768)
  }

  /** The 64-bit hash: two lanes, then four crossings with shifts by 18, 22, 17 and 19. */
  function Hash64(e: Endian, d: seq<byte>, seed: nat): nat {
    var h1 := Lane(e, d, ExclusiveOr(seed, |d| % RANGE), |d| / 4, 2, 0);
    var h2 := Ended(Lane(e, d, 0, |d| / 4, 2, 1), d);
    var a1 := Scaled(ExclusiveOr(h1, h2 / 262144));
    var a2 := Scaled(ExclusiveOr(h2, a1 / 4194304));
    var b1 := Scaled(ExclusiveOr(a1, a2 / 131072));
    var b2 := Scaled(ExclusiveOr(a2, b1 / 524288));
    b1 * RANGE + b2
  }
}
