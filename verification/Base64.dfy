/** tflib/expert/base64.c against section 4 of RFC 4648. */
module Base64 {
  import opened Machine

  // ----- the encoding of RFC 4648 -----

  /** Table 1 of RFC 4648. */
  function Letter(v: byte): byte {
    if v < 26 then v + 65 else if v < 52 then v + 71 else if v < 62 then v - 4 else if v == 62 then 43 else 47
  }

  const PAD: byte := 61

  /** Three bytes as a 24-bit group, and its four 6-bit groups from the left. */
  function Group(a: byte, b: byte, c: byte): bv32 {
    ((a as bv32) << 16) | ((b as bv32) << 8) | (c as bv32)
  }

  function Sextet(g: bv32, k: nat): byte
    requires k < 4
  {
    match k
    case 0 => ((g >> 18) & 63) as byte
    case 1 => ((g >> 12) & 63) as byte
    case 2 => ((g >> 6) & 63) as byte
    case 3 => (g & 63) as byte
  }

  function Quad(a: byte, b: byte, c: byte): (r: seq<byte>)
    ensures |r| == 4
  {
    var g := Group(a, b, c);
    [Letter(Sextet(g, 0)), Letter(Sextet(g, 1)), Letter(Sextet(g, 2)), Letter(Sextet(g, 3))]
  }

  /** A final group short of bytes is filled with zero bits, and letters that hold none of its bits are padding. */
  function Encoding(s: seq<byte>): (r: seq<byte>)
    ensures |r| == 4 * ((|s| + 2) / 3)
  {
    if |s| == 0 then []
    else if |s| == 1 then Quad(s[0], 0, 0)[..2] + [PAD, PAD]
    else if |s| == 2 then Quad(s[0], s[1], 0)[..3] + [PAD]
    else Quad(s[0], s[1], s[2]) + Encoding(s[3..])
  }

  lemma EncodingOfFour(a: byte, b: byte, c: byte, rest: seq<byte>)
    ensures Encoding([a, b, c] + rest) == Quad(a, b, c) + Encoding(rest)
  {
    var s := [a, b, c] + rest;
    assert s[3..] == rest;
  }

  /** Test vectors of section 10 of RFC 4648: foo, foob, fooba and foobar. */
  lemma TestVectors()
    ensures Encoding([0x66, 0x6f, 0x6f]) == [0x5a, 0x6d, 0x39, 0x76]
    ensures Encoding([0x66, 0x6f, 0x6f, 0x62]) == [0x5a, 0x6d, 0x39, 0x76, 0x59, 0x67, 0x3d, 0x3d]
    ensures Encoding([0x66, 0x6f, 0x6f, 0x62, 0x61]) == [0x5a, 0x6d, 0x39, 0x76, 0x59, 0x6d, 0x45, 0x3d]
    ensures Encoding([0x66, 0x6f, 0x6f, 0x62, 0x61, 0x72]) == [0x5a, 0x6d, 0x39, 0x76, 0x59, 0x6d, 0x46, 0x79]
  {
    EncodingOfFour(0x66, 0x6f, 0x6f, []);
    EncodingOfFour(0x66, 0x6f, 0x6f, [0x62]);
    EncodingOfFour(0x66, 0x6f, 0x6f, [0x62, 0x61]);
    EncodingOfFour(0x66, 0x6f, 0x6f, [0x62, 0x61, 0x72]);
    EncodingOfFour(0x62, 0x61, 0x72, []);
    assert Quad(0x66, 0x6f, 0x6f) == [0x5a, 0x6d, 0x39, 0x76];
    assert Quad(0x62, 0, 0)[..2] == [0x59, 0x67] && Quad(0x62, 0x61, 0)[..3] == [0x59, 0x6d, 0x45];
    assert Quad(0x62, 0x61, 0x72) == [0x59, 0x6d, 0x46, 0x79];
    assert [0x66, 0x6f, 0x6f] + [] == [0x66, 0x6f, 0x6f] && [0x66, 0x6f, 0x6f] + [0x62] == [0x66, 0x6f, 0x6f, 0x62];
    assert [0x66, 0x6f, 0x6f] + [0x62, 0x61] == [0x66, 0x6f, 0x6f, 0x62, 0x61];
    assert [0x66, 0x6f, 0x6f] + [0x62, 0x61, 0x72] == [0x66, 0x6f, 0x6f, 0x62, 0x61, 0x72];
    assert [0x62, 0x61, 0x72] + [] == [0x62, 0x61, 0x72];
    hide Quad, Letter;
  }

  /** The alphabet in order, which all 64 values spell out. */
  lemma Alphabet(v: byte)
    requires v < 64
    ensures v < 26 ==> Letter(v) - 0x41 == v
    ensures 26 <= v < 52 ==> Letter(v) - 0x61 == v - 26
    ensures 52 <= v < 62 ==> Letter(v) - 0x30 == v - 52
    ensures Letter(62) == 0x2b && Letter(63) == 0x2f
  {
  }

  // ----- the encoder -----

  // The shifts and masks of outputbase64.
  function First(a: byte): byte { a >> 2 }

  function Second(a: byte, b: byte): byte { ((a & 3) << 4) | (b >> 4) }

  function Third(b: byte, c: byte): byte { ((b & 15) << 2) | (c >> 6) }

  function Fourth(c: byte): byte { c & 0x3f }

  /** They are the sextets of the group. */
  lemma QuadBits(a: byte, b: byte, c: byte)
    ensures Sextet(Group(a, b, c), 0) == First(a) < 64
    ensures Sextet(Group(a, b, c), 1) == Second(a, b) < 64
    ensures Sextet(Group(a, b, c), 2) == Third(b, c) < 64
    ensures Sextet(Group(a, b, c), 3) == Fourth(c) < 64
  {
  }

  lemma QuadLetters(a: byte, b: byte, c: byte)
    ensures Quad(a, b, c) == [Letter(First(a)), Letter(Second(a, b)), Letter(Third(b, c)), Letter(Fourth(c))]
    ensures First(a) < 64 && Second(a, b) < 64 && Third(b, c) < 64 && Fourth(c) < 64
  {
    QuadBits(a, b, c);
  }

  lemma ZeroFill(a: byte, b: byte)
    ensures Second(a, 0) == (a & 3) << 4
    ensures Third(b, 0) == (b & 15) << 2
  {
  }

  /** outputbase64, at the given place; the line counter it keeps has no effect, its line breaks being commented out. */
  method OutputBase64(out: array<byte>, at: nat, a: byte, b: byte, c: byte, nextline: nat) returns (len: nat, nextline': nat)
    requires at + 4 <= out.Length
    modifies out
    ensures len == 4 && out[..at + 4] == old(out[..at]) + Quad(a, b, c)
  {
    hide *;
    QuadLetters(a, b, c);
    out[at] := Letter(First(a));
    out[at + 1] := Letter(Second(a, b));
    out[at + 2] := Letter(Third(b, c));
    out[at + 3] := Letter(Fourth(c));
    len, nextline' := 4, nextline + 1;
    if nextline' > 18 {
      nextline' := 0;
    }
  }

  /** The last one or two bytes; nothing is written when none is left. */
  method OutputRest(out: array<byte>, at: nat, rest: seq<byte>)
    requires |rest| <= 2 && at + |Encoding(rest)| <= out.Length
    modifies out
    ensures out[..at + |Encoding(rest)|] == old(out[..at]) + Encoding(rest)
  {
    if |rest| == 1 {
      QuadLetters(rest[0], 0, 0);
      ZeroFill(rest[0], 0);
      hide Letter, Quad, First, Second, Third, Fourth;
      out[at] := Letter(First(rest[0]));
      out[at + 1] := Letter((rest[0] & 3) << 4);
      out[at + 2] := PAD;
      out[at + 3] := PAD;
    } else if |rest| == 2 {
      QuadLetters(rest[0], rest[1], 0);
      ZeroFill(rest[0], rest[1]);
      hide Letter, Quad, First, Second, Third, Fourth;
      out[at] := Letter(First(rest[0]));
      out[at + 1] := Letter(Second(rest[0], rest[1]));
      out[at + 2] := Letter((rest[1] & 15) << 2);
      out[at + 3] := PAD;
    }
  }

  /** encode_base64 writes exactly the encoding of any input longer than three bytes and nothing for a shorter one; the
      count it returns is four more than it wrote when the length is a multiple of three. */
  method EncodeBase64(dst: array<byte>, src: seq<byte>) returns (count: nat)
    requires |src| >= 4 ==> |Encoding(src)| <= dst.Length
    modifies dst
    ensures |src| <= 3 ==> count == 0 && dst[..] == old(dst[..])
    ensures |src| >= 4 ==> dst[..|Encoding(src)|] == Encoding(src) && count == 4 * (|src| / 3 + 1)
    ensures |src| >= 4 ==> (count == |Encoding(src)| <==> |src| % 3 != 0)
  {
    count := 0;
    var nextline, length, data := 0, |src|, 0;
    if length == 0 {
      return;
    }
    while data < 3
      invariant 0 <= data <= 3 && length == |src| - data > 0 && count == 0
      invariant dst[..] == old(dst[..])
    {
      data := data + 1;
      length := length - 1;
      if length == 0 {
        return;
      }
    }
    EncodingStep(src);
    hide Quad, Encoding;
    count, nextline := OutputBase64(dst, 0, src[0], src[1], src[2], nextline);
    assert dst[..0] == [] && dst[..count] == Quad(src[0], src[1], src[2]);
    var i;
    count, i := EncodeTriples(dst, count, src[3..], nextline);
    ghost var done := dst[..count];
    assert Encoding(src) == done + Encoding(src[3..][i..]);
    OutputRest(dst, count, src[3..][i..]);
    count := count + 4;
    CountReturned(|src|);
  }

  lemma CountReturned(n: nat)
    requires n >= 4
    ensures 4 + 4 * ((n - 3) / 3) == 4 * (n / 3)
    ensures 4 * (n / 3 + 1) == 4 * ((n + 2) / 3) <==> n % 3 != 0
  {
  }

  /** The triples after the first. */
  method EncodeTriples(dst: array<byte>, at: nat, data: seq<byte>, line: nat) returns (count: nat, i: nat)
    requires at + |Encoding(data)| <= dst.Length
    modifies dst
    ensures i == 3 * (|data| / 3) && count == at + 4 * (|data| / 3) <= dst.Length
    ensures dst[..count] + Encoding(data[i..]) == old(dst[..at]) + Encoding(data)
  {
    hide Quad, Encoding;
    ghost var whole := dst[..at] + Encoding(data);
    var nextline := line;
    count, i := at, 0;
    assert data[0..] == data;
    while i + 2 < |data|
      invariant i <= |data| && i % 3 == 0 && count == at + 4 * (i / 3) <= dst.Length
      invariant dst[..count] + Encoding(data[i..]) == whole
    {
      ghost var done, rest := dst[..count], data[i..];
      EncodingStep(rest);
      assert rest[3..] == data[i + 3..];
      var len;
      len, nextline := OutputBase64(dst, count, data[i], data[i + 1], data[i + 2], nextline);
      count := count + len;
      i := i + 3;
    }
  }

  lemma EncodingStep(s: seq<byte>)
    requires |s| >= 3
    ensures Encoding(s) == Quad(s[0], s[1], s[2]) + Encoding(s[3..])
  {
  }

  // ----- the decoder -----

  /** The decoding table: a value below 64, or what else the character is. */
  function Code(c: byte): byte {
    if 65 <= c <= 90 then c - 65 else if 97 <= c <= 122 then c - 71 else if 48 <= c <= 57 then c + 4
    else if c == 43 then 62 else if c == 47 then 63
    else if c == 0 then 96 else if c == PAD then 97 else if c == 10 || c == 13 then 98 else 99
  }

  lemma LetterCode(v: byte)
    requires v < 64
    ensures Code(Letter(v)) == v
  {
  }

  predicate Legal(c: byte) { Code(c) < 64 }

  /** Line breaks and characters outside the alphabet, the terminator and padding aside. */
  predicate Ignored(c: byte) { Code(c) == 98 || Code(c) == 99 }

  /** The place in the quad, the bytes complete so far and the one being put together. */
  datatype Decoder = Decoder(quad: nat, out: seq<byte>, partial: byte)

  /** The bits of a letter that begin a byte, when some end the one before. */
  function Begun(quad: nat, v: byte): byte {
    if quad == 0 then v << 2 else if quad == 1 then (v & 15) << 4 else (v & 3) << 6
  }

  /** A byte completed by the remaining bits. */
  function Completed(quad: nat, partial: byte, v: byte): byte {
    if quad == 1 then partial | (v >> 4) else if quad == 2 then partial | (v >> 2) else partial | v
  }

  function Feed(d: Decoder, v: byte): Decoder {
    if d.quad == 0 then Decoder(1, d.out, Begun(0, v))
    else if d.quad == 1 then Decoder(2, d.out + [Completed(1, d.partial, v)], Begun(1, v))
    else if d.quad == 2 then Decoder(3, d.out + [Completed(2, d.partial, v)], Begun(2, v))
    else Decoder(0, d.out + [Completed(3, d.partial, v)], d.partial)
  }

  /** Whether this padding character ends the data: a quad has one or two letters to go and the padding fills it. */
  predicate Ends(d: Decoder, text: seq<byte>)
    requires text != []
  {
    text[0] == PAD && (d.quad == 3 || (d.quad == 2 && |text| > 1 && text[1] == PAD))
  }

  /** Decode the characters before the terminating zero. */
  function Decode(d: Decoder, text: seq<byte>): Decoder
    decreases |text|
  {
    if text == [] || Ends(d, text) then d
    else if Legal(text[0]) then Decode(Feed(d, Code(text[0])), text[1..])
    else Decode(d, text[1..])
  }

  const START := Decoder(0, [], 0)

  /** Feeding the sextets of three bytes completes the bytes, one letter late. */
  lemma QuadValues(d: Decoder, a: byte, b: byte, c: byte)
    requires d.quad == 0
    ensures var d2 := Feed(Feed(d, First(a)), Second(a, b)); d2.quad == 2 && d2.out == d.out + [a]
  {
    assert (First(a) << 2) | (Second(a, b) >> 4) == a;
  }

  lemma ThirdFed(d: Decoder, a: byte, b: byte, c: byte)
    requires d.quad == 0
    ensures var d3 := Feed(Feed(Feed(d, First(a)), Second(a, b)), Third(b, c)); d3.quad == 3 && d3.out == d.out + [a, b]
  {
    QuadValues(d, a, b, c);
    assert ((Second(a, b) & 15) << 4) | (Third(b, c) >> 2) == b;
    assert d.out + [a] + [b] == d.out + [a, b];
  }

  lemma FourthFed(d: Decoder, a: byte, b: byte, c: byte)
    requires d.quad == 0
    ensures var d4 := Feed(Feed(Feed(Feed(d, First(a)), Second(a, b)), Third(b, c)), Fourth(c));
            d4.quad == 0 && d4.out == d.out + [a, b, c]
  {
    ThirdFed(d, a, b, c);
    assert ((Third(b, c) & 3) << 6) | Fourth(c) == c;
    assert d.out + [a, b] + [c] == d.out + [a, b, c];
  }

  lemma LetterDecodes(d: Decoder, v: byte, rest: seq<byte>)
    requires v < 64
    ensures Decode(d, [Letter(v)] + rest) == Decode(Feed(d, v), rest)
  {
    LetterCode(v);
    LetterNotPad(v);
    hide Letter, Code, Feed;
    assert ([Letter(v)] + rest)[1..] == rest;
  }

  lemma LetterNotPad(v: byte)
    requires v < 64
    ensures Letter(v) != PAD
  {
  }

  lemma QuadDecodes(d: Decoder, a: byte, b: byte, c: byte, rest: seq<byte>) returns (e: Decoder)
    requires d.quad == 0
    ensures e.quad == 0 && e.out == d.out + [a, b, c] && Decode(d, Quad(a, b, c) + rest) == Decode(e, rest)
  {
    hide *;
    e := Feed(Feed(Feed(Feed(d, First(a)), Second(a, b)), Third(b, c)), Fourth(c));
    QuadLetters(a, b, c);
    FourthFed(d, a, b, c);
    FourLetters(d, First(a), Second(a, b), Third(b, c), Fourth(c), rest);
  }

  lemma FourLetters(d: Decoder, v0: byte, v1: byte, v2: byte, v3: byte, rest: seq<byte>)
    requires v0 < 64 && v1 < 64 && v2 < 64 && v3 < 64
    ensures Decode(d, [Letter(v0), Letter(v1), Letter(v2), Letter(v3)] + rest)
            == Decode(Feed(Feed(Feed(Feed(d, v0), v1), v2), v3), rest)
  {
    hide Letter, Feed, Decode;
    var r1, r2, r3 := [Letter(v1), Letter(v2), Letter(v3)] + rest, [Letter(v2), Letter(v3)] + rest, [Letter(v3)] + rest;
    assert [Letter(v0), Letter(v1), Letter(v2), Letter(v3)] + rest == [Letter(v0)] + r1;
    assert r1 == [Letter(v1)] + r2 && r2 == [Letter(v2)] + r3;
    LetterDecodes(d, v0, r1);
    LetterDecodes(Feed(d, v0), v1, r2);
    LetterDecodes(Feed(Feed(d, v0), v1), v2, r3);
    LetterDecodes(Feed(Feed(Feed(d, v0), v1), v2), v3, rest);
  }

  /** Padding where it is due ends the data. */
  lemma PaddingEnds(d: Decoder)
    ensures d.quad == 2 ==> Decode(d, [PAD, PAD]) == d
    ensures d.quad == 3 ==> Decode(d, [PAD]) == d
  {
  }

  lemma NothingDecodes(d: Decoder)
    ensures Decode(d, Encoding([])) == d
  {
  }

  lemma OneLeftDecodes(d: Decoder, a: byte)
    requires d.quad == 0
    ensures Decode(d, Encoding([a])).out == d.out + [a]
  {
    var v0, v1, pads := First(a), Second(a, 0), [PAD, PAD];
    QuadLetters(a, 0, 0);
    assert Encoding([a]) == [Letter(v0)] + ([Letter(v1)] + pads);
    hide *;
    LetterDecodes(d, v0, [Letter(v1)] + pads);
    LetterDecodes(Feed(d, v0), v1, pads);
    QuadValues(d, a, 0, 0);
    PaddingEnds(Feed(Feed(d, v0), v1));
  }

  lemma TwoLeftDecode(d: Decoder, a: byte, b: byte)
    requires d.quad == 0
    ensures Decode(d, Encoding([a, b])).out == d.out + [a, b]
  {
    var v0, v1, v2, pad := First(a), Second(a, b), Third(b, 0), [PAD];
    QuadLetters(a, b, 0);
    assert Encoding([a, b]) == [Letter(v0)] + ([Letter(v1)] + ([Letter(v2)] + pad));
    hide *;
    LetterDecodes(d, v0, [Letter(v1)] + ([Letter(v2)] + pad));
    LetterDecodes(Feed(d, v0), v1, [Letter(v2)] + pad);
    LetterDecodes(Feed(Feed(d, v0), v1), v2, pad);
    ThirdFed(d, a, b, 0);
    PaddingEnds(Feed(Feed(Feed(d, v0), v1), v2));
  }

  /** Decoding an encoding gives the bytes back. */
  lemma {:induction false} DecodeEncoding(d: Decoder, s: seq<byte>)
    requires d.quad == 0
    ensures Decode(d, Encoding(s)).out == d.out + s
    decreases |s|
  {
    hide *;
    if |s| == 0 {
      NothingDecodes(d);
      assert s == [] && d.out + s == d.out;
    } else if |s| == 1 {
      OneLeftDecodes(d, s[0]);
      assert s == [s[0]];
    } else if |s| == 2 {
      TwoLeftDecode(d, s[0], s[1]);
      assert s == [s[0], s[1]];
    } else {
      EncodingStep(s);
      var e := QuadDecodes(d, s[0], s[1], s[2], Encoding(s[3..]));
      DecodeEncoding(e, s[3..]);
      assert s == [s[0], s[1], s[2]] + s[3..];
    }
  }

  /** What was written, followed by a zero byte, is a text the decoder reads whole, and it returns the original. */
  lemma {:induction false} RoundTrip(s: seq<byte>)
    ensures Decode(START, Encoding(s)).out == s && 0 !in Encoding(s)
    decreases |s|
  {
    DecodeEncoding(START, s);
    assert [] + s == s;
    NoZeroInside(s);
  }

  lemma {:induction false} NoZeroInside(s: seq<byte>)
    ensures 0 !in Encoding(s)
    decreases |s|
  {
    if |s| >= 3 {
      NoZeroInside(s[3..]);
      NoZeroInQuad(s[0], s[1], s[2]);
      hide Quad;
    } else if |s| == 2 {
      NoZeroInQuad(s[0], s[1], 0);
    } else if |s| == 1 {
      NoZeroInQuad(s[0], 0, 0);
    }
  }

  lemma LetterNotZero(v: byte)
    requires v < 64
    ensures Letter(v) != 0
  {
  }

  lemma NoZeroInQuad(a: byte, b: byte, c: byte)
    ensures 0 !in Quad(a, b, c)
  {
    QuadLetters(a, b, c);
    hide Letter, Quad, First, Second, Third, Fourth;
    LetterNotZero(First(a));
    LetterNotZero(Second(a, b));
    LetterNotZero(Third(b, c));
    LetterNotZero(Fourth(c));
  }

  // ----- characters that do not count -----

  /** The decoder on its way through a part of the text. */
  datatype Way = Reached(d: Decoder) | Stopped

  function Next(d: Decoder, c: byte): Decoder { if Legal(c) then Feed(d, Code(c)) else d }

  /** Through `a`, with `rest` after it, unless padding ends the data before. */
  function Through(d: Decoder, a: seq<byte>, rest: seq<byte>): Way
    decreases |a|
  {
    if a == [] then Reached(d) else if Ends(d, a + rest) then Stopped else Through(Next(d, a[0]), a[1..], rest)
  }

  lemma {:induction false} ThroughDecodes(d: Decoder, a: seq<byte>, rest: seq<byte>)
    ensures Through(d, a, rest).Reached? ==> Decode(d, a + rest) == Decode(Through(d, a, rest).d, rest)
    decreases |a|
  {
    if a == [] {
      assert a + rest == rest;
    } else {
      assert (a + rest)[1..] == a[1..] + rest;
      ThroughDecodes(Next(d, a[0]), a[1..], rest);
    }
  }

  /** Of what follows, only whether it begins with padding matters on the way. */
  lemma {:induction false} SameWay(d: Decoder, a: seq<byte>, rest: seq<byte>, other: seq<byte>)
    requires StartsWithPad(rest) <==> StartsWithPad(other)
    ensures Through(d, a, rest) == Through(d, a, other)
    ensures Through(d, a, rest).Stopped? ==> Decode(d, a + rest) == Decode(d, a + other)
    decreases |a|
  {
    if a != [] {
      assert (a + rest)[1..] == a[1..] + rest && (a + other)[1..] == a[1..] + other;
      SameWay(Next(d, a[0]), a[1..], rest, other);
    }
  }

  predicate StartsWithPad(text: seq<byte>) { text != [] && text[0] == PAD }

  /** A letter comes before the first two padding characters in a row. */
  predicate LetterFirst(text: seq<byte>) {
    if text == [] || (text[0] == PAD && StartsWithPad(text[1..])) then false else Legal(text[0]) || LetterFirst(text[1..])
  }

  lemma {:induction false} OutputGrows(d: Decoder, text: seq<byte>)
    ensures |Decode(d, text).out| >= |d.out|
    decreases |text|
  {
    if text != [] && !Ends(d, text) {
      OutputGrows(Next(d, text[0]), text[1..]);
    }
  }

  /** With two letters of a quad read, more is decoded exactly if a letter comes before the padding that ends the data. */
  lemma {:induction false} MoreDecoded(d: Decoder, text: seq<byte>)
    requires d.quad == 2
    ensures Decode(d, text).out != d.out <==> LetterFirst(text)
    decreases |text|
  {
    if text != [] && !Ends(d, text) {
      if Legal(text[0]) {
        OutputGrows(Feed(d, Code(text[0])), text[1..]);
      } else {
        MoreDecoded(d, text[1..]);
      }
    }
  }

  /** What an ignored character in front of `b` can disturb: padding that would have ended the data two letters into a
      quad, the rest neither padding nor without a letter that counts. */
  predicate Disturbed(d: Decoder, a: seq<byte>, b: seq<byte>) {
    && a != [] && a[|a| - 1] == PAD && StartsWithPad(b)
    && var w := Through(d, a[..|a| - 1], [PAD]);
       w.Reached? && w.d.quad == 2 && !StartsWithPad(b[1..]) && LetterFirst(b[1..])
  }

  lemma BehindPadding(d: Decoder, c: byte, b: seq<byte>)
    requires Ignored(c)
    ensures Decode(d, [PAD] + [c] + ([PAD] + b)).out != Decode(d, [PAD] + ([PAD] + b)).out
            <==> d.quad == 2 && !StartsWithPad(b) && LetterFirst(b)
  {
    hide Feed;
    var text, plain := [PAD] + [c] + ([PAD] + b), [PAD] + ([PAD] + b);
    assert text[1..] == [c] + ([PAD] + b) && text[1..][1..] == [PAD] + b && ([PAD] + b)[1..] == b;
    assert plain[1..] == [PAD] + b;
    assert Decode(d, [c] + ([PAD] + b)) == Decode(d, [PAD] + b);
    if d.quad == 2 {
      MoreDecoded(d, b);
    }
  }

  /** Inserting a line break or an illegal character changes what is decoded exactly there. */
  lemma InsertionMatters(d: Decoder, a: seq<byte>, c: byte, b: seq<byte>)
    requires Ignored(c)
    ensures Decode(d, a + [c] + b).out != Decode(d, a + b).out <==> Disturbed(d, a, b)
  {
    hide Decode, Through, LetterFirst, Ignored;
    if a == [] || b == [] || a[|a| - 1] != PAD || b[0] != PAD {
      IgnoredAnywhere(d, a, c, b);
    } else {
      var front, rest := a[..|a| - 1], b[1..];
      assert a + [c] + b == front + ([PAD] + [c] + ([PAD] + rest)) && a + b == front + ([PAD] + ([PAD] + rest));
      SameWay(d, front, [PAD], [PAD] + [c] + ([PAD] + rest));
      SameWay(d, front, [PAD], [PAD] + ([PAD] + rest));
      ThroughDecodes(d, front, [PAD] + [c] + ([PAD] + rest));
      ThroughDecodes(d, front, [PAD] + ([PAD] + rest));
      var w := Through(d, front, [PAD]);
      if w.Reached? {
        BehindPadding(w.d, c, rest);
      }
    }
  }

  /** So anywhere except between two padding characters it makes no difference at all. */
  lemma {:induction false} IgnoredAnywhere(d: Decoder, a: seq<byte>, c: byte, b: seq<byte>)
    requires Ignored(c)
    requires !(a != [] && b != [] && a[|a| - 1] == PAD && b[0] == PAD)
    ensures Decode(d, a + [c] + b) == Decode(d, a + b)
    decreases |a|
  {
    if a == [] {
      assert [c] + b == [] + [c] + b && b == [] + b;
      assert ([c] + b)[1..] == b;
    } else {
      assert (a + [c] + b)[1..] == a[1..] + [c] + b && (a + b)[1..] == a[1..] + b;
      assert |a| > 1 ==> a[1..][|a| - 2] == a[|a| - 1];
      if !Ends(d, a + b) {
        IgnoredAnywhere(Next(d, a[0]), a[1..], c, b);
      }
    }
  }

  /** The usual wrapped ending loses nothing. */
  lemma WrappedEnding(d: Decoder, a: seq<byte>, c: byte)
    requires Ignored(c)
    ensures Decode(d, a + [PAD] + [c] + [PAD]).out == Decode(d, a + [PAD] + [PAD]).out
  {
    InsertionMatters(d, a + [PAD], c, [PAD]);
  }

  /** Between them a line break can keep the first from ending the data, so what follows is decoded too. */
  lemma BreakBetweenPadding()
    ensures Decode(START, [81, 81, PAD, PAD, 81, 81]).out == [65]
    ensures Decode(START, [81, 81, PAD, 10, PAD, 81, 81]).out == [65, 4, 16]
  {
    var d := Decoder(2, [65], 0);
    TwoLetters([PAD, PAD, 81, 81]);
    TwoLetters([PAD, 10, PAD, 81, 81]);
    hide Feed, Code;
    assert [81, 81] + [PAD, PAD, 81, 81] == [81, 81, PAD, PAD, 81, 81];
    assert [81, 81] + [PAD, 10, PAD, 81, 81] == [81, 81, PAD, 10, PAD, 81, 81];
    PassedOver(d);
    AfterBreak();
  }

  lemma TwoLetters(rest: seq<byte>)
    ensures Decode(START, [81, 81] + rest) == Decode(Decoder(2, [65], 0), rest)
  {
    assert Code(81) == 16;
    assert Feed(Feed(START, 16), 16) == Decoder(2, [65], 0);
    assert ([81, 81] + rest)[1..][1..] == rest;
  }

  lemma PassedOver(d: Decoder)
    requires d.quad == 2
    ensures Decode(d, [PAD, PAD, 81, 81]) == d
    ensures Decode(d, [PAD, 10, PAD, 81, 81]) == Decode(d, [81, 81])
  {
    assert [PAD, 10, PAD, 81, 81][1..] == [10, PAD, 81, 81] && [10, PAD, 81, 81][1..] == [PAD, 81, 81];
    assert [PAD, 81, 81][1..] == [81, 81];
    assert Decode(d, [PAD, 81, 81]) == Decode(d, [81, 81]);
    assert Decode(d, [10, PAD, 81, 81]) == Decode(d, [PAD, 81, 81]);
  }

  lemma AfterBreak()
    ensures Decode(Decoder(2, [65], 0), [81, 81]).out == [65, 4, 16]
  {
    assert Code(81) == 16;
    assert [81, 81][1..] == [81];
  }

  // ----- the decoder's loop -----

  /** The loop's variables hold the decoder's state. */
  ghost predicate At(d: Decoder, dst: array<byte>, size: nat)
    reads dst
  {
    && d.quad < 4 && size == |d.out| && size + (if d.quad == 0 then 0 else 1) <= dst.Length
    && dst[..size] == d.out && (d.quad != 0 ==> dst[size] == d.partial)
  }

  /** The output bytes a letter may touch: the one being put together counts as soon as it is begun. */
  function Reach(quad: nat, size: nat): nat { if quad == 0 then size + 1 else if quad == 3 then size + 1 else size + 2 }

  /** One letter. */
  method Place(dst: array<byte>, size: nat, quad: nat, value: byte, ghost d: Decoder) returns (size': nat, quad': nat)
    requires At(d, dst, size) && quad == d.quad && Reach(quad, size) <= dst.Length
    modifies dst
    ensures At(Feed(d, value), dst, size') && quad' == Feed(d, value).quad && size' == size + (if quad == 0 then 0 else 1)
  {
    hide Begun, Completed;
    size' := size;
    if quad == 0 {
      dst[size'] := Begun(0, value);
    } else {
      dst[size'] := Completed(quad, dst[size'], value);
      size' := size' + 1;
      if quad != 3 {
        dst[size'] := Begun(quad, value);
      }
    }
    quad' := if quad == 3 then 0 else quad + 1;
  }

  /** The output bytes that so many letters touch: three a quad, and one for each letter begun. */
  function Touched(letters: nat): nat { 3 * (letters / 4) + letters % 4 }

  /** How far that many letters get. */
  predicate Fed(letters: nat, quad: nat, size: nat) {
    letters % 4 == quad && size == 3 * (letters / 4) + (if quad == 0 then 0 else quad - 1)
  }

  lemma NothingFed()
    ensures Fed(0, 0, 0)
  {
  }

  lemma FedOneMore(letters: nat, quad: nat, size: nat, n: nat)
    requires Fed(letters, quad, size) && letters < n
    ensures quad < 4 && Reach(quad, size) <= Touched(n)
    ensures Fed(letters + 1, if quad == 3 then 0 else quad + 1, size + (if quad == 0 then 0 else 1))
  {
  }

  /** decode_base64: the text runs to its terminating zero. */
  method DecodeBase64(dst: array<byte>, src: seq<byte>, ghost text: seq<byte>) returns (size: nat)
    requires text + [0] <= src && 0 !in text && Touched(|text|) <= dst.Length
    modifies dst
    ensures size == |Decode(START, text).out| <= dst.Length
    ensures dst[..size] == Decode(START, text).out
  {
    size := 0;
    var quad, i := 0, 0;
    ghost var d, letters := START, 0;
    hide Fed, Touched;
    assert Fed(0, 0, 0) by { NothingFed(); }
    while true
      invariant i <= |text| && At(d, dst, size) && quad == d.quad
      invariant letters <= i && Fed(letters, quad, size)
      invariant Decode(d, text[i..]) == Decode(START, text)
      decreases |text| - i
    {
      ghost var rest := text[i..];
      assert src[i] == (text + [0])[i];
      var value := Code(src[i]);
      i := i + 1;
      if value == 96 {
        return;
      } else if value == 97 {
        if quad == 3 || (quad == 2 && src[i] == PAD) {
          return;
        }
      } else if value != 98 && value != 99 {
        FedOneMore(letters, quad, size, |text|);
        size, quad := Place(dst, size, quad, value, d);
        d, letters := Feed(d, value), letters + 1;
      }
    }
  }
}
