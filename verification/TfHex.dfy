/** The hexadecimal and packed-decimal conversions of tflib/tf_util.c. */
module TfHex {
  import opened Machine

  // ----- hexadecimal -----

  function HexChar(n: byte): byte { if n > 9 then n + 0x41 - 10 else n + 0x30 }

  /** The digits 0 to 9 and A to F. */
  lemma HexChars()
    ensures HexChar(0) == 0x30 && HexChar(1) == 0x31 && HexChar(2) == 0x32 && HexChar(3) == 0x33
    ensures HexChar(4) == 0x34 && HexChar(5) == 0x35 && HexChar(6) == 0x36 && HexChar(7) == 0x37
    ensures HexChar(8) == 0x38 && HexChar(9) == 0x39 && HexChar(10) == 0x41 && HexChar(11) == 0x42
    ensures HexChar(12) == 0x43 && HexChar(13) == 0x44 && HexChar(14) == 0x45 && HexChar(15) == 0x46
  {
  }

  /** Two upper-case digits a byte, high half first. */
  function BinToAsc(s: seq<byte>): (r: seq<byte>)
    ensures |r| == 2 * |s|
  {
    if s == [] then [] else [HexChar((s[0] & 0xf0) >> 4), HexChar(s[0] & 0xf)] + BinToAsc(s[1..])
  }

  /** The offset a letter sets; anything else leaves the last one. */
  function Offset(c: byte, offset: byte): byte {
    if 0x41 <= c <= 0x5a then 0x41 else if 0x61 <= c <= 0x7a then 0x61 else offset
  }

  function Digit(c: byte, offset: byte): byte { if c <= 0x39 then c - 0x30 else c - offset + 10 }

  function Packed(a: byte, b: byte, offset: byte): byte {
    var high := Offset(a, offset);
    (Digit(a, high) << 4) + Digit(b, Offset(b, high))
  }

  function AscToBin(text: seq<byte>, offset: byte): (r: seq<byte>)
    requires |text| % 2 == 0
    ensures |r| == |text| / 2
  {
    if text == [] then []
    else [Packed(text[0], text[1], offset)] + AscToBin(text[2..], Offset(text[1], Offset(text[0], offset)))
  }

  /** A hexadecimal letter in lower case. */
  function Lower(c: byte): byte { if 0x41 <= c <= 0x5a then c + 0x20 else c }

  lemma DigitOfChar(n: byte, offset: byte)
    requires n < 16
    ensures Digit(HexChar(n), Offset(HexChar(n), offset)) == n
    ensures Digit(Lower(HexChar(n)), Offset(Lower(HexChar(n)), offset)) == n
  {
  }

  lemma Halves(h: byte)
    ensures ((h & 0xf0) >> 4) < 16 && (h & 0xf) < 16
    ensures (((h & 0xf0) >> 4) << 4) + (h & 0xf) == h
  {
  }

  /** Digits in either case give the bytes back, whatever letter was seen before. */
  lemma {:induction false} HexRoundTrip(s: seq<byte>, text: seq<byte>, offset: byte)
    requires |text| == 2 * |s|
    requires forall i :: 0 <= i < |text| ==> text[i] == BinToAsc(s)[i] || text[i] == Lower(BinToAsc(s)[i])
    ensures AscToBin(text, offset) == s
    decreases |s|
  {
    if s != [] {
      var high, low := (s[0] & 0xf0) >> 4, s[0] & 0xf;
      Halves(s[0]);
      DigitOfChar(high, offset);
      DigitOfChar(low, Offset(text[0], offset));
      assert BinToAsc(s)[0] == HexChar(high) && BinToAsc(s)[1] == HexChar(low);
      hide HexChar, Lower, Offset, Digit;
      assert Packed(text[0], text[1], offset) == s[0];
      forall i | 0 <= i < |text[2..]|
        ensures text[2..][i] == BinToAsc(s[1..])[i] || text[2..][i] == Lower(BinToAsc(s[1..])[i])
      {
        assert text[2..][i] == text[i + 2] && BinToAsc(s)[i + 2] == BinToAsc(s[1..])[i];
      }
      HexRoundTrip(s[1..], text[2..], Offset(text[1], Offset(text[0], offset)));
    }
  }

  lemma {:induction false} BinToAscAt(s: seq<byte>, i: nat)
    requires i < |s|
    ensures BinToAsc(s)[2 * i] == HexChar((s[i] & 0xf0) >> 4) && BinToAsc(s)[2 * i + 1] == HexChar(s[i] & 0xf)
    decreases |s|
  {
    if i > 0 {
      BinToAscAt(s[1..], i - 1);
      assert BinToAsc(s)[2 * i] == BinToAsc(s[1..])[2 * (i - 1)];
      assert BinToAsc(s)[2 * i + 1] == BinToAsc(s[1..])[2 * (i - 1) + 1];
    }
  }

  /** The bytes 2f and a0 as they are written. */
  lemma HexExample()
    ensures BinToAsc([0x2f, 0xa0]) == [0x32, 0x46, 0x41, 0x30]
  {
    var s: seq<byte> := [0x2f, 0xa0];
    BinToAscAt(s, 0);
    BinToAscAt(s, 1);
    var r := BinToAsc(s);
    assert r[2 * 0] == 0x32 && r[2 * 0 + 1] == 0x46 && r[2 * 1] == 0x41 && r[2 * 1 + 1] == 0x30;
  }

  /** bin_to_asc. */
  method BinToAscInto(dsp: array<byte>, hex: seq<byte>) returns (length: nat)
    requires dsp.Length >= 2 * |hex|
    modifies dsp
    ensures length == 2 * |hex| && dsp[..length] == BinToAsc(hex)
    ensures dsp[length..] == old(dsp[length..])
  {
    for i := 0 to |hex|
      invariant forall k :: 0 <= k < 2 * i ==> dsp[k] == BinToAsc(hex)[k]
      invariant forall k :: 2 * |hex| <= k < dsp.Length ==> dsp[k] == old(dsp[k])
    {
      BinToAscAt(hex, i);
      hide BinToAsc, HexChar;
      var ch := (hex[i] & 0xf0) >> 4;
      dsp[2 * i] := HexChar(ch);
      ch := hex[i] & 0xf;
      dsp[2 * i + 1] := HexChar(ch);
    }
    length := 2 * |hex|;
  }

  lemma AscStep(text: seq<byte>, at: nat, offset: byte)
    requires |text| % 2 == 0 && at % 2 == 0 && at + 2 <= |text|
    ensures AscToBin(text[at..], offset)
            == [Packed(text[at], text[at + 1], offset)] + AscToBin(text[at + 2..], Offset(text[at + 1], Offset(text[at], offset)))
  {
    assert text[at..][2..] == text[at + 2..];
  }

  /** One byte, its halves put into the output one after the other. */
  method StoreDigits(hex: array<byte>, i: nat, a: byte, b: byte, offset: byte) returns (offset': byte)
    requires i < hex.Length
    modifies hex
    ensures hex[..i + 1] == old(hex[..i]) + [Packed(a, b, offset)]
    ensures offset' == Offset(b, Offset(a, offset))
  {
    hide Offset, Digit;
    offset' := Offset(a, offset);
    hex[i] := Digit(a, offset');
    hex[i] := hex[i] << 4;
    offset' := Offset(b, offset');
    hex[i] := hex[i] + Digit(b, offset');
  }

  /** asc_to_bin; the offset of the last letter is carried from digit to digit. */
  method AscToBinInto(hex: array<byte>, dsp: seq<byte>, count: nat) returns (n: nat)
    requires |dsp| == 2 * count <= 2 * hex.Length
    requires forall i :: 0 <= i < |dsp| ==> dsp[i] < 0x80
    modifies hex
    ensures n == count && hex[..count] == AscToBin(dsp, 0)
  {
    var offset: byte := 0;
    assert dsp[0..] == dsp;
    for i := 0 to count
      invariant hex[..i] + AscToBin(dsp[2 * i..], offset) == AscToBin(dsp, 0)
    {
      hide *;
      AscStep(dsp, 2 * i, offset);
      ghost var done, packed := hex[..i], Packed(dsp[2 * i], dsp[2 * i + 1], offset);
      offset := StoreDigits(hex, i, dsp[2 * i], dsp[2 * i + 1], offset);
      ghost var tail := AscToBin(dsp[2 * i + 2..], offset);
      assert done + ([packed] + tail) == done + [packed] + tail;
      assert 2 * (i + 1) == 2 * i + 2;
    }
    n := count;
  }

  // ----- packed decimal -----

  /** Each half of a byte as a character, without regard to whether it is a decimal digit. */
  function BcdToAsc(s: seq<byte>): (r: seq<byte>)
    ensures |r| == 2 * |s|
  {
    if s == [] then [] else [((s[0] & 0xf0) >> 4) + 0x30, (s[0] & 0xf) + 0x30] + BcdToAsc(s[1..])
  }

  function Pair(a: byte, b: byte): byte { ((a - 0x30) << 4) | b }

  /** An odd last character is the high half of a byte whose low half is zero. */
  function AscToBcd(text: seq<byte>): (r: seq<byte>)
    ensures |r| == (|text| + 1) / 2
  {
    if text == [] then []
    else if |text| == 1 then [Pair(text[0], 0)]
    else [Pair(text[0], text[1] - 0x30)] + AscToBcd(text[2..])
  }

  lemma {:induction false} BcdToAscAt(s: seq<byte>, i: nat)
    requires i < |s|
    ensures BcdToAsc(s)[2 * i] == ((s[i] & 0xf0) >> 4) + 0x30 && BcdToAsc(s)[2 * i + 1] == (s[i] & 0xf) + 0x30
    decreases |s|
  {
    if i > 0 {
      BcdToAscAt(s[1..], i - 1);
      assert BcdToAsc(s)[2 * i] == BcdToAsc(s[1..])[2 * (i - 1)];
      assert BcdToAsc(s)[2 * i + 1] == BcdToAsc(s[1..])[2 * (i - 1) + 1];
    }
  }

  /** The byte 39 as the characters 3 and 9, and back. */
  lemma BcdExample()
    ensures BcdToAsc([0x39]) == [0x33, 0x39] && AscToBcd([0x33, 0x39]) == [0x39] && AscToBcd([0x33]) == [0x30]
  {
    BcdToAscAt([0x39], 0);
    assert BcdToAsc([0x39])[2 * 0] == 0x33 && BcdToAsc([0x39])[2 * 0 + 1] == 0x39;
    var two, one: seq<byte> := [0x33, 0x39], [0x33];
    AscToBcdAt(two, 0);
    AscToBcdAt(one, 0);
    assert Pair(0x33, 0x09) == 0x39 && Pair(0x33, 0) == 0x30;
    assert (0x39 as byte) - 0x30 == 0x09;
  }

  /** bcd_to_asc. */
  method BcdToAscInto(dst: array<byte>, src: seq<byte>) returns (length: nat)
    requires dst.Length >= 2 * |src|
    modifies dst
    ensures length == 2 * |src| && dst[..length] == BcdToAsc(src)
  {
    for i := 0 to |src|
      invariant forall k :: 0 <= k < 2 * i ==> dst[k] == BcdToAsc(src)[k]
    {
      BcdToAscAt(src, i);
      hide BcdToAsc;
      dst[2 * i] := ((src[i] & 0xf0) >> 4) + 0x30;
      dst[2 * i + 1] := (src[i] & 0xf) + 0x30;
    }
    length := 2 * |src|;
  }

  lemma PairOfHalves(h: byte)
    ensures Pair(((h & 0xf0) >> 4) + 0x30, ((h & 0xf) + 0x30) - 0x30) == h
  {
  }

  /** Every byte string comes back, not only those of decimal digits. */
  lemma {:induction false} BcdRoundTrip(s: seq<byte>)
    ensures AscToBcd(BcdToAsc(s)) == s
  {
    if s != [] {
      PairOfHalves(s[0]);
      BcdRoundTrip(s[1..]);
      TwoCharacters(((s[0] & 0xf0) >> 4) + 0x30, (s[0] & 0xf) + 0x30, BcdToAsc(s[1..]));
      hide Pair, AscToBcd;
      assert s == [s[0]] + s[1..];
    }
  }

  lemma TwoCharacters(a: byte, b: byte, rest: seq<byte>)
    ensures AscToBcd([a, b] + rest) == [Pair(a, b - 0x30)] + AscToBcd(rest)
  {
    hide Pair;
    assert ([a, b] + rest)[2..] == rest;
  }

  lemma {:induction false} AscToBcdAt(text: seq<byte>, k: nat)
    requires k < (|text| + 1) / 2
    ensures AscToBcd(text)[k] == Pair(text[2 * k], if 2 * k + 1 < |text| then text[2 * k + 1] - 0x30 else 0)
    decreases |text|
  {
    hide Pair;
    if k > 0 {
      AscToBcdAt(text[2..], k - 1);
      assert AscToBcd(text)[k] == AscToBcd(text[2..])[k - 1];
      assert text[2..][2 * (k - 1)] == text[2 * k];
    }
  }

  /** asc_to_bcd. */
  method AscToBcdInto(dst: array<byte>, src: seq<byte>) returns (length: nat)
    requires dst.Length >= (|src| + 1) / 2
    modifies dst
    ensures length == (|src| + 1) / 2 && dst[..length] == AscToBcd(src)
  {
    var i := 0;
    while i < |src|
      invariant i <= |src| + 1 && i % 2 == 0
      invariant forall k :: 0 <= k < i / 2 ==> dst[k] == AscToBcd(src)[k]
    {
      AscToBcdAt(src, i / 2);
      hide Pair, AscToBcd;
      var a, d2 := src[i], 0 as byte;
      i := i + 1;
      if i < |src| {
        d2 := src[i] - 0x30;
      }
      i := i + 1;
      dst[(i - 2) / 2] := Pair(a, d2);
    }
    length := (i + 1) / 2;
  }
}
