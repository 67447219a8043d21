/** The variable-length number macros of tflib/tf_util.h: base 128, least significant digit first, where a digit with
    more to come is stored as the negative of its successor. */
module TfVarint {
  /** One byte of memory, read as unsigned. */
  type Octet = x: int | 0 <= x < 256

  /** The same byte read as signed char. */
  function Signed(o: Octet): (c: int)
    ensures -128 <= c < 128
  {
    if o < 128 then o else o - 256
  }

  function Unsigned(c: int): (o: Octet)
    requires -128 <= c < 128
    ensures Signed(o) == c
  {
    if c >= 0 then c else c + 256
  }

  const INT_MAX := 0x7fffffff

  /** A C int: every operation on it must stay in range. */
  newtype int32 = x: int | -0x80000000 <= x <= INT_MAX

  // ----- the format -----

  function Encode(n: nat): (r: seq<Octet>)
    ensures |r| >= 1
  {
    if n < 128 then [n] else [255 - n % 128] + Encode(n / 128)
  }

  datatype Number = Number(value: nat, step: nat) | Unterminated

  /** The number at the front of the bytes and how many of them it takes. */
  function Decode(bytes: seq<Octet>): (r: Number)
    ensures r.Number? ==> 1 <= r.step <= |bytes|
  {
    if bytes == [] then Unterminated
    else if bytes[0] < 128 then Number(bytes[0], 1)
    else
      match Decode(bytes[1..])
      case Number(value, step) => Number(255 - bytes[0] + 128 * value, step + 1)
      case Unterminated => Unterminated
  }

  lemma DecodeNext(b: Octet, rest: seq<Octet>)
    ensures b < 128 ==> Decode([b] + rest) == Number(b, 1)
    ensures b >= 128 && Decode(rest).Number? ==>
              Decode([b] + rest) == Number(255 - b + 128 * Decode(rest).value, Decode(rest).step + 1)
  {
    assert ([b] + rest)[1..] == rest;
  }

  /** Every number reads back as itself, whatever follows it. */
  lemma {:induction false} EncodeDecode(n: nat, rest: seq<Octet>)
    ensures Decode(Encode(n) + rest) == Number(n, |Encode(n)|)
  {
    hide Decode;
    if n < 128 {
      DecodeNext(n, rest);
    } else {
      EncodeDecode(n / 128, rest);
      assert Encode(n) + rest == [255 - n % 128] + (Encode(n / 128) + rest);
      DecodeNext(255 - n % 128, Encode(n / 128) + rest);
    }
  }

  function Power128(k: nat): (p: nat)
    ensures p >= 1
  {
    if k == 0 then 1 else 128 * Power128(k - 1)
  }

  /** A number takes at most k bytes exactly when it is below 128 to the k. */
  lemma {:induction false} EncodedLength(n: nat, k: nat)
    requires k >= 1
    ensures |Encode(n)| <= k <==> n < Power128(k)
  {
    if n < 128 {
      assert Power128(k) >= 128 by { assert Power128(k) == 128 * Power128(k - 1); }
    } else if k == 1 {
      assert Power128(1) == 128 * Power128(0) == 128;
    } else {
      EncodedLength(n / 128, k - 1);
      assert Power128(k) == 128 * Power128(k - 1);
      Scaled(n, Power128(k - 1));
    }
  }

  /** n divided by 128 i times. */
  function Quotient(n: nat, i: nat): nat {
    if i == 0 then n else Quotient(n / 128, i - 1)
  }

  /** Byte i holds digit i to the base 128, the last one as it is and the others taken from 255. */
  lemma {:induction false} EncodedDigits(n: nat, i: nat)
    requires i < |Encode(n)|
    ensures Encode(n)[i] == if i < |Encode(n)| - 1 then 255 - Quotient(n, i) % 128 else Quotient(n, i)
    decreases i
  {
    if i > 0 {
      EncodedDigits(n / 128, i - 1);
      assert Encode(n)[i] == Encode(n / 128)[i - 1];
    }
  }

  /** 300 is 2 times 128 and 44. */
  lemma EncodedExample()
    ensures Encode(300) == [211, 2]
  {
    assert Encode(300) == [255 - 44] + Encode(2);
  }

  lemma Scaled(n: nat, p: nat)
    ensures n / 128 < p <==> n < 128 * p
  {
  }

  /** TFCALCVNUMSIZE. */
  function CalcSize(n: int): int {
    if n < 0x80 then 1 else if n < 0x4000 then 2 else if n < 0x200000 then 3 else if n < 0x10000000 then 4 else 5
  }

  /** It predicts the length of every number below 2 to the 35, all ints included, and of no larger one. */
  lemma CalcSizeIsLength(n: nat)
    ensures CalcSize(n) == |Encode(n)| <==> n < 0x800000000
  {
    assert Power128(1) == 0x80;
    assert Power128(2) == 128 * Power128(1);
    assert Power128(3) == 128 * Power128(2);
    assert Power128(4) == 128 * Power128(3);
    assert Power128(5) == 128 * Power128(4);
    EncodedLength(n, 1);
    EncodedLength(n, 2);
    EncodedLength(n, 3);
    EncodedLength(n, 4);
    EncodedLength(n, 5);
  }

  // ----- the macros -----

  /** TFSETVNUMBUF writes nothing for a negative number. */
  method SetVnumBuf(buf: array<Octet>, at: nat, number: int) returns (len: nat)
    requires number >= 0 ==> at + |Encode(number)| <= buf.Length
    modifies buf
    ensures number < 0 ==> len == 0 && buf[..] == old(buf[..])
    ensures number >= 0 ==> len == |Encode(number)| && buf[at..at + len] == Encode(number)
    ensures forall k :: 0 <= k < buf.Length && !(at <= k < at + len) ==> buf[k] == old(buf[k])
  {
    if number == 0 {
      buf[at] := 0;
      return 1;
    }
    len := 0;
    var num := number;
    assert number > 0 ==> ToCome(num) == Encode(number);
    hide Encode, ToCome, Unsigned;
    while num > 0
      invariant number > 0 ==> num >= 0 && at + len <= buf.Length
      invariant number > 0 ==> Encode(number) == buf[at..at + len] + ToCome(num)
      invariant number > 0 && num <= 0 ==> ToCome(num) == []
      invariant number < 0 ==> num == number && len == 0
      invariant forall k :: 0 <= k < buf.Length && !(at <= k < at + len) ==> buf[k] == old(buf[k])
    {
      ghost var before := buf[at..at + len];
      FirstDigit(num);
      var rem := num % 128;
      num := num / 128;
      var digit := if num > 0 then Unsigned(-rem - 1) else rem;
      assert Encode(number) == before + [digit] + ToCome(num);
      RoomLeft(number, before, digit, num);
      buf[at + len] := digit;
      len := len + 1;
      assert buf[at..at + len] == before + [digit];
    }
  }

  lemma RoomLeft(number: nat, before: seq<Octet>, digit: Octet, num: int)
    requires Encode(number) == before + [digit] + ToCome(num)
    ensures |Encode(number)| >= |before| + 1
  {
  }

  /** The bytes still to be written for a number cut down to n. */
  function ToCome(n: int): seq<Octet> {
    if n > 0 then Encode(n) else []
  }

  function Digit(n: nat): Octet {
    if n / 128 > 0 then Unsigned(-(n % 128) - 1) else n % 128
  }

  lemma FirstDigit(n: nat)
    requires n > 0
    ensures ToCome(n) == [Digit(n)] + ToCome(n / 128)
    ensures n / 128 >= 0 && (n / 128 == 0 ==> ToCome(n / 128) == [])
    ensures Digit(n) == if n / 128 > 0 then Unsigned(-(n % 128) - 1) else n % 128
  {
  }

  /** What keeps TFREADVNUMBUF's int arithmetic in range. */
  predicate FitsInt(n: Number) {
    n.Number? && n.value <= INT_MAX && n.step <= 5
  }

  /** Every encoded int fits. */
  lemma EncodedFits(n: nat, rest: seq<Octet>)
    requires n <= INT_MAX
    ensures FitsInt(Decode(Encode(n) + rest))
  {
    EncodeDecode(n, rest);
    CalcSizeIsLength(n);
  }

  /** v at the weight of the i-th digit. */
  function Weighted(i: nat, v: int): int {
    if i == 0 then v else 128 * Weighted(i - 1, v)
  }

  /** The last digit. */
  lemma LastDigit(i: nat, p: int, c: int)
    requires i <= 4 && p == Weighted(i, 1) && 0 <= c < 128
    ensures Weighted(i, c) == c * p >= 0
  {
    UpToFour(i, 1);
    UpToFour(i, c);
  }

  lemma UpToFour(i: nat, v: int)
    requires i <= 4
    ensures Weighted(i, v) == (if i == 0 then v else if i == 1 then 0x80 * v else if i == 2 then 0x4000 * v
                               else if i == 3 then 0x200000 * v else 0x10000000 * v)
  {
    assert i >= 2 ==> Weighted(i, v) == 128 * (128 * Weighted(i - 2, v));
    assert i >= 4 ==> Weighted(i - 2, v) == 128 * (128 * Weighted(i - 4, v));
  }

  /** A digit with more to come, stored as e minus one. */
  lemma InnerDigit(i: nat, p: int, e: int, v: nat)
    requires i <= 3 && p == Weighted(i, 1) && -127 <= e <= 0
    ensures Weighted(i, -e + 128 * v) == -(p * e) + Weighted(i + 1, v)
    ensures Weighted(i + 1, v) >= 0 && p * e <= 0
    ensures 0 < Weighted(i + 1, 1) == p * 128 <= 0x10000000
  {
    UpToFour(i, 1);
    UpToFour(i, -e + 128 * v);
    UpToFour(i + 1, v);
    UpToFour(i + 1, 1);
  }

  /** TFREADVNUMBUF, in C ints: no step of it overflows on a number that fits. */
  method ReadVnumBuf(buf: seq<Octet>) returns (num: int32, step: nat)
    requires FitsInt(Decode(buf))
    ensures num >= 0 && Decode(buf) == Number(num as int, step)
  {
    num := 0;
    var base: int32 := 1;
    var i := 0;
    assert buf[0..] == buf;
    hide Weighted, FitsInt;
    while true
      invariant i <= |buf| && Decode(buf[i..]).Number? && Decode(buf).step == i + Decode(buf[i..]).step
      invariant base as int == Weighted(i, 1) && num >= 0
      invariant num as int + Weighted(i, Decode(buf[i..]).value) == Decode(buf).value
      decreases |buf| - i
    {
      DigitAt(buf[i..]);
      var c := Signed(buf[i]);
      if c >= 0 {
        LastDigit(i, base as int, c);
        num := num + c as int32 * base;
        break;
      }
      assert buf[i..][1..] == buf[i + 1..];
      InnerDigit(i, base as int, c + 1, Decode(buf[i + 1..]).value);
      num := num + base * (c + 1) as int32 * -1;
      base := base * 128;
      i := i + 1;
    }
    step := i + 1;
  }

  lemma DigitAt(bytes: seq<Octet>)
    requires Decode(bytes).Number?
    ensures bytes != []
    ensures Signed(bytes[0]) >= 0 ==> Decode(bytes) == Number(Signed(bytes[0]), 1)
    ensures Signed(bytes[0]) < 0 ==>
              var next := Decode(bytes[1..]);
              next.Number? && Decode(bytes) == Number(-(Signed(bytes[0]) + 1) + 128 * next.value, next.step + 1)
  {
  }
}
