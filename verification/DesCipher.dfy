/** The block cipher of tflib/expert/d3des.c on 32-bit words: swap-trick permutations around 16 Feistel rounds. */
module DesCipher {
  import opened Machine

  /** The eight combined S-box and P tables; nothing proved here depends on their entries. */
  datatype SpTables = SpTables(
    sp1: bv6 -> bv32, sp2: bv6 -> bv32, sp3: bv6 -> bv32, sp4: bv6 -> bv32,
    sp5: bv6 -> bv32, sp6: bv6 -> bv32, sp7: bv6 -> bv32, sp8: bv6 -> bv32)

  /** One round's pair of cooked key words. */
  datatype RoundKey = RoundKey(even: bv32, odd: bv32)

  datatype Halves = Halves(l: bv32, r: bv32)

  function Swap(h: Halves): Halves { Halves(h.r, h.l) }

  // ----- the five exchanges and the one-bit rotations -----

  /** Exchange the bits of `l` selected by the mask, shifted down, with those of `r`. */
  function Exchange4(h: Halves): Halves {
    var work := ((h.l >> 4) ^ h.r) & 0x0f0f0f0f;
    Halves(h.l ^ (work << 4), h.r ^ work)
  }

  function Exchange16(h: Halves): Halves {
    var work := ((h.l >> 16) ^ h.r) & 0x0000ffff;
    Halves(h.l ^ (work << 16), h.r ^ work)
  }

  function Exchange2(h: Halves): Halves {
    var work := ((h.l >> 2) ^ h.r) & 0x33333333;
    Halves(h.l ^ (work << 2), h.r ^ work)
  }

  function Exchange8(h: Halves): Halves {
    var work := ((h.l >> 8) ^ h.r) & 0x00ff00ff;
    Halves(h.l ^ (work << 8), h.r ^ work)
  }

  function Exchange0(h: Halves): Halves {
    var work := (h.l ^ h.r) & 0xaaaaaaaa;
    Halves(h.l ^ work, h.r ^ work)
  }

  function RotateLeft(x: bv32): bv32 { (x << 1) | (x >> 31) }

  function RotateRight(x: bv32): bv32 { (x << 31) | (x >> 1) }

  lemma Exchange4Undone(h: Halves)
    ensures Exchange4(Exchange4(h)) == h
  {
  }

  lemma Exchange16Undone(h: Halves)
    ensures Exchange16(Exchange16(h)) == h
  {
  }

  lemma Exchange2Undone(h: Halves)
    ensures Exchange2(Exchange2(h)) == h
  {
  }

  lemma Exchange8Undone(h: Halves)
    ensures Exchange8(Exchange8(h)) == h
  {
  }

  lemma Exchange0Undone(h: Halves)
    ensures Exchange0(Exchange0(h)) == h
  {
  }

  lemma RotationsUndone(x: bv32)
    ensures RotateLeft(RotateRight(x)) == x
    ensures RotateRight(RotateLeft(x)) == x
  {
  }

  // ----- initial and final permutation -----

  function Ip(b: Halves): Halves {
    var h2 := Exchange16(Exchange4(b));
    var h4 := Swap(Exchange8(Exchange2(Swap(h2))));
    var h5 := Exchange0(Halves(h4.l, RotateLeft(h4.r)));
    Halves(RotateLeft(h5.l), h5.r)
  }

  /** The output words come out exchanged: the right half is stored first. */
  function Fp(h: Halves): Halves {
    var h1 := Exchange0(Halves(h.l, RotateRight(h.r)));
    var h3 := Exchange2(Exchange8(Halves(RotateRight(h1.l), h1.r)));
    Exchange4(Exchange16(Swap(h3)))
  }

  lemma Exchange0SymmetricLeft(h: Halves)
    ensures Exchange0(Swap(h)).l == Exchange0(h).r
  {
  }

  lemma Exchange0SymmetricRight(h: Halves)
    ensures Exchange0(Swap(h)).r == Exchange0(h).l
  {
  }

  lemma Exchange0Symmetric(h: Halves)
    ensures Exchange0(Swap(h)) == Swap(Exchange0(h))
  {
    hide Exchange0;
    Exchange0SymmetricLeft(h);
    Exchange0SymmetricRight(h);
  }

  lemma IpUndoesFp(h: Halves)
    ensures Ip(Fp(h)) == Swap(h)
  {
    hide Exchange4, Exchange16, Exchange2, Exchange8, Exchange0, RotateLeft, RotateRight;
    var h1 := Exchange0(Halves(h.l, RotateRight(h.r)));
    var h2 := Exchange8(Halves(RotateRight(h1.l), h1.r));
    var h3 := Exchange2(h2);
    var h4 := Exchange16(Swap(h3));
    Exchange4Undone(h4);
    Exchange16Undone(Swap(h3));
    Exchange2Undone(h2);
    Exchange8Undone(Halves(RotateRight(h1.l), h1.r));
    RotationsUndone(h1.l);
    Exchange0Symmetric(h1);
    Exchange0Undone(Halves(h.l, RotateRight(h.r)));
    RotationsUndone(h.r);
  }

  lemma FpUndoesIp(b: Halves)
    ensures Fp(Swap(Ip(b))) == b
  {
    hide Exchange4, Exchange16, Exchange2, Exchange8, Exchange0, RotateLeft, RotateRight;
    var h1 := Exchange4(b);
    var h2 := Swap(Exchange16(h1));
    var h3 := Exchange2(h2);
    var h4 := Swap(Exchange8(h3));
    var h5 := Exchange0(Halves(h4.l, RotateLeft(h4.r)));
    RotationsUndone(h5.l);
    Exchange0Symmetric(h5);
    Exchange0Undone(Halves(h4.l, RotateLeft(h4.r)));
    RotationsUndone(h4.r);
    Exchange8Undone(h3);
    Exchange2Undone(h2);
    Exchange16Undone(h1);
    Exchange4Undone(b);
  }

  // ----- the round function and the 16 rounds -----

  /** The four six-bit table indices a word holds. */
  datatype Indices = Indices(i0: bv6, i8: bv6, i16: bv6, i24: bv6)

  function Fields(w: bv32): Indices {
    Indices((w & 0x3f) as bv6, ((w >> 8) & 0x3f) as bv6, ((w >> 16) & 0x3f) as bv6, ((w >> 24) & 0x3f) as bv6)
  }

  function Turned(r: bv32): bv32 { (r << 28) | (r >> 4) }

  function F(t: SpTables, r: bv32, k: RoundKey): bv32 {
    var w := Fields(Xor(Turned(r), k.even));
    var v := Fields(Xor(r, k.odd));
    var even := Or(Or(Or(t.sp7(w.i0), t.sp5(w.i8)), t.sp3(w.i16)), t.sp1(w.i24));
    Or(Or(Or(Or(even, t.sp8(v.i0)), t.sp6(v.i8)), t.sp4(v.i16)), t.sp2(v.i24))
  }

  function Round(t: SpTables, h: Halves, k: RoundKey): Halves {
    Halves(h.r, Xor(h.l, F(t, h.r, k)))
  }

  function Rounds(t: SpTables, h: Halves, ks: seq<RoundKey>): Halves
    decreases |ks|
  {
    if ks == [] then h else Rounds(t, Round(t, h, ks[0]), ks[1..])
  }

  /** One block through the cipher under the given round keys. */
  function Crypt(t: SpTables, ks: seq<RoundKey>, b: Halves): Halves {
    Fp(Rounds(t, Ip(b), ks))
  }

  // ----- reversed round keys undo the cipher -----

  function Reversed<T>(s: seq<T>): (r: seq<T>)
    ensures |r| == |s|
    ensures forall i :: 0 <= i < |s| ==> r[i] == s[|s| - 1 - i]
  {
    if s == [] then [] else Reversed(s[1..]) + [s[0]]
  }

  lemma RoundUndone(t: SpTables, h: Halves, k: RoundKey)
    ensures Round(t, Swap(Round(t, h, k)), k) == Swap(h)
  {
    hide F, Xor;
    XorTwice(h.l, F(t, h.r, k));
  }

  lemma {:induction false} RoundsAppend(t: SpTables, h: Halves, ks: seq<RoundKey>, k: RoundKey)
    ensures Rounds(t, h, ks + [k]) == Round(t, Rounds(t, h, ks), k)
    decreases |ks|
  {
    hide Round;
    if ks == [] {
      assert (ks + [k])[1..] == [];
    } else {
      assert (ks + [k])[1..] == ks[1..] + [k];
      RoundsAppend(t, Round(t, h, ks[0]), ks[1..], k);
    }
  }

  lemma {:induction false} RoundsUndone(t: SpTables, h: Halves, ks: seq<RoundKey>)
    ensures Rounds(t, Swap(Rounds(t, h, ks)), Reversed(ks)) == Swap(h)
    decreases |ks|
  {
    hide Round;
    if ks != [] {
      var h1 := Round(t, h, ks[0]);
      RoundsAppend(t, Swap(Rounds(t, h, ks)), Reversed(ks[1..]), ks[0]);
      RoundsUndone(t, h1, ks[1..]);
      RoundUndone(t, h, ks[0]);
    }
  }

  /** Running the round keys backwards deciphers, whatever the tables hold. */
  lemma CryptUndone(t: SpTables, ks: seq<RoundKey>, b: Halves)
    ensures Crypt(t, Reversed(ks), Crypt(t, ks, b)) == b
  {
    hide Ip, Fp, Rounds;
    var h := Rounds(t, Ip(b), ks);
    IpUndoesFp(h);
    RoundsUndone(t, Ip(b), ks);
    FpUndoesIp(b);
  }

  // ----- the complementation property -----
  //
  // Everything outside the round function is linear over xor, and fixes the all-ones word.

  const ONES: bv32 := 0xffff_ffff

  /** The key-field bits of a cooked word: four six-bit fields, gaps clear. */
  const FIELD_BITS: bv32 := 0x3f3f_3f3f

  function XorBoth(a: Halves, b: Halves): Halves { Halves(Xor(a.l, b.l), Xor(a.r, b.r)) }

  const ALL_ONES: Halves := Halves(ONES, ONES)

  function Not(h: Halves): Halves { XorBoth(h, ALL_ONES) }

  /** Xor with the all-ones word is the complement. */
  lemma NotComplements(h: Halves)
    ensures Not(h).l == !h.l && Not(h).r == !h.r
  {
  }

  /** Complementing a round key flips its key bits and leaves the gaps clear. */
  function NotKey(k: RoundKey): RoundKey {
    RoundKey(Xor(k.even, FIELD_BITS), Xor(k.odd, FIELD_BITS))
  }

  function NotKeys(ks: seq<RoundKey>): (r: seq<RoundKey>)
    ensures |r| == |ks| && forall i :: 0 <= i < |ks| ==> r[i] == NotKey(ks[i])
  {
    seq(|ks|, i requires 0 <= i < |ks| => NotKey(ks[i]))
  }

  lemma Exchange4Linear(a: Halves, b: Halves)
    ensures Exchange4(XorBoth(a, b)) == XorBoth(Exchange4(a), Exchange4(b))
  {
    Exchange4LeftLinear(a, b);
    Exchange4RightLinear(a, b);
    hide *;
  }

  lemma Exchange4LeftLinear(a: Halves, b: Halves)
    ensures Exchange4(XorBoth(a, b)).l == XorBoth(Exchange4(a), Exchange4(b)).l
  {
  }

  lemma Exchange4RightLinear(a: Halves, b: Halves)
    ensures Exchange4(XorBoth(a, b)).r == XorBoth(Exchange4(a), Exchange4(b)).r
  {
  }

  lemma Exchange4OfOnes()
    ensures Exchange4(ALL_ONES) == ALL_ONES
  {
  }

  lemma Exchange16Linear(a: Halves, b: Halves)
    ensures Exchange16(XorBoth(a, b)) == XorBoth(Exchange16(a), Exchange16(b))
  {
    Exchange16LeftLinear(a, b);
    Exchange16RightLinear(a, b);
    hide *;
  }

  lemma Exchange16LeftLinear(a: Halves, b: Halves)
    ensures Exchange16(XorBoth(a, b)).l == XorBoth(Exchange16(a), Exchange16(b)).l
  {
  }

  lemma Exchange16RightLinear(a: Halves, b: Halves)
    ensures Exchange16(XorBoth(a, b)).r == XorBoth(Exchange16(a), Exchange16(b)).r
  {
  }

  lemma Exchange16OfOnes()
    ensures Exchange16(ALL_ONES) == ALL_ONES
  {
  }

  lemma Exchange2Linear(a: Halves, b: Halves)
    ensures Exchange2(XorBoth(a, b)) == XorBoth(Exchange2(a), Exchange2(b))
  {
    Exchange2LeftLinear(a, b);
    Exchange2RightLinear(a, b);
    hide *;
  }

  lemma Exchange2LeftLinear(a: Halves, b: Halves)
    ensures Exchange2(XorBoth(a, b)).l == XorBoth(Exchange2(a), Exchange2(b)).l
  {
  }

  lemma Exchange2RightLinear(a: Halves, b: Halves)
    ensures Exchange2(XorBoth(a, b)).r == XorBoth(Exchange2(a), Exchange2(b)).r
  {
  }

  lemma Exchange2OfOnes()
    ensures Exchange2(ALL_ONES) == ALL_ONES
  {
  }

  lemma Exchange8Linear(a: Halves, b: Halves)
    ensures Exchange8(XorBoth(a, b)) == XorBoth(Exchange8(a), Exchange8(b))
  {
    Exchange8LeftLinear(a, b);
    Exchange8RightLinear(a, b);
    hide *;
  }

  lemma Exchange8LeftLinear(a: Halves, b: Halves)
    ensures Exchange8(XorBoth(a, b)).l == XorBoth(Exchange8(a), Exchange8(b)).l
  {
  }

  lemma Exchange8RightLinear(a: Halves, b: Halves)
    ensures Exchange8(XorBoth(a, b)).r == XorBoth(Exchange8(a), Exchange8(b)).r
  {
  }

  lemma Exchange8OfOnes()
    ensures Exchange8(ALL_ONES) == ALL_ONES
  {
  }

  lemma Exchange0Linear(a: Halves, b: Halves)
    ensures Exchange0(XorBoth(a, b)) == XorBoth(Exchange0(a), Exchange0(b))
  {
    Exchange0LeftLinear(a, b);
    Exchange0RightLinear(a, b);
    hide *;
  }

  lemma Exchange0LeftLinear(a: Halves, b: Halves)
    ensures Exchange0(XorBoth(a, b)).l == XorBoth(Exchange0(a), Exchange0(b)).l
  {
  }

  lemma Exchange0RightLinear(a: Halves, b: Halves)
    ensures Exchange0(XorBoth(a, b)).r == XorBoth(Exchange0(a), Exchange0(b)).r
  {
  }

  lemma Exchange0OfOnes()
    ensures Exchange0(ALL_ONES) == ALL_ONES
  {
  }

  lemma RotateLeftLinear(x: bv32, y: bv32)
    ensures RotateLeft(Xor(x, y)) == Xor(RotateLeft(x), RotateLeft(y))
  {
  }

  lemma RotateLeftOfOnes()
    ensures RotateLeft(ONES) == ONES
  {
  }

  lemma RotateRightLinear(x: bv32, y: bv32)
    ensures RotateRight(Xor(x, y)) == Xor(RotateRight(x), RotateRight(y))
  {
  }

  lemma RotateRightOfOnes()
    ensures RotateRight(ONES) == ONES
  {
  }

  lemma TurnedLinear(x: bv32, y: bv32)
    ensures Turned(Xor(x, y)) == Xor(Turned(x), Turned(y))
  {
  }

  lemma TurnedOfOnes()
    ensures Turned(ONES) == ONES
  {
  }

  lemma SwapLinear(a: Halves, b: Halves)
    ensures Swap(XorBoth(a, b)) == XorBoth(Swap(a), Swap(b))
  {
  }

  lemma RotateOneLinear(a: Halves)
    ensures Halves(Not(a).l, RotateLeft(Not(a).r)) == Not(Halves(a.l, RotateLeft(a.r)))
    ensures Halves(Not(a).l, RotateRight(Not(a).r)) == Not(Halves(a.l, RotateRight(a.r)))
    ensures Halves(RotateLeft(Not(a).l), Not(a).r) == Not(Halves(RotateLeft(a.l), a.r))
    ensures Halves(RotateRight(Not(a).l), Not(a).r) == Not(Halves(RotateRight(a.l), a.r))
  {
    hide Xor, RotateLeft, RotateRight;
    RotateLeftLinear(a.r, ONES);
    RotateRightLinear(a.r, ONES);
    RotateLeftLinear(a.l, ONES);
    RotateRightLinear(a.l, ONES);
    RotateLeftOfOnes();
    RotateRightOfOnes();
  }

  lemma ExchangesOfNot(a: Halves)
    ensures Exchange4(Not(a)) == Not(Exchange4(a))
    ensures Exchange16(Not(a)) == Not(Exchange16(a))
    ensures Exchange2(Not(a)) == Not(Exchange2(a))
    ensures Exchange8(Not(a)) == Not(Exchange8(a))
    ensures Exchange0(Not(a)) == Not(Exchange0(a))
    ensures Swap(Not(a)) == Not(Swap(a))
  {
    hide XorBoth, Exchange4, Exchange16, Exchange2, Exchange8, Exchange0;
    Exchange4Linear(a, ALL_ONES); Exchange4OfOnes();
    Exchange16Linear(a, ALL_ONES); Exchange16OfOnes();
    Exchange2Linear(a, ALL_ONES); Exchange2OfOnes();
    Exchange8Linear(a, ALL_ONES); Exchange8OfOnes();
    Exchange0Linear(a, ALL_ONES); Exchange0OfOnes();
    SwapLinear(a, ALL_ONES);
  }

  lemma IpOfNot(b: Halves)
    ensures Ip(Not(b)) == Not(Ip(b))
  {
    hide Exchange4, Exchange16, Exchange2, Exchange8, Exchange0, RotateLeft, RotateRight, Swap, Not;
    var h1 := Exchange4(b);
    var h2 := Exchange16(h1);
    var h3 := Exchange2(Swap(h2));
    var h4 := Exchange8(h3);
    var h5 := Halves(Swap(h4).l, RotateLeft(Swap(h4).r));
    ExchangesOfNot(b);
    ExchangesOfNot(h1);
    ExchangesOfNot(h2);
    ExchangesOfNot(Swap(h2));
    ExchangesOfNot(h3);
    ExchangesOfNot(h4);
    RotateOneLinear(Swap(h4));
    ExchangesOfNot(h5);
    RotateOneLinear(Exchange0(h5));
  }

  lemma FpOfNot(h: Halves)
    ensures Fp(Not(h)) == Not(Fp(h))
  {
    hide Exchange4, Exchange16, Exchange2, Exchange8, Exchange0, RotateLeft, RotateRight, Swap, Not;
    var h0 := Halves(h.l, RotateRight(h.r));
    var h1 := Exchange0(h0);
    var h2 := Halves(RotateRight(h1.l), h1.r);
    var h3 := Exchange8(h2);
    var h4 := Exchange2(h3);
    var h5 := Swap(h4);
    RotateOneLinear(h);
    ExchangesOfNot(h0);
    RotateOneLinear(h1);
    ExchangesOfNot(h2);
    ExchangesOfNot(h3);
    ExchangesOfNot(h4);
    ExchangesOfNot(h5);
    ExchangesOfNot(Exchange16(h5));
  }

  lemma FieldsIgnoreGaps(x: bv32, g: bv32)
    requires g & 0x3f3f_3f3f == 0
    ensures Fields(Xor(x, g)) == Fields(x)
  {
  }

  lemma GapsOnly()
    ensures Xor(ONES, FIELD_BITS) & 0x3f3f_3f3f == 0
  {
  }

  /** Each six-bit index is the xor of a data field and a key field, so both complements cancel. */
  lemma FieldsOfNot(r: bv32, k: bv32)
    ensures Fields(Xor(Xor(r, ONES), Xor(k, FIELD_BITS))) == Fields(Xor(r, k))
  {
    GapsOnly();
    hide Xor, Fields;
    XorRearranged(r, ONES, k, FIELD_BITS);
    FieldsIgnoreGaps(Xor(r, k), Xor(ONES, FIELD_BITS));
  }

  lemma FOfNot(t: SpTables, r: bv32, k: RoundKey)
    ensures F(t, Xor(r, ONES), NotKey(k)) == F(t, r, k)
  {
    hide Fields, Turned, Xor;
    TurnedLinear(r, ONES);
    TurnedOfOnes();
    FieldsOfNot(Turned(r), k.even);
    FieldsOfNot(r, k.odd);
  }

  lemma RoundOfNot(t: SpTables, h: Halves, k: RoundKey)
    ensures Round(t, Not(h), NotKey(k)) == Not(Round(t, h, k))
  {
    hide F, Xor, NotKey;
    FOfNot(t, h.r, k);
    XorSwapped(h.l, ONES, F(t, h.r, k));
  }

  lemma {:induction false} RoundsOfNot(t: SpTables, h: Halves, ks: seq<RoundKey>)
    ensures Rounds(t, Not(h), NotKeys(ks)) == Not(Rounds(t, h, ks))
    decreases |ks|
  {
    hide Round, NotKey, Not;
    if ks != [] {
      assert NotKeys(ks)[1..] == NotKeys(ks[1..]);
      RoundOfNot(t, h, ks[0]);
      RoundsOfNot(t, Round(t, h, ks[0]), ks[1..]);
    }
  }

  /** Complementing the block and every round key complements the result. */
  lemma CryptOfNot(t: SpTables, ks: seq<RoundKey>, b: Halves)
    ensures Crypt(t, NotKeys(ks), Not(b)) == Not(Crypt(t, ks, b))
  {
    hide Ip, Fp, Rounds, Not, NotKeys;
    IpOfNot(b);
    RoundsOfNot(t, Ip(b), ks);
    FpOfNot(Rounds(t, Ip(b), ks));
  }
}
