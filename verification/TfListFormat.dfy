/** The serialized form of a list (tflib/tf_list.c): each element after the variable-length number of its size. */
module TfListFormat {
  import opened TfVarint

  type Bytes = seq<Octet>

  function Dump(items: seq<Bytes>): Bytes {
    if items == [] then [] else Encode(|items[0]|) + items[0] + Dump(items[1..])
  }

  datatype Loaded = Items(items: seq<Bytes>) | Malformed

  /** The elements of a well-formed byte array: every size is a C int and every element ends inside the array. */
  function Load(bytes: Bytes): Loaded
    decreases |bytes|
  {
    if bytes == [] then Items([])
    else
      var n := Decode(bytes);
      if !FitsInt(n) || n.step + n.value > |bytes| then Malformed
      else
        match Load(bytes[n.step + n.value..])
        case Items(rest) => Items([bytes[n.step..n.step + n.value]] + rest)
        case Malformed => Malformed
  }

  ghost predicate IntSized(items: seq<Bytes>) {
    forall i :: 0 <= i < |items| ==> |items[i]| <= INT_MAX
  }

  lemma OneElement(item: Bytes, rest: Bytes)
    requires |item| <= INT_MAX
    ensures var bytes, head := Encode(|item|) + item + rest, |Encode(|item|)|;
            && Decode(bytes) == Number(|item|, head) && FitsInt(Decode(bytes))
            && bytes[head..head + |item|] == item && bytes[head + |item|..] == rest
  {
    assert Encode(|item|) + item + rest == Encode(|item|) + (item + rest);
    EncodeDecode(|item|, item + rest);
    EncodedFits(|item|, item + rest);
  }

  /** What is dumped loads as the list it was, for elements of every size an int can hold. */
  lemma {:induction false} LoadDump(items: seq<Bytes>)
    requires IntSized(items)
    ensures Load(Dump(items)) == Items(items)
  {
    if items != [] {
      OneElement(items[0], Dump(items[1..]));
      LoadDump(items[1..]);
      hide Encode, Decode, FitsInt;
      assert Dump(items) == Encode(|items[0]|) + items[0] + Dump(items[1..]);
      assert items == [items[0]] + items[1..];
    }
  }

  lemma {:induction false} DumpAppend(items: seq<Bytes>, item: Bytes)
    ensures Dump(items + [item]) == Dump(items) + Encode(|item|) + item
  {
    if items == [] {
      assert items + [item] == [item];
      assert Dump([item]) == Encode(|item|) + item + Dump([item][1..]);
    } else {
      assert (items + [item])[1..] == items[1..] + [item];
      DumpAppend(items[1..], item);
    }
  }

  /** Size, bytes, size, bytes: nothing before, between or after, and no byte moved. */
  lemma DumpExample(a: Octet, b: Octet, c: Octet)
    ensures Dump([[a, b], [], [c]]) == [2, a, b, 0, 1, c]
  {
    var items: seq<Bytes> := [[a, b], [], [c]];
    assert items[1..] == [[], [c]] && items[1..][1..] == [[c]];
    assert Encode(2) == [2] && Encode(0) == [0] && Encode(1) == [1];
    assert Dump([[c]]) == [1, c];
    assert Dump([[], [c]]) == [0, 1, c];
  }

  // ----- does the dump fit its buffer? -----

  /** tsiz: the buffer tf_list_dump allocates is one byte larger. */
  function BufferSize(items: seq<Bytes>): (n: nat)
    ensures n >= 4 * |items|
  {
    if items == [] then 0 else |items[0]| + 4 + BufferSize(items[1..])
  }

  /** Elements whose size needs a fifth byte, against the prefix bytes the smaller ones leave unused. */
  function Balance(items: seq<Bytes>): int {
    if items == [] then 0 else CalcSize(|items[0]|) - 4 + Balance(items[1..])
  }

  /** The dump stays inside its buffer exactly when at most one size too many needs five bytes. */
  lemma {:induction false} DumpFitsExactly(items: seq<Bytes>)
    requires IntSized(items)
    ensures |Dump(items)| == BufferSize(items) + Balance(items)
    ensures |Dump(items)| <= BufferSize(items) + 1 <==> Balance(items) <= 1
  {
    if items != [] {
      CalcSizeIsLength(|items[0]|);
      DumpFitsExactly(items[1..]);
      assert |Dump(items)| == |Encode(|items[0]|)| + |items[0]| + |Dump(items[1..])|;
    }
  }

  /** So it fits whenever every size is below 2 to the 28. */
  lemma {:induction false} SmallElementsFit(items: seq<Bytes>)
    requires forall i :: 0 <= i < |items| ==> |items[i]| < 0x10000000
    ensures Balance(items) <= 0
  {
    if items != [] {
      SmallElementsFit(items[1..]);
    }
  }

  /** Two elements of that size do not fit, although the int that holds the buffer's size does not overflow. */
  lemma TwoLargeElementsOverrun(a: Bytes, b: Bytes)
    requires |a| == |b| == 0x10000000
    ensures BufferSize([a, b]) + 1 <= INT_MAX
    ensures |Dump([a, b])| == BufferSize([a, b]) + 2
  {
    assert [a, b][1..] == [b] && [b][1..] == [];
    assert Balance([a, b]) == 1 + Balance([b]);
    assert BufferSize([a, b]) == |a| + 4 + BufferSize([b]);
    DumpFitsExactly([a, b]);
  }

  /** A prefix of the list takes no more than the whole. */
  lemma {:induction false} DumpPrefix(items: seq<Bytes>, i: nat)
    requires i <= |items|
    ensures |Dump(items[..i])| <= |Dump(items)|
    decreases |items| - i
  {
    if i < |items| {
      DumpPrefixStep(items, i);
      DumpPrefix(items, i + 1);
    } else {
      assert items[..i] == items;
    }
  }

  lemma DumpPrefixStep(items: seq<Bytes>, i: nat)
    requires i < |items|
    ensures Dump(items[..i + 1]) == Dump(items[..i]) + Encode(|items[i]|) + items[i]
  {
    assert items[..i + 1] == items[..i] + [items[i]];
    DumpAppend(items[..i], items[i]);
  }
}
