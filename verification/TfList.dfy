/** tflib/tf_list.c: a growable array of heap regions that stands for a sequence of byte strings. */
module TfList {
  import opened TfListFormat
  import opened TfVarint

  const TF_LIST_UNIT: nat := 64

  /** A slot of the list's array: uninitialized, or a region and the size of its element. */
  datatype Slot = Unset | Node(ptr: array<Octet>, size: nat)

  /** Each element has a region of its own with room for a terminating zero, and the zero is there; the list owns
      these regions and no others, so none is lost. */
  ghost predicate Sound(ns: seq<Slot>, regions: set<array<Octet>>)
    reads regions
  {
    && (forall i :: 0 <= i < |ns| ==> ns[i].Node? && ns[i].ptr in regions)
    && (forall i :: 0 <= i < |ns| ==> ns[i].size + 1 <= ns[i].ptr.Length && ns[i].ptr[ns[i].size] == 0)
    && (forall i, j :: 0 <= i < j < |ns| ==> ns[i].ptr != ns[j].ptr)
    && |regions| == |ns|
  }

  ghost function Elements(ns: seq<Slot>, regions: set<array<Octet>>): (items: seq<Bytes>)
    requires Sound(ns, regions)
    reads regions
    ensures |items| == |ns|
    ensures forall i :: 0 <= i < |ns| ==> items[i] == ns[i].ptr[..ns[i].size]
  {
    seq(|ns|, i requires 0 <= i < |ns| && Sound(ns, regions) reads regions => ns[i].ptr[..ns[i].size])
  }

  function InsertAt<T>(s: seq<T>, k: nat, x: T): (r: seq<T>)
    requires k <= |s|
    ensures |r| == |s| + 1
    ensures forall i :: 0 <= i < |r| ==> r[i] == if i < k then s[i] else if i == k then x else s[i - 1]
  {
    s[..k] + [x] + s[k..]
  }

  function RemoveAt<T>(s: seq<T>, k: nat): (r: seq<T>)
    requires k < |s|
    ensures |r| == |s| - 1
    ensures forall i :: 0 <= i < |r| ==> r[i] == if i < k then s[i] else s[i + 1]
  {
    s[..k] + s[k + 1..]
  }

  class List {
    var slots: array<Slot>
    var anum: nat
    var start: nat
    var num: nat
    ghost var regions: set<array<Octet>>

    ghost predicate Shape()
      reads this
    {
      anum == slots.Length && start + num <= anum
    }

    /** The ns in use. */
    ghost function Window(): seq<Slot>
      requires Shape()
      reads this, slots
    {
      slots[start..start + num]
    }

    ghost predicate Valid()
      reads this, slots, regions
    {
      Shape() && Sound(Window(), regions)
    }

    ghost function Contents(): (items: seq<Bytes>)
      requires Valid()
      reads this, slots, regions
      ensures |items| == num
    {
      Elements(Window(), regions)
    }

    constructor ()
      ensures Valid() && Contents() == [] && anum == TF_LIST_UNIT && start == 0 && fresh(slots) && regions == {}
    {
      slots := new Slot[TF_LIST_UNIT](_ => Unset);
      anum, start, num, regions := TF_LIST_UNIT, 0, 0, {};
    }

    constructor Sized(anum: int)
      ensures Valid() && Contents() == [] && start == 0 && this.anum == (if anum < 1 then 1 else anum)
      ensures fresh(slots) && regions == {}
    {
      var n := if anum < 1 then 1 else anum;
      slots := new Slot[n](_ => Unset);
      this.anum, start, num, regions := n, 0, 0, {};
    }

    /** The growth step: afterwards there is room for one more element. */
    method Reserve()
      requires Shape()
      modifies this`slots, this`anum
      ensures Shape() && start + num < anum && Window() == old(Window())
      ensures slots == old(slots) || fresh(slots)
      ensures anum == if start + num < old(anum) then old(anum) else old(anum) + num + 1
    {
      if start + num >= anum {
        var was := slots;
        anum := anum + num + 1;
        slots := new Slot[anum](i requires 0 <= i reads was => if i < was.Length then was[i] else Unset);
      }
    }

    /** Store into the slot after the last one. */
    method Append(node: Slot)
      requires Shape() && start + num < anum
      modifies this`num, slots
      ensures Shape() && Window() == old(Window()) + [node]
    {
      slots[start + num] := node;
      num := num + 1;
    }

    method PushNode(node: Slot, ghost bytes: Bytes)
      requires Valid() && start + num < anum && IsNode(node, bytes) && node.ptr !in regions
      modifies this`num, this`regions, slots
      ensures Valid() && Contents() == old(Contents()) + [bytes] && regions == old(regions) + {node.ptr}
    {
      Extended(Window(), regions, node, bytes);
      hide Sound, Elements, IsNode;
      Append(node);
      regions := regions + {node.ptr};
    }

    method Push(bytes: Bytes)
      requires Valid()
      modifies this, slots
      ensures Valid() && Contents() == old(Contents()) + [bytes] && start == old(start)
      ensures slots == old(slots) || fresh(slots)
      ensures old(regions) <= regions && fresh(regions - old(regions))
    {
      hide Sound, Elements;
      Reserve();
      var node := NewNode(bytes);
      PushNode(node, bytes);
    }

    method Put(i: nat, node: Slot)
      requires i < slots.Length
      modifies slots
      ensures slots[..] == old(slots[..])[i := node]
    {
      slots[i] := node;
    }

    /** memmove up by one, then store. */
    method OpenSlot(k: nat, node: Slot)
      requires Shape() && start + num < anum && k <= num
      modifies this`num, slots
      ensures Shape() && Window() == InsertAt(old(Window()), k, node)
    {
      hide Moved, InsertAt;
      ghost var all := slots[..];
      Move(slots, start + k + 1, start + k, num - k);
      Put(start + k, node);
      Opened(all, slots[..], start, num, k, node);
      num := num + 1;
      assert Window() == slots[..][start..start + num];
    }

    /** memmove down by one over the slot. */
    method CloseSlot(k: nat)
      requires Shape() && k < num
      modifies this`num, slots
      ensures Shape() && Window() == RemoveAt(old(Window()), k)
    {
      hide Moved, RemoveAt;
      ghost var all := slots[..];
      num := num - 1;
      Move(slots, start + k, start + k + 1, num - k);
      Closed(all, slots[..], start, num + 1, k);
      assert Window() == slots[..][start..start + num];
    }

    method InsertNode(k: nat, node: Slot, ghost bytes: Bytes)
      requires Valid() && start + num < anum && IsNode(node, bytes) && node.ptr !in regions && k <= num
      modifies this`num, this`regions, slots
      ensures Valid() && Contents() == InsertAt(old(Contents()), k, bytes) && regions == old(regions) + {node.ptr}
    {
      Inserted(Window(), regions, k, node, bytes);
      hide Sound, Elements, InsertAt, IsNode;
      OpenSlot(k, node);
      regions := regions + {node.ptr};
    }

    /** An index equal to the number of elements appends. */
    method Insert(index: nat, bytes: Bytes)
      requires Valid()
      modifies this, slots
      ensures Valid() && start == old(start)
      ensures Contents() == if index > old(num) then old(Contents())
                            else InsertAt(old(Contents()), index, bytes)
      ensures slots == old(slots) || fresh(slots)
      ensures old(regions) <= regions && fresh(regions - old(regions))
    {
      if index > num {
        return;
      }
      hide Sound, Elements, InsertAt;
      Reserve();
      var node := NewNode(bytes);
      InsertNode(index, node, bytes);
    }

    /** The region goes to the caller. */
    method Remove(index: nat) returns (ptr: array?<Octet>, size: nat)
      requires Valid()
      modifies this`num, this`regions, slots
      ensures Valid() && (ptr == null <==> index >= old(num))
      ensures ptr == null ==> Contents() == old(Contents()) && regions == old(regions)
      ensures ptr != null ==> Contents() == RemoveAt(old(Contents()), index)
                              && Released(ptr, size, old(Contents())[index])
                              && ptr in old(regions) && regions == old(regions) - {ptr}
    {
      if index >= num {
        return null, 0;
      }
      hide Sound, Elements, RemoveAt, Released;
      Removed(Window(), regions, index);
      assert Window()[index] == slots[start + index];
      ptr, size := slots[start + index].ptr, slots[start + index].size;
      CloseSlot(index);
      regions := regions - {ptr};
    }

    method Pop() returns (ptr: array?<Octet>, size: nat)
      requires Valid()
      modifies this`num, this`regions
      ensures Valid() && (ptr == null <==> old(num) == 0)
      ensures ptr == null ==> Contents() == old(Contents()) && regions == old(regions)
      ensures ptr != null ==> Contents() == old(Contents())[..old(num) - 1]
                              && Released(ptr, size, old(Contents())[old(num) - 1])
                              && ptr in old(regions) && regions == old(regions) - {ptr}
    {
      if num < 1 {
        return null, 0;
      }
      ghost var ns := Window();
      var node := slots[start + num - 1];
      Removed(ns, regions, num - 1);
      assert ns[num - 1] == node;
      num := num - 1;
      ptr, size := node.ptr, node.size;
      regions := regions - {ptr};
      assert Window() == RemoveAt(ns, num);
    }

    /** The bytes of an element and its size, or null past the end. */
    method Val(index: nat) returns (ptr: array?<Octet>, size: nat)
      requires Valid()
      ensures ptr == null <==> index >= num
      ensures ptr != null ==> Released(ptr, size, Contents()[index]) && ptr in regions
    {
      if index >= num {
        return null, 0;
      }
      assert Window()[index] == slots[start + index];
      ptr, size := slots[start + index].ptr, slots[start + index].size;
    }

    /** The bytes memcpy takes from an element. */
    method Read(k: nat) returns (bytes: Bytes)
      requires Valid() && k < num
      ensures bytes == Contents()[k]
    {
      assert Window()[k] == slots[start + k];
      bytes := slots[start + k].ptr[..slots[start + k].size];
    }

    /** An element that is not larger is written over in its region. */
    method WriteOver(k: nat, ptr: array<Octet>, bytes: Bytes)
      requires Valid() && k < num && ptr == Window()[k].ptr && |bytes| <= Window()[k].size
      modifies ptr
      ensures Valid() && Released(ptr, |bytes|, bytes)
      ensures forall i :: 0 <= i < num && i != k ==> Contents()[i] == old(Contents())[i]
    {
      ghost var ns := Window();
      forall i | 0 <= i < |bytes| {
        ptr[i] := bytes[i];
      }
      ptr[|bytes|] := 0;
      assert ptr[..|bytes|] == bytes;
    }

    method SetNode(k: nat, node: Slot)
      requires Shape() && k < num
      modifies slots
      ensures Shape() && Window() == old(Window())[k := node]
    {
      slots[start + k] := node;
    }

    /** A larger element gets a larger region. */
    method OverLarger(k: nat, bytes: Bytes)
      requires Valid() && k < num
      modifies this`regions, slots
      ensures Valid() && Contents() == old(Contents())[k := bytes]
      ensures fresh(regions - old(regions))
    {
      ghost var ns, rs := Window(), regions;
      var larger := NewNode(bytes);
      Replaced(ns, rs, k, larger, bytes);
      hide Sound, Elements;
      SetNode(k, larger);
      regions := rs - {ns[k].ptr} + {larger.ptr};
    }

    method OverInPlace(k: nat, ptr: array<Octet>, bytes: Bytes)
      requires Valid() && k < num && ptr == Window()[k].ptr && |bytes| <= Window()[k].size
      modifies slots, ptr
      ensures Valid() && Contents() == old(Contents())[k := bytes]
    {
      WriteOver(k, ptr, bytes);
      ghost var ns, items := Window(), Contents();
      Replaced(ns, regions, k, Node(ptr, |bytes|), bytes);
      assert regions - {ptr} + {ptr} == regions;
      hide Sound, Elements;
      SetNode(k, Node(ptr, |bytes|));
      assert Contents() == items[k := bytes];
    }

    /** The region grows only for a larger element. */
    method Over(index: nat, bytes: Bytes)
      requires Valid()
      modifies this`regions, slots, if index < num then {Window()[index].ptr} else {}
      ensures Valid()
      ensures Contents() == if index < old(num) then old(Contents())[index := bytes] else old(Contents())
      ensures fresh(regions - old(regions))
    {
      if index >= num {
        return;
      }
      assert Window()[index] == slots[start + index];
      hide Elements;
      var node := slots[start + index];
      if |bytes| > node.size {
        OverLarger(index, bytes);
      } else {
        OverInPlace(index, node.ptr, bytes);
      }
    }

    /** The first element equal to the key, or -1. */
    method Search(bytes: Bytes) returns (index: int)
      requires Valid()
      ensures -1 <= index < num
      ensures index >= 0 ==> Contents()[index] == bytes && forall j :: 0 <= j < index ==> Contents()[j] != bytes
      ensures index == -1 ==> bytes !in Contents()
    {
      var end := start + num;
      for i := start to end
        invariant forall j :: 0 <= j < i - start ==> Contents()[j] != bytes
      {
        assert Window()[i - start] == slots[i];
        if slots[i].size == |bytes| && slots[i].ptr[..|bytes|] == bytes {
          return i - start;
        }
      }
      index := -1;
    }

    /** Each region is freed once; when all are, the list owns none. */
    method Clear()
      requires Valid()
      modifies this`start, this`num, this`regions
      ensures Valid() && Contents() == [] && start == 0 && regions == {}
    {
      ghost var ns, owned := Window(), regions;
      var end := start + num;
      for i := start to end
        invariant regions <= owned && |regions| == end - i
        invariant forall k :: i - start <= k < |ns| ==> ns[k].ptr in regions
      {
        assert ns[i - start] == slots[i];
        regions := regions - {slots[i].ptr};
      }
      start, num := 0, 0;
      assert Window() == [];
    }
  }

  /** A list of its own with the same elements, and no more slots than it needs. */
  method Dup(list: List) returns (l: List)
    requires list.Valid()
    ensures fresh(l) && fresh(l.slots) && fresh(l.regions)
    ensures l.Valid() && l.Contents() == list.Contents()
    ensures l.start == 0 && l.anum == if list.num < 1 then TF_LIST_UNIT else list.num
  {
    if list.num < 1 {
      l := new List();
      return;
    }
    hide Sound, Elements;
    l := new List.Sized(list.num);
    CopyAll(list, l);
  }

  method CopyAll(list: List, l: List)
    requires list.Valid() && l.Valid() && l.Contents() == [] && l.start + list.num <= l.anum
    requires l != list && l.slots != list.slots && l.regions !! list.regions
    modifies l`num, l`regions, l.slots
    ensures l.Valid() && l.Contents() == list.Contents() && list.Contents() == old(list.Contents()) && list.Valid()
    ensures fresh(l.regions - old(l.regions))
  {
    hide Sound, Elements;
    ghost var items := list.Contents();
    for i := 0 to list.num
      invariant list.Valid() && list.Contents() == items && fresh(l.regions - old(l.regions))
      invariant l.Valid() && l.num == i && l.Contents() == items[..i]
    {
      CopyElement(list, l, i);
      assert items[..i + 1] == items[..i] + [items[i]];
    }
  }

  method CopyElement(list: List, l: List, i: nat)
    requires list.Valid() && i < list.num && l.Valid() && l.start + l.num < l.anum
    requires l != list && l.slots != list.slots && l.regions !! list.regions
    modifies l`num, l`regions, l.slots
    ensures list.Valid() && list.Contents() == old(list.Contents())
    ensures l.Valid() && l.Contents() == old(l.Contents()) + [list.Contents()[i]] && l.num == old(l.num) + 1
    ensures fresh(l.regions - old(l.regions))
  {
    hide Sound, Elements;
    var bytes := list.Read(i);
    CopyInto(l, bytes);
  }

  method CopyInto(l: List, bytes: Bytes)
    requires l.Valid() && l.start + l.num < l.anum
    modifies l`num, l`regions, l.slots
    ensures l.Valid() && l.Contents() == old(l.Contents()) + [bytes] && l.num == old(l.num) + 1
    ensures fresh(l.regions - old(l.regions))
  {
    var node := NewNode(bytes);
    hide Sound, Elements;
    l.PushNode(node, bytes);
  }

  /** The first pass of tf_list_dump. */
  method DumpSize(list: List) returns (tsiz: nat)
    requires list.Valid()
    ensures tsiz == BufferSize(list.Contents())
  {
    tsiz := 0;
    var end := list.start + list.num;
    for i := list.start to end
      invariant tsiz + BufferSize(list.Contents()[i - list.start..]) == BufferSize(list.Contents())
    {
      ghost var rest := list.Contents()[i - list.start..];
      assert list.Window()[i - list.start] == list.slots[i];
      assert rest[1..] == list.Contents()[i + 1 - list.start..];
      tsiz := tsiz + list.slots[i].size + 4;
    }
  }

  /** tf_list_dump, on every list whose dump fits the buffer it allocates. */
  method DumpList(list: List) returns (buf: array<Octet>, size: nat)
    requires list.Valid() && BufferSize(list.Contents()) < INT_MAX && Balance(list.Contents()) <= 1
    ensures fresh(buf) && buf.Length == BufferSize(list.Contents()) + 1
    ensures size <= buf.Length && buf[..size] == Dump(list.Contents())
  {
    var tsiz := DumpSize(list);
    buf := new Octet[tsiz + 1];
    ghost var items := list.Contents();
    DumpHasRoom(items);
    EmptyDump(items);
    size := 0;
    hide Sound, Elements, Dump, BufferSize, Balance, Encode;
    for i := 0 to list.num
      invariant size <= buf.Length && buf[..size] == Dump(items[..i])
      invariant list.Valid() && list.Contents() == items
    {
      DumpPrefixStep(items, i);
      DumpPrefix(items, i + 1);
      size := DumpElement(list, i, buf, size);
    }
    assert items[..|items|] == items;
  }

  method DumpElement(list: List, i: nat, buf: array<Octet>, at: nat) returns (next: nat)
    requires list.Valid() && i < list.num && buf !in list.regions
    requires at + |Encode(|list.Contents()[i]|)| + |list.Contents()[i]| <= buf.Length
    modifies buf
    ensures list.Valid() && list.Contents() == old(list.Contents())
    ensures next == at + |Encode(|list.Contents()[i]|)| + |list.Contents()[i]|
    ensures buf[..next] == old(buf[..at]) + Encode(|list.Contents()[i]|) + list.Contents()[i]
  {
    hide Sound, Elements, Encode;
    var bytes := list.Read(i);
    next := WriteElement(buf, at, bytes);
  }

  lemma EmptyDump(items: seq<Bytes>)
    ensures Dump(items[..0]) == []
  {
  }

  lemma DumpHasRoom(items: seq<Bytes>)
    requires BufferSize(items) < INT_MAX && Balance(items) <= 1
    ensures |Dump(items)| <= BufferSize(items) + 1
  {
    SizesBelow(items);
    DumpFitsExactly(items);
  }

  lemma {:induction false} SizesBelow(items: seq<Bytes>)
    requires BufferSize(items) <= INT_MAX
    ensures IntSized(items)
  {
    if items != [] {
      SizesBelow(items[1..]);
      assert forall i :: 0 < i < |items| ==> items[i] == items[1..][i - 1];
    }
  }

  /** libc memcpy into the buffer. */
  method CopyBytes(buf: array<Octet>, at: nat, item: Bytes)
    requires at + |item| <= buf.Length
    modifies buf
    ensures buf[..at] == old(buf[..at]) && buf[at..at + |item|] == item
  {
    forall k | 0 <= k < |item| {
      buf[at + k] := item[k];
    }
  }

  /** One size and one element. */
  method WriteElement(buf: array<Octet>, at: nat, item: Bytes) returns (next: nat)
    requires at + |Encode(|item|)| + |item| <= buf.Length
    modifies buf
    ensures next == at + |Encode(|item|)| + |item|
    ensures buf[..next] == old(buf[..at]) + Encode(|item|) + item
  {
    hide Encode;
    ghost var before := buf[..at];
    var step := SetVnumBuf(buf, at, |item|);
    assert buf[..at + step] == before + Encode(|item|) by {
      assert buf[..at] == before;
      assert buf[..at + step] == buf[..at] + buf[at..at + step];
    }
    CopyBytes(buf, at + step, item);
    next := at + step + |item|;
    assert buf[..next] == buf[..at + step] + buf[at + step..next];
  }

  /** tf_list_load on a well-formed array: the slot array doubles before an element would not fit. */
  method LoadList(bytes: Bytes) returns (list: List)
    requires Load(bytes).Items?
    ensures fresh(list) && list.Valid() && list.start == 0 && list.Contents() == Load(bytes).items
  {
    hide Sound, Elements, Load, Decode, FitsInt;
    list := new List.Sized(|bytes| / 4 + 1);
    var rp := 0;
    assert bytes[0..] == bytes;
    while rp < |bytes|
      invariant rp <= |bytes| && fresh(list) && fresh(list.slots) && fresh(list.regions)
      invariant list.Valid() && list.start == 0 && list.anum >= 1
      invariant Load(bytes[rp..]).Items? && Load(bytes).items == list.Contents() + Load(bytes[rp..]).items
      decreases |bytes| - rp
    {
      LoadStep(bytes, rp);
      var vsiz, step := ReadVnumBuf(bytes[rp..]);
      rp := rp + step;
      PushDoubling(list, bytes[rp..rp + vsiz as int]);
      rp := rp + vsiz as int;
    }
    LoadEnds(bytes);
  }

  /** Make room, then store. */
  method PushDoubling(list: List, bytes: Bytes)
    requires list.Valid() && list.start == 0 && list.anum >= 1
    modifies list, list.slots
    ensures list.Valid() && list.start == 0 && list.anum >= 1 && list.Contents() == old(list.Contents()) + [bytes]
    ensures list.slots == old(list.slots) || fresh(list.slots)
    ensures fresh(list.regions - old(list.regions))
  {
    hide Sound, Elements;
    Double(list);
    CopyInto(list, bytes);
  }

  lemma LoadStep(bytes: Bytes, rp: nat)
    requires rp < |bytes| && Load(bytes[rp..]).Items?
    ensures var n := Decode(bytes[rp..]);
            && FitsInt(n) && n.step >= 1 && rp + n.step + n.value <= |bytes| && Load(bytes[rp + n.step + n.value..]).Items?
            && Load(bytes[rp..]).items
               == [bytes[rp + n.step..rp + n.step + n.value]] + Load(bytes[rp + n.step + n.value..]).items
  {
    var here, n := bytes[rp..], Decode(bytes[rp..]);
    assert here[n.step..n.step + n.value] == bytes[rp + n.step..rp + n.step + n.value];
    assert here[n.step + n.value..] == bytes[rp + n.step + n.value..];
  }

  lemma LoadEnds(bytes: Bytes)
    ensures Load(bytes[|bytes|..]) == Items([])
  {
  }

  method Double(list: List)
    requires list.Valid() && list.start == 0 && list.anum >= 1
    modifies list`slots, list`anum
    ensures list.Valid() && list.Contents() == old(list.Contents()) && list.start + list.num < list.anum && list.anum >= 1
    ensures list.slots == old(list.slots) || fresh(list.slots)
  {
    if list.num >= list.anum {
      ghost var window := list.Window();
      var was := list.slots;
      list.anum := list.anum * 2;
      list.slots := new Slot[list.anum](i requires 0 <= i reads was => if i < was.Length then was[i] else Unset);
      assert list.Window() == window;
    }
  }

  /** The caller gets the element's bytes, terminated by a zero. */
  ghost predicate Released(ptr: array<Octet>, size: nat, item: Bytes)
    reads ptr
  {
    size < ptr.Length && ptr[..size] == item && ptr[size] == 0
  }

  /** What libc memmove makes of an array. */
  function Moved<T>(a: seq<T>, dst: nat, src: nat, n: nat): (r: seq<T>)
    requires dst + n <= |a| && src + n <= |a|
    ensures |r| == |a|
    ensures forall i :: 0 <= i < |a| ==> r[i] == if dst <= i < dst + n then a[i - dst + src] else a[i]
  {
    seq(|a|, i requires 0 <= i < |a| => if dst <= i < dst + n then a[i - dst + src] else a[i])
  }

  method Move(a: array<Slot>, dst: nat, src: nat, n: nat)
    requires dst + n <= a.Length && src + n <= a.Length
    modifies a
    ensures a[..] == Moved(old(a[..]), dst, src, n)
  {
    forall k | 0 <= k < n {
      a[dst + k] := a[src + k];
    }
  }

  lemma Opened(all: seq<Slot>, up: seq<Slot>, start: nat, num: nat, k: nat, node: Slot)
    requires k <= num && start + num < |all|
    requires up == Moved(all, start + k + 1, start + k, num - k)[start + k := node]
    ensures up[start..start + num + 1] == InsertAt(all[start..start + num], k, node)
  {
    var ms, ns, rs := up[start..start + num + 1], all[start..start + num], InsertAt(all[start..start + num], k, node);
    forall i | 0 <= i < |ms| ensures ms[i] == rs[i] {
      assert ms[i] == up[start + i];
    }
  }

  lemma Closed(all: seq<Slot>, down: seq<Slot>, start: nat, num: nat, k: nat)
    requires k < num && start + num <= |all|
    requires down == Moved(all, start + k, start + k + 1, num - 1 - k)
    ensures down[start..start + num - 1] == RemoveAt(all[start..start + num], k)
  {
    var ms, rs := down[start..start + num - 1], RemoveAt(all[start..start + num], k);
    forall i | 0 <= i < |ms| ensures ms[i] == rs[i] {
      assert ms[i] == down[start + i];
    }
  }

  /** A fresh element: its bytes, and the zero after them. */
  ghost predicate IsNode(node: Slot, bytes: Bytes)
    reads if node.Node? then {node.ptr} else {}
  {
    node.Node? && node.size == |bytes| && node.ptr[..] == bytes + [0]
  }

  lemma Extended(ns: seq<Slot>, regions: set<array<Octet>>, node: Slot, bytes: Bytes)
    requires Sound(ns, regions) && IsNode(node, bytes) && node.ptr !in regions
    ensures Sound(ns + [node], regions + {node.ptr})
    ensures Elements(ns + [node], regions + {node.ptr}) == Elements(ns, regions) + [bytes]
  {
    assert node.ptr[..|bytes|] == bytes;
  }

  lemma Inserted(ns: seq<Slot>, regions: set<array<Octet>>, k: nat, node: Slot, bytes: Bytes)
    requires k <= |ns| && Sound(ns, regions) && IsNode(node, bytes) && node.ptr !in regions
    ensures var ms, rs := InsertAt(ns, k, node), regions + {node.ptr};
            Sound(ms, rs) && Elements(ms, rs) == InsertAt(Elements(ns, regions), k, bytes)
  {
    var ms, rs, items := InsertAt(ns, k, node), regions + {node.ptr}, InsertAt(Elements(ns, regions), k, bytes);
    Widened(ns, ms, regions, k, node, bytes);
    hide InsertAt, Sound;
    assert forall i :: 0 <= i < |ms| ==> Elements(ms, rs)[i] == items[i];
  }

  lemma Widened(ns: seq<Slot>, ms: seq<Slot>, regions: set<array<Octet>>, k: nat, node: Slot, bytes: Bytes)
    requires k <= |ns| && Sound(ns, regions) && IsNode(node, bytes) && node.ptr !in regions && |ms| == |ns| + 1
    requires forall i {:trigger ms[i]} :: 0 <= i < |ms| ==>
               ms[i] == if i < k then ns[i] else if i == k then node else ns[i - 1]
    ensures Sound(ms, regions + {node.ptr})
    ensures node.ptr[..|bytes|] == bytes
  {
    assert node.ptr[..|bytes|] == bytes;
  }

  lemma Replaced(ns: seq<Slot>, regions: set<array<Octet>>, k: nat, node: Slot, bytes: Bytes)
    requires k < |ns| && Sound(ns, regions) && node.Node? && node.size == |bytes| && Released(node.ptr, |bytes|, bytes)
    requires node.ptr == ns[k].ptr || node.ptr !in regions
    ensures var ms, rs := ns[k := node], regions - {ns[k].ptr} + {node.ptr};
            Sound(ms, rs) && Elements(ms, rs) == Elements(ns, regions)[k := bytes]
  {
  }

  lemma Removed(ns: seq<Slot>, regions: set<array<Octet>>, k: nat)
    requires k < |ns| && Sound(ns, regions)
    ensures ns[k].Node? && ns[k].ptr in regions && Released(ns[k].ptr, ns[k].size, Elements(ns, regions)[k])
    ensures var ms, rs := RemoveAt(ns, k), regions - {ns[k].ptr};
            Sound(ms, rs) && Elements(ms, rs) == RemoveAt(Elements(ns, regions), k)
  {
    var ms := RemoveAt(ns, k);
    assert forall i :: 0 <= i < |ms| ==> ms[i] == if i < k then ns[i] else ns[i + 1];
    hide RemoveAt;
  }

  /** tf_alloc of one byte more than the element, which is copied in and terminated. */
  method NewNode(bytes: Bytes) returns (node: Slot)
    ensures IsNode(node, bytes) && fresh(node.ptr)
  {
    var ptr := new Octet[|bytes| + 1](i requires 0 <= i < |bytes| + 1 => if i < |bytes| then bytes[i] else 0);
    assert ptr[..] == bytes + [0];
    node := Node(ptr, |bytes|);
  }

  // ----- the order of tf_list_sort and tf_list_bsearch -----

  /** tf_list_elemcmp. */
  method ElemCmp(a: Bytes, b: Bytes) returns (c: int)
    ensures c < 0 <==> Before(a, b)
    ensures c == 0 <==> a == b
    ensures c > 0 <==> Before(b, a)
  {
    var size := if |a| < |b| then |a| else |b|;
    for i := 0 to size
      invariant a[..i] == b[..i]
    {
      if a[i] > b[i] {
        OneFirst(b, a, i);
        return 1;
      }
      if a[i] < b[i] {
        OneFirst(a, b, i);
        return -1;
      }
    }
    if |a| < |b| {
      PrefixFirst(a, b);
    } else if |b| < |a| {
      PrefixFirst(b, a);
    } else {
      assert a == a[..size] && b == b[..size];
      Irreflexive(a);
    }
    return |a| - |b|;
  }

  /** Lexical order: at the first difference the smaller byte comes first, and a proper prefix before what extends it. */
  ghost predicate Before(a: Bytes, b: Bytes) {
    exists k: nat :: DiffersAt(a, b, k)
  }

  predicate DiffersAt(a: Bytes, b: Bytes, k: nat) {
    k <= |a| && k < |b| && a[..k] == b[..k] && (k < |a| ==> a[k] < b[k])
  }

  lemma OneFirst(a: Bytes, b: Bytes, k: nat)
    requires k < |a| && k < |b| && a[..k] == b[..k] && a[k] < b[k]
    ensures Before(a, b) && !Before(b, a) && a != b
  {
    assert DiffersAt(a, b, k);
    Asymmetric(a, b);
    Irreflexive(a);
  }

  lemma PrefixFirst(a: Bytes, b: Bytes)
    requires |a| < |b| && b[..|a|] == a
    ensures Before(a, b) && !Before(b, a) && a != b
  {
    assert a[..|a|] == a;
    assert DiffersAt(a, b, |a|);
    Asymmetric(a, b);
  }

  lemma Irreflexive(a: Bytes)
    ensures !Before(a, a)
  {
  }

  lemma Asymmetric(a: Bytes, b: Bytes)
    requires Before(a, b)
    ensures !Before(b, a)
  {
    if Before(b, a) {
      Transitive(a, b, a);
      Irreflexive(a);
    }
  }

  lemma Transitive(a: Bytes, b: Bytes, c: Bytes)
    requires Before(a, b) && Before(b, c)
    ensures Before(a, c)
  {
    var j: nat :| DiffersAt(a, b, j);
    var k: nat :| DiffersAt(b, c, k);
    var m := if j < k then j else k;
    assert a[..m] == a[..j][..m] == b[..m];
    assert b[..m] == b[..k][..m] == c[..k][..m] == c[..m];
    if j < k {
      assert b[j] == b[..k][j] == c[j];
    } else if k < j {
      assert a[k] == a[..j][k] == b[..j][k] == b[k];
    }
    assert DiffersAt(a, c, m);
  }
}
