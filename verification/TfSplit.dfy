/** Splitting a string into a list and joining a list into a string (tflib/tf_util.c). */
module TfSplit {
  import opened TfList
  import opened TfListFormat
  import opened TfVarint

  /** The pieces between delimiters; the last may be empty, and an empty string has one empty piece. */
  function Split(s: Bytes, delims: Bytes): (r: seq<Bytes>)
    ensures |r| >= 1
  {
    if s == [] then [[]]
    else if s[0] in delims then [[]] + Split(s[1..], delims)
    else
      var rest := Split(s[1..], delims);
      [[s[0]] + rest[0]] + rest[1..]
  }

  function Join(l: seq<Bytes>, delim: Octet): Bytes {
    if l == [] then [] else if |l| == 1 then l[0] else l[0] + [delim] + Join(l[1..], delim)
  }

  /** Joining what was split at one character gives the string back. */
  lemma {:induction false} JoinSplit(s: Bytes, d: Octet)
    ensures Join(Split(s, [d]), d) == s
  {
    if s == [] {
    } else {
      JoinSplit(s[1..], d);
      var rest := Split(s[1..], [d]);
      if s[0] == d {
        assert Split(s, [d])[1..] == rest;
        assert Join(Split(s, [d]), d) == [] + [d] + Join(rest, d);
      } else {
        var l := Split(s, [d]);
        assert l[1..] == rest[1..];
        assert Join(l, d) == [s[0]] + Join(rest, d);
      }
    }
  }

  predicate Free(l: seq<Bytes>, d: Octet) {
    forall i :: 0 <= i < |l| ==> d !in l[i]
  }

  /** No piece holds a delimiter. */
  lemma {:induction false} PiecesAreFree(s: Bytes, delims: Bytes, d: Octet)
    requires d in delims
    ensures Free(Split(s, delims), d)
  {
    if s != [] {
      PiecesAreFree(s[1..], delims, d);
    }
  }

  lemma {:induction false} SplitPiece(a: Bytes, d: Octet, rest: Bytes)
    requires d !in a
    ensures Split(a, [d]) == [a]
    ensures Split(a + [d] + rest, [d]) == [a] + Split(rest, [d])
  {
    if a == [] {
      assert [] + [d] + rest == [d] + rest;
      assert ([d] + rest)[1..] == rest;
    } else {
      SplitPiece(a[1..], d, rest);
      assert (a + [d] + rest)[1..] == a[1..] + [d] + rest;
      assert [a[0]] + a[1..] == a;
    }
  }

  lemma {:induction false} SplitJoinFree(l: seq<Bytes>, d: Octet)
    requires l != [] && Free(l, d)
    ensures Split(Join(l, d), [d]) == l
  {
    if |l| == 1 {
      SplitPiece(l[0], d, []);
    } else {
      SplitJoinFree(l[1..], d);
      SplitPiece(l[0], d, Join(l[1..], d));
      assert l == [l[0]] + l[1..];
    }
  }

  lemma SplitJoinAtCharacter(l: seq<Bytes>, d: Octet)
    ensures Split(Join(l, d), [d]) == l <==> l != [] && Free(l, d)
  {
    hide Split, Join, Free;
    if l != [] && Free(l, d) {
      SplitJoinFree(l, d);
    }
    PiecesAreFree(Join(l, d), [d], d);
  }

  // ----- strings end at the first zero -----

  /** What a C string in this buffer is: the bytes before its first zero. */
  function Text(b: Bytes): (r: Bytes)
    ensures 0 !in r && |r| <= |b|
    ensures |r| == |b| || b[|r|] == 0
  {
    if b == [] || b[0] == 0 then [] else [b[0]] + Text(b[1..])
  }

  lemma {:induction false} TextOfFree(b: Bytes)
    requires 0 !in b
    ensures Text(b) == b
  {
    if b != [] { TextOfFree(b[1..]); }
  }

  /** Nothing behind the terminator is read. */
  lemma {:induction false} TextStopsAt(b: Bytes, rest: Bytes)
    ensures Text(b + [0] + rest) == Text(b)
  {
    if b == [] {
      assert (b + [0] + rest)[0] == 0;
    } else {
      assert (b + [0] + rest)[1..] == b[1..] + [0] + rest;
      TextStopsAt(b[1..], rest);
    }
  }

  lemma {:induction false} TextIsPrefix(b: Bytes)
    ensures Text(b) == b[..|Text(b)|]
    ensures 0 in b ==> |Text(b)| < |b|
  {
    if b != [] && b[0] != 0 {
      TextIsPrefix(b[1..]);
    }
  }

  /** Splitting makes up no character. */
  lemma {:induction false} PiecesFromText(s: Bytes, delims: Bytes, c: Octet)
    requires c !in s
    ensures Free(Split(s, delims), c)
  {
    if s != [] {
      PiecesFromText(s[1..], delims, c);
    }
  }

  lemma {:induction false} NoDelimiters(s: Bytes)
    ensures Split(s, []) == [s]
  {
    if s != [] {
      NoDelimiters(s[1..]);
      assert s == [s[0]] + s[1..];
    }
  }

  lemma {:induction false} JoinIsFree(l: seq<Bytes>, d: Octet, c: Octet)
    requires Free(l, c) && (c != d || |l| <= 1)
    ensures c !in Join(l, d)
  {
    if |l| > 1 {
      JoinIsFree(l[1..], d, c);
    }
  }

  /** The delimiter as the string of delimiters tf_strsplit reads: a zero makes that string empty. */
  function AsDelims(d: Octet): Bytes {
    if d == 0 then [] else [d]
  }

  /** What tf_strsplit makes of the text tf_strjoin leaves. */
  function Resplit(l: seq<Bytes>, d: Octet): seq<Bytes> {
    Split(Text(Join(l, d)), AsDelims(d))
  }

  /** Splitting what was joined gives the list back exactly when the list is not empty, no element holds the delimiter
      or a zero, and a zero delimiter is not put between two elements. */
  lemma SplitJoin(l: seq<Bytes>, d: Octet)
    ensures Resplit(l, d) == l <==> l != [] && Free(l, d) && Free(l, 0) && (d != 0 || |l| == 1)
  {
    hide Split, Join, Free, Text;
    PiecesFromText(Text(Join(l, d)), AsDelims(d), 0);
    NoDelimiters(Text(Join(l, d)));
    if Free(l, 0) && (d != 0 || |l| <= 1) {
      JoinIsFree(l, d, 0);
      TextOfFree(Join(l, d));
      SplitJoinAtCharacter(l, d);
      if d == 0 && |l| == 1 { SingleJoin(l, d); }
    }
  }

  lemma SingleJoin(l: seq<Bytes>, d: Octet)
    requires |l| == 1
    ensures [Join(l, d)] == l
  {
  }

  // ----- the functions of the source -----

  /** strchr on the delimiters, for a character other than their terminator. */
  method Strchr(delims: Bytes, c: Octet) returns (found: bool)
    requires 0 in delims && c != 0
    ensures found <==> c in Text(delims)
  {
    TextIsPrefix(delims);
    var i := 0;
    while delims[i] != 0 && delims[i] != c
      invariant i <= |Text(delims)| < |delims|
      invariant c !in delims[..i]
      decreases |delims| - i
    {
      assert delims[..i + 1] == delims[..i] + [delims[i]];
      if i < |Text(delims)| { assert Text(delims)[i] == delims[i]; }
      i := i + 1;
    }
    if i < |Text(delims)| { assert Text(delims)[i] == delims[i] && delims[i] in Text(delims); }
    found := delims[i] == c;
  }

  /** The first character that is the terminator or a delimiter. */
  method Scan(str: Bytes, at: nat, delims: Bytes) returns (i: nat)
    requires at <= |Text(str)| < |str| && 0 in delims
    ensures at <= i <= |Text(str)| && (str[i] == 0 || str[i] in Text(delims))
    ensures forall k :: at <= k < i ==> str[k] != 0 && str[k] !in Text(delims)
  {
    hide Text;
    i := at;
    while str[i] != 0
      invariant at <= i <= |Text(str)|
      invariant forall k :: at <= k < i ==> str[k] != 0 && str[k] !in Text(delims)
      decreases |str| - i
    {
      var found := Strchr(delims, str[i]);
      if found {
        break;
      }
      i := i + 1;
    }
  }

  lemma {:induction false} SplitAt(text: Bytes, n: nat, delims: Bytes)
    requires n <= |text| && forall k :: 0 <= k < n ==> text[k] !in delims
    ensures n == |text| ==> Split(text, delims) == [text]
    ensures n < |text| && text[n] in delims ==> Split(text, delims) == [text[..n]] + Split(text[n + 1..], delims)
    decreases n
  {
    if n > 0 {
      SplitAt(text[1..], n - 1, delims);
      assert n < |text| ==> text[1..][n - 1 + 1..] == text[n + 1..];
      assert [text[0]] + text[1..][..n - 1] == text[..n];
      assert [text[0]] + text[1..] == text;
    }
  }

  /** One round of the loop: the piece found, and what is left when a delimiter ended it. */
  lemma PieceAt(text: Bytes, str: Bytes, sp: nat, i: nat, delims: Bytes)
    requires text == Text(str) && |text| < |str| && sp <= i <= |text|
    requires forall k :: sp <= k < i ==> str[k] !in delims
    requires str[i] == 0 || str[i] in delims
    ensures str[i] == 0 <==> i == |text|
    ensures Split(text[sp..], delims) == [str[sp..i]] + (if i == |text| then [] else Split(text[i + 1..], delims))
  {
    TextIsPrefix(str);
    hide Text, Split;
    var rest, n := text[sp..], i - sp;
    assert forall k :: 0 <= k < n ==> rest[k] == str[sp + k];
    if i < |text| { assert text[i] == str[i] && text[i] in text; }
    SplitAt(rest, n, delims);
    assert str[sp..i] == rest[..n];
    assert i < |text| ==> rest[n + 1..] == text[i + 1..];
    assert i == |text| ==> rest[..n] == rest;
  }

  method PushPiece(list: List, str: Bytes, sp: nat, delims: Bytes) returns (i: nat)
    requires list.Valid() && sp <= |Text(str)| < |str| && 0 in delims
    modifies list, list.slots
    ensures sp <= i <= |Text(str)| && (str[i] == 0 <==> i == |Text(str)|) && list.Valid()
    ensures list.Contents() + (if str[i] == 0 then [] else Split(Text(str)[i + 1..], Text(delims)))
            == old(list.Contents()) + Split(Text(str)[sp..], Text(delims))
    ensures list.slots == old(list.slots) || fresh(list.slots)
    ensures fresh(list.regions - old(list.regions))
  {
    hide *;
    i := Scan(str, sp, delims);
    PieceAt(Text(str), str, sp, i, Text(delims));
    list.Push(str[sp..i]);
  }

  /** tf_strsplit, on any two buffers that hold terminated strings. */
  method StrSplit(str: Bytes, delims: Bytes) returns (list: List)
    requires 0 in str && 0 in delims
    ensures fresh(list) && list.Valid() && list.Contents() == Split(Text(str), Text(delims))
  {
    TextIsPrefix(str);
    list := new List();
    var sp := 0;
    assert Text(str)[0..] == Text(str);
    hide *;
    while true
      invariant sp <= |Text(str)| && fresh(list) && fresh(list.slots) && fresh(list.regions) && list.Valid()
      invariant list.Contents() + Split(Text(str)[sp..], Text(delims)) == Split(Text(str), Text(delims))
      decreases |Text(str)| - sp
    {
      var i := PushPiece(list, str, sp, delims);
      if str[i] == 0 {
        break;
      }
      sp := i + 1;
    }
  }

  /** The buffer tf_strjoin allocates. */
  function JoinSize(l: seq<Bytes>): nat {
    if l == [] then 1 else |l[0]| + 1 + JoinSize(l[1..])
  }

  lemma {:induction false} JoinAppend(l: seq<Bytes>, item: Bytes, d: Octet)
    ensures Join(l + [item], d) == (if l == [] then item else Join(l, d) + [d] + item)
    ensures JoinSize(l + [item]) == JoinSize(l) + |item| + 1
    ensures l != [] ==> |Join(l, d)| + 2 == JoinSize(l)
  {
    if l == [] {
      assert l + [item] == [item] && [item][1..] == [];
    } else {
      assert (l + [item])[1..] == l[1..] + [item];
      JoinAppend(l[1..], item, d);
    }
  }

  lemma {:induction false} JoinPrefixFits(l: seq<Bytes>, i: nat, d: Octet)
    requires i <= |l|
    ensures |Join(l[..i], d)| + 1 <= JoinSize(l[..i]) <= JoinSize(l)
    decreases |l| - i
  {
    if i < |l| {
      JoinPrefixFits(l, i + 1, d);
      assert l[..i + 1] == l[..i] + [l[i]];
      JoinAppend(l[..i], l[i], d);
    } else {
      assert l[..i] == l;
      JoinAppend(l, [], d);
    }
  }

  /** The first pass of tf_strjoin. */
  method SizeToJoin(list: List) returns (size: nat)
    requires list.Valid()
    ensures size == JoinSize(list.Contents())
  {
    size := list.num + 1;
    for i := 0 to list.num
      invariant size + JoinSize(list.Contents()[i..]) == JoinSize(list.Contents()) + list.num - i + 1
    {
      ghost var rest := list.Contents()[i..];
      assert rest[1..] == list.Contents()[i + 1..];
      assert list.Window()[i] == list.slots[list.start + i];
      size := size + list.slots[list.start + i].size;
    }
  }

  /** The delimiter, except before the first element, and the element. */
  method JoinElement(buf: array<Octet>, wp: nat, first: bool, delim: Octet, item: Bytes) returns (next: nat)
    requires wp + |item| + (if first then 0 else 1) <= buf.Length
    modifies buf
    ensures next == wp + |item| + (if first then 0 else 1)
    ensures buf[..next] == old(buf[..wp]) + (if first then [] else [delim]) + item
  {
    next := wp;
    if !first {
      buf[next] := delim;
      next := next + 1;
    }
    ghost var before := buf[..next];
    CopyBytes(buf, next, item);
    assert buf[..next + |item|] == buf[..next] + buf[next..next + |item|];
    next := next + |item|;
  }

  /** tf_strjoin: the joined text and its terminator, inside the buffer. */
  method StrJoin(list: List, delim: Octet) returns (buf: array<Octet>)
    requires list.Valid()
    ensures fresh(buf) && buf.Length == JoinSize(list.Contents()) > |Join(list.Contents(), delim)|
    ensures buf[..|Join(list.Contents(), delim)| + 1] == Join(list.Contents(), delim) + [0]
    ensures Text(buf[..]) == Text(Join(list.Contents(), delim))
  {
    hide Text, Join, JoinSize;
    var size := SizeToJoin(list);
    buf := new Octet[size];
    var wp := JoinAll(list, buf, delim);
    buf[wp] := 0;
    assert buf[..wp + 1] == buf[..wp] + [0];
    assert buf[..] == buf[..wp + 1] + buf[wp + 1..];
    TextStopsAt(buf[..wp], buf[wp + 1..]);
  }

  method JoinAll(list: List, buf: array<Octet>, delim: Octet) returns (wp: nat)
    requires list.Valid() && buf !in list.regions && buf.Length == JoinSize(list.Contents())
    modifies buf
    ensures list.Valid() && list.Contents() == old(list.Contents())
    ensures wp < buf.Length && buf[..wp] == Join(list.Contents(), delim)
  {
    hide *;
    ghost var items := list.Contents();
    wp := 0;
    EmptyJoin(items, delim);
    for i := 0 to list.num
      invariant wp < buf.Length && buf[..wp] == Join(items[..i], delim)
      invariant list.Valid() && list.Contents() == items
    {
      wp := JoinFromList(list, i, buf, wp, delim);
    }
    assert items[..|items|] == items;
  }

  method JoinFromList(list: List, i: nat, buf: array<Octet>, wp: nat, delim: Octet) returns (next: nat)
    requires list.Valid() && i < list.num && buf !in list.regions && buf.Length == JoinSize(list.Contents())
    requires wp <= buf.Length && buf[..wp] == Join(list.Contents()[..i], delim)
    modifies buf
    ensures list.Valid() && list.Contents() == old(list.Contents())
    ensures next < buf.Length && buf[..next] == Join(list.Contents()[..i + 1], delim)
  {
    JoinPrefixFits(list.Contents(), i + 1, delim);
    JoinStep(list.Contents(), i, delim);
    hide Sound, Elements, Join, JoinSize;
    var item := list.Read(i);
    next := JoinElement(buf, wp, i == 0, delim, item);
  }

  lemma EmptyJoin(l: seq<Bytes>, d: Octet)
    ensures Join(l[..0], d) == [] && JoinSize(l) >= 1
  {
  }

  lemma JoinStep(l: seq<Bytes>, i: nat, d: Octet)
    requires i < |l|
    ensures Join(l[..i + 1], d) == Join(l[..i], d) + (if i == 0 then [] else [d]) + l[i]
  {
    assert l[..i + 1] == l[..i] + [l[i]];
    JoinAppend(l[..i], l[i], d);
  }
}
