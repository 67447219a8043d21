/** The file events of tflib/ae/ae.c as values: registrations, the cached highest descriptor, and the dispatch of one
    batch of fired events through handlers that change registrations. */
module AeRegistry {
  const AE_OK := 0
  const AE_ERR := -1

  /** AE_READABLE and AE_WRITABLE as the two bits of a mask. */
  datatype Mask = Mask(readable: bool, writable: bool)

  const NONE := Mask(false, false)

  function Or(a: Mask, b: Mask): Mask { Mask(a.readable || b.readable, a.writable || b.writable) }

  function Without(a: Mask, b: Mask): Mask { Mask(a.readable && !b.readable, a.writable && !b.writable) }

  /** Handlers and client data are opaque numbers. */
  datatype FileEvent = FileEvent(mask: Mask, rfileProc: int, wfileProc: int, clientData: int)

  datatype Fired = Fired(fd: nat, mask: Mask)

  function Masks(events: seq<FileEvent>): (ms: seq<Mask>)
    ensures |ms| == |events| && forall fd :: 0 <= fd < |events| ==> ms[fd] == events[fd].mask
  {
    seq(|events|, fd requires 0 <= fd < |events| => events[fd].mask)
  }

  datatype Loop = Loop(events: seq<FileEvent>, maxfd: int)

  // ----- registering and unregistering -----

  function Create(l: Loop, fd: nat, mask: Mask, proc: int, data: int): Loop {
    if fd >= |l.events| then l
    else
      var fe := l.events[fd];
      var fe' := FileEvent(Or(fe.mask, mask), if mask.readable then proc else fe.rfileProc,
                           if mask.writable then proc else fe.wfileProc, data);
      Loop(l.events[fd := fe'], if fd > l.maxfd then fd else l.maxfd)
  }

  /** The largest registered descriptor below n, or -1. */
  function Highest(events: seq<FileEvent>, n: nat): (j: int)
    requires n <= |events|
    ensures -1 <= j < n
    ensures j >= 0 ==> events[j].mask != NONE
    ensures forall k :: j < k < n ==> events[k].mask == NONE
  {
    if n == 0 then -1 else if events[n - 1].mask != NONE then n - 1 else Highest(events, n - 1)
  }

  function Delete(l: Loop, fd: nat, mask: Mask): Loop {
    if fd >= |l.events| || l.events[fd].mask == NONE then l
    else
      var events := l.events[fd := l.events[fd].(mask := Without(l.events[fd].mask, mask))];
      Loop(events, if fd == l.maxfd && events[fd].mask == NONE then Highest(events, fd) else l.maxfd)
  }

  /** What the cache promises: the largest descriptor with a non-empty mask, or -1. */
  ghost predicate MaxFdExact(l: Loop) {
    && -1 <= l.maxfd < |l.events|
    && (l.maxfd >= 0 ==> l.events[l.maxfd].mask != NONE)
    && (forall fd :: l.maxfd < fd < |l.events| ==> l.events[fd].mask == NONE)
  }

  /** Deleting keeps the cache exact; creating does so exactly unless it records an empty mask above the cache. */
  lemma MaxFdKept(l: Loop, fd: nat, mask: Mask, proc: int, data: int)
    requires MaxFdExact(l)
    ensures MaxFdExact(Delete(l, fd, mask))
    ensures MaxFdExact(Create(l, fd, mask, proc, data)) <==> fd >= |l.events| || fd <= l.maxfd || mask != NONE
  {
    if fd < |l.events| && l.events[fd].mask != NONE {
      var r := Delete(l, fd, mask);
      assert forall k :: fd < k < |r.events| ==> r.events[k] == l.events[k];
    }
  }

  // ----- dispatching a batch -----

  datatype FileOp =
    | CreateFile(fd: nat, mask: Mask, proc: int, data: int)
    | DeleteFile(fd: nat, mask: Mask)

  /** One call of a handler: which fired entry it serves, for which kind, and the registrations it found. */
  datatype Call = Call(entry: nat, fd: nat, forReading: bool, proc: int, data: int, mask: Mask, found: seq<FileEvent>)

  /** What each handler call does to the registrations, by the number of calls made before it. */
  type Handlers = (nat, Call) -> seq<FileOp>

  function Apply(l: Loop, op: FileOp): (r: Loop)
    ensures |r.events| == |l.events|
  {
    match op
    case CreateFile(fd, mask, proc, data) => Create(l, fd, mask, proc, data)
    case DeleteFile(fd, mask) => Delete(l, fd, mask)
  }

  function ApplyAll(l: Loop, ops: seq<FileOp>): (r: Loop)
    ensures |r.events| == |l.events|
    decreases |ops|
  {
    if ops == [] then l else ApplyAll(Apply(l, ops[0]), ops[1..])
  }

  lemma {:induction false} ApplyAllAppend(l: Loop, ops: seq<FileOp>, op: FileOp)
    ensures ApplyAll(l, ops + [op]) == Apply(ApplyAll(l, ops), op)
    decreases |ops|
  {
    if ops == [] {
      assert ops + [op] == [op] && [op][1..] == [];
    } else {
      assert (ops + [op])[0] == ops[0] && (ops + [op])[1..] == ops[1..] + [op];
      ApplyAllAppend(Apply(l, ops[0]), ops[1..], op);
    }
  }

  /** No handler registers an empty mask. */
  ghost predicate Proper(ops: seq<FileOp>) {
    forall i :: 0 <= i < |ops| && ops[i].CreateFile? ==> ops[i].mask != NONE
  }

  ghost predicate ProperHandlers(handlers: Handlers) {
    forall n, c :: Proper(handlers(n, c))
  }

  lemma {:induction false} MaxFdKeptByAll(l: Loop, ops: seq<FileOp>)
    requires MaxFdExact(l) && Proper(ops)
    ensures MaxFdExact(ApplyAll(l, ops))
    decreases |ops|
  {
    if ops != [] {
      match ops[0] {
        case CreateFile(fd, mask, proc, data) => MaxFdKept(l, fd, mask, proc, data);
        case DeleteFile(fd, mask) => MaxFdKept(l, fd, mask, 0, 0);
      }
      MaxFdKeptByAll(Apply(l, ops[0]), ops[1..]);
    }
  }

  /** The registrations and the calls made so far. */
  datatype Dispatch = Dispatch(loop: Loop, calls: seq<Call>)

  function Run(handlers: Handlers, d: Dispatch, c: Call): (r: Dispatch)
    ensures |r.loop.events| == |d.loop.events|
  {
    Dispatch(ApplyAll(d.loop, handlers(|d.calls|, c)), d.calls + [c])
  }

  /** The read handler, if the entry fired for reading and the descriptor is registered for it. */
  function AfterRead(handlers: Handlers, d: Dispatch, j: nat, f: Fired): (r: Dispatch)
    requires f.fd < |d.loop.events|
    ensures |r.loop.events| == |d.loop.events|
  {
    var fe := d.loop.events[f.fd];
    if fe.mask.readable && f.mask.readable then
      Run(handlers, d, Call(j, f.fd, true, fe.rfileProc, fe.clientData, f.mask, d.loop.events))
    else d
  }

  /** One fired entry: the write handler is tested on what the read handler left. */
  function Entry(handlers: Handlers, d: Dispatch, j: nat, f: Fired): (r: Dispatch)
    requires f.fd < |d.loop.events|
    ensures |r.loop.events| == |d.loop.events|
  {
    var m := AfterRead(handlers, d, j, f);
    var rfired := d.loop.events[f.fd].mask.readable && f.mask.readable;
    var fe := m.loop.events[f.fd];
    if fe.mask.writable && f.mask.writable && (!rfired || fe.wfileProc != fe.rfileProc) then
      Run(handlers, m, Call(j, f.fd, false, fe.wfileProc, fe.clientData, f.mask, m.loop.events))
    else m
  }

  predicate InRange(fired: seq<Fired>, setsize: nat) {
    forall j :: 0 <= j < |fired| ==> fired[j].fd < setsize
  }

  /** The first n entries of the batch. */
  function Batch(handlers: Handlers, d: Dispatch, fired: seq<Fired>, n: nat): (r: Dispatch)
    requires n <= |fired| && InRange(fired, |d.loop.events|)
    ensures |r.loop.events| == |d.loop.events|
  {
    if n == 0 then d else Entry(handlers, Batch(handlers, d, fired, n - 1), n - 1, fired[n - 1])
  }

  // ----- what dispatching guarantees -----

  /** The descriptor was still registered for that kind when its current handler was called with its current data. */
  predicate StillRegistered(c: Call, fired: seq<Fired>) {
    && c.entry < |fired| && fired[c.entry] == Fired(c.fd, c.mask) && c.fd < |c.found|
    && var fe := c.found[c.fd];
       && c.data == fe.clientData
       && if c.forReading then c.mask.readable && fe.mask.readable && c.proc == fe.rfileProc
          else c.mask.writable && fe.mask.writable && c.proc == fe.wfileProc
  }

  /** A second call for the same entry serves writing after reading, by a handler that differs from the read handler
      then registered, which need not be the one the first call ran. */
  predicate SecondCallDiffers(a: Call, b: Call) {
    a.entry == b.entry && b.fd < |b.found| ==>
      a.forReading && !b.forReading && b.found[b.fd].wfileProc != b.found[b.fd].rfileProc
  }

  ghost predicate Sound(calls: seq<Call>, from: nat, fired: seq<Fired>, n: nat) {
    && from <= |calls|
    && (forall k :: from <= k < |calls| ==> calls[k].entry < n && StillRegistered(calls[k], fired))
    && (forall k, m :: from <= k < m < |calls| ==> calls[k].entry <= calls[m].entry && SecondCallDiffers(calls[k], calls[m]))
  }

  lemma EntrySound(handlers: Handlers, d: Dispatch, from: nat, fired: seq<Fired>, j: nat)
    requires j < |fired| && fired[j].fd < |d.loop.events|
    requires Sound(d.calls, from, fired, j)
    ensures Sound(Entry(handlers, d, j, fired[j]).calls, from, fired, j + 1)
    ensures d.calls <= Entry(handlers, d, j, fired[j]).calls
  {
  }

  /** Over a whole batch, whatever the handlers do: a handler runs only while its descriptor is registered for that
      kind, entries are served in order, and an entry makes a second call only to serve writing after reading, by a
      handler other than the read handler registered at that moment. */
  lemma {:induction false} BatchSound(handlers: Handlers, d: Dispatch, fired: seq<Fired>, n: nat)
    requires n <= |fired| && InRange(fired, |d.loop.events|)
    ensures Sound(Batch(handlers, d, fired, n).calls, |d.calls|, fired, n)
    ensures d.calls <= Batch(handlers, d, fired, n).calls
  {
    if n > 0 {
      BatchSound(handlers, d, fired, n - 1);
      hide Entry, Sound;
      EntrySound(handlers, Batch(handlers, d, fired, n - 1), |d.calls|, fired, n - 1);
    }
  }

  // ----- which calls an entry makes -----

  /** The entry makes a read call. */
  predicate Reads(d: Dispatch, f: Fired)
    requires f.fd < |d.loop.events|
  {
    d.loop.events[f.fd].mask.readable && f.mask.readable
  }

  /** The entry makes a write call, the registrations being `m` after the read call if there was one. */
  predicate Writes(afterRead: bool, m: FileEvent, f: Fired) {
    m.mask.writable && f.mask.writable && !(afterRead && m.wfileProc == m.rfileProc)
  }

  /** What is registered for the entry's descriptor when writing is tested. */
  function AtWriteTest(handlers: Handlers, d: Dispatch, j: nat, f: Fired): FileEvent
    requires f.fd < |d.loop.events|
  {
    AfterRead(handlers, d, j, f).loop.events[f.fd]
  }

  /** The calls of one entry follow those made before it. */
  lemma EntryCalls(handlers: Handlers, d: Dispatch, j: nat, f: Fired)
    requires f.fd < |d.loop.events|
    ensures var r, e, m, b := Entry(handlers, d, j, f), d.loop.events[f.fd], AtWriteTest(handlers, d, j, f), |d.calls|;
            var w := b + if Reads(d, f) then 1 else 0;
            && d.calls <= r.calls && |r.calls| == w + (if Writes(Reads(d, f), m, f) then 1 else 0)
            && (forall k :: b <= k < |r.calls| ==> r.calls[k].entry == j)
            && (Reads(d, f) ==> r.calls[b].forReading && r.calls[b].proc == e.rfileProc)
            && (Writes(Reads(d, f), m, f) ==> !r.calls[w].forReading && r.calls[w].proc == m.wfileProc)
  {
    hide ApplyAll;
  }

  /** The calls of entry j are those made between the first j and the first j + 1 entries. */
  lemma {:induction false} CallsOfEntry(handlers: Handlers, d: Dispatch, fired: seq<Fired>, n: nat, j: nat)
    requires j < n <= |fired| && InRange(fired, |d.loop.events|)
    ensures var b, c, all := Batch(handlers, d, fired, j).calls, Batch(handlers, d, fired, j + 1).calls,
                             Batch(handlers, d, fired, n).calls;
            && d.calls <= b <= c <= all
            && forall k :: |d.calls| <= k < |all| ==> (all[k].entry == j <==> |b| <= k < |c|)
  {
    hide Entry;
    var last := Batch(handlers, d, fired, n - 1);
    BatchSound(handlers, d, fired, n - 1);
    EntryCalls(handlers, last, n - 1, fired[n - 1]);
    if j < n - 1 {
      CallsOfEntry(handlers, d, fired, n - 1, j);
    }
  }

  /** Some call of the batch served entry j for this kind. */
  predicate Served(calls: seq<Call>, from: nat, j: nat, forReading: bool) {
    exists k :: from <= k < |calls| && calls[k].entry == j && calls[k].forReading == forReading
  }

  /** Nothing is skipped and nothing is made up: entry j is served for reading exactly if it fired for reading and is
      registered for it when its turn comes, and for writing exactly if it fired for writing, is registered for it
      when the read handler has run, and the handlers then registered do not coincide after a read. */
  ghost predicate Complete(handlers: Handlers, d: Dispatch, fired: seq<Fired>, n: nat)
    requires n <= |fired| && InRange(fired, |d.loop.events|)
  {
    forall j: nat {:trigger Batch(handlers, d, fired, j)} :: j < n ==>
      var b, f, calls := Batch(handlers, d, fired, j), fired[j], Batch(handlers, d, fired, n).calls;
      && (Served(calls, |d.calls|, j, true) <==> Reads(b, f))
      && (Served(calls, |d.calls|, j, false) <==> Writes(Reads(b, f), AtWriteTest(handlers, b, j, f), f))
  }

  lemma BatchComplete(handlers: Handlers, d: Dispatch, fired: seq<Fired>, n: nat)
    requires n <= |fired| && InRange(fired, |d.loop.events|)
    ensures Complete(handlers, d, fired, n)
  {
    hide Entry;
    forall j: nat | j < n
      ensures var b, f, calls := Batch(handlers, d, fired, j), fired[j], Batch(handlers, d, fired, n).calls;
              && (Served(calls, |d.calls|, j, true) <==> Reads(b, f))
              && (Served(calls, |d.calls|, j, false) <==> Writes(Reads(b, f), AtWriteTest(handlers, b, j, f), f))
    {
      CallsOfEntry(handlers, d, fired, n, j);
      EntryCalls(handlers, Batch(handlers, d, fired, j), j, fired[j]);
    }
  }

  // ----- the same handler twice for one entry -----

  /** One fired entry called this handler for both kinds. */
  predicate CalledTwice(calls: seq<Call>, from: nat, j: nat, proc: int) {
    exists k, m :: from <= k < m < |calls| && calls[k].entry == calls[m].entry == j && calls[k].proc == calls[m].proc == proc
  }

  /** The test on the current handlers does not keep one handler from being called twice for an entry: here the handler
      of both kinds registers another read handler when it is called for reading. */
  lemma TwiceAfterReregistering()
    ensures var d, fired := Dispatch(Loop([FileEvent(Mask(true, true), 1, 1, 0)], 0), []), [Fired(0, Mask(true, true))];
            var handlers: Handlers := (n: nat, c: Call) => if c.forReading then [CreateFile(0, Mask(true, false), 2, 0)] else [];
            CalledTwice(Batch(handlers, d, fired, 1).calls, 0, 0, 1)
  {
    var d, fired := Dispatch(Loop([FileEvent(Mask(true, true), 1, 1, 0)], 0), []), [Fired(0, Mask(true, true))];
    var handlers: Handlers := (n: nat, c: Call) => if c.forReading then [CreateFile(0, Mask(true, false), 2, 0)] else [];
    var m := AfterRead(handlers, d, 0, fired[0]);
    var op := CreateFile(0, Mask(true, false), 2, 0);
    assert ApplyAll(d.loop, [op]) == ApplyAll(Apply(d.loop, op), []);
    assert m.loop.events[0] == FileEvent(Mask(true, true), 2, 1, 0);
    var calls := Batch(handlers, d, fired, 1).calls;
    assert Batch(handlers, d, fired, 0) == d;
    assert |calls| == 2 && calls[0].proc == 1 && calls[1].proc == 1;
  }

  /** For all handlers: entry j calls `proc` twice exactly if it is the read handler when the entry's turn comes, and
      that call leaves the descriptor registered for writing, which fired, with `proc` as the write handler and
      another read handler. */
  lemma TwiceExactly(handlers: Handlers, d: Dispatch, fired: seq<Fired>, n: nat, j: nat, proc: int)
    requires j < n <= |fired| && InRange(fired, |d.loop.events|)
    ensures var b, f := Batch(handlers, d, fired, j), fired[j];
            var e, m := b.loop.events[f.fd], AtWriteTest(handlers, b, j, f);
            CalledTwice(Batch(handlers, d, fired, n).calls, |d.calls|, j, proc)
            <==> e.mask.readable && f.mask.readable && e.rfileProc == proc
                 && m.mask.writable && f.mask.writable && m.wfileProc == proc && m.rfileProc != proc
  {
    hide Entry, AfterRead;
    CallsOfEntry(handlers, d, fired, n, j);
    EntryCalls(handlers, Batch(handlers, d, fired, j), j, fired[j]);
  }

  /** A read handler never registers another read handler for the descriptor it is called for. */
  ghost predicate KeepReader(handlers: Handlers) {
    forall n: nat, c: Call :: c.forReading ==> KeepsReader(handlers(n, c), c.fd, c.proc)
  }

  predicate KeepsReader(ops: seq<FileOp>, fd: nat, proc: int) {
    forall i :: 0 <= i < |ops| && ops[i].CreateFile? && ops[i].fd == fd && ops[i].mask.readable ==> ops[i].proc == proc
  }

  lemma {:induction false} ReaderStays(l: Loop, ops: seq<FileOp>, fd: nat, proc: int)
    requires fd < |l.events| && l.events[fd].rfileProc == proc && KeepsReader(ops, fd, proc)
    ensures ApplyAll(l, ops).events[fd].rfileProc == proc
    decreases |ops|
  {
    if ops != [] {
      ReaderStays(Apply(l, ops[0]), ops[1..], fd, proc);
    }
  }

  /** With such handlers no entry of any batch calls the same handler twice. */
  lemma OnceEach(handlers: Handlers, d: Dispatch, fired: seq<Fired>, n: nat, j: nat, proc: int)
    requires j < n <= |fired| && InRange(fired, |d.loop.events|) && KeepReader(handlers)
    ensures !CalledTwice(Batch(handlers, d, fired, n).calls, |d.calls|, j, proc)
  {
    hide CalledTwice, Batch;
    TwiceExactly(handlers, d, fired, n, j, proc);
    var b, f := Batch(handlers, d, fired, j), fired[j];
    var e := b.loop.events[f.fd];
    if Reads(b, f) {
      var c := Call(j, f.fd, true, e.rfileProc, e.clientData, f.mask, b.loop.events);
      ReaderStays(b.loop, handlers(|b.calls|, c), f.fd, e.rfileProc);
    }
  }

  // ----- what was registered last -----

  /** A loop nothing has been registered with. */
  function Fresh(setsize: nat): Loop {
    Loop(seq(setsize, _ => FileEvent(NONE, 0, 0, 0)), -1)
  }

  predicate HasKind(m: Mask, forReading: bool) { if forReading then m.readable else m.writable }

  predicate Registers(op: FileOp, fd: nat, forReading: bool) {
    op.CreateFile? && op.fd == fd && HasKind(op.mask, forReading)
  }

  predicate Unregisters(op: FileOp, fd: nat, forReading: bool) {
    op.DeleteFile? && op.fd == fd && HasKind(op.mask, forReading)
  }

  /** In this history `proc` was the last to be registered for this kind of this descriptor, and still is. */
  predicate LastProc(h: seq<FileOp>, fd: nat, forReading: bool, proc: int) {
    exists k :: 0 <= k < |h| && Registers(h[k], fd, forReading) && h[k].proc == proc
                && forall m :: k < m < |h| ==> !Registers(h[m], fd, forReading) && !Unregisters(h[m], fd, forReading)
  }

  /** And `data` was the last to be registered for this descriptor, whatever the kind. */
  predicate LastData(h: seq<FileOp>, fd: nat, data: int) {
    exists k :: 0 <= k < |h| && h[k].CreateFile? && h[k].fd == fd && h[k].data == data
                && forall m :: k < m < |h| ==> !(h[m].CreateFile? && h[m].fd == fd)
  }

  lemma LastProcOfNext(h: seq<FileOp>, op: FileOp, fd: nat, forReading: bool, proc: int)
    ensures LastProc(h + [op], fd, forReading, proc)
            <==> if Registers(op, fd, forReading) then op.proc == proc
                 else !Unregisters(op, fd, forReading) && LastProc(h, fd, forReading, proc)
  {
    hide Registers, Unregisters;
    var g := h + [op];
    assert g[|h|] == op;
    assert forall k :: 0 <= k < |h| ==> g[k] == h[k];
  }

  lemma LastDataOfNext(h: seq<FileOp>, op: FileOp, fd: nat, data: int)
    ensures LastData(h + [op], fd, data)
            <==> if op.CreateFile? && op.fd == fd then op.data == data else LastData(h, fd, data)
  {
    var g := h + [op];
    assert g[|h|] == op;
    assert forall k :: 0 <= k < |h| ==> g[k] == h[k];
  }

  /** What one call leaves of every registration. */
  lemma CreateRecords(l: Loop, fd: nat, mask: Mask, proc: int, data: int, k: nat)
    requires k < |l.events|
    ensures var e, r := l.events[k], Create(l, fd, mask, proc, data).events[k];
            if k != fd then r == e
            else
              && r.mask == Or(e.mask, mask) && r.clientData == data
              && r.rfileProc == (if mask.readable then proc else e.rfileProc)
              && r.wfileProc == (if mask.writable then proc else e.wfileProc)
  {
  }

  lemma DeleteRecords(l: Loop, fd: nat, mask: Mask, k: nat)
    requires k < |l.events|
    ensures Delete(l, fd, mask).events[k]
            == if k == fd then l.events[k].(mask := Without(l.events[k].mask, mask)) else l.events[k]
  {
  }

  /** The registration of a descriptor in a loop with this history: it is registered for a kind, by a handler, exactly if
      that handler was the last to be registered for it and has not been unregistered since; the data is the last. */
  ghost predicate Recorded(h: seq<FileOp>, e: FileEvent, fd: nat) {
    && (forall proc :: LastProc(h, fd, true, proc) <==> e.mask.readable && e.rfileProc == proc)
    && (forall proc :: LastProc(h, fd, false, proc) <==> e.mask.writable && e.wfileProc == proc)
    && (e.mask != NONE ==> LastData(h, fd, e.clientData))
  }

  lemma StepRecorded(l: Loop, h: seq<FileOp>, op: FileOp, fd: nat)
    requires fd < |l.events| && Recorded(h, l.events[fd], fd)
    ensures Recorded(h + [op], Apply(l, op).events[fd], fd)
  {
    var e, r := l.events[fd], Apply(l, op).events[fd];
    hide LastProc, LastData;
    forall proc ensures LastProc(h + [op], fd, true, proc) <==> r.mask.readable && r.rfileProc == proc {
      LastProcOfNext(h, op, fd, true, proc);
    }
    forall proc ensures LastProc(h + [op], fd, false, proc) <==> r.mask.writable && r.wfileProc == proc {
      LastProcOfNext(h, op, fd, false, proc);
    }
    LastDataOfNext(h, op, fd, r.clientData);
  }

  /** After every history, of any length, from a loop with nothing registered. */
  lemma {:induction false} LastRegistered(setsize: nat, h: seq<FileOp>, fd: nat)
    requires fd < setsize
    ensures |ApplyAll(Fresh(setsize), h).events| == setsize
    ensures Recorded(h, ApplyAll(Fresh(setsize), h).events[fd], fd)
    decreases |h|
  {
    if h != [] {
      var rest, op := h[..|h| - 1], h[|h| - 1];
      assert h == rest + [op];
      LastRegistered(setsize, rest, fd);
      ApplyAllAppend(Fresh(setsize), rest, op);
      hide Recorded, ApplyAll;
      StepRecorded(ApplyAll(Fresh(setsize), rest), rest, op, fd);
    }
  }

  /** What the handlers did in calls number `from` up to `upto`. */
  function Performed(handlers: Handlers, calls: seq<Call>, from: nat, upto: nat): seq<FileOp>
    requires from <= upto <= |calls|
    decreases upto - from
  {
    if from == upto then [] else Performed(handlers, calls, from, upto - 1) + handlers(upto - 1, calls[upto - 1])
  }

  lemma {:induction false} PerformedOfMore(handlers: Handlers, calls: seq<Call>, more: seq<Call>, from: nat, upto: nat)
    requires from <= upto <= |calls| && calls <= more
    ensures Performed(handlers, more, from, upto) == Performed(handlers, calls, from, upto)
    decreases upto - from
  {
    if from < upto { PerformedOfMore(handlers, calls, more, from, upto - 1); }
  }

  lemma {:induction false} ApplyAllThen(l: Loop, g: seq<FileOp>, h: seq<FileOp>)
    ensures ApplyAll(l, g + h) == ApplyAll(ApplyAll(l, g), h)
    decreases |h|
  {
    if h == [] {
      assert g + h == g;
    } else {
      var rest, op := h[..|h| - 1], h[|h| - 1];
      assert h == rest + [op] && g + h == (g + rest) + [op];
      ApplyAllThen(l, g, rest);
      ApplyAllAppend(l, g + rest, op);
      ApplyAllAppend(ApplyAll(l, g), rest, op);
    }
  }

  /** Each call found the registrations that the history and the calls before it had led to. */
  ghost predicate Traced(handlers: Handlers, start: Loop, h: seq<FileOp>, d: Dispatch, from: nat) {
    && from <= |d.calls|
    && d.loop == ApplyAll(start, h + Performed(handlers, d.calls, from, |d.calls|))
    && (forall k :: from <= k < |d.calls| ==>
          d.calls[k].found == ApplyAll(start, h + Performed(handlers, d.calls, from, k)).events)
  }

  lemma PerformedOfNext(handlers: Handlers, calls: seq<Call>, c: Call, from: nat)
    requires from <= |calls|
    ensures Performed(handlers, calls + [c], from, |calls| + 1)
            == Performed(handlers, calls, from, |calls|) + handlers(|calls|, c)
    ensures forall k :: from <= k <= |calls| ==> Performed(handlers, calls + [c], from, k) == Performed(handlers, calls, from, k)
  {
    forall k | from <= k <= |calls|
      ensures Performed(handlers, calls + [c], from, k) == Performed(handlers, calls, from, k)
    {
      PerformedOfMore(handlers, calls, calls + [c], from, k);
    }
  }

  lemma RunTraced(handlers: Handlers, start: Loop, h: seq<FileOp>, d: Dispatch, from: nat, c: Call)
    requires Traced(handlers, start, h, d, from) && c.found == d.loop.events
    ensures Traced(handlers, start, h, Run(handlers, d, c), from)
  {
    hide ApplyAll, Performed;
    PerformedOfNext(handlers, d.calls, c, from);
    var done, ops := Performed(handlers, d.calls, from, |d.calls|), handlers(|d.calls|, c);
    assert h + (done + ops) == (h + done) + ops;
    ApplyAllThen(start, h + done, ops);
  }

  lemma EntryTraced(handlers: Handlers, start: Loop, h: seq<FileOp>, d: Dispatch, from: nat, j: nat, f: Fired)
    requires f.fd < |d.loop.events| && Traced(handlers, start, h, d, from)
    ensures Traced(handlers, start, h, Entry(handlers, d, j, f), from)
  {
    hide Traced, Run;
    var fe, m := d.loop.events[f.fd], AfterRead(handlers, d, j, f);
    if Reads(d, f) { RunTraced(handlers, start, h, d, from, Call(j, f.fd, true, fe.rfileProc, fe.clientData, f.mask, d.loop.events)); }
    var fm := m.loop.events[f.fd];
    if Entry(handlers, d, j, f) != m {
      RunTraced(handlers, start, h, m, from, Call(j, f.fd, false, fm.wfileProc, fm.clientData, f.mask, m.loop.events));
    }
  }

  lemma {:induction false} BatchTraced(handlers: Handlers, start: Loop, h: seq<FileOp>, d: Dispatch, fired: seq<Fired>, n: nat)
    requires n <= |fired| && InRange(fired, |d.loop.events|) && d.loop == ApplyAll(start, h)
    ensures Traced(handlers, start, h, Batch(handlers, d, fired, n), |d.calls|)
  {
    hide Entry;
    if n == 0 {
      assert h + [] == h;
    } else {
      BatchTraced(handlers, start, h, d, fired, n - 1);
      hide Traced;
      EntryTraced(handlers, start, h, Batch(handlers, d, fired, n - 1), |d.calls|, n - 1, fired[n - 1]);
    }
  }

  /** Every call of a batch runs the handler last registered for its kind of its descriptor and not unregistered since,
      with the data last registered for that descriptor, in the program's history and the batch so far. */
  ghost predicate RunsLast(handlers: Handlers, h: seq<FileOp>, calls: seq<Call>, from: nat) {
    from <= |calls| && forall k :: from <= k < |calls| ==>
      var c, now := calls[k], h + Performed(handlers, calls, from, k);
      LastProc(now, c.fd, c.forReading, c.proc) && LastData(now, c.fd, c.data)
  }

  lemma BatchRunsLast(handlers: Handlers, setsize: nat, h: seq<FileOp>, d: Dispatch, fired: seq<Fired>, n: nat)
    requires n <= |fired| && InRange(fired, setsize) && d.loop == ApplyAll(Fresh(setsize), h)
    ensures var r := Batch(handlers, d, fired, n);
            && RunsLast(handlers, h, r.calls, |d.calls|)
            && r.loop == ApplyAll(Fresh(setsize), h + Performed(handlers, r.calls, |d.calls|, |r.calls|))
  {
    hide ApplyAll, LastProc, LastData, Batch;
    BatchTraced(handlers, Fresh(setsize), h, d, fired, n);
    BatchSound(handlers, d, fired, n);
    var calls := Batch(handlers, d, fired, n).calls;
    forall k | |d.calls| <= k < |calls|
      ensures var c, now := calls[k], h + Performed(handlers, calls, |d.calls|, k);
              LastProc(now, c.fd, c.forReading, c.proc) && LastData(now, c.fd, c.data)
    {
      var c := calls[k];
      assert StillRegistered(c, fired);
      LastRegistered(setsize, h + Performed(handlers, calls, |d.calls|, k), c.fd);
    }
  }

  // ----- whole runs of the loop -----

  /** The program registers or unregisters, or a batch of fired events is served. */
  datatype Action = Own(op: FileOp) | Serve(fired: seq<Fired>)

  /** The loop after these actions, and the history of all registrations, the program's and the handlers'. */
  function Play(handlers: Handlers, setsize: nat, actions: seq<Action>): (r: (Dispatch, seq<FileOp>))
    requires forall i :: 0 <= i < |actions| && actions[i].Serve? ==> InRange(actions[i].fired, setsize)
    ensures |r.0.loop.events| == setsize
  {
    if actions == [] then (Dispatch(Fresh(setsize), []), [])
    else
      var (d, h) := Play(handlers, setsize, actions[..|actions| - 1]);
      match actions[|actions| - 1]
      case Own(op) => (Dispatch(Apply(d.loop, op), d.calls), h + [op])
      case Serve(fired) =>
        BatchGrows(handlers, d, fired);
        var r := Batch(handlers, d, fired, |fired|);
        (r, h + Performed(handlers, r.calls, |d.calls|, |r.calls|))
  }

  lemma BatchGrows(handlers: Handlers, d: Dispatch, fired: seq<Fired>)
    requires InRange(fired, |d.loop.events|)
    ensures d.calls <= Batch(handlers, d, fired, |fired|).calls
  {
    BatchSound(handlers, d, fired, |fired|);
  }

  lemma NothingApplied(l: Loop)
    ensures ApplyAll(l, []) == l
  {
  }

  /** Through every run the registrations are what the history says, so every batch served in it runs the handlers last
      registered. */
  lemma {:induction false} RunLeads(handlers: Handlers, setsize: nat, actions: seq<Action>)
    requires forall i :: 0 <= i < |actions| && actions[i].Serve? ==> InRange(actions[i].fired, setsize)
    ensures var (d, h) := Play(handlers, setsize, actions); d.loop == ApplyAll(Fresh(setsize), h)
    ensures actions != [] && actions[|actions| - 1].Serve? ==>
              var (d, h) := Play(handlers, setsize, actions[..|actions| - 1]);
              RunsLast(handlers, h, Play(handlers, setsize, actions).0.calls, |d.calls|)
    decreases |actions|
  {
    hide ApplyAll, RunsLast, Batch;
    NothingApplied(Fresh(setsize));
    if actions != [] {
      var before := actions[..|actions| - 1];
      RunLeads(handlers, setsize, before);
      var (d, h) := Play(handlers, setsize, before);
      match actions[|actions| - 1] {
        case Own(op) => ApplyAllAppend(Fresh(setsize), h, op);
        case Serve(fired) => BatchRunsLast(handlers, setsize, h, d, fired, |fired|);
      }
    }
  }

  // ----- the cached highest descriptor over a batch -----

  lemma {:induction false} BatchKeepsMaxFd(handlers: Handlers, d: Dispatch, fired: seq<Fired>, n: nat)
    requires n <= |fired| && InRange(fired, |d.loop.events|) && MaxFdExact(d.loop) && ProperHandlers(handlers)
    ensures MaxFdExact(Batch(handlers, d, fired, n).loop)
  {
    if n > 0 {
      BatchKeepsMaxFd(handlers, d, fired, n - 1);
      var b, f := Batch(handlers, d, fired, n - 1), fired[n - 1];
      EntryKeepsMaxFd(handlers, b, n - 1, f);
    }
  }

  lemma EntryKeepsMaxFd(handlers: Handlers, d: Dispatch, j: nat, f: Fired)
    requires f.fd < |d.loop.events| && MaxFdExact(d.loop) && ProperHandlers(handlers)
    ensures MaxFdExact(Entry(handlers, d, j, f).loop)
  {
    var m := AfterRead(handlers, d, j, f);
    var fe, fm := d.loop.events[f.fd], m.loop.events[f.fd];
    MaxFdKeptByAll(d.loop, handlers(|d.calls|, Call(j, f.fd, true, fe.rfileProc, fe.clientData, f.mask, d.loop.events)));
    MaxFdKeptByAll(m.loop, handlers(|m.calls|, Call(j, f.fd, false, fm.wfileProc, fm.clientData, f.mask, m.loop.events)));
  }
}
