/** The file events of tflib/ae/ae.c over any of its four backends. */
module AeFiles {
  import opened AeRegistry
  import AeEpoll
  import AeEvport
  import AeKqueue
  import AeSelect

  /** The backend the build chose. */
  datatype Api =
    | Epoll(epoll: AeEpoll.EpollState)
    | Select(select: AeSelect.SelectState)
    | Kqueue(kqueue: AeKqueue.KqueueState)
    | Evport(evport: AeEvport.EvportState)

  /** What the kernel reports to one poll. */
  datatype Report =
    | EpollEvents(epollEvents: seq<AeEpoll.EpollEvent>)
    | Ready(reading: set<nat>, writing: set<nat>)
    | Kevents(kevents: seq<AeKqueue.Kevent>)
    | PortEvents(portEvents: seq<AeEvport.PortEvent>)

  ghost function Footprint(api: Api): set<object> {
    match api
    case Epoll(e) => {e}
    case Select(s) => {s}
    case Kqueue(k) => {k}
    case Evport(p) => {p, p.pendingFds, p.pendingMasks}
  }

  /** Whatever the backend, its state stands for the loop's masks. */
  ghost predicate Represents(api: Api, masks: seq<Mask>)
    reads Footprint(api)
  {
    match api
    case Epoll(e) => e.Represents(masks)
    case Select(s) => s.Represents(masks)
    case Kqueue(k) => k.Represents(masks)
    case Evport(p) => p.Represents(masks)
  }

  ghost predicate CanReport(api: Api, report: Report, masks: seq<Mask>, maxfd: int)
    reads Footprint(api)
  {
    match api
    case Epoll(e) => report.EpollEvents? && e.CanReturn(report.epollEvents, |masks|)
    case Select(s) => report.Ready? && s.CanReturn(report.reading, report.writing, maxfd)
    case Kqueue(k) => report.Kevents? && k.CanReturn(report.kevents, |masks|)
    case Evport(p) => report.PortEvents? && AeEvport.CanReturn(report.portEvents, masks)
  }

  /** Which of a registration's kernel calls fail; only kqueue makes a second one, for writing. */
  datatype Refusal = Refusal(first: bool, second: bool)

  const ACCEPTED := Refusal(false, false)

  /** A failed registration leaves something behind: kqueue's new read filter when only the second call fails. */
  predicate LeavesFilter(api: Api, mask: Mask, registered: Mask, refusal: Refusal) {
    api.Kqueue? && mask.readable && !refusal.first && !registered.readable
  }

  /** An empty mask recorded for an unregistered descriptor: epoll and the event port tell the kernel about it all the
      same, so only the other two still stand for the masks. */
  method AddEvent(api: Api, fd: nat, mask: Mask, registered: Mask, refusal: Refusal, ghost masks: seq<Mask>) returns (rc: int)
    requires Represents(api, masks) && fd < |masks| && registered == masks[fd]
    modifies Footprint(api)
    ensures rc == AE_OK || (rc == AE_ERR && refusal != ACCEPTED)
    ensures rc == AE_ERR ==> (Represents(api, masks) <==> !LeavesFilter(api, mask, registered, refusal))
    ensures rc == AE_OK ==>
              (Represents(api, masks[fd := Or(registered, mask)]) <==> Or(registered, mask) != NONE || api.Select? || api.Kqueue?)
  {
    match api {
      case Epoll(e) => rc := e.AddEvent(fd, mask, registered, refusal.first, masks);
      case Select(s) => rc := s.AddEvent(fd, mask, masks);
      case Kqueue(k) => rc := k.AddEvent(fd, mask, refusal.first, refusal.second, masks);
      case Evport(p) => rc := p.AddEvent(fd, mask, registered, refusal.first, masks);
    }
  }

  method DelEvent(api: Api, fd: nat, mask: Mask, registered: Mask, ghost masks: seq<Mask>)
    requires Represents(api, masks) && fd < |masks| && masks[fd] != NONE && registered == Without(masks[fd], mask)
    modifies Footprint(api)
    ensures Represents(api, masks[fd := registered])
  {
    match api {
      case Epoll(e) => e.DelEvent(fd, mask, registered, masks);
      case Select(s) => s.DelEvent(fd, mask, masks);
      case Kqueue(k) => k.DelEvent(fd, mask, masks);
      case Evport(p) => var aborted := p.DelEvent(fd, mask, registered, false, masks);
    }
  }

  /** The fired entries are what the kernel reported: one for each event, or, from select, one for each registered
      descriptor in ascending order if anything is ready. */
  ghost predicate Reported(report: Report, fired: seq<Fired>, masks: seq<Mask>) {
    match report
    case EpollEvents(es) =>
      |fired| == |es| && forall i :: 0 <= i < |es| ==>
        fired[i] == Fired(es[i].fd, Mask(es[i].epollin, es[i].epollout || es[i].epollerr || es[i].epollhup))
    case Ready(reading, writing) =>
      && (reading + writing == {} ==> fired == [])
      && (forall i :: 0 <= i < |fired| ==> fired[i].mask == Mask(fired[i].fd in reading, fired[i].fd in writing))
      && (forall i, k :: 0 <= i < k < |fired| ==> fired[i].fd < fired[k].fd)
      && (reading + writing != {} ==>
            forall fd: nat :: fd < |masks| && masks[fd] != NONE ==> exists i :: 0 <= i < |fired| && fired[i].fd == fd)
    case Kevents(ks) =>
      |fired| == |ks| && forall i :: 0 <= i < |ks| ==> fired[i] == Fired(ks[i].ident, Mask(ks[i].read, !ks[i].read))
    case PortEvents(ps) =>
      |fired| == |ps| && forall i :: 0 <= i < |ps| ==> fired[i] == Fired(ps[i].fd, Mask(ps[i].pollin, ps[i].pollout))
  }

  method PollSelect(s: AeSelect.SelectState, report: Report, events: array<FileEvent>, maxfd: int, fired: array<Fired>)
    returns (numevents: nat)
    requires s.Represents(Masks(events[..])) && MaxFdExact(Loop(events[..], maxfd)) && fired.Length == events.Length
    requires report.Ready? && s.CanReturn(report.reading, report.writing, maxfd)
    modifies fired
    ensures numevents <= fired.Length && InRange(fired[..numevents], events.Length)
    ensures forall i :: 0 <= i < numevents ==> events[fired[i].fd].mask != NONE
    ensures Reported(report, fired[..numevents], Masks(events[..]))
  {
    numevents := s.Poll(report.reading, report.writing, events, maxfd, fired);
    var entries := fired[..numevents];
    if report.reading + report.writing != {} {
      forall fd: nat | fd < events.Length && events[fd].mask != NONE
        ensures exists i :: 0 <= i < |entries| && entries[i].fd == fd
      {
        var i :| 0 <= i < numevents && fired[i].fd == fd;
        assert entries[i].fd == fd;
      }
    }
  }

  /** Any poll leaves the registrations represented and fills the fired table, within its bounds, with what the kernel
      reported. */
  method Poll(api: Api, report: Report, events: array<FileEvent>, maxfd: int, fired: array<Fired>) returns (numevents: nat)
    requires Represents(api, Masks(events[..])) && MaxFdExact(Loop(events[..], maxfd)) && fired.Length == events.Length
    requires CanReport(api, report, Masks(events[..]), maxfd)
    requires fired !in Footprint(api) && events !in Footprint(api)
    modifies Footprint(api), fired
    ensures Represents(api, Masks(events[..]))
    ensures numevents <= fired.Length && InRange(fired[..numevents], events.Length)
    ensures forall i :: 0 <= i < numevents ==> events[fired[i].fd].mask != NONE
    ensures Reported(report, fired[..numevents], Masks(events[..]))
  {
    match api {
      case Epoll(e) => numevents := e.Poll(report.epollEvents, fired, Masks(events[..]));
      case Select(s) => numevents := PollSelect(s, report, events, maxfd, fired);
      case Kqueue(k) => numevents := k.Poll(report.kevents, fired, Masks(events[..]));
      case Evport(p) =>
        var aborted;
        numevents, aborted := p.Poll(report.portEvents, {}, fired, Masks(events[..]));
    }
  }

  class EventLoop {
    const api: Api
    const events: array<FileEvent>
    const fired: array<Fired>
    const handlers: Handlers
    var maxfd: int
    /** The handler calls made so far. */
    var calls: seq<Call>

    ghost function Snapshot(): Loop
      reads this, events
    {
      Loop(events[..], maxfd)
    }

    ghost predicate Apart()
    {
      this !in Footprint(api) && events !in Footprint(api) && fired !in Footprint(api) && fired.Length == events.Length
    }

    /** The cache is exact and the backend stands for the masks. */
    ghost predicate Valid()
      reads this, events, Footprint(api)
    {
      Apart() && MaxFdExact(Snapshot()) && Represents(api, Masks(events[..]))
    }

    /** Nothing is registered at first; the handlers of an unregistered descriptor are never looked at. */
    constructor (api: Api, handlers: Handlers, setsize: nat)
      requires Represents(api, seq(setsize, _ => NONE))
      ensures Valid() && fresh(events) && fresh(fired) && this.api == api && this.handlers == handlers
      ensures events.Length == setsize && maxfd == -1 && calls == []
      ensures forall fd :: 0 <= fd < setsize ==> events[fd].mask == NONE
    {
      this.api, this.handlers := api, handlers;
      events := new FileEvent[setsize](_ => FileEvent(NONE, 0, 0, 0));
      fired := new Fired[setsize](_ => Fired(0, NONE));
      maxfd, calls := -1, [];
      new;
      assert Masks(events[..]) == seq(setsize, _ => NONE);
    }

    method CreateFileEvent(fd: nat, mask: Mask, proc: int, clientData: int, refusal: Refusal) returns (rc: int)
      requires Valid()
      modifies this`maxfd, events, Footprint(api)
      ensures rc == AE_ERR ==> (fd >= events.Length || refusal != ACCEPTED) && Snapshot() == old(Snapshot())
      ensures rc == AE_ERR ==> (Valid() <==> fd >= events.Length || !LeavesFilter(api, mask, old(events[fd].mask), refusal))
      ensures rc != AE_ERR ==>
                rc == AE_OK && fd < events.Length && Snapshot() == Create(old(Snapshot()), fd, mask, proc, clientData)
      ensures rc == AE_OK ==>
                && events[fd].mask == Or(old(events[fd].mask), mask) && events[fd].clientData == clientData
                && events[fd].rfileProc == (if mask.readable then proc else old(events[fd].rfileProc))
                && events[fd].wfileProc == (if mask.writable then proc else old(events[fd].wfileProc))
      ensures forall k :: 0 <= k < events.Length && k != fd ==> events[k] == old(events[k])
      ensures rc == AE_OK ==>
                (Valid() <==> mask != NONE || old(events[fd].mask) != NONE || ((api.Select? || api.Kqueue?) && fd <= old(maxfd)))
    {
      if fd >= events.Length {
        return AE_ERR;
      }
      ghost var l, masks := Snapshot(), Masks(events[..]);
      var fe := events[fd];
      MaxFdKept(l, fd, mask, proc, clientData);
      var added := AddEvent(api, fd, mask, fe.mask, refusal, masks);
      if added == AE_ERR {
        return AE_ERR;
      }
      fe := fe.(mask := Or(fe.mask, mask));
      if mask.readable { fe := fe.(rfileProc := proc); }
      if mask.writable { fe := fe.(wfileProc := proc); }
      fe := fe.(clientData := clientData);
      events[fd] := fe;
      if fd > maxfd { maxfd := fd; }
      assert events[..] == l.events[fd := fe];
      assert Masks(events[..]) == masks[fd := fe.mask];
      rc := AE_OK;
    }

    method LowerMaxFd()
      requires 0 <= maxfd < events.Length
      modifies this`maxfd
      ensures maxfd == Highest(events[..], old(maxfd))
    {
      var j := maxfd - 1;
      while j >= 0
        invariant -1 <= j < maxfd
        invariant Highest(events[..], maxfd) == Highest(events[..], j + 1)
      {
        if events[j].mask != NONE {
          break;
        }
        j := j - 1;
      }
      maxfd := j;
    }

    method Unregister(fd: nat, mask: Mask)
      requires Valid()
      modifies this`maxfd, events, Footprint(api)
      ensures Valid() && Snapshot() == Delete(old(Snapshot()), fd, mask)
    {
      if fd >= events.Length {
        return;
      }
      ghost var l, masks := Snapshot(), Masks(events[..]);
      MaxFdKept(l, fd, mask, 0, 0);
      if events[fd].mask == NONE {
        return;
      }
      var fe := events[fd].(mask := Without(events[fd].mask, mask));
      events[fd] := fe;
      if fd == maxfd && fe.mask == NONE {
        LowerMaxFd();
      }
      DelEvent(api, fd, mask, fe.mask, masks);
      assert events[..] == l.events[fd := fe];
      assert Masks(events[..]) == masks[fd := fe.mask];
    }

    /** The kinds are taken off the descriptor's mask; its handlers and data, and all other registrations, stay. */
    method DeleteFileEvent(fd: nat, mask: Mask)
      requires Valid()
      modifies this`maxfd, events, Footprint(api)
      ensures Valid() && Snapshot() == Delete(old(Snapshot()), fd, mask)
      ensures forall k :: 0 <= k < events.Length ==>
                events[k] == if k == fd then old(events[k]).(mask := Without(old(events[k].mask), mask)) else old(events[k])
    {
      hide MaxFdExact, Represents, Footprint, Delete;
      ghost var l := Snapshot();
      Unregister(fd, mask);
      forall k | 0 <= k < events.Length
        ensures events[k] == if k == fd then l.events[k].(mask := Without(l.events[k].mask, mask)) else l.events[k]
      {
        DeleteRecords(l, fd, mask, k);
        assert Snapshot().events[k] == events[k];
      }
    }

    /** A handler's calls back into the loop; the kernel refuses none. */
    method Perform(op: FileOp)
      requires Valid() && (op.CreateFile? ==> op.mask != NONE)
      modifies this`maxfd, events, Footprint(api)
      ensures Valid() && Snapshot() == Apply(old(Snapshot()), op)
    {
      hide MaxFdExact, Represents, Footprint;
      match op {
        case CreateFile(fd, mask, proc, data) => var rc := CreateFileEvent(fd, mask, proc, data, ACCEPTED);
        case DeleteFile(fd, mask) => DeleteFileEvent(fd, mask);
      }
    }

    method RunHandler(c: Call)
      requires Valid() && ProperHandlers(handlers)
      modifies this`maxfd, this`calls, events, Footprint(api)
      ensures Valid() && AeRegistry.Dispatch(Snapshot(), calls) == Run(handlers, old(AeRegistry.Dispatch(Snapshot(), calls)), c)
    {
      var ops := handlers(|calls|, c);
      assert Proper(ops);
      calls := calls + [c];
      ghost var l := Snapshot();
      for i := 0 to |ops|
        invariant Valid() && Snapshot() == ApplyAll(l, ops[..i]) && calls == old(calls) + [c]
      {
        ApplyAllAppend(l, ops[..i], ops[i]);
        assert ops[..i + 1] == ops[..i] + [ops[i]];
        Perform(ops[i]);
      }
      assert ops[..|ops|] == ops;
    }

    /** The two tests and calls for one fired entry. */
    method ServeEntry(j: nat, f: Fired)
      requires Valid() && ProperHandlers(handlers) && f.fd < events.Length
      modifies this`maxfd, this`calls, events, Footprint(api)
      ensures Valid()
      ensures AeRegistry.Dispatch(Snapshot(), calls) == Entry(handlers, old(AeRegistry.Dispatch(Snapshot(), calls)), j, f)
    {
      var rfired := false;
      if events[f.fd].mask.readable && f.mask.readable {
        rfired := true;
        RunHandler(Call(j, f.fd, true, events[f.fd].rfileProc, events[f.fd].clientData, f.mask, events[..]));
      }
      if events[f.fd].mask.writable && f.mask.writable {
        if !rfired || events[f.fd].wfileProc != events[f.fd].rfileProc {
          RunHandler(Call(j, f.fd, false, events[f.fd].wfileProc, events[f.fd].clientData, f.mask, events[..]));
        }
      }
    }

    /** What fired, in the order of the table. */
    method ServeAll(numevents: nat) returns (processed: nat)
      requires Valid() && ProperHandlers(handlers)
      requires numevents <= fired.Length && InRange(fired[..numevents], events.Length)
      modifies this`maxfd, this`calls, events, Footprint(api)
      ensures Valid() && processed == numevents
      ensures AeRegistry.Dispatch(Snapshot(), calls)
              == Batch(handlers, old(AeRegistry.Dispatch(Snapshot(), calls)), fired[..numevents], numevents)
    {
      hide MaxFdExact, Represents, Footprint, Entry;
      ghost var d, batch := AeRegistry.Dispatch(Snapshot(), calls), fired[..numevents];
      processed := 0;
      for j := 0 to numevents
        invariant Valid() && processed == j && fired[..numevents] == batch
        invariant AeRegistry.Dispatch(Snapshot(), calls) == Batch(handlers, d, batch, j)
      {
        ServeEntry(j, fired[j]);
        processed := processed + 1;
      }
    }

    /** The file half of aeProcessEvents: poll, then serve what fired. */
    method ProcessFileEvents(report: Report) returns (processed: nat)
      requires Valid() && ProperHandlers(handlers) && CanReport(api, report, Masks(events[..]), maxfd)
      modifies this`maxfd, this`calls, events, fired, Footprint(api)
      ensures Valid() && processed <= fired.Length && InRange(fired[..processed], events.Length)
      ensures Reported(report, fired[..processed], old(Masks(events[..])))
      ensures AeRegistry.Dispatch(Snapshot(), calls)
              == Batch(handlers, old(AeRegistry.Dispatch(Snapshot(), calls)), fired[..processed], processed)
      ensures Sound(calls, |old(calls)|, fired[..processed], processed)
      ensures Complete(handlers, old(AeRegistry.Dispatch(Snapshot(), calls)), fired[..processed], processed)
      ensures forall h :: old(Snapshot()) == ApplyAll(Fresh(events.Length), h) ==> RunsLast(handlers, h, calls, |old(calls)|)
    {
      hide RunsLast, ApplyAll, MaxFdExact, Represents, Footprint, Entry, Sound, Complete, CanReport, ProperHandlers, Reported;
      var numevents := Poll(api, report, events, maxfd, fired);
      ghost var d := AeRegistry.Dispatch(Snapshot(), calls);
      processed := ServeAll(numevents);
      BatchSound(handlers, d, fired[..numevents], numevents);
      BatchComplete(handlers, d, fired[..numevents], numevents);
      forall h | d.loop == ApplyAll(Fresh(events.Length), h) ensures RunsLast(handlers, h, calls, |d.calls|) {
        BatchRunsLast(handlers, events.Length, h, d, fired[..numevents], numevents);
      }
    }
  }
}
