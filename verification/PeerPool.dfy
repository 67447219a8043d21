/** The peer slots of tfnac (main.c, config.c) as values: what each handler does to them, and what every run keeps. */
module PeerPool {
  const MAX_PEER_NUMS: nat := 10000
  const PEER_ID_OFFSET := 20140000

  /** session_timer is sixteen bits wide. */
  const TIMER_RANGE := 0x10000

  type Timer = t: int | 0 <= t < TIMER_RANGE

  datatype Peer = Peer(id: int, fd: int, active: bool, authed: bool, ip: int, port: int, timer: Timer)

  /** The slots, the connection counter, which slot each registered socket serves, and the sockets open. */
  datatype Pool = Pool(slots: seq<Peer>, connections: int, registered: map<int, nat>, open: set<int>)

  // ----- the handlers -----

  /** get_idle_peer: the first slot not in use, or the number of slots. */
  function Idle(slots: seq<Peer>): (i: nat)
    ensures i <= |slots| && (i < |slots| ==> !slots[i].active) && forall k :: 0 <= k < i ==> slots[k].active
  {
    if slots == [] || !slots[0].active then 0 else 1 + Idle(slots[1..])
  }

  /** A 32-bit id less the offset, as the C int it is stored in. */
  function Index(id: int): int {
    var u := (id - PEER_ID_OFFSET) % 0x1_0000_0000;
    if u < 0x8000_0000 then u else u - 0x1_0000_0000
  }

  /** get_active_peer: the slot an id names, or -1. */
  function Active(slots: seq<Peer>, id: int): int {
    var i := Index(id);
    if 0 < i < |slots| && slots[i].active then i else -1
  }

  /** close_peer. */
  function Close(p: Pool, i: nat): (r: Pool)
    requires i < |p.slots|
    ensures |r.slots| == |p.slots|
  {
    var fd := p.slots[i].fd;
    Pool(p.slots[i := p.slots[i].(active := false, authed := false)], p.connections - 1, p.registered - {fd}, p.open - {fd})
  }

  /** Traffic: the session starts over. */
  function Touch(p: Pool, i: nat, timeout: Timer): (r: Pool)
    requires i < |p.slots|
    ensures |r.slots| == |p.slots|
  {
    p.(slots := p.slots[i := p.slots[i].(timer := timeout)])
  }

  datatype Event =
    | Accept(fd: int, ip: int, port: int, refused: bool)
    | Request(slot: nat, delivered: bool)
    | Response(id: int, written: bool)
    | Tick

  /** A socket beyond the event table, or one the kernel refuses to watch, is closed again. */
  function Accepted(p: Pool, e: Event, timeout: Timer): (r: Pool)
    requires e.Accept?
    ensures |r.slots| == |p.slots|
  {
    var i, q := Idle(p.slots), p.(open := p.open + {e.fd});
    if i == |p.slots| then q
    else
      var peer := p.slots[i].(fd := e.fd, ip := e.ip, port := e.port, active := true);
      var full := Pool(p.slots[i := peer], p.connections + 1, p.registered, q.open);
      if e.refused || e.fd >= MAX_PEER_NUMS + 1024 then Close(full, i)
      else Touch(full.(registered := full.registered[e.fd := i]), i, timeout)
  }

  /** One less, in sixteen bits. */
  function Down(t: Timer): Timer { if t == 0 then TIMER_RANGE - 1 else t - 1 }

  /** One slot of the life cycle: the timer counts down, and a session at zero is closed. */
  function TickSlot(p: Pool, i: nat): (r: Pool)
    requires i < |p.slots|
    ensures |r.slots| == |p.slots|
  {
    if !p.slots[i].active then p
    else
      var t := Down(p.slots[i].timer);
      var q := p.(slots := p.slots[i := p.slots[i].(timer := t)]);
      if t == 0 then Close(q, i) else q
  }

  function TickAll(p: Pool, n: nat): (r: Pool)
    requires n <= |p.slots|
    ensures |r.slots| == |p.slots|
  {
    if n == 0 then p else TickSlot(TickAll(p, n - 1), n - 1)
  }

  function Step(p: Pool, e: Event, timeout: Timer): (r: Pool)
    requires e.Request? ==> e.slot < |p.slots|
    ensures |r.slots| == |p.slots|
  {
    match e
    case Accept(_, _, _, _) => Accepted(p, e, timeout)
    case Request(i, delivered) => if delivered then Touch(p, i, timeout) else Close(p, i)
    case Response(id, written) =>
      var i := Active(p.slots, id);
      if i == -1 then p else if written then Touch(p, i, timeout) else Close(p, i)
    case Tick => TickAll(p, |p.slots|)
  }

  // ----- what holds between handlers -----

  function Count(slots: seq<Peer>): (n: nat)
    ensures n <= |slots|
  {
    if slots == [] then 0 else (if slots[0].active then 1 else 0) + Count(slots[1..])
  }

  lemma {:induction false} CountUpdated(slots: seq<Peer>, i: nat, peer: Peer)
    requires i < |slots|
    ensures Count(slots[i := peer])
            == Count(slots) - (if slots[i].active then 1 else 0) + (if peer.active then 1 else 0)
  {
    if i == 0 {
      assert slots[0 := peer][1..] == slots[1..];
    } else {
      assert slots[i := peer][1..] == slots[1..][i - 1 := peer];
      CountUpdated(slots[1..], i - 1, peer);
    }
  }

  /** The active slots and the registered sockets are each other's inverse, and the registered sockets are open. */
  ghost predicate Matched(slots: seq<Peer>, registered: map<int, nat>, open: set<int>) {
    && (forall i :: 0 <= i < |slots| && slots[i].active ==> slots[i].fd in registered && registered[slots[i].fd] == i)
    && (forall fd :: fd in registered ==> fd in open && registered[fd] < |slots|
                                          && slots[registered[fd]].active && slots[registered[fd]].fd == fd)
  }

  ghost predicate Valid(p: Pool) {
    && |p.slots| == MAX_PEER_NUMS
    && (forall i :: 0 <= i < |p.slots| ==> p.slots[i].id == i + PEER_ID_OFFSET)
    && p.connections == Count(p.slots)
    && Matched(p.slots, p.registered, p.open)
  }

  /** accept returns a socket that was not open; a request comes from a registered one. */
  predicate Possible(p: Pool, e: Event) {
    match e
    case Accept(fd, _, _, _) => fd >= 0 && fd !in p.open
    case Request(i, _) => i < |p.slots| && p.slots[i].active
    case Response(id, _) => 0 <= id < 0x1_0000_0000
    case Tick => true
  }

  lemma CloseKeeps(p: Pool, i: nat)
    requires Valid(p) && i < |p.slots| && p.slots[i].active
    ensures Valid(Close(p, i))
  {
    CountUpdated(p.slots, i, p.slots[i].(active := false, authed := false));
  }

  lemma RetimeKeeps(p: Pool, i: nat, t: Timer)
    requires Valid(p) && i < |p.slots|
    ensures Valid(p.(slots := p.slots[i := p.slots[i].(timer := t)]))
  {
    CountUpdated(p.slots, i, p.slots[i].(timer := t));
  }

  lemma {:induction false} TickKeeps(p: Pool, n: nat)
    requires Valid(p) && n <= |p.slots|
    ensures Valid(TickAll(p, n))
  {
    if n > 0 {
      TickKeeps(p, n - 1);
      hide TickAll, Valid;
      TickSlotKeeps(TickAll(p, n - 1), n - 1);
      assert TickAll(p, n) == TickSlot(TickAll(p, n - 1), n - 1) by { TickUnfolds(p, n); }
    }
  }

  lemma TickUnfolds(p: Pool, n: nat)
    requires 0 < n <= |p.slots|
    ensures TickAll(p, n) == TickSlot(TickAll(p, n - 1), n - 1)
  {
  }

  lemma TickSlotKeeps(p: Pool, i: nat)
    requires Valid(p) && i < |p.slots|
    ensures Valid(TickSlot(p, i))
  {
    if p.slots[i].active {
      var t := Down(p.slots[i].timer);
      RetimeKeeps(p, i, t);
      if t == 0 {
        CloseKeeps(p.(slots := p.slots[i := p.slots[i].(timer := t)]), i);
      }
    }
  }

  lemma AcceptKeeps(p: Pool, e: Event, timeout: Timer)
    requires Valid(p) && e.Accept? && Possible(p, e)
    ensures Valid(Accepted(p, e, timeout))
  {
    var i := Idle(p.slots);
    if i < |p.slots| {
      var peer := p.slots[i].(fd := e.fd, ip := e.ip, port := e.port, active := true);
      CountUpdated(p.slots, i, peer);
      var slots := p.slots[i := peer];
      if e.refused || e.fd >= MAX_PEER_NUMS + 1024 {
        CountUpdated(slots, i, peer.(active := false, authed := false));
        RefusedKeeps(p, i, peer);
      } else {
        RegisteredKeeps(p, i, peer);
        RetimeKeeps(Pool(slots, p.connections + 1, p.registered[e.fd := i], p.open + {e.fd}), i, timeout);
      }
    }
  }

  lemma RefusedKeeps(p: Pool, i: nat, peer: Peer)
    requires Valid(p) && i < |p.slots| && !p.slots[i].active && peer.fd !in p.open && peer.id == p.slots[i].id && peer.active
    ensures Valid(Close(Pool(p.slots[i := peer], p.connections + 1, p.registered, p.open + {peer.fd}), i))
  {
    CountUpdated(p.slots, i, peer);
    CountUpdated(p.slots[i := peer], i, peer.(active := false, authed := false));
  }

  lemma RegisteredKeeps(p: Pool, i: nat, peer: Peer)
    requires Valid(p) && i < |p.slots| && !p.slots[i].active && peer.fd !in p.open && peer.id == p.slots[i].id && peer.active
    ensures Valid(Pool(p.slots[i := peer], p.connections + 1, p.registered[peer.fd := i], p.open + {peer.fd}))
  {
    CountUpdated(p.slots, i, peer);
  }

  /** Every handler keeps the counter equal to the active slots and each active slot tied to its own open, registered
      socket. */
  lemma StepKeeps(p: Pool, e: Event, timeout: Timer)
    requires Valid(p) && Possible(p, e)
    ensures Valid(Step(p, e, timeout))
  {
    match e {
      case Accept(_, _, _, _) => AcceptKeeps(p, e, timeout);
      case Request(i, delivered) => if delivered { RetimeKeeps(p, i, timeout); } else { CloseKeeps(p, i); }
      case Response(id, written) =>
        var i := Active(p.slots, id);
        if i != -1 {
          if written { RetimeKeeps(p, i, timeout); } else { CloseKeeps(p, i); }
        }
      case Tick => TickKeeps(p, |p.slots|);
    }
  }

  // ----- runs -----

  predicate Starts(p: Pool, es: seq<Event>, timeout: Timer)
    decreases |es|
  {
    es == [] || (Possible(p, es[0]) && Starts(Step(p, es[0], timeout), es[1..], timeout))
  }

  function Run(p: Pool, es: seq<Event>, timeout: Timer): (r: Pool)
    requires Starts(p, es, timeout)
    ensures |r.slots| == |p.slots|
    decreases |es|
  {
    if es == [] then p else Run(Step(p, es[0], timeout), es[1..], timeout)
  }

  lemma {:induction false} RunKeeps(p: Pool, es: seq<Event>, timeout: Timer)
    requires Valid(p) && Starts(p, es, timeout)
    ensures Valid(Run(p, es, timeout))
    decreases |es|
  {
    if es != [] {
      StepKeeps(p, es[0], timeout);
      RunKeeps(Step(p, es[0], timeout), es[1..], timeout);
    }
  }

  /** init_peers: fresh slots if it reloads, otherwise whatever the shared memory holds; no socket is registered yet. */
  function Initial(memory: seq<Peer>, reload: bool): (p: Pool)
    requires |memory| == MAX_PEER_NUMS
  {
    var slots := if reload
                 then seq(|memory|, i requires 0 <= i < |memory| =>
                            memory[i].(id := i + PEER_ID_OFFSET, fd := 0, active := false, authed := false, timer := 0))
                 else memory;
    Pool(slots, 0, map[], {})
  }

  lemma {:induction false} NoneActive(slots: seq<Peer>)
    ensures Count(slots) == 0 <==> forall i :: 0 <= i < |slots| ==> !slots[i].active
  {
    if slots != [] {
      NoneActive(slots[1..]);
      assert forall i :: 0 < i < |slots| ==> slots[i] == slots[1..][i - 1];
    }
  }

  /** The pool starts out valid exactly if it reloads, or if the shared memory holds the right ids and no active slot. */
  lemma InitialIsValid(memory: seq<Peer>, reload: bool)
    requires |memory| == MAX_PEER_NUMS
    ensures Valid(Initial(memory, reload)) <==>
              reload || forall i :: 0 <= i < |memory| ==> memory[i].id == i + PEER_ID_OFFSET && !memory[i].active
  {
    NoneActive(Initial(memory, reload).slots);
  }

  // ----- silent peers -----

  /** How many ticks a timer lasts: a zero, which a zero timeout sets, first wraps around. */
  function Life(t: Timer): (n: nat)
    ensures n >= 1
  {
    if t == 0 then TIMER_RANGE else t
  }

  function Ticks(es: seq<Event>): nat {
    if es == [] then 0 else (if es[0].Tick? then 1 else 0) + Ticks(es[1..])
  }

  /** No event brings traffic of this slot. */
  predicate Quiet(p: Pool, es: seq<Event>, timeout: Timer, i: nat)
    requires Starts(p, es, timeout)
    decreases |es|
  {
    es == [] || (!(es[0].Request? && es[0].slot == i) && !(es[0].Response? && Active(p.slots, es[0].id) == i)
                 && Quiet(Step(p, es[0], timeout), es[1..], timeout, i))
  }

  lemma {:induction false} TickAt(p: Pool, n: nat, i: nat)
    requires i < |p.slots| && n <= |p.slots|
    ensures i >= n ==> TickAll(p, n).slots[i] == p.slots[i]
    ensures i < n && !p.slots[i].active ==> TickAll(p, n).slots[i] == p.slots[i]
    ensures i < n && p.slots[i].active ==>
              var t := Down(p.slots[i].timer);
              TickAll(p, n).slots[i] == if t == 0 then p.slots[i].(timer := 0, active := false, authed := false)
                                        else p.slots[i].(timer := t)
  {
    if n > 0 {
      TickAt(p, n - 1, i);
    }
  }

  /** A tick closes exactly the sessions with one tick to live, and the others live one less. */
  lemma TickCountsDown(p: Pool, i: nat)
    requires i < |p.slots| && p.slots[i].active
    ensures var q := TickAll(p, |p.slots|).slots[i];
            && (q.active <==> Life(p.slots[i].timer) > 1)
            && (q.active ==> q.fd == p.slots[i].fd && Life(q.timer) == Life(p.slots[i].timer) - 1)
  {
    TickAt(p, |p.slots|, i);
    hide TickAll;
  }

  /** With a timeout of at least one, no active session's timer stands at zero between handlers. */
  ghost predicate Timed(p: Pool) {
    forall i :: 0 <= i < |p.slots| && p.slots[i].active ==> p.slots[i].timer >= 1
  }

  lemma StepKeepsTimed(p: Pool, e: Event, timeout: Timer)
    requires Valid(p) && Timed(p) && Possible(p, e) && timeout >= 1
    ensures Timed(Step(p, e, timeout))
  {
    if e.Tick? {
      forall i | 0 <= i < |p.slots| ensures Step(p, e, timeout).slots[i].active ==> Step(p, e, timeout).slots[i].timer >= 1 {
        TickAt(p, |p.slots|, i);
      }
    }
  }

  lemma QuietStep(p: Pool, e: Event, timeout: Timer, i: nat)
    requires i < |p.slots| && p.slots[i].active && Possible(p, e) && !e.Tick?
    requires !(e.Request? && e.slot == i) && !(e.Response? && Active(p.slots, e.id) == i)
    ensures Step(p, e, timeout).slots[i] == p.slots[i]
  {
  }

  lemma {:induction false} QuietRun(p: Pool, es: seq<Event>, timeout: Timer, i: nat)
    requires i < |p.slots| && p.slots[i].active && Starts(p, es, timeout) && Quiet(p, es, timeout, i)
    requires Ticks(es) < Life(p.slots[i].timer)
    ensures var q := Run(p, es, timeout).slots[i];
            q.active && q.fd == p.slots[i].fd && Life(q.timer) == Life(p.slots[i].timer) - Ticks(es)
    decreases |es|
  {
    if es != [] {
      if es[0].Tick? {
        TickCountsDown(p, i);
      } else {
        QuietStep(p, es[0], timeout, i);
      }
      hide Possible, Step;
      QuietRun(Step(p, es[0], timeout), es[1..], timeout, i);
    }
  }

  /** Whatever else happens, a silent peer keeps its socket until the tick that ends its session, and not beyond. */
  lemma SilentPeerClosed(p: Pool, es: seq<Event>, timeout: Timer, i: nat)
    requires Valid(p) && i < |p.slots| && p.slots[i].active && Starts(p, es, timeout) && Quiet(p, es, timeout, i)
    requires Ticks(es) == Life(p.slots[i].timer) - 1
    ensures var q := Run(p, es, timeout);
            && q.slots[i].active && q.slots[i].fd == p.slots[i].fd
            && p.slots[i].fd in q.registered && q.registered[p.slots[i].fd] == i
            && !Step(q, Tick, timeout).slots[i].active
  {
    QuietRun(p, es, timeout, i);
    RunKeeps(p, es, timeout);
    TickCountsDown(Run(p, es, timeout), i);
  }

  // ----- what traffic, a new connection and a failure do to a slot -----

  /** The event brings traffic for this slot: a connection it is given, a request passed on, or a response written. */
  predicate Traffic(p: Pool, e: Event, i: nat) {
    match e
    case Accept(fd, _, _, refused) => i == Idle(p.slots) && !refused && fd < MAX_PEER_NUMS + 1024
    case Request(slot, delivered) => slot == i && delivered
    case Response(id, written) => Active(p.slots, id) == i && written
    case Tick => false
  }

  /** The event ends the session of this slot: a request or a response that failed. */
  predicate Failure(p: Pool, e: Event, i: nat) {
    match e
    case Request(slot, delivered) => slot == i && !delivered
    case Response(id, written) => Active(p.slots, id) == i && !written
    case _ => false
  }

  /** Traffic restarts the session, a new connection brings its own socket and address, and no other slot changes. */
  lemma TrafficRestarts(p: Pool, e: Event, timeout: Timer, i: nat)
    requires Valid(p) && Possible(p, e) && i < |p.slots| && Traffic(p, e, i)
    ensures var q := Step(p, e, timeout);
            && q.slots[i].active && q.slots[i].timer == timeout && q.slots[i].id == p.slots[i].id
            && q.slots[i].authed == p.slots[i].authed
            && (if e.Accept? then q.slots[i].fd == e.fd && q.slots[i].ip == e.ip && q.slots[i].port == e.port
                else q.slots[i].fd == p.slots[i].fd && q.slots[i].ip == p.slots[i].ip && q.slots[i].port == p.slots[i].port)
            && q.connections == p.connections + (if e.Accept? then 1 else 0)
            && forall k :: 0 <= k < |p.slots| && k != i ==> q.slots[k] == p.slots[k]
  {
  }

  /** A failure closes the session and its socket, and no other slot changes. */
  lemma FailureCloses(p: Pool, e: Event, timeout: Timer, i: nat)
    requires Valid(p) && Possible(p, e) && i < |p.slots| && Failure(p, e, i)
    ensures var q, peer := Step(p, e, timeout), p.slots[i];
            && q.slots[i] == peer.(active := false, authed := false)
            && q.connections == p.connections - 1
            && peer.fd in p.open && q.open == p.open - {peer.fd} && peer.fd !in q.registered
            && forall k :: 0 <= k < |p.slots| && k != i ==> q.slots[k] == p.slots[k]
  {
  }

  /** From the last traffic on, over every run that brings no more of it, the session lasts exactly as long as the
      timeout: it is open on its socket until that many ticks less one have passed, and the next tick closes it. */
  lemma SessionLasts(p: Pool, e: Event, es: seq<Event>, timeout: Timer, i: nat)
    requires Valid(p) && Possible(p, e) && i < |p.slots| && Traffic(p, e, i)
    requires var q := Step(p, e, timeout); Starts(q, es, timeout) && Quiet(q, es, timeout, i)
    ensures var q := Step(p, e, timeout);
            var r := Run(q, es, timeout);
            && (Ticks(es) < Life(timeout) ==> r.slots[i].active && r.slots[i].fd == q.slots[i].fd)
            && (Ticks(es) == Life(timeout) - 1 ==> !Step(r, Tick, timeout).slots[i].active)
  {
    TrafficRestarts(p, e, timeout, i);
    StepKeeps(p, e, timeout);
    hide Valid, Step, Traffic, Run;
    var q := Step(p, e, timeout);
    if Ticks(es) < Life(timeout) { QuietRun(q, es, timeout, i); }
    if Ticks(es) == Life(timeout) - 1 { SilentPeerClosed(q, es, timeout, i); }
  }

  /** A timeout of n ticks is n ticks long, except that none at all is the whole range of the timer. */
  lemma LifeOfTimeout(timeout: Timer)
    ensures Life(timeout) == if timeout >= 1 then timeout else 65536
  {
  }

  // ----- ids -----

  /** An id finds its slot again while the peer is active, unless it is the first slot, which no id reaches. */
  lemma IdFindsSlot(p: Pool, i: nat)
    requires Valid(p) && i < |p.slots|
    ensures Active(p.slots, p.slots[i].id) == i <==> p.slots[i].active && i != 0
    ensures Active(p.slots, PEER_ID_OFFSET) == -1
  {
  }

  lemma ActiveIdIsExact(p: Pool, id: int)
    requires Valid(p) && 0 <= id < 0x1_0000_0000 && Active(p.slots, id) != -1
    ensures p.slots[Active(p.slots, id)].id == id
  {
  }
}
