/** The handlers of tfnac/main.c over the slot array they update in place. */
module Peers {
  import opened PeerPool

  class ProcessMgr {
    const socketTimeout: Timer
    const slots: array<Peer>
    var connections: int
    /** The read registrations in the event loop, each with the slot its handler is given, and the open sockets. */
    var registered: map<int, nat>
    var open: set<int>

    ghost function Snapshot(): Pool
      reads this, slots
    {
      Pool(slots[..], connections, registered, open)
    }

    constructor (memory: seq<Peer>, reload: bool, socketTimeout: Timer)
      requires |memory| == MAX_PEER_NUMS
      ensures Snapshot() == Initial(memory, reload) && this.socketTimeout == socketTimeout && fresh(slots)
      ensures Valid(Snapshot()) <==>
                reload || forall i :: 0 <= i < |memory| ==> memory[i].id == i + PEER_ID_OFFSET && !memory[i].active
      ensures slots.Length == MAX_PEER_NUMS && connections == 0 && registered == map[] && open == {}
      ensures forall i :: 0 <= i < |memory| ==>
                slots[i] == if reload then memory[i].(id := 20140000 + i, fd := 0, active := false, authed := false, timer := 0)
                            else memory[i]
    {
      this.socketTimeout := socketTimeout;
      slots := new Peer[MAX_PEER_NUMS](i requires 0 <= i < |memory| => memory[i]);
      connections, registered, open := 0, map[], {};
      new;
      InitialIsValid(memory, reload);
      InitPeers(memory, reload);
    }

    method InitPeers(ghost memory: seq<Peer>, reload: bool)
      requires slots.Length == |memory| == MAX_PEER_NUMS && slots[..] == memory
      modifies slots
      ensures slots[..] == Initial(memory, reload).slots
    {
      if !reload {
        return;
      }
      for i := 0 to MAX_PEER_NUMS
        invariant forall k :: 0 <= k < slots.Length ==> slots[k] == if k < i then Initial(memory, true).slots[k] else memory[k]
      {
        slots[i] := slots[i].(id := i + PEER_ID_OFFSET, fd := 0, active := false, authed := false, timer := 0);
      }
    }

    method GetIdlePeer() returns (i: nat)
      ensures i == Idle(slots[..])
    {
      i := 0;
      while i < slots.Length
        invariant i <= slots.Length && Idle(slots[..]) == i + Idle(slots[i..])
      {
        if !slots[i].active {
          return;
        }
        assert slots[i..][1..] == slots[i + 1..];
        i := i + 1;
      }
    }

    method GetActivePeer(id: int) returns (i: int)
      ensures i == Active(slots[..], id)
    {
      var index := Index(id);
      if 0 < index < slots.Length {
        if slots[index].active {
          return index;
        }
      }
      i := -1;
    }

    method ClosePeer(i: nat)
      requires i < slots.Length
      modifies this, slots
      ensures Snapshot() == Close(old(Snapshot()), i)
    {
      registered := registered - {slots[i].fd};
      slots[i] := slots[i].(active := false, authed := false);
      open := open - {slots[i].fd};
      connections := connections - 1;
    }

    /** A new session. A socket no slot is free for stays open and unwatched. */
    method AcceptTcpHandler(cfd: int, ip: int, port: int, refused: bool)
      requires Valid(Snapshot()) && cfd >= 0 && cfd !in open
      modifies this, slots
      ensures Snapshot() == Step(old(Snapshot()), Accept(cfd, ip, port, refused), socketTimeout) && Valid(Snapshot())
      ensures var i := Idle(old(slots[..]));
              i < slots.Length && !refused && cfd < MAX_PEER_NUMS + 1024 ==>
                slots[i] == old(slots[..])[i].(fd := cfd, ip := ip, port := port, active := true, timer := socketTimeout)
                && registered == old(registered)[cfd := i]
      ensures var i := Idle(old(slots[..]));
              i < slots.Length && (refused || cfd >= MAX_PEER_NUMS + 1024) ==>
                !slots[i].active && cfd !in open && cfd !in registered && connections == old(connections)
      ensures Idle(old(slots[..])) == slots.Length ==>
                slots[..] == old(slots[..]) && cfd in open && cfd !in registered && connections == old(connections)
    {
      StepKeeps(Snapshot(), Accept(cfd, ip, port, refused), socketTimeout);
      hide Valid;
      open := open + {cfd};
      var i := GetIdlePeer();
      if i == slots.Length {
        return;
      }
      slots[i] := slots[i].(fd := cfd, ip := ip, port := port, active := true);
      connections := connections + 1;
      if refused || cfd >= MAX_PEER_NUMS + 1024 {
        ClosePeer(i);
        return;
      }
      registered := registered[cfd := i];
      slots[i] := slots[i].(timer := socketTimeout);
    }

    /** A request from a registered socket: passed on, or broken, out of range or not accepted by the queue. */
    method PeerRequestHandler(fd: int, delivered: bool)
      requires Valid(Snapshot()) && fd in registered
      modifies this, slots
      ensures Snapshot() == Step(old(Snapshot()), Request(old(registered[fd]), delivered), socketTimeout) && Valid(Snapshot())
      ensures slots[old(registered[fd])]
              == if delivered then old(slots[registered[fd]]).(timer := socketTimeout)
                 else old(slots[registered[fd]]).(active := false, authed := false)
      ensures !delivered ==> fd !in registered && fd !in open
    {
      var i := registered[fd];
      StepKeeps(Snapshot(), Request(i, delivered), socketTimeout);
      hide Valid;
      if delivered {
        slots[i] := slots[i].(timer := socketTimeout);
      } else {
        ClosePeer(i);
      }
    }

    /** A response for the peer with this id, if it is still there. */
    method MessageResponseHandler(id: int, written: bool)
      requires Valid(Snapshot()) && 0 <= id < 0x1_0000_0000
      modifies this, slots
      ensures Snapshot() == Step(old(Snapshot()), Response(id, written), socketTimeout) && Valid(Snapshot())
      ensures var i := Active(old(slots[..]), id);
              i != -1 ==> slots[i] == if written then old(slots[..])[i].(timer := socketTimeout)
                                      else old(slots[..])[i].(active := false, authed := false)
      ensures Active(old(slots[..]), id) == -1 ==> Snapshot() == old(Snapshot())
    {
      StepKeeps(Snapshot(), Response(id, written), socketTimeout);
      hide Valid, Active;
      var i := GetActivePeer(id);
      if i == -1 {
        return;
      }
      if written {
        slots[i] := slots[i].(timer := socketTimeout);
      } else {
        ClosePeer(i);
      }
    }

    /** One tick over all slots. */
    method LifeCycleHandler()
      requires Valid(Snapshot())
      modifies this, slots
      ensures Snapshot() == Step(old(Snapshot()), Tick, socketTimeout) && Valid(Snapshot())
    {
      StepKeeps(Snapshot(), Tick, socketTimeout);
      ghost var p := Snapshot();
      hide Valid;
      for i := 0 to slots.Length
        invariant Snapshot() == TickAll(p, i)
      {
        if slots[i].active {
          slots[i] := slots[i].(timer := Down(slots[i].timer));
          if slots[i].timer == 0 {
            ClosePeer(i);
          }
        }
      }
    }
  }
}
