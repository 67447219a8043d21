/** tflib/ae/ae_epoll.c: registrations kept in the kernel's interest set by ADD, MOD and DEL. */
module AeEpoll {
  import opened AeRegistry

  datatype CtlOp = Add | Mod | Del

  datatype EpollEvent = EpollEvent(fd: nat, epollin: bool, epollout: bool, epollerr: bool, epollhup: bool)

  /** A partial map holds exactly the non-empty masks. */
  ghost predicate Holds(m: map<nat, Mask>, masks: seq<Mask>) {
    && (forall fd: nat :: fd in m <==> fd < |masks| && masks[fd] != NONE)
    && (forall fd: nat :: fd in m ==> m[fd] == masks[fd])
  }

  lemma HoldsAfterSet(m: map<nat, Mask>, masks: seq<Mask>, fd: nat, mask: Mask)
    requires Holds(m, masks) && fd < |masks|
    ensures Holds(m[fd := mask], masks[fd := mask]) <==> mask != NONE
    ensures Holds(m - {fd}, masks[fd := mask]) <==> mask == NONE
  {
    assert fd in m[fd := mask] && fd !in m - {fd};
  }

  class EpollState {
    var interest: map<nat, Mask>

    ghost predicate Represents(masks: seq<Mask>)
      reads this
    {
      Holds(interest, masks)
    }

    constructor (ghost setsize: nat)
      ensures Represents(seq(setsize, _ => NONE))
    {
      interest := map[];
    }

    /** epoll_ctl: ADD wants a new descriptor, MOD and DEL a known one; the kernel may also refuse for its own reasons. */
    method EpollCtl(op: CtlOp, fd: nat, mask: Mask, refused: bool) returns (rc: int)
      modifies this
      ensures rc == if refused || (op == Add <==> fd in old(interest)) then -1 else 0
      ensures interest == if rc == -1 then old(interest) else if op == Del then old(interest) - {fd}
                          else old(interest)[fd := mask]
    {
      if refused || (op == Add <==> fd in interest) {
        return -1;
      }
      interest := if op == Del then interest - {fd} else interest[fd := mask];
      rc := 0;
    }

    /** The choice between ADD and MOD always fits: only a refusal fails, and it changes nothing. */
    method AddEvent(fd: nat, mask: Mask, registered: Mask, refused: bool, ghost masks: seq<Mask>) returns (rc: int)
      requires Represents(masks) && fd < |masks| && registered == masks[fd]
      modifies this
      ensures rc == if refused then AE_ERR else AE_OK
      ensures refused ==> Represents(masks)
      ensures !refused ==> (Represents(masks[fd := Or(registered, mask)]) <==> Or(registered, mask) != NONE)
    {
      var op := if registered == NONE then Add else Mod;
      HoldsAfterSet(interest, masks, fd, Or(registered, mask));
      rc := EpollCtl(op, fd, Or(registered, mask), refused);
    }

    /** Called after the loop's own mask has been reduced; MOD or DEL always fits. */
    method DelEvent(fd: nat, delmask: Mask, registered: Mask, ghost masks: seq<Mask>)
      requires Represents(masks) && fd < |masks| && masks[fd] != NONE && registered == Without(masks[fd], delmask)
      modifies this
      ensures Represents(masks[fd := registered])
    {
      var mask := Without(registered, delmask);
      HoldsAfterSet(interest, masks, fd, mask);
      var rc := EpollCtl(if mask != NONE then Mod else Del, fd, mask, false);
      assert rc == 0;
    }

    /** What epoll_wait can return: known descriptors, each once, ready for what was asked, or in error. */
    ghost predicate CanReturn(returned: seq<EpollEvent>, setsize: nat)
      reads this
    {
      && |returned| <= setsize
      && (forall i :: 0 <= i < |returned| ==> returned[i].fd in interest
                                              && (returned[i].epollin ==> interest[returned[i].fd].readable)
                                              && (returned[i].epollout ==> interest[returned[i].fd].writable))
      && (forall i, j :: 0 <= i < j < |returned| ==> returned[i].fd != returned[j].fd)
    }

    method Poll(returned: seq<EpollEvent>, fired: array<Fired>, ghost masks: seq<Mask>) returns (numevents: nat)
      requires Represents(masks) && |masks| == fired.Length && CanReturn(returned, fired.Length)
      modifies fired
      ensures numevents == |returned| <= fired.Length
      ensures forall i :: 0 <= i < numevents ==>
                var e, f := returned[i], fired[i];
                && f.fd == e.fd < |masks| && masks[f.fd] != NONE
                && (f.mask.readable <==> e.epollin)
                && (f.mask.writable <==> e.epollout || e.epollerr || e.epollhup)
    {
      numevents := |returned|;
      for j := 0 to numevents
        invariant forall i :: 0 <= i < j ==>
                    var e := returned[i];
                    fired[i] == Fired(e.fd, Mask(e.epollin, e.epollout || e.epollerr || e.epollhup))
      {
        var mask, e := NONE, returned[j];
        if e.epollin { mask := Or(mask, Mask(true, false)); }
        if e.epollout { mask := Or(mask, Mask(false, true)); }
        if e.epollerr { mask := Or(mask, Mask(false, true)); }
        if e.epollhup { mask := Or(mask, Mask(false, true)); }
        fired[j] := Fired(e.fd, mask);
      }
    }
  }
}
