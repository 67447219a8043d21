/** tflib/ae/ae_select.c: registrations kept in two descriptor sets, and a scan bounded by the cached maximum. */
module AeSelect {
  import opened AeRegistry

  class SelectState {
    var rfds: set<nat>
    var wfds: set<nat>

    ghost predicate Represents(masks: seq<Mask>)
      reads this
    {
      && (forall fd: nat :: fd in rfds <==> fd < |masks| && masks[fd].readable)
      && (forall fd: nat :: fd in wfds <==> fd < |masks| && masks[fd].writable)
    }

    constructor (ghost setsize: nat)
      ensures Represents(seq(setsize, _ => NONE))
    {
      rfds, wfds := {}, {};
    }

    method AddEvent(fd: nat, mask: Mask, ghost masks: seq<Mask>) returns (rc: int)
      requires Represents(masks) && fd < |masks|
      modifies this
      ensures rc == AE_OK && Represents(masks[fd := Or(masks[fd], mask)])
    {
      if mask.readable { rfds := rfds + {fd}; }
      if mask.writable { wfds := wfds + {fd}; }
      rc := AE_OK;
    }

    method DelEvent(fd: nat, mask: Mask, ghost masks: seq<Mask>)
      requires Represents(masks) && fd < |masks|
      modifies this
      ensures Represents(masks[fd := Without(masks[fd], mask)])
    {
      if mask.readable { rfds := rfds - {fd}; }
      if mask.writable { wfds := wfds - {fd}; }
    }

    /** select leaves in the copies only ready descriptors it was asked about, none beyond its bound. */
    ghost predicate CanReturn(readyR: set<nat>, readyW: set<nat>, maxfd: int)
      reads this
    {
      && (forall fd: nat :: fd in readyR ==> fd in rfds && fd <= maxfd)
      && (forall fd: nat :: fd in readyW ==> fd in wfds && fd <= maxfd)
    }

    /** If anything is ready the scan reports every registered descriptor once, in ascending order, with exactly its
        ready kinds; the cached maximum cuts none off. */
    method Poll(readyR: set<nat>, readyW: set<nat>, events: array<FileEvent>, maxfd: int, fired: array<Fired>)
      returns (numevents: nat)
      requires Represents(Masks(events[..])) && MaxFdExact(Loop(events[..], maxfd))
      requires CanReturn(readyR, readyW, maxfd) && fired.Length == events.Length
      modifies fired
      ensures numevents <= fired.Length
      ensures forall i :: 0 <= i < numevents ==>
                fired[i].fd < events.Length && events[fired[i].fd].mask != NONE
                && fired[i].mask == Mask(fired[i].fd in readyR, fired[i].fd in readyW)
      ensures forall i, k :: 0 <= i < k < numevents ==> fired[i].fd < fired[k].fd
      ensures readyR + readyW == {} ==> numevents == 0
      ensures readyR + readyW != {} ==>
                forall fd: nat :: fd < events.Length && events[fd].mask != NONE ==>
                  exists i :: 0 <= i < numevents && fired[i].fd == fd
    {
      numevents := 0;
      var retval := |readyR| + |readyW|;
      if retval <= 0 {
        return;
      }
      ghost var at: map<nat, nat> := map[];
      for j := 0 to maxfd + 1
        invariant numevents <= j
        invariant forall i :: 0 <= i < numevents ==>
                    fired[i].fd < j && events[fired[i].fd].mask != NONE
                    && fired[i].mask == Mask(fired[i].fd in readyR, fired[i].fd in readyW)
        invariant forall i, k :: 0 <= i < k < numevents ==> fired[i].fd < fired[k].fd
        invariant forall fd: nat :: fd < j && events[fd].mask != NONE ==>
                    fd in at && at[fd] < numevents && fired[at[fd]].fd == fd
      {
        var mask, fe := NONE, events[j];
        if fe.mask == NONE {
          continue;
        }
        if fe.mask.readable && j in readyR { mask := Or(mask, Mask(true, false)); }
        if fe.mask.writable && j in readyW { mask := Or(mask, Mask(false, true)); }
        fired[numevents] := Fired(j, mask);
        at := at[j := numevents];
        numevents := numevents + 1;
      }
    }
  }
}
