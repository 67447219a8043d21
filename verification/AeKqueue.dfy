/** tflib/ae/ae_kqueue.c: registrations kept as kernel filters, one per kind. */
module AeKqueue {
  import opened AeRegistry

  /** A kevent: a descriptor and the filter it passed. */
  datatype Kevent = Kevent(ident: nat, read: bool)

  class KqueueState {
    var readFilters: set<nat>
    var writeFilters: set<nat>

    ghost predicate Represents(masks: seq<Mask>)
      reads this
    {
      && (forall fd: nat :: fd in readFilters <==> fd < |masks| && masks[fd].readable)
      && (forall fd: nat :: fd in writeFilters <==> fd < |masks| && masks[fd].writable)
    }

    constructor (ghost setsize: nat)
      ensures Represents(seq(setsize, _ => NONE))
    {
      readFilters, writeFilters := {}, {};
    }

    /** One kernel call for each kind, either of which may fail. A filter added before the second call fails is not taken
        back: then the filters stand for the masks only if that kind was registered already. */
    method AddEvent(fd: nat, mask: Mask, readRefused: bool, writeRefused: bool, ghost masks: seq<Mask>) returns (rc: int)
      requires Represents(masks) && fd < |masks|
      modifies this
      ensures rc == if (mask.readable && readRefused) || (mask.writable && writeRefused) then AE_ERR else AE_OK
      ensures rc == AE_OK ==> Represents(masks[fd := Or(masks[fd], mask)])
      ensures rc == AE_ERR ==> Represents(masks[fd := Or(masks[fd], Mask(mask.readable && !readRefused, false))])
      ensures rc == AE_ERR ==> (Represents(masks) <==> !mask.readable || readRefused || masks[fd].readable)
    {
      ghost var grown := masks[fd := Or(masks[fd], Mask(mask.readable && !readRefused, false))];
      if mask.readable {
        if readRefused {
          assert grown == masks;
          return AE_ERR;
        }
        readFilters := readFilters + {fd};
      }
      assert fd in readFilters <==> grown[fd].readable;
      if mask.writable {
        if writeRefused {
          return AE_ERR;
        }
        writeFilters := writeFilters + {fd};
      }
      rc := AE_OK;
    }

    method DelEvent(fd: nat, mask: Mask, ghost masks: seq<Mask>)
      requires Represents(masks) && fd < |masks|
      modifies this
      ensures Represents(masks[fd := Without(masks[fd], mask)])
    {
      if mask.readable { readFilters := readFilters - {fd}; }
      if mask.writable { writeFilters := writeFilters - {fd}; }
    }

    /** kevent returns existing filters, each at most once. */
    ghost predicate CanReturn(returned: seq<Kevent>, setsize: nat)
      reads this
    {
      && |returned| <= setsize
      && (forall i :: 0 <= i < |returned| ==> returned[i].ident in (if returned[i].read then readFilters else writeFilters))
      && (forall i, j :: 0 <= i < j < |returned| ==> returned[i] != returned[j])
    }

    /** Each entry reports one kind, and one the descriptor is registered for; a descriptor ready for both has two. */
    method Poll(returned: seq<Kevent>, fired: array<Fired>, ghost masks: seq<Mask>) returns (numevents: nat)
      requires Represents(masks) && |masks| == fired.Length && CanReturn(returned, fired.Length)
      modifies fired
      ensures numevents == |returned| <= fired.Length
      ensures forall i :: 0 <= i < numevents ==>
                && fired[i].fd == returned[i].ident < |masks|
                && fired[i].mask == Mask(returned[i].read, !returned[i].read)
                && Or(masks[fired[i].fd], fired[i].mask) == masks[fired[i].fd]
      ensures forall i, j :: 0 <= i < j < numevents ==> fired[i] != fired[j]
    {
      numevents := |returned|;
      for j := 0 to numevents
        invariant forall i :: 0 <= i < j ==> fired[i] == Fired(returned[i].ident, Mask(returned[i].read, !returned[i].read))
      {
        var mask, e := NONE, returned[j];
        if e.read { mask := Or(mask, Mask(true, false)); }
        if !e.read { mask := Or(mask, Mask(false, true)); }
        fired[j] := Fired(e.ident, mask);
      }
    }
  }
}
