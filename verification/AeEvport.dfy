/** tflib/ae/ae_evport.c: each registration lives either in the kernel or in a pending slot, never in both. */
module AeEvport {
  import opened AeRegistry

  const MAX_EVENT_BATCHSZ: nat := 512

  /** What port_getn returns: the descriptor and the events that happened. The association's mask comes with it. */
  datatype PortEvent = PortEvent(fd: nat, pollin: bool, pollout: bool)

  /** Slot i of the pending table holds a live descriptor. */
  predicate Live(fds: seq<int>, i: nat) {
    i < |fds| && fds[i] != -1
  }

  /** Live slots name different registered descriptors and carry their masks; each registered descriptor without a
      live slot is associated in the kernel with its mask; nothing else is anywhere. */
  ghost predicate EitherOr(assoc: map<nat, Mask>, fds: seq<int>, pms: seq<Mask>, masks: seq<Mask>) {
    && |fds| == |pms|
    && (forall i :: 0 <= i < |fds| ==> -1 <= fds[i] < |masks|)
    && (forall i :: 0 <= i < |fds| && fds[i] != -1 ==> masks[fds[i]] == pms[i] != NONE && fds[i] !in assoc)
    && (forall i, j :: 0 <= i < j < |fds| && fds[i] != -1 ==> fds[i] != fds[j])
    && (forall fd: nat :: fd in assoc ==> fd < |masks| && assoc[fd] == masks[fd] != NONE)
    && (forall fd: nat :: fd < |masks| && masks[fd] != NONE && fd !in assoc ==> fd in fds)
  }

  /** What that comes to for one descriptor. */
  lemma ExactlyOne(assoc: map<nat, Mask>, fds: seq<int>, pms: seq<Mask>, masks: seq<Mask>, fd: nat)
    requires EitherOr(assoc, fds, pms, masks) && fd < |masks|
    ensures masks[fd] == NONE ==> fd !in assoc && fd !in fds
    ensures masks[fd] != NONE ==> (fd in assoc <==> fd !in fds)
    ensures fd in assoc ==> assoc[fd] == masks[fd]
    ensures forall i :: 0 <= i < |fds| && fds[i] == fd ==> pms[i] == masks[fd]
  {
  }

  /** A registered descriptor's mask changes where it lives. */
  lemma SlotUpdated(assoc: map<nat, Mask>, fds: seq<int>, pms: seq<Mask>, masks: seq<Mask>, i: nat, mask: Mask)
    requires EitherOr(assoc, fds, pms, masks) && Live(fds, i) && fds[i] >= 0
    ensures mask != NONE ==> EitherOr(assoc, fds, pms[i := mask], masks[fds[i] := mask])
    ensures mask == NONE ==> EitherOr(assoc, fds[i := -1], pms[i := mask], masks[fds[i] := mask])
  {
    var fds', masks' := fds[i := -1], masks[fds[i] := mask];
    forall fd: nat | fd < |masks| && masks'[fd] != NONE && fd !in assoc && mask == NONE ensures fd in fds' {
      var k :| 0 <= k < |fds| && fds[k] == fd;
      assert fds'[k] == fd;
    }
  }

  lemma AssociationUpdated(assoc: map<nat, Mask>, fds: seq<int>, pms: seq<Mask>, masks: seq<Mask>, fd: nat, mask: Mask)
    requires EitherOr(assoc, fds, pms, masks) && fd < |masks| && fd !in fds
    ensures EitherOr(assoc[fd := mask], fds, pms, masks[fd := mask]) <==> mask != NONE
    ensures mask == NONE ==> EitherOr(assoc - {fd}, fds, pms, masks[fd := mask])
  {
    assert fd in assoc[fd := mask];
  }

  /** Re-association moves a live slot into the kernel. */
  lemma SlotReturned(assoc: map<nat, Mask>, fds: seq<int>, pms: seq<Mask>, masks: seq<Mask>, i: nat)
    requires EitherOr(assoc, fds, pms, masks) && Live(fds, i) && fds[i] >= 0
    ensures EitherOr(assoc[fds[i] := pms[i]], fds[i := -1], pms[i := NONE], masks)
  {
    var fds' := fds[i := -1];
    forall fd: nat | fd < |masks| && masks[fd] != NONE && fd !in assoc && fd != fds[i] ensures fd in fds' {
      var k :| 0 <= k < |fds| && fds[k] == fd;
      assert fds'[k] == fd;
    }
  }

  lemma EmptyTable(assoc: map<nat, Mask>, fds: seq<int>, pms: seq<Mask>, masks: seq<Mask>)
    requires EitherOr(assoc, fds, pms, masks) && forall i :: 0 <= i < |fds| ==> fds[i] == -1
    ensures EitherOr(assoc, [], [], masks)
  {
  }

  /** A returned descriptor leaves the kernel for a new slot. */
  lemma SlotTaken(assoc: map<nat, Mask>, fds: seq<int>, pms: seq<Mask>, masks: seq<Mask>, fd: nat)
    requires EitherOr(assoc, fds, pms, masks) && fd in assoc
    ensures EitherOr(assoc - {fd}, fds + [fd], pms + [assoc[fd]], masks)
  {
    var fds' := fds + [fd];
    assert fds'[|fds|] == fd;
    forall k: nat | k < |masks| && masks[k] != NONE && k !in assoc - {fd} ensures k in fds' {
      if k != fd {
        var i :| 0 <= i < |fds| && fds[i] == k;
        assert fds'[i] == k;
      }
    }
  }

  // ----- what the kernel hands back -----

  ghost predicate Distinct(returned: seq<PortEvent>) {
    forall i, j :: 0 <= i < j < |returned| ==> returned[i].fd != returned[j].fd
  }

  /** port_getn returns associated descriptors, each once, at most a table full. */
  ghost predicate CanReturn(returned: seq<PortEvent>, masks: seq<Mask>) {
    && |returned| <= MAX_EVENT_BATCHSZ && Distinct(returned)
    && (forall i :: 0 <= i < |returned| ==> returned[i].fd < |masks| && masks[returned[i].fd] != NONE)
  }

  /** The associations left once the first n returned descriptors are gone. */
  function Left(assoc: map<nat, Mask>, returned: seq<PortEvent>, n: nat): (r: map<nat, Mask>)
    requires n <= |returned|
    ensures forall fd: nat :: fd in r <==> fd in assoc && forall k :: 0 <= k < n ==> returned[k].fd != fd
    ensures forall fd: nat :: fd in r ==> r[fd] == assoc[fd]
  {
    if n == 0 then assoc else Left(assoc, returned, n - 1) - {returned[n - 1].fd}
  }

  /** The i-th returned descriptor is still associated when the first i are gone. */
  ghost predicate AtHand(assoc: map<nat, Mask>, returned: seq<PortEvent>, i: nat, user: Mask) {
    && i < |returned| && returned[i].fd in Left(assoc, returned, i) && user == Left(assoc, returned, i)[returned[i].fd]
    && Left(assoc, returned, i + 1) == Left(assoc, returned, i) - {returned[i].fd}
  }

  lemma FitsTable(returned: seq<PortEvent>, masks: seq<Mask>)
    requires CanReturn(returned, masks)
    ensures |returned| <= MAX_EVENT_BATCHSZ && |returned| <= |masks|
  {
    BatchFits(returned, |masks|);
  }

  /** Different descriptors below n are at most n: the loop's fired table, of that size, holds any batch. */
  lemma {:induction false} BatchFits(returned: seq<PortEvent>, n: nat)
    requires Distinct(returned) && forall i :: 0 <= i < |returned| ==> returned[i].fd < n
    ensures |returned| <= n
    decreases n
  {
    if returned != [] {
      assert returned[0].fd < n;
      if k :| 0 <= k < |returned| && returned[k].fd == n - 1 {
        var rest := returned[..k] + returned[k + 1..];
        forall i | 0 <= i < |rest| ensures rest[i] == returned[if i < k then i else i + 1] {}
        BatchFits(rest, n - 1);
      } else {
        BatchFits(returned, n - 1);
      }
    }
  }

  /** Some live slot holds a descriptor the kernel will not associate. */
  predicate AnyRefused(fds: seq<int>, refused: set<int>) {
    exists i :: 0 <= i < |fds| && fds[i] != -1 && fds[i] in refused
  }

  class EvportState {
    var assoc: map<nat, Mask>
    var npending: nat
    const pendingFds: array<int>
    const pendingMasks: array<Mask>

    ghost predicate Represents(masks: seq<Mask>)
      reads this, pendingFds, pendingMasks
    {
      && pendingFds.Length == pendingMasks.Length == MAX_EVENT_BATCHSZ && npending <= MAX_EVENT_BATCHSZ
      && EitherOr(assoc, pendingFds[..npending], pendingMasks[..npending], masks)
    }

    constructor (ghost setsize: nat)
      ensures Represents(seq(setsize, _ => NONE)) && fresh(pendingFds) && fresh(pendingMasks)
    {
      assoc, npending := map[], 0;
      pendingFds := new int[MAX_EVENT_BATCHSZ](_ => -1);
      pendingMasks := new Mask[MAX_EVENT_BATCHSZ](_ => NONE);
    }

    method LookupPending(fd: nat) returns (i: int)
      requires npending <= pendingFds.Length
      ensures -1 <= i < npending
      ensures i >= 0 ==> pendingFds[i] == fd
      ensures i == -1 ==> fd !in pendingFds[..npending]
    {
      i := 0;
      while i < npending
        invariant 0 <= i <= npending
        invariant forall k :: 0 <= k < i ==> pendingFds[k] != fd
      {
        if pendingFds[i] == fd {
          return;
        }
        i := i + 1;
      }
      i := -1;
    }

    /** port_associate replaces the association; the kernel may refuse. */
    method PortAssociate(fd: nat, mask: Mask, refused: bool) returns (rc: int)
      modifies this`assoc
      ensures rc == if refused then -1 else 0
      ensures assoc == if refused then old(assoc) else old(assoc)[fd := mask]
    {
      if refused {
        return -1;
      }
      assoc := assoc[fd := mask];
      rc := 0;
    }

    /** port_dissociate fails for a descriptor that is not associated. */
    method PortDissociate(fd: nat) returns (rc: int)
      modifies this`assoc
      ensures rc == if fd in old(assoc) then 0 else -1
      ensures assoc == old(assoc) - {fd}
    {
      rc := if fd in assoc then 0 else -1;
      assoc := assoc - {fd};
    }

    method AddEvent(fd: nat, mask: Mask, registered: Mask, refused: bool, ghost masks: seq<Mask>) returns (rc: int)
      requires Represents(masks) && fd < |masks| && registered == masks[fd]
      modifies this`assoc, pendingMasks
      ensures rc == AE_OK || (rc == AE_ERR && refused && Represents(masks))
      ensures rc == AE_OK ==> (Represents(masks[fd := Or(registered, mask)]) <==> Or(registered, mask) != NONE)
    {
      hide EitherOr;
      var fullmask := Or(mask, registered);
      ghost var fds, pms := pendingFds[..npending], pendingMasks[..npending];
      var pfd := LookupPending(fd);
      if pfd != -1 {
        assert fds[pfd] == fd && fd in fds;
        ExactlyOne(assoc, fds, pms, masks, fd);
        SlotUpdated(assoc, fds, pms, masks, pfd, fullmask);
        pendingMasks[pfd] := Or(pendingMasks[pfd], fullmask);
        assert pendingMasks[..npending] == pms[pfd := fullmask];
        return AE_OK;
      }
      AssociationUpdated(assoc, fds, pms, masks, fd, fullmask);
      rc := PortAssociate(fd, fullmask, refused);
    }

    /** Called after the loop's own mask has been reduced. The program aborts exactly when the kernel refuses to associate
        the remaining kinds of a descriptor it holds; the abort on a failing port_dissociate is never reached. */
    method DelEvent(fd: nat, mask: Mask, registered: Mask, refused: bool, ghost masks: seq<Mask>) returns (aborted: bool)
      requires Represents(masks) && fd < |masks| && masks[fd] != NONE && registered == Without(masks[fd], mask)
      modifies this`assoc, pendingFds, pendingMasks
      ensures aborted <==> refused && registered != NONE && fd in old(assoc)
      ensures !aborted ==> Represents(masks[fd := registered])
    {
      hide EitherOr;
      ghost var fds, pms := pendingFds[..npending], pendingMasks[..npending];
      ExactlyOne(assoc, fds, pms, masks, fd);
      var pfd := LookupPending(fd);
      if pfd != -1 {
        assert fds[pfd] == fd;
        SlotUpdated(assoc, fds, pms, masks, pfd, registered);
        pendingMasks[pfd] := Without(pendingMasks[pfd], mask);
        assert pendingMasks[..npending] == pms[pfd := registered];
        if pendingMasks[pfd] == NONE {
          pendingFds[pfd] := -1;
          assert pendingFds[..npending] == fds[pfd := -1];
        }
        return false;
      }
      AssociationUpdated(assoc, fds, pms, masks, fd, registered);
      if registered == NONE {
        var rc := PortDissociate(fd);
        aborted := rc != 0;
      } else {
        var rc := PortAssociate(fd, registered, refused);
        aborted := rc != 0;
      }
    }

    /** The first half of aeApiPoll: every live slot goes back to the kernel, and the program aborts exactly when the
        kernel refuses one of them. */
    method Reassociate(refused: set<int>, ghost masks: seq<Mask>) returns (aborted: bool)
      requires Represents(masks)
      modifies this`assoc, this`npending, pendingFds, pendingMasks
      ensures aborted <==> AnyRefused(old(pendingFds[..npending]), refused)
      ensures !aborted ==> Represents(masks) && npending == 0
    {
      hide EitherOr;
      ghost var was := pendingFds[..npending];
      for i := 0 to npending
        invariant Represents(masks) && npending == old(npending) == |was|
        invariant forall k :: 0 <= k < i ==> pendingFds[k] == -1 && (was[k] == -1 || was[k] !in refused)
        invariant forall k :: i <= k < npending ==> pendingFds[k] == was[k]
      {
        ghost var fds, pms := pendingFds[..npending], pendingMasks[..npending];
        SlotInRange(assoc, fds, pms, masks, i);
        if pendingFds[i] == -1 {
          continue;
        }
        SlotReturned(assoc, fds, pms, masks, i);
        assert was[i] == pendingFds[i];
        var rc := PortAssociate(pendingFds[i], pendingMasks[i], pendingFds[i] in refused);
        if rc != 0 {
          return true;
        }
        pendingMasks[i] := NONE;
        pendingFds[i] := -1;
        assert pendingFds[..npending] == fds[i := -1] && pendingMasks[..npending] == pms[i := NONE];
      }
      EmptyTable(assoc, pendingFds[..npending], pendingMasks[..npending], masks);
      npending := 0;
      aborted := false;
      assert pendingFds[..0] == [] && pendingMasks[..0] == [];
    }

    /** port_getn hands over the associations' masks and dissociates what it returns. */
    method PortGetn(returned: seq<PortEvent>) returns (users: seq<Mask>)
      requires forall i :: 0 <= i < |returned| ==> returned[i].fd in assoc
      modifies this`assoc
      ensures assoc == Left(old(assoc), returned, |returned|)
      ensures |users| == |returned| && forall i :: 0 <= i < |returned| ==> users[i] == old(assoc)[returned[i].fd]
    {
      var known := assoc;
      users := seq(|returned|, i requires 0 <= i < |returned| => known[returned[i].fd]);
      assoc := Left(assoc, returned, |returned|);
    }

    /** Both kernel calls of aeApiPoll: afterwards what was returned is nowhere, and the rest is associated. */
    method Fetch(returned: seq<PortEvent>, refused: set<int>, ghost masks: seq<Mask>)
      returns (users: seq<Mask>, aborted: bool, ghost before: map<nat, Mask>)
      requires Represents(masks) && CanReturn(returned, masks)
      modifies this`assoc, this`npending, pendingFds, pendingMasks
      ensures aborted <==> AnyRefused(old(pendingFds[..npending]), refused)
      ensures !aborted ==>
                && EitherOr(before, [], [], masks)
                && Left(before, returned, 0) == before && assoc == Left(before, returned, |returned|)
                && |users| == |returned|
                && forall i :: 0 <= i < |returned| ==> AtHand(before, returned, i, users[i])
    {
      aborted := Reassociate(refused, masks);
      users, before := [], assoc;
      if aborted {
        return;
      }
      assert pendingFds[..0] == [] && pendingMasks[..0] == [];
      AllAssociated(before, masks, returned);
      hide *;
      users := PortGetn(returned);
      AllAtHand(before, returned, users);
    }

    /** One returned event is reported and becomes pending. */
    method TakeSlot(i: nat, e: PortEvent, user: Mask, fired: array<Fired>,
                    ghost left: map<nat, Mask>, ghost masks: seq<Mask>)
      requires pendingFds.Length == pendingMasks.Length && i < pendingFds.Length && i < fired.Length
      requires EitherOr(left, pendingFds[..i], pendingMasks[..i], masks) && e.fd in left && user == left[e.fd]
      modifies pendingFds, pendingMasks, fired
      ensures EitherOr(left - {e.fd}, pendingFds[..i + 1], pendingMasks[..i + 1], masks)
      ensures fired[i] == Fired(e.fd, Mask(e.pollin, e.pollout)) && pendingFds[i] == e.fd
      ensures forall k :: 0 <= k < i ==> fired[k] == old(fired[k]) && pendingFds[k] == old(pendingFds[k])
    {
      hide EitherOr;
      ghost var fds, pms := pendingFds[..i], pendingMasks[..i];
      SlotTaken(left, fds, pms, masks, e.fd);
      var mask := NONE;
      if e.pollin { mask := Or(mask, Mask(true, false)); }
      if e.pollout { mask := Or(mask, Mask(false, true)); }
      fired[i] := Fired(e.fd, mask);
      pendingFds[i] := e.fd;
      pendingMasks[i] := user;
      assert pendingFds[..i + 1] == fds + [e.fd as int] && pendingMasks[..i + 1] == pms + [user];
    }

    /** aeApiPoll: whatever was pending is associated again, and what is returned becomes pending, so every registration
        survives the poll in exactly one place, unless the kernel refuses one and the program aborts. */
    method Poll(returned: seq<PortEvent>, refused: set<int>, fired: array<Fired>, ghost masks: seq<Mask>)
      returns (nevents: nat, aborted: bool)
      requires Represents(masks) && CanReturn(returned, masks) && fired.Length == |masks|
      modifies this`assoc, this`npending, pendingFds, pendingMasks, fired
      ensures aborted <==> AnyRefused(old(pendingFds[..npending]), refused)
      ensures !aborted ==> Represents(masks) && npending == nevents == |returned| <= fired.Length
      ensures !aborted ==> forall i :: 0 <= i < nevents ==>
                fired[i] == Fired(returned[i].fd, Mask(returned[i].pollin, returned[i].pollout)) && pendingFds[i] == returned[i].fd
    {
      hide Left, EitherOr, CanReturn, AnyRefused;
      FitsTable(returned, masks);
      var users; ghost var before;
      nevents := 0;
      users, aborted, before := Fetch(returned, refused, masks);
      if aborted {
        return;
      }
      assert pendingFds[..0] == [] && pendingMasks[..0] == [];
      nevents := |returned|;
      npending := nevents;
      for i := 0 to nevents
        invariant npending == nevents && assoc == Left(before, returned, nevents)
        invariant EitherOr(Left(before, returned, i), pendingFds[..i], pendingMasks[..i], masks)
        invariant forall k :: 0 <= k < i ==>
                    fired[k] == Fired(returned[k].fd, Mask(returned[k].pollin, returned[k].pollout)) && pendingFds[k] == returned[k].fd
      {
        assert AtHand(before, returned, i, users[i]);
        TakeSlot(i, returned[i], users[i], fired, Left(before, returned, i), masks);
      }
    }
  }

  lemma SlotInRange(assoc: map<nat, Mask>, fds: seq<int>, pms: seq<Mask>, masks: seq<Mask>, i: nat)
    requires EitherOr(assoc, fds, pms, masks) && i < |fds|
    ensures -1 <= fds[i]
  {
  }

  lemma AllAssociated(assoc: map<nat, Mask>, masks: seq<Mask>, returned: seq<PortEvent>)
    requires EitherOr(assoc, [], [], masks) && CanReturn(returned, masks)
    ensures Distinct(returned) && forall i :: 0 <= i < |returned| ==> returned[i].fd in assoc
  {
  }

  lemma AllAtHand(assoc: map<nat, Mask>, returned: seq<PortEvent>, users: seq<Mask>)
    requires Distinct(returned) && |users| == |returned|
    requires forall i :: 0 <= i < |returned| ==> returned[i].fd in assoc && users[i] == assoc[returned[i].fd]
    ensures forall i :: 0 <= i < |returned| ==> AtHand(assoc, returned, i, users[i])
    ensures Left(assoc, returned, 0) == assoc
  {
  }
}
