/** The time events of tflib/ae/ae.c: a linked list that re-entrant callbacks change while it is scanned. */
module AeTimers {
  import opened AeTime
  import opened AeTimerList
  import opened AeTimerPass

  const AE_OK := 0
  const AE_ERR := -1

  /** No callback deletes the very timer it then asks to run again: processTimeEvents would re-arm a freed node. */
  ghost predicate Sane(callbacks: Callbacks) {
    forall n: nat, id: int :: callbacks(n, id).ret != AE_NOMORE ==> !Deletes(callbacks(n, id).ops, id)
  }

  /** How long the poll may sleep. */
  datatype Wait = Forever | AtMost(tv: Timeval)

  /** Nearest of the list: none is earlier, and it comes first among equals. */
  ghost predicate NearestOf(ts: seq<Timer>, i: nat) {
    && i < |ts|
    && (forall j :: 0 <= j < |ts| ==> !Earlier(ts[j].when, ts[i].when))
    && (forall j :: 0 <= j < i ==> ts[j].when != ts[i].when)
  }

  /** The smallest distance in milliseconds from `now` to a timer. */
  ghost predicate ShortestDistance(ts: seq<Timer>, now: Time, d: int) {
    && (exists i :: 0 <= i < |ts| && d == Millis(ts[i].when) - Millis(now))
    && (forall i :: 0 <= i < |ts| ==> d <= Millis(ts[i].when) - Millis(now))
  }

  /** The poll sleeps for that distance, or, if it is negative, for its remainder modulo a second. */
  predicate SleepsFor(w: Wait, d: int) {
    w.AtMost? && 1000000 * w.tv.sec + w.tv.usec == 1000 * (if d >= 0 then d else d % 1000)
  }

  lemma NearestIsShortest(ts: seq<Timer>, i: nat, now: Time)
    requires NearestOf(ts, i) && Normalized(ts) && Reading(now)
    ensures var d := Millis(ts[i].when) - Millis(now);
            ShortestDistance(ts, now, d) && SleepsFor(AtMost(Timeout(ts[i].when, now)), d)
  {
    var d := Millis(ts[i].when) - Millis(now);
    forall j | 0 <= j < |ts| ensures d <= Millis(ts[j].when) - Millis(now) {
      assert ts[j] in ts && ts[i] in ts;
      ComparisonsAreNumeric(ts[j].when, ts[i].when);
    }
    TimeoutInMilliseconds(ts[i].when, now);
  }

  /** So in every run without negative delays, begun with no timers, the poll sleeps until the nearest timer, whatever
      callbacks did to the list. */
  lemma RunSleeps(clock: Clock, callbacks: Callbacks, start: Session, actions: seq<Action>, i: nat, now: Time)
    requires Readings(clock) && NonNegative(callbacks) && Reading(now)
    requires start.state.timers == [] && NonNegativeCalls(actions)
    requires NearestOf(ActAll(clock, callbacks, start, actions).state.timers, i)
    ensures var ts := ActAll(clock, callbacks, start, actions).state.timers;
            var d := Millis(ts[i].when) - Millis(now);
            ShortestDistance(ts, now, d) && SleepsFor(AtMost(Timeout(ts[i].when, now)), d)
  {
    assert Ordered(start.state) && Normalized(start.state.timers);
    RunNormalized(clock, callbacks, start, actions);
    hide *;
    NearestIsShortest(ActAll(clock, callbacks, start, actions).state.timers, i, now);
  }

  class TimeEvent {
    const id: int
    var whenSec: int
    var whenMs: int
    var next: TimeEvent?

    constructor (id: int, when: Time, next: TimeEvent?)
      ensures this.id == id && whenSec == when.sec && whenMs == when.ms && this.next == next
    {
      this.id := id;
      whenSec, whenMs := when.sec, when.ms;
      this.next := next;
    }
  }

  /** Only nodes deleted by their ids leave the list. */
  ghost predicate NodesKept(ns: seq<TimeEvent>, ms: seq<TimeEvent>, ops: seq<TimerOp>) {
    forall n :: n in ns && Delete(n.id) !in ops ==> n in ms
  }

  lemma StillThere(ns: seq<TimeEvent>, ms: seq<TimeEvent>, ops: seq<TimerOp>, n: TimeEvent)
    requires NodesKept(ns, ms, ops) && n in ns && Delete(n.id) !in ops
    ensures n in ms
  {
  }

  class EventLoop {
    const clock: Clock
    const callbacks: Callbacks
    var timeEventHead: TimeEvent?
    var timeEventNextId: int
    var lastTime: int
    /** How often the clock has been read, and for which timers callbacks have been called. */
    var readCount: nat
    var calls: seq<int>
    ghost var nodes: seq<TimeEvent>
    /** What the nodes hold. */
    ghost var view: seq<Timer>
    /** Every node the list has held. */
    ghost var Repr: set<TimeEvent>

    ghost predicate Linked()
      reads this`timeEventHead, this`nodes, this`view, this`Repr, Repr
    {
      && (forall i :: 0 <= i < |nodes| ==> nodes[i] in Repr)
      && timeEventHead == (if nodes == [] then null else nodes[0])
      && (forall i {:trigger nodes[i].next} :: 0 <= i < |nodes| - 1 ==> nodes[i].next == nodes[i + 1])
      && (nodes != [] ==> nodes[|nodes| - 1].next == null)
      && (forall i, j :: 0 <= i < j < |nodes| ==> nodes[i] != nodes[j])
      && |view| == |nodes|
      && (forall i :: 0 <= i < |nodes| ==> view[i] == Timer(nodes[i].id, Time(nodes[i].whenSec, nodes[i].whenMs)))
    }

    ghost function Snapshot(): State
      reads this`timeEventNextId, this`readCount, this`view
    {
      State(view, timeEventNextId, readCount)
    }

    ghost predicate Valid()
      reads this`timeEventHead, this`timeEventNextId, this`nodes, this`view, this`Repr, Repr
    {
      Linked() && OrderedList(view, timeEventNextId) && Readings(clock)
    }

    constructor (clock: Clock, callbacks: Callbacks, now: int)
      requires Readings(clock)
      ensures Valid() && view == [] && timeEventNextId == 0 && lastTime == now && readCount == 0 && calls == []
      ensures this.clock == clock && this.callbacks == callbacks
    {
      this.clock, this.callbacks := clock, callbacks;
      timeEventHead, timeEventNextId, lastTime := null, 0, now;
      readCount, calls := 0, [];
      nodes, view, Repr := [], [], {};
    }

    method GetTime() returns (now: Time)
      modifies this`readCount
      ensures now == clock(old(readCount)) && readCount == old(readCount) + 1
    {
      now := clock(readCount);
      readCount := readCount + 1;
    }

    /** A new node at the head. */
    method Push(id: int, when: Time)
      requires Linked()
      modifies this`timeEventHead, this`nodes, this`view, this`Repr
      ensures fresh(Repr - old(Repr)) && old(Repr) <= Repr
      ensures Linked() && |nodes| == |old(nodes)| + 1 && fresh(nodes[..1]) && nodes[1..] == old(nodes)
      ensures view == [Timer(id, when)] + old(view)
    {
      var te := new TimeEvent(id, when, timeEventHead);
      timeEventHead := te;
      nodes, view, Repr := [te] + nodes, [Timer(id, when)] + view, Repr + {te};
    }

    /** Take the node at index i out of the list, its predecessor at hand. */
    method Unlink(prev: TimeEvent?, te: TimeEvent, ghost i: nat)
      requires Linked() && i < |nodes| && te == nodes[i] && prev == (if i == 0 then null else nodes[i - 1])
      modifies this`timeEventHead, this`nodes, this`view, Repr`next
      ensures Linked() && nodes == old(nodes)[..i] + old(nodes)[i + 1..]
      ensures view == old(view)[..i] + old(view)[i + 1..]
    {
            if prev == null {
        timeEventHead := te.next;
      } else {
        prev.next := te.next;
      }
      ghost var ns := nodes;
      nodes, view := ns[..i] + ns[i + 1..], view[..i] + view[i + 1..];
      assert forall k :: 0 <= k < |nodes| ==> nodes[k] == if k < i then ns[k] else ns[k + 1];
    }

    method SetWhen(te: TimeEvent, when: Time, ghost i: nat)
      requires Linked() && i < |nodes| && te == nodes[i]
      modifies this`view, Repr`whenSec, Repr`whenMs
      ensures Linked() && view == old(view)[i := Timer(te.id, when)]
    {
      te.whenSec, te.whenMs := when.sec, when.ms;
      view := view[i := Timer(te.id, when)];
    }

    /** The scan by id both delete and modify start with. */
    method Find(id: int) returns (prev: TimeEvent?, te: TimeEvent?, ghost i: nat)
      requires Linked()
      ensures i <= |nodes| == |view| && te == (if i < |nodes| then nodes[i] else null)
      ensures prev == (if i == 0 then null else nodes[i - 1])
      ensures te != null ==> te.id == view[i].id == id && Has(view, id)
      ensures te == null ==> !Has(view, id)
      ensures forall j :: 0 <= j < i ==> view[j].id != id
    {
      prev, te, i := null, timeEventHead, 0;
      while te != null && te.id != id
        invariant i <= |nodes| && te == (if i < |nodes| then nodes[i] else null)
        invariant prev == (if i == 0 then null else nodes[i - 1])
        invariant forall j :: 0 <= j < i ==> nodes[j].id != id
        decreases |nodes| - i
      {
        prev := te;
        te := te.next;
        i := i + 1;
      }
      if te != null { assert view[i] in view; }
    }

    method AddTimer(milliseconds: int) returns (id: int)
      requires Valid()
      modifies this`timeEventHead, this`timeEventNextId, this`readCount, this`nodes, this`view, this`Repr
      ensures fresh(Repr - old(Repr)) && old(Repr) <= Repr
      ensures Valid() && id == old(timeEventNextId)
      ensures Snapshot() == Apply(clock, old(Snapshot()), Create(milliseconds))
      ensures |nodes| == |old(nodes)| + 1 && fresh(nodes[..1]) && nodes[1..] == old(nodes)
    {
      hide OrderedList, Decreasing, Readings, After, Linked;
      ApplyKeepsOrder(clock, Snapshot(), Create(milliseconds));
      id := timeEventNextId;
      timeEventNextId := timeEventNextId + 1;
      var now := GetTime();
      Push(id, After(now, milliseconds));
    }

    /** The new timer is the head, due its delay after the reading taken, and nothing else has changed. */
    method CreateTimeEvent(milliseconds: int) returns (id: int)
      requires Valid()
      modifies this`timeEventHead, this`timeEventNextId, this`readCount, this`nodes, this`view, this`Repr
      ensures fresh(Repr - old(Repr)) && old(Repr) <= Repr
      ensures Valid() && id == old(timeEventNextId) && timeEventNextId == id + 1 && readCount == old(readCount) + 1
      ensures Snapshot() == Apply(clock, old(Snapshot()), Create(milliseconds))
      ensures |nodes| == |old(nodes)| + 1 && fresh(nodes[..1]) && nodes[1..] == old(nodes)
      ensures |view| == |old(view)| + 1 && view[1..] == old(view) && view[0].id == id
      ensures Millis(view[0].when) == Millis(clock(old(readCount))) + milliseconds
    {
      ghost var s := Snapshot();
      assert Ordered(s) && Readings(clock);
      CreatedExactly(clock, s, milliseconds);
      SnapshotParts(s);
      hide *;
      id := AddTimer(milliseconds);
      SnapshotParts(Apply(clock, s, Create(milliseconds)));
    }

    lemma SnapshotParts(s: State)
      requires s == Snapshot()
      ensures s.timers == view && s.nextId == timeEventNextId && s.readCount == readCount
    {
    }

    /** The found node leaves the list. */
    method Take(prev: TimeEvent?, te: TimeEvent, ghost i: nat)
      requires Valid() && i < |nodes| && te == nodes[i] && prev == (if i == 0 then null else nodes[i - 1])
      requires view[i].id == te.id && forall j :: 0 <= j < i ==> view[j].id != te.id
      modifies this`timeEventHead, this`nodes, this`view, Repr`next
      ensures Valid() && Snapshot() == Apply(clock, old(Snapshot()), Delete(te.id))
      ensures forall n :: n in old(nodes) && n.id != te.id ==> n in nodes
    {
      assert |view| == |nodes| && Ordered(Snapshot());
      RemoveLocated(clock, Snapshot(), i, te.id);
      AllButOne(nodes, i);
      hide *;
      Unlink(prev, te, i);
      Unlinked();
    }

    lemma Unlinked()
      requires Linked() && OrderedList(view, timeEventNextId) && Readings(clock)
      ensures Valid() && Snapshot() == State(view, timeEventNextId, readCount)
    {
    }

    method DeleteTimeEvent(id: int) returns (rc: int)
      requires Valid()
      modifies this`timeEventHead, this`nodes, this`view, Repr`next
      ensures Valid()
      ensures rc == (if Has(old(view), id) then AE_OK else AE_ERR)
      ensures Snapshot() == Apply(clock, old(Snapshot()), Delete(id))
      ensures forall t :: t in view <==> t in old(view) && t.id != id
      ensures forall n :: n in old(nodes) && n.id != id ==> n in nodes
    {
      DeletedExactly(clock, Snapshot(), id);
      hide OrderedList, Readings, Remove, Has;
      var prev, te, i := Find(id);
      if te == null {
        RemoveAbsent(view, id);
        return AE_ERR;
      }
      hide *;
      Take(prev, te, i);
      rc := AE_OK;
    }

    /** Where a listed node stands: no node before it has its id. */
    ghost method IndexOf(te: TimeEvent) returns (k: nat)
      requires Valid() && te in nodes
      ensures k < |nodes| && nodes[k] == te && view[k].id == te.id && Has(view, te.id)
      ensures forall j :: 0 <= j < k ==> view[j].id != te.id
    {
      k :| k < |nodes| && nodes[k] == te;
      ViewAt(k);
      assert view[k] in view;
    }

    /** aeAddMillisecondsToNow straight into a listed node. */
    method Rearm(te: TimeEvent, milliseconds: int)
      requires Valid() && te in nodes
      modifies this`view, this`readCount, Repr`whenSec, Repr`whenMs
      ensures Valid() && nodes == old(nodes)
      ensures Snapshot() == Apply(clock, old(Snapshot()), Modify(te.id, milliseconds))
    {
      hide Linked, Readings, After, Retime, OrderedList;
      ghost var ts := view;
      ghost var k := IndexOf(te);
      ApplyKeepsOrder(clock, Snapshot(), Modify(te.id, milliseconds));
      var now := GetTime();
      RetimeAt(ts, k, te.id, After(now, milliseconds));
      SetWhen(te, After(now, milliseconds), k);
    }

    method ModifyTimeEvent(id: int, milliseconds: int) returns (rc: int)
      requires Valid()
      modifies this`view, this`readCount, Repr`whenSec, Repr`whenMs
      ensures Valid() && nodes == old(nodes)
      ensures rc == (if Has(old(view), id) then AE_OK else AE_ERR)
      ensures Snapshot() == Apply(clock, old(Snapshot()), Modify(id, milliseconds))
      ensures RetimedAt(old(view), view, id, Millis(clock(old(readCount))) + milliseconds)
    {
      ModifiedExactly(clock, Snapshot(), id, milliseconds);
      hide OrderedList, Readings, Retime, Has, RetimedAt, Millis;
      var prev, te, i := Find(id);
      if te == null {
        return AE_ERR;
      }
      assert te in nodes;
      hide *;
      Rearm(te, milliseconds);
      rc := AE_OK;
    }

    /** The nearest timer: no other is earlier, and among equals it is the first from the head. */
    method SearchNearestTimer() returns (nearest: TimeEvent?, ghost k: nat)
      requires Linked()
      ensures nearest == null <==> nodes == []
      ensures nearest != null ==> k < |nodes| && Nearest(k) && nodes[k] == nearest
    {
      var te := timeEventHead;
      nearest := null;
      ghost var i := 0;
      k := 0;
      while te != null
        invariant i <= |nodes| && te == (if i < |nodes| then nodes[i] else null)
        invariant i > 0 ==> k < i
        invariant nearest == (if i == 0 then null else nodes[k])
        invariant forall j :: 0 <= j < i ==> !Earlier(view[j].when, view[k].when)
        invariant i > 0 ==> forall j :: 0 <= j < k ==> view[j].when != view[k].when
        decreases |nodes| - i
      {
        if nearest == null || te.whenSec < nearest.whenSec
           || (te.whenSec == nearest.whenSec && te.whenMs < nearest.whenMs) {
          nearest := te;
          k := i;
        }
        te := te.next;
        i := i + 1;
      }
    }

    /** view[i] is the timer aeSearchNearestTimer picks. */
    ghost predicate Nearest(i: nat)
      reads this`view
    {
      NearestOf(view, i)
    }

    /** How long aeProcessEvents lets the poll sleep: until the nearest timer, not at all, or for ever. While timers are
        normalized, that is in milliseconds the shortest distance to any timer, if it is not negative. */
    method PollTimeout(timeEvents: bool, dontWait: bool) returns (w: Wait)
      requires Valid()
      modifies this`readCount
      ensures timeEvents && !dontWait && nodes != [] ==>
                exists i: nat :: Nearest(i) && w == AtMost(Timeout(view[i].when, clock(old(readCount))))
      ensures timeEvents && !dontWait && nodes != [] && Normalized(view) ==>
                exists d :: ShortestDistance(view, clock(old(readCount)), d) && SleepsFor(w, d)
      ensures !(timeEvents && !dontWait && nodes != []) ==> w == if dontWait then AtMost(Timeval(0, 0)) else Forever
    {
      assert Readings(clock);
      hide Linked, OrderedList, Timeout, ShortestDistance, SleepsFor, Normalized, NearestOf;
      var shortest: TimeEvent? := null;
      ghost var i := 0;
      if timeEvents && !dontWait {
        shortest, i := SearchNearestTimer();
      }
      if shortest != null {
        ViewAt(i);
        var now := GetTime();
        w := AtMost(Timeout(Time(shortest.whenSec, shortest.whenMs), now));
        assert Nearest(i);
        if Normalized(view) { NearestIsShortest(view, i, now); }
      } else if dontWait {
        w := AtMost(Timeval(0, 0));
      } else {
        w := Forever;
      }
    }

    /** One call of a timer's callback, which may create, delete and modify timers. */
    method RunCallback(id: int) returns (ret: int)
      requires Valid()
      modifies this, Repr`whenSec, Repr`whenMs, Repr`next
      ensures Valid() && lastTime == old(lastTime)
      ensures ret == callbacks(old(|calls|), id).ret && calls == old(calls) + [id]
      ensures Snapshot() == ApplyAll(clock, old(Snapshot()), callbacks(old(|calls|), id).ops)
      ensures fresh(Repr - old(Repr))
      ensures NodesKept(old(nodes), nodes, callbacks(old(|calls|), id).ops)
    {
      hide OrderedList, Decreasing, Readings, Linked, Apply, Has;
      var r := callbacks(|calls|, id);
      calls := calls + [id];
      ghost var s := Snapshot();
      assert r.ops[..0] == [];
      for i := 0 to |r.ops|
        invariant Valid() && lastTime == old(lastTime) && calls == old(calls) + [id]
        invariant Snapshot() == ApplyAll(clock, s, r.ops[..i])
        invariant fresh(Repr - old(Repr))
        invariant NodesKept(old(nodes), nodes, r.ops[..i])
      {
        ApplyAllAppend(clock, s, r.ops[..i], r.ops[i]);
        assert r.ops[..i + 1] == r.ops[..i] + [r.ops[i]];
        Perform(r.ops[i]);
      }
      assert r.ops[..|r.ops|] == r.ops;
      ret := r.ret;
    }

    method Perform(op: TimerOp)
      requires Valid()
      modifies this`timeEventHead, this`timeEventNextId, this`readCount, this`nodes, this`view, this`Repr
      modifies Repr`whenSec, Repr`whenMs, Repr`next
      ensures Valid() && Snapshot() == Apply(clock, old(Snapshot()), op)
      ensures fresh(Repr - old(Repr))
      ensures forall n :: n in old(nodes) && op != Delete(n.id) ==> n in nodes
    {
      hide Valid, Linked, Apply, Has;
      match op {
        case Create(delay) =>
          var id := CreateTimeEvent(delay);
          assert nodes == nodes[..1] + nodes[1..] && nodes[0] in nodes[..1];
        case Delete(id) =>
          var rc := DeleteTimeEvent(id);
        case Modify(id, delay) =>
          var rc := ModifyTimeEvent(id, delay);
      }
    }

    /** What the pass does with the callback's return value. */
    method Conclude(te: TimeEvent, retval: int)
      requires Valid() && (retval != AE_NOMORE ==> te in nodes)
      modifies this`timeEventHead, this`readCount, this`nodes, this`view, Repr`whenSec, Repr`whenMs, Repr`next
      ensures Valid() && Snapshot() == Apply(clock, old(Snapshot()), Verdict(te.id, retval))
    {
      hide Valid, Linked, Apply;
      if retval != AE_NOMORE {
        Rearm(te, retval);
      } else {
        var rc := DeleteTimeEvent(te.id);
      }
    }

    /** The callback of a timer; if it asks to run again its node is still in the list. */
    method CallBack(te: TimeEvent) returns (retval: int)
      requires Valid() && te in nodes && Sane(callbacks)
      modifies this, Repr`whenSec, Repr`whenMs, Repr`next
      ensures Valid() && lastTime == old(lastTime) && calls == old(calls) + [te.id] && fresh(Repr - old(Repr))
      ensures retval == callbacks(old(|calls|), te.id).ret && (retval != AE_NOMORE ==> te in nodes)
      ensures Snapshot() == ApplyAll(clock, old(Snapshot()), callbacks(old(|calls|), te.id).ops)
    {
      ghost var ns, r := nodes, callbacks(|calls|, te.id);
      assert r.ret != AE_NOMORE ==> !Deletes(r.ops, te.id);
      assert r.ret != AE_NOMORE ==> Delete(te.id) !in r.ops;
      hide *;
      retval := RunCallback(te.id);
      if retval != AE_NOMORE { StillThere(ns, nodes, r.ops, te); }
    }

    method FireSteps(te: TimeEvent)
      requires Valid() && te in nodes && Sane(callbacks)
      modifies this, Repr`whenSec, Repr`whenMs, Repr`next
      ensures Valid() && lastTime == old(lastTime) && calls == old(calls) + [te.id]
      ensures Snapshot() == Fired(clock, old(Snapshot()), callbacks(old(|calls|), te.id), te.id)
      ensures fresh(Repr - old(Repr))
    {
      FiringOf(clock, Snapshot(), callbacks(|calls|, te.id), te.id);
      hide *;
      var retval := CallBack(te);
      Conclude(te, retval);
    }

    /** The firing of a timer: its callback, then re-arming or deletion. */
    method Fire(te: TimeEvent)
      requires Valid() && te in nodes && Sane(callbacks)
      modifies this, Repr`whenSec, Repr`whenMs, Repr`next
      ensures Valid() && lastTime == old(lastTime) && calls == old(calls) + [te.id]
      ensures Snapshot() == Fired(clock, old(Snapshot()), callbacks(old(|calls|), te.id), te.id)
      ensures Concluded(clock, view, readCount, te.id, callbacks(old(|calls|), te.id).ret)
      ensures fresh(Repr - old(Repr))
    {
      ghost var f := Fired(clock, Snapshot(), callbacks(|calls|, te.id), te.id);
      WillConclude(te);
      hide *;
      FireSteps(te);
      SnapshotParts(f);
    }

    lemma WillConclude(te: TimeEvent)
      requires Valid() && te in nodes && Sane(callbacks)
      ensures var r := callbacks(|calls|, te.id);
              var f := Fired(clock, Snapshot(), r, te.id);
              Concluded(clock, f.timers, f.readCount, te.id, r.ret)
    {
      var r := callbacks(|calls|, te.id);
      assert r.ret != AE_NOMORE ==> !Deletes(r.ops, te.id);
      var i :| 0 <= i < |nodes| && nodes[i] == te;
      assert view[i] in view && view[i].id == te.id;
      hide Linked, Fired, Concluded, Sane, OrderedList, Readings, Deletes;
      FiringConcludes(clock, Snapshot(), r, te.id);
    }

    method First() returns (te: TimeEvent?)
      requires Linked()
      ensures te == (if nodes == [] then null else nodes[0])
    {
      te := timeEventHead;
    }

    method Following(te: TimeEvent, ghost i: nat) returns (next: TimeEvent?)
      requires Linked() && i < |nodes| && te == nodes[i]
      ensures next == (if i + 1 < |nodes| then nodes[i + 1] else null)
    {
      next := te.next;
    }

    method ForgetOne(te: TimeEvent, ghost i: nat)
      requires Linked() && i < |nodes| && te == nodes[i]
      modifies this`view, Repr`whenSec
      ensures Linked() && view == old(view)[i := Timer(old(view)[i].id, Time(0, old(view)[i].when.ms))]
    {
      te.whenSec := 0;
      view := view[i := Timer(view[i].id, Time(0, view[i].when.ms))];
    }

    method ForgetSecond(te: TimeEvent, ghost i: nat, ghost ts: seq<Timer>) returns (next: TimeEvent?)
      requires Linked() && i < |nodes| && te == nodes[i] && view == Forgotten(ts, i)
      modifies this`view, Repr`whenSec
      ensures Linked() && view == Forgotten(ts, i + 1)
      ensures next == (if i + 1 < |nodes| then nodes[i + 1] else null)
    {
      assert |view| == |nodes|;
      hide Forgotten, Linked;
      ForgottenStep(ts, i);
      ForgetOne(te, i);
      next := Following(te, i);
    }

    /** A clock skew makes every timer due: its seconds are cleared, its milliseconds stay. */
    method ForgetSeconds()
      requires Linked()
      modifies this`view, Repr`whenSec
      ensures Linked() && nodes == old(nodes) && view == Forgotten(old(view), |old(view)|)
      ensures |view| == |old(view)|
      ensures forall i :: 0 <= i < |view| ==> view[i] == Timer(old(view)[i].id, Time(0, old(view)[i].when.ms))
    {
      assert |view| == |nodes|;
      hide Linked, Forgotten;
      ghost var i, ts := 0, view;
      ForgottenStep(ts, 0);
      var te := First();
      while te != null
        invariant Linked() && i <= |nodes| && te == (if i < |nodes| then nodes[i] else null)
        invariant view == Forgotten(ts, i)
        decreases |nodes| - i
      {
        te := ForgetSecond(te, i, ts);
        i := i + 1;
      }
    }

    /** The state of the pass, the scan standing at node number pos. */
    ghost function Config(pos: nat): Pass
      reads this
    {
      Pass(Snapshot(), calls, pos)
    }

    /** The scan stands at `te`, node number `pos`. */
    ghost predicate Scanning(te: TimeEvent?, pos: nat)
      reads this, Repr
    {
      Valid() && pos <= |nodes| && te == (if pos < |nodes| then nodes[pos] else null)
    }

    /** aeGetTime and the test whether the timer's time has come. */
    method ReadAndTest(te: TimeEvent, ghost pos: nat) returns (due: bool)
      requires Scanning(te, pos)
      modifies this`readCount
      ensures Scanning(te, pos) && readCount == old(readCount) + 1 && view == old(view)
      ensures due <==> Due(view[pos].when, clock(old(readCount)))
    {
      hide Linked, OrderedList;
      ViewAt(pos);
      var now := GetTime();
      due := now.sec > te.whenSec || (now.sec == te.whenSec && now.ms >= te.whenMs);
    }

    /** One turn of the loop. */
    method ScanOne(te: TimeEvent, maxId: int, ghost pos: nat) returns (next: TimeEvent?, fired: bool)
      requires Scanning(te, pos) && Sane(callbacks)
      modifies this, Repr`whenSec, Repr`whenMs, Repr`next
      ensures var pos' := if fired then 0 else pos + 1;
              Scanning(next, pos') && Config(pos') == Next(clock, callbacks, maxId, old(Config(pos)))
      ensures lastTime == old(lastTime) && |calls| == |old(calls)| + (if fired then 1 else 0)
      ensures fresh(Repr - old(Repr))
    {
      hide Linked, OrderedList, Readings, Fired, Due, Sane;
      ViewAt(pos);
      fired := false;
      if te.id > maxId {
        next := Following(te, pos);
        return;
      }
      fired := ReadAndTest(te, pos);
      if fired {
        Fire(te);
        next := First();
      } else {
        next := Following(te, pos);
      }
    }

    /** The pass that began as `start` has made n of its `enough` steps, and the scan stands at `te`. */
    ghost predicate Reached(te: TimeEvent?, pos: nat, maxId: int, start: Pass, n: nat, enough: nat)
      reads this, Repr
    {
      && Scanning(te, pos) && n <= enough
      && Config(pos) == Steps(clock, callbacks, maxId, start, n) && Done(Steps(clock, callbacks, maxId, start, enough))
    }

    lemma StandsAt(te: TimeEvent?, pos: nat, maxId: int, start: Pass, n: nat, enough: nat)
      requires Reached(te, pos, maxId, start, n, enough)
      ensures Scanning(te, pos) && Valid()
      ensures te == null ==> pos == |nodes| && Done(Config(pos)) && Config(pos) == Steps(clock, callbacks, maxId, start, n)
      ensures te != null ==>
                n < enough && Steps(clock, callbacks, maxId, start, n + 1) == Next(clock, callbacks, maxId, Config(pos))
                && pos < |nodes| && !Done(Config(pos)) && Done(Steps(clock, callbacks, maxId, start, enough))
    {
      assert |view| == |nodes|;
      hide Valid, Next, Steps;
      StepNotLast(clock, callbacks, maxId, start, n, enough);
    }

    method StartScan(ghost maxId: int, ghost enough: nat) returns (te: TimeEvent?)
      requires Valid() && Done(Steps(clock, callbacks, maxId, Config(0), enough))
      ensures Reached(te, 0, maxId, Config(0), 0, enough)
    {
      te := First();
    }

    method Turn(te: TimeEvent, maxId: int, ghost pos: nat, ghost start: Pass, ghost n: nat, ghost enough: nat)
      returns (next: TimeEvent?, fired: bool)
      requires Reached(te, pos, maxId, start, n, enough) && Sane(callbacks)
      modifies this, Repr`whenSec, Repr`whenMs, Repr`next
      ensures Reached(next, if fired then 0 else pos + 1, maxId, start, n + 1, enough) && n < enough
      ensures lastTime == old(lastTime) && |calls| == |old(calls)| + (if fired then 1 else 0)
      ensures fresh(Repr - old(Repr))
    {
      StandsAt(te, pos, maxId, start, n, enough);
      hide Valid, Steps, Next, Done, Sane, Scanning, Config;
      next, fired := ScanOne(te, maxId, pos);
    }

    /** The scan proper, from the head again after every firing, until it reaches the end of the list. */
    method Scan(maxId: int, ghost enough: nat) returns (processed: nat, ghost n: nat)
      requires Valid() && Sane(callbacks) && Done(Steps(clock, callbacks, maxId, Config(0), enough))
      modifies this, Repr`whenSec, Repr`whenMs, Repr`next
      ensures Valid() && lastTime == old(lastTime) && processed == |calls| - |old(calls)|
      ensures Config(|nodes|) == Steps(clock, callbacks, maxId, old(Config(0)), n) && Done(Config(|nodes|))
    {
      hide *;
      ghost var start := Config(0);
      processed, n := 0, 0;
      var te := StartScan(maxId, enough);
      ghost var pos := 0;
      while te != null
        invariant Reached(te, pos, maxId, start, n, enough) && lastTime == old(lastTime)
        invariant processed == |calls| - |old(calls)| && fresh(Repr - old(Repr))
        decreases enough - n
      {
        var fired;
        te, fired := Turn(te, maxId, pos, start, n, enough);
        pos, n := if fired then 0 else pos + 1, n + 1;
        if fired { processed := processed + 1; }
      }
      StandsAt(te, pos, maxId, start, n, enough);
    }

    /** processTimeEvents, for every pass that ends: callbacks create, delete and re-time timers while the list is scanned
        and each firing restarts the scan. */
    method ProcessTimeEvents() returns (processed: nat, ghost n: nat)
      requires Valid() && Sane(callbacks)
      requires Ends(clock, callbacks, timeEventNextId - 1, Start(clock, Snapshot(), calls, lastTime))
      modifies this, Repr`whenSec, Repr`whenMs, Repr`next
      ensures Valid() && lastTime == clock(old(readCount)).sec && processed == |calls| - |old(calls)|
      ensures Done(Config(|nodes|))
      ensures Config(|nodes|)
              == Steps(clock, callbacks, old(timeEventNextId) - 1, Start(clock, old(Snapshot()), old(calls), old(lastTime)), n)
      ensures Monotone(clock, old(readCount)) ==>
                PassOutcome(old(view), view, old(timeEventNextId), callbacks, calls, old(|calls|), clock(old(readCount)))
      ensures Monotone(clock, old(readCount)) && clock(old(readCount)).sec < old(lastTime) && clock(old(readCount)).sec >= 1 ==>
                AllFireOrDrop(old(view), callbacks, calls, old(|calls|))
      ensures NonNegative(callbacks) && Normalized(old(view)) ==> Normalized(view)
    {
      ghost var s, was, last := Snapshot(), calls, lastTime;
      assert Ordered(s) && Readings(clock) && s.timers == view && s.nextId == timeEventNextId && s.readCount == readCount;
      ghost var enough: nat :| Done(Steps(clock, callbacks, timeEventNextId - 1, Start(clock, s, was, last), enough));
      hide *;
      processed, n := RunPass(enough);
      Leaves(s, was, last, n);
    }

    method RunPass(ghost enough: nat) returns (processed: nat, ghost n: nat)
      requires Valid() && Sane(callbacks)
      requires Done(Steps(clock, callbacks, timeEventNextId - 1, Start(clock, Snapshot(), calls, lastTime), enough))
      modifies this, Repr`whenSec, Repr`whenMs, Repr`next
      ensures Valid() && lastTime == clock(old(readCount)).sec && processed == |calls| - |old(calls)|
      ensures Done(Config(|nodes|))
      ensures Config(|nodes|)
              == Steps(clock, callbacks, old(timeEventNextId) - 1, Start(clock, old(Snapshot()), old(calls), old(lastTime)), n)
    {
      hide *;
      StartPass();
      processed, n := Scan(timeEventNextId - 1, enough);
    }

    lemma Leaves(s: State, was: seq<int>, last: int, n: nat)
      requires Ordered(s) && Readings(clock) && Done(Config(|nodes|))
      requires Config(|nodes|) == Steps(clock, callbacks, s.nextId - 1, Start(clock, s, was, last), n)
      ensures Monotone(clock, s.readCount) ==>
                && PassOutcome(s.timers, view, s.nextId, callbacks, calls, |was|, clock(s.readCount))
                && (clock(s.readCount).sec < last && clock(s.readCount).sec >= 1 ==> AllFireOrDrop(s.timers, callbacks, calls, |was|))
      ensures NonNegative(callbacks) && Normalized(s.timers) ==> Normalized(view)
    {
      hide Ordered, Readings, Start, Steps, PassOutcome, AllFireOrDrop, Monotone, NonNegative, Normalized, Done;
      if Monotone(clock, s.readCount) { PassLeaves(clock, callbacks, s, was, last, n); }
      if NonNegative(callbacks) && Normalized(s.timers) { PassNormalized(clock, callbacks, s, was, last, n); }
    }

    /** The reading that may reveal a clock skew, and what is done about one. */
    method CheckClock()
      requires Linked()
      modifies this`view, this`readCount, this`lastTime, Repr`whenSec
      ensures Linked() && nodes == old(nodes) && readCount == old(readCount) + 1 && lastTime == clock(old(readCount)).sec
      ensures view == if lastTime < old(lastTime) then Forgotten(old(view), |old(view)|) else old(view)
    {
      hide *;
      var now := GetTime();
      if now.sec < lastTime {
        ForgetSeconds();
      }
      lastTime := now.sec;
    }

    method StartPass()
      requires Valid()
      modifies this`view, this`readCount, this`lastTime, Repr`whenSec
      ensures Valid() && nodes == old(nodes) && lastTime == clock(old(readCount)).sec
      ensures Config(0) == Start(clock, old(Snapshot()), calls, old(lastTime))
    {
      ghost var s, last := Snapshot(), lastTime;
      StartOf(s);
      hide *;
      CheckClock();
      Started(s, last);
    }

    lemma StartOf(s: State)
      requires Valid() && s == Snapshot()
      ensures Linked() && Readings(clock) && Ordered(s) && s.timers == view && s.nextId == timeEventNextId && s.readCount == readCount
    {
    }

    lemma Started(s: State, last: int)
      requires Linked() && Readings(clock) && Ordered(s) && s.nextId == timeEventNextId && s.readCount + 1 == readCount
      requires view == if clock(s.readCount).sec < last then Forgotten(s.timers, |s.timers|) else s.timers
      ensures Valid() && Config(0) == Start(clock, s, calls, last)
    {
      hide Linked, Decreasing, Normalized, Forgotten;
      SecondsForgotten(s.timers, s.nextId);
    }

    lemma ViewAt(i: nat)
      requires Linked() && i < |nodes|
      ensures view[i] == Timer(nodes[i].id, Time(nodes[i].whenSec, nodes[i].whenMs))
    {
    }
  }

  /** A firing is the callback's calls and one call more. */
  lemma FiringOf(clock: Clock, s: State, r: Reaction, id: int)
    ensures Fired(clock, s, r, id) == Apply(clock, ApplyAll(clock, s, r.ops), Verdict(id, r.ret))
  {
    hide Apply, ApplyAll;
    ApplyAllAppend(clock, s, r.ops, Verdict(id, r.ret));
  }

  lemma RemoveLocated(clock: Clock, s: State, i: nat, id: int)
    requires Ordered(s) && Readings(clock) && i < |s.timers| && s.timers[i].id == id
    requires forall j :: 0 <= j < i ==> s.timers[j].id != id
    ensures Apply(clock, s, Delete(id)) == State(s.timers[..i] + s.timers[i + 1..], s.nextId, s.readCount)
    ensures OrderedList(s.timers[..i] + s.timers[i + 1..], s.nextId)
  {
    ApplyKeepsOrder(clock, s, Delete(id));
    RemoveAt(s.timers, i, id);
  }

  lemma AllButOne(ns: seq<TimeEvent>, i: nat)
    requires i < |ns|
    ensures forall n :: n in ns && n != ns[i] ==> n in ns[..i] + ns[i + 1..]
  {
    assert ns == ns[..i] + [ns[i]] + ns[i + 1..];
  }

  lemma {:induction false} DoneStays(clock: Clock, callbacks: Callbacks, maxId: int, p: Pass, m: nat, n: nat)
    requires m <= n && Done(Steps(clock, callbacks, maxId, p, m))
    ensures Done(Steps(clock, callbacks, maxId, p, n))
  {
    hide Next;
    if m < n { DoneStays(clock, callbacks, maxId, p, m, n - 1); }
  }

  /** A scan that is not done has not made as many steps as its pass takes. */
  lemma StepNotLast(clock: Clock, callbacks: Callbacks, maxId: int, p: Pass, n: nat, enough: nat)
    requires Done(Steps(clock, callbacks, maxId, p, enough))
    ensures Done(Steps(clock, callbacks, maxId, p, n)) || n < enough
    ensures var q := Steps(clock, callbacks, maxId, p, n);
            !Done(q) ==> Steps(clock, callbacks, maxId, p, n + 1) == Next(clock, callbacks, maxId, q)
  {
    if enough <= n { DoneStays(clock, callbacks, maxId, p, enough, n); }
  }

  lemma ForgottenStep(ts: seq<Timer>, i: nat)
    ensures Forgotten(ts, 0) == ts
    ensures i < |ts| ==>
              Forgotten(ts, i + 1) ==
              Forgotten(ts, i)[i := Timer(Forgotten(ts, i)[i].id, Time(0, Forgotten(ts, i)[i].when.ms))]
  {
  }
}
