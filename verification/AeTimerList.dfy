/** The timer list of tflib/ae/ae.c as a value: what create, delete and modify do to it. */
module AeTimerList {
  import opened AeTime

  datatype Timer = Timer(id: int, when: Time)

  /** A callback's calls into the timer interface. */
  datatype TimerOp = Create(delay: int) | Delete(id: int) | Modify(id: int, delay: int)

  /** The list from its head, the next id to hand out, and how many times the clock has been read. */
  datatype State = State(timers: seq<Timer>, nextId: int, readCount: nat)

  type Clock = nat -> Time

  ghost predicate Readings(clock: Clock) {
    forall n :: Reading(clock(n))
  }

  // ----- the list discipline -----

  /** New timers go to the head with a larger id, so ids strictly decrease along the list. */
  ghost predicate Decreasing(ts: seq<Timer>) {
    forall i, j :: 0 <= i < j < |ts| ==> ts[i].id > ts[j].id
  }

  ghost predicate OrderedList(ts: seq<Timer>, nextId: int) {
    && Decreasing(ts)
    && (forall t :: t in ts ==> t.id < nextId && -1000 < t.when.ms < 1000)
  }

  ghost predicate Ordered(s: State) {
    OrderedList(s.timers, s.nextId)
  }

  predicate Has(ts: seq<Timer>, id: int) {
    exists t :: t in ts && t.id == id
  }

  // ----- the three operations -----

  function Remove(ts: seq<Timer>, id: int): seq<Timer> {
    if ts == [] then [] else if ts[0].id == id then ts[1..] else [ts[0]] + Remove(ts[1..], id)
  }

  function Retime(ts: seq<Timer>, id: int, when: Time): (r: seq<Timer>)
    ensures |r| == |ts|
  {
    if ts == [] then [] else if ts[0].id == id then [Timer(id, when)] + ts[1..] else [ts[0]] + Retime(ts[1..], id, when)
  }

  function Apply(clock: Clock, s: State, op: TimerOp): State {
    match op
    case Create(delay) => State([Timer(s.nextId, After(clock(s.readCount), delay))] + s.timers, s.nextId + 1, s.readCount + 1)
    case Delete(id) => s.(timers := Remove(s.timers, id))
    case Modify(id, delay) =>
      if Has(s.timers, id) then s.(timers := Retime(s.timers, id, After(clock(s.readCount), delay)), readCount := s.readCount + 1)
      else s
  }

  function ApplyAll(clock: Clock, s: State, ops: seq<TimerOp>): State
    decreases |ops|
  {
    if ops == [] then s else ApplyAll(clock, Apply(clock, s, ops[0]), ops[1..])
  }

  lemma HeadIsLargest(ts: seq<Timer>)
    requires Decreasing(ts) && ts != []
    ensures Decreasing(ts[1..]) && forall t :: t in ts[1..] ==> t.id < ts[0].id
  {
  }

  lemma LargestPrepended(t: Timer, ts: seq<Timer>)
    requires Decreasing(ts) && forall u :: u in ts ==> u.id < t.id
    ensures Decreasing([t] + ts)
  {
  }

  lemma {:induction false} RemoveKeepsOthers(ts: seq<Timer>, id: int)
    requires Decreasing(ts)
    ensures forall t :: t in Remove(ts, id) <==> t in ts && t.id != id
    ensures Decreasing(Remove(ts, id))
  {
    if ts != [] {
      HeadIsLargest(ts);
      assert ts == [ts[0]] + ts[1..];
      hide Decreasing;
      RemoveKeepsOthers(ts[1..], id);
      if ts[0].id != id {
        LargestPrepended(ts[0], Remove(ts[1..], id));
      }
    }
  }

  lemma {:induction false} RetimeChangesOne(ts: seq<Timer>, id: int, when: Time)
    requires Decreasing(ts)
    ensures forall i :: 0 <= i < |ts| ==> Retime(ts, id, when)[i] == if ts[i].id == id then Timer(id, when) else ts[i]
  {
    if ts != [] {
      var rest := ts[1..];
      RetimeChangesOne(rest, id, when);
      forall i | 0 <= i < |ts|
        ensures Retime(ts, id, when)[i] == if ts[i].id == id then Timer(id, when) else ts[i]
      {
        if i > 0 {
          assert ts[i] == rest[i - 1];
          assert Retime(ts, id, when)[i] == if ts[0].id == id then ts[i] else Retime(rest, id, when)[i - 1];
        }
      }
    }
  }

  /** Every operation keeps ids strictly decreasing from the head and below the next id. */
  lemma ApplyKeepsOrder(clock: Clock, s: State, op: TimerOp)
    requires Ordered(s) && Readings(clock)
    ensures Ordered(Apply(clock, s, op))
    ensures s.nextId <= Apply(clock, s, op).nextId
  {
    match op {
      case Create(delay) =>
        AfterIsExact(clock(s.readCount), delay);
        var r := Apply(clock, s, op).timers;
        assert forall i :: 0 < i < |r| ==> r[i] == s.timers[i - 1];
      case Delete(id) => RemoveKeepsOthers(s.timers, id);
      case Modify(id, delay) =>
        AfterIsExact(clock(s.readCount), delay);
        RetimeChangesOne(s.timers, id, After(clock(s.readCount), delay));
    }
  }

  /** Re-timing changes the one timer of that id. */
  lemma RetimeMembers(ts: seq<Timer>, id: int, when: Time)
    requires Decreasing(ts)
    ensures forall t :: t in Retime(ts, id, when) <==> (t in ts && t.id != id) || (t == Timer(id, when) && Has(ts, id))
  {
    RetimeChangesOne(ts, id, when);
    var rs := Retime(ts, id, when);
    forall t | t in rs ensures (t in ts && t.id != id) || (t == Timer(id, when) && Has(ts, id)) {
      var i :| 0 <= i < |rs| && rs[i] == t;
      assert ts[i] in ts;
    }
    forall t | t in ts ensures (if t.id == id then Timer(id, when) else t) in rs {
      var i :| 0 <= i < |ts| && ts[i] == t;
      assert rs[i] == if t.id == id then Timer(id, when) else t;
    }
  }

  // ----- what each operation leaves, timer by timer -----

  /** A created timer stands at the head under the next id and is due exactly its delay after the reading taken. */
  lemma CreatedExactly(clock: Clock, s: State, delay: int)
    requires Ordered(s) && Readings(clock)
    ensures var r := Apply(clock, s, Create(delay));
            && |r.timers| == |s.timers| + 1 && r.timers[1..] == s.timers && r.timers[0].id == s.nextId
            && Millis(r.timers[0].when) == Millis(clock(s.readCount)) + delay
            && r.nextId == s.nextId + 1 && r.readCount == s.readCount + 1
  {
    AfterIsExact(clock(s.readCount), delay);
  }

  /** The timer of that id is due exactly the delay after the reading taken; every other stays, and all keep their
      places. */
  ghost predicate RetimedAt(ts: seq<Timer>, rs: seq<Timer>, id: int, millis: int) {
    |rs| == |ts| && forall i :: 0 <= i < |ts| ==>
      rs[i].id == ts[i].id && if ts[i].id == id then Millis(rs[i].when) == millis else rs[i] == ts[i]
  }

  lemma ModifiedExactly(clock: Clock, s: State, id: int, delay: int)
    requires Ordered(s) && Readings(clock)
    ensures var r := Apply(clock, s, Modify(id, delay));
            && RetimedAt(s.timers, r.timers, id, Millis(clock(s.readCount)) + delay) && r.nextId == s.nextId
            && r.readCount == s.readCount + if Has(s.timers, id) then 1 else 0
  {
    AfterIsExact(clock(s.readCount), delay);
    RetimeChangesOne(s.timers, id, After(clock(s.readCount), delay));
    hide After, Retime, Millis;
    if !Has(s.timers, id) {
      forall i | 0 <= i < |s.timers| ensures s.timers[i].id != id {
        assert s.timers[i] in s.timers;
      }
    }
  }

  lemma DeletedExactly(clock: Clock, s: State, id: int)
    requires Ordered(s)
    ensures var r := Apply(clock, s, Delete(id));
            && (forall t :: t in r.timers <==> t in s.timers && t.id != id) && Decreasing(r.timers)
            && r.nextId == s.nextId && r.readCount == s.readCount
  {
    RemoveKeepsOthers(s.timers, id);
  }

  // ----- what a series of operations does to the timers at or below a bound -----

  predicate Deletes(ops: seq<TimerOp>, id: int) { Delete(id) in ops }

  predicate Retimes(ops: seq<TimerOp>, id: int) { exists op :: op in ops && op.Modify? && op.id == id }

  /** Old timers only stay, are re-timed by name or are deleted by name; new ones appear only above the bound. */
  ghost predicate Effect(s: State, r: State, ops: seq<TimerOp>, maxId: int) {
    && Ordered(r) && s.nextId <= r.nextId && s.readCount <= r.readCount
    && OnlyNamed(s.timers, r.timers, ops, maxId)
  }

  ghost predicate OnlyNamed(ts: seq<Timer>, rs: seq<Timer>, ops: seq<TimerOp>, maxId: int) {
    && (forall t :: t in rs && t.id <= maxId ==> Has(ts, t.id) && (t in ts || Retimes(ops, t.id)))
    && (forall t :: t in ts ==> Has(rs, t.id) || Deletes(ops, t.id))
  }

  lemma Present(ts: seq<Timer>)
    ensures forall t :: t in ts ==> Has(ts, t.id)
  {
  }

  lemma RetimeNamed(ts: seq<Timer>, id: int, delay: int, when: Time, maxId: int)
    requires Decreasing(ts)
    ensures OnlyNamed(ts, Retime(ts, id, when), [Modify(id, delay)], maxId)
  {
    var rs := Retime(ts, id, when);
    RetimeMembers(ts, id, when);
    Present(ts);
    Present(rs);
    hide Has, Retime, Decreasing;
    assert Modify(id, delay) in [Modify(id, delay)];
    forall t | t in ts ensures Has(rs, t.id) {
      assert if t.id == id then Timer(id, when) in rs else t in rs;
    }
  }

  lemma RemoveNamed(ts: seq<Timer>, id: int, maxId: int)
    requires Decreasing(ts)
    ensures OnlyNamed(ts, Remove(ts, id), [Delete(id)], maxId)
  {
    RemoveKeepsOthers(ts, id);
    Present(ts);
    Present(Remove(ts, id));
    hide Has, Remove, Decreasing;
  }

  lemma ApplyEffect(clock: Clock, s: State, op: TimerOp, maxId: int)
    requires Ordered(s) && Readings(clock) && maxId < s.nextId
    ensures Effect(s, Apply(clock, s, op), [op], maxId)
  {
    ApplyKeepsOrder(clock, s, op);
    Present(s.timers);
    match op {
      case Create(delay) =>
        hide Ordered, Has, After;
        var r := Apply(clock, s, op);
        Present(r.timers);
        assert r.timers[1..] == s.timers;
      case Delete(id) =>
        RemoveNamed(s.timers, id, maxId);
        hide Ordered, OnlyNamed, Remove;
      case Modify(id, delay) =>
        RetimeNamed(s.timers, id, delay, After(clock(s.readCount), delay), maxId);
        if !Has(s.timers, id) { assert OnlyNamed(s.timers, s.timers, [op], maxId); }
        hide Ordered, OnlyNamed, Retime;
    }
  }

  lemma EffectThen(s: State, q: State, r: State, op: TimerOp, ops: seq<TimerOp>, maxId: int)
    requires Effect(s, q, [op], maxId) && Effect(q, r, ops, maxId)
    ensures Effect(s, r, [op] + ops, maxId)
  {
    hide Ordered;
    forall t | t in r.timers && t.id <= maxId
      ensures Has(s.timers, t.id) && (t in s.timers || Retimes([op] + ops, t.id))
    {
      var u :| u in q.timers && u.id == t.id;
      assert Has(s.timers, u.id);
      if t !in q.timers {
        var o :| o in ops && o.Modify? && o.id == t.id;
        assert o in [op] + ops;
      } else if t !in s.timers {
        assert Retimes([op], t.id) && op in [op] + ops;
      }
    }
    forall t | t in s.timers ensures Has(r.timers, t.id) || Deletes([op] + ops, t.id) {
      if Has(q.timers, t.id) {
        var u :| u in q.timers && u.id == t.id;
        assert Has(r.timers, u.id) || Deletes(ops, u.id);
      }
    }
  }

  /** Whatever the operations are. */
  lemma {:induction false} ApplyAllEffect(clock: Clock, s: State, ops: seq<TimerOp>, maxId: int)
    requires Ordered(s) && Readings(clock) && maxId < s.nextId
    ensures Effect(s, ApplyAll(clock, s, ops), ops, maxId)
    decreases |ops|
  {
    if ops != [] {
      var q := Apply(clock, s, ops[0]);
      ApplyEffect(clock, s, ops[0], maxId);
      ApplyAllEffect(clock, q, ops[1..], maxId);
      EffectThen(s, q, ApplyAll(clock, q, ops[1..]), ops[0], ops[1..], maxId);
      assert [ops[0]] + ops[1..] == ops;
    }
  }

  // ----- which timers are due -----

  /** The ids at or below the bound whose time has come at this reading. */
  ghost function DueIds(ts: seq<Timer>, maxId: int, at: Time): set<int> {
    set t | t in ts && t.id <= maxId && Due(t.when, at) :: t.id
  }

  /** From reading number `from` on, the clock shows `at` or later. */
  ghost predicate NotBefore(clock: Clock, from: nat, at: Time) {
    forall n :: n >= from ==> Millis(at) <= Millis(clock(n))
  }

  /** Every re-timing is by at least a millisecond. */
  predicate Later(ops: seq<TimerOp>) {
    forall op :: op in ops && op.Modify? ==> op.delay > 0
  }

  lemma LaterIsNotDue(now: Time, delay: int, at: Time)
    requires Reading(now) && Reading(at) && Millis(at) <= Millis(now) && delay > 0
    ensures !Due(After(now, delay), at)
  {
    AfterIsExact(now, delay);
    if Due(After(now, delay), at) { DueMeansPast(After(now, delay), at); }
  }

  /** No operation that re-times only to the future makes a timer due at a past reading, and the timer it names is not
      due afterwards. */
  lemma ApplyLowersDue(clock: Clock, s: State, op: TimerOp, maxId: int, at: Time)
    requires Ordered(s) && Readings(clock) && maxId < s.nextId && Later([op])
    requires Reading(at) && NotBefore(clock, s.readCount, at)
    ensures DueIds(Apply(clock, s, op).timers, maxId, at)
            <= DueIds(s.timers, maxId, at) - (if op.Create? then {} else {op.id})
  {
    match op {
      case Create(delay) =>
        assert Apply(clock, s, op).timers[1..] == s.timers;
      case Delete(id) =>
        RemoveKeepsOthers(s.timers, id);
        hide Remove, Due;
      case Modify(id, delay) =>
        assert op in [op];
        RetimeMembers(s.timers, id, After(clock(s.readCount), delay));
        LaterIsNotDue(clock(s.readCount), delay, at);
        hide Retime, Due;
    }
  }

  lemma {:induction false} ApplyAllLowersDue(clock: Clock, s: State, ops: seq<TimerOp>, maxId: int, at: Time)
    requires Ordered(s) && Readings(clock) && maxId < s.nextId && Later(ops)
    requires Reading(at) && NotBefore(clock, s.readCount, at)
    ensures DueIds(ApplyAll(clock, s, ops).timers, maxId, at) <= DueIds(s.timers, maxId, at)
    decreases |ops|
  {
    if ops != [] {
      hide DueIds, Due, Millis;
      assert ops[0] in ops && Later([ops[0]]) && Later(ops[1..]);
      ApplyLowersDue(clock, s, ops[0], maxId, at);
      ApplyEffect(clock, s, ops[0], maxId);
      ApplyAllLowersDue(clock, Apply(clock, s, ops[0]), ops[1..], maxId, at);
    }
  }

  // ----- normalized times -----

  ghost predicate Normalized(ts: seq<Timer>) {
    forall t :: t in ts ==> Reading(t.when)
  }

  predicate NoNegativeDelay(ops: seq<TimerOp>) {
    forall op :: op in ops && !op.Delete? ==> op.delay >= 0
  }

  lemma ApplyNormalized(clock: Clock, s: State, op: TimerOp)
    requires Ordered(s) && Readings(clock) && Normalized(s.timers) && NoNegativeDelay([op])
    ensures Normalized(Apply(clock, s, op).timers)
  {
    assert op in [op];
    match op {
      case Create(delay) =>
        AfterIsExact(clock(s.readCount), delay);
      case Delete(id) =>
        RemoveKeepsOthers(s.timers, id);
      case Modify(id, delay) =>
        AfterIsExact(clock(s.readCount), delay);
        RetimeMembers(s.timers, id, After(clock(s.readCount), delay));
    }
  }

  /** Without negative delays, normalized timers stay normalized. */
  lemma {:induction false} ApplyAllNormalized(clock: Clock, s: State, ops: seq<TimerOp>)
    requires Ordered(s) && Readings(clock) && Normalized(s.timers) && NoNegativeDelay(ops)
    ensures Normalized(ApplyAll(clock, s, ops).timers)
    decreases |ops|
  {
    if ops != [] {
      assert ops[0] in ops && NoNegativeDelay([ops[0]]) && NoNegativeDelay(ops[1..]);
      ApplyNormalized(clock, s, ops[0]);
      ApplyKeepsOrder(clock, s, ops[0]);
      ApplyAllNormalized(clock, Apply(clock, s, ops[0]), ops[1..]);
    }
  }

  // ----- one operation more -----

  lemma {:induction false} ApplyAllAppend(clock: Clock, s: State, ops: seq<TimerOp>, op: TimerOp)
    ensures ApplyAll(clock, s, ops + [op]) == Apply(clock, ApplyAll(clock, s, ops), op)
    decreases |ops|
  {
    if ops == [] {
      assert ops + [op] == [op] && [op][1..] == [];
    } else {
      assert (ops + [op])[0] == ops[0] && (ops + [op])[1..] == ops[1..] + [op];
      ApplyAllAppend(clock, Apply(clock, s, ops[0]), ops[1..], op);
    }
  }

  // ----- the operations located at an index -----

  lemma {:induction false} RemoveAt(ts: seq<Timer>, i: nat, id: int)
    requires i < |ts| && ts[i].id == id && forall j :: 0 <= j < i ==> ts[j].id != id
    ensures Remove(ts, id) == ts[..i] + ts[i + 1..]
  {
    if i > 0 {
      RemoveAt(ts[1..], i - 1, id);
    }
  }

  lemma {:induction false} RetimeAt(ts: seq<Timer>, i: nat, id: int, when: Time)
    requires i < |ts| && ts[i].id == id && forall j :: 0 <= j < i ==> ts[j].id != id
    ensures Retime(ts, id, when) == ts[i := Timer(id, when)]
  {
    if i > 0 {
      RetimeAt(ts[1..], i - 1, id, when);
      assert ts[i := Timer(id, when)] == [ts[0]] + ts[1..][i - 1 := Timer(id, when)];
    }
  }

  lemma {:induction false} RemoveAbsent(ts: seq<Timer>, id: int)
    requires !Has(ts, id)
    ensures Remove(ts, id) == ts
  {
    if ts != [] {
      assert ts[0] in ts;
      RemoveAbsent(ts[1..], id);
    }
  }
}
