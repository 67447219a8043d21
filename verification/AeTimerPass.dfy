/** One pass of processTimeEvents (tflib/ae/ae.c) as steps over values: what it leaves behind whatever the callbacks do,
    when it ends, and when it never does. */
module AeTimerPass {
  import opened AeTime
  import opened AeTimerList

  const AE_NOMORE := -1

  /** What a timer callback does when called: its timer calls, and the value it returns. */
  datatype Reaction = Reaction(ops: seq<TimerOp>, ret: int)

  /** One reaction for each call number and timer id. */
  type Callbacks = (nat, int) -> Reaction

  // ----- the steps of a pass -----

  /** The loop state, the timers whose callbacks have been called, and where in the list the scan stands. */
  datatype Pass = Pass(state: State, calls: seq<int>, pos: nat)

  predicate Done(p: Pass) { p.pos >= |p.state.timers| }

  /** What the pass does with a callback's return value. */
  function Verdict(id: int, ret: int): TimerOp {
    if ret == AE_NOMORE then Delete(id) else Modify(id, ret)
  }

  /** A whole firing: the callback's calls, then deletion or re-arming. If the callback has deleted its own timer and asks
      to run again, the program writes to the freed node; here nothing happens. */
  function Fired(clock: Clock, s: State, r: Reaction, id: int): State {
    ApplyAll(clock, s, r.ops + [Verdict(id, r.ret)])
  }

  /** One turn of the loop: skip a timer created during the pass, leave one that is not due, or fire and start again
      from the head. */
  function Next(clock: Clock, callbacks: Callbacks, maxId: int, p: Pass): Pass
    requires !Done(p)
  {
    var t := p.state.timers[p.pos];
    if t.id > maxId then p.(pos := p.pos + 1)
    else
      var now, s := clock(p.state.readCount), p.state.(readCount := p.state.readCount + 1);
      if Due(t.when, now) then Pass(Fired(clock, s, callbacks(|p.calls|, t.id), t.id), p.calls + [t.id], 0)
      else Pass(s, p.calls, p.pos + 1)
  }

  /** At most n turns. */
  function Steps(clock: Clock, callbacks: Callbacks, maxId: int, p: Pass, n: nat): Pass {
    if n == 0 then p
    else
      var q := Steps(clock, callbacks, maxId, p, n - 1);
      if Done(q) then q else Next(clock, callbacks, maxId, q)
  }

  ghost predicate Ends(clock: Clock, callbacks: Callbacks, maxId: int, p: Pass) {
    exists n: nat :: Done(Steps(clock, callbacks, maxId, p, n))
  }

  /** The first n timers with their seconds cleared. */
  function Forgotten(ts: seq<Timer>, n: nat): (rs: seq<Timer>)
    ensures |rs| == |ts|
    ensures forall i :: 0 <= i < |ts| ==> rs[i] == if i < n then Timer(ts[i].id, Time(0, ts[i].when.ms)) else ts[i]
  {
    seq(|ts|, i requires 0 <= i < |ts| => if i < n then Timer(ts[i].id, Time(0, ts[i].when.ms)) else ts[i])
  }

  /** The clock has gone back since the last pass. */
  predicate Skewed(clock: Clock, s: State, lastTime: int) { clock(s.readCount).sec < lastTime }

  /** Where the scan of a pass starts: after one reading, and with every timer's seconds cleared if the clock has gone
      back since the last pass. */
  function Start(clock: Clock, s: State, calls: seq<int>, lastTime: int): Pass {
    Pass(State(if Skewed(clock, s, lastTime) then Forgotten(s.timers, |s.timers|) else s.timers, s.nextId, s.readCount + 1), calls, 0)
  }

  // ----- clocks -----

  /** From this reading on the clock does not go back. */
  ghost predicate Monotone(clock: Clock, from: nat) {
    forall m, n :: from <= m <= n ==> Millis(clock(m)) <= Millis(clock(n))
  }

  ghost predicate BoundedBy(clock: Clock, from: nat, T: int) {
    forall n :: n >= from ==> Millis(clock(n)) <= T
  }

  lemma MonotoneNotBefore(clock: Clock, from: nat, m: nat, later: nat)
    requires Monotone(clock, from) && from <= m <= later
    ensures NotBefore(clock, later, clock(m)) && Monotone(clock, m)
  {
  }

  lemma SameReading(a: Time, b: Time)
    requires Reading(a) && Reading(b) && Millis(a) == Millis(b)
    ensures a == b
  {
  }

  // ----- what was called, deleted and re-timed -----

  /** The callback of this timer ran at or after call number `from`. */
  ghost predicate CalledSince(calls: seq<int>, from: nat, id: int) {
    exists k :: from <= k < |calls| && calls[k] == id
  }

  /** Some callback run since then deleted this timer by its id. */
  ghost predicate DeletedSince(callbacks: Callbacks, calls: seq<int>, from: nat, id: int) {
    exists k :: from <= k < |calls| && Deletes(callbacks(k, calls[k]).ops, id)
  }

  /** Some callback run since then re-timed this timer by its id. */
  ghost predicate RetimedSince(callbacks: Callbacks, calls: seq<int>, from: nat, id: int) {
    exists k :: from <= k < |calls| && Retimes(callbacks(k, calls[k]).ops, id)
  }

  lemma LogGrows(callbacks: Callbacks, calls: seq<int>, from: nat, id: int, x: int)
    requires from <= |calls|
    ensures CalledSince(calls + [id], from, x) <==> CalledSince(calls, from, x) || x == id
    ensures DeletedSince(callbacks, calls + [id], from, x)
            <==> DeletedSince(callbacks, calls, from, x) || Deletes(callbacks(|calls|, id).ops, x)
    ensures RetimedSince(callbacks, calls + [id], from, x)
            <==> RetimedSince(callbacks, calls, from, x) || Retimes(callbacks(|calls|, id).ops, x)
  {
    hide Deletes, Retimes;
    var next := calls + [id];
    assert next[|calls|] == id;
    assert forall k :: 0 <= k < |calls| ==> next[k] == calls[k];
  }

  lemma VerdictNamesOwn(ops: seq<TimerOp>, id: int, ret: int, x: int)
    ensures Deletes(ops + [Verdict(id, ret)], x) ==> Deletes(ops, x) || x == id
    ensures Retimes(ops + [Verdict(id, ret)], x) ==> Retimes(ops, x) || x == id
  {
  }

  // ----- what every step keeps -----

  /** How the timers `before` the pass and those there now compare: only timers of `before` are called or stand at or
      below the bound, none of them is lost, and after a clock skew those not called or re-timed carry second zero. */
  ghost predicate Accounts(before: seq<Timer>, ts: seq<Timer>, maxId: int, callbacks: Callbacks, calls: seq<int>, from: nat,
                           skew: bool) {
    && from <= |calls|
    && (forall id :: CalledSince(calls, from, id) ==> Has(before, id))
    && (forall t :: t in ts && t.id <= maxId ==> Has(before, t.id))
    && (forall t :: t in before ==>
          CalledSince(calls, from, t.id) || DeletedSince(callbacks, calls, from, t.id) || Has(ts, t.id))
    && (skew ==> forall t :: t in ts && t.id <= maxId ==>
          t.when.sec == 0 || CalledSince(calls, from, t.id) || RetimedSince(callbacks, calls, from, t.id))
  }

  lemma NamedById(ts: seq<Timer>, rs: seq<Timer>, ops: seq<TimerOp>, maxId: int, id: int)
    requires OnlyNamed(ts, rs, ops, maxId) && Has(ts, id)
    ensures Has(rs, id) || Deletes(ops, id)
  {
  }

  lemma AccountsKept(before: seq<Timer>, ts: seq<Timer>, rs: seq<Timer>, t: Timer, maxId: int, callbacks: Callbacks,
                     calls: seq<int>, from: nat, skew: bool)
    requires Accounts(before, ts, maxId, callbacks, calls, from, skew) && t in ts && t.id <= maxId
    requires var r := callbacks(|calls|, t.id); OnlyNamed(ts, rs, r.ops + [Verdict(t.id, r.ret)], maxId)
    ensures Accounts(before, rs, maxId, callbacks, calls + [t.id], from, skew)
  {
    hide CalledSince, DeletedSince, RetimedSince, Deletes, Retimes, Has, Verdict;
    var r := callbacks(|calls|, t.id);
    var ops := r.ops + [Verdict(t.id, r.ret)];
    forall id ensures CalledSince(calls + [t.id], from, id) ==> Has(before, id) {
      LogGrows(callbacks, calls, from, t.id, id);
    }
    forall u | u in before
      ensures CalledSince(calls + [t.id], from, u.id) || DeletedSince(callbacks, calls + [t.id], from, u.id) || Has(rs, u.id)
    {
      LogGrows(callbacks, calls, from, t.id, u.id);
      VerdictNamesOwn(r.ops, t.id, r.ret, u.id);
      if Has(ts, u.id) { NamedById(ts, rs, ops, maxId, u.id); }
    }
    forall u | u in rs && u.id <= maxId
      ensures Has(before, u.id)
      ensures skew ==> u.when.sec == 0 || CalledSince(calls + [t.id], from, u.id) || RetimedSince(callbacks, calls + [t.id], from, u.id)
    {
      LogGrows(callbacks, calls, from, t.id, u.id);
      VerdictNamesOwn(r.ops, t.id, r.ret, u.id);
      HasHas(ts, before, maxId, u.id);
    }
  }

  lemma HasHas(ts: seq<Timer>, before: seq<Timer>, maxId: int, id: int)
    requires forall t :: t in ts && t.id <= maxId ==> Has(before, t.id)
    ensures Has(ts, id) && id <= maxId ==> Has(before, id)
  {
  }

  /** The timers the scan has passed since the last firing were not due when the pass began. */
  ghost predicate PassedNotDue(ts: seq<Timer>, pos: nat, maxId: int, first: Time)
    requires pos <= |ts|
  {
    forall j :: 0 <= j < pos && ts[j].id <= maxId ==> !Due(ts[j].when, first)
  }

  ghost predicate Running(maxId: int, first: nat, p: Pass) {
    Ordered(p.state) && maxId < p.state.nextId && first < p.state.readCount && p.pos <= |p.state.timers|
  }

  ghost predicate Kept(clock: Clock, callbacks: Callbacks, maxId: int, before: seq<Timer>, from: nat, first: nat, skew: bool,
                       p: Pass) {
    && Running(maxId, first, p)
    && Accounts(before, p.state.timers, maxId, callbacks, p.calls, from, skew)
    && PassedNotDue(p.state.timers, p.pos, maxId, clock(first))
  }

  lemma StepRuns(clock: Clock, callbacks: Callbacks, maxId: int, first: nat, p: Pass)
    requires Readings(clock) && Running(maxId, first, p) && !Done(p)
    ensures var q, t := Next(clock, callbacks, maxId, p), p.state.timers[p.pos];
            && Running(maxId, first, q) && p.calls <= q.calls
            && p.state.readCount <= q.state.readCount && (t.id <= maxId ==> p.state.readCount < q.state.readCount)
            && (if q.calls == p.calls then q.state.timers == p.state.timers && q.pos == p.pos + 1
                else
                  var r := callbacks(|p.calls|, t.id);
                  && t.id <= maxId && Due(t.when, clock(p.state.readCount)) && q.calls == p.calls + [t.id] && q.pos == 0
                  && OnlyNamed(p.state.timers, q.state.timers, r.ops + [Verdict(t.id, r.ret)], maxId))
  {
    var t, s := p.state.timers[p.pos], p.state.(readCount := p.state.readCount + 1);
    var r := callbacks(|p.calls|, t.id);
    ApplyAllEffect(clock, s, r.ops + [Verdict(t.id, r.ret)], maxId);
    hide OnlyNamed, ApplyAll, Due, OrderedList;
  }

  /** Every step keeps the accounts, whatever the callbacks do and return. */
  lemma StepKeeps(clock: Clock, callbacks: Callbacks, maxId: int, before: seq<Timer>, from: nat, first: nat, skew: bool, p: Pass)
    requires Readings(clock) && Monotone(clock, first) && !Done(p)
    requires Kept(clock, callbacks, maxId, before, from, first, skew, p)
    ensures Kept(clock, callbacks, maxId, before, from, first, skew, Next(clock, callbacks, maxId, p))
  {
    var t, q := p.state.timers[p.pos], Next(clock, callbacks, maxId, p);
    StepRuns(clock, callbacks, maxId, first, p);
    if q.calls == p.calls {
      if t.id <= maxId && Due(t.when, clock(first)) {
        DueStays(t.when, clock(first), clock(p.state.readCount));
      }
    } else {
      AccountsKept(before, p.state.timers, q.state.timers, t, maxId, callbacks, p.calls, from, skew);
    }
    hide Accounts, Running, Due, Fired;
  }

  lemma {:induction false} StepsKeep(clock: Clock, callbacks: Callbacks, maxId: int, before: seq<Timer>, from: nat, first: nat,
                                     skew: bool, p: Pass, n: nat)
    requires Readings(clock) && Monotone(clock, first)
    requires Kept(clock, callbacks, maxId, before, from, first, skew, p)
    ensures Kept(clock, callbacks, maxId, before, from, first, skew, Steps(clock, callbacks, maxId, p, n))
  {
    hide Kept, Next;
    if n > 0 {
      StepsKeep(clock, callbacks, maxId, before, from, first, skew, p, n - 1);
      var q := Steps(clock, callbacks, maxId, p, n - 1);
      if !Done(q) { StepKeeps(clock, callbacks, maxId, before, from, first, skew, q); }
    }
  }

  lemma {:induction false} StepsRun(clock: Clock, callbacks: Callbacks, maxId: int, first: nat, p: Pass, n: nat)
    requires Readings(clock) && Running(maxId, first, p)
    ensures var q := Steps(clock, callbacks, maxId, p, n);
            Running(maxId, first, q) && p.state.readCount <= q.state.readCount && p.calls <= q.calls
  {
    hide Running, Next, OnlyNamed;
    if n > 0 {
      StepsRun(clock, callbacks, maxId, first, p, n - 1);
      var q := Steps(clock, callbacks, maxId, p, n - 1);
      if !Done(q) { StepRuns(clock, callbacks, maxId, first, q); }
    }
  }

  lemma SecondsForgotten(ts: seq<Timer>, nextId: int)
    requires OrderedList(ts, nextId)
    ensures OrderedList(Forgotten(ts, |ts|), nextId)
    ensures Normalized(ts) ==> Normalized(Forgotten(ts, |ts|))
  {
    var rs := Forgotten(ts, |ts|);
    forall t | t in rs ensures t.id < nextId && -1000 < t.when.ms < 1000 && (Normalized(ts) ==> Reading(t.when)) {
      var i :| 0 <= i < |rs| && rs[i] == t;
      assert ts[i] in ts;
    }
  }

  lemma SameIds(before: seq<Timer>, now: seq<Timer>)
    requires |now| == |before| && forall i :: 0 <= i < |now| ==> now[i].id == before[i].id
    ensures forall t :: t in now ==> Has(before, t.id)
    ensures forall t :: t in before ==> Has(now, t.id)
  {
    forall t | t in now ensures Has(before, t.id) {
      var i :| 0 <= i < |now| && now[i] == t;
      assert before[i] in before;
    }
    forall t | t in before ensures Has(now, t.id) {
      var i :| 0 <= i < |before| && before[i] == t;
      assert now[i] in now;
    }
  }

  lemma StartKept(clock: Clock, callbacks: Callbacks, s: State, calls: seq<int>, lastTime: int)
    requires Ordered(s) && Readings(clock)
    ensures Kept(clock, callbacks, s.nextId - 1, s.timers, |calls|, s.readCount, Skewed(clock, s, lastTime),
                 Start(clock, s, calls, lastTime))
  {
    SecondsForgotten(s.timers, s.nextId);
    SameIds(s.timers, Start(clock, s, calls, lastTime).state.timers);
    hide Has, Due, OrderedList, Normalized;
  }

  // ----- what a pass leaves -----

  /** What one pass, begun at clock reading `first` with next id `nextId`, leaves behind: only timers that were in the
      list have been called or survive with an old id, so no timer a callback created fires; none of them is lost; and no
      survivor was due when the pass began. */
  ghost predicate PassOutcome(before: seq<Timer>, after: seq<Timer>, nextId: int, callbacks: Callbacks, calls: seq<int>,
                              from: nat, first: Time) {
    && (forall id :: CalledSince(calls, from, id) ==> Has(before, id))
    && (forall t :: t in after && t.id < nextId ==> Has(before, t.id) && !Due(t.when, first))
    && (forall t :: t in before ==>
          CalledSince(calls, from, t.id) || DeletedSince(callbacks, calls, from, t.id) || Has(after, t.id))
  }

  /** After a backwards step of the clock every timer is called, or deleted or re-timed by a callback. */
  ghost predicate AllFireOrDrop(before: seq<Timer>, callbacks: Callbacks, calls: seq<int>, from: nat) {
    forall t :: t in before ==>
      CalledSince(calls, from, t.id) || DeletedSince(callbacks, calls, from, t.id) || RetimedSince(callbacks, calls, from, t.id)
  }

  lemma KeptAtEnd(clock: Clock, callbacks: Callbacks, nextId: int, before: seq<Timer>, from: nat, first: nat, skew: bool, p: Pass)
    requires Kept(clock, callbacks, nextId - 1, before, from, first, skew, p) && Done(p)
    requires forall t :: t in before ==> t.id < nextId
    ensures PassOutcome(before, p.state.timers, nextId, callbacks, p.calls, from, clock(first))
    ensures skew && clock(first).sec >= 1 ==> AllFireOrDrop(before, callbacks, p.calls, from)
  {
    hide CalledSince, DeletedSince, RetimedSince, Ordered;
    forall t | t in before && Has(p.state.timers, t.id) && skew && clock(first).sec >= 1
      ensures CalledSince(p.calls, from, t.id) || RetimedSince(callbacks, p.calls, from, t.id)
    {
      var u :| u in p.state.timers && u.id == t.id;
      var j :| 0 <= j < |p.state.timers| && p.state.timers[j] == u;
    }
  }

  /** Every pass that ends, whatever its callbacks do. */
  lemma PassLeaves(clock: Clock, callbacks: Callbacks, s: State, calls: seq<int>, lastTime: int, n: nat)
    requires Ordered(s) && Readings(clock) && Monotone(clock, s.readCount)
    requires Done(Steps(clock, callbacks, s.nextId - 1, Start(clock, s, calls, lastTime), n))
    ensures var p := Steps(clock, callbacks, s.nextId - 1, Start(clock, s, calls, lastTime), n);
            && PassOutcome(s.timers, p.state.timers, s.nextId, callbacks, p.calls, |calls|, clock(s.readCount))
            && (Skewed(clock, s, lastTime) && clock(s.readCount).sec >= 1 ==> AllFireOrDrop(s.timers, callbacks, p.calls, |calls|))
  {
    hide Kept, Start, Steps, PassOutcome, AllFireOrDrop;
    var start, skew := Start(clock, s, calls, lastTime), Skewed(clock, s, lastTime);
    StartKept(clock, callbacks, s, calls, lastTime);
    StepsKeep(clock, callbacks, s.nextId - 1, s.timers, |calls|, s.readCount, skew, start, n);
    KeptAtEnd(clock, callbacks, s.nextId, s.timers, |calls|, s.readCount, skew,
              Steps(clock, callbacks, s.nextId - 1, start, n));
  }

  // ----- what a firing leaves -----

  /** After a firing the timer is gone if its callback asked for no more; otherwise, unless its callback deleted it, it is
      due exactly what the callback returned after the reading taken when it had returned. Every other timer is as the
      callback's calls left it. */
  lemma FiredExactly(clock: Clock, s: State, r: Reaction, id: int)
    requires Ordered(s) && Readings(clock)
    ensures var q, f := ApplyAll(clock, s, r.ops), Fired(clock, s, r, id);
            if r.ret == AE_NOMORE then
              (forall t :: t in f.timers <==> t in q.timers && t.id != id) && f.readCount == q.readCount
            else
              && RetimedAt(q.timers, f.timers, id, Millis(clock(q.readCount)) + r.ret)
              && f.readCount == q.readCount + if Has(q.timers, id) then 1 else 0
  {
    var q := ApplyAll(clock, s, r.ops);
    ApplyAllAppend(clock, s, r.ops, Verdict(id, r.ret));
    ApplyAllEffect(clock, s, r.ops, s.nextId - 1);
    hide ApplyAll, RetimedAt, Apply, OnlyNamed;
    if r.ret == AE_NOMORE {
      DeletedExactly(clock, q, id);
    } else {
      ModifiedExactly(clock, q, id, r.ret);
    }
  }

  predicate DueAt(ts: seq<Timer>, id: int, millis: int) {
    exists t :: t in ts && t.id == id && Millis(t.when) == millis
  }

  /** The fired timer is gone, or due exactly as long after the last reading as its callback asked. */
  ghost predicate Concluded(clock: Clock, ts: seq<Timer>, readCount: nat, id: int, ret: int) {
    if ret == AE_NOMORE then !Has(ts, id) else readCount > 0 && DueAt(ts, id, Millis(clock(readCount - 1)) + ret)
  }

  lemma RetimedIsDue(ts: seq<Timer>, rs: seq<Timer>, id: int, millis: int)
    requires RetimedAt(ts, rs, id, millis) && Has(ts, id)
    ensures DueAt(rs, id, millis)
  {
    hide Millis;
    var t :| t in ts && t.id == id;
    var i :| 0 <= i < |ts| && ts[i] == t;
    assert rs[i] in rs;
  }

  /** So every firing is concluded, unless the callback deleted the timer it asks to run again. */
  lemma FiringConcludes(clock: Clock, s: State, r: Reaction, id: int)
    requires Ordered(s) && Readings(clock) && Has(s.timers, id) && (r.ret != AE_NOMORE ==> !Deletes(r.ops, id))
    ensures var f := Fired(clock, s, r, id); Concluded(clock, f.timers, f.readCount, id, r.ret)
  {
    var q, f := ApplyAll(clock, s, r.ops), Fired(clock, s, r, id);
    FiredExactly(clock, s, r, id);
    ApplyAllEffect(clock, s, r.ops, s.nextId - 1);
    hide ApplyAll, Fired, OnlyNamed, RetimedAt, DueAt, Millis, Deletes, Ordered;
    if r.ret != AE_NOMORE {
      NamedById(s.timers, q.timers, r.ops, s.nextId - 1, id);
      RetimedIsDue(q.timers, f.timers, id, Millis(clock(q.readCount)) + r.ret);
    }
  }

  // ----- when a pass ends -----

  /** A callback that re-times timers only to the future and, if it asks to run again, does so after at least a
      millisecond. */
  predicate Behaves(r: Reaction) {
    Later(r.ops) && (r.ret == AE_NOMORE || r.ret > 0)
  }

  /** If the next step fires a timer, its callback behaves. */
  ghost predicate CallBehaves(clock: Clock, callbacks: Callbacks, maxId: int, p: Pass) {
    !Done(p) ==>
      var t := p.state.timers[p.pos];
      t.id <= maxId && Due(t.when, clock(p.state.readCount)) ==> Behaves(callbacks(|p.calls|, t.id))
  }

  lemma FiringLowersDue(clock: Clock, s: State, r: Reaction, t: Timer, maxId: int, at: Time)
    requires Ordered(s) && Readings(clock) && maxId < s.nextId && Behaves(r)
    requires Reading(at) && NotBefore(clock, s.readCount, at)
    requires t in s.timers && t.id <= maxId
    ensures DueIds(Fired(clock, s, r, t.id).timers, maxId, at) <= DueIds(s.timers, maxId, at) - {t.id}
    ensures Due(t.when, at) ==> t.id in DueIds(s.timers, maxId, at)
  {
    var q := ApplyAll(clock, s, r.ops);
    ApplyAllAppend(clock, s, r.ops, Verdict(t.id, r.ret));
    ApplyAllEffect(clock, s, r.ops, maxId);
    ApplyAllLowersDue(clock, s, r.ops, maxId, at);
    hide ApplyAll, Apply, OnlyNamed;
    ApplyLowersDue(clock, q, Verdict(t.id, r.ret), maxId, at);
  }

  /** The time the clock last showed. */
  function At(clock: Clock, p: Pass): Time
    requires p.state.readCount > 0
  {
    clock(p.state.readCount - 1)
  }

  /** A step lowers, in this order: the time left until T, the set of old timers due at the last reading, and the rest of
      the list. */
  lemma StepLowers(clock: Clock, callbacks: Callbacks, maxId: int, first: nat, p: Pass, T: int)
    requires Readings(clock) && Monotone(clock, first) && BoundedBy(clock, first, T)
    requires Running(maxId, first, p) && !Done(p) && CallBehaves(clock, callbacks, maxId, p)
    ensures var q := Next(clock, callbacks, maxId, p);
            && Running(maxId, first, q) && p.state.readCount <= q.state.readCount
            && (T - Millis(At(clock, p)), DueIds(p.state.timers, maxId, At(clock, p)), |p.state.timers| - p.pos
                decreases to T - Millis(At(clock, q)), DueIds(q.state.timers, maxId, At(clock, q)), |q.state.timers| - q.pos)
  {
    var q, t, now := Next(clock, callbacks, maxId, p), p.state.timers[p.pos], clock(p.state.readCount);
    StepRuns(clock, callbacks, maxId, first, p);
    var was, at := At(clock, p), At(clock, q);
    MonotoneNotBefore(clock, first, p.state.readCount - 1, p.state.readCount);
    if Millis(was) == Millis(at) && t.id <= maxId {
      MonotoneNotBefore(clock, first, p.state.readCount, q.state.readCount - 1);
      SameReading(was, at);
      SameReading(was, now);
      if Due(t.when, now) {
        var s := p.state.(readCount := p.state.readCount + 1);
        MonotoneNotBefore(clock, first, p.state.readCount, s.readCount);
        FiringLowersDue(clock, s, callbacks(|p.calls|, t.id), t, maxId, now);
        hide DueIds, Fired, Ordered, Due;
      }
    }
  }

  /** A pass ends if the callbacks it calls behave and the clock, which does not go back, stays below some time. */
  lemma PassEnds(clock: Clock, callbacks: Callbacks, maxId: int, first: nat, start: Pass, T: int)
    requires Readings(clock) && Monotone(clock, first) && BoundedBy(clock, first, T)
    requires Running(maxId, first, start)
    requires forall n: nat :: CallBehaves(clock, callbacks, maxId, Steps(clock, callbacks, maxId, start, n))
    ensures Ends(clock, callbacks, maxId, start)
  {
    hide DueIds, Millis, CallBehaves, Next, Ordered;
    var n, p := 0, start;
    while !Done(p)
      invariant p == Steps(clock, callbacks, maxId, start, n) && Running(maxId, first, p)
      decreases T - Millis(At(clock, p)), DueIds(p.state.timers, maxId, At(clock, p)), |p.state.timers| - p.pos
    {
      StepLowers(clock, callbacks, maxId, first, p, T);
      p, n := Next(clock, callbacks, maxId, p), n + 1;
    }
  }

  /** In particular if every callback behaves. */
  lemma WellBehavedPassEnds(clock: Clock, callbacks: Callbacks, s: State, calls: seq<int>, lastTime: int, T: int)
    requires Ordered(s) && Readings(clock) && Monotone(clock, s.readCount) && BoundedBy(clock, s.readCount, T)
    requires forall k: nat, id: int :: Behaves(callbacks(k, id))
    ensures Ends(clock, callbacks, s.nextId - 1, Start(clock, s, calls, lastTime))
  {
    SecondsForgotten(s.timers, s.nextId);
    hide Ends, Steps, Behaves, OrderedList, Due;
    PassEnds(clock, callbacks, s.nextId - 1, s.readCount, Start(clock, s, calls, lastTime), T);
  }

  // ----- exactly when it ends, for constant callbacks on a clock standing still -----

  ghost predicate Standing(clock: Clock, now: Time) {
    Reading(now) && forall n :: clock(n) == now
  }

  /** Callbacks that make no timer calls and always return the same value for the same timer. */
  ghost predicate Constant(callbacks: Callbacks, ret: int -> int) {
    forall k: nat, id: int :: callbacks(k, id) == Reaction([], ret(id))
  }

  predicate NoMoreOrLater(ret: int) { ret == AE_NOMORE || ret > 0 }

  ghost predicate DueAreFine(p: Pass, maxId: int, now: Time, ret: int -> int) {
    forall id :: id in DueIds(p.state.timers, maxId, now) ==> NoMoreOrLater(ret(id))
  }

  lemma CallIsFine(clock: Clock, callbacks: Callbacks, maxId: int, p: Pass, now: Time, ret: int -> int)
    requires Standing(clock, now) && Constant(callbacks, ret) && DueAreFine(p, maxId, now, ret)
    ensures CallBehaves(clock, callbacks, maxId, p)
  {
    hide Due;
    if !Done(p) {
      var t := p.state.timers[p.pos];
      if t.id <= maxId && Due(t.when, now) { assert t.id in DueIds(p.state.timers, maxId, now); }
    }
  }

  lemma StepDueLeave(clock: Clock, callbacks: Callbacks, maxId: int, first: nat, p: Pass, now: Time, ret: int -> int)
    requires Standing(clock, now) && Constant(callbacks, ret) && Running(maxId, first, p) && !Done(p)
    requires DueAreFine(p, maxId, now, ret)
    ensures DueAreFine(Next(clock, callbacks, maxId, p), maxId, now, ret)
  {
    CallIsFine(clock, callbacks, maxId, p, now, ret);
    var t, s := p.state.timers[p.pos], p.state.(readCount := p.state.readCount + 1);
    hide OrderedList, Due, Fired;
    if t.id <= maxId && Due(t.when, now) {
      FiringLowersDue(clock, s, callbacks(|p.calls|, t.id), t, maxId, now);
    }
    hide DueIds, NoMoreOrLater;
  }

  lemma {:induction false} DueStayFine(clock: Clock, callbacks: Callbacks, maxId: int, first: nat, p: Pass, now: Time,
                                       ret: int -> int, n: nat)
    requires Standing(clock, now) && Constant(callbacks, ret) && Running(maxId, first, p)
    requires DueAreFine(p, maxId, now, ret)
    ensures DueAreFine(Steps(clock, callbacks, maxId, p, n), maxId, now, ret)
  {
    hide DueAreFine, Ordered, Next;
    if n > 0 {
      DueStayFine(clock, callbacks, maxId, first, p, now, ret, n - 1);
      StepsRun(clock, callbacks, maxId, first, p, n - 1);
      var q := Steps(clock, callbacks, maxId, p, n - 1);
      if !Done(q) { StepDueLeave(clock, callbacks, maxId, first, q, now, ret); }
    }
  }

  /** This due timer still lies ahead of the scan. */
  ghost predicate Ahead(p: Pass, id: int, now: Time) {
    exists i :: p.pos <= i < |p.state.timers| && p.state.timers[i].id == id && Due(p.state.timers[i].when, now)
  }

  lemma FiringKeepsDue(clock: Clock, s: State, ret: int, t: Timer, id: int, maxId: int, now: Time)
    requires Standing(clock, now) && Ordered(s) && t in s.timers && (t.id == id ==> !NoMoreOrLater(ret))
    requires exists u :: u in s.timers && u.id == id && Due(u.when, now)
    ensures exists u :: u in Fired(clock, s, Reaction([], ret), t.id).timers && u.id == id && Due(u.when, now)
  {
    var v := Verdict(t.id, ret);
    assert [] + [v] == [v] && [v][1..] == [];
    assert ApplyAll(clock, s, [v]) == ApplyAll(clock, Apply(clock, s, v), []);
    var rs := Apply(clock, s, v).timers;
    var u :| u in s.timers && u.id == id && Due(u.when, now);
    if v.Delete? {
      RemoveKeepsOthers(s.timers, t.id);
      assert u in rs;
    } else {
      var when := After(now, ret);
      RetimeMembers(s.timers, t.id, when);
      RearmedDueAtOnce(now, ret);
      hide Due, After, Retime;
      assert (if t.id == id then Timer(id, when) else u) in rs;
    }
  }

  lemma AheadNotDone(p: Pass, id: int, now: Time)
    requires Ahead(p, id, now)
    ensures !Done(p)
  {
  }

  lemma StepStaysAhead(clock: Clock, callbacks: Callbacks, maxId: int, first: nat, p: Pass, now: Time, ret: int -> int, id: int)
    requires Standing(clock, now) && Constant(callbacks, ret) && Running(maxId, first, p)
    requires id <= maxId && !NoMoreOrLater(ret(id)) && Ahead(p, id, now)
    ensures Ahead(Next(clock, callbacks, maxId, p), id, now)
  {
    var t, s := p.state.timers[p.pos], p.state.(readCount := p.state.readCount + 1);
    hide OrderedList, Due, Fired, NoMoreOrLater;
    if t.id <= maxId && Due(t.when, now) {
      FiringKeepsDue(clock, s, ret(t.id), t, id, maxId, now);
    }
  }

  lemma {:induction false} StaysAhead(clock: Clock, callbacks: Callbacks, maxId: int, first: nat, p: Pass, now: Time,
                                      ret: int -> int, id: int, n: nat)
    requires Standing(clock, now) && Constant(callbacks, ret) && Running(maxId, first, p)
    requires id <= maxId && !NoMoreOrLater(ret(id)) && Ahead(p, id, now)
    ensures Ahead(Steps(clock, callbacks, maxId, p, n), id, now)
  {
    assert Readings(clock);
    hide Ahead, Running, Next, Constant, Standing;
    if n > 0 {
      StaysAhead(clock, callbacks, maxId, first, p, now, ret, id, n - 1);
      StepsRun(clock, callbacks, maxId, first, p, n - 1);
      var q := Steps(clock, callbacks, maxId, p, n - 1);
      AheadNotDone(q, id, now);
      StepStaysAhead(clock, callbacks, maxId, first, q, now, ret, id);
    }
  }

  /** The pass ends if and only if every timer it finds due asks to run again later or not at all. */
  lemma EndsExactly(clock: Clock, callbacks: Callbacks, maxId: int, start: Pass, now: Time, ret: int -> int)
    requires Standing(clock, now) && Constant(callbacks, ret)
    requires Ordered(start.state) && maxId < start.state.nextId && start.pos == 0 && start.state.readCount > 0
    ensures Ends(clock, callbacks, maxId, start)
            <==> forall t :: t in start.state.timers && t.id <= maxId && Due(t.when, now) ==> NoMoreOrLater(ret(t.id))
  {
    hide Ordered, Due, CallBehaves, Steps, NoMoreOrLater;
    if forall t :: t in start.state.timers && t.id <= maxId && Due(t.when, now) ==> NoMoreOrLater(ret(t.id)) {
      forall n: nat ensures CallBehaves(clock, callbacks, maxId, Steps(clock, callbacks, maxId, start, n)) {
        DueStayFine(clock, callbacks, maxId, 0, start, now, ret, n);
        CallIsFine(clock, callbacks, maxId, Steps(clock, callbacks, maxId, start, n), now, ret);
      }
      PassEnds(clock, callbacks, maxId, 0, start, Millis(now));
    } else {
      var t :| t in start.state.timers && t.id <= maxId && Due(t.when, now) && !NoMoreOrLater(ret(t.id));
      forall n: nat ensures !Done(Steps(clock, callbacks, maxId, start, n)) {
        StaysAhead(clock, callbacks, maxId, 0, start, now, ret, t.id, n);
        AheadNotDone(Steps(clock, callbacks, maxId, start, n), t.id, now);
      }
    }
  }

  // ----- passes that never end -----

  /** The only timer is due at the next reading. */
  predicate AlwaysDue(clock: Clock, id: int, p: Pass) {
    && |p.state.timers| == 1 && p.state.timers[0].id == id && p.pos == 0
    && Due(p.state.timers[0].when, clock(p.state.readCount))
  }

  lemma FiresAgain(clock: Clock, callbacks: Callbacks, maxId: int, p: Pass, id: int, delay: int)
    requires forall m: nat :: Due(After(clock(m), delay), clock(m + 1))
    requires delay != AE_NOMORE && callbacks(|p.calls|, id) == Reaction([], delay)
    requires id <= maxId && AlwaysDue(clock, id, p)
    ensures var q := Next(clock, callbacks, maxId, p); AlwaysDue(clock, id, q) && q.calls == p.calls + [id]
  {
    hide Due, After;
    var s, v := p.state.(readCount := p.state.readCount + 1), Modify(id, delay);
    assert [] + [v] == [v] && [v][1..] == [];
    assert ApplyAll(clock, s, [v]) == ApplyAll(clock, Apply(clock, s, v), []);
    assert s.timers[0] in s.timers && Has(s.timers, id);
  }

  /** If the delay a callback returns never outlasts the time to the next reading, every step is a firing: after n of
      them the timer is still listed and due. */
  lemma {:induction false} FiresForever(clock: Clock, callbacks: Callbacks, maxId: int, start: Pass, id: int, delay: int, n: nat)
    requires forall m: nat :: Due(After(clock(m), delay), clock(m + 1))
    requires delay != AE_NOMORE && forall k: nat :: callbacks(k, id) == Reaction([], delay)
    requires id <= maxId && AlwaysDue(clock, id, start)
    ensures var p := Steps(clock, callbacks, maxId, start, n);
            AlwaysDue(clock, id, p) && !Done(p) && p.calls == start.calls + seq(n, _ => id)
  {
    hide Due, After, Next;
    if n > 0 {
      FiresForever(clock, callbacks, maxId, start, id, delay, n - 1);
      FiresAgain(clock, callbacks, maxId, Steps(clock, callbacks, maxId, start, n - 1), id, delay);
      assert seq(n, _ => id) == seq(n - 1, _ => id) + [id];
    }
  }

  /** On a clock standing still a callback that returns 0 fires for ever. */
  lemma ZeroDelayForever(clock: Clock, now: Time, t: Timer, nextId: int, n: nat)
    requires Standing(clock, now) && Due(t.when, now) && t.id < nextId
    ensures var callbacks: Callbacks := (_, _) => Reaction([], 0);
            var p := Steps(clock, callbacks, nextId - 1, Pass(State([t], nextId, 1), [], 0), n);
            AlwaysDue(clock, t.id, p) && !Done(p) && p.calls == seq(n, _ => t.id)
  {
    RearmedDueAtOnce(now, 0);
    var callbacks: Callbacks := (_, _) => Reaction([], 0);
    FiresForever(clock, callbacks, nextId - 1, Pass(State([t], nextId, 1), [], 0), t.id, 0, n);
  }

  /** On a clock that moves on by a second between readings even a callback that returns a second does. */
  lemma RunningClockForever(t: Timer, nextId: int, n: nat)
    requires Due(t.when, Time(1, 0)) && t.id < nextId
    ensures var clock: Clock, callbacks: Callbacks := m => Time(m, 0), (_, _) => Reaction([], 1000);
            var p := Steps(clock, callbacks, nextId - 1, Pass(State([t], nextId, 1), [], 0), n);
            AlwaysDue(clock, t.id, p) && !Done(p) && p.calls == seq(n, _ => t.id)
  {
    var clock: Clock, callbacks: Callbacks := m => Time(m, 0), (_, _) => Reaction([], 1000);
    FiresForever(clock, callbacks, nextId - 1, Pass(State([t], nextId, 1), [], 0), t.id, 1000, n);
  }

  /** A delay of 0 does not by itself keep a pass from ending: here the callback returns 0 once and then no more. */
  lemma ZeroOnceEnds(clock: Clock, now: Time, t: Timer, nextId: int)
    requires Standing(clock, now) && Due(t.when, now) && t.id < nextId
    ensures var callbacks: Callbacks := (k, _) => Reaction([], if k == 0 then 0 else AE_NOMORE);
            var p := Steps(clock, callbacks, nextId - 1, Pass(State([t], nextId, 1), [], 0), 2);
            Done(p) && p.calls == [t.id, t.id]
  {
    var callbacks: Callbacks := (k, _) => Reaction([], if k == 0 then 0 else AE_NOMORE);
    var start := Pass(State([t], nextId, 1), [], 0);
    RearmedDueAtOnce(now, 0);
    hide Due, After;
    var m, d := Modify(t.id, 0), Delete(t.id);
    assert [] + [m] == [m] && [m][1..] == [] && [] + [d] == [d] && [d][1..] == [];
    var s := start.state.(readCount := 2);
    assert s.timers[0] in s.timers && Has(s.timers, t.id);
    assert ApplyAll(clock, s, [m]) == ApplyAll(clock, Apply(clock, s, m), []);
    var p := Next(clock, callbacks, nextId - 1, start);
    assert p == Pass(State([Timer(t.id, After(now, 0))], nextId, 3), [t.id], 0);
    var r := p.state.(readCount := 4);
    assert ApplyAll(clock, r, [d]) == ApplyAll(clock, Apply(clock, r, d), []);
    assert Steps(clock, callbacks, nextId - 1, start, 1) == p;
  }

  // ----- normalized times over a pass -----

  /** No callback asks for a negative delay, in its calls or by what it returns. */
  ghost predicate NonNegative(callbacks: Callbacks) {
    forall k: nat, id: int :: var r := callbacks(k, id); NoNegativeDelay(r.ops) && (r.ret == AE_NOMORE || r.ret >= 0)
  }

  lemma StepNormalized(clock: Clock, callbacks: Callbacks, maxId: int, first: nat, p: Pass)
    requires Readings(clock) && NonNegative(callbacks) && Running(maxId, first, p) && !Done(p)
    requires Normalized(p.state.timers)
    ensures Normalized(Next(clock, callbacks, maxId, p).state.timers)
  {
    var t, s := p.state.timers[p.pos], p.state.(readCount := p.state.readCount + 1);
    var r := callbacks(|p.calls|, t.id);
    ApplyAllNormalized(clock, s, r.ops + [Verdict(t.id, r.ret)]);
  }

  lemma {:induction false} StepsNormalized(clock: Clock, callbacks: Callbacks, maxId: int, first: nat, p: Pass, n: nat)
    requires Readings(clock) && NonNegative(callbacks) && Running(maxId, first, p) && Normalized(p.state.timers)
    ensures Normalized(Steps(clock, callbacks, maxId, p, n).state.timers)
  {
    hide Running, Normalized, Next, NonNegative;
    if n > 0 {
      StepsNormalized(clock, callbacks, maxId, first, p, n - 1);
      StepsRun(clock, callbacks, maxId, first, p, n - 1);
      var q := Steps(clock, callbacks, maxId, p, n - 1);
      if !Done(q) { StepNormalized(clock, callbacks, maxId, first, q); }
    }
  }

  /** Without negative delays a pass leaves normalized timers normalized, backwards steps of the clock included. */
  lemma PassNormalized(clock: Clock, callbacks: Callbacks, s: State, calls: seq<int>, lastTime: int, n: nat)
    requires Ordered(s) && Readings(clock) && NonNegative(callbacks) && Normalized(s.timers)
    ensures Normalized(Steps(clock, callbacks, s.nextId - 1, Start(clock, s, calls, lastTime), n).state.timers)
  {
    SecondsForgotten(s.timers, s.nextId);
    StepsNormalized(clock, callbacks, s.nextId - 1, s.readCount, Start(clock, s, calls, lastTime), n);
  }

  // ----- runs of the loop -----

  /** The loop between its calls: its timers, the callbacks made, and the second of the last pass. */
  datatype Session = Session(state: State, calls: seq<int>, lastTime: int)

  /** What can happen to it: a call into the timer interface, a reading of the clock for the poll, or a pass (all of its
      steps, or only the first n). */
  datatype Action = Call(op: TimerOp) | ReadClock | RunPass(n: nat)

  function Act(clock: Clock, callbacks: Callbacks, s: Session, a: Action): Session {
    match a
    case Call(op) => s.(state := Apply(clock, s.state, op))
    case ReadClock => s.(state := s.state.(readCount := s.state.readCount + 1))
    case RunPass(n) =>
      var p := Steps(clock, callbacks, s.state.nextId - 1, Start(clock, s.state, s.calls, s.lastTime), n);
      Session(p.state, p.calls, clock(s.state.readCount).sec)
  }

  function ActAll(clock: Clock, callbacks: Callbacks, s: Session, actions: seq<Action>): Session {
    if actions == [] then s
    else Act(clock, callbacks, ActAll(clock, callbacks, s, actions[..|actions| - 1]), actions[|actions| - 1])
  }

  lemma PassRuns(clock: Clock, callbacks: Callbacks, s: State, calls: seq<int>, lastTime: int, n: nat)
    requires Ordered(s) && Readings(clock)
    ensures Ordered(Steps(clock, callbacks, s.nextId - 1, Start(clock, s, calls, lastTime), n).state)
  {
    SecondsForgotten(s.timers, s.nextId);
    hide OrderedList, Steps;
    StepsRun(clock, callbacks, s.nextId - 1, s.readCount, Start(clock, s, calls, lastTime), n);
  }

  lemma ActNormalized(clock: Clock, callbacks: Callbacks, s: Session, a: Action)
    requires Readings(clock) && NonNegative(callbacks) && (a.Call? ==> NoNegativeDelay([a.op]))
    requires Ordered(s.state) && Normalized(s.state.timers)
    ensures var r := Act(clock, callbacks, s, a); Ordered(r.state) && Normalized(r.state.timers)
  {
    hide OrderedList, Normalized, Start, Steps, Apply, NoNegativeDelay, NonNegative;
    match a {
      case Call(op) =>
        ApplyKeepsOrder(clock, s.state, op);
        ApplyNormalized(clock, s.state, op);
      case ReadClock =>
      case RunPass(n) =>
        PassNormalized(clock, callbacks, s.state, s.calls, s.lastTime, n);
        PassRuns(clock, callbacks, s.state, s.calls, s.lastTime, n);
    }
  }

  ghost predicate NonNegativeCalls(actions: seq<Action>) {
    forall i :: 0 <= i < |actions| && actions[i].Call? ==> NoNegativeDelay([actions[i].op])
  }

  /** Over every run in which no delay is negative, all timers stay normalized and in order. */
  lemma {:induction false} RunNormalized(clock: Clock, callbacks: Callbacks, s: Session, actions: seq<Action>)
    requires Readings(clock) && NonNegative(callbacks)
    requires NonNegativeCalls(actions)
    requires Ordered(s.state) && Normalized(s.state.timers)
    ensures var r := ActAll(clock, callbacks, s, actions); Ordered(r.state) && Normalized(r.state.timers)
    decreases |actions|
  {
    hide Ordered, Normalized, NonNegative, Act, NoNegativeDelay;
    if actions != [] {
      RunNormalized(clock, callbacks, s, actions[..|actions| - 1]);
      ActNormalized(clock, callbacks, ActAll(clock, callbacks, s, actions[..|actions| - 1]), actions[|actions| - 1]);
    }
  }
}
