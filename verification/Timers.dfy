/** The timer polyfills: two maps of pending timers and a pump that runs what is due. */
module Timers {
  import opened Wrappers
  import opened TimerLog

  /** What a callback may do, and the passing of time while it runs. */
  datatype Op =
    | CallSetTimeout(delay: Option<Time>)
    | CallClearTimeout(id: Id)
    | CallSetInterval(delay: Option<Time>)
    | CallClearInterval(id: Id)
    | Elapse(time: Time)

  /** `normalizeDelay`; `None` is an argument that is not a finite number. */
  function NormalizeDelay(delay: Option<Time>): Time {
    if delay.Some? && delay.value > 0.0 then delay.value else 0.0
  }

  /** It is the wait that the histories call for. */
  lemma NormalizeIsWait(delay: Option<Time>)
    ensures IsWait(delay, NormalizeDelay(delay))
  {
  }

  function Perform(w: Wheel, op: Op): Wheel {
    match op
    case CallSetTimeout(delay) => SetTimeout(w, delay, NormalizeDelay(delay))
    case CallClearTimeout(id) => ClearTimeout(w, id)
    case CallSetInterval(delay) => SetInterval(w, delay, NormalizeDelay(delay))
    case CallClearInterval(id) => ClearInterval(w, id)
    case Elapse(time) => w.(clock := if time > 0.0 then w.clock + time else w.clock)
  }

  /** What a callback can have done to the wheel: nothing fires and no pump begins. */
  ghost predicate CalledBack(w: Wheel, after: Wheel) {
    && Sound(after) && w.clock <= after.clock && w.nextId <= after.nextId
    && BeforePump(after.log) == BeforePump(w.log) && PumpTime(after.log) == PumpTime(w.log)
    && (forall id: Id :: FiresThisPump(after.log, id) == FiresThisPump(w.log, id))
    && (forall id: Id :: Fires(after.log, id) == Fires(w.log, id))
    && Firings(after.log) == Firings(w.log)
    && (forall id | id in after.timeouts && id < w.nextId :: id in w.timeouts && after.timeouts[id] == w.timeouts[id])
    && (forall id | id in after.intervals && id < w.nextId :: id in w.intervals && after.intervals[id] == w.intervals[id])
  }

  lemma CalledBackTwice(w: Wheel, between: Wheel, after: Wheel)
    requires CalledBack(w, between) && CalledBack(between, after)
    ensures CalledBack(w, after)
  {
  }

  /** An operation logs nothing or one event, which is neither a firing nor a pump's beginning. */
  ghost predicate LogsOne(log: Log, after: Log) {
    || after == log
    || (exists e :: after == log + [e] && !e.PumpBegan? && !e.TimeoutFired? && !e.IntervalFired?)
  }

  lemma PerformLogs(w: Wheel, op: Op)
    ensures LogsOne(w.log, Perform(w, op).log)
  {
    hide NormalizeDelay;
    var after := Perform(w, op).log;
    if after != w.log {
      assert after == w.log + [after[|w.log|]];
    }
  }

  lemma LogsNoFiring(log: Log, after: Log)
    requires LogsOne(log, after)
    ensures BeforePump(after) == BeforePump(log) && PumpTime(after) == PumpTime(log)
    ensures forall id: Id :: FiresThisPump(after, id) == FiresThisPump(log, id)
    ensures forall id: Id :: Fires(after, id) == Fires(log, id)
    ensures Firings(after) == Firings(log)
  {
    hide BeforePump, PumpTime, FiresThisPump, Fires, Firings;
    if after != log {
      var e :| after == log + [e] && !e.PumpBegan? && !e.TimeoutFired? && !e.IntervalFired?;
      AppendFirings(log, e);
      AppendPump(log, e);
      AppendFires(log, e);
    }
  }

  lemma PerformIsCallback(w: Wheel, op: Op)
    requires Sound(w)
    ensures CalledBack(w, Perform(w, op))
  {
    hide Legal, Agrees, LogsOne, BeforePump, PumpTime, FiresThisPump, Fires, Firings;
    match op {
      case CallSetTimeout(delay) =>
        NormalizeIsWait(delay);
        SetTimeoutSound(w, delay, NormalizeDelay(delay));
      case CallClearTimeout(id) => ClearTimeoutSound(w, id);
      case CallSetInterval(delay) =>
        NormalizeIsWait(delay);
        SetIntervalSound(w, delay, NormalizeDelay(delay));
      case CallClearInterval(id) => ClearIntervalSound(w, id);
      case Elapse(time) => ElapseSound(w, Perform(w, op).clock);
    }
    PerformLogs(w, op);
    LogsNoFiring(w.log, Perform(w, op).log);
  }

  /** The ids of the timers that are due, in the order in which they were set. */
  ghost predicate DueIds(ids: seq<Id>, all: set<Id>) {
    (forall i, j | 0 <= i < j < |ids| :: ids[i] < ids[j]) && (forall id :: id in ids <==> id in all)
  }

  function DueTimeouts(w: Wheel): set<Id> {
    set id | id in w.timeouts && w.timeouts[id].due <= w.clock
  }

  function DueIntervals(w: Wheel): set<Id> {
    set id | id in w.intervals && w.intervals[id].due <= w.clock
  }

  /** Some pending timer has exactly this much to wait. */
  ghost predicate Attained(w: Wheel, delay: Time) {
    || (exists id :: id in w.timeouts && delay == Remaining(w.timeouts[id].due, w.clock))
    || (exists id :: id in w.intervals && delay == Remaining(w.intervals[id].due, w.clock))
  }

  /** The least remaining delay, never negative; `None` when nothing is pending. */
  ghost predicate IsNextDelay(w: Wheel, next: Option<Time>) {
    if next.None? then w.timeouts.Keys == {} && w.intervals.Keys == {}
    else
      && next.value >= 0.0
      && (forall id | id in w.timeouts :: next.value <= Remaining(w.timeouts[id].due, w.clock))
      && (forall id | id in w.intervals :: next.value <= Remaining(w.intervals[id].due, w.clock))
      && Attained(w, next.value)
  }

  /** How long from now until a timer is due. */
  function Remaining(due: Time, clock: Time): (r: Time)
    ensures if due <= clock then r == 0.0 else clock + r == due
  {
    if due - clock > 0.0 then due - clock else 0.0
  }

  // ---- The pump's two loops

  /** A pump that began in `w0` is under way in `w`. */
  ghost predicate Pumping(w0: Wheel, w: Wheel) {
    && Sound(w0) && Sound(w) && w0.nextId <= w.nextId
    && BeforePump(w.log) == w0.log && PumpTime(w.log) == w0.clock
    && (forall id | id in w.intervals && id < w0.nextId ::
          id in w0.intervals && w.intervals[id].delay == w0.intervals[id].delay)
  }

  /** The first `i` due timeouts have had their turn: none of them is pending any more. */
  ghost predicate TimeoutTurns(w0: Wheel, w: Wheel, ids: seq<Id>, i: nat) {
    && Pumping(w0, w) && i <= |ids| && DueIds(ids, DueTimeouts(w0))
    && (forall j | 0 <= j < i :: ids[j] !in w.timeouts)
    && (forall id: Id :: FiresThisPump(w.log, id) == 0)
    && (forall id: Id | id !in ids :: Fires(w.log, id) == Fires(w0.log, id))
  }

  lemma TimeoutTurnsBegin(w0: Wheel, ids: seq<Id>)
    requires Sound(w0) && DueIds(ids, DueTimeouts(w0))
    ensures TimeoutTurns(w0, Begin(w0), ids, 0)
  {
    BeginSound(w0);
    BeginPump(w0.log, w0.clock);
    AppendFires(w0.log, PumpBegan(w0.clock));
  }

  lemma TimeoutTurnSkips(w0: Wheel, w: Wheel, ids: seq<Id>, i: nat)
    requires TimeoutTurns(w0, w, ids, i) && i < |ids| && ids[i] !in w.timeouts
    ensures TimeoutTurns(w0, w, ids, i + 1)
  {
  }

  lemma TimeoutTurnFires(w0: Wheel, w: Wheel, ids: seq<Id>, i: nat)
    requires TimeoutTurns(w0, w, ids, i) && i < |ids| && ids[i] in w.timeouts
    ensures Sound(FireTimeout(w, ids[i]))
  {
    assert ids[i] in ids && ids[i] in DueTimeouts(w0);
    SoundAt(w0, ids[i]);
    FireTimeoutSound(w, ids[i], w0.timeouts[ids[i]].due);
  }

  lemma TimeoutTurnEnds(w0: Wheel, w: Wheel, ids: seq<Id>, i: nat, after: Wheel)
    requires TimeoutTurns(w0, w, ids, i) && i < |ids| && ids[i] in w.timeouts
    requires CalledBack(FireTimeout(w, ids[i]), after)
    ensures TimeoutTurns(w0, after, ids, i + 1)
  {
    hide Legal, Agrees, Sound;
    var e := TimeoutFired(ids[i], w.clock);
    AppendPump(w.log, e);
    AppendFires(w.log, e);
    assert ids[i] in ids;
    forall j | 0 <= j < i + 1 ensures ids[j] !in after.timeouts {
      assert ids[j] in ids && ids[j] in DueTimeouts(w0);
      PendingIsOpen(w0, ids[j]);
    }
  }

  /** The first `i` due intervals have had their turn: each fired once or is gone. */
  ghost predicate IntervalTurns(w0: Wheel, w: Wheel, ids: seq<Id>, i: nat) {
    && Pumping(w0, w) && i <= |ids| && DueIds(ids, DueIntervals(w0))
    && (forall id | id in DueTimeouts(w0) :: id !in w.timeouts)
    && (forall id: Id | id !in DueTimeouts(w0) :: Fires(w.log, id) == Fires(w0.log, id))
    && (forall j | 0 <= j < i && ids[j] in w.intervals :: FiresThisPump(w.log, ids[j]) == 1)
    && (forall j | i <= j < |ids| :: FiresThisPump(w.log, ids[j]) == 0)
    && (forall id: Id :: FiresThisPump(w.log, id) <= 1 && (id !in ids ==> FiresThisPump(w.log, id) == 0))
  }

  lemma IntervalTurnsBegin(w0: Wheel, w: Wheel, timeoutIds: seq<Id>, ids: seq<Id>)
    requires TimeoutTurns(w0, w, timeoutIds, |timeoutIds|) && DueIds(ids, DueIntervals(w0))
    ensures IntervalTurns(w0, w, ids, 0)
  {
    forall id | id in DueTimeouts(w0) ensures id !in w.timeouts {
      assert id in timeoutIds;
    }
  }

  lemma IntervalTurnSkips(w0: Wheel, w: Wheel, ids: seq<Id>, i: nat)
    requires IntervalTurns(w0, w, ids, i) && i < |ids| && ids[i] !in w.intervals
    ensures IntervalTurns(w0, w, ids, i + 1)
  {
  }

  lemma IntervalTurnFires(w0: Wheel, w: Wheel, ids: seq<Id>, i: nat)
    requires IntervalTurns(w0, w, ids, i) && i < |ids| && ids[i] in w.intervals
    ensures Sound(FireInterval(w, ids[i]))
  {
    assert ids[i] in ids && ids[i] in DueIntervals(w0);
    SoundAt(w0, ids[i]);
    FireIntervalSound(w, ids[i]);
  }

  lemma IntervalTurnCalled(w0: Wheel, w: Wheel, ids: seq<Id>, i: nat, after: Wheel)
    requires IntervalTurns(w0, w, ids, i) && i < |ids| && ids[i] in w.intervals
    requires CalledBack(FireInterval(w, ids[i]), after)
    ensures IntervalTurns(w0, after, ids, i + 1)
  {
    hide Legal, Agrees, Sound;
    var e := IntervalFired(ids[i], w.clock);
    AppendPump(w.log, e);
    AppendFires(w.log, e);
    assert ids[i] in ids;
    forall id | id in DueTimeouts(w0) ensures id !in after.timeouts {
      PendingIsOpen(w0, id);
    }
    forall j | 0 <= j < i + 1 && ids[j] in after.intervals ensures FiresThisPump(after.log, ids[j]) == 1 {
      assert ids[j] in ids && ids[j] in DueIntervals(w0);
      PendingIsOpen(w0, ids[j]);
    }
  }

  lemma IntervalTurnRearms(w0: Wheel, w: Wheel, ids: seq<Id>, i: nat, id: Id)
    requires IntervalTurns(w0, w, ids, i) && i > 0 && id == ids[i - 1] && id in w.intervals
    ensures IntervalTurns(w0, Rearm(w, id), ids, i)
  {
    var e := IntervalRearmed(id, w.clock + w.intervals[id].delay, w.clock);
    RearmSound(w, id);
    AppendPump(w.log, e);
    AppendFires(w.log, e);
  }

  lemma IntervalTurnsPump(w0: Wheel, w: Wheel, ids: seq<Id>, i: nat)
    requires IntervalTurns(w0, w, ids, i)
    ensures Pumping(w0, w) && Sound(w0) && Sound(w)
  {
  }

  // ---- Order of firing, and intervals armed anew

  /** Only timeouts so far, in order, and all before the i-th. */
  ghost predicate TimeoutsInTurn(log: Log, ids: seq<Id>, i: nat) {
    && InTurn(Firings(log)) && (forall f | f in Firings(log) :: f.OfTimeout?)
    && forall f, k | f in Firings(log) && i <= k < |ids| :: f.id < ids[k]
  }

  /** Timeouts, and then intervals, all before the i-th. */
  ghost predicate IntervalsInTurn(log: Log, ids: seq<Id>, i: nat) {
    && InTurn(Firings(log))
    && forall f, k | f in Firings(log) && i <= k < |ids| :: f.OfInterval? ==> f.id < ids[k]
  }

  lemma NothingFiredYet(w0: Wheel, ids: seq<Id>)
    ensures TimeoutsInTurn(Begin(w0).log, ids, 0)
  {
    BeginPump(w0.log, w0.clock);
  }

  lemma TimeoutSkipsTurn(log: Log, ids: seq<Id>, i: nat)
    requires TimeoutsInTurn(log, ids, i)
    ensures TimeoutsInTurn(log, ids, i + 1)
  {
  }

  lemma IntervalsAreNext(log: Log, timeoutIds: seq<Id>, ids: seq<Id>)
    requires TimeoutsInTurn(log, timeoutIds, |timeoutIds|)
    ensures IntervalsInTurn(log, ids, 0)
  {
  }

  lemma IntervalSkipsTurn(log: Log, ids: seq<Id>, i: nat)
    requires IntervalsInTurn(log, ids, i)
    ensures IntervalsInTurn(log, ids, i + 1)
  {
  }

  lemma TimeoutInTurn(w0: Wheel, w: Wheel, ids: seq<Id>, i: nat, after: Wheel)
    requires TimeoutsInTurn(w.log, ids, i) && i < |ids| && DueIds(ids, DueTimeouts(w0))
    requires CalledBack(FireTimeout(w, ids[i]), after)
    ensures TimeoutsInTurn(after.log, ids, i + 1)
  {
    hide Sound, Firings, DueTimeouts;
    AppendFirings(w.log, TimeoutFired(ids[i], w.clock));
    assert Firings(after.log) == Firings(w.log) + [OfTimeout(ids[i])];
  }

  lemma IntervalInTurn(w0: Wheel, w: Wheel, ids: seq<Id>, i: nat, after: Wheel)
    requires IntervalsInTurn(w.log, ids, i) && i < |ids| && DueIds(ids, DueIntervals(w0))
    requires CalledBack(FireInterval(w, ids[i]), after)
    ensures IntervalsInTurn(after.log, ids, i + 1)
  {
    hide Sound, Firings, DueIntervals;
    AppendFirings(w.log, IntervalFired(ids[i], w.clock));
    assert Firings(after.log) == Firings(w.log) + [OfInterval(ids[i])];
  }

  lemma RearmInTurn(w: Wheel, ids: seq<Id>, i: nat, id: Id)
    requires IntervalsInTurn(w.log, ids, i) && id in w.intervals
    ensures IntervalsInTurn(Rearm(w, id).log, ids, i)
  {
    hide Firings;
    AppendFirings(w.log, IntervalRearmed(id, w.clock + w.intervals[id].delay, w.clock));
  }

  /** The first `i` due intervals, as far as they are pending, count their delay from a time within the pump. */
  ghost predicate ArmedAnew(w0: Wheel, w: Wheel, ids: seq<Id>, i: nat) {
    && i <= |ids| && w0.clock <= w.clock
    && (forall j | 0 <= j < i :: ids[j] < w0.nextId)
    && forall j | 0 <= j < i && ids[j] in w.intervals ::
         w0.clock + w.intervals[ids[j]].delay <= w.intervals[ids[j]].due <= w.clock + w.intervals[ids[j]].delay
  }

  lemma ArmedAnewStarts(w0: Wheel, w: Wheel, ids: seq<Id>)
    requires Pumping(w0, w)
    ensures ArmedAnew(w0, w, ids, 0)
  {
  }

  lemma CallbackKeepsArmed(w0: Wheel, w: Wheel, ids: seq<Id>, i: nat, after: Wheel)
    requires ArmedAnew(w0, w, ids, i) && i < |ids| && Pumping(w0, w) && CalledBack(FireInterval(w, ids[i]), after)
    ensures ArmedAnew(w0, after, ids, i)
  {
    hide Sound;
  }

  /** The timer that just ran is armed anew if its callback did not clear it. */
  lemma ArmedNext(w0: Wheel, w: Wheel, ids: seq<Id>, i: nat)
    requires ArmedAnew(w0, w, ids, i) && i < |ids| && Sound(w0) && DueIds(ids, DueIntervals(w0))
    ensures ArmedAnew(w0, if ids[i] in w.intervals then Rearm(w, ids[i]) else w, ids, i + 1)
  {
    assert ids[i] in ids && ids[i] in DueIntervals(w0);
    PendingIsOpen(w0, ids[i]);
    hide Sound;
  }

  /** The part of the wheel with timeouts below `m` and intervals below `n`. */
  ghost function Below(w: Wheel, m: Id, n: Id): Wheel {
    w.(timeouts := map id | id in w.timeouts && id < m :: w.timeouts[id],
       intervals := map id | id in w.intervals && id < n :: w.intervals[id])
  }

  function Least(a: Option<Time>, b: Time): Option<Time> {
    if a.Some? && a.value < b then a else Some(b)
  }

  /** The source of a least delay is still there in a wheel with more timers. */
  lemma LeastStays(u: Wheel, v: Wheel, next: Time)
    requires Attained(u, next) && v.clock == u.clock
    requires forall id | id in u.timeouts :: id in v.timeouts && v.timeouts[id] == u.timeouts[id]
    requires forall id | id in u.intervals :: id in v.intervals && v.intervals[id] == u.intervals[id]
    ensures Attained(v, next)
  {
    hide Remaining;
    if id :| id in u.timeouts && next == Remaining(u.timeouts[id].due, u.clock) {
      assert id in v.timeouts;
    } else {
      var id :| id in u.intervals && next == Remaining(u.intervals[id].due, u.clock);
      assert id in v.intervals;
    }
  }

  lemma TimeoutAttained(w: Wheel, id: Id)
    requires id in w.timeouts
    ensures Attained(w, Remaining(w.timeouts[id].due, w.clock))
  {
  }

  lemma IntervalAttained(w: Wheel, id: Id)
    requires id in w.intervals
    ensures Attained(w, Remaining(w.intervals[id].due, w.clock))
  {
  }

  lemma TimeoutStep(w: Wheel, n: Id, next: Option<Time>)
    requires IsNextDelay(Below(w, n, n), next)
    ensures IsNextDelay(Below(w, n + 1, n),
                        if n in w.timeouts then Least(next, Remaining(w.timeouts[n].due, w.clock)) else next)
  {
    var v := Below(w, n + 1, n);
    if next.Some? {
      LeastStays(Below(w, n, n), v, next.value);
    }
    if n in w.timeouts {
      TimeoutAttained(v, n);
    }
    hide Remaining, Attained;
  }

  lemma IntervalStep(w: Wheel, n: Id, next: Option<Time>)
    requires IsNextDelay(Below(w, n + 1, n), next)
    ensures IsNextDelay(Below(w, n + 1, n + 1),
                        if n in w.intervals then Least(next, Remaining(w.intervals[n].due, w.clock)) else next)
  {
    var v := Below(w, n + 1, n + 1);
    if next.Some? {
      LeastStays(Below(w, n + 1, n), v, next.value);
    }
    if n in w.intervals {
      IntervalAttained(v, n);
    }
    hide Remaining, Attained;
  }

  lemma BelowNothing(w: Wheel)
    ensures IsNextDelay(Below(w, 0, 0), None)
  {
  }

  lemma BelowAll(w: Wheel)
    requires Sound(w)
    ensures Below(w, w.nextId, w.nextId) == w
  {
    forall id | id in w.timeouts || id in w.intervals ensures id < w.nextId {
      PendingIsOpen(w, id);
    }
    assert Below(w, w.nextId, w.nextId).timeouts == w.timeouts;
    assert Below(w, w.nextId, w.nextId).intervals == w.intervals;
  }

  class TimerWheel {
    var timerId: Id
    var timeouts: map<Id, Timeout>
    var intervals: map<Id, Interval>
    var clock: Time
    /** How many callbacks have run. */
    var calls: nat
    /** What the n-th callback to run does; any behaviour that can be observed in a run. */
    const behaviour: nat -> seq<Op>
    ghost var log: Log

    ghost function Value(): Wheel
      reads this
    {
      Wheel(log, timerId, timeouts, intervals, clock)
    }

    constructor (behaviour: nat -> seq<Op>, clock: Time)
      requires clock >= 0.0
      ensures Sound(Value()) && Value() == Wheel([], 1, map[], map[], clock)
      ensures this.behaviour == behaviour
    {
      this.behaviour, this.clock := behaviour, clock;
      timerId, timeouts, intervals, calls, log := 1, map[], map[], 0, [];
    }

    method SetTimeout(delay: Option<Time>) returns (id: Id)
      requires Sound(Value())
      modifies this`timerId, this`timeouts, this`log
      ensures Sound(Value())
      ensures id == old(timerId) && timerId == old(timerId) + 1
      ensures Value() == TimerLog.SetTimeout(old(Value()), delay, NormalizeDelay(delay))
      ensures id in timeouts && timeouts[id].due ==
              if delay.Some? && delay.value > 0.0 then old(clock) + delay.value else old(clock)
    {
      hide Sound;
      NormalizeIsWait(delay);
      SetTimeoutSound(Value(), delay, NormalizeDelay(delay));
      id := timerId;
      timerId := timerId + 1;
      var due := clock + NormalizeDelay(delay);
      timeouts := timeouts[id := Timeout(due)];
      log := log + [TimeoutSet(id, due, clock, delay)];
    }

    method ClearTimeout(id: Id)
      requires Sound(Value())
      modifies this`timeouts, this`log
      ensures Sound(Value())
      ensures Value() == TimerLog.ClearTimeout(old(Value()), id)
    {
      hide Sound;
      ClearTimeoutSound(Value(), id);
      if id in timeouts {
        log := log + [TimeoutCleared(id)];
      }
      timeouts := timeouts - {id};
      assert id !in old(timeouts) ==> timeouts == old(timeouts);
    }

    method SetInterval(delay: Option<Time>) returns (id: Id)
      requires Sound(Value())
      modifies this`timerId, this`intervals, this`log
      ensures Sound(Value())
      ensures id == old(timerId) && timerId == old(timerId) + 1
      ensures Value() == TimerLog.SetInterval(old(Value()), delay, NormalizeDelay(delay))
      ensures id in intervals && intervals[id].delay == (if delay.Some? && delay.value > 0.0 then delay.value else 0.0)
      ensures intervals[id].due == old(clock) + intervals[id].delay
    {
      hide Sound;
      NormalizeIsWait(delay);
      SetIntervalSound(Value(), delay, NormalizeDelay(delay));
      id := timerId;
      timerId := timerId + 1;
      var d := NormalizeDelay(delay);
      intervals := intervals[id := Interval(clock + d, d)];
      log := log + [IntervalSet(id, clock + d, clock, delay)];
    }

    method ClearInterval(id: Id)
      requires Sound(Value())
      modifies this`intervals, this`log
      ensures Sound(Value())
      ensures Value() == TimerLog.ClearInterval(old(Value()), id)
    {
      hide Sound;
      ClearIntervalSound(Value(), id);
      if id in intervals {
        log := log + [IntervalCleared(id)];
      }
      intervals := intervals - {id};
      assert id !in old(intervals) ==> intervals == old(intervals);
    }

    method Wait(time: Time)
      requires Sound(Value())
      modifies this`clock
      ensures Sound(Value())
      ensures Value() == Perform(old(Value()), Elapse(time))
    {
      if time > 0.0 {
        ElapseSound(Value(), clock + time);
        clock := clock + time;
      }
    }

    method Do(op: Op)
      requires Sound(Value())
      modifies this`timerId, this`timeouts, this`intervals, this`clock, this`log
      ensures Sound(Value()) && Value() == Perform(old(Value()), op)
    {
      match op
      case CallSetTimeout(delay) => var _ := SetTimeout(delay);
      case CallClearTimeout(id) => ClearTimeout(id);
      case CallSetInterval(delay) => var _ := SetInterval(delay);
      case CallClearInterval(id) => ClearInterval(id);
      case Elapse(time) => Wait(time);
    }

    /** One callback, whatever it does. */
    method RunCallback()
      requires Sound(Value())
      modifies this
      ensures CalledBack(old(Value()), Value())
    {
      var ops := behaviour(calls);
      calls := calls + 1;
      var i := 0;
      while i < |ops|
        invariant 0 <= i <= |ops|
        invariant Sound(Value()) && CalledBack(old(Value()), Value())
      {
        ghost var before := Value();
        Do(ops[i]);
        PerformIsCallback(before, ops[i]);
        CalledBackTwice(old(Value()), before, Value());
        i := i + 1;
      }
    }

    /** The snapshot the first loop takes; iteration is in the order of setting, which is that of the ids. */
    method CollectTimeouts(current: Time) returns (ids: seq<Id>)
      requires Sound(Value()) && current == clock
      ensures DueIds(ids, DueTimeouts(Value()))
    {
      ids := [];
      for id := 0 to timerId
        invariant forall i, j | 0 <= i < j < |ids| :: ids[i] < ids[j]
        invariant forall j | 0 <= j < |ids| :: ids[j] < id
        invariant forall k :: k in ids <==> k < id && k in timeouts && timeouts[k].due <= current
      {
        if id in timeouts && timeouts[id].due <= current {
          ids := ids + [id];
        }
      }
      forall k | k in timeouts ensures k < timerId {
        PendingIsOpen(Value(), k);
      }
    }

    method CollectIntervals(current: Time) returns (ids: seq<Id>)
      requires Sound(Value()) && current == clock
      ensures DueIds(ids, DueIntervals(Value()))
    {
      ids := [];
      for id := 0 to timerId
        invariant forall i, j | 0 <= i < j < |ids| :: ids[i] < ids[j]
        invariant forall j | 0 <= j < |ids| :: ids[j] < id
        invariant forall k :: k in ids <==> k < id && k in intervals && intervals[k].due <= current
      {
        if id in intervals && intervals[id].due <= current {
          ids := ids + [id];
        }
      }
      forall k | k in intervals ensures k < timerId {
        PendingIsOpen(Value(), k);
      }
    }

    /**
     `__pyRunnerPumpTimers`. Every timeout that was due is pending no more and no
     other fired; every interval that was due and is still pending fired exactly
     once, no other fired, and its delay counts anew from within the pump. Timeouts
     fire first and both kinds in the order of setting. The result is the least
     remaining delay.
     */
    method Pump() returns (next: Option<Time>)
      requires Sound(Value())
      modifies this
      ensures Sound(Value())
      ensures BeforePump(log) == old(log) && PumpTime(log) == old(clock)
      ensures forall id | id in old(timeouts) && old(timeouts)[id].due <= old(clock) :: id !in timeouts
      ensures forall id: Id | id in old(timeouts) ==> old(timeouts)[id].due > old(clock) ::
                Fires(log, id) == Fires(old(log), id)
      ensures forall id | id in old(intervals) && old(intervals)[id].due <= old(clock) && id in intervals ::
                FiresThisPump(log, id) == 1
      ensures forall id: Id :: FiresThisPump(log, id) <= 1
      ensures forall id: Id | id in old(intervals) ==> old(intervals)[id].due > old(clock) :: FiresThisPump(log, id) == 0
      ensures InTurn(Firings(log))
      ensures forall id | id in old(intervals) && old(intervals)[id].due <= old(clock) && id in intervals ::
                var delay := old(intervals)[id].delay;
                && intervals[id].delay == delay && old(clock) + delay <= intervals[id].due <= clock + delay
      ensures IsNextDelay(Value(), next)
    {
      ghost var w0 := Value();
      var dueTimeouts := CollectTimeouts(clock);
      var dueIntervals := CollectIntervals(clock);
      log := log + [PumpBegan(clock)];
      RunTimeouts(dueTimeouts, w0);
      RunIntervals(dueIntervals, dueTimeouts, w0);
      next := NextDelay();
      forall id | id in w0.intervals && w0.intervals[id].due <= w0.clock ensures id in DueIntervals(w0) {
      }
      forall id | id in w0.timeouts && w0.timeouts[id].due <= w0.clock ensures id in DueTimeouts(w0) {
      }
    }

    method RunTimeouts(ids: seq<Id>, ghost w0: Wheel)
      requires Sound(w0) && Value() == Begin(w0) && DueIds(ids, DueTimeouts(w0))
      modifies this
      ensures TimeoutTurns(w0, Value(), ids, |ids|) && TimeoutsInTurn(log, ids, |ids|)
    {
      hide TimeoutTurns, TimeoutsInTurn, CalledBack, DueIds, Legal, Agrees, Firings;
      TimeoutTurnsBegin(w0, ids);
      NothingFiredYet(w0, ids);
      var i := 0;
      while i < |ids|
        invariant 0 <= i <= |ids| && TimeoutTurns(w0, Value(), ids, i) && TimeoutsInTurn(log, ids, i)
      {
        ghost var w := Value();
        if ids[i] !in timeouts {
          TimeoutTurnSkips(w0, w, ids, i);
          TimeoutSkipsTurn(log, ids, i);
        } else {
          TimeoutTurnFires(w0, w, ids, i);
          timeouts := timeouts - {ids[i]};
          log := log + [TimeoutFired(ids[i], clock)];
          RunCallback();
          TimeoutTurnEnds(w0, w, ids, i, Value());
          TimeoutInTurn(w0, w, ids, i, Value());
        }
        i := i + 1;
      }
    }

    method RunIntervals(ids: seq<Id>, ghost timeoutIds: seq<Id>, ghost w0: Wheel)
      requires TimeoutTurns(w0, Value(), timeoutIds, |timeoutIds|) && DueIds(ids, DueIntervals(w0))
      requires TimeoutsInTurn(log, timeoutIds, |timeoutIds|)
      modifies this
      ensures IntervalTurns(w0, Value(), ids, |ids|)
      ensures IntervalsInTurn(log, ids, |ids|) && ArmedAnew(w0, Value(), ids, |ids|)
    {
      hide TimeoutTurns, IntervalTurns, TimeoutsInTurn, IntervalsInTurn, ArmedAnew;
      hide CalledBack, DueIds, Legal, Agrees, Firings, Sound, Pumping;
      IntervalTurnsBegin(w0, Value(), timeoutIds, ids);
      IntervalsAreNext(log, timeoutIds, ids);
      IntervalTurnsPump(w0, Value(), ids, 0);
      ArmedAnewStarts(w0, Value(), ids);
      var i := 0;
      while i < |ids|
        invariant 0 <= i <= |ids| && IntervalTurns(w0, Value(), ids, i)
        invariant IntervalsInTurn(log, ids, i) && ArmedAnew(w0, Value(), ids, i)
      {
        ghost var w := Value();
        var id := ids[i];
        IntervalTurnsPump(w0, w, ids, i);
        if id !in intervals {
          IntervalTurnSkips(w0, w, ids, i);
          IntervalSkipsTurn(log, ids, i);
          ArmedNext(w0, w, ids, i);
        } else {
          IntervalTurnFires(w0, w, ids, i);
          ghost var middle := RunInterval(id);
          IntervalTurnCalled(w0, w, ids, i, middle);
          IntervalInTurn(w0, w, ids, i, middle);
          CallbackKeepsArmed(w0, w, ids, i, middle);
          ArmedNext(w0, middle, ids, i);
          if id in middle.intervals {
            IntervalTurnRearms(w0, middle, ids, i + 1, id);
            RearmInTurn(middle, ids, i + 1, id);
          }
        }
        i := i + 1;
      }
    }

    /** The callback of a due interval; unless it cleared it, the delay counts anew from when it ended. */
    method RunInterval(id: Id) returns (ghost middle: Wheel)
      requires id in intervals && Sound(TimerLog.FireInterval(Value(), id))
      modifies this
      ensures CalledBack(TimerLog.FireInterval(old(Value()), id), middle)
      ensures Value() == if id in middle.intervals then Rearm(middle, id) else middle
    {
      hide CalledBack, Sound;
      log := log + [IntervalFired(id, clock)];
      assert Value() == TimerLog.FireInterval(old(Value()), id);
      RunCallback();
      middle := Value();
      if id in intervals {
        var due := clock + intervals[id].delay;
        intervals := intervals[id := Interval(due, intervals[id].delay)];
        log := log + [IntervalRearmed(id, due, clock)];
      }
    }

    method NextDelay() returns (next: Option<Time>)
      requires Sound(Value())
      ensures IsNextDelay(Value(), next)
    {
      hide IsNextDelay, Below, Sound, Remaining, Least;
      next := None;
      BelowNothing(Value());
      for id := 0 to timerId
        invariant IsNextDelay(Below(Value(), id, id), next)
      {
        TimeoutStep(Value(), id, next);
        if id in timeouts {
          next := Least(next, Remaining(timeouts[id].due, clock));
        }
        IntervalStep(Value(), id, next);
        if id in intervals {
          next := Least(next, Remaining(intervals[id].due, clock));
        }
      }
      BelowAll(Value());
    }
  }
}
