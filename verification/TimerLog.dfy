/** The history of a timer wheel, and what makes a history legal. */
module TimerLog {
  import opened Wrappers

  type Id = nat
  type Time = real

  /** `at` is the clock when it happens, `asked` the delay argument; `None` is one that is not a finite number. */
  datatype Event =
    | TimeoutSet(id: Id, due: Time, at: Time, asked: Option<Time>)
    | TimeoutCleared(id: Id)
    | TimeoutFired(id: Id, at: Time)
    | IntervalSet(id: Id, due: Time, at: Time, asked: Option<Time>)
    | IntervalCleared(id: Id)
    | IntervalFired(id: Id, at: Time)
    | IntervalRearmed(id: Id, due: Time, at: Time)
    | PumpBegan(at: Time)

  type Log = seq<Event>

  // ---- Counting

  function Sets(log: Log, id: Id): nat {
    if log == [] then 0
    else Sets(log[..|log| - 1], id) + if log[|log| - 1].TimeoutSet? && log[|log| - 1].id == id then 1 else 0
  }

  function Fires(log: Log, id: Id): nat {
    if log == [] then 0
    else Fires(log[..|log| - 1], id) + if log[|log| - 1].TimeoutFired? && log[|log| - 1].id == id then 1 else 0
  }

  function Clears(log: Log, id: Id): nat {
    if log == [] then 0
    else Clears(log[..|log| - 1], id) + if log[|log| - 1] == TimeoutCleared(id) then 1 else 0
  }

  function IntervalSets(log: Log, id: Id): nat {
    if log == [] then 0
    else IntervalSets(log[..|log| - 1], id) + if log[|log| - 1].IntervalSet? && log[|log| - 1].id == id then 1 else 0
  }

  function IntervalClears(log: Log, id: Id): nat {
    if log == [] then 0
    else IntervalClears(log[..|log| - 1], id) + if log[|log| - 1] == IntervalCleared(id) then 1 else 0
  }

  // ---- The pump under way

  /** What had happened when the latest pump began. */
  function BeforePump(log: Log): Log {
    if log == [] then []
    else if log[|log| - 1].PumpBegan? then log[..|log| - 1]
    else BeforePump(log[..|log| - 1])
  }

  function PumpTime(log: Log): Time {
    if log == [] then 0.0
    else if log[|log| - 1].PumpBegan? then log[|log| - 1].at
    else PumpTime(log[..|log| - 1])
  }

  /** How often an interval has fired since the latest pump began. */
  function FiresThisPump(log: Log, id: Id): nat {
    if log == [] || log[|log| - 1].PumpBegan? then 0
    else FiresThisPump(log[..|log| - 1], id)
         + if log[|log| - 1].IntervalFired? && log[|log| - 1].id == id then 1 else 0
  }

  predicate Arms(e: Event, id: Id) {
    (e.IntervalSet? || e.IntervalRearmed?) && e.id == id
  }

  /** The due time an interval was last given. */
  function LastArmed(log: Log, id: Id): Option<Time> {
    if log == [] then None
    else if Arms(log[|log| - 1], id) then Some(log[|log| - 1].due)
    else LastArmed(log[..|log| - 1], id)
  }

  /** How long an interval waits, by the event that set it. */
  function WaitOf(log: Log, id: Id): Option<Time> {
    if log == [] then None
    else if log[|log| - 1].IntervalSet? && log[|log| - 1].id == id then Some(log[|log| - 1].due - log[|log| - 1].at)
    else WaitOf(log[..|log| - 1], id)
  }

  datatype Firing = OfTimeout(id: Id) | OfInterval(id: Id)

  /** What has fired since the latest pump began, in order. */
  function Firings(log: Log): seq<Firing> {
    if log == [] then []
    else match log[|log| - 1]
      case PumpBegan(_) => []
      case TimeoutFired(id, _) => Firings(log[..|log| - 1]) + [OfTimeout(id)]
      case IntervalFired(id, _) => Firings(log[..|log| - 1]) + [OfInterval(id)]
      case _ => Firings(log[..|log| - 1])
  }

  /** Timeouts before intervals, and each kind in the order of setting. */
  ghost predicate InTurn(fired: seq<Firing>) {
    forall i, j | 0 <= i < j < |fired| ::
      if fired[i].OfTimeout? == fired[j].OfTimeout? then fired[i].id < fired[j].id else fired[i].OfTimeout?
  }

  // ---- Legal histories

  /** A timeout was set to be due then. */
  ghost predicate SetFor(log: Log, id: Id, due: Time) {
    exists e :: e in log && e.TimeoutSet? && e.id == id && e.due == due
  }

  /** A delay is waited for if it is a positive number; any other argument means no wait. */
  predicate IsWait(asked: Option<Time>, wait: Time) {
    wait == if asked.Some? && asked.value > 0.0 then asked.value else 0.0
  }

  /**
   A timeout may fire if it was set before the pump under way began, was due when it
   began, and has neither fired nor been cleared.
   */
  ghost predicate TimeoutMayFire(log: Log, id: Id, at: Time) {
    && (exists due :: SetFor(BeforePump(log), id, due) && due <= PumpTime(log))
    && PumpTime(log) <= at
    && Fires(log, id) == 0 && Clears(log, id) == 0
  }

  /** An interval may fire, once per pump, if the due time it had when the pump began was past. */
  ghost predicate IntervalMayFire(log: Log, id: Id, at: Time) {
    && LastArmed(BeforePump(log), id).Some? && LastArmed(BeforePump(log), id).value <= PumpTime(log)
    && PumpTime(log) <= at
    && IntervalClears(log, id) == 0 && FiresThisPump(log, id) == 0
  }

  ghost predicate MayHappen(log: Log, e: Event) {
    match e
    case TimeoutFired(id, at) => TimeoutMayFire(log, id, at)
    case IntervalFired(id, at) => IntervalMayFire(log, id, at)
    // Identifiers are new, and an interval is armed anew only after it fired in the same pump.
    case TimeoutSet(id, due, at, asked) => Sets(log, id) == 0 && IsWait(asked, due - at)
    case IntervalSet(id, due, at, asked) => LastArmed(log, id).None? && IsWait(asked, due - at)
    case IntervalRearmed(id, due, at) => FiresThisPump(log, id) == 1 && WaitOf(log, id) == Some(due - at)
    case _ => true
  }

  ghost predicate Legal(log: Log) {
    forall i | 0 <= i < |log| :: MayHappen(log[..i], log[i])
  }

  lemma AppendLegal(log: Log, e: Event)
    requires Legal(log) && MayHappen(log, e)
    ensures Legal(log + [e])
  {
    var longer := log + [e];
    forall i | 0 <= i < |longer| ensures MayHappen(longer[..i], longer[i]) {
      assert longer[..i] == log[..i];
      if i == |log| {
        assert log[..i] == log;
      }
    }
  }

  lemma AppendCounts(log: Log, e: Event, id: Id)
    ensures Sets(log + [e], id) == Sets(log, id) + if e.TimeoutSet? && e.id == id then 1 else 0
    ensures Fires(log + [e], id) == Fires(log, id) + if e.TimeoutFired? && e.id == id then 1 else 0
    ensures Clears(log + [e], id) == Clears(log, id) + if e == TimeoutCleared(id) then 1 else 0
    ensures IntervalSets(log + [e], id) == IntervalSets(log, id) + if e.IntervalSet? && e.id == id then 1 else 0
    ensures IntervalClears(log + [e], id) == IntervalClears(log, id) + if e == IntervalCleared(id) then 1 else 0
  {
    assert (log + [e])[..|log|] == log;
  }

  lemma AppendPump(log: Log, e: Event)
    requires !e.PumpBegan?
    ensures BeforePump(log + [e]) == BeforePump(log) && PumpTime(log + [e]) == PumpTime(log)
    ensures forall id: Id :: FiresThisPump(log + [e], id) ==
              FiresThisPump(log, id) + if e.IntervalFired? && e.id == id then 1 else 0
  {
    assert (log + [e])[..|log|] == log;
  }

  lemma AppendArmed(log: Log, e: Event, id: Id)
    ensures LastArmed(log + [e], id) == if Arms(e, id) then Some(e.due) else LastArmed(log, id)
  {
    assert (log + [e])[..|log|] == log;
  }

  lemma AppendWait(log: Log, e: Event, id: Id)
    ensures WaitOf(log + [e], id) == if e.IntervalSet? && e.id == id then Some(e.due - e.at) else WaitOf(log, id)
  {
    assert (log + [e])[..|log|] == log;
  }

  lemma AppendFirings(log: Log, e: Event)
    requires !e.PumpBegan?
    ensures Firings(log + [e]) ==
            Firings(log) + if e.TimeoutFired? then [OfTimeout(e.id)] else if e.IntervalFired? then [OfInterval(e.id)] else []
  {
    assert (log + [e])[..|log|] == log;
  }

  lemma BeginPump(log: Log, at: Time)
    ensures BeforePump(log + [PumpBegan(at)]) == log && PumpTime(log + [PumpBegan(at)]) == at
    ensures forall id: Id :: FiresThisPump(log + [PumpBegan(at)], id) == 0
    ensures Firings(log + [PumpBegan(at)]) == []
  {
    assert (log + [PumpBegan(at)])[..|log|] == log;
  }

  // ---- Timers and their history

  datatype Timeout = Timeout(due: Time)
  datatype Interval = Interval(due: Time, delay: Time)

  /** What is pending under one identifier. */
  datatype Pending = Pending(timeout: Option<Timeout>, interval: Option<Interval>)

  function Count<T>(o: Option<T>): nat {
    if o.Some? then 1 else 0
  }

  /**
   The history of one identifier agrees with what is pending under it. A timeout that
   was set is pending, has fired or was cleared, exactly one of these and exactly once;
   an interval that was set is pending or was cleared; and what is pending carries the
   due time it was last given, an interval also its wait.
   */
  ghost predicate Agrees(log: Log, nextId: Id, p: Pending, id: Id) {
    && Sets(log, id) <= 1 && IntervalSets(log, id) <= 1
    && Sets(log, id) == Count(p.timeout) + Fires(log, id) + Clears(log, id)
    && IntervalSets(log, id) == Count(p.interval) + IntervalClears(log, id)
    && (p.timeout.Some? ==> SetFor(log, id, p.timeout.value.due))
    && (p.interval.Some? ==> LastArmed(log, id) == Some(p.interval.value.due) && WaitOf(log, id) == Some(p.interval.value.delay))
    && (id >= nextId ==> Sets(log, id) == 0 && IntervalSets(log, id) == 0 && LastArmed(log, id).None?)
  }

  datatype Wheel = Wheel(log: Log, nextId: Id, timeouts: map<Id, Timeout>, intervals: map<Id, Interval>, clock: Time) {
    function PendingOf(id: Id): Pending {
      Pending(if id in timeouts then Some(timeouts[id]) else None, if id in intervals then Some(intervals[id]) else None)
    }
  }

  ghost predicate Sound(w: Wheel) {
    && Legal(w.log) && PumpTime(w.log) <= w.clock
    && forall id: Id :: Agrees(w.log, w.nextId, w.PendingOf(id), id)
  }

  // ---- Single steps

  /** How an event changes what is pending under one identifier. */
  predicate Follows(e: Event, id: Id, nextId: Id, before: Pending, after: Pending) {
    match e
    case TimeoutSet(i, due, _, _) =>
      if i == id then id >= nextId && before.timeout.None? && after == before.(timeout := Some(Timeout(due)))
      else after == before
    case IntervalSet(i, due, at, _) =>
      if i == id then id >= nextId && before.interval.None? && after == before.(interval := Some(Interval(due, due - at)))
      else after == before
    case TimeoutCleared(i) => if i == id then before.timeout.Some? && after == before.(timeout := None) else after == before
    case TimeoutFired(i, _) => if i == id then before.timeout.Some? && after == before.(timeout := None) else after == before
    case IntervalCleared(i) => if i == id then before.interval.Some? && after == before.(interval := None) else after == before
    case IntervalRearmed(i, due, at) =>
      if i == id then before.interval.Some? && after == before.(interval := Some(Interval(due, before.interval.value.delay)))
      else after == before
    case _ => after == before
  }

  lemma AppendAgrees(log: Log, e: Event, id: Id, nextId: Id, before: Pending, later: Id, after: Pending)
    requires Agrees(log, nextId, before, id) && Follows(e, id, nextId, before, after)
    requires nextId <= later && (e.TimeoutSet? || e.IntervalSet? ==> e.id < later)
    ensures Agrees(log + [e], later, after, id)
  {
    AppendCounts(log, e, id);
    AppendArmed(log, e, id);
    AppendWait(log, e, id);
    if before.timeout.Some? {
      StillSet(log, e, id, before.timeout.value.due);
    }
    if e.TimeoutSet? && e.id == id {
      JustSet(log, e);
    }
    hide Sets, Fires, Clears, IntervalSets, IntervalClears, LastArmed, WaitOf, SetFor;
    if e.IntervalRearmed? && e.id == id {
      assert id < nextId;
    }
  }

  lemma StillSet(log: Log, e: Event, id: Id, due: Time)
    requires SetFor(log, id, due)
    ensures SetFor(log + [e], id, due)
  {
    var x :| x in log && x.TimeoutSet? && x.id == id && x.due == due;
    assert x in log + [e];
  }

  lemma JustSet(log: Log, e: Event)
    requires e.TimeoutSet?
    ensures SetFor(log + [e], e.id, e.due)
  {
    assert e in log + [e];
  }

  lemma StepSound(w: Wheel, e: Event, after: Wheel)
    requires Sound(w) && after.log == w.log + [e] && MayHappen(w.log, e) && PumpTime(after.log) <= after.clock
    requires w.nextId <= after.nextId && (e.TimeoutSet? || e.IntervalSet? ==> e.id < after.nextId)
    requires forall id: Id :: Follows(e, id, w.nextId, w.PendingOf(id), after.PendingOf(id))
    ensures Sound(after)
  {
    AppendLegal(w.log, e);
    hide Agrees, Follows, Wheel.PendingOf, PumpTime, Legal;
    forall id: Id ensures Agrees(after.log, after.nextId, after.PendingOf(id), id) {
      AppendAgrees(w.log, e, id, w.nextId, w.PendingOf(id), after.nextId, after.PendingOf(id));
    }
  }

  lemma AppendFires(log: Log, e: Event)
    ensures forall id: Id :: Fires(log + [e], id) == Fires(log, id) + if e.TimeoutFired? && e.id == id then 1 else 0
  {
    forall id: Id ensures Fires(log + [e], id) == Fires(log, id) + if e.TimeoutFired? && e.id == id then 1 else 0 {
      AppendCounts(log, e, id);
    }
  }

  /** Steps by name, each with the event it leaves in the history. */
  function SetTimeout(w: Wheel, asked: Option<Time>, delay: Time): Wheel {
    var due := w.clock + delay;
    w.(log := w.log + [TimeoutSet(w.nextId, due, w.clock, asked)], nextId := w.nextId + 1,
       timeouts := w.timeouts[w.nextId := Timeout(due)])
  }

  function SetInterval(w: Wheel, asked: Option<Time>, delay: Time): Wheel {
    var due := w.clock + delay;
    w.(log := w.log + [IntervalSet(w.nextId, due, w.clock, asked)], nextId := w.nextId + 1,
       intervals := w.intervals[w.nextId := Interval(due, delay)])
  }

  function ClearTimeout(w: Wheel, id: Id): Wheel {
    if id !in w.timeouts then w
    else w.(log := w.log + [TimeoutCleared(id)], timeouts := w.timeouts - {id})
  }

  function ClearInterval(w: Wheel, id: Id): Wheel {
    if id !in w.intervals then w
    else w.(log := w.log + [IntervalCleared(id)], intervals := w.intervals - {id})
  }

  function FireTimeout(w: Wheel, id: Id): Wheel {
    w.(log := w.log + [TimeoutFired(id, w.clock)], timeouts := w.timeouts - {id})
  }

  function FireInterval(w: Wheel, id: Id): Wheel {
    w.(log := w.log + [IntervalFired(id, w.clock)])
  }

  function Rearm(w: Wheel, id: Id): Wheel
    requires id in w.intervals
  {
    var due := w.clock + w.intervals[id].delay;
    w.(log := w.log + [IntervalRearmed(id, due, w.clock)],
       intervals := w.intervals[id := Interval(due, w.intervals[id].delay)])
  }

  function Begin(w: Wheel): Wheel {
    w.(log := w.log + [PumpBegan(w.clock)])
  }

  /** What soundness says of one identifier. */
  lemma SoundAt(w: Wheel, id: Id)
    requires Sound(w)
    ensures Agrees(w.log, w.nextId, w.PendingOf(id), id)
  {
    hide Agrees, Legal;
  }

  /** The next identifier is not pending and has no history. */
  lemma NextIsNew(w: Wheel)
    requires Sound(w)
    ensures w.PendingOf(w.nextId) == Pending(None, None)
    ensures Sets(w.log, w.nextId) == 0 && LastArmed(w.log, w.nextId).None?
  {
    SoundAt(w, w.nextId);
    hide Sound, Sets, Fires, Clears, IntervalSets, IntervalClears, LastArmed, WaitOf, SetFor;
  }

  lemma SetTimeoutFollows(w: Wheel, asked: Option<Time>, delay: Time, i: Id)
    requires Sound(w)
    ensures Follows(TimeoutSet(w.nextId, w.clock + delay, w.clock, asked), i, w.nextId,
                    w.PendingOf(i), SetTimeout(w, asked, delay).PendingOf(i))
  {
    NextIsNew(w);
    hide Sound;
  }

  lemma SetTimeoutSound(w: Wheel, asked: Option<Time>, delay: Time)
    requires Sound(w) && IsWait(asked, delay)
    ensures Sound(SetTimeout(w, asked, delay))
  {
    var e, after := TimeoutSet(w.nextId, w.clock + delay, w.clock, asked), SetTimeout(w, asked, delay);
    assert e.due - e.at == delay;
    NextIsNew(w);
    AppendPump(w.log, e);
    hide Agrees, Legal, PumpTime, Sets, Follows, Wheel.PendingOf;
    forall i: Id ensures Follows(e, i, w.nextId, w.PendingOf(i), after.PendingOf(i)) {
      SetTimeoutFollows(w, asked, delay, i);
    }
    StepSound(w, e, after);
  }

  lemma SetIntervalFollows(w: Wheel, asked: Option<Time>, delay: Time, i: Id)
    requires Sound(w)
    ensures Follows(IntervalSet(w.nextId, w.clock + delay, w.clock, asked), i, w.nextId,
                    w.PendingOf(i), SetInterval(w, asked, delay).PendingOf(i))
  {
    NextIsNew(w);
    hide Sound;
  }

  lemma SetIntervalSound(w: Wheel, asked: Option<Time>, delay: Time)
    requires Sound(w) && IsWait(asked, delay)
    ensures Sound(SetInterval(w, asked, delay))
  {
    var e, after := IntervalSet(w.nextId, w.clock + delay, w.clock, asked), SetInterval(w, asked, delay);
    assert e.due - e.at == delay;
    NextIsNew(w);
    AppendPump(w.log, e);
    hide Agrees, Legal, PumpTime, LastArmed, Follows, Wheel.PendingOf;
    forall i: Id ensures Follows(e, i, w.nextId, w.PendingOf(i), after.PendingOf(i)) {
      SetIntervalFollows(w, asked, delay, i);
    }
    StepSound(w, e, after);
  }

  lemma ClearTimeoutSound(w: Wheel, id: Id)
    requires Sound(w)
    ensures Sound(ClearTimeout(w, id))
  {
    if id in w.timeouts {
      AppendPump(w.log, TimeoutCleared(id));
      hide Agrees, Legal, PumpTime;
      StepSound(w, TimeoutCleared(id), ClearTimeout(w, id));
    }
  }

  lemma ClearIntervalSound(w: Wheel, id: Id)
    requires Sound(w)
    ensures Sound(ClearInterval(w, id))
  {
    if id in w.intervals {
      AppendPump(w.log, IntervalCleared(id));
      hide Agrees, Legal, PumpTime;
      StepSound(w, IntervalCleared(id), ClearInterval(w, id));
    }
  }

  /** A pending timeout has neither fired nor been cleared, a pending interval was not cleared. */
  lemma PendingIsOpen(w: Wheel, id: Id)
    requires Sound(w)
    ensures id in w.timeouts ==> Fires(w.log, id) == 0 && Clears(w.log, id) == 0
    ensures id in w.intervals ==> IntervalClears(w.log, id) == 0
    ensures id in w.timeouts || id in w.intervals ==> id < w.nextId
    ensures id in w.intervals ==> WaitOf(w.log, id) == Some(w.intervals[id].delay)
  {
    SoundAt(w, id);
    hide Sound, Sets, Fires, Clears, IntervalSets, IntervalClears, LastArmed, WaitOf, SetFor;
  }

  lemma FireTimeoutSound(w: Wheel, id: Id, due: Time)
    requires Sound(w) && id in w.timeouts
    requires SetFor(BeforePump(w.log), id, due) && due <= PumpTime(w.log)
    ensures Sound(FireTimeout(w, id))
  {
    var e := TimeoutFired(id, w.clock);
    PendingIsOpen(w, id);
    AppendPump(w.log, e);
    hide Agrees, Legal, PumpTime, BeforePump, Fires, Clears;
    StepSound(w, e, FireTimeout(w, id));
  }

  lemma FireIntervalSound(w: Wheel, id: Id)
    requires Sound(w) && id in w.intervals && FiresThisPump(w.log, id) == 0
    requires LastArmed(BeforePump(w.log), id).Some? && LastArmed(BeforePump(w.log), id).value <= PumpTime(w.log)
    ensures Sound(FireInterval(w, id))
  {
    var e := IntervalFired(id, w.clock);
    PendingIsOpen(w, id);
    AppendPump(w.log, e);
    hide Agrees, Legal, PumpTime, BeforePump, IntervalClears, FiresThisPump, LastArmed;
    StepSound(w, e, FireInterval(w, id));
  }

  lemma RearmFollows(w: Wheel, id: Id, i: Id)
    requires id in w.intervals
    ensures Follows(IntervalRearmed(id, w.clock + w.intervals[id].delay, w.clock), i, w.nextId,
                    w.PendingOf(i), Rearm(w, id).PendingOf(i))
  {
  }

  lemma RearmSound(w: Wheel, id: Id)
    requires Sound(w) && id in w.intervals && FiresThisPump(w.log, id) == 1
    ensures Sound(Rearm(w, id))
  {
    var e := IntervalRearmed(id, w.clock + w.intervals[id].delay, w.clock);
    PendingIsOpen(w, id);
    assert e.due - e.at == w.intervals[id].delay;
    AppendPump(w.log, e);
    hide Agrees, Legal, PumpTime, FiresThisPump, Follows, Wheel.PendingOf;
    forall i: Id ensures Follows(e, i, w.nextId, w.PendingOf(i), Rearm(w, id).PendingOf(i)) {
      RearmFollows(w, id, i);
    }
    StepSound(w, e, Rearm(w, id));
  }

  lemma BeginSound(w: Wheel)
    requires Sound(w)
    ensures Sound(Begin(w)) && BeforePump(Begin(w).log) == w.log && PumpTime(Begin(w).log) == w.clock
  {
    BeginPump(w.log, w.clock);
    hide Agrees, Legal, PumpTime, BeforePump;
    StepSound(w, PumpBegan(w.clock), Begin(w));
  }

  /** Time may pass between events. */
  lemma ElapseSound(w: Wheel, later: Time)
    requires Sound(w) && w.clock <= later
    ensures Sound(w.(clock := later))
  {
    hide Agrees, Legal, PumpTime;
    forall id: Id ensures Agrees(w.log, w.nextId, w.(clock := later).PendingOf(id), id) {
      SoundAt(w, id);
    }
  }

  // ---- What a legal history means, by position

  lemma {:induction false} CountZero(log: Log, id: Id, k: nat)
    requires k < |log|
    ensures Fires(log, id) == 0 ==> !(log[k].TimeoutFired? && log[k].id == id)
    ensures Clears(log, id) == 0 ==> log[k] != TimeoutCleared(id)
    ensures IntervalClears(log, id) == 0 ==> log[k] != IntervalCleared(id)
  {
    if k < |log| - 1 {
      CountZero(log[..|log| - 1], id, k);
    }
  }

  /** The latest pump, when there is one. */
  lemma {:induction false} LatestPump(log: Log) returns (p: nat)
    requires BeforePump(log) != [] || exists i :: 0 <= i < |log| && log[i].PumpBegan?
    ensures p < |log| && log[p].PumpBegan? && BeforePump(log) == log[..p] && PumpTime(log) == log[p].at
    ensures forall i | p < i < |log| :: !log[i].PumpBegan?
    ensures forall id: Id :: FiresThisPump(log, id) == 0 ==>
              forall i | p < i < |log| :: !(log[i].IntervalFired? && log[i].id == id)
  {
    var n := |log| - 1;
    if log[n].PumpBegan? {
      p := n;
    } else {
      var rest := log[..n];
      if i :| 0 <= i < |log| && log[i].PumpBegan? {
        assert rest[i].PumpBegan?;
      }
      p := LatestPump(rest);
      assert rest[..p] == log[..p];
    }
  }

  lemma NotSetAgain(log: Log, j: nat, k: nat)
    requires Legal(log) && j < k < |log|
    ensures !(log[j].TimeoutSet? && log[k].TimeoutSet? && log[k].id == log[j].id)
  {
    if log[j].TimeoutSet? {
      SetCounts(log[..k], j);
    }
    assert MayHappen(log[..k], log[k]);
  }

  lemma SetOnce(log: Log, j: nat)
    requires Legal(log) && j < |log| && log[j].TimeoutSet?
    ensures forall k | 0 <= k < |log| && k != j :: !(log[k].TimeoutSet? && log[k].id == log[j].id)
  {
    hide Legal;
    forall k | 0 <= k < |log| && k != j ensures !(log[k].TimeoutSet? && log[k].id == log[j].id) {
      if k < j {
        NotSetAgain(log, k, j);
      } else {
        NotSetAgain(log, j, k);
      }
    }
  }

  /**
   A timeout that fires was set, once, before the pump that runs it began and was due by
   then; it fires no earlier than that, and never after having fired or been cleared. If
   a positive delay was asked for, that much time has passed since it was set.
   */
  lemma TimeoutsFireInTime(log: Log, i: nat) returns (j: nat, p: nat)
    requires Legal(log) && i < |log| && log[i].TimeoutFired?
    ensures j < p < i && log[j].TimeoutSet? && log[j].id == log[i].id
    ensures forall k | 0 <= k < |log| && k != j :: !(log[k].TimeoutSet? && log[k].id == log[i].id)
    ensures log[p].PumpBegan? && (forall k | p < k < i :: !log[k].PumpBegan?)
    ensures log[j].due <= log[p].at <= log[i].at
    ensures if log[j].asked.Some? && log[j].asked.value > 0.0 then log[j].due == log[j].at + log[j].asked.value
            else log[j].due == log[j].at
    ensures log[j].asked.Some? ==> log[p].at >= log[j].at + log[j].asked.value
    ensures forall k | 0 <= k < i :: log[k] != TimeoutCleared(log[i].id)
    ensures forall k | 0 <= k < i :: !(log[k].TimeoutFired? && log[k].id == log[i].id)
  {
    var before, id := log[..i], log[i].id;
    assert MayHappen(before, log[i]);
    var due :| SetFor(BeforePump(before), id, due) && due <= PumpTime(before);
    p := LatestPump(before);
    var e :| e in BeforePump(before) && e.TimeoutSet? && e.id == id && e.due == due;
    j :| 0 <= j < p && before[..p][j] == e;
    SetOnce(log, j);
    assert MayHappen(log[..j], log[j]);
    forall k | 0 <= k < i
      ensures log[k] != TimeoutCleared(id) && !(log[k].TimeoutFired? && log[k].id == id)
    {
      CountZero(before, id, k);
      assert before[k] == log[k];
    }
    forall k | p < k < i ensures !log[k].PumpBegan? {
      assert before[k] == log[k];
    }
  }

  lemma {:induction false} LatestArming(log: Log, id: Id) returns (j: nat)
    requires LastArmed(log, id).Some?
    ensures j < |log| && Arms(log[j], id) && LastArmed(log, id) == Some(log[j].due)
    ensures forall k | j < k < |log| :: !Arms(log[k], id)
  {
    j := |log| - 1;
    if !Arms(log[j], id) {
      j := LatestArming(log[..j], id);
    }
  }

  lemma {:induction false} ArmedOnce(log: Log, id: Id, j: nat)
    requires j < |log| && Arms(log[j], id)
    ensures LastArmed(log, id).Some?
  {
    if j < |log| - 1 {
      ArmedOnce(log[..|log| - 1], id, j);
    }
  }

  lemma {:induction false} NotFiredSince(log: Log, id: Id, p: nat)
    requires p < |log| && log[p].PumpBegan?
    requires forall m | p < m < |log| :: !(log[m].IntervalFired? && log[m].id == id)
    ensures FiresThisPump(log, id) == 0
  {
    if p < |log| - 1 && !log[|log| - 1].PumpBegan? {
      NotFiredSince(log[..|log| - 1], id, p);
    }
  }

  /** Between the beginning of a pump and an interval's firing in it nothing arms the interval. */
  lemma NotArmedMeanwhile(log: Log, id: Id, j: nat, p: nat, i: nat, k: nat)
    requires Legal(log) && j < p < k < i < |log| && Arms(log[j], id) && log[p].PumpBegan?
    requires forall m | p < m < i :: !(log[m].IntervalFired? && log[m].id == id)
    ensures !Arms(log[k], id)
  {
    ArmedOnce(log[..k], id, j);
    NotFiredSince(log[..k], id, p);
    assert MayHappen(log[..k], log[k]);
  }

  lemma {:induction false} WaitIsSet(log: Log, id: Id) returns (s: nat)
    requires WaitOf(log, id).Some?
    ensures s < |log| && log[s].IntervalSet? && log[s].id == id && WaitOf(log, id) == Some(log[s].due - log[s].at)
  {
    s := |log| - 1;
    if !(log[s].IntervalSet? && log[s].id == id) {
      s := WaitIsSet(log[..s], id);
    }
  }

  /** An interval is armed for the wait asked for when it was set. */
  lemma ArmingSet(log: Log, j: nat, id: Id) returns (s: nat)
    requires Legal(log) && j < |log| && Arms(log[j], id)
    ensures s <= j && log[s].IntervalSet? && log[s].id == id && IsWait(log[s].asked, log[j].due - log[j].at)
  {
    assert MayHappen(log[..j], log[j]);
    if log[j].IntervalSet? {
      s := j;
    } else {
      s := WaitIsSet(log[..j], id);
      assert log[..j][s] == log[s] && log[..j][..s] == log[..s];
      assert MayHappen(log[..s], log[s]);
    }
  }

  /**
   The same for intervals, which may fire again, but only in a later pump: what counts
   is the due time an interval was last given, and it was given before the pump began.
   The delay asked for when it was set, at `s`, counts from there, or from when it was
   last armed anew.
   */
  lemma IntervalsFireInTime(log: Log, i: nat) returns (s: nat, j: nat, p: nat)
    requires Legal(log) && i < |log| && log[i].IntervalFired?
    ensures j < p < i && Arms(log[j], log[i].id) && (forall k | j < k < i :: !Arms(log[k], log[i].id))
    ensures log[p].PumpBegan? && (forall k | p < k < i :: !log[k].PumpBegan?)
    ensures log[j].due <= log[p].at <= log[i].at
    ensures s <= j && log[s].IntervalSet? && log[s].id == log[i].id
    ensures if log[s].asked.Some? && log[s].asked.value > 0.0 then log[j].due == log[j].at + log[s].asked.value
            else log[j].due == log[j].at
    ensures log[s].asked.Some? ==> log[p].at >= log[j].at + log[s].asked.value
    ensures forall k | 0 <= k < i :: log[k] != IntervalCleared(log[i].id)
    ensures forall k | p < k < i :: !(log[k].IntervalFired? && log[k].id == log[i].id)
  {
    var before, id := log[..i], log[i].id;
    assert MayHappen(before, log[i]);
    p := LatestPump(before);
    j := LatestArming(before[..p], id);
    assert Arms(log[j], id);
    s := ArmingSet(log, j, id);
    forall k | 0 <= k < i ensures log[k] != IntervalCleared(id) {
      CountZero(before, id, k);
      assert before[k] == log[k];
    }
    forall k | p < k < i ensures !log[k].PumpBegan? && !(log[k].IntervalFired? && log[k].id == id) {
      assert before[k] == log[k];
    }
    forall k | j < k < i ensures !Arms(log[k], id) {
      if k < p {
        assert before[..p][k] == log[k];
      } else if k > p {
        NotArmedMeanwhile(log, id, j, p, i, k);
      }
    }
  }

  /** Every timeout that was set has exactly one fate: pending, fired once or cleared once. */
  lemma ExactlyOneFate(w: Wheel, i: nat)
    requires Sound(w) && i < |w.log| && w.log[i].TimeoutSet?
    ensures var id := w.log[i].id;
            && (id in w.timeouts ==> Fires(w.log, id) == 0 && Clears(w.log, id) == 0)
            && (id !in w.timeouts ==> Fires(w.log, id) + Clears(w.log, id) == 1)
  {
    SetCounts(w.log, i);
    SoundAt(w, w.log[i].id);
    hide Sound, Sets, Fires, Clears, IntervalSets, IntervalClears, LastArmed, WaitOf, SetFor;
  }

  lemma {:induction false} SetCounts(log: Log, i: nat)
    requires i < |log| && log[i].TimeoutSet?
    ensures Sets(log, log[i].id) >= 1
  {
    if i < |log| - 1 {
      SetCounts(log[..|log| - 1], i);
    }
  }
}
