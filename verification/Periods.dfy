/** The periodic queue over time (external/oslib/kl/event.c): every wake-up moves the clock on
    by one period, and calls the events whose time has come. */
module Periods {
  import opened Events
  import opened WakeUps
  import opened WakeUpRuns
  import opened EventPool

  /** What the queue goes through: calls from outside the handlers, and wake-ups with what the
      handlers called then do. */
  datatype Step = Ask(a: Action) | Tick(script: seq<seq<Action>>)

  /** The clock after a step. */
  function Clock(now: TimeSpec, nts: nat, s: Step): TimeSpec {
    if s.Tick? then AddNano(nts, now) else now
  }

  /** The queue after a step, the clock then being t. */
  function Move(q: Queue, t: TimeSpec, s: Step): Queue {
    match s
    case Ask(a) => Act(q, a)
    case Tick(script) => var r := WakeUp(q, t, script); if r.Done? then r.q else q
  }

  function After(q: Queue, now: TimeSpec, nts: nat, steps: seq<Step>): (Queue, TimeSpec)
    decreases |steps|
  {
    if steps == [] then (q, now)
    else var t := Clock(now, nts, steps[0]); After(Move(q, t, steps[0]), t, nts, steps[1..])
  }

  function Ticks(steps: seq<Step>): nat {
    if steps == [] then 0 else Ticks(steps[1..]) + if steps[0].Tick? then 1 else 0
  }

  /** The nanoseconds of k periods. */
  function Span(k: nat, nts: nat): nat {
    if k == 0 then 0 else Span(k - 1, nts) + nts
  }

  lemma {:induction false} SpanIs(k: nat, nts: nat)
    ensures Span(k, nts) == k * nts
  {
    if k > 0 {
      SpanIs(k - 1, nts);
    }
  }

  /** The clock shows k periods more than start. */
  ghost predicate InStep(start: int, t: TimeSpec, nts: nat, k: nat) {
    Normal(t) && Nanos(t) == start + Span(k, nts)
  }

  lemma ClockMoves(now: TimeSpec, nts: nat, s: Step)
    requires Normal(now)
    ensures Normal(Clock(now, nts, s)) && Nanos(Clock(now, nts, s)) == Nanos(now) + if s.Tick? then nts else 0
  {
    AddNanoAdds(nts, now);
  }

  lemma InStepMore(start: int, t: TimeSpec, nts: nat, k: nat, tick: bool, k': nat)
    requires InStep(start + (if tick then nts else 0), t, nts, k) && k' == k + if tick then 1 else 0
    ensures InStep(start, t, nts, k')
  {
    assert Span(k + 1, nts) == Span(k, nts) + nts;
  }

  /** k wake-ups take k periods. */
  lemma {:induction false} ClockCounts(q: Queue, now: TimeSpec, nts: nat, steps: seq<Step>)
    requires Normal(now)
    ensures InStep(Nanos(now), After(q, now, nts, steps).1, nts, Ticks(steps))
    decreases |steps|
  {
    if steps != [] {
      var s, t, rest := steps[0], Clock(now, nts, steps[0]), steps[1..];
      ClockMoves(now, nts, s);
      ClockCounts(Move(q, t, s), t, nts, rest);
      InStepMore(Nanos(now), After(Move(q, t, s), t, nts, rest).1, nts, Ticks(rest), s.Tick?, Ticks(steps));
    }
  }

  // ----- when an event is called

  /** No handler posts for a time that has come or deletes a due event, and nobody deletes the
      event with the given index. */
  ghost predicate Gentle(q: Queue, now: TimeSpec, nts: nat, steps: seq<Step>, index: int)
    decreases |steps|
  {
    steps == [] ||
    var t := Clock(now, nts, steps[0]);
    GentleStep(q, t, steps[0], index) && Gentle(Move(q, t, steps[0]), t, nts, steps[1..], index)
  }

  ghost predicate GentleStep(q: Queue, t: TimeSpec, s: Step, index: int) {
    match s
    case Ask(a) => a != Cancel(index)
    case Tick(script) => MildWakeUp(q, t, script) && AllSpare(script, index)
  }

  predicate Calls(q: Queue, t: TimeSpec, s: Step, e: Entry) {
    s.Tick? && var r := WakeUp(q, t, s.script); r.Done? && e in r.fired
  }

  /** The number of the first wake-up that calls e, or 0. */
  function CalledAt(q: Queue, now: TimeSpec, nts: nat, steps: seq<Step>, e: Entry): nat
    decreases |steps|
  {
    if steps == [] then 0
    else
      var t := Clock(now, nts, steps[0]);
      if Calls(q, t, steps[0], e) then 1
      else
        var n := CalledAt(Move(q, t, steps[0]), t, nts, steps[1..], e);
        if n == 0 then 0 else n + if steps[0].Tick? then 1 else 0
  }

  /** A gentle step calls a pending event if and only if its time has come, and otherwise keeps
      it pending. */
  lemma StepCalls(q: Queue, t: TimeSpec, s: Step, e: Entry)
    requires Wf(q) && e in q.pending && GentleStep(q, t, s, e.index)
    ensures Wf(Move(q, t, s)) && (s.Tick? ==> (Calls(q, t, s, e) <==> !Later(e.time, t)))
    ensures !Calls(q, t, s, e) ==> e in Move(q, t, s).pending
  {
    match s
    case Ask(a) =>
      ActSound(q, a);
      assert [a][1..] == [] && ActAll(q, [a]) == Act(q, a);
      StaysPending(q, [a], e);
    case Tick(script) =>
      WakeUpExact(q, t, script);
  }

  /** Wake-up n is the first one, of k, whose time is not before the event's; n is 0 if there is
      none. */
  ghost predicate FirstInTime(n: nat, k: nat, now: int, nts: nat, time: int) {
    if n == 0 then k > 0 ==> time > now + Span(k, nts)
    else n <= k && time <= now + Span(n, nts) && (n > 1 ==> time > now + Span(n - 1, nts))
  }

  lemma FirstInTimeStep(n: nat, n': nat, k: nat, k': nat, now: int, now': int, nts: nat, time: int,
                        tick: bool, calls: bool)
    requires now' == (if tick then now + nts else now) && k' == k + if tick then 1 else 0
    requires if calls then tick && time <= now' else FirstInTime(n, k, now', nts, time) && (tick ==> time > now')
    requires n' == if calls then 1 else if n == 0 then 0 else n + if tick then 1 else 0
    ensures FirstInTime(n', k', now, nts, time)
  {
    assert Span(k + 1, nts) == Span(k, nts) + nts && Span(n + 1, nts) == Span(n, nts) + nts;
    assert n > 0 ==> Span(n, nts) == Span(n - 1, nts) + nts;
  }

  /** A pending event is called by the first wake-up whose time is not before its own, and by
      none if there is no such wake-up. */
  lemma {:induction false} CalledOnTime(q: Queue, now: TimeSpec, nts: nat, steps: seq<Step>, e: Entry)
    requires Wf(q) && Normal(now) && Normal(e.time) && e in q.pending && Gentle(q, now, nts, steps, e.index)
    ensures FirstInTime(CalledAt(q, now, nts, steps, e), Ticks(steps), Nanos(now), nts, Nanos(e.time))
    decreases |steps|
  {
    if steps != [] {
      var s, t, rest := steps[0], Clock(now, nts, steps[0]), steps[1..];
      ClockMoves(now, nts, s);
      LaterIs(e.time, t);
      StepCalls(q, t, s, e);
      var calls, n := Calls(q, t, s, e), CalledAt(Move(q, t, s), t, nts, rest, e);
      if !calls {
        CalledOnTime(Move(q, t, s), t, nts, rest, e);
      }
      FirstInTimeStep(n, CalledAt(q, now, nts, steps, e), Ticks(rest), Ticks(steps), Nanos(now), Nanos(t),
                      nts, Nanos(e.time), s.Tick?, calls);
    }
  }

  // ----- the queue object over time

  /** No wake-up leads into the free list. */
  ghost predicate Steady(q: Queue, now: TimeSpec, nts: nat, steps: seq<Step>)
    decreases |steps|
  {
    steps == [] ||
    var t := Clock(now, nts, steps[0]);
    && (steps[0].Tick? ==> WakeUp(q, t, steps[0].script).Done?)
    && Steady(Move(q, t, steps[0]), t, nts, steps[1..])
  }

  lemma {:induction false} GentleIsSteady(q: Queue, now: TimeSpec, nts: nat, steps: seq<Step>, index: int)
    requires Wf(q) && Gentle(q, now, nts, steps, index)
    ensures Steady(q, now, nts, steps)
    decreases |steps|
  {
    if steps != [] {
      var s, t := steps[0], Clock(now, nts, steps[0]);
      if s.Tick? {
        MildFires(q, t, s.script);
      } else {
        ActSound(q, s.a);
      }
      GentleIsSteady(Move(q, t, s), t, nts, steps[1..], index);
    }
  }

  method TakeStep(m: EventQueue, s: Step) returns (called: seq<(int, int)>)
    requires m.Valid() && (s.Tick? ==> WakeUp(m.q, Clock(m.actTime, m.nts, s), s.script).Done?)
    modifies m, m.eventlist
    ensures m.Valid() && m.actTime == Clock(old(m.actTime), m.nts, s) && m.q == Move(old(m.q), m.actTime, s)
    ensures s.Tick? ==> called == EventPool.Calls(WakeUp(old(m.q), m.actTime, s.script).fired)
  {
    called := [];
    match s
    case Ask(a) => m.Perform(a);
    case Tick(script) => called := m.WakeUp(script);
  }

  /** Any steps of the queue object. */
  method Run(m: EventQueue, steps: seq<Step>)
    requires m.Valid() && Steady(m.q, m.actTime, m.nts, steps)
    modifies m, m.eventlist
    ensures m.Valid() && (m.q, m.actTime) == After(old(m.q), old(m.actTime), m.nts, steps)
    ensures Normal(old(m.actTime)) ==> InStep(Nanos(old(m.actTime)), m.actTime, m.nts, Ticks(steps))
    decreases |steps|
  {
    ghost var q, now := m.q, m.actTime;
    if steps != [] {
      var called := TakeStep(m, steps[0]);
      Run(m, steps[1..]);
    }
    if Normal(now) {
      ClockCounts(q, now, m.nts, steps);
    }
  }

  /** From the start: after any steps the object represents the queue they lead to, and its clock
      has run one period for each wake-up. */
  method RunFresh(ticksize: nat, steps: seq<Step>) returns (m: EventQueue)
    requires Steady(Fresh(), TimeSpec(0, 0), ticksize * 1000, steps)
    ensures m.Valid() && fresh(m) && m.nts == ticksize * 1000
    ensures (m.q, m.actTime) == After(Fresh(), TimeSpec(0, 0), m.nts, steps)
    ensures InStep(0, m.actTime, m.nts, Ticks(steps))
  {
    m := new EventQueue(ticksize);
    Run(m, steps);
  }
}
