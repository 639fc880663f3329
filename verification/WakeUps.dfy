/** One wake-up of the periodic queue (external/oslib/kl/event.c): the loop fires due
    events and goes on with a link it saved before the handler ran. What that does to
    the lists, for handlers that post and delete as they like. */
module WakeUps {
  import opened Events

  // ----- handlers

  /** What a handler does to the queue. */
  datatype Action = Request(time: TimeSpec, handler: int, par: int) | Cancel(index: int)

  function Act(q: Queue, a: Action): Queue {
    match a
    case Request(time, handler, par) => Post(q, time, handler, par)
    case Cancel(index) => Delete(q, index)
  }

  function ActAll(q: Queue, acts: seq<Action>): Queue
    decreases |acts|
  {
    if acts == [] then q else ActAll(Act(q, acts[0]), acts[1..])
  }

  /** The time field of entry p after the actions, t being the one before: only a post
      that takes the entry writes it. */
  function SlotTime(q: Queue, p: int, t: TimeSpec, acts: seq<Action>): TimeSpec
    decreases |acts|
  {
    if acts == [] then t
    else SlotTime(Act(q, acts[0]), p, SlotTimeOne(q, p, t, acts[0]), acts[1..])
  }

  function SlotTimeOne(q: Queue, p: int, t: TimeSpec, a: Action): TimeSpec {
    if a.Request? && q.free != [] && q.free[0] == p then a.time else t
  }

  /** The actions of the handler called first; a script lists those of the successive
      handler calls, and calls beyond its end do nothing. */
  function Head(script: seq<seq<Action>>): seq<Action> {
    if script == [] then [] else script[0]
  }

  function Tail(script: seq<seq<Action>>): seq<seq<Action>> {
    if script == [] then [] else script[1..]
  }

  // ----- the loop

  /** The stores before the handler call, for the entry at position c: it goes to the
      free list, and the pending list starts after it, whatever was in front of it. */
  function Take(q: Queue, c: nat): Queue
    requires c < |q.pending|
  {
    Queue([q.pending[c].index] + q.free, q.pending[c + 1..])
  }

  /** firstevent, or the link saved when the rest of the list is es. */
  function First(es: seq<Entry>): int {
    if es != [] then es[0].index else NULL
  }

  function FirstTime(es: seq<Entry>): TimeSpec {
    if es != [] then es[0].time else TimeSpec(0, 0)
  }

  /** Done has the queue left and the events fired, in order. Astray: the saved link leads
      to a due entry that is not pending any more; nothing is said of what follows. */
  datatype Outcome = Done(q: Queue, fired: seq<Entry>) | Astray

  function Before(e: Entry, r: Outcome): Outcome {
    if r.Done? then r.(fired := [e] + r.fired) else r
  }

  /** The loop from the entry p on, whose time field is t. */
  function WakeFrom(q: Queue, p: int, t: TimeSpec, now: TimeSpec, script: seq<seq<Action>>): Outcome
    decreases |script|, |q.pending|
  {
    if p == NULL || Later(t, now) then Done(q, [])
    else
      var c := Find(q.pending, p);
      if c == |q.pending| then Astray
      else
        var q1 := Take(q, c);
        var pp := First(q1.pending);
        var t' := SlotTime(q1, pp, FirstTime(q1.pending), Head(script));
        Before(q.pending[c], WakeFrom(ActAll(q1, Head(script)), pp, t', now, Tail(script)))
  }

  /** periodic_wake_up at time now, its queue part. */
  function WakeUp(q: Queue, now: TimeSpec, script: seq<seq<Action>>): Outcome {
    WakeFrom(q, First(q.pending), FirstTime(q.pending), now, script)
  }

  // ----- the lists stay sound

  lemma ActSound(q: Queue, a: Action)
    requires Sound(q)
    ensures Sound(Act(q, a)) && Members(Act(q, a)) == Members(q) && (Wf(Act(q, a)) <==> Wf(q))
  {
    match a
    case Request(time, handler, par) => PostWf(q, time, handler, par); PostMembers(q, time, handler, par);
    case Cancel(index) => DeleteWf(q, index); DeleteMembers(q, index);
  }

  lemma {:induction false} ActAllSound(q: Queue, acts: seq<Action>)
    requires Sound(q)
    ensures Sound(ActAll(q, acts)) && Members(ActAll(q, acts)) == Members(q) && (Wf(ActAll(q, acts)) <==> Wf(q))
    decreases |acts|
  {
    if acts != [] {
      ActSound(q, acts[0]);
      ActAllSound(Act(q, acts[0]), acts[1..]);
    }
  }

  /** What a turn drops is exactly what was in front of the entry taken. */
  lemma TakeMembers(q: Queue, c: nat)
    requires c < |q.pending|
    ensures Members(q) == Members(Take(q, c)) + multiset(Indices(q.pending[..c]))
  {
    var s, x := Indices(q.pending), q.pending[c].index;
    assert s == s[..c] + ([x] + s[c + 1..]);
    assert Indices(q.pending[..c]) == s[..c] && Indices(q.pending[c + 1..]) == s[c + 1..];
  }

  lemma TakeSound(q: Queue, c: nat)
    requires Sound(q) && c < |q.pending|
    ensures Sound(Take(q, c)) && Members(Take(q, c)) <= Members(q)
    ensures Wf(q) ==> (Wf(Take(q, c)) <==> c == 0)
  {
    TakeMembers(q, c);
    var lost, x := multiset(Indices(q.pending[..c])), q.pending[0].index;
    assert forall i: nat :: Members(q)[i] == Members(Take(q, c))[i] + lost[i];
    if c > 0 {
      assert Indices(q.pending[..c])[0] == x;
      assert lost[x] > 0;
    } else {
      assert lost == multiset{};
    }
  }

  /** Whatever the handlers do, short of going astray the lists stay acyclic, disjoint and
      sorted; entries may be lost, and none comes back. */
  lemma {:induction false} WakeFromSound(q: Queue, p: int, t: TimeSpec, now: TimeSpec, script: seq<seq<Action>>)
    requires Sound(q)
    ensures var r := WakeFrom(q, p, t, now, script);
            r.Done? ==> Sound(r.q) && Members(r.q) <= Members(q)
    decreases |script|, |q.pending|
  {
    var c := Find(q.pending, p);
    if p != NULL && !Later(t, now) && c < |q.pending| {
      var q1, acts := Take(q, c), Head(script);
      var pp := First(q1.pending);
      TakeSound(q, c);
      ActAllSound(q1, acts);
      WakeFromSound(ActAll(q1, acts), pp, SlotTime(q1, pp, FirstTime(q1.pending), acts), now, Tail(script));
    }
  }

  lemma LostForGood(q: Queue, q': Queue)
    requires Sound(q) && !Wf(q) && Members(q') <= Members(q)
    ensures !Wf(q')
  {
    var x: nat :| Members(q)[x] != if x < MAX_EVENT then 1 else 0;
    assert Members(q')[x] <= Members(q)[x];
  }

  // ----- when no entry is lost

  /** t is the time field of entry p as far as the pending list tells. */
  ghost predicate TimeOf(es: seq<Entry>, p: int, t: TimeSpec) {
    forall i :: 0 <= i < |es| && es[i].index == p ==> es[i].time == t
  }

  lemma SlotTimeOneIs(q: Queue, p: int, t: TimeSpec, a: Action)
    requires Sound(q) && TimeOf(q.pending, p, t)
    ensures TimeOf(Act(q, a).pending, p, SlotTimeOne(q, p, t, a))
  {
    if a.Request? && q.free != [] {
      var k, e := Place(q.pending, a.time), Entry(q.free[0], a.time, a.handler, a.par);
      NoSharing(q);
      assert q.free[0] in q.free;
      forall i | 0 <= i < |q.pending| ensures q.pending[i].index != q.free[0] {
        assert Indices(q.pending)[i] in Indices(q.pending);
      }
    }
  }

  lemma {:induction false} SlotTimeIs(q: Queue, p: int, t: TimeSpec, acts: seq<Action>)
    requires Sound(q) && TimeOf(q.pending, p, t)
    ensures TimeOf(ActAll(q, acts).pending, p, SlotTime(q, p, t, acts))
    decreases |acts|
  {
    if acts != [] {
      SlotTimeOneIs(q, p, t, acts[0]);
      ActSound(q, acts[0]);
      SlotTimeIs(Act(q, acts[0]), p, SlotTimeOne(q, p, t, acts[0]), acts[1..]);
    }
  }

  /** Whenever the loop goes on to a due entry, that entry is the first pending one. */
  ghost predicate InOrder(q: Queue, now: TimeSpec, script: seq<seq<Action>>)
    decreases |script|, |q.pending|
  {
    q.pending == [] || Later(q.pending[0].time, now) ||
    var q1, acts := Take(q, 0), Head(script);
    var pp, q2 := First(q1.pending), ActAll(q1, acts);
    || pp == NULL || Later(SlotTime(q1, pp, FirstTime(q1.pending), acts), now)
    || (First(q2.pending) == pp && InOrder(q2, now, Tail(script)))
  }

  lemma FirstTimeOf(q: Queue)
    requires Sound(q)
    ensures TimeOf(q.pending, First(q.pending), FirstTime(q.pending))
  {
    NoSharing(q);
    forall i | 0 <= i < |q.pending| && q.pending[i].index == First(q.pending)
      ensures q.pending[i].time == FirstTime(q.pending)
    {
      assert Indices(q.pending)[i] == Indices(q.pending)[0];
    }
  }

  /** The first turn: q2, pp and t' are the queue, the saved link and its time field after
      the handler has run. */
  lemma FirstTurn(q: Queue, q2: Queue, pp: int, t': TimeSpec, now: TimeSpec, script: seq<seq<Action>>)
    requires Sound(q) && q.pending != [] && !Later(q.pending[0].time, now)
    requires q2 == ActAll(Take(q, 0), Head(script)) && pp == First(q.pending[1..])
    requires t' == SlotTime(Take(q, 0), pp, FirstTime(q.pending[1..]), Head(script))
    ensures WakeUp(q, now, script) == Before(q.pending[0], WakeFrom(q2, pp, t', now, Tail(script)))
    ensures Sound(q2) && (Wf(q2) <==> Wf(q)) && TimeOf(q2.pending, pp, t')
  {
    var q1, acts := Take(q, 0), Head(script);
    assert Find(q.pending, q.pending[0].index) == 0;
    TakeSound(q, 0);
    TakeMembers(q, 0);
    assert Indices(q.pending[..0]) == [];
    ActAllSound(q1, acts);
    FirstTimeOf(q1);
    SlotTimeIs(q1, pp, FirstTime(q1.pending), acts);
  }

  /** A wake-up keeps every pool entry on one of the lists if and only if each due entry it
      goes on to is the first pending one. */
  lemma {:induction false} WakeUpWf(q: Queue, now: TimeSpec, script: seq<seq<Action>>)
    requires Wf(q)
    ensures var r := WakeUp(q, now, script);
            r.Done? && Wf(r.q) <==> InOrder(q, now, script)
    decreases |script|, |q.pending|
  {
    if q.pending != [] && !Later(q.pending[0].time, now) {
      var q1, acts := Take(q, 0), Head(script);
      var pp, q2 := First(q1.pending), ActAll(q1, acts);
      var t' := SlotTime(q1, pp, FirstTime(q1.pending), acts);
      FirstTurn(q, q2, pp, t', now, script);
      if pp == NULL || Later(t', now) {
        assert WakeFrom(q2, pp, t', now, Tail(script)) == Done(q2, []);
      } else {
        GoesOn(q2, pp, t', now, Tail(script));
        if First(q2.pending) == pp {
          WakeUpWf(q2, now, Tail(script));
        }
      }
    }
  }

  /** Going on from p: at the first entry that is a wake-up of what is left, and otherwise
      either astray or the loss of the entries in front of p. */
  lemma GoesOn(q: Queue, p: int, t: TimeSpec, now: TimeSpec, script: seq<seq<Action>>)
    requires Wf(q) && p != NULL && !Later(t, now) && TimeOf(q.pending, p, t)
    ensures First(q.pending) == p ==> WakeFrom(q, p, t, now, script) == WakeUp(q, now, script)
    ensures First(q.pending) != p ==>
              var r := WakeFrom(q, p, t, now, script); r.Done? ==> !Wf(r.q)
  {
    var c := Find(q.pending, p);
    if 0 < c < |q.pending| {
      var q1, acts := Take(q, c), Head(script);
      var pp, q2 := First(q1.pending), ActAll(q1, acts);
      TakeSound(q, c);
      ActAllSound(q1, acts);
      var t' := SlotTime(q1, pp, FirstTime(q1.pending), acts);
      WakeFromSound(q2, pp, t', now, Tail(script));
      var r := WakeFrom(q2, pp, t', now, Tail(script));
      if r.Done? {
        LostForGood(q1, r.q);
      }
    }
  }
}
