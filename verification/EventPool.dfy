/** The event pool of external/oslib/kl/event.c with its two linked lists, proved
    against the sequences of module Events. Links are pool indices. */
module EventPool {
  import opened Events
  import opened WakeUps

  datatype Slot = Slot(next: int, time: TimeSpec, handler: int, par: int, index: int)

  // ----- linked lists in the pool

  function Link(s: seq<nat>, i: nat): int {
    if i < |s| then s[i] else NULL
  }

  ghost predicate Chain(pool: seq<Slot>, head: int, s: seq<nat>) {
    && (forall i :: 0 <= i < |s| ==> s[i] < |pool|)
    && head == Link(s, 0)
    && forall i :: 0 <= i < |s| ==> pool[s[i]].next == Link(s, i + 1)
  }

  ghost predicate HoldsEntry(pool: seq<Slot>, e: Entry) {
    e.index < |pool| &&
    var x := pool[e.index]; x.time == e.time && x.handler == e.handler && x.par == e.par
  }

  ghost predicate Holds(pool: seq<Slot>, es: seq<Entry>) {
    forall i :: 0 <= i < |es| ==> HoldsEntry(pool, es[i])
  }

  ghost predicate Numbered(pool: seq<Slot>) {
    |pool| == MAX_EVENT && forall i :: 0 <= i < |pool| ==> pool[i].index == i
  }

  ghost predicate Represents(pool: seq<Slot>, free: int, first: int, q: Queue) {
    && Numbered(pool)
    && Chain(pool, free, q.free) && Chain(pool, first, Indices(q.pending))
    && Holds(pool, q.pending)
  }

  /** How far a walk along the list has come: p1 is at position k, t in front of it. */
  ghost predicate Reached(es: seq<Entry>, k: nat, t: int, p1: int) {
    k <= |es| && p1 == Link(Indices(es), k) && t == if k > 0 then es[k - 1].index else NULL
  }

  lemma WalkStep(pool: seq<Slot>, head: int, es: seq<Entry>, k: nat, t: int, p1: int)
    requires Chain(pool, head, Indices(es)) && Reached(es, k, t, p1) && p1 != NULL
    ensures 0 <= p1 < |pool| && k < |es| && es[k].index == p1 && Reached(es, k + 1, p1, pool[p1].next)
  {
    assert Indices(es)[k] == es[k].index;
  }

  /** The entry reached is that of the event, or the walk goes on. */
  lemma SearchStep(pool: seq<Slot>, head: int, es: seq<Entry>, k: nat, t: int, p1: int, index: int)
    requires Chain(pool, head, Indices(es)) && Numbered(pool) && Reached(es, k, t, p1) && k <= Find(es, index)
    ensures p1 != NULL ==> 0 <= p1 < |pool| && (pool[p1].index == index <==> k == Find(es, index))
    ensures p1 == NULL ==> k == Find(es, index)
  {
    if p1 != NULL {
      WalkStep(pool, head, es, k, t, p1);
    }
  }

  /** The entry reached is not earlier than the new event, or the walk goes on. */
  lemma PlaceStep(pool: seq<Slot>, head: int, es: seq<Entry>, k: nat, t: int, p1: int, time: TimeSpec)
    requires Chain(pool, head, Indices(es)) && Holds(pool, es) && Reached(es, k, t, p1) && k <= Place(es, time)
    ensures p1 != NULL ==> 0 <= p1 < |pool| && (Later(time, pool[p1].time) <==> k < Place(es, time))
    ensures p1 == NULL ==> k == Place(es, time)
  {
    if p1 != NULL {
      WalkStep(pool, head, es, k, t, p1);
      assert HoldsEntry(pool, es[k]);
    }
  }

  /** A chain survives changes elsewhere. */
  lemma ChainFrame(pool: seq<Slot>, pool': seq<Slot>, head: int, s: seq<nat>)
    requires Chain(pool, head, s) && |pool'| == |pool|
    requires forall i :: 0 <= i < |s| ==> pool'[s[i]].next == pool[s[i]].next
    ensures Chain(pool', head, s)
  {
  }

  lemma ChainTail(pool: seq<Slot>, head: int, s: seq<nat>)
    requires Chain(pool, head, s) && s != []
    ensures Chain(pool, pool[head].next, s[1..])
  {
    var t := s[1..];
    forall i | 0 <= i < |t| ensures pool[t[i]].next == Link(t, i + 1) {
      assert t[i] == s[i + 1];
    }
  }

  lemma ChainPush(pool: seq<Slot>, pool': seq<Slot>, head: int, s: seq<nat>, p: nat)
    requires Chain(pool, head, s) && |pool'| == |pool| && p < |pool| && p !in s
    requires pool'[p].next == head
    requires forall i :: 0 <= i < |s| ==> pool'[s[i]].next == pool[s[i]].next
    ensures Chain(pool', p, [p] + s)
  {
    var t := [p] + s;
    forall i | 0 <= i < |t| ensures pool'[t[i]].next == Link(t, i + 1) {
      assert i > 0 ==> t[i] == s[i - 1];
    }
  }

  /** Splicing p in front of position k. */
  lemma ChainInsert(pool: seq<Slot>, pool': seq<Slot>, head: int, s: seq<nat>, k: nat, p: nat)
    requires Chain(pool, head, s) && |pool'| == |pool| && k <= |s| && p < |pool| && p !in s
    requires pool'[p].next == Link(s, k)
    requires k > 0 ==> pool'[s[k - 1]].next == p
    requires forall i :: 0 <= i < |s| && i != k - 1 ==> pool'[s[i]].next == pool[s[i]].next
    ensures Chain(pool', if k == 0 then p else head, s[..k] + [p] + s[k..])
  {
    var t := s[..k] + [p] + s[k..];
    forall i | 0 <= i < |t| ensures pool'[t[i]].next == Link(t, i + 1) && t[i] < |pool'| {
      if i < k {
        assert t[i] == s[i];
      } else if i > k {
        assert t[i] == s[i - 1];
      }
    }
  }

  /** Unlinking position k. */
  lemma ChainRemove(pool: seq<Slot>, pool': seq<Slot>, head: int, s: seq<nat>, k: nat)
    requires Chain(pool, head, s) && |pool'| == |pool| && k < |s|
    requires k > 0 ==> pool'[s[k - 1]].next == Link(s, k + 1)
    requires forall i :: 0 <= i < |s| && i != k - 1 && i != k ==> pool'[s[i]].next == pool[s[i]].next
    ensures Chain(pool', if k == 0 then Link(s, 1) else head, s[..k] + s[k + 1..])
  {
    var t := s[..k] + s[k + 1..];
    forall i | 0 <= i < |t| ensures pool'[t[i]].next == Link(t, i + 1) && t[i] < |pool'| {
      if i < k {
        assert t[i] == s[i];
      } else {
        assert t[i] == s[i + 1];
      }
    }
  }

  // ----- what each operation does to the pool

  lemma InsertHolds(pool: seq<Slot>, pool': seq<Slot>, es: seq<Entry>, k: nat, e: Entry)
    requires Holds(pool, es) && |pool'| == |pool| && k <= |es| && HoldsEntry(pool', e)
    requires forall i :: 0 <= i < |es| ==> pool'[es[i].index] == pool[es[i].index].(next := pool'[es[i].index].next)
    ensures Holds(pool', es[..k] + [e] + es[k..])
  {
    var es' := es[..k] + [e] + es[k..];
    forall i | 0 <= i < |es'| ensures HoldsEntry(pool', es'[i]) {
      if i < k {
        assert HoldsEntry(pool, es[i]);
      } else if i > k {
        assert HoldsEntry(pool, es[i - 1]);
      }
    }
  }

  /** The stores of periodic_event_post. */
  ghost predicate PostWrites(pool: seq<Slot>, pool': seq<Slot>, s: seq<nat>, k: nat, x: Slot, p: nat)
    requires k <= |s|
  {
    && |pool'| == |pool| && p < |pool| && pool'[p] == x
    && (k > 0 ==> s[k - 1] < |pool| && pool'[s[k - 1]] == pool[s[k - 1]].(next := p))
    && forall i :: 0 <= i < |pool| && i != p && (k > 0 ==> i != s[k - 1]) ==> pool'[i] == pool[i]
  }

  lemma PostFree(pool: seq<Slot>, pool': seq<Slot>, free: int, s: seq<nat>, f: seq<nat>, k: nat, x: Slot)
    requires Chain(pool, free, f) && f != [] && k <= |s| && PostWrites(pool, pool', s, k, x, f[0])
    requires Distinct(f) && forall i :: i in f ==> i !in s
    ensures Chain(pool', pool[f[0]].next, f[1..])
  {
    ChainTail(pool, free, f);
    forall i | 1 <= i < |f| ensures pool'[f[i]] == pool[f[i]] {
      assert f[i] in f;
    }
    ChainFrame(pool, pool', pool[f[0]].next, f[1..]);
  }

  lemma PostPending(pool: seq<Slot>, pool': seq<Slot>, first: int, es: seq<Entry>, k: nat, e: Entry)
    requires Chain(pool, first, Indices(es)) && Holds(pool, es) && k <= |es|
    requires PostWrites(pool, pool', Indices(es), k,
                        Slot(Link(Indices(es), k), e.time, e.handler, e.par, e.index), e.index)
    requires Distinct(Indices(es)) && e.index !in Indices(es)
    ensures Chain(pool', if k == 0 then e.index else first, Indices(es[..k] + [e] + es[k..]))
    ensures Holds(pool', es[..k] + [e] + es[k..])
  {
    var s := Indices(es);
    assert forall i :: 0 <= i < |s| ==> s[i] in s;
    ChainInsert(pool, pool', first, s, k, e.index);
    IndicesInsert(es, k, e);
    InsertHolds(pool, pool', es, k, e);
  }

  lemma PostRepresents(pool: seq<Slot>, pool': seq<Slot>, free: int, first: int, q: Queue,
                       time: TimeSpec, handler: int, par: int, k: nat)
    requires Represents(pool, free, first, q) && Sound(q) && q.free != [] && k == Place(q.pending, time)
    requires PostWrites(pool, pool', Indices(q.pending), k,
                        Slot(Link(Indices(q.pending), k), time, handler, par, q.free[0]), q.free[0])
    ensures Represents(pool', pool[q.free[0]].next, if k == 0 then q.free[0] else first,
                       Events.Post(q, time, handler, par))
  {
    var e := Entry(q.free[0], time, handler, par);
    NoSharing(q);
    assert q.free[0] in q.free;
    PostFree(pool, pool', free, Indices(q.pending), q.free, k, pool'[e.index]);
    PostPending(pool, pool', first, q.pending, k, e);
  }

  // ----- the queue object

  class EventQueue {
    const eventlist: array<Slot>
    var freeevents: int
    var firstevent: int
    var actTime: TimeSpec
    const nts: nat
    ghost var q: Queue

    ghost predicate Valid()
      reads this, eventlist
    {
      Represents(eventlist[..], freeevents, firstevent, q) && Sound(q)
    }

    /** event_init: every entry on the free list, in index order. */
    constructor (ticksize: nat)
      ensures Valid() && q == Fresh() && actTime == TimeSpec(0, 0) && nts == ticksize * 1000 && fresh(eventlist)
    {
      var slots := new Slot[MAX_EVENT](i => Slot(NULL, TimeSpec(0, 0), 0, 0, i));
      eventlist, nts, actTime := slots, ticksize * 1000, TimeSpec(0, 0);
      freeevents, firstevent := 0, NULL;
      new;
      for i := 0 to MAX_EVENT
        invariant fresh(eventlist) && eventlist.Length == MAX_EVENT
        invariant firstevent == NULL && freeevents == 0 && actTime == TimeSpec(0, 0)
        invariant forall j :: 0 <= j < MAX_EVENT ==> eventlist[j].index == j
        invariant forall j :: 0 <= j < i ==> eventlist[j].next == if j < MAX_EVENT - 1 then j + 1 else NULL
      {
        eventlist[i] := eventlist[i].(next := if i < MAX_EVENT - 1 then i + 1 else NULL);
      }
      q := Fresh();
      FreshWf();
    }

    /** The search loop of periodic_event_post: k is the place, t the entry before
        it and p1 the entry at it. */
    method FindPlace(time: TimeSpec, ghost es: seq<Entry>) returns (t: int, p1: int, ghost k: nat)
      requires Chain(eventlist[..], firstevent, Indices(es)) && Holds(eventlist[..], es)
      ensures k == Place(es, time) && Reached(es, Place(es, time), t, p1)
    {
      k, t, p1 := 0, NULL, firstevent;
      while p1 != NULL
        invariant Reached(es, k, t, p1) && k <= Place(es, time)
        decreases |es| - k
      {
        PlaceStep(eventlist[..], firstevent, es, k, t, p1, time);
        WalkStep(eventlist[..], firstevent, es, k, t, p1);
        if Later(time, eventlist[p1].time) {
          t := p1;
        } else {
          break;
        }
        p1 := eventlist[t].next;
        k := k + 1;
      }
      PlaceStep(eventlist[..], firstevent, es, k, t, p1, time);
    }

    /** periodic_event_post */
    method Post(time: TimeSpec, handler: int, par: int) returns (r: int)
      requires Valid()
      modifies this`freeevents, this`firstevent, this`q, eventlist
      ensures Valid() && q == Events.Post(old(q), time, handler, par)
      ensures Times(old(q), old(eventlist[..]), eventlist[..], Request(time, handler, par))
      ensures r == if old(q.free) == [] then -1 else old(q.free)[0]
    {
      if freeevents == NULL {
        return -1;
      }
      ghost var pool0 := eventlist[..];
      FirstFree(pool0, freeevents, firstevent, q);
      var p := freeevents;
      freeevents := eventlist[p].next;
      eventlist[p] := eventlist[p].(handler := handler, time := time, par := par);
      ghost var pool1 := eventlist[..];
      Unpooled(pool0, pool1, firstevent, q);
      var t, p1;
      ghost var k;
      t, p1, k := FindPlace(time, q.pending);
      if t != NULL {
        eventlist[t] := eventlist[t].(next := p);
      } else {
        firstevent := p;
      }
      ghost var pool2 := eventlist[..];
      eventlist[p] := eventlist[p].(next := p1);
      WritesAre(pool0, pool1, pool2, eventlist[..], Indices(q.pending), k, p, t, p1, time, handler, par);
      ghost var q0 := q;
      q := Events.Post(q, time, handler, par);
      PostDone(pool0, eventlist[..], old(freeevents), freeevents, old(firstevent), firstevent, q0, q,
               Request(time, handler, par), k);
      r := eventlist[p].index;
    }

    /** The search loop of periodic_event_delete. */
    method FindEvent(index: int, ghost es: seq<Entry>) returns (t: int, p1: int, ghost k: nat)
      requires Chain(eventlist[..], firstevent, Indices(es))
      requires Numbered(eventlist[..])
      ensures k == Find(es, index) && Reached(es, Find(es, index), t, p1)
    {
      k, t, p1 := 0, NULL, firstevent;
      SearchStep(eventlist[..], firstevent, es, k, t, p1, index);
      while p1 != NULL && index != eventlist[p1].index
        invariant Reached(es, k, t, p1) && k <= Find(es, index)
        invariant p1 != NULL ==> 0 <= p1 < eventlist.Length
        decreases |es| - k
      {
        SearchStep(eventlist[..], firstevent, es, k, t, p1, index);
        WalkStep(eventlist[..], firstevent, es, k, t, p1);
        t := p1;
        p1 := eventlist[t].next;
        k := k + 1;
        SearchStep(eventlist[..], firstevent, es, k, t, p1, index);
      }
      SearchStep(eventlist[..], firstevent, es, k, t, p1, index);
    }

    /** The stores of periodic_event_delete. */
    method Unlink(t: int, p1: int, ghost s: seq<nat>, ghost k: nat)
      requires Chain(eventlist[..], firstevent, s) && Distinct(s) && k < |s|
      requires p1 == s[k] && t == if k > 0 then s[k - 1] else NULL
      modifies this`freeevents, this`firstevent, eventlist
      ensures DeleteWrites(old(eventlist[..]), eventlist[..], s, k, old(freeevents))
      ensures freeevents == p1 && firstevent == if k == 0 then Link(s, 1) else old(firstevent)
    {
      if t == NULL {
        firstevent := eventlist[p1].next;
      } else {
        eventlist[t] := eventlist[t].(next := eventlist[p1].next);
      }
      eventlist[p1] := eventlist[p1].(next := freeevents);
      freeevents := p1;
    }

    /** periodic_event_delete */
    method Delete(index: int) returns (r: int)
      requires Valid()
      modifies this`freeevents, this`firstevent, this`q, eventlist
      ensures Valid() && q == Events.Delete(old(q), index)
      ensures Times(old(q), old(eventlist[..]), eventlist[..], Cancel(index))
      ensures r == if Find(old(q.pending), index) < |old(q.pending)| then 1 else -1
    {
      var t, p1;
      ghost var k;
      t, p1, k := FindEvent(index, q.pending);
      if p1 == NULL {
        return -1;
      }
      NoSharing(q);
      Unlink(t, p1, Indices(q.pending), k);
      ghost var q0 := q;
      q := Events.Delete(q, index);
      DeleteDone(old(eventlist[..]), eventlist[..], old(freeevents), freeevents, old(firstevent), firstevent, q0, q,
                 Cancel(index), k);
      r := 1;
    }

    /** One call a handler makes. */
    method Perform(a: Action)
      requires Valid()
      modifies this`freeevents, this`firstevent, this`q, eventlist
      ensures Valid() && q == Act(old(q), a)
      ensures Times(old(q), old(eventlist[..]), eventlist[..], a)
    {
      match a
      case Request(time, handler, par) => var r := Post(time, handler, par);
      case Cancel(index) => var r := Delete(index);
    }

    /** A handler's calls, in order; t is the time field of entry p before them. */
    method RunHandler(acts: seq<Action>, ghost p: int, ghost t: TimeSpec)
      requires Valid() && SlotIs(eventlist[..], p, t)
      modifies this`freeevents, this`firstevent, this`q, eventlist
      ensures Valid() && q == ActAll(old(q), acts)
      ensures SlotIs(eventlist[..], p, SlotTime(old(q), p, t, acts))
    {
      ghost var t' := t;
      for i := 0 to |acts|
        invariant Valid() && ActAll(q, acts[i..]) == ActAll(old(q), acts)
        invariant SlotIs(eventlist[..], p, t') && SlotTime(q, p, t', acts[i..]) == SlotTime(old(q), p, t, acts)
      {
        assert acts[i..][0] == acts[i] && acts[i..][1..] == acts[i + 1..];
        t' := SlotTimeOne(q, p, t', acts[i]);
        Perform(acts[i]);
      }
    }

    /** The stores of one turn of periodic_wake_up, for the entry p at position c. */
    method Release(p: int, ghost c: nat) returns (pp: int)
      requires Valid() && c < |q.pending| && p == q.pending[c].index
      modifies this`freeevents, this`firstevent, this`q, eventlist
      ensures Valid() && q == Take(old(q), c) && pp == First(q.pending)
      ensures SlotIs(eventlist[..], pp, FirstTime(q.pending))
      ensures HoldsEntry(eventlist[..], old(q.pending)[c])
    {
      ghost var pool := eventlist[..];
      Positions(pool, freeevents, firstevent, q, c);
      pp := eventlist[p].next;
      eventlist[p] := eventlist[p].(next := freeevents);
      freeevents := p;
      firstevent := pp;
      TakeRepresents(pool, eventlist[..], old(freeevents), old(firstevent), q, c, pp);
      TakeSound(q, c);
      q := Take(q, c);
    }

    /** One turn of the loop: p goes to the free list and its handler makes the calls acts. */
    method Fire(p: int, acts: seq<Action>, ghost c: nat)
      returns (pp: int, call: (int, int), ghost t': TimeSpec)
      requires Valid() && c < |q.pending| && p == q.pending[c].index
      modifies this`freeevents, this`firstevent, this`q, eventlist
      ensures Valid() && Turned(old(q), q, c, acts, pp, t', call)
      ensures SlotIs(eventlist[..], pp, t')
    {
      pp := Release(p, c);
      call := (eventlist[p].handler, eventlist[p].par);
      t' := SlotTime(q, pp, FirstTime(q.pending), acts);
      RunHandler(acts, pp, FirstTime(q.pending));
    }

    /** The loop body for a due entry. */
    method Turn(p: int, rest: seq<seq<Action>>, ghost t: TimeSpec, ghost total: Outcome,
                ghost fired: seq<Entry>, called: seq<(int, int)>)
      returns (pp: int, call: (int, int), ghost t': TimeSpec, ghost fired': seq<Entry>)
      requires Valid() && p != NULL && !Later(t, actTime)
      requires Underway(total, q, p, t, actTime, rest, fired, called)
      modifies this`freeevents, this`firstevent, this`q, eventlist
      ensures Valid() && SlotIs(eventlist[..], pp, t')
      ensures Underway(total, q, pp, t', actTime, Tail(rest), fired', called + [call])
      ensures var c := Find(old(q).pending, p);
              c < |old(q).pending| && q == ActAll(Take(old(q), c), Head(rest))
    {
      ghost var q0, c := q, Find(q.pending, p);
      pp, call, t' := Fire(p, Head(rest), c);
      fired' := fired + [q0.pending[c]];
      GoOn(total, q0, q, c, p, pp, t, t', call, actTime, rest, fired, fired', called, called + [call]);
    }

    /** periodic_wake_up, its queue part. The script says what the handlers called do; called
        lists the calls made. Not for handlers that lead the loop into the free list. */
    method WakeUp(script: seq<seq<Action>>) returns (called: seq<(int, int)>)
      requires Valid() && WakeUps.WakeUp(q, AddNano(nts, actTime), script).Done?
      modifies this, eventlist
      ensures Valid() && actTime == AddNano(nts, old(actTime))
      ensures var r := WakeUps.WakeUp(old(q), actTime, script); q == r.q && called == Calls(r.fired)
    {
      actTime := AddNano(nts, actTime);
      called := [];
      ghost var total, t, fired := WakeUps.WakeUp(q, actTime, script), FirstTime(q.pending), [];
      var p, rest := firstevent, script;
      Started(eventlist[..], freeevents, firstevent, q, actTime, script, total);
      while p != NULL
        invariant Valid() && actTime == AddNano(nts, old(actTime)) && SlotIs(eventlist[..], p, t)
        invariant Underway(total, q, p, t, actTime, rest, fired, called)
        decreases |rest|, |q.pending|
      {
        if Later(eventlist[p].time, actTime) {
          break;
        }
        ghost var q0 := q;
        var pp, call;
        pp, call, t, fired := Turn(p, rest, t, total, fired, called);
        called := called + [call];
        LoopShrinks(q0, Find(q0.pending, p), rest);
        p, rest := pp, Tail(rest);
      }
      Ended(total, q, p, t, actTime, rest, fired, called);
    }
  }

  /** The time field of entry p, if there is one. */
  ghost predicate SlotIs(pool: seq<Slot>, p: int, t: TimeSpec) {
    p != NULL ==> 0 <= p < |pool| && pool[p].time == t
  }

  /** What a call does to the time fields. */
  ghost predicate Times(q: Queue, pool: seq<Slot>, pool': seq<Slot>, a: Action) {
    |pool'| == |pool| && forall i :: 0 <= i < |pool| ==> pool'[i].time == SlotTimeOne(q, i, pool[i].time, a)
  }

  lemma PostTimes(pool: seq<Slot>, pool': seq<Slot>, q: Queue, time: TimeSpec, handler: int, par: int, k: nat)
    requires q.free != [] && k <= |q.pending|
    requires PostWrites(pool, pool', Indices(q.pending), k,
                        Slot(Link(Indices(q.pending), k), time, handler, par, q.free[0]), q.free[0])
    ensures Times(q, pool, pool', Request(time, handler, par))
  {
  }

  /** The state after a post. */
  lemma PostDone(pool: seq<Slot>, pool': seq<Slot>, free: int, free': int, first: int, first': int,
                 q: Queue, q': Queue, a: Action, k: nat)
    requires Represents(pool, free, first, q) && Sound(q) && q.free != []
    requires a.Request? && q' == Act(q, a) && k == Place(q.pending, a.time) && q.free[0] < |pool|
    requires free' == pool[q.free[0]].next && first' == if k == 0 then q.free[0] else first
    requires PostWrites(pool, pool', Indices(q.pending), k,
                        Slot(Link(Indices(q.pending), k), a.time, a.handler, a.par, q.free[0]), q.free[0])
    ensures Represents(pool', free', first', q') && Sound(q') && Times(q, pool, pool', a)
    ensures pool'[q.free[0]].index == q.free[0]
  {
    PostRepresents(pool, pool', free, first, q, a.time, a.handler, a.par, k);
    PostTimes(pool, pool', q, a.time, a.handler, a.par, k);
    PostWf(q, a.time, a.handler, a.par);
  }

  /** The state after a delete. */
  lemma DeleteDone(pool: seq<Slot>, pool': seq<Slot>, free: int, free': int, first: int, first': int,
                   q: Queue, q': Queue, a: Action, k: nat)
    requires Represents(pool, free, first, q) && Sound(q) && a.Cancel? && q' == Act(q, a)
    requires k == Find(q.pending, a.index) < |q.pending|
    requires var s := Indices(q.pending);
             && free' == s[k] && first' == (if k == 0 then Link(s, 1) else first)
             && DeleteWrites(pool, pool', s, k, free)
    ensures Represents(pool', free', first', q') && Sound(q') && Times(q, pool, pool', a)
  {
    DeleteRepresents(pool, pool', free, free', first, first', q, q', a.index, k);
    DeleteTimes(pool, pool', free, q, a.index, k);
    DeleteWf(q, a.index);
  }

  lemma DeleteTimes(pool: seq<Slot>, pool': seq<Slot>, free: int, q: Queue, index: int, k: nat)
    requires k < |q.pending| && DeleteWrites(pool, pool', Indices(q.pending), k, free)
    ensures Times(q, pool, pool', Cancel(index))
  {
  }

  /** The wake-up's total is what has been fired, and what the loop does from p on. */
  ghost predicate Underway(total: Outcome, q: Queue, p: int, t: TimeSpec, now: TimeSpec, rest: seq<seq<Action>>,
                           fired: seq<Entry>, called: seq<(int, int)>) {
    Sums(total, WakeFrom(q, p, t, now, rest), fired, called)
  }

  ghost predicate Sums(total: Outcome, r: Outcome, fired: seq<Entry>, called: seq<(int, int)>) {
    total.Done? && r.Done? && total == Done(r.q, fired + r.fired) && called == Calls(fired)
  }

  lemma SumsStep(total: Outcome, r: Outcome, r': Outcome, e: Entry, fired: seq<Entry>, called: seq<(int, int)>)
    requires Sums(total, r, fired, called) && r == Before(e, r')
    ensures Sums(total, r', fired + [e], called + [(e.handler, e.par)])
  {
    assert fired + ([e] + r'.fired) == (fired + [e]) + r'.fired;
    CallsAppend(fired, e);
  }

  /** What one turn of the loop leaves: the queue, the saved link and its time field. */
  ghost predicate Turned(q: Queue, q': Queue, c: nat, acts: seq<Action>, pp: int, t': TimeSpec, call: (int, int)) {
    && c < |q.pending| && q' == ActAll(Take(q, c), acts) && pp == First(q.pending[c + 1..])
    && t' == SlotTime(Take(q, c), pp, FirstTime(q.pending[c + 1..]), acts)
    && call == (q.pending[c].handler, q.pending[c].par)
  }

  lemma Started(pool: seq<Slot>, free: int, first: int, q: Queue, now: TimeSpec, script: seq<seq<Action>>,
                total: Outcome)
    requires Represents(pool, free, first, q) && total == WakeUps.WakeUp(q, now, script) && total.Done?
    ensures SlotIs(pool, first, FirstTime(q.pending))
    ensures Underway(total, q, first, FirstTime(q.pending), now, script, [], [])
  {
    if q.pending != [] {
      assert HoldsEntry(pool, q.pending[0]) && Indices(q.pending)[0] == q.pending[0].index;
    }
    assert total.fired == [] + total.fired;
  }

  lemma Ended(total: Outcome, q: Queue, p: int, t: TimeSpec, now: TimeSpec, rest: seq<seq<Action>>,
              fired: seq<Entry>, called: seq<(int, int)>)
    requires Underway(total, q, p, t, now, rest, fired, called) && (p == NULL || Later(t, now))
    ensures q == total.q && called == Calls(total.fired)
  {
    assert fired + [] == fired;
  }

  lemma TurnIs(q: Queue, q': Queue, c: nat, p: int, pp: int, t: TimeSpec, t': TimeSpec, call: (int, int),
               now: TimeSpec, rest: seq<seq<Action>>)
    requires p != NULL && !Later(t, now) && c == Find(q.pending, p) && Turned(q, q', c, Head(rest), pp, t', call)
    ensures WakeFrom(q, p, t, now, rest) == Before(q.pending[c], WakeFrom(q', pp, t', now, Tail(rest)))
  {
  }

  lemma GoOn(total: Outcome, q: Queue, q': Queue, c: nat, p: int, pp: int, t: TimeSpec, t': TimeSpec,
             call: (int, int), now: TimeSpec, rest: seq<seq<Action>>, fired: seq<Entry>, fired': seq<Entry>,
             called: seq<(int, int)>, called': seq<(int, int)>)
    requires p != NULL && !Later(t, now) && Underway(total, q, p, t, now, rest, fired, called)
    requires c == Find(q.pending, p) && Turned(q, q', c, Head(rest), pp, t', call)
    requires fired' == fired + [q.pending[c]] && called' == called + [call]
    ensures Underway(total, q', pp, t', now, Tail(rest), fired', called')
  {
    TurnIs(q, q', c, p, pp, t, t', call, now, rest);
    SumsStep(total, WakeFrom(q, p, t, now, rest), WakeFrom(q', pp, t', now, Tail(rest)), q.pending[c], fired, called);
  }

  lemma LoopShrinks(q: Queue, c: nat, rest: seq<seq<Action>>)
    requires c < |q.pending|
    ensures rest == [] ==> |ActAll(Take(q, c), Head(rest)).pending| < |q.pending|
  {
  }

  lemma CallsAppend(es: seq<Entry>, e: Entry)
    ensures Calls(es + [e]) == Calls(es) + [(e.handler, e.par)]
  {
  }

  function Calls(es: seq<Entry>): seq<(int, int)> {
    seq(|es|, i requires 0 <= i < |es| => (es[i].handler, es[i].par))
  }

  /** The stores that move the entry at position k to the free list. */
  ghost predicate DeleteWrites(pool: seq<Slot>, pool': seq<Slot>, s: seq<nat>, k: nat, free: int)
    requires k < |s|
  {
    && |pool'| == |pool| && s[k] < |pool| && pool'[s[k]] == pool[s[k]].(next := free)
    && (k > 0 ==> s[k - 1] < |pool| && pool'[s[k - 1]] == pool[s[k - 1]].(next := Link(s, k + 1)))
    && forall i :: 0 <= i < |pool| && i != s[k] && (k > 0 ==> i != s[k - 1]) ==> pool'[i] == pool[i]
  }

  /** What the slot of a pending entry holds. */
  lemma Positions(pool: seq<Slot>, free: int, first: int, q: Queue, c: nat)
    requires Represents(pool, free, first, q) && c < |q.pending|
    ensures var p := q.pending[c].index;
            && p < |pool| && HoldsEntry(pool, q.pending[c]) && pool[p].next == First(q.pending[c + 1..])
  {
    assert Indices(q.pending)[c] == q.pending[c].index;
    assert c + 1 < |q.pending| ==> Indices(q.pending)[c + 1] == q.pending[c + 1].index;
  }

  /** Freeing the entry at position c and starting the pending list after it. */
  lemma TakeRepresents(pool: seq<Slot>, pool': seq<Slot>, free: int, first: int, q: Queue, c: nat, pp: int)
    requires Represents(pool, free, first, q) && Sound(q) && c < |q.pending|
    requires var p := q.pending[c].index;
             p < |pool| && pool[p].next == pp && pool' == pool[p := pool[p].(next := free)]
    ensures Represents(pool', q.pending[c].index, pp, Take(q, c))
    ensures pp == First(q.pending[c + 1..]) && SlotIs(pool', pp, FirstTime(q.pending[c + 1..]))
    ensures HoldsEntry(pool', q.pending[c])
  {
    var p, es := q.pending[c].index, q.pending[c + 1..];
    Positions(pool, free, first, q, c);
    NoSharing(q);
    assert Indices(q.pending)[c] == p && p in Indices(q.pending);
    forall i | 0 <= i < |q.free| ensures pool'[q.free[i]] == pool[q.free[i]] {
      assert q.free[i] in q.free;
    }
    ChainPush(pool, pool', free, q.free, p);
    TakePending(pool, pool', first, q.pending, c, free);
    assert es != [] ==> HoldsEntry(pool', es[0]);
  }

  lemma TakePending(pool: seq<Slot>, pool': seq<Slot>, first: int, es: seq<Entry>, c: nat, free: int)
    requires Chain(pool, first, Indices(es)) && Holds(pool, es) && Distinct(Indices(es)) && c < |es|
    requires var p := es[c].index; p < |pool| && pool' == pool[p := pool[p].(next := free)]
    ensures Chain(pool', First(es[c + 1..]), Indices(es[c + 1..])) && Holds(pool', es[c + 1..])
  {
    var s, rest := Indices(es), es[c + 1..];
    assert Indices(rest) == s[c + 1..];
    forall i | 0 <= i < |rest| ensures HoldsEntry(pool', rest[i]) && pool'[rest[i].index] == pool[rest[i].index] {
      assert HoldsEntry(pool, es[c + 1 + i]);
      assert s[c + 1 + i] != s[c];
    }
    SuffixChain(pool, pool', first, s, c + 1);
  }

  lemma SuffixChain(pool: seq<Slot>, pool': seq<Slot>, head: int, s: seq<nat>, k: nat)
    requires Chain(pool, head, s) && k <= |s| && |pool'| == |pool|
    requires forall i :: k <= i < |s| ==> pool'[s[i]] == pool[s[i]]
    ensures Chain(pool', Link(s[k..], 0), s[k..])
  {
    var t := s[k..];
    forall i | 0 <= i < |t| ensures pool'[t[i]].next == Link(t, i + 1) && t[i] < |pool'| {
      assert t[i] == s[k + i];
    }
  }

  /** Going on with an entry of the free list closes that list into a ring: from then on the
      pool represents no queue at all, whatever the pending list starts with. */
  lemma StrayBreaks(pool: seq<Slot>, free: int, first: int, q: Queue, j: nat, first': int, q': Queue)
    requires Represents(pool, free, first, q) && Sound(q) && j < |q.free|
    ensures var p := q.free[j];
            p < |pool| && !Represents(pool[p := pool[p].(next := free)], p, first', q')
  {
    NoSharing(q);
    var p, f := q.free[j], q.free;
    var pool' := pool[p := pool[p].(next := free)];
    if Represents(pool', p, first', q') {
      Ring(pool', f, j, p, q'.free, |q'.free| - 1);
    }
  }

  /** In a ring the chain never ends. */
  lemma {:induction false} Ring(pool: seq<Slot>, f: seq<nat>, j: nat, head: int, s: seq<nat>, n: nat)
    requires j < |f| && f[j] < |pool| && head == f[j] && Chain(pool, head, s) && n < |s|
    requires pool[f[j]].next == f[0]
    requires forall i :: 0 <= i < j ==> f[i] < |pool| && pool[f[i]].next == f[i + 1]
    ensures exists i :: 0 <= i <= j && s[n] == f[i]
    ensures n + 1 < |s|
    decreases n
  {
    if n > 0 {
      Ring(pool, f, j, head, s, n - 1);
      var i :| 0 <= i <= j && s[n - 1] == f[i];
      assert pool[s[n - 1]].next == s[n];
      assert s[n] == f[if i == j then 0 else i + 1];
    }
    var i :| 0 <= i <= j && s[n] == f[i];
    assert Link(s, n + 1) == f[if i == j then 0 else i + 1];
  }

  lemma RemoveHolds(pool: seq<Slot>, pool': seq<Slot>, es: seq<Entry>, k: nat, free: int)
    requires Holds(pool, es) && Numbered(pool) && k < |es| && DeleteWrites(pool, pool', Indices(es), k, free)
    ensures Holds(pool', es[..k] + es[k + 1..]) && Numbered(pool')
    ensures Indices(es[..k] + es[k + 1..]) == Indices(es)[..k] + Indices(es)[k + 1..]
  {
    var es' := es[..k] + es[k + 1..];
    assert forall i :: 0 <= i < |pool| ==> pool'[i] == pool[i].(next := pool'[i].next);
    forall i | 0 <= i < |es'| ensures HoldsEntry(pool', es'[i]) {
      assert HoldsEntry(pool, es[if i < k then i else i + 1]);
    }
  }

  lemma DeleteRepresents(pool: seq<Slot>, pool': seq<Slot>, free: int, free': int, first: int, first': int,
                         q: Queue, q': Queue, index: int, k: nat)
    requires Represents(pool, free, first, q) && Sound(q) && k == Find(q.pending, index) < |q.pending|
    requires free' == q.pending[k].index && first' == if k == 0 then Link(Indices(q.pending), 1) else first
    requires q' == Events.Delete(q, index) && DeleteWrites(pool, pool', Indices(q.pending), k, free)
    ensures Represents(pool', free', first', q')
  {
    NoSharing(q);
    DeleteFree(pool, pool', free, q.free, Indices(q.pending), k);
    DeletePending(pool, pool', free, first, first', q.pending, q'.pending, k);
  }

  lemma DeletePending(pool: seq<Slot>, pool': seq<Slot>, free: int, first: int, first': int,
                      es: seq<Entry>, es': seq<Entry>, k: nat)
    requires Numbered(pool) && Chain(pool, first, Indices(es)) && Holds(pool, es) && Distinct(Indices(es))
    requires k < |es| && es' == es[..k] + es[k + 1..]
    requires first' == if k == 0 then Link(Indices(es), 1) else first
    requires DeleteWrites(pool, pool', Indices(es), k, free)
    ensures Numbered(pool') && Chain(pool', first', Indices(es')) && Holds(pool', es')
  {
    ChainRemove(pool, pool', first, Indices(es), k);
    RemoveHolds(pool, pool', es, k, free);
  }

  lemma DeleteFree(pool: seq<Slot>, pool': seq<Slot>, free: int, f: seq<nat>, s: seq<nat>, k: nat)
    requires Chain(pool, free, f) && k < |s| && DeleteWrites(pool, pool', s, k, free)
    requires forall x :: x in f ==> x !in s
    ensures Chain(pool', s[k], [s[k]] + f)
  {
    forall i | 0 <= i < |f| ensures pool'[f[i]] == pool[f[i]] {
      assert f[i] in f;
      assert s[k] in s && (k > 0 ==> s[k - 1] in s);
    }
    assert s[k] in s;
    ChainPush(pool, pool', free, f, s[k]);
  }

  lemma FirstFree(pool: seq<Slot>, free: int, first: int, q: Queue)
    requires Represents(pool, free, first, q) && Sound(q) && free != NULL
    ensures q.free != [] && free == q.free[0] && 0 <= free < |pool|
    ensures free !in Indices(q.pending)
    ensures forall i :: 0 <= i < |q.pending| ==> 0 <= Indices(q.pending)[i] < |pool|
  {
    NoSharing(q);
    assert q.free[0] in q.free;
  }

  lemma WritesAre(pool0: seq<Slot>, pool1: seq<Slot>, pool2: seq<Slot>, pool3: seq<Slot>, s: seq<nat>, k: nat,
                  p: nat, t: int, p1: int, time: TimeSpec, handler: int, par: int)
    requires k <= |s| && p < |pool0| && p !in s && (forall i :: 0 <= i < |s| ==> s[i] < |pool0|)
    requires pool0[p].index == p && t == (if k > 0 then s[k - 1] else NULL) && p1 == Link(s, k)
    requires pool1 == pool0[p := pool0[p].(handler := handler, time := time, par := par)]
    requires pool2 == if t != NULL then pool1[t := pool1[t].(next := p)] else pool1
    requires pool3 == pool2[p := pool2[p].(next := p1)]
    ensures PostWrites(pool0, pool3, s, k, Slot(Link(s, k), time, handler, par, p), p)
  {
    assert k > 0 ==> s[k - 1] in s;
  }

  /** Filling in a free entry does not disturb the pending list. */
  lemma Unpooled(pool: seq<Slot>, pool': seq<Slot>, first: int, q: Queue)
    requires Chain(pool, first, Indices(q.pending)) && Holds(pool, q.pending) && Sound(q) && q.free != []
    requires |pool'| == |pool| && forall i :: 0 <= i < |pool| && i != q.free[0] ==> pool'[i] == pool[i]
    ensures Chain(pool', first, Indices(q.pending)) && Holds(pool', q.pending)
  {
    NoSharing(q);
    var s := Indices(q.pending);
    assert q.free[0] in q.free;
    forall i | 0 <= i < |s| ensures pool'[s[i]] == pool[s[i]] {
      assert s[i] in s;
    }
    forall i | 0 <= i < |q.pending| ensures HoldsEntry(pool', q.pending[i]) {
      assert HoldsEntry(pool, q.pending[i]);
      assert s[i] == q.pending[i].index;
    }
  }
}
