/** When a wake-up of the periodic queue (external/oslib/kl/event.c) loses nothing, told by
    what handlers do; what it then fires; and whole runs of posts, deletes and wake-ups. */
module WakeUpRuns {
  import opened Events
  import opened WakeUps

  // ----- handlers that only post

  ghost predicate OnlyRequests(acts: seq<Action>) {
    forall i :: 0 <= i < |acts| ==> acts[i].Request?
  }

  ghost predicate OnlyPosts(script: seq<seq<Action>>) {
    forall k :: 0 <= k < |script| ==> OnlyRequests(script[k])
  }

  /** The requests that find a free entry all name times later than time. */
  ghost predicate AllBehind(q: Queue, acts: seq<Action>, time: TimeSpec)
    requires OnlyRequests(acts)
  {
    forall i :: 0 <= i < |acts| && i < |q.free| ==> Later(acts[i].time, time)
  }

  /** A post moves an entry at position c at most one place back, and not past itself. */
  lemma PostFind(q: Queue, r: Action, p: int)
    requires Sound(q) && r.Request? && Find(q.pending, p) < |q.pending|
    ensures var c, es := Find(q.pending, p), Act(q, r).pending;
            && (Find(es, p) == c || Find(es, p) == c + 1) && Find(es, p) < |es|
            && es[Find(es, p)] == q.pending[c]
            && (c == 0 && (q.free == [] || Later(r.time, q.pending[0].time)) ==> Find(es, p) == 0)
            && (c == 0 && q.free != [] && !Later(r.time, q.pending[0].time) ==> Find(es, p) == 1)
  {
    if q.free != [] {
      FreeIsNot(q, p);
      FindInserted(q.pending, Place(q.pending, r.time), Entry(q.free[0], r.time, r.handler, r.par), p);
    }
  }

  lemma FindInserted(es: seq<Entry>, k: nat, e: Entry, p: int)
    requires k <= |es| && e.index != p && Find(es, p) < |es|
    ensures var c, es' := Find(es, p), es[..k] + [e] + es[k..];
            var d := if k <= c then c + 1 else c;
            Find(es', p) == d < |es'| && es'[d] == es[c]
  {
    var c, es' := Find(es, p), es[..k] + [e] + es[k..];
    var d := if k <= c then c + 1 else c;
    forall i | 0 <= i < d ensures es'[i].index != p {
      assert es'[i] == if i < k then es[i] else if i == k then e else es[i - 1];
    }
    assert es'[d] == es[c];
    FindIs(es', p, d);
  }

  lemma FreeIsNot(q: Queue, p: int)
    requires Sound(q) && q.free != [] && Find(q.pending, p) < |q.pending|
    ensures q.free[0] != p
  {
    NoSharing(q);
    assert q.free[0] in q.free;
    assert Indices(q.pending)[Find(q.pending, p)] in Indices(q.pending);
  }

  lemma {:induction false} FindIs(es: seq<Entry>, p: int, d: nat)
    requires d < |es| && es[d].index == p && forall i :: 0 <= i < d ==> es[i].index != p
    ensures Find(es, p) == d
  {
  }

  /** Under posts a pending entry stays pending as it is; the first one stays first if and
      only if every successful request is later than it. */
  lemma {:induction false} PostsFind(q: Queue, acts: seq<Action>, p: int, t: TimeSpec)
    requires Sound(q) && OnlyRequests(acts) && Find(q.pending, p) < |q.pending|
    ensures var c, es := Find(q.pending, p), ActAll(q, acts).pending;
            && c <= Find(es, p) < |es| && es[Find(es, p)] == q.pending[c]
            && SlotTime(q, p, t, acts) == t
            && (c == 0 ==> (Find(es, p) == 0 <==> AllBehind(q, acts, q.pending[0].time)))
    decreases |acts|
  {
    if acts != [] {
      var q1, rest := Act(q, acts[0]), acts[1..];
      PostFind(q, acts[0], p);
      if q.free != [] {
        FreeIsNot(q, p);
      }
      ActSound(q, acts[0]);
      PostsFind(q1, rest, p, t);
      if Find(q.pending, p) == 0 {
        BehindStep(q, acts, q.pending[0].time);
      }
    }
  }

  lemma BehindStep(q: Queue, acts: seq<Action>, time: TimeSpec)
    requires OnlyRequests(acts) && acts != []
    ensures AllBehind(q, acts, time) <==>
            (q.free != [] ==> Later(acts[0].time, time)) && AllBehind(Act(q, acts[0]), acts[1..], time)
  {
    var q1, rest := Act(q, acts[0]), acts[1..];
    if AllBehind(q1, rest, time) && (q.free != [] ==> Later(acts[0].time, time)) {
      forall i | 0 <= i < |acts| && i < |q.free| ensures Later(acts[i].time, time) {
        assert i > 0 ==> acts[i] == rest[i - 1];
      }
    }
  }

  /** No handler posts with success, while another due event is next, a request that is
      not later than that event. */
  ghost predicate PostsBehind(q: Queue, now: TimeSpec, script: seq<seq<Action>>)
    requires OnlyPosts(script)
    decreases |script|, |q.pending|
  {
    |q.pending| <= 1 || Later(q.pending[0].time, now) || Later(q.pending[1].time, now) ||
    var q1, acts := Take(q, 0), Head(script);
    AllBehind(q1, acts, q.pending[1].time) && PostsBehind(ActAll(q1, acts), now, Tail(script))
  }

  lemma {:induction false} PostsBehindIsInOrder(q: Queue, now: TimeSpec, script: seq<seq<Action>>)
    requires Wf(q) && OnlyPosts(script)
    ensures PostsBehind(q, now, script) <==> InOrder(q, now, script)
    decreases |script|, |q.pending|
  {
    if |q.pending| > 1 && !Later(q.pending[0].time, now) {
      var q1, acts := Take(q, 0), Head(script);
      var pp, t := First(q1.pending), FirstTime(q1.pending);
      TakeSound(q, 0);
      ActAllSound(q1, acts);
      assert q1.pending[0] == q.pending[1] && Find(q1.pending, pp) == 0;
      PostsFind(q1, acts, pp, t);
      PostsBehindIsInOrder(ActAll(q1, acts), now, Tail(script));
    }
  }

  /** Handlers that only post never lead the loop astray. */
  lemma {:induction false} PostsNeverAstray(q: Queue, p: int, t: TimeSpec, now: TimeSpec, script: seq<seq<Action>>)
    requires Sound(q) && OnlyPosts(script) && (p == NULL || Find(q.pending, p) < |q.pending|)
    ensures WakeFrom(q, p, t, now, script).Done?
    decreases |script|, |q.pending|
  {
    if p != NULL && !Later(t, now) {
      var q1, acts := Take(q, Find(q.pending, p)), Head(script);
      var pp, q2 := First(q1.pending), ActAll(q1, acts);
      TakeSound(q, Find(q.pending, p));
      ActAllSound(q1, acts);
      FirstStaysPending(q1, acts);
      PostsNeverAstray(q2, pp, SlotTime(q1, pp, FirstTime(q1.pending), acts), now, Tail(script));
    }
  }

  lemma FirstStaysPending(q: Queue, acts: seq<Action>)
    requires Sound(q) && OnlyRequests(acts)
    ensures var p, es := First(q.pending), ActAll(q, acts).pending; p == NULL || Find(es, p) < |es|
  {
    if q.pending != [] {
      assert Find(q.pending, First(q.pending)) == 0;
      PostsFind(q, acts, First(q.pending), FirstTime(q.pending));
    }
  }

  /** For handlers that only post: the wake-up ends with the lists sound, and no entry is
      lost if and only if no handler posts in front of the due event that is next. */
  lemma PostsWakeUpWf(q: Queue, now: TimeSpec, script: seq<seq<Action>>)
    requires Wf(q) && OnlyPosts(script)
    ensures var r := WakeUp(q, now, script);
            r.Done? && Sound(r.q) && (Wf(r.q) <==> PostsBehind(q, now, script))
  {
    var p, t := First(q.pending), FirstTime(q.pending);
    PostsNeverAstray(q, p, t, now, script);
    WakeFromSound(q, p, t, now, script);
    WakeUpWf(q, now, script);
    PostsBehindIsInOrder(q, now, script);
  }

  /** A handler's requests are served from the entry just released on: as many as there
      were free entries and one more, so the first one always. */
  lemma {:induction false} RequestsServed(q: Queue, acts: seq<Action>, i: nat)
    requires Sound(q) && OnlyRequests(acts) && i < |acts| && i < |q.free|
    ensures Entry(q.free[i], acts[i].time, acts[i].handler, acts[i].par) in ActAll(q, acts).pending
    decreases |acts|
  {
    var q1, rest := Act(q, acts[0]), acts[1..];
    ActSound(q, acts[0]);
    if i == 0 {
      var e := Entry(q.free[0], acts[0].time, acts[0].handler, acts[0].par);
      assert q1.pending[Place(q.pending, acts[0].time)] == e;
      StaysPending(q1, rest, e);
    } else {
      RequestsServed(q1, rest, i - 1);
    }
  }

  /** No action is a delete of that event. */
  ghost predicate Spares(acts: seq<Action>, index: int) {
    forall i :: 0 <= i < |acts| ==> acts[i] != Cancel(index)
  }

  /** A pending event that is not deleted stays pending as it is. */
  lemma {:induction false} StaysPending(q: Queue, acts: seq<Action>, e: Entry)
    requires Sound(q) && Spares(acts, e.index) && e in q.pending
    ensures e in ActAll(q, acts).pending
    decreases |acts|
  {
    if acts != [] {
      if acts[0].Cancel? {
        DeleteExact(q, acts[0].index);
      }
      ActSound(q, acts[0]);
      StaysPending(Act(q, acts[0]), acts[1..], e);
    }
  }

  lemma FirstRepostSucceeds(q: Queue, c: nat, acts: seq<Action>)
    requires Sound(q) && c < |q.pending| && OnlyRequests(acts) && acts != []
    ensures Entry(q.pending[c].index, acts[0].time, acts[0].handler, acts[0].par) in ActAll(Take(q, c), acts).pending
  {
    TakeSound(q, c);
    RequestsServed(Take(q, c), acts, 0);
  }

  // ----- what is fired

  /** How many leading events are due. */
  function Due(es: seq<Entry>, now: TimeSpec): (n: nat)
    ensures n <= |es| && (n < |es| ==> Later(es[n].time, now))
    ensures forall i :: 0 <= i < n ==> !Later(es[i].time, now)
  {
    if es == [] || Later(es[0].time, now) then 0 else 1 + Due(es[1..], now)
  }

  lemma LaterTransitive(a: TimeSpec, b: TimeSpec, c: TimeSpec)
    ensures Later(a, b) && !Later(c, b) ==> Later(a, c)
    ensures Later(a, b) && Later(b, c) ==> Later(a, c)
  {
  }

  lemma {:induction false} DueIs(es: seq<Entry>, now: TimeSpec, d: nat)
    requires d <= |es| && (d < |es| ==> Later(es[d].time, now))
    requires forall i :: 0 <= i < d ==> !Later(es[i].time, now)
    ensures Due(es, now) == d
  {
  }

  /** On a sorted list the leading due events are all the due events. */
  lemma DueAreAll(es: seq<Entry>, now: TimeSpec)
    requires Sorted(es)
    ensures forall i :: Due(es, now) <= i < |es| ==> Later(es[i].time, now)
    ensures forall e :: e in es ==> (e in es[..Due(es, now)] <==> !Later(e.time, now))
  {
    var d := Due(es, now);
    forall i | d <= i < |es| ensures Later(es[i].time, now) {
      assert i > d ==> !Later(es[d].time, es[i].time);
    }
    forall e | e in es && !Later(e.time, now) ensures e in es[..d] {
      var i :| 0 <= i < |es| && es[i] == e;
      assert es[..d][i] == e;
    }
  }

  /** A post is for later than now; a delete names no due event. */
  ghost predicate Mild(q: Queue, a: Action, now: TimeSpec) {
    match a
    case Request(time, _, _) => Later(time, now)
    case Cancel(index) => var k := Find(q.pending, index); k < |q.pending| ==> Later(q.pending[k].time, now)
  }

  ghost predicate AllMild(q: Queue, acts: seq<Action>, now: TimeSpec)
    decreases |acts|
  {
    acts == [] || (Mild(q, acts[0], now) && AllMild(Act(q, acts[0]), acts[1..], now))
  }

  /** The handlers called by the wake-up do nothing but that. */
  ghost predicate MildWakeUp(q: Queue, now: TimeSpec, script: seq<seq<Action>>)
    decreases |script|, |q.pending|
  {
    q.pending == [] || Later(q.pending[0].time, now) ||
    (AllMild(Take(q, 0), Head(script), now) && MildWakeUp(ActAll(Take(q, 0), Head(script)), now, Tail(script)))
  }

  /** The due events of the list stay where they are. */
  ghost predicate SameDue(es: seq<Entry>, es': seq<Entry>, now: TimeSpec) {
    Due(es', now) == Due(es, now) && es'[..Due(es, now)] == es[..Due(es, now)]
  }

  lemma DueKept(es: seq<Entry>, es': seq<Entry>, now: TimeSpec, d: nat)
    requires d == Due(es, now) <= |es'| && forall i :: 0 <= i < d ==> es'[i] == es[i]
    requires d < |es'| ==> Later(es'[d].time, now)
    ensures SameDue(es, es', now)
  {
    DueIs(es', now, d);
  }

  lemma RequestKeepsDue(q: Queue, a: Action, now: TimeSpec)
    requires a.Request? && Later(a.time, now)
    ensures SameDue(q.pending, Act(q, a).pending, now)
  {
    if q.free != [] {
      var k, d := Place(q.pending, a.time), Due(q.pending, now);
      if k < d {
        LaterTransitive(a.time, now, q.pending[k].time);
      }
      DueKept(q.pending, Act(q, a).pending, now, d);
    }
  }

  lemma CancelKeepsDue(q: Queue, a: Action, now: TimeSpec)
    requires Sorted(q.pending) && a.Cancel? && Mild(q, a, now)
    ensures SameDue(q.pending, Act(q, a).pending, now)
  {
    var k, d := Find(q.pending, a.index), Due(q.pending, now);
    if k < |q.pending| {
      DueAreAll(q.pending, now);
      DueKept(q.pending, Act(q, a).pending, now, d);
    }
  }

  lemma MildKeepsDue(q: Queue, a: Action, now: TimeSpec)
    requires Sound(q) && Mild(q, a, now)
    ensures SameDue(q.pending, Act(q, a).pending, now)
  {
    match a
    case Request(_, _, _) => RequestKeepsDue(q, a, now);
    case Cancel(_) => CancelKeepsDue(q, a, now);
  }

  lemma {:induction false} AllMildKeepsDue(q: Queue, acts: seq<Action>, now: TimeSpec)
    requires Sound(q) && AllMild(q, acts, now)
    ensures SameDue(q.pending, ActAll(q, acts).pending, now)
    decreases |acts|
  {
    if acts != [] {
      MildKeepsDue(q, acts[0], now);
      ActSound(q, acts[0]);
      AllMildKeepsDue(Act(q, acts[0]), acts[1..], now);
    }
  }

  /** The time field of an entry that is not due cannot become due. */
  lemma {:induction false} MildSlotTime(q: Queue, p: int, t: TimeSpec, acts: seq<Action>, now: TimeSpec)
    requires AllMild(q, acts, now) && Later(t, now)
    ensures Later(SlotTime(q, p, t, acts), now)
    decreases |acts|
  {
    if acts != [] {
      MildSlotTime(Act(q, acts[0]), p, SlotTimeOne(q, p, t, acts[0]), acts[1..], now);
    }
  }

  lemma FiredStep(es: seq<Entry>, es2: seq<Entry>, fired: seq<Entry>, now: TimeSpec)
    requires es != [] && !Later(es[0].time, now) && SameDue(es[1..], es2, now) && fired == es2[..Due(es2, now)]
    ensures [es[0]] + fired == es[..Due(es, now)]
  {
    DueHead(es, now);
  }

  lemma DueHead(es: seq<Entry>, now: TimeSpec)
    requires Due(es, now) > 0
    ensures Due(es[1..], now) == Due(es, now) - 1 && es[..Due(es, now)] == [es[0]] + es[1..][..Due(es, now) - 1]
  {
  }

  /** The entry the loop goes on to is the first pending one, or the loop ends. */
  lemma MildNext(q1: Queue, acts: seq<Action>, now: TimeSpec)
    requires Sound(q1) && AllMild(q1, acts, now)
    ensures var q2, pp := ActAll(q1, acts), First(q1.pending);
            var t' := SlotTime(q1, pp, FirstTime(q1.pending), acts);
            if Due(q1.pending, now) > 0 then First(q2.pending) == pp && FirstTime(q2.pending) == t'
            else (pp == NULL || Later(t', now)) && (q2.pending == [] || Later(q2.pending[0].time, now))
  {
    var q2, pp, t1 := ActAll(q1, acts), First(q1.pending), FirstTime(q1.pending);
    AllMildKeepsDue(q1, acts, now);
    if Due(q1.pending, now) > 0 {
      assert q2.pending[..Due(q1.pending, now)][0] == q1.pending[..Due(q1.pending, now)][0];
      FirstTimeOf(q1);
      SlotTimeIs(q1, pp, t1, acts);
    } else if pp != NULL {
      MildSlotTime(q1, pp, t1, acts, now);
    }
  }

  /** After a turn with a mild handler the wake-up goes on as one of the queue left. */
  lemma MildTurn(q: Queue, q2: Queue, now: TimeSpec, script: seq<seq<Action>>)
    requires Sound(q) && q.pending != [] && !Later(q.pending[0].time, now)
    requires AllMild(Take(q, 0), Head(script), now) && q2 == ActAll(Take(q, 0), Head(script))
    ensures WakeUp(q, now, script) == Before(q.pending[0], WakeUp(q2, now, Tail(script)))
  {
    var q1, acts := Take(q, 0), Head(script);
    var pp, t' := First(q1.pending), SlotTime(q1, First(q1.pending), FirstTime(q1.pending), acts);
    FirstTurn(q, q2, pp, t', now, script);
    TakeSound(q, 0);
    MildNext(q1, acts, now);
    if Due(q1.pending, now) == 0 {
      assert WakeFrom(q2, pp, t', now, Tail(script)) == Done(q2, []) == WakeUp(q2, now, Tail(script));
    }
  }

  /** Mild handlers: the wake-up fires exactly the due events, in queue order, leaves none
      due, and loses nothing. */
  lemma {:induction false} MildFires(q: Queue, now: TimeSpec, script: seq<seq<Action>>)
    requires Wf(q) && MildWakeUp(q, now, script)
    ensures var r := WakeUp(q, now, script);
            r.Done? && Wf(r.q) && r.fired == q.pending[..Due(q.pending, now)] && Due(r.q.pending, now) == 0
    decreases |script|, |q.pending|
  {
    if q.pending != [] && !Later(q.pending[0].time, now) {
      var q1, acts := Take(q, 0), Head(script);
      var q2 := ActAll(q1, acts);
      TakeSound(q, 0);
      ActAllSound(q1, acts);
      AllMildKeepsDue(q1, acts, now);
      MildTurn(q, q2, now, script);
      MildFires(q2, now, Tail(script));
      FiredStep(q.pending, q2.pending, WakeUp(q2, now, Tail(script)).fired, now);
    }
  }

  lemma MildIsInOrder(q: Queue, now: TimeSpec, script: seq<seq<Action>>)
    requires Wf(q) && MildWakeUp(q, now, script)
    ensures InOrder(q, now, script)
  {
    MildFires(q, now, script);
    WakeUpWf(q, now, script);
  }

  /** Handlers that only post, and only for later than now, are mild, wherever called. */
  lemma {:induction false} LaterPostsAreMild(q: Queue, now: TimeSpec, script: seq<seq<Action>>)
    requires OnlyPosts(script)
    requires forall k, i :: 0 <= k < |script| && 0 <= i < |script[k]| ==> Later(script[k][i].time, now)
    ensures MildWakeUp(q, now, script)
    decreases |script|, |q.pending|
  {
    if q.pending != [] {
      LaterRequestsAreMild(Take(q, 0), Head(script), now);
      LaterPostsAreMild(ActAll(Take(q, 0), Head(script)), now, Tail(script));
    }
  }

  lemma {:induction false} LaterRequestsAreMild(q: Queue, acts: seq<Action>, now: TimeSpec)
    requires OnlyRequests(acts) && forall i :: 0 <= i < |acts| ==> Later(acts[i].time, now)
    ensures AllMild(q, acts, now)
    decreases |acts|
  {
    if acts != [] {
      LaterRequestsAreMild(Act(q, acts[0]), acts[1..], now);
    }
  }

  ghost predicate AllSpare(script: seq<seq<Action>>, index: int) {
    forall k :: 0 <= k < |script| ==> Spares(script[k], index)
  }

  /** An event that is later than now, and not deleted by a handler, is still pending after a
      wake-up that loses nothing. */
  lemma {:induction false} WakeUpKeeps(q: Queue, now: TimeSpec, script: seq<seq<Action>>, e: Entry)
    requires Wf(q) && InOrder(q, now, script) && AllSpare(script, e.index) && e in q.pending && Later(e.time, now)
    ensures var r := WakeUp(q, now, script); r.Done? && e in r.q.pending
    decreases |script|, |q.pending|
  {
    if !Later(q.pending[0].time, now) {
      var q1, acts := Take(q, 0), Head(script);
      var q2, pp := ActAll(q1, acts), First(q1.pending);
      var t' := SlotTime(q1, pp, FirstTime(q1.pending), acts);
      FirstTurn(q, q2, pp, t', now, script);
      InRest(q, e);
      TakeSound(q, 0);
      StaysPending(q1, acts, e);
      if !Later(t', now) {
        GoesOn(q2, pp, t', now, Tail(script));
        WakeUpKeeps(q2, now, Tail(script), e);
      }
    }
  }

  lemma InRest(q: Queue, e: Entry)
    requires e in q.pending && e != q.pending[0]
    ensures e in Take(q, 0).pending
  {
    var i :| 0 <= i < |q.pending| && q.pending[i] == e;
    assert Take(q, 0).pending[i - 1] == e;
  }

  /** Mild handlers: each event due is fired, once and in queue order, and no other is; only
      later events stay, all those included that were pending and that no handler deletes. */
  lemma WakeUpExact(q: Queue, now: TimeSpec, script: seq<seq<Action>>)
    requires Wf(q) && MildWakeUp(q, now, script)
    ensures var r := WakeUp(q, now, script);
            && r.Done? && Wf(r.q) && r.fired == q.pending[..Due(q.pending, now)]
            && (forall e :: e in q.pending ==> (e in r.fired <==> !Later(e.time, now)))
            && (forall e :: e in r.q.pending ==> Later(e.time, now))
            && (forall e :: e in q.pending && Later(e.time, now) && AllSpare(script, e.index) ==> e in r.q.pending)
  {
    var r := WakeUp(q, now, script);
    MildFires(q, now, script);
    MildIsInOrder(q, now, script);
    DueAreAll(q.pending, now);
    DueAreAll(r.q.pending, now);
    forall e | e in q.pending && Later(e.time, now) && AllSpare(script, e.index) ensures e in r.q.pending {
      WakeUpKeeps(q, now, script, e);
    }
  }

  // ----- handlers that break the queue

  /** Two events at the same time, posted to a fresh queue: entry 1 is in front of entry 0. */
  function TwoDue(time: TimeSpec): Queue {
    Post(Post(Fresh(), time, 0, 0), time, 1, 0)
  }

  lemma FirstPosts(q: Queue, time: TimeSpec)
    requires q == Post(Fresh(), time, 0, 0)
    ensures Wf(q) && q.pending == [Entry(0, time, 0, 0)] && q.free == Fresh().free[1..] && q.free[0] == 1
  {
    FreshWf();
    PostWf(Fresh(), time, 0, 0);
  }

  lemma TwoDueIs(time: TimeSpec, q: Queue)
    requires q == TwoDue(time)
    ensures Wf(q) && q.pending == [Entry(1, time, 1, 0), Entry(0, time, 0, 0)]
    ensures forall x :: x in q.free ==> x > 1
  {
    var q0 := Post(Fresh(), time, 0, 0);
    FirstPosts(q0, time);
    PostWf(q0, time, 1, 0);
    assert Place(q0.pending, time) == 0;
    assert q.pending == [Entry(1, time, 1, 0)] + q0.pending;
    NoSharing(q);
    assert Indices(q.pending)[0] == 1 && Indices(q.pending)[1] == 0;
  }

  lemma OneAct(q: Queue, a: Action, p: int, t: TimeSpec)
    ensures ActAll(q, [a]) == Act(q, a) && SlotTime(q, p, t, [a]) == SlotTimeOne(q, p, t, a)
  {
    assert [a][1..] == [];
  }

  /** The handler of the first event posts another one for the same time: it goes in front
      of the second event, and the loop drops it. Two events are fired, none is pending, and
      entry 1 is on neither list any more. */
  lemma LostPost(time: TimeSpec, r: Outcome)
    requires r == WakeUp(TwoDue(time), time, [[Request(time, 2, 0)]])
    ensures r.Done? && |r.fired| == 2 && r.q.pending == [] && 1 !in r.q.free && !Wf(r.q)
  {
    var q := TwoDue(time);
    TwoDueIs(time, q);
    LostTurn(q, time, [[Request(time, 2, 0)]], r);
    Missing(r.q, 1);
  }

  lemma LostTurn(q: Queue, time: TimeSpec, script: seq<seq<Action>>, r: Outcome)
    requires Sound(q) && q.pending == [Entry(1, time, 1, 0), Entry(0, time, 0, 0)] && forall x :: x in q.free ==> x > 1
    requires script == [[Request(time, 2, 0)]] && r == WakeUp(q, time, script)
    ensures r.Done? && |r.fired| == 2 && r.q == Queue([0] + q.free, [])
  {
    var e0, e2 := q.pending[1], Entry(1, time, 2, 0);
    var q1, q2 := Queue([1] + q.free, [e0]), Queue(q.free, [e2, e0]);
    OneAct(q1, script[0][0], 0, time);
    Overtakes(q1, e2, e0);
    assert Take(q, 0) == q1 && q.pending[1..] == [e0];
    FirstTurn(q, q2, 0, time, time, script);
    LoopEnds(q2, time);
  }

  lemma Missing(q: Queue, x: nat)
    requires q.pending == [] && x !in q.free && x < MAX_EVENT
    ensures !Wf(q)
  {
    assert Members(q)[x] == 0;
  }

  lemma Overtakes(q: Queue, e: Entry, e0: Entry)
    requires q.pending == [e0] && e.time == e0.time && q.free != [] && q.free[0] == e.index
    ensures Post(q, e.time, e.handler, e.par) == Queue(q.free[1..], [e, e0])
  {
    assert Place(q.pending, e.time) == 0;
    assert q.pending[..0] + [e] + q.pending[0..] == [e, e0];
  }

  /** Going on to entry 0 behind another one: the other one is dropped. */
  lemma LoopEnds(q: Queue, time: TimeSpec)
    requires |q.pending| == 2 && q.pending[1] == Entry(0, time, 0, 0) && q.pending[0].index != 0
    ensures WakeFrom(q, 0, time, time, []) == Done(Queue([0] + q.free, []), [q.pending[1]])
  {
    assert Find(q.pending[1..], 0) == 0 && Find(q.pending, 0) == 1;
  }

  /** The handler of the first event deletes the second one, which is due: the loop goes on
      with an entry of the free list. */
  lemma DeletedNext(time: TimeSpec)
    ensures WakeUp(TwoDue(time), time, [[Cancel(0)]]).Astray?
  {
    var q, a := TwoDue(time), Cancel(0);
    TwoDueIs(time, q);
    var q1 := Queue([1] + q.free, [Entry(0, time, 0, 0)]);
    OneAct(q1, a, 0, time);
    assert Take(q, 0) == q1 && q.pending[1..] == q1.pending && Act(q1, a).pending == [];
    FirstTurn(q, Act(q1, a), 0, time, time, [[a]]);
  }

  // ----- runs

  datatype Operation =
    | DoPost(time: TimeSpec, handler: int, par: int)
    | DoDelete(index: int)
    | DoWakeUp(now: TimeSpec, script: seq<seq<Action>>)

  datatype State = Running(q: Queue) | Corrupt

  function Perform(s: State, op: Operation): State {
    if s.Corrupt? then s
    else
      match op
      case DoPost(time, handler, par) => Running(Post(s.q, time, handler, par))
      case DoDelete(index) => Running(Delete(s.q, index))
      case DoWakeUp(now, script) =>
        var r := WakeUp(s.q, now, script);
        if r.Done? then Running(r.q) else Corrupt
  }

  function PerformAll(q: Queue, ops: seq<Operation>): State {
    if ops == [] then Running(q) else Perform(PerformAll(q, ops[..|ops| - 1]), ops[|ops| - 1])
  }

  /** In every wake-up of the run, each due entry the loop goes on to is the first pending
      one. */
  ghost predicate Orderly(q: Queue, ops: seq<Operation>) {
    ops == [] ||
    var s, op := PerformAll(q, ops[..|ops| - 1]), ops[|ops| - 1];
    Orderly(q, ops[..|ops| - 1]) && (op.DoWakeUp? && s.Running? ==> InOrder(s.q, op.now, op.script))
  }

  lemma {:induction false} RunSound(q: Queue, ops: seq<Operation>)
    requires Sound(q)
    ensures PerformAll(q, ops).Running? ==> Sound(PerformAll(q, ops).q)
  {
    if ops != [] {
      RunSound(q, ops[..|ops| - 1]);
      var s := PerformAll(q, ops[..|ops| - 1]);
      if s.Running? {
        PerformSound(s.q, ops[|ops| - 1]);
      }
    }
  }

  lemma PerformSound(q: Queue, op: Operation)
    requires Sound(q)
    ensures var s := Perform(Running(q), op);
            && (s.Running? ==> Sound(s.q))
            && (!Wf(q) && s.Running? ==> !Wf(s.q))
            && (Wf(q) ==> (s.Running? && Wf(s.q) <==> (op.DoWakeUp? ==> InOrder(q, op.now, op.script))))
  {
    match op
    case DoPost(time, handler, par) => PostWf(q, time, handler, par);
    case DoDelete(index) => DeleteWf(q, index);
    case DoWakeUp(now, script) =>
      WakeFromSound(q, First(q.pending), FirstTime(q.pending), now, script);
      if Wf(q) {
        WakeUpWf(q, now, script);
      } else if WakeUp(q, now, script).Done? {
        LostForGood(q, WakeUp(q, now, script).q);
      }
  }

  /** Over any run of posts, deletes and wake-ups, with handlers that post and delete as
      they like: each pool entry is on exactly one list and the pending list is sorted if
      and only if every wake-up went on to the first pending entry only. */
  lemma {:induction false} RunWf(q: Queue, ops: seq<Operation>)
    requires Wf(q)
    ensures var s := PerformAll(q, ops); s.Running? && Wf(s.q) <==> Orderly(q, ops)
  {
    if ops != [] {
      var init, op := ops[..|ops| - 1], ops[|ops| - 1];
      var s := PerformAll(q, init);
      RunWf(q, init);
      RunSound(q, init);
      if s.Running? {
        PerformSound(s.q, op);
      }
    }
  }
}
