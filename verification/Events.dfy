/** The periodic timed-event queue of OSLib (external/oslib/kl/event.c): a pool of
    entries threaded into a free list and a pending list sorted by time. */
module Events {

  const MAX_EVENT: nat := 100
  const NULL: int := -1

  datatype TimeSpec = TimeSpec(sec: int, nsec: int)

  /** TIMESPEC_A_GT_B */
  predicate Later(a: TimeSpec, b: TimeSpec) {
    a.sec > b.sec || (a.sec == b.sec && a.nsec > b.nsec)
  }

  /** ADDNANO2TIMESPEC(n, t) on operands that are not negative. */
  function AddNano(n: nat, t: TimeSpec): TimeSpec {
    TimeSpec(t.sec + (t.nsec + n) / 1_000_000_000, (t.nsec + n) % 1_000_000_000)
  }

  /** The nanoseconds a time stands for. */
  function Nanos(t: TimeSpec): int {
    t.sec * 1_000_000_000 + t.nsec
  }

  predicate Normal(t: TimeSpec) {
    0 <= t.nsec < 1_000_000_000
  }

  lemma AddNanoAdds(n: nat, t: TimeSpec)
    requires Normal(t)
    ensures Nanos(AddNano(n, t)) == Nanos(t) + n && Normal(AddNano(n, t))
  {
  }

  /** The order of times is that of their nanoseconds. */
  lemma LaterIs(a: TimeSpec, b: TimeSpec)
    requires Normal(a) && Normal(b)
    ensures Later(a, b) <==> Nanos(a) > Nanos(b)
  {
  }

  // ----- the queue as sequences

  /** A pending event. Handlers and their parameters are opaque identities. */
  datatype Entry = Entry(index: nat, time: TimeSpec, handler: int, par: int)

  datatype Queue = Queue(free: seq<nat>, pending: seq<Entry>)

  function Indices(es: seq<Entry>): (r: seq<nat>)
    ensures |r| == |es| && forall i :: 0 <= i < |es| ==> r[i] == es[i].index
  {
    seq(|es|, i requires 0 <= i < |es| => es[i].index)
  }

  ghost predicate Sorted(es: seq<Entry>) {
    forall i, j :: 0 <= i < j < |es| ==> !Later(es[i].time, es[j].time)
  }

  ghost predicate Distinct(s: seq<nat>) {
    forall i, j :: 0 <= i < j < |s| ==> s[i] != s[j]
  }

  ghost function Members(q: Queue): multiset<nat> {
    multiset(q.free) + multiset(Indices(q.pending))
  }

  /** Each pool entry is on exactly one of the lists, exactly once. */
  ghost predicate Partition(q: Queue) {
    OnceEach(Members(q), MAX_EVENT)
  }

  ghost predicate OnceEach(m: multiset<nat>, n: nat) {
    forall x: nat :: m[x] == if x < n then 1 else 0
  }

  ghost predicate AtMostOnce(m: multiset<nat>, n: nat) {
    forall x: nat :: m[x] <= if x < n then 1 else 0
  }

  /** The lists are acyclic and disjoint and the pending one is sorted; entries may be
      missing from both. */
  ghost predicate Sound(q: Queue) {
    AtMostOnce(Members(q), MAX_EVENT) && Sorted(q.pending)
  }

  /** No entry is missing. */
  ghost predicate Wf(q: Queue) {
    Partition(q) && Sorted(q.pending)
  }

  /** Where a new event goes: before the first one that it is not later than. */
  function Place(es: seq<Entry>, time: TimeSpec): (k: nat)
    ensures k <= |es|
    ensures forall i :: 0 <= i < k ==> Later(time, es[i].time)
    ensures k < |es| ==> !Later(time, es[k].time)
  {
    if es == [] || !Later(time, es[0].time) then 0 else 1 + Place(es[1..], time)
  }

  function Insert(es: seq<Entry>, e: Entry): seq<Entry> {
    var k := Place(es, e.time);
    es[..k] + [e] + es[k..]
  }

  function Post(q: Queue, time: TimeSpec, handler: int, par: int): Queue {
    if q.free == [] then q
    else Queue(q.free[1..], Insert(q.pending, Entry(q.free[0], time, handler, par)))
  }

  /** Position of an event in the pending list, or its length. */
  function Find(es: seq<Entry>, index: int): (k: nat)
    ensures k <= |es| && (k < |es| ==> es[k].index == index)
    ensures forall i :: 0 <= i < k ==> es[i].index != index
  {
    if es == [] || es[0].index == index then 0 else 1 + Find(es[1..], index)
  }

  function Delete(q: Queue, index: int): Queue {
    var k := Find(q.pending, index);
    if k == |q.pending| then q
    else Queue([q.pending[k].index] + q.free, q.pending[..k] + q.pending[k + 1..])
  }

  lemma InsertSorted(es: seq<Entry>, e: Entry)
    requires Sorted(es)
    ensures Sorted(Insert(es, e))
  {
    var k, es' := Place(es, e.time), Insert(es, e);
    forall i, j | 0 <= i < j < |es'| ensures !Later(es'[i].time, es'[j].time) {
      if j < k || i > k {
      } else if j == k {
        assert Later(e.time, es[i].time);
      } else if i == k {
        assert !Later(es[k].time, es[j - 1].time);
      }
    }
  }

  lemma IndicesInsert(es: seq<Entry>, k: nat, e: Entry)
    requires k <= |es|
    ensures Indices(es[..k] + [e] + es[k..]) == Indices(es)[..k] + [e.index] + Indices(es)[k..]
  {
  }

  /** One entry spliced in is one more number. */
  lemma IndicesWith(es: seq<Entry>, k: nat, e: Entry)
    requires k <= |es|
    ensures multiset(Indices(es[..k] + [e] + es[k..])) == multiset(Indices(es)) + multiset{e.index}
  {
    var s := Indices(es);
    IndicesInsert(es, k, e);
    assert s == s[..k] + s[k..];
  }

  lemma PostMembers(q: Queue, time: TimeSpec, handler: int, par: int)
    ensures Members(Post(q, time, handler, par)) == Members(q)
  {
    if q.free != [] {
      IndicesWith(q.pending, Place(q.pending, time), Entry(q.free[0], time, handler, par));
      assert q.free == [q.free[0]] + q.free[1..];
    }
  }

  lemma DeleteMembers(q: Queue, index: int)
    ensures Members(Delete(q, index)) == Members(q)
  {
    var k := Find(q.pending, index);
    if k < |q.pending| {
      var es := q.pending[..k] + q.pending[k + 1..];
      IndicesWith(es, k, q.pending[k]);
      assert q.pending == es[..k] + [q.pending[k]] + es[k..];
    }
  }

  /** A post keeps what the two lists hold together, and the order. */
  lemma PostWf(q: Queue, time: TimeSpec, handler: int, par: int)
    requires Sound(q)
    ensures Sound(Post(q, time, handler, par)) && (Wf(Post(q, time, handler, par)) <==> Wf(q))
  {
    PostMembers(q, time, handler, par);
    if q.free != [] {
      InsertSorted(q.pending, Entry(q.free[0], time, handler, par));
    }
  }

  /** So does a delete. */
  lemma DeleteWf(q: Queue, index: int)
    requires Sound(q)
    ensures Sound(Delete(q, index)) && (Wf(Delete(q, index)) <==> Wf(q))
  {
    DeleteMembers(q, index);
  }

  /** No number occurs twice within a list or on both. */
  lemma NoSharing(q: Queue)
    requires AtMostOnce(Members(q), MAX_EVENT)
    ensures Distinct(q.free) && Distinct(Indices(q.pending))
    ensures forall x :: x in q.free ==> x < MAX_EVENT && x !in Indices(q.pending)
    ensures forall x :: x in Indices(q.pending) ==> x < MAX_EVENT
  {
    forall x: nat
      ensures multiset(q.free)[x] + multiset(Indices(q.pending))[x] <= if x < MAX_EVENT then 1 else 0
    {
      assert Members(q)[x] == multiset(q.free)[x] + multiset(Indices(q.pending))[x];
    }
    OnceIsDistinct(q.free);
    OnceIsDistinct(Indices(q.pending));
    forall x | x in q.free ensures x < MAX_EVENT && x !in Indices(q.pending) {
      assert multiset(q.free)[x] > 0;
    }
    forall x | x in Indices(q.pending) ensures x < MAX_EVENT {
      assert multiset(Indices(q.pending))[x] > 0;
    }
  }

  lemma OnceIsDistinct(s: seq<nat>)
    requires forall x: nat :: multiset(s)[x] <= 1
    ensures Distinct(s)
  {
    forall i, j | 0 <= i < j < |s| ensures s[i] != s[j] {
      assert s == s[..j] + s[j..];
      assert multiset(s)[s[j]] == multiset(s[..j])[s[j]] + multiset(s[j..])[s[j]];
      assert s[j..][0] == s[j] && s[..j][i] == s[i];
      assert s[i] in s[..j] && s[j] in s[j..];
    }
  }

  /** The free list runs dry exactly when every pool entry is pending. */
  lemma PostFailsIffFull(q: Queue)
    requires Partition(q)
    ensures q.free == [] <==> |q.pending| == MAX_EVENT
  {
    var pool := seq(MAX_EVENT, i requires 0 <= i => i as nat);
    Identity(pool);
    assert multiset(pool) == Members(q);
    assert |Members(q)| == |q.free| + |q.pending|;
  }

  lemma {:induction false} Identity(s: seq<nat>)
    requires forall i :: 0 <= i < |s| ==> s[i] == i
    ensures OnceEach(multiset(s), |s|)
  {
    if s != [] {
      var n := |s| - 1;
      Identity(s[..n]);
      assert s == s[..n] + [n];
    }
  }

  /** delete removes the named event and no other. */
  lemma DeleteExact(q: Queue, index: int)
    requires Sound(q)
    ensures forall e :: e in Delete(q, index).pending <==> e in q.pending && e.index != index
  {
    var k, es := Find(q.pending, index), Delete(q, index).pending;
    NoSharing(q);
    if k < |q.pending| {
      forall e | e in q.pending && e.index != index ensures e in es {
        var i :| 0 <= i < |q.pending| && q.pending[i] == e;
        assert es[if i < k then i else i - 1] == e;
      }
      forall e | e in es ensures e in q.pending && e.index != index {
        DeleteOnly(q, index, e);
      }
    }
  }

  lemma DeleteOnly(q: Queue, index: int, e: Entry)
    requires Sound(q) && e in Delete(q, index).pending && Find(q.pending, index) < |q.pending|
    ensures e in q.pending && e.index != index
  {
    NoSharing(q);
    WithoutOne(q.pending, Find(q.pending, index), e);
  }

  lemma WithoutOne(es: seq<Entry>, k: nat, e: Entry)
    requires k < |es| && Distinct(Indices(es)) && e in es[..k] + es[k + 1..]
    ensures e in es && e.index != es[k].index
  {
    var rest := es[..k] + es[k + 1..];
    var i :| 0 <= i < |rest| && rest[i] == e;
    var j := if i < k then i else i + 1;
    assert es[j] == e && Indices(es)[j] != Indices(es)[k];
  }

  /** The queue as event_init leaves it. */
  function Fresh(): Queue {
    Queue(seq(MAX_EVENT, i requires 0 <= i => i as nat), [])
  }

  lemma FreshWf()
    ensures Wf(Fresh())
  {
    Identity(Fresh().free);
    assert Members(Fresh()) == multiset(Fresh().free);
  }
}
