/** The free-running timer of OSLib: ADDPITSPEC and PITSPEC2USEC
    (external/oslib/ll/i386/pit.h), PITSPEC2TIMESPEC (external/oslib/ll/sys/ll/time.h)
    and the two readers of the counter, periodic_wake_up (external/oslib/kl/event.c)
    and ll_gettime (external/oslib/kl/time.c). Time is counted in ticks of the
    1.197 MHz counter since it was started from zero. */
module Ticks {
  import opened Bits

  const GIGA: nat := 1432809 // 1197 * 1197 ticks, exactly 1197000 microseconds

  /** A value stored in a 32-bit long. */
  function Int32(v: int): int {
    (v + 0x8000_0000) % W - 0x8000_0000
  }

  /** What the 16-bit down-counter shows after t ticks. */
  function Shown(t: nat): nat {
    (0 - t) % 0x1_0000
  }

  /** It starts from 0 and goes down by one each tick, from 0 to 65535. */
  lemma ShownCountsDown(t: nat)
    ensures Shown(0) == 0 && Shown(t + 1) == if Shown(t) == 0 then 65535 else Shown(t) - 1
  {
  }

  /** Whole microseconds in t ticks. */
  function Micros(t: nat): nat {
    1000 * t / 1197
  }

  datatype PitSpec = PitSpec(units: int, gigas: int)

  function Split(count: nat): PitSpec {
    PitSpec(count % GIGA, Int32(count / GIGA))
  }

  /** ADDPITSPEC(n, t). The operands of / and % are not negative, so truncation and
      Euclidean division agree. */
  function AddPitSpec(n: nat, t: PitSpec): PitSpec
    requires 0 <= t.units
  {
    var units := t.units + n;
    PitSpec(units % GIGA, Int32(t.gigas + units / GIGA))
  }

  /** PITSPEC2USEC(t), every operation in 32 bits, returned as an unsigned TIME. */
  function PitSpecToUsec(t: PitSpec): word {
    Int32(Int32(t.units * 1000) / 1197 + Int32(Int32(t.gigas * 1000) * 1197)) % W
  }

  lemma SplitAdd(count: nat, n: nat)
    requires n < 0x1_0000
    ensures AddPitSpec(n, Split(count)) == Split(count + n)
  {
    var u, g := count % GIGA, count / GIGA;
    var c := (u + n) / GIGA;
    DivModUnique(count + n, GIGA, g + c, (u + n) % GIGA);
    var k := Int32Wraps(g);
    Int32Periodic(g + c, k);
  }

  lemma Int32Periodic(v: int, k: int)
    ensures Int32(v + k * W) == Int32(v)
  {
    var q, r := (v + 0x8000_0000) / W, (v + 0x8000_0000) % W;
    DivModUnique(v + k * W + 0x8000_0000, W, q + k, r);
  }

  lemma Int32Wraps(v: int) returns (k: int)
    ensures Int32(v) == v + k * W
    ensures -0x8000_0000 <= v < 0x8000_0000 ==> Int32(v) == v
  {
    k := -((v + 0x8000_0000) / W);
  }

  lemma MicrosSplit(count: nat)
    ensures Micros(count) == (count % GIGA) * 1000 / 1197 + (count / GIGA) * 1197000
    ensures (count % GIGA) * 1000 / 1197 < 1197000
  {
  }

  /** The split representation makes the conversion exact, up to the width of the
      result. */
  lemma UsecExact(count: nat)
    ensures PitSpecToUsec(Split(count)) == Micros(count) % W
  {
    var u, g := count % GIGA, count / GIGA;
    var k0 := Int32Wraps(u * 1000);
    var k1 := Int32Wraps(g);
    var k2 := Int32Wraps(Int32(g) * 1000);
    var k3 := Int32Wraps(Int32(Int32(g) * 1000) * 1197);
    var sum := Int32(u * 1000) / 1197 + Int32(Int32(Int32(g) * 1000) * 1197);
    var k4 := Int32Wraps(sum);
    MicrosSplit(count);
    var k := k1 * 1197000 + k2 * 1197 + k3 + k4;
    assert Int32(sum) == Micros(count) + k * W;
    DivModUnique(Int32(sum), W, Micros(count) / W + k, Micros(count) % W);
  }

  /** The reported time is the true one exactly as long as it fits in a TIME. */
  lemma UsecTrueIffFits(count: nat)
    ensures PitSpecToUsec(Split(count)) == Micros(count) <==> Micros(count) < W
  {
    UsecExact(count);
  }

  /** Reported time does not go back within that range. */
  lemma UsecMonotone(count: nat, count': nat)
    requires count <= count' && Micros(count') < W
    ensures PitSpecToUsec(Split(count)) <= PitSpecToUsec(Split(count'))
  {
    UsecTrueIffFits(count);
    UsecTrueIffFits(count');
    MicrosMonotone(count, count');
  }

  lemma MicrosMonotone(count: nat, count': nat)
    requires count <= count'
    ensures Micros(count) <= Micros(count')
  {
    DivBound(1000 * count, 1197);
    DivBound(1000 * count', 1197);
  }

  datatype TimeSpec = TimeSpec(sec: int, nsec: int)

  /** PITSPEC2TIMESPEC(a, b); gigas * 1197 are milliseconds, in 32 bits. */
  function PitSpecToTimeSpec(t: PitSpec): TimeSpec
    requires 0 <= t.units < GIGA
  {
    Spread(Int32(t.gigas * 1197), t.units * 1000 / 1197)
  }

  /** Milliseconds, and microseconds besides, as seconds and nanoseconds. */
  function Spread(msec: int, u: int): TimeSpec {
    var usec := u + Remainder(msec, 1000) * 1000;
    TimeSpec(Quotient(msec, 1000) + Quotient(usec, 1_000_000), Remainder(usec, 1_000_000) * 1000)
  }

  /** The microseconds a time structure stands for. */
  function MicrosOf(t: TimeSpec): int {
    t.sec * 1_000_000 + t.nsec / 1000
  }

  /** The structure ll_gettime(TIME_NEW) fills in stands for the time counted exactly while
      the milliseconds fit in a long, that is for 24.8 days. */
  lemma TimeSpecRightIffFits(count: nat)
    ensures MicrosOf(PitSpecToTimeSpec(Split(count))) == Micros(count) <==> count / GIGA * 1197 < 0x8000_0000
    ensures PitSpecToTimeSpec(Split(count)).nsec % 1000 == 0
    ensures count / GIGA * 1197 < 0x8000_0000 ==>
              0 <= PitSpecToTimeSpec(Split(count)).nsec < 1_000_000_000
  {
    var g, u := count / GIGA, (count % GIGA) * 1000 / 1197;
    MicrosSplit(count);
    SecondsAndRest(Int32(Int32(g) * 1197), u);
    MillisWrap(g);
  }

  lemma MillisWrap(g: nat)
    ensures Int32(Int32(g) * 1197) == g * 1197 <==> g * 1197 < 0x8000_0000
  {
    var k1 := Int32Wraps(g);
    var k2 := Int32Wraps(Int32(g) * 1197);
    WrapsApart(Int32(Int32(g) * 1197), g * 1197, k1 * 1197 + k2);
  }

  /** A wrapped value is the true one only if the true one is in range. */
  lemma WrapsApart(w: int, v: int, k: int)
    requires w == v + k * W && -0x8000_0000 <= w < 0x8000_0000 && v >= 0
    ensures w == v <==> v < 0x8000_0000
  {
  }

  lemma SecondsAndRest(msec: int, u: nat)
    requires u < 1197000
    ensures var t := Spread(msec, u);
            MicrosOf(t) == msec * 1000 + u && t.nsec % 1000 == 0 && (msec >= 0 ==> 0 <= t.nsec < 1_000_000_000)
  {
  }

  /** An hour and twelve minutes: the number returned has wrapped. */
  lemma UsecWraps()
    ensures Micros(3589 * GIGA) == 4_296_033_000 && PitSpecToUsec(Split(3589 * GIGA)) == 1_065_704
  {
    UsecExact(3589 * GIGA);
  }

  // ----- readings of the counter

  /** The counter as both readers keep it. */
  class Counter {
    var lastTime: nat
    var spec: PitSpec
    ghost var now: nat    // true ticks at the last reading
    ghost var counted: nat // ticks accounted for

    ghost predicate Valid()
      reads this
    {
      lastTime == Shown(now) && spec == Split(counted)
    }

    /** event_init: the hardware counter and lastTime both start from zero. */
    constructor ()
      ensures Valid() && now == 0 && counted == 0
    {
      lastTime, spec, now, counted := 0, PitSpec(0, 0), 0, 0;
    }

    /** The head of periodic_wake_up. tmp is what pit_read returns at time t. */
    method WakeUp(tmp: nat, ghost t: nat)
      requires Valid() && now <= t && tmp == Shown(t)
      modifies this
      ensures Valid() && now == t && counted == old(counted) + (t - old(now)) % 0x1_0000
    {
      var n := (lastTime - tmp) % 0x1_0000;
      TicksBetween(now, t);
      SplitAdd(counted, n);
      spec := AddPitSpec(n, spec);
      lastTime := tmp;
      now, counted := t, counted + n;
    }

    /** ll_gettime(TIME_NEW, tsres); wanted says that tsres is not NULL. */
    method GetTimeNew(tmp: nat, wanted: bool, ghost t: nat) returns (usec: word, ts: TimeSpec)
      requires Valid() && now <= t && tmp == Shown(t)
      modifies this
      ensures Valid() && now == t && counted == old(counted) + (t - old(now)) % 0x1_0000
      ensures usec == Micros(counted) % W
      ensures wanted ==> ts == PitSpecToTimeSpec(Split(counted))
      ensures wanted ==> (MicrosOf(ts) == Micros(counted) <==> counted / GIGA * 1197 < 0x8000_0000)
    {
      WakeUp(tmp, t);
      UsecExact(counted);
      ts := TimeSpec(0, 0);
      if wanted {
        TimeSpecRightIffFits(counted);
        ts := PitSpecToTimeSpec(spec);
      }
      usec := PitSpecToUsec(spec);
    }
  }

  lemma TicksBetween(t: nat, t': nat)
    requires t <= t'
    ensures (Shown(t) - Shown(t')) % 0x1_0000 == (t' - t) % 0x1_0000
  {
  }

  // ----- any interleaving of readings

  /** Ticks accounted for after readings at the given times, by WakeUp or GetTimeNew
      alike. */
  function Counted(times: seq<nat>): nat
    requires Ordered(times)
  {
    if |times| == 0 then 0
    else
      var n := |times| - 1;
      Counted(times[..n]) + (times[n] - (if n == 0 then 0 else times[n - 1])) % 0x1_0000
  }

  predicate Ordered(times: seq<nat>) {
    forall i :: 0 < i < |times| ==> times[i - 1] <= times[i]
  }

  /** Every reading comes before the 16-bit counter has gone round. */
  predicate Prompt(times: seq<nat>) {
    && (|times| > 0 ==> times[0] < 0x1_0000)
    && forall i :: 0 < i < |times| ==> times[i] < times[i - 1] + 0x1_0000
  }

  /** The count is the elapsed time exactly when every reading is prompt. */
  lemma {:induction false} CountedIffPrompt(times: seq<nat>)
    requires Ordered(times)
    ensures Counted(times) <= if |times| == 0 then 0 else times[|times| - 1]
    ensures |times| > 0 ==> (Counted(times) == times[|times| - 1] <==> Prompt(times))
  {
    if |times| > 0 {
      var n := |times| - 1;
      CountedIffPrompt(times[..n]);
      var gap := times[n] - if n == 0 then 0 else times[n - 1];
      assert Prompt(times) <==> Prompt(times[..n]) && gap < 0x1_0000;
    }
  }

  /** A single reading that comes too late: nothing is counted. */
  lemma LateReading()
    ensures Counted([0x1_0000]) == 0 && !Prompt([0x1_0000])
  {
    assert [0x1_0000][..0] == [];
  }

  /** Readings at the given times, each by one of the two readers. */
  method ReadAt(c: Counter, times: seq<nat>, byWakeUp: seq<bool>)
    requires c.Valid() && c.now == 0 && c.counted == 0 && Ordered(times) && |byWakeUp| == |times|
    modifies c
    ensures c.Valid() && c.counted == Counted(times) && c.now == if |times| == 0 then 0 else times[|times| - 1]
  {
    for i := 0 to |times|
      invariant c.Valid() && Ordered(times[..i]) && c.counted == Counted(times[..i])
      invariant c.now == if i == 0 then 0 else times[i - 1]
    {
      assert times[..i + 1][..i] == times[..i];
      assert i > 0 ==> times[..i + 1][i - 1] == times[i - 1];
      if byWakeUp[i] {
        c.WakeUp(Shown(times[i]), times[i]);
      } else {
        var usec, ts := c.GetTimeNew(Shown(times[i]), true, times[i]);
      }
    }
    assert times[..|times|] == times;
  }
}
