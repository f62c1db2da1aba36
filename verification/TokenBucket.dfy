/** The token bucket that admits writes, over the reals: lazily refilled, retuned by
    resets, drained by acquires whose final compare-and-swap may lose. */
module TokenBucket {

  const MAX_RETRIES: nat := 8

  /** `last` is the microsecond of the last refill and `time` that of the last call. */
  datatype Bucket = Bucket(level: real, last: int, rate: real, capacity: real, time: int)

  datatype Event =
    | Reset(now: int, rate: real, capacity: real)
    | Acquire(now: int, cost: real, lost: bool)
  {
    function At(): int { now }
  }

  const EMPTY := Bucket(0.0, 0, 0.0, 0.0, 0)

  function Least(a: real, b: real): real { if a <= b then a else b }

  /** Tokens that accrue at `rate` between two microseconds. */
  function Accrued(rate: real, from: int, to: int): real {
    (to - from) as real * rate / 1000000.0
  }

  /** What a call at `now` would find: the stored level, refilled and capped. */
  function Available(b: Bucket, now: int): real {
    if now <= b.last || b.rate <= 0.0 then b.level
    else Least(b.level + Accrued(b.rate, b.last, now), b.capacity)
  }

  predicate Grants(b: Bucket, e: Event) {
    e.Acquire? && (e.cost <= 0.0 || (b.capacity > 0.0 && Available(b, e.now) >= e.cost && !e.lost))
  }

  function Clamped(x: real): real { if x < 0.0 then 0.0 else x }

  function Apply(b: Bucket, e: Event): Bucket {
    match e
    case Reset(now, rate, capacity) =>
      var cap := Clamped(capacity);
      Bucket(if b.capacity == 0.0 then cap else Least(b.level, cap), now, Clamped(rate), cap, now)
    case Acquire(now, cost, lost) =>
      if cost <= 0.0 || b.capacity <= 0.0 then b.(time := now)
      else
        var found := Available(b, now);
        if found < cost then b.(level := if lost then b.level else found, last := now, time := now)
        else if lost then b.(time := now)
        else b.(level := found - cost, last := now, time := now)
  }

  function Run(b: Bucket, events: seq<Event>): Bucket
    decreases |events|
  {
    if events == [] then b else Run(Apply(b, events[0]), events[1..])
  }

  /** The clock never runs backwards. */
  predicate Ordered(time: int, events: seq<Event>)
    decreases |events|
  {
    events == [] || (time <= events[0].At() && Ordered(events[0].At(), events[1..]))
  }

  function Taken(b: Bucket, e: Event): real {
    if Grants(b, e) then Clamped(e.cost) else 0.0
  }

  /** Cost taken by the acquires that were granted. */
  function Granted(b: Bucket, events: seq<Event>): real
    decreases |events|
  {
    if events == [] then 0.0
    else Taken(b, events[0]) + Granted(Apply(b, events[0]), events[1..])
  }

  /** The rate integrated over the time of a run. */
  function Earned(b: Bucket, events: seq<Event>): real
    decreases |events|
  {
    if events == [] then 0.0
    else Accrued(b.rate, b.time, events[0].At()) + Earned(Apply(b, events[0]), events[1..])
  }

  function Credit(b: Bucket, e: Event): real {
    if e.Reset? && b.capacity == 0.0 then Clamped(e.capacity) else 0.0
  }

  /** The capacity credited by each reset of a bucket that had none. */
  function Credited(b: Bucket, events: seq<Event>): real
    decreases |events|
  {
    if events == [] then 0.0
    else Credit(b, events[0]) + Credited(Apply(b, events[0]), events[1..])
  }

  ghost predicate Sound(b: Bucket) {
    0.0 <= b.level <= b.capacity && b.rate >= 0.0 && b.last <= b.time
  }

  lemma AccruedGrows(rate: real, from: int, mid: int, to: int)
    requires rate >= 0.0 && from <= mid <= to
    ensures Accrued(rate, from, mid) >= 0.0
    ensures Accrued(rate, from, to) == Accrued(rate, from, mid) + Accrued(rate, mid, to)
  {
    var a, b := (mid - from) as real, (to - mid) as real;
    assert (to - from) as real == a + b;
    assert (a + b) * rate == a * rate + b * rate;
    assert a * rate >= 0.0;
  }

  /** One second at a rate yields that many tokens. */
  lemma SecondYieldsRate(rate: real, t: int, n: nat)
    ensures Accrued(rate, t, t + 1000000 * n) == n as real * rate
  {
    assert (1000000 * n) as real == 1000000.0 * n as real;
    assert 1000000.0 * n as real * rate / 1000000.0 == n as real * rate;
  }

  /** After n seconds a caller finds n times the rate more, but no more than the capacity. */
  lemma RefillsBySecond(b: Bucket, n: nat)
    requires Sound(b)
    ensures var full := b.level + n as real * b.rate;
      Available(b, b.last + 1000000 * n) == if full <= b.capacity then full else b.capacity
  {
    SecondYieldsRate(b.rate, b.last, n);
  }

  /** A bucket left alone gains at most what its rate gives, and stays within capacity. */
  lemma AvailableGrows(b: Bucket, now: int)
    requires Sound(b) && b.time <= now
    ensures 0.0 <= Available(b, b.time) <= Available(b, now) <= b.capacity
    ensures Available(b, now) <= Available(b, b.time) + Accrued(b.rate, b.time, now)
  {
    AccruedGrows(b.rate, b.last, b.time, now);
    AccruedGrows(b.rate, b.time, now, now);
  }

  lemma ApplySound(b: Bucket, e: Event)
    requires Sound(b) && b.time <= e.At()
    ensures Sound(Apply(b, e))
  {
    AvailableGrows(b, e.At());
  }

  /** One call: what it grants and what it leaves are paid for by what was there, what
      accrued and what a reset credited. */
  lemma StepPaid(b: Bucket, e: Event)
    requires Sound(b) && b.time <= e.At()
    ensures Taken(b, e) + Available(Apply(b, e), e.At())
         <= Available(b, b.time) + Accrued(b.rate, b.time, e.At()) + Credit(b, e)
  {
    AvailableGrows(b, e.At());
    AccruedGrows(b.rate, b.last, b.time, e.At());
  }

  /** Over every window of every run: the level stays within the capacity, and the cost
      granted is at most what the bucket held when the window opened, plus the rate
      integrated over the window, plus the capacity credited by resets from zero. */
  lemma {:induction false} AdmissionBound(b: Bucket, events: seq<Event>)
    requires Sound(b) && Ordered(b.time, events)
    ensures Sound(Run(b, events))
    ensures Granted(b, events) + Available(Run(b, events), Run(b, events).time)
         <= Available(b, b.time) + Earned(b, events) + Credited(b, events)
    decreases |events|
  {
    hide Available, Grants, Taken, Credit;
    if events != [] {
      var next := Apply(b, events[0]);
      ApplySound(b, events[0]);
      assert next.time == events[0].At();
      StepPaid(b, events[0]);
      AdmissionBound(next, events[1..]);
    }
  }

  /** From a new bucket the whole allowance is the rate over time and the credits. */
  lemma FreshBound(events: seq<Event>)
    requires Ordered(0, events)
    ensures Granted(EMPTY, events) <= Earned(EMPTY, events) + Credited(EMPTY, events)
  {
    AdmissionBound(EMPTY, events);
    AvailableGrows(Run(EMPTY, events), Run(EMPTY, events).time);
  }

  lemma {:induction false} NoRetune(b: Bucket, events: seq<Event>)
    requires b.rate >= 0.0 && Ordered(b.time, events) && forall i | 0 <= i < |events| :: events[i].Acquire?
    ensures b.time <= Run(b, events).time && Credited(b, events) == 0.0
    ensures Earned(b, events) == Accrued(b.rate, b.time, Run(b, events).time)
    decreases |events|
  {
    hide Available;
    if events != [] {
      var next := Apply(b, events[0]);
      NoRetune(next, events[1..]);
      AccruedGrows(b.rate, b.time, next.time, Run(next, events[1..]).time);
    }
  }

  /** In a window without retunes the cost granted is at most the capacity and what the rate
      gives over the time of the window. */
  lemma WindowBound(b: Bucket, events: seq<Event>)
    requires Sound(b) && Ordered(b.time, events) && forall i | 0 <= i < |events| :: events[i].Acquire?
    ensures Granted(b, events) <= b.capacity + Accrued(b.rate, b.time, Run(b, events).time)
  {
    hide Available, Ordered, Granted, Run;
    AdmissionBound(b, events);
    NoRetune(b, events);
    AvailableGrows(b, b.time);
    AvailableGrows(Run(b, events), Run(b, events).time);
  }

  /** No reset, no lost swap and no refill that meets the cap: nothing is lost either,
      and the bound is met exactly. */
  predicate Tight(b: Bucket, events: seq<Event>)
    decreases |events|
  {
    events == [] ||
    (var e := events[0];
     e.Acquire? && !e.lost && b.level + Accrued(b.rate, b.last, e.now) <= b.capacity
     && Tight(Apply(b, e), events[1..]))
  }

  lemma {:induction false} TightExact(b: Bucket, events: seq<Event>)
    requires Sound(b) && Ordered(b.time, events) && Tight(b, events)
    ensures Granted(b, events) + Available(Run(b, events), Run(b, events).time)
         == Available(b, b.time) + Earned(b, events)
    decreases |events|
  {
    if events != [] {
      var e := events[0];
      ApplySound(b, e);
      StepExact(b, e);
      TightExact(Apply(b, e), events[1..]);
    }
  }

  lemma StepExact(b: Bucket, e: Event)
    requires Sound(b) && b.time <= e.At()
    requires e.Acquire? && !e.lost && b.level + Accrued(b.rate, b.last, e.now) <= b.capacity
    ensures Taken(b, e) + Available(Apply(b, e), e.At())
         == Available(b, b.time) + Accrued(b.rate, b.time, e.At())
  {
    AccruedGrows(b.rate, b.last, b.time, e.At());
    AccruedGrows(b.rate, b.time, e.At(), e.At());
  }

  /** A retune keeps what a caller would have found exactly when nothing has accrued
      since the last refill that the new capacity could hold: `Reset` restarts the
      refill clock without crediting the time before it. */
  lemma ResetKeepsIff(b: Bucket, now: int, rate: real, capacity: real)
    requires Sound(b) && b.time <= now && b.capacity > 0.0
    ensures
      var after := Apply(b, Reset(now, rate, capacity));
      (Available(after, now) == Least(Available(b, now), Clamped(capacity)))
        <==> (now <= b.last || b.rate == 0.0 || b.level >= Least(b.capacity, Clamped(capacity)))
  {
    if now > b.last && b.rate > 0.0 {
      assert (now - b.last) as real * b.rate > 0.0;
    }
  }

  /** Retuned at every tick with no call in between, an empty bucket stays empty however
      long that lasts and whatever the rate. */
  lemma {:induction false} ResetsStarve(b: Bucket, events: seq<Event>)
    requires b.level == 0.0 && b.capacity > 0.0 && b.last == b.time
    requires forall i | 0 <= i < |events| :: events[i].Reset? && events[i].capacity > 0.0
    ensures Available(Run(b, events), Run(b, events).time) == 0.0
    decreases |events|
  {
    if events != [] {
      ResetsStarve(Apply(b, events[0]), events[1..]);
    }
  }

  // ------------------------------------------------------------------ the bucket object

  class Limiter {
    var tokens: real
    var lastRefill: int
    var rate: real
    var capacity: real
    ghost var time: int

    ghost function View(): Bucket
      reads this
    {
      Bucket(tokens, lastRefill, rate, capacity, time)
    }

    constructor (now: int, ratePerSec: real, cap: real)
      ensures View() == Apply(EMPTY, Event.Reset(now, ratePerSec, cap))
    {
      capacity := Clamped(cap);
      rate := Clamped(ratePerSec);
      tokens := Clamped(cap);
      lastRefill := now;
      time := now;
    }

    method Reset(now: int, ratePerSec: real, cap: real)
      requires Sound(View()) && time <= now
      modifies this
      ensures Sound(View()) && View() == Apply(old(View()), Event.Reset(now, ratePerSec, cap))
    {
      var newCap := if cap < 0.0 then 0.0 else cap;
      var newRate := if ratePerSec < 0.0 then 0.0 else ratePerSec;
      var oldCap := capacity;
      rate := newRate;
      capacity := newCap;
      if oldCap == 0.0 {
        tokens := newCap;
      } else if tokens > newCap {
        tokens := newCap;
      }
      lastRefill := now;
      time := now;
    }

    /** The refill used by acquires and by metrics. */
    method Refilled(now: int) returns (level: real)
      ensures level == Available(View(), now)
    {
      level := tokens;
      if now <= lastRefill || rate <= 0.0 {
        return;
      }
      level := level + (now - lastRefill) as real * rate / 1000000.0;
      if level > capacity {
        level := capacity;
      }
    }

    /** Up to eight attempts; attempt `i` reads the clock at `clock(i)` and loses its swap
        when `loses(i)`. The call is one event of the run, and answers what it grants. */
    method TryAcquire(cost: real, clock: nat -> int, loses: nat -> bool) returns (ok: bool, ghost e: Event)
      requires Sound(View()) && time <= clock(0)
      requires forall i: nat :: clock(i) <= clock(i + 1)
      modifies this
      ensures e.Acquire? && e.cost == cost && old(time) <= e.now
      ensures Sound(View()) && View() == Apply(old(View()), e) && ok == Grants(old(View()), e)
      ensures !ok && cost > 0.0 ==>
        old(capacity) == 0.0 || cost > Available(old(View()), e.now) || forall i: nat | i < 8 :: loses(i)
    {
      if cost <= 0.0 || capacity <= 0.0 {
        e := Acquire(clock(0), cost, false);
        time := clock(0);
        return cost <= 0.0, e;
      }
      var i := 0;
      e := Acquire(clock(0), cost, true);
      while i < MAX_RETRIES
        invariant 0 <= i <= MAX_RETRIES
        invariant old(time) <= clock(i) && unchanged(this)
        invariant forall j: nat | j < i :: loses(j)
        invariant i > 0 ==> e == Acquire(clock(i - 1), cost, true) && Available(View(), clock(i - 1)) >= cost
        invariant i > 0 ==> old(time) <= clock(i - 1)
      {
        var now := clock(i);
        var found := Refilled(now);
        e := Acquire(now, cost, loses(i));
        ApplySound(View(), e);
        if found < cost {
          if !loses(i) {
            tokens := found;
          }
          lastRefill := now;
          time := now;
          return false, e;
        }
        if !loses(i) {
          tokens := found - cost;
          lastRefill := now;
          time := now;
          return true, e;
        }
        assert clock(i) <= clock(i + 1);
        i := i + 1;
      }
      time := clock(i - 1);
      ok := false;
    }
  }
}
