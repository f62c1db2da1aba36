/** The connection pool as a protocol: checkouts, checkins, failed connects and health
    passes, interleaved at every point where the pool's mutex is free. */
module Pool {
  import opened Basics

  type Conn = nat

  datatype Limits = Limits(min: nat, max: nat)

  /** The constructor's defaults: at least one connection, at most four times as many. */
  function Normalised(min: nat, max: nat, cores: nat): (l: Limits)
    ensures 1 <= l.min <= l.max
    ensures min > 0 ==> l.min == min
    ensures min == 0 ==> (l.min == cores || (cores == 0 && l.min == 1))
    ensures max >= l.min ==> l.max == max
    ensures max == 0 ==> l.max == 4 * l.min
    ensures 0 < max < l.min ==> l.max == l.min
  {
    var lo := if min > 0 then min else if cores > 1 then cores else 1;
    var hi := if max > 0 then max else lo * 4;
    Limits(lo, if hi < lo then lo else hi)
  }

  datatype Health = Resting | Pinging(drained: seq<Conn>, survivors: seq<Conn>) | TopUp | Creating

  /** `inspecting` are popped but not yet judged; `connecting` counts reserved places whose
      connect is under way; `next` is the next connection to be made. */
  datatype State = State(
    idle: seq<Conn>,
    inspecting: set<Conn>,
    borrowed: set<Conn>,
    connecting: nat,
    health: Health,
    live: int,
    next: Conn,
    topUps: nat)

  datatype Step =
    | Pop
    | Judge(c: Conn, ready: bool)
    | Reserve
    | Connect(ok: bool)
    | Checkin(c: Conn, healthy: bool)
    | HealthDrain
    | HealthPing(ok: bool)
    | HealthReturn
    | TopUpCheck
    | TopUpCreate(ok: bool)

  function Apply(l: Limits, s: State, step: Step): State {
    match step
    case Pop =>
      if s.idle == [] then s else s.(idle := s.idle[1..], inspecting := s.inspecting + {s.idle[0]})
    case Judge(c, ready) =>
      if c !in s.inspecting then s
      else if ready then s.(inspecting := s.inspecting - {c}, borrowed := s.borrowed + {c})
      else s.(inspecting := s.inspecting - {c}, live := s.live - 1)
    case Reserve =>
      if s.idle != [] || s.live >= l.max then s else s.(live := s.live + 1, connecting := s.connecting + 1)
    case Connect(ok) =>
      if s.connecting == 0 then s
      else if ok then s.(connecting := s.connecting - 1, borrowed := s.borrowed + {s.next}, next := s.next + 1)
      else s.(connecting := s.connecting - 1, live := s.live - 1)
    case Checkin(c, healthy) =>
      if c !in s.borrowed then s
      else if healthy then s.(borrowed := s.borrowed - {c}, idle := s.idle + [c])
      else s.(borrowed := s.borrowed - {c}, live := s.live - 1)
    case HealthDrain =>
      if !s.health.Resting? then s else s.(health := Pinging(s.idle, []), idle := [])
    case HealthPing(ok) =>
      if !s.health.Pinging? || s.health.drained == [] then s
      else
        var c, rest := s.health.drained[0], s.health.drained[1..];
        if ok then s.(health := Pinging(rest, s.health.survivors + [c]))
        else s.(health := Pinging(rest, s.health.survivors), live := s.live - 1)
    case HealthReturn =>
      if !s.health.Pinging? || s.health.drained != [] then s
      else s.(idle := s.idle + s.health.survivors, health := TopUp)
    case TopUpCheck =>
      if !s.health.TopUp? then s else s.(health := if s.live < l.min then Creating else Resting)
    case TopUpCreate(ok) =>
      if !s.health.Creating? then s
      else if ok then s.(idle := s.idle + [s.next], next := s.next + 1, live := s.live + 1, health := TopUp, topUps := s.topUps + 1)
      else s.(health := Resting)
  }

  function Run(l: Limits, s: State, steps: seq<Step>): State
    decreases |steps|
  {
    if steps == [] then s else Run(l, Apply(l, s, steps[0]), steps[1..])
  }

  /** The eager fill of the constructor: it stops at the first connect that fails. */
  method Fill(l: Limits, connects: nat -> bool) returns (s: State)
    ensures |s.idle| <= l.min && Started(s)
    ensures |s.idle| < l.min ==> !connects(|s.idle|)
    ensures forall i | 0 <= i < |s.idle| :: connects(i)
  {
    s := State([], {}, {}, 0, Resting, 0, 0, 0);
    while |s.idle| < l.min && connects(|s.idle|)
      invariant |s.idle| <= l.min && Started(s)
      invariant forall i | 0 <= i < |s.idle| :: connects(i)
    {
      s := s.(idle := s.idle + [s.next], live := s.live + 1, next := s.next + 1);
    }
  }

  /** The state in which the constructor leaves the pool. */
  ghost predicate Started(s: State) {
    s == State(s.idle, {}, {}, 0, Resting, |s.idle|, |s.idle|, 0) && forall i | 0 <= i < |s.idle| :: s.idle[i] == i
  }

  // ------------------------------------------------------------------ invariant

  /** Every connection the pool holds in order: idle, being pinged, survived. */
  function Lined(s: State): seq<Conn> {
    if s.health.Pinging? then s.idle + (s.health.drained + s.health.survivors) else s.idle
  }

  ghost predicate Distinct(q: seq<Conn>) {
    forall i, j | 0 <= i < j < |q| :: q[i] != q[j]
  }

  /** Each connection is in one place only: the lines hold no duplicates and share none
      with the two sets, which are disjoint; no number at or above `next` is in use. */
  ghost predicate OnePlace(s: State) {
    && Distinct(Lined(s))
    && (forall c | c in Lined(s) :: c !in s.inspecting && c !in s.borrowed && c < s.next)
    && (forall c | c in s.inspecting :: c !in s.borrowed && c < s.next)
    && (forall c | c in s.borrowed :: c < s.next)
  }

  /** The live count is the connections in every place plus the places reserved for
      connects under way. */
  ghost predicate Counted(s: State) {
    s.live == |Lined(s)| + |s.inspecting| + |s.borrowed| + s.connecting
  }

  ghost predicate Bounded(l: Limits, s: State) {
    s.live <= l.max + 1 && (s.topUps == 0 ==> s.live <= l.max)
  }

  ghost predicate Inv(l: Limits, s: State) {
    OnePlace(s) && Counted(s) && Bounded(l, s)
  }

  /** A connection inserted anywhere into a line that does not hold it. */
  lemma InsertDistinct(a: seq<Conn>, c: Conn, b: seq<Conn>)
    requires Distinct(a + b) && c !in a + b
    ensures Distinct(a + [c] + b)
    ensures forall x :: x in a + [c] + b <==> x == c || x in a + b
  {
    var q := a + [c] + b;
    forall i, j | 0 <= i < j < |q| ensures q[i] != q[j] {
      assert i != |a| ==> q[i] == (a + b)[if i < |a| then i else i - 1];
      assert j != |a| ==> q[j] == (a + b)[if j < |a| then j else j - 1];
    }
  }

  lemma RemoveDistinct(a: seq<Conn>, c: Conn, b: seq<Conn>)
    requires Distinct(a + [c] + b)
    ensures Distinct(a + b) && c !in a + b
    ensures forall x :: x in a + b ==> x in a + [c] + b
  {
    var q := a + [c] + b;
    forall i, j | 0 <= i < j < |a + b| ensures (a + b)[i] != (a + b)[j] {
      assert (a + b)[i] == q[if i < |a| then i else i + 1];
      assert (a + b)[j] == q[if j < |a| then j else j + 1];
    }
    forall i | 0 <= i < |a + b| ensures (a + b)[i] != c {
      assert (a + b)[i] == q[if i < |a| then i else i + 1];
      assert q[|a|] == c;
    }
  }

  lemma PopKeeps(l: Limits, s: State)
    requires Inv(l, s)
    ensures Inv(l, Apply(l, s, Pop))
  {
    if s.idle != [] {
      var t := Apply(l, s, Pop);
      assert Lined(s) == [] + [s.idle[0]] + Lined(t);
      assert Lined(t) == [] + Lined(t);
      RemoveDistinct([], s.idle[0], Lined(t));
      assert s.idle[0] in Lined(s);
    }
  }

  lemma CheckinKeeps(l: Limits, s: State, c: Conn, healthy: bool)
    requires Inv(l, s)
    ensures Inv(l, Apply(l, s, Checkin(c, healthy)))
  {
    var t := Apply(l, s, Checkin(c, healthy));
    if c in s.borrowed && healthy {
      var rest := Lined(s)[|s.idle|..];
      assert Lined(s) == s.idle + rest;
      assert Lined(t) == s.idle + [c] + rest;
      InsertDistinct(s.idle, c, rest);
    }
  }

  lemma PingKeeps(l: Limits, s: State, ok: bool)
    requires Inv(l, s)
    ensures Inv(l, Apply(l, s, HealthPing(ok)))
  {
    hide Distinct;
    if s.health.Pinging? && s.health.drained != [] {
      var t := Apply(l, s, HealthPing(ok));
      var c, rest, kept := s.health.drained[0], s.health.drained[1..], s.health.survivors;
      assert s.health.drained == [c] + rest;
      assert Lined(s) == s.idle + [c] + (rest + kept);
      RemoveDistinct(s.idle, c, rest + kept);
      assert c in Lined(s);
      if ok { Moved(s.idle, c, rest, kept); }
    }
  }

  /** From the front of the line being pinged to the end of the survivors. */
  lemma Moved(idle: seq<Conn>, c: Conn, rest: seq<Conn>, kept: seq<Conn>)
    requires Distinct(idle + (rest + kept)) && c !in idle + (rest + kept)
    ensures var line := idle + (rest + (kept + [c]));
      && Distinct(line) && |line| == |idle + (rest + kept)| + 1
      && forall x :: x in line <==> x == c || x in idle + (rest + kept)
  {
    hide Distinct;
    var all := idle + (rest + kept);
    assert all + [] == all;
    InsertDistinct(all, c, []);
    assert all + [c] + [] == idle + (rest + (kept + [c]));
  }

  lemma CreateKeeps(l: Limits, s: State, ok: bool)
    requires Inv(l, s) && Roomy(l, s)
    ensures Inv(l, Apply(l, s, TopUpCreate(ok)))
  {
    if s.health.Creating? && ok {
      var t := Apply(l, s, TopUpCreate(ok));
      assert s.idle == s.idle + [];
      InsertDistinct(s.idle, s.next, []);
      assert Lined(t) == s.idle + [s.next] + [];
    }
  }

  /** While the health thread connects, nobody else can have filled the pool beyond its
      maximum: the reason one top-up can overshoot by one, and no more. */
  ghost predicate Roomy(l: Limits, s: State) {
    s.health.Creating? ==> s.live <= l.max
  }

  lemma JudgeKeeps(l: Limits, s: State, c: Conn, ready: bool)
    requires Inv(l, s)
    ensures Inv(l, Apply(l, s, Judge(c, ready)))
  {
    assert Lined(Apply(l, s, Judge(c, ready))) == Lined(s);
  }

  lemma ConnectKeeps(l: Limits, s: State, ok: bool)
    requires Inv(l, s)
    ensures Inv(l, Apply(l, s, Connect(ok)))
  {
    assert Lined(Apply(l, s, Connect(ok))) == Lined(s);
  }

  /** The steps that only reserve, or move a whole line. */
  lemma LineKeeps(l: Limits, s: State, step: Step)
    requires step in {Reserve, HealthDrain, HealthReturn, TopUpCheck}
    requires Inv(l, s)
    ensures Inv(l, Apply(l, s, step))
  {
    hide Distinct;
    var t := Apply(l, s, step);
    assert Lined(t) == Lined(s);
    assert t.inspecting == s.inspecting && t.borrowed == s.borrowed && t.next == s.next;
  }

  lemma StepKeeps(l: Limits, s: State, step: Step)
    requires l.min <= l.max
    requires Inv(l, s) && Roomy(l, s)
    ensures Inv(l, Apply(l, s, step)) && Roomy(l, Apply(l, s, step))
  {
    hide OnePlace, Counted, Bounded;
    match step
    case Pop => PopKeeps(l, s);
    case Judge(c, ready) => JudgeKeeps(l, s, c, ready);
    case Connect(ok) => ConnectKeeps(l, s, ok);
    case Checkin(c, healthy) => CheckinKeeps(l, s, c, healthy);
    case HealthPing(ok) => PingKeeps(l, s, ok);
    case TopUpCreate(ok) => CreateKeeps(l, s, ok);
    case _ => LineKeeps(l, s, step);
  }

  /** Over every interleaving of every number of callers with the health thread: each
      connection is in one place, the live count is exact, and it stays within the
      maximum, or one above it once the health thread has topped up. */
  lemma {:induction false} RunSafe(l: Limits, s: State, steps: seq<Step>)
    requires l.min <= l.max
    requires Inv(l, s) && Roomy(l, s)
    ensures Inv(l, Run(l, s, steps)) && Roomy(l, Run(l, s, steps))
    decreases |steps|
  {
    if steps != [] {
      StepKeeps(l, s, steps[0]);
      RunSafe(l, Apply(l, s, steps[0]), steps[1..]);
    }
  }

  lemma StartSafe(l: Limits, s: State, steps: seq<Step>)
    requires l.min <= l.max
    requires Started(s) && |s.idle| <= l.min
    ensures var t := Run(l, s, steps);
      && OnePlace(t) && t.live == |Lined(t)| + |t.inspecting| + |t.borrowed| + t.connecting
      && t.live <= l.max + 1 && (t.topUps == 0 ==> t.live <= l.max)
  {
    RunSafe(l, s, steps);
  }

  /** The only step that takes a pool within its maximum above it: a top-up that finishes
      when callers have meanwhile filled the pool. */
  lemma OverMaximumIff(l: Limits, s: State, step: Step)
    requires s.live <= l.max
    ensures Apply(l, s, step).live > l.max <==> step == TopUpCreate(true) && s.health.Creating? && s.live == l.max
  {
  }

  /** The overshoot happens: with one connection allowed, a caller connects while the
      health thread does. */
  lemma OvershootHappens()
    ensures
      var l := Limits(1, 1);
      var s := State([], {}, {}, 0, Resting, 0, 0, 0);
      Run(l, s, [HealthDrain, HealthReturn, TopUpCheck, Reserve, Connect(true), TopUpCreate(true)]).live == l.max + 1
  {
    var l := Limits(1, 1);
    var s := State([], {}, {}, 0, Resting, 0, 0, 0);
    var racing := State([], {}, {}, 0, Creating, 0, 0, 0);
    HealthFindsEmpty(l, s);
    CallerConnects(l, racing);
    RunThree(l, s, HealthDrain, HealthReturn, TopUpCheck, [Reserve, Connect(true), TopUpCreate(true)]);
    RunThree(l, racing, Reserve, Connect(true), TopUpCreate(true), []);
    hide Apply, Run;
    assert [HealthDrain, HealthReturn, TopUpCheck] + [Reserve, Connect(true), TopUpCreate(true)]
        == [HealthDrain, HealthReturn, TopUpCheck, Reserve, Connect(true), TopUpCreate(true)];
    assert [Reserve, Connect(true), TopUpCreate(true)] + [] == [Reserve, Connect(true), TopUpCreate(true)];
    RunNone(l, Apply(l, Apply(l, Apply(l, racing, Reserve), Connect(true)), TopUpCreate(true)));
  }

  lemma HealthFindsEmpty(l: Limits, s: State)
    requires s.idle == [] && s.health == Resting && s.live < l.min
    ensures Apply(l, Apply(l, Apply(l, s, HealthDrain), HealthReturn), TopUpCheck) == s.(health := Creating)
  {
    assert [] + [] == s.idle;
  }

  lemma CallerConnects(l: Limits, s: State)
    requires s.idle == [] && s.health == Creating && s.live < l.max
    ensures Apply(l, Apply(l, Apply(l, s, Reserve), Connect(true)), TopUpCreate(true)).live == s.live + 2
  {
  }

  lemma RunNone(l: Limits, s: State)
    ensures Run(l, s, []) == s
  {
  }

  lemma RunCons(l: Limits, s: State, first: Step, rest: seq<Step>)
    ensures Run(l, s, [first] + rest) == Run(l, Apply(l, s, first), rest)
  {
    hide Apply;
    assert ([first] + rest)[1..] == rest;
  }

  lemma RunThree(l: Limits, s: State, a: Step, b: Step, c: Step, rest: seq<Step>)
    ensures Run(l, s, [a, b, c] + rest) == Run(l, Apply(l, Apply(l, Apply(l, s, a), b), c), rest)
  {
    hide Apply, Run;
    var s1 := Apply(l, s, a);
    var s2 := Apply(l, s1, b);
    RunCons(l, s, a, [b] + ([c] + rest));
    RunCons(l, s1, b, [c] + rest);
    RunCons(l, s2, c, rest);
    assert [a, b, c] + rest == [a] + ([b] + ([c] + rest));
  }

  lemma {:induction false} RunBoth(l: Limits, s: State, a: seq<Step>, b: seq<Step>)
    ensures Run(l, s, a + b) == Run(l, Run(l, s, a), b)
    decreases |a|
  {
    hide Apply;
    if a == [] {
      assert a + b == b;
    } else {
      assert (a + b)[1..] == a[1..] + b;
      RunBoth(l, Apply(l, s, a[0]), a[1..], b);
    }
  }

  // ------------------------------------------------------------------ first in, first out

  /** What a step takes from the front of the idle line. */
  function TakenOut(s: State, step: Step): seq<Conn> {
    if step.Pop? && s.idle != [] then [s.idle[0]]
    else if step.HealthDrain? && s.health.Resting? then s.idle
    else []
  }

  /** What a step gives back or adds: a healthy checkin, the survivors of a health pass, a
      connection made to top up. */
  function PutIn(s: State, step: Step): seq<Conn> {
    if step.Checkin? && step.healthy && step.c in s.borrowed then [step.c]
    else if step.HealthReturn? && s.health.Pinging? && s.health.drained == [] then s.health.survivors
    else if step.TopUpCreate? && step.ok && s.health.Creating? then [s.next]
    else []
  }

  function AllTaken(l: Limits, s: State, steps: seq<Step>): seq<Conn>
    decreases |steps|
  {
    if steps == [] then [] else TakenOut(s, steps[0]) + AllTaken(l, Apply(l, s, steps[0]), steps[1..])
  }

  function AllPut(l: Limits, s: State, steps: seq<Step>): seq<Conn>
    decreases |steps|
  {
    if steps == [] then [] else PutIn(s, steps[0]) + AllPut(l, Apply(l, s, steps[0]), steps[1..])
  }

  lemma StepQueues(l: Limits, s: State, step: Step)
    ensures TakenOut(s, step) + Apply(l, s, step).idle == s.idle + PutIn(s, step)
  {
    if step.Pop? && s.idle != [] { assert s.idle == [s.idle[0]] + s.idle[1..]; }
  }

  /** The idle line is a queue over every run: the connections taken out, followed by those
      still idle, are those idle at first, followed by the ones put in, in order. */
  lemma {:induction false} FirstInFirstOut(l: Limits, s: State, steps: seq<Step>)
    ensures AllTaken(l, s, steps) + Run(l, s, steps).idle == s.idle + AllPut(l, s, steps)
    decreases |steps|
  {
    hide Apply, TakenOut, PutIn;
    if steps != [] {
      var t := Apply(l, s, steps[0]);
      var gone, added := TakenOut(s, steps[0]), PutIn(s, steps[0]);
      var later, more := AllTaken(l, t, steps[1..]), AllPut(l, t, steps[1..]);
      StepQueues(l, s, steps[0]);
      FirstInFirstOut(l, t, steps[1..]);
      var left := Run(l, t, steps[1..]).idle;
      assert (gone + later) + left == gone + (later + left);
      assert gone + (t.idle + more) == (gone + t.idle) + more;
      assert (s.idle + added) + more == s.idle + (added + more);
    }
  }

  // ------------------------------------------------------------------ the pool object

  /** The first connection of a line that is ready. */
  ghost predicate FirstReady(line: seq<Conn>, ready: Conn -> bool, k: nat) {
    k < |line| && ready(line[k]) && forall j | 0 <= j < k :: !ready(line[j])
  }

  ghost predicate NoneReady(line: seq<Conn>, ready: Conn -> bool) {
    forall j | 0 <= j < |line| :: !ready(line[j])
  }

  /** The connections that answer a ping, in order. */
  function Kept(line: seq<Conn>, pings: Conn -> bool): (r: seq<Conn>)
    ensures forall c :: c in r <==> c in line && pings(c)
  {
    if line == [] then [] else (if pings(line[0]) then [line[0]] else []) + Kept(line[1..], pings)
  }

  lemma KeptFirst(done: seq<Conn>, line: seq<Conn>, pings: Conn -> bool)
    requires line != []
    ensures done + Kept(line, pings) == (if pings(line[0]) then done + [line[0]] else done) + Kept(line[1..], pings)
  {
  }

  /** Neither the first idle connection nor the next one to be made is out already. */
  lemma NotBorrowed(l: Limits, s: State)
    requires Inv(l, s)
    ensures s.idle != [] ==> s.idle[0] !in s.borrowed
    ensures s.next !in s.borrowed
  {
    if s.idle != [] { assert Lined(s)[0] == s.idle[0]; }
  }

  /** The connection a pool in this state gives to a caller in its i-th turn: the first idle one
      that is ready, or, when none is, a new one. */
  ghost predicate Given(ready: (nat, Conn) -> bool, connects: nat -> bool, i: nat, s: State, c: Conn) {
    || (exists k: nat :: FirstReady(s.idle, (conn: Conn) => ready(i, conn), k) && c == s.idle[k])
    || (NoneReady(s.idle, (conn: Conn) => ready(i, conn)) && connects(i) && c == s.next)
  }

  lemma {:induction false} SomeReady(line: seq<Conn>, ready: Conn -> bool)
    ensures NoneReady(line, ready) || exists k: nat :: FirstReady(line, ready, k)
  {
    if line != [] {
      var init := line[..|line| - 1];
      SomeReady(init, ready);
      if !NoneReady(init, ready) {
        var k: nat :| FirstReady(init, ready, k);
        assert FirstReady(line, ready, k);
      } else if ready(line[|line| - 1]) {
        assert FirstReady(line, ready, |line| - 1);
      }
    }
  }

  /** The pool as its own threads drive it. `outcomes` stand for what connects and pings
      answer; each method is a pass of the code, and says which steps of the protocol it
      is; a checkout also lets the other threads in wherever it waits. */
  class PgPool {
    const limits: Limits
    var state: State

    constructor (min: nat, max: nat, cores: nat, connects: nat -> bool)
      ensures limits == Normalised(min, max, cores)
      ensures Started(state) && |state.idle| <= limits.min
      ensures |state.idle| < limits.min ==> !connects(|state.idle|)
      ensures forall i | 0 <= i < |state.idle| :: connects(i)
    {
      limits := Normalised(min, max, cores);
      var filled := Fill(Normalised(min, max, cores), connects);
      state := filled;
    }

    /** Turns are taken until one gives a connection or the deadline comes. `others(i)` are
        the steps of the other threads while this one, holding nothing, pauses behind its
        i-th turn: asleep after a failed connect, or waiting for a checkin at the maximum. */
    method Checkout(ready: (nat, Conn) -> bool, connects: nat -> bool, others: nat -> seq<Step>,
        timeUp: nat -> bool, limit: nat) returns (c: Option<Conn>, ghost steps: seq<Step>)
      requires limits.min <= limits.max && Inv(limits, state) && Roomy(limits, state)
      requires timeUp(limit)
      modifies this
      ensures state == Run(limits, old(state), steps)
      ensures Inv(limits, state) && Roomy(limits, state)
      ensures c.Some? ==> steps != [] && c.value in state.borrowed
      ensures c.Some? ==> c.value !in Run(limits, old(state), steps[..|steps| - 1]).borrowed
      ensures c.Some? ==> exists i: nat, n: nat ::
        n <= |steps| && Given(ready, connects, i, Run(limits, old(state), steps[..n]), c.value)
      ensures c.None? ==> exists i: nat :: timeUp(i) && forall j: nat | j < i :: !timeUp(j)
    {
      hide OnePlace, Counted, Bounded, Run;
      RunNone(limits, state);
      steps := [];
      var i: nat := 0;
      while true
        invariant state == Run(limits, old(state), steps)
        invariant Inv(limits, state) && Roomy(limits, state)
        invariant i <= limit && forall j: nat | j < i :: !timeUp(j)
        decreases limit - i
      {
        ghost var turn;
        ghost var before := state;
        SomeReady(state.idle, (conn: Conn) => ready(i, conn));
        c, turn := TakeTurn((conn: Conn) => ready(i, conn), connects(i));
        RunBoth(limits, old(state), steps, turn);
        if c.Some? {
          assert (steps + turn)[..|steps + turn| - 1] == steps + turn[..|turn| - 1];
          RunBoth(limits, old(state), steps, turn[..|turn| - 1]);
          assert (steps + turn)[..|steps|] == steps && Given(ready, connects, i, before, c.value);
          return c, steps + turn;
        }
        steps := steps + turn;
        RunSafe(limits, state, others(i));
        RunBoth(limits, old(state), steps, others(i));
        steps := steps + others(i);
        state := Run(limits, state, others(i));
        if timeUp(i) { return None, steps; }
        i := i + 1;
      }
    }

    /** One turn of a checkout: idle connections are tried front first and the dead ones
        dropped; with none left, a place is reserved and connected if the maximum allows. */
    method TakeTurn(ready: Conn -> bool, connects: bool) returns (c: Option<Conn>, ghost steps: seq<Step>)
      requires limits.min <= limits.max && Inv(limits, state) && Roomy(limits, state)
      modifies this
      ensures state == Run(limits, old(state), steps)
      ensures Inv(limits, state) && Roomy(limits, state)
      ensures c.Some? ==> c.value !in old(state.borrowed) && state.borrowed == old(state.borrowed) + {c.value}
      ensures c.None? ==> state.borrowed == old(state.borrowed) && state.idle == []
      ensures c.None? ==> !connects || state.live >= limits.max
      ensures c.Some? ==> steps != [] && c.value !in Run(limits, old(state), steps[..|steps| - 1]).borrowed
      ensures forall k: nat | FirstReady(old(state.idle), ready, k) ::
        c == Some(old(state.idle)[k]) && state.idle == old(state.idle)[k..][1..] && state.live == old(state.live) - k
      ensures NoneReady(old(state.idle), ready) ==>
        var alive := old(state.live) - |old(state.idle)|;
        && c == (if connects && alive < limits.max then Some(old(state.next)) else None)
        && state.idle == [] && state.live == alive + (if c.Some? then 1 else 0)
    {
      hide OnePlace, Counted, Bounded, Run;
      SomeReady(state.idle, ready);
      c, steps := TryIdle(ready);
      if c.Some? || state.live >= limits.max {
        return;
      }
      var made := state.next;
      NotBorrowed(limits, state);
      Advance(Reserve, steps);
      Advance(Connect(connects), steps + [Reserve]);
      assert (steps + [Reserve] + [Connect(connects)])[..|steps| + 1] == steps + [Reserve];
      steps := steps + [Reserve] + [Connect(connects)];
      c := if connects then Some(made) else None;
    }

    /** Idle connections are tried front first; the dead ones are dropped. */
    method TryIdle(ready: Conn -> bool) returns (c: Option<Conn>, ghost steps: seq<Step>)
      requires limits.min <= limits.max && Inv(limits, state) && Roomy(limits, state)
      modifies this
      ensures state == Run(limits, old(state), steps)
      ensures Inv(limits, state) && Roomy(limits, state)
      ensures c.Some? ==> c.value !in old(state.borrowed) && state.borrowed == old(state.borrowed) + {c.value}
      ensures c.Some? ==> steps != [] && c.value !in Run(limits, old(state), steps[..|steps| - 1]).borrowed
      ensures c.None? ==> NoneReady(old(state.idle), ready) && state.borrowed == old(state.borrowed) && state.next == old(state.next)
      ensures c.None? ==> state.idle == [] && state.live == old(state.live) - |old(state.idle)|
      ensures c.Some? ==> exists k: nat ::
        && FirstReady(old(state.idle), ready, k) && c == Some(old(state.idle)[k])
        && state.idle == old(state.idle)[k..][1..] && state.live == old(state.live) - k
    {
      hide OnePlace, Counted, Bounded, Run;
      RunNone(limits, state);
      steps := [];
      ghost var tried := 0;
      while state.idle != []
        invariant state == Run(limits, old(state), steps)
        invariant Inv(limits, state) && Roomy(limits, state)
        invariant state.borrowed == old(state.borrowed) && state.next == old(state.next)
        invariant 0 <= tried <= |old(state.idle)| && state.idle == old(state.idle)[tried..]
        invariant state.live == old(state.live) - tried
        invariant forall j | 0 <= j < tried :: !ready(old(state.idle)[j])
        decreases |state.idle|
      {
        var first := state.idle[0];
        NotBorrowed(limits, state);
        Advance(Pop, steps);
        Advance(Judge(first, ready(first)), steps + [Pop]);
        assert (steps + [Pop] + [Judge(first, ready(first))])[..|steps| + 1] == steps + [Pop];
        steps := steps + [Pop] + [Judge(first, ready(first))];
        if ready(first) {
          assert FirstReady(old(state.idle), ready, tried);
          return Some(first), steps;
        }
        tried := tried + 1;
      }
      c := None;
    }

    /** A connection comes back: behind the idle ones if it is healthy, dropped if not. */
    method Checkin(c: Conn, healthy: bool)
      requires limits.min <= limits.max && Inv(limits, state) && Roomy(limits, state)
      requires c in state.borrowed
      modifies this
      ensures state == Run(limits, old(state), [Step.Checkin(c, healthy)])
      ensures Inv(limits, state) && Roomy(limits, state)
      ensures state.borrowed == old(state.borrowed) - {c}
      ensures state.idle == old(state.idle) + (if healthy then [c] else []) && state.live == old(state.live) - (if healthy then 0 else 1)
    {
      assert c !in Lined(state);
      Advance(Step.Checkin(c, healthy), []);
      assert [] + [Step.Checkin(c, healthy)] == [Step.Checkin(c, healthy)];
      RunNone(limits, old(state));
      assert Run(limits, old(state), []) == old(state);
    }

    /** The health thread takes the idle line, pings it in order and puts the survivors
        back in the same order. */
    method PingAll(pings: Conn -> bool) returns (ghost steps: seq<Step>)
      requires limits.min <= limits.max && Inv(limits, state) && state.health.Resting?
      modifies this
      ensures state == Run(limits, old(state), steps)
      ensures Inv(limits, state) && state.health == TopUp
      ensures state.idle == Kept(old(state.idle), pings)
      ensures state.borrowed == old(state.borrowed) && state.inspecting == old(state.inspecting)
    {
      hide OnePlace, Counted, Bounded, Run;
      RunNone(limits, state);
      steps := [];
      ghost var line := state.idle;
      Advance(HealthDrain, steps);
      steps := steps + [HealthDrain];
      while state.health.drained != []
        invariant state == Run(limits, old(state), steps)
        invariant Inv(limits, state) && state.health.Pinging?
        invariant Kept(line, pings) == state.health.survivors + Kept(state.health.drained, pings)
        invariant state.idle == [] && state.borrowed == old(state.borrowed) && state.inspecting == old(state.inspecting)
        decreases |state.health.drained|
      {
        var answer := pings(state.health.drained[0]);
        KeptFirst(state.health.survivors, state.health.drained, pings);
        Advance(HealthPing(answer), steps);
        steps := steps + [HealthPing(answer)];
      }
      Advance(HealthReturn, steps);
      steps := steps + [HealthReturn];
    }

    /** Connections are made until the minimum is reached or a connect fails. */
    method Refill(connects: nat -> bool) returns (ghost steps: seq<Step>)
      requires limits.min <= limits.max && Inv(limits, state) && state.health == TopUp
      modifies this
      ensures state == Run(limits, old(state), steps)
      ensures Inv(limits, state) && state.health.Resting?
      ensures old(state.idle) <= state.idle
      ensures state.borrowed == old(state.borrowed) && state.inspecting == old(state.inspecting)
      ensures state.live >= limits.min || !connects(state.next)
    {
      hide OnePlace, Counted, Bounded, Run;
      RunNone(limits, state);
      steps := [];
      Advance(TopUpCheck, steps);
      steps := steps + [TopUpCheck];
      while state.health.Creating?
        invariant state == Run(limits, old(state), steps)
        invariant Inv(limits, state) && Roomy(limits, state)
        invariant state.health.Resting? || (state.health.Creating? && state.live < limits.min)
        invariant state.health.Resting? ==> state.live >= limits.min || !connects(state.next)
        invariant old(state.idle) <= state.idle
        invariant state.borrowed == old(state.borrowed) && state.inspecting == old(state.inspecting)
        decreases if state.health.Creating? then 1 else 0, limits.min - state.live
      {
        var made := connects(state.next);
        Advance(TopUpCreate(made), steps);
        steps := steps + [TopUpCreate(made)];
        if made {
          Advance(TopUpCheck, steps);
          steps := steps + [TopUpCheck];
        }
      }
    }

    /** A pass of the health thread that nobody interrupts: survivors stay in front, in
        their order, and the pool reaches its minimum unless a connect fails. */
    method HealthPass(pings: Conn -> bool, connects: nat -> bool) returns (ghost steps: seq<Step>)
      requires limits.min <= limits.max && Inv(limits, state) && state.health.Resting?
      modifies this
      ensures state == Run(limits, old(state), steps)
      ensures Inv(limits, state) && state.health.Resting?
      ensures Kept(old(state.idle), pings) <= state.idle
      ensures state.borrowed == old(state.borrowed) && state.inspecting == old(state.inspecting)
      ensures state.live >= limits.min || !connects(state.next)
    {
      hide OnePlace, Counted, Bounded, Run;
      ghost var first := PingAll(pings);
      ghost var second := Refill(connects);
      steps := first + second;
      RunBoth(limits, old(state), first, second);
    }

    /** One step of the protocol, taken after those already recorded. */
    method Advance(step: Step, ghost done: seq<Step>)
      requires limits.min <= limits.max && Inv(limits, state) && Roomy(limits, state)
      modifies this
      ensures state == Apply(limits, old(state), step)
      ensures Inv(limits, state) && Roomy(limits, state)
      ensures forall s0 | Run(limits, s0, done) == old(state) :: Run(limits, s0, done + [step]) == state
    {
      StepKeeps(limits, state, step);
      state := Apply(limits, state, step);
      forall s0 | Run(limits, s0, done) == old(state) ensures Run(limits, s0, done + [step]) == state {
        RunBoth(limits, s0, done, [step]);
        RunCons(limits, old(state), step, []);
        assert [step] + [] == [step];
      }
    }
  }
}
