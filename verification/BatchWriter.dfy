/** One table of the batch writer: its queue, its flusher, and the dirty count that pins
    the table's cache entries.

    The two halves of a write, a drain, each send attempt and each single acknowledgement
    are separate steps, so a run interleaves any number of writers with the flusher. */
module BatchWriter {
  import opened Coalesce

  /** Rows drained together, and whether the database took them in the end. */
  datatype Batch<R> = Batch(rows: seq<R>, ok: bool)

  /** Where the flusher is. `rows` are the drained ones, before coalescing. */
  datatype Phase<R> =
    | Waiting
    | Sending(rows: seq<R>, attempt: nat)
    | Acknowledging(left: nat)
    | Returned

  /** `written` lists the rows ever queued; `marked` counts writes that have raised the
      dirty count but are not queued yet; `done` lists the batches sent, in order. */
  datatype Pipeline<R> = Pipeline(
    written: seq<R>,
    marked: nat,
    queue: seq<R>,
    phase: Phase<R>,
    done: seq<Batch<R>>,
    flushed: nat,
    failed: nat,
    dirty: nat,
    stopped: bool)

  datatype Step<R> =
    | MarkDirty
    | Enqueue(row: R)
    | Drain(batchSize: nat)
    | Attempt(ok: bool)
    | MarkClean
    | Stop

  /** What a batch sends: a state table coalesces it first. */
  ghost function Sent<R, K>(s: Schema<R, K>, state: bool, rows: seq<R>): (r: seq<R>)
    ensures |r| <= |rows|
  {
    if state then Coalesced(s, rows) else rows
  }

  ghost function Apply<R, K>(s: Schema<R, K>, state: bool, retries: nat, p: Pipeline<R>, step: Step<R>): Pipeline<R> {
    match step
    case MarkDirty => p.(dirty := p.dirty + 1, marked := p.marked + 1)
    case Enqueue(row) =>
      if p.marked == 0 then p
      else p.(marked := p.marked - 1, queue := p.queue + [row], written := p.written + [row])
    case Drain(batchSize) =>
      if !p.phase.Waiting? then p
      else if p.stopped && p.queue == [] then p.(phase := Returned)
      else
        var n := if |p.queue| < batchSize then |p.queue| else batchSize;
        if n == 0 then p else p.(queue := p.queue[n..], phase := Sending(p.queue[..n], 0))
    case Attempt(ok) =>
      if !p.phase.Sending? then p
      else
        var n := |Sent(s, state, p.phase.rows)|;
        if ok then p.(flushed := p.flushed + n, phase := Acknowledging(n), done := p.done + [Batch(p.phase.rows, true)])
        else if p.phase.attempt + 1 >= retries then
          p.(failed := p.failed + n, phase := Acknowledging(n), done := p.done + [Batch(p.phase.rows, false)])
        else p.(phase := Sending(p.phase.rows, p.phase.attempt + 1))
    case MarkClean =>
      if !p.phase.Acknowledging? then p
      else if p.phase.left == 0 then p.(phase := Waiting)
      else p.(phase := Acknowledging(p.phase.left - 1), dirty := if p.dirty > 0 then p.dirty - 1 else 0)
    case Stop => p.(stopped := true)
  }

  ghost function Run<R, K>(s: Schema<R, K>, state: bool, retries: nat, p: Pipeline<R>, steps: seq<Step<R>>): Pipeline<R>
    decreases |steps|
  {
    if steps == [] then p else Run(s, state, retries, Apply(s, state, retries, p, steps[0]), steps[1..])
  }

  ghost function Fresh<R>(): Pipeline<R> {
    Pipeline([], 0, [], Waiting, [], 0, 0, 0, false)
  }

  // ------------------------------------------------------------------ where the rows are

  ghost function InFlight<R>(p: Pipeline<R>): seq<R> {
    if p.phase.Sending? then p.phase.rows else []
  }

  ghost function Unacknowledged<R>(p: Pipeline<R>): nat {
    if p.phase.Acknowledging? then p.phase.left else 0
  }

  /** The rows of the batches sent, in order; of all of them, or of those the database took. */
  ghost function RowsOf<R>(done: seq<Batch<R>>, all: bool): seq<R> {
    if done == [] then []
    else RowsOf(done[..|done| - 1], all) + (if all || done[|done| - 1].ok then done[|done| - 1].rows else [])
  }

  /** How many rows the batches with this outcome sent. */
  ghost function SentCount<R, K>(s: Schema<R, K>, state: bool, done: seq<Batch<R>>, ok: bool): nat {
    if done == [] then 0
    else
      var last := done[|done| - 1];
      SentCount(s, state, done[..|done| - 1], ok) + (if last.ok == ok then |Sent(s, state, last.rows)| else 0)
  }

  /** How many rows coalescing dropped. */
  ghost function Superseded<R, K>(s: Schema<R, K>, state: bool, done: seq<Batch<R>>): nat {
    if done == [] then 0
    else
      var rows := done[|done| - 1].rows;
      Superseded(s, state, done[..|done| - 1]) + (|rows| - |Sent(s, state, rows)|)
  }

  lemma OneMore<R, K>(s: Schema<R, K>, state: bool, done: seq<Batch<R>>, b: Batch<R>)
    ensures RowsOf(done + [b], true) == RowsOf(done, true) + b.rows
    ensures RowsOf(done + [b], false) == RowsOf(done, false) + (if b.ok then b.rows else [])
    ensures SentCount(s, state, done + [b], b.ok) == SentCount(s, state, done, b.ok) + |Sent(s, state, b.rows)|
    ensures SentCount(s, state, done + [b], !b.ok) == SentCount(s, state, done, !b.ok)
    ensures Superseded(s, state, done + [b]) == Superseded(s, state, done) + |b.rows| - |Sent(s, state, b.rows)|
  {
    hide Sent;
    assert (done + [b])[..|done|] == done;
  }

  /** The written rows are, in order, those sent, those in flight and those queued; the
      counters are those of the batches; and the dirty count is what is still on its way
      plus what coalescing dropped. */
  ghost predicate Balanced<R, K>(s: Schema<R, K>, state: bool, p: Pipeline<R>) {
    && p.written == RowsOf(p.done, true) + InFlight(p) + p.queue
    && p.flushed == SentCount(s, state, p.done, true)
    && p.failed == SentCount(s, state, p.done, false)
    && p.dirty == p.marked + |p.queue| + |InFlight(p)| + Unacknowledged(p) + Superseded(s, state, p.done)
    && (p.phase.Returned? ==> p.stopped)
  }

  lemma EnqueueBalanced<R, K>(s: Schema<R, K>, state: bool, retries: nat, p: Pipeline<R>, row: R)
    requires Balanced(s, state, p)
    ensures Balanced(s, state, Apply(s, state, retries, p, Enqueue(row)))
  {
    hide RowsOf, SentCount, Superseded;
    var before := RowsOf(p.done, true) + InFlight(p);
    assert (before + p.queue) + [row] == before + (p.queue + [row]);
  }

  lemma DrainBalanced<R, K>(s: Schema<R, K>, state: bool, retries: nat, p: Pipeline<R>, batchSize: nat)
    requires Balanced(s, state, p)
    ensures Balanced(s, state, Apply(s, state, retries, p, Drain(batchSize)))
  {
    hide RowsOf, SentCount, Superseded;
    if p.phase.Waiting? {
      var n := if |p.queue| < batchSize then |p.queue| else batchSize;
      assert p.queue == p.queue[..n] + p.queue[n..];
      assert RowsOf(p.done, true) + [] == RowsOf(p.done, true);
      assert RowsOf(p.done, true) + (p.queue[..n] + p.queue[n..]) == (RowsOf(p.done, true) + p.queue[..n]) + p.queue[n..];
    }
  }

  lemma AttemptBalanced<R, K>(s: Schema<R, K>, state: bool, retries: nat, p: Pipeline<R>, ok: bool)
    requires Balanced(s, state, p)
    ensures Balanced(s, state, Apply(s, state, retries, p, Attempt(ok)))
  {
    hide RowsOf, SentCount, Superseded, Sent;
    if p.phase.Sending? {
      OneMore(s, state, p.done, Batch(p.phase.rows, ok));
      var sent := RowsOf(p.done, true) + p.phase.rows;
      assert sent + [] == sent;
    }
  }

  lemma ApplyBalanced<R, K>(s: Schema<R, K>, state: bool, retries: nat, p: Pipeline<R>, step: Step<R>)
    requires Balanced(s, state, p)
    ensures Balanced(s, state, Apply(s, state, retries, p, step))
  {
    match step
    case Enqueue(row) => EnqueueBalanced(s, state, retries, p, row);
    case Drain(batchSize) => DrainBalanced(s, state, retries, p, batchSize);
    case Attempt(ok) => AttemptBalanced(s, state, retries, p, ok);
    case _ => hide RowsOf, SentCount, Superseded, Sent;
  }

  lemma {:induction false} RunBalanced<R, K>(s: Schema<R, K>, state: bool, retries: nat, p: Pipeline<R>, steps: seq<Step<R>>)
    requires Balanced(s, state, p)
    ensures Balanced(s, state, Run(s, state, retries, p, steps))
    decreases |steps|
  {
    hide Apply, Balanced;
    if steps != [] {
      ApplyBalanced(s, state, retries, p, steps[0]);
      RunBalanced(s, state, retries, Apply(s, state, retries, p, steps[0]), steps[1..]);
    }
  }

  // ------------------------------------------------------------------ the dirty count

  /** Every batch of a state table so far held each key at most once. */
  ghost predicate NeverTwice<R, K>(s: Schema<R, K>, state: bool, done: seq<Batch<R>>) {
    state ==> forall i | 0 <= i < |done| :: DistinctKeys(s, done[i].rows)
  }

  /** A batch loses no row exactly when the table keeps events or the keys are distinct. */
  lemma SentAllIff<R, K>(s: Schema<R, K>, state: bool, rows: seq<R>)
    ensures |Sent(s, state, rows)| == |rows| <==> !state || DistinctKeys(s, rows)
  {
    hide Coalesced, DistinctKeys;
    if state { KeepsAllIff(s, rows); }
  }

  lemma {:induction false} SupersededNoneIff<R, K>(s: Schema<R, K>, state: bool, done: seq<Batch<R>>)
    ensures Superseded(s, state, done) == 0 <==> NeverTwice(s, state, done)
  {
    hide Sent, DistinctKeys;
    if done != [] {
      var init, last := done[..|done| - 1], done[|done| - 1];
      SupersededNoneIff(s, state, init);
      SentAllIff(s, state, last.rows);
      assert forall i | 0 <= i < |init| :: init[i] == done[i];
    }
  }

  /** Row conservation, over every run of a fresh table, row by row and in order. The dirty
      count is never zero while a row is unacknowledged; once everything is acknowledged it
      is back at zero exactly when the table keeps events, or no batch held a key twice. */
  lemma Conservation<R, K>(s: Schema<R, K>, state: bool, retries: nat, steps: seq<Step<R>>)
    ensures var p := Run(s, state, retries, Fresh(), steps);
      var pending := p.marked + |p.queue| + |InFlight(p)| + Unacknowledged(p);
      && p.written == RowsOf(p.done, true) + InFlight(p) + p.queue
      && |RowsOf(p.done, true)| == p.flushed + p.failed + Superseded(s, state, p.done)
      && p.dirty == pending + Superseded(s, state, p.done)
      && (pending > 0 ==> p.dirty > 0)
      && (pending == 0 ==> (p.dirty == 0 <==> NeverTwice(s, state, p.done)))
  {
    hide Run;
    RunBalanced(s, state, retries, Fresh(), steps);
    var p := Run(s, state, retries, Fresh(), steps);
    SupersededNoneIff(s, state, p.done);
    CountsAdd(s, state, p.done);
  }

  lemma {:induction false} CountsAdd<R, K>(s: Schema<R, K>, state: bool, done: seq<Batch<R>>)
    ensures |RowsOf(done, true)| == SentCount(s, state, done, true) + SentCount(s, state, done, false) + Superseded(s, state, done)
  {
    hide Sent;
    if done != [] { CountsAdd(s, state, done[..|done| - 1]); }
  }

  ghost function TwoWrites<R>(a: R, b: R): seq<Step<R>> {
    [MarkDirty, Enqueue(a), MarkDirty, Enqueue(b)]
  }

  ghost function OneRound<R>(): seq<Step<R>> {
    [Drain(2), Attempt(true), MarkClean, MarkClean]
  }

  /** The mark does stay behind: two rows of one key, drained together and acknowledged,
      leave a state table with nothing pending and a dirty count of one. */
  lemma MarkStaysBehind<R, K>(s: Schema<R, K>, retries: nat, a: R, b: R)
    requires s.key(a) == s.key(b)
    ensures var p := Run(s, true, retries, Fresh(), TwoWrites(a, b) + OneRound());
      p.marked == 0 && p.queue == [] && p.phase == Waiting && p.flushed == 1 && p.failed == 0 && p.dirty == 1
  {
    var queued := Pipeline([a, b], 0, [a, b], Waiting, [], 0, 0, 2, false);
    RunFour(s, true, retries, Fresh(), MarkDirty, Enqueue(a), MarkDirty, Enqueue(b), OneRound());
    TwoQueued(s, retries, a, b);
    RunFour(s, true, retries, queued, Drain(2), Attempt(true), MarkClean, MarkClean, []);
    TwoSent(s, retries, a, b);
    hide Apply, Run;
    assert OneRound<R>() + [] == OneRound();
    RunNone(s, true, retries, Apply(s, true, retries, Apply(s, true, retries, Apply(s, true, retries,
      Apply(s, true, retries, queued, Drain(2)), Attempt(true)), MarkClean), MarkClean));
  }

  lemma TwoQueued<R, K>(s: Schema<R, K>, retries: nat, a: R, b: R)
    ensures Apply(s, true, retries, Apply(s, true, retries, Apply(s, true, retries,
        Apply(s, true, retries, Fresh(), MarkDirty), Enqueue(a)), MarkDirty), Enqueue(b))
      == Pipeline([a, b], 0, [a, b], Waiting, [], 0, 0, 2, false)
  {
    assert [] + [a] + [b] == [a, b];
  }

  lemma TwoSent<R, K>(s: Schema<R, K>, retries: nat, a: R, b: R)
    requires s.key(a) == s.key(b)
    ensures var p := Apply(s, true, retries, Apply(s, true, retries, Apply(s, true, retries,
        Apply(s, true, retries, Pipeline([a, b], 0, [a, b], Waiting, [], 0, 0, 2, false), Drain(2)), Attempt(true)), MarkClean), MarkClean);
      p.marked == 0 && p.queue == [] && p.phase == Waiting && p.flushed == 1 && p.failed == 0 && p.dirty == 1
  {
    assert [a, b][..2] == [a, b] && [a, b][2..] == [];
    SameKeyCoalesced(s, a, b);
  }

  lemma RunFirst<R, K>(s: Schema<R, K>, state: bool, retries: nat, p: Pipeline<R>, first: Step<R>, rest: seq<Step<R>>)
    ensures Run(s, state, retries, p, [first] + rest) == Run(s, state, retries, Apply(s, state, retries, p, first), rest)
  {
    hide Apply;
    assert ([first] + rest)[1..] == rest;
  }

  lemma RunNone<R, K>(s: Schema<R, K>, state: bool, retries: nat, p: Pipeline<R>)
    ensures Run(s, state, retries, p, []) == p
  {
  }

  lemma RunFour<R, K>(s: Schema<R, K>, state: bool, retries: nat, p: Pipeline<R>,
      a: Step<R>, b: Step<R>, c: Step<R>, d: Step<R>, rest: seq<Step<R>>)
    ensures Run(s, state, retries, p, [a, b, c, d] + rest)
      == Run(s, state, retries, Apply(s, state, retries, Apply(s, state, retries, Apply(s, state, retries,
           Apply(s, state, retries, p, a), b), c), d), rest)
  {
    hide Apply, Run;
    var p1 := Apply(s, state, retries, p, a);
    var p2 := Apply(s, state, retries, p1, b);
    var p3 := Apply(s, state, retries, p2, c);
    RunFirst(s, state, retries, p, a, [b] + ([c] + ([d] + rest)));
    RunFirst(s, state, retries, p1, b, [c] + ([d] + rest));
    RunFirst(s, state, retries, p2, c, [d] + rest);
    RunFirst(s, state, retries, p3, d, rest);
    assert [a, b, c, d] + rest == [a] + ([b] + ([c] + ([d] + rest)));
  }

  // ------------------------------------------------------------------ draining and retrying

  /** The flusher takes from the front of the queue, a batch full or what there is; stopped
      with nothing queued, it returns. */
  lemma DrainTakes<R, K>(s: Schema<R, K>, state: bool, retries: nat, p: Pipeline<R>, batchSize: nat)
    requires p.phase.Waiting?
    ensures var q := Apply(s, state, retries, p, Drain(batchSize));
      && (p.stopped && p.queue == [] ==> q == p.(phase := Returned))
      && (p.queue != [] && batchSize > 0 ==>
            && q.phase.Sending? && q.phase.attempt == 0 && q.phase.rows + q.queue == p.queue
            && (|q.phase.rows| == batchSize || (|q.phase.rows| < batchSize && q.queue == []))
            && q == p.(queue := q.queue, phase := q.phase))
  {
    hide Sent;
  }

  ghost function Failures<R>(n: nat): seq<Step<R>> {
    if n == 0 then [] else [Attempt(false)] + Failures(n - 1)
  }

  /** How often a batch is tried. */
  function Tries(retries: nat): nat { if retries == 0 then 1 else retries }

  lemma {:induction false} KeepsTrying<R, K>(s: Schema<R, K>, state: bool, retries: nat, p: Pipeline<R>, n: nat)
    requires p.phase.Sending? && p.phase.attempt + n < Tries(retries)
    ensures Run(s, state, retries, p, Failures(n)) == p.(phase := Sending(p.phase.rows, p.phase.attempt + n))
    decreases n
  {
    hide Sent;
    if n > 0 {
      assert Failures<R>(n)[1..] == Failures(n - 1);
      KeepsTrying(s, state, retries, Apply(s, state, retries, p, Attempt(false)), n - 1);
    }
  }

  /** A batch that keeps failing is tried as often as configured, at least once, and then
      counted as failed; one that is taken before that is counted as flushed, whole. */
  lemma TriedExactly<R, K>(s: Schema<R, K>, state: bool, retries: nat, p: Pipeline<R>, n: nat, ok: bool)
    requires p.phase.Sending? && p.phase.attempt == 0 && n < (if retries == 0 then 1 else retries)
    ensures var q := Apply(s, state, retries, Run(s, state, retries, p, Failures(n)), Attempt(ok));
      var rows := Sent(s, state, p.phase.rows);
      q == if ok then p.(flushed := p.flushed + |rows|, phase := Acknowledging(|rows|), done := p.done + [Batch(p.phase.rows, true)])
        else if n + 1 < retries then p.(phase := Sending(p.phase.rows, n + 1))
        else p.(failed := p.failed + |rows|, phase := Acknowledging(|rows|), done := p.done + [Batch(p.phase.rows, false)])
  {
    hide Run, Sent;
    KeepsTrying(s, state, retries, p, n);
  }

  // ------------------------------------------------------------------ stopping

  ghost function LateRow<R>(p: Pipeline<R>, step: Step<R>): seq<R> {
    if p.phase.Returned? && step.Enqueue? && p.marked > 0 then [step.row] else []
  }

  /** The rows queued after the flusher has returned. */
  ghost function Late<R, K>(s: Schema<R, K>, state: bool, retries: nat, p: Pipeline<R>, steps: seq<Step<R>>): seq<R>
    decreases |steps|
  {
    if steps == [] then []
    else LateRow(p, steps[0]) + Late(s, state, retries, Apply(s, state, retries, p, steps[0]), steps[1..])
  }

  /** What is queued once the flusher has returned. */
  ghost function Left<R>(p: Pipeline<R>): seq<R> {
    if p.phase.Returned? then p.queue else []
  }

  lemma StepLeaves<R, K>(s: Schema<R, K>, state: bool, retries: nat, p: Pipeline<R>, step: Step<R>)
    requires p.phase.Returned? ==> p.stopped
    ensures var q := Apply(s, state, retries, p, step);
      && (q.phase.Returned? ==> q.stopped) && (p.phase.Returned? ==> q.phase.Returned?)
      && Left(q) == Left(p) + LateRow(p, step)
  {
    hide Sent;
  }

  /** A flusher that returns was stopped and leaves nothing of what was queued before its
      return, even between the stop and the return; what it leaves is exactly what was
      queued after. */
  lemma {:induction false} ReturnsDrained<R, K>(s: Schema<R, K>, state: bool, retries: nat, p: Pipeline<R>, steps: seq<Step<R>>)
    requires p.phase.Returned? ==> p.stopped
    ensures var q := Run(s, state, retries, p, steps);
      (q.phase.Returned? ==> q.stopped) && Left(q) == Left(p) + Late(s, state, retries, p, steps)
    decreases |steps|
  {
    hide Apply, Left, LateRow;
    if steps != [] {
      StepLeaves(s, state, retries, p, steps[0]);
      var next := Apply(s, state, retries, p, steps[0]);
      ReturnsDrained(s, state, retries, next, steps[1..]);
      assert Left(p) + (LateRow(p, steps[0]) + Late(s, state, retries, next, steps[1..]))
          == (Left(p) + LateRow(p, steps[0])) + Late(s, state, retries, next, steps[1..]);
    }
  }

  // ------------------------------------------------------------------ the database

  /** The table in the database after the batches it took, each coalesced and upserted. */
  ghost function Database<R, K>(s: Schema<R, K>, t: map<K, R>, done: seq<Batch<R>>): map<K, R> {
    if done == [] then t
    else
      var before, last := Database(s, t, done[..|done| - 1]), done[|done| - 1];
      if last.ok then UpsertAll(s, before, Coalesced(s, last.rows)) else before
  }

  /** Versions of one key do not decrease in queue order. */
  ghost predicate InOrder<R, K>(s: Schema<R, K>, rows: seq<R>) {
    forall i, j | 0 <= i < j < |rows| && s.key(rows[i]) == s.key(rows[j]) :: s.version(rows[i]) <= s.version(rows[j])
  }

  ghost predicate EachNewest<R, K>(s: Schema<R, K>, done: seq<Batch<R>>) {
    forall i | 0 <= i < |done| && done[i].ok :: LastIsNewest(s, done[i].rows)
  }

  /** Coalescing batch by batch is invisible in the database: it holds what upserting every
      row of the batches it took, one by one in queue order, would leave. */
  lemma {:induction false} DatabaseIs<R, K(!new)>(s: Schema<R, K>, t: map<K, R>, done: seq<Batch<R>>)
    requires EachNewest(s, done)
    ensures Database(s, t, done) == UpsertAll(s, t, RowsOf(done, false))
  {
    hide LastIsNewest, Coalesced;
    if done != [] {
      var init, last := done[..|done| - 1], done[|done| - 1];
      assert forall i | 0 <= i < |init| :: init[i] == done[i];
      DatabaseIs(s, t, init);
      if last.ok {
        SameTable(s, last.rows, Database(s, t, init));
        UpsertBoth(s, t, RowsOf(init, false), last.rows);
      } else {
        assert RowsOf(init, false) + [] == RowsOf(init, false);
      }
    }
  }

  lemma InOrderPart<R, K>(s: Schema<R, K>, a: seq<R>, b: seq<R>, c: seq<R>)
    requires InOrder(s, a + b + c)
    ensures InOrder(s, a + b) && InOrder(s, a) && InOrder(s, b)
  {
    var all := a + b + c;
    assert forall i | 0 <= i < |b| :: b[i] == all[|a| + i];
    assert forall i | 0 <= i < |a| :: a[i] == all[i];
    assert forall i | 0 <= i < |a + b| :: (a + b)[i] == all[i];
  }

  lemma {:induction false} InOrderEach<R, K>(s: Schema<R, K>, done: seq<Batch<R>>)
    requires InOrder(s, RowsOf(done, true))
    ensures EachNewest(s, done)
  {
    hide InOrder, LastIsNewest;
    if done != [] {
      var init, last := done[..|done| - 1], done[|done| - 1];
      assert RowsOf(init, true) + last.rows + [] == RowsOf(done, true);
      InOrderPart(s, RowsOf(init, true), last.rows, []);
      InOrderEach(s, init);
      InOrderNewest(s, last.rows);
      assert forall i | 0 <= i < |init| :: init[i] == done[i];
    }
  }

  lemma InOrderNewest<R, K>(s: Schema<R, K>, rows: seq<R>)
    requires InOrder(s, rows)
    ensures LastIsNewest(s, rows)
  {
    OrderedIsNewest(s, rows);
  }

  lemma {:induction false} AllTaken<R>(done: seq<Batch<R>>)
    requires forall i | 0 <= i < |done| :: done[i].ok
    ensures RowsOf(done, false) == RowsOf(done, true)
  {
    if done != [] {
      var init := done[..|done| - 1];
      assert forall i | 0 <= i < |init| :: init[i] == done[i];
      AllTaken(init);
    }
  }

  /** In every run of a fresh state table whose versions do not decrease per key, the
      database holds what the rows it took would leave one by one; and when no batch failed
      and nothing is queued or in flight, that is what all rows ever written would leave. */
  lemma WrittenIsStored<R, K(!new)>(s: Schema<R, K>, retries: nat, steps: seq<Step<R>>, t: map<K, R>)
    requires InOrder(s, Run(s, true, retries, Fresh(), steps).written)
    ensures var p := Run(s, true, retries, Fresh(), steps);
      && Database(s, t, p.done) == UpsertAll(s, t, RowsOf(p.done, false))
      && ((forall i | 0 <= i < |p.done| :: p.done[i].ok) && InFlight(p) == [] && p.queue == [] ==>
            Database(s, t, p.done) == UpsertAll(s, t, p.written))
  {
    hide Run, InOrder, UpsertAll, Database, EachNewest;
    RunBalanced(s, true, retries, Fresh(), steps);
    var p := Run(s, true, retries, Fresh(), steps);
    InOrderPart(s, RowsOf(p.done, true), InFlight(p), p.queue);
    InOrderEach(s, p.done);
    DatabaseIs(s, t, p.done);
    if forall i | 0 <= i < |p.done| :: p.done[i].ok {
      AllTaken(p.done);
      if InFlight(p) == [] && p.queue == [] {
        assert RowsOf(p.done, true) + [] + [] == RowsOf(p.done, true);
      }
    }
  }

  // ------------------------------------------------------------------ the table object

  class Table<R, K(==)> {
    const schema: Schema<R, K>
    const state: bool
    const maxRetry: nat
    var queue: seq<R>
    var flushed: nat
    var failed: nat
    var dirty: nat
    ghost var written: seq<R>
    ghost var done: seq<Batch<R>>

    ghost function View(): Pipeline<R>
      reads this
    {
      Pipeline(written, 0, queue, Waiting, done, flushed, failed, dirty, false)
    }

    ghost predicate Valid()
      reads this
    {
      Balanced(schema, state, View())
    }

    constructor (schema: Schema<R, K>, state: bool, maxRetry: nat)
      ensures Valid() && View() == Fresh()
      ensures this.schema == schema && this.state == state && this.maxRetry == maxRetry
    {
      this.schema, this.state, this.maxRetry := schema, state, maxRetry;
      queue, flushed, failed, dirty, written, done := [], 0, 0, 0, [], [];
    }

    /** A write raises the dirty count and queues the row. */
    method Write(row: R)
      requires Valid()
      modifies this
      ensures Valid()
      ensures View() == Apply(schema, state, maxRetry, Apply(schema, state, maxRetry, old(View()), MarkDirty), Enqueue(row))
    {
      hide Balanced;
      ApplyBalanced(schema, state, maxRetry, View(), MarkDirty);
      ApplyBalanced(schema, state, maxRetry, Apply(schema, state, maxRetry, View(), MarkDirty), Enqueue(row));
      dirty := dirty + 1;
      queue := queue + [row];
      written := written + [row];
    }

    /** Send one batch, retrying until it is taken or the retries are used up, and tell
        the cache once per row that was sent. `outcome(i)` is what the i-th attempt meets. */
    method SendBatch(rows: seq<R>, outcome: nat -> bool) returns (ok: bool, attempts: nat)
      requires rows != [] && dirty >= |rows|
      modifies this`flushed, this`failed, this`dirty
      ensures 1 <= attempts && (attempts == 1 || attempts <= maxRetry)
      ensures ok == outcome(attempts - 1) && forall i | 0 <= i < attempts - 1 :: !outcome(i)
      ensures !ok ==> attempts >= maxRetry
      ensures flushed == old(flushed) + (if ok then |Sent(schema, state, rows)| else 0)
      ensures failed == old(failed) + (if ok then 0 else |Sent(schema, state, rows)|)
      ensures dirty == old(dirty) - |Sent(schema, state, rows)|
    {
      var batch := rows;
      if state { batch := KeepLast(schema, rows); }
      attempts := 0;
      ok := false;
      while true
        invariant forall i | 0 <= i < attempts :: !outcome(i)
        invariant attempts == 0 || attempts < maxRetry
        decreases maxRetry - attempts
      {
        ok := outcome(attempts);
        attempts := attempts + 1;
        if ok || attempts >= maxRetry { break; }
      }
      if ok { flushed := flushed + |batch|; } else { failed := failed + |batch|; }
      var left := |batch|;
      while left > 0
        modifies this`dirty
        invariant 0 <= left <= |batch| && dirty == old(dirty) - (|batch| - left)
      {
        if dirty > 0 { dirty := dirty - 1; }
        left := left - 1;
      }
    }

    /** One round of the flusher: take up to a batch from the front and send it. */
    method FlushOnce(batchSize: nat, outcome: nat -> bool) returns (ok: bool)
      requires Valid() && batchSize >= 1 && queue != []
      modifies this
      ensures Valid() && written == old(written)
      ensures var n := if |old(queue)| < batchSize then |old(queue)| else batchSize;
        queue == old(queue)[n..] && done == old(done) + [Batch(old(queue)[..n], ok)]
    {
      hide RowsOf, SentCount, Superseded, Sent;
      var n := if |queue| < batchSize then |queue| else batchSize;
      var drained := queue[..n];
      queue := queue[n..];
      var attempts;
      ok, attempts := SendBatch(drained, outcome);
      OneMore(schema, state, done, Batch(drained, ok));
      ghost var before := RowsOf(done, true);
      assert before + [] == before;
      assert before + (drained + queue) == (before + drained) + queue;
      assert old(queue) == drained + queue;
      done := done + [Batch(drained, ok)];
    }

    /** After the stop the flusher drains what is left and returns, always; the count it
        leaves is zero exactly when no batch of a state table held a key twice. */
    method DrainAndReturn(batchSize: nat -> nat, outcome: (nat, nat) -> bool)
      requires Valid() && forall i :: batchSize(i) >= 1
      modifies this
      ensures Valid() && queue == [] && written == old(written) == RowsOf(done, true)
      ensures old(done) <= done && (dirty == 0 <==> NeverTwice(schema, state, done))
    {
      hide SentCount, Superseded, Sent, NeverTwice;
      var round: nat := 0;
      while queue != []
        invariant Valid() && written == old(written) && old(done) <= done
        decreases |queue|
      {
        var ok := FlushOnce(batchSize(round), (i: nat) => outcome(round, i));
        round := round + 1;
      }
      SupersededNoneIff(schema, state, done);
      assert RowsOf(done, true) + [] + [] == RowsOf(done, true);
    }
  }
}
