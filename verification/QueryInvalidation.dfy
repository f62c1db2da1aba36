/** How long an invalidation lasts on the thread that made it: until the key is put again,
    whatever else every thread does meanwhile. */
module QueryInvalidation {
  import opened Basics
  import opened Shards
  import opened QueryCache
  import L1 = CacheL1

  /** No slot of the second level, and none of the thread's first level, holds the key. */
  ghost predicate Absent<V>(cfg: Config, c: Cache<V>, thread: nat, key: string) {
    && Shaped(cfg, c) && thread < |c.threads|
    && NoKey(cfg, c, key)
    && NotHeld(c.threads[thread], key)
  }

  ghost predicate NotHeld<V>(t: seq<L1.Slot<V>>, key: string) {
    forall p | 0 <= p < |t| && t[p].Used? :: t[p].key != key
  }

  lemma AbsentMisses<V>(cfg: Config, c: Cache<V>, thread: nat, key: string)
    requires Absent(cfg, c, thread, key)
    ensures Answer(cfg, c, thread, key) == None
    ensures L1.Probe(c.threads[thread], cfg.l1Hash(key), key, 0).None? && Reached(cfg, c, key).None?
  {
    hide L1.Probe, Reach;
  }

  /** The thread's reads of longer keys that would be kept as this one. */
  predicate NoAlias<V>(op: Op<V>, thread: nat, key: string) {
    op.Get? && op.thread == thread ==> op.key == key || L1.Kept(op.key) != key
  }

  lemma GetAbsent<V>(cfg: Config, c: Cache<V>, thread: nat, key: string, reader: nat, other: string)
    requires Absent(cfg, c, thread, key) && (reader == thread ==> other == key || L1.Kept(other) != key)
    ensures Absent(cfg, AfterGet(cfg, c, reader, other), thread, key)
  {
    hide L1.Probe, L1.Victim, Reach, Shaped, Answer;
    StaysShaped(cfg, c, Get(reader, other));
    AbsentMisses(cfg, c, thread, key);
    GetKeepsAbsent(cfg, c, key, reader, other);
  }

  /** A get changes no second-level key, and stores in a first level only what it found. */
  lemma GetKeepsAbsent<V>(cfg: Config, c: Cache<V>, key: string, reader: nat, other: string)
    requires Shaped(cfg, c) && NoKey(cfg, c, key)
    requires Shaped(cfg, AfterGet(cfg, c, reader, other))
    ensures
      var d := AfterGet(cfg, c, reader, other);
      && NoKey(cfg, d, key) && |d.threads| == |c.threads|
      && forall t | 0 <= t < |c.threads| && NotHeld(c.threads[t], key) && (t == reader ==> other == key || L1.Kept(other) != key) ::
           NotHeld(d.threads[t], key)
  {
    hide L1.Probe, L1.Victim, Reach;
    var s := cfg.shardOf(key);
    var d := AfterGet(cfg, c, reader, other);
    forall p | 0 <= p < |d.shards[s].slots| ensures !HoldsKey(d.shards[s].slots, p, key) {
      assert !HoldsKey(c.shards[s].slots, p, key);
    }
    if Reached(cfg, c, other).Some? {
      assert other != key;
    }
  }

  lemma PutAbsent<V>(cfg: Config, c: Cache<V>, thread: nat, key: string, other: string, x: Content<V>, size: nat)
    requires Absent(cfg, c, thread, key) && other != key
    ensures Absent(cfg, AfterPut(cfg, c, other, x, size), thread, key)
  {
    hide Trim, Target, Good, DirtyKept;
    var s := cfg.shardOf(other);
    var d := AfterPut(cfg, c, other, x, size);
    StaysShaped(cfg, c, Put(other, x, size));
    var placed := Placed(cfg, c.shards[s], c.dirty, other, x, size);
    TrimKeeps(cfg, placed, c.dirty, cfg.quota);
    if s == cfg.shardOf(key) {
      forall p | 0 <= p < |d.shards[s].slots| ensures !HoldsKey(d.shards[s].slots, p, key) {
        assert !HoldsKey(c.shards[s].slots, p, key);
        assert !HoldsKey(placed.slots, p, key);
      }
    }
  }

  lemma InvalidateAbsent<V>(cfg: Config, c: Cache<V>, thread: nat, key: string, reader: nat, table: string)
    requires Absent(cfg, c, thread, key)
    ensures Absent(cfg, AfterInvalidate(cfg, c, reader, table), thread, key)
  {
    hide DropAll, Fewer, Shaped;
    StaysShaped(cfg, c, Invalidate(reader, table));
    var keys := if table in c.tags then c.tags[table] else [];
    var b := c.(tags := c.tags - {table});
    assert Shaped(cfg, b) by { SameShape(cfg, c, b); }
    var d := DropAll(cfg, b, keys);
    DropAllFewer(cfg, b, keys);
    NoKeyStays(cfg, b, d, key);
    assert AfterInvalidate(cfg, c, reader, table).shards == d.shards;
  }

  lemma SameShape<V>(cfg: Config, c: Cache<V>, d: Cache<V>)
    requires Shaped(cfg, c) && d.shards == c.shards && d.threads == c.threads
    ensures Shaped(cfg, d)
  {
  }

  lemma SweepAbsent<V>(cfg: Config, c: Cache<V>, thread: nat, key: string, now: int, locked: seq<seq<bool>>)
    requires Absent(cfg, c, thread, key)
    ensures Absent(cfg, SweepFrom(c, now, locked, 0), thread, key)
  {
    hide SweepFrom, Fewer, Shaped;
    SweepShaped(cfg, c, now, locked, 0);
    SweepFewer(cfg, c, now, locked, 0);
    NoKeyStays(cfg, c, SweepFrom(c, now, locked, 0), key);
  }

  lemma ApplyAbsent<V>(cfg: Config, c: Cache<V>, thread: nat, key: string, op: Op<V>)
    requires Absent(cfg, c, thread, key)
    requires NoAlias(op, thread, key) && (op.Put? ==> op.key != key)
    ensures Shaped(cfg, c) && Absent(cfg, Apply(cfg, c, op), thread, key)
  {
    hide AfterGet, AfterPut, AfterInvalidate, SweepFrom;
    match op
    case Get(reader, other) => GetAbsent(cfg, c, thread, key, reader, other);
    case Put(other, x, size) => PutAbsent(cfg, c, thread, key, other, x, size);
    case Invalidate(reader, table) => InvalidateAbsent(cfg, c, thread, key, reader, table);
    case Sweep(now, locked) => SweepAbsent(cfg, c, thread, key, now, locked);
    case MarkDirty(table) => SameShape(cfg, c, Apply(cfg, c, op));
    case MarkClean(table) => SameShape(cfg, c, Apply(cfg, c, op));
  }

  lemma {:induction false} RunAbsent<V>(cfg: Config, c: Cache<V>, thread: nat, key: string, ops: seq<Op<V>>)
    requires Absent(cfg, c, thread, key)
    requires forall op | op in ops :: NoAlias(op, thread, key) && (op.Put? ==> op.key != key)
    ensures Shaped(cfg, c) && Absent(cfg, Run(cfg, c, ops), thread, key)
    decreases |ops|
  {
    hide Absent, Apply, NoKey;
    AbsentShaped(cfg, c, thread, key);
    if ops != [] {
      assert ops[0] in ops;
      ApplyAbsent(cfg, c, thread, key, ops[0]);
      RunAbsent(cfg, Apply(cfg, c, ops[0]), thread, key, ops[1..]);
    }
  }

  lemma AbsentShaped<V>(cfg: Config, c: Cache<V>, thread: nat, key: string)
    requires Absent(cfg, c, thread, key)
    ensures Shaped(cfg, c) && thread < |c.threads|
  {
  }

  lemma InvalidatedAbsent<V>(cfg: Config, c: Cache<V>, past: Past<V>, thread: nat, table: string, key: string)
    requires Truthful(cfg, c, past) && table != "" && thread < |c.threads|
    requires key in past.last && past.last[key].tag == table
    ensures Shaped(cfg, c) && Absent(cfg, AfterInvalidate(cfg, c, thread, table), thread, key)
  {
    hide Good, DropAll;
    StaysShaped(cfg, c, Invalidate(thread, table));
    InvalidateTruthful(cfg, c, past, thread, table);
    var keys := if table in c.tags then c.tags[table] else [];
    DropAllFewer(cfg, c.(tags := c.tags - {table}), keys);
    var d := AfterInvalidate(cfg, c, thread, table);
    var s := cfg.shardOf(key);
    assert ShardTells(cfg, d.shards[s], s, d.tags, past);
    assert table !in d.tags;
    forall p | 0 <= p < |d.shards[s].slots| ensures !HoldsKey(d.shards[s].slots, p, key) {
      if d.shards[s].slots[p].Held? { HeldTells(cfg, d.shards[s], s, d.tags, past, p); }
    }
  }

  /** In every run: invalidate a table, and every key whose last put carried its tag misses
      on that thread through any further calls of any thread that do not put the key, as long
      as the thread itself reads no longer key that begins with it and has 80 bytes in common. */
  lemma MissesUntilPut<V>(cfg: Config, c: Cache<V>, before: seq<Op<V>>, thread: nat, table: string, key: string, after: seq<Op<V>>)
    requires Fresh(cfg, c) && table != "" && thread < |c.threads|
    requires var past := RememberAll(NoPast(), before); key in past.last && past.last[key].tag == table
    requires forall op | op in after :: NoAlias(op, thread, key) && (op.Put? ==> op.key != key)
    ensures Shaped(cfg, Run(cfg, c, before))
    ensures
      var d := Run(cfg, Apply(cfg, Run(cfg, c, before), Invalidate(thread, table)), after);
      Shaped(cfg, d) && thread < |d.threads| && Answer(cfg, d, thread, key) == None
  {
    hide Run, RememberAll, Truthful, Absent, NoKey, Answer, AfterInvalidate;
    var past := RememberAll(NoPast(), before);
    FreshTruthful(cfg, c);
    RunTruthful(cfg, c, NoPast(), before);
    var mid := Run(cfg, c, before);
    TruthfulShaped(cfg, mid, past);
    RunThreads(cfg, c, before);
    InvalidatedAbsent(cfg, mid, past, thread, table, key);
    var d := Apply(cfg, mid, Invalidate(thread, table));
    RunAbsent(cfg, d, thread, key, after);
    AbsentShaped(cfg, Run(cfg, d, after), thread, key);
    AbsentMisses(cfg, Run(cfg, d, after), thread, key);
  }

  lemma {:induction false} RunThreads<V>(cfg: Config, c: Cache<V>, ops: seq<Op<V>>)
    requires Shaped(cfg, c)
    ensures |Run(cfg, c, ops).threads| == |c.threads|
    decreases |ops|
  {
    hide Apply;
    if ops != [] {
      StaysShaped(cfg, c, ops[0]);
      ApplyThreads(cfg, c, ops[0]);
      RunThreads(cfg, Apply(cfg, c, ops[0]), ops[1..]);
    }
  }

  lemma ApplyThreads<V>(cfg: Config, c: Cache<V>, op: Op<V>)
    requires Shaped(cfg, c)
    ensures |Apply(cfg, c, op).threads| == |c.threads|
  {
    hide DropAll, SweepFrom, Placed, Trim, Reach, L1.Probe;
    match op
    case Invalidate(reader, table) =>
      DropAllFewer(cfg, c.(tags := c.tags - {table}), if table in c.tags then c.tags[table] else []);
    case Sweep(now, locked) => SweepFewer(cfg, c, now, locked, 0);
    case _ =>
  }

  /** Such a read does end the misses: it is answered by the shared level, and from then on
      the thread finds the longer key's value under the shorter one. */
  lemma AliasReadHits<V>(cfg: Config, c: Cache<V>, thread: nat, key: string, other: string)
    requires Absent(cfg, c, thread, key) && |other| > L1.KEY_MAX && other[..L1.KEY_MAX] == key
    requires cfg.l1Hash(other) == cfg.l1Hash(key) && Reached(cfg, c, other).Some?
    requires L1.Probe(c.threads[thread], cfg.l1Hash(other), other, 0).None?
    ensures
      var d := AfterGet(cfg, c, thread, other);
      Shaped(cfg, d) && thread < |d.threads| && Answer(cfg, d, thread, key) == Answer(cfg, c, thread, other)
  {
    hide L1.Probe, L1.Stored, Reach;
    StaysShaped(cfg, c, Get(thread, other));
    var t := c.threads[thread];
    var value := c.shards[cfg.shardOf(other)].slots[Reached(cfg, c, other).value].payload.value;
    forall p | 0 <= p < |t| ensures !L1.At(t, p, key) { }
    L1.LongKeyAliases(t, cfg.l1Hash, other, value, c.stamp + 1);
  }
}
