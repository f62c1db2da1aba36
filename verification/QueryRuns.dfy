/** The query cache over whole runs of calls: which tables count as dirty, what the sweep and
    the quota take from the others, and in which order slots are given up. */
module QueryRuns {
  import opened Basics
  import opened Probing
  import opened Shards
  import opened ShardOrder
  import opened QueryCache
  import QueryInvalidation
  import L1 = CacheL1

  // ------------------------------------------------------------------ dirty tables

  /** The marks of a table that are still open after some calls: one more for every mark, one
      less for every clearing, and never less than none. */
  function Balance<V>(ops: seq<Op<V>>, table: string, open: nat): nat
    decreases |ops|
  {
    if ops == [] then open
    else if ops[0] == MarkDirty(table) then Balance(ops[1..], table, open + 1)
    else if ops[0] == MarkClean(table) then Balance(ops[1..], table, if open == 0 then 0 else open - 1)
    else Balance(ops[1..], table, open)
  }

  /** The count a cache keeps for a table. */
  function Count<V>(c: Cache<V>, table: string): nat {
    if table in c.dirty then c.dirty[table] else 0
  }

  lemma OthersDontCount<V>(cfg: Config, c: Cache<V>, op: Op<V>)
    requires Shaped(cfg, c) && !op.MarkDirty? && !op.MarkClean?
    ensures Apply(cfg, c, op).dirty == c.dirty
  {
    hide DropAll, SweepFrom, Placed, Trim, Reach, L1.Probe, L1.Stored, Fewer;
    match op
    case Invalidate(thread, table) =>
      DropAllFewer(cfg, c.(tags := c.tags - {table}), if table in c.tags then c.tags[table] else []);
    case Sweep(now, locked) => SweepFewer(cfg, c, now, locked, 0);
    case _ =>
  }

  lemma StepCounts<V>(cfg: Config, c: Cache<V>, op: Op<V>, table: string)
    requires Shaped(cfg, c)
    ensures Count(Apply(cfg, c, op), table)
      == if op == MarkDirty(table) then Count(c, table) + 1
         else if op == MarkClean(table) then (if Count(c, table) == 0 then 0 else Count(c, table) - 1)
         else Count(c, table)
  {
    hide AfterGet, AfterPut, AfterInvalidate, SweepFrom;
    if !op.MarkDirty? && !op.MarkClean? { OthersDontCount(cfg, c, op); }
  }

  /** In every run a table's count is the balance of its marks, whatever else is called. */
  lemma {:induction false} CountIsBalance<V>(cfg: Config, c: Cache<V>, ops: seq<Op<V>>, table: string)
    requires Shaped(cfg, c)
    ensures Count(Run(cfg, c, ops), table) == Balance(ops, table, Count(c, table))
    decreases |ops|
  {
    hide Apply, Count;
    if ops != [] {
      StaysShaped(cfg, c, ops[0]);
      StepCounts(cfg, c, ops[0], table);
      CountIsBalance(cfg, Apply(cfg, c, ops[0]), ops[1..], table);
    }
  }

  /** From an empty cache: a table is dirty exactly when its balance is positive. */
  lemma DirtyIffBalance<V>(cfg: Config, c: Cache<V>, ops: seq<Op<V>>, table: string)
    requires Fresh(cfg, c)
    ensures Counted(Run(cfg, c, ops).dirty, table) <==> Balance(ops, table, 0) > 0
  {
    hide Run;
    CountIsBalance(cfg, c, ops, table);
  }

  // ------------------------------------------------------------------ the sweep

  lemma {:induction false} ExpireExact<V>(sh: Level2<V>, dirty: map<string, nat>, now: int, locked: seq<bool>, i: nat, p: nat)
    requires i <= |sh.slots| && p < |sh.slots|
    ensures var s := sh.slots[p];
      Expire(sh, dirty, now, locked, i).slots[p]
      == if p >= i && !(p < |locked| && locked[p]) && s.Held? && s.payload.expires <= now && !Counted(dirty, s.payload.tag)
         then Free else s
    decreases |sh.slots| - i
  {
    if i < |sh.slots| {
      var s := sh.slots[i];
      var gone := !(i < |locked| && locked[i]) && s.Held? && s.payload.expires <= now && !Counted(dirty, s.payload.tag);
      ExpireExact(if gone then Remove(sh, i) else sh, dirty, now, locked, i + 1, p);
    }
  }

  function LockedIn(locked: seq<seq<bool>>, s: nat): seq<bool> {
    if s < |locked| then locked[s] else []
  }

  lemma {:induction false} SweepExact<V>(c: Cache<V>, now: int, locked: seq<seq<bool>>, from: nat, s: nat)
    requires from <= s < |c.shards|
    ensures SweepFrom(c, now, locked, from).shards[s] == Expire(c.shards[s], c.dirty, now, LockedIn(locked, s), 0)
    decreases |c.shards| - from
  {
    hide Expire;
    var d := WithShard(c, from, Expire(c.shards[from], c.dirty, now, LockedIn(locked, from), 0));
    if from < s { SweepExact(d, now, locked, from + 1, s); } else { SweepPast(d, now, locked, from + 1, s); }
  }

  lemma {:induction false} SweepPast<V>(c: Cache<V>, now: int, locked: seq<seq<bool>>, from: nat, s: nat)
    requires s < from <= |c.shards|
    ensures SweepFrom(c, now, locked, from).shards[s] == c.shards[s]
    decreases |c.shards| - from
  {
    hide Expire;
    if from < |c.shards| {
      SweepPast(WithShard(c, from, Expire(c.shards[from], c.dirty, now, LockedIn(locked, from), 0)), now, locked, from + 1, s);
    }
  }

  /** In every run a sweep frees exactly the unlocked slots whose time has come and whose table
      has no open mark. */
  lemma SweepInRun<V>(cfg: Config, c: Cache<V>, ops: seq<Op<V>>, now: int, locked: seq<seq<bool>>, s: nat, p: nat)
    requires Fresh(cfg, c)
    ensures Shaped(cfg, Run(cfg, c, ops))
    ensures var d := Run(cfg, c, ops);
      var e := Apply(cfg, d, Sweep(now, locked));
      |e.shards| == |d.shards| && (s < |d.shards| && p < |d.shards[s].slots| ==>
        && |e.shards[s].slots| == |d.shards[s].slots|
        && var x := d.shards[s].slots[p];
           e.shards[s].slots[p]
           == if !(s < |locked| && p < |locked[s]| && locked[s][p])
                 && x.Held? && x.payload.expires <= now && Balance(ops, x.payload.tag, 0) == 0
              then Free else x)
  {
    hide Run, SweepFrom, Expire, Good;
    RunShaped(cfg, c, ops);
    var d := Run(cfg, c, ops);
    if s < |d.shards| && p < |d.shards[s].slots| {
      SweepExact(d, now, locked, 0, s);
      ExpireExact(d.shards[s], d.dirty, now, LockedIn(locked, s), 0, p);
      if d.shards[s].slots[p].Held? { DirtyIffBalance(cfg, c, ops, d.shards[s].slots[p].payload.tag); }
    }
  }

  lemma {:induction false} RunShaped<V>(cfg: Config, c: Cache<V>, ops: seq<Op<V>>)
    requires Shaped(cfg, c)
    ensures Shaped(cfg, Run(cfg, c, ops))
    decreases |ops|
  {
    hide Shaped, Apply;
    if ops != [] {
      StaysShaped(cfg, c, ops[0]);
      RunShaped(cfg, Apply(cfg, c, ops[0]), ops[1..]);
    }
  }

  // ------------------------------------------------------------------ the quota

  lemma {:induction false} TrimEvicts<V>(sh: Level2<V>, dirty: map<string, nat>, quota: nat, may: seq<bool>)
    requires |may| == |sh.slots|
    requires forall p | 0 <= p < |may| && sh.slots[p].Held? ::
      may[p] <==> sh.slots[p].payload.tag == "" || !Counted(dirty, sh.slots[p].payload.tag)
    ensures Evicts(sh, Trim(sh, dirty, quota), may, quota)
    decreases Used(sh.slots)
  {
    hide OldestOf, Used, Evicts, Counted;
    var victim := OldestOf(sh.slots, Evictable(sh.slots, dirty), 0, None);
    if sh.bytes <= quota || victim.None? {
      EvictsNone(sh, may, quota);
    } else {
      UsedUpdate(sh.slots, victim.value);
      TrimEvicts(Remove(sh, victim.value), dirty, quota, may);
      EvictsOne(sh, Trim(Remove(sh, victim.value), dirty, quota), may, quota, victim.value);
    }
  }

  /** In every run a put then brings its shard within the quota by giving up slots that have no
      tag or whose table has no open mark, the least recently used first and no more than it
      has to; only if none is left the shard stays over. */
  lemma QuotaInRun<V>(cfg: Config, c: Cache<V>, ops: seq<Op<V>>, key: string, x: Content<V>, size: nat, may: seq<bool>)
    requires Fresh(cfg, c)
    requires Shaped(cfg, Run(cfg, c, ops))
    requires var d := Run(cfg, c, ops);
      var sh := Placed(cfg, d.shards[cfg.shardOf(key)], d.dirty, key, x, size);
      && |may| == |sh.slots|
      && forall p | 0 <= p < |may| && sh.slots[p].Held? ::
           may[p] <==> sh.slots[p].payload.tag == "" || Balance(ops, sh.slots[p].payload.tag, 0) == 0
    ensures var d := Run(cfg, c, ops);
      var s := cfg.shardOf(key);
      Evicts(Placed(cfg, d.shards[s], d.dirty, key, x, size), Apply(cfg, d, Put(key, x, size)).shards[s], may, cfg.quota)
  {
    hide Run, Placed, Trim, Evicts, Counted;
    var d := Run(cfg, c, ops);
    var sh := Placed(cfg, d.shards[cfg.shardOf(key)], d.dirty, key, x, size);
    forall p | 0 <= p < |may| && sh.slots[p].Held?
      ensures may[p] <==> sh.slots[p].payload.tag == "" || !Counted(d.dirty, sh.slots[p].payload.tag)
    {
      DirtyIffBalance(cfg, c, ops, sh.slots[p].payload.tag);
    }
    TrimEvicts(sh, d.dirty, cfg.quota, may);
  }

  /** In every run a slot whose table has an open mark survives the put of another key, unless
      that key has no slot and its whole window is held under such tables. */
  lemma PutSparesDirty<V>(cfg: Config, c: Cache<V>, ops: seq<Op<V>>, key: string, x: Content<V>, size: nat, p: nat)
    requires Fresh(cfg, c) && cfg.probe > 0
    ensures Shaped(cfg, Run(cfg, c, ops))
    ensures var d := Run(cfg, c, ops);
      var s := cfg.shardOf(key);
      var slots := d.shards[s].slots;
      var after := Apply(cfg, d, Put(key, x, size)).shards[s].slots;
      && |after| == |slots|
      && (p < |slots| && slots[p].Held? && slots[p].key != key && slots[p].payload.tag != ""
          && Balance(ops, slots[p].payload.tag, 0) > 0 ==>
            || after[p] == slots[p]
            || forall k | 0 <= k < cfg.probe ::
                 var y := slots[Pos(cfg.hash(key), k, |slots|)];
                 y.Held? && y.key != key && y.payload.tag != "" && Balance(ops, y.payload.tag, 0) > 0)
  {
    hide Run, Trim, Good, Target, Find, Counted, Pos, Fewer;
    RunShaped(cfg, c, ops);
    var d := Run(cfg, c, ops);
    var sh := d.shards[cfg.shardOf(key)];
    var h := cfg.hash(key);
    var placed := Placed(cfg, sh, d.dirty, key, x, size);
    TrimKeeps(cfg, placed, d.dirty, cfg.quota);
    if p < |sh.slots| && sh.slots[p].Held? && sh.slots[p].key != key && sh.slots[p].payload.tag != ""
      && Balance(ops, sh.slots[p].payload.tag, 0) > 0
    {
      DirtyIffBalance(cfg, c, ops, sh.slots[p].payload.tag);
      ReplacesDirtyIff(cfg, sh, d.dirty, key);
      if Target(sh, d.dirty, h, cfg.probe, key) == Some(p) {
        forall k | 0 <= k < cfg.probe
          ensures var y := sh.slots[Pos(h, k, |sh.slots|)];
            y.Held? && y.key != key && y.payload.tag != "" && Balance(ops, y.payload.tag, 0) > 0
        {
          var q := Pos(h, k, |sh.slots|);
          assert sh.slots[q].Held? && IsDirty(d.dirty, sh.slots[q].payload.tag);
          TargetOther(sh, h, cfg.probe, key, q);
          DirtyIffBalance(cfg, c, ops, sh.slots[q].payload.tag);
        }
      } else {
        assert placed.slots[p] == sh.slots[p];
      }
    }
  }

  // ------------------------------------------------------------------ order of use

  /** The key of a shard that a call uses there: a read that its thread's first level misses
      and the shard answers, or a put. */
  ghost function UsedKey<V>(cfg: Config, c: Cache<V>, op: Op<V>, s: nat): seq<string>
    requires Shaped(cfg, c)
  {
    match op
    case Get(thread, key) =>
      if cfg.shardOf(key) == s && thread < |c.threads| && L1.Lookup(c.threads[thread], cfg.l1Hash, key).None?
        && Answer(cfg, c, thread, key).Some? then [key] else []
    case Put(key, _, _) => if cfg.shardOf(key) == s && cfg.probe > 0 then [key] else []
    case _ => []
  }

  ghost function UseLog<V>(cfg: Config, c: Cache<V>, ops: seq<Op<V>>, s: nat): seq<string>
    requires Shaped(cfg, c)
    decreases |ops|
  {
    if ops == [] then [] else
    StaysShaped(cfg, c, ops[0]);
    UsedKey(cfg, c, ops[0], s) + UseLog(cfg, Apply(cfg, c, ops[0]), ops[1..], s)
  }

  /** Slots may have gone, and nothing else happened. */
  lemma FewerNoUse<V>(cfg: Config, a: Level2<V>, b: Level2<V>)
    requires Fewer(cfg, a, b) && b.clock == a.clock
    ensures NoUse(a, b)
  {
    hide Good;
  }

  lemma {:induction false} TrimClock<V>(sh: Level2<V>, dirty: map<string, nat>, quota: nat)
    ensures Trim(sh, dirty, quota).clock == sh.clock
    decreases Used(sh.slots)
  {
    hide OldestOf, Evictable, Used;
    if sh.bytes > quota {
      var victim := OldestOf(sh.slots, Evictable(sh.slots, dirty), 0, None);
      if victim.Some? {
        UsedUpdate(sh.slots, victim.value);
        TrimClock(Remove(sh, victim.value), dirty, quota);
      }
    }
  }

  lemma {:induction false} ExpireClock<V>(sh: Level2<V>, dirty: map<string, nat>, now: int, locked: seq<bool>, i: nat)
    requires i <= |sh.slots|
    ensures Expire(sh, dirty, now, locked, i).clock == sh.clock
    decreases |sh.slots| - i
  {
    if i < |sh.slots| {
      var s := sh.slots[i];
      var gone := !(i < |locked| && locked[i]) && s.Held? && s.payload.expires <= now && !Counted(dirty, s.payload.tag);
      ExpireClock(if gone then Remove(sh, i) else sh, dirty, now, locked, i + 1);
    }
  }

  lemma {:induction false} DropAllClock<V>(cfg: Config, c: Cache<V>, keys: seq<string>, s: nat)
    requires Shaped(cfg, c) && s < |c.shards|
    ensures |DropAll(cfg, c, keys).shards| == |c.shards| && DropAll(cfg, c, keys).shards[s].clock == c.shards[s].clock
    decreases |keys|
  {
    hide Find;
    if keys != [] {
      var r := cfg.shardOf(keys[0]);
      DropAllClock(cfg, WithShard(c, r, Dropped(cfg, c.shards[r], keys[0])), keys[1..], s);
    }
  }

  lemma PutTracks<V>(cfg: Config, sh: Level2<V>, dirty: map<string, nat>, key: string, x: Content<V>, size: nat, log: seq<string>)
    requires Good(sh, cfg.hash, cfg.probe) && Tracks(sh, log)
    ensures |sh.slots| > 0
    ensures Tracks(Trim(Placed(cfg, sh, dirty, key, x, size), dirty, cfg.quota), log + if cfg.probe > 0 then [key] else [])
  {
    hide Good, Target, Trim, Tracks, LastAt, Fewer, DirtyKept, InWindow;
    GoodSize(cfg, sh);
    var placed := Placed(cfg, sh, dirty, key, x, size);
    var next := log + if cfg.probe > 0 then [key] else [];
    var t := Target(sh, dirty, cfg.hash(key), cfg.probe, key);
    if cfg.probe > 0 {
      ReplacesDirtyIff(cfg, sh, dirty, key);
      OnlyTarget(cfg, sh, dirty, key);
      UseTracks(sh, placed, log, t.value, key);
    } else {
      NoWindow(sh, dirty, cfg.hash(key), key);
      NoUseTracks(sh, placed, log);
    }
    TrimKeeps(cfg, placed, dirty, cfg.quota);
    TrimClock(placed, dirty, cfg.quota);
    FewerNoUse(cfg, placed, Trim(placed, dirty, cfg.quota));
    NoUseTracks(placed, Trim(placed, dirty, cfg.quota), next);
    assert next + [] == next;
  }

  lemma GoodSize<V>(cfg: Config, sh: Level2<V>)
    requires Good(sh, cfg.hash, cfg.probe)
    ensures |sh.slots| > 0
  {
  }

  lemma NoWindow<V>(sh: Level2<V>, dirty: map<string, nat>, h: nat, key: string)
    requires |sh.slots| > 0
    ensures Target(sh, dirty, h, 0, key).None?
  {
  }

  lemma GetTracks<V>(cfg: Config, c: Cache<V>, thread: nat, key: string, s: nat, log: seq<string>)
    requires Shaped(cfg, c) && s < |c.shards| && Good(c.shards[s], cfg.hash, cfg.probe) && Tracks(c.shards[s], log)
    ensures Tracks(AfterGet(cfg, c, thread, key).shards[s], log + UsedKey(cfg, c, Get(thread, key), s))
  {
    hide Find, Reach, L1.Probe, L1.Stored, Tracks, LastAt;
    var sh, after := c.shards[s], AfterGet(cfg, c, thread, key).shards[s];
    if UsedKey(cfg, c, Get(thread, key), s) == [key] {
      UseTracks(sh, after, log, Reached(cfg, c, key).value, key);
    } else {
      assert after == sh;
      NoUseTracks(sh, sh, log);
    }
  }

  lemma StepTracks<V>(cfg: Config, c: Cache<V>, op: Op<V>, s: nat, log: seq<string>)
    requires Shaped(cfg, c) && s < |c.shards| && Good(c.shards[s], cfg.hash, cfg.probe) && Tracks(c.shards[s], log)
    ensures |Apply(cfg, c, op).shards| == |c.shards|
    ensures Tracks(Apply(cfg, c, op).shards[s], log + UsedKey(cfg, c, op, s))
  {
    hide Good, AfterGet, DropAll, SweepFrom, Expire, Placed, Trim, Answer, Tracks, LastAt, Fewer, L1.Probe, Reach;
    var sh := c.shards[s];
    match op
    case Get(thread, key) =>
      GetShards(cfg, c, thread, key);
      GetTracks(cfg, c, thread, key, s, log);
    case Put(key, x, size) =>
      if cfg.shardOf(key) == s { PutTracks(cfg, sh, c.dirty, key, x, size, log); } else { NoUseTracks(sh, sh, log); }
    case Invalidate(thread, table) =>
      var keys := if table in c.tags then c.tags[table] else [];
      var b := c.(tags := c.tags - {table});
      DropAllFewer(cfg, b, keys);
      DropAllClock(cfg, b, keys, s);
      FewerNoUse(cfg, sh, DropAll(cfg, b, keys).shards[s]);
      NoUseTracks(sh, DropAll(cfg, b, keys).shards[s], log);
    case Sweep(now, locked) =>
      SweepExact(c, now, locked, 0, s);
      ExpireKeeps(cfg, sh, c.dirty, now, LockedIn(locked, s), 0);
      ExpireClock(sh, c.dirty, now, LockedIn(locked, s), 0);
      FewerNoUse(cfg, sh, Expire(sh, c.dirty, now, LockedIn(locked, s), 0));
      NoUseTracks(sh, Expire(sh, c.dirty, now, LockedIn(locked, s), 0), log);
    case _ => NoUseTracks(sh, sh, log);
  }

  lemma GetShards<V>(cfg: Config, c: Cache<V>, thread: nat, key: string)
    requires Shaped(cfg, c)
    ensures |AfterGet(cfg, c, thread, key).shards| == |c.shards|
  {
    hide Reach, L1.Probe, L1.Stored;
  }

  lemma {:induction false} RunTracks<V>(cfg: Config, c: Cache<V>, ops: seq<Op<V>>, past: Past<V>, s: nat, log: seq<string>)
    requires Truthful(cfg, c, past) && s < |c.shards| && Tracks(c.shards[s], log)
    ensures Shaped(cfg, c) && |Run(cfg, c, ops).shards| == |c.shards|
    ensures Tracks(Run(cfg, c, ops).shards[s], log + UseLog(cfg, c, ops, s))
    decreases |ops|
  {
    hide Truthful, Tracks, Apply, UsedKey, Good, Remember;
    TruthfulShaped(cfg, c, past);
    if ops == [] {
      assert log + [] == log;
    } else {
      TruthfulGood(cfg, c, past, s);
      StepTracks(cfg, c, ops[0], s, log);
      ApplyTruthful(cfg, c, past, ops[0]);
      StaysShaped(cfg, c, ops[0]);
      var next := Apply(cfg, c, ops[0]);
      RunTracks(cfg, next, ops[1..], Remember(past, ops[0]), s, log + UsedKey(cfg, c, ops[0], s));
      assert log + UsedKey(cfg, c, ops[0], s) + UseLog(cfg, next, ops[1..], s)
        == log + (UsedKey(cfg, c, ops[0], s) + UseLog(cfg, next, ops[1..], s));
    }
  }

  lemma TruthfulGood<V>(cfg: Config, c: Cache<V>, past: Past<V>, s: nat)
    requires Truthful(cfg, c, past) && s < |c.shards|
    ensures Good(c.shards[s], cfg.hash, cfg.probe)
  {
    assert ShardTells(cfg, c.shards[s], s, c.tags, past);
  }

  /** The key is the least recently used of a window that is all in use. */
  ghost predicate LeastRecent<V>(slots: seq<Slot<string, Content<V>>>, h: nat, probe: nat, log: seq<string>, o: nat)
    requires |slots| > 0
  {
    && o < |slots| && slots[o].Held?
    && forall k | 0 <= k < probe ::
         var y := slots[Pos(h, k, |slots|)];
         y.Held? && (y.key == slots[o].key || UsedSince(log, y.key, slots[o].key))
  }

  /** In every run, a put that takes another key's slot does so in a window all in use, and
      there it takes the slot least recently read or put, or, when that one's table has an open
      mark and some other's has none, one of the latter. */
  lemma PushesOutLeastRecent<V>(cfg: Config, c: Cache<V>, ops: seq<Op<V>>, key: string) returns (o: nat)
    requires Fresh(cfg, c) && cfg.probe > 0
    ensures Shaped(cfg, Run(cfg, c, ops))
    ensures var d := Run(cfg, c, ops);
      var s := cfg.shardOf(key);
      var slots := d.shards[s].slots;
      var t := Target(d.shards[s], d.dirty, cfg.hash(key), cfg.probe, key);
      && t.Some?
      && (slots[t.value].Held? && slots[t.value].key != key ==>
            && LeastRecent(slots, cfg.hash(key), cfg.probe, UseLog(cfg, c, ops, s), o)
            && (t.value == o
                || (IsDirty(d.dirty, slots[o].payload.tag) && !IsDirty(d.dirty, slots[t.value].payload.tag))))
  {
    hide Run, UseLog, Good, Find, FirstFree, Oldest, FirstEvictable, IsDirty, Tracks, LeastRecent, InWindow;
    FreshTruthful(cfg, c);
    RunTruthful(cfg, c, NoPast(), ops);
    var d, past := Run(cfg, c, ops), RememberAll(NoPast(), ops);
    TruthfulShaped(cfg, d, past);
    var s := cfg.shardOf(key);
    RunTracks(cfg, c, ops, NoPast(), s, []) by { FreshTracks(cfg, c, s); }
    assert [] + UseLog(cfg, c, ops, s) == UseLog(cfg, c, ops, s);
    var sh, h := d.shards[s], cfg.hash(key);
    ReplacesDirtyIff(cfg, sh, d.dirty, key);
    var t := Target(sh, d.dirty, h, cfg.probe, key).value;
    o := t;
    if sh.slots[t].Held? && sh.slots[t].key != key {
      o := Oldest(sh.slots, AllTrue(|sh.slots|), h, cfg.probe, 0, None).value;
      OldestIsLeastRecent(sh, h, cfg.probe, UseLog(cfg, c, ops, s), o);
    }
  }

  lemma FreshTracks<V>(cfg: Config, c: Cache<V>, s: nat)
    requires Fresh(cfg, c) && s < |c.shards|
    ensures Tracks(c.shards[s], [])
  {
    assert Vacant(c.shards[s]);
  }

  lemma OldestIsLeastRecent<V>(sh: Level2<V>, h: nat, probe: nat, log: seq<string>, o: nat)
    requires |sh.slots| > 0 && Tracks(sh, log) && FirstFree(sh.slots, h, probe, 0).None?
    requires Oldest(sh.slots, AllTrue(|sh.slots|), h, probe, 0, None) == Some(o)
    ensures LeastRecent(sh.slots, h, probe, log, o)
  {
    hide FirstFree, Oldest, Pos, LastAt, UsedSince;
    forall k | 0 <= k < probe
      ensures var y := sh.slots[Pos(h, k, |sh.slots|)];
        y.Held? && (y.key == sh.slots[o].key || UsedSince(log, y.key, sh.slots[o].key))
    {
      var y := sh.slots[Pos(h, k, |sh.slots|)];
      assert y.Held? && Age(sh.slots[o]) <= Age(y);
      if y.key != sh.slots[o].key { LaterUse(log, sh.slots[o].key, sh.slots[o].lastUsed, y.key, y.lastUsed); }
    }
  }

  // ------------------------------------------------------------------ the first level

  /** Every first-level stamp was drawn already. */
  ghost predicate Drawn<V>(c: Cache<V>) {
    forall t, p | 0 <= t < |c.threads| && 0 <= p < |c.threads[t]| && c.threads[t][p].Used? ::
      c.threads[t][p].lastUsed <= c.stamp
  }

  lemma StepDrawn<V>(cfg: Config, c: Cache<V>, op: Op<V>)
    requires Shaped(cfg, c) && Drawn(c)
    ensures Drawn(Apply(cfg, c, op))
  {
    hide DropAll, SweepFrom, Placed, Trim, Reach, L1.Probe, L1.Victim, Fewer;
    match op
    case Invalidate(thread, table) =>
      DropAllFewer(cfg, c.(tags := c.tags - {table}), if table in c.tags then c.tags[table] else []);
      DropAllStamp(cfg, c.(tags := c.tags - {table}), if table in c.tags then c.tags[table] else []);
    case Sweep(now, locked) =>
      SweepFewer(cfg, c, now, locked, 0);
      SweepStamp(c, now, locked, 0);
    case _ =>
  }

  lemma {:induction false} DropAllStamp<V>(cfg: Config, c: Cache<V>, keys: seq<string>)
    requires Shaped(cfg, c)
    ensures DropAll(cfg, c, keys).stamp == c.stamp
    decreases |keys|
  {
    hide Dropped;
    if keys != [] {
      var r := cfg.shardOf(keys[0]);
      DropAllStamp(cfg, WithShard(c, r, Dropped(cfg, c.shards[r], keys[0])), keys[1..]);
    }
  }

  lemma {:induction false} SweepStamp<V>(c: Cache<V>, now: int, locked: seq<seq<bool>>, s: nat)
    requires s <= |c.shards|
    ensures SweepFrom(c, now, locked, s).stamp == c.stamp
    decreases |c.shards| - s
  {
    hide Expire;
    if s < |c.shards| {
      SweepStamp(WithShard(c, s, Expire(c.shards[s], c.dirty, now, LockedIn(locked, s), 0)), now, locked, s + 1);
    }
  }

  lemma {:induction false} RunDrawn<V>(cfg: Config, c: Cache<V>, ops: seq<Op<V>>)
    requires Shaped(cfg, c) && Drawn(c)
    ensures Drawn(Run(cfg, c, ops))
    decreases |ops|
  {
    hide Apply, Drawn;
    if ops != [] {
      StaysShaped(cfg, c, ops[0]);
      StepDrawn(cfg, c, ops[0]);
      RunDrawn(cfg, Apply(cfg, c, ops[0]), ops[1..]);
    }
  }

  /** In every run a read that is answered leaves its key, with the answer, as the most recently
      used entry of its thread's first level, and touches one slot of that level only; the
      other threads' first levels stay as they were. */
  lemma ReadIsFreshest<V>(cfg: Config, c: Cache<V>, ops: seq<Op<V>>, thread: nat, key: string) returns (p: nat)
    requires Fresh(cfg, c) && thread < |c.threads|
    ensures Shaped(cfg, Run(cfg, c, ops)) && |Run(cfg, c, ops).threads| == |c.threads|
    ensures var d := Run(cfg, c, ops);
      var e := Apply(cfg, d, Get(thread, key));
      var t, u := d.threads[thread], e.threads[thread];
      && |e.threads| == |d.threads| && |u| == |t|
      && (forall r | 0 <= r < |d.threads| && r != thread :: e.threads[r] == d.threads[r])
      && (Answer(cfg, d, thread, key).Some? ==>
            && p < |u| && u[p].Used? && u[p].key == L1.Kept(key) && u[p].value == Answer(cfg, d, thread, key).value
            && forall r | 0 <= r < |u| && r != p :: u[r] == t[r] && (u[r].Used? ==> u[r].lastUsed < u[p].lastUsed))
      && (Answer(cfg, d, thread, key).None? ==> e == d)
  {
    hide Run, Reach, L1.Probe, L1.Victim, Good, Fresh;
    FreshDrawn(cfg, c);
    RunShaped(cfg, c, ops);
    QueryInvalidation.RunThreads(cfg, c, ops);
    RunDrawn(cfg, c, ops);
    var d := Run(cfg, c, ops);
    var q := L1.Probe(d.threads[thread], cfg.l1Hash(key), key, 0);
    if q.Some? {
      p := q.value;
      FoundShort(cfg, c, ops, thread, p);
    } else {
      p := L1.Victim(d.threads[thread], cfg.l1Hash(key), key);
    }
  }

  lemma FreshDrawn<V>(cfg: Config, c: Cache<V>)
    requires Fresh(cfg, c)
    ensures Shaped(cfg, c) && Drawn(c)
  {
    forall t | 0 <= t < |c.threads| ensures Unused(c.threads[t]) { }
  }

  /** A first-level slot keeps no more of a key than fits, so what is found there is a key kept
      whole. */
  lemma FoundShort<V>(cfg: Config, c: Cache<V>, ops: seq<Op<V>>, thread: nat, q: nat)
    requires Fresh(cfg, c) && thread < |Run(cfg, c, ops).threads| && q < |Run(cfg, c, ops).threads[thread]|
    requires Run(cfg, c, ops).threads[thread][q].Used?
    ensures var k := Run(cfg, c, ops).threads[thread][q].key; L1.Kept(k) == k
  {
    hide Run, Good, ShardTells;
    FreshTruthful(cfg, c);
    RunTruthful(cfg, c, NoPast(), ops);
    var d, past := Run(cfg, c, ops), RememberAll(NoPast(), ops);
    assert ThreadTells(cfg, thread, d.threads[thread], past);
    assert FromPut(cfg, thread, d.threads[thread][q], past);
    var k :| FromKey(cfg, thread, d.threads[thread][q], k, past);
  }
}
