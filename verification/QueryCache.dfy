/** The two-level query cache: one first-level table per thread in front of the shared,
    sharded second level, with table tags and dirty counts. Every public call is one
    step. */
module QueryCache {
  import opened Basics
  import opened Probing
  import opened Shards
  import L1 = CacheL1

  datatype Content<V> = Content(value: V, tag: string, expires: int)

  type Level2<V> = Shard<string, Content<V>>

  /** `shardOf` picks a key's shard from its hash; `l1Hash` is the first level's own. */
  datatype Config = Config(hash: string -> nat, shardOf: string -> nat, l1Hash: string -> nat, probe: nat, quota: nat)

  datatype Cache<V> = Cache(
    shards: seq<Level2<V>>,
    tags: map<string, seq<string>>,
    dirty: map<string, nat>,
    threads: seq<seq<L1.Slot<V>>>,
    stamp: nat)

  datatype Op<V> =
    | Get(thread: nat, key: string)
    | Put(key: string, content: Content<V>, size: nat)
    | Invalidate(thread: nat, table: string)
    | MarkDirty(table: string)
    | MarkClean(table: string)
    | Sweep(now: int, locked: seq<seq<bool>>)

  // ------------------------------------------------------------------ dirty tags

  predicate Counted(dirty: map<string, nat>, tag: string) {
    tag in dirty && dirty[tag] > 0
  }

  /** A slot without a tag is never pinned by a put. */
  predicate IsDirty(dirty: map<string, nat>, tag: string) {
    tag != "" && Counted(dirty, tag)
  }

  /** Whether an eviction may take a slot. */
  predicate MayGo<V>(s: Slot<string, Content<V>>, dirty: map<string, nat>) {
    s.Held? && !IsDirty(dirty, s.payload.tag)
  }

  function Evictable<V>(slots: seq<Slot<string, Content<V>>>, dirty: map<string, nat>): (r: seq<bool>)
    ensures |r| == |slots|
    ensures forall p | 0 <= p < |slots| :: r[p] == MayGo(slots[p], dirty)
  {
    if slots == [] then [] else [MayGo(slots[0], dirty)] + Evictable(slots[1..], dirty)
  }

  function AllTrue(n: nat): (r: seq<bool>)
    ensures |r| == n && forall p | 0 <= p < n :: r[p]
  {
    if n == 0 then [] else [true] + AllTrue(n - 1)
  }

  // ------------------------------------------------------------------ one shard

  /** The first slot of the window that is not pinned dirty. */
  function FirstEvictable<V>(slots: seq<Slot<string, Content<V>>>, dirty: map<string, nat>, h: nat, probe: nat, i: nat): (r: Option<nat>)
    requires |slots| > 0 && i <= probe
    ensures r.Some? ==> r.value < |slots| && MayGo(slots[r.value], dirty) && InWindow(h, r.value, probe, |slots|)
    ensures r.None? ==> forall k | i <= k < probe :: !MayGo(slots[Pos(h, k, |slots|)], dirty)
    decreases probe - i
  {
    if i == probe then None else
    var p := Pos(h, i, |slots|);
    if MayGo(slots[p], dirty) then Some(p) else FirstEvictable(slots, dirty, h, probe, i + 1)
  }

  /** Where a put goes: the key's slot, else the first free slot of the window, else the
      least recently used one; if that one is dirty, the first one that is not; and if
      all are, the least recently used one after all. */
  function Target<V>(sh: Level2<V>, dirty: map<string, nat>, h: nat, probe: nat, key: string): (r: Option<nat>)
    requires |sh.slots| > 0
    ensures r.Some? ==> r.value < |sh.slots| && InWindow(h, r.value, probe, |sh.slots|)
  {
    var own := Find(sh.slots, h, probe, key, 0);
    if own.Some? then own else
    var free := FirstFree(sh.slots, h, probe, 0);
    if free.Some? then free else
    var lru := Oldest(sh.slots, AllTrue(|sh.slots|), h, probe, 0, None);
    if lru.None? || !IsDirty(dirty, sh.slots[lru.value].payload.tag) then lru else
    var other := FirstEvictable(sh.slots, dirty, h, probe, 0);
    if other.Some? then other else lru
  }

  /** Evict the oldest slot that may go until the shard is within quota or none is left. */
  function Trim<V>(sh: Level2<V>, dirty: map<string, nat>, quota: nat): (r: Level2<V>)
    ensures |r.slots| == |sh.slots|
    ensures r.bytes <= quota || forall p | 0 <= p < |r.slots| :: !MayGo(r.slots[p], dirty)
    decreases Used(sh.slots)
  {
    if sh.bytes <= quota then sh else
    var victim := OldestOf(sh.slots, Evictable(sh.slots, dirty), 0, None);
    if victim.None? then sh else
    UsedUpdate(sh.slots, victim.value);
    Trim(Remove(sh, victim.value), dirty, quota)
  }

  function Placed<V>(cfg: Config, sh: Level2<V>, dirty: map<string, nat>, key: string, x: Content<V>, size: nat): (r: Level2<V>)
    requires |sh.slots| > 0
    ensures |r.slots| == |sh.slots|
  {
    var t := Target(sh, dirty, cfg.hash(key), cfg.probe, key);
    if t.None? then sh else Write(sh, t.value, key, x, size)
  }

  function Dropped<V>(cfg: Config, sh: Level2<V>, key: string): (r: Level2<V>)
    requires |sh.slots| > 0
    ensures |r.slots| == |sh.slots|
  {
    var p := Find(sh.slots, cfg.hash(key), cfg.probe, key, 0);
    if p.None? then sh else Remove(sh, p.value)
  }

  /** The expiry sweep of one shard from slot i on. */
  function Expire<V>(sh: Level2<V>, dirty: map<string, nat>, now: int, locked: seq<bool>, i: nat): (r: Level2<V>)
    requires i <= |sh.slots|
    ensures |r.slots| == |sh.slots|
    decreases |sh.slots| - i
  {
    if i == |sh.slots| then sh else
    var s := sh.slots[i];
    var gone := !(i < |locked| && locked[i]) && s.Held? && s.payload.expires <= now && !Counted(dirty, s.payload.tag);
    Expire(if gone then Remove(sh, i) else sh, dirty, now, locked, i + 1)
  }

  // ------------------------------------------------------------------ the calls

  ghost predicate Shaped<V>(cfg: Config, c: Cache<V>) {
    && |c.shards| > 0
    && (forall k :: cfg.shardOf(k) < |c.shards|)
    && (forall s | 0 <= s < |c.shards| :: |c.shards[s].slots| > 0)
    && (forall t | 0 <= t < |c.threads| :: |c.threads[t]| > 0)
  }

  function WithShard<V>(c: Cache<V>, s: nat, sh: Level2<V>): Cache<V>
    requires s < |c.shards|
  {
    c.(shards := c.shards[s := sh])
  }

  ghost function Reached<V>(cfg: Config, c: Cache<V>, key: string): Option<nat>
    requires Shaped(cfg, c)
  {
    Reach(c.shards[cfg.shardOf(key)].slots, cfg.hash(key), cfg.probe, key, 0)
  }

  ghost function Answer<V>(cfg: Config, c: Cache<V>, thread: nat, key: string): Option<V>
    requires Shaped(cfg, c) && thread < |c.threads|
  {
    var hit := L1.Lookup(c.threads[thread], cfg.l1Hash, key);
    if hit.Some? then hit else
    var p := Reached(cfg, c, key);
    if p.None? then None else Some(c.shards[cfg.shardOf(key)].slots[p.value].payload.value)
  }

  /** A first-level hit refreshes its slot; a second-level hit is promoted. */
  ghost function AfterGet<V>(cfg: Config, c: Cache<V>, thread: nat, key: string): Cache<V>
    requires Shaped(cfg, c)
  {
    if thread >= |c.threads| then c else
    var t := c.threads[thread];
    var h := cfg.l1Hash(key);
    var q := L1.Probe(t, h, key, 0);
    if q.Some? then
      c.(threads := c.threads[thread := t[q.value := t[q.value].(lastUsed := c.stamp + 1)]], stamp := c.stamp + 1)
    else
      var p := Reached(cfg, c, key);
      if p.None? then c else
      var s := cfg.shardOf(key);
      var value := c.shards[s].slots[p.value].payload.value;
      WithShard(c, s, Touch(c.shards[s], p.value))
        .(threads := c.threads[thread := L1.Stored(t, h, key, value, c.stamp + 1)], stamp := c.stamp + 1)
  }

  ghost function AfterPut<V>(cfg: Config, c: Cache<V>, key: string, x: Content<V>, size: nat): Cache<V>
    requires Shaped(cfg, c)
  {
    var s := cfg.shardOf(key);
    var placed := Placed(cfg, c.shards[s], c.dirty, key, x, size);
    var keys := if x.tag in c.tags then c.tags[x.tag] else [];
    WithShard(c, s, Trim(placed, c.dirty, cfg.quota))
      .(tags := if x.tag == "" then c.tags else c.tags[x.tag := keys + [key]])
  }

  ghost function DropAll<V>(cfg: Config, c: Cache<V>, keys: seq<string>): (r: Cache<V>)
    requires Shaped(cfg, c)
    ensures Shaped(cfg, r)
    decreases |keys|
  {
    if keys == [] then c else
    var s := cfg.shardOf(keys[0]);
    DropAll(cfg, WithShard(c, s, Dropped(cfg, c.shards[s], keys[0])), keys[1..])
  }

  function Emptied<V>(slots: seq<L1.Slot<V>>): (r: seq<L1.Slot<V>>)
    ensures |r| == |slots| && forall p | 0 <= p < |r| :: r[p].Empty?
  {
    if slots == [] then [] else [L1.Empty] + Emptied(slots[1..])
  }

  /** Take the tag's key list away, drop each of its keys, and clear the caller's first
      level. */
  ghost function AfterInvalidate<V>(cfg: Config, c: Cache<V>, thread: nat, table: string): Cache<V>
    requires Shaped(cfg, c)
  {
    var keys := if table in c.tags then c.tags[table] else [];
    var d := DropAll(cfg, c.(tags := c.tags - {table}), keys);
    if thread < |d.threads| then d.(threads := d.threads[thread := Emptied(d.threads[thread])]) else d
  }

  function CountUp(dirty: map<string, nat>, table: string): map<string, nat> {
    dirty[table := (if table in dirty then dirty[table] else 0) + 1]
  }

  function CountDown(dirty: map<string, nat>, table: string): map<string, nat> {
    if table !in dirty then dirty
    else if dirty[table] <= 1 then dirty - {table}
    else dirty[table := dirty[table] - 1]
  }

  ghost function SweepFrom<V>(c: Cache<V>, now: int, locked: seq<seq<bool>>, s: nat): (r: Cache<V>)
    requires s <= |c.shards|
    ensures |r.shards| == |c.shards|
    decreases |c.shards| - s
  {
    if s == |c.shards| then c else
    var held := if s < |locked| then locked[s] else [];
    SweepFrom(WithShard(c, s, Expire(c.shards[s], c.dirty, now, held, 0)), now, locked, s + 1)
  }

  ghost function Apply<V>(cfg: Config, c: Cache<V>, op: Op<V>): Cache<V>
    requires Shaped(cfg, c)
  {
    match op
    case Get(thread, key) => AfterGet(cfg, c, thread, key)
    case Put(key, x, size) => AfterPut(cfg, c, key, x, size)
    case Invalidate(thread, table) => AfterInvalidate(cfg, c, thread, table)
    case MarkDirty(table) => c.(dirty := CountUp(c.dirty, table))
    case MarkClean(table) => c.(dirty := CountDown(c.dirty, table))
    case Sweep(now, locked) => SweepFrom(c, now, locked, 0)
  }

  ghost function Run<V>(cfg: Config, c: Cache<V>, ops: seq<Op<V>>): Cache<V>
    requires Shaped(cfg, c)
    decreases |ops|
  {
    if ops == [] then c else
    StaysShaped(cfg, c, ops[0]);
    Run(cfg, Apply(cfg, c, ops[0]), ops[1..])
  }

  lemma StaysShaped<V>(cfg: Config, c: Cache<V>, op: Op<V>)
    requires Shaped(cfg, c)
    ensures Shaped(cfg, Apply(cfg, c, op))
  {
    hide Placed, Trim, Dropped, Expire, Reach, L1.Probe, L1.Victim;
    if op.Sweep? { SweepShaped(cfg, c, op.now, op.locked, 0); }
  }

  lemma {:induction false} SweepShaped<V>(cfg: Config, c: Cache<V>, now: int, locked: seq<seq<bool>>, s: nat)
    requires Shaped(cfg, c) && s <= |c.shards|
    ensures Shaped(cfg, SweepFrom(c, now, locked, s))
    decreases |c.shards| - s
  {
    hide Expire;
    if s < |c.shards| {
      var held := if s < |locked| then locked[s] else [];
      SweepShaped(cfg, WithShard(c, s, Expire(c.shards[s], c.dirty, now, held, 0)), now, locked, s + 1);
    }
  }

  // ------------------------------------------------------------------ slots only go

  /** Nothing but free slots and slots that were there before, and still in good order. */
  ghost predicate Fewer<V>(cfg: Config, a: Level2<V>, b: Level2<V>) {
    && |a.slots| == |b.slots|
    && (forall p | 0 <= p < |a.slots| :: b.slots[p].Free? || b.slots[p] == a.slots[p])
    && (Good(a, cfg.hash, cfg.probe) ==> Good(b, cfg.hash, cfg.probe))
  }

  /** Slots with a dirty tag are still there. */
  ghost predicate DirtyKept<V>(a: Level2<V>, b: Level2<V>, dirty: map<string, nat>) {
    |a.slots| == |b.slots| &&
    forall p | 0 <= p < |a.slots| && a.slots[p].Held? && IsDirty(dirty, a.slots[p].payload.tag) :: b.slots[p] == a.slots[p]
  }

  lemma RemoveFewer<V>(cfg: Config, sh: Level2<V>, p: nat)
    requires p < |sh.slots|
    ensures Fewer(cfg, sh, Remove(sh, p))
  {
    hide Good;
    if Good(sh, cfg.hash, cfg.probe) { RemoveGood(sh, cfg.hash, cfg.probe, p); }
  }

  lemma RemoveKeepsDirty<V>(sh: Level2<V>, dirty: map<string, nat>, p: nat)
    requires p < |sh.slots| && MayGo(sh.slots[p], dirty)
    ensures DirtyKept(sh, Remove(sh, p), dirty)
  {
  }

  lemma DirtyTrans<V>(a: Level2<V>, b: Level2<V>, c: Level2<V>, dirty: map<string, nat>)
    requires DirtyKept(a, b, dirty) && DirtyKept(b, c, dirty)
    ensures DirtyKept(a, c, dirty)
  {
    hide IsDirty;
  }

  lemma SameKept<V>(cfg: Config, a: Level2<V>, dirty: map<string, nat>)
    ensures Fewer(cfg, a, a) && DirtyKept(a, a, dirty)
  {
    hide Good, IsDirty;
  }

  /** The over-quota loop never takes a slot with a dirty tag; that it ends within quota or
      with only such slots left is part of its own contract. */
  lemma {:induction false} TrimKeeps<V>(cfg: Config, sh: Level2<V>, dirty: map<string, nat>, quota: nat)
    ensures Fewer(cfg, sh, Trim(sh, dirty, quota)) && DirtyKept(sh, Trim(sh, dirty, quota), dirty)
    decreases Used(sh.slots)
  {
    hide Good, OldestOf, Used, Fewer, DirtyKept;
    if sh.bytes > quota {
      var victim := OldestOf(sh.slots, Evictable(sh.slots, dirty), 0, None);
      if victim.Some? {
        UsedUpdate(sh.slots, victim.value);
        var next := Remove(sh, victim.value);
        RemoveFewer(cfg, sh, victim.value);
        RemoveKeepsDirty(sh, dirty, victim.value);
        TrimKeeps(cfg, next, dirty, quota);
        FewerTrans(cfg, sh, next, Trim(next, dirty, quota));
        DirtyTrans(sh, next, Trim(next, dirty, quota), dirty);
      } else {
        SameKept(cfg, sh, dirty);
      }
    } else {
      SameKept(cfg, sh, dirty);
    }
  }

  lemma {:induction false} ExpireKeeps<V>(cfg: Config, sh: Level2<V>, dirty: map<string, nat>, now: int, locked: seq<bool>, i: nat)
    requires i <= |sh.slots|
    ensures var r := Expire(sh, dirty, now, locked, i); Fewer(cfg, sh, r) && DirtyKept(sh, r, dirty)
    decreases |sh.slots| - i
  {
    hide Good;
    if i < |sh.slots| {
      var s := sh.slots[i];
      var gone := !(i < |locked| && locked[i]) && s.Held? && s.payload.expires <= now && !Counted(dirty, s.payload.tag);
      RemoveFewer(cfg, sh, i);
      ExpireKeeps(cfg, if gone then Remove(sh, i) else sh, dirty, now, locked, i + 1);
    }
  }

  /** After the expiry sweep no unlocked slot is past its time, unless its tag is dirty. */
  lemma {:induction false} ExpireGone<V>(sh: Level2<V>, dirty: map<string, nat>, now: int, locked: seq<bool>, i: nat, p: nat)
    requires i <= |sh.slots| && p < |sh.slots| && !(p < |locked| && locked[p])
    requires p < i && sh.slots[p].Held? ==> sh.slots[p].payload.expires > now || Counted(dirty, sh.slots[p].payload.tag)
    ensures
      var s := Expire(sh, dirty, now, locked, i).slots[p];
      s.Held? ==> s.payload.expires > now || Counted(dirty, s.payload.tag)
    decreases |sh.slots| - i
  {
    if i < |sh.slots| {
      var s := sh.slots[i];
      var gone := !(i < |locked| && locked[i]) && s.Held? && s.payload.expires <= now && !Counted(dirty, s.payload.tag);
      ExpireGone(if gone then Remove(sh, i) else sh, dirty, now, locked, i + 1, p);
    }
  }

  /** A put always finds a place; its key then holds the new content, a key that was not
      resident before is found by readers, and no other slot has changed. */
  lemma PlacedReadable<V>(cfg: Config, sh: Level2<V>, dirty: map<string, nat>, key: string, x: Content<V>, size: nat)
    requires Good(sh, cfg.hash, cfg.probe) && cfg.probe > 0
    ensures
      var t := Target(sh, dirty, cfg.hash(key), cfg.probe, key);
      var d := Placed(cfg, sh, dirty, key, x, size);
      && t.Some? && HoldsKey(d.slots, t.value, key) && d.slots[t.value].payload == x
      && (forall p | 0 <= p < |sh.slots| && p != t.value :: d.slots[p] == sh.slots[p])
      && (Find(sh.slots, cfg.hash(key), cfg.probe, key, 0).None? ==>
            Reach(d.slots, cfg.hash(key), cfg.probe, key, 0) == t)
  {
    assert |sh.slots| > 0;
    hide Good, Find, Reach, FirstFree, Oldest, FirstEvictable;
    ReplacesDirtyIff(cfg, sh, dirty, key);
    var t := Target(sh, dirty, cfg.hash(key), cfg.probe, key);
    if Find(sh.slots, cfg.hash(key), cfg.probe, key, 0).None? {
      WrittenReached(sh, cfg.hash, cfg.probe, t.value, key, x, size);
    }
  }

  lemma DroppedFewer<V>(cfg: Config, sh: Level2<V>, key: string)
    requires |sh.slots| > 0
    ensures Fewer(cfg, sh, Dropped(cfg, sh, key))
    ensures Good(sh, cfg.hash, cfg.probe) ==>
      forall p | 0 <= p < |sh.slots| :: !HoldsKey(Dropped(cfg, sh, key).slots, p, key)
  {
    hide Good, Find;
    var p := Find(sh.slots, cfg.hash(key), cfg.probe, key, 0);
    if p.Some? { RemoveFewer(cfg, sh, p.value); }
    if Good(sh, cfg.hash, cfg.probe) {
      FindExact(sh, cfg.hash, cfg.probe, key);
      forall r | 0 <= r < |sh.slots| ensures !HoldsKey(Dropped(cfg, sh, key).slots, r, key) {
        if HoldsKey(sh.slots, r, key) { assert p == Some(r); }
      }
    }
  }

  // ------------------------------------------------------------------ what a put replaces

  lemma OnlyTarget<V>(cfg: Config, sh: Level2<V>, dirty: map<string, nat>, key: string)
    requires Good(sh, cfg.hash, cfg.probe)
    ensures forall r | 0 <= r < |sh.slots| && HoldsKey(sh.slots, r, key) ::
      Target(sh, dirty, cfg.hash(key), cfg.probe, key) == Some(r)
  {
    hide Find, FirstFree, Oldest, FirstEvictable;
    FindExact(sh, cfg.hash, cfg.probe, key);
  }

  lemma PlacedGood<V>(cfg: Config, sh: Level2<V>, dirty: map<string, nat>, key: string, x: Content<V>, size: nat)
    requires Good(sh, cfg.hash, cfg.probe)
    ensures Good(Placed(cfg, sh, dirty, key, x, size), cfg.hash, cfg.probe)
  {
    hide Target;
    OnlyTarget(cfg, sh, dirty, key);
    var t := Target(sh, dirty, cfg.hash(key), cfg.probe, key);
    if t.Some? { WriteGood(sh, cfg.hash, cfg.probe, t.value, key, x, size); }
  }

  /** A put replaces another key's slot with a dirty tag exactly when its key has no slot
      and every slot of the window is held under a dirty tag. */
  lemma ReplacesDirtyIff<V>(cfg: Config, sh: Level2<V>, dirty: map<string, nat>, key: string)
    requires |sh.slots| > 0 && cfg.probe > 0
    ensures var h := cfg.hash(key);
      var t := Target(sh, dirty, h, cfg.probe, key);
      && t.Some?
      && (sh.slots[t.value].Held? && sh.slots[t.value].key != key && IsDirty(dirty, sh.slots[t.value].payload.tag)
          <==> Find(sh.slots, h, cfg.probe, key, 0).None? && forall k | 0 <= k < cfg.probe ::
            var s := sh.slots[Pos(h, k, |sh.slots|)]; s.Held? && IsDirty(dirty, s.payload.tag))
  {
    hide Find, FirstFree, Oldest, FirstEvictable, Pos, IsDirty;
    var h := cfg.hash(key);
    var p := Pos(h, 0, |sh.slots|);
    if Find(sh.slots, h, cfg.probe, key, 0).None? && FirstFree(sh.slots, h, cfg.probe, 0).None? {
      assert sh.slots[p].Held?;
      var t := Target(sh, dirty, h, cfg.probe, key).value;
      TargetOther(sh, h, cfg.probe, key, t);
    }
  }

  lemma TargetOther<V>(sh: Level2<V>, h: nat, probe: nat, key: string, t: nat)
    requires |sh.slots| > 0 && t < |sh.slots| && Find(sh.slots, h, probe, key, 0).None?
    requires InWindow(h, t, probe, |sh.slots|)
    ensures !HoldsKey(sh.slots, t, key)
  {
    hide Pos, Find;
    if HoldsKey(sh.slots, t, key) {
      var j :| 0 <= j < probe && Pos(h, j, |sh.slots|) == t;
      FindSees(sh.slots, h, probe, key, 0, j);
    }
  }

  // ------------------------------------------------------------------ what the slots say

  /** The last content put under each key, every key and value ever put together, and which
      keys each thread has read. */
  datatype Past<V> = Past(last: map<string, Content<V>>, ever: seq<(string, V)>, read: seq<(nat, string)>)

  ghost function NoPast<V>(): Past<V> {
    Past(map[], [], [])
  }

  ghost function Remember<V>(past: Past<V>, op: Op<V>): Past<V> {
    if op.Put? then past.(last := past.last[op.key := op.content], ever := past.ever + [(op.key, op.content.value)])
    else if op.Get? then past.(read := past.read + [(op.thread, op.key)])
    else past
  }

  ghost function RememberAll<V>(past: Past<V>, ops: seq<Op<V>>): Past<V>
    decreases |ops|
  {
    if ops == [] then past else RememberAll(Remember(past, ops[0]), ops[1..])
  }

  /** A slot is in its key's shard, holds the last content put under the key, and is
      listed under its tag. */
  ghost predicate Tells<V>(cfg: Config, s: nat, key: string, x: Content<V>, tags: map<string, seq<string>>, past: Past<V>) {
    && cfg.shardOf(key) == s
    && key in past.last && past.last[key] == x && (key, x.value) in past.ever
    && (x.tag != "" ==> x.tag in tags && key in tags[x.tag])
  }

  ghost predicate ShardTells<V>(cfg: Config, sh: Level2<V>, s: nat, tags: map<string, seq<string>>, past: Past<V>) {
    && Good(sh, cfg.hash, cfg.probe)
    && forall p | 0 <= p < |sh.slots| && sh.slots[p].Held? ::
         Tells(cfg, s, sh.slots[p].key, sh.slots[p].payload, tags, past)
  }

  /** A first-level slot holds a value put under a key that this thread has read, and as much
      of that key as fits. */
  ghost predicate FromKey<V>(cfg: Config, n: nat, s: L1.Slot<V>, k: string, past: Past<V>)
    requires s.Used?
  {
    L1.Kept(k) == s.key && cfg.l1Hash(k) == s.hash && (k, s.value) in past.ever && (n, k) in past.read
  }

  ghost predicate FromPut<V>(cfg: Config, n: nat, s: L1.Slot<V>, past: Past<V>)
    requires s.Used?
  {
    exists k :: FromKey(cfg, n, s, k, past)
  }

  ghost predicate ThreadTells<V>(cfg: Config, n: nat, t: seq<L1.Slot<V>>, past: Past<V>) {
    |t| > 0 && forall p | 0 <= p < |t| && t[p].Used? :: FromPut(cfg, n, t[p], past)
  }

  lemma MorePast<V>(cfg: Config, n: nat, t: seq<L1.Slot<V>>, past: Past<V>, op: Op<V>)
    requires ThreadTells(cfg, n, t, past)
    ensures ThreadTells(cfg, n, t, Remember(past, op))
  {
    hide FromKey;
    forall p | 0 <= p < |t| && t[p].Used? ensures FromPut(cfg, n, t[p], Remember(past, op)) {
      assert FromPut(cfg, n, t[p], past);
      var k :| FromKey(cfg, n, t[p], k, past);
      StillFrom(cfg, n, t[p], k, past, op);
    }
  }

  lemma StillFrom<V>(cfg: Config, n: nat, s: L1.Slot<V>, k: string, past: Past<V>, op: Op<V>)
    requires s.Used? && FromKey(cfg, n, s, k, past)
    ensures FromKey(cfg, n, s, k, Remember(past, op))
  {
    hide L1.Kept;
  }

  ghost predicate Truthful<V>(cfg: Config, c: Cache<V>, past: Past<V>) {
    && Shaped(cfg, c)
    && (forall s | 0 <= s < |c.shards| :: ShardTells(cfg, c.shards[s], s, c.tags, past))
    && (forall t | 0 <= t < |c.threads| :: ThreadTells(cfg, t, c.threads[t], past))
  }

  lemma FewerTells<V>(cfg: Config, a: Level2<V>, b: Level2<V>, s: nat, tags: map<string, seq<string>>, past: Past<V>)
    requires ShardTells(cfg, a, s, tags, past) && Fewer(cfg, a, b)
    ensures ShardTells(cfg, b, s, tags, past)
  {
    hide Good, Tells;
  }

  lemma TouchTells<V>(cfg: Config, a: Level2<V>, p: nat, s: nat, tags: map<string, seq<string>>, past: Past<V>)
    requires ShardTells(cfg, a, s, tags, past) && p < |a.slots| && a.slots[p].Held?
    ensures ShardTells(cfg, Touch(a, p), s, tags, past)
  {
    hide Good, Tells;
    TouchGood(a, cfg.hash, cfg.probe, p);
  }

  lemma StoreTells<V>(cfg: Config, n: nat, t: seq<L1.Slot<V>>, key: string, value: V, stamp: nat, past: Past<V>)
    requires ThreadTells(cfg, n, t, past) && (key, value) in past.ever && (n, key) in past.read
    ensures |t| > 0 && ThreadTells(cfg, n, L1.Stored(t, cfg.l1Hash(key), key, value, stamp), past)
  {
    hide L1.Victim;
    var after := L1.Stored(t, cfg.l1Hash(key), key, value, stamp);
    assert FromKey(cfg, n, after[L1.Victim(t, cfg.l1Hash(key), key)], key, past);
  }

  lemma GetTruthful<V>(cfg: Config, c: Cache<V>, past: Past<V>, thread: nat, key: string)
    requires Truthful(cfg, c, past)
    ensures Truthful(cfg, AfterGet(cfg, c, thread, key), Remember(past, Get(thread, key)))
  {
    hide L1.Probe, L1.Stored, Reach, ShardTells, ThreadTells;
    var now := Remember(past, Get(thread, key));
    StaysShaped(cfg, c, Get(thread, key));
    forall s | 0 <= s < |c.shards| ensures ShardTells(cfg, c.shards[s], s, c.tags, now) {
      SameShardTells(cfg, c.shards[s], s, c.tags, past, now);
    }
    forall t | 0 <= t < |c.threads| ensures ThreadTells(cfg, t, c.threads[t], now) {
      MorePast(cfg, t, c.threads[t], past, Get(thread, key));
    }
    if thread < |c.threads| {
      var t := c.threads[thread];
      var q := L1.Probe(t, cfg.l1Hash(key), key, 0);
      if q.Some? {
        TouchThread(cfg, thread, t, q.value, c.stamp + 1, now);
      } else {
        var p := Reached(cfg, c, key);
        if p.Some? {
          var s := cfg.shardOf(key);
          assert ShardTells(cfg, c.shards[s], s, c.tags, now);
          TouchTells(cfg, c.shards[s], p.value, s, c.tags, now);
          HeldTells(cfg, c.shards[s], s, c.tags, now, p.value);
          StoreTells(cfg, thread, t, key, c.shards[s].slots[p.value].payload.value, c.stamp + 1, now);
        }
      }
    }
  }

  lemma SameShardTells<V>(cfg: Config, sh: Level2<V>, s: nat, tags: map<string, seq<string>>, past: Past<V>, now: Past<V>)
    requires ShardTells(cfg, sh, s, tags, past) && now.last == past.last && now.ever == past.ever
    ensures ShardTells(cfg, sh, s, tags, now)
  {
    hide Good;
    forall p | 0 <= p < |sh.slots| && sh.slots[p].Held?
      ensures Tells(cfg, s, sh.slots[p].key, sh.slots[p].payload, tags, now)
    {
      assert Tells(cfg, s, sh.slots[p].key, sh.slots[p].payload, tags, past);
    }
  }

  lemma HeldTells<V>(cfg: Config, sh: Level2<V>, s: nat, tags: map<string, seq<string>>, past: Past<V>, p: nat)
    requires ShardTells(cfg, sh, s, tags, past) && p < |sh.slots| && sh.slots[p].Held?
    ensures Tells(cfg, s, sh.slots[p].key, sh.slots[p].payload, tags, past)
  {
  }

  lemma TouchThread<V>(cfg: Config, n: nat, t: seq<L1.Slot<V>>, q: nat, stamp: nat, past: Past<V>)
    requires ThreadTells(cfg, n, t, past) && q < |t| && t[q].Used?
    ensures ThreadTells(cfg, n, t[q := t[q].(lastUsed := stamp)], past)
  {
    var after := t[q := t[q].(lastUsed := stamp)];
    assert FromPut(cfg, n, t[q], past);
    var k :| FromKey(cfg, n, t[q], k, past);
    assert FromKey(cfg, n, after[q], k, past);
  }

  // ------------------------------------------------------------------ puts

  lemma PlacedTells<V>(cfg: Config, c: Cache<V>, past: Past<V>, key: string, x: Content<V>, size: nat)
    requires Truthful(cfg, c, past)
    ensures var s := cfg.shardOf(key);
      var after, now := AfterPut(cfg, c, key, x, size), Remember(past, Put(key, x, size));
      ShardTells(cfg, Placed(cfg, c.shards[s], c.dirty, key, x, size), s, after.tags, now)
  {
    hide Good, Target, Trim;
    var s := cfg.shardOf(key);
    var sh := c.shards[s];
    var after, now := AfterPut(cfg, c, key, x, size), Remember(past, Put(key, x, size));
    assert ShardTells(cfg, sh, s, c.tags, past);
    PlacedGood(cfg, sh, c.dirty, key, x, size);
    OnlyTarget(cfg, sh, c.dirty, key);
    var placed := Placed(cfg, sh, c.dirty, key, x, size);
    forall p | 0 <= p < |placed.slots| && placed.slots[p].Held?
      ensures Tells(cfg, s, placed.slots[p].key, placed.slots[p].payload, after.tags, now)
    {
      if Target(sh, c.dirty, cfg.hash(key), cfg.probe, key) != Some(p) {
        assert !HoldsKey(sh.slots, p, key);
        assert Tells(cfg, s, sh.slots[p].key, sh.slots[p].payload, c.tags, past);
      }
    }
  }

  lemma PutTruthful<V>(cfg: Config, c: Cache<V>, past: Past<V>, key: string, x: Content<V>, size: nat)
    requires Truthful(cfg, c, past)
    ensures Truthful(cfg, AfterPut(cfg, c, key, x, size), Remember(past, Put(key, x, size)))
  {
    hide Placed, Trim, Good, Fewer, DirtyKept;
    var s := cfg.shardOf(key);
    var after, now := AfterPut(cfg, c, key, x, size), Remember(past, Put(key, x, size));
    StaysShaped(cfg, c, Put(key, x, size));
    PlacedTells(cfg, c, past, key, x, size);
    var placed := Placed(cfg, c.shards[s], c.dirty, key, x, size);
    TrimKeeps(cfg, placed, c.dirty, cfg.quota);
    FewerTells(cfg, placed, Trim(placed, c.dirty, cfg.quota), s, after.tags, now);
    forall r | 0 <= r < |after.shards| ensures ShardTells(cfg, after.shards[r], r, after.tags, now) {
      if r != s { OtherTells(cfg, c, past, key, x, size, r); }
    }
    forall t | 0 <= t < |after.threads| ensures ThreadTells(cfg, t, after.threads[t], now) {
      MorePast(cfg, t, c.threads[t], past, Put(key, x, size));
    }
  }

  lemma OtherTells<V>(cfg: Config, c: Cache<V>, past: Past<V>, key: string, x: Content<V>, size: nat, r: nat)
    requires Truthful(cfg, c, past) && r < |c.shards| && r != cfg.shardOf(key)
    ensures var after, now := AfterPut(cfg, c, key, x, size), Remember(past, Put(key, x, size));
      ShardTells(cfg, c.shards[r], r, after.tags, now)
  {
    hide Placed, Trim, Good;
    assert ShardTells(cfg, c.shards[r], r, c.tags, past);
  }

  // ------------------------------------------------------------------ invalidation and sweeps

  /** Shards that only lost slots still tell the truth. */
  ghost predicate AllFewer<V>(cfg: Config, c: Cache<V>, d: Cache<V>) {
    && |c.shards| == |d.shards| && d.threads == c.threads
    && forall s | 0 <= s < |c.shards| :: Fewer(cfg, c.shards[s], d.shards[s])
  }

  lemma FewerTrans<V>(cfg: Config, a: Level2<V>, b: Level2<V>, c: Level2<V>)
    requires Fewer(cfg, a, b) && Fewer(cfg, b, c)
    ensures Fewer(cfg, a, c)
  {
    hide Good;
  }

  lemma {:induction false} DropAllFewer<V>(cfg: Config, c: Cache<V>, keys: seq<string>)
    requires Shaped(cfg, c)
    ensures AllFewer(cfg, c, DropAll(cfg, c, keys)) && DropAll(cfg, c, keys).tags == c.tags
    ensures DropAll(cfg, c, keys).dirty == c.dirty
    decreases |keys|
  {
    hide Fewer, Dropped;
    if keys == [] {
      forall s | 0 <= s < |c.shards| ensures Fewer(cfg, c.shards[s], c.shards[s]) { SameFewer(cfg, c.shards[s]); }
    } else {
      var s := cfg.shardOf(keys[0]);
      var d := WithShard(c, s, Dropped(cfg, c.shards[s], keys[0]));
      DroppedFewer(cfg, c.shards[s], keys[0]);
      DropAllFewer(cfg, d, keys[1..]);
      var e := DropAll(cfg, c, keys);
      forall r | 0 <= r < |c.shards| ensures Fewer(cfg, c.shards[r], e.shards[r]) {
        if r == s { FewerTrans(cfg, c.shards[r], d.shards[r], e.shards[r]); }
      }
    }
  }

  lemma SameFewer<V>(cfg: Config, a: Level2<V>)
    ensures Fewer(cfg, a, a)
  {
    hide Good;
  }

  ghost predicate NoKey<V>(cfg: Config, c: Cache<V>, key: string)
    requires Shaped(cfg, c)
  {
    forall p | 0 <= p < |c.shards[cfg.shardOf(key)].slots| :: !HoldsKey(c.shards[cfg.shardOf(key)].slots, p, key)
  }

  lemma NoKeyStays<V>(cfg: Config, c: Cache<V>, d: Cache<V>, key: string)
    requires Shaped(cfg, c) && Shaped(cfg, d) && AllFewer(cfg, c, d) && NoKey(cfg, c, key)
    ensures NoKey(cfg, d, key)
  {
    hide Good;
    var s := cfg.shardOf(key);
    assert Fewer(cfg, c.shards[s], d.shards[s]);
    forall p | 0 <= p < |d.shards[s].slots| ensures !HoldsKey(d.shards[s].slots, p, key) {
      assert !HoldsKey(c.shards[s].slots, p, key);
    }
  }

  ghost predicate AllGood<V>(cfg: Config, c: Cache<V>) {
    forall s | 0 <= s < |c.shards| :: Good(c.shards[s], cfg.hash, cfg.probe)
  }

  lemma {:induction false} DropAllDrops<V>(cfg: Config, c: Cache<V>, keys: seq<string>, key: string)
    requires Shaped(cfg, c) && AllGood(cfg, c) && key in keys
    ensures NoKey(cfg, DropAll(cfg, c, keys), key)
    decreases |keys|
  {
    hide Good, Dropped, Fewer;
    var s := cfg.shardOf(keys[0]);
    var d := WithShard(c, s, Dropped(cfg, c.shards[s], keys[0]));
    DroppedFewer(cfg, c.shards[s], keys[0]);
    FewerGood(cfg, c.shards[s], d.shards[s]);
    if keys[0] == key {
      DropAllFewer(cfg, d, keys[1..]);
      NoKeyStays(cfg, d, DropAll(cfg, d, keys[1..]), key);
    } else {
      DropAllDrops(cfg, d, keys[1..], key);
    }
  }

  lemma FewerGood<V>(cfg: Config, a: Level2<V>, b: Level2<V>)
    requires Fewer(cfg, a, b) && Good(a, cfg.hash, cfg.probe)
    ensures Good(b, cfg.hash, cfg.probe)
  {
  }

  lemma {:induction false} SweepFewer<V>(cfg: Config, c: Cache<V>, now: int, locked: seq<seq<bool>>, s: nat)
    requires s <= |c.shards|
    ensures var d := SweepFrom(c, now, locked, s);
      && AllFewer(cfg, c, d) && d.tags == c.tags && d.dirty == c.dirty
      && (forall r | 0 <= r < |c.shards| :: DirtyKept(c.shards[r], d.shards[r], c.dirty))
      && (forall r | 0 <= r < s :: d.shards[r] == c.shards[r])
    decreases |c.shards| - s
  {
    hide Good, Expire;
    if s < |c.shards| {
      var held := if s < |locked| then locked[s] else [];
      ExpireKeeps(cfg, c.shards[s], c.dirty, now, held, 0);
      SweepFewer(cfg, WithShard(c, s, Expire(c.shards[s], c.dirty, now, held, 0)), now, locked, s + 1);
    }
  }

  /** After invalidating a table no slot of the second level carries its tag. */
  lemma NoTagLeft<V>(cfg: Config, c: Cache<V>, past: Past<V>, thread: nat, table: string, s: nat, p: nat)
    requires Truthful(cfg, c, past) && table != "" && s < |c.shards|
    ensures var d := AfterInvalidate(cfg, c, thread, table);
      && s < |d.shards| && |d.shards[s].slots| == |c.shards[s].slots|
      && (p < |d.shards[s].slots| && d.shards[s].slots[p].Held? ==>
            d.shards[s].slots[p] == c.shards[s].slots[p] && d.shards[s].slots[p].payload.tag != table)
  {
    hide Good, Find;
    var keys := if table in c.tags then c.tags[table] else [];
    var b := c.(tags := c.tags - {table});
    var d := AfterInvalidate(cfg, c, thread, table);
    DropAllFewer(cfg, b, keys);
    assert Fewer(cfg, b.shards[s], d.shards[s]);
    if p < |d.shards[s].slots| && d.shards[s].slots[p].Held? && d.shards[s].slots[p].payload.tag == table {
      HeldTells(cfg, c.shards[s], s, c.tags, past, p);
      var key := c.shards[s].slots[p].key;
      assert HoldsKey(d.shards[s].slots, p, key);
      assert AllGood(cfg, b);
      DropAllDrops(cfg, b, keys, key);
    }
  }

  lemma InvalidateTruthful<V>(cfg: Config, c: Cache<V>, past: Past<V>, thread: nat, table: string)
    requires Truthful(cfg, c, past)
    ensures Truthful(cfg, AfterInvalidate(cfg, c, thread, table), past)
  {
    hide Good, DropAll, FromPut, Fewer;
    StaysShaped(cfg, c, Invalidate(thread, table));
    var keys := if table in c.tags then c.tags[table] else [];
    var b := c.(tags := c.tags - {table});
    var d := AfterInvalidate(cfg, c, thread, table);
    DropAllFewer(cfg, b, keys);
    forall s | 0 <= s < |d.shards| ensures ShardTells(cfg, d.shards[s], s, d.tags, past) {
      assert ShardTells(cfg, c.shards[s], s, c.tags, past);
      assert Fewer(cfg, b.shards[s], d.shards[s]);
      FewerTells(cfg, c.shards[s], d.shards[s], s, c.tags, past);
      forall p | 0 <= p < |d.shards[s].slots| && d.shards[s].slots[p].Held?
        ensures Tells(cfg, s, d.shards[s].slots[p].key, d.shards[s].slots[p].payload, d.tags, past)
      {
        if table != "" { NoTagLeft(cfg, c, past, thread, table, s, p); }
      }
    }
    forall t | 0 <= t < |d.threads| ensures ThreadTells(cfg, t, d.threads[t], past) {
      assert ThreadTells(cfg, t, c.threads[t], past);
    }
  }

  lemma SweepTruthful<V>(cfg: Config, c: Cache<V>, past: Past<V>, now: int, locked: seq<seq<bool>>)
    requires Truthful(cfg, c, past)
    ensures Truthful(cfg, SweepFrom(c, now, locked, 0), past)
  {
    hide Good, SweepFrom, Fewer, ShardTells, ThreadTells;
    SweepFewer(cfg, c, now, locked, 0);
    SweepShaped(cfg, c, now, locked, 0);
    var d := SweepFrom(c, now, locked, 0);
    forall s | 0 <= s < |d.shards| ensures ShardTells(cfg, d.shards[s], s, d.tags, past) {
      assert Fewer(cfg, c.shards[s], d.shards[s]);
      FewerTells(cfg, c.shards[s], d.shards[s], s, c.tags, past);
    }
  }

  // ------------------------------------------------------------------ runs

  lemma ApplyTruthful<V>(cfg: Config, c: Cache<V>, past: Past<V>, op: Op<V>)
    requires Truthful(cfg, c, past)
    ensures Truthful(cfg, Apply(cfg, c, op), Remember(past, op))
  {
    hide ShardTells, ThreadTells, AfterGet, AfterPut, AfterInvalidate, SweepFrom;
    match op
    case Get(thread, key) => GetTruthful(cfg, c, past, thread, key);
    case Put(key, x, size) => PutTruthful(cfg, c, past, key, x, size);
    case Invalidate(thread, table) => InvalidateTruthful(cfg, c, past, thread, table);
    case Sweep(now, locked) => SweepTruthful(cfg, c, past, now, locked);
    case _ =>
  }

  lemma {:induction false} RunTruthful<V>(cfg: Config, c: Cache<V>, past: Past<V>, ops: seq<Op<V>>)
    requires Truthful(cfg, c, past)
    ensures Truthful(cfg, Run(cfg, c, ops), RememberAll(past, ops))
    decreases |ops|
  {
    hide Truthful, Apply, Remember;
    TruthfulShaped(cfg, c, past);
    if ops != [] {
      ApplyTruthful(cfg, c, past, ops[0]);
      RunTruthful(cfg, Apply(cfg, c, ops[0]), Remember(past, ops[0]), ops[1..]);
    }
  }

  lemma TruthfulShaped<V>(cfg: Config, c: Cache<V>, past: Past<V>)
    requires Truthful(cfg, c, past)
    ensures Shaped(cfg, c)
  {
  }

  /** An empty cache of the right shape. */
  ghost predicate Fresh<V>(cfg: Config, c: Cache<V>) {
    && Shaped(cfg, c)
    && (forall s | 0 <= s < |c.shards| ::
          Good(c.shards[s], cfg.hash, cfg.probe) && Vacant(c.shards[s]) && c.shards[s].clock == 0)
    && (forall t | 0 <= t < |c.threads| :: Unused(c.threads[t]))
    && c.tags == map[] && c.dirty == map[] && c.stamp == 0
  }

  ghost predicate Vacant<V>(sh: Level2<V>) { forall p | 0 <= p < |sh.slots| :: sh.slots[p].Free? }

  ghost predicate Unused<V>(t: seq<L1.Slot<V>>) { forall p | 0 <= p < |t| :: t[p].Empty? }

  /** A key over 80 bytes that answers for another one: its first 80 bytes are that key, the
      hashes agree, and the thread has read it. */
  ghost predicate Alias<V>(cfg: Config, past: Past<V>, thread: nat, key: string, k: string) {
    |k| > L1.KEY_MAX && k[..L1.KEY_MAX] == key && cfg.l1Hash(k) == cfg.l1Hash(key) && (thread, k) in past.read
  }

  /** In every run from an empty cache, a hit on any thread returns a value that some earlier
      put stored under exactly that key, unless the thread has read an alias of it; then it
      may be a value stored under the alias. One that came from the second level is always
      the value of the latest put of the key itself. */
  lemma HitsWereStored<V>(cfg: Config, c: Cache<V>, ops: seq<Op<V>>, thread: nat, key: string)
    requires Fresh(cfg, c)
    ensures var d, past := Run(cfg, c, ops), RememberAll(NoPast(), ops);
      && Shaped(cfg, d)
      && (thread < |d.threads| && Answer(cfg, d, thread, key).Some? ==>
            || (key, Answer(cfg, d, thread, key).value) in past.ever
            || exists k :: Alias(cfg, past, thread, key, k) && (k, Answer(cfg, d, thread, key).value) in past.ever)
      && (thread < |d.threads| && Answer(cfg, d, thread, key).Some?
            && L1.Lookup(d.threads[thread], cfg.l1Hash, key).None? ==>
            key in past.last && past.last[key].value == Answer(cfg, d, thread, key).value)
  {
    hide Run, RememberAll, Good, Reach, L1.Probe, ThreadTells;
    FreshTruthful(cfg, c);
    RunTruthful(cfg, c, NoPast(), ops);
    var d, past := Run(cfg, c, ops), RememberAll(NoPast(), ops);
    var s := cfg.shardOf(key);
    assert ShardTells(cfg, d.shards[s], s, d.tags, past);
    var p := Reached(cfg, d, key);
    if p.Some? { HeldTells(cfg, d.shards[s], s, d.tags, past, p.value); }
    if thread < |d.threads| {
      var q := L1.Probe(d.threads[thread], cfg.l1Hash(key), key, 0);
      if q.Some? { HitFrom(cfg, thread, d.threads[thread], q.value, past); }
    }
  }

  lemma HitFrom<V>(cfg: Config, n: nat, t: seq<L1.Slot<V>>, q: nat, past: Past<V>)
    requires ThreadTells(cfg, n, t, past) && q < |t| && t[q].Used? && t[q].hash == cfg.l1Hash(t[q].key)
    ensures (t[q].key, t[q].value) in past.ever
      || exists k :: Alias(cfg, past, n, t[q].key, k) && (k, t[q].value) in past.ever
  {
    assert FromPut(cfg, n, t[q], past);
    var k :| FromKey(cfg, n, t[q], k, past);
    if |k| > L1.KEY_MAX { assert Alias(cfg, past, n, t[q].key, k); }
  }

  lemma FreshTruthful<V>(cfg: Config, c: Cache<V>)
    requires Fresh(cfg, c)
    ensures Truthful(cfg, c, NoPast())
  {
    hide Good;
    forall t | 0 <= t < |c.threads| ensures ThreadTells(cfg, t, c.threads[t], NoPast()) {
      assert Unused(c.threads[t]);
    }
    forall s | 0 <= s < |c.shards| ensures ShardTells(cfg, c.shards[s], s, c.tags, NoPast()) {
      assert Vacant(c.shards[s]);
    }
  }

  /** After every put the shard's byte counter is the sum of its slots' sizes, and the
      shard is within quota or holds only slots with dirty tags. */
  lemma PutWithinQuota<V>(cfg: Config, c: Cache<V>, past: Past<V>, key: string, x: Content<V>, size: nat)
    requires Truthful(cfg, c, past)
    ensures var s := cfg.shardOf(key);
      var sh := AfterPut(cfg, c, key, x, size).shards[s];
      && sh.bytes == Total(sh.slots)
      && (sh.bytes <= cfg.quota || forall p | 0 <= p < |sh.slots| && sh.slots[p].Held? :: IsDirty(c.dirty, sh.slots[p].payload.tag))
      && DirtyKept(Placed(cfg, c.shards[s], c.dirty, key, x, size), sh, c.dirty)
  {
    hide Placed, Trim;
    var s := cfg.shardOf(key);
    PutTruthful(cfg, c, past, key, x, size);
    TrimKeeps(cfg, Placed(cfg, c.shards[s], c.dirty, key, x, size), c.dirty, cfg.quota);
    var d := AfterPut(cfg, c, key, x, size);
    assert ShardTells(cfg, d.shards[s], s, d.tags, Remember(past, Put(key, x, size)));
  }

  // ------------------------------------------------------------------ the shard object

  class ShardTable<V> {
    const cfg: Config
    var slots: seq<Slot<string, Content<V>>>
    var bytes: int
    var clock: nat

    ghost function Value(): Level2<V>
      reads this
    {
      Shard(slots, bytes, clock)
    }

    constructor (cfg: Config, slots: seq<Slot<string, Content<V>>>)
      requires |slots| > 0 && forall p | 0 <= p < |slots| :: slots[p].Free?
      ensures this.cfg == cfg && Value() == Shard(slots, 0, 0)
    {
      this.cfg, this.slots, bytes, clock := cfg, slots, 0, 0;
    }

    /** The probing half of a put. */
    method Place(dirty: map<string, nat>, key: string, x: Content<V>, size: nat)
      requires |slots| > 0
      modifies this
      ensures Value() == Placed(cfg, old(Value()), dirty, key, x, size)
    {
      hide Find, FirstFree, Oldest, FirstEvictable, IsDirty;
      var h := cfg.hash(key);
      var target, free, lru := Survey(slots, AllTrue(|slots|), h, cfg.probe, key);
      if target.None? { target := free; }
      if target.None? {
        target := lru;
        if lru.Some? && IsDirty(dirty, slots[lru.value].payload.tag) {
          var other := ScanEvictable(slots, dirty, h, cfg.probe);
          if other.Some? { target := other; }
        }
      }
      if target.None? { return; }
      bytes := bytes - Size(slots[target.value]) + size;
      clock := clock + 1;
      slots := slots[target.value := Held(key, x, size, clock)];
    }

    /** The over-quota loop of a put. */
    method TrimToQuota(dirty: map<string, nat>)
      modifies this`slots, this`bytes
      ensures Value() == Trim(old(Value()), dirty, cfg.quota)
    {
      hide Evictable, OldestOf, Used;
      ghost var was := Value();
      while bytes > cfg.quota
        invariant Trim(Value(), dirty, cfg.quota) == Trim(was, dirty, cfg.quota)
        decreases Used(slots)
      {
        var victim := ScanOldest(slots, Evictable(slots, dirty));
        if victim.None? { break; }
        UsedUpdate(slots, victim.value);
        bytes := bytes - Size(slots[victim.value]);
        slots := slots[victim.value := Free];
      }
    }

    /** The part of an invalidation that one key takes. */
    method Drop(key: string)
      requires |slots| > 0
      modifies this`slots, this`bytes
      ensures Value() == Dropped(cfg, old(Value()), key)
    {
      hide Find;
      var p := FindSlot(slots, cfg.hash(key), cfg.probe, key);
      if p.Some? {
        bytes := bytes - Size(slots[p.value]);
        slots := slots[p.value := Free];
      }
    }

    method ExpirePass(dirty: map<string, nat>, now: int, locked: seq<bool>)
      modifies this`slots, this`bytes
      ensures Value() == Expire(old(Value()), dirty, now, locked, 0)
    {
      hide Counted;
      ghost var was := Value();
      var i := 0;
      while i < |slots|
        invariant 0 <= i <= |slots|
        invariant Expire(Value(), dirty, now, locked, i) == Expire(was, dirty, now, locked, 0)
      {
        var s := slots[i];
        if !(i < |locked| && locked[i]) && s.Held? && s.payload.expires <= now && !Counted(dirty, s.payload.tag) {
          bytes := bytes - Size(s);
          slots := slots[i := Free];
        }
        i := i + 1;
      }
    }
  }

  method ScanEvictable<V>(slots: seq<Slot<string, Content<V>>>, dirty: map<string, nat>, h: nat, probe: nat) returns (r: Option<nat>)
    requires |slots| > 0
    ensures r == FirstEvictable(slots, dirty, h, probe, 0)
  {
    hide Pos, MayGo;
    var i := 0;
    while i < probe
      invariant 0 <= i <= probe
      invariant FirstEvictable(slots, dirty, h, probe, i) == FirstEvictable(slots, dirty, h, probe, 0)
    {
      var p := Pos(h, i, |slots|);
      if MayGo(slots[p], dirty) { return Some(p); }
      i := i + 1;
    }
    return None;
  }
}
