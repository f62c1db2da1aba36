/** The entity cache over whole runs of calls: what an unsaved row and a pinned row survive, in
    which order rows are given up, what the sweep takes, and how big a row is counted. */
module EntityRuns {
  import opened Basics
  import opened Probing
  import opened Shards
  import opened ShardOrder
  import opened EntityCache
  import opened EntityMap

  lemma {:induction false} RunSound(cfg: Config, c: Cache, ops: seq<Op>)
    requires Sound(cfg, c)
    ensures 0 < |Slots(c)| == |c.pinned| && Sound(cfg, Run(cfg, c, ops))
    decreases |ops|
  {
    hide Sound, Apply;
    SoundSize(cfg, c);
    if ops != [] {
      ApplySound(cfg, c, ops[0]);
      RunSound(cfg, Apply(cfg, c, ops[0]), ops[1..]);
    }
  }

  // ------------------------------------------------------------------ unsaved rows

  /** What a put that found a place leaves: its row, its version and its expiry, dirty when it
      was put so and clean otherwise. */
  lemma PutLeaves(cfg: Config, c: Cache, key: Key, row: Row, dirty: bool, expires: Option<int>)
    requires Sound(cfg, c)
    ensures 0 < |Slots(c)| == |c.pinned|
    ensures var d := Apply(cfg, c, Put(key, row, dirty, expires));
      && |Slots(d)| > 0
      && (Target(cfg, c, key).Some? ==>
            var x := Look(cfg, d, key);
            && x.Some? && x.value.row == row && x.value.version == row.version && x.value.expires == expires
            && (dirty ==> x.value.state == Dirty) && (!dirty ==> x.value.state == Clean))
      && (Target(cfg, c, key).None? ==> d == c)
  {
    hide Good, Find, Look, Target;
    SoundSize(cfg, c);
    PutMaps(cfg, c, key, row, if dirty then Dirty else Clean, expires, key);
  }

  /** A call that is no write of the key and no acknowledgement of at least that version. */
  predicate Spares(op: Op, key: Key, version: nat) {
    match op
    case Put(k, _, _, _) => k != key
    case Erase(k, _) => k != key
    case MarkFlushed(k, v) => k != key || v < version
    case _ => true
  }

  /** A row put dirty is not lost before it is saved: through every run of calls none of which
      writes its key or acknowledges its version, the key is still mapped to it, still dirty. */
  lemma DirtyStays(cfg: Config, c: Cache, key: Key, row: Row, expires: Option<int>, ops: seq<Op>)
    requires Sound(cfg, c) && 0 < |Slots(c)| == |c.pinned| && Target(cfg, c, key).Some?
    requires forall op | op in ops :: Spares(op, key, row.version)
    ensures var d := Run(cfg, Apply(cfg, c, Put(key, row, true, expires)), ops);
      |Slots(d)| > 0 && Look(cfg, d, key) == Some(Content(row, Dirty, row.version, expires))
  {
    hide Good, Find, Target, Run, Look;
    var e := Apply(cfg, c, Put(key, row, true, expires));
    var p := Target(cfg, c, key).value;
    assert Slots(e)[p].Held? && Slots(e)[p].key == key && Slots(e)[p].payload == Content(row, Dirty, row.version, expires);
    ApplySound(cfg, c, Put(key, row, true, expires));
    forall op | op in ops ensures !Settles(op, key, row.version) { assert Spares(op, key, row.version); }
    UnsavedStaysInRun(cfg, e, ops, p);
    RunSound(cfg, e, ops);
    LookAt(cfg, Run(cfg, e, ops), p);
  }

  // ------------------------------------------------------------------ pins

  /** A pin marks the slot of its key and nothing else. */
  lemma PinMarks(cfg: Config, c: Cache, key: Key, on: bool, p: nat)
    requires Sound(cfg, c) && p < |Slots(c)|
    ensures 0 < |Slots(c)| == |c.pinned|
    ensures var d := Apply(cfg, c, Pin(key, on));
      && d.shard == c.shard && |d.pinned| == |c.pinned|
      && d.pinned[p] == (if HoldsKey(Slots(c), p, key) then on else c.pinned[p])
  {
    hide Good, Find;
    SoundSize(cfg, c);
    FindExact(c.shard, cfg.hash, cfg.probe, key);
  }

  ghost predicate Kept(c: Cache, p: nat) {
    p < |Slots(c)| == |c.pinned| && Slots(c)[p].Held? && c.pinned[p]
  }

  ghost predicate StillThere(c: Cache, d: Cache, p: nat)
    requires Kept(c, p)
  {
    Kept(d, p) && Slots(d)[p].key == Slots(c)[p].key && Slots(d)[p].payload == Slots(c)[p].payload
  }

  /** A call that names the key: a put, an erase, an acknowledgement, a notification or a pin. */
  predicate Names(op: Op, key: Key) {
    match op
    case Get(_) => false
    case Sweep(_, _, _) => false
    case _ => op.key == key
  }

  lemma {:induction false} ExpiryKeepsPinned(c: Cache, now: int, locked: seq<bool>, i: nat, p: nat)
    requires i <= |Slots(c)| == |c.pinned| && Kept(c, p)
    ensures StillThere(c, SweepExpired(c, now, locked, i), p)
    decreases |Slots(c)| - i
  {
    if i < |Slots(c)| {
      var d := if !(i < |locked| && locked[i]) && Expired(c, i, now) then c.(shard := Remove(c.shard, i)) else c;
      ExpiryKeepsPinned(d, now, locked, i + 1, p);
    }
  }

  lemma {:induction false} QuotaKeepsPinned(c: Cache, quota: nat, p: nat)
    requires Kept(c, p)
    ensures StillThere(c, SweepQuota(c, quota), p)
    decreases Used(Slots(c))
  {
    hide OldestOf, Used;
    if c.shard.bytes > quota {
      var victim := OldestOf(Slots(c), Takeable(Slots(c), c.pinned), 0, None);
      if victim.Some? {
        UsedUpdate(Slots(c), victim.value);
        QuotaKeepsPinned(c.(shard := Remove(c.shard, victim.value)), quota, p);
      }
    }
  }

  lemma PinnedStays(cfg: Config, c: Cache, op: Op, p: nat)
    requires Sound(cfg, c) && Kept(c, p) && !Names(op, Slots(c)[p].key)
    ensures StillThere(c, Apply(cfg, c, op), p)
  {
    hide Good, Find, Reach, FirstFree, Oldest, SweepExpired, SweepQuota, Target;
    match op
    case Get(key) =>
    case Sweep(now, locked, quota) =>
      ExpiryKeepsPinned(c, now, locked, 0, p);
      QuotaKeepsPinned(SweepExpired(c, now, locked, 0), quota, p);
    case _ =>
  }

  /** A pinned row is never given up: through every run of calls that do not name its key, no
      put pushes it out and no sweep takes it, whatever its state and expiry. */
  lemma {:induction false} PinnedStaysInRun(cfg: Config, c: Cache, ops: seq<Op>, p: nat)
    requires Sound(cfg, c) && Kept(c, p)
    requires forall op | op in ops :: !Names(op, Slots(c)[p].key)
    ensures StillThere(c, Run(cfg, c, ops), p)
    decreases |ops|
  {
    hide Sound, Apply, Names;
    if ops != [] {
      assert ops[0] in ops;
      PinnedStays(cfg, c, ops[0], p);
      ApplySound(cfg, c, ops[0]);
      PinnedStaysInRun(cfg, Apply(cfg, c, ops[0]), ops[1..], p);
    }
  }

  // ------------------------------------------------------------------ order of use

  /** The key a call uses: a read that answers, a put or an erase that finds a place. */
  function UsedKey(cfg: Config, c: Cache, op: Op): seq<Key>
    requires 0 < |Slots(c)| == |c.pinned|
  {
    match op
    case Get(key) => if Answer(cfg, c, key).Some? then [key] else []
    case Put(key, _, _, _) => if Target(cfg, c, key).Some? then [key] else []
    case Erase(key, _) => if Target(cfg, c, key).Some? then [key] else []
    case _ => []
  }

  /** The keys used, in call order. */
  function UseLog(cfg: Config, c: Cache, ops: seq<Op>): seq<Key>
    requires 0 < |Slots(c)| == |c.pinned|
    decreases |ops|
  {
    if ops == [] then [] else UsedKey(cfg, c, ops[0]) + UseLog(cfg, Apply(cfg, c, ops[0]), ops[1..])
  }

  lemma {:induction false} SweepClock(c: Cache, now: int, locked: seq<bool>, i: nat)
    requires i <= |Slots(c)| == |c.pinned|
    ensures SweepExpired(c, now, locked, i).shard.clock == c.shard.clock
    decreases |Slots(c)| - i
  {
    hide Expired;
    if i < |Slots(c)| {
      var d := if !(i < |locked| && locked[i]) && Expired(c, i, now) then c.(shard := Remove(c.shard, i)) else c;
      SweepClock(d, now, locked, i + 1);
    }
  }

  lemma {:induction false} QuotaClock(c: Cache, quota: nat)
    requires |Slots(c)| == |c.pinned|
    ensures SweepQuota(c, quota).shard.clock == c.shard.clock
    decreases Used(Slots(c))
  {
    hide OldestOf, Takeable, Used;
    if c.shard.bytes > quota {
      var victim := OldestOf(Slots(c), Takeable(Slots(c), c.pinned), 0, None);
      if victim.Some? {
        UsedUpdate(Slots(c), victim.value);
        QuotaClock(c.(shard := Remove(c.shard, victim.value)), quota);
      }
    }
  }

  lemma PutTracks(cfg: Config, c: Cache, key: Key, row: Row, state: State, expires: Option<int>, log: seq<Key>)
    requires Sound(cfg, c) && Tracks(c.shard, log)
    ensures 0 < |Slots(c)| == |c.pinned|
    ensures Tracks(PutRow(cfg, c, key, row, state, expires).shard, log + if Target(cfg, c, key).Some? then [key] else [])
  {
    hide Good, Find, Target, Tracks, LastAt;
    SoundSize(cfg, c);
    OnlyTarget(cfg, c, key);
    var t, d := Target(cfg, c, key), PutRow(cfg, c, key, row, state, expires);
    if t.Some? {
      UseTracks(c.shard, d.shard, log, t.value, key);
    } else {
      NoUseTracks(c.shard, d.shard, log);
    }
  }

  lemma GotTracks(cfg: Config, c: Cache, key: Key, log: seq<Key>)
    requires Sound(cfg, c) && Tracks(c.shard, log)
    ensures |Slots(c)| > 0
    ensures Tracks(Got(cfg, c, key).shard, log + if Answer(cfg, c, key).Some? then [key] else [])
  {
    hide Find, Reach, Tracks, LastAt;
    SoundSize(cfg, c);
    var p := Reach(Slots(c), cfg.hash(key), cfg.probe, key, 0);
    if Answer(cfg, c, key).Some? {
      UseTracks(c.shard, Got(cfg, c, key).shard, log, p.value, key);
    } else {
      NoUseTracks(c.shard, c.shard, log);
    }
  }

  lemma StepTracks(cfg: Config, c: Cache, op: Op, log: seq<Key>)
    requires Sound(cfg, c) && Tracks(c.shard, log)
    ensures 0 < |Slots(c)| == |c.pinned|
    ensures Tracks(Apply(cfg, c, op).shard, log + UsedKey(cfg, c, op))
  {
    hide Good, Find, Reach, Target, Answer, Got, PutRow, SweepExpired, SweepQuota, Tracks, LastAt;
    SoundSize(cfg, c);
    match op
    case Get(key) => GotTracks(cfg, c, key, log);
    case Put(key, row, dirty, expires) => PutTracks(cfg, c, key, row, if dirty then Dirty else Clean, expires, log);
    case Erase(key, version) =>
      var row := Row("", version, true);
      var mid := PutRow(cfg, c, key, row, Dirty, None);
      PutTracks(cfg, c, key, row, Dirty, None, log);
      PutSize(cfg, c, key, row, Dirty, None);
      var after := log + if Target(cfg, c, key).Some? then [key] else [];
      NoUseTracks(mid.shard, EraseRow(cfg, c, key, version).shard, after);
      assert after + [] == after;
    case Sweep(now, locked, quota) =>
      var mid := SweepExpired(c, now, locked, 0);
      ExpiredOnlyFewer(c, now, locked, 0);
      QuotaOnlyFewer(mid, quota);
      SweepClock(c, now, locked, 0);
      QuotaClock(mid, quota);
      NoUseTracks(c.shard, SweepQuota(mid, quota).shard, log);
    case _ => NoUseTracks(c.shard, Apply(cfg, c, op).shard, log);
  }

  lemma {:induction false} RunTracks(cfg: Config, c: Cache, ops: seq<Op>, log: seq<Key>)
    requires Sound(cfg, c) && Tracks(c.shard, log)
    ensures 0 < |Slots(c)| == |c.pinned|
    ensures Tracks(Run(cfg, c, ops).shard, log + UseLog(cfg, c, ops))
    decreases |ops|
  {
    hide Sound, Tracks, Apply, UsedKey;
    SoundSize(cfg, c);
    if ops == [] {
      assert log + [] == log;
    } else {
      StepTracks(cfg, c, ops[0], log);
      ApplySound(cfg, c, ops[0]);
      var next := Apply(cfg, c, ops[0]);
      RunTracks(cfg, next, ops[1..], log + UsedKey(cfg, c, ops[0]));
      assert log + UsedKey(cfg, c, ops[0]) + UseLog(cfg, next, ops[1..])
        == log + (UsedKey(cfg, c, ops[0]) + UseLog(cfg, next, ops[1..]));
    }
  }

  /** In every run, a put pushes out the least recently used: every other unpinned row of a
      window that was all in use has been read or written since the one that goes. */
  lemma EvictsLeastRecentlyUsed(cfg: Config, n: nat, ops: seq<Op>, key: Key, k: nat)
    requires n > 0 && k < cfg.probe
    ensures var c := Run(cfg, Fresh(n), ops);
      && 0 < |Slots(c)| == |c.pinned|
      && (Evicted(cfg, c, key).Some? ==>
            var r := Pos(cfg.hash(key), k, |Slots(c)|);
            var gone := Evicted(cfg, c, key).value;
            && Slots(c)[r].Held?
            && (Slots(c)[r].key == gone || c.pinned[r] || UsedSince(UseLog(cfg, Fresh(n), ops), Slots(c)[r].key, gone)))
  {
    hide Good, Find, FirstFree, Oldest, Target, Evicted, Run, UseLog, Pos, LastAt;
    FreshSound(cfg, n);
    RunSound(cfg, Fresh(n), ops);
    RunTracks(cfg, Fresh(n), ops, []);
    assert [] + UseLog(cfg, Fresh(n), ops) == UseLog(cfg, Fresh(n), ops);
    var c, log := Run(cfg, Fresh(n), ops), UseLog(cfg, Fresh(n), ops);
    SoundSize(cfg, c);
    if Evicted(cfg, c, key).Some? {
      EvictsOldestClean(cfg, c, key);
      EvictedAt(cfg, c, key);
      var t, r := Target(cfg, c, key).value, Pos(cfg.hash(key), k, |Slots(c)|);
      if Slots(c)[r].key != Slots(c)[t].key && !c.pinned[r] {
        LaterUse(log, Slots(c)[t].key, Slots(c)[t].lastUsed, Slots(c)[r].key, Slots(c)[r].lastUsed);
      }
    }
  }

  lemma EvictedAt(cfg: Config, c: Cache, key: Key)
    requires 0 < |Slots(c)| == |c.pinned| && Evicted(cfg, c, key).Some?
    ensures var t := Target(cfg, c, key);
      t.Some? && Slots(c)[t.value].Held? && Evicted(cfg, c, key).value == Slots(c)[t.value].key
  {
    hide Target;
  }

  // ------------------------------------------------------------------ what a sweep takes

  /** The expiry pass frees exactly the unlocked slots that hold a clean, unpinned row whose
      time has come. */
  lemma {:induction false} ExpiryExact(c: Cache, now: int, locked: seq<bool>, i: nat, p: nat)
    requires i <= |Slots(c)| == |c.pinned| && p < |Slots(c)|
    ensures var s := Slots(c)[p];
      Slots(SweepExpired(c, now, locked, i))[p]
      == if p >= i && !(p < |locked| && locked[p]) && s.Held? && s.payload.state == Clean && !c.pinned[p]
            && s.payload.expires.Some? && s.payload.expires.value <= now
         then Free else s
    decreases |Slots(c)| - i
  {
    if i < |Slots(c)| {
      var d := if !(i < |locked| && locked[i]) && Expired(c, i, now) then c.(shard := Remove(c.shard, i)) else c;
      ExpiryExact(d, now, locked, i + 1, p);
    }
  }

  /** The quota pass gives up clean unpinned rows, the least recently used first, no more than
      it has to, until the shard is within the quota or has none left. */
  lemma {:induction false} QuotaExact(c: Cache, quota: nat, may: seq<bool>)
    requires |Slots(c)| == |c.pinned| == |may|
    requires forall p | 0 <= p < |may| && Slots(c)[p].Held? ::
      may[p] <==> Slots(c)[p].payload.state == Clean && !c.pinned[p]
    ensures Evicts(c.shard, SweepQuota(c, quota).shard, may, quota)
    decreases Used(Slots(c))
  {
    hide OldestOf, Used, Evicts;
    var victim := OldestOf(Slots(c), Takeable(Slots(c), c.pinned), 0, None);
    if c.shard.bytes <= quota || victim.None? {
      EvictsNone(c.shard, may, quota);
    } else {
      UsedUpdate(Slots(c), victim.value);
      var e := c.(shard := Remove(c.shard, victim.value));
      QuotaExact(e, quota, may);
      EvictsOne(c.shard, SweepQuota(e, quota).shard, may, quota, victim.value);
    }
  }

  // ------------------------------------------------------------------ sizes

  /** Every row counts its data, its primary key and 112 bytes. */
  ghost predicate Measured(c: Cache) {
    forall p | 0 <= p < |Slots(c)| && Slots(c)[p].Held? ::
      Slots(c)[p].size == 112 + |Slots(c)[p].payload.row.data| + |Slots(c)[p].key.pk|
  }

  lemma StepMeasured(cfg: Config, c: Cache, op: Op)
    requires 0 < |Slots(c)| == |c.pinned| && Measured(c)
    ensures Measured(Apply(cfg, c, op))
  {
    hide Find, Reach, Target, SweepExpired, SweepQuota;
    match op
    case Sweep(now, locked, quota) =>
      ExpiredOnlyFewer(c, now, locked, 0);
      QuotaOnlyFewer(SweepExpired(c, now, locked, 0), quota);
    case _ =>
  }

  /** In every run the byte counter is the sum over the resident rows of 112 bytes, the data
      and the primary key. */
  lemma {:induction false} RunMeasured(cfg: Config, c: Cache, ops: seq<Op>)
    requires Sound(cfg, c) && Measured(c)
    ensures 0 < |Slots(c)| == |c.pinned|
    ensures var d := Run(cfg, c, ops); Measured(d) && d.shard.bytes == Total(Slots(d))
    decreases |ops|
  {
    hide Measured, Apply;
    SoundSize(cfg, c);
    if ops != [] {
      StepMeasured(cfg, c, ops[0]);
      ApplySound(cfg, c, ops[0]);
      RunMeasured(cfg, Apply(cfg, c, ops[0]), ops[1..]);
    }
  }
}
