/** One shard of the entity cache: rows by table and primary key, with a dirty, flushing
    and tombstone state machine. Every public call is one step. */
module EntityCache {
  import opened Basics
  import opened Probing
  import opened Shards

  datatype Key = Key(table: nat, pk: string)

  datatype Row = Row(data: string, version: nat, tombstone: bool)

  datatype State = Clean | Dirty | Flushing | Tombstone

  datatype Content = Content(row: Row, state: State, version: nat, expires: Option<int>)

  /** Pins belong to slots and outlive the rows in them. */
  datatype Cache = Cache(shard: Shard<Key, Content>, pinned: seq<bool>)

  datatype Config = Config(hash: Key -> nat, probe: nat)

  datatype Op =
    | Get(key: Key)
    | Put(key: Key, row: Row, dirty: bool, expires: Option<int>)
    | Erase(key: Key, version: nat)
    | MarkFlushed(key: Key, version: nat)
    | Notify(key: Key, version: nat)
    | Pin(key: Key, on: bool)
    | Sweep(now: int, locked: seq<bool>, quota: nat)

  const ROW_OVERHEAD: nat := 48 + 64

  function RowSize(key: Key, row: Row): nat {
    ROW_OVERHEAD + |row.data| + |key.pk|
  }

  function Unpinned(pinned: seq<bool>): (r: seq<bool>)
    ensures |r| == |pinned| && forall p | 0 <= p < |pinned| :: r[p] == !pinned[p]
  {
    if pinned == [] then [] else [!pinned[0]] + Unpinned(pinned[1..])
  }

  // ------------------------------------------------------------------ the calls

  function Slots(c: Cache): seq<Slot<Key, Content>> { c.shard.slots }

  function Locate(cfg: Config, c: Cache, key: Key): (r: Option<nat>)
    requires |Slots(c)| > 0
    ensures r.Some? ==> HoldsKey(Slots(c), r.value, key)
  {
    Find(Slots(c), cfg.hash(key), cfg.probe, key, 0)
  }

  /** Where a put goes: the key's slot, else the first free slot of the window, else the
      least recently used unpinned one, and that only when it is clean. */
  function Target(cfg: Config, c: Cache, key: Key): (r: Option<nat>)
    requires 0 < |Slots(c)| == |c.pinned|
    ensures r.Some? ==> r.value < |Slots(c)| && InWindow(cfg.hash(key), r.value, cfg.probe, |Slots(c)|)
    ensures r.Some? && !HoldsKey(Slots(c), r.value, key) && Slots(c)[r.value].Held? ==>
      Slots(c)[r.value].payload.state.Clean? && !c.pinned[r.value]
  {
    var h := cfg.hash(key);
    var own := Locate(cfg, c, key);
    if own.Some? then own else
    var free := FirstFree(Slots(c), h, cfg.probe, 0);
    if free.Some? then free else
    var lru := Oldest(Slots(c), Unpinned(c.pinned), h, cfg.probe, 0, None);
    if lru.Some? && Slots(c)[lru.value].payload.state.Clean? then lru else None
  }

  function PutRow(cfg: Config, c: Cache, key: Key, row: Row, state: State, expires: Option<int>): Cache
    requires 0 < |Slots(c)| == |c.pinned|
  {
    var t := Target(cfg, c, key);
    if t.None? then c
    else c.(shard := Write(c.shard, t.value, key, Content(row, state, row.version, expires), RowSize(key, row)))
  }

  /** A put of a tombstone row, whose slot, if it got one, then becomes a tombstone. */
  function EraseRow(cfg: Config, c: Cache, key: Key, version: nat): Cache
    requires 0 < |Slots(c)| == |c.pinned|
  {
    var d := PutRow(cfg, c, key, Row("", version, true), Dirty, None);
    var p := Locate(cfg, d, key);
    if p.None? then d
    else d.(shard := Amend(d.shard, p.value, Slots(d)[p.value].payload.(state := Tombstone)))
  }

  function Answer(cfg: Config, c: Cache, key: Key): Option<Row>
    requires |Slots(c)| > 0
  {
    var p := Reach(Slots(c), cfg.hash(key), cfg.probe, key, 0);
    if p.None? || Slots(c)[p.value].payload.state.Tombstone? then None
    else Some(Slots(c)[p.value].payload.row)
  }

  function Got(cfg: Config, c: Cache, key: Key): Cache
    requires |Slots(c)| > 0
  {
    var p := Reach(Slots(c), cfg.hash(key), cfg.probe, key, 0);
    if p.None? || Slots(c)[p.value].payload.state.Tombstone? then c else c.(shard := Touch(c.shard, p.value))
  }

  function Flushed(cfg: Config, c: Cache, key: Key, version: nat): Cache
    requires |Slots(c)| > 0
  {
    var p := Locate(cfg, c, key);
    if p.None? || Slots(c)[p.value].payload.version > version then c
    else if Slots(c)[p.value].payload.state.Tombstone? then c.(shard := Remove(c.shard, p.value))
    else c.(shard := Amend(c.shard, p.value, Slots(c)[p.value].payload.(state := Clean)))
  }

  function Notified(cfg: Config, c: Cache, key: Key, version: nat): Cache
    requires |Slots(c)| > 0
  {
    var p := Locate(cfg, c, key);
    if p.None? then c else
    var x := Slots(c)[p.value].payload;
    if x.state.Dirty? || x.state.Flushing? || x.version >= version then c
    else c.(shard := Remove(c.shard, p.value))
  }

  function PinSet(cfg: Config, c: Cache, key: Key, on: bool): Cache
    requires 0 < |Slots(c)| == |c.pinned|
  {
    var p := Locate(cfg, c, key);
    if p.None? then c else c.(pinned := c.pinned[p.value := on])
  }

  predicate Expired(c: Cache, p: nat, now: int)
    requires p < |Slots(c)| == |c.pinned|
  {
    var s := Slots(c)[p];
    s.Held? && s.payload.state.Clean? && !c.pinned[p] && s.payload.expires.Some? && s.payload.expires.value <= now
  }

  /** The expiry pass from slot i on; slots someone else has locked are left for later. */
  function SweepExpired(c: Cache, now: int, locked: seq<bool>, i: nat): (r: Cache)
    requires i <= |Slots(c)| == |c.pinned|
    ensures |Slots(r)| == |Slots(c)| && r.pinned == c.pinned
    decreases |Slots(c)| - i
  {
    if i == |Slots(c)| then c else
    var d := if !(i < |locked| && locked[i]) && Expired(c, i, now) then c.(shard := Remove(c.shard, i)) else c;
    SweepExpired(d, now, locked, i + 1)
  }

  /** Slots the quota pass may take: clean and not pinned. */
  function Takeable(slots: seq<Slot<Key, Content>>, pinned: seq<bool>): (r: seq<bool>)
    requires |slots| == |pinned|
    ensures |r| == |slots|
    ensures forall p | 0 <= p < |slots| :: r[p] == (slots[p].Held? && slots[p].payload.state.Clean? && !pinned[p])
  {
    if slots == [] then []
    else [slots[0].Held? && slots[0].payload.state.Clean? && !pinned[0]] + Takeable(slots[1..], pinned[1..])
  }

  /** The quota pass: drop the oldest slot it may take until the shard is within quota or
      there is none left. */
  function SweepQuota(c: Cache, quota: nat): (r: Cache)
    requires |Slots(c)| == |c.pinned|
    ensures |Slots(r)| == |Slots(c)| && r.pinned == c.pinned
    ensures r.shard.bytes <= quota || forall p | 0 <= p < |Slots(r)| :: !Takeable(Slots(r), r.pinned)[p]
    decreases Used(Slots(c))
  {
    if c.shard.bytes <= quota then c else
    var victim := OldestOf(Slots(c), Takeable(Slots(c), c.pinned), 0, None);
    if victim.None? then c else
    UsedUpdate(Slots(c), victim.value);
    SweepQuota(c.(shard := Remove(c.shard, victim.value)), quota)
  }

  function Apply(cfg: Config, c: Cache, op: Op): (r: Cache)
    requires 0 < |Slots(c)| == |c.pinned|
    ensures |Slots(r)| == |Slots(c)| && |r.pinned| == |c.pinned|
  {
    match op
    case Get(key) => Got(cfg, c, key)
    case Put(key, row, dirty, expires) => PutRow(cfg, c, key, row, if dirty then Dirty else Clean, expires)
    case Erase(key, version) => EraseRow(cfg, c, key, version)
    case MarkFlushed(key, version) => Flushed(cfg, c, key, version)
    case Notify(key, version) => Notified(cfg, c, key, version)
    case Pin(key, on) => PinSet(cfg, c, key, on)
    case Sweep(now, locked, quota) => SweepQuota(SweepExpired(c, now, locked, 0), quota)
  }

  function Run(cfg: Config, c: Cache, ops: seq<Op>): Cache
    requires 0 < |Slots(c)| == |c.pinned|
    decreases |ops|
  {
    if ops == [] then c else Run(cfg, Apply(cfg, c, ops[0]), ops[1..])
  }

  // ------------------------------------------------------------------ at most one slot, right size

  ghost predicate Sound(cfg: Config, c: Cache) {
    Good(c.shard, cfg.hash, cfg.probe) && |c.pinned| == |Slots(c)|
  }

  lemma PutSound(cfg: Config, c: Cache, key: Key, row: Row, state: State, expires: Option<int>)
    requires Sound(cfg, c)
    ensures Sound(cfg, PutRow(cfg, c, key, row, state, expires))
  {
    hide Good, Target, Find;
    SoundSize(cfg, c);
    var t := Target(cfg, c, key);
    if t.Some? {
      OnlyTarget(cfg, c, key);
      WriteGood(c.shard, cfg.hash, cfg.probe, t.value, key, Content(row, state, row.version, expires), RowSize(key, row));
    }
  }

  lemma SoundSize(cfg: Config, c: Cache)
    requires Sound(cfg, c)
    ensures 0 < |Slots(c)| == |c.pinned|
  {
  }

  lemma OnlyTarget(cfg: Config, c: Cache, key: Key)
    requires Sound(cfg, c)
    ensures forall r | 0 <= r < |Slots(c)| && HoldsKey(Slots(c), r, key) :: Target(cfg, c, key) == Some(r)
  {
    hide Find, FirstFree, Oldest;
    FindExact(c.shard, cfg.hash, cfg.probe, key);
  }

  lemma {:induction false} ExpiredSound(cfg: Config, c: Cache, now: int, locked: seq<bool>, i: nat)
    requires Sound(cfg, c) && i <= |Slots(c)|
    ensures Sound(cfg, SweepExpired(c, now, locked, i))
    decreases |Slots(c)| - i
  {
    hide Good, Expired;
    if i < |Slots(c)| {
      RemoveGood(c.shard, cfg.hash, cfg.probe, i);
      var d := if !(i < |locked| && locked[i]) && Expired(c, i, now) then c.(shard := Remove(c.shard, i)) else c;
      ExpiredSound(cfg, d, now, locked, i + 1);
    }
  }

  lemma {:induction false} QuotaSound(cfg: Config, c: Cache, quota: nat)
    requires Sound(cfg, c)
    ensures Sound(cfg, SweepQuota(c, quota))
    decreases Used(Slots(c))
  {
    hide Good, OldestOf, Takeable, Used;
    if c.shard.bytes > quota {
      var victim := OldestOf(Slots(c), Takeable(Slots(c), c.pinned), 0, None);
      if victim.Some? {
        RemoveGood(c.shard, cfg.hash, cfg.probe, victim.value);
        UsedUpdate(Slots(c), victim.value);
        QuotaSound(cfg, c.(shard := Remove(c.shard, victim.value)), quota);
      }
    }
  }

  lemma ApplySound(cfg: Config, c: Cache, op: Op)
    requires Sound(cfg, c)
    ensures 0 < |Slots(c)| == |c.pinned| && Sound(cfg, Apply(cfg, c, op))
  {
    hide Good, Find, Reach, PutRow, SweepExpired, SweepQuota;
    SoundSize(cfg, c);
    match op
    case Get(key) =>
      var p := Reach(Slots(c), cfg.hash(key), cfg.probe, key, 0);
      if p.Some? { TouchGood(c.shard, cfg.hash, cfg.probe, p.value); }
    case Put(key, row, dirty, expires) => PutSound(cfg, c, key, row, if dirty then Dirty else Clean, expires);
    case Erase(key, version) =>
      PutSound(cfg, c, key, Row("", version, true), Dirty, None);
      var d := PutRow(cfg, c, key, Row("", version, true), Dirty, None);
      SoundSize(cfg, d);
      var p := Locate(cfg, d, key);
      if p.Some? { AmendGood(d.shard, cfg.hash, cfg.probe, p.value, Slots(d)[p.value].payload.(state := Tombstone)); }
    case MarkFlushed(key, version) =>
      var p := Locate(cfg, c, key);
      if p.Some? {
        RemoveGood(c.shard, cfg.hash, cfg.probe, p.value);
        AmendGood(c.shard, cfg.hash, cfg.probe, p.value, Slots(c)[p.value].payload.(state := Clean));
      }
    case Notify(key, version) =>
      var p := Locate(cfg, c, key);
      if p.Some? { RemoveGood(c.shard, cfg.hash, cfg.probe, p.value); }
    case Pin(key, on) =>
    case Sweep(now, locked, quota) =>
      ExpiredSound(cfg, c, now, locked, 0);
      QuotaSound(cfg, SweepExpired(c, now, locked, 0), quota);
  }

  // ------------------------------------------------------------------ dirty rows stay

  ghost predicate Unsaved(c: Cache, p: nat) {
    p < |Slots(c)| && Slots(c)[p].Held? && (Slots(c)[p].payload.state.Dirty? || Slots(c)[p].payload.state.Flushing?)
  }

  ghost predicate SameRow(c: Cache, d: Cache, p: nat)
    requires Unsaved(c, p)
  {
    Unsaved(d, p) && Slots(d)[p].key == Slots(c)[p].key && Slots(d)[p].payload == Slots(c)[p].payload
  }

  /** Whether a call may touch an unsaved row: a write of its own key, or the news that at
      least its version has reached the database. */
  predicate Settles(op: Op, key: Key, version: nat) {
    (op.Put? && op.key == key) || (op.Erase? && op.key == key) ||
    (op.MarkFlushed? && op.key == key && op.version >= version)
  }

  lemma {:induction false} ExpiredKeeps(c: Cache, now: int, locked: seq<bool>, i: nat, p: nat)
    requires i <= |Slots(c)| == |c.pinned| && Unsaved(c, p)
    ensures SameRow(c, SweepExpired(c, now, locked, i), p)
    decreases |Slots(c)| - i
  {
    if i < |Slots(c)| {
      var d := if !(i < |locked| && locked[i]) && Expired(c, i, now) then c.(shard := Remove(c.shard, i)) else c;
      ExpiredKeeps(d, now, locked, i + 1, p);
    }
  }

  lemma {:induction false} QuotaKeeps(c: Cache, quota: nat, p: nat)
    requires |Slots(c)| == |c.pinned| && Unsaved(c, p)
    ensures SameRow(c, SweepQuota(c, quota), p)
    decreases Used(Slots(c))
  {
    hide OldestOf, Used;
    if c.shard.bytes > quota {
      var victim := OldestOf(Slots(c), Takeable(Slots(c), c.pinned), 0, None);
      if victim.Some? {
        UsedUpdate(Slots(c), victim.value);
        QuotaKeeps(c.(shard := Remove(c.shard, victim.value)), quota, p);
      }
    }
  }

  /** An unsaved row keeps its slot, its content and its state across every call but those
      that settle it: no other key's put, no notification, no pin and no sweep removes it
      or marks it clean. */
  lemma UnsavedStays(cfg: Config, c: Cache, op: Op, p: nat)
    requires Sound(cfg, c) && Unsaved(c, p)
    requires !Settles(op, Slots(c)[p].key, Slots(c)[p].payload.version)
    ensures 0 < |Slots(c)| == |c.pinned| && SameRow(c, Apply(cfg, c, op), p)
  {
    hide Good, Find, Reach, FirstFree, Oldest, SweepExpired, SweepQuota, Target;
    SoundSize(cfg, c);
    match op
    case Get(key) =>
    case Put(key, row, dirty, expires) => PutKeeps(cfg, c, key, row, if dirty then Dirty else Clean, expires, p);
    case Erase(key, version) =>
      var d := PutRow(cfg, c, key, Row("", version, true), Dirty, None);
      PutKeeps(cfg, c, key, Row("", version, true), Dirty, None, p);
    case MarkFlushed(key, version) => LocateOther(cfg, c, key, p);
    case Notify(key, version) => LocateOther(cfg, c, key, p);
    case Pin(key, on) =>
    case Sweep(now, locked, quota) =>
      ExpiredKeeps(c, now, locked, 0, p);
      QuotaKeeps(SweepExpired(c, now, locked, 0), quota, p);
  }

  /** So it does across every run of such calls. */
  lemma {:induction false} UnsavedStaysInRun(cfg: Config, c: Cache, ops: seq<Op>, p: nat)
    requires Sound(cfg, c) && Unsaved(c, p)
    requires forall op | op in ops :: !Settles(op, Slots(c)[p].key, Slots(c)[p].payload.version)
    ensures 0 < |Slots(c)| == |c.pinned| && SameRow(c, Run(cfg, c, ops), p)
    decreases |ops|
  {
    hide Sound, Apply, Settles;
    SoundSize(cfg, c);
    if ops != [] {
      assert ops[0] in ops;
      UnsavedStays(cfg, c, ops[0], p);
      ApplySound(cfg, c, ops[0]);
      UnsavedStaysInRun(cfg, Apply(cfg, c, ops[0]), ops[1..], p);
    }
  }

  lemma LocateOther(cfg: Config, c: Cache, key: Key, p: nat)
    requires |Slots(c)| > 0 && Unsaved(c, p)
    ensures Locate(cfg, c, key) == Some(p) ==> Slots(c)[p].key == key
  {
  }

  lemma PutKeeps(cfg: Config, c: Cache, key: Key, row: Row, state: State, expires: Option<int>, p: nat)
    requires 0 < |Slots(c)| == |c.pinned| && Unsaved(c, p) && Slots(c)[p].key != key
    ensures SameRow(c, PutRow(cfg, c, key, row, state, expires), p)
  {
    hide Target;
  }

  // ------------------------------------------------------------------ what a read returns

  /** The last write of every key: a row, or nothing after an erase. */
  type History = map<Key, Option<Row>>

  function Record(h: History, op: Op): History {
    if op.Put? then h[op.key := Some(op.row)] else if op.Erase? then h[op.key := None] else h
  }

  function RecordAll(h: History, ops: seq<Op>): History
    decreases |ops|
  {
    if ops == [] then h else RecordAll(Record(h, ops[0]), ops[1..])
  }

  /** Every slot tells the last write of its key. */
  ghost predicate Truthful(c: Cache, h: History) {
    forall p | 0 <= p < |Slots(c)| && Slots(c)[p].Held? :: Tells(Slots(c)[p].key, Slots(c)[p].payload, h)
  }

  ghost predicate Tells(key: Key, x: Content, h: History) {
    key in h && h[key] == if x.state.Tombstone? then None else Some(x.row)
  }

  /** Nothing but free slots and slots that were there before. */
  ghost predicate OnlyFewer(c: Cache, d: Cache) {
    |Slots(d)| == |Slots(c)| && d.pinned == c.pinned &&
    forall p | 0 <= p < |Slots(c)| :: Slots(d)[p].Free? || Slots(d)[p] == Slots(c)[p]
  }

  lemma {:induction false} ExpiredOnlyFewer(c: Cache, now: int, locked: seq<bool>, i: nat)
    requires i <= |Slots(c)| == |c.pinned|
    ensures OnlyFewer(c, SweepExpired(c, now, locked, i))
    decreases |Slots(c)| - i
  {
    hide Expired;
    if i < |Slots(c)| {
      var d := if !(i < |locked| && locked[i]) && Expired(c, i, now) then c.(shard := Remove(c.shard, i)) else c;
      ExpiredOnlyFewer(d, now, locked, i + 1);
    }
  }

  lemma {:induction false} QuotaOnlyFewer(c: Cache, quota: nat)
    requires |Slots(c)| == |c.pinned|
    ensures OnlyFewer(c, SweepQuota(c, quota))
    decreases Used(Slots(c))
  {
    hide OldestOf, Takeable, Used;
    if c.shard.bytes > quota {
      var victim := OldestOf(Slots(c), Takeable(Slots(c), c.pinned), 0, None);
      if victim.Some? {
        UsedUpdate(Slots(c), victim.value);
        QuotaOnlyFewer(c.(shard := Remove(c.shard, victim.value)), quota);
      }
    }
  }

  lemma PutTruthful(cfg: Config, c: Cache, key: Key, row: Row, state: State, expires: Option<int>, h: History)
    requires Sound(cfg, c) && Truthful(c, h) && !state.Tombstone?
    ensures Truthful(PutRow(cfg, c, key, row, state, expires), h[key := Some(row)])
  {
    hide Target, Good;
    SoundSize(cfg, c);
    OnlyTarget(cfg, c, key);
    var d := PutRow(cfg, c, key, row, state, expires);
    forall p | 0 <= p < |Slots(d)| && Slots(d)[p].Held?
      ensures Tells(Slots(d)[p].key, Slots(d)[p].payload, h[key := Some(row)])
    {
      if Target(cfg, c, key) != Some(p) { assert !HoldsKey(Slots(c), p, key); }
    }
  }

  lemma EraseTruthful(cfg: Config, c: Cache, key: Key, version: nat, h: History)
    requires Sound(cfg, c) && Truthful(c, h)
    ensures 0 < |Slots(c)| == |c.pinned| && Truthful(EraseRow(cfg, c, key, version), h[key := None])
  {
    hide Good, PutRow, Find;
    SoundSize(cfg, c);
    var gone := Row("", version, true);
    var d := PutRow(cfg, c, key, gone, Dirty, None);
    PutTruthful(cfg, c, key, gone, Dirty, None, h);
    PutSound(cfg, c, key, gone, Dirty, None);
    SoundSize(cfg, d);
    FindExact(d.shard, cfg.hash, cfg.probe, key);
    var e := EraseRow(cfg, c, key, version);
    forall p | 0 <= p < |Slots(e)| && Slots(e)[p].Held?
      ensures Tells(Slots(e)[p].key, Slots(e)[p].payload, h[key := None])
    {
      if Locate(cfg, d, key) != Some(p) { assert !HoldsKey(Slots(d), p, key); }
    }
  }

  lemma ApplyTruthful(cfg: Config, c: Cache, op: Op, h: History)
    requires Sound(cfg, c) && Truthful(c, h)
    ensures 0 < |Slots(c)| == |c.pinned| && Truthful(Apply(cfg, c, op), Record(h, op))
  {
    hide Good, Find, Reach, PutRow, EraseRow, SweepExpired, SweepQuota;
    SoundSize(cfg, c);
    match op
    case Put(key, row, dirty, expires) => PutTruthful(cfg, c, key, row, if dirty then Dirty else Clean, expires, h);
    case Erase(key, version) => EraseTruthful(cfg, c, key, version, h);
    case Sweep(now, locked, quota) =>
      ExpiredOnlyFewer(c, now, locked, 0);
      QuotaOnlyFewer(SweepExpired(c, now, locked, 0), quota);
    case _ =>
  }

  function Fresh(n: nat): Cache {
    Cache(Shard(FreeSlots(n), 0, 0), NoPins(n))
  }

  function FreeSlots(n: nat): (s: seq<Slot<Key, Content>>)
    ensures |s| == n && Total(s) == 0 && forall p | 0 <= p < n :: s[p].Free?
  {
    if n == 0 then [] else [Free] + FreeSlots(n - 1)
  }

  function NoPins(n: nat): (s: seq<bool>)
    ensures |s| == n && forall p | 0 <= p < n :: !s[p]
  {
    if n == 0 then [] else [false] + NoPins(n - 1)
  }

  lemma {:induction false} RunKeeps(cfg: Config, c: Cache, ops: seq<Op>, h: History)
    requires Sound(cfg, c) && Truthful(c, h)
    ensures 0 < |Slots(c)| == |c.pinned|
    ensures Sound(cfg, Run(cfg, c, ops)) && Truthful(Run(cfg, c, ops), RecordAll(h, ops))
    decreases |ops|
  {
    hide Sound, Truthful, Apply;
    SoundSize(cfg, c);
    if ops != [] {
      ApplySound(cfg, c, ops[0]);
      ApplyTruthful(cfg, c, ops[0], h);
      RunKeeps(cfg, Apply(cfg, c, ops[0]), ops[1..], Record(h, ops[0]));
    }
  }

  /** In every run a read returns nothing, or exactly the row of the latest put of that key
      that no erase has followed; every key has at most one slot, inside its window; and
      the byte counter is the sum of the slots' sizes. */
  lemma ReadsLatest(cfg: Config, n: nat, ops: seq<Op>, key: Key)
    requires n > 0
    ensures var c, h := Run(cfg, Fresh(n), ops), RecordAll(map[], ops);
      && Sound(cfg, c) && |Slots(c)| > 0
      && (Answer(cfg, c, key).Some? ==> key in h && h[key] == Answer(cfg, c, key))
  {
    hide Good, Reach, Run, RecordAll;
    FreshSound(cfg, n);
    RunKeeps(cfg, Fresh(n), ops, map[]);
    var c := Run(cfg, Fresh(n), ops);
    SoundSize(cfg, c);
    var p := Reach(Slots(c), cfg.hash(key), cfg.probe, key, 0);
    if p.Some? { assert Tells(key, Slots(c)[p.value].payload, RecordAll(map[], ops)); }
  }

  lemma FreshSound(cfg: Config, n: nat)
    requires n > 0
    ensures Sound(cfg, Fresh(n)) && Truthful(Fresh(n), map[])
  {
  }

  // ------------------------------------------------------------------ the shard object

  class Table {
    const cfg: Config
    var slots: seq<Slot<Key, Content>>
    var bytes: int
    var clock: nat
    var pinned: seq<bool>

    ghost function Value(): Cache
      reads this
    {
      Cache(Shard(slots, bytes, clock), pinned)
    }

    ghost predicate Valid()
      reads this
    {
      Sound(cfg, Value())
    }

    constructor (cfg: Config, n: nat)
      requires n > 0
      ensures Valid() && this.cfg == cfg && Value() == Fresh(n)
    {
      this.cfg := cfg;
      slots, bytes, clock, pinned := FreeSlots(n), 0, 0, NoPins(n);
      new;
      FreshSound(cfg, n);
    }

    method Read(key: Key) returns (row: Option<Row>)
      requires Valid()
      modifies this`slots, this`clock
      ensures Valid() && 0 < |old(slots)| == |old(pinned)|
      ensures row == Answer(cfg, old(Value()), key) && Value() == Apply(cfg, old(Value()), Get(key))
    {
      hide Sound, Reach;
      ApplySound(cfg, Value(), Get(key));
      var p := ReachSlot(slots, cfg.hash(key), cfg.probe, key);
      if p.None? || slots[p.value].payload.state.Tombstone? { return None; }
      row := Some(slots[p.value].payload.row);
      clock := clock + 1;
      slots := slots[p.value := slots[p.value].(lastUsed := clock)];
    }

    method Store(key: Key, row: Row, state: State, expires: Option<int>)
      requires 0 < |slots| == |pinned|
      modifies this`slots, this`bytes, this`clock
      ensures Value() == PutRow(cfg, old(Value()), key, row, state, expires)
    {
      hide Find, FirstFree, Oldest;
      var h := cfg.hash(key);
      var target, free, lru := Survey(slots, Unpinned(pinned), h, cfg.probe, key);
      if target.None? { target := free; }
      if target.None? && lru.Some? && slots[lru.value].payload.state.Clean? { target := lru; }
      if target.None? { return; }
      bytes := bytes - Size(slots[target.value]) + RowSize(key, row);
      clock := clock + 1;
      slots := slots[target.value := Held(key, Content(row, state, row.version, expires), RowSize(key, row), clock)];
    }

    method Write(key: Key, row: Row, dirty: bool, expires: Option<int>)
      requires Valid()
      modifies this`slots, this`bytes, this`clock
      ensures Valid() && 0 < |old(slots)| == |old(pinned)|
      ensures Value() == Apply(cfg, old(Value()), Put(key, row, dirty, expires))
    {
      hide Sound, PutRow;
      ApplySound(cfg, Value(), Put(key, row, dirty, expires));
      Store(key, row, if dirty then Dirty else Clean, expires);
    }

    method Delete(key: Key, version: nat)
      requires Valid()
      modifies this`slots, this`bytes, this`clock
      ensures Valid() && 0 < |old(slots)| == |old(pinned)|
      ensures Value() == Apply(cfg, old(Value()), Erase(key, version))
    {
      hide Sound, PutRow, Find;
      ApplySound(cfg, Value(), Erase(key, version));
      ghost var was := Value();
      Store(key, Row("", version, true), Dirty, None);
      PutSize(cfg, was, key, Row("", version, true), Dirty, None);
      var p := FindSlot(slots, cfg.hash(key), cfg.probe, key);
      if p.Some? {
        slots := slots[p.value := slots[p.value].(payload := slots[p.value].payload.(state := Tombstone))];
      }
    }

    /** The database has acknowledged a version of a row. */
    method Acknowledge(key: Key, version: nat)
      requires Valid()
      modifies this`slots, this`bytes
      ensures Valid() && 0 < |old(slots)| == |old(pinned)|
      ensures Value() == Apply(cfg, old(Value()), MarkFlushed(key, version))
    {
      hide Sound, Find;
      ApplySound(cfg, Value(), MarkFlushed(key, version));
      var p := FindSlot(slots, cfg.hash(key), cfg.probe, key);
      if p.None? || slots[p.value].payload.version > version { return; }
      if slots[p.value].payload.state.Tombstone? {
        bytes := bytes - slots[p.value].size;
        slots := slots[p.value := Free];
      } else {
        slots := slots[p.value := slots[p.value].(payload := slots[p.value].payload.(state := Clean))];
      }
    }

    /** Another process has written a newer version. */
    method Reconcile(key: Key, version: nat)
      requires Valid()
      modifies this`slots, this`bytes
      ensures Valid() && 0 < |old(slots)| == |old(pinned)|
      ensures Value() == Apply(cfg, old(Value()), Notify(key, version))
    {
      hide Sound, Find;
      ApplySound(cfg, Value(), Notify(key, version));
      var p := FindSlot(slots, cfg.hash(key), cfg.probe, key);
      if p.None? { return; }
      var x := slots[p.value].payload;
      if x.state.Dirty? || x.state.Flushing? || x.version >= version { return; }
      bytes := bytes - slots[p.value].size;
      slots := slots[p.value := Free];
    }

    /** One round of the background sweep: expiry, then quota. */
    method SweepOnce(now: int, locked: seq<bool>, quota: nat)
      requires Valid()
      modifies this`slots, this`bytes
      ensures Valid() && 0 < |old(slots)| == |old(pinned)|
      ensures Value() == Apply(cfg, old(Value()), Sweep(now, locked, quota))
    {
      hide Sound, SweepExpired, SweepQuota;
      ApplySound(cfg, Value(), Sweep(now, locked, quota));
      ExpirePass(now, locked);
      QuotaPass(quota);
    }

    method ExpirePass(now: int, locked: seq<bool>)
      requires |slots| == |pinned|
      modifies this`slots, this`bytes
      ensures Value() == SweepExpired(old(Value()), now, locked, 0)
    {
      hide Expired;
      ghost var was := Value();
      var i := 0;
      while i < |slots|
        invariant 0 <= i <= |slots| == |pinned|
        invariant SweepExpired(Value(), now, locked, i) == SweepExpired(was, now, locked, 0)
      {
        if !(i < |locked| && locked[i]) && ExpiredAt(i, now) {
          bytes := bytes - Size(slots[i]);
          slots := slots[i := Free];
        }
        i := i + 1;
      }
    }

    method QuotaPass(quota: nat)
      requires |slots| == |pinned|
      modifies this`slots, this`bytes
      ensures Value() == SweepQuota(old(Value()), quota)
    {
      hide Takeable, OldestOf, Used;
      ghost var was := Value();
      while bytes > quota
        invariant |slots| == |pinned|
        invariant SweepQuota(Value(), quota) == SweepQuota(was, quota)
        decreases Used(slots)
      {
        var victim := ScanOldest(slots, Takeable(slots, pinned));
        if victim.None? { break; }
        UsedUpdate(slots, victim.value);
        bytes := bytes - Size(slots[victim.value]);
        slots := slots[victim.value := Free];
      }
    }

    predicate ExpiredAt(p: nat, now: int)
      requires p < |slots| == |pinned|
      reads this
    {
      Expired(Cache(Shard(slots, bytes, clock), pinned), p, now)
    }
  }

  lemma PutSize(cfg: Config, c: Cache, key: Key, row: Row, state: State, expires: Option<int>)
    requires 0 < |Slots(c)| == |c.pinned|
    ensures |Slots(PutRow(cfg, c, key, row, state, expires))| == |Slots(c)|
  {
    hide Target;
  }
}
