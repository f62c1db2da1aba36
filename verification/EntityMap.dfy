/** The entity cache as a map: what every call does to the content of every key, with no
    mention of slots. */
module EntityMap {
  import opened Basics
  import opened Probing
  import opened Shards
  import opened EntityCache

  /** The content a key is mapped to. */
  function Look(cfg: Config, c: Cache, key: Key): Option<Content>
    requires |Slots(c)| > 0
  {
    var p := Locate(cfg, c, key);
    if p.None? then None else Some(Slots(c)[p.value].payload)
  }

  lemma LookAt(cfg: Config, c: Cache, p: nat)
    requires Sound(cfg, c) && p < |Slots(c)| && Slots(c)[p].Held?
    ensures |Slots(c)| > 0 && Look(cfg, c, Slots(c)[p].key) == Some(Slots(c)[p].payload)
  {
    hide Good, Find;
    SoundSize(cfg, c);
    assert HoldsKey(Slots(c), p, Slots(c)[p].key);
    FindExact(c.shard, cfg.hash, cfg.probe, Slots(c)[p].key);
  }

  ghost predicate Resident(c: Cache, key: Key) {
    exists p :: 0 <= p < |Slots(c)| && HoldsKey(Slots(c), p, key)
  }

  lemma LookIff(cfg: Config, c: Cache, key: Key)
    requires Sound(cfg, c)
    ensures |Slots(c)| > 0 && (Look(cfg, c, key).Some? <==> Resident(c, key))
  {
    hide Good, Find;
    SoundSize(cfg, c);
    if Resident(c, key) {
      var p :| 0 <= p < |Slots(c)| && HoldsKey(Slots(c), p, key);
      LookAt(cfg, c, p);
    }
  }

  ghost predicate Agree(c: Cache, d: Cache, key: Key) {
    && |Slots(c)| == |Slots(d)|
    && forall p | 0 <= p < |Slots(c)| ::
         && (HoldsKey(Slots(c), p, key) <==> HoldsKey(Slots(d), p, key))
         && (HoldsKey(Slots(c), p, key) ==> Slots(d)[p].payload == Slots(c)[p].payload)
  }

  lemma AgreeResident(c: Cache, d: Cache, key: Key)
    requires Agree(c, d, key)
    ensures Resident(c, key) <==> Resident(d, key)
  {
    assert forall p | 0 <= p < |Slots(c)| :: HoldsKey(Slots(c), p, key) <==> HoldsKey(Slots(d), p, key);
  }

  /** Two caches whose slots agree on a key map it alike. */
  lemma SameLook(cfg: Config, c: Cache, d: Cache, key: Key)
    requires Sound(cfg, c) && Sound(cfg, d) && Agree(c, d, key)
    ensures |Slots(c)| > 0 && Look(cfg, c, key) == Look(cfg, d, key)
  {
    hide Good, Find, Look;
    LookIff(cfg, c, key);
    LookIff(cfg, d, key);
    AgreeResident(c, d, key);
    if Resident(c, key) {
      var p :| 0 <= p < |Slots(c)| && HoldsKey(Slots(c), p, key);
      LookAt(cfg, c, p);
      LookAt(cfg, d, p);
    }
  }

  // ------------------------------------------------------------------ puts

  /** The key a put pushes out, if any. */
  function Evicted(cfg: Config, c: Cache, key: Key): Option<Key>
    requires 0 < |Slots(c)| == |c.pinned|
  {
    var t := Target(cfg, c, key);
    if t.Some? && Slots(c)[t.value].Held? && Slots(c)[t.value].key != key then Some(Slots(c)[t.value].key) else None
  }

  /** A put maps its key to the new content, or to nothing and changes nothing when it found
      no place; any other key stays as it was, but for the one pushed out. */
  lemma PutMaps(cfg: Config, c: Cache, key: Key, row: Row, state: State, expires: Option<int>, other: Key)
    requires Sound(cfg, c)
    ensures 0 < |Slots(c)| == |c.pinned|
    ensures
      var d := PutRow(cfg, c, key, row, state, expires);
      && |Slots(d)| > 0
      && Look(cfg, d, key) == (if Target(cfg, c, key).Some? then Some(Content(row, state, row.version, expires)) else None)
      && (other != key ==> Look(cfg, d, other) == (if Evicted(cfg, c, key) == Some(other) then None else Look(cfg, c, other)))
  {
    hide Good, Find, Look, Target;
    SoundSize(cfg, c);
    var d := PutRow(cfg, c, key, row, state, expires);
    PutSound(cfg, c, key, row, state, expires);
    OnlyTarget(cfg, c, key);
    var t := Target(cfg, c, key);
    if t.None? {
      LookIff(cfg, c, key);
    } else {
      LookAt(cfg, d, t.value);
      if other != key {
        if Evicted(cfg, c, key) == Some(other) {
          EvictedGone(cfg, c, key, row, state, expires, other);
        } else {
          SameLook(cfg, c, d, other);
        }
      }
    }
  }

  lemma EvictedGone(cfg: Config, c: Cache, key: Key, row: Row, state: State, expires: Option<int>, other: Key)
    requires Sound(cfg, c) && 0 < |Slots(c)| == |c.pinned|
    requires Evicted(cfg, c, key) == Some(other)
    ensures var d := PutRow(cfg, c, key, row, state, expires); |Slots(d)| > 0 && Look(cfg, d, other) == None
  {
    hide Good, Find, Look, Target;
    var d := PutRow(cfg, c, key, row, state, expires);
    PutSound(cfg, c, key, row, state, expires);
    LookIff(cfg, d, other);
    if Resident(d, other) {
      var p :| 0 <= p < |Slots(d)| && HoldsKey(Slots(d), p, other);
      assert HoldsKey(Slots(c), p, other);
      OneSlot(c.shard, cfg.hash, cfg.probe, other, p, Target(cfg, c, key).value);
    }
  }

  /** What is pushed out was clean and unpinned, the least recently used of the unpinned
      rows of the window, and the window had no free slot. */
  lemma EvictsOldestClean(cfg: Config, c: Cache, key: Key)
    requires 0 < |Slots(c)| == |c.pinned| && Evicted(cfg, c, key).Some?
    ensures Target(cfg, c, key).Some?
    ensures
      var t := Target(cfg, c, key).value;
      && Slots(c)[t].payload.state.Clean? && !c.pinned[t] && Locate(cfg, c, key).None?
      && (forall k | 0 <= k < cfg.probe ::
            var p := Pos(cfg.hash(key), k, |Slots(c)|);
            Slots(c)[p].Held? && (!c.pinned[p] ==> Age(Slots(c)[t]) <= Age(Slots(c)[p])))
  {
    hide Find, FirstFree, Oldest;
    var h := cfg.hash(key);
    var lru := Oldest(Slots(c), Unpinned(c.pinned), h, cfg.probe, 0, None);
    forall k | 0 <= k < cfg.probe
      ensures var p := Pos(h, k, |Slots(c)|);
        Slots(c)[p].Held? && (!c.pinned[p] ==> Age(Slots(c)[Target(cfg, c, key).value]) <= Age(Slots(c)[p]))
    {
      assert FirstFree(Slots(c), h, cfg.probe, 0).None?;
    }
  }

  /** A put of a key that was not resident, if it found a place, is what a read then answers. */
  lemma PutReadable(cfg: Config, c: Cache, key: Key, row: Row, state: State, expires: Option<int>)
    requires Sound(cfg, c) && !state.Tombstone?
    ensures 0 < |Slots(c)| == |c.pinned|
    ensures
      var d := PutRow(cfg, c, key, row, state, expires);
      |Slots(d)| > 0 && (Locate(cfg, c, key).None? && Target(cfg, c, key).Some? ==> Answer(cfg, d, key) == Some(row))
  {
    hide Good, Find, Reach, FirstFree, Oldest;
    SoundSize(cfg, c);
    var t := Target(cfg, c, key);
    if Locate(cfg, c, key).None? && t.Some? {
      WrittenReached(c.shard, cfg.hash, cfg.probe, t.value, key, Content(row, state, row.version, expires), RowSize(key, row));
    }
  }

  /** Slot k of the key's window may be taken by stamp and pin: it is unpinned, and no other
      unpinned slot of the window was last used earlier. */
  ghost predicate OldestUnpinned(cfg: Config, c: Cache, key: Key, k: nat)
    requires 0 < |Slots(c)| == |c.pinned|
  {
    var p := Pos(cfg.hash(key), k, |Slots(c)|);
    !c.pinned[p] && forall m | 0 <= m < cfg.probe ::
      var r := Pos(cfg.hash(key), m, |Slots(c)|); c.pinned[r] || Age(Slots(c)[p]) <= Age(Slots(c)[r])
  }

  /** A put is refused exactly when every slot of the window holds another key, and the
      unpinned one last used longest ago, if there is one, is not clean; that other clean
      rows may be in the window does not help. */
  lemma PutRefusedIff(cfg: Config, c: Cache, key: Key)
    requires Sound(cfg, c)
    ensures 0 < |Slots(c)| == |c.pinned|
    ensures Target(cfg, c, key).None? <==>
      forall k | 0 <= k < cfg.probe ::
        var s := Slots(c)[Pos(cfg.hash(key), k, |Slots(c)|)];
        s.Held? && s.key != key && (OldestUnpinned(cfg, c, key, k) ==> !s.payload.state.Clean?)
  {
    hide Good, Find, FirstFree, Oldest, OldestUnpinned;
    SoundSize(cfg, c);
    var h := cfg.hash(key);
    var lru := Oldest(Slots(c), Unpinned(c.pinned), h, cfg.probe, 0, None);
    if Target(cfg, c, key).None? {
      forall k | 0 <= k < cfg.probe
        ensures var s := Slots(c)[Pos(h, k, |Slots(c)|)];
          s.Held? && s.key != key && (OldestUnpinned(cfg, c, key, k) ==> !s.payload.state.Clean?)
      {
        NoPlace(cfg, c, key, k);
      }
    } else {
      SomePlace(cfg, c, key);
    }
  }

  lemma NoPlace(cfg: Config, c: Cache, key: Key, k: nat)
    requires Sound(cfg, c) && 0 < |Slots(c)| == |c.pinned| && Target(cfg, c, key).None? && k < cfg.probe
    ensures var s := Slots(c)[Pos(cfg.hash(key), k, |Slots(c)|)];
      s.Held? && s.key != key && (OldestUnpinned(cfg, c, key, k) ==> !s.payload.state.Clean?)
  {
    hide Find, FirstFree, Oldest, Pos;
    var h := cfg.hash(key);
    var p := Pos(h, k, |Slots(c)|);
    assert FirstFree(Slots(c), h, cfg.probe, 0).None?;
    if Slots(c)[p].key == key { FindSees(Slots(c), h, cfg.probe, key, 0, k); }
    var lru := Oldest(Slots(c), Unpinned(c.pinned), h, cfg.probe, 0, None);
    if OldestUnpinned(cfg, c, key, k) {
      var j :| 0 <= j < cfg.probe && Pos(h, j, |Slots(c)|) == lru.value;
      OneStamp(c.shard, p, lru.value);
    }
  }

  lemma OneStamp(sh: Shard<Key, Content>, p: nat, r: nat)
    requires Stamped(sh) && p < |sh.slots| && r < |sh.slots| && sh.slots[p].Held? && sh.slots[r].Held?
    ensures sh.slots[p].lastUsed == sh.slots[r].lastUsed ==> p == r
  {
  }

  lemma SomePlace(cfg: Config, c: Cache, key: Key)
    requires Sound(cfg, c) && 0 < |Slots(c)| == |c.pinned| && Target(cfg, c, key).Some?
    ensures exists k | 0 <= k < cfg.probe ::
      var s := Slots(c)[Pos(cfg.hash(key), k, |Slots(c)|)];
      !(s.Held? && s.key != key && (OldestUnpinned(cfg, c, key, k) ==> !s.payload.state.Clean?))
  {
    hide Find, FirstFree, Oldest, Pos;
    var t := Target(cfg, c, key).value;
    var k :| 0 <= k < cfg.probe && Pos(cfg.hash(key), k, |Slots(c)|) == t;
    if Slots(c)[t].Held? && Slots(c)[t].key != key {
      assert OldestUnpinned(cfg, c, key, k);
    }
  }

  // ------------------------------------------------------------------ the other calls

  /** A flush acknowledgement at a version. */
  function Acknowledged(x: Option<Content>, version: nat): Option<Content> {
    if x.None? || x.value.version > version then x
    else if x.value.state.Tombstone? then None
    else Some(x.value.(state := Clean))
  }

  /** News of a version written elsewhere. */
  function Reconciled(x: Option<Content>, version: nat): Option<Content> {
    if x.Some? && !x.value.state.Dirty? && !x.value.state.Flushing? && x.value.version < version then None else x
  }

  lemma RemoveMaps(cfg: Config, c: Cache, p: nat, other: Key)
    requires Sound(cfg, c) && p < |Slots(c)| && Slots(c)[p].Held?
    ensures
      var d := c.(shard := Remove(c.shard, p));
      && |Slots(d)| > 0 && |Slots(c)| > 0
      && Look(cfg, d, other) == (if other == Slots(c)[p].key then None else Look(cfg, c, other))
  {
    hide Good, Find, Look;
    var d := c.(shard := Remove(c.shard, p));
    RemoveGood(c.shard, cfg.hash, cfg.probe, p);
    if other != Slots(c)[p].key {
      SameLook(cfg, c, d, other);
    } else {
      LookIff(cfg, d, other);
      if Resident(d, other) {
        var q :| 0 <= q < |Slots(d)| && HoldsKey(Slots(d), q, other);
        assert HoldsKey(Slots(c), q, other) && q != p;
        OneSlot(c.shard, cfg.hash, cfg.probe, other, p, q);
      }
    }
  }

  lemma AmendMaps(cfg: Config, c: Cache, p: nat, x: Content, other: Key)
    requires Sound(cfg, c) && p < |Slots(c)| && Slots(c)[p].Held?
    ensures
      var d := c.(shard := Amend(c.shard, p, x));
      && |Slots(d)| > 0 && |Slots(c)| > 0
      && Look(cfg, d, other) == (if other == Slots(c)[p].key then Some(x) else Look(cfg, c, other))
  {
    hide Good, Find, Look;
    var d := c.(shard := Amend(c.shard, p, x));
    AmendGood(c.shard, cfg.hash, cfg.probe, p, x);
    if other == Slots(c)[p].key { LookAt(cfg, d, p); } else { SameLook(cfg, c, d, other); }
  }

  lemma FlushedMaps(cfg: Config, c: Cache, key: Key, version: nat, other: Key)
    requires Sound(cfg, c)
    ensures
      && |Slots(c)| > 0 && |Slots(Flushed(cfg, c, key, version))| > 0
      && Look(cfg, Flushed(cfg, c, key, version), other)
         == (if other == key then Acknowledged(Look(cfg, c, key), version) else Look(cfg, c, other))
  {
    hide Good, Find;
    SoundSize(cfg, c);
    var p := Locate(cfg, c, key);
    if p.Some? {
      RemoveMaps(cfg, c, p.value, other);
      AmendMaps(cfg, c, p.value, Slots(c)[p.value].payload.(state := Clean), other);
    }
  }

  lemma NotifiedMaps(cfg: Config, c: Cache, key: Key, version: nat, other: Key)
    requires Sound(cfg, c)
    ensures
      && |Slots(c)| > 0 && |Slots(Notified(cfg, c, key, version))| > 0
      && Look(cfg, Notified(cfg, c, key, version), other)
         == (if other == key then Reconciled(Look(cfg, c, key), version) else Look(cfg, c, other))
  {
    hide Good, Find;
    SoundSize(cfg, c);
    var p := Locate(cfg, c, key);
    if p.Some? { RemoveMaps(cfg, c, p.value, other); }
  }

  /** An erase is a put of a tombstone. */
  lemma ErasedMaps(cfg: Config, c: Cache, key: Key, version: nat, other: Key)
    requires Sound(cfg, c)
    ensures 0 < |Slots(c)| == |c.pinned|
    ensures
      var d := EraseRow(cfg, c, key, version);
      && |Slots(d)| > 0
      && Look(cfg, d, key)
         == (if Target(cfg, c, key).Some? then Some(Content(Row("", version, true), Tombstone, version, None)) else None)
      && (other != key ==> Look(cfg, d, other) == (if Evicted(cfg, c, key) == Some(other) then None else Look(cfg, c, other)))
  {
    hide Good, Find, Target, Evicted;
    SoundSize(cfg, c);
    var row := Row("", version, true);
    var mid := PutRow(cfg, c, key, row, Dirty, None);
    PutSound(cfg, c, key, row, Dirty, None);
    PutMaps(cfg, c, key, row, Dirty, None, other);
    var p := Locate(cfg, mid, key);
    if p.Some? {
      var x := Slots(mid)[p.value].payload.(state := Tombstone);
      AmendMaps(cfg, mid, p.value, x, other);
      AmendMaps(cfg, mid, p.value, x, key);
    }
  }

  /** A read answers the mapped row or nothing, and maps nothing anew. */
  lemma GotMaps(cfg: Config, c: Cache, key: Key, other: Key)
    requires Sound(cfg, c)
    ensures
      && |Slots(c)| > 0 && |Slots(Got(cfg, c, key))| > 0
      && Look(cfg, Got(cfg, c, key), other) == Look(cfg, c, other)
      && (Answer(cfg, c, key).Some? ==>
            Look(cfg, c, key).Some? && Answer(cfg, c, key) == Some(Look(cfg, c, key).value.row)
            && !Look(cfg, c, key).value.state.Tombstone?)
  {
    hide Good, Find, Reach;
    SoundSize(cfg, c);
    ReachSound(c.shard, cfg.hash, cfg.probe, key);
    var p := Reach(Slots(c), cfg.hash(key), cfg.probe, key, 0);
    if p.Some? {
      TouchGood(c.shard, cfg.hash, cfg.probe, p.value);
      SameLook(cfg, c, c.(shard := Touch(c.shard, p.value)), other);
    }
  }

  // ------------------------------------------------------------------ the sweep

  /** After the expiry pass no unlocked slot holds a clean, unpinned row past its time. */
  lemma {:induction false} ExpiredGone(c: Cache, now: int, locked: seq<bool>, i: nat, p: nat)
    requires i <= |Slots(c)| == |c.pinned| && p < |Slots(c)| && !(p < |locked| && locked[p])
    requires p < i ==> !Expired(c, p, now)
    ensures !Expired(SweepExpired(c, now, locked, i), p, now)
    decreases |Slots(c)| - i
  {
    if i < |Slots(c)| {
      var d := if !(i < |locked| && locked[i]) && Expired(c, i, now) then c.(shard := Remove(c.shard, i)) else c;
      ExpiredGone(d, now, locked, i + 1, p);
    }
  }

  /** The sweep only takes keys away. */
  lemma SweptMaps(cfg: Config, c: Cache, now: int, locked: seq<bool>, quota: nat, key: Key)
    requires Sound(cfg, c)
    ensures 0 < |Slots(c)| == |c.pinned|
    ensures
      var d := SweepQuota(SweepExpired(c, now, locked, 0), quota);
      && |Slots(d)| > 0
      && (Look(cfg, d, key) == Look(cfg, c, key) || Look(cfg, d, key) == None)
  {
    hide Good, Find, Look, SweepExpired, SweepQuota;
    SoundSize(cfg, c);
    var e := SweepExpired(c, now, locked, 0);
    var d := SweepQuota(e, quota);
    ExpiredSound(cfg, c, now, locked, 0);
    QuotaSound(cfg, e, quota);
    ExpiredOnlyFewer(c, now, locked, 0);
    QuotaOnlyFewer(e, quota);
    LookIff(cfg, d, key);
    if Resident(d, key) {
      var p :| 0 <= p < |Slots(d)| && HoldsKey(Slots(d), p, key);
      assert Slots(d)[p] == Slots(c)[p];
      LookAt(cfg, d, p);
      LookAt(cfg, c, p);
    }
  }
}
