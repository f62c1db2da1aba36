/** The slot tables that the entity cache and the second level of the query cache share:
    one shard, with its byte counter and its access clock.

    A shard is read and changed only through whole calls, each of which is one step. */
module Shards {
  import opened Basics
  import opened Probing

  datatype Slot<K, P> = Free | Held(key: K, payload: P, size: nat, lastUsed: nat)

  datatype Shard<K, P> = Shard(slots: seq<Slot<K, P>>, bytes: int, clock: nat)

  function Size<K, P>(s: Slot<K, P>): nat {
    if s.Held? then s.size else 0
  }

  function Total<K, P>(slots: seq<Slot<K, P>>): nat {
    if slots == [] then 0 else Size(slots[0]) + Total(slots[1..])
  }

  function Used<K, P>(slots: seq<Slot<K, P>>): nat {
    if slots == [] then 0 else (if slots[0].Held? then 1 else 0) + Used(slots[1..])
  }

  predicate HoldsKey<K(==), P>(slots: seq<Slot<K, P>>, p: nat, key: K) {
    p < |slots| && slots[p].Held? && slots[p].key == key
  }

  ghost predicate InWindow(h: nat, p: nat, probe: nat, n: nat)
    requires n > 0
  {
    exists i | 0 <= i < probe :: Pos(h, i, n) == p
  }

  /** Stamps come from the clock, one to each slot: every use gives the highest so far, so a
      lower stamp is an earlier last use. */
  ghost predicate Stamped<K, P>(sh: Shard<K, P>) {
    && (forall p | 0 <= p < |sh.slots| && sh.slots[p].Held? :: sh.slots[p].lastUsed <= sh.clock)
    && (forall p, r | 0 <= p < r < |sh.slots| && sh.slots[p].Held? && sh.slots[r].Held? ::
          sh.slots[p].lastUsed != sh.slots[r].lastUsed)
  }

  /** Every key has at most one slot, inside its probe window, the byte counter is the sum of
      the slots' sizes, and the stamps tell the order of use. */
  ghost predicate Good<K, P>(sh: Shard<K, P>, hash: K -> nat, probe: nat) {
    && |sh.slots| > 0
    && (forall p | 0 <= p < |sh.slots| && sh.slots[p].Held? ::
          InWindow(hash(sh.slots[p].key), p, probe, |sh.slots|))
    && (forall p, r | 0 <= p < r < |sh.slots| && sh.slots[p].Held? && sh.slots[r].Held? ::
          sh.slots[p].key != sh.slots[r].key)
    && sh.bytes == Total(sh.slots)
    && Stamped(sh)
  }

  // ------------------------------------------------------------------ probing

  /** The slot of a key, looking through the whole window. */
  function Find<K(==), P>(slots: seq<Slot<K, P>>, h: nat, probe: nat, key: K, i: nat): (r: Option<nat>)
    requires |slots| > 0 && i <= probe
    ensures r.Some? ==> HoldsKey(slots, r.value, key) && InWindow(h, r.value, probe, |slots|)
    decreases probe - i
  {
    if i == probe then None else
    var p := Pos(h, i, |slots|);
    if HoldsKey(slots, p, key) then Some(p) else Find(slots, h, probe, key, i + 1)
  }

  /** The slot of a key, giving up at the first free slot. */
  function Reach<K(==), P>(slots: seq<Slot<K, P>>, h: nat, probe: nat, key: K, i: nat): (r: Option<nat>)
    requires |slots| > 0 && i <= probe
    ensures r.Some? ==> HoldsKey(slots, r.value, key)
    decreases probe - i
  {
    if i == probe then None else
    var p := Pos(h, i, |slots|);
    if slots[p].Free? then None
    else if slots[p].key == key then Some(p)
    else Reach(slots, h, probe, key, i + 1)
  }

  function FirstFree<K, P>(slots: seq<Slot<K, P>>, h: nat, probe: nat, i: nat): (r: Option<nat>)
    requires |slots| > 0 && i <= probe
    ensures r.Some? ==> r.value < |slots| && slots[r.value].Free? && InWindow(h, r.value, probe, |slots|)
    ensures r.None? ==> forall k | i <= k < probe :: slots[Pos(h, k, |slots|)].Held?
    decreases probe - i
  {
    if i == probe then None else
    var p := Pos(h, i, |slots|);
    if slots[p].Free? then Some(p) else FirstFree(slots, h, probe, i + 1)
  }

  function Age<K, P>(s: Slot<K, P>): nat {
    if s.Held? then s.lastUsed else 0
  }

  /** The least recently used held slot of the window among those allowed, against a best
      so far. */
  function Oldest<K, P>(slots: seq<Slot<K, P>>, allowed: seq<bool>, h: nat, probe: nat, i: nat, best: Option<nat>): (r: Option<nat>)
    requires 0 < |slots| == |allowed| && i <= probe
    requires best.Some? ==>
      best.value < |slots| && slots[best.value].Held? && allowed[best.value] && InWindow(h, best.value, probe, |slots|)
    ensures r.Some? ==>
      r.value < |slots| && slots[r.value].Held? && allowed[r.value] && InWindow(h, r.value, probe, |slots|)
    ensures best.Some? ==> r.Some? && Age(slots[r.value]) <= Age(slots[best.value])
    ensures forall k | i <= k < probe ::
      var p := Pos(h, k, |slots|);
      slots[p].Held? && allowed[p] ==> r.Some? && Age(slots[r.value]) <= Age(slots[p])
    decreases probe - i
  {
    if i == probe then best else
    var p := Pos(h, i, |slots|);
    var better := slots[p].Held? && allowed[p] && (best.None? || Age(slots[p]) < Age(slots[best.value]));
    Oldest(slots, allowed, h, probe, i + 1, if better then Some(p) else best)
  }

  /** The least recently used held slot of the whole shard among those allowed. */
  function OldestOf<K, P>(slots: seq<Slot<K, P>>, allowed: seq<bool>, i: nat, best: Option<nat>): (r: Option<nat>)
    requires |slots| == |allowed| && i <= |slots|
    requires best.Some? ==> best.value < |slots| && slots[best.value].Held? && allowed[best.value]
    ensures r.Some? ==> r.value < |slots| && slots[r.value].Held? && allowed[r.value]
    ensures best.Some? ==> r.Some? && Age(slots[r.value]) <= Age(slots[best.value])
    ensures forall p | i <= p < |slots| && slots[p].Held? && allowed[p] ::
      r.Some? && Age(slots[r.value]) <= Age(slots[p])
    decreases |slots| - i
  {
    if i == |slots| then best else
    var better := slots[i].Held? && allowed[i] && (best.None? || Age(slots[i]) < Age(slots[best.value]));
    OldestOf(slots, allowed, i + 1, if better then Some(i) else best)
  }

  // ------------------------------------------------------------------ changes

  function Write<K, P>(sh: Shard<K, P>, p: nat, key: K, payload: P, size: nat): Shard<K, P>
    requires p < |sh.slots|
  {
    Shard(sh.slots[p := Held(key, payload, size, sh.clock + 1)],
      sh.bytes - Size(sh.slots[p]) + size, sh.clock + 1)
  }

  function Remove<K, P>(sh: Shard<K, P>, p: nat): Shard<K, P>
    requires p < |sh.slots|
  {
    Shard(sh.slots[p := Free], sh.bytes - Size(sh.slots[p]), sh.clock)
  }

  /** Change what a held slot says about its key, not how big it is. */
  function Amend<K, P>(sh: Shard<K, P>, p: nat, payload: P): Shard<K, P>
    requires p < |sh.slots| && sh.slots[p].Held?
  {
    sh.(slots := sh.slots[p := sh.slots[p].(payload := payload)])
  }

  function Touch<K, P>(sh: Shard<K, P>, p: nat): Shard<K, P>
    requires p < |sh.slots| && sh.slots[p].Held?
  {
    sh.(slots := sh.slots[p := sh.slots[p].(lastUsed := sh.clock + 1)], clock := sh.clock + 1)
  }

  lemma {:induction false} TotalUpdate<K, P>(slots: seq<Slot<K, P>>, p: nat, s: Slot<K, P>)
    requires p < |slots|
    ensures Total(slots[p := s]) == Total(slots) - Size(slots[p]) + Size(s)
    decreases |slots|
  {
    if p > 0 {
      assert slots[p := s][1..] == slots[1..][p - 1 := s];
      TotalUpdate(slots[1..], p - 1, s);
    } else {
      assert slots[p := s][1..] == slots[1..];
    }
  }

  lemma {:induction false} UsedUpdate<K, P>(slots: seq<Slot<K, P>>, p: nat)
    requires p < |slots| && slots[p].Held?
    ensures Used(slots[p := Free]) == Used(slots) - 1
    decreases |slots|
  {
    if p > 0 {
      assert slots[p := Free][1..] == slots[1..][p - 1 := Free];
      UsedUpdate(slots[1..], p - 1);
    } else {
      assert slots[p := Free][1..] == slots[1..];
    }
  }

  lemma WriteGood<K, P>(sh: Shard<K, P>, hash: K -> nat, probe: nat, p: nat, key: K, payload: P, size: nat)
    requires Good(sh, hash, probe) && p < |sh.slots| && InWindow(hash(key), p, probe, |sh.slots|)
    requires forall r | 0 <= r < |sh.slots| && r != p :: !HoldsKey(sh.slots, r, key)
    ensures Good(Write(sh, p, key, payload, size), hash, probe)
  {
    hide Total, InWindow;
    TotalUpdate(sh.slots, p, Held(key, payload, size, sh.clock + 1));
    forall r | 0 <= r < |sh.slots| && r != p && sh.slots[r].Held? ensures sh.slots[r].key != key {
      assert !HoldsKey(sh.slots, r, key);
    }
  }

  lemma RemoveGood<K, P>(sh: Shard<K, P>, hash: K -> nat, probe: nat, p: nat)
    requires Good(sh, hash, probe) && p < |sh.slots|
    ensures Good(Remove(sh, p), hash, probe)
  {
    hide Total, InWindow;
    TotalUpdate(sh.slots, p, Free);
  }

  lemma AmendGood<K, P>(sh: Shard<K, P>, hash: K -> nat, probe: nat, p: nat, payload: P)
    requires Good(sh, hash, probe) && p < |sh.slots| && sh.slots[p].Held?
    ensures Good(Amend(sh, p, payload), hash, probe)
  {
    hide Total, InWindow;
    TotalUpdate(sh.slots, p, sh.slots[p].(payload := payload));
  }

  lemma TouchGood<K, P>(sh: Shard<K, P>, hash: K -> nat, probe: nat, p: nat)
    requires Good(sh, hash, probe) && p < |sh.slots| && sh.slots[p].Held?
    ensures Good(Touch(sh, p), hash, probe)
  {
    hide Total, InWindow;
    TotalUpdate(sh.slots, p, sh.slots[p].(lastUsed := sh.clock + 1));
  }

  // ------------------------------------------------------------------ what probing finds

  lemma {:induction false} FindSees<K, P>(slots: seq<Slot<K, P>>, h: nat, probe: nat, key: K, i: nat, j: nat)
    requires |slots| > 0 && i <= j < probe && HoldsKey(slots, Pos(h, j, |slots|), key)
    ensures Find(slots, h, probe, key, i).Some?
    decreases j - i
  {
    hide Pos;
    if i < j { FindSees(slots, h, probe, key, i + 1, j); }
  }

  /** Looking through the whole window finds a key exactly when some slot holds it. */
  lemma FindExact<K, P>(sh: Shard<K, P>, hash: K -> nat, probe: nat, key: K)
    requires Good(sh, hash, probe)
    ensures forall p | 0 <= p < |sh.slots| && HoldsKey(sh.slots, p, key) ::
      Find(sh.slots, hash(key), probe, key, 0) == Some(p)
  {
    hide Pos, Find;
    forall p | 0 <= p < |sh.slots| && HoldsKey(sh.slots, p, key)
      ensures Find(sh.slots, hash(key), probe, key, 0) == Some(p)
    {
      assert InWindow(hash(key), p, probe, |sh.slots|);
      var i :| 0 <= i < probe && Pos(hash(key), i, |sh.slots|) == p;
      FindSees(sh.slots, hash(key), probe, key, 0, i);
      OneSlot(sh, hash, probe, key, p, Find(sh.slots, hash(key), probe, key, 0).value);
    }
  }

  lemma OneSlot<K, P>(sh: Shard<K, P>, hash: K -> nat, probe: nat, key: K, p: nat, r: nat)
    requires Good(sh, hash, probe) && HoldsKey(sh.slots, p, key) && HoldsKey(sh.slots, r, key)
    ensures p == r
  {
  }

  /** Giving up at a free slot can only miss: what it finds is the key's slot. */
  lemma ReachSound<K, P>(sh: Shard<K, P>, hash: K -> nat, probe: nat, key: K)
    requires Good(sh, hash, probe)
    ensures var r := Reach(sh.slots, hash(key), probe, key, 0);
      r.Some? ==> r == Find(sh.slots, hash(key), probe, key, 0)
  {
    hide Reach, Find;
    FindExact(sh, hash, probe, key);
  }

  /** A lookup that gives up at free slots finds a key exactly when it has a slot and no
      free slot stands before it in the window. */
  lemma {:induction false} ReachIff<K, P>(slots: seq<Slot<K, P>>, h: nat, probe: nat, key: K, i: nat)
    requires |slots| > 0 && i <= probe
    ensures Reach(slots, h, probe, key, i).Some? <==>
      exists j | i <= j < probe ::
        HoldsKey(slots, Pos(h, j, |slots|), key) && HeldBetween(slots, h, i, j)
    decreases probe - i
  {
    hide Pos;
    if i < probe {
      ReachIff(slots, h, probe, key, i + 1);
      var p := Pos(h, i, |slots|);
      if HoldsKey(slots, p, key) { assert HeldBetween(slots, h, i, i); }
      forall j | i + 1 <= j < probe && slots[p].Held? ensures HeldBetween(slots, h, i, j) <==> HeldBetween(slots, h, i + 1, j) { }
    }
  }

  ghost predicate HeldBetween<K, P>(slots: seq<Slot<K, P>>, h: nat, i: nat, j: nat)
    requires |slots| > 0
  {
    forall k | i <= k < j :: slots[Pos(h, k, |slots|)].Held?
  }

  /** The first free slot of a window has none before it. */
  lemma {:induction false} FirstFreeIs<K, P>(slots: seq<Slot<K, P>>, h: nat, probe: nat, i: nat) returns (j: nat)
    requires |slots| > 0 && i <= probe && FirstFree(slots, h, probe, i).Some?
    ensures i <= j < probe && FirstFree(slots, h, probe, i) == Some(Pos(h, j, |slots|)) && HeldBetween(slots, h, i, j)
    decreases probe - i
  {
    hide Pos;
    if slots[Pos(h, i, |slots|)].Free? { j := i; } else { j := FirstFreeIs(slots, h, probe, i + 1); }
  }

  /** A key that was not resident, written to the first free slot of its window or into a
      full window, is found by the reader that stops at free slots. */
  lemma WrittenReached<K, P>(sh: Shard<K, P>, hash: K -> nat, probe: nat, t: nat, key: K, payload: P, size: nat)
    requires Good(sh, hash, probe) && t < |sh.slots| && Find(sh.slots, hash(key), probe, key, 0).None?
    requires FirstFree(sh.slots, hash(key), probe, 0) in {None, Some(t)} && InWindow(hash(key), t, probe, |sh.slots|)
    ensures Reach(Write(sh, t, key, payload, size).slots, hash(key), probe, key, 0) == Some(t)
  {
    hide Pos, Find, Reach, FirstFree, Good;
    var h := hash(key);
    var d := Write(sh, t, key, payload, size);
    var j: nat;
    if FirstFree(sh.slots, h, probe, 0).Some? {
      j := FirstFreeIs(sh.slots, h, probe, 0);
    } else {
      j :| 0 <= j < probe && Pos(h, j, |sh.slots|) == t;
    }
    FindExact(sh, hash, probe, key);
    WriteGood(sh, hash, probe, t, key, payload, size);
    assert HoldsKey(d.slots, Pos(h, j, |d.slots|), key) && HeldBetween(d.slots, h, 0, j);
    ReachIff(d.slots, h, probe, key, 0);
    ReachSound(d, hash, probe, key);
    FindExact(d, hash, probe, key);
  }

  // ------------------------------------------------------------------ the loops

  method FindSlot<K(==), P>(slots: seq<Slot<K, P>>, h: nat, probe: nat, key: K) returns (r: Option<nat>)
    requires |slots| > 0
    ensures r == Find(slots, h, probe, key, 0)
  {
    hide Pos;
    var i := 0;
    while i < probe
      invariant 0 <= i <= probe && Find(slots, h, probe, key, i) == Find(slots, h, probe, key, 0)
    {
      var p := Pos(h, i, |slots|);
      if HoldsKey(slots, p, key) { return Some(p); }
      i := i + 1;
    }
    return None;
  }

  method ReachSlot<K(==), P>(slots: seq<Slot<K, P>>, h: nat, probe: nat, key: K) returns (r: Option<nat>)
    requires |slots| > 0
    ensures r == Reach(slots, h, probe, key, 0)
  {
    hide Pos;
    var i := 0;
    while i < probe
      invariant 0 <= i <= probe && Reach(slots, h, probe, key, i) == Reach(slots, h, probe, key, 0)
    {
      var p := Pos(h, i, |slots|);
      if slots[p].Free? { return None; }
      if slots[p].key == key { return Some(p); }
      i := i + 1;
    }
    return None;
  }

  /** The single pass of a put: the key's own slot, and failing that the first free slot
      and the least recently used one it may replace. */
  method Survey<K(==), P>(slots: seq<Slot<K, P>>, allowed: seq<bool>, h: nat, probe: nat, key: K)
    returns (own: Option<nat>, free: Option<nat>, lru: Option<nat>)
    requires 0 < |slots| == |allowed|
    ensures own == Find(slots, h, probe, key, 0)
    ensures own.None? ==> free == FirstFree(slots, h, probe, 0)
    ensures own.None? ==> lru == Oldest(slots, allowed, h, probe, 0, None)
  {
    hide Pos;
    own, free, lru := None, None, None;
    var i := 0;
    while i < probe
      invariant 0 <= i <= probe && own.None?
      invariant Find(slots, h, probe, key, i) == Find(slots, h, probe, key, 0)
      invariant if free.Some? then FirstFree(slots, h, probe, 0) == free
                else FirstFree(slots, h, probe, i) == FirstFree(slots, h, probe, 0)
      invariant lru.Some? ==>
        lru.value < |slots| && slots[lru.value].Held? && allowed[lru.value] && InWindow(h, lru.value, probe, |slots|)
      invariant Oldest(slots, allowed, h, probe, i, lru) == Oldest(slots, allowed, h, probe, 0, None)
    {
      var p := Pos(h, i, |slots|);
      if slots[p].Free? {
        if free.None? { free := Some(p); }
      } else if slots[p].key == key {
        return Some(p), free, lru;
      } else if allowed[p] && (lru.None? || slots[p].lastUsed < slots[lru.value].lastUsed) {
        lru := Some(p);
      }
      i := i + 1;
    }
  }

  /** The scan for the oldest slot of the shard that may go. */
  method ScanOldest<K, P>(slots: seq<Slot<K, P>>, allowed: seq<bool>) returns (r: Option<nat>)
    requires |slots| == |allowed|
    ensures r == OldestOf(slots, allowed, 0, None)
  {
    r := None;
    var i := 0;
    while i < |slots|
      invariant 0 <= i <= |slots|
      invariant r.Some? ==> r.value < |slots| && slots[r.value].Held? && allowed[r.value]
      invariant OldestOf(slots, allowed, i, r) == OldestOf(slots, allowed, 0, None)
    {
      if slots[i].Held? && allowed[i] && (r.None? || slots[i].lastUsed < slots[r.value].lastUsed) { r := Some(i); }
      i := i + 1;
    }
  }
}
