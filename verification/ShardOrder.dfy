/** In which order a shard gives up its slots: the stamps as a history of uses, and the loop
    that evicts down to a quota. */
module ShardOrder {
  import opened Basics
  import opened Shards

  // ------------------------------------------------------------------ order of use

  /** The n-th use was of the key, and none after it. */
  ghost predicate LastAt<K>(log: seq<K>, key: K, n: nat) {
    1 <= n <= |log| && log[n - 1] == key && forall j | n <= j < |log| :: log[j] != key
  }

  /** Every slot's stamp says when its key was last used. */
  ghost predicate Tracks<K, P>(sh: Shard<K, P>, log: seq<K>) {
    && sh.clock == |log|
    && forall p | 0 <= p < |sh.slots| && sh.slots[p].Held? :: LastAt(log, sh.slots[p].key, sh.slots[p].lastUsed)
  }

  lemma LastAtLonger<K>(log: seq<K>, key: K, n: nat, used: K)
    requires LastAt(log, key, n) && used != key
    ensures LastAt(log + [used], key, n)
  {
  }

  /** The slot of a used key gets the newest stamp, and every other slot keeps its own. */
  lemma UseTracks<K, P>(a: Shard<K, P>, b: Shard<K, P>, log: seq<K>, p: nat, key: K)
    requires Tracks(a, log) && p < |a.slots| == |b.slots| && b.clock == a.clock + 1
    requires HoldsKey(b.slots, p, key) && b.slots[p].lastUsed == a.clock + 1
    requires forall r | 0 <= r < |a.slots| && r != p :: b.slots[r] == a.slots[r] && !HoldsKey(a.slots, r, key)
    ensures Tracks(b, log + [key])
  {
    forall r | 0 <= r < |b.slots| && b.slots[r].Held?
      ensures LastAt(log + [key], b.slots[r].key, b.slots[r].lastUsed)
    {
      if r != p {
        assert !HoldsKey(a.slots, r, key);
        LastAtLonger(log, a.slots[r].key, a.slots[r].lastUsed, key);
      }
    }
  }

  /** No slot gets a new key or stamp. */
  ghost predicate NoUse<K, P>(a: Shard<K, P>, b: Shard<K, P>) {
    && |b.slots| == |a.slots| && b.clock == a.clock
    && forall r | 0 <= r < |a.slots| && b.slots[r].Held? ::
         a.slots[r].Held? && b.slots[r].key == a.slots[r].key && b.slots[r].lastUsed == a.slots[r].lastUsed
  }

  lemma NoUseTracks<K, P>(a: Shard<K, P>, b: Shard<K, P>, log: seq<K>)
    requires Tracks(a, log) && NoUse(a, b)
    ensures Tracks(b, log + [])
  {
    hide LastAt;
    assert log + [] == log;
  }

  /** One key was used after every use of the other. */
  ghost predicate UsedSince<K>(log: seq<K>, key: K, other: K) {
    exists i | 0 <= i < |log| :: log[i] == key && forall j | i <= j < |log| :: log[j] != other
  }

  lemma LaterUse<K>(log: seq<K>, other: K, m: nat, key: K, n: nat)
    requires LastAt(log, other, m) && LastAt(log, key, n) && m <= n && key != other
    ensures UsedSince(log, key, other)
  {
    assert log[n - 1] == key;
  }

  // ------------------------------------------------------------------ evicting to a quota

  ghost predicate Gone<K, P>(a: Shard<K, P>, b: Shard<K, P>, p: nat) {
    p < |a.slots| == |b.slots| && a.slots[p].Held? && b.slots[p].Free?
  }

  /** Nothing but slots that may go. */
  ghost predicate TakesOnly<K, P>(a: Shard<K, P>, b: Shard<K, P>, may: seq<bool>) {
    && |a.slots| == |b.slots| == |may|
    && forall p: nat | p < |a.slots| :: b.slots[p] == a.slots[p] || (Gone(a, b, p) && may[p])
  }

  /** No slot goes before one that may go and was used longer ago. */
  ghost predicate OldestFirst<K, P>(a: Shard<K, P>, b: Shard<K, P>, may: seq<bool>) {
    && |a.slots| == |b.slots| == |may|
    && forall p: nat, r: nat | Gone(a, b, p) && r < |a.slots| && a.slots[r].Held? && may[r] && !Gone(a, b, r) ::
         a.slots[p].lastUsed <= a.slots[r].lastUsed
  }

  /** With one of the slots that went, the shard would be over. */
  ghost predicate JustEnough<K, P>(a: Shard<K, P>, b: Shard<K, P>, quota: nat) {
    exists p: nat :: Gone(a, b, p) && b.bytes + a.slots[p].size > quota
  }

  /** Nothing within the quota; else slots that may go, the least recently used first, no more
      than needed, until the shard is within the quota or none is left. */
  ghost predicate Evicts<K, P>(a: Shard<K, P>, b: Shard<K, P>, may: seq<bool>, quota: nat) {
    && TakesOnly(a, b, may) && OldestFirst(a, b, may)
    && (a.bytes <= quota ==> b == a) && (b == a || JustEnough(a, b, quota))
    && (b.bytes <= quota || forall p: nat | p < |b.slots| == |may| && b.slots[p].Held? :: !may[p])
  }

  lemma EvictsNone<K, P>(a: Shard<K, P>, may: seq<bool>, quota: nat)
    requires |a.slots| == |may|
    requires a.bytes <= quota || forall p: nat | p < |a.slots| && a.slots[p].Held? :: !may[p]
    ensures Evicts(a, a, may, quota)
  {
  }

  lemma EvictsOne<K, P>(a: Shard<K, P>, b: Shard<K, P>, may: seq<bool>, quota: nat, v: nat)
    requires |a.slots| == |may| && v < |a.slots| && a.slots[v].Held? && may[v] && a.bytes > quota
    requires forall r: nat | r < |a.slots| && a.slots[r].Held? && may[r] :: a.slots[v].lastUsed <= a.slots[r].lastUsed
    requires Evicts(Remove(a, v), b, may, quota)
    ensures Evicts(a, b, may, quota)
  {
    hide OldestFirst, JustEnough;
    OneTakes(a, b, may, v);
    OneOldest(a, b, may, v);
    OneEnough(a, b, quota, v);
  }

  lemma OneTakes<K, P>(a: Shard<K, P>, b: Shard<K, P>, may: seq<bool>, v: nat)
    requires |a.slots| == |may| && v < |a.slots| && a.slots[v].Held? && may[v] && TakesOnly(Remove(a, v), b, may)
    ensures TakesOnly(a, b, may) && Gone(a, b, v)
  {
    var e := Remove(a, v);
    assert b.slots[v].Free?;
    forall p: nat | p < |a.slots| ensures b.slots[p] == a.slots[p] || (Gone(a, b, p) && may[p]) {
      assert b.slots[p] == e.slots[p] || (Gone(e, b, p) && may[p]);
    }
  }

  lemma OneOldest<K, P>(a: Shard<K, P>, b: Shard<K, P>, may: seq<bool>, v: nat)
    requires |a.slots| == |may| && v < |a.slots| && OldestFirst(Remove(a, v), b, may) && Gone(a, b, v)
    requires forall r: nat | r < |a.slots| && a.slots[r].Held? && may[r] :: a.slots[v].lastUsed <= a.slots[r].lastUsed
    ensures OldestFirst(a, b, may)
  {
    var e := Remove(a, v);
    forall p: nat, r: nat | Gone(a, b, p) && r < |a.slots| && a.slots[r].Held? && may[r] && !Gone(a, b, r)
      ensures a.slots[p].lastUsed <= a.slots[r].lastUsed
    {
      if p != v { assert Gone(e, b, p) && e.slots[r].Held? && !Gone(e, b, r); }
    }
  }

  lemma OneEnough<K, P>(a: Shard<K, P>, b: Shard<K, P>, quota: nat, v: nat)
    requires v < |a.slots| && Gone(a, b, v) && a.bytes > quota
    requires b == Remove(a, v) || JustEnough(Remove(a, v), b, quota)
    ensures JustEnough(a, b, quota) && b != a
  {
    var e := Remove(a, v);
    if b != e {
      var p: nat :| Gone(e, b, p) && b.bytes + e.slots[p].size > quota;
      assert Gone(a, b, p);
    }
  }
}
