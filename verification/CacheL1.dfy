/** The per-thread first level of the query cache: an open-addressed table with a probe
    window of eight slots and least-recently-used replacement inside the window. */
module CacheL1 {
  import opened Basics
  import opened Probing

  const PROBE: nat := 8
  const KEY_MAX: nat := 80

  /** The key buffer holds at most 80 bytes of the key. */
  datatype Slot<V> = Empty | Used(key: string, value: V, hash: nat, lastUsed: nat)

  function Kept(key: string): string {
    if |key| <= KEY_MAX then key else key[..KEY_MAX]
  }

  predicate Matches<V>(s: Slot<V>, h: nat, key: string) {
    s.Used? && s.hash == h && s.key == key
  }

  /** Probe the window from its i-th slot on; an empty slot ends the probe. */
  function Probe<V>(slots: seq<Slot<V>>, h: nat, key: string, i: nat): (r: Option<nat>)
    requires |slots| > 0 && i <= PROBE
    ensures r.Some? ==> r.value < |slots| && Matches(slots[r.value], h, key)
    decreases PROBE - i
  {
    if i == PROBE then None else
    var p := Pos(h, i, |slots|);
    if slots[p].Empty? then None
    else if Matches(slots[p], h, key) then Some(p)
    else Probe(slots, h, key, i + 1)
  }

  /** The first slot of the window that is empty or already holds the key. */
  function Fit<V>(slots: seq<Slot<V>>, h: nat, key: string, i: nat): (r: Option<nat>)
    requires |slots| > 0 && i <= PROBE
    ensures r.Some? ==> r.value < |slots|
    decreases PROBE - i
  {
    if i == PROBE then None else
    var p := Pos(h, i, |slots|);
    if slots[p].Empty? || Matches(slots[p], h, key) then Some(p) else Fit(slots, h, key, i + 1)
  }

  function Age<V>(s: Slot<V>): nat {
    if s.Used? then s.lastUsed else 0
  }

  /** The least recently used slot of the window from its i-th on, against a best so far. */
  function Oldest<V>(slots: seq<Slot<V>>, h: nat, i: nat, best: nat): (r: nat)
    requires |slots| > 0 && i <= PROBE && best < |slots|
    ensures r < |slots| && Age(slots[r]) <= Age(slots[best])
    ensures forall k | i <= k < PROBE :: Age(slots[r]) <= Age(slots[Pos(h, k, |slots|)])
    ensures r == best || exists k | i <= k < PROBE :: r == Pos(h, k, |slots|)
    decreases PROBE - i
  {
    if i == PROBE then best else
    var p := Pos(h, i, |slots|);
    Oldest(slots, h, i + 1, if Age(slots[p]) < Age(slots[best]) then p else best)
  }

  function Victim<V>(slots: seq<Slot<V>>, h: nat, key: string): (r: nat)
    requires |slots| > 0
    ensures r < |slots|
  {
    var fit := Fit(slots, h, key, 0);
    if fit.Some? then fit.value else Oldest(slots, h, 1, Pos(h, 0, |slots|))
  }

  function Stored<V>(slots: seq<Slot<V>>, h: nat, key: string, value: V, stamp: nat): seq<Slot<V>>
    requires |slots| > 0
  {
    slots[Victim(slots, h, key) := Used(Kept(key), value, h, stamp)]
  }

  // ------------------------------------------------------------------ what the table holds

  /** Slot p belongs to its key's window, and everything before it there is in use. */
  ghost predicate Reached<V>(slots: seq<Slot<V>>, p: nat)
    requires p < |slots| && slots[p].Used?
  {
    exists i | 0 <= i < PROBE :: Pos(slots[p].hash, i, |slots|) == p && Full(slots, slots[p].hash, i)
  }

  /** The first i slots of a window are in use. */
  ghost predicate Full<V>(slots: seq<Slot<V>>, h: nat, i: nat)
    requires |slots| > 0
  {
    forall k | 0 <= k < i :: slots[Pos(h, k, |slots|)].Used?
  }

  ghost predicate Good<V>(slots: seq<Slot<V>>, hash: string -> nat) {
    && |slots| > 0
    && (forall p | 0 <= p < |slots| && slots[p].Used? ::
          slots[p].hash == hash(slots[p].key) && |slots[p].key| <= KEY_MAX && Reached(slots, p))
    && (forall p, r | 0 <= p < r < |slots| && slots[p].Used? && slots[r].Used? :: slots[p].key != slots[r].key)
  }

  ghost predicate At<V>(slots: seq<Slot<V>>, p: nat, key: string) {
    p < |slots| && slots[p].Used? && slots[p].key == key
  }

  /** The probe walks over slots in use that hold other keys. */
  lemma {:induction false} ProbeSkips<V>(slots: seq<Slot<V>>, h: nat, key: string, i: nat, j: nat)
    requires |slots| > 0 && i <= j < PROBE
    requires forall k | i <= k < j :: slots[Pos(h, k, |slots|)].Used?
    requires Matches(slots[Pos(h, j, |slots|)], h, key)
    ensures Probe(slots, h, key, i).Some? && Fit(slots, h, key, i) == Probe(slots, h, key, i)
    decreases j - i
  {
    hide Pos;
    var p := Pos(h, i, |slots|);
    if i < j && !Matches(slots[p], h, key) { ProbeSkips(slots, h, key, i + 1, j); }
  }

  /** The probe finds a key exactly when some slot holds it, and finds that slot. */
  lemma ProbeExact<V>(slots: seq<Slot<V>>, hash: string -> nat, key: string)
    requires Good(slots, hash)
    ensures Probe(slots, hash(key), key, 0).Some? <==> exists p | 0 <= p < |slots| :: At(slots, p, key)
    ensures forall p | 0 <= p < |slots| && At(slots, p, key) ::
      Probe(slots, hash(key), key, 0) == Some(p) && Fit(slots, hash(key), key, 0) == Some(p)
  {
    hide Pos, Probe, Fit;
    var h := hash(key);
    var found := Probe(slots, h, key, 0);
    if found.Some? { assert At(slots, found.value, key); }
    forall p | 0 <= p < |slots| && At(slots, p, key)
      ensures found == Some(p) && Fit(slots, h, key, 0) == Some(p)
    {
      assert Reached(slots, p);
      var i :| 0 <= i < PROBE && Pos(h, i, |slots|) == p && Full(slots, h, i);
      ProbeSkips(slots, h, key, 0, i);
      assert At(slots, found.value, key);
    }
  }

  lemma {:induction false} FitIs<V>(slots: seq<Slot<V>>, h: nat, key: string, i: nat)
    requires |slots| > 0 && i <= PROBE
    ensures var fit := Fit(slots, h, key, i);
      && (fit.None? ==> forall k | i <= k < PROBE :: slots[Pos(h, k, |slots|)].Used?)
      && (fit.Some? ==> exists k | i <= k < PROBE ::
            && Pos(h, k, |slots|) == fit.value
            && (slots[fit.value].Empty? || Matches(slots[fit.value], h, key))
            && forall m | i <= m < k :: slots[Pos(h, m, |slots|)].Used?)
    decreases PROBE - i
  {
    hide Pos;
    if i < PROBE {
      var p := Pos(h, i, |slots|);
      if slots[p].Used? && !Matches(slots[p], h, key) { FitIs(slots, h, key, i + 1); }
    }
  }

  /** The slot a put writes is in the window, behind slots in use; a full window gives up
      its least recently used slot. */
  lemma VictimIs<V>(slots: seq<Slot<V>>, h: nat, key: string)
    requires |slots| > 0
    ensures var v := Victim(slots, h, key);
      && (exists k | 0 <= k < PROBE :: Pos(h, k, |slots|) == v && Full(slots, h, k))
      && (slots[v].Used? && !Matches(slots[v], h, key) ==>
            Full(slots, h, PROBE) && forall k | 0 <= k < PROBE :: Age(slots[v]) <= Age(slots[Pos(h, k, |slots|)]))
  {
    hide Pos, Fit, Oldest;
    FitIs(slots, h, key, 0);
    var v := Victim(slots, h, key);
    if Fit(slots, h, key, 0).None? {
      if v == Pos(h, 0, |slots|) {
        assert Full(slots, h, 0);
      } else {
        var k :| 1 <= k < PROBE && v == Pos(h, k, |slots|);
        assert Full(slots, h, k);
      }
    }
  }

  lemma StoredGood<V>(slots: seq<Slot<V>>, hash: string -> nat, key: string, value: V, stamp: nat)
    requires Good(slots, hash) && |key| <= KEY_MAX
    ensures Good(Stored(slots, hash(key), key, value, stamp), hash)
  {
    hide Pos, Victim;
    var h := hash(key);
    var v, after := Victim(slots, h, key), Stored(slots, h, key, value, stamp);
    VictimIs(slots, h, key);
    forall p | 0 <= p < |after| && after[p].Used? ensures Reached(after, p) {
      if p == v {
        var k :| 0 <= k < PROBE && Pos(h, k, |slots|) == v && Full(slots, h, k);
        assert Full(after, h, k);
      } else {
        assert Reached(slots, p);
        var k :| 0 <= k < PROBE && Pos(slots[p].hash, k, |slots|) == p && Full(slots, slots[p].hash, k);
        assert Full(after, after[p].hash, k);
      }
    }
    forall p | 0 <= p < |slots| && p != v ensures !At(slots, p, key) {
      if At(slots, p, key) { OnlyVictim(slots, hash, key, p); }
    }
    forall p, r | 0 <= p < r < |after| && after[p].Used? && after[r].Used? ensures after[p].key != after[r].key {
      assert p != v ==> !At(slots, p, key);
      assert r != v ==> !At(slots, r, key);
    }
  }

  lemma OnlyVictim<V>(slots: seq<Slot<V>>, hash: string -> nat, key: string, p: nat)
    requires Good(slots, hash) && At(slots, p, key)
    ensures Victim(slots, hash(key), key) == p
  {
    ProbeExact(slots, hash, key);
  }

  // ------------------------------------------------------------------ as a map

  function Lookup<V>(slots: seq<Slot<V>>, hash: string -> nat, key: string): Option<V>
    requires |slots| > 0
  {
    var p := Probe(slots, hash(key), key, 0);
    if p.Some? then Some(slots[p.value].value) else None
  }

  lemma LookupAt<V>(slots: seq<Slot<V>>, hash: string -> nat, p: nat)
    requires Good(slots, hash) && p < |slots| && slots[p].Used?
    ensures Lookup(slots, hash, slots[p].key) == Some(slots[p].value)
  {
    hide Probe;
    ProbeExact(slots, hash, slots[p].key);
    assert At(slots, p, slots[p].key);
  }

  lemma LookupNone<V>(slots: seq<Slot<V>>, hash: string -> nat, key: string)
    requires Good(slots, hash) && forall p | 0 <= p < |slots| :: !At(slots, p, key)
    ensures Lookup(slots, hash, key) == None
  {
    hide Probe;
    ProbeExact(slots, hash, key);
  }

  /** The table is an exact bounded map. A put makes its key hit with the new value; any
      other key answers as before, unless it was the one in the replaced slot; and a
      replaced key is the least recently used of a full window. */
  lemma PutExact<V>(slots: seq<Slot<V>>, hash: string -> nat, key: string, value: V, stamp: nat, other: string)
    requires Good(slots, hash) && |key| <= KEY_MAX
    ensures var v, after := Victim(slots, hash(key), key), Stored(slots, hash(key), key, value, stamp);
      var evicts := slots[v].Used? && slots[v].key != key;
      && Lookup(after, hash, key) == Some(value)
      && (other != key ==>
            Lookup(after, hash, other) == if evicts && slots[v].key == other then None else Lookup(slots, hash, other))
      && (evicts ==> forall k | 0 <= k < PROBE ::
            var p := Pos(hash(key), k, |slots|); slots[p].Used? && slots[v].lastUsed <= slots[p].lastUsed)
  {
    hide Pos, Victim, Lookup, Good;
    var h := hash(key);
    GoodSize(slots, hash);
    var v, after := Victim(slots, h, key), Stored(slots, h, key, value, stamp);
    StoredGood(slots, hash, key, value, stamp);
    LookupAt(after, hash, v);
    VictimIs(slots, h, key);
    if other != key {
      if p :| 0 <= p < |after| && At(after, p, other) {
        LookupAt(after, hash, p);
        LookupAt(slots, hash, p);
        if slots[v].Used? && slots[v].key == other { GoodUnique(slots, hash, p, v); }
      } else {
        LookupNone(after, hash, other);
        if p :| 0 <= p < |slots| && At(slots, p, other) {
          assert !At(after, p, other);
        } else {
          LookupNone(slots, hash, other);
        }
      }
    }
  }

  lemma GoodSize<V>(slots: seq<Slot<V>>, hash: string -> nat)
    requires Good(slots, hash)
    ensures |slots| > 0
  {
  }

  lemma GoodUnique<V>(slots: seq<Slot<V>>, hash: string -> nat, p: nat, r: nat)
    requires Good(slots, hash) && p < |slots| && r < |slots|
    requires slots[p].Used? && slots[r].Used? && slots[p].key == slots[r].key
    ensures p == r
  {
  }

  /** A hit only refreshes the slot's age. */
  lemma TouchGood<V>(slots: seq<Slot<V>>, hash: string -> nat, p: nat, stamp: nat, key: string)
    requires Good(slots, hash) && p < |slots| && slots[p].Used?
    ensures var after := slots[p := slots[p].(lastUsed := stamp)];
      Good(after, hash) && Lookup(after, hash, key) == Lookup(slots, hash, key)
  {
    hide Pos, Lookup;
    var after := slots[p := slots[p].(lastUsed := stamp)];
    forall q | 0 <= q < |after| && after[q].Used? ensures Reached(after, q) {
      assert Reached(slots, q);
      var k :| 0 <= k < PROBE && Pos(slots[q].hash, k, |slots|) == q && Full(slots, slots[q].hash, k);
      assert Full(after, after[q].hash, k);
    }
    if q :| 0 <= q < |slots| && At(slots, q, key) {
      LookupAt(slots, hash, q);
      LookupAt(after, hash, q);
    } else {
      LookupNone(slots, hash, key);
      forall q | 0 <= q < |after| ensures !At(after, q, key) { assert !At(slots, q, key); }
      LookupNone(after, hash, key);
    }
  }

  // ------------------------------------------------------------------ order of use

  /** The stamps tell the history of uses: `uses[i]` is the slot used by the i-th put or hit,
      and a slot's stamp is one more than the index of its last use. */
  ghost predicate Tracks<V>(slots: seq<Slot<V>>, uses: seq<nat>) {
    forall p | 0 <= p < |slots| && slots[p].Used? ::
      && 1 <= slots[p].lastUsed <= |uses| && uses[slots[p].lastUsed - 1] == p
      && forall j | slots[p].lastUsed <= j < |uses| :: uses[j] != p
  }

  lemma UseTracks<V>(slots: seq<Slot<V>>, uses: seq<nat>, p: nat, s: Slot<V>)
    requires Tracks(slots, uses) && p < |slots| && s.Used? && s.lastUsed == |uses| + 1
    ensures Tracks(slots[p := s], uses + [p])
  {
  }

  /** A put that pushes a key out of its slot takes, from a window all in use, the slot whose
      last use lies furthest back: every other one was used since. */
  lemma EvictsLeastRecentlyUsed<V>(slots: seq<Slot<V>>, uses: seq<nat>, h: nat, key: string)
    requires |slots| > 0 && Tracks(slots, uses)
    ensures var v := Victim(slots, h, key);
      slots[v].Used? && !Matches(slots[v], h, key) ==>
        forall k | 0 <= k < 8 ::
          var p := Pos(h, k, |slots|); slots[p].Used? && (p != v ==> UsedSince(uses, p, v))
  {
    hide Victim, Pos;
    VictimIs(slots, h, key);
    var v := Victim(slots, h, key);
    if slots[v].Used? && !Matches(slots[v], h, key) {
      forall k | 0 <= k < PROBE
        ensures var p := Pos(h, k, |slots|); slots[p].Used? && (p != v ==> UsedSince(uses, p, v))
      {
        var p := Pos(h, k, |slots|);
        assert slots[p].Used?;
        if p != v { assert uses[slots[p].lastUsed - 1] == p; }
      }
    }
  }

  /** Slot p was used after every use of slot v. */
  ghost predicate UsedSince(uses: seq<nat>, p: nat, v: nat) {
    exists i | 0 <= i < |uses| :: uses[i] == p && forall j | i <= j < |uses| :: uses[j] != v
  }

  /** Probing does not look at stamps. */
  lemma {:induction false} ProbeIgnoresStamps<V>(slots: seq<Slot<V>>, p: nat, stamp: nat, h: nat, key: string, i: nat)
    requires p < |slots| && slots[p].Used? && i <= PROBE
    ensures Probe(slots[p := slots[p].(lastUsed := stamp)], h, key, i) == Probe(slots, h, key, i)
    decreases PROBE - i
  {
    hide Pos;
    if i < PROBE { ProbeIgnoresStamps(slots, p, stamp, h, key, i + 1); }
  }

  // ------------------------------------------------------------------ keys over 80 bytes

  lemma {:induction false} LongNeverFound<V>(slots: seq<Slot<V>>, h: nat, key: string, i: nat)
    requires |slots| > 0 && i <= PROBE && |key| > KEY_MAX
    requires forall p | 0 <= p < |slots| && slots[p].Used? :: |slots[p].key| <= KEY_MAX
    ensures Probe(slots, h, key, i) == None
    decreases PROBE - i
  {
    hide Pos;
    if i < PROBE { LongNeverFound(slots, h, key, i + 1); }
  }

  /** A key just put is found exactly when it is at most 80 bytes long. */
  lemma FoundIffShort<V>(slots: seq<Slot<V>>, hash: string -> nat, key: string, value: V, stamp: nat)
    requires Good(slots, hash)
    ensures Lookup(Stored(slots, hash(key), key, value, stamp), hash, key)
         == if |key| <= 80 then Some(value) else None
  {
    if |key| <= KEY_MAX {
      PutExact(slots, hash, key, value, stamp, key);
    } else {
      LongNeverFound(Stored(slots, hash(key), key, value, stamp), hash(key), key, 0);
    }
  }

  /** Worse, a longer key answers for its first 80 bytes: when the hash looks only at a
      prefix, looking those up returns a value that was never stored under them. */
  lemma LongKeyAliases<V>(slots: seq<Slot<V>>, hash: string -> nat, key: string, value: V, stamp: nat)
    requires |slots| > 0 && |key| > KEY_MAX && hash(key[..KEY_MAX]) == hash(key)
    requires forall p | 0 <= p < |slots| :: !At(slots, p, key[..KEY_MAX])
    ensures Lookup(Stored(slots, hash(key), key, value, stamp), hash, key[..KEY_MAX]) == Some(value)
  {
    hide Pos, Victim;
    var h, cut := hash(key), key[..KEY_MAX];
    var v, after := Victim(slots, h, key), Stored(slots, h, key, value, stamp);
    VictimIs(slots, h, key);
    var k :| 0 <= k < PROBE && Pos(h, k, |slots|) == v && Full(slots, h, k);
    assert forall m | 0 <= m < k :: after[Pos(h, m, |after|)].Used?;
    ProbeSkips(after, h, cut, 0, k);
    var p := Probe(after, h, cut, 0).value;
    assert !At(slots, p, cut);
  }

  /** The hash of the source: the first eight bytes, or FNV-1a for shorter keys; never 0. */
  function HashOf(key: string): nat {
    var h := if |key| >= 8 then Pack(key[..8]) else Fnv(key, 0xcbf2_9ce4_8422_2325);
    if h == 0 then 1 else h
  }

  function Pack(bytes: string): nat {
    if bytes == "" then 0 else bytes[0] as nat % 256 + 256 * Pack(bytes[1..])
  }

  function Fnv(key: string, h: nat): nat
    decreases |key|
  {
    if key == "" then h
    else Fnv(key[1..], XorLow(h, key[0] as nat % 256) * 0x100_0000_01b3 % 0x1_0000_0000_0000_0000)
  }

  /** Exclusive-or of a word with a byte. */
  function XorLow(h: nat, b: nat): nat
    decreases b
  {
    if b == 0 then h else 2 * XorLow(h / 2, b / 2) + (h % 2 + b % 2) % 2
  }

  lemma HashLooksAtPrefix(key: string)
    requires |key| > KEY_MAX
    ensures HashOf(key[..KEY_MAX]) == HashOf(key)
  {
    assert key[..KEY_MAX][..8] == key[..8];
  }

  lemma XorExample()
    ensures XorLow(0xcbf2_9ce4_8422_2325, 0x61) == 0xcbf2_9ce4_8422_2344
  {
    assert XorLow(0x197e539c9084446, 0x0) == 0x197e539c9084446;
    assert XorLow(0x32fca739210888c, 0x1) == 0x32fca739210888d;
    assert XorLow(0x65f94e724211119, 0x3) == 0x65f94e72421111a;
    assert XorLow(0xcbf29ce48422232, 0x6) == 0xcbf29ce48422234;
    assert XorLow(0x197e539c90844464, 0xc) == 0x197e539c90844468;
    assert XorLow(0x32fca739210888c9, 0x18) == 0x32fca739210888d1;
    assert XorLow(0x65f94e7242111192, 0x30) == 0x65f94e72421111a2;
    assert XorLow(0xcbf29ce484222325, 0x61) == 0xcbf29ce484222344;
  }

  lemma PackExample()
    ensures Pack("abcdefgh") == 0x6867_6665_6463_6261
  {
    assert "abcdefgh"[1..] == "bcdefgh" && "bcdefgh"[1..] == "cdefgh" && "cdefgh"[1..] == "defgh" && "defgh"[1..] == "efgh";
    assert "efgh"[1..] == "fgh" && "fgh"[1..] == "gh" && "gh"[1..] == "h" && "h"[1..] == "";
    assert Pack("h") == 0x68;
    assert Pack("gh") == 0x6867;
    assert Pack("fgh") == 0x68_6766;
    assert Pack("efgh") == 0x6867_6665;
    assert Pack("defgh") == 0x68_6766_6564;
    assert Pack("cdefgh") == 0x6867_6665_6463;
    assert Pack("bcdefgh") == 0x68_6766_6564_6362;
  }

  /** The hash of a short key is 64-bit FNV-1a, of a longer one its first eight bytes, low byte
      first. */
  lemma HashExamples(rest: string)
    ensures HashOf("") == 0xcbf2_9ce4_8422_2325
    ensures HashOf("a") == 0xaf63_dc4c_8601_ec8c
    ensures HashOf("abcdefgh" + rest) == 0x6867_6665_6463_6261
  {
    hide XorLow, Pack;
    XorExample();
    PackExample();
    assert "a"[1..] == "";
    assert ("abcdefgh" + rest)[..8] == "abcdefgh";
  }

  // ------------------------------------------------------------------ the table object

  function Power2(n: nat): nat { if n == 0 then 1 else 2 * Power2(n - 1) }

  class Table<V> {
    const hash: string -> nat
    const slots: array<Slot<V>>
    var counter: nat
    ghost var uses: seq<nat>

    ghost predicate Valid()
      reads this, slots
    {
      slots.Length > 0 && counter == |uses| && Tracks(slots[..], uses)
    }

    /** An exact map, as long as no key over 80 bytes was put. */
    ghost predicate Exact()
      reads slots
    {
      Good(slots[..], hash)
    }

    /** The capacity is rounded up to the next power of two. */
    constructor (hash: string -> nat, capacity: nat)
      ensures Valid() && Exact() && fresh(slots) && this.hash == hash
      ensures exists e: nat :: slots.Length == Power2(e)
      ensures capacity <= slots.Length && (slots.Length == 1 || slots.Length < 2 * capacity)
      ensures forall p | 0 <= p < slots.Length :: slots[p].Empty?
    {
      var n := 1;
      ghost var e: nat := 0;
      while n < capacity
        invariant n >= 1 && n == Power2(e) && (n == 1 || n < 2 * capacity)
      {
        n := 2 * n;
        e := e + 1;
      }
      this.hash := hash;
      slots := new Slot<V>[n](_ => Empty);
      counter := 0;
      uses := [];
    }

    /** Find a key without looking at its expiry, and mark it as just used. */
    method FindRaw(key: string) returns (hit: Option<V>)
      requires Valid()
      modifies slots, this
      ensures Valid() && (old(Exact()) ==> Exact())
      ensures hit == Lookup(old(slots[..]), hash, key)
      ensures forall other :: Lookup(slots[..], hash, other) == Lookup(old(slots[..]), hash, other)
      ensures if hit.Some? then uses == old(uses) + [Probe(old(slots[..]), hash(key), key, 0).value] else uses == old(uses)
    {
      hide Good, Pos, Tracks;
      ghost var was := slots[..];
      var h := hash(key);
      var i := 0;
      while i < PROBE
        invariant 0 <= i <= PROBE && slots[..] == was && Valid() && counter == old(counter) && uses == old(uses)
        invariant Probe(was, h, key, i) == Probe(was, h, key, 0)
      {
        var p := Pos(h, i, slots.Length);
        if slots[p].Empty? { return None; }
        if Matches(slots[p], h, key) {
          hit := Some(slots[p].value);
          counter := counter + 1;
          UseTracks(was, uses, p, was[p].(lastUsed := counter));
          if Good(was, hash) { TouchGood(was, hash, p, counter, key); }
          forall other ensures Touched(was, hash, p, counter, other) {
            ProbeIgnoresStamps(was, p, counter, hash(other), other, 0);
          }
          uses := uses + [p];
          slots[p] := slots[p].(lastUsed := counter);
          assert slots[..] == was[p := was[p].(lastUsed := counter)];
          forall other ensures Lookup(slots[..], hash, other) == Lookup(was, hash, other) {
            assert Touched(was, hash, p, counter, other);
          }
          return;
        }
        i := i + 1;
      }
      return None;
    }

    method Put(key: string, value: V)
      requires Valid()
      modifies slots, this
      ensures Valid() && (old(Exact()) && |key| <= KEY_MAX ==> Exact())
      ensures slots[..] == Stored(old(slots[..]), hash(key), key, value, counter)
      ensures uses == old(uses) + [Victim(old(slots[..]), hash(key), key)]
    {
      hide Good, Pos, Tracks;
      ghost var was := slots[..];
      var h := hash(key);
      var victim := Choose(h, key);
      counter := counter + 1;
      if Good(was, hash) && |key| <= KEY_MAX { StoredGood(was, hash, key, value, counter); }
      UseTracks(was, uses, victim, Used(Kept(key), value, h, counter));
      uses := uses + [victim];
      slots[victim] := Used(Kept(key), value, h, counter);
      assert slots[..] == was[victim := Used(Kept(key), value, h, counter)];
    }

    /** The two probe loops of a put. */
    method Choose(h: nat, key: string) returns (victim: nat)
      requires slots.Length > 0
      ensures victim == Victim(slots[..], h, key)
    {
      hide Pos;
      ghost var was := slots[..];
      var i := 0;
      while i < PROBE
        invariant 0 <= i <= PROBE
        invariant Fit(was, h, key, i) == Fit(was, h, key, 0)
      {
        var p := Pos(h, i, slots.Length);
        if slots[p].Empty? || Matches(slots[p], h, key) { return p; }
        i := i + 1;
      }
      victim := Pos(h, 0, slots.Length);
      i := 1;
      while i < PROBE
        invariant 1 <= i <= PROBE && victim < slots.Length
        invariant Oldest(was, h, i, victim) == Oldest(was, h, 1, Pos(h, 0, slots.Length))
      {
        var p := Pos(h, i, slots.Length);
        if Age(slots[p]) < Age(slots[victim]) { victim := p; }
        i := i + 1;
      }
    }

    method Clear()
      requires Valid()
      modifies slots
      ensures Valid() && Exact() && forall key :: Lookup(slots[..], hash, key) == None
    {
      var i := 0;
      while i < slots.Length
        invariant 0 <= i <= slots.Length && forall p | 0 <= p < i :: slots[p].Empty?
      {
        slots[i] := Empty;
        i := i + 1;
      }
    }
  }

  ghost predicate Touched<V>(slots: seq<Slot<V>>, hash: string -> nat, p: nat, stamp: nat, key: string)
    requires p < |slots| && slots[p].Used?
  {
    Lookup(slots[p := slots[p].(lastUsed := stamp)], hash, key) == Lookup(slots, hash, key)
  }
}
