/** State-table coalescing in the batch writer: within one flush only the newest queued
    row of each primary key is sent.

    A row is any value with a primary key and a version; a table without a version
    column is one whose rows all have the same version. */
module Coalesce {

  datatype Schema<!R, !K> = Schema(key: R -> K, version: R -> int)

  ghost predicate HasKey<R, K>(s: Schema<R, K>, rows: seq<R>, k: K) {
    exists i | 0 <= i < |rows| :: s.key(rows[i]) == k
  }

  /** The rows that no later row supersedes, in queue order. */
  ghost function Coalesced<R, K>(s: Schema<R, K>, rows: seq<R>): (kept: seq<R>)
    ensures |kept| <= |rows|
  {
    if rows == [] then []
    else if HasKey(s, rows[1..], s.key(rows[0])) then Coalesced(s, rows[1..])
    else [rows[0]] + Coalesced(s, rows[1..])
  }

  /** Each entry is the last index of its key, and every key has one. */
  ghost predicate LastIndexes<R, K>(s: Schema<R, K>, rows: seq<R>, last: map<K, nat>) {
    && (forall k | k in last :: last[k] < |rows| && s.key(rows[last[k]]) == k)
    && (forall k, j | k in last && last[k] < j < |rows| :: s.key(rows[j]) != k)
    && (forall j | 0 <= j < |rows| :: s.key(rows[j]) in last)
  }

  /** The first loop of the source: remember the last index of every key. */
  method IndexLast<R, K(==)>(s: Schema<R, K>, rows: seq<R>) returns (last: map<K, nat>)
    ensures LastIndexes(s, rows, last)
    ensures |last| == |rows| ==> DistinctKeys(s, rows)
  {
    hide LastIndexes, DistinctKeys;
    last := map[];
    NothingIndexed(s);
    assert rows[..0] == [];
    var i := 0;
    while i < |rows|
      invariant 0 <= i <= |rows|
      invariant LastIndexes(s, rows[..i], last)
      invariant |last| <= i && (|last| == i ==> DistinctKeys(s, rows[..i]))
    {
      IndexStep(s, rows[..i], rows[i], last);
      assert rows[..i + 1] == rows[..i] + [rows[i]];
      last := last[s.key(rows[i]) := i];
      i := i + 1;
    }
    assert rows[..i] == rows;
  }

  lemma NothingIndexed<R, K>(s: Schema<R, K>)
    ensures LastIndexes(s, [], map[]) && DistinctKeys(s, [])
  {
  }

  lemma IndexStep<R, K>(s: Schema<R, K>, rows: seq<R>, r: R, last: map<K, nat>)
    requires LastIndexes(s, rows, last)
    requires |last| <= |rows| && (|last| == |rows| ==> DistinctKeys(s, rows))
    ensures var more := last[s.key(r) := |rows|];
      && LastIndexes(s, rows + [r], more)
      && |more| <= |rows| + 1 && (|more| == |rows| + 1 ==> DistinctKeys(s, rows + [r]))
  {
    var k := s.key(r);
    var more := last[k := |rows|];
    if k in last {
      assert more.Keys == last.Keys;
      assert |more| == |more.Keys| && |last| == |last.Keys|;
    } else {
      assert |more| == |last| + 1;
    }
  }

  /** The second loop: keep the rows that stand at the last index of their key. */
  method KeepLast<R, K(==)>(s: Schema<R, K>, rows: seq<R>) returns (kept: seq<R>)
    ensures kept == Coalesced(s, rows)
  {
    hide HasKey, LastIndexes, DistinctKeys;
    var last := IndexLast(s, rows);
    if |last| == |rows| {
      DistinctUnchanged(s, rows);
      return rows;
    }
    kept := [];
    var i := 0;
    assert rows[0..] == rows;
    while i < |rows|
      invariant 0 <= i <= |rows|
      invariant kept + Coalesced(s, rows[i..]) == Coalesced(s, rows)
    {
      assert rows[i..][1..] == rows[i + 1..];
      LastOrNot(s, rows, i, last);
      if last[s.key(rows[i])] == i { kept := kept + [rows[i]]; }
      i := i + 1;
    }
  }

  lemma LastOrNot<R, K>(s: Schema<R, K>, rows: seq<R>, i: nat, last: map<K, nat>)
    requires i < |rows| && LastIndexes(s, rows, last)
    ensures s.key(rows[i]) in last
    ensures HasKey(s, rows[i + 1..], s.key(rows[i])) <==> last[s.key(rows[i])] != i
  {
    var k := s.key(rows[i]);
    var n := last[k];
    if n > i { assert rows[i + 1..][n - i - 1] == rows[n]; }
    if HasKey(s, rows[i + 1..], k) {
      var j :| 0 <= j < |rows[i + 1..]| && s.key(rows[i + 1..][j]) == k;
      assert rows[i + 1..][j] == rows[i + 1 + j];
    }
  }

  // ------------------------------------------------------------------ the upsert

  /** INSERT ... ON CONFLICT DO UPDATE under the version guard. */
  ghost function Upsert<R, K>(s: Schema<R, K>, t: map<K, R>, r: R): map<K, R> {
    var k := s.key(r);
    if k in t && s.version(t[k]) > s.version(r) then t else t[k := r]
  }

  ghost function UpsertAll<R, K>(s: Schema<R, K>, t: map<K, R>, rows: seq<R>): map<K, R>
    decreases |rows|
  {
    if rows == [] then t else UpsertAll(s, Upsert(s, t, rows[0]), rows[1..])
  }

  lemma {:induction false} UpsertBoth<R, K>(s: Schema<R, K>, t: map<K, R>, a: seq<R>, b: seq<R>)
    ensures UpsertAll(s, t, a + b) == UpsertAll(s, UpsertAll(s, t, a), b)
    decreases |a|
  {
    if a == [] {
      assert a + b == b;
    } else {
      assert (a + b)[1..] == a[1..] + b;
      UpsertBoth(s, Upsert(s, t, a[0]), a[1..], b);
    }
  }

  /** The last queued row with a key. */
  ghost function LastRow<R, K>(s: Schema<R, K>, rows: seq<R>, k: K): (r: R)
    requires HasKey(s, rows, k)
    ensures s.key(r) == k
  {
    if HasKey(s, rows[1..], k) then LastRow(s, rows[1..], k) else HasKeyStep(s, rows, k); rows[0]
  }

  lemma HasKeyStep<R, K>(s: Schema<R, K>, rows: seq<R>, k: K)
    requires rows != []
    ensures HasKey(s, rows, k) <==> s.key(rows[0]) == k || HasKey(s, rows[1..], k)
  {
    assert forall i | 1 <= i < |rows| :: rows[1..][i - 1] == rows[i];
    assert forall i | 0 <= i < |rows[1..]| :: rows[1..][i] == rows[i + 1];
  }

  /** For every key, the row queued last carries its highest version. */
  ghost predicate LastIsNewest<R, K>(s: Schema<R, K>, rows: seq<R>)
    decreases |rows|
  {
    rows == [] ||
    (LastIsNewest(s, rows[1..]) &&
     (HasKey(s, rows[1..], s.key(rows[0])) ==>
      s.version(rows[0]) <= s.version(LastRow(s, rows[1..], s.key(rows[0])))))
  }

  // ------------------------------------------------------------------ what the rows leave behind

  /** Upserting rows one by one leaves, under a key whose last row is newest, that row,
      unless the table already held a newer one. */
  lemma {:induction false} FinalAt<R, K>(s: Schema<R, K>, t: map<K, R>, rows: seq<R>, k: K)
    requires LastIsNewest(s, rows)
    ensures var u := UpsertAll(s, t, rows);
      if !HasKey(s, rows, k) then (k in u <==> k in t) && (k in t ==> u[k] == t[k])
      else
        var last := LastRow(s, rows, k);
        k in u && u[k] == if k in t && s.version(t[k]) > s.version(last) then t[k] else last
    decreases |rows|
  {
    hide HasKey;
    if rows == [] {
      NoKey(s, k);
    } else {
      HasKeyStep(s, rows, k);
      FinalAt(s, Upsert(s, t, rows[0]), rows[1..], k);
    }
  }

  lemma NoKey<R, K>(s: Schema<R, K>, k: K)
    ensures !HasKey(s, [], k)
  {
  }

  lemma {:induction false} CoalescedKeys<R, K>(s: Schema<R, K>, rows: seq<R>, k: K)
    ensures HasKey(s, Coalesced(s, rows), k) <==> HasKey(s, rows, k)
    ensures HasKey(s, rows, k) ==> LastRow(s, Coalesced(s, rows), k) == LastRow(s, rows, k)
    decreases |rows|
  {
    hide HasKey;
    if rows != [] {
      CoalescedKeys(s, rows[1..], k);
      HasKeyStep(s, rows, k);
      var kept := Coalesced(s, rows);
      if !HasKey(s, rows[1..], s.key(rows[0])) {
        assert kept[1..] == Coalesced(s, rows[1..]);
        HasKeyStep(s, kept, k);
      }
    }
  }

  ghost predicate DistinctKeys<R, K>(s: Schema<R, K>, rows: seq<R>) {
    forall i, j | 0 <= i < j < |rows| :: s.key(rows[i]) != s.key(rows[j])
  }

  lemma {:induction false} DistinctUnchanged<R, K>(s: Schema<R, K>, rows: seq<R>)
    requires DistinctKeys(s, rows)
    ensures Coalesced(s, rows) == rows
    decreases |rows|
  {
    if rows != [] {
      assert forall i | 0 <= i < |rows[1..]| :: rows[1..][i] == rows[i + 1];
      DistinctUnchanged(s, rows[1..]);
      assert rows == [rows[0]] + rows[1..];
    }
  }

  /** Coalescing drops nothing exactly when the keys are distinct. */
  lemma {:induction false} KeepsAllIff<R, K>(s: Schema<R, K>, rows: seq<R>)
    ensures |Coalesced(s, rows)| == |rows| <==> DistinctKeys(s, rows)
    decreases |rows|
  {
    if DistinctKeys(s, rows) {
      DistinctUnchanged(s, rows);
    } else {
      var i, j :| 0 <= i < j < |rows| && s.key(rows[i]) == s.key(rows[j]);
      if i == 0 {
        assert rows[1..][j - 1] == rows[j];
      } else {
        assert rows[1..][i - 1] == rows[i] && rows[1..][j - 1] == rows[j];
        KeepsAllIff(s, rows[1..]);
      }
    }
  }

  lemma SameKeyCoalesced<R, K>(s: Schema<R, K>, a: R, b: R)
    requires s.key(a) == s.key(b)
    ensures Coalesced(s, [a, b]) == [b]
  {
    assert [a, b][1..] == [b] && [b][1..] == [];
    assert [b][0] == b;
    assert !HasKey(s, [], s.key(b));
  }

  /** A coalesced batch never holds a key twice, which a multi-row upsert would refuse. */
  lemma {:induction false} CoalescedDistinct<R, K>(s: Schema<R, K>, rows: seq<R>)
    ensures DistinctKeys(s, Coalesced(s, rows))
    ensures LastIsNewest(s, Coalesced(s, rows))
    decreases |rows|
  {
    if rows != [] {
      CoalescedDistinct(s, rows[1..]);
      var k := s.key(rows[0]);
      CoalescedKeys(s, rows[1..], k);
      if !HasKey(s, rows[1..], k) {
        var kept := Coalesced(s, rows);
        assert kept[1..] == Coalesced(s, rows[1..]);
        forall i, j | 0 <= i < j < |kept| ensures s.key(kept[i]) != s.key(kept[j]) {
          if i > 0 {
            assert kept[1..][i - 1] == kept[i] && kept[1..][j - 1] == kept[j];
          } else {
            assert kept[1..][j - 1] == kept[j];
          }
        }
      }
    }
  }

  lemma SameTable<R, K(!new)>(s: Schema<R, K>, rows: seq<R>, t: map<K, R>)
    requires LastIsNewest(s, rows)
    ensures UpsertAll(s, t, Coalesced(s, rows)) == UpsertAll(s, t, rows)
  {
    hide HasKey, UpsertAll, LastIsNewest;
    var u, v := UpsertAll(s, t, Coalesced(s, rows)), UpsertAll(s, t, rows);
    CoalescedDistinct(s, rows);
    forall k ensures (k in u <==> k in v) && (k in u ==> u[k] == v[k]) {
      FinalAt(s, t, Coalesced(s, rows), k);
      FinalAt(s, t, rows, k);
      CoalescedKeys(s, rows, k);
    }
    assert u == v;
  }

  /** Under the guard the stored version of a key never goes down. */
  lemma {:induction false} VersionsGrow<R, K>(s: Schema<R, K>, t: map<K, R>, rows: seq<R>, k: K)
    ensures var u := UpsertAll(s, t, rows);
      && (k in t ==> k in u && s.version(t[k]) <= s.version(u[k]))
      && (forall i | 0 <= i < |rows| && s.key(rows[i]) == k ::
            k in u && s.version(rows[i]) <= s.version(u[k]))
    decreases |rows|
  {
    if rows != [] {
      var t' := Upsert(s, t, rows[0]);
      VersionsGrow(s, t', rows[1..], k);
      forall i | 0 <= i < |rows| && s.key(rows[i]) == k
        ensures var u := UpsertAll(s, t, rows); k in u && s.version(rows[i]) <= s.version(u[k])
      {
        if i > 0 { assert rows[1..][i - 1] == rows[i]; }
      }
    }
  }

  /** A key whose last row is not its newest. */
  lemma {:induction false} Witness<R, K>(s: Schema<R, K>, rows: seq<R>) returns (i: nat)
    requires !LastIsNewest(s, rows)
    ensures i < |rows| && HasKey(s, rows, s.key(rows[i]))
    ensures s.version(rows[i]) > s.version(LastRow(s, rows, s.key(rows[i])))
    decreases |rows|
  {
    if !LastIsNewest(s, rows[1..]) {
      var j := Witness(s, rows[1..]);
      i := j + 1;
      assert rows[1..][j] == rows[i];
    } else {
      i := 0;
    }
    HasKeyStep(s, rows, s.key(rows[i]));
  }

  /** Coalescing preserves meaning, on every table, exactly when for every key the row
      queued last carries the highest version of that key. */
  lemma CoalescePreserves<R, K(!new)>(s: Schema<R, K>, rows: seq<R>)
    ensures LastIsNewest(s, rows) <==>
      forall t: map<K, R> :: UpsertAll(s, t, Coalesced(s, rows)) == UpsertAll(s, t, rows)
  {
    if LastIsNewest(s, rows) {
      forall t: map<K, R> ensures UpsertAll(s, t, Coalesced(s, rows)) == UpsertAll(s, t, rows) {
        SameTable(s, rows, t);
      }
    } else {
      var i := Witness(s, rows);
      var k := s.key(rows[i]);
      VersionsGrow(s, map[], rows, k);
      CoalescedDistinct(s, rows);
      CoalescedKeys(s, rows, k);
      FinalAt(s, map[], Coalesced(s, rows), k);
      assert UpsertAll(s, map[], Coalesced(s, rows)) != UpsertAll(s, map[], rows);
    }
  }

  /** Non-decreasing versions per key, as a queue in commit order has them, suffice; so
      does having no version column. */
  lemma {:induction false} OrderedIsNewest<R, K>(s: Schema<R, K>, rows: seq<R>)
    requires forall i, j | 0 <= i < j < |rows| && s.key(rows[i]) == s.key(rows[j]) ::
      s.version(rows[i]) <= s.version(rows[j])
    ensures LastIsNewest(s, rows)
    decreases |rows|
  {
    if rows != [] {
      forall i, j | 0 <= i < j < |rows[1..]| && s.key(rows[1..][i]) == s.key(rows[1..][j])
        ensures s.version(rows[1..][i]) <= s.version(rows[1..][j])
      {
        assert rows[1..][i] == rows[i + 1] && rows[1..][j] == rows[j + 1];
      }
      OrderedIsNewest(s, rows[1..]);
      var k := s.key(rows[0]);
      if HasKey(s, rows[1..], k) {
        var j := LastAt(s, rows[1..], k);
        assert rows[1..][j] == rows[j + 1];
      }
    }
  }

  lemma {:induction false} LastAt<R, K>(s: Schema<R, K>, rows: seq<R>, k: K) returns (j: nat)
    requires HasKey(s, rows, k)
    ensures j < |rows| && rows[j] == LastRow(s, rows, k)
    decreases |rows|
  {
    if HasKey(s, rows[1..], k) {
      var i := LastAt(s, rows[1..], k);
      j := i + 1;
    } else {
      j := 0;
    }
  }
}
