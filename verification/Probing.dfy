/** Probe windows of the open-addressed tables. */
module Probing {

  /** The i-th slot of a probe window. Table sizes are powers of two, so masking the
      wrapped sum of hash and index is this remainder. */
  function Pos(h: nat, i: nat, n: nat): (p: nat)
    requires n > 0
    ensures p < n
  {
    (h + i) % n
  }

  /** A window is the slots from the hash's own on, one after the other and around the end. */
  lemma WindowIs(h: nat, i: nat, n: nat)
    requires n > 0
    ensures Pos(h, 0, n) == h % n
    ensures Pos(h, i + 1, n) == if Pos(h, i, n) == n - 1 then 0 else Pos(h, i, n) + 1
  {
    var q, p := (h + i) / n, (h + i) % n;
    assert h + i == q * n + p;
    if p == n - 1 {
      assert h + i + 1 == (q + 1) * n;
      Remainder(h + i + 1, n, q + 1, 0);
    } else {
      Remainder(h + i + 1, n, q, p + 1);
    }
  }

  lemma Remainder(x: nat, n: nat, q: nat, r: nat)
    requires r < n && x == q * n + r
    ensures x % n == r
  {
    var p := x / n;
    assert x == p * n + x % n;
    Multiples(p, q, n);
    Multiples(q, p, n);
  }

  lemma Multiples(a: nat, b: nat, n: nat)
    ensures a < b ==> (a + 1) * n <= b * n
  {
  }
}
