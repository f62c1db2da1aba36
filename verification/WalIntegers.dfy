/** Little-endian integers and the 64-bit conversions of the log codec. */
module WalIntegers {
  import opened Crc32c

  const U32: nat := 0x1_0000_0000
  const U64: nat := 0x1_0000_0000_0000_0000

  type Word64 = x: nat | x < U64
  type Signed64 = x: int | -0x8000_0000_0000_0000 <= x < 0x8000_0000_0000_0000

  function Power256(n: nat): (p: nat)
    ensures p > 0
  {
    if n == 0 then 1 else 256 * Power256(n - 1)
  }

  function PutLe(v: nat, n: nat): (bytes: Bytes)
    ensures |bytes| == n
    decreases n
  {
    if n == 0 then [] else [v % 256] + PutLe(v / 256, n - 1)
  }

  function GetLe(bytes: Bytes): (v: nat) {
    if bytes == [] then 0 else bytes[0] + 256 * GetLe(bytes[1..])
  }

  lemma {:induction false} LittleEndianRoundTrip(v: nat, n: nat)
    requires v < Power256(n)
    ensures GetLe(PutLe(v, n)) == v
  {
    if n > 0 { LittleEndianRoundTrip(v / 256, n - 1); }
  }

  lemma {:induction false} LittleEndianBound(bytes: Bytes)
    ensures GetLe(bytes) < Power256(|bytes|)
  {
    if bytes != [] { LittleEndianBound(bytes[1..]); }
  }

  /** Writing undoes reading. */
  lemma {:induction false} LittleEndianUnique(bytes: Bytes)
    ensures PutLe(GetLe(bytes), |bytes|) == bytes
  {
    if bytes != [] {
      LittleEndianUnique(bytes[1..]);
      assert GetLe(bytes) % 256 == bytes[0] && GetLe(bytes) / 256 == GetLe(bytes[1..]);
      assert bytes == [bytes[0]] + bytes[1..];
    }
  }

  /** Bytes read one after the other: the later ones weigh more. */
  lemma {:induction false} GetLeBoth(a: Bytes, b: Bytes)
    ensures GetLe(a + b) == GetLe(a) + Power256(|a|) * GetLe(b)
    decreases |a|
  {
    if a == [] {
      assert a + b == b;
    } else {
      assert (a + b)[0] == a[0] && (a + b)[1..] == a[1..] + b;
      GetLeBoth(a[1..], b);
      Weighed(GetLe(a[1..]), Power256(|a| - 1), GetLe(b));
    }
  }

  lemma Weighed(low: nat, scale: nat, high: nat)
    ensures 256 * (low + scale * high) == 256 * low + (256 * scale) * high
  {
  }

  lemma {:induction false} PutLePrefix(v: nat, n: nat, k: nat)
    requires k <= n
    ensures PutLe(v, n)[..k] == PutLe(v, k)
    decreases n
  {
    if k > 0 { PutLePrefix(v / 256, n - 1, k - 1); }
  }

  /** The low byte first: byte k is the k-th base-256 digit. */
  lemma {:induction false} PutLeBytes(v: nat, n: nat, k: nat)
    requires k < n
    ensures PutLe(v, n)[k] == v / Power256(k) % 256
    decreases k
  {
    if k > 0 {
      PutLeBytes(v / 256, n - 1, k - 1);
      Quotients(v, Power256(k - 1));
    }
  }

  lemma Quotients(v: nat, scale: nat)
    requires scale > 0
    ensures v / 256 / scale == v / (256 * scale)
  {
    var q, r := v / 256 / scale, v / 256 % scale;
    assert v / 256 == q * scale + r;
    assert v == 256 * (v / 256) + v % 256;
    assert v == q * (256 * scale) + (256 * r + v % 256) by {
      assert 256 * (q * scale + r) == q * (256 * scale) + 256 * r;
    }
    QuotientIs(v, 256 * scale, q, 256 * r + v % 256);
  }

  lemma QuotientIs(v: nat, d: nat, q: nat, r: nat)
    requires r < d && v == q * d + r
    ensures v / d == q
  {
    var p := v / d;
    assert v == p * d + v % d;
    MoreTimes(p, q, d);
    MoreTimes(q, p, d);
  }

  lemma MoreTimes(a: nat, b: nat, d: nat)
    ensures a < b ==> (a + 1) * d <= b * d
  {
  }

  lemma FourBytes(a: Byte, b: Byte, c: Byte, d: Byte)
    ensures GetLe([a, b, c, d]) == a + 0x100 * b + 0x1_0000 * c + 0x100_0000 * d
  {
    assert [a, b, c, d][1..] == [b, c, d] && [b, c, d][1..] == [c, d] && [c, d][1..] == [d] && [d][1..] == [];
    assert GetLe([d]) == d;
    assert GetLe([c, d]) == c + 256 * GetLe([d]);
    assert GetLe([b, c, d]) == b + 256 * GetLe([c, d]);
  }

  lemma Widths()
    ensures Power256(4) == U32 && Power256(8) == U64
  {
    assert Power256(2) == 65536;
    assert Power256(4) == U32;
    assert Power256(6) == 0x1_0000_0000_0000;
  }

  lemma FieldRoundTrip(v: nat)
    requires v < U32
    ensures GetLe(PutLe(v, 4)) == v
  {
    Widths();
    LittleEndianRoundTrip(v, 4);
  }

  /** The shift-and-mask loop that appends an integer. */
  method AppendLe(out: Bytes, v: nat, n: nat) returns (r: Bytes)
    ensures r == out + PutLe(v, n)
  {
    r := out;
    var rest := v;
    var i := 0;
    while i < n
      invariant 0 <= i <= n
      invariant r + PutLe(rest, n - i) == out + PutLe(v, n)
    {
      assert r + PutLe(rest, n - i) == r + [rest % 256] + PutLe(rest / 256, n - i - 1);
      r := r + [rest % 256];
      rest := rest / 256;
      i := i + 1;
    }
    assert r + [] == r;
  }

  /** The shift-and-or loop that reads one back. The bytes or-ed in occupy disjoint
      bits, so or is addition. */
  method ReadLe(bytes: Bytes) returns (v: nat)
    ensures v == GetLe(bytes)
  {
    v := 0;
    var scale: nat := 1;
    var i := 0;
    while i < |bytes|
      invariant 0 <= i <= |bytes|
      invariant v + scale * GetLe(bytes[i..]) == GetLe(bytes)
    {
      assert bytes[i..][1..] == bytes[i + 1..];
      Scaled(scale, bytes[i], GetLe(bytes[i + 1..]));
      v := v + scale * bytes[i];
      scale := 256 * scale;
      i := i + 1;
    }
  }

  lemma Scaled(scale: nat, low: nat, high: nat)
    ensures scale * (low + 256 * high) == scale * low + (256 * scale) * high
  {
  }

  /** Division toward zero, as a duration cast does it. */
  function Truncate(x: int, d: int): int
    requires d > 0
  {
    if x >= 0 then x / d else -(-x / d)
  }

  /** Reduction to a 64-bit two's complement integer. */
  function Wrap(x: int): Signed64 {
    var u := x % U64;
    if u < U64 / 2 then u else u - U64
  }
}
