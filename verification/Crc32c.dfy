/** The bitwise CRC32C of the write-ahead log, and its burst-error guarantee.

    A 32-bit word is the sequence of its bits, least significant first, so a right
    shift drops the head and appends a zero, and exclusive-or is bit by bit. */
module Crc32c {

  type Byte = x: nat | x < 256
  type Bytes = seq<Byte>
  type Bits = seq<bool>
  type Word = w: Bits | |w| == 32 witness Repeat(false, 32)

  function Repeat(b: bool, n: nat): (bits: Bits)
    ensures |bits| == n && forall i | 0 <= i < n :: bits[i] == b
  {
    if n == 0 then [] else [b] + Repeat(b, n - 1)
  }

  function Value(bits: Bits): nat {
    if bits == [] then 0 else (if bits[0] then 1 else 0) + 2 * Value(bits[1..])
  }

  function Power2(n: nat): (p: nat)
    ensures p > 0
  {
    if n == 0 then 1 else 2 * Power2(n - 1)
  }

  /** Zero extension to 32 bits. */
  function Extend(bits: Bits): (w: Word)
    requires |bits| <= 32
  {
    bits + Repeat(false, 32 - |bits|)
  }

  function Xor(a: Bits, b: Bits): (r: Bits)
    requires |a| == |b|
    ensures |r| == |a| && forall i | 0 <= i < |r| :: r[i] == (a[i] != b[i])
  {
    if a == [] then [] else [a[0] != b[0]] + Xor(a[1..], b[1..])
  }

  /** One shift of the register: drop the low bit, and fold the polynomial back in
      when that bit was set. */
  function Shift(poly: Word, c: Word): (r: Word)
    ensures forall i | 0 <= i < 31 :: r[i] == (c[i + 1] != (c[0] && poly[i]))
    ensures r[31] == (c[0] && poly[31])
  {
    if c[0] then Xor(c[1..] + [false], poly) else c[1..] + [false]
  }

  function Shifts(poly: Word, c: Word, n: nat): Word
    decreases n
  {
    if n == 0 then c else Shifts(poly, Shift(poly, c), n - 1)
  }

  function ByteBits(b: Byte): (bits: Bits)
    ensures |bits| == 8
  {
    NibbleBits(b % 16) + NibbleBits(b / 16)
  }

  function NibbleBits(x: nat): (bits: Bits)
    ensures |bits| == 4
  {
    [x % 2 == 1, x / 2 % 2 == 1, x / 4 % 2 == 1, x / 8 % 2 == 1]
  }

  function ByteStep(poly: Word, c: Word, b: Byte): Word {
    var bits := ByteBits(b);
    Shifts(poly, Xor(c, Extend(bits)), |bits|)
  }

  function Register(poly: Word, c: Word, data: Bytes): Word
    decreases |data|
  {
    if data == [] then c else Register(poly, ByteStep(poly, c, data[0]), data[1..])
  }

  /** The reflected Castagnoli polynomial 0x82F63B78, low byte first. */
  const POLYNOMIAL: Word := ByteBits(0x78) + ByteBits(0x3B) + ByteBits(0xF6) + ByteBits(0x82)

  const ONES: Word := [
    true, true, true, true, true, true, true, true, true, true, true, true, true, true, true, true,
    true, true, true, true, true, true, true, true, true, true, true, true, true, true, true, true]

  function Checksum(data: Bytes): Word {
    Xor(Register(POLYNOMIAL, ONES, data), ONES)
  }

  /** The outer loop of the source, over the bytes. */
  method Compute(data: Bytes) returns (crc: Word)
    ensures crc == Checksum(data)
  {
    var register := ComputeRegister(POLYNOMIAL, ONES, data);
    crc := Xor(register, ONES);
  }

  method ComputeRegister(poly: Word, start: Word, data: Bytes) returns (crc: Word)
    ensures crc == Register(poly, start, data)
  {
    crc := start;
    var i := 0;
    while i < |data|
      invariant 0 <= i <= |data|
      invariant Register(poly, crc, data[i..]) == Register(poly, start, data)
    {
      crc := ComputeByte(poly, crc, data[i]);
      assert data[i..][1..] == data[i + 1..];
      i := i + 1;
    }
  }

  /** The inner loop, over the eight bits of a byte. */
  method ComputeByte(poly: Word, start: Word, b: Byte) returns (crc: Word)
    ensures crc == ByteStep(poly, start, b)
  {
    crc := Xor(start, Extend(ByteBits(b)));
    var k := 0;
    while k < 8
      invariant 0 <= k <= 8
      invariant Shifts(poly, crc, 8 - k) == ByteStep(poly, start, b)
    {
      crc := Shift(poly, crc);
      k := k + 1;
    }
  }

  // ------------------------------------------------------------------ numbers and bits

  lemma {:induction false} ValueInjective(a: Bits, b: Bits)
    requires |a| == |b| && Value(a) == Value(b)
    ensures a == b
  {
    if a != [] {
      ValueInjective(a[1..], b[1..]);
      assert a == [a[0]] + a[1..] && b == [b[0]] + b[1..];
    }
  }

  lemma {:induction false} ValueBound(a: Bits)
    ensures Value(a) < Power2(|a|)
  {
    if a != [] { ValueBound(a[1..]); }
  }

  lemma Powers()
    ensures Power2(32) == 0x1_0000_0000
  {
    assert Power2(8) == 256;
    assert Power2(16) == 65536;
    assert Power2(24) == 0x100_0000;
  }

  lemma WordBound(w: Word)
    ensures Value(w) < 0x1_0000_0000
  {
    ValueBound(w);
    Powers();
  }

  lemma PolynomialTopBit()
    ensures POLYNOMIAL[31]
  {
  }

  // ------------------------------------------------------------------ bit by bit

  function FeedBit(poly: Word, c: Word, bit: bool): Word {
    Shift(poly, c[0 := c[0] != bit])
  }

  function Feed(poly: Word, c: Word, bits: Bits): Word
    decreases |bits|
  {
    if bits == [] then c else Feed(poly, FeedBit(poly, c, bits[0]), bits[1..])
  }

  function AllBits(data: Bytes): (bits: Bits)
    ensures |bits| == 8 * |data|
  {
    if data == [] then [] else ByteBits(data[0]) + AllBits(data[1..])
  }

  lemma {:induction false} FeedConcat(poly: Word, c: Word, a: Bits, b: Bits)
    ensures Feed(poly, c, a + b) == Feed(poly, Feed(poly, c, a), b)
    decreases |a|
  {
    if a == [] {
      assert a + b == b;
    } else {
      assert (a + b)[1..] == a[1..] + b;
      FeedConcat(poly, FeedBit(poly, c, a[0]), a[1..], b);
    }
  }

  /** Mixing in up to 32 bits at once and then shifting is feeding them one by one. */
  lemma {:induction false} ShiftsAreFeed(poly: Word, c: Word, bits: Bits)
    requires |bits| <= 32
    ensures Shifts(poly, Xor(c, Extend(bits)), |bits|) == Feed(poly, c, bits)
    decreases |bits|
  {
    if bits == [] {
      assert Xor(c, Extend(bits)) == c;
    } else {
      var next := FeedBit(poly, c, bits[0]);
      ShiftMixed(poly, c, bits);
      ShiftsAreFeed(poly, next, bits[1..]);
    }
  }

  lemma ShiftMixed(poly: Word, c: Word, bits: Bits)
    requires 0 < |bits| <= 32
    ensures Shift(poly, Xor(c, Extend(bits))) == Xor(FeedBit(poly, c, bits[0]), Extend(bits[1..]))
  {
    var x, y := Xor(c, Extend(bits)), Extend(bits[1..]);
    var p, q := Shift(poly, x), FeedBit(poly, c, bits[0]);
    assert x[0] == c[0 := c[0] != bits[0]][0];
    forall i | 0 <= i < 32 ensures p[i] == (q[i] != y[i]) {
      if i < 31 { assert x[i + 1] == (c[i + 1] != y[i]); }
    }
  }

  lemma {:induction false} RegisterIsFeed(poly: Word, c: Word, data: Bytes)
    ensures Register(poly, c, data) == Feed(poly, c, AllBits(data))
    decreases |data|
  {
    if data != [] {
      ShiftsAreFeed(poly, c, ByteBits(data[0]));
      FeedConcat(poly, c, ByteBits(data[0]), AllBits(data[1..]));
      RegisterIsFeed(poly, ByteStep(poly, c, data[0]), data[1..]);
    }
  }

  // ------------------------------------------------------------------ burst errors

  lemma {:induction false} FeedInjective(poly: Word, x: Word, y: Word, bits: Bits)
    requires poly[31]
    requires Feed(poly, x, bits) == Feed(poly, y, bits)
    ensures x == y
    decreases |bits|
  {
    if bits != [] {
      FeedInjective(poly, FeedBit(poly, x, bits[0]), FeedBit(poly, y, bits[0]), bits[1..]);
      FeedBitBackwards(poly, x, bits[0], y, bits[0]);
      forall i | 0 <= i < 32 ensures x[i] == y[i] {
        if i > 0 { assert FeedBit(poly, x, bits[0])[i - 1] == FeedBit(poly, y, bits[0])[i - 1]; }
      }
    }
  }

  /** The top bit after a step is the low bit before it. */
  lemma FeedBitBackwards(poly: Word, x: Word, a: bool, y: Word, b: bool)
    requires poly[31] && FeedBit(poly, x, a)[31] == FeedBit(poly, y, b)[31]
    ensures (x[0] != a) == (y[0] != b)
    ensures forall i | 1 <= i < 32 ::
      (FeedBit(poly, x, a)[i - 1] == FeedBit(poly, y, b)[i - 1]) == (x[i] == y[i])
  {
    forall i | 1 <= i < 32
      ensures (FeedBit(poly, x, a)[i - 1] == FeedBit(poly, y, b)[i - 1]) == (x[i] == y[i])
    {
      var j := i - 1;
      assert x[j + 1] == x[i] && y[j + 1] == y[i];
      assert FeedBit(poly, x, a)[j] == (x[j + 1] != ((x[0] != a) && poly[j]));
      assert FeedBit(poly, y, b)[j] == (y[j + 1] != ((y[0] != b) && poly[j]));
    }
  }

  /** Two runs of at most 32 bits that end in the same register started in registers
      that differ exactly where their bits differ. */
  lemma {:induction false} FeedBackwards(poly: Word, x: Word, u: Bits, y: Word, v: Bits)
    requires poly[31] && |u| == |v| <= 32
    requires Feed(poly, x, u) == Feed(poly, y, v)
    ensures forall i | 0 <= i < 32 :: (x[i] == y[i]) == (i < |u| ==> u[i] == v[i])
    decreases |u|
  {
    if u != [] {
      var p, q := FeedBit(poly, x, u[0]), FeedBit(poly, y, v[0]);
      FeedBackwards(poly, p, u[1..], q, v[1..]);
      FeedBitBackwards(poly, x, u[0], y, v[0]);
      forall i | 0 <= i < 32 ensures (x[i] == y[i]) == (i < |u| ==> u[i] == v[i]) {
        if i > 0 {
          assert (p[i - 1] == q[i - 1]) == (i - 1 < |u| - 1 ==> u[1..][i - 1] == v[1..][i - 1]);
        }
      }
    }
  }

  /** Every difference between u and v lies within 32 consecutive bits, from bit k on. */
  ghost predicate BurstAt(u: Bits, v: Bits, k: nat) {
    |u| == |v| && forall i | 0 <= i < |u| && !(k <= i < k + 32) :: u[i] == v[i]
  }

  lemma BurstBits(poly: Word, c: Word, u: Bits, v: Bits, k: nat)
    requires poly[31] && BurstAt(u, v, k)
    requires Feed(poly, c, u) == Feed(poly, c, v)
    ensures u == v
  {
    var lo := if k < |u| then k else |u|;
    var hi := if k + 32 < |u| then k + 32 else |u|;
    OutsideEqual(u, v, lo, hi);
    MiddleEqual(poly, c, u, v, lo, hi);
    Rejoin(u, v, lo, hi);
  }

  lemma OutsideEqual(u: Bits, v: Bits, lo: nat, hi: nat)
    requires lo <= hi <= |u| == |v|
    requires forall i | 0 <= i < |u| && !(lo <= i < hi) :: u[i] == v[i]
    ensures u[..lo] == v[..lo] && u[hi..] == v[hi..]
  {
  }

  lemma Rejoin(u: Bits, v: Bits, lo: nat, hi: nat)
    requires lo <= hi <= |u| == |v|
    requires u[..lo] == v[..lo] && u[lo..hi] == v[lo..hi] && u[hi..] == v[hi..]
    ensures u == v
  {
    assert u == u[..lo] + u[lo..hi] + u[hi..];
    assert v == v[..lo] + v[lo..hi] + v[hi..];
  }

  lemma MiddleEqual(poly: Word, c: Word, u: Bits, v: Bits, lo: nat, hi: nat)
    requires poly[31] && |u| == |v| && lo <= hi <= |u| && hi - lo <= 32
    requires u[..lo] == v[..lo] && u[hi..] == v[hi..]
    requires Feed(poly, c, u) == Feed(poly, c, v)
    ensures u[lo..hi] == v[lo..hi]
  {
    FeedInThree(poly, c, u, lo, hi);
    FeedInThree(poly, c, v, lo, hi);
    var d := Feed(poly, c, u[..lo]);
    FeedInjective(poly, Feed(poly, d, u[lo..hi]), Feed(poly, d, v[lo..hi]), u[hi..]);
    BurstWindow(poly, d, u[lo..hi], v[lo..hi]);
  }

  lemma FeedInThree(poly: Word, c: Word, u: Bits, lo: nat, hi: nat)
    requires lo <= hi <= |u|
    ensures Feed(poly, c, u) == Feed(poly, Feed(poly, Feed(poly, c, u[..lo]), u[lo..hi]), u[hi..])
  {
    assert u == u[..lo] + u[lo..] && u[lo..] == u[lo..hi] + u[hi..];
    FeedConcat(poly, c, u[..lo], u[lo..]);
    FeedConcat(poly, Feed(poly, c, u[..lo]), u[lo..hi], u[hi..]);
  }

  lemma BurstWindow(poly: Word, d: Word, u: Bits, v: Bits)
    requires poly[31] && |u| == |v| <= 32 && Feed(poly, d, u) == Feed(poly, d, v)
    ensures u == v
  {
    FeedBackwards(poly, d, u, d, v);
    forall i | 0 <= i < |u| ensures u[i] == v[i] {
      assert d[i] == d[i];
    }
  }

  /** CRC32C detects every burst: texts that differ, but only within 32 consecutive
      bits, never share a checksum. */
  lemma BurstDetected(a: Bytes, b: Bytes, k: nat)
    requires |a| == |b| && a != b && BurstAt(AllBits(a), AllBits(b), k)
    ensures Checksum(a) != Checksum(b)
  {
    if Checksum(a) == Checksum(b) {
      SameChecksum(a, b, k);
    }
  }

  lemma SameChecksum(a: Bytes, b: Bytes, k: nat)
    requires |a| == |b| && BurstAt(AllBits(a), AllBits(b), k) && Checksum(a) == Checksum(b)
    ensures a == b
  {
    PolynomialTopBit();
    XorInjective(Register(POLYNOMIAL, ONES, a), Register(POLYNOMIAL, ONES, b), ONES);
    RegisterIsFeed(POLYNOMIAL, ONES, a);
    RegisterIsFeed(POLYNOMIAL, ONES, b);
    BurstBits(POLYNOMIAL, ONES, AllBits(a), AllBits(b), k);
    AllBitsInjective(a, b);
  }

  lemma XorInjective(x: Word, y: Word, z: Word)
    requires Xor(x, z) == Xor(y, z)
    ensures x == y
  {
    forall i | 0 <= i < 32 ensures x[i] == y[i] {
      assert Xor(x, z)[i] == Xor(y, z)[i];
    }
  }

  lemma {:induction false} AllBitsInjective(a: Bytes, b: Bytes)
    requires |a| == |b| && AllBits(a) == AllBits(b)
    ensures a == b
  {
    if a != [] {
      assert AllBits(a)[..8] == ByteBits(a[0]) && AllBits(b)[..8] == ByteBits(b[0]);
      assert AllBits(a)[8..] == AllBits(a[1..]) && AllBits(b)[8..] == AllBits(b[1..]);
      ByteBitsInjective(a[0], b[0]);
      AllBitsInjective(a[1..], b[1..]);
      assert a == [a[0]] + a[1..] && b == [b[0]] + b[1..];
    }
  }

  lemma ByteBitsInjective(a: Byte, b: Byte)
    requires ByteBits(a) == ByteBits(b)
    ensures a == b
  {
    assert ByteBits(a)[..4] == NibbleBits(a % 16) && ByteBits(b)[..4] == NibbleBits(b % 16);
    assert ByteBits(a)[4..] == NibbleBits(a / 16) && ByteBits(b)[4..] == NibbleBits(b / 16);
    NibbleBitsInjective(a % 16, b % 16);
    NibbleBitsInjective(a / 16, b / 16);
  }

  lemma NibbleBitsInjective(x: nat, y: nat)
    requires x < 16 && y < 16 && NibbleBits(x) == NibbleBits(y)
    ensures x == y
  {
    var s, t := NibbleBits(x), NibbleBits(y);
    assert s[0] == t[0] && s[1] == t[1] && s[2] == t[2] && s[3] == t[3];
  }

  /** In particular any damage confined to four consecutive bytes is a burst. */
  lemma FourBytesAreBurst(a: Bytes, b: Bytes, k: nat)
    requires |a| == |b| && forall i | 0 <= i < |a| && !(k <= i < k + 4) :: a[i] == b[i]
    ensures BurstAt(AllBits(a), AllBits(b), 8 * k)
  {
    forall i | 0 <= i < 8 * |a| && !(8 * k <= i < 8 * k + 32)
      ensures AllBits(a)[i] == AllBits(b)[i]
    {
      var j := i / 8;
      assert !(k <= j < k + 4);
      SameBit(a, b, i);
    }
  }

  lemma SameBit(a: Bytes, b: Bytes, i: nat)
    requires |a| == |b| && i < 8 * |a| && a[i / 8] == b[i / 8]
    ensures AllBits(a)[i] == AllBits(b)[i]
  {
    var j, t := i / 8, i % 8;
    assert i == 8 * j + t;
    BitOfByte(a, j, t);
    BitOfByte(b, j, t);
  }

  lemma {:induction false} BitOfByte(a: Bytes, j: nat, t: nat)
    requires j < |a| && t < 8
    ensures AllBits(a)[8 * j + t] == ByteBits(a[j])[t]
  {
    var head, tail := ByteBits(a[0]), AllBits(a[1..]);
    assert AllBits(a) == head + tail;
    if j > 0 {
      BitOfByte(a[1..], j - 1, t);
      assert (head + tail)[8 * j + t] == tail[8 * (j - 1) + t];
    }
  }

  // ------------------------------------------------------------------ long division

  /** The generator of section 12.1 of RFC 3720, 0x11EDC6F41, by its exponents; the first bit
      is the coefficient of the highest power. */
  ghost predicate IsGenerator(g: Bits) {
    |g| == 33 && forall i | 0 <= i < 33 ::
      g[i] <==> 32 - i in {32, 28, 27, 26, 25, 23, 22, 20, 19, 18, 14, 13, 11, 10, 9, 8, 6, 0}
  }

  /** Schoolbook division of polynomials over two elements, highest power first: what is left
      when fewer powers than the divisor has are left. */
  function Remainder(g: Bits, s: Bits): Bits
    requires |g| == 33
    decreases |s|
  {
    if |s| <= 32 then s
    else Remainder(g, if s[0] then Xor(s[1..33], g[1..]) + s[33..] else s[1..])
  }

  /** Exclusive-or into the first 32 bits. */
  function Front(c: Word, s: Bits): (r: Bits)
    requires |s| >= 32
    ensures |r| == |s|
    ensures forall i | 0 <= i < |s| :: r[i] == if i < 32 then s[i] != c[i] else s[i]
  {
    Xor(c, s[..32]) + s[32..]
  }

  const ZEROS: Word := Repeat(false, 32)

  /** Feeding bits is dividing them, moved up 32 places, by the generator. */
  lemma {:induction false} FeedDivides(g: Bits, c: Word, bits: Bits)
    requires |g| == 33 && g[0]
    ensures Feed(g[1..], c, bits) == Remainder(g, Front(c, bits + ZEROS))
    decreases |bits|
  {
    if bits == [] {
      assert Front(c, bits + ZEROS) == c;
    } else {
      FeedDivides(g, FeedBit(g[1..], c, bits[0]), bits[1..]);
      OneDivision(g, c, bits);
    }
  }

  lemma OneDivision(g: Bits, c: Word, bits: Bits)
    requires |g| == 33 && g[0] && bits != []
    ensures var s := Front(c, bits + ZEROS);
      (if s[0] then Xor(s[1..33], g[1..]) + s[33..] else s[1..])
        == Front(FeedBit(g[1..], c, bits[0]), bits[1..] + ZEROS)
  {
    hide Feed;
    var s := Front(c, bits + ZEROS);
    var left := if s[0] then Xor(s[1..33], g[1..]) + s[33..] else s[1..];
    var next := FeedBit(g[1..], c, bits[0]);
    var t := Front(next, bits[1..] + ZEROS);
    assert s[0] == (c[0] != bits[0]);
    forall i | 0 <= i < |t| ensures left[i] == t[i] {
      assert (bits + ZEROS)[i + 1] == (bits[1..] + ZEROS)[i];
      if i < 31 {
        assert next[i] == (c[i + 1] != (s[0] && g[1..][i]));
      }
    }
  }

  lemma PolynomialBytes()
    ensures ByteBits(0x78) == [false, false, false, true, true, true, true, false]
    ensures ByteBits(0x3B) == [true, true, false, true, true, true, false, false]
    ensures ByteBits(0xF6) == [false, true, true, false, true, true, true, true]
    ensures ByteBits(0x82) == [false, true, false, false, false, false, false, true]
  {
  }

  lemma PolynomialIsGenerator()
    ensures IsGenerator([true] + POLYNOMIAL)
  {
    hide ByteBits;
    PolynomialBytes();
    var g := [true] + POLYNOMIAL;
    assert g[1..9] == ByteBits(0x78) && g[9..17] == ByteBits(0x3B) && g[17..25] == ByteBits(0xF6) && g[25..33] == ByteBits(0x82);
    forall i | 0 <= i < 33
      ensures g[i] <==> 32 - i in {32, 28, 27, 26, 25, 23, 22, 20, 19, 18, 14, 13, 11, 10, 9, 8, 6, 0}
    {
      if 1 <= i < 9 { assert g[i] == g[1..9][i - 1]; }
      else if 9 <= i < 17 { assert g[i] == g[9..17][i - 9]; }
      else if 17 <= i < 25 { assert g[i] == g[17..25][i - 17]; }
      else if 25 <= i { assert g[i] == g[25..33][i - 25]; }
    }
  }

  /** The checksum of RFC 3720: the message, low bit of each byte first, moved up 32 places and
      with its first 32 bits inverted, divided by the generator; the remainder inverted. */
  lemma ChecksumIsRemainder(data: Bytes, g: Bits)
    requires IsGenerator(g)
    ensures var r := Remainder(g, Front(ONES, AllBits(data) + ZEROS));
      |r| == 32 && forall i | 0 <= i < 32 :: Checksum(data)[i] == !r[i]
  {
    hide Feed, Remainder, Register, AllBits, Front, IsGenerator, Xor, Repeat;
    GeneratorIs(g);
    RegisterIsFeed(POLYNOMIAL, ONES, data);
    FeedDivides(g, ONES, AllBits(data));
    Complement(Register(POLYNOMIAL, ONES, data));
  }

  lemma Complement(w: Word)
    ensures forall i | 0 <= i < 32 :: Xor(w, ONES)[i] == !w[i]
  {
    assert forall i | 0 <= i < 32 :: ONES[i];
  }

  lemma GeneratorIs(g: Bits)
    requires IsGenerator(g)
    ensures |g| == 33 && g[0] && g[1..] == POLYNOMIAL
  {
    hide ByteBits;
    PolynomialIsGenerator();
    var p := [true] + POLYNOMIAL;
    assert forall i | 0 <= i < 33 :: g[i] == p[i];
    assert p[1..] == POLYNOMIAL;
    assert g == p;
  }

  lemma NibbleValue(x: nat)
    requires x < 16
    ensures Value(NibbleBits(x)) == x
  {
    var s := NibbleBits(x);
    assert x / 4 == x / 2 / 2 && x / 8 == x / 4 / 2 && x / 8 < 2;
    assert x == x % 2 + 2 * (x / 2) && x / 2 == x / 2 % 2 + 2 * (x / 4) && x / 4 == x / 4 % 2 + 2 * (x / 8);
    FourBits(s[0], s[1], s[2], s[3]);
    assert s == [s[0], s[1], s[2], s[3]];
  }

  lemma FourBits(a: bool, b: bool, c: bool, d: bool)
    ensures Value([a, b, c, d])
      == (if a then 1 else 0) + (if b then 2 else 0) + (if c then 4 else 0) + (if d then 8 else 0)
  {
    assert [a, b, c, d][1..] == [b, c, d] && [b, c, d][1..] == [c, d] && [c, d][1..] == [d] && [d][1..] == [];
    assert Value([d]) == if d then 1 else 0;
    assert Value([c, d]) == (if c then 1 else 0) + 2 * Value([d]);
    assert Value([b, c, d]) == (if b then 1 else 0) + 2 * Value([c, d]);
  }

  lemma {:induction false} ValueBoth(a: Bits, b: Bits)
    ensures Value(a + b) == Value(a) + Power2(|a|) * Value(b)
    decreases |a|
  {
    if a == [] {
      assert a + b == b;
    } else {
      assert (a + b)[0] == a[0] && (a + b)[1..] == a[1..] + b;
      ValueBoth(a[1..], b);
      Doubled(Value(a[1..]), Power2(|a| - 1), Value(b));
    }
  }

  lemma Doubled(low: nat, scale: nat, high: nat)
    ensures 2 * (low + scale * high) == 2 * low + (2 * scale) * high
  {
  }

  /** Eight bits, low one first. */
  lemma ByteValue(b: Byte)
    ensures Value(ByteBits(b)) == b
  {
    hide Value;
    NibbleValue(b % 16);
    NibbleValue(b / 16);
    ValueBoth(NibbleBits(b % 16), NibbleBits(b / 16));
    assert Power2(2) == 4;
  }

  lemma {:induction false} AllBitsAre(data: Bytes, i: nat)
    requires i < |data|
    ensures Value(AllBits(data)[8 * i..8 * i + 8]) == data[i]
    decreases i
  {
    hide ByteBits, Value;
    if i == 0 {
      assert AllBits(data)[0..8] == ByteBits(data[0]);
      ByteValue(data[0]);
    } else {
      assert AllBits(data)[8 * i..8 * i + 8] == AllBits(data[1..])[8 * (i - 1)..8 * (i - 1) + 8];
      AllBitsAre(data[1..], i - 1);
    }
  }
}
