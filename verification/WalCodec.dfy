/** The on-disk form of the write-ahead log: the fields of one record and
    the frame they travel in. */
module WalCodec {
  import opened Basics
  import opened Crc32c
  import opened WalFraming
  import opened WalIntegers

  /** One write. Timestamps are the clock's nanosecond ticks. */
  datatype Record = Record(
    endpointId: Word64,
    tableId: Word64,
    op: Byte,
    rowVersion: Word64,
    timestamp: Signed64,
    primaryKey: Bytes,
    idempotencyKey: Bytes,
    rowBytes: Bytes)

  /** A record together with the sequence number it was logged under. */
  datatype Entry = Entry(sequence: Word64, record: Record)

  function Text(s: Bytes): Bytes {
    PutLe(|s|, 4) + s
  }

  function Fixed(e: Entry): (bytes: Bytes)
    ensures |bytes| == 41
  {
    PutLe(e.sequence, 8) + PutLe(e.record.endpointId, 8) + PutLe(e.record.tableId, 8)
    + [e.record.op] + PutLe(e.record.rowVersion, 8)
    + PutLe(Truncate(e.record.timestamp, 1000) % U64, 8)
  }

  function Body(e: Entry): Bytes {
    Fixed(e) + (Text(e.record.primaryKey) + (Text(e.record.idempotencyKey) + Text(e.record.rowBytes)))
  }

  function Crc(checked: bool, body: Bytes): nat {
    if checked then Sum(body) else 0
  }

  function FrameOf(checked: bool, e: Entry): Frame {
    var body := Body(e);
    Frame(PutLe(8 + |body|, 4), PutLe(Crc(checked, body), 4), body)
  }

  function ReadText(data: Bytes): Option<(Bytes, Bytes)> {
    if |data| < 4 then None else
    var n := GetLe(data[..4]);
    if 4 + n > |data| then None else Some((data[4..4 + n], data[4 + n..]))
  }

  function U64At(data: Bytes, k: nat): Word64
    requires k + 8 <= |data|
  {
    LittleEndianBound(data[k..k + 8]);
    Widths();
    GetLe(data[k..k + 8])
  }

  /** The fields of a record body, or nothing when the body is too short for them. */
  function Decode(body: Bytes): Option<Entry> {
    if |body| < 41 then None else
    var pk := ReadText(body[41..]);
    if pk.None? then None else
    var idem := ReadText(pk.value.1);
    if idem.None? then None else
    var row := ReadText(idem.value.1);
    if row.None? then None else
    Some(Entry(U64At(body, 0),
      Record(U64At(body, 8), U64At(body, 16), body[24], U64At(body, 25),
        Wrap(Wrap(U64At(body, 33)) * 1000), pk.value.0, idem.value.0, row.value.0)))
  }

  /** The whole microseconds of a nanosecond time, toward zero: a multiple of 1000 of the same
      sign, or zero, and less than 1000 nearer to zero. */
  ghost predicate WholeMicros(t: int, x: int) {
    && t % 1000 == 0
    && (x >= 0 ==> 0 <= t <= x < t + 1000)
    && (x <= 0 ==> t - 1000 < x <= t <= 0)
  }

  /** The same entry, with the nanoseconds of its timestamp gone. */
  ghost predicate SameToTheMicrosecond(d: Entry, e: Entry) {
    && d == e.(record := e.record.(timestamp := d.record.timestamp))
    && WholeMicros(d.record.timestamp, e.record.timestamp)
  }

  function AtMicroseconds(e: Entry): (d: Entry)
    ensures SameToTheMicrosecond(d, e)
  {
    TruncateShrinks(e.record.timestamp);
    e.(record := e.record.(timestamp := Truncate(e.record.timestamp, 1000) * 1000))
  }

  /** The sizes fit the 32-bit length fields. */
  predicate Fits(e: Entry) {
    8 + |Body(e)| < U32
  }

  lemma ReadBackText(s: Bytes, rest: Bytes)
    requires |s| < U32
    ensures ReadText(Text(s) + rest) == Some((s, rest))
  {
    var data := Text(s) + rest;
    Widths();
    LittleEndianRoundTrip(|s|, 4);
    assert data[..4] == PutLe(|s|, 4);
    assert data[4..4 + |s|] == s && data[4 + |s|..] == rest;
  }

  lemma FixedFields(e: Entry, rest: Bytes)
    ensures var body := Fixed(e) + rest;
      && U64At(body, 0) == e.sequence
      && U64At(body, 8) == e.record.endpointId
      && U64At(body, 16) == e.record.tableId
      && body[24] == e.record.op
      && U64At(body, 25) == e.record.rowVersion
      && U64At(body, 33) == Truncate(e.record.timestamp, 1000) % U64
      && body[41..] == rest
  {
    var body := Fixed(e) + rest;
    var r := e.record;
    var ts := Truncate(r.timestamp, 1000) % U64;
    Widths();
    LittleEndianRoundTrip(e.sequence, 8);
    LittleEndianRoundTrip(r.endpointId, 8);
    LittleEndianRoundTrip(r.tableId, 8);
    LittleEndianRoundTrip(r.rowVersion, 8);
    LittleEndianRoundTrip(ts, 8);
    Cuts(PutLe(e.sequence, 8), PutLe(r.endpointId, 8), PutLe(r.tableId, 8), r.op,
      PutLe(r.rowVersion, 8), PutLe(ts, 8), rest);
  }

  lemma Cuts(a: Bytes, b: Bytes, c: Bytes, op: Byte, d: Bytes, f: Bytes, rest: Bytes)
    requires |a| == |b| == |c| == |d| == |f| == 8
    ensures var all := a + b + c + [op] + d + f + rest;
      && all[0..8] == a && all[8..16] == b && all[16..24] == c && all[24] == op
      && all[25..33] == d && all[33..41] == f && all[41..] == rest
  {
    var all := a + b + c + [op] + d + f + rest;
    assert all[0..8] == a && all[8..16] == b && all[16..24] == c;
    assert all[25..33] == d && all[33..41] == f && all[41..] == rest;
  }

  lemma WrapIsIdentity(x: Signed64)
    ensures Wrap(x) == x && Wrap(x % U64) == x
  {
  }

  lemma TruncateShrinks(x: Signed64)
    ensures -0x8000_0000_0000_0000 <= Truncate(x, 1000) * 1000 < 0x8000_0000_0000_0000
    ensures -0x8000_0000_0000_0000 <= Truncate(x, 1000) < 0x8000_0000_0000_0000
    ensures WholeMicros(Truncate(x, 1000) * 1000, x)
  {
  }

  /** Decoding undoes encoding, at microsecond timestamps. */
  lemma DecodeBody(e: Entry)
    requires Fits(e)
    ensures Decode(Body(e)) == Some(AtMicroseconds(e))
    ensures Decode(Body(e)).Some? && SameToTheMicrosecond(Decode(Body(e)).value, e)
  {
    hide PutLe, GetLe;
    var r := e.record;
    var rowText := Text(r.rowBytes);
    var idemText := Text(r.idempotencyKey) + rowText;
    FixedFields(e, Text(r.primaryKey) + idemText);
    ReadBackText(r.primaryKey, idemText);
    ReadBackText(r.idempotencyKey, rowText);
    ReadBackText(r.rowBytes, []);
    assert rowText + [] == rowText;
    TruncateShrinks(r.timestamp);
    WrapIsIdentity(Truncate(r.timestamp, 1000));
    WrapIsIdentity(Truncate(r.timestamp, 1000) * 1000);
  }

  function LogCodec(checked: bool): Codec<Entry> {
    Codec(checked, GetLe, Sum, Decode)
  }

  function Sum(body: Bytes): nat {
    Value(Checksum(body))
  }

  /** What a record is framed as reads back as that record. */
  lemma FrameReads(checked: bool, e: Entry)
    requires Fits(e)
    ensures LogCodec(checked).Reads(FrameOf(checked, e), AtMicroseconds(e))
  {
    hide PutLe, GetLe, Decode, Body;
    DecodeBody(e);
    CrcField(checked, Body(e));
    FieldRoundTrip(8 + |Body(e)|);
  }

  lemma CrcField(checked: bool, body: Bytes)
    ensures GetLe(PutLe(Crc(checked, body), 4)) == Crc(checked, body)
  {
    if checked { WordBound(Checksum(body)); }
    FieldRoundTrip(Crc(checked, body));
  }

  /** With checksums on, a body damaged within 32 consecutive bits is never accepted. */
  lemma DamageDetected(e: Entry, body: Bytes, k: nat)
    requires Fits(e) && |body| == |Body(e)| && body != Body(e)
    requires BurstAt(AllBits(body), AllBits(Body(e)), k)
    ensures var bad := FrameOf(true, e).(body := body);
      LogCodec(true).Sized(bad) && Sum(body) != GetLe(bad.crc)
  {
    FrameReads(true, e);
    BurstDetected(body, Body(e), k);
    if Sum(body) == Sum(Body(e)) {
      ValueInjective(Checksum(body), Checksum(Body(e)));
    }
  }
}
