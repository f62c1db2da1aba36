/** A log record byte by byte: where every field stands on disk, and which bodies decode. */
module WalBytes {
  import opened Basics
  import opened Crc32c
  import opened WalFraming
  import opened WalIntegers
  import opened WalCodec

  /** A signed number in 64 bits. */
  function TwosComplement(u: nat): int {
    if u < 0x8000_0000_0000_0000 then u else u - 0x1_0000_0000_0000_0000
  }

  /** A text behind its length. */
  ghost predicate TextStands(b: Bytes, p: nat, s: Bytes) {
    p + 4 + |s| <= |b| && GetLe(b[p..p + 4]) == |s| && b[p + 4..p + 4 + |s|] == s
  }

  lemma TextBytes(b: Bytes, p: nat, s: Bytes, rest: Bytes)
    requires p <= |b| && b[p..] == Text(s) + rest && |s| < U32
    ensures TextStands(b, p, s) && b[p + 4 + |s|..] == rest
  {
    hide PutLe, GetLe;
    FieldRoundTrip(|s|);
    assert b[p..p + 4] == b[p..][..4] == PutLe(|s|, 4);
    assert b[p + 4..p + 4 + |s|] == b[p..][4..4 + |s|] == s;
    assert b[p + 4 + |s|..] == b[p..][4 + |s|..] == rest;
  }

  /** The record on disk: total length, checksum of what follows it, the fixed fields at their
      offsets, and three texts, each behind its length. */
  lemma RecordBytes(checked: bool, e: Entry)
    requires Fits(e)
    ensures var b, r := FrameOf(checked, e).Bytes(), e.record;
      && |b| >= 49 && GetLe(b[0..4]) == |b| && GetLe(b[4..8]) == (if checked then Value(Checksum(b[8..])) else 0)
      && GetLe(b[8..16]) == e.sequence && GetLe(b[16..24]) == r.endpointId && GetLe(b[24..32]) == r.tableId
      && b[32] == r.op && GetLe(b[33..41]) == r.rowVersion
      && WholeMicros(TwosComplement(GetLe(b[41..49])) * 1000, r.timestamp)
    ensures var b, r := FrameOf(checked, e).Bytes(), e.record;
      var i := 53 + |r.primaryKey|;
      var k := i + 4 + |r.idempotencyKey|;
      TextStands(b, 49, r.primaryKey) && TextStands(b, i, r.idempotencyKey)
      && TextStands(b, k, r.rowBytes) && |b| == k + 4 + |r.rowBytes|
  {
    hide PutLe, GetLe, Value, Checksum, Fixed, TextStands, Text;
    var f, r := FrameOf(checked, e), e.record;
    var body := Body(e);
    WalFraming.Cuts(f, []);
    assert f.Bytes() + [] == f.Bytes();
    var b := f.Bytes();
    assert b[8..] == body && b[0..4] == b[..4];
    FieldRoundTrip(8 + |body|);
    CrcField(checked, body);
    var texts := Text(r.primaryKey) + (Text(r.idempotencyKey) + Text(r.rowBytes));
    FixedStand(e, texts, b);
    TextsStand(r, b);
  }

  lemma FixedStand(e: Entry, texts: Bytes, b: Bytes)
    requires |b| >= 8 && b[8..] == Fixed(e) + texts
    ensures |b| >= 49 && GetLe(b[8..16]) == e.sequence && GetLe(b[16..24]) == e.record.endpointId
    ensures GetLe(b[24..32]) == e.record.tableId && b[32] == e.record.op && GetLe(b[33..41]) == e.record.rowVersion
    ensures WholeMicros(TwosComplement(GetLe(b[41..49])) * 1000, e.record.timestamp)
    ensures b[49..] == texts
  {
    hide PutLe, GetLe, Fixed;
    var body := Fixed(e) + texts;
    FixedFields(e, texts);
    assert b[8..16] == body[0..8] && b[16..24] == body[8..16] && b[24..32] == body[16..24];
    assert b[32] == body[24] && b[33..41] == body[25..33] && b[41..49] == body[33..41] && b[49..] == body[41..];
    TruncateShrinks(e.record.timestamp);
  }

  lemma TextsStand(r: Record, b: Bytes)
    requires |b| >= 49 && b[49..] == Text(r.primaryKey) + (Text(r.idempotencyKey) + Text(r.rowBytes))
    requires |b| < U32
    ensures var i := 53 + |r.primaryKey|;
      var k := i + 4 + |r.idempotencyKey|;
      TextStands(b, 49, r.primaryKey) && TextStands(b, i, r.idempotencyKey)
      && TextStands(b, k, r.rowBytes) && |b| == k + 4 + |r.rowBytes|
  {
    hide PutLe, GetLe, TextStands;
    var last := Text(r.rowBytes);
    TextBytes(b, 49, r.primaryKey, Text(r.idempotencyKey) + last);
    TextBytes(b, 53 + |r.primaryKey|, r.idempotencyKey, last);
    assert last + [] == last;
    TextBytes(b, 57 + |r.primaryKey| + |r.idempotencyKey|, r.rowBytes, []);
  }

  /** A body decodes exactly when it is 41 bytes and three texts, each behind its length,
      whatever follows them. */
  lemma DecodesIff(body: Bytes)
    ensures Decode(body).Some? <==> exists fixed: Bytes, pk: Bytes, idem: Bytes, row: Bytes, rest: Bytes ::
      Parts(body, fixed, pk, idem, row, rest)
  {
    hide PutLe, GetLe;
    if Decode(body).Some? {
      var pk := ReadText(body[41..]).value;
      var idem := ReadText(pk.1).value;
      var row := ReadText(idem.1).value;
      ReadIsText(body[41..]);
      ReadIsText(pk.1);
      ReadIsText(idem.1);
      assert body == body[..41] + body[41..];
      assert Parts(body, body[..41], pk.0, idem.0, row.0, row.1);
    }
    forall fixed: Bytes, pk: Bytes, idem: Bytes, row: Bytes, rest: Bytes | Parts(body, fixed, pk, idem, row, rest)
      ensures Decode(body).Some?
    {
      assert body[41..] == Text(pk) + (Text(idem) + (Text(row) + rest));
      ReadBackText(pk, Text(idem) + (Text(row) + rest));
      ReadBackText(idem, Text(row) + rest);
      ReadBackText(row, rest);
    }
  }

  ghost predicate Parts(body: Bytes, fixed: Bytes, pk: Bytes, idem: Bytes, row: Bytes, rest: Bytes) {
    && |fixed| == 41 && |pk| < U32 && |idem| < U32 && |row| < U32
    && body == fixed + (Text(pk) + (Text(idem) + (Text(row) + rest)))
  }

  lemma ReadIsText(data: Bytes)
    requires ReadText(data).Some?
    ensures var r := ReadText(data).value; |r.0| < U32 && data == Text(r.0) + r.1
  {
    var n := GetLe(data[..4]);
    LittleEndianBound(data[..4]);
    Widths();
    LittleEndianUnique(data[..4]);
    assert data == data[..4] + data[4..4 + n] + data[4 + n..];
  }
}
