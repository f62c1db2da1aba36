/** Where the log promises less than its header says: torn writes, replay order, and
    compaction after a replay that refused a record; each with its exact condition. */
module WalEdges {
  import opened Basics
  import opened Crc32c
  import opened WalFraming
  import opened WalIntegers
  import opened WalCodec
  import opened WalLog
  import opened WalManager

  // ------------------------------------------------------------------ torn writes

  /** The bytes begin with a frame of the given length that the scan accepts. */
  ghost predicate Accepts<E>(c: Codec<E>, data: Bytes, size: nat) {
    && 8 <= size <= |data|
    && (c.checked ==> c.sum(data[8..size]) == c.field(data[4..8]))
    && c.decode(data[8..size]).Some?
  }

  /** A scan delivers nothing exactly when its first length field names no acceptable frame. */
  lemma ScanNoneIff<E>(c: Codec<E>, data: Bytes)
    ensures Scan(c, data) == [] <==> |data| < 8 || !Accepts(c, data, c.field(data[..4]))
  {
  }

  lemma ScanNothing<E>(c: Codec<E>)
    ensures Scan(c, []) == []
  {
  }

  /** A frame torn behind its length field and followed by anything, checksums on or off:
      the scan gets past it exactly when what follows completes it to a frame of the same
      length whose checksum holds and whose body decodes. */
  lemma ScanTornIff<E>(c: Codec<E>, f: Frame, n: nat, rest: Bytes)
    requires c.Sized(f) && 4 <= n < |f.Bytes()|
    ensures Scan(c, f.Bytes()[..n] + rest) == [] <==> !Accepts(c, f.Bytes()[..n] + rest, |f.Bytes()|)
  {
    hide Scan;
    var data := f.Bytes()[..n] + rest;
    assert data[..4] == f.size;
    ScanNoneIff(c, data);
  }

  /** Behind whole records: replay stops exactly when the bytes that follow do not begin
      with an acceptable record. */
  lemma StopsIff(checked: bool, hs: seq<Handle>, data: Bytes)
    requires AllFit(hs)
    ensures Opens(Layout(MAGIC, checked, hs) + data)
    ensures Recover(checked, Layout(MAGIC, checked, hs) + data) == Deliverable(hs) <==> Scan(LogCodec(checked), data) == []
  {
    hide Scan, Layout, Fits, Opens, Recover, LogCodec, AtMicroseconds;
    RecoverPrefix(checked, hs, data);
  }

  /** What lies behind the whole records: the first n bytes of a torn record, then the rest. */
  function TornBytes(checked: bool, e: Entry, n: nat, rest: Bytes): Bytes {
    var whole := FrameOf(checked, e).Bytes();
    whole[..if n <= |whole| then n else |whole|] + rest
  }

  /** A record torn behind its length field blocks the log, checksums on or off: whatever is
      appended, replay delivers the records before the tear and stops, if and only if the
      bytes that follow do not complete the torn record to an acceptable one of its length. */
  lemma TornWriteBlocksIff(checked: bool, hs: seq<Handle>, e: Entry, n: nat, rest: Bytes)
    requires Fits(e) && AllFit(hs) && 4 <= n < |FrameOf(checked, e).Bytes()|
    ensures Opens(Layout(MAGIC, checked, hs) + TornBytes(checked, e, n, rest))
    ensures Recover(checked, Layout(MAGIC, checked, hs) + TornBytes(checked, e, n, rest)) == Deliverable(hs)
        <==> !Accepts(LogCodec(checked), TornBytes(checked, e, n, rest), |FrameOf(checked, e).Bytes()|)
  {
    hide FrameOf, Fits, Scan, Layout, Opens, Recover, LogCodec, Accepts;
    FrameReads(checked, e);
    StopsIff(checked, hs, TornBytes(checked, e, n, rest));
    ScanTornIff(LogCodec(checked), FrameOf(checked, e), n, rest);
  }

  /** A record torn inside its length field, with another record behind it: the length read
      is then at least 256^n times that record's, so replay stops at the tear until the log
      has grown that far. */
  lemma TornLengthBlocks(checked: bool, hs: seq<Handle>, torn: Entry, next: Entry, n: nat, more: Bytes)
    requires AllFit(hs) && 1 <= n < 4
    requires var size := |FrameOf(checked, next).Bytes()|;
      size < Power256(4 - n) && n + size + |more| < Power256(n) * size
    ensures
      var disk := Layout(MAGIC, checked, hs) + TornBytes(checked, torn, n, FrameOf(checked, next).Bytes() + more);
      Opens(disk) && Recover(checked, disk) == Deliverable(hs)
  {
    hide FrameOf, Fits, Scan, Layout, Opens, Recover, LogCodec, TornBytes;
    var data := TornBytes(checked, torn, n, FrameOf(checked, next).Bytes() + more);
    MixedLength(checked, torn, next, n, more);
    StopsIff(checked, hs, data);
    LogField(checked);
    ScanNoneIff(LogCodec(checked), data);
  }

  lemma LogField(checked: bool)
    ensures LogCodec(checked).field == GetLe
  {
  }

  lemma MixedLength(checked: bool, torn: Entry, next: Entry, n: nat, more: Bytes)
    requires 1 <= n < 4 && |FrameOf(checked, next).Bytes()| < Power256(4 - n)
    ensures
      var data := TornBytes(checked, torn, n, FrameOf(checked, next).Bytes() + more);
      && |data| == n + |FrameOf(checked, next).Bytes()| + |more| && |data| >= 4
      && GetLe(data[..4]) >= Power256(n) * |FrameOf(checked, next).Bytes()|
  {
    hide Body, Crc, PutLe, GetLe, Power256;
    var f, g := FrameOf(checked, torn), FrameOf(checked, next);
    var data := TornBytes(checked, torn, n, g.Bytes() + more);
    var a, b := |f.Bytes()|, |g.Bytes()|;
    assert f.size == PutLe(a, 4) && g.size == PutLe(b, 4);
    PutLePrefix(a, 4, n);
    PutLePrefix(b, 4, 4 - n);
    FirstFour(f, g, n, more);
    assert data == f.Bytes()[..n] + (g.Bytes() + more);
    GetLeBoth(PutLe(a, n), PutLe(b, 4 - n));
    LittleEndianRoundTrip(b, 4 - n);
  }

  lemma FirstFour(f: Frame, g: Frame, n: nat, more: Bytes)
    requires |f.size| == |g.size| == 4 && n <= 4
    ensures n <= |f.Bytes()| && |f.Bytes()[..n] + (g.Bytes() + more)| >= 4
    ensures (f.Bytes()[..n] + (g.Bytes() + more))[..4] == f.size[..n] + g.size[..4 - n]
  {
  }

  /** So a durable handle can be lost: a write torn inside its length field, or a longer one
      torn behind it, then a record written whole, synced and acknowledged; and replay
      delivers nothing. */
  lemma DurableLostBehindTear(c: Config, torn: Entry, kept: Entry, n: nat)
    requires torn.sequence == 1 && kept.sequence == 2 && Fits(torn) && Fits(kept)
    requires var size := |FrameOf(c.checked, kept).Bytes()|;
      if n < 4 then 1 <= n && size < Power256(4 - n) else n + size < |FrameOf(c.checked, torn).Bytes()|
    ensures
      var s := TornRun(c, torn, kept, n);
      && |s.handles| == 1 && s.handles[0].entry == kept && s.handles[0].durable && s.synced == |s.file|
      && Opens(s.file) && Recover(c.checked, s.file) == []
  {
    hide FrameOf, Fits, Scan, Recover, Layout, Opens, LogCodec, Power256;
    LengthAtLeast(c.checked, torn);
    LengthAtLeast(c.checked, kept);
    TornFile(c, torn, kept, n);
    LayoutNone(MAGIC, c.checked);
    var next := FrameOf(c.checked, kept).Bytes();
    assert MAGIC + (FrameOf(c.checked, torn).Bytes()[..n] + next) == Layout(MAGIC, c.checked, []) + TornBytes(c.checked, torn, n, next);
    if n < 4 {
      assert next + [] == next;
      Outgrows(n, |next|);
      TornLengthBlocks(c.checked, [], torn, kept, n, []);
    } else {
      TornWriteBlocksIff(c.checked, [], torn, n, next);
    }
  }

  lemma LengthAtLeast(checked: bool, e: Entry)
    ensures |FrameOf(checked, e).Bytes()| >= 8 + 41
  {
    hide PutLe, Fixed;
  }

  lemma Outgrows(n: nat, size: nat)
    requires 1 <= n < 4 && size >= 4
    ensures n + size < Power256(n) * size
  {
    assert Power256(n) >= 256 by {
      assert Power256(n) == 256 * Power256(n - 1);
    }
    assert Power256(n) * size >= 256 * size;
  }

  function TornRun(c: Config, torn: Entry, kept: Entry, n: nat): Log {
    var s1 := Apply(c, Apply(c, Fresh, Take), Write(torn, n));
    var s2 := Apply(c, Apply(c, s1, Take), Write(kept, |FrameOf(c.checked, kept).Bytes()|));
    Apply(c, s2, Sync)
  }

  lemma TornFile(c: Config, torn: Entry, kept: Entry, n: nat)
    requires torn.sequence == 1 && kept.sequence == 2 && n < |FrameOf(c.checked, torn).Bytes()|
    ensures
      var s := TornRun(c, torn, kept, n);
      && |s.handles| == 1 && s.handles[0].entry == kept && s.handles[0].durable && s.synced == |s.file|
      && s.file == MAGIC + (FrameOf(c.checked, torn).Bytes()[..n] + FrameOf(c.checked, kept).Bytes())
  {
    hide FrameOf, Fits, Inv, Flip;
    var s1 := Apply(c, Apply(c, Fresh, Take), Write(torn, n));
    assert s1.appended == 1 && s1.handles == [] && s1.file == MAGIC + FrameOf(c.checked, torn).Bytes()[..n];
    var s2 := Apply(c, Apply(c, s1, Take), Write(kept, |FrameOf(c.checked, kept).Bytes()|));
    assert |s2.handles| == 1 && s2.handles[0].entry == kept;
    TornBefore(c, torn, kept, n);
    SyncedAll(c, s2);
    Associative(MAGIC, FrameOf(c.checked, torn).Bytes()[..n], FrameOf(c.checked, kept).Bytes());
  }

  lemma TornBefore(c: Config, torn: Entry, kept: Entry, n: nat)
    ensures
      var s1 := Apply(c, Apply(c, Fresh, Take), Write(torn, n));
      Inv(c, Apply(c, Apply(c, s1, Take), Write(kept, |FrameOf(c.checked, kept).Bytes()|)))
  {
    hide Inv, Apply;
    StartedHolds(c, MAGIC);
    var a := Apply(c, Fresh, Take);
    ApplyKeeps(c, Fresh, Take);
    var b := Apply(c, a, Write(torn, n));
    ApplyKeeps(c, a, Write(torn, n));
    ApplyKeeps(c, b, Take);
    ApplyKeeps(c, Apply(c, b, Take), Write(kept, |FrameOf(c.checked, kept).Bytes()|));
  }

  /** The promise is not empty: one append and one sync make any record durable and intact. */
  lemma AppendThenSync(c: Config, e: Entry)
    requires e.sequence == 1 && Fits(e)
    ensures
      var s := Run(c, Fresh, [Take, Write(e, |FrameOf(c.checked, e).Bytes()|), Sync]);
      s.intact == |s.handles| == 1 && s.handles[0].entry == e && s.handles[0].durable && s.synced == |s.file| == s.offset
  {
    hide FrameOf, Fits, Inv, Flip, Run;
    var w := Write(e, |FrameOf(c.checked, e).Bytes()|);
    var a := Apply(c, Fresh, Take);
    var b := Apply(c, a, w);
    StartedHolds(c, MAGIC);
    ApplyKeeps(c, Fresh, Take);
    ApplyKeeps(c, a, w);
    SyncedAll(c, b);
    RunThree(c, Fresh, Take, w, Sync);
  }

  lemma RunThree(c: Config, s: Log, x: Step, y: Step, z: Step)
    ensures Run(c, s, [x, y, z]) == Apply(c, Apply(c, Apply(c, s, x), y), z)
  {
    hide Apply, Run;
    RunFirst(c, s, [x, y, z]);
    RunFirst(c, Apply(c, s, x), [y, z]);
    RunFirst(c, Apply(c, Apply(c, s, x), y), [z]);
    RunNone(c, Apply(c, Apply(c, Apply(c, s, x), y), z));
    assert [x, y, z][1..] == [y, z] && [y, z][1..] == [z] && [z][1..] == [];
  }

  lemma RunFirst(c: Config, s: Log, steps: seq<Step>)
    requires steps != []
    ensures Run(c, s, steps) == Run(c, Apply(c, s, steps[0]), steps[1..])
  {
    hide Apply;
  }

  lemma RunNone(c: Config, s: Log)
    ensures Run(c, s, []) == s
  {
  }

  // ------------------------------------------------------------------ replay order

  /** A file of whole records delivers exactly those records. */
  lemma RecoverWhole(checked: bool, hs: seq<Handle>)
    requires AllFit(hs)
    ensures Opens(Layout(MAGIC, checked, hs)) && Recover(checked, Layout(MAGIC, checked, hs)) == Deliverable(hs)
  {
    hide Layout, LogCodec, Fits, AtMicroseconds, Opens, Recover, Scan, Deliverable;
    assert Layout(MAGIC, checked, hs) + [] == Layout(MAGIC, checked, hs);
    StopsIff(checked, hs, []);
    ScanNothing(LogCodec(checked));
  }

  /** Whether a step logs a record, and which number it logs it under. */
  predicate Logs(c: Config, s: Log, step: Step) {
    step.Write? && step.entry.sequence in s.taken && step.accepted >= |FrameOf(c.checked, step.entry).Bytes()|
  }

  function Number(c: Config, s: Log, step: Step): seq<Word64> {
    if Logs(c, s, step) then [step.entry.sequence] else []
  }

  /** The numbers the steps of a run log records under, in step order. */
  function Logged(c: Config, s: Log, steps: seq<Step>): seq<Word64>
    decreases |steps|
  {
    if steps == [] then []
    else Number(c, s, steps[0]) + Logged(c, Apply(c, s, steps[0]), steps[1..])
  }

  function Numbers(hs: seq<Handle>): (ns: seq<Word64>)
    ensures |ns| == |hs| && forall i | 0 <= i < |hs| :: ns[i] == hs[i].entry.sequence
  {
    if hs == [] then [] else [hs[0].entry.sequence] + Numbers(hs[1..])
  }

  predicate Increasing(ns: seq<Word64>) {
    forall i, j | 0 <= i < j < |ns| :: ns[i] < ns[j]
  }

  /** Records in increasing sequence order. */
  predicate Rising(es: seq<Entry>) {
    forall i, j | 0 <= i < j < |es| :: es[i].sequence < es[j].sequence
  }

  lemma StepNumbers(c: Config, s: Log, step: Step)
    ensures Numbers(Apply(c, s, step).handles) == Numbers(s.handles) + Number(c, s, step)
  {
    hide FrameOf, Fits, Flip;
    var t := Apply(c, s, step);
    if Logs(c, s, step) {
      assert forall i | 0 <= i < |s.handles| :: t.handles[i] == s.handles[i];
    } else {
      assert |t.handles| == |s.handles| && forall i | 0 <= i < |s.handles| :: t.handles[i].entry == s.handles[i].entry;
    }
  }

  lemma {:induction false} RunNumbers(c: Config, s: Log, steps: seq<Step>)
    ensures Numbers(Run(c, s, steps).handles) == Numbers(s.handles) + Logged(c, s, steps)
    decreases |steps|
  {
    hide Apply, Number, Numbers;
    if steps == [] {
      assert Numbers(s.handles) + [] == Numbers(s.handles);
    } else {
      StepNumbers(c, s, steps[0]);
      RunNumbers(c, Apply(c, s, steps[0]), steps[1..]);
      Associative(Numbers(s.handles), Number(c, s, steps[0]), Logged(c, Apply(c, s, steps[0]), steps[1..]));
    }
  }

  /** Replay is in sequence order exactly when writing was. For every run, on a new or old
      file, in which every write reached the file whole or not at all: the delivered records
      rise if and only if the old numbers, followed by those the steps log in step order, do. */
  lemma ReplayInOrderIff(c: Config, before: seq<Handle>, steps: seq<Step>)
    requires AllFit(before) && Whole(Run(c, Started(Layout(MAGIC, c.checked, before)), steps))
    ensures
      var start := Started(Layout(MAGIC, c.checked, before));
      var disk := Run(c, start, steps).file;
      && Opens(disk)
      && (Rising(Recover(c.checked, disk)) <==> Increasing(Numbers(before) + Logged(c, start, steps)))
  {
    hide Run, Layout, Fits, Opens, Recover, AtMicroseconds, Logged, Rising, Increasing, Numbers, Deliverable, AllFit;
    var start := Started(Layout(MAGIC, c.checked, before));
    var hs := Run(c, start, steps).handles;
    WholeFile(c, before, steps);
    RecoverWhole(c.checked, before + hs);
    RunNumbers(c, start, steps);
    NumbersBoth(before, hs);
    NoNumbers();
    assert [] + Logged(c, start, steps) == Logged(c, start, steps);
    DeliveredNumbers(before + hs);
  }

  lemma NumbersBoth(a: seq<Handle>, b: seq<Handle>)
    ensures Numbers(a + b) == Numbers(a) + Numbers(b)
  {
  }

  lemma NoNumbers()
    ensures Numbers([]) == []
  {
  }

  lemma DeliveredNumbers(hs: seq<Handle>)
    ensures Rising(Deliverable(hs)) <==> Increasing(Numbers(hs))
  {
    forall i | 0 <= i < |hs| ensures Deliverable(hs)[i].sequence == Numbers(hs)[i] { }
  }

  function CrossedRun(c: Config, first: Entry, second: Entry): Log {
    var s := Apply(c, Apply(c, Fresh, Take), Take);
    var t := Apply(c, s, Write(second, |FrameOf(c.checked, second).Bytes()|));
    Apply(c, t, Write(first, |FrameOf(c.checked, first).Bytes()|))
  }

  /** Two appenders take numbers 1 and 2 and write in the other order: replay delivers in
      file order, number 2 first. */
  lemma ReplayNotInSequenceOrder(c: Config, first: Entry, second: Entry)
    requires first.sequence == 1 && second.sequence == 2 && Fits(first) && Fits(second)
    ensures
      var disk := CrossedRun(c, first, second).file;
      Opens(disk) && Recover(c.checked, disk) == [AtMicroseconds(second), AtMicroseconds(first)]
  {
    hide FrameOf, Fits, Scan, Recover, Opens, Inv, AtMicroseconds, CrossedRun, Deliverable;
    var hs := [Handle(second, 0, false), Handle(first, 0, false)];
    CrossedFile(c, first, second);
    RecoverWhole(c.checked, hs);
    DeliverTwo(hs[0], hs[1]);
  }

  lemma DeliverTwo(a: Handle, b: Handle)
    ensures Deliverable([a, b]) == [AtMicroseconds(a.entry), AtMicroseconds(b.entry)]
  {
    hide AtMicroseconds;
  }

  lemma CrossedFile(c: Config, first: Entry, second: Entry)
    requires first.sequence == 1 && second.sequence == 2
    ensures CrossedRun(c, first, second).file
         == Layout(MAGIC, c.checked, [Handle(second, 0, false), Handle(first, 0, false)])
  {
    hide FrameOf, Fits, Layout;
    var a, b := Handle(second, 0, false), Handle(first, 0, false);
    LayoutNone(MAGIC, c.checked);
    LayoutAppend(MAGIC, c.checked, [], a);
    LayoutAppend(MAGIC, c.checked, [a], b);
    assert [] + [a] == [a] && [a] + [b] == [a, b];
    var s := Apply(c, Apply(c, Fresh, Take), Take);
    assert s.taken == {1, 2} && s.file == MAGIC;
    var t := Apply(c, s, Write(second, |FrameOf(c.checked, second).Bytes()|));
    assert t.file == MAGIC + FrameOf(c.checked, second).Bytes() && 1 in t.taken;
  }

  /** One uninterrupted append, written whole. */
  function Appended(c: Config, s: Log, r: Record): Log {
    var e := Entry(NextSequence(s.appended), r);
    Apply(c, Apply(c, s, Take), Write(e, |FrameOf(c.checked, e).Bytes()|))
  }

  function SerialRun(c: Config, s: Log, records: seq<Record>): Log
    decreases |records|
  {
    if records == [] then s else SerialRun(c, Appended(c, s, records[0]), records[1..])
  }

  function Numbered(from: nat, records: seq<Record>): (es: seq<Entry>)
    requires from + |records| <= U64
    ensures |es| == |records| && forall i | 0 <= i < |es| :: es[i] == Entry(from + i, records[i])
    decreases |records|
  {
    if records == [] then [] else [Entry(from, records[0])] + Numbered(from + 1, records[1..])
  }

  function Entries(hs: seq<Handle>): (es: seq<Entry>)
    ensures |es| == |hs| && forall i | 0 <= i < |es| :: es[i] == hs[i].entry
  {
    if hs == [] then [] else [hs[0].entry] + Entries(hs[1..])
  }

  predicate EntriesFit(es: seq<Entry>) {
    forall i | 0 <= i < |es| :: Fits(es[i])
  }

  lemma FitSplit(first: Entry, others: seq<Entry>)
    requires EntriesFit([first] + others)
    ensures Fits(first) && EntriesFit(others)
  {
    hide Fits;
    assert ([first] + others)[0] == first;
    forall i | 0 <= i < |others| ensures Fits(others[i]) {
      assert ([first] + others)[i + 1] == others[i];
    }
  }

  ghost predicate Sealed(c: Config, s: Log) {
    Inv(c, s) && WalLog.Whole(s)
  }

  lemma SerialStep(c: Config, s: Log, r: Record)
    requires Sealed(c, s) && s.appended + 1 < U64 && Fits(Entry(s.appended + 1, r))
    ensures
      var t := Appended(c, s, r);
      && Sealed(c, t) && t.appended == s.appended + 1
      && Entries(t.handles) == Entries(s.handles) + [Entry(s.appended + 1, r)]
  {
    hide FrameOf, Fits, Inv;
    var e := Entry(NextSequence(s.appended), r);
    var a := Apply(c, s, Take);
    ApplyKeeps(c, s, Take);
    ApplyKeeps(c, a, Write(e, |FrameOf(c.checked, e).Bytes()|));
  }

  lemma {:induction false} SerialKeeps(c: Config, s: Log, records: seq<Record>)
    requires Sealed(c, s) && s.appended + 1 + |records| <= U64 && EntriesFit(Numbered(s.appended + 1, records))
    ensures Sealed(c, SerialRun(c, s, records))
    ensures Entries(SerialRun(c, s, records).handles) == Entries(s.handles) + Numbered(s.appended + 1, records)
    decreases |records|
  {
    hide Fits, Appended, Sealed, Entries, EntriesFit;
    if records != [] {
      var first, others := Entry(s.appended + 1, records[0]), Numbered(s.appended + 2, records[1..]);
      assert Numbered(s.appended + 1, records) == [first] + others;
      FitSplit(first, others);
      SerialStep(c, s, records[0]);
      SerialKeeps(c, Appended(c, s, records[0]), records[1..]);
      Associative(Entries(s.handles), [first], others);
    }
  }

  lemma {:induction false} SerialBase(c: Config, s: Log, records: seq<Record>)
    ensures SerialRun(c, s, records).base == s.base
    decreases |records|
  {
    hide FrameOf, Fits;
    if records != [] { SerialBase(c, Appended(c, s, records[0]), records[1..]); }
  }

  /** Written one after the other, records come back in sequence order, numbered from 1. */
  lemma SerialReplaysInOrder(c: Config, records: seq<Record>)
    requires |records| < U64 && EntriesFit(Numbered(1, records))
    ensures
      var disk := SerialRun(c, Fresh, records).file;
      && Opens(disk) && |Recover(c.checked, disk)| == |records|
      && forall i | 0 <= i < |records| :: Recover(c.checked, disk)[i] == AtMicroseconds(Entry(1 + i, records[i]))
  {
    hide FrameOf, Fits, Scan, Recover, Opens, AtMicroseconds, SerialRun, Layout;
    StartedHolds(c, MAGIC);
    SerialKeeps(c, Fresh, records);
    var s := SerialRun(c, Fresh, records);
    SerialBase(c, Fresh, records);
    assert s.file == Layout(MAGIC, c.checked, s.handles);
    assert Entries(Fresh.handles) == [];
    assert Entries(s.handles) == Numbered(1, records);
    forall i | 0 <= i < |s.handles| ensures Fits(s.handles[i].entry) {
      assert s.handles[i].entry == Entries(s.handles)[i] == Numbered(1, records)[i];
    }
    RecoverWhole(c.checked, s.handles);
  }

  // ------------------------------------------------------------------ compaction after replay

  /** The guard under which compaction cuts the log back to its magic. */
  predicate Compacts(flushed: Word64, appended: Word64) {
    flushed >= appended
  }

  /** The record the callback accepted last. */
  ghost predicate LastTaken(es: seq<Entry>, accept: Entry -> bool, i: nat) {
    i < |es| && accept(es[i]) && forall j | i < j < |es| :: !accept(es[j])
  }

  ghost predicate NoneTaken(es: seq<Entry>, accept: Entry -> bool) {
    forall i | 0 <= i < |es| :: !accept(es[i])
  }

  ghost predicate AllAtMost(es: seq<Entry>, n: Word64) {
    forall i | 0 <= i < |es| :: es[i].sequence <= n
  }

  lemma {:induction false} LastAcceptedIs(es: seq<Entry>, accept: Entry -> bool, flushed: Word64)
    ensures forall i: nat | LastTaken(es, accept, i) :: LastAccepted(es, accept, flushed) == es[i].sequence
    ensures NoneTaken(es, accept) ==> LastAccepted(es, accept, flushed) == flushed
    decreases |es|
  {
    if es != [] {
      var next := if accept(es[0]) then es[0].sequence else flushed;
      LastAcceptedIs(es[1..], accept, next);
      forall i: nat | LastTaken(es, accept, i) ensures LastAccepted(es, accept, flushed) == es[i].sequence {
        if i > 0 {
          assert LastTaken(es[1..], accept, i - 1);
        } else {
          assert NoneTaken(es[1..], accept);
        }
      }
    }
  }

  lemma {:induction false} SomeLastTaken(es: seq<Entry>, accept: Entry -> bool)
    ensures NoneTaken(es, accept) || exists i: nat :: LastTaken(es, accept, i)
    decreases |es|
  {
    if es != [] {
      var init := es[..|es| - 1];
      SomeLastTaken(init, accept);
      if accept(es[|es| - 1]) {
        assert LastTaken(es, accept, |es| - 1);
      } else if !NoneTaken(init, accept) {
        var i: nat :| LastTaken(init, accept, i);
        assert LastTaken(es, accept, i);
      }
    }
  }

  lemma {:induction false} MaxSequenceIs(es: seq<Entry>, appended: Word64, n: Word64)
    ensures MaxSequence(es, appended) <= n <==> appended <= n && AllAtMost(es, n)
    decreases |es|
  {
    if es != [] {
      MaxSequenceIs(es[1..], if es[0].sequence > appended then es[0].sequence else appended, n);
      assert forall i | 0 <= i < |es[1..]| :: es[1..][i] == es[i + 1];
      assert AllAtMost(es, n) <==> es[0].sequence <= n && AllAtMost(es[1..], n);
    }
  }

  /** When compaction may drop the whole file after a replay, whatever was delivered and from
      whatever counters: exactly when the record accepted last carries the largest number
      appended or delivered, or nothing was accepted and the old mark is that large already. */
  lemma {:induction false} CompactsIff(es: seq<Entry>, accept: Entry -> bool, flushed: Word64, appended: Word64)
    ensures Compacts(LastAccepted(es, accept, flushed), MaxSequence(es, appended)) <==>
      || (exists i: nat :: LastTaken(es, accept, i) && appended <= es[i].sequence && AllAtMost(es, es[i].sequence))
      || (NoneTaken(es, accept) && appended <= flushed && AllAtMost(es, flushed))
  {
    hide AllAtMost, NoneTaken;
    LastAcceptedIs(es, accept, flushed);
    SomeLastTaken(es, accept);
    MaxSequenceIs(es, appended, LastAccepted(es, accept, flushed));
    TakenOrNone(es, accept);
  }

  lemma TakenOrNone(es: seq<Entry>, accept: Entry -> bool)
    ensures NoneTaken(es, accept) ==> forall i: nat :: !LastTaken(es, accept, i)
  {
  }

  /** In a fresh process, for records in sequence order with positive numbers, that is when
      nothing was delivered or the last record was accepted. */
  lemma CompactsIffLastAccepted(es: seq<Entry>, accept: Entry -> bool)
    requires Rising(es) && (es != [] ==> es[0].sequence > 0)
    ensures Compacts(LastAccepted(es, accept, 0), MaxSequence(es, 0)) <==> es == [] || accept(es[|es| - 1])
  {
    CompactsIff(es, accept, 0, 0);
    if es != [] {
      LastIsLargest(es);
      if accept(es[|es| - 1]) {
        assert LastTaken(es, accept, |es| - 1);
      } else {
        forall i: nat | LastTaken(es, accept, i) ensures !AllAtMost(es, es[i].sequence) { }
      }
    }
  }

  lemma LastIsLargest(es: seq<Entry>)
    requires es != [] && Rising(es)
    ensures AllAtMost(es, es[|es| - 1].sequence)
    ensures forall i | 0 <= i < |es| - 1 :: !AllAtMost(es, es[i].sequence)
    ensures es[0].sequence > 0 ==> !AllAtMost(es, 0)
  {
    forall i | 0 <= i < |es| - 1 ensures !AllAtMost(es, es[i].sequence) {
      assert es[i].sequence < es[|es| - 1].sequence;
    }
  }

  /** Whether the earlier records were accepted is not consulted: any record may have been
      left pending, in any log, and the file goes all the same. */
  lemma RefusedRecordDropped(es: seq<Entry>, accept: Entry -> bool, refused: nat, last: nat)
    requires refused < |es| && !accept(es[refused])
    requires LastTaken(es, accept, last) && AllAtMost(es, es[last].sequence)
    ensures Compacts(LastAccepted(es, accept, 0), MaxSequence(es, 0))
  {
    CompactsIff(es, accept, 0, 0);
  }

  /** The crossed log never compacts though both records are accepted, and compacts when only
      the one delivered first is. */
  lemma CrossedCompaction(c: Config, first: Entry, second: Entry, accept: Entry -> bool)
    requires first.sequence == 1 && second.sequence == 2 && Fits(first) && Fits(second)
    ensures Opens(CrossedRun(c, first, second).file)
    ensures
      var es := Recover(c.checked, CrossedRun(c, first, second).file);
      (Compacts(LastAccepted(es, accept, 0), MaxSequence(es, 0)))
        <==> (accept(AtMicroseconds(second)) && !accept(AtMicroseconds(first)))
  {
    hide CrossedRun, Recover, Opens, Fits;
    ReplayNotInSequenceOrder(c, first, second);
    TwoOneCompacts(AtMicroseconds(second), AtMicroseconds(first), accept);
  }

  lemma TwoOneCompacts(a: Entry, b: Entry, accept: Entry -> bool)
    requires a.sequence == 2 && b.sequence == 1
    ensures Compacts(LastAccepted([a, b], accept, 0), MaxSequence([a, b], 0)) <==> accept(a) && !accept(b)
  {
    assert [a, b][1..] == [b] && [b][1..] == [];
    assert LastAccepted([b], accept, if accept(a) then 2 else 0) == if accept(b) then 1 else if accept(a) then 2 else 0;
    assert MaxSequence([b], 2) == 2;
  }
}
