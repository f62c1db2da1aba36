/** The log manager: appends, group commit and recovery.

    The file is a byte sequence together with the length the operating system has been
    told to make stable. Every step that runs under the manager's mutex is one step
    here; taking a sequence number happens outside it and is a step of its own, so a
    run is any interleaving of any number of appenders with the sync thread. */
module WalLog {
  import opened Crc32c
  import opened WalFraming
  import opened WalIntegers
  import opened WalCodec

  /** 0x53504944'4F50'4710 as the eight bytes the file starts with. */
  const MAGIC: Bytes := [0x10, 0x47, 0x50, 0x4F, 0x44, 0x49, 0x50, 0x53]

  datatype FsyncMode = OsBuffered | FdatasyncInterval | FdatasyncAlways | FsyncAlways

  /** What an appender holds, with the entry it logged. */
  datatype Handle = Handle(entry: Entry, offset: nat, durable: bool)

  datatype Waiter = Waiter(offset: nat, handle: nat)

  datatype Config = Config(mode: FsyncMode, checked: bool) {
    predicate Immediate() {
      mode.FdatasyncAlways? || mode.FsyncAlways?
    }
  }

  /** `base` is the file as it was opened, `synced` the length known to be stable since.
      `intact` counts the leading handles
      whose records lie in the file back to back; it stops growing at the first partial
      write, or at the first record too long for the 32-bit length field. */
  datatype Log = Log(
    base: Bytes,
    file: Bytes,
    synced: nat,
    offset: nat,
    durableOffset: nat,
    appended: Word64,
    taken: set<Word64>,
    waiters: seq<Waiter>,
    handles: seq<Handle>,
    intact: nat)

  datatype Step =
    | Take
    | Write(entry: Entry, accepted: nat)
    | Sync

  /** A manager that has just opened a file: an existing one is kept as it is. */
  function Started(base: Bytes): Log {
    Log(base, base, 0, |base|, |base|, 0, {}, [], [], 0)
  }

  /** Opening an empty file writes the magic. */
  const Fresh: Log := Started(MAGIC)

  // ------------------------------------------------------------------ steps

  function NextSequence(appended: Word64): Word64 {
    (appended + 1) % U64
  }

  function Taken(s: Log): Log {
    var n := NextSequence(s.appended);
    s.(appended := n, taken := s.taken + {n})
  }

  /** The bytes of an entry, all taken by the kernel. */
  function Stored(immediate: bool, s: Log, e: Entry, bytes: Bytes, fits: bool): Log {
    var end := s.offset + |bytes|;
    var clean := |s.file| == s.offset && s.intact == |s.handles| && fits;
    Log(s.base, s.file + bytes,
      if immediate then |s.file| + |bytes| else s.synced,
      end,
      if immediate then end else s.durableOffset,
      s.appended,
      s.taken - {e.sequence},
      if immediate then s.waiters else s.waiters + [Waiter(end, |s.handles|)],
      s.handles + [Handle(e, end, immediate)],
      if clean then s.intact + 1 else s.intact)
  }

  function Written(c: Config, s: Log, e: Entry): Log {
    Stored(c.Immediate(), s, e, FrameOf(c.checked, e).Bytes(), Fits(e))
  }

  /** A short write: some bytes may have reached the file, and the appender is told it
      failed. The write position has moved, the offset has not. */
  function ShortWritten(c: Config, s: Log, e: Entry, accepted: nat): Log
    requires accepted < |FrameOf(c.checked, e).Bytes()|
  {
    s.(file := s.file + FrameOf(c.checked, e).Bytes()[..accepted],
       taken := s.taken - {e.sequence})
  }

  /** Set the flag of every handle that a waiter within the limit points at. */
  function Flip(handles: seq<Handle>, waiters: seq<Waiter>, limit: nat): (r: seq<Handle>)
    ensures |r| == |handles|
    ensures forall i | 0 <= i < |handles| :: r[i] == handles[i].(durable := r[i].durable)
    decreases |waiters|
  {
    if waiters == [] then handles else
    var w := waiters[0];
    if w.offset <= limit && w.handle < |handles| then
      Flip(handles[w.handle := handles[w.handle].(durable := true)], waiters[1..], limit)
    else Flip(handles, waiters[1..], limit)
  }

  function Remaining(waiters: seq<Waiter>, limit: nat): seq<Waiter> {
    if waiters == [] then [] else
    (if waiters[0].offset <= limit then [] else [waiters[0]]) + Remaining(waiters[1..], limit)
  }

  function Synced(s: Log): Log {
    s.(synced := |s.file|,
       durableOffset := s.offset,
       waiters := Remaining(s.waiters, s.offset),
       handles := Flip(s.handles, s.waiters, s.offset))
  }

  function Apply(c: Config, s: Log, step: Step): Log {
    match step
    case Take => Taken(s)
    case Write(e, accepted) =>
      if e.sequence !in s.taken then s
      else if accepted < |FrameOf(c.checked, e).Bytes()| then ShortWritten(c, s, e, accepted)
      else Written(c, s, e)
    case Sync => Synced(s)
  }

  function Run(c: Config, s: Log, steps: seq<Step>): Log
    decreases |steps|
  {
    if steps == [] then s else Run(c, Apply(c, s, steps[0]), steps[1..])
  }

  // ------------------------------------------------------------------ invariant

  function Frames(checked: bool, hs: seq<Handle>): (fs: seq<Frame>)
    ensures |fs| == |hs| && forall i | 0 <= i < |hs| :: fs[i] == FrameOf(checked, hs[i].entry)
  {
    if hs == [] then [] else [FrameOf(checked, hs[0].entry)] + Frames(checked, hs[1..])
  }

  /** Records back to back behind what was there. */
  function Layout(base: Bytes, checked: bool, hs: seq<Handle>): Bytes {
    base + Flatten(Frames(checked, hs))
  }

  /** The intact records lie back to back behind the file as it was opened. */
  ghost predicate LaidOut(c: Config, s: Log) {
    && MAGIC <= s.base && s.intact <= |s.handles|
    && |s.base| <= s.offset <= |s.file|
    && Layout(s.base, c.checked, s.handles[..s.intact]) <= s.file
    && (|s.file| == s.offset && s.intact == |s.handles| ==> s.file == Layout(s.base, c.checked, s.handles))
  }

  ghost predicate OffsetsRight(c: Config, s: Log) {
    forall i | 0 <= i < |s.handles| ::
      && s.handles[i].offset <= s.offset
      && (i < s.intact ==>
          && Fits(s.handles[i].entry)
          && s.handles[i].offset == |Layout(s.base, c.checked, s.handles[..i + 1])|)
  }

  /** A set flag means the record's end is stable; a clear one means a waiter will set it. */
  ghost predicate FlagsRight(s: Log) {
    && s.synced <= |s.file|
    && (forall i | 0 <= i < |s.handles| && s.handles[i].durable :: s.handles[i].offset <= s.synced)
    && (forall i | 0 <= i < |s.handles| && !s.handles[i].durable ::
          Waiter(s.handles[i].offset, i) in s.waiters)
    && (forall w | w in s.waiters :: w.handle < |s.handles| && w.offset == s.handles[w.handle].offset)
  }

  ghost predicate Inv(c: Config, s: Log) {
    LaidOut(c, s) && OffsetsRight(c, s) && FlagsRight(s)
  }

  lemma {:induction false} FramesAppend(checked: bool, hs: seq<Handle>, h: Handle)
    ensures Frames(checked, hs + [h]) == Frames(checked, hs) + [FrameOf(checked, h.entry)]
  {
    hide FrameOf;
  }

  lemma LayoutAppend(base: Bytes, checked: bool, hs: seq<Handle>, h: Handle)
    ensures Layout(base, checked, hs + [h]) == Layout(base, checked, hs) + FrameOf(checked, h.entry).Bytes()
  {
    hide FrameOf;
    FramesAppend(checked, hs, h);
    FlattenAppend(Frames(checked, hs), FrameOf(checked, h.entry));
    Associative(base, Flatten(Frames(checked, hs)), FrameOf(checked, h.entry).Bytes());
  }

  lemma WrittenLaidOut(c: Config, s: Log, e: Entry)
    requires Inv(c, s)
    ensures LaidOut(c, Written(c, s, e)) && OffsetsRight(c, Written(c, s, e))
  {
    hide FrameOf, Fits, Layout;
    var t := Written(c, s, e);
    var h := t.handles[|s.handles|];
    assert t.handles[..|s.handles|] == s.handles;
    forall k | 0 <= k <= |s.handles| ensures t.handles[..k] == s.handles[..k] { }
    assert t.handles[..s.intact] == s.handles[..s.intact];
    assert s.handles[..|s.handles|] == s.handles && t.handles[..|t.handles|] == t.handles;
    LayoutAppend(s.base, c.checked, s.handles, h);
  }

  lemma WrittenFlags(c: Config, s: Log, e: Entry)
    requires Inv(c, s)
    ensures FlagsRight(Written(c, s, e))
  {
    hide FrameOf, Fits, Layout;
    var t := Written(c, s, e);
    forall w | w in s.waiters ensures w in t.waiters { }
    if !c.Immediate() {
      assert t.waiters[|s.waiters|] == Waiter(t.offset, |s.handles|);
    }
  }

  lemma ShortWrittenKeeps(c: Config, s: Log, e: Entry, accepted: nat)
    requires Inv(c, s) && accepted < |FrameOf(c.checked, e).Bytes()|
    ensures Inv(c, ShortWritten(c, s, e, accepted))
  {
    hide FrameOf, Fits, Layout;
  }

  /** Which flags end up set: the old ones, and those some waiter within the limit names. */
  lemma {:induction false} FlipSets(handles: seq<Handle>, waiters: seq<Waiter>, limit: nat, i: nat)
    requires i < |handles|
    ensures Flip(handles, waiters, limit)[i].durable
        <==> handles[i].durable || exists w | w in waiters :: w.offset <= limit && w.handle == i
    decreases |waiters|
  {
    if waiters != [] {
      var w := waiters[0];
      var next := if w.offset <= limit && w.handle < |handles|
        then handles[w.handle := handles[w.handle].(durable := true)] else handles;
      FlipSets(next, waiters[1..], limit, i);
      assert forall x :: x in waiters <==> x == w || x in waiters[1..];
    }
  }

  lemma {:induction false} NoneRemain(waiters: seq<Waiter>, limit: nat)
    requires forall w | w in waiters :: w.offset <= limit
    ensures Remaining(waiters, limit) == []
  {
    if waiters != [] {
      assert waiters[0] in waiters;
      NoneRemain(waiters[1..], limit);
    }
  }

  /** Group commit: a sync makes every handle issued so far durable. */
  lemma SyncedAll(c: Config, s: Log)
    requires Inv(c, s)
    ensures forall i | 0 <= i < |s.handles| :: Synced(s).handles[i] == s.handles[i].(durable := true)
    ensures Synced(s).waiters == []
  {
    hide Flip, Remaining, LaidOut;
    forall i | 0 <= i < |s.handles| ensures Synced(s).handles[i].durable {
      FlipSets(s.handles, s.waiters, s.offset, i);
    }
    NoneRemain(s.waiters, s.offset);
  }

  lemma SyncedKeeps(c: Config, s: Log)
    requires Inv(c, s)
    ensures Inv(c, Synced(s))
  {
    hide FrameOf, Fits, Flip;
    var t := Synced(s);
    SyncedAll(c, s);
    forall k | 0 <= k <= |s.handles|
      ensures Layout(s.base, c.checked, t.handles[..k]) == Layout(s.base, c.checked, s.handles[..k])
    {
      SameFrames(c.checked, t.handles[..k], s.handles[..k]);
    }
    assert s.handles[..|s.handles|] == s.handles && t.handles[..|t.handles|] == t.handles;
  }

  lemma SameFrames(checked: bool, a: seq<Handle>, b: seq<Handle>)
    requires |a| == |b| && forall i | 0 <= i < |a| :: a[i].entry == b[i].entry
    ensures Frames(checked, a) == Frames(checked, b)
  {
    hide FrameOf;
  }

  lemma ApplyKeeps(c: Config, s: Log, step: Step)
    requires Inv(c, s)
    ensures Inv(c, Apply(c, s, step))
  {
    hide FrameOf, Fits, Layout, Flip;
    match step
    case Take =>
    case Write(e, accepted) =>
      if e.sequence !in s.taken {
      } else if accepted < |FrameOf(c.checked, e).Bytes()| {
        ShortWrittenKeeps(c, s, e, accepted);
      } else {
        WrittenLaidOut(c, s, e);
        WrittenFlags(c, s, e);
      }
    case Sync => SyncedKeeps(c, s);
  }

  lemma StartedHolds(c: Config, base: Bytes)
    requires MAGIC <= base
    ensures Inv(c, Started(base))
  {
    assert base + [] == base;
  }

  lemma {:induction false} RunKeeps(c: Config, s: Log, steps: seq<Step>)
    requires Inv(c, s)
    ensures Inv(c, Run(c, s, steps))
    decreases |steps|
  {
    if steps != [] {
      ApplyKeeps(c, s, steps[0]);
      RunKeeps(c, Apply(c, s, steps[0]), steps[1..]);
    }
  }

  // ------------------------------------------------------------------ recovery

  /** Opening a file: a new one for an empty file, a refusal on a wrong magic. */
  predicate Opens(disk: Bytes) {
    disk == [] || MAGIC <= disk
  }

  /** What replay delivers after reopening. */
  function Recover(checked: bool, disk: Bytes): seq<Entry>
    requires Opens(disk)
  {
    if disk == [] then [] else Scan(LogCodec(checked), disk[8..])
  }

  lemma {:induction false} HandlesRead(checked: bool, hs: seq<Handle>, es: seq<Entry>)
    requires |es| == |hs|
    requires forall i | 0 <= i < |hs| :: Fits(hs[i].entry) && es[i] == AtMicroseconds(hs[i].entry)
    ensures AllRead(LogCodec(checked), Frames(checked, hs), es)
  {
    hide FrameOf, Fits, AtMicroseconds;
    forall i | 0 <= i < |hs|
      ensures LogCodec(checked).Reads(Frames(checked, hs)[i], es[i])
    {
      FrameReads(checked, hs[i].entry);
    }
  }

  function Deliverable(hs: seq<Handle>): (es: seq<Entry>)
    ensures |es| == |hs|
    ensures forall i | 0 <= i < |hs| ::
      es[i] == AtMicroseconds(hs[i].entry) && SameToTheMicrosecond(es[i], hs[i].entry)
  {
    if hs == [] then [] else [AtMicroseconds(hs[0].entry)] + Deliverable(hs[1..])
  }

  lemma RecoverLayout(checked: bool, hs: seq<Handle>, rest: Bytes)
    ensures Opens(Layout(MAGIC, checked, hs) + rest)
    ensures Recover(checked, Layout(MAGIC, checked, hs) + rest)
         == Scan(LogCodec(checked), Flatten(Frames(checked, hs)) + rest)
  {
    hide Scan, Frames, Flatten, LogCodec;
    var disk := Layout(MAGIC, checked, hs) + rest;
    assert disk[..8] == MAGIC;
    assert disk[8..] == Flatten(Frames(checked, hs)) + rest;
  }

  lemma RecoverPrefix(checked: bool, hs: seq<Handle>, rest: Bytes)
    requires AllFit(hs)
    ensures Opens(Layout(MAGIC, checked, hs) + rest)
    ensures Recover(checked, Layout(MAGIC, checked, hs) + rest) == Deliverable(hs) + Scan(LogCodec(checked), rest)
  {
    hide Scan, Layout, Frames, Flatten, LogCodec, Fits, AtMicroseconds, Opens, Recover;
    RecoverLayout(checked, hs, rest);
    HandlesRead(checked, hs, Deliverable(hs));
    ScanPrefix(LogCodec(checked), Frames(checked, hs), Deliverable(hs), rest);
  }

  ghost predicate AllFit(hs: seq<Handle>) {
    forall i | 0 <= i < |hs| :: Fits(hs[i].entry)
  }

  lemma {:induction false} LayoutJoin(base: Bytes, checked: bool, a: seq<Handle>, b: seq<Handle>)
    ensures Layout(Layout(base, checked, a), checked, b) == Layout(base, checked, a + b)
    decreases |b|
  {
    hide FrameOf, Layout;
    if b == [] {
      assert a + b == a;
      LayoutNone(Layout(base, checked, a), checked);
    } else {
      var init, last := b[..|b| - 1], b[|b| - 1];
      assert b == init + [last] && a + b == (a + init) + [last];
      LayoutJoin(base, checked, a, init);
      LayoutAppend(Layout(base, checked, a), checked, init, last);
      LayoutAppend(base, checked, a + init, last);
    }
  }

  lemma LayoutNone(base: Bytes, checked: bool)
    ensures Layout(base, checked, []) == base
  {
    assert base + [] == base;
  }

  /** No acknowledged write is lost. Open a file of whole records, new or old, and run; take
      a handle that reads durable and was issued before any partial write. Let a crash leave
      any disk that agrees with the file on its stable part; what lies beyond may be cut off
      or garbage. The disk opens, and replay delivers the old records and that handle's
      record, each in its place. */
  lemma DurableSurvivesCrash(c: Config, before: seq<Handle>, steps: seq<Step>, disk: Bytes, i: nat)
    requires AllFit(before)
    requires var s := Run(c, Started(Layout(MAGIC, c.checked, before)), steps);
      && i < s.intact <= |s.handles| && s.handles[i].durable
      && s.synced <= |disk| && s.synced <= |s.file| && disk[..s.synced] == s.file[..s.synced]
    ensures Opens(disk)
    ensures var s := Run(c, Started(Layout(MAGIC, c.checked, before)), steps);
      && |before| + i < |Recover(c.checked, disk)|
      && (forall k | 0 <= k < |before| :: SameToTheMicrosecond(Recover(c.checked, disk)[k], before[k].entry))
      && SameToTheMicrosecond(Recover(c.checked, disk)[|before| + i], s.handles[i].entry)
  {
    hide Run, Layout, Fits, AtMicroseconds, SameToTheMicrosecond, Opens, Recover, Scan;
    var base := Layout(MAGIC, c.checked, before);
    MagicFirst(c.checked, before);
    StartedHolds(c, base);
    RunKeeps(c, Started(base), steps);
    RunBase(c, Started(base), steps);
    var s := Run(c, Started(base), steps);
    var all := before + s.handles[..i + 1];
    StablePrefix(c, s, disk, i);
    LayoutJoin(MAGIC, c.checked, before, s.handles[..i + 1]);
    var rest := disk[|Layout(MAGIC, c.checked, all)|..];
    assert disk == Layout(MAGIC, c.checked, all) + rest;
    RecoverPrefix(c.checked, all, rest);
    assert all[|before| + i] == s.handles[i];
    assert forall k | 0 <= k < |before| :: all[k] == before[k];
  }

  lemma MagicFirst(checked: bool, hs: seq<Handle>)
    ensures MAGIC <= Layout(MAGIC, checked, hs)
  {
  }

  /** No step changes what was opened. */
  lemma {:induction false} RunBase(c: Config, s: Log, steps: seq<Step>)
    ensures Run(c, s, steps).base == s.base
    decreases |steps|
  {
    hide FrameOf, Fits, Flip;
    if steps != [] { RunBase(c, Apply(c, s, steps[0]), steps[1..]); }
  }

  lemma StablePrefix(c: Config, s: Log, disk: Bytes, i: nat)
    requires Inv(c, s) && i < s.intact && s.handles[i].durable
    requires s.synced <= |disk| && disk[..s.synced] == s.file[..s.synced]
    ensures Layout(s.base, c.checked, s.handles[..i + 1]) <= disk
    ensures AllFit(s.handles[..i + 1])
  {
    hide FrameOf, Fits, Layout;
    var whole, part := Layout(s.base, c.checked, s.handles[..s.intact]), Layout(s.base, c.checked, s.handles[..i + 1]);
    LayoutPrefix(s.base, c.checked, s.handles[..s.intact], i + 1);
    assert s.handles[..s.intact][..i + 1] == s.handles[..i + 1];
    var n := |part|;
    assert part == s.file[..n];
    assert s.file[..n] == s.file[..s.synced][..n] == disk[..s.synced][..n] == disk[..n];
  }

  lemma {:induction false} LayoutPrefix(base: Bytes, checked: bool, hs: seq<Handle>, k: nat)
    requires k <= |hs|
    ensures Layout(base, checked, hs[..k]) <= Layout(base, checked, hs)
    decreases |hs|
  {
    hide FrameOf;
    if k == |hs| {
      assert hs[..k] == hs;
    } else {
      var init, last := hs[..|hs| - 1], hs[|hs| - 1];
      LayoutPrefix(base, checked, init, k);
      assert init[..k] == hs[..k] && hs == init + [last];
      LayoutAppend(base, checked, init, last);
    }
  }

  /** Every write reached the file whole, or not at all, and fits the length field. */
  ghost predicate Whole(s: Log) {
    s.intact == |s.handles| && |s.file| == s.offset
  }

  lemma WholeFile(c: Config, before: seq<Handle>, steps: seq<Step>)
    requires AllFit(before) && Whole(Run(c, Started(Layout(MAGIC, c.checked, before)), steps))
    ensures var s := Run(c, Started(Layout(MAGIC, c.checked, before)), steps);
      s.file == Layout(MAGIC, c.checked, before + s.handles) && AllFit(before + s.handles)
  {
    hide Run, Layout, Fits;
    var base := Layout(MAGIC, c.checked, before);
    MagicFirst(c.checked, before);
    StartedHolds(c, base);
    RunKeeps(c, Started(base), steps);
    RunBase(c, Started(base), steps);
    LayoutJoin(MAGIC, c.checked, before, Run(c, Started(base), steps).handles);
  }

  /** A log of whole records, old and new, cut anywhere behind the magic, reopens and
      delivers exactly the whole records before the cut, in file order. */
  lemma CutRecovers(c: Config, before: seq<Handle>, steps: seq<Step>, n: nat)
    requires AllFit(before)
    requires var s := Run(c, Started(Layout(MAGIC, c.checked, before)), steps); Whole(s) && 8 <= n <= |s.file|
    ensures var s := Run(c, Started(Layout(MAGIC, c.checked, before)), steps);
      var disk := s.file[..n];
      var all := before + s.handles;
      && Opens(disk)
      && |Recover(c.checked, disk)| == WholeBefore(Frames(c.checked, all), n - 8)
      && forall k | 0 <= k < |Recover(c.checked, disk)| :: SameToTheMicrosecond(Recover(c.checked, disk)[k], all[k].entry)
  {
    hide Run, Layout, Fits, AtMicroseconds, SameToTheMicrosecond, Opens, Recover, WholeBefore, Frames, Scan, Flatten;
    WholeFile(c, before, steps);
    var hs := before + Run(c, Started(Layout(MAGIC, c.checked, before)), steps).handles;
    CutLayout(c.checked, hs, n);
    HandlesRead(c.checked, hs, Deliverable(hs));
    ScanCut(LogCodec(c.checked), Frames(c.checked, hs), Deliverable(hs), n - 8);
  }

  lemma CutLayout(checked: bool, hs: seq<Handle>, n: nat)
    requires 8 <= n <= |Layout(MAGIC, checked, hs)|
    ensures n - 8 <= |Flatten(Frames(checked, hs))|
    ensures Opens(Layout(MAGIC, checked, hs)[..n])
    ensures Recover(checked, Layout(MAGIC, checked, hs)[..n])
         == Scan(LogCodec(checked), Flatten(Frames(checked, hs))[..n - 8])
  {
    hide Scan, Frames, Flatten, LogCodec;
    var disk := Layout(MAGIC, checked, hs)[..n];
    assert disk[..8] == MAGIC;
    assert disk[8..] == Flatten(Frames(checked, hs))[..n - 8];
  }

  /** With checksums on, damage to one record within 32 consecutive bits of its body
      loses that record and the ones behind it, and nothing before it. */
  lemma DamageStopsReplay(hs: seq<Handle>, e: Entry, body: Bytes, k: nat, rest: Bytes)
    requires Fits(e) && AllFit(hs)
    requires |body| == |Body(e)| && body != Body(e) && BurstAt(AllBits(body), AllBits(Body(e)), k)
    ensures var disk := Layout(MAGIC, true, hs) + (FrameOf(true, e).(body := body).Bytes() + rest);
      Opens(disk) && Recover(true, disk) == Deliverable(hs)
  {
    hide FrameOf, Body, Fits, AtMicroseconds, Scan, AllBits, BurstAt, Layout, Frames, Flatten, Opens, Recover;
    var bad := FrameOf(true, e).(body := body);
    DamageDetected(e, body, k);
    HandlesRead(true, hs, Deliverable(hs));
    RecoverLayout(true, hs, bad.Bytes() + rest);
    ScanStops(LogCodec(true), Frames(true, hs), Deliverable(hs), bad, rest);
  }
}
