/** What holds over every run of the log manager: the numbers it hands out, and the durable
    offset it reports. */
module WalRuns {
  import opened Crc32c
  import opened WalIntegers
  import opened WalCodec
  import opened WalLog

  /** The file magic, as the 64-bit number the source names, low byte first. */
  lemma MagicIs()
    ensures |MAGIC| == 8 && GetLe(MAGIC) == 0x5350_4944_4F50_4710
  {
    var low, high := [0x10, 0x47, 0x50, 0x4F], [0x44, 0x49, 0x50, 0x53];
    assert MAGIC == low + high;
    FourBytes(0x10, 0x47, 0x50, 0x4F);
    FourBytes(0x44, 0x49, 0x50, 0x53);
    GetLeBoth(low, high);
    Widths();
  }

  /** A file opens when it is empty or starts with the eight bytes that spell the magic. */
  lemma OpensIff(disk: Bytes)
    ensures Opens(disk) <==> disk == [] || (|disk| >= 8 && GetLe(disk[..8]) == 0x5350_4944_4F50_4710)
  {
    hide GetLe, PutLe;
    MagicIs();
    if |disk| >= 8 {
      LittleEndianUnique(disk[..8]);
      LittleEndianUnique(MAGIC);
      assert MAGIC <= disk <==> disk[..8] == MAGIC;
    }
  }

  // ------------------------------------------------------------------ numbers

  function Takes(steps: seq<Step>): nat {
    if steps == [] then 0 else (if steps[0].Take? then 1 else 0) + Takes(steps[1..])
  }

  /** A record's number was handed out, and is no one else's. */
  ghost predicate Unique(s: Log) {
    && (forall n | n in s.taken :: 0 < n <= s.appended)
    && (forall i | 0 <= i < |s.handles| :: 0 < s.handles[i].entry.sequence <= s.appended
          && s.handles[i].entry.sequence !in s.taken)
    && (forall i, j | 0 <= i < j < |s.handles| :: s.handles[i].entry.sequence != s.handles[j].entry.sequence)
  }

  lemma StepUnique(c: Config, s: Log, step: Step)
    requires Unique(s) && s.appended + 1 < U64
    ensures var t := Apply(c, s, step);
      Unique(t) && t.appended == s.appended + (if step.Take? then 1 else 0)
  {
    hide FrameOf, Fits, Flip;
    var t := Apply(c, s, step);
    match step
    case Take =>
    case Write(e, accepted) =>
      assert forall i | 0 <= i < |s.handles| :: t.handles[i] == s.handles[i];
    case Sync =>
      assert forall i | 0 <= i < |s.handles| :: t.handles[i].entry == s.handles[i].entry;
  }

  /** In every run that hands out fewer than 2^64 numbers, they are 1, 2, 3 and so on, and no
      two records are logged under the same one. */
  lemma {:induction false} NumbersUnique(c: Config, s: Log, steps: seq<Step>)
    requires Unique(s) && s.appended + Takes(steps) < U64
    ensures Unique(Run(c, s, steps)) && Run(c, s, steps).appended == s.appended + Takes(steps)
    decreases |steps|
  {
    hide Apply, Unique;
    if steps != [] {
      if s.appended + 1 < U64 {
        StepUnique(c, s, steps[0]);
      } else {
        NoTake(c, s, steps[0]);
      }
      NumbersUnique(c, Apply(c, s, steps[0]), steps[1..]);
    }
  }

  lemma NoTake(c: Config, s: Log, step: Step)
    requires Unique(s) && !step.Take?
    ensures Unique(Apply(c, s, step)) && Apply(c, s, step).appended == s.appended
  {
    hide FrameOf, Fits, Flip;
    var t := Apply(c, s, step);
    if step.Write? {
      assert forall i | 0 <= i < |s.handles| :: t.handles[i] == s.handles[i];
    } else {
      assert forall i | 0 <= i < |s.handles| :: t.handles[i].entry == s.handles[i].entry;
    }
  }

  // ------------------------------------------------------------------ the durable offset

  /** A handle is durable exactly when the durable offset has reached its end; where every
      append syncs, all are. */
  ghost predicate Reported(c: Config, s: Log) {
    && s.durableOffset <= s.offset
    && (forall i | 0 <= i < |s.handles| ::
          s.handles[i].offset <= s.offset && (s.handles[i].durable <==> s.handles[i].offset <= s.durableOffset))
    && (c.mode == FdatasyncAlways || c.mode == FsyncAlways ==> s.durableOffset == s.offset)
  }

  lemma StepReported(c: Config, s: Log, step: Step)
    requires Reported(c, s) && Inv(c, s)
    ensures Reported(c, Apply(c, s, step))
  {
    hide FrameOf, Fits, Flip, LaidOut, OffsetsRight, Remaining;
    if step.Sync? {
      SyncedAll(c, s);
    } else if step.Write? {
      assert |FrameOf(c.checked, step.entry).Bytes()| > 0 by { FrameNotEmpty(c.checked, step.entry); }
      var t := Apply(c, s, step);
      assert forall i | 0 <= i < |s.handles| :: t.handles[i] == s.handles[i];
    }
  }

  lemma FrameNotEmpty(checked: bool, e: Entry)
    ensures |FrameOf(checked, e).Bytes()| > 0
  {
  }

  lemma {:induction false} ReportedKept(c: Config, s: Log, steps: seq<Step>)
    requires Reported(c, s) && Inv(c, s)
    ensures Reported(c, Run(c, s, steps))
    decreases |steps|
  {
    hide Apply, Reported, Inv;
    if steps != [] {
      StepReported(c, s, steps[0]);
      ApplyKeeps(c, s, steps[0]);
      ReportedKept(c, Apply(c, s, steps[0]), steps[1..]);
    }
  }

  /** In every run, on a new or old file: a handle reads durable if and only if the reported
      durable offset is at or past its offset; with a sync in every append that is always so. */
  lemma DurableIffReached(c: Config, base: Bytes, steps: seq<Step>, i: nat)
    requires MAGIC <= base
    requires i < |Run(c, Started(base), steps).handles|
    ensures var s := Run(c, Started(base), steps);
      && (s.handles[i].durable <==> s.handles[i].offset <= s.durableOffset)
      && (c.mode == FdatasyncAlways || c.mode == FsyncAlways ==> s.handles[i].durable)
  {
    hide Run;
    StartedHolds(c, base);
    ReportedKept(c, Started(base), steps);
  }

  /** In the other modes a record is not durable before the next sync. */
  lemma WaitsForSync(c: Config, s: Log, e: Entry, accepted: nat)
    requires e.sequence in s.taken && accepted >= |FrameOf(c.checked, e).Bytes()|
    ensures var t := Apply(c, s, Write(e, accepted));
      && |t.handles| == |s.handles| + 1 && t.file == s.file + FrameOf(c.checked, e).Bytes()
      && t.handles[|s.handles|] == Handle(e, s.offset + |FrameOf(c.checked, e).Bytes()|,
           c.mode == FdatasyncAlways || c.mode == FsyncAlways)
      && t.synced == if c.mode == FdatasyncAlways || c.mode == FsyncAlways then |t.file| else s.synced
  {
    hide FrameOf, Fits;
  }
}
