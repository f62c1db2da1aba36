/** The log manager as the object the server holds: its methods are the steps of a run. */
module WalManager {
  import opened Basics
  import opened Crc32c
  import opened WalFraming
  import opened WalIntegers
  import opened WalCodec
  import opened WalLog

  class Manager {
    const config: Config
    ghost const base: Bytes
    var file: Bytes
    var synced: nat
    var offset: nat
    var durableOffset: nat
    var appended: Word64
    var flushed: Word64
    var waiters: seq<Waiter>
    var handles: seq<Handle>
    ghost var taken: set<Word64>
    ghost var intact: nat

    ghost function State(): Log
      reads this
    {
      Log(base, file, synced, offset, durableOffset, appended, taken, waiters, handles, intact)
    }

    ghost predicate Valid()
      reads this
    {
      Inv(config, State())
    }

    /** An empty file gets the magic; an existing one is kept, and appends go behind it. */
    constructor (config: Config, disk: Bytes)
      requires Opens(disk)
      ensures this.config == config && State() == Started(if disk == [] then MAGIC else disk) && Valid()
      ensures flushed == 0
    {
      this.config := config;
      var image := if disk == [] then MAGIC else disk;
      base, file, synced, offset, durableOffset := image, image, 0, |image|, |image|;
      appended, flushed, waiters, handles, taken, intact := 0, 0, [], [], {}, 0;
      new;
      StartedHolds(config, image);
    }

    /** A file that does not start with the magic is refused. */
    static method Open(config: Config, disk: Bytes) returns (m: Option<Manager>)
      ensures m.Some? <==> Opens(disk)
      ensures m.Some? ==> fresh(m.value) && m.value.config == config && m.value.Valid()
      ensures m.Some? ==> m.value.State() == Started(if disk == [] then MAGIC else disk)
    {
      if disk != [] && (|disk| < 8 || disk[..8] != MAGIC) {
        return None;
      }
      var manager := new Manager(config, disk);
      return Some(manager);
    }

    method TakeSequence() returns (n: Word64)
      requires Valid()
      modifies this
      ensures Valid() && State() == Apply(config, old(State()), Take)
      ensures n == appended && n in taken
    {
      hide Inv;
      appended := NextSequence(appended);
      n := appended;
      taken := taken + {n};
      ApplyKeeps(config, old(State()), Take);
    }

    /** The locked part of an append, when the kernel takes `accepted` of the bytes. */
    method WriteRecord(e: Entry, accepted: nat) returns (handle: Option<nat>)
      requires Valid() && e.sequence in taken
      modifies this
      ensures Valid() && State() == Apply(config, old(State()), Write(e, accepted))
      ensures handle.None? <==> accepted < |FrameOf(config.checked, e).Bytes()|
      ensures handle.Some? ==>
        && |handles| == |old(handles)| + 1 && handle.value == |old(handles)|
        && handles[handle.value].entry == e && handles[handle.value].offset == offset
    {
      hide FrameOf, Fits, Inv;
      var bytes := Serialise(config.checked, e);
      ApplyKeeps(config, State(), Write(e, accepted));
      if accepted < |bytes| {
        file := file + bytes[..accepted];
        taken := taken - {e.sequence};
        handle := None;
      } else {
        handle := Some(|handles|);
        Store(bytes, e, Fits(e));
      }
    }

    method Store(bytes: Bytes, e: Entry, ghost fits: bool)
      modifies this
      ensures State() == Stored(config.Immediate(), old(State()), e, bytes, fits)
    {
      var end := offset + |bytes|;
      intact := if |file| == offset && intact == |handles| && fits then intact + 1 else intact;
      taken := taken - {e.sequence};
      file := file + bytes;
      offset := end;
      if config.Immediate() {
        synced := |file|;
        durableOffset := end;
      } else {
        waiters := waiters + [Waiter(end, |handles|)];
      }
      handles := handles + [Handle(e, end, config.Immediate())];
    }

    method Append(r: Record, accepted: nat) returns (handle: Option<nat>)
      requires Valid()
      modifies this
      ensures Valid()
      ensures var e := Entry(NextSequence(old(appended)), r);
        && State() == Apply(config, Apply(config, old(State()), Take), Write(e, accepted))
        && (handle.None? <==> accepted < |FrameOf(config.checked, e).Bytes()|)
        && (handle.Some? ==>
              && |handles| == |old(handles)| + 1 && handle.value == |old(handles)|
              && handles[handle.value].entry == e && handles[handle.value].offset == offset)
    {
      hide Inv, FrameOf, Fits;
      var n := TakeSequence();
      handle := WriteRecord(Entry(n, r), accepted);
    }

    /** The group commit: sync the file, then settle the waiters it covers. */
    method Fdatasync()
      requires Valid()
      modifies this
      ensures Valid() && State() == Synced(old(State()))
      ensures waiters == [] && forall i | 0 <= i < |handles| :: handles[i].durable
    {
      hide Inv, Flip, Remaining;
      ghost var before := State();
      WaitersValid(config, before);
      synced := |file|;
      durableOffset := offset;
      handles, waiters := Settle(handles, waiters, offset);
      SyncedAll(config, before);
      SyncedKeeps(config, before);
    }

    /** Recovery: deliver every record to the callback, remember the last one it took
        as flushed, and never hand out an old sequence number again. */
    method Replay(accept: Entry -> bool) returns (delivered: seq<Entry>)
      requires Valid()
      modifies this`flushed, this`appended
      ensures Valid()
      ensures 8 <= offset <= |file| && delivered == Scan(LogCodec(config.checked), file[8..offset])
      ensures flushed == LastAccepted(delivered, accept, old(flushed))
      ensures appended == MaxSequence(delivered, old(appended))
    {
      hide Scan, Inv;
      ValidFile(config, State());
      delivered := Deliver(LogCodec(config.checked), file[..offset], 8);
      assert file[..offset][8..] == file[8..offset];
      var i := 0;
      while i < |delivered|
        invariant 0 <= i <= |delivered|
        invariant LastAccepted(delivered[i..], accept, flushed) == LastAccepted(delivered, accept, old(flushed))
        invariant MaxSequence(delivered[i..], appended) == MaxSequence(delivered, old(appended))
      {
        assert delivered[i..][1..] == delivered[i + 1..];
        if accept(delivered[i]) { flushed := delivered[i].sequence; }
        if delivered[i].sequence > appended { appended := delivered[i].sequence; }
        i := i + 1;
      }
      SameFile(config, old(State()), State());
    }
  }

  /** Replay touches the counters only. */
  lemma SameFile(c: Config, s: Log, t: Log)
    requires Inv(c, s) && t == s.(appended := t.appended)
    ensures Inv(c, t)
  {
  }

  lemma WaitersValid(c: Config, s: Log)
    requires Inv(c, s)
    ensures forall w | w in s.waiters :: w.handle < |s.handles|
  {
  }

  lemma ValidFile(c: Config, s: Log)
    requires Inv(c, s)
    ensures 8 <= s.offset <= |s.file|
  {
  }

  /** Walk the waiters, set the flags of those within the limit and erase them. */
  method Settle(handles: seq<Handle>, waiters: seq<Waiter>, limit: nat)
    returns (settled: seq<Handle>, kept: seq<Waiter>)
    requires forall w | w in waiters :: w.handle < |handles|
    ensures settled == Flip(handles, waiters, limit)
    ensures kept == Remaining(waiters, limit)
  {
    settled, kept := handles, [];
    var i := 0;
    while i < |waiters|
      invariant 0 <= i <= |waiters| && |settled| == |handles|
      invariant Flip(settled, waiters[i..], limit) == Flip(handles, waiters, limit)
      invariant kept + Remaining(waiters[i..], limit) == Remaining(waiters, limit)
    {
      var w := waiters[i];
      assert waiters[i..][1..] == waiters[i + 1..];
      if w.offset <= limit {
        settled := settled[w.handle := settled[w.handle].(durable := true)];
      } else {
        kept := kept + [w];
      }
      i := i + 1;
    }
  }

  /** The bytes of one record, field by field. */
  method Serialise(checked: bool, e: Entry) returns (bytes: Bytes)
    ensures bytes == FrameOf(checked, e).Bytes()
  {
    hide PutLe, Value, Checksum;
    var r := e.record;
    var body := AppendLe([], e.sequence, 8);
    body := AppendLe(body, r.endpointId, 8);
    body := AppendLe(body, r.tableId, 8);
    body := body + [r.op];
    body := AppendLe(body, r.rowVersion, 8);
    body := AppendLe(body, Truncate(r.timestamp, 1000) % U64, 8);
    assert body == Fixed(e);
    body := AppendLe(body, |r.primaryKey|, 4);
    body := body + r.primaryKey;
    body := AppendLe(body, |r.idempotencyKey|, 4);
    body := body + r.idempotencyKey;
    body := AppendLe(body, |r.rowBytes|, 4);
    body := body + r.rowBytes;
    assert body == Body(e);
    var crc := 0;
    if checked {
      var word := Compute(body);
      crc := Value(word);
    }
    var header := AppendLe([], 8 + |body|, 4);
    header := AppendLe(header, crc, 4);
    bytes := header + body;
  }

  function LastAccepted(es: seq<Entry>, accept: Entry -> bool, flushed: Word64): Word64
    decreases |es|
  {
    if es == [] then flushed
    else LastAccepted(es[1..], accept, if accept(es[0]) then es[0].sequence else flushed)
  }

  function MaxSequence(es: seq<Entry>, appended: Word64): Word64
    decreases |es|
  {
    if es == [] then appended
    else MaxSequence(es[1..], if es[0].sequence > appended then es[0].sequence else appended)
  }
}
