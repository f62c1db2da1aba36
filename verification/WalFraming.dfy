/** The record framing of the log file and the recovery scan over it.

    A frame is a length, a checksum and a body. The scan is stated for any checksum and
    any body decoder, so that what it delivers from whole, cut and damaged files follows
    from the framing alone. */
module WalFraming {
  import opened Basics
  import opened Crc32c

  datatype Frame = Frame(size: Bytes, crc: Bytes, body: Bytes) {
    function Bytes(): Bytes {
      size + crc + body
    }
  }

  /** How a four-byte field is read, how a body is summed, and how it is decoded. */
  datatype Codec<!E> = Codec(checked: bool, field: Bytes -> nat, sum: Bytes -> nat, decode: Bytes -> Option<E>) {
    /** The length field counts the whole frame. */
    ghost predicate Sized(f: Frame) {
      |f.size| == 4 && |f.crc| == 4 && field(f.size) == 8 + |f.body|
    }

    /** The frame's checksum is right, when checksums are on, and its body decodes to e. */
    ghost predicate Reads(f: Frame, e: E) {
      Sized(f) && (checked ==> sum(f.body) == field(f.crc)) && decode(f.body) == Some(e)
    }
  }

  /** What a scan delivers from the bytes after the file magic. */
  function Scan<E>(c: Codec<E>, data: Bytes): seq<E>
    decreases |data|
  {
    if |data| < 8 then [] else
    var total := c.field(data[..4]);
    if total < 8 || total > |data| then [] else
    var body := data[8..total];
    if c.checked && c.sum(body) != c.field(data[4..8]) then [] else
    var e := c.decode(body);
    if e.None? then [] else [e.value] + Scan(c, data[total..])
  }

  lemma ScanShort<E>(c: Codec<E>, data: Bytes)
    requires |data| < 8
    ensures Scan(c, data) == []
  {
  }

  /** One turn of the scanning loop, at an offset of the file. */
  lemma ScanTurn<E>(c: Codec<E>, file: Bytes, off: nat, delivered: seq<E>)
    requires off + 8 <= |file|
    ensures
      var total := c.field(file[off..off + 4]);
      if total < 8 || off + total > |file| then Scan(c, file[off..]) == []
      else
        var body := file[off + 8..off + total];
        if (c.checked && c.sum(body) != c.field(file[off + 4..off + 8])) || c.decode(body).None? then Scan(c, file[off..]) == []
        else delivered + Scan(c, file[off..]) == (delivered + [c.decode(body).value]) + Scan(c, file[off + total..])
  {
    var rest := file[off..];
    var total := c.field(file[off..off + 4]);
    assert rest[..4] == file[off..off + 4] && rest[4..8] == file[off + 4..off + 8];
    if 8 <= total && off + total <= |file| {
      assert rest[8..total] == file[off + 8..off + total] && rest[total..] == file[off + total..];
    }
  }

  /** The scanning loop of the source. */
  method Deliver<E>(c: Codec<E>, file: Bytes, start: nat) returns (delivered: seq<E>)
    requires start <= |file|
    ensures delivered == Scan(c, file[start..])
  {
    hide Scan;
    delivered := [];
    var off := start;
    while off + 8 <= |file|
      invariant start <= off <= |file|
      invariant delivered + Scan(c, file[off..]) == Scan(c, file[start..])
    {
      ScanTurn(c, file, off, delivered);
      var total := c.field(file[off..off + 4]);
      var crc := c.field(file[off + 4..off + 8]);
      if total < 8 || off + total > |file| { return; }
      var body := file[off + 8..off + total];
      if c.checked && c.sum(body) != crc { return; }
      var e := c.decode(body);
      if e.None? { return; }
      delivered := delivered + [e.value];
      off := off + total;
    }
    ScanShort(c, file[off..]);
  }

  function Flatten(fs: seq<Frame>): Bytes {
    if fs == [] then [] else fs[0].Bytes() + Flatten(fs[1..])
  }

  /** How many of the frames lie wholly within the first n bytes. */
  function WholeBefore(fs: seq<Frame>, n: nat): (k: nat)
    ensures k <= |fs|
    decreases |fs|
  {
    if fs == [] || |fs[0].Bytes()| > n then 0
    else 1 + WholeBefore(fs[1..], n - |fs[0].Bytes()|)
  }

  ghost predicate AllRead<E>(c: Codec<E>, fs: seq<Frame>, es: seq<E>) {
    |fs| == |es| && forall i | 0 <= i < |fs| :: c.Reads(fs[i], es[i])
  }

  lemma Cuts(f: Frame, rest: Bytes)
    requires |f.size| == |f.crc| == 4
    ensures var data := f.Bytes() + rest;
      && data[..4] == f.size && data[4..8] == f.crc
      && data[8..8 + |f.body|] == f.body && data[8 + |f.body|..] == rest
  {
    var data := f.Bytes() + rest;
    assert data[..4] == f.size && data[4..8] == f.crc;
    assert data[8..8 + |f.body|] == f.body && data[8 + |f.body|..] == rest;
  }

  /** A frame at the front is delivered and the scan goes on behind it. */
  lemma ScanOne<E>(c: Codec<E>, f: Frame, e: E, rest: Bytes)
    requires c.Reads(f, e)
    ensures Scan(c, f.Bytes() + rest) == [e] + Scan(c, rest)
  {
    Cuts(f, rest);
  }

  /** Whatever follows a run of whole frames, the scan delivers them first, in order. */
  lemma {:induction false} ScanPrefix<E>(c: Codec<E>, fs: seq<Frame>, es: seq<E>, rest: Bytes)
    requires AllRead(c, fs, es)
    ensures Scan(c, Flatten(fs) + rest) == es + Scan(c, rest)
    decreases |fs|
  {
    if fs == [] {
      assert Flatten(fs) + rest == rest;
    } else {
      Associative(fs[0].Bytes(), Flatten(fs[1..]), rest);
      ScanOne(c, fs[0], es[0], Flatten(fs[1..]) + rest);
      ScanPrefix(c, fs[1..], es[1..], rest);
      Associative([es[0]], es[1..], Scan(c, rest));
      assert es == [es[0]] + es[1..];
    }
  }

  lemma Associative<T>(a: seq<T>, b: seq<T>, c: seq<T>)
    ensures (a + b) + c == a + (b + c)
  {
  }

  /** A proper prefix of one frame delivers nothing. */
  lemma ScanTorn<E>(c: Codec<E>, f: Frame, n: nat)
    requires c.Sized(f) && n < |f.Bytes()|
    ensures Scan(c, f.Bytes()[..n]) == []
  {
    if n >= 8 {
      assert f.Bytes()[..n][..4] == f.size;
    }
  }

  /** A file cut anywhere delivers exactly the whole frames before the cut. */
  lemma {:induction false} ScanCut<E>(c: Codec<E>, fs: seq<Frame>, es: seq<E>, n: nat)
    requires AllRead(c, fs, es) && n <= |Flatten(fs)|
    ensures Scan(c, Flatten(fs)[..n]) == es[..WholeBefore(fs, n)]
    decreases |fs|
  {
    hide Scan;
    if fs == [] {
      ScanShort(c, Flatten(fs)[..n]);
    } else {
      var first, rest := fs[0].Bytes(), Flatten(fs[1..]);
      if |first| > n {
        assert (first + rest)[..n] == first[..n];
        ScanTorn(c, fs[0], n);
      } else {
        var m := n - |first|;
        assert (first + rest)[..n] == first + rest[..m];
        ScanOne(c, fs[0], es[0], rest[..m]);
        ScanCut(c, fs[1..], es[1..], m);
        assert es[..1 + WholeBefore(fs[1..], m)] == [es[0]] + es[1..][..WholeBefore(fs[1..], m)];
      }
    }
  }

  /** With checksums on, a frame whose body no longer has its checksum ends the scan:
      everything before it is delivered, and nothing else, whatever follows. */
  lemma ScanStops<E>(c: Codec<E>, fs: seq<Frame>, es: seq<E>, bad: Frame, rest: Bytes)
    requires AllRead(c, fs, es)
    requires c.Sized(bad) && c.checked && c.sum(bad.body) != c.field(bad.crc)
    ensures Scan(c, Flatten(fs) + (bad.Bytes() + rest)) == es
  {
    ScanPrefix(c, fs, es, bad.Bytes() + rest);
    Cuts(bad, rest);
  }

  lemma {:induction false} FlattenAppend(fs: seq<Frame>, f: Frame)
    ensures Flatten(fs + [f]) == Flatten(fs) + f.Bytes()
  {
    if fs == [] {
      assert fs + [f] == [f];
    } else {
      assert (fs + [f])[1..] == fs[1..] + [f];
      FlattenAppend(fs[1..], f);
    }
  }
}
