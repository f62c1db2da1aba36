/** The parse-and-erase loop of a connection, and when it does not matter how the stream was
    cut into receives. */
module HttpPipeline {
  import opened Basics
  import opened HttpSyntax
  import opened HttpPrefix
  import opened HttpExtent
  import opened HttpParser

  datatype Event = Served(request: Request) | Refused400 | Refused413

  datatype Conn = Conn(input: string, events: seq<Event>, closed: bool)

  /** Parse and erase until more input is needed or the connection is to close. The limit on
      a body is also that on the unread input. */
  function Serve(input: string, limit: nat): Conn
    decreases |input|
  {
    match Parse(input, limit)
    case Incomplete => Conn(Residue(input, limit), [], false)
    case BadRequest(_) => Conn(Residue(input, limit), [Refused400], true)
    case Oversize => Conn(Residue(input, limit), [Refused413], true)
    case Done(request, consumed) =>
      var rest := Residue(input, limit)[consumed..];
      if !request.keepAlive then Conn(rest, [Served(request)], true) else Ahead(Served(request), Serve(rest, limit))
  }

  function Ahead(e: Event, c: Conn): Conn {
    c.(events := [e] + c.events)
  }

  /** The loop of the source, on a buffer that the erasures shorten. */
  method ProcessInput(c: Conn, limit: nat) returns (r: Conn)
    ensures r == Then(c, "", limit)
  {
    hide Parse, Residue;
    r := c;
    assert c.input + "" == c.input;
    while true
      invariant r.closed == c.closed
      invariant var s, t := Serve(c.input, limit), Serve(r.input, limit);
        && s.input == t.input && s.closed == t.closed && c.events + s.events == r.events + t.events
      decreases |r.input|
    {
      var verdict := Parse(r.input, limit);
      var buffer := Residue(r.input, limit);
      match verdict {
        case Incomplete =>
          assert r.events + [] == r.events;
          return Conn(buffer, r.events, r.closed);
        case BadRequest(_) =>
          return Conn(buffer, r.events + [Refused400], true);
        case Oversize =>
          return Conn(buffer, r.events + [Refused413], true);
        case Done(request, consumed) =>
          var events := r.events + [Served(request)];
          if !request.keepAlive { return Conn(buffer[consumed..], events, true); }
          ghost var t := Serve(buffer[consumed..], limit);
          assert r.events + ([Served(request)] + t.events) == events + t.events;
          r := Conn(buffer[consumed..], events, r.closed);
      }
    }
  }

  /** More bytes arrive and are processed. */
  function Then(c: Conn, bytes: string, limit: nat): Conn {
    var s := Serve(c.input + bytes, limit);
    Conn(s.input, c.events + s.events, c.closed || s.closed)
  }

  /** Asking for the next receive is refused once the unread input has reached the limit. */
  function Rearmed(c: Conn, limit: nat): Conn {
    if c.closed || |c.input| < limit then c else Conn(c.input, c.events + [Refused413], true)
  }

  /** A receive. Single-shot, it is asked for anew each time, and a closing connection asks
      no more; multishot, it stays armed, and what still arrives while the last answer is
      being sent is processed as ever. */
  function Receive(c: Conn, bytes: string, limit: nat, multishot: bool): Conn {
    if multishot then Then(c, bytes, limit)
    else if c.closed then c
    else Rearmed(Then(c, bytes, limit), limit)
  }

  function ReceiveAll(c: Conn, parts: seq<string>, limit: nat, multishot: bool): Conn
    decreases |parts|
  {
    if parts == [] then c else ReceiveAll(Receive(c, parts[0], limit, multishot), parts[1..], limit, multishot)
  }

  const Opened: Conn := Conn("", [], false)

  function Join(parts: seq<string>): string {
    if parts == [] then "" else parts[0] + Join(parts[1..])
  }

  /** A stream cut into receives, none of them empty. */
  ghost predicate Cut(parts: seq<string>, d: string) {
    parts != [] && Join(parts) == d && forall p | p in parts :: p != ""
  }

  /** The same events, the same fate, and the same unread input unless it is closing. */
  ghost predicate Agree(a: Conn, b: Conn) {
    a.events == b.events && a.closed == b.closed && (!a.closed ==> a.input == b.input)
  }

  // ------------------------------------------------------------------ serving in two parts

  /** After a complete request, serving goes on behind it. */
  lemma ServeDone(d: string, limit: nat)
    requires Parse(d, limit).Done?
    ensures var v := Parse(d, limit);
      Serve(d, limit) == if v.request.keepAlive then Ahead(Served(v.request), Serve(d[v.consumed..], limit))
                         else Conn(d[v.consumed..], [Served(v.request)], true)
  {
    hide Parse, Residue;
    DoneLeavesRest(d, limit);
  }

  /** The prefix neither starves nor has bytes moved in its last, unfinished request. */
  ghost predicate Steady(a: string, limit: nat)
    decreases |a|
  {
    var v := Parse(a, limit);
    && v != BadRequest(true)
    && (v.Incomplete? ==> Residue(a, limit) == a)
    && (v.Done? && v.request.keepAlive ==> Steady(a[v.consumed..], limit))
  }

  /** Behind such a prefix a cut does not matter: serving a + b is serving a and then
      processing b, unless serving a closes the connection, which a + b then does alike. */
  lemma {:induction false} ServeSplit(a: string, b: string, limit: nat)
    requires Steady(a, limit)
    ensures !Serve(a, limit).closed ==> Serve(a + b, limit) == Then(Serve(a, limit), b, limit)
    ensures Serve(a, limit).closed ==> Serve(a + b, limit).closed && Serve(a + b, limit).events == Serve(a, limit).events
    decreases |a|
  {
    hide Parse, Residue;
    var v := Parse(a, limit);
    if v.Incomplete? {
      var t := Serve(a + b, limit);
      assert [] + t.events == t.events;
    } else {
      ParseStable(a, b, limit);
      if v.Done? {
        ServeDone(a, limit);
        ServeDone(a + b, limit);
        assert (a + b)[v.consumed..] == a[v.consumed..] + b;
        if v.request.keepAlive {
          ServeSplit(a[v.consumed..], b, limit);
          AheadThen(Served(v.request), Serve(a[v.consumed..], limit), b, limit);
        }
      }
    }
  }

  lemma AheadThen(e: Event, c: Conn, b: string, limit: nat)
    ensures Then(Ahead(e, c), b, limit) == Ahead(e, Then(c, b, limit))
  {
    hide Serve;
    var s := Serve(c.input + b, limit);
    assert ([e] + c.events) + s.events == [e] + (c.events + s.events);
  }

  // ------------------------------------------------------------------ streams without chunks

  /** No request of the stream announces a chunked body. */
  ghost predicate Plain(d: string, limit: nat)
    decreases |d|
  {
    var h := HeadOf(d, limit);
    var v := Parse(d, limit);
    (h.Ok? ==> !h.value.fields.chunked) &&
    (v.Done? && v.request.keepAlive ==> Plain(d[v.consumed..], limit))
  }

  lemma PlainParse(d: string, x: string, limit: nat)
    requires Plain(d + x, limit)
    ensures Residue(d, limit) == d && Parse(d, limit) != BadRequest(true)
    ensures !Parse(d, limit).Incomplete? ==> Parse(d + x, limit) == Parse(d, limit)
  {
    hide HeadOf, Chunks, Moved;
    if !HeadOf(d, limit).More? { HeadStable(d, x, limit); }
    if !Parse(d, limit).Incomplete? { ParseStable(d, x, limit); }
  }

  /** Every prefix of such a stream is one, and steady. */
  lemma {:induction false} PlainPrefix(a: string, b: string, limit: nat)
    requires Plain(a + b, limit)
    ensures Plain(a, limit) && Steady(a, limit)
    decreases |a|
  {
    hide HeadOf, Parse, Residue;
    PlainParse(a, b, limit);
    if !HeadOf(a, limit).More? { HeadStable(a, b, limit); }
    var v := Parse(a, limit);
    if v.Done? && v.request.keepAlive {
      assert (a + b)[v.consumed..] == a[v.consumed..] + b;
      PlainPrefix(a[v.consumed..], b, limit);
    }
  }

  lemma PlainRest(d: string, limit: nat)
    requires Plain(d, limit) && Parse(d, limit).Done? && Parse(d, limit).request.keepAlive
    ensures Plain(d[Parse(d, limit).consumed..], limit)
  {
    hide HeadOf, Parse;
  }

  // ------------------------------------------------------------------ single-shot receives

  /** Every request of the stream is decided within the limit, or never, or refused for its
      size anyway. */
  ghost predicate Modest(d: string, limit: nat)
    decreases |d|
  {
    var v := Parse(d, limit);
    && (|d| > limit && Parse(d[..limit], limit).Incomplete? ==> v.Incomplete? || v.Oversize?)
    && (v.Done? && v.request.keepAlive ==> Modest(d[v.consumed..], limit))
  }

  /** What one receive of the whole leaves. */
  function Settled(d: string, limit: nat): Conn {
    Rearmed(Serve(d, limit), limit)
  }

  lemma SettledDone(d: string, limit: nat)
    requires Parse(d, limit).Done?
    ensures var v := Parse(d, limit);
      Settled(d, limit) == if v.request.keepAlive then Ahead(Served(v.request), Settled(d[v.consumed..], limit))
                           else Conn(d[v.consumed..], [Served(v.request)], true)
  {
    hide Parse, Serve;
    var v := Parse(d, limit);
    ServeDone(d, limit);
    if v.request.keepAlive { RearmedAhead(Served(v.request), Serve(d[v.consumed..], limit), limit); }
  }

  lemma RearmedAhead(e: Event, c: Conn, limit: nat)
    ensures Rearmed(Ahead(e, c), limit) == Ahead(e, Rearmed(c, limit))
  {
    assert ([e] + c.events) + [Refused413] == [e] + (c.events + [Refused413]);
  }

  lemma ReceiveAhead(e: Event, c: Conn, b: string, limit: nat)
    ensures Receive(Ahead(e, c), b, limit, false) == Ahead(e, Receive(c, b, limit, false))
  {
    hide Then, Rearmed;
    AheadThen(e, c, b, limit);
    RearmedAhead(e, Then(c, b, limit), limit);
  }

  lemma ReceiveFirst(d: string, limit: nat, multishot: bool)
    ensures Receive(Opened, d, limit, multishot) == if multishot then Serve(d, limit) else Settled(d, limit)
  {
    hide Serve;
    assert "" + d == d;
    assert [] + Serve(d, limit).events == Serve(d, limit).events;
  }

  /** An undecided prefix that has reached the limit: the refusal it meets is the one the
      longer stream meets. */
  lemma GuardHarmless(a: string, b: string, limit: nat)
    requires Plain(a + b, limit) && Modest(a + b, limit) && Parse(a, limit).Incomplete? && |a| >= limit
    ensures Settled(a + b, limit).events == [Refused413] && Settled(a + b, limit).closed
  {
    hide Parse, Residue;
    if b == "" {
      assert a + b == a;
      PlainParse(a, "", limit);
      assert [] + [Refused413] == [Refused413];
    } else {
      var short := a[..limit];
      assert (a + b)[..limit] == short && a + b == short + (a[limit..] + b) && a == short + a[limit..];
      PlainPrefix(a, b, limit);
      PlainParse(short, a[limit..], limit);
      assert (a + b) + "" == a + b;
      PlainParse(a + b, "", limit);
      assert [] + [Refused413] == [Refused413];
    }
  }

  lemma {:induction false} SettleSplit(a: string, b: string, limit: nat)
    requires Plain(a + b, limit) && Modest(a + b, limit)
    ensures Agree(Receive(Settled(a, limit), b, limit, false), Settled(a + b, limit))
    decreases |a|
  {
    hide Parse, Residue, Rearmed, Serve;
    PlainParse(a, b, limit);
    var v := Parse(a, limit);
    if v.Done? {
      SettledDone(a, limit);
      SettledDone(a + b, limit);
      assert (a + b)[v.consumed..] == a[v.consumed..] + b;
      if v.request.keepAlive {
        PlainRest(a + b, limit);
        SettleSplit(a[v.consumed..], b, limit);
        ReceiveAhead(Served(v.request), Settled(a[v.consumed..], limit), b, limit);
      }
    } else {
      SettleUnfinished(a, b, limit);
    }
  }

  lemma SettleUnfinished(a: string, b: string, limit: nat)
    requires Plain(a + b, limit) && Modest(a + b, limit) && !Parse(a, limit).Done?
    ensures Agree(Receive(Settled(a, limit), b, limit, false), Settled(a + b, limit))
  {
    hide Parse, Residue;
    PlainParse(a, b, limit);
    PlainPrefix(a, b, limit);
    ServeSplit(a, b, limit);
    if Parse(a, limit).Incomplete? {
      if |a| >= limit {
        GuardHarmless(a, b, limit);
        assert [] + [Refused413] == [Refused413];
      } else {
        assert [] + Serve(a + b, limit).events == Serve(a + b, limit).events;
      }
    }
  }

  lemma {:induction false} ModestPrefix(a: string, b: string, limit: nat)
    requires Plain(a + b, limit) && Modest(a + b, limit)
    ensures Modest(a, limit)
    decreases |a|
  {
    hide Parse, Residue;
    PlainParse(a, b, limit);
    var v := Parse(a, limit);
    if |a| > limit { assert (a + b)[..limit] == a[..limit]; }
    if v.Done? && v.request.keepAlive {
      PlainRest(a + b, limit);
      assert (a + b)[v.consumed..] == a[v.consumed..] + b;
      ModestPrefix(a[v.consumed..], b, limit);
    }
  }

  lemma AgreeReceive(c: Conn, d: Conn, b: string, limit: nat)
    requires Agree(c, d)
    ensures Agree(Receive(c, b, limit, false), Receive(d, b, limit, false))
  {
    hide Serve;
  }

  lemma {:induction false} AgreeAll(c: Conn, d: Conn, parts: seq<string>, limit: nat)
    requires Agree(c, d)
    ensures Agree(ReceiveAll(c, parts, limit, false), ReceiveAll(d, parts, limit, false))
    decreases |parts|
  {
    hide Receive, Agree;
    if parts != [] {
      AgreeReceive(c, d, parts[0], limit);
      AgreeAll(Receive(c, parts[0], limit, false), Receive(d, parts[0], limit, false), parts[1..], limit);
    }
  }

  lemma {:induction false} SettleAll(a: string, parts: seq<string>, limit: nat)
    requires Plain(a + Join(parts), limit) && Modest(a + Join(parts), limit)
    ensures Agree(ReceiveAll(Settled(a, limit), parts, limit, false), Settled(a + Join(parts), limit))
    decreases |parts|
  {
    hide Receive, Settled, Plain, Modest;
    if parts == [] {
      assert a + "" == a;
    } else {
      var b, rest := parts[0], Join(parts[1..]);
      assert a + Join(parts) == (a + b) + rest;
      PlainPrefix(a + b, rest, limit);
      ModestPrefix(a + b, rest, limit);
      SettleSplit(a, b, limit);
      SettleAll(a + b, parts[1..], limit);
      AgreeAll(Receive(Settled(a, limit), b, limit, false), Settled(a + b, limit), parts[1..], limit);
    }
  }

  /** Split independence: however such a stream is cut into receives, the connection serves
      the same requests, gives the same refusals and is left with the same unread input as if
      the whole had come at once. */
  lemma SplitIndependent(parts: seq<string>, limit: nat)
    requires parts != [] && Plain(Join(parts), limit) && Modest(Join(parts), limit)
    ensures Agree(ReceiveAll(Opened, parts, limit, false), Receive(Opened, Join(parts), limit, false))
  {
    hide Receive, Settled, Plain, Modest;
    ReceiveFirst(parts[0], limit, false);
    ReceiveFirst(Join(parts), limit, false);
    SettleAll(parts[0], parts[1..], limit);
  }

  /** Where it fails: the request that outgrows the limit, cut at the limit. */
  lemma {:induction false} LimitCut(d: string, limit: nat) returns (n: nat)
    requires Plain(d, limit) && !Modest(d, limit)
    ensures limit <= n < |d|
    ensures !Agree(Receive(Settled(d[..n], limit), d[n..], limit, false), Settled(d, limit))
    decreases |d|
  {
    hide Parse, Residue, Rearmed, Serve;
    var v := Parse(d, limit);
    if |d| > limit && Parse(d[..limit], limit).Incomplete? && !v.Incomplete? && !v.Oversize? {
      n := limit;
      assert d == d[..n] + d[n..];
      CutAtLimit(d[..n], d[n..], limit);
    } else {
      PlainRest(d, limit);
      var rest := d[v.consumed..];
      var m := LimitCut(rest, limit);
      n := v.consumed + m;
      assert d[..n][v.consumed..] == rest[..m] && d[n..] == rest[m..];
      DoneHasNoLength(d, limit);
      DecidedByOwnBytes(d, n, limit);
      SettledDone(d, limit);
      SettledDone(d[..n], limit);
      ReceiveAhead(Served(v.request), Settled(rest[..m], limit), d[n..], limit);
      AheadApart(Served(v.request), Receive(Settled(rest[..m], limit), d[n..], limit, false), Settled(rest, limit));
    }
  }

  lemma AheadApart(e: Event, a: Conn, b: Conn)
    requires !Agree(a, b)
    ensures !Agree(Ahead(e, a), Ahead(e, b))
  {
    assert ([e] + a.events)[1..] == a.events && ([e] + b.events)[1..] == b.events;
  }

  lemma CutAtLimit(a: string, b: string, limit: nat)
    requires Plain(a + b, limit) && Parse(a, limit).Incomplete? && |a| == limit
    requires Parse(a + b, limit).Done? || Parse(a + b, limit).BadRequest?
    ensures !Agree(Receive(Settled(a, limit), b, limit, false), Settled(a + b, limit))
  {
    hide Parse, Residue;
    PlainParse(a, b, limit);
    assert Settled(a, limit).events == [] + [Refused413] == [Refused413];
    var v := Parse(a + b, limit);
    if v.Done? { SettledDone(a + b, limit); }
    assert Settled(a + b, limit).events[0] != Refused413;
  }

  /** For a stream without chunked requests, single-shot: every way of cutting it is harmless
      if and only if every request in it is decided within the limit, or not at all. */
  lemma SplitIndependentIff(d: string, limit: nat)
    requires Plain(d, limit) && limit > 0
    ensures Modest(d, limit) <==> forall parts | Cut(parts, d) ::
      Agree(ReceiveAll(Opened, parts, limit, false), Receive(Opened, d, limit, false))
  {
    hide Receive, Settled, Plain, Modest, Agree;
    if Modest(d, limit) {
      forall parts | Cut(parts, d) ensures Agree(ReceiveAll(Opened, parts, limit, false), Receive(Opened, d, limit, false)) {
        SplitIndependent(parts, limit);
      }
    } else {
      var n := LimitCut(d, limit);
      var parts := [d[..n], d[n..]];
      TwoParts(d[..n], d[n..], limit, false);
      assert d == d[..n] + d[n..];
      assert Cut(parts, d);
      ReceiveFirst(d[..n], limit, false);
      ReceiveFirst(d, limit, false);
    }
  }

  lemma TwoParts(a: string, b: string, limit: nat, multishot: bool)
    ensures Join([a, b]) == a + b
    ensures ReceiveAll(Opened, [a, b], limit, multishot) == Receive(Receive(Opened, a, limit, multishot), b, limit, multishot)
  {
    hide Receive;
    assert [a, b][1..] == [b] && [b][1..] == [];
    assert Join([b]) == b + Join([]) == b;
    var c := Receive(Opened, a, limit, multishot);
    assert ReceiveAll(c, [b], limit, multishot) == ReceiveAll(Receive(c, b, limit, multishot), [], limit, multishot);
  }

  // ------------------------------------------------------------------ multishot receives

  /** No request announces a chunked body, not even behind one that closes. */
  ghost predicate PlainThrough(d: string, limit: nat)
    decreases |d|
  {
    var h := HeadOf(d, limit);
    var v := Parse(d, limit);
    (h.Ok? ==> !h.value.fields.chunked) && (v.Done? ==> PlainThrough(d[v.consumed..], limit))
  }

  lemma {:induction false} ThroughPlain(d: string, limit: nat)
    requires PlainThrough(d, limit)
    ensures Plain(d, limit)
    decreases |d|
  {
    hide HeadOf, Parse;
    var v := Parse(d, limit);
    if v.Done? { ThroughPlain(d[v.consumed..], limit); }
  }

  /** The stream closes with its last byte, or not at all, or with a request that asks for
      it and has nothing behind it that would be answered. */
  ghost predicate Calm(d: string, limit: nat)
    decreases |d|
  {
    var v := Parse(d, limit);
    match v
    case Incomplete => true
    case Done(request, consumed) =>
      if request.keepAlive then Calm(d[consumed..], limit) else Parse(d[consumed..], limit).Incomplete?
    case _ => d != "" && Parse(d[..|d| - 1], limit).Incomplete?
  }

  /** Bytes of an unfinished request are processed without an event. */
  lemma {:induction false} Waits(c: Conn, parts: seq<string>, limit: nat)
    requires Plain(c.input + Join(parts), limit) && Parse(c.input + Join(parts), limit).Incomplete?
    ensures var r := ReceiveAll(c, parts, limit, true);
      r.events == c.events && r.closed == c.closed && r.input == c.input + Join(parts)
    decreases |parts|
  {
    hide Parse, Residue, Plain;
    if parts == [] {
      assert c.input + "" == c.input;
    } else {
      var rest := Join(parts[1..]);
      assert c.input + Join(parts) == (c.input + parts[0]) + rest;
      PlainParse(c.input + parts[0], rest, limit);
      assert c.events + [] == c.events;
      Waits(Receive(c, parts[0], limit, true), parts[1..], limit);
    }
  }

  /** What has been served of a calm stream goes on as the whole would. */
  lemma {:induction false} CalmAll(a: string, parts: seq<string>, limit: nat)
    requires PlainThrough(a + Join(parts), limit) && Calm(a + Join(parts), limit)
    requires forall p | p in parts :: p != ""
    ensures Agree(ReceiveAll(Serve(a, limit), parts, limit, true), Serve(a + Join(parts), limit))
    decreases |parts|
  {
    hide Serve, Plain, PlainThrough, Calm, Parse, Steady;
    if parts == [] {
      assert a + "" == a;
    } else {
      var b, rest := parts[0], Join(parts[1..]);
      assert b in parts;
      assert a + Join(parts) == (a + b) + rest;
      ThroughPlain(a + Join(parts), limit);
      PlainPrefix(a, Join(parts), limit);
      ServeSplit(a, b, limit);
      if Serve(a, limit).closed {
        ClosedQuietly(a, parts, limit);
      } else {
        assert forall p | p in parts[1..] :: p in parts;
        CalmAll(a + b, parts[1..], limit);
      }
    }
  }

  lemma {:induction false} ClosedQuietly(a: string, parts: seq<string>, limit: nat)
    requires PlainThrough(a + Join(parts), limit) && Calm(a + Join(parts), limit) && Join(parts) != ""
    requires Serve(a, limit).closed
    ensures Agree(ReceiveAll(Serve(a, limit), parts, limit, true), Serve(a + Join(parts), limit))
    decreases |a|
  {
    hide Parse, Residue, Plain, Serve, Steady;
    var b := Join(parts);
    ThroughPlain(a + b, limit);
    PlainPrefix(a, b, limit);
    PlainParse(a, b, limit);
    ServeSplit(a, b, limit);
    var v := Parse(a, limit);
    NotIncomplete(a, limit);
    if v.Done? {
      assert (a + b)[v.consumed..] == a[v.consumed..] + b;
      ServeDone(a, limit);
      ServeDone(a + b, limit);
      if v.request.keepAlive {
        ClosedQuietly(a[v.consumed..], parts, limit);
        AheadAll(Served(v.request), Serve(a[v.consumed..], limit), parts, limit);
      } else {
        ThroughPlain(a[v.consumed..] + b, limit);
        Waits(Serve(a, limit), parts, limit);
      }
    } else {
      DecidedEarly(a, b, limit);
    }
  }

  lemma NotIncomplete(a: string, limit: nat)
    requires Serve(a, limit).closed
    ensures !Parse(a, limit).Incomplete?
  {
    hide Parse, Residue;
  }

  /** A refusal decided before the last byte is not calm. */
  lemma DecidedEarly(a: string, b: string, limit: nat)
    requires Plain(a + b, limit) && b != "" && !Parse(a, limit).Incomplete? && !Parse(a, limit).Done?
    ensures !Calm(a + b, limit)
  {
    hide Parse, Residue, Plain;
    PlainParse(a, b, limit);
    var init := (a + b)[..|a + b| - 1];
    assert init == a + b[..|b| - 1] && a + b == init + b[|b| - 1..];
    PlainPrefix(init, b[|b| - 1..], limit);
    PlainParse(a, b[..|b| - 1], limit);
  }

  lemma {:induction false} AheadAll(e: Event, c: Conn, parts: seq<string>, limit: nat)
    ensures ReceiveAll(Ahead(e, c), parts, limit, true) == Ahead(e, ReceiveAll(c, parts, limit, true))
    decreases |parts|
  {
    hide Then;
    if parts != [] {
      AheadThen(e, c, parts[0], limit);
      AheadAll(e, Receive(c, parts[0], limit, true), parts[1..], limit);
    }
  }

  /** Where it fails: cut right behind the close, and the rest is answered once more. */
  lemma {:induction false} EchoCut(d: string, limit: nat) returns (n: nat)
    requires PlainThrough(d, limit) && !Calm(d, limit)
    ensures 0 < n < |d| && !Agree(Then(Serve(d[..n], limit), d[n..], limit), Serve(d, limit))
    decreases |d|
  {
    hide Parse, Residue, Serve, Plain;
    var v := Parse(d, limit);
    ThroughPlain(d, limit);
    if v.Done? {
      var rest := d[v.consumed..];
      if v.request.keepAlive {
        var m := EchoCut(rest, limit);
        n := v.consumed + m;
        assert d[..n][v.consumed..] == rest[..m] && d[n..] == rest[m..];
        DoneIn(d, n, limit);
        AheadThen(Served(v.request), Serve(rest[..m], limit), d[n..], limit);
        AheadApart(Served(v.request), Then(Serve(rest[..m], limit), d[n..], limit), Serve(rest, limit));
      } else {
        n := v.consumed;
        assert d[..n][v.consumed..] == "" && "" + rest == rest;
        DoneIn(d, n, limit);
        SomeEvent(rest, limit);
        EmptyIncomplete(limit);
      }
    } else {
      EmptyIncomplete(limit);
      n := |d| - 1;
      assert d == d[..n] + d[n..];
      PlainParse(d[..n], d[n..], limit);
      AnsweredTwice(d[..n], d[n..], limit);
    }
  }

  lemma DoneIn(d: string, n: nat, limit: nat)
    requires PlainThrough(d, limit) && Parse(d, limit).Done? && Parse(d, limit).consumed <= n <= |d|
    ensures Parse(d[..n], limit) == Parse(d, limit)
    ensures var v := Parse(d, limit);
      && Serve(d, limit) == (if v.request.keepAlive then Ahead(Served(v.request), Serve(d[v.consumed..], limit)) else Conn(d[v.consumed..], [Served(v.request)], true))
      && Serve(d[..n], limit) == (if v.request.keepAlive then Ahead(Served(v.request), Serve(d[..n][v.consumed..], limit)) else Conn(d[..n][v.consumed..], [Served(v.request)], true))
  {
    hide Parse, Serve;
    DoneHasNoLength(d, limit);
    DecidedByOwnBytes(d, n, limit);
    ServeDone(d, limit);
    ServeDone(d[..n], limit);
  }

  lemma SomeEvent(d: string, limit: nat)
    requires !Parse(d, limit).Incomplete?
    ensures Serve(d, limit).events != []
  {
    hide Parse, Residue;
  }

  lemma EmptyIncomplete(limit: nat)
    ensures Parse("", limit).Incomplete?
  {
  }

  lemma AnsweredTwice(a: string, b: string, limit: nat)
    requires Plain(a + b, limit) && !Parse(a, limit).Incomplete? && !Parse(a, limit).Done?
    ensures !Agree(Then(Serve(a, limit), b, limit), Serve(a + b, limit))
  {
    hide Parse, Plain;
    PlainParse(a, b, limit);
  }

  /** For a stream without chunked requests, multishot: every way of cutting it is harmless if
      and only if the stream closes with its last byte or not at all, or quietly. */
  lemma MultishotIff(d: string, limit: nat)
    requires PlainThrough(d, limit)
    ensures Calm(d, limit) <==> forall parts | Cut(parts, d) ::
      Agree(ReceiveAll(Opened, parts, limit, true), Receive(Opened, d, limit, true))
  {
    hide Serve, PlainThrough, Calm, Agree, Then;
    ReceiveFirst(d, limit, true);
    if Calm(d, limit) {
      forall parts | Cut(parts, d) ensures Agree(ReceiveAll(Opened, parts, limit, true), Receive(Opened, d, limit, true)) {
        ReceiveFirst(parts[0], limit, true);
        assert forall p | p in parts[1..] :: p in parts;
        CalmAll(parts[0], parts[1..], limit);
      }
    } else {
      var n := EchoCut(d, limit);
      var parts := [d[..n], d[n..]];
      TwoParts(d[..n], d[n..], limit, true);
      assert d == d[..n] + d[n..];
      assert Cut(parts, d);
      ReceiveFirst(d[..n], limit, true);
    }
  }

  // ------------------------------------------------------------------ chunked requests

  /** A cut right behind the head of a chunked request turns it into a refusal. */
  lemma ChunkedCutRefused(head: string, body: string, limit: nat, multishot: bool)
    requires var h := HeadOf(head, limit);
      h.Ok? && h.pos == |head| && h.value.fields.chunked && h.value.fields.length.None?
    ensures Receive(Opened, head, limit, multishot) == Conn(head, [Refused400], true)
    ensures [Refused400] <= ReceiveAll(Opened, [head, body], limit, multishot).events
  {
    hide HeadOf, Parse, Residue;
    ReceiveFirst(head, limit, multishot);
    HeadStarves(head, limit);
    TwoParts(head, body, limit, multishot);
  }

  /** For one complete request that keeps the connection alive, every way of cutting it is
      harmless exactly when it is not chunked and, single-shot, no longer than the limit. */
  lemma CutsHarmlessIff(head: string, body: string, limit: nat, multishot: bool)
    requires var h := HeadOf(head, limit); h.Ok? && h.pos == |head| && limit > 0
    requires var v := Parse(head + body, limit);
      v.Done? && v.consumed == |head + body| && v.request.keepAlive
    ensures !HeadOf(head, limit).value.fields.chunked && (multishot || |head + body| <= limit)
      <==> forall parts | Cut(parts, head + body) ::
             Agree(ReceiveAll(Opened, parts, limit, multishot), Receive(Opened, head + body, limit, multishot))
  {
    hide HeadOf, Chunks, Moved, ReceiveAll, Parse, Residue, Receive;
    var d := head + body;
    HeadStable(head, body, limit);
    EmptyPlain(limit);
    assert d[|d|..] == "";
    if !HeadOf(head, limit).value.fields.chunked {
      if multishot {
        MultishotIff(d, limit);
      } else {
        SplitIndependentIff(d, limit);
        if |d| > limit { DecidedByOwnBytes(d, limit, limit); }
      }
    } else {
      DoneHasNoLength(d, limit);
      ChunkedCutRefused(head, body, limit, multishot);
      ChunkedNeedsBody(head, body, limit);
      TwoParts(head, body, limit, multishot);
      assert Cut([head, body], d);
      ReceiveFirst(d, limit, multishot);
      ServedFirst(d, limit);
    }
  }

  lemma ServedFirst(d: string, limit: nat)
    requires Parse(d, limit).Done?
    ensures Serve(d, limit).events != [] && Serve(d, limit).events[0].Served?
    ensures Settled(d, limit).events != [] && Settled(d, limit).events[0].Served?
  {
    hide Parse;
    SettledDone(d, limit);
    ServeDone(d, limit);
  }

  lemma ChunkedNeedsBody(head: string, body: string, limit: nat)
    requires var h := HeadOf(head, limit);
      h.Ok? && h.pos == |head| && h.value.fields.chunked && h.value.fields.length.None?
    requires Parse(head + body, limit).Done?
    ensures head != "" && body != ""
  {
    hide HeadOf;
    assert body == "" ==> head + body == head;
    HeadStarves(head, limit);
  }

  lemma HeadStarves(head: string, limit: nat)
    requires var h := HeadOf(head, limit);
      h.Ok? && h.pos == |head| && h.value.fields.chunked && h.value.fields.length.None?
    ensures Parse(head, limit) == BadRequest(true) && Residue(head, limit) == head
  {
    hide HeadOf;
    assert Chunks(head, |head|, "", limit).Starved? && Moved(head, |head|, "", limit) == "";
    assert head[..|head|] + "" + head[|head|..] == head;
  }

  lemma EmptyPlain(limit: nat)
    ensures Plain("", limit) && PlainThrough("", limit) && Modest("", limit) && Calm("", limit)
  {
  }

  lemma DoneHasNoLength(d: string, limit: nat)
    requires Parse(d, limit).Done?
    ensures var h := HeadOf(d, limit); h.Ok? && (h.value.fields.chunked ==> h.value.fields.length.None?)
  {
    hide HeadOf, Chunks;
  }
}
