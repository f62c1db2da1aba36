/** Streams of messages on one connection: what is served, what is refused and with which
    answer, and that a finished head is always decided. */
module HttpStreams {
  import opened Basics
  import opened HttpSyntax
  import opened HttpMeaning
  import opened HttpRender
  import opened HttpSound
  import opened HttpPipeline
  import opened TextAt

  // ------------------------------------------------------------------ pipelined messages

  function Texts(ms: seq<Message>): string {
    if ms == [] then "" else ms[0].Text() + Texts(ms[1..])
  }

  /** Valid messages that keep the connection open. */
  ghost predicate KeepOpen(ms: seq<Message>, limit: nat) {
    forall i | 0 <= i < |ms| :: ms[i].Valid(limit) && ms[i].Request(limit).keepAlive
  }

  lemma OneServed(m: Message, rest: string, limit: nat)
    requires m.Valid(limit)
    ensures var request := m.Request(limit);
      Serve(m.Text() + rest, limit)
      == if request.keepAlive then Ahead(Served(request), Serve(rest, limit)) else Conn(rest, [Served(request)], true)
  {
    hide Message.Valid, Message.Text, Message.Request, Parse;
    var d := m.Text() + rest;
    assert m.Text() <= d;
    var request := m.Request(limit) by { Readable(m, limit); }
    assert Begins(d, m, limit, request, |m.Text()|);
    BeginsReads(d, m, limit, request, |m.Text()|);
    ServeDone(d, limit);
    assert d[|m.Text()|..] == rest;
  }

  lemma Readable(m: Message, limit: nat)
    requires m.Valid(limit)
    ensures m.head.Said(limit).Ok?
  {
  }

  /** A stream of valid messages that keep the connection open is served as their requests, one
      by one and in order, and what follows is served as if it stood alone. */
  lemma {:induction false} StreamServed(ms: seq<Message>, rest: string, limit: nat)
    requires KeepOpen(ms, limit)
    ensures var c := Serve(Texts(ms) + rest, limit);
      && |c.events| == |ms| + |Serve(rest, limit).events|
      && (forall i | 0 <= i < |ms| :: ms[i].head.Said(limit).Ok? && c.events[i] == Served(ms[i].Request(limit)))
      && c.events[|ms|..] == Serve(rest, limit).events
      && c.input == Serve(rest, limit).input && c.closed == Serve(rest, limit).closed
    decreases |ms|
  {
    hide Message.Valid, Message.Text, Message.Request, Serve, HeadText.Said;
    if ms == [] {
      assert Texts(ms) + rest == rest;
    } else {
      var m, more := ms[0], ms[1..];
      assert Texts(ms) + rest == m.Text() + (Texts(more) + rest);
      Readable(m, limit);
      assert m.Valid(limit) && m.Request(limit).keepAlive;
      OneServed(m, Texts(more) + rest, limit);
      assert forall i | 0 <= i < |more| :: more[i] == ms[i + 1];
      StreamServed(more, rest, limit);
      var c, d := Serve(Texts(ms) + rest, limit), Serve(Texts(more) + rest, limit);
      assert c.events == [Served(m.Request(limit))] + d.events;
      forall i | 0 <= i < |ms| ensures ms[i].head.Said(limit).Ok? && c.events[i] == Served(ms[i].Request(limit)) {
        if i > 0 { assert ms[i] == more[i - 1] && c.events[i] == d.events[i - 1]; }
      }
      Dropped([Served(m.Request(limit))], d.events, |more|);
    }
  }

  lemma Dropped(first: seq<Event>, later: seq<Event>, n: nat)
    requires |first| == 1 && n <= |later|
    ensures (first + later)[n + 1..] == later[n..]
  {
  }

  /** A message that does not keep the connection open is served and closes it; what follows is
      left unread. */
  lemma LastServed(m: Message, rest: string, limit: nat)
    requires m.Valid(limit) && !m.Request(limit).keepAlive
    ensures Serve(m.Text() + rest, limit) == Conn(rest, [Served(m.Request(limit))], true)
  {
    hide Message.Valid, Message.Text, Message.Request, Serve;
    OneServed(m, rest, limit);
  }

  // ------------------------------------------------------------------ refusals

  /** A head with an unacceptable line is answered and the connection closed: 413 when the first
      such line is a length over the limit, 400 for any other. */
  lemma RefusedHead(t: HeadText, rest: string, limit: nat) returns (i: nat)
    requires t.Valid() && !t.Said(limit).Ok?
    ensures var hs := Headers(t.fields);
      && i < |hs| && !Acceptable(hs[i], limit) && (forall k | 0 <= k < i :: Acceptable(hs[k], limit))
      && var c := Serve(t.Text() + rest, limit);
         c.closed && c.events == [if IsLength(hs[i]) && LengthOf(hs[i].1, limit).TooBig? then Refused413 else Refused400]
  {
    hide HeadText.Text, HeadText.Valid, HeadOf, NoteAll, Acceptable, Residue;
    i := NoteAllRefuses(Fields(t.current, [], None, false), Headers(t.fields), limit);
    var d := t.Text() + rest;
    assert d[..|t.Text()|] == t.Text();
    HeadReads(d, t, limit);
  }

  /** A message may not be framed both ways. */
  lemma RefusedFraming(t: HeadText, rest: string, limit: nat)
    requires t.Valid() && t.Said(limit).Ok? && t.Said(limit).value.chunked && t.Said(limit).value.length.Some?
    ensures var c := Serve(t.Text() + rest, limit); c.closed && c.events == [Refused400]
  {
    hide HeadText.Text, HeadText.Valid, HeadText.Said, HeadOf, Residue;
    var d := t.Text() + rest;
    assert d[..|t.Text()|] == t.Text();
    HeadReads(d, t, limit);
  }

  /** A body that is still shorter than declared is awaited, and the input kept. */
  lemma ShortBodyAwaited(t: HeadText, part: string, limit: nat)
    requires t.Valid() && t.Said(limit).Ok? && !t.Said(limit).value.chunked
    requires t.Said(limit).value.length.Some? && |part| < t.Said(limit).value.length.value <= limit
    ensures Serve(t.Text() + part, limit) == Conn(t.Text() + part, [], false)
  {
    hide HeadText.Text, HeadText.Valid, HeadText.Said, HeadOf;
    var d := t.Text() + part;
    assert d[..|t.Text()|] == t.Text();
    HeadReads(d, t, limit);
  }

  lemma {:induction false} ChunksOver(d: string, p: nat, cs: seq<ChunkText>, size: string, extension: string, value: nat,
                                      rest: string, body: string, limit: nat)
    requires (forall c | c in cs :: c.Valid()) && SizeText(size, extension, value) && value > 0
    requires At(d, p, ChunksText(cs, size + (extension + ("\r\n" + rest))))
    requires |body| + |Data(cs)| <= limit < |body| + |Data(cs)| + value
    ensures p <= |d| && Chunks(d, p, body, limit) == TooLarge
    decreases |cs|
  {
    hide SizeLineAt, Trailers, At, SizeText, ChunkText.Text;
    var end := size + (extension + ("\r\n" + rest));
    if cs == [] {
      SizeLineReads(d, p, size, extension, rest, value);
    } else {
      var c := cs[0];
      assert c in cs;
      AtSplit(d, p, c.Text(), ChunksText(cs[1..], end));
      ChunkReads(d, p, c);
      ChunksOver(d, p + |c.Text()|, cs[1..], size, extension, value, rest, body + c.data, limit);
    }
  }

  /** A chunk that would take the body over the limit is refused with 413 as soon as its size
      line is there. */
  lemma RefusedChunk(t: HeadText, cs: seq<ChunkText>, size: string, extension: string, value: nat, rest: string, limit: nat)
    requires t.Valid() && t.Said(limit).Ok? && t.Said(limit).value.chunked && t.Said(limit).value.length.None?
    requires (forall c | c in cs :: c.Valid()) && SizeText(size, extension, value) && value > 0
    requires |Data(cs)| <= limit < |Data(cs)| + value
    ensures var c := Serve(t.Text() + ChunksText(cs, size + (extension + ("\r\n" + rest))), limit);
      c.closed && c.events == [Refused413]
  {
    hide HeadText.Text, HeadText.Valid, HeadText.Said, HeadOf, Residue, Chunks, ChunksText, Data, SizeText, ChunkText.Valid;
    var wire := ChunksText(cs, size + (extension + ("\r\n" + rest)));
    var d := t.Text() + wire;
    assert d[..|t.Text()|] == t.Text();
    HeadReads(d, t, limit);
    assert d[|t.Text()|..|t.Text()| + |wire|] == wire;
    ChunksOver(d, |t.Text()|, cs, size, extension, value, rest, "", limit);
  }

  // ------------------------------------------------------------------ progress

  /** An empty line behind position p: a line end at p, or two in a row later on. */
  ghost predicate Finished(d: string, p: nat, e: nat) {
    && p <= e && e + 4 <= |d|
    && d[e] == '\r' && d[e + 1] == '\n' && d[e + 2] == '\r' && d[e + 3] == '\n'
  }

  ghost predicate LineEnd(d: string, p: nat) {
    p + 2 <= |d| && d[p] == '\r' && d[p + 1] == '\n'
  }

  lemma {:induction false} TokenDecided(d: string, p: nat, stop: char, e: nat)
    requires p <= e < |d| && d[e] == '\r' && stop != '\r'
    ensures !Token(d, p, stop).More? && (Token(d, p, stop).Ok? ==> Token(d, p, stop).pos < e)
    decreases e - p
  {
    if p < e && d[p] != stop && IsToken(d[p]) { TokenDecided(d, p + 1, stop, e); }
  }

  lemma {:induction false} TargetDecided(d: string, p: nat, e: nat)
    requires p <= e < |d| && d[e] == '\r'
    ensures !Target(d, p).More? && (Target(d, p).Ok? ==> Target(d, p).pos < e)
    decreases e - p
  {
    if p < e && d[p] != ' ' && d[p] != '\r' { TargetDecided(d, p + 1, e); }
  }

  lemma {:induction false} SkipDecided(d: string, p: nat, e: nat)
    requires p <= e < |d| && d[e] == '\r'
    ensures SkipBlank(d, p) <= e
    decreases e - p
  {
    if p < e && IsBlank(d[p]) { SkipDecided(d, p + 1, e); }
  }

  lemma FindDecided(d: string, p: nat, c: char, e: nat)
    requires p <= e < |d| && d[e] == c
    ensures Find(d, p, c) <= e
  {
    hide Find;
  }

  lemma FieldDecided(d: string, p: nat, e: nat)
    requires Finished(d, p, e)
    ensures !Field(d, p).More? && !Field(d, p).Large?
    ensures Field(d, p).Ok? ==> Field(d, p).pos <= e + 2
  {
    hide Token, SkipBlank, Find, TrimRight;
    TokenDecided(d, p, ':', e);
    TokenNotLarge(d, p, ':');
    if Token(d, p, ':').Ok? {
      var colon := Token(d, p, ':').pos;
      SkipDecided(d, colon + 1, e);
      FindDecided(d, SkipBlank(d, colon + 1), '\r', e);
    }
  }

  lemma {:induction false} TokenNotLarge(d: string, p: nat, stop: char)
    ensures !Token(d, p, stop).Large?
    decreases |d| - p
  {
    hide IsToken;
    if p < |d| && d[p] != stop && IsToken(d[p]) { TokenNotLarge(d, p + 1, stop); }
  }

  lemma {:induction false} SectionDecided(d: string, p: nat, g: Fields, limit: nat, e: nat)
    requires Finished(d, p, e) || (LineEnd(d, p) && p == e + 2)
    ensures !Section(d, p, g, limit).More?
    decreases |d| - p
  {
    hide Field, Note;
    if d[p] != '\r' {
      FieldDecided(d, p, e);
      var f := Field(d, p);
      if f.Ok? {
        NoteNotMore(g, f.value, limit);
        var n := Note(g, f.value, limit);
        if n.Ok? {
          NextLine(d, p, e);
          SectionDecided(d, f.pos, n.value, limit, e);
        }
      }
    }
  }

  /** A header line that is read ends at its own line end, before or at the first of the two. */
  lemma NextLine(d: string, p: nat, e: nat)
    requires Finished(d, p, e) && Field(d, p).Ok?
    ensures var q := Field(d, p).pos; Finished(d, q, e) || (LineEnd(d, q) && q == e + 2)
  {
    hide Token, SkipBlank, Find, TrimRight;
    FieldDecided(d, p, e);
    var cr := Field(d, p).pos - 2;
    assert d[cr] == '\r' && d[cr + 1] == '\n';
  }

  lemma VersionDecided(d: string, p: nat, e: nat)
    requires Finished(d, p, e)
    ensures !Version(d, p).More? && (Version(d, p).Ok? ==> Version(d, p).pos <= e + 2)
  {
    hide Find;
    FindDecided(d, p, '\r', e);
    if Version(d, p).Ok? {
      VersionSound(d, p);
      VersionPlain(d, p, e);
    }
    if |d| - p >= 8 && (d[p..p + 8] == HTTP11 || d[p..p + 8] == HTTP10) { NoReturn(d, p, e); }
  }

  lemma NoReturn(d: string, p: nat, e: nat)
    requires Finished(d, p, e) && |d| - p >= 8 && (d[p..p + 8] == HTTP11 || d[p..p + 8] == HTTP10)
    ensures e >= p + 8
  {
    assert '\r' !in HTTP11 && '\r' !in HTTP10;
  }

  lemma VersionPlain(d: string, p: nat, e: nat)
    requires Finished(d, p, e) && p + 10 <= |d| && d[p + 8] == '\r' && (d[p..p + 8] == HTTP11 || d[p..p + 8] == HTTP10)
    ensures p + 10 <= e + 2
  {
    NoReturn(d, p, e);
  }

  /** A head that ends in an empty line is decided: the parser refuses it or reads it, and asks
      for more only on account of the body. */
  lemma FinishedHeadDecided(d: string, limit: nat, e: nat)
    requires Finished(d, 0, e)
    ensures !HeadOf(d, limit).More?
    ensures Parse(d, limit).Incomplete? ==> HeadOf(d, limit).Ok?
  {
    hide Token, Target, MethodOf, LineOf, Version, Section;
    TokenDecided(d, 0, ' ', e);
    if Token(d, 0, ' ').Ok? {
      TargetDecided(d, Token(d, 0, ' ').pos + 1, e);
      if RequestLine(d).Ok? {
        var p := RequestLine(d).pos;
        VersionDecided(d, p, e);
        if Version(d, p).Ok? { AfterVersion(d, p, limit, e); }
      }
    }
  }

  lemma AfterVersion(d: string, p: nat, limit: nat, e: nat)
    requires p <= e && Finished(d, 0, e) && Version(d, p).Ok? && Version(d, p).pos <= e + 2
    ensures !Section(d, Version(d, p).pos, Fields(Version(d, p).value == HTTP11, [], None, false), limit).More?
  {
    hide Section, Find;
    VersionSound(d, p);
    var q := Version(d, p).pos;
    assert d[q - 2] == '\r' && d[q - 1] == '\n';
    assert Finished(d, q, e) || (LineEnd(d, q) && q == e + 2);
    SectionDecided(d, q, Fields(Version(d, p).value == HTTP11, [], None, false), limit, e);
  }
}
