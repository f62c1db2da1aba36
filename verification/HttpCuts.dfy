/** What a cut inside a chunked body does: the data moved so far has overwritten the framing,
    and the next parse reads it as framing. */
module HttpCuts {
  import opened Basics
  import opened HttpSyntax
  import opened HttpPrefix
  import opened HttpRender
  import opened HttpParser
  import opened HttpPipeline
  import opened TextAt

  ghost predicate ChunkedHead(head: string, limit: nat) {
    var h := HeadOf(head, limit);
    h.Ok? && h.pos == |head| && h.value.fields.chunked && h.value.fields.length.None?
  }

  /** Cut behind a whole chunk and the beginning of the next size line: the parser asks for
      more, and the unread input now has the chunk's data where its size line was. */
  lemma CutOverwrites(head: string, c: ChunkText, tail: string, limit: nat)
    requires ChunkedHead(head, limit) && c.Valid() && |c.data| <= limit
    requires SizeLineAt(head + c.Text() + tail, |head + c.Text()|).LineMore?
    ensures Parse(head + c.Text() + tail, limit).Incomplete?
    ensures Residue(head + c.Text() + tail, limit) == head + c.data + (c.Text() + tail)[|c.data|..]
  {
    hide HeadOf, Chunks, Moved, SizeLineAt, ChunkText.Text, ChunkText.Valid;
    var d := head + c.Text() + tail;
    FirstChunk(head, c, tail, limit);
    DataFits(c);
    UnfoldChunks(d, |head + c.Text()|, c.data, limit);
    Spliced(head, c.Text(), tail, |c.data|);
  }

  lemma Spliced(head: string, text: string, tail: string, n: nat)
    requires n <= |text|
    ensures var d := head + text + tail; d[..|head|] == head && d[|head| + n..] == (text + tail)[n..]
  {
  }

  /** The decoder behind the head, past the first chunk. */
  lemma FirstChunk(head: string, c: ChunkText, x: string, limit: nat)
    requires ChunkedHead(head, limit) && c.Valid() && |c.data| <= limit
    ensures var d := head + c.Text() + x;
      && HeadOf(d, limit) == HeadOf(head, limit)
      && Chunks(d, |head|, "", limit) == Chunks(d, |head + c.Text()|, c.data, limit)
      && Moved(d, |head|, "", limit) == Moved(d, |head + c.Text()|, c.data, limit)
  {
    hide HeadOf, Chunks, Moved, SizeLineAt, ChunkText.Text, ChunkText.Valid;
    var d := head + c.Text() + x;
    assert d == head + (c.Text() + x);
    HeadStable(head, c.Text() + x, limit);
    assert d[|head|..|head| + |c.Text()|] == c.Text();
    ChunkReads(d, |head|, c);
    DataFits(c);
    UnfoldChunks(d, |head|, "", limit);
    assert "" + c.data == c.data;
  }

  lemma DataFits(c: ChunkText)
    requires c.Valid()
    ensures c.data != "" && |c.data| + 2 < |c.Text()|
  {
  }

  /** So the rest of the request is read against data of its own: when that data looks like a
      last chunk, the request is served with an empty body, while uncut it would carry that
      data in its body. */
  lemma CutServesOtherBody(head: string, c: ChunkText, more: string, tail: string, rest: string, limit: nat, multishot: bool)
    requires ChunkedHead(head, limit) && c.Valid() && |c.data| <= limit && c.data == LAST_CHUNK + more
    requires SizeLineAt(head + c.Text() + tail, |head + c.Text()|).LineMore?
    requires multishot || |head + c.Text() + tail| < limit
    ensures
      var events := ReceiveAll(Opened, [head + c.Text() + tail, rest], limit, multishot).events;
      events != [] && events[0].Served? && events[0].request.body == ""
    ensures
      var v := Parse(head + c.Text() + tail + rest, limit);
      v.Done? ==> c.data <= v.request.body
  {
    hide HeadOf, Parse, Residue, Chunks, Moved, SizeLineAt, ChunkText.Text, ChunkText.Valid, Serve;
    var d := head + c.Text() + tail;
    CutOverwrites(head, c, tail, limit);
    DataFits(c);
    var left := (c.Text() + tail)[|c.data|..];
    var moved := head + c.data + left;
    assert |moved| == |d|;
    ReceiveFirst(d, limit, multishot);
    ServeIncomplete(d, limit);
    TwoParts(d, rest, limit, multishot);
    assert moved + rest == head + (LAST_CHUNK + (more + left + rest));
    ServedEmpty(head, more + left + rest, limit);
    ServedFirst(moved + rest, limit);
    ServedWhich(moved + rest, limit);
    AfterWait(moved, rest, limit, multishot);
    WholeCarries(head, c, tail + rest, limit);
    assert d + rest == head + c.Text() + (tail + rest);
  }

  lemma ServeIncomplete(d: string, limit: nat)
    requires Parse(d, limit).Incomplete?
    ensures Serve(d, limit) == Conn(Residue(d, limit), [], false)
    ensures |Residue(d, limit)| < limit ==> Settled(d, limit) == Conn(Residue(d, limit), [], false)
  {
    hide Parse, Residue;
  }

  lemma ServedWhich(d: string, limit: nat)
    requires Parse(d, limit).Done?
    ensures Serve(d, limit).events != [] && Serve(d, limit).events[0] == Served(Parse(d, limit).request)
  {
    hide Parse, Residue;
    ServeDone(d, limit);
  }

  lemma AfterWait(input: string, rest: string, limit: nat, multishot: bool)
    requires Serve(input + rest, limit).events != []
    ensures var r := Receive(Conn(input, [], false), rest, limit, multishot);
      r.events != [] && r.events[0] == Serve(input + rest, limit).events[0]
  {
    hide Serve;
  }

  lemma ServedEmpty(head: string, x: string, limit: nat)
    requires ChunkedHead(head, limit)
    ensures var v := Parse(head + (LAST_CHUNK + x), limit); v.Done? && v.request.body == ""
  {
    hide HeadOf, Chunks;
    HeadStable(head, LAST_CHUNK + x, limit);
    assert head + (LAST_CHUNK + x) == (head + LAST_CHUNK) + x;
    LastChunkReads(head, |head|, "", limit);
    ChunksStable(head + LAST_CHUNK, x, |head|, "", limit);
  }

  lemma WholeCarries(head: string, c: ChunkText, x: string, limit: nat)
    requires ChunkedHead(head, limit) && c.Valid() && |c.data| <= limit
    ensures var v := Parse(head + c.Text() + x, limit); v.Done? ==> c.data <= v.request.body
  {
    hide HeadOf, Chunks, SizeLineAt, ChunkText.Text, ChunkText.Valid;
    var d := head + c.Text() + x;
    FirstChunk(head, c, x, limit);
    if Chunks(d, |head + c.Text()|, c.data, limit).Whole? { BodyGrows(d, |head + c.Text()|, c.data, limit); }
  }

  lemma {:induction false} BodyGrows(d: string, p: nat, body: string, limit: nat)
    requires p <= |d| && Chunks(d, p, body, limit).Whole?
    ensures body <= Chunks(d, p, body, limit).body
    decreases |d| - p
  {
    hide SizeLineAt, Trailers;
    var l := SizeLineAt(d, p);
    if l.size == 0 {
      TrailersKeepBody(d, l.pos, body);
    } else {
      BodyGrows(d, l.pos + l.size + 2, body + d[l.pos..l.pos + l.size], limit);
    }
  }
}
