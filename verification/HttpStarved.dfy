/** Which bytes make the chunk decoder give up for want of more, and so which verdicts are
    not final; told by the bytes alone. */
module HttpStarved {
  import opened Basics
  import opened HttpSyntax
  import opened HttpPrefix
  import opened HttpRender
  import opened HttpSound
  import opened TextAt

  /** Trailer lines, each with its line end, and then something else. */
  function LinesText(lines: seq<string>, end: string): string {
    if lines == [] then end else lines[0] + ("\r\n" + LinesText(lines[1..], end))
  }

  /** A last-chunk line and trailer lines, of which the last is cut between the two
      characters of its line end. */
  ghost predicate CutTrailer(t: string) {
    exists size, extension, lines, l :: CutTrailerAs(t, size, extension, lines, l)
  }

  ghost predicate CutTrailerAs(t: string, size: string, extension: string, lines: seq<string>, l: string) {
    && SizeText(size, extension, 0) && (forall x | x in lines :: TrailerOk(x)) && TrailerOk(l)
    && t == size + (extension + ("\r\n" + LinesText(lines, l + "\r")))
  }

  /** Whole chunks within the room left, and then nothing, or a trailer section so cut. */
  ghost predicate StarvedText(t: string, room: int) {
    exists cs, rest :: StarvedAs(t, room, cs, rest)
  }

  ghost predicate StarvedAs(t: string, room: int, cs: seq<ChunkText>, rest: string) {
    && t == ChunksText(cs, rest) && (forall c | c in cs :: c.Valid()) && |Data(cs)| <= room
    && (rest == "" || CutTrailer(rest))
  }

  // ------------------------------------------------------------------ from verdict to bytes

  lemma SizeLineText(d: string, p: nat) returns (size: string, extension: string)
    requires p <= |d| && SizeLineAt(d, p).LineRead?
    ensures var l := SizeLineAt(d, p);
      SizeText(size, extension, l.size) && d[p..l.pos] == size + (extension + "\r\n")
  {
    hide SizeLineAt, SizeText, At;
    size, extension := SizeLineSound(d, p);
    SliceAt(d, p, size + (extension + "\r\n"));
  }

  lemma {:induction false} CutTrailerLines(d: string, p: nat, body: string) returns (lines: seq<string>, l: string)
    requires p <= |d| && Trailers(d, p, body).Starved?
    ensures (forall x | x in lines :: TrailerOk(x)) && TrailerOk(l) && d[p..] == LinesText(lines, l + "\r")
    decreases |d| - p
  {
    hide Find;
    var cr := Find(d, p, '\r');
    if |d| - cr < 2 {
      lines, l := [], d[p..cr];
      assert d[p..] == d[p..cr] + [d[cr]];
    } else {
      var more, last := CutTrailerLines(d, cr + 2, body);
      lines, l := [d[p..cr]] + more, last;
      assert d[p..] == d[p..cr] + (d[cr..cr + 2] + d[cr + 2..]);
      assert d[cr..cr + 2] == "\r\n";
      assert lines[1..] == more;
    }
  }

  lemma CutTrailerFrom(d: string, p: nat, body: string)
    requires p <= |d| && SizeLineAt(d, p).LineRead? && SizeLineAt(d, p).size == 0
    requires Trailers(d, SizeLineAt(d, p).pos, body).Starved?
    ensures CutTrailer(d[p..])
  {
    hide SizeLineAt, Trailers, SizeText;
    var q := SizeLineAt(d, p).pos;
    var size, extension := SizeLineText(d, p);
    var lines, l := CutTrailerLines(d, q, body);
    assert d[p..] == d[p..q] + d[q..];
    assert (size + (extension + "\r\n")) + d[q..] == size + (extension + ("\r\n" + d[q..]));
    assert CutTrailerAs(d[p..], size, extension, lines, l);
  }

  lemma {:induction false} StarvedBytes(d: string, p: nat, body: string, maxBody: nat)
    requires p <= |d| && |body| <= maxBody && Chunks(d, p, body, maxBody).Starved?
    ensures StarvedText(d[p..], maxBody - |body|)
    decreases |d| - p
  {
    hide SizeLineAt, Trailers, CutTrailer, StarvedAs, SizeText;
    var l := SizeLineAt(d, p);
    if l.LineStarved? {
      StarvedAtEnd(d, p);
      assert d[p..] == "";
      NoChunk("", maxBody - |body|);
    } else if l.size == 0 {
      CutTrailerFrom(d, p, body);
      NoChunk(d[p..], maxBody - |body|);
    } else {
      var t := l.pos + l.size;
      StarvedBytes(d, t + 2, body + d[l.pos..t], maxBody);
      var cs, rest :| StarvedAs(d[t + 2..], maxBody - |body + d[l.pos..t]|, cs, rest);
      OneMoreChunk(d, p, cs, rest, maxBody - |body|);
    }
  }

  lemma NoChunk(t: string, room: int)
    requires room >= 0 && (t == "" || CutTrailer(t))
    ensures StarvedText(t, room)
  {
    hide CutTrailer;
    assert StarvedAs(t, room, [], t);
  }

  lemma OneMoreChunk(d: string, p: nat, cs: seq<ChunkText>, rest: string, room: int)
    requires p <= |d| && SizeLineAt(d, p).LineRead? && SizeLineAt(d, p).size > 0
    requires var l := SizeLineAt(d, p);
      var t := l.pos + l.size;
      t + 2 <= |d| && d[t] == '\r' && d[t + 1] == '\n' && StarvedAs(d[t + 2..], room - l.size, cs, rest)
    ensures StarvedText(d[p..], room)
  {
    hide SizeLineAt, CutTrailer, SizeText;
    var l := SizeLineAt(d, p);
    var t := l.pos + l.size;
    var size, extension := SizeLineText(d, p);
    var c := ChunkText(size, extension, d[l.pos..t]);
    assert d[t..t + 2] == "\r\n";
    assert d[p..] == d[p..l.pos] + (d[l.pos..t] + (d[t..t + 2] + d[t + 2..]));
    assert (size + (extension + "\r\n")) + (c.data + ("\r\n" + d[t + 2..]))
        == (size + (extension + ("\r\n" + (c.data + "\r\n")))) + d[t + 2..];
    assert ([c] + cs)[1..] == cs;
    assert StarvedAs(d[p..], room, [c] + cs, rest);
  }

  // ------------------------------------------------------------------ from bytes to verdict

  lemma {:induction false} CutLines(d: string, p: nat, lines: seq<string>, l: string, body: string)
    requires (forall x | x in lines :: TrailerOk(x)) && TrailerOk(l)
    requires At(d, p, LinesText(lines, l + "\r")) && p + |LinesText(lines, l + "\r")| == |d|
    ensures p <= |d| && Trailers(d, p, body).Starved?
    decreases |lines|
  {
    hide Find, At;
    if lines == [] {
      AtSplit(d, p, l, "\r");
      AtTail(d, p, l);
      AtChar(d, p + |l|, '\r', "");
      FindReads(d, p, l, '\r');
    } else {
      assert lines[0] in lines;
      TrailerLine(d, p, lines[0], LinesText(lines[1..], l + "\r"));
      CutLines(d, p + |lines[0]| + 2, lines[1..], l, body);
    }
  }

  lemma CutTrailerStarves(d: string, p: nat, t: string, body: string, maxBody: nat)
    requires CutTrailer(t) && At(d, p, t) && p + |t| == |d|
    ensures p <= |d| && Chunks(d, p, body, maxBody).Starved?
  {
    hide SizeLineAt, Trailers, SizeText, At;
    var size, extension, lines, l :| CutTrailerAs(t, size, extension, lines, l);
    SizeLineReads(d, p, size, extension, LinesText(lines, l + "\r"), 0);
    CutLines(d, p + |size| + |extension| + 2, lines, l, body);
  }

  lemma {:induction false} BytesStarve(d: string, p: nat, cs: seq<ChunkText>, rest: string, body: string, maxBody: nat)
    requires StarvedAs(ChunksText(cs, rest), maxBody - |body|, cs, rest)
    requires At(d, p, ChunksText(cs, rest)) && p + |ChunksText(cs, rest)| == |d|
    ensures p <= |d| && Chunks(d, p, body, maxBody).Starved?
    decreases |cs|
  {
    hide SizeLineAt, Trailers, At, CutTrailer, ChunkText.Valid, ChunkText.Text;
    if cs == [] {
      if rest == "" { EndStarves(d); } else { CutTrailerStarves(d, p, rest, body, maxBody); }
    } else {
      var c := cs[0];
      assert c in cs;
      var more := ChunksText(cs[1..], rest);
      AtSplit(d, p, c.Text(), more);
      ChunkReads(d, p, c);
      NotEmpty(c);
      assert forall x | x in cs[1..] :: x in cs;
      BytesStarve(d, p + |c.Text()|, cs[1..], rest, body + c.data, maxBody);
    }
  }

  lemma EndStarves(d: string)
    ensures SizeLineAt(d, |d|).LineStarved?
  {
  }

  lemma NotEmpty(c: ChunkText)
    requires c.Valid()
    ensures c.data != ""
  {
  }

  // ------------------------------------------------------------------ verdicts

  /** A chunked head, then whole chunks within the limit that end where the bytes do, or a
      trailer section cut inside the end of one of its lines. */
  ghost predicate CutShort(d: string, maxBody: nat) {
    var h := HeadOf(d, maxBody);
    h.Ok? && h.value.fields.chunked && h.value.fields.length.None? && StarvedText(d[h.pos..], maxBody)
  }

  lemma StarvedIff(d: string, maxBody: nat)
    ensures Parse(d, maxBody) == BadRequest(true) <==> CutShort(d, maxBody)
  {
    hide HeadOf, Chunks, StarvedAs;
    var h := HeadOf(d, maxBody);
    if h.Ok? && h.value.fields.chunked && h.value.fields.length.None? {
      if Chunks(d, h.pos, "", maxBody).Starved? {
        StarvedBytes(d, h.pos, "", maxBody);
      } else if StarvedText(d[h.pos..], maxBody) {
        ShortStarves(d, h.pos, maxBody);
      }
    }
  }

  lemma ShortStarves(d: string, p: nat, maxBody: nat)
    requires p <= |d| && StarvedText(d[p..], maxBody)
    ensures Chunks(d, p, "", maxBody).Starved?
  {
    hide Chunks;
    var cs, rest :| StarvedAs(d[p..], maxBody, cs, rest);
    BytesStarve(d, p, cs, rest, "", maxBody);
  }

  /** A verdict other than asking for more is final, that is the verdict on every extension,
      exactly when the bytes are not so cut short. */
  lemma VerdictFinal(d: string, maxBody: nat)
    requires !Parse(d, maxBody).Incomplete?
    ensures !CutShort(d, maxBody) <==> forall x :: Parse(d + x, maxBody) == Parse(d, maxBody)
  {
    hide HeadOf, Chunks, Parse, CutShort;
    StarvedIff(d, maxBody);
    if Parse(d, maxBody) != BadRequest(true) {
      forall x ensures Parse(d + x, maxBody) == Parse(d, maxBody) { ParseStable(d, x, maxBody); }
    } else {
      var x := Unstarved(d, maxBody);
      assert Parse(d + x, maxBody) != Parse(d, maxBody);
    }
  }
}
