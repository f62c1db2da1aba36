/** A verdict reached on a prefix of the stream is the verdict on the stream.

    For bodies framed by Content-Length this holds outright. For chunked bodies it holds
    exactly when the decoder did not give up for want of bytes. */
module HttpPrefix {
  import opened Basics
  import opened HttpSyntax

  lemma {:induction false} TokenStable(d: string, x: string, p: nat, stop: char)
    requires !Token(d, p, stop).More?
    ensures Token(d + x, p, stop) == Token(d, p, stop)
    decreases |d| - p
  {
    hide IsToken;
    if d[p] != stop && IsToken(d[p]) { TokenStable(d, x, p + 1, stop); }
  }

  lemma {:induction false} TargetStable(d: string, x: string, p: nat)
    requires !Target(d, p).More?
    ensures Target(d + x, p) == Target(d, p)
    decreases |d| - p
  {
    if d[p] != ' ' && d[p] != '\r' { TargetStable(d, x, p + 1); }
  }

  lemma {:induction false} FindStable(d: string, x: string, p: nat, c: char)
    requires p <= |d| && Find(d, p, c) < |d|
    ensures Find(d + x, p, c) == Find(d, p, c)
    decreases |d| - p
  {
    if d[p] != c { FindStable(d, x, p + 1, c); }
  }

  lemma {:induction false} SkipBlankStable(d: string, x: string, p: nat)
    requires p <= |d| && SkipBlank(d, p) < |d|
    ensures SkipBlank(d + x, p) == SkipBlank(d, p)
    decreases |d| - p
  {
    if IsBlank(d[p]) { SkipBlankStable(d, x, p + 1); }
  }

  lemma SliceStable(d: string, x: string, a: nat, b: nat)
    requires a <= b <= |d|
    ensures (d + x)[a..b] == d[a..b]
  {
  }

  lemma RequestLineStable(d: string, x: string)
    requires !RequestLine(d).More?
    ensures RequestLine(d + x) == RequestLine(d)
  {
    hide Token, Target, MethodOf, LineOf;
    TokenStable(d, x, 0, ' ');
    var t := Token(d, 0, ' ');
    if t.Ok? && MethodOf(t.value).Some? { TargetStable(d, x, t.pos + 1); }
  }

  lemma VersionStable(d: string, x: string, p: nat)
    requires p <= |d| && !Version(d, p).More?
    ensures Version(d + x, p) == Version(d, p)
  {
    hide Find;
    if Version(d, p).Bad? && Find(d, p, '\r') < |d| { FindStable(d, x, p, '\r'); }
    if |d| - p >= 8 {
      SliceStable(d, x, p, p + 8);
    } else if |d + x| - p >= 8 {
      var cr := Find(d, p, '\r');
      assert (d + x)[p..p + 8][cr - p] == '\r';
    }
  }

  lemma FieldStable(d: string, x: string, p: nat)
    requires !Field(d, p).More?
    ensures Field(d + x, p) == Field(d, p)
  {
    hide Token, Find, SkipBlank, TrimRight;
    TokenStable(d, x, p, ':');
    var t := Token(d, p, ':');
    if t.Ok? {
      var from := SkipBlank(d, t.pos + 1);
      var cr := Find(d, from, '\r');
      SkipBlankStable(d, x, t.pos + 1);
      FindStable(d, x, from, '\r');
      SliceStable(d, x, from, cr);
    }
  }

  lemma {:induction false} SectionStable(d: string, x: string, p: nat, f: Fields, maxBody: nat)
    requires !Section(d, p, f, maxBody).More?
    ensures Section(d + x, p, f, maxBody) == Section(d, p, f, maxBody)
    decreases |d| - p
  {
    hide Field, Note;
    if d[p] != '\r' {
      FieldStable(d, x, p);
      var h := Field(d, p);
      if h.Ok? {
        var n := Note(f, h.value, maxBody);
        if n.Ok? { SectionStable(d, x, h.pos, n.value, maxBody); }
      }
    }
  }

  lemma HeadStable(d: string, x: string, maxBody: nat)
    requires !HeadOf(d, maxBody).More?
    ensures HeadOf(d + x, maxBody) == HeadOf(d, maxBody)
  {
    hide RequestLine, Version, Section;
    RequestLineStable(d, x);
    var l := RequestLine(d);
    if l.Ok? {
      LinePos(d);
      VersionStable(d, x, l.pos);
      var v := Version(d, l.pos);
      if v.Ok? { SectionStable(d, x, v.pos, Fields(v.value == HTTP11, [], None, false), maxBody); }
    }
  }

  lemma LinePos(d: string)
    ensures RequestLine(d).Ok? ==> RequestLine(d).pos <= |d|
  {
  }

  // ------------------------------------------------------------------ chunked bodies

  lemma {:induction false} HexStable(d: string, x: string, p: nat, v: nat)
    requires p <= |d| && (Hex(d, p, v).Ok? ==> Hex(d, p, v).pos < |d|)
    ensures Hex(d + x, p, v) == Hex(d, p, v)
    decreases |d| - p
  {
    hide HexDigit;
    if HexDigit(d[p]).Some? {
      var h := HexDigit(d[p]).value;
      if v <= (SIZE_MAX - h) / 16 { HexStable(d, x, p + 1, v * 16 + h); }
    }
  }

  lemma {:induction false} SkipExtensionStable(d: string, x: string, p: nat)
    requires p <= |d| && SkipExtension(d, p) < |d|
    ensures SkipExtension(d + x, p) == SkipExtension(d, p)
    decreases |d| - p
  {
    if d[p] != '\r' && d[p] != '\n' { SkipExtensionStable(d, x, p + 1); }
  }

  lemma {:induction false} TrailersStable(d: string, x: string, p: nat, body: string)
    requires p <= |d| && !Trailers(d, p, body).NeedMore? && !Trailers(d, p, body).Starved?
    ensures Trailers(d + x, p, body) == Trailers(d, p, body)
    decreases |d| - p
  {
    hide Find;
    if d[p] != '\r' || d[p + 1] != '\n' {
      FindStable(d, x, p, '\r');
      var cr := Find(d, p, '\r');
      if d[cr + 1] == '\n' { TrailersStable(d, x, cr + 2, body); }
    }
  }

  lemma SizeLineStable(d: string, x: string, p: nat)
    requires p <= |d| && !SizeLineAt(d, p).LineMore? && !SizeLineAt(d, p).LineStarved?
    ensures SizeLineAt(d + x, p) == SizeLineAt(d, p)
  {
    hide Hex, SkipExtension;
    HexStable(d, x, p, 0);
    var size := Hex(d, p, 0);
    if size.Ok? && size.pos != p { SkipExtensionStable(d, x, size.pos); }
  }

  lemma {:induction false} ChunksStable(d: string, x: string, p: nat, body: string, maxBody: nat)
    requires p <= |d|
    requires !Chunks(d, p, body, maxBody).NeedMore? && !Chunks(d, p, body, maxBody).Starved?
    ensures Chunks(d + x, p, body, maxBody) == Chunks(d, p, body, maxBody)
    decreases |d| - p
  {
    hide SizeLineAt, Trailers;
    SizeLineStable(d, x, p);
    var l := SizeLineAt(d, p);
    if l.LineRead? {
      if l.size == 0 {
        TrailersStable(d, x, l.pos, body);
      } else if l.size <= maxBody && |body| + l.size <= maxBody {
        var t := l.pos + l.size;
        SliceStable(d, x, l.pos, t);
        if d[t] == '\r' && d[t + 1] == '\n' {
          ChunksStable(d, x, t + 2, body + d[l.pos..t], maxBody);
        }
      }
    }
  }

  /** A verdict other than "need more", reached without starving, is final: no bytes that
      arrive later change it, its request or its length. */
  lemma ParseStable(d: string, x: string, maxBody: nat)
    requires !Parse(d, maxBody).Incomplete? && Parse(d, maxBody) != BadRequest(true)
    ensures Parse(d + x, maxBody) == Parse(d, maxBody)
  {
    hide HeadOf, Chunks;
    HeadStable(d, x, maxBody);
    var h := HeadOf(d, maxBody);
    if h.Ok? {
      var f := h.value.fields;
      if f.chunked {
        if f.length.None? { ChunksStable(d, x, h.pos, "", maxBody); }
      } else if f.length.Some? && f.length.value <= maxBody {
        SliceStable(d, x, h.pos, h.pos + f.length.value);
      }
    }
  }

  const LAST_CHUNK: string := "0\r\n\r\n"
  const LINE_END: string := "\n\r\n"

  lemma TrailersUnstarved(d: string, p: nat, body: string)
    requires p <= |d| && Trailers(d, p, body).Starved?
    ensures Trailers(d + LINE_END, p, body) == Whole(body, |d| + 3)
    decreases |d| - p
  {
    hide Find;
    FindStable(d, LINE_END, p, '\r');
    var cr := Find(d, p, '\r');
    if |d| - cr >= 2 { TrailersUnstarved(d, cr + 2, body); }
  }

  lemma LastChunkReads(d: string, p: nat, body: string, maxBody: nat)
    requires p == |d|
    ensures Chunks(d + LAST_CHUNK, p, body, maxBody) == Whole(body, |d| + 5)
  {
    var e := d + LAST_CHUNK;
    assert e[p] == '0' && e[p + 1] == '\r' && e[p + 2] == '\n' && e[p + 3] == '\r' && e[p + 4] == '\n';
    assert HexDigit('0') == Some(0) && HexDigit('\r').None?;
    assert Hex(e, p + 1, 0) == Ok(0, p + 1);
    assert Hex(e, p, 0) == Ok(0, p + 1);
    assert SkipExtension(e, p + 1) == p + 1;
    assert Trailers(e, p + 3, body) == Whole(body, p + 5);
  }

  /** Whenever the decoder starved, the right next bytes would have completed the body. */
  lemma {:induction false} ChunksUnstarved(d: string, p: nat, body: string, maxBody: nat) returns (x: string)
    requires p <= |d| && Chunks(d, p, body, maxBody).Starved?
    ensures Chunks(d + x, p, body, maxBody).Whole?
    decreases |d| - p
  {
    hide SizeLineAt, Trailers;
    var l := SizeLineAt(d, p);
    if l.LineStarved? {
      StarvedAtEnd(d, p);
      x := LAST_CHUNK;
      LastChunkReads(d, p, body, maxBody);
    } else if l.size == 0 {
      x := LINE_END;
      SizeLineStable(d, x, p);
      TrailersUnstarved(d, l.pos, body);
    } else {
      var t := l.pos + l.size;
      x := ChunksUnstarved(d, t + 2, body + d[l.pos..t], maxBody);
      SizeLineStable(d, x, p);
      SliceStable(d, x, l.pos, t);
    }
  }

  lemma StarvedAtEnd(d: string, p: nat)
    requires p <= |d| && SizeLineAt(d, p).LineStarved?
    ensures p == |d|
  {
  }

  lemma Unstarved(d: string, maxBody: nat) returns (x: string)
    requires Parse(d, maxBody) == BadRequest(true)
    ensures Parse(d + x, maxBody).Done?
  {
    hide HeadOf, Chunks;
    var h := HeadOf(d, maxBody);
    x := ChunksUnstarved(d, h.pos, "", maxBody);
    HeadStable(d, x, maxBody);
  }
}
