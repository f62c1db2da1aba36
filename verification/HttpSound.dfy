/** The parser accepts nothing but messages of the grammar: whatever it answers Done to begins
    with a valid message, and it reads it as that message says. */
module HttpSound {
  import opened Basics
  import opened HttpSyntax
  import opened HttpMeaning
  import opened HttpRender
  import opened TextAt

  // ------------------------------------------------------------------ the head

  lemma {:induction false} TokenSound(d: string, p: nat, stop: char)
    requires Token(d, p, stop).Ok?
    ensures AllTokens(Token(d, p, stop).value) && stop !in Token(d, p, stop).value
    decreases |d| - p
  {
    hide IsToken, TokenChar;
    if d[p] != stop {
      TokenSound(d, p + 1, stop);
      TokenIs(d[p]);
    }
  }

  lemma {:induction false} TargetSound(d: string, p: nat)
    requires Target(d, p).Ok?
    ensures ' ' !in Target(d, p).value && '\r' !in Target(d, p).value
    decreases |d| - p
  {
    if d[p] != ' ' { TargetSound(d, p + 1); }
  }

  lemma {:induction false} SkipBlankSound(d: string, p: nat)
    requires p <= |d|
    ensures var q := SkipBlank(d, p); AllBlank(d[p..q]) && (q < |d| ==> !BlankChar(d[q]))
    decreases |d| - p
  {
    if p < |d| && IsBlank(d[p]) {
      SkipBlankSound(d, p + 1);
      assert d[p..SkipBlank(d, p)] == [d[p]] + d[p + 1..SkipBlank(d, p)];
    }
  }

  lemma {:induction false} TrimSound(s: string)
    ensures var t := TrimRight(s);
      t <= s && AllBlank(s[|t|..]) && (t != "" ==> !BlankChar(t[|t| - 1]))
    decreases |s|
  {
    if s != "" && IsBlank(s[|s| - 1]) {
      var init := s[..|s| - 1];
      TrimSound(init);
      var t := TrimRight(s);
      assert s[|t|..] == init[|t|..] + [s[|s| - 1]];
    }
  }

  lemma FieldSound(d: string, p: nat) returns (f: FieldText)
    requires Field(d, p).Ok?
    ensures f.Valid() && At(d, p, f.Text())
    ensures Field(d, p) == Ok(f.Header(), p + |f.Text()|)
  {
    hide AllTokens, AllBlank, BlankChar, Find, SkipBlank, TrimRight, Token, At;
    var colon := Token(d, p, ':').pos;
    var from := SkipBlank(d, colon + 1);
    var cr := Find(d, from, '\r');
    TokenSound(d, p, ':');
    SkipBlankSound(d, colon + 1);
    TrimSound(d[from..cr]);
    var value := TrimRight(d[from..cr]);
    f := FieldText(d[p..colon], d[colon + 1..from], value, d[from..cr][|value|..]);
    FieldValid(d, from, cr, f);
    FieldAt(d, p, colon, from, cr, f);
  }

  lemma FieldValid(d: string, from: nat, cr: nat, f: FieldText)
    requires from <= cr < |d| && d[cr] == '\r' && '\r' !in d[from..cr] && !BlankChar(d[from])
    requires AllTokens(f.name) && ':' !in f.name && AllBlank(f.before) && AllBlank(f.after)
    requires f.value <= d[from..cr] && (f.value != "" ==> !BlankChar(f.value[|f.value| - 1]))
    ensures f.Valid()
  {
    hide AllTokens, AllBlank;
    if f.value != "" {
      assert f.value[0] == d[from..cr][0] == d[from];
    }
    forall c | c in f.value ensures c in d[from..cr] { }
  }

  lemma FieldAt(d: string, p: nat, colon: nat, from: nat, cr: nat, f: FieldText)
    requires p <= colon < from <= cr && cr + 2 <= |d|
    requires d[colon] == ':' && d[cr] == '\r' && d[cr + 1] == '\n'
    requires f.name == d[p..colon] && f.before == d[colon + 1..from]
    requires f.value <= d[from..cr] && f.after == d[from..cr][|f.value|..]
    ensures At(d, p, f.Text()) && p + |f.Text()| == cr + 2
  {
    hide At;
    var tail := f.value + (f.after + "\r\n");
    ValueJoin(d, from, cr, f.value, f.after);
    AtSlice(d, colon + 1, from);
    AtJoin(d, colon + 1, f.before, tail);
    AtSlice(d, colon, colon + 1);
    assert d[colon..colon + 1] == ":";
    AtJoin(d, colon, ":", f.before + tail);
    AtSlice(d, p, colon);
    AtJoin(d, p, f.name, ":" + (f.before + tail));
  }

  lemma ValueJoin(d: string, from: nat, cr: nat, value: string, after: string)
    requires from <= cr && cr + 2 <= |d| && d[cr] == '\r' && d[cr + 1] == '\n'
    requires value <= d[from..cr] && after == d[from..cr][|value|..]
    ensures At(d, from, value + (after + "\r\n")) && from + |value| + |after| == cr
  {
    hide At;
    var text := d[from..cr];
    assert text == value + after;
    NothingThere(d, cr + 2);
    LineJoin(d, from, cr, "");
    assert text + ("\r\n" + "") == value + (after + "\r\n");
  }

  lemma NothingThere(d: string, p: nat)
    requires p <= |d|
    ensures At(d, p, "")
  {
  }

  lemma AtSlice(d: string, p: nat, q: nat)
    requires p <= q <= |d|
    ensures At(d, p, d[p..q])
  {
  }

  lemma {:induction false} SectionSound(d: string, p: nat, g: Fields, maxBody: nat) returns (fs: seq<FieldText>)
    requires Section(d, p, g, maxBody).Ok?
    ensures AllValid(fs) && At(d, p, FieldsText(fs))
    ensures NoteAll(g, Headers(fs), maxBody).Ok?
    ensures Section(d, p, g, maxBody) == Ok(NoteAll(g, Headers(fs), maxBody).value, p + |FieldsText(fs)|)
    decreases |d| - p
  {
    hide Field, Note, At, FieldText.Valid, FieldText.Text, FieldText.Header;
    if d[p] == '\r' {
      fs := [];
      AtSlice(d, p, p + 2);
      assert d[p..p + 2] == "\r\n";
    } else {
      var f := FieldSound(d, p);
      var n := Note(g, f.Header(), maxBody);
      var rest := SectionSound(d, p + |f.Text()|, n.value, maxBody);
      fs := [f] + rest;
      AtJoin(d, p, f.Text(), FieldsText(rest));
      assert fs[1..] == rest && Headers(fs)[1..] == Headers(rest) && Headers(fs)[0] == f.Header();
    }
  }

  lemma VersionSound(d: string, p: nat)
    requires p <= |d| && Version(d, p).Ok?
    ensures var v := Version(d, p).value;
      (v == "HTTP/1.1" || v == "HTTP/1.0") && At(d, p, v + "\r\n") && Version(d, p).pos == p + 10
  {
    var v := d[p..p + 8];
    assert d[p..p + 10] == v + "\r\n";
  }

  lemma MethodSound(s: string)
    requires MethodOf(s).Some?
    ensures VerbText(MethodOf(s).value) == s
  {
  }

  lemma TargetIsText(verb: Method, target: string) returns (path: string, query: Option<string>)
    ensures target == TargetText(path, query) && '?' !in path
    ensures LineOf(verb, target) == Line(verb, path, if query.Some? then query.value else "")
  {
    var q := Find(target, 0, '?');
    if q == |target| {
      path, query := target, None;
      assert target[0..q] == target;
    } else {
      path, query := target[..q], Some(target[q + 1..]);
      assert target == target[..q] + "?" + target[q + 1..];
      assert target[0..q] == target[..q];
    }
  }

  lemma HeadSound(d: string, maxBody: nat) returns (t: HeadText)
    requires HeadOf(d, maxBody).Ok?
    ensures t.Valid() && At(d, 0, t.Text()) && t.Said(maxBody).Ok?
    ensures HeadOf(d, maxBody) == Ok(Head(t.Line(), t.Version(), t.Said(maxBody).value), |t.Text()|)
  {
    hide RequestLine, Version, Section, At, FieldsText, AllValid, NoteAll, TargetText, VerbText;
    var line := RequestLine(d);
    var verb, path, query := LineSound(d);
    var v := Version(d, line.pos);
    VersionSound(d, line.pos);
    var start := Fields(v.value == HTTP11, [], None, false);
    var fs := SectionSound(d, line.pos + 10, start, maxBody);
    t := HeadText(verb, path, query, v.value == "HTTP/1.1", fs);
    AtJoin(d, line.pos, v.value + "\r\n", FieldsText(fs));
    assert (v.value + "\r\n") + FieldsText(fs) == v.value + ("\r\n" + FieldsText(fs));
    HeadJoin(d, VerbText(verb), TargetText(path, query), v.value + ("\r\n" + FieldsText(fs)));
    assert "HTTP/1.1"[7] != "HTTP/1.0"[7];
  }

  lemma HeadJoin(d: string, verb: string, target: string, rest: string)
    requires At(d, 0, verb + (" " + (target + " "))) && At(d, |verb| + |target| + 2, rest)
    ensures At(d, 0, verb + (" " + (target + (" " + rest))))
  {
    hide At;
    var line := verb + (" " + (target + " "));
    AtJoin(d, 0, line, rest);
    assert line + rest == verb + (" " + (target + (" " + rest)));
  }

  lemma LineSound(d: string) returns (verb: Method, path: string, query: Option<string>)
    requires RequestLine(d).Ok?
    ensures ' ' !in path && '\r' !in path && '?' !in path
    ensures query.Some? ==> ' ' !in query.value && '\r' !in query.value
    ensures RequestLine(d).pos <= |d|
    ensures RequestLine(d).pos == |VerbText(verb)| + |TargetText(path, query)| + 2
    ensures RequestLine(d).value == Line(verb, path, if query.Some? then query.value else "")
    ensures At(d, 0, VerbText(verb) + (" " + (TargetText(path, query) + " ")))
  {
    hide Token, Target, LineOf, MethodOf, VerbText, At;
    var name := Token(d, 0, ' ');
    var target := Target(d, name.pos + 1);
    verb := MethodOf(name.value).value;
    MethodSound(name.value);
    TargetSound(d, name.pos + 1);
    path, query := TargetIsText(verb, target.value);
    forall c | c in path ensures c in target.value { }
    if query.Some? {
      forall c | c in query.value ensures c in target.value { }
    }
    LineAt(d, name.pos, target.pos);
  }

  lemma LineAt(d: string, m: nat, n: nat)
    requires m < n < |d| && d[m] == ' ' && d[n] == ' '
    ensures At(d, 0, d[0..m] + (" " + (d[m + 1..n] + " ")))
  {
    hide At;
    AtSlice(d, 0, m);
    AtSlice(d, m, m + 1);
    assert d[m..m + 1] == " ";
    AtSlice(d, m + 1, n);
    AtSlice(d, n, n + 1);
    assert d[n..n + 1] == " ";
    AtJoin(d, m + 1, d[m + 1..n], " ");
    AtJoin(d, m, " ", d[m + 1..n] + " ");
    AtJoin(d, 0, d[0..m], " " + (d[m + 1..n] + " "));
  }

  // ------------------------------------------------------------------ chunked bodies

  lemma {:induction false} HexSound(d: string, p: nat, v: nat)
    requires p <= |d| && Hex(d, p, v).Ok? && v <= SIZE_MAX
    ensures var r := Hex(d, p, v);
      && (forall c | c in d[p..r.pos] :: HexDigit(c).Some?)
      && HexValue(d[p..r.pos], v) == r.value <= SIZE_MAX
    decreases |d| - p
  {
    hide HexDigit;
    if p < |d| && HexDigit(d[p]).Some? {
      var h := HexDigit(d[p]).value;
      HexSound(d, p + 1, v * 16 + h);
      var q := Hex(d, p, v).pos;
      assert d[p..q] == [d[p]] + d[p + 1..q] && d[p..q][1..] == d[p + 1..q];
    }
  }

  lemma {:induction false} ExtensionSound(d: string, p: nat)
    requires p <= |d|
    ensures '\r' !in d[p..SkipExtension(d, p)] && '\n' !in d[p..SkipExtension(d, p)]
    decreases |d| - p
  {
    var q := SkipExtension(d, p);
    if p < |d| && d[p] != '\r' && d[p] != '\n' {
      ExtensionSound(d, p + 1);
      assert d[p..q] == [d[p]] + d[p + 1..q];
    }
  }

  lemma SizeLineSound(d: string, p: nat) returns (size: string, extension: string)
    requires p <= |d| && SizeLineAt(d, p).LineRead?
    ensures var l := SizeLineAt(d, p);
      SizeText(size, extension, l.size) && l.pos == p + |size| + |extension| + 2
      && At(d, p, size + (extension + "\r\n"))
  {
    hide Hex, SkipExtension, HexDigit, HexValue;
    var q := Hex(d, p, 0).pos;
    var e := SkipExtension(d, q);
    HexSound(d, p, 0);
    ExtensionSound(d, q);
    size, extension := d[p..q], d[q..e];
    if extension != "" { assert extension[0] == d[q]; }
    assert d[p..e + 2] == size + (extension + "\r\n");
  }

  lemma {:induction false} TrailersSound(d: string, p: nat, body: string) returns (lines: seq<string>)
    requires p <= |d| && Trailers(d, p, body).Whole?
    ensures (forall l | l in lines :: TrailerOk(l)) && At(d, p, TrailersText(lines))
    ensures Trailers(d, p, body) == Whole(body, p + |TrailersText(lines)|)
    decreases |d| - p
  {
    hide Find, At;
    if d[p] == '\r' && d[p + 1] == '\n' {
      lines := [];
      AtSlice(d, p, p + 2);
      assert d[p..p + 2] == "\r\n";
    } else {
      var cr := Find(d, p, '\r');
      var rest := TrailersSound(d, cr + 2, body);
      var line := d[p..cr];
      lines := [line] + rest;
      assert lines[1..] == rest;
      LineJoin(d, p, cr, TrailersText(rest));
    }
  }

  lemma LineJoin(d: string, p: nat, cr: nat, rest: string)
    requires p <= cr && cr + 2 <= |d| && d[cr] == '\r' && d[cr + 1] == '\n' && At(d, cr + 2, rest)
    ensures At(d, p, d[p..cr] + ("\r\n" + rest))
  {
    hide At;
    AtSlice(d, p, cr);
    AtSlice(d, cr, cr + 2);
    assert d[cr..cr + 2] == "\r\n";
    AtJoin(d, cr, "\r\n", rest);
    AtJoin(d, p, d[p..cr], "\r\n" + rest);
  }

  lemma SizeJoin(d: string, p: nat, size: string, extension: string, rest: string)
    requires At(d, p, size + (extension + "\r\n")) && At(d, p + |size| + |extension| + 2, rest)
    ensures At(d, p, size + (extension + ("\r\n" + rest)))
  {
    hide At;
    AtSplit(d, p, size, extension + "\r\n");
    AtSplit(d, p + |size|, extension, "\r\n");
    AtJoin(d, p + |size| + |extension|, "\r\n", rest);
    AtJoin(d, p + |size|, extension, "\r\n" + rest);
    AtJoin(d, p, size, extension + ("\r\n" + rest));
  }

  lemma {:induction false} ChunksSound(d: string, p: nat, body: string, maxBody: nat)
    returns (cs: seq<ChunkText>, end: Ending)
    requires p <= |d| && Chunks(d, p, body, maxBody).Whole? && |body| <= maxBody
    ensures (forall c | c in cs :: c.Valid()) && end.Valid() && |body| + |Data(cs)| <= maxBody
    ensures At(d, p, ChunksText(cs, end.Text()))
    ensures Chunks(d, p, body, maxBody) == Whole(body + Data(cs), p + |ChunksText(cs, end.Text())|)
    decreases |d| - p
  {
    hide SizeLineAt, Trailers, At, SizeText, TrailersText, ChunkText.Text;
    var l := SizeLineAt(d, p);
    var size, extension := SizeLineSound(d, p);
    if l.size == 0 {
      var lines := TrailersSound(d, l.pos, body);
      cs, end := [], Ending(size, extension, lines);
      SizeJoin(d, p, size, extension, TrailersText(lines));
      assert body + "" == body;
    } else {
      var data := d[l.pos..l.pos + l.size];
      var c := ChunkText(size, extension, data);
      var more, last := ChunksSound(d, l.pos + l.size + 2, body + data, maxBody);
      cs, end := [c] + more, last;
      assert cs[1..] == more;
      ChunkSound(d, p, c);
      AtJoin(d, p, c.Text(), ChunksText(more, end.Text()));
      DataMore(body, c, more, cs);
    }
  }

  lemma ChunkSound(d: string, p: nat, c: ChunkText)
    requires At(d, p, c.size + (c.extension + "\r\n"))
    requires var q := p + |c.size| + |c.extension| + 2;
      q + |c.data| + 2 <= |d| && c.data == d[q..q + |c.data|] && d[q + |c.data|] == '\r' && d[q + |c.data| + 1] == '\n'
    ensures At(d, p, c.Text()) && |c.Text()| == |c.size| + |c.extension| + |c.data| + 4
  {
    hide At;
    var q := p + |c.size| + |c.extension| + 2;
    AtSlice(d, q, q + |c.data| + 2);
    assert d[q..q + |c.data| + 2] == c.data + "\r\n";
    SizeJoin(d, p, c.size, c.extension, c.data + "\r\n");
  }

  lemma DataMore(body: string, c: ChunkText, more: seq<ChunkText>, cs: seq<ChunkText>)
    requires cs == [c] + more
    ensures (body + c.data) + Data(more) == body + Data(cs) && |Data(cs)| == |c.data| + |Data(more)|
  {
    assert cs[1..] == more;
  }

  // ------------------------------------------------------------------ whole messages

  /** A message of the grammar. */
  datatype Message =
    | Plain(head: HeadText, body: string)
    | Coded(head: HeadText, chunks: seq<ChunkText>, end: Ending)
  {
    ghost predicate Valid(maxBody: nat) {
      && head.Valid() && head.Said(maxBody).Ok?
      && var said := head.Said(maxBody).value;
      match this
      case Plain(_, _) =>
        !said.chunked && (if said.length.Some? then said.length.value == |body| <= maxBody else body == "")
      case Coded(_, _, _) =>
        && said.chunked && said.length.None?
        && (forall c | c in chunks :: c.Valid()) && end.Valid() && |Data(chunks)| <= maxBody
    }
    function Text(): string {
      match this
      case Plain(_, _) => head.Text() + body
      case Coded(_, _, _) => head.Text() + ChunksText(chunks, end.Text())
    }
    function Body(): string {
      if Plain? then body else Data(chunks)
    }
    /** What the message asks for. */
    function Request(maxBody: nat): Request
      requires head.Said(maxBody).Ok?
    {
      RequestFor(head, head.Said(maxBody).value, Body())
    }
  }

  ghost predicate Begins(d: string, m: Message, maxBody: nat, request: Request, consumed: nat) {
    && m.Valid(maxBody) && m.Text() <= d
    && request == m.Request(maxBody) && consumed == |m.Text()|
  }

  lemma BeginsReads(d: string, m: Message, maxBody: nat, request: Request, consumed: nat)
    requires Begins(d, m, maxBody, request, consumed)
    ensures Parse(d, maxBody) == Done(request, consumed)
  {
    hide HeadText.Text, HeadText.Said, HeadText.Valid, ChunkText.Valid, Ending.Valid, Ending.Text, ChunksText, Data, RequestFor, Parse;
    var rest := d[|m.Text()|..];
    assert d == m.Text() + rest;
    match m
    case Plain(_, _) => PlainReads(m.head, m.body, rest, maxBody);
    case Coded(_, _, _) => ChunkedReads(m.head, m.chunks, m.end, rest, maxBody);
  }

  lemma DoneBegins(d: string, maxBody: nat) returns (m: Message)
    requires Parse(d, maxBody).Done?
    ensures Begins(d, m, maxBody, Parse(d, maxBody).request, Parse(d, maxBody).consumed)
  {
    hide HeadOf, Chunks, HeadText.Text, HeadText.Said, HeadText.Valid, HeadText.Line, HeadText.Version,
      ChunkText.Valid, Ending.Valid, Ending.Text, ChunksText, Data;
    var h := HeadOf(d, maxBody);
    var t := HeadSound(d, maxBody);
    SliceAt(d, 0, t.Text());
    if h.value.fields.chunked {
      var cs, end := ChunksSound(d, h.pos, "", maxBody);
      m := Coded(t, cs, end);
      SliceAt(d, h.pos, ChunksText(cs, end.Text()));
      assert "" + Data(cs) == Data(cs);
      assert m.Text() == d[..|m.Text()|];
    } else {
      var n := if h.value.fields.length.Some? then h.value.fields.length.value else 0;
      m := Plain(t, d[h.pos..h.pos + n]);
      assert m.Text() == d[..|m.Text()|];
    }
  }

  /** The parser is exact: it answers Done with a request and a length if and only if the bytes
      begin with a valid message of that length that says that request. */
  lemma DoneIff(d: string, maxBody: nat, request: Request, consumed: nat)
    ensures Parse(d, maxBody) == Done(request, consumed)
        <==> exists m: Message :: Begins(d, m, maxBody, request, consumed)
  {
    hide Parse, Begins;
    if Parse(d, maxBody) == Done(request, consumed) {
      var m := DoneBegins(d, maxBody);
      assert Begins(d, m, maxBody, request, consumed);
    }
    forall m: Message | Begins(d, m, maxBody, request, consumed)
      ensures Parse(d, maxBody) == Done(request, consumed)
    {
      BeginsReads(d, m, maxBody, request, consumed);
    }
  }
}
