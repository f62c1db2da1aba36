/** The parser reads back what the grammar of RFC 7230 writes: request line, header
    fields with optional blanks, and bodies framed by Content-Length or by chunks. */
module HttpRender {
  import opened Basics
  import opened HttpSyntax
  import opened HttpMeaning
  import opened TextAt

  // ------------------------------------------------------------------ scanners on text

  /** Section 3.2.6 of RFC 7230: letters, digits and fifteen marks. */
  predicate TokenChar(c: char) {
    'a' <= c <= 'z' || 'A' <= c <= 'Z' || '0' <= c <= '9' || c in "!#$%&'*+-.^_`|~"
  }

  predicate BlankChar(c: char) { c == ' ' || c == '\t' }

  ghost predicate AllTokens(s: string) { forall c | c in s :: TokenChar(c) }
  ghost predicate AllBlank(s: string) { forall c | c in s :: BlankChar(c) }

  lemma TokenIs(c: char)
    ensures IsToken(c) <==> TokenChar(c)
  {
  }

  lemma {:induction false} TokenReads(d: string, p: nat, s: string, stop: char)
    requires AllTokens(s) && stop !in s && At(d, p, s) && p + |s| < |d| && d[p + |s|] == stop
    ensures Token(d, p, stop) == Ok(s, p + |s|)
    decreases |s|
  {
    hide IsToken, TokenChar, At;
    if s != "" {
      AtTail(d, p, s);
      assert s[0] in s && forall c | c in s[1..] :: c in s;
      TokenIs(s[0]);
      TokenReads(d, p + 1, s[1..], stop);
    }
  }

  lemma {:induction false} TargetReads(d: string, p: nat, s: string)
    requires ' ' !in s && '\r' !in s && At(d, p, s) && p + |s| < |d| && d[p + |s|] == ' '
    ensures Target(d, p) == Ok(s, p + |s|)
    decreases |s|
  {
    hide At;
    if s != "" {
      AtTail(d, p, s);
      TargetReads(d, p + 1, s[1..]);
    }
  }

  lemma {:induction false} FindReads(d: string, p: nat, s: string, c: char)
    requires c !in s && At(d, p, s) && (p + |s| == |d| || d[p + |s|] == c)
    ensures Find(d, p, c) == p + |s|
    decreases |s|
  {
    if s != "" {
      AtTail(d, p, s);
      FindReads(d, p + 1, s[1..], c);
    }
  }

  lemma {:induction false} SkipBlankReads(d: string, p: nat, s: string)
    requires AllBlank(s) && At(d, p, s) && (p + |s| == |d| || !BlankChar(d[p + |s|]))
    ensures SkipBlank(d, p) == p + |s|
    decreases |s|
  {
    if s != "" {
      AtTail(d, p, s);
      assert s[0] in s && forall c | c in s[1..] :: c in s;
      SkipBlankReads(d, p + 1, s[1..]);
    }
  }

  lemma {:induction false} TrimReads(s: string, blanks: string)
    requires AllBlank(blanks) && (s == "" || !BlankChar(s[|s| - 1]))
    ensures TrimRight(s + blanks) == s
    decreases |blanks|
  {
    if blanks == "" {
      assert s + blanks == s;
    } else {
      var n := |blanks| - 1;
      assert (s + blanks)[|s + blanks| - 1] == blanks[n] && blanks[n] in blanks;
      assert (s + blanks)[..|s + blanks| - 1] == s + blanks[..n];
      assert forall c | c in blanks[..n] :: c in blanks;
      TrimReads(s, blanks[..n]);
    }
  }

  // ------------------------------------------------------------------ the head

  function VerbText(m: Method): string {
    match m
    case GET => "GET" case PUT => "PUT" case POST => "POST" case HEAD => "HEAD"
    case PATCH => "PATCH" case DELETE => "DELETE" case OPTIONS => "OPTIONS"
  }

  lemma VerbReads(m: Method)
    ensures MethodOf(VerbText(m)) == Some(m) && AllTokens(VerbText(m)) && ' ' !in VerbText(m)
  {
  }

  function TargetText(path: string, query: Option<string>): string {
    match query
    case None => path
    case Some(q) => path + "?" + q
  }

  lemma TargetSplits(verb: Method, path: string, query: Option<string>)
    requires '?' !in path
    ensures LineOf(verb, TargetText(path, query))
         == Line(verb, path, if query.Some? then query.value else "")
  {
    match query
    case None =>
      FindReads(path, 0, path, '?');
    case Some(q) =>
      var t := TargetText(path, query);
      assert t[..|path|] == path && t[|path| + 1..] == q;
      FindReads(t, 0, path, '?');
  }

  /** A header line with the optional blanks around its value. */
  datatype FieldText = FieldText(name: string, before: string, value: string, after: string) {
    ghost predicate Valid() {
      && AllTokens(name) && ':' !in name
      && AllBlank(before) && AllBlank(after)
      && '\r' !in value
      && (value != "" ==> !BlankChar(value[0]) && !BlankChar(value[|value| - 1]))
    }
    function Text(): string {
      name + (":" + (before + (value + (after + "\r\n"))))
    }
    function Header(): Header {
      (name, value)
    }
  }

  lemma FieldReads(d: string, p: nat, f: FieldText)
    requires f.Valid() && At(d, p, f.Text())
    ensures Field(d, p) == Ok(f.Header(), p + |f.Text()|)
  {
    hide Token, Find, SkipBlank, TrimRight, At, AllTokens, AllBlank, BlankChar;
    var tail := f.before + (f.value + (f.after + "\r\n"));
    AtSplit(d, p, f.name, ":" + tail);
    var colon := p + |f.name|;
    AtSplit(d, colon, ":", tail);
    AtTail(d, colon, ":");
    TokenReads(d, p, f.name, ':');
    ValueReads(d, colon + 1, f);
  }

  lemma ValueReads(d: string, p: nat, f: FieldText)
    requires f.Valid() && At(d, p, f.before + (f.value + (f.after + "\r\n")))
    ensures p <= |d|
    ensures var from := SkipBlank(d, p);
      var cr := Find(d, from, '\r');
      && cr == p + |f.before| + |f.value| + |f.after|
      && cr + 2 <= |d| && d[cr + 1] == '\n'
      && TrimRight(d[from..cr]) == f.value
  {
    hide Find, SkipBlank, TrimRight, At, AllBlank, BlankChar, FieldText.Valid;
    ValuePlaces(d, p, f);
    ValidParts(f);
    var from := p + |f.before|;
    if f.value == "" {
      AtJoin(d, p, f.before, f.after);
      BlankValue(d, p, f.before + f.after);
      assert d[from + |f.after|..from + |f.after|] == "";
    } else {
      AtTail(d, from, f.value);
      SkipBlankReads(d, p, f.before);
      AtJoin(d, from, f.value, f.after);
      TextValue(d, from, f.value, f.after);
    }
  }

  lemma ValuePlaces(d: string, p: nat, f: FieldText)
    requires At(d, p, f.before + (f.value + (f.after + "\r\n")))
    ensures var from := p + |f.before|;
      var after := from + |f.value|;
      var cr := after + |f.after|;
      && At(d, p, f.before) && At(d, from, f.value) && At(d, after, f.after)
      && cr + 2 <= |d| && d[cr] == '\r' && d[cr + 1] == '\n'
  {
    hide At;
    var from := p + |f.before|;
    var after := from + |f.value|;
    AtSplit(d, p, f.before, f.value + (f.after + "\r\n"));
    AtSplit(d, from, f.value, f.after + "\r\n");
    AtSplit(d, after, f.after, "\r\n");
    LineEndAt(d, after + |f.after|);
  }

  lemma BlankValue(d: string, p: nat, blanks: string)
    requires AllBlank(blanks) && At(d, p, blanks) && p + |blanks| < |d| && d[p + |blanks|] == '\r'
    ensures SkipBlank(d, p) == p + |blanks| && Find(d, p + |blanks|, '\r') == p + |blanks|
    ensures TrimRight("") == ""
  {
    SkipBlankReads(d, p, blanks);
  }

  lemma TextValue(d: string, from: nat, value: string, after: string)
    requires At(d, from, value + after) && '\r' !in value + after && AllBlank(after)
    requires value != "" && !BlankChar(value[|value| - 1])
    requires var cr := from + |value + after|; cr < |d| && d[cr] == '\r'
    ensures var cr := from + |value + after|; Find(d, from, '\r') == cr && TrimRight(d[from..cr]) == value
  {
    hide BlankChar;
    FindReads(d, from, value + after, '\r');
    TrimReads(value, after);
  }

  lemma ValidParts(f: FieldText)
    requires f.Valid()
    ensures AllBlank(f.before) && AllBlank(f.after) && AllBlank(f.before + f.after)
    ensures '\r' !in f.value + f.after
    ensures f.value != "" ==> !BlankChar(f.value[0]) && !BlankChar(f.value[|f.value| - 1])
  {
  }

  /** The header lines and the empty line that ends them. */
  function FieldsText(fs: seq<FieldText>): string {
    if fs == [] then "\r\n" else fs[0].Text() + FieldsText(fs[1..])
  }

  function Headers(fs: seq<FieldText>): (hs: seq<Header>)
    ensures |hs| == |fs| && forall i | 0 <= i < |fs| :: hs[i] == fs[i].Header()
  {
    if fs == [] then [] else [fs[0].Header()] + Headers(fs[1..])
  }

  ghost predicate AllValid(fs: seq<FieldText>) { forall f | f in fs :: f.Valid() }

  lemma {:induction false} SectionReads(d: string, p: nat, fs: seq<FieldText>, g: Fields, maxBody: nat)
    requires AllValid(fs) && At(d, p, FieldsText(fs))
    ensures var all := NoteAll(g, Headers(fs), maxBody);
      var r := Section(d, p, g, maxBody);
      if all.Ok? then r == Ok(all.value, p + |FieldsText(fs)|) else r == all
    decreases |fs|
  {
    hide Field, Note, At, FieldText.Valid, FieldText.Text, FieldText.Header;
    if fs == [] {
      LineEndAt(d, p);
    } else {
      var f := fs[0];
      assert f in fs && Headers(fs)[1..] == Headers(fs[1..]);
      AtSplit(d, p, f.Text(), FieldsText(fs[1..]));
      FirstNotReturn(f);
      AtTail(d, p, f.Text());
      FieldReads(d, p, f);
      NoteNotMore(g, f.Header(), maxBody);
      var n := Note(g, f.Header(), maxBody);
      if n.Ok? { SectionReads(d, p + |f.Text()|, fs[1..], n.value, maxBody); }
    }
  }

  lemma FirstNotReturn(f: FieldText)
    requires f.Valid()
    ensures f.Text() != "" && f.Text()[0] != '\r'
  {
    if f.name != "" {
      assert f.Text()[0] == f.name[0] && f.name[0] in f.name;
    } else {
      assert f.Text()[0] == ':';
    }
  }

  lemma NoteNotMore(g: Fields, h: Header, maxBody: nat)
    ensures !Note(g, h, maxBody).More?
  {
  }

  datatype HeadText = HeadText(verb: Method, path: string, query: Option<string>, current: bool, fields: seq<FieldText>) {
    ghost predicate Valid() {
      && ' ' !in path && '\r' !in path && '?' !in path
      && (query.Some? ==> ' ' !in query.value && '\r' !in query.value)
      && AllValid(fields)
    }
    function Version(): string { if current then "HTTP/1.1" else "HTTP/1.0" }
    function Text(): string {
      VerbText(verb) + (" " + (TargetText(path, query) + (" " + (Version() + ("\r\n" + FieldsText(fields))))))
    }
    /** The keep-alive default of the version, as the header lines change it. */
    function Said(maxBody: nat): Outcome<Fields> {
      NoteAll(Fields(current, [], None, false), Headers(fields), maxBody)
    }
    function Line(): Line {
      HttpSyntax.Line(verb, path, if query.Some? then query.value else "")
    }
  }

  lemma LineReads(d: string, t: HeadText)
    requires t.Valid() && At(d, 0, t.Text())
    ensures var p := |VerbText(t.verb)| + |TargetText(t.path, t.query)| + 2;
      && RequestLine(d) == Ok(t.Line(), p)
      && At(d, p, t.Version() + ("\r\n" + FieldsText(t.fields)))
  {
    hide Token, Target, MethodOf, LineOf, At, VerbText, AllTokens, FieldsText, AllValid, TargetText;
    var verb, target := VerbText(t.verb), TargetText(t.path, t.query);
    var tail := t.Version() + ("\r\n" + FieldsText(t.fields));
    AtSplit(d, 0, verb, " " + (target + (" " + tail)));
    AtSplit(d, |verb|, " ", target + (" " + tail));
    AtTail(d, |verb|, " ");
    AtSplit(d, |verb| + 1, target, " " + tail);
    AtSplit(d, |verb| + 1 + |target|, " ", tail);
    AtTail(d, |verb| + 1 + |target|, " ");
    VerbReads(t.verb);
    TargetClean(t);
    TokenReads(d, 0, verb, ' ');
    TargetReads(d, |verb| + 1, target);
    TargetSplits(t.verb, t.path, t.query);
  }

  lemma TargetClean(t: HeadText)
    requires t.Valid()
    ensures ' ' !in TargetText(t.path, t.query) && '\r' !in TargetText(t.path, t.query)
  {
    hide AllValid;
  }

  lemma VersionReads(d: string, p: nat, t: HeadText)
    requires At(d, p, t.Version() + ("\r\n" + FieldsText(t.fields)))
    ensures p <= |d| && Version(d, p) == Ok(t.Version(), p + 10)
    ensures At(d, p + 10, FieldsText(t.fields))
    ensures t.Version() == HTTP11 <==> t.current
  {
    hide At, FieldsText;
    AtSplit(d, p, t.Version(), "\r\n" + FieldsText(t.fields));
    AtSplit(d, p + 8, "\r\n", FieldsText(t.fields));
    SliceAt(d, p, t.Version());
    LineEndAt(d, p + 8);
    assert HTTP11[7] == '1' && HTTP10[7] == '0';
  }

  lemma HeadReads(d: string, t: HeadText, maxBody: nat)
    requires t.Valid() && At(d, 0, t.Text())
    ensures var said := t.Said(maxBody);
      && (said.Ok? ==> HeadOf(d, maxBody) == Ok(Head(t.Line(), t.Version(), said.value), |t.Text()|))
      && (said.Bad? ==> HeadOf(d, maxBody) == Bad)
      && (said.Large? ==> HeadOf(d, maxBody) == Large)
  {
    hide RequestLine, Version, Section, At, VerbText, TargetText, FieldsText, NoteAll;
    LineReads(d, t);
    var p := |VerbText(t.verb)| + |TargetText(t.path, t.query)| + 2;
    VersionReads(d, p, t);
    SectionReads(d, p + 10, t.fields, Fields(t.current, [], None, false), maxBody);
  }

  // ------------------------------------------------------------------ whole requests

  function RequestFor(t: HeadText, said: Fields, body: string): Request {
    RequestOf(Head(t.Line(), t.Version(), said), body)
  }

  /** A request that is not chunked is read back whole, whatever follows it: method,
      path, query, headers in order, connection persistence, body and exact length. */
  lemma PlainReads(t: HeadText, body: string, rest: string, maxBody: nat)
    requires t.Valid() && t.Said(maxBody).Ok?
    requires var said := t.Said(maxBody).value;
      !said.chunked && (if said.length.Some? then said.length.value == |body| <= maxBody else body == "")
    ensures Parse(t.Text() + body + rest, maxBody)
         == Done(RequestFor(t, t.Said(maxBody).value, body), |t.Text() + body|)
  {
    hide HeadOf, HeadText.Text, HeadText.Valid, HeadText.Said, HeadText.Line, HeadText.Version;
    var d := t.Text() + body + rest;
    assert d[..|t.Text()|] == t.Text();
    HeadReads(d, t, maxBody);
    assert d[|t.Text()|..|t.Text()| + |body|] == body;
  }

  /** One chunk on the wire: the size digits, an extension, the data. */
  datatype ChunkText = ChunkText(size: string, extension: string, data: string) {
    ghost predicate Valid() {
      && data != "" && SizeText(size, extension, |data|)
    }
    function Text(): string {
      size + (extension + ("\r\n" + (data + "\r\n")))
    }
  }

  /** Hex digits in either case, leading zeros allowed, then anything without a line end
      that does not go on with a hex digit. */
  ghost predicate SizeText(size: string, extension: string, value: nat) {
    && size != "" && (forall c | c in size :: HexDigit(c).Some?)
    && HexValue(size, 0) == value <= SIZE_MAX
    && '\r' !in extension && '\n' !in extension
    && (extension != "" ==> HexDigit(extension[0]).None?)
  }

  function HexValue(s: string, v: nat): nat
    decreases |s|
  {
    if s == "" then v
    else HexValue(s[1..], v * 16 + (if HexDigit(s[0]).Some? then HexDigit(s[0]).value else 0))
  }

  lemma {:induction false} HexValueGrows(s: string, v: nat)
    ensures HexValue(s, v) >= v
    decreases |s|
  {
    hide HexDigit;
    if s != "" { HexValueGrows(s[1..], v * 16 + (if HexDigit(s[0]).Some? then HexDigit(s[0]).value else 0)); }
  }

  lemma {:induction false} HexReads(d: string, p: nat, s: string, v: nat)
    requires At(d, p, s) && (forall c | c in s :: HexDigit(c).Some?)
    requires p + |s| == |d| || HexDigit(d[p + |s|]).None?
    requires HexValue(s, v) <= SIZE_MAX
    ensures Hex(d, p, v) == Ok(HexValue(s, v), p + |s|)
    decreases |s|
  {
    hide HexDigit, At;
    if s == "" {
      SliceAt(d, p, s);
    } else {
      AtTail(d, p, s);
      var h := HexDigit(s[0]).value;
      HexValueGrows(s[1..], v * 16 + h);
      HexReads(d, p + 1, s[1..], v * 16 + h);
    }
  }

  lemma {:induction false} SkipExtensionReads(d: string, p: nat, s: string)
    requires At(d, p, s) && '\r' !in s && '\n' !in s && p + |s| < |d| && d[p + |s|] == '\r'
    ensures SkipExtension(d, p) == p + |s|
    decreases |s|
  {
    if s != "" {
      AtTail(d, p, s);
      SkipExtensionReads(d, p + 1, s[1..]);
    }
  }

  lemma SizeLineReads(d: string, p: nat, size: string, extension: string, rest: string, value: nat)
    requires SizeText(size, extension, value) && At(d, p, size + (extension + ("\r\n" + rest)))
    ensures p <= |d| && SizeLineAt(d, p) == LineRead(value, p + |size| + |extension| + 2)
    ensures At(d, p + |size| + |extension| + 2, rest)
  {
    hide Hex, SkipExtension, At, HexValue;
    AtSplit(d, p, size, extension + ("\r\n" + rest));
    var q := p + |size|;
    AtSplit(d, q, extension, "\r\n" + rest);
    var e := q + |extension|;
    AtSplit(d, e, "\r\n", rest);
    LineEndAt(d, e);
    if extension != "" { AtTail(d, q, extension); }
    HexReads(d, p, size, 0);
    SkipExtensionReads(d, q, extension);
  }

  function ChunksText(cs: seq<ChunkText>, end: string): string {
    if cs == [] then end else cs[0].Text() + ChunksText(cs[1..], end)
  }

  function Data(cs: seq<ChunkText>): string {
    if cs == [] then "" else cs[0].data + Data(cs[1..])
  }

  function TrailersText(lines: seq<string>): string {
    if lines == [] then "\r\n" else lines[0] + ("\r\n" + TrailersText(lines[1..]))
  }

  ghost predicate TrailerOk(l: string) { l != "" && '\r' !in l }

  /** The last chunk, of size zero, and the trailer lines. */
  datatype Ending = Ending(size: string, extension: string, trailers: seq<string>) {
    ghost predicate Valid() {
      SizeText(size, extension, 0) && forall l | l in trailers :: TrailerOk(l)
    }
    function Text(): string {
      size + (extension + ("\r\n" + TrailersText(trailers)))
    }
  }

  lemma {:induction false} TrailersRead(d: string, p: nat, lines: seq<string>, body: string)
    requires At(d, p, TrailersText(lines)) && forall l | l in lines :: TrailerOk(l)
    ensures p <= |d| && Trailers(d, p, body) == Whole(body, p + |TrailersText(lines)|)
    decreases |lines|
  {
    hide Find, At;
    if lines == [] {
      LineEndAt(d, p);
    } else {
      var l := lines[0];
      assert l in lines;
      TrailerLine(d, p, l, TrailersText(lines[1..]));
      TrailersRead(d, p + |l| + 2, lines[1..], body);
    }
  }

  lemma TrailerLine(d: string, p: nat, l: string, rest: string)
    requires At(d, p, l + ("\r\n" + rest)) && l != "" && '\r' !in l
    ensures p + |l| + 2 <= |d| && d[p] != '\r'
    ensures Find(d, p, '\r') == p + |l| && d[p + |l| + 1] == '\n' && At(d, p + |l| + 2, rest)
  {
    hide Find, At;
    AtSplit(d, p, l, "\r\n" + rest);
    AtSplit(d, p + |l|, "\r\n", rest);
    LineEndAt(d, p + |l|);
    AtTail(d, p, l);
    FindReads(d, p, l, '\r');
  }

  lemma {:induction false} ChunksRead(d: string, p: nat, cs: seq<ChunkText>, end: Ending, body: string, maxBody: nat)
    requires (forall c | c in cs :: c.Valid()) && end.Valid()
    requires At(d, p, ChunksText(cs, end.Text())) && |body| + |Data(cs)| <= maxBody
    ensures p <= |d|
    ensures Chunks(d, p, body, maxBody) == Whole(body + Data(cs), p + |ChunksText(cs, end.Text())|)
    decreases |cs|
  {
    hide SizeLineAt, Trailers, At, SizeText, TrailersText, ChunkText.Text;
    if cs == [] {
      SizeLineReads(d, p, end.size, end.extension, TrailersText(end.trailers), 0);
      TrailersRead(d, p + |end.size| + |end.extension| + 2, end.trailers, body);
      assert body + "" == body;
    } else {
      var c := cs[0];
      assert c in cs;
      AtSplit(d, p, c.Text(), ChunksText(cs[1..], end.Text()));
      ChunkReads(d, p, c);
      ChunksRead(d, p + |c.Text()|, cs[1..], end, body + c.data, maxBody);
      assert (body + c.data) + Data(cs[1..]) == body + Data(cs);
    }
  }

  lemma ChunkReads(d: string, p: nat, c: ChunkText)
    requires c.Valid() && At(d, p, c.Text())
    ensures p + |c.Text()| <= |d|
    ensures var q := p + |c.Text()| - |c.data| - 2;
      && SizeLineAt(d, p) == LineRead(|c.data|, q)
      && d[q..q + |c.data|] == c.data && d[q + |c.data|] == '\r' && d[q + |c.data| + 1] == '\n'
  {
    hide SizeLineAt, At, SizeText;
    SizeLineReads(d, p, c.size, c.extension, c.data + "\r\n", |c.data|);
    var q := p + |c.size| + |c.extension| + 2;
    AtSplit(d, q, c.data, "\r\n");
    LineEndAt(d, q + |c.data|);
    SliceAt(d, q, c.data);
  }

  /** A complete chunked message within the limit is read as the concatenation of its
      chunks, and its length is exact, whatever follows it. */
  lemma ChunkedReads(t: HeadText, cs: seq<ChunkText>, end: Ending, rest: string, maxBody: nat)
    requires t.Valid() && t.Said(maxBody).Ok?
    requires var said := t.Said(maxBody).value; said.chunked && said.length.None?
    requires (forall c | c in cs :: c.Valid()) && end.Valid() && |Data(cs)| <= maxBody
    ensures var message := t.Text() + ChunksText(cs, end.Text());
      Parse(message + rest, maxBody)
      == Done(RequestFor(t, t.Said(maxBody).value, Data(cs)), |message|)
  {
    hide HeadOf, Chunks, Data, ChunksText, ChunkText.Valid, Ending.Valid, Ending.Text,
      HeadText.Text, HeadText.Valid, HeadText.Said, HeadText.Line, HeadText.Version;
    var wire := ChunksText(cs, end.Text());
    var d := t.Text() + wire + rest;
    assert d[..|t.Text()|] == t.Text();
    HeadReads(d, t, maxBody);
    assert d[|t.Text()|..|t.Text()| + |wire|] == wire;
    ChunksRead(d, |t.Text()|, cs, end, "", maxBody);
    assert "" + Data(cs) == Data(cs);
  }
}
