/** What the HTTP/1.1 request parser computes, as a function of the bytes received.

    Every scanner works on the whole buffer from a position, and says either that more
    bytes are needed, or that the request is refused, or what it read and where it
    stopped. */
module HttpSyntax {
  import opened Basics

  const SIZE_MAX: nat := 0xFFFF_FFFF_FFFF_FFFF

  datatype Outcome<T> = More | Bad | Large | Ok(value: T, pos: nat)

  datatype Method = GET | PUT | POST | HEAD | PATCH | DELETE | OPTIONS

  type Header = (string, string)

  datatype Line = Line(verb: Method, path: string, query: string)

  /** What the header section has said so far. */
  datatype Fields = Fields(keepAlive: bool, headers: seq<Header>, length: Option<nat>, chunked: bool)

  datatype Head = Head(line: Line, version: string, fields: Fields)

  datatype Request = Request(
    verb: Method, path: string, query: string, version: string,
    keepAlive: bool, headers: seq<Header>, body: string)

  // ------------------------------------------------------------------ characters

  predicate IsDigit(c: char) { '0' <= c <= '9' }

  predicate IsToken(c: char) {
    'a' <= c <= 'z' || 'A' <= c <= 'Z' || IsDigit(c) || c in "!#$%&'*+-.^_`|~"
  }

  predicate IsBlank(c: char) { c == ' ' || c == '\t' }

  function Lower(c: char): char {
    if 'A' <= c <= 'Z' then c + ('a' - 'A') else c
  }

  function LowerAll(s: string): (r: string)
    ensures |r| == |s|
  {
    if s == "" then "" else [Lower(s[0])] + LowerAll(s[1..])
  }

  // ------------------------------------------------------------------ scanners

  /** Token characters up to a stop character. */
  function Token(d: string, p: nat, stop: char): (r: Outcome<string>)
    ensures r.Ok? ==> p <= r.pos < |d| && d[r.pos] == stop && r.value == d[p..r.pos]
    decreases |d| - p
  {
    if p >= |d| then More
    else if d[p] == stop then Ok("", p)
    else if !IsToken(d[p]) then Bad
    else
      var r := Token(d, p + 1, stop);
      if r.Ok? then Ok([d[p]] + r.value, r.pos) else r
  }

  /** Anything but a carriage return up to a space. */
  function Target(d: string, p: nat): (r: Outcome<string>)
    ensures r.Ok? ==> p <= r.pos < |d| && d[r.pos] == ' ' && r.value == d[p..r.pos]
    decreases |d| - p
  {
    if p >= |d| then More
    else if d[p] == ' ' then Ok("", p)
    else if d[p] == '\r' then Bad
    else
      var r := Target(d, p + 1);
      if r.Ok? then Ok([d[p]] + r.value, r.pos) else r
  }

  /** The first c at or after p, or the end. */
  function Find(d: string, p: nat, c: char): (q: nat)
    requires p <= |d|
    ensures p <= q <= |d| && c !in d[p..q] && (q < |d| ==> d[q] == c)
    decreases |d| - p
  {
    if p == |d| || d[p] == c then p else
    var q := Find(d, p + 1, c);
    assert d[p..q] == [d[p]] + d[p + 1..q];
    q
  }

  function SkipBlank(d: string, p: nat): (q: nat)
    requires p <= |d|
    ensures p <= q <= |d|
    decreases |d| - p
  {
    if p < |d| && IsBlank(d[p]) then SkipBlank(d, p + 1) else p
  }

  function TrimRight(s: string): string {
    if s != "" && IsBlank(s[|s| - 1]) then TrimRight(s[..|s| - 1]) else s
  }

  function MethodOf(s: string): Option<Method> {
    if s == "GET" then Some(GET)
    else if s == "PUT" then Some(PUT)
    else if s == "POST" then Some(POST)
    else if s == "HEAD" then Some(HEAD)
    else if s == "PATCH" then Some(PATCH)
    else if s == "DELETE" then Some(DELETE)
    else if s == "OPTIONS" then Some(OPTIONS)
    else None
  }

  function LineOf(verb: Method, target: string): Line {
    var q := Find(target, 0, '?');
    if q == |target| then Line(verb, target, "") else Line(verb, target[..q], target[q + 1..])
  }

  /** Method and target, up to and including the space behind the target. */
  function RequestLine(d: string): Outcome<Line> {
    match Token(d, 0, ' ')
    case More => More
    case Bad => Bad
    case Large => Large
    case Ok(name, p) =>
      var verb := MethodOf(name);
      if verb.None? then Bad else
      match Target(d, p + 1)
      case More => More
      case Bad => Bad
      case Large => Large
      case Ok(target, q) => Ok(LineOf(verb.value, target), q + 1)
  }

  const HTTP11: string := "HTTP/1.1"
  const HTTP10: string := "HTTP/1.0"

  function Version(d: string, p: nat): Outcome<string>
    requires p <= |d|
  {
    if |d| - p < 8 || (d[p..p + 8] != HTTP11 && d[p..p + 8] != HTTP10) then
      if Find(d, p, '\r') < |d| then Bad else More
    else if |d| - p < 10 then More
    else if d[p + 8] != '\r' || d[p + 9] != '\n' then Bad
    else Ok(d[p..p + 8], p + 10)
  }

  /** One header line, from its first character past its line end. */
  function Field(d: string, p: nat): (r: Outcome<Header>)
    ensures r.Ok? ==> p < r.pos <= |d|
  {
    match Token(d, p, ':')
    case More => More
    case Bad => Bad
    case Large => Large
    case Ok(name, colon) =>
      var from := SkipBlank(d, colon + 1);
      var cr := Find(d, from, '\r');
      if |d| - cr < 2 then More
      else if d[cr + 1] != '\n' then Bad
      else Ok((name, TrimRight(d[from..cr])), cr + 2)
  }

  // ------------------------------------------------------------------ header meaning

  /** The decimal value of a Content-Length, cut short once it is over the limit. The
      machine word wraps, so `max_body + 1` is zero at the largest limit. */
  function LengthFrom(value: string, i: nat, v: nat, maxBody: nat): Option<nat>
    requires i <= |value|
    decreases |value| - i
  {
    if i == |value| then Some(v)
    else if !IsDigit(value[i]) then None
    else
      var digit := value[i] as nat - '0' as nat;
      if v > (SIZE_MAX - digit) / 10 then Some((maxBody + 1) % (SIZE_MAX + 1))
      else if v * 10 + digit > maxBody then Some(v * 10 + digit)
      else LengthFrom(value, i + 1, v * 10 + digit, maxBody)
  }

  /** What one header line adds. */
  function Note(f: Fields, h: Header, maxBody: nat): Outcome<Fields> {
    var name := LowerAll(h.0);
    var value := LowerAll(h.1);
    var kept := f.(headers := f.headers + [h]);
    if name == "content-length" then
      var v := LengthFrom(h.1, 0, 0, maxBody);
      if v.None? then Bad
      else if v.value > maxBody then Large
      else Ok(kept.(length := v), 0)
    else if name == "connection" then
      if value == "close" then Ok(kept.(keepAlive := false), 0)
      else if value == "keep-alive" then Ok(kept.(keepAlive := true), 0)
      else Ok(kept, 0)
    else if name == "transfer-encoding" then
      if value == "chunked" then Ok(kept.(chunked := true), 0) else Bad
    else Ok(kept, 0)
  }

  /** The header section, up to and including its empty line. */
  function Section(d: string, p: nat, f: Fields, maxBody: nat): (r: Outcome<Fields>)
    ensures r.Ok? ==> p < r.pos <= |d|
    decreases |d| - p
  {
    if p >= |d| then More
    else if d[p] == '\r' then
      if |d| - p < 2 then More else if d[p + 1] != '\n' then Bad else Ok(f, p + 2)
    else
      match Field(d, p)
      case More => More
      case Bad => Bad
      case Large => Large
      case Ok(h, q) =>
        match Note(f, h, maxBody)
        case More => More
        case Bad => Bad
        case Large => Large
        case Ok(g, _) => Section(d, q, g, maxBody)
  }

  /** Everything before the body. */
  function HeadOf(d: string, maxBody: nat): (r: Outcome<Head>)
    ensures r.Ok? ==> 0 < r.pos <= |d|
  {
    match RequestLine(d)
    case More => More
    case Bad => Bad
    case Large => Large
    case Ok(line, p) =>
      match Version(d, p)
      case More => More
      case Bad => Bad
      case Large => Large
      case Ok(version, q) =>
        match Section(d, q, Fields(version == HTTP11, [], None, false), maxBody)
        case More => More
        case Bad => Bad
        case Large => Large
        case Ok(fields, r) => Ok(Head(line, version, fields), r)
  }

  // ------------------------------------------------------------------ chunked bodies

  /** Hex digits from p on, onto a value already read; Large when a word overflows. */
  function Hex(d: string, p: nat, v: nat): (r: Outcome<nat>)
    requires p <= |d|
    ensures r.Ok? ==> p <= r.pos <= |d| && (r.pos < |d| ==> HexDigit(d[r.pos]).None?)
    ensures r.Ok? || r.Large?
    decreases |d| - p
  {
    if p == |d| || HexDigit(d[p]).None? then Ok(v, p)
    else
      var h := HexDigit(d[p]).value;
      if v > (SIZE_MAX - h) / 16 then Large else Hex(d, p + 1, v * 16 + h)
  }

  /** The end of a chunk extension: the first carriage return or line feed. */
  function SkipExtension(d: string, p: nat): (q: nat)
    requires p <= |d|
    ensures p <= q <= |d| && (q < |d| ==> d[q] == '\r' || d[q] == '\n')
    decreases |d| - p
  {
    if p < |d| && d[p] != '\r' && d[p] != '\n' then SkipExtension(d, p + 1) else p
  }

  /** How a chunked body ends: `Starved` is the refusal of a body that merely ran out of
      bytes where a chunk size, or the line feed behind a trailer line, was due. */
  datatype Chunked = NeedMore | Refused | Starved | TooLarge | Whole(body: string, pos: nat)

  function Trailers(d: string, p: nat, body: string): (r: Chunked)
    requires p <= |d|
    ensures r.Whole? ==> p <= r.pos <= |d|
    decreases |d| - p
  {
    if |d| - p < 2 then NeedMore
    else if d[p] == '\r' && d[p + 1] == '\n' then Whole(body, p + 2)
    else
      var cr := Find(d, p, '\r');
      if cr == |d| then NeedMore
      else if |d| - cr < 2 then Starved
      else if d[cr + 1] != '\n' then Refused
      else Trailers(d, cr + 2, body)
  }

  datatype SizeLine = LineMore | LineRefused | LineStarved | LineLarge | LineRead(size: nat, pos: nat)

  /** A chunk size with its extension, past its line end. */
  function SizeLineAt(d: string, p: nat): (r: SizeLine)
    requires p <= |d|
    ensures r.LineRead? ==> p < r.pos <= |d|
  {
    match Hex(d, p, 0)
    case More => LineMore
    case Bad => LineRefused
    case Large => LineLarge
    case Ok(size, q) =>
      if q == p then (if p == |d| then LineStarved else LineRefused) else
      var e := SkipExtension(d, q);
      if |d| - e < 2 then LineMore
      else if d[e] != '\r' || d[e + 1] != '\n' then LineRefused
      else LineRead(size, e + 2)
  }

  function Chunks(d: string, p: nat, body: string, maxBody: nat): (r: Chunked)
    requires p <= |d|
    ensures r.Whole? ==> p <= r.pos <= |d|
    decreases |d| - p
  {
    match SizeLineAt(d, p)
    case LineMore => NeedMore
    case LineRefused => Refused
    case LineStarved => Starved
    case LineLarge => TooLarge
    case LineRead(size, q) =>
      if size == 0 then Trailers(d, q, body)
      else if size > maxBody || |body| + size > maxBody then TooLarge
      else if |d| - q < size + 2 then NeedMore
      else if d[q + size] != '\r' || d[q + size + 1] != '\n' then Refused
      else Chunks(d, q + size + 2, body + d[q..q + size], maxBody)
  }

  /** The body bytes moved to the front by the time the decoder stops. Decoding is in
      place, and the data is moved before the line end behind it is looked at. */
  function Moved(d: string, p: nat, body: string, maxBody: nat): (r: string)
    requires p <= |d|
    ensures |body| <= |r| <= |body| + |d| - p
    decreases |d| - p
  {
    var l := SizeLineAt(d, p);
    if !l.LineRead? || l.size == 0 || l.size > maxBody || |body| + l.size > maxBody
      || |d| - l.pos < l.size + 2
    then body else
    var t := l.pos + l.size;
    var more := body + d[l.pos..t];
    if d[t] != '\r' || d[t + 1] != '\n' then more else Moved(d, t + 2, more, maxBody)
  }

  // ------------------------------------------------------------------ the whole request

  datatype Verdict =
    | Incomplete
    | BadRequest(starved: bool)
    | Oversize
    | Done(request: Request, consumed: nat)

  function RequestOf(h: Head, body: string): Request {
    Request(h.line.verb, h.line.path, h.line.query, h.version, h.fields.keepAlive, h.fields.headers, body)
  }

  function BodyOf(d: string, h: Head, p: nat, maxBody: nat): (v: Verdict)
    requires p <= |d|
    ensures v.Done? ==> p <= v.consumed <= |d|
  {
    if h.fields.chunked && h.fields.length.Some? then BadRequest(false)
    else if h.fields.chunked then
      match Chunks(d, p, "", maxBody)
      case NeedMore => Incomplete
      case Refused => BadRequest(false)
      case Starved => BadRequest(true)
      case TooLarge => Oversize
      case Whole(body, q) => Done(RequestOf(h, body), q)
    else if h.fields.length.Some? then
      var n := h.fields.length.value;
      if n > maxBody then Oversize
      else if n > |d| - p then Incomplete
      else Done(RequestOf(h, d[p..p + n]), p + n)
    else Done(RequestOf(h, ""), p)
  }

  function Parse(d: string, maxBody: nat): (v: Verdict)
    ensures v.Done? ==> 0 < v.consumed <= |d|
  {
    match HeadOf(d, maxBody)
    case More => Incomplete
    case Bad => BadRequest(false)
    case Large => Oversize
    case Ok(h, p) => BodyOf(d, h, p, maxBody)
  }

  /** The buffer as a parse leaves it. */
  function Residue(d: string, maxBody: nat): (r: string)
    ensures |r| == |d|
  {
    var h := HeadOf(d, maxBody);
    if h.Ok? && h.value.fields.chunked && h.value.fields.length.None? then
      var moved := Moved(d, h.pos, "", maxBody);
      d[..h.pos] + moved + d[h.pos + |moved|..]
    else d
  }
}
