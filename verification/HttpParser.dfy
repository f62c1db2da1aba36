/** The request parser as it runs: cursors that advance in loops, and a chunked body that
    is decoded into the buffer it arrived in. */
module HttpParser {
  import opened Basics
  import opened HttpSyntax

  /** Two scans that stop in the same place for the same reason. */
  ghost predicate SameStop(a: Outcome<string>, b: Outcome<string>) {
    if a.Ok? then b.Ok? && a.pos == b.pos else a == b
  }

  method ScanToken(d: string, start: nat, stop: char) returns (r: Outcome<string>)
    ensures r == Token(d, start, stop)
  {
    hide IsToken;
    var p := start;
    while true
      invariant start <= p && (p <= |d| || p == start)
      invariant SameStop(Token(d, p, stop), Token(d, start, stop))
      decreases |d| - p
    {
      if p >= |d| { return More; }
      if d[p] == stop { return Ok(d[start..p], p); }
      if !IsToken(d[p]) { return Bad; }
      p := p + 1;
    }
  }

  method ScanTarget(d: string, start: nat) returns (r: Outcome<string>)
    ensures r == Target(d, start)
  {
    var p := start;
    while true
      invariant start <= p && (p <= |d| || p == start)
      invariant SameStop(Target(d, p), Target(d, start))
      decreases |d| - p
    {
      if p >= |d| { return More; }
      if d[p] == ' ' { return Ok(d[start..p], p); }
      if d[p] == '\r' { return Bad; }
      p := p + 1;
    }
  }

  method ReadLength(value: string, maxBody: nat) returns (r: Option<nat>)
    ensures r == LengthFrom(value, 0, 0, maxBody)
  {
    var v: nat := 0;
    var i := 0;
    while i < |value|
      invariant 0 <= i <= |value|
      invariant LengthFrom(value, i, v, maxBody) == LengthFrom(value, 0, 0, maxBody)
    {
      if !IsDigit(value[i]) { return None; }
      var digit := value[i] as nat - '0' as nat;
      if v > (SIZE_MAX - digit) / 10 { return Some((maxBody + 1) % (SIZE_MAX + 1)); }
      v := v * 10 + digit;
      if v > maxBody { return Some(v); }
      i := i + 1;
    }
    r := Some(v);
  }

  /** The header loop. */
  method ReadSection(d: string, start: nat, initial: Fields, maxBody: nat) returns (r: Outcome<Fields>)
    ensures r == Section(d, start, initial, maxBody)
  {
    hide Field, Note;
    var p := start;
    var f := initial;
    while true
      invariant start <= p && (p <= |d| || p == start)
      invariant Section(d, p, f, maxBody) == Section(d, start, initial, maxBody)
      decreases |d| - p
    {
      if p >= |d| { return More; }
      if d[p] == '\r' {
        if |d| - p < 2 { return More; }
        if d[p + 1] != '\n' { return Bad; }
        return Ok(f, p + 2);
      }
      var h := Field(d, p);
      match h {
        case More => return More;
        case Bad => return Bad;
        case Large => return Large;
        case Ok(header, q) =>
          var n := Note(f, header, maxBody);
          match n {
            case More => return More;
            case Bad => return Bad;
            case Large => return Large;
            case Ok(g, _) => f, p := g, q;
          }
      }
    }
  }

  // ------------------------------------------------------------------ in place

  /** From p on, the buffer still holds what arrived. */
  ghost predicate Unread(data: array<char>, d: string, p: nat)
    reads data
  {
    |d| <= data.Length && forall i | p <= i < |d| :: data[i] == d[i]
  }

  method ReadSizeLine(data: array<char>, ghost d: string, len: nat, start: nat) returns (l: SizeLine)
    requires start <= |d| == len && Unread(data, d, start)
    ensures l == SizeLineAt(d, start)
  {
    hide HexDigit;
    var p := start;
    var size: nat := 0;
    while p < len && HexDigit(data[p]).Some?
      invariant start <= p <= len
      invariant Hex(d, p, size) == Hex(d, start, 0)
    {
      var h := HexDigit(data[p]).value;
      if size > (SIZE_MAX - h) / 16 { return LineLarge; }
      size := size * 16 + h;
      p := p + 1;
    }
    if p == start { return if p == len then LineStarved else LineRefused; }
    ghost var q := p;
    while p < len && data[p] != '\r' && data[p] != '\n'
      invariant q <= p <= len
      invariant SkipExtension(d, p) == SkipExtension(d, q)
    {
      p := p + 1;
    }
    if len - p < 2 { return LineMore; }
    if data[p] != '\r' || data[p + 1] != '\n' { return LineRefused; }
    return LineRead(size, p + 2);
  }

  method ReadTrailers(data: array<char>, ghost d: string, len: nat, start: nat, body: string) returns (r: Chunked)
    requires start <= |d| == len && Unread(data, d, start)
    ensures r == Trailers(d, start, body)
  {
    hide Find;
    var p := start;
    while true
      invariant start <= p <= len
      invariant Trailers(d, p, body) == Trailers(d, start, body)
      decreases len - p
    {
      if len - p < 2 { return NeedMore; }
      if data[p] == '\r' && data[p + 1] == '\n' { return Whole(body, p + 2); }
      var cr := FindReturn(data, d, len, p);
      if cr == len { return NeedMore; }
      if len - cr < 2 { return Starved; }
      if data[cr + 1] != '\n' { return Refused; }
      p := cr + 2;
    }
  }

  method FindReturn(data: array<char>, ghost d: string, len: nat, start: nat) returns (q: nat)
    requires start <= |d| == len && Unread(data, d, start)
    ensures q == Find(d, start, '\r')
  {
    q := start;
    while q < len && data[q] != '\r'
      invariant start <= q <= len
      invariant Find(d, q, '\r') == Find(d, start, '\r')
    {
      q := q + 1;
    }
  }

  /** The buffer with the first `|body|` bytes from `start` on overwritten. */
  function Overwritten(was: string, start: nat, body: string): (now: string)
    requires start + |body| <= |was|
    ensures |now| == |was|
  {
    was[..start] + body + was[start + |body|..]
  }

  /** The decoding loop. The write position stays behind the unread bytes, so the moves
      never touch a byte that is still to be read. */
  method DecodeChunks(data: array<char>, len: nat, start: nat, maxBody: nat) returns (r: Chunked)
    requires start <= len <= data.Length
    modifies data
    ensures var d := old(data[..len]);
      && r == Chunks(d, start, "", maxBody)
      && data[..] == Overwritten(old(data[..]), start, Moved(d, start, "", maxBody))
  {
    hide SizeLineAt, Trailers, Chunks, Moved, Overwritten;
    ghost var was := data[..];
    ghost var d := was[..len];
    assert d == data[..len];
    var p, write := start, start;
    ghost var body := "";
    NothingMoved(was, start);
    while true
      invariant start <= write <= p <= len && write == start + |body|
      invariant data[..] == Overwritten(was, start, body)
      invariant Chunks(d, p, body, maxBody) == Chunks(d, start, "", maxBody)
      invariant Moved(d, p, body, maxBody) == Moved(d, start, "", maxBody)
      decreases len - p
    {
      UnfoldChunks(d, p, body, maxBody);
      StillUnread(data, was, d, start, body, p);
      var l := ReadSizeLine(data, d, len, p);
      match l {
        case LineMore => return NeedMore;
        case LineRefused => return Refused;
        case LineStarved => return Starved;
        case LineLarge => return TooLarge;
        case LineRead(size, q) =>
          if size == 0 {
            BodyMoved(data, was, start, body);
            r := ReadTrailers(data, d, len, q, data[start..write]);
            return;
          }
          if size > maxBody || (write - start) + size > maxBody { return TooLarge; }
          if len - q < size + 2 { return NeedMore; }
          AppendChunk(data, was, start, body, write, q, size);
          SlicePrefix(was, len, q, q + size);
          body := body + d[q..q + size];
          StillUnread(data, was, d, start, body, q + size);
          write := write + size;
          p := q + size;
          if data[p] != '\r' || data[p + 1] != '\n' { return Refused; }
          p := p + 2;
      }
    }
  }

  /** One round of the decoder. */
  lemma UnfoldChunks(d: string, p: nat, body: string, maxBody: nat)
    requires p <= |d|
    ensures var l := SizeLineAt(d, p);
      var c, m := Chunks(d, p, body, maxBody), Moved(d, p, body, maxBody);
      match l
      case LineMore => c == NeedMore && m == body
      case LineRefused => c == Refused && m == body
      case LineStarved => c == Starved && m == body
      case LineLarge => c == TooLarge && m == body
      case LineRead(size, q) =>
        if size == 0 then c == Trailers(d, q, body) && m == body
        else if size > maxBody || |body| + size > maxBody then c == TooLarge && m == body
        else if |d| - q < size + 2 then c == NeedMore && m == body
        else
          var more := body + d[q..q + size];
          if d[q + size] != '\r' || d[q + size + 1] != '\n' then c == Refused && m == more
          else c == Chunks(d, q + size + 2, more, maxBody) && m == Moved(d, q + size + 2, more, maxBody)
  {
    hide SizeLineAt, Trailers;
  }

  lemma NothingMoved(was: string, start: nat)
    requires start <= |was|
    ensures Overwritten(was, start, "") == was
  {
  }

  lemma BodyMoved(data: array<char>, was: string, start: nat, body: string)
    requires start + |body| <= |was| && data[..] == Overwritten(was, start, body)
    ensures data[start..start + |body|] == body
  {
    assert data[start..start + |body|] == data[..][start..start + |body|];
  }

  lemma StillUnread(data: array<char>, was: string, d: string, start: nat, body: string, p: nat)
    requires start + |body| <= p <= |d| <= |was| && d == was[..|d|]
    requires data[..] == Overwritten(was, start, body)
    ensures Unread(data, d, p)
  {
    forall i | p <= i < |d| ensures data[i] == d[i] {
      assert data[i] == data[..][i];
    }
  }

  lemma Extended(was: string, start: nat, body: string, q: nat, size: nat)
    requires start + |body| <= q && q + size <= |was|
    ensures var now, more := Overwritten(was, start, body), body + was[q..q + size];
      now[..start + |body|] + now[q..q + size] + now[start + |more|..] == Overwritten(was, start, more)
  {
    var now, more := Overwritten(was, start, body), body + was[q..q + size];
    assert now[..start + |body|] == was[..start] + body;
    assert now[q..q + size] == was[q..q + size];
    assert now[start + |more|..] == was[start + |more|..];
  }

  /** memmove to a lower or equal address. */
  method MoveDown(data: array<char>, to: nat, from: nat, size: nat)
    requires to <= from && from + size <= data.Length
    modifies data
    ensures data[..] == old(data[..to] + data[from..from + size] + data[to + size..])
  {
    ghost var was := data[..];
    var i := 0;
    while i < size
      invariant 0 <= i <= size
      invariant forall k | to <= k < to + i :: data[k] == was[k - to + from]
      invariant forall k | 0 <= k < to :: data[k] == was[k]
      invariant forall k | to + i <= k < data.Length :: data[k] == was[k]
    {
      data[to + i] := data[from + i];
      i := i + 1;
    }
    Pieces(data[..], was, to, from, size);
  }

  lemma Pieces(now: string, was: string, to: nat, from: nat, size: nat)
    requires |now| == |was| && to <= from && from + size <= |was|
    requires forall k | to <= k < to + size :: now[k] == was[k - to + from]
    requires forall k | 0 <= k < to :: now[k] == was[k]
    requires forall k | to + size <= k < |was| :: now[k] == was[k]
    ensures now == was[..to] + was[from..from + size] + was[to + size..]
  {
  }

  /** Move one chunk's data behind the bytes already moved. */
  method AppendChunk(data: array<char>, ghost was: string, start: nat, ghost body: string, write: nat, q: nat, size: nat)
    requires write == start + |body| <= q && q + size <= |was|
    requires data[..] == Overwritten(was, start, body)
    modifies data
    ensures data[..] == Overwritten(was, start, body + was[q..q + size])
  {
    MoveDown(data, write, q, size);
    Extended(was, start, body, q, size);
  }

  lemma SlicePrefix(s: string, n: nat, a: nat, b: nat)
    requires a <= b <= n <= |s|
    ensures s[..n][a..b] == s[a..b]
  {
  }

  // ------------------------------------------------------------------ the whole request

  /** Everything before the body, scanner by scanner. */
  method ReadHead(d: string, maxBody: nat) returns (r: Outcome<Head>)
    ensures r == HeadOf(d, maxBody)
  {
    hide Token, Target, Section, Version, LineOf, MethodOf;
    var name := ScanToken(d, 0, ' ');
    match name {
      case More => return More;
      case Bad => return Bad;
      case Large => return Large;
      case Ok(text, p) =>
        var verb := MethodOf(text);
        if verb.None? { return Bad; }
        var target := ScanTarget(d, p + 1);
        match target {
          case More => return More;
          case Bad => return Bad;
          case Large => return Large;
          case Ok(t, q) =>
            var version := Version(d, q + 1);
            match version {
              case More => return More;
              case Bad => return Bad;
              case Large => return Large;
              case Ok(name, s) =>
                var fields := ReadSection(d, s, Fields(name == HTTP11, [], None, false), maxBody);
                match fields {
                  case More => return More;
                  case Bad => return Bad;
                  case Large => return Large;
                  case Ok(f, e) => return Ok(Head(LineOf(verb.value, t), name, f), e);
                }
            }
        }
    }
  }

  /** The parser: its verdict is the one of the bytes it was given, and the buffer is left
      as it was except for the decoded part of a chunked body. */
  method Run(data: array<char>, len: nat, maxBody: nat) returns (v: Verdict)
    requires len <= data.Length
    modifies data
    ensures v == Parse(old(data[..len]), maxBody)
    ensures data[..] == Residue(old(data[..len]), maxBody) + old(data[len..])
  {
    hide HeadOf, Chunks, Moved, Residue, Overwritten;
    ghost var was := data[..];
    var d := data[..len];
    assert was == d + was[len..];
    ResidueIs(was, len, maxBody);
    var head := ReadHead(d, maxBody);
    match head {
      case More => return Incomplete;
      case Bad => return BadRequest(false);
      case Large => return Oversize;
      case Ok(h, p) =>
        if h.fields.chunked && h.fields.length.Some? { return BadRequest(false); }
        if h.fields.chunked {
          var chunks := DecodeChunks(data, len, p, maxBody);
          match chunks {
            case NeedMore => return Incomplete;
            case Refused => return BadRequest(false);
            case Starved => return BadRequest(true);
            case TooLarge => return Oversize;
            case Whole(body, q) => return Done(RequestOf(h, body), q);
          }
        }
        if h.fields.length.Some? {
          var n := h.fields.length.value;
          if n > maxBody { return Oversize; }
          if n > len - p { return Incomplete; }
          return Done(RequestOf(h, d[p..p + n]), p + n);
        }
        return Done(RequestOf(h, ""), p);
    }
  }

  /** The buffer after a parse, in the decoder's terms. */
  lemma ResidueIs(was: string, len: nat, maxBody: nat)
    requires len <= |was|
    ensures
      var d := was[..len];
      var h := HeadOf(d, maxBody);
      Residue(d, maxBody) + was[len..] ==
        if h.Ok? && h.value.fields.chunked && h.value.fields.length.None? then Overwritten(was, h.pos, Moved(d, h.pos, "", maxBody)) else was
  {
    hide HeadOf, Moved, Overwritten;
    var d := was[..len];
    var h := HeadOf(d, maxBody);
    assert was == d + was[len..];
    if h.Ok? && h.value.fields.chunked && h.value.fields.length.None? {
      OverwrittenPrefix(was, len, h.pos, Moved(d, h.pos, "", maxBody));
    }
  }

  lemma OverwrittenPrefix(was: string, len: nat, start: nat, body: string)
    requires start + |body| <= len <= |was|
    ensures Overwritten(was, start, body)
         == was[..len][..start] + body + was[..len][start + |body|..] + was[len..]
  {
    var d := was[..len];
    assert was[start + |body|..] == d[start + |body|..] + was[len..];
  }

  /** Decoding writes fewer bytes than it reads, so the write position is always behind
      the unread bytes. */
  lemma {:induction false} WriteStaysBehind(d: string, p: nat, body: string, maxBody: nat)
    requires p <= |d| && Chunks(d, p, body, maxBody).Whole?
    ensures var c := Chunks(d, p, body, maxBody);
      Moved(d, p, body, maxBody) == c.body && |c.body| - |body| < c.pos - p
    decreases |d| - p
  {
    hide SizeLineAt, Trailers, Chunks, Moved;
    UnfoldChunks(d, p, body, maxBody);
    var l := SizeLineAt(d, p);
    if l.size == 0 {
      TrailersKeepBody(d, l.pos, body);
    } else {
      var t := l.pos + l.size;
      WriteStaysBehind(d, t + 2, body + d[l.pos..t], maxBody);
    }
  }

  lemma {:induction false} TrailersKeepBody(d: string, p: nat, body: string)
    requires p <= |d| && Trailers(d, p, body).Whole?
    ensures Trailers(d, p, body).body == body
    decreases |d| - p
  {
    hide Find;
    if d[p] != '\r' || d[p + 1] != '\n' { TrailersKeepBody(d, Find(d, p, '\r') + 2, body); }
  }

  /** After a complete request, the bytes behind it are untouched, and the buffer holds
      the decoded body of a chunked one right behind its head. */
  lemma DoneLeavesRest(d: string, maxBody: nat)
    requires Parse(d, maxBody).Done?
    ensures var v, now := Parse(d, maxBody), Residue(d, maxBody);
      var h := HeadOf(d, maxBody);
      && now[v.consumed..] == d[v.consumed..]
      && h.Ok? && now[..h.pos] == d[..h.pos]
      && (h.value.fields.chunked ==>
          h.pos + |v.request.body| < v.consumed && now[h.pos..h.pos + |v.request.body|] == v.request.body)
  {
    hide HeadOf, Chunks, Moved;
    var h := HeadOf(d, maxBody);
    if h.value.fields.chunked { WriteStaysBehind(d, h.pos, "", maxBody); }
  }
}
