/** The request-body scanner: quoted strings, raw values and flat objects. */
module JsonScan {
  import opened Basics

  predicate IsSpace(c: char) { c == ' ' || c == '\t' || c == '\n' || c == '\r' }

  predicate IsDelimiter(c: char) { c == ',' || c == '}' || c == ']' || IsSpace(c) }

  function SkipSpace(s: string, i: nat): (k: nat)
    ensures i <= k && (i <= |s| ==> k <= |s|)
    decreases |s| - i
  {
    if i < |s| && IsSpace(s[i]) then SkipSpace(s, i + 1) else i
  }

  // ------------------------------------------------------------------ strings

  function SimpleEscape(e: char): Option<char> {
    if e == '"' || e == '\\' || e == '/' then Some(e)
    else if e == 'n' then Some('\n')
    else if e == 't' then Some('\t')
    else if e == 'r' then Some('\r')
    else if e == 'b' then Some(BACKSPACE)
    else if e == 'f' then Some(FORM_FEED)
    else None
  }

  function CodePoint(a: char, b: char, c: char, d: char): (r: Option<nat>)
    ensures r.Some? ==> r.value < 0x10000
  {
    var w, x, y, z := HexDigit(a), HexDigit(b), HexDigit(c), HexDigit(d);
    if w.None? || x.None? || y.None? || z.None? then None
    else Some(((w.value * 16 + x.value) * 16 + y.value) * 16 + z.value)
  }

  /** UTF-8 for the basic multilingual plane, one character per byte. */
  function Utf8(cp: nat): string
    requires cp < 0x10000
  {
    if cp < 0x80 then [cp as char]
    else if cp < 0x800 then [(0xC0 + cp / 64) as char, (0x80 + cp % 64) as char]
    else [(0xE0 + cp / 4096) as char, (0x80 + cp / 64 % 64) as char, (0x80 + cp % 64) as char]
  }

  /** One character or escape of a string: what it stands for and how long it is. */
  function Unit(s: string, i: nat): (r: Option<(string, nat)>)
    requires i < |s|
    ensures r.Some? ==> 0 < r.value.1 && i + r.value.1 <= |s|
  {
    if s[i] != '\\' then Some(([s[i]], 1))
    else if i + 1 >= |s| then None
    else if s[i + 1] == 'u' then
      if i + 6 > |s| then None else
      var cp := CodePoint(s[i + 2], s[i + 3], s[i + 4], s[i + 5]);
      if cp.None? then None else Some((Utf8(cp.value), 6))
    else
      var e := SimpleEscape(s[i + 1]);
      if e.None? then None else Some(([e.value], 2))
  }

  /** The rest of a string behind its opening quote, and the position past the closing one. */
  function Unquote(s: string, i: nat): (r: Option<(string, nat)>)
    ensures r.Some? ==> i < r.value.1 <= |s|
    decreases |s| - i
  {
    if i >= |s| then None
    else if s[i] == '"' then Some(("", i + 1))
    else
      var u := Unit(s, i);
      if u.None? then None else
      var rest := Unquote(s, i + u.value.1);
      if rest.None? then None else Some((u.value.0 + rest.value.0, rest.value.1))
  }

  function StringAt(s: string, i: nat): (r: Option<(string, nat)>)
    ensures r.Some? ==> i < r.value.1 <= |s|
  {
    if i >= |s| || s[i] != '"' then None else Unquote(s, i + 1)
  }

  /** A decoded remainder, put behind what is already decoded. */
  function Behind(out: string, rest: Option<(string, nat)>): Option<(string, nat)> {
    if rest.None? then None else Some((out + rest.value.0, rest.value.1))
  }

  lemma BehindNothing(rest: Option<(string, nat)>)
    ensures Behind("", rest) == rest
  {
    if rest.Some? {
      assert "" + rest.value.0 == rest.value.0;
    }
  }

  /** One turn of the decoding loop. */
  lemma UnquoteTurn(s: string, i: nat, out: string)
    requires i < |s|
    ensures s[i] == '"' ==> Behind(out, Unquote(s, i)) == Some((out, i + 1))
    ensures s[i] != '"' ==>
      var u := Unit(s, i);
      if u.None? then Unquote(s, i).None?
      else Behind(out, Unquote(s, i)) == Behind(out + u.value.0, Unquote(s, i + u.value.1))
  {
    hide Unit;
    if s[i] == '"' {
      assert out + "" == out;
    } else {
      var u := Unit(s, i);
      if u.Some? {
        var rest := Unquote(s, i + u.value.1);
        assert rest.Some? ==> out + (u.value.0 + rest.value.0) == (out + u.value.0) + rest.value.0;
      }
    }
  }

  /** The decoding loop of the source. */
  method ParseString(s: string, start: nat) returns (r: Option<(string, nat)>)
    ensures r == StringAt(s, start)
  {
    hide Unit, Unquote, Behind;
    if start >= |s| || s[start] != '"' { return None; }
    var i := start + 1;
    var out := "";
    BehindNothing(Unquote(s, start + 1));
    while i < |s|
      invariant start < i <= |s|
      invariant Behind(out, Unquote(s, i)) == Unquote(s, start + 1)
    {
      UnquoteTurn(s, i, out);
      if s[i] == '"' { return Some((out, i + 1)); }
      var u := Unit(s, i);
      if u.None? {
        NothingBehind(out);
        return None;
      }
      out := out + u.value.0;
      i := i + u.value.1;
    }
    UnquoteEnd(s, i);
    NothingBehind(out);
    return None;
  }

  lemma NothingBehind(out: string)
    ensures Behind(out, None) == None
  {
  }

  lemma UnquoteEnd(s: string, i: nat)
    requires i >= |s|
    ensures Unquote(s, i) == None
  {
  }

  // ------------------------------------------------------------------ raw values

  /** The closing quote of a string, or a position at or past the end. */
  function ClosingQuote(s: string, i: nat): (k: nat)
    ensures i <= k && (k < |s| ==> s[k] == '"')
    decreases |s| - i
  {
    if i >= |s| || s[i] == '"' then i
    else ClosingQuote(s, if s[i] == '\\' then i + 2 else i + 1)
  }

  /** The end of a bracketed value, counting only its own kind of bracket. */
  function Balanced(s: string, i: nat, depth: int, open: char, close: char): (r: Option<nat>)
    ensures r.Some? ==> i < r.value <= |s|
    decreases |s| - i
  {
    if i >= |s| then None
    else if s[i] == '"' then
      var q := ClosingQuote(s, i + 1);
      Balanced(s, if q < |s| then q + 1 else q, depth, open, close)
    else if s[i] == open then Balanced(s, i + 1, depth + 1, open, close)
    else if s[i] == close then
      if depth - 1 == 0 then Some(i + 1) else Balanced(s, i + 1, depth - 1, open, close)
    else Balanced(s, i + 1, depth, open, close)
  }

  function ScalarEnd(s: string, i: nat): (k: nat)
    ensures i <= k && (i <= |s| ==> k <= |s|)
    decreases |s| - i
  {
    if i < |s| && !IsDelimiter(s[i]) then ScalarEnd(s, i + 1) else i
  }

  /** The end of the value that starts at i; i is past any blanks. */
  function RawEnd(s: string, i: nat): (r: Option<nat>)
    ensures r.Some? ==> i < r.value <= |s|
  {
    if i >= |s| then None
    else if s[i] == '"' then
      var q := ClosingQuote(s, i + 1);
      if q < |s| then Some(q + 1) else None
    else if s[i] == '{' then Balanced(s, i, 0, '{', '}')
    else if s[i] == '[' then Balanced(s, i, 0, '[', ']')
    else
      var k := ScalarEnd(s, i);
      if k == i then None else Some(k)
  }

  /** The bracket-counting loop of the source. */
  method ScanBalanced(s: string, start: nat, open: char, close: char) returns (r: Option<nat>)
    ensures r == Balanced(s, start, 0, open, close)
  {
    var i, depth := start, 0;
    while i < |s|
      invariant start <= i
      invariant Balanced(s, i, depth, open, close) == Balanced(s, start, 0, open, close)
    {
      var d := s[i];
      i := i + 1;
      if d == '"' {
        ghost var from := i;
        while i < |s| && s[i] != '"'
          invariant from <= i && ClosingQuote(s, i) == ClosingQuote(s, from)
        {
          if s[i] == '\\' { i := i + 2; } else { i := i + 1; }
        }
        if i < |s| { i := i + 1; }
      } else if d == open {
        depth := depth + 1;
      } else if d == close {
        depth := depth - 1;
        if depth == 0 { return Some(i); }
      }
    }
    return None;
  }

  // ------------------------------------------------------------------ flat objects

  /** Fields by key, and the keys whose value was null. */
  datatype Body = Body(fields: map<string, string>, nulls: set<string>)

  function Keep(b: Body, key: string, text: string): Body {
    if key in b.fields then b else b.(fields := b.fields[key := text])
  }

  /** One member from its key on: the body with it, and the position past its value. */
  function MemberAt(s: string, i: nat, b: Body): (r: Option<(Body, nat)>)
    ensures r.Some? ==> i < r.value.1 <= |s|
  {
    var key := StringAt(s, SkipSpace(s, i));
    if key.None? then None else
    var c := SkipSpace(s, key.value.1);
    if c >= |s| || s[c] != ':' then None else
    var v := SkipSpace(s, c + 1);
    if v >= |s| then None
    else if s[v] == '"' then
      var text := StringAt(s, v);
      if text.None? then None else Some((Keep(b, key.value.0, text.value.0), text.value.1))
    else
      var e := RawEnd(s, v);
      if e.None? then None
      else if s[v..e.value] == "null" then Some((b.(nulls := b.nulls + {key.value.0}), e.value))
      else Some((Keep(b, key.value.0, s[v..e.value]), e.value))
  }

  function Members(s: string, i: nat, b: Body): Option<Body>
    decreases |s| - i
  {
    if i >= |s| then None else
    var m := MemberAt(s, i, b);
    if m.None? then None else
    var k := SkipSpace(s, m.value.1);
    if k >= |s| then None
    else if s[k] == ',' then Members(s, k + 1, m.value.0)
    else if s[k] == '}' then Some(m.value.0)
    else None
  }

  const EMPTY: Body := Body(map[], {})

  function ParseBody(s: string): Option<Body> {
    var i := SkipSpace(s, 0);
    if i >= |s| || s[i] != '{' then None else
    var k := SkipSpace(s, i + 1);
    if k < |s| && s[k] == '}' then Some(EMPTY) else Members(s, k, EMPTY)
  }

  /** The member loop of the source. */
  method Parse(s: string) returns (r: Option<Body>)
    ensures r == ParseBody(s)
  {
    hide MemberAt;
    var i := SkipSpace(s, 0);
    if i >= |s| || s[i] != '{' { return None; }
    i := SkipSpace(s, i + 1);
    if i < |s| && s[i] == '}' { return Some(EMPTY); }
    ghost var start := i;
    var out := EMPTY;
    while i < |s|
      invariant Members(s, i, out) == Members(s, start, EMPTY)
    {
      var m := MemberAt(s, i, out);
      if m.None? { return None; }
      out := m.value.0;
      i := SkipSpace(s, m.value.1);
      if i < |s| && s[i] == ',' { i := i + 1; continue; }
      if i < |s| && s[i] == '}' { return Some(out); }
      return None;
    }
    return None;
  }
}
