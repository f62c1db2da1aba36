/** Quoted strings as JSON spells them, and that the scanner reads exactly those. */
module JsonStrings {
  import opened Basics
  import opened JsonScan
  import opened TextAt

  /** A character as it is, a two-character escape, or four hexadecimal digits. */
  datatype Glyph = Plain(c: char) | Short(e: char) | Code(a: char, b: char, c: char, d: char)

  /** The escapes of section 7 of RFC 8259, and what they stand for. */
  const SHORT: map<char, char> := map[
    '"' := '"', '\\' := '\\', '/' := '/',
    'b' := '\U{08}', 'f' := '\U{0C}', 'n' := '\n', 'r' := '\r', 't' := '\t']

  predicate GlyphOk(g: Glyph) {
    match g
    case Plain(c) => c != '"' && c != '\\'
    case Short(e) => e in SHORT
    case Code(a, b, c, d) => HexDigit(a).Some? && HexDigit(b).Some? && HexDigit(c).Some? && HexDigit(d).Some?
  }

  function GlyphText(g: Glyph): (t: string)
    ensures t != ""
  {
    match g
    case Plain(c) => [c]
    case Short(e) => ['\\', e]
    case Code(a, b, c, d) => ['\\', 'u', a, b, c, d]
  }

  /** The number that four hexadecimal digits spell. */
  function CodeOf(g: Glyph): (n: nat)
    requires g.Code? && GlyphOk(g)
    ensures n < 0x10000
  {
    4096 * HexDigit(g.a).value + 256 * HexDigit(g.b).value + 16 * HexDigit(g.c).value + HexDigit(g.d).value
  }

  function Denotes(g: Glyph): string
    requires GlyphOk(g)
  {
    match g
    case Plain(c) => [c]
    case Short(e) => [SHORT[e]]
    case Code(_, _, _, _) => Utf8(CodeOf(g))
  }

  predicate GlyphsOk(gs: seq<Glyph>) { forall i | 0 <= i < |gs| :: GlyphOk(gs[i]) }

  function Spelled(gs: seq<Glyph>): string {
    if gs == [] then "" else GlyphText(gs[0]) + Spelled(gs[1..])
  }

  function Meaning(gs: seq<Glyph>): string
    requires GlyphsOk(gs)
  {
    if gs == [] then "" else Denotes(gs[0]) + Meaning(gs[1..])
  }

  function QuoteText(gs: seq<Glyph>): string {
    "\"" + (Spelled(gs) + "\"")
  }

  /** The bytes decode, by the table of section 3 of RFC 3629, to the number. */
  ghost predicate Encodes(t: string, n: nat) {
    match |t|
    case 1 => n < 0x80 && t[0] as int == n
    case 2 =>
      && 0x80 <= n < 0x800 && 0xC0 <= t[0] as int < 0xE0 && 0x80 <= t[1] as int < 0xC0
      && n == 64 * (t[0] as int - 0xC0) + (t[1] as int - 0x80)
    case 3 =>
      && 0x800 <= n < 0x10000 && 0xE0 <= t[0] as int < 0xF0 && 0x80 <= t[1] as int < 0xC0 && 0x80 <= t[2] as int < 0xC0
      && n == 4096 * (t[0] as int - 0xE0) + 64 * (t[1] as int - 0x80) + (t[2] as int - 0x80)
    case _ => false
  }

  lemma Utf8Encodes(n: nat)
    requires n < 0x10000
    ensures Encodes(Utf8(n), n)
  {
    if n >= 0x800 {
      assert n == 64 * (n / 64) + n % 64 && n / 64 == 64 * (n / 4096) + n / 64 % 64;
    }
  }

  // ------------------------------------------------------------------ one glyph

  lemma ShortIs(e: char)
    ensures SimpleEscape(e) == if e in SHORT then Some(SHORT[e]) else None
  {
  }

  lemma CodeIs(a: char, b: char, c: char, d: char)
    ensures CodePoint(a, b, c, d).Some? <==> GlyphOk(Code(a, b, c, d))
    ensures GlyphOk(Code(a, b, c, d)) ==> CodePoint(a, b, c, d) == Some(CodeOf(Code(a, b, c, d)))
  {
    hide HexDigit;
  }

  /** A unit of the scanner is a glyph that stands there. */
  lemma GlyphReads(g: Glyph, d: string, p: nat)
    requires GlyphOk(g) && At(d, p, GlyphText(g))
    ensures p < |d| && d[p] != '"' && Unit(d, p) == Some((Denotes(g), |GlyphText(g)|))
  {
    hide At, HexDigit, Utf8, CodePoint, SimpleEscape;
    var t := GlyphText(g);
    AtIndex(d, p, t, 0);
    if !g.Plain? { AtIndex(d, p, t, 1); }
    if g.Short? { ShortIs(g.e); }
    if g.Code? {
      AtIndex(d, p, t, 2);
      AtIndex(d, p, t, 3);
      AtIndex(d, p, t, 4);
      AtIndex(d, p, t, 5);
      CodeIs(g.a, g.b, g.c, g.d);
    }
  }

  lemma UnitIsGlyph(d: string, p: nat) returns (g: Glyph)
    requires p < |d| && d[p] != '"' && Unit(d, p).Some?
    ensures GlyphOk(g) && At(d, p, GlyphText(g)) && Unit(d, p) == Some((Denotes(g), |GlyphText(g)|))
  {
    hide HexDigit, Utf8, CodePoint, SimpleEscape;
    if d[p] != '\\' {
      g := Plain(d[p]);
      assert d[p..p + 1] == [d[p]];
    } else if d[p + 1] == 'u' {
      g := Code(d[p + 2], d[p + 3], d[p + 4], d[p + 5]);
      CodeIs(g.a, g.b, g.c, g.d);
      assert d[p..p + 6] == ['\\', 'u', d[p + 2], d[p + 3], d[p + 4], d[p + 5]];
    } else {
      g := Short(d[p + 1]);
      ShortIs(g.e);
      assert d[p..p + 2] == ['\\', d[p + 1]];
    }
  }

  // ------------------------------------------------------------------ whole strings

  lemma {:induction false} UnquoteReads(gs: seq<Glyph>, d: string, p: nat)
    requires GlyphsOk(gs) && At(d, p, Spelled(gs) + "\"")
    ensures Unquote(d, p) == Some((Meaning(gs), p + |Spelled(gs)| + 1))
    decreases |gs|
  {
    hide GlyphText, Denotes, GlyphOk, Unit, At;
    if gs == [] {
      assert Spelled(gs) + "\"" == ['"'] + "";
      AtChar(d, p, '"', "");
    } else {
      var t, rest := GlyphText(gs[0]), Spelled(gs[1..]) + "\"";
      assert Spelled(gs) + "\"" == t + rest;
      AtSplit(d, p, t, rest);
      GlyphReads(gs[0], d, p);
      UnquoteReads(gs[1..], d, p + |t|);
    }
  }

  lemma {:induction false} UnquoteSound(d: string, p: nat) returns (gs: seq<Glyph>)
    requires Unquote(d, p).Some?
    ensures GlyphsOk(gs) && At(d, p, Spelled(gs) + "\"")
    ensures Unquote(d, p) == Some((Meaning(gs), p + |Spelled(gs)| + 1))
    decreases |d| - p
  {
    hide GlyphText, Denotes, GlyphOk, Unit, At;
    if d[p] == '"' {
      gs := [];
      QuoteAt(d, p);
      assert Spelled(gs) + "\"" == "\"";
    } else {
      var g := UnitIsGlyph(d, p);
      var more := UnquoteSound(d, p + |GlyphText(g)|);
      gs := [g] + more;
      assert gs[1..] == more;
      AtJoin(d, p, GlyphText(g), Spelled(more) + "\"");
      assert GlyphText(g) + (Spelled(more) + "\"") == Spelled(gs) + "\"";
    }
  }

  lemma QuoteAt(d: string, p: nat)
    requires p < |d| && d[p] == '"'
    ensures At(d, p, "\"")
  {
    assert d[p..p + 1] == [d[p]];
  }

  /** A string that is spelled there is read as what it denotes. */
  lemma StringReads(gs: seq<Glyph>, d: string, p: nat)
    requires GlyphsOk(gs) && At(d, p, QuoteText(gs))
    ensures p < |d| && d[p] == '"' && StringAt(d, p) == Some((Meaning(gs), p + |QuoteText(gs)|))
  {
    hide At, Unquote, Spelled, GlyphsOk;
    AtChar(d, p, '"', Spelled(gs) + "\"");
    UnquoteReads(gs, d, p + 1);
  }

  /** Nothing else is read as a string. */
  lemma StringSound(d: string, p: nat) returns (gs: seq<Glyph>)
    requires StringAt(d, p).Some?
    ensures p < |d| && d[p] == '"' && GlyphsOk(gs) && At(d, p, QuoteText(gs))
    ensures StringAt(d, p) == Some((Meaning(gs), p + |QuoteText(gs)|))
  {
    hide At, Unquote, Spelled, GlyphsOk;
    gs := UnquoteSound(d, p + 1);
    QuoteAt(d, p);
    AtJoin(d, p, "\"", Spelled(gs) + "\"");
  }

  /** The scanner reads a string exactly when one is spelled there. */
  lemma StringIff(d: string, p: nat, s: string, q: nat)
    ensures StringAt(d, p) == Some((s, q)) <==>
      exists gs: seq<Glyph> :: StringStands(d, p, s, q, gs)
  {
    hide StringAt, QuoteText, Meaning, At, GlyphsOk;
    if StringAt(d, p) == Some((s, q)) {
      var gs := StringSound(d, p);
      assert StringStands(d, p, s, q, gs);
    }
    forall gs: seq<Glyph> | StringStands(d, p, s, q, gs) ensures StringAt(d, p) == Some((s, q)) {
      StringReads(gs, d, p);
    }
  }

  ghost predicate StringStands(d: string, p: nat, s: string, q: nat, gs: seq<Glyph>) {
    GlyphsOk(gs) && At(d, p, QuoteText(gs)) && s == Meaning(gs) && q == p + |QuoteText(gs)|
  }

  // ------------------------------------------------------------------ skipping strings

  lemma SkipPlain(d: string, p: nat, n: nat)
    requires p + n <= |d| && forall k | p <= k < p + n :: d[k] != '"' && d[k] != '\\'
    ensures ClosingQuote(d, p) == ClosingQuote(d, p + n)
    decreases n
  {
    if n > 0 { SkipPlain(d, p + 1, n - 1); }
  }

  lemma HexNotQuote(c: char)
    ensures HexDigit(c).Some? ==> c != '"' && c != '\\'
  {
  }

  lemma GlyphSkipped(g: Glyph, d: string, p: nat)
    requires GlyphOk(g) && At(d, p, GlyphText(g))
    ensures ClosingQuote(d, p) == ClosingQuote(d, p + |GlyphText(g)|)
  {
    hide At, HexDigit;
    var t := GlyphText(g);
    AtIndex(d, p, t, 0);
    if g.Code? {
      AtIndex(d, p, t, 2);
      AtIndex(d, p, t, 3);
      AtIndex(d, p, t, 4);
      AtIndex(d, p, t, 5);
      HexNotQuote(g.a);
      HexNotQuote(g.b);
      HexNotQuote(g.c);
      HexNotQuote(g.d);
      SkipPlain(d, p + 2, 4);
    }
  }

  /** Skipping a string without decoding it ends at its own closing quote. */
  lemma {:induction false} QuoteCloses(gs: seq<Glyph>, d: string, p: nat)
    requires GlyphsOk(gs) && At(d, p, Spelled(gs) + "\"")
    ensures p + |Spelled(gs)| < |d| && ClosingQuote(d, p) == p + |Spelled(gs)|
    decreases |gs|
  {
    hide GlyphText, GlyphOk, At;
    if gs == [] {
      assert Spelled(gs) + "\"" == ['"'] + "";
      AtChar(d, p, '"', "");
    } else {
      var t, rest := GlyphText(gs[0]), Spelled(gs[1..]) + "\"";
      assert Spelled(gs) + "\"" == t + rest;
      AtSplit(d, p, t, rest);
      GlyphSkipped(gs[0], d, p);
      QuoteCloses(gs[1..], d, p + |t|);
    }
  }
}
