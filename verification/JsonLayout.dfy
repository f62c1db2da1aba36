/** JSON text in full: nested values with any blanks between the tokens and any spelling of the
    strings. What the server prints is the case without blanks. */
module JsonLayout {
  import opened Basics
  import opened JsonScan
  import opened JsonStrings
  import opened JsonFlat

  /** A value as it is laid out. `inner` is what stands inside empty brackets. */
  datatype Layout =
    | Atom(text: string)
    | Spelling(glyphs: seq<Glyph>)
    | List(items: seq<Item>, inner: string)
    | Dict(parts: seq<Part>, inner: string)

  datatype Item = Item(before: string, value: Layout, behind: string)

  datatype Part = Part(before: string, key: seq<Glyph>, mid: string, gap: string, value: Layout, behind: string)

  /** Numbers and the three literals: no blank, quote, bracket or comma. */
  ghost predicate AtomOk(t: string) {
    t != "" && forall c | c in t :: !Delimiter(c) && c != '"' && c != '{' && c != '['
  }

  ghost predicate Valid(l: Layout) {
    match l
    case Atom(t) => AtomOk(t)
    case Spelling(gs) => GlyphsOk(gs)
    case List(items, inner) =>
      Blank(inner) && forall i | 0 <= i < |items| :: Blank(items[i].before) && Valid(items[i].value) && Blank(items[i].behind)
    case Dict(parts, inner) => Blank(inner) && forall i | 0 <= i < |parts| ::
      && Blank(parts[i].before) && GlyphsOk(parts[i].key) && Blank(parts[i].mid) && Blank(parts[i].gap)
      && Valid(parts[i].value) && Blank(parts[i].behind)
  }

  function Text(l: Layout): string
    decreases l, 0
  {
    match l
    case Atom(t) => t
    case Spelling(gs) => QuoteText(gs)
    case List(items, inner) => "[" + (if items == [] then inner + "]" else ItemsText(items))
    case Dict(parts, inner) => ObjectText(FlatAll(parts), inner)
  }

  /** One or more items up to and including the closing bracket. */
  function ItemsText(items: seq<Item>): string
    requires items != []
    decreases items, 1
  {
    var x := items[0];
    x.before + (Text(x.value) + (x.behind + (if |items| == 1 then "]" else "," + ItemsText(items[1..]))))
  }

  /** A nested value as the scanner sees it. */
  function Flat(l: Layout): Value
    decreases l, 1
  {
    if l.Spelling? then Quote(l.glyphs) else Raw(Text(l))
  }

  function FlatAll(parts: seq<Part>): (xs: seq<Entry>)
    ensures |xs| == |parts|
    ensures forall i | 0 <= i < |parts| ::
      xs[i] == Entry(parts[i].before, parts[i].key, parts[i].mid, parts[i].gap, Flat(parts[i].value), parts[i].behind)
    decreases parts, 1
  {
    if parts == [] then [] else
    var x := parts[0];
    [Entry(x.before, x.key, x.mid, x.gap, Flat(x.value), x.behind)] + FlatAll(parts[1..])
  }

  lemma FlatText(l: Layout)
    ensures ValueText(Flat(l)) == Text(l)
  {
  }

  /** What a value is recorded as: a string by what it denotes, anything else as it stands. */
  ghost function Denoted(l: Layout): string
    requires Valid(l)
  {
    if l.Spelling? then Meaning(l.glyphs) else Text(l)
  }

  // ------------------------------------------------------------------ level texts

  /** Pieces that open and close as many brackets of a kind, and close none they did not open. */
  ghost predicate Level(ps: seq<Piece>, open: char, close: char) {
    && Count(ps, open) == Count(ps, close)
    && forall k | 0 <= k <= |ps| :: Count(ps[..k], open) >= Count(ps[..k], close)
  }

  ghost predicate SoberAs(t: string, ps: seq<Piece>) {
    PiecesOk(ps) && PiecesText(ps) == t && Level(ps, '{', '}') && Level(ps, '[', ']')
  }

  /** Text that a bracket count passes over. */
  ghost predicate Sober(t: string) {
    exists ps: seq<Piece> :: SoberAs(t, ps)
  }

  lemma {:induction false} CountBoth(a: seq<Piece>, b: seq<Piece>, c: char)
    ensures Count(a + b, c) == Count(a, c) + Count(b, c)
    decreases |a|
  {
    if a == [] {
      assert a + b == b;
    } else {
      assert (a + b)[1..] == a[1..] + b;
      CountBoth(a[1..], b, c);
    }
  }

  lemma {:induction false} TextBoth(a: seq<Piece>, b: seq<Piece>)
    ensures PiecesText(a + b) == PiecesText(a) + PiecesText(b)
    decreases |a|
  {
    if a == [] {
      assert a + b == b;
    } else {
      assert (a + b)[1..] == a[1..] + b;
      TextBoth(a[1..], b);
    }
  }

  lemma LevelBoth(a: seq<Piece>, b: seq<Piece>, open: char, close: char)
    requires Level(a, open, close) && Level(b, open, close)
    ensures Level(a + b, open, close)
  {
    hide Count;
    CountBoth(a, b, open);
    CountBoth(a, b, close);
    forall k | 0 <= k <= |a + b| ensures Count((a + b)[..k], open) >= Count((a + b)[..k], close) {
      if k <= |a| {
        assert (a + b)[..k] == a[..k];
      } else {
        assert (a + b)[..k] == a + b[..k - |a|];
        CountBoth(a, b[..k - |a|], open);
        CountBoth(a, b[..k - |a|], close);
      }
    }
  }

  lemma SoberBoth(a: string, b: string)
    requires Sober(a) && Sober(b)
    ensures Sober(a + b)
  {
    hide Level, PiecesText;
    var ps :| SoberAs(a, ps);
    var qs :| SoberAs(b, qs);
    TextBoth(ps, qs);
    LevelBoth(ps, qs, '{', '}');
    LevelBoth(ps, qs, '[', ']');
    assert SoberAs(a + b, ps + qs);
  }

  lemma LevelNone(open: char, close: char)
    ensures Level([], open, close)
  {
  }

  lemma LevelOne(x: Piece, open: char, close: char)
    requires x != Mark(open) && x != Mark(close)
    ensures Level([x], open, close)
  {
    forall k | 0 <= k <= 1 ensures Count([x][..k], open) >= Count([x][..k], close) {
      if k == 1 { assert [x][..k] == [x]; }
    }
  }

  /** Characters that are neither quotes nor brackets. */
  lemma {:induction false} SoberChars(t: string)
    requires forall c | c in t :: c != '"' && c != '{' && c != '}' && c != '[' && c != ']'
    ensures Sober(t)
    decreases |t|
  {
    hide Level;
    if t == "" {
      LevelNone('{', '}');
      LevelNone('[', ']');
      assert SoberAs("", []);
    } else {
      assert t[0] in t && forall c | c in t[1..] :: c in t;
      SoberChars(t[1..]);
      LevelOne(Mark(t[0]), '{', '}');
      LevelOne(Mark(t[0]), '[', ']');
      assert PiecesText([Mark(t[0])]) == [t[0]] by { assert [Mark(t[0])][1..] == []; }
      assert SoberAs([t[0]], [Mark(t[0])]);
      SoberBoth([t[0]], t[1..]);
      assert [t[0]] + t[1..] == t;
    }
  }

  lemma {:induction false} SpelledBody(gs: seq<Glyph>)
    requires GlyphsOk(gs)
    ensures BodyOk(Spelled(gs))
    decreases |gs|
  {
    hide HexDigit;
    if gs != [] {
      SpelledBody(gs[1..]);
      GlyphBody(gs[0], Spelled(gs[1..]));
    }
  }

  lemma GlyphBody(g: Glyph, rest: string)
    requires GlyphOk(g) && BodyOk(rest)
    ensures BodyOk(GlyphText(g) + rest)
  {
    hide HexDigit;
    var t := GlyphText(g) + rest;
    match g
    case Plain(c) => assert t[1..] == rest;
    case Short(e) => assert t[2..] == rest;
    case Code(a, b, c, d) =>
      HexNotQuote(a);
      HexNotQuote(b);
      HexNotQuote(c);
      HexNotQuote(d);
      assert t[2..] == [a, b, c, d] + rest && t[2..][1..] == [b, c, d] + rest && t[2..][1..][1..] == [c, d] + rest;
      assert ([c, d] + rest)[1..] == [d] + rest && ([d] + rest)[1..] == rest;
      assert BodyOk([d] + rest);
      assert BodyOk([c, d] + rest);
      assert BodyOk([b, c, d] + rest) by { assert ([b, c, d] + rest)[1..] == [c, d] + rest; }
      assert BodyOk([a, b, c, d] + rest) by { assert ([a, b, c, d] + rest)[1..] == [b, c, d] + rest; }
  }

  lemma SoberString(gs: seq<Glyph>)
    requires GlyphsOk(gs)
    ensures Sober(QuoteText(gs))
  {
    hide Level, Spelled, GlyphsOk, BodyOk;
    var x := Literal(Spelled(gs));
    SpelledBody(gs);
    LevelOne(x, '{', '}');
    LevelOne(x, '[', ']');
    assert PiecesText([x]) == QuoteText(gs) by { assert [x][1..] == []; }
    assert SoberAs(QuoteText(gs), [x]);
  }

  /** Sober text between brackets is sober, and a group. */
  lemma Wrapped(t: string, open: char, close: char)
    requires Sober(t) && Brackets(open, close)
    ensures Sober([open] + (t + [close])) && Group([open] + (t + [close]), open, close)
  {
    hide Level, PiecesText, Closes, Count;
    var ps :| SoberAs(t, ps);
    var tail := ps + [Mark(close)];
    TextBoth(ps, [Mark(close)]);
    OneText(Mark(close));
    ClosesLevel(ps, open, close);
    assert GroupAs([open] + (t + [close]), open, close, tail);
    var all := [Mark(open)] + tail;
    TextBoth([Mark(open)], tail);
    OneText(Mark(open));
    WrapLevel(ps, open, close, '{', '}');
    WrapLevel(ps, open, close, '[', ']');
    assert SoberAs([open] + (t + [close]), all);
  }

  lemma OneText(x: Piece)
    ensures PiecesText([x]) == PieceText(x)
  {
    assert [x][1..] == [];
  }

  lemma ClosesLevel(ps: seq<Piece>, open: char, close: char)
    requires Level(ps, open, close) && open != close
    ensures Closes(ps + [Mark(close)], 1, open, close)
  {
    hide Count;
    var all := ps + [Mark(close)];
    CountBoth(ps, [Mark(close)], open);
    CountBoth(ps, [Mark(close)], close);
    CountOne(Mark(close), open);
    CountOne(Mark(close), close);
    forall k | 0 <= k < |all| ensures 1 + Count(all[..k], open) > Count(all[..k], close) {
      assert all[..k] == ps[..k];
    }
  }

  lemma CountOne(x: Piece, c: char)
    ensures Count([x], c) == if x == Mark(c) then 1 else 0
  {
    assert [x][1..] == [];
  }

  lemma WrapLevel(ps: seq<Piece>, open: char, close: char, o: char, c: char)
    requires Level(ps, o, c) && Brackets(open, close) && Brackets(o, c)
    ensures Level([Mark(open)] + (ps + [Mark(close)]), o, c)
  {
    hide Count;
    var all := [Mark(open)] + (ps + [Mark(close)]);
    Wrap(ps, open, close, o);
    Wrap(ps, open, close, c);
    forall k | 0 <= k <= |all| ensures Count(all[..k], o) >= Count(all[..k], c) {
      if k == 0 {
        assert all[..k] == [];
        CountNone(o);
        CountNone(c);
      } else if k <= |ps| + 1 {
        assert all[..k] == [Mark(open)] + ps[..k - 1];
        CountBoth([Mark(open)], ps[..k - 1], o);
        CountBoth([Mark(open)], ps[..k - 1], c);
        CountOne(Mark(open), o);
        CountOne(Mark(open), c);
      } else {
        assert all[..k] == all;
      }
    }
  }

  lemma CountNone(c: char)
    ensures Count([], c) == 0
  {
  }

  lemma Wrap(ps: seq<Piece>, open: char, close: char, c: char)
    ensures Count([Mark(open)] + (ps + [Mark(close)]), c)
      == (if open == c then 1 else 0) + Count(ps, c) + (if close == c then 1 else 0)
  {
    hide Count;
    CountBoth([Mark(open)], ps + [Mark(close)], c);
    CountBoth(ps, [Mark(close)], c);
    CountOne(Mark(open), c);
    CountOne(Mark(close), c);
  }

  // ------------------------------------------------------------------ nested values

  lemma SoberBlank(t: string)
    requires Blank(t)
    ensures Sober(t)
  {
    SoberChars(t);
  }

  lemma SoberThree(a: string, b: string, c: string)
    requires Sober(a) && Sober(b) && Sober(c)
    ensures Sober(a + (b + c))
  {
    hide Sober;
    SoberBoth(b, c);
    SoberBoth(a, b + c);
  }

  /** Every valid value is sober, and a bracketed one is a group. */
  lemma {:induction false} ValueSober(l: Layout)
    requires Valid(l)
    ensures Sober(Text(l))
    ensures l.List? ==> Group(Text(l), '[', ']')
    ensures l.Dict? ==> Group(Text(l), '{', '}')
    decreases l, 0
  {
    hide Sober, Group;
    match l
    case Atom(t) => SoberChars(t);
    case Spelling(gs) => SoberString(gs);
    case List(items, inner) =>
      var body := inner;
      if items == [] { SoberBlank(inner); } else { body := ItemsSober(items); }
      Wrapped(body, '[', ']');
    case Dict(parts, inner) =>
      var body := inner;
      if parts == [] { SoberBlank(inner); } else { body := PartsSober(parts); }
      Wrapped(body, '{', '}');
  }

  lemma {:induction false} ItemsSober(items: seq<Item>) returns (body: string)
    requires items != [] && forall i | 0 <= i < |items| :: Blank(items[i].before) && Valid(items[i].value) && Blank(items[i].behind)
    ensures ItemsText(items) == body + "]" && Sober(body)
    decreases items, 1
  {
    hide Sober, Valid, Text;
    var x := items[0];
    SoberBlank(x.before);
    ValueSober(x.value);
    SoberBlank(x.behind);
    SoberThree(x.before, Text(x.value), x.behind);
    var first := x.before + (Text(x.value) + x.behind);
    if |items| == 1 {
      body := first;
      Regroup(x.before, Text(x.value), x.behind, "]");
    } else {
      var more := ItemsSober(items[1..]);
      SoberChars(",");
      SoberThree(first, ",", more);
      body := first + ("," + more);
      Regroup(x.before, Text(x.value), x.behind, "," + (more + "]"));
      assert "," + (more + "]") == ("," + more) + "]";
      assert first + (("," + more) + "]") == body + "]";
    }
  }

  lemma Regroup(a: string, b: string, c: string, d: string)
    ensures a + (b + (c + d)) == (a + (b + c)) + d
  {
  }

  lemma {:induction false} PartsSober(parts: seq<Part>) returns (body: string)
    requires parts != [] && forall i | 0 <= i < |parts| ::
      && Blank(parts[i].before) && GlyphsOk(parts[i].key) && Blank(parts[i].mid) && Blank(parts[i].gap)
      && Valid(parts[i].value) && Blank(parts[i].behind)
    ensures EntriesText(FlatAll(parts)) == body + "}" && Sober(body)
    decreases parts, 1
  {
    hide Sober, Valid, Text, EntryText, EntryBody, GlyphsOk, Blank, Flat;
    var x := parts[0];
    var y := FlatAll(parts)[0];
    assert FlatAll(parts)[1..] == FlatAll(parts[1..]);
    ValueSober(x.value);
    FlatText(x.value);
    SoberEntry(y);
    if |parts| == 1 {
      body := EntryBody(y);
      EntryTail(y, "}");
    } else {
      var more := PartsSober(parts[1..]);
      SoberChars(",");
      SoberThree(EntryBody(y), ",", more);
      body := EntryBody(y) + ("," + more);
      EntryTail(y, "," + (more + "}"));
      assert "," + (more + "}") == ("," + more) + "}";
      assert EntryBody(y) + (("," + more) + "}") == body + "}";
    }
  }

  function EntryBody(x: Entry): string {
    (x.before + (QuoteText(x.key) + x.mid)) + (":" + (x.gap + (ValueText(x.value) + x.behind)))
  }

  lemma EntryTail(x: Entry, rest: string)
    ensures EntryText(x, rest) == EntryBody(x) + rest
  {
    hide QuoteText, ValueText;
    var k, v := QuoteText(x.key), ValueText(x.value);
    Regroup(x.gap, v, x.behind, rest);
    var tail := x.gap + (v + x.behind);
    assert ":" + (tail + rest) == (":" + tail) + rest;
    Regroup(x.before, k, x.mid, (":" + tail) + rest);
    assert (x.before + (k + x.mid)) + ((":" + tail) + rest) == ((x.before + (k + x.mid)) + (":" + tail)) + rest;
  }

  lemma SoberEntry(x: Entry)
    requires Blank(x.before) && GlyphsOk(x.key) && Blank(x.mid) && Blank(x.gap) && Blank(x.behind) && Sober(ValueText(x.value))
    ensures Sober(EntryBody(x))
  {
    hide Sober, QuoteText, ValueText, GlyphsOk, Blank;
    SoberBlank(x.before);
    SoberString(x.key);
    SoberBlank(x.mid);
    SoberThree(x.before, QuoteText(x.key), x.mid);
    SoberBlank(x.gap);
    SoberBlank(x.behind);
    SoberThree(x.gap, ValueText(x.value), x.behind);
    SoberChars(":");
    SoberThree(x.before + (QuoteText(x.key) + x.mid), ":", x.gap + (ValueText(x.value) + x.behind));
  }

  /** Every value of JSON is one the scanner takes whole. */
  lemma FlatOk(l: Layout)
    requires Valid(l)
    ensures ValueOk(Flat(l))
  {
    hide Sober, Group;
    ValueSober(l);
    if l.Atom? { assert l.text[0] in l.text; }
  }

  lemma FlatAllOk(parts: seq<Part>, inner: string)
    requires Valid(Dict(parts, inner))
    ensures EntriesOk(FlatAll(parts)) && Blank(inner)
  {
    hide Blank, GlyphsOk, Flat, ValueOk;
    forall i | 0 <= i < |parts| ensures EntryOk(FlatAll(parts)[i]) {
      FlatOk(parts[i].value);
    }
  }

  /** Only the literal is null. */
  lemma NullIs(l: Layout)
    requires Valid(l)
    ensures IsNull(Flat(l)) <==> l == Atom("null")
  {
    if l.List? || l.Dict? {
      assert Text(l)[0] == '[' || Text(l)[0] == '{';
    }
  }
}
