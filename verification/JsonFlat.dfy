/** The objects the body scanner accepts, exactly: members with quoted keys, blanks between all
    tokens, and values that are strings, bare words or bracketed texts. */
module JsonFlat {
  import opened Basics
  import opened JsonScan
  import opened JsonStrings
  import opened TextAt

  ghost predicate Blank(t: string) {
    forall c | c in t :: c == ' ' || c == '\t' || c == '\n' || c == '\r'
  }

  // ------------------------------------------------------------------ bracketed texts

  /** A character outside strings, or a string from quote to quote. */
  datatype Piece = Mark(c: char) | Literal(body: string)

  /** A string body: no quote but behind a backslash, and no backslash at the end. */
  predicate BodyOk(t: string) {
    if t == "" then true
    else if t[0] == '\\' then |t| >= 2 && BodyOk(t[2..])
    else t[0] != '"' && BodyOk(t[1..])
  }

  predicate PieceOk(x: Piece) {
    match x
    case Mark(c) => c != '"'
    case Literal(body) => BodyOk(body)
  }

  function PieceText(x: Piece): (t: string)
    ensures t != ""
  {
    match x
    case Mark(c) => [c]
    case Literal(body) => "\"" + (body + "\"")
  }

  function PiecesText(ps: seq<Piece>): string {
    if ps == [] then "" else PieceText(ps[0]) + PiecesText(ps[1..])
  }

  function Count(ps: seq<Piece>, c: char): nat {
    if ps == [] then 0 else (if ps[0] == Mark(c) then 1 else 0) + Count(ps[1..], c)
  }

  predicate PiecesOk(ps: seq<Piece>) { forall i | 0 <= i < |ps| :: PieceOk(ps[i]) }

  /** Opened n times before: all brackets are closed at the end, and not before. */
  ghost predicate Closes(ps: seq<Piece>, n: int, open: char, close: char) {
    && n + Count(ps, open) == Count(ps, close)
    && forall k | 0 <= k < |ps| :: n + Count(ps[..k], open) > Count(ps[..k], close)
  }

  /** From an opening bracket to the one that closes it, counting that kind only. */
  ghost predicate GroupAs(t: string, open: char, close: char, ps: seq<Piece>) {
    t == [open] + PiecesText(ps) && PiecesOk(ps) && Closes(ps, 1, open, close)
  }

  ghost predicate Group(t: string, open: char, close: char) {
    exists ps: seq<Piece> :: GroupAs(t, open, close, ps)
  }

  ghost predicate Brackets(open: char, close: char) {
    (open == '{' && close == '}') || (open == '[' && close == ']')
  }

  lemma ClosesMore(x: Piece, ps: seq<Piece>, n: int, open: char, close: char)
    requires open != close
    ensures
      var m := n + (if x == Mark(open) then 1 else 0) - (if x == Mark(close) then 1 else 0);
      Closes([x] + ps, n, open, close) <==> n > 0 && Closes(ps, m, open, close)
  {
    var all := [x] + ps;
    var m := n + (if x == Mark(open) then 1 else 0) - (if x == Mark(close) then 1 else 0);
    assert all[1..] == ps && all[..0] == [];
    forall k | 0 <= k < |ps|
      ensures n + Count(all[..k + 1], open) - Count(all[..k + 1], close) == m + Count(ps[..k], open) - Count(ps[..k], close)
    {
      assert all[..k + 1] == [x] + ps[..k] && all[..k + 1][1..] == ps[..k];
    }
    if Closes(all, n, open, close) {
      assert n + Count(all[..0], open) > Count(all[..0], close);
      forall k | 0 <= k < |ps| ensures m + Count(ps[..k], open) > Count(ps[..k], close) {
        var next := k + 1;
        assert n + Count(all[..next], open) > Count(all[..next], close);
      }
    }
    if n > 0 && Closes(ps, m, open, close) {
      forall k | 0 <= k < |all| ensures n + Count(all[..k], open) > Count(all[..k], close) {
        if k > 0 { assert m + Count(ps[..k - 1], open) > Count(ps[..k - 1], close); }
      }
    }
  }

  lemma ClosesNone(n: int, open: char, close: char)
    ensures Closes([], n, open, close) <==> n == 0
  {
  }

  lemma {:induction false} BodyCloses(t: string, d: string, p: nat)
    requires BodyOk(t) && At(d, p, t + "\"")
    ensures p + |t| < |d| && d[p + |t|] == '"' && ClosingQuote(d, p) == p + |t|
    decreases |t|
  {
    hide At;
    if t == "" {
      assert t + "\"" == ['"'] + "";
      AtChar(d, p, '"', "");
    } else {
      var n := if t[0] == '\\' then 2 else 1;
      assert t + "\"" == t[..n] + (t[n..] + "\"");
      AtSplit(d, p, t[..n], t[n..] + "\"");
      AtIndex(d, p, t[..n], 0);
      BodyCloses(t[n..], d, p + n);
    }
  }

  lemma {:induction false} ClosesBody(d: string, p: nat)
    requires ClosingQuote(d, p) < |d|
    ensures BodyOk(d[p..ClosingQuote(d, p)])
    decreases |d| - p
  {
    var q := ClosingQuote(d, p);
    if d[p] != '"' {
      var n := if d[p] == '\\' then 2 else 1;
      ClosesBody(d, p + n);
      assert d[p..q][n..] == d[p + n..q];
    }
  }

  /** The counting scan goes over the pieces of a closing text and ends behind them. */
  lemma {:induction false} BalancedReads(ps: seq<Piece>, d: string, p: nat, n: nat, open: char, close: char)
    requires PiecesOk(ps) && Closes(ps, n, open, close) && n > 0 && Brackets(open, close) && At(d, p, PiecesText(ps))
    ensures Balanced(d, p, n, open, close) == Some(p + |PiecesText(ps)|)
    decreases |ps|
  {
    hide At, Closes, Balanced, PieceText, PieceOk;
    if ps == [] {
      ClosesNone(n, open, close);
    } else {
      var x, more := ps[0], ps[1..];
      assert ps == [x] + more;
      ClosesMore(x, more, n, open, close);
      AtSplit(d, p, PieceText(x), PiecesText(more));
      PieceReads(x, d, p, n, open, close);
      var m := n + (if x == Mark(open) then 1 else 0) - (if x == Mark(close) then 1 else 0);
      if m > 0 {
        BalancedReads(more, d, p + |PieceText(x)|, m, open, close);
      } else {
        StartsOpen(more, m, open, close);
      }
    }
  }

  lemma StartsOpen(ps: seq<Piece>, n: int, open: char, close: char)
    requires Closes(ps, n, open, close)
    ensures ps != [] ==> n > 0
  {
    if ps != [] {
      assert ps[..0] == [];
      assert n + Count(ps[..0], open) > Count(ps[..0], close);
    }
  }

  /** One piece: the count goes up, down, or stays. */
  lemma PieceReads(x: Piece, d: string, p: nat, n: nat, open: char, close: char)
    requires PieceOk(x) && At(d, p, PieceText(x)) && n > 0 && Brackets(open, close)
    ensures
      var m := n + (if x == Mark(open) then 1 else 0) - (if x == Mark(close) then 1 else 0);
      Balanced(d, p, n, open, close)
      == if m == 0 then Some(p + |PieceText(x)|) else Balanced(d, p + |PieceText(x)|, m, open, close)
  {
    hide At;
    if x.Mark? {
      AtIndex(d, p, PieceText(x), 0);
    } else {
      AtChar(d, p, '"', x.body + "\"");
      BodyCloses(x.body, d, p + 1);
    }
  }

  lemma {:induction false} BalancedSound(d: string, p: nat, n: nat, open: char, close: char) returns (ps: seq<Piece>)
    requires Balanced(d, p, n, open, close).Some? && n > 0 && Brackets(open, close)
    ensures PiecesOk(ps) && Closes(ps, n, open, close) && At(d, p, PiecesText(ps))
    ensures Balanced(d, p, n, open, close) == Some(p + |PiecesText(ps)|)
    decreases |d| - p
  {
    hide At, Closes, Balanced;
    var x := NextPiece(d, p, n, open, close);
    var m := n + (if x == Mark(open) then 1 else 0) - (if x == Mark(close) then 1 else 0);
    PieceReads(x, d, p, n, open, close);
    var more := [];
    if m > 0 {
      more := BalancedSound(d, p + |PieceText(x)|, m, open, close);
    } else {
      ClosesNone(0, open, close);
      NothingAt(d, p + |PieceText(x)|);
    }
    ps := [x] + more;
    assert ps[1..] == more;
    ClosesMore(x, more, n, open, close);
    AtJoin(d, p, PieceText(x), PiecesText(more));
  }

  lemma NothingAt(d: string, p: nat)
    requires p <= |d|
    ensures At(d, p, "")
  {
  }

  lemma NextPiece(d: string, p: nat, n: nat, open: char, close: char) returns (x: Piece)
    requires Balanced(d, p, n, open, close).Some? && Brackets(open, close)
    ensures PieceOk(x) && At(d, p, PieceText(x)) && p + |PieceText(x)| <= |d|
  {
    if d[p] == '"' {
      var q := ClosingQuote(d, p + 1);
      ClosesBody(d, p + 1);
      x := Literal(d[p + 1..q]);
      assert d[p..q + 1] == "\"" + (d[p + 1..q] + "\"");
    } else {
      x := Mark(d[p]);
      assert d[p..p + 1] == [d[p]];
    }
  }

  /** The scan of a bracketed value consumes exactly a group. */
  lemma GroupReads(t: string, d: string, p: nat, open: char, close: char)
    requires Group(t, open, close) && Brackets(open, close) && At(d, p, t)
    ensures p < |d| && d[p] == open && Balanced(d, p, 0, open, close) == Some(p + |t|)
  {
    hide At, Closes, PiecesOk, PiecesText;
    var ps :| GroupAs(t, open, close, ps);
    AtChar(d, p, open, PiecesText(ps));
    BalancedReads(ps, d, p + 1, 1, open, close);
    Opened(d, p, open, close);
  }

  lemma Opened(d: string, p: nat, open: char, close: char)
    requires p < |d| && d[p] == open && Brackets(open, close)
    ensures Balanced(d, p, 0, open, close) == Balanced(d, p + 1, 1, open, close)
  {
  }

  lemma GroupSound(d: string, p: nat, open: char, close: char)
    requires p < |d| && d[p] == open && Brackets(open, close) && Balanced(d, p, 0, open, close).Some?
    ensures Group(d[p..Balanced(d, p, 0, open, close).value], open, close)
  {
    hide At, Closes, PiecesOk, PiecesText, Balanced;
    Opened(d, p, open, close);
    var ps := BalancedSound(d, p + 1, 1, open, close);
    var q := Balanced(d, p, 0, open, close).value;
    SliceAt(d, p + 1, PiecesText(ps));
    assert d[p..q] == [d[p]] + d[p + 1..q];
    assert GroupAs(d[p..q], open, close, ps);
  }

  // ------------------------------------------------------------------ raw values

  /** The scanner's delimiters. */
  predicate Delimiter(c: char) {
    c == ',' || c == '}' || c == ']' || c == ' ' || c == '\t' || c == '\n' || c == '\r'
  }

  /** The value ends here: the text is over, or goes on with a delimiter. */
  ghost predicate Ends(d: string, p: nat) {
    p == |d| || (p < |d| && Delimiter(d[p]))
  }

  /** A word that does not start like a string or a bracketed text. */
  ghost predicate Word(t: string) {
    t != "" && t[0] != '"' && t[0] != '{' && t[0] != '[' && forall c | c in t :: !Delimiter(c)
  }

  ghost predicate RawOk(t: string) {
    Word(t) || Group(t, '{', '}') || Group(t, '[', ']')
  }

  lemma {:induction false} WordReads(t: string, d: string, p: nat)
    requires (forall c | c in t :: !Delimiter(c)) && At(d, p, t) && Ends(d, p + |t|)
    ensures ScalarEnd(d, p) == p + |t|
    decreases |t|
  {
    hide At;
    if t != "" {
      AtTail(d, p, t);
      assert forall c | c in t[1..] :: c in t;
      WordReads(t[1..], d, p + 1);
    }
  }

  lemma {:induction false} WordSound(d: string, p: nat)
    requires p <= |d|
    ensures var k := ScalarEnd(d, p); (forall c | c in d[p..k] :: !Delimiter(c)) && Ends(d, k)
    decreases |d| - p
  {
    if p < |d| && !IsDelimiter(d[p]) {
      WordSound(d, p + 1);
      assert d[p..ScalarEnd(d, p)] == [d[p]] + d[p + 1..ScalarEnd(d, p)];
    }
  }

  /** The raw scanner consumes exactly a raw value that the text ends after, or that a
      delimiter follows. */
  lemma RawReads(t: string, d: string, p: nat)
    requires RawOk(t) && At(d, p, t) && Ends(d, p + |t|)
    ensures p < |d| && d[p] != '"' && RawEnd(d, p) == Some(p + |t|) && d[p..p + |t|] == t
  {
    hide At, Balanced, Group, Ends;
    SliceAt(d, p, t);
    if Word(t) {
      AtTail(d, p, t);
      WordReads(t, d, p);
    } else if Group(t, '{', '}') {
      GroupReads(t, d, p, '{', '}');
    } else {
      GroupReads(t, d, p, '[', ']');
    }
  }

  lemma RawSound(d: string, p: nat)
    requires p < |d| && d[p] != '"' && RawEnd(d, p).Some?
    ensures RawOk(d[p..RawEnd(d, p).value])
  {
    hide Balanced, Group;
    if d[p] == '{' {
      GroupSound(d, p, '{', '}');
    } else if d[p] == '[' {
      GroupSound(d, p, '[', ']');
    } else {
      WordSound(d, p);
      var k := ScalarEnd(d, p);
      assert d[p..k][0] == d[p];
    }
  }

  // ------------------------------------------------------------------ members

  datatype Value = Quote(glyphs: seq<Glyph>) | Raw(text: string)

  /** A member, with the blanks before the key, on both sides of the colon, and behind the
      value. */
  datatype Entry = Entry(before: string, key: seq<Glyph>, mid: string, gap: string, value: Value, behind: string)

  ghost predicate ValueOk(v: Value) {
    if v.Quote? then GlyphsOk(v.glyphs) else RawOk(v.text)
  }

  ghost predicate EntryOk(x: Entry) {
    Blank(x.before) && GlyphsOk(x.key) && Blank(x.mid) && Blank(x.gap) && ValueOk(x.value) && Blank(x.behind)
  }

  ghost predicate EntriesOk(xs: seq<Entry>) {
    forall i | 0 <= i < |xs| :: EntryOk(xs[i])
  }

  function ValueText(v: Value): string {
    if v.Quote? then QuoteText(v.glyphs) else v.text
  }

  function KeyText(x: Entry, rest: string): string {
    x.before + (QuoteText(x.key) + (x.mid + (":" + rest)))
  }

  function EntryText(x: Entry, rest: string): string {
    KeyText(x, x.gap + (ValueText(x.value) + (x.behind + rest)))
  }

  /** One or more members up to and including the closing brace. */
  function EntriesText(xs: seq<Entry>): string
    requires xs != []
  {
    EntryText(xs[0], if |xs| == 1 then "}" else "," + EntriesText(xs[1..]))
  }

  /** An object; `inner` is what stands in one without members. */
  function ObjectText(xs: seq<Entry>, inner: string): string {
    "{" + (if xs == [] then inner + "}" else EntriesText(xs))
  }

  /** What a value is recorded as: strings decoded, everything else as its own text. */
  function TextOf(v: Value): string
    requires v.Quote? ==> GlyphsOk(v.glyphs)
  {
    if v.Quote? then Meaning(v.glyphs) else v.text
  }

  predicate IsNull(v: Value) { v == Raw("null") }

  ghost function Key(x: Entry): string
    requires EntryOk(x)
  {
    Meaning(x.key)
  }

  ghost function Shown(x: Entry): string
    requires EntryOk(x)
  {
    TextOf(x.value)
  }

  ghost function Record(b: Body, x: Entry): Body
    requires EntryOk(x)
  {
    if IsNull(x.value) then b.(nulls := b.nulls + {Key(x)})
    else if Key(x) in b.fields then b
    else b.(fields := b.fields[Key(x) := Shown(x)])
  }

  ghost function RecordAll(b: Body, xs: seq<Entry>): Body
    requires EntriesOk(xs)
    decreases |xs|
  {
    if xs == [] then b else RecordAll(Record(b, xs[0]), xs[1..])
  }

  // ------------------------------------------------------------------ blanks

  lemma {:induction false} SkipBlanks(t: string, d: string, p: nat)
    requires Blank(t) && At(d, p, t) && (p + |t| < |d| ==> !Blank([d[p + |t|]]))
    ensures SkipSpace(d, p) == p + |t|
    decreases |t|
  {
    hide At;
    if t == "" {
      if p < |d| { assert !Blank([d[p]]); }
    } else {
      AtTail(d, p, t);
      assert forall c | c in t[1..] :: c in t;
      SkipBlanks(t[1..], d, p + 1);
    }
  }

  lemma {:induction false} SkipSound(d: string, p: nat)
    requires p <= |d|
    ensures var k := SkipSpace(d, p); p <= k <= |d| && Blank(d[p..k]) && (k < |d| ==> !Blank([d[k]]))
    decreases |d| - p
  {
    if p < |d| && IsSpace(d[p]) {
      SkipSound(d, p + 1);
      assert d[p..SkipSpace(d, p)] == [d[p]] + d[p + 1..SkipSpace(d, p)];
    } else if p < |d| {
      assert d[p] in [d[p]];
    }
  }

  lemma NoBlank(c: char)
    requires c != ' ' && c != '\t' && c != '\n' && c != '\r'
    ensures !Blank([c])
  {
    assert c in [c];
  }

  // ------------------------------------------------------------------ one member

  /** Where an entry's colon stands, and where its value begins and ends. */
  function Colon(x: Entry, p: nat): nat { p + |x.before| + |QuoteText(x.key)| + |x.mid| }

  function ValueAt(x: Entry, p: nat): nat { Colon(x, p) + 1 + |x.gap| }

  function ValueEnd(x: Entry, p: nat): nat { ValueAt(x, p) + |ValueText(x.value)| }

  ghost predicate KeyStands(x: Entry, d: string, p: nat) {
    && At(d, p, x.before) && At(d, p + |x.before|, QuoteText(x.key))
    && At(d, p + |x.before| + |QuoteText(x.key)|, x.mid)
    && Colon(x, p) < |d| && d[Colon(x, p)] == ':'
  }

  ghost predicate ValueStands(x: Entry, d: string, p: nat) {
    At(d, Colon(x, p) + 1, x.gap) && At(d, ValueAt(x, p), ValueText(x.value)) && At(d, ValueEnd(x, p), x.behind)
  }

  lemma KeyParts(x: Entry, d: string, p: nat, rest: string)
    requires At(d, p, KeyText(x, rest))
    ensures KeyStands(x, d, p) && At(d, Colon(x, p) + 1, rest)
  {
    hide At, QuoteText;
    var k := QuoteText(x.key);
    AtSplit(d, p, x.before, k + (x.mid + (":" + rest)));
    AtSplit(d, p + |x.before|, k, x.mid + (":" + rest));
    AtSplit(d, p + |x.before| + |k|, x.mid, ":" + rest);
    AtChar(d, Colon(x, p), ':', rest);
  }

  lemma EntryParts(x: Entry, d: string, p: nat, rest: string)
    requires At(d, p, EntryText(x, rest))
    ensures KeyStands(x, d, p) && ValueStands(x, d, p) && At(d, ValueEnd(x, p) + |x.behind|, rest)
  {
    hide At, ValueText, KeyText, KeyStands, Colon;
    var v := ValueText(x.value);
    KeyParts(x, d, p, x.gap + (v + (x.behind + rest)));
    AtSplit(d, Colon(x, p) + 1, x.gap, v + (x.behind + rest));
    AtSplit(d, ValueAt(x, p), v, x.behind + rest);
    AtSplit(d, ValueEnd(x, p), x.behind, rest);
  }

  lemma EntryWhole(x: Entry, d: string, p: nat, rest: string)
    requires KeyStands(x, d, p) && ValueStands(x, d, p) && At(d, ValueEnd(x, p) + |x.behind|, rest)
    ensures At(d, p, EntryText(x, rest))
  {
    hide At, ValueText, QuoteText;
    var k, v := QuoteText(x.key), ValueText(x.value);
    var tail := x.gap + (v + (x.behind + rest));
    AtJoin(d, ValueEnd(x, p), x.behind, rest);
    AtJoin(d, ValueAt(x, p), v, x.behind + rest);
    AtJoin(d, Colon(x, p) + 1, x.gap, v + (x.behind + rest));
    CharAt(d, Colon(x, p));
    AtJoin(d, Colon(x, p), ":", tail);
    AtJoin(d, p + |x.before| + |k|, x.mid, ":" + tail);
    AtJoin(d, p + |x.before|, k, x.mid + (":" + tail));
    AtJoin(d, p, x.before, k + (x.mid + (":" + tail)));
  }

  lemma CharAt(d: string, p: nat)
    requires p < |d|
    ensures At(d, p, [d[p]])
  {
    assert d[p..p + 1] == [d[p]];
  }

  lemma KeyReads(x: Entry, d: string, p: nat)
    requires EntryOk(x) && KeyStands(x, d, p)
    ensures var q := SkipSpace(d, p);
      && q < |d| && d[q] == '"' && StringAt(d, q).Some? && StringAt(d, q).value.0 == Meaning(x.key)
      && SkipSpace(d, StringAt(d, q).value.1) == Colon(x, p) < |d| && d[Colon(x, p)] == ':'
  {
    hide At, QuoteText, StringAt, Blank, SkipSpace, ValueOk, GlyphsOk;
    var q := p + |x.before|;
    StringReads(x.key, d, q);
    NoBlank('"');
    SkipBlanks(x.before, d, p);
    NoBlank(':');
    SkipBlanks(x.mid, d, q + |QuoteText(x.key)|);
  }

  /** The first character of a value is no blank, and a quote exactly for strings. */
  lemma FirstChar(v: Value)
    requires ValueOk(v)
    ensures ValueText(v) != "" && !Blank([ValueText(v)[0]]) && (ValueText(v)[0] == '"' <==> v.Quote?)
  {
    if v.Raw? && Word(v.text) {
      assert v.text[0] in v.text;
    }
    NoBlank(ValueText(v)[0]);
  }

  lemma ValueReads(v: Value, d: string, p: nat)
    requires ValueOk(v) && At(d, p, ValueText(v)) && Ends(d, p + |ValueText(v)|)
    ensures p < |d| && (d[p] == '"' <==> v.Quote?)
    ensures v.Quote? ==> StringAt(d, p) == Some((TextOf(v), p + |ValueText(v)|))
    ensures v.Raw? ==> RawEnd(d, p) == Some(p + |ValueText(v)|) && d[p..p + |ValueText(v)|] == v.text
  {
    hide At, QuoteText, StringAt, RawEnd, Ends, RawOk, GlyphsOk, Meaning;
    if v.Quote? { StringReads(v.glyphs, d, p); } else { RawReads(v.text, d, p); }
  }

  /** A member that stands there is read and recorded, up to the end of its value. */
  lemma EntryReads(x: Entry, d: string, p: nat, b: Body)
    requires EntryOk(x) && KeyStands(x, d, p) && ValueStands(x, d, p) && Ends(d, ValueEnd(x, p))
    ensures MemberAt(d, p, b) == Some((Record(b, x), ValueEnd(x, p)))
  {
    hide At, ValueText, StringAt, RawEnd, Ends, ValueOk, Blank, SkipSpace, Colon, KeyStands, Meaning, GlyphsOk;
    KeyReads(x, d, p);
    FirstChar(x.value);
    AtTail(d, ValueAt(x, p), ValueText(x.value));
    SkipBlanks(x.gap, d, Colon(x, p) + 1);
    ValueReads(x.value, d, ValueAt(x, p));
  }

  /** Whatever is read as a member is one, up to the end of its value. */
  lemma EntrySound(d: string, p: nat, b: Body) returns (x: Entry)
    requires p < |d| && MemberAt(d, p, b).Some?
    ensures EntryOk(x) && KeyStands(x, d, p) && ValueStands(x, d, p) && x.behind == ""
    ensures MemberAt(d, p, b) == Some((Record(b, x), ValueEnd(x, p)))
  {
    hide At, StringAt, RawEnd, Blank, SkipSpace, Meaning, GlyphsOk, RawOk, QuoteText;
    var q := SkipSpace(d, p);
    SkipSound(d, p);
    var key := StringSound(d, q);
    var c := SkipSpace(d, q + |QuoteText(key)|);
    SkipSound(d, q + |QuoteText(key)|);
    var v := SkipSpace(d, c + 1);
    SkipSound(d, c + 1);
    var value := ValueSound(d, v);
    x := Entry(d[p..q], key, d[q + |QuoteText(key)|..c], d[c + 1..v], value, "");
    SlicesStand(d, p, q);
    SlicesStand(d, q + |QuoteText(key)|, c);
    SlicesStand(d, c + 1, v);
    NothingAt(d, ValueEnd(x, p));
    NoBlanks();
  }

  lemma NoBlanks()
    ensures Blank("")
  {
  }

  lemma SlicesStand(d: string, p: nat, q: nat)
    requires p <= q <= |d|
    ensures At(d, p, d[p..q])
  {
  }

  lemma ValueSound(d: string, p: nat) returns (v: Value)
    requires p < |d| && (if d[p] == '"' then StringAt(d, p).Some? else RawEnd(d, p).Some?)
    ensures ValueOk(v) && At(d, p, ValueText(v)) && p + |ValueText(v)| <= |d|
    ensures d[p] == '"' ==> v.Quote? && StringAt(d, p) == Some((TextOf(v), p + |ValueText(v)|))
    ensures d[p] != '"' ==> v.Raw? && RawEnd(d, p) == Some(p + |v.text|) && v.text == d[p..p + |v.text|]
  {
    hide At, StringAt, RawEnd, RawOk, GlyphsOk, Meaning, QuoteText;
    if d[p] == '"' {
      var gs := StringSound(d, p);
      v := Quote(gs);
      SliceAt(d, p, QuoteText(gs));
    } else {
      RawSound(d, p);
      v := Raw(d[p..RawEnd(d, p).value]);
      SlicesStand(d, p, RawEnd(d, p).value);
    }
  }

  // ------------------------------------------------------------------ all members

  /** Behind a value: blanks, and then a comma or the brace. */
  lemma EndsHere(t: string, d: string, p: nat)
    requires Blank(t) && At(d, p, t) && p + |t| < |d| && (d[p + |t|] == ',' || d[p + |t|] == '}')
    ensures Ends(d, p) && SkipSpace(d, p) == p + |t|
  {
    hide At, SkipSpace;
    NoBlank(d[p + |t|]);
    SkipBlanks(t, d, p);
    if t != "" { AtTail(d, p, t); }
  }

  lemma {:induction false} MembersRead(xs: seq<Entry>, d: string, p: nat, b: Body)
    requires xs != [] && EntriesOk(xs) && At(d, p, EntriesText(xs))
    ensures Members(d, p, b) == Some(RecordAll(b, xs))
    decreases |xs|
  {
    hide At, MemberAt, Record, EntryOk, Blank, Ends, SkipSpace, EntryText, KeyStands, ValueStands, ValueEnd;
    var x, more := xs[0], xs[1..];
    var rest := if |xs| == 1 then "}" else "," + EntriesText(more);
    EntryParts(x, d, p, rest);
    var at := ValueEnd(x, p);
    var q := at + |x.behind|;
    if more == [] {
      assert rest == ['}'] + "";
      AtChar(d, q, '}', "");
    } else {
      assert rest == [','] + EntriesText(more);
      AtChar(d, q, ',', EntriesText(more));
    }
    EntryEnds(x, d, p);
    EntryReads(x, d, p, b);
    if more == [] {
      assert RecordAll(Record(b, x), more) == Record(b, x);
    } else {
      MembersRead(more, d, q + 1, Record(b, x));
    }
  }

  lemma EntryEnds(x: Entry, d: string, p: nat)
    requires EntryOk(x) && ValueStands(x, d, p)
    requires var q := ValueEnd(x, p) + |x.behind|; q < |d| && (d[q] == ',' || d[q] == '}')
    ensures p < |d| && Ends(d, ValueEnd(x, p)) && SkipSpace(d, ValueEnd(x, p)) == ValueEnd(x, p) + |x.behind|
  {
    hide At, Blank, Ends, SkipSpace, ValueOk, GlyphsOk;
    EndsHere(x.behind, d, ValueEnd(x, p));
  }

  lemma {:induction false} MembersSound(d: string, p: nat, b: Body) returns (xs: seq<Entry>)
    requires Members(d, p, b).Some?
    ensures xs != [] && EntriesOk(xs) && At(d, p, EntriesText(xs)) && Members(d, p, b) == Some(RecordAll(b, xs))
    decreases |d| - p
  {
    hide At, MemberAt, Record, Blank, SkipSpace, EntryText, KeyStands, ValueStands, EntryOk, ValueEnd;
    var x0 := EntrySound(d, p, b);
    var at := ValueEnd(x0, p);
    var k := SkipSpace(d, at);
    var x := Spaced(x0, d, p, b, k);
    CharAt(d, k);
    if d[k] == '}' {
      xs := [x];
      EntryWhole(x, d, p, "}");
      assert RecordAll(Record(b, x), xs[1..]) == Record(b, x);
    } else {
      var more := MembersSound(d, k + 1, Record(b, x));
      xs := [x] + more;
      assert xs[1..] == more;
      AtJoin(d, k, ",", EntriesText(more));
      EntryWhole(x, d, p, "," + EntriesText(more));
    }
  }

  /** The member together with the blanks behind it. */
  lemma Spaced(x0: Entry, d: string, p: nat, b: Body, k: nat) returns (x: Entry)
    requires EntryOk(x0) && KeyStands(x0, d, p) && ValueStands(x0, d, p) && x0.behind == ""
    requires k == SkipSpace(d, ValueEnd(x0, p)) < |d|
    ensures EntryOk(x) && KeyStands(x, d, p) && ValueStands(x, d, p)
    ensures ValueEnd(x, p) == ValueEnd(x0, p) && ValueEnd(x, p) + |x.behind| == k && Record(b, x) == Record(b, x0)
  {
    hide At, Blank, SkipSpace, GlyphsOk, Meaning, ValueOk, QuoteText;
    var at := ValueEnd(x0, p);
    InText(d, at, k);
    SkipSound(d, at);
    x := x0.(behind := d[at..k]);
    SlicesStand(d, at, k);
  }

  lemma InText(d: string, p: nat, k: nat)
    requires k == SkipSpace(d, p) < |d|
    ensures p <= k
  {
  }

  // ------------------------------------------------------------------ the whole body

  /** The body begins, after blanks, with this object; anything may follow. */
  ghost predicate Stands(s: string, lead: string, xs: seq<Entry>, inner: string, rest: string) {
    Blank(lead) && EntriesOk(xs) && Blank(inner) && s == lead + (ObjectText(xs, inner) + rest)
  }

  /** An object with any blanks between its tokens, whatever follows it, is recorded member by
      member. */
  lemma ObjectReads(s: string, lead: string, xs: seq<Entry>, inner: string, rest: string)
    requires Stands(s, lead, xs, inner, rest)
    ensures ParseBody(s) == Some(RecordAll(EMPTY, xs))
  {
    hide At, Members, EntriesText, SkipSpace, Blank, EntryOk;
    var p := |lead|;
    var tail := if xs == [] then inner + "}" else EntriesText(xs);
    assert s[0..p] == lead && s[p..p + |ObjectText(xs, inner)|] == ObjectText(xs, inner);
    WholeAt(s, lead, ObjectText(xs, inner), rest);
    AtChar(s, p, '{', tail);
    NoBlank('{');
    SkipBlanks(lead, s, 0);
    if xs == [] {
      AtSplit(s, p + 1, inner, "}");
      AtChar(s, p + 1 + |inner|, '}', "");
      NoBlank('}');
      SkipBlanks(inner, s, p + 1);
    } else {
      FirstQuote(xs, s, p + 1);
      MembersRead(xs, s, p + 1, EMPTY);
      SameMembers(s, p + 1, EMPTY);
    }
  }

  lemma WholeAt(s: string, lead: string, t: string, rest: string)
    requires s == lead + (t + rest)
    ensures At(s, 0, lead) && At(s, |lead|, t)
  {
    assert s[0..|lead|] == lead && s[|lead|..|lead| + |t|] == t;
  }

  lemma FirstQuote(xs: seq<Entry>, d: string, p: nat)
    requires xs != [] && EntriesOk(xs) && At(d, p, EntriesText(xs))
    ensures SkipSpace(d, p) < |d| && d[SkipSpace(d, p)] == '"'
  {
    hide At, Blank, SkipSpace, EntryText, ValueStands;
    EntryParts(xs[0], d, p, if |xs| == 1 then "}" else "," + EntriesText(xs[1..]));
    KeyReads(xs[0], d, p);
  }

  /** Starting before blanks or behind them reads the same members. */
  lemma SameMembers(d: string, p: nat, b: Body)
    requires SkipSpace(d, p) < |d|
    ensures p < |d| && Members(d, SkipSpace(d, p), b) == Members(d, p, b)
  {
    hide StringAt, RawEnd;
    SkipTwice(d, p);
  }

  lemma {:induction false} SkipTwice(d: string, p: nat)
    ensures SkipSpace(d, SkipSpace(d, p)) == SkipSpace(d, p)
    decreases |d| - p
  {
    if p < |d| && IsSpace(d[p]) { SkipTwice(d, p + 1); }
  }

  /** Nothing else is accepted. */
  lemma ObjectSound(s: string) returns (lead: string, xs: seq<Entry>, inner: string, rest: string)
    requires ParseBody(s).Some?
    ensures Stands(s, lead, xs, inner, rest) && ParseBody(s) == Some(RecordAll(EMPTY, xs))
  {
    hide At, Members, EntriesText, SkipSpace, Blank, EntryOk;
    var i := SkipSpace(s, 0);
    SkipSound(s, 0);
    lead := s[..i];
    assert s[0..i] == lead;
    var k := SkipSpace(s, i + 1);
    SkipSound(s, i + 1);
    if k < |s| && s[k] == '}' {
      xs, inner, rest := [], s[i + 1..k], s[k + 1..];
      assert s == lead + (("{" + (inner + "}")) + rest);
    } else {
      xs := MembersSound(s, k, EMPTY);
      assert SkipSpace(s, k) == k by { SkipTwice(s, i + 1); }
      inner := "";
      xs, rest := Indented(s, i, k, xs);
      NoBlanks();
    }
  }

  /** The blanks before the first key belong to the first member. */
  lemma Indented(s: string, i: nat, k: nat, xs: seq<Entry>) returns (ys: seq<Entry>, rest: string)
    requires i < k <= |s| && s[i] == '{' && Blank(s[i + 1..k]) && xs != [] && EntriesOk(xs) && At(s, k, EntriesText(xs))
    ensures ys != [] && EntriesOk(ys) && s == s[..i] + (ObjectText(ys, "") + rest) && RecordAll(EMPTY, ys) == RecordAll(EMPTY, xs)
  {
    hide At, Meaning, RecordAll, EntryText, Blank, ValueOk, GlyphsOk;
    var x := xs[0];
    var pad := s[i + 1..k];
    var y := x.(before := pad + x.before);
    ys := [y] + xs[1..];
    assert ys[1..] == xs[1..];
    BlankBoth(pad, x.before);
    PaddedText(x, pad, if |xs| == 1 then "}" else "," + EntriesText(xs[1..]));
    assert EntriesText(ys) == pad + EntriesText(xs);
    SliceAt(s, k, EntriesText(xs));
    rest := s[k + |EntriesText(xs)|..];
    assert s == s[..i] + (("{" + (pad + s[k..k + |EntriesText(xs)|])) + rest);
    SameRecord(xs, ys);
  }

  lemma BlankBoth(a: string, b: string)
    requires Blank(a) && Blank(b)
    ensures Blank(a + b)
  {
  }

  lemma PaddedText(x: Entry, pad: string, rest: string)
    ensures EntryText(x.(before := pad + x.before), rest) == pad + EntryText(x, rest)
  {
    hide QuoteText, ValueText;
    var tail := QuoteText(x.key) + (x.mid + (":" + (x.gap + (ValueText(x.value) + (x.behind + rest)))));
    assert (pad + x.before) + tail == pad + (x.before + tail);
  }

  lemma SameRecord(xs: seq<Entry>, ys: seq<Entry>)
    requires xs != [] && ys != [] && EntriesOk(xs) && EntriesOk(ys) && xs[1..] == ys[1..]
    requires xs[0].key == ys[0].key && xs[0].value == ys[0].value
    ensures RecordAll(EMPTY, xs) == RecordAll(EMPTY, ys)
  {
    hide Meaning, EntryOk;
  }

  /** The scanner is exact: it accepts a body and records these fields and nulls if and only if
      the body begins, after blanks, with an object whose members record them. */
  lemma ParseIff(s: string, b: Body)
    ensures ParseBody(s) == Some(b) <==>
      exists lead: string, xs: seq<Entry>, inner: string, rest: string ::
        Stands(s, lead, xs, inner, rest) && b == RecordAll(EMPTY, xs)
  {
    hide ParseBody, Stands, RecordAll;
    if ParseBody(s) == Some(b) {
      var lead, xs, inner, rest := ObjectSound(s);
      assert Stands(s, lead, xs, inner, rest);
    }
    forall lead: string, xs: seq<Entry>, inner: string, rest: string | Stands(s, lead, xs, inner, rest)
      ensures EntriesOk(xs) && ParseBody(s) == Some(RecordAll(EMPTY, xs))
    {
      StandsOk(s, lead, xs, inner, rest);
      ObjectReads(s, lead, xs, inner, rest);
    }
  }

  lemma StandsOk(s: string, lead: string, xs: seq<Entry>, inner: string, rest: string)
    requires Stands(s, lead, xs, inner, rest)
    ensures EntriesOk(xs)
  {
  }
}
