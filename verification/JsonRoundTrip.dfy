/** What comes back: every member of an object a client sends, and so everything the server
    prints. */
module JsonRoundTrip {
  import opened Basics
  import opened JsonText
  import opened JsonScan
  import opened JsonStrings
  import opened JsonFlat
  import opened JsonLayout
  import opened TextAt

  // ------------------------------------------------------------------ which members are kept

  /** The i-th member is the first with this key whose value is not null. */
  ghost predicate FirstField(xs: seq<Entry>, key: string, i: nat)
    requires EntriesOk(xs)
  {
    i < |xs| && Key(xs[i]) == key && !IsNull(xs[i].value) &&
    forall k | 0 <= k < i :: Key(xs[k]) == key ==> IsNull(xs[k].value)
  }

  /** Some member with this key is null. */
  ghost predicate SomeNull(xs: seq<Entry>, key: string)
    requires EntriesOk(xs)
  {
    exists i | 0 <= i < |xs| :: Key(xs[i]) == key && IsNull(xs[i].value)
  }

  lemma InFront(x: Entry, xs: seq<Entry>, key: string)
    requires EntryOk(x) && EntriesOk(xs)
    ensures EntriesOk([x] + xs)
    ensures SomeNull([x] + xs, key) <==> (Key(x) == key && IsNull(x.value)) || SomeNull(xs, key)
    ensures FirstField([x] + xs, key, 0) <==> Key(x) == key && !IsNull(x.value)
    ensures !FirstField([x] + xs, key, 0) ==> forall i: nat :: FirstField([x] + xs, key, i + 1) <==> FirstField(xs, key, i)
  {
    hide Key, EntryOk;
    var all := [x] + xs;
    assert all[0] == x && forall k | 0 <= k < |xs| :: all[k + 1] == xs[k];
    assert forall k | 0 < k < |all| :: all[k] == xs[k - 1];
    if !FirstField(all, key, 0) {
      forall i: nat ensures FirstField(all, key, i + 1) <==> FirstField(xs, key, i) {
        if FirstField(all, key, i + 1) {
          forall k | 0 <= k < i ensures Key(xs[k]) == key ==> IsNull(xs[k].value) {
            var next := k + 1;
            assert all[next] == xs[k];
          }
        }
      }
    }
  }

  /** With repeated keys: a key is null if any member made it so, and its field is that of its
      first member that is not null. */
  lemma {:induction false} RecordedWhere(b: Body, xs: seq<Entry>, key: string)
    requires EntriesOk(xs)
    ensures var r := RecordAll(b, xs);
      && (key in r.nulls <==> key in b.nulls || SomeNull(xs, key))
      && (key in b.fields ==> key in r.fields && r.fields[key] == b.fields[key])
      && (key !in b.fields ==>
            && (key in r.fields <==> exists i: nat :: FirstField(xs, key, i))
            && forall i: nat | FirstField(xs, key, i) :: r.fields[key] == Shown(xs[i]))
    decreases |xs|
  {
    hide Key, EntryOk, Shown;
    if xs != [] {
      var x, more := xs[0], xs[1..];
      assert xs == [x] + more;
      InFront(x, more, key);
      RecordedWhere(Record(b, x), more, key);
      if key !in b.fields {
        FirstCases(x, more, key);
        forall i: nat | FirstField(xs, key, i) ensures RecordAll(b, xs).fields[key] == Shown(xs[i]) {
          if i > 0 { assert FirstField(more, key, i - 1) && xs[i] == more[i - 1]; }
        }
      }
    }
  }

  lemma FirstCases(x: Entry, xs: seq<Entry>, key: string)
    requires EntryOk(x) && EntriesOk(xs)
    ensures EntriesOk([x] + xs)
    ensures (exists i: nat :: FirstField([x] + xs, key, i)) <==>
      FirstField([x] + xs, key, 0) || exists i: nat :: FirstField(xs, key, i)
    ensures FirstField([x] + xs, key, 0) ==> forall i: nat | FirstField([x] + xs, key, i) :: i == 0
    ensures !FirstField([x] + xs, key, 0) ==> forall i: nat | FirstField([x] + xs, key, i) :: i > 0 && FirstField(xs, key, i - 1)
  {
    hide FirstField, EntryOk, SomeNull, Key;
    InFront(x, xs, key);
    var all := [x] + xs;
    if FirstField(all, key, 0) {
      forall i: nat | FirstField(all, key, i) ensures i == 0 { OnlyFirst(all, key, 0, i); }
    } else {
      forall i: nat | FirstField(all, key, i) ensures i > 0 && FirstField(xs, key, i - 1) {
        var k := i - 1;
        if i > 0 { assert FirstField(all, key, k + 1) <==> FirstField(xs, key, k); }
      }
      forall i: nat | FirstField(xs, key, i) ensures FirstField(all, key, i + 1) { }
    }
  }

  lemma OnlyFirst(xs: seq<Entry>, key: string, i: nat, k: nat)
    requires EntriesOk(xs) && FirstField(xs, key, i) && FirstField(xs, key, k)
    ensures i == k
  {
  }

  // ------------------------------------------------------------------ values and objects

  /** The raw scanner consumes exactly a value, however nested and laid out, that the text ends
      after or that a delimiter follows. */
  lemma NestedReads(l: Layout, d: string, p: nat)
    requires Valid(l) && At(d, p, Text(l)) && Ends(d, p + |Text(l)|)
    ensures RawEnd(d, p) == Some(p + |Text(l)|) && d[p..p + |Text(l)|] == Text(l)
  {
    hide At, RawOk, Ends, Valid, Text, ClosingQuote, Balanced;
    SliceAt(d, p, Text(l));
    FlatOk(l);
    if l.Spelling? {
      SpellingText(l);
      AtChar(d, p, '"', Spelled(l.glyphs) + "\"");
      QuoteCloses(l.glyphs, d, p + 1);
    } else {
      RawReads(Text(l), d, p);
    }
  }

  lemma SpellingText(l: Layout)
    requires l.Spelling?
    ensures Text(l) == "\"" + (Spelled(l.glyphs) + "\"")
  {
  }

  /** An object of JSON, laid out anyhow, is recorded member by member. */
  lemma DictReads(lead: string, parts: seq<Part>, inner: string, rest: string)
    requires Blank(lead) && Valid(Dict(parts, inner))
    ensures EntriesOk(FlatAll(parts))
    ensures ParseBody(lead + (Text(Dict(parts, inner)) + rest)) == Some(RecordAll(EMPTY, FlatAll(parts)))
  {
    hide Valid, ParseBody, RecordAll, Blank, EntryOk, ObjectText, FlatAll;
    FlatAllOk(parts, inner);
    DictText(parts, inner);
    ObjectReads(lead + (Text(Dict(parts, inner)) + rest), lead, FlatAll(parts), inner, rest);
  }

  // ------------------------------------------------------------------ distinct keys

  /** Every member is where it belongs, and nothing else is there. */
  ghost predicate Recovered(b: Body, parts: seq<Part>)
    requires forall i | 0 <= i < |parts| :: GlyphsOk(parts[i].key) && Valid(parts[i].value)
  {
    && (forall i | 0 <= i < |parts| ::
          var key, l := Meaning(parts[i].key), parts[i].value;
          if l == Atom("null") then key in b.nulls && key !in b.fields
          else key !in b.nulls && key in b.fields
               && b.fields[key] == Denoted(l))
    && (forall key | key in b.fields || key in b.nulls :: exists i | 0 <= i < |parts| :: Meaning(parts[i].key) == key)
  }

  ghost predicate DistinctKeys(parts: seq<Part>)
    requires forall i | 0 <= i < |parts| :: GlyphsOk(parts[i].key)
  {
    forall i, k | 0 <= i < k < |parts| :: Meaning(parts[i].key) != Meaning(parts[k].key)
  }

  lemma PartsOk(parts: seq<Part>, inner: string)
    requires Valid(Dict(parts, inner))
    ensures forall i | 0 <= i < |parts| :: GlyphsOk(parts[i].key) && Valid(parts[i].value)
  {
  }

  /** A JSON object with distinct keys, sent with any blanks around any of its tokens and any
      spelling of its strings, after blanks and before anything: parsing it recovers every
      member, strings decoded, nulls as nulls and everything else as it stands, nothing more. */
  lemma DistinctKeysRecovered(lead: string, parts: seq<Part>, inner: string, rest: string)
    requires Blank(lead) && Valid(Dict(parts, inner))
    requires (forall i | 0 <= i < |parts| :: GlyphsOk(parts[i].key)) && DistinctKeys(parts)
    ensures forall i | 0 <= i < |parts| :: Valid(parts[i].value)
    ensures var r := ParseBody(lead + (Text(Dict(parts, inner)) + rest)); r.Some? && Recovered(r.value, parts)
  {
    hide Text, Valid, ParseBody, RecordAll, Blank, GlyphsOk, Meaning, EntryOk, ObjectText, Flat, Key, Denoted;
    PartsOk(parts, inner);
    DictReads(lead, parts, inner, rest);
    var r := RecordAll(EMPTY, FlatAll(parts));
    forall i | 0 <= i < |parts|
      ensures
        var key, l := Meaning(parts[i].key), parts[i].value;
        if l == Atom("null") then key in r.nulls && key !in r.fields
        else key !in r.nulls && key in r.fields && r.fields[key] == Denoted(l)
    {
      MemberRecovered(parts, inner, i);
    }
    forall key | key in r.fields || key in r.nulls ensures exists i | 0 <= i < |parts| :: Meaning(parts[i].key) == key {
      var i := Source(parts, inner, key);
    }
  }

  /** Whatever is recorded comes from some member. */
  lemma Source(parts: seq<Part>, inner: string, key: string) returns (i: nat)
    requires Valid(Dict(parts, inner)) && EntriesOk(FlatAll(parts))
    requires forall k | 0 <= k < |parts| :: GlyphsOk(parts[k].key)
    requires var r := RecordAll(EMPTY, FlatAll(parts)); key in r.fields || key in r.nulls
    ensures i < |parts| && Meaning(parts[i].key) == key
  {
    hide Valid, RecordAll, GlyphsOk, Meaning, EntryOk, Flat, Key, IsNull, Shown;
    var xs := FlatAll(parts);
    RecordedWhere(EMPTY, xs, key);
    if key in RecordAll(EMPTY, xs).fields {
      i :| FirstField(xs, key, i);
    } else {
      i :| 0 <= i < |xs| && Key(xs[i]) == key && IsNull(xs[i].value);
    }
    KeyIs(parts, inner, i);
  }

  lemma DictText(parts: seq<Part>, inner: string)
    ensures Text(Dict(parts, inner)) == ObjectText(FlatAll(parts), inner)
  {
  }

  lemma KeyIs(parts: seq<Part>, inner: string, i: nat)
    requires Valid(Dict(parts, inner)) && i < |parts| && EntriesOk(FlatAll(parts)) && GlyphsOk(parts[i].key)
    ensures Key(FlatAll(parts)[i]) == Meaning(parts[i].key)
  {
    hide Meaning, GlyphsOk;
  }

  lemma ShownIs(parts: seq<Part>, inner: string, i: nat)
    requires Valid(Dict(parts, inner)) && i < |parts| && EntriesOk(FlatAll(parts)) && Valid(parts[i].value)
    ensures Shown(FlatAll(parts)[i]) == Denoted(parts[i].value)
  {
    hide Meaning, GlyphsOk;
  }

  lemma MemberRecovered(parts: seq<Part>, inner: string, i: nat)
    requires Valid(Dict(parts, inner)) && EntriesOk(FlatAll(parts)) && i < |parts|
    requires (forall k | 0 <= k < |parts| :: GlyphsOk(parts[k].key) && Valid(parts[k].value)) && DistinctKeys(parts)
    ensures var r := RecordAll(EMPTY, FlatAll(parts));
      var key, l := Meaning(parts[i].key), parts[i].value;
      if l == Atom("null") then key in r.nulls && key !in r.fields
      else key !in r.nulls && key in r.fields && r.fields[key] == Denoted(l)
  {
    hide Text, Valid, RecordAll, GlyphsOk, Meaning, EntryOk, IsNull, Key, Shown, Denoted;
    var xs, key := FlatAll(parts), Meaning(parts[i].key);
    forall k | 0 <= k < |parts| ensures Key(xs[k]) == key <==> k == i {
      KeyIs(parts, inner, k);
    }
    ShownIs(parts, inner, i);
    RecordedWhere(EMPTY, xs, key);
    NullIs(parts[i].value);
    if IsNull(xs[i].value) {
      assert SomeNull(xs, key);
    } else {
      assert FirstField(xs, key, i);
    }
  }

  // ------------------------------------------------------------------ printed text

  /** How the printer spells a character. */
  function PrintedGlyph(c: char): Glyph {
    if c == '"' || c == '\\' then Short(c)
    else if c == '\n' then Short('n')
    else if c == '\r' then Short('r')
    else if c == '\t' then Short('t')
    else if c == BACKSPACE then Short('b')
    else if c == FORM_FEED then Short('f')
    else if c as int < 0x20 then Code('0', '0', HEX[c as int / 16], HEX[c as int % 16])
    else Plain(c)
  }

  lemma HexDigits(n: nat)
    requires n < 16
    ensures HexDigit(HEX[n]) == Some(n)
  {
  }

  /** Escaping a character spells that character, and no control character stays as it is. */
  lemma EscapeSpells(c: char)
    ensures var g := PrintedGlyph(c);
      EscapeChar(c) == GlyphText(g) && GlyphOk(g) && Denotes(g) == [c] && (g.Plain? ==> c as int >= 0x20)
  {
    var n := c as int;
    if n < 0x20 {
      HexDigits(0);
      HexDigits(n / 16);
      HexDigits(n % 16);
    }
  }

  function PrintedGlyphs(s: string): seq<Glyph> {
    if s == "" then [] else [PrintedGlyph(s[0])] + PrintedGlyphs(s[1..])
  }

  /** A printed string is spelled as JSON spells it, and denotes what was printed. */
  lemma {:induction false} QuotedSpells(s: string)
    ensures var gs := PrintedGlyphs(s);
      GlyphsOk(gs) && Spelled(gs) == EscapeAll(s) && QuoteText(gs) == Quoted(s) && Meaning(gs) == s
    decreases |s|
  {
    hide EscapeChar, GlyphText, GlyphOk, Denotes, PrintedGlyph;
    if s != "" {
      EscapeSpells(s[0]);
      QuotedSpells(s[1..]);
      var gs := PrintedGlyphs(s);
      assert gs[1..] == PrintedGlyphs(s[1..]);
      assert [s[0]] + s[1..] == s;
    }
  }

  /** The layout without blanks. */
  function Compact(j: Json): Layout
    decreases j, 0
  {
    match j
    case Null => Atom("null")
    case Bool(b) => Atom(if b then "true" else "false")
    case Int(n) => Atom(IntText(n))
    case Real(t) => Atom(t)
    case Str(s) => Spelling(PrintedGlyphs(s))
    case Arr(xs) => List(CompactItems(xs), "")
    case Obj(ms) => Dict(CompactParts(ms), "")
  }

  function CompactItems(xs: seq<Json>): (r: seq<Item>)
    ensures |r| == |xs| && forall i | 0 <= i < |xs| :: r[i] == Item("", Compact(xs[i]), "")
    decreases xs, 1
  {
    if xs == [] then [] else [Item("", Compact(xs[0]), "")] + CompactItems(xs[1..])
  }

  function CompactParts(ms: seq<Member>): (r: seq<Part>)
    ensures |r| == |ms|
    ensures forall i | 0 <= i < |ms| :: r[i] == Part("", PrintedGlyphs(ms[i].key), "", "", Compact(ms[i].value), "")
    decreases ms, 1
  {
    if ms == [] then [] else [Part("", PrintedGlyphs(ms[0].key), "", "", Compact(ms[0].value), "")] + CompactParts(ms[1..])
  }

  lemma {:induction false} CompactText(j: Json)
    ensures Text(Compact(j)) == Write(j)
    decreases j, 0
  {
    match j
    case Str(s) => QuotedSpells(s);
    case Arr(xs) => if xs != [] { CompactItemsText(xs); }
    case Obj(ms) => if ms != [] { CompactPartsText(ms); }
    case _ =>
  }

  lemma {:induction false} CompactItemsText(xs: seq<Json>)
    requires xs != []
    ensures ItemsText(CompactItems(xs)) == WriteItems(xs, true) + "]"
    decreases xs, 1
  {
    hide Text, Write, Compact, WriteItems, CompactItems, ItemsText;
    FirstItem(xs);
    FirstWritten(xs);
    var items, more := CompactItems(xs), CompactItems(xs[1..]);
    assert items[1..] == more;
    CompactText(xs[0]);
    if |xs| == 1 {
      NoItems();
      LastText(Write(xs[0]));
    } else {
      CompactItemsText(xs[1..]);
      NextItem(xs[1..]);
      MoreText(Write(xs[0]), WriteItems(xs[1..], true), "]");
    }
  }

  lemma FirstItem(xs: seq<Json>)
    requires xs != []
    ensures CompactItems(xs)[1..] == CompactItems(xs[1..])
    ensures ItemsText(CompactItems(xs))
      == "" + (Text(Compact(xs[0])) + ("" + (if |xs| == 1 then "]" else "," + ItemsText(CompactItems(xs)[1..]))))
  {
    hide Text, Compact;
  }

  lemma FirstWritten(xs: seq<Json>)
    requires xs != []
    ensures WriteItems(xs, true) == "" + (Write(xs[0]) + WriteItems(xs[1..], false))
  {
    hide Write;
  }

  lemma NoItems()
    ensures WriteItems([], false) == "" && WriteMembers([], false) == ""
  {
  }

  lemma LastText(t: string)
    ensures "" + (t + ("" + "]")) == ("" + (t + "")) + "]"
  {
  }

  lemma MoreText(t: string, w: string, end: string)
    ensures "" + (t + ("" + ("," + (w + end)))) == ("" + (t + ("," + w))) + end
  {
    assert "" + ("," + (w + end)) == ("," + w) + end;
    assert t + (("," + w) + end) == (t + ("," + w)) + end;
  }

  lemma NextItem(xs: seq<Json>)
    requires xs != []
    ensures WriteItems(xs, false) == "," + WriteItems(xs, true)
  {
    hide Write;
    var t := Write(xs[0]) + WriteItems(xs[1..], false);
    assert "" + t == t;
  }

  lemma {:induction false} CompactPartsText(ms: seq<Member>)
    requires ms != []
    ensures EntriesText(FlatAll(CompactParts(ms))) == WriteMembers(ms, true) + "}"
    decreases ms, 1
  {
    hide Text, Write, Compact, EntryText, Quoted, Flat, PrintedGlyphs, WriteMembers;
    var parts, more := CompactParts(ms), CompactParts(ms[1..]);
    assert parts[1..] == more && FlatAll(parts)[1..] == FlatAll(more);
    CompactText(ms[0].value);
    FlatText(Compact(ms[0].value));
    QuotedSpells(ms[0].key);
    var k, t := Quoted(ms[0].key), Write(ms[0].value);
    var x := FlatAll(parts)[0];
    FirstMember(ms);
    if |ms| == 1 {
      TightEntry(x, "}");
      NoItems();
      LastMember(k, t);
    } else {
      CompactPartsText(ms[1..]);
      NextMember(ms[1..]);
      var w := WriteMembers(ms[1..], true);
      TightEntry(x, "," + (w + "}"));
      MoreMembers(k, t, w);
    }
  }

  lemma FirstMember(ms: seq<Member>)
    requires ms != []
    ensures WriteMembers(ms, true) == "" + (Quoted(ms[0].key) + (":" + (Write(ms[0].value) + WriteMembers(ms[1..], false))))
  {
    hide Write, Quoted;
  }

  lemma LastMember(k: string, t: string)
    ensures k + (":" + (t + "}")) == ("" + (k + (":" + (t + "")))) + "}"
  {
    assert t + "" == t;
    assert "" + (k + (":" + t)) == k + (":" + t);
    assert (":" + t) + "}" == ":" + (t + "}");
  }

  lemma MoreMembers(k: string, t: string, w: string)
    ensures k + (":" + (t + ("," + (w + "}")))) == ("" + (k + (":" + (t + ("," + w))))) + "}"
  {
    var tail := t + ("," + w);
    assert t + ("," + (w + "}")) == tail + "}";
    assert ":" + (tail + "}") == (":" + tail) + "}";
    assert "" + (k + (":" + tail)) == k + (":" + tail);
    assert k + ((":" + tail) + "}") == (k + (":" + tail)) + "}";
  }

  lemma TightEntry(x: Entry, rest: string)
    requires x.before == x.mid == x.gap == x.behind == ""
    ensures EntryText(x, rest) == QuoteText(x.key) + (":" + (ValueText(x.value) + rest))
  {
    hide QuoteText, ValueText;
    var k, v := QuoteText(x.key), ValueText(x.value);
    assert "" + rest == rest && "" + (v + rest) == v + rest;
    assert "" + (":" + (v + rest)) == ":" + (v + rest);
    assert "" + (k + (":" + (v + rest))) == k + (":" + (v + rest));
  }

  lemma NextMember(ms: seq<Member>)
    requires ms != []
    ensures WriteMembers(ms, false) == "," + WriteMembers(ms, true)
  {
    hide Write, Quoted;
    var t := Quoted(ms[0].key) + (":" + (Write(ms[0].value) + WriteMembers(ms[1..], false)));
    assert "" + t == t;
  }

  lemma NumberClean(t: string)
    requires NumberText(t)
    ensures AtomOk(t) && t != "null"
  {
    forall c | c in t ensures !Delimiter(c) && c != '"' && c != '{' && c != '[' && c != 'u' { NumberChar(c); }
    assert 'u' !in t && "null"[1] == 'u';
  }

  lemma NumberChar(c: char)
    requires c in NUMBER_CHARS
    ensures !Delimiter(c) && c != '"' && c != '{' && c != '[' && c != 'u'
  {
  }

  lemma IntClean(n: int)
    ensures NumberText(IntText(n))
  {
    assert forall c | c in "0123456789" :: c in NUMBER_CHARS;
  }

  lemma {:induction false} CompactValid(j: Json)
    requires Printable(j)
    ensures Valid(Compact(j)) && (Compact(j) == Atom("null") <==> j.Null?)
    decreases j
  {
    hide GlyphsOk, PrintedGlyphs, IntText, NumberText, AtomOk;
    match j
    case Null => Literals();
    case Bool(_) => Literals();
    case Int(n) =>
      IntClean(n);
      NumberClean(IntText(n));
    case Real(t) => NumberClean(t);
    case Str(s) => QuotedSpells(s);
    case Arr(xs) =>
      forall i | 0 <= i < |xs| ensures Valid(Compact(xs[i])) { assert xs[i] in xs; CompactValid(xs[i]); }
    case Obj(ms) =>
      forall i | 0 <= i < |ms| ensures Valid(Compact(ms[i].value)) && GlyphsOk(PrintedGlyphs(ms[i].key)) {
        assert ms[i] in ms;
        CompactValid(ms[i].value);
        QuotedSpells(ms[i].key);
      }
  }

  lemma Literals()
    ensures AtomOk("null") && AtomOk("true") && AtomOk("false") && "true" != "null" && "false" != "null"
  {
    assert "true"[0] != "null"[0] && "false"[0] != "null"[0];
  }

  /** The scanner undoes the printer: every member of a printed object with distinct keys comes
      back, a string as itself and any other value as its own print. */
  lemma PrintedRecovered(ms: seq<Member>, rest: string)
    requires forall m | m in ms :: Printable(m.value)
    requires forall i, k | 0 <= i < k < |ms| :: ms[i].key != ms[k].key
    ensures var r := ParseBody(Write(Obj(ms)) + rest);
      && r.Some?
      && (forall i | 0 <= i < |ms| :: if ms[i].value.Null?
            then ms[i].key in r.value.nulls && ms[i].key !in r.value.fields
            else ms[i].key !in r.value.nulls && ms[i].key in r.value.fields
                 && r.value.fields[ms[i].key] == if ms[i].value.Str? then ms[i].value.s else Write(ms[i].value))
      && (forall key | key in r.value.fields || key in r.value.nulls :: exists i | 0 <= i < |ms| :: ms[i].key == key)
  {
    hide Text, Write, ParseBody, Printable, Valid, GlyphsOk, Meaning, PrintedGlyphs, Compact, Blank, Denoted;
    var parts := CompactParts(ms);
    PrintedLayout(ms);
    assert "" + (Write(Obj(ms)) + rest) == Write(Obj(ms)) + rest;
    forall i | 0 <= i < |ms| ensures GlyphsOk(parts[i].key) && Meaning(parts[i].key) == ms[i].key { QuotedSpells(ms[i].key); }
    NoBlanks();
    DistinctKeysRecovered("", parts, "", rest);
    forall i | 0 <= i < |ms|
      ensures parts[i].value == Atom("null") <==> ms[i].value.Null?
      ensures Denoted(parts[i].value) == if ms[i].value.Str? then ms[i].value.s else Write(ms[i].value)
    {
      assert ms[i] in ms;
      PrintedValue(ms[i].value);
    }
    var r := ParseBody(Write(Obj(ms)) + rest).value;
    forall key | key in r.fields || key in r.nulls ensures exists i | 0 <= i < |ms| :: ms[i].key == key {
      var i :| 0 <= i < |parts| && Meaning(parts[i].key) == key;
      assert ms[i].key == key;
    }
  }

  lemma PrintedLayout(ms: seq<Member>)
    requires forall m | m in ms :: Printable(m.value)
    ensures Valid(Dict(CompactParts(ms), "")) && Text(Dict(CompactParts(ms), "")) == Write(Obj(ms))
  {
    CompactText(Obj(ms));
    CompactValid(Obj(ms));
  }

  lemma PrintedValue(j: Json)
    requires Printable(j)
    ensures var l := Compact(j);
      && Valid(l) && (l == Atom("null") <==> j.Null?)
      && Denoted(l) == if j.Str? then j.s else Write(j)
  {
    hide Text, Write, GlyphsOk, Meaning, PrintedGlyphs, Valid;
    CompactText(j);
    CompactValid(j);
    if j.Str? { QuotedSpells(j.s); }
  }

  // ------------------------------------------------------------------ what printing writes

  /** Texts with commas between them. */
  function Joined(ts: seq<string>): string {
    if ts == [] then "" else if |ts| == 1 then ts[0] else ts[0] + "," + Joined(ts[1..])
  }

  /** The literals and numerals of the standard. */
  lemma ScalarsPrinted(n: int, t: string, s: string)
    ensures Write(Null) == "null" && Write(Bool(true)) == "true" && Write(Bool(false)) == "false"
    ensures NumeralValue(Write(Int(n))) == n && Write(Real(t)) == t
    ensures Write(Str(s)) == "\"" + EscapeAll(s) + "\""
  {
    IntTextValue(n);
    assert "\"" + (EscapeAll(s) + "\"") == "\"" + EscapeAll(s) + "\"";
  }

  lemma ArrayPrinted(xs: seq<Json>)
    ensures Write(Arr(xs)) == "[" + Joined(seq(|xs|, i requires 0 <= i < |xs| => Write(xs[i]))) + "]"
  {
    hide WriteItems, Joined;
    ItemsJoined(xs);
    var t := Joined(seq(|xs|, i requires 0 <= i < |xs| => Write(xs[i])));
    assert "[" + (t + "]") == "[" + t + "]";
  }

  lemma {:induction false} ItemsJoined(xs: seq<Json>)
    ensures WriteItems(xs, true) == Joined(seq(|xs|, i requires 0 <= i < |xs| => Write(xs[i])))
    decreases |xs|
  {
    hide Write;
    if xs != [] {
      var ts, rest := seq(|xs|, i requires 0 <= i < |xs| => Write(xs[i])), xs[1..];
      assert ts[1..] == seq(|rest|, i requires 0 <= i < |rest| => Write(rest[i]));
      ItemsJoined(rest);
      assert "" + (Write(xs[0]) + WriteItems(rest, false)) == Write(xs[0]) + WriteItems(rest, false);
      if rest != [] {
        var x, more := Write(rest[0]), WriteItems(rest[1..], false);
        assert "," + (x + more) == "," + ("" + (x + more));
        assert Write(xs[0]) + ("," + (x + more)) == Write(xs[0]) + "," + (x + more);
      }
    }
  }

  lemma ObjectPrinted(ms: seq<Member>)
    ensures Write(Obj(ms))
      == "{" + Joined(seq(|ms|, i requires 0 <= i < |ms| => Quoted(ms[i].key) + ":" + Write(ms[i].value))) + "}"
  {
    hide WriteMembers, Joined, Quoted;
    MembersJoined(ms);
    var t := Joined(seq(|ms|, i requires 0 <= i < |ms| => Quoted(ms[i].key) + ":" + Write(ms[i].value)));
    assert "{" + (t + "}") == "{" + t + "}";
  }

  lemma {:induction false} MembersJoined(ms: seq<Member>)
    ensures WriteMembers(ms, true)
      == Joined(seq(|ms|, i requires 0 <= i < |ms| => Quoted(ms[i].key) + ":" + Write(ms[i].value)))
    decreases |ms|
  {
    hide Write, Quoted;
    if ms != [] {
      var rest := ms[1..];
      var ts := seq(|ms|, i requires 0 <= i < |ms| => Quoted(ms[i].key) + ":" + Write(ms[i].value));
      assert ts[1..] == seq(|rest|, i requires 0 <= i < |rest| => Quoted(rest[i].key) + ":" + Write(rest[i].value));
      MembersJoined(rest);
      var k, v, more := Quoted(ms[0].key), Write(ms[0].value), WriteMembers(rest, false);
      assert "" + (k + (":" + (v + more))) == (k + ":" + v) + more;
      if rest != [] {
        var inner := Quoted(rest[0].key) + (":" + (Write(rest[0].value) + WriteMembers(rest[1..], false)));
        assert more == "," + inner && WriteMembers(rest, true) == "" + inner == inner;
        assert (k + ":" + v) + ("," + inner) == (k + ":" + v) + "," + inner;
      }
    }
  }
}
