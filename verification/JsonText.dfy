/** JSON values and the printer the server writes response bodies with. */
module JsonText {
  import opened Basics

  /** `Real` carries the text the C library prints for the number. */
  datatype Json =
    | Null
    | Bool(b: bool)
    | Int(n: int)
    | Real(text: string)
    | Str(s: string)
    | Arr(items: seq<Json>)
    | Obj(members: seq<Member>)

  datatype Member = Member(key: string, value: Json)

  const NUMBER_CHARS: string := "0123456789+-.einfa"

  /** Real numbers print as digits, sign, point and exponent, or as inf and nan. */
  ghost predicate NumberText(t: string) {
    t != "" && forall c | c in t :: c in NUMBER_CHARS
  }

  ghost predicate Printable(j: Json) {
    match j
    case Real(t) => NumberText(t)
    case Arr(xs) => forall x | x in xs :: Printable(x)
    case Obj(ms) => forall m | m in ms :: Printable(m.value)
    case _ => true
  }

  function Digit(n: nat): (c: char)
    requires n < 10
    ensures c in "0123456789"
  {
    "0123456789"[n]
  }

  function NatText(n: nat): (t: string)
    ensures t != "" && forall c | c in t :: c in "0123456789"
  {
    if n < 10 then [Digit(n)] else NatText(n / 10) + [Digit(n % 10)]
  }

  function IntText(n: int): string {
    if n >= 0 then NatText(n) else "-" + NatText(-n)
  }

  const HEX: string := "0123456789abcdef"

  /** The escape of one character inside a string. */
  function EscapeChar(c: char): (t: string)
    ensures t != ""
  {
    if c == '"' then "\\\""
    else if c == '\\' then "\\\\"
    else if c == '\n' then "\\n"
    else if c == '\r' then "\\r"
    else if c == '\t' then "\\t"
    else if c == BACKSPACE then "\\b"
    else if c == FORM_FEED then "\\f"
    else if c as int < 0x20 then "\\u00" + [HEX[c as int / 16], HEX[c as int % 16]]
    else [c]
  }

  function EscapeAll(s: string): string {
    if s == "" then "" else EscapeChar(s[0]) + EscapeAll(s[1..])
  }

  function Quoted(s: string): string {
    "\"" + (EscapeAll(s) + "\"")
  }

  /** The loop of the source, appending to the shared output. */
  method Escape(out: string, s: string) returns (r: string)
    ensures r == out + Quoted(s)
  {
    hide EscapeChar;
    r := out + "\"";
    var i := 0;
    while i < |s|
      invariant 0 <= i <= |s|
      invariant r + EscapeAll(s[i..]) == out + "\"" + EscapeAll(s)
    {
      assert s[i..][1..] == s[i + 1..];
      assert r + (EscapeChar(s[i]) + EscapeAll(s[i + 1..])) == (r + EscapeChar(s[i])) + EscapeAll(s[i + 1..]);
      r := r + EscapeChar(s[i]);
      i := i + 1;
    }
    assert r == out + "\"" + EscapeAll(s);
    r := r + "\"";
  }

  function Write(j: Json): (t: string)
    decreases j, 0
  {
    match j
    case Null => "null"
    case Bool(b) => if b then "true" else "false"
    case Int(n) => IntText(n)
    case Real(t) => t
    case Str(s) => Quoted(s)
    case Arr(xs) => "[" + (WriteItems(xs, true) + "]")
    case Obj(ms) => "{" + (WriteMembers(ms, true) + "}")
  }

  function Comma(first: bool): string { if first then "" else "," }

  function WriteItems(xs: seq<Json>, first: bool): string
    decreases xs, 1
  {
    if xs == [] then "" else Comma(first) + (Write(xs[0]) + WriteItems(xs[1..], false))
  }

  function WriteMembers(ms: seq<Member>, first: bool): string
    decreases ms, 1
  {
    if ms == [] then "" else
    Comma(first) + (Quoted(ms[0].key) + (":" + (Write(ms[0].value) + WriteMembers(ms[1..], false))))
  }

  /** The number a numeral stands for. */
  function NumeralValue(t: string): int
    decreases |t|
  {
    if t == "" then 0
    else if t[0] == '-' then -NumeralValue(t[1..])
    else 10 * NumeralValue(t[..|t| - 1]) + (t[|t| - 1] as int - '0' as int)
  }

  lemma {:induction false} NatTextValue(n: nat)
    ensures NumeralValue(NatText(n)) == n
  {
    var t := NatText(n);
    assert t[0] in t;
    assert '-' !in "0123456789";
    if n >= 10 {
      NatTextValue(n / 10);
      assert t[..|t| - 1] == NatText(n / 10);
    } else {
      assert t[..|t| - 1] == "";
    }
  }

  /** Printing an integer writes its numeral. */
  lemma IntTextValue(n: int)
    ensures NumeralValue(IntText(n)) == n
  {
    if n >= 0 {
      NatTextValue(n);
    } else {
      NatTextValue(-n);
      assert IntText(n)[1..] == NatText(-n);
    }
  }

  lemma {:induction false} NatTextPlain(n: nat)
    ensures NatText(n)[0] == '0' <==> n == 0
    ensures n == 0 ==> NatText(n) == "0"
  {
    if n >= 10 { NatTextPlain(n / 10); }
  }

  /** The numeral is the plain one: a sign exactly for negative numbers, and no leading zero. */
  lemma IntTextPlain(n: int)
    ensures var t := IntText(n);
      && (t[0] == '-' <==> n < 0)
      && (n == 0 ==> t == "0") && (n > 0 ==> t[0] != '0') && (n < 0 ==> |t| > 1 && t[1] != '0')
  {
    NatTextPlain(if n >= 0 then n else -n);
    assert '-' !in "0123456789";
    assert n >= 0 ==> NatText(n)[0] in NatText(n);
  }
}
