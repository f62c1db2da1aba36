/** What a header section says: which lines count as a length, a coding or a connection option,
    up to ASCII case, and what they add up to. */
module HttpMeaning {
  import opened Basics
  import opened HttpSyntax

  // ------------------------------------------------------------------ letters

  /** The same character, or the two cases of one letter. */
  predicate SameLetter(a: char, b: char) {
    a == b || ('A' <= a <= 'Z' && a as int + 32 == b as int) || ('A' <= b <= 'Z' && b as int + 32 == a as int)
  }

  predicate SameText(s: string, t: string) {
    |s| == |t| && forall i | 0 <= i < |s| :: SameLetter(s[i], t[i])
  }

  lemma {:induction false} LowerAllIs(s: string)
    ensures forall i | 0 <= i < |s| :: LowerAll(s)[i] == Lower(s[i])
  {
    if s != "" {
      LowerAllIs(s[1..]);
      assert forall i | 0 < i < |s| :: LowerAll(s)[i] == LowerAll(s[1..])[i - 1] && s[i] == s[1..][i - 1];
    }
  }

  /** Two texts are equal in lower case exactly when they are the same up to case. */
  lemma LowerSame(s: string, t: string)
    ensures LowerAll(s) == LowerAll(t) <==> SameText(s, t)
  {
    hide LowerAll;
    LowerAllIs(s);
    LowerAllIs(t);
    forall a: char, b: char ensures Lower(a) == Lower(b) <==> SameLetter(a, b) { }
    if SameText(s, t) {
      assert LowerAll(s) == LowerAll(t);
    } else if LowerAll(s) == LowerAll(t) {
      forall i | 0 <= i < |s| ensures SameLetter(s[i], t[i]) {
        assert LowerAll(s)[i] == LowerAll(t)[i];
      }
    }
  }

  lemma LowerIs(s: string, t: string)
    requires forall i | 0 <= i < |t| :: !('A' <= t[i] <= 'Z')
    ensures LowerAll(s) == t <==> SameText(s, t)
  {
    hide LowerAll, SameText;
    LowerAllIs(t);
    assert LowerAll(t) == t;
    LowerSame(s, t);
  }

  // ------------------------------------------------------------------ lengths

  predicate Digits(s: string) { forall c | c in s :: '0' <= c <= '9' }

  lemma DigitsPrefix(s: string, k: nat)
    requires Digits(s) && k < |s|
    ensures Digits(s[..k]) && '0' <= s[k] <= '9'
  {
    assert s[k] in s;
    forall c | c in s[..k] ensures '0' <= c <= '9' {
      assert c in s;
    }
  }

  /** The number a numeral stands for. */
  function Decimal(s: string): nat
    requires Digits(s)
    decreases |s|
  {
    if s == "" then 0 else
    DigitsPrefix(s, |s| - 1);
    10 * Decimal(s[..|s| - 1]) + (s[|s| - 1] as nat - '0' as nat)
  }

  /** The value begins with a numeral over the limit. */
  ghost predicate Over(value: string, limit: nat) {
    exists k | 0 <= k <= |value| :: Digits(value[..k]) && Decimal(value[..k]) > limit
  }

  datatype Declared = NotDecimal | TooBig | Exactly(n: nat)

  /** What a length line declares: its number, if that is within the limit. A numeral over the
      limit is reported as soon as it is, and at the largest limit as zero. */
  ghost function LengthOf(value: string, maxBody: nat): Declared {
    if maxBody < 0xFFFF_FFFF_FFFF_FFFF then
      if Over(value, maxBody) then TooBig
      else if Digits(value) then Exactly(Decimal(value)) else NotDecimal
    else
      if Over(value, 0xFFFF_FFFF_FFFF_FFFF) then Exactly((maxBody + 1) % 0x1_0000_0000_0000_0000)
      else if Digits(value) then Exactly(Decimal(value)) else NotDecimal
  }

  /** The digit loop reads what a length line declares, for every value and limit. */
  lemma LengthReads(value: string, maxBody: nat)
    ensures var r := LengthFrom(value, 0, 0, maxBody);
      match LengthOf(value, maxBody)
      case NotDecimal => r.None?
      case TooBig => r.Some? && r.value > maxBody
      case Exactly(n) => r == Some(n) && n <= maxBody
  {
    hide LengthFrom;
    assert value[..0] == "";
    LengthReadsFrom(value, 0, 0, maxBody);
  }

  /** The largest number the loop goes on with. */
  function Limit(maxBody: nat): nat {
    if maxBody < 0xFFFF_FFFF_FFFF_FFFF then maxBody else 0xFFFF_FFFF_FFFF_FFFF
  }

  lemma OneMore(value: string, i: nat)
    requires i < |value| && Digits(value[..i]) && '0' <= value[i] <= '9'
    ensures Digits(value[..i + 1])
    ensures Decimal(value[..i + 1]) == 10 * Decimal(value[..i]) + (value[i] as nat - '0' as nat)
  {
    assert value[..i + 1] == value[..i] + [value[i]] && value[..i + 1][..i] == value[..i];
  }

  lemma {:induction false} LengthReadsFrom(value: string, i: nat, v: nat, maxBody: nat)
    requires i <= |value| && Digits(value[..i]) && Decimal(value[..i]) == v
    requires forall k | 0 <= k <= i :: Digits(value[..k]) ==> Decimal(value[..k]) <= Limit(maxBody)
    ensures var r := LengthFrom(value, i, v, maxBody);
      match LengthOf(value, maxBody)
      case NotDecimal => r.None?
      case TooBig => r.Some? && r.value > maxBody
      case Exactly(n) => r == Some(n) && n <= maxBody
    decreases |value| - i
  {
    if i == |value| {
      assert value[..i] == value;
    } else if !('0' <= value[i] <= '9') {
      assert forall k | i < k <= |value| :: value[i] in value[..k];
      assert value[i] in value;
      assert !Over(value, Limit(maxBody));
    } else {
      var next := v * 10 + (value[i] as nat - '0' as nat);
      OneMore(value, i);
      if next <= Limit(maxBody) {
        LengthReadsFrom(value, i + 1, next, maxBody);
      } else {
        assert Over(value, Limit(maxBody));
      }
    }
  }

  // ------------------------------------------------------------------ header lines

  /** What the header lines say together, in order. */
  function NoteAll(g: Fields, hs: seq<Header>, maxBody: nat): Outcome<Fields>
    decreases |hs|
  {
    if hs == [] then Ok(g, 0) else
    var n := Note(g, hs[0], maxBody);
    if n.Ok? then NoteAll(n.value, hs[1..], maxBody) else n
  }

  /** Header lines that decide something. */
  predicate IsLength(h: Header) { SameText(h.0, "content-length") }

  predicate IsCoding(h: Header) { SameText(h.0, "transfer-encoding") }

  predicate IsPersistence(h: Header) {
    SameText(h.0, "connection") && (SameText(h.1, "close") || SameText(h.1, "keep-alive"))
  }

  predicate Persists(h: Header) { SameText(h.1, "keep-alive") }

  /** A length within the limit, and no coding but chunked. */
  ghost predicate Acceptable(h: Header, maxBody: nat) {
    && (IsLength(h) ==> LengthOf(h.1, maxBody).Exactly?)
    && (IsCoding(h) ==> SameText(h.1, "chunked"))
  }

  /** The length a length line sets. */
  ghost function LengthSet(h: Header, maxBody: nat): Option<nat> {
    match LengthOf(h.1, maxBody)
    case Exactly(n) => Some(n)
    case _ => None
  }

  /** The last header line of a kind. */
  ghost predicate LastOf(hs: seq<Header>, kind: Header -> bool, i: int) {
    0 <= i < |hs| && kind(hs[i]) && forall k | i < k < |hs| :: !kind(hs[k])
  }

  ghost predicate NoneOf(hs: seq<Header>, kind: Header -> bool) {
    forall k | 0 <= k < |hs| :: !kind(hs[k])
  }

  lemma LastInFront(h: Header, hs: seq<Header>, kind: Header -> bool)
    ensures forall i | 0 <= i < |hs| :: LastOf([h] + hs, kind, i + 1) <==> LastOf(hs, kind, i)
    ensures LastOf([h] + hs, kind, 0) <==> kind(h) && NoneOf(hs, kind)
    ensures NoneOf([h] + hs, kind) <==> !kind(h) && NoneOf(hs, kind)
  {
    var all := [h] + hs;
    assert all[0] == h;
    assert forall k | 0 <= k < |hs| :: all[k + 1] == hs[k];
    assert forall k | 0 < k < |all| :: all[k] == hs[k - 1];
  }

  ghost predicate AllAcceptable(hs: seq<Header>, maxBody: nat) {
    forall i | 0 <= i < |hs| :: Acceptable(hs[i], maxBody)
  }

  lemma AcceptableInFront(h: Header, hs: seq<Header>, maxBody: nat)
    ensures AllAcceptable([h] + hs, maxBody) <==> Acceptable(h, maxBody) && AllAcceptable(hs, maxBody)
  {
    hide Acceptable;
    var all := [h] + hs;
    assert all[0] == h && forall i | 0 <= i < |hs| :: all[i + 1] == hs[i];
    assert forall i | 0 < i < |all| :: all[i] == hs[i - 1];
  }

  /** The meaning of a header section: it is accepted exactly when every line is; all
      headers are kept in order; any coding line makes the body chunked; the last length
      and the last close or keep-alive count. */
  ghost predicate Means(g: Fields, hs: seq<Header>, maxBody: nat, r: Outcome<Fields>) {
    && (r.Ok? <==> AllAcceptable(hs, maxBody))
    && (r.Ok? ==>
          && r.value.headers == g.headers + hs
          && (r.value.chunked <==> g.chunked || !NoneOf(hs, IsCoding))
          && (NoneOf(hs, IsLength) ==> r.value.length == g.length)
          && (forall i | 0 <= i < |hs| && LastOf(hs, IsLength, i) :: r.value.length == LengthSet(hs[i], maxBody))
          && (NoneOf(hs, IsPersistence) ==> r.value.keepAlive == g.keepAlive)
          && (forall i | 0 <= i < |hs| && LastOf(hs, IsPersistence, i) :: r.value.keepAlive == Persists(hs[i])))
  }

  lemma {:induction false} NoteAllMeans(g: Fields, hs: seq<Header>, maxBody: nat)
    ensures Means(g, hs, maxBody, NoteAll(g, hs, maxBody))
    decreases |hs|
  {
    hide Note, Acceptable, IsCoding, IsLength, IsPersistence, Persists, LengthSet, Means;
    if hs == [] {
      NoHeaders(g, maxBody);
    } else {
      var h, rest := hs[0], hs[1..];
      assert hs == [h] + rest;
      NoteMeans(g, h, maxBody);
      var n := Note(g, h, maxBody);
      if n.Ok? {
        NoteAllMeans(n.value, rest, maxBody);
        MeansCons(g, n.value, h, rest, maxBody, NoteAll(g, hs, maxBody));
      } else {
        MeansRefused(g, h, rest, maxBody, n);
      }
    }
  }

  lemma NoHeaders(g: Fields, maxBody: nat)
    ensures Means(g, [], maxBody, Ok(g, 0))
  {
    assert g.headers + [] == g.headers;
  }

  lemma MeansRefused(g: Fields, h: Header, rest: seq<Header>, maxBody: nat, r: Outcome<Fields>)
    requires !r.Ok? && !Acceptable(h, maxBody)
    ensures Means(g, [h] + rest, maxBody, r)
  {
    hide Acceptable;
    AcceptableInFront(h, rest, maxBody);
  }

  /** One line. */
  lemma NoteMeans(g: Fields, h: Header, maxBody: nat)
    ensures var n := Note(g, h, maxBody);
      && (n.Ok? <==> Acceptable(h, maxBody))
      && (n.Ok? ==>
            && n.value.headers == g.headers + [h]
            && (n.value.chunked <==> g.chunked || IsCoding(h))
            && n.value.length == (if IsLength(h) then LengthSet(h, maxBody) else g.length)
            && n.value.keepAlive == (if IsPersistence(h) then Persists(h) else g.keepAlive))
      && (!n.Ok? ==> n == if IsLength(h) && LengthOf(h.1, maxBody).TooBig? then Large else Bad)
  {
    hide LengthFrom, LowerAll, LengthOf, SameText;
    LowerIs(h.0, "content-length");
    LowerIs(h.0, "connection");
    LowerIs(h.0, "transfer-encoding");
    LowerIs(h.1, "close");
    LowerIs(h.1, "keep-alive");
    LowerIs(h.1, "chunked");
    LengthReads(h.1, maxBody);
    assert "close" != "keep-alive" by { assert |"close"| == 5 && |"keep-alive"| == 10; }
    assert "content-length" != "connection" && "content-length" != "transfer-encoding" && "connection" != "transfer-encoding" by {
      assert |"content-length"| == 14 && |"connection"| == 10 && |"transfer-encoding"| == 17;
    }
  }

  lemma MeansCons(g: Fields, n: Fields, h: Header, rest: seq<Header>, maxBody: nat, r: Outcome<Fields>)
    requires Acceptable(h, maxBody) && Means(n, rest, maxBody, r)
    requires n.headers == g.headers + [h] && (n.chunked <==> g.chunked || IsCoding(h))
    requires n.length == (if IsLength(h) then LengthSet(h, maxBody) else g.length)
    requires n.keepAlive == (if IsPersistence(h) then Persists(h) else g.keepAlive)
    ensures Means(g, [h] + rest, maxBody, r)
  {
    hide Acceptable, IsCoding, IsLength, IsPersistence, Persists, LengthSet, AllAcceptable, NoneOf, LastOf;
    var hs := [h] + rest;
    AcceptableInFront(h, rest, maxBody);
    LastInFront(h, rest, IsCoding);
    if r.Ok? {
      assert n.headers + rest == g.headers + hs;
      forall i | 0 <= i < |hs| && LastOf(hs, IsLength, i) ensures r.value.length == LengthSet(hs[i], maxBody) {
        LastCases(h, rest, IsLength, i);
      }
      LastInFront(h, rest, IsLength);
      forall i | 0 <= i < |hs| && LastOf(hs, IsPersistence, i) ensures r.value.keepAlive == Persists(hs[i]) {
        LastCases(h, rest, IsPersistence, i);
      }
      LastInFront(h, rest, IsPersistence);
    }
  }

  lemma LastCases(h: Header, rest: seq<Header>, kind: Header -> bool, i: int)
    requires LastOf([h] + rest, kind, i)
    ensures 0 <= i <= |rest| && ([h] + rest)[i] == if i == 0 then h else rest[i - 1]
    ensures if i == 0 then kind(h) && NoneOf(rest, kind) else LastOf(rest, kind, i - 1)
  {
    LastInFront(h, rest, kind);
  }

  /** The first line that is not acceptable decides the refusal: too large for a length
      over the limit, bad for anything else. */
  lemma {:induction false} NoteAllRefuses(g: Fields, hs: seq<Header>, maxBody: nat) returns (i: nat)
    requires !NoteAll(g, hs, maxBody).Ok?
    ensures i < |hs| && !Acceptable(hs[i], maxBody)
    ensures forall k | 0 <= k < i :: Acceptable(hs[k], maxBody)
    ensures NoteAll(g, hs, maxBody) == if IsLength(hs[i]) && LengthOf(hs[i].1, maxBody).TooBig? then Large else Bad
    decreases |hs|
  {
    hide Note, Acceptable, IsLength, LengthOf;
    var n := Note(g, hs[0], maxBody);
    NoteMeans(g, hs[0], maxBody);
    if n.Ok? {
      var k := NoteAllRefuses(n.value, hs[1..], maxBody);
      i := k + 1;
      forall k | 0 <= k < i ensures Acceptable(hs[k], maxBody) {
        if k > 0 { assert hs[k] == hs[1..][k - 1]; }
      }
    } else {
      i := 0;
    }
  }
}
