/** A request is decided by its own bytes: while the parser asks for more, whatever it reads
    in the end ends behind what it has; so a request that is not chunked is read as soon as
    its last byte is there, and not before. */
module HttpExtent {
  import opened Basics
  import opened HttpSyntax
  import opened HttpPrefix

  lemma {:induction false} TokenLate(d: string, x: string, p: nat, stop: char)
    requires Token(d, p, stop).More? && Token(d + x, p, stop).Ok?
    ensures Token(d + x, p, stop).pos >= |d|
    decreases |d| - p
  {
    hide IsToken;
    if p < |d| { TokenLate(d, x, p + 1, stop); }
  }

  lemma {:induction false} TargetLate(d: string, x: string, p: nat)
    requires Target(d, p).More? && Target(d + x, p).Ok?
    ensures Target(d + x, p).pos >= |d|
    decreases |d| - p
  {
    if p < |d| { TargetLate(d, x, p + 1); }
  }

  lemma {:induction false} FindLate(d: string, x: string, p: nat, c: char)
    requires p <= |d| && Find(d, p, c) == |d|
    ensures Find(d + x, p, c) >= |d|
    decreases |d| - p
  {
    if p < |d| { FindLate(d, x, p + 1, c); }
  }

  lemma {:induction false} SkipBlankLate(d: string, x: string, p: nat)
    requires p <= |d| && SkipBlank(d, p) == |d|
    ensures SkipBlank(d + x, p) >= |d|
    decreases |d| - p
  {
    if p < |d| { SkipBlankLate(d, x, p + 1); }
  }

  lemma RequestLineLate(d: string, x: string)
    requires RequestLine(d).More? && RequestLine(d + x).Ok?
    ensures RequestLine(d + x).pos > |d|
  {
    hide Token, Target, MethodOf, LineOf;
    var t := Token(d, 0, ' ');
    if t.More? {
      TokenLate(d, x, 0, ' ');
    } else {
      TokenStable(d, x, 0, ' ');
      TargetLate(d, x, t.pos + 1);
    }
  }

  lemma FieldLate(d: string, x: string, p: nat)
    requires Field(d, p).More? && Field(d + x, p).Ok?
    ensures Field(d + x, p).pos > |d|
  {
    hide Token, Find, SkipBlank, TrimRight;
    var t := Token(d, p, ':');
    if t.More? {
      TokenLate(d, x, p, ':');
    } else {
      TokenStable(d, x, p, ':');
      var from := SkipBlank(d, t.pos + 1);
      if from == |d| {
        SkipBlankLate(d, x, t.pos + 1);
      } else {
        SkipBlankStable(d, x, t.pos + 1);
        if Find(d, from, '\r') == |d| { FindLate(d, x, from, '\r'); } else { FindStable(d, x, from, '\r'); }
      }
    }
  }

  lemma {:induction false} SectionLate(d: string, x: string, p: nat, f: Fields, maxBody: nat)
    requires Section(d, p, f, maxBody).More? && Section(d + x, p, f, maxBody).Ok?
    ensures Section(d + x, p, f, maxBody).pos > |d|
    decreases |d| - p
  {
    hide Field, Note;
    if p < |d| && d[p] != '\r' {
      var h := Field(d, p);
      if h.More? {
        FieldLate(d, x, p);
        SectionFrom(d + x, p, f, maxBody);
      } else {
        FieldStable(d, x, p);
        SectionLate(d, x, h.pos, Note(f, h.value, maxBody).value, maxBody);
      }
    }
  }

  /** A section ends behind its first line. */
  lemma SectionFrom(d: string, p: nat, f: Fields, maxBody: nat)
    requires Section(d, p, f, maxBody).Ok? && p < |d| && d[p] != '\r'
    ensures Field(d, p).Ok? && Section(d, p, f, maxBody).pos > Field(d, p).pos
  {
    hide Field, Note;
  }

  lemma HeadLate(d: string, x: string, maxBody: nat)
    requires HeadOf(d, maxBody).More? && HeadOf(d + x, maxBody).Ok?
    ensures HeadOf(d + x, maxBody).pos > |d|
  {
    hide RequestLine, Section, Find;
    LinePos(d);
    LinePos(d + x);
    var l := RequestLine(d);
    if l.More? {
      RequestLineLate(d, x);
    } else {
      RequestLineStable(d, x);
      var v := Version(d, l.pos);
      if v.Ok? {
        VersionStable(d, x, l.pos);
        SectionLate(d, x, v.pos, Fields(v.value == HTTP11, [], None, false), maxBody);
      }
    }
  }

  /** What the parser still waits for lies behind what it has. */
  lemma ParseLate(d: string, x: string, maxBody: nat)
    requires Parse(d, maxBody).Incomplete? && Parse(d + x, maxBody).Done?
    requires !HeadOf(d + x, maxBody).value.fields.chunked
    ensures Parse(d + x, maxBody).consumed > |d|
  {
    hide HeadOf, Chunks;
    if HeadOf(d, maxBody).More? {
      HeadLate(d, x, maxBody);
    } else {
      HeadStable(d, x, maxBody);
    }
  }

  /** A request that is not chunked is read from exactly its own bytes: the verdict is there
      once they are, and is not before. */
  lemma DecidedByOwnBytes(d: string, n: nat, maxBody: nat)
    requires Parse(d, maxBody).Done? && !HeadOf(d, maxBody).value.fields.chunked && n <= |d|
    ensures if n < Parse(d, maxBody).consumed then Parse(d[..n], maxBody).Incomplete? else Parse(d[..n], maxBody) == Parse(d, maxBody)
  {
    hide HeadOf, Chunks;
    assert d == d[..n] + d[n..];
    var v := Parse(d[..n], maxBody);
    if !HeadOf(d[..n], maxBody).More? { HeadStable(d[..n], d[n..], maxBody); }
    if v.Incomplete? {
      ParseLate(d[..n], d[n..], maxBody);
    } else {
      ParseStable(d[..n], d[n..], maxBody);
    }
  }
}
