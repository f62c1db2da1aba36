/** Texts standing at positions of a longer text. */
module TextAt {

  /** The text t stands at position p. */
  ghost predicate At(d: string, p: nat, t: string) {
    p + |t| <= |d| && d[p..p + |t|] == t
  }

  lemma AtSplit(d: string, p: nat, a: string, b: string)
    requires At(d, p, a + b)
    ensures At(d, p, a) && At(d, p + |a|, b)
  {
    var whole := d[p..p + |a + b|];
    assert d[p..p + |a|] == whole[..|a|];
    assert d[p + |a|..p + |a| + |b|] == whole[|a|..];
  }

  lemma AtJoin(d: string, p: nat, a: string, b: string)
    requires At(d, p, a) && At(d, p + |a|, b)
    ensures At(d, p, a + b)
  {
    assert d[p..p + |a| + |b|] == d[p..p + |a|] + d[p + |a|..p + |a| + |b|];
  }

  lemma AtChar(d: string, p: nat, c: char, b: string)
    requires At(d, p, [c] + b)
    ensures p < |d| && d[p] == c && At(d, p + 1, b)
  {
    AtSplit(d, p, [c], b);
    assert d[p..p + 1][0] == c;
  }

  lemma AtTail(d: string, p: nat, t: string)
    requires At(d, p, t) && t != ""
    ensures p < |d| && d[p] == t[0] && t[0] in t && At(d, p + 1, t[1..]) && [t[0]] + t[1..] == t
  {
    assert [t[0]] + t[1..] == t;
    AtChar(d, p, t[0], t[1..]);
  }

  lemma AtIndex(d: string, p: nat, t: string, k: nat)
    requires At(d, p, t) && k < |t|
    ensures p + k < |d| && d[p + k] == t[k]
  {
    assert d[p..p + |t|][k] == t[k];
  }

  lemma SliceAt(d: string, p: nat, t: string)
    requires At(d, p, t)
    ensures p + |t| <= |d| && d[p..p + |t|] == t
  {
  }

  lemma LineEndAt(d: string, p: nat)
    requires At(d, p, "\r\n")
    ensures p + 2 <= |d| && d[p] == '\r' && d[p + 1] == '\n'
  {
    AtIndex(d, p, "\r\n", 0);
    AtIndex(d, p, "\r\n", 1);
  }
}
