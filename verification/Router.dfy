/** The trie router and the plain list search that it stands for.

    A registered pattern is its list of segments; a segment that starts with a colon
    matches anything and is captured under the rest of its name. */
module Router {
  import opened Basics

  datatype Key = Literal(text: string) | Wildcard

  // ------------------------------------------------------------------ segments

  function FindSlash(path: string, i: nat): (j: nat)
    requires i <= |path|
    ensures i <= j <= |path| && '/' !in path[i..j] && (j < |path| ==> path[j] == '/')
    decreases |path| - i
  {
    if i == |path| || path[i] == '/' then i else
    var j := FindSlash(path, i + 1);
    assert path[i..j] == [path[i]] + path[i + 1..j];
    j
  }

  function SegmentsFrom(path: string, i: nat): seq<string>
    decreases |path| - i
  {
    if i >= |path| then [] else
    var j := FindSlash(path, i);
    [path[i..j]] + SegmentsFrom(path, j + 1)
  }

  function Start(path: string): nat {
    if path != "" && path[0] == '/' then 1 else 0
  }

  function Segments(path: string): seq<string> {
    SegmentsFrom(path, Start(path))
  }

  /** The segment walk of the source. */
  method Split(path: string) returns (segs: seq<string>)
    ensures segs == Segments(path)
  {
    hide FindSlash, Start, SegmentsFrom;
    segs := [];
    var i := Start(path);
    while i < |path|
      invariant segs + SegmentsFrom(path, i) == Segments(path)
    {
      var j := FindSlash(path, i);
      NextSegment(segs, path, i);
      segs := segs + [path[i..j]];
      i := j + 1;
    }
    NoSegment(path, i);
  }

  lemma NextSegment(segs: seq<string>, path: string, i: nat)
    requires i < |path|
    ensures var j := FindSlash(path, i);
      segs + SegmentsFrom(path, i) == (segs + [path[i..j]]) + SegmentsFrom(path, j + 1)
  {
    hide FindSlash;
  }

  lemma NoSegment(path: string, i: nat)
    requires i >= |path|
    ensures SegmentsFrom(path, i) == []
  {
  }

  function Join(segs: seq<string>): string {
    if segs == [] then "" else segs[0] + ("/" + Join(segs[1..]))
  }

  /** Segments hold no slash. */
  lemma {:induction false} SegmentsClean(path: string, i: nat)
    ensures forall s | s in SegmentsFrom(path, i) :: '/' !in s
    decreases |path| - i
  {
    if i < |path| { SegmentsClean(path, FindSlash(path, i) + 1); }
  }

  /** Joined up, each with a slash behind it, the segments give the path back without its
      leading slash; a slash is added if the path ended in none. */
  lemma {:induction false} SegmentsJoin(path: string, i: nat)
    requires i < |path|
    ensures Join(SegmentsFrom(path, i)) == path[i..] + (if path[|path| - 1] == '/' then "" else "/")
    decreases |path| - i
  {
    hide FindSlash, Join;
    var j := FindSlash(path, i);
    var rest := SegmentsFrom(path, j + 1);
    JoinFirst(path[i..j], rest);
    if j + 1 >= |path| {
      JoinNone();
      LastSlash(path, i, j);
    } else {
      SegmentsJoin(path, j + 1);
      SlashAt(path, i, j);
      assert path[i..j] + ("/" + (path[j + 1..] + (if path[|path| - 1] == '/' then "" else "/")))
        == (path[i..j] + ("/" + path[j + 1..])) + (if path[|path| - 1] == '/' then "" else "/");
    }
  }

  /** A path is its segments: none holds a slash, and each with a slash behind it they give the
      path back, but for a leading slash and with a closing one. */
  lemma SegmentsAre(path: string)
    ensures forall s | s in Segments(path) :: '/' !in s
    ensures
      var bare := if path != "" && path[0] == '/' then path[1..] else path;
      Join(Segments(path)) == if bare == "" then "" else bare + (if bare[|bare| - 1] == '/' then "" else "/")
  {
    hide FindSlash, Join;
    SegmentsClean(path, Start(path));
    if Start(path) < |path| {
      SegmentsJoin(path, Start(path));
    } else {
      JoinNone();
    }
  }

  lemma JoinNone()
    ensures Join([]) == ""
  {
  }

  lemma SlashAt(path: string, i: nat, j: nat)
    requires i <= j < |path| && path[j] == '/'
    ensures path[i..] == path[i..j] + ("/" + path[j + 1..])
  {
  }

  lemma LastSlash(path: string, i: nat, j: nat)
    requires i < |path| && i <= j <= |path| <= j + 1
    requires '/' !in path[i..j] && (j < |path| ==> path[j] == '/')
    ensures path[i..j] + ("/" + "") == path[i..] + (if path[|path| - 1] == '/' then "" else "/")
  {
    if j == |path| {
      assert path[i..j][j - i - 1] == path[|path| - 1];
    }
  }

  lemma JoinFirst(s: string, rest: seq<string>)
    ensures Join([s] + rest) == s + ("/" + Join(rest))
  {
    assert ([s] + rest)[1..] == rest;
  }

  predicate IsWild(seg: string) { seg != "" && seg[0] == ':' }

  function KeyOf(seg: string): Key {
    if IsWild(seg) then Wildcard else Literal(seg)
  }

  function Keys(segs: seq<string>): (ks: seq<Key>)
    ensures |ks| == |segs| && forall i | 0 <= i < |segs| :: ks[i] == KeyOf(segs[i])
  {
    if segs == [] then [] else [KeyOf(segs[0])] + Keys(segs[1..])
  }

  // ------------------------------------------------------------------ the list search

  /** A registration; one without an entry only stands for the path it spells. */
  datatype Route<E> = Route(segs: seq<string>, entry: Option<E>)

  datatype Found<E> = NotFound | Hit(entry: E, params: seq<(string, string)>)

  /** The routes whose k-th segment has the given key. */
  function Narrow<E>(rs: seq<Route<E>>, k: nat, key: Key): seq<Route<E>> {
    if rs == [] then [] else
    (if k < |rs[0].segs| && KeyOf(rs[0].segs[k]) == key then [rs[0]] else []) + Narrow(rs[1..], k, key)
  }

  /** The entry registered last with exactly k segments. */
  function LastExact<E>(rs: seq<Route<E>>, k: nat): Option<E>
    decreases |rs|
  {
    if rs == [] then None else
    var r := rs[|rs| - 1];
    if |r.segs| == k && r.entry.Some? then r.entry else LastExact(rs[..|rs| - 1], k)
  }

  /** Filter the routes segment by segment: literal matches if there are any, otherwise
      wildcards, with no second thoughts; then the last registration wins. */
  function Search<E>(rs: seq<Route<E>>, q: seq<string>, k: nat, params: seq<(string, string)>): Found<E>
    requires k <= |q|
    decreases |q| - k
  {
    if k == |q| then
      var e := LastExact(rs, k);
      if e.Some? then Hit(e.value, params) else NotFound
    else
      var literal := Narrow(rs, k, Literal(q[k]));
      if literal != [] then Search(literal, q, k + 1, params) else
      var wild := Narrow(rs, k, Wildcard);
      if wild == [] then NotFound else
      Search(wild, q, k + 1, params + [(NameAt(wild[0], k), q[k])])
  }

  /** The name a wildcard segment captures under. */
  function NameAt<E>(r: Route<E>, k: nat): string {
    if k < |r.segs| && r.segs[k] != "" then r.segs[k][1..] else ""
  }

  // ------------------------------------------------------------------ what a match is

  predicate Colon(seg: string) { seg != "" && seg[0] == ':' }

  /** The pattern matches the path: a segment with a colon matches anything. */
  ghost predicate Matches(segs: seq<string>, q: seq<string>) {
    |segs| == |q| && forall i | 0 <= i < |q| :: Colon(segs[i]) || segs[i] == q[i]
  }

  /** The same literal, or two wildcards. */
  predicate SameStep(a: string, b: string) {
    (Colon(a) <==> Colon(b)) && (Colon(a) || a == b)
  }

  /** Two patterns go the same way for k segments. */
  ghost predicate Along(a: seq<string>, b: seq<string>, k: nat) {
    && k <= |a| && k <= |b|
    && forall i | 0 <= i < k :: SameStep(a[i], b[i])
  }

  /** The name of a pattern's wildcard is that of the first pattern registered that goes the
      same way up to it and has a wildcard there. */
  ghost predicate NamedBy<E(!new)>(rs: seq<Route<E>>, segs: seq<string>, j: nat, name: string) {
    exists f | 0 <= f < |rs| ::
      && Along(rs[f].segs, segs, j + 1) && Colon(rs[f].segs[j]) && name == rs[f].segs[j][1..]
      && forall g | 0 <= g < f :: !Along(rs[g].segs, segs, j + 1)
  }

  /** What the first k segments of a pattern capture: for each wildcard in order, its name and
      the path's segment. */
  ghost predicate Captures<E(!new)>(rs: seq<Route<E>>, segs: seq<string>, q: seq<string>, k: nat, params: seq<(string, string)>)
    requires k <= |segs| && k <= |q|
    decreases k
  {
    if k == 0 then params == []
    else if Colon(segs[k - 1]) then
      var n := |params| - 1;
      n >= 0 && params[n].1 == q[k - 1] && NamedBy(rs, segs, k - 1, params[n].0) && Captures(rs, segs, q, k - 1, params[..n])
    else Captures(rs, segs, q, k - 1, params)
  }

  lemma KeyIs(a: string, b: string)
    ensures KeyOf(a) == Wildcard <==> Colon(a)
    ensures KeyOf(a) == Literal(b) <==> !Colon(a) && a == b
    ensures KeyOf(a) == KeyOf(b) <==> SameStep(a, b)
  {
  }

  // ------------------------------------------------------------------ routes by prefix

  predicate Begins<E>(r: Route<E>, w: seq<Key>) {
    w <= Keys(r.segs)
  }

  function With<E>(rs: seq<Route<E>>, w: seq<Key>): seq<Route<E>> {
    if rs == [] then [] else (if Begins(rs[0], w) then [rs[0]] else []) + With(rs[1..], w)
  }

  lemma {:induction false} WithAppend<E>(rs: seq<Route<E>>, r: Route<E>, w: seq<Key>)
    ensures With(rs + [r], w) == With(rs, w) + (if Begins(r, w) then [r] else [])
    decreases |rs|
  {
    hide Begins;
    if rs == [] {
      assert rs + [r] == [r] && [r][1..] == [];
    } else {
      assert (rs + [r])[0] == rs[0] && (rs + [r])[1..] == rs[1..] + [r];
      WithAppend(rs[1..], r, w);
      var first := if Begins(rs[0], w) then [rs[0]] else [];
      var last := if Begins(r, w) then [r] else [];
      assert first + (With(rs[1..], w) + last) == (first + With(rs[1..], w)) + last;
    }
  }

  lemma BeginsMore<E>(r: Route<E>, w: seq<Key>, key: Key)
    ensures Begins(r, w + [key]) <==> Begins(r, w) && |w| < |r.segs| && KeyOf(r.segs[|w|]) == key
  {
    var ks := Keys(r.segs);
    if Begins(r, w + [key]) {
      assert (w + [key])[|w|] == ks[|w|];
    }
  }

  lemma {:induction false} NarrowWith<E>(rs: seq<Route<E>>, w: seq<Key>, key: Key)
    ensures Narrow(With(rs, w), |w|, key) == With(rs, w + [key])
    decreases |rs|
  {
    hide Begins, KeyOf;
    if rs != [] {
      NarrowWith(rs[1..], w, key);
      BeginsMore(rs[0], w, key);
      var rest := With(rs[1..], w);
      if Begins(rs[0], w) {
        assert With(rs, w) == [rs[0]] + rest && ([rs[0]] + rest)[1..] == rest;
      } else {
        assert With(rs, w) == rest;
      }
    }
  }

  lemma {:induction false} WithShorter<E>(rs: seq<Route<E>>, w: seq<Key>, key: Key)
    requires With(rs, w) == []
    ensures With(rs, w + [key]) == []
    decreases |rs|
  {
    hide Begins;
    if rs != [] {
      BeginsMore(rs[0], w, key);
      WithShorter(rs[1..], w, key);
    }
  }

  lemma LastExactAppend<E>(rs: seq<Route<E>>, r: Route<E>, k: nat)
    ensures LastExact(rs + [r], k) == if |r.segs| == k && r.entry.Some? then r.entry else LastExact(rs, k)
  {
    assert (rs + [r])[..|rs|] == rs;
  }

  lemma {:induction false} WithAll<E>(rs: seq<Route<E>>)
    ensures With(rs, []) == rs
    decreases |rs|
  {
    if rs != [] {
      WithAll(rs[1..]);
      assert rs == [rs[0]] + rs[1..];
    }
  }

  lemma {:induction false} WithIn<E>(rs: seq<Route<E>>, w: seq<Key>, r: Route<E>)
    ensures r in With(rs, w) <==> r in rs && Begins(r, w)
    decreases |rs|
  {
    hide Begins;
    if rs != [] {
      WithIn(rs[1..], w, r);
      assert r in rs <==> r == rs[0] || r in rs[1..];
    }
  }

  /** The first route with a prefix is the first of all that has it. */
  lemma {:induction false} WithFirst<E>(rs: seq<Route<E>>, w: seq<Key>) returns (f: nat)
    requires With(rs, w) != []
    ensures f < |rs| && With(rs, w)[0] == rs[f] && Begins(rs[f], w) && forall g | 0 <= g < f :: !Begins(rs[g], w)
    decreases |rs|
  {
    hide Begins;
    if Begins(rs[0], w) {
      f := 0;
    } else {
      var k := WithFirst(rs[1..], w);
      f := k + 1;
      forall g | 0 <= g < f ensures !Begins(rs[g], w) {
        if g > 0 { assert rs[g] == rs[1..][g - 1]; }
      }
    }
  }

  /** The last entry among the routes that spell a path is that of the last of all. */
  lemma {:induction false} LastOf<E>(rs: seq<Route<E>>, w: seq<Key>) returns (x: nat)
    requires LastExact(With(rs, w), |w|).Some?
    ensures x < |rs| && rs[x].entry == LastExact(With(rs, w), |w|) && Keys(rs[x].segs) == w
    ensures forall y | x < y < |rs| :: rs[y].entry.None? || Keys(rs[y].segs) != w
    decreases |rs|
  {
    hide LastExact, With, Begins, Keys;
    var n := |rs| - 1;
    if rs == [] {
      NoneWith<E>(w);
    } else {
      var init, r := rs[..n], rs[n];
      assert rs == init + [r];
      WithAppend(init, r, w);
      LastExactAppend(With(init, w), r, |w|);
      SpellsIff(r, w);
      assert With(init, w) + [] == With(init, w);
      if Begins(r, w) && |r.segs| == |w| && r.entry.Some? {
        x := n;
      } else {
        x := LastOf(init, w);
        forall y | x < y < |rs| ensures rs[y].entry.None? || Keys(rs[y].segs) != w {
          if y < n { assert rs[y] == init[y]; }
        }
      }
    }
  }

  lemma NoneWith<E>(w: seq<Key>)
    ensures LastExact(With<E>([], w), |w|).None?
  {
  }

  lemma SpellsIff<E>(r: Route<E>, w: seq<Key>)
    ensures Begins(r, w) && |r.segs| == |w| <==> Keys(r.segs) == w
  {
    if Begins(r, w) && |r.segs| == |w| { assert Keys(r.segs)[..|w|] == w && Keys(r.segs)[..|w|] == Keys(r.segs); }
  }

  /** Beginning with the first k keys of a pattern is going along with it. */
  lemma AlongIff<E>(s: Route<E>, segs: seq<string>, k: nat)
    requires k <= |segs|
    ensures Begins(s, Keys(segs)[..k]) <==> Along(s.segs, segs, k)
  {
    hide Colon, Along, Begins;
    if Begins(s, Keys(segs)[..k]) { BeginsAlong(s, segs, k); }
    if Along(s.segs, segs, k) { AlongBegins(s, segs, k); }
  }

  lemma BeginsAlong<E>(s: Route<E>, segs: seq<string>, k: nat)
    requires k <= |segs| && Begins(s, Keys(segs)[..k])
    ensures Along(s.segs, segs, k)
  {
    hide KeyOf, SameStep, Keys;
    var w := Keys(segs)[..k];
    forall i | 0 <= i < k ensures SameStep(s.segs[i], segs[i]) {
      assert w[i] == Keys(s.segs)[i];
      KeyIs(s.segs[i], segs[i]);
    }
  }

  lemma AlongBegins<E>(s: Route<E>, segs: seq<string>, k: nat)
    requires k <= |segs| && Along(s.segs, segs, k)
    ensures Begins(s, Keys(segs)[..k])
  {
    hide KeyOf, SameStep, Keys;
    forall i | 0 <= i < k ensures Keys(segs)[i] == Keys(s.segs)[i] { KeyIs(s.segs[i], segs[i]); }
    assert Keys(segs)[..k] == Keys(s.segs)[..k];
  }

  // ------------------------------------------------------------------ what is found

  /** One step of the search among the routes with a prefix. */
  lemma OneStep<E>(rs: seq<Route<E>>, q: seq<string>, w: seq<Key>, params: seq<(string, string)>)
    requires |w| < |q|
    ensures var k := |w|;
      var literal, wild := With(rs, w + [Literal(q[k])]), With(rs, w + [Wildcard]);
      Search(With(rs, w), q, k, params)
      == if literal != [] then Search(literal, q, k + 1, params)
         else if wild == [] then NotFound
         else Search(wild, q, k + 1, params + [(NameAt(wild[0], k), q[k])])
  {
    hide Narrow, With, NameAt, LastExact;
    NarrowWith(rs, w, Literal(q[|w|]));
    NarrowWith(rs, w, Wildcard);
  }

  /** A wildcard step captures under the right name. */
  lemma StepNamed<E(!new)>(rs: seq<Route<E>>, segs: seq<string>, j: nat)
    requires j < |segs| && Colon(segs[j]) && With(rs, Keys(segs)[..j + 1]) != []
    ensures NamedBy(rs, segs, j, NameAt(With(rs, Keys(segs)[..j + 1])[0], j))
  {
    hide Begins, Keys, With;
    var w := Keys(segs)[..j + 1];
    var f := WithFirst(rs, w);
    AlongIff(rs[f], segs, j + 1);
    forall g | 0 <= g < f ensures !Along(rs[g].segs, segs, j + 1) { AlongIff(rs[g], segs, j + 1); }
    assert Colon(rs[f].segs[j]);
  }

  /** So far the pattern matches the path, and these are its captures. */
  ghost predicate FollowedBy<E(!new)>(rs: seq<Route<E>>, segs: seq<string>, q: seq<string>, k: nat, params: seq<(string, string)>) {
    && k <= |segs| && k <= |q| && (forall i | 0 <= i < k :: Colon(segs[i]) || segs[i] == q[i])
    && Captures(rs, segs, q, k, params)
  }

  lemma FollowLiteral<E(!new)>(rs: seq<Route<E>>, r: Route<E>, q: seq<string>, w: seq<Key>, params: seq<(string, string)>)
    requires |w| < |q| && FollowedBy(rs, r.segs, q, |w|, params) && Begins(r, w + [Literal(q[|w|])])
    ensures FollowedBy(rs, r.segs, q, |w| + 1, params)
  {
    hide Begins, KeyOf;
    BeginsMore(r, w, Literal(q[|w|]));
    KeyIs(r.segs[|w|], q[|w|]);
  }

  lemma FollowWild<E(!new)>(rs: seq<Route<E>>, r: Route<E>, q: seq<string>, w: seq<Key>, params: seq<(string, string)>)
    requires |w| < |q| && FollowedBy(rs, r.segs, q, |w|, params) && Begins(r, w + [Wildcard]) && r in rs
    ensures With(rs, w + [Wildcard]) != []
    ensures FollowedBy(rs, r.segs, q, |w| + 1, params + [(NameAt(With(rs, w + [Wildcard])[0], |w|), q[|w|])])
  {
    hide KeyOf, With, NameAt, NamedBy;
    BeginsMore(r, w, Wildcard);
    KeyIs(r.segs[|w|], q[|w|]);
    WithIn(rs, w + [Wildcard], r);
    assert Keys(r.segs)[..|w| + 1] == w + [Wildcard];
    StepNamed(rs, r.segs, |w|);
    var more := params + [(NameAt(With(rs, w + [Wildcard])[0], |w|), q[|w|])];
    assert more[..|params|] == params;
  }

  /** The x-th route is what was found: it matches the path, what was captured is what its
      wildcards stand for, and no later route with an entry goes the same way. */
  ghost predicate Wins<E(!new)>(rs: seq<Route<E>>, q: seq<string>, found: Found<E>, x: nat) {
    && x < |rs| && found.Hit? && rs[x].entry == Some(found.entry) && Matches(rs[x].segs, q)
    && Captures(rs, rs[x].segs, q, |q|, found.params)
    && forall y | x < y < |rs| && Along(rs[y].segs, rs[x].segs, |q|) && |rs[y].segs| == |q| :: rs[y].entry.None?
  }

  lemma {:induction false} HitFrom<E(!new)>(rs: seq<Route<E>>, q: seq<string>, w: seq<Key>, params: seq<(string, string)>) returns (x: nat)
    requires |w| <= |q| && Search(With(rs, w), q, |w|, params).Hit?
    requires forall r | r in With(rs, w) :: FollowedBy(rs, r.segs, q, |w|, params)
    ensures Wins(rs, q, Search(With(rs, w), q, |w|, params), x)
    decreases |q| - |w|
  {
    hide With, NameAt, FollowedBy, LastExact;
    var k := |w|;
    if k == |q| {
      x := LastOf(rs, w);
      LastWins(rs, q, w, params, x);
    } else {
      OneStep(rs, q, w, params);
      var literal, wild := w + [Literal(q[k])], w + [Wildcard];
      if With(rs, literal) != [] {
        forall r | r in With(rs, literal) ensures FollowedBy(rs, r.segs, q, k + 1, params) {
          Narrower(rs, w, Literal(q[k]), r);
          FollowLiteral(rs, r, q, w, params);
        }
        x := HitFrom(rs, q, literal, params);
      } else {
        var more := params + [(NameAt(With(rs, wild)[0], k), q[k])];
        forall r | r in With(rs, wild) ensures FollowedBy(rs, r.segs, q, k + 1, more) {
          Narrower(rs, w, Wildcard, r);
          FollowWild(rs, r, q, w, params);
        }
        x := HitFrom(rs, q, wild, more);
      }
    }
  }

  lemma Narrower<E>(rs: seq<Route<E>>, w: seq<Key>, key: Key, r: Route<E>)
    requires r in With(rs, w + [key])
    ensures r in rs && Begins(r, w + [key]) && r in With(rs, w)
  {
    hide With, Begins, KeyOf;
    WithIn(rs, w + [key], r);
    BeginsMore(r, w, key);
    WithIn(rs, w, r);
  }

  lemma LastWins<E(!new)>(rs: seq<Route<E>>, q: seq<string>, w: seq<Key>, params: seq<(string, string)>, x: nat)
    requires |w| == |q| && x < |rs| && Keys(rs[x].segs) == w
    requires rs[x].entry == LastExact(With(rs, w), |w|) && rs[x].entry.Some?
    requires forall y | x < y < |rs| :: rs[y].entry.None? || Keys(rs[y].segs) != w
    requires forall r | r in With(rs, w) :: FollowedBy(rs, r.segs, q, |w|, params)
    ensures Wins(rs, q, Search(With(rs, w), q, |w|, params), x)
  {
    hide With, LastExact, Keys;
    var r := rs[x];
    SpellsIff(r, w);
    WithIn(rs, w, r);
    assert r in With(rs, w);
    forall y | x < y < |rs| && Along(rs[y].segs, r.segs, |q|) && |rs[y].segs| == |q| ensures rs[y].entry.None? {
      AlongIff(rs[y], r.segs, |q|);
      assert Keys(r.segs)[..|q|] == w;
      SpellsIff(rs[y], w);
    }
  }

  /** A hit is the entry of a registered pattern that matches the whole path, the last one with
      an entry of those that go the same way. What was captured is, for each of its wildcards
      in order, the path's segment under the name that the first pattern through that wildcard
      gave it. */
  lemma HitMatches<E(!new)>(rs: seq<Route<E>>, q: seq<string>) returns (x: nat)
    requires Search(rs, q, 0, []).Hit?
    ensures Wins(rs, q, Search(rs, q, 0, []), x)
  {
    hide With, Search;
    WithAll(rs);
    x := HitFrom(rs, q, [], []);
  }

  /** The route has the path's own segment where the pattern has its j-th, a wildcard, and goes
      the same way up to there. */
  ghost predicate Shadows(s: seq<string>, segs: seq<string>, q: seq<string>, j: nat)
    requires j < |q| == |segs|
  {
    Colon(segs[j]) && j < |s| && !Colon(s[j]) && s[j] == q[j] && Along(s, segs, j)
  }

  ghost predicate Unshadowed<E(!new)>(rs: seq<Route<E>>, segs: seq<string>, q: seq<string>)
    requires |q| == |segs|
  {
    forall i, j | 0 <= i < |rs| && 0 <= j < |q| :: !Shadows(rs[i].segs, segs, q, j)
  }

  lemma {:induction false} LastFrom<E(!new)>(rs: seq<Route<E>>, r: Route<E>, q: seq<string>, k: nat, params: seq<(string, string)>)
    requires r.entry.Some? && Matches(r.segs, q) && Unshadowed(rs, r.segs, q)
    requires k <= |q| && FollowedBy(rs + [r], r.segs, q, k, params)
    ensures var found := Search(With(rs + [r], Keys(r.segs)[..k]), q, k, params);
      found.Hit? && found.entry == r.entry.value && Captures(rs + [r], r.segs, q, |q|, found.params)
    decreases |q| - k
  {
    hide With, NameAt, FollowedBy, LastExact, Keys, Unshadowed, Captures, Search;
    var all, w := rs + [r], Keys(r.segs)[..k];
    if k == |q| {
      LastIsIt(rs, r, q, params);
    } else {
      BeginsOwn(r, k);
      assert r in all;
      OneStep(all, q, w, params);
      KeyIs(r.segs[k], q[k]);
      var key := KeyOf(r.segs[k]);
      assert Keys(r.segs)[..k + 1] == w + [key];
      WithIn(all, w + [key], r);
      if Colon(r.segs[k]) {
        NoLiteral(rs, r, q, k);
        FollowWild(all, r, q, w, params);
        LastFrom(rs, r, q, k + 1, params + [(NameAt(With(all, w + [key])[0], k), q[k])]);
      } else {
        FollowLiteral(all, r, q, w, params);
        LastFrom(rs, r, q, k + 1, params);
      }
    }
  }

  lemma BeginsOwn<E>(r: Route<E>, k: nat)
    requires k < |r.segs|
    ensures Begins(r, Keys(r.segs)[..k + 1]) && Keys(r.segs)[..k + 1] == Keys(r.segs)[..k] + [KeyOf(r.segs[k])]
  {
  }

  lemma LastIsIt<E(!new)>(rs: seq<Route<E>>, r: Route<E>, q: seq<string>, params: seq<(string, string)>)
    requires r.entry.Some? && |r.segs| == |q| && FollowedBy(rs + [r], r.segs, q, |q|, params)
    ensures var found := Search(With(rs + [r], Keys(r.segs)[..|q|]), q, |q|, params);
      found.Hit? && found.entry == r.entry.value && Captures(rs + [r], r.segs, q, |q|, found.params)
  {
    hide With, LastExact, Captures;
    var w := Keys(r.segs)[..|q|];
    assert w == Keys(r.segs);
    WithAppend(rs, r, w);
    LastExactAppend(With(rs, w), r, |w|);
  }

  lemma LiteralShadows<E(!new)>(rs: seq<Route<E>>, r: Route<E>, q: seq<string>, k: nat)
    requires k < |q| == |r.segs| && Colon(r.segs[k])
    requires With(rs + [r], Keys(r.segs)[..k] + [Literal(q[k])]) != []
    ensures !Unshadowed(rs, r.segs, q)
  {
    hide With, Begins, KeyOf, Keys;
    var w := Keys(r.segs)[..k];
    var f := WithFirst(rs + [r], w + [Literal(q[k])]);
    var s := (rs + [r])[f];
    BeginsMore(s, w, Literal(q[k]));
    KeyIs(s.segs[k], q[k]);
    AlongIff(s, r.segs, k);
    assert s == rs[f];
    assert Shadows(rs[f].segs, r.segs, q, k);
  }

  lemma NoLiteral<E(!new)>(rs: seq<Route<E>>, r: Route<E>, q: seq<string>, k: nat)
    requires k < |q| == |r.segs| && Colon(r.segs[k]) && Unshadowed(rs, r.segs, q)
    ensures With(rs + [r], Keys(r.segs)[..k] + [Literal(q[k])]) == []
  {
    hide With, Unshadowed, Keys;
    if With(rs + [r], Keys(r.segs)[..k] + [Literal(q[k])]) != [] { LiteralShadows(rs, r, q, k); }
  }

  /** The pattern registered last is the one found for every path it matches, with its captures,
      unless a route that goes the same way up to one of its wildcards has the path's own
      segment there. */
  lemma LastRegisteredWins<E(!new)>(rs: seq<Route<E>>, r: Route<E>, q: seq<string>)
    requires r.entry.Some? && Matches(r.segs, q) && Unshadowed(rs, r.segs, q)
    ensures var found := Search(rs + [r], q, 0, []);
      found.Hit? && found.entry == r.entry.value && Captures(rs + [r], r.segs, q, |q|, found.params)
  {
    hide With, Search, Unshadowed, Keys;
    WithAll(rs + [r]);
    assert Keys(r.segs)[..0] == [];
    LastFrom(rs, r, q, 0, []);
  }
}
