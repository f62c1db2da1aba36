/** The trie, as nodes in an arena that insertion extends in place. A node is its index;
    the root is node 0. */
module RouterTrie {
  import opened Basics
  import opened Router

  datatype Node<E> = Node(kids: map<string, nat>, wild: Option<nat>, name: string, entry: Option<E>)

  /** The trie holds exactly the registered routes: `paths[n]` is the path that leads to
      node n; a node has a child under a key if and only if some route goes on with that
      key; its entry is the last one registered with its path, and a wildcard node is
      named by the first route that went through it. */
  ghost predicate Holds<E(!new)>(nodes: seq<Node<E>>, paths: seq<seq<Key>>, rs: seq<Route<E>>) {
    && |nodes| == |paths| > 0 && paths[0] == []
    && (forall m, n | 0 <= m < n < |paths| :: paths[m] != paths[n])
    && (forall n | 0 <= n < |nodes| :: NodeHolds(nodes, paths, rs, n))
  }

  ghost predicate NodeHolds<E(!new)>(nodes: seq<Node<E>>, paths: seq<seq<Key>>, rs: seq<Route<E>>, n: nat)
    requires |nodes| == |paths| && n < |nodes|
  {
    && (forall s :: s in nodes[n].kids <==> With(rs, paths[n] + [Literal(s)]) != [])
    && (forall s | s in nodes[n].kids ::
          nodes[n].kids[s] < |nodes| && paths[nodes[n].kids[s]] == paths[n] + [Literal(s)])
    && (nodes[n].wild.Some? <==> With(rs, paths[n] + [Wildcard]) != [])
    && (nodes[n].wild.Some? ==>
          var m := nodes[n].wild.value;
          && m < |nodes| && paths[m] == paths[n] + [Wildcard]
          && nodes[m].name == NameAt(With(rs, paths[m])[0], |paths[n]|))
    && nodes[n].entry == LastExact(With(rs, paths[n]), |paths[n]|)
    && (paths[n] != [] ==> With(rs, paths[n]) != [])
  }

  // ------------------------------------------------------------------ lookup

  /** Match a path against the trie: prefer the literal child, otherwise the wildcard. */
  method Match<E(!new)>(nodes: seq<Node<E>>, ghost paths: seq<seq<Key>>, ghost rs: seq<Route<E>>, q: seq<string>)
    returns (found: Found<E>)
    requires Holds(nodes, paths, rs)
    ensures found == Search(rs, q, 0, [])
  {
    hide LastExact, NameAt, Narrow, With;
    var node: nat := 0;
    var params := [];
    var k: nat := 0;
    WithAll(rs);
    while k < |q|
      invariant 0 <= k <= |q| && node < |nodes| && |paths[node]| == k
      invariant Search(With(rs, paths[node]), q, k, params) == Search(rs, q, 0, [])
    {
      var seg := q[k];
      assert NodeHolds(nodes, paths, rs, node);
      NarrowWith(rs, paths[node], Literal(seg));
      NarrowWith(rs, paths[node], Wildcard);
      if seg in nodes[node].kids {
        node := nodes[node].kids[seg];
      } else if nodes[node].wild.Some? {
        params := params + [(nodes[nodes[node].wild.value].name, seg)];
        node := nodes[node].wild.value;
      } else {
        return NotFound;
      }
      k := k + 1;
    }
    assert NodeHolds(nodes, paths, rs, node);
    return if nodes[node].entry.Some? then Hit(nodes[node].entry.value, params) else NotFound;
  }

  // ------------------------------------------------------------------ insertion

  /** A route under construction: it spells a path and has no entry yet. */
  function Unfinished<E>(u: seq<string>): Route<E> {
    Route(u, None)
  }

  lemma BeginsLonger<E>(u: seq<string>, seg: string, x: seq<Key>)
    ensures Begins(Unfinished<E>(u + [seg]), x)
       <==> Begins(Unfinished<E>(u), x) || x == Keys(u) + [KeyOf(seg)]
    ensures !Begins(Unfinished<E>(u), Keys(u) + [KeyOf(seg)])
  {
    KeysAppend(u, seg);
    var ks := Keys(u) + [KeyOf(seg)];
    if x <= ks && |x| == |ks| { assert x == ks; }
  }

  lemma KeysAppend(u: seq<string>, seg: string)
    ensures Keys(u + [seg]) == Keys(u) + [KeyOf(seg)]
  {
    hide KeyOf;
  }

  /** Letting an unfinished route grow by one segment adds that one path, and changes no
      entry and no name. */
  lemma RouteGrows<E>(rs: seq<Route<E>>, u: seq<string>, seg: string, x: seq<Key>)
    ensures var before, after := rs + [Unfinished(u)], rs + [Unfinished(u + [seg])];
      var path := Keys(u) + [KeyOf(seg)];
      && (With(after, x) != [] <==> With(before, x) != [] || x == path)
      && LastExact(With(after, x), |x|) == LastExact(With(before, x), |x|)
      && (With(before, x) != [] && |x| > 0 ==>
            NameAt(With(after, x)[0], |x| - 1) == NameAt(With(before, x)[0], |x| - 1))
      && (With(before, path) == [] ==> With(after, path) == [Unfinished(u + [seg])])
  {
    hide With, LastExact, Begins, Keys, KeyOf;
    var r, t := Unfinished<E>(u), Unfinished<E>(u + [seg]);
    var path := Keys(u) + [KeyOf(seg)];
    WithAppend(rs, r, x);
    WithAppend(rs, t, x);
    WithAppend(rs, r, path);
    WithAppend(rs, t, path);
    BeginsLonger<E>(u, seg, x);
    BeginsLonger<E>(u, seg, path);
    LastExactAppend(With(rs, x), r, |x|);
    LastExactAppend(With(rs, x), t, |x|);
    assert With(rs, x) + [] == With(rs, x);
    if Begins(r, x) { BeginsLength(r, x); }
  }

  lemma BeginsLength<E>(r: Route<E>, x: seq<Key>)
    requires Begins(r, x)
    ensures |x| <= |r.segs|
  {
  }

  /** The node is already there. */
  lemma StepKept<E(!new)>(nodes: seq<Node<E>>, paths: seq<seq<Key>>, rs: seq<Route<E>>, u: seq<string>, seg: string)
    requires Holds(nodes, paths, rs + [Unfinished(u)])
    requires With(rs + [Unfinished(u)], Keys(u) + [KeyOf(seg)]) != []
    ensures Holds(nodes, paths, rs + [Unfinished(u + [seg])])
  {
    hide With, LastExact, Keys, KeyOf, NameAt;
    var after := rs + [Unfinished(u + [seg])];
    forall n | 0 <= n < |nodes| ensures NodeHolds(nodes, paths, after, n) {
      assert NodeHolds(nodes, paths, rs + [Unfinished(u)], n);
      forall s ensures s in nodes[n].kids <==> With(after, paths[n] + [Literal(s)]) != [] {
        RouteGrows(rs, u, seg, paths[n] + [Literal(s)]);
      }
      RouteGrows(rs, u, seg, paths[n] + [Wildcard]);
      RouteGrows(rs, u, seg, paths[n]);
    }
  }

  /** The nodes after a new child has been hung under a node. */
  function Grown<E>(nodes: seq<Node<E>>, node: nat, seg: string): (grown: seq<Node<E>>)
    requires node < |nodes|
    ensures |grown| == |nodes| + 1
  {
    if IsWild(seg) then
      nodes[node := nodes[node].(wild := Some(|nodes|))] + [Node(map[], None, seg[1..], None)]
    else
      nodes[node := nodes[node].(kids := nodes[node].kids[seg := |nodes|])] + [Node(map[], None, "", None)]
  }

  lemma StepGrown<E(!new)>(nodes: seq<Node<E>>, paths: seq<seq<Key>>, rs: seq<Route<E>>, u: seq<string>, seg: string, node: nat)
    requires Holds(nodes, paths, rs + [Unfinished(u)])
    requires node < |nodes| && paths[node] == Keys(u)
    requires With(rs + [Unfinished(u)], Keys(u) + [KeyOf(seg)]) == []
    ensures Holds(Grown(nodes, node, seg), paths + [Keys(u) + [KeyOf(seg)]], rs + [Unfinished(u + [seg])])
  {
    hide With, LastExact, Keys, NameAt, NodeHolds;
    var path := Keys(u) + [KeyOf(seg)];
    var grown, more := Grown(nodes, node, seg), paths + [path];
    var before, after := rs + [Unfinished(u)], rs + [Unfinished(u + [seg])];
    forall n | 0 <= n < |nodes| ensures paths[n] != path { NewPath(nodes, paths, before, path, n); }
    forall n | 0 <= n < |grown| ensures NodeHolds(grown, more, after, n) {
      if n == |nodes| {
        NewNode(nodes, paths, rs, u, seg, node);
      } else {
        OldNode(nodes, paths, rs, u, seg, node, n);
      }
    }
  }

  lemma NewPath<E(!new)>(nodes: seq<Node<E>>, paths: seq<seq<Key>>, rs: seq<Route<E>>, path: seq<Key>, n: nat)
    requires Holds(nodes, paths, rs) && path != [] && With(rs, path) == [] && n < |nodes|
    ensures paths[n] != path
  {
    hide With, LastExact, NameAt;
    assert NodeHolds(nodes, paths, rs, n);
  }

  lemma NewNode<E(!new)>(nodes: seq<Node<E>>, paths: seq<seq<Key>>, rs: seq<Route<E>>, u: seq<string>, seg: string, node: nat)
    requires |nodes| == |paths| && node < |nodes|
    requires With(rs + [Unfinished(u)], Keys(u) + [KeyOf(seg)]) == []
    ensures NodeHolds(Grown(nodes, node, seg), paths + [Keys(u) + [KeyOf(seg)]], rs + [Unfinished(u + [seg])], |nodes|)
  {
    hide With, Keys, KeyOf, IsWild;
    var path := Keys(u) + [KeyOf(seg)];
    var after := rs + [Unfinished(u + [seg])];
    RouteGrows(rs, u, seg, path);
    forall key ensures With(after, path + [key]) == [] {
      WithShorter(rs + [Unfinished(u)], path, key);
      RouteGrows(rs, u, seg, path + [key]);
    }
  }

  lemma OldNode<E(!new)>(nodes: seq<Node<E>>, paths: seq<seq<Key>>, rs: seq<Route<E>>, u: seq<string>, seg: string, node: nat, n: nat)
    requires Holds(nodes, paths, rs + [Unfinished(u)])
    requires node < |nodes| && paths[node] == Keys(u) && n < |nodes|
    requires With(rs + [Unfinished(u)], Keys(u) + [KeyOf(seg)]) == []
    ensures NodeHolds(Grown(nodes, node, seg), paths + [Keys(u) + [KeyOf(seg)]], rs + [Unfinished(u + [seg])], n)
  {
    hide With, LastExact, Keys, NameAt, KeyOf;
    assert NodeHolds(nodes, paths, rs + [Unfinished(u)], n);
    OldKids(nodes, paths, rs, u, seg, node, n);
    OldWild(nodes, paths, rs, u, seg, node, n);
    RouteGrows(rs, u, seg, paths[n]);
  }

  /** The literal children of a node that was there. */
  lemma OldKids<E(!new)>(nodes: seq<Node<E>>, paths: seq<seq<Key>>, rs: seq<Route<E>>, u: seq<string>, seg: string, node: nat, n: nat)
    requires Holds(nodes, paths, rs + [Unfinished(u)])
    requires node < |nodes| && paths[node] == Keys(u) && n < |nodes|
    requires With(rs + [Unfinished(u)], Keys(u) + [KeyOf(seg)]) == []
    ensures
      var grown, more := Grown(nodes, node, seg), paths + [Keys(u) + [KeyOf(seg)]];
      && (forall s :: s in grown[n].kids <==> With(rs + [Unfinished(u + [seg])], more[n] + [Literal(s)]) != [])
      && (forall s | s in grown[n].kids ::
            grown[n].kids[s] < |grown| && more[grown[n].kids[s]] == more[n] + [Literal(s)])
  {
    hide With, Keys;
    var grown, more := Grown(nodes, node, seg), paths + [Keys(u) + [KeyOf(seg)]];
    assert NodeHolds(nodes, paths, rs + [Unfinished(u)], n);
    assert n != node ==> paths[n] != paths[node];
    forall s ensures s in grown[n].kids <==> With(rs + [Unfinished(u + [seg])], more[n] + [Literal(s)]) != [] {
      RouteGrows(rs, u, seg, paths[n] + [Literal(s)]);
      LastKey(paths[n], Literal(s), Keys(u), KeyOf(seg));
    }
  }

  /** The wildcard child of a node that was there, and its name. */
  lemma OldWild<E(!new)>(nodes: seq<Node<E>>, paths: seq<seq<Key>>, rs: seq<Route<E>>, u: seq<string>, seg: string, node: nat, n: nat)
    requires Holds(nodes, paths, rs + [Unfinished(u)])
    requires node < |nodes| && paths[node] == Keys(u) && n < |nodes|
    requires With(rs + [Unfinished(u)], Keys(u) + [KeyOf(seg)]) == []
    ensures
      var grown, more := Grown(nodes, node, seg), paths + [Keys(u) + [KeyOf(seg)]];
      var after := rs + [Unfinished(u + [seg])];
      && (grown[n].wild.Some? <==> With(after, more[n] + [Wildcard]) != [])
      && (grown[n].wild.Some? ==>
            var m := grown[n].wild.value;
            && m < |grown| && more[m] == more[n] + [Wildcard]
            && With(after, more[m]) != [] && grown[m].name == NameAt(With(after, more[m])[0], |more[n]|))
  {
    hide With, LastExact, Keys, NameAt;
    assert NodeHolds(nodes, paths, rs + [Unfinished(u)], n);
    assert n != node ==> paths[n] != paths[node];
    RouteGrows(rs, u, seg, paths[n] + [Wildcard]);
    LastKey(paths[n], Wildcard, Keys(u), KeyOf(seg));
    RouteGrows(rs, u, seg, Keys(u) + [KeyOf(seg)]);
    NewName<E>(u, seg);
  }

  lemma LastKey(w: seq<Key>, a: Key, v: seq<Key>, b: Key)
    ensures w + [a] == v + [b] <==> w == v && a == b
  {
    if w + [a] == v + [b] {
      assert (w + [a])[..|w|] == w && (v + [b])[..|v|] == v;
      assert (w + [a])[|w|] == a && (v + [b])[|v|] == b;
    }
  }

  lemma NewName<E>(u: seq<string>, seg: string)
    ensures IsWild(seg) ==> NameAt(Unfinished<E>(u + [seg]), |Keys(u)|) == seg[1..]
  {
  }

  lemma StartHolds<E(!new)>(nodes: seq<Node<E>>, paths: seq<seq<Key>>, rs: seq<Route<E>>)
    requires Holds(nodes, paths, rs)
    ensures Holds(nodes, paths, rs + [Unfinished([])])
  {
    hide With, LastExact, NameAt;
    forall n | 0 <= n < |nodes| ensures NodeHolds(nodes, paths, rs + [Unfinished([])], n) {
      assert NodeHolds(nodes, paths, rs, n);
      forall x ensures EmptyRouteAdds(rs, x) { EmptyRoute(rs, x); }
      forall s ensures s in nodes[n].kids <==> With(rs + [Unfinished([])], paths[n] + [Literal(s)]) != [] {
        assert EmptyRouteAdds(rs, paths[n] + [Literal(s)]);
      }
      assert EmptyRouteAdds(rs, paths[n] + [Wildcard]);
      assert EmptyRouteAdds(rs, paths[n]);
    }
  }

  ghost predicate EmptyRouteAdds<E>(rs: seq<Route<E>>, x: seq<Key>) {
    var more := rs + [Unfinished([])];
    (x != [] ==> With(more, x) == With(rs, x)) && LastExact(With(more, x), |x|) == LastExact(With(rs, x), |x|)
  }

  lemma EmptyRoute<E>(rs: seq<Route<E>>, x: seq<Key>)
    ensures EmptyRouteAdds(rs, x)
  {
    hide With, LastExact;
    var r := Unfinished<E>([]);
    WithAppend(rs, r, x);
    LastExactAppend(With(rs, x), r, |x|);
    assert With(rs, x) + [] == With(rs, x);
  }

  /** Giving the finished route its entry. */
  lemma EntrySet<E(!new)>(nodes: seq<Node<E>>, paths: seq<seq<Key>>, rs: seq<Route<E>>, segs: seq<string>, e: E, node: nat)
    requires Holds(nodes, paths, rs + [Unfinished(segs)])
    requires node < |nodes| && paths[node] == Keys(segs)
    ensures Holds(nodes[node := nodes[node].(entry := Some(e))], paths, rs + [Route(segs, Some(e))])
  {
    hide With, LastExact, Keys;
    var final := nodes[node := nodes[node].(entry := Some(e))];
    var after := rs + [Route(segs, Some(e))];
    forall n | 0 <= n < |nodes| ensures NodeHolds(final, paths, after, n) {
      assert NodeHolds(nodes, paths, rs + [Unfinished(segs)], n);
      assert n != node ==> paths[n] != paths[node];
      forall s ensures s in final[n].kids <==> With(after, paths[n] + [Literal(s)]) != [] {
        RouteEnds(rs, segs, e, paths[n] + [Literal(s)]);
      }
      RouteEnds(rs, segs, e, paths[n] + [Wildcard]);
      RouteEnds(rs, segs, e, paths[n]);
    }
  }

  lemma RouteEnds<E>(rs: seq<Route<E>>, segs: seq<string>, e: E, x: seq<Key>)
    ensures var before, after := With(rs + [Unfinished(segs)], x), With(rs + [Route(segs, Some(e))], x);
      && (after == [] <==> before == [])
      && (before != [] ==> after[0].segs == before[0].segs)
      && LastExact(after, |x|) == if x == Keys(segs) then Some(e) else LastExact(before, |x|)
  {
    hide With, LastExact;
    var r, t := Unfinished<E>(segs), Route(segs, Some(e));
    WithAppend(rs, r, x);
    WithAppend(rs, t, x);
    LastExactAppend(With(rs, x), r, |x|);
    LastExactAppend(With(rs, x), t, |x|);
    if Begins(r, x) && |x| == |segs| { assert x == Keys(segs); }
  }

  lemma RootPath<E(!new)>(nodes: seq<Node<E>>, paths: seq<seq<Key>>, rs: seq<Route<E>>)
    requires Holds(nodes, paths, rs)
    ensures |nodes| == |paths| > 0 && paths[0] == Keys([])
  {
  }

  /** A node's child under a segment is there exactly when some route goes on that way. */
  lemma Child<E(!new)>(nodes: seq<Node<E>>, paths: seq<seq<Key>>, rs: seq<Route<E>>, node: nat, seg: string)
    requires Holds(nodes, paths, rs) && node < |nodes|
    ensures |nodes| == |paths|
    ensures var child := if IsWild(seg) then nodes[node].wild
        else if seg in nodes[node].kids then Some(nodes[node].kids[seg]) else None;
      && (child.Some? <==> With(rs, paths[node] + [KeyOf(seg)]) != [])
      && (child.Some? ==> child.value < |nodes| && paths[child.value] == paths[node] + [KeyOf(seg)])
  {
    hide With, LastExact, NameAt;
    assert NodeHolds(nodes, paths, rs, node);
  }

  // ------------------------------------------------------------------ the router object

  /** The router for one request method: exact paths in a table, patterns in the trie. */
  class Routes<E(!new)> {
    var table: map<string, E>
    var nodes: seq<Node<E>>
    ghost var paths: seq<seq<Key>>
    ghost var patterns: seq<Route<E>>

    ghost predicate Valid()
      reads this
    {
      Holds(nodes, paths, patterns)
    }

    constructor ()
      ensures Valid() && table == map[] && patterns == []
    {
      table := map[];
      nodes := [Node(map[], None, "", None)];
      paths := [[]];
      patterns := [];
    }

    /** Walk down from the root, making the nodes that are missing. */
    method Insert(path: string, entry: E)
      requires Valid()
      modifies this`nodes, this`paths, this`patterns
      ensures Valid()
      ensures patterns == old(patterns) + [Route(Segments(path), Some(entry))]
    {
      hide Holds, Keys, With, Grown, KeyOf;
      var segs := Split(path);
      ghost var rs := patterns;
      var node: nat := 0;
      var i := 0;
      RootPath(nodes, paths, rs);
      StartHolds(nodes, paths, rs);
      assert segs[..0] == [];
      while i < |segs|
        invariant 0 <= i <= |segs| && patterns == rs
        invariant |nodes| == |paths| && node < |nodes| && paths[node] == Keys(segs[..i])
        invariant Holds(nodes, paths, rs + [Unfinished(segs[..i])])
      {
        var seg := segs[i];
        assert segs[..i + 1] == segs[..i] + [seg];
        KeysAppend(segs[..i], seg);
        Child(nodes, paths, rs + [Unfinished(segs[..i])], node, seg);
        var child := if IsWild(seg) then nodes[node].wild
          else if seg in nodes[node].kids then Some(nodes[node].kids[seg]) else None;
        if child.None? {
          StepGrown(nodes, paths, rs, segs[..i], seg, node);
          node, nodes, paths := |nodes|, Grown(nodes, node, seg), paths + [Keys(segs[..i]) + [KeyOf(seg)]];
        } else {
          StepKept(nodes, paths, rs, segs[..i], seg);
          node := child.value;
        }
        i := i + 1;
      }
      assert segs[..i] == segs;
      EntrySet(nodes, paths, rs, segs, entry, node);
      nodes := nodes[node := nodes[node].(entry := Some(entry))];
      patterns := patterns + [Route(segs, Some(entry))];
    }

    method Add(path: string, entry: E)
      requires Valid()
      modifies this
      ensures Valid()
      ensures if ':' in path || '*' in path
        then table == old(table) && patterns == old(patterns) + [Route(Segments(path), Some(entry))]
        else table == old(table)[path := entry] && patterns == old(patterns)
    {
      if ':' in path || '*' in path { Insert(path, entry); } else { table := table[path := entry]; }
    }

    /** An exact registration wins; otherwise the patterns are searched as a list. */
    method Find(path: string) returns (found: Found<E>)
      requires Valid()
      ensures found == if path in table then Hit(table[path], [])
                       else Search(patterns, Segments(path), 0, [])
    {
      if path in table { return Hit(table[path], []); }
      var q := Split(path);
      found := Match(nodes, paths, patterns, q);
    }
  }
}
