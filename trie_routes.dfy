/**
 * Properties of the prefix tree over many registrations: in a tree of
 * literal routes, inserting one route leaves every other route's search
 * result unchanged, so after any sequence of literal registrations every
 * route is found with the pattern of its last registration; and a route
 * ending in a '*' segment is found for any request that agrees with its
 * literal segments.
 */
module TrieRoutes {
  import opened Trie
  import opened TrieProperties

  /** The pattern of the node search returns, if any. */
  function Found(r: Option<Node>): Option<string>
  {
    match r
    case None => None
    case Some(x) => Some(x.pattern)
  }

  /** The filter over the children with one more child at the end. */
  lemma {:induction false} MatchingChildrenAppend(cs: seq<Node>, x: Node, part: string)
    ensures MatchingChildren(cs + [x], part) == MatchingChildren(cs, part) + (if Matches(x, part) then [x] else [])
  {
    if cs == [] {
      assert cs + [x] == [x];
      assert [x][1..] == [];
    } else {
      assert (cs + [x])[0] == cs[0];
      assert (cs + [x])[1..] == cs[1..] + [x];
      MatchingChildrenAppend(cs[1..], x, part);
    }
  }

  /**
   * Two equally long rows of children that agree on which children match
   * and, for the matching ones, on the pattern their search finds, give
   * the same pattern when searched as candidates.
   */
  lemma {:induction false} SearchChildrenAgree(cs: seq<Node>, ds: seq<Node>, part: string, q: seq<string>, h: nat)
    requires h <= |q| && |cs| == |ds|
    requires forall k :: 0 <= k < |cs| ==> Matches(cs[k], part) == Matches(ds[k], part)
    requires forall k :: 0 <= k < |cs| && Matches(cs[k], part) ==> Found(Search(cs[k], q, h)) == Found(Search(ds[k], q, h))
    ensures Found(SearchChildren(MatchingChildren(cs, part), q, h)) == Found(SearchChildren(MatchingChildren(ds, part), q, h))
    decreases |cs|
  {
    if cs != [] {
      assert forall k :: 1 <= k < |cs| ==> cs[1..][k - 1] == cs[k] && ds[1..][k - 1] == ds[k];
      SearchChildrenAgree(cs[1..], ds[1..], part, q, h);
      if Matches(cs[0], part) {
        var a := MatchingChildren(cs, part);
        var b := MatchingChildren(ds, part);
        assert a[0] == cs[0] && a[1..] == MatchingChildren(cs[1..], part);
        assert b[0] == ds[0] && b[1..] == MatchingChildren(ds[1..], part);
      }
    }
  }

  /** Segments that differ from h on also differ from h + 1 on when they agree at h. */
  lemma SuffixesDiffer(q: seq<string>, parts: seq<string>, h: nat)
    requires h < |q| && h < |parts| && q[h..] != parts[h..] && q[h] == parts[h]
    ensures q[h + 1..] != parts[h + 1..]
  {
  }

  /** A last candidate whose search fails changes nothing. */
  lemma {:induction false} SearchChildrenAppendMiss(ms: seq<Node>, x: Node, q: seq<string>, h: nat)
    requires h <= |q| && Search(x, q, h).None?
    ensures SearchChildren(ms + [x], q, h) == SearchChildren(ms, q, h)
    decreases |ms|
  {
    if ms == [] {
      assert ms + [x] == [x];
      assert [x][1..] == [];
    } else {
      assert (ms + [x])[0] == ms[0];
      assert (ms + [x])[1..] == ms[1..] + [x];
      SearchChildrenAppendMiss(ms[1..], x, q, h);
    }
  }

  /** The child insert descends into along literal segments keeps the tree literal. */
  lemma LiteralPathChild(n: Node, parts: seq<string>, h: nat)
    requires h < |parts| && ValidParts(parts) && !IsWildPart(parts[h])
    requires NoCaptures(n) && StarFree(n)
    ensures var c := PathChild(n, parts, h);
      c.part == parts[h] && NoCaptures(c) && StarFree(c)
  {
    match FirstMatch(n.children, parts[h])
    case Some(i) =>
      assert NoCaptures(n.children[i]) && StarFree(n.children[i]);
    case None =>
  }

  /**
   * In a tree without captures or '*' segments, inserting a literal route
   * does not change which pattern, if any, search finds for any other
   * sequence of segments.
   */
  lemma {:induction false} LiteralInsertKeepsOthers(n: Node, p: string, parts: seq<string>, q: seq<string>, h: nat)
    requires h <= |parts| && ValidParts(parts) && h <= |q|
    requires NoCaptures(n) && StarFree(n)
    requires forall k :: h <= k < |parts| ==> !IsWildPart(parts[k])
    requires q[h..] != parts[h..]
    ensures Found(Search(Insert(n, p, parts, h), q, h)) == Found(Search(n, q, h))
    decreases |parts| - h, 1
  {
    var r := Insert(n, p, parts, h);
    if |q| == h {
      assert |parts| > h;
    } else if |parts| == h {
      assert r.children == n.children;
    } else {
      if PathIndex(n, parts, h) < |n.children| {
        LiteralReplaceStep(n, p, parts, q, h);
      } else {
        LiteralAppendStep(n, p, parts, q, h);
      }
    }
  }

  /** The case of LiteralInsertKeepsOthers where insert appends a new child. */
  lemma {:induction false} LiteralAppendStep(n: Node, p: string, parts: seq<string>, q: seq<string>, h: nat)
    requires h < |parts| && ValidParts(parts) && h < |q|
    requires NoCaptures(n) && StarFree(n)
    requires forall k :: h <= k < |parts| ==> !IsWildPart(parts[k])
    requires q[h..] != parts[h..]
    requires PathIndex(n, parts, h) == |n.children|
    ensures Found(SearchChildren(MatchingChildren(Insert(n, p, parts, h).children, q[h]), q, h + 1))
         == Found(SearchChildren(MatchingChildren(n.children, q[h]), q, h + 1))
    decreases |parts| - h, 0
  {
    var c := NewChild(parts[h]);
    var c' := Insert(c, p, parts, h + 1);
    assert Insert(n, p, parts, h).children == n.children + [c'];
    assert !c'.isWild && c'.part == parts[h];
    MatchingChildrenAppend(n.children, c', q[h]);
    if Matches(c', q[h]) {
      SuffixesDiffer(q, parts, h);
      LiteralInsertKeepsOthers(c, p, parts, q, h + 1);
      assert Search(c, q, h + 1) == None;
      assert Search(c', q, h + 1) == None;
      assert MatchingChildren(n.children + [c'], q[h]) == MatchingChildren(n.children, q[h]) + [c'];
      SearchChildrenAppendMiss(MatchingChildren(n.children, q[h]), c', q, h + 1);
    } else {
      assert MatchingChildren(n.children + [c'], q[h]) == MatchingChildren(n.children, q[h]);
    }
  }

  /** The case of LiteralInsertKeepsOthers where insert descends into an existing child. */
  lemma {:induction false} LiteralReplaceStep(n: Node, p: string, parts: seq<string>, q: seq<string>, h: nat)
    requires h < |parts| && ValidParts(parts) && h < |q|
    requires NoCaptures(n) && StarFree(n)
    requires forall k :: h <= k < |parts| ==> !IsWildPart(parts[k])
    requires q[h..] != parts[h..]
    requires PathIndex(n, parts, h) < |n.children|
    ensures Found(SearchChildren(MatchingChildren(Insert(n, p, parts, h).children, q[h]), q, h + 1))
         == Found(SearchChildren(MatchingChildren(n.children, q[h]), q, h + 1))
    decreases |parts| - h, 0
  {
    var j := PathIndex(n, parts, h);
    var c := PathChild(n, parts, h);
    var c' := Insert(c, p, parts, h + 1);
    var ds := Insert(n, p, parts, h).children;
    LiteralPathChild(n, parts, h);
    assert ds == n.children[j := c'];
    assert forall k :: 0 <= k < |ds| ==> Matches(n.children[k], q[h]) == Matches(ds[k], q[h]);
    forall k | 0 <= k < |ds| && Matches(n.children[k], q[h])
      ensures Found(Search(n.children[k], q, h + 1)) == Found(Search(ds[k], q, h + 1))
    {
      if k == j {
        SuffixesDiffer(q, parts, h);
        LiteralInsertKeepsOthers(c, p, parts, q, h + 1);
      }
    }
    SearchChildrenAgree(n.children, ds, q[h], q, h + 1);
  }

  /** One registration: the pattern and its segments. */
  datatype Registration = Registration(pattern: string, parts: seq<string>)

  /** A route of literal segments only, with a pattern. */
  predicate Literal(rt: Registration)
  {
    rt.pattern != "" && ValidParts(rt.parts) && forall k :: 0 <= k < |rt.parts| ==> !IsWildPart(rt.parts[k])
  }

  /** The tree after inserting each registration in order, starting from n. */
  function InsertAll(n: Node, routes: seq<Registration>): Node
    requires forall i :: 0 <= i < |routes| ==> Literal(routes[i])
  {
    if routes == [] then n
    else
      var last := routes[|routes| - 1];
      assert Literal(last);
      Insert(InsertAll(n, routes[..|routes| - 1]), last.pattern, last.parts, 0)
  }

  /** Inserting literal segments keeps a tree without captures or '*' segments so. */
  lemma {:induction false} InsertKeepsLiteralTree(n: Node, p: string, parts: seq<string>, h: nat)
    requires h <= |parts| && ValidParts(parts)
    requires forall k :: h <= k < |parts| ==> !IsWildPart(parts[k])
    requires NoCaptures(n) && StarFree(n)
    ensures NoCaptures(Insert(n, p, parts, h)) && StarFree(Insert(n, p, parts, h))
    decreases |parts| - h
  {
    if h < |parts| {
      var j := PathIndex(n, parts, h);
      var c := PathChild(n, parts, h);
      var c' := Insert(c, p, parts, h + 1);
      var cs := Put(n.children, j, c');
      LiteralPathChild(n, parts, h);
      InsertKeepsLiteralTree(c, p, parts, h + 1);
      PutKeepsOthers(n.children, j, c');
      assert forall k :: 0 <= k < |cs| ==> NoCaptures(cs[k]) && StarFree(cs[k]) by {
        forall k | 0 <= k < |cs|
          ensures NoCaptures(cs[k]) && StarFree(cs[k])
        {
          if k != j {
            assert cs[k] == n.children[k];
          }
        }
      }
      assert Insert(n, p, parts, h) == n.(children := cs);
    }
  }

  lemma {:induction false} InsertAllKeepsLiteralTree(n: Node, routes: seq<Registration>)
    requires forall i :: 0 <= i < |routes| ==> Literal(routes[i])
    requires NoCaptures(n) && StarFree(n)
    ensures NoCaptures(InsertAll(n, routes)) && StarFree(InsertAll(n, routes))
  {
    if routes != [] {
      var init := routes[..|routes| - 1];
      assert forall i :: 0 <= i < |init| ==> init[i] == routes[i];
      InsertAllKeepsLiteralTree(n, init);
      var last := routes[|routes| - 1];
      InsertKeepsLiteralTree(InsertAll(n, init), last.pattern, last.parts, 0);
    }
  }

  /**
   * After literal routes are inserted in order into a tree without
   * captures or '*' segments, searching the segments of any one of them
   * finds the pattern of the last registration of those segments.
   */
  lemma {:induction false} RegisteredRouteFound(n: Node, routes: seq<Registration>, i: nat)
    requires forall k :: 0 <= k < |routes| ==> Literal(routes[k])
    requires NoCaptures(n) && StarFree(n)
    requires i < |routes|
    requires forall k :: i < k < |routes| ==> routes[k].parts != routes[i].parts
    ensures Found(Search(InsertAll(n, routes), routes[i].parts, 0)) == Some(routes[i].pattern)
  {
    var init := routes[..|routes| - 1];
    var last := routes[|routes| - 1];
    assert forall k :: 0 <= k < |init| ==> init[k] == routes[k];
    var t := InsertAll(n, init);
    InsertAllKeepsLiteralTree(n, init);
    assert InsertAll(n, routes) == Insert(t, last.pattern, last.parts, 0);
    if i == |routes| - 1 {
      SearchFindsInserted(t, last.pattern, last.parts, 0);
    } else {
      RegisteredRouteFound(n, init, i);
      assert routes[i].parts[0..] != last.parts[0..] by {
        assert routes[i].parts[0..] == routes[i].parts && last.parts[0..] == last.parts;
      }
      LiteralInsertKeepsOthers(t, last.pattern, last.parts, routes[i].parts, 0);
    }
  }

  /** No node below n stands for the segment s. */
  ghost predicate NoChildPart(n: Node, s: string)
  {
    forall k :: 0 <= k < |n.children| ==> n.children[k].part != s && NoChildPart(n.children[k], s)
  }

  /** A matching child with no matching child before it is the first match. */
  lemma FirstMatchAt(cs: seq<Node>, part: string, j: nat)
    requires j < |cs| && Matches(cs[j], part)
    requires forall k :: 0 <= k < j ==> !Matches(cs[k], part)
    ensures FirstMatch(cs, part) == Some(j)
  {
    FirstMatchIsFirst(cs, part);
  }

  /**
   * The last level of SearchWildcardAbsorbsAny: the new '*' child is the
   * first child matching the request's segment at that position.
   */
  lemma WildcardLeaf(n: Node, p: string, parts: seq<string>, req: seq<string>, h: nat)
    requires h + 1 == |parts| <= |req| && ValidParts(parts)
    requires NoCaptures(n) && StarFree(n)
    requires StartsWithStar(parts[h])
    requires NoChildPart(n, req[h])
    ensures var r := Insert(n, p, parts, h);
      var j := PathIndex(n, parts, h);
      j < |r.children| && FirstMatch(r.children, req[h]) == Some(j) &&
      r.children[j].pattern == p && r.children[j].part == parts[h]
  {
    var r := Insert(n, p, parts, h);
    var j := PathIndex(n, parts, h);
    var c := PathChild(n, parts, h);
    assert FirstMatch(n.children, parts[h]).None? by {
      forall k | 0 <= k < |n.children|
        ensures !Matches(n.children[k], parts[h])
      {
        assert StarFree(n.children[k]) && NoCaptures(n.children[k]);
      }
      FirstMatchIsFirst(n.children, parts[h]);
    }
    assert r.children == n.children + [c.(pattern := p)] && c.isWild;
    forall k | 0 <= k < j
      ensures !Matches(r.children[k], req[h])
    {
      assert r.children[k] == n.children[k];
      assert NoCaptures(n.children[k]);
    }
    FirstMatchAt(r.children, req[h], j);
  }

  /**
   * A route of literals ending in a '*' segment, inserted into a tree
   * without captures or '*' segments, is found at its '*' node for every
   * request that repeats its literal segments and has at least one segment
   * at the '*' position, whatever that segment and the ones after it are,
   * provided no existing node stands for the segment at the '*' position.
   */
  lemma {:induction false} SearchWildcardAbsorbsAny(n: Node, p: string, parts: seq<string>, req: seq<string>, h: nat)
    requires h < |parts| <= |req| && ValidParts(parts) && p != ""
    requires NoCaptures(n) && StarFree(n)
    requires forall k :: h <= k < |parts| - 1 ==> !IsWildPart(parts[k]) && req[k] == parts[k]
    requires StartsWithStar(parts[|parts| - 1])
    requires NoChildPart(n, req[|parts| - 1])
    ensures var r := Search(Insert(n, p, parts, h), req, h);
      r.Some? && r.value.pattern == p && r.value.part == parts[|parts| - 1]
    decreases |parts| - h
  {
    var r := Insert(n, p, parts, h);
    var j := PathIndex(n, parts, h);
    if h + 1 < |parts| {
      var c := PathChild(n, parts, h);
      assert FirstMatch(r.children, req[h]) == Some(j) && r.children[j] == Insert(c, p, parts, h + 1) by {
        InsertDescends(n, p, parts, h);
      }
      assert NoChildPart(c, req[|parts| - 1]) by {
        match FirstMatch(n.children, parts[h])
        case Some(i) =>
          assert NoChildPart(n.children[i], req[|parts| - 1]);
        case None =>
      }
      LiteralPathChild(n, parts, h);
      SearchWildcardAbsorbsAny(c, p, parts, req, h + 1);
    } else {
      WildcardLeaf(n, p, parts, req, h);
      assert StartsWithStar(r.children[j].part);
    }
    SearchPrefersFirstMatch(r, req, h, j);
  }

  /** The request for static/css/a.css reaches the route of "static" and a wildcard, registered in an empty tree. */
  lemma StaticFileRequest()
    ensures var r := Search(Insert(Node("", "", [], false), "/static/*filepath", ["static", "*filepath"], 0), ["static", "css", "a.css"], 0);
      r.Some? && r.value.pattern == "/static/*filepath"
  {
    SearchWildcardAbsorbsAny(Node("", "", [], false), "/static/*filepath", ["static", "*filepath"], ["static", "css", "a.css"], 0);
  }
}
