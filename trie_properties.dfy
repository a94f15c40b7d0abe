/**
 * What the routing prefix tree promises: the matchChildren filter is exact,
 * insert stamps the pattern at the end of the path it follows and keeps
 * every existing child, re-insertion changes no shape, insert keeps the
 * sibling discipline that makes at most one capture branch per level, and
 * search returns only route ends, tries candidates in order and finds what
 * insert registered.
 */
module TrieProperties {
  import opened Trie

  /** Non-greedy subsequence: `a` can be obtained from `b` by deleting elements. */
  ghost predicate IsSubsequence(a: seq<Node>, b: seq<Node>)
  {
    a == [] || (b != [] && ((a[0] == b[0] && IsSubsequence(a[1..], b[1..])) || IsSubsequence(a, b[1..])))
  }

  /**
   * matchChildren keeps exactly the matching children, as a subsequence of
   * `children`, each as many times as it occurs there.
   */
  lemma {:induction false} MatchingChildrenExact(cs: seq<Node>, part: string)
    ensures forall x :: x in MatchingChildren(cs, part) ==> x in cs && Matches(x, part)
    ensures forall j :: 0 <= j < |cs| && Matches(cs[j], part) ==> cs[j] in MatchingChildren(cs, part)
    ensures IsSubsequence(MatchingChildren(cs, part), cs)
    ensures forall x :: multiset(MatchingChildren(cs, part))[x] == if Matches(x, part) then multiset(cs)[x] else 0
  {
    if cs != [] {
      MatchingChildrenExact(cs[1..], part);
      var rest := MatchingChildren(cs[1..], part);
      assert cs == [cs[0]] + cs[1..];
      assert multiset(cs) == multiset{cs[0]} + multiset(cs[1..]);
      forall j | 0 <= j < |cs| && Matches(cs[j], part)
        ensures cs[j] in MatchingChildren(cs, part)
      {
        if j > 0 {
          assert cs[j] == cs[1..][j - 1];
        }
      }
      if Matches(cs[0], part) {
        assert MatchingChildren(cs, part) == [cs[0]] + rest;
        assert ([cs[0]] + rest)[1..] == rest;
      }
    }
  }

  /** Replacing the matched child by one with the same part and isWild keeps it the first match. */
  lemma FirstMatchAfterUpdate(cs: seq<Node>, part: string, i: nat, c: Node)
    requires FirstMatch(cs, part) == Some(i)
    requires c.part == cs[i].part && c.isWild == cs[i].isWild
    ensures FirstMatch(cs[i := c], part) == Some(i)
  {
    var cs' := cs[i := c];
    FirstMatchIsFirst(cs, part);
    FirstMatchIsFirst(cs', part);
    assert Matches(cs'[i], part);
    assert forall j :: 0 <= j < i ==> cs'[j] == cs[j];
  }

  /** When nothing matched, an appended child that matches becomes the first match. */
  lemma FirstMatchAfterAppend(cs: seq<Node>, part: string, c: Node)
    requires FirstMatch(cs, part).None?
    requires Matches(c, part)
    ensures FirstMatch(cs + [c], part) == Some(|cs|)
  {
    var cs' := cs + [c];
    FirstMatchIsFirst(cs, part);
    FirstMatchIsFirst(cs', part);
    assert cs'[|cs|] == c;
    assert forall j :: 0 <= j < |cs| ==> cs'[j] == cs[j];
  }

  /**
   * After insert at height h, the first child matching parts[h] is the one
   * insert descended into, at PathIndex, and it is the inserted-into PathChild.
   */
  lemma InsertDescends(n: Node, p: string, parts: seq<string>, h: nat)
    requires h < |parts| && ValidParts(parts)
    ensures var r := Insert(n, p, parts, h);
      && PathIndex(n, parts, h) < |r.children|
      && FirstMatch(r.children, parts[h]) == Some(PathIndex(n, parts, h))
      && r.children[PathIndex(n, parts, h)] == Insert(PathChild(n, parts, h), p, parts, h + 1)
  {
    var r := Insert(n, p, parts, h);
    var c := Insert(PathChild(n, parts, h), p, parts, h + 1);
    match FirstMatch(n.children, parts[h])
    case Some(i) =>
      FirstMatchAfterUpdate(n.children, parts[h], i, c);
    case None =>
      FirstMatchAfterAppend(n.children, parts[h], c);
  }

  /** After insert(pattern, parts, h), following parts[h..] reaches a node carrying `pattern`. */
  lemma {:induction false} InsertStampsPattern(n: Node, p: string, parts: seq<string>, h: nat)
    requires h <= |parts| && ValidParts(parts)
    ensures Follow(Insert(n, p, parts, h), parts, h).Some?
    ensures Follow(Insert(n, p, parts, h), parts, h).value.pattern == p
    decreases |parts| - h
  {
    if h < |parts| {
      InsertDescends(n, p, parts, h);
      InsertStampsPattern(PathChild(n, parts, h), p, parts, h + 1);
    }
  }

  /**
   * insert appends a child only when no child matched, at the end; every
   * other existing child stays where it was. The appended child stands
   * for parts[h], is a capture exactly when that segment is, and carries
   * a pattern only when it ends the route.
   */
  lemma InsertKeepsSiblings(n: Node, p: string, parts: seq<string>, h: nat)
    requires h < |parts| && ValidParts(parts)
    ensures var r := Insert(n, p, parts, h);
      && |r.children| == |n.children| + (if FirstMatch(n.children, parts[h]).None? then 1 else 0)
      && (forall j :: 0 <= j < |n.children| && j != PathIndex(n, parts, h) ==> r.children[j] == n.children[j])
      && r.pattern == n.pattern
  {
    PutKeepsOthers(n.children, PathIndex(n, parts, h), Insert(PathChild(n, parts, h), p, parts, h + 1));
  }

  lemma PutKeepsOthers(cs: seq<Node>, j: nat, x: Node)
    requires j <= |cs|
    ensures forall k :: 0 <= k < |cs| && k != j ==> Put(cs, j, x)[k] == cs[k]
  {
  }

  lemma NewChildFields(n: Node, p: string, parts: seq<string>, h: nat)
    requires h < |parts| && ValidParts(parts)
    requires FirstMatch(n.children, parts[h]).None?
    ensures var c := Insert(n, p, parts, h).children[|n.children|];
      && c.part == parts[h]
      && (c.isWild <==> parts[h][0] == ':' || parts[h][0] == '*')
      && c.pattern == (if h + 1 == |parts| then p else "")
  {
  }

  /** Putting twice at the same position keeps only the second value. */
  lemma PutTwice(cs: seq<Node>, j: nat, x: Node, y: Node)
    requires j <= |cs|
    ensures Put(Put(cs, j, x), j, y) == Put(cs, j, y)
  {
  }

  /** Registering the same segments twice is the same as registering once with the later pattern. */
  lemma {:induction false} InsertTwice(n: Node, p: string, q: string, parts: seq<string>, h: nat)
    requires h <= |parts| && ValidParts(parts)
    ensures Insert(Insert(n, p, parts, h), q, parts, h) == Insert(n, q, parts, h)
    decreases |parts| - h
  {
    if h < |parts| {
      var r1 := Insert(n, p, parts, h);
      var c := PathChild(n, parts, h);
      var j := PathIndex(n, parts, h);
      var x := Insert(c, p, parts, h + 1);
      var y := Insert(c, q, parts, h + 1);
      assert r1 == n.(children := Put(n.children, j, x));
      assert PathIndex(r1, parts, h) == j && PathChild(r1, parts, h) == x by {
        InsertDescends(n, p, parts, h);
      }
      assert Insert(x, q, parts, h + 1) == y by {
        InsertTwice(c, p, q, parts, h + 1);
      }
      calc {
        Insert(r1, q, parts, h);
        r1.(children := Put(r1.children, j, Insert(x, q, parts, h + 1)));
        n.(children := Put(Put(n.children, j, x), j, y));
        { PutTwice(n.children, j, x, y); }
        n.(children := Put(n.children, j, y));
        Insert(n, q, parts, h);
      }
    }
  }

  /** When the path already exists, insert only changes patterns: the shape stays the same. */
  lemma {:induction false} InsertExistingPathKeepsShape(n: Node, p: string, parts: seq<string>, h: nat)
    requires h <= |parts| && ValidParts(parts)
    requires Follow(n, parts, h).Some?
    ensures Shape(Insert(n, p, parts, h)) == Shape(n)
    decreases |parts| - h
  {
    var r := Insert(n, p, parts, h);
    if h < |parts| {
      var i := FirstMatch(n.children, parts[h]).value;
      InsertExistingPathKeepsShape(n.children[i], p, parts, h + 1);
      assert r.children == n.children[i := Insert(n.children[i], p, parts, h + 1)];
      assert Shape(r).children == Shape(n).children by {
        forall k | 0 <= k < |n.children|
          ensures Shape(r).children[k] == Shape(n).children[k]
        {
        }
      }
    } else {
      assert Shape(r).children == Shape(n).children;
    }
  }

  /** Inserting the same segments a second time creates no node. */
  lemma ReinsertKeepsShape(n: Node, p: string, q: string, parts: seq<string>, h: nat)
    requires h <= |parts| && ValidParts(parts)
    ensures Shape(Insert(Insert(n, p, parts, h), q, parts, h)) == Shape(Insert(n, p, parts, h))
  {
    InsertStampsPattern(n, p, parts, h);
    InsertExistingPathKeepsShape(Insert(n, p, parts, h), q, parts, h);
  }

  /**
   * The sibling discipline insert maintains: parts of siblings are distinct,
   * non-empty and a capture exactly when they start with ':' or '*', and
   * only the last child may be a capture.
   */
  ghost predicate WellFormedChildren(cs: seq<Node>)
  {
    && (forall k :: 0 <= k < |cs| ==> cs[k].part != "" && (cs[k].isWild <==> IsWildPart(cs[k].part)))
    && (forall j, k :: 0 <= j < k < |cs| ==> cs[j].part != cs[k].part)
    && (forall j :: 0 <= j < |cs| - 1 ==> !cs[j].isWild)
  }

  ghost predicate WellFormed(n: Node)
  {
    && WellFormedChildren(n.children)
    && (forall k :: 0 <= k < |n.children| ==> WellFormed(n.children[k]))
  }

  lemma WellFormedAfterReplace(cs: seq<Node>, i: nat, c: Node)
    requires WellFormedChildren(cs) && i < |cs|
    requires c.part == cs[i].part && c.isWild == cs[i].isWild
    ensures WellFormedChildren(cs[i := c])
  {
  }

  lemma WellFormedAfterAppend(cs: seq<Node>, c: Node)
    requires WellFormedChildren(cs)
    requires c.part != "" && (c.isWild <==> IsWildPart(c.part))
    requires forall k :: 0 <= k < |cs| ==> !Matches(cs[k], c.part)
    ensures WellFormedChildren(cs + [c])
  {
    var cs' := cs + [c];
    assert forall k :: 0 <= k < |cs| ==> cs'[k] == cs[k];
  }

  lemma {:induction false} InsertPreservesWellFormed(n: Node, p: string, parts: seq<string>, h: nat)
    requires h <= |parts| && ValidParts(parts)
    requires WellFormed(n)
    ensures WellFormed(Insert(n, p, parts, h))
    decreases |parts| - h
  {
    if h < |parts| {
      var c := PathChild(n, parts, h);
      PathChildWellFormed(n, parts, h);
      InsertPreservesWellFormed(c, p, parts, h + 1);
      InsertStepWellFormed(n, p, parts, h);
    } else {
      assert Insert(n, p, parts, h) == n.(pattern := p);
    }
  }

  /** The child insert descends into is well-formed: an existing child, or a new leaf. */
  lemma PathChildWellFormed(n: Node, parts: seq<string>, h: nat)
    requires h < |parts| && ValidParts(parts)
    requires WellFormed(n)
    ensures WellFormed(PathChild(n, parts, h))
  {
    match FirstMatch(n.children, parts[h])
    case Some(i) =>
      assert WellFormed(n.children[i]);
    case None =>
      assert WellFormedChildren([]);
  }

  /** One level of insert keeps the node well-formed once the child it puts back is. */
  lemma InsertStepWellFormed(n: Node, p: string, parts: seq<string>, h: nat)
    requires h < |parts| && ValidParts(parts)
    requires WellFormed(n) && WellFormed(Insert(PathChild(n, parts, h), p, parts, h + 1))
    ensures WellFormed(Insert(n, p, parts, h))
  {
    var c := Insert(PathChild(n, parts, h), p, parts, h + 1);
    var j := PathIndex(n, parts, h);
    assert Insert(n, p, parts, h) == n.(children := Put(n.children, j, c));
    WellFormedChildrenAfterInsert(n, parts, h, c);
    WellFormedAfterPut(n, j, c);
  }

  /** The child insert puts back keeps the sibling discipline. */
  lemma WellFormedChildrenAfterInsert(n: Node, parts: seq<string>, h: nat, c: Node)
    requires h < |parts| && ValidParts(parts)
    requires WellFormedChildren(n.children)
    requires c.part == PathChild(n, parts, h).part && c.isWild == PathChild(n, parts, h).isWild
    ensures WellFormedChildren(Put(n.children, PathIndex(n, parts, h), c))
  {
    match FirstMatch(n.children, parts[h])
    case Some(i) =>
      WellFormedAfterReplace(n.children, i, c);
    case None =>
      FirstMatchIsFirst(n.children, parts[h]);
      WellFormedAfterAppend(n.children, c);
  }

  /** A well-formed child put into well-formed children gives a well-formed node. */
  lemma WellFormedAfterPut(n: Node, j: nat, c: Node)
    requires WellFormed(n) && WellFormed(c) && j <= |n.children|
    requires WellFormedChildren(Put(n.children, j, c))
    ensures WellFormed(n.(children := Put(n.children, j, c)))
  {
    var cs := Put(n.children, j, c);
    PutKeepsOthers(n.children, j, c);
    forall k | 0 <= k < |cs|
      ensures WellFormed(cs[k])
    {
      if k != j {
        assert cs[k] == n.children[k];
      }
    }
  }

  /** Search over the candidates returns the first success, and fails only when all fail. */
  lemma {:induction false} SearchChildrenFirstSuccess(cs: seq<Node>, parts: seq<string>, h: nat)
    requires h <= |parts|
    ensures SearchChildren(cs, parts, h).None? <==> forall k :: 0 <= k < |cs| ==> Search(cs[k], parts, h).None?
    ensures SearchChildren(cs, parts, h).Some? ==>
      exists k :: 0 <= k < |cs| && Search(cs[k], parts, h) == SearchChildren(cs, parts, h)
        && forall j :: 0 <= j < k ==> Search(cs[j], parts, h).None?
    decreases |cs|
  {
    if cs != [] {
      SearchChildrenFirstSuccess(cs[1..], parts, h);
      assert forall k :: 1 <= k < |cs| ==> cs[k] == cs[1..][k - 1];
      if Search(cs[0], parts, h).None? {
        if SearchChildren(cs, parts, h).Some? {
          var k :| 0 <= k < |cs[1..]| && Search(cs[1..][k], parts, h) == SearchChildren(cs[1..], parts, h)
            && forall j :: 0 <= j < k ==> Search(cs[1..][j], parts, h).None?;
          assert Search(cs[k + 1], parts, h) == SearchChildren(cs, parts, h);
        }
      }
    }
  }

  /** A node whose part starts with '*' ends the search whatever segments remain. */
  lemma SearchStopsAtStar(n: Node, parts: seq<string>, h: nat, more: seq<string>)
    requires h <= |parts|
    requires StartsWithStar(n.part)
    ensures Search(n, parts + more, h) == Search(n, parts, h)
    ensures Search(n, parts, h).Some? <==> n.pattern != ""
    ensures Search(n, parts, h).Some? ==> Search(n, parts, h).value == n
  {
  }

  /** Search tries the first matching child first: when its search succeeds, that is the result. */
  lemma SearchPrefersFirstMatch(n: Node, parts: seq<string>, h: nat, i: nat)
    requires h < |parts| && !StartsWithStar(n.part)
    requires FirstMatch(n.children, parts[h]) == Some(i)
    requires Search(n.children[i], parts, h + 1).Some?
    ensures Search(n, parts, h) == Search(n.children[i], parts, h + 1)
  {
  }

  /** No node of the tree has a part starting with '*'. */
  ghost predicate StarFree(n: Node)
  {
    && !StartsWithStar(n.part)
    && (forall k :: 0 <= k < |n.children| ==> StarFree(n.children[k]))
  }

  /** No node of the tree is a capture. */
  ghost predicate NoCaptures(n: Node)
  {
    && !n.isWild
    && (forall k :: 0 <= k < |n.children| ==> NoCaptures(n.children[k]))
  }

  /**
   * In a tree without '*' segments, searching the very segments just
   * registered (named captures allowed) returns the node insert stamped.
   */
  lemma {:induction false} SearchFindsInserted(n: Node, p: string, parts: seq<string>, h: nat)
    requires h <= |parts| && ValidParts(parts) && p != ""
    requires StarFree(n)
    requires forall k :: h <= k < |parts| ==> !StartsWithStar(parts[k])
    ensures Search(Insert(n, p, parts, h), parts, h) == Follow(Insert(n, p, parts, h), parts, h)
    ensures Search(Insert(n, p, parts, h), parts, h).Some?
    ensures Search(Insert(n, p, parts, h), parts, h).value.pattern == p
    decreases |parts| - h
  {
    InsertStampsPattern(n, p, parts, h);
    if h < |parts| {
      var r := Insert(n, p, parts, h);
      var j := PathIndex(n, parts, h);
      var c := PathChild(n, parts, h);
      var c' := Insert(c, p, parts, h + 1);
      assert FirstMatch(r.children, parts[h]) == Some(j) && r.children[j] == c' by {
        InsertDescends(n, p, parts, h);
      }
      assert Search(c', parts, h + 1) == Follow(c', parts, h + 1) && Search(c', parts, h + 1).Some? by {
        SearchFindsInserted(c, p, parts, h + 1);
      }
      assert Follow(r, parts, h) == Follow(c', parts, h + 1);
      SearchPrefersFirstMatch(r, parts, h, j);
    }
  }

  /**
   * A route ending in a '*' segment, registered in a tree without captures
   * over literal segments, is found for the same segments followed by any
   * number of further segments.
   */
  lemma {:induction false} SearchWildcardAbsorbs(n: Node, p: string, parts: seq<string>, more: seq<string>, h: nat)
    requires h < |parts| && ValidParts(parts) && p != ""
    requires NoCaptures(n) && !StartsWithStar(n.part)
    requires forall k :: h <= k < |parts| - 1 ==> !IsWildPart(parts[k])
    requires StartsWithStar(parts[|parts| - 1])
    ensures var r := Search(Insert(n, p, parts, h), parts + more, h);
      r.Some? && r.value.pattern == p && r.value.part == parts[|parts| - 1]
    decreases |parts| - h
  {
    var req := parts + more;
    var r := Insert(n, p, parts, h);
    var j := PathIndex(n, parts, h);
    var c := PathChild(n, parts, h);
    var c' := Insert(c, p, parts, h + 1);
    assert req[h] == parts[h];
    assert FirstMatch(r.children, req[h]) == Some(j) && r.children[j] == c' by {
      InsertDescends(n, p, parts, h);
    }
    assert c.part == parts[h] && (h + 1 < |parts| ==> NoCaptures(c)) by {
      match FirstMatch(n.children, parts[h])
      case Some(i) =>
        assert NoCaptures(n.children[i]);
      case None =>
    }
    assert Search(c', req, h + 1).Some? && Search(c', req, h + 1).value.pattern == p
        && Search(c', req, h + 1).value.part == parts[|parts| - 1] by {
      if h + 1 < |parts| {
        SearchWildcardAbsorbs(c, p, parts, more, h + 1);
      } else {
        assert c' == c.(pattern := p);
      }
    }
    SearchPrefersFirstMatch(r, req, h, j);
  }
}
