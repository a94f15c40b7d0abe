/**
 * The routing prefix tree of the Gee web framework (Gee-WEB/gee/trie.go).
 *
 * Every node is created by exactly one parent's append, so the pointer
 * structure of the Go code is a true tree and is modelled here as a value:
 * operations that update a node in place return the updated node instead.
 * A child returned by `matchChild` is identified by its index in `children`.
 */
module Trie {

  datatype Option<T> = None | Some(value: T)

  /**
   * A node of the prefix tree.
   *   pattern  - the full registered route; "" on a node that ends no route
   *   part     - the one path segment this node stands for, e.g. ":lang"
   *   children - the child nodes, in the order they were created
   *   isWild   - whether the segment is a capture (":name" or "*name")
   */
  datatype Node = Node(pattern: string, part: string, children: seq<Node>, isWild: bool)

  /** A segment is a capture when its first character is ':' or '*'. */
  predicate IsWildPart(part: string)
  {
    |part| > 0 && (part[0] == ':' || part[0] == '*')
  }

  /** strings.HasPrefix(s, "*") */
  predicate StartsWithStar(s: string)
  {
    |s| > 0 && s[0] == '*'
  }

  /** Segments handed to `insert` are never empty (indexing part[0] would panic). */
  predicate ValidParts(parts: seq<string>)
  {
    forall k :: 0 <= k < |parts| ==> parts[k] != ""
  }

  /** The condition shared by matchChild and matchChildren. */
  predicate Matches(child: Node, part: string)
  {
    child.part == part || child.isWild
  }

  /** The index of the first child that matches `part`, if any. */
  function FirstMatch(cs: seq<Node>, part: string): (r: Option<nat>)
    ensures r.Some? ==> r.value < |cs| && Matches(cs[r.value], part)
  {
    if cs == [] then None
    else if Matches(cs[0], part) then Some(0)
    else match FirstMatch(cs[1..], part)
      case None => None
      case Some(i) => Some(i + 1)
  }

  /** FirstMatch finds the first matching child, and finds none only when no child matches. */
  lemma {:induction false} FirstMatchIsFirst(cs: seq<Node>, part: string)
    ensures FirstMatch(cs, part).Some? ==> forall j :: 0 <= j < FirstMatch(cs, part).value ==> !Matches(cs[j], part)
    ensures FirstMatch(cs, part).None? <==> forall j :: 0 <= j < |cs| ==> !Matches(cs[j], part)
  {
    if cs != [] {
      FirstMatchIsFirst(cs[1..], part);
      assert forall j :: 1 <= j < |cs| ==> cs[j] == cs[1..][j - 1];
    }
  }

  /** The children that match `part`, in their original order. */
  function MatchingChildren(cs: seq<Node>, part: string): (r: seq<Node>)
    ensures |r| <= |cs|
    ensures r == [] <==> FirstMatch(cs, part).None?
    ensures r != [] ==> r[0] == cs[FirstMatch(cs, part).value]
  {
    if cs == [] then []
    else if Matches(cs[0], part) then [cs[0]] + MatchingChildren(cs[1..], part)
    else MatchingChildren(cs[1..], part)
  }

  /** matchChild (trie.go:14-23): a loop over the children that stops at the first match. */
  method MatchChild(n: Node, part: string) returns (r: Option<nat>)
    ensures r == FirstMatch(n.children, part)
  {
    FirstMatchIsFirst(n.children, part);
    var i := 0;
    while i < |n.children|
      invariant 0 <= i <= |n.children|
      invariant forall j :: 0 <= j < i ==> !Matches(n.children[j], part)
    {
      var child := n.children[i];
      if child.part == part || child.isWild {
        return Some(i);
      }
      i := i + 1;
    }
    return None;
  }

  /** matchChildren (trie.go:27-37): a loop that collects every matching child. */
  method MatchChildren(n: Node, part: string) returns (nodes: seq<Node>)
    ensures nodes == MatchingChildren(n.children, part)
  {
    nodes := [];
    var i := 0;
    while i < |n.children|
      invariant 0 <= i <= |n.children|
      invariant nodes + MatchingChildren(n.children[i..], part) == MatchingChildren(n.children, part)
    {
      var child := n.children[i];
      MatchingChildrenStep(n.children, part, i);
      if child.part == part || child.isWild {
        nodes := nodes + [child];
      }
      i := i + 1;
    }
  }

  /** One step of the filter, taken at position i. */
  lemma MatchingChildrenStep(cs: seq<Node>, part: string, i: nat)
    requires i < |cs|
    ensures MatchingChildren(cs[i..], part)
         == (if Matches(cs[i], part) then [cs[i]] else []) + MatchingChildren(cs[i + 1..], part)
  {
    assert cs[i..][0] == cs[i] && cs[i..][1..] == cs[i + 1..];
  }

  /** The node `insert` creates for a segment that no child matches (trie.go:57). */
  function NewChild(part: string): (c: Node)
    requires part != ""
    ensures c.pattern == "" && c.part == part && c.children == []
    ensures c.isWild <==> IsWildPart(part)
  {
    Node("", part, [], part[0] == ':' || part[0] == '*')
  }

  /** The child `insert` descends into at height h: the first matching child, or a new one. */
  function PathChild(n: Node, parts: seq<string>, h: nat): (c: Node)
    requires h < |parts| && ValidParts(parts)
    ensures Matches(c, parts[h])
  {
    match FirstMatch(n.children, parts[h])
    case Some(i) => n.children[i]
    case None => NewChild(parts[h])
  }

  /** Where that child sits in `children`: its index, or one past the end when it is new. */
  function PathIndex(n: Node, parts: seq<string>, h: nat): (j: nat)
    requires h < |parts|
    ensures j <= |n.children|
  {
    match FirstMatch(n.children, parts[h])
    case Some(i) => i
    case None => |n.children|
  }

  /** Puts `x` at position j: replaces an existing child, or appends when j is one past the end. */
  function Put(cs: seq<Node>, j: nat, x: Node): (r: seq<Node>)
    requires j <= |cs|
    ensures |r| == if j < |cs| then |cs| else |cs| + 1
    ensures r[j] == x
  {
    if j < |cs| then cs[j := x] else cs + [x]
  }

  /**
   * insert (trie.go:47-62): stamps `pattern` on the node reached after the
   * last segment, descending at each level into the first matching child,
   * or into a new child appended at the end when none matches.
   */
  function Insert(n: Node, pattern: string, parts: seq<string>, h: nat): (r: Node)
    requires h <= |parts| && ValidParts(parts)
    ensures r.part == n.part && r.isWild == n.isWild
    ensures h < |parts| ==> r.pattern == n.pattern
    decreases |parts| - h
  {
    if |parts| == h then n.(pattern := pattern)
    else
      var child := Insert(PathChild(n, parts, h), pattern, parts, h + 1);
      n.(children := Put(n.children, PathIndex(n, parts, h), child))
  }

  /** The imperative form of `insert`, calling the matchChild loop. */
  method InsertNode(n: Node, pattern: string, parts: seq<string>, h: nat) returns (r: Node)
    requires h <= |parts| && ValidParts(parts)
    ensures r == Insert(n, pattern, parts, h)
    decreases |parts| - h
  {
    if |parts| == h {
      return n.(pattern := pattern);
    }
    var part := parts[h];
    var i := MatchChild(n, part);
    if i.None? {
      var child := InsertNode(NewChild(part), pattern, parts, h + 1);
      return n.(children := n.children + [child]);
    }
    var child := InsertNode(n.children[i.value], pattern, parts, h + 1);
    return n.(children := n.children[i.value := child]);
  }

  /** The node reached by following parts[h..] through the first matching child at each level. */
  function Follow(n: Node, parts: seq<string>, h: nat): Option<Node>
    requires h <= |parts|
    decreases |parts| - h
  {
    if |parts| == h then Some(n)
    else match FirstMatch(n.children, parts[h])
      case None => None
      case Some(i) => Follow(n.children[i], parts, h + 1)
  }

  /**
   * search (trie.go:64-85): stops when the segments run out or at a node
   * whose part starts with '*', and succeeds only on a node with a
   * pattern; otherwise tries the matching children in order.
   */
  function Search(n: Node, parts: seq<string>, h: nat): (r: Option<Node>)
    requires h <= |parts|
    ensures r.Some? ==> r.value.pattern != ""
    decreases |parts| - h, 1
  {
    if |parts| == h || StartsWithStar(n.part) then
      (if n.pattern == "" then None else Some(n))
    else
      SearchChildren(MatchingChildren(n.children, parts[h]), parts, h + 1)
  }

  /** The result of the first candidate whose search succeeds. */
  function SearchChildren(cs: seq<Node>, parts: seq<string>, h: nat): (r: Option<Node>)
    requires h <= |parts|
    ensures r.Some? ==> r.value.pattern != ""
    decreases |parts| - h + 1, 0, |cs|
  {
    if cs == [] then None
    else match Search(cs[0], parts, h)
      case Some(x) => Some(x)
      case None => SearchChildren(cs[1..], parts, h)
  }

  /** The imperative search: recursion plus a loop over the candidates. */
  method SearchNode(n: Node, parts: seq<string>, h: nat) returns (r: Option<Node>)
    requires h <= |parts|
    ensures r == Search(n, parts, h)
    decreases |parts| - h
  {
    if |parts| == h || StartsWithStar(n.part) {
      if n.pattern == "" {
        return None;
      }
      return Some(n);
    }
    var part := parts[h];
    var children := MatchChildren(n, part);
    var i := 0;
    while i < |children|
      invariant 0 <= i <= |children|
      invariant SearchChildren(children[i..], parts, h + 1) == SearchChildren(children, parts, h + 1)
    {
      assert children[i..][1..] == children[i + 1..];
      var result := SearchNode(children[i], parts, h + 1);
      if result.Some? {
        return result;
      }
      i := i + 1;
    }
    return None;
  }

  /** Shape of a tree: everything but the patterns. */
  datatype Skeleton = Skeleton(part: string, isWild: bool, children: seq<Skeleton>)

  function Shape(n: Node): (s: Skeleton)
    ensures s.part == n.part && s.isWild == n.isWild && |s.children| == |n.children|
    decreases n
  {
    Skeleton(n.part, n.isWild, seq(|n.children|, i requires 0 <= i < |n.children| => Shape(n.children[i])))
  }
}
