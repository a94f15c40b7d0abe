/**
 * Concrete registrations and lookups on the prefix tree, pinning down the
 * capture, wildcard, overwrite and backtracking behaviour. The segments
 * are given already split, as the router hands them to insert and search.
 * Each example has two halves: a lemma stating the exact tree insert
 * builds, and a lemma stating what search returns on that tree.
 */
module TrieExamples {
  import opened Trie

  /** A router's empty root: no part, no pattern, no children. */
  function Root(): Node
  {
    Node("", "", [], false)
  }

  /** The tree of the single route "/p/:lang/doc". */
  function CaptureTree(): Node
  {
    var d := Node("/p/:lang/doc", "doc", [], false);
    var l := Node("", ":lang", [d], true);
    Node("", "", [Node("", "p", [l], false)], false)
  }

  lemma BuildCaptureTree()
    ensures Insert(Root(), "/p/:lang/doc", ["p", ":lang", "doc"], 0) == CaptureTree()
  {
    var parts := ["p", ":lang", "doc"];
    var pat := "/p/:lang/doc";
    var d := Node(pat, "doc", [], false);
    var l := Node("", ":lang", [d], true);
    var pn := Node("", "p", [l], false);
    assert Insert(NewChild("doc"), pat, parts, 3) == d;
    assert Insert(NewChild(":lang"), pat, parts, 2) == l;
    assert Insert(NewChild("p"), pat, parts, 1) == pn;
  }

  /** "/p/:lang/doc" is found for "/p/go/doc", and a named capture absorbs no extra segment. */
  lemma NamedCapture()
    ensures Search(CaptureTree(), ["p", "go", "doc"], 0).Some?
    ensures Search(CaptureTree(), ["p", "go", "doc"], 0).value.pattern == "/p/:lang/doc"
    ensures Search(CaptureTree(), ["p", "go", "doc", "extra"], 0).None?
  {
    var t := CaptureTree();
    var pn := t.children[0];
    var l := pn.children[0];
    var d := l.children[0];

    var req := ["p", "go", "doc"];
    assert SearchChildren([d], req, 3) == Some(d);
    assert MatchingChildren([d], "doc") == [d];
    assert SearchChildren([l], req, 2) == Some(d);
    assert MatchingChildren([l], "go") == [l];
    assert SearchChildren([pn], req, 1) == Some(d);
    assert MatchingChildren([pn], "p") == [pn];

    var extra := ["p", "go", "doc", "extra"];
    assert MatchingChildren([], "extra") == [];
    assert Search(d, extra, 3) == None;
    assert SearchChildren([d], extra, 3) == None;
    assert SearchChildren([l], extra, 2) == None;
    assert SearchChildren([pn], extra, 1) == None;
  }

  /** The tree of the single route "/static/" followed by the wildcard "*filepath". */
  function StaticTree(): Node
  {
    var f := Node("/static/*filepath", "*filepath", [], true);
    Node("", "", [Node("", "static", [f], false)], false)
  }

  lemma BuildStaticTree()
    ensures Insert(Root(), "/static/*filepath", ["static", "*filepath"], 0) == StaticTree()
  {
    var parts := ["static", "*filepath"];
    var pat := "/static/*filepath";
    var f := Node(pat, "*filepath", [], true);
    var s := Node("", "static", [f], false);
    assert Insert(NewChild("*filepath"), pat, parts, 2) == f;
    assert Insert(NewChild("static"), pat, parts, 1) == s;
  }

  /** A wildcard segment absorbs every remaining segment, but not an absent one. */
  lemma WildcardCapture()
    ensures Search(StaticTree(), ["static", "css", "a.css"], 0).Some?
    ensures Search(StaticTree(), ["static", "css", "a.css"], 0).value.pattern == "/static/*filepath"
    ensures Search(StaticTree(), ["static"], 0).None?
  {
    var t := StaticTree();
    var s := t.children[0];
    var f := s.children[0];

    var req := ["static", "css", "a.css"];
    assert StartsWithStar(f.part);
    assert SearchChildren([f], req, 2) == Some(f);
    assert MatchingChildren([f], "css") == [f];
    assert SearchChildren([s], req, 1) == Some(f);
    assert MatchingChildren([s], "static") == [s];

    var short := ["static"];
    assert Search(s, short, 1) == None;
    assert SearchChildren([s], short, 1) == None;
  }

  /** The tree of "/p/:lang" alone. */
  function LangTree(): Node
  {
    Node("", "", [Node("", "p", [Node("/p/:lang", ":lang", [], true)], false)], false)
  }

  /** The tree after "/p/:lang" and then "/p/go": still one capture node, now carrying "/p/go". */
  function OverwrittenTree(): Node
  {
    Node("", "", [Node("", "p", [Node("/p/go", ":lang", [], true)], false)], false)
  }

  lemma BuildLangTree()
    ensures Insert(Root(), "/p/:lang", ["p", ":lang"], 0) == LangTree()
  {
    var parts := ["p", ":lang"];
    var l := Node("/p/:lang", ":lang", [], true);
    var pn := Node("", "p", [l], false);
    assert Insert(NewChild(":lang"), "/p/:lang", parts, 2) == l;
    assert Insert(NewChild("p"), "/p/:lang", parts, 1) == pn;
  }

  /** A literal registered after a capture at the same position reuses the capture node. */
  lemma BuildOverwrittenTree()
    ensures Insert(LangTree(), "/p/go", ["p", "go"], 0) == OverwrittenTree()
  {
    var parts := ["p", "go"];
    var pn1 := LangTree().children[0];
    var l1 := pn1.children[0];
    var l2 := Node("/p/go", ":lang", [], true);
    var pn2 := Node("", "p", [l2], false);
    assert FirstMatch([l1], "go") == Some(0);
    assert Insert(l1, "/p/go", parts, 2) == l2;
    assert FirstMatch([pn1], "p") == Some(0);
    assert Insert(pn1, "/p/go", parts, 1) == pn2;
  }

  /** After the overwrite, every value of the capture leads to "/p/go". */
  lemma LiteralAfterCaptureOverwrites()
    ensures |OverwrittenTree().children| == 1 && |OverwrittenTree().children[0].children| == 1
    ensures OverwrittenTree().children[0].children[0].part == ":lang"
    ensures Search(OverwrittenTree(), ["p", "rust"], 0).Some?
    ensures Search(OverwrittenTree(), ["p", "rust"], 0).value.pattern == "/p/go"
  {
    var t := OverwrittenTree();
    var pn := t.children[0];
    var l := pn.children[0];
    var req := ["p", "rust"];
    assert SearchChildren([l], req, 2) == Some(l);
    assert MatchingChildren([l], "rust") == [l];
    assert SearchChildren([pn], req, 1) == Some(l);
    assert MatchingChildren([pn], "p") == [pn];
  }

  /** The tree of "/a/b/c" alone. */
  function LiteralTree(): Node
  {
    var b := Node("", "b", [Node("/a/b/c", "c", [], false)], false);
    Node("", "", [Node("", "a", [b], false)], false)
  }

  /** The tree of "/a/b/c" followed by "/a/:x/d": the capture is a second child of "a". */
  function BacktrackTree(): Node
  {
    var b := Node("", "b", [Node("/a/b/c", "c", [], false)], false);
    var x := Node("", ":x", [Node("/a/:x/d", "d", [], false)], true);
    Node("", "", [Node("", "a", [b, x], false)], false)
  }

  lemma BuildLiteralTree()
    ensures Insert(Root(), "/a/b/c", ["a", "b", "c"], 0) == LiteralTree()
  {
    var parts := ["a", "b", "c"];
    var c := Node("/a/b/c", "c", [], false);
    var b := Node("", "b", [c], false);
    var a := Node("", "a", [b], false);
    assert Insert(NewChild("c"), "/a/b/c", parts, 3) == c;
    assert Insert(NewChild("b"), "/a/b/c", parts, 2) == b;
    assert Insert(NewChild("a"), "/a/b/c", parts, 1) == a;
  }

  /** A capture registered after a literal at the same position becomes a new, later sibling. */
  lemma BuildBacktrackTree()
    ensures Insert(LiteralTree(), "/a/:x/d", ["a", ":x", "d"], 0) == BacktrackTree()
  {
    var parts := ["a", ":x", "d"];
    var a1 := LiteralTree().children[0];
    var b := a1.children[0];
    var d := Node("/a/:x/d", "d", [], false);
    var x := Node("", ":x", [d], true);
    var a2 := Node("", "a", [b, x], false);
    assert Insert(NewChild("d"), "/a/:x/d", parts, 3) == d;
    assert Insert(NewChild(":x"), "/a/:x/d", parts, 2) == x;
    assert FirstMatch([b], ":x") == None;
    assert Insert(a1, "/a/:x/d", parts, 1) == a2;
    assert FirstMatch([a1], "a") == Some(0);
  }

  /**
   * Search tries the literal first and backtracks into the capture when
   * the literal branch fails.
   */
  lemma LiteralFirstThenBacktrack()
    ensures |BacktrackTree().children[0].children| == 2
    ensures Search(BacktrackTree(), ["a", "b", "c"], 0).Some?
    ensures Search(BacktrackTree(), ["a", "b", "c"], 0).value.pattern == "/a/b/c"
    ensures Search(BacktrackTree(), ["a", "b", "d"], 0).Some?
    ensures Search(BacktrackTree(), ["a", "b", "d"], 0).value.pattern == "/a/:x/d"
  {
    var t := BacktrackTree();
    var a := t.children[0];
    var b := a.children[0];
    var x := a.children[1];
    var c := b.children[0];
    var d := x.children[0];

    var hit := ["a", "b", "c"];
    assert SearchChildren([c], hit, 3) == Some(c);
    assert MatchingChildren([c], "c") == [c];
    assert SearchChildren([b, x], hit, 2) == Some(c);
    assert MatchingChildren([b, x], "b") == [b, x];
    assert SearchChildren([a], hit, 1) == Some(c);
    assert MatchingChildren([a], "a") == [a];

    var back := ["a", "b", "d"];
    assert MatchingChildren([c], "d") == [];
    assert Search(b, back, 2) == None;
    assert SearchChildren([d], back, 3) == Some(d);
    assert MatchingChildren([d], "d") == [d];
    assert Search(x, back, 2) == Some(d);
    assert SearchChildren([b, x], back, 2) == Some(d);
    assert SearchChildren([a], back, 1) == Some(d);
  }

  /** An intermediate node that ends no route is not returned. */
  lemma IntermediateNodeNotFound()
    ensures Search(Insert(Root(), "/a/b", ["a", "b"], 0), ["a"], 0).None?
  {
    var parts := ["a", "b"];
    var b := Node("/a/b", "b", [], false);
    var a := Node("", "a", [b], false);
    var t := Node("", "", [a], false);
    assert Insert(NewChild("b"), "/a/b", parts, 2) == b;
    assert Insert(NewChild("a"), "/a/b", parts, 1) == a;
    assert Insert(Root(), "/a/b", parts, 0) == t;
    assert Search(a, ["a"], 1) == None;
    assert SearchChildren([a], ["a"], 1) == None;
    assert MatchingChildren([a], "a") == [a];
  }
}
