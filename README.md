# Gee routing core in Dafny

This project models the routing core of the Gee web framework. It has two
parts.

* **The prefix tree** (`Gee-WEB/gee/trie.go`). Each node stands for one
  path segment (`part`). A node is a capture (`isWild`) when its segment
  starts with `:` or `*`. A node holds the full route (`pattern`) only when
  a route ends there. The model covers:
  * `insert`: descends one segment per level into the first child that
    matches, appends a new child when none matches, and stamps the pattern
    at the end;
  * `search`: stops at the end of the segments or at a `*` node, then
    backtracks through every matching child in creation order;
  * `matchChild` and `matchChildren`, the two loops those use.
* **The first engine's flat route table** (`gee/gee.go`). `New` creates an
  empty map. `addRoute`, `GET` and `POST` store a handler under the key
  `method + "-" + pattern`. `ServeHTTP` looks up the request's key and
  either runs the handler or answers "not found".

Nodes are modelled as values. Every node is created by exactly one
parent's append, so the Go pointers form a true tree. An operation that
updates a node in place returns the updated node instead. A child found by
`matchChild` is identified by its index in `children`. Each method below
is proved equal to a function that specifies it. `MatchChild`,
`MatchChildren` and `SearchNode` keep the Go loops as `while` loops.
`InsertNode` is a plain recursion and `ServeHTTP` a single lookup:

| method | function |
|---|---|
| `MatchChild` | `FirstMatch` |
| `MatchChildren` | `MatchingChildren` |
| `InsertNode` | `Insert` |
| `SearchNode` | `Search` |
| `ServeHTTP` | `Dispatch` |

The engine is a class whose `router` field is a `map`. Its methods modify
that field. Handlers are opaque tokens, and serving a request is reduced
to its `Outcome`: the handler that runs, or not found.

Files:
* `trie.dfy`: the tree and its operations.
* `trie_properties.dfy`: lemmas about insert and search.
* `trie_routes.dfy`: lemmas about many registrations in one tree.
* `trie_examples.dfy`: concrete routes.
* `gee.dfy`: the engine.
* `gee_properties.dfy`: lemmas about the route table.

Behaviour the lemmas pin down:
* **Search only returns route ends.** A node with an empty pattern is never
  returned, even when the segments run out on it.
* **Candidates are tried in creation order.** `search` returns the first
  candidate whose own search succeeds.
* **A `*` node absorbs one or more further segments of any text** (`SearchWildcardAbsorbsAny`).
* **A capture takes over its position.** `matchChild` accepts any capture
  child. So a literal registered after a capture at the same position, and
  equal to no earlier literal sibling, reuses the capture node. It
  overwrites the capture's pattern when the route ends there
  (`BuildOverwrittenTree`). A literal equal to an earlier literal sibling
  reuses that sibling instead. A capture registered after a literal becomes
  a second, later sibling that search falls back to (`BuildBacktrackTree`).
* **Literal routes do not disturb each other.** In a tree of literal
  routes, inserting one route leaves every other request's result as it
  was (`LiteralInsertKeepsOthers`). So after any sequence of literal
  registrations, each route is found with the pattern of its last
  registration (`RegisteredRouteFound`).
* **At most one capture per level.** Under that discipline only the last
  child of a node may be a capture. Insert preserves this
  (`InsertPreservesWellFormed`).
* **Re-registering creates no node.** Registering the same segments again
  changes only the pattern. The tree's shape is unchanged.
* **Route keys are plain strings.** Two routes are told apart only by the
  string `method + "-" + pattern`. That string determines the pair only
  while the method contains no `-` (`RouteKeyInjective`). Otherwise two
  different pairs share a key (`RouteKeyCollision`).

Tree nodes are not immutable once created. A later registration
overwrites `pattern` on an existing node (trie.go:49) and appends to the
`children` of an existing node (trie.go:58). The model follows the code
in both.

## Model

| member | source | states |
|---|---|---|
| `Trie.FirstMatch` | Gee-WEB/gee/trie.go:14-23 | the index it returns, if any, is that of a child whose part equals the segment or that is a capture |
| `Trie.FirstMatchIsFirst` | Gee-WEB/gee/trie.go:15-22 | no child before the returned one matches; no index is returned exactly when no child matches |
| `Trie.MatchChild` | Gee-WEB/gee/trie.go:14-23 | the loop over the children returns the first matching child, or none |
| `Trie.MatchingChildren` | Gee-WEB/gee/trie.go:27-37 | the candidates are no more than the children; there are none exactly when matchChild finds none, and otherwise the first is matchChild's child |
| `Trie.MatchChildren` | Gee-WEB/gee/trie.go:27-37 | the collecting loop yields exactly the filtered children in order |
| `TrieProperties.MatchingChildrenExact` | Gee-WEB/gee/trie.go:30-34 | every candidate is a child that matches, every matching child is a candidate, each child occurs among the candidates as often as it matches among the children, and the candidates keep the children's order |
| `Trie.NewChild` | Gee-WEB/gee/trie.go:57 | a new child has the segment as its part, no pattern and no children, and is a capture exactly when the segment starts with ':' or '*' |
| `Trie.PathChild` | Gee-WEB/gee/trie.go:53-59 | the child insert descends into always matches the segment |
| `Trie.PathIndex` | Gee-WEB/gee/trie.go:54-58 | that child is an existing one or sits one past the end |
| `Trie.Insert` | Gee-WEB/gee/trie.go:47-62 | insert never changes a node's part or capture flag, and changes the pattern only of the node where the segments end |
| `Trie.InsertNode` | Gee-WEB/gee/trie.go:47-62 | the recursive insert calling the matchChild loop builds the same tree as Insert |
| `TrieProperties.InsertDescends` | Gee-WEB/gee/trie.go:53-61 | after insert, matchChild on the updated node finds the child insert descended into, at the same index, holding the recursively inserted subtree |
| `TrieProperties.InsertStampsPattern` | Gee-WEB/gee/trie.go:47-62 | following the inserted segments through matchChild reaches a node that carries the inserted pattern |
| `TrieProperties.InsertKeepsSiblings` | Gee-WEB/gee/trie.go:53-61 | insert adds a child exactly when no child matched, leaves every other child in place and keeps the node's own pattern |
| `TrieProperties.NewChildFields` | Gee-WEB/gee/trie.go:56-58 | the appended child stands for the segment, is a capture exactly when the segment starts with ':' or '*', and carries the pattern only when it ends the route |
| `TrieProperties.InsertTwice` | Gee-WEB/gee/trie.go:47-62 | inserting the same segments twice gives the tree of one insert with the later pattern: the last registration wins |
| `TrieProperties.InsertExistingPathKeepsShape` | Gee-WEB/gee/trie.go:53-61 | when the path already exists, insert creates no node and changes no part or capture flag |
| `TrieProperties.ReinsertKeepsShape` | Gee-WEB/gee/trie.go:47-62 | a second insert of the same segments leaves the tree's shape as after the first |
| `TrieProperties.InsertPreservesWellFormed` | Gee-WEB/gee/trie.go:53-59 | insert keeps sibling parts distinct and non-empty, keeps each capture flag equal to "starts with ':' or '*'", and keeps any capture child last among its siblings |
| `Trie.Search` | Gee-WEB/gee/trie.go:64-85 | search only ever returns a node carrying a non-empty pattern |
| `Trie.SearchChildren` | Gee-WEB/gee/trie.go:77-84 | the loop over the candidates only returns a node carrying a non-empty pattern |
| `Trie.SearchNode` | Gee-WEB/gee/trie.go:64-85 | the recursive search with its loop over matchChildren returns what Search specifies |
| `TrieProperties.SearchChildrenFirstSuccess` | Gee-WEB/gee/trie.go:77-84 | the candidates' loop fails exactly when every candidate fails, and otherwise returns the result of a candidate before which every candidate failed |
| `TrieProperties.SearchStopsAtStar` | Gee-WEB/gee/trie.go:67-72 | at a node whose part starts with '*', further segments do not change the result, search succeeds exactly when the node has a pattern, and what it returns is that node itself |
| `TrieProperties.SearchPrefersFirstMatch` | Gee-WEB/gee/trie.go:74-82 | when the first matching child's search succeeds, its result is the node's result |
| `TrieProperties.SearchFindsInserted` | Gee-WEB/gee/trie.go:47-85 | in a tree without '*' segments, searching the segments just inserted returns the node insert stamped, carrying the inserted pattern; the request is those segments themselves, so a named capture is matched only by its own text here |
| `TrieProperties.SearchWildcardAbsorbs` | Gee-WEB/gee/trie.go:64-85 | a route of literals ending in a '*' segment, inserted into a tree without captures, is found at the '*' node for a request that repeats all its segments, the '*' segment's own text included, followed by any further segments |
| `TrieRoutes.MatchingChildrenAppend` | Gee-WEB/gee/trie.go:30-34 | one more child at the end adds itself at the end of the candidates when it matches, and changes nothing otherwise |
| `TrieRoutes.SearchChildrenAppendMiss` | Gee-WEB/gee/trie.go:77-84 | a last candidate whose own search fails does not change the candidates' result |
| `TrieRoutes.SearchChildrenAgree` | Gee-WEB/gee/trie.go:77-84 | two rows of children that agree on which children match, and on the pattern each matching child's search finds, give the same pattern over their candidates |
| `TrieRoutes.LiteralInsertKeepsOthers` | Gee-WEB/gee/trie.go:47-85 | in a tree without captures or '*' segments, inserting a literal route leaves the search result of every other request unchanged: found exactly when it was, with the same pattern |
| `TrieRoutes.InsertKeepsLiteralTree` | Gee-WEB/gee/trie.go:47-62 | inserting a literal route keeps a tree free of captures and '*' segments |
| `TrieRoutes.RegisteredRouteFound` | Gee-WEB/gee/trie.go:47-85 | after literal routes are inserted in order, each route's segments find the pattern of the last registration of those segments |
| `TrieRoutes.SearchWildcardAbsorbsAny` | Gee-WEB/gee/trie.go:64-85 | a route of literals ending in a '*' segment, inserted into a tree without captures or '*' segments, is found at the '*' node for every request that repeats its literal segments and then has one or more segments of any text, provided no existing node stands for the request's segment at that position |
| `TrieRoutes.StaticFileRequest` | Gee-WEB/gee/trie.go:64-85 | "/static/*filepath" registered in an empty tree serves "/static/css/a.css" |
| `TrieExamples.BuildCaptureTree` | Gee-WEB/gee/trie.go:47-62 | inserting "/p/:lang/doc" into an empty root builds a chain of three new nodes, the middle one a capture |
| `TrieExamples.NamedCapture` | Gee-WEB/gee/trie.go:64-85 | on that tree "/p/go/doc" finds "/p/:lang/doc", and "/p/go/doc/extra" finds nothing |
| `TrieExamples.BuildStaticTree` | Gee-WEB/gee/trie.go:47-62 | inserting "/static/" followed by "*filepath" builds a chain ending in a capture node |
| `TrieExamples.WildcardCapture` | Gee-WEB/gee/trie.go:64-85 | on that tree "/static/css/a.css" finds the wildcard route, and "/static" finds nothing |
| `TrieExamples.BuildLangTree` | Gee-WEB/gee/trie.go:47-62 | inserting "/p/:lang" builds a capture leaf under "p" |
| `TrieExamples.BuildOverwrittenTree` | Gee-WEB/gee/trie.go:53-61 | inserting "/p/go" afterwards reuses the ":lang" node and overwrites its pattern |
| `TrieExamples.LiteralAfterCaptureOverwrites` | Gee-WEB/gee/trie.go:64-85 | after the overwrite there is still one child per level, and "/p/rust" finds "/p/go" |
| `TrieExamples.BuildLiteralTree` | Gee-WEB/gee/trie.go:47-62 | inserting "/a/b/c" builds a chain of three literal nodes |
| `TrieExamples.BuildBacktrackTree` | Gee-WEB/gee/trie.go:53-61 | inserting "/a/:x/d" afterwards appends the capture ":x" after the literal "b" as a second child of "a" |
| `TrieExamples.LiteralFirstThenBacktrack` | Gee-WEB/gee/trie.go:74-84 | on that tree "/a/b/c" finds "/a/b/c", and "/a/b/d" fails under "b" and backtracks into ":x" to find "/a/:x/d" |
| `TrieExamples.IntermediateNodeNotFound` | Gee-WEB/gee/trie.go:67-71 | after inserting "/a/b", searching "/a" reaches a node without a pattern and finds nothing |
| `Gee.RouteKey` | gee/gee.go:27 | the key is one character longer than the method and the pattern together, and that character, right after the method, is '-' |
| `GeeProperties.RouteKeyLayout` | gee/gee.go:27 | the key starts with the method and ends, after the '-', with the pattern |
| `Gee.Dispatch` | gee/gee.go:53-58 | a request is handled exactly when its key is in the table, by the handler stored under that key; otherwise it is not found |
| `Gee.Engine.New` | gee/gee.go:18-20 | a new engine has an empty route table |
| `Gee.Engine.AddRoute` | gee/gee.go:26-30 | the table afterwards maps method + "-" + pattern to the handler, replacing any earlier entry, and is otherwise unchanged |
| `Gee.Engine.Get` | gee/gee.go:33-35 | registers under the method "GET" |
| `Gee.Engine.Post` | gee/gee.go:38-40 | registers under the method "POST" |
| `Gee.Engine.ServeHTTP` | gee/gee.go:52-59 | the handler stored under method + "-" + path runs exactly when that key is in the table; otherwise the outcome is not found |
| `GeeProperties.NewServesNothing` | gee/gee.go:18-20 | every request to a new engine is not found |
| `GeeProperties.DispatchAfterAddRoute` | gee/gee.go:26-29 | after addRoute(m, p, h), the request (m, p) runs h |
| `GeeProperties.AddRouteKeepsOtherKeys` | gee/gee.go:29 | addRoute does not change the outcome of a request with a different key |
| `GeeProperties.RouteKeyInjective` | gee/gee.go:27 | for methods without '-', equal keys mean equal methods and equal patterns |
| `GeeProperties.AddRouteKeepsOtherRoutes` | gee/gee.go:26-30 | for methods without '-', registering one pair does not change any other pair's outcome |
| `GeeProperties.ReRegistrationReplaces` | gee/gee.go:29 | registering the same route twice leaves the second handler in force |
| `GeeProperties.RouteKeyCollision` | gee/gee.go:27 | a method containing '-' can share its key with another pair, so a request for one pair can run the other pair's handler |
| `GeeProperties.RegisterAndServe` | gee/gee.go:18-58 | a client that creates an engine, registers GET, POST and GET again, and serves three requests gets the second GET handler, the POST handler, and not found for an unregistered method |
| `GeeProperties.RegisteredLastWins` | gee/gee.go:26-30 | after any sequence of registrations, a key is in the table exactly when some registration used it, and then it holds the handler of the last such registration |
| `GeeProperties.NewWithRoutes` | gee/gee.go:18-30 | an engine created with New, with addRoute called for each route in order, holds the table of those registrations |
| `GeeProperties.RegisterAllAndServe` | gee/gee.go:18-58 | a client that registers any routes in order and serves one request gets not found exactly when no route has the request's key, and otherwise the handler of the last route that has it |
| `GeeProperties.DispatchRegistered` | gee/gee.go:52-58 | after New and any sequence of registrations, a request is not found exactly when no registration used its key, and otherwise runs the handler of the last registration that did |

## Left out

- The cache package (`Gee-Cache/geecache/geecache.go`): it is not part of the routing core.
- `Run` (gee/gee.go:44-46): it only hands the engine to the HTTP server, which is I/O.
- Response writing: `ServeHTTP` writes the 404 text or calls the handler. The model returns only the outcome, so a not-found outcome does not carry the URL.
- Logging: the `log.Printf` line in `addRoute` is not modelled.
- Handler bodies: handlers are opaque tokens.
- The router, route group, middleware and context layers that the rest of the framework builds around the tree, including splitting a path into segments: these are not part of this model. The segments reach `Insert` and `Search` already split.
- Concurrency: registration and serving have no synchronisation in the source, and the model is sequential.
- In-place update and pointer identity of tree nodes: nodes are values, and a child pointer is its index in `children`. This is sound because no node has two parents, but the model cannot express two references to one node.
- Trie.Insert: requires every segment to be non-empty and the height to be at most the number of segments, which is stronger than what Go needs. Go reads `part[0]` only when no child matches (trie.go:54-57), so an empty segment that meets a capture child is accepted there and panics only when it must create a new child. The caller splits patterns into non-empty segments (that splitting is not part of this model), so the model asks for all of them non-empty. A height past the end would panic at `parts[height]` (trie.go:53).
- Trie.Search: requires the height to be at most the number of segments, which is stronger than what Go needs. Go returns before reading `parts[height]` (trie.go:74) at a node whose part starts with '*' (trie.go:67-72), so only elsewhere would a height past the end panic. Every call the source makes starts at height 0 and descends one level per segment, so the bound always holds.
- Strings are sequences of characters rather than of bytes. `part[0]` is compared with ASCII characters only, so this makes no difference here.
