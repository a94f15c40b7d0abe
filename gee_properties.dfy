/**
 * What the route table promises: a fresh engine serves nothing, lookup
 * agrees with registration and the last registration wins, and a
 * registration leaves every other route alone. Routes are told apart by
 * their concatenated key, which is a faithful stand-in for the pair only
 * while methods contain no '-'.
 */
module GeeProperties {
  import opened Gee

  /** New yields an engine on which every request falls through to not found. */
  lemma NewServesNothing(httpMethod: string, path: string)
    ensures Dispatch(map[], httpMethod, path) == NotFound
  {
  }

  /** After addRoute(m, p, h), a request for (m, p) runs h. */
  lemma DispatchAfterAddRoute(router: map<string, Handler>, m: string, p: string, h: Handler)
    ensures Dispatch(router[RouteKey(m, p) := h], m, p) == Handled(h)
  {
  }

  /** addRoute leaves the outcome of every request with a different key unchanged. */
  lemma AddRouteKeepsOtherKeys(router: map<string, Handler>, m: string, p: string, h: Handler, m': string, p': string)
    requires RouteKey(m', p') != RouteKey(m, p)
    ensures Dispatch(router[RouteKey(m, p) := h], m', p') == Dispatch(router, m', p')
  {
  }

  /** The key is the method, then the dash, then the pattern, by position. */
  lemma RouteKeyLayout(httpMethod: string, pattern: string)
    ensures RouteKey(httpMethod, pattern)[..|httpMethod|] == httpMethod
    ensures RouteKey(httpMethod, pattern)[|httpMethod| + 1..] == pattern
  {
    var k := RouteKey(httpMethod, pattern);
    assert k == (httpMethod + "-") + pattern;
    assert (httpMethod + "-")[..|httpMethod|] == httpMethod;
  }

  /** For methods without '-', the key determines the method and the pattern. */
  lemma RouteKeyInjective(m1: string, p1: string, m2: string, p2: string)
    requires '-' !in m1 && '-' !in m2
    requires RouteKey(m1, p1) == RouteKey(m2, p2)
    ensures m1 == m2 && p1 == p2
  {
    RouteKeyLayout(m1, p1);
    RouteKeyLayout(m2, p2);
    assert m1 == RouteKey(m1, p1)[..|m1|];
  }

  /** With dash-free methods, registering (m, p) changes no other (method, path) pair's outcome. */
  lemma AddRouteKeepsOtherRoutes(router: map<string, Handler>, m: string, p: string, h: Handler, m': string, p': string)
    requires '-' !in m && '-' !in m'
    requires m' != m || p' != p
    ensures Dispatch(router[RouteKey(m, p) := h], m', p') == Dispatch(router, m', p')
  {
    if RouteKey(m', p') == RouteKey(m, p) {
      RouteKeyInjective(m', p', m, p);
    }
  }

  /** Re-registering a route replaces the handler: the last registration wins. */
  lemma ReRegistrationReplaces(router: map<string, Handler>, m: string, p: string, h1: Handler, h2: Handler)
    ensures Dispatch(router[RouteKey(m, p) := h1][RouteKey(m, p) := h2], m, p) == Handled(h2)
  {
  }

  /** The key is a concatenated string, not a pair: a method containing '-' can collide. */
  lemma RouteKeyCollision(h: Handler)
    ensures RouteKey("A-B", "/c") == RouteKey("A", "B-/c")
    ensures Dispatch(map[][RouteKey("A", "B-/c") := h], "A-B", "/c") == Handled(h)
  {
  }

  /**
   * After any sequence of registrations, the table holds a key exactly when
   * some registration used it, and then holds the handler of the last one.
   */
  lemma {:induction false} RegisteredLastWins(routes: seq<Route>, k: string)
    ensures k in Registered(routes) <==> exists i :: 0 <= i < |routes| && routes[i].Key() == k
    ensures k in Registered(routes) ==>
      exists i :: 0 <= i < |routes| && routes[i].Key() == k && Registered(routes)[k] == routes[i].handler
        && forall j :: i < j < |routes| ==> routes[j].Key() != k
  {
    if routes != [] {
      var n := |routes| - 1;
      var init := routes[..n];
      var last := routes[n];
      assert Registered(routes) == Registered(init)[last.Key() := last.handler];
      RegisteredLastWins(init, k);
      if last.Key() == k {
        assert routes[n].Key() == k && Registered(routes)[k] == routes[n].handler;
      } else if k in Registered(init) {
        var i :| 0 <= i < n && init[i].Key() == k && Registered(init)[k] == init[i].handler
          && forall j :: i < j < n ==> init[j].Key() != k;
        assert routes[i] == init[i];
        assert forall j :: i < j < |routes| ==> routes[j].Key() != k by {
          assert forall j :: i < j < n ==> routes[j] == init[j];
        }
      } else {
        assert forall i :: 0 <= i < |routes| ==> routes[i].Key() != k by {
          assert forall i :: 0 <= i < n ==> routes[i] == init[i];
        }
      }
    }
  }

  /**
   * After New and addRoute for each route in order, a request runs the
   * handler of the last registration with the request's key, and is not
   * found when no registration has that key.
   */
  lemma DispatchRegistered(routes: seq<Route>, m: string, p: string)
    ensures Dispatch(Registered(routes), m, p).NotFound? <==>
      forall i :: 0 <= i < |routes| ==> routes[i].Key() != RouteKey(m, p)
    ensures Dispatch(Registered(routes), m, p).Handled? ==>
      exists i :: 0 <= i < |routes| && routes[i].Key() == RouteKey(m, p)
        && Dispatch(Registered(routes), m, p).handler == routes[i].handler
        && forall j :: i < j < |routes| ==> routes[j].Key() != RouteKey(m, p)
  {
    RegisteredLastWins(routes, RouteKey(m, p));
  }

  /**
   * A client of the engine: New, then GET, POST and GET again, then three
   * requests. The re-registered route runs its second handler, the POST
   * route runs its handler, and a method the path was not registered for
   * falls through to not found.
   */
  method RegisterAndServe() returns (hello: Outcome, login: Outcome, missing: Outcome)
    ensures hello == Handled(Handler(3))
    ensures login == Handled(Handler(2))
    ensures missing == NotFound
  {
    var e := new Engine.New();
    e.Get("/hello", Handler(1));
    e.Post("/login", Handler(2));
    e.Get("/hello", Handler(3));
    assert RouteKey("GET", "/login") != RouteKey("GET", "/hello") by {
      assert RouteKey("GET", "/login")[5] != RouteKey("GET", "/hello")[5];
    }
    assert RouteKey("GET", "/login") != RouteKey("POST", "/login") by {
      assert RouteKey("GET", "/login")[0] != RouteKey("POST", "/login")[0];
    }
    assert RouteKey("POST", "/login") != RouteKey("GET", "/hello") by {
      assert RouteKey("POST", "/login")[0] != RouteKey("GET", "/hello")[0];
    }
    hello := e.ServeHTTP("GET", "/hello");
    login := e.ServeHTTP("POST", "/login");
    missing := e.ServeHTTP("GET", "/login");
  }

  /** A client that creates an engine and registers each route in order. */
  method NewWithRoutes(routes: seq<Route>) returns (e: Engine)
    ensures fresh(e) && e.router == Registered(routes)
  {
    e := new Engine.New();
    var i := 0;
    while i < |routes|
      invariant 0 <= i <= |routes|
      invariant e.router == Registered(routes[..i])
    {
      assert routes[..i + 1][..i] == routes[..i];
      e.AddRoute(routes[i].httpMethod, routes[i].pattern, routes[i].handler);
      i := i + 1;
    }
    assert routes[..|routes|] == routes;
  }

  /**
   * Registering the routes in order and serving one request runs the
   * handler of the last route registered for that method and path, and
   * is not found when no route was registered for them.
   */
  method RegisterAllAndServe(routes: seq<Route>, m: string, p: string) returns (o: Outcome)
    ensures o.NotFound? <==> forall i :: 0 <= i < |routes| ==> routes[i].Key() != RouteKey(m, p)
    ensures o.Handled? ==>
      exists i :: 0 <= i < |routes| && routes[i].Key() == RouteKey(m, p)
        && o.handler == routes[i].handler
        && forall j :: i < j < |routes| ==> routes[j].Key() != RouteKey(m, p)
  {
    var e := NewWithRoutes(routes);
    o := e.ServeHTTP(m, p);
    DispatchRegistered(routes, m, p);
  }
}
