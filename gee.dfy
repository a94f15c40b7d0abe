/**
 * The flat route table of the first Gee engine (gee/gee.go): a map from the
 * string `method + "-" + pattern` to a handler, written by addRoute and
 * read by ServeHTTP. Handlers are opaque tokens; serving a request is
 * reduced to its outcome, the handler that runs or "not found".
 */
module Gee {

  /** A registered HandlerFunc, identified only by a token. */
  datatype Handler = Handler(id: nat)

  /** What ServeHTTP does with a request: run a handler, or answer 404 NOT FOUND. */
  datatype Outcome = Handled(handler: Handler) | NotFound

  /** The key of the route table: the method, a dash, then the pattern or path. */
  function RouteKey(httpMethod: string, pattern: string): (k: string)
    ensures |k| == |httpMethod| + 1 + |pattern|
    ensures k[|httpMethod|] == '-'
  {
    httpMethod + "-" + pattern
  }

  /** The decision ServeHTTP takes for a request, given the route table. */
  function Dispatch(router: map<string, Handler>, httpMethod: string, path: string): (o: Outcome)
    ensures o.Handled? <==> RouteKey(httpMethod, path) in router
    ensures o.Handled? ==> o.handler == router[RouteKey(httpMethod, path)]
  {
    var key := RouteKey(httpMethod, path);
    if key in router then Handled(router[key]) else NotFound
  }

  class Engine {
    var router: map<string, Handler>

    /** New: an engine with an empty route table. */
    constructor New()
      ensures router == map[]
    {
      router := map[];
    }

    /** addRoute: stores the handler under the concatenated key, replacing any earlier one. */
    method AddRoute(httpMethod: string, pattern: string, handler: Handler)
      modifies this
      ensures router == old(router)[RouteKey(httpMethod, pattern) := handler]
    {
      var key := httpMethod + "-" + pattern;
      router := router[key := handler];
    }

    /** GET: addRoute with method "GET". */
    method Get(pattern: string, handler: Handler)
      modifies this
      ensures router == old(router)[RouteKey("GET", pattern) := handler]
    {
      AddRoute("GET", pattern, handler);
    }

    /** POST: addRoute with method "POST". */
    method Post(pattern: string, handler: Handler)
      modifies this
      ensures router == old(router)[RouteKey("POST", pattern) := handler]
    {
      AddRoute("POST", pattern, handler);
    }

    /** ServeHTTP: looks up the request's key and runs the handler, or falls through to not found. */
    method ServeHTTP(httpMethod: string, path: string) returns (o: Outcome)
      ensures o == Dispatch(router, httpMethod, path)
      ensures o.Handled? <==> RouteKey(httpMethod, path) in router
      ensures o.Handled? ==> o.handler == router[RouteKey(httpMethod, path)]
    {
      var key := httpMethod + "-" + path;
      if key in router {
        o := Handled(router[key]);
      } else {
        o := NotFound;
      }
    }
  }

  /** One call of addRoute, as data. */
  datatype Route = Route(httpMethod: string, pattern: string, handler: Handler)
  {
    function Key(): string
    {
      RouteKey(httpMethod, pattern)
    }
  }

  /** The route table after New followed by addRoute for each route, in order. */
  function Registered(routes: seq<Route>): map<string, Handler>
  {
    if routes == [] then map[]
    else
      var last := routes[|routes| - 1];
      Registered(routes[..|routes| - 1])[last.Key() := last.handler]
  }
}
