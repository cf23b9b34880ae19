/** The router: its route list, group stack and named-route cache, and the
    operations that register routes, manage groups and build URLs. */
module Routing {
  import opened Wrappers
  import opened Groups
  import opened Routes
  import opened NamedIndex
  import opened UrlTemplate

  /** Router state. `namedRoutes` is the cached index, `None` while it is PHP
      `null`. */
  datatype Router<M, H> = Router(
    routes: seq<Route<M, H>>,
    groups: seq<Frame<M>>,
    namedRoutes: Option<map<string, Route<M, H>>>)

  /** A freshly constructed router: no routes, no groups, no index. */
  function EmptyRouter<M, H>(): Router<M, H>
  {
    Router([], [], None)
  }

  /** `pushGroup`: the new frame goes on top of the stack; the result is the new
      stack depth, as `array_push` returns it. */
  function PushGroup<M, H>(r: Router<M, H>, prefix: string, middleware: GroupMiddleware<M>): (out: (Router<M, H>, nat))
    ensures |out.0.groups| == |r.groups| + 1
    ensures out.0.groups[..|r.groups|] == r.groups
    ensures out.0.groups[|r.groups|] == Frame(prefix, middleware)
    ensures out.1 == |out.0.groups|
    ensures out.0.routes == r.routes && out.0.namedRoutes == r.namedRoutes
  {
    var groups := r.groups + [Frame(prefix, middleware)];
    assert groups[..|r.groups|] == r.groups;
    (r.(groups := groups), |groups|)
  }

  /** `popGroup`: removes the top frame and reports whether there was one. */
  function PopGroup<M, H>(r: Router<M, H>): (out: (Router<M, H>, bool))
    ensures out.1 <==> |r.groups| > 0
    ensures !out.1 ==> out.0 == r
    ensures out.1 ==> out.0.groups == r.groups[..|r.groups| - 1]
    ensures out.0.routes == r.routes && out.0.namedRoutes == r.namedRoutes
  {
    if |r.groups| == 0 then (r, false)
    else (r.(groups := r.groups[..|r.groups| - 1]), true)
  }

  /** `addRoute`: the route takes the composed group prefix in front of its own
      pattern and the composed group middleware, in order; it is appended to the
      route list and returned. */
  function AddRoute<M, H>(r: Router<M, H>, verb: string, pattern: string, handler: H): (out: (Router<M, H>, Route<M, H>))
    ensures |out.0.routes| == |r.routes| + 1
    ensures out.0.routes[..|r.routes|] == r.routes
    ensures out.0.routes[|r.routes|] == out.1
    ensures out.1.pattern == ComposedPrefix(r.groups) + pattern
    ensures out.1.middleware == ComposedMiddleware(r.groups)
    ensures out.1.verb == verb && out.1.handler == handler && out.1.name.None?
    ensures out.0.groups == r.groups && out.0.namedRoutes == r.namedRoutes
  {
    var route := Route(verb, ComposedPrefix(r.groups) + pattern, None, ComposedMiddleware(r.groups), handler);
    var routes := r.routes + [route];
    assert routes[..|r.routes|] == r.routes;
    (r.(routes := routes), route)
  }

  /** Naming the route at position `handle` through the handle `addRoute`
      returned: the stored route is renamed. Routes are values here, so a copy
      already held in the cached index keeps its old name; its key and its
      pattern, the only parts `urlFor` reads, are the same either way. */
  function SetRouteName<M, H>(r: Router<M, H>, handle: nat, name: Option<string>): (r': Router<M, H>)
    requires handle < |r.routes|
    ensures |r'.routes| == |r.routes|
    ensures r'.routes[handle].name == name
    ensures r'.routes[handle] == r.routes[handle].(name := name)
    ensures forall i :: 0 <= i < |r.routes| && i != handle ==> r'.routes[i] == r.routes[i]
    ensures r'.groups == r.groups && r'.namedRoutes == r.namedRoutes
  {
    r.(routes := r.routes[handle := r.routes[handle].(name := name)])
  }

  /** The index `urlFor` consults: the cache when set, otherwise a fresh build. */
  function ConsultedIndex<M, H>(r: Router<M, H>): map<string, Route<M, H>>
  {
    if r.namedRoutes.Some? then r.namedRoutes.value else BuildIndex(r.routes)
  }

  /** The state after a `urlFor` call and the URL or error it produced. */
  datatype UrlForOutcome<M, H> = UrlForOutcome(router: Router<M, H>, url: Result<string, UrlError>)

  /** `urlFor`: builds the index if none is cached (it stays `null` if no route
      has a truthy name), then substitutes `data` into the named route's pattern. */
  function UrlFor<M, H>(r: Router<M, H>, routeName: string, data: map<string, string>): (out: UrlForOutcome<M, H>)
    ensures out.router.routes == r.routes && out.router.groups == r.groups
    ensures r.namedRoutes.Some? ==> out.router == r
    ensures r.namedRoutes.None? ==>
              (out.router.namedRoutes.Some? <==> exists i :: 0 <= i < |r.routes| && IsTruthyName(r.routes[i].name))
    ensures out.router.namedRoutes.Some? ==> out.router.namedRoutes.value == ConsultedIndex(r)
    ensures out.url == Failure(RouteNotFound(routeName)) <==> routeName !in ConsultedIndex(r)
    ensures routeName in ConsultedIndex(r) ==>
              out.url == Substitute(ConsultedIndex(r)[routeName].pattern, data)
  {
    var index := ConsultedIndex(r);
    var r' := if r.namedRoutes.None? && |index| > 0 then r.(namedRoutes := Some(index)) else r;
    BuildIndexEmpty(r.routes);
    if routeName !in index then UrlForOutcome(r', Failure(RouteNotFound(routeName)))
    else UrlForOutcome(r', Substitute(index[routeName].pattern, data))
  }
}
