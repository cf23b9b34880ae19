/** Properties of the router that span several calls: group blocks, the named
    route index and its cache, and worked examples. */
module RouterProperties {
  import opened Wrappers
  import opened Groups
  import opened Routes
  import opened NamedIndex
  import opened UrlTemplate
  import opened Routing

  /** Pushing a group and popping it straight away restores the router and
      reports success. */
  lemma PushThenPop<M, H>(r: Router<M, H>, prefix: string, middleware: GroupMiddleware<M>)
    ensures PopGroup(PushGroup(r, prefix, middleware).0) == (r, true)
  {
    var pushed := PushGroup(r, prefix, middleware).0;
    assert pushed.groups[..|pushed.groups| - 1] == r.groups;
  }

  /** A pushed frame extends the composed prefix and middleware at the end. */
  lemma PushExtendsComposition<M, H>(r: Router<M, H>, prefix: string, middleware: GroupMiddleware<M>)
    ensures ComposedPrefix(PushGroup(r, prefix, middleware).0.groups) == ComposedPrefix(r.groups) + prefix
    ensures ComposedMiddleware(PushGroup(r, prefix, middleware).0.groups)
         == ComposedMiddleware(r.groups) + Contribution(Frame(prefix, middleware))
  {
    var groups := PushGroup(r, prefix, middleware).0.groups;
    assert groups[..|groups| - 1] == r.groups;
  }

  /** One route registration request. */
  datatype RouteSpec<H> = RouteSpec(verb: string, pattern: string, handler: H)

  /** Registers the routes in order. */
  function AddRoutes<M, H>(r: Router<M, H>, specs: seq<RouteSpec<H>>): Router<M, H>
    decreases |specs|
  {
    if |specs| == 0 then r
    else AddRoutes(AddRoute(r, specs[0].verb, specs[0].pattern, specs[0].handler).0, specs[1..])
  }

  /** Routes registered one after another under the same groups each carry the
      groups' composed prefix and middleware; nothing else changes. */
  lemma {:induction false} AddRoutesSpec<M, H>(r: Router<M, H>, specs: seq<RouteSpec<H>>)
    ensures AddRoutes(r, specs).groups == r.groups
    ensures AddRoutes(r, specs).namedRoutes == r.namedRoutes
    ensures |AddRoutes(r, specs).routes| == |r.routes| + |specs|
    ensures AddRoutes(r, specs).routes[..|r.routes|] == r.routes
    ensures forall i :: 0 <= i < |specs| ==>
              AddRoutes(r, specs).routes[|r.routes| + i]
              == Route(specs[i].verb, ComposedPrefix(r.groups) + specs[i].pattern, None,
                       ComposedMiddleware(r.groups), specs[i].handler)
    decreases |specs|
  {
    if |specs| > 0 {
      var r1 := AddRoute(r, specs[0].verb, specs[0].pattern, specs[0].handler).0;
      AddRoutesSpec(r1, specs[1..]);
      var final := AddRoutes(r, specs);
      assert final == AddRoutes(r1, specs[1..]);
      assert final.routes[..|r1.routes|] == r1.routes;
      assert final.routes[..|r.routes|] == r1.routes[..|r.routes|];
      forall i | 0 <= i < |specs|
        ensures final.routes[|r.routes| + i]
             == Route(specs[i].verb, ComposedPrefix(r.groups) + specs[i].pattern, None,
                      ComposedMiddleware(r.groups), specs[i].handler)
      {
        if i > 0 {
          assert specs[1..][i - 1] == specs[i];
          assert final.routes[|r1.routes| + (i - 1)] == final.routes[|r.routes| + i];
        } else {
          assert final.routes[|r.routes|] == final.routes[..|r1.routes|][|r.routes|];
        }
      }
    }
  }

  /** A group block: push a group, register routes, pop it. The stack returns
      to what it was, and every route registered inside carries the outer
      prefix, then the group's prefix, then its own pattern, and the outer
      middleware followed by the group's. */
  lemma GroupBlock<M, H>(r: Router<M, H>, prefix: string, middleware: GroupMiddleware<M>, specs: seq<RouteSpec<H>>)
    ensures PushGroup(r, prefix, middleware).1 == |r.groups| + 1
    ensures PopGroup(AddRoutes(PushGroup(r, prefix, middleware).0, specs)).1
    ensures PopGroup(AddRoutes(PushGroup(r, prefix, middleware).0, specs)).0.groups == r.groups
    ensures |PopGroup(AddRoutes(PushGroup(r, prefix, middleware).0, specs)).0.routes| == |r.routes| + |specs|
    ensures forall i :: 0 <= i < |specs| ==>
              var route := PopGroup(AddRoutes(PushGroup(r, prefix, middleware).0, specs)).0.routes[|r.routes| + i];
              route.pattern == ComposedPrefix(r.groups) + prefix + specs[i].pattern
              && route.middleware == ComposedMiddleware(r.groups) + Contribution(Frame(prefix, middleware))
  {
    var pushed := PushGroup(r, prefix, middleware).0;
    PushExtendsComposition(r, prefix, middleware);
    AddRoutesSpec(pushed, specs);
    var added := AddRoutes(pushed, specs);
    assert added.groups[..|added.groups| - 1] == r.groups;
    var popped := PopGroup(added).0;
    assert popped.routes == added.routes;
    forall i | 0 <= i < |specs|
      ensures popped.routes[|r.routes| + i].pattern == ComposedPrefix(r.groups) + prefix + specs[i].pattern
      ensures popped.routes[|r.routes| + i].middleware
           == ComposedMiddleware(r.groups) + Contribution(Frame(prefix, middleware))
    {
      assert added.routes[|pushed.routes| + i].pattern == ComposedPrefix(pushed.groups) + specs[i].pattern;
    }
  }

  /** Middleware of two nested groups, A outside B, reaches a route registered
      inside both as A's list followed by B's. */
  lemma NestedGroupMiddlewareOrder<M, H>(r: Router<M, H>, a: seq<M>, b: seq<M>, verb: string, pattern: string, handler: H)
    requires r.groups == []
    ensures var inner := PushGroup(PushGroup(r, "/a", MiddlewareArray(a)).0, "/b", MiddlewareArray(b)).0;
            AddRoute(inner, verb, pattern, handler).1.middleware == a + b
            && AddRoute(inner, verb, pattern, handler).1.pattern == "/a/b" + pattern
  {
    PushExtendsComposition(r, "/a", MiddlewareArray(a));
    PushExtendsComposition(PushGroup(r, "/a", MiddlewareArray(a)).0, "/b", MiddlewareArray(b));
  }

  // ---------------------------------------------------------------------------
  // Named routes and the cached index

  /** With no cache, `urlFor` resolves a name to the last route registered under
      it. */
  lemma UrlForResolvesLastNamed<M, H>(r: Router<M, H>, i: nat, name: string, data: map<string, string>)
    requires r.namedRoutes.None?
    requires LastNamedAt(r.routes, i, name)
    ensures UrlFor(r, name, data).url == Substitute(r.routes[i].pattern, data)
  {
    BuildIndexLastWins(r.routes, i, name);
  }

  /** With no cache, a name no route carries as a truthy name is unknown. */
  lemma UrlForUnknownName<M, H>(r: Router<M, H>, name: string, data: map<string, string>)
    requires r.namedRoutes.None?
    requires forall i :: 0 <= i < |r.routes| ==> !NamedAt(r.routes, i, name)
    ensures UrlFor(r, name, data).url == Failure(RouteNotFound(name))
  {
    BuildIndexDomain(r.routes, name);
  }

  /** Asking twice gives the same answer: the index a call caches is the one it
      consulted. */
  lemma UrlForRepeatable<M, H>(r: Router<M, H>, name: string, data: map<string, string>, name': string, data': map<string, string>)
    ensures UrlFor(UrlFor(r, name, data).router, name', data').url == UrlFor(r, name', data').url
  {
  }

  /** A registration call after the router exists. */
  datatype Registration<M, H> =
    | Push(prefix: string, middleware: GroupMiddleware<M>)
    | Pop
    | Add(verb: string, pattern: string, handler: H)
    | Name(handle: nat, name: Option<string>)

  /** The effect of one registration call; naming acts on an existing route. */
  function Register<M, H>(r: Router<M, H>, op: Registration<M, H>): Router<M, H>
  {
    match op
    case Push(prefix, middleware) => PushGroup(r, prefix, middleware).0
    case Pop => PopGroup(r).0
    case Add(verb, pattern, handler) => AddRoute(r, verb, pattern, handler).0
    case Name(handle, name) => if handle < |r.routes| then SetRouteName(r, handle, name) else r
  }

  function RegisterAll<M, H>(r: Router<M, H>, ops: seq<Registration<M, H>>): Router<M, H>
    decreases |ops|
  {
    if |ops| == 0 then r else RegisterAll(Register(r, ops[0]), ops[1..])
  }

  /** Once the index is cached it is never refreshed: no sequence of group,
      route or naming calls changes it, nor what `urlFor` answers. */
  lemma {:induction false} CachedIndexIsFrozen<M, H>(r: Router<M, H>, ops: seq<Registration<M, H>>, name: string, data: map<string, string>)
    requires r.namedRoutes.Some?
    ensures RegisterAll(r, ops).namedRoutes == r.namedRoutes
    ensures UrlFor(RegisterAll(r, ops), name, data).url == UrlFor(r, name, data).url
    decreases |ops|
  {
    if |ops| > 0 {
      CachedIndexIsFrozen(Register(r, ops[0]), ops[1..], name, data);
    }
  }

  /** Until some route has a truthy name the cache stays empty, so a route added
      and named later is still found. */
  lemma IndexStaysLazyWhileUnnamed<M, H>(r: Router<M, H>, verb: string, pattern: string, handler: H, name: string, data: map<string, string>)
    requires r.namedRoutes.None?
    requires forall i :: 0 <= i < |r.routes| ==> !IsTruthyName(r.routes[i].name)
    requires IsTruthyName(Some(name))
    ensures UrlFor(r, name, data).url == Failure(RouteNotFound(name))
    ensures UrlFor(r, name, data).router.namedRoutes.None?
    ensures var r1 := UrlFor(r, name, data).router;
            var r2 := SetRouteName(AddRoute(r1, verb, pattern, handler).0, |r.routes|, Some(name));
            UrlFor(r2, name, data).url == Substitute(ComposedPrefix(r.groups) + pattern, data)
  {
    UrlForUnknownName(r, name, data);
    var r1 := UrlFor(r, name, data).router;
    var r2 := SetRouteName(AddRoute(r1, verb, pattern, handler).0, |r.routes|, Some(name));
    assert LastNamedAt(r2.routes, |r.routes|, name);
    UrlForResolvesLastNamed(r2, |r.routes|, name, data);
  }

  /** Once an index is cached, a route added and named afterwards is invisible
      to `urlFor`. */
  lemma LateRouteInvisibleAfterCache<M, H>(r: Router<M, H>, verb: string, pattern: string, handler: H, name: string, data: map<string, string>)
    requires r.namedRoutes.Some? && name !in r.namedRoutes.value
    ensures var r2 := SetRouteName(AddRoute(r, verb, pattern, handler).0, |r.routes|, Some(name));
            UrlFor(r2, name, data).url == Failure(RouteNotFound(name))
  {
  }
}
