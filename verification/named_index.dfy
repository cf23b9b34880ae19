/** The named-route index that reverse-URL generation builds from the route list. */
module NamedIndex {
  import opened Wrappers
  import opened Routes

  /** Route `i` carries the truthy name `name`. */
  ghost predicate NamedAt<M, H>(routes: seq<Route<M, H>>, i: int, name: string)
  {
    0 <= i < |routes| && IsTruthyName(routes[i].name) && routes[i].name.value == name
  }

  /** Route `i` is the last route, in registration order, named `name`. */
  ghost predicate LastNamedAt<M, H>(routes: seq<Route<M, H>>, i: int, name: string)
  {
    NamedAt(routes, i, name) && forall j :: i < j < |routes| ==> !NamedAt(routes, j, name)
  }

  /** The scan over the routes in registration order: each truthy-named route is
      stored under its name, overwriting any earlier route of the same name. */
  function BuildIndex<M, H>(routes: seq<Route<M, H>>): (index: map<string, Route<M, H>>)
    ensures forall k :: k in index ==> k != "" && k != "0"
    ensures forall k :: k in index ==> index[k].name == Some(k)
  {
    if |routes| == 0 then map[]
    else
      var index := BuildIndex(routes[..|routes| - 1]);
      var route := routes[|routes| - 1];
      if IsTruthyName(route.name) then index[route.name.value := route] else index
  }

  /** A name is indexed exactly when some route carries it as a truthy name. */
  lemma {:induction false} BuildIndexDomain<M, H>(routes: seq<Route<M, H>>, name: string)
    ensures name in BuildIndex(routes) <==> exists i :: NamedAt(routes, i, name)
    decreases |routes|
  {
    if |routes| > 0 {
      var n := |routes| - 1;
      var prefix := routes[..n];
      var before, last := BuildIndex(prefix), routes[n];
      BuildIndexDomain(prefix, name);
      forall i | 0 <= i < n
        ensures NamedAt(routes, i, name) <==> NamedAt(prefix, i, name)
      {
        assert prefix[i] == routes[i];
      }
      assert BuildIndex(routes) == if IsTruthyName(last.name) then before[last.name.value := last] else before;
      if NamedAt(routes, n, name) {
        assert name in BuildIndex(routes);
      } else {
        assert name in BuildIndex(routes) <==> name in before;
      }
    }
  }

  /** The last route carrying a truthy name is the one indexed under it:
      later routes overwrite earlier ones of the same name. */
  lemma {:induction false} BuildIndexLastWins<M, H>(routes: seq<Route<M, H>>, i: nat, name: string)
    requires LastNamedAt(routes, i, name)
    ensures name in BuildIndex(routes) && BuildIndex(routes)[name] == routes[i]
    decreases |routes|
  {
    var n := |routes| - 1;
    if i < n {
      var prefix := routes[..n];
      assert prefix[i] == routes[i];
      assert LastNamedAt(prefix, i, name) by {
        forall j | i < j < n
          ensures !NamedAt(prefix, j, name)
        {
          assert prefix[j] == routes[j];
          assert !NamedAt(routes, j, name);
        }
      }
      BuildIndexLastWins(prefix, i, name);
      var before, last := BuildIndex(prefix), routes[n];
      assert !NamedAt(routes, n, name);
      assert BuildIndex(routes) == if IsTruthyName(last.name) then before[last.name.value := last] else before;
    } else {
      var before, last := BuildIndex(routes[..n]), routes[n];
      assert BuildIndex(routes) == before[name := last];
    }
  }

  /** The index is empty exactly when no route has a truthy name. */
  lemma BuildIndexEmpty<M, H>(routes: seq<Route<M, H>>)
    ensures |BuildIndex(routes)| == 0 <==> forall i :: 0 <= i < |routes| ==> !IsTruthyName(routes[i].name)
  {
    if exists i :: 0 <= i < |routes| && IsTruthyName(routes[i].name) {
      var i :| 0 <= i < |routes| && IsTruthyName(routes[i].name);
      BuildIndexDomain(routes, routes[i].name.value);
      assert NamedAt(routes, i, routes[i].name.value);
    }
  }
}
