/** The route record the router creates and the PHP truthiness test its name
    is subjected to when the named-route index is built. */
module Routes {
  import opened Wrappers

  /** A registered route. `verb` is the HTTP method; `pattern` is fixed at
      creation; `name` is `None` until the caller names the route; middleware
      and handler are opaque values. */
  datatype Route<M, H> = Route(verb: string, pattern: string, name: Option<string>, middleware: seq<M>, handler: H)

  /** PHP truthiness of a route name: `null`, `""` and `"0"` are falsy,
      every other string is truthy. */
  predicate IsTruthyName(name: Option<string>)
  {
    name.Some? && name.value != "" && name.value != "0"
  }
}
