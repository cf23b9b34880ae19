# Slim router: route groups, registration and reverse URLs

This project models the route-registration and reverse-URL engine of the Slim
micro-framework's `Router` class (`Slim/Router.php`). It covers:

- the **group stack**. `pushGroup` and `popGroup` keep an ordered stack of
  (prefix, middleware) frames.
- **group composition**. `processGroups` folds the stack into one prefix and
  one middleware list.
- **route registration**. `addRoute` builds a route whose pattern is the
  composed prefix followed by the given pattern, and whose middleware is the
  composed list. The route is appended to the route list.
- **reverse URLs**. `urlFor` lazily builds and caches a name-to-route index,
  then replaces each `{segment}` or `{segment:regex}` placeholder in the route's
  pattern with the caller's data.

The router is an immutable value, `Routing.Router`. It holds the route list,
the group stack and the cached index. The cached index is `None` while PHP's
`$namedRoutes` is `null`. Every operation is a pure function that returns the
new state together with the PHP return value. `urlFor` returns a `Result`.
Its two exceptions become the `UrlError` values `RouteNotFound(name)` and
`MissingSegment(segment)`. Handlers and middleware are opaque type parameters.

Files:

- `wrappers.dfy`: `Option` and `Result`.
- `groups.dfy`: frames, composition, and the `processGroups` loop.
- `routes.dfy`: the route record and PHP truthiness of route names.
- `named_index.dfy`: the index scan.
- `url_template.dfy`: the `preg_replace_callback` scan and the substitution.
- `routing.dfy`: router state and the five operations.
- `router_properties.dfy`: properties that span several calls.
- `router_examples.dfy`: worked scenarios.

Three behaviours of the code to note:

- A route name is skipped when it is PHP-falsy. That includes `"0"` as well as
  an empty or missing name.
- If no route has a truthy name, the cache stays `null`, so the index is
  rebuilt on every call. Only a non-empty index is cached for good.
- `dispatch` does not catch not-found, not-allowed or handler errors. It is
  left out (see below).

## Model

| member | source | states |
|---|---|---|
| Groups.ProcessGroups | Slim/Router.php:127-139 | The `foreach` over the group stack yields exactly the push-order concatenation of the frame prefixes, and of the middleware of the array-valued frames |
| Groups.ComposedPrefixAppend | Slim/Router.php:129-133 | Composing the prefixes of a stack split in two equals composing each half and concatenating the results |
| Groups.ComposedMiddlewareAppend | Slim/Router.php:130-136 | Composing the middleware of a stack split in two equals composing each half and concatenating the results, with no merging at the seam |
| Groups.ComposedPrefixSplit | Slim/Router.php:131-133 | A frame's prefix appears exactly between the prefixes of the frames pushed before it and those pushed after it |
| Groups.ComposedMiddlewareSplit | Slim/Router.php:134-136 | A frame's middleware appears whole and in order between the outer frames' middleware and the inner frames' middleware, with no deduplication |
| Groups.ComposedMiddlewareMembership | Slim/Router.php:134-136 | A middleware value is in the composed list if and only if some stacked frame carries it in an array |
| Groups.NonArrayFrameContributesNothing | Slim/Router.php:134-136 | Inserting a frame whose middleware is not an array, at any depth, leaves the composed middleware unchanged |
| NamedIndex.BuildIndex | Slim/Router.php:177-181 | Every key of the index is a truthy name (never `""` or `"0"`), and it maps to a route that carries that name |
| NamedIndex.BuildIndexDomain | Slim/Router.php:177-181 | A name is indexed if and only if some registered route carries it as a truthy name |
| NamedIndex.BuildIndexLastWins | Slim/Router.php:177-181 | The index maps a name to the last route, in registration order, that carries it; later routes overwrite earlier ones |
| NamedIndex.BuildIndexEmpty | Slim/Router.php:176-183 | The scan yields nothing, so the cache stays `null`, exactly when no route has a truthy name |
| UrlTemplate.PlaceholderEnd | Slim/Router.php:192 | Finds where `{([^}]+)}` matches at the current position (an opening brace, one or more non-`}` characters, a closing brace), and reports no match when there is none |
| UrlTemplate.Scan | Slim/Router.php:192 | The left-to-right match scan loses and invents no text: its pieces render back to the pattern, and every placeholder body is non-empty and free of `}` |
| UrlTemplate.SegmentName | Slim/Router.php:193 | The segment name is the longest prefix of the placeholder body without a colon; the body continues with `:` when it is longer |
| UrlTemplate.Fill | Slim/Router.php:192-199 | Substitution succeeds if and only if every placeholder's segment has a value; on failure it names the first such segment, in pattern order, that has none |
| UrlTemplate.Substitute | Slim/Router.php:192-199 | Replacing every match in a pattern succeeds if and only if every placeholder the scan finds has a value for its segment; on failure it names the first such segment, in pattern order, that has none |
| UrlTemplate.SubstituteLiteralPrefix | Slim/Router.php:192 | Text in which the expression starts no match passes through unchanged, ahead of the rest's substitution or error. This covers text with no opening brace, and braces such as `{}` that open no placeholder |
| UrlTemplate.SubstituteUnmatched | Slim/Router.php:192 | A character where the expression does not match is copied to the URL, and the substitution continues from the next character |
| UrlTemplate.SubstituteStep | Slim/Router.php:192-198 | The substitution's whole behaviour, one step at a time, by what the expression does at the head of the pattern. An empty pattern gives the empty URL. A match `{body}` becomes its segment's value, or the call fails naming the segment. Any other character is copied |
| UrlTemplate.SubstitutePlaceholder | Slim/Router.php:193-198 | A leading `{body}` is replaced verbatim by the data value of its segment; without a value the call fails with `MissingSegment` naming the segment |
| UrlTemplate.NoPlaceholderUnchanged | Slim/Router.php:192-199 | A pattern where the expression matches nowhere is returned unchanged, for any data |
| UrlTemplate.EmptyDataSucceedsIffNoPlaceholder | Slim/Router.php:192-199 | With empty data, substitution succeeds if and only if the pattern holds no placeholder |
| Routing.PushGroup | Slim/Router.php:148-151 | Appends exactly one frame, `(prefix, middleware)`, on top of the stack and returns the new depth; earlier frames, the routes and the cache are unchanged |
| Routing.PopGroup | Slim/Router.php:158-161 | Returns false and changes nothing on an empty stack; otherwise it removes exactly the top frame and returns true; routes and cache are unchanged |
| Routing.AddRoute | Slim/Router.php:78-96 | Appends exactly one unnamed route and returns it; its pattern is the composed group prefix followed by the given pattern, and its middleware is the composed group middleware in order; earlier routes, the groups and the cache are unchanged |
| Routing.SetRouteName | Slim/Router.php:89-96 | Naming a route through the handle `addRoute` returned renames that stored route only; every other route and the groups are unchanged, and the cached index keeps its copy as it was (see "## Left out" on values and shared objects) |
| Routing.UrlFor | Slim/Router.php:173-200 | Builds the index only when none is cached, and caches it when it is non-empty. It fails with `RouteNotFound` exactly when the name is not in the consulted index, and otherwise substitutes into that route's pattern. Routes and groups are unchanged |
| RouterProperties.PushThenPop | Slim/Router.php:148-161 | Pushing a group and popping it at once restores the router and reports success |
| RouterProperties.PushExtendsComposition | Slim/Router.php:127-151 | A pushed frame extends the composed prefix and middleware at their ends |
| RouterProperties.AddRoutesSpec | Slim/Router.php:78-96 | Routes registered one after another under the same groups each carry those groups' prefix and middleware; nothing else changes |
| RouterProperties.GroupBlock | Slim/Router.php:78-161 | For push, register, pop: the stack returns to its former state, and each route registered inside gets the outer prefix, then the group prefix, then its own pattern, with the outer middleware followed by the group's |
| RouterProperties.NestedGroupMiddlewareOrder | Slim/Router.php:81-88 | A route inside nested groups A then B gets A's middleware followed by B's, and the prefix "/a/b" |
| RouterProperties.UrlForResolvesLastNamed | Slim/Router.php:176-199 | With no cache, `urlFor` substitutes into the last route registered under the name |
| RouterProperties.UrlForUnknownName | Slim/Router.php:186-188 | With no cache, a name that no route carries as a truthy name fails with `RouteNotFound` |
| RouterProperties.CachedIndexIsFrozen | Slim/Router.php:176-183 | Once an index is cached, no sequence of push, pop, add or naming calls changes it, or changes what `urlFor` answers |
| RouterProperties.IndexStaysLazyWhileUnnamed | Slim/Router.php:176-183 | While no route has a truthy name, a lookup fails and leaves the cache unset, so a route added and named later is still found |
| RouterProperties.LateRouteInvisibleAfterCache | Slim/Router.php:176-183 | After an index is cached, a route added and named later is reported as `RouteNotFound` |
| RouterProperties.UrlForRepeatable | Slim/Router.php:176-183 | Any lookup made after a `urlFor` call answers as it would have before that call |
| RouterExamples.BooksExample | Slim/Router.php:173-199 | Group "/books" around route "/{id}" named "book": `urlFor("book", {id: v})` is "/books/" followed by `v` |
| RouterExamples.BooksMissingSegment | Slim/Router.php:194-196 | The same route with no data fails with `MissingSegment("id")` |
| RouterExamples.BooksUnknownName | Slim/Router.php:186-188 | A name that no route carries fails with `RouteNotFound` |
| RouterExamples.RegexSuffixIgnored | Slim/Router.php:193 | `{id:[0-9]+}` is filled from `data["id"]`, verbatim and unchecked against the regex |
| RouterExamples.EmptyBracesAreLiteral | Slim/Router.php:192 | `{}` is not a placeholder and stays in the URL |
| RouterExamples.EmptyBracesBeforePlaceholder | Slim/Router.php:192-198 | In `{}{id}`, the `{}` is copied and `{id}` is still replaced: the result is `{}` followed by `data["id"]` |
| RouterExamples.StaleIndexExample | Slim/Router.php:176-183 | Two routes share a method and pattern. After a lookup of the first, the second, named later, is never found, while the first still resolves |
| RouterExamples.DuplicateNameLastWins | Slim/Router.php:179-181 | Of two routes named alike, `urlFor` uses the later one's pattern |
| RouterExamples.FalsyNamesSkipped | Slim/Router.php:179 | A route named "0" is never indexed, and the cache stays unset |

## Left out

- `dispatch` (Slim/Router.php:107-120) only forwards the request's method and path to the external route collection's dispatcher. Its not-found, not-allowed and error handling is unwritten in the source.
- The constructor (Slim/Router.php:62-67) and the closure registration with the route collection (Slim/Router.php:92-94). Both are calls into an external routing library. The model starts from `EmptyRouter`: no routes, no groups, no index.
- `Slim/RouteStrategy.php`: controller invocation and the response type check wrap an external strategy class. `Slim/Interfaces/RouterInterface.php` holds signatures only.
- The `Route` class is not part of this model. A new route is assumed to be unnamed, with an empty middleware list, and `setMiddleware` is assumed to append. Under those assumptions the route's middleware equals the composed group middleware.
- Handler invocation and middleware execution: handlers and middleware are opaque values.
- PHP array-key coercion is not modelled. A numeric-string group prefix, route name or data key is treated as a plain string.
- `array_merge` of middleware arrays that have string keys would overwrite entries. The model treats middleware arrays as lists, which `array_merge` concatenates.
- A `null` value in the data passed to `urlFor` is treated by `isset` as missing. The model's data maps segments to strings only, and values are inserted without conversion.
- Routes are values in the model. In PHP, the route object that `addRoute` returns, the entry in the route list and the cached index entry are one shared object. Renaming a route that is already cached therefore renames the cached entry too, under its old key. The model's cached copy keeps the old name. `urlFor` reads only the key and the pattern, which are the same either way, so no answer differs.
- `RouterProperties.Register` ignores a naming call whose handle is not a registered route. A PHP caller cannot hold such a handle.
- Concurrency and the shared request/response state of the strategy: the model is sequential.
