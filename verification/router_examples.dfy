/** Worked scenarios of reverse-URL generation on small routers. Handlers and
    middleware are left as parameters: the scenarios hold for any of them. */
module RouterExamples {
  import opened Wrappers
  import opened Groups
  import opened NamedIndex
  import opened UrlTemplate
  import opened Routing
  import opened RouterProperties

  // ---------------------------------------------------------------------------
  // Substitution steps used by the scenarios

  /** Literal text followed by one placeholder whose segment has a value. */
  lemma TextThenBoundPlaceholder(text: string, body: string, data: map<string, string>)
    requires '{' !in text && |body| > 0 && '}' !in body
    requires SegmentName(body) in data
    ensures Substitute(text + ("{" + body + "}"), data) == Success(text + data[SegmentName(body)])
  {
    var placeholder := "{" + body + "}";
    var segment := SegmentName(body);
    NoBraceNoMatch(text, placeholder);
    SubstituteLiteralPrefix(text, placeholder, data);
    SubstitutePlaceholder(body, "", data);
    assert placeholder + "" == placeholder;
    NoPlaceholderUnchanged("", data);
    assert Substitute(placeholder, data) == Success(data[segment] + "");
    assert data[segment] + "" == data[segment];
  }

  /** Literal text followed by one placeholder whose segment has no value. */
  lemma TextThenUnboundPlaceholder(text: string, body: string, data: map<string, string>)
    requires '{' !in text && |body| > 0 && '}' !in body
    requires SegmentName(body) !in data
    ensures Substitute(text + ("{" + body + "}"), data) == Failure(MissingSegment(SegmentName(body)))
  {
    var placeholder := "{" + body + "}";
    NoBraceNoMatch(text, placeholder);
    SubstituteLiteralPrefix(text, placeholder, data);
    SubstitutePlaceholder(body, "", data);
    assert placeholder + "" == placeholder;
  }

  /** Plain text is its own URL. */
  lemma PlainText(text: string, data: map<string, string>)
    requires '{' !in text
    ensures Substitute(text, data) == Success(text)
  {
    NoBraceNoMatch(text, "");
    SubstituteLiteralPrefix(text, "", data);
    assert text + "" == text;
    NoPlaceholderUnchanged("", data);
  }

  lemma SegmentId()
    ensures SegmentName("id") == "id"
    ensures SegmentName("id:[0-9]+") == "id"
  {
    assert "id"[1..] == "d";
    assert "d"[1..] == "";
    assert "id:[0-9]+"[1..] == "d:[0-9]+";
    assert "d:[0-9]+"[1..] == ":[0-9]+";
  }

  /** The `:regex` part of a placeholder only closes the segment name; the value
      is inserted verbatim without being checked against it. */
  lemma RegexSuffixIgnored(v: string)
    ensures Substitute("/" + ("{" + "id:[0-9]+" + "}"), map["id" := v]) == Success("/" + v)
  {
    SegmentId();
    assert '}' !in "id:[0-9]+";
    TextThenBoundPlaceholder("/", "id:[0-9]+", map["id" := v]);
  }

  /** A brace pair with nothing inside is not a placeholder and stays literal. */
  lemma EmptyBracesAreLiteral(data: map<string, string>)
    ensures Substitute("/a{}", data) == Success("/a{}")
  {
    var p := "/a{}";
    forall i, k | 0 <= i < |p|
      ensures !MatchesAt(p[i..], k)
    {
      if i == 2 {
        assert p[i..][1] == '}';
      }
    }
    NoPlaceholderUnchanged(p, data);
  }

  /** An empty brace pair ahead of a placeholder is copied, and the placeholder
      after it is still replaced. */
  lemma EmptyBracesBeforePlaceholder(v: string)
    ensures Substitute("{}" + ("{" + "id" + "}"), map["id" := v]) == Success("{}" + v)
  {
    var data := map["id" := v];
    var placeholder := "{" + "id" + "}";
    forall i, k | 0 <= i < |"{}"|
      ensures !MatchesAt(("{}" + placeholder)[i..], k)
    {
      assert ("{}" + placeholder)[i..][1 - i] == '}';
    }
    SubstituteLiteralPrefix("{}", placeholder, data);
    SegmentId();
    SubstitutePlaceholder("id", "", data);
    assert placeholder + "" == placeholder;
    NoPlaceholderUnchanged("", data);
    assert Substitute(placeholder, data) == Success(v + "");
    assert v + "" == v;
  }

  // ---------------------------------------------------------------------------
  // The "/books/{id}" route

  /** Group "/books" around a GET route "/{id}" named "book". */
  function BooksRouter<M, H>(handler: H): Router<M, H>
  {
    var inGroup := PushGroup(EmptyRouter(), "/books", MiddlewareArray([])).0;
    var added := AddRoute(inGroup, "GET", "/{id}", handler).0;
    PopGroup(SetRouteName(added, 0, Some("book"))).0
  }

  /** The group prefix lands in front of the route's own pattern, and popping
      the group leaves one named route and no groups. */
  lemma BooksRouterShape<M, H>(handler: H)
    ensures |BooksRouter<M, H>(handler).routes| == 1
    ensures BooksRouter<M, H>(handler).routes[0].pattern == "/books/" + ("{" + "id" + "}")
    ensures LastNamedAt(BooksRouter<M, H>(handler).routes, 0, "book")
    ensures BooksRouter<M, H>(handler).namedRoutes.None?
  {
    var inGroup := PushGroup(EmptyRouter<M, H>(), "/books", MiddlewareArray([])).0;
    assert inGroup.groups[..0] == [];
    assert ComposedPrefix(inGroup.groups) == "/books";
    var added := AddRoute(inGroup, "GET", "/{id}", handler).0;
    var r := PopGroup(SetRouteName(added, 0, Some("book"))).0;
    assert r.routes[0].pattern == "/books" + "/{id}";
    assert "/books" + "/{id}" == "/books/" + ("{" + "id" + "}");
    assert LastNamedAt(r.routes, 0, "book");
  }

  /** The books pattern with and without a value for `id`. */
  lemma BooksSubstitution(v: string)
    ensures Substitute("/books/" + ("{" + "id" + "}"), map["id" := v]) == Success("/books/" + v)
    ensures Substitute("/books/" + ("{" + "id" + "}"), map[]) == Failure(MissingSegment("id"))
  {
    SegmentId();
    TextThenBoundPlaceholder("/books/", "id", map["id" := v]);
    TextThenUnboundPlaceholder("/books/", "id", map[]);
  }

  /** `urlFor("book", {id: v})` is "/books/" followed by `v`, verbatim; with
      `v` = "42" that is "/books/42". */
  lemma BooksExample<M, H>(handler: H, v: string)
    ensures UrlFor(BooksRouter<M, H>(handler), "book", map["id" := v]).url == Success("/books/" + v)
  {
    BooksRouterShape<M, H>(handler);
    UrlForResolvesLastNamed(BooksRouter<M, H>(handler), 0, "book", map["id" := v]);
    BooksSubstitution(v);
  }

  /** Without a value for `id` the same call fails naming `id`. */
  lemma BooksMissingSegment<M, H>(handler: H)
    ensures UrlFor(BooksRouter<M, H>(handler), "book", map[]).url == Failure(MissingSegment("id"))
  {
    BooksRouterShape<M, H>(handler);
    UrlForResolvesLastNamed(BooksRouter<M, H>(handler), 0, "book", map[]);
    BooksSubstitution("");
  }

  /** A name no route carries is reported as an unknown route. */
  lemma BooksUnknownName<M, H>(handler: H, data: map<string, string>)
    ensures UrlFor(BooksRouter<M, H>(handler), "author", data).url == Failure(RouteNotFound("author"))
  {
    BooksRouterShape<M, H>(handler);
    var r := BooksRouter<M, H>(handler);
    assert !NamedAt(r.routes, 0, "author");
    UrlForUnknownName(r, "author", data);
  }

  // ---------------------------------------------------------------------------
  // The cached index

  /** A route "/x" named "first". */
  function FirstNamed<M, H>(h0: H): Router<M, H>
  {
    SetRouteName(AddRoute(EmptyRouter(), "GET", "/x", h0).0, 0, Some("first"))
  }

  /** After one lookup, a second route with the same method and pattern, named
      "second". */
  function SecondAdded<M, H>(h0: H, h1: H): Router<M, H>
  {
    var looked := UrlFor(FirstNamed<M, H>(h0), "first", map[]).router;
    SetRouteName(AddRoute(looked, "GET", "/x", h1).0, 1, Some("second"))
  }

  /** Two routes share a method and pattern; the first is named and looked up,
      which caches the index; the second, named afterwards, is never found,
      while the first still resolves. */
  lemma StaleIndexExample<M, H>(h0: H, h1: H)
    ensures UrlFor(FirstNamed<M, H>(h0), "first", map[]).url == Success("/x")
    ensures UrlFor(FirstNamed<M, H>(h0), "first", map[]).router.namedRoutes.Some?
    ensures UrlFor(SecondAdded<M, H>(h0, h1), "second", map[]).url == Failure(RouteNotFound("second"))
    ensures UrlFor(SecondAdded<M, H>(h0, h1), "first", map[]).url == Success("/x")
  {
    var r1 := FirstNamed<M, H>(h0);
    assert r1.routes[0].pattern == "/x";
    assert LastNamedAt(r1.routes, 0, "first");
    UrlForResolvesLastNamed(r1, 0, "first", map[]);
    PlainText("/x", map[]);
    BuildIndexDomain(r1.routes, "second");
    assert !NamedAt(r1.routes, 0, "second");
  }

  /** Two routes named "page": `older` registered first, `newer` second. */
  function DuplicateNames<M, H>(h0: H, older: string, h1: H, newer: string): Router<M, H>
  {
    var r1 := SetRouteName(AddRoute(EmptyRouter(), "GET", older, h0).0, 0, Some("page"));
    SetRouteName(AddRoute(r1, "GET", newer, h1).0, 1, Some("page"))
  }

  /** Of two routes carrying the same name, the later one wins. */
  lemma DuplicateNameLastWins<M, H>(h0: H, older: string, h1: H, newer: string, data: map<string, string>)
    ensures UrlFor(DuplicateNames<M, H>(h0, older, h1, newer), "page", data).url == Substitute(newer, data)
  {
    var r := DuplicateNames<M, H>(h0, older, h1, newer);
    assert [] + newer == newer;
    assert LastNamedAt(r.routes, 1, "page");
    UrlForResolvesLastNamed(r, 1, "page", data);
  }

  /** A route "/z" named "0". */
  function FalsyNamed<M, H>(h0: H): Router<M, H>
  {
    SetRouteName(AddRoute(EmptyRouter(), "GET", "/z", h0).0, 0, Some("0"))
  }

  /** The name `"0"` is falsy: such a route is never indexed, and the cache
      stays unset. */
  lemma FalsyNamesSkipped<M, H>(h0: H)
    ensures UrlFor(FalsyNamed<M, H>(h0), "0", map[]).url == Failure(RouteNotFound("0"))
    ensures UrlFor(FalsyNamed<M, H>(h0), "0", map[]).router.namedRoutes.None?
  {
    UrlForUnknownName(FalsyNamed<M, H>(h0), "0", map[]);
  }
}
