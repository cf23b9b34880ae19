/** Route groups: the stack of (prefix, middleware) frames and its composition. */
module Groups {

  /** The middleware value given to a group. PHP accepts any value here; only an
      array contributes middleware when the groups are composed. */
  datatype GroupMiddleware<M> = MiddlewareArray(items: seq<M>) | NotAnArray

  /** One pushed group: its path prefix and its middleware value. */
  datatype Frame<M> = Frame(prefix: string, middleware: GroupMiddleware<M>)

  /** The middleware a frame adds to the composed list. */
  function Contribution<M>(f: Frame<M>): seq<M>
  {
    if f.middleware.MiddlewareArray? then f.middleware.items else []
  }

  /** The prefixes of the stacked frames, concatenated in push order. */
  function ComposedPrefix<M>(groups: seq<Frame<M>>): string
  {
    if |groups| == 0 then ""
    else ComposedPrefix(groups[..|groups| - 1]) + groups[|groups| - 1].prefix
  }

  /** The array middleware of the stacked frames, concatenated in push order. */
  function ComposedMiddleware<M>(groups: seq<Frame<M>>): seq<M>
  {
    if |groups| == 0 then []
    else ComposedMiddleware(groups[..|groups| - 1]) + Contribution(groups[|groups| - 1])
  }

  /** The `foreach` over the group stack: accumulates the pattern and merges
      each array-valued middleware entry. */
  method ProcessGroups<M>(groups: seq<Frame<M>>) returns (pattern: string, middleware: seq<M>)
    ensures pattern == ComposedPrefix(groups)
    ensures middleware == ComposedMiddleware(groups)
  {
    pattern := "";
    middleware := [];
    var i := 0;
    while i < |groups|
      invariant 0 <= i <= |groups|
      invariant pattern == ComposedPrefix(groups[..i])
      invariant middleware == ComposedMiddleware(groups[..i])
    {
      var group := groups[i];
      assert groups[..i + 1][..i] == groups[..i];
      pattern := pattern + group.prefix;
      if group.middleware.MiddlewareArray? {
        middleware := middleware + group.middleware.items;
      }
      i := i + 1;
    }
    assert groups[..i] == groups;
  }

  /** Composing a stack split in two is composing each half and concatenating. */
  lemma {:induction false} ComposedPrefixAppend<M>(a: seq<Frame<M>>, b: seq<Frame<M>>)
    ensures ComposedPrefix(a + b) == ComposedPrefix(a) + ComposedPrefix(b)
    decreases |b|
  {
    if |b| == 0 {
      assert a + b == a;
    } else {
      var b' := b[..|b| - 1];
      assert (a + b)[..|a + b| - 1] == a + b';
      ComposedPrefixAppend(a, b');
    }
  }

  /** Middleware composition likewise distributes over splitting the stack. */
  lemma {:induction false} ComposedMiddlewareAppend<M>(a: seq<Frame<M>>, b: seq<Frame<M>>)
    ensures ComposedMiddleware(a + b) == ComposedMiddleware(a) + ComposedMiddleware(b)
    decreases |b|
  {
    if |b| == 0 {
      assert a + b == a;
    } else {
      var b' := b[..|b| - 1];
      assert (a + b)[..|a + b| - 1] == a + b';
      ComposedMiddlewareAppend(a, b');
    }
  }

  /** A frame's prefix sits exactly between the prefixes of the frames pushed
      before it and those pushed after it. */
  lemma ComposedPrefixSplit<M>(outer: seq<Frame<M>>, f: Frame<M>, inner: seq<Frame<M>>)
    ensures ComposedPrefix(outer + [f] + inner) == ComposedPrefix(outer) + f.prefix + ComposedPrefix(inner)
  {
    ComposedPrefixAppend(outer + [f], inner);
    ComposedPrefixAppend(outer, [f]);
    assert [f][..0] == [];
  }

  /** A frame's middleware sits, whole and in order, between the middleware of
      the outer frames and that of the inner frames: nothing is deduplicated. */
  lemma ComposedMiddlewareSplit<M>(outer: seq<Frame<M>>, f: Frame<M>, inner: seq<Frame<M>>)
    ensures ComposedMiddleware(outer + [f] + inner)
         == ComposedMiddleware(outer) + Contribution(f) + ComposedMiddleware(inner)
  {
    ComposedMiddlewareAppend(outer + [f], inner);
    ComposedMiddlewareAppend(outer, [f]);
    assert [f][..0] == [];
  }

  /** A middleware entry is in the composed list exactly when some stacked frame
      carries it in an array. */
  lemma {:induction false} ComposedMiddlewareMembership<M>(groups: seq<Frame<M>>, m: M)
    ensures m in ComposedMiddleware(groups)
        <==> exists i :: 0 <= i < |groups| && m in Contribution(groups[i])
    decreases |groups|
  {
    if |groups| > 0 {
      var n := |groups| - 1;
      ComposedMiddlewareMembership(groups[..n], m);
      if m in ComposedMiddleware(groups) {
        if m in ComposedMiddleware(groups[..n]) {
          var i :| 0 <= i < n && m in Contribution(groups[..n][i]);
          assert groups[..n][i] == groups[i];
        } else {
          assert m in Contribution(groups[n]);
        }
      } else {
        forall i | 0 <= i < |groups|
          ensures m !in Contribution(groups[i])
        {
          if i < n {
            assert groups[..n][i] == groups[i];
          }
        }
      }
    }
  }

  /** Pushing a frame whose middleware is not an array, anywhere in the stack,
      leaves the composed middleware unchanged. */
  lemma NonArrayFrameContributesNothing<M>(outer: seq<Frame<M>>, prefix: string, inner: seq<Frame<M>>)
    ensures ComposedMiddleware(outer + [Frame(prefix, NotAnArray)] + inner)
         == ComposedMiddleware(outer + inner)
  {
    ComposedMiddlewareSplit(outer, Frame(prefix, NotAnArray), inner);
    ComposedMiddlewareAppend(outer, inner);
  }
}
