/** Placeholder substitution in route patterns: the scan that the regular
    expression `{([^}]+)}` performs, and the replacement of each placeholder by
    the caller's data. */
module UrlTemplate {
  import opened Wrappers

  /** The two failures of reverse-URL generation. */
  datatype UrlError = RouteNotFound(routeName: string) | MissingSegment(segment: string)

  /** A pattern, as the scan splits it: single literal characters and
      placeholders `{body}`. */
  datatype Piece = Literal(c: char) | Placeholder(body: string)

  function RenderPiece(p: Piece): string
  {
    match p
    case Literal(c) => [c]
    case Placeholder(body) => "{" + body + "}"
  }

  /** The text a sequence of pieces stands for. */
  function Render(pieces: seq<Piece>): string
  {
    if |pieces| == 0 then "" else RenderPiece(pieces[0]) + Render(pieces[1..])
  }

  /** The regular expression `{([^}]+)}` matches `s[..k + 1]`: an opening brace,
      one or more characters other than `}`, then the closing brace at `k`. */
  ghost predicate MatchesAt(s: string, k: int)
  {
    2 <= k < |s| && s[0] == '{' && s[k] == '}' && forall j :: 1 <= j < k ==> s[j] != '}'
  }

  /** Some position of `s` starts a match of the placeholder expression. */
  ghost predicate HasPlaceholder(s: string)
  {
    exists i, k :: 0 <= i < |s| && MatchesAt(s[i..], k)
  }

  /** The first `}` in `s` at or after `from`. */
  function FirstClose(s: string, from: nat): (r: Option<nat>)
    ensures r.Some? ==> from <= r.value < |s| && s[r.value] == '}'
                        && forall j :: from <= j < r.value ==> s[j] != '}'
    ensures r.None? ==> forall j :: from <= j < |s| ==> s[j] != '}'
    decreases |s| - from
  {
    if from >= |s| then None
    else if s[from] == '}' then Some(from)
    else FirstClose(s, from + 1)
  }

  /** The closing brace of the match anchored at the start of `s`, if the
      expression matches there. The greedy `[^}]+` stops at the first `}`, so
      there is at most one such match. */
  function PlaceholderEnd(s: string): (r: Option<nat>)
    ensures r.Some? ==> MatchesAt(s, r.value)
    ensures r.None? ==> forall k :: !MatchesAt(s, k)
  {
    if |s| > 0 && s[0] == '{' then
      match FirstClose(s, 1)
      case Some(k) => if k >= 2 then Some(k) else None
      case None => None
    else None
  }

  lemma RenderCons(p: Piece, rest: seq<Piece>)
    ensures Render([p] + rest) == RenderPiece(p) + Render(rest)
  {
    assert ([p] + rest)[1..] == rest;
  }

  /** The body of a match holds no closing brace and the match rebuilds its text. */
  lemma MatchBody(s: string, close: nat)
    requires MatchesAt(s, close)
    ensures |s[1..close]| > 0 && '}' !in s[1..close]
    ensures s == RenderPiece(Placeholder(s[1..close])) + s[close + 1..]
  {
    assert s == "{" + s[1..close] + "}" + s[close + 1..];
  }

  /** The left-to-right scan of the pattern: at each position either the
      expression matches and a placeholder is consumed, or one literal character
      is passed over. No text is lost or invented. */
  function Scan(pattern: string): (pieces: seq<Piece>)
    ensures Render(pieces) == pattern
    ensures forall i :: 0 <= i < |pieces| && pieces[i].Placeholder? ==>
              |pieces[i].body| > 0 && '}' !in pieces[i].body
    decreases |pattern|
  {
    if |pattern| == 0 then []
    else
      match PlaceholderEnd(pattern)
      case Some(close) =>
        var head := Placeholder(pattern[1..close]);
        var rest := Scan(pattern[close + 1..]);
        MatchBody(pattern, close);
        RenderCons(head, rest);
        assert forall i :: 0 < i < |[head] + rest| ==> ([head] + rest)[i] == rest[i - 1];
        [head] + rest
      case None =>
        var head := Literal(pattern[0]);
        var rest := Scan(pattern[1..]);
        assert pattern == [pattern[0]] + pattern[1..];
        RenderCons(head, rest);
        assert forall i :: 0 < i < |[head] + rest| ==> ([head] + rest)[i] == rest[i - 1];
        [head] + rest
  }

  /** The segment name of a placeholder body: the text
      before the first colon (all of it when there is none). */
  function SegmentName(body: string): (name: string)
    ensures name <= body
    ensures ':' !in name
    ensures |name| < |body| ==> body[|name|] == ':'
  {
    if |body| == 0 || body[0] == ':' then "" else [body[0]] + SegmentName(body[1..])
  }

  /** A placeholder whose segment has no value in `data`. */
  ghost predicate Unbound(p: Piece, data: map<string, string>)
  {
    p.Placeholder? && SegmentName(p.body) !in data
  }

  /** Every placeholder among `pieces` has a value in `data`. */
  ghost predicate AllBound(pieces: seq<Piece>, data: map<string, string>)
  {
    forall i :: 0 <= i < |pieces| ==> !Unbound(pieces[i], data)
  }

  /** `pieces[i]` is the first placeholder without a value in `data`. */
  ghost predicate FirstUnbound(pieces: seq<Piece>, data: map<string, string>, i: int)
  {
    0 <= i < |pieces| && Unbound(pieces[i], data) && forall j :: 0 <= j < i ==> !Unbound(pieces[j], data)
  }

  /** The replacement text of one piece: a literal stays, a placeholder becomes
      its segment's value, verbatim. */
  function FillPiece(p: Piece, data: map<string, string>): Result<string, UrlError>
  {
    match p
    case Literal(c) => Success([c])
    case Placeholder(body) =>
      var segment := SegmentName(body);
      if segment in data then Success(data[segment]) else Failure(MissingSegment(segment))
  }

  /** The replacement callback applied to every piece in order; the first
      placeholder without data aborts the whole substitution. */
  function Fill(pieces: seq<Piece>, data: map<string, string>): (r: Result<string, UrlError>)
    ensures r.Success? <==> forall i :: 0 <= i < |pieces| ==> !Unbound(pieces[i], data)
    ensures r.Failure? ==>
              exists i :: 0 <= i < |pieces| && Unbound(pieces[i], data)
                && (forall j :: 0 <= j < i ==> !Unbound(pieces[j], data))
                && r.error == MissingSegment(SegmentName(pieces[i].body))
  {
    if |pieces| == 0 then Success("")
    else
      match FillPiece(pieces[0], data)
      case Failure(e) => Failure(e)
      case Success(head) =>
        match Fill(pieces[1..], data)
        case Failure(e) =>
          assert exists i :: 0 < i < |pieces| && Unbound(pieces[i], data)
                   && (forall j :: 0 <= j < i ==> !Unbound(pieces[j], data))
                   && e == MissingSegment(SegmentName(pieces[i].body)) by {
            var i :| 0 <= i < |pieces[1..]| && Unbound(pieces[1..][i], data)
                     && (forall j :: 0 <= j < i ==> !Unbound(pieces[1..][j], data))
                     && e == MissingSegment(SegmentName(pieces[1..][i].body));
            assert forall j :: 0 < j < i + 1 ==> pieces[j] == pieces[1..][j - 1];
          }
          Failure(e)
        case Success(tail) =>
          assert forall i :: 0 < i < |pieces| ==> pieces[i] == pieces[1..][i - 1];
          Success(head + tail)
  }

  /** Every placeholder match of the pattern, scanned left to right, replaced by
      the value `data` holds for its segment. */
  function Substitute(pattern: string, data: map<string, string>): (r: Result<string, UrlError>)
    ensures r.Success? <==> AllBound(Scan(pattern), data)
    ensures r.Failure? ==> exists i :: FirstUnbound(Scan(pattern), data, i)
                                       && r.error == MissingSegment(SegmentName(Scan(pattern)[i].body))
  {
    FillOutcome(Scan(pattern), data);
    Fill(Scan(pattern), data)
  }

  /** `Fill`'s contract, in terms of `AllBound` and `FirstUnbound`. */
  lemma FillOutcome(pieces: seq<Piece>, data: map<string, string>)
    ensures Fill(pieces, data).Success? <==> AllBound(pieces, data)
    ensures Fill(pieces, data).Failure? ==>
              exists i :: FirstUnbound(pieces, data, i)
                          && Fill(pieces, data).error == MissingSegment(SegmentName(pieces[i].body))
  {
    var r := Fill(pieces, data);
    if r.Failure? {
      var i :| 0 <= i < |pieces| && Unbound(pieces[i], data)
               && (forall j :: 0 <= j < i ==> !Unbound(pieces[j], data))
               && r.error == MissingSegment(SegmentName(pieces[i].body));
      assert FirstUnbound(pieces, data, i);
    }
  }

  /** `text` followed by the substitution `r`, or `r`'s error. */
  function Prefixed(text: string, r: Result<string, UrlError>): Result<string, UrlError>
  {
    match r
    case Success(s) => Success(text + s)
    case Failure(e) => Failure(e)
  }

  lemma FillCons(p: Piece, pieces: seq<Piece>, data: map<string, string>)
    ensures Fill([p] + pieces, data)
         == if FillPiece(p, data).Success? then Prefixed(FillPiece(p, data).value, Fill(pieces, data))
            else FillPiece(p, data)
  {
    assert ([p] + pieces)[0] == p;
    assert ([p] + pieces)[1..] == pieces;
  }

  /** A pattern position that does not start a match is passed over as one
      literal character. */
  lemma ScanLiteral(pattern: string)
    requires |pattern| > 0 && forall k :: !MatchesAt(pattern, k)
    ensures Scan(pattern) == [Literal(pattern[0])] + Scan(pattern[1..])
  {
  }

  /** Literal text in which the expression starts no match (no opening brace,
      or only braces such as `{}` that do not open a placeholder) passes through
      the substitution unchanged, ahead of whatever the rest of the pattern
      produces. */
  lemma {:induction false} SubstituteLiteralPrefix(text: string, rest: string, data: map<string, string>)
    requires forall i, k :: 0 <= i < |text| ==> !MatchesAt((text + rest)[i..], k)
    ensures Substitute(text + rest, data) == Prefixed(text, Substitute(rest, data))
    decreases |text|
  {
    if |text| == 0 {
      assert text + rest == rest;
      match Substitute(rest, data) {
        case Success(s) => assert text + s == s;
        case Failure(_) =>
      }
    } else {
      NoMatchHead(text, rest);
      NoMatchTail(text, rest);
      SubstituteLiteralPrefix(text[1..], rest, data);
      SubstituteUnmatched(text + rest, data);
      ConcatTail(text, rest);
      PrefixedChain(text, Substitute(text + rest, data), Substitute(text[1..] + rest, data), Substitute(rest, data));
    }
  }

  lemma ConcatTail(text: string, rest: string)
    requires |text| > 0
    ensures (text + rest)[0] == text[0] && (text + rest)[1..] == text[1..] + rest
  {
  }

  lemma PrefixedChain(text: string, a: Result<string, UrlError>, b: Result<string, UrlError>, r: Result<string, UrlError>)
    requires |text| > 0
    requires a == Prefixed([text[0]], b) && b == Prefixed(text[1..], r)
    ensures a == Prefixed(text, r)
  {
    if r.Success? {
      assert [text[0]] + (text[1..] + r.value) == text + r.value;
    }
  }

  /** A character where the expression does not match is copied, and the scan
      moves on by one. */
  lemma SubstituteUnmatched(pattern: string, data: map<string, string>)
    requires |pattern| > 0 && forall k :: !MatchesAt(pattern, k)
    ensures Substitute(pattern, data) == Prefixed([pattern[0]], Substitute(pattern[1..], data))
  {
    ScanLiteral(pattern);
    FillCons(Literal(pattern[0]), Scan(pattern[1..]), data);
  }

  lemma NoMatchHead(text: string, rest: string)
    requires |text| > 0
    requires forall i, k :: 0 <= i < |text| ==> !MatchesAt((text + rest)[i..], k)
    ensures forall k :: !MatchesAt(text + rest, k)
  {
    assert (text + rest)[0..] == text + rest;
  }

  lemma NoMatchTail(text: string, rest: string)
    requires |text| > 0
    requires forall i, k :: 0 <= i < |text| ==> !MatchesAt((text + rest)[i..], k)
    ensures forall i, k :: 0 <= i < |text[1..]| ==> !MatchesAt((text[1..] + rest)[i..], k)
  {
    forall i, k | 0 <= i < |text[1..]|
      ensures !MatchesAt((text[1..] + rest)[i..], k)
    {
      assert (text[1..] + rest)[i..] == (text + rest)[i + 1..];
    }
  }

  /** Text without an opening brace starts no match anywhere. */
  lemma NoBraceNoMatch(text: string, rest: string)
    requires '{' !in text
    ensures forall i, k :: 0 <= i < |text| ==> !MatchesAt((text + rest)[i..], k)
  {
    forall i, k | 0 <= i < |text|
      ensures !MatchesAt((text + rest)[i..], k)
    {
      assert (text + rest)[i..][0] == text[i];
    }
  }

  /** A placeholder `{body}` at the head of the pattern is scanned as one piece. */
  lemma ScanPlaceholder(body: string, rest: string)
    requires |body| > 0 && '}' !in body
    ensures Scan("{" + body + "}" + rest) == [Placeholder(body)] + Scan(rest)
  {
    var p := "{" + body + "}" + rest;
    var close := |body| + 1;
    assert forall j :: 1 <= j < close ==> p[j] == body[j - 1];
    assert MatchesAt(p, close);
    assert PlaceholderEnd(p) == Some(close);
    assert p[1..close] == body;
    assert p[close + 1..] == rest;
  }

  /** A placeholder `{body}` at the head of the pattern is replaced by the value
      of its segment, verbatim, ahead of the rest; with no value for the segment
      the substitution fails naming it. */
  lemma SubstitutePlaceholder(body: string, rest: string, data: map<string, string>)
    requires |body| > 0 && '}' !in body
    ensures Substitute("{" + body + "}" + rest, data)
         == var segment := SegmentName(body);
            if segment in data then Prefixed(data[segment], Substitute(rest, data))
            else Failure(MissingSegment(segment))
  {
    ScanPlaceholder(body, rest);
    FillCons(Placeholder(body), Scan(rest), data);
  }

  /** One step of the substitution, by what the expression does at the head of
      the pattern: an empty pattern yields the empty URL; a match `{body}` is
      replaced by its segment's value, or the call fails naming the segment; any
      other character is copied and the scan moves on by one. */
  lemma SubstituteStep(pattern: string, data: map<string, string>)
    ensures |pattern| == 0 ==> Substitute(pattern, data) == Success("")
    ensures forall k :: MatchesAt(pattern, k) ==>
              Substitute(pattern, data)
              == if SegmentName(pattern[1..k]) in data
                 then Prefixed(data[SegmentName(pattern[1..k])], Substitute(pattern[k + 1..], data))
                 else Failure(MissingSegment(SegmentName(pattern[1..k])))
    ensures |pattern| > 0 && (forall k :: !MatchesAt(pattern, k)) ==>
              Substitute(pattern, data) == Prefixed([pattern[0]], Substitute(pattern[1..], data))
  {
    if |pattern| > 0 {
      match PlaceholderEnd(pattern) {
        case Some(close) =>
          forall k | MatchesAt(pattern, k)
            ensures Substitute(pattern, data)
                    == if SegmentName(pattern[1..k]) in data
                       then Prefixed(data[SegmentName(pattern[1..k])], Substitute(pattern[k + 1..], data))
                       else Failure(MissingSegment(SegmentName(pattern[1..k])))
          {
            assert k == close;
            MatchBody(pattern, k);
            SubstitutePlaceholder(pattern[1..k], pattern[k + 1..], data);
          }
        case None =>
          SubstituteUnmatched(pattern, data);
      }
    }
  }

  /** A pattern in which the expression matches nowhere is returned unchanged,
      whatever the data. */
  lemma {:induction false} NoPlaceholderUnchanged(pattern: string, data: map<string, string>)
    requires !HasPlaceholder(pattern)
    ensures Substitute(pattern, data) == Success(pattern)
    decreases |pattern|
  {
    if |pattern| > 0 {
      assert forall k :: !MatchesAt(pattern, k) by {
        assert pattern[0..] == pattern;
      }
      ScanLiteral(pattern);
      var tail := pattern[1..];
      assert !HasPlaceholder(tail) by {
        forall i, k | 0 <= i < |tail|
          ensures !MatchesAt(tail[i..], k)
        {
          assert tail[i..] == pattern[i + 1..];
        }
      }
      NoPlaceholderUnchanged(tail, data);
      FillCons(Literal(pattern[0]), Scan(tail), data);
      assert [pattern[0]] + tail == pattern;
    }
  }

  /** Wherever the expression matches, the scan yields a placeholder piece. */
  lemma {:induction false} MatchYieldsPlaceholder(pattern: string)
    requires HasPlaceholder(pattern)
    ensures exists i :: 0 <= i < |Scan(pattern)| && Scan(pattern)[i].Placeholder?
    decreases |pattern|
  {
    var i, k :| 0 <= i < |pattern| && MatchesAt(pattern[i..], k);
    match PlaceholderEnd(pattern) {
      case Some(close) =>
        assert Scan(pattern)[0].Placeholder?;
      case None =>
        assert i > 0 by {
          assert pattern[0..] == pattern;
        }
        var tail := pattern[1..];
        assert tail[i - 1..] == pattern[i..];
        MatchYieldsPlaceholder(tail);
        var j :| 0 <= j < |Scan(tail)| && Scan(tail)[j].Placeholder?;
        assert Scan(pattern)[j + 1] == Scan(tail)[j];
    }
  }

  /** With no data at all, the substitution succeeds exactly when the pattern
      holds no placeholder, and then returns the pattern itself. */
  lemma EmptyDataSucceedsIffNoPlaceholder(pattern: string)
    ensures Substitute(pattern, map[]).Success? <==> !HasPlaceholder(pattern)
    ensures !HasPlaceholder(pattern) ==> Substitute(pattern, map[]) == Success(pattern)
  {
    if HasPlaceholder(pattern) {
      MatchYieldsPlaceholder(pattern);
      var i :| 0 <= i < |Scan(pattern)| && Scan(pattern)[i].Placeholder?;
      assert Unbound(Scan(pattern)[i], map[]);
    } else {
      NoPlaceholderUnchanged(pattern, map[]);
    }
  }
}
