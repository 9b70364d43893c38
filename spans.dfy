/** `_fix_spans_coverage`: half-open token spans made inclusive and completed with every
    unit span of the source. */
module Spans {
  import opened Wrappers
  import opened Errors

  /** A pair (start, end) of token indices. */
  type Span = (int, int)

  /** The inclusive form `(s, e - 1)` of a half-open span `(s, e)`. */
  function Inclusive(span: Span): Span {
    (span.0, span.1 - 1)
  }

  /** The set `_fix_spans_coverage` returns: the inclusive form of every input span,
      and `(i, i)` for every token index `i`. */
  function Coverage(spans: seq<Span>, sourceLength: nat): set<Span> {
    (set k | 0 <= k < |spans| :: Inclusive(spans[k])) + (set i | 0 <= i < sourceLength :: (i, i))
  }

  /** The two loops of `_fix_spans_coverage`: the first appends the inclusive spans to a
      list, which becomes a set; the second adds the unit spans to that set. */
  method FixSpansCoverage(spans: seq<Span>, sourceLength: nat) returns (spansSet: set<Span>)
    ensures spansSet == Coverage(spans, sourceLength)
  {
    var newSpans: seq<Span> := [];
    for k := 0 to |spans|
      invariant |newSpans| == k
      invariant forall m :: 0 <= m < k ==> newSpans[m] == Inclusive(spans[m])
    {
      var (s, e) := spans[k];
      newSpans := newSpans + [(s, e - 1)];
    }
    spansSet := set p | p in newSpans;
    assert spansSet == set k | 0 <= k < |spans| :: Inclusive(spans[k]) by {
      forall p | p in spansSet ensures exists k :: 0 <= k < |spans| && p == Inclusive(spans[k]) {
        var m :| 0 <= m < |newSpans| && newSpans[m] == p;
      }
    }
    for i := 0 to sourceLength
      invariant spansSet == (set k | 0 <= k < |spans| :: Inclusive(spans[k])) + (set j | 0 <= j < i :: (j, j))
    {
      spansSet := spansSet + {(i, i)};
    }
  }

  /** Membership in the result, both ways: a pair is in it exactly when it is the inclusive
      form of an input span or the unit span of a token. Nothing else is added. */
  lemma CoverageMembers(spans: seq<Span>, sourceLength: nat, s: int, e: int)
    ensures (s, e) in Coverage(spans, sourceLength) <==>
      (exists k :: 0 <= k < |spans| && spans[k] == (s, e + 1)) || (s == e && 0 <= s < sourceLength)
  {
    if (s, e) in Coverage(spans, sourceLength) && !(s == e && 0 <= s < sourceLength) {
      var k :| 0 <= k < |spans| && Inclusive(spans[k]) == (s, e);
      assert spans[k] == (s, e + 1);
    }
  }

  /** With no tokens, only the inclusive input spans remain. */
  lemma CoverageWithoutTokens(spans: seq<Span>)
    ensures Coverage(spans, 0) == set k | 0 <= k < |spans| :: Inclusive(spans[k])
  {
  }

  /** No input span is rejected: an empty or reversed span `(s, e)` with `e <= s` still
      yields `(s, e - 1)`, whose end lies before its start. */
  lemma DegenerateSpanKept(spans: seq<Span>, sourceLength: nat, k: nat)
    requires k < |spans| && spans[k].1 <= spans[k].0
    ensures (spans[k].0, spans[k].1 - 1) in Coverage(spans, sourceLength)
    ensures spans[k].1 - 1 < spans[k].0
  {
  }

  /** Three tokens and the single half-open span (0, 2) give four inclusive spans. */
  lemma CoverageExample()
    ensures Coverage([(0, 2)], 3) == {(0, 0), (0, 1), (1, 1), (2, 2)}
  {
    var c := Coverage([(0, 2)], 3);
    assert Inclusive((0, 2)) == (0, 1);
    forall p | p in c ensures p in {(0, 0), (0, 1), (1, 1), (2, 2)} {
      CoverageMembers([(0, 2)], 3, p.0, p.1);
    }
    assert [(0, 2)][0] == (0, 2);
    assert (0, 1) in c && (0, 0) in c && (1, 1) in c && (2, 2) in c;
  }

  /** `_fix_spans_coverage` as written, on the argument `text_to_instance` passes it, which
      defaults to None: iterating over a missing list raises TypeError. */
  function FixSpansCoverageAsWritten(spans: Option<seq<Span>>, sourceLength: nat): (r: Result<set<Span>, ReaderError>)
    ensures r.Failure? <==> spans.None?
    ensures spans.Some? ==> r == Success(Coverage(spans.value, sourceLength))
  {
    match spans
    case None => Failure(NotIterable)
    case Some(s) => Success(Coverage(s, sourceLength))
  }

  /** Calling without spans (as `read_json_dict` does) always fails, whatever the text. */
  lemma MissingSpansRaise(sourceLength: nat)
    ensures FixSpansCoverageAsWritten(None, sourceLength) == Failure(NotIterable)
  {
  }

  /** The corrected behaviour: a missing span list counts as one without annotated spans,
      so the result is then exactly the unit spans. */
  function SpansOrUnits(spans: Option<seq<Span>>, sourceLength: nat): (r: set<Span>)
    ensures spans.Some? ==> r == Coverage(spans.value, sourceLength)
    ensures spans.None? ==> forall s, e :: (s, e) in r <==> s == e && 0 <= s < sourceLength
  {
    Coverage(spans.GetOr([]), sourceLength)
  }
}
