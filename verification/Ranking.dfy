/** `dedupe_overlaps` (app/redaction/apply.py): who wins among overlapping spans. */
module Ranking {
  import opened Sorting
  import opened Spans

  /** `x` is more confident; or as confident and starts earlier; or starts there too and
      is longer. */
  predicate Outranks(x: Span, y: Span)
  {
    || x.confidence > y.confidence
    || (x.confidence == y.confidence && (x.start < y.start || (x.start == y.start && x.end > y.end)))
  }

  ghost predicate Leads(x: Span, spans: seq<Span>)
  {
    forall y :: y in spans && y != x && Overlaps(x, y) ==> Outranks(x, y)
  }

  lemma PlaceKeepsLeader(before: seq<Span>, y: Span, x: Span)
    requires x == y || x in before
    requires y != x && Overlaps(x, y) ==> Outranks(x, y)
    requires forall e :: e in before ==> Le(DedupeKey(e), DedupeKey(y))
    requires forall e :: e in before && e != x && Overlaps(x, e) ==> Outranks(x, e)
    ensures x in Place(before, y)
  {
    FilterMembers(before, k => !Overlaps(y, k));
    assert x == y && x !in before ==> !Beaten(y, before);
    if x != y && Overlaps(x, y) {
      assert x in before && Overlaps(y, x) && y.confidence <= x.confidence;
    }
  }

  lemma {:induction false} PlaceAllKeepsLeader(spans: seq<Span>, x: Span)
    requires Sorted(spans, DedupeKey) && Leads(x, spans) && x in spans
    ensures x in PlaceAll(spans)
  {
    var n := |spans| - 1;
    var init, y := spans[..n], spans[n];
    assert spans == init + [y];
    PlaceAllMembers(init);
    forall e | e in init ensures Le(DedupeKey(e), DedupeKey(y)) {
      var i :| 0 <= i < n && spans[i] == e;
    }
    if x in init {
      PlaceAllKeepsLeader(init, x);
    }
    PlaceKeepsLeader(PlaceAll(init), y, x);
  }

  /** A span that outranks everything else it overlaps is in the result, and nothing
      else that it overlaps is. */
  lemma LeaderIsKept(spans: seq<Span>, x: Span)
    requires x in spans && Leads(x, spans)
    ensures x in Dedupe(spans)
    ensures forall y :: y in Dedupe(spans) && y != x ==> !Overlaps(x, y)
  {
    DedupeIsPlaceAll(spans);
    SortSorts(spans, DedupeKey);
    PlaceAllKeepsLeader(SortBy(spans, DedupeKey), x);
    DedupeSortedDisjoint(spans);
    var d := Dedupe(spans);
    var i :| 0 <= i < |d| && d[i] == x;
    forall y | y in d && y != x ensures !Overlaps(x, y) {
      var j :| 0 <= j < |d| && d[j] == y;
    }
  }
}
