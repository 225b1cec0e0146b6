/** `Span` (app/inference/detector.py) and `dedupe_overlaps`
    (app/redaction/apply.py): greedy resolution of overlapping detections.
 */
module Spans {
  import opened Sorting

  datatype Span = Span(start: int, end: int, kind: string, confidence: real)

  /** Two half-open spans share a character. */
  predicate Overlaps(a: Span, b: Span)
  {
    a.start < b.end && b.start < a.end
  }

  function DedupeKey(s: Span): Key { Key(s.start, -(s.end - s.start), -s.confidence) }

  function StartKey(s: Span): Key { Key(s.start, 0, 0.0) }

  ghost predicate NonEmpty(spans: seq<Span>)
  {
    forall s :: s in spans ==> s.start < s.end
  }

  ghost predicate Disjoint(spans: seq<Span>)
  {
    forall i, j :: 0 <= i < j < |spans| ==> !Overlaps(spans[i], spans[j])
  }

  /** Some kept span overlaps `span` with at least its confidence. */
  predicate Beaten(span: Span, kept: seq<Span>)
  {
    exists e :: e in kept && Overlaps(span, e) && span.confidence <= e.confidence
  }

  /** One round of the loop: `span` is dropped, or evicts what it overlaps. */
  function Place(kept: seq<Span>, span: Span): (r: seq<Span>)
  {
    if Beaten(span, kept) then kept else Filter(kept, k => !Overlaps(span, k)) + [span]
  }

  function PlaceAll(spans: seq<Span>): (r: seq<Span>)
  {
    if spans == [] then [] else Place(PlaceAll(spans[..|spans| - 1]), spans[|spans| - 1])
  }

  function Dedupe(spans: seq<Span>): (r: seq<Span>)
  {
    SortBy(PlaceAll(SortBy(spans, DedupeKey)), StartKey)
  }

  method DedupeOverlaps(spans: seq<Span>) returns (r: seq<Span>)
    ensures r == Dedupe(spans)
  {
    if spans == [] {
      return [];
    }
    var byStart := SortBy(spans, DedupeKey);
    var kept: seq<Span> := [];
    for i := 0 to |byStart|
      invariant kept == PlaceAll(byStart[..i])
    {
      var span := byStart[i];
      assert byStart[..i + 1][..i] == byStart[..i];
      if exists e :: e in kept && Overlaps(span, e) && span.confidence <= e.confidence {
        continue;
      }
      kept := Filter(kept, k => !Overlaps(span, k));
      kept := kept + [span];
    }
    assert byStart[..|byStart|] == byStart;
    r := SortBy(kept, StartKey);
  }

  // ----- what the loop keeps -----

  lemma FilterKeepsSorted(s: seq<Span>, p: Span -> bool)
    requires Sorted(s, DedupeKey)
    ensures Sorted(Filter(s, p), DedupeKey)
  {
    SortOfSorted(s, DedupeKey);
    SortFilter(s, DedupeKey, p);
    SortSorts(Filter(s, p), DedupeKey);
  }

  lemma {:induction false} FilterKeepsDisjoint(s: seq<Span>, p: Span -> bool)
    requires Disjoint(s)
    ensures Disjoint(Filter(s, p))
  {
    if s != [] {
      FilterKeepsDisjoint(s[1..], p);
      var f := Filter(s[1..], p);
      forall j | 0 <= j < |f| ensures !Overlaps(s[0], f[j]) {
        FilterMember(s[1..], p, f[j]);
      }
    }
  }

  lemma {:induction false} PlaceAllMembers(spans: seq<Span>)
    ensures forall x :: x in PlaceAll(spans) ==> x in spans
  {
    if spans != [] {
      var n := |spans| - 1;
      PlaceAllMembers(spans[..n]);
      FilterMembers(PlaceAll(spans[..n]), k => !Overlaps(spans[n], k));
    }
  }

  lemma {:induction false} PlaceAllInvariant(spans: seq<Span>)
    requires Sorted(spans, DedupeKey)
    ensures Sorted(PlaceAll(spans), DedupeKey)
    ensures Disjoint(PlaceAll(spans))
  {
    if spans != [] {
      var n := |spans| - 1;
      var before, span := PlaceAll(spans[..n]), spans[n];
      PlaceAllInvariant(spans[..n]);
      PlaceAllMembers(spans[..n]);
      var rest := Filter(before, k => !Overlaps(span, k));
      FilterKeepsSorted(before, k => !Overlaps(span, k));
      FilterKeepsDisjoint(before, k => !Overlaps(span, k));
      forall i | 0 <= i < |rest| ensures Le(DedupeKey(rest[i]), DedupeKey(span)) && !Overlaps(rest[i], span) {
        FilterMember(before, k => !Overlaps(span, k), rest[i]);
        assert rest[i] in before;
        assert rest[i] in spans[..n];
      }
    }
  }

  /** The final sort by start changes nothing: the loop kept the order. */
  lemma DedupeIsPlaceAll(spans: seq<Span>)
    ensures Dedupe(spans) == PlaceAll(SortBy(spans, DedupeKey))
  {
    SortSorts(spans, DedupeKey);
    PlaceAllInvariant(SortBy(spans, DedupeKey));
    SortOfSorted(PlaceAll(SortBy(spans, DedupeKey)), StartKey);
  }

  /** The result is drawn from the input, in document order, overlap-free. */
  lemma DedupeSortedDisjoint(spans: seq<Span>)
    ensures Sorted(Dedupe(spans), DedupeKey)
    ensures Disjoint(Dedupe(spans))
    ensures forall x :: x in Dedupe(spans) ==> x in spans
  {
    DedupeIsPlaceAll(spans);
    SortSorts(spans, DedupeKey);
    PlaceAllInvariant(SortBy(spans, DedupeKey));
    PlaceAllMembers(SortBy(spans, DedupeKey));
  }

  lemma {:induction false} PlaceAllOfDisjoint(spans: seq<Span>)
    requires Disjoint(spans)
    ensures PlaceAll(spans) == spans
  {
    if spans != [] {
      var n := |spans| - 1;
      PlaceAllOfDisjoint(spans[..n]);
      forall e | e in spans[..n] ensures !Overlaps(spans[n], e) {
        var i :| 0 <= i < n && spans[i] == e;
      }
      FilterAll(spans[..n], k => !Overlaps(spans[n], k));
    }
  }

  lemma DedupeIdempotent(spans: seq<Span>)
    ensures Dedupe(Dedupe(spans)) == Dedupe(spans)
  {
    DedupeSortedDisjoint(spans);
    var d := Dedupe(spans);
    SortOfSorted(d, DedupeKey);
    PlaceAllOfDisjoint(d);
    DedupeIsPlaceAll(d);
  }

  // ----- who survives -----

  /** Every input span overlapping `x` is `x` itself or strictly less confident. */
  ghost predicate Dominates(x: Span, spans: seq<Span>)
  {
    forall y :: y in spans && Overlaps(x, y) ==> y == x || y.confidence < x.confidence
  }

  lemma {:induction false} PlaceAllKeepsDominating(spans: seq<Span>, x: Span)
    requires Dominates(x, spans) && x in spans
    ensures x in PlaceAll(spans)
  {
    var n := |spans| - 1;
    var before, y := PlaceAll(spans[..n]), spans[n];
    PlaceAllMembers(spans[..n]);
    assert spans == spans[..n] + [y];
    if x in spans[..n] {
      assert Dominates(x, spans[..n]);
      PlaceAllKeepsDominating(spans[..n], x);
      FilterMember(before, k => !Overlaps(y, k), x);
    }
  }

  /** A span strictly more confident than everything it overlaps is kept. */
  lemma DedupeKeepsDominating(spans: seq<Span>, x: Span)
    requires x in spans && Dominates(x, spans)
    ensures x in Dedupe(spans)
  {
    DedupeIsPlaceAll(spans);
    SortSorts(spans, DedupeKey);
    PlaceAllKeepsDominating(SortBy(spans, DedupeKey), x);
  }

  /** `k` overlaps `x` and is more confident, or as confident and sorts no later. */
  predicate Beats(k: Span, x: Span)
  {
    Overlaps(k, x) && (k.confidence > x.confidence || (k.confidence == x.confidence && Le(DedupeKey(k), DedupeKey(x))))
  }

  /** `x` falls to `k`, and `k` then falls to the later `y`, which `x` does not overlap. */
  predicate Chain(x: Span, k: Span, y: Span)
  {
    && Beats(k, x) && Overlaps(k, y) && k.confidence < y.confidence && !Overlaps(x, y)
    && Le(DedupeKey(x), DedupeKey(y)) && Le(DedupeKey(k), DedupeKey(y))
  }

  ghost predicate NoChain(spans: seq<Span>)
  {
    forall x, k, y :: x in spans && k in spans && y in spans ==> !Chain(x, k, y)
  }

  /** Every span is kept or overlaps a kept one. */
  ghost predicate Covering(spans: seq<Span>)
  {
    forall x :: x in spans ==> x in Dedupe(spans) || exists k :: k in Dedupe(spans) && Overlaps(x, k)
  }

  /** The kept spans after the loop hold `x`, or one that beats it. */
  ghost predicate Answered(x: Span, kept: seq<Span>)
  {
    x in kept || exists k :: k in kept && Beats(k, x)
  }

  lemma PlaceAnswers(before: seq<Span>, y: Span, x: Span)
    requires x == y || Answered(x, before)
    requires x == y ==> forall e :: e in before ==> Le(DedupeKey(e), DedupeKey(y))
    requires forall k :: k in before ==> Le(DedupeKey(k), DedupeKey(y)) && !Chain(x, k, y)
    requires Le(DedupeKey(x), DedupeKey(y))
    ensures Answered(x, Place(before, y))
  {
    FilterMembers(before, k => !Overlaps(y, k));
    if Beaten(y, before) {
      if x == y && x !in before {
        var e :| e in before && Overlaps(y, e) && y.confidence <= e.confidence;
        assert Beats(e, x);
      }
    } else if x != y {
      assert y in Place(before, y);
      if x in before {
        assert Overlaps(y, x) ==> Beats(y, x);
      } else {
        var k :| k in before && Beats(k, x);
        if Overlaps(y, k) {
          assert !Chain(x, k, y);
          assert Beats(y, x);
        } else {
          assert k in Place(before, y);
        }
      }
    }
  }

  lemma {:induction false} PlaceAllAnswers(spans: seq<Span>, x: Span)
    requires Sorted(spans, DedupeKey) && NoChain(spans) && x in spans
    ensures Answered(x, PlaceAll(spans))
  {
    var n := |spans| - 1;
    var init, y := spans[..n], spans[n];
    PlaceAllMembers(init);
    assert spans == init + [y];
    forall k | k in init ensures Le(DedupeKey(k), DedupeKey(y)) {
      var i :| 0 <= i < n && spans[i] == k;
    }
    if x in init {
      PlaceAllAnswers(init, x);
    }
    PlaceAnswers(PlaceAll(init), y, x);
  }

  lemma NoChainCovers(spans: seq<Span>)
    requires NoChain(spans)
    ensures Covering(spans)
  {
    DedupeIsPlaceAll(spans);
    SortSorts(spans, DedupeKey);
    forall x | x in spans ensures x in Dedupe(spans) || exists k :: k in Dedupe(spans) && Overlaps(x, k) {
      PlaceAllAnswers(SortBy(spans, DedupeKey), x);
    }
  }

  lemma PlaceThree(a: Span, b: Span, c: Span)
    ensures PlaceAll([a, b, c]) == Place(Place([a], b), c)
  {
    var l := [a, b, c];
    assert l[..2] == [a, b] && [a, b][..1] == [a] && [a][..0] == [];
    assert PlaceAll([]) == [] && !Beaten(a, []);
    assert Filter([], k => !Overlaps(a, k)) == [];
    assert PlaceAll([a]) == Place([], a) == [a];
    assert PlaceAll([a, b]) == Place([a], b);
  }

  /** A chain on its own leaves only its last span. */
  lemma ChainLeavesLast(x: Span, k: Span, y: Span)
    requires Chain(x, k, y)
    ensures Dedupe([k, x, y]) == [y]
  {
    var sorted := if Le(DedupeKey(k), DedupeKey(x)) then [k, x, y] else [x, k, y];
    assert [k, x, y][1..] == [x, y] && [x, y][1..] == [y] && [y][1..] == [];
    SortOfSorted([x, y], DedupeKey);
    assert Insert(k, [y], DedupeKey) == [k, y];
    assert SortBy([k, x, y], DedupeKey) == sorted;
    DedupeIsPlaceAll([k, x, y]);
    PlaceThree(sorted[0], sorted[1], sorted[2]);
    PlaceOne(sorted[0], sorted[1]);
    PlaceOne(k, y);
  }

  lemma PlaceOne(a: Span, b: Span)
    requires Overlaps(a, b)
    ensures Place([a], b) == if b.confidence <= a.confidence then [a] else [b]
  {
    assert a in [a];
    assert Filter([a], k => !Overlaps(b, k)) == [];
  }

  /** Coverage, exactly: every list drawn from `spans` is covered by what is kept
      of it if and only if `spans` holds no chain. */
  lemma DedupeCovers(spans: seq<Span>)
    ensures NoChain(spans) <==> forall part: seq<Span> :: multiset(part) <= multiset(spans) ==> Covering(part)
  {
    if NoChain(spans) {
      forall part: seq<Span> | multiset(part) <= multiset(spans) ensures Covering(part) {
        forall s | s in part ensures s in spans {
          assert s in multiset(part) && s in multiset(spans);
        }
        NoChainCovers(part);
      }
    } else {
      var x, k, y :| x in spans && k in spans && y in spans && Chain(x, k, y);
      var part := [k, x, y];
      ChainLeavesLast(x, k, y);
      assert x in part && !Covering(part);
      assert multiset(part) == multiset{k, x, y};
      assert x in multiset(spans) && k in multiset(spans) && y in multiset(spans);
      assert multiset(part) <= multiset(spans);
    }
  }

  /** Equal confidences, for one, leave no room for a chain. */
  lemma NoRiseNoChain(spans: seq<Span>)
    requires forall k, y ::
      k in spans && y in spans && Overlaps(k, y) && Le(DedupeKey(k), DedupeKey(y)) ==> y.confidence <= k.confidence
    ensures NoChain(spans) && Covering(spans)
  {
    NoChainCovers(spans);
  }

  /** With rising confidences it can fail: in the chain a, b, c the span a
      falls to b and b falls to c, so a overlaps nothing that is kept. */
  lemma RisingChainLosesCoverage()
    ensures var a, b, c := Span(0, 4, "A", 0.1), Span(3, 7, "B", 0.5), Span(6, 9, "C", 0.9);
            Dedupe([a, b, c]) == [c] && !Overlaps(a, c)
  {
    var a, b, c := Span(0, 4, "A", 0.1), Span(3, 7, "B", 0.5), Span(6, 9, "C", 0.9);
    SortOfSorted([a, b, c], DedupeKey);
    DedupeIsPlaceAll([a, b, c]);
    PlaceThree(a, b, c);
    PlaceOne(a, b);
    PlaceOne(b, c);
  }

  // ----- locality -----

  /** No span satisfying `p` overlaps one that does not. */
  ghost predicate Separated(spans: seq<Span>, p: Span -> bool)
  {
    forall x, y :: x in spans && y in spans && p(x) && !p(y) ==> !Overlaps(x, y)
  }

  lemma {:induction false} FilterCommutes<T>(s: seq<T>, p: T -> bool, q: T -> bool)
    ensures Filter(Filter(s, p), q) == Filter(Filter(s, q), p)
  {
    if s != [] {
      FilterCommutes(s[1..], p, q);
      if p(s[0]) {
        FilterCons(s[0], Filter(s[1..], p), q);
      }
      if q(s[0]) {
        FilterCons(s[0], Filter(s[1..], q), p);
      }
    }
  }

  lemma {:induction false} FilterAgree<T>(s: seq<T>, p: T -> bool, q: T -> bool)
    requires forall x :: x in s && p(x) ==> q(x)
    ensures Filter(Filter(s, q), p) == Filter(s, p)
  {
    if s != [] {
      FilterAgree(s[1..], p, q);
      if q(s[0]) {
        FilterCons(s[0], Filter(s[1..], q), p);
      }
    }
  }

  lemma PlaceLocal(kept: seq<Span>, y: Span, p: Span -> bool)
    requires Separated(kept + [y], p)
    ensures Filter(Place(kept, y), p) == if p(y) then Place(Filter(kept, p), y) else Filter(kept, p)
  {
    var q := (k: Span) => !Overlaps(y, k);
    FilterMembers(kept, p);
    assert y in kept + [y];
    forall e | e in kept ensures e in kept + [y] {}
    assert Place(kept, y) == if Beaten(y, kept) then kept else Filter(kept, q) + [y];
    FilterConcat(Filter(kept, q), [y], p);
    FilterCommutes(kept, p, q);
    if !p(y) {
      forall x | x in kept && p(x) ensures q(x) {
        assert !Overlaps(x, y);
      }
      FilterAgree(kept, p, q);
    } else {
      assert Beaten(y, kept) ==> Beaten(y, Filter(kept, p)) by {
        if Beaten(y, kept) {
          var e :| e in kept && Overlaps(y, e) && y.confidence <= e.confidence;
          assert p(e);
          assert e in Filter(kept, p);
        }
      }
    }
  }

  lemma PlaceAllSnoc(spans: seq<Span>, y: Span)
    ensures PlaceAll(spans + [y]) == Place(PlaceAll(spans), y)
  {
    assert (spans + [y])[..|spans|] == spans;
  }

  lemma SeparatedPart(spans: seq<Span>, part: seq<Span>, p: Span -> bool)
    requires Separated(spans, p)
    requires forall x :: x in part ==> x in spans
    ensures Separated(part, p)
  {
  }

  lemma {:induction false} PlaceAllLocal(spans: seq<Span>, p: Span -> bool)
    requires Separated(spans, p)
    ensures Filter(PlaceAll(spans), p) == PlaceAll(Filter(spans, p))
  {
    if spans != [] {
      var init, y := spans[..|spans| - 1], spans[|spans| - 1];
      PlaceAllMembers(init);
      SeparatedPart(spans, PlaceAll(init) + [y], p);
      SeparatedPart(spans, init, p);
      PlaceAllLocal(init, p);
      PlaceLocal(PlaceAll(init), y, p);
      FilterSnoc(init, y, p);
      assert spans == init + [y];
      PlaceAllSnoc(Filter(init, p), y);
    }
  }

  /** Deduplication is local: parts of the input that do not overlap each
      other are resolved independently. */
  lemma DedupeLocal(spans: seq<Span>, p: Span -> bool)
    requires Separated(spans, p)
    ensures Filter(Dedupe(spans), p) == Dedupe(Filter(spans, p))
  {
    DedupeIsPlaceAll(spans);
    DedupeIsPlaceAll(Filter(spans, p));
    SortSorts(spans, DedupeKey);
    SortFilter(spans, DedupeKey, p);
    PlaceAllLocal(SortBy(spans, DedupeKey), p);
  }

  ghost predicate Apart(s: seq<Span>, t: seq<Span>)
  {
    forall x, y :: x in s && y in t ==> !Overlaps(x, y)
  }

  /** Two inputs that never overlap each other: the marked part of the result
      is the result for the marked input. */
  lemma DedupeSplit(s: seq<Span>, t: seq<Span>, p: Span -> bool)
    requires Apart(s, t)
    requires forall x :: x in s ==> p(x)
    requires forall y :: y in t ==> !p(y)
    ensures Filter(Dedupe(s + t), p) == Dedupe(s)
  {
    FilterConcat(s, t, p);
    FilterAll(s, p);
    FilterNone(t, p);
    assert s + [] == s;
    DedupeLocal(s + t, p);
  }

  lemma DedupeSplitRight(s: seq<Span>, t: seq<Span>, p: Span -> bool)
    requires Apart(s, t)
    requires forall x :: x in s ==> !p(x)
    requires forall y :: y in t ==> p(y)
    ensures Filter(Dedupe(s + t), p) == Dedupe(t)
  {
    assert Filter(s + t, p) == t by {
      FilterConcat(s, t, p);
      FilterNone(s, p);
      FilterAll(t, p);
      assert [] + t == t;
    }
    forall x, y | x in s + t && y in s + t && p(x) && !p(y) ensures !Overlaps(x, y) {
      assert y in s && x in t;
    }
    DedupeLocal(s + t, p);
  }
}
