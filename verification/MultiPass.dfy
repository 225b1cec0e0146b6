/** app/inference/multipass.py: detection repeated and the answers united. */
module MultiPass {
  import opened Wrappers
  import opened Lists
  import opened Sorting
  import opened Spans

  /** The answers of the first `n` passes, one after the other. */
  function Union(detect: nat -> seq<Span>, n: nat): (r: seq<Span>)
  {
    if n == 0 then [] else Union(detect, n - 1) + detect(n - 1)
  }

  /** `detect(i)` is what the detector answers on its i-th call. */
  method MultiPassDetect(detect: nat -> seq<Span>, passes: int, maxPasses: int) returns (r: Result<seq<Span>>)
    ensures r.ValueError? <==> passes < 1 || passes > maxPasses
    ensures r.Ok? ==> r.value == Dedupe(Union(detect, passes))
    ensures r.Ok? ==> forall x :: FoundBy(detect, passes, x) && FoundApart(detect, passes, x) ==> x in r.value
    ensures r.Ok? ==> forall x :: x in r.value ==> FoundBy(detect, passes, x)
  {
    UnionFinds(detect, if passes < 0 then 0 else passes);
    if passes < 1 {
      return ValueError;
    }
    if passes > maxPasses {
      return ValueError;
    }
    if passes == 1 {
      var once := DedupeOverlaps(detect(0));
      assert Union(detect, 1) == detect(0);
      return Ok(once);
    }
    var unioned: seq<Span> := [];
    for i := 0 to passes
      invariant unioned == Union(detect, i)
    {
      unioned := unioned + detect(i);
    }
    var all := DedupeOverlaps(unioned);
    r := Ok(all);
  }

  // ----- what a single pass finds -----

  /** Some pass finds it. */
  ghost predicate FoundBy(detect: nat -> seq<Span>, n: int, x: Span)
  {
    exists i: nat :: i < n && x in detect(i)
  }

  /** It overlaps nothing else that any pass finds. */
  ghost predicate FoundApart(detect: nat -> seq<Span>, n: int, x: Span)
  {
    forall i: nat, y :: i < n && y in detect(i) && y != x ==> !Overlaps(x, y)
  }

  lemma {:induction false} UnionHolds(detect: nat -> seq<Span>, n: nat, x: Span)
    ensures x in Union(detect, n) <==> FoundBy(detect, n, x)
  {
    if n > 0 {
      UnionHolds(detect, n - 1, x);
      if i: nat :| i < n && x in detect(i) {
        assert i == n - 1 || FoundBy(detect, n - 1, x);
      }
    }
  }

  /** What only one of the passes finds is kept, if it overlaps nothing else; and
      nothing else than what a pass finds. */
  lemma UnionFinds(detect: nat -> seq<Span>, n: nat)
    ensures forall x :: FoundBy(detect, n, x) && FoundApart(detect, n, x) ==> x in Dedupe(Union(detect, n))
    ensures forall x :: x in Dedupe(Union(detect, n)) ==> FoundBy(detect, n, x)
  {
    forall x ensures x in Union(detect, n) <==> FoundBy(detect, n, x) {
      UnionHolds(detect, n, x);
    }
    DedupeSortedDisjoint(Union(detect, n));
    forall x | FoundBy(detect, n, x) && FoundApart(detect, n, x) ensures x in Dedupe(Union(detect, n)) {
      DedupeKeepsDominating(Union(detect, n), x);
    }
  }

  // ----- repeated keys are absorbed -----

  /** A list without the elements that repeat the key of their predecessor. */
  ghost function Heads(spans: seq<Span>): seq<Span>
  {
    var n := |spans|;
    if n <= 1 then spans
    else if DedupeKey(spans[n - 1]) == DedupeKey(spans[n - 2]) then Heads(spans[..n - 1])
    else Heads(spans[..n - 1]) + [spans[n - 1]]
  }

  lemma {:induction false} RepeatsAreAbsorbed(spans: seq<Span>)
    requires NonEmpty(spans)
    ensures PlaceAll(spans) == PlaceAll(Heads(spans))
  {
    var n := |spans|;
    if n >= 2 {
      var init, y := spans[..n - 1], spans[n - 1];
      RepeatsAreAbsorbed(init);
      if DedupeKey(y) == DedupeKey(spans[n - 2]) {
        var x, before := spans[n - 2], PlaceAll(init[..n - 2]);
        assert x == init[|init| - 1] && PlaceAll(init) == Place(before, x);
        assert y in spans && Overlaps(y, x);
        if Beaten(x, before) {
          assert Beaten(y, before);
        } else {
          assert x in PlaceAll(init);
        }
        assert PlaceAll(spans) == Place(PlaceAll(init), y) == PlaceAll(init);
      } else {
        PlaceAllSnoc(Heads(init), y);
      }
    }
  }

  /** `x` is the first element of its key. */
  ghost predicate IsFirst(x: Span, spans: seq<Span>)
  {
    WithKey(spans, DedupeKey, DedupeKey(x)) != [] && WithKey(spans, DedupeKey, DedupeKey(x))[0] == x
  }

  lemma FirstSnoc(spans: seq<Span>, y: Span, x: Span)
    ensures IsFirst(x, spans + [y])
        <==> IsFirst(x, spans) || (x == y && WithKey(spans, DedupeKey, DedupeKey(y)) == [])
  {
    WithKeySnoc(spans, y, DedupeKey, DedupeKey(x));
  }

  lemma FirstMember(spans: seq<Span>, x: Span)
    requires IsFirst(x, spans)
    ensures x in spans
  {
    WithKeyMembers(spans, DedupeKey, DedupeKey(x));
    assert WithKey(spans, DedupeKey, DedupeKey(x))[0] in WithKey(spans, DedupeKey, DedupeKey(x));
  }

  /** In a sorted list a key is new exactly when it differs from its predecessor's. */
  lemma NewKey(spans: seq<Span>, y: Span)
    requires Sorted(spans + [y], DedupeKey)
    ensures WithKey(spans, DedupeKey, DedupeKey(y)) == []
        <==> spans == [] || DedupeKey(spans[|spans| - 1]) != DedupeKey(y)
  {
    var w := WithKey(spans, DedupeKey, DedupeKey(y));
    WithKeyMembers(spans, DedupeKey, DedupeKey(y));
    if spans != [] {
      var z := spans[|spans| - 1];
      assert z in spans && z == (spans + [y])[|spans| - 1] && y == (spans + [y])[|spans|];
      if w != [] {
        assert w[0] in w;
        var j :| 0 <= j < |spans| && spans[j] == w[0];
        assert (spans + [y])[j] == w[0];
        assert Le(DedupeKey(w[0]), DedupeKey(z)) || j == |spans| - 1;
      }
    }
  }

  lemma NewKeyIsAbove(spans: seq<Span>, y: Span, z: Span)
    requires Sorted(spans + [y], DedupeKey)
    requires z in spans && WithKey(spans, DedupeKey, DedupeKey(y)) == []
    ensures !Le(DedupeKey(y), DedupeKey(z))
  {
    var j :| 0 <= j < |spans| && spans[j] == z;
    assert (spans + [y])[j] == z && (spans + [y])[|spans|] == y;
    assert Le(DedupeKey(z), DedupeKey(y));
    WithKeyMembers(spans, DedupeKey, DedupeKey(y));
    assert DedupeKey(z) != DedupeKey(y);
  }

  lemma HeadsSnoc(spans: seq<Span>, y: Span)
    requires Sorted(spans + [y], DedupeKey)
    ensures Heads(spans + [y])
         == if WithKey(spans, DedupeKey, DedupeKey(y)) == [] then Heads(spans) + [y] else Heads(spans)
  {
    NewKey(spans, y);
    assert (spans + [y])[..|spans|] == spans;
    assert spans == [] ==> spans + [y] == [y];
  }

  lemma {:induction false} HeadsAreFirsts(spans: seq<Span>)
    requires Sorted(spans, DedupeKey)
    ensures StrictlySorted(Heads(spans), DedupeKey)
    ensures forall x :: x in Heads(spans) <==> IsFirst(x, spans)
  {
    if spans != [] {
      var init, y := spans[..|spans| - 1], spans[|spans| - 1];
      assert spans == init + [y];
      HeadsAreFirsts(init);
      HeadsSnoc(init, y);
      var h := Heads(init);
      forall x ensures x in Heads(spans) <==> IsFirst(x, spans) {
        FirstSnoc(init, y, x);
      }
      if WithKey(init, DedupeKey, DedupeKey(y)) == [] {
        forall i | 0 <= i < |h| ensures !Le(DedupeKey(y), DedupeKey(h[i])) {
          FirstMember(init, h[i]);
          NewKeyIsAbove(init, y, h[i]);
        }
      }
    }
  }

  lemma {:induction false} UnionFirsts(detect: nat -> seq<Span>, n: nat, x: Span)
    requires n >= 1 && forall i: nat :: i < n ==> detect(i) == detect(0)
    ensures IsFirst(x, Union(detect, n)) <==> IsFirst(x, detect(0))
  {
    if n == 1 {
      assert Union(detect, 1) == detect(0);
    } else {
      UnionFirsts(detect, n - 1, x);
      WithKeyConcat(Union(detect, n - 1), detect(n - 1), DedupeKey, DedupeKey(x));
    }
  }

  lemma {:induction false} UnionMembers(detect: nat -> seq<Span>, n: nat)
    requires n >= 1 && forall i: nat :: i < n ==> detect(i) == detect(0)
    ensures forall x :: x in Union(detect, n) <==> x in detect(0)
  {
    if n > 1 {
      UnionMembers(detect, n - 1);
    }
  }

  /** A deterministic detector gains nothing from further passes: any number
      of them returns the very list one pass returns, ties included. */
  lemma PassesAreAbsorbed(detect: nat -> seq<Span>, passes: nat)
    requires passes >= 1 && forall i: nat :: i < passes ==> detect(i) == detect(0)
    requires NonEmpty(detect(0))
    ensures Dedupe(Union(detect, passes)) == Dedupe(detect(0))
  {
    var once, many := SortBy(detect(0), DedupeKey), SortBy(Union(detect, passes), DedupeKey);
    UnionMembers(detect, passes);
    SortSorts(detect(0), DedupeKey);
    SortSorts(Union(detect, passes), DedupeKey);
    RepeatsAreAbsorbed(once);
    RepeatsAreAbsorbed(many);
    HeadsAreFirsts(once);
    HeadsAreFirsts(many);
    forall x ensures x in Heads(once) <==> x in Heads(many) {
      WithKeyOfSort(detect(0), DedupeKey, DedupeKey(x));
      WithKeyOfSort(Union(detect, passes), DedupeKey, DedupeKey(x));
      UnionFirsts(detect, passes, x);
    }
    StrictlySortedUnique(Heads(once), Heads(many), DedupeKey);
    DedupeIsPlaceAll(detect(0));
    DedupeIsPlaceAll(Union(detect, passes));
  }

  lemma DisjointSortedIsKept(spans: seq<Span>)
    requires Sorted(spans, DedupeKey) && Disjoint(spans)
    ensures Dedupe(spans) == spans
  {
    SortOfSorted(spans, DedupeKey);
    DedupeIsPlaceAll(spans);
    PlaceAllOfDisjoint(spans);
  }

  /** A detector that answers the same on every call. */
  function Always(answer: seq<Span>): (detect: nat -> seq<Span>) { i => answer }

  lemma {:induction false} UnionOfRepeat(s: Span, n: nat)
    ensures Union(Always([s]), n) == Repeat(s, n)
  {
    if n > 0 {
      UnionOfRepeat(s, n - 1);
      assert Repeat(s, n - 1) + [s] == Repeat(s, n);
    }
  }

  /** An empty span does not overlap its own copies: it is kept once per pass. */
  lemma EmptySpanIsNotAbsorbed(s: Span, passes: nat)
    requires s.start >= s.end
    ensures Dedupe(Union(Always([s]), passes)) == Repeat(s, passes)
  {
    UnionOfRepeat(s, passes);
    DisjointSortedIsKept(Repeat(s, passes));
  }

  /** Any number of passes over a detector that always answers `answer` returns
      what one pass returns. */
  ghost predicate Absorbed(answer: seq<Span>)
  {
    forall passes: nat :: passes >= 1 ==> Dedupe(Union(Always(answer), passes)) == Dedupe(answer)
  }

  /** Absorption, exactly: every list drawn from the answer is absorbed for every
      number of passes if and only if the answer holds no empty span. */
  lemma AbsorbedIffNonEmpty(answer: seq<Span>)
    ensures NonEmpty(answer) <==> forall part: seq<Span> :: multiset(part) <= multiset(answer) ==> Absorbed(part)
  {
    if NonEmpty(answer) {
      forall part: seq<Span> | multiset(part) <= multiset(answer) ensures Absorbed(part) {
        forall s | s in part ensures s in answer {
          assert s in multiset(part) && s in multiset(answer);
        }
        forall passes: nat | passes >= 1 ensures Dedupe(Union(Always(part), passes)) == Dedupe(part) {
          PassesAreAbsorbed(Always(part), passes);
        }
      }
    } else {
      var s :| s in answer && s.start >= s.end;
      assert s in multiset(answer);
      assert multiset([s]) <= multiset(answer);
      EmptySpanIsNotAbsorbed(s, 2);
      DisjointSortedIsKept([s]);
      assert !Absorbed([s]);
    }
  }
}
