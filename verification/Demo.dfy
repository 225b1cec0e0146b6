/** site/src/scripts/redact.ts, the overlap half of `detect`: the browser keeps a
    match when it starts no earlier than the end of the last one kept.
 */
module Demo {
  import opened Sorting
  import opened Spans

  /** The browser's spans carry no confidence. */
  datatype DemoSpan = DemoSpan(start: int, end: int, kind: string)

  function DemoKey(s: DemoSpan): Key { Key(s.start, -(s.end - s.start), 0.0) }

  function LastEnd(out: seq<DemoSpan>): (r: int) { if out == [] then -1 else out[|out| - 1].end }

  function Greedy(sorted: seq<DemoSpan>): (out: seq<DemoSpan>)
  {
    if sorted == [] then [] else
      var s, out := sorted[|sorted| - 1], Greedy(sorted[..|sorted| - 1]);
      if s.start >= LastEnd(out) then out + [s] else out
  }

  method ResolveOverlaps(found: seq<DemoSpan>) returns (out: seq<DemoSpan>)
    ensures out == Greedy(SortBy(found, DemoKey))
  {
    var spans := SortBy(found, DemoKey);
    out := [];
    var lastEnd := -1;
    for i := 0 to |spans|
      invariant out == Greedy(spans[..i]) && lastEnd == LastEnd(out)
    {
      assert spans[..i + 1][..i] == spans[..i];
      if spans[i].start >= lastEnd {
        out := out + [spans[i]];
        lastEnd := spans[i].end;
      }
    }
    assert spans[..|spans|] == spans;
  }

  /** The same spans as the server sees them, all with one confidence. */
  function Lift(s: DemoSpan, c: real): (r: Span) { Span(s.start, s.end, s.kind, c) }

  function LiftAll(spans: seq<DemoSpan>, c: real): (r: seq<Span>)
    ensures |r| == |spans|
  {
    seq(|spans|, i requires 0 <= i < |spans| => Lift(spans[i], c))
  }

  lemma {:induction false} InsertLift(x: DemoSpan, s: seq<DemoSpan>, c: real)
    ensures LiftAll(Insert(x, s, DemoKey), c) == Insert(Lift(x, c), LiftAll(s, c), DedupeKey)
  {
    if s == [] || Le(DemoKey(x), DemoKey(s[0])) {
    } else {
      assert LiftAll(s, c)[1..] == LiftAll(s[1..], c);
      InsertLift(x, s[1..], c);
    }
  }

  lemma {:induction false} SortLift(s: seq<DemoSpan>, c: real)
    ensures LiftAll(SortBy(s, DemoKey), c) == SortBy(LiftAll(s, c), DedupeKey)
  {
    if s != [] {
      assert LiftAll(s, c)[1..] == LiftAll(s[1..], c);
      SortLift(s[1..], c);
      InsertLift(s[0], SortBy(s[1..], DemoKey), c);
    }
  }

  ghost predicate Matches(spans: seq<DemoSpan>)
  {
    forall i :: 0 <= i < |spans| ==> 0 <= spans[i].start < spans[i].end
  }

  /** Every kept match starts before `s` and ends no later than the last one. */
  ghost predicate Behind(out: seq<DemoSpan>, s: DemoSpan)
  {
    forall k :: 0 <= k < |out| ==> out[k].start <= s.start && 0 < out[k].end <= LastEnd(out)
  }

  lemma PlaceIsLastEndTest(out: seq<DemoSpan>, s: DemoSpan, c: real)
    requires Behind(out, s) && 0 <= s.start < s.end
    ensures Place(LiftAll(out, c), Lift(s, c))
         == LiftAll(if s.start >= LastEnd(out) then out + [s] else out, c)
  {
    var kept, x := LiftAll(out, c), Lift(s, c);
    if s.start >= LastEnd(out) {
      forall e | e in kept ensures !Overlaps(x, e) {
        var k :| 0 <= k < |kept| && kept[k] == e;
        assert out[k].end <= LastEnd(out);
      }
      FilterAll(kept, k => !Overlaps(x, k));
    } else {
      var last := kept[|out| - 1];
      assert last in kept && Overlaps(x, last);
    }
  }

  /** Kept matches end in order, so the last end is the farthest. */
  lemma {:induction false} GreedyEnds(sorted: seq<DemoSpan>)
    requires Matches(sorted) && Sorted(sorted, DemoKey)
    ensures forall e :: e in Greedy(sorted) ==> e in sorted && 0 < e.end <= LastEnd(Greedy(sorted))
  {
    if sorted != [] {
      GreedyEnds(sorted[..|sorted| - 1]);
    }
  }

  lemma {:induction false} GreedyIsPlaceAll(sorted: seq<DemoSpan>, c: real)
    requires Matches(sorted) && Sorted(sorted, DemoKey)
    ensures PlaceAll(LiftAll(sorted, c)) == LiftAll(Greedy(sorted), c)
  {
    if sorted != [] {
      var n := |sorted| - 1;
      var out := Greedy(sorted[..n]);
      GreedyIsPlaceAll(sorted[..n], c);
      GreedyEnds(sorted[..n]);
      assert LiftAll(sorted, c)[..n] == LiftAll(sorted[..n], c);
      forall k | 0 <= k < |out| ensures out[k].start <= sorted[n].start && 0 < out[k].end <= LastEnd(out) {
        assert out[k] in out;
        var j :| 0 <= j < n && sorted[j] == out[k];
        assert Le(DemoKey(sorted[j]), DemoKey(sorted[n]));
      }
      PlaceIsLastEndTest(out, sorted[n], c);
    }
  }

  /** Browser and server agree: at equal confidence, whatever it is, the greedy
      pass returns what `dedupe_overlaps` returns. */
  lemma BrowserAgreesWithServer(found: seq<DemoSpan>, c: real)
    requires Matches(found)
    ensures LiftAll(Greedy(SortBy(found, DemoKey)), c) == Dedupe(LiftAll(found, c))
  {
    var sorted := SortBy(found, DemoKey);
    SortSorts(found, DemoKey);
    forall i | 0 <= i < |sorted| ensures 0 <= sorted[i].start < sorted[i].end {
      assert sorted[i] in found;
    }
    SortLift(found, c);
    GreedyIsPlaceAll(sorted, c);
    DedupeIsPlaceAll(LiftAll(found, c));
  }
}
