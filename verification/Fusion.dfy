/** app/bench/fusion.py: which contextual spans a prediction attempts, and the
    entities over which the score runs (Algorithm 2 of the RedactionBench paper).
 */
module Fusion {
  import opened Wrappers
  import opened Annotation
  import opened Sorting
  import opened Runs
  import opened Graph
  import opened Combinators
  import opened Pairs
  import opened Structure

  // ----- intersect -----

  function IntKey(x: int): Key { Key(x, 0, 0.0) }

  function StartsOf(spans: seq<LabelledSpan>): (r: seq<int>)
    ensures |r| == |spans|
  {
    seq(|spans|, i requires 0 <= i < |spans| => spans[i].start)
  }

  function EndsOf(spans: seq<LabelledSpan>): (r: seq<int>)
    ensures |r| == |spans|
  {
    seq(|spans|, i requires 0 <= i < |spans| => spans[i].end)
  }

  function Intersect(span: LabelledSpan, predStarts: seq<int>, predEnds: seq<int>): (r: bool)
  {
    if predStarts == [] then false else
      var idx := BisectRight(predEnds, span.start);
      idx < |predStarts| && predStarts[idx] < span.end
  }

  /** What the two bisected lists see of a prediction: it is hit when more
      predictions start before the span ends than end before it starts. */
  predicate Struck(span: LabelledSpan, preds: seq<LabelledSpan>)
  {
    Intersect(span, SortBy(StartsOf(preds), IntKey), SortBy(EndsOf(preds), IntKey))
  }

  /** The number of elements not above `x`. */
  function AtMost(s: seq<int>, x: int): (n: nat)
    ensures n <= |s|
  {
    if s == [] then 0 else (if s[0] <= x then 1 else 0) + AtMost(s[1..], x)
  }

  lemma {:induction false} AtMostInsert(v: int, s: seq<int>, x: int)
    ensures AtMost(Insert(v, s, IntKey), x) == AtMost([v] + s, x)
  {
    assert ([v] + s)[1..] == s;
    if s == [] || Le(IntKey(v), IntKey(s[0])) {
    } else {
      AtMostInsert(v, s[1..], x);
      assert ([v] + s[1..])[1..] == s[1..];
      assert ([s[0]] + Insert(v, s[1..], IntKey))[1..] == Insert(v, s[1..], IntKey);
    }
  }

  lemma {:induction false} AtMostSort(s: seq<int>, x: int)
    ensures AtMost(SortBy(s, IntKey), x) == AtMost(s, x)
  {
    if s != [] {
      AtMostSort(s[1..], x);
      AtMostInsert(s[0], SortBy(s[1..], IntKey), x);
      assert ([s[0]] + SortBy(s[1..], IntKey))[1..] == SortBy(s[1..], IntKey);
    }
  }

  /** In a sorted list the first elements are the small ones. */
  lemma {:induction false} SortedAtMost(s: seq<int>, x: int)
    requires Sorted(s, IntKey)
    ensures BisectRight(s, x) == AtMost(s, x)
    ensures forall i :: 0 <= i < |s| ==> (s[i] <= x <==> i < AtMost(s, x))
  {
    if s != [] {
      SortedAtMost(s[1..], x);
      forall i | 0 <= i < |s| ensures s[i] <= x <==> i < AtMost(s, x) {
        if i > 0 {
          assert s[i] == s[1..][i - 1];
          assert Le(IntKey(s[0]), IntKey(s[i]));
        } else if s[0] > x && |s| > 1 {
          assert Le(IntKey(s[0]), IntKey(s[1]));
          assert s[1] == s[1..][0];
        }
      }
    }
  }

  lemma {:induction false} MoreStartsThanEnds(preds: seq<LabelledSpan>, lo: int, hi: int)
    requires lo < hi && forall p :: p in preds ==> p.start <= p.end
    ensures AtMost(StartsOf(preds), hi - 1) >= AtMost(EndsOf(preds), lo)
    ensures AtMost(StartsOf(preds), hi - 1) > AtMost(EndsOf(preds), lo)
        <==> exists p :: p in preds && p.start < hi && p.end > lo
  {
    if preds != [] {
      assert preds[0] in preds;
      assert StartsOf(preds)[1..] == StartsOf(preds[1..]);
      assert EndsOf(preds)[1..] == EndsOf(preds[1..]);
      MoreStartsThanEnds(preds[1..], lo, hi);
      if p :| p in preds && p.start < hi && p.end > lo {
        assert p == preds[0] || p in preds[1..];
      }
    }
  }

  lemma IntersectCounts(span: LabelledSpan, starts: seq<int>, ends: seq<int>)
    requires Sorted(starts, IntKey) && Sorted(ends, IntKey) && |starts| == |ends|
    ensures Intersect(span, starts, ends) <==> AtMost(starts, span.end - 1) > AtMost(ends, span.start)
  {
    SortedAtMost(starts, span.end - 1);
    SortedAtMost(ends, span.start);
  }

  /** Although starts and ends are sorted apart, raw and overlapping predictions
      strike a span exactly when one of them overlaps it. */
  lemma StruckIsOverlap(span: LabelledSpan, preds: seq<LabelledSpan>)
    requires span.start < span.end && forall p :: p in preds ==> p.start <= p.end
    ensures Struck(span, preds) <==> exists p :: p in preds && p.start < span.end && p.end > span.start
  {
    SortSorts(StartsOf(preds), IntKey);
    SortSorts(EndsOf(preds), IntKey);
    IntersectCounts(span, SortBy(StartsOf(preds), IntKey), SortBy(EndsOf(preds), IntKey));
    AtMostSort(StartsOf(preds), span.end - 1);
    AtMostSort(EndsOf(preds), span.start);
    MoreStartsThanEnds(preds, span.start, span.end);
  }

  /** An empty prediction between two characters of the span. */
  predicate EmptyInside(p: LabelledSpan, span: LabelledSpan)
  {
    p.start == p.end && span.start < p.start < span.end
  }

  predicate EmptyStrike(span: LabelledSpan, preds: seq<LabelledSpan>)
  {
    exists p :: p in preds && EmptyInside(p, span)
  }

  /** So a span is struck if and only if one of its characters is covered or an
      empty prediction lies strictly inside it. */
  lemma StruckIsCovered(span: LabelledSpan, preds: seq<LabelledSpan>, n: int)
    requires 0 <= span.start < span.end <= n && forall p :: p in preds ==> p.start <= p.end
    ensures Struck(span, preds) <==> SpanChars(span) * Cover(preds, n) != {} || EmptyStrike(span, preds)
  {
    StruckIsOverlap(span, preds);
    if p :| p in preds && p.start < span.end && p.end > span.start {
      if p.start == p.end {
        assert EmptyInside(p, span);
      } else {
        var c := Max(p.start, span.start);
        assert Covers(p, c);
        assert c in SpanChars(span) * Cover(preds, n);
      }
    }
    if c :| c in SpanChars(span) * Cover(preds, n) {
      var p :| p in preds && Covers(p, c);
    }
  }

  /** An empty prediction inside a span strikes it without covering anything. */
  lemma EmptyPredictionStrikes()
    ensures var y, p := LabelledSpan(0, 3, Contextual), LabelledSpan(1, 1, Mandatory);
            Struck(y, [p]) && Cover([p], 3) == {}
  {
    var y, p := LabelledSpan(0, 3, Contextual), LabelledSpan(1, 1, Mandatory);
    assert p in [p] && EmptyInside(p, y);
    StruckIsCovered(y, [p], 3);
  }

  // ----- selected_contextual_spans -----

  /** The component recorded last for a span; `[]` when there is none. */
  function ComponentOf(components: seq<Group>, s: Node): (r: Group)
  {
    if components == [] then []
    else if s in components[|components| - 1] then components[|components| - 1]
    else ComponentOf(components[..|components| - 1], s)
  }

  /** The first yellow span that covers a position. */
  function YellowAt(yellow: seq<Node>, pos: int): (r: Option<Node>)
  {
    if yellow == [] then None
    else if yellow[0].start <= pos < yellow[0].end then Some(yellow[0])
    else YellowAt(yellow[1..], pos)
  }

  predicate Triggered(yellow: seq<Node>, pr: PairRange, selected: set<Node>)
  {
    var o, l := YellowAt(yellow, pr.o), YellowAt(yellow, pr.end);
    (o.Some? && o.value in selected) || (l.Some? && l.value in selected)
  }

  predicate Within(s: Node, pr: PairRange) { s.start >= pr.o && s.end <= pr.end }

  ghost predicate ComponentsPropagated(components: seq<Group>, part: set<Node>, selected: set<Node>)
  {
    forall s, m :: s in part && m in ComponentOf(components, s) ==> m in selected
  }

  ghost predicate PairPropagated(yellow: seq<Node>, pr: PairRange, selected: set<Node>)
  {
    Triggered(yellow, pr, selected) ==> forall y :: y in yellow && Within(y, pr) ==> y in selected
  }

  /** Both rules of the loop have been applied exhaustively. */
  ghost predicate Propagated(yellow: seq<Node>, structure: ConnectorStructure, selected: set<Node>)
  {
    && ComponentsPropagated(structure.contextComponents, selected, selected)
    && forall pr :: pr in structure.pairRanges ==> PairPropagated(yellow, pr, selected)
  }

  /** The least set that contains the hits and is closed under both rules. */
  ghost function Selected(yellow: seq<Node>, structure: ConnectorStructure, hits: set<Node>): (r: set<Node>)
  {
    set s | s in yellow &&
      forall t: set<Node> {:trigger Propagated(yellow, structure, t)} ::
        hits <= t && Propagated(yellow, structure, t) ==> s in t
  }

  ghost function Hits(yellow: seq<Node>, preds: seq<LabelledSpan>): (r: set<Node>)
  {
    set y | y in yellow && Struck(y, preds)
  }

  /** Everything in `after` is forced by what is in `before`. */
  ghost predicate Forced(yellow: seq<Node>, structure: ConnectorStructure, before: set<Node>, after: set<Node>)
  {
    forall t: set<Node> {:trigger Propagated(yellow, structure, t)} ::
      before <= t && Propagated(yellow, structure, t) ==> after <= t
  }

  ghost predicate Known(yellow: seq<Node>, structure: ConnectorStructure)
  {
    forall g, m :: g in structure.contextComponents && m in g ==> m in yellow
  }

  lemma {:induction false} ComponentKnown(components: seq<Group>, s: Node)
    ensures ComponentOf(components, s) == [] || ComponentOf(components, s) in components
  {
    if components != [] {
      ComponentKnown(components[..|components| - 1], s);
    }
  }

  /** One sweep of the component rule; the ids are visited in any order. */
  method SpreadComponents(yellow: seq<Node>, structure: ConnectorStructure, start: set<Node>)
    returns (selected: set<Node>, changed: bool)
    requires Known(yellow, structure)
    ensures start <= selected <= start + NodeSet(yellow)
    ensures changed <==> selected != start
    ensures ComponentsPropagated(structure.contextComponents, start, selected)
    ensures Forced(yellow, structure, start, selected)
  {
    selected, changed := start, false;
    var todo := start;
    while todo != {}
      invariant todo <= start
      invariant start <= selected <= start + NodeSet(yellow)
      invariant changed <==> selected != start
      invariant ComponentsPropagated(structure.contextComponents, start - todo, selected)
      invariant Forced(yellow, structure, start, selected)
    {
      var sid :| sid in todo;
      todo := todo - {sid};
      var members := ComponentOf(structure.contextComponents, sid);
      ComponentKnown(structure.contextComponents, sid);
      ghost var before := selected;
      for i := 0 to |members|
        invariant before <= selected && selected == before + set m | m in members[..i]
        invariant changed <==> selected != start
      {
        if members[i] !in selected {
          selected := selected + {members[i]};
          changed := true;
        }
        assert members[..i + 1] == members[..i] + [members[i]];
      }
      assert members[..|members|] == members;
      assert start - todo == (start - (todo + {sid})) + {sid};
    }
  }

  /** One sweep of the pair rule. */
  method SpreadPairs(yellow: seq<Node>, structure: ConnectorStructure, start: set<Node>)
    returns (selected: set<Node>, changed: bool)
    ensures start <= selected <= start + NodeSet(yellow)
    ensures changed <==> selected != start
    ensures !changed ==> forall pr :: pr in structure.pairRanges ==> PairPropagated(yellow, pr, selected)
    ensures !changed ==> forall s, m :: s in selected && AroundPair(yellow, structure, s, m) ==> m in selected
    ensures Forced(yellow, structure, start, selected)
  {
    selected, changed := start, false;
    for k := 0 to |structure.pairRanges|
      invariant start <= selected <= start + NodeSet(yellow)
      invariant changed <==> selected != start
      invariant !changed ==> forall pr :: pr in structure.pairRanges[..k] ==> PairPropagated(yellow, pr, selected)
      invariant Forced(yellow, structure, start, selected)
    {
      var pr := structure.pairRanges[k];
      assert structure.pairRanges[..k + 1] == structure.pairRanges[..k] + [pr];
      var o, l := YellowAt(yellow, pr.o), YellowAt(yellow, pr.end);
      if o.None? && l.None? {
        continue;
      }
      var triggered := (o.Some? && o.value in selected) || (l.Some? && l.value in selected);
      if !triggered {
        continue;
      }
      ghost var before := selected;
      for i := 0 to |yellow|
        invariant selected == before + set y | y in yellow[..i] && Within(y, pr)
        invariant changed <==> selected != start
      {
        assert yellow[..i + 1] == yellow[..i] + [yellow[i]];
        if yellow[i].start >= pr.o && yellow[i].end <= pr.end {
          if yellow[i] !in selected {
            selected := selected + {yellow[i]};
            changed := true;
          }
        }
      }
      assert yellow[..|yellow|] == yellow;
      PairForces(yellow, structure, start, before, selected, pr);
    }
    assert structure.pairRanges[..|structure.pairRanges|] == structure.pairRanges;
    if !changed {
      forall s, m | s in selected && AroundPair(yellow, structure, s, m) ensures m in selected {
        PairsTake(yellow, structure, selected, s, m);
      }
    }
  }

  lemma PairForces(yellow: seq<Node>, structure: ConnectorStructure, start: set<Node>,
                   before: set<Node>, after: set<Node>, pr: PairRange)
    requires Forced(yellow, structure, start, before)
    requires pr in structure.pairRanges && Triggered(yellow, pr, before)
    requires after == before + set y | y in yellow && Within(y, pr)
    ensures Forced(yellow, structure, start, after)
  {
    forall t: set<Node> | start <= t && Propagated(yellow, structure, t) ensures after <= t {
      assert before <= t;
      assert PairPropagated(yellow, pr, t);
    }
  }

  lemma ForcedChain(yellow: seq<Node>, structure: ConnectorStructure, a: set<Node>, b: set<Node>, c: set<Node>)
    requires Forced(yellow, structure, a, b) && Forced(yellow, structure, b, c)
    ensures Forced(yellow, structure, a, c)
  {
  }

  /** The propagation ends, in the least closed set above the hits, whatever the
      order in which sets are iterated.  The source returns the set as a list. */
  method SelectedContextualSpans(yellow: seq<Node>, preds: seq<LabelledSpan>, structure: ConnectorStructure)
    returns (selected: set<Node>)
    requires Known(yellow, structure)
    ensures selected == Selected(yellow, structure, Hits(yellow, preds))
    ensures forall s :: s in selected <==> Derived(yellow, structure, Hits(yellow, preds), s)
  {
    forall s ensures s in Selected(yellow, structure, Hits(yellow, preds))
                <==> Derived(yellow, structure, Hits(yellow, preds), s) {
      AttemptedIffDerived(yellow, structure, Hits(yellow, preds), s);
    }
    if yellow == [] {
      return {};
    }
    var predStarts := SortBy(StartsOf(preds), IntKey);
    var predEnds := SortBy(EndsOf(preds), IntKey);
    selected := {};
    for i := 0 to |yellow|
      invariant selected == set y | y in yellow[..i] && Struck(y, preds)
    {
      assert yellow[..i + 1] == yellow[..i] + [yellow[i]];
      if Intersect(yellow[i], predStarts, predEnds) {
        selected := selected + {yellow[i]};
      }
    }
    assert yellow[..|yellow|] == yellow;
    ghost var hits := Hits(yellow, preds);
    if selected == {} {
      EmptyIsClosed(yellow, structure);
      return;
    }
    var changed := true;
    while changed
      invariant hits <= selected <= NodeSet(yellow)
      invariant Forced(yellow, structure, hits, selected)
      invariant !changed ==> Propagated(yellow, structure, selected)
      decreases |NodeSet(yellow)| - |selected|, if changed then 1 else 0
    {
      ghost var before := selected;
      var spread, byComponent := SpreadComponents(yellow, structure, selected);
      ForcedChain(yellow, structure, hits, selected, spread);
      var further, byPair := SpreadPairs(yellow, structure, spread);
      ForcedChain(yellow, structure, hits, spread, further);
      selected := further;
      changed := byComponent || byPair;
      SubsetSize(before, selected);
      SubsetSize(selected, NodeSet(yellow));
    }
    assert selected == Selected(yellow, structure, hits);
  }

  lemma EmptyIsClosed(yellow: seq<Node>, structure: ConnectorStructure)
    ensures Propagated(yellow, structure, {})
    ensures Selected(yellow, structure, {}) == {}
  {
    var none: set<Node> := {};
    assert Propagated(yellow, structure, none);
    assert forall s :: s in Selected(yellow, structure, none) ==> s in none;
  }

  /** The selection contains the hits, is closed, and lies in every closed set
      above the hits. */
  lemma SelectedIsLeast(yellow: seq<Node>, structure: ConnectorStructure, hits: set<Node>, t: set<Node>)
    requires hits <= NodeSet(yellow) && Known(yellow, structure)
    ensures hits <= Selected(yellow, structure, hits)
    ensures Propagated(yellow, structure, Selected(yellow, structure, hits))
    ensures hits <= t && Propagated(yellow, structure, t) ==> Selected(yellow, structure, hits) <= t
  {
    var selected := Selected(yellow, structure, hits);
    forall s, m | s in selected && m in ComponentOf(structure.contextComponents, s) ensures m in selected {
      ComponentKnown(structure.contextComponents, s);
    }
    forall pr, y | pr in structure.pairRanges && Triggered(yellow, pr, selected) && y in yellow && Within(y, pr)
      ensures y in selected
    {
      forall u: set<Node> | hits <= u && Propagated(yellow, structure, u) ensures y in u {
        assert PairPropagated(yellow, pr, u);
      }
    }
  }

  // ----- the same, step by step -----

  /** `s` is in component `k`, and in none recorded after it. */
  ghost predicate LastComponentAt(components: seq<Group>, k: int, s: Node)
  {
    0 <= k < |components| && s in components[k] && forall j :: k < j < |components| ==> s !in components[j]
  }

  /** Index `i` is the first whose span covers the position. */
  ghost predicate FirstIndex(yellow: seq<Node>, i: int, pos: int)
  {
    && 0 <= i < |yellow| && yellow[i].start <= pos < yellow[i].end
    && forall j :: 0 <= j < i ==> !(yellow[j].start <= pos < yellow[j].end)
  }

  /** `s` is the first contextual span that covers the position. */
  ghost predicate FirstAt(yellow: seq<Node>, s: Node, pos: int)
  {
    exists i :: FirstIndex(yellow, i, pos) && yellow[i] == s
  }

  ghost predicate SharesComponent(structure: ConnectorStructure, s: Node, m: Node)
  {
    exists k :: LastComponentAt(structure.contextComponents, k, s) && m in structure.contextComponents[k]
  }

  /** `s` is the first to cover the opening delimiter of a recorded pair, or the first
      to cover the closing one, and `m` lies inside that pair. */
  ghost predicate OpensAround(yellow: seq<Node>, structure: ConnectorStructure, s: Node, m: Node)
  {
    exists pr :: pr in structure.pairRanges && FirstAt(yellow, s, pr.o)
      && m in yellow && m.start >= pr.o && m.end <= pr.end
  }

  ghost predicate ClosesAround(yellow: seq<Node>, structure: ConnectorStructure, s: Node, m: Node)
  {
    exists pr :: pr in structure.pairRanges && FirstAt(yellow, s, pr.end)
      && m in yellow && m.start >= pr.o && m.end <= pr.end
  }

  ghost predicate AroundPair(yellow: seq<Node>, structure: ConnectorStructure, s: Node, m: Node)
  {
    OpensAround(yellow, structure, s, m) || ClosesAround(yellow, structure, s, m)
  }

  /** One step of the spread: if `s` is attempted, so is `m`. */
  ghost predicate Spreads(yellow: seq<Node>, structure: ConnectorStructure, s: Node, m: Node)
  {
    SharesComponent(structure, s, m) || AroundPair(yellow, structure, s, m)
  }

  /** Finitely many steps from a hit. */
  ghost predicate Derivation(yellow: seq<Node>, structure: ConnectorStructure, hits: set<Node>, d: seq<Node>)
  {
    && d != [] && d[0] in hits
    && forall i :: 0 <= i < |d| - 1 ==> Spreads(yellow, structure, d[i], d[i + 1])
  }

  ghost predicate Derived(yellow: seq<Node>, structure: ConnectorStructure, hits: set<Node>, s: Node)
  {
    exists d :: Derivation(yellow, structure, hits, d) && d[|d| - 1] == s
  }

  lemma {:induction false} ComponentIsLast(components: seq<Group>, s: Node)
    ensures forall k :: LastComponentAt(components, k, s) ==> ComponentOf(components, s) == components[k]
    ensures (exists k :: LastComponentAt(components, k, s)) || ComponentOf(components, s) == []
  {
    if components != [] {
      var n := |components| - 1;
      ComponentIsLast(components[..n], s);
      if s in components[n] {
        assert LastComponentAt(components, n, s);
      }
      forall k ensures LastComponentAt(components, k, s)
                  <==> if s in components[n] then k == n else LastComponentAt(components[..n], k, s) {
      }
      if s !in components[n] && ComponentOf(components[..n], s) != [] {
        var k :| LastComponentAt(components[..n], k, s);
        assert LastComponentAt(components, k, s);
      }
    }
  }

  lemma {:induction false} YellowIsFirst(yellow: seq<Node>, pos: int, s: Node)
    ensures YellowAt(yellow, pos) == Some(s) <==> FirstAt(yellow, s, pos)
  {
    if yellow != [] {
      var rest := yellow[1..];
      YellowIsFirst(rest, pos, s);
      if yellow[0].start <= pos < yellow[0].end {
        assert FirstIndex(yellow, 0, pos);
      } else {
        FirstOfRest(yellow, s, pos);
      }
    }
  }

  lemma FirstOfRest(yellow: seq<Node>, s: Node, pos: int)
    requires yellow != [] && !(yellow[0].start <= pos < yellow[0].end)
    ensures FirstAt(yellow, s, pos) <==> FirstAt(yellow[1..], s, pos)
  {
    var rest := yellow[1..];
    forall i ensures FirstIndex(yellow, i, pos) <==> FirstIndex(rest, i - 1, pos) {
      assert forall j :: 1 <= j < |yellow| ==> yellow[j] == rest[j - 1];
      if FirstIndex(yellow, i, pos) {
        assert forall j :: 0 <= j < i - 1 ==> rest[j] == yellow[j + 1];
      }
    }
    if FirstAt(rest, s, pos) {
      var i :| FirstIndex(rest, i, pos) && rest[i] == s;
      assert FirstIndex(yellow, i + 1, pos);
    }
  }

  /** The pair rule, one pair at a time. */
  lemma PairsTake(yellow: seq<Node>, structure: ConnectorStructure, t: set<Node>, s: Node, m: Node)
    requires forall pr :: pr in structure.pairRanges ==> PairPropagated(yellow, pr, t)
    requires s in t && AroundPair(yellow, structure, s, m)
    ensures m in t
  {
    forall pr | pr in structure.pairRanges && (FirstAt(yellow, s, pr.o) || FirstAt(yellow, s, pr.end))
      ensures forall y :: y in yellow && Within(y, pr) ==> y in t
    {
      YellowIsFirst(yellow, pr.o, s);
      YellowIsFirst(yellow, pr.end, s);
      assert PairPropagated(yellow, pr, t) && Triggered(yellow, pr, t);
    }
  }

  /** Every step stays inside a closed set. */
  lemma ClosedUnderSpreads(yellow: seq<Node>, structure: ConnectorStructure, t: set<Node>, s: Node, m: Node)
    requires Propagated(yellow, structure, t) && s in t && Spreads(yellow, structure, s, m)
    ensures m in t
  {
    ComponentIsLast(structure.contextComponents, s);
    if AroundPair(yellow, structure, s, m) {
      PairsTake(yellow, structure, t, s, m);
    }
  }

  lemma {:induction false} DerivedInClosed(yellow: seq<Node>, structure: ConnectorStructure, hits: set<Node>,
                                           t: set<Node>, d: seq<Node>)
    requires hits <= t && Propagated(yellow, structure, t) && Derivation(yellow, structure, hits, d)
    ensures d[|d| - 1] in t
  {
    if |d| > 1 {
      var init := d[..|d| - 1];
      DerivedInClosed(yellow, structure, hits, t, init);
      assert Spreads(yellow, structure, d[|d| - 2], d[|d| - 2 + 1]);
      ClosedUnderSpreads(yellow, structure, t, d[|d| - 2], d[|d| - 1]);
    }
  }

  lemma DerivedStep(yellow: seq<Node>, structure: ConnectorStructure, hits: set<Node>, s: Node, m: Node)
    requires Derived(yellow, structure, hits, s) && Spreads(yellow, structure, s, m)
    ensures Derived(yellow, structure, hits, m)
  {
    var d :| Derivation(yellow, structure, hits, d) && d[|d| - 1] == s;
    assert Derivation(yellow, structure, hits, d + [m]) && (d + [m])[|d + [m]| - 1] == m;
  }

  /** What is derived is closed under both rules of the loop. */
  lemma DerivedIsClosed(yellow: seq<Node>, structure: ConnectorStructure, hits: set<Node>, t: set<Node>)
    requires Known(yellow, structure)
    requires forall s :: s in t <==> s in yellow && Derived(yellow, structure, hits, s)
    ensures Propagated(yellow, structure, t)
  {
    forall s, m | s in t && m in ComponentOf(structure.contextComponents, s) ensures m in t {
      ComponentIsLast(structure.contextComponents, s);
      ComponentKnown(structure.contextComponents, s);
      assert SharesComponent(structure, s, m);
      DerivedStep(yellow, structure, hits, s, m);
    }
    forall pr | pr in structure.pairRanges ensures PairPropagated(yellow, pr, t) {
      PairIsClosed(yellow, structure, hits, t, pr);
    }
  }

  lemma PairIsClosed(yellow: seq<Node>, structure: ConnectorStructure, hits: set<Node>, t: set<Node>, pr: PairRange)
    requires pr in structure.pairRanges
    requires forall s :: s in t <==> s in yellow && Derived(yellow, structure, hits, s)
    ensures PairPropagated(yellow, pr, t)
  {
    if Triggered(yellow, pr, t) {
      var o, l := YellowAt(yellow, pr.o), YellowAt(yellow, pr.end);
      var s := if o.Some? && o.value in t then o.value else l.value;
      YellowIsFirst(yellow, pr.o, s);
      YellowIsFirst(yellow, pr.end, s);
      forall m | m in yellow && Within(m, pr) ensures m in t {
        assert OpensAround(yellow, structure, s, m) || ClosesAround(yellow, structure, s, m);
        DerivedStep(yellow, structure, hits, s, m);
      }
    }
  }

  /** A contextual span is attempted if and only if finitely many steps lead to it from
      a hit: to the members of the component recorded last for a span, or into a pair
      from the first span at its opening delimiter, or from the first at its closing one. */
  lemma AttemptedIffDerived(yellow: seq<Node>, structure: ConnectorStructure, hits: set<Node>, s: Node)
    requires hits <= NodeSet(yellow) && Known(yellow, structure)
    ensures s in Selected(yellow, structure, hits) <==> Derived(yellow, structure, hits, s)
  {
    var selected := Selected(yellow, structure, hits);
    var t := set m | m in yellow && Derived(yellow, structure, hits, m);
    DerivedIsClosed(yellow, structure, hits, t);
    forall h | h in hits ensures h in t {
      assert Derivation(yellow, structure, hits, [h]) && [h][|[h]| - 1] == h;
    }
    SelectedIsLeast(yellow, structure, hits, t);
    if Derived(yellow, structure, hits, s) {
      var d :| Derivation(yellow, structure, hits, d) && d[|d| - 1] == s;
      DerivedInClosed(yellow, structure, hits, selected, d);
    }
  }

  /** The rules one by one: an attempted span takes with it all members of the component
      recorded last for it; if it is the first to cover the opening delimiter of a pair,
      all spans inside the pair; and the same if it is the first at the closing one. */
  lemma AttemptsSpread(yellow: seq<Node>, structure: ConnectorStructure, hits: set<Node>)
    requires hits <= NodeSet(yellow) && Known(yellow, structure)
    ensures var selected := Selected(yellow, structure, hits);
      && hits <= selected <= NodeSet(yellow)
      && (forall k, s, m :: 0 <= k < |structure.contextComponents| && m in structure.contextComponents[k] ==>
            LastComponentAt(structure.contextComponents, k, s) && s in selected ==> m in selected)
      && (forall pr, s, m :: pr in structure.pairRanges && m in yellow && m.start >= pr.o && m.end <= pr.end ==>
            FirstAt(yellow, s, pr.o) && s in selected ==> m in selected)
      && (forall pr, s, m :: pr in structure.pairRanges && m in yellow && m.start >= pr.o && m.end <= pr.end ==>
            FirstAt(yellow, s, pr.end) && s in selected ==> m in selected)
  {
    var selected := Selected(yellow, structure, hits);
    SelectedIsLeast(yellow, structure, hits, selected);
    forall s, m | s in selected && Spreads(yellow, structure, s, m) ensures m in selected {
      ClosedUnderSpreads(yellow, structure, selected, s, m);
    }
    forall k, s, m | 0 <= k < |structure.contextComponents| && m in structure.contextComponents[k]
      ensures LastComponentAt(structure.contextComponents, k, s) && s in selected ==> m in selected
    {
      assert LastComponentAt(structure.contextComponents, k, s) ==> SharesComponent(structure, s, m);
    }
    forall pr, s, m | pr in structure.pairRanges && m in yellow && m.start >= pr.o && m.end <= pr.end
      ensures FirstAt(yellow, s, pr.o) && s in selected ==> m in selected
      ensures FirstAt(yellow, s, pr.end) && s in selected ==> m in selected
    {
      assert FirstAt(yellow, s, pr.o) ==> OpensAround(yellow, structure, s, m);
      assert FirstAt(yellow, s, pr.end) ==> ClosesAround(yellow, structure, s, m);
    }
  }

  /** Predictions that cover more characters, and keep the empty ones, attempt more
      contextual spans. */
  lemma SelectedMonotone(yellow: seq<Node>, structure: ConnectorStructure,
                         preds: seq<LabelledSpan>, more: seq<LabelledSpan>, n: int)
    requires forall y :: y in yellow ==> 0 <= y.start < y.end <= n
    requires forall p :: p in preds || p in more ==> p.start <= p.end
    requires Cover(preds, n) <= Cover(more, n)
    requires forall p :: p in preds && p.start == p.end ==> p in more
    ensures Selected(yellow, structure, Hits(yellow, preds)) <= Selected(yellow, structure, Hits(yellow, more))
  {
    forall y | y in yellow && Struck(y, preds) ensures Struck(y, more) {
      StruckIsCovered(y, preds, n);
      StruckIsCovered(y, more, n);
      if c :| c in SpanChars(y) * Cover(preds, n) {
        assert c in SpanChars(y) * Cover(more, n);
      } else {
        var p :| p in preds && EmptyInside(p, y);
        assert p in more;
      }
    }
    assert Hits(yellow, preds) <= Hits(yellow, more);
  }

  /** An empty prediction changes what is attempted if and only if it lies strictly
      inside a contextual span that is not attempted without it. */
  lemma EmptyPredictionAttempts(yellow: seq<Node>, structure: ConnectorStructure,
                                preds: seq<LabelledSpan>, e: LabelledSpan)
    requires Known(yellow, structure) && forall y :: y in yellow ==> y.start < y.end
    requires e.start == e.end && forall p :: p in preds ==> p.start <= p.end
    ensures var before := Selected(yellow, structure, Hits(yellow, preds));
            var after := Selected(yellow, structure, Hits(yellow, preds + [e]));
      && before <= after
      && (before != after <==> exists y :: y in yellow && EmptyInside(e, y) && y !in before)
      && (forall y :: y in yellow && EmptyInside(e, y) ==> y in after)
  {
    var hits, more := Hits(yellow, preds), Hits(yellow, preds + [e]);
    var before, after := Selected(yellow, structure, hits), Selected(yellow, structure, more);
    forall y | y in yellow ensures y in more <==> y in hits || EmptyInside(e, y) {
      StruckIsOverlap(y, preds);
      StruckIsOverlap(y, preds + [e]);
      assert e in preds + [e];
      assert forall p :: p in preds ==> p in preds + [e];
    }
    SelectedIsLeast(yellow, structure, hits, after);
    SelectedIsLeast(yellow, structure, more, before);
    if forall y :: y in yellow && EmptyInside(e, y) ==> y in before {
      assert more <= before;
    }
  }

  /** Such a span is attempted then, and none of its characters is covered. */
  lemma EmptyIsAttempted(yellow: seq<Node>, structure: ConnectorStructure, preds: seq<LabelledSpan>,
                         e: LabelledSpan, y: Node, n: int)
    requires Known(yellow, structure) && forall v :: v in yellow ==> 0 <= v.start < v.end <= n
    requires e.start == e.end && forall p :: p in preds ==> p.start <= p.end
    requires y in yellow && EmptyInside(e, y) && y !in Selected(yellow, structure, Hits(yellow, preds))
    ensures y in Selected(yellow, structure, Hits(yellow, preds + [e]))
    ensures y.start !in Cover(preds, n)
  {
    EmptyPredictionAttempts(yellow, structure, preds, e);
    UnattemptedIsUncovered(yellow, structure, preds, y, n);
  }

  lemma UnattemptedIsUncovered(yellow: seq<Node>, structure: ConnectorStructure, preds: seq<LabelledSpan>,
                               y: Node, n: int)
    requires y in yellow && 0 <= y.start < y.end <= n && forall p :: p in preds ==> p.start <= p.end
    requires y !in Selected(yellow, structure, Hits(yellow, preds))
    ensures y.start !in Cover(preds, n)
  {
    assert y !in Hits(yellow, preds);
    StruckIsCovered(y, preds, n);
    assert y.start in SpanChars(y);
    assert y.start in Cover(preds, n) ==> y.start in SpanChars(y) * Cover(preds, n);
  }

  lemma EmptyCoversNothing(preds: seq<LabelledSpan>, e: LabelledSpan, n: int)
    requires e.start == e.end
    ensures Cover(preds + [e], n) == Cover(preds, n)
  {
    forall c ensures CoveredBy(c, preds + [e]) <==> CoveredBy(c, preds) {
      assert e in preds + [e] && forall p :: p in preds ==> p in preds + [e];
    }
  }

  // ----- fused_entity_groups -----

  datatype FusedEntities = FusedEntities(redEntities: seq<Group>, contextualEntities: seq<Group>)

  /** The yellow members of a component, or the yellow spans inside a pair range
      (here its closing delimiter counts). */
  function ContextualOf(g: Group): (r: seq<Node>)
  {
    Filter(g, (m: Node) => m.category.Contextual?)
  }

  function InsideOf(yellow: seq<Node>, pr: PairRange): (r: seq<Node>)
  {
    Filter(yellow, (s: Node) => s.start >= pr.o && s.end <= pr.end + 1)
  }

  lemma PartsOfLists(yellow: seq<Node>, g: Group, pr: PairRange)
    ensures forall s :: s in ContextualOf(g) <==> s in g && s.category.Contextual?
    ensures forall s :: s in InsideOf(yellow, pr) <==> s in yellow && s.start >= pr.o && s.end <= pr.end + 1
  {
    FilterMembers(g, (m: Node) => m.category.Contextual?);
    FilterMembers(yellow, (s: Node) => s.start >= pr.o && s.end <= pr.end + 1);
  }

  type Neighbours = map<Node, set<Node>>

  ghost function NeighbourArcs(adjacent: Neighbours): (r: set<(Node, Node)>)
  {
    set u, v | u in adjacent && v in adjacent[u] :: (u, v)
  }

  /** All pairs of distinct spans of one list. */
  ghost function AllPairs(spans: seq<Node>): (r: set<(Node, Node)>)
  {
    set u, v | u in spans && v in spans && u != v :: (u, v)
  }

  ghost function ComponentLinks(components: seq<Group>): (r: set<(Node, Node)>)
  {
    if components == [] then {} else
      ComponentLinks(components[..|components| - 1]) + AllPairs(ContextualOf(components[|components| - 1]))
  }

  ghost function PairLinks(yellow: seq<Node>, pairs: seq<PairRange>): (r: set<(Node, Node)>)
  {
    if pairs == [] then {} else
      PairLinks(yellow, pairs[..|pairs| - 1]) + AllPairs(InsideOf(yellow, pairs[|pairs| - 1]))
  }

  /** The contextual graph. */
  ghost function FusionLinks(yellow: seq<Node>, structure: ConnectorStructure): (r: set<(Node, Node)>)
  {
    ComponentLinks(structure.contextComponents) + PairLinks(yellow, structure.pairRanges)
  }

  function LinkSpans(adjacent: Neighbours, a: Node, b: Node): (r: Neighbours)
    ensures r.Keys == adjacent.Keys
  {
    if a == b then adjacent
    else if a in adjacent && b in adjacent then
      adjacent[a := adjacent[a] + {b}][b := adjacent[b] + {a}]
    else adjacent
  }

  lemma LinkSpansArcs(adjacent: Neighbours, a: Node, b: Node, u: Node, v: Node)
    requires a in adjacent && b in adjacent
    ensures (u, v) in NeighbourArcs(LinkSpans(adjacent, a, b))
        <==> (u, v) in NeighbourArcs(adjacent) || (a != b && ((u, v) == (a, b) || (u, v) == (b, a)))
  {
  }

  /** The double loop that links every two spans of a list. */
  method LinkAll(adjacent: Neighbours, spans: seq<Node>) returns (r: Neighbours)
    requires forall s :: s in spans ==> s in adjacent
    ensures r.Keys == adjacent.Keys
    ensures NeighbourArcs(r) == NeighbourArcs(adjacent) + AllPairs(spans)
  {
    r := adjacent;
    for i := 0 to |spans|
      invariant r.Keys == adjacent.Keys
      invariant forall u, v :: (u, v) in NeighbourArcs(r) <==>
        (u, v) in NeighbourArcs(adjacent) || LinkedBy(spans, i, i, u, v)
    {
      for j := i + 1 to |spans|
        invariant r.Keys == adjacent.Keys
        invariant forall u, v :: (u, v) in NeighbourArcs(r) <==>
          (u, v) in NeighbourArcs(adjacent) || LinkedBy(spans, i, j, u, v)
      {
        ghost var before := r;
        assert spans[i] in spans && spans[j] in spans;
        r := LinkSpans(r, spans[i], spans[j]);
        forall u, v
          ensures (u, v) in NeighbourArcs(r) <==> (u, v) in NeighbourArcs(adjacent) || LinkedBy(spans, i, j + 1, u, v)
        {
          LinkSpansArcs(before, spans[i], spans[j], u, v);
          LinkedStep(spans, i, j, u, v);
        }
      }
      forall u, v ensures LinkedBy(spans, i, |spans|, u, v) <==> LinkedBy(spans, i + 1, i + 1, u, v) {
      }
    }
    forall u, v ensures (u, v) in AllPairs(spans) <==> LinkedBy(spans, |spans|, |spans|, u, v) {
      AllLinked(spans, u, v);
    }
  }

  /** The loop has linked `u` and `v` when its indices are at `i` and `j`. */
  ghost predicate LinkedBy(spans: seq<Node>, i: nat, j: nat, u: Node, v: Node)
    requires i <= |spans| && j <= |spans|
  {
    exists a, b :: 0 <= a < b < |spans| && (a < i || (a == i && b < j)) && spans[a] != spans[b]
      && ((u, v) == (spans[a], spans[b]) || (u, v) == (spans[b], spans[a]))
  }

  lemma LinkedStep(spans: seq<Node>, i: nat, j: nat, u: Node, v: Node)
    requires i < j < |spans|
    ensures LinkedBy(spans, i, j + 1, u, v) <==>
      LinkedBy(spans, i, j, u, v)
      || (spans[i] != spans[j] && ((u, v) == (spans[i], spans[j]) || (u, v) == (spans[j], spans[i])))
  {
  }

  lemma AllLinked(spans: seq<Node>, u: Node, v: Node)
    ensures u in spans && v in spans && u != v <==> LinkedBy(spans, |spans|, |spans|, u, v)
  {
    if u in spans && v in spans && u != v {
      var a :| 0 <= a < |spans| && spans[a] == u;
      var b :| 0 <= b < |spans| && spans[b] == v;
      if a < b {
        assert (u, v) == (spans[a], spans[b]);
      } else {
        assert (u, v) == (spans[a], spans[b]);
        assert (u, v) == (spans[b + a - b], spans[b]);
      }
    }
  }

  /** Each neighbour set as a list, in the order in which it is iterated. */
  method Enumerate(adjacent: Neighbours) returns (graph: Adjacency)
    ensures Arcs(graph) == NeighbourArcs(adjacent)
  {
    graph := map[];
    var keys := adjacent.Keys;
    while keys != {}
      invariant keys <= adjacent.Keys && graph.Keys == adjacent.Keys - keys
      invariant forall u, v :: u in graph ==> (v in graph[u] <==> v in adjacent[u])
    {
      var u :| u in keys;
      keys := keys - {u};
      var listed: seq<Node> := [];
      var rest := adjacent[u];
      while rest != {}
        invariant rest <= adjacent[u]
        invariant forall v :: v in listed <==> v in adjacent[u] - rest
      {
        var v :| v in rest;
        rest := rest - {v};
        listed := listed + [v];
      }
      graph := graph[u := listed];
    }
    forall u, v ensures (u, v) in Arcs(graph) <==> (u, v) in NeighbourArcs(adjacent) {
    }
  }

  /** The start of a single-character yellow span whose character is a marker. */
  predicate IsMarker(s: Node, text: string, markers: seq<char>)
  {
    s.end - s.start == 1 && 0 <= s.start < |text| && text[s.start] in markers
  }

  function MarkerPositions(yellow: seq<Node>, markers: seq<char>, text: string): (r: set<int>)
  {
    set s | s in yellow && IsMarker(s, text, markers) :: s.start
  }

  /** A group of one span that starts at a marker position is dropped. */
  predicate KeepsGroup(g: Group, positions: set<int>)
  {
    !(|g| == 1 && g[0].start in positions)
  }

  ghost function ContextualEntities(yellow: seq<Node>, structure: ConnectorStructure, text: string): (r: seq<Group>)
  {
    var positions := MarkerPositions(yellow, structure.effectiveMarkers, text);
    Filter(Components(yellow, FusionLinks(yellow, structure)), g => KeepsGroup(g, positions))
  }

  /** The neighbour sets of the contextual graph. */
  method BuildLinks(yellow: seq<Node>, structure: ConnectorStructure) returns (adjacent: Neighbours)
    requires Known(yellow, structure)
    ensures NeighbourArcs(adjacent) == FusionLinks(yellow, structure)
  {
    adjacent := map s | s in yellow :: {};
    assert NeighbourArcs(adjacent) == {};
    for k := 0 to |structure.contextComponents|
      invariant adjacent.Keys == NodeSet(yellow)
      invariant NeighbourArcs(adjacent) == ComponentLinks(structure.contextComponents[..k])
    {
      var g := structure.contextComponents[k];
      assert structure.contextComponents[..k + 1][..k] == structure.contextComponents[..k];
      assert g in structure.contextComponents;
      PartsOfLists(yellow, g, PairRange(0, 0));
      adjacent := LinkAll(adjacent, ContextualOf(g));
    }
    assert structure.contextComponents[..|structure.contextComponents|] == structure.contextComponents;
    for k := 0 to |structure.pairRanges|
      invariant adjacent.Keys == NodeSet(yellow)
      invariant NeighbourArcs(adjacent)
             == ComponentLinks(structure.contextComponents) + PairLinks(yellow, structure.pairRanges[..k])
    {
      var pr := structure.pairRanges[k];
      assert structure.pairRanges[..k + 1][..k] == structure.pairRanges[..k];
      PartsOfLists(yellow, [], pr);
      adjacent := LinkAll(adjacent, InsideOf(yellow, pr));
    }
    assert structure.pairRanges[..|structure.pairRanges|] == structure.pairRanges;
  }

  method FusedEntityGroups(yellow: seq<Node>, structure: ConnectorStructure, text: string)
    returns (r: FusedEntities)
    requires PlacesDistinct(yellow) && InText(yellow, text) && Known(yellow, structure)
    ensures r.redEntities == structure.redFusionGroups
    ensures r.contextualEntities == ContextualEntities(yellow, structure, text)
  {
    var adjacent := BuildLinks(yellow, structure);
    LinksSymmetric(yellow, structure);
    var graph := Enumerate(adjacent);
    var components := ConnectedComponents(yellow, graph);
    var positions := MarkerPositions(yellow, structure.effectiveMarkers, text);
    var contextual: seq<Group> := [];
    for k := 0 to |components|
      invariant contextual == Filter(components[..k], g => KeepsGroup(g, positions))
    {
      assert components[..k + 1] == components[..k] + [components[k]];
      FilterSnoc(components[..k], components[k], g => KeepsGroup(g, positions));
      if |components[k]| == 1 && components[k][0].start in positions {
        continue;
      }
      contextual := contextual + [components[k]];
    }
    assert components[..|components|] == components;
    r := FusedEntities(structure.redFusionGroups, contextual);
  }

  lemma {:induction false} ComponentLinksSymmetric(components: seq<Group>)
    ensures Symmetric(ComponentLinks(components))
  {
    if components != [] {
      ComponentLinksSymmetric(components[..|components| - 1]);
    }
  }

  lemma {:induction false} PairLinksSymmetric(yellow: seq<Node>, pairs: seq<PairRange>)
    ensures Symmetric(PairLinks(yellow, pairs))
  {
    if pairs != [] {
      PairLinksSymmetric(yellow, pairs[..|pairs| - 1]);
    }
  }

  lemma LinksSymmetric(yellow: seq<Node>, structure: ConnectorStructure)
    ensures Symmetric(FusionLinks(yellow, structure))
  {
    ComponentLinksSymmetric(structure.contextComponents);
    PairLinksSymmetric(yellow, structure.pairRanges);
  }

  /** The contextual entities partition the yellow spans by reachability, and
      lose only spans that stay alone at a marker position. */
  lemma EntitiesPartition(yellow: seq<Node>, structure: ConnectorStructure, text: string, u: Node)
    requires u in yellow
    ensures var entities := ContextualEntities(yellow, structure, text);
            var links := FusionLinks(yellow, structure);
            var positions := MarkerPositions(yellow, structure.effectiveMarkers, text);
      && (forall g, v :: g in entities && u in g ==> (v in g <==> v in yellow && Reach(NodeSet(yellow), links, u, v)))
      && ((exists g :: g in entities && u in g)
          <==> u.start !in positions || exists v :: v in yellow && v != u && Reach(NodeSet(yellow), links, u, v))
  {
    var links := FusionLinks(yellow, structure);
    var positions := MarkerPositions(yellow, structure.effectiveMarkers, text);
    LinksSymmetric(yellow, structure);
    ComponentsAreClasses(yellow, links, u);
    FilterMembers(Components(yellow, links), g => KeepsGroup(g, positions));
    var g :| g in Components(yellow, links) && u in g;
    if |g| == 1 {
      assert g == [u];
      forall v | v in yellow && Reach(NodeSet(yellow), links, u, v) ensures v == u {
        assert v in g;
      }
    } else {
      SingleGroup(yellow, links, g);
      var v := if g[0] == u then g[1] else g[0];
      assert v in g && v != u;
    }
    SameGroup(yellow, links, u);
  }

  lemma SameGroup(yellow: seq<Node>, links: set<(Node, Node)>, u: Node)
    requires Symmetric(links)
    ensures forall g, h ::
      g in Components(yellow, links) && h in Components(yellow, links) && u in g && u in h ==> g == h
  {
    var gs := Components(yellow, links);
    forall g, h | g in gs && h in gs && u in g && u in h ensures g == h {
      var i :| 0 <= i < |gs| && gs[i] == g;
      var j :| 0 <= j < |gs| && gs[j] == h;
      ComponentsDisjoint(yellow, links, i, j, u);
    }
  }

  /** A group lists no span twice. */
  lemma SingleGroup(yellow: seq<Node>, links: set<(Node, Node)>, g: Group)
    requires g in Components(yellow, links)
    ensures forall i, j :: 0 <= i < j < |g| ==> g[i] != g[j]
  {
    SortSorts(ClassesUpTo(yellow, links, |yellow|), GroupKey);
    ClassesSound(yellow, links, |yellow|, g);
    var w :| w in yellow && g == InOrder(Class(NodeSet(yellow), links, w));
    var part := Class(NodeSet(yellow), links, w);
    SortSorts(Listing(part), SpanKey);
    assert NodeSet(g) == part;
    CountDistinct(g);
  }

  // ----- the same, said of the structure -----

  predicate BothWithin(u: Node, v: Node, pr: PairRange)
  {
    u.start >= pr.o && v.start >= pr.o && u.end <= pr.end + 1 && v.end <= pr.end + 1
  }

  /** Two contextual spans of one component, or inside one pair, its delimiters included. */
  ghost predicate Fused(yellow: seq<Node>, structure: ConnectorStructure, u: Node, v: Node)
  {
    || (u.category.Contextual? && v.category.Contextual?
        && exists g :: g in structure.contextComponents && u in g && v in g)
    || (u in yellow && v in yellow && exists pr :: pr in structure.pairRanges && BothWithin(u, v, pr))
  }

  ghost function FusedEdges(yellow: seq<Node>, structure: ConnectorStructure): (r: set<(Node, Node)>)
  {
    set u, v | u in yellow && v in yellow && u != v && Fused(yellow, structure, u, v) :: (u, v)
  }

  lemma {:induction false} ComponentLinksShare(components: seq<Group>, u: Node, v: Node)
    ensures (u, v) in ComponentLinks(components) <==>
      u != v && exists g :: g in components && u in g && v in g && u.category.Contextual? && v.category.Contextual?
  {
    if components != [] {
      var n := |components| - 1;
      ComponentLinksShare(components[..n], u, v);
      PartsOfLists([], components[n], PairRange(0, 0));
      assert components == components[..n] + [components[n]];
      assert (u, v) in AllPairs(ContextualOf(components[n])) <==>
        u != v && u in components[n] && v in components[n] && u.category.Contextual? && v.category.Contextual?;
    }
  }

  lemma {:induction false} PairLinksShare(yellow: seq<Node>, pairs: seq<PairRange>, u: Node, v: Node)
    ensures (u, v) in PairLinks(yellow, pairs) <==>
      u != v && u in yellow && v in yellow && exists pr :: pr in pairs && BothWithin(u, v, pr)
  {
    if pairs != [] {
      var n := |pairs| - 1;
      PairLinksShare(yellow, pairs[..n], u, v);
      PartsOfLists(yellow, [], pairs[n]);
      assert pairs == pairs[..n] + [pairs[n]];
      assert (u, v) in AllPairs(InsideOf(yellow, pairs[n])) <==>
        u != v && u in yellow && v in yellow && BothWithin(u, v, pairs[n]);
    }
  }

  lemma LinksAreFused(yellow: seq<Node>, structure: ConnectorStructure)
    requires Known(yellow, structure)
    ensures FusionLinks(yellow, structure) == FusedEdges(yellow, structure)
  {
    forall u, v ensures (u, v) in FusionLinks(yellow, structure) <==> (u, v) in FusedEdges(yellow, structure) {
      ComponentLinksShare(structure.contextComponents, u, v);
      PairLinksShare(yellow, structure.pairRanges, u, v);
    }
    SameEdges(FusionLinks(yellow, structure), FusedEdges(yellow, structure));
  }

  /** The span is the one character at the position, and that character is a marker. */
  predicate MarksPlace(m: Node, text: string, markers: seq<char>, pos: int)
  {
    0 <= pos < |text| && m.start == pos && m.end == pos + 1 && text[pos] in markers
  }

  /** Two contextual spans share an entity if and only if a chain leads from one to the
      other, each in a component or a pair with the next.  A span is in no entity if and
      only if it is alone so, and a span of one character, which is a marker, starts
      where it starts. */
  lemma EntitiesReadStructure(yellow: seq<Node>, structure: ConnectorStructure, text: string, u: Node)
    requires u in yellow && Known(yellow, structure) && InText(yellow, text)
    ensures var entities, edges := ContextualEntities(yellow, structure, text), FusedEdges(yellow, structure);
      && (forall g, v :: g in entities && u in g ==> (v in g <==> v in yellow && Reach(NodeSet(yellow), edges, u, v)))
      && ((exists g :: g in entities && u in g) <==>
            || (exists v :: v in yellow && v != u && Reach(NodeSet(yellow), edges, u, v))
            || !exists m :: m in yellow && MarksPlace(m, text, structure.effectiveMarkers, u.start))
  {
    LinksAreFused(yellow, structure);
    EntitiesPartition(yellow, structure, text, u);
    var positions := MarkerPositions(yellow, structure.effectiveMarkers, text);
    forall m | m in yellow && MarksPlace(m, text, structure.effectiveMarkers, u.start) ensures m.start in positions {
      assert IsMarker(m, text, structure.effectiveMarkers);
    }
  }
}
