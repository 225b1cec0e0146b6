/** app/bench/combinators.py, `build_connector_structure`. */
module Structure {
  import opened Annotation
  import opened Lists
  import opened Sorting
  import opened Runs
  import opened Graph
  import opened Combinators
  import opened Pairs

  datatype ConnectorStructure = ConnectorStructure(
    redFusionGroups: seq<Group>, contextComponents: seq<Group>,
    pairRanges: seq<PairRange>, effectiveMarkers: seq<char>)

  /** Red groups and contextual components are the connected components of the
      graphs that the text between neighbouring spans draws. */
  ghost function StructureOf(text: string, red: seq<LabelledSpan>, yellow: seq<LabelledSpan>): (r: ConnectorStructure)
  {
    var ordered := SortBy(red + yellow, SpanKey);
    var pairs := PairsFound(text, red + yellow, yellow);
    ConnectorStructure(
      Components(red, RedEdgesOf(ordered, text, LastPair(ordered))),
      Components(yellow, YellowEdges(ordered, text, LastPair(ordered))),
      pairs.found,
      LinkMarkers(ordered, text, LastPair(ordered)) + pairs.markers)
  }

  method BuildConnectorStructure(text: string, red: seq<LabelledSpan>, yellow: seq<LabelledSpan>)
    returns (r: ConnectorStructure)
    requires PlacesDistinct(red) && PlacesDistinct(yellow)
    ensures r == StructureOf(text, red, yellow)
  {
    var spans := red + yellow;
    ghost var ordered := SortBy(spans, SpanKey);
    var yellowGraph, redGraph, markers := RedEdges(spans, text);
    var found, pairMarkers := PairRanges(spans, yellow, text);
    EdgesSymmetric(ordered, text, LastPair(ordered));
    var redGroups := ConnectedComponents(red, redGraph);
    var contextComponents := ConnectedComponents(yellow, yellowGraph);
    r := ConnectorStructure(redGroups, contextComponents, found, markers + pairMarkers);
  }

  /** The red fusion groups partition the red spans: two share a group exactly
      when links between neighbours join them through red spans alone. */
  lemma RedGroupsPartition(text: string, red: seq<LabelledSpan>, yellow: seq<LabelledSpan>, u: LabelledSpan)
    requires u in red
    ensures var groups := StructureOf(text, red, yellow).redFusionGroups;
            var ordered := SortBy(red + yellow, SpanKey);
            var edges := RedEdgesOf(ordered, text, LastPair(ordered));
      && (exists g :: g in groups && u in g)
      && (forall g, v :: g in groups && u in g ==> (v in g <==> v in red && Reach(NodeSet(red), edges, u, v)))
  {
    var ordered := SortBy(red + yellow, SpanKey);
    EdgesSymmetric(ordered, text, LastPair(ordered));
    ComponentsAreClasses(red, RedEdgesOf(ordered, text, LastPair(ordered)), u);
  }

  // ----- the groups, said of the text -----

  /** Neighbours in the document that touch, and those that are near. */
  ghost function TouchEdges(ordered: seq<LabelledSpan>, text: string): (r: set<(Node, Node)>)
  {
    set u, v | u in ordered && v in ordered && Touching(ordered, text, u, v) :: (u, v)
  }

  ghost function NearEdges(ordered: seq<LabelledSpan>, text: string): (r: set<(Node, Node)>)
  {
    set u, v | u in ordered && v in ordered && Nearby(ordered, text, u, v) :: (u, v)
  }

  lemma NeighboursAreListed(ordered: seq<LabelledSpan>, text: string, u: Node, v: Node)
    ensures (u, v) in TouchEdges(ordered, text) <==> Touching(ordered, text, u, v)
    ensures (u, v) in NearEdges(ordered, text) <==> Nearby(ordered, text, u, v)
  {
    if i :| NeighboursAt(ordered, i, u, v) {
      assert ordered[i] in ordered && ordered[i + 1] in ordered;
    }
  }

  lemma SameEdges(a: set<(Node, Node)>, b: set<(Node, Node)>)
    requires forall u, v :: (u, v) in a <==> (u, v) in b
    ensures a == b
  {
    forall e ensures e in a <==> e in b {
      assert e == (e.0, e.1);
    }
  }

  lemma EdgesAreRead(text: string, spans: seq<LabelledSpan>)
    requires InText(spans, text)
    ensures var ordered := SortBy(spans, SpanKey);
      && RedEdgesOf(ordered, text, LastPair(ordered)) == TouchEdges(ordered, text)
      && YellowEdges(ordered, text, LastPair(ordered)) == NearEdges(ordered, text)
  {
    var ordered := SortBy(spans, SpanKey);
    var red, yellow := RedEdgesOf(ordered, text, LastPair(ordered)), YellowEdges(ordered, text, LastPair(ordered));
    ConnectorsReadText(spans, text);
    forall u, v
      ensures (u, v) in red <==> (u, v) in TouchEdges(ordered, text)
      ensures (u, v) in yellow <==> (u, v) in NearEdges(ordered, text)
    {
      NeighboursAreListed(ordered, text, u, v);
    }
    SameEdges(red, TouchEdges(ordered, text));
    SameEdges(yellow, NearEdges(ordered, text));
  }

  ghost predicate Together(groups: seq<Group>, u: LabelledSpan, v: LabelledSpan)
  {
    exists g :: g in groups && u in g && v in g
  }

  /** Two mandatory spans share a group if and only if a chain of mandatory spans, each
      touching the next, leads from one to the other; the same for contextual spans
      and components, with the wider relation. */
  lemma GroupsReadText(text: string, red: seq<LabelledSpan>, yellow: seq<LabelledSpan>,
                       u: LabelledSpan, v: LabelledSpan)
    requires InText(red + yellow, text)
    ensures var ordered, r := SortBy(red + yellow, SpanKey), StructureOf(text, red, yellow);
      && (u in red && v in red ==>
            (Together(r.redFusionGroups, u, v) <==> Reach(NodeSet(red), TouchEdges(ordered, text), u, v)))
      && (u in yellow && v in yellow ==>
            (Together(r.contextComponents, u, v) <==> Reach(NodeSet(yellow), NearEdges(ordered, text), u, v)))
  {
    var ordered := SortBy(red + yellow, SpanKey);
    EdgesAreRead(text, red + yellow);
    EdgesSymmetric(ordered, text, LastPair(ordered));
    if u in red {
      ComponentsAreClasses(red, TouchEdges(ordered, text), u);
    }
    if u in yellow {
      ComponentsAreClasses(yellow, NearEdges(ordered, text), u);
    }
  }

  /** `a` stands no later than `b` in the order of the document. */
  predicate NoLater(a: LabelledSpan, b: LabelledSpan)
  {
    a.start < b.start || (a.start == b.start && a.end <= b.end)
  }

  /** `b` follows `a`, and no other span stands between the two. */
  ghost predicate Follows(spans: seq<LabelledSpan>, a: LabelledSpan, b: LabelledSpan)
  {
    && a in spans && b in spans && a != b && NoLater(a, b)
    && forall s :: s in spans && NoLater(a, s) && NoLater(s, b) ==> s == a || s == b
  }

  lemma {:induction false} LastOccurrence(ordered: seq<LabelledSpan>, a: LabelledSpan) returns (i: nat)
    requires a in ordered
    ensures i < |ordered| && ordered[i] == a && a !in ordered[i + 1..]
  {
    var n := |ordered| - 1;
    if ordered[n] == a {
      i := n;
    } else {
      i := LastOccurrence(ordered[..n], a);
      assert ordered[i + 1..] == ordered[..n][i + 1..] + [ordered[n]];
    }
  }

  /** In document order the two are neighbours. */
  lemma FollowersAreNeighbours(spans: seq<LabelledSpan>, a: LabelledSpan, b: LabelledSpan) returns (i: nat)
    requires Follows(spans, a, b) && !NoLater(b, a)
    ensures var ordered := SortBy(spans, SpanKey); i + 1 < |ordered| && ordered[i] == a && ordered[i + 1] == b
  {
    var ordered := SortBy(spans, SpanKey);
    SortSorts(spans, SpanKey);
    i := LastOccurrence(ordered, a);
    var j :| 0 <= j < |ordered| && ordered[j] == b;
    assert j < i ==> Le(SpanKey(ordered[j]), SpanKey(ordered[i]));
    var next := ordered[i + 1];
    assert next in ordered && next in ordered[i + 1..];
    assert Le(SpanKey(ordered[i]), SpanKey(next));
    assert i + 1 < j ==> Le(SpanKey(next), SpanKey(ordered[j]));
  }

  lemma NearIsLater(text: string, a: LabelledSpan, b: LabelledSpan)
    requires a.start < a.end && Near(text, a, b)
    ensures !NoLater(b, a)
  {
  }

  lemma NearFollower(text: string, spans: seq<LabelledSpan>, a: LabelledSpan, b: LabelledSpan)
    requires a.start < a.end && Follows(spans, a, b) && Near(text, a, b)
    ensures Nearby(SortBy(spans, SpanKey), text, a, b)
    ensures Touch(text, a, b) ==> Touching(SortBy(spans, SpanKey), text, a, b)
  {
    var ordered := SortBy(spans, SpanKey);
    NearIsLater(text, a, b);
    var i := FollowersAreNeighbours(spans, a, b);
    assert NeighboursAt(ordered, i, a, b);
  }

  lemma EdgeReaches(nodes: set<Node>, edges: set<(Node, Node)>, u: Node, v: Node)
    requires (u, v) in edges && u in nodes && v in nodes
    ensures Reach(nodes, edges, u, v)
  {
    ReachSelf(nodes, edges, u);
    ReachExtend(nodes, edges, u, u, v);
  }

  /** So a mandatory span that touches the one before it joins its group, and a
      contextual span near the one before it joins its component. */
  lemma TouchingSpansShareGroup(text: string, red: seq<LabelledSpan>, yellow: seq<LabelledSpan>,
                                a: LabelledSpan, b: LabelledSpan)
    requires InText(red + yellow, text) && Follows(red + yellow, a, b) && Near(text, a, b)
    ensures a in red && b in red && Touch(text, a, b)
      ==> Together(StructureOf(text, red, yellow).redFusionGroups, a, b)
    ensures a in yellow && b in yellow ==> Together(StructureOf(text, red, yellow).contextComponents, a, b)
  {
    var ordered := SortBy(red + yellow, SpanKey);
    SortSorts(red + yellow, SpanKey);
    NearFollower(text, red + yellow, a, b);
    GroupsReadText(text, red, yellow, a, b);
    if a in red && b in red && Touch(text, a, b) {
      EdgeReaches(NodeSet(red), TouchEdges(ordered, text), a, b);
    }
    if a in yellow && b in yellow {
      EdgeReaches(NodeSet(yellow), NearEdges(ordered, text), a, b);
    }
  }

  /** Every connector character that stands between two neighbours, in document order,
      then those of the pairs. */
  lemma MarkersReadText(text: string, red: seq<LabelledSpan>, yellow: seq<LabelledSpan>)
    requires InText(red + yellow, text)
    ensures StructureOf(text, red, yellow).effectiveMarkers
         == Concat(MarksOf(SortBy(red + yellow, SpanKey), text)) + PairsFound(text, red + yellow, yellow).markers
  {
    ConnectorsReadText(red + yellow, text);
  }
}
