/** app/bench/combinators.py: the connector structure of an annotated document
    (Algorithm 1 of the RedactionBench paper).
 */
module Combinators {
  import opened Annotation
  import opened Characters
  import opened Lists
  import opened Sorting
  import opened Runs
  import opened Graph

  predicate IsOpener(ch: char) { ch == '(' || ch == '[' || ch == '{' || ch == '<' }

  predicate IsCloser(ch: char) { ch == ')' || ch == ']' || ch == '}' || ch == '>' }

  /** Quotes close themselves. */
  predicate IsSymmetric(ch: char) { ch == '"' || ch == '\'' || ch == '`' }

  predicate IsPunct(ch: char)
  {
    ch == '\\' || ch == '/' || ch == '@' || IsOpener(ch) || IsCloser(ch) || IsSymmetric(ch)
  }

  predicate IsLetter(ch: char) { 'a' <= ch <= 'z' || 'A' <= ch <= 'Z' }

  /** The closing delimiter of an opening one. */
  function PairOf(ch: char): char
  {
    match ch
    case '(' => ')'
    case '[' => ']'
    case '{' => '}'
    case '<' => '>'
    case _ => ch
  }

  predicate IsPunctChar(ch: char)
  {
    !IsPunct(ch) && !IsLetter(ch) && !IsDigit(ch)
  }

  predicate IsWhitespace(ch: char) { ch == ' ' || ch == '\t' }

  /** Where a slice bound falls: negative bounds count from the end, and bounds
      outside the text are clamped. */
  function Bound(i: int, n: nat): (r: nat)
    ensures r <= n
  {
    if i < 0 then (if n + i < 0 then 0 else n + i) else if i > n then n else i
  }

  /** Python's `text[lo:hi]`. */
  function Slice(text: string, lo: int, hi: int): (r: string)
  {
    var l, h := Bound(lo, |text|), Bound(hi, |text|);
    if l < h then text[l..h] else ""
  }

  function SpanText(text: string, s: LabelledSpan): (r: string) { Slice(text, s.start, s.end) }

  predicate IsDigitOnly(text: string, s: LabelledSpan)
  {
    forall i :: 0 <= i < |SpanText(text, s)| ==> IsDigit(SpanText(text, s)[i])
  }

  ghost predicate InText(spans: seq<LabelledSpan>, text: string)
  {
    forall s :: s in spans ==> 0 <= s.start < s.end <= |text|
  }

  // ----- red_edges -----

  type Adjacency = map<Node, seq<Node>>

  /** What the text between two neighbouring spans says: an edge of either graph,
      and the connector characters. */
  datatype Link = Link(red: bool, yellow: bool, markers: seq<char>)

  function LinkOf(text: string, a: LabelledSpan, b: LabelledSpan): (l: Link)
    ensures l.red ==> l.yellow
  {
    var between := Slice(text, a.end, b.start);
    var aText := SpanText(text, a);
    if between == "" then Link(false, false, [])
    else if between[0] == ' ' && aText != "" && IsCloser(aText[|aText| - 1]) then
      Link(false, true, [aText[|aText| - 1], between[0]])
    else if |between| == 1 && IsPunctChar(between[0]) then Link(true, true, [between[0]])
    else if |between| == 1 && between[0] == '/' && IsDigitOnly(text, a) && IsDigitOnly(text, b) then
      Link(false, true, [between[0]])
    else if |between| == 2 && IsCloser(between[0]) && IsWhitespace(between[1]) then
      Link(false, true, [between[0], between[1]])
    else Link(false, false, [])
  }

  function Both(a: Node, b: Node): (r: set<(Node, Node)>) { {(a, b), (b, a)} }

  function LinkEdges(edges: set<(Node, Node)>, a: Node, b: Node, linked: bool): (r: set<(Node, Node)>)
  {
    if linked then edges + Both(a, b) else edges
  }

  /** The edges between neighbours whose pair is linked. */
  ghost function EdgesOf(ordered: seq<Node>, linked: seq<bool>): (r: set<(Node, Node)>)
    requires |linked| < |ordered| || linked == []
  {
    if linked == [] then {} else
      var k := |linked| - 1;
      LinkEdges(EdgesOf(ordered, linked[..k]), ordered[k], ordered[k + 1], linked[k])
  }

  /** What the text says between the first `k` neighbouring pairs. */
  ghost function LinksOf(ordered: seq<Node>, text: string, k: nat): (r: seq<Link>)
    requires k < |ordered| || k == 0
    ensures |r| == k
  {
    seq(k, i requires 0 <= i < k => LinkOf(text, ordered[i], ordered[i + 1]))
  }

  ghost function Yellows(links: seq<Link>): (r: seq<bool>)
    ensures |r| == |links|
  {
    seq(|links|, i requires 0 <= i < |links| => links[i].yellow)
  }

  ghost function Reds(links: seq<Link>): (r: seq<bool>)
    ensures |r| == |links|
  {
    seq(|links|, i requires 0 <= i < |links| => links[i].red)
  }

  ghost function Marks(links: seq<Link>): (r: seq<seq<char>>)
    ensures |r| == |links|
  {
    seq(|links|, i requires 0 <= i < |links| => links[i].markers)
  }

  ghost function YellowEdges(ordered: seq<Node>, text: string, k: nat): (r: set<(Node, Node)>)
    requires k < |ordered| || k == 0
  {
    EdgesOf(ordered, Yellows(LinksOf(ordered, text, k)))
  }

  ghost function RedEdgesOf(ordered: seq<Node>, text: string, k: nat): (r: set<(Node, Node)>)
    requires k < |ordered| || k == 0
  {
    EdgesOf(ordered, Reds(LinksOf(ordered, text, k)))
  }

  ghost function LinkMarkers(ordered: seq<Node>, text: string, k: nat): (r: seq<char>)
    requires k < |ordered| || k == 0
  {
    Concat(Marks(LinksOf(ordered, text, k)))
  }

  /** The arcs of an adjacency map. */
  ghost function Arcs(graph: Adjacency): (r: set<(Node, Node)>)
  {
    set u, v | u in graph && v in graph[u] :: (u, v)
  }

  /** `graph.setdefault(a, []).append(b)` and the same the other way. */
  function Connect(graph: Adjacency, a: Node, b: Node): (r: Adjacency)
  {
    Append(Append(graph, a, b), b, a)
  }

  function Append(graph: Adjacency, a: Node, b: Node): (r: Adjacency)
  {
    graph[a := (if a in graph then graph[a] else []) + [b]]
  }

  lemma AppendArcs(graph: Adjacency, a: Node, b: Node)
    ensures Arcs(Append(graph, a, b)) == Arcs(graph) + {(a, b)}
  {
    var next := Append(graph, a, b);
    forall u, v ensures (u, v) in Arcs(next) <==> (u, v) in Arcs(graph) || (u, v) == (a, b) {
    }
  }

  lemma ConnectArcs(graph: Adjacency, a: Node, b: Node)
    ensures Arcs(Connect(graph, a, b)) == Arcs(graph) + Both(a, b)
  {
    AppendArcs(graph, a, b);
    AppendArcs(Append(graph, a, b), b, a);
  }

  function LastPair(ordered: seq<Node>): (n: nat) { if ordered == [] then 0 else |ordered| - 1 }

  /** One round of the loop of `red_edges`. */
  method JoinPair(a: Node, b: Node, text: string, yellow: Adjacency, red: Adjacency, marks: seq<char>)
    returns (yellowGraph: Adjacency, redGraph: Adjacency, markers: seq<char>)
    ensures var link := LinkOf(text, a, b);
      && Arcs(yellowGraph) == LinkEdges(Arcs(yellow), a, b, link.yellow)
      && Arcs(redGraph) == LinkEdges(Arcs(red), a, b, link.red)
      && markers == marks + link.markers
    ensures InText([a, b], text) ==>
      && Arcs(yellowGraph) == LinkEdges(Arcs(yellow), a, b, Near(text, a, b))
      && Arcs(redGraph) == LinkEdges(Arcs(red), a, b, Touch(text, a, b))
      && markers == marks + MarksBetween(text, a, b)
  {
    if InText([a, b], text) {
      LinkReadsText(text, a, b);
    }
    yellowGraph, redGraph, markers := yellow, red, marks;
    var between := Slice(text, a.end, b.start);
    if between == "" {
      return;
    }
    var aText := SpanText(text, a);
    ConnectArcs(yellow, a, b);
    ConnectArcs(red, a, b);
    if between[0] == ' ' && aText != "" && IsCloser(aText[|aText| - 1]) {
      yellowGraph := Connect(yellowGraph, a, b);
      markers := markers + [aText[|aText| - 1], between[0]];
      return;
    }
    if |between| == 1 {
      var ch := between[0];
      if IsPunctChar(ch) {
        redGraph := Connect(redGraph, a, b);
        yellowGraph := Connect(yellowGraph, a, b);
        markers := markers + [ch];
        return;
      }
      if ch == '/' && IsDigitOnly(text, a) && IsDigitOnly(text, b) {
        yellowGraph := Connect(yellowGraph, a, b);
        markers := markers + [ch];
      }
    } else if |between| == 2 {
      var d, w := between[0], between[1];
      if IsCloser(d) && IsWhitespace(w) {
        yellowGraph := Connect(yellowGraph, a, b);
        markers := markers + [d, w];
      }
    }
  }

  // ----- the same, said of the characters of the text -----

  /** One character stands between the two: no ASCII letter or digit, none of the
      slashes, at sign, brackets and quotes, and no space behind a closing delimiter. */
  predicate Touch(text: string, a: LabelledSpan, b: LabelledSpan)
  {
    && 0 <= a.start < a.end < |text| && b.start == a.end + 1
    && var c, before := text[a.end], text[a.end - 1];
    && !('a' <= c <= 'z') && !('A' <= c <= 'Z') && !('0' <= c <= '9')
    && c != '\\' && c != '/' && c != '@' && c != '"' && c != '\'' && c != '`'
    && c != '(' && c != ')' && c != '[' && c != ']' && c != '{' && c != '}' && c != '<' && c != '>'
    && (c == ' ' ==> before != ')' && before != ']' && before != '}' && before != '>')
  }

  /** A closing delimiter ends the first, and a space follows it. */
  predicate CloserThenSpace(text: string, a: LabelledSpan, b: LabelledSpan)
  {
    && 0 <= a.start < a.end < b.start <= |text| && text[a.end] == ' '
    && (text[a.end - 1] == ')' || text[a.end - 1] == ']' || text[a.end - 1] == '}' || text[a.end - 1] == '>')
  }

  predicate AllDigits(text: string, s: LabelledSpan)
  {
    0 <= s.start <= s.end <= |text| && forall i :: s.start <= i < s.end ==> '0' <= text[i] <= '9'
  }

  /** A slash between two spans of digits. */
  predicate SlashBetween(text: string, a: LabelledSpan, b: LabelledSpan)
  {
    && 0 <= a.end < |text| && b.start == a.end + 1 && text[a.end] == '/'
    && AllDigits(text, a) && AllDigits(text, b)
  }

  /** Exactly a closing delimiter and a space or tab stand between the two. */
  predicate CloserAndBlank(text: string, a: LabelledSpan, b: LabelledSpan)
  {
    && 0 <= a.end < |text| - 1 && b.start == a.end + 2
    && (text[a.end] == ')' || text[a.end] == ']' || text[a.end] == '}' || text[a.end] == '>')
    && (text[a.end + 1] == ' ' || text[a.end + 1] == '\t')
  }

  predicate Near(text: string, a: LabelledSpan, b: LabelledSpan)
  {
    Touch(text, a, b) || CloserThenSpace(text, a, b) || SlashBetween(text, a, b) || CloserAndBlank(text, a, b)
  }

  /** The connector characters between the two. */
  function MarksBetween(text: string, a: LabelledSpan, b: LabelledSpan): (r: seq<char>)
  {
    if CloserThenSpace(text, a, b) then [text[a.end - 1], ' ']
    else if Touch(text, a, b) then [text[a.end]]
    else if SlashBetween(text, a, b) then ['/']
    else if CloserAndBlank(text, a, b) then [text[a.end], text[a.end + 1]]
    else []
  }

  lemma LinkReadsText(text: string, a: LabelledSpan, b: LabelledSpan)
    requires InText([a, b], text)
    ensures LinkOf(text, a, b) == Link(Touch(text, a, b), Near(text, a, b), MarksBetween(text, a, b))
  {
    assert a in [a, b] && b in [a, b];
    DigitsRead(text, a);
    DigitsRead(text, b);
    var between := Slice(text, a.end, b.start);
    if a.end < b.start {
      assert between == text[a.end..b.start] && SpanText(text, a) == text[a.start..a.end];
    }
  }

  lemma DigitsRead(text: string, s: LabelledSpan)
    requires 0 <= s.start < s.end <= |text|
    ensures IsDigitOnly(text, s) <==> AllDigits(text, s)
  {
    var own := text[s.start..s.end];
    assert SpanText(text, s) == own;
    if IsDigitOnly(text, s) {
      forall i | s.start <= i < s.end ensures '0' <= text[i] <= '9' {
        assert IsDigit(own[i - s.start]);
      }
    }
  }

  /** `u` and `v`, in either order, are the neighbours `i` and `i + 1`. */
  predicate NeighboursAt(ordered: seq<Node>, i: int, u: Node, v: Node)
  {
    && 0 <= i < |ordered| - 1
    && ((u == ordered[i] && v == ordered[i + 1]) || (v == ordered[i] && u == ordered[i + 1]))
  }

  /** They are neighbours with a touching (or near) text between them. */
  ghost predicate Touching(ordered: seq<Node>, text: string, u: Node, v: Node)
  {
    exists i :: NeighboursAt(ordered, i, u, v) && Touch(text, ordered[i], ordered[i + 1])
  }

  ghost predicate Nearby(ordered: seq<Node>, text: string, u: Node, v: Node)
  {
    exists i :: NeighboursAt(ordered, i, u, v) && Near(text, ordered[i], ordered[i + 1])
  }

  ghost function Touches(ordered: seq<Node>, text: string): (r: seq<bool>)
    ensures |r| == LastPair(ordered)
  {
    seq(LastPair(ordered), i requires 0 <= i < LastPair(ordered) => Touch(text, ordered[i], ordered[i + 1]))
  }

  ghost function Nears(ordered: seq<Node>, text: string): (r: seq<bool>)
    ensures |r| == LastPair(ordered)
  {
    seq(LastPair(ordered), i requires 0 <= i < LastPair(ordered) => Near(text, ordered[i], ordered[i + 1]))
  }

  ghost function MarksOf(ordered: seq<Node>, text: string): (r: seq<seq<char>>)
    ensures |r| == LastPair(ordered)
  {
    seq(LastPair(ordered), i requires 0 <= i < LastPair(ordered) => MarksBetween(text, ordered[i], ordered[i + 1]))
  }

  ghost predicate LinkedAt(ordered: seq<Node>, linked: seq<bool>, u: Node, v: Node)
  {
    exists i :: 0 <= i < |linked| && NeighboursAt(ordered, i, u, v) && linked[i]
  }

  lemma {:induction false} EdgesAreLinked(ordered: seq<Node>, linked: seq<bool>, u: Node, v: Node)
    requires |linked| < |ordered| || linked == []
    ensures (u, v) in EdgesOf(ordered, linked) <==> LinkedAt(ordered, linked, u, v)
  {
    if linked != [] {
      var k := |linked| - 1;
      EdgesAreLinked(ordered, linked[..k], u, v);
      assert NeighboursAt(ordered, k, u, v) <==> (u, v) in Both(ordered[k], ordered[k + 1]);
    }
  }

  lemma LinkAt(ordered: seq<Node>, text: string, i: nat)
    requires InText(ordered, text) && i < LastPair(ordered)
    ensures var links := LinksOf(ordered, text, LastPair(ordered));
      && Reds(links)[i] == Touches(ordered, text)[i] && Yellows(links)[i] == Nears(ordered, text)[i]
      && Marks(links)[i] == MarksOf(ordered, text)[i]
  {
    LinkReadsText(text, ordered[i], ordered[i + 1]);
  }

  lemma LinksReadText(ordered: seq<Node>, text: string)
    requires InText(ordered, text)
    ensures var links := LinksOf(ordered, text, LastPair(ordered));
      && Reds(links) == Touches(ordered, text) && Yellows(links) == Nears(ordered, text)
      && Marks(links) == MarksOf(ordered, text)
  {
    forall i: nat | i < LastPair(ordered)
      ensures var links := LinksOf(ordered, text, LastPair(ordered));
        && Reds(links)[i] == Touches(ordered, text)[i] && Yellows(links)[i] == Nears(ordered, text)[i]
        && Marks(links)[i] == MarksOf(ordered, text)[i]
    {
      LinkAt(ordered, text, i);
    }
  }

  lemma TouchesAreLinked(ordered: seq<Node>, text: string, u: Node, v: Node)
    ensures LinkedAt(ordered, Touches(ordered, text), u, v) <==> Touching(ordered, text, u, v)
  {
    if i :| NeighboursAt(ordered, i, u, v) && Touch(text, ordered[i], ordered[i + 1]) {
      assert Touches(ordered, text)[i];
    }
  }

  lemma NearsAreLinked(ordered: seq<Node>, text: string, u: Node, v: Node)
    ensures LinkedAt(ordered, Nears(ordered, text), u, v) <==> Nearby(ordered, text, u, v)
  {
    if i :| NeighboursAt(ordered, i, u, v) && Near(text, ordered[i], ordered[i + 1]) {
      assert Nears(ordered, text)[i];
    }
  }

  lemma PairStep(ordered: seq<Node>, text: string, i: nat)
    requires i + 1 < |ordered|
    ensures var a, b, link := ordered[i], ordered[i + 1], LinkOf(text, ordered[i], ordered[i + 1]);
      && RedEdgesOf(ordered, text, i + 1) == LinkEdges(RedEdgesOf(ordered, text, i), a, b, link.red)
      && YellowEdges(ordered, text, i + 1) == LinkEdges(YellowEdges(ordered, text, i), a, b, link.yellow)
      && LinkMarkers(ordered, text, i + 1) == LinkMarkers(ordered, text, i) + link.markers
  {
    var all, init := LinksOf(ordered, text, i + 1), LinksOf(ordered, text, i);
    assert Reds(all)[..i] == Reds(init) && Yellows(all)[..i] == Yellows(init);
    assert Marks(all) == Marks(init) + [all[i].markers];
    ConcatSnoc(Marks(init), all[i].markers);
  }

  /** Neighbours in document order are joined as the text between them says. */
  method RedEdges(spans: seq<LabelledSpan>, text: string)
    returns (yellowGraph: Adjacency, redGraph: Adjacency, markers: seq<char>)
    ensures var ordered := SortBy(spans, SpanKey);
      && Arcs(yellowGraph) == YellowEdges(ordered, text, LastPair(ordered))
      && Arcs(redGraph) == RedEdgesOf(ordered, text, LastPair(ordered))
      && markers == LinkMarkers(ordered, text, LastPair(ordered))
    ensures InText(spans, text) ==> var ordered := SortBy(spans, SpanKey);
      && (forall u, v :: (u, v) in Arcs(redGraph) <==> Touching(ordered, text, u, v))
      && (forall u, v :: (u, v) in Arcs(yellowGraph) <==> Nearby(ordered, text, u, v))
      && markers == Concat(MarksOf(ordered, text))
  {
    yellowGraph, redGraph, markers := map[], map[], [];
    var ordered := SortBy(spans, SpanKey);
    assert Arcs(map[]) == {};
    for i := 0 to LastPair(ordered)
      invariant Arcs(yellowGraph) == YellowEdges(ordered, text, i)
      invariant Arcs(redGraph) == RedEdgesOf(ordered, text, i)
      invariant markers == LinkMarkers(ordered, text, i)
    {
      PairStep(ordered, text, i);
      yellowGraph, redGraph, markers := JoinPair(ordered[i], ordered[i + 1], text, yellowGraph, redGraph, markers);
    }
    if InText(spans, text) {
      ConnectorsReadText(spans, text);
    }
  }

  /** Over the whole document. */
  lemma ConnectorsReadText(spans: seq<LabelledSpan>, text: string)
    requires InText(spans, text)
    ensures var ordered := SortBy(spans, SpanKey);
            var k := LastPair(ordered);
      && (forall u, v :: (u, v) in RedEdgesOf(ordered, text, k) <==> Touching(ordered, text, u, v))
      && (forall u, v :: (u, v) in YellowEdges(ordered, text, k) <==> Nearby(ordered, text, u, v))
      && LinkMarkers(ordered, text, k) == Concat(MarksOf(ordered, text))
  {
    var ordered := SortBy(spans, SpanKey);
    SortSorts(spans, SpanKey);
    LinksReadText(ordered, text);
    forall u, v
      ensures (u, v) in EdgesOf(ordered, Touches(ordered, text)) <==> Touching(ordered, text, u, v)
      ensures (u, v) in EdgesOf(ordered, Nears(ordered, text)) <==> Nearby(ordered, text, u, v)
    {
      EdgesAreLinked(ordered, Touches(ordered, text), u, v);
      EdgesAreLinked(ordered, Nears(ordered, text), u, v);
      TouchesAreLinked(ordered, text, u, v);
      NearsAreLinked(ordered, text, u, v);
    }
  }

  lemma {:induction false} LinkedSymmetric(ordered: seq<Node>, linked: seq<bool>)
    requires |linked| < |ordered| || linked == []
    ensures Symmetric(EdgesOf(ordered, linked))
  {
    if linked != [] {
      LinkedSymmetric(ordered, linked[..|linked| - 1]);
    }
  }

  lemma {:induction false} LinkedMonotone(ordered: seq<Node>, some: seq<bool>, more: seq<bool>)
    requires |some| == |more| && (|some| < |ordered| || some == [])
    requires forall i :: 0 <= i < |some| ==> some[i] ==> more[i]
    ensures EdgesOf(ordered, some) <= EdgesOf(ordered, more)
  {
    if some != [] {
      LinkedMonotone(ordered, some[..|some| - 1], more[..|more| - 1]);
    }
  }

  /** Both graphs are symmetric, and every red edge is a yellow one. */
  lemma EdgesSymmetric(ordered: seq<Node>, text: string, k: nat)
    requires k < |ordered| || k == 0
    ensures Symmetric(YellowEdges(ordered, text, k)) && Symmetric(RedEdgesOf(ordered, text, k))
    ensures RedEdgesOf(ordered, text, k) <= YellowEdges(ordered, text, k)
  {
    var links := LinksOf(ordered, text, k);
    LinkedSymmetric(ordered, Yellows(links));
    LinkedSymmetric(ordered, Reds(links));
    LinkedMonotone(ordered, Reds(links), Yellows(links));
  }

  // ----- connected_components -----

  lemma ArcsOf(graph: Adjacency, u: Node, v: Node)
    ensures (u, v) in Arcs(graph) <==> u in graph && v in graph[u]
  {
  }

  method PushNeighbours(cur: Node, graph: Adjacency, seen: set<Node>, byKey: set<Node>) returns (pushed: seq<Node>)
    ensures PushesUnseen(byKey, Arcs(graph), cur, seen, pushed)
  {
    var neighbours := if cur in graph then graph[cur] else [];
    pushed := [];
    for i := 0 to |neighbours|
      invariant forall v :: v in pushed <==> v in neighbours[..i] && v !in seen && v in byKey
    {
      if neighbours[i] !in seen && neighbours[i] in byKey {
        pushed := pushed + [neighbours[i]];
      }
    }
    assert neighbours[..|neighbours|] == neighbours;
    forall v ensures v in neighbours <==> (cur, v) in Arcs(graph) {
      ArcsOf(graph, cur, v);
    }
  }

  /** One round of the search: the top of the stack is new. */
  method Visit(ghost root: Node, graph: Adjacency, byKey: set<Node>, ghost seen0: set<Node>,
               comp0: seq<Node>, stack0: seq<Node>, seenNow: set<Node>)
    returns (comp: seq<Node>, stack: seq<Node>, seen: set<Node>)
    requires Symmetric(Arcs(graph)) && Closed(byKey, Arcs(graph), seen0)
    requires stack0 != [] && Searching(byKey, Arcs(graph), root, seen0, comp0, stack0)
    requires seenNow == seen0 + NodeSet(comp0) && stack0[|stack0| - 1] !in seenNow
    ensures Searching(byKey, Arcs(graph), root, seen0, comp, stack)
    ensures seen == seen0 + NodeSet(comp) == seenNow + {stack0[|stack0| - 1]}
  {
    var cur := stack0[|stack0| - 1];
    seen := seenNow + {cur};
    comp := comp0 + [cur];
    assert NodeSet(comp) == NodeSet(comp0) + {cur};
    var pushed := PushNeighbours(cur, graph, seen, byKey);
    SearchVisits(byKey, Arcs(graph), root, seen0, comp0, stack0, pushed);
    stack := stack0[..|stack0| - 1] + pushed;
  }

  /** The depth-first search from one root: it collects the root's class. */
  method Explore(root: Node, graph: Adjacency, byKey: set<Node>, seen0: set<Node>)
    returns (comp: seq<Node>, seen: set<Node>)
    requires Symmetric(Arcs(graph)) && Closed(byKey, Arcs(graph), seen0)
    requires root in byKey && root !in seen0
    ensures forall u :: u in comp <==> u in Class(byKey, Arcs(graph), root)
    ensures forall i, j :: 0 <= i < j < |comp| ==> comp[i] != comp[j]
    ensures seen == seen0 + Class(byKey, Arcs(graph), root)
  {
    ghost var edges := Arcs(graph);
    seen := seen0;
    comp := [];
    var stack := [root];
    SearchStarts(byKey, edges, root, seen0);
    while stack != []
      invariant Searching(byKey, edges, root, seen0, comp, stack)
      invariant seen == seen0 + NodeSet(comp)
      decreases |byKey| - |seen * byKey|, |stack|
    {
      var cur := stack[|stack| - 1];
      SearchPops(byKey, edges, root, seen0, comp, stack);
      if cur in seen {
        SearchSkips(byKey, edges, root, seen0, comp, stack);
        stack := stack[..|stack| - 1];
        continue;
      }
      SeenGrows(byKey, seen, cur);
      comp, stack, seen := Visit(root, graph, byKey, seen0, comp, stack, seen);
    }
    SearchEnds(byKey, edges, root, seen0, comp);
  }

  /** A node that an earlier search has reached adds nothing. */
  lemma OldClass(nodes: seq<Node>, edges: set<(Node, Node)>, k: nat)
    requires k < |nodes| && Symmetric(edges) && nodes[k] in SeenUpTo(nodes, edges, k)
    ensures SeenUpTo(nodes, edges, k + 1) == SeenUpTo(nodes, edges, k)
    ensures ClassesUpTo(nodes, edges, k + 1) == ClassesUpTo(nodes, edges, k)
  {
    SeenStep(nodes, edges, k);
  }

  /** A search from any other node adds its class. */
  lemma NewClass(nodes: seq<Node>, edges: set<(Node, Node)>, k: nat, comp: seq<Node>)
    requires k < |nodes| && Symmetric(edges) && nodes[k] !in SeenUpTo(nodes, edges, k)
    requires PlacesDistinct(nodes)
    requires forall u :: u in comp <==> u in Class(NodeSet(nodes), edges, nodes[k])
    requires forall i, j :: 0 <= i < j < |comp| ==> comp[i] != comp[j]
    ensures SeenUpTo(nodes, edges, k + 1) == SeenUpTo(nodes, edges, k) + Class(NodeSet(nodes), edges, nodes[k])
    ensures ClassesUpTo(nodes, edges, k + 1) == ClassesUpTo(nodes, edges, k) + [SortBy(comp, SpanKey)]
  {
    SeenStep(nodes, edges, k);
    forall u | u in comp ensures u in nodes {
      assert u in Class(NodeSet(nodes), edges, nodes[k]);
    }
    SortIsInOrder(comp, Class(NodeSet(nodes), edges, nodes[k]));
  }

  method ConnectedComponents(nodes: seq<LabelledSpan>, graph: Adjacency) returns (components: seq<Group>)
    requires PlacesDistinct(nodes) && Symmetric(Arcs(graph))
    ensures components == Components(nodes, Arcs(graph))
  {
    if nodes == [] {
      return [];
    }
    ghost var edges := Arcs(graph);
    var seen: set<Node> := {};
    var byKey := NodeSet(nodes);
    components := [];
    for k := 0 to |nodes|
      invariant seen == SeenUpTo(nodes, edges, k)
      invariant components == ClassesUpTo(nodes, edges, k)
    {
      var node := nodes[k];
      SeenClosed(nodes, edges, k);
      if node in seen {
        OldClass(nodes, edges, k);
        continue;
      }
      var comp;
      comp, seen := Explore(node, graph, byKey, seen);
      NewClass(nodes, edges, k, comp);
      var members := SortBy(comp, SpanKey);
      components := components + [members];
    }
    components := SortBy(components, GroupKey);
  }

  lemma SeenGrows(all: set<Node>, seen: set<Node>, cur: Node)
    requires cur in all && cur !in seen
    ensures |all| - |(seen + {cur}) * all| < |all| - |seen * all|
    ensures |(seen + {cur}) * all| <= |all|
  {
    assert (seen + {cur}) * all == seen * all + {cur};
    SubsetSize((seen + {cur}) * all, all);
  }
}
