/** Reachability in the span graphs of the bench, and what a depth-first search
    with an explicit stack keeps.  Both searches of the bench use it.
 */
module Graph {
  import opened Annotation
  import opened Sorting
  import opened Runs

  type Node = LabelledSpan
  type Group = seq<Node>

  ghost predicate IsPath(nodes: set<Node>, edges: set<(Node, Node)>, p: seq<Node>, u: Node, v: Node)
  {
    && |p| > 0 && p[0] == u && p[|p| - 1] == v
    && (forall i :: 0 <= i < |p| ==> p[i] in nodes)
    && (forall i :: 0 <= i < |p| - 1 ==> (p[i], p[i + 1]) in edges)
  }

  /** A path of the subgraph induced on `nodes` joins the two. */
  ghost predicate Reach(nodes: set<Node>, edges: set<(Node, Node)>, u: Node, v: Node)
  {
    exists p :: IsPath(nodes, edges, p, u, v)
  }

  ghost predicate Symmetric(edges: set<(Node, Node)>)
  {
    forall u, v :: (u, v) in edges ==> (v, u) in edges
  }

  /** No edge of the induced subgraph leaves `part`. */
  ghost predicate Closed(nodes: set<Node>, edges: set<(Node, Node)>, part: set<Node>)
  {
    forall u, v :: (u, v) in edges && u in part && v in nodes ==> v in part
  }

  ghost function Class(nodes: set<Node>, edges: set<(Node, Node)>, u: Node): (r: set<Node>)
  {
    set v | v in nodes && Reach(nodes, edges, u, v)
  }

  lemma ReachSelf(nodes: set<Node>, edges: set<(Node, Node)>, u: Node)
    requires u in nodes
    ensures Reach(nodes, edges, u, u)
  {
    assert IsPath(nodes, edges, [u], u, u);
  }

  lemma ReachExtend(nodes: set<Node>, edges: set<(Node, Node)>, u: Node, v: Node, w: Node)
    requires Reach(nodes, edges, u, v) && (v, w) in edges && w in nodes
    ensures Reach(nodes, edges, u, w)
  {
    var p :| IsPath(nodes, edges, p, u, v);
    assert IsPath(nodes, edges, p + [w], u, w);
  }

  lemma ReachReverse(nodes: set<Node>, edges: set<(Node, Node)>, u: Node, v: Node)
    requires Symmetric(edges) && Reach(nodes, edges, u, v)
    ensures Reach(nodes, edges, v, u)
  {
    var p :| IsPath(nodes, edges, p, u, v);
    var q := seq(|p|, i requires 0 <= i < |p| => p[|p| - 1 - i]);
    forall i | 0 <= i < |q| - 1 ensures (q[i], q[i + 1]) in edges {
      var j := |p| - 2 - i;
      assert (p[j], p[j + 1]) in edges;
    }
    assert IsPath(nodes, edges, q, v, u);
  }

  lemma ReachTransitive(nodes: set<Node>, edges: set<(Node, Node)>, u: Node, v: Node, w: Node)
    requires Reach(nodes, edges, u, v) && Reach(nodes, edges, v, w)
    ensures Reach(nodes, edges, u, w)
  {
    var p :| IsPath(nodes, edges, p, u, v);
    var q :| IsPath(nodes, edges, q, v, w);
    var r := p + q[1..];
    forall i | 0 <= i < |r| - 1 ensures (r[i], r[i + 1]) in edges {
      if i >= |p| - 1 {
        assert r[i] == q[i - |p| + 1] && r[i + 1] == q[i - |p| + 2];
        assert (q[i - |p| + 1], q[i - |p| + 1 + 1]) in edges;
      }
    }
    assert IsPath(nodes, edges, r, u, w);
  }

  lemma ReachStaysInside(nodes: set<Node>, edges: set<(Node, Node)>, part: set<Node>, u: Node, v: Node)
    requires Closed(nodes, edges, part) && u in part && Reach(nodes, edges, u, v)
    ensures v in part
  {
    var p :| IsPath(nodes, edges, p, u, v);
    PathStaysInside(nodes, edges, part, p, |p| - 1);
  }

  lemma {:induction false} PathStaysInside(nodes: set<Node>, edges: set<(Node, Node)>, part: set<Node>,
                                           p: seq<Node>, i: nat)
    requires Closed(nodes, edges, part) && i < |p| && IsPath(nodes, edges, p, p[0], p[|p| - 1])
    requires p[0] in part
    ensures p[i] in part
  {
    if i > 0 {
      PathStaysInside(nodes, edges, part, p, i - 1);
      assert (p[i - 1], p[i - 1 + 1]) in edges;
    }
  }

  lemma ClassesAgree(nodes: set<Node>, edges: set<(Node, Node)>, u: Node, v: Node)
    requires Symmetric(edges) && Reach(nodes, edges, u, v)
    ensures Class(nodes, edges, u) == Class(nodes, edges, v)
  {
    ReachReverse(nodes, edges, u, v);
    forall w | w in nodes ensures Reach(nodes, edges, u, w) <==> Reach(nodes, edges, v, w) {
      if Reach(nodes, edges, u, w) {
        ReachTransitive(nodes, edges, v, u, w);
      }
      if Reach(nodes, edges, v, w) {
        ReachTransitive(nodes, edges, u, v, w);
      }
    }
  }

  // ----- the search -----

  /** In the search from `root`, with `done` finished before it: `comp` has been
      visited, `stack` is waiting, and every neighbour of a visited node is
      visited or waiting. */
  ghost predicate Searching(nodes: set<Node>, edges: set<(Node, Node)>, root: Node, done: set<Node>,
                            comp: seq<Node>, stack: seq<Node>)
  {
    && root in nodes && root !in done && (root in comp || root in stack)
    && (forall u :: u in comp ==> u in Class(nodes, edges, root))
    && (forall u :: u in stack ==> u in Class(nodes, edges, root))
    && (forall u :: u in comp ==> u !in done)
    && (forall i, j :: 0 <= i < j < |comp| ==> comp[i] != comp[j])
    && (forall u, v :: (u, v) in edges && u in comp && v in nodes ==> v in comp || v in stack)
  }

  lemma SearchStarts(nodes: set<Node>, edges: set<(Node, Node)>, root: Node, done: set<Node>)
    requires root in nodes && root !in done
    ensures Searching(nodes, edges, root, done, [], [root])
  {
    ReachSelf(nodes, edges, root);
  }

  lemma SearchAvoidsDone(nodes: set<Node>, edges: set<(Node, Node)>, root: Node, done: set<Node>, u: Node)
    requires Symmetric(edges) && Closed(nodes, edges, done) && root !in done && root in nodes
    requires u in Class(nodes, edges, root)
    ensures u !in done
  {
    if u in done {
      ReachReverse(nodes, edges, root, u);
      ReachStaysInside(nodes, edges, done, u, root);
    }
  }

  lemma SearchPops(nodes: set<Node>, edges: set<(Node, Node)>, root: Node, done: set<Node>,
                   comp: seq<Node>, stack: seq<Node>)
    requires Symmetric(edges) && Closed(nodes, edges, done)
    requires stack != [] && Searching(nodes, edges, root, done, comp, stack)
    ensures stack[|stack| - 1] in nodes && stack[|stack| - 1] !in done
  {
    var cur := stack[|stack| - 1];
    assert cur in stack;
    SearchAvoidsDone(nodes, edges, root, done, cur);
  }

  /** A popped node that was seen before is dropped. */
  lemma SearchSkips(nodes: set<Node>, edges: set<(Node, Node)>, root: Node, done: set<Node>,
                    comp: seq<Node>, stack: seq<Node>)
    requires stack != [] && Searching(nodes, edges, root, done, comp, stack)
    requires stack[|stack| - 1] in comp
    ensures Searching(nodes, edges, root, done, comp, stack[..|stack| - 1])
  {
    var rest, cur := stack[..|stack| - 1], stack[|stack| - 1];
    forall u ensures u in stack <==> u in rest || u == cur {
      assert stack == rest + [cur];
    }
  }

  /** The pushed nodes are neighbours of `cur`, and include all unseen ones. */
  ghost predicate PushesUnseen(nodes: set<Node>, edges: set<(Node, Node)>, cur: Node, seen: set<Node>,
                               pushed: seq<Node>)
  {
    && (forall v :: v in pushed ==> v in nodes && (cur, v) in edges)
    && (forall v :: (cur, v) in edges && v in nodes ==> v in pushed || v in seen)
  }

  /** A new node joins the component and its unseen neighbours are pushed. */
  lemma SearchVisits(nodes: set<Node>, edges: set<(Node, Node)>, root: Node, done: set<Node>,
                     comp: seq<Node>, stack: seq<Node>, pushed: seq<Node>)
    requires Symmetric(edges) && Closed(nodes, edges, done)
    requires stack != [] && Searching(nodes, edges, root, done, comp, stack)
    requires var cur := stack[|stack| - 1];
      cur !in comp && PushesUnseen(nodes, edges, cur, done + NodeSet(comp) + {cur}, pushed)
    ensures var cur := stack[|stack| - 1];
      Searching(nodes, edges, root, done, comp + [cur], stack[..|stack| - 1] + pushed)
  {
    var rest, cur := stack[..|stack| - 1], stack[|stack| - 1];
    forall u ensures u in stack <==> u in rest || u == cur {
      assert stack == rest + [cur];
    }
    SearchAvoidsDone(nodes, edges, root, done, cur);
    forall v | v in pushed ensures v in Class(nodes, edges, root) {
      ReachExtend(nodes, edges, root, cur, v);
    }
    forall v | (cur, v) in edges && v in nodes ensures v !in done {
      ReachExtend(nodes, edges, root, cur, v);
      SearchAvoidsDone(nodes, edges, root, done, v);
    }
  }

  /** When the stack runs empty the component is the class of the root. */
  lemma SearchEnds(nodes: set<Node>, edges: set<(Node, Node)>, root: Node, done: set<Node>, comp: seq<Node>)
    requires Searching(nodes, edges, root, done, comp, [])
    ensures forall u :: u in comp <==> u in Class(nodes, edges, root)
  {
    var part := set u | u in comp;
    forall u | u in Class(nodes, edges, root) ensures u in comp {
      ReachStaysInside(nodes, edges, part, root, u);
    }
  }

  // ----- the partition -----

  function NodeSet(nodes: seq<Node>): (r: set<Node>)
  {
    set u | u in nodes
  }

  /** No two nodes share a place; spans of one category never do. */
  ghost predicate PlacesDistinct(nodes: seq<Node>)
  {
    forall u, v :: u in nodes && v in nodes && SpanKey(u) == SpanKey(v) ==> u == v
  }

  ghost function Listing(part: set<Node>): (r: seq<Node>)
    ensures forall u :: u in r <==> u in part
    ensures |r| == |part|
  {
    if part == {} then [] else
      var u :| u in part;
      [u] + Listing(part - {u})
  }

  /** A set of nodes in document order. */
  ghost function InOrder(part: set<Node>): (r: Group)
  {
    SortBy(Listing(part), SpanKey)
  }

  lemma {:induction false} DistinctCount(s: seq<Node>)
    requires forall i, j :: 0 <= i < j < |s| ==> s[i] != s[j]
    ensures |NodeSet(s)| == |s|
  {
    if s != [] {
      DistinctCount(s[1..]);
      assert NodeSet(s) == {s[0]} + NodeSet(s[1..]);
    }
  }

  lemma {:induction false} CountDistinct(s: seq<Node>)
    requires |NodeSet(s)| == |s|
    ensures forall i, j :: 0 <= i < j < |s| ==> s[i] != s[j]
  {
    if s != [] {
      assert NodeSet(s) == {s[0]} + NodeSet(s[1..]);
      NodeSetSize(s[1..]);
      CountDistinct(s[1..]);
      assert s[0] !in NodeSet(s[1..]);
    }
  }

  lemma {:induction false} NodeSetSize(s: seq<Node>)
    ensures |NodeSet(s)| <= |s|
  {
    if s != [] {
      NodeSetSize(s[1..]);
      assert NodeSet(s) == {s[0]} + NodeSet(s[1..]);
    }
  }

  /** Sorting duplicate-free nodes of distinct places gives a strict order. */
  lemma SortedStrictly(s: seq<Node>)
    requires PlacesDistinct(s) && |NodeSet(s)| == |s|
    ensures StrictlySorted(SortBy(s, SpanKey), SpanKey)
  {
    var t := SortBy(s, SpanKey);
    SortSorts(s, SpanKey);
    assert NodeSet(t) == NodeSet(s);
    CountDistinct(t);
    forall i, j | 0 <= i < j < |t| ensures !Le(SpanKey(t[j]), SpanKey(t[i])) {
      assert t[i] in t && t[j] in t && t[i] != t[j];
      assert Le(SpanKey(t[i]), SpanKey(t[j]));
    }
  }

  /** However a search visited them, the sorted members are the class in order. */
  lemma SortIsInOrder(s: seq<Node>, part: set<Node>)
    requires PlacesDistinct(s)
    requires forall i, j :: 0 <= i < j < |s| ==> s[i] != s[j]
    requires forall u :: u in s <==> u in part
    ensures SortBy(s, SpanKey) == InOrder(part)
  {
    DistinctCount(s);
    assert NodeSet(s) == part == NodeSet(Listing(part));
    SortedStrictly(s);
    SortedStrictly(Listing(part));
    SortSorts(s, SpanKey);
    SortSorts(Listing(part), SpanKey);
    StrictlySortedUnique(SortBy(s, SpanKey), InOrder(part), SpanKey);
  }

  lemma InOrderMembers(part: set<Node>)
    ensures forall u :: u in InOrder(part) <==> u in part
  {
    SortSorts(Listing(part), SpanKey);
  }

  function GroupKey(g: Group): Key { Key(if g == [] then 0 else g[0].start, 0, 0.0) }

  /** Node `k` reaches no earlier node, so a search starts there. */
  ghost predicate Leads(nodes: seq<Node>, edges: set<(Node, Node)>, k: nat)
    requires k < |nodes|
  {
    forall j :: 0 <= j < k ==> !Reach(NodeSet(nodes), edges, nodes[j], nodes[k])
  }

  /** The classes in the order in which the first `k` nodes discover them. */
  ghost function ClassesUpTo(nodes: seq<Node>, edges: set<(Node, Node)>, k: nat): (r: seq<Group>)
    requires k <= |nodes|
  {
    if k == 0 then [] else
      ClassesUpTo(nodes, edges, k - 1)
      + if Leads(nodes, edges, k - 1) then [InOrder(Class(NodeSet(nodes), edges, nodes[k - 1]))] else []
  }

  /** The connected components of the subgraph induced on `nodes`, each in
      document order, sorted by start. */
  ghost function Components(nodes: seq<Node>, edges: set<(Node, Node)>): (r: seq<Group>)
  {
    SortBy(ClassesUpTo(nodes, edges, |nodes|), GroupKey)
  }

  /** What the searches from the first `k` nodes have seen. */
  ghost function SeenUpTo(nodes: seq<Node>, edges: set<(Node, Node)>, k: nat): (r: set<Node>)
    requires k <= |nodes|
  {
    set v | v in NodeSet(nodes) && exists j :: 0 <= j < k && Reach(NodeSet(nodes), edges, nodes[j], v)
  }

  lemma SeenClosed(nodes: seq<Node>, edges: set<(Node, Node)>, k: nat)
    requires k <= |nodes|
    ensures Closed(NodeSet(nodes), edges, SeenUpTo(nodes, edges, k))
  {
    forall u, v | (u, v) in edges && u in SeenUpTo(nodes, edges, k) && v in NodeSet(nodes)
      ensures v in SeenUpTo(nodes, edges, k)
    {
      var j :| 0 <= j < k && Reach(NodeSet(nodes), edges, nodes[j], u);
      ReachExtend(NodeSet(nodes), edges, nodes[j], u, v);
    }
  }

  lemma SeenStep(nodes: seq<Node>, edges: set<(Node, Node)>, k: nat)
    requires k < |nodes| && Symmetric(edges)
    ensures nodes[k] in SeenUpTo(nodes, edges, k) <==> !Leads(nodes, edges, k)
    ensures SeenUpTo(nodes, edges, k + 1)
         == SeenUpTo(nodes, edges, k) + Class(NodeSet(nodes), edges, nodes[k])
    ensures !Leads(nodes, edges, k) ==> SeenUpTo(nodes, edges, k + 1) == SeenUpTo(nodes, edges, k)
  {
    var all := NodeSet(nodes);
    if !Leads(nodes, edges, k) {
      var j :| 0 <= j < k && Reach(all, edges, nodes[j], nodes[k]);
      forall v | v in Class(all, edges, nodes[k]) ensures v in SeenUpTo(nodes, edges, k) {
        ReachTransitive(all, edges, nodes[j], nodes[k], v);
      }
    }
  }

  // ----- what the partition promises -----

  lemma {:induction false} ClassesCover(nodes: seq<Node>, edges: set<(Node, Node)>, k: nat, u: Node)
    requires k <= |nodes| && Symmetric(edges)
    requires u in SeenUpTo(nodes, edges, k)
    ensures InOrder(Class(NodeSet(nodes), edges, u)) in ClassesUpTo(nodes, edges, k)
  {
    var all := NodeSet(nodes);
    var j :| 0 <= j < k && Reach(all, edges, nodes[j], u);
    if u in SeenUpTo(nodes, edges, k - 1) {
      ClassesCover(nodes, edges, k - 1, u);
    } else {
      assert j == k - 1;
      if !Leads(nodes, edges, k - 1) {
        SeenStep(nodes, edges, k - 1);
      }
      ClassesAgree(all, edges, nodes[k - 1], u);
      assert ClassesUpTo(nodes, edges, k)[|ClassesUpTo(nodes, edges, k)| - 1]
          == InOrder(Class(all, edges, nodes[k - 1]));
    }
  }

  lemma {:induction false} ClassesSound(nodes: seq<Node>, edges: set<(Node, Node)>, k: nat, g: Group)
    requires k <= |nodes| && g in ClassesUpTo(nodes, edges, k)
    ensures exists u :: u in nodes && g == InOrder(Class(NodeSet(nodes), edges, u))
  {
    var before := ClassesUpTo(nodes, edges, k - 1);
    if g in before {
      ClassesSound(nodes, edges, k - 1, g);
    } else {
      assert g == InOrder(Class(NodeSet(nodes), edges, nodes[k - 1]));
    }
  }

  /** Two spans share a group exactly when a path joins them, and every node is
      in a group. */
  lemma ComponentsAreClasses(nodes: seq<Node>, edges: set<(Node, Node)>, u: Node)
    requires Symmetric(edges) && u in nodes
    ensures exists g :: g in Components(nodes, edges) && u in g
    ensures forall g, v :: g in Components(nodes, edges) && u in g ==>
      (v in g <==> v in nodes && Reach(NodeSet(nodes), edges, u, v))
  {
    var all, n := NodeSet(nodes), |nodes|;
    SortSorts(ClassesUpTo(nodes, edges, n), GroupKey);
    var i :| 0 <= i < n && nodes[i] == u;
    ReachSelf(all, edges, u);
    assert u in SeenUpTo(nodes, edges, n);
    ClassesCover(nodes, edges, n, u);
    InOrderMembers(Class(all, edges, u));
    assert u in InOrder(Class(all, edges, u));
    forall g, v | g in Components(nodes, edges) && u in g
      ensures v in g <==> v in nodes && Reach(all, edges, u, v)
    {
      ClassesSound(nodes, edges, n, g);
      var w :| w in nodes && g == InOrder(Class(all, edges, w));
      InOrderMembers(Class(all, edges, w));
      ClassesAgree(all, edges, w, u);
      assert v in g <==> v in Class(all, edges, u);
    }
  }

  /** Every group is a non-empty set of nodes. */
  lemma ComponentsNonEmpty(nodes: seq<Node>, edges: set<(Node, Node)>, g: Group)
    requires g in Components(nodes, edges)
    ensures g != [] && forall u :: u in g ==> u in nodes
  {
    SortSorts(ClassesUpTo(nodes, edges, |nodes|), GroupKey);
    ClassesSound(nodes, edges, |nodes|, g);
    var w :| w in nodes && g == InOrder(Class(NodeSet(nodes), edges, w));
    InOrderMembers(Class(NodeSet(nodes), edges, w));
    ReachSelf(NodeSet(nodes), edges, w);
    assert w in g;
  }

  lemma {:induction false} ClassesDistinct(nodes: seq<Node>, edges: set<(Node, Node)>, k: nat)
    requires k <= |nodes| && Symmetric(edges)
    ensures forall i, j :: 0 <= i < j < |ClassesUpTo(nodes, edges, k)| ==>
      ClassesUpTo(nodes, edges, k)[i] != ClassesUpTo(nodes, edges, k)[j]
    ensures forall g, v :: g in ClassesUpTo(nodes, edges, k) && v in g ==> v in SeenUpTo(nodes, edges, k)
  {
    if k > 0 {
      var all := NodeSet(nodes);
      var before, own := ClassesUpTo(nodes, edges, k - 1), InOrder(Class(all, edges, nodes[k - 1]));
      ClassesDistinct(nodes, edges, k - 1);
      SeenStep(nodes, edges, k - 1);
      InOrderMembers(Class(all, edges, nodes[k - 1]));
      ReachSelf(all, edges, nodes[k - 1]);
      assert nodes[k - 1] in own;
      if Leads(nodes, edges, k - 1) {
        assert own !in before;
      }
    }
  }

  lemma {:induction false} InsertDistinct(x: Group, s: seq<Group>)
    requires x !in s && forall i, j :: 0 <= i < j < |s| ==> s[i] != s[j]
    ensures forall i, j :: 0 <= i < j < |Insert(x, s, GroupKey)| ==>
      Insert(x, s, GroupKey)[i] != Insert(x, s, GroupKey)[j]
  {
    if s == [] || Le(GroupKey(x), GroupKey(s[0])) {
    } else {
      InsertDistinct(x, s[1..]);
      InsertMember(x, s[1..], GroupKey, s[0]);
    }
  }

  lemma {:induction false} SortDistinct(s: seq<Group>)
    requires forall i, j :: 0 <= i < j < |s| ==> s[i] != s[j]
    ensures forall i, j :: 0 <= i < j < |SortBy(s, GroupKey)| ==>
      SortBy(s, GroupKey)[i] != SortBy(s, GroupKey)[j]
  {
    if s != [] {
      SortDistinct(s[1..]);
      SortSorts(s[1..], GroupKey);
      InsertDistinct(s[0], SortBy(s[1..], GroupKey));
    }
  }

  /** A partition: no node is in two groups. */
  lemma ComponentsDisjoint(nodes: seq<Node>, edges: set<(Node, Node)>, i: nat, j: nat, u: Node)
    requires Symmetric(edges) && i < |Components(nodes, edges)| && j < |Components(nodes, edges)|
    requires u in Components(nodes, edges)[i] && u in Components(nodes, edges)[j]
    ensures i == j
  {
    var all, gs := NodeSet(nodes), Components(nodes, edges);
    SortSorts(ClassesUpTo(nodes, edges, |nodes|), GroupKey);
    ClassesDistinct(nodes, edges, |nodes|);
    SortDistinct(ClassesUpTo(nodes, edges, |nodes|));
    assert gs[i] in gs && gs[j] in gs;
    ClassesSound(nodes, edges, |nodes|, gs[i]);
    ClassesSound(nodes, edges, |nodes|, gs[j]);
    var v :| v in nodes && gs[i] == InOrder(Class(all, edges, v));
    var w :| w in nodes && gs[j] == InOrder(Class(all, edges, w));
    InOrderMembers(Class(all, edges, v));
    InOrderMembers(Class(all, edges, w));
    ClassesAgree(all, edges, v, u);
    ClassesAgree(all, edges, w, u);
    assert gs[i] == gs[j];
  }

  /** The spans stand in the order of the document, none twice. */
  ghost predicate InDocumentOrder(g: Group)
  {
    forall k, l :: 0 <= k < l < |g| ==>
      g[k] != g[l] && (g[k].start < g[l].start || (g[k].start == g[l].start && g[k].end <= g[l].end))
  }

  ghost predicate StartsNoLater(g: Group, h: Group)
  {
    g != [] && h != [] && g[0].start <= h[0].start
  }

  lemma ClassInOrder(part: set<Node>)
    ensures InDocumentOrder(InOrder(part))
  {
    var g := InOrder(part);
    SortSorts(Listing(part), SpanKey);
    assert NodeSet(g) == part && |g| == |part|;
    CountDistinct(g);
    forall k, l | 0 <= k < l < |g| ensures Le(SpanKey(g[k]), SpanKey(g[l])) {
    }
  }

  lemma FirstsInOrder(gs: seq<Group>, i: nat, j: nat)
    requires i < j < |gs| && Sorted(gs, GroupKey) && gs[i] != [] && gs[j] != []
    ensures StartsNoLater(gs[i], gs[j])
  {
    assert Le(GroupKey(gs[i]), GroupKey(gs[j]));
  }

  /** Groups stand in the order of their first spans, and so do the spans of a group. */
  lemma ComponentsInOrder(nodes: seq<Node>, edges: set<(Node, Node)>, i: nat)
    requires i < |Components(nodes, edges)|
    ensures InDocumentOrder(Components(nodes, edges)[i])
    ensures forall j :: i < j < |Components(nodes, edges)| ==>
      StartsNoLater(Components(nodes, edges)[i], Components(nodes, edges)[j])
  {
    var gs := Components(nodes, edges);
    SortSorts(ClassesUpTo(nodes, edges, |nodes|), GroupKey);
    ClassesSound(nodes, edges, |nodes|, gs[i]);
    var w :| w in nodes && gs[i] == InOrder(Class(NodeSet(nodes), edges, w));
    ClassInOrder(Class(NodeSet(nodes), edges, w));
    forall j: nat | i < j < |gs| ensures StartsNoLater(gs[i], gs[j]) {
      ComponentsNonEmpty(nodes, edges, gs[i]);
      ComponentsNonEmpty(nodes, edges, gs[j]);
      FirstsInOrder(gs, i, j);
    }
  }
}
