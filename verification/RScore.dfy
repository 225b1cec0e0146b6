/** app/bench/rscore.py, `score_document`: the R-Score of one document.

    `ScoreOf` defines the score from sets alone: the characters the predictions
    cover and the contextual spans they strike.
 */
module RScore {
  import opened Annotation
  import opened Sorting
  import opened Runs
  import opened Graph
  import opened Combinators
  import opened Pairs
  import opened Structure
  import opened Fusion

  const GAP_THRESHOLD := 3

  datatype Kind = MandatoryEntity | ContextualOptional | ContextualPenalty
  datatype EntityScore = EntityScore(index: nat, kind: Kind, n: real, d: real, active: seq<LabelledSpan>)
  datatype FPScore = FPScore(index: nat, n: real, d: real, coversEntireGap: bool)
  datatype RDocument = RDocument(
    mandatory: seq<EntityScore>, contextual: seq<EntityScore>, falsePositives: seq<FPScore>,
    skippedContextual: nat, n: real, d: real, rScore: real)

  // ----- the score as a function of sets -----

  ghost function TotalShare(spans: seq<LabelledSpan>, cover: set<int>): (r: real)
  {
    if spans == [] then 0.0 else TotalShare(spans[..|spans| - 1], cover) + Share(spans[|spans| - 1], cover)
  }

  ghost function MeanShare(spans: seq<LabelledSpan>, cover: set<int>): (r: real)
    requires spans != []
  {
    TotalShare(spans, cover) / |spans| as real
  }

  ghost function MandatoryScores(groups: seq<Group>, cover: set<int>): (r: seq<EntityScore>)
  {
    if groups == [] then [] else
      var k := |groups| - 1;
      MandatoryScores(groups[..k], cover)
      + if groups[k] == [] then [] else [EntityScore(k, MandatoryEntity, MeanShare(groups[k], cover), 1.0, [])]
  }

  function Active(g: Group, selected: set<Node>): (r: Group)
  {
    Filter(g, (m: Node) => m in selected)
  }

  ghost function ContextualScore(k: nat, active: Group, optional: bool, cover: set<int>): (r: EntityScore)
    requires active != []
  {
    if optional then EntityScore(k, ContextualOptional, MeanShare(active, cover), 1.0, active)
    else EntityScore(k, ContextualPenalty, 0.0, 1.0 - MeanShare(active, cover), active)
  }

  /** The score of group `k`, if it is attempted. */
  ghost function GroupScore(k: nat, active: Group, optional: bool, cover: set<int>): (r: seq<EntityScore>)
    ensures |r| <= 1 && (r == [] <==> active == []) && forall s :: s in r ==> s.index == k
  {
    if active == [] then [] else [ContextualScore(k, active, optional, cover)]
  }

  ghost function ContextualScores(groups: seq<Group>, selected: set<Node>, optional: bool, cover: set<int>)
    : (r: seq<EntityScore>)
  {
    if groups == [] then [] else
      var k := |groups| - 1;
      ContextualScores(groups[..k], selected, optional, cover)
      + GroupScore(k, Active(groups[k], selected), optional, cover)
  }

  predicate CoversGap(fp: Run, gaps: seq<Run>)
  {
    exists g :: g in gaps && fp.start <= g.start && fp.end >= g.end
  }

  function LargeGaps(gaps: seq<Run>): (r: seq<Run>)
  {
    Filter(gaps, (g: Run) => g.end - g.start >= GAP_THRESHOLD)
  }

  function FPScores(fps: seq<Run>, gaps: seq<Run>): (r: seq<FPScore>)
    ensures |r| == |fps|
  {
    seq(|fps|, i requires 0 <= i < |fps| =>
      FPScore(i, 0.0, if CoversGap(fps[i], gaps) then 2.0 else 1.0, CoversGap(fps[i], gaps)))
  }

  function SumN(scores: seq<EntityScore>): (r: real)
  {
    if scores == [] then 0.0 else SumN(scores[..|scores| - 1]) + scores[|scores| - 1].n
  }

  function SumD(scores: seq<EntityScore>): (r: real)
  {
    if scores == [] then 0.0 else SumD(scores[..|scores| - 1]) + scores[|scores| - 1].d
  }

  function SumFP(scores: seq<FPScore>): (r: real)
  {
    if scores == [] then 0.0 else SumFP(scores[..|scores| - 1]) + scores[|scores| - 1].d
  }

  function Document(red: seq<EntityScore>, contextual: seq<EntityScore>, fps: seq<FPScore>, skipped: nat)
    : (r: RDocument)
  {
    var n, d := SumN(red) + SumN(contextual), SumD(red) + SumD(contextual) + SumFP(fps);
    RDocument(red, contextual, fps, skipped, n, d, if d > 0.0 then n / d else 0.0)
  }

  function MandatoryOf(annotation: seq<LabelledSpan>): (r: seq<LabelledSpan>)
  {
    Filter(annotation, (s: LabelledSpan) => s.category.Mandatory?)
  }

  function ContextualSpansOf(annotation: seq<LabelledSpan>): (r: seq<LabelledSpan>)
  {
    Filter(annotation, (s: LabelledSpan) => s.category.Contextual?)
  }

  ghost function FalsePositives(annotation: seq<LabelledSpan>, n: nat, cover: set<int>): (r: seq<Run>)
  {
    RunsOf(cover - Cover(annotation, n), 0, n)
  }

  ghost function Gaps(annotation: seq<LabelledSpan>, n: nat): (r: seq<Run>)
  {
    RunsOf(Range(0, n) - Cover(annotation, n), 0, n)
  }

  ghost function AnnotationStructure(text: string, annotation: seq<LabelledSpan>): (r: ConnectorStructure)
  {
    StructureOf(text, MandatoryOf(annotation), ContextualSpansOf(annotation))
  }

  ghost function EntitiesOf(text: string, annotation: seq<LabelledSpan>): (r: seq<Group>)
  {
    ContextualEntities(ContextualSpansOf(annotation), AnnotationStructure(text, annotation), text)
  }

  /** What a document is scored against: its annotated spans, its length, and the
      structure and entities that Algorithms 1 and 2 find in it. */
  datatype Reference = Reference(
    annotation: seq<LabelledSpan>, n: nat, structure: ConnectorStructure, entities: seq<Group>)
  {
    function Mandatory(): (r: seq<LabelledSpan>) { MandatoryOf(annotation) }

    function Contextual(): (r: seq<LabelledSpan>) { ContextualSpansOf(annotation) }

    /** Without mandatory spans the contextual ones are a gain. */
    predicate Optional() { Mandatory() == [] && Contextual() != [] }
  }

  ghost function ReferenceOf(text: string, annotation: seq<LabelledSpan>): (ref: Reference)
  {
    Reference(annotation, |text|, AnnotationStructure(text, annotation), EntitiesOf(text, annotation))
  }

  ghost function Attempted(ref: Reference, hits: set<Node>): (r: set<Node>)
  {
    Selected(ref.Contextual(), ref.structure, hits)
  }

  /** The entities that no prediction attempts. */
  function Skipped(groups: seq<Group>, selected: set<Node>): (n: nat)
  {
    |Filter(groups, (g: Group) => Active(g, selected) == [])|
  }

  ghost function ScoreOfTerms(red: seq<Group>, entities: seq<Group>, selected: set<Node>, optional: bool,
                              fps: seq<FPScore>, cover: set<int>): (r: RDocument)
  {
    Document(MandatoryScores(red, cover), ContextualScores(entities, selected, optional, cover), fps,
             Skipped(entities, selected))
  }

  ghost function ScoreOf(ref: Reference, hits: set<Node>, cover: set<int>): (r: RDocument)
  {
    ScoreOfTerms(
      ref.structure.redFusionGroups, ref.entities, Attempted(ref, hits), ref.Optional(),
      FPScores(FalsePositives(ref.annotation, ref.n, cover), LargeGaps(Gaps(ref.annotation, ref.n))), cover)
  }

  ghost function ScoreOfPredictions(ref: Reference, preds: seq<LabelledSpan>): (r: RDocument)
  {
    ScoreOf(ref, Hits(ref.Contextual(), preds), Cover(preds, ref.n))
  }

  // ----- the implementation -----

  method MeanCoverage(spans: seq<LabelledSpan>, predRuns: seq<Run>, ghost cover: set<int>) returns (r: real)
    requires spans != [] && Represents(predRuns, cover)
    ensures r == MeanShare(spans, cover)
  {
    var total := 0.0;
    for i := 0 to |spans|
      invariant total == TotalShare(spans[..i], cover)
    {
      assert spans[..i + 1][..i] == spans[..i];
      var c := Coverage(spans[i], predRuns);
      total := total + c;
    }
    assert spans[..|spans|] == spans;
    r := total / |spans| as real;
  }

  method ScoreMandatory(groups: seq<Group>, predRuns: seq<Run>, ghost cover: set<int>)
    returns (scores: seq<EntityScore>)
    requires Represents(predRuns, cover)
    ensures scores == MandatoryScores(groups, cover)
  {
    scores := [];
    for idx := 0 to |groups|
      invariant scores == MandatoryScores(groups[..idx], cover)
    {
      assert groups[..idx + 1][..idx] == groups[..idx];
      if groups[idx] == [] {
        continue;
      }
      var cov := MeanCoverage(groups[idx], predRuns, cover);
      scores := scores + [EntityScore(idx, MandatoryEntity, cov, 1.0, [])];
    }
    assert groups[..|groups|] == groups;
  }

  method ScoreGroup(idx: nat, active: Group, allActive: bool, predRuns: seq<Run>, ghost cover: set<int>)
    returns (score: EntityScore)
    requires active != [] && Represents(predRuns, cover)
    ensures score == ContextualScore(idx, active, allActive, cover)
  {
    var cov := MeanCoverage(active, predRuns, cover);
    if allActive {
      score := EntityScore(idx, ContextualOptional, cov, 1.0, active);
    } else {
      score := EntityScore(idx, ContextualPenalty, 0.0, 1.0 - cov, active);
    }
  }

  lemma ContextualStep(groups: seq<Group>, k: nat, selected: set<Node>, optional: bool, cover: set<int>)
    requires k < |groups|
    ensures ContextualScores(groups[..k + 1], selected, optional, cover)
         == ContextualScores(groups[..k], selected, optional, cover)
            + GroupScore(k, Active(groups[k], selected), optional, cover)
    ensures Skipped(groups[..k + 1], selected)
         == Skipped(groups[..k], selected) + if Active(groups[k], selected) == [] then 1 else 0
  {
    assert groups[..k + 1][..k] == groups[..k];
    assert groups[..k + 1] == groups[..k] + [groups[k]];
    FilterSnoc(groups[..k], groups[k], (g: Group) => Active(g, selected) == []);
  }

  method ScoreContextual(groups: seq<Group>, selected: set<Node>, allActive: bool, predRuns: seq<Run>,
                         ghost cover: set<int>)
    returns (scores: seq<EntityScore>, skipped: nat)
    requires Represents(predRuns, cover)
    ensures scores == ContextualScores(groups, selected, allActive, cover)
    ensures skipped == Skipped(groups, selected)
  {
    scores, skipped := [], 0;
    for idx := 0 to |groups|
      invariant scores == ContextualScores(groups[..idx], selected, allActive, cover)
      invariant skipped == Skipped(groups[..idx], selected)
    {
      ContextualStep(groups, idx, selected, allActive, cover);
      var active := Active(groups[idx], selected);
      if active == [] {
        skipped := skipped + 1;
        continue;
      }
      var score := ScoreGroup(idx, active, allActive, predRuns, cover);
      scores := scores + [score];
    }
    assert groups[..|groups|] == groups;
  }

  /** The runs that the code computes are those of the sets. */
  method ScoreFalsePositives(annotation: seq<LabelledSpan>, textLen: nat, predRuns: seq<Run>, ghost cover: set<int>)
    returns (scores: seq<FPScore>)
    requires Represents(predRuns, cover) && cover <= Range(0, textLen)
    ensures scores == FPScores(FalsePositives(annotation, textLen, cover), LargeGaps(Gaps(annotation, textLen)))
  {
    var support := PredictionChars(annotation, textLen);
    ghost var covered := Cover(annotation, textLen);
    var fpRuns := FalsePositiveRuns(predRuns, support, textLen);
    RepresentsUnique(fpRuns, cover - covered, textLen);
    forall i | 0 <= i < |support| ensures 0 <= support[i].start && support[i].end <= textLen {
      IndexIn(support[i].start, support, i);
      IndexIn(support[i].end - 1, support, i);
    }
    var gaps := GapRuns(support, textLen);
    RepresentsUnique(gaps, Range(0, textLen) - covered, textLen);
    scores := FPScores(fpRuns, LargeGaps(gaps));
  }

  lemma PartsOfAnnotation(annotation: seq<LabelledSpan>)
    ensures forall s :: s in MandatoryOf(annotation) <==> s in annotation && s.category.Mandatory?
    ensures forall s :: s in ContextualSpansOf(annotation) <==> s in annotation && s.category.Contextual?
    ensures PlacesDistinct(MandatoryOf(annotation)) && PlacesDistinct(ContextualSpansOf(annotation))
  {
    FilterMembers(annotation, (s: LabelledSpan) => s.category.Mandatory?);
    FilterMembers(annotation, (s: LabelledSpan) => s.category.Contextual?);
  }

  lemma StructureKnown(text: string, red: seq<Node>, yellow: seq<Node>)
    ensures Known(yellow, StructureOf(text, red, yellow))
  {
    var ordered := SortBy(red + yellow, SpanKey);
    forall g, m | g in StructureOf(text, red, yellow).contextComponents && m in g ensures m in yellow {
      ComponentsNonEmpty(yellow, YellowEdges(ordered, text, LastPair(ordered)), g);
    }
  }

  /** Algorithms 1 and 2: the entities of a document, and the contextual spans that
      the predictions attempt. */
  method FindEntities(text: string, annotation: seq<LabelledSpan>, predictions: seq<LabelledSpan>)
    returns (entities: FusedEntities, selected: set<Node>)
    requires InText(annotation, text)
    ensures entities.redEntities == AnnotationStructure(text, annotation).redFusionGroups
    ensures entities.contextualEntities == EntitiesOf(text, annotation)
    ensures selected == Attempted(ReferenceOf(text, annotation), Hits(ContextualSpansOf(annotation), predictions))
  {
    PartsOfAnnotation(annotation);
    var mandatory := MandatoryOf(annotation);
    var contextual := ContextualSpansOf(annotation);
    StructureKnown(text, mandatory, contextual);
    var structure := BuildConnectorStructure(text, mandatory, contextual);
    assert structure == AnnotationStructure(text, annotation);
    selected := SelectedContextualSpans(contextual, predictions, structure);
    entities := FusedEntityGroups(contextual, structure, text);
  }

  /** `score_document` computes the score from sets, against a coherent reference. */
  method ScoreDocument(text: string, annotation: seq<LabelledSpan>, predictions: seq<LabelledSpan>)
    returns (doc: RDocument)
    requires InText(annotation, text)
    ensures Coherent(ReferenceOf(text, annotation))
    ensures doc == ScoreOfPredictions(ReferenceOf(text, annotation), predictions)
  {
    ReferenceIsCoherent(text, annotation);
    ghost var cover := Cover(predictions, |text|);
    var predRuns := PredictionChars(predictions, |text|);
    var entities, selected := FindEntities(text, annotation, predictions);
    var redScores := ScoreMandatory(entities.redEntities, predRuns, cover);
    var allActive := MandatoryOf(annotation) == [] && ContextualSpansOf(annotation) != [];
    var contextualScores, skipped := ScoreContextual(entities.contextualEntities, selected, allActive, predRuns, cover);
    var fpScores := ScoreFalsePositives(annotation, |text|, predRuns, cover);
    doc := Document(redScores, contextualScores, fpScores, skipped);
    assert doc == ScoreOfTerms(entities.redEntities, entities.contextualEntities, selected, allActive, fpScores, cover);
  }

  // ----- references -----

  ghost predicate NonEmptySpans(spans: seq<LabelledSpan>)
  {
    forall s :: s in spans ==> s.start < s.end
  }

  ghost predicate GroupsNonEmptySpans(groups: seq<Group>)
  {
    forall g :: g in groups ==> NonEmptySpans(g)
  }

  ghost predicate InSome(s: LabelledSpan, groups: seq<Group>)
  {
    exists g :: g in groups && s in g
  }

  /** The members of the groups are the spans of the list. */
  ghost predicate HoldExactly(groups: seq<Group>, spans: seq<LabelledSpan>)
  {
    && (forall g, s :: g in groups && s in g ==> s in spans)
    && (forall s :: s in spans ==> InSome(s, groups))
  }

  /** The annotation is in bounds, the red groups are non-empty and hold exactly the
      mandatory spans, and components and entities hold contextual ones. */
  ghost predicate Coherent(ref: Reference)
  {
    && (forall s :: s in ref.annotation ==> 0 <= s.start < s.end <= ref.n)
    && [] !in ref.structure.redFusionGroups
    && HoldExactly(ref.structure.redFusionGroups, ref.Mandatory())
    && (forall g, s :: g in ref.entities && s in g ==> s in ref.Contextual())
    && Known(ref.Contextual(), ref.structure)
  }

  lemma CoherentParts(ref: Reference, text: string)
    requires InText(ref.annotation, text) && ref.n == |text|
    requires [] !in ref.structure.redFusionGroups
    requires HoldExactly(ref.structure.redFusionGroups, ref.Mandatory())
    requires Known(ref.Contextual(), ref.structure)
    requires ref.entities == ContextualEntities(ref.Contextual(), ref.structure, text)
    ensures Coherent(ref)
  {
    EntitiesHoldContextual(ref.Contextual(), ref.structure, text);
  }

  /** Every document has one. */
  lemma ReferenceIsCoherent(text: string, annotation: seq<LabelledSpan>)
    requires InText(annotation, text)
    ensures Coherent(ReferenceOf(text, annotation))
  {
    StructureKnown(text, MandatoryOf(annotation), ContextualSpansOf(annotation));
    RedGroupsHoldMandatory(text, annotation);
    CoherentParts(ReferenceOf(text, annotation), text);
  }

  lemma EntitiesHoldContextual(yellow: seq<Node>, structure: ConnectorStructure, text: string)
    ensures forall g, s :: g in ContextualEntities(yellow, structure, text) && s in g ==> s in yellow
  {
    var links := FusionLinks(yellow, structure);
    var positions := MarkerPositions(yellow, structure.effectiveMarkers, text);
    FilterMembers(Components(yellow, links), g => KeepsGroup(g, positions));
    forall g | g in ContextualEntities(yellow, structure, text) ensures forall s :: s in g ==> s in yellow {
      ComponentsNonEmpty(yellow, links, g);
    }
  }

  lemma RedGroupsHoldMandatory(text: string, annotation: seq<LabelledSpan>)
    ensures var groups := AnnotationStructure(text, annotation).redFusionGroups;
      && [] !in groups
      && HoldExactly(groups, MandatoryOf(annotation))
  {
    var mandatory, contextual := MandatoryOf(annotation), ContextualSpansOf(annotation);
    var groups := AnnotationStructure(text, annotation).redFusionGroups;
    var ordered := SortBy(mandatory + contextual, SpanKey);
    var edges := RedEdgesOf(ordered, text, LastPair(ordered));
    forall g | g in groups ensures g != [] && forall s :: s in g ==> s in mandatory {
      ComponentsNonEmpty(mandatory, edges, g);
    }
    forall s | s in mandatory ensures InSome(s, groups) {
      RedGroupsPartition(text, mandatory, contextual, s);
    }
  }

  lemma CoherentSpans(ref: Reference)
    requires Coherent(ref)
    ensures GroupsNonEmptySpans(ref.structure.redFusionGroups) && GroupsNonEmptySpans(ref.entities)
    ensures forall y :: y in ref.Contextual() ==> 0 <= y.start < y.end <= ref.n
  {
    PartsOfAnnotation(ref.annotation);
    forall g, s | g in ref.structure.redFusionGroups && s in g ensures s.start < s.end {
      assert s in ref.Mandatory();
    }
  }

  // ----- the score depends on the covered characters only -----

  lemma {:induction false} IndicesBelow(groups: seq<Group>, selected: set<Node>, optional: bool, cover: set<int>)
    ensures forall s :: s in ContextualScores(groups, selected, optional, cover) ==> s.index < |groups|
  {
    if groups != [] {
      IndicesBelow(groups[..|groups| - 1], selected, optional, cover);
    }
  }

  lemma GroupScoreShows(n: nat, x: Group, y: Group, optional: bool, cover: set<int>)
    ensures GroupScore(n, x, optional, cover) == GroupScore(n, y, optional, cover) <==> x == y
  {
    if x != [] && y != [] {
      var a, b := ContextualScore(n, x, optional, cover), ContextualScore(n, y, optional, cover);
      assert [a][0] == a && [b][0] == b && a.active == x && b.active == y;
    }
  }

  lemma SameActiveSnoc(groups: seq<Group>, n: nat, a: set<Node>, b: set<Node>)
    requires |groups| == n + 1
    ensures SameActive(groups, a, b) <==> SameActive(groups[..n], a, b) && Active(groups[n], a) == Active(groups[n], b)
  {
  }

  ghost predicate SameActive(groups: seq<Group>, a: set<Node>, b: set<Node>)
  {
    forall k :: 0 <= k < |groups| ==> Active(groups[k], a) == Active(groups[k], b)
  }

  /** The contextual scores show the attempted members of every group. */
  lemma {:induction false} ScoresShowActive(groups: seq<Group>, a: set<Node>, b: set<Node>, optional: bool,
                                            cover: set<int>)
    ensures ContextualScores(groups, a, optional, cover) == ContextualScores(groups, b, optional, cover)
        <==> SameActive(groups, a, b)
  {
    if groups != [] {
      var n := |groups| - 1;
      var init, x, y := groups[..n], Active(groups[n], a), Active(groups[n], b);
      ScoresShowActive(init, a, b, optional, cover);
      IndicesBelow(init, a, optional, cover);
      IndicesBelow(init, b, optional, cover);
      LastScores(ContextualScores(init, a, optional, cover), ContextualScores(init, b, optional, cover),
                 GroupScore(n, x, optional, cover), GroupScore(n, y, optional, cover), n);
      GroupScoreShows(n, x, y, optional, cover);
      SameActiveSnoc(groups, n, a, b);
    }
  }

  /** Two lists of scores below index `n`, each with at most one score at `n`. */
  lemma LastScores(sa: seq<EntityScore>, sb: seq<EntityScore>, la: seq<EntityScore>, lb: seq<EntityScore>, n: nat)
    requires forall s :: s in sa || s in sb ==> s.index < n
    requires |la| <= 1 && |lb| <= 1 && forall s :: s in la || s in lb ==> s.index == n
    ensures sa + la == sb + lb <==> sa == sb && la == lb
  {
    assert la != [] ==> la[0] in sa + la;
    assert lb != [] ==> lb[0] in sb + lb;
    assert sa == (sa + la)[..|sa|] && la == (sa + la)[|sa|..];
    assert sb == (sb + lb)[..|sb|] && lb == (sb + lb)[|sb|..];
  }

  lemma ActiveAgree(g: Group, a: set<Node>, b: set<Node>)
    ensures Active(g, a) == Active(g, b) <==> forall m :: m in g ==> (m in a <==> m in b)
  {
    ActiveMembers(g, a);
    ActiveMembers(g, b);
    if forall m :: m in g ==> (m in a <==> m in b) {
      FilterSame(g, a, b);
    } else {
      var m :| m in g && !(m in a <==> m in b);
      assert m in Active(g, a) <==> m !in Active(g, b);
    }
  }

  lemma {:induction false} FilterSame(g: Group, a: set<Node>, b: set<Node>)
    requires forall m :: m in g ==> (m in a <==> m in b)
    ensures Active(g, a) == Active(g, b)
  {
    if g != [] {
      assert g[0] in g;
      FilterSame(g[1..], a, b);
    }
  }

  /** The same entity members are attempted. */
  ghost predicate SameAttempts(ref: Reference, a: set<Node>, b: set<Node>)
  {
    forall g, m :: g in ref.entities && m in g ==> (m in Attempted(ref, a) <==> m in Attempted(ref, b))
  }

  lemma SameSkipped(groups: seq<Group>, a: set<Node>, b: set<Node>)
    requires SameActive(groups, a, b)
    ensures Skipped(groups, a) == Skipped(groups, b)
  {
    if groups != [] {
      SameSkipped(groups[1..], a, b);
    }
  }

  lemma GroupsShowAttempts(groups: seq<Group>, sa: set<Node>, sb: set<Node>)
    ensures SameActive(groups, sa, sb) <==> forall g, m :: g in groups && m in g ==> (m in sa <==> m in sb)
  {
    forall k | 0 <= k < |groups|
      ensures Active(groups[k], sa) == Active(groups[k], sb) <==> forall m :: m in groups[k] ==> (m in sa <==> m in sb)
    {
      ActiveAgree(groups[k], sa, sb);
    }
    if SameActive(groups, sa, sb) {
      forall g, m | g in groups && m in g ensures m in sa <==> m in sb {
        var k :| 0 <= k < |groups| && groups[k] == g;
      }
    }
  }

  /** Which documents differ: the cover being the same, exactly those with other
      attempted entity members. */
  lemma DocumentShowsAttempts(ref: Reference, a: set<Node>, b: set<Node>, cover: set<int>)
    ensures ScoreOf(ref, a, cover) == ScoreOf(ref, b, cover) <==> SameAttempts(ref, a, b)
  {
    var sa, sb := Attempted(ref, a), Attempted(ref, b);
    GroupsShowAttempts(ref.entities, sa, sb);
    ScoresShowActive(ref.entities, sa, sb, ref.Optional(), cover);
    if SameAttempts(ref, a, b) {
      SameSkipped(ref.entities, sa, sb);
    }
  }

  /** The empty predictions of both lists lie strictly inside the same uncovered
      contextual spans. */
  ghost predicate SameEmptyStrikes(ref: Reference, p: seq<LabelledSpan>, q: seq<LabelledSpan>)
  {
    forall y :: y in ref.Contextual() && SpanChars(y) * Cover(p, ref.n) == {} ==>
      (EmptyStrike(y, p) <==> EmptyStrike(y, q))
  }

  /** Predictions that cover the same characters of the text get the same entities,
      false positives and score, however they are cut, if and only if they attempt
      the same entity members.  They hit the same spans if and only if their empty
      ones lie strictly inside the same uncovered contextual spans, so always
      without empty ones. */
  lemma ScoreDependsOnCover(ref: Reference, p: seq<LabelledSpan>, q: seq<LabelledSpan>)
    requires Coherent(ref)
    requires forall s :: s in p || s in q ==> s.start <= s.end
    requires Cover(p, ref.n) == Cover(q, ref.n)
    ensures var a, b := Hits(ref.Contextual(), p), Hits(ref.Contextual(), q);
      && (ScoreOfPredictions(ref, p) == ScoreOfPredictions(ref, q) <==> SameAttempts(ref, a, b))
      && (a == b <==> SameEmptyStrikes(ref, p, q))
      && (a == b ==> ScoreOfPredictions(ref, p) == ScoreOfPredictions(ref, q))
      && ((forall s :: s in p || s in q ==> s.start < s.end) ==> a == b)
  {
    var contextual := ref.Contextual();
    CoherentSpans(ref);
    DocumentShowsAttempts(ref, Hits(contextual, p), Hits(contextual, q), Cover(p, ref.n));
    forall y | y in contextual
      ensures (y in Hits(contextual, p) <==> y in Hits(contextual, q))
          <==> (SpanChars(y) * Cover(p, ref.n) == {} ==> (EmptyStrike(y, p) <==> EmptyStrike(y, q)))
    {
      StruckIsCovered(y, p, ref.n);
      StruckIsCovered(y, q, ref.n);
    }
  }

  /** Every contextual span longer than one character is a member of an entity. */
  ghost predicate LongSpansCount(ref: Reference)
  {
    forall y :: y in ref.Contextual() && y.end - y.start > 1 ==> InSome(y, ref.entities)
  }

  predicate DistinctStarts(spans: seq<LabelledSpan>)
  {
    forall y, z :: y in spans && z in spans && y.start == z.start ==> y == z
  }

  /** No prediction ends before it starts. */
  predicate Upright(preds: seq<LabelledSpan>)
  {
    forall p :: p in preds ==> p.start <= p.end
  }

  /** It holds when contextual spans start at different places, since only a span of
      one character can mark a place. */
  lemma DistinctStartsCount(text: string, annotation: seq<LabelledSpan>)
    requires DistinctStarts(ContextualSpansOf(annotation))
    ensures LongSpansCount(ReferenceOf(text, annotation))
  {
    var ref := ReferenceOf(text, annotation);
    forall y | y in ref.Contextual() && y.end - y.start > 1 ensures InSome(y, ref.entities) {
      UnmarkedSpanIsInEntity(ref.Contextual(), ref.structure, text, y);
    }
  }

  /** A span longer than one character that alone starts at its place is not taken
      for a marker. */
  lemma UnmarkedSpanIsInEntity(yellow: seq<Node>, structure: ConnectorStructure, text: string, y: LabelledSpan)
    requires y in yellow && y.end - y.start > 1 && forall z :: z in yellow && z.start == y.start ==> z == y
    ensures InSome(y, ContextualEntities(yellow, structure, text))
  {
    EntitiesPartition(yellow, structure, text, y);
  }

  /** When does one empty prediction change the document?  If and only if it lies
      strictly inside a contextual span that is not attempted without it. */
  lemma EmptyPredictionShows(ref: Reference, preds: seq<LabelledSpan>, e: LabelledSpan)
    requires Coherent(ref) && LongSpansCount(ref)
    requires e.start == e.end && Upright(preds)
    ensures ScoreOfPredictions(ref, preds + [e]) != ScoreOfPredictions(ref, preds)
        <==> exists y :: y in ref.Contextual() && EmptyInside(e, y)
                && y !in Attempted(ref, Hits(ref.Contextual(), preds))
  {
    var before, after := Hits(ref.Contextual(), preds), Hits(ref.Contextual(), preds + [e]);
    CoherentSpans(ref);
    EmptyCoversNothing(preds, e, ref.n);
    EmptyPredictionAttempts(ref.Contextual(), ref.structure, preds, e);
    DocumentShowsAttempts(ref, after, before, Cover(preds, ref.n));
    if y :| y in ref.Contextual() && EmptyInside(e, y) && y !in Attempted(ref, before) {
      assert InSome(y, ref.entities);
      var g :| g in ref.entities && y in g;
      assert y in Attempted(ref, after);
    }
  }

  ghost predicate LongSpansAttempted(ref: Reference, preds: seq<LabelledSpan>)
  {
    forall y :: y in ref.Contextual() && y.end - y.start > 1 ==> y in Attempted(ref, Hits(ref.Contextual(), preds))
  }

  /** Predictions of the same cover as non-empty ones attempt no more, provided
      every longer contextual span is attempted anyway. */
  lemma SameCoverAttempts(ref: Reference, preds: seq<LabelledSpan>, q: seq<LabelledSpan>)
    requires Coherent(ref) && forall p :: p in preds ==> p.start < p.end
    requires Upright(q) && Cover(q, ref.n) == Cover(preds, ref.n)
    requires LongSpansAttempted(ref, preds)
    ensures Attempted(ref, Hits(ref.Contextual(), q)) == Attempted(ref, Hits(ref.Contextual(), preds))
  {
    var contextual := ref.Contextual();
    var hits, more := Hits(contextual, preds), Hits(contextual, q);
    CoherentSpans(ref);
    SelectedIsLeast(contextual, ref.structure, hits, Attempted(ref, more));
    forall y | y in contextual
      ensures y in hits ==> y in more
      ensures y in more ==> y in Attempted(ref, hits)
    {
      StruckIsCovered(y, preds, ref.n);
      StruckIsCovered(y, q, ref.n);
      assert !EmptyStrike(y, preds);
      if y in more && y !in hits {
        var p :| p in q && EmptyInside(p, y);
      }
    }
    assert hits <= more;
    SelectedIsLeast(contextual, ref.structure, more, Attempted(ref, hits));
  }

  /** When is the document a function of the covered characters?  For non-empty
      predictions, all lists of the same cover get their document if and only if
      they attempt every contextual span longer than one character. */
  lemma CoverDecidesIffAllAttempted(ref: Reference, preds: seq<LabelledSpan>)
    requires Coherent(ref) && LongSpansCount(ref) && forall p :: p in preds ==> p.start < p.end
    ensures (forall q :: Upright(q) && Cover(q, ref.n) == Cover(preds, ref.n)
                ==> ScoreOfPredictions(ref, q) == ScoreOfPredictions(ref, preds))
        <==> LongSpansAttempted(ref, preds)
  {
    if LongSpansAttempted(ref, preds) {
      forall q | Upright(q) && Cover(q, ref.n) == Cover(preds, ref.n)
        ensures ScoreOfPredictions(ref, q) == ScoreOfPredictions(ref, preds)
      {
        SameCoverAttempts(ref, preds, q);
        DocumentShowsAttempts(ref, Hits(ref.Contextual(), q), Hits(ref.Contextual(), preds), Cover(preds, ref.n));
      }
    } else {
      var q := OtherDocument(ref, preds);
    }
  }

  lemma OtherDocument(ref: Reference, preds: seq<LabelledSpan>) returns (q: seq<LabelledSpan>)
    requires Coherent(ref) && LongSpansCount(ref) && forall p :: p in preds ==> p.start < p.end
    requires !LongSpansAttempted(ref, preds)
    ensures Upright(q) && Cover(q, ref.n) == Cover(preds, ref.n)
    ensures ScoreOfPredictions(ref, q) != ScoreOfPredictions(ref, preds)
  {
    var y :| y in ref.Contextual() && y.end - y.start > 1 && y !in Attempted(ref, Hits(ref.Contextual(), preds));
    var e := LabelledSpan(y.start + 1, y.start + 1, Contextual);
    assert EmptyInside(e, y);
    EmptyPredictionShows(ref, preds, e);
    EmptyCoversNothing(preds, e, ref.n);
    q := preds + [e];
  }

  // ----- false positives and gaps -----

  /** A false positive lies inside one gap, and weighs 2 exactly when it is that
      whole gap and the gap has at least three characters. */
  lemma WholeGapsWeighDouble(annotation: seq<LabelledSpan>, n: nat, cover: set<int>, i: nat)
    requires cover <= Range(0, n) && i < |FalsePositives(annotation, n, cover)|
    ensures var fp, gaps := FalsePositives(annotation, n, cover)[i], Gaps(annotation, n);
            var score := FPScores(FalsePositives(annotation, n, cover), LargeGaps(gaps))[i];
      && (exists g :: g in gaps && g.start <= fp.start && fp.end <= g.end)
      && (score.d == 2.0 <==> fp in gaps && fp.end - fp.start >= GAP_THRESHOLD)
      && (score.d == 2.0 || score.d == 1.0)
  {
    var fps, gaps := FalsePositives(annotation, n, cover), Gaps(annotation, n);
    var fp := fps[i];
    RunsOfRepresents(cover - Cover(annotation, n), 0, n);
    RunsOfRepresents(Range(0, n) - Cover(annotation, n), 0, n);
    forall p | fp.start <= p < fp.end ensures In(p, gaps) {
      IndexIn(p, fps, i);
    }
    var j := RunInsideRun(fp, gaps);
    FilterMembers(gaps, (g: Run) => g.end - g.start >= GAP_THRESHOLD);
    if CoversGap(fp, LargeGaps(gaps)) {
      var g :| g in LargeGaps(gaps) && fp.start <= g.start && fp.end >= g.end;
      var k :| 0 <= k < |gaps| && gaps[k] == g;
      NestedRunsAreOne(gaps, j, k);
      assert g == gaps[j] == fp;
    }
  }

  lemma NestedRunsAreOne(runs: seq<Run>, j: nat, k: nat)
    requires Canonical(runs) && j < |runs| && k < |runs|
    requires runs[j].start <= runs[k].start && runs[k].end <= runs[j].end
    ensures j == k
  {
  }

  lemma EndIsOutside(runs: seq<Run>, j: nat, k: nat)
    requires Canonical(runs) && j < |runs| && k < |runs|
    ensures !(runs[k].start <= runs[j].end < runs[k].end)
  {
  }

  /** An interval covered by canonical runs lies inside one of them. */
  lemma RunInsideRun(r: Run, runs: seq<Run>) returns (j: nat)
    requires Canonical(runs) && r.start < r.end
    requires forall p :: r.start <= p < r.end ==> In(p, runs)
    ensures j < |runs| && runs[j].start <= r.start && r.end <= runs[j].end
  {
    j := InIndex(r.start, runs);
    if runs[j].end < r.end {
      assert In(runs[j].end, runs);
      var k := InIndex(runs[j].end, runs);
      EndIsOutside(runs, j, k);
    }
  }

  // ----- bounds, and when the score is perfect -----

  ghost predicate AllCovered(spans: seq<LabelledSpan>, cover: set<int>)
  {
    forall s :: s in spans ==> SpanChars(s) <= cover
  }

  lemma {:induction false} TotalShareBounds(spans: seq<LabelledSpan>, cover: set<int>)
    requires NonEmptySpans(spans)
    ensures 0.0 <= TotalShare(spans, cover) <= |spans| as real
    ensures TotalShare(spans, cover) == |spans| as real <==> AllCovered(spans, cover)
  {
    if spans != [] {
      var init, last := spans[..|spans| - 1], spans[|spans| - 1];
      assert spans == init + [last];
      TotalShareBounds(init, cover);
      assert last in spans;
      ShareBounds(last, cover);
    }
  }

  lemma RatioFacts(n: real, d: real)
    requires 0.0 <= n <= d && d > 0.0
    ensures 0.0 <= n / d <= 1.0
    ensures n / d == 1.0 <==> n == d
  {
    var q := n / d;
    assert q * d == n;
    assert q > 1.0 ==> q * d > d;
    assert q < 0.0 ==> q * d < 0.0;
  }

  lemma MeanShareBounds(spans: seq<LabelledSpan>, cover: set<int>)
    requires spans != [] && NonEmptySpans(spans)
    ensures 0.0 <= MeanShare(spans, cover) <= 1.0
    ensures MeanShare(spans, cover) == 1.0 <==> AllCovered(spans, cover)
  {
    TotalShareBounds(spans, cover);
    RatioFacts(TotalShare(spans, cover), |spans| as real);
  }

  lemma {:induction false} MandatoryLoss(groups: seq<Group>, cover: set<int>)
    requires GroupsNonEmptySpans(groups) && [] !in groups
    ensures var scores := MandatoryScores(groups, cover);
      && |scores| == |groups| && SumD(scores) == |groups| as real
      && 0.0 <= SumN(scores) <= SumD(scores)
      && (SumN(scores) == SumD(scores) <==> forall g :: g in groups ==> AllCovered(g, cover))
  {
    if groups != [] {
      var init, last := groups[..|groups| - 1], groups[|groups| - 1];
      assert groups == init + [last];
      assert last in groups;
      MandatoryLoss(init, cover);
      MeanShareBounds(last, cover);
      SumSnoc(MandatoryScores(init, cover), EntityScore(|init|, MandatoryEntity, MeanShare(last, cover), 1.0, []));
    }
  }

  lemma ActiveMembers(g: Group, selected: set<Node>)
    ensures forall m :: m in Active(g, selected) <==> m in g && m in selected
    ensures Active(g, selected) == [] <==> forall m :: m in g ==> m !in selected
  {
    FilterMembers(g, (m: Node) => m in selected);
    if Active(g, selected) != [] {
      assert Active(g, selected)[0] in Active(g, selected);
    }
  }

  lemma ActiveSnoc(g: Group, m: Node, selected: set<Node>)
    ensures Active(g + [m], selected) == Active(g, selected) + if m in selected then [m] else []
  {
    FilterSnoc(g, m, (m: Node) => m in selected);
  }

  ghost predicate ActiveCovered(g: Group, selected: set<Node>, cover: set<int>)
  {
    AllCovered(Active(g, selected), cover)
  }

  ghost predicate EveryActiveCovered(groups: seq<Group>, selected: set<Node>, cover: set<int>)
  {
    forall g :: g in groups ==> ActiveCovered(g, selected, cover)
  }

  lemma EverySnoc(groups: seq<Group>, g: Group, selected: set<Node>, cover: set<int>)
    ensures EveryActiveCovered(groups + [g], selected, cover)
        <==> EveryActiveCovered(groups, selected, cover) && ActiveCovered(g, selected, cover)
    ensures Active(g, selected) == [] ==> ActiveCovered(g, selected, cover)
  {
    assert forall h :: h in groups + [g] <==> h in groups || h == g;
  }

  lemma ContextualTerm(k: nat, active: Group, optional: bool, cover: set<int>)
    requires active != [] && NonEmptySpans(active)
    ensures var score := ContextualScore(k, active, optional, cover);
      && 0.0 <= score.n <= score.d
      && (!optional ==> score.n == 0.0) && (optional ==> score.d == 1.0)
      && (score.n == score.d <==> AllCovered(active, cover))
  {
    MeanShareBounds(active, cover);
  }

  lemma SumSnoc(scores: seq<EntityScore>, s: EntityScore)
    ensures SumN(scores + [s]) == SumN(scores) + s.n
    ensures SumD(scores + [s]) == SumD(scores) + s.d
  {
    assert (scores + [s])[..|scores|] == scores;
  }

  ghost predicate LossFacts(scores: seq<EntityScore>, optional: bool, perfect: bool)
  {
    && 0.0 <= SumN(scores) <= SumD(scores)
    && (!optional ==> SumN(scores) == 0.0)
    && (optional ==> SumD(scores) == |scores| as real)
    && (SumN(scores) == SumD(scores) <==> perfect)
  }

  lemma LossSnoc(scores: seq<EntityScore>, optional: bool, perfect: bool, k: nat, active: Group, cover: set<int>)
    requires LossFacts(scores, optional, perfect) && active != [] && NonEmptySpans(active)
    ensures LossFacts(scores + [ContextualScore(k, active, optional, cover)], optional,
                      perfect && AllCovered(active, cover))
  {
    ContextualTerm(k, active, optional, cover);
    SumSnoc(scores, ContextualScore(k, active, optional, cover));
  }

  lemma {:induction false} ContextualLoss(groups: seq<Group>, selected: set<Node>, optional: bool, cover: set<int>)
    requires GroupsNonEmptySpans(groups)
    ensures |ContextualScores(groups, selected, optional, cover)| <= |groups|
    ensures LossFacts(ContextualScores(groups, selected, optional, cover), optional,
                      EveryActiveCovered(groups, selected, cover))
  {
    if groups != [] {
      var k := |groups| - 1;
      var init, active := groups[..k], Active(groups[k], selected);
      assert groups == init + [groups[k]];
      assert groups[k] in groups;
      ContextualLoss(init, selected, optional, cover);
      EverySnoc(init, groups[k], selected, cover);
      ActiveMembers(groups[k], selected);
      if active != [] {
        LossSnoc(ContextualScores(init, selected, optional, cover), optional,
                 EveryActiveCovered(init, selected, cover), k, active, cover);
      } else {
        assert ContextualScores(groups, selected, optional, cover)
            == ContextualScores(init, selected, optional, cover);
      }
    }
  }

  lemma {:induction false} FPLoss(scores: seq<FPScore>)
    requires forall s :: s in scores ==> s.d >= 1.0
    ensures SumFP(scores) >= 0.0 && (SumFP(scores) == 0.0 <==> scores == [])
  {
    if scores != [] {
      assert scores[|scores| - 1] in scores;
      FPLoss(scores[..|scores| - 1]);
    }
  }

  ghost predicate NoneActive(groups: seq<Group>, selected: set<Node>)
  {
    forall g :: g in groups ==> Active(g, selected) == []
  }

  lemma NoneActiveSnoc(groups: seq<Group>, g: Group, selected: set<Node>)
    ensures NoneActive(groups + [g], selected) <==> NoneActive(groups, selected) && Active(g, selected) == []
  {
    assert forall x :: x in groups + [g] <==> x in groups || x == g;
  }

  lemma {:induction false} SomeActive(groups: seq<Group>, selected: set<Node>, optional: bool, cover: set<int>)
    ensures ContextualScores(groups, selected, optional, cover) == [] <==> NoneActive(groups, selected)
  {
    if groups != [] {
      var n := |groups| - 1;
      SomeActive(groups[..n], selected, optional, cover);
      NoneActiveSnoc(groups[..n], groups[n], selected);
      assert groups == groups[..n] + [groups[n]];
    }
  }

  /** Nothing is missed and nothing is wrong: every mandatory span and every
      attempted member of a contextual entity is covered, and every predicted
      character is support. */
  ghost predicate Flawless(ref: Reference, hits: set<Node>, cover: set<int>)
  {
    && AllCovered(ref.Mandatory(), cover)
    && (forall g, s :: g in ref.entities && s in g && s in Attempted(ref, hits) ==> SpanChars(s) <= cover)
    && cover <= Cover(ref.annotation, ref.n)
  }

  /** Some entity is scored. */
  ghost predicate Scored(ref: Reference, hits: set<Node>)
  {
    ref.Mandatory() != [] || SomeAttempted(ref.entities, Attempted(ref, hits))
  }

  lemma NoFalsePositives(annotation: seq<LabelledSpan>, n: nat, cover: set<int>)
    requires cover <= Range(0, n)
    ensures FalsePositives(annotation, n, cover) == [] <==> cover <= Cover(annotation, n)
  {
    var fps, rest := FalsePositives(annotation, n, cover), cover - Cover(annotation, n);
    RunsOfRepresents(rest, 0, n);
    if fps != [] {
      IndexIn(fps[0].start, fps, 0);
      assert fps[0].start in rest;
    } else {
      forall p | p in cover ensures p in Cover(annotation, n) {
        assert In(p, fps) <==> p in rest * Range(0, n);
        assert !In(p, fps);
      }
    }
  }

  /** What the sums of a document say, once no entity gains more than it weighs. */
  lemma DocumentFacts(red: seq<EntityScore>, contextual: seq<EntityScore>, fps: seq<FPScore>, skipped: nat)
    requires 0.0 <= SumN(red) <= SumD(red) && 0.0 <= SumN(contextual) <= SumD(contextual)
    requires forall s :: s in fps ==> s.d >= 1.0
    ensures var doc := Document(red, contextual, fps, skipped);
      && 0.0 <= doc.rScore <= 1.0
      && (doc.rScore == 1.0 <==>
            (SumD(red) > 0.0 || SumD(contextual) > 0.0)
            && SumN(red) == SumD(red) && SumN(contextual) == SumD(contextual) && fps == [])
  {
    FPLoss(fps);
    var doc := Document(red, contextual, fps, skipped);
    if doc.d > 0.0 {
      RatioFacts(doc.n, doc.d);
    }
  }

  /** `groups` hold exactly the spans of `all`, none of them being empty. */
  lemma GroupsCovered(groups: seq<Group>, all: seq<LabelledSpan>, cover: set<int>)
    requires [] !in groups && HoldExactly(groups, all)
    ensures (forall g :: g in groups ==> AllCovered(g, cover)) <==> AllCovered(all, cover)
    ensures groups == [] <==> all == []
  {
    if forall g :: g in groups ==> AllCovered(g, cover) {
      forall s | s in all ensures SpanChars(s) <= cover {
        assert InSome(s, groups);
        var g :| g in groups && s in g;
        assert AllCovered(g, cover);
      }
    }
    if groups != [] {
      assert groups[0] in groups && groups[0][0] in groups[0];
    }
    if all != [] {
      assert all[0] in all && InSome(all[0], groups);
    }
  }

  /** What is known of the mandatory scores. */
  lemma MandatoryFacts(ref: Reference, cover: set<int>)
    requires Coherent(ref)
    ensures var red := MandatoryScores(ref.structure.redFusionGroups, cover);
      && 0.0 <= SumN(red) <= SumD(red)
      && (SumN(red) == SumD(red) <==> AllCovered(ref.Mandatory(), cover))
      && (SumD(red) > 0.0 <==> ref.Mandatory() != [])
  {
    CoherentSpans(ref);
    MandatoryLoss(ref.structure.redFusionGroups, cover);
    GroupsCovered(ref.structure.redFusionGroups, ref.Mandatory(), cover);
  }

  ghost predicate SomeAttempted(entities: seq<Group>, selected: set<Node>)
  {
    exists g, s :: g in entities && s in g && s in selected
  }

  lemma ContextualFacts(entities: seq<Group>, selected: set<Node>, optional: bool, cover: set<int>)
    requires GroupsNonEmptySpans(entities)
    ensures var scores := ContextualScores(entities, selected, optional, cover);
      && 0.0 <= SumN(scores) <= SumD(scores)
      && (SumN(scores) == SumD(scores) <==>
            forall g, s :: g in entities && s in g && s in selected ==> SpanChars(s) <= cover)
      && (SumN(scores) == SumD(scores) && !optional ==> SumD(scores) == 0.0)
      && (optional ==> (SumD(scores) > 0.0 <==> SomeAttempted(entities, selected)))
  {
    var scores := ContextualScores(entities, selected, optional, cover);
    ContextualLoss(entities, selected, optional, cover);
    SomeActive(entities, selected, optional, cover);
    forall g | g in entities
      ensures ActiveCovered(g, selected, cover) <==> forall s :: s in g && s in selected ==> SpanChars(s) <= cover
      ensures Active(g, selected) == [] <==> forall s :: s in g ==> s !in selected
    {
      ActiveMembers(g, selected);
    }
    assert scores == [] <==> !SomeAttempted(entities, selected);
  }

  lemma FPWeights(annotation: seq<LabelledSpan>, n: nat, cover: set<int>)
    requires cover <= Range(0, n)
    ensures var fps := FPScores(FalsePositives(annotation, n, cover), LargeGaps(Gaps(annotation, n)));
      (forall s :: s in fps ==> s.d >= 1.0) && (fps == [] <==> cover <= Cover(annotation, n))
  {
    NoFalsePositives(annotation, n, cover);
  }

  /** The score lies in [0, 1], and is 1 exactly when some entity is scored and
      nothing is flawed.  A mandatory span in the document is always scored. */
  lemma PerfectScore(ref: Reference, hits: set<Node>, cover: set<int>)
    requires Coherent(ref) && cover <= Range(0, ref.n) && hits <= NodeSet(ref.Contextual())
    ensures 0.0 <= ScoreOf(ref, hits, cover).rScore <= 1.0
    ensures ScoreOf(ref, hits, cover).rScore == 1.0 <==> Scored(ref, hits) && Flawless(ref, hits, cover)
  {
    var selected := Attempted(ref, hits);
    CoherentSpans(ref);
    MandatoryFacts(ref, cover);
    ContextualFacts(ref.entities, selected, ref.Optional(), cover);
    FPWeights(ref.annotation, ref.n, cover);
    var red := MandatoryScores(ref.structure.redFusionGroups, cover);
    var scores := ContextualScores(ref.entities, selected, ref.Optional(), cover);
    var fps := FPScores(FalsePositives(ref.annotation, ref.n, cover), LargeGaps(Gaps(ref.annotation, ref.n)));
    DocumentFacts(red, scores, fps, Skipped(ref.entities, selected));
    assert ref.Contextual() == [] ==> !SomeAttempted(ref.entities, selected);
  }

  // ----- an empty prediction can change the score -----

  /** An empty prediction strictly inside an entity member that was not attempted
      costs a document its perfect score, although it covers nothing. */
  lemma EmptyPredictionSpoilsPerfect(ref: Reference, preds: seq<LabelledSpan>, e: LabelledSpan,
                                     g: Group, y: LabelledSpan)
    requires Coherent(ref) && forall p :: p in preds ==> p.start <= p.end
    requires g in ref.entities && y in g && EmptyInside(e, y)
    requires y !in Attempted(ref, Hits(ref.Contextual(), preds))
    ensures Cover(preds + [e], ref.n) == Cover(preds, ref.n)
    ensures ScoreOfPredictions(ref, preds + [e]).rScore < 1.0
  {
    CoherentSpans(ref);
    EmptyCoversNothing(preds, e, ref.n);
    EmptyIsAttempted(ref.Contextual(), ref.structure, preds, e, y, ref.n);
    assert y.start in SpanChars(y);
    PerfectScore(ref, Hits(ref.Contextual(), preds + [e]), Cover(preds, ref.n));
  }

  /** Predicting exactly the only mandatory span, away from the only contextual one,
      is perfect, and does not attempt the other. */
  lemma PerfectWithoutContextual(ref: Reference, r: LabelledSpan, y: LabelledSpan)
    requires Coherent(ref) && ref.annotation == [r, y]
    requires r.category.Mandatory? && y.category.Contextual? && r.end < y.start
    ensures y !in Attempted(ref, Hits(ref.Contextual(), [r]))
    ensures ScoreOfPredictions(ref, [r]).rScore == 1.0
  {
    var hits, cover := Hits(ref.Contextual(), [r]), Cover([r], ref.n);
    PartsOfAnnotation([r, y]);
    StruckIsOverlap(y, [r]);
    assert hits == {};
    EmptyIsClosed(ref.Contextual(), ref.structure);
    assert r in [r, y] && r in ref.Mandatory() && r in [r];
    forall s | s in ref.Mandatory() ensures SpanChars(s) <= cover {
      assert s == r;
    }
    PerfectScore(ref, hits, cover);
  }

  /** So the score is not a function of the covered characters alone: any text of
      eight characters with these two annotated spans shows it. */
  lemma EmptyPredictionChangesScore(text: string, annotation: seq<LabelledSpan>)
    requires |text| == 8 && annotation == [LabelledSpan(0, 3, Mandatory), LabelledSpan(5, 8, Contextual)]
    ensures var ref := ReferenceOf(text, annotation);
            var p, e := LabelledSpan(0, 3, Mandatory), LabelledSpan(6, 6, Mandatory);
      && Coherent(ref) && Cover([p] + [e], 8) == Cover([p], 8)
      && ScoreOfPredictions(ref, [p]).rScore == 1.0
      && ScoreOfPredictions(ref, [p] + [e]).rScore < 1.0
  {
    ReferenceIsCoherent(text, annotation);
    PartsOfAnnotation(annotation);
    DistinctStartsCount(text, annotation);
    EmptyChangesReference(ReferenceOf(text, annotation));
  }

  lemma EmptyChangesReference(ref: Reference)
    requires Coherent(ref) && LongSpansCount(ref) && ref.n == 8
    requires ref.annotation == [LabelledSpan(0, 3, Mandatory), LabelledSpan(5, 8, Contextual)]
    ensures var p, e := LabelledSpan(0, 3, Mandatory), LabelledSpan(6, 6, Mandatory);
      && Cover([p] + [e], 8) == Cover([p], 8)
      && ScoreOfPredictions(ref, [p]).rScore == 1.0
      && ScoreOfPredictions(ref, [p] + [e]).rScore < 1.0
  {
    var p, e, y := LabelledSpan(0, 3, Mandatory), LabelledSpan(6, 6, Mandatory), LabelledSpan(5, 8, Contextual);
    PartsOfAnnotation(ref.annotation);
    assert y in ref.annotation && InSome(y, ref.entities);
    var g :| g in ref.entities && y in g;
    PerfectWithoutContextual(ref, p, y);
    EmptyPredictionSpoilsPerfect(ref, [p], e, g, y);
  }
}
