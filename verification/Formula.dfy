/** The R-Score of a document written out (app/bench/rscore.py, `score_document`): sums
    over its red groups, its attempted entities and its false positives.
 */
module Formula {
  import opened Annotation
  import opened Sorting
  import opened Runs
  import opened Graph
  import opened Combinators
  import opened Structure
  import opened Fusion
  import opened RScore

  function Sum(xs: seq<real>): (r: real)
  {
    if xs == [] then 0.0 else Sum(xs[..|xs| - 1]) + xs[|xs| - 1]
  }

  /** The share of a span's characters that is covered. */
  ghost function CoveredShare(s: LabelledSpan, cover: set<int>): (r: real)
    requires s.start < s.end
  {
    |set p | s.start <= p < s.end && p in cover| as real / (s.end - s.start) as real
  }

  ghost function Shares(spans: seq<LabelledSpan>, cover: set<int>): (r: seq<real>)
    requires NonEmptySpans(spans)
    ensures |r| == |spans|
  {
    seq(|spans|, i requires 0 <= i < |spans| => assert spans[i] in spans; CoveredShare(spans[i], cover))
  }

  /** The mean of that share over some spans. */
  ghost function Mean(spans: seq<LabelledSpan>, cover: set<int>): (r: real)
    requires spans != [] && NonEmptySpans(spans)
  {
    Sum(Shares(spans, cover)) / |spans| as real
  }

  /** The members of a group that are in a set, in order. */
  function Only(g: Group, part: set<Node>): (r: Group)
  {
    if g == [] then [] else Only(g[..|g| - 1], part) + if g[|g| - 1] in part then [g[|g| - 1]] else []
  }

  /** What is attempted of each group, for the groups of which something is. */
  function AttemptedParts(groups: seq<Group>, attempted: set<Node>): (r: seq<Group>)
  {
    if groups == [] then [] else
      var part := Only(groups[|groups| - 1], attempted);
      AttemptedParts(groups[..|groups| - 1], attempted) + if part == [] then [] else [part]
  }

  ghost predicate Scorable(groups: seq<Group>)
  {
    forall i :: 0 <= i < |groups| ==> groups[i] != [] && NonEmptySpans(groups[i])
  }

  ghost function Means(groups: seq<Group>, cover: set<int>): (r: seq<real>)
    requires Scorable(groups)
    ensures |r| == |groups|
  {
    seq(|groups|, i requires 0 <= i < |groups| => Mean(groups[i], cover))
  }

  ghost function Misses(groups: seq<Group>, cover: set<int>): (r: seq<real>)
    requires Scorable(groups)
    ensures |r| == |groups|
  {
    seq(|groups|, i requires 0 <= i < |groups| => 1.0 - Mean(groups[i], cover))
  }

  /** The false positives that are whole gaps of at least three characters. */
  ghost function WholeGaps(fps: seq<Run>, gaps: seq<Run>): (r: set<int>)
  {
    set i | 0 <= i < |fps| && fps[i] in gaps && fps[i].end - fps[i].start >= 3
  }

  // ----- the terms -----

  lemma {:induction false} TotalIsSum(spans: seq<LabelledSpan>, cover: set<int>)
    requires NonEmptySpans(spans)
    ensures TotalShare(spans, cover) == Sum(Shares(spans, cover))
  {
    if spans != [] {
      var k := |spans| - 1;
      var s := spans[k];
      assert spans == spans[..k] + [s];
      TotalIsSum(spans[..k], cover);
      assert Shares(spans, cover)[..k] == Shares(spans[..k], cover);
      assert SpanChars(s) * cover == set p | s.start <= p < s.end && p in cover;
    }
  }

  lemma MeanIsMeanShare(spans: seq<LabelledSpan>, cover: set<int>)
    requires spans != [] && NonEmptySpans(spans)
    ensures MeanShare(spans, cover) == Mean(spans, cover)
  {
    TotalIsSum(spans, cover);
  }

  lemma {:induction false} OnlyIsActive(g: Group, attempted: set<Node>)
    ensures Active(g, attempted) == Only(g, attempted)
  {
    if g != [] {
      var k := |g| - 1;
      OnlyIsActive(g[..k], attempted);
      ActiveSnoc(g[..k], g[k], attempted);
      assert g == g[..k] + [g[k]];
    }
  }

  lemma {:induction false} MandatoryEntries(groups: seq<Group>, cover: set<int>)
    requires Scorable(groups)
    ensures var scores := MandatoryScores(groups, cover);
      && |scores| == |groups|
      && forall i :: 0 <= i < |groups| ==>
           scores[i] == EntityScore(i, MandatoryEntity, Means(groups, cover)[i], 1.0, [])
  {
    if groups != [] {
      var k := |groups| - 1;
      MandatoryEntries(groups[..k], cover);
      MeanIsMeanShare(groups[k], cover);
    }
  }

  /** The score of the attempted part of one entity: a gain, or a penalty. */
  ghost predicate ScoresPart(score: EntityScore, groups: seq<Group>, part: Group, attempted: set<Node>, gain: bool,
                             cover: set<int>)
  {
    && part != [] && NonEmptySpans(part)
    && score.index < |groups| && Only(groups[score.index], attempted) == part == score.active
    && score.kind == (if gain then ContextualOptional else ContextualPenalty)
    && score.n == (if gain then Mean(part, cover) else 0.0)
    && score.d == (if gain then 1.0 else 1.0 - Mean(part, cover))
  }

  /** Entity by entity, in order. */
  ghost predicate ScoresParts(scores: seq<EntityScore>, groups: seq<Group>, parts: seq<Group>, attempted: set<Node>,
                              gain: bool, cover: set<int>)
  {
    && |scores| == |parts|
    && (forall j :: 0 <= j < |parts| ==> ScoresPart(scores[j], groups, parts[j], attempted, gain, cover))
    && forall i, j :: 0 <= i < j < |parts| ==> scores[i].index < scores[j].index
  }

  lemma PartOfMore(score: EntityScore, groups: seq<Group>, g: Group, part: Group, attempted: set<Node>, gain: bool,
                   cover: set<int>)
    requires ScoresPart(score, groups, part, attempted, gain, cover)
    ensures ScoresPart(score, groups + [g], part, attempted, gain, cover)
  {
  }

  lemma NewPart(groups: seq<Group>, g: Group, attempted: set<Node>, gain: bool, cover: set<int>)
    requires NonEmptySpans(g) && Only(g, attempted) != []
    ensures Active(g, attempted) == Only(g, attempted)
    ensures ScoresPart(ContextualScore(|groups|, Active(g, attempted), gain, cover), groups + [g], Only(g, attempted),
                       attempted, gain, cover)
  {
    OnlyIsActive(g, attempted);
    ActiveMembers(g, attempted);
    MeanIsMeanShare(Only(g, attempted), cover);
  }

  lemma ScoresOneMore(scores: seq<EntityScore>, groups: seq<Group>, parts: seq<Group>, g: Group,
                      attempted: set<Node>, gain: bool, cover: set<int>)
    requires ScoresParts(scores, groups, parts, attempted, gain, cover) && NonEmptySpans(g)
    ensures ScoresParts(scores + GroupScore(|groups|, Active(g, attempted), gain, cover), groups + [g],
                        parts + if Only(g, attempted) == [] then [] else [Only(g, attempted)], attempted, gain, cover)
  {
    OnlyIsActive(g, attempted);
    forall j | 0 <= j < |parts| ensures ScoresPart(scores[j], groups + [g], parts[j], attempted, gain, cover) {
      PartOfMore(scores[j], groups, g, parts[j], attempted, gain, cover);
    }
    if Only(g, attempted) != [] {
      NewPart(groups, g, attempted, gain, cover);
    }
  }

  lemma {:induction false} ContextualEntries(groups: seq<Group>, attempted: set<Node>, gain: bool, cover: set<int>)
    requires GroupsNonEmptySpans(groups)
    ensures ScoresParts(ContextualScores(groups, attempted, gain, cover), groups, AttemptedParts(groups, attempted),
                        attempted, gain, cover)
    ensures Skipped(groups, attempted) == |groups| - |AttemptedParts(groups, attempted)|
  {
    if groups != [] {
      var k := |groups| - 1;
      assert groups == groups[..k] + [groups[k]] && groups[k] in groups && groups[..k + 1] == groups;
      ContextualEntries(groups[..k], attempted, gain, cover);
      ContextualStep(groups, k, attempted, gain, cover);
      OnlyIsActive(groups[k], attempted);
      ScoresOneMore(ContextualScores(groups[..k], attempted, gain, cover), groups[..k],
                    AttemptedParts(groups[..k], attempted), groups[k], attempted, gain, cover);
    }
  }

  function Gains(scores: seq<EntityScore>): (r: seq<real>)
    ensures |r| == |scores|
  {
    seq(|scores|, i requires 0 <= i < |scores| => scores[i].n)
  }

  function Weights(scores: seq<EntityScore>): (r: seq<real>)
    ensures |r| == |scores|
  {
    seq(|scores|, i requires 0 <= i < |scores| => scores[i].d)
  }

  lemma {:induction false} SumsOfScores(scores: seq<EntityScore>)
    ensures SumN(scores) == Sum(Gains(scores)) && SumD(scores) == Sum(Weights(scores))
  {
    if scores != [] {
      var k := |scores| - 1;
      SumsOfScores(scores[..k]);
      assert Gains(scores)[..k] == Gains(scores[..k]) && Weights(scores)[..k] == Weights(scores[..k]);
    }
  }

  function Constant(x: real, n: nat): (r: seq<real>)
    ensures |r| == n
  {
    seq(n, i => x)
  }

  lemma {:induction false} SumOfConstant(x: real, n: nat)
    ensures Sum(Constant(x, n)) == x * n as real
  {
    if n > 0 {
      SumOfConstant(x, n - 1);
      assert Constant(x, n)[..n - 1] == Constant(x, n - 1);
    }
  }

  /** A false positive weighs 1, and 2 if it is a whole gap of three or more. */
  ghost predicate Weighed(scores: seq<FPScore>, fps: seq<Run>, gaps: seq<Run>)
  {
    && |scores| == |fps|
    && forall i :: 0 <= i < |fps| ==>
         var whole := i in WholeGaps(fps, gaps); scores[i] == FPScore(i, 0.0, if whole then 2.0 else 1.0, whole)
  }

  lemma {:induction false} FalsePositiveSum(scores: seq<FPScore>, fps: seq<Run>, gaps: seq<Run>)
    requires Weighed(scores, fps, gaps)
    ensures SumFP(scores) == |fps| as real + |WholeGaps(fps, gaps)| as real
  {
    if fps != [] {
      var k := |fps| - 1;
      forall i | 0 <= i < k ensures i in WholeGaps(fps, gaps) <==> i in WholeGaps(fps[..k], gaps) {
      }
      FalsePositiveSum(scores[..k], fps[..k], gaps);
      assert WholeGaps(fps, gaps) == WholeGaps(fps[..k], gaps) + if k in WholeGaps(fps, gaps) then {k} else {};
    }
  }

  // ----- the formula -----

  lemma ScorableRed(ref: Reference)
    requires Coherent(ref)
    ensures Scorable(ref.structure.redFusionGroups)
  {
    CoherentSpans(ref);
    forall i | 0 <= i < |ref.structure.redFusionGroups|
      ensures ref.structure.redFusionGroups[i] != [] && NonEmptySpans(ref.structure.redFusionGroups[i])
    {
      assert ref.structure.redFusionGroups[i] in ref.structure.redFusionGroups;
    }
  }

  lemma RedSums(groups: seq<Group>, cover: set<int>)
    requires Scorable(groups)
    ensures SumN(MandatoryScores(groups, cover)) == Sum(Means(groups, cover))
    ensures SumD(MandatoryScores(groups, cover)) == |groups| as real
  {
    var scores := MandatoryScores(groups, cover);
    MandatoryEntries(groups, cover);
    assert Gains(scores) == Means(groups, cover) && Weights(scores) == Constant(1.0, |groups|);
    SumsOfScores(scores);
    SumOfConstant(1.0, |groups|);
  }

  lemma PartsAreScorable(scores: seq<EntityScore>, groups: seq<Group>, parts: seq<Group>, attempted: set<Node>,
                         gain: bool, cover: set<int>)
    requires ScoresParts(scores, groups, parts, attempted, gain, cover)
    ensures Scorable(parts)
  {
    forall j | 0 <= j < |parts| ensures parts[j] != [] && NonEmptySpans(parts[j]) {
      assert ScoresPart(scores[j], groups, parts[j], attempted, gain, cover);
    }
  }

  lemma PartAt(scores: seq<EntityScore>, groups: seq<Group>, parts: seq<Group>, attempted: set<Node>, gain: bool,
               cover: set<int>, j: nat)
    requires ScoresParts(scores, groups, parts, attempted, gain, cover) && Scorable(parts) && j < |parts|
    ensures scores[j].n == if gain then Means(parts, cover)[j] else 0.0
    ensures scores[j].d == if gain then 1.0 else Misses(parts, cover)[j]
  {
    assert ScoresPart(scores[j], groups, parts[j], attempted, gain, cover);
  }

  lemma PartLists(scores: seq<EntityScore>, groups: seq<Group>, parts: seq<Group>, attempted: set<Node>, gain: bool,
                  cover: set<int>)
    requires ScoresParts(scores, groups, parts, attempted, gain, cover) && Scorable(parts)
    ensures Gains(scores) == if gain then Means(parts, cover) else Constant(0.0, |parts|)
    ensures Weights(scores) == if gain then Constant(1.0, |parts|) else Misses(parts, cover)
  {
    forall j: nat | j < |parts|
      ensures scores[j].n == if gain then Means(parts, cover)[j] else 0.0
      ensures scores[j].d == if gain then 1.0 else Misses(parts, cover)[j]
    {
      PartAt(scores, groups, parts, attempted, gain, cover, j);
    }
  }

  lemma SumsByLists(scores: seq<EntityScore>, gains: seq<real>, weights: seq<real>, n: nat)
    requires Gains(scores) == gains && Weights(scores) == weights
    ensures SumN(scores) == Sum(gains) && SumD(scores) == Sum(weights)
    ensures Sum(Constant(0.0, n)) == 0.0 && Sum(Constant(1.0, n)) == n as real
  {
    SumsOfScores(scores);
    SumOfConstant(0.0, n);
    SumOfConstant(1.0, n);
  }

  lemma FalsePositiveSums(ref: Reference, cover: set<int>) returns (fps: seq<Run>, gaps: seq<Run>)
    requires cover <= Range(0, ref.n)
    ensures fps == FalsePositives(ref.annotation, ref.n, cover) && gaps == Gaps(ref.annotation, ref.n)
    ensures Represents(fps, cover - Cover(ref.annotation, ref.n))
    ensures Represents(gaps, Range(0, ref.n) - Cover(ref.annotation, ref.n))
    ensures Weighed(FPScores(fps, LargeGaps(gaps)), fps, gaps)
    ensures SumFP(FPScores(fps, LargeGaps(gaps))) == |fps| as real + |WholeGaps(fps, gaps)| as real
  {
    fps, gaps := FalsePositives(ref.annotation, ref.n, cover), Gaps(ref.annotation, ref.n);
    var covered := Cover(ref.annotation, ref.n);
    RunsOfRepresents(cover - covered, 0, ref.n);
    RunsOfRepresents(Range(0, ref.n) - covered, 0, ref.n);
    assert (cover - covered) * Range(0, ref.n) == cover - covered;
    assert (Range(0, ref.n) - covered) * Range(0, ref.n) == Range(0, ref.n) - covered;
    var scores := FPScores(fps, LargeGaps(gaps));
    forall i: nat | i < |fps|
      ensures scores[i] == FPScore(i, 0.0, if i in WholeGaps(fps, gaps) then 2.0 else 1.0, i in WholeGaps(fps, gaps))
    {
      WholeGapsWeighDouble(ref.annotation, ref.n, cover, i);
    }
    FalsePositiveSum(scores, fps, gaps);
  }

  /** Without mandatory spans the contextual ones are a gain. */
  ghost predicate Bare(ref: Reference)
  {
    forall s :: s in ref.annotation ==> !s.category.Mandatory?
  }

  lemma BareIsOptional(ref: Reference)
    ensures ref.Optional() <==> Bare(ref) && ref.Contextual() != []
  {
    PartsOfAnnotation(ref.annotation);
    if ref.Mandatory() != [] {
      assert ref.Mandatory()[0] in ref.Mandatory();
    }
  }

  lemma {:induction false} NoParts(groups: seq<Group>, attempted: set<Node>)
    requires forall i :: 0 <= i < |groups| ==> groups[i] == []
    ensures AttemptedParts(groups, attempted) == []
  {
    if groups != [] {
      NoParts(groups[..|groups| - 1], attempted);
    }
  }

  lemma EmptyOrMember(g: Group)
    ensures g == [] || g[0] in g
  {
  }

  lemma EntitiesAreEmpty(ref: Reference)
    requires Coherent(ref) && ref.Contextual() == []
    ensures forall i :: 0 <= i < |ref.entities| ==> ref.entities[i] == []
  {
    forall i | 0 <= i < |ref.entities| ensures ref.entities[i] == [] {
      EmptyOrMember(ref.entities[i]);
      assert ref.entities[i] in ref.entities;
    }
  }

  lemma ContextualSums(ref: Reference, attempted: set<Node>, cover: set<int>)
    requires Coherent(ref)
    ensures var scores := ContextualScores(ref.entities, attempted, ref.Optional(), cover);
            var parts := AttemptedParts(ref.entities, attempted);
      && Scorable(parts)
      && SumN(scores) == (if Bare(ref) then Sum(Means(parts, cover)) else 0.0)
      && SumD(scores) == (if Bare(ref) then |parts| as real else Sum(Misses(parts, cover)))
  {
    var scores := ContextualScores(ref.entities, attempted, ref.Optional(), cover);
    CoherentSpans(ref);
    BareIsOptional(ref);
    ContextualEntries(ref.entities, attempted, ref.Optional(), cover);
    var parts := AttemptedParts(ref.entities, attempted);
    PartsAreScorable(scores, ref.entities, parts, attempted, ref.Optional(), cover);
    PartLists(scores, ref.entities, parts, attempted, ref.Optional(), cover);
    SumsByLists(scores, Gains(scores), Weights(scores), |parts|);
    if ref.Contextual() == [] {
      EntitiesAreEmpty(ref);
      NoParts(ref.entities, attempted);
    }
  }

  /** Every score of a document, one by one. */
  lemma ScoreEntries(ref: Reference, hits: set<Node>, cover: set<int>)
    requires Coherent(ref) && cover <= Range(0, ref.n)
    ensures var doc, red, attempted := ScoreOf(ref, hits, cover), ref.structure.redFusionGroups, Attempted(ref, hits);
            var parts := AttemptedParts(ref.entities, attempted);
            var fps, gaps := FalsePositives(ref.annotation, ref.n, cover), Gaps(ref.annotation, ref.n);
      && Scorable(red) && |doc.mandatory| == |red|
      && (forall i :: 0 <= i < |red| ==>
            doc.mandatory[i] == EntityScore(i, MandatoryEntity, Mean(red[i], cover), 1.0, []))
      && ScoresParts(doc.contextual, ref.entities, parts, attempted, ref.Optional(), cover)
      && doc.skippedContextual == |ref.entities| - |parts|
      && Weighed(doc.falsePositives, fps, gaps)
  {
    ScorableRed(ref);
    CoherentSpans(ref);
    MandatoryEntries(ref.structure.redFusionGroups, cover);
    ContextualEntries(ref.entities, Attempted(ref, hits), ref.Optional(), cover);
    var fps, gaps := FalsePositiveSums(ref, cover);
  }

  lemma Totals(red: seq<EntityScore>, contextual: seq<EntityScore>, fps: seq<FPScore>, skipped: nat)
    ensures var doc := Document(red, contextual, fps, skipped);
      && doc.n == SumN(red) + SumN(contextual)
      && doc.d == SumD(red) + SumD(contextual) + SumFP(fps)
      && doc.rScore == if doc.d > 0.0 then doc.n / doc.d else 0.0
  {
  }

  lemma DocumentSums(ref: Reference, hits: set<Node>, cover: set<int>)
    ensures var doc := ScoreOf(ref, hits, cover);
            var red := MandatoryScores(ref.structure.redFusionGroups, cover);
            var contextual := ContextualScores(ref.entities, Attempted(ref, hits), ref.Optional(), cover);
            var fps := FPScores(FalsePositives(ref.annotation, ref.n, cover), LargeGaps(Gaps(ref.annotation, ref.n)));
      doc == Document(red, contextual, fps, Skipped(ref.entities, Attempted(ref, hits)))
  {
  }

  /** The score of every coherent reference.  Gained: the mean shares of the red groups
      and, without mandatory spans, those of the attempted parts of entities.  Out of:
      one for each red group, for each attempted entity what is missed of it (one,
      without mandatory spans), one for each run of predicted characters outside the
      annotation, and one more for each such run that is a whole gap of three or more. */
  lemma ScoreFormula(ref: Reference, hits: set<Node>, cover: set<int>) returns (fps: seq<Run>, gaps: seq<Run>)
    requires Coherent(ref) && cover <= Range(0, ref.n)
    ensures Represents(fps, cover - Cover(ref.annotation, ref.n))
    ensures Represents(gaps, Range(0, ref.n) - Cover(ref.annotation, ref.n))
    ensures var doc, red := ScoreOf(ref, hits, cover), ref.structure.redFusionGroups;
            var parts := AttemptedParts(ref.entities, Attempted(ref, hits));
      && Scorable(red) && Scorable(parts)
      && doc.n == Sum(Means(red, cover)) + (if Bare(ref) then Sum(Means(parts, cover)) else 0.0)
      && doc.d == |red| as real + (if Bare(ref) then |parts| as real else Sum(Misses(parts, cover)))
                  + |fps| as real + |WholeGaps(fps, gaps)| as real
      && doc.rScore == if doc.d > 0.0 then doc.n / doc.d else 0.0
  {
    DocumentSums(ref, hits, cover);
    ScorableRed(ref);
    RedSums(ref.structure.redFusionGroups, cover);
    ContextualSums(ref, Attempted(ref, hits), cover);
    fps, gaps := FalsePositiveSums(ref, cover);
    Totals(MandatoryScores(ref.structure.redFusionGroups, cover),
           ContextualScores(ref.entities, Attempted(ref, hits), ref.Optional(), cover),
           FPScores(fps, LargeGaps(gaps)), Skipped(ref.entities, Attempted(ref, hits)));
  }

  predicate Overlapped(y: LabelledSpan, preds: seq<LabelledSpan>)
  {
    exists p :: p in preds && p.start < y.end && p.end > y.start
  }

  /** What the predictions contribute: the contextual spans that one of them overlaps,
      and the characters of the text that lie in one of them. */
  lemma PredictionsCount(ref: Reference, preds: seq<LabelledSpan>)
    requires Coherent(ref) && Upright(preds)
    ensures var hits := set y | y in ref.annotation && y.category.Contextual? && Overlapped(y, preds);
      ScoreOfPredictions(ref, preds) == ScoreOf(ref, hits, Cover(preds, ref.n))
  {
    PartsOfAnnotation(ref.annotation);
    var hits := set y | y in ref.annotation && y.category.Contextual? && Overlapped(y, preds);
    forall y | y in ref.annotation && y.category.Contextual? ensures Struck(y, preds) <==> Overlapped(y, preds) {
      StruckIsOverlap(y, preds);
    }
    assert hits == Hits(ref.Contextual(), preds);
  }

  /** The reference of a document: its length and annotation, the groups that its text
      draws among the mandatory spans, and the entities of its contextual ones. */
  lemma ReferenceReadsDocument(text: string, annotation: seq<LabelledSpan>, u: LabelledSpan, v: LabelledSpan)
    requires InText(annotation, text) && u in annotation && v in annotation
    requires u.category.Mandatory? && v.category.Mandatory?
    ensures var ref := ReferenceOf(text, annotation);
            var mandatory := set s | s in annotation && s.category.Mandatory?;
            var ordered := SortBy(ref.Mandatory() + ref.Contextual(), SpanKey);
      && ref.annotation == annotation && ref.n == |text|
      && (Together(ref.structure.redFusionGroups, u, v) <==> Reach(mandatory, TouchEdges(ordered, text), u, v))
      && ref.entities == ContextualEntities(ref.Contextual(), ref.structure, text)
      && multiset(ordered) == multiset(annotation)
  {
    PartsOfAnnotation(annotation);
    var red, yellow := MandatoryOf(annotation), ContextualSpansOf(annotation);
    assert NodeSet(red) == set s | s in annotation && s.category.Mandatory?;
    GroupsReadText(text, red, yellow, u, v);
    SortSorts(red + yellow, SpanKey);
    PartsAreAll(annotation);
  }

  lemma {:induction false} PartsAreAll(annotation: seq<LabelledSpan>)
    ensures multiset(MandatoryOf(annotation) + ContextualSpansOf(annotation)) == multiset(annotation)
  {
    if annotation != [] {
      PartsAreAll(annotation[1..]);
      assert annotation == [annotation[0]] + annotation[1..];
    }
  }
}
