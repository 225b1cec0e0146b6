/** app/redaction/redactor.py: a policy runs its fields one after the other, and
    every reported span is mapped back to the original input by composing the
    inverse remaps of the rounds before it.
 */
module Redactor {
  import opened Wrappers
  import opened Sorting
  import opened Spans
  import opened Substitution

  /** What a strategy answers; `None` and an empty list both mean that nothing
      was substituted. */
  datatype StrategyResult = StrategyResult(text: string, spans: seq<Span>, substitutions: Option<seq<Edit>>)

  /** A policy field without a known strategy is skipped. */
  datatype Field = Skipped | Field(run: string -> StrategyResult)

  datatype RedactionResult = RedactionResult(text: string, spans: seq<Span>)

  function Edits(r: StrategyResult): (e: seq<Edit>)
  {
    if r.substitutions.None? then [] else r.substitutions.value
  }

  /** The caller's side: spans are non-empty and in bounds, substitutions do not
      overlap, and the text returned is the text with them applied. */
  ghost predicate Honest(text: string, r: StrategyResult)
  {
    && (forall s :: s in r.spans ==> 0 <= s.start < s.end <= |text|)
    && WellFormed(Edits(r), |text|)
    && r.text == Applied(text, Edits(r))
  }

  ghost predicate HonestField(f: Field)
  {
    f.Field? ==> forall text: string :: Honest(text, f.run(text))
  }

  // ----- single-shot redaction -----

  /** `validate_offsets` (app/redaction/offsets.py): non-empty spans within the text. */
  function ValidOffsets(text: string, spans: seq<Span>): (r: seq<Span>)
  {
    Filter(spans, (s: Span) => 0 <= s.start < s.end <= |text|)
  }

  function Masked(spans: seq<Span>, replacement: string): (r: seq<Edit>)
    ensures |r| == |spans|
  {
    Zip(spans, seq(|spans|, i => replacement))
  }

  /** Whatever the detector answers, what is left after validation and
      deduplication can be substituted. */
  lemma PlainIsWellFormed(text: string, raw: seq<Span>, replacement: string)
    ensures WellFormed(Masked(Dedupe(ValidOffsets(text, raw)), replacement), |text|)
  {
    var spans := Dedupe(ValidOffsets(text, raw));
    DedupeSortedDisjoint(ValidOffsets(text, raw));
    FilterMembers(raw, (s: Span) => 0 <= s.start < s.end <= |text|);
    forall e | e in Masked(spans, replacement) ensures 0 <= e.span.start < e.span.end <= |text| {
      var i :| 0 <= i < |spans| && Masked(spans, replacement)[i] == e;
      assert spans[i] in spans;
    }
  }

  /** A valid detection is kept, or overlaps another one. */
  lemma ValidSpanIsKept(text: string, raw: seq<Span>, s: Span)
    requires s in raw && 0 <= s.start < s.end <= |text|
    requires forall t :: t in raw && t != s && 0 <= t.start < t.end <= |text| ==> !Overlaps(s, t)
    ensures s in Dedupe(ValidOffsets(text, raw))
  {
    FilterMembers(raw, (s: Span) => 0 <= s.start < s.end <= |text|);
    DedupeKeepsDominating(ValidOffsets(text, raw), s);
  }

  /** `Redactor.plain` on the spans that the detector returned. */
  method Plain(text: string, rawSpans: seq<Span>, replacement: string) returns (r: RedactionResult)
    ensures forall s :: s in r.spans ==> s in rawSpans && 0 <= s.start < s.end <= |text|
    ensures forall s :: s in rawSpans && 0 <= s.start < s.end <= |text| ==>
      s in r.spans || exists t :: t in rawSpans && t != s && 0 <= t.start < t.end <= |text| && Overlaps(s, t)
    ensures r.spans == Dedupe(ValidOffsets(text, rawSpans))
    ensures WellFormed(Masked(r.spans, replacement), |text|)
    ensures r.text == Applied(text, Masked(r.spans, replacement))
  {
    var spans := DedupeOverlaps(ValidOffsets(text, rawSpans));
    PlainIsWellFormed(text, rawSpans, replacement);
    DedupeSortedDisjoint(ValidOffsets(text, rawSpans));
    FilterMembers(rawSpans, (s: Span) => 0 <= s.start < s.end <= |text|);
    forall s | s in rawSpans && 0 <= s.start < s.end <= |text|
      ensures s in spans || exists t :: t in rawSpans && t != s && 0 <= t.start < t.end <= |text| && Overlaps(s, t)
    {
      if s !in spans && !exists t :: t in rawSpans && t != s && 0 <= t.start < t.end <= |text| && Overlaps(s, t) {
        ValidSpanIsKept(text, rawSpans, s);
        assert false;
      }
    }
    var redacted := ApplySpans(text, spans, seq(|spans|, i => replacement));
    r := RedactionResult(redacted.value, spans);
  }

  // ----- reference: provenance carried by the text itself -----

  ghost function Round(cells: seq<Cell>, edits: seq<Edit>): (r: seq<Cell>)
    requires WellFormed(edits, |cells|)
  {
    AscendingOrdered(edits, |cells|);
    Rewrite(cells, Ascending(edits), 0)
  }

  /** The interval of the original input a span of the current text reports. */
  ghost function Report(cells: seq<Cell>, s: Span): (r: Span)
    requires 0 <= s.start < s.end <= |cells|
  {
    Span(cells[s.start].origin, cells[s.end - 1].origin + 1, s.kind, s.confidence)
  }

  ghost function Reports(cells: seq<Cell>, spans: seq<Span>): (r: seq<Span>)
    requires forall s :: s in spans ==> 0 <= s.start < s.end <= |cells|
  {
    seq(|spans|, i requires 0 <= i < |spans| => Report(cells, spans[i]))
  }

  ghost function CellsAfter(text: string, fields: seq<Field>): (cells: seq<Cell>)
    requires forall f :: f in fields ==> HonestField(f)
  {
    if fields == [] then Original(text) else
      var before := CellsAfter(text, fields[..|fields| - 1]);
      match fields[|fields| - 1]
      case Skipped => before
      case Field(run) =>
        assert HonestField(fields[|fields| - 1]);
        assert Honest(Chars(before), run(Chars(before)));
        Round(before, Edits(run(Chars(before))))
  }

  ghost function ReportedBy(text: string, fields: seq<Field>): (spans: seq<Span>)
    requires forall f :: f in fields ==> HonestField(f)
  {
    if fields == [] then [] else
      var before := CellsAfter(text, fields[..|fields| - 1]);
      ReportedBy(text, fields[..|fields| - 1]) +
      match fields[|fields| - 1]
      case Skipped => []
      case Field(run) =>
        assert HonestField(fields[|fields| - 1]);
        assert Honest(Chars(before), run(Chars(before)));
        Reports(before, run(Chars(before)).spans)
  }

  // ----- the same, strategy by strategy -----

  /** The text that the fields hand on to the next one. */
  function TextAfter(text: string, fields: seq<Field>): (r: string)
  {
    if fields == [] then text else
      match fields[|fields| - 1]
      case Skipped => TextAfter(text, fields[..|fields| - 1])
      case Field(run) => run(TextAfter(text, fields[..|fields| - 1])).text
  }

  /** The spans that field `i` answers, in the text it is given. */
  function AnswerOf(text: string, fields: seq<Field>, i: nat): (r: seq<Span>)
    requires i < |fields|
  {
    match fields[i]
    case Skipped => []
    case Field(run) => run(TextAfter(text, fields[..i])).spans
  }

  /** How many spans the fields answer in all. */
  function Answered(text: string, fields: seq<Field>): (n: nat)
  {
    if fields == [] then 0 else
      Answered(text, fields[..|fields| - 1]) + |AnswerOf(text, fields, |fields| - 1)|
  }

  /** `r` is the span `s` of the text that the cells make, told of the original input:
      from the origin of its first character to just past the origin of its last. */
  ghost predicate Tells(r: Span, s: Span, cells: seq<Cell>)
  {
    && 0 <= s.start < s.end <= |cells|
    && r.start == cells[s.start].origin && r.end == cells[s.end - 1].origin + 1
    && r.kind == s.kind && r.confidence == s.confidence
  }

  /** The spans from index `at` on tell an answer, in its order. */
  ghost predicate TellsFrom(spans: seq<Span>, at: nat, answer: seq<Span>, cells: seq<Cell>)
  {
    at + |answer| <= |spans| && forall j :: 0 <= j < |answer| ==> Tells(spans[at + j], answer[j], cells)
  }

  /** The answer of field `i` is told behind those of the fields before it. */
  ghost predicate TellsField(spans: seq<Span>, text: string, fields: seq<Field>, i: nat)
    requires i < |fields| && forall f :: f in fields ==> HonestField(f)
  {
    TellsFrom(spans, Answered(text, fields[..i]), AnswerOf(text, fields, i), CellsAfter(text, fields[..i]))
  }

  ghost predicate TellsAll(spans: seq<Span>, text: string, fields: seq<Field>)
    requires forall f :: f in fields ==> HonestField(f)
  {
    |spans| == Answered(text, fields) && forall i :: 0 <= i < |fields| ==> TellsField(spans, text, fields, i)
  }

  lemma {:induction false} CellsAreText(text: string, fields: seq<Field>)
    requires forall f :: f in fields ==> HonestField(f)
    ensures Chars(CellsAfter(text, fields)) == TextAfter(text, fields)
  {
    if fields == [] {
      assert Chars(Original(text)) == text;
    } else {
      var init, last := fields[..|fields| - 1], fields[|fields| - 1];
      var before := CellsAfter(text, init);
      CellsAreText(text, init);
      if last.Field? {
        assert HonestField(last) && Honest(Chars(before), last.run(Chars(before)));
        RoundChars(before, Edits(last.run(Chars(before))));
      }
    }
  }

  lemma TellsFromMore(spans: seq<Span>, more: seq<Span>, at: nat, answer: seq<Span>, cells: seq<Cell>)
    requires TellsFrom(spans, at, answer, cells)
    ensures TellsFrom(spans + more, at, answer, cells)
  {
    forall j | 0 <= j < |answer| ensures Tells((spans + more)[at + j], answer[j], cells) {
      assert Tells(spans[at + j], answer[j], cells);
    }
  }

  /** What was told of an earlier field stays told. */
  lemma TellsMore(spans: seq<Span>, more: seq<Span>, text: string, fields: seq<Field>, i: nat)
    requires forall f :: f in fields ==> HonestField(f)
    requires i < |fields| - 1 && TellsField(spans, text, fields[..|fields| - 1], i)
    ensures TellsField(spans + more, text, fields, i)
  {
    var init := fields[..|fields| - 1];
    assert init[..i] == fields[..i] && AnswerOf(text, init, i) == AnswerOf(text, fields, i);
    TellsFromMore(spans, more, Answered(text, init[..i]), AnswerOf(text, init, i), CellsAfter(text, init[..i]));
  }

  lemma AnswerInBounds(text: string, fields: seq<Field>)
    requires fields != [] && forall f :: f in fields ==> HonestField(f)
    ensures var before, own := CellsAfter(text, fields[..|fields| - 1]), AnswerOf(text, fields, |fields| - 1);
      forall s :: s in own ==> 0 <= s.start < s.end <= |before|
  {
    var init, last := fields[..|fields| - 1], fields[|fields| - 1];
    var before := CellsAfter(text, init);
    CellsAreText(text, init);
    if last.Field? {
      assert HonestField(last) && Honest(Chars(before), last.run(Chars(before)));
    }
  }

  lemma ReportsTell(told: seq<Span>, cells: seq<Cell>, answer: seq<Span>)
    requires forall s :: s in answer ==> 0 <= s.start < s.end <= |cells|
    ensures TellsFrom(told + Reports(cells, answer), |told|, answer, cells)
  {
    forall j | 0 <= j < |answer| ensures Tells((told + Reports(cells, answer))[|told| + j], answer[j], cells) {
      assert answer[j] in answer;
    }
  }

  lemma ReportedSnoc(text: string, fields: seq<Field>)
    requires fields != [] && forall f :: f in fields ==> HonestField(f)
    ensures var init, last := fields[..|fields| - 1], fields[|fields| - 1];
            var before, own := CellsAfter(text, init), AnswerOf(text, fields, |fields| - 1);
      && (forall s :: s in own ==> 0 <= s.start < s.end <= |before|)
      && ReportedBy(text, fields) == ReportedBy(text, init) + Reports(before, own)
  {
    var init, last := fields[..|fields| - 1], fields[|fields| - 1];
    var before := CellsAfter(text, init);
    CellsAreText(text, init);
    if last.Field? {
      assert HonestField(last) && Honest(Chars(before), last.run(Chars(before)));
    }
  }

  /** One more field. */
  lemma TellsOneMore(told: seq<Span>, text: string, fields: seq<Field>)
    requires fields != [] && forall f :: f in fields ==> HonestField(f)
    requires TellsAll(told, text, fields[..|fields| - 1])
    ensures var before, own := CellsAfter(text, fields[..|fields| - 1]), AnswerOf(text, fields, |fields| - 1);
      && (forall s :: s in own ==> 0 <= s.start < s.end <= |before|)
      && TellsAll(told + Reports(before, own), text, fields)
  {
    var n := |fields| - 1;
    var before, own := CellsAfter(text, fields[..n]), AnswerOf(text, fields, n);
    AnswerInBounds(text, fields);
    var all := told + Reports(before, own);
    forall i: nat | i < |fields| ensures TellsField(all, text, fields, i) {
      if i < n {
        assert TellsField(told, text, fields[..n], i);
        TellsMore(told, Reports(before, own), text, fields, i);
      } else {
        ReportsTell(told, before, own);
      }
    }
  }

  /** Every answer of every strategy is reported. */
  lemma {:induction false} AnswersAreTold(text: string, fields: seq<Field>)
    requires forall f :: f in fields ==> HonestField(f)
    ensures TellsAll(ReportedBy(text, fields), text, fields)
  {
    if fields != [] {
      var init := fields[..|fields| - 1];
      AnswersAreTold(text, init);
      ReportedSnoc(text, fields);
      TellsOneMore(ReportedBy(text, init), text, fields);
    }
  }

  // ----- one round on cells and on text -----

  /** The text of the rewritten cells is the rewritten text. */
  lemma RoundChars(cells: seq<Cell>, edits: seq<Edit>)
    requires WellFormed(edits, |cells|)
    ensures Chars(Round(cells, edits)) == Applied(Chars(cells), edits)
  {
    AscendingOrdered(edits, |cells|);
    RewriteChars(cells, Ascending(edits), 0);
  }

  /** Every cell stems from where its position of the rewritten text stems from. */
  lemma RoundOrigins(cells: seq<Cell>, edits: seq<Edit>, p: nat)
    requires WellFormed(edits, |cells|) && p < |Round(cells, edits)|
    ensures var up := Ascending(edits);
      && Ordered(up, 0, |cells|)
      && var q := Source(up, 0, |cells|, p);
         && q < |cells| && Round(cells, edits)[p].origin == cells[q].origin
         && (Round(cells, edits)[p].kept <==> Survives(up, 0, |cells|, p) && cells[q].kept)
  {
    AscendingOrdered(edits, |cells|);
    RewriteAt(cells, Ascending(edits), 0, p);
  }

  // ----- the implementation -----

  function ComposeRemaps(newer: int --> int, older: int --> int): (r: int --> int)
  {
    (p: int) requires newer.requires(p) && older.requires(newer(p)) => older(newer(p))
  }

  /** `remap` tells the provenance of every position of the current text. */
  ghost predicate Tracks(remap: int --> int, cells: seq<Cell>)
  {
    forall p: int :: 0 <= p < |cells| ==> remap.requires(p) && remap(p) == cells[p].origin
  }

  method Recast(spans: seq<Span>, remap: Option<int --> int>, ghost cells: seq<Cell>)
    returns (r: seq<Span>)
    requires forall s :: s in spans ==> 0 <= s.start < s.end <= |cells|
    requires remap.Some? ==> Tracks(remap.value, cells)
    requires remap.None? ==> forall p :: 0 <= p < |cells| ==> cells[p].origin == p
    ensures r == Reports(cells, spans)
  {
    r := [];
    for i := 0 to |spans|
      invariant |r| == i && forall j :: 0 <= j < i ==> r[j] == Report(cells, spans[j])
    {
      var span := spans[i];
      assert span in spans;
      if remap.Some? {
        r := r + [Span(remap.value(span.start), remap.value(span.end - 1) + 1, span.kind, span.confidence)];
      } else {
        r := r + [span];
      }
    }
  }

  function SpansOf(edits: seq<Edit>): (r: seq<Span>)
    ensures |r| == |edits|
  {
    seq(|edits|, i requires 0 <= i < |edits| => edits[i].span)
  }

  function ReplacementsOf(edits: seq<Edit>): (r: seq<string>)
    ensures |r| == |edits|
  {
    seq(|edits|, i requires 0 <= i < |edits| => edits[i].replacement)
  }

  method NextRemap(text: string, edits: seq<Edit>, remap: Option<int --> int>, ghost cells: seq<Cell>)
    returns (r: Option<int --> int>)
    requires |text| == |cells| && edits != [] && WellFormed(edits, |cells|)
    requires remap.Some? ==> Tracks(remap.value, cells)
    requires remap.None? ==> forall p :: 0 <= p < |cells| ==> cells[p].origin == p
    ensures r.Some? && Tracks(r.value, Round(cells, edits))
  {
    assert Zip(SpansOf(edits), ReplacementsOf(edits)) == edits;
    var newToCurrent := InversePositionRemap(text, SpansOf(edits), ReplacementsOf(edits));
    var up := Ascending(edits);
    var newer := newToCurrent.value;
    AscendingOrdered(edits, |cells|);
    forall p: int | 0 <= p < |Round(cells, edits)|
      ensures newer.requires(p) && 0 <= newer(p) < |cells|
      ensures Round(cells, edits)[p].origin == cells[newer(p)].origin
    {
      RewriteAt(cells, up, 0, p);
      assert newer(p) == Source(up, 0, |text|, p);
    }
    if remap.None? {
      r := Some(newer);
    } else {
      r := Some(ComposeRemaps(newer, remap.value));
    }
  }

  /** One field of the policy: its spans are recast with the remap of the rounds
      before it, then its own substitutions extend the remap. */
  method RunField(run: string -> StrategyResult, text: string, remap: Option<int --> int>, ghost cells: seq<Cell>)
    returns (text': string, recast: seq<Span>, remap': Option<int --> int>)
    requires text == Chars(cells) && Honest(text, run(text))
    requires remap.Some? ==> Tracks(remap.value, cells)
    requires remap.None? ==> forall p :: 0 <= p < |cells| ==> cells[p].origin == p
    ensures text' == Chars(Round(cells, Edits(run(text))))
    ensures recast == Reports(cells, run(text).spans)
    ensures remap'.Some? ==> Tracks(remap'.value, Round(cells, Edits(run(text))))
    ensures remap'.None? ==> Round(cells, Edits(run(text))) == cells && remap.None?
  {
    var answer := run(text);
    recast := Recast(answer.spans, remap, cells);
    var substitutions := Edits(answer);
    RoundChars(cells, substitutions);
    remap' := remap;
    if substitutions != [] {
      remap' := NextRemap(text, substitutions, remap, cells);
    } else {
      assert Round(cells, []) == cells;
    }
    text' := answer.text;
  }

  /** `Redactor.policy`: the composed remap is exactly character provenance. */
  method Policy(text: string, fields: seq<Field>) returns (r: RedactionResult)
    requires forall f :: f in fields ==> HonestField(f)
    ensures r.text == Chars(CellsAfter(text, fields))
    ensures r.spans == ReportedBy(text, fields)
    ensures r.text == TextAfter(text, fields) && TellsAll(r.spans, text, fields)
  {
    var resultText := text;
    var resultSpans: seq<Span> := [];
    var remapToOriginal: Option<int --> int> := None;
    assert Chars(Original(text)) == text;
    ghost var cells := Original(text);
    for i := 0 to |fields|
      invariant cells == CellsAfter(text, fields[..i])
      invariant resultText == Chars(cells)
      invariant resultSpans == ReportedBy(text, fields[..i])
      invariant remapToOriginal.Some? ==> Tracks(remapToOriginal.value, cells)
      invariant remapToOriginal.None? ==> forall p :: 0 <= p < |cells| ==> cells[p].origin == p
    {
      assert fields[..i + 1][..i] == fields[..i];
      assert fields[i] in fields;
      match fields[i]
      case Skipped =>
        assert ReportedBy(text, fields[..i]) + [] == ReportedBy(text, fields[..i]);
      case Field(run) =>
        assert HonestField(fields[i]) && Honest(resultText, run(resultText));
        ghost var before, edits := cells, Edits(run(resultText));
        var recast;
        resultText, recast, remapToOriginal := RunField(run, resultText, remapToOriginal, cells);
        resultSpans := resultSpans + recast;
        cells := Round(before, edits);
    }
    assert fields[..|fields|] == fields;
    CellsAreText(text, fields);
    AnswersAreTold(text, fields);
    r := RedactionResult(resultText, resultSpans);
  }

  // ----- what provenance means -----

  /** Cells over `text`: in bounds, monotone (strictly next to a kept one), and a
      kept cell holds the very character of its origin. */
  ghost predicate Sound(cells: seq<Cell>, text: string)
  {
    && (forall p :: 0 <= p < |cells| ==> cells[p].origin < |text|)
    && (forall p :: 0 <= p < |cells| && cells[p].kept ==> cells[p].ch == text[cells[p].origin])
    && (forall p, q :: 0 <= p < q < |cells| ==> cells[p].origin <= cells[q].origin)
    && (forall p, q :: 0 <= p < q < |cells| && (cells[p].kept || cells[q].kept) ==> cells[p].origin < cells[q].origin)
  }

  lemma RoundCellSound(cells: seq<Cell>, edits: seq<Edit>, text: string, p: nat)
    requires WellFormed(edits, |cells|) && Sound(cells, text) && p < |Round(cells, edits)|
    ensures var cell := Round(cells, edits)[p];
      cell.origin < |text| && (cell.kept ==> cell.ch == text[cell.origin])
  {
    AscendingOrdered(edits, |cells|);
    RewriteAt(cells, Ascending(edits), 0, p);
  }

  lemma RoundPairSound(cells: seq<Cell>, edits: seq<Edit>, text: string, p: nat, q: nat)
    requires WellFormed(edits, |cells|) && Sound(cells, text) && p < q < |Round(cells, edits)|
    ensures var a, b := Round(cells, edits)[p], Round(cells, edits)[q];
      a.origin <= b.origin && (a.kept || b.kept ==> a.origin < b.origin)
  {
    AscendingOrdered(edits, |cells|);
    RewriteAt(cells, Ascending(edits), 0, p);
    RewriteAt(cells, Ascending(edits), 0, q);
    SourceMonotone(Ascending(edits), 0, |cells|, p, q);
  }

  lemma RoundKeepsSound(cells: seq<Cell>, edits: seq<Edit>, text: string)
    requires WellFormed(edits, |cells|) && Sound(cells, text)
    ensures Sound(Round(cells, edits), text)
  {
    var after := Round(cells, edits);
    forall p: nat | p < |after|
      ensures after[p].origin < |text|
      ensures after[p].kept ==> after[p].ch == text[after[p].origin]
    {
      RoundCellSound(cells, edits, text, p);
    }
    forall p: nat, q: nat | p < q < |after|
      ensures after[p].origin <= after[q].origin
      ensures after[p].kept || after[q].kept ==> after[p].origin < after[q].origin
    {
      RoundPairSound(cells, edits, text, p, q);
    }
  }

  /** After any number of fields the provenance is sound and monotone. */
  lemma {:induction false} ProvenanceSound(text: string, fields: seq<Field>)
    requires forall f :: f in fields ==> HonestField(f)
    ensures Sound(CellsAfter(text, fields), text)
  {
    if fields != [] {
      var n := |fields| - 1;
      var before := CellsAfter(text, fields[..n]);
      ProvenanceSound(text, fields[..n]);
      if fields[n].Field? {
        assert HonestField(fields[n]);
        assert Honest(Chars(before), fields[n].run(Chars(before)));
        RoundKeepsSound(before, Edits(fields[n].run(Chars(before))), text);
      }
    }
  }

  ghost predicate AllWithin(spans: seq<Span>, n: nat)
  {
    forall i :: 0 <= i < |spans| ==> 0 <= spans[i].start < spans[i].end <= n
  }

  lemma ReportsWithin(cells: seq<Cell>, text: string, spans: seq<Span>)
    requires Sound(cells, text)
    requires forall s :: s in spans ==> 0 <= s.start < s.end <= |cells|
    ensures AllWithin(Reports(cells, spans), |text|)
  {
    forall i | 0 <= i < |spans| ensures var r := Reports(cells, spans)[i]; 0 <= r.start < r.end <= |text| {
      var s := spans[i];
      assert s in spans;
      assert cells[s.start].origin <= cells[s.end - 1].origin;
    }
  }

  /** Every span a policy reports is a non-empty interval of the original input. */
  lemma {:induction false} ReportsInBounds(text: string, fields: seq<Field>)
    requires forall f :: f in fields ==> HonestField(f)
    ensures AllWithin(ReportedBy(text, fields), |text|)
  {
    if fields != [] {
      var init, last := fields[..|fields| - 1], fields[|fields| - 1];
      var before := CellsAfter(text, init);
      ReportsInBounds(text, init);
      ProvenanceSound(text, init);
      if last.Field? {
        assert HonestField(last) && Honest(Chars(before), last.run(Chars(before)));
        ReportsWithin(before, text, last.run(Chars(before)).spans);
      }
    }
  }

  ghost predicate Untouched(cells: seq<Cell>, s: Span)
    requires 0 <= s.start < s.end <= |cells|
  {
    forall p :: s.start <= p < s.end ==> cells[p].kept
  }

  lemma {:induction false} KeptOriginsSpread(cells: seq<Cell>, text: string, p: nat, q: nat)
    requires Sound(cells, text) && p <= q < |cells|
    requires forall k :: p <= k <= q ==> cells[k].kept
    ensures cells[q].origin - cells[p].origin >= q - p
    decreases q
  {
    if p < q {
      KeptOriginsSpread(cells, text, p, q - 1);
      assert cells[q - 1].origin < cells[q].origin;
    }
  }

  /** The report of a span of untouched characters is never shorter than the span,
      and holds the span's text when it is not longer either. */
  lemma UntouchedReportIsExact(cells: seq<Cell>, text: string, s: Span)
    requires Sound(cells, text) && 0 <= s.start < s.end <= |cells| && Untouched(cells, s)
    ensures var r := Report(cells, s);
      && 0 <= r.start < r.end <= |text|
      && r.end - r.start >= s.end - s.start
      && (text[r.start..r.end] == Chars(cells)[s.start..s.end] <==> r.end - r.start == s.end - s.start)
  {
    var r := Report(cells, s);
    KeptOriginsSpread(cells, text, s.start, s.end - 1);
    if r.end - r.start == s.end - s.start {
      forall p | s.start <= p < s.end ensures cells[p].origin == r.start + (p - s.start) {
        KeptOriginsSpread(cells, text, s.start, p);
        KeptOriginsSpread(cells, text, p, s.end - 1);
      }
      assert forall k :: 0 <= k < s.end - s.start ==> text[r.start..r.end][k] == Chars(cells)[s.start..s.end][k];
    } else {
      assert |text[r.start..r.end]| != |Chars(cells)[s.start..s.end]|;
    }
  }

  /** The round deletes a character that stems from `origin`. */
  ghost predicate Deletes(cells: seq<Cell>, edits: seq<Edit>, origin: int)
  {
    exists e, q :: e in edits && e.replacement == "" && e.span.start <= q < e.span.end
      && 0 <= q < |cells| && cells[q].origin == origin
  }

  /** Some field of the policy deletes a character that stems from `origin`. */
  ghost predicate Deleted(text: string, fields: seq<Field>, origin: int)
    requires forall f :: f in fields ==> HonestField(f)
  {
    if fields == [] then false else
      var before := CellsAfter(text, fields[..|fields| - 1]);
      || Deleted(text, fields[..|fields| - 1], origin)
      || match fields[|fields| - 1]
         case Skipped => false
         case Field(run) => Deletes(before, Edits(run(Chars(before))), origin)
  }

  /** Both cells are kept, and no cell between them is left. */
  ghost predicate KeptNeighbours(cells: seq<Cell>, p: int)
  {
    0 <= p < |cells| - 1 && cells[p].kept && cells[p + 1].kept
  }

  /** Where a kept cell of the round was before. */
  lemma KeptBefore(cells: seq<Cell>, edits: seq<Edit>, p: nat) returns (q: nat)
    requires WellFormed(edits, |cells|) && p < |Round(cells, edits)| && Round(cells, edits)[p].kept
    ensures q < |cells| && cells[q] == Round(cells, edits)[p]
    ensures forall e :: e in edits ==> !(e.span.start <= q < e.span.end)
    ensures Ordered(Ascending(edits), 0, |cells|)
    ensures q == Source(Ascending(edits), 0, |cells|, p) && Survives(Ascending(edits), 0, |cells|, p)
  {
    AscendingOrdered(edits, |cells|);
    SortSorts(edits, EditKey);
    RewriteAt(cells, Ascending(edits), 0, p);
    SurvivorsAreUnedited(Ascending(edits), 0, |cells|, p);
    q := Source(Ascending(edits), 0, |cells|, p);
  }

  /** A gap between kept neighbours was there before the round, or the round
      deleted something in it. */
  lemma GapOrigin(cells: seq<Cell>, edits: seq<Edit>, text: string, p: nat)
    requires WellFormed(edits, |cells|) && Sound(cells, text)
    requires var after := Round(cells, edits); KeptNeighbours(after, p) && after[p + 1].origin > after[p].origin + 1
    ensures var after := Round(cells, edits);
      || (exists q :: KeptNeighbours(cells, q) && cells[q] == after[p] && cells[q + 1] == after[p + 1])
      || (exists o :: after[p].origin < o < after[p + 1].origin && Deletes(cells, edits, o))
  {
    var after, up := Round(cells, edits), Ascending(edits);
    var q := KeptBefore(cells, edits, p);
    var q' := KeptBefore(cells, edits, p + 1);
    SurvivorsStayAdjacent(up, 0, |cells|, p);
    if q' == q + 1 {
      assert KeptNeighbours(cells, q);
    } else {
      SortSorts(edits, EditKey);
      var e :| e in up && e.replacement == "" && q < e.span.start && e.span.end <= q';
      assert e in edits && 0 <= e.span.start < e.span.end;
      var o := cells[e.span.start].origin;
      assert cells[q].origin < o < cells[q'].origin;
      assert Deletes(cells, edits, o);
    }
  }

  /** Where kept neighbours come from different places, a field deleted something
      that stems from between them. */
  lemma {:induction false} GapsAreDeletions(text: string, fields: seq<Field>, p: nat) returns (o: nat)
    requires forall f :: f in fields ==> HonestField(f)
    requires var cells := CellsAfter(text, fields);
      KeptNeighbours(cells, p) && cells[p + 1].origin > cells[p].origin + 1
    ensures var cells := CellsAfter(text, fields); cells[p].origin < o < cells[p + 1].origin
    ensures Deleted(text, fields, o)
  {
    var init, last := fields[..|fields| - 1], fields[|fields| - 1];
    var before, after := CellsAfter(text, init), CellsAfter(text, fields);
    if last.Skipped? {
      o := GapsAreDeletions(text, init, p);
    } else {
      assert HonestField(last) && Honest(Chars(before), last.run(Chars(before)));
      var edits := Edits(last.run(Chars(before)));
      ProvenanceSound(text, init);
      GapOrigin(before, edits, text, p);
      if q :| KeptNeighbours(before, q) && before[q] == after[p] && before[q + 1] == after[p + 1] {
        o := GapsAreDeletions(text, init, q);
      } else {
        o :| after[p].origin < o < after[p + 1].origin && Deletes(before, edits, o);
      }
    }
  }

  /** What was deleted is gone: no kept character stems from there. */
  lemma {:induction false} DeletedIsGone(text: string, fields: seq<Field>, p: nat)
    requires forall f :: f in fields ==> HonestField(f)
    requires p < |CellsAfter(text, fields)| && CellsAfter(text, fields)[p].kept
    ensures !Deleted(text, fields, CellsAfter(text, fields)[p].origin)
  {
    if fields != [] {
      var init, last := fields[..|fields| - 1], fields[|fields| - 1];
      var before := CellsAfter(text, init);
      if last.Skipped? {
        DeletedIsGone(text, init, p);
      } else {
        assert HonestField(last) && Honest(Chars(before), last.run(Chars(before)));
        var edits := Edits(last.run(Chars(before)));
        var q := KeptBefore(before, edits, p);
        DeletedIsGone(text, init, q);
        ProvenanceSound(text, init);
        forall d: int | 0 <= d < |before| && before[d].origin == before[q].origin ensures d == q {
        }
      }
    }
  }

  /** Without a deletion among the origins in between, kept cells in a row stem
      from characters in a row. */
  lemma {:induction false} UndeletedRun(text: string, fields: seq<Field>, p: nat, q: nat)
    requires forall f :: f in fields ==> HonestField(f)
    requires p <= q < |CellsAfter(text, fields)|
    requires forall k :: p <= k <= q ==> CellsAfter(text, fields)[k].kept
    requires var cells := CellsAfter(text, fields);
      forall o :: cells[p].origin < o < cells[q].origin ==> !Deleted(text, fields, o)
    ensures CellsAfter(text, fields)[q].origin == CellsAfter(text, fields)[p].origin + (q - p)
    decreases q
  {
    var cells := CellsAfter(text, fields);
    if p < q {
      ProvenanceSound(text, fields);
      assert cells[q - 1].origin < cells[q].origin;
      UndeletedRun(text, fields, p, q - 1);
      if cells[q].origin > cells[q - 1].origin + 1 {
        assert KeptNeighbours(cells, q - 1);
        var o := GapsAreDeletions(text, fields, q - 1);
      }
    }
  }

  /** No field deletes a character that stems from strictly inside the interval. */
  ghost predicate NothingDeletedInside(text: string, fields: seq<Field>, r: Span)
    requires forall f :: f in fields ==> HonestField(f)
  {
    forall o: int :: r.start < o < r.end - 1 ==> !Deleted(text, fields, o)
  }

  /** A report as long as its span names the origin of every character. */
  lemma ExactRunIsUndeleted(text: string, fields: seq<Field>, s: Span)
    requires forall f :: f in fields ==> HonestField(f)
    requires 0 <= s.start < s.end <= |CellsAfter(text, fields)| && Untouched(CellsAfter(text, fields), s)
    requires var r := Report(CellsAfter(text, fields), s); r.end - r.start == s.end - s.start
    ensures NothingDeletedInside(text, fields, Report(CellsAfter(text, fields), s))
  {
    var cells := CellsAfter(text, fields);
    var r := Report(cells, s);
    ProvenanceSound(text, fields);
    forall o: int | r.start < o < r.end - 1 ensures !Deleted(text, fields, o) {
      var p := s.start + (o - r.start);
      KeptOriginsSpread(cells, text, s.start, p);
      KeptOriginsSpread(cells, text, p, s.end - 1);
      assert cells[p].origin == o;
      DeletedIsGone(text, fields, p);
    }
  }

  /** An untouched span is reported exactly, the original text at the reported
      place being its text, if and only if no field deleted a character that stems
      from strictly inside the report. */
  lemma UntouchedSpansAreExact(text: string, fields: seq<Field>, s: Span)
    requires forall f :: f in fields ==> HonestField(f)
    requires 0 <= s.start < s.end <= |CellsAfter(text, fields)| && Untouched(CellsAfter(text, fields), s)
    ensures var r := Report(CellsAfter(text, fields), s);
      && 0 <= r.start < r.end <= |text|
      && (text[r.start..r.end] == Chars(CellsAfter(text, fields))[s.start..s.end]
          <==> NothingDeletedInside(text, fields, r))
  {
    var cells := CellsAfter(text, fields);
    var r := Report(cells, s);
    ProvenanceSound(text, fields);
    UntouchedReportIsExact(cells, text, s);
    if r.end - r.start == s.end - s.start {
      ExactRunIsUndeleted(text, fields, s);
    } else if NothingDeletedInside(text, fields, r) {
      UndeletedRun(text, fields, s.start, s.end - 1);
      assert false;
    }
  }

  ghost predicate NeverDeletes(f: Field)
  {
    f.Field? ==> forall text: string, e :: e in Edits(f.run(text)) ==> e.replacement != ""
  }

  lemma {:induction false} NothingDeleted(text: string, fields: seq<Field>, origin: int)
    requires forall f :: f in fields ==> HonestField(f) && NeverDeletes(f)
    ensures !Deleted(text, fields, origin)
  {
    if fields != [] {
      NothingDeleted(text, fields[..|fields| - 1], origin);
      assert NeverDeletes(fields[|fields| - 1]);
    }
  }

  /** So when no strategy replaces by the empty string every untouched span is
      reported exactly. */
  lemma WithoutDeletionsAllExact(text: string, fields: seq<Field>, s: Span)
    requires forall f :: f in fields ==> HonestField(f) && NeverDeletes(f)
    requires 0 <= s.start < s.end <= |CellsAfter(text, fields)| && Untouched(CellsAfter(text, fields), s)
    ensures var r := Report(CellsAfter(text, fields), s);
      && 0 <= r.start < r.end <= |text|
      && text[r.start..r.end] == Chars(CellsAfter(text, fields))[s.start..s.end]
  {
    forall o { NothingDeleted(text, fields, o); }
    UntouchedSpansAreExact(text, fields, s);
  }

  /** With an empty replacement it can fail: the deleted character lies inside the
      reported interval, which is wider than the span. */
  lemma DeletionWidensReport(s: Span)
    requires s.start == 0 && s.end == 2
    ensures var cells := Round(Original("abc"), [Edit(Span(1, 2, "X", 1.0), "")]);
      && |cells| == 2 && Untouched(cells, s)
      && Report(cells, s).start == 0 && Report(cells, s).end == 3
  {
    var text, edits := "abc", [Edit(Span(1, 2, "X", 1.0), "")];
    SortOfSorted(edits, EditKey);
    assert Ordered(edits[1..], 2, 3);
    assert Ordered(edits, 0, 3);
    assert Rewrite(Original(text), edits[1..], 2) == Original(text)[2..];
    assert Round(Original(text), edits) == [Cell('a', 0, true), Cell('c', 2, true)];
  }
}
