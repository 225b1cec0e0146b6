/** app/bench/rscore.py, the interval part: predictions, support, gaps and false
    positives as lists of runs.

    The reference is the set of covered characters.  `Represents` says that a
    list is the canonical one for a set (sorted, strictly separated, exactly the
    set), and `CanonicalUnique` that there is only one.
 */
module Runs {
  import opened Annotation
  import opened Sorting

  datatype Run = Run(start: int, end: int)

  ghost predicate Canonical(runs: seq<Run>)
  {
    && (forall i :: 0 <= i < |runs| ==> runs[i].start < runs[i].end)
    && (forall i, j :: 0 <= i < j < |runs| ==> runs[i].end < runs[j].start)
  }

  /** Some run of the list covers `p`. */
  predicate In(p: int, runs: seq<Run>)
  {
    runs != [] && (runs[0].start <= p < runs[0].end || In(p, runs[1..]))
  }

  ghost predicate Represents(runs: seq<Run>, cover: set<int>)
  {
    Canonical(runs) && forall p :: In(p, runs) <==> p in cover
  }

  predicate Between(lo: int, p: int, hi: int) { lo <= p < hi }

  ghost function Range(lo: int, hi: int): (r: set<int>)
  {
    set p | lo <= p < hi && Between(lo, p, hi)
  }

  predicate Covers(s: LabelledSpan, p: int) { s.start <= p < s.end }

  predicate CoveredBy(p: int, spans: seq<LabelledSpan>)
  {
    exists s :: s in spans && Covers(s, p)
  }

  /** The characters of a text of `n` characters that the spans cover. */
  ghost function Cover(spans: seq<LabelledSpan>, n: int): (r: set<int>)
  {
    set p | 0 <= p < n && CoveredBy(p, spans)
  }

  /** The canonical runs of a set, built from the right. */
  ghost function RunsOf(cover: set<int>, lo: int, hi: int): (r: seq<Run>)
    decreases hi - lo
  {
    if lo >= hi then [] else
      var rest := RunsOf(cover, lo + 1, hi);
      if lo !in cover then rest
      else if rest != [] && rest[0].start == lo + 1 then [Run(lo, rest[0].end)] + rest[1..]
      else [Run(lo, lo + 1)] + rest
  }

  lemma InCons(p: int, r: Run, rest: seq<Run>)
    ensures In(p, [r] + rest) <==> r.start <= p < r.end || In(p, rest)
  {
    assert ([r] + rest)[1..] == rest;
  }

  lemma {:induction false} InSnoc(p: int, runs: seq<Run>, r: Run)
    ensures In(p, runs + [r]) <==> In(p, runs) || r.start <= p < r.end
  {
    if runs == [] {
      assert [] + [r] == [r];
    } else {
      assert (runs + [r])[1..] == runs[1..] + [r];
      InSnoc(p, runs[1..], r);
    }
  }

  lemma {:induction false} InIndex(p: int, runs: seq<Run>) returns (i: nat)
    requires In(p, runs)
    ensures i < |runs| && runs[i].start <= p < runs[i].end
  {
    if runs[0].start <= p < runs[0].end {
      i := 0;
    } else {
      var j := InIndex(p, runs[1..]);
      i := j + 1;
    }
  }

  lemma {:induction false} IndexIn(p: int, runs: seq<Run>, i: nat)
    requires i < |runs| && runs[i].start <= p < runs[i].end
    ensures In(p, runs)
  {
    if i > 0 {
      IndexIn(p, runs[1..], i - 1);
    }
  }

  lemma CanonicalSnoc(runs: seq<Run>, r: Run)
    requires Canonical(runs) && r.start < r.end && (runs != [] ==> runs[|runs| - 1].end < r.start)
    ensures Canonical(runs + [r])
  {
    forall i | 0 <= i < |runs| ensures runs[i].end < r.start {
      assert i == |runs| - 1 || runs[i].end < runs[|runs| - 1].start;
    }
  }

  lemma {:induction false} RunsOfIn(cover: set<int>, lo: int, hi: int, p: int)
    ensures In(p, RunsOf(cover, lo, hi)) <==> p in cover && lo <= p < hi
    decreases hi - lo
  {
    if lo < hi {
      var rest := RunsOf(cover, lo + 1, hi);
      RunsOfIn(cover, lo + 1, hi, p);
      if lo in cover && rest != [] && rest[0].start == lo + 1 {
        RunsOfStart(cover, lo + 1, hi);
        InCons(p, Run(lo, rest[0].end), rest[1..]);
      } else if lo in cover {
        InCons(p, Run(lo, lo + 1), rest);
      }
    }
  }

  lemma {:induction false} RunsOfStart(cover: set<int>, lo: int, hi: int)
    ensures Canonical(RunsOf(cover, lo, hi))
    ensures RunsOf(cover, lo, hi) != [] ==> lo <= RunsOf(cover, lo, hi)[0].start
    decreases hi - lo
  {
    if lo < hi {
      RunsOfStart(cover, lo + 1, hi);
    }
  }

  lemma RunsOfRepresents(cover: set<int>, lo: int, hi: int)
    ensures Represents(RunsOf(cover, lo, hi), cover * Range(lo, hi))
  {
    RunsOfStart(cover, lo, hi);
    forall p ensures In(p, RunsOf(cover, lo, hi)) <==> p in cover * Range(lo, hi) {
      RunsOfIn(cover, lo, hi, p);
    }
  }

  lemma InBounds(runs: seq<Run>, p: int)
    requires Canonical(runs) && In(p, runs)
    ensures runs[0].start <= p < runs[|runs| - 1].end
    ensures p < runs[0].end || (|runs| > 1 && runs[1].start <= p)
  {
    var i := InIndex(p, runs);
    assert i == 0 || runs[0].end < runs[i].start;
    assert i <= 1 || runs[1].end < runs[i].start;
    assert i == |runs| - 1 || runs[i].end < runs[|runs| - 1].start;
  }

  /** The first run is the beginning of the set, and the tail is the rest. */
  lemma HeadOfRuns(runs: seq<Run>, p: int)
    requires Canonical(runs) && runs != []
    ensures p < runs[0].start ==> !In(p, runs)
    ensures runs[0].start <= p < runs[0].end ==> In(p, runs)
    ensures p == runs[0].end ==> !In(p, runs)
    ensures In(p, runs[1..]) <==> In(p, runs) && p >= runs[0].end
  {
    if In(p, runs) {
      InBounds(runs, p);
    }
    if In(p, runs[1..]) {
      InBounds(runs[1..], p);
    }
  }

  lemma SameHead(s: seq<Run>, t: seq<Run>)
    requires Canonical(s) && Canonical(t) && s != [] && t != []
    requires forall p :: In(p, s) <==> In(p, t)
    ensures s[0] == t[0]
  {
    HeadOfRuns(s, s[0].start);
    HeadOfRuns(t, t[0].start);
    HeadOfRuns(t, s[0].start);
    HeadOfRuns(s, t[0].start);
    HeadOfRuns(s, s[0].end);
    HeadOfRuns(t, t[0].end);
    HeadOfRuns(t, s[0].end);
    HeadOfRuns(s, t[0].end);
  }

  /** A set of characters has one canonical list of runs. */
  lemma {:induction false} CanonicalUnique(s: seq<Run>, t: seq<Run>)
    requires Canonical(s) && Canonical(t)
    requires forall p :: In(p, s) <==> In(p, t)
    ensures s == t
  {
    SameEmptiness(s, t);
    SameEmptiness(t, s);
    if s != [] {
      SameHead(s, t);
      forall p ensures In(p, s[1..]) <==> In(p, t[1..]) {
        HeadOfRuns(s, p);
        HeadOfRuns(t, p);
      }
      CanonicalUnique(s[1..], t[1..]);
      assert s == [s[0]] + s[1..] && t == [t[0]] + t[1..];
    }
  }

  lemma SameEmptiness(s: seq<Run>, t: seq<Run>)
    requires Canonical(s) && forall p :: In(p, s) <==> In(p, t)
    ensures s != [] ==> t != []
  {
    if s != [] {
      HeadOfRuns(s, s[0].start);
      assert In(s[0].start, t);
    }
  }

  /** A list that represents a set within the text is the one `RunsOf` builds. */
  lemma RepresentsUnique(runs: seq<Run>, cover: set<int>, n: int)
    requires Represents(runs, cover) && cover <= Range(0, n)
    ensures runs == RunsOf(cover, 0, n)
  {
    RunsOfRepresents(cover, 0, n);
    assert cover * Range(0, n) == cover;
    CanonicalUnique(runs, RunsOf(cover, 0, n));
  }

  // ----- prediction_chars, support_runs -----

  function SpanKey(s: LabelledSpan): Key { Key(s.start, s.end, 0.0) }

  function Max(a: int, b: int): int { if a < b then b else a }

  function Min(a: int, b: int): int { if a < b then a else b }

  /** Merges `[s, e)` into the last run, or appends it. */
  function Merged(merged: seq<Run>, s: int, e: int): (r: seq<Run>)
  {
    var last := |merged| - 1;
    if merged != [] && s <= merged[last].end
    then merged[last := Run(merged[last].start, Max(merged[last].end, e))]
    else merged + [Run(s, e)]
  }

  /** One round of the loop: an interval that is empty once clamped is skipped. */
  function MergedWith(merged: seq<Run>, interval: LabelledSpan, textLen: nat): (r: seq<Run>)
  {
    var s, e := Clamp(interval.start, textLen), Clamp(interval.end, textLen);
    if s >= e then merged else Merged(merged, s, e)
  }

  lemma MergeStep(merged: seq<Run>, s: int, e: int, p: int)
    requires Canonical(merged) && s < e
    requires merged != [] ==> merged[|merged| - 1].start <= s
    ensures Canonical(Merged(merged, s, e))
    ensures In(p, Merged(merged, s, e)) <==> In(p, merged) || s <= p < e
  {
    InSnoc(p, merged, Run(s, e));
    if merged != [] {
      var last := |merged| - 1;
      var init := merged[..last];
      var grown := Run(merged[last].start, Max(merged[last].end, e));
      assert merged == init + [merged[last]];
      assert merged[last := grown] == init + [grown];
      InSnoc(p, init, merged[last]);
      InSnoc(p, init, grown);
    }
  }

  function Clamp(x: int, textLen: nat): (r: int) { Max(0, Min(x, textLen)) }

  /** `merged` is the canonical form of what the first `i` intervals cover. */
  ghost predicate MergedUpTo(merged: seq<Run>, intervals: seq<LabelledSpan>, i: nat, textLen: nat)
    requires i <= |intervals|
  {
    && Canonical(merged)
    && (merged != [] ==> i > 0 && merged[|merged| - 1].start <= Clamp(intervals[i - 1].start, textLen))
    && (forall p :: In(p, merged) <==> 0 <= p < textLen && CoveredBy(p, intervals[..i]))
  }

  lemma CoveredSnoc(p: int, spans: seq<LabelledSpan>, s: LabelledSpan)
    ensures CoveredBy(p, spans + [s]) <==> CoveredBy(p, spans) || Covers(s, p)
  {
    assert forall x :: x in spans + [s] <==> x in spans || x == s;
  }

  lemma MergeStarts(intervals: seq<LabelledSpan>, textLen: nat)
    ensures MergedUpTo([], intervals, 0, textLen)
  {
    assert intervals[..0] == [];
    forall p ensures !CoveredBy(p, []) {
    }
  }

  lemma MergeAt(merged: seq<Run>, intervals: seq<LabelledSpan>, i: nat, textLen: nat, p: int)
    requires i < |intervals| && MergedUpTo(merged, intervals, i, textLen)
    requires merged != [] ==> merged[|merged| - 1].start <= Clamp(intervals[i].start, textLen)
    ensures var next := MergedWith(merged, intervals[i], textLen);
            Canonical(next) && (In(p, next) <==> 0 <= p < textLen && CoveredBy(p, intervals[..i + 1]))
  {
    var s, e := Clamp(intervals[i].start, textLen), Clamp(intervals[i].end, textLen);
    assert intervals[..i + 1] == intervals[..i] + [intervals[i]];
    CoveredSnoc(p, intervals[..i], intervals[i]);
    assert s <= p < e <==> 0 <= p < textLen && Covers(intervals[i], p);
    if s < e {
      MergeStep(merged, s, e, p);
    }
  }

  /** No run starts later than the interval merged last. */
  lemma LastStartsBy(merged: seq<Run>, interval: LabelledSpan, textLen: nat)
    requires merged != [] ==> merged[|merged| - 1].start <= Clamp(interval.start, textLen)
    ensures var next := MergedWith(merged, interval, textLen);
      next != [] ==> next[|next| - 1].start <= Clamp(interval.start, textLen)
  {
  }

  lemma MergeOne(merged: seq<Run>, intervals: seq<LabelledSpan>, i: nat, textLen: nat)
    requires i < |intervals| && Sorted(intervals, SpanKey)
    requires MergedUpTo(merged, intervals, i, textLen)
    ensures MergedUpTo(MergedWith(merged, intervals[i], textLen), intervals, i + 1, textLen)
  {
    assert i > 0 ==> Le(SpanKey(intervals[i - 1]), SpanKey(intervals[i]));
    var next := MergedWith(merged, intervals[i], textLen);
    LastStartsBy(merged, intervals[i], textLen);
    MergeAt(merged, intervals, i, textLen, 0);
    forall p ensures In(p, next) <==> 0 <= p < textLen && CoveredBy(p, intervals[..i + 1]) {
      MergeAt(merged, intervals, i, textLen, p);
    }
  }

  lemma MergeEnds(merged: seq<Run>, intervals: seq<LabelledSpan>, spans: seq<LabelledSpan>, textLen: nat)
    requires MergedUpTo(merged, intervals, |intervals|, textLen)
    requires forall s :: s in intervals <==> s in spans
    ensures Represents(merged, Cover(spans, textLen))
    ensures merged == RunsOf(Cover(spans, textLen), 0, textLen)
  {
    assert intervals[..|intervals|] == intervals;
    forall p ensures In(p, merged) <==> p in Cover(spans, textLen) {
      assert CoveredBy(p, intervals) <==> CoveredBy(p, spans);
    }
    RepresentsUnique(merged, Cover(spans, textLen), textLen);
  }

  method PredictionChars(spans: seq<LabelledSpan>, textLen: nat) returns (merged: seq<Run>)
    ensures Represents(merged, Cover(spans, textLen))
    ensures merged == RunsOf(Cover(spans, textLen), 0, textLen)
  {
    var intervals := SortBy(spans, SpanKey);
    SortSorts(spans, SpanKey);
    merged := [];
    MergeStarts(intervals, textLen);
    for i := 0 to |intervals|
      invariant MergedUpTo(merged, intervals, i, textLen)
    {
      MergeOne(merged, intervals, i, textLen);
      ghost var next := MergedWith(merged, intervals[i], textLen);
      var s := Max(0, Min(intervals[i].start, textLen));
      var e := Max(0, Min(intervals[i].end, textLen));
      if s >= e {
        assert merged == next;
        continue;
      }
      if merged != [] && s <= merged[|merged| - 1].end {
        var last := merged[|merged| - 1];
        merged := merged[|merged| - 1 := Run(last.start, Max(last.end, e))];
      } else {
        merged := merged + [Run(s, e)];
      }
      assert merged == next;
    }
    MergeEnds(merged, intervals, spans, textLen);
  }

  // ----- false_positive_runs -----

  /** The characters of a list of runs. */
  ghost function Chars(runs: seq<Run>, n: int): (r: set<int>)
  {
    set p | 0 <= p < n && In(p, runs)
  }

  /** `fps` are the false positives of the first `i` predictions, and of prediction
      `i` up to `cursor`. */
  ghost predicate FalseUpTo(fps: seq<Run>, preds: seq<Run>, support: seq<Run>, i: nat, cursor: int)
    requires i < |preds|
  {
    && Canonical(fps) && preds[i].start <= cursor <= preds[i].end
    && (fps != [] ==>
          var last := fps[|fps| - 1].end;
          last < cursor || (last == cursor && (cursor == preds[i].end || In(cursor, support))))
    && (forall p :: In(p, fps) <==>
          (In(p, preds[..i]) || preds[i].start <= p < cursor) && !In(p, support))
  }

  /** The next false positive at or after `cursor` within a prediction ending at `pe`. */
  method NextFalse(cursor: int, pe: int, support: seq<Run>) returns (start: int, end: int)
    requires cursor < pe
    ensures cursor <= start <= end <= pe && (start == end ==> start == pe)
    ensures forall p :: cursor <= p < start ==> In(p, support)
    ensures forall p :: start <= p < end ==> !In(p, support)
    ensures end < pe ==> In(end, support)
  {
    start := cursor;
    while start < pe && In(start, support)
      invariant cursor <= start <= pe
      invariant forall p :: cursor <= p < start ==> In(p, support)
    {
      start := start + 1;
    }
    end := start;
    while end < pe && !In(end, support)
      invariant start <= end <= pe
      invariant forall p :: start <= p < end ==> !In(p, support)
    {
      end := end + 1;
    }
  }

  lemma FalseAt(fps: seq<Run>, preds: seq<Run>, support: seq<Run>, i: nat, cursor: int, start: int, end: int, p: int)
    requires i < |preds| && FalseUpTo(fps, preds, support, i, cursor)
    requires cursor <= start <= end <= preds[i].end
    requires cursor <= p < start ==> In(p, support)
    requires start <= p < end ==> !In(p, support)
    ensures In(p, if start < end then fps + [Run(start, end)] else fps) <==>
      (In(p, preds[..i]) || preds[i].start <= p < end) && !In(p, support)
  {
    InSnoc(p, fps, Run(start, end));
  }

  lemma FalseStep(fps: seq<Run>, preds: seq<Run>, support: seq<Run>, i: nat, cursor: int, start: int, end: int)
    requires i < |preds| && FalseUpTo(fps, preds, support, i, cursor)
    requires cursor <= start <= end <= preds[i].end && (start == end ==> start == preds[i].end)
    requires forall p :: cursor <= p < start ==> In(p, support)
    requires forall p :: start <= p < end ==> !In(p, support)
    requires end < preds[i].end ==> In(end, support)
    ensures FalseUpTo(if start < end then fps + [Run(start, end)] else fps, preds, support, i, end)
  {
    var next := if start < end then fps + [Run(start, end)] else fps;
    if start < end {
      CanonicalSnoc(fps, Run(start, end));
    }
    forall p ensures In(p, next) <==> (In(p, preds[..i]) || preds[i].start <= p < end) && !In(p, support) {
      FalseAt(fps, preds, support, i, cursor, start, end, p);
    }
  }

  lemma FalseNextPrediction(fps: seq<Run>, preds: seq<Run>, support: seq<Run>, i: nat)
    requires i + 1 < |preds| && Canonical(preds) && FalseUpTo(fps, preds, support, i, preds[i].end)
    ensures FalseUpTo(fps, preds, support, i + 1, preds[i + 1].start)
  {
    assert preds[..i + 1] == preds[..i] + [preds[i]];
    forall p { InSnoc(p, preds[..i], preds[i]); }
  }

  /** The inner loop: the false positives of one prediction. */
  method FalseInPrediction(before: seq<Run>, predictionRuns: seq<Run>, supportRuns: seq<Run>, i: nat)
    returns (fps: seq<Run>)
    requires i < |predictionRuns| && Canonical(predictionRuns)
    requires FalseUpTo(before, predictionRuns, supportRuns, i, predictionRuns[i].start)
    ensures FalseUpTo(fps, predictionRuns, supportRuns, i, predictionRuns[i].end)
  {
    fps := before;
    var cursor, pe := predictionRuns[i].start, predictionRuns[i].end;
    while cursor < pe
      invariant cursor <= pe && FalseUpTo(fps, predictionRuns, supportRuns, i, cursor)
      decreases pe - cursor
    {
      var start, end := NextFalse(cursor, pe, supportRuns);
      FalseStep(fps, predictionRuns, supportRuns, i, cursor, start, end);
      if start >= pe {
        cursor := end;
        break;
      }
      cursor := end;
      fps := fps + [Run(start, cursor)];
    }
  }

  /** The maximal runs of predicted characters outside the support. */
  method FalsePositiveRuns(predictionRuns: seq<Run>, supportRuns: seq<Run>, textLen: int)
    returns (fps: seq<Run>)
    requires Canonical(predictionRuns)
    ensures Canonical(fps)
    ensures forall p :: In(p, fps) <==> In(p, predictionRuns) && !In(p, supportRuns)
  {
    fps := [];
    if predictionRuns == [] {
      return;
    }
    var i := 0;
    while i < |predictionRuns|
      invariant 0 <= i <= |predictionRuns|
      invariant i < |predictionRuns| ==> FalseUpTo(fps, predictionRuns, supportRuns, i, predictionRuns[i].start)
      invariant i == |predictionRuns| ==> FalseUpTo(fps, predictionRuns, supportRuns, i - 1, predictionRuns[i - 1].end)
    {
      fps := FalseInPrediction(fps, predictionRuns, supportRuns, i);
      if i + 1 < |predictionRuns| {
        FalseNextPrediction(fps, predictionRuns, supportRuns, i);
      }
      i := i + 1;
    }
    FalseEnds(fps, predictionRuns, supportRuns);
  }

  lemma FalseEnds(fps: seq<Run>, preds: seq<Run>, support: seq<Run>)
    requires preds != [] && FalseUpTo(fps, preds, support, |preds| - 1, preds[|preds| - 1].end)
    ensures Canonical(fps) && forall p :: In(p, fps) <==> In(p, preds) && !In(p, support)
  {
    var init, last := preds[..|preds| - 1], preds[|preds| - 1];
    assert preds == init + [last];
    forall p { InSnoc(p, init, last); }
  }

  // ----- gap_runs -----

  /** `gaps` are the gaps in front of `cursor`, up to which the first `i` runs of
      the support reach. */
  ghost predicate GapsBefore(gaps: seq<Run>, support: seq<Run>, i: nat, cursor: int)
    requires i <= |support|
  {
    && cursor == (if i == 0 then 0 else support[i - 1].end) && cursor >= 0
    && Canonical(gaps)
    && (gaps != [] ==> i > 0 && gaps[|gaps| - 1].end <= support[i - 1].start)
    && (forall p :: In(p, gaps) <==> 0 <= p < cursor && !In(p, support[..i]))
  }

  lemma NextGap(gaps: seq<Run>, support: seq<Run>, i: nat, cursor: int, hi: int, p: int)
    requires Canonical(support) && i <= |support| && GapsBefore(gaps, support, i, cursor)
    requires cursor <= hi && (i < |support| ==> hi <= support[i].start)
    ensures var next := if cursor < hi then gaps + [Run(cursor, hi)] else gaps;
      In(p, next) <==> 0 <= p < hi && !In(p, support[..i])
  {
    InSnoc(p, gaps, Run(cursor, hi));
    if In(p, support[..i]) {
      InBounds(support[..i], p);
    }
  }

  lemma GapStep(gaps: seq<Run>, support: seq<Run>, i: nat, cursor: int)
    requires Canonical(support) && i < |support| && 0 <= support[0].start
    requires GapsBefore(gaps, support, i, cursor)
    ensures var s := support[i].start;
      GapsBefore(if cursor < s then gaps + [Run(cursor, s)] else gaps, support, i + 1, support[i].end)
  {
    var s, e := support[i].start, support[i].end;
    var next := if cursor < s then gaps + [Run(cursor, s)] else gaps;
    assert i > 0 ==> support[i - 1].end < support[i].start;
    assert e >= 0;
    forall p ensures In(p, next) <==> 0 <= p < e && !In(p, support[..i + 1]) {
      NextGap(gaps, support, i, cursor, s, p);
      assert support[..i + 1] == support[..i] + [support[i]];
      InSnoc(p, support[..i], support[i]);
      if In(p, support[..i]) {
        InBounds(support[..i], p);
      }
    }
  }

  lemma LastGap(gaps: seq<Run>, support: seq<Run>, cursor: int, n: int)
    requires Canonical(support) && GapsBefore(gaps, support, |support|, cursor) && cursor <= n
    ensures var all := if cursor < n then gaps + [Run(cursor, n)] else gaps;
      Canonical(all) && forall p :: In(p, all) <==> 0 <= p < n && !In(p, support)
  {
    assert support[..|support|] == support;
    var all := if cursor < n then gaps + [Run(cursor, n)] else gaps;
    forall p ensures In(p, all) <==> 0 <= p < n && !In(p, support) {
      NextGap(gaps, support, |support|, cursor, n, p);
    }
  }

  /** The gaps and the support tile the text. */
  method GapRuns(supportRuns: seq<Run>, textLen: nat) returns (gaps: seq<Run>)
    requires Canonical(supportRuns)
    requires forall i :: 0 <= i < |supportRuns| ==> 0 <= supportRuns[i].start && supportRuns[i].end <= textLen
    ensures Canonical(gaps)
    ensures forall p :: In(p, gaps) <==> 0 <= p < textLen && !In(p, supportRuns)
  {
    gaps := [];
    if textLen == 0 {
      assert forall p :: !In(p, gaps);
      return;
    }
    var cursor := 0;
    for i := 0 to |supportRuns|
      invariant GapsBefore(gaps, supportRuns, i, cursor)
    {
      var s, e := supportRuns[i].start, supportRuns[i].end;
      GapStep(gaps, supportRuns, i, cursor);
      if cursor < s {
        gaps := gaps + [Run(cursor, s)];
      }
      cursor := Max(cursor, e);
    }
    LastGap(gaps, supportRuns, cursor, textLen);
    if cursor < textLen {
      gaps := gaps + [Run(cursor, textLen)];
    }
  }

  // ----- coverage -----

  ghost function SpanChars(s: LabelledSpan): (r: set<int>)
  {
    Range(s.start, s.end)
  }

  /** The share of the span's characters that is covered. */
  ghost function Share(s: LabelledSpan, cover: set<int>): (r: real)
  {
    if s.end <= s.start then 0.0 else |SpanChars(s) * cover| as real / (s.end - s.start) as real
  }

  lemma {:induction false} RangeSize(lo: int, hi: int)
    ensures |Range(lo, hi)| == if lo < hi then hi - lo else 0
    decreases hi - lo
  {
    if lo < hi {
      RangeSize(lo + 1, hi);
      assert Range(lo, hi) == {lo} + Range(lo + 1, hi);
    } else {
      assert Range(lo, hi) == {};
    }
  }

  ghost function Covered(s: LabelledSpan, runs: seq<Run>): (r: set<int>)
  {
    set p | p in SpanChars(s) && In(p, runs)
  }

  lemma CoveredStep(span: LabelledSpan, runs: seq<Run>, i: nat)
    requires Canonical(runs) && i < |runs| && span.start < span.end
    ensures var lo, hi := Max(runs[i].start, span.start), Min(runs[i].end, span.end);
            |Covered(span, runs[..i + 1])| == |Covered(span, runs[..i])| + Max(0, hi - lo)
  {
    var lo, hi := Max(runs[i].start, span.start), Min(runs[i].end, span.end);
    var before, after := Covered(span, runs[..i]), Covered(span, runs[..i + 1]);
    assert runs[..i + 1] == runs[..i] + [runs[i]];
    forall p ensures p in after <==> p in before || p in Range(lo, hi) {
      InSnoc(p, runs[..i], runs[i]);
    }
    forall p | p in before ensures p !in Range(lo, hi) {
      InBounds(runs[..i], p);
    }
    assert after == before + Range(lo, hi);
    RangeSize(lo, hi);
  }

  lemma CoveredAll(span: LabelledSpan, runs: seq<Run>, i: nat)
    requires Canonical(runs) && i <= |runs|
    requires i < |runs| ==> runs[i].start >= span.end
    ensures Covered(span, runs[..i]) == Covered(span, runs)
  {
    assert forall k :: i < k < |runs| ==> runs[i].end < runs[k].start;
    forall p | p in SpanChars(span) ensures In(p, runs[..i]) <==> In(p, runs) {
      if In(p, runs) {
        var j := InIndex(p, runs);
        IndexIn(p, runs[..i], j);
      }
      if In(p, runs[..i]) {
        var j := InIndex(p, runs[..i]);
        IndexIn(p, runs, j);
      }
    }
  }

  method Coverage(span: LabelledSpan, predRuns: seq<Run>) returns (r: real)
    requires Canonical(predRuns)
    ensures forall cover: set<int> :: Represents(predRuns, cover) ==> r == Share(span, cover)
  {
    var total := span.end - span.start;
    if total <= 0 {
      return 0.0;
    }
    var hit := 0;
    assert Covered(span, predRuns[..0]) == {};
    var i := 0;
    while i < |predRuns|
      invariant 0 <= i <= |predRuns|
      invariant hit == |Covered(span, predRuns[..i])|
    {
      var ps, pe := predRuns[i].start, predRuns[i].end;
      CoveredStep(span, predRuns, i);
      if pe <= span.start {
        i := i + 1;
        continue;
      }
      if ps >= span.end {
        break;
      }
      hit := hit + (Min(pe, span.end) - Max(ps, span.start));
      i := i + 1;
    }
    CoveredAll(span, predRuns, i);
    forall cover: set<int> | Represents(predRuns, cover) ensures hit == |SpanChars(span) * cover| {
      assert Covered(span, predRuns) == SpanChars(span) * cover;
    }
    r := hit as real / total as real;
  }

  /** Coverage lies in [0, 1], and is 1 exactly when the whole span is covered. */
  lemma ShareBounds(s: LabelledSpan, cover: set<int>)
    requires s.start < s.end
    ensures 0.0 <= Share(s, cover) <= 1.0
    ensures Share(s, cover) == 1.0 <==> SpanChars(s) <= cover
    ensures Share(s, cover) == 0.0 <==> SpanChars(s) * cover == {}
  {
    RangeSize(s.start, s.end);
    var part := SpanChars(s) * cover;
    SubsetSize(part, SpanChars(s));
    DivideFacts(|part|, s.end - s.start);
    assert |part| == 0 <==> part == {};
  }

  lemma DivideFacts(hit: nat, total: nat)
    requires hit <= total && total > 0
    ensures 0.0 <= hit as real / total as real <= 1.0
    ensures hit as real / total as real == 1.0 <==> hit == total
    ensures hit as real / total as real == 0.0 <==> hit == 0
  {
    var q := hit as real / total as real;
    assert q * total as real == hit as real;
  }

  lemma SubsetSize<T>(a: set<T>, b: set<T>)
    requires a <= b
    ensures |a| <= |b|
    ensures |a| == |b| <==> a == b
  {
    assert b == a + (b - a);
    assert |b| == |a| + |b - a|;
    if |b - a| == 0 {
      assert b - a == {};
    }
  }
}
