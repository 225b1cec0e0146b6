/** app/bench/combinators.py, `pair_ranges`: what the recorded pairs and their markers
    are, said of the characters of the text.
 */
module Delimiters {
  import opened Annotation
  import opened Lists
  import opened Sorting
  import opened Combinators
  import opened Pairs

  /** An opening delimiter and its own closing one, or twice the same quote. */
  predicate Match(a: char, b: char)
  {
    || (a == '(' && b == ')') || (a == '[' && b == ']') || (a == '{' && b == '}') || (a == '<' && b == '>')
    || (a == b && (a == '"' || a == '\'' || a == '`'))
  }

  /** A contextual span shares a character with the pair, its delimiters included, and no
      mandatory span lies inside it. */
  ghost predicate Surrounds(spans: seq<LabelledSpan>, yellow: seq<LabelledSpan>, r: PairRange)
  {
    && (exists s :: s in yellow && s.start <= r.end && s.end > r.o)
    && forall s :: s in spans && s.category.Mandatory? ==> s.start < r.o || s.end > r.end + 1
  }

  ghost predicate Placed(text: string, found: seq<PairRange>)
  {
    forall r :: r in found ==> 0 <= r.o < r.end < |text|
  }

  /** The two delimiters of each pair. */
  ghost function Delims(text: string, found: seq<PairRange>): (r: seq<seq<char>>)
    requires Placed(text, found)
    ensures |r| == |found|
  {
    seq(|found|, i requires 0 <= i < |found| => assert found[i] in found; [text[found[i].o], text[found[i].end]])
  }

  lemma DelimsSnoc(text: string, found: seq<PairRange>, r: PairRange)
    requires Placed(text, found) && 0 <= r.o < r.end < |text|
    ensures Placed(text, found + [r])
    ensures Concat(Delims(text, found + [r])) == Concat(Delims(text, found)) + [text[r.o], text[r.end]]
  {
    assert Delims(text, found + [r]) == Delims(text, found) + [[text[r.o], text[r.end]]];
    ConcatSnoc(Delims(text, found), [text[r.o], text[r.end]]);
  }

  lemma {:induction false} ScanMarks(text: string, keep: Keep, k: nat)
    requires k <= |text|
    ensures Placed(text, Scanned(text, keep, START, 0, k).found)
    ensures Scanned(text, keep, START, 0, k).markers == Concat(Delims(text, Scanned(text, keep, START, 0, k).found))
  {
    if k > 0 {
      var st := Scanned(text, keep, START, 0, k - 1);
      ScanMarks(text, keep, k - 1);
      ScanKeepsSane(text, keep, k - 1);
      StepCases(text, keep, st, k - 1);
      if Closes(text, st, k - 1) {
        DelimsSnoc(text, st.found, PairRange(st.stack[|st.stack| - 1], k - 1));
      }
    }
  }

  /** Every recorded pair consists of matching delimiters and surrounds contextual spans
      only; its two delimiters are the markers, in the order of the pairs. */
  lemma PairsReadText(text: string, spans: seq<LabelledSpan>, yellow: seq<LabelledSpan>)
    ensures var scan := PairsFound(text, spans, yellow);
      && Placed(text, scan.found)
      && (forall r :: r in scan.found ==> Match(text[r.o], text[r.end]) && Surrounds(spans, yellow, r))
      && scan.markers == Concat(Delims(text, scan.found))
  {
    if yellow != [] {
      var keep := EnclosingPairs(spans, yellow);
      var scan := Scanned(text, keep, START, 0, |text|);
      ScanMarks(text, keep, |text|);
      ScanKeepsSane(text, keep, |text|);
      forall r | r in scan.found ensures Match(text[r.o], text[r.end]) && Surrounds(spans, yellow, r) {
        assert Matched(text, r) && keep(r);
      }
    }
  }

  /** Where the text is a tree, exactly such parts are recorded. */
  lemma TreePairsReadText(d: Doc, spans: seq<LabelledSpan>, yellow: seq<LabelledSpan>, r: PairRange)
    requires WellNested(d, ' ') && yellow != []
    ensures r in PairsFound(Flatten(d), spans, yellow).found <==> r in Parts(d, 0) && Surrounds(spans, yellow, r)
  {
    WellNestedPairs(d, spans, yellow);
    FilterMembers(Parts(d, 0), EnclosingPairs(spans, yellow));
    assert EnclosingPairs(spans, yellow)(r) <==> Surrounds(spans, yellow, r);
  }
}
