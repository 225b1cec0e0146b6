/** app/bench/combinators.py, `pair_ranges`: matching delimiters with a stack. */
module Pairs {
  import opened Annotation
  import opened Sorting
  import opened Combinators

  /** The opening delimiter sits at `o`, the closing one at `end`. */
  datatype PairRange = PairRange(o: int, end: int)

  datatype Scan = Scan(stack: seq<nat>, found: seq<PairRange>, markers: seq<char>)

  const START := Scan([], [], [])

  predicate Delimits(ch: char) { IsOpener(ch) || IsSymmetric(ch) }

  /** A yellow span overlaps the range, and no mandatory span lies inside it. */
  predicate Encloses(spans: seq<LabelledSpan>, yellow: seq<LabelledSpan>, r: PairRange)
  {
    && (exists s :: s in yellow && s.start < r.end + 1 && s.end > r.o)
    && !exists s :: s in spans && s.category.Mandatory? && s.start >= r.o && s.end <= r.end + 1
  }

  /** Which pairs are recorded. */
  type Keep = PairRange -> bool

  function EnclosingPairs(spans: seq<LabelledSpan>, yellow: seq<LabelledSpan>): (keep: Keep)
  {
    r => Encloses(spans, yellow, r)
  }

  ghost predicate Bounded(st: Scan, k: nat)
  {
    forall i :: 0 <= i < |st.stack| ==> st.stack[i] < k
  }

  /** The pair that closes at `i` is recorded if it encloses the right spans. */
  function Close(text: string, keep: Keep, st: Scan, i: nat): (r: Scan)
    requires i < |text| && st.stack != [] && st.stack[|st.stack| - 1] < |text|
  {
    var o := st.stack[|st.stack| - 1];
    var rest := st.stack[..|st.stack| - 1];
    if keep(PairRange(o, i))
    then Scan(rest, st.found + [PairRange(o, i)], st.markers + [text[o], text[i]])
    else st.(stack := rest)
  }

  /** What one character does to the scan. */
  function Step(text: string, keep: Keep, st: Scan, i: nat): (r: Scan)
    requires i < |text| && Bounded(st, i)
    ensures Bounded(r, i + 1)
  {
    var ch := text[i];
    var n := |st.stack|;
    if IsSymmetric(ch) then
      if n > 0 && text[st.stack[n - 1]] == ch then Close(text, keep, st, i)
      else st.(stack := st.stack + [i])
    else if IsOpener(ch) then st.(stack := st.stack + [i])
    else if !IsCloser(ch) || n == 0 then st
    else if ch != PairOf(text[st.stack[n - 1]]) then st.(stack := st.stack[..n - 1])
    else Close(text, keep, st, i)
  }

  /** The scan of `text[i..j]` from `st` on. */
  function Scanned(text: string, keep: Keep, st: Scan, i: nat, j: nat): (r: Scan)
    requires i <= j <= |text| && Bounded(st, i)
    ensures Bounded(r, j)
  {
    if i == j then st else Step(text, keep, Scanned(text, keep, st, i, j - 1), j - 1)
  }

  function PairsFound(text: string, spans: seq<LabelledSpan>, yellow: seq<LabelledSpan>): (r: Scan)
  {
    if yellow == [] then START else Scanned(text, EnclosingPairs(spans, yellow), START, 0, |text|)
  }

  method PairRanges(spans: seq<LabelledSpan>, yellow: seq<LabelledSpan>, text: string)
    returns (accumulated: seq<PairRange>, markers: seq<char>)
    ensures accumulated == PairsFound(text, spans, yellow).found
    ensures markers == PairsFound(text, spans, yellow).markers
    ensures Laminar(accumulated)
    ensures forall r :: r in accumulated ==> Matched(text, r) && Encloses(spans, yellow, r)
  {
    accumulated, markers := [], [];
    if yellow == [] {
      return;
    }
    ghost var keep := EnclosingPairs(spans, yellow);
    var stack: seq<nat> := [];
    for i := 0 to |text|
      invariant Scan(stack, accumulated, markers) == Scanned(text, keep, START, 0, i)
    {
      var ch := text[i];
      ghost var st := Scan(stack, accumulated, markers);
      assert Bounded(st, i);
      if IsSymmetric(ch) {
        if stack != [] && text[stack[|stack| - 1]] == ch {
          var opener := stack[|stack| - 1];
          stack := stack[..|stack| - 1];
          if Encloses(spans, yellow, PairRange(opener, i)) {
            accumulated := accumulated + [PairRange(opener, i)];
            markers := markers + [ch, ch];
          }
        } else {
          stack := stack + [i];
        }
      } else if IsOpener(ch) {
        stack := stack + [i];
      } else if IsCloser(ch) {
        if stack == [] {
          continue;
        }
        var opener := stack[|stack| - 1];
        stack := stack[..|stack| - 1];
        if ch != PairOf(text[opener]) {
          continue;
        }
        if !Encloses(spans, yellow, PairRange(opener, i)) {
          continue;
        }
        accumulated := accumulated + [PairRange(opener, i)];
        markers := markers + [text[opener], ch];
      }
    }
    ScanKeepsSane(text, keep, |text|);
  }

  // ----- what the stack keeps, mismatched closers included -----

  ghost predicate Matched(text: string, r: PairRange)
  {
    && 0 <= r.o < r.end < |text|
    && Delimits(text[r.o])
    && text[r.end] == PairOf(text[r.o])
  }

  /** Any two ranges are nested or disjoint, and all endpoints are distinct. */
  ghost predicate Laminar(found: seq<PairRange>)
  {
    forall i, j :: 0 <= i < j < |found| ==>
      found[i].end < found[j].end && (found[i].end < found[j].o || found[j].o < found[i].o)
  }

  ghost predicate Sane(text: string, keep: Keep, st: Scan, k: nat)
    requires k <= |text|
  {
    && Bounded(st, k)
    && (forall i, j :: 0 <= i < j < |st.stack| ==> st.stack[i] < st.stack[j])
    && (forall i :: 0 <= i < |st.stack| ==> Delimits(text[st.stack[i]]))
    && (forall r :: r in st.found ==> r.end < k && Matched(text, r) && keep(r))
    && Laminar(st.found)
    && (forall i, r :: 0 <= i < |st.stack| && r in st.found ==> st.stack[i] < r.o || r.end < st.stack[i])
  }

  lemma PopKeepsSane(text: string, keep: Keep, st: Scan, k: nat)
    requires k < |text| && st.stack != [] && Sane(text, keep, st, k)
    ensures Sane(text, keep, st.(stack := st.stack[..|st.stack| - 1]), k + 1)
  {
  }

  lemma PushKeepsSane(text: string, keep: Keep, st: Scan, k: nat)
    requires k < |text| && Sane(text, keep, st, k) && Delimits(text[k])
    ensures Sane(text, keep, st.(stack := st.stack + [k]), k + 1)
  {
  }

  lemma CloseKeepsSane(text: string, keep: Keep, st: Scan, i: nat)
    requires i < |text| && st.stack != [] && Sane(text, keep, st, i)
    requires text[i] == PairOf(text[st.stack[|st.stack| - 1]])
    ensures Sane(text, keep, Close(text, keep, st, i), i + 1)
  {
    PopKeepsSane(text, keep, st, i);
    var n := |st.stack| - 1;
    var o := st.stack[n];
    forall a | 0 <= a < |st.found|
      ensures st.found[a].end < i && (st.found[a].end < o || o < st.found[a].o)
    {
      assert st.found[a] in st.found;
    }
    LaminarSnoc(st.found, PairRange(o, i));
    forall j | 0 <= j < n ensures st.stack[j] < o {
    }
  }

  lemma LaminarSnoc(found: seq<PairRange>, r: PairRange)
    requires Laminar(found) && r.o < r.end
    requires forall a :: 0 <= a < |found| ==> found[a].end < r.end && (found[a].end < r.o || r.o < found[a].o)
    ensures Laminar(found + [r])
  {
  }

  lemma {:induction false} ScanKeepsSane(text: string, keep: Keep, k: nat)
    requires k <= |text|
    ensures Sane(text, keep, Scanned(text, keep, START, 0, k), k)
  {
    if k > 0 {
      ScanKeepsSane(text, keep, k - 1);
      StepKeepsSane(text, keep, Scanned(text, keep, START, 0, k - 1), k - 1);
    }
  }

  lemma StepKeepsSane(text: string, keep: Keep, st: Scan, i: nat)
    requires i < |text| && Sane(text, keep, st, i)
    ensures Sane(text, keep, Step(text, keep, st, i), i + 1)
  {
    StepCases(text, keep, st, i);
    if Closes(text, st, i) {
      CloseKeepsSane(text, keep, st, i);
    } else if Delimits(text[i]) {
      PushKeepsSane(text, keep, st, i);
    } else if IsCloser(text[i]) && st.stack != [] {
      PopKeepsSane(text, keep, st, i);
    } else {
      StayKeepsSane(text, keep, st, i);
    }
  }

  /** The character closes the innermost open delimiter. */
  predicate Closes(text: string, st: Scan, i: nat)
    requires i < |text| && Bounded(st, i)
  {
    st.stack != [] && text[i] == PairOf(text[st.stack[|st.stack| - 1]])
  }

  lemma StepCases(text: string, keep: Keep, st: Scan, i: nat)
    requires i < |text| && Bounded(st, i)
    requires st.stack != [] ==> Delimits(text[st.stack[|st.stack| - 1]])
    ensures Step(text, keep, st, i) ==
      if Closes(text, st, i) then Close(text, keep, st, i)
      else if Delimits(text[i]) then st.(stack := st.stack + [i])
      else if IsCloser(text[i]) && st.stack != [] then st.(stack := st.stack[..|st.stack| - 1])
      else st
  {
  }

  lemma StayKeepsSane(text: string, keep: Keep, st: Scan, k: nat)
    requires k < |text| && Sane(text, keep, st, k)
    ensures Sane(text, keep, st, k + 1)
  {
  }

  // ----- on text as a tree exactly the matching parts are found -----

  /** Text as a tree: plain characters, delimited parts, and closers without an opener.
      A part may end in a closer of the wrong kind. */
  datatype Doc =
    | End | Plain(ch: char, rest: Doc) | Nest(open: char, inner: Doc, close: char, rest: Doc)
    | Stray(closer: char, rest: Doc)

  function Flatten(d: Doc): (r: string)
    decreases d, 0
  {
    match d
    case End => ""
    case Plain(ch, rest) => [ch] + Flatten(rest)
    case Nest(open, inner, close, rest) => Delimited(open, inner, close) + Flatten(rest)
    case Stray(closer, rest) => [closer] + Flatten(rest)
  }

  function Delimited(open: char, inner: Doc, close: char): (r: string)
    decreases inner, 1
  {
    [open] + Flatten(inner) + [close]
  }

  /** A quote ends at the next same quote, and any part at the next closer; `outer` is
      the delimiter around the text, or a space. */
  predicate WellNested(d: Doc, outer: char)
  {
    match d
    case End => true
    case Plain(ch, rest) => !Delimits(ch) && !IsCloser(ch) && WellNested(rest, outer)
    case Nest(open, inner, close, rest) =>
      && Delimits(open) && (IsSymmetric(open) ==> open != outer) && Ends(open, close)
      && WellNested(inner, open) && WellNested(rest, outer)
    case Stray(closer, rest) => outer == ' ' && IsCloser(closer) && WellNested(rest, outer)
  }

  predicate Ends(open: char, close: char) { close == PairOf(open) || IsCloser(close) }

  /** Every part of a text placed at `at` that ends in its own closing delimiter, inner
      parts first. */
  function Parts(d: Doc, at: nat): (r: seq<PairRange>)
    decreases d, 0
  {
    match d
    case End => []
    case Plain(ch, rest) => Parts(rest, at + 1)
    case Nest(open, inner, close, rest) =>
      DelimitedParts(open, inner, close, at) + Parts(rest, at + |Delimited(open, inner, close)|)
    case Stray(closer, rest) => Parts(rest, at + 1)
  }

  function DelimitedParts(open: char, inner: Doc, close: char, at: nat): (r: seq<PairRange>)
    decreases inner, 1
  {
    Parts(inner, at + 1) + Own(open, close, at, at + |Delimited(open, inner, close)| - 1)
  }

  /** The pair from `at` to `end`, if the two match. */
  function Own(open: char, close: char, at: nat, end: nat): (r: seq<PairRange>)
  {
    if close == PairOf(open) then [PairRange(at, end)] else []
  }

  lemma {:induction false} ScanSplit(text: string, keep: Keep,
                                     st: Scan, i: nat, j: nat, k: nat)
    requires i <= j <= k <= |text| && Bounded(st, i)
    ensures Scanned(text, keep, st, i, k)
         == Scanned(text, keep, Scanned(text, keep, st, i, j), j, k)
  {
    if j < k {
      ScanSplit(text, keep, st, i, j, k - 1);
    }
  }

  /** The innermost open delimiter of the scan is `outer`; a space stands for none. */
  ghost predicate Inside(text: string, st: Scan, outer: char)
    requires Bounded(st, |text|)
  {
    var n := |st.stack|;
    if outer == ' ' then n == 0 else n > 0 && text[st.stack[n - 1]] == outer
  }

  ghost predicate At(text: string, at: nat, part: string)
  {
    at + |part| <= |text| && text[at..at + |part|] == part
  }

  lemma AtSplit(text: string, at: nat, a: string, b: string)
    requires At(text, at, a + b)
    ensures At(text, at, a) && At(text, at + |a|, b)
  {
    assert text[at..at + |a|] == (a + b)[..|a|];
    assert text[at + |a|..at + |a + b|] == (a + b)[|a|..];
  }

  /** The stack comes back unchanged, and exactly the kept parts are new. */
  ghost predicate Gains(st: Scan, after: Scan, parts: seq<PairRange>, keep: Keep)
  {
    after.stack == st.stack && after.found == st.found + Filter(parts, keep)
  }

  ghost predicate Finds(text: string, keep: Keep, st: Scan, i: nat, j: nat, parts: seq<PairRange>)
  {
    i <= j <= |text| && Bounded(st, i) && Gains(st, Scanned(text, keep, st, i, j), parts, keep)
  }

  lemma GainsChain(st: Scan, mid: Scan, last: Scan, ps: seq<PairRange>, qs: seq<PairRange>, keep: Keep)
    requires Gains(st, mid, ps, keep) && Gains(mid, last, qs, keep)
    ensures Gains(st, last, ps + qs, keep)
  {
    FilterConcat(ps, qs, keep);
  }

  lemma FindsChain(text: string, keep: Keep, st: Scan, i: nat, j: nat, k: nat,
                   ps: seq<PairRange>, qs: seq<PairRange>)
    requires Finds(text, keep, st, i, j, ps) && Finds(text, keep, Scanned(text, keep, st, i, j), j, k, qs)
    ensures Finds(text, keep, st, i, k, ps + qs)
  {
    var mid := Scanned(text, keep, st, i, j);
    GainsChain(st, mid, Scanned(text, keep, mid, j, k), ps, qs, keep);
    ScanSplit(text, keep, st, i, j, k);
  }

  lemma PlainIsFound(text: string, keep: Keep, st: Scan, at: nat)
    requires at < |text| && !Delimits(text[at]) && !IsCloser(text[at]) && Bounded(st, at)
    ensures Scanned(text, keep, st, at, at + 1) == st
    ensures Finds(text, keep, st, at, at + 1, [])
  {
    assert Scanned(text, keep, st, at, at) == st;
  }

  lemma PrependPlain(text: string, keep: Keep, st: Scan, at: nat, k: nat, parts: seq<PairRange>)
    requires at < k <= |text| && !Delimits(text[at]) && !IsCloser(text[at]) && Bounded(st, at)
    requires Finds(text, keep, st, at + 1, k, parts)
    ensures Finds(text, keep, st, at, k, parts)
  {
    PlainIsFound(text, keep, st, at);
    ScanSplit(text, keep, st, at, at + 1, k);
  }

  lemma HeadSplit(text: string, at: nat, d: Doc, ch: char, rest: Doc)
    requires (d == Plain(ch, rest) || d == Stray(ch, rest)) && At(text, at, Flatten(d))
    ensures at < |text| && text[at] == ch && At(text, at + 1, Flatten(rest))
    ensures |Flatten(d)| == 1 + |Flatten(rest)| && Parts(d, at) == Parts(rest, at + 1)
  {
    AtSplit(text, at, [ch], Flatten(rest));
    assert text[at] == text[at..at + 1][0];
  }

  lemma PrependStray(text: string, keep: Keep, st: Scan, at: nat, k: nat, parts: seq<PairRange>)
    requires at < k <= |text| && IsCloser(text[at]) && st.stack == []
    requires Finds(text, keep, st, at + 1, k, parts)
    ensures Finds(text, keep, st, at, k, parts)
  {
    assert Scanned(text, keep, st, at, at) == st;
    assert Scanned(text, keep, st, at, at + 1) == st;
    ScanSplit(text, keep, st, at, at + 1, k);
  }

  lemma {:induction false} WellNestedIsFound(text: string, keep: Keep, d: Doc, outer: char, st: Scan, at: nat)
    returns (end: nat, parts: seq<PairRange>)
    requires At(text, at, Flatten(d)) && WellNested(d, outer)
    requires Bounded(st, at) && Inside(text, st, outer)
    ensures end == at + |Flatten(d)| && parts == Parts(d, at)
    ensures Finds(text, keep, st, at, end, parts)
    decreases d, 1
  {
    match d
    case End =>
      end, parts := at, [];
    case Plain(ch, rest) =>
      HeadSplit(text, at, d, ch, rest);
      end, parts := WellNestedIsFound(text, keep, rest, outer, st, at + 1);
      PrependPlain(text, keep, st, at, end, parts);
    case Nest(_, _, _, _) =>
      NestSplit(text, at, d, outer);
      end, parts := NestThenRest(text, keep, d, outer, st, at);
    case Stray(closer, rest) =>
      HeadSplit(text, at, d, closer, rest);
      end, parts := WellNestedIsFound(text, keep, rest, outer, st, at + 1);
      PrependStray(text, keep, st, at, end, parts);
  }

  lemma {:induction false} NestThenRest(text: string, keep: Keep, d: Doc, outer: char, st: Scan, at: nat)
    returns (end: nat, parts: seq<PairRange>)
    requires d.Nest? && NestParts(d, outer)
    requires At(text, at, Delimited(d.open, d.inner, d.close))
    requires At(text, at + |Delimited(d.open, d.inner, d.close)|, Flatten(d.rest))
    requires Bounded(st, at) && Inside(text, st, outer)
    ensures end == at + |Delimited(d.open, d.inner, d.close)| + |Flatten(d.rest)|
    ensures parts == DelimitedParts(d.open, d.inner, d.close, at)
                     + Parts(d.rest, at + |Delimited(d.open, d.inner, d.close)|)
    ensures Finds(text, keep, st, at, end, parts)
    decreases d, 0
  {
    NestAt(text, at, d.open, d.inner, d.close);
    var mid := at + |Delimited(d.open, d.inner, d.close)|;
    var nest := NestIsFound(text, keep, d.inner, outer, st, at, mid - 1);
    var after := Scanned(text, keep, st, at, mid);
    SameStackInside(text, st, after, outer);
    var last, more := WellNestedIsFound(text, keep, d.rest, outer, after, mid);
    FindsChain(text, keep, st, at, mid, last, nest, more);
    end, parts := last, nest + more;
  }

  predicate NestParts(d: Doc, outer: char)
    requires d.Nest?
  {
    && Delimits(d.open) && (IsSymmetric(d.open) ==> d.open != outer) && Ends(d.open, d.close)
    && WellNested(d.inner, d.open) && WellNested(d.rest, outer)
  }

  lemma NestSplit(text: string, at: nat, d: Doc, outer: char)
    requires d.Nest? && At(text, at, Flatten(d)) && WellNested(d, outer)
    ensures var part := Delimited(d.open, d.inner, d.close);
      && NestParts(d, outer)
      && At(text, at, part) && At(text, at + |part|, Flatten(d.rest))
      && |Flatten(d)| == |part| + |Flatten(d.rest)|
      && Parts(d, at) == DelimitedParts(d.open, d.inner, d.close, at) + Parts(d.rest, at + |part|)
  {
    AtSplit(text, at, Delimited(d.open, d.inner, d.close), Flatten(d.rest));
  }

  lemma SameStackInside(text: string, st: Scan, after: Scan, outer: char)
    requires Bounded(st, |text|) && Inside(text, st, outer) && after.stack == st.stack
    ensures Bounded(after, |text|) && Inside(text, after, outer)
  {
  }

  lemma NestAt(text: string, at: nat, open: char, inner: Doc, close: char)
    requires At(text, at, Delimited(open, inner, close))
    ensures var end := at + 1 + |Flatten(inner)|;
      end < |text| && text[at] == open && text[end] == close && At(text, at + 1, Flatten(inner))
  {
    var end := at + 1 + |Flatten(inner)|;
    AtSplit(text, at, [open] + Flatten(inner), [close]);
    AtSplit(text, at, [open], Flatten(inner));
    assert text[at] == text[at..at + 1][0];
    assert text[end] == text[end..end + 1][0];
  }

  lemma OpenStep(text: string, keep: Keep, st: Scan, at: nat, outer: char)
    requires at < |text| && Bounded(st, at) && Inside(text, st, outer)
    requires Delimits(text[at]) && (IsSymmetric(text[at]) ==> text[at] != outer)
    ensures Scanned(text, keep, st, at, at + 1) == st.(stack := st.stack + [at])
  {
    assert Scanned(text, keep, st, at, at) == st;
  }

  lemma CloseStep(text: string, keep: Keep, st: Scan, o: nat, i: nat,
                  rest: seq<nat>)
    requires o < i < |text| && Bounded(st, i) && st.stack == rest + [o]
    requires Delimits(text[o]) && Ends(text[o], text[i])
    ensures Step(text, keep, st, i).stack == rest
    ensures Step(text, keep, st, i).found == st.found + Filter(Own(text[o], text[i], o, i), keep)
  {
    assert (rest + [o])[..|rest|] == rest;
    FilterCons(PairRange(o, i), [], keep);
    assert [PairRange(o, i)] + [] == [PairRange(o, i)];
    assert st.found + Filter([], keep) == st.found;
  }

  /** The inside is found above the opening delimiter; closing it adds its pair, if it
      is one. */
  lemma NestGains(text: string, keep: Keep, st: Scan, at: nat, end: nat, before: Scan, parts: seq<PairRange>)
    requires at < end < |text| && Bounded(st, at) && Bounded(before, end)
    requires Gains(st.(stack := st.stack + [at]), before, parts, keep)
    requires Delimits(text[at]) && Ends(text[at], text[end])
    ensures Gains(st, Step(text, keep, before, end), parts + Own(text[at], text[end], at, end), keep)
  {
    CloseStep(text, keep, before, at, end, st.stack);
    FilterConcat(parts, Own(text[at], text[end], at, end), keep);
  }

  lemma {:induction false} NestIsFound(text: string, keep: Keep, inner: Doc, outer: char, st: Scan, at: nat, last: nat)
    returns (parts: seq<PairRange>)
    requires at < last < |text| && At(text, at + 1, Flatten(inner)) && last == at + 1 + |Flatten(inner)|
    requires Delimits(text[at]) && (IsSymmetric(text[at]) ==> text[at] != outer) && Ends(text[at], text[last])
    requires WellNested(inner, text[at]) && Bounded(st, at) && Inside(text, st, outer)
    ensures parts == Parts(inner, at + 1) + Own(text[at], text[last], at, last)
    ensures Finds(text, keep, st, at, last + 1, parts)
    decreases inner, 2
  {
    var inside := Pushed(text, st, at);
    var end, within := WellNestedIsFound(text, keep, inner, text[at], inside, at + 1);
    parts := within + Own(text[at], text[last], at, last);
    NestFinish(text, keep, st, inside, at, last, outer, within, parts);
  }

  lemma Pushed(text: string, st: Scan, at: nat) returns (inside: Scan)
    requires at < |text| && Bounded(st, at) && Delimits(text[at])
    ensures inside == st.(stack := st.stack + [at]) && Bounded(inside, at + 1) && Inside(text, inside, text[at])
  {
    inside := st.(stack := st.stack + [at]);
  }

  lemma NestFinish(text: string, keep: Keep, st: Scan, inside: Scan, at: nat, last: nat, outer: char,
                   within: seq<PairRange>, parts: seq<PairRange>)
    requires at < last < |text| && Bounded(st, at) && Inside(text, st, outer) && inside == st.(stack := st.stack + [at])
    requires Delimits(text[at]) && (IsSymmetric(text[at]) ==> text[at] != outer) && Ends(text[at], text[last])
    requires Finds(text, keep, inside, at + 1, last, within)
    requires parts == within + Own(text[at], text[last], at, last)
    ensures Finds(text, keep, st, at, last + 1, parts)
  {
    OpenStep(text, keep, st, at, outer);
    var before := Scanned(text, keep, inside, at + 1, last);
    NestGains(text, keep, st, at, last, before, within);
    LastStep(text, keep, st, at, last, inside, before);
  }

  lemma LastStep(text: string, keep: Keep, st: Scan, at: nat, end: nat, inside: Scan, before: Scan)
    requires at < end < |text| && Bounded(st, at)
    requires Scanned(text, keep, st, at, at + 1) == inside && Scanned(text, keep, inside, at + 1, end) == before
    ensures Scanned(text, keep, st, at, end + 1) == Step(text, keep, before, end)
  {
    ScanSplit(text, keep, st, at, at + 1, end);
  }

  lemma WellNestedScan(d: Doc, keep: Keep)
    requires WellNested(d, ' ')
    ensures Scanned(Flatten(d), keep, START, 0, |Flatten(d)|).found == Filter(Parts(d, 0), keep)
  {
    var text := Flatten(d);
    assert text[0..|text|] == text && Inside(text, START, ' ');
    var end, parts := WellNestedIsFound(text, keep, d, ' ', START, 0);
    assert START.found + Filter(parts, keep) == Filter(parts, keep);
  }

  /** On such text the ranges found are exactly the parts that end in their own closing
      delimiter, overlap a yellow span and contain no mandatory one: a closer of the wrong
      kind uses up the innermost opener, and a closer without one does nothing. */
  lemma WellNestedPairs(d: Doc, spans: seq<LabelledSpan>, yellow: seq<LabelledSpan>)
    requires WellNested(d, ' ') && yellow != []
    ensures PairsFound(Flatten(d), spans, yellow).found == Filter(Parts(d, 0), EnclosingPairs(spans, yellow))
  {
    WellNestedScan(d, EnclosingPairs(spans, yellow));
  }
}
