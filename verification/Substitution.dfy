/** app/redaction/apply.py: substituting spans, and mapping positions of the
    substituted text back.

    The reference is character provenance: a text is a list of cells, each
    knowing the original character it stems from, and `Rewrite` says what one
    round of substitution does to the cells.
 */
module Substitution {
  import opened Wrappers
  import opened Sorting
  import opened Spans

  datatype Edit = Edit(span: Span, replacement: string)

  /** `origin` is an index of the original text; `kept` says that the character
      itself is the original one. */
  datatype Cell = Cell(ch: char, origin: nat, kept: bool)

  datatype Segment = Segment(newStart: int, oldStart: int, length: int, replaced: bool)

  function Zip(spans: seq<Span>, replacements: seq<string>): (r: seq<Edit>)
    requires |spans| == |replacements|
    ensures |r| == |spans|
  {
    seq(|spans|, i requires 0 <= i < |spans| => Edit(spans[i], replacements[i]))
  }

  function EditKey(e: Edit): Key { Key(e.span.start, 0, 0.0) }

  function ReverseKey(e: Edit): Key { Key(-e.span.start, 0, 0.0) }

  /** In bounds, non-empty and free of overlaps, in any order. */
  ghost predicate WellFormed(edits: seq<Edit>, n: nat)
  {
    && (forall e :: e in edits ==> 0 <= e.span.start < e.span.end <= n)
    && NoOverlap(edits)
  }

  ghost predicate NoOverlap(edits: seq<Edit>)
  {
    forall i, j :: 0 <= i < j < |edits| ==> !Overlaps(edits[i].span, edits[j].span)
  }

  /** The same, in document order and starting no earlier than `from`. */
  ghost predicate Ordered(edits: seq<Edit>, from: nat, n: nat)
  {
    if edits == [] then from <= n
    else from <= edits[0].span.start < edits[0].span.end <= n && Ordered(edits[1..], edits[0].span.end, n)
  }

  function Ascending(edits: seq<Edit>): (r: seq<Edit>) { SortBy(edits, EditKey) }

  function Chars(cells: seq<Cell>): (r: string)
    ensures |r| == |cells|
  {
    seq(|cells|, i requires 0 <= i < |cells| => cells[i].ch)
  }

  function Original(text: string): (r: seq<Cell>)
    ensures |r| == |text|
  {
    seq(|text|, i requires 0 <= i < |text| => Cell(text[i], i, true))
  }

  /** A replacement stems from the first character it stands for. */
  function Fill(replacement: string, origin: nat): (r: seq<Cell>)
    ensures |r| == |replacement|
  {
    seq(|replacement|, i requires 0 <= i < |replacement| => Cell(replacement[i], origin, false))
  }

  /** The length of a text of `n` characters rewritten from `from` on. */
  ghost function NewLength(edits: seq<Edit>, from: nat, n: nat): (r: nat)
    requires Ordered(edits, from, n)
  {
    if edits == [] then n - from else
      var e := edits[0].span;
      e.start - from + |edits[0].replacement| + NewLength(edits[1..], e.end, n)
  }

  ghost function Rewrite(cells: seq<Cell>, edits: seq<Edit>, from: nat): (r: seq<Cell>)
    requires Ordered(edits, from, |cells|)
    ensures |r| == NewLength(edits, from, |cells|)
  {
    if edits == [] then cells[from..] else
      var e := edits[0].span;
      cells[from..e.start] + (Fill(edits[0].replacement, cells[e.start].origin) + Rewrite(cells, edits[1..], e.end))
  }

  // ----- ordering -----

  lemma {:induction false} OrderedFromSorted(edits: seq<Edit>, from: nat, n: nat)
    requires WellFormed(edits, n) && Sorted(edits, EditKey) && from <= n
    requires edits != [] ==> from <= edits[0].span.start
    ensures Ordered(edits, from, n)
  {
    if edits != [] {
      assert edits[0] in edits;
      if |edits| > 1 {
        assert edits[1] in edits && !Overlaps(edits[0].span, edits[1].span);
        assert Le(EditKey(edits[0]), EditKey(edits[1]));
      }
      OrderedFromSorted(edits[1..], edits[0].span.end, n);
    }
  }

  lemma {:induction false} InsertKeepsNoOverlap(x: Edit, edits: seq<Edit>, key: Edit -> Key)
    requires NoOverlap(edits)
    requires forall e :: e in edits ==> !Overlaps(x.span, e.span)
    ensures NoOverlap(Insert(x, edits, key))
  {
    if edits == [] || Le(key(x), key(edits[0])) {
    } else {
      InsertKeepsNoOverlap(x, edits[1..], key);
      var r := Insert(x, edits[1..], key);
      assert edits[0] in edits;
      forall j | 0 <= j < |r| ensures !Overlaps(edits[0].span, r[j].span) {
        InsertMember(x, edits[1..], key, r[j]);
      }
    }
  }

  lemma {:induction false} SortKeepsNoOverlap(edits: seq<Edit>, key: Edit -> Key)
    requires NoOverlap(edits)
    ensures NoOverlap(SortBy(edits, key))
  {
    if edits != [] {
      SortKeepsNoOverlap(edits[1..], key);
      SortSorts(edits[1..], key);
      InsertKeepsNoOverlap(edits[0], SortBy(edits[1..], key), key);
    }
  }

  lemma SortKeepsWellFormed(edits: seq<Edit>, key: Edit -> Key, n: nat)
    requires WellFormed(edits, n)
    ensures WellFormed(SortBy(edits, key), n)
  {
    SortSorts(edits, key);
    SortKeepsNoOverlap(edits, key);
  }

  lemma AscendingOrdered(edits: seq<Edit>, n: nat)
    requires WellFormed(edits, n)
    ensures Ordered(Ascending(edits), 0, n)
    ensures WellFormed(Ascending(edits), n)
  {
    SortSorts(edits, EditKey);
    SortKeepsWellFormed(edits, EditKey, n);
    if edits != [] {
      assert Ascending(edits)[0] in edits;
    }
    OrderedFromSorted(Ascending(edits), 0, n);
  }

  lemma {:induction false} OrderedFacts(edits: seq<Edit>, from: nat, n: nat, i: nat)
    requires Ordered(edits, from, n) && i <= |edits|
    ensures i < |edits| ==> from <= edits[i].span.start < edits[i].span.end <= n
    ensures i < |edits| ==> Ordered(edits[i + 1..], edits[i].span.end, n)
    ensures forall j :: 0 <= j < i < |edits| ==> edits[j].span.end <= edits[i].span.start
  {
    if i > 0 {
      OrderedFacts(edits[1..], edits[0].span.end, n, i - 1);
      if i < |edits| {
        assert edits[1..][i..] == edits[i + 1..];
        forall j | 0 <= j < i ensures edits[j].span.end <= edits[i].span.start {
          if j > 0 {
            assert edits[j] == edits[1..][j - 1];
          }
        }
      }
    }
  }

  function Backwards<T>(s: seq<T>): (r: seq<T>)
    ensures |r| == |s|
    ensures forall i :: 0 <= i < |s| ==> r[i] == s[|s| - 1 - i]
  {
    seq(|s|, i requires 0 <= i < |s| => s[|s| - 1 - i])
  }

  lemma BackwardsMembers<T>(s: seq<T>)
    ensures forall x :: x in Backwards(s) <==> x in s
  {
    forall x | x in s ensures x in Backwards(s) {
      var k :| 0 <= k < |s| && s[k] == x;
      assert Backwards(s)[|s| - 1 - k] == x;
    }
  }

  lemma BackwardsSorted(edits: seq<Edit>, n: nat)
    requires Ordered(edits, 0, n)
    ensures StrictlySorted(Backwards(edits), ReverseKey)
  {
    var back := Backwards(edits);
    forall k, l | 0 <= k < l < |back| ensures !Le(ReverseKey(back[l]), ReverseKey(back[k])) {
      OrderedFacts(edits, 0, n, |edits| - 1 - k);
      OrderedFacts(edits, 0, n, |edits| - 1 - l);
    }
  }

  lemma DescendingSorted(edits: seq<Edit>, n: nat)
    requires WellFormed(edits, n)
    ensures StrictlySorted(SortBy(edits, ReverseKey), ReverseKey)
  {
    var down := SortBy(edits, ReverseKey);
    SortSorts(edits, ReverseKey);
    SortKeepsWellFormed(edits, ReverseKey, n);
    forall k, l | 0 <= k < l < |down| ensures !Le(ReverseKey(down[l]), ReverseKey(down[k])) {
      assert down[k] in down && down[l] in down;
      assert !Overlaps(down[k].span, down[l].span);
      assert Le(ReverseKey(down[k]), ReverseKey(down[l]));
    }
  }

  /** The right-to-left order of `apply_spans` is document order backwards. */
  lemma DescendingIsBackwards(edits: seq<Edit>, n: nat)
    requires WellFormed(edits, n)
    ensures SortBy(edits, ReverseKey) == Backwards(Ascending(edits))
  {
    var up, down := Ascending(edits), SortBy(edits, ReverseKey);
    AscendingOrdered(edits, n);
    BackwardsSorted(up, n);
    DescendingSorted(edits, n);
    SortSorts(edits, EditKey);
    SortSorts(edits, ReverseKey);
    BackwardsMembers(up);
    StrictlySortedUnique(Backwards(up), down, ReverseKey);
  }

  // ----- apply_spans -----

  /** The text rewritten from `from` on. */
  function RewriteText(text: string, edits: seq<Edit>, from: nat): (r: string)
    requires Ordered(edits, from, |text|)
  {
    if edits == [] then text[from..] else
      var e := edits[0].span;
      text[from..e.start] + (edits[0].replacement + RewriteText(text, edits[1..], e.end))
  }

  /** The text after one round of substitution. */
  ghost function Applied(text: string, edits: seq<Edit>): (r: string)
    requires WellFormed(edits, |text|)
  {
    AscendingOrdered(edits, |text|);
    RewriteText(text, Ascending(edits), 0)
  }

  /** Replacing a span in front of a finished tail. */
  lemma Splice(text: string, start: nat, end: nat, replacement: string, tail: string)
    requires start <= end <= |text|
    ensures var out := text[..end] + tail;
      out[..start] + replacement + out[end..] == text[..start] + (replacement + tail)
  {
    var out := text[..end] + tail;
    assert out[..start] == text[..start];
    assert out[end..] == tail;
  }

  lemma SliceJoin(text: string, a: nat, b: nat, c: nat, tail: string)
    requires a <= b <= c <= |text|
    ensures text[a..b] + (text[b..c] + tail) == text[a..c] + tail
  {
    assert text[a..c] == text[a..b] + text[b..c];
  }

  lemma SkipKept(text: string, edits: seq<Edit>, from: nat, until: nat)
    requires from <= until && Ordered(edits, until, |text|)
    ensures Ordered(edits, from, |text|)
    ensures text[from..until] + RewriteText(text, edits, until) == RewriteText(text, edits, from)
  {
    if edits == [] {
      assert text[from..] == text[from..until] + text[until..];
    } else {
      var e := edits[0].span;
      SliceJoin(text, from, until, e.start, edits[0].replacement + RewriteText(text, edits[1..], e.end));
    }
  }

  /** `out` has the edits from index `k` on applied, and nothing before `from`. */
  ghost predicate AppliedFrom(text: string, edits: seq<Edit>, k: nat, from: nat, out: string)
  {
    && k <= |edits|
    && from <= |text|
    && (k > 0 ==> edits[k - 1].span.end <= from)
    && Ordered(edits[k..], from, |text|)
    && out == text[..from] + RewriteText(text, edits[k..], from)
  }

  lemma ApplyOne(text: string, edits: seq<Edit>, k: nat, from: nat, out: string)
    requires Ordered(edits, 0, |text|)
    requires 0 < k && AppliedFrom(text, edits, k, from, out)
    ensures var e := edits[k - 1].span;
            && 0 <= e.start < e.end <= |out|
            && AppliedFrom(text, edits, k - 1, e.start, out[..e.start] + edits[k - 1].replacement + out[e.end..])
  {
    var e, rep := edits[k - 1].span, edits[k - 1].replacement;
    var done, rest := edits[k..], edits[k - 1..];
    OrderedFacts(edits, 0, |text|, k - 1);
    if k > 1 {
      OrderedFacts(edits, 0, |text|, k - 2);
    }
    assert rest[0] == edits[k - 1] && rest[1..] == done;
    SkipKept(text, done, e.end, from);
    var tail := RewriteText(text, done, e.end);
    SliceJoin(text, 0, e.end, from, RewriteText(text, done, from));
    assert text[..from] == text[0..from] && text[..e.end] == text[0..e.end];
    assert out == text[..e.end] + tail;
    Splice(text, e.start, e.end, rep, tail);
    assert RewriteText(text, rest, e.start) == text[e.start..e.start] + (rep + tail) == rep + tail;
  }

  /** The loop of `apply_spans`: from right to left, in place of one buffer. */
  method ApplyBackwards(text: string, edits: seq<Edit>) returns (out: string)
    requires WellFormed(edits, |text|) && edits != []
    ensures out == Applied(text, edits)
  {
    ghost var up := Ascending(edits);
    AscendingOrdered(edits, |text|);
    DescendingIsBackwards(edits, |text|);
    SortSorts(edits, EditKey);
    var ordered := SortBy(edits, ReverseKey);
    var n := |ordered|;
    out := text;
    ghost var from: nat := |text|;
    StartApplying(text, up);
    for i := 0 to n
      invariant AppliedFrom(text, up, n - i, from, out)
    {
      var e := ordered[i];
      ApplyOne(text, up, n - i, from, out);
      out := out[..e.span.start] + e.replacement + out[e.span.end..];
      from := e.span.start;
    }
    FinishApplying(text, up, from, out);
  }

  lemma StartApplying(text: string, edits: seq<Edit>)
    requires Ordered(edits, 0, |text|)
    ensures AppliedFrom(text, edits, |edits|, |text|, text)
  {
    assert edits[|edits|..] == [];
    if edits != [] {
      OrderedFacts(edits, 0, |text|, |edits| - 1);
    }
  }

  lemma FinishApplying(text: string, edits: seq<Edit>, from: nat, out: string)
    requires Ordered(edits, 0, |text|) && AppliedFrom(text, edits, 0, from, out)
    ensures out == RewriteText(text, edits, 0)
  {
    assert edits[0..] == edits;
    SkipKept(text, edits, 0, from);
    assert text[0..from] == text[..from];
  }

  method ApplySpans(text: string, spans: seq<Span>, replacement: seq<string>) returns (r: Result<string>)
    requires |spans| == |replacement| ==> WellFormed(Zip(spans, replacement), |text|)
    ensures r.ValueError? <==> spans != [] && |replacement| != |spans|
    ensures r.Ok? && |spans| == |replacement| ==> r.value == Applied(text, Zip(spans, replacement))
    ensures spans == [] ==> r == Ok(text)
  {
    if spans == [] {
      assert text[0..] == text;
      return Ok(text);
    }
    if |replacement| != |spans| {
      return ValueError;
    }
    var out := ApplyBackwards(text, Zip(spans, replacement));
    r := Ok(out);
  }

  // ----- provenance of one round -----

  lemma CharsConcat(s: seq<Cell>, t: seq<Cell>)
    ensures Chars(s + t) == Chars(s) + Chars(t)
  {
  }

  /** The text of the rewritten cells is the rewritten text. */
  lemma {:induction false} RewriteChars(cells: seq<Cell>, edits: seq<Edit>, from: nat)
    requires Ordered(edits, from, |cells|)
    ensures Chars(Rewrite(cells, edits, from)) == RewriteText(Chars(cells), edits, from)
  {
    if edits == [] {
      assert Chars(cells[from..]) == Chars(cells)[from..];
    } else {
      var e := edits[0].span;
      var kept, filler := cells[from..e.start], Fill(edits[0].replacement, cells[e.start].origin);
      var rest := Rewrite(cells, edits[1..], e.end);
      RewriteChars(cells, edits[1..], e.end);
      CharsConcat(filler, rest);
      CharsConcat(kept, filler + rest);
      assert Chars(kept) == Chars(cells)[from..e.start];
      assert Chars(filler) == edits[0].replacement;
    }
  }

  /** Where position `p` of the text rewritten from `from` on stems from. */
  ghost function Source(edits: seq<Edit>, from: nat, n: nat, p: nat): (r: nat)
    requires Ordered(edits, from, n)
  {
    if edits == [] then from + p else
      var e := edits[0].span;
      var kept := e.start - from;
      if p < kept then from + p
      else if p < kept + |edits[0].replacement| then e.start
      else Source(edits[1..], e.end, n, p - kept - |edits[0].replacement|)
  }

  /** Position `p` holds a character that was not replaced. */
  ghost predicate Survives(edits: seq<Edit>, from: nat, n: nat, p: nat)
    requires Ordered(edits, from, n)
  {
    if edits == [] then true else
      var e := edits[0].span;
      var kept := e.start - from;
      if p < kept then true
      else if p < kept + |edits[0].replacement| then false
      else Survives(edits[1..], e.end, n, p - kept - |edits[0].replacement|)
  }

  /** Each cell after the round is a surviving cell, or filler stemming from the
      first cell its replacement stands for. */
  lemma {:induction false} RewriteAt(cells: seq<Cell>, edits: seq<Edit>, from: nat, p: nat)
    requires Ordered(edits, from, |cells|) && p < NewLength(edits, from, |cells|)
    ensures var q := Source(edits, from, |cells|, p);
            var survives := Survives(edits, from, |cells|, p);
            var cell := Rewrite(cells, edits, from)[p];
            && from <= q < |cells|
            && cell.origin == cells[q].origin
            && cell.kept == (survives && cells[q].kept)
            && (survives ==> cell == cells[q])
  {
    if edits != [] {
      var e := edits[0].span;
      var before := e.start - from + |edits[0].replacement|;
      if p >= before {
        RewriteAt(cells, edits[1..], e.end, p - before);
      }
    }
  }

  /** Provenance is monotone, strictly so next to a surviving character. */
  lemma {:induction false} SourceMonotone(edits: seq<Edit>, from: nat, n: nat, p: nat, p': nat)
    requires Ordered(edits, from, n) && p < p' < NewLength(edits, from, n)
    ensures from <= Source(edits, from, n, p) <= Source(edits, from, n, p') < n
    ensures Survives(edits, from, n, p) || Survives(edits, from, n, p')
        ==> Source(edits, from, n, p) < Source(edits, from, n, p')
  {
    if edits != [] {
      var e := edits[0].span;
      var before := e.start - from + |edits[0].replacement|;
      if p' >= before {
        SourceBounds(edits[1..], e.end, n, p' - before);
        if p >= before {
          SourceMonotone(edits[1..], e.end, n, p - before, p' - before);
        }
      }
    }
  }

  lemma {:induction false} SourceBounds(edits: seq<Edit>, from: nat, n: nat, p: nat)
    requires Ordered(edits, from, n) && p < NewLength(edits, from, n)
    ensures from <= Source(edits, from, n, p) < n
  {
    if edits != [] {
      var e := edits[0].span;
      var before := e.start - from + |edits[0].replacement|;
      if p >= before {
        SourceBounds(edits[1..], e.end, n, p - before);
      }
    }
  }

  /** An edit deletes its span, which lies strictly between the two positions. */
  ghost predicate DeletesBetween(edits: seq<Edit>, lo: int, hi: int)
  {
    exists e :: e in edits && e.replacement == "" && lo < e.span.start && e.span.end <= hi
  }

  /** Neighbours that both survive were neighbours if and only if nothing between
      them was deleted. */
  lemma {:induction false} SurvivorsStayAdjacent(edits: seq<Edit>, from: nat, n: nat, p: nat)
    requires Ordered(edits, from, n) && p + 1 < NewLength(edits, from, n)
    requires Survives(edits, from, n, p) && Survives(edits, from, n, p + 1)
    ensures Source(edits, from, n, p + 1) == Source(edits, from, n, p) + 1
        <==> !DeletesBetween(edits, Source(edits, from, n, p), Source(edits, from, n, p + 1))
  {
    var q, q' := Source(edits, from, n, p), Source(edits, from, n, p + 1);
    OrderedSpans(edits, from, n);
    if edits != [] {
      var e := edits[0].span;
      var before := e.start - from + |edits[0].replacement|;
      if p >= before {
        SurvivorsStayAdjacent(edits[1..], e.end, n, p - before);
        if DeletesBetween(edits[1..], q, q') {
          var d :| d in edits[1..] && d.replacement == "" && q < d.span.start && d.span.end <= q';
          assert d in edits;
        }
      } else if p + 1 >= before {
        SourceBounds(edits[1..], e.end, n, p + 1 - before);
        assert edits[0] in edits && edits[0].replacement == "" && q < e.start && e.end <= q';
      }
    }
  }

  lemma {:induction false} OrderedSpans(edits: seq<Edit>, from: nat, n: nat)
    requires Ordered(edits, from, n)
    ensures forall e :: e in edits ==> from <= e.span.start < e.span.end <= n
  {
    if edits != [] {
      OrderedSpans(edits[1..], edits[0].span.end, n);
    }
  }

  /** A surviving position stems from outside every edited span. */
  lemma {:induction false} SurvivorsAreUnedited(edits: seq<Edit>, from: nat, n: nat, p: nat)
    requires Ordered(edits, from, n) && p < NewLength(edits, from, n) && Survives(edits, from, n, p)
    ensures forall e :: e in edits ==> !(e.span.start <= Source(edits, from, n, p) < e.span.end)
  {
    if edits != [] {
      var e := edits[0].span;
      var before := e.start - from + |edits[0].replacement|;
      OrderedSpans(edits[1..], e.end, n);
      if p >= before {
        SurvivorsAreUnedited(edits[1..], e.end, n, p - before);
        SourceBounds(edits[1..], e.end, n, p - before);
      }
    }
  }

  // ----- inverse_position_remap -----

  /** The segment table, from new position `pos` and old position `prev` on. */
  function Segments(edits: seq<Edit>, pos: int, prev: int, n: int): (r: seq<Segment>)
  {
    if edits == [] then
      if prev < n then [Segment(pos, prev, n - prev, false)] else []
    else
      var e := edits[0];
      var kept := if e.span.start > prev then e.span.start - prev else 0;
      (if kept > 0 then [Segment(pos, prev, kept, false)] else [])
      + [Segment(pos + kept, e.span.start, |e.replacement|, true)]
      + Segments(edits[1..], pos + kept + |e.replacement|, e.span.end, n)
  }

  function Starts(segments: seq<Segment>): (r: seq<int>)
    ensures |r| == |segments|
  {
    seq(|segments|, i requires 0 <= i < |segments| => segments[i].newStart)
  }

  function Land(s: Segment, position: int): (r: int)
  {
    if s.replaced then s.oldStart else s.oldStart + (position - s.newStart)
  }

  /** The inner function `remap`; it has an index to use whenever the table is
      non-empty and begins at 0. */
  function Lookup(segments: seq<Segment>, position: int): (r: int)
    requires segments != [] && segments[0].newStart == 0
  {
    if position < 0 then 0 else
      Land(segments[BisectRight(Starts(segments), position) - 1], position)
  }

  /** The last entry of the leading ones that begin no later than `x`. */
  function Entry(table: seq<Segment>, x: int): (r: Segment)
    requires table != []
  {
    if |table| == 1 || x < table[1].newStart then table[0] else Entry(table[1..], x)
  }

  lemma {:induction false} BisectFindsEntry(table: seq<Segment>, x: int)
    requires table != [] && table[0].newStart <= x
    ensures var index := BisectRight(Starts(table), x) - 1;
            0 <= index < |table| && table[index] == Entry(table, x)
  {
    assert Starts(table)[1..] == Starts(table[1..]);
    if |table| > 1 && x >= table[1].newStart {
      BisectFindsEntry(table[1..], x);
    } else if |table| > 1 {
      assert Starts(table[1..])[0] == table[1].newStart;
    }
  }

  lemma EntryCons(a: Segment, rest: seq<Segment>, x: int)
    ensures Entry([a] + rest, x)
         == if rest == [] || x < rest[0].newStart then a else Entry(rest, x)
  {
    assert ([a] + rest)[1..] == rest;
  }

  /** The entries of the first edit, in front of those of the others. */
  lemma EntryOfFirst(e: Edit, pos: nat, from: nat, rest: seq<Segment>, x: int)
    requires from <= e.span.start && pos <= x
    requires rest != [] ==> rest[0].newStart == pos + (e.span.start - from) + |e.replacement|
    ensures var kept := e.span.start - from;
      var filler := Segment(pos + kept, e.span.start, |e.replacement|, true);
      var table := (if kept > 0 then [Segment(pos, from, kept, false)] else []) + [filler] + rest;
      Entry(table, x) ==
        if x < pos + kept then Segment(pos, from, kept, false)
        else if rest == [] || x < pos + kept + |e.replacement| then filler
        else Entry(rest, x)
  {
    var kept := e.span.start - from;
    var filler := Segment(pos + kept, e.span.start, |e.replacement|, true);
    EntryCons(filler, rest, x);
    if kept > 0 {
      var first := Segment(pos, from, kept, false);
      EntryCons(first, [filler] + rest, x);
      assert [first] + [filler] + rest == [first] + ([filler] + rest);
    } else {
      assert [] + [filler] + rest == [filler] + rest;
    }
  }

  /** The entry found leads to the provenance. */
  lemma {:induction false} EntryLeadsToSource(edits: seq<Edit>, pos: nat, from: nat, n: nat, p: nat)
    requires Ordered(edits, from, n) && p < NewLength(edits, from, n)
    ensures var table := Segments(edits, pos, from, n);
            && table != [] && table[0].newStart == pos
            && Land(Entry(table, pos + p), pos + p) == Source(edits, from, n, p)
  {
    if edits != [] {
      var e, kept := edits[0].span, edits[0].span.start - from;
      var before := kept + |edits[0].replacement|;
      var rest := Segments(edits[1..], pos + before, e.end, n);
      if p >= before {
        EntryLeadsToSource(edits[1..], pos + before, e.end, n, p - before);
      }
      EntryOfFirst(edits[0], pos, from, rest, pos + p);
    }
  }

  /** One round of the loop moves the entries of one edit to the finished part. */
  lemma SegmentsStep(done: seq<Segment>, ordered: seq<Edit>, i: nat, pos: int, prev: int, n: int)
    requires i < |ordered|
    ensures var span, len := ordered[i].span, |ordered[i].replacement|;
      var next := if span.start > prev then pos + (span.start - prev) else pos;
      done + Segments(ordered[i..], pos, prev, n) ==
        (if span.start > prev then done + [Segment(pos, prev, span.start - prev, false)] else done)
        + [Segment(next, span.start, len, true)] + Segments(ordered[i + 1..], next + len, span.end, n)
  {
    assert ordered[i..][1..] == ordered[i + 1..];
  }

  method SegmentTable(text: string, ordered: seq<Edit>) returns (segments: seq<Segment>)
    ensures segments == Segments(ordered, 0, 0, |text|)
  {
    segments := [];
    var newPos, prev := 0, 0;
    for i := 0 to |ordered|
      invariant segments + Segments(ordered[i..], newPos, prev, |text|) == Segments(ordered, 0, 0, |text|)
    {
      var span, replacement := ordered[i].span, ordered[i].replacement;
      SegmentsStep(segments, ordered, i, newPos, prev, |text|);
      if span.start > prev {
        segments := segments + [Segment(newPos, prev, span.start - prev, false)];
        newPos := newPos + (span.start - prev);
      }
      segments := segments + [Segment(newPos, span.start, |replacement|, true)];
      newPos := newPos + |replacement|;
      prev := span.end;
    }
    if prev < |text| {
      segments := segments + [Segment(newPos, prev, |text| - prev, false)];
    }
  }

  lemma LookupIsSource(edits: seq<Edit>, n: nat, p: nat)
    requires Ordered(edits, 0, n) && p < NewLength(edits, 0, n)
    ensures var table := Segments(edits, 0, 0, n);
      table != [] && table[0].newStart == 0 && Lookup(table, p) == Source(edits, 0, n, p)
  {
    EntryLeadsToSource(edits, 0, 0, n, p);
    BisectFindsEntry(Segments(edits, 0, 0, n), p);
  }

  method InversePositionRemap(text: string, spans: seq<Span>, replacements: seq<string>)
    returns (r: Result<int --> int>)
    requires |spans| == |replacements| ==> WellFormed(Zip(spans, replacements), |text|)
    ensures r.ValueError? <==> |replacements| != |spans|
    ensures r.Ok? && spans != [] ==> forall p: int :: r.value.requires(p)
    ensures r.Ok? ==>
      var edits := Ascending(Zip(spans, replacements));
      && Ordered(edits, 0, |text|)
      && forall p: nat :: p < NewLength(edits, 0, |text|) ==>
           r.value.requires(p) && r.value(p) == Source(edits, 0, |text|, p)
  {
    if |replacements| != |spans| {
      return ValueError;
    }
    var edits := Zip(spans, replacements);
    var ordered := SortBy(edits, EditKey);
    AscendingOrdered(edits, |text|);
    SortSorts(edits, EditKey);
    var table := SegmentTable(text, ordered);
    forall p: nat | p < NewLength(ordered, 0, |text|)
      ensures table != [] && table[0].newStart == 0 && Lookup(table, p) == Source(ordered, 0, |text|, p)
    {
      LookupIsSource(ordered, |text|, p);
    }
    r := Ok(position requires table != [] && table[0].newStart == 0 => Lookup(table, position));
  }
}
