/** app/redaction/apply.py: where `apply_spans` puts every character, and where
    `inverse_position_remap` leads back from there.
 */
module Placement {
  import opened Sorting
  import opened Spans
  import opened Substitution

  /** How much longer the text grows by some edits. */
  function Gain(edits: seq<Edit>): (r: int)
  {
    if edits == [] then 0 else
      |edits[0].replacement| - (edits[0].span.end - edits[0].span.start) + Gain(edits[1..])
  }

  lemma GainOfFirst(edits: seq<Edit>, i: nat)
    requires 0 < i <= |edits|
    ensures Gain(edits[..i])
         == |edits[0].replacement| - (edits[0].span.end - edits[0].span.start) + Gain(edits[1..][..i - 1])
  {
    assert edits[..i][1..] == edits[1..][..i - 1];
  }

  lemma SplitAt(a: string, b: string, c: string, k: nat)
    ensures k < |c| ==> (a + (b + c))[|a| + |b| + k] == c[k]
    ensures k < |b| ==> (a + (b + c))[|a| + k] == b[k]
  {
  }

  /** Position `p` of the text rewritten from `from` on holds `ch`, which stems from
      `origin` and is the original character there if `kept`. */
  ghost predicate Holds(text: string, edits: seq<Edit>, from: nat, p: int, ch: char, origin: int, kept: bool)
    requires Ordered(edits, from, |text|)
  {
    && 0 <= p < |RewriteText(text, edits, from)| && RewriteText(text, edits, from)[p] == ch
    && Source(edits, from, |text|, p) == origin && Survives(edits, from, |text|, p) == kept
  }

  /** In front of all edits nothing has moved. */
  lemma UneditedInFront(text: string, edits: seq<Edit>, from: nat, q: nat)
    requires Ordered(edits, from, |text|) && from <= q < |text|
    requires edits != [] ==> q < edits[0].span.start
    ensures Holds(text, edits, from, q - from, text[q], q, true)
  {
  }

  /** The first replacement stands behind what is kept in front of it. */
  lemma FirstReplacementAt(text: string, edits: seq<Edit>, from: nat, k: nat)
    requires edits != [] && Ordered(edits, from, |text|) && k < |edits[0].replacement|
    ensures Holds(text, edits, from, edits[0].span.start - from + k,
                  edits[0].replacement[k], edits[0].span.start, false)
  {
    var e := edits[0].span;
    SplitAt(text[from..e.start], edits[0].replacement, RewriteText(text, edits[1..], e.end), k);
  }

  /** Behind the first edit everything has moved by its gain. */
  lemma BehindFirst(text: string, edits: seq<Edit>, from: nat, p: int, ch: char, origin: int, kept: bool)
    requires edits != [] && Ordered(edits, from, |text|)
    requires Holds(text, edits[1..], edits[0].span.end, p, ch, origin, kept)
    ensures Holds(text, edits, from, edits[0].span.start - from + |edits[0].replacement| + p, ch, origin, kept)
  {
    var e := edits[0].span;
    SplitAt(text[from..e.start], edits[0].replacement, RewriteText(text, edits[1..], e.end), p);
  }

  /** Character `k` of replacement `i` stands where the edits before it have moved the
      start of its span, and stems from that start. */
  lemma {:induction false} ReplacementAt(text: string, edits: seq<Edit>, from: nat, i: nat, k: nat)
    requires Ordered(edits, from, |text|) && i < |edits| && k < |edits[i].replacement|
    ensures Holds(text, edits, from, edits[i].span.start - from + Gain(edits[..i]) + k,
                  edits[i].replacement[k], edits[i].span.start, false)
  {
    if i == 0 {
      FirstReplacementAt(text, edits, from, k);
    } else {
      var e, rest := edits[0].span, edits[1..];
      assert edits[i] == rest[i - 1];
      ReplacementAt(text, rest, e.end, i - 1, k);
      GainOfFirst(edits, i);
      BehindFirst(text, edits, from, edits[i].span.start - e.end + Gain(rest[..i - 1]) + k,
                  edits[i].replacement[k], edits[i].span.start, false);
    }
  }

  /** An unedited character stands where the edits before it have moved it, and stems
      from its own place. */
  lemma {:induction false} UneditedAt(text: string, edits: seq<Edit>, from: nat, i: nat, q: nat)
    requires Ordered(edits, from, |text|) && from <= q < |text| && i <= |edits|
    requires forall j :: 0 <= j < i ==> edits[j].span.end <= q
    requires i < |edits| ==> q < edits[i].span.start
    ensures Holds(text, edits, from, q - from + Gain(edits[..i]), text[q], q, true)
  {
    if i == 0 {
      UneditedInFront(text, edits, from, q);
    } else {
      var e, rest := edits[0].span, edits[1..];
      assert forall j :: 0 <= j < i - 1 ==> rest[j] == edits[j + 1];
      UneditedAt(text, rest, e.end, i - 1, q);
      GainOfFirst(edits, i);
      BehindFirst(text, edits, from, q - e.end + Gain(rest[..i - 1]), text[q], q, true);
    }
  }

  /** `q` lies behind the first `i` edits and in front of all others. */
  ghost predicate Unedited(text: string, up: seq<Edit>, i: int, q: int)
    requires 0 <= i <= |up|
  {
    && 0 <= q < |text| && (forall j :: 0 <= j < i ==> up[j].span.end <= q)
    && (i < |up| ==> q < up[i].span.start)
  }

  lemma {:induction false} RewrittenLength(text: string, edits: seq<Edit>, from: nat)
    requires Ordered(edits, from, |text|)
    ensures |RewriteText(text, edits, from)| == |text| - from + Gain(edits)
  {
    if edits != [] {
      RewrittenLength(text, edits[1..], edits[0].span.end);
    }
  }

  /** Where the characters of the edited text stand, for edits in any order: with those
      before it counted in document order, each replacement at the moved start of its
      span, from which it stems. */
  lemma ReplacementsStand(text: string, edits: seq<Edit>, i: nat, k: nat)
    requires WellFormed(edits, |text|) && i < |Ascending(edits)| && k < |Ascending(edits)[i].replacement|
    ensures var up, out := Ascending(edits), Applied(text, edits);
            var p := up[i].span.start + Gain(up[..i]) + k;
      && Ordered(up, 0, |text|) && |out| == |text| + Gain(up)
      && 0 <= p < |out| && out[p] == up[i].replacement[k]
      && Source(up, 0, |text|, p) == up[i].span.start && !Survives(up, 0, |text|, p)
  {
    AscendingOrdered(edits, |text|);
    RewrittenLength(text, Ascending(edits), 0);
    ReplacementAt(text, Ascending(edits), 0, i, k);
  }

  /** And each character outside all spans at its own moved place, from which it stems. */
  lemma UneditedStands(text: string, edits: seq<Edit>, i: nat, q: nat)
    requires WellFormed(edits, |text|) && i <= |Ascending(edits)| && Unedited(text, Ascending(edits), i, q)
    ensures var up, out := Ascending(edits), Applied(text, edits);
            var p := q + Gain(up[..i]);
      && Ordered(up, 0, |text|) && |out| == |text| + Gain(up)
      && 0 <= p < |out| && out[p] == text[q]
      && Source(up, 0, |text|, p) == q && Survives(up, 0, |text|, p)
  {
    AscendingOrdered(edits, |text|);
    RewrittenLength(text, Ascending(edits), 0);
    UneditedAt(text, Ascending(edits), 0, i, q);
  }
}
