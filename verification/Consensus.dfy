/** app/redaction/stages/consensus.py: regex hits and model hits fused. */
module Consensus {
  import opened Sorting
  import opened Spans

  /** The two tests of the loop.  The code drops a model span that overlaps any
      regex span, whatever its confidence. */
  predicate Admits(s: Span, regex: seq<Span>, floor: real)
  {
    s.confidence >= floor && forall r :: r in regex ==> !Overlaps(s, r)
  }

  function Admitted(regex: seq<Span>, model: seq<Span>, floor: real): (r: seq<Span>)
  {
    Filter(model, s => Admits(s, regex, floor))
  }

  function Fused(regex: seq<Span>, model: seq<Span>, floor: real): (r: seq<Span>)
  {
    Dedupe(regex + Admitted(regex, model, floor))
  }

  method Fuse(regex: seq<Span>, model: seq<Span>, floor: real) returns (r: seq<Span>)
    ensures r == Fused(regex, model, floor)
  {
    var kept := regex;
    for i := 0 to |model|
      invariant kept == regex + Admitted(regex, model[..i], floor)
    {
      var span := model[i];
      assert model[..i + 1] == model[..i] + [span];
      FilterSnoc(model[..i], span, s => Admits(s, regex, floor));
      if span.confidence < floor {
        continue;
      }
      if exists r :: r in regex && Overlaps(span, r) {
        continue;
      }
      kept := kept + [span];
    }
    assert model[..|model|] == model;
    r := DedupeOverlaps(kept);
  }

  lemma AdmittedAvoidRegex(regex: seq<Span>, model: seq<Span>, floor: real)
    requires NonEmpty(regex)
    ensures Apart(regex, Admitted(regex, model, floor))
    ensures forall x :: x in Admitted(regex, model, floor) ==> x !in regex
  {
    FilterMembers(model, s => Admits(s, regex, floor));
    forall x | x in Admitted(regex, model, floor) ensures x !in regex {
      assert x in regex ==> Overlaps(x, x);
    }
  }

  /** Non-interference, for every regex list: what the result holds of the regex
      spans is resolved without the other model spans, and the other way round.
      Only an admitted copy of an empty regex span counts on both sides. */
  lemma FuseParts(regex: seq<Span>, model: seq<Span>, floor: real)
    ensures var isRegex, isOther := (s: Span) => s in regex, (s: Span) => s !in regex;
            var admitted := Admitted(regex, model, floor);
      && Filter(Fused(regex, model, floor), isRegex) == Dedupe(regex + Filter(admitted, isRegex))
      && Filter(Fused(regex, model, floor), isOther) == Dedupe(Filter(admitted, isOther))
  {
    var isRegex, isOther := (s: Span) => s in regex, (s: Span) => s !in regex;
    var admitted := Admitted(regex, model, floor);
    FilterMembers(model, s => Admits(s, regex, floor));
    FilterConcat(regex, admitted, isRegex);
    FilterConcat(regex, admitted, isOther);
    FilterAll(regex, isRegex);
    FilterNone(regex, isOther);
    DedupeLocal(regex + admitted, isRegex);
    DedupeLocal(regex + admitted, isOther);
    assert [] + Filter(admitted, isOther) == Filter(admitted, isOther);
  }

  /** So for non-empty regex spans the regex spans in the result are exactly the
      deduplicated regex spans, whatever the model returned; what remains is the
      deduplication of the admitted model spans alone. */
  lemma FuseNonInterference(regex: seq<Span>, model: seq<Span>, floor: real)
    requires NonEmpty(regex)
    ensures Filter(Fused(regex, model, floor), s => s in regex) == Dedupe(regex)
    ensures Filter(Fused(regex, model, floor), s => s !in regex)
         == Dedupe(Admitted(regex, model, floor))
  {
    AdmittedAvoidRegex(regex, model, floor);
    DedupeSplit(regex, Admitted(regex, model, floor), s => s in regex);
    DedupeSplitRight(regex, Admitted(regex, model, floor), s => s !in regex);
  }

  /** Against rule 1 of the docstring: not every regex span is in the result.  All
      of them are if and only if no two different ones overlap. */
  lemma RegexKeptIffApart(regex: seq<Span>, model: seq<Span>, floor: real)
    requires NonEmpty(regex)
    ensures (forall r :: r in regex ==> r in Fused(regex, model, floor))
        <==> forall r, s :: r in regex && s in regex && Overlaps(r, s) ==> r == s
  {
    var fused, all := Fused(regex, model, floor), regex + Admitted(regex, model, floor);
    AdmittedAvoidRegex(regex, model, floor);
    DedupeSortedDisjoint(all);
    if forall r, s :: r in regex && s in regex && Overlaps(r, s) ==> r == s {
      forall r | r in regex ensures r in fused {
        assert Dominates(r, all);
        DedupeKeepsDominating(all, r);
      }
    }
    if forall r :: r in regex ==> r in fused {
      forall r, s | r in regex && s in regex && Overlaps(r, s) ensures r == s {
        assert r in fused && s in fused;
        var i :| 0 <= i < |fused| && fused[i] == r;
        var j :| 0 <= j < |fused| && fused[j] == s;
        assert Overlaps(s, r);
        assert i == j;
      }
    }
  }

  /** Against rule 2 of the docstring: even a certain model span never
      survives next to a regex span it overlaps. */
  lemma OverlappingModelSpanIsDropped(regex: seq<Span>, model: seq<Span>, floor: real, m: Span, r: Span)
    requires r in regex && Overlaps(m, r) && m !in regex
    ensures m !in Fused(regex, model, floor)
  {
    DedupeSortedDisjoint(regex + Admitted(regex, model, floor));
    FilterMembers(model, s => Admits(s, regex, floor));
  }

  /** A model span apart from all others is in the result if and only if its confidence
      is at least the floor. */
  lemma LoneModelSpanNeedsFloor(regex: seq<Span>, model: seq<Span>, floor: real, m: Span)
    requires m in model && m !in regex
    requires forall s :: (s in regex || s in model) && s != m ==> !Overlaps(m, s)
    ensures m in Fused(regex, model, floor) <==> m.confidence >= floor
  {
    FilterMembers(model, s => Admits(s, regex, floor));
    var all := regex + Admitted(regex, model, floor);
    DedupeSortedDisjoint(all);
    if m.confidence >= floor {
      assert m in all;
      DedupeKeepsDominating(all, m);
    }
  }
}
