/** app/redaction/circuit/breaker.py: what the fields of the breaker say about the calls
    that have ended, after any run.
 */
module BreakerRuns {
  import opened Wrappers
  import opened Breaker

  /** Step `k` of the run ended a call in flight with this outcome. */
  ghost predicate EndsAt(events: seq<Event>, k: int, outcome: Outcome, c: Config)
  {
    && 0 <= k < |events| && events[k].EndEvent? && events[k].outcome == outcome
    && events[k].id in Exec(IDLE, events[..k], c).flying
  }

  /** No call has succeeded from step `k` on. */
  ghost predicate NoSuccessFrom(events: seq<Event>, k: int, c: Config)
  {
    forall j :: k <= j < |events| ==> !EndsAt(events, j, Succeeded, c)
  }

  /** The transient failures since the last success. */
  ghost function FailuresInRow(events: seq<Event>, c: Config): (r: set<int>)
  {
    set k | 0 <= k < |events| && EndsAt(events, k, Transient, c) && NoSuccessFrom(events, k, c)
  }

  /** A failure opens the breaker if it is that of a probe, or with it the failures in a
      row reach the threshold. */
  ghost predicate OpensAt(events: seq<Event>, k: int, c: Config)
  {
    && EndsAt(events, k, Transient, c)
    && (Exec(IDLE, events[..k], c).flying[events[k].id] || |FailuresInRow(events[..k + 1], c)| >= c.threshold)
  }

  /** The openings since the last success. */
  ghost function Openings(events: seq<Event>, c: Config): (r: set<int>)
  {
    set k | k in FailuresInRow(events, c) && OpensAt(events, k, c)
  }

  /** `k` is the last step of a set of steps. */
  ghost predicate IsLast(steps: set<int>, k: int)
  {
    k in steps && forall j :: j in steps ==> j <= k
  }

  lemma EndsBefore(events: seq<Event>, e: Event, k: int, outcome: Outcome, c: Config)
    ensures k < |events| ==> (EndsAt(events + [e], k, outcome, c) <==> EndsAt(events, k, outcome, c))
    ensures EndsAt(events + [e], |events|, outcome, c)
        <==> e.EndEvent? && e.outcome == outcome && e.id in Exec(IDLE, events, c).flying
  {
    assert (events + [e])[..|events|] == events;
    if 0 <= k < |events| {
      assert (events + [e])[..k] == events[..k];
    }
  }

  /** One more step: a success forgets the failures, a transient failure adds itself. */
  lemma RowStep(events: seq<Event>, e: Event, c: Config)
    ensures var ends := e.EndEvent? && e.id in Exec(IDLE, events, c).flying;
      FailuresInRow(events + [e], c) ==
        if ends && e.outcome == Succeeded then {}
        else FailuresInRow(events, c) + if ends && e.outcome == Transient then {|events|} else {}
  {
    var all, n := events + [e], |events|;
    forall k, outcome ensures k < n ==> (EndsAt(all, k, outcome, c) <==> EndsAt(events, k, outcome, c)) {
      EndsBefore(events, e, k, outcome, c);
    }
    EndsBefore(events, e, n, Succeeded, c);
    EndsBefore(events, e, n, Transient, c);
    forall k | k < n
      ensures NoSuccessFrom(all, k, c) <==> NoSuccessFrom(events, k, c) && !EndsAt(all, n, Succeeded, c)
    {
      if NoSuccessFrom(all, k, c) {
        assert !EndsAt(all, n, Succeeded, c);
      }
    }
  }

  lemma RowSize(events: seq<Event>, e: Event, c: Config)
    ensures var ends, n := e.EndEvent? && e.id in Exec(IDLE, events, c).flying, |FailuresInRow(events, c)|;
      |FailuresInRow(events + [e], c)| ==
        if ends && e.outcome == Succeeded then 0 else if ends && e.outcome == Transient then n + 1 else n
  {
    RowStep(events, e, c);
    assert FailuresInRow(events, c) + {} == FailuresInRow(events, c);
  }

  lemma OpensBefore(events: seq<Event>, e: Event, k: int, c: Config)
    requires k < |events|
    ensures OpensAt(events + [e], k, c) <==> OpensAt(events, k, c)
  {
    EndsBefore(events, e, k, Transient, c);
    if 0 <= k {
      assert (events + [e])[..k] == events[..k] && (events + [e])[..k + 1] == events[..k + 1];
    }
  }

  lemma OpensNow(events: seq<Event>, e: Event, c: Config)
    requires e.EndEvent? && e.outcome == Transient && e.id in Exec(IDLE, events, c).flying
    ensures OpensAt(events + [e], |events|, c)
        <==> Exec(IDLE, events, c).flying[e.id] || |FailuresInRow(events, c)| + 1 >= c.threshold
  {
    var all, n, row := events + [e], |events|, FailuresInRow(events, c);
    RowStep(events, e, c);
    EndsBefore(events, e, n, Transient, c);
    assert all[..n] == events && all[..n + 1] == all;
    assert n !in row && |row + {n}| == |row| + 1;
  }

  /** Without a success what has opened the breaker before stays. */
  lemma OpeningsStay(events: seq<Event>, e: Event, c: Config)
    requires !(e.EndEvent? && e.id in Exec(IDLE, events, c).flying && e.outcome == Succeeded)
    ensures forall k :: k < |events| ==> (k in Openings(events + [e], c) <==> k in Openings(events, c))
    ensures forall k :: k in Openings(events + [e], c) ==> k <= |events|
    ensures forall k :: k in Openings(events, c) ==> k < |events|
  {
    RowStep(events, e, c);
    forall k | k < |events| ensures OpensAt(events + [e], k, c) <==> OpensAt(events, k, c) {
      OpensBefore(events, e, k, c);
    }
  }

  lemma AddsAtEnd(before: set<int>, after: set<int>, n: int)
    requires forall k :: k < n ==> (k in after <==> k in before)
    requires forall k :: k in after ==> k <= n
    requires forall k :: k in before ==> k < n
    ensures after == if n in after then before + {n} else before
  {
    forall k ensures k in after <==> k in before || (k == n && n in after) {
      assert k < n || k == n || k > n;
    }
  }

  lemma OpeningsStep(events: seq<Event>, e: Event, c: Config)
    ensures var m, row := Exec(IDLE, events, c), FailuresInRow(events, c);
            var ends := e.EndEvent? && e.id in m.flying;
      Openings(events + [e], c) ==
        if ends && e.outcome == Succeeded then {}
        else if ends && e.outcome == Transient && (m.flying[e.id] || |row| + 1 >= c.threshold)
        then Openings(events, c) + {|events|} else Openings(events, c)
  {
    if e.EndEvent? && e.id in Exec(IDLE, events, c).flying && e.outcome == Succeeded {
      RowStep(events, e, c);
    } else {
      OpeningsStay(events, e, c);
      AddsAtEnd(Openings(events, c), Openings(events + [e], c), |events|);
      LastOpens(events, e, c);
    }
  }

  lemma LastOpens(events: seq<Event>, e: Event, c: Config)
    ensures var m, row := Exec(IDLE, events, c), FailuresInRow(events, c);
      |events| in Openings(events + [e], c) <==>
        e.EndEvent? && e.id in m.flying && e.outcome == Transient && (m.flying[e.id] || |row| + 1 >= c.threshold)
  {
    RowStep(events, e, c);
    EndsBefore(events, e, |events|, Transient, c);
    if e.EndEvent? && e.id in Exec(IDLE, events, c).flying && e.outcome == Transient {
      OpensNow(events, e, c);
    }
  }

  /** `failures` in a row; open since some time, or closed. */
  ghost predicate Reads(b: State, failures: nat, since: Option<real>)
  {
    && b.consecutiveFailures == failures && b.openedAt == since
    && b.state == if since.Some? then "open" else "closed"
  }

  lemma ReadsStep(m: Machine, e: Event, c: Config, n: nat, since: Option<real>)
    requires Reads(m.b, n, since)
    ensures var ends := e.EndEvent? && e.id in m.flying;
            var b := Step(m, e, c).b;
      && (ends && e.outcome == Succeeded ==> Reads(b, 0, None))
      && (ends && e.outcome == Transient ==>
            Reads(b, n + 1, if m.flying[e.id] || n + 1 >= c.threshold then Some(e.now) else since))
      && (!ends || e.outcome == Other ==> Reads(b, n, since))
  {
  }

  lemma LastStays(events: seq<Event>, e: Event, steps: set<int>, k: int)
    requires IsLast(steps, k) && forall j :: j in steps ==> 0 <= j < |events|
    ensures (events + [e])[k] == events[k] && IsLast(steps + {|events|}, |events|)
  {
  }

  /** After any run the breaker has counted the transient failures since the last
      success.  It is open if and only if one of them opened it: that of a probe, or one
      that reached the threshold; and it opened at the time of the last such one. */
  lemma {:induction false} BreakerReadsRun(events: seq<Event>, c: Config)
    ensures var b, row, openings := Exec(IDLE, events, c).b, |FailuresInRow(events, c)|, Openings(events, c);
      && (openings == {} ==> Reads(b, row, None))
      && (openings != {} ==> exists k :: IsLast(openings, k) && Reads(b, row, Some(events[k].now)))
  {
    if events != [] {
      var init, e := events[..|events| - 1], events[|events| - 1];
      assert events == init + [e];
      BreakerReadsRun(init, c);
      RowSize(init, e, c);
      OpeningsStep(init, e, c);
      var before, n := Openings(init, c), |FailuresInRow(init, c)|;
      if before == {} {
        ReadsStep(Exec(IDLE, init, c), e, c, n, None);
        assert IsLast({|init|}, |init|);
      } else {
        var k :| IsLast(before, k) && Reads(Exec(IDLE, init, c).b, n, Some(init[k].now));
        ReadsStep(Exec(IDLE, init, c), e, c, n, Some(init[k].now));
        LastStays(init, e, before, k);
      }
    }
  }

  /** So after any run a call is admitted if and only if there was no opening since the
      last success, or the cooldown has passed since the last one and no probe has the
      slot; in the latter case it is a probe. */
  lemma AdmittedIffClosedOrProbe(events: seq<Event>, now: real, c: Config)
    ensures var m, openings := Exec(IDLE, events, c), Openings(events, c);
            var a := Begin(m.b, now, c).1;
      && (openings == {} ==> a == Answer(true, false))
      && (forall k :: IsLast(openings, k) ==>
            var admits := now - events[k].now >= c.cooldown && !m.b.probeInFlight; a == Answer(admits, admits))
  {
    BreakerReadsRun(events, c);
  }
}
