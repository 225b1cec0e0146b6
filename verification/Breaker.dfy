/** app/redaction/circuit/breaker.py: the circuit breaker of one process.

    `call` takes the lock twice, so a call is two atomic steps, `Begin` and `End`,
    and the calls of several threads interleave step by step.
 */
module Breaker {
  import opened Wrappers

  datatype Config = Config(threshold: int, cooldown: real)

  datatype State = State(
    state: string, consecutiveFailures: int, openedAt: Option<real>, probeInFlight: bool,
    totalCalls: int, totalFailures: int)

  const INITIAL := State("closed", 0, None, false, 0, 0)

  /** How the wrapped function ended; `Other` is an exception that is not transient. */
  datatype Outcome = Succeeded | Transient | Other

  datatype Answer = Answer(allow: bool, isProbe: bool)

  function Allow(s: State, now: real, c: Config): (r: (State, Answer))
  {
    if s.state == "closed" then (s, Answer(true, false))
    else if s.state == "open" then
      if s.openedAt.None? then (s, Answer(false, false))
      else if now - s.openedAt.value >= c.cooldown then
        if s.probeInFlight then (s, Answer(false, false))
        else (s.(probeInFlight := true), Answer(true, true))
      else (s, Answer(false, false))
    else (s, Answer(true, false))
  }

  function OnSuccess(s: State, wasProbe: bool): (r: State)
  {
    State("closed", 0, None, s.probeInFlight && !wasProbe, s.totalCalls, s.totalFailures)
  }

  function OnFailure(s: State, wasProbe: bool, now: real, c: Config): (r: State)
  {
    var failures := s.consecutiveFailures + 1;
    var opens := wasProbe || failures >= c.threshold;
    State(if opens then "open" else s.state, failures, if opens then Some(now) else s.openedAt,
          s.probeInFlight && !wasProbe, s.totalCalls, s.totalFailures + 1)
  }

  /** The first half of `call`. */
  function Begin(s: State, now: real, c: Config): (r: (State, Answer))
  {
    var (t, a) := Allow(s, now, c);
    (if a.allow then t.(totalCalls := t.totalCalls + 1) else t, a)
  }

  /** The second half of `call`. */
  function End(s: State, wasProbe: bool, outcome: Outcome, now: real, c: Config): (r: State)
  {
    match outcome
    case Succeeded => OnSuccess(s, wasProbe)
    case Transient => OnFailure(s, wasProbe, now, c)
    case Other => s
  }

  class Breaker {
    const config: Config
    var state: string
    var consecutiveFailures: int
    var openedAt: Option<real>
    var probeInFlight: bool
    var totalCalls: int
    var totalFailures: int

    ghost function Value(): (s: State)
      reads this
    {
      State(state, consecutiveFailures, openedAt, probeInFlight, totalCalls, totalFailures)
    }

    constructor (c: Config)
      ensures Value() == INITIAL && config == c
    {
      config := c;
      state := "closed";
      consecutiveFailures := 0;
      openedAt := None;
      probeInFlight := false;
      totalCalls := 0;
      totalFailures := 0;
    }

    method AllowCall(now: real) returns (allow: bool, isProbe: bool)
      modifies this`probeInFlight
      ensures (Value(), Answer(allow, isProbe)) == Allow(old(Value()), now, config)
    {
      if state == "closed" {
        return true, false;
      }
      if state == "open" {
        if openedAt.None? {
          return false, false;
        }
        if now - openedAt.value >= config.cooldown {
          if probeInFlight {
            return false, false;
          }
          probeInFlight := true;
          return true, true;
        }
        return false, false;
      }
      return true, false;
    }

    method RecordSuccess(wasProbe: bool)
      modifies this
      ensures Value() == OnSuccess(old(Value()), wasProbe)
    {
      if wasProbe {
        probeInFlight := false;
      }
      consecutiveFailures := 0;
      state := "closed";
      openedAt := None;
    }

    method RecordFailure(wasProbe: bool, now: real)
      modifies this
      ensures Value() == OnFailure(old(Value()), wasProbe, now, config)
    {
      if wasProbe {
        probeInFlight := false;
      }
      totalFailures := totalFailures + 1;
      consecutiveFailures := consecutiveFailures + 1;
      if wasProbe || consecutiveFailures >= config.threshold {
        state := "open";
        openedAt := Some(now);
      }
    }

    method BeginCall(now: real) returns (allow: bool, isProbe: bool)
      modifies this
      ensures (Value(), Answer(allow, isProbe)) == Begin(old(Value()), now, config)
    {
      allow, isProbe := AllowCall(now);
      if allow {
        totalCalls := totalCalls + 1;
      }
    }

    method EndCall(isProbe: bool, outcome: Outcome, now: real)
      modifies this
      ensures Value() == End(old(Value()), isProbe, outcome, now, config)
    {
      match outcome
      case Succeeded => RecordSuccess(isProbe);
      case Transient => RecordFailure(isProbe, now);
      case Other =>
    }
  }

  // ----- interleaved calls -----

  /** A call begins, or the call `id` that is in flight ends. */
  datatype Event = BeginEvent(now: real) | EndEvent(id: nat, outcome: Outcome, now: real)

  /** The breaker, the admitted calls in flight with their probe flags, and the
      number of calls that ended in each way. */
  datatype Machine = Machine(b: State, flying: map<nat, bool>, next: nat, succeeded: nat, failed: nat, other: nat)

  const IDLE := Machine(INITIAL, map[], 0, 0, 0, 0)

  function Step(m: Machine, e: Event, c: Config): (r: Machine)
  {
    match e
    case BeginEvent(now) =>
      var (b, a) := Begin(m.b, now, c);
      if a.allow then m.(b := b, flying := m.flying[m.next := a.isProbe], next := m.next + 1) else m.(b := b)
    case EndEvent(id, outcome, now) =>
      if id !in m.flying then m else
        var n := m.(b := End(m.b, m.flying[id], outcome, now, c), flying := m.flying - {id});
        match outcome
        case Succeeded => n.(succeeded := n.succeeded + 1)
        case Transient => n.(failed := n.failed + 1)
        case Other => n.(other := n.other + 1)
  }

  function Exec(m: Machine, events: seq<Event>, c: Config): (r: Machine)
  {
    if events == [] then m else Step(Exec(m, events[..|events| - 1], c), events[|events| - 1], c)
  }

  ghost predicate ProbeAt(m: Machine, id: nat) { id in m.flying && m.flying[id] }

  ghost predicate Probing(m: Machine) { exists id :: ProbeAt(m, id) }

  /** At most one probe is in flight, and then the flag is up. */
  ghost predicate ProbesInv(m: Machine)
  {
    && (forall i, j :: ProbeAt(m, i) && ProbeAt(m, j) ==> i == j)
    && (Probing(m) ==> m.b.probeInFlight)
    && (forall id :: id in m.flying ==> id < m.next)
  }

  /** A closed breaker is below the threshold; an open one knows when it opened. */
  ghost predicate StateInv(b: State, c: Config)
  {
    && (b.state == "closed" || b.state == "open")
    && (b.state == "closed" ==> b.consecutiveFailures < c.threshold && b.openedAt.None?)
    && (b.state == "open" ==> b.openedAt.Some?)
  }

  /** Every admitted call has ended in one of three ways or is in flight. */
  ghost predicate CountsInv(m: Machine)
  {
    && m.b.totalCalls == m.succeeded + m.failed + m.other + |m.flying|
    && m.b.totalFailures == m.failed
  }

  /** What every interleaving keeps. */
  ghost predicate Inv(m: Machine, c: Config)
  {
    ProbesInv(m) && StateInv(m.b, c) && CountsInv(m)
  }

  lemma LandingCount(flying: map<nat, bool>, id: nat)
    requires id in flying
    ensures |flying - {id}| == |flying| - 1
  {
    assert (flying - {id}).Keys == flying.Keys - {id};
    assert |flying.Keys| == |flying| && |(flying - {id}).Keys| == |flying - {id}|;
  }

  /** What a step does to the probes in flight. */
  lemma ProbesAfter(m: Machine, e: Event, c: Config, id: nat)
    ensures e.BeginEvent? ==>
      (ProbeAt(Step(m, e, c), id) <==>
        if id == m.next && Begin(m.b, e.now, c).1.allow then Begin(m.b, e.now, c).1.isProbe else ProbeAt(m, id))
    ensures e.EndEvent? ==> (ProbeAt(Step(m, e, c), id) <==> ProbeAt(m, id) && id != e.id)
  {
  }

  lemma StepKeepsProbes(m: Machine, e: Event, c: Config)
    requires ProbesInv(m)
    ensures ProbesInv(Step(m, e, c))
  {
    var n := Step(m, e, c);
    forall id { ProbesAfter(m, e, c, id); }
    if e.EndEvent? && e.id in m.flying && m.flying[e.id] {
      assert ProbeAt(m, e.id);
    }
  }

  lemma StepKeepsState(m: Machine, e: Event, c: Config)
    requires c.threshold >= 1 && StateInv(m.b, c)
    ensures StateInv(Step(m, e, c).b, c)
  {
  }

  lemma StepKeepsCounts(m: Machine, e: Event, c: Config)
    requires CountsInv(m) && m.next !in m.flying
    ensures CountsInv(Step(m, e, c))
  {
    if e.EndEvent? && e.id in m.flying {
      LandingCount(m.flying, e.id);
    }
  }

  lemma StepKeepsInv(m: Machine, e: Event, c: Config)
    requires c.threshold >= 1 && Inv(m, c)
    ensures Inv(Step(m, e, c), c)
  {
    StepKeepsProbes(m, e, c);
    StepKeepsState(m, e, c);
    StepKeepsCounts(m, e, c);
  }

  /** Over every interleaving: only the states closed and open occur, at most one
      probe is outstanding, a closed breaker is below the threshold with no
      opening time, and every admitted call is accounted for. */
  lemma {:induction false} EveryRunKeepsInv(events: seq<Event>, c: Config)
    requires c.threshold >= 1
    ensures Inv(Exec(IDLE, events, c), c)
  {
    if events != [] {
      EveryRunKeepsInv(events[..|events| - 1], c);
      StepKeepsInv(Exec(IDLE, events[..|events| - 1], c), events[|events| - 1], c);
    }
  }

  /** After any run, a call admitted while the breaker is open is a probe, comes
      at least the cooldown after the opening, and is alone. */
  lemma OpenAdmitsLoneProbe(events: seq<Event>, now: real, c: Config)
    requires c.threshold >= 1
    ensures var m := Exec(IDLE, events, c);
            var a := Begin(m.b, now, c).1;
      m.b.state == "open" && a.allow ==>
        a.isProbe && now - m.b.openedAt.value >= c.cooldown && !Probing(m)
  {
    EveryRunKeepsInv(events, c);
  }

  // ----- the probe slot -----

  ghost predicate OnlyTransient(events: seq<Event>)
  {
    forall i :: 0 <= i < |events| && events[i].EndEvent? ==> events[i].outcome != Other
  }

  /** An idle breaker whose cooldown has passed admits the next call, or it never
      admits a call again; which of the two is decided by the flag. */
  lemma {:induction false} IdleOpenBreaker(m: Machine, events: seq<Event>, now: real, c: Config)
    requires m.flying == map[] && m.b.state == "open" && m.b.openedAt.Some?
    requires now - m.b.openedAt.value >= c.cooldown
    ensures !m.b.probeInFlight ==> Begin(m.b, now, c).1 == Answer(true, true)
    ensures m.b.probeInFlight ==> Exec(m, events, c) == m
  {
    if m.b.probeInFlight && events != [] {
      IdleOpenBreaker(m, events[..|events| - 1], now, c);
    }
  }

  // ----- lost probes -----

  /** The flag is up although no probe is out. */
  ghost predicate Stuck(m: Machine) { m.b.probeInFlight && !Probing(m) }

  /** A probe ends in an exception that is not transient. */
  predicate LosesProbe(m: Machine, e: Event)
  {
    e.EndEvent? && e.id in m.flying && m.flying[e.id] && e.outcome == Other
  }

  /** Some probe of the run was lost. */
  predicate Lost(events: seq<Event>, c: Config)
  {
    events != [] &&
      var init := events[..|events| - 1];
      Lost(init, c) || LosesProbe(Exec(IDLE, init, c), events[|events| - 1])
  }

  lemma StuckStep(m: Machine, e: Event, c: Config)
    requires ProbesInv(m)
    ensures Stuck(Step(m, e, c)) <==> Stuck(m) || LosesProbe(m, e)
  {
    var n := Step(m, e, c);
    forall id { ProbesAfter(m, e, c, id); }
    if e.EndEvent? && e.id in m.flying {
      if m.flying[e.id] {
        assert ProbeAt(m, e.id);
      } else {
        assert forall id :: ProbeAt(n, id) <==> ProbeAt(m, id);
      }
    } else if e.BeginEvent? {
      if Begin(m.b, e.now, c).1.isProbe {
        assert ProbeAt(n, m.next);
      } else {
        assert forall id :: ProbeAt(n, id) <==> ProbeAt(m, id);
      }
    }
  }

  lemma {:induction false} RunKeepsProbes(m: Machine, events: seq<Event>, c: Config)
    requires ProbesInv(m)
    ensures ProbesInv(Exec(m, events, c))
  {
    if events != [] {
      RunKeepsProbes(m, events[..|events| - 1], c);
      StepKeepsProbes(Exec(m, events[..|events| - 1], c), events[|events| - 1], c);
    }
  }

  /** After any run the breaker is stuck if and only if a probe was lost. */
  lemma {:induction false} StuckIffLost(events: seq<Event>, c: Config)
    ensures Stuck(Exec(IDLE, events, c)) <==> Lost(events, c)
  {
    if events != [] {
      var init := events[..|events| - 1];
      StuckIffLost(init, c);
      RunKeepsProbes(IDLE, init, c);
      StuckStep(Exec(IDLE, init, c), events[|events| - 1], c);
    }
  }

  lemma {:induction false} NothingLost(events: seq<Event>, c: Config)
    requires OnlyTransient(events)
    ensures !Lost(events, c)
  {
    if events != [] {
      NothingLost(events[..|events| - 1], c);
    }
  }

  /** So with transient failures only, the flag is up exactly while a probe is out. */
  lemma ProbeFlagIsExact(events: seq<Event>, c: Config)
    requires OnlyTransient(events)
    ensures var m := Exec(IDLE, events, c); m.b.probeInFlight <==> Probing(m)
  {
    NothingLost(events, c);
    StuckIffLost(events, c);
    RunKeepsProbes(IDLE, events, c);
  }

  /** A stuck breaker stays stuck, admits no probe, and admits nothing while open. */
  lemma {:induction false} StuckRefuses(m: Machine, more: seq<Event>, now: real, c: Config)
    requires ProbesInv(m) && Stuck(m)
    ensures var n := Exec(m, more, c);
      && Stuck(n) && !Begin(n.b, now, c).1.isProbe
      && (n.b.state == "open" ==> !Begin(n.b, now, c).1.allow)
  {
    if more != [] {
      StuckRefuses(m, more[..|more| - 1], now, c);
      RunKeepsProbes(m, more[..|more| - 1], c);
      StuckStep(Exec(m, more[..|more| - 1], c), more[|more| - 1], c);
    }
  }

  /** The run ends a call that is in flight now, and that call succeeds. */
  predicate SucceedsIn(m: Machine, more: seq<Event>)
  {
    exists i :: 0 <= i < |more| && more[i].EndEvent? && more[i].outcome == Succeeded && more[i].id in m.flying
  }

  /** Only the calls of `m` are in flight, and the breaker is open as it was. */
  ghost predicate StillOpen(m: Machine, n: Machine)
  {
    n.b.state == "open" && n.next == m.next && forall id :: id in n.flying ==> id in m.flying
  }

  lemma StuckOpenStep(m: Machine, n: Machine, e: Event, c: Config)
    requires Stuck(n) && StillOpen(m, n)
    requires !(e.EndEvent? && e.outcome == Succeeded && e.id in m.flying)
    ensures StillOpen(m, Step(n, e, c))
  {
  }

  /** An open, stuck breaker stays open and admits nothing until a call already in
      flight succeeds. */
  lemma {:induction false} StuckStaysOpen(m: Machine, more: seq<Event>, c: Config)
    requires ProbesInv(m) && Stuck(m) && m.b.state == "open" && !SucceedsIn(m, more)
    ensures StillOpen(m, Exec(m, more, c))
  {
    if more != [] {
      var init, e := more[..|more| - 1], more[|more| - 1];
      assert forall i :: 0 <= i < |init| ==> init[i] == more[i];
      StuckStaysOpen(m, init, c);
      StuckRefuses(m, init, 0.0, c);
      StuckOpenStep(m, Exec(m, init, c), e, c);
    }
  }

  /** It is blocked for good if and only if no call is in flight: any call in flight
      closes it by succeeding. */
  lemma BlockedForGoodIffIdle(m: Machine, c: Config)
    requires ProbesInv(m) && Stuck(m) && m.b.state == "open"
    ensures (forall more :: Exec(m, more, c).b.state == "open") <==> m.flying == map[]
  {
    if m.flying == map[] {
      forall more ensures Exec(m, more, c).b.state == "open" {
        StuckStaysOpen(m, more, c);
      }
    } else {
      assert m.flying.Keys != {};
      var id :| id in m.flying;
      var more := [EndEvent(id, Succeeded, 0.0)];
      assert more[..0] == [];
      assert Exec(m, more, c) == Step(m, more[0], c);
      assert Exec(m, more, c).b.state == "closed";
    }
  }

  /** Whatever else is in flight, the end of a probe leaves the breaker stuck if and
      only if it is an exception that is not transient; an open breaker is then
      blocked for good if and only if no other call is in flight. */
  lemma LostProbeBlocksForGood(m: Machine, id: nat, outcome: Outcome, now: real, c: Config)
    requires ProbesInv(m) && ProbeAt(m, id)
    ensures var after := Step(m, EndEvent(id, outcome, now), c);
      && (Stuck(after) <==> outcome == Other)
      && (outcome == Other && m.b.state == "open" ==>
            ((forall more :: Exec(after, more, c).b.state == "open") <==> after.flying == map[]))
  {
    var after := Step(m, EndEvent(id, outcome, now), c);
    StuckStep(m, EndEvent(id, outcome, now), c);
    StepKeepsProbes(m, EndEvent(id, outcome, now), c);
    assert Probing(m);
    if outcome == Other && m.b.state == "open" {
      BlockedForGoodIffIdle(after, c);
    }
  }

  const RESCUED: seq<Event> := [
    BeginEvent(0.0), BeginEvent(0.0), EndEvent(0, Transient, 0.0), BeginEvent(1.0),
    EndEvent(2, Other, 1.0), EndEvent(1, Succeeded, 2.0)]

  /** A lost probe, and a call that was in flight meanwhile and closes the breaker:
      it is stuck, yet admits ordinary calls. */
  lemma LostProbeRescued()
    ensures var m := Exec(IDLE, RESCUED, Config(1, 1.0));
      Stuck(m) && m.b.state == "closed" && Begin(m.b, 2.0, Config(1, 1.0)).1 == Answer(true, false)
  {
    var c, l := Config(1, 1.0), RESCUED;
    assert l[..6] == l && l[..6][..5] == l[..5] && l[..5][..4] == l[..4] && l[..4][..3] == l[..3];
    assert l[..3][..2] == l[..2] && l[..2][..1] == l[..1] && l[..1][..0] == [];
    assert Exec(IDLE, l[..1], c) == Machine(INITIAL.(totalCalls := 1), map[0 := false], 1, 0, 0, 0);
    assert Exec(IDLE, l[..2], c) == Machine(INITIAL.(totalCalls := 2), map[0 := false, 1 := false], 2, 0, 0, 0);
    var broken := State("open", 1, Some(0.0), false, 2, 1);
    assert Exec(IDLE, l[..3], c) == Machine(broken, map[1 := false], 2, 0, 1, 0);
    var probing := broken.(probeInFlight := true, totalCalls := 3);
    assert Exec(IDLE, l[..4], c) == Machine(probing, map[1 := false, 2 := true], 3, 0, 1, 0);
    assert Exec(IDLE, l[..5], c) == Machine(probing, map[1 := false], 3, 0, 1, 1);
    assert Exec(IDLE, l, c) == Machine(State("closed", 0, None, true, 3, 1), map[], 3, 1, 1, 1);
  }
}
