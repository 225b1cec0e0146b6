/** app/redaction/circuit/shared.py: the breaker of all replicas, as three scripts
    over one Redis hash, compared with the breaker of one process.
 */
module SharedBreaker {
  import opened Wrappers
  import opened Breaker

  /** The fields of the hash; a missing field reads as nothing. */
  datatype Hash = Hash(
    state: Option<string>, consecutiveFailures: Option<int>, openedAt: Option<real>, probe: Option<int>,
    totalCalls: Option<int>, totalFailures: Option<int>)

  const EMPTY := Hash(None, None, None, None, None, None)

  function Get<T>(field: Option<T>, default: T): (r: T)
  {
    if field.Some? then field.value else default
  }

  function Increment(field: Option<int>): (r: Option<int>) { Some(Get(field, 0) + 1) }

  function AllowScript(h: Hash, now: real, cooldown: real): (r: (Hash, Answer))
  {
    var state := Get(h.state, "closed");
    if state == "closed" then (h.(totalCalls := Increment(h.totalCalls)), Answer(true, false))
    else if state == "open" && now - Get(h.openedAt, 0.0) < cooldown then (h, Answer(false, false))
    else if h.probe == Some(1) then (h, Answer(false, false))
    else (h.(probe := Some(1), totalCalls := Increment(h.totalCalls)), Answer(true, true))
  }

  function SuccessScript(h: Hash): (r: Hash)
  {
    h.(state := Some("closed"), consecutiveFailures := Some(0), openedAt := Some(0.0), probe := Some(0))
  }

  function FailureScript(h: Hash, wasProbe: bool, now: real, threshold: int): (r: Hash)
  {
    var g := h.(consecutiveFailures := Increment(h.consecutiveFailures), totalFailures := Increment(h.totalFailures));
    if wasProbe || g.consecutiveFailures.value >= threshold
    then g.(state := Some("open"), openedAt := Some(now), probe := Some(0))
    else g
  }

  function EndScript(h: Hash, wasProbe: bool, outcome: Outcome, now: real, c: Config): (r: Hash)
  {
    match outcome
    case Succeeded => SuccessScript(h)
    case Transient => FailureScript(h, wasProbe, now, c.threshold)
    case Other => h
  }

  class RedisHash {
    var state: Option<string>
    var consecutiveFailures: Option<int>
    var openedAt: Option<real>
    var probe: Option<int>
    var totalCalls: Option<int>
    var totalFailures: Option<int>

    ghost function Value(): (h: Hash)
      reads this
    {
      Hash(state, consecutiveFailures, openedAt, probe, totalCalls, totalFailures)
    }

    constructor ()
      ensures Value() == EMPTY
    {
      state, consecutiveFailures, openedAt, probe, totalCalls, totalFailures := None, None, None, None, None, None;
    }

    method AllowCall(now: real, cooldown: real) returns (allow: bool, isProbe: bool)
      modifies this
      ensures (Value(), Answer(allow, isProbe)) == AllowScript(old(Value()), now, cooldown)
    {
      var current := Get(state, "closed");
      if current == "closed" {
        totalCalls := Increment(totalCalls);
        return true, false;
      }
      var since := Get(openedAt, 0.0);
      if current == "open" && now - since < cooldown {
        return false, false;
      }
      if probe == Some(1) {
        return false, false;
      }
      probe := Some(1);
      totalCalls := Increment(totalCalls);
      return true, true;
    }

    method RecordSuccess()
      modifies this
      ensures Value() == SuccessScript(old(Value()))
    {
      state, consecutiveFailures, openedAt, probe := Some("closed"), Some(0), Some(0.0), Some(0);
    }

    method RecordFailure(wasProbe: bool, now: real, threshold: int) returns (consecutive: int)
      modifies this
      ensures Value() == FailureScript(old(Value()), wasProbe, now, threshold)
      ensures consecutiveFailures == Some(consecutive)
    {
      consecutiveFailures := Increment(consecutiveFailures);
      consecutive := consecutiveFailures.value;
      totalFailures := Increment(totalFailures);
      if wasProbe || consecutive >= threshold {
        state, openedAt, probe := Some("open"), Some(now), Some(0);
      }
    }
  }

  // ----- serial runs: the two breakers are indistinguishable -----

  /** One call from beginning to end; when it is refused only `begin` matters. */
  datatype Attempt = Attempt(begin: real, outcome: Outcome, end: real)

  /** The answer to each call, and the failure count seen after it. */
  datatype Seen = Seen(answer: Answer, failures: int)

  function LocalRun(attempts: seq<Attempt>, c: Config): (r: (State, seq<Seen>))
  {
    if attempts == [] then (INITIAL, []) else
      var n := |attempts| - 1;
      var (s, seen) := LocalRun(attempts[..n], c);
      var (t, a) := Begin(s, attempts[n].begin, c);
      var u := if a.allow then End(t, a.isProbe, attempts[n].outcome, attempts[n].end, c) else t;
      (u, seen + [Seen(a, u.consecutiveFailures)])
  }

  function SharedRun(attempts: seq<Attempt>, c: Config): (r: (Hash, seq<Seen>))
  {
    if attempts == [] then (EMPTY, []) else
      var n := |attempts| - 1;
      var (h, seen) := SharedRun(attempts[..n], c);
      var (g, a) := AllowScript(h, attempts[n].begin, c.cooldown);
      var k := if a.allow then EndScript(g, a.isProbe, attempts[n].outcome, attempts[n].end, c) else g;
      (k, seen + [Seen(a, Get(k.consecutiveFailures, 0))])
  }

  /** Between serial calls the object and the hash say the same; only an open
      breaker can have its flag up, after a probe was lost. */
  ghost predicate Simulates(s: State, h: Hash)
  {
    && (s.state == "closed" || s.state == "open")
    && s.state == Get(h.state, "closed")
    && s.consecutiveFailures == Get(h.consecutiveFailures, 0)
    && (s.state == "open" ==> s.openedAt.Some? && h.openedAt == s.openedAt)
    && (s.probeInFlight <==> h.probe == Some(1)) && (s.probeInFlight ==> s.state == "open")
    && s.totalCalls == Get(h.totalCalls, 0)
    && s.totalFailures == Get(h.totalFailures, 0)
  }

  lemma AttemptAgrees(s: State, h: Hash, attempt: Attempt, c: Config)
    requires Simulates(s, h)
    ensures var (t, a) := Begin(s, attempt.begin, c);
      var (g, b) := AllowScript(h, attempt.begin, c.cooldown);
      && a == b
      && Simulates(if a.allow then End(t, a.isProbe, attempt.outcome, attempt.end, c) else t,
                   if b.allow then EndScript(g, b.isProbe, attempt.outcome, attempt.end, c) else g)
  {
  }

  /** Every serial run, lost probes included: both breakers give the same answers and
      the same failure counts, call by call. */
  lemma {:induction false} SerialRunsAgree(attempts: seq<Attempt>, c: Config)
    ensures Simulates(LocalRun(attempts, c).0, SharedRun(attempts, c).0)
    ensures LocalRun(attempts, c).1 == SharedRun(attempts, c).1
  {
    if attempts != [] {
      var init, last := attempts[..|attempts| - 1], attempts[|attempts| - 1];
      SerialRunsAgree(init, c);
      AttemptAgrees(LocalRun(init, c).0, SharedRun(init, c).0, last, c);
    }
  }

  // ----- concurrent calls: where they part -----

  /** The hash, and the admitted calls in flight with their probe flags. */
  datatype Replicas = Replicas(h: Hash, flying: map<nat, bool>, next: nat)

  function StepShared(m: Replicas, e: Event, c: Config): (r: Replicas)
  {
    match e
    case BeginEvent(now) =>
      var (h, a) := AllowScript(m.h, now, c.cooldown);
      if a.allow then Replicas(h, m.flying[m.next := a.isProbe], m.next + 1) else m.(h := h)
    case EndEvent(id, outcome, now) =>
      if id !in m.flying then m
      else m.(h := EndScript(m.h, m.flying[id], outcome, now, c), flying := m.flying - {id})
  }

  function ExecShared(m: Replicas, events: seq<Event>, c: Config): (r: Replicas)
  {
    if events == [] then m else StepShared(ExecShared(m, events[..|events| - 1], c), events[|events| - 1], c)
  }

  ghost predicate LiveProbe(m: Replicas, id: nat) { id in m.flying && m.flying[id] }

  ghost predicate ProbeIsLive(m: Replicas) { exists id :: LiveProbe(m, id) }

  /** At most one probe is live, and then the flag of the hash is up. */
  ghost predicate FlagCovers(m: Replicas)
  {
    && (forall i, j :: LiveProbe(m, i) && LiveProbe(m, j) ==> i == j)
    && (ProbeIsLive(m) ==> m.h.probe == Some(1))
    && (forall id :: id in m.flying ==> id < m.next)
  }

  /** The flag is up exactly while one probe is live. */
  ghost predicate FlagExact(m: Replicas)
  {
    FlagCovers(m) && (m.h.probe == Some(1) ==> ProbeIsLive(m))
  }

  /** The end of an ordinary call that clears the flag: any success, and any
      failure at the threshold. */
  predicate ClearsFlag(m: Replicas, e: Event, c: Config)
  {
    && e.EndEvent? && e.id in m.flying && !m.flying[e.id]
    && (e.outcome == Succeeded
        || (e.outcome == Transient && Get(m.h.consecutiveFailures, 0) + 1 >= c.threshold))
  }

  /** A probe ends in an exception that is not transient. */
  predicate LosesLiveProbe(m: Replicas, e: Event)
  {
    e.EndEvent? && e.id in m.flying && m.flying[e.id] && e.outcome == Other
  }

  /** However calls end, a step keeps at most one live probe under its flag if and
      only if it is not the end of an ordinary call that clears the flag under a
      live probe. */
  lemma FlagStaysUp(m: Replicas, e: Event, c: Config)
    requires FlagCovers(m)
    ensures FlagCovers(StepShared(m, e, c)) <==> !(ProbeIsLive(m) && ClearsFlag(m, e, c))
  {
    var n := StepShared(m, e, c);
    if e.EndEvent? && e.id in m.flying {
      forall id ensures LiveProbe(n, id) <==> LiveProbe(m, id) && id != e.id {
      }
      if m.flying[e.id] {
        assert LiveProbe(m, e.id);
      }
    } else if e.BeginEvent? {
      var a := AllowScript(m.h, e.now, c.cooldown).1;
      forall id ensures LiveProbe(n, id) <==> LiveProbe(m, id) || (a.isProbe && id == m.next) {
      }
    }
  }

  /** A step keeps the flag exact if and only if, besides, it loses no probe. */
  lemma FlagStaysExact(m: Replicas, e: Event, c: Config)
    requires FlagExact(m)
    ensures FlagExact(StepShared(m, e, c)) <==> !(ProbeIsLive(m) && ClearsFlag(m, e, c)) && !LosesLiveProbe(m, e)
  {
    var n := StepShared(m, e, c);
    FlagStaysUp(m, e, c);
    if e.EndEvent? && e.id in m.flying {
      forall id ensures LiveProbe(n, id) <==> LiveProbe(m, id) && id != e.id {
      }
      if m.flying[e.id] {
        assert LiveProbe(m, e.id);
      }
    } else if e.BeginEvent? {
      var a := AllowScript(m.h, e.now, c.cooldown).1;
      forall id ensures LiveProbe(n, id) <==> LiveProbe(m, id) || (a.isProbe && id == m.next) {
      }
      if a.isProbe {
        assert LiveProbe(n, m.next);
      }
    }
  }

  /** No step of the run clears the flag under a live probe. */
  ghost predicate NeverCleared(events: seq<Event>, c: Config)
  {
    events != [] ==>
      var init, e := events[..|events| - 1], events[|events| - 1];
      && NeverCleared(init, c)
      && !(ProbeIsLive(ExecShared(FRESH, init, c)) && ClearsFlag(ExecShared(FRESH, init, c), e, c))
  }

  /** No step of the run loses a probe. */
  ghost predicate NeverLost(events: seq<Event>, c: Config)
  {
    events != [] ==>
      var init, e := events[..|events| - 1], events[|events| - 1];
      NeverLost(init, c) && !LosesLiveProbe(ExecShared(FRESH, init, c), e)
  }

  const FRESH := Replicas(EMPTY, map[], 0)

  /** A run that never clears the flag so never has two live probes, however its
      calls end. */
  lemma {:induction false} OneLiveProbe(events: seq<Event>, c: Config)
    requires NeverCleared(events, c)
    ensures FlagCovers(ExecShared(FRESH, events, c))
  {
    if events != [] {
      OneLiveProbe(events[..|events| - 1], c);
      FlagStaysUp(ExecShared(FRESH, events[..|events| - 1], c), events[|events| - 1], c);
    }
  }

  ghost predicate AlwaysCovered(events: seq<Event>, c: Config)
  {
    && FlagCovers(ExecShared(FRESH, events, c))
    && (events != [] ==> AlwaysCovered(events[..|events| - 1], c))
  }

  /** Over every run: at most one probe is live throughout, under its flag, if and
      only if no step clears the flag under a live probe. */
  lemma {:induction false} CoveredIffNeverCleared(events: seq<Event>, c: Config)
    ensures AlwaysCovered(events, c) <==> NeverCleared(events, c)
  {
    if events != [] {
      var init, e := events[..|events| - 1], events[|events| - 1];
      CoveredIffNeverCleared(init, c);
      if AlwaysCovered(init, c) {
        FlagStaysUp(ExecShared(FRESH, init, c), e, c);
      }
    }
  }

  ghost predicate AlwaysExact(events: seq<Event>, c: Config)
  {
    && FlagExact(ExecShared(FRESH, events, c))
    && (events != [] ==> AlwaysExact(events[..|events| - 1], c))
  }

  /** And the flag is exact throughout if and only if, besides, no probe is lost. */
  lemma {:induction false} ExactIffNeverCleared(events: seq<Event>, c: Config)
    ensures AlwaysExact(events, c) <==> NeverCleared(events, c) && NeverLost(events, c)
  {
    if events != [] {
      var init, e := events[..|events| - 1], events[|events| - 1];
      ExactIffNeverCleared(init, c);
      if AlwaysExact(init, c) {
        FlagStaysExact(ExecShared(FRESH, init, c), e, c);
      }
    }
  }

  // ----- a cleared flag lets a second probe in -----

  lemma {:induction false} ExecAppends(m: Replicas, a: seq<Event>, b: seq<Event>, c: Config)
    ensures ExecShared(m, a + b, c) == ExecShared(ExecShared(m, a, c), b, c)
  {
    if b == [] {
      assert a + b == a;
    } else {
      assert (a + b)[..|a + b| - 1] == a + b[..|b| - 1];
      ExecAppends(m, a, b[..|b| - 1], c);
    }
  }

  lemma ExecOne(m: Replicas, e: Event, c: Config)
    ensures ExecShared(m, [e], c) == StepShared(m, e, c)
  {
    assert [e][..0] == [];
  }

  /** Probe `i` is live, although the flag is down. */
  ghost predicate Forgotten(m: Replicas, i: nat)
  {
    LiveProbe(m, i) && m.h.probe != Some(1) && forall id :: id in m.flying ==> id < m.next
  }

  /** An ordinary call that begins in a closed breaker and fails. */
  lemma FailOnce(m: Replicas, i: nat, c: Config)
    requires Forgotten(m, i) && m.h.state == Some("closed")
    ensures var n := ExecShared(m, [BeginEvent(0.0), EndEvent(m.next, Transient, 0.0)], c);
      && Forgotten(n, i)
      && Get(n.h.consecutiveFailures, 0) == Get(m.h.consecutiveFailures, 0) + 1
      && n.h.state == Some(if Get(n.h.consecutiveFailures, 0) >= c.threshold then "open" else "closed")
  {
    var begin, end := BeginEvent(0.0), EndEvent(m.next, Transient, 0.0);
    assert [begin, end] == [begin] + [end];
    ExecAppends(m, [begin], [end], c);
    ExecOne(m, begin, c);
    ExecOne(StepShared(m, begin, c), end, c);
    assert StepShared(m, begin, c).flying == m.flying[m.next := false];
  }

  /** Failing ordinary calls open a closed breaker, and the probe stays forgotten. */
  lemma {:induction false} FailUntilOpen(m: Replicas, i: nat, c: Config) returns (more: seq<Event>)
    requires Forgotten(m, i) && (m.h.state == Some("closed") || m.h.state == Some("open"))
    ensures OnlyTransient(more)
    ensures Forgotten(ExecShared(m, more, c), i) && ExecShared(m, more, c).h.state == Some("open")
    decreases m.h.state == Some("closed"), c.threshold - Get(m.h.consecutiveFailures, 0)
  {
    if m.h.state == Some("open") {
      more := [];
    } else {
      var round := [BeginEvent(0.0), EndEvent(m.next, Transient, 0.0)];
      FailOnce(m, i, c);
      var rest := FailUntilOpen(ExecShared(m, round, c), i, c);
      more := round + rest;
      ExecAppends(m, round, rest, c);
    }
  }

  /** A step that clears the flag under a live probe can always be continued, by
      failing calls alone, to a state with two live probes. */
  lemma ClearedFlagAdmitsSecond(m: Replicas, e: Event, c: Config) returns (more: seq<Event>, i: nat, j: nat)
    requires FlagCovers(m) && ProbeIsLive(m) && ClearsFlag(m, e, c)
    ensures OnlyTransient(more)
    ensures var n := ExecShared(StepShared(m, e, c), more, c); i != j && LiveProbe(n, i) && LiveProbe(n, j)
  {
    i :| LiveProbe(m, i);
    var cleared := StepShared(m, e, c);
    assert Forgotten(cleared, i);
    var failing := FailUntilOpen(cleared, i, c);
    var open := ExecShared(cleared, failing, c);
    var last := [BeginEvent(Get(open.h.openedAt, 0.0) + c.cooldown)];
    ExecOne(open, last[0], c);
    more, j := failing + last, open.next;
    ExecAppends(cleared, failing, last, c);
  }

  const LATE_FAILURE: seq<Event> := [
    BeginEvent(0.0), BeginEvent(0.0), EndEvent(0, Transient, 0.0), BeginEvent(1.0),
    EndEvent(1, Transient, 1.0), BeginEvent(2.0)]

  lemma PrefixesOfLateFailure()
    ensures forall k :: 0 < k <= 6 ==> LATE_FAILURE[..k][..k - 1] == LATE_FAILURE[..k - 1]
    ensures LATE_FAILURE[..6] == LATE_FAILURE && LATE_FAILURE[..0] == []
  {
  }

  lemma LateFailureShared()
    ensures var m := ExecShared(FRESH, LATE_FAILURE, Config(1, 1.0)); LiveProbe(m, 2) && LiveProbe(m, 3)
  {
    var c, l := Config(1, 1.0), LATE_FAILURE;
    PrefixesOfLateFailure();
    assert ExecShared(FRESH, l[..1], c) == StepShared(FRESH, l[0], c)
        == Replicas(EMPTY.(totalCalls := Some(1)), map[0 := false], 1);
    var two := EMPTY.(totalCalls := Some(2));
    assert ExecShared(FRESH, l[..2], c) == Replicas(two, map[0 := false, 1 := false], 2);
    var broken := Hash(Some("open"), Some(1), Some(0.0), Some(0), Some(2), Some(1));
    assert ExecShared(FRESH, l[..3], c) == Replicas(broken, map[1 := false], 2);
    assert ExecShared(FRESH, l[..4], c)
        == Replicas(broken.(probe := Some(1), totalCalls := Some(3)), map[1 := false, 2 := true], 3);
    var again := Hash(Some("open"), Some(2), Some(1.0), Some(0), Some(3), Some(2));
    assert ExecShared(FRESH, l[..5], c) == Replicas(again, map[2 := true], 3);
    assert ExecShared(FRESH, l[..6], c)
        == Replicas(again.(probe := Some(1), totalCalls := Some(4)), map[2 := true, 3 := true], 4);
  }

  lemma LateFailureLocal()
    ensures var m := Exec(IDLE, LATE_FAILURE, Config(1, 1.0)); ProbeAt(m, 2) && 3 !in m.flying
  {
    var c, l := Config(1, 1.0), LATE_FAILURE;
    PrefixesOfLateFailure();
    assert Exec(IDLE, l[..1], c) == Step(IDLE, l[0], c)
        == Machine(INITIAL.(totalCalls := 1), map[0 := false], 1, 0, 0, 0);
    assert Exec(IDLE, l[..2], c) == Machine(INITIAL.(totalCalls := 2), map[0 := false, 1 := false], 2, 0, 0, 0);
    var broken := State("open", 1, Some(0.0), false, 2, 1);
    assert Exec(IDLE, l[..3], c) == Machine(broken, map[1 := false], 2, 0, 1, 0);
    assert Exec(IDLE, l[..4], c)
        == Machine(broken.(probeInFlight := true, totalCalls := 3), map[1 := false, 2 := true], 3, 0, 1, 0);
    var again := State("open", 2, Some(1.0), true, 3, 2);
    assert Exec(IDLE, l[..5], c) == Machine(again, map[2 := true], 3, 0, 2, 0);
    assert Exec(IDLE, l[..6], c) == Machine(again, map[2 := true], 3, 0, 2, 0);
  }

  /** A late failure clears the flag: two probes are then live in the shared
      breaker, where the local one refuses the second. */
  lemma TwoLiveProbes()
    ensures var c := Config(1, 1.0);
      var shared, local := ExecShared(FRESH, LATE_FAILURE, c), Exec(IDLE, LATE_FAILURE, c);
      && LiveProbe(shared, 2) && LiveProbe(shared, 3)
      && ProbeAt(local, 2) && 3 !in local.flying
  {
    LateFailureShared();
    LateFailureLocal();
  }
}
