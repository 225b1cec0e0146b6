/** app/api/idempotency.py: leases and replayable results for one idempotency key.

    `reserve` is a GET followed by a SET NX, so it is two steps; `complete` and
    `release` are one atomic script each; either key may expire between steps.
    A token is fresh for every request, so requests are named by their tokens.
 */
module Idempotency {
  import opened Wrappers

  type Token = nat
  const VERSION := 3

  /** The decoded value of the result key; anything else decodes to nothing. */
  datatype Envelope = Envelope(version: int, complete: bool, fingerprint: string, response: Option<string>)

  datatype Verdict = Conflict | Completed(response: string) | Proceed

  /** The first half of `reserve`, on the value its GET returned. */
  function Inspect(existing: Option<Envelope>, fingerprint: string): (v: Verdict)
  {
    if existing.Some? && existing.value.version == VERSION then
      if existing.value.fingerprint != fingerprint then Conflict
      else if existing.value.complete && existing.value.response.Some? then Completed(existing.value.response.value)
      else Proceed
    else Proceed
  }

  function Publication(fingerprint: string, response: string): (e: Envelope)
  {
    Envelope(VERSION, true, fingerprint, Some(response))
  }

  /** The two Redis keys of one idempotency key. */
  datatype KeyPair = KeyPair(lock: Option<Token>, result: Option<Envelope>)

  /** SET NX of the lock. */
  function AcquireLock(k: KeyPair, token: Token): (r: (KeyPair, bool))
  {
    if k.lock.None? then (k.(lock := Some(token)), true) else (k, false)
  }

  function CompleteScript(k: KeyPair, token: Token, envelope: Envelope): (r: (KeyPair, bool))
  {
    if k.lock == Some(token) then (KeyPair(None, Some(envelope)), true) else (k, false)
  }

  function ReleaseScript(k: KeyPair, token: Token): (r: (KeyPair, bool))
  {
    if k.lock == Some(token) then (k.(lock := None), true) else (k, false)
  }

  class Keys {
    var lock: Option<Token>
    var result: Option<Envelope>

    ghost function Value(): (k: KeyPair)
      reads this
    {
      KeyPair(lock, result)
    }

    constructor ()
      ensures Value() == KeyPair(None, None)
    {
      lock, result := None, None;
    }

    /** The two steps of `reserve`, for a request that meets no other in between. */
    method Reserve(fingerprint: string, token: Token) returns (verdict: Verdict, acquired: bool)
      modifies this`lock
      ensures verdict == Inspect(old(result), fingerprint)
      ensures verdict != Proceed ==> !acquired && lock == old(lock)
      ensures verdict == Proceed ==> (Value(), acquired) == AcquireLock(old(Value()), token)
    {
      verdict := Inspect(result, fingerprint);
      if verdict != Proceed {
        return verdict, false;
      }
      acquired := Acquire(token);
    }

    method Acquire(token: Token) returns (acquired: bool)
      modifies this`lock
      ensures (Value(), acquired) == AcquireLock(old(Value()), token)
    {
      if lock.None? {
        lock := Some(token);
        return true;
      }
      return false;
    }

    method Complete(token: Token, fingerprint: string, response: string) returns (done: bool)
      modifies this
      ensures (Value(), done) == CompleteScript(old(Value()), token, Publication(fingerprint, response))
    {
      if lock == Some(token) {
        result := Some(Publication(fingerprint, response));
        lock := None;
        return true;
      }
      return false;
    }

    method Release(token: Token) returns (done: bool)
      modifies this`lock
      ensures (Value(), done) == ReleaseScript(old(Value()), token)
    {
      if lock == Some(token) {
        lock := None;
        return true;
      }
      return false;
    }
  }

  // ----- the protocol -----

  /** Where a request is: past its GET, holding a lease, or answered. */
  datatype Status = Passed | Acquired | InProgress | Replayed(response: string) | Conflicted | Published | Released

  datatype Request = Request(fingerprint: string, inspectedAt: nat, status: Status)

  /** A successful `complete`, with the step at which it happened. */
  datatype Pub = Pub(token: Token, fingerprint: string, response: string, at: nat)

  /** `live` tells which publication the result key holds. */
  datatype State = State(
    lock: Option<Token>, result: Option<Envelope>, requests: map<Token, Request>,
    pubs: seq<Pub>, live: Option<nat>, now: nat)

  const INITIAL := State(None, None, map[], [], None, 0)

  datatype Event =
    | GetStep(token: Token, fingerprint: string)
    | SetNxStep(token: Token)
    | CompleteStep(token: Token, response: string)
    | ReleaseStep(token: Token)
    | LockExpires
    | ResultExpires

  function StatusAfterGet(v: Verdict): (s: Status)
  {
    match v
    case Conflict => Conflicted
    case Completed(response) => Replayed(response)
    case Proceed => Passed
  }

  function KeysOf(s: State): (k: KeyPair) { KeyPair(s.lock, s.result) }

  function WithKeys(s: State, k: KeyPair): (r: State) { s.(lock := k.lock, result := k.result) }

  function SetStatus(s: State, t: Token, status: Status): (r: map<Token, Request>)
    requires t in s.requests
  {
    s.requests[t := s.requests[t].(status := status)]
  }

  /** `complete` and `release` may be called at any time, also twice, also after
      the lease is gone; events that no client can produce change nothing. */
  function Step(s: State, e: Event): (r: State)
  {
    var n := s.(now := s.now + 1);
    match e
    case GetStep(t, f) =>
      if t in s.requests then n
      else n.(requests := s.requests[t := Request(f, s.now, StatusAfterGet(Inspect(s.result, f)))])
    case SetNxStep(t) =>
      if t !in s.requests || s.requests[t].status != Passed then n
      else
        var (k, acquired) := AcquireLock(KeysOf(s), t);
        WithKeys(n, k).(requests := SetStatus(s, t, if acquired then Acquired else InProgress))
    case CompleteStep(t, response) =>
      if t !in s.requests then n
      else
        var f := s.requests[t].fingerprint;
        var (k, done) := CompleteScript(KeysOf(s), t, Publication(f, response));
        if !done then n
        else WithKeys(n, k).(live := Some(|s.pubs|), pubs := s.pubs + [Pub(t, f, response, s.now)],
                             requests := SetStatus(s, t, Published))
    case ReleaseStep(t) =>
      if t !in s.requests then n
      else
        var (k, done) := ReleaseScript(KeysOf(s), t);
        if !done then n else WithKeys(n, k).(requests := SetStatus(s, t, Released))
    case LockExpires => n.(lock := None)
    case ResultExpires => n.(result := None, live := None)
  }

  function Exec(events: seq<Event>): (s: State)
  {
    if events == [] then INITIAL else Step(Exec(events[..|events| - 1]), events[|events| - 1])
  }

  /** The request was let through by its own GET. */
  predicate LetThrough(r: Request)
  {
    || r.status == Passed || r.status == Acquired || r.status == InProgress
    || r.status == Published || r.status == Released
  }

  /** A lease is held by a request that got it. */
  ghost predicate LockSound(s: State)
  {
    s.lock.Some? ==> s.lock.value in s.requests && s.requests[s.lock.value].status == Acquired
  }

  /** Publications are of distinct requests, each let through by an earlier GET. */
  ghost predicate PubsSound(s: State)
  {
    && (forall i, j :: 0 <= i < j < |s.pubs| ==> s.pubs[i].token != s.pubs[j].token && s.pubs[i].at < s.pubs[j].at)
    && (forall i :: 0 <= i < |s.pubs| ==>
          var p := s.pubs[i];
          && p.at < s.now && p.token in s.requests
          && s.requests[p.token].status == Published
          && s.requests[p.token].fingerprint == p.fingerprint
          && s.requests[p.token].inspectedAt < p.at)
  }

  /** What a GET after a publication leads to, while its result is live. */
  function AnswerAfter(p: Pub, fingerprint: string): (s: Status)
  {
    if fingerprint == p.fingerprint then Replayed(p.response) else Conflicted
  }

  /** The result key holds the publication `live`, and every request whose GET
      came after it saw it: same fingerprint replays, another conflicts. */
  ghost predicate ResultSound(s: State)
  {
    && (s.result.Some? <==> s.live.Some?)
    && (s.live.Some? ==>
          && s.live.value < |s.pubs|
          && var p := s.pubs[s.live.value];
          && s.result == Some(Publication(p.fingerprint, p.response))
          && forall t :: t in s.requests && s.requests[t].inspectedAt > p.at ==>
               s.requests[t].status == AnswerAfter(p, s.requests[t].fingerprint))
  }

  /** A replay is the response of an earlier publication with its fingerprint. */
  ghost predicate ReplaysSound(s: State)
  {
    forall t :: t in s.requests && s.requests[t].status.Replayed? ==> PublishedBefore(s, s.requests[t])
  }

  ghost predicate PublishedBefore(s: State, r: Request)
    requires r.status.Replayed?
  {
    exists k :: 0 <= k < |s.pubs| && s.pubs[k].fingerprint == r.fingerprint
      && s.pubs[k].response == r.status.response && s.pubs[k].at < r.inspectedAt
  }

  ghost predicate Inv(s: State)
  {
    && LockSound(s) && PubsSound(s) && ResultSound(s) && ReplaysSound(s)
    && (forall t :: t in s.requests ==> s.requests[t].inspectedAt < s.now)
  }

  lemma StepKeepsReplays(s: State, e: Event)
    requires Inv(s)
    ensures ReplaysSound(Step(s, e))
  {
    var n := Step(s, e);
    assert s.pubs <= n.pubs;
    forall t | t in n.requests && n.requests[t].status.Replayed? ensures PublishedBefore(n, n.requests[t]) {
      if t in s.requests {
        assert n.requests[t] == s.requests[t];
        var k :| 0 <= k < |s.pubs| && s.pubs[k].fingerprint == s.requests[t].fingerprint
          && s.pubs[k].response == s.requests[t].status.response && s.pubs[k].at < s.requests[t].inspectedAt;
        assert n.pubs[k] == s.pubs[k];
      } else {
        var k := s.live.value;
        assert n.pubs[k] == s.pubs[k];
      }
    }
  }

  lemma StepKeepsLock(s: State, e: Event)
    requires Inv(s)
    ensures LockSound(Step(s, e))
    ensures forall t :: t in Step(s, e).requests ==> Step(s, e).requests[t].inspectedAt < s.now + 1
  {
  }

  lemma StepKeepsPubs(s: State, e: Event)
    requires Inv(s)
    ensures PubsSound(Step(s, e))
  {
    var n := Step(s, e);
    if e.CompleteStep? && s.lock == Some(e.token) && e.token in s.requests {
      forall i | 0 <= i < |s.pubs| ensures s.pubs[i].token != e.token {
        assert s.requests[s.pubs[i].token].status == Published;
      }
    } else {
      assert n.pubs == s.pubs;
      forall i | 0 <= i < |s.pubs| ensures
        s.pubs[i].token in n.requests && n.requests[s.pubs[i].token] == s.requests[s.pubs[i].token]
      {
        assert s.requests[s.pubs[i].token].status == Published;
      }
    }
  }

  lemma StepKeepsResult(s: State, e: Event)
    requires Inv(s)
    ensures ResultSound(Step(s, e))
  {
    var n := Step(s, e);
    if n.live.Some? && n.live == s.live {
      var p := s.pubs[s.live.value];
      assert n.pubs[n.live.value] == p;
      forall t | t in n.requests && n.requests[t].inspectedAt > p.at
        ensures n.requests[t].status == AnswerAfter(p, n.requests[t].fingerprint)
      {
        if t in s.requests {
          assert n.requests[t] == s.requests[t];
        }
      }
    }
  }

  lemma StepKeepsInv(s: State, e: Event)
    requires Inv(s)
    ensures Inv(Step(s, e))
  {
    StepKeepsLock(s, e);
    StepKeepsPubs(s, e);
    StepKeepsResult(s, e);
    StepKeepsReplays(s, e);
  }

  /** Whatever the interleaving and the expiries. */
  lemma {:induction false} EveryRunKeepsInv(events: seq<Event>)
    ensures Inv(Exec(events))
  {
    if events != [] {
      EveryRunKeepsInv(events[..|events| - 1]);
      StepKeepsInv(Exec(events[..|events| - 1]), events[|events| - 1]);
    }
  }

  // ----- what clients may rely on -----

  /** Each token publishes at most once, and its own GET, before the publication,
      did not find a result to replay or to conflict with. */
  lemma PublishersAreOnce(events: seq<Event>, i: nat, j: nat)
    ensures var s := Exec(events);
      i < |s.pubs| && j < |s.pubs| ==>
        && (s.pubs[i].token == s.pubs[j].token ==> i == j)
        && s.pubs[i].token in s.requests && LetThrough(s.requests[s.pubs[i].token])
        && s.requests[s.pubs[i].token].inspectedAt < s.pubs[i].at
  {
    EveryRunKeepsInv(events);
  }

  /** While a result is live, no request whose GET follows its publication holds
      or obtains a lease: it replays exactly that response under the same
      fingerprint, and conflicts under another. */
  lemma LiveResultBarsLaterRequests(events: seq<Event>, t: Token)
    ensures var s := Exec(events);
      s.live.Some? ==> (
        && s.live.value < |s.pubs|
        && var p := s.pubs[s.live.value];
        (t in s.requests && s.requests[t].inspectedAt > p.at ==> (
          && s.lock != Some(t) && !LetThrough(s.requests[t])
          && s.requests[t].status == AnswerAfter(p, s.requests[t].fingerprint))))
  {
    EveryRunKeepsInv(events);
  }

  /** So a publication overwrites a live result only when the GET of its request
      came before that result was published. */
  lemma OverwriteNeedsEarlierGet(events: seq<Event>, t: Token, response: string)
    ensures var s := Exec(events);
            var n := Step(s, CompleteStep(t, response));
      s.live.Some? && |n.pubs| > |s.pubs| ==>
        t in s.requests && s.live.value < |s.pubs| && s.requests[t].inspectedAt < s.pubs[s.live.value].at
  {
    EveryRunKeepsInv(events);
    var s := Exec(events);
    if s.live.Some? && t in s.requests && s.lock == Some(t) {
      assert s.requests[t].status == Acquired;
      TimesDiffer(events);
    }
  }

  /** A GET and a publication are different steps. */
  ghost predicate Apart(s: State)
  {
    forall t, k :: t in s.requests && 0 <= k < |s.pubs| ==> s.requests[t].inspectedAt != s.pubs[k].at
  }

  lemma StepKeepsApart(s: State, e: Event)
    requires Inv(s) && Apart(s)
    ensures Apart(Step(s, e))
  {
    var n := Step(s, e);
    forall t, k | t in n.requests && 0 <= k < |n.pubs| ensures n.requests[t].inspectedAt != n.pubs[k].at {
      if k < |s.pubs| {
        assert n.pubs[k] == s.pubs[k];
        assert t in s.requests ==> n.requests[t].inspectedAt == s.requests[t].inspectedAt;
      }
    }
  }

  lemma {:induction false} TimesDiffer(events: seq<Event>)
    ensures Apart(Exec(events))
  {
    if events != [] {
      TimesDiffer(events[..|events| - 1]);
      EveryRunKeepsInv(events[..|events| - 1]);
      StepKeepsApart(Exec(events[..|events| - 1]), events[|events| - 1]);
    }
  }

  /** The request has read, and can still come to publish. */
  predicate MayPublish(s: State, t: Token)
  {
    t in s.requests && (s.requests[t].status == Passed || (s.requests[t].status == Acquired && s.lock == Some(t)))
  }

  /** In this continuation the token publishes, although the live result has not
      expired. */
  ghost predicate Overwrites(events: seq<Event>, more: seq<Event>, t: Token)
  {
    && ResultExpires !in more
    && exists i :: |Exec(events).pubs| <= i < |Exec(events + more).pubs| && Exec(events + more).pubs[i].token == t
  }

  lemma ExecSnoc(events: seq<Event>, e: Event)
    ensures Exec(events + [e]) == Step(Exec(events), e)
  {
    assert (events + [e])[..|events|] == events;
  }

  /** Under a live result no step but its expiry lets a request publish that could
      not before. */
  lemma StepOpensNothing(s: State, e: Event, t: Token)
    requires Inv(s) && s.live.Some? && !MayPublish(s, t) && e != ResultExpires
    ensures var n := Step(s, e);
      && n.live.Some? && !MayPublish(n, t)
      && (n.pubs == s.pubs || (|n.pubs| == |s.pubs| + 1 && s.pubs <= n.pubs && n.pubs[|s.pubs|].token != t))
  {
  }

  lemma {:induction false} RunOpensNothing(events: seq<Event>, more: seq<Event>, t: Token)
    requires Exec(events).live.Some? && !MayPublish(Exec(events), t) && ResultExpires !in more
    ensures var s, n := Exec(events), Exec(events + more);
      && n.live.Some? && !MayPublish(n, t) && |s.pubs| <= |n.pubs|
      && forall i :: |s.pubs| <= i < |n.pubs| ==> n.pubs[i].token != t
  {
    if more == [] {
      assert events + more == events;
    } else {
      var init, e := more[..|more| - 1], more[|more| - 1];
      assert events + more == (events + init) + [e];
      RunOpensNothing(events, init, t);
      EveryRunKeepsInv(events + init);
      ExecSnoc(events + init, e);
      StepOpensNothing(Exec(events + init), e, t);
    }
  }

  /** What a request that may publish has to do: get the lease once it is free, and
      complete. */
  function WayToPublish(s: State, t: Token): (more: seq<Event>)
    requires MayPublish(s, t)
  {
    if s.requests[t].status == Passed then [LockExpires, SetNxStep(t), CompleteStep(t, "")] else [CompleteStep(t, "")]
  }

  lemma HolderPublishes(s: State, t: Token, response: string)
    requires t in s.requests && s.lock == Some(t)
    ensures var n := Step(s, CompleteStep(t, response));
      |n.pubs| == |s.pubs| + 1 && n.pubs[|s.pubs|].token == t
  {
  }

  lemma FreeLockIsTaken(s: State, t: Token)
    requires t in s.requests && s.requests[t].status == Passed
    ensures var n := Step(Step(s, LockExpires), SetNxStep(t));
      t in n.requests && n.lock == Some(t) && n.pubs == s.pubs
  {
  }

  lemma WayIsOpen(events: seq<Event>, t: Token)
    requires MayPublish(Exec(events), t)
    ensures Overwrites(events, WayToPublish(Exec(events), t), t)
  {
    var s := Exec(events);
    var more := WayToPublish(s, t);
    if s.requests[t].status == Passed {
      assert events + more == ((events + [more[0]]) + [more[1]]) + [more[2]];
      ExecSnoc(events, more[0]);
      ExecSnoc(events + [more[0]], more[1]);
      ExecSnoc((events + [more[0]]) + [more[1]], more[2]);
      FreeLockIsTaken(s, t);
      HolderPublishes(Step(Step(s, LockExpires), SetNxStep(t)), t, "");
    } else {
      ExecSnoc(events, more[0]);
      HolderPublishes(s, t, "");
    }
    var i := |s.pubs|;
    assert i < |Exec(events + more).pubs| && Exec(events + more).pubs[i].token == t;
  }

  /** While a result is live, a request can still overwrite it, in some continuation
      in which it does not expire, if and only if it is past its GET and has not yet
      tried for the lease, or holds it.  Each such request read before the live
      result was published. */
  lemma OverwriteIffBetweenSteps(events: seq<Event>, t: Token)
    requires Exec(events).live.Some?
    ensures (exists more :: Overwrites(events, more, t)) <==> MayPublish(Exec(events), t)
    ensures var s := Exec(events);
      MayPublish(s, t) ==> s.live.value < |s.pubs| && s.requests[t].inspectedAt < s.pubs[s.live.value].at
  {
    var s := Exec(events);
    EveryRunKeepsInv(events);
    TimesDiffer(events);
    if MayPublish(s, t) {
      WayIsOpen(events, t);
    } else {
      forall more ensures !Overwrites(events, more, t) {
        if ResultExpires !in more {
          RunOpensNothing(events, more, t);
        }
      }
    }
  }

  // ----- the holder of the lease -----

  /** The step ends the lease of `t`: its own `complete` or `release`, or its expiry. */
  predicate EndsLease(e: Event, t: Token)
  {
    e == LockExpires || ((e.CompleteStep? || e.ReleaseStep?) && e.token == t)
  }

  lemma HolderStep(s: State, e: Event, t: Token)
    requires s.lock == Some(t) && !EndsLease(e, t)
    ensures var n := Step(s, e);
      n.lock == Some(t) && n.pubs == s.pubs && (e != ResultExpires ==> n.result == s.result)
  {
  }

  /** However many other requests try to acquire, complete and release meanwhile,
      a lease stays with its holder until the holder ends it or it expires, and
      until then nobody publishes. */
  lemma {:induction false} OnlyTheHolderActs(events: seq<Event>, more: seq<Event>, t: Token)
    requires Exec(events).lock == Some(t)
    requires forall e :: e in more ==> !EndsLease(e, t)
    ensures Exec(events + more).lock == Some(t)
    ensures Exec(events + more).pubs == Exec(events).pubs
    ensures ResultExpires !in more ==> Exec(events + more).result == Exec(events).result
  {
    if more == [] {
      assert events + more == events;
    } else {
      var init, e := more[..|more| - 1], more[|more| - 1];
      assert events + more == (events + init) + [e];
      assert e in more && forall d :: d in init ==> d in more;
      OnlyTheHolderActs(events, init, t);
      ExecSnoc(events + init, e);
      HolderStep(Exec(events + init), e, t);
    }
  }

  /** A replayed response was published before, under the same fingerprint. */
  lemma ReplaysArePublished(events: seq<Event>, t: Token)
    ensures var s := Exec(events);
      t in s.requests && s.requests[t].status.Replayed? ==>
        exists k :: 0 <= k < |s.pubs| && s.pubs[k].fingerprint == s.requests[t].fingerprint
          && s.pubs[k].response == s.requests[t].status.response && s.pubs[k].at < s.requests[t].inspectedAt
  {
    EveryRunKeepsInv(events);
  }

  /** The event is a `complete` or `release` that succeeds. */
  predicate Succeeds(s: State, e: Event, t: Token)
  {
    (e.CompleteStep? || e.ReleaseStep?) && e.token == t && t in s.requests && s.lock == Some(t)
  }

  function Successes(events: seq<Event>, t: Token): (n: nat)
  {
    if events == [] then 0 else
      var init := events[..|events| - 1];
      Successes(init, t) + if Succeeds(Exec(init), events[|events| - 1], t) then 1 else 0
  }

  predicate Finished(s: State, t: Token)
  {
    t in s.requests && (s.requests[t].status == Published || s.requests[t].status == Released)
  }

  /** A success finishes the request, and a finished request stays finished. */
  lemma FinishedForGood(s: State, e: Event, t: Token)
    requires Inv(s)
    ensures Succeeds(s, e, t) ==> !Finished(s, t) && Finished(Step(s, e), t)
    ensures Finished(s, t) ==> Finished(Step(s, e), t)
  {
  }

  /** Over a whole run a token succeeds at most once, in `complete` or `release`. */
  lemma {:induction false} TokenSucceedsOnce(events: seq<Event>, t: Token)
    ensures Successes(events, t) <= 1
    ensures Successes(events, t) == 1 ==> Finished(Exec(events), t)
  {
    if events != [] {
      var init, e := events[..|events| - 1], events[|events| - 1];
      TokenSucceedsOnce(init, t);
      EveryRunKeepsInv(init);
      FinishedForGood(Exec(init), e, t);
    }
  }

  ghost predicate NoLockExpiry(events: seq<Event>)
  {
    forall i :: 0 <= i < |events| ==> events[i] != LockExpires
  }

  /** A request that acquired and has not finished holds the lock. */
  ghost predicate Exclusive(s: State)
  {
    forall t :: t in s.requests && s.requests[t].status == Acquired ==> s.lock == Some(t)
  }

  lemma StepKeepsExclusive(s: State, e: Event)
    requires Exclusive(s) && e != LockExpires
    ensures Exclusive(Step(s, e))
  {
    var n := Step(s, e);
    forall t | t in n.requests && n.requests[t].status == Acquired ensures n.lock == Some(t) {
      if t in s.requests && n.requests[t] == s.requests[t] {
        assert s.lock == Some(t);
      }
    }
  }

  /** As long as no lease expires, the guarded work is exclusive: at most one
      request has acquired and not finished. */
  lemma {:induction false} LeaseIsExclusive(events: seq<Event>, t: Token, u: Token)
    requires NoLockExpiry(events)
    ensures Exclusive(Exec(events))
    ensures var s := Exec(events);
      (t in s.requests && s.requests[t].status == Acquired && u in s.requests && s.requests[u].status == Acquired)
      ==> t == u
  {
    if events != [] {
      LeaseIsExclusive(events[..|events| - 1], t, u);
      StepKeepsExclusive(Exec(events[..|events| - 1]), events[|events| - 1]);
    }
  }

  const WINDOW: seq<Event> := [
    GetStep(0, "f"), GetStep(1, "f"), SetNxStep(0), CompleteStep(0, "a"), SetNxStep(1), CompleteStep(1, "b")]

  lemma WindowOpens()
    ensures Exec(WINDOW[..3]) == State(Some(0), None,
      map[0 := Request("f", 0, Acquired), 1 := Request("f", 1, Passed)], [], None, 3)
  {
    var l := WINDOW[..3];
    assert l[..2] == WINDOW[..2] && l[..2][..1] == WINDOW[..1] && l[..1][..0] == [];
    var r0, r1 := Request("f", 0, Passed), Request("f", 1, Passed);
    assert Exec(l[..1]) == State(None, None, map[0 := r0], [], None, 1);
    assert Exec(l[..2]) == State(None, None, map[0 := r0, 1 := r1], [], None, 2);
  }

  /** The window between GET and SET NX: both requests find no result, and both
      publish although nothing expired. */
  lemma TwoPublicationsInTheWindow()
    ensures |Exec(WINDOW).pubs| == 2
  {
    var l := WINDOW;
    assert l[..6] == l && l[..6][..5] == l[..5] && l[..5][..4] == l[..4] && l[..4][..3] == l[..3];
    WindowOpens();
    var r1 := Request("f", 1, Passed);
    assert |Exec(l[..4]).pubs| == 1 && Exec(l[..4]).lock == None && 1 in Exec(l[..4]).requests;
    assert Exec(l[..4]).requests[1] == r1;
    assert |Exec(l[..5]).pubs| == 1 && Exec(l[..5]).lock == Some(1) && 1 in Exec(l[..5]).requests;
  }
}
