/** app/jobs/store.py: durable jobs in Redis, admitted against two kinds of
    counters and moved through their life by four atomic scripts.
 */
module JobStore {
  import opened Wrappers

  type Id = nat
  const VERSION := 1

  datatype Status = Queued | Running | Done | Failed | Cancelled

  datatype Job = Job(status: Status, result: string, error: string, owner: string, updatedAt: real, schema: int)

  /** The job hashes, the counter of each owner token, the shared counter and the
      created index.  A counter key that is missing reads as 0. */
  datatype Store = Store(jobs: map<Id, Job>, owners: map<string, int>, total: Option<int>, index: map<Id, real>)

  const EMPTY := Store(map[], map[], None, map[])

  datatype Caps = Caps(maxInflight: int, maxPerKey: int)

  /** What a terminal call writes: `set_result` or `set_error`. */
  datatype Ending = Result(result: string) | Error(error: string)

  predicate IsLive(j: Job) { j.status == Queued || j.status == Running }

  function Count(owners: map<string, int>, owner: string): (n: int) { if owner in owners then owners[owner] else 0 }

  function Total(total: Option<int>): (n: int) { if total.Some? then total.value else 0 }

  // ----- the scripts -----

  /** `DEL` at one or below, else `DECR`. */
  function ReleaseOwner(owners: map<string, int>, key: string): (r: map<string, int>)
  {
    if Count(owners, key) <= 1 then owners - {key} else owners[key := owners[key] - 1]
  }

  function ReleaseTotal(total: Option<int>): (r: Option<int>)
  {
    if Total(total) <= 1 then None else Some(Total(total) - 1)
  }

  function AdmitScript(s: Store, id: Id, owner: string, now: real, c: Caps): (r: (Store, bool))
  {
    if Total(s.total) >= c.maxInflight then (s, false)
    else if owner != "" && Count(s.owners, owner) >= c.maxPerKey then (s, false)
    else (
      Store(s.jobs[id := Job(Queued, "", "", owner, now, VERSION)],
            if owner != "" then s.owners[owner := Count(s.owners, owner) + 1] else s.owners,
            Some(Total(s.total) + 1),
            s.index[id := now]),
      true)
  }

  /** `ownerKey` is the owner that the caller read before. */
  function TerminalScript(s: Store, id: Id, ownerKey: string, e: Ending, now: real): (r: (Store, bool))
  {
    if id !in s.jobs || !IsLive(s.jobs[id]) || s.jobs[id].schema != VERSION then (s, false)
    else
      var j := s.jobs[id];
      var ended := match e
        case Result(r) => Job(Done, r, "", j.owner, now, VERSION)
        case Error(m) => Job(Failed, "", m, j.owner, now, VERSION);
      (Store(s.jobs[id := ended],
             if j.owner != "" then ReleaseOwner(s.owners, ownerKey) else s.owners,
             ReleaseTotal(s.total), s.index - {id}),
       true)
  }

  function ClaimScript(s: Store, id: Id, now: real): (r: (Store, bool))
  {
    if id !in s.jobs || s.jobs[id].status != Queued || s.jobs[id].schema != VERSION then (s, false)
    else (s.(jobs := s.jobs[id := s.jobs[id].(status := Running, updatedAt := now)]), true)
  }

  function CancelScript(s: Store, id: Id, ownerKey: string, now: real): (r: (Store, bool))
  {
    if id !in s.jobs || s.jobs[id].status != Queued || s.jobs[id].schema != VERSION then (s, false)
    else (
      Store(s.jobs[id := s.jobs[id].(status := Cancelled, error := "job cancelled", updatedAt := now)],
            ReleaseOwner(s.owners, ownerKey), ReleaseTotal(s.total), s.index - {id}),
      true)
  }

  /** The first round trip of `set_terminal` and `cancel`: `owner or ""`. */
  function ReadOwner(s: Store, id: Id): (owner: string)
  {
    if id in s.jobs then s.jobs[id].owner else ""
  }

  /** The Redis keys of the store, and the scripts as they change them. */
  class Redis {
    var jobs: map<Id, Job>
    var owners: map<string, int>
    var total: Option<int>
    var index: map<Id, real>

    ghost function Value(): (s: Store)
      reads this
    {
      Store(jobs, owners, total, index)
    }

    constructor ()
      ensures Value() == EMPTY
    {
      jobs, owners, total, index := map[], map[], None, map[];
    }

    method Admit(id: Id, owner: string, now: real, c: Caps) returns (ok: bool)
      modifies this
      ensures (Value(), ok) == AdmitScript(old(Value()), id, owner, now, c)
    {
      var inflight := Total(total);
      var held := Count(owners, owner);
      if inflight >= c.maxInflight {
        return false;
      }
      if owner != "" && held >= c.maxPerKey {
        return false;
      }
      jobs := jobs[id := Job(Queued, "", "", owner, now, VERSION)];
      index := index[id := now];
      total := Some(inflight + 1);
      if owner != "" {
        owners := owners[owner := held + 1];
      }
      return true;
    }

    method ReleaseSlots(ownerKey: string, ownerToo: bool)
      modifies this`owners, this`total
      ensures owners == if ownerToo then ReleaseOwner(old(owners), ownerKey) else old(owners)
      ensures total == ReleaseTotal(old(total))
    {
      if ownerToo {
        var held := Count(owners, ownerKey);
        if held <= 1 {
          owners := owners - {ownerKey};
        } else {
          owners := owners[ownerKey := held - 1];
        }
      }
      var inflight := Total(total);
      if inflight <= 1 {
        total := None;
      } else {
        total := Some(inflight - 1);
      }
    }

    method Terminal(id: Id, ownerKey: string, e: Ending, now: real) returns (ok: bool)
      modifies this
      ensures (Value(), ok) == TerminalScript(old(Value()), id, ownerKey, e, now)
      ensures ok <==>
        && id in old(jobs) && old(jobs)[id].schema == 1
        && (old(jobs)[id].status == Queued || old(jobs)[id].status == Running)
      ensures ok ==> index == old(index) - {id}
    {
      if id !in jobs || !IsLive(jobs[id]) {
        return false;
      }
      if jobs[id].schema != VERSION {
        return false;
      }
      var job := jobs[id];
      match e {
        case Result(r) => jobs := jobs[id := Job(Done, r, "", job.owner, now, VERSION)];
        case Error(m) => jobs := jobs[id := Job(Failed, "", m, job.owner, now, VERSION)];
      }
      index := index - {id};
      ReleaseSlots(ownerKey, job.owner != "");
      return true;
    }

    method Claim(id: Id, now: real) returns (ok: bool)
      modifies this`jobs
      ensures (Value(), ok) == ClaimScript(old(Value()), id, now)
      ensures ok <==> id in old(jobs) && old(jobs)[id].status == Queued && old(jobs)[id].schema == 1
      ensures ok ==> jobs == old(jobs)[id := old(jobs)[id].(status := Running, updatedAt := now)]
    {
      if id !in jobs || jobs[id].status != Queued {
        return false;
      }
      if jobs[id].schema != VERSION {
        return false;
      }
      jobs := jobs[id := jobs[id].(status := Running, updatedAt := now)];
      return true;
    }

    method Cancel(id: Id, ownerKey: string, now: real) returns (ok: bool)
      modifies this
      ensures (Value(), ok) == CancelScript(old(Value()), id, ownerKey, now)
      ensures ok <==> id in old(jobs) && old(jobs)[id].status == Queued && old(jobs)[id].schema == 1
      ensures ok ==>
        jobs == old(jobs)[id := old(jobs)[id].(status := Cancelled, error := "job cancelled", updatedAt := now)]
      ensures ok ==> index == old(index) - {id}
    {
      if id !in jobs || jobs[id].status != Queued {
        return false;
      }
      if jobs[id].schema != VERSION {
        return false;
      }
      jobs := jobs[id := jobs[id].(status := Cancelled, error := "job cancelled", updatedAt := now)];
      index := index - {id};
      ReleaseSlots(ownerKey, true);
      return true;
    }

    /** The body of the loop of `reap_stale_jobs`. */
    method ReapJob(id: Id, cutoff: real, now: real) returns (moved: bool)
      requires id in jobs
      modifies this
      ensures moved == Stale(old(jobs)[id], cutoff)
      ensures Value() == AfterReap(old(Value()), id, cutoff, now)
    {
      var job := jobs[id];
      if job.schema != VERSION {
        return false;
      }
      if !IsLive(job) || job.updatedAt > cutoff {
        return false;
      }
      moved := Terminal(id, job.owner, LEASE_EXPIRED, now);
    }

    /** One sweep of `reap_stale_jobs` that meets no other client: it moves exactly
        the stale jobs, and returns how many they are. */
    method ReapStaleJobs(cutoff: real, now: real) returns (reaped: nat)
      modifies this
      ensures Swept(old(jobs), jobs, {}, cutoff, now)
      ensures reaped == |StaleJobs(old(jobs), cutoff)|
      ensures KeepsConserved(old(Value()), Value())
    {
      reaped := 0;
      var todo := jobs.Keys;
      ghost var before := jobs;
      assert StaleJobs(before, cutoff) - todo == {};
      while todo != {}
        invariant Swept(before, jobs, todo, cutoff, now)
        invariant reaped == |StaleJobs(before, cutoff) - todo|
        invariant KeepsConserved(old(Value()), Value())
      {
        var id :| id in todo;
        SweepOne(before, jobs, todo, id, cutoff, now);
        ReapKeepsConserved(old(Value()), Value(), id, cutoff, now);
        var moved := ReapJob(id, cutoff, now);
        todo := todo - {id};
        if moved {
          reaped := reaped + 1;
        }
      }
      assert StaleJobs(before, cutoff) - {} == StaleJobs(before, cutoff);
    }
  }

  function AfterReap(s: Store, id: Id, cutoff: real, now: real): (r: Store)
    requires id in s.jobs
  {
    if Stale(s.jobs[id], cutoff) then TerminalScript(s, id, s.jobs[id].owner, LEASE_EXPIRED, now).0 else s
  }

  function AfterSweep(j: Job, cutoff: real, now: real): (r: Job)
  {
    if Stale(j, cutoff) then Job(Failed, "", LEASE_EXPIRED.error, j.owner, now, VERSION) else j
  }

  /** The jobs outside `todo` have been swept, those in it are as they were. */
  ghost predicate Swept(before: map<Id, Job>, jobs: map<Id, Job>, todo: set<Id>, cutoff: real, now: real)
  {
    && todo <= before.Keys && jobs.Keys == before.Keys
    && forall id :: id in jobs ==> jobs[id] == if id in todo then before[id] else AfterSweep(before[id], cutoff, now)
  }

  lemma SweepOne(before: map<Id, Job>, jobs: map<Id, Job>, todo: set<Id>, id: Id, cutoff: real, now: real)
    requires Swept(before, jobs, todo, cutoff, now) && id in todo
    ensures Swept(before, jobs[id := AfterSweep(before[id], cutoff, now)], todo - {id}, cutoff, now)
    ensures |StaleJobs(before, cutoff) - (todo - {id})|
         == |StaleJobs(before, cutoff) - todo| + if Stale(jobs[id], cutoff) then 1 else 0
    ensures !Stale(jobs[id], cutoff) ==> jobs[id := AfterSweep(before[id], cutoff, now)] == jobs
  {
    if Stale(before[id], cutoff) {
      assert StaleJobs(before, cutoff) - (todo - {id}) == (StaleJobs(before, cutoff) - todo) + {id};
    } else {
      assert StaleJobs(before, cutoff) - (todo - {id}) == StaleJobs(before, cutoff) - todo;
    }
  }

  ghost predicate KeepsConserved(s: Store, t: Store)
  {
    forall c :: Conserved(s, c) ==> Conserved(t, c)
  }

  lemma ReapKeepsConserved(s: Store, t: Store, id: Id, cutoff: real, now: real)
    requires id in t.jobs && KeepsConserved(s, t)
    ensures KeepsConserved(s, AfterReap(t, id, cutoff, now))
    ensures AfterReap(t, id, cutoff, now).jobs == t.jobs[id := AfterSweep(t.jobs[id], cutoff, now)]
  {
    forall c | Conserved(s, c) ensures Conserved(AfterReap(t, id, cutoff, now), c) {
      TerminalConserves(t, id, t.jobs[id].owner, LEASE_EXPIRED, now, c);
    }
  }

  /** Queued or running for longer than the recovery lease. */
  predicate Stale(j: Job, cutoff: real) { j.schema == VERSION && IsLive(j) && j.updatedAt <= cutoff }

  function StaleJobs(jobs: map<Id, Job>, cutoff: real): (r: set<Id>)
  {
    set id | id in jobs && Stale(jobs[id], cutoff)
  }

  // ----- replicas, workers and the reaper interleaved -----

  /** A call between its reads and its script.  The reaper first scans a job and
      finds it stale, then reads the owner like any terminal call; `sweep` names
      the call of `reap_stale_jobs` that it works for. */
  datatype Pending = Pending(id: Id, owner: Option<string>, sweep: Option<nat>)

  datatype State = State(store: Store, pending: map<nat, Pending>)

  const INITIAL := State(EMPTY, map[])

  datatype Event =
    | AdmitEvent(id: Id, owner: string, now: real)
    | ClaimEvent(id: Id, now: real)
    | ScanEvent(call: nat, sweep: nat, id: Id, cutoff: real)
    | OwnerEvent(call: nat, id: Id)
    | TerminalEvent(call: nat, ending: Ending, now: real)
    | CancelEvent(call: nat, now: real)

  const LEASE_EXPIRED := Error("job lease expired")

  /** A fresh random id is one that nobody has mentioned yet. */
  predicate Fresh(s: State, id: Id)
  {
    id !in s.store.jobs && forall call :: call in s.pending ==> s.pending[call].id != id
  }

  /** The script of a call that has read its owner. */
  predicate Ready(s: State, call: nat, reaperToo: bool)
  {
    call in s.pending && s.pending[call].owner.Some? && (s.pending[call].sweep.Some? ==> reaperToo)
  }

  function EndingOf(s: State, e: Event): (r: Ending)
    requires e.TerminalEvent? && e.call in s.pending
  {
    if s.pending[e.call].sweep.Some? then LEASE_EXPIRED else e.ending
  }

  /** One step, and whether a script in it succeeded.  Events that no client can
      produce change nothing. */
  function Step(s: State, e: Event, c: Caps): (r: (State, bool))
  {
    match e
    case AdmitEvent(id, owner, now) =>
      if !Fresh(s, id) then (s, false) else
        var (store, ok) := AdmitScript(s.store, id, owner, now, c);
        (s.(store := store), ok)
    case ClaimEvent(id, now) =>
      var (store, ok) := ClaimScript(s.store, id, now);
      (s.(store := store), ok)
    case ScanEvent(call, sweep, id, cutoff) =>
      if call in s.pending || id !in s.store.jobs || !Stale(s.store.jobs[id], cutoff) then (s, false)
      else (s.(pending := s.pending[call := Pending(id, None, Some(sweep))]), false)
    case OwnerEvent(call, id) =>
      if call !in s.pending then
        (s.(pending := s.pending[call := Pending(id, Some(ReadOwner(s.store, id)), None)]), false)
      else if s.pending[call].owner.None? then
        var p := s.pending[call];
        (s.(pending := s.pending[call := p.(owner := Some(ReadOwner(s.store, p.id)))]), false)
      else (s, false)
    case TerminalEvent(call, _, now) =>
      if !Ready(s, call, true) then (s, false) else
        var p := s.pending[call];
        var (store, ok) := TerminalScript(s.store, p.id, p.owner.value, EndingOf(s, e), now);
        (State(store, s.pending - {call}), ok)
    case CancelEvent(call, now) =>
      if !Ready(s, call, false) then (s, false) else
        var p := s.pending[call];
        var (store, ok) := CancelScript(s.store, p.id, p.owner.value, now);
        (State(store, s.pending - {call}), ok)
  }

  function Exec(events: seq<Event>, c: Caps): (s: State)
  {
    if events == [] then INITIAL else Step(Exec(events[..|events| - 1], c), events[|events| - 1], c).0
  }

  // ----- conservation -----

  function Live(jobs: map<Id, Job>): (r: set<Id>)
  {
    set id | id in jobs && IsLive(jobs[id])
  }

  function LiveOf(jobs: map<Id, Job>, owner: string): (r: set<Id>)
  {
    set id | id in jobs && IsLive(jobs[id]) && jobs[id].owner == owner
  }

  ghost predicate TotalConserved(jobs: map<Id, Job>, total: Option<int>)
  {
    Total(total) == |Live(jobs)| && (total.Some? ==> total.value > 0)
  }

  ghost predicate OwnersConserved(jobs: map<Id, Job>, owners: map<string, int>)
  {
    && (forall o :: o != "" ==> Count(owners, o) == |LiveOf(jobs, o)|)
    && (forall o :: o in owners ==> o != "" && owners[o] > 0)
  }

  /** The counters and the index count the queued and running jobs, within their
      caps; a counter that exists is positive. */
  ghost predicate Conserved(s: Store, c: Caps)
  {
    && TotalConserved(s.jobs, s.total) && Total(s.total) <= c.maxInflight
    && OwnersConserved(s.jobs, s.owners) && (forall o :: Count(s.owners, o) <= c.maxPerKey)
    && s.index.Keys == Live(s.jobs)
    && (forall id :: id in s.jobs ==> s.jobs[id].schema == VERSION)
  }

  /** A pending call holds the owner of its job, if its job exists. */
  ghost predicate OwnersRead(s: State)
  {
    && (forall call :: call in s.pending && s.pending[call].owner.Some? && s.pending[call].id in s.store.jobs ==>
          s.pending[call].owner.value == s.store.jobs[s.pending[call].id].owner)
    && (forall call :: call in s.pending && s.pending[call].sweep.Some? ==> s.pending[call].id in s.store.jobs)
  }

  ghost predicate Inv(s: State, c: Caps)
  {
    Conserved(s.store, c) && OwnersRead(s)
  }

  lemma LiveAfterAdmit(jobs: map<Id, Job>, id: Id, job: Job)
    requires id !in jobs && IsLive(job)
    ensures Live(jobs[id := job]) == Live(jobs) + {id}
    ensures |Live(jobs[id := job])| == |Live(jobs)| + 1
  {
    assert Live(jobs[id := job]) == Live(jobs) + {id};
  }

  lemma LiveOfAfterAdmit(jobs: map<Id, Job>, id: Id, job: Job, o: string)
    requires id !in jobs && IsLive(job)
    ensures |LiveOf(jobs[id := job], o)| == |LiveOf(jobs, o)| + if o == job.owner then 1 else 0
  {
    if o == job.owner {
      assert LiveOf(jobs[id := job], o) == LiveOf(jobs, o) + {id};
    } else {
      assert LiveOf(jobs[id := job], o) == LiveOf(jobs, o);
    }
  }

  lemma LiveAfterEnding(jobs: map<Id, Job>, id: Id, ended: Job)
    requires id in jobs && IsLive(jobs[id]) && !IsLive(ended)
    ensures Live(jobs[id := ended]) == Live(jobs) - {id}
    ensures |Live(jobs[id := ended])| == |Live(jobs)| - 1
  {
    assert id in Live(jobs);
    assert Live(jobs[id := ended]) == Live(jobs) - {id};
  }

  lemma LiveOfAfterEnding(jobs: map<Id, Job>, id: Id, ended: Job, o: string)
    requires id in jobs && IsLive(jobs[id]) && !IsLive(ended) && ended.owner == jobs[id].owner
    ensures |LiveOf(jobs[id := ended], o)| == |LiveOf(jobs, o)| - if o == ended.owner then 1 else 0
  {
    if o == ended.owner {
      assert id in LiveOf(jobs, o);
      assert LiveOf(jobs[id := ended], o) == LiveOf(jobs, o) - {id};
    } else {
      assert LiveOf(jobs[id := ended], o) == LiveOf(jobs, o);
    }
  }

  /** How the counters move with the sets they count. */
  lemma CountAfterAdmit(owners: map<string, int>, key: string, o: string)
    ensures Count(owners[key := Count(owners, key) + 1], o) == Count(owners, o) + if o == key then 1 else 0
  {
  }

  lemma CountAfterRelease(owners: map<string, int>, key: string, o: string)
    requires Count(owners, key) >= 1
    ensures Count(ReleaseOwner(owners, key), o) == Count(owners, o) - if o == key then 1 else 0
    ensures o in ReleaseOwner(owners, key) ==> o in owners && (o == key ==> owners[o] >= 2)
  {
  }

  lemma AdmitOwners(jobs: map<Id, Job>, owners: map<string, int>, id: Id, job: Job)
    requires id !in jobs && IsLive(job) && OwnersConserved(jobs, owners)
    ensures OwnersConserved(jobs[id := job],
      if job.owner != "" then owners[job.owner := Count(owners, job.owner) + 1] else owners)
  {
    var key := job.owner;
    var after := if key != "" then owners[key := Count(owners, key) + 1] else owners;
    forall o | o != "" ensures Count(after, o) == |LiveOf(jobs[id := job], o)| {
      LiveOfAfterAdmit(jobs, id, job, o);
      CountAfterAdmit(owners, key, o);
    }
  }

  lemma EndingOwners(jobs: map<Id, Job>, owners: map<string, int>, id: Id, ended: Job)
    requires id in jobs && IsLive(jobs[id]) && !IsLive(ended) && ended.owner == jobs[id].owner
    requires OwnersConserved(jobs, owners)
    ensures OwnersConserved(jobs[id := ended],
      if ended.owner != "" then ReleaseOwner(owners, ended.owner) else owners)
    ensures forall o ::
      Count(if ended.owner != "" then ReleaseOwner(owners, ended.owner) else owners, o) <= Count(owners, o)
  {
    var key := ended.owner;
    var after := if key != "" then ReleaseOwner(owners, key) else owners;
    assert id in LiveOf(jobs, key);
    assert key != "" ==> Count(owners, key) >= 1;
    forall o
      ensures o != "" ==> Count(after, o) == |LiveOf(jobs[id := ended], o)|
      ensures o in after ==> o != "" && after[o] > 0
      ensures Count(after, o) <= Count(owners, o)
    {
      LiveOfAfterEnding(jobs, id, ended, o);
      if key != "" {
        CountAfterRelease(owners, key, o);
      }
    }
  }

  lemma AdmitConserves(s: Store, id: Id, owner: string, now: real, c: Caps)
    requires Conserved(s, c) && id !in s.jobs
    ensures Conserved(AdmitScript(s, id, owner, now, c).0, c)
  {
    var job := Job(Queued, "", "", owner, now, VERSION);
    var (t, ok) := AdmitScript(s, id, owner, now, c);
    AdmitOwners(s.jobs, s.owners, id, job);
    LiveAfterAdmit(s.jobs, id, job);
    forall o ensures Count(t.owners, o) <= c.maxPerKey {
      CountAfterAdmit(s.owners, owner, o);
    }
  }

  /** A job leaves the live ones: its owner's slot and the shared one are freed. */
  lemma EndingConserves(s: Store, id: Id, ended: Job, c: Caps)
    requires Conserved(s, c) && id in s.jobs && IsLive(s.jobs[id])
    requires !IsLive(ended) && ended.owner == s.jobs[id].owner && ended.schema == VERSION
    ensures Conserved(Store(s.jobs[id := ended],
                            if ended.owner != "" then ReleaseOwner(s.owners, ended.owner) else s.owners,
                            ReleaseTotal(s.total), s.index - {id}), c)
  {
    EndingOwners(s.jobs, s.owners, id, ended);
    LiveAfterEnding(s.jobs, id, ended);
    var owners := if ended.owner != "" then ReleaseOwner(s.owners, ended.owner) else s.owners;
    forall o ensures Count(owners, o) <= c.maxPerKey {
      assert Count(owners, o) <= Count(s.owners, o);
    }
    assert (s.index - {id}).Keys == s.index.Keys - {id};
  }

  lemma ClaimConserves(s: Store, id: Id, now: real, c: Caps)
    requires Conserved(s, c)
    ensures Conserved(ClaimScript(s, id, now).0, c)
  {
    var (t, ok) := ClaimScript(s, id, now);
    if ok {
      assert Live(t.jobs) == Live(s.jobs);
      forall o ensures LiveOf(t.jobs, o) == LiveOf(s.jobs, o) {
      }
    }
  }

  lemma TerminalConserves(s: Store, id: Id, ownerKey: string, e: Ending, now: real, c: Caps)
    requires Conserved(s, c) && (id in s.jobs ==> ownerKey == s.jobs[id].owner)
    ensures Conserved(TerminalScript(s, id, ownerKey, e, now).0, c)
  {
    var (t, ok) := TerminalScript(s, id, ownerKey, e, now);
    if ok {
      EndingConserves(s, id, t.jobs[id], c);
    }
  }

  /** The cancel script releases a counter even for a job without an owner; that
      counter does not exist. */
  lemma NobodyHasNoCounter(s: Store, c: Caps)
    requires Conserved(s, c)
    ensures ReleaseOwner(s.owners, "") == s.owners
  {
    assert "" !in s.owners;
  }

  lemma CancelConserves(s: Store, id: Id, ownerKey: string, now: real, c: Caps)
    requires Conserved(s, c) && (id in s.jobs ==> ownerKey == s.jobs[id].owner)
    ensures Conserved(CancelScript(s, id, ownerKey, now).0, c)
  {
    if CancelScript(s, id, ownerKey, now).1 {
      NobodyHasNoCounter(s, c);
      EndingConserves(s, id, s.jobs[id].(status := Cancelled, error := "job cancelled", updatedAt := now), c);
    }
  }

  /** No script changes a job's owner, and only a fresh id is added. */
  lemma StepKeepsOwners(s: State, e: Event, c: Caps)
    requires OwnersRead(s)
    ensures OwnersRead(Step(s, e, c).0)
  {
    var t := Step(s, e, c).0;
    forall id | id in s.store.jobs ensures id in t.store.jobs && t.store.jobs[id].owner == s.store.jobs[id].owner {
    }
    forall call | call in t.pending && t.pending[call].owner.Some? && t.pending[call].id in t.store.jobs
      ensures t.pending[call].owner.value == t.store.jobs[t.pending[call].id].owner
    {
      if e.AdmitEvent? {
        assert t.pending[call].id != e.id || !Fresh(s, e.id);
      }
    }
  }

  lemma StepKeepsInv(s: State, e: Event, c: Caps)
    requires Inv(s, c)
    ensures Inv(Step(s, e, c).0, c)
  {
    StepKeepsOwners(s, e, c);
    match e
    case AdmitEvent(id, owner, now) =>
      if Fresh(s, id) {
        AdmitConserves(s.store, id, owner, now, c);
      }
    case ClaimEvent(id, now) => ClaimConserves(s.store, id, now, c);
    case ScanEvent(_, _, _, _) =>
    case OwnerEvent(_, _) =>
    case TerminalEvent(call, _, now) =>
      if Ready(s, call, true) {
        TerminalConserves(s.store, s.pending[call].id, s.pending[call].owner.value, EndingOf(s, e), now, c);
      }
    case CancelEvent(call, now) =>
      if Ready(s, call, false) {
        CancelConserves(s.store, s.pending[call].id, s.pending[call].owner.value, now, c);
      }
  }

  /** Under every interleaving, with the owner read apart from the script: the
      shared counter is the number of queued or running jobs, each owner's counter
      is that owner's, the index holds exactly those jobs, no counter exceeds its
      cap, and none is negative. */
  lemma {:induction false} CountersAreConserved(events: seq<Event>, c: Caps)
    requires c.maxInflight >= 0 && c.maxPerKey >= 0
    ensures Inv(Exec(events, c), c)
  {
    if events != [] {
      CountersAreConserved(events[..|events| - 1], c);
      StepKeepsInv(Exec(events[..|events| - 1], c), events[|events| - 1], c);
    } else {
      assert Live(map[]) == {};
      forall o: string ensures LiveOf(map[], o) == {} {
      }
    }
  }

  /** So after any run a fresh job is refused exactly when as many jobs are queued
      or running as the caps allow, in all or for its owner. */
  lemma AdmissionIsExact(events: seq<Event>, id: Id, owner: string, now: real, c: Caps)
    requires c.maxInflight >= 0 && c.maxPerKey >= 0
    requires Fresh(Exec(events, c), id)
    ensures var jobs := Exec(events, c).store.jobs;
      Step(Exec(events, c), AdmitEvent(id, owner, now), c).1 <==>
      |Live(jobs)| < c.maxInflight && (owner != "" ==> |LiveOf(jobs, owner)| < c.maxPerKey)
  {
    CountersAreConserved(events, c);
  }

  // ----- the life of a job -----

  predicate Targets(s: State, e: Event, id: Id)
  {
    match e
    case AdmitEvent(i, _, _) => i == id
    case ClaimEvent(i, _) => i == id
    case ScanEvent(_, _, _, _) => false
    case OwnerEvent(_, _) => false
    case TerminalEvent(call, _, _) => call in s.pending && s.pending[call].id == id
    case CancelEvent(call, _) => call in s.pending && s.pending[call].id == id
  }

  /** How often, in a run, a claim of the job succeeded, and how often a terminal
      or cancel call released its slots. */
  function Claims(events: seq<Event>, id: Id, c: Caps): (n: nat)
  {
    if events == [] then 0 else
      var init, e := events[..|events| - 1], events[|events| - 1];
      var s := Exec(init, c);
      Claims(init, id, c) + if e.ClaimEvent? && Targets(s, e, id) && Step(s, e, c).1 then 1 else 0
  }

  function Releases(events: seq<Event>, id: Id, c: Caps): (n: nat)
  {
    if events == [] then 0 else
      var init, e := events[..|events| - 1], events[|events| - 1];
      var s := Exec(init, c);
      Releases(init, id, c)
      + if (e.TerminalEvent? || e.CancelEvent?) && Targets(s, e, id) && Step(s, e, c).1 then 1 else 0
  }

  /** What the status of a job tells about the run so far. */
  ghost predicate LifeSoFar(s: State, id: Id, claims: nat, releases: nat)
  {
    if id !in s.store.jobs then claims == 0 && releases == 0 else
      match s.store.jobs[id].status
      case Queued => claims == 0 && releases == 0
      case Running => claims == 1 && releases == 0
      case Cancelled => claims == 0 && releases == 1
      case _ => claims <= 1 && releases == 1
  }

  lemma StepLives(s: State, e: Event, id: Id, c: Caps, claims: nat, releases: nat)
    requires LifeSoFar(s, id, claims, releases)
    ensures var (t, ok) := Step(s, e, c);
      LifeSoFar(t, id,
        claims + (if e.ClaimEvent? && Targets(s, e, id) && ok then 1 else 0),
        releases + (if (e.TerminalEvent? || e.CancelEvent?) && Targets(s, e, id) && ok then 1 else 0))
  {
  }

  /** Over every run a job is claimed at most once and releases its slots at most
      once, however many deliveries and duplicates occur; a cancelled job was never
      claimed. */
  lemma {:induction false} OneClaimOneRelease(events: seq<Event>, id: Id, c: Caps)
    ensures LifeSoFar(Exec(events, c), id, Claims(events, id, c), Releases(events, id, c))
    ensures Claims(events, id, c) <= 1 && Releases(events, id, c) <= 1
  {
    if events != [] {
      var init, e := events[..|events| - 1], events[|events| - 1];
      OneClaimOneRelease(init, id, c);
      StepLives(Exec(init, c), e, id, c, Claims(init, id, c), Releases(init, id, c));
    }
  }

  lemma TerminalStays(s: State, e: Event, id: Id, c: Caps)
    requires id in s.store.jobs && !IsLive(s.store.jobs[id])
    ensures id in Step(s, e, c).0.store.jobs && Step(s, e, c).0.store.jobs[id] == s.store.jobs[id]
  {
  }

  /** A terminal job never changes again: status, result and error are frozen. */
  lemma {:induction false} TerminalIsFinal(events: seq<Event>, more: seq<Event>, id: Id, c: Caps)
    requires id in Exec(events, c).store.jobs && !IsLive(Exec(events, c).store.jobs[id])
    ensures id in Exec(events + more, c).store.jobs
    ensures Exec(events + more, c).store.jobs[id] == Exec(events, c).store.jobs[id]
  {
    if more == [] {
      assert events + more == events;
    } else {
      var init, e := more[..|more| - 1], more[|more| - 1];
      var all := events + more;
      assert all[..|all| - 1] == events + init && all[|all| - 1] == e;
      TerminalIsFinal(events, init, id, c);
      TerminalStays(Exec(events + init, c), e, id, c);
    }
  }

  /** Step `k` of the run was the script that ended the job with `e`. */
  ghost predicate EndedAt(events: seq<Event>, k: nat, id: Id, e: Ending, c: Caps)
  {
    && k < |events| && events[k].TerminalEvent?
    && var s := Exec(events[..k], c);
      && Targets(s, events[k], id) && Step(s, events[k], c).1 && EndingOf(s, events[k]) == e
  }

  ghost predicate Ended(events: seq<Event>, id: Id, e: Ending, c: Caps)
  {
    exists k: nat :: EndedAt(events, k, id, e, c)
  }

  /** What a job record says about the calls that wrote it. */
  ghost predicate RecordSound(events: seq<Event>, id: Id, j: Job, c: Caps)
  {
    match j.status
    case Done => j.error == "" && Ended(events, id, Result(j.result), c)
    case Failed => j.result == "" && Ended(events, id, Error(j.error), c)
    case Cancelled => j.result == "" && j.error == "job cancelled"
    case _ => j.result == "" && j.error == ""
  }

  lemma EndedStays(init: seq<Event>, e: Event, id: Id, ending: Ending, c: Caps)
    requires Ended(init, id, ending, c)
    ensures Ended(init + [e], id, ending, c)
  {
    var k: nat :| EndedAt(init, k, id, ending, c);
    assert (init + [e])[..k] == init[..k];
    assert EndedAt(init + [e], k, id, ending, c);
  }

  lemma EndedNow(init: seq<Event>, e: Event, id: Id, c: Caps)
    requires e.TerminalEvent? && Targets(Exec(init, c), e, id) && Step(Exec(init, c), e, c).1
    ensures Ended(init + [e], id, EndingOf(Exec(init, c), e), c)
  {
    assert (init + [e])[..|init|] == init;
    assert EndedAt(init + [e], |init|, id, EndingOf(Exec(init, c), e), c);
  }

  /** A record after one step is the one before, or what the step wrote. */
  lemma RecordAfter(s: State, e: Event, id: Id, c: Caps)
    requires id in Step(s, e, c).0.store.jobs
    ensures var (t, ok) := Step(s, e, c);
      var j := t.store.jobs[id];
      || (id in s.store.jobs && j == s.store.jobs[id])
      || (id in s.store.jobs && j == s.store.jobs[id].(status := Running, updatedAt := j.updatedAt)
          && s.store.jobs[id].status == Queued)
      || ((j.status == Queued || j.status == Running) && j.result == "" && j.error == "")
      || (j.status == Cancelled && j.error == "job cancelled" && id in s.store.jobs
          && s.store.jobs[id].status == Queued && j.result == s.store.jobs[id].result)
      || (e.TerminalEvent? && Targets(s, e, id) && ok && match EndingOf(s, e)
          case Result(r) => j.status == Done && j.result == r && j.error == ""
          case Error(m) => j.status == Failed && j.result == "" && j.error == m)
  {
  }

  /** After any run a done job holds the result, and a failed job the error, of a
      call that ended it; a queued, running or cancelled job holds no result. */
  lemma {:induction false} RecordsWereWritten(events: seq<Event>, id: Id, c: Caps)
    requires id in Exec(events, c).store.jobs
    ensures RecordSound(events, id, Exec(events, c).store.jobs[id], c)
  {
    if events != [] {
      var init, e := events[..|events| - 1], events[|events| - 1];
      assert events == init + [e];
      var s := Exec(init, c);
      RecordAfter(s, e, id, c);
      if id in s.store.jobs {
        RecordsWereWritten(init, id, c);
        var j := s.store.jobs[id];
        if j.status == Done { EndedStays(init, e, id, Result(j.result), c); }
        if j.status == Failed { EndedStays(init, e, id, Error(j.error), c); }
      }
      if e.TerminalEvent? && Targets(s, e, id) && Step(s, e, c).1 {
        EndedNow(init, e, id, c);
      }
    }
  }

  // ----- the reaper -----

  /** The script of this sweep succeeds: `reap_stale_jobs` counts the job. */
  predicate ReaperMoves(s: State, e: Event, sweep: nat, c: Caps)
  {
    e.TerminalEvent? && e.call in s.pending && s.pending[e.call].sweep == Some(sweep) && Step(s, e, c).1
  }

  /** What one sweep returns, and the jobs it has moved. */
  function Reaped(events: seq<Event>, sweep: nat, c: Caps): (n: nat)
  {
    if events == [] then 0 else
      var init := events[..|events| - 1];
      Reaped(init, sweep, c) + if ReaperMoves(Exec(init, c), events[|events| - 1], sweep, c) then 1 else 0
  }

  function Moved(events: seq<Event>, sweep: nat, c: Caps): (ids: set<Id>)
  {
    if events == [] then {} else
      var init, e := events[..|events| - 1], events[|events| - 1];
      var s := Exec(init, c);
      Moved(init, sweep, c) + if ReaperMoves(s, e, sweep, c) then {s.pending[e.call].id} else {}
  }

  ghost predicate ReapedJob(s: State, id: Id)
  {
    && id in s.store.jobs && s.store.jobs[id].status == Failed
    && s.store.jobs[id].error == LEASE_EXPIRED.error
  }

  lemma ReapedForGood(s: State, e: Event, sweep: nat, id: Id, c: Caps)
    ensures ReapedJob(s, id) ==> ReapedJob(Step(s, e, c).0, id)
    ensures ReaperMoves(s, e, sweep, c) && s.pending[e.call].id == id
      ==> !ReapedJob(s, id) && ReapedJob(Step(s, e, c).0, id)
  {
  }

  /** Whatever else happens meanwhile, other sweeps included, one sweep returns the
      number of distinct jobs that it moved to failed. */
  lemma {:induction false} ReaperCountsItsJobs(events: seq<Event>, sweep: nat, c: Caps)
    ensures Reaped(events, sweep, c) == |Moved(events, sweep, c)|
    ensures forall id :: id in Moved(events, sweep, c) ==> ReapedJob(Exec(events, c), id)
  {
    if events != [] {
      var init, e := events[..|events| - 1], events[|events| - 1];
      var s := Exec(init, c);
      ReaperCountsItsJobs(init, sweep, c);
      forall id | id in Moved(events, sweep, c) ensures ReapedJob(Exec(events, c), id) {
        ReapedForGood(s, e, sweep, id, c);
      }
      if ReaperMoves(s, e, sweep, c) {
        ReapedForGood(s, e, sweep, s.pending[e.call].id, c);
      }
    }
  }

  /** No job is counted by two sweeps. */
  lemma {:induction false} SweepsShareNoJob(events: seq<Event>, a: nat, b: nat, c: Caps)
    requires a != b
    ensures Moved(events, a, c) !! Moved(events, b, c)
  {
    if events != [] {
      var init, e := events[..|events| - 1], events[|events| - 1];
      var s := Exec(init, c);
      SweepsShareNoJob(init, a, b, c);
      ReaperCountsItsJobs(init, a, c);
      ReaperCountsItsJobs(init, b, c);
      if e.TerminalEvent? && e.call in s.pending {
        ReapedForGood(s, e, a, s.pending[e.call].id, c);
        ReapedForGood(s, e, b, s.pending[e.call].id, c);
      }
    }
  }

  // ----- the reaper and jobs that are not stale any more -----

  /** Step `k` of `more` was a claim that succeeded, after the cutoff. */
  ghost predicate ClaimedAt(events: seq<Event>, more: seq<Event>, k: nat, id: Id, cutoff: real, c: Caps)
  {
    && k < |more| && more[k].ClaimEvent? && more[k].id == id && more[k].now > cutoff
    && Step(Exec(events + more[..k], c), more[k], c).1
  }

  ghost predicate Claimed(events: seq<Event>, more: seq<Event>, id: Id, cutoff: real, c: Caps)
  {
    exists k: nat :: ClaimedAt(events, more, k, id, cutoff, c)
  }

  lemma ClaimedSnoc(events: seq<Event>, more: seq<Event>, e: Event, id: Id, cutoff: real, c: Caps)
    ensures Claimed(events, more + [e], id, cutoff, c) <==>
      Claimed(events, more, id, cutoff, c)
      || (e.ClaimEvent? && e.id == id && e.now > cutoff && Step(Exec(events + more, c), e, c).1)
  {
    var all := more + [e];
    forall k: nat | k <= |more| ensures all[..k] == if k < |more| then more[..k] else more {
    }
    if Claimed(events, more, id, cutoff, c) {
      var k: nat :| ClaimedAt(events, more, k, id, cutoff, c);
      assert ClaimedAt(events, all, k, id, cutoff, c);
    }
    if Claimed(events, all, id, cutoff, c) {
      var k: nat :| ClaimedAt(events, all, k, id, cutoff, c);
      assert k < |more| ==> ClaimedAt(events, more, k, id, cutoff, c);
    }
    if e.ClaimEvent? && e.id == id && e.now > cutoff && Step(Exec(events + more, c), e, c).1 {
      assert ClaimedAt(events, all, |more|, id, cutoff, c);
    }
  }

  /** A live job changes only by being claimed. */
  lemma LiveStep(s: State, e: Event, id: Id, c: Caps)
    requires id in s.store.jobs && id in Step(s, e, c).0.store.jobs
    requires IsLive(Step(s, e, c).0.store.jobs[id])
    ensures var job, after := s.store.jobs[id], Step(s, e, c).0.store.jobs[id];
      && IsLive(job) && after.schema == job.schema
      && (if e.ClaimEvent? && e.id == id && Step(s, e, c).1
          then job.status == Queued && after.status == Running && after.updatedAt == e.now else after == job)
  {
  }

  /** A job found stale, while it is live: refreshed, and running, exactly if it
      was claimed after the cutoff. */
  ghost predicate RefreshedIffClaimed(jobs: map<Id, Job>, id: Id, cutoff: real, claimed: bool)
  {
    id in jobs && (IsLive(jobs[id]) ==>
      && jobs[id].schema == VERSION
      && (jobs[id].updatedAt > cutoff <==> claimed)
      && (claimed ==> jobs[id].status == Running))
  }

  lemma RefreshStep(s: State, e: Event, id: Id, cutoff: real, claimed: bool, c: Caps)
    requires RefreshedIffClaimed(s.store.jobs, id, cutoff, claimed)
    ensures RefreshedIffClaimed(Step(s, e, c).0.store.jobs, id, cutoff,
      claimed || (e.ClaimEvent? && e.id == id && e.now > cutoff && Step(s, e, c).1))
  {
    assert id in Step(s, e, c).0.store.jobs;
    if IsLive(Step(s, e, c).0.store.jobs[id]) {
      LiveStep(s, e, id, c);
    }
  }

  /** A stale job that is still live has been refreshed if and only if a claim of
      it succeeded meanwhile, after the cutoff. */
  lemma {:induction false} OnlyClaimsRefresh(events: seq<Event>, more: seq<Event>, id: Id, cutoff: real, c: Caps)
    requires id in Exec(events, c).store.jobs && Stale(Exec(events, c).store.jobs[id], cutoff)
    ensures RefreshedIffClaimed(Exec(events + more, c).store.jobs, id, cutoff, Claimed(events, more, id, cutoff, c))
  {
    if more == [] {
      assert events + more == events;
    } else {
      var init, e := more[..|more| - 1], more[|more| - 1];
      var all := events + more;
      assert more == init + [e];
      assert all[..|all| - 1] == events + init && all[|all| - 1] == e;
      OnlyClaimsRefresh(events, init, id, cutoff, c);
      ClaimedSnoc(events, init, e, id, cutoff, c);
      RefreshStep(Exec(events + init, c), e, id, cutoff, Claimed(events, init, id, cutoff, c), c);
    }
  }

  /** The reaper scans job `id`, and later its script for that job succeeds: it
      fails a job that is not stale any more if and only if the job was claimed in
      between, after the cutoff. */
  lemma ReaperFailsFreshJobIffClaimed(events: seq<Event>, scan: Event, more: seq<Event>, e: Event, c: Caps)
    requires scan.ScanEvent? && scan.call !in Exec(events, c).pending
    requires scan.id in Exec(events, c).store.jobs && Stale(Exec(events, c).store.jobs[scan.id], scan.cutoff)
    requires var s := Exec(events + [scan] + more, c);
      ReaperMoves(s, e, scan.sweep, c) && e.call == scan.call && s.pending[e.call].id == scan.id
    ensures var jobs := Exec(events + [scan] + more, c).store.jobs;
      && scan.id in jobs
      && (!Stale(jobs[scan.id], scan.cutoff) <==> Claimed(events + [scan], more, scan.id, scan.cutoff, c))
      && ReapedJob(Exec(events + [scan] + more + [e], c), scan.id)
  {
    var begun := events + [scan];
    assert begun[..|begun| - 1] == events && begun[|begun| - 1] == scan;
    assert Exec(begun, c).store == Exec(events, c).store;
    OnlyClaimsRefresh(begun, more, scan.id, scan.cutoff, c);
    var all := begun + more;
    assert (all + [e])[..|all|] == all && (all + [e])[|all|] == e;
    ReapedForGood(Exec(all, c), e, scan.sweep, scan.id, c);
  }

  const RACE: seq<Event> := [
    AdmitEvent(7, "k", 0.0), ScanEvent(0, 0, 7, 1.0), ClaimEvent(7, 5.0), OwnerEvent(0, 7),
    TerminalEvent(0, LEASE_EXPIRED, 5.0)]

  /** A job that the reaper found stale while queued may be claimed before the
      reaper's script runs; the reaper then fails a job that is running and fresh. */
  lemma ReaperMayFailFreshJob()
    ensures var c := Caps(1, 1);
            var before, after := Exec(RACE[..4], c).store.jobs, Exec(RACE, c).store.jobs;
      && 7 in before && before[7].status == Running && before[7].updatedAt > RACE[1].cutoff
      && 7 in after && after[7].status == Failed
  {
    var c, l := Caps(1, 1), RACE;
    assert l[..5] == l && l[..5][..4] == l[..4] && l[..4][..3] == l[..3];
    assert l[..3][..2] == l[..2] && l[..2][..1] == l[..1] && l[..1][..0] == [];
    var job := Job(Queued, "", "", "k", 0.0, VERSION);
    var store := Store(map[7 := job], map["k" := 1], Some(1), map[7 := 0.0]);
    assert Exec(l[..1], c) == State(store, map[]);
    assert Exec(l[..2], c) == State(store, map[0 := Pending(7, None, Some(0))]);
    var claimed := store.(jobs := map[7 := job.(status := Running, updatedAt := 5.0)]);
    assert Exec(l[..3], c) == State(claimed, map[0 := Pending(7, None, Some(0))]);
    assert Exec(l[..4], c) == State(claimed, map[0 := Pending(7, Some("k"), Some(0))]);
  }
}
