/** app/jobs/store.py: which calls succeed after a run, and what they change.  The
    conditions speak of the earlier calls of the run only.
 */
module JobCalls {
  import opened Wrappers
  import opened JobStore

  /** Step `k` of the run was the admission of the job. */
  ghost predicate AdmittedAt(events: seq<Event>, k: int, id: Id, c: Caps)
  {
    && 0 <= k < |events| && events[k].AdmitEvent? && events[k].id == id
    && Step(Exec(events[..k], c), events[k], c).1
  }

  ghost predicate Admitted(events: seq<Event>, id: Id, c: Caps)
  {
    exists k :: AdmittedAt(events, k, id, c)
  }

  /** The job has been admitted, and neither claimed nor released since. */
  ghost predicate Waits(events: seq<Event>, id: Id, c: Caps)
  {
    Admitted(events, id, c) && Claims(events, id, c) == 0 && Releases(events, id, c) == 0
  }

  /** The job has been admitted and not released since. */
  ghost predicate HoldsSlots(events: seq<Event>, id: Id, c: Caps)
  {
    Admitted(events, id, c) && Releases(events, id, c) == 0
  }

  function InFlight(jobs: map<Id, Job>): (r: set<Id>)
  {
    set id | id in jobs && (jobs[id].status == Queued || jobs[id].status == Running)
  }

  function InFlightOf(jobs: map<Id, Job>, owner: string): (r: set<Id>)
  {
    set id | id in jobs && (jobs[id].status == Queued || jobs[id].status == Running) && jobs[id].owner == owner
  }

  lemma AdmittedSnoc(init: seq<Event>, e: Event, id: Id, c: Caps)
    ensures Admitted(init + [e], id, c) <==>
      Admitted(init, id, c) || (e.AdmitEvent? && e.id == id && Step(Exec(init, c), e, c).1)
    ensures forall k :: k < |init| ==> (AdmittedAt(init + [e], k, id, c) <==> AdmittedAt(init, k, id, c))
  {
    var all := init + [e];
    forall k ensures k < |init| ==> (AdmittedAt(all, k, id, c) <==> AdmittedAt(init, k, id, c)) {
      if 0 <= k < |init| {
        assert all[..k] == init[..k] && all[k] == init[k];
      }
    }
    assert all[..|init|] == init && all[|init|] == e;
    if Admitted(all, id, c) {
      var k :| AdmittedAt(all, k, id, c);
      assert k < |init| ==> AdmittedAt(init, k, id, c);
    }
    if Admitted(init, id, c) {
      var k :| AdmittedAt(init, k, id, c);
      assert AdmittedAt(all, k, id, c);
    }
    if e.AdmitEvent? && e.id == id && Step(Exec(init, c), e, c).1 {
      assert AdmittedAt(all, |init|, id, c);
    }
  }

  lemma OnlyAdmissionsAdd(s: State, e: Event, id: Id, c: Caps)
    ensures var (t, ok) := Step(s, e, c);
      id in t.store.jobs <==> id in s.store.jobs || (e.AdmitEvent? && e.id == id && ok)
  {
  }

  lemma SchemaStays(s: State, e: Event, id: Id, c: Caps)
    requires id in s.store.jobs ==> s.store.jobs[id].schema == 1
    ensures var t := Step(s, e, c).0; id in t.store.jobs ==> t.store.jobs[id].schema == 1
  {
  }

  /** The jobs are those admitted, all of the current schema. */
  lemma {:induction false} JobsWereAdmitted(events: seq<Event>, id: Id, c: Caps)
    ensures id in Exec(events, c).store.jobs <==> Admitted(events, id, c)
    ensures id in Exec(events, c).store.jobs ==> Exec(events, c).store.jobs[id].schema == 1
  {
    if events != [] {
      var init, e := events[..|events| - 1], events[|events| - 1];
      assert events == init + [e];
      JobsWereAdmitted(init, id, c);
      AdmittedSnoc(init, e, id, c);
      OnlyAdmissionsAdd(Exec(init, c), e, id, c);
      SchemaStays(Exec(init, c), e, id, c);
    }
  }

  /** What the record tells of the run. */
  lemma StatusTells(events: seq<Event>, id: Id, c: Caps)
    ensures var jobs := Exec(events, c).store.jobs;
      && (Waits(events, id, c) <==> id in jobs && jobs[id].status == Queued && jobs[id].schema == 1)
      && (HoldsSlots(events, id, c) <==>
            id in jobs && (jobs[id].status == Queued || jobs[id].status == Running) && jobs[id].schema == 1)
  {
    JobsWereAdmitted(events, id, c);
    OneClaimOneRelease(events, id, c);
  }

  lemma OneFewerInFlight(jobs: map<Id, Job>, id: Id, ended: Job)
    requires id in jobs && (jobs[id].status == Queued || jobs[id].status == Running)
    requires ended.status != Queued && ended.status != Running
    ensures InFlight(jobs[id := ended]) == InFlight(jobs) - {id}
    ensures |InFlight(jobs[id := ended])| == |InFlight(jobs)| - 1
  {
    assert id in InFlight(jobs);
    assert InFlight(jobs[id := ended]) == InFlight(jobs) - {id};
  }

  lemma OneFewerOfOwner(jobs: map<Id, Job>, id: Id, ended: Job)
    requires id in jobs && (jobs[id].status == Queued || jobs[id].status == Running)
    requires ended.status != Queued && ended.status != Running && ended.owner == jobs[id].owner
    ensures |InFlightOf(jobs[id := ended], ended.owner)| == |InFlightOf(jobs, ended.owner)| - 1
  {
    assert id in InFlightOf(jobs, ended.owner);
    assert InFlightOf(jobs[id := ended], ended.owner) == InFlightOf(jobs, ended.owner) - {id};
  }

  /** The job is over: it alone has changed, to `ended`, and it holds no slot and has
      no place in the index any more. */
  ghost predicate EndsAs(s: Store, t: Store, id: Id, ended: Job)
  {
    && id in s.jobs && t.jobs == s.jobs[id := ended] && ended.owner == s.jobs[id].owner
    && t.index == s.index - {id}
    && |InFlight(t.jobs)| == |InFlight(s.jobs)| - 1
    && |InFlightOf(t.jobs, ended.owner)| == |InFlightOf(s.jobs, ended.owner)| - 1
  }

  lemma JobEnds(s: Store, t: Store, id: Id, ended: Job)
    requires id in s.jobs && (s.jobs[id].status == Queued || s.jobs[id].status == Running)
    requires ended.status != Queued && ended.status != Running && ended.owner == s.jobs[id].owner
    requires t.jobs == s.jobs[id := ended] && t.index == s.index - {id}
    ensures EndsAs(s, t, id, ended)
  {
    OneFewerInFlight(s.jobs, id, ended);
    OneFewerOfOwner(s.jobs, id, ended);
  }

  /** A cancel call that has read its owner succeeds if and only if its job has been
      admitted, and neither claimed nor released since; the job is then cancelled, and
      one job fewer is in flight. */
  lemma CancelSucceedsIff(events: seq<Event>, call: nat, now: real, c: Caps)
    requires var s := Exec(events, c);
      call in s.pending && s.pending[call].owner.Some? && s.pending[call].sweep.None?
    ensures var s := Exec(events, c);
            var (t, ok) := Step(s, CancelEvent(call, now), c);
            var id := s.pending[call].id;
      && (ok <==> Waits(events, id, c))
      && (!ok ==> t.store == s.store)
      && (ok ==> id in s.store.jobs && EndsAs(s.store, t.store, id,
            Job(Cancelled, s.store.jobs[id].result, "job cancelled", s.store.jobs[id].owner, now, 1)))
  {
    var s := Exec(events, c);
    var id := s.pending[call].id;
    StatusTells(events, id, c);
    if Waits(events, id, c) {
      JobEnds(s.store, Step(s, CancelEvent(call, now), c).0.store, id,
              Job(Cancelled, s.store.jobs[id].result, "job cancelled", s.store.jobs[id].owner, now, 1));
    }
  }

  function Runs(j: Job, now: real): (r: Job) { Job(Running, j.result, j.error, j.owner, now, 1) }

  /** A claim succeeds under the same condition; the job is then running, and nothing
      else has changed. */
  lemma ClaimSucceedsIff(events: seq<Event>, id: Id, now: real, c: Caps)
    ensures var s := Exec(events, c);
            var (t, ok) := Step(s, ClaimEvent(id, now), c);
      && (ok <==> Waits(events, id, c))
      && (!ok ==> t == s)
      && (ok ==>
            && id in s.store.jobs && t.pending == s.pending
            && t.store == s.store.(jobs := s.store.jobs[id := Runs(s.store.jobs[id], now)]))
  {
    StatusTells(events, id, c);
  }

  /** The record that ends a job: the result, the error, or the reaper's error. */
  function EndedBy(ending: Ending, reaped: bool, owner: string, now: real): (j: Job)
  {
    if reaped then Job(Failed, "", "job lease expired", owner, now, 1)
    else match ending
      case Result(r) => Job(Done, r, "", owner, now, 1)
      case Error(m) => Job(Failed, "", m, owner, now, 1)
  }

  lemma TerminalStep(s: State, call: nat, ending: Ending, now: real, c: Caps)
    requires call in s.pending && s.pending[call].owner.Some?
    ensures var (t, ok) := Step(s, TerminalEvent(call, ending, now), c);
            var p := s.pending[call];
      && (ok <==> p.id in s.store.jobs && s.store.jobs[p.id].schema == 1
                  && (s.store.jobs[p.id].status == Queued || s.store.jobs[p.id].status == Running))
      && (!ok ==> t.store == s.store)
      && (ok ==>
            && t.store.jobs == s.store.jobs[p.id := EndedBy(ending, p.sweep.Some?, s.store.jobs[p.id].owner, now)]
            && t.store.index == s.store.index - {p.id})
  {
  }

  /** A terminal call that has read its owner, of a worker or of the reaper, succeeds if
      and only if its job has been admitted and not released since. */
  lemma TerminalSucceedsIff(events: seq<Event>, call: nat, ending: Ending, now: real, c: Caps)
    requires call in Exec(events, c).pending && Exec(events, c).pending[call].owner.Some?
    ensures var s := Exec(events, c);
            var (t, ok) := Step(s, TerminalEvent(call, ending, now), c);
            var p := s.pending[call];
      && (ok <==> HoldsSlots(events, p.id, c))
      && (!ok ==> t.store == s.store)
      && (ok ==> p.id in s.store.jobs && EndsAs(s.store, t.store, p.id,
            EndedBy(ending, p.sweep.Some?, s.store.jobs[p.id].owner, now)))
  {
    var s := Exec(events, c);
    var p := s.pending[call];
    StatusTells(events, p.id, c);
    TerminalStep(s, call, ending, now, c);
    if HoldsSlots(events, p.id, c) {
      JobEnds(s.store, Step(s, TerminalEvent(call, ending, now), c).0.store, p.id,
              EndedBy(ending, p.sweep.Some?, s.store.jobs[p.id].owner, now));
    }
  }

  /** A scan of the reaper takes a job up if and only if it has been admitted, not
      released since, and not updated since the cutoff. */
  lemma ScanFindsIff(events: seq<Event>, call: nat, sweep: nat, id: Id, cutoff: real, c: Caps)
    requires call !in Exec(events, c).pending
    ensures var s := Exec(events, c);
            var t := Step(s, ScanEvent(call, sweep, id, cutoff), c).0;
      && t.store == s.store
      && (call in t.pending <==>
            HoldsSlots(events, id, c) && id in s.store.jobs && s.store.jobs[id].updatedAt <= cutoff)
      && (call in t.pending ==> t.pending == s.pending[call := Pending(id, None, Some(sweep))])
  {
    StatusTells(events, id, c);
  }

  lemma LiveIsInFlight(jobs: map<Id, Job>, owner: string)
    ensures Live(jobs) == InFlight(jobs) && LiveOf(jobs, owner) == InFlightOf(jobs, owner)
  {
  }

  /** A fresh job is admitted if and only if fewer jobs than the caps are in flight, in
      all and for its owner; it is then queued and in the index, and one more is in flight. */
  lemma AdmitSucceedsIff(events: seq<Event>, id: Id, owner: string, now: real, c: Caps)
    requires c.maxInflight >= 0 && c.maxPerKey >= 0
    requires Fresh(Exec(events, c), id)
    ensures var s := Exec(events, c);
            var (t, ok) := Step(s, AdmitEvent(id, owner, now), c);
      && (ok <==> |InFlight(s.store.jobs)| < c.maxInflight
                  && (owner != "" ==> |InFlightOf(s.store.jobs, owner)| < c.maxPerKey))
      && (!ok ==> t == s)
      && (ok ==> t.store.jobs == s.store.jobs[id := Job(Queued, "", "", owner, now, 1)]
                 && t.store.index == s.store.index[id := now]
                 && InFlight(t.store.jobs) == InFlight(s.store.jobs) + {id})
  {
    AdmissionIsExact(events, id, owner, now, c);
    LiveIsInFlight(Exec(events, c).store.jobs, owner);
    var t := Step(Exec(events, c), AdmitEvent(id, owner, now), c).0;
    assert t.store.jobs == Exec(events, c).store.jobs[id := Job(Queued, "", "", owner, now, 1)]
      ==> InFlight(t.store.jobs) == InFlight(Exec(events, c).store.jobs) + {id};
  }

  // ----- what the record keeps of the calls -----

  lemma AdmissionStays(s: State, e: Event, id: Id, owner: string, at: real, c: Caps)
    requires id in s.store.jobs && s.store.jobs[id].owner == owner
    requires IsLive(s.store.jobs[id]) ==> id in s.store.index && s.store.index[id] == at
    ensures var t := Step(s, e, c).0;
      && id in t.store.jobs && t.store.jobs[id].owner == owner
      && (IsLive(t.store.jobs[id]) ==> id in t.store.index && t.store.index[id] == at)
  {
  }

  /** A job keeps the owner of its admission, and, while in flight, the time of its
      admission in the index. */
  lemma {:induction false} RecordKeepsAdmission(events: seq<Event>, k: nat, id: Id, c: Caps)
    requires AdmittedAt(events, k, id, c)
    ensures var s := Exec(events, c).store;
      && id in s.jobs && s.jobs[id].owner == events[k].owner
      && (id in InFlight(s.jobs) ==> id in s.index && s.index[id] == events[k].now)
  {
    var init, e := events[..|events| - 1], events[|events| - 1];
    assert events == init + [e];
    if k < |init| {
      AdmittedSnoc(init, e, id, c);
      RecordKeepsAdmission(init, k, id, c);
      LiveIsInFlight(Exec(init, c).store.jobs, "");
      AdmissionStays(Exec(init, c), e, id, events[k].owner, events[k].now, c);
    } else {
      assert events[..k] == init;
    }
  }

  /** Step `k` of the run changed the job. */
  ghost predicate ChangedAt(events: seq<Event>, k: int, id: Id, c: Caps)
  {
    0 <= k < |events| && var s := Exec(events[..k], c); Targets(s, events[k], id) && Step(s, events[k], c).1
  }

  lemma ChangeIsTimed(s: State, e: Event, id: Id, c: Caps)
    ensures var (t, ok) := Step(s, e, c);
      && (Targets(s, e, id) && ok ==>
            !e.ScanEvent? && !e.OwnerEvent? && id in t.store.jobs && t.store.jobs[id].updatedAt == e.now)
      && (!(Targets(s, e, id) && ok) && id in s.store.jobs ==>
            id in t.store.jobs && t.store.jobs[id] == s.store.jobs[id])
  {
  }

  /** A job was last updated at the time of the last step that changed it. */
  lemma {:induction false} UpdatedAtLastChange(events: seq<Event>, k: nat, id: Id, c: Caps)
    requires ChangedAt(events, k, id, c) && forall j :: k < j ==> !ChangedAt(events, j, id, c)
    ensures !events[k].ScanEvent? && !events[k].OwnerEvent?
    ensures id in Exec(events, c).store.jobs && Exec(events, c).store.jobs[id].updatedAt == events[k].now
  {
    var init, e := events[..|events| - 1], events[|events| - 1];
    assert events == init + [e];
    ChangeIsTimed(Exec(init, c), e, id, c);
    if k < |init| {
      assert events[..|init|] == init && !ChangedAt(events, |init|, id, c);
      forall j ensures j < |init| ==> (ChangedAt(init, j, id, c) <==> ChangedAt(events, j, id, c)) {
        if 0 <= j < |init| {
          assert events[..j] == init[..j];
        }
      }
      UpdatedAtLastChange(init, k, id, c);
    } else {
      assert events[..k] == init;
    }
  }

  // ----- one sweep on its own -----

  /** Queued or running, of the current schema, and not updated since the cutoff. */
  predicate Lapsed(j: Job, cutoff: real)
  {
    (j.status == Queued || j.status == Running) && j.schema == 1 && j.updatedAt <= cutoff
  }

  /** What a sweep that met no other client leaves: exactly the lapsed jobs have failed,
      with the error of the reaper, and it has counted them. */
  lemma SweepFailsLapsed(before: map<Id, Job>, after: map<Id, Job>, cutoff: real, now: real)
    requires Swept(before, after, {}, cutoff, now)
    ensures after.Keys == before.Keys
    ensures forall id :: id in before && Lapsed(before[id], cutoff) ==>
      after[id] == Job(Failed, "", "job lease expired", before[id].owner, now, 1)
    ensures forall id :: id in before && !Lapsed(before[id], cutoff) ==> after[id] == before[id]
    ensures StaleJobs(before, cutoff) == set id | id in before && Lapsed(before[id], cutoff)
  {
    forall id | id in before ensures Stale(before[id], cutoff) <==> Lapsed(before[id], cutoff) {
    }
  }
}
