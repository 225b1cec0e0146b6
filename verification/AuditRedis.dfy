/** app/audit/redis.py: two parallel Redis lists of events and timestamps, kept
    bounded and fresh by one atomic script.
 */
module AuditRedis {
  import opened Lists

  datatype Record = Record(event: string, time: real)

  /** The last `n` elements: `LTRIM key -n -1` for a positive `n`. */
  function LastN<T>(s: seq<T>, n: nat): (r: seq<T>)
  {
    if |s| <= n then s else s[|s| - n..]
  }

  /** Drops leading records older than the cutoff. */
  function DropStale(records: seq<Record>, cutoff: real): (r: seq<Record>)
  {
    if records != [] && records[0].time < cutoff then DropStale(records[1..], cutoff) else records
  }

  function Paired(events: seq<string>, times: seq<real>): (r: seq<Record>)
    requires |events| == |times|
    ensures |r| == |events|
  {
    seq(|events|, i requires 0 <= i < |events| => Record(events[i], times[i]))
  }

  /** The timestamps after the repair of lists that drifted apart. */
  function Repaired(times: seq<real>, n: nat, now: real): (r: seq<real>)
    ensures |r| == n
  {
    if |times| <= n then times + Repeat(now, n - |times|) else times[|times| - n..]
  }

  function Appended(records: seq<Record>, r: Record, maxEvents: nat, cutoff: real): (a: seq<Record>)
  {
    DropStale(LastN(records + [r], maxEvents), cutoff)
  }

  /** How Redis reads `LTRIM key -0 -1`, which the repair sends when there are
      timestamps but no events: as an error, or as the whole list. */
  datatype MinusZero = Rejected | KeepsAll

  /** Pops both lists while the oldest timestamp is stale. */
  function Expired(events: seq<string>, times: seq<real>, cutoff: real): (r: (seq<string>, seq<real>))
  {
    if times == [] || times[0] >= cutoff then (events, times)
    else Expired(if events == [] then [] else events[1..], times[1..], cutoff)
  }

  /** The script, past its repair. */
  function Pushed(events: seq<string>, times: seq<real>, payload: string, now: real, maxEvents: nat, cutoff: real)
    : (r: (seq<string>, seq<real>))
  {
    Expired(LastN(events + [payload], maxEvents), LastN(times + [now], maxEvents), cutoff)
  }

  class AuditLists {
    var events: seq<string>
    var times: seq<real>

    constructor ()
      ensures events == [] && times == []
    {
      events, times := [], [];
    }

    /** The script.  Unless there are timestamps without any event, the lists are
        aligned afterwards, however far they have drifted apart, and hold the
        bounded, fresh end of what they held plus the new record. */
    method Append(payload: string, now: real, maxEvents: int, cutoff: real, minusZero: MinusZero) returns (ok: bool)
      requires maxEvents >= 1
      modifies this
      ensures var stray := old(events) == [] && old(times) != [];
        && (ok <==> !(stray && minusZero.Rejected?))
        && (!ok ==> events == old(events) && times == old(times))
        && (ok && stray ==> (events, times) == Pushed([], old(times), payload, now, maxEvents, cutoff))
        && (!stray ==>
              && |events| == |times| <= maxEvents
              && Paired(events, times)
                 == Appended(Paired(old(events), Repaired(old(times), |old(events)|, now)),
                             Record(payload, now), maxEvents, cutoff))
    {
      ok := Repair(now, minusZero);
      if !ok {
        return;
      }
      if |events| == |times| {
        PairedPush(events, times, payload, now, maxEvents);
        ExpiredPaired(LastN(events + [payload], maxEvents), LastN(times + [now], maxEvents), cutoff);
      }
      events := events + [payload];
      times := times + [now];
      events := LastN(events, maxEvents);
      times := LastN(times, maxEvents);
      Expire(cutoff);
    }

    /** Pads or trims the timestamps to the number of events. */
    method Repair(now: real, minusZero: MinusZero) returns (ok: bool)
      modifies this`times
      ensures ok <==> !(events == [] && old(times) != [] && minusZero.Rejected?)
      ensures times == if events == [] then old(times) else Repaired(old(times), |events|, now)
    {
      ok := true;
      var eventCount, timestampCount := |events|, |times|;
      if timestampCount < eventCount {
        for i := timestampCount to eventCount
          invariant times == old(times) + Repeat(now, i - timestampCount)
        {
          times := times + [now];
        }
      } else if timestampCount > eventCount {
        if eventCount > 0 {
          times := times[timestampCount - eventCount..];
        } else {
          ok := minusZero == KeepsAll;
        }
      }
    }

    method Expire(cutoff: real)
      modifies this
      ensures (events, times) == Expired(old(events), old(times), cutoff)
    {
      while |times| > 0
        invariant Expired(events, times, cutoff) == Expired(old(events), old(times), cutoff)
        decreases |times|
      {
        var oldest := times[0];
        if oldest >= cutoff {
          break;
        }
        events := if events == [] then [] else events[1..];
        times := times[1..];
      }
    }
  }

  lemma {:induction false} ExpiredPaired(events: seq<string>, times: seq<real>, cutoff: real)
    requires |events| == |times|
    ensures var (e, t) := Expired(events, times, cutoff);
      |e| == |t| <= |events| && Paired(e, t) == DropStale(Paired(events, times), cutoff)
  {
    if times != [] && times[0] < cutoff {
      assert Paired(events, times)[1..] == Paired(events[1..], times[1..]);
      ExpiredPaired(events[1..], times[1..], cutoff);
    }
  }

  /** With one event the lists end aligned if and only if there is one timestamp, or
      all of them are stale; a stale one in front takes the event with it. */
  lemma ExpiredStray(event: string, times: seq<real>, cutoff: real)
    requires times != []
    ensures var (e, t) := Expired([event], times, cutoff);
      && (|e| == |t| <==> |times| == 1 || forall i :: 0 <= i < |times| ==> times[i] < cutoff)
      && (e == [] <==> times[0] < cutoff)
  {
    if times[0] < cutoff {
      NothingToPop(times[1..], cutoff);
      assert forall i :: 1 <= i < |times| ==> times[i] == times[1..][i - 1];
    }
  }

  lemma {:induction false} NothingToPop(times: seq<real>, cutoff: real)
    ensures Expired([], times, cutoff).0 == []
    ensures Expired([], times, cutoff).1 == [] <==> forall i :: 0 <= i < |times| ==> times[i] < cutoff
  {
    if times != [] && times[0] < cutoff {
      NothingToPop(times[1..], cutoff);
      assert forall i :: 1 <= i < |times| ==> times[i] == times[1..][i - 1];
    }
  }

  /** Timestamps without any event are not repaired: where Redis takes the script,
      the lists end aligned if and only if the bound is one or every timestamp is
      stale, and the new event is lost if and only if the oldest one is. */
  lemma StrayTimestamps(times: seq<real>, payload: string, now: real, maxEvents: nat, cutoff: real)
    requires times != [] && maxEvents >= 1
    ensures var all := LastN(times + [now], maxEvents);
            var (e, t) := Pushed([], times, payload, now, maxEvents, cutoff);
      && (|e| == |t| <==> maxEvents == 1 || forall i :: 0 <= i < |all| ==> all[i] < cutoff)
      && (e == [] <==> all[0] < cutoff)
  {
    assert [] + [payload] == [payload];
    ExpiredStray(payload, LastN(times + [now], maxEvents), cutoff);
  }

  lemma PairedPush(events: seq<string>, times: seq<real>, payload: string, now: real, n: nat)
    requires |events| == |times|
    ensures Paired(LastN(events + [payload], n), LastN(times + [now], n))
         == LastN(Paired(events, times) + [Record(payload, now)], n)
  {
  }

  // ----- over any number of appends -----

  /** One call of the script: the record and the cutoff of its time. */
  datatype Call = Call(record: Record, cutoff: real)

  function RecordsOf(calls: seq<Call>): (r: seq<Record>)
    ensures |r| == |calls|
  {
    seq(|calls|, i requires 0 <= i < |calls| => calls[i].record)
  }

  /** The lists after a run of calls from empty ones. */
  function After(calls: seq<Call>, maxEvents: nat): (r: seq<Record>)
  {
    if calls == [] then [] else
      var last := calls[|calls| - 1];
      Appended(After(calls[..|calls| - 1], maxEvents), last.record, maxEvents, last.cutoff)
  }

  lemma {:induction false} DropSplits(records: seq<Record>, cutoff: real) returns (k: nat)
    ensures k <= |records| && DropStale(records, cutoff) == records[k..]
    ensures forall i :: 0 <= i < k ==> records[i].time < cutoff
  {
    if records != [] && records[0].time < cutoff {
      var j := DropSplits(records[1..], cutoff);
      k := j + 1;
      assert forall i :: 1 <= i < k ==> records[i] == records[1..][i - 1];
    } else {
      k := 0;
    }
  }

  lemma {:induction false} DropPrefix(records: seq<Record>, cutoff: real, k: nat)
    requires k <= |records| && forall i :: 0 <= i < k ==> records[i].time < cutoff
    ensures DropStale(records, cutoff) == DropStale(records[k..], cutoff)
  {
    if k > 0 {
      assert records[1..][k - 1..] == records[k..];
      DropPrefix(records[1..], cutoff, k - 1);
    }
  }

  /** Dropping stale records earlier, under an older cutoff, changes nothing. */
  lemma EarlierDropsAreAbsorbed(records: seq<Record>, r: Record, maxEvents: nat, earlier: real, cutoff: real)
    requires maxEvents >= 1 && earlier <= cutoff
    ensures Appended(DropStale(LastN(records, maxEvents), earlier), r, maxEvents, cutoff)
         == Appended(records, r, maxEvents, cutoff)
  {
    var kept := LastN(records, maxEvents);
    var k := DropSplits(kept, earlier);
    var d := if |kept| + 1 > maxEvents then 1 else 0;
    var from := if k > d then k else d;
    LastOfLast(records, r, maxEvents);
    LastOfRest(kept, r, maxEvents, k);
    DropPrefix((kept + [r])[d..], cutoff, from - d);
    assert (kept + [r])[d..][from - d..] == (kept + [r])[from..];
  }

  lemma LastOfLast(records: seq<Record>, r: Record, n: nat)
    requires n >= 1
    ensures var kept := LastN(records, n);
      LastN(records + [r], n) == (kept + [r])[if |kept| + 1 > n then 1 else 0..]
  {
  }

  lemma LastOfRest(kept: seq<Record>, r: Record, n: nat, k: nat)
    requires n >= 1 && k <= |kept| <= n
    ensures var d := if |kept| + 1 > n then 1 else 0;
      LastN(kept[k..] + [r], n) == (kept + [r])[if k > d then k else d..]
  {
    assert kept[k..] + [r] == (kept + [r])[k..];
  }

  ghost predicate CutoffsGrow(calls: seq<Call>)
  {
    forall i, j :: 0 <= i < j < |calls| ==> calls[i].cutoff <= calls[j].cutoff
  }

  lemma AfterSnoc(calls: seq<Call>, c: Call, maxEvents: nat)
    ensures After(calls + [c], maxEvents) == Appended(After(calls, maxEvents), c.record, maxEvents, c.cutoff)
    ensures RecordsOf(calls + [c]) == RecordsOf(calls) + [c.record]
  {
    assert (calls + [c])[..|calls|] == calls;
  }

  /** As long as the cutoff never goes back, the lists are exactly the last
      `maxEvents` records of the whole history without its stale head. */
  lemma {:induction false} ListsAreHistoryEnd(calls: seq<Call>, maxEvents: nat)
    requires maxEvents >= 1 && CutoffsGrow(calls) && calls != []
    ensures After(calls, maxEvents) == HistoryEnd(calls, maxEvents)
  {
    var init, last := calls[..|calls| - 1], calls[|calls| - 1];
    assert calls == init + [last];
    AfterSnoc(init, last, maxEvents);
    if init != [] {
      ListsAreHistoryEnd(init, maxEvents);
      EarlierDropsAreAbsorbed(RecordsOf(init), last.record, maxEvents, init[|init| - 1].cutoff, last.cutoff);
    }
  }

  function HistoryEnd(calls: seq<Call>, maxEvents: nat): (r: seq<Record>)
    requires calls != []
  {
    DropStale(LastN(RecordsOf(calls), maxEvents), calls[|calls| - 1].cutoff)
  }

  lemma AppendedIsSuffix(records: seq<Record>, r: Record, maxEvents: nat, cutoff: real)
    ensures IsSuffix(Appended(records, r, maxEvents, cutoff), records + [r])
    ensures |Appended(records, r, maxEvents, cutoff)| <= maxEvents
  {
    var kept := LastN(records + [r], maxEvents);
    var k := DropSplits(kept, cutoff);
  }

  /** Whatever the clock does, the lists are a bounded suffix of the history. */
  lemma {:induction false} ListsAreSuffix(calls: seq<Call>, maxEvents: nat)
    ensures IsSuffix(After(calls, maxEvents), RecordsOf(calls))
    ensures |After(calls, maxEvents)| <= maxEvents
  {
    if calls != [] {
      var init, last := calls[..|calls| - 1], calls[|calls| - 1];
      assert calls == init + [last];
      ListsAreSuffix(init, maxEvents);
      AfterSnoc(init, last, maxEvents);
      AppendedIsSuffix(After(init, maxEvents), last.record, maxEvents, last.cutoff);
      SuffixSnoc(After(init, maxEvents), RecordsOf(init), last.record);
      SuffixOfSuffix(After(calls, maxEvents), After(init, maxEvents) + [last.record], RecordsOf(calls));
    }
  }

  lemma {:induction false} DropIsLeast(records: seq<Record>, cutoff: real) returns (k: nat)
    ensures k <= |records| && DropStale(records, cutoff) == records[k..]
    ensures forall i :: 0 <= i < k ==> records[i].time < cutoff
    ensures k < |records| ==> records[k].time >= cutoff
  {
    if records != [] && records[0].time < cutoff {
      var j := DropIsLeast(records[1..], cutoff);
      k := j + 1;
      assert forall i :: 1 <= i < k ==> records[i] == records[1..][i - 1];
    } else {
      k := 0;
    }
  }

  /** Said of the history itself: it is kept from record `k` on.  No more than the bound
      are kept, the first of them is fresh, and every record before it is beyond the
      bound or stale. */
  lemma HistoryIsKeptFrom(calls: seq<Call>, maxEvents: nat) returns (k: nat)
    requires maxEvents >= 1 && CutoffsGrow(calls) && calls != []
    ensures k <= |calls| <= k + maxEvents && After(calls, maxEvents) == RecordsOf(calls)[k..]
    ensures k < |calls| ==> calls[k].record.time >= calls[|calls| - 1].cutoff
    ensures forall i :: 0 <= i < k && |calls| <= i + maxEvents ==> calls[i].record.time < calls[|calls| - 1].cutoff
  {
    ListsAreHistoryEnd(calls, maxEvents);
    var all, last := RecordsOf(calls), LastN(RecordsOf(calls), maxEvents);
    var j := DropIsLeast(last, calls[|calls| - 1].cutoff);
    k := |all| - |last| + j;
    assert last == all[|all| - |last|..];
    assert last[j..] == all[k..];
    forall i | 0 <= i < k && |calls| <= i + maxEvents ensures calls[i].record.time < calls[|calls| - 1].cutoff {
      assert last[i - (|all| - |last|)] == all[i];
    }
    if k < |calls| {
      assert last[j] == all[k];
    }
  }
}
