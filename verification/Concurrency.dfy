/** What the interleaved protocol guarantees to its callers, key by key. */
module Concurrency {

  import opened Options
  import opened CounterText
  import opened CacheStore
  import opened Histories
  import opened KeyHistories
  import opened RateLimit
  import opened Protocol
  import opened KeyRuns

  // ----- counters -----

  /** However the calls interleave, and whatever happens to other keys, a counter
      that does not lapse is its initial value plus the sum of the deltas of the
      calls that succeeded so far. */
  lemma ConcurrentCountersAddUp(states: seq<State>, steps: seq<Step>, key: Key)
    requires KeyRun(states, steps, key)
    requires var store, log := states[0].store, Last(states).log;
             CounterOnly(log, key) && NeverLapses(store, log, key) && CounterAt(store, key).Some?
    ensures CounterAt(Last(states).store, key)
            == Some(CounterAt(states[0].store, key).value + TotalGained(Last(states).log, key))
  {
    hide ParseWhole, CounterOnly, NeverLapses, LegalFor, Final, TotalGained, Next, Enabled, ClearOf;
    var log := Last(states).log;
    KeySerializable(states, steps, key, |steps|);
    CounterConserved(states[0].store, log, key, |log|);
    assert log[..|log|] == log;
  }

  /** Unit Incr calls on an absent key that does not lapse return 1, 2, 3, ... in
      the order in which they completed, and exactly the first reports ttlSet. */
  lemma ConcurrentIncrsCountUp(states: seq<State>, steps: seq<Step>, key: Key, i: nat)
    requires KeyRun(states, steps, key) && key !in states[0].store
    requires var log := Last(states).log;
             UnitIncrs(log, key) && NeverLapses(states[0].store, log, key) && i < |log| && Counts(log[i], key)
    ensures var log := Last(states).log;
            && log[i].reply.IncrReply?
            && log[i].reply.value as int == Successes(log[..i], key) + 1
            && (log[i].reply.ttlSet <==> Successes(log[..i], key) == 0)
  {
    hide NeverLapses, LegalFor, Final, Successes, Counts, Next, Enabled, ClearOf;
    KeySerializable(states, steps, key, |steps|);
    UnitIncrsCountUp(states[0].store, Last(states).log, key, i);
  }

  /** In every state of the run the key, if present, has time left. */
  ghost predicate StaysAlive(states: seq<State>, key: Key) {
    forall i :: 0 <= i < |states| && key in states[i].store ==> StillLive(states[i].store[key], states[i].clock)
  }

  /** When a locked call on the key completes, the item it meets has been live
      since the call looked it up. */
  ghost predicate FlightAlive(s: State, key: Key) {
    && (key in s.store ==> StillLive(s.store[key], s.clock))
    && (InFlight(s, key) && key in s.store ==> LiveFor(s.store[key], FlightOf(s).env))
  }

  lemma StepKeepsFlightAlive(s: State, step: Step, key: Key)
    requires Inv(s) && Enabled(s, step) && ClearOf(s, step, key) && FlightAlive(s, key)
    requires var s' := Next(s, step); key in s'.store ==> StillLive(s'.store[key], s'.clock)
    ensures FlightAlive(Next(s, step), key)
  {
    hide Plan, Stamp, Find, LockedCalls, StoreOk;
  }

  lemma {:induction false} FlightsAlive(states: seq<State>, steps: seq<Step>, key: Key, n: nat)
    requires KeyRun(states, steps, key) && StaysAlive(states, key) && n < |states|
    ensures FlightAlive(states[n], key)
  {
    hide Next, Enabled, Inv, ClearOf;
    if n > 0 {
      FlightsAlive(states, steps, key, n - 1);
      Reachable(states, steps, n - 1);
      assert key in states[n].store ==> StillLive(states[n].store[key], states[n].clock);
      hide FlightAlive;
      StepKeepsFlightAlive(states[n - 1], steps[n - 1], key);
    } else {
      assert FlightOf(states[0]).Idle?;
    }
  }

  /** A call that completes on a live key meets a live item. */
  lemma CallMeetsLiveItem(s: State, step: Step, key: Key)
    requires Inv(s) && Enabled(s, step) && FlightAlive(s, key)
    requires var e := LogEvent(s, step);
             e.Some? && e.value.Called? && e.value.op.key == key
    ensures key in s.store ==> LiveFor(s.store[key], LogEvent(s, step).value.env)
  {
    hide Plan, Stamp, Find, LockedCalls, StoreOk;
  }

  /** In the machine's own terms: a key that is never out of time does not lapse. */
  lemma StayingAliveNeverLapses(states: seq<State>, steps: seq<Step>, key: Key)
    requires KeyRun(states, steps, key) && StaysAlive(states, key)
    ensures NeverLapses(states[0].store, Last(states).log, key)
  {
    hide Next, Enabled, Inv, Final, LegalFor, ClearOf, FlightAlive, LiveFor, FoundIsCurrent;
    var log := Last(states).log;
    forall j | 0 <= j < |log| && log[j].Called? && log[j].op.key == key
      ensures var item := ItemAt(Final(states[0].store, log[..j]), key);
              item.Some? ==> LiveFor(item.value, log[j].env)
    {
      var m := CompletedBy(states, steps, |steps|, j);
      KeySerializable(states, steps, key, m);
      FlightsAlive(states, steps, key, m);
      Reachable(states, steps, m);
      CallMeetsLiveItem(states[m], steps[m], key);
    }
  }

  // ----- the rate limiter -----

  lemma RateRunOfLog(states: seq<State>, steps: seq<Step>, key: Key, period: uint32)
    requires KeyRun(states, steps, key) && period > 0 && key !in states[0].store
    requires RateCalls(Last(states).log, key, period)
    ensures RateRun(states[0].store, Last(states).log, key, period)
  {
    hide RateCalls, LegalFor, ClocksInOrder;
    KeySerializable(states, steps, key, |steps|);
    LogClocksInOrder(states, steps, |steps|);
  }

  /** However the calls interleave, and whatever happens to other keys, the
      replies of the rate limiter follow its windows. */
  lemma ConcurrentWindowsCountUp(states: seq<State>, steps: seq<Step>, key: Key, period: uint32, i: nat)
    requires KeyRun(states, steps, key) && period > 0 && key !in states[0].store
    requires RateCalls(Last(states).log, key, period) && i < |Last(states).log| && Counts(Last(states).log[i], key)
    ensures var log := Last(states).log;
            log[i].reply.IncrReply? && FollowsWindow(WindowAfter(log[..i], key), log[i], period)
  {
    hide RateCalls, RateRun, Next, Enabled, ClearOf;
    RateRunOfLog(states, steps, key, period);
    WindowsCountUp(states[0].store, Last(states).log, key, period, i);
  }

  /** Window starts are at least one period apart over every interleaving. */
  lemma ConcurrentWindowsAreApart(states: seq<State>, steps: seq<Step>, key: Key, period: uint32, i: nat, j: nat)
    requires KeyRun(states, steps, key) && period > 0 && key !in states[0].store
    requires RateCalls(Last(states).log, key, period) && i < j < |Last(states).log|
    requires var log := Last(states).log;
             && Counts(log[i], key) && log[i].reply.IncrReply? && log[i].reply.ttlSet
             && Counts(log[j], key) && log[j].reply.IncrReply? && log[j].reply.ttlSet
    ensures var log := Last(states).log;
            log[i].env.alloc + period <= log[j].env.now <= log[j].env.alloc
  {
    hide RateCalls, RateRun, Next, Enabled, ClearOf;
    RateRunOfLog(states, steps, key, period);
    WindowsAreApart(states[0].store, Last(states).log, key, period, i, j);
  }

  /** A limit admits at most 2 * limit - 1 calls in any interval of one period. */
  lemma ConcurrentLimitHolds(states: seq<State>, steps: seq<Step>, key: Key, period: uint32, limit: nat, a: int)
    requires KeyRun(states, steps, key) && period > 0 && key !in states[0].store
    requires RateCalls(Last(states).log, key, period) && limit >= 1
    ensures AdmittedCount(Last(states).log, key, limit, a, period) <= 2 * limit - 1
  {
    hide RateCalls, RateRun, Next, Enabled, ClearOf;
    RateRunOfLog(states, steps, key, period);
    LimitHolds(states[0].store, Last(states).log, key, period, limit, a);
  }

  // ----- SetNX, with every unlocked operation and eviction allowed -----

  predicate SetNXWin(s: State, step: Step, key: Key) {
    && Enabled(s, step) && step.Insert?
    && PcOf(s, step.t).op.SetNX? && PcOf(s, step.t).op.key == key
  }

  predicate Hidden(s: State, key: Key) { Find(s.store, key, s.clock).None? }

  /** Nobody is in flight right after an insert. */
  lemma InsertGrounds(s: State, step: Step, t: Tid)
    requires Inv(s) && Enabled(s, step) && step.Insert?
    ensures !Flying(PcOf(Next(s, step), t))
  {
    hide Plan, Stamp, Find, StoreOk, LockedCalls;
    assert t != step.t ==> PcOf(Next(s, step), t) == PcOf(s, t);
  }

  /** A thread takes off by looking its key up, and then keeps what it found. */
  lemma FlightBegins(s: State, step: Step, t: Tid)
    requires Inv(s) && Enabled(s, step) && Flying(PcOf(Next(s, step), t))
    ensures var pc, pc' := PcOf(s, t), PcOf(Next(s, step), t);
            if Flying(pc) then pc'.found == pc.found && pc'.op == pc.op
            else pc'.found == Find(s.store, pc'.op.key, s.clock)
  {
    hide Plan, Stamp, Find, StoreOk, LockedCalls;
  }

  /** An operation in flight that found nothing looked after the last insert. */
  lemma {:induction false} LookedSince(states: seq<State>, steps: seq<Step>, key: Key, i: nat, n: nat, t: Tid)
    requires Run(states, steps) && i < n < |states| && steps[i].Insert?
    requires var pc := PcOf(states[n], t); Flying(pc) && pc.found.None? && pc.op.key == key
    ensures exists m :: i < m < n && Hidden(states[m], key)
  {
    hide Next, Enabled, Find, Inv;
    Reachable(states, steps, n - 1);
    var s, step := states[n - 1], steps[n - 1];
    FlightBegins(s, step, t);
    if n - 1 == i {
      InsertGrounds(s, step, t);
      assert false;
    } else if Flying(PcOf(s, t)) {
      LookedSince(states, steps, key, i, n - 1, t);
    } else {
      assert Hidden(s, key);
    }
  }

  lemma SetNXWinnerSawNothing(s: State, t: Tid)
    requires PcOf(s, t).Allocated? && PcOf(s, t).op.SetNX? && PcOk(s, PcOf(s, t))
    ensures PcOf(s, t).found.None?
  {
  }

  /** Between two SetNX wins on a key there is a moment at which the key could
      not be found, whatever sets, deletes, evictions and expiries happened. */
  lemma SetNXWinsNeedVanishing(states: seq<State>, steps: seq<Step>, key: Key, i: nat, j: nat)
    requires Run(states, steps) && i < j < |steps|
    requires SetNXWin(states[i], steps[i], key) && SetNXWin(states[j], steps[j], key)
    ensures exists m :: i < m < j && Hidden(states[m], key)
  {
    Reachable(states, steps, j);
    SetNXWinnerSawNothing(states[j], steps[j].t);
    LookedSince(states, steps, key, i, j, steps[j].t);
  }

  // ----- compare-and-swap races, with removes and evictions allowed -----

  /** The key holds `v` or nothing, and so does what an operation in flight found. */
  predicate SettledOn(s: State, key: Key, v: Value) {
    && (key in s.store ==> s.store[key].value == v)
    && (InFlight(s, key) && FlightOf(s).found.Some? ==> FlightOf(s).found.value.value == v)
  }

  /** A winning call writes what it proposed, and nobody else is in flight. */
  lemma WinSettles(s: State, step: Step, key: Key)
    requires Inv(s) && Enabled(s, step) && LogEvent(s, step).Some? && Wins(LogEvent(s, step).value, key)
    ensures step.Insert? && SettledOn(Next(s, step), key, LogEvent(s, step).value.op.proposed)
  {
    CallCompletes(s, step);
  }

  /** What a compare-and-swap on a settled key answers. */
  lemma LoserReports(s: State, step: Step, key: Key, expected: Value, v: Value)
    requires Inv(s) && Enabled(s, step) && SettledOn(s, key, v) && v != expected
    requires LogEvent(s, step).Some? && LogEvent(s, step).value.Called? && KeyOf(LogEvent(s, step).value) == key
    requires CasRace([LogEvent(s, step).value], key, expected)
    ensures var e := LogEvent(s, step).value;
            && Flying(PcOf(s, e.tid)) && PcOf(s, e.tid).op == e.op
            && e.reply == CasReply(false, if PcOf(s, e.tid).found.Some? then v else [])
            && Next(s, step).store == s.store && FlightOf(Next(s, step)).Idle?
  {
    assert [LogEvent(s, step).value][0] == LogEvent(s, step).value;
    CallCompletes(s, step);
  }

  /** Apart from completed calls and plain sets nothing unsettles a key. */
  lemma QuietStepSettled(s: State, step: Step, key: Key, v: Value)
    requires Inv(s) && Enabled(s, step) && SettledOn(s, key, v)
    requires LogEvent(s, step).Some? ==>
               || (!LogEvent(s, step).value.PlainSet? && !LogEvent(s, step).value.Called?)
               || KeyOf(LogEvent(s, step).value) != key
    ensures SettledOn(Next(s, step), key, v)
  {
    hide Plan, Stamp, LockedCalls, StoreOk;
  }

  lemma {:induction false} StaysSettled(states: seq<State>, steps: seq<Step>, key: Key, expected: Value, i: nat, n: nat)
    requires Run(states, steps) && i < n < |states| && CasRace(states[n].log, key, expected)
    requires LogEvent(states[i], steps[i]).Some? && Wins(LogEvent(states[i], steps[i]).value, key)
    ensures var v := LogEvent(states[i], steps[i]).value.op.proposed;
            v != expected && SettledOn(states[n], key, v)
    decreases n
  {
    hide Next, Enabled, Inv, SettledOn, LogEvent;
    var v, m := LogEvent(states[i], steps[i]).value.op.proposed, n - 1;
    var s, step := states[m], steps[m];
    Reachable(states, steps, m);
    LogGrows(s, step);
    var e := LogEvent(s, step);
    assert e.Some? ==> states[n].log[|s.log|] == e.value && CasRace([e.value], key, expected);
    if m == i {
      WinSettles(s, step, key);
    } else {
      assert CasRace(s.log, key, expected) by {
        assert forall k :: 0 <= k < |s.log| ==> s.log[k] == states[n].log[k];
      }
      StaysSettled(states, steps, key, expected, i, m);
      if e.Some? && e.value.Called? && KeyOf(e.value) == key {
        LoserReports(s, step, key, expected, v);
        LoserKeepsSettled(s, step, key, v);
      } else {
        QuietStepSettled(s, step, key, v);
      }
    }
  }

  lemma LoserKeepsSettled(s: State, step: Step, key: Key, v: Value)
    requires Enabled(s, step) && SettledOn(s, key, v)
    requires Next(s, step).store == s.store && FlightOf(Next(s, step)).Idle?
    ensures SettledOn(Next(s, step), key, v)
  {
    hide Next, Enabled;
  }

  /** When all calls on the key are compare-and-swaps from one expected value to
      others, and no plain set writes it, every call that completes after a win
      loses. It reports the winner's value, or nothing; and nothing only if the
      key could not be found at a moment between the two completions. Removes
      and evictions of the key, and anything on other keys, may happen anywhere. */
  lemma ConcurrentCasHasOneWinner(states: seq<State>, steps: seq<Step>, key: Key, expected: Value, i: nat, j: nat)
    requires Run(states, steps) && CasRace(Last(states).log, key, expected) && i < j < |Last(states).log|
    requires var log := Last(states).log;
             Wins(log[i], key) && log[j].Called? && log[j].op.key == key
    ensures var log := Last(states).log;
            || log[j].reply == CasReply(false, log[i].op.proposed)
            || (log[j].reply == CasReply(false, []) &&
                exists m :: 0 <= m < |states| && Hidden(states[m], key)
                            && log[..i + 1] <= states[m].log && states[m].log <= log[..j])
  {
    hide Next, Enabled, Inv, SettledOn, LogEvent, Hidden;
    var log := Last(states).log;
    var mi := CompletedBy(states, steps, |steps|, i);
    var mj := CompletedBy(states, steps, |steps|, j);
    assert mi < mj by { if mj <= mi { LogsArePrefixes(states, steps, mj, mi); } }
    assert CasRace(states[mj].log, key, expected) && CasRace([log[j]], key, expected);
    StaysSettled(states, steps, key, expected, mi, mj);
    Reachable(states, steps, mi);
    Reachable(states, steps, mj);
    WinSettles(states[mi], steps[mi], key);
    LoserReports(states[mj], steps[mj], key, expected, log[i].op.proposed);
    if log[j].reply != CasReply(false, log[i].op.proposed) {
      LookedSince(states, steps, key, mi, mj, log[j].tid);
      var m :| mi < m < mj && Hidden(states[m], key);
      LogGrows(states[mi], steps[mi]);
      LogsArePrefixes(states, steps, mi + 1, m);
      LogsArePrefixes(states, steps, m, mj);
      assert states[mi + 1].log == log[..i + 1];
    }
  }

  /** Hence at most one of them wins. */
  lemma ConcurrentCasWinsOnce(states: seq<State>, steps: seq<Step>, key: Key, expected: Value)
    requires Run(states, steps) && CasRace(Last(states).log, key, expected)
    ensures WinCount(Last(states).log, key) <= 1
  {
    hide Next, Enabled, CasRace, Hidden;
    var log := Last(states).log;
    forall i, j | 0 <= i < j < |log| ensures !(Wins(log[i], key) && Wins(log[j], key)) {
      if Wins(log[i], key) && Wins(log[j], key) { ConcurrentCasHasOneWinner(states, steps, key, expected, i, j); }
    }
    WinsExclude(log, key, |log|);
    assert log[..|log|] == log;
  }

  // ----- deadlines, in every reachable state -----

  /** Every stored item has a creation second and no expiry equal to it, with all
      unlocked calls, evictions and expiries allowed. */
  lemma StoredDeadlinesOk(states: seq<State>, steps: seq<Step>, i: nat, key: Key)
    requires Run(states, steps) && i < |states| && key in states[i].store
    ensures ItemOk(states[i].store[key])
  {
    Reachable(states, steps, i);
  }

  /** Whenever an operation that promises to keep the deadline is about to write,
      the item it writes carries the creation and expiry of the item it found. */
  lemma WritesKeepDeadlines(states: seq<State>, steps: seq<Step>, i: nat, t: Tid)
    requires Run(states, steps) && i < |states| && PcOf(states[i], t).Allocated?
    requires var pc := PcOf(states[i], t);
             pc.found.Some? && KeepsDeadline(pc.op, pc.found.value, pc.env.now)
    ensures var pc := PcOf(states[i], t);
            pc.item == pc.found.value.(value := pc.item.value)
  {
    Reachable(states, steps, i);
    var pc := PcOf(states[i], t);
    assert PcOk(states[i], pc);
    RestampKeepsDeadline(pc.found.value, PlanOf(pc).value, pc.env.alloc);
  }

  /** Over every run in which only deadline-keeping calls reach the key, its
      creation second and its absolute expiry are exactly the original ones. */
  lemma ConcurrentDeadlineUnchanged(states: seq<State>, steps: seq<Step>, key: Key)
    requires KeyRun(states, steps, key) && key in states[0].store
    requires DeadlineKeepers(states[0].store, Last(states).log, key)
    ensures var before, after := states[0].store, Last(states).store;
            && key in after
            && after[key].creation == before[key].creation && after[key].expiry == before[key].expiry
  {
    hide DeadlineKeepers, LegalFor, Final;
    var log := Last(states).log;
    KeySerializable(states, steps, key, |steps|);
    DeadlineUnchanged(states[0].store, log, key, |log|);
    assert log[..|log|] == log;
  }
}
