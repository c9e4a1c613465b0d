/** One key of the running protocol: its calls are explained by its own item,
    whatever happens to the other keys. */
module KeyRuns {

  import opened Options
  import opened CacheStore
  import opened Histories
  import opened KeyHistories
  import opened Protocol
  import opened Serialization

  // ----- what a step completes -----

  /** The call that `step` completes, if any. */
  function LogEvent(s: State, step: Step): Option<Event>
    requires Enabled(s, step)
  {
    var log := Next(s, step).log;
    if |s.log| < |log| then Some(log[|s.log|]) else None
  }

  lemma LogGrows(s: State, step: Step)
    requires Enabled(s, step)
    ensures var e := LogEvent(s, step);
            Next(s, step).log == s.log + (if e.Some? then [e.value] else [])
  {
    hide Plan, Stamp, Find;
  }

  lemma {:induction false} LogsArePrefixes(states: seq<State>, steps: seq<Step>, i: nat, n: nat)
    requires Run(states, steps) && i <= n < |states|
    ensures states[i].log <= states[n].log
  {
    hide Next, Enabled;
    if i < n {
      LogsArePrefixes(states, steps, i, n - 1);
      LogGrows(states[n - 1], steps[n - 1]);
    }
  }

  /** The step that completed call `j` of the log. */
  lemma {:induction false} CompletedBy(states: seq<State>, steps: seq<Step>, n: nat, j: nat) returns (m: nat)
    requires Run(states, steps) && n < |states| && j < |states[n].log|
    ensures m < n && states[m].log == states[n].log[..j] && LogEvent(states[m], steps[m]) == Some(states[n].log[j])
    decreases n
  {
    hide Next, Enabled;
    assert n > 0 by { assert states[0].log == []; }
    LogGrows(states[n - 1], steps[n - 1]);
    if j < |states[n - 1].log| {
      m := CompletedBy(states, steps, n - 1, j);
    } else {
      m := n - 1;
    }
  }

  function ReplyOf(plan: Decision, stored: bool): Reply {
    match plan
    case Answer(reply) => reply
    case Write(_, _, _, whenStored, whenFailed) => if stored then whenStored else whenFailed
  }

  function StoreAfter(store: Store, key: Key, plan: Decision, env: Env): Store {
    if plan.Write? && env.stored then store[key := Stamp(plan.value, plan.ttl, plan.creation, env.alloc)] else store
  }

  /** A locked call completes from what it found: its reply and its write are
      those of its plan. */
  lemma CallCompletes(s: State, step: Step)
    requires Inv(s) && Enabled(s, step) && LogEvent(s, step).Some? && IsLocked(LogEvent(s, step).value)
    ensures var e := LogEvent(s, step).value;
            var pc := PcOf(s, e.tid);
            && s.owner == Some(e.tid) && Flying(pc) && pc.op == e.op
            && FlightOf(Next(s, step)).Idle? && Next(s, step).clock == s.clock
            && e.env.find == pc.env.find && WellTimed(e.env) && e.env.alloc <= s.clock
            && var plan := Plan(e.op, pc.found, e.env.now);
            && e.reply == ReplyOf(plan, e.env.stored)
            && Next(s, step).store == StoreAfter(s.store, e.op.key, plan, e.env)
            && (step.Insert? <==> plan.Write? && e.env.stored)
  {
    hide Plan, Stamp, Find, LockedCalls, StoreOk;
  }

  /** Only plain writes, evictions and completed calls change the item of a key. */
  lemma OthersLeaveItem(s: State, step: Step, key: Key)
    requires Inv(s) && Enabled(s, step)
    requires !((step.Set? || step.Remove? || step.Evict?) && step.key == key)
    requires LogEvent(s, step).Some? && LogEvent(s, step).value.Called? ==> KeyOf(LogEvent(s, step).value) != key
    ensures ItemAt(Next(s, step).store, key) == ItemAt(s.store, key)
  {
    hide Plan, Stamp, Find, LockedCalls, StoreOk;
  }

  // ----- clock readings along the log -----

  lemma {:induction false} LogClocksInOrder(states: seq<State>, steps: seq<Step>, n: nat)
    requires Run(states, steps) && n < |states|
    ensures ClocksInOrder(states[n].log) && AllBefore(states[n].log, Since(states[n]))
  {
    hide Next, Enabled, Inv, ClocksInOrder, AllBefore, Since;
    if n == 0 {
      EmptyLogClocks(states[0]);
    } else {
      LogClocksInOrder(states, steps, n - 1);
      Reachable(states, steps, n - 1);
      StepKeepsLogClocks(states[n - 1], steps[n - 1]);
    }
  }

  lemma EmptyLogClocks(s: State)
    requires Initial(s)
    ensures ClocksInOrder(s.log) && AllBefore(s.log, Since(s))
  {
  }

  lemma StepKeepsLogClocks(s: State, step: Step)
    requires Inv(s) && Enabled(s, step) && ClocksInOrder(s.log) && AllBefore(s.log, Since(s))
    ensures var s' := Next(s, step);
            ClocksInOrder(s'.log) && AllBefore(s'.log, Since(s'))
  {
    hide Next, Enabled, Inv, ClocksInOrder, AllBefore, Plan, LogEvent;
    var s' := Next(s, step);
    LogGrows(s, step);
    SinceOnlyGrows(s, step);
    BeforeLater(s.log, Since(s), Since(s'));
    var e := LogEvent(s, step);
    if e.Some? {
      if IsLocked(e.value) { CallCompletes(s, step); }
      ClocksSnoc(s.log, e.value, Since(s'));
    } else {
      assert s.log + [] == s.log;
    }
  }

  // ----- one key is explained by its own calls -----

  /** The key is not evicted, and no plain write hits it between the find and the
      write of an operation on it. Nothing is asked of other keys. */
  predicate ClearOf(s: State, step: Step, key: Key) {
    match step
    case Set(k, _, _, _, _) => k == key ==> !InFlight(s, key)
    case Remove(k) => k == key ==> !InFlight(s, key)
    case Evict(k) => k != key
    case _ => true
  }

  ghost predicate KeyRun(states: seq<State>, steps: seq<Step>, key: Key) {
    Run(states, steps) && forall i :: 0 <= i < |steps| ==> ClearOf(states[i], steps[i], key)
  }

  /** An operation in flight on the key found what the store still holds. */
  predicate FoundIsCurrent(s: State, key: Key) {
    InFlight(s, key) ==> FlightOf(s).found == Find(s.store, key, FlightOf(s).env.find)
  }

  lemma StepKeepsFound(s: State, step: Step, key: Key)
    requires Inv(s) && Enabled(s, step) && ClearOf(s, step, key) && FoundIsCurrent(s, key)
    ensures FoundIsCurrent(Next(s, step), key)
  {
    hide Plan, Stamp, LockedCalls, StoreOk;
  }

  /** Whatever explains an event is the item of its key. */
  lemma ExplainedByItem(a: Store, b: Store, e: Event)
    requires ItemAt(a, KeyOf(e)) == ItemAt(b, KeyOf(e))
    ensures Explained(a, e) == Explained(b, e)
    ensures ItemAt(Effect(a, e), KeyOf(e)) == ItemAt(Effect(b, e), KeyOf(e))
  {
    hide Plan, Stamp;
  }

  /** The event of a step on the key is explained by the store, and its effect
      on the key is the step's. */
  lemma EventOfStep(s: State, step: Step, key: Key)
    requires Inv(s) && Enabled(s, step) && ClearOf(s, step, key) && FoundIsCurrent(s, key)
    requires LogEvent(s, step).Some? && KeyOf(LogEvent(s, step).value) == key
    ensures var e := LogEvent(s, step).value;
            Explained(s.store, e) && ItemAt(Next(s, step).store, key) == ItemAt(Effect(s.store, e), key)
  {
    var e := LogEvent(s, step).value;
    if IsLocked(e) {
      CallCompletes(s, step);
      ExecFollowsPlan(s.store, e.op, e.env);
    } else {
      UnlockedEvent(s, step);
    }
  }

  lemma ExecFollowsPlan(store: Store, op: Op, env: Env)
    ensures var plan := Plan(op, Find(store, op.key, env.find), env.now);
            Exec(store, op, env) == (StoreAfter(store, op.key, plan, env), ReplyOf(plan, env.stored))
  {
    hide Plan, Stamp, Find;
  }

  lemma UnlockedEvent(s: State, step: Step)
    requires Inv(s) && Enabled(s, step) && LogEvent(s, step).Some? && !IsLocked(LogEvent(s, step).value)
    ensures var e := LogEvent(s, step).value;
            Explained(s.store, e) && Next(s, step).store == Effect(s.store, e)
  {
    hide Stamp, LockedCalls, StoreOk;
  }

  ghost predicate KeyExplained(a0: Store, s: State, key: Key) {
    && LegalFor(a0, s.log, key) && ItemAt(Final(a0, s.log), key) == ItemAt(s.store, key)
    && FoundIsCurrent(s, key)
  }

  lemma LegalForSnoc(store: Store, h: seq<Event>, e: Event, key: Key)
    requires LegalFor(store, h, key) && (KeyOf(e) == key ==> Explained(Final(store, h), e))
    ensures LegalFor(store, h + [e], key)
  {
    hide Explained, Final;
    forall i | 0 <= i <= |h| && KeyOf((h + [e])[i]) == key ensures Explained(Final(store, (h + [e])[..i]), (h + [e])[i]) {
      assert (h + [e])[..i] == h[..i];
      assert h[..|h|] == h;
    }
  }

  lemma StepKeepsExplained(a0: Store, s: State, step: Step, key: Key)
    requires Inv(s) && Enabled(s, step) && ClearOf(s, step, key) && KeyExplained(a0, s, key)
    ensures KeyExplained(a0, Next(s, step), key)
  {
    hide Next, Enabled, Inv, Explained, Effect, Final, LegalFor, FoundIsCurrent;
    LogGrows(s, step);
    StepKeepsFound(s, step, key);
    var e := LogEvent(s, step);
    if e.Some? {
      var a := Final(a0, s.log);
      FinalSnoc(a0, s.log, e.value);
      if KeyOf(e.value) == key {
        EventOfStep(s, step, key);
        ExplainedByItem(a, s.store, e.value);
      } else {
        EffectIsLocal(a, e.value, key);
        SilentStep(s, step, key);
      }
      LegalForSnoc(a0, s.log, e.value, key);
    } else {
      SilentStep(s, step, key);
      assert s.log + [] == s.log;
    }
  }

  /** A step that completes nothing on the key leaves its item alone. */
  lemma SilentStep(s: State, step: Step, key: Key)
    requires Inv(s) && Enabled(s, step) && ClearOf(s, step, key)
    requires LogEvent(s, step).Some? ==> KeyOf(LogEvent(s, step).value) != key
    ensures ItemAt(Next(s, step).store, key) == ItemAt(s.store, key)
  {
    OthersLeaveItem(s, step, key);
  }

  /** Serialisability of one key: in every state of a run that stays clear of the
      key, the replies given on it and its item are those of its calls executed
      one at a time in completion order, which is lock order. Plain writes may
      race with operations on any other key. */
  lemma {:induction false} KeySerializable(states: seq<State>, steps: seq<Step>, key: Key, n: nat)
    requires KeyRun(states, steps, key) && n < |states|
    ensures LegalFor(states[0].store, states[n].log, key)
    ensures ItemAt(Final(states[0].store, states[n].log), key) == ItemAt(states[n].store, key)
    ensures FoundIsCurrent(states[n], key)
  {
    hide Next, Enabled, Inv, LegalFor, ClearOf, FoundIsCurrent;
    if n == 0 {
      NothingLogged(states[0], key);
    } else {
      KeySerializable(states, steps, key, n - 1);
      Reachable(states, steps, n - 1);
      StepKeepsExplained(states[0].store, states[n - 1], steps[n - 1], key);
    }
  }

  lemma NothingLogged(s: State, key: Key)
    requires Initial(s)
    ensures KeyExplained(s.store, s, key)
  {
  }
}
