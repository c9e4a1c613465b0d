/** Every interleaving of the protocol is explained by a sequential history that
    executes the atomic calls in lock order. */
module Serialization {

  import opened Options
  import opened CacheStore
  import opened Histories
  import opened Protocol

  /** The unlocked calls that stay clear of an operation in flight: no plain
      write to its key between its find and its write, and no read of that key
      while it is missing because of an eviction in that interval. */
  predicate Clear(s: State, step: Step) {
    match step
    case Set(key, _, _, _, _) => !InFlight(s, key)
    case Remove(key) => !InFlight(s, key)
    case Get(key) => InFlight(s, key) ==> !s.gap
    case _ => true
  }

  ghost predicate Undisturbed(states: seq<State>, steps: seq<Step>)
    requires |states| == |steps| + 1
  {
    forall i :: 0 <= i < |steps| ==> Clear(states[i], steps[i])
  }

  // ----- the sequential history of a run -----

  /** The call that `step` completes, if any. */
  function Completed(s: State, step: Step): seq<Event>
    requires Enabled(s, step)
  {
    if s.log <= Next(s, step).log then Next(s, step).log[|s.log|..] else []
  }

  /** An eviction in flight is postponed until the operation completes, and
      dropped when the operation then writes the key. */
  function Postponed(s: State, step: Step): seq<Event>
    requires Enabled(s, step)
  {
    if s.gap && Flying(FlightOf(s)) && !Next(s, step).gap && !step.Insert?
    then [Evicted(FlightOf(s).op.key)] else []
  }

  function Emit(s: State, step: Step): seq<Event>
    requires Enabled(s, step)
  {
    if step.Evict? then (if InFlight(s, step.key) then [] else [Evicted(step.key)])
    else Completed(s, step) + Postponed(s, step)
  }

  function Serialize(states: seq<State>, steps: seq<Step>): seq<Event>
    requires |states| == |steps| + 1
    requires forall i :: 0 <= i < |steps| ==> Enabled(states[i], steps[i])
    decreases |steps|
  {
    if steps == [] then []
    else
      var n := |steps| - 1;
      Serialize(states[..n + 1], steps[..n]) + Emit(states[n], steps[n])
  }

  // ----- the simulation -----

  /** The machine's store against the sequential one: equal, except that a key
      evicted in flight is still present in the sequential store. */
  predicate Simulates(s: State, a: Store) {
    var pc := FlightOf(s);
    if Flying(pc) then
      && s.store == (if s.gap then a - {pc.op.key} else a)
      && pc.found == Find(a, pc.op.key, pc.env.find)
    else s.store == a
  }

  ghost predicate AllBefore(h: seq<Event>, now: uint32) {
    forall i :: 0 <= i < |h| && IsLocked(h[i]) ==> h[i].env.alloc <= now
  }

  function Since(s: State): uint32 {
    if Flying(FlightOf(s)) then FlightOf(s).env.find else s.clock
  }

  /** `h` explains the run that led from store `a0` to `s`. */
  ghost predicate Explains(a0: Store, h: seq<Event>, s: State) {
    && Legal(a0, h) && Simulates(s, Final(a0, h))
    && Observed(h) == s.log
    && ClocksInOrder(h) && AllBefore(h, Since(s))
  }

  lemma ClocksSnoc(h: seq<Event>, e: Event, now: uint32)
    requires ClocksInOrder(h)
    requires IsLocked(e) ==> WellTimed(e.env) && AllBefore(h, e.env.find) && e.env.alloc <= now
    requires AllBefore(h, now)
    ensures ClocksInOrder(h + [e]) && AllBefore(h + [e], now)
  {
    var h' := h + [e];
    forall i, j | 0 <= i < j < |h'| && IsLocked(h'[i]) && IsLocked(h'[j])
      ensures h'[i].env.alloc <= h'[j].env.find
    {
      if j == |h| { assert h'[i] == h[i]; }
    }
  }

  /** Appending one event that the sequential store explains. */
  lemma Extend(a0: Store, h: seq<Event>, e: Event, s: State, s': State)
    requires Explains(a0, h, s)
    requires Explained(Final(a0, h), e) && Simulates(s', Effect(Final(a0, h), e))
    requires s'.log == s.log + (if e.Evicted? then [] else [e])
    requires AllBefore(h, Since(s'))
    requires IsLocked(e) ==> WellTimed(e.env) && AllBefore(h, e.env.find) && e.env.alloc <= Since(s')
    ensures Explains(a0, h + [e], s')
  {
    FinalSnoc(a0, h, e);
    LegalSnoc(a0, h, e);
    ClocksSnoc(h, e, Since(s'));
  }

  lemma BeforeLater(h: seq<Event>, now: uint32, later: uint32)
    requires AllBefore(h, now) && now <= later
    ensures AllBefore(h, later)
  {
  }

  lemma SinceOnlyGrows(s: State, step: Step)
    requires Inv(s) && Enabled(s, step)
    ensures Since(s) <= Since(Next(s, step))
    ensures Since(s) <= s.clock
  {
    hide Plan, Stamp, Find, LockedCalls, StoreOk;
  }

  lemma EvictWhenGrounded(a0: Store, h: seq<Event>, s: State, key: Key)
    requires Explains(a0, h, s) && FlightOf(s).Idle?
    ensures Explains(a0, h + [Evicted(key)], s.(store := s.store - {key}))
  {
    Extend(a0, h, Evicted(key), s, s.(store := s.store - {key}));
  }

  /** An operation in flight completes with a call that writes nothing; the
      sequential store is then the machine's store before any postponed eviction. */
  lemma CompleteWithoutWrite(a0: Store, h: seq<Event>, s: State, t: Tid, op: Op, env: Env, reply: Reply)
    requires Explains(a0, h, s) && s.owner == Some(t) && Flying(PcOf(s, t))
    requires WellTimed(env) && env.find == PcOf(s, t).env.find && env.alloc <= s.clock
    requires var e := Called(t, op, env, reply);
             Explained(Final(a0, h), e) && Effect(Final(a0, h), e) == Final(a0, h)
    ensures Explains(a0, h + [Called(t, op, env, reply)],
                     Finish(s, t, op, env, reply).(store := Final(a0, h)))
  {
    var s' := Finish(s, t, op, env, reply).(store := Final(a0, h));
    BeforeLater(h, Since(s), s.clock);
    Extend(a0, h, Called(t, op, env, reply), s, s');
  }

  lemma ExtendWithoutWrite(a0: Store, h: seq<Event>, s: State, t: Tid, op: Op, env: Env, reply: Reply)
    requires Explains(a0, h, s) && s.owner == Some(t) && Flying(PcOf(s, t)) && op == PcOf(s, t).op
    requires WellTimed(env) && env.find == PcOf(s, t).env.find && env.alloc <= s.clock
    requires var e := Called(t, op, env, reply);
             Explained(Final(a0, h), e) && Effect(Final(a0, h), e) == Final(a0, h)
    ensures Explains(a0, h + ([Called(t, op, env, reply)] + (if s.gap then [Evicted(op.key)] else [])),
                     Finish(s, t, op, env, reply))
  {
    hide Effect, Explained, Legal, Final, Observed, ClocksInOrder, AllBefore;
    var e := Called(t, op, env, reply);
    var mid := Finish(s, t, op, env, reply).(store := Final(a0, h));
    CompleteWithoutWrite(a0, h, s, t, op, env, reply);
    if s.gap {
      EvictWhenGrounded(a0, h + [e], mid, op.key);
      assert h + [e] + [Evicted(op.key)] == h + ([e] + [Evicted(op.key)]);
      assert mid.(store := mid.store - {op.key}) == Finish(s, t, op, env, reply);
    } else {
      assert [e] + [] == [e];
      assert mid == Finish(s, t, op, env, reply);
    }
  }

  lemma ExtendSet(a0: Store, h: seq<Event>, s: State, key: Key, value: Value, ttl: uint32, stamp: uint32, stored: bool)
    requires var step := Set(key, value, ttl, stamp, stored);
             Enabled(s, step) && Clear(s, step)
    requires Explains(a0, h, s)
    ensures var step := Set(key, value, ttl, stamp, stored);
            Explains(a0, h + Emit(s, step), Next(s, step))
  {
    hide Plan, Legal, Observed, ClocksInOrder;
    var step := Set(key, value, ttl, stamp, stored);
    var e := PlainSet(key, value, ttl, stamp, stored);
    assert Completed(s, step) == [e] && Emit(s, step) == [e];
    Extend(a0, h, e, s, Next(s, step));
  }

  lemma ExtendRemove(a0: Store, h: seq<Event>, s: State, key: Key)
    requires Clear(s, Remove(key)) && Explains(a0, h, s)
    ensures Explains(a0, h + Emit(s, Remove(key)), Next(s, Remove(key)))
  {
    hide Plan, Legal, Observed, ClocksInOrder;
    var e := PlainRemove(key, key in s.store);
    assert Completed(s, Remove(key)) == [e] && Emit(s, Remove(key)) == [e];
    Extend(a0, h, e, s, Next(s, Remove(key)));
  }

  lemma ExtendGet(a0: Store, h: seq<Event>, s: State, key: Key)
    requires Clear(s, Get(key)) && Explains(a0, h, s)
    ensures Explains(a0, h + Emit(s, Get(key)), Next(s, Get(key)))
  {
    hide Plan, Legal, Observed, ClocksInOrder;
    var e := PlainGet(key, s.clock, Find(s.store, key, s.clock));
    assert Completed(s, Get(key)) == [e] && Emit(s, Get(key)) == [e];
    Extend(a0, h, e, s, Next(s, Get(key)));
  }

  lemma ExtendRefuse(a0: Store, h: seq<Event>, s: State, t: Tid)
    requires Enabled(s, Refuse(t)) && s.owner != Some(t) && Explains(a0, h, s)
    ensures Explains(a0, h + Emit(s, Refuse(t)), Next(s, Refuse(t)))
  {
    var s' := Next(s, Refuse(t));
    var e := Called(t, PcOf(s, t).op, Env(s.clock, s.clock, s.clock, false), CountReply(false, 0, CannotNegate));
    assert Completed(s, Refuse(t)) == [e] && Emit(s, Refuse(t)) == [e];
    assert FlightOf(s') == FlightOf(s);
    Extend(a0, h, e, s, s');
  }

  lemma ExtendEvict(a0: Store, h: seq<Event>, s: State, key: Key)
    requires Explains(a0, h, s)
    ensures Explains(a0, h + Emit(s, Evict(key)), Next(s, Evict(key)))
  {
    hide Legal, Observed, ClocksInOrder, Plan;
    var s' := Next(s, Evict(key));
    assert FlightOf(s') == FlightOf(s);
    if InFlight(s, key) {
      assert h + [] == h;
    } else {
      Extend(a0, h, Evicted(key), s, s');
    }
  }

  lemma AnswerExplained(a: Store, op: Op, env: Env, tid: Tid)
    requires Plan(op, Find(a, op.key, env.find), env.now).Answer?
    ensures var e := Called(tid, op, env, Plan(op, Find(a, op.key, env.find), env.now).reply);
            Explained(a, e) && Effect(a, e) == a
  {
  }

  lemma FailureExplained(a: Store, op: Op, env: Env, tid: Tid)
    requires Plan(op, Find(a, op.key, env.find), env.now).Write? && !env.stored
    ensures var e := Called(tid, op, env, Plan(op, Find(a, op.key, env.find), env.now).failed);
            Explained(a, e) && Effect(a, e) == a
  {
  }

  /** What a step emits when it completes an operation without a write. */
  lemma EmitOfFinish(s: State, step: Step, t: Tid, op: Op, env: Env, reply: Reply)
    requires Enabled(s, step) && !step.Evict? && !step.Insert?
    requires s.owner == Some(t) && Flying(PcOf(s, t)) && op == PcOf(s, t).op
    requires Next(s, step) == Finish(s, t, op, env, reply)
    ensures Emit(s, step) == [Called(t, op, env, reply)] + (if s.gap then [Evicted(op.key)] else [])
  {
    assert Completed(s, step) == [Called(t, op, env, reply)];
  }

  lemma ExtendDecide(a0: Store, h: seq<Event>, s: State, t: Tid)
    requires PcOf(s, t).Found? && s.owner == Some(t) && Explains(a0, h, s)
    requires WellTimed(PcOf(s, t).env) && PcOf(s, t).env.alloc <= s.clock
    requires Plan(PcOf(s, t).op, PcOf(s, t).found, s.clock).Answer?
    ensures Explains(a0, h + Emit(s, Decide(t)), Next(s, Decide(t)))
  {
    var pc := PcOf(s, t);
    var env := pc.env.(now := s.clock, alloc := s.clock);
    var reply := Plan(pc.op, pc.found, s.clock).reply;
    AnswerExplained(Final(a0, h), pc.op, env, t);
    ExtendWithoutWrite(a0, h, s, t, pc.op, env, reply);
    EmitOfFinish(s, Decide(t), t, pc.op, env, reply);
  }

  lemma ExtendFailure(a0: Store, h: seq<Event>, s: State, t: Tid)
    requires Enabled(s, Allocate(t, false)) && s.owner == Some(t) && Explains(a0, h, s)
    requires WellTimed(PcOf(s, t).env) && PcOf(s, t).env.alloc <= s.clock
    ensures Explains(a0, h + Emit(s, Allocate(t, false)), Next(s, Allocate(t, false)))
  {
    var pc := PcOf(s, t);
    var env := pc.env.(alloc := s.clock, stored := false);
    var reply := PlanOf(pc).failed;
    FailureExplained(Final(a0, h), pc.op, env, t);
    ExtendWithoutWrite(a0, h, s, t, pc.op, env, reply);
    EmitOfFinish(s, Allocate(t, false), t, pc.op, env, reply);
  }

  lemma StoreExplained(a: Store, op: Op, env: Env, tid: Tid)
    requires Plan(op, Find(a, op.key, env.find), env.now).Write? && env.stored
    ensures var plan := Plan(op, Find(a, op.key, env.find), env.now);
            var e := Called(tid, op, env, plan.stored);
            Explained(a, e) && Effect(a, e) == a[op.key := Stamp(plan.value, plan.ttl, plan.creation, env.alloc)]
  {
  }

  /** The write lands on the same store, evicted in flight or not. */
  lemma InsertSimulates(s: State, t: Tid, a: Store)
    requires PcOf(s, t).Allocated? && s.owner == Some(t) && Enabled(s, Insert(t)) && Simulates(s, a)
    ensures Simulates(Next(s, Insert(t)), a[PcOf(s, t).op.key := PcOf(s, t).item])
  {
    var pc := PcOf(s, t);
    assert (a - {pc.op.key})[pc.op.key := pc.item] == a[pc.op.key := pc.item];
  }

  lemma EmitOfInsert(s: State, t: Tid)
    requires Enabled(s, Insert(t))
    ensures var pc := PcOf(s, t);
            Emit(s, Insert(t)) == [Called(t, pc.op, pc.env, PlanOf(pc).stored)]
  {
    var pc := PcOf(s, t);
    assert Completed(s, Insert(t)) == [Called(t, pc.op, pc.env, PlanOf(pc).stored)];
  }

  lemma ExtendInsert(a0: Store, h: seq<Event>, s: State, t: Tid)
    requires PcOf(s, t).Allocated? && s.owner == Some(t) && PcOk(s, PcOf(s, t)) && Explains(a0, h, s)
    ensures Explains(a0, h + Emit(s, Insert(t)), Next(s, Insert(t)))
  {
    var a, s', pc := Final(a0, h), Next(s, Insert(t)), PcOf(s, t);
    var e := Called(t, pc.op, pc.env, PlanOf(pc).stored);
    StoreExplained(a, pc.op, pc.env, t);
    InsertSimulates(s, t, a);
    BeforeLater(h, Since(s), s.clock);
    assert Since(s') == s.clock;
    Extend(a0, h, e, s, s');
    EmitOfInsert(s, t);
  }

  lemma QuietSimulates(s: State, step: Step, a: Store)
    requires Inv(s) && Enabled(s, step) && Simulates(s, a)
    requires !step.Evict? && Next(s, step).log == s.log
    ensures Simulates(Next(s, step), a) && Emit(s, step) == []
  {
    hide Plan, Stamp;
    assert Completed(s, step) == [];
  }

  lemma ExtendQuiet(a0: Store, h: seq<Event>, s: State, step: Step)
    requires Inv(s) && Enabled(s, step) && Explains(a0, h, s)
    requires !step.Evict? && Next(s, step).log == s.log
    ensures Explains(a0, h + Emit(s, step), Next(s, step))
  {
    QuietSimulates(s, step, Final(a0, h));
    assert h + [] == h;
    SinceOnlyGrows(s, step);
    BeforeLater(h, Since(s), Since(Next(s, step)));
  }

  lemma StepExplained(a0: Store, h: seq<Event>, s: State, step: Step)
    requires Inv(s) && Enabled(s, step) && Clear(s, step) && Explains(a0, h, s)
    ensures Explains(a0, h + Emit(s, step), Next(s, step))
  {
    hide Plan, Stamp, Find, Explains;
    match step
    case Evict(key) => ExtendEvict(a0, h, s, key);
    case Decide(t) =>
      if Plan(PcOf(s, t).op, PcOf(s, t).found, s.clock).Answer? { ExtendDecide(a0, h, s, t); }
      else { ExtendQuiet(a0, h, s, step); }
    case Allocate(t, stored) =>
      if stored { ExtendQuiet(a0, h, s, step); } else { ExtendFailure(a0, h, s, t); }
    case Insert(t) => ExtendInsert(a0, h, s, t);
    case Set(key, value, ttl, stamp, stored) => ExtendSet(a0, h, s, key, value, ttl, stamp, stored);
    case Remove(key) => ExtendRemove(a0, h, s, key);
    case Get(key) => ExtendGet(a0, h, s, key);
    case Refuse(t) => ExtendRefuse(a0, h, s, t);
    case _ => ExtendQuiet(a0, h, s, step);
  }

  lemma {:induction false} RunExplained(states: seq<State>, steps: seq<Step>)
    requires Run(states, steps) && Undisturbed(states, steps)
    ensures Explains(states[0].store, Serialize(states, steps), Last(states))
    decreases |steps|
  {
    if steps != [] {
      var n := |steps| - 1;
      RunPrefix(states, steps);
      RunExplained(states[..n + 1], steps[..n]);
      Reachable(states, steps, n);
      StepExplained(states[0].store, Serialize(states[..n + 1], steps[..n]), states[n], steps[n]);
    }
  }

  lemma CompletedIsSeen(s: State, step: Step, e: Event)
    requires Enabled(s, step) && e in Completed(s, step)
    ensures !e.Evicted?
  {
    hide Plan, Stamp, Find;
  }

  lemma EmittedEvictions(s: State, step: Step, e: Event)
    requires Inv(s) && Enabled(s, step) && e in Emit(s, step) && e.Evicted?
    ensures step == Evict(e.key) || (s.gap && FlightOf(s).op.key == e.key)
  {
    hide Inv, Next, Enabled, Completed;
    if e in Completed(s, step) { CompletedIsSeen(s, step, e); }
  }

  lemma GapKeepsKey(s: State, step: Step)
    requires Inv(s) && Enabled(s, step) && Next(s, step).gap
    ensures Flying(FlightOf(Next(s, step)))
    ensures step == Evict(FlightOf(Next(s, step)).op.key)
            || (s.gap && FlightOf(Next(s, step)).op.key == FlightOf(s).op.key)
  {
    hide Plan, Stamp, Find, LockedCalls, StoreOk;
  }

  /** The evictions of the sequential history happened in the run. */
  lemma {:induction false} EvictionsHappened(states: seq<State>, steps: seq<Step>)
    requires Run(states, steps)
    ensures forall e :: e in Serialize(states, steps) && e.Evicted? ==> Evict(e.key) in steps
    ensures Last(states).gap && Flying(FlightOf(Last(states))) ==> Evict(FlightOf(Last(states)).op.key) in steps
    decreases |steps|
  {
    if steps != [] {
      var n := |steps| - 1;
      RunPrefix(states, steps);
      EvictionsHappened(states[..n + 1], steps[..n]);
      Reachable(states, steps, n);
      var s, step := states[n], steps[n];
      assert Last(states[..n + 1]) == s && step in steps;
      assert forall k :: Evict(k) in steps[..n] ==> Evict(k) in steps;
      forall e | e in Emit(s, step) && e.Evicted? ensures Evict(e.key) in steps {
        EmittedEvictions(s, step, e);
      }
      if Next(s, step).gap { GapKeepsKey(s, step); }
    }
  }

  /** Serialisability: whenever nobody holds the mutex, the replies given so far
      and the store are those of executing, one at a time, the locked calls in
      lock order, with their clock readings in order. Unlocked calls take part
      as long as they stay clear of a key in flight; evictions and clock ticks
      may happen anywhere, also inside the critical section, and the evictions of
      the sequential history are evictions of the run. */
  lemma Serializable(states: seq<State>, steps: seq<Step>)
    requires Run(states, steps) && Undisturbed(states, steps) && Last(states).owner.None?
    ensures var h, s := Serialize(states, steps), Last(states);
            && Legal(states[0].store, h) && Final(states[0].store, h) == s.store
            && Observed(h) == s.log
            && LockedCalls(s.log) == s.lockOrder
            && ClocksInOrder(h)
            && (forall e :: e in h && e.Evicted? ==> Evict(e.key) in steps)
  {
    EvictionsHappened(states, steps);
    RunExplained(states, steps);
    CompletionIsLockOrder(states, steps, |steps|);
  }
}
