/** The read-modify-write protocol of CacheManager as a step machine: any number
    of threads, one mutex, a shared store, a clock that never goes back, plain
    operations that do not take the mutex, and evictions at any moment. */
module Protocol {

  import opened Options
  import opened CacheStore
  import opened Histories

  type Tid = nat

  /** Where a thread is inside an atomic operation. The handle returned by find
      keeps the item it found, whatever happens to the table afterwards. */
  datatype Pc =
    | Idle
    | Calling(op: Op)
    | Holding(op: Op)
    | Found(op: Op, found: Option<Item>, env: Env)
    | Planned(op: Op, found: Option<Item>, env: Env)
    | Allocated(op: Op, found: Option<Item>, env: Env, item: Item)
    | Done(op: Op, reply: Reply)

  /** `log` lists the completed calls; `lockOrder` the calls in the order they
      took the mutex; `gap` is set while the key of the operation between its
      find and its write has been evicted. The three only record. */
  datatype State = State(store: Store, clock: uint32, owner: Option<Tid>, pcs: map<Tid, Pc>,
                         log: seq<Event>, lockOrder: seq<(Tid, Op)>, gap: bool)

  datatype Step =
    | Tick(now: uint32)
    | Evict(key: Key)
    | Set(key: Key, value: Value, ttl: uint32, stamp: uint32, stored: bool)
    | Remove(key: Key)
    | Get(key: Key)
    | Call(t: Tid, op: Op)
    | Refuse(t: Tid)
    | Lock(t: Tid)
    | Look(t: Tid)
    | Decide(t: Tid)
    | Allocate(t: Tid, stored: bool)
    | Insert(t: Tid)
    | Unlock(t: Tid)

  function PcOf(s: State, t: Tid): Pc { if t in s.pcs then s.pcs[t] else Idle }

  predicate InCritical(pc: Pc) { !pc.Idle? && !pc.Calling? }

  /** The operation between its find and its write, if any. */
  predicate Flying(pc: Pc) { pc.Found? || pc.Planned? || pc.Allocated? }

  function FlightOf(s: State): (pc: Pc)
    ensures Flying(pc) || pc.Idle?
  {
    if s.owner.Some? && Flying(PcOf(s, s.owner.value)) then PcOf(s, s.owner.value) else Idle
  }

  predicate InFlight(s: State, key: Key) { Flying(FlightOf(s)) && FlightOf(s).op.key == key }

  predicate Enabled(s: State, step: Step) {
    match step
    case Tick(now) => s.clock <= now
    case Evict(_) => true
    case Set(_, _, _, stamp, _) => 0 < stamp <= s.clock
    case Remove(_) => true
    case Get(_) => true
    case Call(t, _) => PcOf(s, t).Idle?
    case Refuse(t) => PcOf(s, t).Calling? && !TakesLock(PcOf(s, t).op)
    case Lock(t) => PcOf(s, t).Calling? && TakesLock(PcOf(s, t).op) && s.owner.None?
    case Look(t) => PcOf(s, t).Holding?
    case Decide(t) => PcOf(s, t).Found?
    case Allocate(t, _) => PcOf(s, t).Planned? && PlanOf(PcOf(s, t)).Write?
    case Insert(t) => PcOf(s, t).Allocated? && PlanOf(PcOf(s, t)).Write?
    case Unlock(t) => PcOf(s, t).Done? && s.owner == Some(t)
  }

  function PlanOf(pc: Pc): Decision
    requires Flying(pc)
  {
    Plan(pc.op, pc.found, pc.env.now)
  }

  function Finish(s: State, t: Tid, op: Op, env: Env, reply: Reply): State {
    s.(pcs := s.pcs[t := Done(op, reply)], log := s.log + [Called(t, op, env, reply)], gap := false)
  }

  function Next(s: State, step: Step): State
    requires Enabled(s, step)
  {
    match step
    case Tick(now) => s.(clock := now)
    case Evict(key) => s.(store := s.store - {key}, gap := s.gap || InFlight(s, key))
    case Set(key, value, ttl, stamp, stored) =>
      s.(store := if stored then s.store[key := Stamp(value, ttl, 0, stamp)] else s.store,
         log := s.log + [PlainSet(key, value, ttl, stamp, stored)])
    case Remove(key) =>
      s.(store := s.store - {key}, log := s.log + [PlainRemove(key, key in s.store)])
    case Get(key) =>
      s.(log := s.log + [PlainGet(key, s.clock, Find(s.store, key, s.clock))])
    case Call(t, op) => s.(pcs := s.pcs[t := Calling(op)])
    case Refuse(t) =>
      var op := PcOf(s, t).op;
      var reply := CountReply(false, 0, CannotNegate);
      s.(pcs := s.pcs[t := Idle], log := s.log + [Called(t, op, Env(s.clock, s.clock, s.clock, false), reply)])
    case Lock(t) =>
      var op := PcOf(s, t).op;
      s.(pcs := s.pcs[t := Holding(op)], owner := Some(t), lockOrder := s.lockOrder + [(t, op)])
    case Look(t) =>
      var op := PcOf(s, t).op;
      s.(pcs := s.pcs[t := Found(op, Find(s.store, op.key, s.clock), Env(s.clock, s.clock, s.clock, false))])
    case Decide(t) =>
      var pc := PcOf(s, t);
      var env := pc.env.(now := s.clock, alloc := s.clock);
      var plan := Plan(pc.op, pc.found, s.clock);
      if plan.Answer? then Finish(s, t, pc.op, env, plan.reply)
      else s.(pcs := s.pcs[t := Planned(pc.op, pc.found, env)])
    case Allocate(t, stored) =>
      var pc := PcOf(s, t);
      var plan := PlanOf(pc);
      var env := pc.env.(alloc := s.clock, stored := stored);
      if !stored then Finish(s, t, pc.op, env, plan.failed)
      else s.(pcs := s.pcs[t := Allocated(pc.op, pc.found, env,
                                          Stamp(plan.value, plan.ttl, plan.creation, s.clock))])
    case Insert(t) =>
      var pc := PcOf(s, t);
      Finish(s.(store := s.store[pc.op.key := pc.item]), t, pc.op, pc.env, PlanOf(pc).stored)
    case Unlock(t) => s.(pcs := s.pcs[t := Idle], owner := None)
  }

  // ----- runs -----

  ghost predicate Initial(s: State) {
    && s.clock > 0 && s.owner.None? && s.pcs == map[] && s.log == [] && s.lockOrder == [] && !s.gap
    && StoreOk(s.store)
  }

  /** A run: `states` threaded through `steps`, from an initial state. */
  ghost predicate Run(states: seq<State>, steps: seq<Step>) {
    && |states| == |steps| + 1
    && Initial(states[0])
    && forall i :: 0 <= i < |steps| ==> Enabled(states[i], steps[i]) && states[i + 1] == Next(states[i], steps[i])
  }

  function Last(states: seq<State>): State
    requires states != []
  {
    states[|states| - 1]
  }

  lemma RunPrefix(states: seq<State>, steps: seq<Step>)
    requires Run(states, steps) && steps != []
    ensures Run(states[..|steps|], steps[..|steps| - 1])
  {
  }

  // ----- what every reachable state keeps -----

  /** The calls that hold the mutex and have not completed. */
  function Pending(s: State): seq<(Tid, Op)> {
    if s.owner.None? then []
    else
      var pc := PcOf(s, s.owner.value);
      if pc.Holding? || Flying(pc) then [(s.owner.value, pc.op)] else []
  }

  predicate PcOk(s: State, pc: Pc) {
    && (Flying(pc) ==>
          TakesLock(pc.op) && WellTimed(pc.env) && pc.env.alloc <= s.clock
          && (pc.found.Some? ==> ItemOk(pc.found.value)))
    && (pc.Holding? ==> TakesLock(pc.op))
    && (pc.Planned? || pc.Allocated? ==> PlanOf(pc).Write?)
    && (pc.Allocated? ==>
          && pc.env.stored
          && pc.item == Stamp(PlanOf(pc).value, PlanOf(pc).ttl, PlanOf(pc).creation, pc.env.alloc))
  }

  ghost predicate Inv(s: State) {
    && s.clock > 0 && StoreOk(s.store)
    && (forall t: Tid :: InCritical(PcOf(s, t)) <==> s.owner == Some(t))
    && (forall t: Tid :: PcOk(s, PcOf(s, t)))
    && (s.gap ==> Flying(FlightOf(s)))
    && s.lockOrder == LockedCalls(s.log) + Pending(s)
  }

  lemma InitialInv(s: State)
    requires Initial(s)
    ensures Inv(s)
  {
  }

  lemma StepKeepsStore(s: State, step: Step)
    requires Inv(s) && Enabled(s, step)
    ensures StoreOk(Next(s, step).store)
  {
    hide Plan;
    match step
    case Set(key, value, ttl, stamp, stored) => StampOk(value, ttl, 0, stamp);
    case Insert(t) =>
      var pc := PcOf(s, t);
      StampOk(PlanOf(pc).value, PlanOf(pc).ttl, PlanOf(pc).creation, pc.env.alloc);
    case _ =>
  }

  lemma StepKeepsThreads(s: State, step: Step)
    requires Inv(s) && Enabled(s, step)
    ensures var s' := Next(s, step);
            && (forall t: Tid :: InCritical(PcOf(s', t)) <==> s'.owner == Some(t))
            && (forall t: Tid :: PcOk(s', PcOf(s', t)))
            && (s'.gap ==> Flying(FlightOf(s')))
  {
    hide Plan, Stamp, LockedCalls, Pending;
  }

  lemma FinishKeepsOrder(s: State, t: Tid, env: Env, reply: Reply)
    requires Inv(s) && s.owner == Some(t) && Flying(PcOf(s, t))
    ensures var s' := Finish(s, t, PcOf(s, t).op, env, reply);
            s'.lockOrder == LockedCalls(s'.log) + Pending(s')
  {
    FinalSnoc(map[], s.log, Called(t, PcOf(s, t).op, env, reply));
  }

  lemma PlainKeepsOrder(s: State, s': State, e: Event)
    requires Inv(s) && !IsLocked(e)
    requires s'.log == s.log + [e] && s'.lockOrder == s.lockOrder && Pending(s') == Pending(s)
    ensures s'.lockOrder == LockedCalls(s'.log) + Pending(s')
  {
    FinalSnoc(map[], s.log, e);
  }

  lemma StepKeepsOrder(s: State, step: Step)
    requires Inv(s) && Enabled(s, step)
    ensures var s' := Next(s, step);
            s'.lockOrder == LockedCalls(s'.log) + Pending(s')
  {
    hide Plan, Stamp, Find, LockedCalls;
    var s' := Next(s, step);
    match step
    case Set(_, _, _, _, _) => PlainKeepsOrder(s, s', s'.log[|s.log|]);
    case Remove(_) => PlainKeepsOrder(s, s', s'.log[|s.log|]);
    case Get(_) => PlainKeepsOrder(s, s', s'.log[|s.log|]);
    case Refuse(t) => PlainKeepsOrder(s, s', s'.log[|s.log|]);
    case Decide(t) =>
      var env, plan := PcOf(s, t).env.(now := s.clock, alloc := s.clock), Plan(PcOf(s, t).op, PcOf(s, t).found, s.clock);
      if plan.Answer? { FinishKeepsOrder(s, t, env, plan.reply); }
    case Allocate(t, stored) =>
      if !stored {
        FinishKeepsOrder(s, t, PcOf(s, t).env.(alloc := s.clock, stored := false), PlanOf(PcOf(s, t)).failed);
      }
    case Insert(t) => FinishKeepsOrder(s, t, PcOf(s, t).env, PlanOf(PcOf(s, t)).stored);
    case _ =>
  }

  lemma StepKeepsInv(s: State, step: Step)
    requires Inv(s) && Enabled(s, step)
    ensures Inv(Next(s, step))
  {
    StepKeepsStore(s, step);
    StepKeepsThreads(s, step);
    StepKeepsOrder(s, step);
  }

  lemma {:induction false} Reachable(states: seq<State>, steps: seq<Step>, i: nat)
    requires Run(states, steps) && i < |states|
    ensures Inv(states[i])
  {
    if i == 0 {
      InitialInv(states[0]);
    } else {
      Reachable(states, steps, i - 1);
      StepKeepsInv(states[i - 1], steps[i - 1]);
    }
  }

  /** Mutual exclusion, in every state of every run. */
  lemma MutualExclusion(states: seq<State>, steps: seq<Step>, i: nat, t: Tid, u: Tid)
    requires Run(states, steps) && i < |states|
    requires InCritical(PcOf(states[i], t)) && InCritical(PcOf(states[i], u))
    ensures t == u && states[i].owner == Some(t)
  {
    Reachable(states, steps, i);
  }

  /** Calls complete in the order in which they took the mutex. */
  lemma CompletionIsLockOrder(states: seq<State>, steps: seq<Step>, i: nat)
    requires Run(states, steps) && i < |states|
    ensures LockedCalls(states[i].log) <= states[i].lockOrder
    ensures |states[i].lockOrder| <= |LockedCalls(states[i].log)| + 1
    ensures states[i].owner.None? ==> LockedCalls(states[i].log) == states[i].lockOrder
  {
    Reachable(states, steps, i);
  }
}
