/** The converse of serialisability: whenever the mutex is free, any call can run
    to its end and then does exactly what it does alone. */
module Progress {

  import opened Options
  import opened CacheStore
  import opened Histories
  import opened Protocol

  lemma ThenStep(states: seq<State>, steps: seq<Step>, step: Step) returns (states': seq<State>, steps': seq<Step>)
    requires Run(states, steps) && Enabled(Last(states), step)
    ensures Run(states', steps') && Last(states') == Next(Last(states), step)
  {
    hide Next, Enabled, Initial;
    states', steps' := states + [Next(Last(states), step)], steps + [step];
  }

  /** The outcome of one more call by `t`: what the call does alone at this second. */
  ghost predicate CallDone(s: State, s': State, t: Tid, op: Op, stored: bool) {
    var (after, reply) := Exec(s.store, op, Env(s.clock, s.clock, s.clock, stored));
    && s'.store == after && s'.clock == s.clock && s'.owner.None? && PcOf(s', t).Idle?
    && |s'.log| == |s.log| + 1 && s'.log[..|s.log|] == s.log
    && var e := s'.log[|s.log|]; e.Called? && e.tid == t && e.op == op && e.reply == reply
  }

  lemma RefusedDone(s: State, t: Tid, op: Op, stored: bool)
    requires PcOf(s, t).Idle? && s.owner.None? && !TakesLock(op)
    ensures var s1 := Next(s, Call(t, op));
            Enabled(s1, Refuse(t)) && CallDone(s, Next(s1, Refuse(t)), t, op, stored)
  {
    CannotNegateOutcome(s.store, op.key, op.ttl, Env(s.clock, s.clock, s.clock, stored));
  }

  /** The call has the mutex and has looked its key up. */
  function Looked(s: State, t: Tid, op: Op): State {
    s.(owner := Some(t), lockOrder := s.lockOrder + [(t, op)],
       pcs := s.pcs[t := Found(op, Find(s.store, op.key, s.clock), Env(s.clock, s.clock, s.clock, false))])
  }

  lemma LookSteps(s: State, t: Tid, op: Op)
    requires PcOf(s, t).Idle? && s.owner.None? && TakesLock(op)
    ensures var s1 := Next(s, Call(t, op));
            && Enabled(s1, Lock(t))
            && var s2 := Next(s1, Lock(t));
            Enabled(s2, Look(t)) && Next(s2, Look(t)) == Looked(s, t, op)
  {
    hide Find;
    var pc1, pc2 := Calling(op), Holding(op);
    assert s.pcs[t := pc1][t := pc2][t := Looked(s, t, op).pcs[t]] == Looked(s, t, op).pcs;
  }

  lemma AnswerDone(s: State, t: Tid, op: Op, stored: bool)
    requires TakesLock(op) && Plan(op, Find(s.store, op.key, s.clock), s.clock).Answer?
    ensures var s3 := Looked(s, t, op);
            && Enabled(s3, Decide(t))
            && var s4 := Next(s3, Decide(t));
            Enabled(s4, Unlock(t)) && CallDone(s, Next(s4, Unlock(t)), t, op, stored)
  {
    hide Plan, Find;
  }

  /** The plan is made and the write is next. */
  function Decided(s: State, t: Tid, op: Op): State {
    var s3 := Looked(s, t, op);
    s3.(pcs := s3.pcs[t := Planned(op, Find(s.store, op.key, s.clock), Env(s.clock, s.clock, s.clock, false))])
  }

  lemma DecideStep(s: State, t: Tid, op: Op)
    requires Plan(op, Find(s.store, op.key, s.clock), s.clock).Write?
    ensures var s3 := Looked(s, t, op);
            Enabled(s3, Decide(t)) && Next(s3, Decide(t)) == Decided(s, t, op)
  {
    hide Plan, Find;
  }

  lemma FailureDone(s: State, t: Tid, op: Op)
    requires Plan(op, Find(s.store, op.key, s.clock), s.clock).Write?
    ensures var s4 := Decided(s, t, op);
            && Enabled(s4, Allocate(t, false))
            && var s5 := Next(s4, Allocate(t, false));
            Enabled(s5, Unlock(t)) && CallDone(s, Next(s5, Unlock(t)), t, op, false)
  {
    hide Plan, Find, Stamp;
  }

  lemma WriteDone(s: State, t: Tid, op: Op)
    requires Plan(op, Find(s.store, op.key, s.clock), s.clock).Write?
    ensures var s4 := Decided(s, t, op);
            && Enabled(s4, Allocate(t, true))
            && var s5 := Next(s4, Allocate(t, true));
            && Enabled(s5, Insert(t))
            && var s6 := Next(s5, Insert(t));
            Enabled(s6, Unlock(t)) && CallDone(s, Next(s6, Unlock(t)), t, op, true)
  {
    hide Plan, Find, Stamp;
  }

  /** From any state of any run in which the mutex is free and the thread idle,
      any call, with either outcome of its allocation, can complete; the reply and
      the store are those of the call executed alone, and the mutex is free again. */
  lemma CallsCanComplete(states: seq<State>, steps: seq<Step>, t: Tid, op: Op, stored: bool)
    returns (states': seq<State>, steps': seq<Step>)
    requires Run(states, steps) && Last(states).owner.None? && PcOf(Last(states), t).Idle?
    ensures Run(states', steps') && CallDone(Last(states), Last(states'), t, op, stored)
  {
    hide Plan, Find, Stamp, CallDone, Exec, TakesLock, Initial;
    var s := Last(states);
    states', steps' := ThenStep(states, steps, Call(t, op));
    if !TakesLock(op) {
      RefusedDone(s, t, op, stored);
      states', steps' := ThenStep(states', steps', Refuse(t));
      return;
    }
    LookSteps(s, t, op);
    hide Next, Enabled;
    states', steps' := ThenStep(states', steps', Lock(t));
    states', steps' := ThenStep(states', steps', Look(t));
    if Plan(op, Find(s.store, op.key, s.clock), s.clock).Answer? {
      AnswerDone(s, t, op, stored);
      states', steps' := ThenStep(states', steps', Decide(t));
    } else {
      DecideStep(s, t, op);
      states', steps' := ThenStep(states', steps', Decide(t));
      if stored {
        WriteDone(s, t, op);
        states', steps' := ThenStep(states', steps', Allocate(t, true));
        states', steps' := ThenStep(states', steps', Insert(t));
      } else {
        FailureDone(s, t, op);
        states', steps' := ThenStep(states', steps', Allocate(t, false));
      }
    }
    states', steps' := ThenStep(states', steps', Unlock(t));
  }
}
