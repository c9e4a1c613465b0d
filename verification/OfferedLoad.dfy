/** The load generator: open-loop arrivals into a bounded queue, the samples of
    the workers that drain it, and the one-pass key indices. */
module OfferedLoad {

  import opened Arithmetic
  import opened Options
  import opened Operations

  const SECOND := 1_000_000_000

  /** Nanoseconds between arrivals. */
  function Interval(rate: nat): nat
    requires rate >= 1
  {
    SECOND / rate
  }

  function Capacity(rate: nat): nat { if rate / 2 > 1024 then rate / 2 else 1024 }

  /** Arrival `arrivals` is the next one; `dropped`, `queue`, `inFlight` and
      `completed` hold arrival indices. `parts` are the counters of the workers;
      `samples` only records the samples in the order of completion. */
  datatype State = State(arrivals: nat, queue: seq<nat>, inFlight: multiset<nat>,
                         completed: multiset<nat>, dropped: multiset<nat>, closed: bool,
                         parts: seq<Phase>, samples: seq<Sample>)

  /** A worker finishes a job with what the backend answered; `draw` is the number
      it drew from the shared counter in the one-pass pattern. */
  datatype Step = Arrive | Take | Finish(job: nat, worker: nat, draw: nat, backend: Backend) | Close

  predicate Enabled(s: State, step: Step, o: Setup)
    requires Valid(o)
  {
    match step
    case Arrive => !s.closed && s.arrivals * Interval(o.rate) < o.duration
    case Take => s.queue != []
    case Finish(job, worker, _, backend) => job in s.inFlight && worker < |s.parts| && Answers(o, backend)
    case Close => !s.closed && s.arrivals * Interval(o.rate) >= o.duration
  }

  function SampleOf(step: Step, o: Setup): Sample
    requires step.Finish?
  {
    Measure(o, if o.onePass then step.draw else step.job, step.backend)
  }

  function Next(s: State, step: Step, o: Setup): State
    requires Valid(o) && Enabled(s, step, o)
  {
    match step
    case Arrive =>
      if |s.queue| < Capacity(o.rate)
      then s.(arrivals := s.arrivals + 1, queue := s.queue + [s.arrivals])
      else s.(arrivals := s.arrivals + 1, dropped := s.dropped + multiset{s.arrivals})
    case Take => s.(queue := s.queue[1..], inFlight := s.inFlight + multiset{s.queue[0]})
    case Finish(job, w, _, _) =>
      s.(inFlight := s.inFlight - multiset{job}, completed := s.completed + multiset{job},
         parts := s.parts[w := Record(s.parts[w], SampleOf(step, o))], samples := s.samples + [SampleOf(step, o)])
    case Close => s.(closed := true)
  }

  function Start(o: Setup): State {
    State(0, [], multiset{}, multiset{}, multiset{}, false, seq(o.workers, _ => EMPTY), [])
  }

  ghost predicate Run(states: seq<State>, steps: seq<Step>, o: Setup) {
    && Valid(o) && |states| == |steps| + 1 && states[0] == Start(o)
    && forall i :: 0 <= i < |steps| ==> Enabled(states[i], steps[i], o) && states[i + 1] == Next(states[i], steps[i], o)
  }

  // ----- arrivals -----

  /** Every scheduled arrival is in exactly one place, once. */
  ghost predicate Conserved(s: State) {
    forall x: nat :: multiset(s.queue)[x] + s.inFlight[x] + s.completed[x] + s.dropped[x]
                     == if x < s.arrivals then 1 else 0
  }

  lemma {:induction false} SizeOfInitialSegment(m: multiset<nat>, n: nat)
    requires forall x: nat :: m[x] == if x < n then 1 else 0
    ensures |m| == n
  {
    if n == 0 {
      assert m == multiset{};
    } else {
      SizeOfInitialSegment(m - multiset{n - 1}, n - 1);
      assert m == (m - multiset{n - 1}) + multiset{n - 1};
    }
  }

  /** The workers' counters together are the samples recorded by one. */
  ghost predicate Booked(s: State, o: Setup) {
    && Sum(s.parts) == Total(s.samples) && |s.samples| == |s.completed| && |s.parts| == o.workers
    && forall i :: 0 <= i < |s.samples| ==> Accounted(s.samples[i], o)
  }

  /** The queue holds arrivals in the order in which they were due. */
  ghost predicate InOrder(s: State) {
    && (forall i :: 0 <= i < |s.queue| ==> s.queue[i] < s.arrivals)
    && (forall i, j :: 0 <= i < j < |s.queue| ==> s.queue[i] < s.queue[j])
  }

  ghost predicate Inv(s: State, o: Setup)
    requires Valid(o)
  {
    && Conserved(s) && Booked(s, o) && InOrder(s) && |s.queue| <= Capacity(o.rate)
    && (s.closed ==> s.arrivals * Interval(o.rate) >= o.duration)
    && (s.arrivals > 0 ==> (s.arrivals - 1) * Interval(o.rate) < o.duration)
  }

  lemma TakeConserves(s: State, o: Setup)
    requires Valid(o) && Conserved(s) && Enabled(s, Take, o)
    ensures Conserved(Next(s, Take, o))
  {
    var s' := Next(s, Take, o);
    assert s.queue == [s.queue[0]] + s'.queue;
    assert forall x: nat :: multiset(s.queue)[x] == multiset{s.queue[0]}[x] + multiset(s'.queue)[x];
  }

  lemma FinishConserves(s: State, step: Step, o: Setup)
    requires Valid(o) && Conserved(s) && step.Finish? && Enabled(s, step, o)
    ensures Conserved(Next(s, step, o))
  {
    var s' := Next(s, step, o);
    assert forall x: nat :: s'.inFlight[x] + s'.completed[x] == s.inFlight[x] + s.completed[x];
  }

  lemma ArriveConserves(s: State, o: Setup)
    requires Valid(o) && Conserved(s) && Enabled(s, Arrive, o)
    ensures Conserved(Next(s, Arrive, o))
  {
    hide Capacity, Interval;
  }

  lemma StepConserves(s: State, step: Step, o: Setup)
    requires Valid(o) && Conserved(s) && Enabled(s, step, o)
    ensures Conserved(Next(s, step, o))
  {
    hide Capacity, Interval;
    match step
    case Arrive => ArriveConserves(s, o);
    case Take => TakeConserves(s, o);
    case Finish(_, _, _, _) => FinishConserves(s, step, o);
    case Close => assert multiset(s.queue) == multiset(Next(s, step, o).queue);
  }

  lemma StepBooks(s: State, step: Step, o: Setup)
    requires Valid(o) && Booked(s, o) && Enabled(s, step, o)
    ensures Booked(Next(s, step, o), o)
  {
    hide Sum, Total, Record, Measure, Accounted, Capacity, Interval;
    if step.Finish? {
      var sample := SampleOf(step, o);
      SumRecords(s.parts, step.worker, sample);
      TotalSnoc(s.samples, sample);
      SamplesAreAccounted(o, if o.onePass then step.draw else step.job, step.backend);
    }
  }

  lemma StepKeepsOrder(s: State, step: Step, o: Setup)
    requires Valid(o) && InOrder(s) && Enabled(s, step, o)
    ensures InOrder(Next(s, step, o))
  {
    hide Interval, Capacity, Record, Measure;
  }

  lemma StepKeepsInv(s: State, step: Step, o: Setup)
    requires Valid(o) && Inv(s, o) && Enabled(s, step, o)
    ensures Inv(Next(s, step, o), o)
  {
    hide Conserved, Booked, InOrder, Interval, Capacity, Record, Measure;
    StepKeepsOrder(s, step, o);
    StepConserves(s, step, o);
    StepBooks(s, step, o);
  }

  lemma StartInv(o: Setup)
    requires Valid(o)
    ensures Inv(Start(o), o)
  {
    hide Sum;
    SumOfIdle(Start(o).parts);
  }

  lemma {:induction false} RunKeepsInv(states: seq<State>, steps: seq<Step>, o: Setup, i: nat)
    requires Run(states, steps, o) && i < |states|
    ensures Inv(states[i], o)
  {
    if i == 0 {
      StartInv(o);
    } else {
      hide Inv, Next, Enabled;
      RunKeepsInv(states, steps, o, i - 1);
      StepKeepsInv(states[i - 1], steps[i - 1], o);
    }
  }

  lemma ConservedCount(s: State)
    requires Conserved(s)
    ensures s.arrivals == |s.dropped| + |s.queue| + |s.inFlight| + |s.completed|
  {
    SizeOfInitialSegment(multiset(s.queue) + s.inFlight + s.completed + s.dropped, s.arrivals);
  }

  /** In every reachable state the scheduled arrivals are dropped, queued, in
      flight or completed, and the queue is within its capacity. */
  lemma ArrivalsAreConserved(states: seq<State>, steps: seq<Step>, o: Setup, i: nat)
    requires Run(states, steps, o) && i < |states|
    ensures var s := states[i];
            && Conserved(s) && |s.queue| <= Capacity(o.rate)
            && s.arrivals == |s.dropped| + |s.queue| + |s.inFlight| + |s.completed|
  {
    RunKeepsInv(states, steps, o, i);
    ConservedCount(states[i]);
  }

  /** A worker takes the oldest waiting arrival. */
  lemma TakesOldest(states: seq<State>, steps: seq<Step>, o: Setup, i: nat)
    requires Run(states, steps, o) && i < |steps| && steps[i].Take?
    ensures exists job :: job in states[i].queue && states[i + 1].inFlight == states[i].inFlight + multiset{job}
                          && (forall other :: other in states[i].queue ==> job <= other)
                          && multiset(states[i + 1].queue) == multiset(states[i].queue) - multiset{job}
  {
    RunKeepsInv(states, steps, o, i);
    var queue := states[i].queue;
    assert Enabled(states[i], steps[i], o);
    var job := queue[0];
    assert queue == [job] + queue[1..];
    assert job in queue;
  }

  /** The queue holds 1024 arrivals or half a second's worth, whichever is more;
      an arrival is dropped if and only if it finds the queue full. */
  lemma DroppedIffFull(states: seq<State>, steps: seq<Step>, o: Setup, i: nat)
    requires Run(states, steps, o) && i < |steps|
    ensures |states[i].queue| <= 1024 || |states[i].queue| <= o.rate / 2
    ensures states[i + 1].dropped != states[i].dropped <==>
              steps[i].Arrive? && |states[i].queue| >= 1024 && |states[i].queue| >= o.rate / 2
    ensures steps[i].Arrive? && states[i + 1].dropped != states[i].dropped ==>
              states[i + 1].dropped == states[i].dropped + multiset{states[i].arrivals}
  {
    hide Conserved, Booked, InOrder, Interval, Measure, Record;
    RunKeepsInv(states, steps, o, i);
    assert Enabled(states[i], steps[i], o);
    var s := states[i];
    assert (s.dropped + multiset{s.arrivals})[s.arrivals] == s.dropped[s.arrivals] + 1;
  }

  /** The finished operations that read, going by the arrival's index, or by the
      number drawn in the one-pass pattern. */
  function ReadsFinished(steps: seq<Step>, o: Setup): nat {
    if steps == [] then 0
    else
      var step := steps[|steps| - 1];
      ReadsFinished(steps[..|steps| - 1], o)
      + (if step.Finish? && !Writes(o, if o.onePass then step.draw else step.job) then 1 else 0)
  }

  predicate FinishesRead(step: Step, o: Setup) {
    step.Finish? && !Writes(o, if o.onePass then step.draw else step.job)
  }

  lemma GetsOfStep(s: State, step: Step, o: Setup)
    requires Valid(o) && Enabled(s, step, o)
    ensures Total(Next(s, step, o).samples).gets
            == Total(s.samples).gets + (if FinishesRead(step, o) then Objects(o) else 0)
  {
    hide Measure, Writes, Interval, Capacity, Total, Sum;
    if step.Finish? {
      TotalSnoc(s.samples, SampleOf(step, o));
      SamplesAreAccounted(o, if o.onePass then step.draw else step.job, step.backend);
    }
  }

  lemma ReadsFinishedSnoc(steps: seq<Step>, o: Setup, i: nat)
    requires i < |steps|
    ensures ReadsFinished(steps[..i + 1], o) * Objects(o)
            == ReadsFinished(steps[..i], o) * Objects(o) + (if FinishesRead(steps[i], o) then Objects(o) else 0)
  {
    hide Writes, Objects;
    assert steps[..i + 1][..i] == steps[..i];
    var n := ReadsFinished(steps[..i], o);
    assert (n + 1) * Objects(o) == n * Objects(o) + Objects(o);
  }

  lemma {:induction false} GetsAreReads(states: seq<State>, steps: seq<Step>, o: Setup, i: nat)
    requires Run(states, steps, o) && i < |states|
    ensures Total(states[i].samples).gets == ReadsFinished(steps[..i], o) * Objects(o)
  {
    if i > 0 {
      hide Next, Enabled, Total, FinishesRead, Objects, ReadsFinished;
      GetsAreReads(states, steps, o, i - 1);
      GetsOfStep(states[i - 1], steps[i - 1], o);
      ReadsFinishedSnoc(steps, o, i - 1);
    }
  }

  /** In every reachable state, whichever workers completed the operations, the
      merged counters are the totals of the samples: one batch per completed
      arrival, all objects of each, the gets of the operations that read, and gets
      are hits plus origins up to the errors. Without errors they are equal, and
      then nothing went wrong in any operation. */
  lemma PhaseIsAccounted(states: seq<State>, steps: seq<Step>, o: Setup, i: nat)
    requires Run(states, steps, o) && i < |states|
    ensures var s, out := states[i], Sum(states[i].parts);
            && out == Total(s.samples) && out.batches == |s.completed|
            && out.hits + out.origins <= out.gets <= out.hits + out.origins + out.errors
            && (out.errors == 0 ==> out.gets == out.hits + out.origins)
            && (!o.workload.Origin? ==> out.origins == 0)
            && out.operations == |s.completed| * Objects(o) && out.bytes == out.hits * o.valueBytes
            && out.gets == ReadsFinished(steps[..i], o) * Objects(o)
            && (out.errors == 0 <==> forall k :: 0 <= k < |s.samples| ==> s.samples[k].errors == 0)
  {
    hide Sum, Total, Conserved;
    RunKeepsInv(states, steps, o, i);
    TotalIsAccounted(states[i].samples, o);
    GetsAreReads(states, steps, o, i);
  }

  lemma BatchesAreCompletions(s: State, o: Setup)
    requires Booked(s, o)
    ensures Sum(s.parts).batches == |s.completed|
  {
    hide Sum, Total, Accounted;
    TotalIsAccounted(s.samples, o);
  }

  // ----- the end of a run -----

  /** The arrival loop has ended and the workers have drained the queue. */
  predicate Over(s: State) { s.closed && s.queue == [] && s.inFlight == multiset{} }

  /** When the run is over, the recorded batches and the dropped ones together are
      the arrivals due within the duration: ceil(duration / interval). */
  lemma FinishedRunAccounts(states: seq<State>, steps: seq<Step>, o: Setup)
    requires Run(states, steps, o) && o.rate <= SECOND && Over(states[|steps|])
    ensures var s, d := states[|steps|], 1_000_000_000 / o.rate;
            && d > 0 && Sum(s.parts).batches == |s.completed|
            && |s.completed| + |s.dropped| == (o.duration + d - 1) / d
  {
    hide Sum, Total, Objects;
    var s, d := states[|steps|], Interval(o.rate);
    RunKeepsInv(states, steps, o, |steps|);
    BatchesAreCompletions(s, o);
    ConservedCount(s);
    hide Inv, Booked, Conserved, Accounted;
    IntervalPositiveIff(o.rate);
    CeilingIs(o.duration, d, s.arrivals);
  }

  /** A run of exactly one second at a rate that divides it schedules exactly
      `rate` arrivals. */
  lemma OneSecondSchedulesRate(states: seq<State>, steps: seq<Step>, o: Setup)
    requires Run(states, steps, o) && Over(states[|steps|])
    requires o.duration == 1_000_000_000 && 1_000_000_000 % o.rate == 0
    ensures var s := states[|steps|]; |s.completed| + |s.dropped| == s.arrivals == o.rate
  {
    hide Sum, Total;
    var d := 1_000_000_000 / o.rate;
    assert 1_000_000_000 == o.rate * d;
    assert o.rate <= SECOND;
    FinishedRunAccounts(states, steps, o);
    DivisionIsUnique(o.duration + d - 1, d, o.rate, d - 1);
    ArrivalsAreConserved(states, steps, o, |steps|);
  }

  lemma IntervalPositiveIff(rate: nat)
    requires rate >= 1
    ensures Interval(rate) > 0 <==> rate <= SECOND
  {
    assert SECOND == rate * (SECOND / rate) + SECOND % rate;
    if rate <= SECOND && SECOND / rate == 0 { assert false; }
    if rate > SECOND { QuotientOfSmaller(SECOND, rate); }
  }

  lemma QuotientOfSmaller(m: nat, c: nat)
    requires m < c
    ensures m / c == 0
  {
  }

  lemma CeilingIs(duration: nat, d: nat, n: nat)
    requires d >= 1 && n * d >= duration && (n > 0 ==> (n - 1) * d < duration)
    ensures (duration + d - 1) / d == n
  {
    assert n * d < duration + d by { if n > 0 { assert (n - 1) * d == n * d - d; } }
    DivisionIsUnique(duration + d - 1, d, n, duration + d - 1 - n * d);
  }

  /** The first `n` with `n * d` at or beyond the duration. */
  lemma {:induction false} FirstBeyond(d: nat, duration: nat) returns (n: nat)
    requires d >= 1 || duration == 0
    ensures n * d >= duration && (n > 0 ==> (n - 1) * d < duration)
    decreases duration
  {
    if duration == 0 {
      n := 0;
    } else if duration <= d {
      n := 1;
    } else {
      n := FirstBeyond(d, duration - d);
      n := n + 1;
      assert n * d == (n - 1) * d + d;
      if n - 1 > 0 { assert (n - 2) * d == (n - 1) * d - d; }
    }
  }

  /** A backend without faults. */
  function Perfect(o: Setup): Backend { Backend(false, Some(seq(Objects(o), _ => Lookup(true, true, false)))) }

  /** A run in which each of the first `n` arrivals is completed before the next. */
  lemma {:induction false} Unhurried(o: Setup, n: nat) returns (states: seq<State>, steps: seq<Step>)
    requires Valid(o) && (n > 0 ==> (n - 1) * Interval(o.rate) < o.duration)
    ensures Run(states, steps, o)
    ensures var s := states[|steps|];
            s.arrivals == n && s.queue == [] && s.inFlight == multiset{} && !s.closed && |s.parts| == o.workers
  {
    if n == 0 {
      states, steps := [Start(o)], [];
    } else {
      hide Interval, Measure, Record;
      assert (n - 1) * Interval(o.rate) == (n - 2) * Interval(o.rate) + Interval(o.rate);
      states, steps := Unhurried(o, n - 1);
      states, steps := ThenStep(o, states, steps, Arrive);
      assert states[|steps|].queue == [n - 1];
      states, steps := ThenStep(o, states, steps, Take);
      states, steps := ThenStep(o, states, steps, Finish(n - 1, 0, 0, Perfect(o)));
    }
  }

  lemma ThenStep(o: Setup, states: seq<State>, steps: seq<Step>, step: Step)
    returns (states': seq<State>, steps': seq<Step>)
    requires Run(states, steps, o) && Enabled(states[|steps|], step, o)
    ensures Run(states', steps', o) && |steps'| == |steps| + 1
    ensures states'[|steps'|] == Next(states[|steps|], step, o)
  {
    hide Next, Enabled;
    states', steps' := states + [Next(states[|steps|], step, o)], steps + [step];
  }

  /** The arrival loop can end if and only if arrivals advance or nothing is due,
      and then the whole run can end: above one arrival per nanosecond the
      interval is 0 and the loop goes on for ever. */
  lemma CanCloseIff(o: Setup)
    requires Valid(o)
    ensures (exists states: seq<State>, steps :: Run(states, steps, o) && states[|steps|].closed)
            <==> o.rate <= 1_000_000_000 || o.duration == 0
    ensures (exists states: seq<State>, steps :: Run(states, steps, o) && Over(states[|steps|]))
            <==> o.rate <= 1_000_000_000 || o.duration == 0
  {
    IntervalPositiveIff(o.rate);
    if o.rate <= SECOND || o.duration == 0 {
      var n := FirstBeyond(Interval(o.rate), o.duration);
      var states, steps := Unhurried(o, n);
      states, steps := ThenStep(o, states, steps, Close);
      assert Run(states, steps, o) && Over(states[|steps|]);
    } else {
      forall states: seq<State>, steps | Run(states, steps, o) ensures !states[|steps|].closed {
        RunKeepsInv(states, steps, o, |steps|);
        assert states[|steps|].arrivals * 0 == 0;
      }
    }
  }

  // ----- one-pass keys -----

  const STRIDE := 100_000_000

  function OnePassIndex(objects: nat, worker: nat, op: nat): nat { objects + worker * STRIDE + op }

  /** Key `i` of the operation that drew number `draw` from the shared counter;
      `workers[draw]` is the worker that drew it, in any interleaving. */
  function KeyIndex(objects: nat, workers: seq<nat>, n: nat, draw: nat, i: nat): nat
    requires draw < |workers| && i < n
  {
    OnePassIndex(objects, workers[draw], draw * n + i)
  }

  lemma PositionIsUnique(n: nat, a: nat, i: nat, b: nat, j: nat)
    requires i < n && j < n && a * n + i == b * n + j
    ensures a == b && i == j
  {
    var k := a - b;
    assert k * n == j - i;
    MultipleIsFar(k, n);
  }

  /** Indices are pairwise distinct and beyond the preloaded range, for every
      interleaving of workers across warmup and measurement, as long as the
      positions stay below the per-worker stride. */
  lemma OnePassKeysDistinct(objects: nat, workers: seq<nat>, n: nat, a: nat, i: nat, b: nat, j: nat)
    requires a < |workers| && b < |workers| && i < n && j < n && (a != b || i != j)
    requires a * n + i < 100_000_000 && b * n + j < 100_000_000
    ensures KeyIndex(objects, workers, n, a, i) != KeyIndex(objects, workers, n, b, j)
    ensures KeyIndex(objects, workers, n, a, i) >= objects
  {
    if a * n + i == b * n + j { PositionIsUnique(n, a, i, b, j); }
    StrideSeparates(objects, workers[a], a * n + i, workers[b], b * n + j);
  }

  lemma StrideSeparates(objects: nat, v: nat, x: nat, w: nat, y: nat)
    requires x != y && x < STRIDE && y < STRIDE
    ensures OnePassIndex(objects, v, x) != OnePassIndex(objects, w, y)
  {
  }

  /** All keys drawn by these operations are distinct. */
  ghost predicate AllDistinct(objects: nat, workers: seq<nat>, n: nat) {
    forall a: nat, i: nat, b: nat, j: nat ::
      a < |workers| && b < |workers| && i < n && j < n && (a != b || i != j) ==>
        KeyIndex(objects, workers, n, a, i) != KeyIndex(objects, workers, n, b, j)
  }

  /** Beyond the stride some interleaving repeats a key: worker 1 draws first,
      worker 0 all the rest. */
  lemma BeyondStrideKeysRepeat(objects: nat, n: nat, draws: nat)
    requires n >= 1 && draws >= 2 && draws * n > STRIDE
    ensures !AllDistinct(objects, [1] + seq(draws - 1, i => 0), n)
  {
    var workers := [1] + seq(draws - 1, i => 0);
    if n <= STRIDE {
      var b, j := STRIDE / n, STRIDE % n;
      assert b * n + j == STRIDE;
      assert 1 <= b < draws by { QuotientBounds(STRIDE, n, draws); }
      assert KeyIndex(objects, workers, n, 0, 0) == KeyIndex(objects, workers, n, b, j);
    } else {
      assert KeyIndex(objects, workers, n, 0, n - STRIDE) == KeyIndex(objects, workers, n, 1, 0);
    }
  }

  lemma QuotientBounds(m: nat, n: nat, d: nat)
    requires 1 <= n <= m < d * n
    ensures 1 <= m / n < d
  {
    var q, r := m / n, m % n;
    assert m == q * n + r;
    if q >= d { MulMonotone(d, q, n); }
    MultipleIsFar(q, n);
  }

  /** Exact condition: one-pass keys are distinct for every interleaving of the
      workers if and only if the draws fit below the stride (or there is only one). */
  lemma OnePassDistinctIff(objects: nat, n: nat, draws: nat)
    requires n >= 1
    ensures (forall workers: seq<nat> :: |workers| == draws ==> AllDistinct(objects, workers, n))
            <==> draws <= 1 || draws * n <= 100_000_000
  {
    if draws <= 1 || draws * n <= STRIDE {
      forall workers: seq<nat> | |workers| == draws ensures AllDistinct(objects, workers, n) {
        FittingKeysDistinct(objects, workers, n);
      }
    } else {
      BeyondStrideKeysRepeat(objects, n, draws);
      assert |[1] + seq(draws - 1, i => 0)| == draws;
    }
  }

  lemma FittingKeysDistinct(objects: nat, workers: seq<nat>, n: nat)
    requires |workers| <= 1 || |workers| * n <= STRIDE
    ensures AllDistinct(objects, workers, n)
  {
    forall a: nat, i: nat, b: nat, j: nat | a < |workers| && b < |workers| && i < n && j < n && (a != b || i != j)
      ensures KeyIndex(objects, workers, n, a, i) != KeyIndex(objects, workers, n, b, j)
    {
      if |workers| > 1 {
        PositionFits(|workers|, n, a, i);
        PositionFits(|workers|, n, b, j);
        OnePassKeysDistinct(objects, workers, n, a, i, b, j);
      }
    }
  }

  lemma PositionFits(draws: nat, n: nat, a: nat, i: nat)
    requires a < draws && i < n
    ensures a * n + i < draws * n
  {
    MulMonotone(a + 1, draws, n);
    assert (a + 1) * n == a * n + n;
  }
}
