/** The operation counters under concurrent gets, and the hit rate that getStats
    computes from counters it loads one after the other. */
module Stats {

  /** `inFlight` holds the gets that have been counted and not yet classified. */
  datatype State = State(getCount: nat, hitCount: nat, missCount: nat, inFlight: set<nat>)

  datatype Step = Begin(t: nat) | Hit(t: nat) | Miss(t: nat)

  predicate Enabled(s: State, step: Step) {
    match step
    case Begin(t) => t !in s.inFlight
    case Hit(t) => t in s.inFlight
    case Miss(t) => t in s.inFlight
  }

  function Next(s: State, step: Step): State
    requires Enabled(s, step)
  {
    match step
    case Begin(t) => s.(getCount := s.getCount + 1, inFlight := s.inFlight + {t})
    case Hit(t) => s.(hitCount := s.hitCount + 1, inFlight := s.inFlight - {t})
    case Miss(t) => s.(missCount := s.missCount + 1, inFlight := s.inFlight - {t})
  }

  ghost predicate Run(states: seq<State>, steps: seq<Step>) {
    && |states| == |steps| + 1 && states[0] == State(0, 0, 0, {})
    && forall i :: 0 <= i < |steps| ==> Enabled(states[i], steps[i]) && states[i + 1] == Next(states[i], steps[i])
  }

  /** Every get is a hit, a miss, or still in flight. */
  lemma {:induction false} GetsAreAccounted(states: seq<State>, steps: seq<Step>, i: nat)
    requires Run(states, steps) && i < |states|
    ensures var s := states[i]; s.getCount == s.hitCount + s.missCount + |s.inFlight|
  {
    if i > 0 {
      GetsAreAccounted(states, steps, i - 1);
      assert Enabled(states[i - 1], steps[i - 1]);
    }
  }

  datatype Kind = Begins | Hits | Misses

  predicate IsOf(step: Step, kind: Kind) {
    match kind
    case Begins => step.Begin?
    case Hits => step.Hit?
    case Misses => step.Miss?
  }

  /** How many of the steps are of a kind. */
  function Count(steps: seq<Step>, kind: Kind): nat {
    if steps == [] then 0
    else Count(steps[..|steps| - 1], kind) + (if IsOf(steps[|steps| - 1], kind) then 1 else 0)
  }

  /** The gets begun between two states. */
  function Begun(steps: seq<Step>): nat { Count(steps, Begins) }

  lemma CountSnoc(steps: seq<Step>, i: nat, j: nat, kind: Kind)
    requires i < j <= |steps|
    ensures Count(steps[i..j], kind) == Count(steps[i..j - 1], kind) + (if IsOf(steps[j - 1], kind) then 1 else 0)
  {
    assert steps[i..j][..j - i - 1] == steps[i..j - 1];
  }

  /** Between any two states each counter grows by the gets that began, hit and
      missed. */
  lemma {:induction false} CountersCount(states: seq<State>, steps: seq<Step>, i: nat, j: nat)
    requires Run(states, steps) && i <= j < |states|
    ensures states[j].getCount == states[i].getCount + Begun(steps[i..j])
    ensures states[j].hitCount == states[i].hitCount + Count(steps[i..j], Hits)
    ensures states[j].missCount == states[i].missCount + Count(steps[i..j], Misses)
  {
    hide Count;
    if i < j {
      CountersCount(states, steps, i, j - 1);
      CountSnoc(steps, i, j, Begins);
      CountSnoc(steps, i, j, Hits);
      CountSnoc(steps, i, j, Misses);
      assert Enabled(states[j - 1], steps[j - 1]);
    } else {
      NothingCounted(steps, i);
    }
  }

  lemma NothingCounted(steps: seq<Step>, i: nat)
    requires i <= |steps|
    ensures forall kind :: Count(steps[i..i], kind) == 0
  {
  }

  /** hitRate as a fraction, 0 when there were no gets. */
  function HitRate(getCount: nat, hitCount: nat): real {
    if getCount > 0 then hitCount as real / getCount as real else 0.0
  }

  /** The rate times the gets is the hits; it is 0 without gets, and within 0 and 1
      when the hits do not exceed the gets. */
  lemma RateWithin(getCount: nat, hitCount: nat)
    ensures getCount == 0 ==> HitRate(getCount, hitCount) == 0.0
    ensures getCount > 0 ==> HitRate(getCount, hitCount) * getCount as real == hitCount as real
    ensures hitCount <= getCount ==> 0.0 <= HitRate(getCount, hitCount) <= 1.0
  {
    if getCount > 0 {
      var g, h := getCount as real, hitCount as real;
      assert h / g * g == h;
    }
  }

  /** getStats loads getCount at state `i` and hitCount at a later state `j`: the
      hits can exceed the gets by no more than the gets begun in between, so
      without one the rate lies between 0 and 1. */
  lemma SnapshotRate(states: seq<State>, steps: seq<Step>, i: nat, j: nat)
    requires Run(states, steps) && i <= j < |states|
    ensures states[j].hitCount <= states[i].getCount + Begun(steps[i..j])
    ensures Begun(steps[i..j]) == 0 ==> 0.0 <= HitRate(states[i].getCount, states[j].hitCount) <= 1.0
  {
    GetsAreAccounted(states, steps, j);
    CountersCount(states, steps, i, j);
    if Begun(steps[i..j]) == 0 { RateWithin(states[i].getCount, states[j].hitCount); }
  }

  /** With gets in between the reported rate has no upper bound: for every n
      there is a run in which n gets begun between the loads make it n + 1. */
  lemma InterleavedRateUnbounded(n: nat) returns (states: seq<State>, steps: seq<Step>)
    ensures Run(states, steps) && |states| == 2 * n + 3
    ensures Begun(steps[2..2 * n + 2]) == n
    ensures HitRate(states[2].getCount, states[2 * n + 2].hitCount) == (n + 1) as real
  {
    states, steps := HitsInBetween(n);
    CountersCount(states, steps, 2, 2 * n + 2);
  }

  lemma {:induction false} HitsInBetween(n: nat) returns (states: seq<State>, steps: seq<Step>)
    ensures Run(states, steps) && |states| == 2 * n + 3
    ensures states[2].getCount == 1 && states[2 * n + 2] == State(n + 1, n + 1, 0, {})
  {
    if n == 0 {
      steps := [Begin(0), Hit(0)];
      states := [State(0, 0, 0, {}), State(1, 0, 0, {0}), State(1, 1, 0, {})];
    } else {
      var before, taken := HitsInBetween(n - 1);
      steps := taken + [Begin(0), Hit(0)];
      states := before + [State(n + 1, n, 0, {0}), State(n + 1, n + 1, 0, {})];
    }
  }

  /** Every report with `k` gets begun between its two loads is a rate. */
  ghost predicate RateIsSound(k: nat) {
    forall states: seq<State>, steps: seq<Step>, i, j ::
      Run(states, steps) && 0 <= i <= j < |states| && Begun(steps[i..j]) == k ==>
        0.0 <= HitRate(states[i].getCount, states[j].hitCount) <= 1.0
  }

  /** The exact condition: the reported rate lies between 0 and 1 in every run if
      and only if no get begins between the loads. */
  lemma RateIsSoundIff(k: nat)
    ensures RateIsSound(k) <==> k == 0
  {
    if k == 0 {
      forall states: seq<State>, steps: seq<Step>, i, j | Run(states, steps) && 0 <= i <= j < |states| && Begun(steps[i..j]) == k
        ensures 0.0 <= HitRate(states[i].getCount, states[j].hitCount) <= 1.0
      {
        SnapshotRate(states, steps, i, j);
      }
    } else {
      var states, steps := InterleavedRateUnbounded(k);
      assert Begun(steps[2..2 * k + 2]) == k;
      assert HitRate(states[2].getCount, states[2 * k + 2].hitCount) > 1.0;
    }
  }
}
