/** Why serialisability is claimed for undisturbed runs only: a plain set that
    lands between the find and the write of an Incr is lost, and no sequential
    order of the two calls explains what was observed. */
module LostUpdate {

  import opened Options
  import opened CounterText
  import opened CacheStore
  import opened Histories
  import opened KeyHistories
  import opened Protocol
  import opened Serialization

  function CounterItem(n: int64): Item { Item(Print(n), 1, 0) }

  function Begin(key: Key, v: int64): State {
    State(map[key := CounterItem(v)], 1, None, map[], [], [], false)
  }

  function Bump(key: Key): Op { Incr(key, 1, 0) }

  /** Incr looks the key up, the plain set overwrites it, Incr writes. */
  function RaceSteps(key: Key, u: int64): seq<Step> {
    [Call(0, Bump(key)), Lock(0), Look(0), Set(key, Print(u), 0, 1, true),
     Decide(0), Allocate(0, true), Insert(0), Unlock(0)]
  }

  function SetEvent(key: Key, u: int64): Event { PlainSet(key, Print(u), 0, 1, true) }

  function BumpEvent(key: Key, v: int64): Event
    requires v < INT64_MAX
  {
    Called(0, Bump(key), Env(1, 1, 1, true), IncrReply(true, v + 1, false, NoMessage))
  }

  /** What Incr decides after having found the counter at `v`. */
  lemma BumpPlan(key: Key, v: int64)
    requires v < INT64_MAX
    ensures Plan(Bump(key), Some(CounterItem(v)), 1)
            == Write(Print(v + 1), 0, 1, IncrReply(true, v + 1, false, NoMessage), IncrReply(false, 0, false, StoreFailed))
    ensures Stamp(Print(v + 1), 0, 1, 1) == CounterItem(v + 1)
  {
    ParsePrint(v);
  }

  function Flight(key: Key, v: int64): Pc { Planned(Bump(key), Some(CounterItem(v)), Env(1, 1, 1, false)) }

  /** The state after each of the steps. */
  function RaceStates(key: Key, v: int64, u: int64): seq<State>
    requires v < INT64_MAX
  {
    var s0 := Begin(key, v);
    var s1 := s0.(pcs := map[0 := Calling(Bump(key))]);
    var s2 := s1.(pcs := map[0 := Holding(Bump(key))], owner := Some(0), lockOrder := [(0, Bump(key))]);
    var s3 := s2.(pcs := map[0 := Found(Bump(key), Some(CounterItem(v)), Env(1, 1, 1, false))]);
    var s4 := s3.(store := map[key := CounterItem(u)], log := [SetEvent(key, u)]);
    var s5 := s4.(pcs := map[0 := Flight(key, v)]);
    var s6 := s5.(pcs := map[0 := Allocated(Bump(key), Some(CounterItem(v)), Env(1, 1, 1, true), CounterItem(v + 1))]);
    var s7 := s6.(pcs := map[0 := Done(Bump(key), BumpEvent(key, v).reply)], store := map[key := CounterItem(v + 1)],
                  log := [SetEvent(key, u), BumpEvent(key, v)]);
    [s0, s1, s2, s3, s4, s5, s6, s7, s7.(pcs := map[0 := Idle], owner := None)]
  }

  lemma SetStep(key: Key, v: int64, u: int64)
    requires v < INT64_MAX
    ensures var states, steps := RaceStates(key, v, u), RaceSteps(key, u);
            Enabled(states[3], steps[3]) && Next(states[3], steps[3]) == states[4]
  {
    var states := RaceStates(key, v, u);
    assert states[3].store[key := CounterItem(u)] == states[4].store;
  }

  lemma DecideSteps(key: Key, v: int64, u: int64)
    requires v < INT64_MAX
    ensures var states, steps := RaceStates(key, v, u), RaceSteps(key, u);
            && Enabled(states[4], steps[4]) && Next(states[4], steps[4]) == states[5]
            && Enabled(states[5], steps[5]) && Next(states[5], steps[5]) == states[6]
  {
    hide Plan, Stamp, Print;
    BumpPlan(key, v);
    var states := RaceStates(key, v, u);
    assert states[4].pcs[0 := Flight(key, v)] == states[5].pcs;
    assert states[5].pcs[0 := states[6].pcs[0]] == states[6].pcs;
  }

  lemma InsertStep(key: Key, v: int64, u: int64)
    requires v < INT64_MAX
    ensures var states, steps := RaceStates(key, v, u), RaceSteps(key, u);
            && Enabled(states[6], steps[6]) && Next(states[6], steps[6]) == states[7]
            && Enabled(states[7], steps[7]) && Next(states[7], steps[7]) == states[8]
  {
    hide Plan, Stamp, Print;
    BumpPlan(key, v);
    var states := RaceStates(key, v, u);
    assert states[6].store[key := CounterItem(v + 1)] == states[7].store;
    assert states[6].pcs[0 := states[7].pcs[0]] == states[7].pcs;
    assert states[7].pcs[0 := Idle] == states[8].pcs;
    assert states[6].log + [BumpEvent(key, v)] == states[7].log;
  }

  lemma FirstSteps(key: Key, v: int64, u: int64, i: nat)
    requires v < INT64_MAX && i < 3
    ensures var states, steps := RaceStates(key, v, u), RaceSteps(key, u);
            Enabled(states[i], steps[i]) && Next(states[i], steps[i]) == states[i + 1]
  {
    hide Plan, Stamp, Print;
    var states := RaceStates(key, v, u);
    assert states[i].pcs[0 := states[i + 1].pcs[0]] == states[i + 1].pcs;
  }

  /** The race is a run of the protocol; it is disturbed at its fourth step. */
  lemma RaceIsARun(key: Key, v: int64, u: int64)
    requires v < INT64_MAX
    ensures var states, steps := RaceStates(key, v, u), RaceSteps(key, u);
            Run(states, steps) && !Clear(states[3], steps[3])
  {
    hide Plan, Stamp, Print, Next, Enabled;
    var states, steps := RaceStates(key, v, u), RaceSteps(key, u);
    FirstSteps(key, v, u, 0);
    FirstSteps(key, v, u, 1);
    FirstSteps(key, v, u, 2);
    SetStep(key, v, u);
    DecideSteps(key, v, u);
    InsertStep(key, v, u);
  }

  // ----- no sequential order explains it -----

  /** What the key can hold after a history that shows the given calls. */
  ghost predicate Possible(item: Option<Item>, seen: seq<Event>, key: Key, v: int64, u: int64)
    requires v < INT64_MAX
  {
    var a, b := SetEvent(key, u), BumpEvent(key, v);
    item.None? ||
    (seen == [] && item.value == CounterItem(v)) ||
    (seen == [a] && item.value == CounterItem(u)) ||
    (seen == [b] && item.value == CounterItem(v + 1)) ||
    (seen == [b, a] && item.value == CounterItem(u))
  }

  predicate Shown(seen: seq<Event>, key: Key, v: int64, u: int64)
    requires v < INT64_MAX
  {
    var a, b := SetEvent(key, u), BumpEvent(key, v);
    seen <= [a, b] || seen <= [b, a]
  }

  /** The Incr reply is only explained by a store that still holds `v`. */
  lemma BumpNeedsV(store: Store, key: Key, v: int64)
    requires v < INT64_MAX && Explained(store, BumpEvent(key, v))
    requires key in store ==> exists n :: store[key] == CounterItem(n)
    ensures key in store && store[key] == CounterItem(v)
    ensures ItemAt(Effect(store, BumpEvent(key, v)), key) == Some(CounterItem(v + 1))
  {
    hide ParseWhole, Print;
    if key in store {
      var n :| store[key] == CounterItem(n);
      ParsePrint(n);
      if n < INT64_MAX { BumpPlan(key, n); }
    }
  }

  /** What one more shown call can be. */
  lemma ShownNext<E>(seen: seq<E>, e: E, a: E, b: E)
    requires seen + [e] <= [a, b] || seen + [e] <= [b, a]
    ensures (seen == [] && (e == a || e == b)) || (seen == [a] && e == b) || (seen == [b] && e == a)
  {
    var next := seen + [e];
    assert next[|seen|] == e;
    if |seen| > 0 { assert next[0] == seen[0] && seen == [seen[0]]; }
  }

  lemma BumpOutcome(store: Store, seen: seq<Event>, key: Key, v: int64, u: int64)
    requires v < INT64_MAX && u != v && Possible(ItemAt(store, key), seen, key, v, u)
    requires Explained(store, BumpEvent(key, v)) && (seen == [] || seen == [SetEvent(key, u)])
    ensures seen == [] && ItemAt(Effect(store, BumpEvent(key, v)), key) == Some(CounterItem(v + 1))
  {
    hide Explained, Effect, CounterItem;
    BumpNeedsV(store, key, v);
    DistinctTexts(u, v);
  }

  lemma EvictionOutcome(store: Store, seen: seq<Event>, key: Key, v: int64, u: int64, gone: Key)
    requires v < INT64_MAX && Possible(ItemAt(store, key), seen, key, v, u)
    ensures Possible(ItemAt(Effect(store, Evicted(gone)), key), seen, key, v, u)
  {
    hide CounterItem, SetEvent, BumpEvent;
  }

  lemma CallOutcome(store: Store, seen: seq<Event>, e: Event, key: Key, v: int64, u: int64)
    requires v < INT64_MAX && u != v && Possible(ItemAt(store, key), seen, key, v, u)
    requires Explained(store, e) && Shown(seen + [e], key, v, u)
    ensures Possible(ItemAt(Effect(store, e), key), seen + [e], key, v, u)
    ensures seen + [e] != [SetEvent(key, u), BumpEvent(key, v)]
  {
    hide Explained, Effect, CounterItem, Possible;
    var a, b := SetEvent(key, u), BumpEvent(key, v);
    ShownNext(seen, e, a, b);
    assert a != b && [] + [e] == [e] && [b] + [a] == [b, a];
    if e == b {
      BumpOutcome(store, seen, key, v, u);
      PossibleAfter(Some(CounterItem(v + 1)), [b], key, v, u);
    } else {
      SetEffect(store, key, u);
      PossibleAfter(Some(CounterItem(u)), seen + [a], key, v, u);
    }
  }

  lemma PossibleAfter(item: Option<Item>, seen: seq<Event>, key: Key, v: int64, u: int64)
    requires v < INT64_MAX && item.Some?
    requires var a, b := SetEvent(key, u), BumpEvent(key, v);
             || (seen == [b] && item.value == CounterItem(v + 1))
             || ((seen == [a] || seen == [b, a]) && item.value == CounterItem(u))
    ensures Possible(item, seen, key, v, u)
  {
    hide CounterItem, SetEvent, BumpEvent;
  }

  lemma {:induction false} SequentialOutcomes(key: Key, v: int64, u: int64, h: seq<Event>)
    requires v < INT64_MAX && u != v
    requires Legal(Begin(key, v).store, h) && Shown(Observed(h), key, v, u)
    ensures Possible(ItemAt(Final(Begin(key, v).store, h), key), Observed(h), key, v, u)
    ensures Observed(h) != [SetEvent(key, u), BumpEvent(key, v)]
  {
    hide Explained, Effect, CounterItem, SetEvent, BumpEvent, Legal;
    if h != [] {
      hide Possible;
      var front, e := h[..|h| - 1], h[|h| - 1];
      var store, seen := Final(Begin(key, v).store, front), Observed(front);
      LegalPrefix(Begin(key, v).store, h);
      assert Shown(seen, key, v, u) by { assert seen <= Observed(h); }
      SequentialOutcomes(key, v, u, front);
      if e.Evicted? {
        EvictionOutcome(store, seen, key, v, u, e.key);
        assert Observed(h) == seen;
      } else {
        CallOutcome(store, seen, e, key, v, u);
      }
    }
  }

  lemma SetEffect(store: Store, key: Key, u: int64)
    ensures ItemAt(Effect(store, SetEvent(key, u)), key) == Some(CounterItem(u))
  {
  }

  lemma DistinctTexts(x: int64, y: int64)
    ensures CounterItem(x) == CounterItem(y) ==> x == y
  {
    ParsePrint(x);
    ParsePrint(y);
  }

  /** For any counter value and any other value set in between (except the one
      Incr happens to write), neither order of the two calls, with evictions
      wherever one likes, gives these replies and this final store. */
  lemma RaceHasNoExplanation(key: Key, v: int64, u: int64, h: seq<Event>)
    requires v < INT64_MAX && u != v && u != v + 1
    requires Legal(Begin(key, v).store, h)
    requires Observed(h) == [SetEvent(key, u), BumpEvent(key, v)] || Observed(h) == [BumpEvent(key, v), SetEvent(key, u)]
    ensures Final(Begin(key, v).store, h) != Last(RaceStates(key, v, u)).store
  {
    hide Print, Legal, Final, Observed;
    SequentialOutcomes(key, v, u, h);
    DistinctTexts(u, v + 1);
    assert ItemAt(Last(RaceStates(key, v, u)).store, key) == Some(CounterItem(v + 1));
  }
}
