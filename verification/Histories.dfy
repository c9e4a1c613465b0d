/** Sequential histories: calls executed one at a time, each with its reply. They
    are the yardstick the concurrent protocol is measured against. */
module Histories {

  import opened Options
  import opened CounterText
  import opened CacheStore

  datatype Event =
    | Called(tid: nat, op: Op, env: Env, reply: Reply)
    | PlainSet(key: Key, value: Value, ttl: uint32, stamp: uint32, stored: bool)
    | PlainRemove(key: Key, existed: bool)
    | PlainGet(key: Key, at: uint32, found: Option<Item>)
    | Evicted(key: Key)

  function KeyOf(e: Event): Key { if e.Called? then e.op.key else e.key }

  function Effect(store: Store, e: Event): Store {
    match e
    case Called(_, op, env, _) => Exec(store, op, env).0
    case PlainSet(key, value, ttl, stamp, stored) =>
      if stored then store[key := Stamp(value, ttl, 0, stamp)] else store
    case PlainRemove(key, _) => store - {key}
    case PlainGet(_, _, _) => store
    case Evicted(key) => store - {key}
  }

  /** The recorded reply is the one this store gives. */
  predicate Explained(store: Store, e: Event) {
    match e
    case Called(_, op, env, reply) => reply == Exec(store, op, env).1
    case PlainSet(_, _, _, _, _) => true
    case PlainRemove(key, existed) => existed == (key in store)
    case PlainGet(key, at, found) => found == Find(store, key, at)
    case Evicted(_) => true
  }

  function Final(store: Store, h: seq<Event>): Store {
    if h == [] then store else Effect(Final(store, h[..|h| - 1]), h[|h| - 1])
  }

  /** Executing the events of `h` one after the other produces their replies. */
  ghost predicate Legal(store: Store, h: seq<Event>) {
    forall i :: 0 <= i < |h| ==> Explained(Final(store, h[..i]), h[i])
  }

  /** What callers see: everything but evictions. */
  function Observed(h: seq<Event>): seq<Event> {
    if h == [] then []
    else Observed(h[..|h| - 1]) + (if h[|h| - 1].Evicted? then [] else [h[|h| - 1]])
  }

  /** Decrement by INT64_MIN is refused before the mutex is taken. */
  predicate TakesLock(op: Op) { !(op.Decrement? && op.delta == INT64_MIN) }

  predicate IsLocked(e: Event) { e.Called? && TakesLock(e.op) }

  /** The locked calls of a history, in order. */
  function LockedCalls(h: seq<Event>): seq<(nat, Op)> {
    if h == [] then []
    else
      var e := h[|h| - 1];
      LockedCalls(h[..|h| - 1]) + (if IsLocked(e) then [(e.tid, e.op)] else [])
  }

  predicate WellTimed(env: Env) { 0 < env.find <= env.now <= env.alloc }

  /** Clock readings never go back, within a locked call or from one to the next. */
  ghost predicate ClocksInOrder(h: seq<Event>) {
    && (forall i :: 0 <= i < |h| && IsLocked(h[i]) ==> WellTimed(h[i].env))
    && (forall i, j :: 0 <= i < j < |h| && IsLocked(h[i]) && IsLocked(h[j]) ==>
                         h[i].env.alloc <= h[j].env.find)
  }

  // ----- histories grow at the end -----

  lemma FinalSnoc(store: Store, h: seq<Event>, e: Event)
    ensures Final(store, h + [e]) == Effect(Final(store, h), e)
    ensures Observed(h + [e]) == Observed(h) + (if e.Evicted? then [] else [e])
    ensures LockedCalls(h + [e]) == LockedCalls(h) + (if IsLocked(e) then [(e.tid, e.op)] else [])
  {
    assert (h + [e])[..|h|] == h;
  }

  lemma LegalSnoc(store: Store, h: seq<Event>, e: Event)
    requires Legal(store, h) && Explained(Final(store, h), e)
    ensures Legal(store, h + [e])
  {
    forall i | 0 <= i <= |h| ensures Explained(Final(store, (h + [e])[..i]), (h + [e])[i]) {
      assert (h + [e])[..i] == h[..i];
      assert h[..|h|] == h;
    }
  }

  lemma LegalPrefix(store: Store, h: seq<Event>)
    requires h != [] && Legal(store, h)
    ensures var before := h[..|h| - 1];
            Legal(store, before) && Explained(Final(store, before), h[|h| - 1])
  {
    var before := h[..|h| - 1];
    forall i | 0 <= i < |before| ensures Explained(Final(store, before[..i]), before[i]) {
      assert before[..i] == h[..i];
    }
  }
}
