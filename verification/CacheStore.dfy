/** The cache contents as CacheManager sees them, and what each of its atomic
    operations decides and writes.

    CacheLib itself is outside the model. What is taken from it:
    `find` hides an item exactly when 0 < expiry < now; `allocate` with creation
    argument 0 stamps the current second and otherwise keeps the argument, and
    sets the expiry to creation + ttl in uint32 arithmetic (0 when ttl is 0);
    `find`, `insertOrReplace` and `remove` are single atomic steps. */
module CacheStore {

  import opened Options
  import opened CounterText

  const TWO32 := 0x1_0000_0000

  type uint32 = n: int | 0 <= n < TWO32

  type Key = string
  type Value = string

  datatype Item = Item(value: Value, creation: uint32, expiry: uint32)

  type Store = map<Key, Item>

  function AddU32(a: uint32, b: uint32): uint32 { (a + b) % TWO32 }

  function SubU32(a: uint32, b: uint32): uint32 { (a - b) % TWO32 }

  /** CacheItem::isExpired is strict: an item is still found in its last second. */
  predicate Expired(item: Item, now: uint32) { 0 < item.expiry < now }

  function Find(store: Store, key: Key, now: uint32): Option<Item> {
    if key in store && !Expired(store[key], now) then Some(store[key]) else None
  }

  /** The item that allocate produces at second `now`. */
  function Stamp(value: Value, ttl: uint32, creation: uint32, now: uint32): Item {
    var born := if creation == 0 then now else creation;
    Item(value, born, if ttl == 0 then 0 else AddU32(born, ttl))
  }

  /** The remaining lifetime to hand to allocate so that the expiry is kept. */
  function KeptTtl(item: Item): uint32 {
    if item.expiry == 0 then 0 else SubU32(item.expiry, item.creation)
  }

  // ----- the operations that run under atomicOpMutex_ -----

  datatype Op =
    | SetNX(key: Key, value: Value, ttl: uint32)
    | Increment(key: Key, delta: int64, ttl: uint32)
    | Decrement(key: Key, delta: int64, ttl: uint32)
    | Incr(key: Key, delta: int64, ttl: uint32)
    | CompareAndSwap(key: Key, expected: Value, proposed: Value, ttl: uint32, keepTtl: bool)
    | Touch(key: Key, ttl: uint32)

  datatype Message =
    | NoMessage | NotInitialized | NotAnInteger | WouldOverflow | StoreFailed
    | CannotNegate | KeyNotFound | TtlUpdated | TtlUpdateFailed

  datatype Reply =
    | SetNXReply(wasSet: bool, existing: Value)
    | CountReply(success: bool, newValue: int64, message: Message)
    | IncrReply(success: bool, value: int64, ttlSet: bool, message: Message)
    | CasReply(success: bool, actual: Value)
    | TouchReply(success: bool, message: Message)

  /** Either an immediate answer, or a write with the answers for a write that
      was stored and one that was not. */
  datatype Decision =
    | Answer(reply: Reply)
    | Write(value: Value, ttl: uint32, creation: uint32, stored: Reply, failed: Reply)

  function OrOne(delta: int64): int64 { if delta == 0 then 1 else delta }

  function PlanAdd(found: Option<Item>, delta: int64, ttl: uint32): Decision {
    var current := if found.None? then Some(0) else ParseWhole(found.value.value);
    if current.None? then Answer(CountReply(false, 0, NotAnInteger))
    else
      var sum := CheckedAdd(current.value, delta);
      if sum.None? then Answer(CountReply(false, 0, WouldOverflow))
      else
        var keep := found.Some? && ttl == 0;
        Write(Print(sum.value),
              if keep then KeptTtl(found.value) else ttl,
              if keep then found.value.creation else 0,
              CountReply(true, sum.value, NoMessage), CountReply(false, 0, StoreFailed))
  }

  /** A deadline at the current second already closes the fixed window. */
  predicate StillLive(item: Item, now: uint32) { item.expiry == 0 || item.expiry > now }

  function PlanIncr(found: Option<Item>, delta: int64, ttl: uint32, now: uint32): Decision {
    var live := found.Some? && StillLive(found.value, now);
    var base := if live then ParseWhole(found.value.value) else Some(0);
    if base.None? then Answer(IncrReply(false, 0, false, NotAnInteger))
    else
      var sum := CheckedAdd(base.value, delta);
      if sum.None? then Answer(IncrReply(false, 0, false, WouldOverflow))
      else
        Write(Print(sum.value),
              if live then KeptTtl(found.value) else ttl,
              if live then found.value.creation else 0,
              IncrReply(true, sum.value, !live, NoMessage), IncrReply(false, 0, false, StoreFailed))
  }

  /** What an operation does once it has looked its key up; `now` is the clock
      reading that Incr takes after the lookup. */
  function Plan(op: Op, found: Option<Item>, now: uint32): Decision {
    match op
    case SetNX(key, value, ttl) =>
      if found.Some? then Answer(SetNXReply(false, found.value.value))
      else Write(value, ttl, 0, SetNXReply(true, []), SetNXReply(false, []))
    case Increment(key, delta, ttl) => PlanAdd(found, OrOne(delta), ttl)
    case Decrement(key, delta, ttl) =>
      var negated := CheckedNegate(OrOne(delta));
      if negated.None? then Answer(CountReply(false, 0, CannotNegate))
      else PlanAdd(found, negated.value, ttl)
    case Incr(key, delta, ttl) => PlanIncr(found, OrOne(delta), ttl, now)
    case CompareAndSwap(key, expected, proposed, ttl, keepTtl) =>
      if found.None? then Answer(CasReply(false, []))
      else if found.value.value != expected then Answer(CasReply(false, found.value.value))
      else Write(proposed,
                 if keepTtl then KeptTtl(found.value) else ttl,
                 if keepTtl then found.value.creation else 0,
                 CasReply(true, proposed), CasReply(false, found.value.value))
    case Touch(key, ttl) =>
      if found.None? then Answer(TouchReply(false, KeyNotFound))
      else Write(found.value.value, ttl, 0, TouchReply(true, TtlUpdated), TouchReply(false, TtlUpdateFailed))
  }

  /** The three clock readings of one call: CacheLib's during find, the one Incr
      takes itself, CacheLib's during allocate. `stored` tells whether the
      allocation succeeded and the value was within the configured size. */
  datatype Env = Env(find: uint32, now: uint32, alloc: uint32, stored: bool)

  /** One call executed alone. */
  function Exec(store: Store, op: Op, env: Env): (Store, Reply) {
    match Plan(op, Find(store, op.key, env.find), env.now)
    case Answer(reply) => (store, reply)
    case Write(value, ttl, creation, stored, failed) =>
      if env.stored then (store[op.key := Stamp(value, ttl, creation, env.alloc)], stored)
      else (store, failed)
  }

  // ----- facts about one call -----

  /** Deadlines are well formed: a creation second, and no expiry equal to it. */
  predicate ItemOk(item: Item) {
    item.creation != 0 && (item.expiry == 0 || item.expiry != item.creation)
  }

  ghost predicate StoreOk(store: Store) {
    forall key :: key in store ==> ItemOk(store[key])
  }

  lemma StampOk(value: Value, ttl: uint32, creation: uint32, now: uint32)
    requires now != 0
    ensures ItemOk(Stamp(value, ttl, creation, now))
  {
  }

  /** Re-stamping with the kept ttl and creation reproduces the deadline exactly,
      in uint32 arithmetic and also for items without expiry. */
  lemma RestampKeepsDeadline(item: Item, value: Value, now: uint32)
    requires ItemOk(item)
    ensures Stamp(value, KeptTtl(item), item.creation, now) == item.(value := value)
  {
  }

  /** Which calls promise to leave the deadline of the item they found alone. */
  predicate KeepsDeadline(op: Op, found: Item, now: uint32) {
    match op
    case Increment(_, _, ttl) => ttl == 0
    case Decrement(_, _, ttl) => ttl == 0
    case Incr(_, _, _) => StillLive(found, now)
    case CompareAndSwap(_, _, _, _, keepTtl) => keepTtl
    case SetNX(_, _, _) => true
    case Touch(_, _) => false
  }

  lemma ExecKeepsDeadline(store: Store, op: Op, env: Env)
    requires op.key in store && ItemOk(store[op.key])
    requires Find(store, op.key, env.find).Some? && KeepsDeadline(op, store[op.key], env.now)
    ensures var after := Exec(store, op, env).0;
            op.key in after
            && after[op.key] == store[op.key].(value := after[op.key].value)
  {
    var item := store[op.key];
    var plan := Plan(op, Some(item), env.now);
    if plan.Write? {
      RestampKeepsDeadline(item, plan.value, env.alloc);
    }
  }

  /** The number a reply reports, when the call was a counter call that succeeded. */
  function Counted(reply: Reply): Option<int64> {
    match reply
    case CountReply(success, newValue, _) => if success then Some(newValue) else None
    case IncrReply(success, value, _, _) => if success then Some(value) else None
    case _ => None
  }

  /** After a successful counter call the stored text is the canonical decimal
      of the reply, so the next call reads exactly that number; any other
      counter call leaves the store as it was. */
  lemma CounterTextIsReply(store: Store, op: Op, env: Env)
    requires op.Increment? || op.Decrement? || op.Incr?
    ensures var (after, reply) := Exec(store, op, env);
            match Counted(reply)
            case Some(n) => op.key in after && after[op.key].value == Print(n)
                            && Canonical(after[op.key].value)
                            && ParseWhole(after[op.key].value) == Some(n)
            case None => after == store
  {
    var (_, reply) := Exec(store, op, env);
    if Counted(reply).Some? {
      CanonicalTextIsPrint(Print(Counted(reply).value), Counted(reply).value);
    }
  }

  /** Decrement on a stored `base` agrees with the arithmetic: it goes ahead
      exactly when the true difference is representable. */
  ghost predicate DecrementFollowsArithmetic(base: int64, delta: int64) {
    var plan := Plan(Decrement([], delta, 0), Some(Item(Print(base), 1, 0)), 1);
    plan.Write? <==> Representable(base as int - OrOne(delta) as int)
  }

  /** It does for every base if and only if the delta is not INT64_MIN: that one
      is refused although the difference fits for every negative base. */
  lemma DecrementExactIff(delta: int64)
    ensures (forall base: int64 :: DecrementFollowsArithmetic(base, delta)) <==> delta != INT64_MIN
  {
    hide ParseWhole, Print;
    forall base: int64 ensures delta != INT64_MIN ==> DecrementFollowsArithmetic(base, delta) {
      ParsePrint(base);
    }
    assert delta == INT64_MIN ==> !DecrementFollowsArithmetic(-1, delta);
  }

  /** In its last second an item is still found, with nothing left to live, while
      Incr already starts a new window with it: the two readings of the deadline
      differ exactly in that second. */
  lemma DeadlineSecond(item: Item, now: uint32, key: Key, delta: int64, ttl: uint32)
    requires item.expiry != 0
    ensures !Expired(item, now) && !StillLive(item, now) <==> item.expiry == now
    ensures item.expiry == now ==>
              var plan := Plan(Incr(key, delta, ttl), Some(item), now);
              && plan.Write? && plan.stored == IncrReply(true, OrOne(delta), true, NoMessage)
              && plan.value == Print(OrOne(delta)) && plan.ttl == ttl && plan.creation == 0
  {
  }

  // ----- what each operation does, in terms of what a later find sees -----

  /** A find of the key at second `t` gives `value`, from second `now` on for
      exactly `ttl` seconds, or for ever without a ttl, unless the deadline wraps
      around in uint32: one of exactly 2^32 wraps to "no expiry", a later one lies
      in the past and hides the item at once. */
  predicate FoundFor(store: Store, key: Key, value: Value, ttl: uint32, now: uint32, t: uint32) {
    var found := Find(store, key, t);
    && (found.Some? <==> ttl == 0 || now + ttl == TWO32 || t <= now + ttl < TWO32)
    && (found.Some? ==> found.value.value == value && found.value.creation == now)
  }

  /** Only the item of `key` differs, if any. */
  predicate OthersKept(before: Store, after: Store, key: Key) { after - {key} == before - {key} }

  lemma StampedLifetime(store: Store, key: Key, value: Value, ttl: uint32, now: uint32, t: uint32)
    requires 0 < now <= t
    ensures FoundFor(store[key := Stamp(value, ttl, 0, now)], key, value, ttl, now, t)
  {
  }

  lemma WriteKeepsOthers(store: Store, key: Key, item: Item)
    ensures OthersKept(store, store[key := item], key)
  {
  }

  /** SetNX: a key that is found is reported and nothing changes; otherwise the
      value is stored for its ttl, or nothing happens when it cannot be. */
  lemma SetNXOutcome(store: Store, key: Key, value: Value, ttl: uint32, env: Env, t: uint32)
    requires 0 < env.alloc <= t
    ensures var (after, reply) := Exec(store, SetNX(key, value, ttl), env);
            var found := Find(store, key, env.find);
            && (found.Some? ==> after == store && reply == SetNXReply(false, store[key].value))
            && (found.None? && !env.stored ==> after == store && reply == SetNXReply(false, []))
            && (found.None? && env.stored ==>
                  && reply == SetNXReply(true, []) && OthersKept(store, after, key)
                  && FoundFor(after, key, value, ttl, env.alloc, t))
  {
    hide FoundFor, OthersKept;
    StampedLifetime(store, key, value, ttl, env.alloc, t);
    WriteKeepsOthers(store, key, Stamp(value, ttl, 0, env.alloc));
  }

  /** Touch: a missing key is reported; a stored touch keeps the value and renews
      the lifetime from the current second, whatever was left of the old one. */
  lemma TouchOutcome(store: Store, key: Key, ttl: uint32, env: Env, t: uint32)
    requires 0 < env.alloc <= t
    ensures var (after, reply) := Exec(store, Touch(key, ttl), env);
            var found := Find(store, key, env.find);
            && (found.None? ==> after == store && reply == TouchReply(false, KeyNotFound))
            && (found.Some? && !env.stored ==> after == store && reply == TouchReply(false, TtlUpdateFailed))
            && (found.Some? && env.stored ==>
                  && reply == TouchReply(true, TtlUpdated) && OthersKept(store, after, key)
                  && FoundFor(after, key, store[key].value, ttl, env.alloc, t))
  {
    hide FoundFor, OthersKept;
    if Find(store, key, env.find).Some? {
      StampedLifetime(store, key, store[key].value, ttl, env.alloc, t);
      WriteKeepsOthers(store, key, Stamp(store[key].value, ttl, 0, env.alloc));
    }
  }

  /** CompareAndSwap: only a key found with the expected value is replaced, with
      its old deadline or with the new ttl; the reply tells the value found, or
      the new one. */
  lemma CasOutcome(store: Store, key: Key, expected: Value, proposed: Value, ttl: uint32, keepTtl: bool, env: Env, t: uint32)
    requires 0 < env.alloc <= t && (key in store ==> ItemOk(store[key]))
    ensures var (after, reply) := Exec(store, CompareAndSwap(key, expected, proposed, ttl, keepTtl), env);
            var found := Find(store, key, env.find);
            var swaps := found.Some? && store[key].value == expected && env.stored;
            && (!swaps ==> after == store && reply == CasReply(false, if found.Some? then store[key].value else []))
            && (swaps ==>
                  && reply == CasReply(true, proposed) && OthersKept(store, after, key)
                  && (!keepTtl ==> FoundFor(after, key, proposed, ttl, env.alloc, t))
                  && (keepTtl ==> key in after && after[key] == store[key].(value := proposed)))
  {
    hide FoundFor, OthersKept;
    if Find(store, key, env.find).Some? {
      var item := store[key];
      StampedLifetime(store, key, proposed, ttl, env.alloc, t);
      RestampKeepsDeadline(item, proposed, env.alloc);
      WriteKeepsOthers(store, key, Stamp(proposed, ttl, 0, env.alloc));
      WriteKeepsOthers(store, key, item.(value := proposed));
    }
  }

  /** The number a counter call starts from: what the key says when the call
      counts on from it, and 0 otherwise. */
  function Base(found: Option<Item>, countsOn: bool): Option<int64> {
    if found.Some? && countsOn then ParseWhole(found.value.value) else Some(0)
  }

  datatype Verdict = Refused(message: Message) | Moves(sum: int64)

  /** What becomes of adding `step` to a base. */
  predicate Adds(base: Option<int64>, step: int, stored: bool, verdict: Verdict) {
    match verdict
    case Refused(message) =>
      || (message.NotAnInteger? && base.None?)
      || (message.WouldOverflow? && base.Some? && !Representable(base.value as int + step))
      || (message.StoreFailed? && base.Some? && Representable(base.value as int + step) && !stored)
    case Moves(sum) => base.Some? && stored && sum as int == base.value as int + step
  }

  /** The store after a counter call that moved the key to `sum`: the old
      deadline when the call counts on, the given ttl otherwise. */
  ghost predicate CounterMoved(store: Store, after: Store, key: Key, sum: int64, kept: bool, ttl: uint32, now: uint32, t: uint32) {
    && OthersKept(store, after, key)
    && (kept ==> key in store && key in after && after[key] == store[key].(value := Print(sum)))
    && (!kept ==> FoundFor(after, key, Print(sum), ttl, now, t))
  }

  lemma WriteMoves(store: Store, key: Key, sum: int64, kept: bool, ttl: uint32, now: uint32, t: uint32)
    requires 0 < now <= t && (kept ==> key in store && ItemOk(store[key]))
    ensures var item := if kept then Stamp(Print(sum), KeptTtl(store[key]), store[key].creation, now)
                        else Stamp(Print(sum), ttl, 0, now);
            CounterMoved(store, store[key := item], key, sum, kept, ttl, now, t)
  {
    hide FoundFor, OthersKept, Stamp, Print, KeptTtl, ItemOk;
    StampedLifetime(store, key, Print(sum), ttl, now, t);
    if kept { RestampKeepsDeadline(store[key], Print(sum), now); }
    var item := if kept then Stamp(Print(sum), KeptTtl(store[key]), store[key].creation, now)
                else Stamp(Print(sum), ttl, 0, now);
    WriteKeepsOthers(store, key, item);
  }

  /** Increment and Decrement: a delta of 0 means 1; the new number is the old one
      plus or minus the delta, exactly when it is a number, the result fits and
      the write succeeds (Decrement by INT64_MIN apart). Without a ttl an existing
      key keeps its deadline. */
  lemma CountOutcome(store: Store, op: Op, env: Env, t: uint32)
    requires (op.Increment? || (op.Decrement? && op.delta != INT64_MIN)) && 0 < env.alloc <= t
    requires op.key in store ==> ItemOk(store[op.key])
    ensures var (after, reply) := Exec(store, op, env);
            var found := Find(store, op.key, env.find);
            var delta := if op.delta == 0 then 1 else op.delta as int;
            var step := if op.Increment? then delta else -delta;
            && reply.CountReply?
            && (!reply.success ==> after == store && reply.newValue == 0
                                   && Adds(Base(found, true), step, env.stored, Refused(reply.message)))
            && (reply.success ==> reply.message.NoMessage?
                                  && Adds(Base(found, true), step, env.stored, Moves(reply.newValue))
                                  && CounterMoved(store, after, op.key, reply.newValue, found.Some? && op.ttl == 0,
                                                  op.ttl, env.alloc, t))
  {
    hide ParseWhole, Print, Stamp, CounterMoved, KeptTtl;
    var found := Find(store, op.key, env.find);
    var plan := Plan(op, found, env.now);
    if plan.Write? {
      WriteMoves(store, op.key, plan.stored.newValue, found.Some? && op.ttl == 0, op.ttl, env.alloc, t);
    }
  }

  /** Decrement by INT64_MIN is refused whatever the key holds. */
  lemma CannotNegateOutcome(store: Store, key: Key, ttl: uint32, env: Env)
    ensures Exec(store, Decrement(key, INT64_MIN, ttl), env) == (store, CountReply(false, 0, CannotNegate))
  {
  }

  /** Incr: counts on while the deadline lies ahead, keeping it, and otherwise
      starts again from 0 with the given ttl and says so. */
  lemma IncrOutcome(store: Store, key: Key, delta: int64, ttl: uint32, env: Env, t: uint32)
    requires 0 < env.alloc <= t && (key in store ==> ItemOk(store[key]))
    ensures var (after, reply) := Exec(store, Incr(key, delta, ttl), env);
            var found := Find(store, key, env.find);
            var step := if delta == 0 then 1 else delta as int;
            var live := found.Some? && (store[key].expiry == 0 || env.now < store[key].expiry);
            && reply.IncrReply?
            && (!reply.success ==> after == store && reply.value == 0 && !reply.ttlSet
                                   && Adds(Base(found, live), step, env.stored, Refused(reply.message)))
            && (reply.success ==> reply.message.NoMessage? && reply.ttlSet == !live
                                  && Adds(Base(found, live), step, env.stored, Moves(reply.value))
                                  && CounterMoved(store, after, key, reply.value, live, ttl, env.alloc, t))
  {
    hide ParseWhole, Print, Stamp, CounterMoved, KeptTtl;
    var found := Find(store, key, env.find);
    var plan := Plan(Incr(key, delta, ttl), found, env.now);
    if plan.Write? {
      WriteMoves(store, key, plan.stored.value, found.Some? && StillLive(found.value, env.now), ttl, env.alloc, t);
    }
  }
}
