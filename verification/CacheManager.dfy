/** CacheManager: the class that owns the store and the operation counters. Each
    atomic operation is written as the source has it and proved to be one
    `Exec` of the specification. */
module CacheManagement {

  import opened Options
  import opened CounterText
  import opened CacheStore

  datatype GetResult = GetResult(found: bool, value: Value, ttlRemaining: int)

  /** Seconds left as reported to clients: -1 without expiry, never negative otherwise. */
  function Remaining(item: Item, now: uint32): int {
    if item.expiry == 0 then -1 else if item.expiry > now then item.expiry - now else 0
  }

  function GetReply(found: Option<Item>, now: uint32): GetResult {
    if found.None? then GetResult(false, [], 0)
    else GetResult(true, found.value.value, Remaining(found.value, now))
  }

  /** What a client learns about a deadline at second `now`: -1 when there is
      none, the seconds up to it while it lies ahead, 0 in and after it. */
  predicate Tells(ttlRemaining: int, item: Item, now: uint32) {
    && (item.expiry == 0 ==> ttlRemaining == -1)
    && (item.expiry > now ==> now + ttlRemaining == item.expiry)
    && (0 < item.expiry <= now ==> ttlRemaining == 0)
  }

  /** Get after a stored Set returns the value that was set for exactly its ttl,
      and the remaining seconds add up to the deadline. */
  lemma GetAfterSet(store: Store, key: Key, value: Value, ttl: uint32, now: uint32, get: Env)
    requires 0 < now <= get.find <= get.now && now + ttl < TWO32
    ensures var r := GetReply(Find(store[key := Stamp(value, ttl, 0, now)], key, get.find), get.now);
            && (ttl == 0 ==> r == GetResult(true, value, -1))
            && (ttl > 0 && get.find > now + ttl ==> r == GetResult(false, [], 0))
            && (ttl > 0 && get.find <= now + ttl ==>
                  && r.found && r.value == value
                  && (get.now < now + ttl ==> get.now + r.ttlRemaining == now + ttl)
                  && (get.now >= now + ttl ==> r.ttlRemaining == 0))
  {
    StampedLifetime(store, key, value, ttl, now, get.find);
  }

  class CacheManager {
    const maxItemSize: nat
    var ready: bool
    var store: Store
    var getCount: nat
    var hitCount: nat
    var missCount: nat
    var setCount: nat
    var deleteCount: nat

    constructor (maxItemSize: nat)
      ensures this.maxItemSize == maxItemSize && ready && store == map[]
      ensures getCount == hitCount == missCount == setCount == deleteCount == 0
    {
      this.maxItemSize := maxItemSize;
      ready, store := true, map[];
      getCount, hitCount, missCount, setCount, deleteCount := 0, 0, 0, 0, 0;
    }

    // ----- basic operations -----

    method Get(key: Key, env: Env) returns (r: GetResult)
      modifies `getCount, `hitCount, `missCount
      ensures r == if ready then GetReply(Find(store, key, env.find), env.now) else GetResult(false, [], 0)
      ensures r.found <==> ready && Find(store, key, env.find).Some?
      ensures r.found ==> r.value == store[key].value && Tells(r.ttlRemaining, store[key], env.now)
      ensures !r.found ==> r.value == [] && r.ttlRemaining == 0
      ensures getCount == old(getCount) + 1
      ensures hitCount == old(hitCount) + (if r.found then 1 else 0)
      ensures missCount == old(missCount) + (if r.found then 0 else 1)
    {
      r := GetResult(false, [], 0);
      getCount := getCount + 1;
      if !ready {
        missCount := missCount + 1;
        return;
      }
      var handle := Find(store, key, env.find);
      if handle.Some? {
        hitCount := hitCount + 1;
        r := r.(found := true, value := handle.value.value);
        if handle.value.expiry == 0 {
          r := r.(ttlRemaining := -1);
        } else if handle.value.expiry > env.now {
          r := r.(ttlRemaining := handle.value.expiry - env.now);
        }
      } else {
        missCount := missCount + 1;
      }
    }

    method Set(key: Key, value: Value, ttl: uint32, env: Env) returns (ok: bool)
      modifies `store, `setCount
      ensures ok == (ready && |value| <= maxItemSize && env.stored)
      ensures store == if ok then old(store)[key := Stamp(value, ttl, 0, env.alloc)] else old(store)
      ensures setCount == old(setCount) + 1
    {
      ok := SetWithCreationTime(key, value, ttl, 0, env);
    }

    method SetWithCreationTime(key: Key, value: Value, ttl: uint32, creation: uint32, env: Env) returns (ok: bool)
      modifies `store, `setCount
      ensures ok == (ready && |value| <= maxItemSize && env.stored)
      ensures store == if ok then old(store)[key := Stamp(value, ttl, creation, env.alloc)] else old(store)
      ensures setCount == old(setCount) + 1
    {
      setCount := setCount + 1;
      if !ready {
        return false;
      }
      if |value| > maxItemSize {
        return false;
      }
      if !env.stored {
        return false;
      }
      store := store[key := Stamp(value, ttl, creation, env.alloc)];
      return true;
    }

    method Remove(key: Key) returns (existed: bool)
      modifies `store, `deleteCount
      ensures existed == (ready && key in old(store))
      ensures store == if ready then old(store) - {key} else old(store)
      ensures deleteCount == old(deleteCount) + 1
    {
      deleteCount := deleteCount + 1;
      if !ready {
        return false;
      }
      existed := key in store;
      store := store - {key};
    }

    method Exists(key: Key, env: Env) returns (found: bool)
      ensures found == (ready && Find(store, key, env.find).Some?)
    {
      if !ready {
        return false;
      }
      return Find(store, key, env.find).Some?;
    }

    method GetTTL(key: Key, env: Env) returns (ttl: int)
      ensures ttl == -2 <==> !ready || Find(store, key, env.find).None?
      ensures ttl != -2 ==> Tells(ttl, store[key], env.now)
    {
      if !ready {
        return -2;
      }
      var handle := Find(store, key, env.find);
      if handle.None? {
        return -2;
      }
      if handle.value.expiry == 0 {
        return -1;
      }
      if handle.value.expiry > env.now {
        return handle.value.expiry - env.now;
      }
      return 0;
    }

    // ----- atomic operations -----

    /** The environment of an atomic call, with the size limit folded into the
        outcome of its one write. */
    function Limited(env: Env, value: Value): Env {
      env.(stored := env.stored && |value| <= maxItemSize)
    }

    /** The value an operation would write here, if any. */
    function Outgoing(op: Op, env: Env): Value
      reads `store
    {
      var plan := Plan(op, Find(store, op.key, env.find), env.now);
      if plan.Write? then plan.value else []
    }

    /** One specified call, plus one set counted for each write it attempts. */
    twostate predicate IsExec(op: Op, env: Env, reply: Reply)
      reads `store, `setCount
    {
      && (store, reply) == Exec(old(store), op, Limited(env, old(Outgoing(op, env))))
      && setCount == old(setCount) + (if Plan(op, Find(old(store), op.key, env.find), env.now).Write? then 1 else 0)
    }

    /** A decision taken on the old store has been carried out. */
    twostate predicate Carried(key: Key, plan: Decision, env: Env, reply: Reply)
      reads `store, `setCount
    {
      match plan
      case Answer(answer) => store == old(store) && setCount == old(setCount) && reply == answer
      case Write(value, ttl, creation, stored, failed) =>
        && setCount == old(setCount) + 1
        && if env.stored && |value| <= maxItemSize
           then store == old(store)[key := Stamp(value, ttl, creation, env.alloc)] && reply == stored
           else store == old(store) && reply == failed
    }

    method SetNX(key: Key, value: Value, ttl: uint32, env: Env) returns (r: Reply)
      modifies `store, `setCount
      ensures ready ==> IsExec(CacheStore.SetNX(key, value, ttl), env, r)
      ensures !ready ==> unchanged(this) && r == SetNXReply(false, [])
    {
      r := SetNXReply(false, []);
      if !ready {
        return;
      }
      var handle := Find(store, key, env.find);
      if handle.Some? {
        r := r.(existing := handle.value.value);
        return;
      }
      var ok := Set(key, value, ttl, env);
      if ok {
        r := r.(wasSet := true);
      }
    }

    method AtomicAddValue(key: Key, delta: int64, ttl: uint32, env: Env) returns (r: Reply)
      modifies `store, `setCount
      ensures ready ==> Carried(key, PlanAdd(Find(old(store), key, env.find), delta, ttl), env, r)
      ensures !ready ==> unchanged(this) && r == CountReply(false, 0, NotInitialized)
    {
      r := CountReply(false, 0, NoMessage);
      if !ready {
        return CountReply(false, 0, NotInitialized);
      }
      var currentValue: int64 := 0;
      var existingTtl := ttl;
      var creationTime: uint32 := 0;
      var handle := Find(store, key, env.find);
      if handle.Some? {
        var parsed := ParseWhole(handle.value.value);
        if parsed.None? {
          return CountReply(false, 0, NotAnInteger);
        }
        currentValue := parsed.value;
        if ttl == 0 {
          creationTime := handle.value.creation;
          existingTtl := if handle.value.expiry == 0 then 0 else SubU32(handle.value.expiry, creationTime);
        }
      }
      var sum := CheckedAdd(currentValue, delta);
      if sum.None? {
        return CountReply(false, 0, WouldOverflow);
      }
      var ok := SetWithCreationTime(key, Print(sum.value), existingTtl, creationTime, env);
      if ok {
        r := CountReply(true, sum.value, NoMessage);
      } else {
        r := CountReply(false, 0, StoreFailed);
      }
    }

    method Increment(key: Key, delta: int64, ttl: uint32, env: Env) returns (r: Reply)
      modifies `store, `setCount
      ensures ready ==> IsExec(CacheStore.Increment(key, delta, ttl), env, r)
      ensures !ready ==> unchanged(this) && r == CountReply(false, 0, NotInitialized)
    {
      var d := delta;
      if d == 0 {
        d := 1;
      }
      r := AtomicAddValue(key, d, ttl, env);
    }

    method Decrement(key: Key, delta: int64, ttl: uint32, env: Env) returns (r: Reply)
      modifies `store, `setCount
      ensures ready ==> IsExec(CacheStore.Decrement(key, delta, ttl), env, r)
      ensures delta == INT64_MIN ==> unchanged(this) && r == CountReply(false, 0, CannotNegate)
      ensures !ready && delta != INT64_MIN ==> unchanged(this) && r == CountReply(false, 0, NotInitialized)
    {
      var d := delta;
      if d == 0 {
        d := 1;
      }
      var negated := CheckedNegate(d);
      if negated.None? {
        return CountReply(false, 0, CannotNegate);
      }
      r := AtomicAddValue(key, negated.value, ttl, env);
    }

    method Incr(key: Key, delta: int64, ttl: uint32, env: Env) returns (r: Reply)
      modifies `store, `setCount
      ensures ready ==> IsExec(CacheStore.Incr(key, delta, ttl), env, r)
      ensures !ready ==> unchanged(this) && r == IncrReply(false, 0, false, NotInitialized)
    {
      r := IncrReply(false, 0, false, NoMessage);
      if !ready {
        return IncrReply(false, 0, false, NotInitialized);
      }
      var d := delta;
      if d == 0 {
        d := 1;
      }
      var baseValue: int64 := 0;
      var writeTtl := ttl;
      var creationTime: uint32 := 0;
      var createdNew := true;
      var handle := Find(store, key, env.find);
      if handle.Some? {
        var expiryTime := handle.value.expiry;
        var stillLive := expiryTime == 0 || expiryTime > env.now;
        if stillLive {
          var parsed := ParseWhole(handle.value.value);
          if parsed.None? {
            return IncrReply(false, 0, false, NotAnInteger);
          }
          baseValue := parsed.value;
          creationTime := handle.value.creation;
          writeTtl := if expiryTime == 0 then 0 else SubU32(expiryTime, creationTime);
          createdNew := false;
        }
      }
      var sum := CheckedAdd(baseValue, d);
      if sum.None? {
        return IncrReply(false, 0, false, WouldOverflow);
      }
      var ok := SetWithCreationTime(key, Print(sum.value), writeTtl, creationTime, env);
      if ok {
        r := IncrReply(true, sum.value, createdNew, NoMessage);
      } else {
        r := IncrReply(false, 0, false, StoreFailed);
      }
    }

    method CompareAndSwap(key: Key, expected: Value, proposed: Value, ttl: uint32, keepTtl: bool, env: Env)
      returns (r: Reply)
      modifies `store, `setCount
      ensures ready ==> IsExec(CacheStore.CompareAndSwap(key, expected, proposed, ttl, keepTtl), env, r)
      ensures !ready ==> unchanged(this) && r == CasReply(false, [])
    {
      r := CasReply(false, []);
      if !ready {
        return;
      }
      var handle := Find(store, key, env.find);
      if handle.None? {
        return;
      }
      r := r.(actual := handle.value.value);
      if r.actual != expected {
        return;
      }
      var effectiveTtl := ttl;
      var creationTime: uint32 := 0;
      if keepTtl {
        creationTime := handle.value.creation;
        effectiveTtl := if handle.value.expiry == 0 then 0 else SubU32(handle.value.expiry, creationTime);
      }
      var ok := SetWithCreationTime(key, proposed, effectiveTtl, creationTime, env);
      if ok {
        r := CasReply(true, proposed);
      }
    }

    method Touch(key: Key, ttl: uint32, env: Env) returns (r: Reply)
      modifies `store, `setCount
      ensures ready ==> IsExec(CacheStore.Touch(key, ttl), env, r)
      ensures !ready ==> unchanged(this) && r == TouchReply(false, NotInitialized)
    {
      r := TouchReply(false, NoMessage);
      if !ready {
        return TouchReply(false, NotInitialized);
      }
      var handle := Find(store, key, env.find);
      if handle.None? {
        return TouchReply(false, KeyNotFound);
      }
      var ok := Set(key, handle.value.value, ttl, env);
      if ok {
        r := TouchReply(true, TtlUpdated);
      } else {
        r := TouchReply(false, TtlUpdateFailed);
      }
    }
  }
}
