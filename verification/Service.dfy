/** The gRPC handlers over CacheManager: the unary calls, the batch calls, and
    the Pipeline stream that repeats the unary logic in its own switch. */
module Service {

  import opened CacheStore
  import opened CacheManagement

  datatype Request =
    | GetRequest(key: Key)
    | SetRequest(key: Key, value: Value, ttlSeconds: int)
    | DeleteRequest(key: Key)
    | ExistsRequest(key: Key)
    | UnknownRequest

  datatype Response =
    | GetResponse(result: GetResult)
    | SetResponse(success: bool, sizeBytes: nat)
    | DeleteResponse(existed: bool)
    | ExistsResponse(present: bool)
    | KeyCannotBeEmpty
    | UnknownOperation
    | Unavailable

  /** Positive TTLs are narrowed to 32 bits without a range check. */
  function Narrow(ttlSeconds: int): uint32 { if ttlSeconds > 0 then ttlSeconds % TWO32 else 0 }

  predicate Storable(value: Value, maxItemSize: nat, env: Env) { |value| <= maxItemSize && env.stored }

  function SetIn(store: Store, key: Key, value: Value, ttl: uint32, maxItemSize: nat, env: Env): Store {
    if Storable(value, maxItemSize, env) then store[key := Stamp(value, ttl, 0, env.alloc)] else store
  }

  /** One request answered alone, on a ready cache. */
  function Serve(store: Store, maxItemSize: nat, request: Request, env: Env): (Store, Response) {
    if request.UnknownRequest? then (store, UnknownOperation)
    else if request.key == [] then (store, KeyCannotBeEmpty)
    else match request
      case GetRequest(key) => (store, GetResponse(GetReply(Find(store, key, env.find), env.now)))
      case SetRequest(key, value, ttl) =>
        var ok := Storable(value, maxItemSize, env);
        (SetIn(store, key, value, Narrow(ttl), maxItemSize, env), SetResponse(ok, if ok then |value| else 0))
      case DeleteRequest(key) => (store - {key}, DeleteResponse(key in store))
      case ExistsRequest(key) => (store, ExistsResponse(Find(store, key, env.find).Some?))
  }

  /** Requests answered one after the other. */
  function ServeAll(store: Store, maxItemSize: nat, requests: seq<(nat, Request, Env)>): (Store, seq<(nat, Response)>) {
    if requests == [] then (store, [])
    else
      var (id, request, env) := requests[|requests| - 1];
      var (before, responses) := ServeAll(store, maxItemSize, requests[..|requests| - 1]);
      var (after, response) := Serve(before, maxItemSize, request, env);
      (after, responses + [(id, response)])
  }

  lemma ServeAllSnoc(store: Store, maxItemSize: nat, requests: seq<(nat, Request, Env)>, i: nat)
    requires i < |requests|
    ensures var (before, responses) := ServeAll(store, maxItemSize, requests[..i]);
            var (after, response) := Serve(before, maxItemSize, requests[i].1, requests[i].2);
            ServeAll(store, maxItemSize, requests[..i + 1]) == (after, responses + [(requests[i].0, response)])
  {
    assert requests[..i + 1][..i] == requests[..i];
  }

  /** Set then Get, through the handlers: a value within the size limit that could
      be allocated comes back for exactly its ttl; otherwise Get answers as before. */
  lemma SetThenGet(store: Store, maxItemSize: nat, key: Key, value: Value, ttlSeconds: int, first: Env, second: Env)
    requires key != [] && 0 < first.alloc <= second.find <= second.now && first.alloc + ttlSeconds < TWO32
    ensures var (after, answer) := Serve(store, maxItemSize, SetRequest(key, value, ttlSeconds), first);
            var response := Serve(after, maxItemSize, GetRequest(key), second).1;
            var deadline := first.alloc + ttlSeconds;
            if |value| <= maxItemSize && first.stored then
              && answer == SetResponse(true, |value|) && OthersKept(store, after, key)
              && response.GetResponse?
              && (ttlSeconds <= 0 ==> response.result == GetResult(true, value, -1))
              && (ttlSeconds > 0 && second.find > deadline ==> response.result == GetResult(false, [], 0))
              && (ttlSeconds > 0 && second.find <= deadline ==>
                    && response.result.found && response.result.value == value
                    && (second.now < deadline ==> second.now + response.result.ttlRemaining == deadline)
                    && (second.now >= deadline ==> response.result.ttlRemaining == 0))
            else
              answer == SetResponse(false, 0) && after == store
  {
    GetAfterSet(store, key, value, if ttlSeconds > 0 then ttlSeconds else 0, first.alloc, second);
  }

  /** The narrowing keeps the ttl if and only if it fits in 32 bits; a multiple of
      2^32 becomes "no expiry". */
  lemma NarrowKeepsIff(ttlSeconds: int)
    requires ttlSeconds > 0
    ensures Narrow(ttlSeconds) == ttlSeconds <==> ttlSeconds < 0x1_0000_0000
    ensures Narrow(ttlSeconds) == 0 <==> exists k :: ttlSeconds == k * 0x1_0000_0000
    ensures ttlSeconds < 0x2_0000_0000 && ttlSeconds >= 0x1_0000_0000 ==>
              Narrow(ttlSeconds) == ttlSeconds - 0x1_0000_0000
  {
    if Narrow(ttlSeconds) == 0 {
      assert ttlSeconds == (ttlSeconds / 0x1_0000_0000) * 0x1_0000_0000;
    }
  }

  /** Delete removes the key for good, found or expired, and says whether the raw
      table had it; Exists says what Get would. */
  lemma DeleteThenGone(store: Store, maxItemSize: nat, key: Key, env: Env, later: Env)
    requires key != []
    ensures var (after, answer) := Serve(store, maxItemSize, DeleteRequest(key), env);
            && (answer == DeleteResponse(true) <==> key in store) && (answer == DeleteResponse(false) <==> key !in store)
            && key !in after && OthersKept(store, after, key)
            && Serve(after, maxItemSize, GetRequest(key), later) == (after, GetResponse(GetResult(false, [], 0)))
            && Serve(after, maxItemSize, ExistsRequest(key), later) == (after, ExistsResponse(false))
  {
  }

  lemma ExistsAgreesWithGet(store: Store, maxItemSize: nat, key: Key, env: Env)
    requires key != []
    ensures var got, present := Serve(store, maxItemSize, GetRequest(key), env), Serve(store, maxItemSize, ExistsRequest(key), env);
            got.0 == present.0 == store && got.1.GetResponse? && present.1 == ExistsResponse(got.1.result.found)
  {
  }

  lemma {:induction false} ResponseCount(store: Store, maxItemSize: nat, requests: seq<(nat, Request, Env)>, n: nat)
    requires n <= |requests|
    ensures |ServeAll(store, maxItemSize, requests[..n]).1| == n
  {
    hide Serve;
    if n > 0 {
      ResponseCount(store, maxItemSize, requests, n - 1);
      ServeAllSnoc(store, maxItemSize, requests, n - 1);
    }
  }

  lemma {:induction false} ResponsesStay(store: Store, maxItemSize: nat, requests: seq<(nat, Request, Env)>, i: nat, n: nat)
    requires i < n <= |requests|
    ensures ServeAll(store, maxItemSize, requests[..i + 1]).1 <= ServeAll(store, maxItemSize, requests[..n]).1
  {
    hide Serve;
    if i + 1 < n {
      ResponsesStay(store, maxItemSize, requests, i, n - 1);
      ServeAllSnoc(store, maxItemSize, requests, n - 1);
    }
  }

  /** One response per request, in order and under its sequence id, each the
      answer of the unary handler after the requests before it. */
  lemma OneResponseEach(store: Store, maxItemSize: nat, requests: seq<(nat, Request, Env)>, i: nat)
    requires i < |requests|
    ensures var (_, responses) := ServeAll(store, maxItemSize, requests);
            var before := ServeAll(store, maxItemSize, requests[..i]).0;
            && |responses| == |requests|
            && responses[i] == (requests[i].0, Serve(before, maxItemSize, requests[i].1, requests[i].2).1)
  {
    hide Serve, ServeAll;
    assert requests[..|requests|] == requests;
    ResponseCount(store, maxItemSize, requests, |requests|);
    ResponseCount(store, maxItemSize, requests, i);
    ServeAllSnoc(store, maxItemSize, requests, i);
    ResponsesStay(store, maxItemSize, requests, i, |requests|);
  }

  /** Requests that are malformed or have an empty key are refused by themselves:
      the store goes on as if they had not been sent. */
  lemma BadRequestsAreSkipped(store: Store, maxItemSize: nat, requests: seq<(nat, Request, Env)>, i: nat)
    requires i < |requests| && (requests[i].1.UnknownRequest? || requests[i].1.key == [])
    ensures ServeAll(store, maxItemSize, requests[..i + 1]).0 == ServeAll(store, maxItemSize, requests[..i]).0
    ensures var responses := ServeAll(store, maxItemSize, requests).1;
            && |responses| == |requests|
            && responses[i].1 == if requests[i].1.UnknownRequest? then UnknownOperation else KeyCannotBeEmpty
  {
    hide Serve, ServeAll;
    OneResponseEach(store, maxItemSize, requests, i);
    ServeAllSnoc(store, maxItemSize, requests, i);
    BadRequestsChangeNothing(ServeAll(store, maxItemSize, requests[..i]).0, maxItemSize, requests[i].1, requests[i].2);
  }

  lemma BadRequestsChangeNothing(store: Store, maxItemSize: nat, request: Request, env: Env)
    ensures request.UnknownRequest? ==> Serve(store, maxItemSize, request, env) == (store, UnknownOperation)
    ensures !request.UnknownRequest? && request.key == [] ==>
              Serve(store, maxItemSize, request, env) == (store, KeyCannotBeEmpty)
  {
  }

  // ----- batches -----

  datatype BatchItem = BatchItem(key: Key, value: Value, ttlSeconds: int, env: Env)

  function NonEmpty(items: seq<BatchItem>): seq<BatchItem> {
    if items == [] then []
    else NonEmpty(items[..|items| - 1]) + (if items[|items| - 1].key == [] then [] else [items[|items| - 1]])
  }

  /** Store and failed keys after setting the items in order. */
  function Sets(store: Store, maxItemSize: nat, items: seq<BatchItem>): (Store, seq<Key>) {
    if items == [] then (store, [])
    else
      var e := items[|items| - 1];
      var (before, failed) := Sets(store, maxItemSize, items[..|items| - 1]);
      (SetIn(before, e.key, e.value, Narrow(e.ttlSeconds), maxItemSize, e.env),
       if Storable(e.value, maxItemSize, e.env) then failed else failed + [e.key])
  }

  lemma SetsSnoc(store: Store, maxItemSize: nat, items: seq<BatchItem>, i: nat)
    requires i < |items|
    ensures var (before, failed) := Sets(store, maxItemSize, items[..i]);
            var e := items[i];
            Sets(store, maxItemSize, items[..i + 1])
            == (SetIn(before, e.key, e.value, Narrow(e.ttlSeconds), maxItemSize, e.env),
                if Storable(e.value, maxItemSize, e.env) then failed else failed + [e.key])
  {
    assert items[..i + 1][..i] == items[..i];
  }

  predicate Stores(e: BatchItem, key: Key, maxItemSize: nat) {
    e.key == key && Storable(e.value, maxItemSize, e.env)
  }

  predicate Fails(e: BatchItem, maxItemSize: nat) { e.key != [] && !Storable(e.value, maxItemSize, e.env) }

  function FailuresOf(items: seq<BatchItem>, maxItemSize: nat): set<nat> {
    set i: nat | i < |items| && Fails(items[i], maxItemSize)
  }

  function NamedOf(items: seq<BatchItem>): set<nat> { set i: nat | i < |items| && items[i].key != [] }

  lemma NamedNext(front: seq<BatchItem>, e: BatchItem)
    ensures NamedOf(front + [e]) == NamedOf(front) + (if e.key != [] then {|front|} else {})
    ensures |front| !in NamedOf(front)
  {
  }

  lemma FailuresNext(front: seq<BatchItem>, e: BatchItem, maxItemSize: nat)
    ensures FailuresOf(front + [e], maxItemSize)
            == FailuresOf(front, maxItemSize) + (if Fails(e, maxItemSize) then {|front|} else {})
    ensures |front| !in FailuresOf(front, maxItemSize)
  {
    hide Fails;
  }

  /** One more item of a batch. */
  lemma BatchSnoc(store: Store, maxItemSize: nat, front: seq<BatchItem>, e: BatchItem)
    ensures NonEmpty(front + [e]) == NonEmpty(front) + (if e.key == [] then [] else [e])
    ensures var (before, failed) := Sets(store, maxItemSize, NonEmpty(front));
            Sets(store, maxItemSize, NonEmpty(front + [e])) ==
            if e.key == [] then (before, failed)
            else (SetIn(before, e.key, e.value, Narrow(e.ttlSeconds), maxItemSize, e.env),
                  if Storable(e.value, maxItemSize, e.env) then failed else failed + [e.key])
  {
    hide SetIn, Storable;
    assert (front + [e])[..|front|] == front;
    var kept := NonEmpty(front);
    if e.key == [] {
      assert kept + [] == kept;
    } else {
      assert (kept + [e])[..|kept|] == kept;
    }
  }

  /** Items with an empty key are neither set nor counted; of the others, those
      that could not be stored are the failures. */
  lemma {:induction false} BatchIsCounted(store: Store, maxItemSize: nat, items: seq<BatchItem>)
    ensures |NonEmpty(items)| == |NamedOf(items)|
    ensures |Sets(store, maxItemSize, NonEmpty(items)).1| == |FailuresOf(items, maxItemSize)|
  {
    if items == [] {
      assert NamedOf(items) == {} && FailuresOf(items, maxItemSize) == {};
    } else {
      hide Sets, NonEmpty, SetIn, Storable, NamedOf, FailuresOf;
      var front, e := items[..|items| - 1], items[|items| - 1];
      assert items == front + [e];
      BatchIsCounted(store, maxItemSize, front);
      BatchSnoc(store, maxItemSize, front, e);
      NamedNext(front, e);
      FailuresNext(front, e, maxItemSize);
    }
  }

  ghost predicate FailsFor(items: seq<BatchItem>, maxItemSize: nat, key: Key) {
    exists i :: 0 <= i < |items| && Fails(items[i], maxItemSize) && items[i].key == key
  }

  /** The reported keys are those of the failures. */
  lemma {:induction false} FailuresAreReported(store: Store, maxItemSize: nat, items: seq<BatchItem>, key: Key)
    ensures key in Sets(store, maxItemSize, NonEmpty(items)).1 <==> FailsFor(items, maxItemSize, key)
  {
    if items != [] {
      hide Sets, NonEmpty, SetIn, Storable, FailsFor;
      var front, e := items[..|items| - 1], items[|items| - 1];
      assert items == front + [e];
      FailuresAreReported(store, maxItemSize, front, key);
      BatchSnoc(store, maxItemSize, front, e);
      FailsForNext(front, e, maxItemSize, key);
    }
  }

  lemma FailsForNext(front: seq<BatchItem>, e: BatchItem, maxItemSize: nat, key: Key)
    ensures FailsFor(front + [e], maxItemSize, key)
            <==> FailsFor(front, maxItemSize, key) || (Fails(e, maxItemSize) && e.key == key)
  {
    hide Fails;
    var items := front + [e];
    assert items[|front|] == e && forall i :: 0 <= i < |front| ==> items[i] == front[i];
    if FailsFor(front, maxItemSize, key) {
      var i :| 0 <= i < |front| && Fails(front[i], maxItemSize) && front[i].key == key;
      assert items[i] == front[i];
    }
  }

  /** After MultiSet each key holds its last stored item of the request, or its
      old one when none was stored. */
  lemma {:induction false} LastRequestWins(store: Store, maxItemSize: nat, items: seq<BatchItem>, key: Key, w: int)
    requires key != [] && -1 <= w < |items|
    requires w >= 0 ==> Stores(items[w], key, maxItemSize)
    requires forall i :: w < i < |items| ==> !Stores(items[i], key, maxItemSize)
    ensures var after := Sets(store, maxItemSize, NonEmpty(items)).0;
            if w >= 0
            then key in after && after[key] == Stamp(items[w].value, Narrow(items[w].ttlSeconds), 0, items[w].env.alloc)
            else (key in after <==> key in store) && (key in store ==> after[key] == store[key])
  {
    if items != [] {
      hide Sets, NonEmpty, Narrow, Stamp;
      var front, e := items[..|items| - 1], items[|items| - 1];
      assert items == front + [e];
      BatchSnoc(store, maxItemSize, front, e);
      assert forall i :: 0 <= i < |front| ==> items[i] == front[i];
      if w < |items| - 1 {
        LastRequestWins(store, maxItemSize, front, key, w);
        assert !Stores(e, key, maxItemSize);
      }
    }
  }

  function Requested(keys: seq<Key>): set<Key> { set k | k in keys }

  /** Deletions counted one by one. */
  function DeletedCount(store: Store, keys: seq<Key>): nat {
    if keys == [] then 0
    else
      var before := keys[..|keys| - 1];
      DeletedCount(store, before)
      + (if keys[|keys| - 1] in store && keys[|keys| - 1] !in before then 1 else 0)
  }

  /** ... are the distinct requested keys that were present. */
  lemma {:induction false} DeletedAreDistinctPresent(store: Store, keys: seq<Key>)
    ensures DeletedCount(store, keys) == |Requested(keys) * store.Keys|
  {
    if keys != [] {
      var before, k := keys[..|keys| - 1], keys[|keys| - 1];
      DeletedAreDistinctPresent(store, before);
      assert Requested(keys) == Requested(before) + {k};
      OneMoreRequested(Requested(before), store.Keys, k);
    }
  }

  lemma DeleteStep(store: Store, keys: seq<Key>, i: nat)
    requires i < |keys|
    ensures var before, after := keys[..i], keys[..i + 1];
            && store - Requested(before) - {keys[i]} == store - Requested(after)
            && DeletedCount(store, after)
               == DeletedCount(store, before) + (if keys[i] in store - Requested(before) then 1 else 0)
  {
    assert keys[..i + 1][..i] == keys[..i];
    assert Requested(keys[..i + 1]) == Requested(keys[..i]) + {keys[i]};
  }

  lemma NothingDeleted(store: Store)
    ensures DeletedCount(store, []) == 0 && store - Requested([]) == store
  {
  }

  lemma OneMoreRequested(requested: set<Key>, present: set<Key>, k: Key)
    ensures |(requested + {k}) * present|
            == |requested * present| + (if k in present && k !in requested then 1 else 0)
  {
    if k in present && k !in requested {
      assert (requested + {k}) * present == (requested * present) + {k};
    } else {
      assert (requested + {k}) * present == requested * present;
    }
  }

  class CacheService {
    const manager: CacheManager

    constructor (manager: CacheManager)
      ensures this.manager == manager
    {
      this.manager := manager;
    }

    /** The unary Get handler; Set, Delete and Exists below are its siblings. */
    method Get(key: Key, env: Env) returns (r: Response)
      modifies manager`getCount, manager`hitCount, manager`missCount
      ensures manager.ready ==> (manager.store, r) == Serve(old(manager.store), manager.maxItemSize, GetRequest(key), env)
      ensures !manager.ready ==> r == Unavailable
    {
      if !manager.ready {
        return Unavailable;
      }
      if key == [] {
        return KeyCannotBeEmpty;
      }
      var result := manager.Get(key, env);
      return GetResponse(result);
    }

    method Set(key: Key, value: Value, ttlSeconds: int, env: Env) returns (r: Response)
      modifies manager`store, manager`setCount
      ensures manager.ready ==>
                (manager.store, r) == Serve(old(manager.store), manager.maxItemSize, SetRequest(key, value, ttlSeconds), env)
      ensures !manager.ready ==> manager.store == old(manager.store) && r == Unavailable
    {
      if !manager.ready {
        return Unavailable;
      }
      if key == [] {
        return KeyCannotBeEmpty;
      }
      var ttl := 0;
      if ttlSeconds > 0 {
        ttl := ttlSeconds % TWO32;
      }
      var ok := manager.Set(key, value, ttl, env);
      return SetResponse(ok, if ok then |value| else 0);
    }

    method Delete(key: Key, env: Env) returns (r: Response)
      modifies manager`store, manager`deleteCount
      ensures manager.ready ==> (manager.store, r) == Serve(old(manager.store), manager.maxItemSize, DeleteRequest(key), env)
      ensures !manager.ready ==> manager.store == old(manager.store) && r == Unavailable
    {
      if !manager.ready {
        return Unavailable;
      }
      if key == [] {
        return KeyCannotBeEmpty;
      }
      var existed := manager.Remove(key);
      return DeleteResponse(existed);
    }

    method Exists(key: Key, env: Env) returns (r: Response)
      ensures manager.ready ==> (manager.store, r) == Serve(manager.store, manager.maxItemSize, ExistsRequest(key), env)
      ensures !manager.ready ==> r == Unavailable
    {
      if !manager.ready {
        return Unavailable;
      }
      if key == [] {
        return KeyCannotBeEmpty;
      }
      var found := manager.Exists(key, env);
      return ExistsResponse(found);
    }

    /** The stream: same store and same responses as the unary handlers in order. */
    method Pipeline(requests: seq<(nat, Request, Env)>) returns (available: bool, responses: seq<(nat, Response)>)
      modifies manager
      ensures available == manager.ready == old(manager.ready)
      ensures available ==> (manager.store, responses) == ServeAll(old(manager.store), manager.maxItemSize, requests)
      ensures !available ==> manager.store == old(manager.store) && responses == []
    {
      if !manager.ready {
        return false, [];
      }
      responses := [];
      var i := 0;
      while i < |requests|
        invariant 0 <= i <= |requests| && manager.ready
        invariant (manager.store, responses) == ServeAll(old(manager.store), manager.maxItemSize, requests[..i])
      {
        var (id, request, env) := requests[i];
        ServeAllSnoc(old(manager.store), manager.maxItemSize, requests, i);
        var response := Dispatch(request, env);
        responses := responses + [(id, response)];
        i := i + 1;
      }
      assert requests[..i] == requests;
      return true, responses;
    }

    /** The switch inside the stream loop. */
    method Dispatch(request: Request, env: Env) returns (response: Response)
      requires manager.ready
      modifies manager
      ensures manager.ready
      ensures (manager.store, response) == Serve(old(manager.store), manager.maxItemSize, request, env)
    {
      match request
      case GetRequest(key) =>
        if key == [] { return KeyCannotBeEmpty; }
        var result := manager.Get(key, env);
        return GetResponse(result);
      case SetRequest(key, value, ttlSeconds) =>
        if key == [] { return KeyCannotBeEmpty; }
        var ttl := if ttlSeconds > 0 then ttlSeconds % TWO32 else 0;
        var success := manager.Set(key, value, ttl, env);
        return SetResponse(success, if success then |value| else 0);
      case DeleteRequest(key) =>
        if key == [] { return KeyCannotBeEmpty; }
        var existed := manager.Remove(key);
        return DeleteResponse(existed);
      case ExistsRequest(key) =>
        if key == [] { return KeyCannotBeEmpty; }
        var found := manager.Exists(key, env);
        return ExistsResponse(found);
      case UnknownRequest =>
        return UnknownOperation;
    }

    /** MultiSet: empty-key items are dropped before counting; the rest are set in order. */
    method MultiSet(items: seq<BatchItem>)
      returns (available: bool, succeeded: int, failed: int, failedKeys: seq<Key>)
      modifies manager`store, manager`setCount
      ensures available == manager.ready
      ensures !available ==> manager.store == old(manager.store)
      ensures available ==> (manager.store, failedKeys) == Sets(old(manager.store), manager.maxItemSize, NonEmpty(items))
      ensures available ==> failed == |failedKeys| == |FailuresOf(items, manager.maxItemSize)|
      ensures available ==> succeeded + failed == |NamedOf(items)|
      ensures available ==> forall key :: key in failedKeys <==> FailsFor(items, manager.maxItemSize, key)
    {
      if !manager.ready {
        return false, 0, 0, [];
      }
      BatchIsCounted(manager.store, manager.maxItemSize, items);
      forall key ensures key in Sets(manager.store, manager.maxItemSize, NonEmpty(items)).1
                         <==> FailsFor(items, manager.maxItemSize, key) {
        FailuresAreReported(manager.store, manager.maxItemSize, items, key);
      }
      available := true;
      var kept: seq<BatchItem> := [];
      for j := 0 to |items|
        invariant kept == NonEmpty(items[..j])
      {
        assert items[..j + 1][..j] == items[..j];
        if items[j].key == [] {
          continue;
        }
        kept := kept + [items[j]];
      }
      assert items[..|items|] == items;
      failedKeys := [];
      for i := 0 to |kept|
        invariant (manager.store, failedKeys) == Sets(old(manager.store), manager.maxItemSize, kept[..i])
      {
        SetsSnoc(old(manager.store), manager.maxItemSize, kept, i);
        var ok := manager.Set(kept[i].key, kept[i].value, Narrow(kept[i].ttlSeconds), kept[i].env);
        if !ok {
          failedKeys := failedKeys + [kept[i].key];
        }
      }
      assert kept[..|kept|] == kept;
      succeeded, failed := |kept| - |failedKeys|, |failedKeys|;
    }

    /** MultiDelete: the count is the number of distinct requested keys that were there. */
    method MultiDelete(keys: seq<Key>) returns (available: bool, deleted: int, notFound: int)
      modifies manager`store, manager`deleteCount
      ensures available == manager.ready
      ensures manager.store == if available then old(manager.store) - Requested(keys) else old(manager.store)
      ensures available ==> deleted == |Requested(keys) * old(manager.store).Keys| && deleted + notFound == |keys|
    {
      if !manager.ready {
        return false, 0, 0;
      }
      hide DeletedCount, Requested;
      available, deleted := true, 0;
      NothingDeleted(old(manager.store));
      for i := 0 to |keys|
        invariant manager.store == old(manager.store) - Requested(keys[..i])
        invariant deleted == DeletedCount(old(manager.store), keys[..i])
      {
        DeleteStep(old(manager.store), keys, i);
        var existed := manager.Remove(keys[i]);
        if existed {
          deleted := deleted + 1;
        }
      }
      assert keys[..|keys|] == keys;
      DeletedAreDistinctPresent(old(manager.store), keys);
      notFound := |keys| - deleted;
    }
  }
}
