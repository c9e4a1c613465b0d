/** How sharp the bound of the rate limiter is: a burst on both sides of a window
    boundary gets 2 * limit - 1 calls through, exactly when a second window can
    open inside the interval at all. */
module RateLimitTight {

  import opened CounterText
  import opened CacheStore
  import opened Histories
  import opened KeyHistories
  import opened RateLimit

  /** Call `i` of the burst: the window opens at second 1; `limit - 1` calls arrive
      in its last second, `period`, and `limit` more one second later, when it is
      over. */
  function BurstTime(limit: nat, period: uint32, i: nat): int {
    if i == 0 then 1 else if i < limit then period else period + 1
  }

  function BurstValue(limit: nat, i: nat): nat {
    if i < limit then i + 1 else i - limit + 1
  }

  predicate BurstFits(limit: nat, period: uint32) {
    1 <= limit < 0x8000_0000_0000_0000 && 2 <= period && 2 * period + 1 < TWO32
  }

  function BurstCall(key: Key, limit: nat, period: uint32, i: nat): Event
    requires BurstFits(limit, period) && i < 2 * limit
  {
    var t: uint32 := BurstTime(limit, period, i);
    Called(i, Incr(key, 1, period), Env(t, t, t, true),
           IncrReply(true, BurstValue(limit, i) as int64, i == 0 || i == limit, NoMessage))
  }

  function Burst(key: Key, limit: nat, period: uint32, n: nat): seq<Event>
    requires BurstFits(limit, period) && n <= 2 * limit
  {
    if n == 0 then [] else Burst(key, limit, period, n - 1) + [BurstCall(key, limit, period, n - 1)]
  }

  /** The stored item after `n` calls of the burst. */
  function BurstStore(key: Key, limit: nat, period: uint32, n: nat): Store
    requires BurstFits(limit, period) && n <= 2 * limit
  {
    if n == 0 then map[]
    else
      var start: uint32 := if n <= limit then 1 else period + 1;
      map[key := Item(Print(BurstValue(limit, n - 1) as int64), start, start + period)]
  }

  /** Incr within the open window counts on; once it is over it opens a new one. */
  lemma IncrStep(key: Key, v: int64, start: uint32, period: uint32, t: uint32)
    requires 1 <= v && (t < start + period ==> v < INT64_MAX) && 0 < start && 0 < period && start + period < TWO32 && t + period < TWO32
    ensures var before := map[key := Item(Print(v), start, start + period)];
            Exec(before, Incr(key, 1, period), Env(t, t, t, true)) ==
            if t < start + period
            then (map[key := Item(Print(v + 1), start, start + period)], IncrReply(true, v + 1, false, NoMessage))
            else (map[key := Stamp(Print(1), period, 0, t)], IncrReply(true, 1, true, NoMessage))
  {
    hide ParseWhole, Print;
    var item := Item(Print(v), start, start + period);
    var before := map[key := item];
    ParsePrint(v);
    if t < start + period {
      RestampKeepsDeadline(item, Print(v + 1), t);
      assert before[key := Item(Print(v + 1), start, start + period)] == map[key := Item(Print(v + 1), start, start + period)];
    }
    assert before[key := Stamp(Print(1), period, 0, t)] == map[key := Stamp(Print(1), period, 0, t)];
  }

  lemma BurstOpens(key: Key, limit: nat, period: uint32)
    requires BurstFits(limit, period)
    ensures var e := BurstCall(key, limit, period, 0);
            Explained(map[], e) && Effect(map[], e) == BurstStore(key, limit, period, 1)
  {
    hide ParseWhole, Print;
  }

  lemma BurstCountsOn(key: Key, limit: nat, period: uint32, n: nat)
    requires BurstFits(limit, period) && 0 < n < 2 * limit && n != limit
    ensures var e := BurstCall(key, limit, period, n);
            && Explained(BurstStore(key, limit, period, n), e)
            && Effect(BurstStore(key, limit, period, n), e) == BurstStore(key, limit, period, n + 1)
  {
    hide ParseWhole, Print, Exec;
    var start: uint32 := if n < limit then 1 else period + 1;
    assert BurstValue(limit, n) == BurstValue(limit, n - 1) + 1;
    IncrStep(key, BurstValue(limit, n - 1) as int64, start, period, BurstTime(limit, period, n));
  }

  lemma BurstReopens(key: Key, limit: nat, period: uint32)
    requires BurstFits(limit, period)
    ensures var e := BurstCall(key, limit, period, limit);
            && Explained(BurstStore(key, limit, period, limit), e)
            && Effect(BurstStore(key, limit, period, limit), e) == BurstStore(key, limit, period, limit + 1)
  {
    hide ParseWhole, Print, Exec;
    IncrStep(key, limit as int64, 1, period, period + 1);
  }

  lemma BurstStep(key: Key, limit: nat, period: uint32, n: nat)
    requires BurstFits(limit, period) && n < 2 * limit
    ensures var e := BurstCall(key, limit, period, n);
            && Explained(BurstStore(key, limit, period, n), e)
            && Effect(BurstStore(key, limit, period, n), e) == BurstStore(key, limit, period, n + 1)
  {
    hide Explained, Effect, BurstCall;
    if n == 0 {
      BurstOpens(key, limit, period);
    } else if n == limit {
      BurstReopens(key, limit, period);
    } else {
      BurstCountsOn(key, limit, period, n);
    }
  }

  lemma {:induction false} BurstShape(key: Key, limit: nat, period: uint32, n: nat)
    requires BurstFits(limit, period) && n <= 2 * limit
    ensures var h := Burst(key, limit, period, n);
            |h| == n && forall i :: 0 <= i < n ==> h[i] == BurstCall(key, limit, period, i)
  {
    if n > 0 { BurstShape(key, limit, period, n - 1); }
  }

  lemma {:induction false} BurstIsLegal(key: Key, limit: nat, period: uint32, n: nat)
    requires BurstFits(limit, period) && n <= 2 * limit
    ensures var h := Burst(key, limit, period, n);
            Legal(map[], h) && Final(map[], h) == BurstStore(key, limit, period, n)
  {
    if n == 0 {
      BurstStoreEmpty(key, limit, period);
    } else {
      hide Effect, Explained, BurstCall, BurstStore, Legal, Final;
      var h, e := Burst(key, limit, period, n - 1), BurstCall(key, limit, period, n - 1);
      BurstIsLegal(key, limit, period, n - 1);
      BurstStep(key, limit, period, n - 1);
      LegalSnoc(map[], h, e);
      FinalSnoc(map[], h, e);
    }
  }

  lemma BurstStoreEmpty(key: Key, limit: nat, period: uint32)
    requires BurstFits(limit, period)
    ensures BurstStore(key, limit, period, 0) == map[]
  {
  }

  lemma BurstCallIsRated(key: Key, limit: nat, period: uint32, i: nat)
    requires BurstFits(limit, period) && i < 2 * limit
    ensures var e := BurstCall(key, limit, period, i);
            && RateCall(e, key, period) && IsLocked(e) && WellTimed(e.env)
            && e.env.find == e.env.alloc == BurstTime(limit, period, i)
  {
  }

  lemma BurstClocks(key: Key, limit: nat, period: uint32)
    requires BurstFits(limit, period)
    ensures var h := Burst(key, limit, period, 2 * limit);
            ClocksInOrder(h) && RateCalls(h, key, period)
  {
    var h := Burst(key, limit, period, 2 * limit);
    BurstShape(key, limit, period, 2 * limit);
    hide BurstCall, RateCall, WellTimed, IsLocked, Burst;
    forall i | 0 <= i < |h|
      ensures RateCall(h[i], key, period) && IsLocked(h[i]) && WellTimed(h[i].env)
      ensures h[i].env.find == h[i].env.alloc == BurstTime(limit, period, i)
    {
      BurstCallIsRated(key, limit, period, i);
    }
  }

  lemma BurstIsRateRun(key: Key, limit: nat, period: uint32)
    requires BurstFits(limit, period)
    ensures RateRun(map[], Burst(key, limit, period, 2 * limit), key, period)
  {
    hide Final, Legal, LegalFor, ClocksInOrder, RateCalls, Burst;
    var h := Burst(key, limit, period, 2 * limit);
    BurstIsLegal(key, limit, period, 2 * limit);
    LegalForEachKey(map[], h, key);
    BurstClocks(key, limit, period);
  }

  lemma BurstAdmitted(key: Key, limit: nat, period: uint32, n: nat)
    requires BurstFits(limit, period) && n < 2 * limit
    ensures Admitted(BurstCall(key, limit, period, n), key, limit, period, period) <==> n > 0
  {
  }

  lemma {:induction false} BurstCount(key: Key, limit: nat, period: uint32, n: nat)
    requires BurstFits(limit, period) && n <= 2 * limit
    ensures AdmittedCount(Burst(key, limit, period, n), key, limit, period, period) == if n == 0 then 0 else n - 1
  {
    hide Admitted, BurstCall;
    if n > 0 {
      var h := Burst(key, limit, period, n - 1);
      BurstCount(key, limit, period, n - 1);
      BurstShape(key, limit, period, n - 1);
      BurstAdmitted(key, limit, period, n - 1);
      assert (h + [BurstCall(key, limit, period, n - 1)])[..|h|] == h;
    }
  }

  // ----- when the bound is attained -----

  /** At most one window has calls in an interval of one period: a window of one
      second is over with it, and a very long one ends beyond the clock. */
  predicate OneWindowOnly(period: uint32) { period <= 1 || 2 * period + 1 >= TWO32 }

  /** The admitted calls are all in the open window, or the interval is over. */
  predicate OneBudget(c: int, w: Window, last: int, limit: int, a: int, period: int) {
    || c == 0
    || (w.Window? && last >= a && (period <= 1 ==> w.start >= a) && c <= Min(w.count, limit))
    || (last >= a + period && c <= limit)
  }

  lemma OneBudgetStep(c: nat, w: Window, last: int, e: Event, key: Key, limit: nat, a: int, period: uint32)
    requires limit >= 1 && OneBudget(c, w, last, limit, a, period) && OneWindowOnly(period)
    requires w.Window? ==> w.count >= 1 && w.start > 0
    requires Counts(e, key) && e.reply.IncrReply? && FollowsWindow(w, e, period)
    requires WellTimed(e.env) && last <= e.env.now && e.env.alloc + period < TWO32
    ensures OneBudget(c + (if Admitted(e, key, limit, a, period) then 1 else 0),
                      NextWindow(w, e, key), e.env.now, limit, a, period)
  {
  }

  lemma {:induction false} OneBudgetKept(store: Store, h: seq<Event>, key: Key, period: uint32, limit: nat, a: int, n: nat)
    requires RateRun(store, h, key, period) && limit >= 1 && n <= |h| && OneWindowOnly(period)
    ensures OneBudget(AdmittedCount(h[..n], key, limit, a, period), WindowAfter(h[..n], key), LastNow(h[..n], key),
                      limit, a, period)
  {
    hide Effect, Explained, ParseWhole, Final, LegalFor;
    if n == 0 {
      assert h[..n] == [];
    } else {
      hide OneBudget;
      var i := n - 1;
      assert h[..n][..i] == h[..i] && h[..n][i] == h[i];
      OneBudgetKept(store, h, key, period, limit, a, i);
      if Counts(h[i], key) {
        WindowIsStored(store, h, key, period, i);
        WindowsCountUp(store, h, key, period, i);
        assert IsLocked(h[i]);
        LastNowIsPast(h, key, i, i);
        OneBudgetStep(AdmittedCount(h[..i], key, limit, a, period), WindowAfter(h[..i], key), LastNow(h[..i], key),
                      h[i], key, limit, a, period);
      } else {
        assert AdmittedCount(h[..n], key, limit, a, period) == AdmittedCount(h[..i], key, limit, a, period);
      }
    }
  }

  /** Then a limit is a limit in any interval of one period. */
  lemma OneWindowLimit(store: Store, h: seq<Event>, key: Key, period: uint32, limit: nat, a: int)
    requires RateRun(store, h, key, period) && limit >= 1 && OneWindowOnly(period)
    ensures AdmittedCount(h, key, limit, a, period) <= limit
  {
    OneBudgetKept(store, h, key, period, limit, a, |h|);
    assert h[..|h|] == h;
  }

  /** Replies are int64: a larger limit admits no more than INT64_MAX does. */
  lemma {:induction false} LimitBeyondInt64(h: seq<Event>, key: Key, limit: nat, a: int, period: uint32)
    requires limit >= INT64_MAX as int
    ensures AdmittedCount(h, key, limit, a, period) == AdmittedCount(h, key, INT64_MAX as int, a, period)
  {
    if h != [] { LimitBeyondInt64(h[..|h| - 1], key, limit, a, period); }
  }

  /** Nothing can be admitted when no deadline fits on the clock. */
  lemma {:induction false} AdmittedFits(store: Store, h: seq<Event>, key: Key, period: uint32, limit: nat, a: int, n: nat)
    requires RateRun(store, h, key, period) && n <= |h| && AdmittedCount(h[..n], key, limit, a, period) > 0
    ensures period + 1 < TWO32
  {
    hide LegalFor;
    assert n > 0 && h[..n][..n - 1] == h[..n - 1];
    if Admitted(h[n - 1], key, limit, a, period) {
      assert RateCall(h[n - 1], key, period) && IsLocked(h[n - 1]);
    } else {
      AdmittedFits(store, h, key, period, limit, a, n - 1);
    }
  }

  /** Some run lets 2 * limit - 1 calls through within one period. */
  ghost predicate Attained(key: Key, limit: nat, period: uint32) {
    exists h, a :: RateRun(map[], h, key, period) && AdmittedCount(h, key, limit, a, period) == 2 * limit - 1
  }

  lemma BurstAttains(key: Key, limit: nat, period: uint32)
    requires BurstFits(limit, period)
    ensures Attained(key, limit, period)
  {
    hide RateRun;
    var h := Burst(key, limit, period, 2 * limit);
    BurstIsRateRun(key, limit, period);
    BurstCount(key, limit, period, 2 * limit);
    assert RateRun(map[], h, key, period) && AdmittedCount(h, key, limit, period, period) == 2 * limit - 1;
  }

  /** A limit of 1 is attained by a single call. */
  lemma SingleCallAttains(key: Key, period: uint32)
    requires 1 <= period && period + 1 < TWO32
    ensures Attained(key, 1, period)
  {
    var e := Called(0, Incr(key, 1, period), Env(1, 1, 1, true), IncrReply(true, 1, true, NoMessage));
    var h := [e];
    assert h[..0] == [] && Final(map[], h[..0]) == map[];
    assert Explained(map[], e) by { FirstCall(key, period); }
    assert RateRun(map[], h, key, period) by { hide Explained, Final; }
    assert AdmittedCount(h, key, 1, 1, period) == 1;
  }

  lemma FirstCall(key: Key, period: uint32)
    ensures Exec(map[], Incr(key, 1, period), Env(1, 1, 1, true)).1 == IncrReply(true, 1, true, NoMessage)
  {
    hide Print;
  }

  /** The exact condition: 2 * limit - 1 is attained if and only if the limit is a
      possible reply and a second window can open within the interval, or, for a
      limit of 1, if a deadline fits on the clock at all. */
  lemma LimitAttainedIff(key: Key, limit: nat, period: uint32)
    ensures Attained(key, limit, period)
            <==> BurstFits(limit, period) || (limit == 1 && 1 <= period && period + 1 < TWO32)
  {
    if BurstFits(limit, period) {
      BurstAttains(key, limit, period);
    } else if limit == 1 && 1 <= period && period + 1 < TWO32 {
      SingleCallAttains(key, period);
    } else if Attained(key, limit, period) {
      var h, a :| RateRun(map[], h, key, period) && AdmittedCount(h, key, limit, a, period) == 2 * limit - 1;
      hide RateRun, Attained;
      NotAttained(h, key, limit, period, a);
      assert false;
    }
  }

  lemma NotAttained(h: seq<Event>, key: Key, limit: nat, period: uint32, a: int)
    requires RateRun(map[], h, key, period)
    requires !BurstFits(limit, period) && !(limit == 1 && 1 <= period && period + 1 < TWO32)
    ensures AdmittedCount(h, key, limit, a, period) != 2 * limit - 1
  {
    assert period >= 1;
    hide RateRun;
    assert h[..|h|] == h;
    if limit >= 0x8000_0000_0000_0000 {
      LimitBeyondInt64(h, key, limit, a, period);
      LimitHolds(map[], h, key, period, INT64_MAX as int, a);
    } else if limit >= 2 {
      OneWindowLimit(map[], h, key, period, limit, a);
    } else if limit == 1 && AdmittedCount(h, key, limit, a, period) > 0 {
      AdmittedFits(map[], h, key, period, limit, a, |h|);
    }
  }
}
