/** Incr as a fixed-window rate limiter: windows, their values, and how many
    calls a limit can let through in any interval of one window length. */
module RateLimit {

  import opened Options
  import opened CounterText
  import opened CacheStore
  import opened Histories
  import opened KeyHistories

  /** All calls on the key are unit Incr calls with TTL `period`; nothing else writes,
      removes or evicts it. */
  ghost predicate RateCalls(h: seq<Event>, key: Key, period: uint32) {
    forall i :: 0 <= i < |h| && KeyOf(h[i]) == key ==> RateCall(h[i], key, period)
  }

  predicate RateCall(e: Event, key: Key, period: uint32) {
    e.PlainGet? || (e.Called? && e.op.Incr? && OrOne(e.op.delta) == 1 && e.op.ttl == period && e.env.alloc + period < TWO32)
  }

  // ----- windows, read off the replies -----

  datatype Window = NoWindow | Window(start: int, count: int)

  function NextWindow(w: Window, e: Event, key: Key): Window {
    if !Counts(e, key) || !e.reply.IncrReply? then w
    else if e.reply.ttlSet then Window(e.env.alloc, e.reply.value as int)
    else match w case NoWindow => w case Window(start, _) => Window(start, e.reply.value as int)
  }

  /** The window that is open after `h`: the second its creator stamped and the
      last value handed out in it. */
  function WindowAfter(h: seq<Event>, key: Key): Window {
    if h == [] then NoWindow else NextWindow(WindowAfter(h[..|h| - 1], key), h[|h| - 1], key)
  }

  /** The stored item is the open window. */
  predicate Holds(item: Option<Item>, w: Window, period: uint32) {
    match w
    case NoWindow => item.None?
    case Window(start, count) =>
      && item.Some? && start > 0 && count >= 1
      && item.value.creation == start && item.value.expiry == start + period
      && match ParseWhole(item.value.value) case None => false case Some(n) => n as int == count
  }

  /** A reply against the window before it: it opens a window with 1 when the
      previous one is over, and otherwise counts on in the open one. */
  predicate FollowsWindow(w: Window, e: Event, period: uint32)
    requires e.Called? && e.reply.IncrReply?
  {
    if e.reply.ttlSet then e.reply.value == 1 && (w.Window? ==> e.env.now >= w.start + period)
    else w.Window? && e.reply.value as int == w.count + 1 && e.env.now < w.start + period
  }

  lemma WindowCall(store: Store, op: Op, env: Env, w: Window)
    requires op.Incr? && OrOne(op.delta) == 1 && 0 < op.ttl && env.alloc + op.ttl < TWO32
    requires WellTimed(env) && Holds(ItemAt(store, op.key), w, op.ttl)
    ensures var (after, reply) := Exec(store, op, env);
            var e := Called(0, op, env, reply);
            && reply.IncrReply?
            && Holds(ItemAt(after, op.key), NextWindow(w, e, op.key), op.ttl)
            && (reply.success ==> FollowsWindow(w, e, op.ttl))
  {
    hide ParseWhole, Print;
    var found := Find(store, op.key, env.find);
    var plan := PlanIncr(found, 1, op.ttl, env.now);
    if plan.Write? {
      var n := plan.stored.value;
      assert plan.value == Print(n);
      ParsePrint(n);
      if found.Some? && StillLive(found.value, env.now) {
        RestampKeepsDeadline(found.value, plan.value, env.alloc);
      }
    }
  }

  lemma WindowEvent(store: Store, e: Event, key: Key, period: uint32, w: Window)
    requires period > 0 && (KeyOf(e) == key ==> RateCall(e, key, period) && Explained(store, e))
    requires IsLocked(e) ==> WellTimed(e.env)
    requires Holds(ItemAt(store, key), w, period)
    ensures Holds(ItemAt(Effect(store, e), key), NextWindow(w, e, key), period)
    ensures Counts(e, key) ==> e.reply.IncrReply? && FollowsWindow(w, e, period)
  {
    if KeyOf(e) != key {
      EffectIsLocal(store, e, key);
    } else if e.Called? {
      WindowCall(store, e.op, e.env, w);
    }
  }

  ghost predicate RateRun(store: Store, h: seq<Event>, key: Key, period: uint32) {
    period > 0 && key !in store && LegalFor(store, h, key) && ClocksInOrder(h) && RateCalls(h, key, period)
  }

  lemma {:induction false} WindowIsStored(store: Store, h: seq<Event>, key: Key, period: uint32, n: nat)
    requires RateRun(store, h, key, period) && n <= |h|
    ensures Holds(ItemAt(Final(store, h[..n]), key), WindowAfter(h[..n], key), period)
  {
    hide Effect, Explained, ParseWhole;
    if n == 0 {
      assert h[..n] == [];
    } else {
      var i := n - 1;
      assert h[..n] == h[..i + 1] && h[..n][..i] == h[..i];
      WindowIsStored(store, h, key, period, i);
      PrefixStep(store, h, i);
      WindowEvent(Final(store, h[..i]), h[i], key, period, WindowAfter(h[..i], key));
    }
  }

  /** Every successful reply follows the open window: the first of a window is 1
      and alone reports ttlSet, the next ones are 2, 3, ..., and a window opens
      no earlier than `period` seconds after the previous one opened. */
  lemma WindowsCountUp(store: Store, h: seq<Event>, key: Key, period: uint32, i: nat)
    requires RateRun(store, h, key, period) && i < |h| && Counts(h[i], key)
    ensures h[i].reply.IncrReply? && FollowsWindow(WindowAfter(h[..i], key), h[i], period)
  {
    WindowIsStored(store, h, key, period, i);
    WindowEvent(Final(store, h[..i]), h[i], key, period, WindowAfter(h[..i], key));
  }

  lemma {:induction false} OpenSince(store: Store, h: seq<Event>, key: Key, period: uint32, i: nat, n: nat)
    requires RateRun(store, h, key, period) && i < n <= |h| && Counts(h[i], key)
    requires h[i].reply.IncrReply? && h[i].reply.ttlSet
    ensures WindowAfter(h[..n], key).Window? && WindowAfter(h[..n], key).start >= h[i].env.alloc
  {
    hide LegalFor, Final;
    assert h[..n][..n - 1] == h[..n - 1];
    if n > i + 1 {
      OpenSince(store, h, key, period, i, n - 1);
      if Counts(h[n - 1], key) {
        assert IsLocked(h[i]) && IsLocked(h[n - 1]);
      }
    }
  }

  /** Window starts are at least `period` apart. */
  lemma WindowsAreApart(store: Store, h: seq<Event>, key: Key, period: uint32, i: nat, j: nat)
    requires RateRun(store, h, key, period) && i < j < |h| && Counts(h[i], key) && Counts(h[j], key)
    requires h[i].reply.IncrReply? && h[i].reply.ttlSet && h[j].reply.IncrReply? && h[j].reply.ttlSet
    ensures h[i].env.alloc + period <= h[j].env.now <= h[j].env.alloc
  {
    OpenSince(store, h, key, period, i, j);
    WindowsCountUp(store, h, key, period, j);
    assert IsLocked(h[j]);
  }

  // ----- the limit -----

  /** A caller admits a call whose value is within the limit; the call counts
      for the interval [a, a + period) at the second it decided. */
  predicate Admitted(e: Event, key: Key, limit: nat, a: int, period: uint32) {
    && Counts(e, key) && e.reply.IncrReply? && e.reply.value as int <= limit
    && a <= e.env.now < a + period
  }

  function AdmittedCount(h: seq<Event>, key: Key, limit: nat, a: int, period: uint32): nat {
    if h == [] then 0
    else AdmittedCount(h[..|h| - 1], key, limit, a, period) + (if Admitted(h[|h| - 1], key, limit, a, period) then 1 else 0)
  }

  /** The second at which the last successful call decided. */
  function LastNow(h: seq<Event>, key: Key): int {
    if h == [] then 0
    else if Counts(h[|h| - 1], key) then h[|h| - 1].env.now
    else LastNow(h[..|h| - 1], key)
  }

  function Min(x: int, y: int): int { if x < y then x else y }

  /** How `c` admitted calls can be spread: none yet; in the open window after
      its creator; in two windows, the second opened inside the interval; or
      the interval is over. */
  predicate Budget(c: int, w: Window, last: int, limit: int, a: int, period: int) {
    || c == 0
    || (w.Window? && last >= a && c <= Min(w.count, limit) - 1)
    || (w.Window? && last >= a && w.start >= a && c <= limit - 1 + Min(w.count, limit))
    || (last >= a + period && c <= 2 * limit - 1)
  }

  lemma BudgetStep(c: nat, w: Window, last: int, e: Event, key: Key, limit: nat, a: int, period: uint32)
    requires limit >= 1 && Budget(c, w, last, limit, a, period) && (w.Window? ==> w.count >= 1)
    requires Counts(e, key) && e.reply.IncrReply? && FollowsWindow(w, e, period)
    requires WellTimed(e.env) && last <= e.env.now
    ensures Budget(c + (if Admitted(e, key, limit, a, period) then 1 else 0), NextWindow(w, e, key), e.env.now, limit, a, period)
  {
  }

  lemma {:induction false} LastNowIsPast(h: seq<Event>, key: Key, n: nat, j: nat)
    requires ClocksInOrder(h) && n <= j < |h| && IsLocked(h[j])
    requires forall i :: 0 <= i < n && Counts(h[i], key) ==> IsLocked(h[i])
    ensures LastNow(h[..n], key) <= h[j].env.now
  {
    if n > 0 {
      assert h[..n][..n - 1] == h[..n - 1] && h[..n][n - 1] == h[n - 1];
      if !Counts(h[n - 1], key) { LastNowIsPast(h, key, n - 1, j); }
    }
  }

  lemma {:induction false} BudgetKept(store: Store, h: seq<Event>, key: Key, period: uint32, limit: nat, a: int, n: nat)
    requires RateRun(store, h, key, period) && limit >= 1 && n <= |h|
    ensures Budget(AdmittedCount(h[..n], key, limit, a, period), WindowAfter(h[..n], key), LastNow(h[..n], key), limit, a, period)
  {
    hide Effect, Explained, ParseWhole, Final, LegalFor;
    if n == 0 {
      assert h[..n] == [];
    } else {
      var i := n - 1;
      assert h[..n][..i] == h[..i] && h[..n][i] == h[i];
      BudgetKept(store, h, key, period, limit, a, i);
      if Counts(h[i], key) {
        WindowIsStored(store, h, key, period, i);
        WindowsCountUp(store, h, key, period, i);
        assert IsLocked(h[i]);
        LastNowIsPast(h, key, i, i);
        BudgetStep(AdmittedCount(h[..i], key, limit, a, period), WindowAfter(h[..i], key), LastNow(h[..i], key),
                   h[i], key, limit, a, period);
      }
    }
  }

  /** In any interval of `period` seconds a limit admits at most 2 * limit - 1 calls. */
  lemma LimitHolds(store: Store, h: seq<Event>, key: Key, period: uint32, limit: nat, a: int)
    requires RateRun(store, h, key, period) && limit >= 1
    ensures AdmittedCount(h, key, limit, a, period) <= 2 * limit - 1
  {
    BudgetKept(store, h, key, period, limit, a, |h|);
    assert h[..|h|] == h;
  }
}
