/** What sequential histories guarantee about one key: counters add up,
    deadlines stay put, a compare-and-swap race has one winner. */
module KeyHistories {

  import opened Options
  import opened CounterText
  import opened CacheStore
  import opened Histories

  function ItemAt(store: Store, key: Key): Option<Item> {
    if key in store then Some(store[key]) else None
  }

  /** An event on another key leaves this one alone. */
  lemma EffectIsLocal(store: Store, e: Event, key: Key)
    requires KeyOf(e) != key
    ensures ItemAt(Effect(store, e), key) == ItemAt(store, key)
  {
  }

  /** The replies to the calls on `key` are those its own item explains; the
      other calls of the history may be anything. */
  ghost predicate LegalFor(store: Store, h: seq<Event>, key: Key) {
    forall i :: 0 <= i < |h| && KeyOf(h[i]) == key ==> Explained(Final(store, h[..i]), h[i])
  }

  lemma LegalForEachKey(store: Store, h: seq<Event>, key: Key)
    requires Legal(store, h)
    ensures LegalFor(store, h, key)
  {
  }

  lemma PrefixStep(store: Store, h: seq<Event>, i: nat)
    requires i < |h|
    ensures Final(store, h[..i + 1]) == Effect(Final(store, h[..i]), h[i])
  {
    assert h[..i + 1] == h[..i] + [h[i]];
    FinalSnoc(store, h[..i], h[i]);
  }

  // ----- counters -----

  predicate CounterOp(op: Op) { op.Increment? || op.Decrement? || op.Incr? }

  /** What a counter call asks to add; a delta of 0 means 1. */
  function Delta(op: Op): int
    requires CounterOp(op)
  {
    if op.Decrement? then -(OrOne(op.delta) as int) else OrOne(op.delta) as int
  }

  predicate Counts(e: Event, key: Key) {
    e.Called? && e.op.key == key && CounterOp(e.op) && Counted(e.reply).Some?
  }

  function Gained(e: Event, key: Key): int { if Counts(e, key) then Delta(e.op) else 0 }

  /** The sum of the deltas of the successful counter calls on `key`. */
  function TotalGained(h: seq<Event>, key: Key): int {
    if h == [] then 0 else TotalGained(h[..|h| - 1], key) + Gained(h[|h| - 1], key)
  }

  ghost predicate CounterOnly(h: seq<Event>, key: Key) {
    forall i :: 0 <= i < |h| && KeyOf(h[i]) == key ==>
                  h[i].PlainGet? || (h[i].Called? && CounterOp(h[i].op))
  }

  predicate LiveFor(item: Item, env: Env) { !Expired(item, env.find) && StillLive(item, env.now) }

  /** Whenever a call reaches the key, the key has not expired. */
  ghost predicate NeverLapses(store: Store, h: seq<Event>, key: Key) {
    forall i :: 0 <= i < |h| && h[i].Called? && h[i].op.key == key ==>
                  var item := ItemAt(Final(store, h[..i]), key);
                  item.Some? ==> LiveFor(item.value, h[i].env)
  }

  /** The number a key stands for; an absent counter counts as 0. */
  function CounterAt(store: Store, key: Key): Option<int> {
    if key !in store then Some(0)
    else match ParseWhole(store[key].value) case None => None case Some(n) => Some(n as int)
  }

  /** One counter call: refused and without effect, or the counter moves by the
      delta and the reply is the new number. */
  lemma CounterStep(store: Store, op: Op, env: Env)
    requires CounterOp(op) && CounterAt(store, op.key).Some?
    requires op.key in store ==> LiveFor(store[op.key], env)
    ensures var (after, reply) := Exec(store, op, env);
            match Counted(reply)
            case None => after == store
            case Some(m) =>
              && m as int == CounterAt(store, op.key).value + Delta(op)
              && op.key in after && CounterAt(after, op.key) == Some(m as int)
              && (op.Incr? ==> reply.IncrReply? && (reply.ttlSet <==> op.key !in store))
  {
    hide Print, Canonical;
    CounterTextIsReply(store, op, env);
    hide ParseWhole, Stamp;
  }

  lemma CounterEvent(store: Store, e: Event, key: Key)
    requires KeyOf(e) == key ==> e.PlainGet? || (e.Called? && CounterOp(e.op) && Explained(store, e))
    requires e.Called? && KeyOf(e) == key && key in store ==> LiveFor(store[key], e.env)
    requires CounterAt(store, key).Some?
    ensures var after := Effect(store, e);
            && CounterAt(after, key) == Some(CounterAt(store, key).value + Gained(e, key))
            && (Counts(e, key) ==> key in after && Counted(e.reply) == ParseWhole(after[key].value))
            && (!Counts(e, key) ==> ItemAt(after, key) == ItemAt(store, key))
            && (Counts(e, key) && e.op.Incr? ==> e.reply.IncrReply? && (e.reply.ttlSet <==> key !in store))
  {
    if KeyOf(e) != key {
      EffectIsLocal(store, e, key);
    } else if e.Called? {
      CounterStep(store, e.op, e.env);
    }
  }

  lemma CounterEventAt(store: Store, h: seq<Event>, key: Key, i: nat)
    requires LegalFor(store, h, key) && CounterOnly(h, key) && NeverLapses(store, h, key) && i < |h|
    requires CounterAt(Final(store, h[..i]), key).Some?
    ensures var before, after := Final(store, h[..i]), Final(store, h[..i + 1]);
            && CounterAt(after, key) == Some(CounterAt(before, key).value + Gained(h[i], key))
            && (Counts(h[i], key) ==> key in after && CounterAt(after, key) == Some(Counted(h[i].reply).value as int))
            && (!Counts(h[i], key) ==> ItemAt(after, key) == ItemAt(before, key))
            && (Counts(h[i], key) && h[i].op.Incr? ==>
                  h[i].reply.IncrReply? && (h[i].reply.ttlSet <==> key !in before))
  {
    hide Effect, Explained, Final, ParseWhole;
    PrefixStep(store, h, i);
    CounterEvent(Final(store, h[..i]), h[i], key);
  }

  lemma TotalGainedStep(h: seq<Event>, key: Key, i: nat)
    requires i < |h|
    ensures TotalGained(h[..i + 1], key) == TotalGained(h[..i], key) + Gained(h[i], key)
    ensures Successes(h[..i + 1], key) == Successes(h[..i], key) + (if Counts(h[i], key) then 1 else 0)
  {
    assert h[..i + 1][..i] == h[..i];
  }

  /** Conservation: the counter ends at its initial value plus the sum of the
      successful deltas. */
  lemma {:induction false} CounterConserved(store: Store, h: seq<Event>, key: Key, n: nat)
    requires LegalFor(store, h, key) && CounterOnly(h, key) && NeverLapses(store, h, key)
    requires CounterAt(store, key).Some? && n <= |h|
    ensures CounterAt(Final(store, h[..n]), key) == Some(CounterAt(store, key).value + TotalGained(h[..n], key))
  {
    hide Effect, Explained, ParseWhole;
    if n == 0 {
      assert h[..n] == [];
    } else {
      var i := n - 1;
      assert h[..n] == h[..i + 1];
      CounterConserved(store, h, key, i);
      CounterEventAt(store, h, key, i);
      TotalGainedStep(h, key, i);
    }
  }

  /** Each successful reply is the running total at that point. */
  lemma RepliesAreRunningTotals(store: Store, h: seq<Event>, key: Key, i: nat)
    requires LegalFor(store, h, key) && CounterOnly(h, key) && NeverLapses(store, h, key)
    requires CounterAt(store, key).Some? && i < |h| && Counts(h[i], key)
    ensures Counted(h[i].reply).value as int == CounterAt(store, key).value + TotalGained(h[..i + 1], key)
  {
    CounterConserved(store, h, key, i);
    CounterEventAt(store, h, key, i);
    TotalGainedStep(h, key, i);
  }

  /** Any other event, a refused call in particular, leaves the item as it was. */
  lemma RefusedCallsChangeNothing(store: Store, h: seq<Event>, key: Key, i: nat)
    requires LegalFor(store, h, key) && CounterOnly(h, key) && NeverLapses(store, h, key)
    requires CounterAt(store, key).Some? && i < |h| && !Counts(h[i], key)
    ensures ItemAt(Final(store, h[..i + 1]), key) == ItemAt(Final(store, h[..i]), key)
  {
    CounterConserved(store, h, key, i);
    CounterEventAt(store, h, key, i);
  }

  /** How many counter calls on the key have succeeded. */
  function Successes(h: seq<Event>, key: Key): nat {
    if h == [] then 0 else Successes(h[..|h| - 1], key) + (if Counts(h[|h| - 1], key) then 1 else 0)
  }

  ghost predicate UnitIncrs(h: seq<Event>, key: Key) {
    forall i :: 0 <= i < |h| && KeyOf(h[i]) == key ==>
                  h[i].PlainGet? || (h[i].Called? && h[i].op.Incr? && OrOne(h[i].op.delta) == 1)
  }

  lemma {:induction false} UnitIncrsPresence(store: Store, h: seq<Event>, key: Key, n: nat)
    requires LegalFor(store, h, key) && UnitIncrs(h, key) && NeverLapses(store, h, key)
    requires key !in store && n <= |h|
    ensures CounterAt(Final(store, h[..n]), key) == Some(Successes(h[..n], key))
    ensures key in Final(store, h[..n]) <==> Successes(h[..n], key) > 0
  {
    if n == 0 {
      assert h[..n] == [];
    } else {
      var i := n - 1;
      assert h[..n] == h[..i + 1];
      UnitIncrsPresence(store, h, key, i);
      CounterEventAt(store, h, key, i);
      TotalGainedStep(h, key, i);
      assert Gained(h[i], key) == if Counts(h[i], key) then 1 else 0;
    }
  }

  /** Unit Incr calls on an absent key: the successful ones return 1, 2, 3, ...
      in order, and exactly the first reports that it set the TTL. */
  lemma UnitIncrsCountUp(store: Store, h: seq<Event>, key: Key, i: nat)
    requires LegalFor(store, h, key) && UnitIncrs(h, key) && NeverLapses(store, h, key)
    requires key !in store && i < |h| && Counts(h[i], key)
    ensures && h[i].reply.IncrReply?
            && h[i].reply.value as int == Successes(h[..i], key) + 1
            && (h[i].reply.ttlSet <==> Successes(h[..i], key) == 0)
  {
    UnitIncrsPresence(store, h, key, i);
    CounterEventAt(store, h, key, i);
    assert Gained(h[i], key) == 1;
  }

  /** Without TTLs a counter never lapses. */
  ghost predicate NoTtl(store: Store, h: seq<Event>, key: Key) {
    && (key in store ==> store[key].expiry == 0)
    && forall i :: 0 <= i < |h| && KeyOf(h[i]) == key && h[i].Called? ==> CounterOp(h[i].op) && h[i].op.ttl == 0
  }

  lemma NoTtlEvent(store: Store, e: Event, key: Key)
    requires key in store ==> store[key].expiry == 0
    requires KeyOf(e) == key ==> e.PlainGet? || (e.Called? && CounterOp(e.op) && e.op.ttl == 0)
    ensures var after := Effect(store, e); key in after ==> after[key].expiry == 0
  {
    if KeyOf(e) != key { EffectIsLocal(store, e, key); }
  }

  lemma {:induction false} NoTtlStays(store: Store, h: seq<Event>, key: Key, n: nat)
    requires CounterOnly(h, key) && NoTtl(store, h, key) && n <= |h|
    ensures var after := Final(store, h[..n]); key in after ==> after[key].expiry == 0
  {
    hide Effect;
    if n > 0 {
      NoTtlStays(store, h, key, n - 1);
      PrefixStep(store, h, n - 1);
      NoTtlEvent(Final(store, h[..n - 1]), h[n - 1], key);
    }
  }

  lemma NoTtlNeverLapses(store: Store, h: seq<Event>, key: Key)
    requires CounterOnly(h, key) && NoTtl(store, h, key)
    ensures NeverLapses(store, h, key)
  {
    forall i | 0 <= i < |h| && h[i].Called? && h[i].op.key == key
      ensures var item := ItemAt(Final(store, h[..i]), key); item.Some? ==> LiveFor(item.value, h[i].env)
    {
      NoTtlStays(store, h, key, i);
    }
  }

  // ----- deadlines -----

  /** Every call that reaches the key finds it and promises to keep its deadline. */
  ghost predicate DeadlineKeepers(store: Store, h: seq<Event>, key: Key) {
    forall i :: 0 <= i < |h| && KeyOf(h[i]) == key ==>
                  h[i].PlainGet? ||
                  (h[i].Called? &&
                   var found := Find(Final(store, h[..i]), key, h[i].env.find);
                   found.Some? && KeepsDeadline(h[i].op, found.value, h[i].env.now))
  }

  /** Over any such run the creation second and the absolute expiry are exactly
      the original ones, an absent expiry included. */
  lemma {:induction false} DeadlineUnchanged(store: Store, h: seq<Event>, key: Key, n: nat)
    requires key in store && ItemOk(store[key]) && DeadlineKeepers(store, h, key) && n <= |h|
    ensures var after := Final(store, h[..n]);
            && key in after
            && after[key].creation == store[key].creation
            && after[key].expiry == store[key].expiry
  {
    if n > 0 {
      var i := n - 1;
      DeadlineUnchanged(store, h, key, i);
      PrefixStep(store, h, i);
      var before := Final(store, h[..i]);
      if KeyOf(h[i]) != key {
        EffectIsLocal(before, h[i], key);
      } else if h[i].Called? {
        ExecKeepsDeadline(before, h[i].op, h[i].env);
      }
    }
  }

  // ----- compare-and-swap races -----

  /** All calls on the key are compare-and-swaps from `expected` to something
      else; the key may also be read, removed or evicted. */
  ghost predicate CasRace(h: seq<Event>, key: Key, expected: Value) {
    forall i :: 0 <= i < |h| && KeyOf(h[i]) == key ==>
                  !h[i].PlainSet? &&
                  (h[i].Called? ==> h[i].op.CompareAndSwap? && h[i].op.expected == expected
                                    && h[i].op.proposed != expected)
  }

  predicate Wins(e: Event, key: Key) {
    e.Called? && e.op.CompareAndSwap? && e.op.key == key && e.reply.CasReply? && e.reply.success
  }

  lemma CasEvent(store: Store, e: Event, key: Key, expected: Value)
    requires CasRace([e], key, expected) && (KeyOf(e) == key ==> Explained(store, e))
    ensures var after := Effect(store, e);
            && (Wins(e, key) ==> key in store && store[key].value == expected
                                 && key in after && after[key].value == e.op.proposed)
            && (!Wins(e, key) && key in after ==> ItemAt(after, key) == ItemAt(store, key))
  {
    assert [e][0] == e;
    if KeyOf(e) != key { EffectIsLocal(store, e, key); }
  }

  lemma CasEventAt(store: Store, h: seq<Event>, key: Key, expected: Value, i: nat)
    requires LegalFor(store, h, key) && CasRace(h, key, expected) && i < |h|
    ensures var before, after := Final(store, h[..i]), Final(store, h[..i + 1]);
            && (Wins(h[i], key) ==> key in before && before[key].value == expected
                                    && key in after && after[key].value == h[i].op.proposed)
            && (!Wins(h[i], key) && key in after ==> ItemAt(after, key) == ItemAt(before, key))
  {
    hide Effect, Explained, Final;
    PrefixStep(store, h, i);
    assert CasRace([h[i]], key, expected);
    CasEvent(Final(store, h[..i]), h[i], key, expected);
  }

  lemma {:induction false} WinnerStays(store: Store, h: seq<Event>, key: Key, expected: Value, i: nat, n: nat)
    requires LegalFor(store, h, key) && CasRace(h, key, expected)
    requires i < n <= |h| && Wins(h[i], key)
    ensures var after := Final(store, h[..n]); key in after ==> after[key].value == h[i].op.proposed
  {
    hide Effect, Explained, LegalFor, Final;
    assert KeyOf(h[i]) == key && h[i].op.proposed != expected;
    CasEventAt(store, h, key, expected, n - 1);
    if n > i + 1 {
      WinnerStays(store, h, key, expected, i, n - 1);
    }
  }

  /** At most one compare-and-swap wins; every later one loses and reports the
      winner's value, or that the key is gone. */
  lemma CasHasOneWinner(store: Store, h: seq<Event>, key: Key, expected: Value, i: nat, j: nat)
    requires LegalFor(store, h, key) && CasRace(h, key, expected)
    requires i < j < |h| && Wins(h[i], key) && h[j].Called? && h[j].op.key == key
    ensures !Wins(h[j], key)
    ensures var found := Find(Final(store, h[..j]), key, h[j].env.find);
            h[j].reply == CasReply(false, if found.Some? then h[i].op.proposed else [])
  {
    assert Explained(Final(store, h[..j]), h[j]);
    WinnerStays(store, h, key, expected, i, j);
  }

  function WinCount(h: seq<Event>, key: Key): nat {
    if h == [] then 0 else WinCount(h[..|h| - 1], key) + (if Wins(h[|h| - 1], key) then 1 else 0)
  }

  lemma {:induction false} WinnerExists(h: seq<Event>, key: Key, n: nat)
    requires n <= |h| && WinCount(h[..n], key) > 0
    ensures exists i :: 0 <= i < n && Wins(h[i], key)
  {
    assert n > 0 && h[..n][..n - 1] == h[..n - 1];
    if !Wins(h[n - 1], key) { WinnerExists(h, key, n - 1); }
  }

  /** When no two calls win, at most one does. */
  lemma {:induction false} WinsExclude(h: seq<Event>, key: Key, n: nat)
    requires n <= |h| && forall i, j :: 0 <= i < j < |h| ==> !(Wins(h[i], key) && Wins(h[j], key))
    ensures WinCount(h[..n], key) <= 1
  {
    if n > 0 {
      assert h[..n][..n - 1] == h[..n - 1];
      WinsExclude(h, key, n - 1);
      if WinCount(h[..n - 1], key) > 0 { WinnerExists(h, key, n - 1); }
    }
  }

  lemma AtMostOneWin(store: Store, h: seq<Event>, key: Key, expected: Value)
    requires LegalFor(store, h, key) && CasRace(h, key, expected)
    ensures WinCount(h, key) <= 1
  {
    hide LegalFor, CasRace;
    forall i, j | 0 <= i < j < |h| ensures !(Wins(h[i], key) && Wins(h[j], key)) {
      if Wins(h[i], key) && Wins(h[j], key) { CasHasOneWinner(store, h, key, expected, i, j); }
    }
    WinsExclude(h, key, |h|);
    assert h[..|h|] == h;
  }
}
