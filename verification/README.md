# cachelib-grpc-server: verified model

A Dafny model of the logic that the cache server adds around CacheLib, and of
the two benchmark drivers that carry run-level guarantees of their own.

* `Options.dfy`, `Arithmetic.dfy`: an optional value and a few non-linear facts.
* `CounterText.dfy`: counters as decimal text, and checked int64 arithmetic.
* `Glob.dfy`: the wildcard matcher of Scan.
* `Scan.dfy`, `Pagination.dfy`: one page of Scan, and following its cursor.
* `CacheStore.dfy`: items, deadlines, and what each atomic operation decides.
* `CacheManager.dfy`: the class, with each operation in the source's own form.
* `Histories.dfy`, `KeyHistories.dfy`: sequential histories and what they
  guarantee about one key.
* `RateLimit.dfy`, `RateLimitTight.dfy`: Incr as a fixed-window rate limiter.
* `Protocol.dfy`, `Serialization.dfy`, `KeyRuns.dfy`, `Concurrency.dfy`,
  `LostUpdate.dfy`, `Progress.dfy`: the read-modify-write protocol as a step
  machine over any number of threads.
* `Service.dfy`: the unary, batch and Pipeline handlers.
* `Stats.dfy`: the get counters and the hit rate.
* `Campaign.dfy`: the crash/resume campaign driver.
* `Operations.dfy`, `OfferedLoad.dfy`: one benchmark operation and its sample,
  and the open-loop load generator.

`dafny verify dfyconfig.toml` checks everything.

## What is proved

1. **The glob matcher.** The empty pattern accepts every key. With any other,
   whatever the key, an accepted key matches the declarative glob, in at most |key|·(|pattern|+1)+|pattern| steps. The loop
   tests for a literal match before it tests for `*`, so a `*` in the key can
   use up a `*` of the pattern (key `*ab`, pattern `*b`). The exact boundary is
   proved in both directions: agreement on all non-empty patterns holds for a
   key if and only if the key has no `*`; agreement on all keys holds for a
   non-empty pattern if and only if it is `*` or has no `*`.
2. **The protocol.** Mutual exclusion in every reachable state; and every run,
   with evictions and clock ticks anywhere and unlocked calls that stay clear of
   a key in flight, has the replies and the store of a sequential run of the
   locked calls in lock order. An eviction between the find and the write of an
   operation is explained by postponing it (or dropping it when the operation
   then writes). A plain set in that interval is not explained by any order:
   shown for every counter value and every other value set. Conversely, whenever
   the mutex is free any call can complete, with the reply and the store it has
   alone; and what each call does alone is stated by what later finds see.
3. **One key at a time.** A race on one key does not touch another: as long as a
   key is not evicted and no plain write hits it in flight, its replies and its
   item are those of its own calls one after the other, in every reachable
   state. Hence, over every interleaving: counters that do not lapse are their
   initial value plus the sum of the successful deltas; deadline-keeping calls
   leave creation and expiry exactly as they were, in uint32 arithmetic; and the
   rate limiter below works. Two results need no such condition: between two
   SetNX wins the key could not be found at some moment; and after one
   compare-and-swap from a shared expected value has won, every later one loses
   and reports the winner's value, or nothing when the key could not be found
   since.
4. **The rate limiter.** Windows open at least one period apart, values in a
   window are 1, 2, 3, ..., only the first reports ttlSet, and a limit of L lets
   at most 2L − 1 calls through in any period. That many are let through by some
   run if and only if L < 2^63 and a second window can open within an interval
   (2 ≤ period and 2·period + 1 < 2^32), or L = 1 and a deadline fits on the
   clock.
5. **Scan.** The pages of an unchanged table concatenate to the matching keys in
   order (without a pattern, to all keys), with the exact page count; on a table that changes between pages,
   every matching key present throughout is returned exactly once as long as
   cursors survive and surviving keys keep their order.
6. **Campaign.** Over every history of starts, crashes (also inside a file
   write) and resumes, each group is launched at most once, launched groups are
   a prefix of the definition, a recorded finish means that every group ran and
   was validated exactly once, and the campaign is valid if and only if every
   group had no problems and exit codes of 0. An interrupted group stops the
   campaign for good; whatever comes out of the groups, some history finishes.
7. **Load generator and statistics.** Arrivals are conserved and the final
   count is ceil(duration / interval); some run ends if and only if the rate is
   at most 10^9 or the duration is 0. Whichever workers complete the operations,
   the merged counters are the totals of the samples, and gets are hits plus
   origins up to the errors. The hit rate is within 0 and 1 in every run if and
   only if no get begins between the two loads.

## What is taken from CacheLib and from the environment

* `find` hides an item exactly when 0 < expiry < now; `allocate` with creation
  argument 0 stamps the current second and keeps any other; the expiry is
  creation + ttl in uint32 arithmetic, or 0 when ttl is 0.
* `find`, `insertOrReplace` and `remove` are single steps; a handle keeps the
  item it found. Iteration and `remove` see the raw table.
* Clock readings and the outcome of an allocation are parameters (`Env`). One
  call takes up to three readings (CacheLib's in find, Incr's own, CacheLib's in
  allocate), which never go back.
* Seconds are positive and below 2^32.

## Model

| member | source | states |
|---|---|---|
| CounterText.CheckedAdd | CacheManager.cc:51-60 | succeeds exactly when the true sum is representable, and returns it; no subexpression overflows |
| CounterText.CheckedNegate | CacheManager.cc:63-69 | succeeds exactly when the negation is representable, and returns it |
| CounterText.ParseAcceptsExactly | CacheManager.cc:37-42 | a text is parsed to n exactly when it is an optional minus and digits whose positional value is n, in range |
| CounterText.ParseRefusesExactly | CacheManager.cc:30-42 | a text is refused exactly when it denotes no int64 |
| CounterText.ParsePrint | CacheManager.cc:510-513 | printing then parsing gives every int64 back |
| CounterText.CanonicalTextIsPrint | CacheManager.cc:485-513 | the printed text is the one canonical text that parses to the number |
| Glob.MatchesPattern | CacheManager.cc:764-799 | true for the empty pattern; otherwise true only for a match of the glob, and exactly then when key or pattern has no star; in at most \|key\|·(\|pattern\|+1)+\|pattern\| steps |
| Glob.AcceptedKeysMatch | CacheManager.cc:764-799 | soundness for every key and non-empty pattern against the declarative glob |
| Glob.AcceptsExactly | CacheManager.cc:777-798 | greedy last-star backtracking loses no match when key or pattern has no star |
| Glob.StarTakenLiterally | CacheManager.cc:778-783 | key "*ab" matches the glob "*b" and is refused |
| Glob.ExactForKeyIff | CacheManager.cc:778-783 | agreement with the glob on all non-empty patterns holds for a key if and only if it has no star |
| Glob.ExactForPatternIff | CacheManager.cc:766-783 | agreement on all keys holds for a non-empty pattern if and only if it is "*" or has no star |
| Scan.ScanPage | CacheManager.cc:801-878 | the loop with pastCursor and matched computes the page specified by start and stop positions; its size is the count, with 100 for non-positive counts and 10000 as the cap |
| Scan.PageIsFirstMatches | CacheManager.cc:811-877 | a page is the first c matches after the cursor, details parallel, hasMore exactly when full and not at the end |
| Scan.DetailsDescribeEntries | CacheManager.cc:839-860 | detail i belongs to key i and tells the size of its entry and the seconds to its deadline |
| Scan.LostCursorEndsScan | CacheManager.cc:818-834 | a non-empty cursor absent from the table yields an empty final page |
| Pagination.FollowReturnsMatching | CacheManager.cc:818-873 | on an unchanged table the pages concatenate to exactly the matching keys in order |
| Pagination.ScanWithoutPatternReturnsAll | CacheManager.cc:766-873 | a scan with an empty pattern, followed to the end, returns every key of the table in order |
| Pagination.FollowPageCount | CacheManager.cc:863-873 | exact number of pages for M matches and page size c (floor(M/c)+1, or one less when the last full page ends the table) |
| Pagination.SurvivorsReturnedOnce | CacheManager.cc:818-873 | with changes between pages, every matching key present throughout a finished scan is returned exactly once |
| CacheStore.RestampKeepsDeadline | CacheManager.cc:496-501 | re-allocating with the kept ttl and creation reproduces creation and expiry in uint32 arithmetic |
| CacheStore.ExecKeepsDeadline | CacheManager.cc:590-608 | one call of a deadline-keeping operation changes at most the value of the item |
| CacheStore.CounterTextIsReply | CacheManager.cc:504-520 | after a successful counter call the stored text is the canonical decimal of the reply; otherwise the store is unchanged |
| CacheStore.DecrementExactIff | CacheManager.cc:532-545 | Decrement follows the arithmetic for every base if and only if delta is not INT64_MIN |
| CacheStore.DeadlineSecond | CacheManager.cc:570-577 | found but no longer live for Incr exactly in the deadline second; every Incr then opens a new window with its delta and ttl |
| CacheStore.StampedLifetime | CacheManager.cc:310-335 | a new item is found with its value for exactly its ttl, unless its deadline reaches 2^32; then it never expires or is hidden at once |
| CacheStore.SetNXOutcome | CacheManager.cc:434-462 | a found key is reported and nothing changes; otherwise the value is found for exactly its ttl and other keys are alone, or nothing changes when it cannot be stored |
| CacheStore.TouchOutcome | CacheManager.cc:703-734 | a missing key is reported; a stored Touch keeps the value and makes the key found for exactly the new ttl, other keys alone |
| CacheStore.CasOutcome | CacheManager.cc:619-666 | only a key found with the expected value is replaced, with its exact old deadline or for exactly the new ttl; every reply tells the value found or written |
| CacheStore.CountOutcome | CacheManager.cc:464-545 | which Increment and Decrement calls succeed, with which sum and deadline, and the message of each refusal |
| CacheStore.CannotNegateOutcome | CacheManager.cc:532-545 | Decrement by INT64_MIN is refused whatever the key holds |
| CacheStore.IncrOutcome | CacheManager.cc:547-617 | Incr counts on exactly while the deadline lies ahead, keeping it, and otherwise starts from 0 with the given ttl and reports ttlSet |
| CacheManagement.GetAfterSet | CacheManager.cc:253-354 | Get after a stored Set returns the value for exactly its ttl; now plus the remaining seconds is the deadline, -1 without a ttl, 0 in the deadline second |
| CacheManagement.CacheManager.Get | CacheManager.cc:253-302 | the value of the found item, the seconds to its deadline, and the three get counters |
| CacheManagement.CacheManager.SetWithCreationTime | CacheManager.cc:310-354 | stores the stamped item exactly when ready, small enough and allocated; counts one set |
| CacheManagement.CacheManager.Remove | CacheManager.cc:356-372 | removes the key from the raw table and tells whether it was there |
| CacheManagement.CacheManager.GetTTL | CacheManager.cc:672-701 | -2 exactly for keys not found, otherwise -1 without a deadline, the seconds to it, or 0 |
| CacheManagement.CacheManager.SetNX | CacheManager.cc:434-462 | is one specified call, with the set counted, or nothing when not initialised |
| CacheManagement.CacheManager.AtomicAddValue | CacheManager.cc:464-521 | carries out the decision of an addition for any delta: refused text or overflow changes nothing, else the sum is written with the kept or the new deadline |
| CacheManagement.CacheManager.Increment | CacheManager.cc:523-530 | delta 0 means 1; is one specified Increment call |
| CacheManagement.CacheManager.Decrement | CacheManager.cc:532-545 | is one specified Decrement call; INT64_MIN is refused before anything else |
| CacheManagement.CacheManager.Incr | CacheManager.cc:547-617 | is one specified Incr call |
| CacheManagement.CacheManager.CompareAndSwap | CacheManager.cc:619-666 | is one specified CompareAndSwap call |
| CacheManagement.CacheManager.Touch | CacheManager.cc:703-734 | is one specified Touch call |
| KeyHistories.CounterConserved | CacheManager.cc:464-617 | a counter that does not lapse is its initial value plus the sum of the successful deltas, after every prefix |
| KeyHistories.RepliesAreRunningTotals | CacheManager.cc:504-518 | every successful reply is the running total at that point |
| KeyHistories.RefusedCallsChangeNothing | CacheManager.cc:491-509 | refused and failed calls leave the item as it was |
| KeyHistories.NoTtlNeverLapses | CacheManager.cc:496-501 | a counter without expiry whose calls all have ttl 0 never lapses |
| KeyHistories.UnitIncrsCountUp | CacheManager.cc:547-617 | unit Incr calls on an absent key return 1, 2, 3, ... and exactly the first sets the ttl |
| KeyHistories.DeadlineUnchanged | CacheManager.cc:590-608 | over any run of deadline-keeping calls creation and expiry stay exactly the original ones |
| KeyHistories.CasHasOneWinner | CacheManager.cc:619-666 | after a winning compare-and-swap every later one loses and reports the winner's value, or a missing key |
| KeyHistories.AtMostOneWin | CacheManager.cc:619-666 | at most one compare-and-swap from the shared expected value wins in a history |
| RateLimit.WindowsCountUp | CacheManager.cc:568-616 | each successful reply opens a window with 1 after the previous one is over, or counts on within the open one |
| RateLimit.WindowsAreApart | CacheManager.cc:570-577 | window starts are at least one period apart |
| RateLimit.LimitHolds | CacheManager.cc:547-617 | a limit of L admits at most 2L − 1 calls in any interval of one period |
| RateLimitTight.LimitAttainedIff | CacheManager.cc:547-617 | 2L − 1 is attained if and only if L is a possible reply and a second window can open within one period, or L is 1 and a deadline fits on the clock |
| Protocol.MutualExclusion | CacheManager.cc:444-444 | at most one thread is in the critical section, and it is the owner of the mutex |
| Protocol.CompletionIsLockOrder | CacheManager.cc:434-734 | locked calls complete in the order in which they took the mutex |
| Progress.CallsCanComplete | CacheManager.cc:434-734 | whenever the mutex is free any call can complete, with either outcome of its allocation, and does what it does alone |
| Serialization.Serializable | CacheManager.cc:434-734 | replies and store of an undisturbed run are those of the locked calls executed one at a time in lock order, with evictions that happened |
| KeyRuns.KeySerializable | CacheManager.cc:434-734 | in every state of a run that stays clear of one key, the replies on it and its item are those of its own calls in completion order, whatever races on other keys |
| KeyRuns.LogClocksInOrder | CacheManager.cc:444-573 | clock readings of the locked calls never go back along the log of any run |
| Concurrency.ConcurrentCountersAddUp | CacheManager.cc:464-617 | conservation of a counter that does not lapse, over every interleaving and in every reachable state |
| Concurrency.ConcurrentIncrsCountUp | CacheManager.cc:547-617 | over every interleaving unit Incr calls return 1, 2, 3, ... in completion order with one ttlSet |
| Concurrency.StayingAliveNeverLapses | CacheManager.cc:570-577 | a key that has time left in every state of the run does not lapse |
| Concurrency.ConcurrentWindowsCountUp | CacheManager.cc:568-616 | over every interleaving the replies follow the windows |
| Concurrency.ConcurrentWindowsAreApart | CacheManager.cc:570-577 | over every interleaving window starts are at least one period apart |
| Concurrency.ConcurrentLimitHolds | CacheManager.cc:547-617 | the 2L − 1 bound over every interleaving |
| Concurrency.ConcurrentCasHasOneWinner | CacheManager.cc:619-666 | over every interleaving, with removes and evictions, calls after a win lose and report the winner's value, or nothing when the key could not be found since the win |
| Concurrency.ConcurrentCasWinsOnce | CacheManager.cc:619-666 | at most one winner over every interleaving |
| Concurrency.ConcurrentDeadlineUnchanged | CacheManager.cc:590-608 | over every interleaving of deadline-keeping calls creation and expiry stay exactly the original ones |
| Concurrency.SetNXWinsNeedVanishing | CacheManager.cc:444-459 | between two SetNX wins the key could not be found at some moment, with all unlocked calls, evictions and expiries allowed |
| Concurrency.StoredDeadlinesOk | CacheManager.cc:310-354 | in every reachable state every item has a creation second and no expiry equal to it |
| Concurrency.WritesKeepDeadlines | CacheManager.cc:590-608 | in every reachable state, a deadline-keeping operation about to write carries the deadline it found |
| LostUpdate.RaceIsARun | CacheManager.cc:304-308 | Incr finds v, a plain set writes u, Incr writes v + 1: a run of the protocol |
| LostUpdate.RaceHasNoExplanation | CacheManager.cc:304-354 | no order of the two calls, with any evictions, explains that run |
| Service.OneResponseEach | CacheServiceImpl.cc:518-585 | one response per request, in order, with its sequence id, each the unary answer after the requests before it |
| Service.BadRequestsAreSkipped | CacheServiceImpl.cc:518-585 | unknown and empty-key requests get their refusal and leave the store alone |
| Service.SetThenGet | CacheServiceImpl.cc:33-95 | a value that fits comes back through the handlers for exactly its ttl, with the seconds left; one that does not leaves the store alone |
| Service.NarrowKeepsIff | CacheServiceImpl.cc:76-79 | the ttl survives the narrowing if and only if it is below 2^32; multiples of 2^32 become "no expiry" |
| Service.DeleteThenGone | CacheServiceImpl.cc:97-143 | Delete tells whether the raw table had the key; afterwards Get and Exists do not find it at any time, other keys alone |
| Service.ExistsAgreesWithGet | CacheServiceImpl.cc:126-143 | Exists says what Get would find |
| Service.CacheService.Get | CacheServiceImpl.cc:33-56 | an empty key and a cache that is not ready are refused; otherwise the found value and remaining ttl, store untouched |
| Service.CacheService.Set | CacheServiceImpl.cc:58-95 | refusals leave the store alone; otherwise success tells whether the item, with its ttl narrowed to 32 bits, is in the store |
| Service.CacheService.Delete | CacheServiceImpl.cc:97-124 | refusals leave the store alone; otherwise the key is gone from the raw table and the answer tells whether it was there |
| Service.CacheService.Exists | CacheServiceImpl.cc:126-143 | agrees with what Get would find, and refuses the same requests |
| Service.CacheService.Pipeline | CacheServiceImpl.cc:507-588 | the stream gives the store and the responses of the unary handlers in order |
| Service.CacheService.Dispatch | CacheServiceImpl.cc:522-582 | each case of the stream's own switch agrees with its unary handler |
| Service.CacheService.MultiSet | CacheServiceImpl.cc:179-222 | empty-key items are dropped, the rest set in order; failed is the number of named items that could not be stored, succeeded plus failed that of all named items, and exactly the keys of the failures are reported |
| Service.LastRequestWins | CacheManager.cc:405-416 | after MultiSet each key holds the last item of the request stored for it, or its old one when none was |
| Service.CacheService.MultiDelete | CacheServiceImpl.cc:224-252 | the requested keys are gone; the count is the number of distinct requested keys that were present |
| Service.DeletedAreDistinctPresent | CacheManager.cc:418-428 | deletions counted one by one are the distinct requested keys present |
| Stats.GetsAreAccounted | CacheManager.cc:253-302 | getCount is hits plus misses plus gets in flight in every reachable state |
| Stats.CountersCount | CacheManager.cc:253-302 | between any two states each counter grows by the gets that began, hit and missed |
| Stats.SnapshotRate | CacheManager.cc:910-920 | hits exceed the loaded get count by at most the gets begun between the loads; without one the rate is within 0 and 1 |
| Stats.InterleavedRateUnbounded | CacheManager.cc:911-920 | n gets begun between the loads can make the rate n + 1 |
| Stats.RateIsSoundIff | CacheManager.cc:911-920 | the rate is within 0 and 1 in every run if and only if no get begins between the loads |
| Campaign.LaunchedOnceInOrder | bench/strong/release_campaign.py:223-283 | each group is launched at most once and the launched groups are a prefix of the definition |
| Campaign.FinishMeansEveryGroupRan | bench/strong/release_campaign.py:265-288 | a recorded finish means every group was launched and validated exactly once; it is valid if and only if every validation of the history had no problems and exit codes 0, qualified if and only if also no limitations |
| Campaign.ValidationFollowsLaunch | bench/strong/release_campaign.py:268-278 | validation k is that of the group launched as number k |
| Campaign.ResumeGoesOnIff | bench/strong/release_campaign.py:224-237 | a resume goes on, from the recorded progress, if and only if the record is readable, of the same definition and without an interrupted group, and the environment unchanged |
| Campaign.FreshGoesOnIff | bench/strong/release_campaign.py:238-258 | a fresh start goes on if and only if the output path is new |
| Campaign.CanFinish | bench/strong/release_campaign.py:259-288 | for any outcomes of the groups some history records a finish with exactly these |
| Campaign.InterruptedStaysStopped | bench/strong/release_campaign.py:224-239 | after an interrupted group or a torn record nothing changes in the rest of any history |
| OfferedLoad.ArrivalsAreConserved | bench/strong/main.go:469-519 | every scheduled arrival is dropped, queued, in flight or completed, once; the queue is within capacity |
| OfferedLoad.TakesOldest | bench/strong/main.go:481-484 | a worker takes the oldest waiting arrival |
| OfferedLoad.DroppedIffFull | bench/strong/main.go:473-518 | an arrival is dropped if and only if it finds max(1024, rate / 2) arrivals waiting |
| OfferedLoad.PhaseIsAccounted | bench/strong/main.go:480-533 | in every reachable state the merged counters are the totals of the samples: one batch per completed arrival with all its objects, the gets of the operations that read; gets are hits plus origins up to the errors, and equal without errors |
| OfferedLoad.FinishedRunAccounts | bench/strong/main.go:501-521 | at the end recorded batches plus dropped is ceil(duration / d) for d = floor(10^9 / rate) |
| OfferedLoad.OneSecondSchedulesRate | bench/strong/main.go:501-506 | a run of one second at a rate that divides 10^9 has exactly rate arrivals |
| OfferedLoad.CanCloseIff | bench/strong/main.go:501-521 | some run reaches the end of the arrival loop, and some run ends altogether, if and only if the rate is at most 10^9 or the duration is 0 |
| Operations.DoOperation | bench/strong/main.go:323-394 | the operation with its write, error and lookup paths computes the specified sample |
| Operations.LookupsAreCounted | bench/strong/main.go:372-392 | hits are the positions found equal, origins the positions missed in an origin workload, errors the positions not clean, bytes the hits times the value size |
| Operations.SamplesAreAccounted | bench/strong/main.go:337-394 | on every path hits plus origins are at most gets, which exceed them by at most the errors; a failed write or read counts an error per object; no errors exactly when nothing went wrong |
| Operations.WorkloadMix | bench/strong/main.go:344-344 | one of any ten operations writes in the read-heavy workload, one of any two in the mixed one, none in the others |
| Operations.MergeParts | bench/strong/main.go:522-533 | the merge loop sums the workers' counters |
| Operations.SumRecords | bench/strong/main.go:486-494 | it does not matter which worker records a sample |
| Operations.TotalIsAccounted | bench/strong/main.go:486-494 | the accounting of the samples carries over to the whole phase |
| Operations.TotalIsFieldwise | bench/strong/main.go:486-494 | each counter of a phase is the sum of that field over the samples |
| OfferedLoad.OnePassDistinctIff | bench/strong/main.go:293-335 | distinct for every interleaving of workers if and only if the draws fit below the stride (or there is one draw) |
| OfferedLoad.OnePassKeysDistinct | bench/strong/main.go:293-335 | one-pass indices are pairwise distinct and beyond the preloaded range while positions stay below the stride |

## Left out

- CacheLib itself: slab allocation, LRU order, the flash tier and promotion; eviction is a step that removes any key at any time, allocation failure a parameter.
- Exceptions thrown while a value is copied, and logging.
- Serialization.Serializable: runs in which a plain set or remove hits a key in flight are not claimed to be serialisable as a whole; LostUpdate shows why. Keys that are not hit keep their guarantees (KeyRuns.KeySerializable).
- Scan.ScanPage: a page sees one table; changes during a page are not modelled.
- Service.CacheService.MultiDelete: counts are unbounded integers, the cast to int32 is not modelled.
- MultiGet, GetTTL, Touch, SetNX, Increment, Decrement, Incr, CompareAndSwap and Scan handlers of the service: argument checks and copies around the manager calls.
- hashBucketsPower, flush, configureNvmCache, and the statistics other than the operation counters.
- Campaign: validate_group's individual checks are the parameter `problems`; the second copy of the record in the results directory is not modelled.
- OfferedLoad: phases that are not recorded (they only count operations), latencies, scheduler lag, the skewed and shifting key patterns and the warmup stability rule.
- MetricsServer, server start-up, gRPC status plumbing, protobuf encoding, report rendering and the other benchmark scripts.
