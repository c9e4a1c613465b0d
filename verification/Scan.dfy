/** Scan with its cursor: one page as the loop produces it, and what following
    the cursor from page to page returns.

    A page iterates over the raw table, expired items included. The table is
    taken as the sequence of its entries in iteration order, with distinct
    non-empty keys, and does not change during one page. */
module Scan {

  import opened Glob
  import opened CacheStore

  datatype Entry = Entry(key: Key, size: nat, expiry: uint32)

  type Table = seq<Entry>

  datatype KeyInfo = KeyInfo(key: Key, ttlRemaining: int, sizeBytes: nat)

  datatype Page = Page(keys: seq<Key>, details: seq<KeyInfo>, nextCursor: Key, hasMore: bool)

  ghost predicate WellFormed(table: Table) {
    && (forall i :: 0 <= i < |table| ==> table[i].key != [])
    && (forall i, j :: 0 <= i < j < |table| ==> table[i].key != table[j].key)
  }

  function Clamp(count: int): (c: nat)
    ensures 1 <= c <= 10000
  {
    if count <= 0 then 100 else if count > 10000 then 10000 else count
  }

  function InfoOf(e: Entry, now: uint32): KeyInfo {
    KeyInfo(e.key, if e.expiry == 0 then -1 else if e.expiry > now then e.expiry - now else 0, e.size)
  }

  /** The entries that match, in iteration order. */
  function Matching(table: Table, pattern: string): Table {
    if table == [] then []
    else Matching(table[..|table| - 1], pattern)
         + (if Accepts(table[|table| - 1].key, pattern) then [table[|table| - 1]] else [])
  }

  function Keys(table: Table): seq<Key> { seq(|table|, i requires 0 <= i < |table| => table[i].key) }

  /** `clock(i)` is the second read for the i-th detail of the page. */
  function Infos(table: Table, clock: nat -> uint32): seq<KeyInfo> {
    seq(|table|, i requires 0 <= i < |table| => InfoOf(table[i], clock(i)))
  }

  /** Index of the first entry after the cursor: the start for the empty cursor,
      the end when the cursor key is not in the table. */
  function Start(table: Table, cursor: Key): (n: nat)
    ensures n <= |table|
  {
    if cursor == [] then 0 else After(table, cursor)
  }

  function After(table: Table, cursor: Key): (n: nat)
    ensures n <= |table|
  {
    if table == [] then 0 else if table[0].key == cursor then 1 else 1 + After(table[1..], cursor)
  }

  /** Index just after the `c`-th match from `start` on, or the end. */
  function Stop(table: Table, pattern: string, start: nat, c: nat): (n: nat)
    requires start <= |table| && c >= 1
    ensures start <= n <= |table|
    decreases |table| - start
  {
    if start == |table| then start
    else if !Accepts(table[start].key, pattern) then Stop(table, pattern, start + 1, c)
    else if c == 1 then start + 1
    else Stop(table, pattern, start + 1, c - 1)
  }

  function PageOf(table: Table, pattern: string, cursor: Key, c: nat, includeDetails: bool, clock: nat -> uint32): Page
    requires c >= 1
  {
    var start := Start(table, cursor);
    var stop := Stop(table, pattern, start, c);
    var hits := Matching(table[start..stop], pattern);
    Page(Keys(hits), if includeDetails then Infos(hits, clock) else [],
         if stop < |table| then table[stop - 1].key else [], stop < |table|)
  }

  // ----- the pieces of a page -----

  lemma MatchingSnoc(table: Table, e: Entry, pattern: string)
    ensures Matching(table + [e], pattern)
            == Matching(table, pattern) + (if Accepts(e.key, pattern) then [e] else [])
  {
    assert (table + [e])[..|table|] == table;
  }

  lemma {:induction false} MatchingConcat(a: Table, b: Table, pattern: string)
    ensures Matching(a + b, pattern) == Matching(a, pattern) + Matching(b, pattern)
  {
    hide Accepts;
    if b == [] {
      assert a + b == a;
    } else {
      var front, e := b[..|b| - 1], b[|b| - 1];
      MatchingConcat(a, front, pattern);
      MatchingSnoc(a + front, e, pattern);
      assert a + b == a + front + [e];
    }
  }

  lemma MatchingCons(table: Table, pattern: string, i: nat, j: nat)
    requires i < j <= |table|
    ensures Matching(table[i..j], pattern)
            == (if Accepts(table[i].key, pattern) then [table[i]] else []) + Matching(table[i + 1..j], pattern)
  {
    hide Accepts;
    MatchingConcat([table[i]], table[i + 1..j], pattern);
    assert table[i..j] == [table[i]] + table[i + 1..j];
    assert [table[i]][..0] == [];
  }

  /** A page ends at the end of the table, or right after its last match, which
      is the `c`-th; the number of matches is at most `c`. */
  lemma {:induction false} StopAfterMatches(table: Table, pattern: string, start: nat, c: nat)
    requires start <= |table| && c >= 1
    ensures var stop := Stop(table, pattern, start, c);
            var hits := Matching(table[start..stop], pattern);
            && |hits| <= c
            && (stop < |table| ==> |hits| == c)
            && (|hits| == c ==> stop > start && hits[c - 1] == table[stop - 1])
    decreases |table| - start
  {
    hide Accepts, Matching;
    var stop := Stop(table, pattern, start, c);
    if start == |table| {
      EmptyMatching(table, pattern, start);
    } else {
      MatchingCons(table, pattern, start, stop);
      if !Accepts(table[start].key, pattern) {
        StopAfterMatches(table, pattern, start + 1, c);
      } else if c > 1 {
        StopAfterMatches(table, pattern, start + 1, c - 1);
      } else {
        EmptyMatching(table, pattern, stop);
      }
    }
  }

  lemma EmptyMatching(table: Table, pattern: string, i: nat)
    requires i <= |table|
    ensures Matching(table[i..i], pattern) == []
  {
  }

  lemma {:induction false} AfterFinds(table: Table, cursor: Key)
    ensures (forall i :: 0 <= i < After(table, cursor) - 1 ==> table[i].key != cursor)
    ensures (After(table, cursor) > 0 && table[After(table, cursor) - 1].key == cursor)
            || (After(table, cursor) == |table| && forall i :: 0 <= i < |table| ==> table[i].key != cursor)
  {
    if table != [] && table[0].key != cursor {
      AfterFinds(table[1..], cursor);
      var n := After(table[1..], cursor);
      assert forall i :: 1 <= i < |table| ==> table[i] == table[1..][i - 1];
    }
  }

  lemma StopIsStable(table: Table, pattern: string, start: nat, c: nat, i: nat)
    requires start <= i <= |table| && c >= 1 && |Matching(table[start..i], pattern)| < c
    ensures Stop(table, pattern, start, c)
            == Stop(table, pattern, i, c - |Matching(table[start..i], pattern)|)
    decreases i - start
  {
    hide Accepts;
    if start < i {
      MatchingCons(table, pattern, start, i);
      var d := if Accepts(table[start].key, pattern) then 1 else 0;
      StopIsStable(table, pattern, start + 1, c - d, i);
    } else {
      assert table[start..i] == [];
    }
  }

  /** The loop breaks at the entry that completes the page. */
  lemma StopHere(table: Table, pattern: string, start: nat, c: nat, i: nat)
    requires start <= i < |table| && c >= 1 && |Matching(table[start..i], pattern)| == c - 1
    requires Accepts(table[i].key, pattern)
    ensures Stop(table, pattern, start, c) == i + 1
  {
    StopIsStable(table, pattern, start, c, i);
  }

  /** The loop runs to the end when the page is never completed. */
  lemma StopAtEnd(table: Table, pattern: string, start: nat, c: nat)
    requires start <= |table| && c >= 1 && |Matching(table[start..|table|], pattern)| < c
    ensures Stop(table, pattern, start, c) == |table|
  {
    StopIsStable(table, pattern, start, c, |table|);
  }

  lemma AfterIs(table: Table, cursor: Key, i: nat)
    requires i < |table| && table[i].key == cursor && forall j :: 0 <= j < i ==> table[j].key != cursor
    ensures After(table, cursor) == i + 1
  {
    AfterFinds(table, cursor);
  }

  /** The keys and details gathered from `start` up to `it`. */
  predicate PageSoFar(table: Table, pattern: string, start: nat, it: nat, includeDetails: bool, clock: nat -> uint32,
                      keys: seq<Key>, details: seq<KeyInfo>)
    requires start <= it <= |table|
  {
    var hits := Matching(table[start..it], pattern);
    keys == Keys(hits) && details == if includeDetails then Infos(hits, clock) else []
  }

  lemma PageBegins(table: Table, pattern: string, start: nat, includeDetails: bool, clock: nat -> uint32)
    requires start <= |table|
    ensures PageSoFar(table, pattern, start, start, includeDetails, clock, [], [])
  {
    EmptyMatching(table, pattern, start);
  }

  lemma PageGrows(table: Table, pattern: string, start: nat, it: nat, includeDetails: bool, clock: nat -> uint32,
                  keys: seq<Key>, details: seq<KeyInfo>)
    requires start <= it < |table| && PageSoFar(table, pattern, start, it, includeDetails, clock, keys, details)
    ensures if Accepts(table[it].key, pattern)
            then PageSoFar(table, pattern, start, it + 1, includeDetails, clock, keys + [table[it].key],
                           if includeDetails then details + [InfoOf(table[it], clock(|keys|))] else details)
            else PageSoFar(table, pattern, start, it + 1, includeDetails, clock, keys, details)
  {
    hide Accepts, Matching, InfoOf;
    assert table[start..it + 1] == table[start..it] + [table[it]];
    MatchingSnoc(table[start..it], table[it], pattern);
  }

  /** The page is complete at entry `it`. */
  lemma PageFills(table: Table, pattern: string, cursor: Key, c: nat, it: nat, includeDetails: bool, clock: nat -> uint32,
                  keys: seq<Key>, details: seq<KeyInfo>)
    requires c >= 1 && Start(table, cursor) <= it < |table| && |keys| == c && Accepts(table[it].key, pattern)
    requires PageSoFar(table, pattern, Start(table, cursor), it + 1, includeDetails, clock, keys, details)
    ensures PageOf(table, pattern, cursor, c, includeDetails, clock)
            == Page(keys, details, if it + 1 < |table| then table[it].key else [], it + 1 < |table|)
  {
    hide Accepts, Matching, Stop, Infos, After;
    var start := Start(table, cursor);
    assert table[start..it + 1] == table[start..it] + [table[it]];
    MatchingSnoc(table[start..it], table[it], pattern);
    StopHere(table, pattern, start, c, it);
  }

  /** The table ended before the page was complete. */
  lemma PageEnds(table: Table, pattern: string, cursor: Key, c: nat, includeDetails: bool, clock: nat -> uint32,
                 keys: seq<Key>, details: seq<KeyInfo>)
    requires c >= 1 && |keys| < c
    requires PageSoFar(table, pattern, Start(table, cursor), |table|, includeDetails, clock, keys, details)
    ensures PageOf(table, pattern, cursor, c, includeDetails, clock) == Page(keys, details, [], false)
  {
    hide Accepts, Matching, Stop, Infos, After;
    StopAtEnd(table, pattern, Start(table, cursor), c);
  }

  lemma AfterMisses(table: Table, cursor: Key)
    requires forall j :: 0 <= j < |table| ==> table[j].key != cursor
    ensures After(table, cursor) == |table|
  {
    AfterFinds(table, cursor);
  }

  /** A page has at most `c` keys, and exactly `c` when there is more. */
  predicate PageSizeIs(page: Page, c: nat) { |page.keys| <= c && (page.hasMore ==> |page.keys| == c) }

  lemma PageSize(table: Table, pattern: string, cursor: Key, c: nat, includeDetails: bool, clock: nat -> uint32)
    requires c >= 1
    ensures PageSizeIs(PageOf(table, pattern, cursor, c, includeDetails, clock), c)
  {
    hide Accepts, Matching, Stop, After;
    StopAfterMatches(table, pattern, Start(table, cursor), c);
  }

  // ----- scan itself -----

  method DetailsOf(e: Entry, now: uint32) returns (info: KeyInfo)
    ensures info == InfoOf(e, now)
  {
    var ttl := -1;
    if e.expiry != 0 {
      ttl := if e.expiry > now then e.expiry - now else 0;
    }
    return KeyInfo(e.key, ttl, e.size);
  }

  method ScanPage(table: Table, pattern: string, cursor: Key, count: int, includeDetails: bool, clock: nat -> uint32)
    returns (r: Page)
    ensures r == PageOf(table, pattern, cursor, Clamp(count), includeDetails, clock)
    ensures PageSizeIs(r, if count <= 0 then 100 else if count <= 10000 then count else 10000)
  {
    hide PageSizeIs, PageSoFar, PageOf, InfoOf, Accepts, Matches, After;
    PageSize(table, pattern, cursor, Clamp(count), includeDetails, clock);
    var c := count;
    if c <= 0 {
      c := 100;
    }
    if c > 10000 {
      c := 10000;
    }
    var keys, details, nextCursor, hasMore := [], [], [], false;
    var pastCursor := cursor == [];
    var matched := 0;
    ghost var start := Start(table, cursor);
    PageBegins(table, pattern, start, includeDetails, clock);
    var it := 0;
    while it < |table|
      invariant 0 <= it <= |table| && matched == |keys| < c
      invariant !pastCursor ==> cursor != [] && forall i :: 0 <= i < it ==> table[i].key != cursor
      invariant !pastCursor ==> keys == [] && details == []
      invariant pastCursor ==> start <= it && PageSoFar(table, pattern, start, it, includeDetails, clock, keys, details)
    {
      var key := table[it].key;
      if !pastCursor {
        if key == cursor {
          pastCursor := true;
          AfterIs(table, cursor, it);
        }
        it := it + 1;
        continue;
      }
      PageGrows(table, pattern, start, it, includeDetails, clock, keys, details);
      var fits, _ := MatchesPattern(key, pattern);
      if fits {
        keys := keys + [key];
        if includeDetails {
          var info := DetailsOf(table[it], clock(matched));
          details := details + [info];
        }
        matched := matched + 1;
        if matched >= c {
          PageFills(table, pattern, cursor, c, it, includeDetails, clock, keys, details);
          if it + 1 < |table| {
            hasMore := true;
            nextCursor := key;
          }
          return Page(keys, details, nextCursor, hasMore);
        }
      }
      it := it + 1;
    }
    if !pastCursor {
      AfterMisses(table, cursor);
    }
    PageEnds(table, pattern, cursor, c, includeDetails, clock, keys, details);
    return Page(keys, details, nextCursor, hasMore);
  }

  // ----- one page, declaratively -----

  /** The matches up to the stop are the first ones, at most `c`. */
  lemma HitsAreFirst(table: Table, pattern: string, start: nat, c: nat)
    requires start <= |table| && c >= 1
    ensures var all := Matching(table[start..], pattern);
            var n := if |all| < c then |all| else c;
            Matching(table[start..Stop(table, pattern, start, c)], pattern) == all[..n]
  {
    hide Accepts, Matching, Stop;
    var stop := Stop(table, pattern, start, c);
    StopAfterMatches(table, pattern, start, c);
    MatchingConcat(table[start..stop], table[stop..], pattern);
    assert table[start..] == table[start..stop] + table[stop..];
    if stop == |table| {
      assert table[stop..] == table[stop..stop];
      EmptyMatching(table, pattern, stop);
    }
    FirstOf(Matching(table[start..stop], pattern), Matching(table[stop..], pattern), c);
  }

  lemma FirstOf(hits: Table, rest: Table, c: nat)
    requires |hits| <= c && (|hits| == c || rest == [])
    ensures hits == (hits + rest)[..if |hits + rest| < c then |hits + rest| else c]
  {
  }

  /** A page returns the first matches after the cursor, at most `c` of them, with
      details parallel to the keys; there is more exactly when the page is full
      and its last match does not end the table. */
  lemma PageIsFirstMatches(table: Table, pattern: string, cursor: Key, c: nat, includeDetails: bool, clock: nat -> uint32)
    requires c >= 1 && WellFormed(table)
    ensures var page := PageOf(table, pattern, cursor, c, includeDetails, clock);
            var all := Matching(table[Start(table, cursor)..], pattern);
            var n := if |all| < c then |all| else c;
            && page.keys == Keys(all[..n])
            && page.details == (if includeDetails then Infos(all[..n], clock) else [])
            && (page.hasMore <==> n == c && all[c - 1] != table[|table| - 1])
  {
    hide Accepts, Matching, Stop, Keys, Infos, After;
    var start := Start(table, cursor);
    var stop := Stop(table, pattern, start, c);
    StopAfterMatches(table, pattern, start, c);
    HitsAreFirst(table, pattern, start, c);
    assert 0 < stop < |table| ==> table[stop - 1].key != table[|table| - 1].key;
  }

  /** What a detail says about an entry at second `now`. */
  predicate Describes(d: KeyInfo, e: Entry, now: uint32) {
    && d.key == e.key && d.sizeBytes == e.size
    && (e.expiry == 0 ==> d.ttlRemaining == -1)
    && (e.expiry > now ==> now + d.ttlRemaining == e.expiry)
    && (0 < e.expiry <= now ==> d.ttlRemaining == 0)
  }

  /** Detail `i` of a page belongs to key `i` and describes its entry: its size,
      and the seconds from the reading of the clock to its deadline. */
  lemma DetailsDescribeEntries(table: Table, pattern: string, cursor: Key, c: nat, clock: nat -> uint32, i: nat)
    requires c >= 1
    requires i < |PageOf(table, pattern, cursor, c, true, clock).keys|
    ensures var page := PageOf(table, pattern, cursor, c, true, clock);
            && |page.details| == |page.keys|
            && page.details[i].key == page.keys[i]
            && exists e :: e in table && Describes(page.details[i], e, clock(i))
  {
    hide Accepts, Matching, Stop, After;
    var start := Start(table, cursor);
    var stretch := table[start..Stop(table, pattern, start, c)];
    var e := Matching(stretch, pattern)[i];
    MatchingMembers(stretch, pattern, i);
    assert e in table && Describes(InfoOf(e, clock(i)), e, clock(i));
  }

  lemma {:induction false} MatchingMembers(table: Table, pattern: string, i: nat)
    requires i < |Matching(table, pattern)|
    ensures Matching(table, pattern)[i] in table && Accepts(Matching(table, pattern)[i].key, pattern)
  {
    hide Accepts;
    var front := table[..|table| - 1];
    if i < |Matching(front, pattern)| { MatchingMembers(front, pattern, i); }
  }

  /** A cursor that is no longer in the table yields an empty final page. */
  lemma LostCursorEndsScan(table: Table, pattern: string, cursor: Key, c: nat, includeDetails: bool, clock: nat -> uint32)
    requires c >= 1 && cursor != [] && forall i :: 0 <= i < |table| ==> table[i].key != cursor
    ensures PageOf(table, pattern, cursor, c, includeDetails, clock) == Page([], [], [], false)
  {
    AfterMisses(table, cursor);
    assert table[|table|..|table|] == [];
  }
}
