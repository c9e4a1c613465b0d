/** Following the cursor from page to page, on a table that stays the same and
    on one that changes between pages. */
module Pagination {

  import opened Arithmetic
  import opened Glob
  import opened CacheStore
  import opened Scan

  /** The page without details; the cursor does not depend on them. */
  function PlainPage(table: Table, pattern: string, cursor: Key, c: nat): Page
    requires c >= 1
  {
    PageOf(table, pattern, cursor, c, false, _ => 0)
  }

  function StopFrom(table: Table, pattern: string, cursor: Key, c: nat): nat
    requires c >= 1
  {
    Stop(table, pattern, Start(table, cursor), c)
  }

  /** When there is more, the next page starts where this one stopped. */
  lemma CursorPointsAtStop(table: Table, pattern: string, cursor: Key, c: nat)
    requires WellFormed(table) && c >= 1 && PlainPage(table, pattern, cursor, c).hasMore
    ensures var stop := StopFrom(table, pattern, cursor, c);
            var next := PlainPage(table, pattern, cursor, c).nextCursor;
            && Start(table, cursor) < stop < |table|
            && next == table[stop - 1].key && Start(table, next) == stop
  {
    hide Accepts, Matching, Stop;
    StopAfterMatches(table, pattern, Start(table, cursor), c);
    AfterIs(table, table[StopFrom(table, pattern, cursor, c) - 1].key, StopFrom(table, pattern, cursor, c) - 1);
  }

  // ----- an unchanged table -----

  /** The pages a client sees by following nextCursor until hasMore is false. */
  function Follow(table: Table, pattern: string, cursor: Key, c: nat): (pages: seq<Page>)
    requires WellFormed(table) && c >= 1
    decreases |table| - Start(table, cursor)
  {
    var page := PlainPage(table, pattern, cursor, c);
    if !page.hasMore then [page]
    else
      assert Start(table, page.nextCursor) > Start(table, cursor) by { CursorPointsAtStop(table, pattern, cursor, c); }
      [page] + Follow(table, pattern, page.nextCursor, c)
  }

  function AllKeys(pages: seq<Page>): seq<Key> {
    if pages == [] then [] else pages[0].keys + AllKeys(pages[1..])
  }

  lemma KeysConcat(a: Table, b: Table)
    ensures Keys(a + b) == Keys(a) + Keys(b)
  {
  }

  lemma AllKeysCons(page: Page, rest: seq<Page>)
    ensures AllKeys([page] + rest) == page.keys + AllKeys(rest)
  {
    assert ([page] + rest)[1..] == rest;
  }

  lemma MatchingSplit(table: Table, pattern: string, i: nat, j: nat)
    requires i <= j <= |table|
    ensures Keys(Matching(table[i..], pattern)) == Keys(Matching(table[i..j], pattern)) + Keys(Matching(table[j..], pattern))
  {
    hide Accepts, Matching, Keys;
    assert table[i..] == table[i..j] + table[j..];
    MatchingConcat(table[i..j], table[j..], pattern);
    KeysConcat(Matching(table[i..j], pattern), Matching(table[j..], pattern));
  }

  /** Completeness and order: together the pages return exactly the matching
      keys, each once, in iteration order. */
  lemma {:induction false} FollowReturnsMatching(table: Table, pattern: string, cursor: Key, c: nat)
    requires WellFormed(table) && c >= 1
    ensures AllKeys(Follow(table, pattern, cursor, c)) == Keys(Matching(table[Start(table, cursor)..], pattern))
    decreases |table| - Start(table, cursor)
  {
    hide Accepts, Matching, Stop, Keys, AllKeys, WellFormed, Start;
    var start, stop := Start(table, cursor), StopFrom(table, pattern, cursor, c);
    var page := PlainPage(table, pattern, cursor, c);
    if page.hasMore {
      CursorPointsAtStop(table, pattern, cursor, c);
      FollowReturnsMatching(table, pattern, page.nextCursor, c);
      MatchingSplit(table, pattern, start, stop);
      AllKeysCons(page, Follow(table, pattern, page.nextCursor, c));
    } else {
      assert table[start..stop] == table[start..];
      assert [page] + [] == [page];
      AllKeysCons(page, []);
      NoPagesNoKeys();
    }
  }

  lemma NoPagesNoKeys()
    ensures AllKeys([]) == []
  {
  }

  /** From the start: all matching keys of the table. */
  lemma ScanReturnsMatching(table: Table, pattern: string, c: nat)
    requires WellFormed(table) && c >= 1
    ensures AllKeys(Follow(table, pattern, [], c)) == Keys(Matching(table, pattern))
  {
    FollowReturnsMatching(table, pattern, [], c);
    assert table[0..] == table;
  }

  lemma {:induction false} EmptyPatternMatchesAll(table: Table)
    ensures Matching(table, []) == table
  {
    if table != [] {
      EmptyPatternMatchesAll(table[..|table| - 1]);
      AcceptsMeans(table[|table| - 1].key, []);
    }
  }

  /** A scan without a pattern, followed to the end, returns every key of the
      table in iteration order. */
  lemma ScanWithoutPatternReturnsAll(table: Table, c: nat)
    requires WellFormed(table) && c >= 1
    ensures AllKeys(Follow(table, [], [], c)) == Keys(table)
  {
    ScanReturnsMatching(table, [], c);
    EmptyPatternMatchesAll(table);
  }

  /** The table ends with a match. */
  predicate EndsWithMatch(table: Table, pattern: string) {
    table != [] && Accepts(table[|table| - 1].key, pattern)
  }

  /** The number of pages for `m` matches: one per full page and one for the rest,
      unless the last full page also ends the table. */
  function PageCount(m: nat, c: nat, endsWithMatch: bool): (pages: nat)
    requires c >= 1
    ensures pages <= m / c + 1
  {
    if m > 0 && m % c == 0 && endsWithMatch then m / c else m / c + 1
  }

  lemma PageCountStep(m: nat, c: nat, ends: bool)
    requires c >= 1 && m >= c && (ends ==> m > c)
    ensures PageCount(m, c, ends) == 1 + PageCount(m - c, c, ends)
  {
    var q, r := (m - c) / c, (m - c) % c;
    assert m == (q + 1) * c + r;
    DivisionIsUnique(m, c, q + 1, r);
  }

  /** The last page: fewer matches than a full page, or a full page that ends the table. */
  lemma LastPageCount(table: Table, pattern: string, cursor: Key, c: nat)
    requires c >= 1 && !PlainPage(table, pattern, cursor, c).hasMore
    ensures PageCount(|Matching(table[Start(table, cursor)..], pattern)|, c, EndsWithMatch(table, pattern)) == 1
  {
    hide Accepts, Stop, Keys, Matching;
    var start := Start(table, cursor);
    var hits := Matching(table[start..], pattern);
    assert table[start..|table|] == table[start..];
    StopAfterMatches(table, pattern, start, c);
    if start < |table| {
      LastMatch(table, pattern, start);
    } else {
      EmptyMatching(table, pattern, start);
    }
    if |hits| < c {
      SmallDivision(|hits|, c);
    } else {
      DivisionIsUnique(c, c, 1, 0);
      MatchingMembers(table[start..], pattern, c - 1);
    }
  }

  /** Exact page count, at most floor(M / c) + 1 pages for M matches. */
  lemma {:induction false} FollowPageCount(table: Table, pattern: string, cursor: Key, c: nat)
    requires WellFormed(table) && c >= 1
    ensures |Follow(table, pattern, cursor, c)|
            == PageCount(|Matching(table[Start(table, cursor)..], pattern)|, c, EndsWithMatch(table, pattern))
            <= |Matching(table[Start(table, cursor)..], pattern)| / c + 1
    decreases |table| - Start(table, cursor)
  {
    hide Accepts, Stop, Keys, Matching, EndsWithMatch, PageCount, WellFormed;
    var start, stop := Start(table, cursor), StopFrom(table, pattern, cursor, c);
    var page := PlainPage(table, pattern, cursor, c);
    if page.hasMore {
      CursorPointsAtStop(table, pattern, cursor, c);
      StopAfterMatches(table, pattern, start, c);
      MatchingConcat(table[start..stop], table[stop..], pattern);
      assert table[start..] == table[start..stop] + table[stop..];
      FollowPageCount(table, pattern, page.nextCursor, c);
      LastMatch(table, pattern, stop);
      PageCountStep(|Matching(table[start..], pattern)|, c, EndsWithMatch(table, pattern));
    } else {
      LastPageCount(table, pattern, cursor, c);
    }
  }

  lemma SmallDivision(m: nat, c: nat)
    requires m < c
    ensures m / c == 0 && m % c == m
  {
  }

  lemma LastMatch(table: Table, pattern: string, i: nat)
    requires i < |table|
    ensures EndsWithMatch(table, pattern) ==> |Matching(table[i..], pattern)| > 0
  {
    assert table[i..] == table[i..|table| - 1] + [table[|table| - 1]];
    MatchingSnoc(table[i..|table| - 1], table[|table| - 1], pattern);
  }

  // ----- a table that changes between pages -----

  /** The cursor the client sends with page `i`, when page `j` is answered from
      `tables[j]`. */
  function CursorAt(tables: seq<Table>, pattern: string, c: nat, i: nat): Key
    requires c >= 1 && i <= |tables|
  {
    if i == 0 then [] else PlainPage(tables[i - 1], pattern, CursorAt(tables, pattern, c, i - 1), c).nextCursor
  }

  function PageAt(tables: seq<Table>, pattern: string, c: nat, i: nat): Page
    requires c >= 1 && i < |tables|
  {
    PlainPage(tables[i], pattern, CursorAt(tables, pattern, c, i), c)
  }

  /** All keys returned by the first `n` pages. */
  function Returned(tables: seq<Table>, pattern: string, c: nat, n: nat): seq<Key>
    requires c >= 1 && n <= |tables|
  {
    if n == 0 then [] else Returned(tables, pattern, c, n - 1) + PageAt(tables, pattern, c, n - 1).keys
  }

  ghost predicate Has(table: Table, key: Key, i: nat) { i < |table| && table[i].key == key }

  /** Keys present in both tables come in the same order in both. */
  ghost predicate SameOrder(a: Table, b: Table) {
    forall i: nat, j: nat, i': nat, j': nat, x, y ::
      Has(a, x, i) && Has(a, y, j) && Has(b, x, i') && Has(b, y, j') ==> (i < j <==> i' < j')
  }

  /** A finished scan over changing tables: every page but the last says there is
      more, surviving keys keep their order, and each cursor key survives until
      it is used. */
  ghost predicate FinishedScan(tables: seq<Table>, pattern: string, c: nat) {
    && c >= 1 && tables != []
    && (forall i :: 0 <= i < |tables| ==> WellFormed(tables[i]))
    && (forall i :: 0 <= i < |tables| ==>
                      (PageAt(tables, pattern, c, i).hasMore <==> i < |tables| - 1))
    && (forall i :: 1 <= i < |tables| ==> SameOrder(tables[i - 1], tables[i]))
    && (forall i :: 1 <= i < |tables| ==> exists k :: Has(tables[i], CursorAt(tables, pattern, c, i), k))
  }

  /** How often a key occurs. */
  function Times(keys: seq<Key>, key: Key): nat {
    if keys == [] then 0 else Times(keys[..|keys| - 1], key) + (if keys[|keys| - 1] == key then 1 else 0)
  }

  lemma {:induction false} TimesConcat(a: seq<Key>, b: seq<Key>, key: Key)
    ensures Times(a + b, key) == Times(a, key) + Times(b, key)
  {
    if b == [] {
      assert a + b == a;
    } else {
      TimesConcat(a, b[..|b| - 1], key);
      assert (a + b)[..|a + b| - 1] == a + b[..|b| - 1];
    }
  }

  lemma TimesOfNext(table: Table, pattern: string, key: Key, i: nat, j: nat)
    requires i < j <= |table|
    ensures Times(Keys(Matching(table[i..j], pattern)), key)
            == Times(Keys(Matching(table[i..j - 1], pattern)), key)
               + (if Accepts(table[j - 1].key, pattern) && table[j - 1].key == key then 1 else 0)
  {
    hide Accepts, Matching, Keys;
    var last, before := table[j - 1], Matching(table[i..j - 1], pattern);
    assert table[i..j] == table[i..j - 1] + [last];
    MatchingSnoc(table[i..j - 1], last, pattern);
    KeysSnoc(before, last);
    assert before + [] == before;
    assert (Keys(before) + [last.key])[..|Keys(before)|] == Keys(before);
  }

  /** A matching key occurs once among the matches of a stretch that holds it. */
  lemma {:induction false} Occurrences(table: Table, pattern: string, key: Key, p: nat, i: nat, j: nat)
    requires WellFormed(table) && Has(table, key, p) && Accepts(key, pattern) && i <= j <= |table|
    ensures Times(Keys(Matching(table[i..j], pattern)), key) == if i <= p < j then 1 else 0
    decreases j - i
  {
    hide Accepts, Matching;
    if i == j {
      EmptyMatching(table, pattern, i);
      assert Keys([]) == [];
    } else {
      hide Keys, Times;
      Occurrences(table, pattern, key, p, i, j - 1);
      TimesOfNext(table, pattern, key, i, j);
      assert j - 1 != p ==> table[j - 1].key != key;
    }
  }

  lemma KeysSnoc(table: Table, e: Entry)
    ensures Keys(table + [e]) == Keys(table) + [e.key]
  {
  }

  /** The next cursor splits the next table as this page split this one. */
  lemma SplitCarriesOver(a: Table, b: Table, pattern: string, cursor: Key, c: nat, key: Key, p: nat, q: nat, k: nat)
    requires WellFormed(a) && WellFormed(b) && c >= 1 && SameOrder(a, b)
    requires PlainPage(a, pattern, cursor, c).hasMore
    requires Has(b, PlainPage(a, pattern, cursor, c).nextCursor, k) && Has(a, key, p) && Has(b, key, q)
    ensures p < StopFrom(a, pattern, cursor, c) <==> q < Start(b, PlainPage(a, pattern, cursor, c).nextCursor)
  {
    hide Accepts, Matching, Stop, Keys;
    var next, stop := PlainPage(a, pattern, cursor, c).nextCursor, StopFrom(a, pattern, cursor, c);
    CursorPointsAtStop(a, pattern, cursor, c);
    assert Has(a, next, stop - 1);
    AfterIs(b, next, k);
    assert stop - 1 < p <==> k < q;
  }

  /** A page returns a matching key once if it lies between its start and stop. */
  lemma PageReturns(table: Table, pattern: string, cursor: Key, c: nat, key: Key, p: nat)
    requires WellFormed(table) && c >= 1 && Has(table, key, p) && Accepts(key, pattern)
    ensures Times(PlainPage(table, pattern, cursor, c).keys, key)
            == if Start(table, cursor) <= p < StopFrom(table, pattern, cursor, c) then 1 else 0
    ensures !PlainPage(table, pattern, cursor, c).hasMore ==> p < StopFrom(table, pattern, cursor, c)
  {
    hide Accepts, Matching, Stop, Keys;
    Occurrences(table, pattern, key, p, Start(table, cursor), StopFrom(table, pattern, cursor, c));
  }

  /** After page `i` the key has been returned once if it lies before the stop. */
  lemma ReturnedBeforeStop(tables: seq<Table>, pattern: string, c: nat, key: Key, i: nat, p: nat)
    requires c >= 1 && i < |tables| && WellFormed(tables[i]) && Has(tables[i], key, p) && Accepts(key, pattern)
    requires Times(Returned(tables, pattern, c, i), key)
             == if p < Start(tables[i], CursorAt(tables, pattern, c, i)) then 1 else 0
    ensures Times(Returned(tables, pattern, c, i + 1), key)
            == if p < StopFrom(tables[i], pattern, CursorAt(tables, pattern, c, i), c) then 1 else 0
    ensures !PageAt(tables, pattern, c, i).hasMore ==> Times(Returned(tables, pattern, c, i + 1), key) == 1
  {
    hide Accepts, Matching, Stop, Keys, PageOf, WellFormed, After, Times, CursorAt;
    var cursor := CursorAt(tables, pattern, c, i);
    PageReturns(tables[i], pattern, cursor, c, key, p);
    TimesConcat(Returned(tables, pattern, c, i), PageAt(tables, pattern, c, i).keys, key);
  }

  /** What a finished scan says about page `n` and the one before it. */
  lemma BetweenPages(tables: seq<Table>, pattern: string, c: nat, n: nat) returns (k: nat)
    requires FinishedScan(tables, pattern, c) && 0 < n < |tables|
    ensures c >= 1
    ensures WellFormed(tables[n - 1]) && WellFormed(tables[n]) && SameOrder(tables[n - 1], tables[n])
    ensures PageAt(tables, pattern, c, n - 1).hasMore && Has(tables[n], CursorAt(tables, pattern, c, n), k)
    ensures CursorAt(tables, pattern, c, n) == PageAt(tables, pattern, c, n - 1).nextCursor
  {
    hide Accepts, PageOf, SameOrder, WellFormed, Has;
    k :| Has(tables[n], CursorAt(tables, pattern, c, n), k);
  }

  /** Before page `n` a key present throughout has been returned once if it lies
      before the cursor, and not at all otherwise. */
  lemma {:induction false} ReturnedBeforeCursor(tables: seq<Table>, pattern: string, c: nat, key: Key, where: seq<nat>, n: nat)
    requires FinishedScan(tables, pattern, c) && Accepts(key, pattern)
    requires |where| == |tables| && forall i :: 0 <= i < |tables| ==> Has(tables[i], key, where[i])
    requires n < |tables|
    ensures Times(Returned(tables, pattern, c, n), key)
            == if where[n] < Start(tables[n], CursorAt(tables, pattern, c, n)) then 1 else 0
  {
    hide Accepts, PageOf, SameOrder, WellFormed, After, FinishedScan;
    if n > 0 {
      hide Start, Times, Returned, StopFrom, Has, CursorAt;
      var i := n - 1;
      ReturnedBeforeCursor(tables, pattern, c, key, where, i);
      var k := BetweenPages(tables, pattern, c, n);
      ReturnedBeforeStop(tables, pattern, c, key, i, where[i]);
      SplitCarriesOver(tables[i], tables[n], pattern, CursorAt(tables, pattern, c, i), c, key, where[i], where[n], k);
    }
  }

  /** Every matching key present throughout a finished scan is returned exactly
      once, whatever else was inserted or deleted between the pages. */
  lemma SurvivorsReturnedOnce(tables: seq<Table>, pattern: string, c: nat, key: Key, where: seq<nat>)
    requires FinishedScan(tables, pattern, c) && Accepts(key, pattern)
    requires |where| == |tables| && forall i :: 0 <= i < |tables| ==> Has(tables[i], key, where[i])
    ensures Times(Returned(tables, pattern, c, |tables|), key) == 1
  {
    hide Accepts, PageOf, SameOrder, WellFormed, Start, CursorAt, Times, Returned, StopFrom, Has;
    var n := |tables| - 1;
    ReturnedBeforeCursor(tables, pattern, c, key, where, n);
    ReturnedBeforeStop(tables, pattern, c, key, n, where[n]);
    assert !PageAt(tables, pattern, c, n).hasMore;
  }
}
