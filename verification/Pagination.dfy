/** Cursor pagination: pages in descending id order, with one row more asked for than shown. */
module Pagination {

  datatype Row = Row(id: nat, user: nat, isRead: bool)

  datatype ReadState = Any | Read | Unread

  datatype Page = Page(items: seq<Row>, nextCursor: nat)

  /** The WHERE clause of the listing, without the cursor. */
  predicate Matches(r: Row, user: nat, readState: ReadState) {
    r.user == user && match readState
      case Any => true
      case Read => r.isRead
      case Unread => !r.isRead
  }

  /** A table in insertion order: AUTO_INCREMENT ids start at 1 and grow. */
  predicate Ascending(table: seq<Row>) {
    (forall i :: 0 <= i < |table| ==> table[i].id > 0) && forall i, j :: 0 <= i < j < |table| ==> table[i].id < table[j].id
  }

  /** All matching rows below the cursor, newest first; cursor 0 is no bound. */
  function Matching(table: seq<Row>, user: nat, readState: ReadState, cursor: nat): seq<Row> {
    if table == [] then []
    else
      var r, rest := table[|table| - 1], Matching(table[..|table| - 1], user, readState, cursor);
      if Matches(r, user, readState) && (cursor == 0 || r.id < cursor) then [r] + rest else rest
  }

  function Limited(limit: int): (l: nat)
    ensures 1 <= l <= 100 && (1 <= limit <= 100 ==> l == limit)
  {
    if limit <= 0 || limit > 100 then 20 else limit
  }

  function Take(s: seq<Row>, n: nat): seq<Row> {
    if |s| <= n then s else s[..n]
  }

  /** What one call returns. */
  function PageOf(rows: seq<Row>, limit: nat): Page
    requires limit > 0
  {
    if |rows| > limit then Page(rows[..limit], rows[limit - 1].id) else Page(rows, 0)
  }

  /** One row further down the scan. */
  lemma ScanRow(front: seq<Row>, r: Row, user: nat, readState: ReadState, cursor: nat, rows: seq<Row>)
    ensures rows + Matching(front + [r], user, readState, cursor) ==
      (if Matches(r, user, readState) && (cursor == 0 || r.id < cursor) then rows + [r] else rows) + Matching(front, user, readState, cursor)
  {
    assert (front + [r])[..|front|] == front;
    var rest := Matching(front, user, readState, cursor);
    assert rows + ([r] + rest) == (rows + [r]) + rest;
  }

  /** A row that the listing is after: of the user, in the read state asked for, and below the cursor. */
  predicate Wanted(r: Row, user: nat, readState: ReadState, cursor: nat) {
    && r.user == user && (readState == Read ==> r.isRead) && (readState == Unread ==> !r.isRead)
    && (cursor > 0 ==> r.id < cursor)
  }

  /**
   * A page of a table: wanted rows of it, newest first, at most `n`, and no wanted row
   * left out that is newer than one shown. Without a next cursor it has them all; with
   * one, that is the id of its last row, it is full, and there are older ones.
   */
  ghost predicate IsPage(page: Page, table: seq<Row>, user: nat, readState: ReadState, cursor: nat, n: nat) {
    && |page.items| <= n && Descending(page.items)
    && (forall r :: r in page.items ==> r in table && Wanted(r, user, readState, cursor))
    && (page.nextCursor == 0 ==> forall r :: r in table && Wanted(r, user, readState, cursor) ==> r in page.items)
    && (page.nextCursor > 0 ==>
          && n > 0 && |page.items| == n && page.nextCursor == page.items[n - 1].id
          && (forall r :: r in table && Wanted(r, user, readState, cursor) ==> r in page.items || r.id < page.nextCursor)
          && exists r :: r in table && Wanted(r, user, readState, cursor) && r.id < page.nextCursor)
  }

  lemma PageMeans(table: seq<Row>, user: nat, readState: ReadState, cursor: nat, n: nat)
    requires Ascending(table) && n > 0
    ensures IsPage(PageOf(Matching(table, user, readState, cursor), n), table, user, readState, cursor, n)
  {
    var rows := Matching(table, user, readState, cursor);
    MatchingDescending(table, user, readState, cursor);
    assert forall r :: r in rows <==> r in table && Wanted(r, user, readState, cursor);
    if |rows| > n {
      var page := rows[..n];
      assert rows[n - 1] in rows && rows[n] in rows && rows[n].id < rows[n - 1].id;
      forall r | r in rows
        ensures r in page || r.id < rows[n - 1].id
      {
        var i :| 0 <= i < |rows| && rows[i] == r;
        if i < n {
          assert page[i] == r;
        }
      }
    }
  }

  class Store {
    var table: seq<Row>

    /** The SELECT with ORDER BY id DESC LIMIT n, as a scan from the newest row. */
    method Query(user: nat, readState: ReadState, cursor: nat, n: nat) returns (rows: seq<Row>)
      ensures rows == Take(Matching(table, user, readState, cursor), n)
    {
      rows := [];
      var i := |table|;
      assert table[..i] == table;
      while i > 0 && |rows| < n
        invariant 0 <= i <= |table| && |rows| <= n
        invariant rows + Matching(table[..i], user, readState, cursor) == Matching(table, user, readState, cursor)
        decreases i
      {
        i := i - 1;
        var r := table[i];
        assert table[..i + 1] == table[..i] + [r];
        ScanRow(table[..i], r, user, readState, cursor, rows);
        if Matches(r, user, readState) && (cursor == 0 || r.id < cursor) {
          rows := rows + [r];
        }
      }
      if i == 0 {
        assert table[..i] == [] && rows + [] == rows;
      }
    }

    /** List: asks for one row more than it shows, to learn whether there is a next page. */
    method List(user: nat, readState: ReadState, cursor: nat, limit: int) returns (page: Page)
      ensures page == PageOf(Matching(table, user, readState, cursor), Limited(limit))
      ensures Ascending(table) ==> IsPage(page, table, user, readState, cursor, if 1 <= limit <= 100 then limit else 20)
    {
      if Ascending(table) {
        PageMeans(table, user, readState, cursor, Limited(limit));
      }
      var l := limit;
      if l <= 0 || l > 100 {
        l := 20;
      }
      var rows := Query(user, readState, cursor, l + 1);
      var all: seq<Row> := [];
      for i := 0 to |rows|
        invariant all == rows[..i]
      {
        all := all + [rows[i]];
      }
      page := Page(all, 0);
      if |all| > l {
        page := Page(all[..l], all[l - 1].id);
      }
    }
  }

  // ------------------------------------------------------- following the cursor

  /** Ids above zero, strictly falling. */
  predicate Descending(rows: seq<Row>) {
    (forall i :: 0 <= i < |rows| ==> rows[i].id > 0) && forall i, j :: 0 <= i < j < |rows| ==> rows[i].id > rows[j].id
  }

  lemma {:induction false} MatchingDescending(table: seq<Row>, user: nat, readState: ReadState, cursor: nat)
    requires Ascending(table)
    ensures Descending(Matching(table, user, readState, cursor))
    ensures forall r :: r in Matching(table, user, readState, cursor) <==> r in table && Matches(r, user, readState) && (cursor == 0 || r.id < cursor)
  {
    if table != [] {
      var front, r := table[..|table| - 1], table[|table| - 1];
      MatchingDescending(front, user, readState, cursor);
      assert table == front + [r];
    }
  }

  function Below(rows: seq<Row>, cursor: nat): seq<Row> {
    if rows == [] then []
    else if cursor == 0 || rows[0].id < cursor then [rows[0]] + Below(rows[1..], cursor)
    else Below(rows[1..], cursor)
  }

  lemma {:induction false} MatchingBelow(table: seq<Row>, user: nat, readState: ReadState, cursor: nat)
    ensures Matching(table, user, readState, cursor) == Below(Matching(table, user, readState, 0), cursor)
  {
    if table != [] {
      MatchingBelow(table[..|table| - 1], user, readState, cursor);
    }
  }

  lemma {:induction false} BelowAll(rows: seq<Row>, cursor: nat)
    requires cursor == 0 || forall i :: 0 <= i < |rows| ==> rows[i].id < cursor
    ensures Below(rows, cursor) == rows
  {
    if rows != [] {
      BelowAll(rows[1..], cursor);
    }
  }

  /** On falling ids, what lies below the id at `n - 1` is what comes after it. */
  lemma {:induction false} BelowIsRest(rows: seq<Row>, n: nat)
    requires Descending(rows) && 0 < n <= |rows|
    ensures Below(rows, rows[n - 1].id) == rows[n..]
  {
    if n == 1 {
      BelowAll(rows[1..], rows[0].id);
    } else {
      assert rows[1..][n - 2] == rows[n - 1] && rows[1..][n - 1..] == rows[n..];
      BelowIsRest(rows[1..], n - 1);
    }
  }

  /** The tables seen by the page reads, each the one before with newer rows added. */
  predicate OnlyInserts(tables: seq<seq<Row>>) {
    (forall k :: 0 <= k < |tables| ==> Ascending(tables[k])) && forall k :: 0 <= k < |tables| - 1 ==> tables[k] <= tables[k + 1]
  }

  /** Rows inserted later do not show below a cursor of an earlier page. */
  lemma {:induction false} InsertsInvisible(before: seq<Row>, after: seq<Row>, user: nat, readState: ReadState, cursor: nat)
    requires Ascending(after) && before <= after && 0 < cursor
    requires exists r :: r in before && r.id == cursor
    ensures Matching(after, user, readState, cursor) == Matching(before, user, readState, cursor)
  {
    if |after| > |before| {
      var front := after[..|after| - 1];
      var i :| 0 <= i < |before| && before[i].id == cursor;
      assert after[i] == before[i];
      InsertsInvisible(before, front, user, readState, cursor);
    } else {
      assert before == after;
    }
  }

  /** All items got by following NextCursor from `cursor`, reading the tables one after the other, until it is 0. */
  function Follow(tables: seq<seq<Row>>, user: nat, readState: ReadState, limit: nat, cursor: nat): seq<Row>
    requires limit > 0
  {
    if tables == [] then []
    else
      var page := PageOf(Matching(tables[0], user, readState, cursor), limit);
      if page.nextCursor == 0 then page.items
      else page.items + Follow(tables[1..], user, readState, limit, page.nextCursor)
  }

  /** How many page reads a listing of `n` rows takes. */
  function Pages(n: nat, limit: nat): nat
    requires limit > 0
  {
    if n <= limit then 1 else 1 + Pages(n - limit, limit)
  }

  lemma MatchingFrom(table: seq<Row>, user: nat, readState: ReadState, cursor: nat, rows: seq<Row>, n: nat)
    requires Ascending(table) && rows == Matching(table, user, readState, cursor) && 0 < n < |rows|
    ensures rows[n - 1].id > 0 && rows[n - 1] in table
    ensures Matching(table, user, readState, rows[n - 1].id) == rows[n..]
  {
    MatchingDescending(table, user, readState, cursor);
    MatchingDescending(table, user, readState, 0);
    var all, c := Matching(table, user, readState, 0), rows[n - 1].id;
    assert rows[n - 1] in rows;
    MatchingBelow(table, user, readState, cursor);
    MatchingBelow(table, user, readState, c);
    BelowBelow(all, cursor, c);
    BelowIsRest(rows, n);
  }

  /** A tighter cursor on what a looser one left. */
  lemma {:induction false} BelowBelow(rows: seq<Row>, loose: nat, tight: nat)
    requires tight > 0 && (loose == 0 || tight <= loose)
    ensures Below(Below(rows, loose), tight) == Below(rows, tight)
  {
    if rows != [] {
      BelowBelow(rows[1..], loose, tight);
    }
  }

  lemma {:induction false} FollowFrom(tables: seq<seq<Row>>, user: nat, readState: ReadState, limit: nat, cursor: nat)
    requires limit > 0 && OnlyInserts(tables) && tables != []
    requires |tables| >= Pages(|Matching(tables[0], user, readState, cursor)|, limit)
    ensures Follow(tables, user, readState, limit, cursor) == Matching(tables[0], user, readState, cursor)
    decreases |tables|
  {
    var rows := Matching(tables[0], user, readState, cursor);
    if |rows| > limit {
      var next := rows[limit - 1].id;
      MatchingFrom(tables[0], user, readState, cursor, rows, limit);
      InsertsInvisible(tables[0], tables[1], user, readState, next);
      FollowFrom(tables[1..], user, readState, limit, next);
      assert rows == rows[..limit] + rows[limit..];
    }
  }

  /**
   * Following the cursor from 0 ends after as many pages as the first listing fills,
   * and gives every row that matched at the first read exactly once, newest first,
   * whatever rows with larger ids are inserted between the reads.
   */
  lemma FollowAll(tables: seq<seq<Row>>, user: nat, readState: ReadState, limit: int)
    requires OnlyInserts(tables) && tables != []
    requires |tables| >= Pages(|Matching(tables[0], user, readState, 0)|, Limited(limit))
    ensures var got := Follow(tables, user, readState, Limited(limit), 0);
      && Descending(got)
      && forall r :: r in got <==> r in tables[0] && r.user == user && (readState == Any || (readState == Read <==> r.isRead))
  {
    FollowFrom(tables, user, readState, Limited(limit), 0);
    MatchingDescending(tables[0], user, readState, 0);
  }

  // --------------------------------------- when read states change in between

  /** The tables seen by the page reads: newer rows are added and read states change. */
  predicate Evolves(tables: seq<seq<Row>>) {
    && (forall k :: 0 <= k < |tables| ==> Ascending(tables[k]))
    && (forall k :: 0 <= k < |tables| - 1 ==> SameRows(tables[k], tables[k + 1]))
  }

  predicate SameRows(before: seq<Row>, after: seq<Row>) {
    |before| <= |after| && forall i :: 0 <= i < |before| ==> after[i].id == before[i].id && after[i].user == before[i].user
  }

  /** The table has a row of that id that matches. */
  predicate Lists(table: seq<Row>, user: nat, readState: ReadState, id: nat) {
    exists i | 0 <= i < |table| :: table[i].id == id && Matches(table[i], user, readState)
  }

  predicate HasId(rows: seq<Row>, id: nat) {
    exists i | 0 <= i < |rows| :: rows[i].id == id
  }

  /** How many rows lie below the cursor. */
  function Older(table: seq<Row>, cursor: nat): nat {
    if table == [] then 0
    else Older(table[..|table| - 1], cursor) + if cursor == 0 || table[|table| - 1].id < cursor then 1 else 0
  }

  lemma {:induction false} OlderAtMost(table: seq<Row>, cursor: nat)
    ensures Older(table, cursor) <= |table|
  {
    if table != [] {
      OlderAtMost(table[..|table| - 1], cursor);
    }
  }

  /** A tighter cursor, at a row below the looser one, leaves fewer. */
  lemma {:induction false} OlderShrinks(table: seq<Row>, loose: nat, tight: nat)
    requires tight > 0 && (loose == 0 || tight <= loose)
    ensures Older(table, tight) <= Older(table, loose)
    ensures HasId(table, tight) && (loose == 0 || tight < loose) ==> Older(table, tight) < Older(table, loose)
  {
    if table != [] {
      var front, r := table[..|table| - 1], table[|table| - 1];
      OlderShrinks(front, loose, tight);
      if HasId(table, tight) && r.id != tight {
        var i :| 0 <= i < |table| && table[i].id == tight;
        assert front[i] == table[i];
      }
    }
  }

  /** Rows added later are not below the cursor of an earlier page. */
  lemma {:induction false} OlderStays(before: seq<Row>, after: seq<Row>, cursor: nat)
    requires Ascending(after) && SameRows(before, after) && cursor > 0 && HasId(before, cursor)
    ensures Older(after, cursor) == Older(before, cursor)
    decreases |after|
  {
    if |after| > |before| {
      var i :| 0 <= i < |before| && before[i].id == cursor;
      assert after[i].id == cursor;
      OlderStays(before, after[..|after| - 1], cursor);
    } else {
      SameOlder(before, after, cursor);
    }
  }

  lemma {:induction false} SameOlder(before: seq<Row>, after: seq<Row>, cursor: nat)
    requires SameRows(before, after) && |before| == |after|
    ensures Older(after, cursor) == Older(before, cursor)
  {
    if before != [] {
      SameOlder(before[..|before| - 1], after[..|after| - 1], cursor);
    }
  }

  /** The row, as it stands there, matched at some read. */
  ghost predicate MatchedOnce(tables: seq<seq<Row>>, user: nat, readState: ReadState, r: Row) {
    Matches(r, user, readState) && exists k | 0 <= k < |tables| :: r in tables[k]
  }

  ghost predicate MatchesThroughout(tables: seq<seq<Row>>, user: nat, readState: ReadState, id: nat) {
    forall k :: 0 <= k < |tables| ==> Lists(tables[k], user, readState, id)
  }

  predicate UnderCursor(cursor: nat, id: nat) {
    cursor == 0 || id < cursor
  }

  ghost predicate OnlyMatching(got: seq<Row>, tables: seq<seq<Row>>, user: nat, readState: ReadState, cursor: nat) {
    forall i :: 0 <= i < |got| ==> UnderCursor(cursor, got[i].id) && MatchedOnce(tables, user, readState, got[i])
  }

  ghost predicate AllMatching(got: seq<Row>, tables: seq<seq<Row>>, user: nat, readState: ReadState, cursor: nat) {
    forall id: nat :: UnderCursor(cursor, id) && MatchesThroughout(tables, user, readState, id) ==> HasId(got, id)
  }

  /** What a listing from `cursor` on holds: falling ids, so none twice; only rows that matched at some read; and every row that matches at all of them. */
  ghost predicate Complete(got: seq<Row>, tables: seq<seq<Row>>, user: nat, readState: ReadState, cursor: nat) {
    Descending(got) && OnlyMatching(got, tables, user, readState, cursor) && AllMatching(got, tables, user, readState, cursor)
  }

  /** The only page, or the last. */
  lemma LastPage(tables: seq<seq<Row>>, user: nat, readState: ReadState, cursor: nat)
    requires Evolves(tables) && tables != []
    ensures Complete(Matching(tables[0], user, readState, cursor), tables, user, readState, cursor)
  {
    hide Matching;
    var rows := Matching(tables[0], user, readState, cursor);
    MatchingDescending(tables[0], user, readState, cursor);
    forall i | 0 <= i < |rows|
      ensures UnderCursor(cursor, rows[i].id) && MatchedOnce(tables, user, readState, rows[i])
    {
      assert rows[i] in rows;
    }
    forall id: nat | UnderCursor(cursor, id) && MatchesThroughout(tables, user, readState, id)
      ensures HasId(rows, id)
    {
      assert Lists(tables[0], user, readState, id);
      var i :| 0 <= i < |tables[0]| && tables[0][i].id == id && Matches(tables[0][i], user, readState);
      assert tables[0][i] in rows;
    }
  }

  lemma TailTables(tables: seq<seq<Row>>, user: nat, readState: ReadState)
    requires tables != []
    ensures forall r :: MatchedOnce(tables[1..], user, readState, r) ==> MatchedOnce(tables, user, readState, r)
    ensures forall id :: MatchesThroughout(tables, user, readState, id) ==> MatchesThroughout(tables[1..], user, readState, id)
  {
    assert forall k :: 0 <= k < |tables[1..]| ==> tables[1..][k] == tables[k + 1];
  }

  lemma PageOnly(rows: seq<Row>, n: nat, rest: seq<Row>, tables: seq<seq<Row>>, user: nat, readState: ReadState, cursor: nat)
    requires tables != [] && 0 < n < |rows| && rows[n - 1].id > 0
    requires OnlyMatching(rows, tables, user, readState, cursor) && OnlyMatching(rest, tables[1..], user, readState, rows[n - 1].id)
    ensures OnlyMatching(rows[..n] + rest, tables, user, readState, cursor)
  {
    hide MatchedOnce;
    TailTables(tables, user, readState);
    var got := rows[..n] + rest;
    forall i | 0 <= i < |got|
      ensures UnderCursor(cursor, got[i].id) && MatchedOnce(tables, user, readState, got[i])
    {
      if i < n {
        assert got[i] == rows[i];
      } else {
        assert got[i] == rest[i - n];
        assert UnderCursor(cursor, rows[n - 1].id);
      }
    }
  }

  lemma PageAll(rows: seq<Row>, n: nat, rest: seq<Row>, tables: seq<seq<Row>>, user: nat, readState: ReadState, cursor: nat)
    requires tables != [] && 0 < n < |rows| && rows[n - 1].id > 0 && Descending(rows)
    requires AllMatching(rows, tables, user, readState, cursor) && AllMatching(rest, tables[1..], user, readState, rows[n - 1].id)
    ensures AllMatching(rows[..n] + rest, tables, user, readState, cursor)
  {
    hide MatchesThroughout;
    TailTables(tables, user, readState);
    var got := rows[..n] + rest;
    forall id: nat | UnderCursor(cursor, id) && MatchesThroughout(tables, user, readState, id)
      ensures HasId(got, id)
    {
      if id < rows[n - 1].id {
        assert HasId(rest, id);
        var j :| 0 <= j < |rest| && rest[j].id == id;
        assert got[n + j] == rest[j];
      } else {
        assert HasId(rows, id);
        var j :| 0 <= j < |rows| && rows[j].id == id;
        assert j < n && got[j] == rows[j];
      }
    }
  }

  lemma PageDescends(rows: seq<Row>, n: nat, rest: seq<Row>)
    requires 0 < n < |rows| && Descending(rows) && Descending(rest)
    requires forall i :: 0 <= i < |rest| ==> rest[i].id < rows[n - 1].id
    ensures Descending(rows[..n] + rest)
  {
    var got := rows[..n] + rest;
    forall i, j | 0 <= i < j < |got|
      ensures got[i].id > got[j].id
    {
      if i < n <= j {
        assert rows[i].id >= rows[n - 1].id && got[j] == rest[j - n];
      }
    }
  }

  /** A page, and behind it a listing from its cursor on. */
  lemma PageAndRest(rows: seq<Row>, n: nat, rest: seq<Row>, tables: seq<seq<Row>>, user: nat, readState: ReadState, cursor: nat)
    requires tables != [] && 0 < n < |rows| && rows[n - 1].id > 0
    requires Complete(rows, tables, user, readState, cursor) && Complete(rest, tables[1..], user, readState, rows[n - 1].id)
    ensures Complete(rows[..n] + rest, tables, user, readState, cursor)
  {
    PageOnly(rows, n, rest, tables, user, readState, cursor);
    hide AllMatching, MatchedOnce;
    PageAll(rows, n, rest, tables, user, readState, cursor);
    PageDescends(rows, n, rest);
  }

  lemma {:induction false} FollowChanging(tables: seq<seq<Row>>, user: nat, readState: ReadState, limit: nat, cursor: nat)
    requires limit > 0 && Evolves(tables) && |tables| > Older(if tables == [] then [] else tables[0], cursor)
    ensures Complete(Follow(tables, user, readState, limit, cursor), tables, user, readState, cursor)
    decreases |tables|
  {
    hide Complete;
    var rows := Matching(tables[0], user, readState, cursor);
    if |rows| <= limit {
      LastPage(tables, user, readState, cursor);
    } else {
      var next := rows[limit - 1].id;
      MatchingDescending(tables[0], user, readState, cursor);
      assert rows[limit - 1] in rows;
      assert HasId(tables[0], next) by {
        var i :| 0 <= i < |tables[0]| && tables[0][i] == rows[limit - 1];
      }
      OlderShrinks(tables[0], cursor, next);
      OlderStays(tables[0], tables[1], next);
      assert tables[1..][0] == tables[1];
      FollowChanging(tables[1..], user, readState, limit, next);
      LastPage(tables, user, readState, cursor);
      PageAndRest(rows, limit, Follow(tables[1..], user, readState, limit, next), tables, user, readState, cursor);
    }
  }

  /**
   * While rows are added and marked as read or unread between the page reads, following
   * the cursor from 0 still ends, lists no row twice, only rows that matched when their
   * page was read, and every row that matches at all reads.
   */
  lemma FollowWhileMarking(tables: seq<seq<Row>>, user: nat, readState: ReadState, limit: int)
    requires Evolves(tables) && tables != [] && |tables| > |tables[0]|
    ensures Complete(Follow(tables, user, readState, Limited(limit), 0), tables, user, readState, 0)
  {
    OlderAtMost(tables[0], 0);
    FollowChanging(tables, user, readState, Limited(limit), 0);
  }
}
