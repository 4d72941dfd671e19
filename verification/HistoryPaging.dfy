/**
  The paged history of src/bot/services/balance_service.py over the SQL functions
  fn_get_history and fn_has_more_history.

  The ledger is listed in the order of the query, newest first and ties by identifier.
*/
module HistoryPaging {
  import opened Wrappers

  datatype Row = Row(id: nat, guild: int, initiator: int, target: Option<int>, createdAt: int)

  predicate Before(a: Row, b: Row) {
    a.createdAt > b.createdAt || (a.createdAt == b.createdAt && a.id > b.id)
  }

  predicate Ordered(rows: seq<Row>) {
    forall i, j :: 0 <= i < j < |rows| ==> Before(rows[i], rows[j])
  }

  // ---------------------------------------------------------------- the SQL functions

  predicate Concerns(r: Row, guild: int, member: int, cursor: Option<int>) {
    && r.guild == guild
    && (r.initiator == member || r.target == Some(member))
    && (cursor.Some? ==> r.createdAt < cursor.value)
  }

  /** The member's rows strictly older than the cursor, in ledger order. */
  function Rows(ledger: seq<Row>, guild: int, member: int, cursor: Option<int>): seq<Row> {
    if ledger == [] then []
    else
      (if Concerns(ledger[0], guild, member, cursor) then [ledger[0]] else [])
      + Rows(ledger[1..], guild, member, cursor)
  }

  function FetchHistory(ledger: seq<Row>, guild: int, member: int, limit: nat, cursor: Option<int>): seq<Row> {
    var rows := Rows(ledger, guild, member, cursor);
    if limit < |rows| then rows[..limit] else rows
  }

  predicate HasMoreHistory(ledger: seq<Row>, guild: int, member: int, before: int) {
    exists r :: r in ledger && Concerns(r, guild, member, Some(before))
  }

  // ---------------------------------------------------------------- get_history

  datatype HistoryEntry = HistoryEntry(row: Row, member: int)

  datatype Page = Page(items: seq<HistoryEntry>, next: Option<int>)

  /** The database and the request; failure is the error fetch_history comes back with, if any. */
  datatype Request = Request(ledger: seq<Row>, failure: Option<string>, guild: int, requester: int, target: Option<int>,
                             canViewOthers: bool, limit: int, cursor: Option<int>) {
    /** target_member_id or requester_id: a target of 0 counts as none. */
    function Member(): int {
      if target.Some? && target.value != 0 then target.value else requester
    }

    predicate Permitted() {
      requester == Member() || canViewOthers
    }
  }

  datatype DatabaseError = GatewayError(reason: string) | PermissionError

  datatype WithConnection =
    | Returned(page: Page)
    | RaisedValueError
    | RaisedPermissionError
    | RaisedDatabaseError(error: string)

  datatype WithPool = Came(result: Result<Page, DatabaseError>) | PoolRaisedValueError

  function Entries(rows: seq<Row>, member: int): seq<HistoryEntry> {
    seq(|rows|, i requires 0 <= i < |rows| => HistoryEntry(rows[i], member))
  }

  function NextCursor(r: Request, items: seq<HistoryEntry>): Option<int> {
    if |items| == r.limit && items != [] then
      var last := items[|items| - 1].row.createdAt;
      if HasMoreHistory(r.ledger, r.guild, r.Member(), last) then Some(last) else None
    else None
  }

  /** With an explicit connection: a page, or an exception. */
  function GetHistoryOnConnection(r: Request): WithConnection {
    if r.limit < 1 || r.limit > 50 then RaisedValueError
    else if !r.Permitted() then RaisedPermissionError
    else if r.failure.Some? then RaisedDatabaseError(r.failure.value)
    else
      var items := Entries(FetchHistory(r.ledger, r.guild, r.Member(), r.limit, r.cursor), r.Member());
      Returned(Page(items, NextCursor(r, items)))
  }

  /** Without a connection: a Result, except for a bad limit. */
  function GetHistoryFromPool(r: Request): WithPool {
    if r.limit < 1 || r.limit > 50 then PoolRaisedValueError
    else if !r.Permitted() then Came(Err(PermissionError))
    else if r.failure.Some? then Came(Err(GatewayError(r.failure.value)))
    else
      var items := Entries(FetchHistory(r.ledger, r.guild, r.Member(), r.limit, r.cursor), r.Member());
      Came(Ok(Page(items, NextCursor(r, items))))
  }

  /** The two calling modes give the same pages and fail on the same requests for the same reasons. */
  lemma ModesAgree(r: Request)
    ensures GetHistoryFromPool(r) ==
            match GetHistoryOnConnection(r)
            case Returned(page) => Came(Ok(page))
            case RaisedValueError => PoolRaisedValueError
            case RaisedPermissionError => Came(Err(PermissionError))
            case RaisedDatabaseError(e) => Came(Err(GatewayError(e)))
  {
  }

  // ---------------------------------------------------------------- which requests get a page

  /**
    A page comes back exactly if the limit is 1 to 50, the requester asks about himself (no
    target, target 0, or his own) or may view others, and the gateway did not fail; the first
    condition that fails decides the error.
   */
  lemma PageIsGivenExactly(r: Request)
    ensures
      var inLimit := 1 <= r.limit <= 50;
      var allowed := r.target.None? || r.target.value == 0 || r.target.value == r.requester || r.canViewOthers;
      var c, p := GetHistoryOnConnection(r), GetHistoryFromPool(r);
      && (c.Returned? <==> inLimit && allowed && r.failure == None)
      && (c.RaisedValueError? <==> !inLimit)
      && (c.RaisedPermissionError? <==> inLimit && !allowed)
      && (forall error :: c == RaisedDatabaseError(error) <==> inLimit && allowed && r.failure == Some(error))
      && (p.PoolRaisedValueError? <==> !inLimit)
      && (p.Came? ==> (p.result.Ok? <==> allowed && r.failure == None))
      && (p == Came(Err(PermissionError)) <==> inLimit && !allowed)
      && (forall error :: p == Came(Err(GatewayError(error))) <==> inLimit && allowed && r.failure == Some(error))
  {
  }

  lemma {:induction false} RowsExactly(ledger: seq<Row>, guild: int, member: int, cursor: Option<int>, row: Row)
    ensures row in Rows(ledger, guild, member, cursor) <==>
            && row in ledger && row.guild == guild && (row.initiator == member || row.target == Some(member))
            && (cursor.None? || row.createdAt < cursor.value)
  {
    if ledger != [] {
      assert row in ledger <==> row == ledger[0] || row in ledger[1..];
      RowsExactly(ledger[1..], guild, member, cursor, row);
    }
  }

  /** What a page shows are rows of the guild in which the member asked for took part, marked with that member. */
  lemma PageIsOfTheMember(r: Request, i: nat)
    requires GetHistoryOnConnection(r).Returned? && i < |GetHistoryOnConnection(r).page.items|
    ensures
      var item := GetHistoryOnConnection(r).page.items[i];
      var member := if r.target.None? || r.target.value == 0 then r.requester else r.target.value;
      && item.member == member && item.row in r.ledger && item.row.guild == r.guild
      && (item.row.initiator == member || item.row.target == Some(member))
      && (r.cursor.Some? ==> item.row.createdAt < r.cursor.value)
  {
    var rows := FetchHistory(r.ledger, r.guild, r.Member(), r.limit, r.cursor);
    assert rows[i] in Rows(r.ledger, r.guild, r.Member(), r.cursor);
    RowsExactly(r.ledger, r.guild, r.Member(), r.cursor, rows[i]);
  }

  // ---------------------------------------------------------------- walking the pages

  lemma {:induction false} RowsFacts(ledger: seq<Row>, guild: int, member: int, cursor: Option<int>)
    requires Ordered(ledger)
    ensures Ordered(Rows(ledger, guild, member, cursor))
    ensures forall r :: r in Rows(ledger, guild, member, cursor) <==> r in ledger && Concerns(r, guild, member, cursor)
  {
    if ledger != [] {
      RowsFacts(ledger[1..], guild, member, cursor);
      assert ledger == [ledger[0]] + ledger[1..];
      var rest := Rows(ledger[1..], guild, member, cursor);
      assert forall i :: 0 <= i < |rest| ==> rest[i] in ledger[1..];
    }
  }

  function Older(rows: seq<Row>, before: int): seq<Row> {
    if rows == [] then []
    else (if rows[0].createdAt < before then [rows[0]] else []) + Older(rows[1..], before)
  }

  lemma {:induction false} OlderConcat(a: seq<Row>, b: seq<Row>, before: int)
    ensures Older(a + b, before) == Older(a, before) + Older(b, before)
  {
    if a == [] {
      assert a + b == b;
    } else {
      assert (a + b)[1..] == a[1..] + b;
      OlderConcat(a[1..], b, before);
    }
  }

  lemma {:induction false} RowsOlder(ledger: seq<Row>, guild: int, member: int, cursor: Option<int>, before: int)
    requires cursor.Some? ==> before <= cursor.value
    ensures Rows(ledger, guild, member, Some(before)) == Older(Rows(ledger, guild, member, cursor), before)
  {
    if ledger != [] {
      RowsOlder(ledger[1..], guild, member, cursor, before);
      var rest := Rows(ledger[1..], guild, member, cursor);
      assert ([ledger[0]] + rest)[1..] == rest && [] + rest == rest;
    }
  }

  /** In listing order the older rows are the rows from some index on. */
  lemma {:induction false} OlderIsSuffix(rows: seq<Row>, before: int) returns (k: nat)
    requires Ordered(rows)
    ensures k <= |rows| && Older(rows, before) == rows[k..]
    ensures forall i :: 0 <= i < k ==> rows[i].createdAt >= before
    ensures forall i :: k <= i < |rows| ==> rows[i].createdAt < before
  {
    if rows == [] {
      k := 0;
    } else {
      var j := OlderIsSuffix(rows[1..], before);
      k := if rows[0].createdAt < before then 0 else j + 1;
      assert |rows| > 1 ==> Before(rows[0], rows[1]) && rows[1..][0] == rows[1];
      assert rows == [rows[0]] + rows[1..];
    }
  }

  /** A request that is answered with a page. */
  predicate Answered(r: Request) {
    1 <= r.limit <= 50 && r.Permitted() && r.failure == None && Ordered(r.ledger)
  }

  /** The rows still ahead of the request's cursor. */
  function Ahead(r: Request): seq<Row> {
    Rows(r.ledger, r.guild, r.Member(), r.cursor)
  }

  function PageOf(r: Request): Page
    requires Answered(r)
  {
    GetHistoryFromPool(r).result.value
  }

  function Shown(page: Page): seq<Row> {
    seq(|page.items|, i requires 0 <= i < |page.items| => page.items[i].row)
  }

  lemma PageShows(r: Request)
    requires Answered(r)
    ensures Shown(PageOf(r)) == if r.limit < |Ahead(r)| then Ahead(r)[..r.limit] else Ahead(r)
    ensures |PageOf(r).items| == |Shown(PageOf(r))|
  {
  }

  lemma PageNext(r: Request)
    requires Answered(r)
    ensures PageOf(r).next ==
            if |Ahead(r)| >= r.limit && HasMoreHistory(r.ledger, r.guild, r.Member(), Ahead(r)[r.limit - 1].createdAt)
            then Some(Ahead(r)[r.limit - 1].createdAt) else None
  {
    PageShows(r);
  }

  lemma PageFacts(r: Request)
    requires Answered(r)
    ensures Ordered(Ahead(r))
    ensures Shown(PageOf(r)) == if r.limit < |Ahead(r)| then Ahead(r)[..r.limit] else Ahead(r)
    ensures PageOf(r).next.Some? <==> |Ahead(r)| >= r.limit && Older(Ahead(r), Ahead(r)[r.limit - 1].createdAt) != []
    ensures PageOf(r).next.Some? ==> PageOf(r).next.value == Ahead(r)[r.limit - 1].createdAt
  {
    PageShows(r);
    PageNext(r);
    RowsFacts(r.ledger, r.guild, r.Member(), r.cursor);
    if |Ahead(r)| >= r.limit {
      var last := Ahead(r)[r.limit - 1];
      assert last in Ahead(r);
      RowsOlder(r.ledger, r.guild, r.Member(), r.cursor, last.createdAt);
      MoreMeansOlder(r.ledger, r.guild, r.Member(), last.createdAt);
    }
  }

  lemma MoreMeansOlder(ledger: seq<Row>, guild: int, member: int, before: int)
    requires Ordered(ledger)
    ensures HasMoreHistory(ledger, guild, member, before) <==> Rows(ledger, guild, member, Some(before)) != []
  {
    var rows := Rows(ledger, guild, member, Some(before));
    RowsFacts(ledger, guild, member, Some(before));
    if rows != [] {
      assert rows[0] in rows;
    }
  }

  lemma CursorMovesOn(r: Request)
    requires Answered(r) && PageOf(r).next.Some?
    ensures |Ahead(r)| >= r.limit
    ensures Ahead(r.(cursor := PageOf(r).next)) == Older(Ahead(r), Ahead(r)[r.limit - 1].createdAt)
    ensures |Ahead(r.(cursor := PageOf(r).next))| < |Ahead(r)|
  {
    PageFacts(r);
    var last := Ahead(r)[r.limit - 1];
    assert last in Ahead(r);
    RowsFacts(r.ledger, r.guild, r.Member(), r.cursor);
    RowsOlder(r.ledger, r.guild, r.Member(), r.cursor, last.createdAt);
    var k := OlderIsSuffix(Ahead(r), last.createdAt);
  }

  /** The rows listed by a caller who follows next_cursor from the request to the end. */
  function Walk(r: Request): seq<Row>
    requires Answered(r)
    decreases |Ahead(r)|
  {
    var page := PageOf(r);
    if page.next == None then Shown(page)
    else
      CursorMovesOn(r);
      Shown(page) + Walk(r.(cursor := page.next))
  }

  function PageEnd(k: nat, limit: nat): nat { k * limit }

  /** No two rows with one timestamp lie on the two sides of a page end. */
  ghost predicate Aligned(rows: seq<Row>, limit: nat) {
    forall k: nat :: 0 < PageEnd(k, limit) < |rows| ==>
      rows[PageEnd(k, limit) - 1].createdAt > rows[PageEnd(k, limit)].createdAt
  }

  lemma AlignedSplit(rows: seq<Row>, limit: nat)
    requires 1 <= limit < |rows|
    ensures Aligned(rows, limit) <==>
            rows[limit - 1].createdAt > rows[limit].createdAt && Aligned(rows[limit..], limit)
  {
    var rest := rows[limit..];
    assert PageEnd(1, limit) == limit;
    if Aligned(rows, limit) {
      forall k: nat | 0 < PageEnd(k, limit) < |rest|
        ensures rest[PageEnd(k, limit) - 1].createdAt > rest[PageEnd(k, limit)].createdAt
      {
        assert PageEnd(k + 1, limit) == PageEnd(k, limit) + limit;
      }
    }
    if rows[limit - 1].createdAt > rows[limit].createdAt && Aligned(rest, limit) {
      forall k: nat | 0 < PageEnd(k, limit) < |rows|
        ensures rows[PageEnd(k, limit) - 1].createdAt > rows[PageEnd(k, limit)].createdAt
      {
        if k > 1 {
          assert PageEnd(k, limit) == PageEnd(k - 1, limit) + limit;
          assert PageEnd(k - 1, limit) > 0;
        }
      }
    }
  }

  lemma ShortIsAligned(rows: seq<Row>, limit: nat)
    requires |rows| <= limit
    ensures Aligned(rows, limit)
  {
    forall k: nat | PageEnd(k, limit) > 0
      ensures PageEnd(k, limit) >= limit
    {
      assert PageEnd(k, limit) == PageEnd(k - 1, limit) + limit;
    }
  }

  /** A page with a cursor shows the first rows, and the walk goes on with those from some index on. */
  lemma PageSplit(r: Request) returns (k: nat)
    requires Answered(r) && PageOf(r).next.Some?
    ensures r.limit <= k < |Ahead(r)| && Ordered(Ahead(r))
    ensures k == r.limit <==> Ahead(r)[r.limit - 1].createdAt > Ahead(r)[r.limit].createdAt
    ensures
      var r' := r.(cursor := PageOf(r).next);
      Ahead(r') == Ahead(r)[k..] && Walk(r) == Ahead(r)[..r.limit] + Walk(r')
  {
    PageFacts(r);
    CursorMovesOn(r);
    k := OlderIsSuffix(Ahead(r), Ahead(r)[r.limit - 1].createdAt);
  }

  /** A page without a cursor is the whole walk. */
  lemma LastPage(r: Request)
    requires Answered(r) && PageOf(r).next.None?
    ensures Ordered(Ahead(r)) && Walk(r) == if r.limit < |Ahead(r)| then Ahead(r)[..r.limit] else Ahead(r)
    ensures r.limit < |Ahead(r)| ==> Ahead(r)[r.limit - 1].createdAt == Ahead(r)[r.limit].createdAt
  {
    PageFacts(r);
    if r.limit < |Ahead(r)| {
      var k := OlderIsSuffix(Ahead(r), Ahead(r)[r.limit - 1].createdAt);
      assert Before(Ahead(r)[r.limit - 1], Ahead(r)[r.limit]);
    }
  }

  /** The listing of a walk is part of the history in its order: nothing twice, nothing foreign. */
  lemma {:induction false} WalkListsInOrder(r: Request)
    requires Answered(r)
    ensures Ordered(Walk(r)) && |Walk(r)| <= |Ahead(r)|
    ensures forall row :: row in Walk(r) ==> row in Ahead(r)
    decreases |Ahead(r)|
  {
    if PageOf(r).next.None? {
      LastPage(r);
    } else {
      var k := PageSplit(r);
      var r' := r.(cursor := PageOf(r).next);
      WalkListsInOrder(r');
      SplitListing(Ahead(r), Ahead(r)[..r.limit], Walk(r'), r.limit, k);
    }
  }

  lemma SplitListing(rows: seq<Row>, first: seq<Row>, rest: seq<Row>, n: nat, k: nat)
    requires Ordered(rows) && n <= k <= |rows| && first == rows[..n]
    requires Ordered(rest) && |rest| <= |rows[k..]| && forall row :: row in rest ==> row in rows[k..]
    ensures Ordered(first + rest) && |first + rest| <= |rows| && forall row :: row in first + rest ==> row in rows
  {
    forall i, j | 0 <= i < |first| && 0 <= j < |rest|
      ensures Before(first[i], rest[j])
    {
      assert rest[j] in rows[k..];
    }
    forall row | row in rest
      ensures row in rows
    {
      assert row in rows[k..];
    }
  }

  /** One page and a complete rest make the listing complete exactly when the page ends between two moments. */
  lemma CompleteStep(rows: seq<Row>, rest: seq<Row>, limit: nat, k: nat)
    requires 1 <= limit <= k < |rows| && |rest| <= |rows| - k
    requires k == limit <==> rows[limit - 1].createdAt > rows[limit].createdAt
    requires k == limit ==> (rest == rows[limit..] <==> Aligned(rows[limit..], limit))
    ensures rows[..limit] + rest == rows <==> Aligned(rows, limit)
  {
    AlignedSplit(rows, limit);
    SamePrefix(rows, limit, rest);
  }

  lemma CompleteEnd(rows: seq<Row>, limit: nat)
    requires limit >= 1
    requires limit < |rows| ==> rows[limit - 1].createdAt == rows[limit].createdAt
    ensures (if limit < |rows| then rows[..limit] else rows) == rows <==> Aligned(rows, limit)
  {
    if limit < |rows| {
      AlignedSplit(rows, limit);
    } else {
      ShortIsAligned(rows, limit);
    }
  }

  /**
    Following next_cursor lists the member's whole history, each record once and newest first,
    exactly when no group of equal timestamps straddles a page end.
   */
  lemma {:induction false} WalkIsCompleteExactly(r: Request)
    requires Answered(r)
    ensures Walk(r) == Ahead(r) <==> Aligned(Ahead(r), r.limit)
    decreases |Ahead(r)|
  {
    if PageOf(r).next.None? {
      LastPage(r);
      CompleteEnd(Ahead(r), r.limit);
    } else {
      var k := PageSplit(r);
      var r' := r.(cursor := PageOf(r).next);
      WalkListsInOrder(r');
      if k == r.limit {
        WalkIsCompleteExactly(r');
      }
      CompleteStep(Ahead(r), Walk(r'), r.limit, k);
    }
  }

  lemma SamePrefix(rows: seq<Row>, n: nat, rest: seq<Row>)
    requires n <= |rows|
    ensures rows[..n] + rest == rows <==> rest == rows[n..]
  {
    assert rows == rows[..n] + rows[n..];
    assert (rows[..n] + rest)[n..] == rest;
  }

  /** With distinct timestamps the walk is complete for every limit. */
  lemma DistinctTimesWalkEverything(r: Request)
    requires Answered(r) && r.cursor == None
    requires forall a, b :: a in r.ledger && b in r.ledger && a.createdAt == b.createdAt ==> a == b
    ensures Walk(r) == Rows(r.ledger, r.guild, r.Member(), None)
  {
    var rows := Ahead(r);
    RowsFacts(r.ledger, r.guild, r.Member(), None);
    forall i | 0 < i < |rows|
      ensures rows[i - 1].createdAt > rows[i].createdAt
    {
      assert Before(rows[i - 1], rows[i]) && rows[i - 1] in rows && rows[i] in rows;
    }
    WalkIsCompleteExactly(r);
  }

  /** Two rows of one moment and pages of one row: the walk ends after the first row. */
  lemma TieIsDropped() returns (r: Request)
    ensures Answered(r) && r.cursor == None && |Ahead(r)| == 2 && Walk(r) == [Ahead(r)[0]]
  {
    var a, b := Row(2, 1, 7, None, 100), Row(1, 1, 7, None, 100);
    r := Request([a, b], None, 1, 7, None, false, 1, None);
    assert Rows([b], 1, 7, None) == [b] by {
      assert [b][1..] == [];
    }
    assert [a, b][1..] == [b];
    assert Ahead(r) == [a, b];
    PageFacts(r);
    assert Older([a, b], 100) == [] by {
      assert [b][1..] == [] && Older([b], 100) == [];
    }
    LastPage(r);
  }
}
