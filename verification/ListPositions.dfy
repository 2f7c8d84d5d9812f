/** Keyset pagination of positions, newest first, driven by the opaque cursor. */
module ListPositions {
  import opened Wrappers
  import opened Decimals
  import opened CursorCodec

  const DEFAULT_LIMIT := 50
  const MAX_LIMIT := 200
  const MS_PER_DAY := 86_400_000
  const ANALYSIS_MAX_RANGE_MS := 366 * MS_PER_DAY

  /** A position; the database keeps `opened_at` in whole microseconds. */
  datatype Row = Row(id: nat, openedAtUs: int, symbol: string, versionId: int, state: string)

  datatype Status = StatusOpen | StatusClosed

  datatype Filters = Filters(symbol: Option<string>, versionId: Option<int>, status: Option<Status>)

  datatype RowQuery = RowQuery(filters: Filters, fromMs: int, toMs: int)

  datatype Params = Params(query: RowQuery, cursor: Option<string>, limit: Option<int>)

  datatype ListError = BadRange | BadLimit | CursorForOtherFilters

  datatype Page = Page(items: seq<Row>, nextCursor: Option<string>, pageSize: nat)

  /** The position after which the next page starts, as the cursor can express it. */
  datatype Anchor = Anchor(ms: int, id: nat)

  function ClampLimit(limit: Option<int>): (r: Result<nat, ListError>)
    ensures r.Ok? ==> 1 <= r.value <= MAX_LIMIT
  {
    if limit.None? then Ok(DEFAULT_LIMIT)
    else if limit.value <= 0 || limit.value > MAX_LIMIT then Err(BadLimit)
    else Ok(limit.value)
  }

  predicate Matches(row: Row, query: RowQuery) {
    && query.fromMs * 1000 <= row.openedAtUs < query.toMs * 1000
    && (query.filters.symbol.Some? ==> row.symbol == query.filters.symbol.value)
    && (query.filters.versionId.Some? ==> row.versionId == query.filters.versionId.value)
    && (query.filters.status == Some(StatusOpen) ==> row.state == "open")
    && (query.filters.status == Some(StatusClosed) ==> row.state == "closed")
  }

  /** `(opened_at, id)` strictly below the anchor. */
  predicate IsAfter(row: Row, anchor: Anchor) {
    row.openedAtUs < anchor.ms * 1000 || (row.openedAtUs == anchor.ms * 1000 && row.id < anchor.id)
  }

  predicate IsAfterIfAny(row: Row, anchor: Option<Anchor>) {
    anchor.Some? ==> IsAfter(row, anchor.value)
  }

  /** The matching rows, in the table's order. */
  function Matching(table: seq<Row>, query: RowQuery): seq<Row> {
    if table == [] then []
    else (if Matches(table[0], query) then [table[0]] else []) + Matching(table[1..], query)
  }

  function RestAfter(rows: seq<Row>, anchor: Option<Anchor>): (rest: seq<Row>)
    ensures |rest| <= |rows|
  {
    if rows == [] then []
    else (if IsAfterIfAny(rows[0], anchor) then [rows[0]] else []) + RestAfter(rows[1..], anchor)
  }

  /** The SQL statement: both conditions, the table's order, at most `limit` rows. */
  function Select(table: seq<Row>, query: RowQuery, anchor: Option<Anchor>, limit: nat): seq<Row> {
    var rest := RestAfter(Matching(table, query), anchor);
    if |rest| <= limit then rest else rest[..limit]
  }

  function AnchorOf(payload: Option<CursorPayload>): Option<Anchor> {
    if payload.None? then None
    else match payload.value.id
      case NumberId(n) => Some(Anchor(payload.value.createdAtMs, if n < 0 then 0 else n))
      case StringId(s) => Some(Anchor(payload.value.createdAtMs, if AllDigits(s) then NatValue(s) else 0))
  }

  /** The cursor of a page's last row: its time is cut to whole milliseconds. */
  function CursorOf(row: Row, filterHash: string): CursorPayload {
    CursorPayload(StringId(FromNat(row.id)), row.openedAtUs / 1000, Some(filterHash))
  }

  /** `table` lists the rows in the query's order; `hash` fingerprints the filters. */
  function ListPositions(table: seq<Row>, params: Params, hash: Filters -> string): Result<Page, ListError> {
    var query := params.query;
    if query.toMs <= query.fromMs || query.toMs - query.fromMs > ANALYSIS_MAX_RANGE_MS then Err(BadRange)
    else
      var limit := ClampLimit(params.limit);
      var cursor := DecodeCursor(params.cursor);
      var filterHash := hash(query.filters);
      if limit.Err? then Err(limit.error)
      else if cursor.Some? && cursor.value.filterHash.Some? && cursor.value.filterHash.value != filterHash then Err(CursorForOtherFilters)
      else
        var rows := Select(table, query, AnchorOf(cursor), limit.value + 1);
        var hasNext := |rows| > limit.value;
        var pageRows := if hasNext then rows[..limit.value] else rows;
        var nextCursor := if hasNext then Some(EncodeCursor(CursorOf(pageRows[|pageRows| - 1], filterHash))) else None;
        Ok(Page(pageRows, nextCursor, |pageRows|))
  }

  // --- paging over anchors ---

  /** `a` comes strictly before `b` in (opened_at desc, id desc) order. */
  predicate Precedes(a: Row, b: Row) {
    a.openedAtUs > b.openedAtUs || (a.openedAtUs == b.openedAtUs && a.id > b.id)
  }

  /** Listed in that order, so that ids and times identify rows. */
  ghost predicate Listed(rows: seq<Row>) {
    forall i, j :: 0 <= i < j < |rows| ==> Precedes(rows[i], rows[j])
  }

  function RowAnchor(row: Row): Anchor {
    Anchor(row.openedAtUs / 1000, row.id)
  }

  lemma AfterAnchorIsAfterRow(row: Row, next: Row)
    requires IsAfter(next, RowAnchor(row))
    ensures Precedes(row, next)
  {
  }

  /** What lies after an anchor is a suffix of the listing. */
  lemma {:induction false} RestIsSuffix(rows: seq<Row>, anchor: Option<Anchor>) returns (start: nat)
    requires Listed(rows)
    ensures start <= |rows| && RestAfter(rows, anchor) == rows[start..]
    ensures forall i :: 0 <= i < start ==> !IsAfterIfAny(rows[i], anchor)
    ensures forall i :: start <= i < |rows| ==> IsAfterIfAny(rows[i], anchor)
  {
    hide IsAfterIfAny, Precedes;
    if rows == [] {
      start := 0;
    } else {
      var inner := RestIsSuffix(rows[1..], anchor);
      forall i | 0 < i < |rows|
        ensures rows[i] == rows[1..][i - 1]
        ensures IsAfterIfAny(rows[0], anchor) ==> IsAfterIfAny(rows[i], anchor)
      {
        assert Precedes(rows[0], rows[i]);
        AfterIsUpward(rows[0], rows[i], anchor);
      }
      start := if IsAfterIfAny(rows[0], anchor) then 0 else inner + 1;
      assert start == 0 ==> forall i :: 0 <= i < |rows[1..]| ==> IsAfterIfAny(rows[1..][i], anchor);
      assert start == 0 ==> [rows[0]] + rows[1..] == rows;
    }
  }

  lemma AfterIsUpward(row: Row, later: Row, anchor: Option<Anchor>)
    requires Precedes(row, later)
    ensures IsAfterIfAny(row, anchor) ==> IsAfterIfAny(later, anchor)
  {
  }

  /** The rows after a listed row's own anchor all come after the row; the table may hold rows between the two. */
  lemma RestAfterRow(rows: seq<Row>, anchor: Option<Anchor>, i: nat) returns (start: nat, next: nat)
    requires Listed(rows) && i < |RestAfter(rows, anchor)|
    ensures start <= |rows| && RestAfter(rows, anchor) == rows[start..]
    ensures start + i < next <= |rows|
    ensures RestAfter(rows, Some(RowAnchor(RestAfter(rows, anchor)[i]))) == rows[next..]
  {
    start := RestIsSuffix(rows, anchor);
    var row := rows[start + i];
    next := RestIsSuffix(rows, Some(RowAnchor(row)));
    if next <= start + i {
      AfterAnchorIsAfterRow(row, rows[start + i]);
    }
  }

  /** Following pages of `limit` rows from `anchor` until one is not full. */
  function Follow(rows: seq<Row>, anchor: Option<Anchor>, limit: nat): seq<Row>
    requires Listed(rows) && limit >= 1
    decreases |RestAfter(rows, anchor)|
  {
    var rest := RestAfter(rows, anchor);
    if |rest| <= limit then rest
    else
      assert |RestAfter(rows, Some(RowAnchor(rest[limit - 1])))| < |rest| by {
        var start, next := RestAfterRow(rows, anchor, limit - 1);
      }
      rest[..limit] + Follow(rows, Some(RowAnchor(rest[limit - 1])), limit)
  }

  /** No row is hidden by a cursor's millisecond: of two rows in one millisecond, the later listed is at its start, with the smaller id. */
  predicate CursorSafe(rows: seq<Row>) {
    forall i, j :: 0 <= i < j < |rows| ==> SafePair(rows[i], rows[j])
  }

  predicate SafePair(row: Row, later: Row) {
    row.openedAtUs / 1000 == later.openedAtUs / 1000 ==> later.openedAtUs % 1000 == 0 && later.id < row.id
  }

  lemma SafePairIsAfter(row: Row, later: Row)
    requires Precedes(row, later)
    ensures SafePair(row, later) <==> IsAfter(later, RowAnchor(row))
  {
  }

  lemma {:induction false} FollowComplete(rows: seq<Row>, anchor: Option<Anchor>, limit: nat)
    requires Listed(rows) && CursorSafe(rows) && limit >= 1
    ensures Follow(rows, anchor, limit) == RestAfter(rows, anchor)
    decreases |RestAfter(rows, anchor)|
  {
    hide CursorSafe, RestAfter;
    FollowStep(rows, anchor, limit);
    hide Follow;
    var rest := RestAfter(rows, anchor);
    if |rest| > limit {
      PageBoundary(rows, anchor, limit);
      FollowComplete(rows, Some(RowAnchor(rest[limit - 1])), limit);
      assert rest == rest[..limit] + rest[limit..];
    }
  }

  /** Over cursor-safe rows the next page starts right where this one ended. */
  lemma PageBoundary(rows: seq<Row>, anchor: Option<Anchor>, limit: nat)
    requires Listed(rows) && CursorSafe(rows) && 1 <= limit < |RestAfter(rows, anchor)|
    ensures var rest := RestAfter(rows, anchor);
            RestAfter(rows, Some(RowAnchor(rest[limit - 1]))) == rest[limit..]
  {
    hide CursorSafe, IsAfter, RestAfter;
    var start, next := RestAfterRow(rows, anchor, limit - 1);
    assert rows[start..][limit - 1] == rows[start + limit - 1];
    SafeNeighbour(rows, start + limit - 1);
    NextIsAdjacent(rows, start + limit - 1);
    assert rows[start..][limit..] == rows[start + limit..];
  }

  lemma FollowStep(rows: seq<Row>, anchor: Option<Anchor>, limit: nat)
    requires Listed(rows) && limit >= 1
    ensures var rest := RestAfter(rows, anchor);
            Follow(rows, anchor, limit) == if |rest| <= limit then rest
                                           else rest[..limit] + Follow(rows, Some(RowAnchor(rest[limit - 1])), limit)
  {
  }

  lemma SafeNeighbour(rows: seq<Row>, i: nat)
    requires Listed(rows) && CursorSafe(rows) && i + 1 < |rows|
    ensures IsAfter(rows[i + 1], RowAnchor(rows[i]))
  {
    SafePairIsAfter(rows[i], rows[i + 1]);
  }

  /** When the following row is after the row's anchor, the next page starts right there. */
  lemma NextIsAdjacent(rows: seq<Row>, i: nat)
    requires Listed(rows) && i + 1 < |rows| && IsAfter(rows[i + 1], RowAnchor(rows[i]))
    ensures RestAfter(rows, Some(RowAnchor(rows[i]))) == rows[i + 1..]
  {
    var start := RestIsSuffix(rows, Some(RowAnchor(rows[i])));
    if start <= i {
      AfterAnchorIsAfterRow(rows[i], rows[i]);
    }
  }

  /** Pages start where the rest starts. */
  lemma FollowHead(rows: seq<Row>, anchor: Option<Anchor>, limit: nat)
    requires Listed(rows) && limit >= 1
    ensures Follow(rows, anchor, limit) == [] <==> RestAfter(rows, anchor) == []
    ensures RestAfter(rows, anchor) != [] ==> Follow(rows, anchor, limit)[0] == RestAfter(rows, anchor)[0]
  {
  }

  lemma ListedOnce(rows: seq<Row>, i: nat, j: nat)
    requires Listed(rows) && i < |rows| && j < |rows| && rows[i] == rows[j]
    ensures i == j
  {
    assert !Precedes(rows[i], rows[j]) && !Precedes(rows[j], rows[i]);
  }

  /** Complete one-row paging proves every adjacent pair safe. */
  lemma {:induction false} CompleteIsAdjacentSafe(rows: seq<Row>, anchor: Option<Anchor>, start: nat, i: nat)
    requires Listed(rows) && start <= i && i + 1 < |rows|
    requires RestAfter(rows, anchor) == rows[start..]
    requires Follow(rows, anchor, 1) == rows[start..]
    ensures IsAfter(rows[i + 1], RowAnchor(rows[i]))
    decreases i - start
  {
    hide RestAfter, Precedes, IsAfterIfAny;
    var row := rows[start];
    var next := RestIsSuffix(rows, Some(RowAnchor(row)));
    FollowStep(rows, anchor, 1);
    hide Follow;
    var followed := Follow(rows, Some(RowAnchor(row)), 1);
    FollowHead(rows, Some(RowAnchor(row)), 1);
    assert rows[start..] == [row] + followed;
    assert followed == rows[start..][1..] == rows[start + 1..];
    assert rows[start + 1] == followed[0] == rows[next];
    ListedOnce(rows, start + 1, next);
    if start < i {
      CompleteIsAdjacentSafe(rows, Some(RowAnchor(row)), start + 1, i);
    } else {
      assert IsAfterIfAny(rows[next], Some(RowAnchor(row)));
      AfterSome(rows[next], RowAnchor(row));
    }
  }

  lemma AfterSome(row: Row, anchor: Anchor)
    ensures IsAfterIfAny(row, Some(anchor)) <==> IsAfter(row, anchor)
  {
  }

  lemma AdjacentSafeIsSafe(rows: seq<Row>)
    requires Listed(rows)
    requires forall i :: 0 <= i && i + 1 < |rows| ==> IsAfter(rows[i + 1], RowAnchor(rows[i]))
    ensures CursorSafe(rows)
  {
    forall i, j | 0 <= i < j < |rows|
      ensures SafePair(rows[i], rows[j])
    {
      assert IsAfter(rows[i + 1], RowAnchor(rows[i]));
      assert j > i + 1 ==> Precedes(rows[i + 1], rows[j]);
      SafePairIsAfter(rows[i], rows[j]);
    }
  }

  ghost predicate PagingComplete(rows: seq<Row>)
    requires Listed(rows)
  {
    forall limit: nat :: 1 <= limit <= MAX_LIMIT ==> Follow(rows, None, limit) == rows
  }

  /** Paging returns every row exactly once, in order, at every limit, exactly when the rows are cursor-safe. */
  lemma FollowExact(rows: seq<Row>)
    requires Listed(rows)
    ensures PagingComplete(rows) <==> CursorSafe(rows)
  {
    AllAfterNone(rows);
    if CursorSafe(rows) {
      forall limit: nat | 1 <= limit <= MAX_LIMIT
        ensures Follow(rows, None, limit) == rows
      {
        FollowComplete(rows, None, limit);
      }
    }
    if PagingComplete(rows) {
      assert Follow(rows, None, 1) == rows;
      CompleteIsSafe(rows);
    }
  }

  lemma {:induction false} AllAfterNone(rows: seq<Row>)
    ensures RestAfter(rows, None) == rows
  {
    if rows != [] {
      AllAfterNone(rows[1..]);
      assert [rows[0]] + rows[1..] == rows;
    }
  }

  lemma CompleteIsSafe(rows: seq<Row>)
    requires Listed(rows) && RestAfter(rows, None) == rows && Follow(rows, None, 1) == rows
    ensures CursorSafe(rows)
  {
    forall i | 0 <= i && i + 1 < |rows|
      ensures IsAfter(rows[i + 1], RowAnchor(rows[i]))
    {
      CompleteIsAdjacentSafe(rows, None, 0, i);
    }
    AdjacentSafeIsSafe(rows);
  }

  /** Whole-millisecond times are always safe. */
  lemma WholeMillisecondsAreSafe(rows: seq<Row>)
    requires Listed(rows) && forall i :: 0 <= i < |rows| ==> rows[i].openedAtUs % 1000 == 0
    ensures CursorSafe(rows)
  {
    forall i, j | 0 <= i < j < |rows|
      ensures SafePair(rows[i], rows[j])
    {
      assert Precedes(rows[i], rows[j]);
    }
  }

  /** Two rows of one millisecond, neither at its start: with one-row pages the second is never returned. */
  lemma SubMillisecondRowIsSkipped()
    ensures var newer, older := Row(2, 1_000_700, "BTC/USDT:USDT", 1, "open"), Row(1, 1_000_300, "BTC/USDT:USDT", 1, "open");
            && Listed([newer, older]) && !CursorSafe([newer, older])
            && Follow([newer, older], None, 1) == [newer]
  {
    var newer, older := Row(2, 1_000_700, "BTC/USDT:USDT", 1, "open"), Row(1, 1_000_300, "BTC/USDT:USDT", 1, "open");
    var rows := [newer, older];
    assert !SafePair(rows[0], rows[1]);
    AllAfterNone(rows);
    assert rows[1..] == [older];
    assert RestAfter(rows, Some(RowAnchor(newer))) == [];
    FollowStep(rows, None, 1);
    FollowStep(rows, Some(RowAnchor(newer)), 1);
  }

  // --- paging over cursor texts ---

  /** What the database can hold: a 64-digit id at most, and a time JavaScript counts exactly. */
  predicate Storable(row: Row) {
    row.id < Pow10(64) && -0x20_0000_0000_0000 < row.openedAtUs / 1000 < 0x20_0000_0000_0000
  }

  /** A fingerprint is a short hex text, never empty. */
  predicate HashFits(filterHash: string) {
    filterHash != [] && Plain(filterHash) && |filterHash| <= MAX_FILTER_HASH_LENGTH
  }

  lemma CursorAnchors(row: Row, filterHash: string)
    requires Storable(row) && HashFits(filterHash)
    ensures DecodeCursor(Some(EncodeCursor(CursorOf(row, filterHash)))) == Some(CursorOf(row, filterHash))
    ensures AnchorOf(Some(CursorOf(row, filterHash))) == Some(RowAnchor(row))
  {
    hide DecodeCursor, EncodeCursor, NatValue, FromNat;
    DigitCount(row.id, 64);
    NatRoundTrip(row.id);
    EncodingFits(CursorOf(row, filterHash));
    AsciiUtf16(filterHash);
    AsciiUtf16(FromNat(row.id));
    CursorRoundTrip(CursorOf(row, filterHash));
  }

  lemma {:induction false} MatchingListed(table: seq<Row>, query: RowQuery)
    requires Listed(table) && forall i :: 0 <= i < |table| ==> Storable(table[i])
    ensures Listed(Matching(table, query))
    ensures forall i :: 0 <= i < |Matching(table, query)| ==> Matching(table, query)[i] in table && Storable(Matching(table, query)[i])
  {
    hide Storable, Matches, Precedes, Listed;
    if table != [] {
      forall i | 0 <= i < |table[1..]|
        ensures Storable(table[1..][i])
      {
        assert table[1..][i] == table[i + 1];
      }
      ListedTail(table);
      MatchingListed(table[1..], query);
      var rest := Matching(table[1..], query);
      forall i | 0 <= i < |rest|
        ensures Precedes(table[0], rest[i])
      {
        var k :| 0 <= k < |table[1..]| && table[1..][k] == rest[i];
      }
      ListedCons(table[0], rest);
      assert [] + rest == rest;
    }
  }

  lemma ListedTail(rows: seq<Row>)
    requires Listed(rows) && rows != []
    ensures Listed(rows[1..]) && forall k :: 0 <= k < |rows[1..]| ==> Precedes(rows[0], rows[1..][k])
  {
    hide Precedes;
  }

  lemma ListedCons(row: Row, rest: seq<Row>)
    requires Listed(rest) && forall k :: 0 <= k < |rest| ==> Precedes(row, rest[k])
    ensures Listed([row] + rest)
  {
    hide Precedes;
  }

  ghost predicate Pageable(table: seq<Row>, params: Params, hash: Filters -> string) {
    && Listed(table) && (forall i :: 0 <= i < |table| ==> Storable(table[i]))
    && 0 < params.query.toMs - params.query.fromMs <= ANALYSIS_MAX_RANGE_MS
    && ClampLimit(params.limit).Ok? && HashFits(hash(params.query.filters))
  }

  /** The cursor is absent, or one that a page of this query handed out. */
  ghost predicate Issued(params: Params, hash: Filters -> string, anchor: Option<Anchor>) {
    if anchor.None? then params.cursor.None?
    else exists row :: Storable(row) && anchor == Some(RowAnchor(row)) && params.cursor == Some(EncodeCursor(CursorOf(row, hash(params.query.filters))))
  }

  /** One call answers the next page of the anchor its cursor stands for, and hands out the cursor of the page's last row. */
  lemma PageOfAnchor(table: seq<Row>, params: Params, hash: Filters -> string, anchor: Option<Anchor>)
    requires Pageable(table, params, hash) && Issued(params, hash, anchor)
    ensures var rest, limit := RestAfter(Matching(table, params.query), anchor), ClampLimit(params.limit).value;
            ListPositions(table, params, hash)
            == Ok(if |rest| <= limit then Page(rest, None, |rest|)
                  else Page(rest[..limit], Some(EncodeCursor(CursorOf(rest[limit - 1], hash(params.query.filters)))), limit))
  {
    hide DecodeCursor, EncodeCursor, Matching, RestAfter, Listed, HashFits, Storable;
    if anchor.Some? {
      var row :| Storable(row) && anchor == Some(RowAnchor(row)) && params.cursor == Some(EncodeCursor(CursorOf(row, hash(params.query.filters))));
      CursorAnchors(row, hash(params.query.filters));
    } else {
      NoCursor();
    }
    assert AnchorOf(DecodeCursor(params.cursor)) == anchor;
    var rest, limit := RestAfter(Matching(table, params.query), anchor), ClampLimit(params.limit).value;
    if |rest| > limit {
      assert rest[..limit + 1][..limit] == rest[..limit];
    }
  }

  lemma NoCursor()
    ensures DecodeCursor(None) == None
  {
  }

  /** Everything a client collects that starts without a cursor and follows `nextCursor` until there is none. */
  ghost function Collect(table: seq<Row>, params: Params, hash: Filters -> string, anchor: Option<Anchor>): seq<Row>
    requires Pageable(table, params, hash) && Issued(params, hash, anchor)
    decreases |RestAfter(Matching(table, params.query), anchor)|
  {
    PageOfAnchor(table, params, hash, anchor);
    var page := ListPositions(table, params, hash).value;
    if page.nextCursor.None? then page.items
    else
      NextAnchor(table, params, hash, anchor);
      page.items + Collect(table, params.(cursor := page.nextCursor), hash, Some(RowAnchor(page.items[|page.items| - 1])))
  }

  lemma NextAnchor(table: seq<Row>, params: Params, hash: Filters -> string, anchor: Option<Anchor>)
    requires Pageable(table, params, hash)
    requires |RestAfter(Matching(table, params.query), anchor)| > ClampLimit(params.limit).value
    ensures var rest, limit := RestAfter(Matching(table, params.query), anchor), ClampLimit(params.limit).value;
            && Storable(rest[limit - 1])
            && |RestAfter(Matching(table, params.query), Some(RowAnchor(rest[limit - 1])))| < |rest|
            && Issued(params.(cursor := Some(EncodeCursor(CursorOf(rest[limit - 1], hash(params.query.filters))))), hash, Some(RowAnchor(rest[limit - 1])))
  {
    hide EncodeCursor, Matching, RestAfter;
    var rows := Matching(table, params.query);
    MatchingListed(table, params.query);
    var start, next := RestAfterRow(rows, anchor, ClampLimit(params.limit).value - 1);
  }

  lemma {:induction false} CollectIsFollow(table: seq<Row>, params: Params, hash: Filters -> string, anchor: Option<Anchor>)
    requires Pageable(table, params, hash) && Issued(params, hash, anchor) && Listed(Matching(table, params.query))
    ensures Collect(table, params, hash, anchor) == Follow(Matching(table, params.query), anchor, ClampLimit(params.limit).value)
    decreases |RestAfter(Matching(table, params.query), anchor)|
  {
    hide ListPositions, Matching, RestAfter, Issued, EncodeCursor;
    var rest, limit := RestAfter(Matching(table, params.query), anchor), ClampLimit(params.limit).value;
    PageOfAnchor(table, params, hash, anchor);
    if |rest| > limit {
      NextAnchor(table, params, hash, anchor);
      CollectIsFollow(table, params.(cursor := Some(EncodeCursor(CursorOf(rest[limit - 1], hash(params.query.filters))))), hash, Some(RowAnchor(rest[limit - 1])));
    }
  }

  /**
   * The protocol's promise: following the cursor texts from the first page terminates, and returns every matching row
   * exactly once and in order at every limit, exactly when no millisecond hides a row from a cursor.
   */
  lemma PaginationIsExact(table: seq<Row>, query: RowQuery, hash: Filters -> string)
    requires Pageable(table, Params(query, None, None), hash)
    ensures (forall limit: int {:trigger Params(query, None, Some(limit))} :: 1 <= limit <= MAX_LIMIT ==>
               Collect(table, Params(query, None, Some(limit)), hash, None) == Matching(table, query))
            <==> CursorSafe(Matching(table, query))
  {
    hide Matching, CursorSafe, Collect, Follow;
    var rows := Matching(table, query);
    MatchingListed(table, query);
    FollowExact(rows);
    forall limit: int | 1 <= limit <= MAX_LIMIT
      ensures Collect(table, Params(query, None, Some(limit)), hash, None) == Follow(rows, None, limit)
    {
      CollectIsFollow(table, Params(query, None, Some(limit)), hash, None);
    }
    if forall limit: int {:trigger Params(query, None, Some(limit))} :: 1 <= limit <= MAX_LIMIT ==> Collect(table, Params(query, None, Some(limit)), hash, None) == rows {
      forall limit: nat | 1 <= limit <= MAX_LIMIT
        ensures Follow(rows, None, limit) == rows
      {
        assert Collect(table, Params(query, None, Some(limit)), hash, None) == rows;
      }
    }
  }

  // --- what a call answers besides pages ---

  /** A row the query asks for: in the range of time, of the symbol, version and state it names. */
  predicate Wanted(row: Row, query: RowQuery) {
    && query.fromMs * 1000 <= row.openedAtUs && row.openedAtUs < query.toMs * 1000
    && (query.filters.symbol.None? || query.filters.symbol.value == row.symbol)
    && (query.filters.versionId.None? || query.filters.versionId.value == row.versionId)
    && (query.filters.status.None? || row.state == match query.filters.status.value case StatusOpen => "open" case StatusClosed => "closed")
  }

  /** The rows that pages are cut from: the wanted rows of the table, each as often as the table has it, in the table's order. */
  lemma {:induction false} MatchingExact(table: seq<Row>, query: RowQuery) returns (places: seq<nat>)
    ensures |places| == |Matching(table, query)| && forall k :: 0 <= k < |places| ==> places[k] < |table| && Matching(table, query)[k] == table[places[k]]
    ensures forall k, l :: 0 <= k < l < |places| ==> places[k] < places[l]
    ensures forall i :: 0 <= i < |table| ==> (Wanted(table[i], query) <==> i in places)
  {
    places := [];
    if table != [] {
      var rest := MatchingExact(table[1..], query);
      places := PlacesStep(table, query, rest);
    }
  }

  lemma PlacesStep(table: seq<Row>, query: RowQuery, rest: seq<nat>) returns (places: seq<nat>)
    requires table != []
    requires var tail := table[1..];
             && |rest| == |Matching(tail, query)| && (forall k :: 0 <= k < |rest| ==> rest[k] < |tail| && Matching(tail, query)[k] == tail[rest[k]])
             && (forall k, l :: 0 <= k < l < |rest| ==> rest[k] < rest[l])
             && forall i :: 0 <= i < |tail| ==> (Wanted(tail[i], query) <==> i in rest)
    ensures |places| == |Matching(table, query)| && forall k :: 0 <= k < |places| ==> places[k] < |table| && Matching(table, query)[k] == table[places[k]]
    ensures forall k, l :: 0 <= k < l < |places| ==> places[k] < places[l]
    ensures forall i :: 0 <= i < |table| ==> (Wanted(table[i], query) <==> i in places)
  {
    hide Matches, Wanted;
    var shifted: seq<nat> := seq(|rest|, k requires 0 <= k < |rest| => rest[k] + 1);
    WantedIsMatching(table[0], query);
    var head: seq<nat> := if Matches(table[0], query) then [0] else [];
    places := head + shifted;
    forall i | 0 <= i < |table|
      ensures Wanted(table[i], query) <==> i in places
    {
      InEither(head, shifted, i);
      if i > 0 {
        assert table[i] == table[1..][i - 1];
        ShiftedIn(rest, shifted, i - 1);
      }
    }
    PlacesHold(table, query, rest, head, shifted);
  }

  lemma InEither(a: seq<nat>, b: seq<nat>, i: nat)
    ensures i in a + b <==> i in a || i in b
  {
  }

  lemma PlacesHold(table: seq<Row>, query: RowQuery, rest: seq<nat>, head: seq<nat>, shifted: seq<nat>)
    requires table != []
    requires var tail := table[1..];
             && |rest| == |Matching(tail, query)| && (forall k :: 0 <= k < |rest| ==> rest[k] < |tail| && Matching(tail, query)[k] == tail[rest[k]])
             && forall k, l :: 0 <= k < l < |rest| ==> rest[k] < rest[l]
    requires |shifted| == |rest| && forall k :: 0 <= k < |rest| ==> shifted[k] == rest[k] + 1
    requires head == if Matches(table[0], query) then [0] else []
    ensures var places := head + shifted;
            && |places| == |Matching(table, query)| && (forall k :: 0 <= k < |places| ==> places[k] < |table| && Matching(table, query)[k] == table[places[k]])
            && forall k, l :: 0 <= k < l < |places| ==> places[k] < places[l]
  {
    var own := if Matches(table[0], query) then [table[0]] else [];
    assert Matching(table, query) == own + Matching(table[1..], query);
    hide Matches, Matching;
    FoundInTail(table, Matching(table[1..], query), rest, shifted);
    ShiftedGrow(rest, shifted);
    if head == [] {
      assert head + shifted == shifted && own + Matching(table[1..], query) == Matching(table[1..], query);
    }
  }

  lemma FoundInTail(table: seq<Row>, found: seq<Row>, rest: seq<nat>, shifted: seq<nat>)
    requires table != [] && |rest| == |found| == |shifted|
    requires forall k :: 0 <= k < |rest| ==> shifted[k] == rest[k] + 1 && rest[k] < |table[1..]| && found[k] == table[1..][rest[k]]
    ensures forall k :: 0 <= k < |shifted| ==> 0 < shifted[k] < |table| && found[k] == table[shifted[k]]
  {
    forall k | 0 <= k < |shifted|
      ensures 0 < shifted[k] < |table| && found[k] == table[shifted[k]]
    {
      assert found[k] == table[1..][rest[k]];
    }
  }

  lemma ShiftedGrow(rest: seq<nat>, shifted: seq<nat>)
    requires |rest| == |shifted| && forall k :: 0 <= k < |rest| ==> shifted[k] == rest[k] + 1
    requires forall k, l :: 0 <= k < l < |rest| ==> rest[k] < rest[l]
    ensures forall k, l :: 0 <= k < l < |shifted| ==> shifted[k] < shifted[l]
  {
  }

  lemma WantedIsMatching(row: Row, query: RowQuery)
    ensures Wanted(row, query) <==> Matches(row, query)
  {
  }

  lemma ShiftedIn(rest: seq<nat>, shifted: seq<nat>, i: nat)
    requires |shifted| == |rest| && forall k :: 0 <= k < |rest| ==> shifted[k] == rest[k] + 1
    ensures i in rest <==> i + 1 in shifted
  {
    if i in rest {
      var k :| 0 <= k < |rest| && rest[k] == i;
      assert shifted[k] == i + 1;
    }
  }

  /** Which calls are refused, and why: an empty or over-long range, a limit out of bounds, or a cursor that carries another fingerprint. */
  lemma RefusalsExact(table: seq<Row>, params: Params, hash: Filters -> string)
    ensures var query, answer := params.query, ListPositions(table, params, hash);
            var badRange := query.toMs <= query.fromMs || query.toMs - query.fromMs > 366 * 86_400_000;
            var badLimit := params.limit.Some? && (params.limit.value < 1 || params.limit.value > 200);
            var cursor := DecodeCursor(params.cursor);
            var otherFilters := cursor.Some? && cursor.value.filterHash.Some? && cursor.value.filterHash != Some(hash(query.filters));
            && (answer == Err(BadRange) <==> badRange)
            && (answer == Err(BadLimit) <==> !badRange && badLimit)
            && (answer == Err(CursorForOtherFilters) <==> !badRange && !badLimit && otherFilters)
            && (answer.Ok? ==> |answer.value.items| <= (if params.limit.Some? then params.limit.value else 50) && answer.value.pageSize == |answer.value.items|)
  {
    hide DecodeCursor, EncodeCursor, Matching, RestAfter;
  }

  /** A cursor handed out under other filters, by their fingerprint, is refused whatever the table holds. */
  lemma OtherFiltersAreRefused(table: seq<Row>, params: Params, hash: Filters -> string, row: Row, filters: Filters)
    requires Storable(row) && HashFits(hash(filters)) && params.cursor == Some(EncodeCursor(CursorOf(row, hash(filters))))
    requires 0 < params.query.toMs - params.query.fromMs <= ANALYSIS_MAX_RANGE_MS && ClampLimit(params.limit).Ok?
    ensures ListPositions(table, params, hash) == Err(CursorForOtherFilters) <==> hash(filters) != hash(params.query.filters)
  {
    hide DecodeCursor, EncodeCursor, ListPositions, Storable, HashFits;
    CursorAnchors(row, hash(filters));
    RefusalsExact(table, params, hash);
  }

  /** A cursor that does not decode asks for the first page. */
  lemma UnreadableCursorStartsOver(table: seq<Row>, params: Params, hash: Filters -> string)
    requires DecodeCursor(params.cursor) == None
    ensures ListPositions(table, params, hash) == ListPositions(table, params.(cursor := None), hash)
  {
    hide EncodeCursor, Matching, RestAfter;
  }
}
