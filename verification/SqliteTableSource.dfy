/** The SQLite source: an open table, perhaps with an order table from the last sort, serving
    pages by one of the three modes. */
module SqliteTableSource {
  import opened TableSource
  import opened SqlitePaging

  class SqliteTableSource {
    const table: seq<TableRow>       // the rows in storage or plan order; nobody changes them
    const columnCount: nat
    const keyed: bool                // some row-id alias of the table is not shadowed
    var db: bool                     // a connection is open
    var hasRowid: bool
    var orderTable: Option<seq<int>> // row ids by ordinal
    var total: Option<int>
    ghost var activeSort: Option<SortState>

    constructor (table: seq<TableRow>, columnCount: nat, keyed: bool)
      requires keyed ==> Keyed(table)
      ensures this.table == table && this.keyed == keyed && this.columnCount == columnCount
      ensures Valid() && !db && activeSort == None
    {
      this.table, this.columnCount, this.keyed := table, columnCount, keyed;
      db, hasRowid, orderTable, total, activeSort := false, false, None, None, None;
    }

    ghost predicate Valid()
      reads this
    {
      && (keyed ==> Keyed(table))
      && (hasRowid ==> keyed)
      && (activeSort.Some? ==> hasRowid)
      && orderTable == (if activeSort == None then None else Some(Rids(Ordered(table, activeSort.value))))
    }

    /** Opens the table in storage order, whatever was active before.  A probe for the row id that fails
        does not fail the open.  `quiet` says, here and below, that the engine did not fail and no
        cancellation was seen. */
    method Open() returns (ok: bool, ghost quiet: bool)
      requires Valid()
      modifies this
      ensures quiet ==> ok && hasRowid == keyed
      ensures Valid() && activeSort == None && total == None && db == ok && (hasRowid ==> keyed)
    {
      db, hasRowid, orderTable, total, activeSort := false, false, None, None, None;
      var probed: bool := *;
      ok := *;
      quiet := ok && probed;
      db, hasRowid := ok, keyed && probed;
    }

    function CanSort(): bool
      reads `hasRowid
    {
      hasRowid
    }

    /** The read loop.  Every step may be cancelled or fail in the engine. */
    method Read(cursor: seq<CursorRow>, size: nat, reverse: bool, offset: int, anchored: bool)
      returns (result: PageResult, ghost quiet: bool)
      requires size > 0
      ensures quiet ==> result.PageOk?
      ensures result.PageOk? ==> result.page == PageOf(cursor, size, reverse, offset, anchored)
      ensures result.PageError? ==> result.error in {Cancelled, Engine}
    {
      hide Reverse;
      var rows, anchors, hasMore, i := [], [], false, 0;
      while i < |cursor| && !hasMore
        invariant 0 <= i <= |cursor| && i <= size && (hasMore ==> i == size < |cursor|)
        invariant rows == RowsOf(cursor[..i]) && anchors == AnchorsOf(cursor[..i])
        decreases |cursor| - i, !hasMore
      {
        var cancelled: bool, broken: bool := *, *;
        if cancelled {
          return PageError(Cancelled), false;
        }
        if broken {
          return PageError(Engine), false;
        }
        if |rows| == size {
          hasMore := true;
        } else {
          rows, anchors, i := rows + [cursor[i].row], anchors + [cursor[i].anchor], i + 1;
        }
      }
      assert Limit(cursor, size) == cursor[..i];
      if reverse {
        assert Reverse(rows) == RowsOf(Reverse(cursor[..i]));
        rows, anchors := Reverse(rows), Reverse(anchors);
      }
      var token := PageToken(0, 0, offset, rows != []);
      if anchored && anchors != [] {
        token := token.(firstKey := anchors[0], lastKey := anchors[|anchors| - 1]);
      }
      result, quiet := PageOk(Page(rows, token, if reverse then rows != [] else hasMore, [])), true;
    }

    static function AnchorsOf(cursor: seq<CursorRow>): (a: seq<int>)
      ensures |a| == |cursor| && forall i | 0 <= i < |cursor| :: a[i] == cursor[i].anchor
    {
      seq(|cursor|, i requires 0 <= i < |cursor| => cursor[i].anchor)
    }

    /** Builds and runs the query of one direction. */
    method Fetch(query: Query, size: int) returns (result: PageResult, ghost quiet: bool)
      requires Valid() && (query.LastPage? ==> query.total > 0 && total == Some(query.total))
      ensures !db || !ValidSize(size) ==> result == PageError(InvalidSourceOrSize)
      ensures db && ValidSize(size) ==>
        result == QueryAnswer(query, size) || result in {PageError(Cancelled), PageError(Engine)}
      ensures db && ValidSize(size) && quiet ==> result == QueryAnswer(query, size)
    {
      if !db || !ValidSize(size) {
        return PageError(InvalidSourceOrSize), true;
      }
      var cancelled: bool := *;
      if cancelled {
        return PageError(Cancelled), false;
      }
      if orderTable.Some? {
        result, quiet := FetchOrdinals(query, size);
      } else if hasRowid {
        result, quiet := FetchKeyset(query, size);
      } else {
        result, quiet := FetchOffset(query, size);
      }
    }

    /** A range of the order table, read forwards in every direction. */
    method FetchOrdinals(query: Query, size: nat) returns (result: PageResult, ghost quiet: bool)
      requires Valid() && ValidSize(size) && orderTable.Some? && (query.LastPage? ==> total == Some(query.total))
      ensures result == OrdinalPage(orderTable.value, table, query, size) ||
        result in {PageError(Cancelled), PageError(Engine)}
      ensures quiet ==> result == OrdinalPage(orderTable.value, table, query, size)
    {
      hide PageOf, Join, Ordered, Keyed;
      var limit := if query.LastPage? then LastSize(query.total, size) else if query.PrevPage? then size else size + 1;
      var first := 1;
      if query.NextPage? {
        if query.token.lastKey == INT64_MAX {
          return PageError(Overflow), true;
        }
        first := query.token.lastKey + 1;
      }
      if query.PrevPage? {
        first := Max(1, query.token.firstKey - size);
      }
      if query.LastPage? {
        first := total.value - limit + 1;
      }
      var width := if query.PrevPage? then query.token.firstKey - first else limit;
      if width > 0 && first > INT64_MAX - (width - 1) {
        return PageError(Overflow), true;
      }
      var unprepared: bool := *;
      if unprepared {
        return PageError(Engine), false;
      }
      result, quiet := Read(Join(orderTable.value, first, first + width - 1, table), size, false, 0, true);
    }

    /** A filter on the row id, read backwards for prev and last. */
    method FetchKeyset(query: Query, size: nat) returns (result: PageResult, ghost quiet: bool)
      requires ValidSize(size)
      ensures result == KeysetPage(table, query, size) || result in {PageError(Cancelled), PageError(Engine)}
      ensures quiet ==> result == KeysetPage(table, query, size)
    {
      hide PageOf, Above, Below;
      var reverse := query.PrevPage? || query.LastPage?;
      var limit := if query.LastPage? then LastSize(query.total, size) else if reverse then size else size + 1;
      var rows := if query.NextPage? then Above(table, query.token.lastKey)
        else if query.PrevPage? then Below(table, query.token.firstKey) else table;
      var cursor := if reverse then Reverse(ByRowid(rows)) else ByRowid(rows);
      var unprepared: bool := *;
      if unprepared {
        return PageError(Engine), false;
      }
      result, quiet := Read(Limit(cursor, limit), size, reverse, 0, true);
    }

    /** A row offset, for tables without an accessible row id. */
    method FetchOffset(query: Query, size: nat) returns (result: PageResult, ghost quiet: bool)
      requires ValidSize(size) && (query.LastPage? ==> total == Some(query.total))
      ensures result == OffsetPage(table, query, size) || result in {PageError(Cancelled), PageError(Engine)}
      ensures quiet ==> result == OffsetPage(table, query, size)
    {
      hide PageOf;
      var limit := if query.LastPage? then LastSize(query.total, size) else if query.PrevPage? then size else size + 1;
      var offset := 0;
      if query.NextPage? {
        if query.token.offset > INT64_MAX - size {
          return PageError(Overflow), true;
        }
        offset := query.token.offset + size;
      }
      if query.PrevPage? {
        offset := Max(0, query.token.offset - size);
      }
      if query.LastPage? {
        offset := total.value - limit;
      }
      var unprepared: bool := *;
      if unprepared {
        return PageError(Engine), false;
      }
      result, quiet := Read(Limit(Skip(Unanchored(table), offset), limit), size, false, offset, false);
    }

    ghost function QueryAnswer(query: Query, size: int): PageResult
      requires ValidSize(size)
      reads this
    {
      if activeSort.Some? then OrdinalPage(Rids(Ordered(table, activeSort.value)), table, query, size)
      else if hasRowid then KeysetPage(table, query, size)
      else OffsetPage(table, query, size)
    }

    /** A query is answered by its meaning; it fails only on a closed source, on a cancellation or
        in the engine. */
    ghost predicate Answers(result: PageResult, query: Query, size: int)
      reads this
    {
      && (result.PageOk? ==> db)
      && (|| result == Answer(table, hasRowid, activeSort, query, size)
          || (!db && result == PageError(InvalidSourceOrSize))
          || result in {PageError(Cancelled), PageError(Engine)})
    }

    method First(size: int) returns (result: PageResult, ghost quiet: bool)
      requires Valid()
      ensures Answers(result, FirstPage, size)
      ensures quiet && db ==> result == Answer(table, hasRowid, activeSort, FirstPage, size)
    {
      result, quiet := Fetch(FirstPage, size);
    }

    method Next(token: PageToken, size: int) returns (result: PageResult, ghost quiet: bool)
      requires Valid()
      ensures Answers(result, NextPage(token), size)
      ensures quiet && db ==> result == Answer(table, hasRowid, activeSort, NextPage(token), size)
    {
      if !token.valid {
        return PageError(InvalidToken), true;
      }
      result, quiet := Fetch(NextPage(token), size);
    }

    method Prev(token: PageToken, size: int) returns (result: PageResult, ghost quiet: bool)
      requires Valid()
      ensures Answers(result, PrevPage(token), size)
      ensures quiet && db ==> result == Answer(table, hasRowid, activeSort, PrevPage(token), size)
    {
      if !token.valid {
        return PageError(InvalidToken), true;
      }
      result, quiet := Fetch(PrevPage(token), size);
    }

    method SetKnownTotal(n: int)
      modifies `total
      ensures total == if n >= 0 then Some(n) else old(total)
    {
      if n >= 0 {
        total := Some(n);
      }
    }

    method Last(size: int, known: Option<int>) returns (result: PageResult, ghost quiet: bool)
      requires Valid()
      modifies `total
      ensures Valid()
      ensures known == None ==> result == PageError(TotalRequired)
      ensures known.Some? ==> Answers(result, LastPage(known.value), size)
      ensures known.Some? && quiet && db ==> result == Answer(table, hasRowid, activeSort, LastPage(known.value), size)
      ensures total == if known.Some? && known.value >= 0 && ValidSize(size) then known else old(total)
    {
      if known == None || known.value < 0 || !ValidSize(size) {
        return PageError(TotalRequired), true;
      }
      SetKnownTotal(known.value);
      if known.value == 0 {
        result, quiet := First(size);
        return;
      }
      result, quiet := Fetch(LastPage(known.value), size);
      if result.PageOk? {
        result := PageOk(result.page.(hasMore := false));
      }
    }

    /** Sorts into a staging table and swaps it in; a failed or cancelled sort leaves the active
        order and the known total alone. */
    method Sort(column: nat, ascending: bool) returns (ok: bool, ghost quiet: bool)
      requires Valid()
      modifies `orderTable, `total, `activeSort
      ensures Valid()
      ensures quiet ==> (ok <==> db && hasRowid && column < columnCount)
      ensures ok ==>
        && db && hasRowid && column < columnCount
        && activeSort == Some(SortState(column, ascending)) && total == Some(|table|)
      ensures !ok ==> orderTable == old(orderTable) && activeSort == old(activeSort) && total == old(total)
    {
      hide Ordered, Keyed;
      if !CanSort() || column >= columnCount {
        return false, true;
      }
      var cancelled: bool := *;
      if cancelled {
        return false, false;
      }
      var created: bool, inserted: bool := *, *;
      if !db || !created {
        return false, created;
      }
      var staging := Rids(Ordered(table, SortState(column, ascending)));
      cancelled := *;
      if !inserted || cancelled {
        return false, false;
      }
      OrderIsTable(table, Some(SortState(column, ascending)));
      orderTable, activeSort := Some(staging), Some(SortState(column, ascending));
      SetKnownTotal(|staging|);
      return true, true;
    }
  }

  /** Any sequence of page queries on an open source, each with the token of the page before: what
      is displayed at the end is what the queries mean. */
  method Navigate(source: SqliteTableSource, moves: seq<Move>, size: nat) returns (page: Page, ghost quiet: bool)
    requires source.Valid() && source.db && Readable(source.table, source.hasRowid, source.activeSort, size)
    modifies source`total
    ensures source.Valid() && source.db
    ensures quiet ==> page == Visit(source.table, source.hasRowid, source.activeSort, size, moves)
    ensures quiet ==> var mode := ModeOf(source.hasRowid, source.activeSort);
      ShowsPlace(page, OrderOf(source.table, source.activeSort), mode, PlaceOf(moves, mode, |source.table|, size), size)
  {
    hide Answer, PlaceOf, Readable;
    page, quiet := Page([], PageToken(0, 0, 0, false), false, []), true;
    for i := 0 to |moves|
      invariant source.Valid() && source.db
      invariant quiet ==> page == Visit(source.table, source.hasRowid, source.activeSort, size, moves[..i])
    {
      assert moves[..i + 1][..i] == moves[..i];
      var result;
      ghost var still;
      match moves[i] {
      case ToFirst => result, still := source.First(size);
      case ToNext => result, still := source.Next(page.token, size);
      case ToPrev => result, still := source.Prev(page.token, size);
      case ToLast => result, still := source.Last(size, Some(|source.table|));
      }
      if result.PageOk? {
        page := result.page;
      }
      quiet := quiet && still;
    }
    assert moves[..|moves|] == moves;
    VisitShowsPlace(source.table, source.hasRowid, source.activeSort, size, moves);
  }
}
