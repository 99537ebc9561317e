/** What a SQLite page query means.  A table is the sequence of its rows in storage order, and
    SQL is filter, order, limit and offset on sequences.  Three paging modes (keyset on row ids,
    ordinals of a sorted order table, row offsets) all refine one slice of the active order. */
module SqlitePaging {
  import opened TableSource

  const MAX_FETCH_ROWS := 3000

  /** A row: its row id, and the rank of each cell in the sort order of its column. */
  datatype TableRow = TableRow(rowid: int, ranks: seq<int>)

  datatype SortState = SortState(column: nat, ascending: bool)

  /** The storage order of a table with row ids. */
  ghost predicate Keyed(rows: seq<TableRow>) {
    forall i, j | 0 <= i < j < |rows| :: rows[i].rowid < rows[j].rowid
  }

  // ---- Sorting -----------------------------------------------------------------------------

  function Rank(r: TableRow, column: nat): int {
    if column < |r.ranks| then r.ranks[column] else 0
  }

  /** ORDER BY column, row id: both ascending or both descending. */
  predicate Before(a: TableRow, b: TableRow, s: SortState) {
    if Rank(a, s.column) == Rank(b, s.column) then
      if s.ascending then a.rowid < b.rowid else b.rowid < a.rowid
    else if s.ascending then Rank(a, s.column) < Rank(b, s.column)
    else Rank(b, s.column) < Rank(a, s.column)
  }

  function Insert(r: TableRow, rows: seq<TableRow>, s: SortState): seq<TableRow> {
    if rows == [] || Before(r, rows[0], s) then [r] + rows
    else [rows[0]] + Insert(r, rows[1..], s)
  }

  /** The rows numbered by ROW_NUMBER() OVER (ORDER BY ...). */
  function Ordered(rows: seq<TableRow>, s: SortState): seq<TableRow> {
    if rows == [] then [] else Insert(rows[0], Ordered(rows[1..], s), s)
  }

  ghost predicate Sorted(rows: seq<TableRow>, s: SortState) {
    forall i, j | 0 <= i < j < |rows| :: Before(rows[i], rows[j], s)
  }

  lemma {:induction false} InsertPermutes(r: TableRow, rows: seq<TableRow>, s: SortState)
    ensures multiset(Insert(r, rows, s)) == multiset([r]) + multiset(rows)
  {
    if rows != [] && !Before(r, rows[0], s) {
      InsertPermutes(r, rows[1..], s);
      assert rows == [rows[0]] + rows[1..];
    }
  }

  lemma SortedCons(a: TableRow, rest: seq<TableRow>, s: SortState)
    requires Sorted(rest, s) && forall j | 0 <= j < |rest| :: Before(a, rest[j], s)
    ensures Sorted([a] + rest, s)
  {
    hide Before;
  }

  lemma FirstIsLeast(r: TableRow, rows: seq<TableRow>, s: SortState)
    requires rows != [] && Sorted(rows, s) && Before(r, rows[0], s)
    ensures forall j | 0 <= j < |rows| :: Before(r, rows[j], s)
  {
    forall j | 0 <= j < |rows| ensures Before(r, rows[j], s) {
      assert j > 0 ==> Before(rows[0], rows[j], s);
    }
  }

  /** What is inserted behind the first row leaves it the least. */
  lemma FirstStaysLeast(r: TableRow, rows: seq<TableRow>, s: SortState)
    requires rows != [] && Sorted(rows, s) && !Before(r, rows[0], s) && rows[0].rowid != r.rowid
    ensures var rest := Insert(r, rows[1..], s); forall j | 0 <= j < |rest| :: Before(rows[0], rest[j], s)
  {
    var rest := Insert(r, rows[1..], s);
    InsertPermutes(r, rows[1..], s);
    forall j | 0 <= j < |rest| ensures Before(rows[0], rest[j], s) {
      assert rest[j] in multiset(rest);
      if rest[j] != r {
        assert rest[j] in rows[1..];
      }
    }
  }

  lemma {:induction false} InsertSorts(r: TableRow, rows: seq<TableRow>, s: SortState)
    requires Sorted(rows, s) && forall i | 0 <= i < |rows| :: rows[i].rowid != r.rowid
    ensures Sorted(Insert(r, rows, s), s)
  {
    hide Before, Sorted;
    if rows == [] {
      OneIsSorted(r, s);
    } else if Before(r, rows[0], s) {
      FirstIsLeast(r, rows, s);
      SortedCons(r, rows, s);
    } else {
      TailIsSorted(rows, s);
      InsertSorts(r, rows[1..], s);
      FirstStaysLeast(r, rows, s);
      SortedCons(rows[0], Insert(r, rows[1..], s), s);
    }
  }

  lemma OneIsSorted(r: TableRow, s: SortState)
    ensures Sorted([r] + [], s)
  {
  }

  lemma TailIsSorted(rows: seq<TableRow>, s: SortState)
    requires rows != [] && Sorted(rows, s)
    ensures Sorted(rows[1..], s)
  {
    hide Before;
  }

  ghost predicate DistinctIds(rows: seq<TableRow>) {
    forall i, j | 0 <= i < j < |rows| :: rows[i].rowid != rows[j].rowid
  }

  /** Sorting orders the rows and neither loses nor invents one. */
  lemma {:induction false} OrderedSorts(rows: seq<TableRow>, s: SortState)
    requires DistinctIds(rows)
    ensures Sorted(Ordered(rows, s), s) && multiset(Ordered(rows, s)) == multiset(rows)
    ensures |Ordered(rows, s)| == |rows|
  {
    if rows != [] {
      OrderedSorts(rows[1..], s);
      var rest := Ordered(rows[1..], s);
      forall i | 0 <= i < |rest| ensures rest[i].rowid != rows[0].rowid {
        assert rest[i] in multiset(rest);
        assert rest[i] in rows[1..];
      }
      InsertSorts(rows[0], rest, s);
      InsertPermutes(rows[0], rest, s);
      assert rows == [rows[0]] + rows[1..];
    }
    assert |multiset(Ordered(rows, s))| == |multiset(rows)|;
  }

  lemma SameLeast(a: seq<TableRow>, b: seq<TableRow>, s: SortState)
    requires a != [] && b != [] && Sorted(a, s) && Sorted(b, s) && multiset(a) == multiset(b)
    ensures a[0] == b[0]
  {
    assert a[0] in multiset(a) && b[0] in multiset(b);
    assert a[0] in b && b[0] in a;
    var i :| 0 <= i < |a| && a[i] == b[0];
    var j :| 0 <= j < |b| && b[j] == a[0];
    assert i > 0 ==> Before(a[0], a[i], s);
    assert j > 0 ==> Before(b[0], b[j], s);
  }

  /** The sort leaves no freedom: whatever is sorted and holds the same rows is the same sequence.
      So a repeated sort gives every row its old ordinal. */
  lemma {:induction false} SortIsUnique(a: seq<TableRow>, b: seq<TableRow>, s: SortState)
    requires Sorted(a, s) && Sorted(b, s) && multiset(a) == multiset(b)
    ensures a == b
  {
    hide Before, Sorted;
    assert |multiset(a)| == |multiset(b)|;
    if a != [] {
      SameLeast(a, b, s);
      TailIsSorted(a, s);
      TailIsSorted(b, s);
      assert a == [a[0]] + a[1..] && b == [b[0]] + b[1..];
      assert multiset(a[1..]) == multiset(a) - multiset([a[0]]);
      assert multiset(b[1..]) == multiset(b) - multiset([b[0]]);
      SortIsUnique(a[1..], b[1..], s);
    }
  }

  function Reverse<T>(s: seq<T>): (r: seq<T>)
    ensures |r| == |s| && forall i | 0 <= i < |s| :: r[i] == s[|s| - 1 - i]
  {
    if s == [] then [] else Reverse(s[1..]) + [s[0]]
  }

  lemma {:induction false} ReversePermutes<T>(s: seq<T>)
    ensures multiset(Reverse(s)) == multiset(s)
  {
    if s != [] {
      ReversePermutes(s[1..]);
      assert s == [s[0]] + s[1..];
    }
  }

  /** Descending order is ascending order read backwards, ties included. */
  lemma DescendingReverses(rows: seq<TableRow>, column: nat)
    requires DistinctIds(rows)
    ensures Ordered(rows, SortState(column, false)) == Reverse(Ordered(rows, SortState(column, true)))
  {
    var up, down := SortState(column, true), SortState(column, false);
    OrderedSorts(rows, up);
    OrderedSorts(rows, down);
    ReversePermutes(Ordered(rows, up));
    SortIsUnique(Ordered(rows, down), Reverse(Ordered(rows, up)), down);
  }

  /** Ascending, the cells of the column never fall from one row to a later one, and where they are equal the row
      ids rise; descending, they never rise, and where they are equal the row ids fall. */
  lemma DirectionOf(rows: seq<TableRow>, column: nat, i: nat, j: nat)
    requires DistinctIds(rows) && forall r | r in rows :: column < |r.ranks|
    requires i < j < |rows|
    ensures var up := Ordered(rows, SortState(column, true));
      |up| == |rows| && column < |up[i].ranks| && column < |up[j].ranks|
      && (up[i].ranks[column] < up[j].ranks[column]
          || (up[i].ranks[column] == up[j].ranks[column] && up[i].rowid < up[j].rowid))
    ensures var down := Ordered(rows, SortState(column, false));
      |down| == |rows| && column < |down[i].ranks| && column < |down[j].ranks|
      && (down[i].ranks[column] > down[j].ranks[column]
          || (down[i].ranks[column] == down[j].ranks[column] && down[i].rowid > down[j].rowid))
  {
    var up, down := Ordered(rows, SortState(column, true)), Ordered(rows, SortState(column, false));
    OrderedSorts(rows, SortState(column, true));
    OrderedSorts(rows, SortState(column, false));
    assert up[i] in multiset(up) && up[j] in multiset(up) && down[i] in multiset(down) && down[j] in multiset(down);
    assert Before(up[i], up[j], SortState(column, true)) && Before(down[i], down[j], SortState(column, false));
  }

  lemma ReverseTwice<T>(s: seq<T>)
    ensures Reverse(Reverse(s)) == s
  {
  }

  /** The other direction of the same column reads the rows backwards, whichever it was. */
  lemma OtherDirection(rows: seq<TableRow>, s: SortState)
    requires DistinctIds(rows)
    ensures Ordered(rows, s.(ascending := !s.ascending)) == Reverse(Ordered(rows, s))
  {
    DescendingReverses(rows, s.column);
    ReverseTwice(Ordered(rows, SortState(s.column, true)));
  }

  /** The rows in the active order: storage order, or that of the last sort. */
  function OrderOf(table: seq<TableRow>, sort: Option<SortState>): seq<TableRow> {
    if sort == None then table else Ordered(table, sort.value)
  }

  // ---- Queries -----------------------------------------------------------------------------

  /** A result row, and its anchor: the row id, the ordinal, or nothing (0). */
  datatype CursorRow = CursorRow(row: TableRow, anchor: int)

  datatype Mode = Keyset | Ordinal | Offset

  function ByRowid(rows: seq<TableRow>): (c: seq<CursorRow>)
    ensures |c| == |rows| && forall i | 0 <= i < |rows| :: c[i] == CursorRow(rows[i], rows[i].rowid)
  {
    seq(|rows|, i requires 0 <= i < |rows| => CursorRow(rows[i], rows[i].rowid))
  }

  function Unanchored(rows: seq<TableRow>): (c: seq<CursorRow>)
    ensures |c| == |rows| && forall i | 0 <= i < |rows| :: c[i] == CursorRow(rows[i], 0)
  {
    seq(|rows|, i requires 0 <= i < |rows| => CursorRow(rows[i], 0))
  }

  /** WHERE rowid > key. */
  function Above(rows: seq<TableRow>, key: int): seq<TableRow> {
    if rows == [] then [] else (if rows[0].rowid > key then [rows[0]] else []) + Above(rows[1..], key)
  }

  /** WHERE rowid < key. */
  function Below(rows: seq<TableRow>, key: int): seq<TableRow> {
    if rows == [] then [] else (if rows[0].rowid < key then [rows[0]] else []) + Below(rows[1..], key)
  }

  function Limit<T>(s: seq<T>, n: int): seq<T> {
    if n <= 0 then [] else if n < |s| then s[..n] else s
  }

  function Skip<T>(s: seq<T>, n: int): seq<T> {
    if n <= 0 then s else if n < |s| then s[n..] else []
  }

  /** The rows whose row id is `rid`; at most one. */
  function Lookup(rows: seq<TableRow>, rid: int): seq<TableRow> {
    if rows == [] then [] else if rows[0].rowid == rid then [rows[0]] else Lookup(rows[1..], rid)
  }

  /** The order table joined with the main table, for ordinals `first` to `last`. */
  function Join(order: seq<int>, first: int, last: int, table: seq<TableRow>): seq<CursorRow>
    decreases last - first
  {
    if first > last || first > |order| then []
    else if first < 1 then Join(order, 1, last, table)
    else
      var found := Lookup(table, order[first - 1]);
      (if found == [] then [] else [CursorRow(found[0], first)]) + Join(order, first + 1, last, table)
  }

  function Rids(rows: seq<TableRow>): (r: seq<int>)
    ensures |r| == |rows| && forall i | 0 <= i < |rows| :: r[i] == rows[i].rowid
  {
    seq(|rows|, i requires 0 <= i < |rows| => rows[i].rowid)
  }

  // ---- Pages -------------------------------------------------------------------------------

  datatype SqliteError = InvalidSourceOrSize | Cancelled | InvalidToken | Overflow | TotalRequired | Engine

  /** The cells of a SQLite row are not modelled; `texts` has those of a CSV page. */
  datatype Page = Page(rows: seq<TableRow>, token: PageToken, hasMore: bool, texts: seq<RowText>)
  datatype PageResult = PageOk(page: Page) | PageError(error: SqliteError)

  predicate ValidSize(size: int) {
    0 < size <= MAX_FETCH_ROWS
  }

  /** What the read loop makes of a cursor: at most `size` rows, in page order, and whether the
      cursor held another one.  A page read backwards has more whenever it has rows. */
  function PageOf(cursor: seq<CursorRow>, size: nat, reverse: bool, offset: int, anchored: bool): Page {
    var taken := Limit(cursor, size);
    var inOrder := if reverse then Reverse(taken) else taken;
    var valid := inOrder != [];
    Page(RowsOf(inOrder),
         if valid && anchored then PageToken(inOrder[0].anchor, inOrder[|inOrder| - 1].anchor, offset, true)
         else PageToken(0, 0, offset, valid),
         if reverse then valid else |cursor| > size, [])
  }

  function RowsOf(cursor: seq<CursorRow>): (r: seq<TableRow>)
    ensures |r| == |cursor| && forall i | 0 <= i < |cursor| :: r[i] == cursor[i].row
  {
    seq(|cursor|, i requires 0 <= i < |cursor| => cursor[i].row)
  }

  /** The rows of the last page of `total` rows. */
  function LastSize(total: int, size: int): int
    requires size > 0
  {
    if total % size == 0 then size else total % size
  }

  function Max(a: int, b: int): int {
    if a < b then b else a
  }

  /** Keyset paging: filter on the row id, read backwards for prev and last. */
  function KeysetPage(table: seq<TableRow>, q: Query, size: nat): PageResult
    requires size > 0
  {
    PageOk(match q
      case FirstPage => PageOf(Limit(ByRowid(table), size + 1), size, false, 0, true)
      case NextPage(token) => PageOf(Limit(ByRowid(Above(table, token.lastKey)), size + 1), size, false, 0, true)
      case PrevPage(token) => PageOf(Limit(Reverse(ByRowid(Below(table, token.firstKey))), size), size, true, 0, true)
      case LastPage(total) => PageOf(Limit(Reverse(ByRowid(table)), LastSize(total, size)), size, true, 0, true))
  }

  /** Ordinal paging: a range of the order table, always read forwards. */
  function OrdinalPage(order: seq<int>, table: seq<TableRow>, q: Query, size: nat): PageResult
    requires size > 0
  {
    if q.NextPage? && q.token.lastKey == INT64_MAX then PageError(Overflow)
    else
      var first := match q
        case FirstPage => 1
        case NextPage(token) => token.lastKey + 1
        case PrevPage(token) => Max(1, token.firstKey - size)
        case LastPage(total) => total - LastSize(total, size) + 1;
      var width := match q
        case FirstPage => size + 1
        case NextPage(token) => size + 1
        case PrevPage(token) => token.firstKey - first
        case LastPage(total) => LastSize(total, size);
      if width > 0 && first > INT64_MAX - (width - 1) then PageError(Overflow)
      else PageOk(PageOf(Join(order, first, first + width - 1, table), size, false, 0, true))
  }

  /** Offset paging: rows without a row id, in the order the engine delivers them. */
  function OffsetPage(table: seq<TableRow>, q: Query, size: nat): PageResult
    requires size > 0
  {
    if q.NextPage? && q.token.offset > INT64_MAX - size then PageError(Overflow)
    else
      var offset := match q
        case FirstPage => 0
        case NextPage(token) => token.offset + size
        case PrevPage(token) => Max(0, token.offset - size)
        case LastPage(total) => total - LastSize(total, size);
      var limit := match q
        case FirstPage => size + 1
        case NextPage(token) => size + 1
        case PrevPage(token) => size
        case LastPage(total) => LastSize(total, size);
      PageOk(PageOf(Limit(Skip(Unanchored(table), offset), limit), size, false, offset, false))
  }

  function ModeOf(hasRowid: bool, sort: Option<SortState>): Mode {
    if sort.Some? then Ordinal else if hasRowid then Keyset else Offset
  }

  /** What a page query returns on an open source unless it is cancelled or the engine fails. */
  function Answer(table: seq<TableRow>, hasRowid: bool, sort: Option<SortState>, q: Query, size: int): PageResult {
    if q.LastPage? && (q.total < 0 || !ValidSize(size)) then PageError(TotalRequired)
    else if (q.NextPage? || q.PrevPage?) && !q.token.valid then PageError(InvalidToken)
    else if !ValidSize(size) then PageError(InvalidSourceOrSize)
    else
      var query := if q.LastPage? && q.total == 0 then FirstPage else q;
      var result := if sort.Some? then OrdinalPage(Rids(Ordered(table, sort.value)), table, query, size)
        else if hasRowid then KeysetPage(table, query, size)
        else OffsetPage(table, query, size);
      if query.LastPage? && result.PageOk? then PageOk(result.page.(hasMore := false)) else result
  }

  /** A query is refused for nothing but its parameters: a page size that is not allowed, an unknown total, a token
      without a page, or a next page whose ordinal or offset leaves the range of 64-bit integers. */
  lemma RefusedIff(table: seq<TableRow>, hasRowid: bool, sort: Option<SortState>, q: Query, size: int)
    requires (q.LastPage? ==> q.total <= 0x7FFF_FFFF_FFFF_FFFF)
    requires (q.PrevPage? ==> q.token.firstKey <= 0x7FFF_FFFF_FFFF_FFFF)
    ensures Answer(table, hasRowid, sort, q, size).PageError? <==>
      || size < 1 || size > 3000 || (q.LastPage? && q.total < 0)
      || ((q.NextPage? || q.PrevPage?) && !q.token.valid)
      || (q.NextPage? && sort.Some? && q.token.lastKey + 1 + size > 0x7FFF_FFFF_FFFF_FFFF)
      || (q.NextPage? && sort == None && !hasRowid && q.token.offset + size > 0x7FFF_FFFF_FFFF_FFFF)
  {
    hide Limit, Skip, Unanchored, ByRowid, PageOf, Join, Ordered, Above, Below, LastSize;
  }

  // ---- One meaning -------------------------------------------------------------------------

  /** The page that starts at row `lo`. */
  function Slice<T>(rows: seq<T>, lo: nat, size: nat): (s: seq<T>)
    ensures |s| == Min(size, Max(0, |rows| - lo)) && forall i | 0 <= i < |s| :: s[i] == rows[lo + i]
  {
    rows[Min(lo, |rows|)..Min(lo + size, |rows|)]
  }

  /** `token` locates the page of the active order that starts at row `lo`. */
  ghost predicate TokenAt(token: PageToken, rows: seq<TableRow>, mode: Mode, lo: nat, size: nat) {
    && size > 0
    && token.valid == (lo < |rows|)
    && token.offset == (if mode == Offset then lo else 0)
    && (lo < |rows| ==>
          var hi := Min(lo + size, |rows|);
          && (mode == Ordinal ==> token.firstKey == lo + 1 && token.lastKey == hi)
          && (mode == Keyset ==> token.firstKey == rows[lo].rowid && token.lastKey == rows[hi - 1].rowid))
  }

  /** The page holds the rows of the active order from row `lo` on. */
  ghost predicate PageAt(page: Page, rows: seq<TableRow>, mode: Mode, lo: nat, size: nat) {
    page.rows == Slice(rows, lo, size) && TokenAt(page.token, rows, mode, lo, size)
  }

  /** The page holds rows `lo` to `hi` of the active order, and its token locates exactly those. */
  ghost predicate Spans(page: Page, rows: seq<TableRow>, mode: Mode, lo: nat, hi: nat) {
    && lo <= hi <= |rows| && page.rows == rows[lo..hi]
    && page.token.valid == (lo < hi)
    && page.token.offset == (if mode == Offset then lo else 0)
    && (lo < hi ==>
          && (mode == Ordinal ==> page.token.firstKey == lo + 1 && page.token.lastKey == hi)
          && (mode == Keyset ==> page.token.firstKey == rows[lo].rowid && page.token.lastKey == rows[hi - 1].rowid))
  }

  /** A full page, or one cut off by the end of the table, is the page that starts there. */
  lemma SpansIsPage(page: Page, rows: seq<TableRow>, mode: Mode, lo: nat, size: nat)
    requires size > 0 && lo <= |rows| && Spans(page, rows, mode, lo, Min(lo + size, |rows|))
    ensures PageAt(page, rows, mode, lo, size)
  {
  }

  lemma ValidWithin(token: PageToken, rows: seq<TableRow>, mode: Mode, lo: nat, size: nat)
    requires TokenAt(token, rows, mode, lo, size)
    ensures token.valid == (lo < |rows|)
  {
  }

  /** The read loop over a forward cursor that starts at row `lo`. */
  lemma ForwardPage(all: seq<CursorRow>, lo: nat, m: nat, size: nat, offset: int, anchored: bool)
    requires lo <= |all|
    ensures var p, hi := PageOf(all[lo..Min(lo + m, |all|)], size, false, offset, anchored),
        Min(lo + Min(m, size), |all|);
      && p.rows == RowsOf(all)[lo..hi] && p.token.valid == (lo < hi) && p.token.offset == offset
      && (anchored && lo < hi ==> p.token.firstKey == all[lo].anchor && p.token.lastKey == all[hi - 1].anchor)
      && p.hasMore == (m > size && |all| > lo + size)
  {
    var cursor, hi := all[lo..Min(lo + m, |all|)], Min(lo + Min(m, size), |all|);
    assert Limit(cursor, size) == all[lo..hi];
    assert RowsOf(all[lo..hi]) == RowsOf(all)[lo..hi];
  }

  /** The read loop over a backward cursor of the `n` rows before row `hi`. */
  lemma BackwardPage(all: seq<CursorRow>, hi: nat, n: nat, size: nat)
    requires 0 < n <= size && n <= hi <= |all|
    ensures var p := PageOf(Limit(Reverse(all[..hi]), n), size, true, 0, true);
      && p.rows == RowsOf(all)[hi - n..hi] && p.token == PageToken(all[hi - n].anchor, all[hi - 1].anchor, 0, true)
      && p.hasMore
  {
    var cursor := Limit(Reverse(all[..hi]), n);
    assert Limit(cursor, size) == cursor;
    assert Reverse(cursor) == all[hi - n..hi];
    assert RowsOf(all[hi - n..hi]) == RowsOf(all)[hi - n..hi];
  }

  lemma {:induction false} AboveAll(rows: seq<TableRow>, key: int)
    requires forall i | 0 <= i < |rows| :: rows[i].rowid > key
    ensures Above(rows, key) == rows
  {
    if rows != [] {
      AboveAll(rows[1..], key);
    }
  }

  lemma {:induction false} BelowNone(rows: seq<TableRow>, key: int)
    requires forall i | 0 <= i < |rows| :: rows[i].rowid >= key
    ensures Below(rows, key) == []
  {
    if rows != [] {
      BelowNone(rows[1..], key);
    }
  }

  /** The keyset filters cut the table at the anchor. */
  lemma {:induction false} KeysetCuts(rows: seq<TableRow>, i: nat)
    requires Keyed(rows) && i < |rows|
    ensures Above(rows, rows[i].rowid) == rows[i + 1..]
    ensures Below(rows, rows[i].rowid) == rows[..i]
  {
    if i == 0 {
      AboveAll(rows[1..], rows[0].rowid);
      BelowNone(rows, rows[0].rowid);
    } else {
      KeysetCuts(rows[1..], i - 1);
      assert rows[1..][i - 1] == rows[i];
      assert rows[1..][i..] == rows[i + 1..];
      assert [rows[0]] + rows[1..][..i - 1] == rows[..i];
    }
  }

  lemma {:induction false} LookupFinds(rows: seq<TableRow>, i: nat)
    requires DistinctIds(rows) && i < |rows|
    ensures Lookup(rows, rows[i].rowid) == [rows[i]]
  {
    if i > 0 {
      LookupFinds(rows[1..], i - 1);
    }
  }

  function ByOrdinal(rows: seq<TableRow>): (c: seq<CursorRow>)
    ensures |c| == |rows| && forall i | 0 <= i < |rows| :: c[i] == CursorRow(rows[i], i + 1)
  {
    seq(|rows|, i requires 0 <= i < |rows| => CursorRow(rows[i], i + 1))
  }

  /** On an unchanged table the join delivers the sorted rows of the range. */
  lemma {:induction false} JoinIsRange(rows: seq<TableRow>, first: nat, last: int, table: seq<TableRow>)
    requires DistinctIds(table) && multiset(rows) == multiset(table) && 1 <= first <= last + 1
    ensures Join(Rids(rows), first, last, table) == Skip(Limit(ByOrdinal(rows), last), first - 1)
    decreases last - first
  {
    hide Lookup, DistinctIds, Limit, Skip;
    if first <= last && first <= |rows| {
      JoinIsRange(rows, first + 1, last, table);
      LookupFindsRow(rows, first - 1, table);
      RangeStep(ByOrdinal(rows), first, last);
    } else {
      RangeEnds(ByOrdinal(rows), first, last);
    }
  }

  lemma LookupFindsRow(rows: seq<TableRow>, k: nat, table: seq<TableRow>)
    requires DistinctIds(table) && multiset(rows) == multiset(table) && k < |rows|
    ensures Lookup(table, rows[k].rowid) == [rows[k]]
  {
    assert rows[k] in multiset(table);
    var i :| 0 <= i < |table| && table[i] == rows[k];
    LookupFinds(table, i);
  }

  lemma RangeStep<T>(all: seq<T>, first: nat, last: int)
    requires 1 <= first <= last && first <= |all|
    ensures Skip(Limit(all, last), first - 1) == [all[first - 1]] + Skip(Limit(all, last), first)
  {
  }

  lemma RangeEnds<T>(all: seq<T>, first: nat, last: int)
    requires 1 <= first && (first > last || first > |all|)
    ensures Skip(Limit(all, last), first - 1) == []
  {
  }

  /** The table as the active order sees it: its row ids distinct, and every offset, ordinal and
      page end within 64 bits. */
  ghost predicate Readable(table: seq<TableRow>, hasRowid: bool, sort: Option<SortState>, size: nat) {
    && ValidSize(size) && |table| + size < INT64_MAX
    && (hasRowid ==> Keyed(table)) && (sort.Some? ==> hasRowid)
  }

  lemma OrderIsTable(table: seq<TableRow>, sort: Option<SortState>)
    requires sort.Some? ==> Keyed(table)
    ensures |OrderOf(table, sort)| == |table| && multiset(OrderOf(table, sort)) == multiset(table)
    ensures sort.Some? ==> DistinctIds(table)
  {
    if sort.Some? {
      OrderedSorts(table, sort.value);
    }
  }

  function Anchored(rows: seq<TableRow>, mode: Mode): seq<CursorRow> {
    match mode
    case Keyset => ByRowid(rows)
    case Ordinal => ByOrdinal(rows)
    case Offset => Unanchored(rows)
  }

  function AnchorAt(rows: seq<TableRow>, mode: Mode, i: nat): int
    requires i < |rows|
  {
    match mode
    case Keyset => rows[i].rowid
    case Ordinal => i + 1
    case Offset => 0
  }

  lemma AnchoredRows(rows: seq<TableRow>, mode: Mode)
    ensures |Anchored(rows, mode)| == |rows| && RowsOf(Anchored(rows, mode)) == rows
    ensures forall i | 0 <= i < |rows| :: Anchored(rows, mode)[i].anchor == AnchorAt(rows, mode, i)
  {
  }

  /** A forward cursor of `m` rows from row `lo` on gives the first `size` of them. */
  lemma ForwardSpans(rows: seq<TableRow>, mode: Mode, lo: nat, size: nat, m: nat)
    requires size > 0 && lo <= |rows|
    ensures |Anchored(rows, mode)| == |rows|
    ensures var offset := if mode == Offset then lo else 0;
      var p := PageOf(Anchored(rows, mode)[lo..Min(lo + m, |rows|)], size, false, offset, mode != Offset);
      Spans(p, rows, mode, lo, Min(lo + Min(m, size), |rows|)) && p.hasMore == (m > size && lo + size < |rows|)
  {
    hide PageOf, Anchored, RowsOf;
    AnchoredRows(rows, mode);
    ForwardPage(Anchored(rows, mode), lo, m, size, if mode == Offset then lo else 0, mode != Offset);
  }

  lemma LimitDrops(table: seq<TableRow>, lo: nat, m: nat)
    requires lo <= |table|
    ensures Limit(ByRowid(table[lo..]), m) == ByRowid(table)[lo..Min(lo + m, |table|)]
  {
    assert ByRowid(table[lo..]) == ByRowid(table)[lo..];
  }

  /** The keyset page after one that ends before row `lo`. */
  lemma KeysetForward(table: seq<TableRow>, lo: nat, size: nat)
    requires Keyed(table) && size > 0 && 0 < lo <= |table|
    ensures var p := PageOf(Limit(ByRowid(Above(table, table[lo - 1].rowid)), size + 1), size, false, 0, true);
      Spans(p, table, Keyset, lo, Min(lo + size, |table|)) && p.hasMore == (lo + size < |table|)
  {
    hide PageOf, Spans, Above, Below, Keyed, ByRowid, Limit;
    ForwardSpans(table, Keyset, lo, size, size + 1);
    KeysetCuts(table, lo - 1);
    LimitDrops(table, lo, size + 1);
  }

  /** A range of ordinals that starts after row `lo`. */
  lemma OrdinalForward(rows: seq<TableRow>, table: seq<TableRow>, lo: nat, size: nat, m: nat)
    requires DistinctIds(table) && multiset(rows) == multiset(table) && size > 0 && lo <= |rows|
    ensures var p := PageOf(Join(Rids(rows), lo + 1, lo + m, table), size, false, 0, true);
      Spans(p, rows, Ordinal, lo, Min(lo + Min(m, size), |rows|)) && p.hasMore == (m > size && lo + size < |rows|)
  {
    hide PageOf, Spans, Join, Limit, Skip, Rids, DistinctIds;
    ForwardSpans(rows, Ordinal, lo, size, m);
    JoinIsRange(rows, lo + 1, lo + m, table);
    RangeIsSlice(ByOrdinal(rows), lo, m);
  }

  lemma RangeIsSlice<T>(all: seq<T>, lo: nat, m: nat)
    requires lo <= |all|
    ensures Skip(Limit(all, lo + m), lo) == all[lo..Min(lo + m, |all|)] == Limit(Skip(all, lo), m)
  {
  }

  lemma OffsetForward(rows: seq<TableRow>, lo: nat, size: nat, m: nat)
    requires size > 0 && lo <= |rows|
    ensures var p := PageOf(Limit(Skip(Unanchored(rows), lo), m), size, false, lo, false);
      Spans(p, rows, Offset, lo, Min(lo + Min(m, size), |rows|)) && p.hasMore == (m > size && lo + size < |rows|)
  {
    hide PageOf, Spans, Limit, Skip;
    ForwardSpans(rows, Offset, lo, size, m);
    RangeIsSlice(Unanchored(rows), lo, m);
  }

  /** The keyset page of the `n` rows before row `hi`. */
  lemma KeysetBackward(table: seq<TableRow>, hi: nat, n: nat, size: nat)
    requires 0 < n <= size && n <= hi <= |table|
    ensures var p := PageOf(Limit(Reverse(ByRowid(table[..hi])), n), size, true, 0, true);
      Spans(p, table, Keyset, hi - n, hi) && p.hasMore
  {
    hide PageOf, Keyed, Limit, Reverse;
    BackwardPage(ByRowid(table), hi, n, size);
    assert ByRowid(table)[..hi] == ByRowid(table[..hi]);
    assert RowsOf(ByRowid(table)) == table;
  }

  /** An empty cursor gives an empty page that locates nothing. */
  lemma NothingFound(size: nat, reverse: bool, offset: int, anchored: bool)
    ensures PageOf([], size, reverse, offset, anchored) == Page([], PageToken(0, 0, offset, false), false, [])
  {
  }

  /** The first page. */
  lemma FirstAnswers(table: seq<TableRow>, hasRowid: bool, sort: Option<SortState>, size: nat)
    requires Readable(table, hasRowid, sort, size)
    ensures var r, rows, mode := Answer(table, hasRowid, sort, FirstPage, size), OrderOf(table, sort),
        ModeOf(hasRowid, sort);
      r.PageOk? && PageAt(r.page, rows, mode, 0, size) && r.page.hasMore == (size < |rows|)
  {
    hide PageOf, PageAt, Spans, Join, Ordered;
    OrderIsTable(table, sort);
    var page := Answer(table, hasRowid, sort, FirstPage, size).page;
    if sort.Some? {
      OrdinalForward(OrderOf(table, sort), table, 0, size, size + 1);
    } else if hasRowid {
      ForwardSpans(table, Keyset, 0, size, size + 1);
      assert Limit(ByRowid(table), size + 1) == ByRowid(table)[0..Min(size + 1, |table|)];
    } else {
      OffsetForward(table, 0, size, size + 1);
    }
    SpansIsPage(page, OrderOf(table, sort), ModeOf(hasRowid, sort), 0, size);
  }

  /** The page after the one at `lo`; behind the last page, in every mode, an empty one. */
  lemma NextAnswers(table: seq<TableRow>, hasRowid: bool, sort: Option<SortState>, token: PageToken, lo: nat, size: nat)
    requires Readable(table, hasRowid, sort, size)
    requires TokenAt(token, OrderOf(table, sort), ModeOf(hasRowid, sort), lo, size) && token.valid
    ensures var r, rows, mode := Answer(table, hasRowid, sort, NextPage(token), size), OrderOf(table, sort),
        ModeOf(hasRowid, sort);
      r.PageOk? && PageAt(r.page, rows, mode, lo + size, size) && r.page.hasMore == (lo + size + size < |rows|)
  {
    hide PageOf, PageAt, Spans, Join, Ordered, Above, Keyed, Limit, Skip;
    OrderIsTable(table, sort);
    var rows, mode, page := OrderOf(table, sort), ModeOf(hasRowid, sort),
        Answer(table, hasRowid, sort, NextPage(token), size).page;
    var next := Min(lo + size, |rows|);
    if sort.Some? {
      OrdinalForward(rows, table, next, size, size + 1);
    } else if hasRowid {
      KeysetForward(table, next, size);
    } else if lo + size <= |table| {
      OffsetForward(table, next, size, size + 1);
    } else {
      SkipsAll(table, lo + size, size + 1);
      NothingFound(size, false, lo + size, false);
    }
    PageBehind(page, rows, mode, lo + size, size);
  }

  lemma SkipsAll(table: seq<TableRow>, n: nat, m: nat)
    requires n >= |table|
    ensures Limit(Skip(Unanchored(table), n), m) == []
  {
  }

  /** A page that starts at `lo`, or an empty one if the table ends before. */
  lemma PageBehind(page: Page, rows: seq<TableRow>, mode: Mode, lo: nat, size: nat)
    requires size > 0
    requires
      if lo <= |rows| then Spans(page, rows, mode, lo, Min(lo + size, |rows|))
      else if mode == Offset then page == Page([], PageToken(0, 0, lo, false), false, [])
      else Spans(page, rows, mode, |rows|, |rows|)
    ensures PageAt(page, rows, mode, lo, size)
  {
  }

  /** Where the page before the one at `lo` starts, and where it ends.  Offset paging always asks
      for a full page; the other modes ask for what lies before the anchor. */
  function PrevStart(lo: nat, size: nat): nat {
    if lo < size then 0 else lo - size
  }

  function PrevEnd(mode: Mode, n: nat, lo: nat, size: nat): nat {
    if mode == Offset then Min(PrevStart(lo, size) + size, n) else lo
  }

  /** The page before the one at `lo`.  Only the keyset form, which has come from there, says that
      more rows follow. */
  lemma PrevAnswers(table: seq<TableRow>, hasRowid: bool, sort: Option<SortState>, token: PageToken, lo: nat, size: nat)
    requires Readable(table, hasRowid, sort, size)
    requires TokenAt(token, OrderOf(table, sort), ModeOf(hasRowid, sort), lo, size) && token.valid
    ensures var r, rows, mode := Answer(table, hasRowid, sort, PrevPage(token), size), OrderOf(table, sort),
        ModeOf(hasRowid, sort);
      && r.PageOk? && Spans(r.page, rows, mode, PrevStart(lo, size), PrevEnd(mode, |rows|, lo, size))
      && (lo >= size ==> PageAt(r.page, rows, mode, lo - size, size))
      && r.page.hasMore == (mode == Keyset && lo > 0)
  {
    hide PageOf, PageAt, Join, Ordered, Below, Keyed, Reverse, Limit, ByRowid, Spans, Skip, Unanchored;
    OrderIsTable(table, sort);
    var rows, mode, page := OrderOf(table, sort), ModeOf(hasRowid, sort),
        Answer(table, hasRowid, sort, PrevPage(token), size).page;
    var start := PrevStart(lo, size);
    if sort.Some? {
      OrdinalForward(rows, table, start, size, lo - start);
    } else if hasRowid {
      KeysetCuts(table, lo);
      LimitsAll(table, lo, size);
      if lo > 0 {
        KeysetBackward(table, lo, lo - start, size);
      } else {
        NothingFound(size, true, 0, true);
        NothingSpans(table);
      }
    } else {
      OffsetForward(table, start, size, size);
    }
    if lo >= size {
      SpansIsPage(page, rows, mode, lo - size, size);
    }
  }

  lemma NothingSpans(rows: seq<TableRow>)
    ensures Spans(Page([], PageToken(0, 0, 0, false), false, []), rows, Keyset, 0, 0)
  {
  }

  /** A limit beyond the rows before `lo` takes them all. */
  lemma LimitsAll(table: seq<TableRow>, lo: nat, size: nat)
    requires lo <= |table|
    ensures var before := Reverse(ByRowid(table[..lo]));
      Limit(before, size) == Limit(before, lo - if lo < size then 0 else lo - size)
    ensures lo == 0 ==> Limit(Reverse(ByRowid(table[..lo])), size) == []
  {
  }

  /** Going back, the modes agree exactly when a full page lies before the current one: from nearer
      the start, offset paging shows rows of the current page again. */
  lemma PrevAgreesIff(table: seq<TableRow>, keyset: PageToken, offset: PageToken, lo: nat, size: nat)
    requires Readable(table, true, None, size)
    requires TokenAt(keyset, table, Keyset, lo, size) && TokenAt(offset, table, Offset, lo, size) && keyset.valid
    ensures var k, o := Answer(table, true, None, PrevPage(keyset), size),
        Answer(table, false, None, PrevPage(offset), size);
      k.PageOk? && o.PageOk? && (k.page.rows == o.page.rows <==> lo >= size)
  {
    hide TokenAt, Answer;
    PrevAnswers(table, true, None, keyset, lo, size) by {
      assert TokenAt(keyset, table, Keyset, lo, size);
    }
    SameTokenValid(table, keyset, offset, lo, size);
    PrevAnswers(table, false, None, offset, lo, size);
  }

  /** Once the row id is lost, a token that keyset paging has left behind stands for row 0: next shows
      the second page again and prev the first, whatever page one was on. */
  lemma LostRowidIff(table: seq<TableRow>, token: PageToken, lo: nat, size: nat)
    requires Readable(table, true, None, size) && TokenAt(token, table, Keyset, lo, size) && token.valid
    ensures var next := Answer(table, false, None, NextPage(token), size);
      && next.PageOk? && next.page.rows == Slice(table, size, size)
      && (lo + size < |table| ==> (next.page.rows == Slice(table, lo + size, size) <==> lo == 0))
    ensures var prev := Answer(table, false, None, PrevPage(token), size);
      && prev.PageOk? && prev.page.rows == Slice(table, 0, size)
      && (lo >= size ==> (prev.page.rows == Slice(table, lo - size, size) <==> lo == size))
  {
    hide Answer, Spans, TokenAt, Keyed, Slice;
    ReadAsOffset(table, token, lo, size);
    NextAnswers(table, false, None, token, 0, size);
    PrevAnswers(table, false, None, token, 0, size);
    SpansIsSlice(table, Answer(table, false, None, PrevPage(token), size).page, size);
    if lo + size < |table| {
      SlicesDiffer(table, size, lo + size, size);
    }
    if lo >= size {
      SlicesDiffer(table, 0, lo - size, size);
    }
  }

  lemma ReadAsOffset(table: seq<TableRow>, token: PageToken, lo: nat, size: nat)
    requires TokenAt(token, table, Keyset, lo, size) && token.valid
    ensures TokenAt(token, table, Offset, 0, size) && lo < |table|
  {
  }

  lemma SpansIsSlice(table: seq<TableRow>, page: Page, size: nat)
    requires Spans(page, table, Offset, 0, Min(size, |table|))
    ensures page.rows == Slice(table, 0, size)
  {
  }

  /** Two pages with different first rows differ. */
  lemma SlicesDiffer(table: seq<TableRow>, a: nat, b: nat, size: nat)
    requires Keyed(table) && size > 0 && b < |table|
    ensures Slice(table, a, size) == Slice(table, b, size) <==> a == b
  {
    assert Slice(table, b, size)[0] == table[b];
    if a < |table| {
      assert Slice(table, a, size)[0] == table[a];
    }
  }

  lemma SameTokenValid(table: seq<TableRow>, keyset: PageToken, offset: PageToken, lo: nat, size: nat)
    requires TokenAt(keyset, table, Keyset, lo, size) && TokenAt(offset, table, Offset, lo, size) && keyset.valid
    ensures offset.valid && lo < |table|
  {
  }

  /** The last page starts at the greatest multiple of `size` below the total. */
  lemma LastAnswers(table: seq<TableRow>, hasRowid: bool, sort: Option<SortState>, lo: nat, size: nat)
    requires Readable(table, hasRowid, sort, size)
    requires (if table == [] then lo == 0 else LastSize(|table|, size) == |table| - lo)
    ensures var r, rows, mode := Answer(table, hasRowid, sort, LastPage(|table|), size), OrderOf(table, sort),
        ModeOf(hasRowid, sort);
      r.PageOk? && PageAt(r.page, rows, mode, lo, size) && !r.page.hasMore
  {
    hide PageOf, PageAt, Spans, Join, Ordered, LastSize, Keyed, Reverse, Limit, ByRowid, Skip;
    OrderIsTable(table, sort);
    if table == [] {
      FirstAnswers(table, hasRowid, sort, size);
    } else {
      LastSizeBound(|table|, size);
      var q, n, rows := LastPage(|table|), |table| - lo, OrderOf(table, sort);
      if sort.Some? {
        OrdinalForward(rows, table, lo, size, n);
        NoMore(OrdinalPage(Rids(rows), table, q, size).page, rows, Ordinal, lo, size);
      } else if hasRowid {
        assert table[..|table|] == table;
        KeysetBackward(table, |table|, n, size);
        NoMore(KeysetPage(table, q, size).page, table, Keyset, lo, size);
      } else {
        OffsetForward(table, lo, size, n);
        NoMore(OffsetPage(table, q, size).page, table, Offset, lo, size);
      }
    }
  }

  lemma NoMore(page: Page, rows: seq<TableRow>, mode: Mode, lo: nat, size: nat)
    requires size > 0 && lo <= |rows| && Spans(page, rows, mode, lo, Min(lo + size, |rows|))
    ensures PageAt(page.(hasMore := false), rows, mode, lo, size)
  {
  }

  lemma LastSizeBound(total: nat, size: nat)
    requires size > 0 && total > 0
    ensures 0 < LastSize(total, size) <= size && LastSize(total, size) <= total
  {
    assert total == (total / size) * size + total % size;
    if total < size {
      Quotient(0, total, total, size);
    }
  }

  lemma LastSizeIs(total: nat, lo: nat, size: nat)
    requires size > 0 && lo % size == 0 && lo < total <= lo + size
    ensures LastSize(total, size) == total - lo
  {
    Quotient(lo / size, 0, lo, size);
    if total == lo + size {
      Quotient(lo / size + 1, 0, total, size);
    } else {
      Quotient(lo / size, total - lo, total, size);
    }
  }

  /** Division with remainder has one result. */
  lemma Quotient(q: nat, r: nat, n: nat, size: nat)
    requires size > 0 && r < size && n == q * size + r
    ensures n / size == q && n % size == r
  {
    SameQuotient(q, r, n / size, n % size, size);
  }

  lemma SameQuotient(q: nat, r: nat, q': nat, r': nat, size: nat)
    requires r < size && r' < size && q * size + r == q' * size + r'
    ensures q == q' && r == r'
  {
    if q < q' {
      Scales(q + 1, q', size);
    } else if q' < q {
      Scales(q' + 1, q, size);
    }
  }

  lemma Scales(a: nat, b: nat, size: nat)
    requires a <= b
    ensures a * size <= b * size
  {
    assert b * size == a * size + (b - a) * size;
  }

  // ---- Walks -------------------------------------------------------------------------------

  /** The rows seen from `page` on by asking for the next page while there is more. */
  ghost function Walk(table: seq<TableRow>, hasRowid: bool, sort: Option<SortState>, page: Page, size: nat,
                      steps: nat): seq<TableRow>
    decreases steps
  {
    if !page.hasMore || steps == 0 then page.rows
    else
      var next := Answer(table, hasRowid, sort, NextPage(page.token), size);
      page.rows + if next.PageOk? then Walk(table, hasRowid, sort, next.page, size, steps - 1) else []
  }

  lemma {:induction false} WalkFrom(table: seq<TableRow>, hasRowid: bool, sort: Option<SortState>, page: Page, lo: nat,
                                    size: nat, steps: nat)
    requires Readable(table, hasRowid, sort, size) && lo <= |table| <= lo + steps
    requires PageAt(page, OrderOf(table, sort), ModeOf(hasRowid, sort), lo, size)
    requires page.hasMore == (lo + size < |table|)
    ensures Walk(table, hasRowid, sort, page, size, steps) == OrderOf(table, sort)[Min(lo, |OrderOf(table, sort)|)..]
    decreases steps
  {
    hide TokenAt, Answer, OrderOf, ModeOf, Slice, Keyed;
    var rows := OrderOf(table, sort);
    OrderIsTable(table, sort);
    ValidWithin(page.token, rows, ModeOf(hasRowid, sort), lo, size);
    SliceThenRest(rows, lo, size);
    if page.hasMore {
      NextAnswers(table, hasRowid, sort, page.token, lo, size);
      var next := Answer(table, hasRowid, sort, NextPage(page.token), size).page;
      WalkFrom(table, hasRowid, sort, next, lo + size, size, steps - 1);
    }
  }

  lemma SliceThenRest(rows: seq<TableRow>, lo: nat, size: nat)
    requires lo <= |rows|
    ensures rows[lo..] == Slice(rows, lo, size) + if lo + size < |rows| then rows[lo + size..] else []
  {
  }

  /** Walking from the first page visits every row exactly once, in the active order. */
  lemma NextWalk(table: seq<TableRow>, hasRowid: bool, sort: Option<SortState>, size: nat)
    requires Readable(table, hasRowid, sort, size)
    ensures var first := Answer(table, hasRowid, sort, FirstPage, size);
      && first.PageOk? && Walk(table, hasRowid, sort, first.page, size, |table|) == OrderOf(table, sort)
      && multiset(OrderOf(table, sort)) == multiset(table)
  {
    hide PageAt, Answer, OrderOf;
    FirstAnswers(table, hasRowid, sort, size);
    OrderIsTable(table, sort);
    WalkFrom(table, hasRowid, sort, Answer(table, hasRowid, sort, FirstPage, size).page, 0, size, |table|);
  }

  /** Prev after next is the page one came from. */
  lemma PrevUndoesNext(table: seq<TableRow>, hasRowid: bool, sort: Option<SortState>, page: Page, lo: nat, size: nat)
    requires Readable(table, hasRowid, sort, size) && lo + size < |table|
    requires PageAt(page, OrderOf(table, sort), ModeOf(hasRowid, sort), lo, size)
    ensures var next := Answer(table, hasRowid, sort, NextPage(page.token), size);
      next.PageOk? && next.page.rows != [] &&
      var back := Answer(table, hasRowid, sort, PrevPage(next.page.token), size);
      back.PageOk? && back.page.rows == page.rows && PageAt(back.page, OrderOf(table, sort), ModeOf(hasRowid, sort),
          lo, size)
  {
    hide Answer, OrderOf;
    OrderIsTable(table, sort);
    NextAnswers(table, hasRowid, sort, page.token, lo, size);
    var next := Answer(table, hasRowid, sort, NextPage(page.token), size).page;
    PrevAnswers(table, hasRowid, sort, next.token, lo + size, size);
  }

  // ---- Any sequence of queries -------------------------------------------------------------

  datatype Move = ToFirst | ToNext | ToPrev | ToLast

  function QueryOf(move: Move, token: PageToken, total: nat): Query {
    match move
    case ToFirst => FirstPage
    case ToNext => NextPage(token)
    case ToPrev => PrevPage(token)
    case ToLast => LastPage(total)
  }

  /** The page after a sequence of moves, each asked with the token of the page before it.  A move
      that is refused stays where it was. */
  ghost function Visit(table: seq<TableRow>, hasRowid: bool, sort: Option<SortState>, size: int,
                       moves: seq<Move>): Page {
    if moves == [] then Page([], PageToken(0, 0, 0, false), false, [])
    else
      var before := Visit(table, hasRowid, sort, size, moves[..|moves| - 1]);
      var r := Answer(table, hasRowid, sort, QueryOf(moves[|moves| - 1], before.token, |table|), size);
      if r.PageOk? then r.page else before
  }

  /** A place in a table: page `k`, counted from 0, or no rows at all. */
  datatype Place = At(k: nat) | Nowhere

  function PlaceAt(k: nat, n: nat, size: nat): Place {
    if k * size < n then At(k) else Nowhere
  }

  /** Where a move leads, in terms of rows alone.  Only going back from the first page depends on
      the mode: offset paging stays on it, the other modes find nothing before it. */
  function Lead(p: Place, move: Move, mode: Mode, n: nat, size: nat): Place
    requires size > 0
  {
    match move
    case ToFirst => PlaceAt(0, n, size)
    case ToLast => if n == 0 then Nowhere else At((n - 1) / size)
    case ToNext => if p == Nowhere then Nowhere else PlaceAt(p.k + 1, n, size)
    case ToPrev =>
      if p == Nowhere then Nowhere
      else if p.k > 0 then At(p.k - 1)
      else if mode == Offset then p else Nowhere
  }

  function PlaceOf(moves: seq<Move>, mode: Mode, n: nat, size: nat): Place
    requires size > 0
  {
    if moves == [] then Nowhere
    else Lead(PlaceOf(moves[..|moves| - 1], mode, n, size), moves[|moves| - 1], mode, n, size)
  }

  ghost predicate ShowsPlace(page: Page, rows: seq<TableRow>, mode: Mode, p: Place, size: nat) {
    match p
    case At(k) => 0 <= k * size < |rows| && PageAt(page, rows, mode, k * size, size)
    case Nowhere => page.rows == [] && !page.token.valid
  }

  /** One move from a page to the next, in any mode. */
  lemma MoveLeads(table: seq<TableRow>, hasRowid: bool, sort: Option<SortState>, size: nat, before: Page, p: Place,
                  move: Move)
    requires Readable(table, hasRowid, sort, size)
    requires ShowsPlace(before, OrderOf(table, sort), ModeOf(hasRowid, sort), p, size)
    ensures var r := Answer(table, hasRowid, sort, QueryOf(move, before.token, |table|), size);
      var mode := ModeOf(hasRowid, sort);
      ShowsPlace(if r.PageOk? then r.page else before, OrderOf(table, sort), mode,
                 Lead(p, move, mode, |table|, size), size)
  {
    hide TokenAt, OrderOf, OrdinalPage, KeysetPage, OffsetPage;
    var rows, mode := OrderOf(table, sort), ModeOf(hasRowid, sort);
    OrderIsTable(table, sort);
    if move.ToFirst? {
      FirstAnswers(table, hasRowid, sort, size);
      EmptyBehind(table, hasRowid, sort, size, FirstPage, 0);
    } else if move.ToLast? {
      LastPlace(|table|, size);
      var lo := if table == [] then 0 else (|table| - 1) / size * size;
      LastAnswers(table, hasRowid, sort, lo, size);
      EmptyBehind(table, hasRowid, sort, size, LastPage(|table|), lo);
    } else if p.At? {
      ValidWithin(before.token, rows, mode, p.k * size, size);
      MoveFrom(table, hasRowid, sort, size, before, p.k, move);
    }
  }

  lemma EmptyBehind(table: seq<TableRow>, hasRowid: bool, sort: Option<SortState>, size: nat, q: Query, lo: nat)
    requires var r := Answer(table, hasRowid, sort, q, size);
      r.PageOk? && PageAt(r.page, OrderOf(table, sort), ModeOf(hasRowid, sort), lo, size)
    ensures var r := Answer(table, hasRowid, sort, q, size);
      lo >= |OrderOf(table, sort)| ==> r.page.rows == [] && !r.page.token.valid
  {
    hide Answer, OrderOf;
  }

  lemma LastPlace(n: nat, size: nat)
    requires size > 0
    ensures n > 0 ==> var lo := (n - 1) / size * size; 0 <= lo < n && LastSize(n, size) == n - lo
  {
    if n > 0 {
      var k := (n - 1) / size;
      assert n - 1 == k * size + (n - 1) % size;
      Scales(0, k, size);
      Quotient(k, 0, k * size, size);
      LastSizeIs(n, k * size, size);
    }
  }

  /** Next and prev from a page with rows. */
  lemma MoveFrom(table: seq<TableRow>, hasRowid: bool, sort: Option<SortState>, size: nat, before: Page, k: nat,
                 move: Move)
    requires Readable(table, hasRowid, sort, size) && (move.ToNext? || move.ToPrev?)
    requires 0 <= k * size < |table| && before.token.valid
    requires TokenAt(before.token, OrderOf(table, sort), ModeOf(hasRowid, sort), k * size, size)
    ensures var r := Answer(table, hasRowid, sort, QueryOf(move, before.token, |table|), size);
      var mode := ModeOf(hasRowid, sort);
      r.PageOk? && ShowsPlace(r.page, OrderOf(table, sort), mode, Lead(At(k), move, mode, |table|, size), size)
  {
    hide TokenAt, OrderOf, Answer, PageAt, Spans, ShowsPlace;
    var rows, mode, lo := OrderOf(table, sort), ModeOf(hasRowid, sort), k * size;
    OrderIsTable(table, sort);
    if move.ToNext? {
      NextAnswers(table, hasRowid, sort, before.token, lo, size);
      EmptyBehind(table, hasRowid, sort, size, NextPage(before.token), lo + size);
      NextPlace(Answer(table, hasRowid, sort, NextPage(before.token), size).page, rows, mode, k, lo, size);
    } else {
      PrevAnswers(table, hasRowid, sort, before.token, lo, size);
      PrevPlace(Answer(table, hasRowid, sort, PrevPage(before.token), size).page, rows, mode, k, lo, size);
    }
  }

  lemma NextPlace(page: Page, rows: seq<TableRow>, mode: Mode, k: nat, lo: nat, size: nat)
    requires size > 0 && lo == k * size && PageAt(page, rows, mode, lo + size, size)
    requires lo + size >= |rows| ==> page.rows == [] && !page.token.valid
    ensures ShowsPlace(page, rows, mode, PlaceAt(k + 1, |rows|, size), size)
  {
    hide PageAt;
    assert (k + 1) * size == lo + size;
  }

  lemma PrevPlace(page: Page, rows: seq<TableRow>, mode: Mode, k: nat, lo: nat, size: nat)
    requires size > 0 && lo == k * size < |rows|
    requires Spans(page, rows, mode, PrevStart(lo, size), PrevEnd(mode, |rows|, lo, size))
    requires lo >= size ==> PageAt(page, rows, mode, lo - size, size)
    ensures ShowsPlace(page, rows, mode, Lead(At(k), ToPrev, mode, |rows|, size), size)
  {
    hide PageAt;
    if k > 0 {
      assert (k - 1) * size == lo - size;
      Scales(0, k - 1, size);
    } else if mode == Offset {
      SpansIsPage(page, rows, mode, 0, size);
    }
  }

  /** Whatever is asked, and in whatever order: the page is the one the moves lead to in terms of
      rows, with a token that locates it. */
  lemma {:induction false} VisitShowsPlace(table: seq<TableRow>, hasRowid: bool, sort: Option<SortState>, size: nat,
                                           moves: seq<Move>)
    requires Readable(table, hasRowid, sort, size)
    ensures var mode := ModeOf(hasRowid, sort);
      ShowsPlace(Visit(table, hasRowid, sort, size, moves), OrderOf(table, sort), mode,
          PlaceOf(moves, mode, |table|, size), size)
    decreases |moves|
  {
    hide Answer, ShowsPlace, Lead;
    if moves == [] {
      NowhereShown(table, sort, ModeOf(hasRowid, sort), size);
    } else {
      var n := |moves| - 1;
      VisitShowsPlace(table, hasRowid, sort, size, moves[..n]);
      MoveLeads(table, hasRowid, sort, size, Visit(table, hasRowid, sort, size, moves[..n]),
                PlaceOf(moves[..n], ModeOf(hasRowid, sort), |table|, size), moves[n]);
    }
  }

  lemma NowhereShown(table: seq<TableRow>, sort: Option<SortState>, mode: Mode, size: nat)
    ensures ShowsPlace(Page([], PageToken(0, 0, 0, false), false, []), OrderOf(table, sort), mode, Nowhere, size)
  {
  }

  /** The moves never go back from the first page. */
  predicate StaysInside(moves: seq<Move>, n: nat, size: nat)
    requires size > 0
  {
    moves == [] ||
    var front := moves[..|moves| - 1];
    StaysInside(front, n, size) && !(moves[|moves| - 1] == ToPrev && PlaceOf(front, Keyset, n, size) == At(0))
  }

  /** As long as nobody goes back from the first page, the mode makes no difference. */
  lemma {:induction false} ModesAgree(moves: seq<Move>, a: Mode, b: Mode, n: nat, size: nat)
    requires size > 0 && StaysInside(moves, n, size)
    ensures PlaceOf(moves, a, n, size) == PlaceOf(moves, b, n, size)
    decreases |moves|
  {
    if moves != [] {
      var front := moves[..|moves| - 1];
      ModesAgree(front, a, b, n, size);
      ModesAgree(front, a, Keyset, n, size);
    }
  }

  /** The two unsorted modes agree on every page of a walk exactly if it never goes back from the
      first page. */
  lemma {:induction false} ModesAgreeIff(moves: seq<Move>, n: nat, size: nat)
    requires size > 0
    ensures StaysInside(moves, n, size) <==>
      forall i | 0 <= i <= |moves| :: PlaceOf(moves[..i], Keyset, n, size) == PlaceOf(moves[..i], Offset, n, size)
    decreases |moves|
  {
    hide Lead;
    assert moves[..|moves|] == moves;
    if moves != [] {
      var m := |moves| - 1;
      var front := moves[..m];
      ModesAgreeIff(front, n, size);
      assert forall i | 0 <= i <= m :: front[..i] == moves[..i];
      LeadAgrees(PlaceOf(front, Keyset, n, size), moves[m], n, size);
    }
  }

  lemma LeadAgrees(p: Place, move: Move, n: nat, size: nat)
    requires size > 0
    ensures Lead(p, move, Keyset, n, size) == Lead(p, move, Offset, n, size) <==> !(move == ToPrev && p == At(0))
  {
  }
}
