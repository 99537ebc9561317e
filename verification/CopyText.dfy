/** The text of a copy: plain or Markdown, built from the selected cells. */
module CopyText {
  import opened TableSource

  /** A UTF-16 code unit. */
  newtype Unit = u: int | 0 <= u < 0x10000

  type Text = seq<Unit>

  const LF: Unit := 0x0A
  const TAB: Unit := 0x09
  const CR: Unit := 0x0D
  const SPACE: Unit := 0x20
  const DASH: Unit := 0x2D
  const BACKSLASH: Unit := 0x5C
  const BAR: Unit := 0x7C

  const MAX_MARKDOWN_ROWS := 1000

  // ---- The budget --------------------------------------------------------------------------

  function UnitBytes(u: Unit): nat {
    if u < 0x80 then 1 else if u < 0x800 then 2 else 3
  }

  predicate HighSurrogate(u: Unit) {
    0xD800 <= u < 0xDC00
  }

  predicate LowSurrogate(u: Unit) {
    0xDC00 <= u < 0xE000
  }

  /** The length of the UTF-8 form of a text: four bytes for a surrogate pair, and a lone surrogate
      becomes the three-byte replacement character. */
  function Utf8Size(t: Text): nat {
    if t == [] then 0
    else if |t| >= 2 && HighSurrogate(t[0]) && LowSurrogate(t[1]) then 4 + Utf8Size(t[2..])
    else UnitBytes(t[0]) + Utf8Size(t[1..])
  }

  function UnitsBytes(t: Text): nat {
    if t == [] then 0 else UnitsBytes(t[..|t| - 1]) + UnitBytes(t[|t| - 1])
  }

  /** The count the renderer uses: unit by unit, so a pair counts as six. */
  method Utf8ByteCount(t: Text) returns (bytes: nat)
    ensures bytes == UnitsBytes(t) && Utf8Size(t) <= bytes
  {
    bytes := 0;
    for i := 0 to |t|
      invariant bytes == UnitsBytes(t[..i])
    {
      assert t[..i + 1][..i] == t[..i];
      if t[i] < 0x80 {
        bytes := bytes + 1;
      } else if t[i] < 0x800 {
        bytes := bytes + 2;
      } else {
        bytes := bytes + 3;
      }
    }
    assert t[..|t|] == t;
    NeverUnderestimates(t);
  }

  lemma {:induction false} UnitsBytesHead(t: Text)
    requires t != []
    ensures UnitsBytes(t) == UnitBytes(t[0]) + UnitsBytes(t[1..])
    decreases |t|
  {
    if |t| > 1 {
      var front := t[..|t| - 1];
      UnitsBytesHead(front);
      assert t[1..][..|t| - 2] == front[1..];
    }
  }

  lemma {:induction false} UnitsBytesJoins(a: Text, b: Text)
    ensures UnitsBytes(a + b) == UnitsBytes(a) + UnitsBytes(b)
    decreases |b|
  {
    if b == [] {
      assert a + b == a;
    } else {
      UnitsBytesJoins(a, b[..|b| - 1]);
      assert (a + b)[..|a + b| - 1] == a + b[..|b| - 1];
    }
  }

  /** The surrogate pairs of a text. */
  function Pairs(t: Text): nat {
    if t == [] then 0
    else if |t| >= 2 && HighSurrogate(t[0]) && LowSurrogate(t[1]) then 1 + Pairs(t[2..])
    else Pairs(t[1..])
  }

  /** The count exceeds the real UTF-8 size by two bytes for every surrogate pair and is exact
      otherwise; it never falls below it. */
  lemma {:induction false} NeverUnderestimates(t: Text)
    ensures UnitsBytes(t) == Utf8Size(t) + 2 * Pairs(t)
  {
    if t == [] {
    } else if |t| >= 2 && HighSurrogate(t[0]) && LowSurrogate(t[1]) {
      UnitsBytesHead(t);
      UnitsBytesHead(t[1..]);
      assert t[1..][1..] == t[2..];
      NeverUnderestimates(t[2..]);
    } else {
      UnitsBytesHead(t);
      NeverUnderestimates(t[1..]);
    }
  }

  method WithinCopyBudget(t: Text) returns (ok: bool)
    ensures ok == (UnitsBytes(t) <= COPY_BUDGET)
    ensures ok ==> Utf8Size(t) <= COPY_BUDGET
  {
    var bytes := Utf8ByteCount(t);
    ok := bytes <= COPY_BUDGET;
  }

  // ---- Cells -------------------------------------------------------------------------------

  datatype CopyCell = CopyCell(visRow: int, visCol: int, modelRow: int, modelCol: int, displayedText: Text,
                               headerText: Text, clamped: bool)

  /** Refetched values by model row and column. */
  type Refetched = map<(int, int), Text>

  /** The full values of one row, as the worker reports them. */
  datatype RowValues =
    | RowOk(columns: seq<int>, values: seq<Text>)
    | RowFailed(budgetExceeded: bool)

  /** The values of all rows that could be read; a later entry replaces an earlier one. */
  function ValuesOf(results: seq<(int, RowValues)>): Refetched {
    if results == [] then map[]
    else
      var last := results[|results| - 1];
      ValuesOf(results[..|results| - 1]) + if last.1.RowOk? then RowMap(last.0, last.1.columns, last.1.values)
          else map[]
  }

  function RowMap(row: int, columns: seq<int>, values: seq<Text>): Refetched {
    if values == [] then map[]
    else
      var i := |values| - 1;
      var before := RowMap(row, columns, values[..i]);
      if columns == [] then before[(row, i) := values[i]]
      else if i < |columns| then before[(row, columns[i]) := values[i]]
      else before
  }

  predicate IsBreak(u: Unit) {
    u == CR || u == LF
  }

  /** Folds every run of line breaks into one space. */
  function SingleLine(t: Text): Text {
    if t == [] then []
    else if !IsBreak(t[|t| - 1]) then SingleLine(t[..|t| - 1]) + [t[|t| - 1]]
    else if |t| >= 2 && IsBreak(t[|t| - 2]) then SingleLine(t[..|t| - 1])
    else SingleLine(t[..|t| - 1]) + [SPACE]
  }

  /** A single-line text holds no break, and only breaks were touched. */
  lemma {:induction false} SingleLineHasNoBreak(t: Text)
    ensures forall i | 0 <= i < |SingleLine(t)| :: !IsBreak(SingleLine(t)[i])
    ensures |SingleLine(t)| <= |t|
    ensures (forall i | 0 <= i < |t| :: !IsBreak(t[i])) ==> SingleLine(t) == t
  {
    if t != [] {
      SingleLineHasNoBreak(t[..|t| - 1]);
    }
  }

  lemma {:induction false} SingleLineJoins(a: Text, b: Text)
    requires a == [] || b == [] || !IsBreak(a[|a| - 1]) || !IsBreak(b[0])
    ensures SingleLine(a + b) == SingleLine(a) + SingleLine(b)
    decreases |b|
  {
    hide SingleLine, IsBreak;
    if b == [] {
      SingleLineOfNothing();
      assert a + b == a && SingleLine(a) + [] == SingleLine(a);
    } else {
      var init, u := b[..|b| - 1], b[|b| - 1];
      SingleLineJoins(a, init);
      assert a + b == a + init + [u] && b == init + [u];
      SingleLineStep(a + init, u);
      SingleLineStep(init, u);
    }
  }

  lemma SingleLineOfNothing()
    ensures SingleLine([]) == []
  {
  }

  lemma SingleLineStep(t: Text, u: Unit)
    ensures SingleLine(t + [u]) == SingleLine(t) +
      if !IsBreak(u) then [u] else if t != [] && IsBreak(t[|t| - 1]) then [] else [SPACE]
  {
    assert (t + [u])[..|t|] == t;
  }

  lemma {:induction false} BreaksFold(t: Text)
    requires t != [] && forall i | 0 <= i < |t| :: IsBreak(t[i])
    ensures SingleLine(t) == [SPACE]
  {
    if |t| > 1 {
      BreaksFold(t[..|t| - 1]);
    }
  }

  /** Every run of line breaks, whatever its length, becomes exactly one space, and the texts before
      and behind it are folded by themselves. */
  lemma RunBecomesSpace(t: Text, i: nat, j: nat)
    requires i < j <= |t| && forall k | i <= k < j :: IsBreak(t[k])
    requires (i == 0 || !IsBreak(t[i - 1])) && (j == |t| || !IsBreak(t[j]))
    ensures SingleLine(t) == SingleLine(t[..i]) + [SPACE] + SingleLine(t[j..])
  {
    hide SingleLine;
    BreaksFold(t[i..j]);
    SingleLineJoins(t[..i], t[i..j]);
    SingleLineJoins(t[..i] + t[i..j], t[j..]);
    assert t == t[..i] + t[i..j] + t[j..];
  }

  /** The fold itself: one pass that remembers whether the unit before was a break. */
  method FoldBreaks(t: Text) returns (out: Text)
    ensures out == SingleLine(t)
  {
    if CR !in t && LF !in t {
      SingleLineHasNoBreak(t);
      return t;
    }
    out := [];
    var previousWasNewline := false;
    for i := 0 to |t|
      invariant out == SingleLine(t[..i]) && previousWasNewline == (i > 0 && IsBreak(t[i - 1]))
    {
      assert t[..i + 1][..i] == t[..i];
      if IsBreak(t[i]) {
        if !previousWasNewline {
          out := out + [SPACE];
          previousWasNewline := true;
        }
      } else {
        out := out + [t[i]];
        previousWasNewline := false;
      }
    }
    assert t[..|t|] == t;
  }

  function RawCellText(cell: CopyCell, refetched: Refetched): Text {
    var at := (cell.modelRow, cell.modelCol);
    if cell.clamped && at in refetched then SingleLine(refetched[at])
    else cell.displayedText
  }

  function Escaped(t: Text): Text {
    if t == [] then [] else (if t[0] == BAR then [BACKSLASH, BAR] else [t[0]]) + Escaped(t[1..])
  }

  lemma EscapedSpace()
    ensures Escaped([SPACE]) == [SPACE]
  {
  }

  /** By visual row, then visual column. */
  predicate CellBefore(c: CopyCell, row: int, col: int) {
    c.visRow < row || (c.visRow == row && c.visCol < col)
  }

  ghost predicate InGridOrder(cells: seq<CopyCell>) {
    forall i, j | 0 <= i < j < |cells| :: !CellBefore(cells[j], cells[i].visRow, cells[i].visCol)
  }

  /** The sort of the selection. */
  function InsertCell(c: CopyCell, cells: seq<CopyCell>): seq<CopyCell> {
    if cells == [] || !CellBefore(cells[0], c.visRow, c.visCol) then [c] + cells
    else [cells[0]] + InsertCell(c, cells[1..])
  }

  function SortedCells(cells: seq<CopyCell>): seq<CopyCell> {
    if cells == [] then [] else InsertCell(cells[0], SortedCells(cells[1..]))
  }

  lemma GridOrderCons(c: CopyCell, cells: seq<CopyCell>)
    requires InGridOrder(cells) && forall d | d in cells :: !CellBefore(d, c.visRow, c.visCol)
    ensures InGridOrder([c] + cells)
  {
    hide CellBefore;
    forall j | 0 <= j < |cells| ensures !CellBefore(cells[j], c.visRow, c.visCol) {
      assert cells[j] in cells;
    }
  }

  lemma GridOrderTail(cells: seq<CopyCell>)
    requires cells != [] && InGridOrder(cells)
    ensures InGridOrder(cells[1..])
    ensures forall d | d in cells[1..] :: !CellBefore(d, cells[0].visRow, cells[0].visCol)
  {
    hide CellBefore;
  }

  lemma {:induction false} InsertCellSorts(c: CopyCell, cells: seq<CopyCell>)
    requires InGridOrder(cells)
    ensures InGridOrder(InsertCell(c, cells)) && multiset(InsertCell(c, cells)) == multiset([c]) + multiset(cells)
  {
    hide InGridOrder;
    if cells == [] {
      GridOrderCons(c, cells);
    } else {
      GridOrderTail(cells);
      assert cells == [cells[0]] + cells[1..];
      if !CellBefore(cells[0], c.visRow, c.visCol) {
        forall d | d in cells ensures !CellBefore(d, c.visRow, c.visCol) {
          assert d == cells[0] || d in cells[1..];
        }
        GridOrderCons(c, cells);
      } else {
        var rest := InsertCell(c, cells[1..]);
        InsertCellSorts(c, cells[1..]);
        forall d | d in rest ensures !CellBefore(d, cells[0].visRow, cells[0].visCol) {
          assert d in multiset(rest);
          assert d == c || d in multiset(cells[1..]);
        }
        GridOrderCons(cells[0], rest);
      }
    }
  }

  /** Sorting brings the selection into grid order and keeps every cell. */
  lemma {:induction false} SortedCellsInOrder(cells: seq<CopyCell>)
    ensures InGridOrder(SortedCells(cells)) && multiset(SortedCells(cells)) == multiset(cells)
  {
    if cells != [] {
      SortedCellsInOrder(cells[1..]);
      InsertCellSorts(cells[0], SortedCells(cells[1..]));
      assert cells == [cells[0]] + cells[1..];
    }
  }

  // ---- Plain text --------------------------------------------------------------------------

  function PlainOf(cells: seq<CopyCell>, refetched: Refetched): Text {
    if cells == [] then []
    else
      var n := |cells| - 1;
      var last := RawCellText(cells[n], refetched);
      if n == 0 then last
      else PlainOf(cells[..n], refetched) + [if cells[n].visRow != cells[n - 1].visRow then LF else TAB] + last
  }

  /** Cells as a selection delivers them. */
  ghost predicate Selectable(cells: seq<CopyCell>) {
    forall i | 0 <= i < |cells| :: cells[i].visRow >= 0
  }

  /** Cells joined by tabs within a row and line feeds between rows. */
  method BuildPlainText(cells: seq<CopyCell>, refetched: Refetched) returns (text: Text)
    requires Selectable(cells)
    ensures text == PlainOf(cells, refetched)
  {
    hide RawCellText;
    text := [];
    var lastRow := -1;
    for i := 0 to |cells|
      invariant text == PlainOf(cells[..i], refetched)
      invariant lastRow == if i == 0 then -1 else cells[i - 1].visRow
    {
      assert cells[..i + 1][..i] == cells[..i];
      if lastRow != -1 {
        text := text + [if cells[i].visRow != lastRow then LF else TAB];
      }
      text := text + RawCellText(cells[i], refetched);
      lastRow := cells[i].visRow;
    }
    assert cells[..|cells|] == cells;
  }

  // ---- Markdown ----------------------------------------------------------------------------

  /** The first cell at a visual position, looked up on its own. */
  function Find(cells: seq<CopyCell>, row: int, col: int): Option<CopyCell> {
    if cells == [] then None
    else if cells[0].visRow == row && cells[0].visCol == col then Some(cells[0])
    else Find(cells[1..], row, col)
  }

  function FindHeader(cells: seq<CopyCell>, col: int): Text {
    if cells == [] then []
    else if cells[0].visCol == col then SingleLine(cells[0].headerText)
    else FindHeader(cells[1..], col)
  }

  /** A place without a cell holds a space. */
  function GridText(cells: seq<CopyCell>, row: int, col: int, refetched: Refetched): Text {
    var found := Find(cells, row, col);
    if found == None then [SPACE] else RawCellText(found.value, refetched)
  }

  function GridCell(cells: seq<CopyCell>, row: int, col: int, refetched: Refetched): Text {
    Escaped(GridText(cells, row, col, refetched)) + [BAR]
  }

  function GridRow(cells: seq<CopyCell>, row: int, cols: seq<int>, refetched: Refetched): Text {
    if cols == [] then [BAR]
    else GridRow(cells, row, cols[..|cols| - 1], refetched) + GridCell(cells, row, cols[|cols| - 1], refetched)
  }

  function Grid(cells: seq<CopyCell>, rows: seq<int>, cols: seq<int>, refetched: Refetched): Text {
    if rows == [] then []
    else Grid(cells, rows[..|rows| - 1], cols, refetched) + GridRow(cells, rows[|rows| - 1], cols, refetched) + [LF]
  }

  function HeaderLine(cells: seq<CopyCell>, cols: seq<int>): Text {
    if cols == [] then [BAR]
    else HeaderLine(cells, cols[..|cols| - 1]) + Escaped(FindHeader(cells, cols[|cols| - 1])) + [BAR]
  }

  function RuleLine(n: nat): Text {
    if n == 0 then [BAR] else RuleLine(n - 1) + [DASH, DASH, DASH, BAR]
  }

  function Ascii(s: string): Text {
    seq(|s|, i requires 0 <= i < |s| => if s[i] as int < 0x80 then s[i] as int as Unit else 0)
  }

  const TRUNCATED_NOTE :=
    [LF, LF] + Ascii("*(Truncated: Only first 1000 ") + Ascii("selected rows were copied ") + Ascii("as Markdown)*")

  /** Insertion into an ascending sequence without duplicates. */
  function InsertInt(x: int, s: seq<int>): seq<int> {
    if s == [] || x < s[0] then [x] + s else if x == s[0] then s else [s[0]] + InsertInt(x, s[1..])
  }

  ghost predicate Ascending(s: seq<int>) {
    forall i, j | 0 <= i < j < |s| :: s[i] < s[j]
  }

  lemma AscendingCons(x: int, s: seq<int>)
    requires Ascending(s) && forall y | y in s :: x < y
    ensures Ascending([x] + s)
  {
    forall j | 0 <= j < |s| ensures x < s[j] {
      assert s[j] in s;
    }
  }

  lemma AscendingTail(s: seq<int>)
    requires s != [] && Ascending(s)
    ensures Ascending(s[1..]) && forall y | y in s[1..] :: s[0] < y
  {
  }

  lemma {:induction false} InsertIntAscends(x: int, s: seq<int>)
    requires Ascending(s)
    ensures Ascending(InsertInt(x, s)) && forall y :: y in InsertInt(x, s) <==> y == x || y in s
  {
    hide Ascending;
    if s == [] {
      AscendingCons(x, s);
    } else {
      assert s == [s[0]] + s[1..];
      AscendingTail(s);
      if x < s[0] {
        AscendingCons(x, s);
      } else if x > s[0] {
        InsertIntAscends(x, s[1..]);
        AscendingCons(s[0], InsertInt(x, s[1..]));
      }
    }
  }

  /** The model rows with a clamped cell whose full value did not arrive. */
  function FailedRows(cells: seq<CopyCell>, refetched: Refetched): seq<int> {
    if cells == [] then []
    else
      var last := cells[|cells| - 1];
      var before := FailedRows(cells[..|cells| - 1], refetched);
      if last.clamped && (last.modelRow, last.modelCol) !in refetched then InsertInt(last.modelRow, before) else before
  }

  function RowsOf(cells: seq<CopyCell>): seq<int> {
    if cells == [] then [] else InsertInt(cells[|cells| - 1].visRow, RowsOf(cells[..|cells| - 1]))
  }

  function ColsOf(cells: seq<CopyCell>): seq<int> {
    if cells == [] then [] else InsertInt(cells[|cells| - 1].visCol, ColsOf(cells[..|cells| - 1]))
  }

  /** The rows and columns of the grid are those of the selected cells. */
  lemma {:induction false} GridAxes(cells: seq<CopyCell>)
    ensures Ascending(RowsOf(cells)) && Ascending(ColsOf(cells))
    ensures forall y :: y in RowsOf(cells) <==> exists c :: c in cells && c.visRow == y
    ensures forall y :: y in ColsOf(cells) <==> exists c :: c in cells && c.visCol == y
    decreases |cells|
  {
    if cells != [] {
      var n := |cells| - 1;
      GridAxes(cells[..n]);
      InsertIntAscends(cells[n].visRow, RowsOf(cells[..n]));
      InsertIntAscends(cells[n].visCol, ColsOf(cells[..n]));
      assert cells == cells[..n] + [cells[n]];
    }
  }

  function MarkdownOf(cells: seq<CopyCell>, refetched: Refetched): Text {
    var rows := RowsOf(cells);
    var kept := if |rows| > MAX_MARKDOWN_ROWS then rows[..MAX_MARKDOWN_ROWS] else rows;
    HeaderLine(cells, ColsOf(cells)) + [LF] + RuleLine(|ColsOf(cells)|) + [LF]
    + Grid(cells, kept, ColsOf(cells), refetched)
    + if |rows| > MAX_MARKDOWN_ROWS then TRUNCATED_NOTE else []
  }

  lemma {:induction false} FindSkips(cells: seq<CopyCell>, row: int, col: int, n: nat)
    requires n <= |cells| && forall k | 0 <= k < n :: !(cells[k].visRow == row && cells[k].visCol == col)
    ensures Find(cells, row, col) == Find(cells[n..], row, col)
  {
    if n > 0 {
      FindSkips(cells[1..], row, col, n - 1);
      assert cells[1..][n - 1..] == cells[n..];
    }
  }

  /** Once the cursor has passed everything before a position, the cell there, if any, is under it. */
  lemma CursorFinds(cells: seq<CopyCell>, row: int, col: int, cursor: nat)
    requires InGridOrder(cells) && cursor <= |cells|
    requires forall k | 0 <= k < cursor :: CellBefore(cells[k], row, col)
    requires cursor < |cells| ==> !CellBefore(cells[cursor], row, col)
    ensures var present := cursor < |cells| && cells[cursor].visRow == row && cells[cursor].visCol == col;
      Find(cells, row, col) == if present then Some(cells[cursor]) else None
  {
    if cursor < |cells| && cells[cursor].visRow == row && cells[cursor].visCol == col {
      FindSkips(cells, row, col, cursor);
    } else {
      forall k | 0 <= k < |cells| ensures !(cells[k].visRow == row && cells[k].visCol == col) {
        if k > cursor {
          assert !CellBefore(cells[k], cells[cursor].visRow, cells[cursor].visCol);
        }
      }
      FindSkips(cells, row, col, |cells|);
    }
  }

  /** All of the passed cells lie before a position. */
  ghost predicate Passed(cells: seq<CopyCell>, cursor: nat, row: int, col: int) {
    cursor <= |cells| && forall k | 0 <= k < cursor :: CellBefore(cells[k], row, col)
  }

  /** One row of the grid, with the cursor left behind its last column. */
  method AppendRow(cells: seq<CopyCell>, cursor: nat, row: int, cols: seq<int>, refetched: Refetched)
    returns (text: Text, after: nat)
    requires InGridOrder(cells) && Ascending(cols) && cursor <= |cells|
    requires forall k | 0 <= k < cursor :: cells[k].visRow < row
    ensures text == GridRow(cells, row, cols, refetched)
    ensures after <= |cells| && forall k | 0 <= k < after :: cells[k].visRow <= row
  {
    hide RawCellText, Escaped, Find;
    text, after := [BAR], cursor;
    for j := 0 to |cols|
      invariant after <= |cells| && forall k | 0 <= k < after :: cells[k].visRow <= row
      invariant j < |cols| ==> Passed(cells, after, row, cols[j])
      invariant text == GridRow(cells, row, cols[..j], refetched)
    {
      var col := cols[j];
      while after < |cells| && CellBefore(cells[after], row, col)
        invariant Passed(cells, after, row, col)
      {
        after := after + 1;
      }
      CursorFinds(cells, row, col, after);
      assert cols[..j + 1][..j] == cols[..j];
      if after < |cells| && cells[after].visRow == row && cells[after].visCol == col {
        text := text + (Escaped(RawCellText(cells[after], refetched)) + [BAR]);
      } else {
        EscapedSpace();
        text := text + [SPACE, BAR];
      }
    }
    assert cols[..|cols|] == cols;
  }

  /** The Markdown table of a sorted selection: one advancing cursor fills the grid, and every cell
      is what an independent lookup at its position finds. */
  method BuildMarkdownText(cells: seq<CopyCell>, refetched: Refetched) returns (text: Text)
    requires InGridOrder(cells)
    ensures text == MarkdownOf(cells, refetched)
  {
    hide InGridOrder, Escaped, FindHeader, GridRow;
    GridAxes(cells);
    var rows, cols := RowsOf(cells), ColsOf(cells);
    var truncated := false;
    if |rows| > MAX_MARKDOWN_ROWS {
      rows := rows[..MAX_MARKDOWN_ROWS];
      truncated := true;
    }
    text := Heading(cells, cols);
    var grid := BuildGrid(cells, rows, cols, refetched);
    text := text + grid;
    if truncated {
      text := text + TRUNCATED_NOTE;
    }
  }

  method Heading(cells: seq<CopyCell>, cols: seq<int>) returns (text: Text)
    ensures text == HeaderLine(cells, cols) + [LF] + RuleLine(|cols|) + [LF]
  {
    text := [BAR];
    for j := 0 to |cols|
      invariant text == HeaderLine(cells, cols[..j])
    {
      assert cols[..j + 1][..j] == cols[..j];
      text := text + Escaped(FindHeader(cells, cols[j])) + [BAR];
    }
    assert cols[..|cols|] == cols;
    var rule := [BAR];
    for j := 0 to |cols|
      invariant rule == RuleLine(j)
    {
      rule := rule + [DASH, DASH, DASH, BAR];
    }
    text := text + [LF] + rule + [LF];
  }

  method BuildGrid(cells: seq<CopyCell>, rows: seq<int>, cols: seq<int>, refetched: Refetched) returns (text: Text)
    requires InGridOrder(cells) && Ascending(rows) && Ascending(cols)
    ensures text == Grid(cells, rows, cols, refetched)
  {
    hide InGridOrder, GridRow;
    text := [];
    var cursor: nat := 0;
    for i := 0 to |rows|
      invariant cursor <= |cells| && (i < |rows| ==> forall k | 0 <= k < cursor :: cells[k].visRow < rows[i])
      invariant text == Grid(cells, rows[..i], cols, refetched)
    {
      assert rows[..i + 1][..i] == rows[..i];
      var line;
      line, cursor := AppendRow(cells, cursor, rows[i], cols, refetched);
      text := text + line + [LF];
    }
    assert rows[..|rows|] == rows;
  }
}
