/** The renderer's copy path: a copy without clamped cells goes straight to the clipboard, any
    other one waits for the full values of its clamped cells. */
module TableRenderer {
  import opened TableSource
  import opened CopyText
  import opened CopyReading

  datatype PendingCopy = PendingCopy(copyRequestId: nat, isMarkdown: bool, cells: seq<CopyCell>)

  datatype RefetchRequest = RefetchRequest(copyRequestId: nat, rows: seq<(int, seq<int>)>)

  /** What the user is told: the copy was refused, or some rows kept their clamped text. */
  datatype Notice = Refused | Incomplete(rows: nat)

  datatype ClipboardWrite = ClipboardWrite(copyRequestId: nat, text: Text)

  function TextOf(p: PendingCopy, refetched: Refetched): Text {
    if p.isMarkdown then MarkdownOf(p.cells, refetched) else PlainOf(p.cells, refetched)
  }

  /** The text without markup and escapes, cell by cell, plus a separator each. */
  function DisplayedBytes(cells: seq<CopyCell>): nat {
    if cells == [] then 0 else DisplayedBytes(cells[..|cells| - 1]) + UnitsBytes(cells[|cells| - 1].displayedText) + 1
  }

  // ---- What has to be refetched ------------------------------------------------------------

  /** A selected cell whose full value must be fetched: it is clamped and its row has a key. */
  predicate Wants(c: CopyCell, keys: nat, row: int, col: int) {
    c.clamped && c.modelRow == row && 0 <= row < keys && c.modelCol == col
  }

  ghost predicate Wanted(cells: seq<CopyCell>, keys: nat, row: int, col: int) {
    exists i :: 0 <= i < |cells| && Wants(cells[i], keys, row, col)
  }

  /** Exactly the clamped cells with a key are asked for. */
  ghost predicate RequestsWanted(rows: seq<(int, seq<int>)>, cells: seq<CopyCell>, keys: nat) {
    forall r, c :: Requested(rows, r, c) <==> Wanted(cells, keys, r, c)
  }

  ghost predicate NothingWanted(cells: seq<CopyCell>, keys: nat) {
    forall r, c :: !Wanted(cells, keys, r, c)
  }

  ghost predicate Requested(rows: seq<(int, seq<int>)>, row: int, col: int) {
    exists i :: 0 <= i < |rows| && rows[i].0 == row && col in rows[i].1
  }

  /** Columns by row, collected from `cells`. */
  ghost predicate Collected(cells: seq<CopyCell>, keys: nat, order: seq<int>, cols: map<int, seq<int>>) {
    && Ascending(order)
    && (forall r :: r in order <==> r in cols)
    && (forall r | r in cols :: Ascending(cols[r]) && cols[r] != [])
    && (forall r, c | Wanted(cells, keys, r, c) :: r in cols && c in cols[r])
    && (forall r, c | r in cols && c in cols[r] :: Wanted(cells, keys, r, c))
  }

  lemma CollectsCell(cells: seq<CopyCell>, cell: CopyCell, keys: nat, order: seq<int>, cols: map<int, seq<int>>)
    requires Collected(cells, keys, order, cols)
    ensures var r := cell.modelRow;
      if cell.clamped && 0 <= r < keys then
        Collected(cells + [cell], keys, InsertInt(r, order),
            cols[r := InsertInt(cell.modelCol, if r in cols then cols[r] else [])])
      else Collected(cells + [cell], keys, order, cols)
  {
    var r := cell.modelRow;
    var known := if r in cols then cols[r] else [];
    InsertIntAscends(r, order);
    InsertIntAscends(cell.modelCol, known);
    assert cell.modelCol in InsertInt(cell.modelCol, known);
    forall row, col ensures Wanted(cells + [cell], keys, row, col) <==>
        Wanted(cells, keys, row, col) || Wants(cell, keys, row, col) {
      WantedStep(cells, cell, keys, row, col);
    }
  }

  lemma WantedStep(cells: seq<CopyCell>, cell: CopyCell, keys: nat, row: int, col: int)
    ensures Wanted(cells + [cell], keys, row, col) <==> Wanted(cells, keys, row, col) || Wants(cell, keys, row, col)
  {
    var all := cells + [cell];
    if Wanted(cells, keys, row, col) {
      var i :| 0 <= i < |cells| && Wants(cells[i], keys, row, col);
      assert Wants(all[i], keys, row, col);
    }
    assert all[|cells|] == cell;
    if Wanted(all, keys, row, col) {
      var i :| 0 <= i < |all| && Wants(all[i], keys, row, col);
      assert i < |cells| ==> Wants(cells[i], keys, row, col);
    }
  }

  /** The rows to ask for, each with its clamped columns. */
  method RowsToRefetch(cells: seq<CopyCell>, keys: nat) returns (rows: seq<(int, seq<int>)>)
    ensures forall i, j | 0 <= i < j < |rows| :: rows[i].0 < rows[j].0
    ensures forall i | 0 <= i < |rows| :: Ascending(rows[i].1) && rows[i].1 != []
    ensures RequestsWanted(rows, cells, keys)
  {
    var order: seq<int>, cols: map<int, seq<int>> := [], map[];
    for i := 0 to |cells|
      invariant Collected(cells[..i], keys, order, cols)
    {
      CollectsCell(cells[..i], cells[i], keys, order, cols);
      assert cells[..i + 1] == cells[..i] + [cells[i]];
      var cell := cells[i];
      if cell.clamped && 0 <= cell.modelRow < keys {
        var known := if cell.modelRow in cols then cols[cell.modelRow] else [];
        order, cols := InsertInt(cell.modelRow, order), cols[cell.modelRow := InsertInt(cell.modelCol, known)];
      }
    }
    assert cells[..|cells|] == cells;
    rows := [];
    for i := 0 to |order|
      invariant |rows| == i
      invariant forall j | 0 <= j < i :: order[j] in cols && rows[j] == (order[j], cols[order[j]])
      invariant forall j | 0 <= j < i :: Ascending(rows[j].1) && rows[j].1 != []
    {
      assert order[i] in order;
      rows := rows + [(order[i], cols[order[i]])];
    }
    RequestsAll(cells, keys, order, cols, rows);
  }

  lemma RequestsAll(cells: seq<CopyCell>, keys: nat, order: seq<int>, cols: map<int, seq<int>>,
                    rows: seq<(int, seq<int>)>)
    requires Collected(cells, keys, order, cols) && |rows| == |order|
    requires forall j | 0 <= j < |rows| :: order[j] in cols && rows[j] == (order[j], cols[order[j]])
    ensures forall r, c :: Requested(rows, r, c) <==> Wanted(cells, keys, r, c)
  {
    forall r, c ensures Requested(rows, r, c) <==> r in cols && c in cols[r] {
      if r in cols && c in cols[r] {
        assert r in order;
        var j :| 0 <= j < |order| && order[j] == r;
        assert rows[j].0 == r;
      }
    }
  }

  /** Whether the displayed text alone fits the budget; stops at the first cell that does not. */
  method DisplayedFits(cells: seq<CopyCell>) returns (fits: bool)
    ensures fits == (DisplayedBytes(cells) <= COPY_BUDGET)
  {
    var payloadBytes := 0;
    for i := 0 to |cells|
      invariant payloadBytes == DisplayedBytes(cells[..i]) <= COPY_BUDGET
    {
      assert cells[..i + 1][..i] == cells[..i];
      var bytes := Utf8ByteCount(cells[i].displayedText);
      payloadBytes := payloadBytes + bytes + 1;
      if payloadBytes > COPY_BUDGET {
        DisplayedGrows(cells, i + 1);
        return false;
      }
    }
    assert cells[..|cells|] == cells;
    return true;
  }

  lemma {:induction false} DisplayedGrows(cells: seq<CopyCell>, n: nat)
    requires n <= |cells|
    ensures DisplayedBytes(cells[..n]) <= DisplayedBytes(cells)
    decreases |cells|
  {
    if n < |cells| {
      DisplayedGrows(cells[..|cells| - 1], n);
      assert cells[..|cells| - 1][..n] == cells[..n];
    } else {
      assert cells[..n] == cells;
    }
  }

  /** What is priced before anything is formatted is exactly the plain text as displayed, and one byte. */
  lemma {:induction false} DisplayedIsPlain(cells: seq<CopyCell>)
    requires cells != []
    ensures DisplayedBytes(cells) == UnitsBytes(PlainOf(cells, map[])) + 1
    decreases |cells|
  {
    var n := |cells| - 1;
    if n > 0 {
      DisplayedIsPlain(cells[..n]);
      var front, unit := PlainOf(cells[..n], map[]), if cells[n].visRow != cells[n - 1].visRow then LF else TAB;
      UnitsBytesJoins(front, [unit]);
      UnitsBytesJoins(front + [unit], cells[n].displayedText);
      SeparatorBytes(unit);
    } else {
      NothingDisplayed(cells);
    }
  }

  lemma NothingDisplayed(cells: seq<CopyCell>)
    ensures DisplayedBytes(cells[..0]) == 0
  {
  }

  lemma SeparatorBytes(unit: Unit)
    requires unit == LF || unit == TAB
    ensures UnitsBytes([unit]) == 1
  {
    var none: Text := [];
    assert [unit][..0] == none;
  }

  // ---- The renderer ------------------------------------------------------------------------

  method Format(copy: PendingCopy, refetched: Refetched) returns (text: Text)
    requires InGridOrder(copy.cells) && Selectable(copy.cells)
    ensures text == TextOf(copy, refetched)
  {
    hide InGridOrder, Selectable, MarkdownOf, PlainOf;
    if copy.isMarkdown {
      text := BuildMarkdownText(copy.cells, refetched);
    } else {
      text := BuildPlainText(copy.cells, refetched);
    }
  }

  /** The writes were within the budget and made by ever later requests, none later than `newest`. */
  ghost predicate WritesFit(writes: seq<ClipboardWrite>, newest: int) {
    && (forall i | 0 <= i < |writes| ::
          Utf8Size(writes[i].text) <= COPY_BUDGET && writes[i].copyRequestId <= newest)
    && (forall i, j | 0 <= i < j < |writes| :: writes[i].copyRequestId < writes[j].copyRequestId)
  }

  lemma NoWriteSince(writes: seq<ClipboardWrite>, newest: int, later: int)
    requires WritesFit(writes, newest) && newest <= later
    ensures WritesFit(writes, later)
  {
  }

  lemma OneMoreWrite(writes: seq<ClipboardWrite>, w: ClipboardWrite)
    requires WritesFit(writes, w.copyRequestId - 1) && Utf8Size(w.text) <= COPY_BUDGET
    ensures WritesFit(writes + [w], w.copyRequestId)
  {
  }

  class TableRenderer {
    var currentCopyRequestId: nat
    var pendingCopy: Option<PendingCopy>
    var pageKeys: nat                     // rows of the page that have a key
    var clipboard: seq<ClipboardWrite>    // everything written so far
    var requests: seq<RefetchRequest>
    var notices: seq<Notice>

    /** Only the newest request can be pending, and it has written nothing yet; every write was
        within the budget and by a later request than the one before. */
    ghost predicate Valid()
      reads `currentCopyRequestId, `pendingCopy, `clipboard
    {
      && (pendingCopy.Some? ==>
            && pendingCopy.value.copyRequestId == currentCopyRequestId
            && InGridOrder(pendingCopy.value.cells) && Selectable(pendingCopy.value.cells))
      && WritesFit(clipboard, currentCopyRequestId - if pendingCopy.Some? then 1 else 0)
    }

    constructor ()
      ensures Valid() && currentCopyRequestId == pageKeys == 0 && pendingCopy == None && clipboard == []
    {
      currentCopyRequestId, pendingCopy, pageKeys, clipboard, requests, notices := 0, None, 0, [], [], [];
    }

    /** A new page; a copy of the old one may still be pending. */
    method SetPageData(keys: nat)
      modifies `pageKeys
      ensures pageKeys == keys
    {
      pageKeys := keys;
    }

    method Clear()
      requires Valid()
      modifies `pageKeys, `pendingCopy
      ensures Valid() && pendingCopy == None && pageKeys == 0
    {
      pageKeys, pendingCopy := 0, None;
    }

    /** Formats a copy and writes it, unless the text is over the budget. */
    method Write(copy: PendingCopy, refetched: Refetched) returns (written: bool)
      requires Valid() && pendingCopy == None && copy.copyRequestId == currentCopyRequestId
      requires InGridOrder(copy.cells) && Selectable(copy.cells)
      requires WritesFit(clipboard, currentCopyRequestId - 1)
      modifies `clipboard, `notices
      ensures Valid()
      ensures written == (UnitsBytes(TextOf(copy, refetched)) <= COPY_BUDGET)
      ensures clipboard == old(clipboard) +
        if written then [ClipboardWrite(copy.copyRequestId, TextOf(copy, refetched))] else []
      ensures notices == old(notices) + if written then [] else [Refused]
    {
      hide InGridOrder, Selectable, TextOf, UnitsBytes, Utf8Size, WritesFit;
      var text := Format(copy, refetched);
      written := WithinCopyBudget(text);
      if written {
        OneMoreWrite(clipboard, ClipboardWrite(copy.copyRequestId, text));
        clipboard := clipboard + [ClipboardWrite(copy.copyRequestId, text)];
      } else {
        notices := notices + [Refused];
      }
    }

    /** A copy of the selected cells: refused, written at once, or pending until its clamped cells
        have been fetched. */
    method PerformCopy(selection: seq<CopyCell>, isMarkdown: bool)
      requires Valid() && Selectable(selection)
      modifies `currentCopyRequestId, `pendingCopy, `clipboard, `requests, `notices
      ensures Valid()
      ensures selection == [] ==> unchanged(`currentCopyRequestId, `pendingCopy, `clipboard, `requests, `notices)
      ensures selection != [] ==>
        var id := old(currentCopyRequestId) + 1;
        Copied(PendingCopy(id, isMarkdown, SortedCells(selection)), old(clipboard), old(requests), old(notices))
    {
      hide SortedCells, TextOf, InGridOrder, Selectable, UnitsBytes, Utf8Size, DisplayedBytes, Ascending;
      hide RequestsWanted, NothingWanted, WritesFit;
      if selection == [] {
        return;
      }
      SortedCellsInOrder(selection);
      var cells := SortedCells(selection);
      SelectableSorts(selection, cells);
      NoWriteSince(clipboard, currentCopyRequestId - if pendingCopy.Some? then 1 else 0, currentCopyRequestId);
      NoWriteSince(clipboard, currentCopyRequestId, currentCopyRequestId + 1);
      currentCopyRequestId := currentCopyRequestId + 1;
      var pending := PendingCopy(currentCopyRequestId, isMarkdown, cells);
      var rowsToRefetch := RowsToRefetch(cells, pageKeys);
      var fits := DisplayedFits(cells);
      if !fits {
        pendingCopy := None;
        notices := notices + [Refused];
        return;
      }
      NothingToRefetch(cells, pageKeys, rowsToRefetch);
      if rowsToRefetch == [] {
        pendingCopy := None;
        var written := Write(pending, map[]);
        return;
      }
      pendingCopy := Some(pending);
      requests := requests + [RefetchRequest(currentCopyRequestId, rowsToRefetch)];
    }

    /** What a copy does, given what was there before. */
    ghost predicate Copied(copy: PendingCopy, before: seq<ClipboardWrite>, asked: seq<RefetchRequest>,
                           told: seq<Notice>)
      reads this
    {
      var text := TextOf(copy, map[]);
      && currentCopyRequestId == copy.copyRequestId
      && if DisplayedBytes(copy.cells) > COPY_BUDGET then
           pendingCopy == None && clipboard == before && requests == asked && notices == told + [Refused]
         else if NothingWanted(copy.cells, pageKeys) then
           && pendingCopy == None && requests == asked
           && clipboard == before + (if UnitsBytes(text) <= COPY_BUDGET then [ClipboardWrite(copy.copyRequestId,
                text)] else [])
           && notices == told + (if UnitsBytes(text) <= COPY_BUDGET then [] else [Refused])
         else
           && pendingCopy == Some(copy) && clipboard == before && notices == told
           && |requests| == |asked| + 1 && requests[..|asked|] == asked
           && requests[|asked|].copyRequestId == copy.copyRequestId
           && RequestsWanted(requests[|asked|].rows, copy.cells, pageKeys)
    }

    /** What the completion of a copy does, given what was there before. */
    ghost predicate Completed(copy: PendingCopy, results: seq<(int, RowValues)>, before: seq<ClipboardWrite>,
                              told: seq<Notice>)
      reads `clipboard, `notices
    {
      var text, failed := TextOf(copy, ValuesOf(results)), FailedRows(copy.cells, ValuesOf(results));
      if OverBudget(results) || UnitsBytes(text) > COPY_BUDGET then clipboard == before && notices == told + [Refused]
      else
        && clipboard == before + [ClipboardWrite(copy.copyRequestId, text)]
        && notices == told + (if failed == [] then [] else [Incomplete(|failed|)])
    }

    /** The worker's values arrive.  Only the newest request, while it is pending, can write; any row
        that failed for the budget prevents the write altogether. */
    method OnRefetchRowsCompleted(copyRequestId: nat, results: seq<(int, RowValues)>)
      requires Valid()
      modifies `pendingCopy, `clipboard, `notices
      ensures Valid()
      ensures copyRequestId != currentCopyRequestId || old(pendingCopy) == None ==>
        unchanged(`pendingCopy, `clipboard, `notices)
      ensures copyRequestId == currentCopyRequestId && old(pendingCopy).Some? ==>
        pendingCopy == None && Completed(old(pendingCopy).value, results, old(clipboard), old(notices))
    {
      hide MarkdownOf, PlainOf, ValuesOf, FailedRows, InGridOrder, Selectable, UnitsBytes, Utf8Size, WritesFit;
      if copyRequestId != currentCopyRequestId || pendingCopy == None
          || pendingCopy.value.copyRequestId != copyRequestId {
        return;
      }
      var copy := pendingCopy.value;
      NoWriteSince(clipboard, currentCopyRequestId - 1, currentCopyRequestId);
      var exceeded := AnyOverBudget(results);
      pendingCopy := None;
      if exceeded {
        notices := notices + [Refused];
        return;
      }
      var refetchedValues := ValuesOf(results);
      var failedRows := FailedRows(copy.cells, refetchedValues);
      var written := Write(copy, refetchedValues);
      if written && failedRows != [] {
        notices := notices + [Incomplete(|failedRows|)];
      }
    }
  }

  ghost predicate OverBudget(results: seq<(int, RowValues)>) {
    exists i :: 0 <= i < |results| && results[i].1 == RowFailed(true)
  }

  method AnyOverBudget(results: seq<(int, RowValues)>) returns (exceeded: bool)
    ensures exceeded == OverBudget(results)
  {
    exceeded := false;
    for i := 0 to |results|
      invariant !exceeded && forall j | 0 <= j < i :: results[j].1 != RowFailed(true)
    {
      if results[i].1 == RowFailed(true) {
        return true;
      }
    }
  }

  lemma SelectableSorts(selection: seq<CopyCell>, cells: seq<CopyCell>)
    requires Selectable(selection) && multiset(cells) == multiset(selection)
    ensures Selectable(cells)
  {
    forall i | 0 <= i < |cells| ensures cells[i].visRow >= 0 {
      assert cells[i] in multiset(selection);
    }
  }

  lemma NothingToRefetch(cells: seq<CopyCell>, keys: nat, rows: seq<(int, seq<int>)>)
    requires forall i | 0 <= i < |rows| :: rows[i].1 != []
    requires RequestsWanted(rows, cells, keys)
    ensures rows == [] <==> NothingWanted(cells, keys)
  {
    if rows != [] {
      assert Requested(rows, rows[0].0, rows[0].1[0]);
    }
  }

  // ---- All runs ----------------------------------------------------------------------------

  datatype CopyEvent =
    | Copy(selection: seq<CopyCell>, isMarkdown: bool)
    | Completion(copyRequestId: nat, results: seq<(int, RowValues)>)
    | NewPage(keys: nat)
    | Cleared

  /** The id of the newest copy request. */
  function NewestId(events: seq<CopyEvent>): nat {
    if events == [] then 0
    else
      var last := events[|events| - 1];
      NewestId(events[..|events| - 1]) + if last.Copy? && last.selection != [] then 1 else 0
  }

  /** The newest copy request. */
  function NewestCopy(events: seq<CopyEvent>): (copy: PendingCopy)
    ensures copy.copyRequestId == NewestId(events)
  {
    if events == [] then PendingCopy(0, false, [])
    else
      var last := events[|events| - 1];
      if last.Copy? && last.selection != [] then
        PendingCopy(NewestId(events), last.isMarkdown, SortedCells(last.selection))
      else NewestCopy(events[..|events| - 1])
  }

  /** The keys of the page on display. */
  function KeysOf(events: seq<CopyEvent>): nat {
    if events == [] then 0
    else match events[|events| - 1]
      case NewPage(keys) => keys
      case Cleared => 0
      case _ => KeysOf(events[..|events| - 1])
  }

  /** The newest copy waits for values: it was small enough and wanted some, and neither has it been completed
      nor has anything been cleared since. */
  ghost predicate Waits(events: seq<CopyEvent>) {
    if events == [] then false
    else
      var before := events[..|events| - 1];
      match events[|events| - 1]
      case Copy(selection, _) =>
        if selection == [] then Waits(before)
        else
          var cells := SortedCells(selection);
          DisplayedBytes(cells) <= COPY_BUDGET && !NothingWanted(cells, KeysOf(before))
      case Completion(id, _) => Waits(before) && id != NewestId(before)
      case NewPage(_) => Waits(before)
      case Cleared => false
  }

  /** What event `i` writes, if anything: the newest copy as displayed, when it is made and wants no values, or
      with the values of its completion, while it waits for them; in either case unless the text is too long. */
  ghost function Due(events: seq<CopyEvent>, i: nat): (text: Option<Text>)
    requires i < |events|
  {
    var copy := NewestCopy(events[..i + 1]);
    match events[i]
    case Copy(selection, _) =>
      if selection == [] || DisplayedBytes(copy.cells) > COPY_BUDGET
        || !NothingWanted(copy.cells, KeysOf(events[..i])) then None
      else Short(TextOf(copy, map[]))
    case Completion(id, results) =>
      if !Waits(events[..i]) || id != NewestId(events[..i]) || OverBudget(results) then None
      else Short(TextOf(copy, ValuesOf(results)))
    case NewPage(_) => None
    case Cleared => None
  }

  function Short(text: Text): Option<Text> {
    if UnitsBytes(text) <= COPY_BUDGET then Some(text) else None
  }

  /** The values a write was made with. */
  function ResultsOf(e: CopyEvent): seq<(int, RowValues)> {
    if e.Completion? then e.results else []
  }

  ghost predicate Selections(events: seq<CopyEvent>) {
    forall i | 0 <= i < |events| && events[i].Copy? :: Selectable(events[i].selection)
  }

  /** Event `i` is the one behind a write. */
  ghost predicate WrittenBy(w: ClipboardWrite, events: seq<CopyEvent>, i: nat) {
    && i < |events| && Due(events, i) == Some(w.text) && w.copyRequestId == NewestId(events[..i + 1])
    && Utf8Size(w.text) <= COPY_BUDGET
  }

  lemma AsDue(w: ClipboardWrite, events: seq<CopyEvent>, i: nat)
    requires i < |events| && Due(events, i).Some? && Utf8Size(w.text) <= COPY_BUDGET
    requires w == ClipboardWrite(NewestId(events[..i + 1]), Due(events, i).value)
    ensures WrittenBy(w, events, i)
  {
  }

  lemma LastFits(writes: seq<ClipboardWrite>, newest: nat)
    requires writes != [] && (WritesFit(writes, newest) || WritesFit(writes, newest - 1))
    ensures Utf8Size(writes[|writes| - 1].text) <= COPY_BUDGET
  {
  }

  /** What is on the clipboard can be read back as the newest copy of its time. */
  ghost predicate Legible(w: ClipboardWrite, events: seq<CopyEvent>, i: nat)
    requires i < |events|
  {
    var copy := NewestCopy(events[..i + 1]);
    ReadsBack(w.text, copy.isMarkdown, copy.cells, ResultsOf(events[i]))
  }

  lemma DueIsLegible(w: ClipboardWrite, events: seq<CopyEvent>, i: nat)
    requires WrittenBy(w, events, i)
    ensures Legible(w, events, i)
  {
    hide ReadsBack, PlainOf, MarkdownOf, Waits, Utf8Size, NothingWanted, DisplayedBytes, UnitsBytes, SortedCells;
    var copy, results := NewestCopy(events[..i + 1]), ResultsOf(events[i]);
    assert events[..i + 1][..i] == events[..i];
    if events[i].Copy? {
      SomeCells(events[i].selection);
    } else {
      WaitsForCells(events[..i]);
    }
    NoResults();
    CopyReadsBack(copy.isMarkdown, copy.cells, results);
  }

  lemma NoResults()
    ensures ValuesOf([]) == map[]
  {
  }

  lemma SomeCells(selection: seq<CopyCell>)
    requires selection != []
    ensures SortedCells(selection) != []
  {
    SortedCellsInOrder(selection);
  }

  lemma {:induction false} WaitsForCells(events: seq<CopyEvent>)
    requires Waits(events)
    ensures NewestCopy(events).cells != []
    decreases |events|
  {
    hide SortedCells, DisplayedBytes, NothingWanted;
    var last := events[|events| - 1];
    if last.Copy? && last.selection != [] {
      SomeCells(last.selection);
    } else {
      WaitsForCells(events[..|events| - 1]);
    }
  }

  /** Whatever is copied, completed (in any order, for any request) and cleared: exactly the writes that are due
      are made, each by the request that is the newest at that moment, none twice by the same one and none over the
      budget; and each can be read back as the selection it was made for. */
  method CopySession(events: seq<CopyEvent>) returns (writes: seq<ClipboardWrite>, at: seq<nat>)
    requires Selections(events)
    ensures |writes| == |at|
    ensures forall k | 0 <= k < |writes| :: WrittenBy(writes[k], events, at[k]) && Legible(writes[k], events, at[k])
    ensures forall j, k | 0 <= j < k < |writes| :: at[j] < at[k] && writes[j].copyRequestId < writes[k].copyRequestId
    ensures forall i | 0 <= i < |events| :: i in at <==> Due(events, i).Some?
  {
    hide Due, WrittenBy, Legible, NewestCopy, NewestId, Waits, KeysOf, Utf8Size, UnitsBytes;
    var renderer := new TableRenderer();
    NothingYet();
    assert events[..0] == [];
    at := [];
    for i := 0 to |events|
      invariant fresh(renderer) && renderer.Valid() && Follows(renderer, events[..i])
      invariant |renderer.clipboard| == |at|
      invariant forall k | 0 <= k < |at| :: at[k] < i && WrittenBy(renderer.clipboard[k], events, at[k])
      invariant forall j, k | 0 <= j < k < |at| :: at[j] < at[k]
      invariant forall j | 0 <= j < i :: j in at <==> Due(events, j).Some?
    {
      assert events[..i + 1][..i] == events[..i];
      var wrote := Handle(renderer, events, i);
      if wrote {
        LastFits(renderer.clipboard, renderer.currentCopyRequestId);
        AsDue(renderer.clipboard[|at|], events, i);
        at := at + [i];
      }
    }
    assert events[..|events|] == events;
    writes := renderer.clipboard;
    forall k | 0 <= k < |writes| ensures Legible(writes[k], events, at[k]) {
      DueIsLegible(writes[k], events, at[k]);
    }
  }

  /** The renderer is where the events have brought it. */
  ghost predicate Follows(renderer: TableRenderer, events: seq<CopyEvent>)
    reads renderer
  {
    && renderer.currentCopyRequestId == NewestId(events) && renderer.pageKeys == KeysOf(events)
    && renderer.pendingCopy == if Waits(events) then Some(NewestCopy(events)) else None
  }

  lemma NothingYet()
    ensures NewestId([]) == 0 && KeysOf([]) == 0 && !Waits([])
  {
  }

  /** One event at the renderer. */
  method Handle(renderer: TableRenderer, events: seq<CopyEvent>, i: nat) returns (wrote: bool)
    requires i < |events| && renderer.Valid() && (events[i].Copy? ==> Selectable(events[i].selection))
    requires Follows(renderer, events[..i])
    modifies renderer
    ensures renderer.Valid() && Follows(renderer, events[..i + 1]) && wrote == Due(events, i).Some?
    ensures renderer.clipboard == old(renderer.clipboard) + if Due(events, i) == None then []
      else [ClipboardWrite(NewestId(events[..i + 1]), Due(events, i).value)]
  {
    hide OverBudget, SortedCells, DisplayedBytes, UnitsBytes, MarkdownOf, PlainOf, ValuesOf, NothingWanted;
    hide FailedRows, RequestsWanted, TextOf;
    assert events[..i + 1][..i] == events[..i];
    var before := |renderer.clipboard|;
    match events[i] {
      case Copy(selection, isMarkdown) => renderer.PerformCopy(selection, isMarkdown);
      case Completion(id, results) => renderer.OnRefetchRowsCompleted(id, results);
      case NewPage(keys) => renderer.SetPageData(keys);
      case Cleared => renderer.Clear();
    }
    wrote := |renderer.clipboard| > before;
  }
}
