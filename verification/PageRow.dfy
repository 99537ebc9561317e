/** Decoding one displayed row from the callbacks of a re-scanned record: cells are cut to a
    per-cell cap, short rows are padded and surplus fields are dropped. */
module PageRow {
  import opened CsvGrammar
  import opened CsvMachine
  import opened CsvRecordScanner
  import opened Utf8

  const PAGE_BUDGET := 32 * 1024 * 1024
  const MAX_CELL_BYTES := 4096
  const MIN_CELL_BYTES := 16

  function Clamp(low: nat, x: nat, high: nat): nat {
    if x < low then low else if x > high then high else x
  }

  function PerCellCap(pageSize: int, columns: nat): (cap: nat)
    ensures MIN_CELL_BYTES <= cap <= MAX_CELL_BYTES
  {
    if pageSize <= 0 || columns == 0 then MAX_CELL_BYTES
    else Clamp(MIN_CELL_BYTES, PAGE_BUDGET / (pageSize * columns), MAX_CELL_BYTES)
  }

  /** Between its bounds the cap is the largest equal share of the page budget. */
  lemma CapIsShare(pageSize: int, columns: nat)
    ensures pageSize <= 0 || columns == 0 ==> PerCellCap(pageSize, columns) == MAX_CELL_BYTES
    ensures pageSize > 0 && columns > 0 ==>
      var cap, cells := PerCellCap(pageSize, columns), pageSize * columns;
      && (cap > MIN_CELL_BYTES ==> cap * cells <= PAGE_BUDGET)
      && (cap < MAX_CELL_BYTES ==> (cap + 1) * cells > PAGE_BUDGET)
  {
    if pageSize > 0 && columns > 0 {
      var cells := pageSize * columns;
      ProductMono(1, columns, pageSize);
      ShareFits(PAGE_BUDGET, cells, PerCellCap(pageSize, columns));
    }
  }

  /** What the integer quotient says about products. */
  lemma ShareFits(budget: nat, cells: nat, cap: nat)
    requires cells > 0
    ensures cap <= budget / cells ==> cap * cells <= budget
    ensures cap >= budget / cells ==> (cap + 1) * cells > budget
  {
    var q := budget / cells;
    assert budget == q * cells + budget % cells;
    if cap <= q {
      ProductMono(cap, q, cells);
    }
    if cap >= q {
      ProductMono(q + 1, cap + 1, cells);
      assert (q + 1) * cells == q * cells + cells;
    }
  }

  /** Field `col` of a record, empty when the record is too short. */
  function FieldAt(fields: seq<seq<Byte>>, col: nat): seq<Byte> {
    if col < |fields| then fields[col] else []
  }

  /** A cell shows `full`: it fits the cap, it is flagged exactly when `full` does not, an unflagged cell
      is the whole value, and a flagged one starts with as much of it as a safe cut leaves. */
  predicate Shows(cell: seq<Byte>, flag: bool, full: seq<Byte>, cap: nat) {
    |cell| <= cap && flag == (|full| > cap) && if flag then StartsWithCut(cell, full, cap) else cell == full
  }

  predicate StartsWithCut(cell: seq<Byte>, full: seq<Byte>, cap: nat) {
    var n := SafeLength(full, cap);
    n <= |cell| && cell[..n] == full[..n]
  }

  /** A flagged cell of a valid UTF-8 value lacks at most three bytes of the cap, and all that it shows
      before them is the value. */
  lemma FlaggedCell(cell: seq<Byte>, full: seq<Byte>, cap: nat)
    requires Shows(cell, true, full, cap) && ValidUtf8(full)
    ensures cap <= |cell| + 3 && forall i | 0 <= i < cap - 3 :: i < |cell| && i < |full| && cell[i] == full[i]
  {
    var n := SafeLength(full, cap);
    SafeCut(full, cap);
    forall i | 0 <= i < cap - 3 ensures i < |cell| && i < |full| && cell[i] == full[i] {
      assert cell[i] == cell[..n][i] == full[..n][i];
    }
  }

  /** A displayed row of `columns` cells shows the first fields of a record. */
  ghost predicate RowShows(cells: seq<seq<Byte>>, flags: seq<bool>, fields: seq<seq<Byte>>, columns: nat, cap: nat) {
    && |cells| == |flags| == columns
    && forall c | 0 <= c < columns :: Shows(cells[c], flags[c], FieldAt(fields, c), cap)
  }

  /** The fields of the only record of a slice; a blank slice has none. */
  function SliceFields(rs: seq<Record>): seq<seq<Byte>> {
    if |rs| == 1 then rs[0].fields else []
  }

  ghost predicate TextIsUtf8(events: seq<Event>) {
    forall e <- events :: e.Fragment? ==> ValidUtf8(e.bytes)
  }

  /** The cell callback: appends what still fits and remembers whether anything was dropped. */
  method AppendCell(cell0: seq<Byte>, clamped0: bool, fragment: seq<Byte>, cap: nat, ghost full: seq<Byte>)
    returns (cell: seq<Byte>, clamped: bool)
    requires Shows(cell0, clamped0, full, cap)
    ensures Shows(cell, clamped, full + fragment, cap)
    ensures ValidUtf8(cell0) && ValidUtf8(fragment) ==> ValidUtf8(cell)
    ensures cell0 <= cell
    ensures clamped0 && cell0 <= full && ValidUtf8(cell0) && ValidUtf8(full) && ValidUtf8(fragment) ==>
      (cell <= full + fragment <==> cell == cell0)
  {
    hide Shows, SafeLength, ValidUtf8;
    cell, clamped := cell0, clamped0;
    if |cell| < cap {
      var allowed := cap - |cell|;
      var safeLen := Utf8SafeLength(fragment, allowed);
      cell := cell + fragment[..safeLen];
      if safeLen < |fragment| {
        clamped := true;
      }
      if ValidUtf8(cell0) && ValidUtf8(fragment) {
        SafeCut(fragment, allowed);
        ValidUtf8Append(cell0, fragment[..safeLen]);
      }
      AppendShows(cell0, clamped0, fragment, cap, full);
      if clamped0 && cell0 <= full && ValidUtf8(cell0) && ValidUtf8(full) && ValidUtf8(fragment) {
        RefillMisplaces(cell0, fragment, cap, full);
      }
    } else if fragment != [] {
      clamped := true;
      FullStaysFull(cell0, clamped0, fragment, cap, full);
    } else {
      assert full + fragment == full;
    }
  }

  lemma FullStaysFull(cell: seq<Byte>, flag: bool, fragment: seq<Byte>, cap: nat, full: seq<Byte>)
    requires Shows(cell, flag, full, cap) && |cell| >= cap && fragment != []
    ensures Shows(cell, true, full + fragment, cap)
  {
    if flag {
      SafeLengthLocal(full, fragment, cap);
    }
  }

  /** Room that is left is filled with as much of the fragment as a safe cut allows. */
  lemma AppendShows(cell: seq<Byte>, flag: bool, fragment: seq<Byte>, cap: nat, full: seq<Byte>)
    requires Shows(cell, flag, full, cap) && |cell| < cap
    ensures var n := SafeLength(fragment, cap - |cell|);
      Shows(cell + fragment[..n], flag || n < |fragment|, full + fragment, cap)
  {
    hide SafeLength;
    var allowed := cap - |cell|;
    var n := SafeLength(fragment, allowed);
    if flag {
      SafeLengthLocal(full, fragment, cap);
    } else if n == |fragment| {
      assert fragment[..n] == fragment;
    } else {
      var all := full + fragment;
      var m := SafeLength(all, cap);
      assert m > |full| ==> all[m] == fragment[m - |full|];
      assert (cell + fragment[..n])[..m] == all[..m];
    }
  }

  /** Once something has been left out, whatever is filled into the room that is left stands in the wrong
      place: the cell is still the beginning of the value just if nothing is. */
  lemma RefillMisplaces(cell: seq<Byte>, fragment: seq<Byte>, cap: nat, full: seq<Byte>)
    requires Shows(cell, true, full, cap) && |cell| < cap && cell <= full
    requires ValidUtf8(cell) && ValidUtf8(full) && ValidUtf8(fragment)
    ensures var n := SafeLength(fragment, cap - |cell|); cell + fragment[..n] <= full + fragment <==> n == 0
  {
    hide SafeLength, ValidUtf8, CharLength, Continuation;
    var n := SafeLength(fragment, cap - |cell|);
    if n > 0 && cell + fragment[..n] <= full + fragment {
      var rest, head := full[|cell|..], fragment[..n];
      assert full == cell + rest;
      ValidUtf8Rest(cell, rest);
      SafeCut(fragment, cap - |cell|);
      HeadOfValid(head);
      var l := CharLength(head);
      forall k | 0 <= k < l ensures rest[k] == head[k] {
        assert (cell + head)[|cell| + k] == (full + fragment)[|cell| + k] == full[|cell| + k];
      }
      CharLengthLocal(head, rest);
      NextCharacter(rest);
      assert false;
    }
    assert n == 0 ==> cell + fragment[..n] == cell;
  }

  lemma HeadOfValid(s: seq<Byte>)
    requires ValidUtf8(s) && s != []
    ensures 0 < CharLength(s) <= |s|
  {
  }

  /** Behind the first character of valid text no continuation byte stands. */
  lemma NextCharacter(s: seq<Byte>)
    requires ValidUtf8(s) && 0 < CharLength(s) < |s|
    ensures !Continuation(s[CharLength(s)])
  {
    var rest := s[CharLength(s)..];
    assert rest[0] == s[CharLength(s)];
  }

  /** This does happen, at every cap: the two bytes of a letter no longer fit, and the quote behind it does. */
  lemma RefillExample(cap: nat, letters: seq<Byte>)
    requires cap > 0 && |letters| == cap - 1 && forall i | 0 <= i < |letters| :: letters[i] == 0x61
    ensures var full := letters + [0xC3, 0xA9];
      && ValidUtf8(full) && Shows(letters, true, full, cap) && SafeLength([QUOTE], cap - |letters|) == 1
      && Shows(letters + [QUOTE], true, full + [QUOTE], cap) && !(letters + [QUOTE] <= full + [QUOTE])
  {
    var full, letter := letters + [0xC3, 0xA9], [0xC3, 0xA9];
    assert full[cap - 1] == 0xC3 && full[cap] == 0xA9;
    LettersAreValid(letters);
    assert CharLength(letter) == 2 && letter[2..] == [];
    ValidUtf8Append(letters, letter);
    assert SafeLength(full, cap - 1) == cap - 1;
    assert full[..cap - 1] == letters;
    AppendShows(letters, true, [QUOTE], cap, full);
    assert [QUOTE][..1] == [QUOTE];
    assert (letters + [QUOTE])[cap - 1] != (full + [QUOTE])[cap - 1];
  }

  lemma {:induction false} LettersAreValid(letters: seq<Byte>)
    requires forall i | 0 <= i < |letters| :: letters[i] == 0x61
    ensures ValidUtf8(letters)
  {
    if letters != [] {
      LettersAreValid(letters[1..]);
    }
  }

  /** Without a record end, completed fields and the current cell only grow. */
  lemma {:induction false} CollectGrows(a: Collected, events: seq<Event>)
    ensures var b := CollectAll(a, events);
      && a.records <= b.records
      && (|a.records| == |b.records| ==>
            && |a.fields| <= |b.fields|
            && (|a.fields| == |b.fields| ==> a.fields == b.fields && |a.cell| <= |b.cell|))
      && (!a.inOrder ==> !b.inOrder)
    decreases |events|
  {
    if events != [] {
      CollectGrows(a, events[..|events| - 1]);
    }
  }

  /** The fields of the record the callbacks so far belong to. */
  function FieldsSoFar(a: Collected): seq<seq<Byte>> {
    if |a.records| == 1 then a.records[0].fields else a.fields
  }

  ghost predicate PartialRow(cells: seq<seq<Byte>>, flags: seq<bool>, fields: seq<seq<Byte>>, columns: nat, cap: nat) {
    && |cells| == |flags| == (if |fields| < columns then |fields| else columns)
    && forall c | 0 <= c < |cells| :: Shows(cells[c], flags[c], fields[c], cap)
  }

  /** At most one record, and nothing behind it. */
  predicate WithinOneRecord(b: Collected) {
    b.inOrder && |b.records| <= 1 && (|b.records| == 1 ==> b.cell == [] && b.fields == [])
  }

  /** What the next callback can be, given where all callbacks lead. */
  lemma NextCallback(events: seq<Event>, i: nat)
    requires i < |events| && WithinOneRecord(CollectAll(NOTHING, events))
    ensures var a, n := CollectAll(NOTHING, events[..i]), CollectAll(NOTHING, events[..i + 1]);
      && n == Collect(a, events[i]) && n.inOrder && |a.records| <= |n.records| <= 1
      && (|a.records| == 1 ==>
           n == a && a.fields == [] && events[i].Fragment? && events[i].bytes == [] && !events[i].isEnd)
  {
    assert events[..i + 1][..i] == events[..i];
    Reaches(events, i);
    Reaches(events, i + 1);
  }

  lemma Reaches(events: seq<Event>, i: nat)
    requires i <= |events|
    ensures var a, b := CollectAll(NOTHING, events[..i]), CollectAll(NOTHING, events);
      && a.records <= b.records && (b.inOrder ==> a.inOrder)
      && (|a.records| == |b.records| && b.fields == [] && b.cell == [] ==> a.fields == [] && a.cell == [])
  {
    CollectAllAppend(NOTHING, events[..i], events[i..]);
    assert events == events[..i] + events[i..];
    CollectGrows(CollectAll(NOTHING, events[..i]), events[i..]);
  }

  /** The row after the callbacks that led to `a`, with the cell under way. */
  ghost predicate RowAt(a: Collected, cells: seq<seq<Byte>>, flags: seq<bool>, full: seq<Byte>, columns: nat,
                        cap: nat) {
    && |a.records| <= 1
    && PartialRow(cells, flags, FieldsSoFar(a), columns, cap)
    && (a.records == [] && |a.fields| < columns ==> full == a.cell)
  }

  /** One callback, `cell` being what the cell under way has become. */
  lemma RowStep(a: Collected, e: Event, cells: seq<seq<Byte>>, flags: seq<bool>, full: seq<Byte>, cell: seq<Byte>,
                flag: bool,
                columns: nat, cap: nat)
    requires RowAt(a, cells, flags, full, columns, cap)
    requires var n := Collect(a, e);
      && n.inOrder && |n.records| <= 1
      && (|a.records| == 1 ==> n == a && a.fields == [] && e.Fragment? && e.bytes == [] && !e.isEnd)
    requires Shows(cell, flag, if e.Fragment? && e.col < columns then full + e.bytes else full, cap)
    ensures var n := Collect(a, e);
      if !e.Fragment? || e.col >= columns then RowAt(n, cells, flags, full, columns, cap)
      else if e.isEnd then RowAt(n, cells + [cell], flags + [flag], [], columns, cap)
      else RowAt(n, cells, flags, full + e.bytes, columns, cap)
  {
  }

  /** Decodes the callbacks of one re-scanned record into a displayed row.  The scan has ended,
      so no field is left open. */
  method DecodeRow(events: seq<Event>, columns: nat, cap: nat) returns (cells: seq<seq<Byte>>, flags: seq<bool>)
    requires var b := CollectAll(NOTHING, events); b.inOrder && b.cell == [] && b.fields == [] && |b.records| <= 1
    ensures RowShows(cells, flags, SliceFields(CollectAll(NOTHING, events).records), columns, cap)
    ensures TextIsUtf8(events) ==> forall c | 0 <= c < columns :: ValidUtf8(cells[c])
  {
    assert events[..0] == [] && CollectAll(NOTHING, []) == NOTHING && ValidUtf8([]);
    hide CollectAll, Collect, ValidUtf8;
    cells, flags := [], [];
    var cell, cellWasClamped := [], false;
    ghost var full: seq<Byte> := [];
    for i := 0 to |events|
      invariant RowAt(CollectAll(NOTHING, events[..i]), cells, flags, full, columns, cap)
      invariant Shows(cell, cellWasClamped, full, cap)
      invariant TextIsUtf8(events) ==> ValidUtf8(cell) && forall c | 0 <= c < |cells| :: ValidUtf8(cells[c])
    {
      hide RowAt;
      NextCallback(events, i);
      var e := events[i];
      ghost var a, before := CollectAll(NOTHING, events[..i]), full;
      if e.Fragment? && e.col < columns {
        cell, cellWasClamped := AppendCell(cell, cellWasClamped, e.bytes, cap, full);
        full := full + e.bytes;
      }
      RowStep(a, e, cells, flags, before, cell, cellWasClamped, columns, cap);
      if e.Fragment? && e.col < columns && e.isEnd {
        cells, flags := cells + [cell], flags + [cellWasClamped];
        cell, cellWasClamped, full := [], false, [];
      }
    }
    assert events[..|events|] == events;
    cells, flags := PadRow(cells, flags, SliceFields(CollectAll(NOTHING, events).records), columns, cap);
  }

  /** Pads a short row with empty cells; surplus fields were never attached. */
  method PadRow(cells0: seq<seq<Byte>>, flags0: seq<bool>, ghost fields: seq<seq<Byte>>, columns: nat, cap: nat)
    returns (cells: seq<seq<Byte>>, flags: seq<bool>)
    requires PartialRow(cells0, flags0, fields, columns, cap)
    ensures RowShows(cells, flags, fields, columns, cap) && cells0 <= cells
    ensures forall c | |cells0| <= c < columns :: cells[c] == []
  {
    cells, flags := cells0, flags0;
    while |cells| < columns
      invariant |cells| == |flags| <= columns && cells0 <= cells
      invariant |cells| < columns ==> |fields| <= |cells|
      invariant forall c | 0 <= c < |cells| :: Shows(cells[c], flags[c], FieldAt(fields, c), cap)
      invariant forall c | |cells0| <= c < |cells| :: cells[c] == []
    {
      cells, flags := cells + [[]], flags + [false];
    }
  }

  // ---- Memory bound ------------------------------------------------------------------------

  function RowBytes(cells: seq<seq<Byte>>): nat {
    if cells == [] then 0 else RowBytes(cells[..|cells| - 1]) + |cells[|cells| - 1]|
  }

  /** ... is the length of its cells written one behind the other. */
  lemma {:induction false} RowBytesIsLength(cells: seq<seq<Byte>>)
    ensures RowBytes(cells) == |Joined(cells)|
    decreases |cells|
  {
    if cells != [] {
      RowBytesIsLength(cells[..|cells| - 1]);
    }
  }

  function PageBytes(rows: seq<seq<seq<Byte>>>): nat {
    if rows == [] then 0 else PageBytes(rows[..|rows| - 1]) + RowBytes(rows[|rows| - 1])
  }

  lemma {:induction false} RowBytesBound(cells: seq<seq<Byte>>, cap: nat)
    requires forall c | 0 <= c < |cells| :: |cells[c]| <= cap
    ensures RowBytes(cells) <= |cells| * cap
    decreases |cells|
  {
    if cells != [] {
      RowBytesBound(cells[..|cells| - 1], cap);
      assert |cells| * cap == (|cells| - 1) * cap + cap;
    }
  }

  lemma {:induction false} PageBytesBound(rows: seq<seq<seq<Byte>>>, columns: nat, cap: nat)
    requires forall r | 0 <= r < |rows| :: |rows[r]| == columns && forall c | 0 <= c < columns :: |rows[r][c]| <= cap
    ensures PageBytes(rows) <= |rows| * (columns * cap)
    decreases |rows|
  {
    if rows != [] {
      PageBytesBound(rows[..|rows| - 1], columns, cap);
      RowBytesBound(rows[|rows| - 1], cap);
      assert |rows| * (columns * cap) == (|rows| - 1) * (columns * cap) + columns * cap;
    }
  }

  /** The decoded cells of a page fit 32 MiB for every page size the settings allow (100 to 3000
      rows) and every column count the scanner delivers. */
  lemma PageFitsBudget(rows: seq<seq<seq<Byte>>>, pageSize: nat, columns: nat)
    requires 100 <= pageSize <= 3000 && columns <= MAX_COLUMNS && |rows| <= pageSize
    requires forall r | 0 <= r < |rows| :: |rows[r]| == columns
    requires forall r, c | 0 <= r < |rows| && 0 <= c < columns :: |rows[r][c]| <= PerCellCap(pageSize, columns)
    ensures PageBytes(rows) <= PAGE_BUDGET
  {
    var cap := PerCellCap(pageSize, columns);
    PageBytesBound(rows, columns, cap);
    if columns > 0 {
      var cells := pageSize * columns;
      CellsBound(pageSize, columns);
      var share := PAGE_BUDGET / cells;
      assert share >= MIN_CELL_BYTES by { QuotientBound(PAGE_BUDGET, cells, MIN_CELL_BYTES); }
      assert cap <= share;
      assert share * cells <= PAGE_BUDGET;
      ProductBound(|rows|, pageSize, columns, cap, share);
    } else {
      assert |rows| * (0 * cap) == 0;
    }
  }

  lemma ProductMono(a: nat, b: nat, c: nat)
    requires a <= b
    ensures a * c <= b * c
  {
    assert (b - a) * c >= 0;
  }

  lemma CellsBound(pageSize: nat, columns: nat)
    requires 1 <= pageSize <= 3000 && 1 <= columns <= MAX_COLUMNS
    ensures 0 < pageSize * columns <= 768000
  {
    ProductMono(pageSize, 3000, columns);
    ProductMono(1, pageSize, columns);
  }

  lemma QuotientBound(total: nat, cells: nat, low: nat)
    requires cells > 0 && low * cells <= total
    ensures total / cells >= low
  {
    if total / cells < low {
      ProductMono(total / cells + 1, low, cells);
    }
  }

  lemma ProductBound(n: nat, pageSize: nat, columns: nat, cap: nat, share: nat)
    requires n <= pageSize && cap <= share && pageSize * columns > 0
    requires share * (pageSize * columns) <= PAGE_BUDGET
    ensures n * (columns * cap) <= PAGE_BUDGET
  {
    ProductMono(n, pageSize, columns * cap);
    ProductMono(cap, share, pageSize * columns);
    Reorder(pageSize, columns, cap);
  }

  lemma Reorder(a: nat, b: nat, c: nat)
    ensures a * (b * c) == c * (a * b)
  {
  }
}
