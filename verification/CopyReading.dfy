/** Reading a copied text back: what each cell was copied as, and what a reader of the text finds. */
module CopyReading {
  import opened TableSource
  import opened CopyText

  // ---- What a cell is copied as --------------------------------------------------------------

  /** The `j`-th value of a row is the one of the given column; without columns it is that of column `j`. */
  predicate Names(columns: seq<int>, j: nat, col: int) {
    if columns == [] then j == col else j < |columns| && columns[j] == col
  }

  /** The `j`-th value of the `i`-th row that was fetched is the one of the given place. */
  predicate Carries(results: seq<(int, RowValues)>, i: nat, j: nat, row: int, col: int) {
    && i < |results| && results[i].0 == row && results[i].1.RowOk?
    && j < |results[i].1.values| && Names(results[i].1.columns, j, col)
  }

  ghost predicate Arrived(results: seq<(int, RowValues)>, row: int, col: int) {
    exists i: nat, j: nat :: Carries(results, i, j, row, col)
  }

  /** It is the last one to arrive for that place. */
  ghost predicate Latest(results: seq<(int, RowValues)>, i: nat, j: nat, row: int, col: int) {
    && Carries(results, i, j, row, col)
    && forall k: nat, l: nat | Carries(results, k, l, row, col) :: k < i || (k == i && l <= j)
  }

  /** A clamped cell is copied as the full value that arrived last for its place, on a single line; any other
      one, and a clamped one without a value, as it is displayed. */
  ghost predicate CopiedAs(cell: CopyCell, results: seq<(int, RowValues)>, text: Text) {
    if cell.clamped && Arrived(results, cell.modelRow, cell.modelCol) then
      exists i: nat, j: nat ::
        Latest(results, i, j, cell.modelRow, cell.modelCol) && text == SingleLine(results[i].1.values[j])
    else text == cell.displayedText
  }

  lemma {:induction false} LatestInRow(row: int, columns: seq<int>, values: seq<Text>, col: int) returns (j: int)
    ensures j == -1 ==>
      (row, col) !in RowMap(row, columns, values) && forall l: nat | l < |values| :: !Names(columns, l, col)
    ensures j != -1 ==>
      && 0 <= j < |values| && Names(columns, j, col)
      && (row, col) in RowMap(row, columns, values) && RowMap(row, columns, values)[(row, col)] == values[j]
      && forall l: nat | l < |values| && Names(columns, l, col) :: l <= j
    decreases |values|
  {
    if values == [] {
      j := -1;
    } else {
      var n := |values| - 1;
      j := LatestInRow(row, columns, values[..n], col);
      if Names(columns, n, col) {
        j := n;
      }
    }
  }

  lemma {:induction false} OtherRows(row: int, columns: seq<int>, values: seq<Text>)
    ensures forall at | at in RowMap(row, columns, values) :: at.0 == row
    decreases |values|
  {
    if values != [] {
      OtherRows(row, columns, values[..|values| - 1]);
    }
  }

  /** What the collected values hold for a place is what arrived last for it. */
  lemma {:induction false} ValueArrives(results: seq<(int, RowValues)>, row: int, col: int) returns (i: int, j: int)
    ensures i == -1 ==> (row, col) !in ValuesOf(results) && !Arrived(results, row, col)
    ensures i != -1 ==>
      && i >= 0 && j >= 0 && Latest(results, i, j, row, col)
      && (row, col) in ValuesOf(results) && ValuesOf(results)[(row, col)] == results[i].1.values[j]
    decreases |results|
  {
    hide Names, RowMap;
    if results == [] {
      i, j := -1, -1;
    } else {
      var n := |results| - 1;
      var (key, last) := results[n];
      i, j := ValueArrives(results[..n], row, col);
      assert forall k: nat, l: nat :: k < n ==>
        (Carries(results[..n], k, l, row, col) <==> Carries(results, k, l, row, col));
      if last.RowOk? {
        OtherRows(key, last.columns, last.values);
        if key == row {
          var l := LatestInRow(row, last.columns, last.values, col);
          if l != -1 {
            i, j := n, l;
            assert Carries(results, n, l, row, col);
          }
        }
      }
      assert i == -1 || Latest(results, i, j, row, col);
    }
  }

  /** The text of a cell is the one it has to be copied as, and there is only one. */
  lemma CellIsCopied(cell: CopyCell, results: seq<(int, RowValues)>, text: Text)
    ensures CopiedAs(cell, results, text) <==> text == RawCellText(cell, ValuesOf(results))
  {
    hide ValuesOf, SingleLine, Carries;
    var i, j := ValueArrives(results, cell.modelRow, cell.modelCol);
    if i != -1 {
      assert Carries(results, i, j, cell.modelRow, cell.modelCol);
    }
  }

  /** The rows reported as incomplete are those with a clamped cell for which nothing arrived. */
  lemma {:induction false} FailedRowsAre(cells: seq<CopyCell>, results: seq<(int, RowValues)>)
    ensures var failed := FailedRows(cells, ValuesOf(results));
      && Ascending(failed)
      && forall row :: row in failed <==> exists c :: c in cells && Unanswered(c, results) && c.modelRow == row
    decreases |cells|
  {
    hide ValuesOf, Unanswered, InsertInt;
    if cells != [] {
      var n := |cells| - 1;
      FailedRowsAre(cells[..n], results);
      assert cells == cells[..n] + [cells[n]];
      NoValue(cells[n], results);
      InsertIntAscends(cells[n].modelRow, FailedRows(cells[..n], ValuesOf(results)));
    }
  }

  ghost predicate Unanswered(c: CopyCell, results: seq<(int, RowValues)>) {
    c.clamped && !Arrived(results, c.modelRow, c.modelCol)
  }

  lemma NoValue(c: CopyCell, results: seq<(int, RowValues)>)
    ensures Unanswered(c, results) <==> c.clamped && (c.modelRow, c.modelCol) !in ValuesOf(results)
  {
    hide ValuesOf, Carries;
    var i, j := ValueArrives(results, c.modelRow, c.modelCol);
    if i != -1 {
      assert Carries(results, i, j, c.modelRow, c.modelCol);
    }
  }

  // ---- Splitting -----------------------------------------------------------------------------

  /** The pieces between the separators. */
  function Split(t: Text, at: Unit): (pieces: seq<Text>)
    ensures |pieces| >= 1
  {
    if t == [] then [[]]
    else
      var rest := Split(t[1..], at);
      if t[0] == at then [[]] + rest else [[t[0]] + rest[0]] + rest[1..]
  }

  lemma SplitHead(u: Unit, t: Text, at: Unit)
    ensures Split([u] + t, at) ==
      if u == at then [[]] + Split(t, at) else [[u] + Split(t, at)[0]] + Split(t, at)[1..]
  {
    assert ([u] + t)[1..] == t;
  }

  lemma SplitNothing(at: Unit)
    ensures Split([], at) == [[]]
  {
  }

  lemma PrependJoins(u: Unit, pieces: seq<Text>, more: seq<Text>)
    requires pieces != []
    ensures [[]] + (pieces + more) == [[]] + pieces + more
    ensures [[u] + (pieces + more)[0]] + (pieces + more)[1..] == [[u] + pieces[0]] + pieces[1..] + more
  {
    assert (pieces + more)[1..] == pieces[1..] + more;
  }

  lemma {:induction false} SplitJoins(a: Text, b: Text, at: Unit)
    ensures Split(a + [at] + b, at) == Split(a, at) + Split(b, at)
  {
    hide Split;
    if a == [] {
      SplitNothing(at);
      assert a + [at] + b == [at] + b;
      SplitHead(at, b, at);
    } else {
      var u, more := a[0], a[1..];
      assert a == [u] + more && a + [at] + b == [u] + (more + [at] + b);
      SplitJoins(more, b, at);
      SplitHead(u, more, at);
      SplitHead(u, more + [at] + b, at);
      PrependJoins(u, Split(more, at), Split(b, at));
    }
  }

  lemma {:induction false} SplitWhole(a: Text, at: Unit)
    requires at !in a
    ensures Split(a, at) == [a]
  {
    if a != [] {
      assert a == [a[0]] + a[1..];
      SplitWhole(a[1..], at);
    }
  }

  /** Text without the separator stays in one piece with what follows it. */
  lemma {:induction false} SplitPrefix(a: Text, b: Text, at: Unit)
    requires at !in a
    ensures Split(a + b, at) == [a + Split(b, at)[0]] + Split(b, at)[1..]
  {
    hide Split;
    var pieces := Split(b, at);
    if a == [] {
      assert a + b == b && a + pieces[0] == pieces[0];
    } else {
      var u, more := a[0], a[1..];
      assert a == [u] + more && a + b == [u] + (more + b);
      SplitPrefix(more, b, at);
      SplitHead(u, more + b, at);
      assert ([more + pieces[0]] + pieces[1..])[1..] == pieces[1..];
      assert [u] + (more + pieces[0]) == a + pieces[0];
    }
  }

  /** No piece holds the separator, and the pieces hold nothing new. */
  lemma {:induction false} PiecesAreClean(t: Text, at: Unit)
    ensures forall p | p in Split(t, at) :: at !in p
    ensures forall p, u | p in Split(t, at) && u in p :: u in t
  {
    if t != [] {
      PiecesAreClean(t[1..], at);
      var rest := Split(t[1..], at);
      assert rest[0] in rest;
      forall p | p in Split(t, at) ensures at !in p && forall u | u in p :: u in t {
        if p in rest {
        } else if t[0] != at {
          assert p == [t[0]] + rest[0];
        }
      }
    }
  }

  // ---- Plain text ----------------------------------------------------------------------------

  /** Lines of fields. */
  function ReadPlain(t: Text): (lines: seq<seq<Text>>)
    ensures |lines| >= 1
  {
    var lines := Split(t, LF);
    seq(|lines|, i requires 0 <= i < |lines| => Split(lines[i], TAB))
  }

  /** One line for every row of the selection, in order, with one field for every cell of the row, in order,
      holding what the cell is copied as. */
  ghost predicate ReadsAs(lines: seq<seq<Text>>, cells: seq<CopyCell>, results: seq<(int, RowValues)>) {
    if cells == [] || lines == [] then cells == [] && lines == []
    else
      var n := |lines[0]|;
      && 0 < n <= |cells|
      && (forall k | 0 <= k < n :: cells[k].visRow == cells[0].visRow && CopiedAs(cells[k], results, lines[0][k]))
      && (n < |cells| ==> cells[n].visRow != cells[0].visRow)
      && ReadsAs(lines[1..], cells[n..], results)
  }

  /** No cell is copied as a text with a separator. */
  ghost predicate Separable(cells: seq<CopyCell>, results: seq<(int, RowValues)>) {
    forall c, t | c in cells && CopiedAs(c, results, t) :: TAB !in t && LF !in t
  }

  /** A plain text begins with its first cell. */
  lemma {:induction false} PlainCons(cells: seq<CopyCell>, refetched: Refetched)
    requires |cells| > 1
    ensures PlainOf(cells, refetched) == RawCellText(cells[0], refetched)
        + [if cells[1].visRow != cells[0].visRow then LF else TAB] + PlainOf(cells[1..], refetched)
    decreases |cells|
  {
    hide RawCellText;
    var n := |cells| - 1;
    if n > 1 {
      PlainCons(cells[..n], refetched);
      assert cells[..n][1..] == cells[1..][..n - 1];
    } else {
      assert cells[..1] == [cells[0]] && cells[1..] == [cells[1]];
    }
  }

  /** A line break begins a line, and a tab a field of the first one. */
  lemma PlainStep(first: Text, rest: Text)
    requires TAB !in first && LF !in first
    ensures ReadPlain(first + [LF] + rest) == [[first]] + ReadPlain(rest)
    ensures ReadPlain(first + [TAB] + rest) == [[first] + ReadPlain(rest)[0]] + ReadPlain(rest)[1..]
  {
    SplitJoins(first, rest, LF);
    SplitWhole(first, LF);
    SplitWhole(first, TAB);
    SplitPrefix(first + [TAB], rest, LF);
    SplitJoins(first, Split(rest, LF)[0], TAB);
  }

  lemma {:induction false} PlainReads(cells: seq<CopyCell>, results: seq<(int, RowValues)>)
    requires cells != [] && Separable(cells, results)
    ensures ReadsAs(ReadPlain(PlainOf(cells, ValuesOf(results))), cells, results)
    decreases |cells|
  {
    hide CopiedAs, ValuesOf, RawCellText, ReadPlain, PlainOf, ReadsAs;
    var refetched := ValuesOf(results);
    var first := RawCellText(cells[0], refetched);
    CellIsCopied(cells[0], results, first);
    if |cells| == 1 {
      OneCell(first);
      OneRead(first, cells, results);
    } else {
      PlainReads(cells[1..], results);
      PlainCons(cells, refetched);
      PlainStep(first, PlainOf(cells[1..], refetched));
      ReadsOn(first, ReadPlain(PlainOf(cells[1..], refetched)), cells, results);
    }
  }

  /** One more cell before a grid: on a line of its own, or on the first one. */
  lemma ReadsOn(first: Text, lines: seq<seq<Text>>, cells: seq<CopyCell>, results: seq<(int, RowValues)>)
    requires |cells| > 1 && lines != [] && ReadsAs(lines, cells[1..], results) && CopiedAs(cells[0], results, first)
    ensures cells[1].visRow != cells[0].visRow ==> ReadsAs([[first]] + lines, cells, results)
    ensures cells[1].visRow == cells[0].visRow ==>
      ReadsAs([[first] + lines[0]] + lines[1..], cells, results)
  {
    hide CopiedAs;
    if cells[1].visRow == cells[0].visRow {
      var n := |lines[0]|;
      assert cells[1..][n..] == cells[n + 1..];
      var joined := [[first] + lines[0]] + lines[1..];
      assert joined[1..] == lines[1..];
      forall k | 0 <= k < n + 1
        ensures cells[k].visRow == cells[0].visRow && CopiedAs(cells[k], results, joined[0][k])
      {
        assert k > 0 ==> cells[k] == cells[1..][k - 1] && joined[0][k] == lines[0][k - 1];
      }
    } else {
      assert ([[first]] + lines)[1..] == lines;
    }
  }

  lemma OneRead(first: Text, cells: seq<CopyCell>, results: seq<(int, RowValues)>)
    requires |cells| == 1 && CopiedAs(cells[0], results, first)
    ensures PlainOf(cells, ValuesOf(results)) == RawCellText(cells[0], ValuesOf(results))
    ensures ReadsAs([[first]], cells, results)
  {
    hide CopiedAs, ValuesOf, RawCellText;
    assert ReadsAs([], cells[1..], results);
  }

  lemma OneCell(first: Text)
    requires TAB !in first && LF !in first
    ensures ReadPlain(first) == [[first]]
  {
    SplitWhole(first, LF);
    SplitWhole(first, TAB);
  }

  lemma FieldsAreClean(t: Text)
    ensures forall line, field | line in ReadPlain(t) && field in line :: TAB !in field && LF !in field
  {
    PiecesAreClean(t, LF);
    forall i | 0 <= i < |Split(t, LF)| ensures forall f | f in Split(Split(t, LF)[i], TAB) :: TAB !in f && LF !in f {
      PiecesAreClean(Split(t, LF)[i], TAB);
      assert Split(t, LF)[i] in Split(t, LF);
    }
  }

  lemma {:induction false} ReadIsSeparable(lines: seq<seq<Text>>, cells: seq<CopyCell>, results: seq<(int, RowValues)>)
    requires ReadsAs(lines, cells, results)
    requires forall line, field | line in lines && field in line :: TAB !in field && LF !in field
    ensures Separable(cells, results)
  {
    hide CopiedAs;
    if cells != [] {
      var n := |lines[0]|;
      ReadIsSeparable(lines[1..], cells[n..], results);
      forall c, t | c in cells && CopiedAs(c, results, t) ensures TAB !in t && LF !in t {
        var k :| 0 <= k < |cells| && cells[k] == c;
        if k < n {
          CellIsCopied(c, results, t);
          CellIsCopied(c, results, lines[0][k]);
          assert lines[0][k] in lines[0] && lines[0] in lines;
        } else {
          assert c == cells[n..][k - n];
        }
      }
    }
  }

  /** A plain copy, split at line feeds and tabs, is the grid of the selection, exactly if no cell is copied as
      a text with a tab or a line feed. */
  lemma PlainReadsBack(cells: seq<CopyCell>, results: seq<(int, RowValues)>)
    requires cells != []
    ensures ReadsAs(ReadPlain(PlainOf(cells, ValuesOf(results))), cells, results) <==> Separable(cells, results)
  {
    hide ReadsAs, Separable, ReadPlain, PlainOf, ValuesOf;
    var text := PlainOf(cells, ValuesOf(results));
    if Separable(cells, results) {
      PlainReads(cells, results);
    }
    if ReadsAs(ReadPlain(text), cells, results) {
      FieldsAreClean(text);
      ReadIsSeparable(ReadPlain(text), cells, results);
    }
  }

  /** The part of the text from `place.0` up to `place.1` is what the cell is copied as. */
  ghost predicate Placed(text: Text, place: (nat, nat), cell: CopyCell, results: seq<(int, RowValues)>) {
    place.0 <= place.1 <= |text| && CopiedAs(cell, results, text[place.0..place.1])
  }

  /** One unit lies between two neighbours: a line feed where the row changes, otherwise a tab. */
  ghost predicate Parted(text: Text, place: (nat, nat), next: (nat, nat), cell: CopyCell, after: CopyCell) {
    && place.1 < |text| && next.0 == place.1 + 1
    && text[place.1] == if after.visRow != cell.visRow then LF else TAB
  }

  /** The cells lie in the text one behind the other. */
  ghost predicate PlainLaid(text: Text, cells: seq<CopyCell>, results: seq<(int, RowValues)>,
                            places: seq<(nat, nat)>) {
    && |places| == |cells| > 0 && places[0].0 == 0 && places[|cells| - 1].1 == |text|
    && (forall k | 0 <= k < |cells| :: Placed(text, places[k], cells[k], results))
    && (forall k | 0 < k < |cells| :: Parted(text, places[k - 1], places[k], cells[k - 1], cells[k]))
  }

  /** More text behind it moves nothing. */
  lemma MoreText(text: Text, more: Text, cells: seq<CopyCell>, results: seq<(int, RowValues)>,
                 places: seq<(nat, nat)>)
    requires PlainLaid(text, cells, results, places)
    ensures forall k | 0 <= k < |cells| :: Placed(text + more, places[k], cells[k], results)
    ensures forall k | 0 < k < |cells| :: Parted(text + more, places[k - 1], places[k], cells[k - 1], cells[k])
  {
    hide CopiedAs;
    forall k | 0 <= k < |cells| ensures Placed(text + more, places[k], cells[k], results) {
      assert Placed(text, places[k], cells[k], results);
      assert (text + more)[places[k].0..places[k].1] == text[places[k].0..places[k].1];
    }
  }

  lemma LaidBehind(front: Text, unit: Unit, last: Text, cells: seq<CopyCell>, results: seq<(int, RowValues)>,
                   before: seq<(nat, nat)>)
    requires |cells| > 1 && PlainLaid(front, cells[..|cells| - 1], results, before)
    requires unit == if cells[|cells| - 1].visRow != cells[|cells| - 2].visRow then LF else TAB
    requires CopiedAs(cells[|cells| - 1], results, last)
    ensures PlainLaid(front + [unit] + last, cells, results, before + [(|front| + 1, |front| + 1 + |last|)])
  {
    hide CopiedAs, Placed, Parted;
    var n, text := |cells| - 1, front + [unit] + last;
    var places := before + [(|front| + 1, |text|)];
    MoreText(front, [unit] + last, cells[..n], results, before);
    assert front + ([unit] + last) == text;
    LastPlaced(front, unit, last, cells[n], results);
    LastParted(front, unit, last, places[n - 1], cells[n - 1], cells[n]);
    forall k | 0 <= k < |cells| ensures Placed(text, places[k], cells[k], results) {
      assert k < n ==> Placed(text, before[k], cells[..n][k], results);
    }
    forall k | 0 < k < |cells| ensures Parted(text, places[k - 1], places[k], cells[k - 1], cells[k]) {
      assert k < n ==> Parted(text, before[k - 1], before[k], cells[..n][k - 1], cells[..n][k]);
    }
  }

  lemma LastPlaced(front: Text, unit: Unit, last: Text, cell: CopyCell, results: seq<(int, RowValues)>)
    requires CopiedAs(cell, results, last)
    ensures Placed(front + [unit] + last, (|front| + 1, |front| + 1 + |last|), cell, results)
  {
    hide CopiedAs;
    assert (front + [unit] + last)[|front| + 1..|front| + 1 + |last|] == last;
  }

  lemma LastParted(front: Text, unit: Unit, last: Text, place: (nat, nat), cell: CopyCell, after: CopyCell)
    requires place.1 == |front| && unit == if after.visRow != cell.visRow then LF else TAB
    ensures Parted(front + [unit] + last, place, (|front| + 1, |front| + 1 + |last|), cell, after)
  {
  }

  /** Whatever the cells hold. */
  lemma {:induction false} PlainIsLaid(cells: seq<CopyCell>, results: seq<(int, RowValues)>)
    returns (places: seq<(nat, nat)>)
    requires cells != []
    ensures PlainLaid(PlainOf(cells, ValuesOf(results)), cells, results, places)
    decreases |cells|
  {
    hide CopiedAs, ValuesOf, RawCellText;
    var n, refetched := |cells| - 1, ValuesOf(results);
    var last := RawCellText(cells[n], refetched);
    CellIsCopied(cells[n], results, last);
    if n == 0 {
      places := [(0, |last|)];
      assert last[0..|last|] == last;
    } else {
      var before := PlainIsLaid(cells[..n], results);
      var front, unit := PlainOf(cells[..n], refetched), if cells[n].visRow != cells[n - 1].visRow then LF else TAB;
      LaidBehind(front, unit, last, cells, results, before);
      places := before + [(|front| + 1, |front| + 1 + |last|)];
    }
  }

  // ---- Markdown ------------------------------------------------------------------------------

  predicate EndsInBackslash(t: Text) {
    t != [] && t[|t| - 1] == BACKSLASH
  }

  /** The cells of a table row behind its first bar: each ends at a bar, unless a backslash stands right before the
      bar, which then is part of the cell; `open` is what the first cell has begun with. */
  function Cells(t: Text, open: Text): seq<Text> {
    if t == [] then []
    else if t[0] == BACKSLASH && |t| > 1 && t[1] == BAR then Cells(t[2..], open + [BAR])
    else if t[0] == BAR then [open] + Cells(t[1..], [])
    else Cells(t[1..], open + [t[0]])
  }

  lemma EscapedStep(u: Unit, t: Text)
    ensures Escaped([u] + t) == (if u == BAR then [BACKSLASH, BAR] else [u]) + Escaped(t)
  {
    assert ([u] + t)[1..] == t;
  }

  /** Escaping puts a backslash before every bar and changes nothing else. */
  lemma {:induction false} EscapedJoins(a: Text, b: Text)
    ensures Escaped(a + b) == Escaped(a) + Escaped(b)
    ensures forall u: Unit :: Escaped([u]) == if u == BAR then [BACKSLASH, BAR] else [u]
  {
    EscapedUnits();
    hide Escaped;
    if a == [] {
      assert a + b == b;
    } else {
      EscapedJoins(a[1..], b);
      EscapedStep(a[0], a[1..]);
      EscapedStep(a[0], a[1..] + b);
      assert a == [a[0]] + a[1..] && a + b == [a[0]] + (a[1..] + b);
    }
  }

  lemma EscapedUnits()
    ensures Escaped([]) == [] && forall u: Unit :: Escaped([u]) == if u == BAR then [BACKSLASH, BAR] else [u]
  {
    forall u: Unit ensures Escaped([u]) == if u == BAR then [BACKSLASH, BAR] else [u] {
      EscapedStep(u, []);
      assert [u] + [] == [u];
    }
  }

  lemma CellsStep(u: Unit, t: Text, open: Text)
    ensures Cells([BACKSLASH, BAR] + t, open) == Cells(t, open + [BAR])
    ensures Cells([BAR] + t, open) == [open] + Cells(t, [])
    ensures u != BAR && (u == BACKSLASH ==> t == [] || t[0] != BAR) ==> Cells([u] + t, open) == Cells(t, open + [u])
  {
    assert ([BACKSLASH, BAR] + t)[2..] == t && ([BAR] + t)[1..] == t && ([u] + t)[1..] == t;
  }

  /** A reader finds the text that was escaped, unless its last backslash falls on the bar behind it. */
  lemma {:induction false} EscapedReads(t: Text, rest: Text, open: Text)
    requires EndsInBackslash(t) ==> rest == [] || rest[0] != BAR
    ensures Cells(Escaped(t) + rest, open) == Cells(rest, open + t)
  {
    EscapedUnits();
    hide Cells, Escaped;
    if t == [] {
      assert Escaped(t) + rest == rest && open + t == open;
    } else {
      var u, more := t[0], t[1..];
      assert t == [u] + more && open + [u] + more == open + t;
      EscapedReads(more, rest, open + [u]);
      EscapedStep(u, more);
      assert Escaped(t) + rest == (if u == BAR then [BACKSLASH, BAR] else [u]) + (Escaped(more) + rest);
      if more != [] {
        EscapedBegins(more);
      }
      CellsStep(u, Escaped(more) + rest, open);
    }
  }

  lemma EscapedBegins(t: Text)
    requires t != []
    ensures Escaped(t) != [] && Escaped(t)[0] != BAR
  {
  }

  /** Such a backslash makes the bar part of the text, and the next cell with it. */
  lemma TrailingBackslashMerges(t: Text, rest: Text, open: Text)
    requires EndsInBackslash(t)
    ensures Cells(Escaped(t) + [BAR] + rest, open) == Cells(rest, open + t[..|t| - 1] + [BAR])
  {
    var init := t[..|t| - 1];
    assert t == init + [BACKSLASH];
    EscapedJoins(init, [BACKSLASH]);
    var tail := [BACKSLASH, BAR] + rest;
    assert Escaped(t) + [BAR] + rest == Escaped(init) + tail;
    EscapedReads(init, tail, open);
    assert tail[2..] == rest;
  }

  /** A cell of the text: the first one of the selection at its place, or a space. */
  ghost predicate ShownAt(cells: seq<CopyCell>, results: seq<(int, RowValues)>, row: int, col: int, text: Text) {
    if exists k :: At(cells, k, row, col) then
      exists k :: At(cells, k, row, col) && (forall l | At(cells, l, row, col) :: k <= l) &&
          CopiedAs(cells[k], results, text)
    else text == [SPACE]
  }

  predicate At(cells: seq<CopyCell>, k: int, row: int, col: int) {
    0 <= k < |cells| && cells[k].visRow == row && cells[k].visCol == col
  }

  /** A column's heading: the one of its first cell, on a single line. */
  ghost predicate HeadedBy(cells: seq<CopyCell>, col: int, text: Text) {
    exists k :: InColumn(cells, k, col) && (forall l | InColumn(cells, l, col) :: k <= l) &&
        text == SingleLine(cells[k].headerText)
  }

  predicate InColumn(cells: seq<CopyCell>, k: int, col: int) {
    0 <= k < |cells| && cells[k].visCol == col
  }

  lemma {:induction false} FindFirst(cells: seq<CopyCell>, row: int, col: int) returns (k: int)
    ensures k == -1 ==> Find(cells, row, col) == None && forall l :: !At(cells, l, row, col)
    ensures k != -1 ==>
      At(cells, k, row, col) && Find(cells, row, col) == Some(cells[k]) && forall l | At(cells, l, row, col) :: k <= l
  {
    if cells == [] {
      k := -1;
    } else if At(cells, 0, row, col) {
      k := 0;
    } else {
      k := FindFirst(cells[1..], row, col);
      k := if k == -1 then -1 else k + 1;
      forall l | At(cells, l, row, col) ensures k != -1 && k <= l {
        assert At(cells[1..], l - 1, row, col);
      }
    }
  }

  /** The text of a place is the one a reader has to find, and there is only one. */
  lemma ShownIs(cells: seq<CopyCell>, results: seq<(int, RowValues)>, row: int, col: int, text: Text)
    ensures ShownAt(cells, results, row, col, text) <==> text == GridText(cells, row, col, ValuesOf(results))
  {
    hide CopiedAs, RawCellText, ValuesOf, At;
    var k := FindFirst(cells, row, col);
    if k != -1 {
      assert 0 <= k < |cells| by {
        AtBounds(cells, k, row, col);
      }
      CellIsCopied(cells[k], results, text);
      CellIsCopied(cells[k], results, RawCellText(cells[k], ValuesOf(results)));
    }
  }

  lemma AtBounds(cells: seq<CopyCell>, k: int, row: int, col: int)
    requires At(cells, k, row, col)
    ensures 0 <= k < |cells|
  {
  }

  lemma {:induction false} HeadingFirst(cells: seq<CopyCell>, col: int) returns (k: int)
    requires exists c :: c in cells && c.visCol == col
    ensures InColumn(cells, k, col) && FindHeader(cells, col) == SingleLine(cells[k].headerText)
    ensures forall l | InColumn(cells, l, col) :: k <= l
  {
    if cells[0].visCol == col {
      k := 0;
    } else {
      assert cells == [cells[0]] + cells[1..];
      k := HeadingFirst(cells[1..], col);
      k := k + 1;
      forall l | InColumn(cells, l, col) ensures k <= l {
        assert InColumn(cells[1..], l - 1, col);
      }
    }
  }

  lemma HeadingIs(cells: seq<CopyCell>, col: int, text: Text)
    requires exists c :: c in cells && c.visCol == col
    ensures HeadedBy(cells, col, text) <==> text == FindHeader(cells, col)
  {
    hide SingleLine;
    var k := HeadingFirst(cells, col);
    if HeadedBy(cells, col, text) {
      var l :| InColumn(cells, l, col) && (forall m | InColumn(cells, m, col) :: l <= m) &&
        text == SingleLine(cells[l].headerText);
      assert l == k;
    }
  }

  /** A row of the table: a cell for each column. */
  ghost predicate RowReads(line: Text, cells: seq<CopyCell>, results: seq<(int, RowValues)>, row: int,
                           cols: seq<int>) {
    && line != [] && line[0] == BAR
    && var read := Cells(line[1..], []);
       |read| == |cols| && forall j | 0 <= j < |cols| :: ShownAt(cells, results, row, cols[j], read[j])
  }

  ghost predicate HeadReads(line: Text, cells: seq<CopyCell>, cols: seq<int>) {
    && line != [] && line[0] == BAR
    && var read := Cells(line[1..], []);
       |read| == |cols| && forall j | 0 <= j < |cols| :: HeadedBy(cells, cols[j], read[j])
  }

  /** The line below the headings. */
  predicate IsRule(line: Text, columns: nat) {
    |line| == 4 * columns + 1 && forall k | 0 <= k < |line| :: line[k] == if k % 4 == 0 then BAR else DASH
  }

  /** What stands behind the rows, line by line. */
  function Tail(truncated: bool): seq<Text> {
    if truncated then
      [[], [], Ascii("*(Truncated: Only first 1000 ") + Ascii("selected rows were copied ") + Ascii("as Markdown)*")]
    else [[]]
  }

  /** The rows and columns of the selection. */
  ghost predicate Axes(cells: seq<CopyCell>, rows: seq<int>, cols: seq<int>) {
    && Ascending(rows) && (forall y :: y in rows <==> exists c :: c in cells && c.visRow == y)
    && Ascending(cols) && (forall y :: y in cols <==> exists c :: c in cells && c.visCol == y)
  }

  function FirstRows(rows: seq<int>): seq<int> {
    if |rows| > 1000 then rows[..1000] else rows
  }

  /** Headings, rule, one line for each of the first 1000 rows, and a note if there are more. */
  ghost predicate TableReads(text: Text, cells: seq<CopyCell>, results: seq<(int, RowValues)>,
                             rows: seq<int>, cols: seq<int>) {
    var lines, shown := Split(text, LF), FirstRows(rows);
    && |lines| >= 2 + |shown|
    && HeadReads(lines[0], cells, cols) && IsRule(lines[1], |cols|)
    && (forall i | 0 <= i < |shown| :: RowReads(lines[2 + i], cells, results, shown[i], cols))
    && lines[2 + |shown|..] == Tail(|rows| > 1000)
  }

  /** No heading ends in a backslash, and no cell that is shown holds a line feed or ends in a backslash. */
  ghost predicate Tabulable(cells: seq<CopyCell>, results: seq<(int, RowValues)>, rows: seq<int>, cols: seq<int>) {
    && (forall col, t | col in cols && HeadedBy(cells, col, t) :: !EndsInBackslash(t))
    && (forall row, col, t | row in FirstRows(rows) && col in cols && ShownAt(cells, results, row, col, t) ::
          LF !in t && !EndsInBackslash(t))
  }

  /** A row of the table with the given texts. */
  function TableRow(texts: seq<Text>): Text {
    if texts == [] then [BAR] else TableRow(texts[..|texts| - 1]) + Escaped(texts[|texts| - 1]) + [BAR]
  }

  function GridTexts(cells: seq<CopyCell>, row: int, cols: seq<int>, refetched: Refetched): (t: seq<Text>)
    ensures |t| == |cols| && forall j | 0 <= j < |cols| :: t[j] == GridText(cells, row, cols[j], refetched)
  {
    seq(|cols|, j requires 0 <= j < |cols| => GridText(cells, row, cols[j], refetched))
  }

  function Headings(cells: seq<CopyCell>, cols: seq<int>): (t: seq<Text>)
    ensures |t| == |cols| && forall j | 0 <= j < |cols| :: t[j] == FindHeader(cells, cols[j])
  {
    seq(|cols|, j requires 0 <= j < |cols| => FindHeader(cells, cols[j]))
  }

  lemma {:induction false} GridRowIs(cells: seq<CopyCell>, row: int, cols: seq<int>, refetched: Refetched)
    ensures GridRow(cells, row, cols, refetched) == TableRow(GridTexts(cells, row, cols, refetched))
    decreases |cols|
  {
    hide GridText, Escaped;
    if cols != [] {
      var front := cols[..|cols| - 1];
      GridRowIs(cells, row, front, refetched);
      assert GridTexts(cells, row, cols, refetched)[..|cols| - 1] == GridTexts(cells, row, front, refetched);
    }
  }

  lemma {:induction false} HeaderLineIs(cells: seq<CopyCell>, cols: seq<int>)
    ensures HeaderLine(cells, cols) == TableRow(Headings(cells, cols))
    decreases |cols|
  {
    hide FindHeader, Escaped;
    if cols != [] {
      var front := cols[..|cols| - 1];
      HeaderLineIs(cells, front);
      assert Headings(cells, cols)[..|cols| - 1] == Headings(cells, front);
    }
  }

  lemma RowGoesOn(row: Text, cell: Text, rest: Text)
    requires row != []
    ensures (row + cell + [BAR])[1..] + rest == row[1..] + (cell + [BAR] + rest)
  {
  }

  /** Reading a table row gives its texts. */
  lemma {:induction false} TableRowReads(texts: seq<Text>, rest: Text)
    requires forall j | 0 <= j < |texts| :: !EndsInBackslash(texts[j])
    ensures TableRow(texts) != [] && TableRow(texts)[0] == BAR
    ensures Cells(TableRow(texts)[1..] + rest, []) == texts + Cells(rest, [])
    decreases |texts|
  {
    hide Escaped, EndsInBackslash, Cells;
    if texts == [] {
      assert [BAR][1..] + rest == rest;
    } else {
      var front, last := texts[..|texts| - 1], texts[|texts| - 1];
      TableRowReads(front, Escaped(last) + [BAR] + rest);
      RowGoesOn(TableRow(front), Escaped(last), rest);
      CellReads(last, rest);
      assert texts == front + [last];
    }
  }

  lemma CellReads(text: Text, rest: Text)
    requires !EndsInBackslash(text)
    ensures Cells(Escaped(text) + [BAR] + rest, []) == [text] + Cells(rest, [])
  {
    hide Escaped;
    EscapedReads(text, [BAR] + rest, []);
    assert Escaped(text) + [BAR] + rest == Escaped(text) + ([BAR] + rest);
    assert ([BAR] + rest)[1..] == rest && [] + text == text;
  }

  lemma {:induction false} EscapedKeepsLine(t: Text)
    requires LF !in t
    ensures LF !in Escaped(t)
  {
    if t != [] {
      assert t == [t[0]] + t[1..];
      EscapedKeepsLine(t[1..]);
    }
  }

  lemma {:induction false} TableRowKeepsLine(texts: seq<Text>)
    requires forall j | 0 <= j < |texts| :: LF !in texts[j]
    ensures LF !in TableRow(texts)
    decreases |texts|
  {
    hide Escaped;
    if texts != [] {
      TableRowKeepsLine(texts[..|texts| - 1]);
      EscapedKeepsLine(texts[|texts| - 1]);
    }
  }

  /** Each row of the grid is a line of its own. */
  lemma {:induction false} GridSplits(cells: seq<CopyCell>, rows: seq<int>, cols: seq<int>, refetched: Refetched,
                                      rest: Text)
    requires forall i | 0 <= i < |rows| :: LF !in GridRow(cells, rows[i], cols, refetched)
    ensures var lines := Split(Grid(cells, rows, cols, refetched) + rest, LF);
      && |lines| == |rows| + |Split(rest, LF)| && lines[|rows|..] == Split(rest, LF)
      && forall i | 0 <= i < |rows| :: lines[i] == GridRow(cells, rows[i], cols, refetched)
    decreases |rows|
  {
    hide GridRow, Split;
    if rows == [] {
      assert Grid(cells, rows, cols, refetched) + rest == rest;
    } else {
      var n := |rows| - 1;
      var line, front := GridRow(cells, rows[n], cols, refetched), Grid(cells, rows[..n], cols, refetched);
      assert Grid(cells, rows, cols, refetched) + rest == front + (line + [LF] + rest);
      GridSplits(cells, rows[..n], cols, refetched, line + [LF] + rest);
      SplitJoins(line, rest, LF);
      SplitWhole(line, LF);
      var lines := Split(front + (line + [LF] + rest), LF);
      assert lines[n..] == [line] + Split(rest, LF);
      assert lines[n] == lines[n..][0];
      assert lines[|rows|..] == lines[n..][1..];
    }
  }

  lemma {:induction false} RuleLineIs(columns: nat)
    ensures IsRule(RuleLine(columns), columns) && LF !in RuleLine(columns)
  {
    if columns > 0 {
      RuleLineIs(columns - 1);
      var front, line := RuleLine(columns - 1), RuleLine(columns);
      assert (4 * columns) % 4 == 0;
      forall k | 0 <= k < |line| ensures line[k] == if k % 4 == 0 then BAR else DASH {
        if k < |front| {
          assert line[k] == front[k];
        }
      }
    }
  }

  lemma AsciiKeepsLine(s: string)
    requires '\n' !in s
    ensures LF !in Ascii(s)
  {
    assert forall i | 0 <= i < |s| :: s[i] in s;
  }

  lemma TailSplits(truncated: bool)
    ensures Split(if truncated then TRUNCATED_NOTE else [], LF) == Tail(truncated)
  {
    hide Split;
    SplitNothing(LF);
    if truncated {
      AsciiKeepsLine("*(Truncated: Only first 1000 ");
      AsciiKeepsLine("selected rows were copied ");
      AsciiKeepsLine("as Markdown)*");
      var note := Tail(true)[2];
      SplitWhole(note, LF);
      assert TRUNCATED_NOTE == [LF] + ([LF] + note);
      SplitHead(LF, note, LF);
      SplitHead(LF, [LF] + note, LF);
    }
  }

  lemma HasHead(a: seq<int>)
    ensures a == [] || exists y :: y in a
  {
    if a != [] {
      var y := a[0];
      assert y in a;
    }
  }

  lemma {:induction false} AscendingIsUnique(a: seq<int>, b: seq<int>)
    requires Ascending(a) && Ascending(b) && forall y :: y in a <==> y in b
    ensures a == b
  {
    if a == [] || b == [] {
      HasHead(a);
      HasHead(b);
    } else {
      assert a[0] in a && b[0] in b;
      assert a == [a[0]] + a[1..] && b == [b[0]] + b[1..];
      assert a[0] in b && b[0] in a;
      var i :| 0 <= i < |b| && b[i] == a[0];
      var j :| 0 <= j < |a| && a[j] == b[0];
      assert a[0] == b[0];
      forall y ensures y in a[1..] <==> y in b[1..] {
        assert y in a <==> y == a[0] || y in a[1..];
        assert y in b <==> y == b[0] || y in b[1..];
        assert a[0] !in a[1..] && b[0] !in b[1..];
      }
      AscendingIsUnique(a[1..], b[1..]);
    }
  }

  /** No cell that is read ends in a backslash, and it holds nothing but what the line holds. */
  lemma {:induction false} CellsAreClean(t: Text, open: Text)
    requires EndsInBackslash(open) ==> t == [] || t[0] != BAR
    ensures forall c | c in Cells(t, open) :: !EndsInBackslash(c)
    ensures forall c, u | c in Cells(t, open) && u in c :: u in t || u in open || u == BAR
  {
    if t == [] {
    } else if t[0] == BACKSLASH && |t| > 1 && t[1] == BAR {
      CellsAreClean(t[2..], open + [BAR]);
    } else if t[0] == BAR {
      CellsAreClean(t[1..], []);
    } else {
      CellsAreClean(t[1..], open + [t[0]]);
    }
  }

  lemma AxesAre(cells: seq<CopyCell>, rows: seq<int>, cols: seq<int>)
    requires Axes(cells, rows, cols)
    ensures rows == RowsOf(cells) && cols == ColsOf(cells)
  {
    hide Ascending, RowsOf, ColsOf;
    GridAxes(cells);
    AscendingIsUnique(rows, RowsOf(cells));
    AscendingIsUnique(cols, ColsOf(cells));
  }

  lemma SplitsOff(line: Text, body: Text)
    requires LF !in line
    ensures Split(line + [LF] + body, LF) == [line] + Split(body, LF)
  {
    SplitJoins(line, body, LF);
    SplitWhole(line, LF);
  }

  lemma HeadIsRead(cells: seq<CopyCell>, cols: seq<int>)
    requires forall col | col in cols :: exists c :: c in cells && c.visCol == col
    ensures LF !in HeaderLine(cells, cols)
    ensures HeadReads(HeaderLine(cells, cols), cells, cols) <==>
      forall col, t | col in cols && HeadedBy(cells, col, t) :: !EndsInBackslash(t)
  {
    hide HeaderLine, TableRow, Cells, HeadedBy, EndsInBackslash, FindHeader;
    var line, texts := HeaderLine(cells, cols), Headings(cells, cols);
    HeaderLineIs(cells, cols);
    forall j | 0 <= j < |cols| ensures HeadedBy(cells, cols[j], texts[j]) && LF !in texts[j] {
      assert cols[j] in cols;
      HeadingIs(cells, cols[j], texts[j]);
      HeadingKeepsLine(cells, cols[j]);
    }
    TableRowKeepsLine(texts);
    if forall col, t | col in cols && HeadedBy(cells, col, t) :: !EndsInBackslash(t) {
      TableRowReads(texts, []);
      assert line[1..] + [] == line[1..] && texts + Cells([], []) == texts by {
        NothingRead();
      }
    }
    if HeadReads(line, cells, cols) {
      OpensOpen();
      CellsAreClean(line[1..], []);
      forall col, t | col in cols && HeadedBy(cells, col, t) ensures !EndsInBackslash(t) {
        var j :| 0 <= j < |cols| && cols[j] == col;
        HeadingIs(cells, col, t);
        HeadingIs(cells, col, Cells(line[1..], [])[j]);
      }
    }
  }

  lemma HeadingKeepsLine(cells: seq<CopyCell>, col: int)
    requires exists c :: c in cells && c.visCol == col
    ensures LF !in FindHeader(cells, col)
  {
    var k := HeadingFirst(cells, col);
    SingleLineHasNoBreak(cells[k].headerText);
  }

  lemma NothingRead()
    ensures Cells([], []) == []
  {
  }

  /** A row is read as it was written, exactly if none of its texts ends in a backslash. */
  lemma RowIsRead(cells: seq<CopyCell>, results: seq<(int, RowValues)>, row: int, cols: seq<int>)
    ensures var line := GridRow(cells, row, cols, ValuesOf(results));
      RowReads(line, cells, results, row, cols) <==>
        forall col, t | col in cols && ShownAt(cells, results, row, col, t) :: !EndsInBackslash(t)
  {
    hide GridRow, TableRow, Cells, ShownAt, EndsInBackslash, GridText, ValuesOf;
    var refetched := ValuesOf(results);
    var line, texts := GridRow(cells, row, cols, refetched), GridTexts(cells, row, cols, refetched);
    GridRowIs(cells, row, cols, refetched);
    forall j | 0 <= j < |cols| ensures ShownAt(cells, results, row, cols[j], texts[j]) {
      ShownIs(cells, results, row, cols[j], texts[j]);
    }
    if forall col, t | col in cols && ShownAt(cells, results, row, col, t) :: !EndsInBackslash(t) {
      TableRowReads(texts, []);
      assert line[1..] + [] == line[1..] && texts + Cells([], []) == texts by {
        NothingRead();
      }
    }
    if RowReads(line, cells, results, row, cols) {
      OpensOpen();
      CellsAreClean(line[1..], []);
      forall col, t | col in cols && ShownAt(cells, results, row, col, t) ensures !EndsInBackslash(t) {
        var j :| 0 <= j < |cols| && cols[j] == col;
        ShownIs(cells, results, row, col, t);
        ShownIs(cells, results, row, col, Cells(line[1..], [])[j]);
      }
    }
  }

  lemma RowKeepsLine(cells: seq<CopyCell>, results: seq<(int, RowValues)>, row: int, cols: seq<int>)
    requires forall col, t | col in cols && ShownAt(cells, results, row, col, t) :: LF !in t
    ensures LF !in GridRow(cells, row, cols, ValuesOf(results))
  {
    hide GridRow, TableRow, ShownAt, GridText, ValuesOf;
    var texts := GridTexts(cells, row, cols, ValuesOf(results));
    GridRowIs(cells, row, cols, ValuesOf(results));
    forall j | 0 <= j < |cols| ensures LF !in texts[j] {
      ShownIs(cells, results, row, cols[j], texts[j]);
    }
    TableRowKeepsLine(texts);
  }

  /** A cell that is read from a line holds no line feed. */
  lemma ReadKeepsLine(line: Text, cells: seq<CopyCell>, results: seq<(int, RowValues)>, row: int, cols: seq<int>)
    requires RowReads(line, cells, results, row, cols) && LF !in line
    ensures forall col, t | col in cols && ShownAt(cells, results, row, col, t) :: LF !in t && !EndsInBackslash(t)
  {
    hide Cells, ShownAt, EndsInBackslash, GridText, ValuesOf;
    OpensClean(line);
    CellsAreClean(line[1..], []);
    forall col, t | col in cols && ShownAt(cells, results, row, col, t) ensures LF !in t && !EndsInBackslash(t) {
      var j :| 0 <= j < |cols| && cols[j] == col;
      var read := Cells(line[1..], [])[j];
      ShownIs(cells, results, row, col, t);
      ShownIs(cells, results, row, col, read);
      assert read in Cells(line[1..], []);
    }
  }

  lemma OpensClean(line: Text)
    requires line != [] && LF !in line
    ensures !EndsInBackslash([]) && LF !in line[1..]
  {
  }

  lemma {:induction false} MarkdownLines(cells: seq<CopyCell>, results: seq<(int, RowValues)>, rows: seq<int>,
                                         cols: seq<int>)
    requires Axes(cells, rows, cols)
    requires forall row | row in FirstRows(rows) :: LF !in GridRow(cells, row, cols, ValuesOf(results))
    ensures var lines, shown := Split(MarkdownOf(cells, ValuesOf(results)), LF), FirstRows(rows);
      && |lines| >= 2 + |shown| && lines[0] == HeaderLine(cells, cols) && lines[1] == RuleLine(|cols|)
      && (forall i | 0 <= i < |shown| :: lines[2 + i] == GridRow(cells, shown[i], cols, ValuesOf(results)))
      && lines[2 + |shown|..] == Tail(|rows| > 1000)
  {
    hide HeaderLine, RuleLine, GridRow, Grid, Split, Tail, ValuesOf, RowsOf, ColsOf, Ascending;
    var shown, refetched := FirstRows(rows), ValuesOf(results);
    AxesAre(cells, rows, cols);
    HeadIsRead(cells, cols);
    RuleLineIs(|cols|);
    TailSplits(|rows| > 1000);
    var head, rule, tail := HeaderLine(cells, cols), RuleLine(|cols|), if |rows| > 1000 then TRUNCATED_NOTE else [];
    var grid := Grid(cells, shown, cols, refetched);
    assert MarkdownOf(cells, refetched) == head + [LF] + (rule + [LF] + (grid + tail));
    SplitsOff(head, rule + [LF] + (grid + tail));
    SplitsOff(rule, grid + tail);
    GridSplits(cells, shown, cols, refetched, tail);
    var body := Split(grid + tail, LF);
    assert ([head] + ([rule] + body))[2 + |shown|..] == body[|shown|..];
  }

  /** A Markdown copy, split at line feeds and at the bars that no backslash escapes, is the table of the
      selection, exactly if no heading ends in a backslash and no cell holds a line feed or ends in a backslash. */
  lemma MarkdownReadsBack(cells: seq<CopyCell>, results: seq<(int, RowValues)>, rows: seq<int>, cols: seq<int>)
    requires Axes(cells, rows, cols)
    ensures TableReads(MarkdownOf(cells, ValuesOf(results)), cells, results, rows, cols) <==>
      Tabulable(cells, results, rows, cols)
  {
    hide MarkdownOf, ValuesOf, Split, Tail, GridRow, HeaderLine, RuleLine, RowReads, HeadReads, IsRule, ShownAt;
    hide HeadedBy, EndsInBackslash, Ascending;
    var text, shown := MarkdownOf(cells, ValuesOf(results)), FirstRows(rows);
    HeadIsRead(cells, cols);
    RuleLineIs(|cols|);
    if Tabulable(cells, results, rows, cols) {
      forall row | row in shown ensures LF !in GridRow(cells, row, cols, ValuesOf(results)) {
        RowKeepsLine(cells, results, row, cols);
      }
      MarkdownLines(cells, results, rows, cols);
      forall i | 0 <= i < |shown| ensures RowReads(Split(text, LF)[2 + i], cells, results, shown[i], cols) {
        RowIsRead(cells, results, shown[i], cols);
      }
    }
    if TableReads(text, cells, results, rows, cols) {
      ReadIsTabulable(text, cells, results, rows, cols);
    }
  }

  lemma ReadIsTabulable(text: Text, cells: seq<CopyCell>, results: seq<(int, RowValues)>, rows: seq<int>,
                        cols: seq<int>)
    requires Axes(cells, rows, cols) && TableReads(text, cells, results, rows, cols)
    ensures Tabulable(cells, results, rows, cols)
  {
    hide Split, Tail, Cells, IsRule, ShownAt, HeadedBy, EndsInBackslash, Ascending, RowReads;
    var lines, shown := Split(text, LF), FirstRows(rows);
    PiecesAreClean(text, LF);
    forall row, col, t | row in shown && col in cols && ShownAt(cells, results, row, col, t)
      ensures LF !in t && !EndsInBackslash(t)
    {
      var i :| 0 <= i < |shown| && shown[i] == row;
      assert lines[2 + i] in lines;
      ReadKeepsLine(lines[2 + i], cells, results, row, cols);
    }
    OpensOpen();
    CellsAreClean(lines[0][1..], []);
    forall col, t | col in cols && HeadedBy(cells, col, t) ensures !EndsInBackslash(t) {
      var j :| 0 <= j < |cols| && cols[j] == col;
      HeadingIs(cells, col, t);
      HeadingIs(cells, col, Cells(lines[0][1..], [])[j]);
    }
  }

  lemma OpensOpen()
    ensures !EndsInBackslash([])
  {
  }

  /** The last backslash of the first text makes two cells one. */
  lemma BackslashMergesCells()
    ensures var a, b: Unit := 0x61, 0x62;
      Cells(TableRow([[a, BACKSLASH], [b]])[1..], []) == [[a, BAR, b]]
  {
    var a, b: Unit := 0x61, 0x62;
    var first, second := [a, BACKSLASH], [b];
    var rest := Escaped(second) + [BAR];
    TrailingBackslashMerges(first, rest, []);
    EscapedReads(second, [BAR], [a, BAR]);
    var none, one: seq<Text> := [], [first];
    assert one[..0] == none && TableRow(one) == TableRow(none) + Escaped(first) + [BAR];
    assert [first, second][..1] == one;
    assert TableRow([first, second])[1..] == Escaped(first) + [BAR] + rest;
    assert [] + first[..1] + [BAR] == [a, BAR] && [a, BAR] + second == [a, BAR, b];
    assert [BAR][1..] == [];
  }

  // ---- Both ----------------------------------------------------------------------------------

  /** What a reader of a copy finds: of a plain one the cells one behind the other, and of either one the grid of
      the selection exactly if the texts allow it. */
  ghost predicate ReadsBack(text: Text, isMarkdown: bool, cells: seq<CopyCell>, results: seq<(int, RowValues)>) {
    if isMarkdown then
      forall rows, cols | Axes(cells, rows, cols) ::
        TableReads(text, cells, results, rows, cols) <==> Tabulable(cells, results, rows, cols)
    else
      && (exists places :: PlainLaid(text, cells, results, places))
      && (ReadsAs(ReadPlain(text), cells, results) <==> Separable(cells, results))
  }

  lemma CopyReadsBack(isMarkdown: bool, cells: seq<CopyCell>, results: seq<(int, RowValues)>)
    requires cells != []
    ensures var refetched := ValuesOf(results);
      ReadsBack(if isMarkdown then MarkdownOf(cells, refetched) else PlainOf(cells, refetched), isMarkdown, cells,
                results)
  {
    hide PlainLaid, ReadsAs, ReadPlain, Separable, TableReads, Tabulable, Axes, MarkdownOf, PlainOf, ValuesOf;
    if isMarkdown {
      forall rows, cols | Axes(cells, rows, cols)
        ensures TableReads(MarkdownOf(cells, ValuesOf(results)), cells, results, rows, cols) <==>
          Tabulable(cells, results, rows, cols)
      {
        MarkdownReadsBack(cells, results, rows, cols);
      }
    } else {
      var places := PlainIsLaid(cells, results);
      PlainReadsBack(cells, results);
    }
  }
}
