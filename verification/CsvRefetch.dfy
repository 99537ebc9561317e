/** Collecting the full values of selected cells from the callbacks of a re-scanned record,
    within the 64 MiB copy budget. */
module CsvRefetch {
  import opened CsvGrammar
  import opened CsvMachine
  import opened PageRow
  import opened TableSource

  /** The distinct valid columns of a request in order of first mention; every column when the
      request is empty. */
  function TargetColumns(requested: seq<int>, columns: nat): (r: seq<int>)
    ensures InRange(r, columns)
  {
    if requested == [] then seq(columns, c => c) else Mentioned(requested, columns)
  }

  predicate InRange(cs: seq<int>, columns: nat) {
    forall j | 0 <= j < |cs| :: 0 <= cs[j] < columns
  }

  function Mentioned(requested: seq<int>, columns: nat): (r: seq<int>)
    ensures InRange(r, columns)
    ensures forall c :: c in r <==> c in requested && 0 <= c < columns
    ensures forall i, j | 0 <= i < j < |r| :: r[i] != r[j]
  {
    if requested == [] then []
    else
      var before, c := Mentioned(requested[..|requested| - 1], columns), requested[|requested| - 1];
      assert requested == requested[..|requested| - 1] + [c];
      if 0 <= c < columns && c !in before then before + [c] else before
  }

  /** The columns come in the order in which they were first asked for. */
  lemma {:induction false} MentionedInOrder(requested: seq<int>, columns: nat, i: nat, j: nat) returns (at: nat)
    requires i < j < |Mentioned(requested, columns)|
    ensures at < |requested| && requested[at] == Mentioned(requested, columns)[i]
    ensures Mentioned(requested, columns)[j] !in requested[..at]
    decreases |requested|
  {
    var n, all := |requested| - 1, Mentioned(requested, columns);
    var before := Mentioned(requested[..n], columns);
    if j < |before| {
      at := MentionedInOrder(requested[..n], columns, i, j);
      assert requested[..n][..at] == requested[..at];
    } else {
      assert all[i] in before && all[j] !in before;
      at :| 0 <= at < n && requested[at] == all[i];
      assert forall k | 0 <= k < at :: requested[k] in requested[..n];
    }
  }

  lemma EveryColumn(columns: nat)
    ensures |TargetColumns([], columns)| == columns
    ensures forall c | 0 <= c < columns :: TargetColumns([], columns)[c] == c
  {
  }

  method ResolveTargetColumns(requested: seq<int>, columns: nat) returns (targetCols: seq<int>, selected: seq<bool>)
    ensures targetCols == TargetColumns(requested, columns)
    ensures |selected| == columns && forall c | 0 <= c < columns :: selected[c] == (c in targetCols)
  {
    var selectAll := requested == [];
    selected := seq(columns, c => selectAll);
    assert forall c | 0 <= c < columns :: selected[c] == selectAll;
    targetCols := [];
    if selectAll {
      for col := 0 to columns
        invariant targetCols == seq(col, c => c)
      {
        targetCols := targetCols + [col];
      }
      forall c | 0 <= c < columns ensures c in targetCols {
        assert targetCols[c] == c;
      }
    } else {
      for i := 0 to |requested|
        invariant targetCols == Mentioned(requested[..i], columns)
        invariant |selected| == columns && forall c | 0 <= c < columns :: selected[c] == (c in targetCols)
      {
        assert requested[..i + 1][..i] == requested[..i];
        var c := requested[i];
        if 0 <= c < columns && !selected[c] {
          selected := selected[c := true];
          targetCols := targetCols + [c];
        }
      }
      assert requested[..|requested|] == requested;
    }
  }

  /** Full values of the selected columns; the others are empty. */
  function Selection(fields: seq<seq<Byte>>, selected: seq<bool>): (r: seq<seq<Byte>>)
    ensures |r| == |selected| && forall c | 0 <= c < |r| :: r[c] == (if selected[c] then FieldAt(fields, c) else [])
  {
    seq(|selected|, c requires 0 <= c < |selected| => if selected[c] then FieldAt(fields, c) else [])
  }

  /** The fields delivered so far, the open one included. */
  function Progress(a: Collected): seq<seq<Byte>> {
    if |a.records| == 1 then a.records[0].fields else a.fields + [a.cell]
  }

  lemma {:induction false} RowBytesUpdate(cells: seq<seq<Byte>>, c: nat, v: seq<Byte>)
    requires c < |cells|
    ensures RowBytes(cells[c := v]) == RowBytes(cells) - |cells[c]| + |v|
    decreases |cells|
  {
    var n := |cells| - 1;
    if c == n {
      assert cells[c := v][..n] == cells[..n];
    } else {
      assert cells[c := v][..n] == cells[..n][c := v];
      RowBytesUpdate(cells[..n], c, v);
    }
  }

  /** What one more callback adds to the selection. */
  function Extended(p: seq<seq<Byte>>, e: Event, selected: seq<bool>): seq<seq<Byte>>
    requires |p| == |selected|
  {
    if e.Fragment? && e.col < |selected| && selected[e.col] then p[e.col := p[e.col] + e.bytes] else p
  }

  lemma SelectionStep(events: seq<Event>, i: nat, selected: seq<bool>)
    requires i < |events| && WithinOneRecord(CollectAll(NOTHING, events))
    ensures Selection(Progress(CollectAll(NOTHING, events[..i + 1])), selected)
         == Extended(Selection(Progress(CollectAll(NOTHING, events[..i])), selected), events[i], selected)
  {
    NextCallback(events, i);
    var a, n := CollectAll(NOTHING, events[..i]), CollectAll(NOTHING, events[..i + 1]);
    if |a.records| == 1 {
      NothingSelects(a, events[i], selected);
    } else if events[i].RecordEnd? {
      RecordEndSelects(a, n, selected);
    } else {
      FragmentSelects(a, n, events[i], selected);
    }
  }

  lemma NothingSelects(a: Collected, e: Event, selected: seq<bool>)
    requires e.Fragment? && e.bytes == []
    ensures Extended(Selection(Progress(a), selected), e, selected) == Selection(Progress(a), selected)
  {
    var p := Selection(Progress(a), selected);
    if e.col < |selected| { assert p[e.col] + [] == p[e.col]; }
  }

  lemma RecordEndSelects(a: Collected, n: Collected, selected: seq<bool>)
    requires a.records == [] && |n.records| == 1 && n.records[0].fields == a.fields && a.cell == []
    ensures Selection(Progress(n), selected) == Selection(Progress(a), selected)
  {
  }

  lemma FragmentSelects(a: Collected, n: Collected, e: Event, selected: seq<bool>)
    requires a.records == [] && e.Fragment? && n == Collect(a, e) && n.inOrder
    ensures Selection(Progress(n), selected) == Extended(Selection(Progress(a), selected), e, selected)
  {
  }

  lemma ExtendedGrows(p: seq<seq<Byte>>, e: Event, selected: seq<bool>)
    requires |p| == |selected|
    ensures RowBytes(Extended(p, e, selected))
         == RowBytes(p) + (if e.Fragment? && e.col < |selected| && selected[e.col] then |e.bytes| else 0)
  {
    if e.Fragment? && e.col < |selected| && selected[e.col] {
      RowBytesUpdate(p, e.col, p[e.col] + e.bytes);
    }
  }

  /** The refetch callback over a whole record.  The budget is exceeded exactly when the full
      values of the selected cells are larger than it; otherwise the values are complete. */
  method CollectValues(events: seq<Event>, selected: seq<bool>) returns (exceeded: bool, allValues: seq<seq<Byte>>)
    requires var b := CollectAll(NOTHING, events); b.inOrder && b.cell == [] && b.fields == [] && |b.records| <= 1
    ensures var full := Selection(SliceFields(CollectAll(NOTHING, events).records), selected);
      exceeded == (RowBytes(full) > COPY_BUDGET) && (!exceeded ==> allValues == full)
  {
    allValues := Selection([], selected);
    EmptySelection(selected);
    var totalBytes := 0;
    exceeded := false;
    for i := 0 to |events|
      invariant |allValues| == |selected|
      invariant var full := Selection(Progress(CollectAll(NOTHING, events[..i])), selected);
        && exceeded == (RowBytes(full) > COPY_BUDGET)
        && (!exceeded ==> allValues == full && totalBytes == RowBytes(full))
    {
      SelectionStep(events, i, selected);
      ExtendedGrows(Selection(Progress(CollectAll(NOTHING, events[..i])), selected), events[i], selected);
      var e := events[i];
      if !exceeded && e.Fragment? && e.col < |selected| && selected[e.col] {
        totalBytes := totalBytes + |e.bytes|;
        if totalBytes > COPY_BUDGET {
          exceeded := true;
        } else {
          allValues := allValues[e.col := allValues[e.col] + e.bytes];
        }
      }
    }
    assert events[..|events|] == events;
    ProgressAtEnd(CollectAll(NOTHING, events), selected);
  }

  lemma EmptySelection(selected: seq<bool>)
    ensures Selection(Progress(NOTHING), selected) == Selection([], selected)
    ensures RowBytes(Selection([], selected)) == 0
  {
    RowBytesBound(Selection([], selected), 0);
  }

  lemma ProgressAtEnd(b: Collected, selected: seq<bool>)
    requires b.cell == [] && b.fields == [] && |b.records| <= 1
    ensures Selection(Progress(b), selected) == Selection(SliceFields(b.records), selected)
  {
  }

  function Chosen(targets: seq<int>, columns: nat): (selected: seq<bool>)
    ensures |selected| == columns && forall c | 0 <= c < columns :: selected[c] == (c in targets)
  {
    seq(columns, c => c in targets)
  }

  function ValuesAt(fields: seq<seq<Byte>>, targets: seq<int>): (values: seq<seq<Byte>>)
    requires forall j | 0 <= j < |targets| :: targets[j] >= 0
    ensures |values| == |targets| && forall j | 0 <= j < |targets| :: values[j] == FieldAt(fields, targets[j])
  {
    seq(|targets|, j requires 0 <= j < |targets| => FieldAt(fields, targets[j]))
  }

  predicate Distinct(xs: seq<int>) {
    forall i, j | 0 <= i < j < |xs| :: xs[i] != xs[j]
  }

  /** One more value picked from the selection. */
  lemma ValuesStep(fields: seq<seq<Byte>>, targets: seq<int>, columns: nat, j: nat)
    requires j < |targets| && InRange(targets, columns)
    ensures ValuesAt(fields, targets[..j + 1])
         == ValuesAt(fields, targets[..j]) + [Selection(fields, Chosen(targets, columns))[targets[j]]]
  {
    assert targets[j] in targets;
  }

  /** The values handed out weigh what the budget counted. */
  lemma {:induction false} ValuesWeigh(fields: seq<seq<Byte>>, targets: seq<int>, columns: nat)
    requires Distinct(targets) && InRange(targets, columns)
    ensures RowBytes(ValuesAt(fields, targets)) == RowBytes(Selection(fields, Chosen(targets, columns)))
    decreases |targets|
  {
    hide RowBytes, Selection, ValuesAt, Chosen, FieldAt;
    if targets == [] {
      NothingWeighs(fields, columns);
    } else {
      var before, c := targets[..|targets| - 1], targets[|targets| - 1];
      ValuesWeigh(fields, before, columns);
      assert targets == before + [c] && c !in before;
      SelectionGrows(fields, before, c, columns);
      ValuesGrow(fields, before, c);
      RowBytesUpdate(Selection(fields, Chosen(before, columns)), c, FieldAt(fields, c));
    }
  }

  lemma NothingWeighs(fields: seq<seq<Byte>>, columns: nat)
    ensures RowBytes(ValuesAt(fields, [])) == 0 == RowBytes(Selection(fields, Chosen([], columns)))
  {
    RowBytesBound(Selection(fields, Chosen([], columns)), 0);
  }

  lemma SelectionGrows(fields: seq<seq<Byte>>, before: seq<int>, c: nat, columns: nat)
    requires c !in before && c < columns
    ensures var less := Selection(fields, Chosen(before, columns));
      less[c] == [] && Selection(fields, Chosen(before + [c], columns)) == less[c := FieldAt(fields, c)]
  {
  }

  lemma ValuesGrow(fields: seq<seq<Byte>>, before: seq<int>, c: nat)
    requires forall j | 0 <= j < |before| :: before[j] >= 0
    ensures RowBytes(ValuesAt(fields, before + [c])) == RowBytes(ValuesAt(fields, before)) + |FieldAt(fields, c)|
  {
    var all := ValuesAt(fields, before + [c]);
    assert all[..|before|] == ValuesAt(fields, before);
  }

  lemma TargetsDistinct(requested: seq<int>, columns: nat)
    ensures Distinct(TargetColumns(requested, columns))
  {
  }

  /** Bytes of selected cells in any list of callbacks, complete or not. */
  function BytesDelivered(events: seq<Event>, selected: seq<bool>): nat {
    if events == [] then 0
    else
      var e := events[|events| - 1];
      BytesDelivered(events[..|events| - 1], selected)
      + (if e.Fragment? && e.col < |selected| && selected[e.col] then |e.bytes| else 0)
  }

  /** What the callbacks of one record deliver weighs what their part of the selection weighs. */
  lemma {:induction false} DeliveredWeighs(events: seq<Event>, selected: seq<bool>)
    requires WithinOneRecord(CollectAll(NOTHING, events))
    ensures BytesDelivered(events, selected) == RowBytes(Selection(Progress(CollectAll(NOTHING, events)), selected))
    decreases |events|
  {
    if events == [] {
      EmptySelection(selected);
    } else {
      var i := |events| - 1;
      assert events[..i + 1] == events;
      Reaches(events, i);
      DeliveredWeighs(events[..i], selected);
      SelectionStep(events, i, selected);
      ExtendedGrows(Selection(Progress(CollectAll(NOTHING, events[..i])), selected), events[i], selected);
    }
  }

  lemma {:induction false} RowBytesMono(a: seq<seq<Byte>>, b: seq<seq<Byte>>)
    requires |a| == |b| && forall c | 0 <= c < |a| :: |a[c]| <= |b[c]|
    ensures RowBytes(a) <= RowBytes(b)
    decreases |a|
  {
    if a != [] {
      RowBytesMono(a[..|a| - 1], b[..|b| - 1]);
    }
  }

  /** On the way to a record no more of it has been delivered than it holds. */
  lemma DeliveredWithin(events: seq<Event>, b: Collected, selected: seq<bool>)
    requires b.inOrder && b.cell == [] && b.fields == [] && |b.records| <= 1
    requires CollectAll(NOTHING, events).inOrder && OnTheWay(CollectAll(NOTHING, events), b)
    ensures BytesDelivered(events, selected) <= RowBytes(Selection(SliceFields(b.records), selected))
  {
    hide CollectAll, OnTheWay, Selection, RowBytes, BytesDelivered, Progress, SliceFields;
    var a := CollectAll(NOTHING, events);
    WayIsWithin(a, b);
    DeliveredWeighs(events, selected);
    WayWeighsLess(a, b, selected);
    RowBytesMono(Selection(Progress(a), selected), Selection(SliceFields(b.records), selected));
  }

  lemma WayIsWithin(a: Collected, b: Collected)
    requires a.inOrder && |b.records| <= 1 && b.cell == [] && b.fields == [] && OnTheWay(a, b)
    ensures WithinOneRecord(a)
  {
  }

  lemma WayWeighsLess(a: Collected, b: Collected, selected: seq<bool>)
    requires |b.records| <= 1 && b.cell == [] && b.fields == [] && OnTheWay(a, b)
    ensures forall c | 0 <= c < |selected| ::
      |Selection(Progress(a), selected)[c]| <= |Selection(SliceFields(b.records), selected)[c]|
  {
    forall c | 0 <= c < |selected|
      ensures |Selection(Progress(a), selected)[c]| <= |Selection(SliceFields(b.records), selected)[c]|
    {
      CellWeighsLess(a, b, c);
    }
  }

  lemma CellWeighsLess(a: Collected, b: Collected, c: nat)
    requires |b.records| <= 1 && b.cell == [] && b.fields == [] && OnTheWay(a, b)
    ensures |FieldAt(Progress(a), c)| <= |FieldAt(SliceFields(b.records), c)|
  {
  }
}
