/** The meaning of incremental scanning: a machine that takes one byte at a time without any
    lookahead, and the proof that running it over a window gives the records of `CsvGrammar`. */
module CsvMachine {
  import opened CsvGrammar

  /** A callback made by the scanner. */
  datatype Event =
    | Fragment(col: nat, bytes: seq<Byte>, isEnd: bool)
    | RecordEnd(ordinal: nat, start: nat, end: nat)

  /** What a consumer that concatenates fragments has collected.  `inOrder` says that every
      callback so far named the column and the record ordinal that were due, and that no record
      ended inside a field. */
  datatype Collected = Collected(cell: seq<Byte>, fields: seq<seq<Byte>>, records: seq<Record>, inOrder: bool)

  const NOTHING := Collected([], [], [], true)

  function Collect(a: Collected, e: Event): Collected {
    match e
    case Fragment(col, bytes, isEnd) =>
      var ok := a.inOrder && col == |a.fields| && col < MAX_COLUMNS;
      if isEnd then Collected([], a.fields + [a.cell + bytes], a.records, ok)
      else a.(cell := a.cell + bytes, inOrder := ok)
    case RecordEnd(ordinal, start, end) =>
      Collected([], [], a.records + [Record(start, end, a.fields)], a.inOrder && ordinal == |a.records| && a.cell == [])
  }

  function CollectAll(a: Collected, events: seq<Event>): Collected {
    if events == [] then a
    else Collect(CollectAll(a, events[..|events| - 1]), events[|events| - 1])
  }

  lemma {:induction false} CollectAllAppend(a: Collected, xs: seq<Event>, ys: seq<Event>)
    ensures CollectAll(a, xs + ys) == CollectAll(CollectAll(a, xs), ys)
    decreases |ys|
  {
    if ys == [] {
      assert xs + ys == xs;
    } else {
      var init := ys[..|ys| - 1];
      assert (xs + ys)[..|xs + ys| - 1] == xs + init;
      CollectAllAppend(a, xs, init);
    }
  }

  datatype Mode = Bare | Quoted | QuoteSeen

  /** `start` is the start of the current record, `saw` says that it holds at least one byte,
      and `afterCr` that the last byte was a CR whose LF may still follow. */
  datatype Machine = Machine(pos: nat, mode: Mode, afterCr: bool, start: nat, saw: bool, col: nat, acc: Collected)

  function Init(base: nat): Machine {
    Machine(base, Bare, false, base, false, 0, NOTHING)
  }

  /** Text for the current field; columns from 256 on are dropped. */
  function AddText(m: Machine, text: seq<Byte>): Machine {
    if m.col < MAX_COLUMNS then m.(acc := m.acc.(cell := m.acc.cell + text)) else m
  }

  function EndField(m: Machine): Machine {
    if m.col < MAX_COLUMNS
    then m.(acc := m.acc.(cell := [], fields := m.acc.fields + [m.acc.cell]))
    else m
  }

  function EndRecord(m: Machine, end: nat, next: nat): Machine {
    m.(saw := false, col := 0, start := next,
       acc := m.acc.(cell := [], fields := [], records := m.acc.records + [Record(m.start, end, m.acc.fields)]))
  }

  /** A byte outside quotes. */
  function StepBare(m: Machine, b: Byte, d: Byte): Machine {
    var n := m.(pos := m.pos + 1, mode := Bare, afterCr := false);
    if b == QUOTE then n.(mode := Quoted, saw := true)
    else if b == d then EndField(n).(col := n.col + 1, saw := true)
    else if b == CR then EndRecord(EndField(n), m.pos, m.pos + 1).(afterCr := true)
    else if b == LF then EndRecord(EndField(n), m.pos, m.pos + 1)
    else AddText(n, [b]).(saw := true)
  }

  function Step(m: Machine, b: Byte, d: Byte): Machine {
    if m.afterCr && b == LF then m.(pos := m.pos + 1, afterCr := false, start := m.pos + 1)
    else match m.mode
      case Bare => StepBare(m, b, d)
      case Quoted =>
        if b == QUOTE then m.(pos := m.pos + 1, mode := QuoteSeen)
        else AddText(m.(pos := m.pos + 1), [b])
      case QuoteSeen =>
        if b == QUOTE then AddText(m.(pos := m.pos + 1, mode := Quoted), [QUOTE])
        else StepBare(m, b, d)
  }

  function Run(m: Machine, t: seq<Byte>, d: Byte): Machine {
    if t == [] then m else Step(Run(m, t[..|t| - 1], d), t[|t| - 1], d)
  }

  /** End of input: a record that holds at least one byte is completed. */
  function Finish(m: Machine): Machine {
    var n := m.(mode := Bare, afterCr := false);
    if m.saw then EndRecord(EndField(n), m.pos, m.pos).(start := m.start) else n
  }

  lemma {:induction false} RunAppend(m: Machine, a: seq<Byte>, b: seq<Byte>, d: Byte)
    ensures Run(m, a + b, d) == Run(Run(m, a, d), b, d)
    decreases |b|
  {
    if b == [] {
      assert a + b == a;
    } else {
      assert (a + b)[..|a + b| - 1] == a + b[..|b| - 1];
      RunAppend(m, a, b[..|b| - 1], d);
    }
  }

  lemma RunHead(m: Machine, t: seq<Byte>, d: Byte)
    requires t != []
    ensures Run(m, t, d) == Run(Step(m, t[0], d), t[1..], d)
  {
    var head := [t[0]];
    assert t == head + t[1..] && head[..0] == [];
    RunAppend(m, head, t[1..], d);
    assert Run(m, head, d) == Step(Run(m, [], d), t[0], d);
  }

  /** Facts every reachable machine state keeps. */
  predicate Sane(m: Machine) {
    && m.acc.inOrder
    && (m.mode != Bare ==> m.saw && !m.afterCr)
    && (m.afterCr ==> !m.saw)
    && (!m.saw ==> m.col == 0 && m.acc.cell == [] && m.acc.fields == [] && m.start == m.pos)
    && m.start <= m.pos
    && |m.acc.fields| == (if m.col < MAX_COLUMNS then m.col else MAX_COLUMNS)
    && (m.col >= MAX_COLUMNS ==> m.acc.cell == [])
  }

  lemma StepSane(m: Machine, b: Byte, d: Byte)
    requires Sane(m)
    ensures Sane(Step(m, b, d)) && Step(m, b, d).pos == m.pos + 1
    ensures m.acc.records <= Step(m, b, d).acc.records
  {
  }

  lemma {:induction false} RunSane(m: Machine, t: seq<Byte>, d: Byte)
    requires Sane(m)
    ensures Sane(Run(m, t, d)) && Run(m, t, d).pos == m.pos + |t|
    ensures m.acc.records <= Run(m, t, d).acc.records
    decreases |t|
  {
    if t != [] {
      RunSane(m, t[..|t| - 1], d);
      StepSane(Run(m, t[..|t| - 1], d), t[|t| - 1], d);
    }
  }

  /** The same run, written over the indices of a chunk. */
  function RunFrom(m: Machine, t: seq<Byte>, p: nat, d: Byte): Machine
    requires p <= |t|
    decreases |t| - p
  {
    if p == |t| then m else RunFrom(Step(m, t[p], d), t, p + 1, d)
  }

  lemma {:induction false} RunFromIsRun(m: Machine, t: seq<Byte>, p: nat, d: Byte)
    requires p <= |t|
    ensures RunFrom(m, t, p, d) == Run(m, t[p..], d)
    decreases |t| - p
  {
    if p < |t| {
      RunHead(m, t[p..], d);
      assert t[p..][1..] == t[p + 1..];
      RunFromIsRun(Step(m, t[p], d), t, p + 1, d);
    }
  }

  /** The fields so far and the open one are the beginning of `full`. */
  predicate Begins(fields: seq<seq<Byte>>, cell: seq<Byte>, full: seq<seq<Byte>>) {
    && fields <= full
    && if |fields| < |full| then cell <= full[|fields|] else cell == []
  }

  /** What is collected in `a` is the beginning of what is collected in `b`. */
  predicate OnTheWay(a: Collected, b: Collected) {
    && a.records <= b.records
    && if |a.records| < |b.records| then Begins(a.fields, a.cell, b.records[|a.records|].fields)
       else |a.fields| <= |b.fields| && Begins(a.fields, a.cell, b.fields + [b.cell])
  }

  lemma OnTheWayTrans(a: Collected, b: Collected, c: Collected)
    requires OnTheWay(a, b) && OnTheWay(b, c)
    ensures OnTheWay(a, c)
  {
  }

  lemma StepOnTheWay(m: Machine, b: Byte, d: Byte)
    requires Sane(m)
    ensures OnTheWay(m.acc, Step(m, b, d).acc)
  {
  }

  lemma FinishOnTheWay(m: Machine)
    requires Sane(m)
    ensures OnTheWay(m.acc, m.acc) && OnTheWay(m.acc, Finish(m).acc)
  {
  }

  /** A run goes on from what it has collected, and so does the end of the input. */
  lemma {:induction false} RunFromGoesOn(m: Machine, t: seq<Byte>, p: nat, d: Byte)
    requires p <= |t| && Sane(m)
    ensures OnTheWay(m.acc, RunFrom(m, t, p, d).acc) && OnTheWay(m.acc, Finish(RunFrom(m, t, p, d)).acc)
    ensures Sane(RunFrom(m, t, p, d)) && RunFrom(m, t, p, d).pos == m.pos + |t| - p
    decreases |t| - p
  {
    hide OnTheWay;
    if p == |t| {
      FinishOnTheWay(m);
    } else {
      var n := Step(m, t[p], d);
      StepSane(m, t[p], d);
      StepOnTheWay(m, t[p], d);
      RunFromGoesOn(n, t, p + 1, d);
      OnTheWayTrans(m.acc, n.acc, RunFrom(m, t, p, d).acc);
      OnTheWayTrans(m.acc, n.acc, Finish(RunFrom(m, t, p, d)).acc);
    }
  }

  // ---- The machine computes the grammar ----------------------------------------------------

  /** The records still to come when the machine stands at `m.pos` in the window `s[..lim]`. */
  ghost function Remaining(m: Machine, s: seq<Byte>, lim: nat, d: Byte): seq<Record>
    requires m.pos <= lim <= |s|
  {
    var i := m.pos;
    if m.afterCr && i < lim && s[i] == LF then Records(s, lim, i + 1, d)
    else if m.mode == Bare && !m.saw then Records(s, lim, i, d)
    else Completed(m, s, lim, d, FieldRest(m, s, lim, d))
  }

  /** The rest of the field the machine is in the middle of. */
  ghost function FieldRest(m: Machine, s: seq<Byte>, lim: nat, d: Byte): (f: FieldScan)
    requires m.pos <= lim <= |s|
    ensures m.pos <= f.end <= lim
  {
    match m.mode
    case Bare => BareText(s, lim, m.pos, d)
    case Quoted => QuotedText(s, lim, m.pos, d)
    case QuoteSeen =>
      if m.pos < lim && s[m.pos] == QUOTE then
        var r := QuotedText(s, lim, m.pos + 1, d); FieldScan([QUOTE] + r.value, r.end)
      else BareText(s, lim, m.pos, d)
  }

  /** The fields of a record from the field scan `f` on. */
  ghost function FieldsFrom(s: seq<Byte>, lim: nat, d: Byte, f: FieldScan): (r: RecordScan)
    requires f.end <= lim <= |s|
    ensures f.end <= r.end <= lim && r.fields != []
  {
    if f.end < lim && s[f.end] == d then
      var rest := RecordFields(s, lim, f.end + 1, d);
      RecordScan([f.value] + rest.fields, rest.end)
    else RecordScan([f.value], f.end)
  }

  /** The fields of the current record when `more` follows what the machine has collected. */
  ghost function Assembled(m: Machine, more: seq<seq<Byte>>): seq<seq<Byte>>
    requires more != []
  {
    Kept(m.acc.fields + ([m.acc.cell + more[0]] + more[1..]))
  }

  /** The current record completed with the field scan `f`, then every later record. */
  ghost function Completed(m: Machine, s: seq<Byte>, lim: nat, d: Byte, f: FieldScan): seq<Record>
    requires f.end <= lim <= |s|
  {
    var r := FieldsFrom(s, lim, d, f);
    [Record(m.start, r.end, Assembled(m, r.fields))] + Records(s, lim, AfterTerminator(s, lim, r.end), d)
  }

  lemma AssembledDrops(m: Machine, more: seq<seq<Byte>>)
    requires Sane(m) && m.col >= MAX_COLUMNS && more != []
    ensures Assembled(m, more) == m.acc.fields
  {
    var all := m.acc.fields + ([m.acc.cell + more[0]] + more[1..]);
    assert all[..MAX_COLUMNS] == m.acc.fields;
  }

  lemma AssembledText(m: Machine, text: seq<Byte>, value: seq<Byte>, more: seq<seq<Byte>>)
    requires Sane(m)
    ensures Assembled(m, [text + value] + more) == Assembled(AddText(m, text), [value] + more)
  {
    var x, y := [text + value] + more, [value] + more;
    assert x[1..] == more == y[1..];
    if m.col < MAX_COLUMNS {
      assert m.acc.cell + (text + value) == m.acc.cell + text + value;
    } else {
      AssembledDrops(m, x);
      AssembledDrops(m, y);
    }
  }

  lemma AssembledField(m: Machine, n: Machine, more: seq<seq<Byte>>)
    requires Sane(m) && Sane(n) && n.acc == EndField(m).acc && n.col == m.col + 1 && more != []
    ensures Assembled(m, [[]] + more) == Assembled(n, more)
  {
    var x := [[]] + more;
    assert x[1..] == more && m.acc.cell + x[0] == m.acc.cell;
    if m.col < MAX_COLUMNS {
      assert n.acc.cell + more[0] == more[0] && [more[0]] + more[1..] == more;
      assert m.acc.fields + ([m.acc.cell] + more) == n.acc.fields + more;
    } else {
      AssembledDrops(m, x);
      AssembledDrops(n, more);
    }
  }

  lemma AssembledEnd(m: Machine)
    requires Sane(m)
    ensures Assembled(m, [[]]) == EndField(m).acc.fields
  {
    var x: seq<seq<Byte>> := [[]];
    assert x[1..] == [] && m.acc.cell + x[0] == m.acc.cell;
    if m.col >= MAX_COLUMNS {
      AssembledDrops(m, x);
    } else {
      assert [m.acc.cell] + x[1..] == [m.acc.cell];
    }
  }

  lemma AssembledFresh(m: Machine, more: seq<seq<Byte>>)
    requires Sane(m) && !m.saw && more != []
    ensures Assembled(m, more) == Kept(more)
  {
    assert m.acc.cell + more[0] == more[0] && [more[0]] + more[1..] == more;
    assert m.acc.fields + more == more;
  }

  /** Consuming one byte moves nothing between "delivered" and "still to come". */
  lemma StepKeepsMeaning(m: Machine, s: seq<Byte>, lim: nat, d: Byte)
    requires m.pos < lim <= |s| && Sane(m) && ValidDelimiter(d)
    ensures var n := Step(m, s[m.pos], d);
      m.acc.records + Remaining(m, s, lim, d) == n.acc.records + Remaining(n, s, lim, d)
  {
    var i := m.pos;
    var b := s[i];
    if m.afterCr && b == LF {
    } else if m.mode == Quoted || (m.mode == QuoteSeen && b == QUOTE) {
      QuotedStepKeepsMeaning(m, s, lim, d);
    } else if EndsField(b, d) && b != d {
      LineEndKeepsMeaning(m, s, lim, d);
    } else {
      BareStepKeepsMeaning(m, s, lim, d);
    }
  }

  lemma QuotedStepKeepsMeaning(m: Machine, s: seq<Byte>, lim: nat, d: Byte)
    requires m.pos < lim <= |s| && Sane(m) && ValidDelimiter(d)
    requires m.mode == Quoted || (m.mode == QuoteSeen && s[m.pos] == QUOTE)
    ensures var n := Step(m, s[m.pos], d);
      n.acc.records == m.acc.records && Remaining(m, s, lim, d) == Remaining(n, s, lim, d)
  {
    var n := Step(m, s[m.pos], d);
    var f, g := FieldRest(m, s, lim, d), FieldRest(n, s, lim, d);
    if m.mode == Quoted && s[m.pos] == QUOTE {
      assert f == g;
    } else {
      assert f.end == g.end && f.value == [s[m.pos]] + g.value;
      TextMoves(m, n, s, lim, d, [s[m.pos]], f, g);
    }
  }

  /** Text moved from the field still to come into the cell leaves the completed record alone. */
  lemma TextMoves(m: Machine, n: Machine, s: seq<Byte>, lim: nat, d: Byte, text: seq<Byte>, f: FieldScan, g: FieldScan)
    requires f.end == g.end <= lim <= |s| && f.value == text + g.value
    requires Sane(m) && n.start == m.start && n.acc == AddText(m, text).acc
    ensures Completed(m, s, lim, d, f) == Completed(n, s, lim, d, g)
  {
    var more := if f.end < lim && s[f.end] == d then RecordFields(s, lim, f.end + 1, d).fields else [];
    assert FieldsFrom(s, lim, d, f).fields == [text + g.value] + more;
    assert FieldsFrom(s, lim, d, g).fields == [g.value] + more;
    AssembledText(m, text, g.value, more);
  }

  lemma LineEndKeepsMeaning(m: Machine, s: seq<Byte>, lim: nat, d: Byte)
    requires m.pos < lim <= |s| && Sane(m) && ValidDelimiter(d)
    requires m.mode != Quoted && (s[m.pos] == CR || s[m.pos] == LF)
    requires !(m.afterCr && s[m.pos] == LF)
    ensures var n := Step(m, s[m.pos], d);
      m.acc.records + Remaining(m, s, lim, d) == n.acc.records + Remaining(n, s, lim, d)
  {
    var rec := Record(m.start, m.pos, EndField(m).acc.fields);
    var later := Records(s, lim, AfterTerminator(s, lim, m.pos), d);
    LineEndStarts(m, s, lim, d);
    LineEndCompletes(m, s, lim, d);
    Reassociate(m.acc.records, rec, later);
  }

  lemma Reassociate(done: seq<Record>, rec: Record, later: seq<Record>)
    ensures done + ([rec] + later) == done + [rec] + later
  {
  }

  lemma LineEndStarts(m: Machine, s: seq<Byte>, lim: nat, d: Byte)
    requires m.pos < lim <= |s| && Sane(m) && ValidDelimiter(d)
    requires m.mode != Quoted && (s[m.pos] == CR || s[m.pos] == LF)
    requires !(m.afterCr && s[m.pos] == LF)
    ensures var n := Step(m, s[m.pos], d);
      && n.acc.records == m.acc.records + [Record(m.start, m.pos, EndField(m).acc.fields)]
      && Remaining(n, s, lim, d) == Records(s, lim, AfterTerminator(s, lim, m.pos), d)
  {
    var n := Step(m, s[m.pos], d);
    assert n.mode == Bare && !n.saw && n.pos == m.pos + 1;
  }

  lemma LineEndCompletes(m: Machine, s: seq<Byte>, lim: nat, d: Byte)
    requires m.pos < lim <= |s| && Sane(m) && ValidDelimiter(d)
    requires m.mode != Quoted && (s[m.pos] == CR || s[m.pos] == LF)
    requires !(m.afterCr && s[m.pos] == LF)
    ensures Remaining(m, s, lim, d)
         == [Record(m.start, m.pos, EndField(m).acc.fields)] + Records(s, lim, AfterTerminator(s, lim, m.pos), d)
  {
    var f := FieldScan([], m.pos);
    assert BareText(s, lim, m.pos, d) == f;
    assert FieldsFrom(s, lim, d, f) == RecordScan([[]], m.pos);
    FirstFieldOfRecord(m, s, lim, d);
    AssembledEnd(m);
  }

  lemma BareStepKeepsMeaning(m: Machine, s: seq<Byte>, lim: nat, d: Byte)
    requires m.pos < lim <= |s| && Sane(m) && ValidDelimiter(d)
    requires m.mode != Quoted && !(m.mode == QuoteSeen && s[m.pos] == QUOTE)
    requires s[m.pos] != CR && s[m.pos] != LF
    ensures var n := Step(m, s[m.pos], d);
      n.acc.records == m.acc.records && Remaining(m, s, lim, d) == Remaining(n, s, lim, d)
  {
    var b := s[m.pos];
    var n := Step(m, b, d);
    FirstFieldOfRecord(m, s, lim, d);
    var f, g := BareText(s, lim, m.pos, d), FieldRest(n, s, lim, d);
    if b == d {
      assert g == BareText(s, lim, m.pos + 1, d);
      DelimiterKeepsMeaning(m, s, lim, d);
    } else if b == QUOTE {
      assert f == g;
    } else {
      assert f.end == g.end && f.value == [b] + g.value;
      TextMoves(m, n, s, lim, d, [b], f, g);
    }
  }

  /** A record about to start is a record with no field and no text yet. */
  lemma FirstFieldOfRecord(m: Machine, s: seq<Byte>, lim: nat, d: Byte)
    requires m.pos < lim <= |s| && Sane(m) && m.mode != Quoted
    requires !(m.mode == QuoteSeen && s[m.pos] == QUOTE) && !(m.afterCr && s[m.pos] == LF)
    ensures Remaining(m, s, lim, d) == Completed(m, s, lim, d, BareText(s, lim, m.pos, d))
  {
    if m.mode == Bare && !m.saw {
      var r := FieldsFrom(s, lim, d, BareText(s, lim, m.pos, d));
      assert RecordFields(s, lim, m.pos, d) == r;
      AssembledFresh(m, r.fields);
    }
  }

  lemma DelimiterKeepsMeaning(m: Machine, s: seq<Byte>, lim: nat, d: Byte)
    requires m.pos < lim <= |s| && Sane(m) && ValidDelimiter(d) && s[m.pos] == d
    requires m.mode != Quoted
    ensures var n := Step(m, d, d);
      Completed(m, s, lim, d, BareText(s, lim, m.pos, d)) == Completed(n, s, lim, d, BareText(s, lim, m.pos + 1, d))
  {
    var n := Step(m, d, d);
    StepSane(m, d, d);
    var f := FieldScan([], m.pos);
    assert BareText(s, lim, m.pos, d) == f;
    var rest := RecordFields(s, lim, m.pos + 1, d);
    assert FieldsFrom(s, lim, d, f) == RecordScan([[]] + rest.fields, rest.end);
    assert FieldsFrom(s, lim, d, BareText(s, lim, m.pos + 1, d)) == rest;
    AssembledField(m, n, rest.fields);
  }

  /** Running the machine to the end of a window delivers the records still to come. */
  lemma {:induction false} RunDecodes(m: Machine, s: seq<Byte>, lim: nat, d: Byte)
    requires m.pos <= lim <= |s| && Sane(m) && ValidDelimiter(d)
    ensures Finish(Run(m, s[m.pos..lim], d)).acc.records == m.acc.records + Remaining(m, s, lim, d)
    decreases lim - m.pos
  {
    if m.pos == lim {
      assert s[m.pos..lim] == [];
      if m.saw { AssembledEnd(m); }
    } else {
      var n := Step(m, s[m.pos], d);
      StepSane(m, s[m.pos], d);
      StepKeepsMeaning(m, s, lim, d);
      RunDecodes(n, s, lim, d);
      RunHead(m, s[m.pos..lim], d);
      assert s[m.pos..lim][1..] == s[n.pos..lim];
    }
  }

  /** A fresh machine run over a window decodes exactly the records of the window. */
  lemma WindowDecodes(s: seq<Byte>, from: nat, lim: nat, d: Byte)
    requires from <= lim <= |s| && ValidDelimiter(d)
    ensures Finish(Run(Init(from), s[from..lim], d)).acc.records == Records(s, lim, from, d)
  {
    RunDecodes(Init(from), s, lim, d);
  }

  // ---- Chunked feeding ---------------------------------------------------------------------

  /** Scanner state between two chunks: still holding back a possible byte order mark, or
      running. */
  datatype Scan = Probing(buffer: seq<Byte>) | Running(m: Machine)

  function Fed(sc: Scan, chunk: seq<Byte>, base: nat, d: Byte): Scan {
    match sc
    case Running(m) => Running(Run(m, chunk, d))
    case Probing(buffer) =>
      if base > 0 && buffer == [] then Running(Run(Init(base), chunk, d))
      else AfterProbe(buffer + chunk, d)
  }

  /** The state after the bytes `all` from offset 0. */
  function AfterProbe(all: seq<Byte>, d: Byte): Scan {
    if |all| < 3 then Probing(all)
    else Running(Run(Init(BomLength(all)), all[BomLength(all)..], d))
  }

  function Ended(sc: Scan, d: Byte): Machine {
    match sc
    case Running(m) => Finish(m)
    case Probing(buffer) => Finish(Run(Init(0), buffer, d))
  }

  function Joined(chunks: seq<seq<Byte>>): seq<Byte> {
    if chunks == [] then [] else Joined(chunks[..|chunks| - 1]) + chunks[|chunks| - 1]
  }

  /** The state after feeding `chunks` in order, each at the offset where the last one ended. */
  function FedAll(chunks: seq<seq<Byte>>, base: nat, d: Byte): Scan {
    if chunks == [] then Probing([])
    else
      var before := chunks[..|chunks| - 1];
      Fed(FedAll(before, base, d), chunks[|chunks| - 1], base + |Joined(before)|, d)
  }

  lemma FedAfterProbe(head: seq<Byte>, chunk: seq<Byte>, d: Byte)
    ensures Fed(AfterProbe(head, d), chunk, |head|, d) == AfterProbe(head + chunk, d)
  {
    if |head| >= 3 {
      var bom := BomLength(head);
      assert BomLength(head + chunk) == bom && (head + chunk)[bom..] == head[bom..] + chunk;
      RunAppend(Init(bom), head[bom..], chunk, d);
    } else if head == [] {
      assert head + chunk == chunk;
    }
  }

  /** Feeding from offset 0 depends on the bytes alone, not on how they are cut. */
  lemma {:induction false} FedFromStart(chunks: seq<seq<Byte>>, d: Byte)
    ensures FedAll(chunks, 0, d) == AfterProbe(Joined(chunks), d)
    decreases |chunks|
  {
    if chunks != [] {
      var before, last := chunks[..|chunks| - 1], chunks[|chunks| - 1];
      FedFromStart(before, d);
      FedAfterProbe(Joined(before), last, d);
    }
  }

  /** Chunk invariance: every way to cut a file into chunks, including empty chunks and cuts
      inside a byte order mark, a CRLF or a doubled quote, yields the records, offsets and field
      values of the one-shot decode. */
  lemma ChunkInvariance(chunks: seq<seq<Byte>>, d: Byte)
    requires ValidDelimiter(d)
    ensures Ended(FedAll(chunks, 0, d), d).acc.records == Decode(Joined(chunks), d)
  {
    FedFromStart(chunks, d);
    EndedDecodes(Joined(chunks), d);
  }

  lemma EndedDecodes(s: seq<Byte>, d: Byte)
    requires ValidDelimiter(d)
    ensures Ended(AfterProbe(s, d), d).acc.records == Decode(s, d)
  {
    var bom := BomLength(s);
    assert s[bom..] == s[bom..|s|];
    WindowDecodes(s, bom, |s|, d);
    if |s| < 3 { assert s[0..|s|] == s; }
  }

  /** The end of a scan leaves no field or record open, and every callback came in order. */
  lemma EndedClean(m: Machine)
    requires Sane(m)
    ensures Finish(m).acc.inOrder && Finish(m).acc.cell == [] && Finish(m).acc.fields == []
  {
  }

  /** The records delivered by the first `k` bytes of a file while more are to come. */
  function Delivered(s: seq<Byte>, k: nat, d: Byte): seq<Record>
    requires k <= |s|
  {
    var sc := AfterProbe(s[..k], d);
    if sc.Running? then sc.m.acc.records else []
  }

  /** Scanning on takes back no record. */
  lemma DeliveredGrows(s: seq<Byte>, j: nat, k: nat, d: Byte)
    requires j <= k <= |s|
    ensures Delivered(s, j, d) <= Delivered(s, k, d)
  {
    var head, tail := s[..j], s[j..k];
    if j >= 3 {
      assert s[..k] == head + tail;
      FedAfterProbe(head, tail, d);
      var bom := BomLength(head);
      RunSane(Init(bom), head[bom..], d);
      RunSane(Run(Init(bom), head[bom..], d), tail, d);
    }
  }

  /** Records delivered before the end of the file are a prefix of the whole decode. */
  lemma DeliveredIsPrefix(s: seq<Byte>, k: nat, d: Byte)
    requires k <= |s| && ValidDelimiter(d)
    ensures Delivered(s, k, d) <= Decode(s, d)
  {
    if |s| >= 3 {
      DeliveredGrows(s, k, |s|, d);
      assert s[..|s|] == s;
      EndedDecodes(s, d);
    }
  }
}
