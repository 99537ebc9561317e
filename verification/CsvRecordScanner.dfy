/** The chunked scanner.  Callbacks are returned as the list of events a `Feed` makes, in order;
    `Feed` is proved to be `CsvMachine.Fed` on the state between two chunks. */
module CsvRecordScanner {
  import opened CsvGrammar
  import opened CsvMachine

  const CANCEL_CHECK_INTERVAL := 65536

  /** A cooperative cancellation check: it may depend on when it is polled (the source offset)
      and on the callbacks made so far. */
  type CancelCheck = (nat, seq<Event>) -> bool

  /** A check that asks for no cancellation at all. */
  ghost predicate NeverFires(cancel: CancelCheck) {
    forall k: nat, events: seq<Event> :: !cancel(k, events)
  }

  predicate Special(b: Byte, d: Byte) {
    b == QUOTE || EndsField(b, d)
  }

  /** `bytes` is empty, one quote, or a stretch of `t` cut only next to special bytes. */
  ghost predicate Piece(t: seq<Byte>, d: Byte, bytes: seq<Byte>) {
    || bytes == []
    || bytes == [QUOTE]
    || exists i, j | 0 <= i <= j <= |t| :: Stretch(t, d, i, j) && bytes == t[i..j]
  }

  predicate Stretch(t: seq<Byte>, d: Byte, i: nat, j: nat)
    requires i <= j <= |t|
  {
    (i == 0 || Special(t[i - 1], d)) && (j == |t| || Special(t[j], d))
  }

  ghost predicate AllPieces(t: seq<Byte>, d: Byte, events: seq<Event>) {
    forall e <- events :: e.Fragment? ==> Piece(t, d, e.bytes)
  }

  /** Two machines that deliver the same: at the end of the input only the callbacks matter. */
  predicate SameOutcome(isEof: bool, a: Machine, b: Machine) {
    if isEof then Finish(a).acc == Finish(b).acc else a == b
  }

  function AtEnd(isEof: bool, m: Machine): Machine {
    if isEof then Finish(m) else m
  }

  lemma TextJoins(m: Machine, x: seq<Byte>, b: Byte)
    ensures AddText(AddText(m, x), [b]) == AddText(m, x + [b])
    ensures AddText(m, []) == m
  {
    assert m.acc.cell + (x + [b]) == m.acc.cell + x + [b];
    assert m.acc.cell + [] == m.acc.cell;
  }

  lemma SaneText(m: Machine, text: seq<Byte>, k: nat)
    requires Sane(m) && (m.saw || (text == [] && k == 0))
    ensures Sane(AddText(m, text).(pos := m.pos + k))
  {
  }

  lemma QuoteSteps(m: Machine, t: seq<Byte>, p: nat, d: Byte)
    requires p < |t| && t[p] == QUOTE && m.mode == Quoted && !m.afterCr
    ensures var n := m.(pos := m.pos + 1, mode := Bare);
      && (p + 1 < |t| && t[p + 1] != QUOTE ==> RunFrom(m, t, p, d) == RunFrom(n, t, p + 1, d))
      && (p + 1 == |t| ==> RunFrom(m, t, p, d) == n.(mode := QuoteSeen) && RunFrom(n, t, p + 1, d) == n)
  {
    var q := Step(m, QUOTE, d);
    assert RunFrom(m, t, p, d) == RunFrom(q, t, p + 1, d);
  }

  lemma EscapedQuoteSteps(m: Machine, t: seq<Byte>, p: nat, d: Byte)
    requires p + 1 < |t| && t[p] == t[p + 1] == QUOTE && m.mode == Quoted && !m.afterCr
    ensures RunFrom(m, t, p, d) == RunFrom(AddText(m, [QUOTE]).(pos := m.pos + 2), t, p + 2, d)
  {
    var q := Step(m, QUOTE, d);
    assert RunFrom(m, t, p, d) == RunFrom(q, t, p + 1, d) == RunFrom(Step(q, QUOTE, d), t, p + 2, d);
  }

  /** The index after the line end at `p`. */
  function AfterLineEnd(t: seq<Byte>, p: nat): (next: nat)
    requires p < |t|
    ensures p < next <= |t|
  {
    if t[p] == CR && p + 1 < |t| && t[p + 1] == LF then p + 2 else p + 1
  }

  /** The record completed, and the machine behind its line end of `width` bytes. */
  function AfterLine(m: Machine, width: nat): Machine {
    EndRecord(EndField(m), m.pos, m.pos + width).(pos := m.pos + width)
  }

  lemma AfterLineSane(m: Machine, width: nat)
    requires Sane(m) && m.mode == Bare && !m.afterCr
    ensures Sane(AfterLine(m, width))
  {
  }

  lemma StepLineEnd(m: Machine, b: Byte, d: Byte)
    requires (b == CR || b == LF) && m.mode == Bare && !m.afterCr && ValidDelimiter(d)
    ensures Step(m, b, d) == AfterLine(m, 1).(afterCr := b == CR)
  {
  }

  lemma StepCrLf(m: Machine, d: Byte)
    ensures Step(AfterLine(m, 1).(afterCr := true), LF, d) == AfterLine(m, 2).(afterCr := false)
  {
  }

  lemma LineEndSteps(m: Machine, t: seq<Byte>, p: nat, d: Byte)
    requires p < |t| && (t[p] == CR || t[p] == LF) && m.mode == Bare && !m.afterCr && ValidDelimiter(d)
    requires t[p] == LF || p + 1 < |t|
    ensures var next := AfterLineEnd(t, p);
      RunFrom(m, t, p, d) == RunFrom(AfterLine(m, next - p), t, next, d)
  {
    StepLineEnd(m, t[p], d);
    if t[p] == CR {
      StepCrLf(m, d);
      if t[p + 1] != LF { StepAfterCr(AfterLine(m, 1), t[p + 1], d); }
    }
  }

  lemma StepAfterCr(n: Machine, b: Byte, d: Byte)
    requires n.mode == Bare && !n.afterCr && b != LF
    ensures Step(n.(afterCr := true), b, d) == Step(n, b, d)
  {
  }

  /** A CR on the last byte of a chunk. */
  lemma LastCrSteps(m: Machine, t: seq<Byte>, p: nat, d: Byte)
    requires p + 1 == |t| && t[p] == CR && m.mode == Bare && !m.afterCr && ValidDelimiter(d)
    ensures RunFrom(m, t, p, d) == AfterLine(m, 1).(afterCr := true)
  {
    StepLineEnd(m, CR, d);
    assert RunFrom(Step(m, CR, d), t, p + 1, d) == Step(m, CR, d);
  }

  lemma HeldSplits(buffer: seq<Byte>, chunk: seq<Byte>, take: nat, d: Byte)
    requires |buffer| < 3 && take <= |chunk| && take == (if 3 - |buffer| <= |chunk| then 3 - |buffer| else |chunk|)
    ensures var all, held, rest := buffer + chunk, buffer + chunk[..take], chunk[take..];
      && all == held + rest
      && (|held| < 3 ==> all == held && rest == [] && AfterProbe(all, d) == Probing(held))
      && (|held| == 3 && BomLength(held) == 3 ==> AfterProbe(all, d) == Running(Run(Init(3), rest, d)))
      && (|held| == 3 && BomLength(held) == 0 ==> AfterProbe(all, d) == Running(Run(Init(0), held + rest, d)))
  {
    var all, held, rest := buffer + chunk, buffer + chunk[..take], chunk[take..];
    assert all == held + rest && all[0..] == all;
    if |held| == 3 { assert all[3..] == rest; }
    else { assert rest == [] && held + rest == held; }
  }

  /** The fields of the scanner's parser state. */
  datatype ParserState = ParserState(
    inQuotes: bool,
    pendingQuote: bool,        // saw a quote inside quotes at the end of a chunk
    pendingCr: bool,           // saw a CR at the end of a chunk
    hasBom: bool,
    bomChecked: bool,
    bomBuffer: seq<Byte>,
    recordOrdinal: nat,
    currentRecordStart: nat,
    hasRecordStart: bool,
    sawDataInRecord: bool,
    colIndex: nat)

  const FRESH := ParserState(false, false, false, false, false, [], 0, 0, false, false, 0)

  /** The machine the fields stand for when the next byte is at `pos` and the callbacks add up
      to `acc`. */
  function MachineOf(st: ParserState, pos: nat, acc: Collected): Machine {
    Machine(pos, if st.pendingQuote then QuoteSeen else if st.inQuotes then Quoted else Bare, st.pendingCr,
            if st.pendingCr then pos else st.currentRecordStart, st.sawDataInRecord, st.colIndex, acc)
  }

  function ScanOf(st: ParserState, pos: nat, acc: Collected): Scan {
    if st.bomChecked then Running(MachineOf(st, pos, acc)) else Probing(st.bomBuffer)
  }

  ghost predicate Consistent(st: ParserState, pos: nat, acc: Collected) {
    && (st.pendingQuote ==> st.inQuotes)
    && st.recordOrdinal == |acc.records|
    && if st.bomChecked then
         && st.bomBuffer == []
         && Sane(MachineOf(st, pos, acc))
         && st.hasRecordStart == !st.pendingCr
       else
         && |st.bomBuffer| < 3 && pos == |st.bomBuffer| && acc == NOTHING
         && st == FRESH.(bomBuffer := st.bomBuffer)
  }

  class CsvRecordScanner {
    var delimiter: Byte
    var st: ParserState
    var bytesSinceCancelCheck: nat
    ghost var pos: nat        // source offset of the next byte
    ghost var acc: Collected  // what the callbacks since the last reset add up to
    ghost var ended: bool     // the last chunk was fed, or a feed was cancelled

    ghost function State(): Machine
      reads `st, `pos, `acc
    {
      MachineOf(st, pos, acc)
    }

    ghost function Scanned(): Scan
      reads `st, `pos, `acc
    {
      ScanOf(st, pos, acc)
    }

    ghost predicate Valid()
      reads `st, `pos, `acc, `ended, `delimiter
    {
      !ended && ValidDelimiter(delimiter) && Consistent(st, pos, acc)
    }

    constructor (d: Byte)
      requires ValidDelimiter(d)
      ensures Valid() && Scanned() == Probing([]) && acc == NOTHING
      ensures delimiter == (if d == 0 then 0x2C else d)
    {
      delimiter := if d == 0 then 0x2C else d;
      st, bytesSinceCancelCheck := FRESH, 0;
      pos, acc, ended := 0, NOTHING, false;
    }

    method Reset()
      requires ValidDelimiter(delimiter)
      modifies this
      ensures Valid() && Scanned() == Probing([]) && acc == NOTHING && delimiter == old(delimiter)
    {
      st, bytesSinceCancelCheck := FRESH, 0;
      pos, acc, ended := 0, NOTHING, false;
    }

    /** The column the next fragment belongs to is the number of fields completed so far. */
    ghost predicate ColumnDue()
      reads `st, `acc
    {
      acc.inOrder && (if st.colIndex < MAX_COLUMNS then |acc.fields| == st.colIndex else acc.cell == [])
    }

    method EmitFragment(fragment: seq<Byte>, isEnd: bool) returns (ev: seq<Event>)
      requires ColumnDue()
      modifies this`acc
      ensures acc == CollectAll(old(acc), ev)
      ensures acc == (var m := AddText(old(State()), fragment); if isEnd then EndField(m).acc else m.acc)
      ensures forall e <- ev :: e == Fragment(st.colIndex, fragment, isEnd)
    {
      if st.colIndex < MAX_COLUMNS && (fragment != [] || isEnd) {
        ev := [Fragment(st.colIndex, fragment, isEnd)];
        assert ev[..0] == [];
        acc := Collect(acc, ev[0]);
      } else {
        ev := [];
        assert acc.cell + [] == acc.cell;
      }
    }

    method FlushField() returns (ev: seq<Event>)
      requires ColumnDue()
      modifies this`acc
      ensures acc == CollectAll(old(acc), ev)
      ensures acc == EndField(old(State())).acc
      ensures forall e <- ev :: e == Fragment(st.colIndex, [], true)
    {
      if st.colIndex < MAX_COLUMNS {
        ev := [Fragment(st.colIndex, [], true)];
        assert ev[..0] == [] && acc.cell + [] == acc.cell;
        acc := Collect(acc, ev[0]);
      } else {
        ev := [];
      }
    }

    /** The end of the pending text `fragment` is the end of its field. */
    method CompleteField(fragment: seq<Byte>) returns (ev: seq<Event>)
      requires ColumnDue()
      modifies this`acc
      ensures acc == CollectAll(old(acc), ev)
      ensures acc == EndField(AddText(old(State()), fragment)).acc
      ensures forall e <- ev :: e == Fragment(st.colIndex, fragment, true)
    {
      if fragment != [] {
        ev := EmitFragment(fragment, true);
      } else {
        ev := FlushField();
        assert old(acc.cell) + [] == old(acc.cell);
      }
    }

    method FinishRecord(endOffset: nat) returns (ev: seq<Event>)
      requires acc.inOrder && st.recordOrdinal == |acc.records| && acc.cell == []
      modifies this`acc, this`st
      ensures acc == CollectAll(old(acc), ev)
      ensures acc == Collected([], [],
          old(acc).records + [Record(old(st).currentRecordStart, endOffset, old(acc).fields)], true)
      ensures st == old(st).(recordOrdinal := old(st).recordOrdinal + 1, colIndex := 0,
                             sawDataInRecord := false, hasRecordStart := false)
      ensures forall e <- ev :: e.RecordEnd?
    {
      ev := [RecordEnd(st.recordOrdinal, st.currentRecordStart, endOffset)];
      assert ev[..0] == [];
      acc := Collect(acc, ev[0]);
      st := st.(recordOrdinal := st.recordOrdinal + 1, colIndex := 0, sawDataInRecord := false,
          hasRecordStart := false);
    }

    /** Section 2 of a feed: resolve a CR left open by the previous chunk. */
    method ResolveCr(chunk: seq<Byte>, p0: nat, baseOffset: nat, isEof: bool) returns (p: nat)
      requires Valid() && st.bomChecked && p0 <= |chunk| && pos == baseOffset + p0
      modifies this`st, this`pos
      ensures p0 <= p <= |chunk| && pos == baseOffset + p
      ensures st.hasBom == old(st).hasBom && st.bomChecked
      ensures p0 < |chunk| ==> Consistent(st, pos, acc) && !st.pendingCr
      ensures p0 < |chunk| ==> RunFrom(State(), chunk, p, delimiter) == RunFrom(old(State()), chunk, p0, delimiter)
      ensures p0 < p ==> Special(chunk[p - 1], delimiter) && !st.pendingQuote
      ensures p0 == |chunk| ==> st == old(st).(pendingCr := old(st).pendingCr && !isEof)
    {
      p := p0;
      if st.pendingCr {
        if p < |chunk| {
          st := st.(pendingCr := false);
          if chunk[p] == LF { p := p + 1; }
          st := st.(currentRecordStart := baseOffset + p, hasRecordStart := true);
          pos := baseOffset + p;
        } else if isEof {
          st := st.(pendingCr := false);
        }
      }
    }

    /** Section 3 of a feed: resolve a quote left open by the previous chunk. */
    method ResolveQuote(chunk: seq<Byte>, p0: nat, baseOffset: nat, isEof: bool) returns (p: nat, events: seq<Event>)
      requires p0 <= |chunk| && pos == baseOffset + p0 && st.bomChecked
      requires p0 < |chunk| ==> Consistent(st, pos, acc) && !st.pendingCr
      modifies this`st, this`pos, this`acc
      ensures acc == CollectAll(old(acc), events)
      ensures p0 <= p <= |chunk| && pos == baseOffset + p
      ensures st.hasBom == old(st).hasBom && st.bomChecked
      ensures p0 < |chunk| ==> Consistent(st, pos, acc) && !st.pendingCr && !st.pendingQuote
      ensures p0 < |chunk| ==> RunFrom(State(), chunk, p, delimiter) == RunFrom(old(State()), chunk, p0, delimiter)
      ensures p0 < p ==> Special(chunk[p - 1], delimiter)
      ensures p0 == |chunk| ==> acc == old(acc)
      ensures p0 == |chunk| ==>
        st == (if old(st).pendingQuote && isEof then old(st).(pendingQuote := false, inQuotes := false) else old(st))
      ensures forall e <- events :: e.Fragment? && e.bytes == [QUOTE]
    {
      p, events := p0, [];
      if st.pendingQuote {
        if p < |chunk| {
          st := st.(pendingQuote := false);
          if chunk[p] == QUOTE {
            events := EmitFragment([QUOTE], false);
            p := p + 1;
            pos := baseOffset + p;
            st := st.(inQuotes := true);
          } else {
            st := st.(inQuotes := false);
          }
        } else if isEof {
          st := st.(pendingQuote := false, inQuotes := false);
        }
      }
    }

    /** The state inside the scan loop: nothing is pending and `chunk[spanStart..p]` is text of
        the current field that has not been emitted yet. */
    ghost predicate Scanning(chunk: seq<Byte>, spanStart: nat, p: nat, baseOffset: nat)
      reads `st, `pos, `acc, `ended, `delimiter
    {
      && Valid() && st.bomChecked && !st.pendingCr && !st.pendingQuote
      && spanStart <= p <= |chunk| && pos == baseOffset + p
      && (spanStart < p ==> st.sawDataInRecord)
      && (spanStart == 0 || Special(chunk[spanStart - 1], delimiter))
    }

    /** Where the scan of the rest of the chunk leads. */
    ghost function Outcome(chunk: seq<Byte>, spanStart: nat, p: nat): Machine
      requires spanStart <= p <= |chunk|
      reads `st, `pos, `acc, `delimiter
    {
      RunFrom(AddText(State(), chunk[spanStart..p]), chunk, p, delimiter)
    }

    /** Emits the pending text before a quote. */
    method EmitSpan(chunk: seq<Byte>, spanStart: nat, p: nat) returns (events: seq<Event>)
      requires spanStart <= p < |chunk| && chunk[p] == QUOTE
      requires (spanStart == 0 || Special(chunk[spanStart - 1], delimiter)) && ColumnDue()
      modifies this`acc
      ensures State() == AddText(old(State()), chunk[spanStart..p])
      ensures acc == CollectAll(old(acc), events) && AllPieces(chunk, delimiter, events)
      ensures acc.records == old(acc).records
    {
      assert Stretch(chunk, delimiter, spanStart, p);
      events := EmitFragment(chunk[spanStart..p], false);
    }

    /** A doubled quote inside quotes. */
    method EscapedQuote(chunk: seq<Byte>, spanStart: nat, p: nat, baseOffset: nat) returns (events: seq<Event>)
      requires Scanning(chunk, spanStart, p, baseOffset) && st.inQuotes
      requires p + 1 < |chunk| && chunk[p] == chunk[p + 1] == QUOTE
      modifies this`pos, this`acc
      ensures acc == CollectAll(old(acc), events) && AllPieces(chunk, delimiter, events)
      ensures Scanning(chunk, p + 2, p + 2, baseOffset)
      ensures Outcome(chunk, p + 2, p + 2) == old(Outcome(chunk, spanStart, p))
    {
      hide CollectAll, RunFrom, Step;
      ghost var m := AddText(State(), chunk[spanStart..p]);
      ghost var n := AddText(m, [QUOTE]).(pos := m.pos + 2);
      assert Sane(n) && RunFrom(m, chunk, p, delimiter) == RunFrom(n, chunk, p + 2, delimiter) by {
        EscapedQuoteSteps(m, chunk, p, delimiter);
        SaneText(State(), chunk[spanStart..p], 0);
        SaneText(m, [QUOTE], 2);
      }
      events := EmitSpan(chunk, spanStart, p);
      var ev := EmitFragment([QUOTE], false);
      Extend(old(acc), events, ev, chunk);
      events := events + ev;
      pos := baseOffset + p + 2;
      assert State() == n;
      EmptySpan(chunk, p + 2);
    }

    /** A quote inside quotes that ends the chunk: the next chunk decides what it means. */
    method TrailingQuote(chunk: seq<Byte>, spanStart: nat, p: nat, baseOffset: nat) returns (events: seq<Event>)
      requires Scanning(chunk, spanStart, p, baseOffset) && st.inQuotes
      requires p + 1 == |chunk| && chunk[p] == QUOTE
      modifies this`st, this`pos, this`acc
      ensures acc == CollectAll(old(acc), events) && AllPieces(chunk, delimiter, events)
      ensures Valid() && pos == baseOffset + |chunk| && st == old(st).(pendingQuote := true)
      ensures State() == old(Outcome(chunk, spanStart, p))
    {
      ghost var m := AddText(State(), chunk[spanStart..p]);
      events := EmitSpan(chunk, spanStart, p);
      st := st.(pendingQuote := true);
      pos := baseOffset + p + 1;
      QuoteSteps(m, chunk, p, delimiter);
    }

    /** A quote that closes the quoted text. */
    method ClosingQuote(chunk: seq<Byte>, spanStart: nat, p: nat, baseOffset: nat, isEof: bool)
      returns (events: seq<Event>)
      requires Scanning(chunk, spanStart, p, baseOffset) && st.inQuotes
      requires p < |chunk| && chunk[p] == QUOTE
      requires if p + 1 < |chunk| then chunk[p + 1] != QUOTE else isEof
      modifies this`st, this`pos, this`acc
      ensures acc == CollectAll(old(acc), events) && AllPieces(chunk, delimiter, events)
      ensures Scanning(chunk, p + 1, p + 1, baseOffset) && st == old(st).(inQuotes := false)
      ensures SameOutcome(isEof, Outcome(chunk, p + 1, p + 1), old(Outcome(chunk, spanStart, p)))
    {
      ghost var m := AddText(State(), chunk[spanStart..p]);
      events := EmitSpan(chunk, spanStart, p);
      st := st.(inQuotes := false);
      pos := baseOffset + p + 1;
      EmptySpan(chunk, p + 1);
      QuoteSteps(m, chunk, p, delimiter);
    }

    /** A quote outside quotes opens quoted text, even in the middle of a field. */
    method OpeningQuote(chunk: seq<Byte>, spanStart: nat, p: nat, baseOffset: nat) returns (events: seq<Event>)
      requires Scanning(chunk, spanStart, p, baseOffset) && !st.inQuotes
      requires p < |chunk| && chunk[p] == QUOTE
      modifies this`st, this`pos, this`acc
      ensures acc == CollectAll(old(acc), events) && AllPieces(chunk, delimiter, events)
      ensures Scanning(chunk, p + 1, p + 1, baseOffset) && st == old(st).(sawDataInRecord := true, inQuotes := true)
      ensures Outcome(chunk, p + 1, p + 1) == old(Outcome(chunk, spanStart, p))
    {
      ghost var m := AddText(State(), chunk[spanStart..p]);
      events := EmitSpan(chunk, spanStart, p);
      st := st.(sawDataInRecord := true, inQuotes := true);
      pos := baseOffset + p + 1;
      EmptySpan(chunk, p + 1);
      assert Step(m, QUOTE, delimiter) == State();
    }

    /** A delimiter outside quotes completes the field. */
    method FieldEnd(chunk: seq<Byte>, spanStart: nat, p: nat, baseOffset: nat) returns (events: seq<Event>)
      requires Scanning(chunk, spanStart, p, baseOffset) && !st.inQuotes
      requires p < |chunk| && chunk[p] == delimiter
      modifies this`st, this`pos, this`acc
      ensures acc == CollectAll(old(acc), events) && AllPieces(chunk, delimiter, events)
      ensures Scanning(chunk, p + 1, p + 1, baseOffset)
      ensures st == old(st).(sawDataInRecord := true, colIndex := old(st).colIndex + 1)
      ensures Outcome(chunk, p + 1, p + 1) == old(Outcome(chunk, spanStart, p))
    {
      ghost var m := AddText(State(), chunk[spanStart..p]);
      assert Stretch(chunk, delimiter, spanStart, p);
      events := CompleteField(chunk[spanStart..p]);
      st := st.(sawDataInRecord := true, colIndex := st.colIndex + 1);
      pos := baseOffset + p + 1;
      EmptySpan(chunk, p + 1);
      assert Step(m, delimiter, delimiter) == State();
    }

    /** The field and the record that end at `p`. */
    method CompleteRecord(chunk: seq<Byte>, spanStart: nat, p: nat, baseOffset: nat) returns (events: seq<Event>)
      requires Scanning(chunk, spanStart, p, baseOffset) && !st.inQuotes
      requires p < |chunk| && Special(chunk[p], delimiter)
      modifies this`st, this`acc
      ensures acc == CollectAll(old(acc), events) && AllPieces(chunk, delimiter, events)
      ensures acc == EndRecord(EndField(AddText(old(State()), chunk[spanStart..p])), baseOffset + p, 0).acc
      ensures st == old(st).(recordOrdinal := old(st).recordOrdinal + 1, colIndex := 0,
                             sawDataInRecord := false, hasRecordStart := false)
    {
      assert Stretch(chunk, delimiter, spanStart, p);
      events := CompleteField(chunk[spanStart..p]);
      var ev := FinishRecord(baseOffset + p);
      CollectAllAppend(old(acc), events, ev);
      events := events + ev;
    }

    /** The next record starts at `start`. */
    method BeginRecord(start: nat)
      requires !st.inQuotes && !st.pendingQuote && !st.pendingCr && !st.sawDataInRecord && st.colIndex == 0
      modifies `st, `pos
      ensures st == old(st).(currentRecordStart := start, hasRecordStart := true) && pos == start
      ensures State() == old(State()).(pos := start, start := start)
    {
      st := st.(currentRecordStart := start, hasRecordStart := true);
      pos := start;
    }

    /** A line end outside quotes and the start of the next record. */
    method NextRecord(chunk: seq<Byte>, spanStart: nat, p: nat, baseOffset: nat) returns (next: nat, events: seq<Event>)
      requires Scanning(chunk, spanStart, p, baseOffset) && !st.inQuotes
      requires p < |chunk| && (chunk[p] == CR || chunk[p] == LF)
      modifies `st, `pos, `acc
      ensures acc == CollectAll(old(acc), events) && AllPieces(chunk, delimiter, events)
      ensures st.hasBom == old(st).hasBom
      ensures next == AfterLineEnd(chunk, p) && Scanning(chunk, next, next, baseOffset)
      ensures State() == AfterLine(AddText(old(State()), chunk[spanStart..p]), next - p)
    {
      hide CollectAll, RunFrom, Step;
      ghost var m := AddText(State(), chunk[spanStart..p]);
      next := AfterLineEnd(chunk, p);
      SaneText(State(), chunk[spanStart..p], 0);
      AfterLineSane(m, next - p);
      events := CompleteRecord(chunk, spanStart, p, baseOffset);
      BeginRecord(baseOffset + next);
      assert State() == AfterLine(m, next - p);
    }

    /** A line end outside quotes, unless it is a CR whose LF may be in the next chunk. */
    method LineEnd(chunk: seq<Byte>, spanStart: nat, p: nat, baseOffset: nat, isEof: bool)
      returns (next: nat, events: seq<Event>)
      requires Scanning(chunk, spanStart, p, baseOffset) && !st.inQuotes
      requires p < |chunk| && (chunk[p] == CR || chunk[p] == LF)
      requires chunk[p] == CR && p + 1 == |chunk| ==> isEof
      modifies `st, `pos, `acc
      ensures acc == CollectAll(old(acc), events) && AllPieces(chunk, delimiter, events)
      ensures st.hasBom == old(st).hasBom
      ensures next == AfterLineEnd(chunk, p) && Scanning(chunk, next, next, baseOffset)
      ensures SameOutcome(isEof, Outcome(chunk, next, next), old(Outcome(chunk, spanStart, p)))
    {
      ghost var m := AddText(State(), chunk[spanStart..p]);
      next, events := NextRecord(chunk, spanStart, p, baseOffset);
      EmptySpan(chunk, next);
      if chunk[p] == LF || p + 1 < |chunk| {
        LineEndSteps(m, chunk, p, delimiter);
      } else {
        LastCrSteps(m, chunk, p, delimiter);
      }
    }

    /** A CR that ends the chunk: its LF, if any, opens the next chunk. */
    method TrailingCr(chunk: seq<Byte>, spanStart: nat, p: nat, baseOffset: nat) returns (events: seq<Event>)
      requires Scanning(chunk, spanStart, p, baseOffset) && !st.inQuotes
      requires p + 1 == |chunk| && chunk[p] == CR
      modifies this`st, this`pos, this`acc
      ensures acc == CollectAll(old(acc), events) && AllPieces(chunk, delimiter, events)
      ensures st.hasBom == old(st).hasBom
      ensures Valid() && st.bomChecked && pos == baseOffset + |chunk|
      ensures State() == old(Outcome(chunk, spanStart, p))
    {
      ghost var m := AddText(State(), chunk[spanStart..p]);
      LastCrSteps(m, chunk, p, delimiter);
      events := CompleteRecord(chunk, spanStart, p, baseOffset);
      st := st.(pendingCr := true);
      pos := baseOffset + p + 1;
    }

    /** One step of the scan loop: `stop` says that the chunk ended on a byte whose meaning the
        next chunk decides. */
    method ScanStep(chunk: seq<Byte>, spanStart0: nat, p0: nat, baseOffset: nat, isEof: bool)
      returns (spanStart: nat, p: nat, stop: bool, events: seq<Event>)
      requires Scanning(chunk, spanStart0, p0, baseOffset) && p0 < |chunk|
      modifies this`st, this`pos, this`acc
      ensures acc == CollectAll(old(acc), events) && AllPieces(chunk, delimiter, events)
      ensures st.hasBom == old(st).hasBom
      ensures spanStart <= p && p0 < p <= |chunk|
      ensures !stop ==> Scanning(chunk, spanStart, p, baseOffset)
      ensures stop ==> !isEof && spanStart == p == |chunk| && Valid() && st.bomChecked && pos == baseOffset + |chunk|
      ensures SameOutcome(isEof, Outcome(chunk, spanStart, p), old(Outcome(chunk, spanStart0, p0)))
    {
      var c := chunk[p0];
      stop := false;
      if st.inQuotes && c == QUOTE {
        if p0 + 1 < |chunk| && chunk[p0 + 1] == QUOTE {
          events := EscapedQuote(chunk, spanStart0, p0, baseOffset);
          p := p0 + 2;
        } else if p0 + 1 == |chunk| && !isEof {
          events := TrailingQuote(chunk, spanStart0, p0, baseOffset);
          p, stop := p0 + 1, true;
          EmptySpan(chunk, p);
        } else {
          events := ClosingQuote(chunk, spanStart0, p0, baseOffset, isEof);
          p := p0 + 1;
        }
        spanStart := p;
      } else if !st.inQuotes && c == QUOTE {
        events := OpeningQuote(chunk, spanStart0, p0, baseOffset);
        p, spanStart := p0 + 1, p0 + 1;
      } else if !st.inQuotes && c == delimiter {
        events := FieldEnd(chunk, spanStart0, p0, baseOffset);
        p, spanStart := p0 + 1, p0 + 1;
      } else if !st.inQuotes && (c == CR || c == LF) {
        if c == CR && p0 + 1 == |chunk| && !isEof {
          events := TrailingCr(chunk, spanStart0, p0, baseOffset);
          p, stop := p0 + 1, true;
          EmptySpan(chunk, p);
        } else {
          p, events := LineEnd(chunk, spanStart0, p0, baseOffset, isEof);
        }
        spanStart := p;
      } else {
        TextByte(chunk, spanStart0, p0, baseOffset);
        events, p, spanStart := [], p0 + 1, spanStart0;
      }
    }

    /** A byte that is text: it only extends the pending span. */
    method TextByte(chunk: seq<Byte>, spanStart: nat, p: nat, baseOffset: nat)
      requires Scanning(chunk, spanStart, p, baseOffset) && p < |chunk|
      requires if st.inQuotes then chunk[p] != QUOTE else !Special(chunk[p], delimiter)
      modifies this`st, this`pos
      ensures st == old(st).(sawDataInRecord := true)
      ensures Scanning(chunk, spanStart, p + 1, baseOffset)
      ensures Outcome(chunk, spanStart, p + 1) == old(Outcome(chunk, spanStart, p))
    {
      TextJoins(State(), chunk[spanStart..p], chunk[p]);
      assert chunk[spanStart..p + 1] == chunk[spanStart..p] + [chunk[p]];
      ghost var m := AddText(State(), chunk[spanStart..p]);
      if !st.inQuotes { st := st.(sawDataInRecord := true); }
      pos := baseOffset + p + 1;
      assert AddText(State(), chunk[spanStart..p + 1]) == Step(m, chunk[p], delimiter);
    }

    /** End of input: the callbacks of the last record, if it holds at least one byte. */
    method FinishInput(endOffset: nat) returns (events: seq<Event>)
      requires pos == endOffset && (st.inQuotes ==> st.sawDataInRecord)
      requires ColumnDue() && st.recordOrdinal == |acc.records|
      requires st.sawDataInRecord ==> !st.pendingCr
      modifies this
      ensures acc == CollectAll(old(acc), events) && acc == Finish(old(State())).acc
      ensures delimiter == old(delimiter) && ended && st.hasBom == old(st).hasBom && acc.inOrder
      ensures forall e <- events :: e.Fragment? ==> e.bytes == []
    {
      events := [];
      if st.sawDataInRecord || st.inQuotes {
        events := FlushField();
        var ev := FinishRecord(endOffset);
        CollectAllAppend(old(acc), events, ev);
        events := events + ev;
      }
      ended := true;
    }

    /** The periodic cancellation check, every 64 KiB. */
    method Poll(cancel: CancelCheck, offset: nat, events: seq<Event>) returns (cancelled: bool)
      modifies `bytesSinceCancelCheck
      ensures cancelled ==> cancel(offset, events)
    {
      cancelled := false;
      bytesSinceCancelCheck := bytesSinceCancelCheck + 1;
      if bytesSinceCancelCheck >= CANCEL_CHECK_INTERVAL {
        bytesSinceCancelCheck := 0;
        cancelled := cancel(offset, events);
      }
    }

    /** The scan loop and the text it leaves at the end of the chunk.  `before` are the callbacks
        already made for this chunk, which began when they added up to `acc0`. */
    method ScanLoop(chunk: seq<Byte>, p0: nat, baseOffset: nat, isEof: bool, cancel: CancelCheck, before: seq<Event>,
                    ghost acc0: Collected)
      returns (ok: bool, events: seq<Event>)
      requires Scanning(chunk, p0, p0, baseOffset)
      requires AllPieces(chunk, delimiter, before) && acc == CollectAll(acc0, before)
      modifies `st, `pos, `acc, `bytesSinceCancelCheck
      ensures acc.inOrder
      ensures st.hasBom == old(st).hasBom && st.bomChecked
      ensures acc == CollectAll(acc0, events) && AllPieces(chunk, delimiter, events)
      ensures ok ==> Valid() && pos == baseOffset + |chunk| && (isEof ==> !st.pendingCr)
      ensures ok ==> SameOutcome(isEof, State(), RunFrom(old(State()), chunk, p0, delimiter))
      ensures !ok ==> exists k: nat :: cancel(k, events)
      ensures !ok ==> OnTheWay(acc, AtEnd(isEof, RunFrom(old(State()), chunk, p0, delimiter)).acc)
    {
      ghost var target := RunFrom(State(), chunk, p0, delimiter);
      var p, spanStart, stop := p0, p0, false;
      events := before;
      EmptySpan(chunk, p);
      while p < |chunk| && !stop
        invariant 0 <= spanStart <= p <= |chunk|
        invariant st.hasBom == old(st).hasBom && st.bomChecked
        invariant acc == CollectAll(acc0, events) && AllPieces(chunk, delimiter, events)
        invariant !stop ==> Scanning(chunk, spanStart, p, baseOffset)
        invariant stop ==> !isEof && spanStart == p == |chunk| && Valid() && pos == baseOffset + |chunk|
        invariant SameOutcome(isEof, Outcome(chunk, spanStart, p), target)
        decreases |chunk| - p
      {
        var cancelled := Poll(cancel, baseOffset + p, events);
        if cancelled {
          CancelledGoesOn(chunk, spanStart, p, baseOffset, isEof, target);
          return false, events;
        }
        var ev;
        spanStart, p, stop, ev := ScanStep(chunk, spanStart, p, baseOffset, isEof);
        Extend(acc0, events, ev, chunk);
        events := events + ev;
      }
      if spanStart < p {
        var ev := EmitRest(chunk, spanStart, baseOffset);
        Extend(acc0, events, ev, chunk);
        events := events + ev;
      } else {
        EmptySpan(chunk, p);
      }
      ok := true;
    }

    lemma EmptySpan(chunk: seq<Byte>, p: nat)
      requires p <= |chunk|
      ensures Outcome(chunk, p, p) == RunFrom(State(), chunk, p, delimiter)
    {
      TextJoins(State(), [], QUOTE);
      assert chunk[p..p] == [];
    }

    lemma Extend(acc0: Collected, events: seq<Event>, ev: seq<Event>, chunk: seq<Byte>)
      requires acc == CollectAll(CollectAll(acc0, events), ev)
      requires AllPieces(chunk, delimiter, events) && AllPieces(chunk, delimiter, ev)
      ensures acc == CollectAll(acc0, events + ev) && AllPieces(chunk, delimiter, events + ev)
    {
      CollectAllAppend(acc0, events, ev);
    }

    /** The text pending at the end of the chunk. */
    method EmitRest(chunk: seq<Byte>, spanStart: nat, baseOffset: nat) returns (events: seq<Event>)
      requires spanStart < |chunk| && Scanning(chunk, spanStart, |chunk|, baseOffset)
      modifies `acc
      ensures acc == CollectAll(old(acc), events) && AllPieces(chunk, delimiter, events)
      ensures Valid() && State() == old(Outcome(chunk, spanStart, |chunk|))
    {
      assert Stretch(chunk, delimiter, spanStart, |chunk|);
      events := EmitFragment(chunk[spanStart..], false);
      assert chunk[spanStart..] == chunk[spanStart..|chunk|];
    }

    /** What a cancelled scan has delivered is the beginning of what the whole scan delivers. */
    lemma CancelledGoesOn(chunk: seq<Byte>, spanStart: nat, p: nat, baseOffset: nat, isEof: bool, target: Machine)
      requires Scanning(chunk, spanStart, p, baseOffset) && SameOutcome(isEof, Outcome(chunk, spanStart, p), target)
      ensures OnTheWay(acc, AtEnd(isEof, target).acc)
    {
      var m := AddText(State(), chunk[spanStart..p]);
      RunFromGoesOn(m, chunk, p, delimiter);
      OnTheWayTrans(acc, m.acc, AtEnd(isEof, target).acc);
    }

    /** Sections 2 and 3 of a feed. */
    method ResolvePending(chunk: seq<Byte>, baseOffset: nat, isEof: bool) returns (p: nat, events: seq<Event>)
      requires Valid() && st.bomChecked && pos == baseOffset
      modifies `st, `pos, `acc
      ensures st.hasBom == old(st).hasBom && st.bomChecked && p <= |chunk|
      ensures acc == CollectAll(old(acc), events) && AllPieces(chunk, delimiter, events)
      ensures chunk != [] ==> Scanning(chunk, p, p, baseOffset)
      ensures chunk != [] ==> RunFrom(State(), chunk, p, delimiter) == Run(old(State()), chunk, delimiter)
      ensures chunk == [] ==> pos == baseOffset
      ensures chunk == [] && !isEof ==> Valid() && State() == Run(old(State()), chunk, delimiter)
      ensures chunk == [] && isEof ==> !st.pendingCr && (st.inQuotes ==> st.sawDataInRecord)
      ensures chunk == [] && isEof ==> ColumnDue() && st.recordOrdinal == |acc.records|
      ensures chunk == [] && isEof ==> Finish(State()).acc == Finish(Run(old(State()), chunk, delimiter)).acc
    {
      assert chunk[0..] == chunk;
      RunFromIsRun(State(), chunk, 0, delimiter);
      p := ResolveCr(chunk, 0, baseOffset, isEof);
      p, events := ResolveQuote(chunk, p, baseOffset, isEof);
    }

    /** Sections 2 to 4 of a feed: all of it, once the byte order mark is settled. */
    method ScanFrom(chunk: seq<Byte>, baseOffset: nat, isEof: bool, cancel: CancelCheck)
      returns (ok: bool, events: seq<Event>)
      requires Valid() && st.bomChecked && pos == baseOffset
      modifies this
      ensures acc.inOrder
      ensures delimiter == old(delimiter) && st.hasBom == old(st).hasBom
      ensures acc == CollectAll(old(acc), events) && AllPieces(chunk, delimiter, events)
      ensures ok && !isEof ==> Valid() && st.bomChecked && State() == Run(old(State()), chunk, delimiter)
      ensures ok && !isEof ==> pos == baseOffset + |chunk|
      ensures ok && isEof ==> acc == Finish(Run(old(State()), chunk, delimiter)).acc
      ensures !ok ==> exists k: nat :: cancel(k, events)
      ensures !ok ==> OnTheWay(acc, AtEnd(isEof, Run(old(State()), chunk, delimiter)).acc)
    {
      ghost var acc0 := acc;
      var p;
      p, events := ResolvePending(chunk, baseOffset, isEof);
      ok := true;
      if chunk != [] {
        ok, events := ScanLoop(chunk, p, baseOffset, isEof, cancel, events, acc0);
      }
      if ok && isEof {
        var ev := FinishInput(baseOffset + |chunk|);
        Extend(acc0, events, ev, chunk);
        events := events + ev;
      } else if !ok {
        ended := true;
      }
    }

    /** What all callbacks since the reset add up to after a whole feed. */
    ghost function FedTo(before: Scan, chunk: seq<Byte>, baseOffset: nat, isEof: bool): Collected
      reads `delimiter
    {
      var after := Fed(before, chunk, baseOffset, delimiter);
      if isEof then Ended(after, delimiter).acc
      else if after.Running? then after.m.acc else NOTHING
    }

    /** Feeds the next chunk.  Chunks are contiguous: each starts where the last one ended.  After
        the last chunk, or after a cancellation, the scanner has to be reset. */
    method Feed(chunk: seq<Byte>, baseOffset: nat, isEof: bool, cancel: CancelCheck)
      returns (ok: bool, events: seq<Event>)
      requires Valid() && (st.bomChecked || st.bomBuffer != [] ==> baseOffset == pos)
      modifies this
      ensures acc.inOrder
      ensures delimiter == old(delimiter)
      ensures acc == CollectAll(old(acc), events)
      ensures ok ==> acc == FedTo(old(Scanned()), chunk, baseOffset, isEof)
      ensures ok && !isEof ==> Valid() && Scanned() == Fed(old(Scanned()), chunk, baseOffset, delimiter)
      ensures ok && !isEof && (st.bomChecked || st.bomBuffer != []) ==> pos == baseOffset + |chunk|
      ensures !ok ==> exists k: nat :: cancel(k, events)
      ensures !ok ==> OnTheWay(acc, FedTo(old(Scanned()), chunk, baseOffset, isEof))
      ensures old(st.bomChecked) || (baseOffset > 0 && old(st.bomBuffer) == []) ==> AllPieces(chunk, delimiter, events)
    {
      if st.bomChecked {
        ok, events := ScanFrom(chunk, baseOffset, isEof, cancel);
      } else if baseOffset > 0 && st.bomBuffer == [] {
        // A slice of the file: no byte order mark to look for
        st := st.(bomChecked := true, hasBom := false, currentRecordStart := baseOffset, hasRecordStart := true);
        pos := baseOffset;
        ok, events := ScanFrom(chunk, baseOffset, isEof, cancel);
      } else if st.bomBuffer == [] && baseOffset == 0 && |chunk| >= 3 {
        var skip := BomLength(chunk);
        st := st.(bomChecked := true, hasBom := skip == 3, currentRecordStart := skip, hasRecordStart := true);
        pos := skip;
        assert [] + chunk == chunk;
        ok, events := ScanFrom(chunk[skip..], baseOffset + skip, isEof, cancel);
      } else {
        ok, events := FeedBuffered(chunk, baseOffset, isEof, cancel);
      }
    }

    /** The first three bytes arrive in pieces: they are held back until they are complete. */
    method FeedBuffered(chunk: seq<Byte>, baseOffset: nat, isEof: bool, cancel: CancelCheck)
      returns (ok: bool, events: seq<Event>)
      requires Valid() && !st.bomChecked && baseOffset == pos
      requires st.bomBuffer == [] ==> |chunk| < 3
      modifies this
      ensures acc.inOrder
      ensures delimiter == old(delimiter)
      ensures acc == CollectAll(old(acc), events)
      ensures ok ==> acc == FedTo(old(Scanned()), chunk, baseOffset, isEof)
      ensures ok && !isEof ==> Valid() && Scanned() == Fed(old(Scanned()), chunk, baseOffset, delimiter)
      ensures ok && !isEof && (st.bomChecked || st.bomBuffer != []) ==> pos == baseOffset + |chunk|
      ensures !ok ==> exists k: nat :: cancel(k, events)
      ensures !ok ==> OnTheWay(acc, FedTo(old(Scanned()), chunk, baseOffset, isEof))
    {
      var needed := 3 - |st.bomBuffer|;
      var take := if needed <= |chunk| then needed else |chunk|;
      var held, rest := st.bomBuffer + chunk[..take], chunk[take..];
      HeldSplits(st.bomBuffer, chunk, take, delimiter);
      st := st.(bomBuffer := held);
      pos := |held|;
      if |held| < 3 && !isEof {
        return true, [];
      }
      st := st.(bomChecked := true, bomBuffer := [], hasRecordStart := true);
      if BomLength(held) == 3 {
        st := st.(hasBom := true, currentRecordStart := 3);
        ok, events := ScanFrom(rest, baseOffset + take, isEof, cancel);
      } else {
        st := st.(hasBom := false, currentRecordStart := 0);
        pos := 0;
        ok, events := ScanHeld(held, rest, isEof, cancel);
      }
    }

    /** Held-back bytes that are no byte order mark are scanned first, then the rest of the chunk. */
    method ScanHeld(held: seq<Byte>, rest: seq<Byte>, isEof: bool, cancel: CancelCheck)
      returns (ok: bool, events: seq<Event>)
      requires Valid() && st.bomChecked && State() == Init(0)
      modifies this
      ensures acc.inOrder
      ensures delimiter == old(delimiter)
      ensures acc == CollectAll(old(acc), events)
      ensures ok && !isEof ==> Valid() && st.bomChecked && State() == Run(Init(0), held + rest, delimiter)
      ensures ok && !isEof ==> pos == |held| + |rest|
      ensures ok && isEof ==> acc == Finish(Run(Init(0), held + rest, delimiter)).acc
      ensures !ok ==> exists k: nat :: cancel(k, events)
      ensures !ok ==> OnTheWay(acc, AtEnd(isEof, Run(Init(0), held + rest, delimiter)).acc)
    {
      ghost var acc0, m := acc, Run(Init(0), held, delimiter);
      RunAppend(Init(0), held, rest, delimiter);
      RunSane(Init(0), held, delimiter);
      RunSane(m, rest, delimiter);
      ok, events := ScanFrom(held, 0, false, cancel);
      if ok {
        var later;
        var first := events;
        ok, later := ScanFrom(rest, |held|, isEof, (k: nat, ev: seq<Event>) => cancel(k, first + ev));
        CollectAllAppend(acc0, first, later);
        events := first + later;
      } else {
        RunFromIsRun(m, rest, 0, delimiter);
        assert rest[0..] == rest;
        RunFromGoesOn(m, rest, 0, delimiter);
        OnTheWayTrans(acc, m.acc, AtEnd(isEof, Run(m, rest, delimiter)).acc);
      }
    }
  }
  /** A never-ending check never stops a scan. */
  const NEVER: CancelCheck := (offset, events) => false

  /** Scanning a file in the given chunks, the last one marked as the end of the file, collects
      exactly its one-shot decode. */
  method ScanChunks(chunks: seq<seq<Byte>>, d: Byte) returns (records: seq<Record>)
    requires chunks != [] && ValidDelimiter(d) && d != 0
    ensures records == Decode(Joined(chunks), d)
  {
    var scanner := new CsvRecordScanner(d);
    var events, offset := [], 0;
    var n := |chunks| - 1;
    for i := 0 to n
      invariant scanner.Valid() && scanner.delimiter == d && fresh(scanner)
      invariant offset == |Joined(chunks[..i])|
      invariant scanner.Scanned() == FedAll(chunks[..i], 0, d)
      invariant offset == 0 || scanner.pos == offset
      invariant scanner.acc == CollectAll(NOTHING, events)
    {
      assert chunks[..i + 1][..i] == chunks[..i];
      FedFromStart(chunks[..i], d);
      var ok, ev := scanner.Feed(chunks[i], offset, false, NEVER);
      CollectAllAppend(NOTHING, events, ev);
      events, offset := events + ev, offset + |chunks[i]|;
      FedFromStart(chunks[..i + 1], d);
    }
    assert chunks[..n + 1] == chunks && chunks[..n + 1][..n] == chunks[..n];
    FedFromStart(chunks[..n], d);
    var ok, ev := scanner.Feed(chunks[n], offset, true, NEVER);
    CollectAllAppend(NOTHING, events, ev);
    ChunkInvariance(chunks, d);
    FedFromStart(chunks, d);
    records := CollectAll(NOTHING, events + ev).records;
  }
}
