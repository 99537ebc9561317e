/** The reference meaning of a CSV byte sequence: a recursive decode of the whole input, with
    unbounded lookahead and no state.  It follows section 2 of RFC 4180 with the leniencies of
    the application: a bare CR ends a record, a quote may open in the middle of a field, text may
    follow a closing quote, and an unclosed quote runs to the end of the input.

    All functions read the window `s[i..lim]` of a larger sequence, so the decode of a slice of a
    file is the decode of the same file with smaller bounds. */
module CsvGrammar {
  newtype Byte = b: int | 0 <= b < 256

  const QUOTE: Byte := 0x22
  const CR: Byte := 0x0D
  const LF: Byte := 0x0A
  const MAX_COLUMNS := 256

  /** One decoded record: its byte span (terminator excluded) and its unescaped fields. */
  datatype Record = Record(start: nat, end: nat, fields: seq<seq<Byte>>)

  datatype FieldScan = FieldScan(value: seq<Byte>, end: nat)
  datatype RecordScan = RecordScan(fields: seq<seq<Byte>>, end: nat)

  predicate ValidDelimiter(d: Byte) {
    d != QUOTE && d != CR && d != LF
  }

  predicate EndsField(b: Byte, d: Byte) {
    b == d || b == CR || b == LF
  }

  /** Field text outside quotes, up to a delimiter, a line end or the end of the window. */
  function BareText(s: seq<Byte>, lim: nat, i: nat, d: Byte): (r: FieldScan)
    requires i <= lim <= |s|
    ensures i <= r.end <= lim
    ensures r.end == lim || EndsField(s[r.end], d)
    decreases lim - i
  {
    if i == lim || EndsField(s[i], d) then FieldScan([], i)
    else if s[i] == QUOTE then QuotedText(s, lim, i + 1, d)
    else var r := BareText(s, lim, i + 1, d); FieldScan([s[i]] + r.value, r.end)
  }

  /** Field text inside quotes; a doubled quote is one quote, a single one closes. */
  function QuotedText(s: seq<Byte>, lim: nat, i: nat, d: Byte): (r: FieldScan)
    requires i <= lim <= |s|
    ensures i <= r.end <= lim
    ensures r.end == lim || EndsField(s[r.end], d)
    decreases lim - i
  {
    if i == lim then FieldScan([], i)
    else if s[i] != QUOTE then
      var r := QuotedText(s, lim, i + 1, d); FieldScan([s[i]] + r.value, r.end)
    else if i + 1 < lim && s[i + 1] == QUOTE then
      var r := QuotedText(s, lim, i + 2, d); FieldScan([QUOTE] + r.value, r.end)
    else BareText(s, lim, i + 1, d)
  }

  /** All fields of the record that starts at `i`, and the offset of its end. */
  function RecordFields(s: seq<Byte>, lim: nat, i: nat, d: Byte): (r: RecordScan)
    requires i <= lim <= |s|
    ensures i <= r.end <= lim && r.fields != []
    ensures r.end == lim || EndsField(s[r.end], d)
    decreases lim - i
  {
    var f := BareText(s, lim, i, d);
    if f.end < lim && s[f.end] == d then
      var rest := RecordFields(s, lim, f.end + 1, d);
      RecordScan([f.value] + rest.fields, rest.end)
    else RecordScan([f.value], f.end)
  }

  /** The offset after the LF, CR or CRLF at `e`; `e` itself at the end of the window. */
  function AfterTerminator(s: seq<Byte>, lim: nat, e: nat): (n: nat)
    requires e <= lim <= |s|
    ensures e <= n <= lim && (e < lim ==> e < n)
  {
    if e == lim then e
    else if s[e] == CR && e + 1 < lim && s[e + 1] == LF then e + 2
    else e + 1
  }

  /** At most the first 256 fields of a record are ever delivered. */
  function Kept(fields: seq<seq<Byte>>): seq<seq<Byte>> {
    if |fields| <= MAX_COLUMNS then fields else fields[..MAX_COLUMNS]
  }

  /** Every record of the window `s[i..lim]`, in order. */
  function Records(s: seq<Byte>, lim: nat, i: nat, d: Byte): (rs: seq<Record>)
    requires i <= lim <= |s|
    decreases lim - i
  {
    if i == lim then []
    else
      var r := RecordFields(s, lim, i, d);
      [Record(i, r.end, Kept(r.fields))] + Records(s, lim, AfterTerminator(s, lim, r.end), d)
  }

  /** Length of a UTF-8 byte order mark at the head of `s`. */
  function BomLength(s: seq<Byte>): (n: nat)
    ensures n <= |s|
  {
    if |s| >= 3 && s[0] == 0xEF && s[1] == 0xBB && s[2] == 0xBF then 3 else 0
  }

  /** The one-shot decode of a whole file. */
  function Decode(s: seq<Byte>, d: Byte): seq<Record> {
    Records(s, |s|, BomLength(s), d)
  }

  // ---- Shape of the decoded record list ----------------------------------------------------

  /** A record never ends on a delimiter, so the byte after it, if any, is a line end. */
  lemma {:induction false} RecordEndsAtLineEnd(s: seq<Byte>, lim: nat, i: nat, d: Byte)
    requires i <= lim <= |s|
    ensures var e := RecordFields(s, lim, i, d).end; e < lim ==> s[e] == CR || s[e] == LF
    decreases lim - i
  {
    var f := BareText(s, lim, i, d);
    if f.end < lim && s[f.end] == d {
      RecordEndsAtLineEnd(s, lim, f.end + 1, d);
    }
  }

  /** What `BytesConserved` says of the records from index `k` on: they tile `s[at..]`. */
  ghost predicate Tiles(s: seq<Byte>, at: nat, rs: seq<Record>)
    requires at <= |s|
    decreases |rs|
  {
    if rs == [] then at == |s|
    else
      && rs[0].start == at
      && rs[0].start <= rs[0].end <= |s|
      && at < |s|
      && (rs[0].end == |s| ==> |rs| == 1)
      && (rs[0].end < |s| ==> s[rs[0].end] == CR || s[rs[0].end] == LF)
      && Tiles(s, AfterTerminator(s, |s|, rs[0].end), rs[1..])
  }

  lemma {:induction false} RecordsTile(s: seq<Byte>, i: nat, d: Byte)
    requires i <= |s|
    ensures Tiles(s, i, Records(s, |s|, i, d))
    decreases |s| - i
  {
    if i < |s| {
      var e := RecordFields(s, |s|, i, d).end;
      RecordEndsAtLineEnd(s, |s|, i, d);
      var next := AfterTerminator(s, |s|, e);
      RecordsTile(s, next, d);
      var rs := Records(s, |s|, i, d);
      assert rs[1..] == Records(s, |s|, next, d);
    }
  }

  /** Concatenation of every record's raw bytes and of the terminator that follows it. */
  ghost function Rebuilt(s: seq<Byte>, rs: seq<Record>): seq<Byte>
    requires forall r <- rs :: r.start <= r.end <= |s|
  {
    if rs == [] then []
    else s[rs[0].start..rs[0].end] + s[rs[0].end..AfterTerminator(s, |s|, rs[0].end)] + Rebuilt(s, rs[1..])
  }

  /** Tiled records lie inside the file, are ordered, and leave a gap for their terminator. */
  lemma {:induction false} TilesAreOrdered(s: seq<Byte>, at: nat, rs: seq<Record>)
    requires at <= |s| && Tiles(s, at, rs)
    ensures forall k | 0 <= k < |rs| :: at <= rs[k].start <= rs[k].end <= |s|
    ensures forall j, k | 0 <= j < k < |rs| :: rs[j].end < rs[k].start
    decreases |rs|
  {
    if rs != [] {
      var next := AfterTerminator(s, |s|, rs[0].end);
      TilesAreOrdered(s, next, rs[1..]);
      forall k | 0 <= k < |rs| ensures at <= rs[k].start <= rs[k].end <= |s| {
        if k > 0 { assert rs[k] == rs[1..][k - 1]; }
      }
      forall j, k | 0 <= j < k < |rs| ensures rs[j].end < rs[k].start {
        assert rs[k] == rs[1..][k - 1];
        if j > 0 { assert rs[j] == rs[1..][j - 1]; }
        else if rs[0].end == |s| { assert false; }
      }
    }
  }

  lemma {:induction false} TilesRebuild(s: seq<Byte>, at: nat, rs: seq<Record>)
    requires at <= |s| && Tiles(s, at, rs)
    ensures forall r <- rs :: r.start <= r.end <= |s|
    ensures Rebuilt(s, rs) == s[at..]
    decreases |rs|
  {
    if rs == [] {
      assert s[at..] == [];
    } else {
      var next := AfterTerminator(s, |s|, rs[0].end);
      TilesRebuild(s, next, rs[1..]);
      forall r | r in rs ensures r.start <= r.end <= |s| {
        if r != rs[0] { assert r in rs[1..]; }
      }
      assert s[at..] == s[at..rs[0].end] + s[rs[0].end..next] + s[next..];
    }
  }

  /** Byte conservation: a file is its byte order mark followed by alternating records and
      terminators, with nothing lost, repeated or reordered; only a final record lacks a
      terminator, and distinct spans never touch. */
  lemma BytesConserved(s: seq<Byte>, d: Byte)
    ensures var rs := Decode(s, d);
      && (forall k | 0 <= k < |rs| :: BomLength(s) <= rs[k].start <= rs[k].end <= |s|)
      && (forall j, k | 0 <= j < k < |rs| :: rs[j].end < rs[k].start)
      && (forall r <- rs :: r.start <= r.end <= |s|)
      && s == (if MARK <= s then MARK else []) + Rebuilt(s, rs)
      && (forall k | 0 <= k < |rs| :: rs[k].end < |s| ==> s[rs[k].end] == CR || s[rs[k].end] == LF)
      && (forall k | 0 <= k < |rs| - 1 :: rs[k].end < |s|)
  {
    var rs := Decode(s, d);
    RecordsTile(s, BomLength(s), d);
    TilesAreOrdered(s, BomLength(s), rs);
    TilesRebuild(s, BomLength(s), rs);
    MarkLength(s);
    assert s == s[..BomLength(s)] + s[BomLength(s)..];
    forall k | 0 <= k < |rs|
      ensures rs[k].end < |s| ==> s[rs[k].end] == CR || s[rs[k].end] == LF
    {
      TilesEndAtLineEnd(s, BomLength(s), rs, k);
    }
    forall k | 0 <= k < |rs| - 1 ensures rs[k].end < |s| {
      assert rs[k].end < rs[k + 1].start;
    }
  }

  lemma {:induction false} TilesEndAtLineEnd(s: seq<Byte>, at: nat, rs: seq<Record>, k: nat)
    requires at <= |s| && Tiles(s, at, rs) && k < |rs|
    ensures rs[k].end < |s| ==> s[rs[k].end] == CR || s[rs[k].end] == LF
    decreases k
  {
    if k > 0 {
      assert rs[k] == rs[1..][k - 1];
      TilesEndAtLineEnd(s, AfterTerminator(s, |s|, rs[0].end), rs[1..], k - 1);
    }
  }

  // ---- Re-scanning one record --------------------------------------------------------------

  /** Cutting the window at `cut` does not change a field that already ends there. */
  lemma {:induction false} BareTextCut(s: seq<Byte>, lim: nat, cut: nat, i: nat, d: Byte)
    requires i <= cut <= lim <= |s|
    requires BareText(s, lim, i, d).end <= cut
    requires cut < lim ==> s[cut] != QUOTE
    ensures BareText(s, cut, i, d) == BareText(s, lim, i, d)
    decreases lim - i
  {
    if i < lim && !EndsField(s[i], d) {
      if s[i] == QUOTE { QuotedTextCut(s, lim, cut, i + 1, d); }
      else { BareTextCut(s, lim, cut, i + 1, d); }
    }
  }

  lemma {:induction false} QuotedTextCut(s: seq<Byte>, lim: nat, cut: nat, i: nat, d: Byte)
    requires i <= cut <= lim <= |s|
    requires QuotedText(s, lim, i, d).end <= cut
    requires cut < lim ==> s[cut] != QUOTE
    ensures QuotedText(s, cut, i, d) == QuotedText(s, lim, i, d)
    decreases lim - i
  {
    if i < lim {
      if s[i] != QUOTE { QuotedTextCut(s, lim, cut, i + 1, d); }
      else if i + 1 < lim && s[i + 1] == QUOTE { QuotedTextCut(s, lim, cut, i + 2, d); }
      else { BareTextCut(s, lim, cut, i + 1, d); }
    }
  }

  lemma {:induction false} RecordFieldsCut(s: seq<Byte>, lim: nat, i: nat, d: Byte)
    requires i <= lim <= |s| && ValidDelimiter(d)
    ensures var r := RecordFields(s, lim, i, d); RecordFields(s, r.end, i, d) == r
    decreases lim - i
  {
    var r := RecordFields(s, lim, i, d);
    RecordEndsAtLineEnd(s, lim, i, d);
    var f := BareText(s, lim, i, d);
    BareTextCut(s, lim, r.end, i, d);
    if f.end < lim && s[f.end] == d {
      RecordFieldsCut(s, lim, f.end + 1, d);
    }
  }

  /** Every record of a window starts inside it and is what `RecordFields` finds there. */
  lemma {:induction false} RecordIsScan(s: seq<Byte>, lim: nat, i: nat, d: Byte, k: nat)
    requires i <= lim <= |s| && k < |Records(s, lim, i, d)|
    ensures var r := Records(s, lim, i, d)[k];
      && i <= r.start < lim
      && r == Record(r.start, RecordFields(s, lim, r.start, d).end, Kept(RecordFields(s, lim, r.start, d).fields))
    decreases lim - i
  {
    if k > 0 {
      var next := AfterTerminator(s, lim, RecordFields(s, lim, i, d).end);
      assert Records(s, lim, i, d)[k] == Records(s, lim, next, d)[k - 1];
      RecordIsScan(s, lim, next, d, k - 1);
    }
  }

  /** Decoding only the bytes of one record gives that record back, except that a blank record
      decodes to no record at all. */
  lemma RecordDecodesAlone(s: seq<Byte>, lim: nat, i: nat, d: Byte, k: nat)
    requires i <= lim <= |s| && k < |Records(s, lim, i, d)| && ValidDelimiter(d)
    ensures var r := Records(s, lim, i, d)[k];
      && r.start <= r.end <= lim
      && Records(s, r.end, r.start, d) == (if r.start == r.end then [] else [r])
      && (r.start == r.end ==> r.fields == [[]])
  {
    RecordIsScan(s, lim, i, d, k);
    var r := Records(s, lim, i, d)[k];
    RecordFieldsCut(s, lim, r.start, d);
    if r.start == r.end {
      var f := BareText(s, lim, r.start, d);
      assert f.end == r.start;
    }
  }

  // ---- The byte order mark -----------------------------------------------------------------

  const MARK: seq<Byte> := [0xEF, 0xBB, 0xBF]

  function MovedBy(rs: seq<Record>, n: nat): (later: seq<Record>)
    ensures |later| == |rs|
    ensures forall k | 0 <= k < |rs| :: later[k] == Record(rs[k].start + n, rs[k].end + n, rs[k].fields)
  {
    seq(|rs|, k requires 0 <= k < |rs| => Record(rs[k].start + n, rs[k].end + n, rs[k].fields))
  }

  /** A field does not depend on what stands before it. */
  lemma {:induction false} BareTextLater(p: seq<Byte>, s: seq<Byte>, i: nat, d: Byte)
    requires i <= |s|
    ensures var r := BareText(s, |s|, i, d);
      BareText(p + s, |p + s|, |p| + i, d) == FieldScan(r.value, |p| + r.end)
    decreases |s| - i
  {
    if i < |s| && !EndsField(s[i], d) {
      if s[i] == QUOTE { QuotedTextLater(p, s, i + 1, d); }
      else { BareTextLater(p, s, i + 1, d); }
    }
  }

  lemma {:induction false} QuotedTextLater(p: seq<Byte>, s: seq<Byte>, i: nat, d: Byte)
    requires i <= |s|
    ensures var r := QuotedText(s, |s|, i, d);
      QuotedText(p + s, |p + s|, |p| + i, d) == FieldScan(r.value, |p| + r.end)
    decreases |s| - i
  {
    if i < |s| {
      if s[i] != QUOTE { QuotedTextLater(p, s, i + 1, d); }
      else if i + 1 < |s| && s[i + 1] == QUOTE { QuotedTextLater(p, s, i + 2, d); }
      else { BareTextLater(p, s, i + 1, d); }
    }
  }

  lemma {:induction false} RecordFieldsLater(p: seq<Byte>, s: seq<Byte>, i: nat, d: Byte)
    requires i <= |s|
    ensures var r := RecordFields(s, |s|, i, d);
      RecordFields(p + s, |p + s|, |p| + i, d) == RecordScan(r.fields, |p| + r.end)
    decreases |s| - i
  {
    hide BareText;
    BareTextLater(p, s, i, d);
    var f := BareText(s, |s|, i, d);
    if f.end < |s| && s[f.end] == d {
      RecordFieldsLater(p, s, f.end + 1, d);
    }
  }

  lemma {:induction false} RecordsLater(p: seq<Byte>, s: seq<Byte>, i: nat, d: Byte)
    requires i <= |s|
    ensures Records(p + s, |p + s|, |p| + i, d) == MovedBy(Records(s, |s|, i, d), |p|)
    decreases |s| - i
  {
    hide RecordFields, Kept, AfterTerminator, MovedBy;
    if i < |s| {
      var r := RecordFields(s, |s|, i, d);
      var next := AfterTerminator(s, |s|, r.end);
      RecordFieldsLater(p, s, i, d);
      TerminatorLater(p, s, r.end);
      RecordsLater(p, s, next, d);
      LaterStep(Record(i, r.end, Kept(r.fields)), Records(s, |s|, next, d), |p|);
    }
  }

  lemma TerminatorLater(p: seq<Byte>, s: seq<Byte>, e: nat)
    requires e <= |s|
    ensures AfterTerminator(p + s, |p + s|, |p| + e) == |p| + AfterTerminator(s, |s|, e)
  {
  }

  lemma LaterStep(r: Record, rs: seq<Record>, n: nat)
    ensures MovedBy([r] + rs, n) == [Record(r.start + n, r.end + n, r.fields)] + MovedBy(rs, n)
  {
  }

  /** The mark is no text: a file that starts with it has the records of the bytes behind it, three bytes
      later; any other file is text from its first byte. */
  lemma MarkIsSkipped(s: seq<Byte>, d: Byte)
    ensures if MARK <= s then Decode(s, d) == MovedBy(Records(s[3..], |s| - 3, 0, d), 3)
            else Decode(s, d) == Records(s, |s|, 0, d)
  {
    hide BomLength, Records, MovedBy;
    MarkLength(s);
    if MARK <= s {
      assert s == MARK + s[3..];
      RecordsLater(MARK, s[3..], 0, d);
    }
  }

  lemma MarkLength(s: seq<Byte>)
    ensures BomLength(s) == if MARK <= s then 3 else 0
  {
    if BomLength(s) == 3 {
      assert s[..3] == MARK;
    }
    assert MARK <= s ==> s[0] == MARK[0] && s[1] == MARK[1] && s[2] == MARK[2];
  }

  // ---- Terminators -------------------------------------------------------------------------

  /** What stands between two records is one line end: LF, CR or CRLF; behind the last record it may be
      missing. */
  lemma TerminatorsBetween(s: seq<Byte>, d: Byte, k: nat)
    requires k < |Decode(s, d)|
    ensures var rs := Decode(s, d);
      var next := if k + 1 < |rs| then rs[k + 1].start else |s|;
      && rs[k].end <= next <= |s|
      && var gap := s[rs[k].end..next];
         && gap in [[LF], [CR], [CR, LF], []] && (gap == [] ==> rs[k].end == |s|)
         && (gap == [CR] && next < |s| ==> s[next] != LF)
  {
    TerminatorAt(s, BomLength(s), d, k);
  }

  lemma {:induction false} TerminatorAt(s: seq<Byte>, i: nat, d: Byte, k: nat)
    requires i <= |s| && k < |Records(s, |s|, i, d)|
    ensures var rs := Records(s, |s|, i, d);
      var next := if k + 1 < |rs| then rs[k + 1].start else |s|;
      && rs[k].end <= next <= |s|
      && var gap := s[rs[k].end..next];
         && gap in [[LF], [CR], [CR, LF], []] && (gap == [] ==> rs[k].end == |s|)
         && (gap == [CR] && next < |s| ==> s[next] != LF)
    decreases k
  {
    hide RecordFields, AfterTerminator;
    var e := RecordFields(s, |s|, i, d).end;
    var next := AfterTerminator(s, |s|, e);
    if k == 0 {
      RecordEndsAtLineEnd(s, |s|, i, d);
      GapBehind(s, e);
    } else {
      TerminatorAt(s, next, d, k - 1);
      assert Records(s, |s|, i, d)[1..] == Records(s, |s|, next, d);
    }
  }

  lemma GapBehind(s: seq<Byte>, e: nat)
    requires e <= |s| && (e < |s| ==> s[e] == CR || s[e] == LF)
    ensures var next := AfterTerminator(s, |s|, e);
      var gap := s[e..next];
      && gap in [[LF], [CR], [CR, LF], []] && (gap == [] ==> e == |s|)
      && (gap == [CR] && next < |s| ==> s[next] != LF)
  {
    var next := AfterTerminator(s, |s|, e);
    assert s[e..next] == if e == |s| then [] else if next == e + 2 then [CR, LF] else [s[e]];
  }

  // ---- Data records ------------------------------------------------------------------------

  /** Data records (all but the first) start above offset 0, so re-scanning one never probes
      for a byte order mark. */
  lemma DataRecordsStartAboveZero(s: seq<Byte>, d: Byte, k: nat)
    requires 1 <= k < |Decode(s, d)|
    ensures Decode(s, d)[k].start > 0
  {
    BytesConserved(s, d);
    assert Decode(s, d)[0].end < Decode(s, d)[k].start;
  }
}
