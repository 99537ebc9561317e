/** A writer that follows section 2 of RFC 4180 (every field quoted, quotes doubled, CRLF after
    every record), and the proof that scanning its output in any chunks returns the table. */
module CsvEncode {
  import opened CsvGrammar
  import opened CsvMachine

  function Escaped(b: Byte): seq<Byte> {
    if b == QUOTE then [QUOTE, QUOTE] else [b]
  }

  function Escape(f: seq<Byte>): seq<Byte> {
    if f == [] then [] else Escaped(f[0]) + Escape(f[1..])
  }

  function EncodeField(f: seq<Byte>): seq<Byte> {
    [QUOTE] + Escape(f) + [QUOTE]
  }

  function EncodeRecord(fields: seq<seq<Byte>>, d: Byte): seq<Byte>
    requires fields != []
  {
    if |fields| == 1 then EncodeField(fields[0]) + [CR, LF]
    else EncodeField(fields[0]) + [d] + EncodeRecord(fields[1..], d)
  }

  predicate Encodable(table: seq<seq<seq<Byte>>>) {
    forall k | 0 <= k < |table| :: 1 <= |table[k]| <= MAX_COLUMNS
  }

  function Encode(table: seq<seq<seq<Byte>>>, d: Byte): seq<Byte>
    requires Encodable(table)
  {
    if table == [] then [] else EncodeRecord(table[0], d) + Encode(table[1..], d)
  }

  function FieldsOf(rs: seq<Record>): seq<seq<seq<Byte>>> {
    if rs == [] then [] else [rs[0].fields] + FieldsOf(rs[1..])
  }

  /** `part` stands at offset `i` of `s`. */
  predicate At(s: seq<Byte>, i: nat, part: seq<Byte>) {
    i + |part| <= |s| && s[i..i + |part|] == part
  }

  lemma AtSplit(s: seq<Byte>, i: nat, a: seq<Byte>, b: seq<Byte>)
    requires At(s, i, a + b)
    ensures At(s, i, a) && At(s, i + |a|, b)
  {
    var t := s[i..i + |a + b|];
    assert t[..|a|] == a && t[|a|..] == b;
  }

  lemma AtEnds(s: seq<Byte>, i: nat, part: seq<Byte>)
    requires At(s, i, part)
    ensures i + |part| <= |s|
  {
  }

  lemma AtByte(s: seq<Byte>, i: nat, b: Byte)
    requires At(s, i, [b])
    ensures s[i] == b
  {
    assert s[i..i + 1][0] == b;
  }

  lemma {:induction false} EscapedFieldScans(s: seq<Byte>, i: nat, f: seq<Byte>, d: Byte)
    requires At(s, i, Escape(f) + [QUOTE]) && ValidDelimiter(d)
    requires i + |Escape(f)| + 1 < |s| && EndsField(s[i + |Escape(f)| + 1], d)
    ensures QuotedText(s, |s|, i, d) == FieldScan(f, i + |Escape(f)| + 1)
    decreases |f|
  {
    hide At, Escape, QuotedText, Escaped;
    if f == [] {
      EscapeNothing();
      ClosingQuoteScans(s, i, d);
    } else {
      var head, rest := Escaped(f[0]), Escape(f[1..]) + [QUOTE];
      EscapeSplits(f);
      AtSplit(s, i, head, rest);
      EscapedFieldScans(s, i + |head|, f[1..], d);
      EscapedByteScans(s, i, f, i + |Escape(f)| + 1, d);
    }
  }

  lemma EscapeSplits(f: seq<Byte>)
    requires f != []
    ensures |Escape(f)| == |Escaped(f[0])| + |Escape(f[1..])|
    ensures Escape(f) + [QUOTE] == Escaped(f[0]) + (Escape(f[1..]) + [QUOTE])
  {
  }

  lemma EscapeNothing()
    ensures Escape([]) == [] && Escape([]) + [QUOTE] == [QUOTE]
  {
  }

  lemma ClosingQuoteScans(s: seq<Byte>, i: nat, d: Byte)
    requires At(s, i, [QUOTE]) && ValidDelimiter(d) && i + 1 < |s| && EndsField(s[i + 1], d)
    ensures QuotedText(s, |s|, i, d) == FieldScan([], i + 1)
  {
    AtByte(s, i, QUOTE);
    assert BareText(s, |s|, i + 1, d) == FieldScan([], i + 1);
  }

  /** One escaped byte, then the rest. */
  lemma EscapedByteScans(s: seq<Byte>, i: nat, f: seq<Byte>, end: nat, d: Byte)
    requires f != [] && At(s, i, Escaped(f[0]))
    requires QuotedText(s, |s|, i + |Escaped(f[0])|, d) == FieldScan(f[1..], end)
    ensures QuotedText(s, |s|, i, d) == FieldScan(f, end)
  {
    assert [f[0]] + f[1..] == f;
    if f[0] == QUOTE {
      assert s[i..i + 2][0] == s[i] && s[i..i + 2][1] == s[i + 1];
    } else {
      AtByte(s, i, f[0]);
    }
  }

  lemma EncodedFieldScans(s: seq<Byte>, i: nat, f: seq<Byte>, b: Byte, d: Byte)
    requires At(s, i, EncodeField(f) + [b]) && EndsField(b, d) && ValidDelimiter(d)
    ensures BareText(s, |s|, i, d) == FieldScan(f, i + |EncodeField(f)|)
    ensures s[i + |EncodeField(f)|] == b
  {
    AtSplit(s, i, EncodeField(f), [b]);
    AtByte(s, i + |EncodeField(f)|, b);
    assert EncodeField(f) == [QUOTE] + (Escape(f) + [QUOTE]);
    AtSplit(s, i, [QUOTE], Escape(f) + [QUOTE]);
    AtByte(s, i, QUOTE);
    EscapedFieldScans(s, i + 1, f, d);
  }

  lemma LastFieldScans(s: seq<Byte>, i: nat, f: seq<Byte>, d: Byte)
    requires At(s, i, EncodeField(f) + [CR, LF]) && ValidDelimiter(d)
    ensures var end := i + |EncodeField(f)|;
      && RecordFields(s, |s|, i, d) == RecordScan([f], end)
      && AfterTerminator(s, |s|, end) == end + 2
  {
    hide At, EncodeField, Escape, BareText;
    var first := EncodeField(f);
    assert first + [CR, LF] == (first + [CR]) + [LF];
    AtSplit(s, i, first + [CR], [LF]);
    AtByte(s, i + |first| + 1, LF);
    EncodedFieldScans(s, i, f, CR, d);
  }

  lemma {:induction false} EncodedRecordScans(s: seq<Byte>, i: nat, fields: seq<seq<Byte>>, d: Byte)
    requires fields != [] && ValidDelimiter(d)
    requires At(s, i, EncodeRecord(fields, d))
    ensures |EncodeRecord(fields, d)| > 2
    ensures var end := i + |EncodeRecord(fields, d)| - 2;
      RecordFields(s, |s|, i, d) == RecordScan(fields, end) && AfterTerminator(s, |s|, end) == end + 2
    decreases |fields|
  {
    hide At, Escape, BareText, RecordFields, AfterTerminator;
    if |fields| == 1 {
      LastFieldScans(s, i, fields[0], d);
      assert fields == [fields[0]];
    } else {
      var first, rest := EncodeField(fields[0]) + [d], EncodeRecord(fields[1..], d);
      assert EncodeRecord(fields, d) == first + rest;
      hide EncodeField, EncodeRecord;
      AtSplit(s, i, first, rest);
      EncodedFieldScans(s, i, fields[0], d, d);
      EncodedRecordScans(s, i + |first|, fields[1..], d);
      FirstFieldScans(s, i, fields, i + |EncodeField(fields[0])|, i + |first| + |rest| - 2, d);
    }
  }

  /** One field and a delimiter, then the other fields. */
  lemma FirstFieldScans(s: seq<Byte>, i: nat, fields: seq<seq<Byte>>, e: nat, end: nat, d: Byte)
    requires fields != [] && i <= |s| && e < |s| && s[e] == d && BareText(s, |s|, i, d) == FieldScan(fields[0], e)
    requires RecordFields(s, |s|, e + 1, d) == RecordScan(fields[1..], end)
    ensures RecordFields(s, |s|, i, d) == RecordScan(fields, end)
  {
    assert [fields[0]] + fields[1..] == fields;
  }

  /** One encoded record, then the rest. */
  lemma FirstRecordScans(s: seq<Byte>, i: nat, fields: seq<seq<Byte>>, d: Byte)
    requires 1 <= |fields| <= MAX_COLUMNS && ValidDelimiter(d) && At(s, i, EncodeRecord(fields, d))
    ensures i + 2 < i + |EncodeRecord(fields, d)| <= |s|
    ensures var next := i + |EncodeRecord(fields, d)|;
      Records(s, |s|, i, d) == [Record(i, next - 2, fields)] + Records(s, |s|, next, d)
  {
    hide At, EncodeRecord, RecordFields, AfterTerminator;
    AtEnds(s, i, EncodeRecord(fields, d));
    EncodedRecordScans(s, i, fields, d);
  }

  lemma FieldsOfStep(r: Record, later: seq<Record>, table: seq<seq<seq<Byte>>>)
    requires table != [] && r.fields == table[0] && FieldsOf(later) == table[1..]
    ensures FieldsOf([r] + later) == table
  {
    assert ([r] + later)[1..] == later;
    assert table == [table[0]] + table[1..];
  }

  lemma {:induction false} EncodedTableScans(s: seq<Byte>, i: nat, table: seq<seq<seq<Byte>>>, d: Byte)
    requires Encodable(table) && ValidDelimiter(d)
    requires At(s, i, Encode(table, d)) && i + |Encode(table, d)| == |s|
    ensures FieldsOf(Records(s, |s|, i, d)) == table
    decreases |table|
  {
    hide At, Records, EncodeRecord, Encode, FieldsOf;
    if table == [] {
      NothingScans(s, d);
    } else {
      var first, next := EncodeRecord(table[0], d), i + |EncodeRecord(table[0], d)|;
      EncodeSplits(table, d);
      AtSplit(s, i, first, Encode(table[1..], d));
      FirstRecordScans(s, i, table[0], d);
      EncodedTableScans(s, next, table[1..], d);
      FieldsOfStep(Record(i, next - 2, table[0]), Records(s, |s|, next, d), table);
    }
  }

  lemma EncodeSplits(table: seq<seq<seq<Byte>>>, d: Byte)
    requires Encodable(table) && table != []
    ensures Encode(table, d) == EncodeRecord(table[0], d) + Encode(table[1..], d)
  {
  }

  lemma NothingScans(s: seq<Byte>, d: Byte)
    ensures Encode([], d) == [] && FieldsOf(Records(s, |s|, |s|, d)) == []
  {
  }

  /** A written file, with a byte order mark or without one. */
  function Written(table: seq<seq<seq<Byte>>>, d: Byte, marked: bool): seq<Byte>
    requires Encodable(table)
  {
    (if marked then MARK else []) + Encode(table, d)
  }

  lemma EncodedFirst(table: seq<seq<seq<Byte>>>, d: Byte)
    requires Encodable(table) && table != []
    ensures Encode(table, d) != [] && !(MARK <= Encode(table, d))
  {
    assert EncodeRecord(table[0], d)[0] == QUOTE;
    MarkLength(Encode(table, d));
  }

  /** Decoding what was written gives the table back; a byte order mark is no part of it. */
  lemma WrittenDecodes(table: seq<seq<seq<Byte>>>, d: Byte, marked: bool)
    requires Encodable(table) && ValidDelimiter(d)
    ensures var rs := Decode(Written(table, d, marked), d);
      FieldsOf(rs) == table && (rs != [] ==> rs[0].start == if marked then 3 else 0)
  {
    hide Encode, FieldsOf;
    var s, at := Written(table, d, marked), if marked then 3 else 0;
    if table != [] {
      EncodedFirst(table, d);
    } else {
      NothingScans(s, d);
    }
    assert s[at..at + |Encode(table, d)|] == Encode(table, d);
    MarkLength(s);
    assert marked ==> MARK <= s;
    EncodedTableScans(s, at, table, d);
  }

  lemma {:induction false} FieldsOfAt(rs: seq<Record>)
    ensures |FieldsOf(rs)| == |rs| && forall k | 0 <= k < |rs| :: FieldsOf(rs)[k] == rs[k].fields
    decreases |rs|
  {
    if rs != [] {
      FieldsOfAt(rs[1..]);
    }
  }

  /** RFC 4180 round trip: any table of byte strings with 1 to 256 fields per record survives
      encoding and scanning, however the encoded bytes, and a byte order mark before them, are cut into
      chunks. */
  lemma RoundTrip(table: seq<seq<seq<Byte>>>, chunks: seq<seq<Byte>>, d: Byte, marked: bool)
    requires Encodable(table) && ValidDelimiter(d)
    requires Joined(chunks) == Written(table, d, marked)
    ensures FieldsOf(Ended(FedAll(chunks, 0, d), d).acc.records) == table
  {
    ChunkInvariance(chunks, d);
    WrittenDecodes(table, d, marked);
  }
}
