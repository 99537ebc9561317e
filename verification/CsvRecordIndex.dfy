/** The record index: logically an append-only sequence of spans, held in a RAM cache, a write
    buffer, a file and a sliding block cache.  Every disk call may fail; the first failure is
    final. */
module CsvRecordIndex {
  import opened TableSource

  datatype Span = Span(start: nat, end: nat)

  const MAX_CACHED_SPANS := 65536
  const WRITE_BUFFER_SIZE := 4096
  const BLOCK_READ_SIZE := 2048

  class CsvRecordIndex {
    var handleOpen: bool
    var disk: seq<Span>            // the data area of the index file
    var ramCache: seq<Span>        // the first 65,536 spans
    var writeBuffer: seq<Span>
    var blockCache: seq<Span>      // a window for ordinals beyond the RAM cache
    var blockStartOrdinal: int
    var failed: bool
    var dataRecordCount: nat
    var completeFlag: bool
    ghost var contents: seq<Span>  // every span appended since init

    ghost predicate Valid()
      reads this
    {
      && dataRecordCount == |contents|
      && (!failed ==> Stored())
    }

    /** Where the spans are while no disk call has failed. */
    ghost predicate Stored()
      reads this
    {
      && |writeBuffer| <= |contents|
      && contents == disk + writeBuffer
      && ramCache == contents[..Min(MAX_CACHED_SPANS, |contents|)]
      && (blockStartOrdinal >= 0 ==>
            && blockStartOrdinal + |blockCache| <= |contents|
            && blockCache == contents[blockStartOrdinal..blockStartOrdinal + |blockCache|])
    }

    constructor ()
      ensures Valid() && contents == [] && !failed && !completeFlag && !handleOpen
    {
      handleOpen, disk, ramCache, writeBuffer, blockCache := false, [], [], [], [];
      blockStartOrdinal, failed, dataRecordCount, completeFlag := -1, false, 0, false;
      contents := [];
    }

    /** Writes `spans` at position `at` of the data area; a failed write leaves anything there.
        `quiet` says, here and below, that no disk call failed. */
    method WriteSpans(at: nat, spans: seq<Span>) returns (ok: bool, ghost quiet: bool)
      requires at == |disk|
      modifies `disk
      ensures quiet && handleOpen ==> ok
      ensures ok ==> disk == old(disk) + spans
    {
      ok := *;
      quiet := ok;
      if ok && handleOpen {
        disk := disk[..at] + spans;
        assert disk == old(disk) + spans;
      } else {
        ok := false;
        disk := *;
      }
    }

    method WriteHeader() returns (ok: bool, ghost quiet: bool)
      ensures ok ==> handleOpen
      ensures quiet && handleOpen ==> ok
    {
      ok := *;
      quiet := ok;
      ok := ok && handleOpen;
    }

    method ReadBlock(at: nat, count: nat) returns (ok: bool, block: seq<Span>, ghost quiet: bool)
      ensures quiet && handleOpen && at + count <= |disk| ==> ok
      ensures ok ==> at + count <= |disk| && block == disk[at..at + count]
    {
      ok, block := *, [];
      quiet := ok;
      ok := ok && handleOpen && at + count <= |disk|;
      if ok {
        block := disk[at..at + count];
      }
    }

    method Init() returns (ok: bool, ghost quiet: bool)
      modifies this
      ensures (ok ==> handleOpen) && (quiet ==> ok)
      ensures Valid() && contents == [] && !failed && !completeFlag
    {
      handleOpen := *;
      disk, ramCache, writeBuffer, blockCache := [], [], [], [];
      blockStartOrdinal, failed, dataRecordCount, completeFlag := -1, false, 0, false;
      contents := [];
      ok, quiet := handleOpen, handleOpen;
      if ok {
        ok, quiet := WriteHeader();
      }
    }

    method InvalidateCache()
      modifies `blockStartOrdinal, `blockCache
      ensures blockStartOrdinal == -1
    {
      blockStartOrdinal, blockCache := -1, [];
    }

    /** Moves the write buffer to disk; the caller records a failure. */
    method FlushBuffer() returns (ok: bool, ghost quiet: bool)
      requires Valid() && !failed
      modifies `disk, `writeBuffer
      ensures quiet && handleOpen ==> ok
      ensures ok ==> Valid() && writeBuffer == []
    {
      if writeBuffer == [] {
        return true, true;
      }
      ok, quiet := WriteSpans(dataRecordCount - |writeBuffer|, writeBuffer);
      if ok {
        writeBuffer := [];
      }
    }

    method AppendSpan(start: nat, end: nat) returns (ok: bool, ghost quiet: bool)
      requires Valid()
      modifies this
      ensures Valid() && completeFlag == old(completeFlag) && (old(failed) ==> failed)
      ensures ok ==> !failed
      ensures handleOpen == old(handleOpen) && (quiet && handleOpen && !old(failed) ==> !failed)
      ensures old(failed) || start > end ==> !ok && contents == old(contents) && failed == old(failed)
      ensures !old(failed) && start <= end ==> contents == old(contents) + [Span(start, end)] && ok == !failed
    {
      if failed || start > end {
        return false, true;
      }
      var span := Span(start, end);
      if |ramCache| < MAX_CACHED_SPANS {
        ramCache := ramCache + [span];
      }
      writeBuffer := writeBuffer + [span];
      dataRecordCount := dataRecordCount + 1;
      contents := contents + [span];
      if |writeBuffer| >= WRITE_BUFFER_SIZE {
        ok, quiet := FlushBuffer();
        if !ok {
          failed := true;
        }
        return ok, quiet;
      }
      return true, true;
    }

    /** The span of a data record, from whichever layer holds it. */
    method ReadSpan(ordinal: int) returns (span: Option<Span>, ghost quiet: bool)
      requires Valid()
      modifies `disk, `writeBuffer, `blockCache, `blockStartOrdinal, `failed
      ensures Valid() && (old(failed) ==> failed)
      ensures span == (if 0 <= ordinal < |contents| && !failed then Some(contents[ordinal]) else None)
      ensures quiet && handleOpen && !old(failed) ==> !failed
      ensures !(0 <= ordinal < |contents|) ==> failed == old(failed)
    {
      if failed || ordinal < 0 || ordinal >= dataRecordCount {
        return None, true;
      }
      if ordinal < |ramCache| {
        return Some(ramCache[ordinal]), true;
      }
      if blockStartOrdinal >= 0 && ordinal >= blockStartOrdinal && ordinal - blockStartOrdinal < |blockCache| {
        return Some(blockCache[ordinal - blockStartOrdinal]), true;
      }
      var ok;
      ok, quiet := FlushBuffer();
      if !ok {
        failed := true;
        return None, quiet;
      }
      assert disk + writeBuffer == disk;
      var countToRead := Min(BLOCK_READ_SIZE, dataRecordCount - ordinal);
      InvalidateCache();
      var block;
      ok, block, quiet := ReadBlock(ordinal, countToRead);
      if !ok {
        failed := true;
        return None, quiet;
      }
      blockCache, blockStartOrdinal := block, ordinal;
      return Some(blockCache[0]), quiet;
    }

    method ReadSpans(firstOrdinal: int, count: nat) returns (spans: seq<Span>, ghost quiet: bool)
      requires Valid()
      modifies `disk, `writeBuffer, `blockCache, `blockStartOrdinal, `failed
      ensures Valid() && (old(failed) ==> failed) && |spans| <= count
      ensures spans != [] ==> 0 <= firstOrdinal && firstOrdinal + |spans| <= |contents|
      ensures spans != [] ==> spans == contents[firstOrdinal..firstOrdinal + |spans|]
      ensures |spans| < count ==> failed || firstOrdinal < 0 || firstOrdinal + |spans| >= |contents|
      ensures quiet && handleOpen && !old(failed) ==> !failed
      ensures |spans| == count ==> failed == old(failed)
      ensures old(failed) ==> spans == []
    {
      spans, quiet := [], true;
      for i := 0 to count
        invariant Valid() && failed == old(failed) && |spans| == i && (failed ==> spans == [])
        invariant spans != [] ==> 0 <= firstOrdinal && firstOrdinal + i <= |contents|
        invariant spans != [] ==> spans == contents[firstOrdinal..firstOrdinal + i]
      {
        var span;
        span, quiet := ReadSpan(firstOrdinal + i);
        if span.None? {
          break;
        }
        assert firstOrdinal >= 0;
        spans := spans + [span.value];
      }
    }

    method Flush() returns (ok: bool, ghost quiet: bool)
      requires Valid()
      modifies `disk, `writeBuffer, `failed
      ensures Valid() && (old(failed) ==> failed) && ok == !failed
      ensures quiet && handleOpen && !old(failed) ==> ok
    {
      if failed {
        return false, true;
      }
      ok, quiet := FlushBuffer();
      if ok {
        ok, quiet := WriteHeader();
      }
      if !ok {
        failed := true;
      }
    }

    method MarkComplete() returns (ok: bool, ghost quiet: bool)
      requires Valid()
      modifies `disk, `writeBuffer, `failed, `completeFlag
      ensures Valid() && (old(failed) ==> failed)
      ensures quiet && handleOpen && !old(failed) ==> ok
      ensures ok == !failed && (ok ==> completeFlag)
      ensures !ok && !old(failed) ==> !completeFlag
      ensures old(failed) ==> completeFlag == old(completeFlag)
    {
      if failed {
        return false, true;
      }
      completeFlag := true;
      ok, quiet := Flush();
      if !ok {
        completeFlag := false;
      }
    }

    /** Complete means that the end of the file was reached and nothing failed since. */
    predicate IsComplete()
      reads `completeFlag, `failed
    {
      completeFlag && !failed
    }

    predicate HasFailed()
      reads `failed
    {
      failed
    }
  }

  // ---- Refinement of a plain sequence, over whole runs -------------------------------------

  datatype Op = Append(span: Span) | Read(ordinal: int) | FlushOp | Complete

  /** The layers forgotten: a sequence, a completion flag, and the answers of the reads. */
  datatype Plain = Plain(contents: seq<Span>, complete: bool, answers: seq<Option<Span>>)

  function Perform(p: Plain, op: Op): Plain {
    match op
    case Append(span) => if span.start <= span.end then p.(contents := p.contents + [span]) else p
    case Read(i) =>
      p.(answers := p.answers + [if 0 <= i < |p.contents| then Some(p.contents[i]) else None])
    case FlushOp => p
    case Complete => p.(complete := true)
  }

  function PerformAll(ops: seq<Op>): Plain {
    if ops == [] then Plain([], false, []) else Perform(PerformAll(ops[..|ops| - 1]), ops[|ops| - 1])
  }

  lemma PerformNothing()
    ensures PerformAll([]) == Plain([], false, [])
  {
  }

  lemma PerformNext(ops: seq<Op>, i: nat)
    requires i < |ops|
    ensures PerformAll(ops[..i + 1]) == Perform(PerformAll(ops[..i]), ops[i])
  {
    assert ops[..i + 1][..i] == ops[..i];
  }

  /** Runs any sequence of operations on a fresh index.  If no disk call failed, every read got the
      span a plain sequence would give; after a failure no read is answered and the index never
      claims to be complete. */
  method RunOperations(ops: seq<Op>) returns (ok: bool, complete: bool, answers: seq<Option<Span>>, ghost quiet: bool)
    ensures quiet ==> ok
    ensures ok ==> complete == PerformAll(ops).complete && answers == PerformAll(ops).answers
    ensures !ok ==> !complete && |answers| == |PerformAll(ops).answers|
    ensures forall k | 0 <= k < |answers| :: answers[k] == PerformAll(ops).answers[k] || answers[k] == None
  {
    var index := new CsvRecordIndex();
    var initialised;
    initialised, quiet := index.Init();
    assert ops[..0] == [];
    answers := [];
    hide CsvRecordIndex.Stored, PerformAll;
    PerformNothing();
    for i := 0 to |ops|
      invariant index.Valid() && fresh(index) && (quiet ==> index.handleOpen && !index.failed)
      invariant var p := PerformAll(ops[..i]);
        && |answers| == |p.answers|
        && (!index.failed ==> index.contents == p.contents && index.completeFlag == p.complete && answers == p.answers)
        && (forall k | 0 <= k < |answers| :: answers[k] == p.answers[k] || answers[k] == None)
    {
      PerformNext(ops, i);
      ghost var still;
      match ops[i] {
      case Append(span) =>
        var appended;
        appended, still := index.AppendSpan(span.start, span.end);
      case Read(ordinal) =>
        var a;
        a, still := index.ReadSpan(ordinal);
        answers := answers + [a];
      case FlushOp =>
        var flushed;
        flushed, still := index.Flush();
      case Complete =>
        var marked;
        marked, still := index.MarkComplete();
      }
      quiet := quiet && still;
    }
    assert ops[..|ops|] == ops;
    ok, complete := !index.HasFailed(), index.IsComplete();
  }
}
