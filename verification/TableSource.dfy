/** What every paged source shares with its worker and its viewer. */
module TableSource {
  import CsvGrammar

  datatype Option<+T> = None | Some(value: T)

  const INT64_MAX := 0x7FFF_FFFF_FFFF_FFFF

  /** The aggregate budget of one copy batch, in bytes. */
  const COPY_BUDGET := 64 * 1024 * 1024

  /** Where a page lies: row keys or ordinals for a keyset, a row offset otherwise. */
  datatype PageToken = PageToken(firstKey: int, lastKey: int, offset: int, valid: bool)

  /** A displayed row: its cells, cut to the cap, and which of them were cut. */
  datatype RowText = RowText(cells: seq<seq<CsvGrammar.Byte>>, clamped: seq<bool>)

  datatype Query = FirstPage | NextPage(token: PageToken) | PrevPage(token: PageToken) | LastPage(total: int)

  function PrevTarget(offset: int, pageSize: int): int {
    if offset - pageSize < 0 then 0 else offset - pageSize
  }

  /** The first ordinal of the last page of `total` rows. */
  function LastTarget(total: int, pageSize: int): int {
    if total <= 0 || pageSize <= 0 then 0
    else
      var remainder := total % pageSize;
      var target := if remainder == 0 then total - pageSize else total - remainder;
      if target < 0 then 0 else target
  }

  /** The ordinal a query starts at in a source paged by ordinals. */
  function Target(q: Query, pageSize: int): int {
    match q
    case FirstPage => 0
    case NextPage(token) => token.offset + pageSize
    case PrevPage(token) => PrevTarget(token.offset, pageSize)
    case LastPage(total) => LastTarget(total, pageSize)
  }

  /** Next goes to the row behind a full page and prev back from there; near the start prev stops at the first
      row.  The last page is the last one that has a row, when pages are counted from the first row. */
  lemma TargetsAreNeighbours(token: PageToken, total: nat, size: int) returns (before: nat)
    requires size > 0 && token.offset >= 0
    ensures var back := Target(PrevPage(token), size);
      0 <= back <= token.offset <= back + size && (back > 0 ==> token.offset == back + size)
    ensures Target(NextPage(token), size) == token.offset + size
    ensures forall later: PageToken | later.offset == Target(NextPage(token), size) ::
      Target(PrevPage(later), size) == token.offset
    ensures Target(LastPage(total), size) == before * size
    ensures if total == 0 then before == 0 else before * size < total <= before * size + size
  {
    before := 0;
    if total > 0 {
      var q, r := total / size, total % size;
      assert total == q * size + r;
      before := if r == 0 then q - 1 else q;
      assert (q - 1) * size == q * size - size;
    }
  }

  function Min(a: int, b: int): int {
    if a < b then a else b
  }
}
