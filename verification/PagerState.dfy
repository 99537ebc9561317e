/** The pager: which page is shown, what is known about the total, and which buttons are enabled. */
module PagerState {
  import opened TableSource

  const DEFAULT_PAGE_ROWS := 500
  const MIN_PAGE_ROWS := 100
  const MAX_PAGE_ROWS := 3000

  function FirstRowOnPage(page: int, pageSize: int): int {
    (page - 1) * pageSize + 1
  }

  /** A configured page size is clamped; without one the default applies. */
  function NormalizePageRows(value: Option<int>): (rows: int)
    ensures MIN_PAGE_ROWS <= rows <= MAX_PAGE_ROWS
    ensures value == None ==> rows == DEFAULT_PAGE_ROWS
    ensures value.Some? && MIN_PAGE_ROWS <= value.value <= MAX_PAGE_ROWS ==> rows == value.value
    ensures value.Some? ==>
      forall other | MIN_PAGE_ROWS <= other <= MAX_PAGE_ROWS ::
          Distance(rows, value.value) <= Distance(other, value.value)
  {
    if value == None then DEFAULT_PAGE_ROWS
    else if value.value < MIN_PAGE_ROWS then MIN_PAGE_ROWS
    else if value.value > MAX_PAGE_ROWS then MAX_PAGE_ROWS
    else value.value
  }

  function Distance(a: int, b: int): int {
    if a < b then b - a else a - b
  }

  datatype PagerState = PagerState(page: int, pageSize: int, total: Option<int>, hasMore: bool, arrivedFromPrev: bool) {
    function Pages(): int {
      if total.Some? && pageSize > 0 then
        var full := total.value / pageSize + if total.value % pageSize != 0 then 1 else 0;
        if full < 1 then 1 else full
      else 0
    }

    predicate CanFirst() {
      page > 1
    }

    predicate CanPrev() {
      page > 1
    }

    predicate CanNext() {
      if total.Some? then page < Pages() else hasMore || arrivedFromPrev
    }

    predicate CanLast() {
      total.Some? && page < Pages()
    }
  }

  const NEW_PAGER := PagerState(1, DEFAULT_PAGE_ROWS, None, false, false)

  lemma Grows(a: int, b: int, size: nat)
    requires a <= b
    ensures a * size <= b * size
  {
    assert b * size == a * size + (b - a) * size;
  }

  /** The page count is exact: every row lies on one of the pages and, unless there are no rows,
      the last page is not empty. */
  lemma PagesCover(p: PagerState)
    requires p.total.Some? && p.total.value >= 0 && p.pageSize > 0
    ensures p.Pages() >= 1 && p.total.value <= p.Pages() * p.pageSize
    ensures p.total.value > 0 ==> (p.Pages() - 1) * p.pageSize < p.total.value
  {
    var n, s := p.total.value, p.pageSize;
    assert n == (n / s) * s + n % s;
    if n % s == 0 && n > 0 {
      assert n / s >= 1;
    }
  }

  /** Prev and first are enabled exactly while rows lie before the page. */
  lemma PrevIffRowsBefore(p: PagerState)
    requires p.pageSize > 0 && p.page >= 1
    ensures p.CanPrev() <==> (p.page - 1) * p.pageSize > 0
    ensures p.CanFirst() <==> (p.page - 1) * p.pageSize > 0
  {
    if p.page > 1 {
      Grows(1, p.page - 1, p.pageSize);
    }
  }

  /** With a known total, next and last are enabled exactly while rows remain behind the page. */
  lemma NextIffRowsRemain(p: PagerState)
    requires p.total.Some? && p.total.value >= 0 && p.pageSize > 0 && p.page >= 1
    ensures p.CanNext() <==> p.page * p.pageSize < p.total.value
    ensures p.CanLast() <==> p.CanNext()
  {
    PagesCover(p);
    if p.page < p.Pages() {
      Grows(p.page, p.Pages() - 1, p.pageSize);
      assert p.Pages() > 1 ==> p.total.value > 0;
    } else {
      Grows(p.Pages(), p.page, p.pageSize);
    }
  }
}
