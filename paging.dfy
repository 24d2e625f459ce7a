/**
 * The pager NgTablePagingComponent (src/ng-table-paging/ng-table-paging.ts).
 * Every member is computed from the `pagination` and `config` inputs; the
 * navigation handlers change no field and only emit, so each is a function
 * returning the event it emits, if any.
 */
module Paging {
  import opened Wrappers
  import opened TableTypes

  // ---------------------------------------------------------------------------
  // mergedConfig

  const DefaultPageSizeOptions: seq<int> := [10, 25, 50, 75, 100]

  /** `{ ...defaultConfig, ...config }`: each option the caller set wins, the rest take the defaults. */
  function MergedConfig(config: PaginationConfiguration): (merged: FullPaginationConfiguration) {
    FullPaginationConfiguration(
      enabled := if config.enabled.Some? then config.enabled.value else true,
      pageSize := if config.pageSize.Some? then config.pageSize.value else 25,
      pageSizeOptions := if config.pageSizeOptions.Some? then config.pageSizeOptions.value else DefaultPageSizeOptions,
      showPageSizeSelector := if config.showPageSizeSelector.Some? then config.showPageSizeSelector.value else true,
      showFirstLastButtons := if config.showFirstLastButtons.Some? then config.showFirstLastButtons.value else true,
      showPageNumbers := if config.showPageNumbers.Some? then config.showPageNumbers.value else true,
      maxPageButtons := if config.maxPageButtons.Some? then config.maxPageButtons.value else 5,
      position := if config.position.Some? then config.position.value else Bottom)
  }

  /** The configuration that sets every option. */
  function Explicit(full: FullPaginationConfiguration): PaginationConfiguration {
    PaginationConfiguration(Some(full.enabled), Some(full.pageSize), Some(full.pageSizeOptions),
      Some(full.showPageSizeSelector), Some(full.showFirstLastButtons), Some(full.showPageNumbers),
      Some(full.maxPageButtons), Some(full.position))
  }

  /**
   * With nothing set the defaults come out (size 25, options 10 to 100,
   * five buttons, at the bottom, every switch on); a configuration that
   * sets everything comes out unchanged; merging is idempotent; and, option
   * by option, a value the caller set wins while an unset one takes its default.
   */
  lemma MergedConfigDefaults(full: FullPaginationConfiguration, config: PaginationConfiguration)
    ensures MergedConfig(PaginationConfiguration(None, None, None, None, None, None, None, None))
         == FullPaginationConfiguration(true, 25, [10, 25, 50, 75, 100], true, true, true, 5, Bottom)
    ensures MergedConfig(Explicit(full)) == full
    ensures MergedConfig(Explicit(MergedConfig(config))) == MergedConfig(config)
    ensures config.enabled.Some? ==> MergedConfig(config).enabled == config.enabled.value
    ensures config.enabled.None? ==> MergedConfig(config).enabled == true
    ensures config.pageSize.Some? ==> MergedConfig(config).pageSize == config.pageSize.value
    ensures config.pageSize.None? ==> MergedConfig(config).pageSize == 25
    ensures config.pageSizeOptions.Some? ==> MergedConfig(config).pageSizeOptions == config.pageSizeOptions.value
    ensures config.pageSizeOptions.None? ==> MergedConfig(config).pageSizeOptions == [10, 25, 50, 75, 100]
    ensures config.showPageSizeSelector.Some? ==> MergedConfig(config).showPageSizeSelector == config.showPageSizeSelector.value
    ensures config.showPageSizeSelector.None? ==> MergedConfig(config).showPageSizeSelector == true
    ensures config.showFirstLastButtons.Some? ==> MergedConfig(config).showFirstLastButtons == config.showFirstLastButtons.value
    ensures config.showFirstLastButtons.None? ==> MergedConfig(config).showFirstLastButtons == true
    ensures config.showPageNumbers.Some? ==> MergedConfig(config).showPageNumbers == config.showPageNumbers.value
    ensures config.showPageNumbers.None? ==> MergedConfig(config).showPageNumbers == true
    ensures config.maxPageButtons.Some? ==> MergedConfig(config).maxPageButtons == config.maxPageButtons.value
    ensures config.maxPageButtons.None? ==> MergedConfig(config).maxPageButtons == 5
    ensures config.position.Some? ==> MergedConfig(config).position == config.position.value
    ensures config.position.None? ==> MergedConfig(config).position == Bottom
  {
  }

  // ---------------------------------------------------------------------------
  // visiblePageNumbers

  /** `Array.from({ length: n }, (_, i) => first + i)`; a negative length gives the empty array. */
  function Range(first: int, n: int): (r: seq<int>)
    ensures |r| == if n < 0 then 0 else n
    ensures forall i :: 0 <= i < |r| ==> r[i] == first + i
  {
    seq(if n < 0 then 0 else n, i => first + i)
  }

  /** The range holds exactly `first` up to `first + n - 1`, each once, in increasing order. */
  lemma RangeSpec(first: int, n: int)
    ensures forall x :: x in Range(first, n) <==> first <= x < first + n
    ensures forall i, j :: 0 <= i < j < |Range(first, n)| ==> Range(first, n)[i] < Range(first, n)[j]
  {
    var r := Range(first, n);
    forall x | first <= x < first + n ensures x in r {
      assert r[x - first] == x;
    }
  }

  function Max(a: int, b: int): int { if a >= b then a else b }

  function Min(a: int, b: int): int { if a <= b then a else b }

  /** The computed `visiblePageNumbers`. `/` by 2 is `Math.floor` here, as the divisor is positive. */
  function VisiblePageNumbers(current: int, total: int, maxButtons: int): seq<int> {
    if total <= maxButtons then Range(1, total)
    else
      var half := maxButtons / 2;
      var start := Max(1, current - half);
      var end := Min(total, start + maxButtons - 1);
      var start' := if end - start < maxButtons - 1 then Max(1, end - maxButtons + 1) else start;
      Range(start', end - start' + 1)
  }

  /** With no more pages than buttons, every page is shown. */
  lemma VisibleAllPages(current: int, total: int, maxButtons: int)
    requires total <= maxButtons
    ensures |VisiblePageNumbers(current, total, maxButtons)| == if total < 0 then 0 else total
    ensures forall i :: 0 <= i < |VisiblePageNumbers(current, total, maxButtons)| ==>
      VisiblePageNumbers(current, total, maxButtons)[i] == i + 1
  {
  }

  /**
   * With more pages than buttons the window is exactly `maxButtons`
   * consecutive pages inside `1..total`: it starts half a window before the
   * current page, moved forward to page 1 or back so that it ends at the last
   * page, and holds the current page when that page exists.
   */
  lemma VisibleWindow(current: int, total: int, maxButtons: int)
    requires total > maxButtons >= 1
    ensures var r := VisiblePageNumbers(current, total, maxButtons);
      && |r| == maxButtons
      && (forall i :: 0 <= i < |r| ==> r[i] == r[0] + i)
      && r[0] == Max(1, Min(current - maxButtons / 2, total - maxButtons + 1))
      && 1 <= r[0] && r[|r| - 1] <= total
      && (1 <= current <= total ==> current in r)
  {
    var r := VisiblePageNumbers(current, total, maxButtons);
    var half := maxButtons / 2;
    var start := Max(1, current - half);
    var end := Min(total, start + maxButtons - 1);
    var start' := if end - start < maxButtons - 1 then Max(1, end - maxButtons + 1) else start;
    assert 0 <= half <= maxButtons - 1;
    if end - start < maxButtons - 1 {
      assert start == current - half && end == total;
      assert start' == total - maxButtons + 1;
    } else {
      assert end == start + maxButtons - 1;
    }
    assert r == Range(start', end - start' + 1);
    if 1 <= current <= total {
      assert start' <= current <= end;
      assert r[current - start'] == current;
    }
  }

  /** Page 3 of 8 with five buttons shows pages 1 to 5. */
  lemma VisibleWindowExample()
    ensures VisiblePageNumbers(3, 8, 5) == [1, 2, 3, 4, 5]
  {
    var r := VisiblePageNumbers(3, 8, 5);
    assert r == Range(1, 5);
  }

  // ---------------------------------------------------------------------------
  // startItem, endItem, canGoPrevious, canGoNext

  /** The computed `startItem`: the 1-based number of the page's first item. */
  function StartItem(p: PaginationState): int {
    Max(0, (p.currentPage - 1) * p.pageSize + 1)
  }

  /** The computed `endItem`: the number of the page's last item. */
  function EndItem(p: PaginationState): int {
    Min(p.totalItems, p.currentPage * p.pageSize)
  }

  /**
   * On a real page the range starts after the previous pages, holds at
   * most one page of items, and the next page starts right after it.
   */
  lemma ItemRange(p: PaginationState)
    requires p.currentPage >= 1 && p.pageSize >= 1
    ensures StartItem(p) == (p.currentPage - 1) * p.pageSize + 1
    ensures EndItem(p) - StartItem(p) + 1 <= p.pageSize
    ensures p.currentPage * p.pageSize <= p.totalItems ==>
      EndItem(p) - StartItem(p) + 1 == p.pageSize &&
      StartItem(p.(currentPage := p.currentPage + 1)) == EndItem(p) + 1
  {
  }

  /** Page 2 at size 25 of 100 items shows items 26 to 50. */
  lemma ItemRangeExample()
    ensures StartItem(PaginationState(2, 25, 100, 4)) == 26
    ensures EndItem(PaginationState(2, 25, 100, 4)) == 50
  {
  }

  predicate CanGoPrevious(p: PaginationState) {
    p.currentPage > 1
  }

  predicate CanGoNext(p: PaginationState) {
    p.currentPage < p.totalPages
  }

  // ---------------------------------------------------------------------------
  // goToPage and its wrappers

  /** The `pageChange` event `goToPage(page)` emits, if any. */
  function GoToPage(p: PaginationState, page: int): (event: Option<PageChangeEvent>)
    ensures event.None? <==> page == p.currentPage || page < 1 || page > p.totalPages
    ensures event.Some? ==>
      && 1 <= event.value.page <= p.totalPages
      && event.value.page == page != p.currentPage
      && event.value.previousPage == p.currentPage
      && event.value.pageSize == p.pageSize
      && event.value.totalItems == p.totalItems
  {
    if page == p.currentPage || page < 1 || page > p.totalPages then None
    else Some(PageChangeEvent(page, p.pageSize, p.totalItems, p.currentPage))
  }

  function GoToFirstPage(p: PaginationState): Option<PageChangeEvent> {
    GoToPage(p, 1)
  }

  function GoToLastPage(p: PaginationState): Option<PageChangeEvent> {
    GoToPage(p, p.totalPages)
  }

  function GoToPreviousPage(p: PaginationState): Option<PageChangeEvent> {
    GoToPage(p, p.currentPage - 1)
  }

  function GoToNextPage(p: PaginationState): Option<PageChangeEvent> {
    GoToPage(p, p.currentPage + 1)
  }

  /**
   * The wrappers target 1, the last page, and the pages either side; on a
   * page that exists, previous and next emit exactly when their buttons are
   * enabled, so page 1 has no previous and the last page no next.
   */
  lemma NavigationGuards(p: PaginationState)
    ensures GoToFirstPage(p).Some? ==> GoToFirstPage(p).value.page == 1
    ensures GoToLastPage(p).Some? ==> GoToLastPage(p).value.page == p.totalPages
    ensures GoToPreviousPage(p).Some? ==> GoToPreviousPage(p).value.page == p.currentPage - 1
    ensures GoToNextPage(p).Some? ==> GoToNextPage(p).value.page == p.currentPage + 1
    ensures 1 <= p.currentPage <= p.totalPages ==>
      (GoToPreviousPage(p).Some? <==> CanGoPrevious(p)) &&
      (GoToNextPage(p).Some? <==> CanGoNext(p))
    ensures p.currentPage == 1 ==> GoToPreviousPage(p).None? && GoToFirstPage(p).None?
    ensures p.currentPage == p.totalPages ==> GoToNextPage(p).None? && GoToLastPage(p).None?
  {
  }

  // ---------------------------------------------------------------------------
  // onPageSizeChange

  /** `Math.floor(a / b)` for a non-zero integer divisor. */
  function FloorDiv(a: int, b: int): int
    requires b != 0
  {
    if b > 0 then a / b else (-a) / (-b)
  }

  /** `Math.ceil(a / b)` for a non-zero integer divisor. */
  function CeilDiv(a: int, b: int): (q: int)
    requires b != 0
    ensures b > 0 ==> (q - 1) * b < a <= q * b
    ensures b < 0 ==> q * b <= a < (q - 1) * b
  {
    0 - FloorDiv(0 - a, b)
  }

  /**
   * The `pageSizeChange` event `onPageSizeChange(newPageSize)` emits. A
   * size of 0 other than the current one would divide by zero (a NaN or
   * infinite page in the source); it is excluded.
   */
  function OnPageSizeChange(p: PaginationState, newPageSize: int): (event: Option<PageSizeChangeEvent>)
    requires newPageSize == p.pageSize || newPageSize != 0
  {
    if newPageSize == p.pageSize then None
    else Some(PageSizeChangeEvent(newPageSize, Max(1, CeilDiv(StartItem(p), newPageSize)), p.pageSize))
  }

  /**
   * Nothing is emitted for the current size; otherwise the event carries the
   * new and old sizes and a page of at least 1, and with a positive size that
   * page holds the item that was first on screen.
   */
  lemma PageSizeChangeKeepsPosition(p: PaginationState, newPageSize: int)
    requires newPageSize == p.pageSize || newPageSize != 0
    ensures OnPageSizeChange(p, newPageSize).None? <==> newPageSize == p.pageSize
    ensures OnPageSizeChange(p, newPageSize).Some? ==>
      var e := OnPageSizeChange(p, newPageSize).value;
      && e.pageSize == newPageSize
      && e.previousPageSize == p.pageSize
      && e.page >= 1
      && (newPageSize > 0 && StartItem(p) >= 1 ==>
            (e.page - 1) * newPageSize < StartItem(p) <= e.page * newPageSize)
  {
    if newPageSize != p.pageSize && newPageSize > 0 && StartItem(p) >= 1 {
      var q := CeilDiv(StartItem(p), newPageSize);
      assert q * newPageSize >= 1;
    }
  }

  /** Going from page 2 at size 25 to size 50 lands on page 1. */
  lemma PageSizeChangeExample()
    ensures OnPageSizeChange(PaginationState(2, 25, 100, 4), 50) == Some(PageSizeChangeEvent(50, 1, 25))
  {
  }
}
