/** The data model of the table components (src/types/table.types.ts), reduced to what the core reads. */
module TableTypes {
  import opened Wrappers
  import opened JsValues

  /** `'asc' | 'desc' | null`. */
  datatype SortDirection = Asc | Desc | NoDirection

  datatype SortState = SortState(columnId: string, direction: SortDirection)

  /** The two sides a column can be pinned to. */
  datatype Side = Left | Right

  /** A consumer-supplied comparator on whole rows, taken as given. */
  type SortFunction = (Value, Value, SortDirection) -> int

  /**
   * A column definition. An unset `sortable` is `false`; an unset `frozen`
   * is `None` (the column scrolls).
   */
  datatype Column = Column(
    id: string,
    header: string,
    accessor: Option<string>,
    width: Option<string>,
    frozen: Option<Side>,
    sortable: bool,
    sortFunction: Option<SortFunction>)

  /** The table options the core reads; an unset option is `false`. */
  datatype TableConfig = TableConfig(expandableRows: bool, selectable: bool, multiSelect: bool)

  datatype Position = Top | Bottom | Both

  /** The pager's options as supplied: `None` is a key the caller did not set. */
  datatype PaginationConfiguration = PaginationConfiguration(
    enabled: Option<bool>,
    pageSize: Option<int>,
    pageSizeOptions: Option<seq<int>>,
    showPageSizeSelector: Option<bool>,
    showFirstLastButtons: Option<bool>,
    showPageNumbers: Option<bool>,
    maxPageButtons: Option<int>,
    position: Option<Position>)

  /** The pager's options after the defaults are filled in. */
  datatype FullPaginationConfiguration = FullPaginationConfiguration(
    enabled: bool,
    pageSize: int,
    pageSizeOptions: seq<int>,
    showPageSizeSelector: bool,
    showFirstLastButtons: bool,
    showPageNumbers: bool,
    maxPageButtons: int,
    position: Position)

  datatype PaginationState = PaginationState(currentPage: int, pageSize: int, totalItems: int, totalPages: int)

  datatype PageChangeEvent = PageChangeEvent(page: int, pageSize: int, totalItems: int, previousPage: int)

  datatype PageSizeChangeEvent = PageSizeChangeEvent(pageSize: int, page: int, previousPageSize: int)

  datatype RowExpandEvent = RowExpandEvent(rowId: string, expanded: bool, rowData: Value)

  /** The payload of `selectionChange`; the order of `selectedRows` is not modelled. */
  datatype SelectionChangeEvent = SelectionChangeEvent(selectedRows: set<string>, allSelected: bool)
}
