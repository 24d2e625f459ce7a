/**
 * The interaction state and derived views of the table component. The
 * classes NgTableComponent (src/ng-table/ng-table.ts) and
 * MailchimpTableComponent (src/mailchimp-table/mailchimp-table.ts) carry the
 * same state fields, handlers and computed values, line for line, so one
 * model covers both; only ng-table.ts adds the total-width computation
 * (module NgTable).
 */
module TableState {
  import opened Wrappers
  import opened JsValues
  import opened TableTypes
  import opened Sorting
  import opened TableUtils

  // ---------------------------------------------------------------------------
  // sortedData

  /** `columns.find(col => col.id === id)`: the first column with that id. */
  function FindColumn(columns: seq<Column>, id: string): (r: Option<Column>)
    ensures r.None? <==> forall k :: 0 <= k < |columns| ==> columns[k].id != id
    ensures r.Some? ==> r.value.id == id
    ensures r.Some? ==>
      exists k :: 0 <= k < |columns| && columns[k] == r.value && forall j :: 0 <= j < k ==> columns[j].id != id
  {
    if columns == [] then None
    else if columns[0].id == id then Some(columns[0])
    else
      var r := FindColumn(columns[1..], id);
      assert r.Some? ==>
        exists k :: 0 <= k < |columns| && columns[k] == r.value && forall j :: 0 <= j < k ==> columns[j].id != id
      by {
        if r.Some? {
          var k :| 0 <= k < |columns[1..]| && columns[1..][k] == r.value
            && forall j :: 0 <= j < k ==> columns[1..][j].id != id;
          assert columns[k + 1] == r.value;
          forall j | 0 <= j < k + 1 ensures columns[j].id != id {
            if j > 0 {
              assert columns[j] == columns[1..][j - 1];
            }
          }
        }
      }
      r
  }

  /** `getCellValue(row, column)`, also the sort key: the accessor path if one is set, else the row. */
  function CellValue(row: Value, column: Column): Value {
    if column.accessor.Some? && column.accessor.value != "" then GetNestedProperty(row, column.accessor.value)
    else row
  }

  /** The comparator handed to `sort`: the column's `sortFunction` if present, else `defaultSort` on cell values. */
  function ComparatorFor(column: Column, direction: SortDirection): Comparator {
    if column.sortFunction.Some? then
      (a, b) => column.sortFunction.value(a, b, direction)
    else
      (a, b) => DefaultSort(CellValue(a, column), CellValue(b, column), direction)
  }

  /** The column the sort state points at, when the state is set with a direction. */
  function ActiveSortColumn(columns: seq<Column>, sort: Option<SortState>): Option<Column> {
    if sort.None? || sort.value.direction == NoDirection then None
    else FindColumn(columns, sort.value.columnId)
  }

  /** The computed `sortedData`: always a permutation of `data`. */
  function ApplySort(data: seq<Value>, columns: seq<Column>, sort: Option<SortState>): (r: seq<Value>)
    ensures multiset(r) == multiset(data)
    ensures |r| == |data|
  {
    match ActiveSortColumn(columns, sort)
    case None => data
    case Some(column) => ArraySort(data, ComparatorFor(column, sort.value.direction))
  }

  /** No sort, a null direction, or an unknown column id leave `data` as it is. */
  lemma ApplySortUnchanged(data: seq<Value>, columns: seq<Column>, sort: Option<SortState>)
    requires sort.None? || sort.value.direction == NoDirection
          || forall k :: 0 <= k < |columns| ==> columns[k].id != sort.value.columnId
    ensures ApplySort(data, columns, sort) == data
  {
  }

  /** The rows `sort` hands to the comparator: every row but the `undefined` ones. */
  function DefinedRows(data: seq<Value>): set<Value> {
    set r | r in data && r != Undef
  }

  /**
   * With an active sort on a known column and a comparator consistent on the
   * defined rows, those rows come out in comparator order and every
   * `undefined` row comes after them.
   */
  lemma ApplySortOrdered(data: seq<Value>, columns: seq<Column>, sort: Option<SortState>)
    requires ActiveSortColumn(columns, sort).Some?
    requires TotalPreorderOn(DefinedRows(data), ComparatorFor(ActiveSortColumn(columns, sort).value, sort.value.direction))
    ensures SortedUndefinedLast(ApplySort(data, columns, sort), ComparatorFor(ActiveSortColumn(columns, sort).value, sort.value.direction))
  {
    var column := ActiveSortColumn(columns, sort).value;
    ArraySortOrdered(data, ComparatorFor(column, sort.value.direction), DefinedRows(data));
  }

  /** Without a `sortFunction`, defined rows whose cell values are all numbers or all strings give a consistent comparator. */
  lemma DefaultComparatorConsistent(data: seq<Value>, column: Column, direction: SortDirection)
    requires column.sortFunction.None?
    requires UniformKeys(set r | r in DefinedRows(data) :: CellValue(r, column))
    ensures TotalPreorderOn(DefinedRows(data), ComparatorFor(column, direction))
  {
    var keys := set r | r in DefinedRows(data) :: CellValue(r, column);
    var rows := DefinedRows(data);
    var cmp := ComparatorFor(column, direction);
    assert forall a, b :: cmp(a, b) == DefaultSort(CellValue(a, column), CellValue(b, column), direction);
    forall a, b | a in rows && b in rows ensures cmp(a, b) <= 0 || cmp(b, a) <= 0 {
      DefaultSortAntisymmetric(CellValue(a, column), CellValue(b, column), direction);
    }
    forall a, b, c | a in rows && b in rows && c in rows && cmp(a, b) <= 0 && cmp(b, c) <= 0
      ensures cmp(a, c) <= 0
    {
      var x, y, z := CellValue(a, column), CellValue(b, column), CellValue(c, column);
      assert x in keys && y in keys && z in keys;
      assert UniformKeys({x, y, z});
      DefaultSortTransitive(x, y, z, direction);
    }
  }

  // ---------------------------------------------------------------------------
  // onSort

  /** The state `onSort` moves to on a sortable column: asc, then desc, then no sort. */
  function SortToggle(current: Option<SortState>, columnId: string): (next: Option<SortState>)
    ensures next.Some? ==> next.value.columnId == columnId && next.value.direction != NoDirection
  {
    var direction :=
      if current.Some? && current.value.columnId == columnId then
        match current.value.direction
        case Asc => Desc
        case Desc => NoDirection
        case NoDirection => Asc
      else Asc;
    if direction == NoDirection then None else Some(SortState(columnId, direction))
  }

  /** A different column, or no sort, always starts at asc, whatever the previous direction. */
  lemma SortToggleStartsAscending(current: Option<SortState>, columnId: string)
    requires current.None? || current.value.columnId != columnId
    ensures SortToggle(current, columnId) == Some(SortState(columnId, Asc))
  {
  }

  /** From any state not on the column, three toggles give asc, desc, then no sort. */
  lemma SortToggleCycle(current: Option<SortState>, columnId: string)
    requires current.None? || current.value.columnId != columnId
    ensures SortToggle(current, columnId) == Some(SortState(columnId, Asc))
    ensures SortToggle(SortToggle(current, columnId), columnId) == Some(SortState(columnId, Desc))
    ensures SortToggle(SortToggle(SortToggle(current, columnId), columnId), columnId) == None
  {
  }

  // ---------------------------------------------------------------------------
  // Column partitions and frozen widths

  /** `sub` is `s` with some elements dropped, the rest kept in order. */
  ghost predicate IsSubsequence(sub: seq<Column>, s: seq<Column>)
    decreases |s|
  {
    if sub == [] then true
    else if s == [] then false
    else (sub[0] == s[0] && IsSubsequence(sub[1..], s[1..])) || IsSubsequence(sub, s[1..])
  }

  lemma {:induction false} FilterFrozenSubsequence(columns: seq<Column>, tag: Option<Side>)
    ensures IsSubsequence(FilterFrozen(columns, tag), columns)
    decreases |columns|
  {
    if columns != [] {
      FilterFrozenSubsequence(columns[1..], tag);
      var rest := FilterFrozen(columns[1..], tag);
      if columns[0].frozen == tag {
        assert FilterFrozen(columns, tag) == [columns[0]] + rest;
        assert ([columns[0]] + rest)[1..] == rest;
      } else {
        assert FilterFrozen(columns, tag) == rest;
      }
    }
  }

  /** The computed `leftFrozenColumns`. */
  function LeftFrozenColumns(columns: seq<Column>): seq<Column> {
    FilterFrozen(columns, Some(Left))
  }

  /** The computed `rightFrozenColumns`. */
  function RightFrozenColumns(columns: seq<Column>): seq<Column> {
    FilterFrozen(columns, Some(Right))
  }

  /** The computed `scrollableColumns`: `!col.frozen`. */
  function ScrollableColumns(columns: seq<Column>): seq<Column> {
    FilterFrozen(columns, None)
  }

  /** The first column contributes to a group's multiset exactly when it carries the group's tag. */
  lemma FilterFrozenHeadMultiset(columns: seq<Column>, tag: Option<Side>)
    requires columns != []
    ensures multiset(FilterFrozen(columns, tag))
         == (if columns[0].frozen == tag then multiset{columns[0]} else multiset{}) + multiset(FilterFrozen(columns[1..], tag))
  {
    var head: seq<Column> := if columns[0].frozen == tag then [columns[0]] else [];
    assert FilterFrozen(columns, tag) == head + FilterFrozen(columns[1..], tag);
  }

  /** A column carries exactly one of the three tags. */
  lemma HeadTagsCover(c: Column)
    ensures (if c.frozen == Some(Left) then multiset{c} else multiset{})
          + (if c.frozen == None then multiset{c} else multiset{})
          + (if c.frozen == Some(Right) then multiset{c} else multiset{})
         == multiset{c}
  {
    match c.frozen
    case None =>
    case Some(Left) =>
    case Some(Right) =>
  }

  /** Regrouping the three heads and the three tails. */
  lemma RegroupParts(hl: multiset<Column>, hm: multiset<Column>, hr: multiset<Column>,
                     l: multiset<Column>, m: multiset<Column>, r: multiset<Column>)
    ensures (hl + l) + (hm + m) + (hr + r) == (hl + hm + hr) + (l + m + r)
  {
  }

  lemma {:induction false} PartitionMultiset(columns: seq<Column>)
    ensures multiset(LeftFrozenColumns(columns)) + multiset(ScrollableColumns(columns)) + multiset(RightFrozenColumns(columns))
         == multiset(columns)
    decreases |columns|
  {
    if columns != [] {
      var c, rest := columns[0], columns[1..];
      PartitionMultiset(rest);
      assert columns == [c] + rest;
      FilterFrozenHeadMultiset(columns, Some(Left));
      FilterFrozenHeadMultiset(columns, None);
      FilterFrozenHeadMultiset(columns, Some(Right));
      HeadTagsCover(c);
      RegroupParts(if c.frozen == Some(Left) then multiset{c} else multiset{},
                   if c.frozen == None then multiset{c} else multiset{},
                   if c.frozen == Some(Right) then multiset{c} else multiset{},
                   multiset(LeftFrozenColumns(rest)), multiset(ScrollableColumns(rest)), multiset(RightFrozenColumns(rest)));
    }
  }

  /**
   * The three column groups keep the input order, never share a column,
   * and together hold every column exactly once.
   */
  lemma PartitionColumns(columns: seq<Column>)
    ensures IsSubsequence(LeftFrozenColumns(columns), columns)
    ensures IsSubsequence(ScrollableColumns(columns), columns)
    ensures IsSubsequence(RightFrozenColumns(columns), columns)
    ensures multiset(LeftFrozenColumns(columns)) + multiset(ScrollableColumns(columns)) + multiset(RightFrozenColumns(columns))
         == multiset(columns)
    ensures |LeftFrozenColumns(columns)| + |ScrollableColumns(columns)| + |RightFrozenColumns(columns)| == |columns|
    ensures forall c :: c in multiset(LeftFrozenColumns(columns)) ==> c.frozen == Some(Left)
    ensures forall c :: c in multiset(ScrollableColumns(columns)) ==> c.frozen == None
    ensures forall c :: c in multiset(RightFrozenColumns(columns)) ==> c.frozen == Some(Right)
  {
    FilterFrozenSubsequence(columns, Some(Left));
    FilterFrozenSubsequence(columns, None);
    FilterFrozenSubsequence(columns, Some(Right));
    PartitionMultiset(columns);
    var l, m, r := LeftFrozenColumns(columns), ScrollableColumns(columns), RightFrozenColumns(columns);
    assert |multiset(l)| + |multiset(m)| + |multiset(r)| == |multiset(columns)|;
  }

  /** 48 px for the selection checkbox column when `selectable && multiSelect`. */
  function SelectionGutter(config: TableConfig): int {
    if config.selectable && config.multiSelect then 48 else 0
  }

  /** 48 px for the expand-toggle column when `expandableRows`. */
  function ExpandGutter(config: TableConfig): int {
    if config.expandableRows then 48 else 0
  }

  /** The computed `leftFrozenWidth`. */
  function LeftFrozenWidth(columns: seq<Column>, config: TableConfig): int {
    CalculateFrozenWidth(LeftFrozenColumns(columns), Left) + SelectionGutter(config) + ExpandGutter(config)
  }

  /** The computed `rightFrozenWidth`. */
  function RightFrozenWidth(columns: seq<Column>): int {
    CalculateFrozenWidth(RightFrozenColumns(columns), Right)
  }

  /** The left pane carries both gutters on top of its columns' widths; the right pane carries none. */
  lemma FrozenWidthGutters(columns: seq<Column>, config: TableConfig)
    ensures LeftFrozenWidth(columns, config) == CalculateFrozenWidth(columns, Left)
      + (if config.selectable && config.multiSelect then 48 else 0)
      + (if config.expandableRows then 48 else 0)
    ensures RightFrozenWidth(columns) == CalculateFrozenWidth(columns, Right)
  {
    FilterFrozenIdempotent(columns, Some(Left));
    FilterFrozenIdempotent(columns, Some(Right));
  }

  /** Two left columns of 80px and 150px with selection, multi-select and expansion on: 326 px. */
  lemma LeftFrozenWidthExample(a: Column, b: Column)
    requires a.width == Some("80px") && a.frozen == Some(Left)
    requires b.width == Some("150px") && b.frozen == Some(Left)
    ensures LeftFrozenWidth([a, b], TableConfig(true, true, true)) == 326
  {
    assert IntToString(80) + "px" == "80px";
    assert IntToString(150) + "px" == "150px";
    FrozenColumnWidthDefaults(a, 80);
    FrozenColumnWidthDefaults(b, 150);
    CalculateFrozenWidthSnoc([a], b, Left);
    CalculateFrozenWidthSnoc([], a, Left);
    assert [] + [a] == [a] && [a] + [b] == [a, b];
    assert CalculateFrozenWidth([a, b], Left) == 230;
    FrozenWidthGutters([a, b], TableConfig(true, true, true));
  }

  // ---------------------------------------------------------------------------
  // Selection

  /** The selection map stores `true` only: a deselected row is removed. */
  predicate NoFalse(m: map<string, bool>) {
    false !in m.Values
  }

  /** `Object.keys(state).filter(rowId => state[rowId])`, as a set. */
  function SelectedIds(m: map<string, bool>): set<string> {
    set k | k in m && m[k]
  }

  /** The computed `allSelected`, for a data set of `dataLength` rows. */
  predicate AllSelectedOf(m: map<string, bool>, dataLength: int) {
    dataLength > 0 && |m| == dataLength && false !in m.Values
  }

  /** The computed `someSelected`. */
  predicate SomeSelectedOf(m: map<string, bool>) {
    true in m.Values
  }

  /** The map `onRowSelect` stores: `true` for a selection, the key deleted for a deselection. */
  function WithRowSelection(m: map<string, bool>, rowId: string, selected: bool): map<string, bool> {
    if selected then m[rowId := true] else m - {rowId}
  }

  /** `isRowSelected`: `selectedRows[rowId] || false`. */
  predicate IsRowSelectedIn(m: map<string, bool>, rowId: string) {
    rowId in m && m[rowId]
  }

  /**
   * `onRowSelect` keeps the no-`false` invariant, sets exactly the asked
   * membership, leaves other keys alone, and is idempotent.
   */
  lemma RowSelectionSpec(m: map<string, bool>, rowId: string, selected: bool, other: string)
    ensures NoFalse(m) ==> NoFalse(WithRowSelection(m, rowId, selected))
    ensures IsRowSelectedIn(WithRowSelection(m, rowId, selected), rowId) == selected
    ensures selected ==> rowId in WithRowSelection(m, rowId, selected)
    ensures !selected ==> rowId !in WithRowSelection(m, rowId, selected)
    ensures other != rowId ==>
      (other in WithRowSelection(m, rowId, selected) <==> other in m) &&
      (other in m ==> WithRowSelection(m, rowId, selected)[other] == m[other])
    ensures WithRowSelection(WithRowSelection(m, rowId, selected), rowId, selected) == WithRowSelection(m, rowId, selected)
  {
    if NoFalse(m) && !selected {
      var m' := m - {rowId};
      forall k | k in m' ensures m'[k] {
        assert m[k] in m.Values;
      }
    }
  }

  /** Under the invariant, `getSelectedRowsCount` (the key count) is the number of selected rows. */
  lemma SelectedCountIsKeyCount(m: map<string, bool>)
    ensures NoFalse(m) ==> SelectedIds(m) == m.Keys && |m| == |SelectedIds(m)|
  {
    if NoFalse(m) {
      forall k | k in m ensures m[k] {
        assert m[k] in m.Values;
      }
    }
  }

  /** Under the invariant, `someSelected` holds exactly when some row is stored, and `allSelected` is a count test. */
  lemma SelectionFlags(m: map<string, bool>, dataLength: int)
    ensures NoFalse(m) ==> (SomeSelectedOf(m) <==> m != map[])
    ensures NoFalse(m) ==> (AllSelectedOf(m, dataLength) <==> dataLength > 0 && |m| == dataLength)
  {
    if NoFalse(m) && m != map[] {
      var k :| k in m;
      assert m[k] in m.Values;
      assert m[k] == true;
      assert true in m.Values;
    } else if m == map[] {
      assert m.Values == {};
    }
  }

  /**
   * `allSelected` compares a key count with `data().length` and never looks
   * at row ids: a map holding one id that is not the data's leaves the only row
   * unselected yet counts as all selected.
   */
  lemma AllSelectedCountsKeysOnly()
    ensures var data := [Obj(map["id" := Str("a")])];
      var m := map["b" := true];
      AllSelectedOf(m, |data|) && !IsRowSelectedIn(m, GenerateRowId(data[0], 0))
  {
    var m := map["b" := true];
    assert m.Values == {true};
  }

  /** The ids of the first `n` rows, each at its position. */
  function RowIdsBefore(rows: seq<Value>, n: nat): set<string>
    requires n <= |rows|
  {
    set k | 0 <= k < n :: GenerateRowId(rows[k], k)
  }

  /** No two positions of `rows` produce the same row id. */
  ghost predicate DistinctRowIds(rows: seq<Value>) {
    forall i, j :: 0 <= i < j < |rows| ==> GenerateRowId(rows[i], i) != GenerateRowId(rows[j], j)
  }

  lemma {:induction false} DistinctRowIdsCount(rows: seq<Value>, n: nat)
    requires n <= |rows| && DistinctRowIds(rows)
    ensures |RowIdsBefore(rows, n)| == n
    decreases n
  {
    if n > 0 {
      DistinctRowIdsCount(rows, n - 1);
      var id := GenerateRowId(rows[n - 1], n - 1);
      assert RowIdsBefore(rows, n) == RowIdsBefore(rows, n - 1) + {id};
      assert id !in RowIdsBefore(rows, n - 1);
    }
  }

  /** A selection map with every given id set to true. */
  function AllTrue(ids: set<string>): map<string, bool> {
    map id | id in ids :: true
  }

  /** One iteration of `onSelectAll(true)`: storing the next row's id selects one more position. */
  lemma SelectAllStep(rows: seq<Value>, i: nat)
    requires i < |rows|
    ensures AllTrue(RowIdsBefore(rows, i))[GenerateRowId(rows[i], i) := true] == AllTrue(RowIdsBefore(rows, i + 1))
  {
    assert RowIdsBefore(rows, i + 1) == RowIdsBefore(rows, i) + {GenerateRowId(rows[i], i)};
  }

  /** The map `onSelectAll` stores: every row id of the sorted rows, or nothing. */
  function SelectAllState(rows: seq<Value>, selected: bool): map<string, bool> {
    if selected then AllTrue(RowIdsBefore(rows, |rows|)) else map[]
  }

  /**
   * `onSelectAll(false)` leaves nothing selected; `onSelectAll(true)` selects
   * exactly the sorted rows' ids, and with distinct ids over non-empty data
   * `allSelected` then holds.
   */
  lemma SelectAllSpec(rows: seq<Value>, dataLength: int)
    ensures SelectAllState(rows, false) == map[]
    ensures !AllSelectedOf(SelectAllState(rows, false), dataLength) && !SomeSelectedOf(SelectAllState(rows, false))
    ensures NoFalse(SelectAllState(rows, true))
    ensures SelectAllState(rows, true).Keys == set k | 0 <= k < |rows| :: GenerateRowId(rows[k], k)
    ensures |rows| > 0 && |rows| == dataLength && DistinctRowIds(rows) ==> AllSelectedOf(SelectAllState(rows, true), dataLength)
  {
    var m := SelectAllState(rows, true);
    assert forall v :: v in m.Values ==> v;
    if |rows| > 0 && |rows| == dataLength && DistinctRowIds(rows) {
      DistinctRowIdsCount(rows, |rows|);
      assert m.Keys == RowIdsBefore(rows, |rows|);
      assert |m| == |m.Keys|;
    }
  }

  /** The payload `emitSelectionChange` sends for a new selection map. */
  function SelectionChange(m: map<string, bool>, dataLength: int): SelectionChangeEvent {
    SelectionChangeEvent(SelectedIds(m), AllSelectedOf(m, dataLength))
  }

  /** Under the invariant the emitted ids are the stored keys; a selected row is among them, a deselected one is not. */
  lemma SelectionChangeReportsSelection(m: map<string, bool>, rowId: string, selected: bool, dataLength: int)
    requires NoFalse(m)
    ensures SelectionChange(m, dataLength).selectedRows == m.Keys
    ensures (rowId in SelectionChange(WithRowSelection(m, rowId, selected), dataLength).selectedRows) == selected
  {
    SelectedCountIsKeyCount(m);
  }

  // ---------------------------------------------------------------------------
  // Expansion

  /** `isRowExpanded`: `expandedRows[rowId] || false`. */
  predicate IsRowExpandedIn(m: map<string, bool>, rowId: string) {
    rowId in m && m[rowId]
  }

  /** The map `onRowExpand` stores: the row's flag negated, absent counting as collapsed. */
  function ToggleExpansion(m: map<string, bool>, rowId: string): (r: map<string, bool>)
    ensures r.Keys == m.Keys + {rowId}
  {
    m[rowId := !IsRowExpandedIn(m, rowId)]
  }

  /** Toggling flips only that row, and toggling twice restores whether it is expanded. */
  lemma ToggleExpansionSpec(m: map<string, bool>, rowId: string, other: string)
    ensures IsRowExpandedIn(ToggleExpansion(m, rowId), rowId) == !IsRowExpandedIn(m, rowId)
    ensures other != rowId ==> (other in ToggleExpansion(m, rowId) <==> other in m)
    ensures other != rowId && other in m ==> ToggleExpansion(m, rowId)[other] == m[other]
    ensures IsRowExpandedIn(ToggleExpansion(ToggleExpansion(m, rowId), rowId), other) == IsRowExpandedIn(m, other)
  {
  }

  // ---------------------------------------------------------------------------
  // Lookups

  /** `getSortIcon(column)`. */
  function SortIcon(column: Column, sort: Option<SortState>): (icon: string)
    ensures icon == "" <==> !column.sortable
    ensures icon == "sort-up" <==> column.sortable && sort == Some(SortState(column.id, Asc))
    ensures icon == "sort-down" ==> column.sortable && sort.Some? && sort.value.columnId == column.id
  {
    if !column.sortable then ""
    else if sort.None? || sort.value.columnId != column.id then "sort"
    else if sort.value.direction == Asc then "sort-up"
    else "sort-down"
  }

  /** The icon follows the toggle machine: sort-up, sort-down, then back to sort; a non-sortable column shows none. */
  lemma SortIconFollowsToggle(column: Column, current: Option<SortState>)
    requires current.None? || current.value.columnId != column.id
    ensures !column.sortable ==> SortIcon(column, current) == ""
    ensures column.sortable ==> SortIcon(column, current) == "sort"
    ensures column.sortable ==> SortIcon(column, SortToggle(current, column.id)) == "sort-up"
    ensures column.sortable ==> SortIcon(column, SortToggle(SortToggle(current, column.id), column.id)) == "sort-down"
    ensures column.sortable ==>
      SortIcon(column, SortToggle(SortToggle(SortToggle(current, column.id), column.id), column.id)) == "sort"
  {
  }

  /** `getSortedColumnHeader()`: the header of the sort column, or "". */
  function SortedColumnHeader(columns: seq<Column>, sort: Option<SortState>): (header: string)
    ensures sort.None? ==> header == ""
    ensures header != "" ==> exists k :: 0 <= k < |columns| && columns[k].id == sort.value.columnId && columns[k].header == header
    ensures sort.Some? && FindColumn(columns, sort.value.columnId).Some? ==>
      header == FindColumn(columns, sort.value.columnId).value.header
    ensures sort.Some? && (forall k :: 0 <= k < |columns| ==> columns[k].id != sort.value.columnId) ==> header == ""
  {
    if sort.None? then ""
    else match FindColumn(columns, sort.value.columnId)
      case None => ""
      case Some(column) => column.header
  }

  // ---------------------------------------------------------------------------
  // The component

  /** The component's inputs and its four state signals. */
  class TableComponent {
    var data: seq<Value>
    var columns: seq<Column>
    var config: TableConfig
    var sortState: Option<SortState>
    var expandedRows: map<string, bool>
    var selectedRows: map<string, bool>
    var hoveredRowId: Option<string>

    /** The selection never stores `false`. */
    predicate Valid()
      reads this
    {
      NoFalse(selectedRows)
    }

    constructor (data: seq<Value>, columns: seq<Column>, config: TableConfig)
      ensures Valid()
      ensures this.data == data && this.columns == columns && this.config == config
      ensures sortState == None && expandedRows == map[] && selectedRows == map[] && hoveredRowId == None
    {
      this.data := data;
      this.columns := columns;
      this.config := config;
      sortState := None;
      expandedRows := map[];
      selectedRows := map[];
      hoveredRowId := None;
    }

    /** The computed `sortedData`. */
    function SortedData(): (r: seq<Value>)
      reads this
      ensures multiset(r) == multiset(data)
    {
      ApplySort(data, columns, sortState)
    }

    /** The computed `allSelected`. */
    function AllSelected(): (b: bool)
      reads this
      ensures Valid() ==> (b <==> |data| > 0 && |selectedRows| == |data|)
    {
      SelectionFlags(selectedRows, |data|);
      AllSelectedOf(selectedRows, |data|)
    }

    /** The computed `someSelected`. */
    function SomeSelected(): (b: bool)
      reads this
      ensures Valid() ==> (b <==> selectedRows != map[])
    {
      SelectionFlags(selectedRows, |data|);
      SomeSelectedOf(selectedRows)
    }

    /** `isRowExpanded(rowId)`: `expandedRows[rowId] || false`. */
    function IsRowExpanded(rowId: string): bool
      reads this
    {
      IsRowExpandedIn(expandedRows, rowId)
    }

    function IsRowSelected(rowId: string): (b: bool)
      reads this
      ensures Valid() ==> (b <==> rowId in selectedRows)
    {
      IsRowSelectedIn(selectedRows, rowId)
    }

    /** `isRowHovered(rowId)`. */
    function IsRowHovered(rowId: string): bool
      reads this
    {
      hoveredRowId == Some(rowId)
    }

    /** `getSortIcon(column)` on the current sort state. */
    function GetSortIcon(column: Column): (icon: string)
      reads this
      ensures icon == "" <==> !column.sortable
      ensures icon == "sort-up" <==> column.sortable && sortState == Some(SortState(column.id, Asc))
    {
      SortIcon(column, sortState)
    }

    /** `getSortedColumnHeader()` on the current sort state. */
    function GetSortedColumnHeader(): (header: string)
      reads this
      ensures sortState.None? ==> header == ""
      ensures sortState.Some? && FindColumn(columns, sortState.value.columnId).Some? ==>
        header == FindColumn(columns, sortState.value.columnId).value.header
    {
      SortedColumnHeader(columns, sortState)
    }

    /** `getSelectedRowsCount()`: the key count, which the invariant makes the number of selected rows. */
    function GetSelectedRowsCount(): (n: nat)
      reads this
      ensures Valid() ==> n == |SelectedIds(selectedRows)|
    {
      SelectedCountIsKeyCount(selectedRows);
      |selectedRows|
    }

    /** `onSort(column)`: returns the `sortChange` payload, if one is emitted. */
    method OnSort(column: Column) returns (emitted: Option<SortState>)
      modifies this`sortState
      ensures !column.sortable ==> sortState == old(sortState) && emitted == None
      ensures column.sortable ==> sortState == SortToggle(old(sortState), column.id) && emitted == sortState
    {
      if !column.sortable {
        return None;
      }
      var currentSort := sortState;
      var newDirection := Asc;
      if currentSort.Some? && currentSort.value.columnId == column.id {
        newDirection :=
          if currentSort.value.direction == Asc then Desc
          else if currentSort.value.direction == Desc then NoDirection
          else Asc;
      }
      var newSortState := if newDirection != NoDirection then Some(SortState(column.id, newDirection)) else None;
      sortState := newSortState;
      emitted := None;
      if newSortState.Some? {
        emitted := newSortState;
      }
    }

    /** `onRowExpand(rowId, row)`: returns the `rowExpand` payload. */
    method OnRowExpand(rowId: string, row: Value) returns (event: RowExpandEvent)
      modifies this`expandedRows
      ensures expandedRows == ToggleExpansion(old(expandedRows), rowId)
      ensures event == RowExpandEvent(rowId, !old(IsRowExpanded(rowId)), row)
    {
      var currentState := expandedRows;
      var isExpanded := !(rowId in currentState && currentState[rowId]);
      expandedRows := currentState[rowId := isExpanded];
      event := RowExpandEvent(rowId, isExpanded, row);
    }

    /** `onRowSelect(rowId, selected)`: returns the `selectionChange` payload. */
    method OnRowSelect(rowId: string, selected: bool) returns (event: SelectionChangeEvent)
      requires Valid()
      modifies this`selectedRows
      ensures Valid()
      ensures selectedRows == WithRowSelection(old(selectedRows), rowId, selected)
      ensures event == SelectionChange(selectedRows, |data|)
    {
      var newState := selectedRows;
      if selected {
        newState := newState[rowId := true];
      } else {
        newState := newState - {rowId};
      }
      RowSelectionSpec(selectedRows, rowId, selected, rowId);
      selectedRows := newState;
      event := SelectionChange(newState, |data|);
    }

    /** `onSelectAll(selected)`: rebuilds the whole map from the sorted rows. */
    method OnSelectAll(selected: bool) returns (event: SelectionChangeEvent)
      modifies this`selectedRows
      ensures Valid()
      ensures selectedRows == SelectAllState(old(SortedData()), selected)
      ensures event == SelectionChange(selectedRows, |data|)
    {
      var newState: map<string, bool> := map[];
      var rows := SortedData();
      if selected {
        var i := 0;
        while i < |rows|
          invariant 0 <= i <= |rows|
          invariant newState == AllTrue(RowIdsBefore(rows, i))
        {
          var rowId := GenerateRowId(rows[i], i);
          SelectAllStep(rows, i);
          newState := newState[rowId := true];
          i := i + 1;
        }
      }
      SelectAllSpec(rows, |data|);
      selectedRows := newState;
      event := SelectionChange(newState, |data|);
    }

    /** `onRowHover(rowId)`. */
    method OnRowHover(rowId: Option<string>)
      modifies this`hoveredRowId
      ensures hoveredRowId == rowId
    {
      hoveredRowId := rowId;
    }
  }
}
