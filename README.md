# NgTables core in Dafny

This project models the logic of the NgTables Angular data grid that works
on plain values. It does not model rendering.

- **Table utilities** (module `TableUtils`):
  - dotted-path lookup (`getNestedProperty`);
  - row identity (`generateRowId`);
  - the default three-way comparator (`defaultSort`);
  - the frozen-pane width sum (`calculateFrozenWidth`).
- **Table component state** (module `TableState`). `NgTableComponent` and `MailchimpTableComponent` hold the same state and the same code:
  - the four state fields: `sortState`, `expandedRows`, `selectedRows`, `hoveredRowId`;
  - the handlers that replace them: `onSort`, `onRowExpand`, `onRowSelect`, `onSelectAll`, `onRowHover`;
  - the computed views: `sortedData`, the three column groups, `allSelected`/`someSelected` and the frozen widths;
  - the lookups.

  This module is a class `TableComponent` whose methods update its fields. The computed values are pure functions of those fields.
- **Total width** (module `NgTable`). Only `NgTableComponent` has this: `calculateTotalTableWidth` and the overflow decision made in `updateColumnWidths`.
- **The pager** (module `Paging`). It covers:
  - `mergedConfig` and the windowed page numbers;
  - the item range and the navigation guards;
  - `goToPage` and its four wrappers;
  - `onPageSizeChange`, including its ceiling division.

  These handlers only emit, so each is a function returning the event it would emit, or `None`.

The supporting modules are:

- `JsValues`. It holds a JavaScript value domain: `null`, `undefined`, integers, strings, and objects as string-keyed maps. With it come truthiness, optional property access (an object's fields, a string's `length` and characters, counted in code points), `String(v)`, ASCII `toLowerCase`, string `<`, and the leading-integer parse of `parseInt`/`parseFloat`. A `None` result stands for NaN.
- `Sorting`. It holds `Array.prototype.sort` with a comparator. The sort moves `undefined` elements to the end without showing them to the comparator, and sorts the other elements stably; that stable sort is written as an insertion sort.
- `TableTypes`. It holds the records of src/types/table.types.ts.

Where the obvious reading and the code differ, the model follows the code:

- A column without a width counts as 150 px in a frozen pane but 120 px in the total width.
- `allSelected` compares the number of stored keys with `data().length`. It never looks at which ids are stored.
- `onSelectAll` takes positional ids from the sorted rows, not from `data`.
- `getSortedColumnHeader` shows the header of the sort column once any sort state is set.
- `sortFunction` receives the whole rows, not the accessor values.

## Model

| member | source | states |
|---|---|---|
| JsValues.IntToStringRoundTrip | src/utils/table.utils.ts:26 | `String(n)` of an integer reads back as the same integer |
| JsValues.IntToStringInjective | src/utils/table.utils.ts:34 | distinct integers print differently, so distinct indices give distinct `row_` ids |
| JsValues.IntToString | src/utils/table.utils.ts:26-34 | `String(i)` of an integer (stated by IntToStringRoundTrip and IntToStringInjective) |
| JsValues.ToJsString | src/utils/table.utils.ts:26-31 | `String(v)`: "null", "undefined", the decimal digits, the string itself, "[object Object]" (stated by RowIdTestAsymmetry and IntToStringRoundTrip) |
| JsValues.NatToString | src/utils/table.utils.ts:34 | the printed form is a non-empty run of digits with no leading zero, "0" only for zero |
| JsValues.Prop | src/utils/table.utils.ts:12-14 | `current?.[prop]`: an object's field, a string's code-point `length` or its code point at a canonical index, else undefined (properties stated by PropOfString) |
| JsValues.PropOfString | src/utils/table.utils.ts:12-14 | a string's `length` is its number of code points (its UTF-16 length when every character lies in the BMP); `String(k)` reads character k inside the string and nothing past its end; a key with a leading zero reads nothing |
| JsValues.ToLowerSpec | src/utils/table.utils.ts:53-54 | lower-casing leaves no ASCII capital, turns each capital into its small letter, keeps every other character and is idempotent |
| JsValues.LexLessTrichotomy | src/utils/table.utils.ts:58-59 | string `<` makes any two different strings comparable one way |
| JsValues.LexLessTransitive | src/utils/table.utils.ts:58-59 | string `<` is transitive, so `defaultSort` on strings orders consistently |
| JsValues.LexLessAsymmetric | src/utils/table.utils.ts:58-59 | string `<` never holds both ways |
| JsValues.DigitPrefixIsLongest | src/utils/table.utils.ts:107 | the digits `parseFloat` reads are a prefix of the text, all digits, and stop at the first non-digit |
| JsValues.ParseLeadingIntOfPrinted | src/utils/table.utils.ts:107 | a printed integer followed by a unit such as "px" parses back to that integer |
| JsValues.ParseLeadingInt | src/utils/table.utils.ts:107 | the integer part `parseFloat` reads after white space and an optional sign, NaN without a digit (properties stated by DigitPrefixIsLongest and ParseLeadingIntOfPrinted) |
| Sorting.SortBy | src/ng-table/ng-table.ts:87 | the stable sort of the defined elements returns a permutation of its input of the same length |
| Sorting.SortBySorted | src/ng-table/ng-table.ts:87-96 | with a comparator that is a total preorder on the input, the result is in comparator order |
| Sorting.ArraySort | src/ng-table/ng-table.ts:87 | `[...rawData].sort(cmp)` is a permutation of the data of the same length |
| Sorting.ArraySortOrdered | src/ng-table/ng-table.ts:87-96 | with a comparator that is a total preorder on the defined elements, those come out in comparator order and every `undefined` after them |
| Sorting.ArraySortUndefinedLast | src/ng-table/ng-table.ts:87 | whatever the comparator, no defined element follows an `undefined` one and every `undefined` is kept |
| Sorting.ArraySortUndefinedFirst | src/ng-table/ng-table.ts:87 | `[undefined, 1]` sorts to `[1, undefined]` under any comparator |
| TableUtils.Split | src/utils/table.utils.ts:12 | `path.split('.')` yields at least one segment and no segment holds a dot |
| TableUtils.JoinSplit | src/utils/table.utils.ts:12 | joining the segments with dots gives back the path |
| TableUtils.SplitConcat | src/utils/table.utils.ts:12 | splitting `p + "." + q` gives the segments of `p` followed by those of `q` |
| TableUtils.LookupNullishStaysUndefined | src/utils/table.utils.ts:12-14 | once a segment reaches null or undefined, the rest of the walk yields undefined |
| TableUtils.GetNestedProperty | src/utils/table.utils.ts:9-10 | a falsy root or an empty path gives undefined |
| TableUtils.GetNestedPropertyCompose | src/utils/table.utils.ts:12-14 | a lookup of `p.q` is the lookup of `q`'s segments in the value at `p` |
| TableUtils.GetNestedPropertyStep | src/utils/table.utils.ts:12-14 | `p.key` is property `key` of the value at `p`, and undefined when that value is nullish |
| TableUtils.GetNestedPropertyOfField | src/utils/table.utils.ts:12-14 | `name.key` on an object holding `v` under `name` is property `key` of `v` |
| TableUtils.GetNestedPropertyOfString | src/utils/table.utils.ts:12-14 | on `{name: "abc"}`, "name.length" gives 3, "name.0" gives "a" and "name.3" gives undefined |
| TableUtils.GenerateRowId | src/utils/table.utils.ts:23-35 | the row id, chosen as stated by RowIdPriority, RowIdPositionIndependence and RowIdTestAsymmetry |
| TableUtils.RowIdPriority | src/utils/table.utils.ts:23-35 | a defined `id` wins, then a truthy `uuid`, then a truthy `_id`, then `row_<index>` |
| TableUtils.RowIdPositionIndependence | src/utils/table.utils.ts:23-35 | with an identity field the id does not depend on the index; without one it is exactly `row_<index>` |
| TableUtils.RowIdTestAsymmetry | src/utils/table.utils.ts:25-31 | `id: 0` gives "0", `id: null` gives "null", while an empty or zero `uuid`/`_id` falls through |
| TableUtils.FallbackRowIdsDistinct | src/utils/table.utils.ts:34 | rows without identity fields at different indices get different ids |
| TableUtils.DefaultSort | src/utils/table.utils.ts:44-62 | the result lies in {-1, 0, 1}, and a null direction gives 0 |
| TableUtils.CompareLoose | src/utils/table.utils.ts:57-59 | `aVal < bVal ? -1 : aVal > bVal ? 1 : 0` on two numbers or two strings, ties otherwise (stated by DefaultSortAntisymmetric and DefaultSortTransitive) |
| TableUtils.DefaultSortDescNegatesAsc | src/utils/table.utils.ts:61 | the `desc` result is the negated `asc` result |
| TableUtils.DefaultSortAntisymmetric | src/utils/table.utils.ts:44-62 | swapping the operands negates the result |
| TableUtils.DefaultSortNullsSmallest | src/utils/table.utils.ts:48-50 | null/undefined sort first under `asc` and last under `desc`; two of them tie |
| TableUtils.DefaultSortCaseInsensitive | src/utils/table.utils.ts:53-59 | two strings tie exactly when they agree after lower-casing |
| TableUtils.DefaultSortTransitive | src/utils/table.utils.ts:44-62 | on keys that are all numbers or all strings (besides nulls) the comparator is transitive in both directions |
| TableUtils.DefaultSortTotalPreorder | src/utils/table.utils.ts:44-62 | on such keys `defaultSort` is a total preorder, so the sorted view is well defined |
| TableUtils.FilterFrozen | src/utils/table.utils.ts:105 | the filter keeps only columns with that `frozen` tag and never grows the list |
| TableUtils.FilterFrozenAppend | src/utils/table.utils.ts:105 | filtering distributes over concatenation |
| TableUtils.FilterFrozenIdempotent | src/utils/table.utils.ts:105 | filtering twice by the same side is filtering once |
| TableUtils.FrozenColumnWidth | src/utils/table.utils.ts:107 | the parsed width, or 150 when that is 0 or NaN, so never 0 |
| TableUtils.CalculateFrozenWidth | src/utils/table.utils.ts:103-110 | the widths of the columns on the side added up (properties stated by CalculateFrozenWidthAdditive and CalculateFrozenWidthSnoc) |
| TableUtils.CalculateFrozenWidthAdditive | src/utils/table.utils.ts:103-110 | an empty list gives 0, and the width is additive over concatenation |
| TableUtils.CalculateFrozenWidthSnoc | src/utils/table.utils.ts:103-110 | a column on the side adds its width; a column on the other side adds nothing |
| TableUtils.FrozenColumnWidthDefaults | src/utils/table.utils.ts:107 | a missing, unparsable or zero width counts 150; "Npx" with N non-zero counts N |
| TableState.FindColumn | src/ng-table/ng-table.ts:84 | the found column has the sought id and no earlier column has it; nothing is found exactly when no column has it |
| TableState.CellValue | src/ng-table/ng-table.ts:383-388 | `getCellValue` and the sort key of lines 88-89: the accessor path's value, else the row (used by DefaultComparatorConsistent) |
| TableState.ComparatorFor | src/ng-table/ng-table.ts:87-96 | the comparator handed to `sort`: `sortFunction` on whole rows, else `defaultSort` on cell values (stated by DefaultComparatorConsistent and ApplySortOrdered) |
| TableState.ApplySort | src/ng-table/ng-table.ts:76-96 | `sortedData` is always a permutation of `data` of the same length |
| TableState.ApplySortUnchanged | src/ng-table/ng-table.ts:80-85 | no sort, a null direction or an unknown column id leaves `data` as it is |
| TableState.ApplySortOrdered | src/mailchimp-table/mailchimp-table.ts:74-86 | with an active sort on a known column and a comparator consistent on the defined rows, those rows come out in that comparator's order and the `undefined` rows after them |
| TableState.DefaultComparatorConsistent | src/ng-table/ng-table.ts:88-95 | without `sortFunction`, defined rows whose accessor values are uniform make the row comparator a total preorder on them |
| TableState.SortToggle | src/ng-table/ng-table.ts:308-317 | a resulting state targets the toggled column with a non-null direction |
| TableState.SortToggleStartsAscending | src/mailchimp-table/mailchimp-table.ts:188-196 | a different column, or no sort, always starts at `asc` |
| TableState.SortToggleCycle | src/ng-table/ng-table.ts:308-317 | three toggles of one column give asc, desc, then no sort |
| TableState.FilterFrozenSubsequence | src/ng-table/ng-table.ts:99-109 | each column group keeps the input order |
| TableState.PartitionMultiset | src/mailchimp-table/mailchimp-table.ts:89-99 | the three groups together hold every column exactly once |
| TableState.PartitionColumns | src/ng-table/ng-table.ts:99-109 | the groups are ordered sub-sequences, disjoint by tag, and cover all columns |
| TableState.FrozenWidthGutters | src/ng-table/ng-table.ts:123-139 | the left width adds 48 for `selectable && multiSelect` and 48 for `expandableRows`; the right width adds none |
| TableState.LeftFrozenWidth | src/ng-table/ng-table.ts:123-137 | the left pane's width (gutters stated by FrozenWidthGutters, a worked case by LeftFrozenWidthExample) |
| TableState.RightFrozenWidth | src/ng-table/ng-table.ts:139 | the right pane's width, with no gutters (stated by FrozenWidthGutters) |
| TableState.LeftFrozenWidthExample | src/mailchimp-table/mailchimp-table.ts:113-127 | left columns of 80px and 150px with every gutter on give 326 |
| TableState.RowSelectionSpec | src/ng-table/ng-table.ts:336-348 | selecting stores `true` and deselecting deletes the key; other keys stay put; repeating the call is idempotent; no `false` is ever stored |
| TableState.SelectedCountIsKeyCount | src/ng-table/ng-table.ts:433-435 | with no `false` stored, the key count is the number of selected rows |
| TableState.SelectionFlags | src/ng-table/ng-table.ts:111-121 | `someSelected` holds iff a row is stored; `allSelected` holds iff data is non-empty and the key count equals its length |
| TableState.AllSelectedCountsKeysOnly | src/mailchimp-table/mailchimp-table.ts:101-106 | one stored id that is not the only row's id still counts as all selected |
| TableState.DistinctRowIdsCount | src/ng-table/ng-table.ts:352-356 | distinct row ids over n positions give n keys |
| TableState.SelectAllSpec | src/ng-table/ng-table.ts:350-362 | select-all false empties the map; select-all true stores exactly the sorted rows' ids; with distinct ids and non-empty data, `allSelected` then holds |
| TableState.SelectionChange | src/ng-table/ng-table.ts:364-368 | the emitted payload (stated by SelectionChangeReportsSelection) |
| TableState.SelectionChangeReportsSelection | src/ng-table/ng-table.ts:364-368 | the emitted ids are the stored keys, and a row is among them exactly when it was just selected |
| TableState.ToggleExpansion | src/ng-table/ng-table.ts:324-334 | the new map holds the old keys plus the toggled row |
| TableState.ToggleExpansionSpec | src/ng-table/ng-table.ts:324-334 | only the toggled row's flag flips (absent counts as collapsed), and two toggles restore `isRowExpanded` |
| TableState.IsRowExpandedIn | src/ng-table/ng-table.ts:394-396 | the row's stored flag, false when absent (stated by ToggleExpansionSpec) |
| TableState.SortIcon | src/mailchimp-table/mailchimp-table.ts:286-295 | '' exactly for a non-sortable column; 'sort-up' exactly for an ascending sort on the column; 'sort-down' only for a sort on the column |
| TableState.SortIconFollowsToggle | src/mailchimp-table/mailchimp-table.ts:286-295 | the icon is '' when not sortable, 'sort' off the active column, then 'sort-up' and 'sort-down' along the toggle cycle |
| TableState.SortedColumnHeader | src/ng-table/ng-table.ts:425-431 | no sort, or no column with the sort id, gives ""; otherwise the header of the first column with that id |
| TableState.TableComponent.constructor | src/ng-table/ng-table.ts:70-73 | the state starts with no sort, nothing expanded, nothing selected, no hovered row |
| TableState.TableComponent.SortedData | src/mailchimp-table/mailchimp-table.ts:66-87 | the component's sorted view is a permutation of its data (its order is stated by ApplySortOrdered) |
| TableState.TableComponent.AllSelected | src/mailchimp-table/mailchimp-table.ts:101-106 | in a valid state: true iff data is non-empty and the stored key count equals its length |
| TableState.TableComponent.SomeSelected | src/mailchimp-table/mailchimp-table.ts:108-111 | in a valid state: true iff some row is stored |
| TableState.TableComponent.IsRowSelected | src/ng-table/ng-table.ts:398-400 | in a valid state: true iff the id is stored |
| TableState.TableComponent.IsRowExpanded | src/ng-table/ng-table.ts:394-396 | the row's expansion flag in the current state, false when absent (stated by ToggleExpansionSpec through OnRowExpand) |
| TableState.TableComponent.IsRowHovered | src/ng-table/ng-table.ts:402-404 | whether the row is the hovered one (set by OnRowHover) |
| TableState.TableComponent.GetSortIcon | src/ng-table/ng-table.ts:406-415 | '' exactly for a non-sortable column; 'sort-up' exactly for an ascending sort on it |
| TableState.TableComponent.GetSortedColumnHeader | src/ng-table/ng-table.ts:425-431 | no sort gives ""; otherwise the header of the first column with the sort id, when there is one |
| TableState.TableComponent.GetSelectedRowsCount | src/mailchimp-table/mailchimp-table.ts:313-315 | in a valid state: the number of selected rows |
| TableState.TableComponent.OnSort | src/ng-table/ng-table.ts:305-321 | a non-sortable column changes nothing and emits nothing; otherwise the state moves by the toggle and the new state is emitted exactly when it is set |
| TableState.TableComponent.OnRowExpand | src/mailchimp-table/mailchimp-table.ts:204-214 | the map becomes the toggled map, and the event carries the negated prior flag and the row |
| TableState.TableComponent.OnRowSelect | src/mailchimp-table/mailchimp-table.ts:216-228 | the map becomes the one with that row selected or removed; the invariant holds; the event reports the new map |
| TableState.TableComponent.OnSelectAll | src/mailchimp-table/mailchimp-table.ts:230-249 | the loop stores exactly the sorted rows' ids, or nothing; the invariant holds; the event reports the new map |
| TableState.TableComponent.OnRowHover | src/ng-table/ng-table.ts:379-381 | the hovered id becomes the argument |
| NgTable.CalculateTotalTableWidth | src/ng-table/ng-table.ts:228-248 | the result is both gutters (48 each, when enabled) plus every column's width, with a missing width counting 120 and NaN propagating |
| NgTable.ColumnTotalWidth | src/ng-table/ng-table.ts:243 | `parseInt(width.replace('px', ''))`, or 120 without a width (stated by MissingWidthDefaultsDiffer and PixelWidthsAgree) |
| NgTable.OverflowFor | src/ng-table/ng-table.ts:218-222 | 'auto' when the total exceeds the container width, 'hidden' otherwise and for NaN (stated by OverflowMonotone) |
| NgTable.TotalTableWidth | src/ng-table/ng-table.ts:228-248 | what the method returns (properties stated by TotalTableWidthAppend, SumWidthsSplit and MissingWidthDefaultsDiffer) |
| NgTable.AddColumnWidths | src/ng-table/ng-table.ts:241-245 | the loop adds every column's width, in order, to the running total; NaN propagates |
| NgTable.UpdateColumnWidths | src/ng-table/ng-table.ts:207-222 | no container leaves things alone; otherwise scrolling is `auto` exactly when the total exceeds the container width |
| NgTable.OverflowMonotone | src/ng-table/ng-table.ts:218-222 | a wider container never needs more scrolling, and the threshold is strict: a container exactly as wide as the total does not scroll, one pixel narrower does |
| NgTable.TotalTableWidthAppend | src/ng-table/ng-table.ts:228-248 | no columns give just the gutters, and the total is additive over concatenation of columns |
| NgTable.MissingWidthDefaultsDiffer | src/ng-table/ng-table.ts:243 | a column without a width counts 150 in a frozen pane but 120 in the total |
| NgTable.PixelWidthsAgree | src/ng-table/ng-table.ts:243 | a width "Npx" with N non-zero reads as N under both width rules |
| NgTable.SumWidthsByPartition | src/ng-table/ng-table.ts:242-245 | when every column's width reads as a number (none is NaN), summing all widths equals summing the left, scrollable and right groups |
| NgTable.SumWidthsSplit | src/ng-table/ng-table.ts:241-245 | when both width rules read every column alike, the columns' part of the total is the left, scrollable and right groups' frozen widths added up |
| Paging.MergedConfigDefaults | src/ng-table-paging/ng-table-paging.ts:35-47 | for each of the eight options separately, a value the caller set wins and an unset one takes its default (enabled, the three show switches: true; pageSize 25; pageSizeOptions [10,25,50,75,100]; maxPageButtons 5; position bottom); all unset gives the defaults, all set is returned unchanged, and merging is idempotent |
| Paging.MergedConfig | src/ng-table-paging/ng-table-paging.ts:35-47 | the spread merge of the defaults and the caller's options (stated by MergedConfigDefaults) |
| Paging.RangeSpec | src/ng-table-paging/ng-table-paging.ts:61 | the array holds exactly `first` to `first + n - 1`, in strictly increasing order |
| Paging.VisiblePageNumbers | src/ng-table-paging/ng-table-paging.ts:55-73 | the page buttons shown (stated by VisibleAllPages and VisibleWindow) |
| Paging.VisibleAllPages | src/ng-table-paging/ng-table-paging.ts:60-62 | with no more pages than buttons, the pages are exactly 1..total |
| Paging.VisibleWindow | src/ng-table-paging/ng-table-paging.ts:64-73 | with more pages than buttons, exactly `maxPageButtons` consecutive pages inside 1..total, starting at max(1, min(current - floor(max/2), total - max + 1)), that include an existing current page |
| Paging.VisibleWindowExample | src/ng-table-paging/ng-table-paging.ts:64-73 | page 3 of 8 with 5 buttons shows 1..5 |
| Paging.ItemRange | src/ng-table-paging/ng-table-paging.ts:77-88 | the range starts after the previous pages and holds at most one page; a full page is followed directly by the next page's range |
| Paging.ItemRangeExample | src/ng-table-paging/ng-table-paging.ts:77-88 | page 2 at size 25 of 100 items is 26..50 |
| Paging.StartItem | src/ng-table-paging/ng-table-paging.ts:77-81 | the first item number of the page (stated by ItemRange) |
| Paging.EndItem | src/ng-table-paging/ng-table-paging.ts:83-88 | the last item number of the page (stated by ItemRange) |
| Paging.CanGoPrevious | src/ng-table-paging/ng-table-paging.ts:91 | the previous button's guard (stated by NavigationGuards) |
| Paging.CanGoNext | src/ng-table-paging/ng-table-paging.ts:92 | the next button's guard (stated by NavigationGuards) |
| Paging.GoToPage | src/ng-table-paging/ng-table-paging.ts:95-106 | nothing is emitted for the current page or one outside 1..totalPages; otherwise the event carries that page, the size, the item count and the previous page |
| Paging.GoToFirstPage | src/ng-table-paging/ng-table-paging.ts:108-110 | `goToPage(1)` (stated by NavigationGuards) |
| Paging.GoToLastPage | src/ng-table-paging/ng-table-paging.ts:112-114 | `goToPage(totalPages)` (stated by NavigationGuards) |
| Paging.GoToPreviousPage | src/ng-table-paging/ng-table-paging.ts:116-118 | `goToPage(currentPage - 1)` (stated by NavigationGuards) |
| Paging.GoToNextPage | src/ng-table-paging/ng-table-paging.ts:120-122 | `goToPage(currentPage + 1)` (stated by NavigationGuards) |
| Paging.NavigationGuards | src/ng-table-paging/ng-table-paging.ts:91-122 | first/last/previous/next target 1, the last page and the neighbours; on an existing page, previous and next emit exactly when `canGoPrevious`/`canGoNext` hold |
| Paging.CeilDiv | src/ng-table-paging/ng-table-paging.ts:132 | `Math.ceil(a / b)` is the q with (q-1)·b < a ≤ q·b for positive b (mirrored for negative b) |
| Paging.OnPageSizeChange | src/ng-table-paging/ng-table-paging.ts:124-139 | the `pageSizeChange` event (stated by PageSizeChangeKeepsPosition) |
| Paging.PageSizeChangeKeepsPosition | src/ng-table-paging/ng-table-paging.ts:124-139 | the current size emits nothing; otherwise the event carries both sizes and a page of at least 1 that holds the old first item |
| Paging.PageSizeChangeExample | src/ng-table-paging/ng-table-paging.ts:124-139 | page 2 at size 25 changed to size 50 lands on page 1 |

## Left out

- DOM, scroll and resize plumbing is not part of this model: header/body width syncing, frozen-column positions, the resize observer, the `effect` listeners and the timers. Only the overflow decision of `updateColumnWidths` is kept, with the container's width as a parameter.
- `debounce` and `isElementVisible` are left out; they depend on timers and viewport geometry.
- `onPageSizeSelectChange` is left out; it reads an HTML select element.
- `onCellClick`, `onRowClick`, the `trackBy*` functions, `getRowId` and `getExpandedRowContext` are left out. Each only forwards its arguments or wraps a modelled function.
- `sortFunction` is an arbitrary caller function. The model takes it as given and proves ordering only under the hypothesis that it is a total preorder on the rows other than `undefined`, which the sort never hands to it.
- TableUtils.CompareLoose: JavaScript `<` between a number and a string, or on objects, is not modelled. Such mixed pairs compare as ties, so ordering is proved only for keys that are all numbers or all strings.
- JsValues.ToLower: only ASCII letters are folded, and strings are compared by code point, not by UTF-16 code unit.
- JsValues.ParseLeadingInt: the fraction and exponent of `parseFloat` are not read, nor the `0x` prefix of `parseInt`. Widths are whole pixels. `parseFloat("Infinity")` is Infinity in JavaScript, while the model reads no digit there (NaN), so such a frozen width falls back to 150.
- Values are limited to null, undefined, integers, strings and plain objects. Booleans, arrays and floating-point numbers are not modelled.
- JsValues.Prop: only own data properties are read: an object's fields and a string's `length` and characters. Inherited members such as `toString` or `constructor`, and every property of a number, read as undefined, because functions are not values of this model. A string's `length` and character indices count code points, while JavaScript counts UTF-16 code units, so each character outside the BMP (an emoji, say) makes the model's `length` one less than JavaScript's, and an index reads a whole character where JavaScript reads one surrogate half.
- TableState.WithRowSelection, TableState.IsRowSelectedIn, TableState.SelectAllState, TableState.IsRowExpandedIn, TableState.ToggleExpansion, TableState.TableComponent.OnRowExpand, TableState.TableComponent.OnRowSelect, TableState.TableComponent.OnSelectAll: the selection and expansion states are plain `{}` objects in the source (src/ng-table/ng-table.ts:70-71). The model treats them as maps over own keys only, so it assumes no row id names a member of `Object.prototype`. When one does, JavaScript behaves differently:
  - Row id `"constructor"`: the read `m[rowId] || false` (:395, :399) returns the inherited function, which is truthy. So the first `onRowExpand` stores and emits `expanded: false` (:326), where the model stores and emits `true`.
  - Row id `"__proto__"`: the assignment `newState[rowId] = true` (:341, :356) reaches the prototype setter, which ignores a boolean. So nothing is stored, and neither `getSelectedRowsCount` nor the emitted `selectedRows` include the id, where the model stores, counts and emits it. The computed key in `onRowExpand`'s object literal (:328-331) does create an own property, as the model does.
- JsValues.IntToString: JavaScript numbers are doubles, while the model's integers are unbounded. `String(n)` switches to exponent form from 1e21, and integers above 2^53 lose precision, so IntToStringInjective and FallbackRowIdsDistinct hold in JavaScript only below 2^53.
- Paging.OnPageSizeChange: a new size of 0 that differs from the current one is excluded by its precondition. In the source it divides by zero and emits a NaN or infinite page.
- Paging.MergedConfig: a key that is present but holds `undefined` overrides the default in the spread; the model treats it as unset.
- SelectionChangeEvent.selectedRows is a set: the key order of `Object.keys` is not modelled.
- Sorting.SortBy: only permutation and order are proved. That the stable sort keeps tied rows in input order is not stated.
- Sorting.ArraySort: a comparator that returns NaN or is inconsistent leaves the order implementation-defined in JavaScript; the model's insertion sort gives one particular order there. Holes in sparse arrays are not modelled.
- The table components do not wire the pager in: they define no paging state and no page slice of the rows, so the model keeps the pager separate. The demo application, the templates and the cell renderers are not part of this model.
