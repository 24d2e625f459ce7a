/**
 * The width bookkeeping only NgTableComponent (src/ng-table/ng-table.ts)
 * has: `calculateTotalTableWidth` and the overflow decision of
 * `updateColumnWidths`. JavaScript's NaN is `None`; NaN plus anything is
 * NaN, and NaN compared with a number is false.
 */
module NgTable {
  import opened Wrappers
  import opened JsValues
  import opened TableTypes
  import opened TableUtils
  import opened TableState

  /** Number addition with NaN as `None`. */
  function Plus(a: Option<int>, b: Option<int>): Option<int> {
    if a.Some? && b.Some? then Some(a.value + b.value) else None
  }

  lemma PlusAssociative(a: Option<int>, b: Option<int>, c: Option<int>)
    ensures Plus(Plus(a, b), c) == Plus(a, Plus(b, c))
  {
  }

  /** `column.width ? parseInt(column.width.replace('px', '')) : 120`. */
  function ColumnTotalWidth(column: Column): Option<int> {
    if column.width.Some? && column.width.value != "" then
      ParseLeadingInt(ReplaceFirst(column.width.value, "px", ""))
    else Some(120)
  }

  /** The widths of `columns` under `width` added up in order, as the `forEach` does. */
  function SumWidthsBy(columns: seq<Column>, width: Column -> Option<int>): Option<int> {
    if columns == [] then Some(0)
    else Plus(SumWidthsBy(columns[..|columns| - 1], width), width(columns[|columns| - 1]))
  }

  function SumWidths(columns: seq<Column>): Option<int> {
    SumWidthsBy(columns, ColumnTotalWidth)
  }

  /** What `calculateTotalTableWidth` returns: both gutters plus every column's width. */
  function TotalTableWidth(columns: seq<Column>, config: TableConfig): Option<int> {
    Plus(Some(SelectionGutter(config) + ExpandGutter(config)), SumWidths(columns))
  }

  /** `calculateTotalTableWidth()`, reading the component's inputs. */
  method CalculateTotalTableWidth(t: TableComponent) returns (totalWidth: Option<int>)
    ensures totalWidth == TotalTableWidth(t.columns, t.config)
  {
    totalWidth := Some(0);
    if t.config.selectable && t.config.multiSelect {
      totalWidth := Plus(totalWidth, Some(48));
    }
    if t.config.expandableRows {
      totalWidth := Plus(totalWidth, Some(48));
    }
    totalWidth := AddColumnWidths(totalWidth, t.columns, ColumnTotalWidth);
  }

  /** The `forEach` that adds each column's width, read by `width`, to `start`. */
  method AddColumnWidths(start: Option<int>, columns: seq<Column>, width: Column -> Option<int>)
    returns (total: Option<int>)
    ensures total == Plus(start, SumWidthsBy(columns, width))
  {
    total := start;
    var i := 0;
    while i < |columns|
      invariant 0 <= i <= |columns|
      invariant total == Plus(start, SumWidthsBy(columns[..i], width))
    {
      PrefixSumStep(start, columns, i, width);
      total := Plus(total, width(columns[i]));
      i := i + 1;
    }
    assert columns[..|columns|] == columns;
  }

  /** One iteration of the `forEach`: adding the next column's width extends the summed prefix. */
  lemma PrefixSumStep(start: Option<int>, columns: seq<Column>, i: int, width: Column -> Option<int>)
    requires 0 <= i < |columns|
    ensures Plus(Plus(start, SumWidthsBy(columns[..i], width)), width(columns[i]))
         == Plus(start, SumWidthsBy(columns[..i + 1], width))
  {
    assert columns[..i + 1][..i] == columns[..i];
    PlusAssociative(start, SumWidthsBy(columns[..i], width), width(columns[i]));
  }

  /** The two values `updateColumnWidths` writes to `overflowX`. */
  datatype Overflow = Auto | Hidden

  /** `totalRequiredWidth > containerWidth ? 'auto' : 'hidden'`; a NaN total never scrolls. */
  function OverflowFor(total: Option<int>, containerWidth: int): Overflow {
    if total.Some? && total.value > containerWidth then Auto else Hidden
  }

  /**
   * The overflow decision of `updateColumnWidths()` for a container of the
   * given client width; `None` when there is no container element.
   */
  method UpdateColumnWidths(t: TableComponent, containerWidth: Option<int>) returns (overflowX: Option<Overflow>)
    ensures containerWidth.None? ==> overflowX.None?
    ensures containerWidth.Some? ==>
      overflowX == Some(OverflowFor(TotalTableWidth(t.columns, t.config), containerWidth.value))
  {
    if containerWidth.None? {
      return None;
    }
    var totalRequiredWidth := CalculateTotalTableWidth(t);
    if totalRequiredWidth.Some? && totalRequiredWidth.value > containerWidth.value {
      overflowX := Some(Auto);
    } else {
      overflowX := Some(Hidden);
    }
  }

  /**
   * A wider container never needs more scrolling, and the boundary is strict:
   * a container exactly as wide as the total does not scroll, one pixel less does.
   */
  lemma OverflowMonotone(total: Option<int>, narrow: int, wide: int)
    requires narrow <= wide
    ensures OverflowFor(total, wide) == Auto ==> OverflowFor(total, narrow) == Auto
    ensures total.Some? ==> OverflowFor(total, total.value) == Hidden && OverflowFor(total, total.value - 1) == Auto
  {
  }

  lemma {:induction false} SumWidthsByAppend(a: seq<Column>, b: seq<Column>, width: Column -> Option<int>)
    ensures SumWidthsBy(a + b, width) == Plus(SumWidthsBy(a, width), SumWidthsBy(b, width))
    decreases |b|
  {
    if b == [] {
      assert a + b == a;
    } else {
      var b', x := b[..|b| - 1], b[|b| - 1];
      SumWidthsByAppend(a, b', width);
      assert (a + b)[..|a + b| - 1] == a + b';
      assert (a + b)[|a + b| - 1] == x;
    }
  }

  /** The total is additive over concatenation of the column list; gutters come once. */
  lemma TotalTableWidthAppend(a: seq<Column>, b: seq<Column>, config: TableConfig)
    ensures TotalTableWidth([], config) == Some(SelectionGutter(config) + ExpandGutter(config))
    ensures TotalTableWidth(a + b, config) == Plus(TotalTableWidth(a, config), SumWidths(b))
  {
    SumWidthsByAppend(a, b, ColumnTotalWidth);
  }

  lemma SumWidthsCons(c: Column, rest: seq<Column>)
    ensures SumWidths([c] + rest) == Plus(ColumnTotalWidth(c), SumWidths(rest))
  {
    SumWidthsByAppend([c], rest, ColumnTotalWidth);
    assert [c][..0] == [];
  }

  /** A column without a width counts 150 toward a frozen pane but 120 toward the total. */
  lemma MissingWidthDefaultsDiffer(c: Column)
    requires c.width.None? && c.frozen == Some(Left)
    ensures CalculateFrozenWidth([c], Left) == 150
    ensures TotalTableWidth([c], TableConfig(false, false, false)) == Some(120)
  {
    FrozenColumnWidthDefaults(c, 0);
    CalculateFrozenWidthSnoc([], c, Left);
    assert [] + [c] == [c];
    assert ColumnTotalWidth(c) == Some(120);
    SumWidthsCons(c, []);
    assert [c] + [] == [c];
  }

  lemma {:induction false} ReplacePxAfter(d: string)
    requires 'p' !in d
    ensures ReplaceFirst(d + "px", "px", "") == d
    decreases |d|
  {
    if d == [] {
      assert d + "px" == "px";
    } else {
      assert (d + "px")[..2] != "px" by { assert (d + "px")[0] == d[0]; }
      assert (d + "px")[1..] == d[1..] + "px";
      ReplacePxAfter(d[1..]);
      assert [d[0]] + d[1..] == d;
    }
  }

  /** A non-zero pixel width like "80px" reads as its number under both rules. */
  lemma PixelWidthsAgree(c: Column, n: int)
    requires n != 0 && c.width == Some(IntToString(n) + "px")
    ensures ColumnTotalWidth(c) == Some(n)
    ensures FrozenColumnWidth(c) == n
  {
    var d := IntToString(n);
    assert 'p' !in d;
    ReplacePxAfter(d);
    ParseLeadingIntOfPrinted(n, "");
    assert d + "" == d;
    FrozenColumnWidthDefaults(c, n);
  }

  /** One step of a filtered sum over a list with a head. */
  lemma FilteredSumCons(c: Column, rest: seq<Column>, tag: Option<Side>, width: Column -> int)
    ensures SumBy(FilterFrozen([c] + rest, tag), width)
         == (if c.frozen == tag then width(c) else 0) + SumBy(FilterFrozen(rest, tag), width)
  {
    assert ([c] + rest)[1..] == rest;
    var tail := FilterFrozen(rest, tag);
    if c.frozen == tag {
      assert FilterFrozen([c] + rest, tag) == [c] + tail;
      assert ([c] + tail)[1..] == tail;
    } else {
      assert FilterFrozen([c] + rest, tag) == tail;
    }
  }

  lemma OneSideTakesColumn(side: Option<Side>, w: int)
    ensures (if side == Some(Left) then w else 0) + (if side == None then w else 0)
      + (if side == Some(Right) then w else 0) == w
  {
    match side
    case None =>
    case Some(Left) =>
    case Some(Right) =>
  }

  /** Summing a non-empty list: the head's width, then the rest. */
  lemma SumWidthsByHead(columns: seq<Column>, width: Column -> Option<int>)
    requires columns != []
    ensures SumWidthsBy(columns, width) == Plus(width(columns[0]), SumWidthsBy(columns[1..], width))
  {
    assert columns == [columns[0]] + columns[1..];
    SumWidthsByAppend([columns[0]], columns[1..], width);
    assert [columns[0]][..0] == [];
  }

  /** The head column adds its width to exactly one of the three groups. */
  lemma HeadJoinsOneGroup(columns: seq<Column>, width: Column -> int)
    requires columns != []
    ensures SumBy(LeftFrozenColumns(columns), width) + SumBy(ScrollableColumns(columns), width)
      + SumBy(RightFrozenColumns(columns), width)
      == width(columns[0]) + SumBy(LeftFrozenColumns(columns[1..]), width) + SumBy(ScrollableColumns(columns[1..]), width)
      + SumBy(RightFrozenColumns(columns[1..]), width)
  {
    assert columns == [columns[0]] + columns[1..];
    FilteredSumCons(columns[0], columns[1..], Some(Left), width);
    FilteredSumCons(columns[0], columns[1..], None, width);
    FilteredSumCons(columns[0], columns[1..], Some(Right), width);
    OneSideTakesColumn(columns[0].frozen, width(columns[0]));
  }

  /** Every column reads as `Some(agreed(c))` under `width`. */
  predicate AgreeBy(columns: seq<Column>, width: Column -> Option<int>, agreed: Column -> int) {
    columns == [] || (width(columns[0]) == Some(agreed(columns[0])) && AgreeBy(columns[1..], width, agreed))
  }

  lemma {:induction false} SumWidthsByPartition(columns: seq<Column>, width: Column -> Option<int>, agreed: Column -> int)
    requires AgreeBy(columns, width, agreed)
    ensures SumWidthsBy(columns, width) == Some(SumBy(LeftFrozenColumns(columns), agreed)
      + SumBy(ScrollableColumns(columns), agreed) + SumBy(RightFrozenColumns(columns), agreed))
    decreases |columns|
  {
    if columns != [] {
      SumWidthsByHead(columns, width);
      SumWidthsByPartition(columns[1..], width, agreed);
      HeadJoinsOneGroup(columns, agreed);
    }
  }

  /**
   * When every column has a width both rules read alike, the columns' part of
   * the total is the left pane's, the scrollable columns' and the right pane's
   * frozen widths added up.
   */
  lemma SumWidthsSplit(columns: seq<Column>)
    requires AgreeBy(columns, ColumnTotalWidth, FrozenColumnWidth)
    ensures SumWidths(columns) == Some(SumFrozenWidths(LeftFrozenColumns(columns))
      + SumFrozenWidths(ScrollableColumns(columns)) + SumFrozenWidths(RightFrozenColumns(columns)))
  {
    SumWidthsByPartition(columns, ColumnTotalWidth, FrozenColumnWidth);
  }
}
