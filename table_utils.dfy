/** The pure helpers of src/utils/table.utils.ts. */
module TableUtils {
  import opened Wrappers
  import opened JsValues
  import opened TableTypes
  import opened Sorting

  // ---------------------------------------------------------------------------
  // getNestedProperty

  /** `s.split(sep)` for a one-character separator: never empty, and no part holds `sep`. */
  function Split(s: string, sep: char): (parts: seq<string>)
    ensures |parts| >= 1
    ensures forall k :: 0 <= k < |parts| ==> sep !in parts[k]
    decreases |s|
  {
    if |s| == 0 then [""]
    else
      var rest := Split(s[1..], sep);
      if s[0] == sep then [""] + rest
      else [[s[0]] + rest[0]] + rest[1..]
  }

  /** `parts.join(sep)`. */
  function Join(parts: seq<string>, sep: char): string
    requires |parts| >= 1
  {
    if |parts| == 1 then parts[0] else parts[0] + [sep] + Join(parts[1..], sep)
  }

  /** Splitting and joining again gives the original path back. */
  lemma {:induction false} JoinSplit(s: string, sep: char)
    ensures Join(Split(s, sep), sep) == s
    decreases |s|
  {
    if |s| > 0 {
      var rest := Split(s[1..], sep);
      JoinSplit(s[1..], sep);
      if s[0] == sep {
        assert s == [sep] + s[1..];
      } else if |rest| == 1 {
        assert s == [s[0]] + s[1..];
      } else {
        assert Split(s, sep)[1..] == rest[1..];
        assert s == [s[0]] + s[1..];
      }
    }
  }

  /** A separator between two paths splits into the segments of each. */
  lemma {:induction false} SplitConcat(p: string, q: string, sep: char)
    ensures Split(p + [sep] + q, sep) == Split(p, sep) + Split(q, sep)
    decreases |p|
  {
    if |p| == 0 {
      assert p + [sep] + q == [sep] + q;
      assert (p + [sep] + q)[1..] == q;
    } else {
      assert (p + [sep] + q)[1..] == p[1..] + [sep] + q;
      SplitConcat(p[1..], q, sep);
    }
  }

  /** A path without a separator is a single segment. */
  lemma {:induction false} SplitWithoutSeparator(s: string, sep: char)
    requires sep !in s
    ensures Split(s, sep) == [s]
    decreases |s|
  {
    if |s| > 0 {
      assert sep !in s[1..];
      SplitWithoutSeparator(s[1..], sep);
      assert s == [s[0]] + s[1..];
    }
  }

  /** The `reduce` over path segments: `(current, prop) => current?.[prop]`. */
  function Lookup(v: Value, segments: seq<string>): Value
    decreases |segments|
  {
    if segments == [] then v else Lookup(Prop(v, segments[0]), segments[1..])
  }

  lemma {:induction false} LookupAppend(v: Value, a: seq<string>, b: seq<string>)
    ensures Lookup(v, a + b) == Lookup(Lookup(v, a), b)
    decreases |a|
  {
    if a != [] {
      assert (a + b)[1..] == a[1..] + b;
      LookupAppend(Prop(v, a[0]), a[1..], b);
    } else {
      assert a + b == b;
    }
  }

  /** Once a segment meets null or undefined, the rest of the walk stays undefined. */
  lemma {:induction false} LookupNullishStaysUndefined(v: Value, segments: seq<string>)
    requires IsNullish(v) && |segments| >= 1
    ensures Lookup(v, segments) == Undef
    decreases |segments|
  {
    if |segments| > 1 {
      LookupNullishStaysUndefined(Prop(v, segments[0]), segments[1..]);
    }
  }

  /** `getNestedProperty(obj, path)`. */
  function GetNestedProperty(obj: Value, path: string): (r: Value)
    ensures !Truthy(obj) || path == "" ==> r == Undef
  {
    if !Truthy(obj) || path == "" then Undef else Lookup(obj, Split(path, '.'))
  }

  /** A dotted path reads the first segments, then the rest from what they found. */
  lemma GetNestedPropertyCompose(obj: Value, p: string, q: string)
    requires Truthy(obj) && p != ""
    ensures GetNestedProperty(obj, p + "." + q) == Lookup(GetNestedProperty(obj, p), Split(q, '.'))
  {
    SplitConcat(p, q, '.');
    LookupAppend(obj, Split(p, '.'), Split(q, '.'));
  }

  /** `getNestedProperty(o, "a.b")` is property `b` of `getNestedProperty(o, "a")`; undefined once that is nullish. */
  lemma GetNestedPropertyStep(obj: Value, p: string, key: string)
    requires Truthy(obj) && p != "" && '.' !in key
    ensures GetNestedProperty(obj, p + "." + key) == Prop(GetNestedProperty(obj, p), key)
    ensures IsNullish(GetNestedProperty(obj, p)) ==> GetNestedProperty(obj, p + "." + key) == Undef
  {
    GetNestedPropertyCompose(obj, p, key);
    SplitWithoutSeparator(key, '.');
  }

  /** A path `name.key` into an object holding `v` under `name` reads property `key` of `v`. */
  lemma GetNestedPropertyOfField(name: string, v: Value, key: string)
    requires name != "" && '.' !in name && '.' !in key
    ensures GetNestedProperty(Obj(map[name := v]), name + "." + key) == Prop(v, key)
  {
    var obj := Obj(map[name := v]);
    SplitWithoutSeparator(name, '.');
    assert Prop(obj, name) == v;
    assert Lookup(obj, [name]) == Lookup(v, []);
    assert GetNestedProperty(obj, name) == v;
    GetNestedPropertyStep(obj, name, key);
  }

  /** Paths reach into strings too: `{name: "abc"}` gives 3 for "name.length", "a" for "name.0", nothing for "name.3". */
  lemma GetNestedPropertyOfString()
    ensures GetNestedProperty(Obj(map["name" := Str("abc")]), "name" + "." + "length") == Int(3)
    ensures GetNestedProperty(Obj(map["name" := Str("abc")]), "name" + "." + IntToString(0)) == Str("a")
    ensures GetNestedProperty(Obj(map["name" := Str("abc")]), "name" + "." + IntToString(3)) == Undef
  {
    GetNestedPropertyOfField("name", Str("abc"), "length");
    GetNestedPropertyOfField("name", Str("abc"), IntToString(0));
    GetNestedPropertyOfField("name", Str("abc"), IntToString(3));
    PropOfString("abc", 0, "");
    PropOfString("abc", 3, "");
  }

  // ---------------------------------------------------------------------------
  // generateRowId

  /** `generateRowId(row, index)`: `id`, then `uuid`, then `_id`, then `row_<index>`. */
  function GenerateRowId(row: Value, index: int): string {
    if Prop(row, "id") != Undef then ToJsString(Prop(row, "id"))
    else if Truthy(Prop(row, "uuid")) then ToJsString(Prop(row, "uuid"))
    else if Truthy(Prop(row, "_id")) then ToJsString(Prop(row, "_id"))
    else "row_" + IntToString(index)
  }

  /** A row carries its own identity when one of the three fields passes its test. */
  predicate HasIdentityField(row: Value) {
    Prop(row, "id") != Undef || Truthy(Prop(row, "uuid")) || Truthy(Prop(row, "_id"))
  }

  /**
   * A row with an identity field keeps its id wherever it is placed; a row
   * without one gets exactly the positional id.
   */
  lemma RowIdPositionIndependence(row: Value, i: int, j: int)
    ensures HasIdentityField(row) ==> GenerateRowId(row, i) == GenerateRowId(row, j)
    ensures !HasIdentityField(row) ==> GenerateRowId(row, i) == "row_" + IntToString(i)
  {
  }

  /** The priority order: a defined `id` beats `uuid`, which beats `_id`. */
  lemma RowIdPriority(row: Value, index: int)
    ensures Prop(row, "id") != Undef ==> GenerateRowId(row, index) == ToJsString(Prop(row, "id"))
    ensures Prop(row, "id") == Undef && Truthy(Prop(row, "uuid"))
      ==> GenerateRowId(row, index) == ToJsString(Prop(row, "uuid"))
    ensures Prop(row, "id") == Undef && !Truthy(Prop(row, "uuid")) && Truthy(Prop(row, "_id"))
      ==> GenerateRowId(row, index) == ToJsString(Prop(row, "_id"))
  {
  }

  /** `id` only has to be defined (0 gives "0", null gives "null"); a falsy `uuid` or `_id` is skipped. */
  lemma RowIdTestAsymmetry(index: int)
    ensures GenerateRowId(Obj(map["id" := Int(0)]), index) == "0"
    ensures GenerateRowId(Obj(map["id" := Null]), index) == "null"
    ensures GenerateRowId(Obj(map["uuid" := Str(""), "_id" := Str("k7")]), index) == "k7"
    ensures GenerateRowId(Obj(map["uuid" := Int(0), "_id" := Int(0)]), index) == "row_" + IntToString(index)
  {
  }

  /** Rows without identity fields at different positions get different ids. */
  lemma FallbackRowIdsDistinct(a: Value, b: Value, i: int, j: int)
    requires !HasIdentityField(a) && !HasIdentityField(b) && i != j
    ensures GenerateRowId(a, i) != GenerateRowId(b, j)
  {
    IntToStringInjective(i, j);
    var x, y := IntToString(i), IntToString(j);
    assert ("row_" + x)[4..] == x && ("row_" + y)[4..] == y;
  }

  // ---------------------------------------------------------------------------
  // defaultSort

  /** `typeof v === 'string' ? v.toLowerCase() : v`. */
  function Comparable(v: Value): Value {
    if v.Str? then Str(ToLower(v.s)) else v
  }

  /**
   * `aVal < bVal ? -1 : aVal > bVal ? 1 : 0` for two numbers or two strings;
   * every other pair compares as neither smaller nor larger.
   */
  function CompareLoose(a: Value, b: Value): int {
    if a.Int? && b.Int? then (if a.i < b.i then -1 else if a.i > b.i then 1 else 0)
    else if a.Str? && b.Str? then (if LexLess(a.s, b.s) then -1 else if LexLess(b.s, a.s) then 1 else 0)
    else 0
  }

  /** `defaultSort(a, b, direction)`. */
  function DefaultSort(a: Value, b: Value, direction: SortDirection): (r: int)
    ensures -1 <= r <= 1
    ensures direction == NoDirection ==> r == 0
  {
    if direction == NoDirection then 0
    else if IsNullish(a) && IsNullish(b) then 0
    else if IsNullish(a) then (if direction == Asc then -1 else 1)
    else if IsNullish(b) then (if direction == Asc then 1 else -1)
    else
      var result := CompareLoose(Comparable(a), Comparable(b));
      if direction == Asc then result else -result
  }

  /** Descending order is ascending order negated. */
  lemma DefaultSortDescNegatesAsc(a: Value, b: Value)
    ensures DefaultSort(a, b, Desc) == -DefaultSort(a, b, Asc)
  {
  }

  /** Swapping the operands negates the result. */
  lemma DefaultSortAntisymmetric(a: Value, b: Value, direction: SortDirection)
    ensures DefaultSort(b, a, direction) == -DefaultSort(a, b, direction)
  {
    var x, y := Comparable(a), Comparable(b);
    if x.Str? && y.Str? {
      LexLessAsymmetric(x.s, y.s);
    }
  }

  /** null and undefined sort first under `asc` and last under `desc`; two of them tie. */
  lemma DefaultSortNullsSmallest(a: Value, b: Value, direction: SortDirection)
    requires IsNullish(a)
    ensures IsNullish(b) ==> DefaultSort(a, b, direction) == 0
    ensures !IsNullish(b) ==> DefaultSort(a, b, Asc) == -1 && DefaultSort(a, b, Desc) == 1
    ensures !IsNullish(b) ==> DefaultSort(b, a, Asc) == 1 && DefaultSort(b, a, Desc) == -1
  {
  }

  /** Strings tie exactly when they agree after lower-casing, so "ABC" and "abc" tie. */
  lemma DefaultSortCaseInsensitive(s: string, t: string, direction: SortDirection)
    requires direction != NoDirection
    ensures DefaultSort(Str(s), Str(t), direction) == 0 <==> ToLower(s) == ToLower(t)
  {
    LexLessTrichotomy(ToLower(s), ToLower(t));
    LexLessIrreflexive(ToLower(s));
  }

  /** Keys that are all numbers or all strings, apart from null and undefined. */
  ghost predicate UniformKeys(keys: set<Value>) {
    || (forall v :: v in keys ==> IsNullish(v) || v.Int?)
    || (forall v :: v in keys ==> IsNullish(v) || v.Str?)
  }

  lemma DefaultSortAscTransitive(a: Value, b: Value, c: Value)
    requires UniformKeys({a, b, c})
    requires DefaultSort(a, b, Asc) <= 0 && DefaultSort(b, c, Asc) <= 0
    ensures DefaultSort(a, c, Asc) <= 0
  {
    if !IsNullish(a) && !IsNullish(b) && !IsNullish(c) && a.Str? {
      var x, y, z := ToLower(a.s), ToLower(b.s), ToLower(c.s);
      LexLessTrichotomy(x, y);
      LexLessTrichotomy(y, z);
      if LexLess(z, x) {
        if x == y {
          LexLessAsymmetric(z, y);
        } else if y == z {
          LexLessAsymmetric(z, x);
        } else {
          LexLessTransitive(x, y, z);
          LexLessAsymmetric(z, x);
        }
      }
    }
  }

  /** On uniform keys `defaultSort` is transitive, in either direction. */
  lemma DefaultSortTransitive(a: Value, b: Value, c: Value, direction: SortDirection)
    requires UniformKeys({a, b, c})
    requires DefaultSort(a, b, direction) <= 0 && DefaultSort(b, c, direction) <= 0
    ensures DefaultSort(a, c, direction) <= 0
  {
    if direction == Asc {
      DefaultSortAscTransitive(a, b, c);
    } else if direction == Desc {
      DefaultSortAntisymmetric(a, b, Asc);
      DefaultSortAntisymmetric(b, c, Asc);
      DefaultSortAntisymmetric(a, c, Asc);
      DefaultSortDescNegatesAsc(a, b);
      DefaultSortDescNegatesAsc(b, c);
      DefaultSortDescNegatesAsc(a, c);
      assert UniformKeys({c, b, a}) by { assert {c, b, a} == {a, b, c}; }
      DefaultSortAscTransitive(c, b, a);
    }
  }

  /** On uniform keys `defaultSort` is a consistent comparator, in either direction. */
  lemma DefaultSortTotalPreorder(keys: set<Value>, direction: SortDirection)
    requires UniformKeys(keys)
    ensures TotalPreorderOn(keys, (a, b) => DefaultSort(a, b, direction))
  {
    var cmp := (a, b) => DefaultSort(a, b, direction);
    forall a, b | a in keys && b in keys ensures cmp(a, b) <= 0 || cmp(b, a) <= 0 {
      DefaultSortAntisymmetric(a, b, direction);
    }
    forall a, b, c | a in keys && b in keys && c in keys && cmp(a, b) <= 0 && cmp(b, c) <= 0
      ensures cmp(a, c) <= 0
    {
      assert UniformKeys({a, b, c});
      DefaultSortTransitive(a, b, c, direction);
    }
  }

  // ---------------------------------------------------------------------------
  // calculateFrozenWidth

  /** `columns.filter(col => col.frozen === tag)`; `None` selects the unpinned columns. */
  function FilterFrozen(columns: seq<Column>, tag: Option<Side>): (r: seq<Column>)
    ensures |r| <= |columns|
    ensures forall k :: 0 <= k < |r| ==> r[k].frozen == tag
  {
    if columns == [] then []
    else (if columns[0].frozen == tag then [columns[0]] else []) + FilterFrozen(columns[1..], tag)
  }

  lemma {:induction false} FilterFrozenAppend(a: seq<Column>, b: seq<Column>, tag: Option<Side>)
    ensures FilterFrozen(a + b, tag) == FilterFrozen(a, tag) + FilterFrozen(b, tag)
    decreases |a|
  {
    if a != [] {
      FilterFrozenAppend(a[1..], b, tag);
      assert (a + b)[0] == a[0] && (a + b)[1..] == a[1..] + b;
      var head := if a[0].frozen == tag then [a[0]] else [];
      assert FilterFrozen(a + b, tag) == head + FilterFrozen(a[1..] + b, tag);
      assert FilterFrozen(a, tag) == head + FilterFrozen(a[1..], tag);
    } else {
      assert a + b == b;
    }
  }

  /** Filtering twice by the same tag filters once. */
  lemma {:induction false} FilterFrozenIdempotent(columns: seq<Column>, tag: Option<Side>)
    ensures FilterFrozen(FilterFrozen(columns, tag), tag) == FilterFrozen(columns, tag)
    decreases |columns|
  {
    if columns != [] {
      var head := if columns[0].frozen == tag then [columns[0]] else [];
      FilterFrozenAppend(head, FilterFrozen(columns[1..], tag), tag);
      FilterFrozenIdempotent(columns[1..], tag);
    }
  }

  /** `parseFloat(col.width) || 150` for integer widths: NaN and 0 fall back to 150, so no column is 0 wide. */
  function FrozenColumnWidth(c: Column): (w: int)
    ensures w != 0
  {
    var parsed := if c.width.Some? then ParseLeadingInt(c.width.value) else None;
    if parsed.None? || parsed.value == 0 then 150 else parsed.value
  }

  /** The widths of `columns` under `width` added up, head first, as a `reduce` from 0 does. */
  function SumBy(columns: seq<Column>, width: Column -> int): int {
    if columns == [] then 0 else width(columns[0]) + SumBy(columns[1..], width)
  }

  /** The `reduce` of `calculateFrozenWidth` over already filtered columns. */
  function SumFrozenWidths(columns: seq<Column>): int {
    SumBy(columns, FrozenColumnWidth)
  }

  /** `calculateFrozenWidth(columns, side)`. */
  function CalculateFrozenWidth(columns: seq<Column>, side: Side): int {
    SumFrozenWidths(FilterFrozen(columns, Some(side)))
  }

  lemma {:induction false} SumByAppend(a: seq<Column>, b: seq<Column>, width: Column -> int)
    ensures SumBy(a + b, width) == SumBy(a, width) + SumBy(b, width)
    decreases |a|
  {
    if a != [] {
      assert (a + b)[1..] == a[1..] + b;
      SumByAppend(a[1..], b, width);
    } else {
      assert a + b == b;
    }
  }

  /** The frozen width of a concatenation is the sum of the frozen widths; an empty list has width 0. */
  lemma CalculateFrozenWidthAdditive(a: seq<Column>, b: seq<Column>, side: Side)
    ensures CalculateFrozenWidth([], side) == 0
    ensures CalculateFrozenWidth(a + b, side) == CalculateFrozenWidth(a, side) + CalculateFrozenWidth(b, side)
  {
    FilterFrozenAppend(a, b, Some(side));
    SumByAppend(FilterFrozen(a, Some(side)), FilterFrozen(b, Some(side)), FrozenColumnWidth);
  }

  /** A column pinned to `side` adds its parsed width, or 150; any other column adds nothing. */
  lemma CalculateFrozenWidthSnoc(columns: seq<Column>, c: Column, side: Side)
    ensures c.frozen == Some(side) ==>
      CalculateFrozenWidth(columns + [c], side) == CalculateFrozenWidth(columns, side) + FrozenColumnWidth(c)
    ensures c.frozen != Some(side) ==>
      CalculateFrozenWidth(columns + [c], side) == CalculateFrozenWidth(columns, side)
  {
    CalculateFrozenWidthAdditive(columns, [c], side);
    assert FilterFrozen([c], Some(side)) == if c.frozen == Some(side) then [c] else [];
  }

  /** A missing, unparsable or zero width counts 150; "80px" counts 80. */
  lemma FrozenColumnWidthDefaults(c: Column, n: int)
    ensures c.width.None? ==> FrozenColumnWidth(c) == 150
    ensures c.width.Some? && ParseLeadingInt(c.width.value).None? ==> FrozenColumnWidth(c) == 150
    ensures n != 0 && c.width == Some(IntToString(n) + "px") ==> FrozenColumnWidth(c) == n
    ensures c.width == Some("0px") ==> FrozenColumnWidth(c) == 150
  {
    ParseLeadingIntOfPrinted(n, "px");
    ParseLeadingIntOfPrinted(0, "px");
    assert IntToString(0) + "px" == "0px";
  }
}
