/**
 * `Array.prototype.sort` with a comparator, as used by the table's sorted view.
 * The sort moves every `undefined` element to the end without handing it to
 * the comparator, and sorts the other elements stably (ECMA-262's
 * SortIndexedProperties and CompareArrayElements). For a comparator
 * that is a total preorder on those elements, the stable sort is the
 * insertion sort defined here.
 */
module Sorting {
  import opened JsValues

  /** `(a, b) => number`: negative puts `a` first, positive puts `b` first. */
  type Comparator = (Value, Value) -> int

  /** Every pair in order: no later element should come before an earlier one. */
  ghost predicate Sorted(s: seq<Value>, cmp: Comparator) {
    forall i, j :: 0 <= i < j < |s| ==> cmp(s[i], s[j]) <= 0
  }

  /** `cmp(a, b) <= 0` is total and transitive on `dom`: a consistent comparator there. */
  ghost predicate TotalPreorderOn(dom: set<Value>, cmp: Comparator) {
    && (forall a, b :: a in dom && b in dom ==> cmp(a, b) <= 0 || cmp(b, a) <= 0)
    && (forall a, b, c :: a in dom && b in dom && c in dom && cmp(a, b) <= 0 && cmp(b, c) <= 0 ==> cmp(a, c) <= 0)
  }

  /** Puts `x` before the first element it does not compare above. */
  function Insert(x: Value, t: seq<Value>, cmp: Comparator): (r: seq<Value>)
    ensures multiset(r) == multiset{x} + multiset(t)
    ensures |r| == |t| + 1
  {
    if t == [] || cmp(x, t[0]) <= 0 then [x] + t
    else
      assert t == [t[0]] + t[1..];
      [t[0]] + Insert(x, t[1..], cmp)
  }

  /** The stable sort of `s` by `cmp`; it hands every element to the comparator. */
  function SortBy(s: seq<Value>, cmp: Comparator): (r: seq<Value>)
    ensures multiset(r) == multiset(s)
    ensures |r| == |s|
  {
    if s == [] then []
    else
      assert s == [s[0]] + s[1..];
      Insert(s[0], SortBy(s[1..], cmp), cmp)
  }

  /** Prepending an element that compares below everything keeps a sequence ordered. */
  lemma PrependSorted(x: Value, t: seq<Value>, cmp: Comparator)
    requires Sorted(t, cmp)
    requires forall j :: 0 <= j < |t| ==> cmp(x, t[j]) <= 0
    ensures Sorted([x] + t, cmp)
  {
    var r := [x] + t;
    forall i, j | 0 <= i < j < |r| ensures cmp(r[i], r[j]) <= 0 {
      if i == 0 {
        assert r[j] == t[j - 1];
      } else {
        assert r[i] == t[i - 1] && r[j] == t[j - 1];
      }
    }
  }

  /** An element that compares below `x` and below all of `t` compares below all of `Insert(x, t)`. */
  lemma InsertKeepsLowerBound(y: Value, x: Value, t: seq<Value>, cmp: Comparator)
    requires cmp(y, x) <= 0
    requires forall j :: 0 <= j < |t| ==> cmp(y, t[j]) <= 0
    ensures forall j :: 0 <= j < |Insert(x, t, cmp)| ==> cmp(y, Insert(x, t, cmp)[j]) <= 0
  {
    var r := Insert(x, t, cmp);
    forall j | 0 <= j < |r| ensures cmp(y, r[j]) <= 0 {
      assert r[j] in multiset(r);
      if r[j] != x {
        assert r[j] in multiset(t);
        var k :| 0 <= k < |t| && t[k] == r[j];
      }
    }
  }

  /** In an ordered sequence over `dom`, an element at most the head is at most every element. */
  lemma BelowHeadBelowAll(x: Value, t: seq<Value>, cmp: Comparator, dom: set<Value>)
    requires TotalPreorderOn(dom, cmp)
    requires x in dom && forall e :: e in t ==> e in dom
    requires Sorted(t, cmp)
    requires t != [] ==> cmp(x, t[0]) <= 0
    ensures forall j :: 0 <= j < |t| ==> cmp(x, t[j]) <= 0
  {
    forall j | 0 <= j < |t| ensures cmp(x, t[j]) <= 0 {
      if j > 0 {
        assert t[j] in dom && t[0] in dom;
        assert cmp(t[0], t[j]) <= 0;
      }
    }
  }

  lemma {:induction false} InsertSorted(x: Value, t: seq<Value>, cmp: Comparator, dom: set<Value>)
    requires TotalPreorderOn(dom, cmp)
    requires x in dom && forall e :: e in t ==> e in dom
    requires Sorted(t, cmp)
    ensures Sorted(Insert(x, t, cmp), cmp)
    decreases |t|
  {
    if t == [] || cmp(x, t[0]) <= 0 {
      BelowHeadBelowAll(x, t, cmp, dom);
      PrependSorted(x, t, cmp);
    } else {
      var tail := t[1..];
      SortedTail(t, cmp, dom);
      assert cmp(t[0], x) <= 0;
      InsertSorted(x, tail, cmp, dom);
      InsertKeepsLowerBound(t[0], x, tail, cmp);
      PrependSorted(t[0], Insert(x, tail, cmp), cmp);
    }
  }

  /** The tail of an ordered sequence over `dom` is ordered, over `dom`, and bounded below by the head. */
  lemma SortedTail(t: seq<Value>, cmp: Comparator, dom: set<Value>)
    requires t != [] && Sorted(t, cmp)
    requires forall e :: e in t ==> e in dom
    ensures t[0] in dom
    ensures forall e :: e in t[1..] ==> e in dom
    ensures Sorted(t[1..], cmp)
    ensures forall j :: 0 <= j < |t[1..]| ==> cmp(t[0], t[1..][j]) <= 0
  {
    forall i, j | 0 <= i < j < |t[1..]| ensures cmp(t[1..][i], t[1..][j]) <= 0 {
      assert t[1..][i] == t[i + 1] && t[1..][j] == t[j + 1];
    }
    forall j | 0 <= j < |t[1..]| ensures cmp(t[0], t[1..][j]) <= 0 {
      assert t[1..][j] == t[j + 1];
    }
  }

  /** With a consistent comparator the result is ordered; it is always a permutation (SortBy's ensures). */
  lemma {:induction false} SortBySorted(s: seq<Value>, cmp: Comparator, dom: set<Value>)
    requires TotalPreorderOn(dom, cmp)
    requires forall e :: e in s ==> e in dom
    ensures Sorted(SortBy(s, cmp), cmp)
    decreases |s|
  {
    if s != [] {
      SortBySorted(s[1..], cmp, dom);
      var t := SortBy(s[1..], cmp);
      forall e | e in t ensures e in dom {
        assert e in multiset(t);
        assert e in multiset(s[1..]);
      }
      InsertSorted(s[0], t, cmp, dom);
    }
  }

  // ---------------------------------------------------------------------------
  // undefined elements

  /** The elements of `s` other than `undefined`, in order. */
  function Defined(s: seq<Value>): (r: seq<Value>)
    ensures forall k :: 0 <= k < |r| ==> r[k] != Undef
  {
    if s == [] then [] else (if s[0] == Undef then [] else [s[0]]) + Defined(s[1..])
  }

  /** The `undefined` elements of `s`. */
  function Undefineds(s: seq<Value>): (r: seq<Value>)
    ensures forall k :: 0 <= k < |r| ==> r[k] == Undef
  {
    if s == [] then [] else (if s[0] == Undef then [Undef] else []) + Undefineds(s[1..])
  }

  /** The head of `s` goes to exactly one of the two parts. */
  lemma SplitUndefinedHead(s: seq<Value>)
    requires s != []
    ensures multiset(Defined(s)) + multiset(Undefineds(s))
         == multiset{s[0]} + (multiset(Defined(s[1..])) + multiset(Undefineds(s[1..])))
  {
    var hd: seq<Value> := if s[0] == Undef then [] else [s[0]];
    var hu: seq<Value> := if s[0] == Undef then [Undef] else [];
    assert Defined(s) == hd + Defined(s[1..]);
    assert Undefineds(s) == hu + Undefineds(s[1..]);
    assert multiset(hd) + multiset(hu) == multiset{s[0]};
  }

  /** Splitting off the `undefined` elements loses nothing. */
  lemma {:induction false} SplitUndefined(s: seq<Value>)
    ensures multiset(Defined(s)) + multiset(Undefineds(s)) == multiset(s)
    ensures |Defined(s)| + |Undefineds(s)| == |s|
    decreases |s|
  {
    if s != [] {
      SplitUndefined(s[1..]);
      SplitUndefinedHead(s);
      assert s == [s[0]] + s[1..];
      assert multiset(s) == multiset{s[0]} + multiset(s[1..]);
      assert |multiset(Defined(s)) + multiset(Undefineds(s))| == |multiset(s)|;
    }
  }

  /** `s.sort(cmp)`: the defined elements sorted by `cmp`, then the `undefined` ones. */
  function ArraySort(s: seq<Value>, cmp: Comparator): (r: seq<Value>)
    ensures multiset(r) == multiset(s)
    ensures |r| == |s|
  {
    SplitUndefined(s);
    SortBy(Defined(s), cmp) + Undefineds(s)
  }

  /** Ordered as `sort` leaves an array: no defined element after an `undefined` one, the defined ones in comparator order. */
  ghost predicate SortedUndefinedLast(r: seq<Value>, cmp: Comparator) {
    forall i, j :: 0 <= i < j < |r| ==> r[j] == Undef || (r[i] != Undef && cmp(r[i], r[j]) <= 0)
  }

  /** Sorting keeps exactly the elements it was given. */
  lemma SortByKeepsElements(d: seq<Value>, cmp: Comparator)
    ensures forall e :: e in SortBy(d, cmp) <==> e in d
  {
    forall e ensures e in SortBy(d, cmp) <==> e in d {
      assert e in SortBy(d, cmp) <==> e in multiset(SortBy(d, cmp));
      assert e in d <==> e in multiset(d);
    }
  }

  /** An ordered run of defined elements followed by `undefined` ones is ordered as `sort` leaves it. */
  lemma SortedThenUndefined(a: seq<Value>, u: seq<Value>, cmp: Comparator)
    requires Sorted(a, cmp)
    requires forall k :: 0 <= k < |a| ==> a[k] != Undef
    requires forall k :: 0 <= k < |u| ==> u[k] == Undef
    ensures SortedUndefinedLast(a + u, cmp)
  {
    var r := a + u;
    forall i, j | 0 <= i < j < |r| ensures r[j] == Undef || (r[i] != Undef && cmp(r[i], r[j]) <= 0) {
      if j >= |a| {
        assert r[j] == u[j - |a|];
      } else {
        assert r[i] == a[i] && r[j] == a[j];
      }
    }
  }

  /**
   * With a comparator that is consistent on the defined elements, the result
   * holds those elements in comparator order followed by every `undefined`.
   */
  lemma ArraySortOrdered(s: seq<Value>, cmp: Comparator, dom: set<Value>)
    requires TotalPreorderOn(dom, cmp)
    requires forall e :: e in s && e != Undef ==> e in dom
    ensures SortedUndefinedLast(ArraySort(s, cmp), cmp)
  {
    SplitUndefined(s);
    var d := Defined(s);
    forall e | e in d ensures e in dom {
      assert e in multiset(d);
      assert e in multiset(s);
      var k :| 0 <= k < |d| && d[k] == e;
    }
    SortBySorted(d, cmp, dom);
    SortByKeepsElements(d, cmp);
    var a := SortBy(d, cmp);
    forall k | 0 <= k < |a| ensures a[k] != Undef {
      assert a[k] in d;
    }
    SortedThenUndefined(a, Undefineds(s), cmp);
  }

  /** Whatever the comparator, no defined element comes after an `undefined` one, and every `undefined` is kept. */
  lemma ArraySortUndefinedLast(s: seq<Value>, cmp: Comparator)
    ensures forall i, j :: 0 <= i < j < |ArraySort(s, cmp)| && ArraySort(s, cmp)[i] == Undef ==> ArraySort(s, cmp)[j] == Undef
    ensures multiset(ArraySort(s, cmp))[Undef] == multiset(s)[Undef]
  {
    var d := Defined(s);
    SortByKeepsElements(d, cmp);
    var a, u := SortBy(d, cmp), Undefineds(s);
    forall k | 0 <= k < |a| ensures a[k] != Undef {
      assert a[k] in d;
    }
    var r := a + u;
    forall i, j | 0 <= i < j < |r| && r[i] == Undef ensures r[j] == Undef {
      assert i >= |a|;
      assert r[j] == u[j - |a|];
    }
  }

  /** `[undefined, 1].sort(cmp)` is `[1, undefined]` whatever `cmp` is. */
  lemma ArraySortUndefinedFirst(cmp: Comparator)
    ensures ArraySort([Undef, Int(1)], cmp) == [Int(1), Undef]
  {
    assert [Undef, Int(1)][1..] == [Int(1)];
    assert Defined([Undef, Int(1)]) == [Int(1)];
    assert Undefineds([Undef, Int(1)]) == [Undef];
    assert [Int(1)][1..] == [];
    assert SortBy([Int(1)], cmp) == [Int(1)];
  }
}
