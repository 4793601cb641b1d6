/**
  The boundary predicate builder: `build_filter` and
  `KeysetPaginator._get_page_filters`, as written, and the corrected builder
  that the comment above the `reduce` describes.
*/
module Filters {
  import opened Predicates
  import opened Ordering
  import opened Sequences

  /**
    `build_filter(key, value, inclusive, flip)`: one lookup on the key's column,
    `lt` when the key is descending XOR `flip`, else `gt`; `inclusive` adds the
    `e` that makes it non-strict.
  */
  function BuildFilter(key: string, value: int, inclusive: bool, flip: bool): (r: Pred)
    requires |key| > 0
    ensures r.Cmp? && r.column == Column(key) && r.value == value
    ensures (r.op == Lt || r.op == Lte) <==> IsDescending(key) != flip
    ensures (r.op == Lte || r.op == Gte) <==> inclusive
  {
    var direction := IsDescending(key) != flip;
    Cmp(Column(key), if direction then (if inclusive then Lte else Lt) else (if inclusive then Gte else Gt), value)
  }

  /** A built filter lets a row through iff its value is past the cursor value in the effective direction (or equal to it, when inclusive). */
  lemma BuildFilterMeaning(key: string, value: int, inclusive: bool, flip: bool, row: Row)
    requires |key| > 0 && Column(key) in row
    ensures Eval(BuildFilter(key, value, inclusive, flip), row) <==>
      Before(IsDescending(key) != flip, value, row[Column(key)]) ||
      (inclusive && row[Column(key)] == value)
  {
  }

  /** A flipped filter is the unflipped filter of the toggled key: it follows the ordering `_get_ordering` emits. */
  lemma {:induction false} BuildFilterFollowsOrdering(key: string, value: int, inclusive: bool)
    requires NamesColumn(key)
    ensures |Toggle(key)| > 0
    ensures BuildFilter(key, value, inclusive, true) == BuildFilter(Toggle(key), value, inclusive, false)
  {
    ToggleFlipsDirection(key);
  }

  /**
    The equality filter: one exact lookup per key column, ANDed; like the
    keyword dict it is built from, it keeps only the last value given for a
    column that several keys name.
  */
  function EqualityFilter(keys: seq<string>, values: seq<int>): Pred
    requires |keys| == |values| && |keys| > 0
  {
    var c := Column(keys[0]);
    if |keys| == 1 then
      Cmp(c, Exact, values[0])
    else if exists j :: 1 <= j < |keys| && Column(keys[j]) == c then
      EqualityFilter(keys[1..], values[1..])
    else
      And(Cmp(c, Exact, values[0]), EqualityFilter(keys[1..], values[1..]))
  }

  /** With distinct columns, the equality filter holds exactly on rows whose every key column equals its cursor value. */
  lemma {:induction false} EqualityFilterMeaning(keys: seq<string>, values: seq<int>, row: Row)
    requires |keys| == |values| && |keys| > 0 && DistinctColumns(keys)
    ensures Eval(EqualityFilter(keys, values), row) <==>
      Covers(keys, row) && forall i :: 0 <= i < |keys| ==> row[Column(keys[i])] == values[i]
  {
    if |keys| > 1 {
      var ks, vs := keys[1..], values[1..];
      assert DistinctColumns(ks);
      assert !exists j :: 1 <= j < |keys| && Column(keys[j]) == Column(keys[0]);
      EqualityFilterMeaning(ks, vs, row);
      assert Covers(keys, row) <==> Column(keys[0]) in row && Covers(ks, row) by {
        assert forall i :: 1 <= i < |keys| ==> keys[i] == ks[i - 1];
      }
      if Covers(keys, row) {
        assert (forall i :: 0 <= i < |keys| ==> row[Column(keys[i])] == values[i]) <==>
          row[Column(keys[0])] == values[0] && forall i :: 0 <= i < |ks| ==> row[Column(ks[i])] == vs[i] by {
          assert forall i :: 1 <= i < |keys| ==> keys[i] == ks[i - 1] && values[i] == vs[i - 1];
        }
      }
    }
  }

  /** Python's `s[:stop]`, where a negative `stop` counts from the end. */
  function PySliceTo<T>(s: seq<T>, stop: int): (r: seq<T>)
    ensures |r| <= |s| && r == s[..|r|]
    ensures stop >= 0 ==> |r| == Min(stop, |s|)
    ensures stop < 0 ==> |r| == if |s| + stop < 0 then 0 else |s| + stop
  {
    if stop >= 0 then Take(s, stop)
    else if |s| + stop < 0 then []
    else s[..|s| + stop]
  }

  /** Over the one-element `equality_filters`, `[:i - 1]` is empty for the first two keys and the whole list after. */
  lemma {:induction false} AsWrittenSlice(q: Pred, i: nat)
    ensures PySliceTo([q], i - 1) == if i < 2 then [] else [q]
  {
  }

  /** `key_filters`: the strict filter of every key against its cursor value. */
  function KeyFilters(keys: seq<string>, values: seq<int>, flip: bool): seq<Pred>
    requires NonEmptyKeys(keys) && |values| == |keys|
  {
    seq(|keys|, i requires 0 <= i < |keys| => BuildFilter(keys[i], values[i], false, flip))
  }

  /** The disjuncts of `page_filters` as written: key filter `i` ANDed with the equality filter list cut one short of `i - 1`. */
  function AsWrittenDisjuncts(keyFilters: seq<Pred>, equalityFilters: seq<Pred>): seq<Pred>
  {
    seq(|keyFilters|, i requires 0 <= i < |keyFilters| => AndAll([keyFilters[i]] + PySliceTo(equalityFilters, i - 1)))
  }

  /** The cursor's direction flag, read as Python reads `number[0]`: any non-zero value (JSON `true`) is set. */
  predicate Flag(number: seq<int>)
    requires |number| > 0
  {
    number[0] != 0
  }

  /** The inclusive "index helper" on the first key. */
  function IndexHelper(keys: seq<string>, number: seq<int>): Pred
    requires |keys| > 0 && |keys[0]| > 0 && |number| == 1 + |keys|
  {
    BuildFilter(keys[0], number[1], true, Flag(number))
  }

  /** The OR of the disjuncts, before the index helper is ANDed in. */
  function BareDisjunction(keys: seq<string>, number: seq<int>): Pred
    requires |keys| > 0 && NonEmptyKeys(keys) && |number| == 1 + |keys|
  {
    var values := number[1..];
    OrAll(AsWrittenDisjuncts(KeyFilters(keys, values, Flag(number)), [EqualityFilter(keys, values)]))
  }

  /** `KeysetPaginator._get_page_filters(number)` as written. */
  function PageFilters(keys: seq<string>, number: seq<int>): Pred
    requires |keys| > 0 && NonEmptyKeys(keys) && |number| == 1 + |keys|
  {
    And(BareDisjunction(keys, number), IndexHelper(keys, number))
  }

  /**
    The builder the comment above the `reduce` describes, a row-value comparison
    unrolled key by key: one equality filter per column, and disjunct `i` ANDs
    the key filter with the first `i` of them.
    The index helper is kept.
  */
  function IntendedPageFilters(keys: seq<string>, number: seq<int>): Pred
    requires |keys| > 0 && NonEmptyKeys(keys) && |number| == 1 + |keys|
  {
    var values := number[1..];
    var disjuncts := IntendedDisjuncts(KeyFilters(keys, values, Flag(number)), ColumnEqualities(keys, values));
    And(OrAll(disjuncts), IndexHelper(keys, number))
  }

  /** One exact lookup per key column: the tie test at each level. */
  function ColumnEqualities(keys: seq<string>, values: seq<int>): seq<Pred>
    requires |values| == |keys|
  {
    seq(|keys|, j requires 0 <= j < |keys| => Cmp(Column(keys[j]), Exact, values[j]))
  }

  /** Disjunct `i` of the intended builder: key filter `i` ANDed with the ties on every earlier key. */
  function IntendedDisjuncts(keyFilters: seq<Pred>, equalityFilters: seq<Pred>): seq<Pred>
    requires |equalityFilters| == |keyFilters|
  {
    seq(|keyFilters|, i requires 0 <= i < |keyFilters| => AndAll([keyFilters[i]] + equalityFilters[..i]))
  }

  /** The row's key tuple comes strictly after the cursor's values on the first `m` keys, under the effective directions. */
  predicate AfterCursor(keys: seq<string>, number: seq<int>, row: Row, m: nat)
    requires NonEmptyKeys(keys) && |number| == 1 + |keys| && Covers(keys, row) && m <= |keys|
  {
    Precedes(EffectiveDescending(keys, Flag(number))[..m], number[1..][..m], KeyTuple(keys, row)[..m])
  }

  /** The strict comparison of key `i`, on the row's value for that key. */
  predicate Strict(keys: seq<string>, number: seq<int>, row: Row, i: nat)
    requires NonEmptyKeys(keys) && |number| == 1 + |keys| && Covers(keys, row) && i < |keys|
  {
    Before(IsDescending(keys[i]) != Flag(number), number[i + 1], row[Column(keys[i])])
  }

  /** Lexicographic comparison on one or two keys, unrolled. */
  lemma {:induction false} AfterCursorShort(keys: seq<string>, number: seq<int>, row: Row, m: nat)
    requires NonEmptyKeys(keys) && |number| == 1 + |keys| && Covers(keys, row)
    requires 1 <= m <= 2 && m <= |keys|
    ensures AfterCursor(keys, number, row, m) <==>
      Strict(keys, number, row, 0) ||
      (m == 2 && row[Column(keys[0])] == number[1] && Strict(keys, number, row, 1))
  {
    var d := EffectiveDescending(keys, Flag(number))[..m];
    var a := number[1..][..m];
    var b := KeyTuple(keys, row)[..m];
    assert d[0] == (IsDescending(keys[0]) != Flag(number));
    assert a[0] == number[1] && b[0] == row[Column(keys[0])];
    assert Precedes(d, a, b) == (Before(d[0], a[0], b[0]) || (a[0] == b[0] && Precedes(d[1..], a[1..], b[1..])));
    if m == 1 {
      assert !Precedes(d[1..], a[1..], b[1..]);
    } else {
      var d1, a1, b1 := d[1..], a[1..], b[1..];
      assert d1[0] == (IsDescending(keys[1]) != Flag(number));
      assert a1[0] == number[2] && b1[0] == row[Column(keys[1])];
      assert !Precedes(d1[1..], a1[1..], b1[1..]);
      assert Precedes(d1, a1, b1) == Before(d1[0], a1[0], b1[0]);
    }
  }

  /** Key filter `i` holds iff the row is strictly after the cursor on key `i`. */
  lemma KeyFilterMeaning(keys: seq<string>, number: seq<int>, row: Row, i: nat)
    requires NonEmptyKeys(keys) && |number| == 1 + |keys| && Covers(keys, row) && i < |keys|
    ensures Eval(KeyFilters(keys, number[1..], Flag(number))[i], row) <==> Strict(keys, number, row, i)
  {
    BuildFilterMeaning(keys[i], number[1..][i], false, Flag(number), row);
  }

  /** The index helper holds iff the row is after the cursor on the first key or ties it there. */
  lemma IndexHelperMeaning(keys: seq<string>, number: seq<int>, row: Row)
    requires ValidKeys(keys) && |number| == 1 + |keys| && Covers(keys, row)
    ensures Eval(IndexHelper(keys, number), row) <==>
      Strict(keys, number, row, 0) || row[Column(keys[0])] == number[1]
  {
    BuildFilterMeaning(keys[0], number[1], true, Flag(number), row);
  }

  /** Every disjunct from the third key on is unsatisfiable: the equality filter pins the column its strict filter moves. */
  lemma {:induction false} LaterDisjunctUnsatisfiable(keys: seq<string>, number: seq<int>, row: Row, i: nat)
    requires ValidKeys(keys) && DistinctColumns(keys) && |number| == 1 + |keys|
    requires 2 <= i < |keys|
    ensures !Eval(AsWrittenDisjuncts(KeyFilters(keys, number[1..], Flag(number)), [EqualityFilter(keys, number[1..])])[i], row)
  {
    var values := number[1..];
    var kf := KeyFilters(keys, values, Flag(number));
    var q := EqualityFilter(keys, values);
    AsWrittenSlice(q, i);
    var ps := [kf[i]] + PySliceTo([q], i - 1);
    assert ps == [kf[i], q];
    assert AsWrittenDisjuncts(kf, [q])[i] == AndAll(ps);
    AndAllMeaning(ps, row);
    EqualityFilterMeaning(keys, values, row);
    if Eval(q, row) {
      KeyFilterMeaning(keys, number, row, i);
      assert row[Column(keys[i])] == values[i];
    }
  }

  /** Without the index helper, the as-written predicate is `c1 op v1 OR c2 op v2`. */
  lemma {:induction false} BareDisjunctionMeaning(keys: seq<string>, number: seq<int>, row: Row)
    requires ValidKeys(keys) && DistinctColumns(keys) && |number| == 1 + |keys| && Covers(keys, row)
    ensures Eval(BareDisjunction(keys, number), row) <==>
      Strict(keys, number, row, 0) || (|keys| >= 2 && Strict(keys, number, row, 1))
  {
    var values := number[1..];
    var kf := KeyFilters(keys, values, Flag(number));
    var q := EqualityFilter(keys, values);
    var ds := AsWrittenDisjuncts(kf, [q]);
    AsWrittenSlice(q, 0);
    assert ds[0] == AndAll([kf[0]]) == kf[0];
    KeyFilterMeaning(keys, number, row, 0);
    if |keys| >= 2 {
      AsWrittenSlice(q, 1);
      assert ds[1] == AndAll([kf[1]]) == kf[1];
      KeyFilterMeaning(keys, number, row, 1);
    }
    OrAllMeaning(ds, row);
    if Eval(OrAll(ds), row) {
      var i :| 0 <= i < |ds| && Eval(ds[i], row);
      if i >= 2 {
        LaterDisjunctUnsatisfiable(keys, number, row, i);
        assert false;
      }
    }
  }

  /**
    The as-written predicate is the lexicographic comparison on the first
    two keys only: exactly "after the cursor" for one or two keys, and for
    three or more keys the ties from the third key on are dropped.
  */
  lemma {:induction false} PageFiltersMeaning(keys: seq<string>, number: seq<int>, row: Row)
    requires ValidKeys(keys) && DistinctColumns(keys) && |number| == 1 + |keys| && Covers(keys, row)
    ensures Eval(PageFilters(keys, number), row) <==> AfterCursor(keys, number, row, Min(2, |keys|))
  {
    BareDisjunctionMeaning(keys, number, row);
    AfterCursorShort(keys, number, row, Min(2, |keys|));
    IndexHelperMeaning(keys, number, row);
  }

  /** With one key, the predicate is the single strict comparison on it. */
  lemma {:induction false} OneKeyPageFilters(keys: seq<string>, number: seq<int>, row: Row)
    requires ValidKeys(keys) && |keys| == 1 && |number| == 2 && Covers(keys, row)
    ensures Eval(PageFilters(keys, number), row) <==> Strict(keys, number, row, 0)
  {
    PageFiltersMeaning(keys, number, row);
    AfterCursorShort(keys, number, row, 1);
  }

  /** With two keys, the predicate is `(c1 op v1) OR (c1 = v1 AND c2 op v2)`. */
  lemma {:induction false} TwoKeyPageFilters(keys: seq<string>, number: seq<int>, row: Row)
    requires ValidKeys(keys) && DistinctColumns(keys) && |keys| == 2 && |number| == 3 && Covers(keys, row)
    ensures Eval(PageFilters(keys, number), row) <==>
      Strict(keys, number, row, 0) || (row[Column(keys[0])] == number[1] && Strict(keys, number, row, 1))
  {
    PageFiltersMeaning(keys, number, row);
    AfterCursorShort(keys, number, row, 2);
  }

  /** Two keys, cursor (5, 5), row (4, 6): the bare disjunction lets the row in and the index helper keeps it out. */
  lemma {:induction false} IndexHelperIsLoadBearing()
    ensures Eval(BareDisjunction(["a", "b"], [0, 5, 5]), map["a" := 4, "b" := 6])
    ensures !Eval(PageFilters(["a", "b"], [0, 5, 5]), map["a" := 4, "b" := 6])
  {
    var keys, number, row := ["a", "b"], [0, 5, 5], map["a" := 4, "b" := 6];
    assert Column("a") == "a" && Column("b") == "b";
    assert DistinctColumns(keys);
    BareDisjunctionMeaning(keys, number, row);
    IndexHelperMeaning(keys, number, row);
  }

  /** A row that ties the cursor on the first two keys and is strictly after it on the third comes after the cursor. */
  lemma {:induction false} TieOnTwoThenAfter(keys: seq<string>, number: seq<int>, row: Row)
    requires NonEmptyKeys(keys) && |keys| >= 3 && |number| == 1 + |keys| && Covers(keys, row)
    requires row[Column(keys[0])] == number[1] && row[Column(keys[1])] == number[2]
    requires Strict(keys, number, row, 2)
    ensures AfterCursor(keys, number, row, |keys|)
    ensures !AfterCursor(keys, number, row, 2)
  {
    var d := EffectiveDescending(keys, Flag(number));
    var values := number[1..];
    var t := KeyTuple(keys, row);
    assert values[..2] == t[..2];
    assert Before(d[2], values[2], t[2]);
    PrecedesAt(d, values, t);
    assert d[..|keys|] == d && values[..|keys|] == values && t[..|keys|] == t;
    AfterCursorShort(keys, number, row, 2);
  }

  /**
    From the third key on, ties are lost: a row that ties the cursor on the
    first two keys and comes after it on the third is after the cursor, yet
    the as-written predicate excludes it.
  */
  lemma {:induction false} ThreeKeysSkipTies(keys: seq<string>, number: seq<int>, row: Row)
    requires ValidKeys(keys) && DistinctColumns(keys) && |keys| >= 3 && |number| == 1 + |keys| && Covers(keys, row)
    requires row[Column(keys[0])] == number[1] && row[Column(keys[1])] == number[2]
    requires Strict(keys, number, row, 2)
    ensures AfterCursor(keys, number, row, |keys|)
    ensures !Eval(PageFilters(keys, number), row)
  {
    TieOnTwoThenAfter(keys, number, row);
    PageFiltersMeaning(keys, number, row);
  }

  /** The smallest instance: three ascending keys, cursor (1, 1, 1), row (1, 1, 2). */
  lemma {:induction false} ThreeKeysExample()
    ensures AfterCursor(["a", "b", "c"], [0, 1, 1, 1], map["a" := 1, "b" := 1, "c" := 2], 3)
    ensures !Eval(PageFilters(["a", "b", "c"], [0, 1, 1, 1]), map["a" := 1, "b" := 1, "c" := 2])
  {
    var keys, number, row := ["a", "b", "c"], [0, 1, 1, 1], map["a" := 1, "b" := 1, "c" := 2];
    assert Column("a") == "a" && Column("b") == "b" && Column("c") == "c";
    assert keys[0] == "a" && keys[1] == "b" && keys[2] == "c";
    assert ValidKeys(keys);
    assert "a" != "b" && "a" != "c" && "b" != "c" by {
      assert "a"[0] != "b"[0] && "a"[0] != "c"[0] && "b"[0] != "c"[0];
    }
    assert DistinctColumns(keys);
    assert Covers(keys, row);
    assert Strict(keys, number, row, 2);
    ThreeKeysSkipTies(keys, number, row);
  }

  /** The first `i` column equalities hold iff the row ties the cursor on the first `i` keys. */
  lemma {:induction false} ColumnEqualitiesMeaning(keys: seq<string>, values: seq<int>, row: Row, i: nat)
    requires |values| == |keys| && Covers(keys, row) && i <= |keys|
    ensures (forall k :: 0 <= k < i ==> Eval(ColumnEqualities(keys, values)[..i][k], row)) <==>
      values[..i] == KeyTuple(keys, row)[..i]
  {
    var eqs := ColumnEqualities(keys, values);
    var t := KeyTuple(keys, row);
    if values[..i] == t[..i] {
      forall k | 0 <= k < i ensures Eval(eqs[..i][k], row) {
        assert values[..i][k] == t[..i][k];
      }
    }
    if forall k :: 0 <= k < i ==> Eval(eqs[..i][k], row) {
      forall k | 0 <= k < i ensures values[k] == t[k] {
        assert Eval(eqs[..i][k], row);
      }
      assert values[..i] == t[..i];
    }
  }

  /** Disjunct `i` of the intended builder holds iff the row ties the cursor before key `i` and is strictly after it at `i`. */
  lemma {:induction false} IntendedDisjunctMeaning(keys: seq<string>, number: seq<int>, row: Row, i: nat)
    requires ValidKeys(keys) && |number| == 1 + |keys| && Covers(keys, row) && i < |keys|
    ensures Eval(IntendedDisjuncts(KeyFilters(keys, number[1..], Flag(number)), ColumnEqualities(keys, number[1..]))[i], row) <==>
      number[1..][..i] == KeyTuple(keys, row)[..i] && Strict(keys, number, row, i)
  {
    var values := number[1..];
    var kf := KeyFilters(keys, values, Flag(number));
    var eqs := ColumnEqualities(keys, values);
    KeyFilterMeaning(keys, number, row, i);
    AndAllCons(kf[i], eqs[..i], row);
    ColumnEqualitiesMeaning(keys, values, row, i);
  }

  /** The intended builder is exactly the lexicographic comparison on every key. */
  lemma {:induction false} IntendedPageFiltersMeaning(keys: seq<string>, number: seq<int>, row: Row)
    requires ValidKeys(keys) && |number| == 1 + |keys| && Covers(keys, row)
    ensures Eval(IntendedPageFilters(keys, number), row) <==> AfterCursor(keys, number, row, |keys|)
  {
    var values := number[1..];
    var flip := Flag(number);
    var ds := IntendedDisjuncts(KeyFilters(keys, values, flip), ColumnEqualities(keys, values));
    var d := EffectiveDescending(keys, flip);
    var t := KeyTuple(keys, row);
    assert d[..|keys|] == d && values[..|keys|] == values && t[..|keys|] == t;
    forall i | 0 <= i < |keys|
      ensures Eval(ds[i], row) <==> values[..i] == t[..i] && Before(d[i], values[i], t[i])
    {
      IntendedDisjunctMeaning(keys, number, row, i);
    }
    PrecedesAt(d, values, t);
    OrAllMeaning(ds, row);
    IndexHelperMeaning(keys, number, row);
    if Eval(OrAll(ds), row) {
      var i :| 0 <= i < |keys| && Eval(ds[i], row);
      if i > 0 {
        assert values[..i][0] == t[..i][0];
      }
    }
  }

  /** For one or two keys the as-written builder and the intended one agree on every row. */
  lemma {:induction false} AsWrittenAgreesUpToTwoKeys(keys: seq<string>, number: seq<int>, row: Row)
    requires ValidKeys(keys) && DistinctColumns(keys) && |keys| <= 2 && |number| == 1 + |keys| && Covers(keys, row)
    ensures Eval(PageFilters(keys, number), row) == Eval(IntendedPageFilters(keys, number), row)
  {
    PageFiltersMeaning(keys, number, row);
    IntendedPageFiltersMeaning(keys, number, row);
  }
}
