/**
  `KeysetPaginator.page` over an in-memory table. The table stands for the
  paginator's queryset: rows already in the order of its sort keys. A
  cursor page filters it by the boundary predicate, orders it by the
  (possibly flipped) keys and keeps one row more than a page holds.
*/
module Paginator {
  import opened Wrappers
  import opened Sequences
  import opened Predicates
  import opened Ordering
  import opened Filters
  import opened Cursor
  import M = Materialiser
  import opened Page

  /** `queryset.filter(p)`: the rows satisfying `p`, in their order. */
  function Filter(rows: seq<Row>, p: Pred): seq<Row>
  {
    if rows == [] then []
    else (if Eval(p, rows[0]) then [rows[0]] else []) + Filter(rows[1..], p)
  }

  /** Filtering keeps only rows of the input that satisfy the filter. */
  lemma {:induction false} FilterKeeps(rows: seq<Row>, p: Pred)
    ensures |Filter(rows, p)| <= |rows|
    ensures forall x :: x in Filter(rows, p) ==> x in rows && Eval(p, x)
  {
    if rows != [] {
      FilterKeeps(rows[1..], p);
    }
  }

  /** When `p` holds exactly on positions `lo` to `hi - 1`, filtering keeps exactly that slice. */
  lemma {:induction false} FilterRange(s: seq<Row>, p: Pred, lo: nat, hi: nat)
    requires lo <= hi <= |s|
    requires forall i :: 0 <= i < |s| ==> (Eval(p, s[i]) <==> lo <= i < hi)
    ensures Filter(s, p) == s[lo..hi]
  {
    if s != [] {
      var t := s[1..];
      var lo', hi' := if lo == 0 then 0 else lo - 1, if hi == 0 then 0 else hi - 1;
      forall i | 0 <= i < |t|
        ensures Eval(p, t[i]) <==> lo' <= i < hi'
      {
        assert t[i] == s[i + 1];
      }
      FilterRange(t, p, lo', hi');
      if lo == 0 && hi > 0 {
        assert s[lo..hi] == [s[0]] + t[lo'..hi'];
      } else {
        assert s[lo..hi] == t[lo'..hi'];
      }
    }
  }

  /** Which boundary predicate builds the query: the one `_get_page_filters` builds, or the lexicographic one its comment describes. */
  datatype Builder = AsWritten | Intended

  function Boundary(builder: Builder, keys: seq<string>, number: seq<int>): Pred
    requires ValidKeys(keys) && |number| == 1 + |keys|
  {
    match builder
    case AsWritten => PageFilters(keys, number)
    case Intended => IntendedPageFilters(keys, number)
  }

  /** The tables and builders the end-to-end results are about: rows strictly sorted by distinct, well-formed keys, and a builder that is lexicographic for that many keys. */
  predicate Sound(data: seq<Row>, keys: seq<string>, builder: Builder)
  {
    ValidKeys(keys) && DistinctColumns(keys) && StrictlySorted(keys, data) &&
    (builder == Intended || |keys| <= 2)
  }

  /** On sound inputs the boundary holds exactly on rows strictly after the cursor in the effective order. */
  lemma {:induction false} BoundaryMeaning(builder: Builder, keys: seq<string>, number: seq<int>, row: Row)
    requires ValidKeys(keys) && DistinctColumns(keys) && |number| == 1 + |keys| && Covers(keys, row)
    requires builder == Intended || |keys| <= 2
    ensures Eval(Boundary(builder, keys, number), row) <==> AfterCursor(keys, number, row, |keys|)
  {
    if builder == AsWritten {
      PageFiltersMeaning(keys, number, row);
    } else {
      IntendedPageFiltersMeaning(keys, number, row);
    }
  }

  /** `order_by(*_get_ordering(number))` applied to rows already sorted by the keys. */
  function Ordered(rows: seq<Row>, flip: bool): seq<Row>
  {
    if flip then Reverse(rows) else rows
  }

  /** What `page` hands the new page: `object_list[:per_page + 1]` of the plain or the filtered and reordered queryset. */
  function Fetch(data: seq<Row>, keys: seq<string>, builder: Builder, number: Option<seq<int>>, perPage: nat): (r: seq<Row>)
    requires ValidKeys(keys) && (number.Some? ==> |number.value| == 1 + |keys|)
    ensures |r| <= perPage + 1
  {
    match number
    case None => Take(data, perPage + 1)
    case Some(n) => Take(Ordered(Filter(data, Boundary(builder, keys, n)), Flag(n)), perPage + 1)
  }

  /** Every fetched row is a row of the table. */
  lemma {:induction false} FetchFromTable(data: seq<Row>, keys: seq<string>, builder: Builder, number: Option<seq<int>>, perPage: nat)
    requires ValidKeys(keys) && (number.Some? ==> |number.value| == 1 + |keys|)
    ensures forall x :: x in Fetch(data, keys, builder, number, perPage) ==> x in data
  {
    if number.Some? {
      var filtered := Filter(data, Boundary(builder, keys, number.value));
      FilterKeeps(data, Boundary(builder, keys, number.value));
      assert forall x :: x in Reverse(filtered) ==> x in filtered;
    }
  }

  /** The rows a fetched page shows. */
  function PageRows(data: seq<Row>, keys: seq<string>, builder: Builder, number: Option<seq<int>>, perPage: nat): seq<Row>
    requires ValidKeys(keys) && (number.Some? ==> |number.value| == 1 + |keys|)
  {
    M.Materialise(Fetch(data, keys, builder, number, perPage), perPage, IsBackward(number))
  }

  /** Whether the fetch behind a page continues past it. */
  predicate PageContinues(data: seq<Row>, keys: seq<string>, builder: Builder, number: Option<seq<int>>, perPage: nat)
    requires ValidKeys(keys) && (number.Some? ==> |number.value| == 1 + |keys|)
  {
    M.Continues(Fetch(data, keys, builder, number, perPage), perPage)
  }

  /** A strictly sorted sequence stays sorted when filtered. */
  lemma {:induction false} FilterSorted(keys: seq<string>, s: seq<Row>, p: Pred)
    requires NonEmptyKeys(keys) && StrictlySorted(keys, s)
    ensures StrictlySorted(keys, Filter(s, p))
  {
    if s != [] {
      var t := s[1..];
      SortedSlice(keys, s, 1, |s|);
      assert s[1..|s|] == t;
      FilterSorted(keys, t, p);
      var rest := Filter(t, p);
      FilterKeeps(t, p);
      if !Eval(p, s[0]) {
        assert Filter(s, p) == rest;
      } else {
        var r := [s[0]] + rest;
        assert Filter(s, p) == r;
        forall y | y in rest
          ensures Covers(keys, y) && RowPrecedes(keys, s[0], y)
        {
          var j :| 0 <= j < |t| && t[j] == y;
          assert s[j + 1] == y && InOrder(keys, s, 0, j + 1);
        }
        forall i: nat, j: nat | i < j < |r|
          ensures InOrder(keys, r, i, j)
        {
          assert r[j] == rest[j - 1] && r[j] in rest;
          if i > 0 {
            assert r[i] == rest[i - 1] && InOrder(keys, rest, i - 1, j - 1);
          }
        }
      }
    }
  }

  /** Rows sorted by the keys, reordered as `_get_ordering` asks, are sorted by the ordering it emits. */
  lemma {:induction false} OrderedSorted(keys: seq<string>, rows: seq<Row>, flip: bool)
    requires ValidKeys(keys) && StrictlySorted(keys, rows)
    ensures NonEmptyKeys(GetOrdering(keys, flip))
    ensures StrictlySorted(GetOrdering(keys, flip), Ordered(rows, flip))
  {
    GetOrderingEffective(keys, true);
    if flip {
      ReverseSortedByToggled(keys, rows, Reverse(rows));
    }
  }

  /** The fetched rows come out in the order the query asks for: the keys' own, or every key flipped for a backward cursor. */
  lemma {:induction false} FetchOrdered(data: seq<Row>, keys: seq<string>, builder: Builder, number: Option<seq<int>>, perPage: nat)
    requires ValidKeys(keys) && StrictlySorted(keys, data) && (number.Some? ==> |number.value| == 1 + |keys|)
    ensures NonEmptyKeys(GetOrdering(keys, IsBackward(number)))
    ensures StrictlySorted(GetOrdering(keys, IsBackward(number)), Fetch(data, keys, builder, number, perPage))
  {
    GetOrderingEffective(keys, true);
    var ordered := data;
    if number.Some? {
      var n := number.value;
      var filtered := Filter(data, Boundary(builder, keys, n));
      FilterSorted(keys, data, Boundary(builder, keys, n));
      ordered := Ordered(filtered, Flag(n));
      OrderedSorted(keys, filtered, Flag(n));
    }
    var order := GetOrdering(keys, IsBackward(number));
    assert StrictlySorted(order, ordered);
    var m := Min(|ordered|, perPage + 1);
    SortedSlice(order, ordered, 0, m);
    assert Fetch(data, keys, builder, number, perPage) == ordered[0..m];
  }

  /** The cursor taken from row `k` splits a sorted table: later rows are after it going forward, earlier rows going backward. */
  lemma {:induction false} CursorSplits(data: seq<Row>, keys: seq<string>, k: nat, prev: bool, j: nat)
    requires ValidKeys(keys) && StrictlySorted(keys, data) && k < |data| && j < |data|
    ensures AfterCursor(keys, KeyForInstance(keys, data[k], prev), data[j], |keys|) <==> if prev then j < k else k < j
  {
    var number := KeyForInstance(keys, data[k], prev);
    var d := EffectiveDescending(keys, false);
    var tk, tj := KeyTuple(keys, data[k]), KeyTuple(keys, data[j]);
    assert number[1..][..|keys|] == tk;
    assert tj[..|keys|] == tj;
    PrecedesIrreflexive(d, tk);
    if j < k {
      assert InOrder(keys, data, j, k);
      PrecedesAsymmetric(d, tj, tk);
    } else if k < j {
      assert InOrder(keys, data, k, j);
      PrecedesAsymmetric(d, tk, tj);
    }
    if prev {
      assert EffectiveDescending(keys, true)[..|keys|] == Negate(d);
      PrecedesNegate(d, tk, tj);
    } else {
      assert EffectiveDescending(keys, false)[..|keys|] == d;
    }
  }

  /** A filter that holds exactly on the rows after row `k`'s cursor keeps the rows after it (forward) or before it (backward). */
  lemma {:induction false} FilterByCursor(data: seq<Row>, keys: seq<string>, k: nat, prev: bool, p: Pred)
    requires ValidKeys(keys) && StrictlySorted(keys, data) && k < |data|
    requires forall j :: 0 <= j < |data| ==>
      (Eval(p, data[j]) <==> AfterCursor(keys, KeyForInstance(keys, data[k], prev), data[j], |keys|))
    ensures Filter(data, p) == if prev then data[..k] else data[k + 1..]
  {
    forall j | 0 <= j < |data|
      ensures Eval(p, data[j]) <==> if prev then 0 <= j < k else k + 1 <= j < |data|
    {
      CursorSplits(data, keys, k, prev, j);
    }
    if prev {
      FilterRange(data, p, 0, k);
    } else {
      FilterRange(data, p, k + 1, |data|);
    }
  }

  /** The query behind a cursor taken from row `k` of a sound table: the rows after it, or the rows before it from the nearest back. */
  lemma {:induction false} FetchAtCursor(data: seq<Row>, keys: seq<string>, builder: Builder, perPage: nat, k: nat, prev: bool)
    requires Sound(data, keys, builder) && k < |data|
    ensures Fetch(data, keys, builder, Some(KeyForInstance(keys, data[k], prev)), perPage) ==
      Take(Ordered(if prev then data[..k] else data[k + 1..], prev), perPage + 1)
  {
    var number := KeyForInstance(keys, data[k], prev);
    var p := Boundary(builder, keys, number);
    forall j | 0 <= j < |data|
      ensures Eval(p, data[j]) <==> AfterCursor(keys, number, data[j], |keys|)
    {
      BoundaryMeaning(builder, keys, number, data[j]);
    }
    FilterByCursor(data, keys, k, prev, p);
    assert Flag(number) == prev;
  }

  /** A forward page over rows `s`: the first `perPage` of them, continuing iff there are more. */
  lemma {:induction false} ForwardPageOf(s: seq<Row>, perPage: nat)
    ensures M.Materialise(Take(s, perPage + 1), perPage, false) == s[..Min(perPage, |s|)]
    ensures M.Continues(Take(s, perPage + 1), perPage) <==> |s| > perPage
  {
  }

  /** A backward page over the rows `s` before the cursor: the last `perPage` of them in forward order, continuing iff there are more. */
  lemma {:induction false} BackwardPageOf(s: seq<Row>, perPage: nat)
    ensures M.Materialise(Take(Reverse(s), perPage + 1), perPage, true) == s[|s| - Min(|s|, perPage)..]
    ensures M.Continues(Take(Reverse(s), perPage + 1), perPage) <==> |s| > perPage
  {
    var m := Min(|s|, perPage);
    var raw := Take(Reverse(s), perPage + 1);
    assert Take(raw, perPage) == Reverse(s)[..m];
    ReverseTake(s, m);
    ReverseReverse(s[|s| - m..]);
  }

  /** The first page shows the first `perPage` rows and continues iff there are more. */
  lemma {:induction false} FirstPage(data: seq<Row>, keys: seq<string>, builder: Builder, perPage: nat)
    requires ValidKeys(keys)
    ensures PageRows(data, keys, builder, None, perPage) == data[..Min(perPage, |data|)]
    ensures PageContinues(data, keys, builder, None, perPage) <==> |data| > perPage
  {
    ForwardPageOf(data, perPage);
  }

  /** Following a forward cursor taken from row `k` shows the next `perPage` rows after it. */
  lemma {:induction false} ForwardStep(data: seq<Row>, keys: seq<string>, builder: Builder, perPage: nat, k: nat)
    requires Sound(data, keys, builder) && k < |data|
    ensures PageRows(data, keys, builder, Some(KeyForInstance(keys, data[k], false)), perPage) ==
      data[k + 1..Min(k + 1 + perPage, |data|)]
    ensures PageContinues(data, keys, builder, Some(KeyForInstance(keys, data[k], false)), perPage) <==>
      |data| - (k + 1) > perPage
  {
    var number := KeyForInstance(keys, data[k], false);
    var after := data[k + 1..];
    assert Fetch(data, keys, builder, Some(number), perPage) == Take(after, perPage + 1) by {
      FetchAtCursor(data, keys, builder, perPage, k, false);
    }
    assert !IsBackward(Some(number));
    ForwardPageOf(after, perPage);
    assert after[..Min(perPage, |after|)] == data[k + 1..Min(k + 1 + perPage, |data|)];
  }

  /** A next link from row `k` with at most `perPage` rows after it leads to the last page, which offers no next link. */
  lemma {:induction false} LastPageHasNoNext(data: seq<Row>, keys: seq<string>, builder: Builder, perPage: nat, k: nat)
    requires Sound(data, keys, builder) && k < |data| && |data| - (k + 1) <= perPage
    ensures var number := Some(KeyForInstance(keys, data[k], false));
      !M.HasNext(number, PageContinues(data, keys, builder, number, perPage))
  {
    ForwardStep(data, keys, builder, perPage, k);
  }

  /** Following a backward cursor taken from row `k` shows the `perPage` rows before it, in forward order. */
  lemma {:induction false} BackwardStep(data: seq<Row>, keys: seq<string>, builder: Builder, perPage: nat, k: nat)
    requires Sound(data, keys, builder) && k < |data|
    ensures PageRows(data, keys, builder, Some(KeyForInstance(keys, data[k], true)), perPage) ==
      data[k - Min(k, perPage)..k]
    ensures PageContinues(data, keys, builder, Some(KeyForInstance(keys, data[k], true)), perPage) <==>
      k > perPage
  {
    var number := KeyForInstance(keys, data[k], true);
    var before := data[..k];
    assert Fetch(data, keys, builder, Some(number), perPage) == Take(Reverse(before), perPage + 1) by {
      FetchAtCursor(data, keys, builder, perPage, k, true);
    }
    assert IsBackward(Some(number));
    BackwardPageOf(before, perPage);
    assert |before| == k;
  }

  /** The page a forward cursor on row `k - 1` leads to starts at row `k`. */
  lemma {:induction false} NextPageStartsAt(data: seq<Row>, keys: seq<string>, builder: Builder, perPage: nat, k: nat)
    requires Sound(data, keys, builder) && 0 < k < |data| && perPage > 0
    ensures var next := PageRows(data, keys, builder, Some(KeyForInstance(keys, data[k - 1], false)), perPage);
      |next| > 0 && next[0] == data[k]
  {
    var c := k - 1;
    ForwardStep(data, keys, builder, perPage, c);
    SliceEnds(PageRows(data, keys, builder, Some(KeyForInstance(keys, data[c], false)), perPage), data, c + 1, Min(c + 1 + perPage, |data|));
  }

  /** The page a backward cursor on row `k` leads to ends at row `k - 1`. */
  lemma {:induction false} PreviousPageEndsBefore(data: seq<Row>, keys: seq<string>, builder: Builder, perPage: nat, k: nat)
    requires Sound(data, keys, builder) && 0 < k < |data| && perPage > 0
    ensures var prev := PageRows(data, keys, builder, Some(KeyForInstance(keys, data[k], true)), perPage);
      |prev| > 0 && prev[|prev| - 1] == data[k - 1]
  {
    BackwardStep(data, keys, builder, perPage, k);
    SliceEnds(PageRows(data, keys, builder, Some(KeyForInstance(keys, data[k], true)), perPage), data, k - Min(k, perPage), k);
  }

  /** A backward cursor on row `b` leads to rows `a` to `b - 1` when they are a full page, or all the rows before `b`. */
  lemma {:induction false} PreviousPageIs(data: seq<Row>, keys: seq<string>, builder: Builder, perPage: nat, a: nat, b: nat)
    requires Sound(data, keys, builder)
    requires a < b < |data| && (b - a == perPage || (a == 0 && b <= perPage))
    ensures PageRows(data, keys, builder, Some(KeyForInstance(keys, data[b], true)), perPage) == data[a..b]
  {
    assert b - Min(b, perPage) == a;
    BackwardStep(data, keys, builder, perPage, b);
  }

  /** A forward cursor on row `a - 1` leads to rows `a` to `b - 1` when `b` is where a page from `a` ends. */
  lemma {:induction false} NextPageIs(data: seq<Row>, keys: seq<string>, builder: Builder, perPage: nat, a: nat, b: nat)
    requires Sound(data, keys, builder)
    requires 0 < a < b <= |data| && b == Min(a + perPage, |data|)
    ensures PageRows(data, keys, builder, Some(KeyForInstance(keys, data[a - 1], false)), perPage) == data[a..b]
  {
    ForwardStep(data, keys, builder, perPage, a - 1);
  }

  /**
    Next, then previous: from a page showing rows `a` to `b - 1` that is
    full (or the first page), following its next link and then that page's
    previous link shows the same rows again.
  */
  lemma {:induction false} NextThenPrevious(data: seq<Row>, keys: seq<string>, builder: Builder, perPage: nat, a: nat, b: nat)
    requires Sound(data, keys, builder)
    requires a < b < |data| && (b - a == perPage || (a == 0 && b <= perPage))
    ensures var next := PageRows(data, keys, builder, Some(KeyForInstance(keys, data[b - 1], false)), perPage);
      |next| > 0 && next[0] == data[b]
    ensures PageRows(data, keys, builder, Some(KeyForInstance(keys, data[b], true)), perPage) == data[a..b]
  {
    NextPageStartsAt(data, keys, builder, perPage, b);
    PreviousPageIs(data, keys, builder, perPage, a, b);
  }

  /**
    Previous, then next: from a page showing rows `a` to `b - 1` (not the
    first rows, and as many as a forward fetch from row `a - 1` shows),
    following its previous link and then that page's next link shows the
    same rows again.
  */
  lemma {:induction false} PreviousThenNext(data: seq<Row>, keys: seq<string>, builder: Builder, perPage: nat, a: nat, b: nat)
    requires Sound(data, keys, builder)
    requires 0 < a < b <= |data| && b == Min(a + perPage, |data|)
    ensures var prev := PageRows(data, keys, builder, Some(KeyForInstance(keys, data[a], true)), perPage);
      |prev| > 0 && prev[|prev| - 1] == data[a - 1]
    ensures PageRows(data, keys, builder, Some(KeyForInstance(keys, data[a - 1], false)), perPage) == data[a..b]
  {
    PreviousPageEndsBefore(data, keys, builder, perPage, a);
    NextPageIs(data, keys, builder, perPage, a, b);
  }

  /** A keyset paginator over a table: its rows, the page size and the queryset's sort keys. */
  datatype KeysetPaginator = KeysetPaginator(data: seq<Row>, perPage: nat, keys: seq<string>)
  {
    predicate Valid()
    {
      ValidKeys(keys) && forall i :: 0 <= i < |data| ==> Covers(keys, data[i])
    }
  }

  /** `KeysetPaginator.page`: validate the token, fetch, and wrap the fetched rows in a new page. */
  method GetPage(p: KeysetPaginator, token: Token) returns (r: Result<KeysetPage, PageError>)
    requires p.Valid()
    ensures ValidateNumber(p.keys, token).Failure? ==> r == Failure(ValidateNumber(p.keys, token).error)
    ensures ValidateNumber(p.keys, token).Success? ==>
      r.Success? && fresh(r.value) && r.value.Valid() && r.value.cached == None &&
      r.value.number == ValidateNumber(p.keys, token).value &&
      r.value.raw == Fetch(p.data, p.keys, AsWritten, r.value.number, p.perPage) &&
      r.value.perPage == p.perPage && r.value.keys == p.keys
  {
    var v := ValidateNumber(p.keys, token);
    if v.Failure? {
      return Failure(v.error);
    }
    var number := v.value;
    var raw := Fetch(p.data, p.keys, AsWritten, number, p.perPage);
    FetchFromTable(p.data, p.keys, AsWritten, number, p.perPage);
    forall i | 0 <= i < |raw|
      ensures Covers(p.keys, raw[i])
    {
      assert raw[i] in p.data;
    }
    var page := new KeysetPage(raw, number, p.perPage, p.keys);
    return Success(page);
  }
}
