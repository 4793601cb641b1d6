/**
  What a keyset page makes of the rows its query returned: the query asks
  for one row more than a page holds, so the extra row tells whether the
  data goes on in the direction of the fetch; the page keeps `perPage`
  rows and puts rows fetched backward back in forward order.
*/
module Materialiser {
  import opened Wrappers
  import opened Sequences
  import opened Predicates
  import opened Ordering
  import opened Cursor

  /** `_continues`: the fetch returned more rows than a page holds. */
  predicate Continues<T>(raw: seq<T>, perPage: nat)
  {
    |raw| > perPage
  }

  /** `object_list`: the first `perPage` raw rows, reversed for a backward fetch. */
  function Materialise<T>(raw: seq<T>, perPage: nat, backward: bool): (r: seq<T>)
    ensures |r| == Min(|raw|, perPage) && |r| <= perPage
  {
    var kept := Take(raw, perPage);
    if backward then Reverse(kept) else kept
  }

  /** The page shows the first raw rows as fetched, or, for a backward fetch, the same rows last to first. */
  lemma MaterialiseOrder<T>(raw: seq<T>, perPage: nat, backward: bool)
    ensures var r := Materialise(raw, perPage, backward);
      (!backward ==> r == raw[..|r|]) &&
      (backward ==> forall i :: 0 <= i < |r| ==> r[i] == raw[|r| - 1 - i])
  {
  }

  /** A page holds fewer than `perPage` rows only when the fetch has nothing beyond it. */
  lemma ShortPageEndsData<T>(raw: seq<T>, perPage: nat, backward: bool)
    requires |Materialise(raw, perPage, backward)| < perPage
    ensures !Continues(raw, perPage)
    ensures |Materialise(raw, perPage, backward)| == |raw|
  {
  }

  /** `has_next`: a backward page always has the page it came from after it; a forward one has a next page when the fetch continues. */
  predicate HasNext(number: Option<seq<int>>, continues: bool)
  {
    IsBackward(number) || continues
  }

  /** `has_previous`: a forward page has one unless it is the first page; a backward one when the fetch continues. */
  predicate HasPrevious(number: Option<seq<int>>, continues: bool)
  {
    if !IsBackward(number) then number.Some? && |number.value| > 0 else continues
  }

  /** The first page (no cursor) never has a previous page. */
  lemma FirstPageHasNoPrevious(continues: bool)
    ensures !HasPrevious(None, continues)
    ensures HasNext(None, continues) == continues
  {
  }

  /** A first page that holds the whole data set has neither a next nor a previous page; an empty one is such a page. */
  lemma SinglePageHasNeither<T>(raw: seq<T>, perPage: nat)
    requires |raw| <= perPage
    ensures !HasNext(None, Continues(raw, perPage)) && !HasPrevious(None, Continues(raw, perPage))
    ensures Materialise(raw, perPage, false) == raw
  {
  }

  /** `next_page_number`: no token without a next page, else a forward cursor on the last row. */
  function NextToken(keys: seq<string>, rows: seq<Row>, number: Option<seq<int>>, continues: bool): (r: Option<seq<int>>)
    requires HasNext(number, continues) ==> |rows| > 0 && Covers(keys, rows[|rows| - 1])
    ensures r.None? <==> !HasNext(number, continues)
    ensures r.Some? ==> |r.value| == 1 + |keys| && !IsBackward(r)
    ensures r.Some? ==> r.value[1..] == KeyTuple(keys, rows[|rows| - 1])
  {
    if HasNext(number, continues) then Some(KeyForInstance(keys, rows[|rows| - 1], false)) else None
  }

  /** `previous_page_number`: no token without a previous page, else a backward cursor on the first row. */
  function PreviousToken(keys: seq<string>, rows: seq<Row>, number: Option<seq<int>>, continues: bool): (r: Option<seq<int>>)
    requires HasPrevious(number, continues) ==> |rows| > 0 && Covers(keys, rows[0])
    ensures r.None? <==> !HasPrevious(number, continues)
    ensures r.Some? ==> |r.value| == 1 + |keys| && IsBackward(r)
    ensures r.Some? ==> r.value[1..] == KeyTuple(keys, rows[0])
  {
    if HasPrevious(number, continues) then Some(KeyForInstance(keys, rows[0], true)) else None
  }

  /** Every token a page hands out is one `validate_number` accepts, and it decodes to the cursor it was built from. */
  lemma TokensAccepted(keys: seq<string>, rows: seq<Row>, number: Option<seq<int>>, continues: bool)
    requires HasNext(number, continues) ==> |rows| > 0 && Covers(keys, rows[|rows| - 1])
    requires HasPrevious(number, continues) ==> |rows| > 0 && Covers(keys, rows[0])
    ensures NextToken(keys, rows, number, continues).Some? ==>
      ValidateNumber(keys, Text(NextToken(keys, rows, number, continues))) == Success(NextToken(keys, rows, number, continues))
    ensures PreviousToken(keys, rows, number, continues).Some? ==>
      ValidateNumber(keys, Text(PreviousToken(keys, rows, number, continues))) == Success(PreviousToken(keys, rows, number, continues))
  {
    if HasNext(number, continues) {
      KeyForInstanceAccepted(keys, rows[|rows| - 1], false);
    }
    if HasPrevious(number, continues) {
      KeyForInstanceAccepted(keys, rows[0], true);
    }
  }
}
