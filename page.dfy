/**
  `KeysetPage`: a page over the rows its query returned. Reading the rows
  records, as a side effect, whether the fetch continues; `continues`
  reads them when that is not yet known.
*/
module Page {
  import opened Wrappers
  import opened Predicates
  import opened Ordering
  import opened Cursor
  import opened Sequences
  import M = Materialiser

  class KeysetPage {
    /** `_object_list`: the rows the query returned (at most `perPage + 1` of them). */
    const raw: seq<Row>
    /** The validated cursor, or `None` for the first page. */
    const number: Option<seq<int>>
    /** `direction == 'previous'`. */
    const backward: bool
    const perPage: nat
    /** The paginator's sort keys. */
    const keys: seq<string>
    /** `_continues`: unknown (`None`) until the rows are first read. */
    var cached: Option<bool>

    ghost predicate Valid()
      reads this
    {
      backward == IsBackward(number) &&
      (forall i :: 0 <= i < |raw| ==> Covers(keys, raw[i])) &&
      (cached.Some? ==> cached.value == M.Continues(raw, perPage))
    }

    constructor (raw: seq<Row>, number: Option<seq<int>>, perPage: nat, keys: seq<string>)
      requires forall i :: 0 <= i < |raw| ==> Covers(keys, raw[i])
      ensures Valid()
      ensures this.raw == raw && this.number == number && this.perPage == perPage && this.keys == keys
      ensures cached == None
    {
      this.raw := raw;
      this.number := number;
      this.backward := IsBackward(number);
      this.perPage := perPage;
      this.keys := keys;
      this.cached := None;
    }

    /** The rows a page shows (`object_list`); reading them records whether the fetch continues. */
    method ObjectList() returns (rows: seq<Row>)
      requires Valid()
      modifies this
      ensures Valid()
      ensures rows == M.Materialise(raw, perPage, backward)
      ensures cached == Some(M.Continues(raw, perPage))
    {
      rows := raw;
      cached := Some(|rows| > perPage);
      if |rows| > perPage {
        rows := rows[..perPage];
      }
      if backward {
        rows := Reverse(rows);
      }
    }

    /** Whether the data goes on in the direction of the fetch, reading the rows first if need be. */
    method Continues() returns (c: bool)
      requires Valid()
      modifies this
      ensures Valid()
      ensures c == M.Continues(raw, perPage)
      ensures cached == Some(c)
    {
      if cached.None? {
        var _ := ObjectList();
      }
      c := cached.value;
    }

    /** `has_next`; on a forward page it reads the rows to learn whether the fetch continues. */
    method HasNext() returns (h: bool)
      requires Valid()
      modifies this
      ensures Valid()
      ensures h == M.HasNext(number, M.Continues(raw, perPage))
      ensures backward ==> cached == old(cached)
      ensures !backward ==> cached == Some(M.Continues(raw, perPage))
    {
      h := backward;
      if !h {
        h := Continues();
      }
    }

    /** `has_previous`; on a backward page it reads the rows to learn whether the fetch continues. */
    method HasPrevious() returns (h: bool)
      requires Valid()
      modifies this
      ensures Valid()
      ensures h == M.HasPrevious(number, M.Continues(raw, perPage))
      ensures !backward ==> cached == old(cached)
      ensures backward ==> cached == Some(M.Continues(raw, perPage))
    {
      if !backward {
        h := number.Some? && |number.value| > 0;
      } else {
        h := Continues();
      }
    }

    /** `next_page_number`; `self[-1]` needs a row to read when there is a next page. */
    method NextPageNumber() returns (t: Option<seq<int>>)
      requires Valid()
      requires M.HasNext(number, M.Continues(raw, perPage)) ==> |M.Materialise(raw, perPage, backward)| > 0
      modifies this
      ensures Valid()
      ensures t == M.NextToken(keys, M.Materialise(raw, perPage, backward), number, M.Continues(raw, perPage))
      ensures cached == Some(M.Continues(raw, perPage))
    {
      var h := HasNext();
      if h {
        var rows := ObjectList();
        t := Some(KeyForInstance(keys, rows[|rows| - 1], false));
      } else {
        t := None;
      }
    }

    /** `previous_page_number`; `self[0]` needs a row to read when there is a previous page. */
    method PreviousPageNumber() returns (t: Option<seq<int>>)
      requires Valid()
      requires M.HasPrevious(number, M.Continues(raw, perPage)) ==> |M.Materialise(raw, perPage, backward)| > 0
      modifies this
      ensures Valid()
      ensures t == M.PreviousToken(keys, M.Materialise(raw, perPage, backward), number, M.Continues(raw, perPage))
      ensures M.HasPrevious(number, M.Continues(raw, perPage)) || backward ==> cached == Some(M.Continues(raw, perPage))
      ensures !M.HasPrevious(number, M.Continues(raw, perPage)) && !backward ==> cached == old(cached)
    {
      var h := HasPrevious();
      if h {
        var rows := ObjectList();
        t := Some(KeyForInstance(keys, rows[0], true));
      } else {
        t := None;
      }
    }
  }
}
