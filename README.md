# Keyset pagination, modelled in Dafny

A model of the cursor logic of `django-keyset-pagination`
(`src/keyset_pagination/paginator.py`). A keyset paginator pages through
a queryset sorted by its `order_by` keys without using `OFFSET`. Each page
hands out opaque tokens `[flag, v1, ..., vn]`, where `flag` says whether
the token is a "previous" link and the `vi` are the key-column values of
the page's last row (next link) or first row (previous link). Following a
token:

- validates it (`validate_number`);
- builds a boundary filter that keeps the rows strictly after the cursor
  in the direction of travel (`build_filter`, `_get_page_filters`);
- flips every sort key for a previous link (`_get_ordering`);
- fetches one row more than a page holds (`page`).

The page (`KeysetPage`) trims the fetch to `per_page` rows. It puts rows
fetched backward back in display order. It records whether the fetch
continues, and from that answers `has_next`/`has_previous` and builds the
next and previous tokens.

The modules follow the source:

| file | module | what |
|---|---|---|
| `predicates.dfy` | `Predicates` | rows (`map<string, int>`), Django `Q` lookups, `&`, `\|` and `reduce` over them |
| `ordering.dfy` | `Ordering` | sort keys (`"col"` / `"-col"`), `lstrip('-')`, `_get_ordering`, the lexicographic order on key tuples, sorted tables |
| `filters.dfy` | `Filters` | `build_filter`, `_get_page_filters` as written, the corrected builder, and what each means |
| `cursor.dfy` | `Cursor` | tokens, `validate_number`, `_key_for_instance` |
| `materialiser.dfy` | `Materialiser` | `object_list`, `continues`, `has_next`, `has_previous`, the next and previous tokens, as functions |
| `page.dfy` | `Page` | `KeysetPage` as a class whose `_continues` cache is set when the rows are first read |
| `paginator.dfy` | `Paginator` | `page` over an in-memory table, and end-to-end properties of following the links |
| `sequences.dfy`, `wrappers.dfy` | `Sequences`, `Wrappers` | `[:n]`, `reversed`, `Option`, `Result` |

The queryset is modelled as a table already sorted by its keys. The
filter keeps the rows the boundary predicate accepts. Ordering by the
flipped keys is modelled as reversing the table; the reversed table is
strictly sorted by the flipped keys (`Paginator.OrderedSorted`,
`Paginator.FetchOrdered`). That no other order of the same rows is
strictly sorted by them is not proved here.

The comment at `src/keyset_pagination/paginator.py:70-71` describes the
boundary predicate as the full lexicographic comparison on the keys. The
code builds it only for the first two keys (see Findings). The model
follows the code: `Paginator.GetPage` uses the as-written builder, and the
corrected builder is modelled beside it.

## Model

| member | source | states |
|---|---|---|
| Sequences.Take | src/keyset_pagination/paginator.py:177 | `s[:n]` keeps the first `min(len(s), n)` elements, as a prefix of `s` |
| Predicates.AndAll | src/keyset_pagination/paginator.py:73 | `reduce(and_, ps)` as a left fold; its meaning is stated by `Predicates.AndAllMeaning` |
| Predicates.OrAll | src/keyset_pagination/paginator.py:72-75 | `reduce(or_, ps)` as a left fold; its meaning is stated by `Predicates.OrAllMeaning` |
| Predicates.AndAllMeaning | src/keyset_pagination/paginator.py:73 | `reduce(and_, ps)` holds iff every conjunct holds |
| Predicates.OrAllMeaning | src/keyset_pagination/paginator.py:72-75 | `reduce(or_, ps)` holds iff some disjunct holds |
| Predicates.AndAllCons | src/keyset_pagination/paginator.py:73 | `reduce(and_, [f] + qs)` holds iff `f` and every filter of `qs` hold |
| Ordering.LStrip | src/keyset_pagination/paginator.py:35 | `lstrip('-')` returns a string no longer than its input that does not start with '-'; a string that does not start with '-' is returned unchanged |
| Ordering.LStripSuffix | src/keyset_pagination/paginator.py:35 | `lstrip('-')` returns the input with its run of leading dashes removed: a suffix of the input, everything before which is '-' |
| Ordering.Column | src/keyset_pagination/paginator.py:35 | the column a key names, `key.lstrip('-')`; its meaning is stated by `Ordering.LStripSuffix` |
| Ordering.IsDescending | src/keyset_pagination/paginator.py:28 | a key is descending iff it starts with '-'; used by `Filters.BuildFilter` and stated in `Filters.BuildFilterMeaning` |
| Ordering.Toggle | src/keyset_pagination/paginator.py:91 | one key of the flipped ordering; its meaning is stated by `Ordering.ToggleFlipsDirection` and `Ordering.ToggleTwice` |
| Ordering.ToggleFlipsDirection | src/keyset_pagination/paginator.py:89-93 | toggling a key keeps its column and reverses its direction |
| Ordering.ToggleTwice | src/keyset_pagination/paginator.py:89-93 | toggling twice gives back any key written `col` or `-col` |
| Ordering.ToggleTwiceDoubleDash | src/keyset_pagination/paginator.py:91 | a key `--a` toggled twice becomes `-a`: the round trip needs single-dash keys |
| Ordering.GetOrdering | src/keyset_pagination/paginator.py:83-94 | the ordering has one key per sort key; it is the keys themselves without the flag, each key toggled with it |
| Ordering.GetOrderingEffective | src/keyset_pagination/paginator.py:83-94 | the emitted ordering keeps every key's column, and its directions are the sort keys' directions, reversed when the flag is set |
| Ordering.GetOrderingInvolution | src/keyset_pagination/paginator.py:89-94 | flipping the ordering twice restores the keys |
| Ordering.PrecedesIrreflexive | src/keyset_pagination/paginator.py:70-71 | no key tuple comes before itself |
| Ordering.PrecedesAsymmetric | src/keyset_pagination/paginator.py:70-71 | two tuples are never each before the other |
| Ordering.PrecedesNegate | src/keyset_pagination/paginator.py:70-71 | reversing every key's direction reverses the tuple order |
| Ordering.PrecedesAt | src/keyset_pagination/paginator.py:70-71 | the recursive tuple order is the unrolled `(A < ?) OR (A = ? AND B < ?) OR ...` reading: equal before some key, strictly before at it |
| Ordering.SortedSlice | src/keyset_pagination/paginator.py:105-107 | every slice of a sorted table is sorted |
| Ordering.ReverseSortedByToggled | src/keyset_pagination/paginator.py:89-94 | a sorted table read backwards is sorted by the toggled keys |
| Filters.BuildFilter | src/keyset_pagination/paginator.py:22-39 | the filter is on the key's column with the cursor value; it is `lt`/`lte` iff the key is descending XOR `flip`, and `lte`/`gte` iff `include` |
| Filters.BuildFilterMeaning | src/keyset_pagination/paginator.py:22-39 | the filter lets a row through iff its value is strictly past the cursor value in the effective direction, or equal to it when inclusive |
| Filters.BuildFilterFollowsOrdering | src/keyset_pagination/paginator.py:22-39 | the flipped filter of a key is the unflipped filter of the toggled key that `_get_ordering` emits |
| Filters.EqualityFilter | src/keyset_pagination/paginator.py:63-68 | the equality `Q` built from a dict (the last value for a repeated column wins); its meaning is stated by `Filters.EqualityFilterMeaning` |
| Filters.KeyFilters | src/keyset_pagination/paginator.py:58-61 | `key_filters`; its meaning is stated by `Filters.KeyFilterMeaning` |
| Filters.AsWrittenDisjuncts | src/keyset_pagination/paginator.py:72-75 | the disjuncts of `page_filters` as written; stated by `Filters.LaterDisjunctUnsatisfiable` and `Filters.BareDisjunctionMeaning` |
| Filters.Flag | src/keyset_pagination/paginator.py:53 | the cursor's direction flag, `number[0]` read for truth |
| Filters.IndexHelper | src/keyset_pagination/paginator.py:79 | the index helper; its meaning is stated by `Filters.IndexHelperMeaning` |
| Filters.BareDisjunction | src/keyset_pagination/paginator.py:72-75 | `page_filters` before the index helper; its meaning is stated by `Filters.BareDisjunctionMeaning` |
| Filters.PageFilters | src/keyset_pagination/paginator.py:49-81 | `_get_page_filters` as written; its meaning is stated by `Filters.PageFiltersMeaning` |
| Filters.EqualityFilterMeaning | src/keyset_pagination/paginator.py:63-68 | with distinct columns, the equality `Q` holds iff the row ties the cursor on every key column |
| Filters.PySliceTo | src/keyset_pagination/paginator.py:73 | `s[:stop]` is a prefix of `s`; its length is `min(stop, len(s))` for `stop >= 0` and `max(0, len(s) + stop)` for a negative `stop` |
| Filters.AsWrittenSlice | src/keyset_pagination/paginator.py:63-73 | over the one-element `equality_filters`, `[:i - 1]` is empty for `i = 0, 1` and the whole list from `i = 2` on |
| Filters.AfterCursorShort | src/keyset_pagination/paginator.py:70-71 | "after the cursor" on one or two keys is `c1 op v1`, or `c1 op v1 OR (c1 = v1 AND c2 op v2)` |
| Filters.KeyFilterMeaning | src/keyset_pagination/paginator.py:58-61 | key filter `i` holds iff the row is strictly after the cursor on key `i` |
| Filters.IndexHelperMeaning | src/keyset_pagination/paginator.py:79 | the index helper holds iff the row is strictly after the cursor on the first key or ties it there |
| Filters.LaterDisjunctUnsatisfiable | src/keyset_pagination/paginator.py:63-75 | as written, every disjunct from the third key on holds on no row: it asks column `i` both to move past and to equal its cursor value |
| Filters.BareDisjunctionMeaning | src/keyset_pagination/paginator.py:58-75 | without the index helper, the as-written `page_filters` is `c1 op v1 OR c2 op v2` |
| Filters.PageFiltersMeaning | src/keyset_pagination/paginator.py:49-81 | `_get_page_filters` accepts a row iff the row is after the cursor lexicographically on the first `min(2, n)` keys |
| Filters.OneKeyPageFilters | src/keyset_pagination/paginator.py:49-81 | with one key, the filter is the strict comparison on it |
| Filters.TwoKeyPageFilters | src/keyset_pagination/paginator.py:49-81 | with two keys, the filter is `(c1 op v1) OR (c1 = v1 AND c2 op v2)` |
| Filters.IndexHelperIsLoadBearing | src/keyset_pagination/paginator.py:76-81 | the index helper changes the result: keys `a, b`, cursor `(5, 5)`, row `(4, 6)` passes the bare disjunction and fails the whole filter |
| Filters.TieOnTwoThenAfter | src/keyset_pagination/paginator.py:70-71 | a row tied on the first two keys and after the cursor on the third is after the cursor on all keys, but not on the first two |
| Filters.ThreeKeysSkipTies | src/keyset_pagination/paginator.py:63-81 | with three or more keys, such a row is after the cursor yet `_get_page_filters` rejects it |
| Filters.ThreeKeysExample | src/keyset_pagination/paginator.py:63-75 | keys `a, b, c`, cursor `(1, 1, 1)`, row `(1, 1, 2)`: the row is after the cursor and the filter rejects it |
| Filters.ColumnEqualitiesMeaning | src/keyset_pagination/paginator.py:62-68 | the first `i` per-column equalities all hold iff the row ties the cursor on the first `i` keys |
| Filters.IntendedDisjunctMeaning | src/keyset_pagination/paginator.py:70-75 | corrected disjunct `i` holds iff the row ties the cursor before key `i` and is strictly after it at key `i` |
| Filters.IntendedPageFiltersMeaning | src/keyset_pagination/paginator.py:70-81 | the corrected builder accepts a row iff the row is after the cursor lexicographically on every key |
| Filters.AsWrittenAgreesUpToTwoKeys | src/keyset_pagination/paginator.py:49-81 | with one or two keys, the as-written and corrected builders accept the same rows |
| Cursor.ValidateNumber | src/keyset_pagination/paginator.py:111-118 | first page iff the token is falsy or `1`; otherwise the decoded list if its length is `1 + len(keys)`; `KeyLengthMismatch` iff it decodes to a list of another length; `NotAList` iff it does not decode to a list |
| Cursor.ValidateIdempotent | src/keyset_pagination/paginator.py:111-118 | validating an accepted number again gives it back unchanged |
| Cursor.IsBackward | src/keyset_pagination/paginator.py:143 | the page's direction is "previous" iff it has a number whose flag is set |
| Cursor.KeyForInstance | src/keyset_pagination/paginator.py:200-208 | the token has `1 + len(keys)` entries; its flag is set iff `prev`; the rest are the row's key-column values in key order |
| Cursor.KeyForInstanceAccepted | src/keyset_pagination/paginator.py:200-208 | a token built from a row, sent as text and decoded, is accepted as the cursor it encodes |
| Materialiser.Continues | src/keyset_pagination/paginator.py:175 | `_continues`: the fetch holds more rows than a page |
| Materialiser.HasNext | src/keyset_pagination/paginator.py:184-189 | `has_next`; stated by `Materialiser.FirstPageHasNoPrevious`, `Materialiser.SinglePageHasNeither` and `Paginator.LastPageHasNoNext` |
| Materialiser.HasPrevious | src/keyset_pagination/paginator.py:191-198 | `has_previous`; stated by `Materialiser.FirstPageHasNoPrevious` and `Materialiser.SinglePageHasNeither` |
| Materialiser.Materialise | src/keyset_pagination/paginator.py:166-182 | the page holds `min(len(raw), per_page)` rows, never more than `per_page` |
| Materialiser.MaterialiseOrder | src/keyset_pagination/paginator.py:177-180 | forward, the page is the first raw rows in order; backward, the same rows last to first |
| Materialiser.ShortPageEndsData | src/keyset_pagination/paginator.py:175-177 | a page shorter than `per_page` holds the whole fetch, and the fetch does not continue |
| Materialiser.FirstPageHasNoPrevious | src/keyset_pagination/paginator.py:184-198 | the first page has no previous page, and has a next page iff the fetch continues |
| Materialiser.SinglePageHasNeither | src/keyset_pagination/paginator.py:184-198 | a first page holding all the data has neither a next nor a previous page, and shows all of it |
| Materialiser.NextToken | src/keyset_pagination/paginator.py:210-213 | no token iff there is no next page; otherwise a forward cursor holding the last row's key values |
| Materialiser.PreviousToken | src/keyset_pagination/paginator.py:215-218 | no token iff there is no previous page; otherwise a backward cursor holding the first row's key values |
| Materialiser.TokensAccepted | src/keyset_pagination/paginator.py:205-218 | every token a page hands out is accepted by `validate_number` |
| Page.KeysetPage.constructor | src/keyset_pagination/paginator.py:137-145 | the page stores the fetch, the number and the paginator's settings; direction is "previous" iff the flag is set; `_continues` is unknown |
| Page.KeysetPage.ObjectList | src/keyset_pagination/paginator.py:166-182 | returns the materialised rows and records whether the fetch continues |
| Page.KeysetPage.Continues | src/keyset_pagination/paginator.py:157-164 | returns whether the fetch continues, reading the rows first when that is not yet known |
| Page.KeysetPage.HasNext | src/keyset_pagination/paginator.py:184-189 | `has_next` is the materialiser's; a backward page does not read its rows for it, and a forward page's call leaves `continues` known |
| Page.KeysetPage.HasPrevious | src/keyset_pagination/paginator.py:191-198 | `has_previous` is the materialiser's; a forward page does not read its rows for it, and a backward page's call leaves `continues` known |
| Page.KeysetPage.NextPageNumber | src/keyset_pagination/paginator.py:210-213 | returns the materialiser's next token for the page's rows, and leaves `continues` known |
| Page.KeysetPage.PreviousPageNumber | src/keyset_pagination/paginator.py:215-218 | returns the materialiser's previous token for the page's rows; `continues` is left known unless the page is a forward first page, which reads nothing |
| Paginator.Filter | src/keyset_pagination/paginator.py:105-106 | the stand-in for `queryset.filter`; stated by `Paginator.FilterKeeps`, `Paginator.FilterRange` and `Paginator.FilterSorted` |
| Paginator.Ordered | src/keyset_pagination/paginator.py:107 | the stand-in for `order_by` of the emitted ordering; stated by `Paginator.OrderedSorted` |
| Paginator.FilterKeeps | src/keyset_pagination/paginator.py:105-106 | `filter` returns only rows of the queryset that satisfy the predicate, and no more rows than it has |
| Paginator.FilterRange | src/keyset_pagination/paginator.py:105-106 | a predicate that holds exactly on a run of positions filters the table to that run |
| Paginator.BoundaryMeaning | src/keyset_pagination/paginator.py:105-106 | on distinct columns, and with at most two keys for the as-written builder, the boundary holds exactly on rows after the cursor |
| Paginator.Fetch | src/keyset_pagination/paginator.py:99-109 | `page` hands the new page at most `per_page + 1` rows |
| Paginator.FetchFromTable | src/keyset_pagination/paginator.py:99-109 | every fetched row is a row of the queryset |
| Paginator.FilterSorted | src/keyset_pagination/paginator.py:105-107 | filtering a sorted table keeps it sorted |
| Paginator.OrderedSorted | src/keyset_pagination/paginator.py:107 | the table, in the order the query asks for, is sorted by the ordering `_get_ordering` emits |
| Paginator.FetchOrdered | src/keyset_pagination/paginator.py:99-109 | the fetched rows are strictly sorted by the emitted ordering, flipped for a backward cursor |
| Paginator.CursorSplits | src/keyset_pagination/paginator.py:200-208 | on a sorted table, the rows after the cursor taken from row `k` are the rows after `k` going forward and the rows before `k` going backward |
| Paginator.FilterByCursor | src/keyset_pagination/paginator.py:105-106 | a filter that holds exactly after row `k`'s cursor keeps the rows after `k`, or the rows before `k` |
| Paginator.FetchAtCursor | src/keyset_pagination/paginator.py:99-109 | a cursor from row `k` fetches the first `per_page + 1` rows after `k`, or the nearest `per_page + 1` rows before it, nearest first |
| Paginator.ForwardPageOf | src/keyset_pagination/paginator.py:175-182 | a forward fetch over rows `s` shows the first `per_page` of them and continues iff there are more |
| Paginator.BackwardPageOf | src/keyset_pagination/paginator.py:175-182 | a backward fetch over rows `s` shows the last `per_page` of them in display order and continues iff there are more |
| Paginator.FirstPage | src/keyset_pagination/paginator.py:99-109 | the first page shows the first `per_page` rows and continues iff there are more |
| Paginator.ForwardStep | src/keyset_pagination/paginator.py:99-109 | following a next link from row `k` shows the next `per_page` rows and continues iff more remain |
| Paginator.LastPageHasNoNext | src/keyset_pagination/paginator.py:184-189 | a next link from row `k` with at most `per_page` rows after it leads to a page with no next link |
| Paginator.BackwardStep | src/keyset_pagination/paginator.py:99-109 | following a previous link from row `k` shows the `per_page` rows before it and continues iff more remain before those |
| Paginator.NextPageStartsAt | src/keyset_pagination/paginator.py:210-213 | the next link from row `k - 1` leads to a page that starts at row `k`: no row is skipped or repeated |
| Paginator.PreviousPageEndsBefore | src/keyset_pagination/paginator.py:215-218 | the previous link from row `k` leads to a page that ends at row `k - 1` |
| Paginator.PreviousPageIs | src/keyset_pagination/paginator.py:215-218 | the previous link from row `b` shows rows `a` to `b - 1` when those are a full page, or all rows before `b` |
| Paginator.NextPageIs | src/keyset_pagination/paginator.py:210-213 | the next link from row `a - 1` shows rows `a` up to where a page from `a` ends |
| Paginator.NextThenPrevious | src/keyset_pagination/paginator.py:210-218 | from a full page or the first page, next then previous shows the same rows again |
| Paginator.PreviousThenNext | src/keyset_pagination/paginator.py:210-218 | from a page that is not the first, previous then next shows the same rows again |
| Paginator.GetPage | src/keyset_pagination/paginator.py:99-109 | `page` returns the validation error, or a new page over the filtered, reordered and trimmed fetch for the validated number, whose `continues` is not yet known |

## Left out

- The database and the ORM. A queryset is an in-memory table already sorted by its keys. `filter` is `Paginator.Filter`, and `order_by` of the flipped keys reverses the table. SQL and index use are not modelled.
- The index helper, modelled as a filter only. Its effect on query plans is not modelled.
- JSON text. A text token is modelled by what `json.loads` makes of it, and a token's serialisation by the list it encodes. `json.dumps(..., default=str)` turning unknown values into strings is not modelled: column values are integers.
- Cursor.ValidateNumber: text that decodes to a JSON string or object is modelled as `NotAList`. Python would take its `len` and accept it when the length happens to be `1 + len(keys)`.
- Cursor.ValidateNumber: every other value `len()` rejects is a Python `TypeError`, modelled as `NotAList`. Decoding errors from `json.loads` are also modelled as `NotAList`.
- Values of other types in a cursor are not modelled: cursors hold integers, and JSON `true`/`false` are 1/0, as Python reads them.
- Orphans and `allow_empty_first_page`, which the paginator accepts and never reads.
- `count`, `num_pages`, `page_range`, `page_index`, `start_index`, `end_index` and `__repr__`: constants with no logic.
- `src/keyset_pagination/mixin.py`, the view mixin that reads the token from the request.
- Paginator.GetPage does not assume the table is sorted by its keys (`KeysetPaginator.Valid` asks only for well-formed keys and rows that carry them). The stand-in for the database query matches one only on a sorted table, which is what the end-to-end lemmas assume.
- Paginator.BoundaryMeaning: proved for sort keys on distinct columns. With a repeated column, the equality filter keeps only the last value, as the dict it comes from does. `Filters.EqualityFilter` models that, but no property is stated for it.
- Page.KeysetPage.NextPageNumber and Page.KeysetPage.PreviousPageNumber require a non-empty page when there is a next or previous page. Python raises `IndexError` on `self[-1]` or `self[0]` in that case. An empty page reached through a cursor, such as a previous link from the first row, is such a case; the model does not cover it.
- Paginator.GetPage takes `per_page` as a `nat`: a negative `per_page` is outside the model. The end-to-end lemmas require `per_page > 0` where a page must hold a row.
- The end-to-end lemmas (Paginator.ForwardStep and the ones after it) are stated for tables whose key tuples are pairwise distinct. With duplicate key tuples, a cursor taken from a row whose key tuple another row shares skips the rows that tie it. They are stated for the as-written builder with at most two keys, and for the corrected builder with any number of keys.

## Findings

| source | as written | input that shows it | evidently intended | confidence | as-written member | corrected member |
|---|---|---|---|---|---|---|
| src/keyset_pagination/paginator.py:63-75 | `equality_filters` is a single `Q` that ties every key column, and disjunct `i` takes `equality_filters[:i - 1]`. Disjunct 2 on the second key has no tie on the first key, and every disjunct from the third key on asks for a tie on its own column, so no row passes it. With three or more keys, rows tied on the first two keys and after the cursor on a later key are never fetched. | keys `a, b, c` ascending, cursor `[false, 1, 1, 1]`, row `a=1, b=1, c=2` | `(A > ?) OR (A = ? AND B > ?) OR (A = ? AND B = ? AND C > ?) ...`, the comment at lines 70-71: one equality per column, disjunct `i` tied on the first `i` keys | not executed | Filters.ThreeKeysExample | Filters.IntendedPageFiltersMeaning |
