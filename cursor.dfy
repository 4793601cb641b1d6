/**
  Page tokens. A token names either the first page or a cursor
  `[flag, v1, ..., vn]`: a direction flag (set for a "previous" link)
  followed by one value per sort key. Tokens are modelled after JSON
  decoding; JSON `false`/`true` are the integers 0/1, as Python reads them.
*/
module Cursor {
  import opened Wrappers
  import opened Predicates
  import opened Ordering

  /** What `validate_number` can be handed. */
  datatype Token =
    | Absent                           // `None` or the empty string
    | Int(n: int)                      // a bare integer (`False`/`True` are 0/1)
    | Text(decoded: Option<seq<int>>)  // a non-empty string: the array `json.loads` makes of it, or `None` when it is not an array
    | List(items: seq<int>)            // an already decoded list

  /** Why a token is refused. */
  datatype PageError =
    | KeyLengthMismatch   // the `InvalidPage('Key length mismatch')` raised for a cursor of the wrong length
    | NotAList            // the token decodes to something `len()` rejects

  /** The tokens that mean "first page": falsy ones (`None`, `''`, `0`, `[]`) and the integer 1. */
  predicate FirstPageMarker(token: Token)
  {
    match token
    case Absent => true
    case Int(n) => n == 0 || n == 1
    case Text(_) => false
    case List(items) => items == []
  }

  /** The list a token stands for once decoded, if it is one. */
  function Decoded(token: Token): Option<seq<int>>
  {
    match token
    case Absent => None
    case Int(_) => None
    case Text(d) => d
    case List(items) => Some(items)
  }

  /** `KeysetPaginator.validate_number`: first page, an accepted cursor, or the reason it is refused. */
  function ValidateNumber(keys: seq<string>, token: Token): (r: Result<Option<seq<int>>, PageError>)
    ensures r == Success(None) <==> FirstPageMarker(token)
    ensures r.Success? && r.value.Some? ==> Decoded(token) == r.value && |r.value.value| == 1 + |keys|
    ensures r == Failure(KeyLengthMismatch) <==>
      !FirstPageMarker(token) && Decoded(token).Some? && |Decoded(token).value| != 1 + |keys|
    ensures r == Failure(NotAList) <==> !FirstPageMarker(token) && Decoded(token).None?
  {
    if FirstPageMarker(token) then Success(None)
    else match Decoded(token)
      case None => Failure(NotAList)
      case Some(number) =>
        if |number| != 1 + |keys| then Failure(KeyLengthMismatch) else Success(Some(number))
  }

  /** How a validated number is passed on: `None` stays `None`, a cursor is a list. */
  function AsToken(number: Option<seq<int>>): Token
  {
    match number
    case None => Absent
    case Some(s) => List(s)
  }

  /** Validating an already validated number gives it back unchanged. */
  lemma ValidateIdempotent(keys: seq<string>, token: Token)
    requires ValidateNumber(keys, token).Success?
    ensures ValidateNumber(keys, AsToken(ValidateNumber(keys, token).value)) == ValidateNumber(keys, token)
  {
    var number := ValidateNumber(keys, token).value;
    if number.Some? {
      assert number.value != [];
    }
  }

  /** The direction a page was fetched in: `number and number[0]`. */
  predicate IsBackward(number: Option<seq<int>>)
  {
    number.Some? && |number.value| > 0 && number.value[0] != 0
  }

  /** `KeysetPage._key_for_instance`, before serialisation: the flag, then the row's key-column values. */
  function KeyForInstance(keys: seq<string>, row: Row, prev: bool): (r: seq<int>)
    requires Covers(keys, row)
    ensures |r| == 1 + |keys|
    ensures IsBackward(Some(r)) == prev
    ensures r[1..] == KeyTuple(keys, row)
  {
    [if prev then 1 else 0] + KeyTuple(keys, row)
  }

  /** A token built from a row, sent as JSON text and decoded again, is accepted as the cursor it encodes. */
  lemma KeyForInstanceAccepted(keys: seq<string>, row: Row, prev: bool)
    requires Covers(keys, row)
    ensures ValidateNumber(keys, Text(Some(KeyForInstance(keys, row, prev)))) == Success(Some(KeyForInstance(keys, row, prev)))
  {
  }
}
