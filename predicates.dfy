/**
  Boolean filter expressions over rows, standing in for Django's `Q` objects:
  a column lookup (`col__lt`, `col__lte`, `col__gt`, `col__gte`, `col=`) and
  the `&` / `|` combinators. Rows are read by column name.
*/
module Predicates {

  /** A row: its column values by column name (what `getattr(instance, col)` reads). */
  type Row = map<string, int>

  /** The lookups a boundary filter uses. */
  datatype Op = Lt | Lte | Gt | Gte | Exact

  datatype Pred =
    | Cmp(column: string, op: Op, value: int)
    | And(left: Pred, right: Pred)
    | Or(left: Pred, right: Pred)

  /** Does `x` (the row's column value) pass the lookup against `v`? */
  function Holds(op: Op, x: int, v: int): bool
  {
    match op
    case Lt => x < v
    case Lte => x <= v
    case Gt => x > v
    case Gte => x >= v
    case Exact => x == v
  }

  /** Whether a row satisfies a filter; a lookup on a column the row lacks never matches. */
  function Eval(p: Pred, row: Row): bool
  {
    match p
    case Cmp(c, op, v) => c in row && Holds(op, row[c], v)
    case And(a, b) => Eval(a, row) && Eval(b, row)
    case Or(a, b) => Eval(a, row) || Eval(b, row)
  }

  /** `reduce(and_, ps)`: a left fold of `&` over a non-empty list. */
  function AndAll(ps: seq<Pred>): Pred
    requires |ps| > 0
  {
    if |ps| == 1 then ps[0] else And(AndAll(ps[..|ps| - 1]), ps[|ps| - 1])
  }

  /** `reduce(or_, ps)`: a left fold of `|` over a non-empty list. */
  function OrAll(ps: seq<Pred>): Pred
    requires |ps| > 0
  {
    if |ps| == 1 then ps[0] else Or(OrAll(ps[..|ps| - 1]), ps[|ps| - 1])
  }

  /** The folded conjunction holds iff every conjunct does. */
  lemma {:induction false} AndAllMeaning(ps: seq<Pred>, row: Row)
    requires |ps| > 0
    ensures Eval(AndAll(ps), row) <==> forall i :: 0 <= i < |ps| ==> Eval(ps[i], row)
  {
    if |ps| > 1 {
      var init := ps[..|ps| - 1];
      AndAllMeaning(init, row);
      assert forall i :: 0 <= i < |init| ==> init[i] == ps[i];
    }
  }

  /** The folded disjunction holds iff some disjunct does. */
  lemma {:induction false} OrAllMeaning(ps: seq<Pred>, row: Row)
    requires |ps| > 0
    ensures Eval(OrAll(ps), row) <==> exists i :: 0 <= i < |ps| && Eval(ps[i], row)
  {
    if |ps| > 1 {
      var init := ps[..|ps| - 1];
      OrAllMeaning(init, row);
      if Eval(OrAll(init), row) {
        var i :| 0 <= i < |init| && Eval(init[i], row);
        assert ps[i] == init[i];
      } else if exists i :: 0 <= i < |ps| && Eval(ps[i], row) {
        var i :| 0 <= i < |ps| && Eval(ps[i], row);
        if i < |init| {
          assert init[i] == ps[i];
        }
      }
    }
  }

  /** A conjunction headed by `p` holds iff `p` and every one of `qs` hold. */
  lemma AndAllCons(p: Pred, qs: seq<Pred>, row: Row)
    ensures Eval(AndAll([p] + qs), row) <==> Eval(p, row) && forall k :: 0 <= k < |qs| ==> Eval(qs[k], row)
  {
    var ps := [p] + qs;
    AndAllMeaning(ps, row);
    assert ps[0] == p;
    if forall k :: 0 <= k < |qs| ==> Eval(qs[k], row) {
      if Eval(p, row) {
        forall k | 0 <= k < |ps| ensures Eval(ps[k], row) {
          if k > 0 {
            assert ps[k] == qs[k - 1];
          }
        }
      }
    } else {
      var k :| 0 <= k < |qs| && !Eval(qs[k], row);
      assert ps[k + 1] == qs[k];
    }
  }
}
