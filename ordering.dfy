/**
  Sort keys as the paginator sees them: the strings of the queryset's
  `order_by`, where a leading `-` means descending. Also the lexicographic
  order over key tuples that a keyset boundary is meant to express.
*/
module Ordering {
  import opened Predicates

  /** Python's `s.lstrip('-')`: every leading '-' removed. */
  function LStrip(s: string): (r: string)
    ensures |r| <= |s|
    ensures |r| > 0 ==> r[0] != '-'
    ensures |s| > 0 && s[0] != '-' ==> r == s
  {
    if |s| > 0 && s[0] == '-' then LStrip(s[1..]) else s
  }

  /** Stripping removes exactly a run of leading dashes: the result is what follows them. */
  lemma {:induction false} LStripSuffix(s: string)
    ensures LStrip(s) == s[|s| - |LStrip(s)|..]
    ensures forall j :: 0 <= j < |s| - |LStrip(s)| ==> s[j] == '-'
  {
    if |s| > 0 && s[0] == '-' {
      var t := s[1..];
      LStripSuffix(t);
      assert t[|t| - |LStrip(t)|..] == s[|s| - |LStrip(s)|..];
      forall j | 1 <= j < |s| - |LStrip(s)|
        ensures s[j] == '-'
      {
        assert s[j] == t[j - 1];
      }
    }
  }

  /** The column a sort key names (`key.lstrip('-')`). */
  function Column(key: string): string
  {
    LStrip(key)
  }

  /** A key sorts descending when its first character is '-' (`key[0] == '-'`). */
  predicate IsDescending(key: string)
    requires |key| > 0
  {
    key[0] == '-'
  }

  /** Every key can be indexed at 0, as `build_filter` and `_get_ordering` do. */
  predicate NonEmptyKeys(keys: seq<string>)
  {
    forall i :: 0 <= i < |keys| ==> |keys[i]| > 0
  }

  /** A key that names a column: something is left after stripping the '-'s. */
  predicate NamesColumn(key: string)
  {
    |key| > 0 && |Column(key)| > 0
  }

  /** A key written the way Django writes one: `col` or `-col`, never `--col`. */
  predicate SimpleKey(key: string)
  {
    NamesColumn(key) && (key[0] == '-' ==> key[1] != '-')
  }

  /** The keys a paginator can work with: at least one, each naming a column. */
  predicate ValidKeys(keys: seq<string>)
  {
    |keys| > 0 && forall i :: 0 <= i < |keys| ==> NamesColumn(keys[i])
  }

  /** No column is named by two keys. */
  predicate DistinctColumns(keys: seq<string>)
  {
    forall i, j :: 0 <= i < j < |keys| ==> Column(keys[i]) != Column(keys[j])
  }

  /** One key of a flipped ordering: an ascending key gets a leading '-', a descending one loses its leading dashes. */
  function Toggle(key: string): string
    requires |key| > 0
  {
    if key[0] != '-' then "-" + key else LStrip(key)
  }

  /** Toggling keeps the column and reverses the direction. */
  lemma ToggleFlipsDirection(key: string)
    requires NamesColumn(key)
    ensures NamesColumn(Toggle(key))
    ensures Column(Toggle(key)) == Column(key)
    ensures IsDescending(Toggle(key)) == !IsDescending(key)
  {
    if key[0] != '-' {
      assert ("-" + key)[1..] == key;
    }
  }

  /** Toggling twice gives back a key written as `col` or `-col`. */
  lemma ToggleTwice(key: string)
    requires SimpleKey(key)
    ensures |Toggle(key)| > 0 && Toggle(Toggle(key)) == key
  {
    if key[0] != '-' {
      assert ("-" + key)[1..] == key;
    } else {
      assert LStrip(key) == key[1..];
      assert "-" + key[1..] == key;
    }
  }

  /** A doubled '-' is not restored by toggling twice. */
  lemma ToggleTwiceDoubleDash()
    ensures Toggle(Toggle("--a")) == "-a"
  {
    assert LStrip("--a") == "a" by {
      assert "--a"[1..] == "-a";
      assert "-a"[1..] == "a";
    }
  }

  /** `_get_ordering`: every key's sign toggled when the cursor's flag is set, else the keys as they are. */
  function GetOrdering(keys: seq<string>, flip: bool): (r: seq<string>)
    requires NonEmptyKeys(keys)
    ensures |r| == |keys|
    ensures !flip ==> r == keys
    ensures flip ==> forall i :: 0 <= i < |keys| ==> r[i] == Toggle(keys[i])
  {
    if flip then seq(|keys|, i requires 0 <= i < |keys| => Toggle(keys[i])) else keys
  }

  /** The effective direction of each key: its own, reversed when `flip` is set. */
  function EffectiveDescending(keys: seq<string>, flip: bool): (r: seq<bool>)
    requires NonEmptyKeys(keys)
    ensures |r| == |keys|
  {
    seq(|keys|, i requires 0 <= i < |keys| => IsDescending(keys[i]) != flip)
  }

  /** The ordering `_get_ordering` emits sorts each column in its effective direction. */
  lemma GetOrderingEffective(keys: seq<string>, flip: bool)
    requires ValidKeys(keys)
    ensures NonEmptyKeys(GetOrdering(keys, flip))
    ensures forall i :: 0 <= i < |keys| ==>
      Column(GetOrdering(keys, flip)[i]) == Column(keys[i]) &&
      IsDescending(GetOrdering(keys, flip)[i]) == EffectiveDescending(keys, flip)[i]
  {
    forall i | 0 <= i < |keys|
      ensures |GetOrdering(keys, flip)[i]| > 0
      ensures Column(GetOrdering(keys, flip)[i]) == Column(keys[i])
      ensures IsDescending(GetOrdering(keys, flip)[i]) == EffectiveDescending(keys, flip)[i]
    {
      if flip {
        ToggleFlipsDirection(keys[i]);
      }
    }
  }

  /** Flipping twice restores the ordering (for keys written as `col` or `-col`). */
  lemma GetOrderingInvolution(keys: seq<string>)
    requires NonEmptyKeys(keys) && forall i :: 0 <= i < |keys| ==> SimpleKey(keys[i])
    ensures NonEmptyKeys(GetOrdering(keys, true))
    ensures GetOrdering(GetOrdering(keys, true), true) == keys
  {
    var once := GetOrdering(keys, true);
    forall i | 0 <= i < |keys|
      ensures |once[i]| > 0 && Toggle(once[i]) == keys[i]
    {
      ToggleTwice(keys[i]);
    }
  }

  /** `x` comes strictly before `y` in a column sorted in direction `desc`. */
  predicate Before(desc: bool, x: int, y: int)
  {
    if desc then x > y else x < y
  }

  /** The lexicographic order over key tuples: `a` comes strictly before `b`. */
  predicate Precedes(descs: seq<bool>, a: seq<int>, b: seq<int>)
    requires |a| == |descs| && |b| == |descs|
    decreases |descs|
  {
    |descs| > 0 &&
    (Before(descs[0], a[0], b[0]) ||
     (a[0] == b[0] && Precedes(descs[1..], a[1..], b[1..])))
  }

  /** Every direction reversed. */
  function Negate(descs: seq<bool>): (r: seq<bool>)
    ensures |r| == |descs|
  {
    seq(|descs|, i requires 0 <= i < |descs| => !descs[i])
  }

  lemma {:induction false} PrecedesIrreflexive(descs: seq<bool>, a: seq<int>)
    requires |a| == |descs|
    ensures !Precedes(descs, a, a)
  {
    if |descs| > 0 {
      PrecedesIrreflexive(descs[1..], a[1..]);
    }
  }

  lemma {:induction false} PrecedesAsymmetric(descs: seq<bool>, a: seq<int>, b: seq<int>)
    requires |a| == |descs| && |b| == |descs|
    ensures Precedes(descs, a, b) ==> !Precedes(descs, b, a)
  {
    if |descs| > 0 {
      PrecedesAsymmetric(descs[1..], a[1..], b[1..]);
    }
  }

  /** Reversing every direction reverses the order. */
  lemma {:induction false} PrecedesNegate(descs: seq<bool>, a: seq<int>, b: seq<int>)
    requires |a| == |descs| && |b| == |descs|
    ensures Precedes(Negate(descs), a, b) <==> Precedes(descs, b, a)
  {
    if |descs| > 0 {
      assert Negate(descs)[1..] == Negate(descs[1..]);
      PrecedesNegate(descs[1..], a[1..], b[1..]);
    }
  }

  /** The unrolled reading: `a` precedes `b` iff they agree before some position `i` and `a[i]` comes first there. */
  lemma {:induction false} PrecedesAt(descs: seq<bool>, a: seq<int>, b: seq<int>)
    requires |a| == |descs| && |b| == |descs|
    ensures Precedes(descs, a, b) <==>
      exists i :: 0 <= i < |descs| && a[..i] == b[..i] && Before(descs[i], a[i], b[i])
  {
    if |descs| > 0 {
      PrecedesAt(descs[1..], a[1..], b[1..]);
      if Precedes(descs, a, b) {
        if !Before(descs[0], a[0], b[0]) {
          var i :| 0 <= i < |descs| - 1 && a[1..][..i] == b[1..][..i] && Before(descs[1..][i], a[1..][i], b[1..][i]);
          assert a[..i + 1] == [a[0]] + a[1..][..i];
          assert b[..i + 1] == [b[0]] + b[1..][..i];
        } else {
          assert a[..0] == b[..0];
        }
      } else {
        forall i | 0 <= i < |descs| && a[..i] == b[..i]
          ensures !Before(descs[i], a[i], b[i])
        {
          if i > 0 {
            assert a[0] == a[..i][0] && b[0] == b[..i][0];
            assert a[1..][..i - 1] == a[..i][1..];
            assert b[1..][..i - 1] == b[..i][1..];
          }
        }
      }
    }
  }

  /** A row carries every key's column. */
  predicate Covers(keys: seq<string>, row: Row)
  {
    forall i :: 0 <= i < |keys| ==> Column(keys[i]) in row
  }

  /** The row's key-column values, in key order. */
  function KeyTuple(keys: seq<string>, row: Row): (r: seq<int>)
    requires Covers(keys, row)
    ensures |r| == |keys|
  {
    seq(|keys|, i requires 0 <= i < |keys| && Covers(keys, row) => row[Column(keys[i])])
  }

  /** The order the queryset's keys put rows in: `r` strictly before `s`. */
  predicate RowPrecedes(keys: seq<string>, r: Row, s: Row)
    requires NonEmptyKeys(keys) && Covers(keys, r) && Covers(keys, s)
  {
    Precedes(EffectiveDescending(keys, false), KeyTuple(keys, r), KeyTuple(keys, s))
  }

  /** Row `i` comes strictly before row `j`. */
  predicate InOrder(keys: seq<string>, rows: seq<Row>, i: nat, j: nat)
    requires NonEmptyKeys(keys) && i < |rows| && j < |rows|
  {
    Covers(keys, rows[i]) && Covers(keys, rows[j]) && RowPrecedes(keys, rows[i], rows[j])
  }

  /** Rows listed in strictly increasing order of their key tuples (so the tuples are pairwise distinct). */
  predicate StrictlySorted(keys: seq<string>, rows: seq<Row>)
    requires NonEmptyKeys(keys)
  {
    (forall i :: 0 <= i < |rows| ==> Covers(keys, rows[i])) &&
    forall i: nat, j: nat :: i < j < |rows| ==> InOrder(keys, rows, i, j)
  }

  /** Any slice of a sorted sequence is sorted. */
  lemma SortedSlice(keys: seq<string>, rows: seq<Row>, lo: nat, hi: nat)
    requires NonEmptyKeys(keys) && StrictlySorted(keys, rows) && lo <= hi <= |rows|
    ensures StrictlySorted(keys, rows[lo..hi])
  {
    var s := rows[lo..hi];
    forall i: nat, j: nat | i < j < |s|
      ensures InOrder(keys, s, i, j)
    {
      assert InOrder(keys, rows, lo + i, lo + j);
    }
  }

  /** Reversing the rows of a sorted sequence sorts them by the toggled ordering. */
  lemma ReverseSortedByToggled(keys: seq<string>, rows: seq<Row>, rev: seq<Row>)
    requires ValidKeys(keys) && StrictlySorted(keys, rows)
    requires |rev| == |rows| && forall i :: 0 <= i < |rows| ==> rev[i] == rows[|rows| - 1 - i]
    ensures NonEmptyKeys(GetOrdering(keys, true))
    ensures StrictlySorted(GetOrdering(keys, true), rev)
  {
    var flipped := GetOrdering(keys, true);
    GetOrderingEffective(keys, true);
    assert forall r: Row :: Covers(keys, r) ==> Covers(flipped, r);
    forall r: Row | Covers(keys, r)
      ensures KeyTuple(flipped, r) == KeyTuple(keys, r)
    {
    }
    assert EffectiveDescending(flipped, false) == Negate(EffectiveDescending(keys, false));
    forall i: nat, j: nat | i < j < |rev|
      ensures InOrder(flipped, rev, i, j)
    {
      var n := |rows|;
      assert InOrder(keys, rows, n - 1 - j, n - 1 - i);
      PrecedesNegate(EffectiveDescending(keys, false), KeyTuple(keys, rev[i]), KeyTuple(keys, rev[j]));
    }
  }
}
