/** Key joins of two tables of records, the `pd.merge(..., on = key)` calls
    of the comparator. Rows are joined when their keys are equal; a left row
    with several partners yields one joined row per partner, as pandas does.
    An outer join lists the left rows, in their order, before the unmatched
    right rows; pandas instead sorts the outer-join keys. */
module Joins {
  import opened Seqs

  /** One row of an outer join, tagged the way pandas' `indicator = True`
      column tags it: "both", "left_only" or "right_only". */
  datatype JoinRow<T> = Both(left: T, right: T) | LeftOnly(left: T) | RightOnly(right: T)

  /** Some row of `s` carries the key `k`. */
  predicate HasKey<T, K(==)>(s: seq<T>, key: T -> K, k: K) {
    exists i :: 0 <= i < |s| && key(s[i]) == k
  }

  /** The row test "has a partner in `right`". */
  function Matched<T, K(==)>(right: seq<T>, key: T -> K): T -> bool {
    x => HasKey(right, key, key(x))
  }

  lemma HasKeyOf<T, K>(s: seq<T>, key: T -> K, y: T)
    requires y in s
    ensures HasKey(s, key, key(y))
  {
    var i :| 0 <= i < |s| && s[i] == y;
  }

  /** The pairs `(x, y)` with `y` a row of `right` sharing the key of `x`. */
  function Partners<T(!new), K(==)>(x: T, right: seq<T>, key: T -> K): (r: seq<(T, T)>)
    ensures forall p :: p in r <==> p.0 == x && p.1 in right && key(p.1) == key(x)
    ensures |r| == 0 <==> !HasKey(right, key, key(x))
  {
    if |right| == 0 then []
    else
      var rest := Partners(x, right[1..], key);
      assert forall i :: 1 <= i < |right| ==> right[i] == right[1..][i - 1];
      if key(right[0]) == key(x) then [(x, right[0])] + rest else rest
  }

  /** `pd.merge(left, right, on = key, how = 'inner')`. */
  function InnerJoin<T(!new), K(==)>(left: seq<T>, right: seq<T>, key: T -> K): (r: seq<(T, T)>)
    ensures forall p :: p in r <==> p.0 in left && p.1 in right && key(p.0) == key(p.1)
  {
    if |left| == 0 then []
    else
      assert forall x :: x in left <==> x == left[0] || x in left[1..];
      Partners(left[0], right, key) + InnerJoin(left[1..], right, key)
  }

  function BothRows<T>(ps: seq<(T, T)>): (r: seq<JoinRow<T>>)
    ensures |r| == |ps|
    ensures forall i :: 0 <= i < |ps| ==> r[i] == Both(ps[i].0, ps[i].1)
  {
    if |ps| == 0 then [] else [Both(ps[0].0, ps[0].1)] + BothRows(ps[1..])
  }

  /** The joined rows contributed by the left row `x`. */
  function RowsFor<T(!new), K(==)>(x: T, right: seq<T>, key: T -> K): (r: seq<JoinRow<T>>)
    ensures forall j :: j in r <==>
      (j.Both? && j.left == x && j.right in right && key(j.right) == key(x))
      || (j == LeftOnly(x) && !HasKey(right, key, key(x)))
  {
    var ps := Partners(x, right, key);
    if |ps| == 0 then [LeftOnly(x)]
    else
      var r := BothRows(ps);
      assert forall j :: j in r <==> exists i :: 0 <= i < |ps| && j == Both(ps[i].0, ps[i].1);
      assert forall y :: y in right && key(y) == key(x) ==> (x, y) in ps;
      r
  }

  /** The "both" and "left_only" rows of an outer join. */
  function LeftPart<T(!new), K(==)>(left: seq<T>, right: seq<T>, key: T -> K): (r: seq<JoinRow<T>>)
    ensures forall j :: j in r <==>
      (j.Both? && j.left in left && j.right in right && key(j.left) == key(j.right))
      || (j.LeftOnly? && j.left in left && !HasKey(right, key, key(j.left)))
  {
    if |left| == 0 then []
    else
      assert forall x :: x in left <==> x == left[0] || x in left[1..];
      RowsFor(left[0], right, key) + LeftPart(left[1..], right, key)
  }

  /** The "right_only" rows of an outer join. */
  function RightPart<T(!new), K(==)>(left: seq<T>, right: seq<T>, key: T -> K): (r: seq<JoinRow<T>>)
    ensures forall j :: j in r <==> j.RightOnly? && j.right in right && !HasKey(left, key, key(j.right))
  {
    if |right| == 0 then []
    else
      assert forall y :: y in right <==> y == right[0] || y in right[1..];
      (if HasKey(left, key, key(right[0])) then [] else [RightOnly(right[0])])
        + RightPart(left, right[1..], key)
  }

  /** `pd.merge(left, right, on = key, how = 'outer', indicator = True)`:
      every pair of rows sharing a key is "both"; every row whose key has no
      partner on the other side appears once, tagged with its side. */
  function OuterJoin<T(!new), K(==)>(left: seq<T>, right: seq<T>, key: T -> K): (r: seq<JoinRow<T>>)
    ensures forall x, y :: Both(x, y) in r <==> x in left && y in right && key(x) == key(y)
    ensures forall x :: LeftOnly(x) in r <==> x in left && !HasKey(right, key, key(x))
    ensures forall y :: RightOnly(y) in r <==> y in right && !HasKey(left, key, key(y))
    ensures |r| == 0 <==> |left| == 0 && |right| == 0
  {
    OuterJoinNonEmpty(left, right, key);
    LeftPart(left, right, key) + RightPart(left, right, key)
  }

  /** A non-empty table contributes at least one joined row. */
  lemma OuterJoinNonEmpty<T(!new), K>(left: seq<T>, right: seq<T>, key: T -> K)
    ensures |left| > 0 ==> |LeftPart(left, right, key)| > 0
    ensures |right| > 0 ==> |LeftPart(left, right, key)| + |RightPart(left, right, key)| > 0
  {
    var l, rt := LeftPart(left, right, key), RightPart(left, right, key);
    if |left| > 0 {
      assert left[0] in left;
      if HasKey(right, key, key(left[0])) {
        var i :| 0 <= i < |right| && key(right[i]) == key(left[0]);
        assert right[i] in right;
        assert Both(left[0], right[i]) in l;
      } else {
        assert LeftOnly(left[0]) in l;
      }
    }
    if |right| > 0 {
      assert right[0] in right;
      if HasKey(left, key, key(right[0])) {
        var i :| 0 <= i < |left| && key(left[i]) == key(right[0]);
        assert left[i] in left;
        assert Both(left[i], right[0]) in l;
      } else {
        assert RightOnly(right[0]) in rt;
      }
    }
  }

  /** The left rows of the "left_only" rows, in join order. */
  function LeftOnlyRows<T>(js: seq<JoinRow<T>>): seq<T> {
    if |js| == 0 then []
    else (if js[0].LeftOnly? then [js[0].left] else []) + LeftOnlyRows(js[1..])
  }

  lemma {:induction false} LeftOnlyRowsAppend<T>(a: seq<JoinRow<T>>, b: seq<JoinRow<T>>)
    ensures LeftOnlyRows(a + b) == LeftOnlyRows(a) + LeftOnlyRows(b)
  {
    if |a| > 0 {
      LeftOnlyRowsAppend(a[1..], b);
      assert (a + b)[1..] == a[1..] + b;
      assert (a + b)[0] == a[0];
    } else {
      assert a + b == b;
    }
  }

  lemma {:induction false} LeftOnlyRowsOfBoth<T>(ps: seq<(T, T)>)
    ensures LeftOnlyRows(BothRows(ps)) == []
  {
    if |ps| > 0 {
      LeftOnlyRowsOfBoth(ps[1..]);
      assert BothRows(ps)[1..] == BothRows(ps[1..]);
    }
  }

  lemma {:induction false} LeftOnlyRowsOfRightPart<T(!new), K>(left: seq<T>, right: seq<T>, key: T -> K)
    ensures LeftOnlyRows(RightPart(left, right, key)) == []
  {
    if |right| > 0 {
      var head: seq<JoinRow<T>> := if HasKey(left, key, key(right[0])) then [] else [RightOnly(right[0])];
      LeftOnlyRowsOfRightPart(left, right[1..], key);
      LeftOnlyRowsAppend(head, RightPart(left, right[1..], key));
    }
  }

  /** The "left_only" rows of an outer join are exactly the left rows whose
      key has no partner on the right, each once, in the left table's order. */
  lemma {:induction false} LeftOnlyIsUnmatchedLeft<T(!new), K>(left: seq<T>, right: seq<T>, key: T -> K)
    ensures LeftOnlyRows(OuterJoin(left, right, key)) == Filter(left, Not(Matched(right, key)))
  {
    LeftOnlyRowsAppend(LeftPart(left, right, key), RightPart(left, right, key));
    LeftOnlyRowsOfRightPart(left, right, key);
    LeftOnlyOfLeftPart(left, right, key);
  }

  lemma {:induction false} LeftOnlyOfLeftPart<T(!new), K>(left: seq<T>, right: seq<T>, key: T -> K)
    ensures LeftOnlyRows(LeftPart(left, right, key)) == Filter(left, Not(Matched(right, key)))
  {
    if |left| > 0 {
      var x := left[0];
      LeftOnlyOfLeftPart(left[1..], right, key);
      LeftOnlyRowsAppend(RowsFor(x, right, key), LeftPart(left[1..], right, key));
      var ps := Partners(x, right, key);
      if |ps| > 0 {
        LeftOnlyRowsOfBoth(ps);
      } else {
        assert LeftOnlyRows([LeftOnly(x)]) == [x];
      }
    }
  }
}
