/** Generic sequence operations: the row filters, projections and substring
    tests that the comparators build on. */
module Seqs {
  import opened Wrappers

  /** Rows of `s` that satisfy `p`, in their original order. */
  function Filter<T(!new)>(s: seq<T>, p: T -> bool): (r: seq<T>)
    ensures |r| <= |s|
    ensures forall x :: x in r <==> x in s && p(x)
    ensures multiset(r) <= multiset(s)
  {
    if |s| == 0 then []
    else
      assert s == [s[0]] + s[1..];
      if p(s[0]) then [s[0]] + Filter(s[1..], p)
      else Filter(s[1..], p)
  }

  lemma FilterCons<T(!new)>(x: T, rest: seq<T>, p: T -> bool)
    ensures Filter([x] + rest, p) == (if p(x) then [x] else []) + Filter(rest, p)
  {
    assert ([x] + rest)[1..] == rest;
  }

  /** `f` applied to every row of `s`. */
  function Map<T, U>(s: seq<T>, f: T -> U): (r: seq<U>)
    ensures |r| == |s|
    ensures forall i :: 0 <= i < |s| ==> r[i] == f(s[i])
  {
    if |s| == 0 then [] else [f(s[0])] + Map(s[1..], f)
  }

  lemma MapMember<T, U>(s: seq<T>, f: T -> U, x: T)
    requires x in s
    ensures f(x) in Map(s, f)
  {
    var i :| 0 <= i < |s| && s[i] == x;
    assert Map(s, f)[i] == f(x);
  }

  lemma MapPreimage<T, U>(s: seq<T>, f: T -> U, y: U)
    requires y in Map(s, f)
    ensures exists x :: x in s && f(x) == y
  {
    var i :| 0 <= i < |Map(s, f)| && Map(s, f)[i] == y;
    assert s[i] in s;
  }

  /** The negation of a row test. */
  function Not<T>(p: T -> bool): T -> bool {
    x => !p(x)
  }

  /** The rows on which `p` holds and the rows on which it fails together are
      exactly the input rows, counted with multiplicity. */
  lemma {:induction false} FilterSplit<T(!new)>(s: seq<T>, p: T -> bool)
    ensures multiset(Filter(s, p)) + multiset(Filter(s, Not(p))) == multiset(s)
  {
    if |s| > 0 {
      FilterSplit(s[1..], p);
      assert s == [s[0]] + s[1..];
    }
  }

  /** Three row tests of which every row passes exactly one split the rows
      into three parts that together are the rows, with multiplicity. */
  lemma {:induction false} FilterPartition3<T(!new)>(s: seq<T>, p: T -> bool, q: T -> bool, r: T -> bool)
    requires forall x :: x in s ==> (p(x) || q(x) || r(x)) && !(p(x) && q(x)) && !(p(x) && r(x)) && !(q(x) && r(x))
    ensures multiset(Filter(s, p)) + multiset(Filter(s, q)) + multiset(Filter(s, r)) == multiset(s)
  {
    if |s| > 0 {
      var x := s[0];
      assert s == [x] + s[1..];
      FilterPartition3(s[1..], p, q, r);
      FilterCons(x, s[1..], p);
      FilterCons(x, s[1..], q);
      FilterCons(x, s[1..], r);
    }
  }

  /** Number of rows of `s` satisfying `p`: the pandas idiom `len(df[mask])`. */
  function Count<T>(s: seq<T>, p: T -> bool): (n: nat)
    ensures n <= |s|
    ensures n == |s| <==> forall i :: 0 <= i < |s| ==> p(s[i])
    ensures n == 0 <==> forall i :: 0 <= i < |s| ==> !p(s[i])
  {
    if |s| == 0 then 0
    else (if p(s[0]) then 1 else 0) + Count(s[1..], p)
  }

  /** Python's `t in s` on strings (and pandas `str.contains` with a literal
      pattern): `t` occurs as a contiguous block somewhere in `s`. */
  predicate Contains<T(==)>(s: seq<T>, t: seq<T>)
  {
    t <= s || (|s| > 0 && Contains(s[1..], t))
  }

  /** `t` occurs in `s` starting at position `i`. */
  predicate OccursAt<T(==)>(s: seq<T>, t: seq<T>, i: int)
  {
    0 <= i <= |s| - |t| && s[i..i + |t|] == t
  }

  /** The recursive substring test agrees with the positional definition. */
  lemma {:induction false} ContainsAt<T>(s: seq<T>, t: seq<T>)
    ensures Contains(s, t) <==> exists i :: OccursAt(s, t, i)
  {
    if t <= s {
      assert OccursAt(s, t, 0);
    } else if |s| == 0 {
    } else {
      ContainsAt(s[1..], t);
      if exists i :: OccursAt(s, t, i) {
        var i :| OccursAt(s, t, i);
        if i > 0 {
          assert OccursAt(s[1..], t, i - 1);
        }
      }
      if Contains(s[1..], t) {
        var i :| OccursAt(s[1..], t, i);
        assert OccursAt(s, t, i + 1);
      }
    }
  }

  /** Every element of a contained block occurs in the containing sequence. */
  lemma {:induction false} ContainsChar<T>(s: seq<T>, t: seq<T>, k: nat)
    requires Contains(s, t) && k < |t|
    ensures t[k] in s
  {
    if !(t <= s) {
      ContainsChar(s[1..], t, k);
    }
  }

  /** Every string contains itself. */
  lemma ContainsSelf<T>(s: seq<T>)
    ensures Contains(s, s)
  {
  }

  /** The elements before and after the first `c` in `s`, if `s` contains `c`. */
  function SplitAtFirst<T(==)>(s: seq<T>, c: T): (r: Option<(seq<T>, seq<T>)>)
    ensures r.Some? ==> c !in r.value.0 && s == r.value.0 + [c] + r.value.1
    ensures r.None? <==> c !in s
  {
    if |s| == 0 then None
    else if s[0] == c then Some(([], s[1..]))
    else match SplitAtFirst(s[1..], c)
      case None => None
      case Some((a, b)) => Some(([s[0]] + a, b))
  }

  /** Splitting at the first `c` undoes joining at a `c` the first part lacks. */
  lemma {:induction false} SplitAtFirstOf<T>(a: seq<T>, c: T, b: seq<T>)
    requires c !in a
    ensures SplitAtFirst(a + [c] + b, c) == Some((a, b))
  {
    var s := a + [c] + b;
    if |a| == 0 {
      assert s == [c] + b;
    } else {
      assert s[0] == a[0] && s[1..] == a[1..] + [c] + b;
      SplitAtFirstOf(a[1..], c, b);
      assert [a[0]] + a[1..] == a;
    }
  }
}
