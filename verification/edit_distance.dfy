/** Normalised edit distance between two labels (redcap.py:19-25).

    `Lev` is the unit-cost Levenshtein distance (insert, delete, substitute
    one character), defined recursively on prefixes; `Levenshtein` computes
    the same number with the usual row-by-row dynamic programme, as the
    `Levenshtein.distance` library call does; `Distance` divides by the longer
    length and falls back to 1.0 whenever the division cannot be performed. */
module EditDistance {
  import opened Wrappers

  function Max(a: nat, b: nat): nat {
    if a >= b then a else b
  }

  function Min3(a: nat, b: nat, c: nat): (m: nat)
    ensures m <= a && m <= b && m <= c
    ensures m == a || m == b || m == c
  {
    if a <= b && a <= c then a else if b <= c then b else c
  }

  function Cost(x: char, y: char): nat {
    if x == y then 0 else 1
  }

  /** Levenshtein distance, removing the last character of one side or both. */
  function Lev(a: string, b: string): nat
    decreases |a| + |b|
  {
    if |a| == 0 then |b|
    else if |b| == 0 then |a|
    else
      var a', b' := a[..|a| - 1], b[..|b| - 1];
      Min3(Lev(a', b) + 1, Lev(a, b') + 1, Lev(a', b') + Cost(a[|a| - 1], b[|b| - 1]))
  }

  /** The distance never exceeds the longer length and is at least the
      difference of the lengths. */
  lemma {:induction false} LevBounds(a: string, b: string)
    decreases |a| + |b|
    ensures Lev(a, b) <= Max(|a|, |b|)
    ensures Lev(a, b) >= |a| - |b| && Lev(a, b) >= |b| - |a|
  {
    if |a| > 0 && |b| > 0 {
      var a', b' := a[..|a| - 1], b[..|b| - 1];
      LevBounds(a', b);
      LevBounds(a, b');
      LevBounds(a', b');
    }
  }

  /** The distance is zero exactly for equal strings. */
  lemma {:induction false} LevZeroIff(a: string, b: string)
    decreases |a| + |b|
    ensures Lev(a, b) == 0 <==> a == b
  {
    if |a| > 0 && |b| > 0 {
      var a', b' := a[..|a| - 1], b[..|b| - 1];
      assert a == a' + [a[|a| - 1]] && b == b' + [b[|b| - 1]];
      LevBounds(a', b);
      LevBounds(a, b');
      LevZeroIff(a', b');
    }
  }

  /** Swapping the two strings does not change the distance. */
  lemma {:induction false} LevSymmetric(a: string, b: string)
    decreases |a| + |b|
    ensures Lev(a, b) == Lev(b, a)
  {
    if |a| > 0 && |b| > 0 {
      var a', b' := a[..|a| - 1], b[..|b| - 1];
      LevSymmetric(a', b);
      LevSymmetric(a, b');
      LevSymmetric(a', b');
    }
  }

  /** One step of the recurrence, stated on the last characters. */
  lemma LevStep(a: string, x: char, b: string, y: char)
    ensures Lev(a + [x], b + [y])
         == Min3(Lev(a, b + [y]) + 1, Lev(a + [x], b) + 1, Lev(a, b) + Cost(x, y))
  {
    assert (a + [x])[..|a + [x]| - 1] == a;
    assert (b + [y])[..|b + [y]| - 1] == b;
  }

  /** The recurrence at cell `j` of the row for `a + [x]`. */
  lemma LevCell(a: string, x: char, b: string, j: nat, up: nat, left: nat, diag: nat)
    requires 1 <= j <= |b|
    requires up == Lev(a, b[..j]) && left == Lev(a + [x], b[..j - 1]) && diag == Lev(a, b[..j - 1])
    ensures Lev(a + [x], b[..j]) == Min3(up + 1, left + 1, diag + Cost(x, b[j - 1]))
  {
    LevStep(a, x, b[..j - 1], b[j - 1]);
    assert b[..j - 1] + [b[j - 1]] == b[..j];
  }

  /** One row of the dynamic programme: given `prev[k] == Lev(a, b[..k])`
      for every `k`, compute `Lev(a + [x], b[..k])` for every `k`. */
  method NextRow(a: string, x: char, b: string, prev: seq<nat>) returns (cur: seq<nat>)
    requires |prev| == |b| + 1
    requires forall k :: 0 <= k <= |b| ==> prev[k] == Lev(a, b[..k])
    ensures |cur| == |b| + 1
    ensures forall k :: 0 <= k <= |b| ==> cur[k] == Lev(a + [x], b[..k])
  {
    assert b[..0] == [];
    cur := [|a| + 1];
    var j := 1;
    while j <= |b|
      invariant 1 <= j <= |b| + 1
      invariant |cur| == j
      invariant forall k :: 0 <= k < j ==> cur[k] == Lev(a + [x], b[..k])
    {
      var v := Min3(prev[j] + 1, cur[j - 1] + 1, prev[j - 1] + Cost(x, b[j - 1]));
      LevCell(a, x, b, j, prev[j], cur[j - 1], prev[j - 1]);
      cur := cur + [v];
      j := j + 1;
    }
  }

  /** The Levenshtein distance computed row by row; after `i` rows,
      `prev[k]` holds `Lev(a[..i], b[..k])`. */
  method Levenshtein(a: string, b: string) returns (d: nat)
    ensures d == Lev(a, b)
  {
    var prev: seq<nat> := [];
    var j := 0;
    while j <= |b|
      invariant 0 <= j <= |b| + 1
      invariant |prev| == j
      invariant forall k :: 0 <= k < j ==> prev[k] == Lev([], b[..k])
    {
      prev := prev + [j];
      j := j + 1;
    }
    var i := 0;
    while i < |a|
      invariant 0 <= i <= |a|
      invariant |prev| == |b| + 1
      invariant forall k :: 0 <= k <= |b| ==> prev[k] == Lev(a[..i], b[..k])
    {
      prev := NextRow(a[..i], a[i], b, prev);
      assert a[..i] + [a[i]] == a[..i + 1];
      i := i + 1;
    }
    assert a[..|a|] == a && b[..|b|] == b;
    d := prev[|b|];
  }

  /** A ratio of a count to a larger positive count lies in [0, 1] and is
      zero only for a zero count. */
  lemma RatioBounds(n: nat, m: nat)
    requires 0 < m && n <= m
    ensures 0.0 <= (n as real) / (m as real) <= 1.0
    ensures (n as real) / (m as real) == 0.0 <==> n == 0
  {
    var q := (n as real) / (m as real);
    assert q * (m as real) == n as real;
  }

  /** `get_normalized_edit_distance`: the Levenshtein distance divided by the
      longer length. A missing side (the TypeError a NaN cell raises) and two
      empty strings (the ZeroDivisionError) both take the `except` branch and
      give the sentinel 1.0. */
  function Distance(s1: Option<string>, s2: Option<string>): (d: real)
    ensures 0.0 <= d <= 1.0
    ensures d == 0.0 <==> s1.Some? && s1 == s2 && |s1.value| > 0
    ensures s1.None? || s2.None? ==> d == 1.0
  {
    if s1.None? || s2.None? then 1.0
    else if |s1.value| == 0 && |s2.value| == 0 then 1.0
    else
      var m := Max(|s1.value|, |s2.value|);
      LevBounds(s1.value, s2.value);
      LevZeroIff(s1.value, s2.value);
      RatioBounds(Lev(s1.value, s2.value), m);
      (Lev(s1.value, s2.value) as real) / (m as real)
  }

  /** The `except` branch: 1.0 exactly when a side is missing or both are empty. */
  lemma DistanceFallback(s1: Option<string>, s2: Option<string>)
    requires s1.None? || s2.None? || (s1.value == [] && s2.value == [])
    ensures Distance(s1, s2) == 1.0
  {
  }

  /** The distance is symmetric in its arguments. */
  lemma DistanceSymmetric(s1: Option<string>, s2: Option<string>)
    ensures Distance(s1, s2) == Distance(s2, s1)
  {
    if s1.Some? && s2.Some? {
      LevSymmetric(s1.value, s2.value);
    }
  }

  /** Appending the same characters to both strings never increases the
      distance. */
  lemma {:induction false} LevCommonSuffix(u: string, v: string, t: string)
    decreases |t|
    ensures Lev(u + t, v + t) <= Lev(u, v)
  {
    if |t| > 0 {
      var t', c := t[..|t| - 1], t[|t| - 1];
      LevCommonSuffix(u, v, t');
      assert u + t == (u + t') + [c];
      assert v + t == (v + t') + [c];
      LevStep(u + t', c, v + t', c);
    } else {
      assert u + t == u && v + t == v;
    }
  }

  /** Substituting one character, anywhere in a string, is exactly one edit. */
  lemma SubstitutionIsOneEdit(a: string, x: char, y: char, b: string)
    requires x != y
    ensures Lev(a + [x] + b, a + [y] + b) == 1
  {
    LevStep(a, x, a, y);
    LevZeroIff(a, a);
    LevBounds(a + [x], a);
    LevBounds(a, a + [y]);
    LevCommonSuffix(a + [x], a + [y], b);
    assert a + [x] + b != a + [y] + b by {
      assert (a + [x] + b)[|a|] == x;
      assert (a + [y] + b)[|a|] == y;
    }
    LevZeroIff(a + [x] + b, a + [y] + b);
  }

  /** One substituted character out of five, in any position, is exactly 0.2. */
  lemma DistanceOneInFive(a: string, x: char, y: char, b: string)
    requires |a| + |b| == 4 && x != y
    ensures Distance(Some(a + [x] + b), Some(a + [y] + b)) == 0.2
  {
    SubstitutionIsOneEdit(a, x, y, b);
    RatioBounds(1, 5);
  }

  /** The dynamic programme computes the normalised distance of
      `get_normalized_edit_distance` (redcap.py:19-25). */
  method NormalizedEditDistance(s1: Option<string>, s2: Option<string>) returns (d: real)
    ensures d == Distance(s1, s2)
  {
    if s1.None? || s2.None? {
      return 1.0;
    }
    var a, b := s1.value, s2.value;
    if |a| == 0 && |b| == 0 {
      return 1.0;
    }
    var n := Levenshtein(a, b);
    d := (n as real) / (Max(|a|, |b|) as real);
  }
}
