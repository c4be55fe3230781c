/** `detectSimilarLabels` (redcap.py:450-480): every labelled current
    variable is fuzzily joined to its closest labelled reference variable;
    the joined rows scoring at least 0.6 are kept, best score first and,
    among equal scores, lowest current row first. The fuzzy join itself is
    a library call: the closest reference variable of each current variable,
    with its score, is a parameter here. */
module SimilarLabels {
  import opened Wrappers
  import opened Seqs
  import opened DataDictionary

  /** The score a joined row needs to be kept. */
  const SimilarityThreshold: real := 0.6

  /** The columns `index`, `name`, `label` and `type` of a variable: what
      the join keeps of either side. */
  datatype Labelled = Labelled(row: int, name: string, fieldLabel: Option<string>, vtype: Option<string>)

  function LabelledOf(v: Variable): Labelled {
    Labelled(v.row, v.name, v.fieldLabel, v.vtype)
  }

  /** What the fuzzy join on `label` (redcap.py:458-463) finds for one
      labelled current variable: its closest labelled reference variable
      (None when the reference has no labelled row) and the matching score.
      How skrub scores labels is not part of this model; that the match is a
      labelled reference row is the precondition `LabelMatchesFromReference`. */
  datatype LabelMatch = LabelMatch(closest: Option<Variable>, score: real)

  /** One row of the joined table: the current side (`row1`, `name1`,
      `label1`, `type1`), the reference side (`row2`, ..., NaN when absent)
      and `matching_score`. */
  datatype SimilarMatch = SimilarMatch(left: Labelled, right: Option<Labelled>, score: real)

  function MatchOf(closest: Variable -> LabelMatch): Variable -> SimilarMatch {
    v => SimilarMatch(LabelledOf(v),
      if closest(v).closest.Some? then Some(LabelledOf(closest(v).closest.value)) else None,
      closest(v).score)
  }

  const HasLabel: Variable -> bool := (v: Variable) => v.fieldLabel.Some?

  /** `tmp1[tmp1["label"].notnull()]`: the variables the join may use. */
  function LabelledVariables(vars: seq<Variable>): (r: seq<Variable>)
    ensures forall v :: v in r <==> v in vars && v.fieldLabel.Some?
    ensures multiset(r) + multiset(Filter(vars, Not(HasLabel))) == multiset(vars)
  {
    FilterSplit(vars, HasLabel);
    Filter(vars, HasLabel)
  }

  /** The left fuzzy join: one row per labelled current variable, in order. */
  function SimilarJoin(cur: seq<Variable>, closest: Variable -> LabelMatch): seq<SimilarMatch> {
    Map(LabelledVariables(cur), MatchOf(closest))
  }

  /** The joined rows are the matches of the labelled current variables. */
  lemma SimilarJoinMembers(cur: seq<Variable>, closest: Variable -> LabelMatch)
    ensures forall v :: v in cur && v.fieldLabel.Some? ==> MatchOf(closest)(v) in SimilarJoin(cur, closest)
    ensures forall m :: m in SimilarJoin(cur, closest) ==>
      exists v :: v in cur && v.fieldLabel.Some? && m == MatchOf(closest)(v)
  {
    var ls := LabelledVariables(cur);
    forall v | v in cur && v.fieldLabel.Some?
      ensures MatchOf(closest)(v) in SimilarJoin(cur, closest)
    {
      MapMember(ls, MatchOf(closest), v);
    }
    forall m | m in SimilarJoin(cur, closest)
      ensures exists v :: v in cur && v.fieldLabel.Some? && m == MatchOf(closest)(v)
    {
      MapPreimage(ls, MatchOf(closest), m);
    }
  }

  /** `a` may precede `b` in `sort_values(by = ["matching_score", "row1"],
      ascending = [False, True])`. */
  predicate Precedes(a: SimilarMatch, b: SimilarMatch) {
    a.score > b.score || (a.score == b.score && a.left.row <= b.left.row)
  }

  predicate Sorted(s: seq<SimilarMatch>) {
    forall i, j :: 0 <= i < j < |s| ==> Precedes(s[i], s[j])
  }

  /** Places `m` in front of the first row it precedes. */
  function Insert(m: SimilarMatch, s: seq<SimilarMatch>): (r: seq<SimilarMatch>)
    requires Sorted(s)
    ensures Sorted(r)
    ensures multiset(r) == multiset(s) + multiset{m}
  {
    if |s| == 0 then [m]
    else if Precedes(m, s[0]) then
      assert forall j :: 0 <= j < |s| ==> Precedes(s[0], s[j]) || j == 0;
      [m] + s
    else
      var rest := Insert(m, s[1..]);
      assert s == [s[0]] + s[1..];
      assert Precedes(s[0], m);
      assert forall j :: 0 <= j < |s[1..]| ==> Precedes(s[0], s[1..][j]) by {
        forall j | 0 <= j < |s[1..]|
          ensures Precedes(s[0], s[1..][j])
        {
          assert s[1..][j] == s[j + 1];
        }
      }
      PrecedesAllOfMultiset(s[0], m, s[1..], rest);
      [s[0]] + rest
  }

  /** If `h` precedes `m` and every row of `t`, it precedes every row of a
      rearrangement of `t` with `m` added. */
  lemma PrecedesAllOfMultiset(h: SimilarMatch, m: SimilarMatch, t: seq<SimilarMatch>, rest: seq<SimilarMatch>)
    requires Precedes(h, m)
    requires forall j :: 0 <= j < |t| ==> Precedes(h, t[j])
    requires multiset(rest) == multiset(t) + multiset{m}
    ensures forall j :: 0 <= j < |rest| ==> Precedes(h, rest[j])
  {
    forall j | 0 <= j < |rest|
      ensures Precedes(h, rest[j])
    {
      assert rest[j] in multiset(rest);
      if rest[j] != m {
        assert rest[j] in multiset(t);
        var k :| 0 <= k < |t| && t[k] == rest[j];
      }
    }
  }

  /** The rows of `s` in `sort_values` order. */
  function SortBySimilarity(s: seq<SimilarMatch>): (r: seq<SimilarMatch>)
    ensures Sorted(r)
    ensures multiset(r) == multiset(s)
  {
    if |s| == 0 then []
    else
      assert s == [s[0]] + s[1..];
      Insert(s[0], SortBySimilarity(s[1..]))
  }

  /** The join's right-hand table is `tmp2`, the labelled reference rows
      (redcap.py:455-456): a matched row is a labelled reference variable,
      and a current variable goes unmatched only when the reference has no
      labelled row. */
  predicate LabelMatchesFromReference(cur: seq<Variable>, ref: seq<Variable>, closest: Variable -> LabelMatch) {
    forall v :: v in cur && v.fieldLabel.Some? ==>
      (closest(v).closest.Some? ==> closest(v).closest.value in ref && closest(v).closest.value.fieldLabel.Some?)
      && (closest(v).closest.None? ==> forall w :: w in ref ==> w.fieldLabel.None?)
  }

  const KeepTest: SimilarMatch -> bool := (m: SimilarMatch) => m.score >= SimilarityThreshold

  /** `detectSimilarLabels`: the joined rows scoring at least 0.6, each as
      often as it occurs, sorted; None when no labelled current variable
      scores that high. */
  function DetectSimilarLabels(cur: seq<Variable>, ref: seq<Variable>, closest: Variable -> LabelMatch)
    : (r: Option<seq<SimilarMatch>>)
    requires LabelMatchesFromReference(cur, ref, closest)
    ensures r.None? <==> forall v :: v in cur && v.fieldLabel.Some? ==> closest(v).score < SimilarityThreshold
    ensures r.Some? ==> Sorted(r.value)
    ensures r.Some? ==> multiset(r.value) == multiset(Filter(SimilarJoin(cur, closest), KeepTest))
    ensures r.Some? ==> forall v :: v in cur && v.fieldLabel.Some? && closest(v).score >= SimilarityThreshold ==>
      MatchOf(closest)(v) in r.value
    ensures r.Some? ==> forall m :: m in r.value ==> m.score >= SimilarityThreshold && m in SimilarJoin(cur, closest)
    ensures r.Some? ==> forall m :: m in r.value && m.right.Some? ==>
      exists w :: w in ref && w.fieldLabel.Some? && m.right.value == LabelledOf(w)
    ensures r.Some? ==> forall m :: m in r.value && m.right.None? ==> forall w :: w in ref ==> w.fieldLabel.None?
  {
    var joined := SimilarJoin(cur, closest);
    var kept := Filter(joined, KeepTest);
    var sorted := SortBySimilarity(kept);
    SimilarJoinMembers(cur, closest);
    KeptEmptyIff(cur, closest);
    assert forall m :: m in sorted <==> m in kept by {
      forall m
        ensures m in sorted <==> m in kept
      {
        assert m in sorted <==> m in multiset(sorted);
        assert m in kept <==> m in multiset(kept);
      }
    }
    NonEmpty(sorted)
  }

  lemma KeptEmptyIff(cur: seq<Variable>, closest: Variable -> LabelMatch)
    ensures |Filter(SimilarJoin(cur, closest), KeepTest)| == 0 <==>
      forall v :: v in cur && v.fieldLabel.Some? ==> closest(v).score < SimilarityThreshold
  {
    var kept := Filter(SimilarJoin(cur, closest), KeepTest);
    SimilarJoinMembers(cur, closest);
    if |kept| > 0 {
      assert kept[0] in kept;
    }
  }

  /** No two different rows of `s` share a current row index. */
  predicate RowsDetermine(s: seq<SimilarMatch>) {
    forall a, b :: a in s && b in s && a.left.row == b.left.row ==> a == b
  }

  /** The first rows of two sorted arrangements of the same rows precede
      each other, so they share score and current row. */
  lemma SortedHeads(a: seq<SimilarMatch>, b: seq<SimilarMatch>)
    requires Sorted(a) && Sorted(b)
    requires multiset(a) == multiset(b)
    requires |a| > 0 && |b| > 0
    ensures a[0] in b && b[0] in a
    ensures a[0].score == b[0].score && a[0].left.row == b[0].left.row
  {
    assert a[0] in multiset(b);
    assert b[0] in multiset(a);
    var i :| 0 <= i < |b| && b[i] == a[0];
    var k :| 0 <= k < |a| && a[k] == b[0];
    assert Precedes(b[0], a[0]) by {
      if i > 0 {
        assert Precedes(b[0], b[i]);
      }
    }
    assert Precedes(a[0], b[0]) by {
      if k > 0 {
        assert Precedes(a[0], a[k]);
      }
    }
  }

  /** Dropping equal first rows leaves sorted arrangements of the same rest. */
  lemma SortedTails(a: seq<SimilarMatch>, b: seq<SimilarMatch>)
    requires Sorted(a) && Sorted(b)
    requires multiset(a) == multiset(b)
    requires |a| > 0 && |b| > 0 && a[0] == b[0]
    ensures Sorted(a[1..]) && Sorted(b[1..])
    ensures multiset(a[1..]) == multiset(b[1..])
  {
    assert a == [a[0]] + a[1..];
    assert b == [b[0]] + b[1..];
    assert multiset(a[1..]) == multiset(a) - multiset{a[0]};
    assert multiset(b[1..]) == multiset(b) - multiset{b[0]};
  }

  /** Sorting by descending score and ascending current row has one result
      when no two different rows share a current row index. */
  lemma {:induction false} SortedUnique(a: seq<SimilarMatch>, b: seq<SimilarMatch>)
    requires Sorted(a) && Sorted(b)
    requires multiset(a) == multiset(b)
    requires RowsDetermine(a)
    ensures a == b
  {
    assert |a| == |multiset(a)| == |b|;
    if |a| > 0 {
      SortedHeads(a, b);
      SortedTails(a, b);
      assert RowsDetermine(a[1..]) by {
        forall x, y | x in a[1..] && y in a[1..] && x.left.row == y.left.row
          ensures x == y
        {
          assert x in a && y in a;
        }
      }
      SortedUnique(a[1..], b[1..]);
      assert a == [a[0]] + a[1..];
      assert b == [b[0]] + b[1..];
    }
  }

  /** The CSV row index (from `reset_index`) tells the current variables
      apart, so the sorted result is the only ordering of the kept rows
      that `sort_values` could produce. */
  lemma SimilarLabelsOrderDetermined(cur: seq<Variable>, ref: seq<Variable>, closest: Variable -> LabelMatch, s: seq<SimilarMatch>)
    requires LabelMatchesFromReference(cur, ref, closest)
    requires forall v, w :: v in cur && w in cur && v.row == w.row ==> v == w
    requires Sorted(s)
    ensures DetectSimilarLabels(cur, ref, closest).Some?
      && multiset(s) == multiset(Filter(SimilarJoin(cur, closest), KeepTest))
      ==> s == DetectSimilarLabels(cur, ref, closest).value
  {
    if DetectSimilarLabels(cur, ref, closest).None? || multiset(s) != multiset(Filter(SimilarJoin(cur, closest), KeepTest)) {
      return;
    }
    var r := DetectSimilarLabels(cur, ref, closest).value;
    SimilarJoinMembers(cur, closest);
    assert RowsDetermine(r) by {
      forall a, b | a in r && b in r && a.left.row == b.left.row
        ensures a == b
      {
        var v :| v in cur && v.fieldLabel.Some? && a == MatchOf(closest)(v);
        var w :| w in cur && w.fieldLabel.Some? && b == MatchOf(closest)(w);
      }
    }
    SortedUnique(r, s);
  }
}
