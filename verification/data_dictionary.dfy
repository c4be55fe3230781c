/** The REDCap data-dictionary comparator's row-level logic: which variables
    of the current dictionary are unchanged, changed, renamed, added or gone
    relative to a reference dictionary (redcap.py, class DataDic). */
module DataDictionary {
  import opened Wrappers
  import opened Seqs
  import opened Joins

  /** One variable row of a data dictionary. `row` is the CSV row index the
      constructor adds with `reset_index`; `rest` stands for the remaining
      columns (choices, validation, branching logic, identifier flag, ...).
      Cells that may be empty in the CSV (NaN in pandas) are options. */
  datatype Variable = Variable(
    row: int,
    name: string,
    form: string,
    vtype: Option<string>,
    fieldLabel: Option<string>,
    rest: seq<Option<string>>)

  /** Everything but the row index: the key of the all-columns merge. */
  datatype Content = Content(
    name: string,
    form: string,
    vtype: Option<string>,
    fieldLabel: Option<string>,
    rest: seq<Option<string>>)

  function ContentOf(v: Variable): Content {
    Content(v.name, v.form, v.vtype, v.fieldLabel, v.rest)
  }

  function NameOf(v: Variable): string {
    v.name
  }

  /** `v` has a row with the same content (apart from its index) in `ref`. */
  predicate HasTwin(ref: seq<Variable>, v: Variable) {
    HasKey(ref, ContentOf, ContentOf(v))
  }

  /** The "both" rows of the all-columns outer merge: each current row with
      its reference twin, whose `index` the merge carries as `index0`. */
  function BothPairs(js: seq<JoinRow<Variable>>): (r: seq<(Variable, Variable)>)
    ensures forall v, w :: (v, w) in r <==> Both(v, w) in js
  {
    if |js| == 0 then []
    else
      assert forall j :: j in js <==> j == js[0] || j in js[1..];
      (if js[0].Both? then [(js[0].left, js[0].right)] else []) + BothPairs(js[1..])
  }

  /** The identical / nonidentical split of `detectIdenticalVariables`
      (redcap.py:234-244): an outer merge on every column but the index,
      keeping its "both" rows as (current, reference twin) pairs and the
      current rows of its "left_only" part. */
  datatype Split = Split(identical: seq<(Variable, Variable)>, nonidentical: seq<Variable>)

  /** The row test "has a twin in `ref`". */
  function Twinned(ref: seq<Variable>): Variable -> bool {
    Matched(ref, ContentOf)
  }

  function SplitIdentical(cur: seq<Variable>, ref: seq<Variable>): (s: Split)
    ensures forall v, w :: (v, w) in s.identical <==> v in cur && w in ref && ContentOf(v) == ContentOf(w)
    ensures s.nonidentical == Filter(cur, Not(Twinned(ref)))
    ensures multiset(s.nonidentical) + multiset(Filter(cur, Twinned(ref))) == multiset(cur)
  {
    LeftOnlyIsUnmatchedLeft(cur, ref, ContentOf);
    FilterSplit(cur, Twinned(ref));
    var js := OuterJoin(cur, ref, ContentOf);
    Split(BothPairs(js), LeftOnlyRows(js))
  }

  /** A current row has a twin exactly when it appears in an identical pair. */
  lemma IdenticalPairsCoverTwinned(cur: seq<Variable>, ref: seq<Variable>, v: Variable)
    requires v in cur
    ensures HasTwin(ref, v) <==> exists w :: (v, w) in SplitIdentical(cur, ref).identical
  {
    if HasTwin(ref, v) {
      var i :| 0 <= i < |ref| && ContentOf(ref[i]) == ContentOf(v);
      assert ref[i] in ref;
      assert (v, ref[i]) in SplitIdentical(cur, ref).identical;
    }
    if w :| (v, w) in SplitIdentical(cur, ref).identical {
      HasKeyOf(ref, ContentOf, w);
    }
  }

  /** The three buckets of fuzzy-join distances (redcap.py:253-256). */
  predicate IsSameName(d: real) { d == 0.0 }
  predicate IsRenamed(d: real) { d > 0.0 && d < 1.0 }
  predicate IsAdded(d: real) { d >= 1.0 }

  /** Every non-negative distance falls in exactly one bucket. */
  lemma BucketsExclusive(d: real)
    requires d >= 0.0
    ensures IsSameName(d) || IsRenamed(d) || IsAdded(d)
    ensures !(IsSameName(d) && IsRenamed(d)) && !(IsSameName(d) && IsAdded(d))
      && !(IsRenamed(d) && IsAdded(d))
  {
  }

  /** What the fuzzy join of redcap.py:247-252 attaches to one nonidentical
      row: the closest reference variable by name (None when the reference
      has no rows) and the distance `skrub_Joiner_distance` between the
      names. How skrub finds it is not part of this model; that it is a
      reference row is the precondition `MatchesFromReference`. */
  datatype FuzzyMatch = FuzzyMatch(closest: Option<Variable>, distance: real)

  /** One row of `out1`: a nonidentical current variable joined with its
      closest reference variable and the match distance. */
  datatype FuzzyRow = FuzzyRow(current: Variable, closest: Option<Variable>, distance: real)

  function FuzzyRowOf(matchOf: Variable -> FuzzyMatch): Variable -> FuzzyRow {
    v => FuzzyRow(v, matchOf(v).closest, matchOf(v).distance)
  }

  /** `out1`: with `drop_unmatched = False`, one joined row per input row, in order. */
  function FuzzyJoin(rows: seq<Variable>, matchOf: Variable -> FuzzyMatch): (r: seq<FuzzyRow>)
    ensures |r| == |rows|
    ensures forall i :: 0 <= i < |rows| ==>
      r[i].current == rows[i] && r[i].closest == matchOf(rows[i]).closest && r[i].distance == matchOf(rows[i]).distance
  {
    Map(rows, FuzzyRowOf(matchOf))
  }

  /** A row of `out1` is the joined row of one of its input rows, and every
      input row has its joined row there. */
  lemma FuzzyJoinMembers(rows: seq<Variable>, matchOf: Variable -> FuzzyMatch)
    ensures forall x: FuzzyRow :: x in FuzzyJoin(rows, matchOf) <==> x.current in rows && x == FuzzyRowOf(matchOf)(x.current)
  {
    var r := FuzzyJoin(rows, matchOf);
    forall x | x in r
      ensures x.current in rows && x == FuzzyRowOf(matchOf)(x.current)
    {
      var i :| 0 <= i < |r| && r[i] == x;
    }
    forall x: FuzzyRow | x.current in rows && x == FuzzyRowOf(matchOf)(x.current)
      ensures x in r
    {
      MapMember(rows, FuzzyRowOf(matchOf), x.current);
    }
  }

  const SameNameTest: FuzzyRow -> bool := (x: FuzzyRow) => IsSameName(x.distance)
  const RenamedTest: FuzzyRow -> bool := (x: FuzzyRow) => IsRenamed(x.distance)
  const AddedTest: FuzzyRow -> bool := (x: FuzzyRow) => IsAdded(x.distance)

  datatype Buckets = Buckets(sameName: seq<FuzzyRow>, renamed: seq<FuzzyRow>, added: seq<FuzzyRow>)

  /** `same_name`, `renamed` and `added`: the rows of `out1` bucketed by
      their match distance, each row keeping its closest reference variable. */
  function BucketRows(rows: seq<FuzzyRow>): (b: Buckets)
    requires forall x :: x in rows ==> x.distance >= 0.0
    ensures forall x :: x in b.sameName <==> x in rows && IsSameName(x.distance)
    ensures forall x :: x in b.renamed <==> x in rows && IsRenamed(x.distance)
    ensures forall x :: x in b.added <==> x in rows && IsAdded(x.distance)
    ensures multiset(b.sameName) + multiset(b.renamed) + multiset(b.added) == multiset(rows)
  {
    BucketsCover(rows);
    Buckets(Filter(rows, SameNameTest), Filter(rows, RenamedTest), Filter(rows, AddedTest))
  }

  lemma BucketsCover(rows: seq<FuzzyRow>)
    requires forall x :: x in rows ==> x.distance >= 0.0
    ensures multiset(Filter(rows, SameNameTest)) + multiset(Filter(rows, RenamedTest))
          + multiset(Filter(rows, AddedTest)) == multiset(rows)
  {
    forall x | x in rows
      ensures IsSameName(x.distance) || IsRenamed(x.distance) || IsAdded(x.distance)
    {
      BucketsExclusive(x.distance);
    }
    FilterPartition3(rows, SameNameTest, RenamedTest, AddedTest);
  }

  /** What `detectIdenticalVariables` (redcap.py:224-258) returns, minus the
      per-form `groupby` tally `sum`: `identical`, `same_name`, `renamed` and
      `added`. A component is None where that function leaves it None. */
  datatype IdenticalReport = IdenticalReport(
    identical: Option<seq<(Variable, Variable)>>,
    sameName: Option<seq<FuzzyRow>>,
    renamed: Option<seq<FuzzyRow>>,
    added: Option<seq<FuzzyRow>>)

  /** No current row is left nonidentical exactly when every row has a twin. */
  lemma NonidenticalEmptyIff(cur: seq<Variable>, ref: seq<Variable>)
    ensures |Filter(cur, Not(Twinned(ref)))| == 0 <==> forall v :: v in cur ==> HasTwin(ref, v)
  {
    var f := Filter(cur, Not(Twinned(ref)));
    if |f| > 0 {
      assert f[0] in f;
    }
  }

  /** Match distances are never negative. */
  predicate NonNegativeDistances(cur: seq<Variable>, matchOf: Variable -> FuzzyMatch) {
    forall v :: v in cur ==> matchOf(v).distance >= 0.0
  }

  /** The join's right-hand columns come from the reference table
      (`right = df2`, redcap.py:247-252): a matched row is a reference row,
      and a current row goes unmatched only when the reference is empty. */
  predicate MatchesFromReference(cur: seq<Variable>, ref: seq<Variable>, matchOf: Variable -> FuzzyMatch) {
    forall v :: v in cur ==>
      (matchOf(v).closest.Some? ==> matchOf(v).closest.value in ref)
      && (matchOf(v).closest.None? ==> |ref| == 0)
  }

  /** The buckets of the nonidentical rows of `cur`. */
  function BucketNonidentical(cur: seq<Variable>, ref: seq<Variable>, matchOf: Variable -> FuzzyMatch): (b: Buckets)
    requires NonNegativeDistances(cur, matchOf)
    ensures multiset(b.sameName) + multiset(b.renamed) + multiset(b.added)
      == multiset(FuzzyJoin(Filter(cur, Not(Twinned(ref))), matchOf))
    ensures forall v :: v in cur && !HasTwin(ref, v) ==>
      && (FuzzyRowOf(matchOf)(v) in b.sameName <==> IsSameName(matchOf(v).distance))
      && (FuzzyRowOf(matchOf)(v) in b.renamed <==> IsRenamed(matchOf(v).distance))
      && (FuzzyRowOf(matchOf)(v) in b.added <==> IsAdded(matchOf(v).distance))
    ensures forall x :: x in b.sameName ==> x.current in cur && !HasTwin(ref, x.current) && x == FuzzyRowOf(matchOf)(x.current)
    ensures forall x :: x in b.renamed ==> x.current in cur && !HasTwin(ref, x.current) && x == FuzzyRowOf(matchOf)(x.current)
    ensures forall x :: x in b.added ==> x.current in cur && !HasTwin(ref, x.current) && x == FuzzyRowOf(matchOf)(x.current)
  {
    var rows := Filter(cur, Not(Twinned(ref)));
    FuzzyJoinMembers(rows, matchOf);
    BucketRows(FuzzyJoin(rows, matchOf))
  }

  /** The error Python raises when a local is read before any assignment. */
  datatype PyError = UnboundLocalError(variable: string)

  /** `detectIdenticalVariables` as written: `same_name`, `renamed` and
      `added` are assigned only inside the two `if` blocks, so the `return`
      raises whenever the merge is empty or no row is left nonidentical. */
  function DetectIdenticalAsWritten(cur: seq<Variable>, ref: seq<Variable>, matchOf: Variable -> FuzzyMatch)
    : (r: Result<IdenticalReport, PyError>)
    requires NonNegativeDistances(cur, matchOf) && MatchesFromReference(cur, ref, matchOf)
    ensures r.Failure? <==> forall v :: v in cur ==> HasTwin(ref, v)
  {
    NonidenticalEmptyIff(cur, ref);
    if |OuterJoin(cur, ref, ContentOf)| == 0 then Failure(UnboundLocalError("same_name"))
    else
      var s := SplitIdentical(cur, ref);
      if |s.nonidentical| == 0 then Failure(UnboundLocalError("same_name"))
      else
        var b := BucketNonidentical(cur, ref, matchOf);
        Success(IdenticalReport(Some(s.identical), Some(b.sameName), Some(b.renamed), Some(b.added)))
  }

  /** Comparing a dictionary with itself makes redcap.py:258 raise. */
  lemma SelfComparisonRaises(cur: seq<Variable>, matchOf: Variable -> FuzzyMatch)
    requires NonNegativeDistances(cur, matchOf) && MatchesFromReference(cur, cur, matchOf)
    ensures DetectIdenticalAsWritten(cur, cur, matchOf).Failure?
  {
    forall v | v in cur
      ensures HasTwin(cur, v)
    {
      HasKeyOf(cur, ContentOf, v);
    }
  }

  /** `detectIdenticalVariables` with the buckets initialised to None like
      the other results: it always returns; the identical pairs are present
      when either dictionary has rows, and the three buckets,
      each row with its closest reference variable, exactly when some
      current row is nonidentical. */
  function DetectIdenticalVariables(cur: seq<Variable>, ref: seq<Variable>, matchOf: Variable -> FuzzyMatch)
    : (r: IdenticalReport)
    requires NonNegativeDistances(cur, matchOf) && MatchesFromReference(cur, ref, matchOf)
    ensures r.identical.Some? <==> |cur| > 0 || |ref| > 0
    ensures r.identical.Some? ==> forall v, w :: (v, w) in r.identical.value <==>
      v in cur && w in ref && ContentOf(v) == ContentOf(w)
    ensures r.sameName.Some? <==> exists v :: v in cur && !HasTwin(ref, v)
    ensures r.renamed.Some? <==> r.sameName.Some?
    ensures r.added.Some? <==> r.sameName.Some?
    ensures r.sameName.Some? ==>
      multiset(r.sameName.value) + multiset(r.renamed.value) + multiset(r.added.value)
      == multiset(FuzzyJoin(Filter(cur, Not(Twinned(ref))), matchOf))
    ensures r.sameName.Some? ==> forall v :: v in cur && !HasTwin(ref, v) ==>
      && (FuzzyRowOf(matchOf)(v) in r.sameName.value <==> IsSameName(matchOf(v).distance))
      && (FuzzyRowOf(matchOf)(v) in r.renamed.value <==> IsRenamed(matchOf(v).distance))
      && (FuzzyRowOf(matchOf)(v) in r.added.value <==> IsAdded(matchOf(v).distance))
    ensures r.sameName.Some? ==> forall x :: x in r.sameName.value ==>
      x.current in cur && !HasTwin(ref, x.current) && x == FuzzyRowOf(matchOf)(x.current)
      && (x.closest.Some? ==> x.closest.value in ref) && (x.closest.None? ==> |ref| == 0)
    ensures r.renamed.Some? ==> forall x :: x in r.renamed.value ==>
      x.current in cur && !HasTwin(ref, x.current) && x == FuzzyRowOf(matchOf)(x.current)
      && (x.closest.Some? ==> x.closest.value in ref) && (x.closest.None? ==> |ref| == 0)
    ensures r.added.Some? ==> forall x :: x in r.added.value ==>
      x.current in cur && !HasTwin(ref, x.current) && x == FuzzyRowOf(matchOf)(x.current)
      && (x.closest.Some? ==> x.closest.value in ref) && (x.closest.None? ==> |ref| == 0)
  {
    NonidenticalEmptyIff(cur, ref);
    if |OuterJoin(cur, ref, ContentOf)| == 0 then IdenticalReport(None, None, None, None)
    else
      var s := SplitIdentical(cur, ref);
      if |s.nonidentical| == 0 then IdenticalReport(Some(s.identical), None, None, None)
      else
        var b := BucketNonidentical(cur, ref, matchOf);
        IdenticalReport(Some(s.identical), Some(b.sameName), Some(b.renamed), Some(b.added))
  }

  /** Wherever redcap.py:224-258 returns, the corrected function returns the same. */
  lemma DetectIdenticalAgrees(cur: seq<Variable>, ref: seq<Variable>, matchOf: Variable -> FuzzyMatch)
    requires NonNegativeDistances(cur, matchOf) && MatchesFromReference(cur, ref, matchOf)
    ensures DetectIdenticalAsWritten(cur, ref, matchOf).Success? ==>
      DetectIdenticalAsWritten(cur, ref, matchOf).value == DetectIdenticalVariables(cur, ref, matchOf)
  {
  }

  /** Self-comparison: every row is identical, nothing is left to bucket. */
  lemma SelfComparisonIdentical(cur: seq<Variable>, matchOf: Variable -> FuzzyMatch)
    requires |cur| > 0
    requires NonNegativeDistances(cur, matchOf) && MatchesFromReference(cur, cur, matchOf)
    ensures DetectIdenticalVariables(cur, cur, matchOf).identical.Some?
    ensures forall v :: v in cur ==> (v, v) in DetectIdenticalVariables(cur, cur, matchOf).identical.value
    ensures SplitIdentical(cur, cur).nonidentical == []
    ensures DetectIdenticalVariables(cur, cur, matchOf).sameName.None?
    ensures DetectIdenticalVariables(cur, cur, matchOf).renamed.None?
    ensures DetectIdenticalVariables(cur, cur, matchOf).added.None?
  {
    forall v | v in cur
      ensures HasTwin(cur, v)
    {
      HasKeyOf(cur, ContentOf, v);
    }
  }

  // ----- detectDeletedVariables (redcap.py:338-357) -----

  /** The columns kept for a reported variable. */
  datatype DeletedVariable = DeletedVariable(row: int, name: string, vtype: Option<string>, fieldLabel: Option<string>)

  function DeletedOf(v: Variable): DeletedVariable {
    DeletedVariable(v.row, v.name, v.vtype, v.fieldLabel)
  }

  /** `type_x` of a joined row: the current side's type, NaN on a right-only row. */
  function CurType(j: JoinRow<Variable>): Option<string> {
    if j.RightOnly? then None else j.left.vtype
  }

  /** `type_y` of a joined row: the reference side's type, NaN on a left-only row. */
  function RefType(j: JoinRow<Variable>): Option<string> {
    if j.LeftOnly? then None else j.right.vtype
  }

  predicate IsDeletedRow(j: JoinRow<Variable>) {
    CurType(j).Some? && RefType(j).None?
  }

  function DeletedRows(js: seq<JoinRow<Variable>>): (r: seq<DeletedVariable>)
    ensures forall d :: d in r <==> exists j :: j in js && IsDeletedRow(j) && d == DeletedOf(j.left)
  {
    if |js| == 0 then []
    else
      assert forall j :: j in js <==> j == js[0] || j in js[1..];
      (if IsDeletedRow(js[0]) then [DeletedOf(js[0].left)] else []) + DeletedRows(js[1..])
  }

  /** A current variable the filter keeps: it has a type, and its name is
      either absent from the reference or held there by an untyped row. */
  predicate IsDeletedVariable(v: Variable, ref: seq<Variable>) {
    v.vtype.Some?
    && (!HasKey(ref, NameOf, v.name) || exists i :: 0 <= i < |ref| && ref[i].name == v.name && ref[i].vtype.None?)
  }

  /** The key filter of `detectDeletedVariables`: an outer merge on the
      variable name keeping the rows with a current type and no reference
      type; None when no row survives. */
  function DetectDeletedVariables(cur: seq<Variable>, ref: seq<Variable>): (r: Option<seq<DeletedVariable>>)
    ensures forall v :: v in cur ==> (Reported(r, DeletedOf(v)) <==> IsDeletedVariable(v, ref))
    ensures forall d :: Reported(r, d) ==> exists v :: v in cur && IsDeletedVariable(v, ref) && d == DeletedOf(v)
    ensures r.None? <==> forall v :: v in cur ==> !IsDeletedVariable(v, ref)
  {
    DeletedRowsMeaning(cur, ref);
    NonEmpty(DeletedRows(OuterJoin(cur, ref, NameOf)))
  }

  lemma DeletedRowsMeaning(cur: seq<Variable>, ref: seq<Variable>)
    ensures forall v :: v in cur ==> (DeletedOf(v) in DeletedRows(OuterJoin(cur, ref, NameOf)) <==> IsDeletedVariable(v, ref))
    ensures forall d :: d in DeletedRows(OuterJoin(cur, ref, NameOf)) ==>
      exists v :: v in cur && IsDeletedVariable(v, ref) && d == DeletedOf(v)
    ensures |DeletedRows(OuterJoin(cur, ref, NameOf))| == 0 <==> forall v :: v in cur ==> !IsDeletedVariable(v, ref)
  {
    var js := OuterJoin(cur, ref, NameOf);
    var rows := DeletedRows(js);
    forall v | v in cur && IsDeletedVariable(v, ref)
      ensures DeletedOf(v) in rows
    {
      if HasKey(ref, NameOf, v.name) {
        var i :| 0 <= i < |ref| && ref[i].name == v.name && ref[i].vtype.None?;
        assert ref[i] in ref;
        assert Both(v, ref[i]) in js;
        assert IsDeletedRow(Both(v, ref[i]));
      } else {
        assert LeftOnly(v) in js;
      }
    }
    forall d | d in rows
      ensures exists v :: v in cur && IsDeletedVariable(v, ref) && d == DeletedOf(v)
    {
      var j :| j in js && IsDeletedRow(j) && d == DeletedOf(j.left);
      if j.Both? {
        assert j.right in ref;
        assert Both(j.left, j.right) in js;
        assert j.left in cur && IsDeletedVariable(j.left, ref);
      } else {
        assert LeftOnly(j.left) in js;
        assert j.left in cur && IsDeletedVariable(j.left, ref);
      }
    }
    forall v | v in cur && DeletedOf(v) in rows
      ensures IsDeletedVariable(v, ref)
    {
      var w :| w in cur && IsDeletedVariable(w, ref) && DeletedOf(v) == DeletedOf(w);
    }
    if |rows| > 0 {
      assert rows[0] in rows;
    }
  }

  /** When every reference row has a type (REDCap requires a field type),
      the filter reports exactly the typed current variables whose name the
      reference does not have. */
  lemma DeletedWhenReferenceTyped(cur: seq<Variable>, ref: seq<Variable>, v: Variable)
    requires forall i :: 0 <= i < |ref| ==> ref[i].vtype.Some?
    requires v in cur
    ensures Reported(DetectDeletedVariables(cur, ref), DeletedOf(v)) <==> v.vtype.Some? && !HasKey(ref, NameOf, v.name)
  {
  }
}
