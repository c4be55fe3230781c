/** Label and type changes between variables of the same name
    (`detectModifiedLabels`, redcap.py:383-423, and `detectModifiedTypes`,
    redcap.py:425-448): an inner merge on the variable name, a normalised
    edit distance per matched pair, and threshold filters on it. */
module Modifications {
  import opened Wrappers
  import opened Seqs
  import opened Joins
  import opened EditDistance
  import opened DataDictionary

  /** The threshold separating minor from major label changes. */
  const MajorThreshold: real := 0.2

  /** A matched pair as the label report shows it. */
  datatype LabelChange = LabelChange(name: string, row1: int, label1: Option<string>, row2: int, label2: Option<string>)

  /** A matched pair as the type report shows it. */
  datatype TypeChange = TypeChange(name: string, row1: int, type1: Option<string>, row2: int, type2: Option<string>)

  function LabelChangeOf(p: (Variable, Variable)): LabelChange {
    LabelChange(p.0.name, p.0.row, p.0.fieldLabel, p.1.row, p.1.fieldLabel)
  }

  function TypeChangeOf(p: (Variable, Variable)): TypeChange {
    TypeChange(p.0.name, p.0.row, p.0.vtype, p.1.row, p.1.vtype)
  }

  /** Every pair of same-name variables, current first. */
  function NamePairs(cur: seq<Variable>, ref: seq<Variable>): seq<(Variable, Variable)> {
    InnerJoin(cur, ref, NameOf)
  }

  /** `label_x.notnull() & edit_distance > 0.2` */
  predicate IsMajor(c: LabelChange) {
    c.label1.Some? && Distance(c.label1, c.label2) > MajorThreshold
  }

  /** `label_x.notnull() & edit_distance > 0 & edit_distance <= 0.2` */
  predicate IsMinor(c: LabelChange) {
    c.label1.Some? && 0.0 < Distance(c.label1, c.label2) <= MajorThreshold
  }

  /** `type_x.notnull() & edit_distance > 0` */
  predicate IsTypeChange(t: TypeChange) {
    t.type1.Some? && Distance(t.type1, t.type2) > 0.0
  }

  const MajorTest: LabelChange -> bool := (c: LabelChange) => IsMajor(c)
  const MinorTest: LabelChange -> bool := (c: LabelChange) => IsMinor(c)
  const TypeChangeTest: TypeChange -> bool := (t: TypeChange) => IsTypeChange(t)

  /** The two label reports; each is None when it has no row. */
  datatype LabelReport = LabelReport(major: Option<seq<LabelChange>>, minor: Option<seq<LabelChange>>)

  /** `detectModifiedLabels`: a pair is reported as major or as minor
      according to the distance between its labels, and never as both. */
  function DetectModifiedLabels(cur: seq<Variable>, ref: seq<Variable>): (r: LabelReport)
    ensures forall x, y :: x in cur && y in ref && x.name == y.name ==>
      (Reported(r.major, LabelChangeOf((x, y))) <==> IsMajor(LabelChangeOf((x, y))))
      && (Reported(r.minor, LabelChangeOf((x, y))) <==> IsMinor(LabelChangeOf((x, y))))
    ensures forall c :: Reported(r.major, c) ==> IsMajor(c) && c in Map(NamePairs(cur, ref), LabelChangeOf)
    ensures forall c :: Reported(r.minor, c) ==> IsMinor(c) && c in Map(NamePairs(cur, ref), LabelChangeOf)
    ensures forall c :: !(Reported(r.major, c) && Reported(r.minor, c))
    ensures r.major.None? <==> forall x, y :: x in cur && y in ref && x.name == y.name ==> !IsMajor(LabelChangeOf((x, y)))
    ensures r.minor.None? <==> forall x, y :: x in cur && y in ref && x.name == y.name ==> !IsMinor(LabelChangeOf((x, y)))
  {
    var cands := Map(NamePairs(cur, ref), LabelChangeOf);
    CandidatesCover(cur, ref, cands);
    PairFilterEmptyIff(cur, ref, LabelChangeOf, MajorTest);
    PairFilterEmptyIff(cur, ref, LabelChangeOf, MinorTest);
    LabelReport(NonEmpty(Filter(cands, MajorTest)), NonEmpty(Filter(cands, MinorTest)))
  }

  lemma CandidatesCover(cur: seq<Variable>, ref: seq<Variable>, cands: seq<LabelChange>)
    requires cands == Map(NamePairs(cur, ref), LabelChangeOf)
    ensures forall x, y :: x in cur && y in ref && x.name == y.name ==> LabelChangeOf((x, y)) in cands
  {
    forall x, y | x in cur && y in ref && x.name == y.name
      ensures LabelChangeOf((x, y)) in cands
    {
      MapMember(NamePairs(cur, ref), LabelChangeOf, (x, y));
    }
  }

  /** A filter of the per-pair records is empty exactly when no same-name
      pair passes it: the `None` rule of both reports. */
  lemma PairFilterEmptyIff<C(!new)>(cur: seq<Variable>, ref: seq<Variable>, f: ((Variable, Variable)) -> C, p: C -> bool)
    ensures |Filter(Map(NamePairs(cur, ref), f), p)| == 0 <==>
      forall x, y :: x in cur && y in ref && x.name == y.name ==> !p(f((x, y)))
  {
    var kept := Filter(Map(NamePairs(cur, ref), f), p);
    if |kept| > 0 {
      assert kept[0] in kept;
      MapPreimage(NamePairs(cur, ref), f, kept[0]);
      var q :| q in NamePairs(cur, ref) && f(q) == kept[0];
      assert q == (q.0, q.1);
    }
    forall x, y | x in cur && y in ref && x.name == y.name && p(f((x, y)))
      ensures f((x, y)) in kept
    {
      MapMember(NamePairs(cur, ref), f, (x, y));
    }
  }

  /** `detectModifiedTypes`: a pair is reported exactly when its current
      type is present and its distance to the reference type is positive. */
  function DetectModifiedTypes(cur: seq<Variable>, ref: seq<Variable>): (r: Option<seq<TypeChange>>)
    ensures forall x, y :: x in cur && y in ref && x.name == y.name ==>
      (Reported(r, TypeChangeOf((x, y))) <==> IsTypeChange(TypeChangeOf((x, y))))
    ensures forall t :: Reported(r, t) ==> IsTypeChange(t) && t in Map(NamePairs(cur, ref), TypeChangeOf)
    ensures r.None? <==> forall x, y :: x in cur && y in ref && x.name == y.name ==> !IsTypeChange(TypeChangeOf((x, y)))
  {
    var cands := Map(NamePairs(cur, ref), TypeChangeOf);
    TypeCandidatesCover(cur, ref, cands);
    PairFilterEmptyIff(cur, ref, TypeChangeOf, TypeChangeTest);
    NonEmpty(Filter(cands, TypeChangeTest))
  }

  lemma TypeCandidatesCover(cur: seq<Variable>, ref: seq<Variable>, cands: seq<TypeChange>)
    requires cands == Map(NamePairs(cur, ref), TypeChangeOf)
    ensures forall x, y :: x in cur && y in ref && x.name == y.name ==> TypeChangeOf((x, y)) in cands
  {
    forall x, y | x in cur && y in ref && x.name == y.name
      ensures TypeChangeOf((x, y)) in cands
    {
      MapMember(NamePairs(cur, ref), TypeChangeOf, (x, y));
    }
  }

  /** Tiering: a pair with a current label is exactly one of unchanged
      (distance 0), minor or major; a pair without one is neither. */
  lemma LabelTiers(c: LabelChange)
    ensures !(IsMajor(c) && IsMinor(c))
    ensures c.label1.None? ==> !IsMajor(c) && !IsMinor(c)
    ensures c.label1.Some? ==> IsMajor(c) || IsMinor(c) || Distance(c.label1, c.label2) == 0.0
    ensures Distance(c.label1, c.label2) == 0.0 ==> !IsMajor(c) && !IsMinor(c)
  {
  }

  /** A pair is reported in one of the two tiers exactly when its current
      label is present and differs from the reference label, or both labels
      are the empty string (the 1.0 fallback). */
  lemma LabelReportedIff(c: LabelChange)
    ensures IsMajor(c) || IsMinor(c) <==>
      c.label1.Some? && (c.label1 != c.label2 || c.label1 == Some(""))
  {
    if c.label1.Some? && c.label1 == c.label2 && c.label1 == Some("") {
      DistanceFallback(c.label1, c.label2);
    }
  }

  /** A missing reference label gives the fallback distance 1.0: major. */
  lemma MissingReferenceLabelIsMajor(c: LabelChange)
    requires c.label1.Some? && c.label2.None?
    ensures IsMajor(c)
  {
    DistanceFallback(c.label1, c.label2);
  }

  /** The boundary is inclusive on the minor side: one substituted
      character in five, in any position, is distance exactly 0.2, a minor
      change. */
  lemma OneEditInFiveIsMinor(name: string, row1: int, row2: int, a: string, x: char, y: char, b: string)
    requires |a| + |b| == 4 && x != y
    ensures IsMinor(LabelChange(name, row1, Some(a + [x] + b), row2, Some(a + [y] + b)))
    ensures !IsMajor(LabelChange(name, row1, Some(a + [x] + b), row2, Some(a + [y] + b)))
  {
    DistanceOneInFive(a, x, y, b);
  }

  /** A type change is reported exactly when the current type is present and
      differs from the reference type, or both are the empty string. */
  lemma TypeChangeIff(t: TypeChange)
    ensures IsTypeChange(t) <==> t.type1.Some? && (t.type1 != t.type2 || t.type1 == Some(""))
  {
    if t.type1.Some? && t.type1 == t.type2 && t.type1 == Some("") {
      DistanceFallback(t.type1, t.type2);
    }
  }

  /** Variable names are unique within the dictionary. */
  predicate UniqueNames(vars: seq<Variable>) {
    forall i, j :: 0 <= i < |vars| && 0 <= j < |vars| && vars[i].name == vars[j].name ==> i == j
  }

  /** Comparing a dictionary with unique names and no empty-string labels or
      types against itself reports no label and no type change. */
  lemma SelfComparisonUnchanged(cur: seq<Variable>)
    requires UniqueNames(cur)
    requires forall v :: v in cur ==> v.fieldLabel != Some("") && v.vtype != Some("")
    ensures DetectModifiedLabels(cur, cur) == LabelReport(None, None)
    ensures DetectModifiedTypes(cur, cur) == None
  {
    var r := DetectModifiedLabels(cur, cur);
    var t := DetectModifiedTypes(cur, cur);
    forall c | c in Map(NamePairs(cur, cur), LabelChangeOf)
      ensures !IsMajor(c) && !IsMinor(c)
    {
      MapPreimage(NamePairs(cur, cur), LabelChangeOf, c);
      var p :| p in NamePairs(cur, cur) && LabelChangeOf(p) == c;
      SameNameSameRow(cur, p.0, p.1);
      LabelReportedIff(c);
    }
    forall c | c in Map(NamePairs(cur, cur), TypeChangeOf)
      ensures !IsTypeChange(c)
    {
      MapPreimage(NamePairs(cur, cur), TypeChangeOf, c);
      var p :| p in NamePairs(cur, cur) && TypeChangeOf(p) == c;
      SameNameSameRow(cur, p.0, p.1);
      TypeChangeIff(c);
    }
  }

  lemma SameNameSameRow(vars: seq<Variable>, x: Variable, y: Variable)
    requires UniqueNames(vars) && x in vars && y in vars && x.name == y.name
    ensures x == y
  {
    var i :| 0 <= i < |vars| && vars[i] == x;
    var j :| 0 <= j < |vars| && vars[j] == y;
  }
}
