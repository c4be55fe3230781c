/** The two count-comparison messages of the REDCap comparator:
    `print_n_diff_in_forms` (redcap.py:73-84), which reports how many
    variables a form gained or lost, and `compareNumForms`
    (redcap.py:193-203), which compares the number of forms. */
module CountMessages {
  import opened Wrappers
  import opened Decimal
  import opened Seqs

  const SameVariables := "Same number of variables"
  const AddedSuffix := " Variables added"
  const DeletedSuffix := " Variables deleted"

  const IncreasedPrefix := "Increased number of forms: "
  const DecreasedPrefix := "Decreased number of forms: "
  const SamePrefix := "Same number of forms: "

  predicate EndsWith(s: string, t: string) {
    |t| <= |s| && s[|s| - |t|..] == t
  }

  /** The third character from the end tells the three message shapes apart:
      'l' in "variables", 'd' in "added", 't' in "deleted". */
  lemma EndsWithThirdLast(s: string, t: string)
    requires EndsWith(s, t) && |t| >= 3
    ensures s[|s| - 3] == t[|t| - 3]
  {
    assert s[|s| - |t|..][|t| - 3] == s[|s| - 3];
  }

  function Abs(n: int): nat {
    if n < 0 then -n else n
  }

  /** The message text for a change `d` in the number of variables. */
  function RenderChange(d: int): string {
    if d == 0 then SameVariables
    else if d > 0 then NatToString(d) + AddedSuffix
    else NatToString(Abs(d)) + DeletedSuffix
  }

  /** Each message shape is produced by exactly one sign of the change. */
  lemma RenderChangeShapes(d: int)
    ensures RenderChange(d) == SameVariables <==> d == 0
    ensures EndsWith(RenderChange(d), AddedSuffix) <==> d > 0
    ensures EndsWith(RenderChange(d), DeletedSuffix) <==> d < 0
  {
    var s := RenderChange(d);
    assert SameVariables[|SameVariables| - 3] == 'l';
    assert AddedSuffix[|AddedSuffix| - 3] == 'd';
    assert DeletedSuffix[|DeletedSuffix| - 3] == 't';
    if d > 0 {
      assert s[|s| - |AddedSuffix|..] == AddedSuffix;
      EndsWithThirdLast(s, AddedSuffix);
    } else if d < 0 {
      assert s[|s| - |DeletedSuffix|..] == DeletedSuffix;
      EndsWithThirdLast(s, DeletedSuffix);
    }
    if EndsWith(s, AddedSuffix) {
      EndsWithThirdLast(s, AddedSuffix);
    }
    if EndsWith(s, DeletedSuffix) {
      EndsWithThirdLast(s, DeletedSuffix);
    }
  }

  /** `print_n_diff_in_forms`: the change `N - N0` in the number of variables. */
  function DiffMessage(n: int, n0: int): (s: string)
    ensures s == SameVariables <==> n == n0
    ensures EndsWith(s, AddedSuffix) <==> n > n0
    ensures EndsWith(s, DeletedSuffix) <==> n < n0
  {
    RenderChangeShapes(n - n0);
    RenderChange(n - n0)
  }

  /** Recovers the change `N - N0` from a message, or None for any other text. */
  function ReadDiffMessage(s: string): Option<int> {
    if s == SameVariables then Some(0)
    else if EndsWith(s, AddedSuffix) then
      match ParseNat(s[..|s| - |AddedSuffix|])
      case Some(k) => Some(k as int)
      case None => None
    else if EndsWith(s, DeletedSuffix) then
      match ParseNat(s[..|s| - |DeletedSuffix|])
      case Some(k) => Some(0 - k as int)
      case None => None
    else None
  }

  /** The message determines the change it reports: reading it back gives
      exactly `N - N0`. */
  lemma ReadDiffMessageRoundTrip(n: int, n0: int)
    ensures ReadDiffMessage(DiffMessage(n, n0)) == Some(n - n0)
  {
    var d := n - n0;
    var s := DiffMessage(n, n0);
    if d > 0 {
      assert s[..|s| - |AddedSuffix|] == NatToString(d);
      ParseNatToString(d);
    } else if d < 0 {
      assert s[..|s| - |DeletedSuffix|] == NatToString(-d);
      ParseNatToString(-d);
    }
  }

  /** Messages with different changes differ. */
  lemma DiffMessageInjective(n: int, n0: int, m: int, m0: int)
    requires DiffMessage(n, n0) == DiffMessage(m, m0)
    ensures n - n0 == m - m0
  {
    ReadDiffMessageRoundTrip(n, n0);
    ReadDiffMessageRoundTrip(m, m0);
  }

  /** `compareNumForms`: the current number of forms against the reference's. */
  function CompareNumForms(n: nat, n0: nat): (s: string)
    ensures IncreasedPrefix <= s <==> n > n0
    ensures DecreasedPrefix <= s <==> n < n0
    ensures SamePrefix <= s <==> n == n0
  {
    var s := if n > n0 then IncreasedPrefix + NatToString(n) + " vs. " + NatToString(n0)
      else if n < n0 then DecreasedPrefix + NatToString(n) + " vs. " + NatToString(n0)
      else SamePrefix + NatToString(n);
    assert s[0] == (if n > n0 then 'I' else if n < n0 then 'D' else 'S');
    s
  }

  /** Recovers the two form counts from a `compareNumForms` message, or None
      for any other text. */
  function ReadFormCounts(s: string): Option<(nat, nat)> {
    if SamePrefix <= s then
      match ParseNat(s[|SamePrefix|..])
      case Some(n) => Some((n, n))
      case None => None
    else if IncreasedPrefix <= s || DecreasedPrefix <= s then
      match SplitAtFirst(s[|IncreasedPrefix|..], ' ')
      case None => None
      case Some((first, rest)) =>
        if "vs. " <= rest then
          match (ParseNat(first), ParseNat(rest[4..]))
          case (Some(n), Some(n0)) => Some((n, n0))
          case _ => None
        else None
    else None
  }

  /** The message determines both counts: reading it back gives the current
      and the reference number of forms. */
  lemma ReadFormCountsRoundTrip(n: nat, n0: nat)
    ensures ReadFormCounts(CompareNumForms(n, n0)) == Some((n, n0))
  {
    var s := CompareNumForms(n, n0);
    if n == n0 {
      assert s[|SamePrefix|..] == NatToString(n);
      ParseNatToString(n);
    } else {
      var tail := NatToString(n) + " vs. " + NatToString(n0);
      assert s[|IncreasedPrefix|..] == tail;
      assert tail == NatToString(n) + [' '] + ("vs. " + NatToString(n0));
      assert ' ' !in NatToString(n);
      SplitAtFirstOf(NatToString(n), ' ', "vs. " + NatToString(n0));
      assert ("vs. " + NatToString(n0))[4..] == NatToString(n0);
      ParseNatToString(n);
      ParseNatToString(n0);
    }
  }
}
