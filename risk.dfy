/**
 * The risk dashboard's view of a clause list: the four summary counts and the
 * severity shown beside each clause. A clause is the parsed JSON record
 * `{clause_id, clause_text, risk: {severity, reasoning, regulatory_reference}}`;
 * every key may be absent, which `Option` records.
 */
module Risk {
  import opened Wrappers
  import opened Text

  datatype Assessment = Assessment(severity: Option<string>, reasoning: Option<string>, regulatoryReference: Option<string>)

  datatype Clause = Clause(clauseId: Option<string>, clauseText: Option<string>, risk: Option<Assessment>)

  /** The four metric cards: total clauses, then high, medium and low risk. */
  datatype RiskSummary = RiskSummary(total: nat, high: nat, medium: nat, low: nat)

  /** `c.get("risk", {}).get("severity", default)`: a missing `risk` or `severity` yields `default`. */
  function SeverityOr(c: Clause, default: string): string
  {
    match c.risk
    case None => default
    case Some(a) => a.severity.GetOr(default)
  }

  /** The severity key the counts compare against: lower-cased, `""` when missing. */
  function SeverityKey(c: Clause): string
  {
    Lower(SeverityOr(c, ""))
  }

  /** `sum(1 for c in clauses if <severity key> == level)`. */
  function Count(clauses: seq<Clause>, level: string): nat
  {
    if clauses == [] then 0
    else (if SeverityKey(clauses[0]) == level then 1 else 0) + Count(clauses[1..], level)
  }

  lemma {:induction false} CountAppend(a: seq<Clause>, b: seq<Clause>, level: string)
    ensures Count(a + b, level) == Count(a, level) + Count(b, level)
  {
    if a == [] {
      assert a + b == b;
    } else {
      assert (a + b)[1..] == a[1..] + b;
      CountAppend(a[1..], b, level);
    }
  }

  /** Every clause lands in at most one bucket, so the buckets never add up past the total. */
  lemma {:induction false} BucketsBounded(clauses: seq<Clause>)
    ensures Count(clauses, "high") + Count(clauses, "medium") + Count(clauses, "low") <= |clauses|
  {
    if clauses != [] {
      BucketsBounded(clauses[1..]);
    }
  }

  /** The risk overview's counts (total, high, medium, low). */
  function Summarize(clauses: seq<Clause>): (r: RiskSummary)
    ensures r.total == |clauses|
    ensures r.high + r.medium + r.low <= r.total
  {
    BucketsBounded(clauses);
    RiskSummary(|clauses|, Count(clauses, "high"), Count(clauses, "medium"), Count(clauses, "low"))
  }

  /** No clauses, no risk: all four counts are zero. */
  lemma SummarizeEmpty()
    ensures Summarize([]) == RiskSummary(0, 0, 0, 0)
  {
  }

  /** Appending a clause whose severity key is a bucket name adds one to the total and one to that bucket only. */
  lemma AddRecognisedClause(clauses: seq<Clause>, c: Clause)
    requires SeverityKey(c) in {"high", "medium", "low"}
    ensures var before, after := Summarize(clauses), Summarize(clauses + [c]);
            && after.total == before.total + 1
            && after.high == before.high + (if SeverityKey(c) == "high" then 1 else 0)
            && after.medium == before.medium + (if SeverityKey(c) == "medium" then 1 else 0)
            && after.low == before.low + (if SeverityKey(c) == "low" then 1 else 0)
  {
    CountAppend(clauses, [c], "high");
    CountAppend(clauses, [c], "medium");
    CountAppend(clauses, [c], "low");
  }

  /** A clause with a missing or unrecognised severity counts toward the total and toward no bucket. */
  lemma AddUnrecognisedClause(clauses: seq<Clause>, c: Clause)
    requires SeverityKey(c) !in {"high", "medium", "low"}
    ensures var before := Summarize(clauses);
            Summarize(clauses + [c]) == before.(total := before.total + 1)
  {
    CountAppend(clauses, [c], "high");
    CountAppend(clauses, [c], "medium");
    CountAppend(clauses, [c], "low");
  }

  /** A clause with no `risk.severity` at all is one of those: its key is the empty string. */
  lemma MissingSeverityIsUnbucketed(c: Clause)
    requires c.risk.None? || c.risk.value.severity.None?
    ensures SeverityKey(c) == ""
    ensures Summarize([c]) == RiskSummary(1, 0, 0, 0)
  {
    assert |SeverityKey(c)| == 0;
    assert [c][1..] == [];
    assert Count([c], "high") == 0 && Count([c], "medium") == 0 && Count([c], "low") == 0;
  }

  /** Builds a clause that carries only a severity. */
  function WithSeverity(severity: string): (c: Clause)
    ensures SeverityOr(c, "") == severity
  {
    Clause(None, None, Some(Assessment(Some(severity), None, None)))
  }

  /** Matching ignores case: "High", "HIGH" and "high" each add one to the high count. */
  lemma HighInAnyCase()
    ensures Summarize([WithSeverity("High"), WithSeverity("HIGH"), WithSeverity("high")]) == RiskSummary(3, 3, 0, 0)
  {
  }

  /** Mixed-case severities {"High", "low", "MEDIUM"} fill each bucket once. */
  lemma MixedCaseSummary()
    ensures Summarize([WithSeverity("High"), WithSeverity("low"), WithSeverity("MEDIUM")]) == RiskSummary(3, 1, 1, 1)
  {
  }

  /** Taking the clause at `j` out of a list takes its contribution out of each count. */
  lemma CountRemove(b: seq<Clause>, j: nat, level: string)
    requires j < |b|
    ensures Count(b, level) == (if SeverityKey(b[j]) == level then 1 else 0) + Count(b[..j] + b[j + 1..], level)
  {
    assert b == b[..j] + [b[j]] + b[j + 1..];
    assert [b[j]][1..] == [];
    CountAppend(b[..j] + [b[j]], b[j + 1..], level);
    CountAppend(b[..j], [b[j]], level);
    CountAppend(b[..j], b[j + 1..], level);
  }

  /** A count depends only on which clauses there are, not on their order. */
  lemma {:induction false} CountPermutation(a: seq<Clause>, b: seq<Clause>, level: string)
    requires multiset(a) == multiset(b)
    ensures Count(a, level) == Count(b, level)
  {
    if a == [] {
      assert |b| == |multiset(b)| == 0;
    } else {
      var x := a[0];
      assert x in multiset(b);
      var j :| 0 <= j < |b| && b[j] == x;
      var rest := b[..j] + b[j + 1..];
      assert b == b[..j] + [x] + b[j + 1..];
      assert a == [x] + a[1..];
      assert multiset(rest) == multiset(b) - multiset{x};
      CountPermutation(a[1..], rest, level);
      CountRemove(b, j, level);
    }
  }

  /** The risk overview is unchanged by any reordering of the clause list. */
  lemma SummarizePermutation(a: seq<Clause>, b: seq<Clause>)
    requires multiset(a) == multiset(b)
    ensures Summarize(a) == Summarize(b)
  {
    assert |a| == |multiset(a)| == |multiset(b)| == |b|;
    CountPermutation(a, b, "high");
    CountPermutation(a, b, "medium");
    CountPermutation(a, b, "low");
  }

  /** The severity shown on a clause's expander: upper-cased, "LOW" when it is missing. */
  function DisplaySeverity(c: Clause): (r: string)
    ensures (c.risk.Some? && c.risk.value.severity.Some?) ==> r == Upper(c.risk.value.severity.value)
    ensures (c.risk.None? || c.risk.value.severity.None?) ==> r == "LOW"
  {
    Upper(SeverityOr(c, "LOW"))
  }

  /** Where a severity is present, the display and the counts agree: the shown label lower-cases to the count key. */
  lemma DisplayAgreesWithCountWhenPresent(c: Clause)
    requires c.risk.Some? && c.risk.value.severity.Some?
    ensures Lower(DisplaySeverity(c)) == SeverityKey(c)
  {
  }

  /**
   * Where it is missing they disagree: the clause is shown as "LOW" risk yet is
   * not among the low-risk count.
   */
  lemma MissingSeverityShownLowButNotCounted(c: Clause)
    requires c.risk.None? || c.risk.value.severity.None?
    ensures DisplaySeverity(c) == "LOW"
    ensures Summarize([c]).low == 0
  {
    MissingSeverityIsUnbucketed(c);
  }
}
