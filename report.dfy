/**
 * The amendments tab's reading of a compliance report, the parsed JSON record
 * `{amended_clauses: [clause_id...], inserted_clauses: [text...]}`. Either key
 * may be absent; `report.get(key, [])` reads an absent key as an empty list.
 */
module ComplianceReport {
  import opened Wrappers

  datatype Report = Report(amendedClauses: Option<seq<string>>, insertedClauses: Option<seq<string>>)

  /** How many characters of an inserted clause the tab previews. */
  const PreviewLength: nat := 100

  /** `report.get("amended_clauses", [])`. */
  function Amended(report: Report): (ids: seq<string>)
    ensures report.amendedClauses.None? ==> ids == []
    ensures report.amendedClauses.Some? ==> ids == report.amendedClauses.value
  {
    report.amendedClauses.GetOr([])
  }

  /** `report.get("inserted_clauses", [])`. */
  function Inserted(report: Report): (texts: seq<string>)
    ensures report.insertedClauses.None? ==> texts == []
    ensures report.insertedClauses.Some? ==> texts == report.insertedClauses.value
  {
    report.insertedClauses.GetOr([])
  }

  /** The "Action Summary" card: `len(amended)` and `len(inserted)`. */
  datatype ActionSummary = ActionSummary(amended: nat, inserted: nat)

  /** The counts are the list lengths, and zero for a key the report does not have. */
  function Summarize(report: Report): (s: ActionSummary)
    ensures s.amended == if report.amendedClauses.Some? then |report.amendedClauses.value| else 0
    ensures s.inserted == if report.insertedClauses.Some? then |report.insertedClauses.value| else 0
  {
    ActionSummary(|Amended(report)|, |Inserted(report)|)
  }

  /** `clause[:100]`: Python slicing clips at the end of the string. */
  function Preview(clause: string): (p: string)
    ensures |p| <= PreviewLength
    ensures |p| <= |clause| && p == clause[..|p|]
    ensures |p| == if |clause| <= PreviewLength then |clause| else PreviewLength
  {
    if |clause| <= PreviewLength then clause else clause[..PreviewLength]
  }

  /** Previewing a preview changes nothing. */
  lemma PreviewIdempotent(clause: string)
    ensures Preview(Preview(clause)) == Preview(clause)
  {
  }

  /** Two clauses that agree on their first 100 characters have the same preview. */
  lemma PreviewSeesOnlyThePrefix(a: string, b: string)
    requires |a| >= PreviewLength && |b| >= PreviewLength
    requires a[..PreviewLength] == b[..PreviewLength]
    ensures Preview(a) == Preview(b)
  {
  }

  /** The previews of the inserted clauses, one per clause, in order. */
  function InsertedPreviews(report: Report): (ps: seq<string>)
    ensures |ps| == |Inserted(report)|
    ensures forall k :: 0 <= k < |ps| ==> |ps[k]| == (if |Inserted(report)[k]| <= PreviewLength then |Inserted(report)[k]| else PreviewLength)
    ensures forall k :: 0 <= k < |ps| ==> |ps[k]| <= |Inserted(report)[k]| && ps[k] == Inserted(report)[k][..|ps[k]|]
  {
    var texts := Inserted(report);
    seq(|texts|, k requires 0 <= k < |texts| => Preview(texts[k]))
  }

  /** The "Amended Clauses" section: a clean-contract message when nothing was amended, else one entry per id. */
  datatype AmendmentSection = NoAmendmentsNeeded | AmendedClauseList(ids: seq<string>)

  function AmendmentsOf(report: Report): (section: AmendmentSection)
    ensures section.NoAmendmentsNeeded? <==> |Amended(report)| == 0
    ensures section.AmendedClauseList? ==> section.ids == Amended(report)
  {
    var ids := Amended(report);
    if |ids| == 0 then NoAmendmentsNeeded else AmendedClauseList(ids)
  }
}
