/**
 * The three read-only tabs, composed from the lookups and projections: each
 * opens the current artifact of its kind, and shows a warning instead when the
 * output directory holds none. `load` stands for reading and parsing the named
 * file.
 */
module Dashboard {
  import opened Wrappers
  import opened Text
  import opened Artifacts
  import Risk
  import ComplianceReport

  /** The risk dashboard: "No analysis data found." or the overview and one severity label per clause. */
  datatype RiskTab = NoAnalysisData | RiskOverview(summary: Risk.RiskSummary, severities: seq<string>)

  function RiskTabView(listing: seq<Entry>, load: string -> seq<Risk.Clause>): (v: RiskTab)
    ensures v.NoAnalysisData? <==> Newest(listing, M2Suffix).None?
    ensures v.NoAnalysisData? <==> forall k :: 0 <= k < |listing| ==> !EndsWith(listing[k].name, M2Suffix)
    ensures v.RiskOverview? ==>
              var clauses := load(Newest(listing, M2Suffix).value.name);
              && v.summary == Risk.Summarize(clauses)
              && v.summary.total == |clauses|
              && |v.severities| == |clauses|
              && forall k :: 0 <= k < |clauses| ==> v.severities[k] == Risk.DisplaySeverity(clauses[k])
  {
    NewestSpec(listing, M2Suffix);
    match Newest(listing, M2Suffix)
    case None => NoAnalysisData
    case Some(e) =>
      var clauses := load(e.name);
      RiskOverview(Risk.Summarize(clauses),
                   seq(|clauses|, k requires 0 <= k < |clauses| => Risk.DisplaySeverity(clauses[k])))
  }

  /** The amendments tab: "No compliance report found." or the redlining view. */
  datatype AmendmentsTab =
    | NoComplianceReport
    | Redlining(amendments: ComplianceReport.AmendmentSection, previews: seq<string>, summary: ComplianceReport.ActionSummary)

  function AmendmentsTabView(listing: seq<Entry>, load: string -> ComplianceReport.Report): (v: AmendmentsTab)
    ensures v.NoComplianceReport? <==> Newest(listing, M3Suffix).None?
    ensures v.NoComplianceReport? <==> forall k :: 0 <= k < |listing| ==> !EndsWith(listing[k].name, M3Suffix)
    ensures v.Redlining? ==>
              var report := load(Newest(listing, M3Suffix).value.name);
              && v.amendments == ComplianceReport.AmendmentsOf(report)
              && v.previews == ComplianceReport.InsertedPreviews(report)
              && v.summary == ComplianceReport.Summarize(report)
              && v.summary.amended == |ComplianceReport.Amended(report)|
              && v.summary.inserted == |v.previews| == |ComplianceReport.Inserted(report)|
  {
    NewestSpec(listing, M3Suffix);
    match Newest(listing, M3Suffix)
    case None => NoComplianceReport
    case Some(e) =>
      var report := load(e.name);
      Redlining(ComplianceReport.AmendmentsOf(report), ComplianceReport.InsertedPreviews(report),
                ComplianceReport.Summarize(report))
  }

  /** The full-report tab: "Report missing." or the raw report. */
  datatype FullReportTab = ReportMissing | FullAudit(report: ComplianceReport.Report)

  function FullReportTabView(listing: seq<Entry>, load: string -> ComplianceReport.Report): (v: FullReportTab)
    ensures v.ReportMissing? <==> Newest(listing, M3Suffix).None?
    ensures v.ReportMissing? <==> forall k :: 0 <= k < |listing| ==> !EndsWith(listing[k].name, M3Suffix)
    ensures v.FullAudit? ==> v.report == load(Newest(listing, M3Suffix).value.name)
  {
    NewestSpec(listing, M3Suffix);
    match Newest(listing, M3Suffix)
    case None => ReportMissing
    case Some(e) => FullAudit(load(e.name))
  }

  /** Both report tabs open the same file: whenever one shows a report, the other shows that report too. */
  lemma ReportTabsAgree(listing: seq<Entry>, load: string -> ComplianceReport.Report)
    ensures FullReportTabView(listing, load).FullAudit? <==> AmendmentsTabView(listing, load).Redlining?
    ensures FullReportTabView(listing, load).FullAudit? ==>
              var report := FullReportTabView(listing, load).report;
              AmendmentsTabView(listing, load) ==
                Redlining(ComplianceReport.AmendmentsOf(report), ComplianceReport.InsertedPreviews(report),
                          ComplianceReport.Summarize(report))
  {
  }
}
