# Compliance dashboard: artifact lookup, risk counts and export layout

The dashboard (`app.py`) uploads a contract, runs an external analysis pipeline, and renders what that pipeline leaves in its output directory. Inside the rendering code sit a few small decision rules, and this project models those rules and proves their properties:

- **Artifact lookup.** The directory is a sequence of `(name, mtime)` entries. The "current" clause list (`_m2_output.json`) or compliance report (`_m3_compliance_report.json`) is the newest entry with that suffix. When no entry matches, the tab shows a warning instead.
- **Risk summary.** This is the clause count plus case-insensitive high, medium and low counts. A clause with a missing or unrecognised severity counts toward the total only.
- **Severity display.** The severity is upper-cased, with a missing severity shown as `LOW`.
- **Export tab.** It takes the four newest files of any kind. Each is classified by the first of `.txt`, `.json`, `.pdf`, `.csv` that it ends with; anything else is skipped. Each card goes in the left or right column by the parity of its position, and skipped files count toward that position.
- **Compliance report projection.** The amended and inserted counts are the list lengths, or zero when the key is missing. An inserted clause is previewed by its first 100 characters.

Modules:

- `Wrappers`: `Option`.
- `Text`: `endswith`, plus ASCII `lower` and `upper`.
- `Artifacts`: the suffix filter; a stable newest-first sort, given both as a function and as an in-place method over an array; the latest-of-kind lookup; the four-newest selection.
- `Risk`: the counts and the severity display.
- `Exports`: classification and the card layout loop.
- `ComplianceReport`: the report projection.
- `Dashboard`: the three read-only tabs, built from the modules above.

Python's `list.sort` and `sorted` are stable. Both are modelled by one stable insertion sort, `Artifacts.SortNewestFirst`. The in-place `files.sort(...)` becomes `Artifacts.SortInPlace` on an array, proved equal to that function. The newest entry of a kind has its own reference definition, `Artifacts.Newest`: the first listed entry with the greatest mtime, found by `Artifacts.NewestIndex`. The imperative lookup (filter, sort in place, read index 0) is proved to return exactly that entry.

## Model

| member | source | states |
|---|---|---|
| Artifacts.FilterSuffix | app.py:286 | the filtered list is never longer than the listing |
| Artifacts.FilterSuffixSpec | app.py:286 | every kept entry comes from the listing and ends with the suffix, and every listed entry with the suffix is kept |
| Artifacts.NewestIndex | app.py:288 | the chosen position holds the greatest mtime, and every earlier position holds a strictly smaller one, so ties go to the first listed |
| Artifacts.SortNewestFirstCorrect | app.py:417-421 | the stable sort returns a permutation of its input in non-increasing mtime order |
| Artifacts.SortNewestFirstStable | app.py:417-421 | the sort is stable: for every mtime, the entries with that mtime appear in the sorted list in their listing order, which fixes which tied files are kept at the four-file cut-off |
| Artifacts.SortHeadIsNewest | app.py:288-289 | index 0 of the newest-first sort is the first listed entry with the greatest mtime |
| Artifacts.SortInPlace | app.py:288 | sorting the array in place leaves exactly the stable newest-first order of its old contents |
| Artifacts.NewestSpec | app.py:286-289 | latest-of-kind is not-found exactly when no entry has the suffix; otherwise it is a listed entry with the suffix and no other entry with the suffix is newer |
| Artifacts.NewestIgnoresOtherKinds | app.py:286-288 | inserting an entry of another kind anywhere in the listing never changes latest-of-kind |
| Artifacts.NewestAfterWrite | app.py:286-288 | a file of the kind that is newer than every listed file of that kind becomes the latest of that kind, wherever it appears in the listing and whatever the mtimes of other kinds |
| Artifacts.LatestOfKind | app.py:286-289 | filter by suffix, sort in place newest first, then take index 0: the result is not-found on an empty list and otherwise exactly the reference newest entry |
| Artifacts.LatestClauseList | app.py:286-290 | the risk tab opens the newest `_m2_output.json` entry, or finds none |
| Artifacts.LatestComplianceReport | app.py:336-340 | the amendments and full-report tabs open the newest `_m3_compliance_report.json` entry, or find none |
| Artifacts.RecentFilesSpec | app.py:417-421 | the export list has min(4, n) entries in non-increasing mtime order, all taken from the listing, and no entry left out is newer than the last one included |
| Risk.Summarize | app.py:292-295 | the total is the number of clauses, and the high, medium and low counts together never exceed it |
| Risk.BucketsBounded | app.py:293-295 | each clause falls into at most one bucket, so the three bucket counts sum to at most the clause count |
| Risk.SummarizeEmpty | app.py:292-295 | an empty clause list gives 0 for the total and for all three buckets |
| Risk.AddRecognisedClause | app.py:293-295 | a clause whose lower-cased severity is high, medium or low adds one to the total and one to that bucket only |
| Risk.AddUnrecognisedClause | app.py:293-295 | a clause whose severity is missing or unrecognised adds one to the total and changes no bucket |
| Risk.MissingSeverityIsUnbucketed | app.py:293 | a clause without `risk` or without `severity` gets the key "" and counts toward the total only |
| Risk.HighInAnyCase | app.py:293 | "High", "HIGH" and "high" each add exactly one to the high count |
| Risk.MixedCaseSummary | app.py:293-295 | severities "High", "low" and "MEDIUM" give total 3 with one clause in each bucket |
| Risk.CountPermutation | app.py:293-295 | a bucket count depends only on the multiset of clauses |
| Risk.SummarizePermutation | app.py:292-295 | the total and all three counts are unchanged by any reordering of the clause list |
| Risk.DisplaySeverity | app.py:317 | the shown severity is the upper-cased severity when one is present, and "LOW" when `risk` or `severity` is missing |
| Risk.DisplayAgreesWithCountWhenPresent | app.py:317 | for ASCII severities: when a severity is present, the shown label lower-cases to the key the counts compare |
| Risk.MissingSeverityShownLowButNotCounted | app.py:317 | a clause with no severity is shown as "LOW" but adds nothing to the low count |
| Exports.SuffixesExclusive | app.py:430-433 | no file name ends with two of `.txt`, `.json`, `.pdf` and `.csv` |
| Exports.ClassifyBySuffix | app.py:430-433 | a file gets a kind exactly when its name ends with that kind's suffix, so the first match of the chain is also the only match |
| Exports.ClassifySkips | app.py:430-434 | a file is skipped exactly when its name ends with none of the four suffixes |
| Exports.ArtifactsShareJsonLabel | app.py:431 | every m2 output and every m3 report is classified as compliance data and gets the label "Compliance Data (JSON)" |
| Exports.ColumnOf | app.py:428 | a card goes in the left column exactly when its position is even |
| Exports.LayoutCards | app.py:426-434 | one card per recognised file, in file order; each card names its file and that file's kind, and sits in the column of its position in the export list, skipped files included |
| Exports.LaidOutNothingRecognised | app.py:426-434 | when no file in the export list is recognised, the layout has no cards |
| Exports.ExportTab | app.py:417-456 | the "no output files" warning appears exactly when the directory is empty; otherwise the cards are the layout of the four newest files |
| ComplianceReport.Amended | app.py:348 | the amended ids are the report's list, or empty when the key is missing |
| ComplianceReport.Inserted | app.py:361 | the inserted clauses are the report's list, or empty when the key is missing |
| ComplianceReport.Summarize | app.py:348-375 | each action-summary count is the length of its list when the key is present, and 0 when it is missing |
| ComplianceReport.Preview | app.py:367 | a preview is a prefix of the clause, at most 100 characters long; it is the whole clause when the clause is no longer than that |
| ComplianceReport.PreviewIdempotent | app.py:367 | previewing a preview changes nothing |
| ComplianceReport.PreviewSeesOnlyThePrefix | app.py:367 | clauses that agree on their first 100 characters have the same preview |
| ComplianceReport.InsertedPreviews | app.py:361-367 | one preview per inserted clause, in order, each the prefix of its clause of length exactly min(clause length, 100) |
| ComplianceReport.AmendmentsOf | app.py:348-358 | the "no amendments needed" message appears exactly when the amended list is empty or missing; otherwise the amended ids are listed |
| Dashboard.RiskTabView | app.py:286-323 | "No analysis data found" appears exactly when no `_m2_output.json` exists; otherwise the overview is the risk summary of the latest clause list, and there is one severity label per clause, each the displayed severity of that clause |
| Dashboard.AmendmentsTabView | app.py:336-380 | "No compliance report found" appears exactly when no `_m3_compliance_report.json` exists; otherwise the amendment section, the inserted-clause previews and the action summary are all those of the latest report |
| Dashboard.FullReportTabView | app.py:393-401 | "Report missing" appears exactly when no `_m3_compliance_report.json` exists; otherwise the report shown is the loaded newest one |
| Dashboard.ReportTabsAgree | app.py:336-401 | the amendments tab and the full-report tab show a report in the same cases, and the amendments tab's view is exactly the one built from the report the full-report tab shows |

## Left out

- Artifacts.Newest: ties between equally new files are resolved the way a stable sort over the given listing resolves them (the first listed wins). The order of `os.listdir` is not specified, which is why the source's tie-breaking is arbitrary; here the listing order is an input.
- Artifacts.SortInPlace: Python's Timsort is replaced by an insertion sort. Both are stable, so both produce the same order.
- Modification times are integers. The source compares floats from `os.path.getmtime`.
- Text.Lower, Text.Upper: case mapping covers ASCII letters only. Python's `str.lower` and `str.upper` follow Unicode.
- Risk.DisplayAgreesWithCountWhenPresent: holds for the ASCII case mapping only. With Unicode, the severity `"hıgh"` (dotless i) is shown as `"HIGH"` (app.py:317) but its count key stays `"hıgh"`, so it is not counted as high (app.py:293). `"ß"` is shown as `"SS"`. Risk.DisplaySeverity on such input is covered only under the same ASCII restriction.
- Risk.SeverityOr: a `severity` value that is not a string, such as JSON `null`, makes the source raise on `.lower()`. The model only has a string or a missing value.
- Risk.Clause: `clause_id` is modelled as an optional string. A JSON number would be rendered the same way.
- Risk.Clause: the model has no value for a clause that is not a JSON object, or whose `risk` is `null` or not an object. In the source, `c.get` or `.get("severity", …)` then raises `AttributeError` (app.py:293, app.py:317), and the tab fails instead of showing counts.
- ComplianceReport.Report: a parsed report that is not a JSON object makes `report.get` raise (app.py:348). The model has no value for it.
- ComplianceReport.Report: an `amended_clauses` or `inserted_clauses` value that is not a list is not modelled.
- The card icons (app.py:430-433), the clause expander title (app.py:318) and the always-appended `...` after a preview (app.py:367) are display text only.
- The compliance score shown (app.py:377) is the fixed text "98/100" and is not computed from anything.
- The directory listing, file modification times and JSON parsing are inputs: a sequence of entries and a `load` function.
- Writing the uploaded file (app.py:238-239), creating the directories (app.py:21-22) and reading files for download (app.py:437) are left out.
- `run_pipeline` (app.py:15, app.py:255) lives in `run.py`, which is not part of this model. Its progress callback's `percent / 100` (app.py:253) is float display arithmetic.
- `load_lottieurl` (app.py:37-44) is a network fetch that swallows errors.
- The `pipeline_done` session flag (app.py:203-204, app.py:257) is a UI state gate. It gates the four result tabs only (app.py:283, app.py:333, app.py:390, app.py:411); the upload tab (app.py:223-275) is always shown.
- Dashboard.ReportTabsAgree: the agreement holds for one snapshot of the output directory and one parse of each file. The source lists and parses the directory separately in each tab (app.py:286-290, app.py:336-340, app.py:393-397, app.py:417-421). A report written by a concurrent session's pipeline between the reads of two tabs makes them show different reports, and a file deleted between `os.listdir` and `os.path.getmtime` makes the sort key raise. Neither concurrency nor that failure is modelled.
- CSS, tabs, columns, metric-card HTML, animations and download buttons are presentation.
