/**
 * The export tab: the four newest output files, each classified by its suffix
 * and placed in the left or right column by its position.
 */
module Exports {
  import opened Wrappers
  import opened Text
  import opened Artifacts

  datatype ExportKind = UpdatedContractText | ComplianceData | UpdatedContractPdf | ClauseAnalysisCsv

  function KindSuffix(k: ExportKind): string
  {
    match k
    case UpdatedContractText => ".txt"
    case ComplianceData => ".json"
    case UpdatedContractPdf => ".pdf"
    case ClauseAnalysisCsv => ".csv"
  }

  /** The card's title (and, prefixed with "Download ", its button's caption). */
  function Label(k: ExportKind): string
  {
    match k
    case UpdatedContractText => "Updated Contract (TXT)"
    case ComplianceData => "Compliance Data (JSON)"
    case UpdatedContractPdf => "Updated Contract (PDF)"
    case ClauseAnalysisCsv => "Clause Analysis (CSV)"
  }

  /** The `if/elif` chain: the first of `.txt`, `.json`, `.pdf`, `.csv` the name ends with; `None` means the file is skipped. */
  function Classify(name: string): Option<ExportKind>
  {
    if EndsWith(name, ".txt") then Some(UpdatedContractText)
    else if EndsWith(name, ".json") then Some(ComplianceData)
    else if EndsWith(name, ".pdf") then Some(UpdatedContractPdf)
    else if EndsWith(name, ".csv") then Some(ClauseAnalysisCsv)
    else None
  }

  /** No name ends with two of the four suffixes: their last characters are `t`, `n`, `f` and `v`. */
  lemma SuffixesExclusive(name: string, k1: ExportKind, k2: ExportKind)
    requires k1 != k2
    ensures !(EndsWith(name, KindSuffix(k1)) && EndsWith(name, KindSuffix(k2)))
  {
    EndsWithBothDifferentLast(name, KindSuffix(k1), KindSuffix(k2));
  }

  /** Since the suffixes exclude one another, the first match is the only match: a file has kind `k` exactly when it ends with `k`'s suffix. */
  lemma ClassifyBySuffix(name: string, k: ExportKind)
    ensures Classify(name) == Some(k) <==> EndsWith(name, KindSuffix(k))
  {
    match k
    case UpdatedContractText =>
    case ComplianceData =>
      EndsWithBothDifferentLast(name, ".json", ".txt");
    case UpdatedContractPdf =>
      EndsWithBothDifferentLast(name, ".pdf", ".txt");
      EndsWithBothDifferentLast(name, ".pdf", ".json");
    case ClauseAnalysisCsv =>
      EndsWithBothDifferentLast(name, ".csv", ".txt");
      EndsWithBothDifferentLast(name, ".csv", ".json");
      EndsWithBothDifferentLast(name, ".csv", ".pdf");
  }

  /** A file is skipped exactly when it ends with none of the four suffixes. */
  lemma ClassifySkips(name: string)
    ensures Classify(name).None? <==>
              !EndsWith(name, ".txt") && !EndsWith(name, ".json") && !EndsWith(name, ".pdf") && !EndsWith(name, ".csv")
  {
  }

  /** The clause lists and the compliance reports are both `.json`: they get the same "Compliance Data (JSON)" card. */
  lemma ArtifactsShareJsonLabel(name: string)
    requires EndsWith(name, M2Suffix) || EndsWith(name, M3Suffix)
    ensures Classify(name) == Some(ComplianceData)
    ensures Label(Classify(name).value) == "Compliance Data (JSON)"
  {
    if EndsWith(name, M2Suffix) {
      EndsWithTransitive(name, M2Suffix, ".json");
    } else {
      EndsWithTransitive(name, M3Suffix, ".json");
    }
    ClassifyBySuffix(name, ComplianceData);
  }

  datatype Column = LeftColumn | RightColumn

  /** The first column for even positions, the second for odd ones. */
  function ColumnOf(i: nat): (c: Column)
    ensures c == LeftColumn <==> i % 2 == 0
  {
    if i % 2 == 0 then LeftColumn else RightColumn
  }

  /** One download card: the position of its file in the export list, its column, its kind and the file name. */
  datatype Card = Card(index: nat, column: Column, kind: ExportKind, fileName: string)

  /**
   * `cards` is the export layout of the first `n` of `files`: one card per
   * recognised file, in file order, each in the column its position (skipped
   * files included) selects.
   */
  predicate LaidOutUpTo(files: seq<Entry>, cards: seq<Card>, n: nat)
  {
    && n <= |files|
    && (forall k :: 0 <= k < |cards| ==> CardFits(files, cards[k], n))
    && (forall k, l :: 0 <= k < l < |cards| ==> cards[k].index < cards[l].index)
    && (forall i :: 0 <= i < n && Classify(files[i].name).Some? ==> HasCardFor(cards, i))
  }

  /** The card is for a recognised file among the first `n`, carries its kind and name, and sits in its position's column. */
  predicate CardFits(files: seq<Entry>, card: Card, n: nat)
    requires n <= |files|
  {
    && card.index < n
    && card.fileName == files[card.index].name
    && Classify(card.fileName) == Some(card.kind)
    && card.column == ColumnOf(card.index)
  }

  /** Some card of `cards` is for the file at position `i`. */
  predicate HasCardFor(cards: seq<Card>, i: nat)
  {
    exists k :: 0 <= k < |cards| && cards[k].index == i
  }

  /** `cards` is the export layout of all of `files`. */
  predicate LaidOut(files: seq<Entry>, cards: seq<Card>)
  {
    LaidOutUpTo(files, cards, |files|)
  }

  /** Skipping an unrecognised file keeps the layout of the files before it. */
  lemma LayoutSkip(files: seq<Entry>, cards: seq<Card>, i: nat)
    requires LaidOutUpTo(files, cards, i) && i < |files| && Classify(files[i].name).None?
    ensures LaidOutUpTo(files, cards, i + 1)
  {
  }

  /** Appending the card of a recognised file extends the layout by that file. */
  lemma LayoutAppend(files: seq<Entry>, cards: seq<Card>, i: nat, card: Card)
    requires LaidOutUpTo(files, cards, i) && i < |files|
    requires Classify(files[i].name).Some?
    requires card == Card(i, ColumnOf(i), Classify(files[i].name).value, files[i].name)
    ensures LaidOutUpTo(files, cards + [card], i + 1)
  {
    var next := cards + [card];
    forall k | 0 <= k < |next| ensures CardFits(files, next[k], i + 1) {
      if k < |cards| {
        assert CardFits(files, cards[k], i);
      }
    }
    forall m | 0 <= m < i + 1 && Classify(files[m].name).Some?
      ensures HasCardFor(next, m)
    {
      if m == i {
        assert next[|cards|].index == i;
      } else {
        assert HasCardFor(cards, m);
        var k :| 0 <= k < |cards| && cards[k].index == m;
        assert next[k] == cards[k];
      }
    }
  }

  /** The `enumerate` loop: classify each file, `continue` past the unrecognised ones. */
  method LayoutCards(files: seq<Entry>) returns (cards: seq<Card>)
    ensures LaidOut(files, cards)
  {
    cards := [];
    for i := 0 to |files|
      invariant LaidOutUpTo(files, cards, i)
    {
      var col := ColumnOf(i);
      var kind := Classify(files[i].name);
      if kind.None? {
        LayoutSkip(files, cards, i);
        continue;
      }
      var card := Card(i, col, kind.value, files[i].name);
      LayoutAppend(files, cards, i, card);
      cards := cards + [card];
    }
  }

  /** Every card is for a recognised file. */
  lemma CardIsRecognised(files: seq<Entry>, cards: seq<Card>, k: nat)
    requires LaidOut(files, cards) && k < |cards|
    ensures cards[k].index < |files| && Classify(files[cards[k].index].name) == Some(cards[k].kind)
  {
  }

  /** With no recognised file among them, the layout holds no card. */
  lemma LaidOutNothingRecognised(files: seq<Entry>, cards: seq<Card>)
    requires LaidOut(files, cards)
    requires forall i :: 0 <= i < |files| ==> Classify(files[i].name).None?
    ensures cards == []
  {
    if |cards| > 0 {
      CardIsRecognised(files, cards, 0);
      assert false;
    }
  }

  /** What the export tab shows: a warning when the directory is empty, otherwise the cards (possibly none). */
  datatype ExportPanel = NoOutputFiles | Downloads(cards: seq<Card>)

  /** The export tab: the four newest files of the directory, laid out as cards. */
  method ExportTab(listing: seq<Entry>) returns (panel: ExportPanel)
    ensures panel.NoOutputFiles? <==> listing == []
    ensures panel.Downloads? ==> LaidOut(RecentFiles(listing), panel.cards)
  {
    var files := RecentFiles(listing);
    RecentFilesSpec(listing);
    if |files| == 0 {
      return NoOutputFiles;
    }
    var cards := LayoutCards(files);
    panel := Downloads(cards);
  }
}
