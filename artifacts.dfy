/**
 * The output directory seen as a listing of `(name, mtime)` entries, and the two
 * ways the dashboard picks files from it: the newest file of one kind (the
 * clause list, the compliance report) and the four newest files overall (the
 * export tab). Python's `list.sort` and `sorted` are stable; both are modelled
 * by one stable newest-first insertion sort.
 */
module Artifacts {
  import opened Wrappers
  import opened Text

  /** One directory entry: its file name and its modification time. */
  datatype Entry = Entry(name: string, mtime: int)

  /** Suffix of the clause-extraction artifact (the risk dashboard's input). */
  const M2Suffix: string := "_m2_output.json"
  /** Suffix of the compliance-report artifact. */
  const M3Suffix: string := "_m3_compliance_report.json"
  /** How many of the newest files the export tab offers. */
  const ExportLimit: nat := 4

  // ---------------------------------------------------------------------------
  // Filtering by kind
  // ---------------------------------------------------------------------------

  /** `[f for f in listing if f.endswith(suffix)]`, keeping listing order. */
  function FilterSuffix(listing: seq<Entry>, suffix: string): (r: seq<Entry>)
    ensures |r| <= |listing|
  {
    if listing == [] then []
    else
      var rest := FilterSuffix(listing[1..], suffix);
      if EndsWith(listing[0].name, suffix) then [listing[0]] + rest else rest
  }

  /** The filter keeps exactly the listed entries that have the suffix. */
  lemma {:induction false} FilterSuffixSpec(listing: seq<Entry>, suffix: string)
    ensures forall k :: 0 <= k < |FilterSuffix(listing, suffix)| ==>
              FilterSuffix(listing, suffix)[k] in listing && EndsWith(FilterSuffix(listing, suffix)[k].name, suffix)
    ensures forall k :: 0 <= k < |listing| && EndsWith(listing[k].name, suffix) ==> listing[k] in FilterSuffix(listing, suffix)
  {
    if listing != [] {
      FilterSuffixSpec(listing[1..], suffix);
      assert forall k :: 1 <= k < |listing| ==> listing[k] == listing[1..][k - 1];
    }
  }

  /** Filtering distributes over concatenation. */
  lemma {:induction false} FilterSuffixAppend(a: seq<Entry>, b: seq<Entry>, suffix: string)
    ensures FilterSuffix(a + b, suffix) == FilterSuffix(a, suffix) + FilterSuffix(b, suffix)
  {
    if a == [] {
      assert a + b == b;
    } else {
      var x := a[0];
      var ab := a + b;
      assert ab[0] == x;
      assert ab[1..] == a[1..] + b;
      FilterSuffixAppend(a[1..], b, suffix);
      var head := if EndsWith(x.name, suffix) then [x] else [];
      assert FilterSuffix(ab, suffix) == head + FilterSuffix(a[1..] + b, suffix);
      assert FilterSuffix(a, suffix) == head + FilterSuffix(a[1..], suffix);
    }
  }

  // ---------------------------------------------------------------------------
  // Newest-first ordering
  // ---------------------------------------------------------------------------

  /** Non-increasing modification time: `reverse=True` on the mtime key. */
  predicate NewestFirst(s: seq<Entry>)
  {
    forall i, j :: 0 <= i < j < |s| ==> s[j].mtime <= s[i].mtime
  }

  /** Puts `x` after every entry at least as new as it, and before the first older one. */
  function InsertNewest(s: seq<Entry>, x: Entry): seq<Entry>
  {
    if s == [] || s[0].mtime < x.mtime then [x] + s
    else [s[0]] + InsertNewest(s[1..], x)
  }

  /** Stable sort by mtime, newest first: entries with equal mtime keep their listing order. */
  function SortNewestFirst(s: seq<Entry>): seq<Entry>
  {
    if s == [] then [] else InsertNewest(SortNewestFirst(s[..|s| - 1]), s[|s| - 1])
  }

  lemma {:induction false} InsertNewestPermutes(s: seq<Entry>, x: Entry)
    ensures multiset(InsertNewest(s, x)) == multiset(s) + multiset{x}
    ensures |InsertNewest(s, x)| == |s| + 1
  {
    if s != [] && s[0].mtime >= x.mtime {
      InsertNewestPermutes(s[1..], x);
      assert s == [s[0]] + s[1..];
    }
  }

  lemma {:induction false} InsertNewestSorted(s: seq<Entry>, x: Entry)
    requires NewestFirst(s)
    ensures NewestFirst(InsertNewest(s, x))
  {
    if s != [] && s[0].mtime >= x.mtime {
      InsertNewestSorted(s[1..], x);
      InsertNewestPermutes(s[1..], x);
      var t := InsertNewest(s[1..], x);
      forall k | 0 <= k < |t|
        ensures t[k].mtime <= s[0].mtime
      {
        assert t[k] in multiset(t);
        assert t[k] in multiset(s[1..]) || t[k] == x;
      }
    }
  }

  /** The sort yields a newest-first permutation of its input. */
  lemma {:induction false} SortNewestFirstCorrect(s: seq<Entry>)
    ensures NewestFirst(SortNewestFirst(s))
    ensures multiset(SortNewestFirst(s)) == multiset(s)
    ensures |SortNewestFirst(s)| == |s|
  {
    if s != [] {
      var init := s[..|s| - 1];
      SortNewestFirstCorrect(init);
      InsertNewestSorted(SortNewestFirst(init), s[|s| - 1]);
      InsertNewestPermutes(SortNewestFirst(init), s[|s| - 1]);
      assert s == init + [s[|s| - 1]];
    }
  }

  /** With every entry before `j` at least as new as `x`, and the one at `j` older, `x` lands at `j`. */
  lemma {:induction false} InsertNewestAt(s: seq<Entry>, x: Entry, j: nat)
    requires j <= |s|
    requires forall k :: 0 <= k < j ==> x.mtime <= s[k].mtime
    requires j < |s| ==> s[j].mtime < x.mtime
    ensures InsertNewest(s, x) == s[..j] + [x] + s[j..]
  {
    if j > 0 {
      InsertNewestAt(s[1..], x, j - 1);
      assert s[1..][..j - 1] == s[1..j];
      assert s[1..][j - 1..] == s[j..];
    }
  }

  /** The entries of `s` whose mtime is `t`, in their order in `s`. */
  function WithMtime(s: seq<Entry>, t: int): seq<Entry>
  {
    if s == [] then []
    else (if s[0].mtime == t then [s[0]] else []) + WithMtime(s[1..], t)
  }

  lemma {:induction false} WithMtimeAppend(a: seq<Entry>, b: seq<Entry>, t: int)
    ensures WithMtime(a + b, t) == WithMtime(a, t) + WithMtime(b, t)
  {
    if a == [] {
      assert a + b == b;
    } else {
      assert (a + b)[1..] == a[1..] + b;
      WithMtimeAppend(a[1..], b, t);
    }
  }

  /** A newest-first sequence that starts older than `t` holds no entry of mtime `t`. */
  lemma {:induction false} WithMtimeNone(s: seq<Entry>, t: int)
    requires NewestFirst(s) && s != [] && s[0].mtime < t
    ensures WithMtime(s, t) == []
  {
    if |s| > 1 {
      WithMtimeNone(s[1..], t);
    } else {
      assert s[1..] == [];
    }
  }

  /** Inserting `x` puts it after every entry of the same mtime, and leaves other mtimes' entries as they were. */
  lemma {:induction false} InsertNewestStable(s: seq<Entry>, x: Entry, t: int)
    requires NewestFirst(s)
    ensures WithMtime(InsertNewest(s, x), t) == WithMtime(s, t) + (if x.mtime == t then [x] else [])
  {
    if s == [] || s[0].mtime < x.mtime {
      assert ([x] + s)[1..] == s;
      if s != [] && x.mtime == t {
        WithMtimeNone(s, t);
      }
    } else {
      InsertNewestStable(s[1..], x, t);
      assert ([s[0]] + InsertNewest(s[1..], x))[1..] == InsertNewest(s[1..], x);
    }
  }

  /** The sort is stable: for every mtime, the entries with that mtime keep their listing order. */
  lemma {:induction false} SortNewestFirstStable(s: seq<Entry>, t: int)
    ensures WithMtime(SortNewestFirst(s), t) == WithMtime(s, t)
  {
    if s != [] {
      var init, last := s[..|s| - 1], s[|s| - 1];
      SortNewestFirstStable(init, t);
      SortNewestFirstCorrect(init);
      InsertNewestStable(SortNewestFirst(init), last, t);
      assert s == init + [last];
      WithMtimeAppend(init, [last], t);
      assert [last][1..] == [];
    }
  }

  // ---------------------------------------------------------------------------
  // The newest entry, as an independent reference definition
  // ---------------------------------------------------------------------------

  /** Index of the first entry (in listing order) whose mtime is the maximum. */
  function NewestIndex(s: seq<Entry>): (r: nat)
    requires |s| > 0
    ensures r < |s|
    ensures forall k :: 0 <= k < |s| ==> s[k].mtime <= s[r].mtime
    ensures forall k :: 0 <= k < r ==> s[k].mtime < s[r].mtime
  {
    if |s| == 1 then 0
    else
      var k := NewestIndex(s[..|s| - 1]);
      if s[k].mtime < s[|s| - 1].mtime then |s| - 1 else k
  }

  /** The head of the stable newest-first sort is the first entry with the largest mtime. */
  lemma {:induction false} SortHeadIsNewest(s: seq<Entry>)
    requires |s| > 0
    ensures |SortNewestFirst(s)| == |s|
    ensures SortNewestFirst(s)[0] == s[NewestIndex(s)]
  {
    SortNewestFirstCorrect(s);
    if |s| > 1 {
      var init := s[..|s| - 1];
      SortHeadIsNewest(init);
      SortNewestFirstCorrect(init);
    }
  }

  /**
   * `latest(kind)`: the newest entry whose name ends with `suffix`, ties going to
   * the one listed first, or `None` when no entry has that suffix.
   */
  function Newest(listing: seq<Entry>, suffix: string): Option<Entry>
  {
    var files := FilterSuffix(listing, suffix);
    if files == [] then None else Some(files[NewestIndex(files)])
  }

  /** What `latest(kind)` promises: not-found exactly when nothing matches, else a matching entry no older than any other. */
  lemma NewestSpec(listing: seq<Entry>, suffix: string)
    ensures Newest(listing, suffix).None? <==>
              forall k :: 0 <= k < |listing| ==> !EndsWith(listing[k].name, suffix)
    ensures Newest(listing, suffix).Some? ==>
              var e := Newest(listing, suffix).value;
              && e in listing
              && EndsWith(e.name, suffix)
              && forall k :: 0 <= k < |listing| && EndsWith(listing[k].name, suffix) ==> listing[k].mtime <= e.mtime
  {
    var files := FilterSuffix(listing, suffix);
    FilterSuffixSpec(listing, suffix);
    if files != [] {
      var e := files[NewestIndex(files)];
      forall k | 0 <= k < |listing| && EndsWith(listing[k].name, suffix)
        ensures listing[k].mtime <= e.mtime
      {
        var m :| 0 <= m < |files| && files[m] == listing[k];
      }
    }
  }

  /** Filtering drops an entry of another kind wherever it stands. */
  lemma FilterSkipsOther(before: seq<Entry>, other: Entry, after: seq<Entry>, suffix: string)
    requires !EndsWith(other.name, suffix)
    ensures FilterSuffix(before + [other] + after, suffix) == FilterSuffix(before + after, suffix)
  {
    assert [other][1..] == [];
    var none := FilterSuffix([other], suffix);
    assert none == [];
    FilterSuffixAppend(before, [other], suffix);
    var fb := FilterSuffix(before, suffix);
    assert FilterSuffix(before + [other], suffix) == fb;
    FilterSuffixAppend(before + [other], after, suffix);
    FilterSuffixAppend(before, after, suffix);
  }

  /** A file of another kind, wherever it appears in the listing, never changes `latest(kind)`. */
  lemma NewestIgnoresOtherKinds(listing: seq<Entry>, k: nat, other: Entry, suffix: string)
    requires k <= |listing|
    requires !EndsWith(other.name, suffix)
    ensures Newest(listing[..k] + [other] + listing[k..], suffix) == Newest(listing, suffix)
  {
    FilterSkipsOther(listing[..k], other, listing[k..], suffix);
    assert listing[..k] + listing[k..] == listing;
  }

  /** Writing a newer file of the kind makes it the latest of that kind, wherever it appears in the listing. */
  lemma NewestAfterWrite(listing: seq<Entry>, k: nat, written: Entry, suffix: string)
    requires k <= |listing|
    requires EndsWith(written.name, suffix)
    requires forall j :: 0 <= j < |listing| && EndsWith(listing[j].name, suffix) ==> listing[j].mtime < written.mtime
    ensures Newest(listing[..k] + [written] + listing[k..], suffix) == Some(written)
  {
    var before, after := listing[..k], listing[k..];
    assert [written][1..] == [];
    FilterSuffixAppend(before, [written], suffix);
    FilterSuffixAppend(before + [written], after, suffix);
    FilterSuffixAppend(before, after, suffix);
    FilterSuffixSpec(listing, suffix);
    assert before + after == listing;
    var fb, fa := FilterSuffix(before, suffix), FilterSuffix(after, suffix);
    var files := FilterSuffix(before + [written] + after, suffix);
    assert files == fb + [written] + fa;
    var older := FilterSuffix(listing, suffix);
    assert older == fb + fa;
    forall j | 0 <= j < |older| ensures older[j].mtime < written.mtime {
      var m :| 0 <= m < |listing| && listing[m] == older[j];
    }
    assert files[|fb|] == written;
    forall j | 0 <= j < |files| && j != |fb| ensures files[j].mtime < written.mtime {
      if j < |fb| {
        assert files[j] == older[j];
      } else {
        assert files[j] == older[j - 1];
      }
    }
  }

  // ---------------------------------------------------------------------------
  // The imperative lookup: filter, sort in place, read index 0
  // ---------------------------------------------------------------------------

  /** One insertion step: moves `a[i]` left past every older entry of the sorted prefix `a[..i]`. */
  method InsertStep(a: array<Entry>, i: nat)
    requires i < a.Length
    requires NewestFirst(a[..i])
    modifies a
    ensures a[..i + 1] == InsertNewest(old(a[..i]), old(a[i]))
    ensures a[i + 1..] == old(a[i + 1..])
  {
    ghost var p := a[..i];
    var x := a[i];
    var j := i;
    while j > 0 && a[j - 1].mtime < x.mtime
      invariant 0 <= j <= i
      invariant forall k :: 0 <= k < j ==> a[k] == p[k]
      invariant forall k :: j < k <= i ==> a[k] == p[k - 1]
      invariant forall k :: i < k < a.Length ==> a[k] == old(a[k])
      invariant forall k :: j <= k < i ==> p[k].mtime < x.mtime
    {
      a[j] := a[j - 1];
      j := j - 1;
    }
    a[j] := x;
    InsertStepResult(p, x, j, a[..i + 1]);
  }

  /** The array prefix an insertion step leaves behind is `InsertNewest` of the old prefix. */
  lemma InsertStepResult(p: seq<Entry>, x: Entry, j: nat, r: seq<Entry>)
    requires NewestFirst(p) && j <= |p| && |r| == |p| + 1
    requires j > 0 ==> x.mtime <= p[j - 1].mtime
    requires forall k :: j <= k < |p| ==> p[k].mtime < x.mtime
    requires forall k :: 0 <= k < j ==> r[k] == p[k]
    requires r[j] == x
    requires forall k :: j < k < |r| ==> r[k] == p[k - 1]
    ensures r == InsertNewest(p, x)
  {
    InsertNewestAt(p, x, j);
    assert r == p[..j] + [x] + p[j..];
  }

  /** `files.sort(key=mtime, reverse=True)` on a list held in an array. */
  method SortInPlace(a: array<Entry>)
    modifies a
    ensures a[..] == SortNewestFirst(old(a[..]))
  {
    ghost var s0 := a[..];
    var i := 0;
    while i < a.Length
      invariant 0 <= i <= a.Length
      invariant a[..i] == SortNewestFirst(s0[..i])
      invariant a[i..] == s0[i..]
    {
      SortNewestFirstCorrect(s0[..i]);
      InsertStep(a, i);
      assert s0[..i + 1][..i] == s0[..i];
      i := i + 1;
    }
    assert a[..] == a[..a.Length];
    assert s0 == s0[..a.Length];
  }

  /**
   * The dashboard's lookup of the current artifact of a kind: keep the names with
   * the suffix, sort them newest first in place, take the first.
   */
  method LatestOfKind(listing: seq<Entry>, suffix: string) returns (r: Option<Entry>)
    ensures r == Newest(listing, suffix)
  {
    var files := FilterSuffix(listing, suffix);
    if |files| == 0 {
      return None;
    }
    var a := new Entry[|files|](k requires 0 <= k < |files| => files[k]);
    assert a[..] == files;
    SortInPlace(a);
    SortHeadIsNewest(files);
    r := Some(a[0]);
  }

  /** The clause-extraction artifact the risk dashboard opens. */
  method LatestClauseList(listing: seq<Entry>) returns (r: Option<Entry>)
    ensures r == Newest(listing, M2Suffix)
  {
    r := LatestOfKind(listing, M2Suffix);
  }

  /** The compliance report the amendments and full-report tabs open. */
  method LatestComplianceReport(listing: seq<Entry>) returns (r: Option<Entry>)
    ensures r == Newest(listing, M3Suffix)
  {
    r := LatestOfKind(listing, M3Suffix);
  }

  // ---------------------------------------------------------------------------
  // The export tab's selection: the four newest files of any kind
  // ---------------------------------------------------------------------------

  /** `sorted(listing, key=mtime, reverse=True)[:4]`. */
  function RecentFiles(listing: seq<Entry>): seq<Entry>
  {
    var sorted := SortNewestFirst(listing);
    if |sorted| <= ExportLimit then sorted else sorted[..ExportLimit]
  }

  /** A prefix of a newest-first sequence is newest first, and the rest is no newer than its last entry. */
  lemma PrefixSplit(sorted: seq<Entry>, n: nat)
    requires 0 < n <= |sorted| && NewestFirst(sorted)
    ensures NewestFirst(sorted[..n])
    ensures multiset(sorted) == multiset(sorted[..n]) + multiset(sorted[n..])
    ensures forall e :: e in multiset(sorted[n..]) ==> e.mtime <= sorted[n - 1].mtime
  {
    assert sorted == sorted[..n] + sorted[n..];
    forall e | e in multiset(sorted[n..]) ensures e.mtime <= sorted[n - 1].mtime {
      var m :| n <= m < |sorted| && sorted[m] == e;
    }
  }

  /**
   * The export selection: at most four files, taken from the listing, newest
   * first, and no file left out is newer than the last one offered.
   */
  lemma RecentFilesSpec(listing: seq<Entry>)
    ensures |RecentFiles(listing)| == if |listing| <= ExportLimit then |listing| else ExportLimit
    ensures NewestFirst(RecentFiles(listing))
    ensures multiset(RecentFiles(listing)) <= multiset(listing)
    ensures forall e :: e in multiset(listing) - multiset(RecentFiles(listing)) ==>
              e.mtime <= RecentFiles(listing)[|RecentFiles(listing)| - 1].mtime
  {
    var sorted := SortNewestFirst(listing);
    SortNewestFirstCorrect(listing);
    var r := RecentFiles(listing);
    var n := |r|;
    if n > 0 {
      assert r == sorted[..n];
      PrefixSplit(sorted, n);
    }
  }
}
