/** Human-readable identifiers: case ids `ICE-<year>-<6-digit sequence>`
    and report refs `REP-<year>-<6-digit count>`, how the next one is
    derived from what the tables already hold, and how it reads back. */
module Identifiers {
  import opened Results
  import opened Text

  const SequenceWidth: nat := 6
  const CaseTag: string := "ICE"
  const ReportTag: string := "REP"
  /** Exclusive bound of `Math.floor(Math.random() * 1_000_000)`. */
  const RandomSuffixBound: nat := 1000000

  /** `${tag}-${year}-`: the `LIKE` prefix that selects one year's ids. */
  function YearPrefix(tag: string, year: nat): string {
    tag + "-" + DecimalString(year) + "-"
  }

  /** `${tag}-${year}-${String(n).padStart(6, "0")}`. */
  function FormatId(tag: string, year: nat, n: nat): (r: string)
    ensures YearPrefix(tag, year) <= r
  {
    YearPrefix(tag, year) + PadStart(DecimalString(n), SequenceWidth, '0')
  }

  function CaseId(year: nat, n: nat): string {
    FormatId(CaseTag, year, n)
  }

  function ReportRef(year: nat, n: nat): string {
    FormatId(ReportTag, year, n)
  }

  /** A number below ten to the k-th power has at most k decimal digits. */
  lemma {:induction false} DecimalStringLength(n: nat, k: nat)
    requires 1 <= k && n < Pow10(k)
    ensures |DecimalString(n)| <= k
    decreases k
  {
    if n >= 10 {
      assert n / 10 < Pow10(k - 1);
      DecimalStringLength(n / 10, k - 1);
    }
  }

  /** Below one million the sequence part is exactly six digits, so every
      id of one year has the same length. */
  lemma FormatIdLength(tag: string, year: nat, n: nat)
    requires n < RandomSuffixBound
    ensures |FormatId(tag, year, n)| == |YearPrefix(tag, year)| + SequenceWidth
  {
    assert Pow10(6) == RandomSuffixBound;
    DecimalStringLength(n, 6);
  }

  /** The three `-`-separated fields of an id. */
  lemma FormatIdFields(tag: string, year: nat, n: nat)
    requires '-' !in tag
    ensures Split(FormatId(tag, year, n), '-')
         == [tag, DecimalString(year), PadStart(DecimalString(n), SequenceWidth, '0')]
  {
    var y := DecimalString(year);
    var p := PadStart(DecimalString(n), SequenceWidth, '0');
    PaddedDecimalRoundTrip(n, SequenceWidth);
    NoDashInDigits(y);
    NoDashInDigits(p);
    assert FormatId(tag, year, n) == tag + "-" + y + "-" + p;
    SplitThree(tag, y, p, '-');
  }

  /** Three separator-free fields joined by the separator split back into
      those fields. */
  lemma SplitThree(a: string, b: string, c: string, sep: char)
    requires sep !in a && sep !in b && sep !in c
    ensures Split(a + [sep] + b + [sep] + c, sep) == [a, b, c]
  {
    var parts := [a, b, c];
    assert forall i :: 0 <= i < |parts| ==> sep !in parts[i];
    JoinThree(a, b, c, sep);
    SplitJoin(parts, sep);
  }

  lemma JoinThree(a: string, b: string, c: string, sep: char)
    ensures Join([a, b, c], sep) == a + [sep] + b + [sep] + c
  {
    assert [a, b, c][1..] == [b, c];
    assert [b, c][1..] == [c];
    assert Join([b, c], sep) == b + [sep] + c;
    assert Join([a, b, c], sep) == a + [sep] + (b + [sep] + c);
  }

  lemma NoDashInDigits(s: string)
    requires AllDigits(s)
    ensures '-' !in s
  {
    forall i | 0 <= i < |s| ensures s[i] != '-' {
      assert IsDigit(s[i]);
    }
  }

  /** The sequence number the newest id holds: `Number(id.split("-")[2])`,
      with a missing id (or an empty one, which `|| null` discards) worth 0
      and a missing third field worth NaN. */
  function LatestSequence(latest: Option<string>): NumberValue {
    match latest
    case None => Finite(0)
    case Some(id) =>
      if id == [] then Finite(0)
      else
        var fields := Split(id, '-');
        if |fields| < 3 then NaN else ParseNumber(fields[2])
  }

  /** `Number.isFinite(latestSeq) ? latestSeq + 1 : 1`: one more than the
      number in the newest id's third `-` field, and 1 when there is no
      id, no third field, or one that does not read as a number. */
  function NextSequence(latest: Option<string>): (r: nat)
    ensures r >= 1
    ensures latest.None? || latest == Some([]) ==> r == 1
    ensures latest.Some? && latest.value != [] && |Split(latest.value, '-')| < 3 ==> r == 1
    ensures latest.Some? && latest.value != [] && |Split(latest.value, '-')| >= 3 ==>
              (ParseNumber(Split(latest.value, '-')[2]).NaN? ==> r == 1) &&
              (ParseNumber(Split(latest.value, '-')[2]).Finite? ==>
                 r == ParseNumber(Split(latest.value, '-')[2]).value + 1)
  {
    match LatestSequence(latest)
    case Finite(v) => v + 1
    case NaN => 1
  }

  /** The sequence after an id the generator wrote is one more than its own. */
  lemma NextSequenceAfter(year: nat, n: nat)
    ensures NextSequence(Some(CaseId(year, n))) == n + 1
  {
    FormatIdFields(CaseTag, year, n);
    PaddedDecimalRoundTrip(n, SequenceWidth);
  }

  /** Distinct (year, sequence) pairs give distinct ids. */
  lemma FormatIdInjective(tag: string, y1: nat, n1: nat, y2: nat, n2: nat)
    requires '-' !in tag
    requires FormatId(tag, y1, n1) == FormatId(tag, y2, n2)
    ensures y1 == y2 && n1 == n2
  {
    FormatIdFields(tag, y1, n1);
    FormatIdFields(tag, y2, n2);
    DecimalStringInjective(y1, y2);
    PaddedDecimalRoundTrip(n1, SequenceWidth);
    PaddedDecimalRoundTrip(n2, SequenceWidth);
  }

  /** Within one year and below one million, the text order the query
      sorts by agrees with the numeric order of the sequence. */
  lemma CaseIdOrder(year: nat, a: nat, b: nat)
    requires a < RandomSuffixBound && b < RandomSuffixBound
    ensures LexLess(CaseId(year, a), CaseId(year, b)) <==> a < b
  {
    var pre := YearPrefix(CaseTag, year);
    var pa := PadStart(DecimalString(a), SequenceWidth, '0');
    var pb := PadStart(DecimalString(b), SequenceWidth, '0');
    FormatIdLength(CaseTag, year, a);
    FormatIdLength(CaseTag, year, b);
    PaddedDecimalRoundTrip(a, SequenceWidth);
    PaddedDecimalRoundTrip(b, SequenceWidth);
    LexLessCommonPrefix(pre, pa, pb);
    LexLessDigits(pa, pb);
  }

  /** `SELECT case_id ... WHERE case_id LIKE prefix || '%' ORDER BY case_id
      DESC LIMIT 1`: the greatest id carrying the prefix, if any. */
  function LatestWithPrefix(ids: seq<string>, prefix: string): (r: Option<string>)
    ensures r.None? <==> forall i :: 0 <= i < |ids| ==> !(prefix <= ids[i])
    ensures r.Some? ==> prefix <= r.value && r.value in ids
    ensures r.Some? ==> forall i :: 0 <= i < |ids| && prefix <= ids[i] ==> !LexLess(r.value, ids[i])
    decreases |ids|
  {
    if ids == [] then None
    else
      var init := ids[..|ids| - 1];
      var last := ids[|ids| - 1];
      var best := LatestWithPrefix(init, prefix);
      assert forall i :: 0 <= i < |init| ==> init[i] == ids[i];
      if !(prefix <= last) then best
      else if best.None? then
        LexLessIrreflexive(last);
        Some(last)
      else if LexLess(best.value, last) then
        assert forall i :: 0 <= i < |ids| && prefix <= ids[i] ==> !LexLess(last, ids[i]) by {
          LexLessIrreflexive(last);
          forall i | 0 <= i < |ids| - 1 && prefix <= ids[i] && LexLess(last, ids[i])
            ensures false
          {
            LexLessTransitive(best.value, last, ids[i]);
          }
        }
        Some(last)
      else
        best
  }

  /** `SELECT COUNT(*) ... WHERE report_ref LIKE prefix || '%'`: the number
      of rows whose ref starts with the prefix. */
  function CountWithPrefix(refs: seq<string>, prefix: string): (r: nat)
    ensures r == |PrefixRows(refs, prefix)|
    ensures r <= |refs|
    decreases |refs|
  {
    if refs == [] then
      assert PrefixRows(refs, prefix) == {};
      0
    else
      var n := |refs| - 1;
      PrefixRowsSnoc(refs, prefix);
      CountWithPrefix(refs[..n], prefix) + (if prefix <= refs[n] then 1 else 0)
  }

  /** The positions of the rows whose ref starts with the prefix. */
  ghost function PrefixRows(refs: seq<string>, prefix: string): set<nat> {
    set i: nat | i < |refs| && prefix <= refs[i]
  }

  /** Adding the last row adds its position exactly when it matches. */
  lemma PrefixRowsSnoc(refs: seq<string>, prefix: string)
    requires refs != []
    ensures var n := |refs| - 1;
            PrefixRows(refs, prefix)
              == PrefixRows(refs[..n], prefix) + (if prefix <= refs[n] then {n} else {})
    ensures |refs| - 1 !in PrefixRows(refs[..|refs| - 1], prefix)
  {
  }

  /** The id `createCase` tries first. */
  function NextCaseId(ids: seq<string>, year: nat): string {
    CaseId(year, NextSequence(LatestWithPrefix(ids, YearPrefix(CaseTag, year))))
  }

  /** The ref `createReport` stores: one more than the year's count. */
  function NextReportRef(refs: seq<string>, year: nat): string {
    ReportRef(year, CountWithPrefix(refs, YearPrefix(ReportTag, year)) + 1)
  }

  /** Every id of the year is one the generator writes, below one million. */
  ghost predicate SequentialCaseIds(ids: seq<string>, year: nat) {
    forall i :: 0 <= i < |ids| && YearPrefix(CaseTag, year) <= ids[i] ==>
      exists k: nat :: k < RandomSuffixBound && ids[i] == CaseId(year, k)
  }

  /** While a year's ids are all generator-shaped and below one million,
      the first id `createCase` tries is not taken yet: no collision, so no
      random retry. */
  lemma NextCaseIdIsFresh(ids: seq<string>, year: nat)
    requires SequentialCaseIds(ids, year)
    ensures NextCaseId(ids, year) !in ids
  {
    var pre := YearPrefix(CaseTag, year);
    var latest := LatestWithPrefix(ids, pre);
    var next := NextCaseId(ids, year);
    assert pre <= next;
    if latest.Some? {
      var j :| 0 <= j < |ids| && ids[j] == latest.value;
      var m: nat :| m < RandomSuffixBound && latest.value == CaseId(year, m);
      NextSequenceAfter(year, m);
      assert next == CaseId(year, m + 1);
      NextSequenceAfter(year, m + 1);
      forall i | 0 <= i < |ids| ensures ids[i] != next {
        if pre <= ids[i] {
          SequenceBelowLatest(ids[i], year, m);
        }
      }
    }
  }

  /** An id of the year that does not sort after the latest one (numbered
      `m`) is numbered at most `m`, so its successor is at most `m + 1`. */
  lemma SequenceBelowLatest(id: string, year: nat, m: nat)
    requires m < RandomSuffixBound
    requires exists k: nat :: k < RandomSuffixBound && id == CaseId(year, k)
    requires !LexLess(CaseId(year, m), id)
    ensures NextSequence(Some(id)) <= m + 1
  {
    var k: nat :| k < RandomSuffixBound && id == CaseId(year, k);
    CaseIdOrder(year, m, k);
    NextSequenceAfter(year, k);
  }

  /** Every ref of the year is numbered at most `count`. */
  ghost predicate RefsNumberedUpTo(refs: seq<string>, year: nat, count: nat) {
    forall i :: 0 <= i < |refs| && YearPrefix(ReportTag, year) <= refs[i] ==>
      exists k: nat :: k <= count && refs[i] == ReportRef(year, k)
  }

  /** While every ref of the year is numbered at most the year's count (as
      when they run 1, 2, ... in order), the next ref is not taken yet. */
  lemma NextReportRefIsFresh(refs: seq<string>, year: nat)
    requires RefsNumberedUpTo(refs, year, CountWithPrefix(refs, YearPrefix(ReportTag, year)))
    ensures NextReportRef(refs, year) !in refs
  {
    RefAboveCountFresh(refs, year, CountWithPrefix(refs, YearPrefix(ReportTag, year)));
  }

  /** A ref numbered above every ref of the year is not among them. */
  lemma RefAboveCountFresh(refs: seq<string>, year: nat, c: nat)
    requires RefsNumberedUpTo(refs, year, c)
    ensures ReportRef(year, c + 1) !in refs
  {
    var next := ReportRef(year, c + 1);
    if next in refs {
      var i :| 0 <= i < |refs| && refs[i] == next;
      assert YearPrefix(ReportTag, year) <= refs[i];
      var k: nat :| k <= c && refs[i] == ReportRef(year, k);
      FormatIdInjective(ReportTag, year, k, year, c + 1);
    }
  }

  /** Storing the next ref keeps the year's refs numbered up to the year's
      count, which has gone up by one: freshness holds for every later
      report of the year, not just the next one. */
  lemma NextReportRefKeepsNumbering(refs: seq<string>, year: nat)
    requires RefsNumberedUpTo(refs, year, CountWithPrefix(refs, YearPrefix(ReportTag, year)))
    ensures var after := refs + [NextReportRef(refs, year)];
            CountWithPrefix(after, YearPrefix(ReportTag, year))
              == CountWithPrefix(refs, YearPrefix(ReportTag, year)) + 1 &&
            RefsNumberedUpTo(after, year, CountWithPrefix(after, YearPrefix(ReportTag, year)))
  {
    var pre := YearPrefix(ReportTag, year);
    var c := CountWithPrefix(refs, pre);
    var next := NextReportRef(refs, year);
    var after := refs + [next];
    assert after[..|after| - 1] == refs;
    assert pre <= next;
    assert CountWithPrefix(after, pre) == c + 1;
    forall i | 0 <= i < |after| && pre <= after[i]
      ensures exists k: nat :: k <= c + 1 && after[i] == ReportRef(year, k)
    {
      if i < |refs| {
        assert after[i] == refs[i];
        var k: nat :| k <= c && refs[i] == ReportRef(year, k);
        assert k <= c + 1;
      } else {
        assert after[i] == ReportRef(year, c + 1);
      }
    }
  }
}
