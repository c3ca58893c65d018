/** scripts/generate_treemap_data.py: load the reports with the lower-case
    sentinel "unknown", aggregate them into buckets, compute the summary
    statistics, and produce the exported value together with the severity
    breakdown the script prints. Writing `visualizer/data.json` and the
    printing itself are left to the caller: `Run` returns what would be
    written and printed. */
module TreemapData {
  import opened Seqs
  import opened Ordering
  import opened Reports
  import opened Buckets

  /** The value `.get` falls back to for a missing check name or severity. */
  const Sentinel: string := "unknown"

  /** `color_discrete_map`: one colour per known severity. */
  const ColorMap: map<string, string> := map[
    "blocker" := "#C62828",
    "critical" := "#E53935",
    "major" := "#EF7B7B",
    "minor" := "#FFB74D",
    "info" := "#64B5F6",
    "unknown" := "#9E9E9E"
  ]

  /** The label and colour of an entry of `severity_info`. */
  datatype SeverityMeta = SeverityMeta(labelText: string, color: string)

  /** `severity_info`, without the description and icon texts. */
  const SeverityInfo: map<string, SeverityMeta> := map[
    "blocker" := SeverityMeta("Blocker", ColorMap["blocker"]),
    "critical" := SeverityMeta("Critical", ColorMap["critical"]),
    "major" := SeverityMeta("Major", ColorMap["major"]),
    "minor" := SeverityMeta("Minor", ColorMap["minor"]),
    "info" := SeverityMeta("Info", ColorMap["info"]),
    "unknown" := SeverityMeta("unknown", ColorMap["unknown"])
  ]

  /** The severities of the printed breakdown, in printing order. */
  const BreakdownOrder: seq<string> := ["blocker", "critical", "major", "minor", "info", "unknown"]

  /** `severity_info` describes exactly the severities of the colour map,
      with the colour map's colour, and so does the breakdown order; the
      sentinel is one of them. */
  lemma SeverityTablesAgree()
    ensures forall s :: s in SeverityInfo <==> s in ColorMap
    ensures forall s :: s in SeverityInfo ==> SeverityInfo[s].color == ColorMap[s]
    ensures forall s :: s in BreakdownOrder <==> s in SeverityInfo
    ensures NoDup(BreakdownOrder)
    ensures Sentinel in SeverityInfo
  {
  }

  // ---------------------------------------------------------------------
  // Statistics

  datatype Stats = Stats(
    totalErrors: nat,
    uniquePackages: nat,
    uniqueErrorTypes: nat,
    severityCounts: map<string, nat>)

  /** `df_counts["severity"].unique()`: the severities in row order. */
  function ExistingSeverities(bs: seq<Bucket>): seq<string> {
    Distinct(Map(bs, SeverityOf))
  }

  /** `df_counts.groupby("severity")["count"].sum()`. */
  function SeverityCounts(bs: seq<Bucket>): map<string, nat> {
    map s | s in Map(bs, SeverityOf) :: Sum(Select(bs, SeverityOf, s), CountOf)
  }

  function ComputeStats(bs: seq<Bucket>): Stats {
    Stats(
      Sum(bs, CountOf),
      |set b | b in bs :: b.package|,
      |set b | b in bs :: b.checkName|,
      SeverityCounts(bs))
  }

  /** `existing_severities` lists each key of `severity_counts` once, and
      nothing else. */
  lemma ExistingSeveritiesAreCountKeys(bs: seq<Bucket>)
    ensures NoDup(ExistingSeverities(bs))
    ensures forall s :: s in ExistingSeverities(bs) <==> s in SeverityCounts(bs)
  {
  }

  /** Sum of the values of `m` at the keys `ks`. */
  function SumAt(ks: seq<string>, m: map<string, nat>): nat
    requires forall k :: k in ks ==> k in m
  {
    if ks == [] then 0 else m[ks[0]] + SumAt(ks[1..], m)
  }

  lemma {:induction false} SumAtSeverityCounts(bs: seq<Bucket>, ks: seq<string>)
    requires forall k :: k in ks ==> k in SeverityCounts(bs)
    ensures SumAt(ks, SeverityCounts(bs)) == SumGroups(bs, CountOf, SeverityOf, ks)
  {
    if ks != [] {
      assert ks[0] in ks;
      assert forall k :: k in ks[1..] ==> k in ks;
      SumAtSeverityCounts(bs, ks[1..]);
    }
  }

  /** The values of `severity_counts`, taken once per key, add up to
      `total_errors`. */
  lemma SeverityCountsSumToTotal(bs: seq<Bucket>)
    ensures forall s :: s in ExistingSeverities(bs) ==> s in SeverityCounts(bs)
    ensures SumAt(ExistingSeverities(bs), SeverityCounts(bs)) == ComputeStats(bs).totalErrors
  {
    var ks := ExistingSeverities(bs);
    ExistingSeveritiesCounted(bs);
    SumAtSeverityCounts(bs, ks);
    BucketSeveritiesListed(bs);
    PartitionSum(bs, CountOf, SeverityOf, ks);
  }

  /** Every listed severity has a count. */
  lemma ExistingSeveritiesCounted(bs: seq<Bucket>)
    ensures forall s :: s in ExistingSeverities(bs) ==> s in SeverityCounts(bs)
  {
  }

  /** Every bucket's severity is listed. */
  lemma BucketSeveritiesListed(bs: seq<Bucket>)
    ensures forall b :: b in bs ==> SeverityOf(b) in ExistingSeverities(bs)
  {
    forall b | b in bs ensures SeverityOf(b) in ExistingSeverities(bs) {
      var i :| 0 <= i < |bs| && bs[i] == b;
      assert Map(bs, SeverityOf)[i] == SeverityOf(b);
    }
  }

  /** The key set of `severity_counts` is the set of severities of the
      loaded records. */
  lemma SeverityCountKeys(data: seq<Record>)
    ensures forall s :: s in SeverityCounts(Aggregate(data)) <==> exists r :: r in data && r.severity == s
  {
    var bs := Aggregate(data);
    forall s | s in SeverityCounts(bs) ensures exists r :: r in data && r.severity == s {
      var i :| 0 <= i < |bs| && Map(bs, SeverityOf)[i] == s;
      var r := BucketHasRecord(data, i);
    }
    forall r | r in data ensures r.severity in SeverityCounts(bs) {
      var i := RecordInExactlyOneBucket(data, r);
      assert Map(bs, SeverityOf)[i] == r.severity;
    }
  }

  /** What the statistics say about the loaded records: the total is the
      number of records, the distinct packages and check names are those
      of the records, and each severity's count is the number of records
      with that severity. */
  lemma StatsOfRecords(data: seq<Record>)
    ensures var st := ComputeStats(Aggregate(data));
            && st.totalErrors == |data|
            && st.uniquePackages == |set r | r in data :: r.package|
            && st.uniqueErrorTypes == |set r | r in data :: r.checkName|
            && (forall s :: s in st.severityCounts ==>
                  st.severityCounts[s] == |Select(data, RecordSeverity, s)|)
  {
    var bs := Aggregate(data);
    TotalIsRecordCount(data);
    BucketPackagesAreRecordPackages(data);
    BucketCheckNamesAreRecordCheckNames(data);
    forall s | s in SeverityCounts(bs)
      ensures SeverityCounts(bs)[s] == |Select(data, RecordSeverity, s)|
    {
      SeverityTotalIsRecordCount(data, s);
    }
  }

  /** `existing_severities` comes out in ascending order: the buckets are
      sorted by severity first. */
  lemma ExistingSeveritiesAscending(data: seq<Record>)
    ensures StrictlySorted(ExistingSeverities(Aggregate(data)), StrLess)
  {
    var bs := Aggregate(data);
    var sev := Map(bs, SeverityOf);
    assert Ascending(sev, StrLess) by {
      forall i, j | 0 <= i < j < |sev| ensures sev[i] == sev[j] || StrLess(sev[i], sev[j]) {
        assert KeyLess(Map(bs, BucketKey)[i], Map(bs, BucketKey)[j]);
      }
    }
    DistinctOfAscending(sev, StrLess);
  }

  // ---------------------------------------------------------------------
  // The printed breakdown

  /** One line of the breakdown: label, count and share of the total. */
  datatype BreakdownLine = BreakdownLine(severity: string, labelText: string, count: nat, percent: real)

  function LineCount(l: BreakdownLine): nat { l.count }
  function LineSeverity(l: BreakdownLine): string { l.severity }

  /** `count / total_errors * 100`. */
  function Percent(count: nat, total: nat): real
    requires total > 0
  {
    count as real / total as real * 100.0
  }

  /** The lines for the severities of `order` present in `counts`, in
      the order of `order`, labelled from `info`. A division happens only
      for a present severity, so a zero total is harmless when none is
      present. */
  function BreakdownOf(order: seq<string>, info: map<string, SeverityMeta>, counts: map<string, nat>, total: nat)
    : (lines: seq<BreakdownLine>)
    requires forall s :: s in order ==> s in info
    requires total > 0 || forall s :: s in order ==> s !in counts
    ensures forall l :: l in lines ==>
              && l.severity in order && l.severity in counts
              && l.count == counts[l.severity]
              && l.labelText == info[l.severity].labelText
              && l.percent == Percent(l.count, total)
  {
    if order == [] then []
    else
      var s := order[0];
      var rest := BreakdownOf(order[1..], info, counts, total);
      assert forall x :: x in order[1..] ==> x in order;
      if s in counts then [BreakdownLine(s, info[s].labelText, counts[s], Percent(counts[s], total))] + rest
      else rest
  }

  /** The breakdown of `severity_counts` against `total_errors`, in the
      fixed severity order. */
  function Breakdown(counts: map<string, nat>, total: nat): seq<BreakdownLine>
    requires total > 0 || forall s :: s in BreakdownOrder ==> s !in counts
  {
    SeverityTablesAgree();
    BreakdownOf(BreakdownOrder, SeverityInfo, counts, total)
  }

  /** Every listed severity that has a count gets a line. */
  lemma {:induction false} BreakdownListsPresent(
    order: seq<string>, info: map<string, SeverityMeta>, counts: map<string, nat>, total: nat, s: string)
    requires forall x :: x in order ==> x in info
    requires total > 0 || forall x :: x in order ==> x !in counts
    requires s in order && s in counts
    ensures exists l :: l in BreakdownOf(order, info, counts, total) && l.severity == s
  {
    assert forall x :: x in order[1..] ==> x in order;
    var lines := BreakdownOf(order, info, counts, total);
    var rest := BreakdownOf(order[1..], info, counts, total);
    if order[0] == s {
      assert lines[0].severity == s;
    } else {
      BreakdownListsPresent(order[1..], info, counts, total, s);
      var l :| l in rest && l.severity == s;
      assert lines == rest || lines == [lines[0]] + rest;
    }
  }

  /** The lines list exactly the severities of `order` that have a count,
      in the order of `order`. */
  lemma {:induction false} BreakdownFollowsOrder(
    order: seq<string>, info: map<string, SeverityMeta>, counts: map<string, nat>, total: nat)
    requires forall s :: s in order ==> s in info
    requires total > 0 || forall s :: s in order ==> s !in counts
    ensures Map(BreakdownOf(order, info, counts, total), LineSeverity) == Select(order, s => s in counts, true)
  {
    if order != [] {
      var tail := order[1..];
      assert forall x :: x in tail ==> x in order;
      BreakdownFollowsOrder(tail, info, counts, total);
      var lines := BreakdownOf(order, info, counts, total);
      var rest := BreakdownOf(tail, info, counts, total);
      if order[0] in counts {
        var h := BreakdownLine(order[0], info[order[0]].labelText, counts[order[0]], Percent(counts[order[0]], total));
        assert lines == [h] + rest;
        assert lines[1..] == rest;
      }
    }
  }

  /** When `order` has no repeats, no severity gets two lines. */
  lemma BreakdownSeveritiesDistinct(
    order: seq<string>, info: map<string, SeverityMeta>, counts: map<string, nat>, total: nat)
    requires NoDup(order)
    requires forall s :: s in order ==> s in info
    requires total > 0 || forall s :: s in order ==> s !in counts
    ensures NoDup(Map(BreakdownOf(order, info, counts, total), LineSeverity))
  {
    BreakdownFollowsOrder(order, info, counts, total);
    SelectNoDup(order, s => s in counts, true);
  }

  /** A severity with no count has no buckets. */
  lemma AbsentSeverity(bs: seq<Bucket>, s: string)
    requires s !in SeverityCounts(bs)
    ensures Select(bs, SeverityOf, s) == []
  {
  }

  /** The breakdown's counts add up to the counts of the listed
      severities, one group per listed severity. */
  lemma {:induction false} BreakdownCountsAreGroups(
    order: seq<string>, info: map<string, SeverityMeta>, bs: seq<Bucket>, total: nat)
    requires forall s :: s in order ==> s in info
    requires total > 0 || forall s :: s in order ==> s !in SeverityCounts(bs)
    ensures Sum(BreakdownOf(order, info, SeverityCounts(bs), total), LineCount)
            == SumGroups(bs, CountOf, SeverityOf, order)
  {
    if order != [] {
      assert forall x :: x in order[1..] ==> x in order;
      BreakdownCountsAreGroups(order[1..], info, bs, total);
      var s := order[0];
      var rest := BreakdownOf(order[1..], info, SeverityCounts(bs), total);
      if s in SeverityCounts(bs) {
        var line := BreakdownLine(s, info[s].labelText, SeverityCounts(bs)[s], Percent(SeverityCounts(bs)[s], total));
        assert ([line] + rest)[1..] == rest;
      } else {
        AbsentSeverity(bs, s);
      }
    }
  }

  /** Shares of a common total add up. */
  lemma ShareAdd(a: real, b: real, t: real)
    requires t > 0.0
    ensures (a + b) / t * 100.0 == a / t * 100.0 + b / t * 100.0
  {
    assert (a + b) / t == a / t + b / t;
  }

  /** Sum of the percentages. */
  function SumReal(lines: seq<BreakdownLine>): real {
    if lines == [] then 0.0 else lines[0].percent + SumReal(lines[1..])
  }

  /** The printed percentages add up to the share of the total the
      printed counts make. */
  lemma {:induction false} PercentsAdd(lines: seq<BreakdownLine>, total: nat)
    requires total > 0
    requires forall l :: l in lines ==> l.percent == Percent(l.count, total)
    ensures SumReal(lines) == Sum(lines, LineCount) as real / total as real * 100.0
  {
    if lines != [] {
      assert forall l :: l in lines[1..] ==> l in lines;
      PercentsAdd(lines[1..], total);
      assert lines[0] in lines;
      ShareAdd(lines[0].count as real, Sum(lines[1..], LineCount) as real, total as real);
    }
  }

  /** Lines that account for the whole total print percentages adding
      up to 100. */
  lemma PercentsMakeHundred(lines: seq<BreakdownLine>, total: nat)
    requires total > 0 && Sum(lines, LineCount) == total
    requires forall l :: l in lines ==> l.percent == Percent(l.count, total)
    ensures SumReal(lines) == 100.0
  {
    PercentsAdd(lines, total);
    WholeShare(total as real);
  }

  lemma WholeShare(t: real)
    requires t > 0.0
    ensures t / t * 100.0 == 100.0
  {
    assert t / t == 1.0;
  }

  /** Every bucket's severity is a key of `severity_counts`. */
  lemma SeverityOfBucketCounted(bs: seq<Bucket>, i: nat)
    requires i < |bs|
    ensures bs[i].severity in SeverityCounts(bs)
  {
    assert Map(bs, SeverityOf)[i] == bs[i].severity;
  }

  /** When every severity present is listed in a duplicate-free `order`,
      its lines account for every diagnostic. */
  lemma BreakdownOfCoversAll(order: seq<string>, info: map<string, SeverityMeta>, bs: seq<Bucket>, total: nat)
    requires NoDup(order) && forall s :: s in order ==> s in info
    requires total == Sum(bs, CountOf) > 0
    requires forall s :: s in SeverityCounts(bs) ==> s in order
    ensures Sum(BreakdownOf(order, info, SeverityCounts(bs), total), LineCount) == total
  {
    BreakdownCountsAreGroups(order, info, bs, total);
    forall b | b in bs ensures SeverityOf(b) in order {
      var i :| 0 <= i < |bs| && bs[i] == b;
      SeverityOfBucketCounted(bs, i);
    }
    PartitionSum(bs, CountOf, SeverityOf, order);
  }

  /** A severity outside `order` whose buckets count makes the lines fall
      short of the total. */
  lemma BreakdownOfFallsShort(order: seq<string>, info: map<string, SeverityMeta>, bs: seq<Bucket>, total: nat, i: nat)
    requires NoDup(order) && forall s :: s in order ==> s in info
    requires total == Sum(bs, CountOf) > 0
    requires i < |bs| && bs[i].severity !in order && bs[i].count >= 1
    ensures Sum(BreakdownOf(order, info, SeverityCounts(bs), total), LineCount) < total
  {
    BreakdownCountsAreGroups(order, info, bs, total);
    PartitionSumOutside(bs, CountOf, SeverityOf, order);
    assert bs[i] in bs;
    SumOutsidePositive(bs, CountOf, SeverityOf, order, bs[i]);
  }

  /** For the buckets of a non-empty load, the breakdown accounts for
      every diagnostic exactly when every severity present is one of the
      six listed ones (a severity outside the list is counted in the
      total but never printed), and its percentages then add up to 100. */
  lemma BreakdownCoversTotal(data: seq<Record>)
    requires data != []
    ensures var st := ComputeStats(Aggregate(data));
            && st.totalErrors == |data|
            && ((Sum(Breakdown(st.severityCounts, st.totalErrors), LineCount) == |data|)
                  <==> forall s :: s in st.severityCounts ==> s in BreakdownOrder)
            && ((forall s :: s in st.severityCounts ==> s in BreakdownOrder)
                  ==> SumReal(Breakdown(st.severityCounts, st.totalErrors)) == 100.0)
  {
    var bs := Aggregate(data);
    var counts, total := SeverityCounts(bs), Sum(bs, CountOf);
    TotalIsRecordCount(data);
    SeverityTablesAgree();
    var lines := BreakdownOf(BreakdownOrder, SeverityInfo, counts, total);
    if forall s :: s in counts ==> s in BreakdownOrder {
      BreakdownOfCoversAll(BreakdownOrder, SeverityInfo, bs, total);
      PercentsMakeHundred(lines, total);
    } else {
      var s :| s in counts && s !in BreakdownOrder;
      var i :| 0 <= i < |bs| && Map(bs, SeverityOf)[i] == s;
      BreakdownOfFallsShort(BreakdownOrder, SeverityInfo, bs, total, i);
    }
  }

  // ---------------------------------------------------------------------
  // The script

  /** One row of `df_counts.to_dict(orient="records")`. */
  datatype ExportRecord = ExportRecord(severity: string, checkName: string, package: string, count: nat, examples: string)

  function ToExportRecord(b: Bucket): ExportRecord {
    ExportRecord(b.severity, b.checkName, b.package, b.count, ExamplesText(b.examples))
  }

  /** `export_data`. */
  datatype Export = Export(
    records: seq<ExportRecord>,
    stats: Stats,
    colorMap: map<string, string>,
    severityInfo: map<string, SeverityMeta>,
    existingSeverities: seq<string>)

  function MakeExport(bs: seq<Bucket>): Export {
    Export(Map(bs, ToExportRecord), ComputeStats(bs), ColorMap, SeverityInfo, ExistingSeverities(bs))
  }

  /** Each exported row is the bucket of its key: its count is the size of
      the key's group, and its examples text is the joined text of the
      group's examples, which starts with the group's first description,
      bulleted. */
  lemma ExportedRecord(data: seq<Record>, i: nat)
    requires i < |Aggregate(data)|
    ensures var bs := Aggregate(data);
            var rec := MakeExport(bs).records[i];
            var descs := Map(Select(data, KeyOf, BucketKey(bs[i])), DescriptionOf);
            && |MakeExport(bs).records| == |bs|
            && Key(rec.severity, rec.checkName, rec.package) == BucketKey(bs[i])
            && rec.count == |Select(data, KeyOf, BucketKey(bs[i]))|
            && descs != []
            && rec.examples == ExamplesText(ExampleList(descs))
            && |Bullet + descs[0]| <= |rec.examples|
            && rec.examples[..|Bullet + descs[0]|] == Bullet + descs[0]
  {
    var bs := Aggregate(data);
    var descs := Map(Select(data, KeyOf, BucketKey(bs[i])), DescriptionOf);
    BucketExamples(data, i);
    ExamplesTextShape(descs);
    assert MakeExport(bs).records[i] == ToExportRecord(bs[i]);
  }

  /** The run stops with "No data found." when nothing was loaded, and
      otherwise exports and prints the breakdown; either way it reports
      the files that failed. */
  datatype Outcome =
    | NoData(failed: seq<string>)
    | Exported(failed: seq<string>, output: Export, breakdown: seq<BreakdownLine>)

  /** The whole script over the directory entries in listing order. */
  method Run(entries: seq<ReportFile>) returns (out: Outcome)
    ensures out.failed == FailedFiles(JsonFiles(entries))
    ensures out.NoData? <==> Loaded(JsonFiles(entries), Sentinel) == []
    ensures out.Exported? ==>
              var data := Loaded(JsonFiles(entries), Sentinel);
              var bs := Aggregate(data);
              && out.output == MakeExport(bs)
              && out.output.stats.totalErrors == |data| > 0
              && out.breakdown == Breakdown(SeverityCounts(bs), Sum(bs, CountOf))
  {
    var data, failed := LoadReports(JsonFiles(entries), Sentinel);
    if data == [] {
      return NoData(failed);
    }
    var bs := Aggregate(data);
    var st := ComputeStats(bs);
    TotalIsRecordCount(data);
    out := Exported(failed, MakeExport(bs), Breakdown(st.severityCounts, st.totalErrors));
  }
}
