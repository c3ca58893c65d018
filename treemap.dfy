/** scripts/generate_treemap.py: load the reports with the capitalised
    sentinel "Unknown", aggregate them into the same buckets, and describe
    the treemap Plotly draws from them: a root "All Errors", one child per
    severity, one grandchild per check name of that severity, and one leaf
    per bucket named after its package, sized by the bucket's count. Plotly
    sizes an inner node by the sum of what lies beneath it; here each inner
    node carries the summed count of its buckets, and `Balanced` states that
    this is the sum of its children's sizes. Rendering and writing
    `output/index.html` are left to the caller: `Run` returns the tree. */
module Treemap {
  import opened Seqs
  import opened Reports
  import opened Buckets

  /** The value `.get` falls back to for a missing check name or severity. */
  const Sentinel: string := "Unknown"

  /** The label of the constant first level of the path. */
  const RootName: string := "All Errors"

  /** `color_discrete_map` of this script: its grey entry is keyed by the
      capitalised sentinel. */
  const ColorMap: map<string, string> := map[
    "blocker" := "#C62828",
    "critical" := "#E53935",
    "major" := "#EF7B7B",
    "minor" := "#FFB74D",
    "info" := "#64B5F6",
    "Unknown" := "#9E9E9E"
  ]

  /** A missing severity is filled with a key of the colour map, so a
      record without a severity is drawn grey rather than with a default
      colour. */
  lemma MissingSeverityHasColor(item: Item, package: string)
    requires item.Issue? && item.severity.None?
    ensures Normalize(item, package, Sentinel).severity in ColorMap
    ensures ColorMap[Normalize(item, package, Sentinel).severity] == "#9E9E9E"
  {
  }

  // ---------------------------------------------------------------------
  // The hierarchy

  /** A rectangle of the treemap: its label, its size and what it holds. */
  datatype Tree = Node(name: string, weight: nat, children: seq<Tree>)

  function NameOf(t: Tree): string { t.name }
  function WeightOf(t: Tree): nat { t.weight }

  /** Every inner node weighs the sum of its children, at every level. */
  ghost predicate Balanced(t: Tree) {
    && (t.children != [] ==> t.weight == Sum(t.children, WeightOf))
    && forall i :: 0 <= i < |t.children| ==> Balanced(t.children[i])
  }

  /** The leaf of one bucket: its package, sized by its count. */
  function Leaf(b: Bucket): Tree {
    Node(b.package, b.count, [])
  }

  /** The node of one check name among the buckets of one severity. */
  function CheckNode(bs: seq<Bucket>, c: string): Tree {
    var group := Select(bs, CheckNameOf, c);
    Node(c, Sum(group, CountOf), Map(group, Leaf))
  }

  /** The node of one severity: one child per check name of its buckets,
      in the order the rows first show them. */
  function SeverityNode(bs: seq<Bucket>, s: string): Tree {
    var group := Select(bs, SeverityOf, s);
    var checks := Distinct(Map(group, CheckNameOf));
    Node(s, Sum(group, CountOf), Map(checks, c => CheckNode(group, c)))
  }

  /** The whole tree of `df_counts`: "All Errors" over the severities in
      the order the rows first show them. */
  function Hierarchy(bs: seq<Bucket>): Tree {
    var severities := Distinct(Map(bs, SeverityOf));
    Node(RootName, Sum(bs, CountOf), Map(severities, s => SeverityNode(bs, s)))
  }

  // ---------------------------------------------------------------------
  // Sizes sum upward

  lemma CheckNodeBalanced(bs: seq<Bucket>, c: string)
    ensures Balanced(CheckNode(bs, c))
  {
    var group := Select(bs, CheckNameOf, c);
    SumOfMap(group, Leaf, WeightOf, CountOf);
  }

  lemma SeverityNodeBalanced(bs: seq<Bucket>, s: string)
    ensures Balanced(SeverityNode(bs, s))
  {
    var group := Select(bs, SeverityOf, s);
    var checks := Distinct(Map(group, CheckNameOf));
    var kids := Map(checks, c => CheckNode(group, c));
    forall i | 0 <= i < |kids| ensures Balanced(kids[i]) {
      CheckNodeBalanced(group, checks[i]);
    }
    SumOfGroupWeights(group, CountOf, CheckNameOf, checks, kids, WeightOf);
    assert forall b :: b in group ==> CheckNameOf(b) in Map(group, CheckNameOf);
    PartitionSum(group, CountOf, CheckNameOf, checks);
  }

  /** Each inner node of the treemap weighs the sum of its children, so
      the root weighs the total of all bucket counts. */
  lemma HierarchyBalanced(bs: seq<Bucket>)
    ensures Balanced(Hierarchy(bs))
    ensures Hierarchy(bs).weight == Sum(bs, CountOf)
  {
    var severities := Distinct(Map(bs, SeverityOf));
    var kids := Map(severities, s => SeverityNode(bs, s));
    forall i | 0 <= i < |kids| ensures Balanced(kids[i]) {
      SeverityNodeBalanced(bs, severities[i]);
    }
    SumOfGroupWeights(bs, CountOf, SeverityOf, severities, kids, WeightOf);
    assert forall b :: b in bs ==> SeverityOf(b) in Map(bs, SeverityOf);
    PartitionSum(bs, CountOf, SeverityOf, severities);
  }

  /** Over the buckets of some records, the root weighs the number of
      records and each severity node the number of records of its
      severity. */
  lemma HierarchyCountsRecords(data: seq<Record>)
    ensures var t := Hierarchy(Aggregate(data));
            && t.weight == |data|
            && forall i :: 0 <= i < |t.children| ==>
                 t.children[i].weight == |Select(data, RecordSeverity, t.children[i].name)|
  {
    var bs := Aggregate(data);
    TotalIsRecordCount(data);
    var severities := Distinct(Map(bs, SeverityOf));
    forall i | 0 <= i < |severities|
      ensures SeverityNode(bs, severities[i]).weight == |Select(data, RecordSeverity, severities[i])|
    {
      SeverityTotalIsRecordCount(data, severities[i]);
    }
  }

  // ---------------------------------------------------------------------
  // Leaves and buckets

  /** No two buckets share a key: what a groupby yields. */
  ghost predicate KeysDistinct(bs: seq<Bucket>) {
    forall i, j :: 0 <= i < j < |bs| ==> BucketKey(bs[i]) != BucketKey(bs[j])
  }

  /** The buckets of `df_counts` have distinct keys. */
  lemma AggregateKeysDistinct(data: seq<Record>)
    ensures KeysDistinct(Aggregate(data))
  {
    var ks := GroupKeys(data);
    assert NoDup(ks);
  }

  /** Buckets with distinct keys are distinct. */
  lemma KeysDistinctNoDup(bs: seq<Bucket>)
    requires KeysDistinct(bs)
    ensures NoDup(bs)
  {
    forall i, j | 0 <= i < j < |bs| ensures bs[i] != bs[j] {
      assert BucketKey(bs[i]) != BucketKey(bs[j]);
    }
  }

  /** Among buckets with distinct keys, a key names one bucket. */
  lemma KeyNamesOneBucket(bs: seq<Bucket>, x: Bucket, y: Bucket)
    requires KeysDistinct(bs)
    requires x in bs && y in bs && BucketKey(x) == BucketKey(y)
    ensures x == y
  {
    var i :| 0 <= i < |bs| && bs[i] == x;
    var j :| 0 <= j < |bs| && bs[j] == y;
    if i != j {
      assert false;
    }
  }

  lemma SeverityChild(bs: seq<Bucket>, x: Bucket) returns (a: nat)
    requires x in bs
    ensures a < |Hierarchy(bs).children| && Hierarchy(bs).children[a] == SeverityNode(bs, x.severity)
  {
    var severities := Distinct(Map(bs, SeverityOf));
    assert SeverityOf(x) in Map(bs, SeverityOf);
    a :| 0 <= a < |severities| && severities[a] == x.severity;
  }

  lemma CheckChild(bs: seq<Bucket>, x: Bucket) returns (b: nat)
    requires x in bs
    ensures var sn := SeverityNode(bs, x.severity);
            && b < |sn.children|
            && sn.children[b] == CheckNode(Select(bs, SeverityOf, x.severity), x.checkName)
  {
    var group := Select(bs, SeverityOf, x.severity);
    var checks := Distinct(Map(group, CheckNameOf));
    assert x in group;
    assert CheckNameOf(x) in Map(group, CheckNameOf);
    b :| 0 <= b < |checks| && checks[b] == x.checkName;
  }

  lemma LeafChild(group: seq<Bucket>, x: Bucket) returns (c: nat)
    requires x in group
    ensures var cn := CheckNode(group, x.checkName);
            c < |cn.children| && cn.children[c] == Leaf(x)
  {
    var leaves := Select(group, CheckNameOf, x.checkName);
    assert x in leaves;
    c :| 0 <= c < |leaves| && leaves[c] == x;
  }

  /** Every bucket has its leaf, under the node of its check name, under
      the node of its severity. */
  lemma BucketHasLeaf(bs: seq<Bucket>, k: nat) returns (a: nat, b: nat, c: nat)
    requires k < |bs|
    ensures var t := Hierarchy(bs);
            && t.name == RootName
            && a < |t.children| && t.children[a].name == bs[k].severity
            && b < |t.children[a].children| && t.children[a].children[b].name == bs[k].checkName
            && c < |t.children[a].children[b].children|
            && t.children[a].children[b].children[c] == Leaf(bs[k])
  {
    var x := bs[k];
    a := SeverityChild(bs, x);
    b := CheckChild(bs, x);
    var group := Select(bs, SeverityOf, x.severity);
    assert x in group;
    c := LeafChild(group, x);
  }

  /** Every leaf is the leaf of a bucket whose severity and check name are
      the names of the nodes above it. */
  lemma LeafHasBucket(bs: seq<Bucket>, a: nat, b: nat, c: nat) returns (x: Bucket)
    requires var t := Hierarchy(bs);
             && a < |t.children| && b < |t.children[a].children|
             && c < |t.children[a].children[b].children|
    ensures var t := Hierarchy(bs);
            && x in bs
            && x.severity == t.children[a].name
            && x.checkName == t.children[a].children[b].name
            && t.children[a].children[b].children[c] == Leaf(x)
  {
    var severities := Distinct(Map(bs, SeverityOf));
    var s := severities[a];
    var group := Select(bs, SeverityOf, s);
    var checks := Distinct(Map(group, CheckNameOf));
    var leaves := Select(group, CheckNameOf, checks[b]);
    x := leaves[c];
    assert x in leaves;
  }

  /** The root's children are named by the distinct severities of the
      rows, in first-seen order, so no two share a name and each has a
      bucket beneath it. */
  lemma SeverityNamesDistinct(bs: seq<Bucket>)
    ensures Map(Hierarchy(bs).children, NameOf) == Distinct(Map(bs, SeverityOf))
    ensures NoDup(Map(Hierarchy(bs).children, NameOf))
  {
    assert Map(Hierarchy(bs).children, NameOf) == Distinct(Map(bs, SeverityOf));
  }

  /** The children of a severity node are named by the distinct check
      names of that severity's rows, in first-seen order, so no two share a
      name and each has a bucket beneath it. */
  lemma CheckNamesDistinct(bs: seq<Bucket>, s: string)
    ensures Map(SeverityNode(bs, s).children, NameOf) == Distinct(Map(Select(bs, SeverityOf, s), CheckNameOf))
    ensures NoDup(Map(SeverityNode(bs, s).children, NameOf))
  {
    var group := Select(bs, SeverityOf, s);
    assert Map(SeverityNode(bs, s).children, NameOf) == Distinct(Map(group, CheckNameOf));
  }

  /** When bucket keys are distinct, no two leaves under a check node share
      a package. */
  lemma PackageNamesDistinct(bs: seq<Bucket>, s: string, c: string)
    requires KeysDistinct(bs)
    ensures NoDup(Map(CheckNode(Select(bs, SeverityOf, s), c).children, NameOf))
  {
    var group := Select(bs, SeverityOf, s);
    var leaves := Select(group, CheckNameOf, c);
    var names := Map(CheckNode(group, c).children, NameOf);
    assert |names| == |leaves|;
    forall i, j | 0 <= i < j < |names| ensures names[i] != names[j] {
      var x, y := leaves[i], leaves[j];
      assert names[i] == x.package && names[j] == y.package;
      assert x in leaves && y in leaves;
      KeysDistinctNoDup(bs);
      SelectNoDup(bs, SeverityOf, s);
      SelectNoDup(group, CheckNameOf, c);
      if BucketKey(x) == BucketKey(y) {
        KeyNamesOneBucket(bs, x, y);
      }
    }
  }

  /** No two children of a node share a name: the severities under the
      root, the check names under a severity, and, when the bucket keys are
      distinct, the packages under a check name. */
  lemma ChildNamesDistinct(bs: seq<Bucket>, a: nat, b: nat)
    requires KeysDistinct(bs)
    requires var t := Hierarchy(bs); a < |t.children| && b < |t.children[a].children|
    ensures var t := Hierarchy(bs);
            && NoDup(Map(t.children, NameOf))
            && NoDup(Map(t.children[a].children, NameOf))
            && NoDup(Map(t.children[a].children[b].children, NameOf))
  {
    var severities := Distinct(Map(bs, SeverityOf));
    var s := severities[a];
    var sn := SeverityNode(bs, s);
    assert Hierarchy(bs).children[a] == sn;
    var group := Select(bs, SeverityOf, s);
    var c := Distinct(Map(group, CheckNameOf))[b];
    assert sn.children[b] == CheckNode(group, c);
    SeverityNamesDistinct(bs);
    CheckNamesDistinct(bs, s);
    PackageNamesDistinct(bs, s, c);
  }

  // ---------------------------------------------------------------------
  // The script

  /** What the script ends with: it stops with "No data found." when no
      record was loaded, otherwise it draws the tree. Both report the files
      that could not be read. */
  datatype Outcome = NoData(failed: seq<string>) | Rendered(failed: seq<string>, tree: Tree)

  /** The whole script over a directory listing: select the ".json"
      entries, load them with the "Unknown" sentinel, stop on empty data,
      and otherwise build the tree of the aggregated buckets, whose sizes
      sum upward to the number of records. */
  method Run(entries: seq<ReportFile>) returns (out: Outcome)
    ensures out.failed == FailedFiles(JsonFiles(entries))
    ensures out.NoData? <==> Loaded(JsonFiles(entries), Sentinel) == []
    ensures out.Rendered? ==>
              var data := Loaded(JsonFiles(entries), Sentinel);
              && out.tree == Hierarchy(Aggregate(data))
              && out.tree.weight == |data| > 0
              && Balanced(out.tree)
  {
    var data, failed := LoadReports(JsonFiles(entries), Sentinel);
    if data == [] {
      return NoData(failed);
    }
    var bs := Aggregate(data);
    HierarchyBalanced(bs);
    TotalIsRecordCount(data);
    out := Rendered(failed, Hierarchy(bs));
  }
}
