/** The groupby/agg step both scripts share: records are grouped by
    (severity, check_name, package); each group becomes one bucket with its
    size as `count` and its first five distinct descriptions, bulleted and
    joined with "<br>", as `examples`. pandas sorts the group keys, so the
    buckets come out in ascending key order. */
module Buckets {
  import opened Seqs
  import opened Ordering
  import opened Reports

  datatype Key = Key(severity: string, checkName: string, package: string)

  /** One row of `df_counts`. */
  datatype Bucket = Bucket(severity: string, checkName: string, package: string, count: nat, examples: seq<string>)

  const MaxExamples: nat := 5
  const Bullet: string := "    \U{2022} "
  const Separator: string := "<br>"

  function KeyOf(r: Record): Key { Key(r.severity, r.checkName, r.package) }
  function BucketKey(b: Bucket): Key { Key(b.severity, b.checkName, b.package) }
  function KeySeverity(k: Key): string { k.severity }
  function RecordSeverity(r: Record): string { r.severity }
  function DescriptionOf(r: Record): string { r.description }
  function SeverityOf(b: Bucket): string { b.severity }
  function CheckNameOf(b: Bucket): string { b.checkName }
  function CountOf(b: Bucket): nat { b.count }

  /** Each record weighs one in a count. */
  function RecordWeight(r: Record): nat { 1 }

  /** The order pandas gives the group keys: by severity, then check
      name, then package, each compared as Python strings. */
  predicate KeyLess(a: Key, b: Key) {
    || StrLess(a.severity, b.severity)
    || (a.severity == b.severity && StrLess(a.checkName, b.checkName))
    || (a.severity == b.severity && a.checkName == b.checkName && StrLess(a.package, b.package))
  }

  lemma KeyLessIsStrictTotalOrder()
    ensures StrictTotalOrder(KeyLess)
  {
    StrLessIsStrictTotalOrder();
    forall a: Key, b: Key ensures a == b || KeyLess(a, b) || KeyLess(b, a) {
      StrLessTotal(a.severity, b.severity);
      StrLessTotal(a.checkName, b.checkName);
      StrLessTotal(a.package, b.package);
    }
  }

  // ---------------------------------------------------------------------
  // Examples

  /** The descriptions shown for a bucket, `x.unique()[:5]`. */
  function ExampleList(descs: seq<string>): seq<string> {
    Take(Distinct(descs), MaxExamples)
  }

  /** `x.unique()[:5]` holds the first five distinct descriptions of the
      group, in the order they first appear: as many as there are distinct
      descriptions, up to five, and a description is left out only when
      five were already chosen, all seen before it. */
  lemma ExampleListIsFirstSeen(descs: seq<string>)
    ensures var es := ExampleList(descs);
            && |es| == (if |set d | d in descs| < MaxExamples then |set d | d in descs| else MaxExamples)
            && NoDup(es)
            && (forall d :: d in es ==> d in descs)
            && (forall i, j :: 0 <= i < j < |es| ==> FirstIndex(descs, es[i]) < FirstIndex(descs, es[j]))
            && (forall d :: d in descs && d !in es ==>
                  |es| == MaxExamples && FirstIndex(descs, es[MaxExamples - 1]) < FirstIndex(descs, d))
  {
    DistinctFirstSeenOrder(descs);
    DistinctCardinality(descs);
    forall d | d in descs && d !in ExampleList(descs)
      ensures |ExampleList(descs)| == MaxExamples
      ensures FirstIndex(descs, ExampleList(descs)[MaxExamples - 1]) < FirstIndex(descs, d)
    {
      TakeDistinctLeavesLater(descs, MaxExamples, d);
    }
  }

  /** A non-empty group shows at least one example, and its first
      description comes first. */
  lemma ExampleListStartsWithFirst(descs: seq<string>)
    requires descs != []
    ensures 1 <= |ExampleList(descs)| <= MaxExamples
    ensures ExampleList(descs)[0] == descs[0]
  {
    var es := ExampleList(descs);
    ExampleListIsFirstSeen(descs);
    assert descs[0] in (set d | d in descs);
    assert FirstIndex(descs, descs[0]) == 0;
    if descs[0] !in es {
      assert false;
    }
    var i :| 0 <= i < |es| && es[i] == descs[0];
    if i != 0 {
      assert false;
    }
  }

  function Bulleted(d: string): string { Bullet + d }

  /** The hover text of a bucket's examples: each chosen description
      bulleted, joined with "<br>". */
  function ExamplesText(es: seq<string>): string {
    Join(Map(es, Bulleted), Separator)
  }

  /** The examples text of a non-empty group is made of its one to five
      examples, each bulleted and at its place, with one "<br>" between
      each two neighbours and nothing else (at most four separators); it
      starts with the group's first description, bulleted. */
  lemma ExamplesTextShape(descs: seq<string>)
    requires descs != []
    ensures var es := ExampleList(descs);
            var text := ExamplesText(es);
            && 1 <= |es| <= MaxExamples
            && (forall i :: 0 <= i < |es| ==> Map(es, Bulleted)[i] == Bullet + es[i])
            && (forall i :: 0 <= i < |es| ==> PartPlaced(text, Map(es, Bulleted), Separator, i))
            && |text| == TotalLength(Map(es, Bulleted)) + (|es| - 1) * |Separator|
            && |Bullet + descs[0]| <= |text|
            && text[..|Bullet + descs[0]|] == Bullet + descs[0]
  {
    var es := ExampleList(descs);
    ExampleListStartsWithFirst(descs);
    JoinPlacesParts(Map(es, Bulleted), Separator);
    JoinLength(Map(es, Bulleted), Separator);
    JoinStartsWithFirst(Map(es, Bulleted), Separator);
  }

  // ---------------------------------------------------------------------
  // Buckets

  /** The group keys present in the records, ascending and distinct. */
  function GroupKeys(data: seq<Record>): (ks: seq<Key>)
    ensures StrictlySorted(ks, KeyLess) && NoDup(ks)
    ensures forall r :: r in data ==> KeyOf(r) in ks
    ensures forall k :: k in ks ==> Select(data, KeyOf, k) != []
  {
    var keys := Map(data, KeyOf);
    KeyLessIsStrictTotalOrder();
    SortedSetIsSorted(keys, KeyLess);
    var ks := SortedSet(keys, KeyLess);
    assert forall r :: r in data ==> KeyOf(r) in keys;
    assert forall k :: k in ks ==> Select(data, KeyOf, k) != [] by {
      forall k | k in ks ensures Select(data, KeyOf, k) != [] {
        var i :| 0 <= i < |keys| && keys[i] == k;
        assert data[i] in Select(data, KeyOf, k);
      }
    }
    ks
  }

  /** The bucket of one key: the size of its group and the examples of
      the group's descriptions in arrival order. */
  function MakeBucket(data: seq<Record>, k: Key): Bucket {
    var group := Select(data, KeyOf, k);
    Bucket(k.severity, k.checkName, k.package, |group|, ExampleList(Map(group, DescriptionOf)))
  }

  function MakeBuckets(data: seq<Record>, ks: seq<Key>): (bs: seq<Bucket>)
    ensures |bs| == |ks|
    ensures forall i :: 0 <= i < |ks| ==>
              BucketKey(bs[i]) == ks[i] && bs[i].count == |Select(data, KeyOf, ks[i])|
  {
    if ks == [] then [] else [MakeBucket(data, ks[0])] + MakeBuckets(data, ks[1..])
  }

  lemma {:induction false} MakeBucketsAt(data: seq<Record>, ks: seq<Key>, i: nat)
    requires i < |ks|
    ensures MakeBuckets(data, ks)[i] == MakeBucket(data, ks[i])
  {
    if i > 0 {
      MakeBucketsAt(data, ks[1..], i - 1);
    }
  }

  /** `df_counts`: one bucket per key present, in ascending key order;
      each count is the number of records with that key, so at least
      one. */
  function Aggregate(data: seq<Record>): (bs: seq<Bucket>)
    ensures |bs| == |GroupKeys(data)|
    ensures StrictlySorted(Map(bs, BucketKey), KeyLess)
    ensures forall i :: 0 <= i < |bs| ==>
              && BucketKey(bs[i]) == GroupKeys(data)[i]
              && bs[i].count == |Select(data, KeyOf, BucketKey(bs[i]))|
              && bs[i].count >= 1
  {
    var ks := GroupKeys(data);
    var bs := MakeBuckets(data, ks);
    assert Map(bs, BucketKey) == ks;
    assert forall i :: 0 <= i < |bs| ==> ks[i] in ks;
    bs
  }

  /** A bucket's examples are the first distinct descriptions of its
      own group, starting with the group's first description. */
  lemma BucketExamples(data: seq<Record>, i: nat)
    requires i < |Aggregate(data)|
    ensures var descs := Map(Select(data, KeyOf, BucketKey(Aggregate(data)[i])), DescriptionOf);
            && descs != []
            && Aggregate(data)[i].examples == ExampleList(descs)
            && Aggregate(data)[i].examples[0] == descs[0]
  {
    var ks := GroupKeys(data);
    assert ks[i] in ks;
    var descs := Map(Select(data, KeyOf, ks[i]), DescriptionOf);
    MakeBucketsAt(data, ks, i);
    ExampleListStartsWithFirst(descs);
  }

  // ---------------------------------------------------------------------
  // Partition properties

  /** Every record lands in exactly one bucket: the one of its key. */
  lemma RecordInExactlyOneBucket(data: seq<Record>, r: Record) returns (i: nat)
    requires r in data
    ensures i < |Aggregate(data)|
    ensures BucketKey(Aggregate(data)[i]) == KeyOf(r)
    ensures forall j :: 0 <= j < |Aggregate(data)| && BucketKey(Aggregate(data)[j]) == KeyOf(r) ==> j == i
  {
    var ks := GroupKeys(data);
    i :| 0 <= i < |ks| && ks[i] == KeyOf(r);
  }

  lemma {:induction false} CountIsWeight(xs: seq<Record>)
    ensures Sum(xs, RecordWeight) == |xs|
  {
    if xs != [] {
      CountIsWeight(xs[1..]);
    }
  }

  /** The counts of the buckets of some keys add up to the sizes of
      those keys' groups. */
  lemma {:induction false} BucketCountsAreGroupSizes(data: seq<Record>, ks: seq<Key>)
    ensures Sum(MakeBuckets(data, ks), CountOf) == SumGroups(data, RecordWeight, KeyOf, ks)
  {
    if ks != [] {
      var bs := MakeBuckets(data, ks);
      assert bs[1..] == MakeBuckets(data, ks[1..]);
      BucketCountsAreGroupSizes(data, ks[1..]);
      CountIsWeight(Select(data, KeyOf, ks[0]));
    }
  }

  /** The counts add up to the number of records. */
  lemma TotalIsRecordCount(data: seq<Record>)
    ensures Sum(Aggregate(data), CountOf) == |data|
  {
    var ks := GroupKeys(data);
    BucketCountsAreGroupSizes(data, ks);
    PartitionSum(data, RecordWeight, KeyOf, ks);
    CountIsWeight(data);
  }

  lemma {:induction false} SeverityBucketsOfKeys(data: seq<Record>, ks: seq<Key>, s: string)
    ensures Select(MakeBuckets(data, ks), SeverityOf, s) == MakeBuckets(data, Select(ks, KeySeverity, s))
  {
    if ks != [] {
      var bs := MakeBuckets(data, ks);
      var b0 := MakeBucket(data, ks[0]);
      assert bs[0] == b0 && bs[1..] == MakeBuckets(data, ks[1..]);
      SeverityBucketsOfKeys(data, ks[1..], s);
      var sk := Select(ks, KeySeverity, s);
      if ks[0].severity == s {
        assert sk[0] == ks[0] && sk[1..] == Select(ks[1..], KeySeverity, s);
      } else {
        assert sk == Select(ks[1..], KeySeverity, s);
      }
    }
  }

  /** The counts of the buckets of one severity add up to the number of
      records with that severity. */
  lemma SeverityTotalIsRecordCount(data: seq<Record>, s: string)
    ensures Sum(Select(Aggregate(data), SeverityOf, s), CountOf) == |Select(data, RecordSeverity, s)|
  {
    var ks := GroupKeys(data);
    var sk := Select(ks, KeySeverity, s);
    SeverityBucketsOfKeys(data, ks, s);
    BucketCountsAreGroupSizes(data, sk);
    SelectNoDup(ks, KeySeverity, s);
    var rs := Select(data, RecordSeverity, s);
    assert forall r :: r in rs ==> KeyOf(r) in sk;
    PartitionSum(rs, RecordWeight, KeyOf, sk);
    SumGroupsOfSelected(data, RecordWeight, RecordSeverity, s, KeyOf, sk);
    CountIsWeight(rs);
  }

  /** Every bucket has a record of its key behind it. */
  lemma BucketHasRecord(data: seq<Record>, i: nat) returns (r: Record)
    requires i < |Aggregate(data)|
    ensures r in data && KeyOf(r) == BucketKey(Aggregate(data)[i])
  {
    var ks := GroupKeys(data);
    assert ks[i] in ks;
    var g := Select(data, KeyOf, ks[i]);
    r := g[0];
    assert r in g;
  }

  /** Every bucket's package is the package of some record. */
  lemma BucketPackagesWithin(data: seq<Record>)
    ensures (set b | b in Aggregate(data) :: b.package) <= (set r | r in data :: r.package)
  {
    var bs := Aggregate(data);
    forall i | 0 <= i < |bs| ensures bs[i].package in (set r | r in data :: r.package) {
      var r := BucketHasRecord(data, i);
    }
  }

  /** Every record's package is the package of some bucket. */
  lemma RecordPackagesCovered(data: seq<Record>)
    ensures (set r | r in data :: r.package) <= (set b | b in Aggregate(data) :: b.package)
  {
    var bs := Aggregate(data);
    forall r | r in data ensures r.package in (set b | b in bs :: b.package) {
      var i := RecordInExactlyOneBucket(data, r);
      assert bs[i] in bs;
    }
  }

  /** `nunique` over the buckets sees the same packages as the records. */
  lemma BucketPackagesAreRecordPackages(data: seq<Record>)
    ensures (set b | b in Aggregate(data) :: b.package) == (set r | r in data :: r.package)
  {
    BucketPackagesWithin(data);
    RecordPackagesCovered(data);
  }

  /** Every bucket's check name is the check name of some record. */
  lemma BucketCheckNamesWithin(data: seq<Record>)
    ensures (set b | b in Aggregate(data) :: b.checkName) <= (set r | r in data :: r.checkName)
  {
    var bs := Aggregate(data);
    forall i | 0 <= i < |bs| ensures bs[i].checkName in (set r | r in data :: r.checkName) {
      var r := BucketHasRecord(data, i);
    }
  }

  /** Every record's check name is the check name of some bucket. */
  lemma RecordCheckNamesCovered(data: seq<Record>)
    ensures (set r | r in data :: r.checkName) <= (set b | b in Aggregate(data) :: b.checkName)
  {
    var bs := Aggregate(data);
    forall r | r in data ensures r.checkName in (set b | b in bs :: b.checkName) {
      var i := RecordInExactlyOneBucket(data, r);
      assert bs[i] in bs;
    }
  }

  /** `nunique` over the buckets sees the same check names as the records. */
  lemma BucketCheckNamesAreRecordCheckNames(data: seq<Record>)
    ensures (set b | b in Aggregate(data) :: b.checkName) == (set r | r in data :: r.checkName)
  {
    BucketCheckNamesWithin(data);
    RecordCheckNamesCovered(data);
  }
}
