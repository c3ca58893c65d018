/** Sequence helpers shared by the loader, the aggregation and the hierarchy:
    filtering by a key (a group of a groupby), first-seen de-duplication
    (Series.unique), weighted sums and string joining. */
module Seqs {

  /** No element occurs twice. */
  ghost predicate NoDup<T>(xs: seq<T>) {
    forall i, j :: 0 <= i < j < |xs| ==> xs[i] != xs[j]
  }

  /** Applies `f` to every element, keeping the order. */
  function Map<T, U>(xs: seq<T>, f: T -> U): (r: seq<U>)
    ensures |r| == |xs|
    ensures forall i :: 0 <= i < |xs| ==> r[i] == f(xs[i])
  {
    if xs == [] then [] else [f(xs[0])] + Map(xs[1..], f)
  }

  /** The elements whose key under `f` is `k`, in their original order:
      one group of a groupby. */
  function Select<T(!new), K(==)>(xs: seq<T>, f: T -> K, k: K): (r: seq<T>)
    ensures |r| <= |xs|
    ensures forall x :: x in r <==> x in xs && f(x) == k
  {
    if xs == [] then []
    else (if f(xs[0]) == k then [xs[0]] else []) + Select(xs[1..], f, k)
  }

  /** Position of the first occurrence of `x`. */
  function FirstIndex<T(==)>(xs: seq<T>, x: T): (i: nat)
    requires x in xs
    ensures i < |xs| && xs[i] == x
    ensures forall j :: 0 <= j < i ==> xs[j] != x
  {
    if xs[0] == x then 0 else 1 + FirstIndex(xs[1..], x)
  }

  /** The distinct elements in order of first appearance (what
      `Series.unique()` returns). */
  function Distinct<T(==,!new)>(xs: seq<T>): (r: seq<T>)
    ensures NoDup(r)
    ensures forall x :: x in r <==> x in xs
    ensures |r| <= |xs|
  {
    if xs == [] then []
    else
      var init, last := xs[..|xs| - 1], xs[|xs| - 1];
      assert xs == init + [last];
      var d := Distinct(init);
      if last in d then d else d + [last]
  }

  /** The first `n` elements, or all of them when there are fewer
      (Python's `xs[:n]`). */
  function Take<T>(xs: seq<T>, n: nat): (r: seq<T>)
    ensures |r| == if |xs| < n then |xs| else n
    ensures forall i :: 0 <= i < |r| ==> r[i] == xs[i]
  {
    if |xs| <= n then xs else xs[..n]
  }

  /** The concatenation of `f(x)` over the elements, in order. */
  function ConcatMap<T, U>(xs: seq<T>, f: T -> seq<U>): seq<U> {
    if xs == [] then [] else ConcatMap(xs[..|xs| - 1], f) + f(xs[|xs| - 1])
  }

  /** Sum of `w` over the elements. */
  function Sum<T>(xs: seq<T>, w: T -> nat): nat {
    if xs == [] then 0 else w(xs[0]) + Sum(xs[1..], w)
  }

  /** Sum of the group sums, one group per key of `ks`. */
  function SumGroups<T(!new), K(==)>(xs: seq<T>, w: T -> nat, f: T -> K, ks: seq<K>): nat {
    if ks == [] then 0 else Sum(Select(xs, f, ks[0]), w) + SumGroups(xs, w, f, ks[1..])
  }

  /** Sum of `w` over the elements whose key under `f` is not in `ks`. */
  function SumOutside<T(!new), K(==)>(xs: seq<T>, w: T -> nat, f: T -> K, ks: seq<K>): nat {
    if xs == [] then 0 else (if f(xs[0]) in ks then 0 else w(xs[0])) + SumOutside(xs[1..], w, f, ks)
  }

  /** `sep.join(parts)`. */
  function Join(parts: seq<string>, sep: string): string {
    if parts == [] then ""
    else if |parts| == 1 then parts[0]
    else parts[0] + sep + Join(parts[1..], sep)
  }

  /** Total length of the parts. */
  function TotalLength(parts: seq<string>): nat {
    if parts == [] then 0 else |parts[0]| + TotalLength(parts[1..])
  }

  // ---------------------------------------------------------------------
  // First-seen order

  /** Appending an element does not move the first occurrence of an
      element already present. */
  lemma FirstIndexAppend<T(!new)>(xs: seq<T>, x: T, y: T)
    requires y in xs
    ensures FirstIndex(xs + [x], y) == FirstIndex(xs, y)
  {
    var j := FirstIndex(xs, y);
    assert (xs + [x])[j] == y;
    assert forall k :: 0 <= k < |xs| ==> (xs + [x])[k] == xs[k];
  }

  /** The distinct elements come out ordered by their first occurrence. */
  lemma {:induction false} DistinctFirstSeenOrder<T(!new)>(xs: seq<T>)
    ensures forall i, j :: 0 <= i < j < |Distinct(xs)| ==>
              FirstIndex(xs, Distinct(xs)[i]) < FirstIndex(xs, Distinct(xs)[j])
  {
    if xs != [] {
      var init, last := xs[..|xs| - 1], xs[|xs| - 1];
      assert xs == init + [last];
      DistinctFirstSeenOrder(init);
      var d := Distinct(init);
      forall y | y in init
        ensures FirstIndex(xs, y) == FirstIndex(init, y)
      {
        FirstIndexAppend(init, last, y);
      }
      if last !in d {
        assert last !in init;
        assert forall k :: 0 <= k < |init| ==> xs[k] == init[k];
        assert FirstIndex(xs, last) == |init|;
      }
    }
  }

  /** A group of a duplicate-free sequence is duplicate-free. */
  lemma {:induction false} SelectNoDup<T(!new), K>(xs: seq<T>, f: T -> K, k: K)
    requires NoDup(xs)
    ensures NoDup(Select(xs, f, k))
  {
    if xs != [] {
      assert NoDup(xs[1..]) by {
        assert forall i :: 0 <= i < |xs[1..]| ==> xs[1..][i] == xs[i + 1];
      }
      SelectNoDup(xs[1..], f, k);
      assert forall i :: 0 <= i < |xs[1..]| ==> xs[1..][i] == xs[i + 1];
      assert xs[0] !in xs[1..];
    }
  }

  /** The number of distinct elements is the size of the element set. */
  lemma {:induction false} DistinctCardinality<T(!new)>(xs: seq<T>)
    ensures |Distinct(xs)| == |set x | x in xs|
  {
    if xs != [] {
      var init, last := xs[..|xs| - 1], xs[|xs| - 1];
      assert xs == init + [last];
      DistinctCardinality(init);
      var s := set x | x in init;
      assert (set x | x in xs) == s + {last};
      if last !in Distinct(init) {
        assert last !in s;
      } else {
        assert last in s;
        assert s + {last} == s;
      }
    }
  }

  /** What `Take(Distinct(xs), n)` leaves out of `xs` was first seen
      after everything it keeps, and only once `n` were kept. */
  lemma TakeDistinctLeavesLater<T(!new)>(xs: seq<T>, n: nat, x: T)
    requires n > 0 && x in xs && x !in Take(Distinct(xs), n)
    ensures |Take(Distinct(xs), n)| == n
    ensures FirstIndex(xs, Take(Distinct(xs), n)[n - 1]) < FirstIndex(xs, x)
  {
    var u := Distinct(xs);
    var p :| 0 <= p < |u| && u[p] == x;
    assert p >= n;
    DistinctFirstSeenOrder(xs);
    assert u[n - 1] == Take(u, n)[n - 1];
  }

  // ---------------------------------------------------------------------
  // Concatenation

  lemma {:induction false} ConcatMapAppend<T, U>(a: seq<T>, b: seq<T>, f: T -> seq<U>)
    ensures ConcatMap(a + b, f) == ConcatMap(a, f) + ConcatMap(b, f)
  {
    if b == [] {
      assert a + b == a;
    } else {
      var init, last := b[..|b| - 1], b[|b| - 1];
      var ab := a + b;
      assert ab[..|ab| - 1] == a + init;
      assert ab[|ab| - 1] == last;
      ConcatMapAppend(a, init, f);
    }
  }

  // ---------------------------------------------------------------------
  // Sums

  lemma {:induction false} SumAppend<T(!new)>(a: seq<T>, b: seq<T>, w: T -> nat)
    ensures Sum(a + b, w) == Sum(a, w) + Sum(b, w)
  {
    if a == [] {
      assert a + b == b;
    } else {
      assert (a + b)[1..] == a[1..] + b;
      SumAppend(a[1..], b, w);
    }
  }

  /** Selecting from an empty sequence gives empty groups. */
  lemma {:induction false} SumGroupsOfEmpty<T(!new), K>(w: T -> nat, f: T -> K, ks: seq<K>)
    ensures SumGroups([], w, f, ks) == 0
  {
    if ks != [] {
      SumGroupsOfEmpty(w, f, ks[1..]);
    }
  }

  /** The first element of `xs` adds its weight to exactly the group of
      its key, when that key is listed once. */
  lemma {:induction false} SumGroupsCons<T(!new), K>(xs: seq<T>, w: T -> nat, f: T -> K, ks: seq<K>)
    requires xs != [] && NoDup(ks)
    ensures SumGroups(xs, w, f, ks)
            == SumGroups(xs[1..], w, f, ks) + (if f(xs[0]) in ks then w(xs[0]) else 0)
  {
    if ks != [] {
      NoDupTail(ks);
      SumGroupsCons(xs, w, f, ks[1..]);
      SumSelectCons(xs, w, f, ks[0]);
      assert f(xs[0]) in ks <==> f(xs[0]) == ks[0] || f(xs[0]) in ks[1..] by {
        assert ks == [ks[0]] + ks[1..];
      }
      if f(xs[0]) == ks[0] {
        assert forall t :: 0 <= t < |ks[1..]| ==> ks[1..][t] == ks[t + 1];
        assert f(xs[0]) !in ks[1..];
      }
    }
  }

  /** Dropping the head keeps a sequence duplicate-free. */
  lemma NoDupTail<T>(xs: seq<T>)
    requires xs != [] && NoDup(xs)
    ensures NoDup(xs[1..])
  {
    forall i, j | 0 <= i < j < |xs[1..]| ensures xs[1..][i] != xs[1..][j] {
      assert xs[1..][i] == xs[i + 1] && xs[1..][j] == xs[j + 1];
    }
  }

  /** The first element adds its weight to the group of its own key only. */
  lemma SumSelectCons<T(!new), K>(xs: seq<T>, w: T -> nat, f: T -> K, k: K)
    requires xs != []
    ensures Sum(Select(xs, f, k), w) == Sum(Select(xs[1..], f, k), w) + (if f(xs[0]) == k then w(xs[0]) else 0)
  {
    var head := if f(xs[0]) == k then [xs[0]] else [];
    SumAppend(head, Select(xs[1..], f, k), w);
    if f(xs[0]) == k {
      assert head[1..] == [];
    }
  }

  /** Splitting a sequence into the groups of its keys loses and
      duplicates no weight: the group sums add up to the whole sum. */
  lemma {:induction false} PartitionSum<T(!new), K>(xs: seq<T>, w: T -> nat, f: T -> K, ks: seq<K>)
    requires NoDup(ks)
    requires forall x :: x in xs ==> f(x) in ks
    ensures Sum(xs, w) == SumGroups(xs, w, f, ks)
  {
    if xs == [] {
      SumGroupsOfEmpty(w, f, ks);
    } else {
      assert xs == [xs[0]] + xs[1..];
      PartitionSum(xs[1..], w, f, ks);
      SumGroupsCons(xs, w, f, ks);
    }
  }

  /** A sum over mapped elements, when `v` of the image weighs what `w`
      of the element weighs. */
  lemma {:induction false} SumOfMap<T, U>(xs: seq<T>, g: T -> U, v: U -> nat, w: T -> nat)
    requires forall x :: v(g(x)) == w(x)
    ensures Sum(Map(xs, g), v) == Sum(xs, w)
  {
    if xs != [] {
      assert Map(xs, g)[1..] == Map(xs[1..], g);
      SumOfMap(xs[1..], g, v, w);
    }
  }

  /** Values standing one for each key, each weighing the sum of its
      key's group, weigh together what the groups weigh. */
  lemma {:induction false} SumOfGroupWeights<T(!new), K, N>(
    xs: seq<T>, w: T -> nat, f: T -> K, ks: seq<K>, ns: seq<N>, v: N -> nat)
    requires |ns| == |ks|
    requires forall i :: 0 <= i < |ks| ==> v(ns[i]) == Sum(Select(xs, f, ks[i]), w)
    ensures Sum(ns, v) == SumGroups(xs, w, f, ks)
  {
    if ks != [] {
      SumOfGroupWeights(xs, w, f, ks[1..], ns[1..], v);
    }
  }

  /** The groups of some distinct keys hold the whole sum except the
      weight of the elements whose key is not among them. */
  lemma {:induction false} PartitionSumOutside<T(!new), K>(xs: seq<T>, w: T -> nat, f: T -> K, ks: seq<K>)
    requires NoDup(ks)
    ensures Sum(xs, w) == SumGroups(xs, w, f, ks) + SumOutside(xs, w, f, ks)
  {
    if xs == [] {
      SumGroupsOfEmpty(w, f, ks);
    } else {
      PartitionSumOutside(xs[1..], w, f, ks);
      SumGroupsCons(xs, w, f, ks);
    }
  }

  /** An element of positive weight whose key is outside `ks` leaves
      something outside. */
  lemma {:induction false} SumOutsidePositive<T(!new), K>(xs: seq<T>, w: T -> nat, f: T -> K, ks: seq<K>, x: T)
    requires x in xs && f(x) !in ks && w(x) > 0
    ensures SumOutside(xs, w, f, ks) > 0
  {
    if xs[0] != x {
      SumOutsidePositive(xs[1..], w, f, ks, x);
    }
  }

  /** A group of a group, when the inner key determines the outer one, is
      the inner group of the whole sequence. */
  lemma {:induction false} SelectNested<T(!new), J, K>(xs: seq<T>, g: T -> J, j: J, f: T -> K, k: K)
    requires forall x :: f(x) == k ==> g(x) == j
    ensures Select(Select(xs, g, j), f, k) == Select(xs, f, k)
  {
    if xs != [] {
      SelectNested(xs[1..], g, j, f, k);
      var head := if g(xs[0]) == j then [xs[0]] else [];
      var rest := Select(xs[1..], g, j);
      assert Select(xs, g, j) == head + rest;
      SelectAppend(head, rest, f, k);
    }
  }

  lemma {:induction false} SelectAppend<T(!new), K>(a: seq<T>, b: seq<T>, f: T -> K, k: K)
    ensures Select(a + b, f, k) == Select(a, f, k) + Select(b, f, k)
  {
    if a == [] {
      assert a + b == b;
    } else {
      assert (a + b)[1..] == a[1..] + b;
      SelectAppend(a[1..], b, f, k);
    }
  }

  /** Group sums over a set of keys only see the elements that carry one
      of those keys. */
  lemma {:induction false} SumGroupsOfSelected<T(!new), J, K>(
    xs: seq<T>, w: T -> nat, g: T -> J, j: J, f: T -> K, ks: seq<K>)
    requires forall x :: f(x) in ks ==> g(x) == j
    ensures SumGroups(Select(xs, g, j), w, f, ks) == SumGroups(xs, w, f, ks)
  {
    if ks != [] {
      assert ks[0] in ks;
      assert forall x :: f(x) in ks[1..] ==> f(x) in ks;
      SelectNested(xs, g, j, f, ks[0]);
      SumGroupsOfSelected(xs, w, g, j, f, ks[1..]);
    }
  }

  // ---------------------------------------------------------------------
  // Joining

  /** `sep.join(parts)` holds every part and exactly one separator between
      each two neighbouring parts. */
  lemma {:induction false} JoinLength(parts: seq<string>, sep: string)
    requires parts != []
    ensures |Join(parts, sep)| == TotalLength(parts) + (|parts| - 1) * |sep|
  {
    if |parts| > 1 {
      JoinLength(parts[1..], sep);
    }
  }

  /** Where the `i`-th part starts in `sep.join(parts)`: after the parts
      before it and one separator for each of them. */
  function PartStart(parts: seq<string>, sep: string, i: nat): nat
    requires i <= |parts|
  {
    TotalLength(parts[..i]) + i * |sep|
  }

  /** The `i`-th part sits at its start in `text`, followed by `sep`
      unless it is the last part. */
  ghost predicate PartPlaced(text: string, parts: seq<string>, sep: string, i: nat)
    requires i < |parts|
  {
    var s, e := PartStart(parts, sep, i), PartStart(parts, sep, i) + |parts[i]|;
    && e <= |text|
    && text[s..e] == parts[i]
    && (i + 1 < |parts| ==> e + |sep| <= |text| && text[e..e + |sep|] == sep)
  }

  lemma {:induction false} JoinPartAt(parts: seq<string>, sep: string, i: nat)
    requires i < |parts|
    ensures PartPlaced(Join(parts, sep), parts, sep, i)
  {
    if i == 0 {
      JoinFirstPlaced(parts, sep);
    } else {
      var tail := parts[1..];
      JoinPartAt(tail, sep, i - 1);
      PartStartStep(parts, sep, i);
      var head := parts[0] + sep;
      assert Join(parts, sep) == head + Join(tail, sep);
      var s := PartStart(tail, sep, i - 1);
      var e := s + |parts[i]|;
      SliceAfter(head, Join(tail, sep), s, e);
      if i + 1 < |parts| {
        SliceAfter(head, Join(tail, sep), e, e + |sep|);
      }
    }
  }

  /** The first part opens the joined string, followed by `sep` when more follow. */
  lemma JoinFirstPlaced(parts: seq<string>, sep: string)
    requires parts != []
    ensures PartPlaced(Join(parts, sep), parts, sep, 0)
  {
    assert parts[..0] == [];
    if 1 < |parts| {
      var j := Join(parts, sep);
      assert j == parts[0] + sep + Join(parts[1..], sep);
      assert j[|parts[0]|..|parts[0]| + |sep|] == sep;
    }
  }

  /** Part `i` starts one part and one separator later than part `i - 1` of the tail. */
  lemma PartStartStep(parts: seq<string>, sep: string, i: nat)
    requires 0 < i < |parts|
    ensures PartStart(parts, sep, i) == |parts[0]| + |sep| + PartStart(parts[1..], sep, i - 1)
  {
    assert parts[..i][1..] == parts[1..][..i - 1];
    assert i * |sep| == |sep| + (i - 1) * |sep|;
  }

  /** A slice of `y` is the same slice of `x + y`, shifted by `|x|`. */
  lemma SliceAfter(x: string, y: string, s: nat, e: nat)
    requires s <= e <= |y|
    ensures (x + y)[|x| + s..|x| + e] == y[s..e]
  {
  }

  /** `sep.join(parts)` holds every part at its start, with `sep` between
      each two neighbours. */
  lemma JoinPlacesParts(parts: seq<string>, sep: string)
    ensures forall i :: 0 <= i < |parts| ==> PartPlaced(Join(parts, sep), parts, sep, i)
  {
    forall i | 0 <= i < |parts| ensures PartPlaced(Join(parts, sep), parts, sep, i) {
      JoinPartAt(parts, sep, i);
    }
  }

  /** The joined string starts with the first part. */
  lemma {:induction false} JoinStartsWithFirst(parts: seq<string>, sep: string)
    requires parts != []
    ensures |parts[0]| <= |Join(parts, sep)|
    ensures Join(parts, sep)[..|parts[0]|] == parts[0]
  {
  }
}
