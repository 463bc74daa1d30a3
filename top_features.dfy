/**
 * Top-feature selection (services/dataService.ts): the dashboard copies the
 * feature list, sorts it by raw global weight with `Array.prototype.sort`
 * (descending for the top positive driver, ascending for the top negative
 * one) and takes element 0. `sort` is stable, so the result is the first
 * feature, in parameter order, with the extreme global weight.
 */
module TopFeatures {
  import opened Types
  import Normalize

  /** Which of the two comparators the source hands to `sort`. */
  datatype Order = Descending | Ascending

  /**
   * `(a, b) => b.global_weight - a.global_weight` (Descending) or
   * `(a, b) => a.global_weight - b.global_weight` (Ascending): a negative
   * value puts `a` first, zero keeps the two in their original order.
   */
  function Compare(order: Order, a: Feature, b: Feature): (c: real)
    ensures order == Descending ==> (c < 0.0 <==> a.globalWeight > b.globalWeight)
    ensures order == Ascending ==> (c < 0.0 <==> a.globalWeight < b.globalWeight)
    ensures c == 0.0 <==> a.globalWeight == b.globalWeight
  {
    match order
    case Descending => b.globalWeight - a.globalWeight
    case Ascending => a.globalWeight - b.globalWeight
  }

  /** Every element may stand before every later one. */
  ghost predicate Sorted(order: Order, s: seq<Feature>)
  {
    forall i, j :: 0 <= i < j < |s| ==> Compare(order, s[i], s[j]) <= 0.0
  }

  /**
   * Inserts `x`, which came before every element of `s` in the input, ahead
   * of the first element it need not follow: stable insertion.
   */
  function Insert(order: Order, x: Feature, s: seq<Feature>): (r: seq<Feature>)
    ensures multiset(r) == multiset(s) + multiset{x}
    ensures |r| == |s| + 1
  {
    if s == [] || Compare(order, x, s[0]) <= 0.0 then [x] + s
    else
      assert s == [s[0]] + s[1..];
      [s[0]] + Insert(order, x, s[1..])
  }

  /** The copied array after a stable `sort` with the comparator of `order`. */
  function Sort(order: Order, fs: seq<Feature>): (r: seq<Feature>)
    ensures multiset(r) == multiset(fs)
    ensures |r| == |fs|
  {
    if fs == [] then []
    else
      assert fs == [fs[0]] + fs[1..];
      Insert(order, fs[0], Sort(order, fs[1..]))
  }

  lemma {:induction false} InsertSorted(order: Order, x: Feature, s: seq<Feature>)
    requires Sorted(order, s)
    ensures Sorted(order, Insert(order, x, s))
  {
    if s == [] || Compare(order, x, s[0]) <= 0.0 {
    } else {
      InsertSorted(order, x, s[1..]);
      var r := Insert(order, x, s[1..]);
      forall k | 0 <= k < |r|
        ensures Compare(order, s[0], r[k]) <= 0.0
      {
        assert r[k] in multiset(r);
        if r[k] == x {
          assert Compare(order, s[0], x) == -Compare(order, x, s[0]);
        } else {
          assert r[k] in multiset(s[1..]);
          var m :| 0 <= m < |s[1..]| && s[1..][m] == r[k];
          assert s[m + 1] == r[k];
        }
      }
    }
  }

  /** The sort orders the copy by global weight and keeps its elements. */
  lemma {:induction false} SortIsSorted(order: Order, fs: seq<Feature>)
    ensures Sorted(order, Sort(order, fs))
    ensures multiset(Sort(order, fs)) == multiset(fs)
  {
    if fs != [] {
      SortIsSorted(order, fs[1..]);
      InsertSorted(order, fs[0], Sort(order, fs[1..]));
    }
  }

  /**
   * `k` is the first index whose feature is at least as extreme as every
   * feature: all earlier features are strictly less extreme.
   */
  ghost predicate FirstExtreme(order: Order, fs: seq<Feature>, k: int)
  {
    && 0 <= k < |fs|
    && (forall j :: 0 <= j < |fs| ==> Compare(order, fs[k], fs[j]) <= 0.0)
    && (forall j :: 0 <= j < k ==> Compare(order, fs[k], fs[j]) < 0.0)
  }

  /** Element 0 after inserting `x` into a non-empty list. */
  lemma InsertHead(order: Order, x: Feature, s: seq<Feature>)
    ensures Insert(order, x, s)[0] == if s == [] || Compare(order, x, s[0]) <= 0.0 then x else s[0]
  {
  }

  /** Prepending a feature that is at least as extreme as the old first extreme one makes it the first extreme one. */
  lemma FirstExtremeCons(order: Order, fs: seq<Feature>, k': int)
    requires |fs| > 1 && FirstExtreme(order, fs[1..], k')
    ensures Compare(order, fs[0], fs[1..][k']) <= 0.0 ==> FirstExtreme(order, fs, 0)
    ensures Compare(order, fs[0], fs[1..][k']) > 0.0 ==> FirstExtreme(order, fs, k' + 1)
  {
    var rest := fs[1..];
    assert forall j :: 1 <= j < |fs| ==> fs[j] == rest[j - 1];
  }

  /** Stability at the head: element 0 of the sorted copy is the first extreme feature. */
  lemma {:induction false} SortHead(order: Order, fs: seq<Feature>)
    requires fs != []
    ensures exists k :: FirstExtreme(order, fs, k) && Sort(order, fs)[0] == fs[k]
  {
    if |fs| == 1 {
      assert FirstExtreme(order, fs, 0);
    } else {
      var rest := fs[1..];
      SortHead(order, rest);
      var s := Sort(order, rest);
      assert Sort(order, fs) == Insert(order, fs[0], s);
      InsertHead(order, fs[0], s);
      var k' :| FirstExtreme(order, rest, k') && s[0] == rest[k'];
      FirstExtremeCons(order, fs, k');
      if Compare(order, fs[0], s[0]) <= 0.0 {
        assert FirstExtreme(order, fs, 0) && Sort(order, fs)[0] == fs[0];
      } else {
        assert FirstExtreme(order, fs, k' + 1) && Sort(order, fs)[0] == fs[k' + 1];
      }
    }
  }

  /** There is only one first extreme index. */
  lemma FirstExtremeUnique(order: Order, fs: seq<Feature>, k1: int, k2: int)
    requires FirstExtreme(order, fs, k1) && FirstExtreme(order, fs, k2)
    ensures k1 == k2
  {
    assert Compare(order, fs[k1], fs[k2]) <= 0.0 && Compare(order, fs[k2], fs[k1]) <= 0.0;
  }

  /** Element 0 of the sorted copy, or `None` (the source's `undefined`) for no features. */
  function Top(order: Order, fs: seq<Feature>): (r: Option<Feature>)
    ensures r.None? <==> fs == []
    ensures r.Some? ==> exists k :: FirstExtreme(order, fs, k) && r.value == fs[k]
  {
    if fs == [] then None
    else
      SortHead(order, fs);
      Some(Sort(order, fs)[0])
  }

  /**
   * `topPositive`: the first feature, in parameter order, whose raw global
   * weight is the maximum.
   */
  function TopPositive(fs: seq<Feature>): (r: Option<Feature>)
    ensures r.None? <==> fs == []
    ensures r.Some? ==> forall f :: f in fs ==> f.globalWeight <= r.value.globalWeight
    ensures r.Some? ==> exists k :: (0 <= k < |fs| && fs[k] == r.value &&
      forall j :: 0 <= j < k ==> fs[j].globalWeight < r.value.globalWeight)
  {
    Top(Descending, fs)
  }

  /**
   * `topNegative`: the first feature, in parameter order, whose raw global
   * weight is the minimum.
   */
  function TopNegative(fs: seq<Feature>): (r: Option<Feature>)
    ensures r.None? <==> fs == []
    ensures r.Some? ==> forall f :: f in fs ==> r.value.globalWeight <= f.globalWeight
    ensures r.Some? ==> exists k :: (0 <= k < |fs| && fs[k] == r.value &&
      forall j :: 0 <= j < k ==> r.value.globalWeight < fs[j].globalWeight)
  {
    Top(Ascending, fs)
  }

  /**
   * One disease analysis as the dashboard assembles it: the normalised
   * response and its two top features. The `id` (a slug of the name) is
   * passed in.
   */
  function Analyze(
    id: string, name: string, category: Category,
    ps: seq<string>, g: map<string, real>, l: map<string, real>): (a: DiseaseAnalysis)
    ensures a.id == id && a.name == name && a.category == category
    ensures a.backendData == Normalize.LoadAndNormalize(ps, g, l)
    ensures a.topPositive == TopPositive(a.backendData.features)
    ensures a.topNegative == TopNegative(a.backendData.features)
    ensures a.backendData.status == Normalize.StatusOk
    ensures a.topPositive.Some? <==> ps != []
    ensures a.topNegative.Some? <==> ps != []
    ensures a.topPositive.Some? ==> a.topPositive.value in a.backendData.features
    ensures a.topNegative.Some? ==> a.topNegative.value in a.backendData.features
    ensures a.topPositive.Some? ==> a.topNegative.value.globalWeight <= a.topPositive.value.globalWeight
  {
    var response := Normalize.LoadAndNormalize(ps, g, l);
    DiseaseAnalysis(id, name, category, response,
      TopPositive(response.features), TopNegative(response.features))
  }

  /** When every global weight is the same, both top features are the first feature. */
  lemma EqualWeightsPickFirst(fs: seq<Feature>)
    requires fs != []
    requires forall j :: 0 <= j < |fs| ==> fs[j].globalWeight == fs[0].globalWeight
    ensures TopPositive(fs) == Some(fs[0])
    ensures TopNegative(fs) == Some(fs[0])
  {
    assert FirstExtreme(Descending, fs, 0);
    var kp :| FirstExtreme(Descending, fs, kp) && TopPositive(fs).value == fs[kp];
    FirstExtremeUnique(Descending, fs, 0, kp);
    assert FirstExtreme(Ascending, fs, 0);
    var kn :| FirstExtreme(Ascending, fs, kn) && TopNegative(fs).value == fs[kn];
    FirstExtremeUnique(Ascending, fs, 0, kn);
  }

  /** Two parameters with equal weights: the first one is both top features. */
  lemma TieBreakExample()
    ensures var fs := Normalize.LoadAndNormalize(["a", "b"], map["a" := 5.0, "b" := 5.0], map[]).features;
      TopPositive(fs).Some? && TopPositive(fs).value.parameter == "a" &&
      TopNegative(fs).Some? && TopNegative(fs).value.parameter == "a"
  {
    var fs := Normalize.LoadAndNormalize(["a", "b"], map["a" := 5.0, "b" := 5.0], map[]).features;
    assert |fs| == 2 && fs[0].parameter == "a";
    assert fs[0].globalWeight == 5.0 && fs[1].globalWeight == 5.0;
    EqualWeightsPickFirst(fs);
  }
}
