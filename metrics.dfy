/** Region records and the size statistics recomputed from them (`calculate_metrics`). */
module Metrics {

  /** The centroid `ndimage.center_of_mass` gives, truncated by `int()`; computed by the host. */
  type Centroid = seq<int>

  /** One entry of `metric_data`: (cell id, pixel count, centroid). */
  datatype Record = Record(id: nat, size: nat, centroid: Centroid)

  /** `mean_size` and the square of `std_size` (population standard deviation). */
  datatype Stats = Stats(mean: real, variance: real)

  function Sizes(records: seq<Record>): seq<nat> {
    seq(|records|, k requires 0 <= k < |records| => records[k].size)
  }

  function RecordIds(records: seq<Record>): (ids: seq<nat>)
    ensures |ids| == |records|
    ensures forall k :: 0 <= k < |records| ==> ids[k] == records[k].id
  {
    seq(|records|, k requires 0 <= k < |records| => records[k].id)
  }

  /** The records are in ascending id order. */
  predicate SortedById(rs: seq<Record>) {
    forall i, j :: 0 <= i < j < |rs| ==> rs[i].id <= rs[j].id
  }

  /** Places `x` after every record of `rs` whose id is not above its own. */
  function InsertById(rs: seq<Record>, x: Record): (r: seq<Record>)
    requires SortedById(rs)
    ensures multiset(r) == multiset(rs) + multiset{x}
    ensures SortedById(r)
  {
    if rs == [] || rs[|rs| - 1].id <= x.id then rs + [x]
    else
      var init, last := rs[..|rs| - 1], rs[|rs| - 1];
      assert rs == init + [last];
      var p := InsertById(init, x);
      BoundedBy(init, x, last, p);
      p + [last]
  }

  /** Every record of a rearrangement of `init` and `x` is at most `last`. */
  lemma BoundedBy(init: seq<Record>, x: Record, last: Record, p: seq<Record>)
    requires forall k :: 0 <= k < |init| ==> init[k].id <= last.id
    requires x.id <= last.id && multiset(p) == multiset(init) + multiset{x}
    ensures forall i :: 0 <= i < |p| ==> p[i].id <= last.id
  {
    forall i | 0 <= i < |p|
      ensures p[i].id <= last.id
    {
      assert p[i] in multiset(p);
      if p[i] != x {
        assert p[i] in multiset(init);
        assert p[i] in init;
      }
    }
  }

  /** `sorted(metric_data, key=lambda x: x[0])` (line 537): the same records,
      in ascending id order. */
  function SortById(rs: seq<Record>): (r: seq<Record>)
    ensures multiset(r) == multiset(rs)
    ensures SortedById(r)
  {
    if rs == [] then []
    else
      assert rs == rs[..|rs| - 1] + [rs[|rs| - 1]];
      InsertById(SortById(rs[..|rs| - 1]), rs[|rs| - 1])
  }

  function Sum(xs: seq<nat>): nat {
    if xs == [] then 0 else Sum(xs[..|xs| - 1]) + xs[|xs| - 1]
  }

  /** The sum of squared deviations from `mean`; never negative. */
  function SquaredDeviations(xs: seq<nat>, mean: real): (r: real)
    ensures r >= 0.0
  {
    if xs == [] then 0.0
    else
      var d := xs[|xs| - 1] as real - mean;
      SquaredDeviations(xs[..|xs| - 1], mean) + d * d
  }

  /** `calculate_metrics` (lines 1006-1012): the mean and the population variance of
      the recorded sizes; both are 0 when nothing is recorded. */
  function Compute(records: seq<Record>): (st: Stats)
    ensures records == [] ==> st == Stats(0.0, 0.0)
    ensures records != [] ==> st.mean * |records| as real == Sum(Sizes(records)) as real
    ensures records != [] ==>
              st.variance * |records| as real == SquaredDeviations(Sizes(records), st.mean)
    ensures st.variance >= 0.0
  {
    if records == [] then Stats(0.0, 0.0)
    else
      var sizes := Sizes(records);
      var n := |records| as real;
      var mean := Sum(sizes) as real / n;
      Stats(mean, SquaredDeviations(sizes, mean) / n)
  }

  lemma ScaleStep(k: nat, c: real)
    ensures (k + 1) as real * c == k as real * c + c
  {
  }

  /** n sizes none below `lo` sum to at least n × `lo`. */
  lemma {:induction false} SumAtLeast(xs: seq<nat>, lo: real)
    requires forall k :: 0 <= k < |xs| ==> lo <= xs[k] as real
    ensures |xs| as real * lo <= Sum(xs) as real
  {
    if xs != [] {
      var init := xs[..|xs| - 1];
      SumAtLeast(init, lo);
      ScaleStep(|init|, lo);
    }
  }

  /** n sizes none above `hi` sum to at most n × `hi`. */
  lemma {:induction false} SumAtMost(xs: seq<nat>, hi: real)
    requires forall k :: 0 <= k < |xs| ==> xs[k] as real <= hi
    ensures Sum(xs) as real <= |xs| as real * hi
  {
    if xs != [] {
      var init := xs[..|xs| - 1];
      SumAtMost(init, hi);
      ScaleStep(|init|, hi);
    }
  }

  lemma DivideBounds(a: real, b: real, c: real, n: real)
    requires n > 0.0 && a * n <= b <= c * n
    ensures a <= b / n <= c
  {
  }

  lemma MeanBetweenSizes(records: seq<Record>, lo: nat, hi: nat)
    requires records != []
    requires forall k :: 0 <= k < |records| ==> lo <= records[k].size <= hi
    ensures lo as real <= Compute(records).mean <= hi as real
  {
    var sizes := Sizes(records);
    SumAtLeast(sizes, lo as real);
    SumAtMost(sizes, hi as real);
    DivideBounds(lo as real, Sum(sizes) as real, hi as real, |records| as real);
  }

  /** The widget test: sizes 100 and 200 give mean 150 and standard deviation 50. */
  lemma TwoRecordsExample()
    ensures Compute([Record(1, 100, [100, 100]), Record(2, 200, [200, 200])]) == Stats(150.0, 2500.0)
  {
    var rs := [Record(1, 100, [100, 100]), Record(2, 200, [200, 200])];
    assert Sizes(rs) == [100, 200];
    assert [100, 200][..1] == [100];
    assert Sum([100, 200]) == 300;
    assert SquaredDeviations([100], 150.0) == 2500.0;
    assert SquaredDeviations([100, 200], 150.0) == 5000.0;
  }
}
