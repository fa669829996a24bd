/** What the point tree needs of a Dataset, a DisjointDataset and the k-d
    index over it.  Their own headers are not part of this model, so each is
    reduced to the parts PointTree.cxx touches: a dataset's array names and
    size, a disjoint dataset's segments with `append`, `npoints` and
    `index`, and the point ranges a k-d index has been given. */
module Disjoint {
  import opened Wrappers

  /** A dataset: the names of its arrays (`keys()`, `has()`) and the
      major-axis length they share (`size_major()`). */
  datatype Dataset = Dataset(keys: set<string>, size: nat)

  /** A virtual concatenation of datasets, in append order. */
  datatype DisjointDataset = DisjointDataset(datasets: seq<Dataset>)

  /** The sum of the segment sizes. */
  function SumSizes(segs: seq<Dataset>): nat
  {
    if segs == [] then 0 else SumSizes(segs[..|segs| - 1]) + segs[|segs| - 1].size
  }

  /** `npoints()`. */
  function NPoints(d: DisjointDataset): nat
  {
    SumSizes(d.datasets)
  }

  /** The global index of the first point of segment `s`. */
  function Offset(d: DisjointDataset, s: nat): nat
    requires s <= |d.datasets|
  {
    SumSizes(d.datasets[..s])
  }

  /** `append(ds)`: one more segment at the end; the point count grows by
      the dataset's size. */
  function Append(d: DisjointDataset, ds: Dataset): (r: DisjointDataset)
    ensures r.datasets == d.datasets + [ds]
    ensures NPoints(r) == NPoints(d) + ds.size
  {
    var r := DisjointDataset(d.datasets + [ds]);
    assert r.datasets[..|r.datasets| - 1] == d.datasets;
    r
  }

  /** `index(i)`: the segment holding global point `i` and the point's
      index inside it; an IndexError past the last point. */
  function Index(d: DisjointDataset, i: nat): (r: Result<(nat, nat)>)
    ensures r.Ok? <==> i < NPoints(d)
    ensures r.Err? ==> r.error == IndexError
    ensures r.Ok? ==> r.value.0 < |d.datasets| && r.value.1 < d.datasets[r.value.0].size
                      && Offset(d, r.value.0) + r.value.1 == i
    decreases |d.datasets|
  {
    if d.datasets == [] then Err(IndexError)
    else
      var n := |d.datasets|;
      var front := DisjointDataset(d.datasets[..n - 1]);
      if i < NPoints(front) then
        var r := Index(front, i);
        assert d.datasets[..r.value.0] == front.datasets[..r.value.0];
        r
      else if i - NPoints(front) < d.datasets[n - 1].size then
        assert d.datasets[..n - 1] == front.datasets;
        Ok((n - 1, i - NPoints(front)))
      else Err(IndexError)
  }

  /** The offsets grow with the segment number by the sizes in between. */
  lemma {:induction false} OffsetMonotone(d: DisjointDataset, s: nat, t: nat)
    requires s < t <= |d.datasets|
    ensures Offset(d, s) + d.datasets[s].size <= Offset(d, t)
    decreases t - s
  {
    var segs := d.datasets;
    assert segs[..t][..t - 1] == segs[..t - 1];
    if s < t - 1 {
      OffsetMonotone(d, s, t - 1);
    } else {
      assert segs[..t][t - 1] == segs[s];
    }
  }

  /** Addressing is one-to-one: a (segment, local index) pair that lies
      inside its segment is the one `index` returns for its global index. */
  lemma IndexUnique(d: DisjointDataset, s: nat, l: nat)
    requires s < |d.datasets| && l < d.datasets[s].size
    ensures Offset(d, s) + l < NPoints(d)
    ensures Index(d, Offset(d, s) + l) == Ok((s, l))
  {
    var n := |d.datasets|;
    assert d.datasets[..n] == d.datasets;
    OffsetMonotone(d, s, n);
    var r := Index(d, Offset(d, s) + l);
    SameAddress(d, s, l, r.value.0, r.value.1);
  }

  /** Two in-segment addresses with the same global index are the same. */
  lemma SameAddress(d: DisjointDataset, s: nat, l: nat, s': nat, l': nat)
    requires s < |d.datasets| && l < d.datasets[s].size
    requires s' < |d.datasets| && l' < d.datasets[s'].size
    requires Offset(d, s) + l == Offset(d, s') + l'
    ensures s == s' && l == l'
  {
    if s' < s {
      OffsetMonotone(d, s', s);
    } else if s < s' {
      OffsetMonotone(d, s, s');
    }
  }

  /** Appending keeps every old global index where it was, and the new
      points follow the old ones in the new segment. */
  lemma AppendStable(d: DisjointDataset, ds: Dataset, i: nat)
    ensures i < NPoints(d) ==> Index(Append(d, ds), i) == Index(d, i)
    ensures NPoints(d) <= i < NPoints(d) + ds.size ==>
              Index(Append(d, ds), i) == Ok((|d.datasets|, i - NPoints(d)))
  {
    var a := Append(d, ds);
    assert a.datasets[..|a.datasets| - 1] == d.datasets;
  }

  /** A k-d index reduced to the global point ranges it has been given: the
      range it was built over, then one range per `addpoints(beg, end)`. */
  datatype KdIndex = KdIndex(ranges: seq<(nat, nat)>)

  /** A k-d index built over the first `n` points of its dataset. */
  function BuildKd(n: nat): KdIndex
  {
    KdIndex([(0, n)])
  }

  /** `addpoints(beg, end)`. */
  function AddPoints(kd: KdIndex, beg: nat, end: nat): KdIndex
  {
    KdIndex(kd.ranges + [(beg, end)])
  }

  /** The ranges tile `[0, n)` in order, with no gap and no overlap, so the
      index holds each of the first `n` global points exactly once. */
  ghost predicate Covers(kd: KdIndex, n: nat)
  {
    && kd.ranges != []
    && kd.ranges[0].0 == 0
    && (forall i | 0 <= i < |kd.ranges| :: kd.ranges[i].0 <= kd.ranges[i].1)
    && (forall i | 0 <= i < |kd.ranges| - 1 :: kd.ranges[i].1 == kd.ranges[i + 1].0)
    && kd.ranges[|kd.ranges| - 1].1 == n
  }

  /** A fresh index covers the points it was built over, and adding the
      range right after them covers the grown dataset. */
  lemma CoversAddPoints(kd: KdIndex, n: nat, k: nat)
    ensures Covers(BuildKd(n), n)
    ensures Covers(kd, n) ==> Covers(AddPoints(kd, n, n + k), n + k)
  {
  }

  /** A range that starts anywhere other than at the point count leaves a
      gap or an overlap. */
  lemma CoversOnlyContiguous(kd: KdIndex, n: nat, beg: nat, end: nat, m: nat)
    requires Covers(kd, n) && beg != n
    ensures !Covers(AddPoints(kd, beg, end), m)
  {
    var r := AddPoints(kd, beg, end).ranges;
    assert r[|r| - 2] == kd.ranges[|kd.ranges| - 1];
  }
}
