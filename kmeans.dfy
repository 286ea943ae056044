/** One k-means step of the vocabulary builder (src/vocab.rs, the body of
    `cluster` and `initialize_clusters`): seeding, the nearest-centroid scan,
    the assignment of features to groups, the majority-vote update and the
    Lloyd loop that alternates them until the assignment stops changing. */
module KMeans {
  import opened Lib
  import opened Means

  /** `j` is the first index at minimum Hamming distance from `f`. */
  ghost predicate IsFirstNearest(cs: seq<Desc>, f: Desc, j: nat)
  {
    && j < |cs|
    && (forall i :: 0 <= i < |cs| ==> Hamming(f, cs[j]) <= Hamming(f, cs[i]))
    && (forall i :: 0 <= i < j ==> Hamming(f, cs[j]) < Hamming(f, cs[i]))
  }

  /** Only one index is the first nearest. */
  lemma FirstNearestUnique(cs: seq<Desc>, f: Desc, j1: nat, j2: nat)
    requires IsFirstNearest(cs, f, j1) && IsFirstNearest(cs, f, j2)
    ensures j1 == j2
  {
    assert Hamming(f, cs[j1]) <= Hamming(f, cs[j2]) && Hamming(f, cs[j2]) <= Hamming(f, cs[j1]);
  }

  /** The first nearest index among `cs[..n]`. */
  function NearestIn(cs: seq<Desc>, f: Desc, n: nat): (j: nat)
    requires 1 <= n <= |cs|
    ensures IsFirstNearest(cs[..n], f, j)
  {
    if n == 1 then 0
    else
      var b := NearestIn(cs, f, n - 1);
      if Hamming(f, cs[n - 1]) < Hamming(f, cs[b]) then n - 1 else b
  }

  /** The child chosen for `f` among the centroids `cs` (0 when there are
      none, as the scan's initial value). */
  function Nearest(cs: seq<Desc>, f: Desc): (j: nat)
    ensures |cs| > 0 ==> IsFirstNearest(cs, f, j)
    ensures |cs| == 0 ==> j == 0
  {
    if |cs| == 0 then 0
    else
      assert cs[..|cs|] == cs;
      NearestIn(cs, f, |cs|)
  }

  /** The nearest-centroid scan shared by the Lloyd assignment and the tree
      descent: start from (distance `u8::MAX`, index 0) and take a centroid
      whenever it is strictly closer. Because `hamming` never exceeds 255,
      the scan returns the first index at minimum distance. */
  method FindNearest(cs: seq<Desc>, f: Desc) returns (best: nat)
    ensures |cs| > 0 ==> IsFirstNearest(cs, f, best)
    ensures |cs| == 0 ==> best == 0
  {
    var bestDist: nat := 255;
    best := 0;
    var j := 0;
    while j < |cs|
      invariant 0 <= j <= |cs|
      invariant j == 0 ==> best == 0 && bestDist == 255
      invariant j > 0 ==> best == NearestIn(cs, f, j) && bestDist == Hamming(f, cs[best])
    {
      var d := Hamming(f, cs[j]);
      if d < bestDist {
        best, bestDist := j, d;
      }
      j := j + 1;
    }
    if j > 0 {
      assert cs[..j] == cs;
    }
  }

  /** Indices `i < |fs|`, in increasing order, of the features whose
      nearest centroid is `j`. */
  function Group(fs: seq<Desc>, cs: seq<Desc>, j: nat): seq<nat>
  {
    if |fs| == 0 then []
    else Group(fs[..|fs| - 1], cs, j) + (if Nearest(cs, fs[|fs| - 1]) == j then [|fs| - 1] else [])
  }

  /** The assignment of every feature to its nearest centroid, one group
      per centroid. */
  function Partition(fs: seq<Desc>, cs: seq<Desc>): (p: seq<seq<nat>>)
    ensures |p| == |cs|
  {
    seq(|cs|, (j: nat) => Group(fs, cs, j))
  }

  /** Feature `i` is in group `j` exactly when `j` is its first nearest
      centroid; so every feature is in exactly one group. */
  lemma {:induction false} GroupMembers(fs: seq<Desc>, cs: seq<Desc>, j: nat, i: nat)
    ensures i in Group(fs, cs, j) <==> i < |fs| && Nearest(cs, fs[i]) == j
    decreases |fs|
  {
    if |fs| != 0 {
      var fs' := fs[..|fs| - 1];
      GroupMembers(fs', cs, j, i);
      if i < |fs'| {
        assert fs'[i] == fs[i];
      }
    }
  }

  /** The indices of a group are strictly increasing and below |fs|. */
  lemma {:induction false} GroupSorted(fs: seq<Desc>, cs: seq<Desc>, j: nat)
    ensures forall a :: 0 <= a < |Group(fs, cs, j)| ==> Group(fs, cs, j)[a] < |fs|
    ensures forall a, b :: 0 <= a < b < |Group(fs, cs, j)| ==> Group(fs, cs, j)[a] < Group(fs, cs, j)[b]
    decreases |fs|
  {
    if |fs| != 0 {
      GroupSorted(fs[..|fs| - 1], cs, j);
    }
  }

  /** Every index in any group of the partition addresses a feature. */
  ghost predicate IndicesBelow(groups: seq<seq<nat>>, n: nat)
  {
    forall j, a :: 0 <= j < |groups| && 0 <= a < |groups[j]| ==> groups[j][a] < n
  }

  lemma PartitionIndices(fs: seq<Desc>, cs: seq<Desc>)
    ensures IndicesBelow(Partition(fs, cs), |fs|)
  {
    forall j | 0 <= j < |cs|
      ensures forall a :: 0 <= a < |Group(fs, cs, j)| ==> Group(fs, cs, j)[a] < |fs|
    {
      GroupSorted(fs, cs, j);
    }
  }

  /** Total number of indices over all groups (the `cluster_size` sum). */
  function SumSizes(groups: seq<seq<nat>>): nat
  {
    if |groups| == 0 then 0 else SumSizes(groups[..|groups| - 1]) + |groups[|groups| - 1]|
  }

  lemma {:induction false} SumSizesGrow(groups: seq<seq<nat>>, j: nat, x: nat)
    requires j < |groups|
    ensures SumSizes(groups[j := groups[j] + [x]]) == SumSizes(groups) + 1
    decreases |groups|
  {
    var g' := groups[j := groups[j] + [x]];
    var n := |groups|;
    if j < n - 1 {
      assert g'[..n - 1] == groups[..n - 1][j := groups[j] + [x]];
      SumSizesGrow(groups[..n - 1], j, x);
    } else {
      assert g'[..n - 1] == groups[..n - 1];
    }
  }

  lemma {:induction false} SumSizesEmpty(groups: seq<seq<nat>>)
    requires forall j :: 0 <= j < |groups| ==> groups[j] == []
    ensures SumSizes(groups) == 0
    decreases |groups|
  {
    if |groups| != 0 {
      SumSizesEmpty(groups[..|groups| - 1]);
    }
  }

  /** Adding one feature adds its index to exactly the group of its nearest
      centroid. */
  lemma PartitionStep(fs: seq<Desc>, cs: seq<Desc>, i: nat)
    requires i < |fs| && |cs| > 0
    ensures Partition(fs[..i + 1], cs)
         == Partition(fs[..i], cs)[Nearest(cs, fs[i]) := Partition(fs[..i], cs)[Nearest(cs, fs[i])] + [i]]
  {
    var pre, post := fs[..i], fs[..i + 1];
    assert post[..i] == pre && post[i] == fs[i];
    var n := Nearest(cs, fs[i]);
    var lhs := Partition(post, cs);
    var rhs := Partition(pre, cs)[n := Partition(pre, cs)[n] + [i]];
    forall j | 0 <= j < |cs|
      ensures lhs[j] == rhs[j]
    {
      assert lhs[j] == Group(post, cs, j) == Group(pre, cs, j) + (if n == j then [i] else []);
    }
    assert lhs == rhs;
  }

  /** The group sizes of a partition add up to the number of features. */
  lemma {:induction false} PartitionSizes(fs: seq<Desc>, cs: seq<Desc>)
    requires |cs| > 0
    ensures SumSizes(Partition(fs, cs)) == |fs|
    decreases |fs|
  {
    if |fs| == 0 {
      SumSizesEmpty(Partition(fs, cs));
    } else {
      var i := |fs| - 1;
      assert fs[..i + 1] == fs;
      PartitionSizes(fs[..i], cs);
      PartitionStep(fs, cs, i);
      SumSizesGrow(Partition(fs[..i], cs), Nearest(cs, fs[i]), i);
    }
  }

  /** The assignment step: every feature, in order, is appended to the
      group of its nearest centroid. */
  method AssignGroups(features: seq<Desc>, clusters: seq<Desc>) returns (groups: seq<seq<nat>>)
    requires |clusters| > 0
    ensures groups == Partition(features, clusters)
  {
    groups := seq(|clusters|, _ => []);
    assert features[..0] == [];
    for i := 0 to |features|
      invariant groups == Partition(features[..i], clusters)
    {
      var best := FindNearest(clusters, features[i]);
      PartitionStep(features, clusters, i);
      groups := groups[best := groups[best] + [i]];
    }
    assert features[..|features|] == features;
  }

  /** The features a group of indices selects. */
  function Select(features: seq<Desc>, group: seq<nat>): (s: seq<Desc>)
    requires forall a :: 0 <= a < |group| ==> group[a] < |features|
    ensures |s| == |group|
    ensures forall a :: 0 <= a < |group| ==> s[a] == features[group[a]]
  {
    seq(|group|, a requires 0 <= a < |group| => features[group[a]])
  }

  /** Every centroid is the majority-vote mean of the features its group
      selects. */
  ghost predicate AreMeans(features: seq<Desc>, groups: seq<seq<nat>>, clusters: seq<Desc>)
    requires IndicesBelow(groups, |features|)
  {
    |clusters| == |groups| &&
    forall j :: 0 <= j < |groups| ==> IsMajority(clusters[j], Select(features, groups[j]))
  }

  /** The update step: each centroid becomes the mean of its group (the
      all-zero descriptor for an empty group). */
  method UpdateCentroids(features: seq<Desc>, groups: seq<seq<nat>>) returns (clusters: seq<Desc>)
    requires IndicesBelow(groups, |features|)
    ensures AreMeans(features, groups, clusters)
  {
    clusters := [];
    for j := 0 to |groups|
      invariant |clusters| == j
      invariant forall q :: 0 <= q < j ==> IsMajority(clusters[q], Select(features, groups[q]))
    {
      var mean := DescMean(Select(features, groups[j]));
      clusters := clusters + [mean];
    }
  }

  /** The Lloyd loop. The source repeats until the new assignment equals
      the previous one, with no bound; here at most `fuel` centroid updates
      are made, and when they are used up the loop keeps the assignment to
      the current centroids. Either way the groups returned are exactly the
      partition of the features by their nearest returned centroid; on
      convergence the centroids are in turn the means of those groups (a
      fixed point of both steps). */
  method Lloyd(features: seq<Desc>, init: seq<Desc>, fuel: nat)
    returns (clusters: seq<Desc>, groups: seq<seq<nat>>, converged: bool)
    requires 0 < |init| < |features|
    ensures |clusters| == |init|
    ensures groups == Partition(features, clusters)
    ensures IndicesBelow(groups, |features|) && SumSizes(groups) == |features|
    ensures converged ==> AreMeans(features, groups, clusters)
  {
    clusters := init;
    groups := seq(|init|, _ => []);
    converged := false;
    var updates := 0;
    SumSizesEmpty(groups);
    while true
      invariant updates <= fuel
      invariant |clusters| == |init| && |groups| == |init|
      invariant IndicesBelow(groups, |features|)
      invariant updates == 0 ==> SumSizes(groups) == 0
      invariant updates > 0 ==> AreMeans(features, groups, clusters)
      decreases fuel - updates
    {
      var newGroups := AssignGroups(features, clusters);
      PartitionIndices(features, clusters);
      PartitionSizes(features, clusters);
      if groups == newGroups {
        converged := true;
        break;
      }
      if updates == fuel {
        groups := newGroups;
        break;
      }
      clusters := UpdateCentroids(features, newGroups);
      groups := newGroups;
      updates := updates + 1;
    }
  }

  /** Distinct positions in a sequence of length `n`. */
  predicate DistinctPositions(ps: seq<nat>, n: nat)
  {
    && (forall a :: 0 <= a < |ps| ==> ps[a] < n)
    && (forall a, b :: 0 <= a < b < |ps| ==> ps[a] != ps[b])
  }

  /** `initialize_clusters`: `k` features at distinct positions, in an order
      the random generator chooses; here the choice is left arbitrary. */
  method InitializeClusters(features: seq<Desc>, k: nat) returns (clusters: seq<Desc>, positions: seq<nat>)
    requires k <= |features|
    ensures |clusters| == k && |positions| == k
    ensures DistinctPositions(positions, |features|)
    ensures forall a :: 0 <= a < k ==> clusters[a] == features[positions[a]]
  {
    assert DistinctPositions(seq(k, a => a), |features|);
    positions :| |positions| == k && DistinctPositions(positions, |features|);
    assert DistinctPositions(positions, |features|);
    assert forall a :: 0 <= a < |positions| ==> positions[a] < |features|;
    clusters := Select(features, positions);
  }
}
