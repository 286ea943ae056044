/** The vocabulary and its builder and query operations (src/vocab.rs,
    `Vocabulary`): `empty`, `next_node_id`, `cluster`, `create`,
    `transform_generic`, `transform` and `transform_with_direct_idx`. */
module Vocab {
  import opened Lib
  import opened NodeIds
  import opened KMeans
  import opened Tree

  /** What the builder keeps true of every child id it has handed out:
      block ids are between 1 and the block counter, leaf paths have between
      1 and `levels` elements and end in a word below the leaf counter. */
  ghost predicate IdValid(id: NodeId, levels: nat, numLeaves: nat, numBlocks: nat)
  {
    match id
    case Block(b) => 1 <= b <= numBlocks
    case Leaf(path) => 1 <= |path| <= levels && path[|path| - 1] < numLeaves
  }

  /** What the builder keeps true of every block it has pushed. */
  ghost predicate BlockValid(b: Block, levels: nat, numLeaves: nat, numBlocks: nat)
  {
    && b.id.Block? && b.id.bid <= numBlocks
    && Shaped(b.children)
    && forall j :: 0 <= j < |b.children.ids| ==> IdValid(b.children.ids[j], levels, numLeaves, numBlocks)
  }

  /** The block counters only grow, so a block stays valid. */
  lemma BlockValidGrow(b: Block, levels: nat, l1: nat, b1: nat, l2: nat, b2: nat)
    requires BlockValid(b, levels, l1, b1) && l1 <= l2 && b1 <= b2
    ensures BlockValid(b, levels, l2, b2)
  {
    forall j | 0 <= j < |b.children.ids|
      ensures IdValid(b.children.ids[j], levels, l2, b2)
    {
      assert IdValid(b.children.ids[j], levels, l1, b1);
    }
  }

  function Ones(n: nat): (s: seq<nat>)
    ensures |s| == n && forall j :: 0 <= j < n ==> s[j] == 1
  {
    seq(n, _ => 1)
  }

  lemma {:induction false} SumOnes(n: nat)
    ensures Sum(Ones(n)) == n
    decreases n
  {
    if n > 0 {
      assert Ones(n)[..n - 1] == Ones(n - 1);
      SumOnes(n - 1);
    }
  }

  /** The ids of `n` consecutive leaves under `parentIds`, numbered from
      `start`. */
  function LeafRun(parentIds: seq<nat>, start: nat, n: nat): (ids: seq<NodeId>)
    requires |parentIds| >= 1
    ensures |ids| == n
  {
    seq(n, j requires 0 <= j < n => Leaf(parentIds[1..] + [start + j]))
  }

  /** When every group has one member, every slot is a leaf and the leaves
      are numbered consecutively. */
  lemma {:induction false} SingletonIds(n: nat, lastLevel: bool, parentIds: seq<nat>, leaves0: nat, blocks0: nat)
    requires |parentIds| >= 1
    ensures LeafSlots(Ones(n), lastLevel) == n
    ensures ChildIds(Ones(n), lastLevel, parentIds, leaves0, blocks0) == LeafRun(parentIds, leaves0, n)
    decreases n
  {
    if n > 0 {
      assert Ones(n)[..n - 1] == Ones(n - 1);
      SingletonIds(n - 1, lastLevel, parentIds, leaves0, blocks0);
      assert LeafRun(parentIds, leaves0, n) == LeafRun(parentIds, leaves0, n - 1) + [Leaf(parentIds[1..] + [leaves0 + n - 1])];
    }
  }

  lemma {:induction false} NoBlockChildren(ids: seq<NodeId>)
    requires forall j :: 0 <= j < |ids| ==> ids[j].Leaf?
    ensures BlockChildren(ids) == []
    decreases |ids|
  {
    if |ids| > 0 {
      NoBlockChildren(ids[..|ids| - 1]);
    }
  }

  /** The grouping step of `cluster` for a non-empty feature set: one
      singleton group per feature when there are at most `k` of them,
      otherwise `k` random distinct features refined by Lloyd's algorithm.
      Either way the groups hold exactly the features' indices. */
  method SplitFeatures(features: seq<Desc>, k: nat, fuel: nat)
    returns (clusters: seq<Desc>, groups: seq<seq<nat>>, converged: bool)
    requires k >= 1 && |features| > 0
    ensures |clusters| == |groups| == (if |features| <= k then |features| else k)
    ensures IndicesBelow(groups, |features|) && Sum(Sizes(groups)) == |features|
    ensures |features| <= k ==>
      && clusters == features && Sizes(groups) == Ones(|features|)
      && forall i :: 0 <= i < |features| ==> groups[i] == [i]
    ensures |features| > k ==>
      && groups == Partition(features, clusters)
      && (converged ==> AreMeans(features, groups, clusters))
  {
    if |features| <= k {
      clusters := features;
      groups := seq(|features|, (i: nat) => [i]);
      converged := true;
      assert Sizes(groups) == Ones(|features|);
      SumOnes(|features|);
    } else {
      var init, _ := InitializeClusters(features, k);
      clusters, groups, converged := Lloyd(features, init, fuel);
      SumOfSizes(groups);
    }
  }

  /** Every id handed out for one block is valid against the counters after
      the hand-out, and leaves sit at the current depth under the parent
      path. */
  lemma NewBlockIds(sizes: seq<nat>, lastLevel: bool, parentIds: seq<nat>, leaves0: nat, blocks0: nat, levels: nat)
    requires 1 <= |parentIds| <= levels
    ensures var ids := ChildIds(sizes, lastLevel, parentIds, leaves0, blocks0);
            var nl := leaves0 + LeafSlots(sizes, lastLevel);
            var nb := blocks0 + (|sizes| - LeafSlots(sizes, lastLevel));
            forall j :: 0 <= j < |ids| ==>
              && IdValid(ids[j], levels, nl, nb)
              && (ids[j].Leaf? <==> IsLeafSlot(sizes[j], lastLevel))
              && (ids[j].Leaf? ==> |ids[j].path| == |parentIds| && ids[j].path[..|parentIds| - 1] == parentIds[1..])
  {
    var ids := ChildIds(sizes, lastLevel, parentIds, leaves0, blocks0);
    forall j | 0 <= j < |ids|
      ensures IdValid(ids[j], levels, leaves0 + LeafSlots(sizes, lastLevel), blocks0 + (|sizes| - LeafSlots(sizes, lastLevel)))
      ensures ids[j].Leaf? <==> IsLeafSlot(sizes[j], lastLevel)
      ensures ids[j].Leaf? ==> |ids[j].path| == |parentIds| && ids[j].path[..|parentIds| - 1] == parentIds[1..]
    {
      ChildIdsAt(sizes, lastLevel, parentIds, leaves0, blocks0, j);
      ChildIdsRange(sizes, lastLevel, parentIds, leaves0, blocks0, j);
    }
  }

  /** What `cluster` pushes first for a non-empty feature set: a block
      named by the last parent id whose four child arrays have equal length,
      with cluster sizes adding up to the number of features and all weights
      1. With at most `k` features the centroids are the features themselves,
      one per child; otherwise there are `k` children and each cluster size
      is the number of features nearest to that child's centroid. Every
      child is a leaf exactly when it is at the last level or holds a single
      feature, and leaves sit at the current depth under the parent path. */
  ghost predicate Pushed(b: Block, k: nat, levels: nat, features: seq<Desc>, parentIds: seq<nat>, currLevel: nat)
    requires |parentIds| == currLevel >= 1
  {
    var c := b.children;
    && b.id == NodeId.Block(parentIds[currLevel - 1])
    && Shaped(c)
    && Sum(c.clusterSize) == |features|
    && c.weights == Ones(|c.ids|)
    && |c.ids| == (if |features| <= k then |features| else k)
    && (|features| <= k ==> c.features == features && c.clusterSize == Ones(|features|))
    && (|features| > k ==> c.clusterSize == Sizes(Partition(features, c.features)))
    && forall j :: 0 <= j < |c.ids| ==>
         && (c.ids[j].Leaf? <==> (currLevel == levels || c.clusterSize[j] == 1))
         && (c.ids[j].Leaf? ==> |c.ids[j].path| == currLevel && c.ids[j].path[..currLevel - 1] == parentIds[1..])
  }

  /** The block `cluster` pushes is valid against the counters after the id
      hand-out and has the shape `Pushed` describes. */
  lemma NewBlock(k: nat, levels: nat, features: seq<Desc>, parentIds: seq<nat>, currLevel: nat,
                 clusters: seq<Desc>, groups: seq<seq<nat>>, leaves0: nat, blocks0: nat,
                 ids: seq<NodeId>, leaves1: nat, blocks1: nat)
    requires 1 <= currLevel <= levels && |parentIds| == currLevel
    requires parentIds[currLevel - 1] <= blocks0
    requires |clusters| == |groups| == (if |features| <= k then |features| else k)
    requires Sum(Sizes(groups)) == |features|
    requires |features| <= k ==> clusters == features && Sizes(groups) == Ones(|features|)
    requires |features| > k ==> groups == Partition(features, clusters)
    requires ids == ChildIds(Sizes(groups), currLevel == levels, parentIds, leaves0, blocks0)
    requires leaves1 == leaves0 + LeafSlots(Sizes(groups), currLevel == levels)
    requires blocks1 == blocks0 + (|groups| - LeafSlots(Sizes(groups), currLevel == levels))
    ensures var b := Tree.Block(NodeId.Block(parentIds[currLevel - 1]), Children(clusters, Ones(|groups|), Sizes(groups), ids));
            && BlockValid(b, levels, leaves1, blocks1)
            && Pushed(b, k, levels, features, parentIds, currLevel)
  {
    NewBlockIds(Sizes(groups), currLevel == levels, parentIds, leaves0, blocks0, levels);
  }

  /** The ids handed out for one block: every Block id is within the new
      block count, and when every group has one member all of them are
      leaves numbered consecutively from the old leaf count. */
  lemma PushedIds(sizes: seq<nat>, lastLevel: bool, parentIds: seq<nat>, levels: nat,
                  leaves0: nat, blocks0: nat, ids: seq<NodeId>, leaves1: nat, blocks1: nat)
    requires 1 <= |parentIds| <= levels
    requires ids == ChildIds(sizes, lastLevel, parentIds, leaves0, blocks0)
    requires leaves1 == leaves0 + LeafSlots(sizes, lastLevel)
    requires blocks1 == blocks0 + (|sizes| - LeafSlots(sizes, lastLevel))
    ensures forall j :: 0 <= j < |ids| ==> ids[j].Block? ==> ids[j].bid <= blocks1
    ensures sizes == Ones(|sizes|) ==>
      && ids == LeafRun(parentIds, leaves0, |sizes|)
      && leaves1 == leaves0 + |sizes| && blocks1 == blocks0
      && forall j :: 0 <= j < |ids| ==> ids[j].Leaf?
  {
    NewBlockIds(sizes, lastLevel, parentIds, leaves0, blocks0, levels);
    if sizes == Ones(|sizes|) {
      SingletonIds(|sizes|, lastLevel, parentIds, leaves0, blocks0);
    }
  }

  /** Appending a valid block to valid blocks keeps them all valid. */
  lemma AppendKeepsValid(bs: seq<Block>, b: Block, levels: nat, numLeaves: nat, numBlocks: nat)
    requires forall p :: 0 <= p < |bs| ==> BlockValid(bs[p], levels, numLeaves, numBlocks)
    requires BlockValid(b, levels, numLeaves, numBlocks)
    ensures forall p :: 0 <= p < |bs + [b]| ==> BlockValid((bs + [b])[p], levels, numLeaves, numBlocks)
  {
    forall p | 0 <= p < |bs + [b]|
      ensures BlockValid((bs + [b])[p], levels, numLeaves, numBlocks)
    {
      if p < |bs| {
        assert (bs + [b])[p] == bs[p];
      }
    }
  }

  lemma ValidBlocksHaveIds(bs: seq<Block>, levels: nat, numLeaves: nat, numBlocks: nat)
    requires forall p :: 0 <= p < |bs| ==> BlockValid(bs[p], levels, numLeaves, numBlocks)
    ensures AllBlockIds(bs)
  {
  }

  /** Reordering the blocks keeps every block valid. */
  lemma PermutationKeepsValid(bs: seq<Block>, perm: seq<Block>, levels: nat, numLeaves: nat, numBlocks: nat)
    requires multiset(perm) == multiset(bs)
    requires forall p :: 0 <= p < |bs| ==> BlockValid(bs[p], levels, numLeaves, numBlocks)
    ensures forall p :: 0 <= p < |perm| ==> BlockValid(perm[p], levels, numLeaves, numBlocks)
  {
    forall p | 0 <= p < |perm|
      ensures BlockValid(perm[p], levels, numLeaves, numBlocks)
    {
      assert perm[p] in multiset(bs);
      var q :| 0 <= q < |bs| && bs[q] == perm[p];
    }
  }

  /** After sorting by id, a root block (id 0) that was pushed first is
      still first. */
  lemma SortKeepsRootFirst(bs: seq<Block>, sorted: seq<Block>)
    requires AllBlockIds(sorted) && SortedByBid(sorted) && multiset(sorted) == multiset(bs)
    requires |bs| > 0 && bs[0].id == NodeId.Block(0)
    ensures |sorted| > 0 && sorted[0].id == NodeId.Block(0)
  {
    assert bs[0] in multiset(sorted);
    var r :| 0 <= r < |sorted| && sorted[r] == bs[0];
    SortedRootFirst(sorted, r);
  }

  /** The stable sort keeps the first block with id 0 in front. */
  lemma RootStaysFirst(bs: seq<Block>, sorted: seq<Block>)
    requires AllBlockIds(bs) && sorted == SortByBid(bs)
    requires |bs| > 0 && bs[0].id == NodeId.Block(0)
    requires |sorted| > 0 && sorted[0].id == NodeId.Block(0)
    ensures sorted[0] == bs[0]
  {
    SortStable(bs, 0);
    assert WithBid(bs, 0)[0] == bs[0];
    assert WithBid(sorted, 0)[0] == sorted[0];
  }

  lemma SortOfOne(bs: seq<Block>, sorted: seq<Block>)
    requires |bs| == 1 && multiset(sorted) == multiset(bs)
    ensures sorted == bs
  {
    assert |sorted| == |multiset(sorted)| == 1;
    assert sorted[0] in multiset(bs);
  }

  /** Leaf ids handed out in the children of `bs`. */
  function LeavesIn(bs: seq<Block>): nat
  {
    if |bs| == 0 then 0
    else
      var ids := bs[0].children.ids;
      (|ids| - |BlockChildren(ids)|) + LeavesIn(bs[1..])
  }

  /** Block ids handed out in the children of `bs`. */
  function BlockIdsIn(bs: seq<Block>): nat
  {
    if |bs| == 0 then 0 else |BlockChildren(bs[0].children.ids)| + BlockIdsIn(bs[1..])
  }

  /** Both counts add up over a concatenation. */
  lemma {:induction false} IdsInConcat(a: seq<Block>, b: seq<Block>)
    ensures LeavesIn(a + b) == LeavesIn(a) + LeavesIn(b)
    ensures BlockIdsIn(a + b) == BlockIdsIn(a) + BlockIdsIn(b)
    decreases |a|
  {
    if |a| > 0 {
      assert (a + b)[0] == a[0];
      assert (a + b)[1..] == a[1..] + b;
      IdsInConcat(a[1..], b);
    } else {
      assert a + b == b;
    }
  }

  /** Appending is associative on runs of blocks. */
  lemma AppendAssoc(a: seq<Block>, b: seq<Block>, c: seq<Block>)
    ensures (a + b) + c == a + (b + c)
  {
  }

  /** The hand-out of one block makes `|sizes| - LeafSlots` Block ids. */
  lemma {:induction false} ChildIdsCount(sizes: seq<nat>, lastLevel: bool, parentIds: seq<nat>, leaves0: nat, blocks0: nat)
    requires |parentIds| >= 1
    ensures |BlockChildren(ChildIds(sizes, lastLevel, parentIds, leaves0, blocks0))| == |sizes| - LeafSlots(sizes, lastLevel)
    decreases |sizes|
  {
    if |sizes| > 0 {
      var n := |sizes| - 1;
      var ids := ChildIds(sizes, lastLevel, parentIds, leaves0, blocks0);
      assert ids[..n] == ChildIds(sizes[..n], lastLevel, parentIds, leaves0, blocks0);
      ChildIdsCount(sizes[..n], lastLevel, parentIds, leaves0, blocks0);
    }
  }

  /** The segments one after the other. */
  function Concat(segs: seq<seq<Block>>): seq<Block>
  {
    if |segs| == 0 then [] else Concat(segs[..|segs| - 1]) + segs[|segs| - 1]
  }

  /** `seg` is exactly the run of blocks that `cluster` pushed for `sub`
      under `parentIds` at `currLevel`: nothing for an empty `sub`;
      otherwise its own block first, and then, below the last level with
      more than `k` features, one segment per Block child in order, each
      clustered one level down; with at most `k` features or at the last
      level the block alone. */
  ghost predicate ClusteredSeg(seg: seq<Block>, k: nat, levels: nat, sub: seq<Desc>,
                               parentIds: seq<nat>, currLevel: nat)
    requires |parentIds| == currLevel >= 1
  {
    ClusteredRun(seg, k, levels, sub, parentIds, currLevel)
  }

  /** The recursive definition behind `ClusteredSeg`. */
  ghost predicate ClusteredRun(seg: seq<Block>, k: nat, levels: nat, sub: seq<Desc>,
                               parentIds: seq<nat>, currLevel: nat)
    requires |parentIds| == currLevel >= 1
    decreases levels - currLevel, 2
  {
    if sub == [] then seg == []
    else
      && |seg| >= 1
      && Pushed(seg[0], k, levels, sub, parentIds, currLevel)
      && if |sub| > k && currLevel < levels
         then ChildrenSegs(seg[1..], k, levels, sub, seg[0].children, parentIds, currLevel)
         else |seg| == 1
  }

  /** The blocks after a pushed block with children `c` are one segment per
      Block child, in order: the i-th Block child was clustered on the
      features the block's centroids put in group i. */
  ghost predicate ChildrenSegs(rest: seq<Block>, k: nat, levels: nat, features: seq<Desc>,
                               c: Children, parentIds: seq<nat>, currLevel: nat)
    requires |parentIds| == currLevel >= 1 && currLevel < levels
    decreases levels - currLevel, 1
  {
    && |BlockChildren(c.ids)| <= |c.features|
    && (PartitionIndices(features, c.features);
        exists segs :: |segs| == |BlockChildren(c.ids)| && Concat(segs) == rest
          && SegsClustered(segs, k, levels, features, Partition(features, c.features),
                           BlockChildren(c.ids), parentIds, currLevel))
  }

  /** `segs[i]` is what `cluster` pushed for the features of `groups[i]`
      under the id of the i-th Block child. */
  ghost predicate SegsClustered(segs: seq<seq<Block>>, k: nat, levels: nat, features: seq<Desc>,
                                groups: seq<seq<nat>>, blockIds: seq<NodeId>, parentIds: seq<nat>, currLevel: nat)
    requires |parentIds| == currLevel >= 1 && currLevel < levels
    requires |segs| == |blockIds| <= |groups| && IndicesBelow(groups, |features|)
    requires forall j :: 0 <= j < |blockIds| ==> blockIds[j].Block?
    decreases levels - currLevel, 0
  {
    forall i {:trigger segs[i]} :: 0 <= i < |segs| ==>
      ClusteredRun(segs[i], k, levels, Select(features, groups[i]),
                   parentIds + [GetBid(blockIds[i])], currLevel + 1)
  }

  /** One turn of the loop over the Block children: clustering child `i`
      appends its segment `x`, which extends the list of segments and adds
      its counts. */
  lemma ChildStep(o: seq<Block>, before: seq<Block>, after: seq<Block>, segs: seq<seq<Block>>, x: seq<Block>,
                  k: nat, levels: nat, features: seq<Desc>, groups: seq<seq<nat>>, blockIds: seq<NodeId>, i: nat,
                  parentIds: seq<nat>, currLevel: nat, sub: seq<Desc>, childIds: seq<nat>,
                  l0: nat, l1: nat, l2: nat, b0: nat, b1: nat, b2: nat)
    requires |parentIds| == currLevel >= 1 && currLevel < levels
    requires i < |blockIds| <= |groups| && IndicesBelow(groups, |features|)
    requires forall j :: 0 <= j < |blockIds| ==> blockIds[j].Block?
    requires |segs| == i && before == o + Concat(segs) && after == before + x
    requires SegsClustered(segs, k, levels, features, groups, blockIds[..i], parentIds, currLevel)
    requires sub == Select(features, groups[i]) && childIds == parentIds + [GetBid(blockIds[i])]
    requires ClusteredSeg(x, k, levels, sub, childIds, currLevel + 1)
    requires l1 == l0 + LeavesIn(Concat(segs)) && l2 == l1 + LeavesIn(x)
    requires b1 == b0 + BlockIdsIn(Concat(segs)) && b2 == b1 + BlockIdsIn(x)
    ensures after == o + Concat(segs + [x]) && o <= after
    ensures SegsClustered(segs + [x], k, levels, features, groups, blockIds[..i + 1], parentIds, currLevel)
    ensures l2 == l0 + LeavesIn(Concat(segs + [x])) && b2 == b0 + BlockIdsIn(Concat(segs + [x]))
  {
    assert (segs + [x])[..|segs|] == segs;
    AppendAssoc(o, Concat(segs), x);
    IdsInConcat(Concat(segs), x);
    SegsExtend(segs, x, k, levels, features, groups, blockIds, i, parentIds, currLevel);
  }

  /** One more child's segment extends the list of segments. */
  lemma SegsExtend(segs: seq<seq<Block>>, x: seq<Block>, k: nat, levels: nat, features: seq<Desc>,
                   groups: seq<seq<nat>>, blockIds: seq<NodeId>, i: nat, parentIds: seq<nat>, currLevel: nat)
    requires |parentIds| == currLevel >= 1 && currLevel < levels
    requires i < |blockIds| <= |groups| && IndicesBelow(groups, |features|)
    requires forall j :: 0 <= j < |blockIds| ==> blockIds[j].Block?
    requires |segs| == i && SegsClustered(segs, k, levels, features, groups, blockIds[..i], parentIds, currLevel)
    requires ClusteredSeg(x, k, levels, Select(features, groups[i]), parentIds + [GetBid(blockIds[i])], currLevel + 1)
    ensures SegsClustered(segs + [x], k, levels, features, groups, blockIds[..i + 1], parentIds, currLevel)
  {
    forall j | 0 <= j < i + 1
      ensures ClusteredRun((segs + [x])[j], k, levels, Select(features, groups[j]),
                           parentIds + [GetBid(blockIds[..i + 1][j])], currLevel + 1)
    {
      if j < i {
        assert (segs + [x])[j] == segs[j];
        assert blockIds[..i + 1][j] == blockIds[..i][j];
      } else {
        assert blockIds[..i + 1][j] == blockIds[i];
      }
    }
  }

  /** After the recursion of `cluster` with more than `k` features below the
      last level: the pushed block followed by the children's segments,
      read off the block's own centroids and ids, is the whole run. */
  lemma ClusterTail(seg: seq<Block>, segs: seq<seq<Block>>, k: nat, levels: nat, features: seq<Desc>,
                    groups: seq<seq<nat>>, parentIds: seq<nat>, currLevel: nat)
    requires |parentIds| == currLevel >= 1 && currLevel < levels && |features| > k
    requires |seg| >= 1 && Pushed(seg[0], k, levels, features, parentIds, currLevel)
    requires groups == Partition(features, seg[0].children.features)
    requires var c := seg[0].children;
             |groups| == |c.ids| && IndicesBelow(groups, |features|)
             && |segs| == |BlockChildren(c.ids)| && seg[1..] == Concat(segs)
             && SegsClustered(segs, k, levels, features, groups, BlockChildren(c.ids), parentIds, currLevel)
    ensures ClusteredSeg(seg, k, levels, features, parentIds, currLevel)
  {
    PartitionIndices(features, seg[0].children.features);
    assert ChildrenSegs(seg[1..], k, levels, features, seg[0].children, parentIds, currLevel);
  }

  /** The ids of `b`'s children are those the id hand-out gives for its
      cluster sizes, starting from the counters `l0` and `b0`. */
  ghost predicate IdsHandedOut(b: Block, lastLevel: bool, parentIds: seq<nat>, l0: nat, b0: nat)
    requires |parentIds| >= 1
  {
    b.children.ids == ChildIds(b.children.clusterSize, lastLevel, parentIds, l0, b0)
  }

  /** What one call of `cluster` on non-empty features pushes: its block
      `b`, followed below the last level by the segments its Block children
      produced. That run is exactly the clustered segment, and with at most
      `k` features or at the last level it is `b` alone. */
  lemma SegOfBlock(b: Block, segs: seq<seq<Block>>, k: nat, levels: nat, features: seq<Desc>,
                   groups: seq<seq<nat>>, parentIds: seq<nat>, currLevel: nat)
    requires |parentIds| == currLevel >= 1 && currLevel <= levels && features != []
    requires Pushed(b, k, levels, features, parentIds, currLevel)
    requires |groups| == |b.children.ids| && IndicesBelow(groups, |features|)
    requires |features| > k ==> groups == Partition(features, b.children.features)
    requires currLevel == levels ==> segs == []
    requires currLevel < levels ==>
               && |segs| == |BlockChildren(b.children.ids)|
               && SegsClustered(segs, k, levels, features, groups, BlockChildren(b.children.ids), parentIds, currLevel)
    ensures |[b] + Concat(segs)| >= 1 && ([b] + Concat(segs))[0] == b
    ensures currLevel == levels || |features| <= k ==> BlockChildren(b.children.ids) == [] && [b] + Concat(segs) == [b]
    ensures ClusteredSeg([b] + Concat(segs), k, levels, features, parentIds, currLevel)
  {
    var seg := [b] + Concat(segs);
    var ids := b.children.ids;
    if currLevel == levels || |features| <= k {
      assert forall j :: 0 <= j < |ids| ==> ids[j].Leaf? by {
        if |features| <= k {
          assert b.children.clusterSize == Ones(|features|);
        }
      }
      NoBlockChildren(ids);
      assert segs == [];
      assert seg == [b];
    } else {
      assert seg[1..] == Concat(segs);
      ClusterTail(seg, segs, k, levels, features, groups, parentIds, currLevel);
    }
  }

  /** The counters after one call of `cluster` on non-empty features: the
      hand-out of the pushed block's ids, then what its children's segments
      `rest` added. */
  lemma CountsOfBlock(b: Block, rest: seq<Block>, groups: seq<seq<nat>>, ids: seq<NodeId>, lastLevel: bool,
                      parentIds: seq<nat>, l0: nat, l1: nat, l2: nat, b0: nat, b1: nat, b2: nat)
    requires |parentIds| >= 1 && b.children.ids == ids
    requires ids == ChildIds(Sizes(groups), lastLevel, parentIds, l0, b0)
    requires l1 == l0 + LeafSlots(Sizes(groups), lastLevel)
    requires b1 == b0 + (|groups| - LeafSlots(Sizes(groups), lastLevel))
    requires l2 == l1 + LeavesIn(rest) && b2 == b1 + BlockIdsIn(rest)
    ensures l2 == l0 + LeavesIn([b] + rest) && b2 == b0 + BlockIdsIn([b] + rest)
    ensures BlockChildren(ids) == [] ==> l1 == l0 + |ids| && b1 == b0
  {
    ChildIdsCount(Sizes(groups), lastLevel, parentIds, l0, b0);
    assert ([b] + rest)[0] == b && ([b] + rest)[1..] == rest;
  }

  /** The whole of one call of `cluster` on non-empty features, on the
      values before (`o`, `l0`, `b0`), after the push (`pushed`, `l1`, `b1`)
      and after the recursion into the Block children (`after`, `l2`,
      `b2`): what was appended is the clustered segment `seg`, and the
      counters moved by its ids. */
  lemma ClusterPost(o: seq<Block>, pushed: seq<Block>, after: seq<Block>, b: Block, segs: seq<seq<Block>>,
                    seg: seq<Block>, k: nat, levels: nat, features: seq<Desc>, clusters: seq<Desc>,
                    groups: seq<seq<nat>>, ids: seq<NodeId>, parentIds: seq<nat>, currLevel: nat,
                    l0: nat, l1: nat, l2: nat, b0: nat, b1: nat, b2: nat)
    requires |parentIds| == currLevel >= 1 && currLevel <= levels && features != [] && k >= 1
    requires b == Tree.Block(NodeId.Block(parentIds[currLevel - 1]), Children(clusters, Ones(|groups|), Sizes(groups), ids))
    requires pushed == o + [b] && seg == [b] + Concat(segs)
    requires Pushed(pushed[|o|], k, levels, features, parentIds, currLevel)
    requires ids == ChildIds(Sizes(groups), currLevel == levels, parentIds, l0, b0)
    requires l1 == l0 + LeafSlots(Sizes(groups), currLevel == levels)
    requires b1 == b0 + (|groups| - LeafSlots(Sizes(groups), currLevel == levels))
    requires |groups| == |ids| && IndicesBelow(groups, |features|)
    requires |features| <= k ==> clusters == features && Sizes(groups) == Ones(|features|)
                                 && ids == LeafRun(parentIds, l0, |features|)
    requires |features| > k ==> groups == Partition(features, clusters)
    requires currLevel == levels ==> segs == [] && after == pushed && l2 == l1 && b2 == b1
    requires currLevel < levels ==>
               && |segs| == |BlockChildren(ids)| && after == pushed + Concat(segs)
               && SegsClustered(segs, k, levels, features, groups, BlockChildren(ids), parentIds, currLevel)
               && l2 == l1 + LeavesIn(Concat(segs)) && b2 == b1 + BlockIdsIn(Concat(segs))
    ensures after == o + seg
    ensures l0 <= l2 && b0 <= b2
    ensures |seg| >= 1 && Pushed(seg[0], k, levels, features, parentIds, currLevel)
    ensures currLevel == levels ==> |seg| == 1
    ensures |features| <= k ==>
      && seg == [Tree.Block(NodeId.Block(parentIds[currLevel - 1]),
                            Children(features, Ones(|features|), Ones(|features|), LeafRun(parentIds, l0, |features|)))]
      && l2 == l0 + |features| && b2 == b0
    ensures IdsHandedOut(seg[0], currLevel == levels, parentIds, l0, b0)
    ensures currLevel == levels ==> l2 == l0 + |seg[0].children.ids| && b2 == b0
    ensures ClusteredSeg(seg, k, levels, features, parentIds, currLevel)
    ensures l2 == l0 + LeavesIn(seg) && b2 == b0 + BlockIdsIn(seg)
  {
    assert pushed[|o|] == b;
    SegOfBlock(b, segs, k, levels, features, groups, parentIds, currLevel);
    CountsOfBlock(b, Concat(segs), groups, ids, currLevel == levels, parentIds, l0, l1, l2, b0, b1, b2);
    AppendAssoc(o, [b], Concat(segs));
  }

  /** A vocabulary made of the root block alone, when that block has only
      leaf children (the last level, or one feature per child), can be
      descended. */
  lemma RootOnlyWellFormed(b: Block, k: nat, levels: nat, features: seq<Desc>, numLeaves: nat, numBlocks: nat)
    requires k >= 1 && features != [] && (levels == 1 || |features| <= k)
    requires Pushed(b, k, levels, features, [0], 1) && BlockValid(b, levels, numLeaves, numBlocks)
    ensures WellFormed([b], numLeaves)
  {
    var c := b.children;
    forall j | 0 <= j < |c.ids|
      ensures c.ids[j].Leaf? && |c.ids[j].path| > 0 && c.ids[j].path[|c.ids[j].path| - 1] < numLeaves
    {
      assert IdValid(c.ids[j], levels, numLeaves, numBlocks);
    }
    assert BlockWellFormed([b], numLeaves, 0);
  }

  /** Every block in `bs` is valid against the counters. */
  ghost predicate AllValid(bs: seq<Block>, levels: nat, numLeaves: nat, numBlocks: nat)
  {
    forall p :: 0 <= p < |bs| ==> BlockValid(bs[p], levels, numLeaves, numBlocks)
  }

  /** Where one block's ids were handed out: at the last level or above
      it, and under which path of Block ids from the root. */
  datatype HandOut = HandOut(lastLevel: bool, parentIds: seq<nat>)

  /** The blocks `bs` were pushed in this order, the p-th after hand-out
      `hs[p]`: the ids of each block are the ones handed out from the
      counters as the blocks pushed before it had left them. */
  ghost predicate InHandOutOrder(bs: seq<Block>, hs: seq<HandOut>)
  {
    && |hs| == |bs|
    && forall p :: 0 <= p < |bs| ==> HandedOutAt(bs, hs, p)
  }

  ghost predicate HandedOutAt(bs: seq<Block>, hs: seq<HandOut>, p: nat)
    requires p < |bs| == |hs|
  {
    && |hs[p].parentIds| >= 1
    && IdsHandedOut(bs[p], hs[p].lastLevel, hs[p].parentIds, LeavesIn(bs[..p]), BlockIdsIn(bs[..p]))
  }

  /** Pushing a block whose ids were handed out from the counters the run
      has reached keeps the run in hand-out order, and the counters move on
      by the block's leaf and Block slots. */
  lemma HandOutPush(bs: seq<Block>, hs: seq<HandOut>, b: Block, h: HandOut)
    requires InHandOutOrder(bs, hs)
    requires |h.parentIds| >= 1 && IdsHandedOut(b, h.lastLevel, h.parentIds, LeavesIn(bs), BlockIdsIn(bs))
    ensures InHandOutOrder(bs + [b], hs + [h])
    ensures var sizes := b.children.clusterSize;
            && LeavesIn(bs + [b]) == LeavesIn(bs) + LeafSlots(sizes, h.lastLevel)
            && BlockIdsIn(bs + [b]) == BlockIdsIn(bs) + (|sizes| - LeafSlots(sizes, h.lastLevel))
  {
    forall p | 0 <= p < |bs + [b]|
      ensures HandedOutAt(bs + [b], hs + [h], p)
    {
      if p < |bs| {
        assert (bs + [b])[..p] == bs[..p];
        assert HandedOutAt(bs, hs, p);
      } else {
        assert (bs + [b])[..p] == bs;
      }
    }
    IdsInConcat(bs, [b]);
    ChildIdsCount(b.children.clusterSize, h.lastLevel, h.parentIds, LeavesIn(bs), BlockIdsIn(bs));
    assert [b][1..] == [];
  }

  /** The counts only grow along the run. */
  lemma IdsInPrefix(bs: seq<Block>, p: nat, q: nat)
    requires p <= q <= |bs|
    ensures LeavesIn(bs[..p]) <= LeavesIn(bs[..q]) && BlockIdsIn(bs[..p]) <= BlockIdsIn(bs[..q])
  {
    assert bs[..q] == bs[..p] + bs[p..q];
    IdsInConcat(bs[..p], bs[p..q]);
  }

  /** Each child id of the p-th block lies in the window its hand-out
      moved the counters over: a word id from the leaf count before it up
      to the one after it, a Block id above the Block count before it and
      up to the one after it. */
  lemma HandOutWindow(bs: seq<Block>, hs: seq<HandOut>, p: nat, j: nat)
    requires InHandOutOrder(bs, hs) && p < |bs| && j < |bs[p].children.ids|
    ensures var id := bs[p].children.ids[j];
            && (id.Leaf? ==> |id.path| > 0 && LeavesIn(bs[..p]) <= Word(id) < LeavesIn(bs[..p + 1]))
            && (id.Block? ==> BlockIdsIn(bs[..p]) < id.bid <= BlockIdsIn(bs[..p + 1]))
  {
    assert HandedOutAt(bs, hs, p);
    var c := bs[p].children;
    ChildIdsRange(c.clusterSize, hs[p].lastLevel, hs[p].parentIds, LeavesIn(bs[..p]), BlockIdsIn(bs[..p]), j);
    ChildIdsCount(c.clusterSize, hs[p].lastLevel, hs[p].parentIds, LeavesIn(bs[..p]), BlockIdsIn(bs[..p]));
    assert bs[..p + 1] == bs[..p] + [bs[p]];
    IdsInConcat(bs[..p], [bs[p]]);
    assert [bs[p]][1..] == [];
  }

  /** No id is handed out twice in a run: of two child ids in push order,
      in two blocks or in one, two leaves end in increasing word ids and two
      Block children carry increasing Block ids. */
  lemma HandOutDistinct(bs: seq<Block>, hs: seq<HandOut>, p1: nat, j1: nat, p2: nat, j2: nat)
    requires InHandOutOrder(bs, hs)
    requires p1 < |bs| && j1 < |bs[p1].children.ids| && p2 < |bs| && j2 < |bs[p2].children.ids|
    requires p1 < p2 || (p1 == p2 && j1 < j2)
    ensures var id1, id2 := bs[p1].children.ids[j1], bs[p2].children.ids[j2];
            && (id1.Leaf? && id2.Leaf? ==> |id1.path| > 0 && |id2.path| > 0 && Word(id1) < Word(id2))
            && (id1.Block? && id2.Block? ==> id1.bid < id2.bid)
  {
    if p1 < p2 {
      HandOutWindow(bs, hs, p1, j1);
      HandOutWindow(bs, hs, p2, j2);
      IdsInPrefix(bs, p1 + 1, p2);
    } else {
      assert HandedOutAt(bs, hs, p1);
      var c := bs[p1].children;
      ChildIdsDistinct(c.clusterSize, hs[p1].lastLevel, hs[p1].parentIds, LeavesIn(bs[..p1]), BlockIdsIn(bs[..p1]), j1, j2);
    }
  }

  class Vocabulary {
    var blocks: seq<Block>
    /** Branching factor. */
    const k: nat
    /** Maximum number of levels (the const generic `L`). */
    const levels: nat
    var numBlocks: nat
    var numLeaves: nat
    /** The hand-out of each block in `blocks`, in push order. */
    ghost var handOuts: seq<HandOut>

    ghost predicate Valid()
      reads this
    {
      levels >= 1 && AllValid(blocks, levels, numLeaves, numBlocks)
    }

    /** The blocks are in hand-out order and the counters stand where the
        last hand-out left them. */
    ghost predicate HandedOut()
      reads this
    {
      InHandOutOrder(blocks, handOuts) && numLeaves == LeavesIn(blocks) && numBlocks == BlockIdsIn(blocks)
    }

    /** `empty(k)`: no blocks and both counters at 0. */
    constructor Empty(k: nat, levels: nat)
      requires levels >= 1
      ensures Valid() && HandedOut() && this.k == k && this.levels == levels
      ensures blocks == [] && numBlocks == 0 && numLeaves == 0
    {
      this.k := k;
      this.levels := levels;
      blocks := [];
      numBlocks := 0;
      numLeaves := 0;
      handOuts := [];
    }

    /** `next_node_id`: a leaf id is the parent path without the root,
        followed by the current leaf count, which then grows by one; a block
        id is the incremented block count, so block ids start at 1 and never
        equal the root's 0. */
    method NextNodeId(leaf: bool, parentIds: seq<nat>) returns (id: NodeId)
      requires Valid()
      requires leaf ==> |parentIds| >= 1
      modifies this
      ensures Valid() && blocks == old(blocks) && handOuts == old(handOuts)
      ensures leaf ==> id == Leaf(parentIds[1..] + [old(numLeaves)])
                       && numLeaves == old(numLeaves) + 1 && numBlocks == old(numBlocks)
      ensures !leaf ==> id == NodeId.Block(old(numBlocks) + 1) && id != NodeId.Block(0)
                        && numBlocks == old(numBlocks) + 1 && numLeaves == old(numLeaves)
    {
      if leaf {
        id := Leaf(parentIds[1..] + [numLeaves]);
        numLeaves := numLeaves + 1;
      } else {
        numBlocks := numBlocks + 1;
        id := NodeId.Block(numBlocks);
      }
      forall p | 0 <= p < |blocks|
        ensures BlockValid(blocks[p], levels, numLeaves, numBlocks)
      {
        BlockValidGrow(blocks[p], levels, old(numLeaves), old(numBlocks), numLeaves, numBlocks);
      }
    }

    /** The ids of the groups, handed out one by one in group order. */
    method AssignIds(sizes: seq<nat>, lastLevel: bool, parentIds: seq<nat>) returns (ids: seq<NodeId>)
      requires Valid() && |parentIds| >= 1
      modifies this
      ensures Valid() && blocks == old(blocks) && handOuts == old(handOuts)
      ensures ids == ChildIds(sizes, lastLevel, parentIds, old(numLeaves), old(numBlocks))
      ensures numLeaves == old(numLeaves) + LeafSlots(sizes, lastLevel)
      ensures numBlocks == old(numBlocks) + (|sizes| - LeafSlots(sizes, lastLevel))
    {
      ids := [];
      for j := 0 to |sizes|
        invariant Valid() && blocks == old(blocks) && handOuts == old(handOuts)
        invariant ids == ChildIds(sizes[..j], lastLevel, parentIds, old(numLeaves), old(numBlocks))
        invariant numLeaves == old(numLeaves) + LeafSlots(sizes[..j], lastLevel)
        invariant numBlocks == old(numBlocks) + (j - LeafSlots(sizes[..j], lastLevel))
      {
        assert sizes[..j + 1][..j] == sizes[..j];
        var id := NextNodeId(IsLeafSlot(sizes[j], lastLevel), parentIds);
        ids := ids + [id];
      }
      assert sizes[..|sizes|] == sizes;
    }

    /** `cluster`: split `features` into at most `k` groups, give each group
        an id, push the block, then, below the last level, cluster the Block
        children one level further down. At the last level exactly one block
        is pushed. Below it, with more than `k` features, the i-th Block
        child is clustered on the features of the i-th group of the
        partition, whether or not that group is the child's own. */
    method Cluster(features: seq<Desc>, parentIds: seq<nat>, currLevel: nat, fuel: nat) returns (ghost seg: seq<Block>)
      requires Valid()
      requires 1 <= currLevel <= levels && |parentIds| == currLevel
      requires parentIds[currLevel - 1] <= numBlocks
      requires k >= 1 || features == []
      requires HandedOut()
      modifies this
      decreases levels - currLevel, 2
      ensures Valid() && HandedOut()
      ensures blocks == old(blocks) + seg
      ensures old(numLeaves) <= numLeaves && old(numBlocks) <= numBlocks
      ensures features == [] ==> seg == [] && numLeaves == old(numLeaves) && numBlocks == old(numBlocks)
      ensures features != [] ==> |seg| >= 1 && Pushed(seg[0], k, levels, features, parentIds, currLevel)
      ensures currLevel == levels ==> |seg| == (if features == [] then 0 else 1)
      ensures 0 < |features| <= k ==>
        && seg == [Tree.Block(NodeId.Block(parentIds[currLevel - 1]),
                              Children(features, Ones(|features|), Ones(|features|),
                                       LeafRun(parentIds, old(numLeaves), |features|)))]
        && numLeaves == old(numLeaves) + |features| && numBlocks == old(numBlocks)
      ensures features != [] ==> IdsHandedOut(seg[0], currLevel == levels, parentIds, old(numLeaves), old(numBlocks))
      ensures currLevel == levels && features != [] ==>
        numLeaves == old(numLeaves) + |seg[0].children.ids| && numBlocks == old(numBlocks)
      ensures ClusteredSeg(seg, k, levels, features, parentIds, currLevel)
      ensures numLeaves == old(numLeaves) + LeavesIn(seg) && numBlocks == old(numBlocks) + BlockIdsIn(seg)
    {
      if |features| == 0 {
        seg := [];
        assert blocks == old(blocks) + seg;
        return;
      }
      var clusters, groups, ids, converged := PushBlock(features, parentIds, currLevel, fuel);
      ghost var b := Tree.Block(NodeId.Block(parentIds[currLevel - 1]), Children(clusters, Ones(|groups|), Sizes(groups), ids));
      ghost var pushed, leaves1, blocks1 := blocks, numLeaves, numBlocks;
      ghost var segs: seq<seq<Block>> := [];
      if currLevel < levels {
        segs := ClusterChildren(features, groups, ids, parentIds, currLevel, fuel);
      }
      seg := [b] + Concat(segs);
      ClusterPost(old(blocks), pushed, blocks, b, segs, seg, k, levels, features, clusters, groups, ids, parentIds, currLevel,
                  old(numLeaves), leaves1, numLeaves, old(numBlocks), blocks1, numBlocks);
    }

    /** The first half of `cluster` on a non-empty feature set: group the
        features, hand out the group ids and push the block built from the
        centroids, unit weights, the group sizes and the ids. Gives back the
        centroids, groups and ids for the recursion, and whether Lloyd's
        loop reached its fixed point. */
    method PushBlock(features: seq<Desc>, parentIds: seq<nat>, currLevel: nat, fuel: nat)
      returns (clusters: seq<Desc>, groups: seq<seq<nat>>, ids: seq<NodeId>, converged: bool)
      requires Valid()
      requires 1 <= currLevel <= levels && |parentIds| == currLevel
      requires parentIds[currLevel - 1] <= numBlocks
      requires k >= 1 && |features| > 0
      requires HandedOut()
      modifies this
      ensures Valid() && HandedOut()
      ensures blocks == old(blocks) + [Tree.Block(NodeId.Block(parentIds[currLevel - 1]),
                                                 Children(clusters, Ones(|groups|), Sizes(groups), ids))]
      ensures ids == ChildIds(Sizes(groups), currLevel == levels, parentIds, old(numLeaves), old(numBlocks))
      ensures numLeaves == old(numLeaves) + LeafSlots(Sizes(groups), currLevel == levels)
      ensures numBlocks == old(numBlocks) + (|groups| - LeafSlots(Sizes(groups), currLevel == levels))
      ensures |clusters| == |groups| == |ids| == (if |features| <= k then |features| else k)
      ensures IndicesBelow(groups, |features|)
      ensures |features| <= k ==> clusters == features && forall i :: 0 <= i < |features| ==> groups[i] == [i]
      ensures |features| > k ==>
        && groups == Partition(features, clusters)
        && (converged ==> AreMeans(features, groups, clusters))
      ensures Pushed(blocks[|old(blocks)|], k, levels, features, parentIds, currLevel)
      ensures forall j :: 0 <= j < |ids| ==> ids[j].Block? ==> ids[j].bid <= numBlocks
      ensures |features| <= k ==>
        && blocks == old(blocks) + [Tree.Block(NodeId.Block(parentIds[currLevel - 1]),
                                          Children(features, Ones(|features|), Ones(|features|),
                                                   LeafRun(parentIds, old(numLeaves), |features|)))]
        && numLeaves == old(numLeaves) + |features| && numBlocks == old(numBlocks)
        && forall j :: 0 <= j < |ids| ==> ids[j].Leaf?
      ensures |features| <= k ==> Sizes(groups) == Ones(|features|) && ids == LeafRun(parentIds, old(numLeaves), |features|)
    {
      clusters, groups, converged := SplitFeatures(features, k, fuel);
      var sizes := Sizes(groups);
      var lastLevel := currLevel == levels;
      ghost var leaves0, blocks0 := numLeaves, numBlocks;
      ids := AssignIds(sizes, lastLevel, parentIds);
      NewBlock(k, levels, features, parentIds, currLevel, clusters, groups, leaves0, blocks0, ids, numLeaves, numBlocks);
      PushedIds(sizes, lastLevel, parentIds, levels, leaves0, blocks0, ids, numLeaves, numBlocks);
      var b := Tree.Block(NodeId.Block(parentIds[currLevel - 1]), Children(clusters, Ones(|groups|), sizes, ids));
      Push(b, HandOut(lastLevel, parentIds));
    }

    /** Appends a block that is valid against the current counters and
        whose ids were handed out, by `h`, from where the run had left the
        counters; the counters have since moved past those ids. */
    method Push(b: Block, ghost h: HandOut)
      requires Valid() && BlockValid(b, levels, numLeaves, numBlocks)
      requires InHandOutOrder(blocks, handOuts)
      requires |h.parentIds| >= 1 && IdsHandedOut(b, h.lastLevel, h.parentIds, LeavesIn(blocks), BlockIdsIn(blocks))
      requires numLeaves == LeavesIn(blocks) + LeafSlots(b.children.clusterSize, h.lastLevel)
      requires numBlocks == BlockIdsIn(blocks) + (|b.children.clusterSize| - LeafSlots(b.children.clusterSize, h.lastLevel))
      modifies this
      ensures Valid() && HandedOut() && blocks == old(blocks) + [b] && blocks[|old(blocks)|] == b
      ensures numLeaves == old(numLeaves) && numBlocks == old(numBlocks) && handOuts == old(handOuts) + [h]
    {
      AppendKeepsValid(blocks, b, levels, numLeaves, numBlocks);
      HandOutPush(blocks, handOuts, b, h);
      blocks := blocks + [b];
      handOuts := handOuts + [h];
    }

    /** The recursive step of `cluster`: for the i-th Block child among
        `ids`, cluster the features of `groups[i]` one level down, under that
        child's id. As written, `i` counts Block children only while
        `groups[i]` counts all children, so when a leaf child precedes a Block
        child the Block child is clustered on another group's features. */
    method ClusterChildren(features: seq<Desc>, groups: seq<seq<nat>>, ids: seq<NodeId>,
                           parentIds: seq<nat>, currLevel: nat, fuel: nat)
      returns (ghost segs: seq<seq<Block>>)
      requires Valid() && k >= 1
      requires 1 <= currLevel < levels && |parentIds| == currLevel
      requires |groups| == |ids| && IndicesBelow(groups, |features|)
      requires forall j :: 0 <= j < |ids| ==> ids[j].Block? ==> ids[j].bid <= numBlocks
      requires HandedOut()
      modifies this
      decreases levels - currLevel, 1
      ensures Valid() && HandedOut()
      ensures old(blocks) <= blocks
      ensures old(numLeaves) <= numLeaves && old(numBlocks) <= numBlocks
      ensures BlockChildren(ids) == [] ==> blocks == old(blocks) && numLeaves == old(numLeaves) && numBlocks == old(numBlocks)
      ensures |segs| == |BlockChildren(ids)| && blocks == old(blocks) + Concat(segs)
      ensures SegsClustered(segs, k, levels, features, groups, BlockChildren(ids), parentIds, currLevel)
      ensures numLeaves == old(numLeaves) + LeavesIn(Concat(segs)) && numBlocks == old(numBlocks) + BlockIdsIn(Concat(segs))
    {
      var blockIds := BlockChildren(ids);
      segs := [];
      assert blocks == old(blocks) + Concat(segs);
      for i := 0 to |blockIds|
        invariant Valid() && HandedOut()
        invariant old(blocks) <= blocks
        invariant i == 0 ==> blocks == old(blocks) && numLeaves == old(numLeaves) && numBlocks == old(numBlocks)
        invariant |segs| == i && blocks == old(blocks) + Concat(segs)
        invariant SegsClustered(segs, k, levels, features, groups, blockIds[..i], parentIds, currLevel)
        invariant numLeaves == old(numLeaves) + LeavesIn(Concat(segs))
        invariant numBlocks == old(numBlocks) + BlockIdsIn(Concat(segs))
      {
        assert blockIds[i] in ids;
        segs := ClusterChild(features, groups, blockIds, i, parentIds, currLevel, fuel,
                             old(blocks), segs, old(numLeaves), old(numBlocks));
      }
      assert blockIds[..|blockIds|] == blockIds;
    }

    /** One turn of the loop of `cluster` over the Block children: cluster
        the features of `groups[i]` one level down under the id of the i-th
        Block child. The segment this pushes extends the segments `segs`
        pushed since `o`, and its counts add to those since `l0` and `b0`. */
    method ClusterChild(features: seq<Desc>, groups: seq<seq<nat>>, blockIds: seq<NodeId>, i: nat,
                        parentIds: seq<nat>, currLevel: nat, fuel: nat,
                        ghost o: seq<Block>, ghost segs: seq<seq<Block>>, ghost l0: nat, ghost b0: nat)
      returns (ghost grown: seq<seq<Block>>)
      requires Valid() && k >= 1
      requires 1 <= currLevel < levels && |parentIds| == currLevel
      requires i < |blockIds| <= |groups| && IndicesBelow(groups, |features|)
      requires forall j :: 0 <= j < |blockIds| ==> blockIds[j].Block?
      requires blockIds[i].bid <= numBlocks
      requires |segs| == i && blocks == o + Concat(segs)
      requires SegsClustered(segs, k, levels, features, groups, blockIds[..i], parentIds, currLevel)
      requires numLeaves == l0 + LeavesIn(Concat(segs)) && numBlocks == b0 + BlockIdsIn(Concat(segs))
      requires HandedOut()
      modifies this
      decreases levels - currLevel, 0
      ensures Valid() && HandedOut() && o <= blocks
      ensures |grown| == i + 1 && blocks == o + Concat(grown)
      ensures SegsClustered(grown, k, levels, features, groups, blockIds[..i + 1], parentIds, currLevel)
      ensures numLeaves == l0 + LeavesIn(Concat(grown)) && numBlocks == b0 + BlockIdsIn(Concat(grown))
    {
      ghost var before, leaves1, blocks1 := blocks, numLeaves, numBlocks;
      var sub := Select(features, groups[i]);
      var childIds := parentIds + [GetBid(blockIds[i])];
      ghost var x := Cluster(sub, childIds, currLevel + 1, fuel);
      ChildStep(o, before, blocks, segs, x, k, levels, features, groups, blockIds, i, parentIds, currLevel, sub, childIds,
                l0, leaves1, numLeaves, b0, blocks1, numBlocks);
      grown := segs + [x];
    }

    /** `create`: build from the root (path `[0]`, level 1), giving the
        blocks `built` in push order, then stable-sort them by id. The root,
        pushed first with id 0, stays first: it is the k-means block of all
        the features, and below the last level its Block children were
        clustered recursively after it. When the root has only leaf
        children (one level, or at most `k` features) the vocabulary is that
        one block and can be queried. */
    static method Create(features: seq<Desc>, k: nat, levels: nat, fuel: nat) returns (v: Vocabulary, ghost built: seq<Block>)
      requires levels >= 1 && (k >= 1 || features == [])
      ensures fresh(v) && v.Valid() && v.k == k && v.levels == levels
      ensures AllBlockIds(built) && v.blocks == SortByBid(built)
      ensures AllBlockIds(v.blocks) && SortedByBid(v.blocks) && multiset(v.blocks) == multiset(built)
      ensures features != [] ==>
        |built| > 0 && v.blocks[0] == built[0] && Pushed(built[0], k, levels, features, [0], 1)
      ensures ClusteredSeg(built, k, levels, features, [0], 1)
      ensures v.numLeaves == LeavesIn(built) && v.numBlocks == BlockIdsIn(built)
      ensures InHandOutOrder(built, v.handOuts)
      ensures features != [] ==>
        built[0].children.ids == ChildIds(built[0].children.clusterSize, levels == 1, [0], 0, 0)
      ensures levels == 1 ==>
        v.numLeaves == (if |features| <= k then |features| else k) && v.numBlocks == 0
      ensures features == [] ==> v.blocks == [] && v.numLeaves == 0 && v.numBlocks == 0
      ensures features != [] ==> |v.blocks| > 0 && v.blocks[0].id == NodeId.Block(0)
      ensures 0 < |features| <= k ==>
        && v.blocks == [Tree.Block(NodeId.Block(0), Children(features, Ones(|features|), Ones(|features|), LeafRun([0], 0, |features|)))]
        && v.numLeaves == |features| && v.numBlocks == 0
      ensures features != [] && (levels == 1 || |features| <= k) ==>
        |v.blocks| == 1 && WellFormed(v.blocks, v.numLeaves)
    {
      v := new Vocabulary.Empty(k, levels);
      built := v.Cluster(features, [0], 1, fuel);
      assert v.blocks == built;
      ValidBlocksHaveIds(built, levels, v.numLeaves, v.numBlocks);
      v.blocks := SortByBid(v.blocks);
      PermutationKeepsValid(built, v.blocks, levels, v.numLeaves, v.numBlocks);
      if features != [] {
        SortKeepsRootFirst(built, v.blocks);
        RootStaysFirst(built, v.blocks);
      }
      if features != [] && (levels == 1 || |features| <= k) {
        SortOfOne(built, v.blocks);
        RootOnlyWellFormed(v.blocks[0], k, levels, features, v.numLeaves, v.numBlocks);
        assert v.blocks == [v.blocks[0]];
      }
    }

    /** The descent loop of `transform_generic` for one feature: from
        `blocks[0]`, take at each block the first child at minimum Hamming
        distance until that child is a leaf; give back the leaf's path and the
        weight stored beside it. */
    method Route(feature: Desc) returns (path: seq<nat>, weight: nat)
      requires WellFormed(blocks, numLeaves)
      ensures path == LeafOf(blocks, numLeaves, feature).path
      ensures weight == WeightOf(blocks, numLeaves, feature)
    {
      var p := 0;
      while true
        invariant p < |blocks|
        invariant Descend(blocks, numLeaves, p, feature) == Descend(blocks, numLeaves, 0, feature)
        decreases |blocks| - p
      {
        var c := blocks[p].children;
        assert BlockWellFormed(blocks, numLeaves, p);
        var best := FindNearest(c.features, feature);
        DescendStep(blocks, numLeaves, p, feature, best);
        match c.ids[best]
        case Block(b) =>
          p := b;
        case Leaf(leafPath) =>
          path, weight := leafPath, c.weights[best];
          return;
      }
    }

    /** `transform_generic`: route every feature to its leaf, add the leaf's
        weight to the histogram entry of its word and, when `di`, record the
        leaf's path. There is no error path: an empty input gives the
        all-zero histogram. */
    method TransformGeneric(features: seq<Desc>, di: bool) returns (bow: seq<nat>, directIdx: seq<seq<nat>>)
      requires features == [] || WellFormed(blocks, numLeaves)
      ensures |bow| == numLeaves
      ensures forall w :: 0 <= w < numLeaves ==> bow[w] == WordWeight(blocks, numLeaves, features, w)
      ensures features == [] ==> forall w :: 0 <= w < numLeaves ==> bow[w] == 0
      ensures directIdx == (if di then DirectIndex(blocks, numLeaves, features) else [])
    {
      bow := seq(numLeaves, _ => 0);
      directIdx := [];
      for i := 0 to |features|
        invariant |bow| == numLeaves
        invariant forall w :: 0 <= w < numLeaves ==> bow[w] == WordWeight(blocks, numLeaves, features[..i], w)
        invariant directIdx == (if di then DirectIndex(blocks, numLeaves, features[..i]) else [])
      {
        var feature := features[i];
        var path, weight := Route(feature);
        assert features[..i + 1] == features[..i] + [feature];
        AppendFeature(blocks, numLeaves, features[..i], feature);
        if di {
          directIdx := directIdx + [path];
        }
        var word := path[|path| - 1];
        bow := bow[word := bow[word] + weight];
      }
      assert features[..|features|] == features;
    }

    /** `transform`: the histogram alone. */
    method Transform(features: seq<Desc>) returns (bow: seq<nat>)
      requires features == [] || WellFormed(blocks, numLeaves)
      ensures |bow| == numLeaves
      ensures forall w :: 0 <= w < numLeaves ==> bow[w] == WordWeight(blocks, numLeaves, features, w)
    {
      var unused;
      bow, unused := TransformGeneric(features, false);
    }

    /** `transform_with_direct_idx`: the histogram and one leaf path per
        feature, in input order. */
    method TransformWithDirectIdx(features: seq<Desc>) returns (bow: seq<nat>, directIdx: seq<seq<nat>>)
      requires features == [] || WellFormed(blocks, numLeaves)
      ensures |bow| == numLeaves
      ensures forall w :: 0 <= w < numLeaves ==> bow[w] == WordWeight(blocks, numLeaves, features, w)
      ensures |directIdx| == |features|
      ensures forall i :: 0 <= i < |features| ==> directIdx[i] == LeafOf(blocks, numLeaves, features[i]).path
    {
      bow, directIdx := TransformGeneric(features, true);
    }
  }
}
