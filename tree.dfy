/** The vocabulary tree as a value (src/vocab.rs, `Block`, `Children`, the
    id assignment of `cluster`, the descent of `transform_generic` and the
    sort of `create`). */
module Tree {
  import opened Lib
  import opened NodeIds
  import opened KMeans

  /** The child nodes of a block as four parallel arrays. Weights are kept
      as naturals: the builder always writes 1. */
  datatype Children = Children(features: seq<Desc>, weights: seq<nat>, clusterSize: seq<nat>, ids: seq<NodeId>)

  /** A non-leaf node of the vocabulary. */
  datatype Block = Block(id: NodeId, children: Children)

  /** The four child arrays have equal length. */
  predicate Shaped(c: Children)
  {
    |c.weights| == |c.features| && |c.clusterSize| == |c.features| && |c.ids| == |c.features|
  }

  function Sum(xs: seq<nat>): nat
  {
    if |xs| == 0 then 0 else Sum(xs[..|xs| - 1]) + xs[|xs| - 1]
  }

  /** The size of each group. */
  function Sizes(groups: seq<seq<nat>>): (s: seq<nat>)
    ensures |s| == |groups|
    ensures forall j :: 0 <= j < |groups| ==> s[j] == |groups[j]|
  {
    seq(|groups|, j requires 0 <= j < |groups| => |groups[j]|)
  }

  lemma {:induction false} SumOfSizes(groups: seq<seq<nat>>)
    ensures Sum(Sizes(groups)) == SumSizes(groups)
    decreases |groups|
  {
    if |groups| != 0 {
      assert Sizes(groups)[..|groups| - 1] == Sizes(groups[..|groups| - 1]);
      SumOfSizes(groups[..|groups| - 1]);
    }
  }

  // ---------------------------------------------------------------------
  // Node id assignment (`groups.iter().map(|g| self.next_node_id(..))`)
  // ---------------------------------------------------------------------

  /** A group becomes a leaf at the last level or when it has exactly one
      member; otherwise (including an empty group) it becomes a block. */
  predicate IsLeafSlot(size: nat, lastLevel: bool)
  {
    lastLevel || size == 1
  }

  /** Number of slots among `sizes` that become leaves. */
  function LeafSlots(sizes: seq<nat>, lastLevel: bool): (n: nat)
    ensures n <= |sizes|
  {
    if |sizes| == 0 then 0
    else LeafSlots(sizes[..|sizes| - 1], lastLevel) + (if IsLeafSlot(sizes[|sizes| - 1], lastLevel) then 1 else 0)
  }

  /** The id `next_node_id` hands out for one slot, given the counters
      before the call. */
  function SlotId(leaf: bool, parentIds: seq<nat>, leaves: nat, blocks: nat): NodeId
    requires |parentIds| >= 1
  {
    if leaf then Leaf(parentIds[1..] + [leaves]) else NodeId.Block(blocks + 1)
  }

  /** The ids given to the groups, in order, starting from the counters
      `leaves0` and `blocks0`. */
  function ChildIds(sizes: seq<nat>, lastLevel: bool, parentIds: seq<nat>, leaves0: nat, blocks0: nat): (ids: seq<NodeId>)
    requires |parentIds| >= 1
    ensures |ids| == |sizes|
  {
    if |sizes| == 0 then []
    else
      var n := |sizes| - 1;
      var before := LeafSlots(sizes[..n], lastLevel);
      ChildIds(sizes[..n], lastLevel, parentIds, leaves0, blocks0)
        + [SlotId(IsLeafSlot(sizes[n], lastLevel), parentIds, leaves0 + before, blocks0 + (n - before))]
  }

  /** Leaf slots are numbered consecutively from `leaves0` and block slots
      consecutively from `blocks0 + 1`, each in slot order; a leaf's path is
      the parent path without the root followed by its word id. */
  lemma {:induction false} ChildIdsAt(sizes: seq<nat>, lastLevel: bool, parentIds: seq<nat>, leaves0: nat, blocks0: nat, j: nat)
    requires |parentIds| >= 1 && j < |sizes|
    ensures var id := ChildIds(sizes, lastLevel, parentIds, leaves0, blocks0)[j];
            var before := LeafSlots(sizes[..j], lastLevel);
            && (id.Leaf? <==> IsLeafSlot(sizes[j], lastLevel))
            && (id.Leaf? ==> id.path == parentIds[1..] + [leaves0 + before])
            && (id.Block? ==> id.bid == blocks0 + 1 + (j - before))
    decreases |sizes|
  {
    var n := |sizes| - 1;
    if j < n {
      assert sizes[..n][..j] == sizes[..j];
      ChildIdsAt(sizes[..n], lastLevel, parentIds, leaves0, blocks0, j);
    }
  }

  /** The leaf count of a prefix never decreases as the prefix grows. */
  lemma {:induction false} LeafSlotsMonotone(sizes: seq<nat>, lastLevel: bool, a: nat, b: nat)
    requires a <= b <= |sizes|
    ensures LeafSlots(sizes[..a], lastLevel) <= LeafSlots(sizes[..b], lastLevel)
    ensures b - a >= LeafSlots(sizes[..b], lastLevel) - LeafSlots(sizes[..a], lastLevel)
    decreases b - a
  {
    if a < b {
      LeafSlotsMonotone(sizes, lastLevel, a, b - 1);
      assert sizes[..b][..b - 1] == sizes[..b - 1];
    }
  }

  /** Word ids and block ids handed out by one id assignment are all
      distinct and lie in the ranges the counters advance over. */
  lemma ChildIdsDistinct(sizes: seq<nat>, lastLevel: bool, parentIds: seq<nat>, leaves0: nat, blocks0: nat, j1: nat, j2: nat)
    requires |parentIds| >= 1 && j1 < j2 < |sizes|
    ensures var ids := ChildIds(sizes, lastLevel, parentIds, leaves0, blocks0);
            && (ids[j1].Leaf? && ids[j2].Leaf? ==>
                  |ids[j1].path| > 0 && |ids[j2].path| > 0 && Word(ids[j1]) < Word(ids[j2]))
            && (ids[j1].Block? && ids[j2].Block? ==> ids[j1].bid < ids[j2].bid)
  {
    ChildIdsAt(sizes, lastLevel, parentIds, leaves0, blocks0, j1);
    ChildIdsAt(sizes, lastLevel, parentIds, leaves0, blocks0, j2);
    LeafSlotsMonotone(sizes, lastLevel, j1 + 1, j2);
    assert sizes[..j1 + 1][..j1] == sizes[..j1];
  }

  lemma ChildIdsRange(sizes: seq<nat>, lastLevel: bool, parentIds: seq<nat>, leaves0: nat, blocks0: nat, j: nat)
    requires |parentIds| >= 1 && j < |sizes|
    ensures var id := ChildIds(sizes, lastLevel, parentIds, leaves0, blocks0)[j];
            var leaves := LeafSlots(sizes, lastLevel);
            && (id.Leaf? ==> |id.path| == |parentIds| && leaves0 <= Word(id) < leaves0 + leaves)
            && (id.Block? ==> blocks0 < id.bid <= blocks0 + (|sizes| - leaves))
  {
    ChildIdsAt(sizes, lastLevel, parentIds, leaves0, blocks0, j);
    LeafSlotsMonotone(sizes, lastLevel, j, j + 1);
    LeafSlotsMonotone(sizes, lastLevel, j + 1, |sizes|);
    assert sizes[..j + 1][..j] == sizes[..j];
    assert sizes[..|sizes|] == sizes;
  }

  /** The Block children, in slot order (the `filter` of the recursion). */
  function BlockChildren(ids: seq<NodeId>): (r: seq<NodeId>)
    ensures |r| <= |ids|
    ensures forall a :: 0 <= a < |r| ==> r[a].Block? && r[a] in ids
  {
    if |ids| == 0 then []
    else BlockChildren(ids[..|ids| - 1]) + (if ids[|ids| - 1].Block? then [ids[|ids| - 1]] else [])
  }

  // ---------------------------------------------------------------------
  // Descent (`transform_generic`)
  // ---------------------------------------------------------------------

  /** What the descent needs of block `p`: at least one child, equal-length
      centroid, weight and id arrays, block children stored at later
      positions, and leaves with a non-empty path ending in a word id below
      `numLeaves`. */
  ghost predicate BlockWellFormed(blocks: seq<Block>, numLeaves: nat, p: nat)
    requires p < |blocks|
  {
    var c := blocks[p].children;
    && |c.features| > 0 && |c.weights| == |c.features| && |c.ids| == |c.features|
    && forall j :: 0 <= j < |c.ids| ==>
         match c.ids[j]
         case Block(b) => p < b < |blocks|
         case Leaf(path) => |path| > 0 && path[|path| - 1] < numLeaves
  }

  /** The tree can be descended from `blocks[0]` for any descriptor without
      an index going out of bounds, and every descent ends. */
  ghost predicate WellFormed(blocks: seq<Block>, numLeaves: nat)
  {
    |blocks| > 0 && forall p :: 0 <= p < |blocks| ==> BlockWellFormed(blocks, numLeaves, p)
  }

  /** The position of the block and the child slot where the descent of `f`
      from position `p` stops: at every level the first child at minimum
      distance is taken, until that child is a leaf. */
  function Descend(blocks: seq<Block>, numLeaves: nat, p: nat, f: Desc): (r: (nat, nat))
    requires WellFormed(blocks, numLeaves) && p < |blocks|
    ensures r.0 < |blocks| && r.1 < |blocks[r.0].children.ids| && r.1 < |blocks[r.0].children.weights|
    ensures blocks[r.0].children.ids[r.1].Leaf?
    decreases |blocks| - p
  {
    var c := blocks[p].children;
    var j := Nearest(c.features, f);
    assert BlockWellFormed(blocks, numLeaves, p);
    match c.ids[j]
    case Block(b) => Descend(blocks, numLeaves, b, f)
    case Leaf(_) => (p, j)
  }

  /** One step of the descent: from block `p`, the first nearest child `j`
      either is a Block, and the descent goes on from it, or a leaf, where it
      stops. */
  lemma DescendStep(blocks: seq<Block>, numLeaves: nat, p: nat, f: Desc, j: nat)
    requires WellFormed(blocks, numLeaves) && p < |blocks|
    requires IsFirstNearest(blocks[p].children.features, f, j)
    ensures j < |blocks[p].children.ids| && j < |blocks[p].children.weights|
    ensures blocks[p].children.ids[j].Block? ==>
      var b := blocks[p].children.ids[j].bid;
      p < b < |blocks| && Descend(blocks, numLeaves, p, f) == Descend(blocks, numLeaves, b, f)
    ensures blocks[p].children.ids[j].Leaf? ==> Descend(blocks, numLeaves, p, f) == (p, j)
  {
    assert BlockWellFormed(blocks, numLeaves, p);
    FirstNearestUnique(blocks[p].children.features, f, j, Nearest(blocks[p].children.features, f));
  }

  /** The leaf id reached by `f`. */
  function LeafOf(blocks: seq<Block>, numLeaves: nat, f: Desc): (id: NodeId)
    requires WellFormed(blocks, numLeaves)
    ensures id.Leaf? && |id.path| > 0 && Word(id) < numLeaves
  {
    var (p, j) := Descend(blocks, numLeaves, 0, f);
    assert BlockWellFormed(blocks, numLeaves, p);
    blocks[p].children.ids[j]
  }

  /** The weight stored beside that leaf. */
  function WeightOf(blocks: seq<Block>, numLeaves: nat, f: Desc): nat
    requires WellFormed(blocks, numLeaves)
  {
    var (p, j) := Descend(blocks, numLeaves, 0, f);
    blocks[p].children.weights[j]
  }

  /** Reference histogram entry: the total weight of the features of `fs`
      whose leaf has word id `w`. */
  function WordWeight(blocks: seq<Block>, numLeaves: nat, fs: seq<Desc>, w: nat): nat
    requires fs == [] || WellFormed(blocks, numLeaves)
  {
    if |fs| == 0 then 0
    else
      var f := fs[|fs| - 1];
      WordWeight(blocks, numLeaves, fs[..|fs| - 1], w)
        + (if Word(LeafOf(blocks, numLeaves, f)) == w then WeightOf(blocks, numLeaves, f) else 0)
  }

  /** Reference direct index: the path of each feature's leaf, in input
      order. */
  function DirectIndex(blocks: seq<Block>, numLeaves: nat, fs: seq<Desc>): (d: seq<seq<nat>>)
    requires fs == [] || WellFormed(blocks, numLeaves)
    ensures |d| == |fs|
  {
    seq(|fs|, i requires 0 <= i < |fs| => LeafOf(blocks, numLeaves, fs[i]).path)
  }

  /** Routing one more feature adds its weight to its own word's entry and
      appends its path to the direct index; nothing else changes. */
  lemma AppendFeature(blocks: seq<Block>, numLeaves: nat, fs: seq<Desc>, f: Desc)
    requires WellFormed(blocks, numLeaves)
    ensures DirectIndex(blocks, numLeaves, fs + [f])
            == DirectIndex(blocks, numLeaves, fs) + [LeafOf(blocks, numLeaves, f).path]
    ensures forall w ::
              WordWeight(blocks, numLeaves, fs + [f], w)
                == WordWeight(blocks, numLeaves, fs, w)
                   + (if Word(LeafOf(blocks, numLeaves, f)) == w then WeightOf(blocks, numLeaves, f) else 0)
  {
    assert (fs + [f])[..|fs|] == fs;
  }

  /** Every feature lands on exactly one word, so the histogram entries add
      up to the total weight of the features' leaves. */
  function TotalWeight(blocks: seq<Block>, numLeaves: nat, fs: seq<Desc>): nat
    requires fs == [] || WellFormed(blocks, numLeaves)
  {
    if |fs| == 0 then 0
    else TotalWeight(blocks, numLeaves, fs[..|fs| - 1]) + WeightOf(blocks, numLeaves, fs[|fs| - 1])
  }

  /** Sum of `WordWeight` over the words `w < n`. */
  function HistogramSum(blocks: seq<Block>, numLeaves: nat, fs: seq<Desc>, n: nat): nat
    requires fs == [] || WellFormed(blocks, numLeaves)
  {
    if n == 0 then 0 else HistogramSum(blocks, numLeaves, fs, n - 1) + WordWeight(blocks, numLeaves, fs, n - 1)
  }

  /** Adding one feature to the input adds its weight to exactly one of the
      first `n` words when its word is below `n`, and to none otherwise. */
  lemma {:induction false} HistogramSumStep(blocks: seq<Block>, numLeaves: nat, fs: seq<Desc>, n: nat)
    requires |fs| > 0 && WellFormed(blocks, numLeaves)
    ensures var f := fs[|fs| - 1];
            HistogramSum(blocks, numLeaves, fs, n)
              == HistogramSum(blocks, numLeaves, fs[..|fs| - 1], n)
                 + (if Word(LeafOf(blocks, numLeaves, f)) < n then WeightOf(blocks, numLeaves, f) else 0)
    decreases n
  {
    if n > 0 {
      HistogramSumStep(blocks, numLeaves, fs, n - 1);
    }
  }

  /** The histogram over all `numLeaves` words holds the whole weight of
      the input: no feature is dropped or counted twice. */
  lemma {:induction false} HistogramSumIsTotal(blocks: seq<Block>, numLeaves: nat, fs: seq<Desc>)
    requires fs == [] || WellFormed(blocks, numLeaves)
    ensures HistogramSum(blocks, numLeaves, fs, numLeaves) == TotalWeight(blocks, numLeaves, fs)
    decreases |fs|
  {
    if |fs| == 0 {
      HistogramOfNothing(blocks, numLeaves, numLeaves);
    } else {
      HistogramSumStep(blocks, numLeaves, fs, numLeaves);
      HistogramSumIsTotal(blocks, numLeaves, fs[..|fs| - 1]);
    }
  }

  lemma {:induction false} HistogramOfNothing(blocks: seq<Block>, numLeaves: nat, n: nat)
    ensures HistogramSum(blocks, numLeaves, [], n) == 0
    decreases n
  {
    if n > 0 {
      HistogramOfNothing(blocks, numLeaves, n - 1);
    }
  }

  // ---------------------------------------------------------------------
  // Sort by block id (`blocks.sort_by(|a, b| a.id.get_bid().cmp(..))`)
  // ---------------------------------------------------------------------

  predicate AllBlockIds(bs: seq<Block>)
  {
    forall i :: 0 <= i < |bs| ==> bs[i].id.Block?
  }

  ghost predicate SortedByBid(bs: seq<Block>)
    requires AllBlockIds(bs)
  {
    forall i, j :: 0 <= i < j < |bs| ==> GetBid(bs[i].id) <= GetBid(bs[j].id)
  }

  /** The blocks of `bs` whose id is `Block(x)`, in their order in `bs`. */
  function WithBid(bs: seq<Block>, x: nat): (r: seq<Block>)
    ensures |r| <= |bs|
  {
    if |bs| == 0 then []
    else (if bs[0].id == NodeId.Block(x) then [bs[0]] else []) + WithBid(bs[1..], x)
  }

  /** Insert `b` before the first block whose id is not smaller, so `b`
      comes before the blocks with its own id. */
  function InsertByBid(b: Block, bs: seq<Block>): (r: seq<Block>)
    requires b.id.Block? && AllBlockIds(bs)
    ensures AllBlockIds(r) && multiset(r) == multiset(bs) + multiset{b}
  {
    if |bs| == 0 then [b]
    else if GetBid(b.id) <= GetBid(bs[0].id) then [b] + bs
    else
      assert bs == [bs[0]] + bs[1..];
      [bs[0]] + InsertByBid(b, bs[1..])
  }

  lemma {:induction false} InsertSorted(b: Block, bs: seq<Block>)
    requires b.id.Block? && AllBlockIds(bs) && SortedByBid(bs)
    ensures SortedByBid(InsertByBid(b, bs))
    decreases |bs|
  {
    if |bs| != 0 && GetBid(b.id) > GetBid(bs[0].id) {
      var rest := InsertByBid(b, bs[1..]);
      InsertSorted(b, bs[1..]);
      forall x | x in rest
        ensures GetBid(bs[0].id) <= GetBid(x.id)
      {
        assert x in multiset(rest);
        assert x == b || x in multiset(bs[1..]);
      }
    }
  }

  /** Inserting `b` puts it in front of the blocks that share its id and
      leaves the order of every id's blocks as it was. */
  lemma {:induction false} InsertStable(b: Block, bs: seq<Block>, x: nat)
    requires b.id.Block? && AllBlockIds(bs)
    ensures WithBid(InsertByBid(b, bs), x) == (if b.id == NodeId.Block(x) then [b] else []) + WithBid(bs, x)
    decreases |bs|
  {
    if |bs| != 0 && GetBid(b.id) > GetBid(bs[0].id) {
      InsertStable(b, bs[1..], x);
      var r := InsertByBid(b, bs);
      assert r[0] == bs[0] && r[1..] == InsertByBid(b, bs[1..]);
      assert WithBid(bs, x) == (if bs[0].id == NodeId.Block(x) then [bs[0]] else []) + WithBid(bs[1..], x);
    } else if |bs| != 0 {
      var r := InsertByBid(b, bs);
      assert r[0] == b && r[1..] == bs;
    }
  }

  /** The blocks ordered by id; a permutation of the input. */
  function SortByBid(bs: seq<Block>): (r: seq<Block>)
    requires AllBlockIds(bs)
    ensures AllBlockIds(r) && SortedByBid(r) && multiset(r) == multiset(bs)
  {
    if |bs| == 0 then []
    else
      assert bs == [bs[0]] + bs[1..];
      var rest := SortByBid(bs[1..]);
      InsertSorted(bs[0], rest);
      InsertByBid(bs[0], rest)
  }

  /** `sort_by` is stable: for every id, the blocks carrying it keep their
      input order. With `SortedByBid` this fixes the result. */
  lemma {:induction false} SortStable(bs: seq<Block>, x: nat)
    requires AllBlockIds(bs)
    ensures WithBid(SortByBid(bs), x) == WithBid(bs, x)
    decreases |bs|
  {
    if |bs| != 0 {
      assert bs == [bs[0]] + bs[1..];
      SortStable(bs[1..], x);
      InsertStable(bs[0], SortByBid(bs[1..]), x);
    }
  }

  /** Every block `WithBid` keeps is a block of the input with id `x`, and a
      block with id `x` makes it non-empty. */
  lemma {:induction false} WithBidMembers(bs: seq<Block>, x: nat)
    ensures forall y :: y in WithBid(bs, x) ==> y in bs && y.id == NodeId.Block(x)
    ensures (exists i :: 0 <= i < |bs| && bs[i].id == NodeId.Block(x)) ==> |WithBid(bs, x)| > 0
    decreases |bs|
  {
    if |bs| != 0 {
      WithBidMembers(bs[1..], x);
      if bs[0].id != NodeId.Block(x) {
        forall i | 0 < i < |bs| && bs[i].id == NodeId.Block(x)
          ensures |WithBid(bs[1..], x)| > 0
        {
          assert bs[1..][i - 1] == bs[i];
        }
      }
    }
  }

  /** Dropping the first block drops it from its own id's list only. */
  lemma WithBidTail(bs: seq<Block>, x: nat)
    requires |bs| > 0
    ensures WithBid(bs[1..], x) == WithBid(bs, x)[(if bs[0].id == NodeId.Block(x) then 1 else 0)..]
  {
  }

  /** Two non-empty lists sorted by id with the same per-id lists start with
      the same block. */
  lemma SortedSameHead(r1: seq<Block>, r2: seq<Block>)
    requires AllBlockIds(r1) && SortedByBid(r1) && AllBlockIds(r2) && SortedByBid(r2)
    requires |r1| > 0 && |r2| > 0
    requires forall x :: WithBid(r1, x) == WithBid(r2, x)
    ensures r1[0] == r2[0]
  {
    var m1, m2 := GetBid(r1[0].id), GetBid(r2[0].id);
    WithBidMembers(r2, m1);
    WithBidMembers(r1, m2);
    assert r1[0].id == NodeId.Block(m1) && r2[0].id == NodeId.Block(m2);
    assert |WithBid(r1, m1)| > 0 && |WithBid(r2, m2)| > 0;
    var y1 := WithBid(r2, m1)[0];
    assert y1 in WithBid(r2, m1);
    var y2 := WithBid(r1, m2)[0];
    assert y2 in WithBid(r1, m2);
    assert m2 <= m1 by {
      var j :| 0 <= j < |r2| && r2[j] == y1;
      if j > 0 { assert GetBid(r2[0].id) <= GetBid(r2[j].id); }
    }
    assert m1 <= m2 by {
      var j :| 0 <= j < |r1| && r1[j] == y2;
      if j > 0 { assert GetBid(r1[0].id) <= GetBid(r1[j].id); }
    }
    assert WithBid(r1, m1)[0] == r1[0] && WithBid(r2, m1)[0] == r2[0];
    assert WithBid(r1, m1) == WithBid(r2, m1);
  }

  /** Two lists sorted by id that hold, for every id, the same blocks in the
      same order are equal: sortedness and `SortStable` together determine
      the sorted list. */
  lemma {:induction false} SortedDeterminedByIds(r1: seq<Block>, r2: seq<Block>)
    requires AllBlockIds(r1) && SortedByBid(r1) && AllBlockIds(r2) && SortedByBid(r2)
    requires forall x :: WithBid(r1, x) == WithBid(r2, x)
    ensures r1 == r2
    decreases |r1| + |r2|
  {
    if |r1| == 0 && |r2| == 0 {
      return;
    }
    if |r1| == 0 || |r2| == 0 {
      var s := if |r1| == 0 then r2 else r1;
      var x := GetBid(s[0].id);
      WithBidMembers(s, x);
      return;
    }
    SortedSameHead(r1, r2);
    forall x
      ensures WithBid(r1[1..], x) == WithBid(r2[1..], x)
    {
      WithBidTail(r1, x);
      WithBidTail(r2, x);
    }
    SortedDeterminedByIds(r1[1..], r2[1..]);
    assert r1 == [r1[0]] + r1[1..] && r2 == [r2[0]] + r2[1..];
  }

  /** After sorting, a block with the smallest id comes first: when the
      root (id 0) is present, it is `blocks[0]`. */
  lemma SortedRootFirst(bs: seq<Block>, r: nat)
    requires AllBlockIds(bs) && SortedByBid(bs)
    requires r < |bs| && bs[r].id == NodeId.Block(0)
    ensures bs[0].id == NodeId.Block(0)
  {
    if r > 0 {
      assert GetBid(bs[0].id) <= GetBid(bs[r].id);
    }
  }
}
