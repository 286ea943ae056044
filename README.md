# abow vocabulary tree, modelled in Dafny

This project models the core of `abow`, a bag-of-words library for binary
image descriptors. A descriptor is a 256-bit code stored as 32 bytes. A
vocabulary is a tree of blocks. Each block holds up to `k` children. Each
child has a centroid descriptor, a weight, the size of its cluster and an id.
A child id is either another block or a leaf (a "word").

The model covers these parts of the library:

- **Distance** (`lib.dfy`, module `Lib`): the byte-wise Hamming distance.
  The crate adds the per-byte popcounts into a `u8` accumulator, and the model
  makes that accumulator wrap modulo 256.
- **Node ids** (`nodeid.dfy`, module `NodeIds`): the two id forms, the
  conversion between an id and its serialisable twin, and `get_bid`.
- **Descriptor mean** (`descmean.dfy`, module `Means`): `desc_mean`, a
  per-bit majority vote with bits numbered most significant first.
- **k-means** (`kmeans.dfy`, module `KMeans`): the pieces `cluster` uses.
  These are the first-nearest-centroid scan, the assignment step, the update
  step, the Lloyd loop and the random seeding.
- **Tree values** (`tree.dfy`, module `Tree`): blocks and children, the
  reference descent of a feature through the tree, the reference histogram
  and direct index, and the sort of blocks by id.
- **Vocabulary** (`vocab.dfy`, module `Vocab`): the `Vocabulary` class, whose
  methods update its fields in place. It has `empty`, `next_node_id`,
  `cluster` (split into `PushBlock` and `ClusterChildren`), `create`,
  `transform_generic`, `transform` and `transform_with_direct_idx`.
- **fbow loader** (`fbow.dfy`, module `Fbow`): `FbowParams::load`,
  `Block::load` and `load_voc`. They run over the bytes of a file in the fbow
  library's fixed binary layout: an 8-byte signature, a 120-byte header, then
  `nblocks` block records.

Some behaviour is kept as the code writes it:

- The recursion step of `cluster` counts `i` over Block children only, but
  reads `groups[i]` from all children (src/vocab.rs:273-279). When a leaf
  child comes before a Block child, the Block child is clustered on another
  group's features. `Vocab.Vocabulary.ClusterChildren` does the same.
- In `Block::load`, the leaf branch and the non-leaf branch push the same
  `Leaf` id (src/load_fow.rs:51-58). So every decoded child is a leaf, and
  the leaf flag does not change the result (`Fbow.LeafFlagIgnored`).
- `load_voc` sets the level count and both id counters to 0
  (`Fbow.VocContents`).

## Model

| member | source | states |
|---|---|---|
| Lib.Hamming | src/lib.rs:29-34 | The distance is below 256. It equals the exact number of differing bits over the zipped bytes, modulo 256 (the `u8` accumulator wraps). |
| Lib.HammingFoldIsDistance | src/lib.rs:30-34 | Folding the popcounts from an accumulator `acc` gives `(acc + exact distance) % 256`. |
| Lib.HammingSelf | src/lib.rs:30-34 | A descriptor is at distance 0 from itself. |
| Lib.HammingSymmetric | src/lib.rs:30-34 | The distance is symmetric. |
| Lib.HammingTruncates | src/lib.rs:30-34 | `zip` stops at the shorter input, so only the common prefix counts. |
| Lib.BitDistanceAppend | src/lib.rs:30-34 | The exact distance adds up over concatenated equal-length parts. |
| Lib.BitDistanceBound | src/lib.rs:30-34 | The exact distance is at most 8 bits per zipped byte. |
| Lib.BitDistanceZeroIff | src/lib.rs:30-34 | The exact distance is 0 exactly when the common prefixes are equal. |
| Lib.HammingExact | src/lib.rs:30-34 | When at most 255 bits differ, the wrapped distance is the exact one. |
| Lib.HammingComplementWraps | src/lib.rs:4 | A 32-byte descriptor and its complement differ in all 256 bits, yet their wrapped distance is 0. |
| Lib.ComplementDistance | src/lib.rs:30-34 | A byte string and its complement differ in every bit. |
| Lib.PopCount | src/lib.rs:33 | A byte's popcount is at most 8 and is 0 exactly for the zero byte. |
| NodeIds.ToSerializable | src/vocab.rs:118-130 | Serialising keeps the variant, and keeps the block id or every path element. |
| NodeIds.FromSerializable | src/vocab.rs:131-143 | Deserialising keeps the variant, and keeps the block id or every path element. |
| NodeIds.SerializeRoundTrip | src/vocab.rs:118-143 | Deserialising a serialised id gives the id back. |
| NodeIds.DeserializeRoundTrip | src/vocab.rs:118-143 | Serialising a deserialised id gives the serialisable value back. |
| NodeIds.GetBid | src/vocab.rs:357-362 | Defined only on Block ids, and the id is `Block` of the result. |
| Means.DescMean | src/vocab.rs:303-321 | Result bit `i` is set exactly when more than half (rounded down) of the descriptors set bit `i`. |
| Means.CountSet | src/vocab.rs:308-314 | The count of descriptors setting a bit is at most the number of descriptors. |
| Means.MajorityUnique | src/vocab.rs:303-321 | At most one descriptor is the majority of a collection, so the mean is determined. |
| Means.MajorityOfNone | src/vocab.rs:303-321 | The mean of no descriptors is all zeros. |
| Means.MajorityOfOne | src/vocab.rs:303-321 | The mean of one descriptor is that descriptor. |
| Means.BitsDetermine | src/vocab.rs:306-307 | A descriptor is determined by its 256 bits in most-significant-first order. |
| Means.SetBufferBit | src/vocab.rs:315-319 | Setting bit `i` of the result buffer sets that bit and leaves the other 255 bits unchanged. |
| KMeans.FindNearest | src/vocab.rs:224-230 | The scan with sentinel 255 and strict `<` returns the first centroid at minimum distance. Without centroids it returns 0. |
| KMeans.Nearest | src/vocab.rs:224-230 | Reference first-nearest centroid: no centroid is closer, and every earlier one is farther. |
| KMeans.NearestIn | src/vocab.rs:224-230 | The first-nearest centroid among the first `n` centroids. |
| KMeans.FirstNearestUnique | src/vocab.rs:224-230 | The first nearest centroid is unique. |
| KMeans.AssignGroups | src/vocab.rs:222-232 | The assignment step gives the partition of feature indices by nearest centroid. |
| KMeans.Partition | src/vocab.rs:222 | There is one group per centroid. |
| KMeans.GroupMembers | src/vocab.rs:223-231 | Index `i` is in group `j` exactly when feature `i` exists and its nearest centroid is `j`. |
| KMeans.GroupSorted | src/vocab.rs:223-231 | Each group lists its feature indices in increasing order, all below the number of features. |
| KMeans.PartitionIndices | src/vocab.rs:222-232 | Every index in the partition is a valid feature index. |
| KMeans.PartitionStep | src/vocab.rs:223-231 | Adding feature `i` appends `i` to its nearest centroid's group and leaves the other groups unchanged. |
| KMeans.PartitionSizes | src/vocab.rs:222-232 | The group sizes add up to the number of features, so each feature lands in exactly one group. |
| KMeans.SumSizesGrow | src/vocab.rs:231 | Pushing an index into one group adds one to the total size. |
| KMeans.SumSizesEmpty | src/vocab.rs:219 | The initial empty groups have total size 0. |
| KMeans.Select | src/vocab.rs:242-245 | Selecting a group gives the features at the group's indices, in order. |
| KMeans.UpdateCentroids | src/vocab.rs:238-248 | Each new centroid is the majority mean of its group's features. |
| KMeans.Lloyd | src/vocab.rs:218-250 | The returned groups are the partition by nearest returned centroid, and they cover every feature once. On convergence the centroids are the means of their groups. |
| KMeans.InitializeClusters | src/vocab.rs:292-299 | Gives `k` features taken from `k` distinct positions. |
| Tree.Sizes | src/vocab.rs:262 | `cluster_size` has one entry per group, equal to that group's length. |
| Tree.SumOfSizes | src/vocab.rs:262 | The cluster sizes add up to the groups' total size. |
| Tree.LeafSlots | src/vocab.rs:254-257 | Counts the groups that get a leaf id: at most one per group. |
| Tree.ChildIds | src/vocab.rs:254-257 | Reference id hand-out: one id per group. |
| Tree.ChildIdsAt | src/vocab.rs:331-345 | Child `j` is a leaf exactly at the last level or for a singleton group. A leaf's path is the parent path without the root, then the leaf count so far. A block's id is one more than the block count so far. |
| Tree.LeafSlotsMonotone | src/vocab.rs:254-257 | Leaf counts grow with the prefix, by at most one per group. |
| Tree.ChildIdsDistinct | src/vocab.rs:254-257 | Within a block, later leaves have larger word ids and later Block children larger block ids. |
| Tree.ChildIdsRange | src/vocab.rs:254-257 | A leaf's word lies in the range handed out for this block, and a Block child's id lies above the previous block count. |
| Tree.BlockChildren | src/vocab.rs:273-276 | The filtered ids are Block ids taken from the child ids. |
| Tree.Descend | src/vocab.rs:151-182 | On a well-formed tree, the descent from a block ends at a leaf child whose index is within the child and weight arrays. |
| Tree.DescendStep | src/vocab.rs:154-166 | From a block, the first nearest child is either a Block child further on, from which the descent continues unchanged, or a leaf, where the descent stops. |
| Tree.LeafOf | src/vocab.rs:166-172 | A feature's leaf has a non-empty path, and its word is below the leaf count. |
| Tree.DirectIndex | src/vocab.rs:167-170 | The direct index has one entry per feature. |
| Tree.AppendFeature | src/vocab.rs:149-183 | Routing one more feature appends its leaf path to the direct index and adds its weight to its own word only. |
| Tree.HistogramSumStep | src/vocab.rs:172-179 | One more feature adds its weight to the histogram's first `n` entries exactly when its word is below `n`. |
| Tree.HistogramSumIsTotal | src/vocab.rs:147-183 | The histogram entries add up to the total weight of all features' leaves, so no feature is dropped or counted twice. |
| Tree.HistogramOfNothing | src/vocab.rs:147 | Without features every histogram entry is 0. |
| Tree.WithBid | src/vocab.rs:58 | The blocks carrying one id, in input order: never more than the input. |
| Tree.InsertByBid | src/vocab.rs:58 | Insertion keeps every element plus the new one. |
| Tree.InsertSorted | src/vocab.rs:58 | Inserting into a list sorted by block id keeps it sorted. |
| Tree.InsertStable | src/vocab.rs:58 | The inserted block goes in front of the blocks sharing its id, and every id's blocks keep their order. |
| Tree.SortByBid | src/vocab.rs:58 | The sorted blocks are a permutation of the input, ordered by block id. |
| Tree.SortStable | src/vocab.rs:58 | The sort is stable, as `sort_by` is: for every id, the blocks with that id keep their input order. |
| Tree.WithBidMembers | src/vocab.rs:58 | The per-id list holds only input blocks with that id, and is non-empty when such a block exists. |
| Tree.SortedSameHead | src/vocab.rs:58 | Two lists sorted by id with the same per-id lists start with the same block. |
| Tree.SortedDeterminedByIds | src/vocab.rs:58 | Two lists sorted by id with the same per-id lists are equal, so sortedness and stability fix the result of `sort_by`. |
| Tree.SortedRootFirst | src/vocab.rs:58 | In a list sorted by block id, a block with id 0 puts id 0 first. |
| Vocab.BlockValidGrow | src/vocab.rs:337-341 | The counters only grow, so a block valid against smaller counters stays valid. |
| Vocab.SingletonIds | src/vocab.rs:210-257 | With one feature per group, every child is a leaf with consecutive word ids. |
| Vocab.NoBlockChildren | src/vocab.rs:272-277 | With only leaf children, the recursion visits nothing. |
| Vocab.SplitFeatures | src/vocab.rs:207-251 | Up to `k` features give one singleton group per feature, with the features as centroids. More than `k` give `k` groups equal to the partition by nearest centroid, and when Lloyd's loop reached its fixed point each centroid is its group's majority mean. Either way the groups cover every feature index once. |
| Vocab.NewBlockIds | src/vocab.rs:254-257 | Every handed-out id is valid against the counters afterwards. Leaves sit at the current depth under the parent path. |
| Vocab.NewBlock | src/vocab.rs:253-269 | The pushed block is named by the last parent id. Its four arrays have equal length, the sizes add up to the feature count and all weights are 1. With more than `k` features the cluster sizes are those of the partition by the block's centroids. Each child is a leaf exactly at the last level or for a singleton group. |
| Vocab.PushedIds | src/vocab.rs:254-257 | Every Block id handed out for one block is within the new block count. When every group has one member, all ids are leaves numbered consecutively from the old leaf count, and the block count does not move. |
| Vocab.AppendKeepsValid | src/vocab.rs:269 | Pushing a valid block keeps all blocks valid. |
| Vocab.PermutationKeepsValid | src/vocab.rs:58 | Sorting keeps every block valid. |
| Vocab.SortKeepsRootFirst | src/vocab.rs:55-58 | After the sort, the root block (id 0) is first. |
| Vocab.SortOfOne | src/vocab.rs:58 | Sorting a single block leaves it in place. |
| Vocab.RootStaysFirst | src/vocab.rs:55-58 | The stable sort by id keeps the block pushed first with id 0 (the root) in front. |
| Vocab.RootOnlyWellFormed | src/vocab.rs:204-269 | A root block whose children are all leaves (one level, or at most `k` features) can be descended on its own. |
| Vocab.Vocabulary.Empty | src/vocab.rs:346-353 | No blocks, both counters 0, and the given `k`. The empty run is in hand-out order. |
| Vocab.Vocabulary.NextNodeId | src/vocab.rs:331-345 | A leaf id is the parent path without the root plus the old leaf count, which grows by one. A block id is the old block count plus one, which is never the root's 0. Only the used counter changes. |
| Vocab.Vocabulary.AssignIds | src/vocab.rs:254-257 | The ids are the reference hand-out from the old counters, and the counters advance by the leaves and blocks handed out. |
| Vocab.Vocabulary.Cluster | src/vocab.rs:197-289 | Empty input changes nothing. Otherwise exactly the run `ClusteredSeg` describes is appended, and nothing else: first the block for `features`, of the `Pushed` shape, with ids handed out from the old counters. Below the last level with more than `k` features, one segment per Block child follows. The i-th segment is `cluster` run one level down on the features of the i-th group of the partition by the block's centroids, under that child's id. At the last level exactly one block is pushed and the leaf counter grows by its child count. Up to `k` features push exactly one block of leaves with consecutive words. The counters grow by exactly the leaf and Block ids in the appended blocks. Every block, the appended ones included, holds the ids handed out from the counters as the blocks pushed before it left them, and the counters equal the ids handed out in all blocks (`HandedOut`). |
| Vocab.Vocabulary.PushBlock | src/vocab.rs:204-269 | Exactly one block is appended. Its centroids are the returned clusters, its weights are all 1, its cluster sizes are the group sizes and its ids are the reference hand-out from the old counters, which advance by exactly the leaves and blocks handed out. With more than `k` features the groups are the partition by the centroids, which are the groups' means when Lloyd converged. The run stays in hand-out order (`HandedOut`). |
| Vocab.Vocabulary.ClusterChildren | src/vocab.rs:271-288 | The appended blocks are one segment per Block child, in order, and nothing else. The i-th segment is the run `cluster` pushes for the features of `groups[i]` (the rank among Block children indexes all groups), under the parent path plus that child's id. The counters grow by exactly the ids in those segments. With no Block children nothing changes. Every block keeps the ids handed out from the counters as the blocks before it left them (`HandedOut`). |
| Vocab.ClusterTail | src/vocab.rs:269-288 | A pushed block with more than `k` features, followed by one clustered segment per Block child on the groups of the partition by its own centroids, is a clustered run. |
| Vocab.IdsInConcat | src/vocab.rs:254-257 | The leaf ids and the Block ids handed out over two runs of blocks add up. |
| Vocab.ChildIdsCount | src/vocab.rs:254-257 | One block's hand-out makes as many Block ids as it has non-leaf slots. |
| Vocab.ChildStep | src/vocab.rs:273-287 | One turn of the loop over the Block children appends the child's segment. The segments so far grow by it, and the counters grow by its ids. |
| Vocab.SegsExtend | src/vocab.rs:273-287 | The segment of the i-th Block child, clustered on `groups[i]`, extends the clustered segments of the first `i` children. |
| Vocab.SegOfBlock | src/vocab.rs:253-288 | A pushed block followed by its children's segments is a clustered run. At the last level, or with at most `k` features, it has no Block children and the run is the block alone. |
| Vocab.CountsOfBlock | src/vocab.rs:254-288 | The counters after one `cluster` call are the old ones plus the ids of the pushed block and of its children's segments. Without Block children only the leaf counter moves, by the child count. |
| Vocab.ClusterPost | src/vocab.rs:204-288 | Putting the push and the recursion together gives everything `Cluster` promises for non-empty features. |
| Vocab.Vocabulary.ClusterChild | src/vocab.rs:278-286 | Clustering the i-th Block child on the features of `groups[i]` extends the list of clustered segments by one. The blocks and the counters grow by exactly that segment and its ids, and every block keeps the ids handed out from the counters as the blocks before it left them (`HandedOut`). |
| Vocab.Vocabulary.Push | src/vocab.rs:269 | Appending a block that is valid against the counters keeps every block valid. Exactly that block is added, and the counters do not move. When the block's ids were handed out from where the run had left the counters, the run stays in hand-out order and the counters equal the ids handed out in all blocks. |
| Vocab.Vocabulary.Create | src/vocab.rs:50-61 | The blocks are the stable sort by id of `built`, the blocks `cluster` pushed: sorted, a permutation of `built`, all valid. `built` is exactly the clustered run for all the features at level 1, with no extra blocks. The root comes first, named 0, of the `Pushed` shape: with more than `k` features its cluster sizes are those of the partition by its centroids. Its ids are handed out from zero counters. Every block of `built`, in push order, holds the ids handed out from the counters as the blocks pushed before it left them (`InHandOutOrder`). The leaf and block counters equal the leaf and Block ids in `built`. With one level they are `min(|features|, k)` and 0. Empty input gives an empty vocabulary. Up to `k` features give a single root block of leaves. One level, or up to `k` features, gives exactly one block and a tree that `transform` can descend. |
| Vocab.HandOutPush | src/vocab.rs:254-269 | Pushing a block whose ids were handed out from the counters the run has reached keeps the run in hand-out order. The leaf count grows by the block's leaf slots and the Block count by its other slots. |
| Vocab.IdsInPrefix | src/vocab.rs:331-345 | The leaf and Block counts only grow along the run. |
| Vocab.HandOutWindow | src/vocab.rs:254-257 | Each child id of a block lies in the window its hand-out moved the counters over. A word id is at least the leaf count before the block and below the count after it. A Block id is above the Block count before the block and at most the count after it. |
| Vocab.HandOutDistinct | src/vocab.rs:254-288 | No id is handed out twice in a run. Of two child ids in push order, in one block or in two, two leaves end in increasing word ids and two Block children carry increasing Block ids. |
| Vocab.Vocabulary.Route | src/vocab.rs:150-183 | The descent loop returns the path and weight of the feature's reference leaf. |
| Vocab.Vocabulary.TransformGeneric | src/vocab.rs:146-184 | Histogram entry `w` is the total weight of the features whose leaf is word `w`. The direct index is each feature's leaf path in input order when `di` is set, and empty otherwise. |
| Vocab.Vocabulary.Transform | src/vocab.rs:28-30 | The histogram of `transform_generic`. |
| Vocab.Vocabulary.TransformWithDirectIdx | src/vocab.rs:40-45 | The histogram, and for each feature the path of its leaf. |
| Fbow.LeNat | src/load_fow.rs:20-29 | A little-endian unsigned integer is below 256 to the power of its width. |
| Fbow.LeRoundTrip | src/load_fow.rs:20-29 | Reading back a little-endian encoding gives the number. |
| Fbow.LeRoundTripBytes | src/load_fow.rs:20-29 | Re-encoding a decoded byte string gives the bytes. |
| Fbow.I32 | src/load_fow.rs:27-28 | A two's-complement 32-bit read lies in the `i32` range. |
| Fbow.I32RoundTrip | src/load_fow.rs:27-28 | Reading back an encoded `i32` gives the value. |
| Fbow.I32BytesRoundTrip | src/load_fow.rs:27-28 | Re-encoding a decoded `i32` gives the four bytes. |
| Fbow.LoadParams | src/load_fow.rs:17-31 | The header parses exactly when it has at least 116 bytes, otherwise `ShortHeader`. Every field is in its type's range. |
| Fbow.EncodedNameFields | src/load_fow.rs:19-21 | In an encoded header the name, `alignment` and `nblocks` sit at bytes 0..50, 52..56 and 56..60. |
| Fbow.EncodedSizeFields | src/load_fow.rs:22-26 | In an encoded header the five 64-bit fields sit at bytes 64..104. |
| Fbow.EncodedTypeFields | src/load_fow.rs:27-29 | In an encoded header `desc_type`, `desc_size` and `m_k` sit at bytes 104..116. |
| Fbow.ParamsRoundTrip | src/load_fow.rs:17-31 | Parsing an encoded header gives the parameters back. |
| Fbow.ParamsRoundTripBytes | src/load_fow.rs:17-31 | A 120-byte header with zero padding is exactly the encoding of what it parses to. |
| Fbow.Chunks | src/load_fow.rs:39-42 | The centroid region splits into one descriptor per 32 bytes. |
| Fbow.FlattenChunks | src/load_fow.rs:39-42 | The descriptors put back together give the region. |
| Fbow.ChunksFlatten | src/load_fow.rs:39-42 | Chunking flattened descriptors gives the descriptors. |
| Fbow.EntryId | src/load_fow.rs:48-58 | A child entry decodes to a leaf whose word is the id with the top bit cleared. |
| Fbow.EntryWeight | src/load_fow.rs:49 | The weight is the raw 32-bit word after the id. |
| Fbow.DecodeBlock | src/load_fow.rs:35-72 | A record decodes exactly when the centroid region, a whole number of descriptors, and all `m_k` entries and bytes 4..8 lie inside it. Otherwise the first such failure is returned. It gives a block id, the right counts, empty cluster sizes and only leaf children. |
| Fbow.DecodedFeatures | src/load_fow.rs:39-42 | The decoded centroids are exactly the bytes of the centroid region. |
| Fbow.LoadBlock | src/load_fow.rs:35-72 | The loop over the `m_k` entries gives the reference decoding, failures included. |
| Fbow.EntryRoundTrip | src/load_fow.rs:45-60 | An encoded entry decodes to its word and weight, with or without the leaf flag. |
| Fbow.EncodeEntriesAt | src/load_fow.rs:46 | Entry `i` sits at offset `8 * i` of the entries. |
| Fbow.MaskFlag | src/load_fow.rs:53-56 | Clearing the top bit of an id word gives back the word id, whether the flag was set or not. |
| Fbow.EntryHalves | src/load_fow.rs:48-49 | An eight-byte entry splits into the id at its first four bytes and the weight at its last four. |
| Fbow.EntryAt | src/load_fow.rs:45-60 | Entry `i` of encoded entries, read at `child_off_start + 8 * i`, gives back its word and weight. |
| Fbow.EntriesRoundTrip | src/load_fow.rs:45-60 | Every entry read from encoded entries gives back its word and weight, whatever follows the entries. |
| Fbow.EncodeBlockParts | src/load_fow.rs:35-72 | An encoded record has its id at 4..8, its centroids at the feature offset, its entries at the child offset and its padding after them. |
| Fbow.DecodeLaidOut | src/load_fow.rs:35-72 | A record laid out this way decodes to the block, whatever padding follows the entries. |
| Fbow.BlockRoundTrip | src/load_fow.rs:35-72 | Decoding an encoded block with matching offsets gives the block back, for any padding up to the padded block size. |
| Fbow.LeafFlagIgnored | src/load_fow.rs:50-58 | Setting the leaf flag or not gives the same decoded block. |
| Fbow.DecodeBlocks | src/load_fow.rs:97-106 | Decoding succeeds exactly when every one of the `n` records lies in the payload and decodes. The result then holds the `n` decoded records in order. |
| Fbow.DecodeBlocksFailureSticks | src/load_fow.rs:99-106 | Once a record fails, decoding further records keeps that failure. |
| Fbow.DecodeVoc | src/load_fow.rs:76-115 | A file too short for the header fields fails with `ShortHeader`. |
| Fbow.VocLoadsIff | src/load_fow.rs:76-115 | A file loads exactly when four things hold: its header parses, it declares 32-byte descriptors, `total_size` equals the payload length, and all `nblocks` records lie in the payload and decode. |
| Fbow.VocContents | src/load_fow.rs:97-114 | A loaded vocabulary holds the `nblocks` decoded records in file order, with `k = m_k`, and `l` and both counters 0. |
| Fbow.LoadVoc | src/load_fow.rs:76-115 | Reading the header, checking it and looping over the records gives the reference result, failures included. |

## Left out

- Vocab.Vocabulary.TransformGeneric: weights are natural numbers and the histogram is not L1-normalised. The final division by the sum (src/vocab.rs:185-193) is floating point.
- Vocab.Vocabulary.TransformGeneric: requires a well-formed tree when there are features: every child array non-empty, every Block child naming a block stored at a later position, every leaf word below `num_leaves`. The source accepts more and fails in other ways. A Block child stored before its parent descends normally there. A Block child naming its own block or an ancestor makes the loop at src/vocab.rs:154-166 run forever. A block id past the list or a word past `num_leaves` panics. None of these trees is modelled.
- Vocab.Vocabulary.Create: promises a well-formed tree only for one level or at most `k` features. In general Lloyd can leave a group empty, and the recursion indexes `groups[i]` by the rank among Block children, so a Block child can get no block of its own.
- Vocab.Vocabulary.Create: like `Cluster`, does not tie the centroids to the means Lloyd's loop converges to, for the reason given for `Vocab.Vocabulary.Cluster` below.
- Vocab.Vocabulary.Create: requires `levels >= 1`. The const generic `L = 0` is not modelled.
- Vocab.Vocabulary.Create: requires `k >= 1` when there are features. With `k == 0` the source panics: `choose_multiple` yields no centroids and `new_groups[best.0]` indexes an empty vector (src/vocab.rs:218-231). That panic is not modelled.
- Vocab.Vocabulary.Cluster: requires `k >= 1` when there are features, for the same `k == 0` panic.
- Vocab.Vocabulary.Cluster: does not promise that a block's centroids are the majority means of their groups. `PushBlock` promises it only when Lloyd's loop reached its fixed point within the fuel, and `Cluster` drops that flag. So `Cluster` and `Create` say that the cluster sizes are those of the partition by the block's own centroids, not how those centroids were found.
- Vocab.Vocabulary.PushBlock: requires `k >= 1`, for the same `k == 0` panic.
- Vocab.SplitFeatures: requires `k >= 1`, for the same `k == 0` panic.
- KMeans.Lloyd: the source loops until the assignment stops changing, with no bound. The model makes at most `fuel` centroid updates, then keeps the assignment to the current centroids. Convergence within the bound is not proved.
- KMeans.InitializeClusters: the random choice (`thread_rng`, `choose_multiple`) is an arbitrary choice of `k` distinct positions, in any order.
- Tree.ChildIdsDistinct: word ids are shown distinct within one block, not across the whole tree.
- Lib.Hamming: models the release-build wrap-around of the `u8` accumulator. A debug build panics on that overflow instead.
- Fbow.EntryWeight: the `f32` weight is kept as its raw 32-bit pattern, not as a float.
- Fbow.LoadParams: `from_ne_bytes` is read as little-endian, as on the usual hosts.
- Fbow.LoadVoc: panics of the loader (slice bounds, `unwrap`, `assert_eq!`) are `Err` values of `LoadError`. Opening and reading the file are left out, and the model starts from the file's bytes. The 8-byte signature is skipped unchecked, as in the source.
- Integer widths: `usize` counters and offsets are unbounded integers, so overflow of `num_leaves`, `num_blocks` and `i * block_size_bytes_wp` is not modelled. The header's 32-bit and 64-bit fields keep their ranges (`Fbow.ParamsInRange`).
- Saving and loading through `bincode` (src/vocab.rs:63-79) is not part of this model. Neither are the `Debug` printers (src/vocab.rs:365-403) or the progress `println!` of `cluster`. Nor is the parameter printout `println!("params: {:?}", params)` of `load_voc` (src/load_fow.rs:84).
- `BoW` similarity (`l1`, `l2` in src/lib.rs:9-27) is not part of this model: it is floating point, and `l2` is unimplemented. src/bow.rs and src/opencv_utils.rs are not part of this model either.
