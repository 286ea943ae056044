/** Decoder for vocabularies in the fixed-layout binary format of the fbow
    library (src/load_fow.rs): an 8-byte signature, a 120-byte parameter
    header, then `nblocks` block records of `block_size_bytes_wp` bytes each.

    The loader works on the whole file as a byte sequence. Multi-byte
    integers are little-endian; the loader reads some of them in native byte
    order, which is taken to be little-endian here. Every panic of the loader
    (a slice out of bounds, a failed `unwrap`, a failed `assert_eq!`) is an
    `Err` value. The decoded records keep the fbow format's own shapes: a
    leaf child carries only its word id. */
module Fbow {
  import opened Lib

  const U32: int := 0x1_0000_0000
  const U64: int := 0x1_0000_0000_0000_0000
  /** The leaf flag of a child entry's id word. */
  const LeafFlag: int := 0x8000_0000

  /** Bytes the signature and the parameter header take at the file start. */
  const SignatureBytes: nat := 8
  const HeaderBytes: nat := 120
  /** The parameter reader's last read ends here (`m_k` at 112..116). */
  const HeaderFieldsEnd: nat := 116

  datatype LoadError =
    | ShortHeader               // fewer than 116 parameter bytes
    | FeatureRegionOutOfBounds  // feature_off_start..child_off_start not inside the record
    | RaggedFeatures            // the centroid region is not a whole number of descriptors
    | ChildEntryOutOfBounds     // a child entry reaches past the record
    | ShortBlockRecord          // the record has no bytes 4..8 for its id
    | DescSizeMismatch          // desc_size_bytes_wp differs from 32
    | PayloadSizeMismatch       // the payload is not total_size bytes long
    | BlockOutOfRange           // a block record reaches past the payload

  datatype Result<T> = Ok(value: T) | Err(error: LoadError)

  // ---------------------------------------------------------------------
  // Little-endian integers
  // ---------------------------------------------------------------------

  function Pow256(n: nat): (p: nat)
    ensures p >= 1
  {
    if n == 0 then 1 else 256 * Pow256(n - 1)
  }

  lemma Pow256Widths()
    ensures Pow256(4) == U32 && Pow256(8) == U64
  {
    assert Pow256(2) == 0x1_0000;
    assert Pow256(4) == U32;
  }

  /** The unsigned little-endian integer in `bs` (`uN::from_le_bytes`). */
  function LeNat(bs: seq<byte>): (r: nat)
    ensures r < Pow256(|bs|)
  {
    if |bs| == 0 then 0 else bs[0] as nat + 256 * LeNat(bs[1..])
  }

  /** The byte whose value is `x`, counted up from 0. */
  function ByteOf(x: nat): byte
    requires x < 256
  {
    if x == 0 then 0 else ByteOf(x - 1) + 1
  }

  /** The `width` little-endian bytes of `n` (`uN::to_le_bytes`). */
  function EncodeLe(n: nat, width: nat): (bs: seq<byte>)
    requires n < Pow256(width)
    ensures |bs| == width
  {
    if width == 0 then [] else [ByteOf(n % 256)] + EncodeLe(n / 256, width - 1)
  }

  lemma {:induction false} LeRoundTrip(n: nat, width: nat)
    requires n < Pow256(width)
    ensures LeNat(EncodeLe(n, width)) == n
    decreases width
  {
    if width > 0 {
      var q, r := n / 256, n % 256;
      assert n == r + 256 * q;
      var bs := EncodeLe(n, width);
      assert bs[1..] == EncodeLe(q, width - 1);
      LeRoundTrip(q, width - 1);
      ByteOfValue(r);
    }
  }

  lemma {:induction false} LeRoundTripBytes(bs: seq<byte>)
    ensures EncodeLe(LeNat(bs), |bs|) == bs
    decreases |bs|
  {
    if |bs| > 0 {
      var n := LeNat(bs);
      ByteOfNat(bs[0]);
      DivModByte(bs[0] as nat, LeNat(bs[1..]));
      LeRoundTripBytes(bs[1..]);
      assert n % 256 == bs[0] as nat;
    }
  }

  lemma SuccByte(b: byte)
    requires b as nat < 255
    ensures (b + 1) as nat == b as nat + 1
  {
  }

  lemma PredByte(b: byte)
    requires b != 0
    ensures (b - 1) as nat == b as nat - 1 && (b - 1) + 1 == b
  {
  }

  lemma {:induction false} ByteOfValue(x: nat)
    requires x < 256
    ensures ByteOf(x) as nat == x
    decreases x
  {
    if x > 0 {
      ByteOfValue(x - 1);
      SuccByte(ByteOf(x - 1));
    }
  }

  lemma {:induction false} ByteOfNat(b: byte)
    ensures b as nat < 256 && ByteOf(b as nat) == b
    decreases b as nat
  {
    if b != 0 {
      PredByte(b);
      ByteOfNat(b - 1);
    }
  }

  lemma DivModByte(b: nat, r: nat)
    requires b < 256
    ensures (b + 256 * r) % 256 == b && (b + 256 * r) / 256 == r
  {
  }

  /** The signed 32-bit integer in four little-endian bytes
      (`i32::from_le_bytes`, two's complement). */
  function I32(bs: seq<byte>): (r: int)
    requires |bs| == 4
    ensures -LeafFlag <= r < LeafFlag
  {
    Pow256Widths();
    var u := LeNat(bs);
    if u < LeafFlag then u else u - U32
  }

  function EncodeI32(v: int): (bs: seq<byte>)
    requires -LeafFlag <= v < LeafFlag
    ensures |bs| == 4
  {
    Pow256Widths();
    EncodeLe(if v >= 0 then v else v + U32, 4)
  }

  lemma I32RoundTrip(v: int)
    requires -LeafFlag <= v < LeafFlag
    ensures I32(EncodeI32(v)) == v
  {
    Pow256Widths();
    LeRoundTrip(if v >= 0 then v else v + U32, 4);
  }

  // ---------------------------------------------------------------------
  // Parameter header (`FbowParams::load`)
  // ---------------------------------------------------------------------

  datatype FbowParams = FbowParams(
    descName: seq<byte>,
    alignment: nat,
    nblocks: nat,
    descSizeBytesWp: nat,
    blockSizeBytesWp: nat,
    featureOffStart: nat,
    childOffStart: nat,
    totalSize: nat,
    descType: int,
    descSize: int,
    mK: nat)

  /** The values a header can hold: a 50-byte name, 32- and 64-bit unsigned
      fields and two signed 32-bit fields. */
  predicate ParamsInRange(p: FbowParams)
  {
    && |p.descName| == 50
    && p.alignment < U32 && p.nblocks < U32 && p.mK < U32
    && p.descSizeBytesWp < U64 && p.blockSizeBytesWp < U64
    && p.featureOffStart < U64 && p.childOffStart < U64 && p.totalSize < U64
    && -LeafFlag <= p.descType < LeafFlag && -LeafFlag <= p.descSize < LeafFlag
  }

  /** `FbowParams::load`: every field at its fixed offset; fails exactly
      when the header is too short for the last field. */
  function LoadParams(bytes: seq<byte>): (r: Result<FbowParams>)
    ensures r.Ok? <==> |bytes| >= HeaderFieldsEnd
    ensures r.Err? ==> r.error == ShortHeader
    ensures r.Ok? ==> ParamsInRange(r.value)
  {
    Pow256Widths();
    if |bytes| < HeaderFieldsEnd then Err(ShortHeader)
    else Ok(FbowParams(
      bytes[..50],
      LeNat(bytes[52..56]),
      LeNat(bytes[56..60]),
      LeNat(bytes[64..72]),
      LeNat(bytes[72..80]),
      LeNat(bytes[80..88]),
      LeNat(bytes[88..96]),
      LeNat(bytes[96..104]),
      I32(bytes[104..108]),
      I32(bytes[108..112]),
      LeNat(bytes[112..116])))
  }

  /** Header bytes 0..64: the name, padding, `alignment`, `nblocks`,
      padding. */
  function EncodeNamePart(p: FbowParams): (bytes: seq<byte>)
    requires ParamsInRange(p)
    ensures |bytes| == 64
  {
    Pow256Widths();
    p.descName + Zeros(2) + EncodeLe(p.alignment, 4) + EncodeLe(p.nblocks, 4) + Zeros(4)
  }

  /** Header bytes 64..104: the five 64-bit sizes and offsets. */
  function EncodeSizePart(p: FbowParams): (bytes: seq<byte>)
    requires ParamsInRange(p)
    ensures |bytes| == 40
  {
    Pow256Widths();
    EncodeLe(p.descSizeBytesWp, 8) + EncodeLe(p.blockSizeBytesWp, 8)
      + EncodeLe(p.featureOffStart, 8) + EncodeLe(p.childOffStart, 8)
      + EncodeLe(p.totalSize, 8)
  }

  /** Header bytes 104..120: `desc_type`, `desc_size`, `m_k`, padding. */
  function EncodeTypePart(p: FbowParams): (bytes: seq<byte>)
    requires ParamsInRange(p)
    ensures |bytes| == 16
  {
    Pow256Widths();
    EncodeI32(p.descType) + EncodeI32(p.descSize) + EncodeLe(p.mK, 4) + Zeros(4)
  }

  /** A 120-byte header holding `p`, with zero padding at 50..52, 60..64
      and 116..120. */
  function EncodeParams(p: FbowParams): (bytes: seq<byte>)
    requires ParamsInRange(p)
    ensures |bytes| == HeaderBytes
  {
    EncodeNamePart(p) + EncodeSizePart(p) + EncodeTypePart(p)
  }

  lemma NamePartFields(p: FbowParams)
    requires ParamsInRange(p)
    ensures var e := EncodeNamePart(p);
            e[..50] == p.descName && LeNat(e[52..56]) == p.alignment && LeNat(e[56..60]) == p.nblocks
  {
    Pow256Widths();
    var e := EncodeNamePart(p);
    assert e[52..56] == EncodeLe(p.alignment, 4);
    assert e[56..60] == EncodeLe(p.nblocks, 4);
    LeRoundTrip(p.alignment, 4);
    LeRoundTrip(p.nblocks, 4);
  }

  lemma SizePartFields(p: FbowParams)
    requires ParamsInRange(p)
    ensures var e := EncodeSizePart(p);
            && LeNat(e[..8]) == p.descSizeBytesWp && LeNat(e[8..16]) == p.blockSizeBytesWp
            && LeNat(e[16..24]) == p.featureOffStart && LeNat(e[24..32]) == p.childOffStart
            && LeNat(e[32..40]) == p.totalSize
  {
    Pow256Widths();
    var e := EncodeSizePart(p);
    assert e[..8] == EncodeLe(p.descSizeBytesWp, 8);
    assert e[8..16] == EncodeLe(p.blockSizeBytesWp, 8);
    assert e[16..24] == EncodeLe(p.featureOffStart, 8);
    assert e[24..32] == EncodeLe(p.childOffStart, 8);
    assert e[32..40] == EncodeLe(p.totalSize, 8);
    LeRoundTrip(p.descSizeBytesWp, 8);
    LeRoundTrip(p.blockSizeBytesWp, 8);
    LeRoundTrip(p.featureOffStart, 8);
    LeRoundTrip(p.childOffStart, 8);
    LeRoundTrip(p.totalSize, 8);
  }

  lemma TypePartFields(p: FbowParams)
    requires ParamsInRange(p)
    ensures var e := EncodeTypePart(p);
            I32(e[..4]) == p.descType && I32(e[4..8]) == p.descSize && LeNat(e[8..12]) == p.mK
  {
    Pow256Widths();
    var e := EncodeTypePart(p);
    assert e[..4] == EncodeI32(p.descType);
    assert e[4..8] == EncodeI32(p.descSize);
    assert e[8..12] == EncodeLe(p.mK, 4);
    I32RoundTrip(p.descType);
    I32RoundTrip(p.descSize);
    LeRoundTrip(p.mK, 4);
  }

  lemma EncodedNameFields(p: FbowParams)
    requires ParamsInRange(p)
    ensures var e := EncodeParams(p);
            e[..50] == p.descName && LeNat(e[52..56]) == p.alignment && LeNat(e[56..60]) == p.nblocks
  {
    var a := EncodeNamePart(p);
    var e := EncodeParams(p);
    NamePartFields(p);
    assert e[..64] == a;
    assert e[..50] == a[..50] && e[52..56] == a[52..56] && e[56..60] == a[56..60];
  }

  lemma EncodedSizeFields(p: FbowParams)
    requires ParamsInRange(p)
    ensures var e := EncodeParams(p);
            && LeNat(e[64..72]) == p.descSizeBytesWp && LeNat(e[72..80]) == p.blockSizeBytesWp
            && LeNat(e[80..88]) == p.featureOffStart && LeNat(e[88..96]) == p.childOffStart
            && LeNat(e[96..104]) == p.totalSize
  {
    var b := EncodeSizePart(p);
    var e := EncodeParams(p);
    SizePartFields(p);
    assert e[64..104] == b;
    assert e[64..72] == b[..8] && e[72..80] == b[8..16] && e[80..88] == b[16..24];
    assert e[88..96] == b[24..32] && e[96..104] == b[32..40];
  }

  lemma EncodedTypeFields(p: FbowParams)
    requires ParamsInRange(p)
    ensures var e := EncodeParams(p);
            I32(e[104..108]) == p.descType && I32(e[108..112]) == p.descSize && LeNat(e[112..116]) == p.mK
  {
    var c := EncodeTypePart(p);
    var e := EncodeParams(p);
    TypePartFields(p);
    assert e[104..] == c;
    assert e[104..108] == c[..4] && e[108..112] == c[4..8] && e[112..116] == c[8..12];
  }

  /** Reading a written header gives back every field. */
  lemma ParamsRoundTrip(p: FbowParams)
    requires ParamsInRange(p)
    ensures LoadParams(EncodeParams(p)) == Ok(p)
  {
    EncodedNameFields(p);
    EncodedSizeFields(p);
    EncodedTypeFields(p);
  }

  lemma NamePartBytes(bytes: seq<byte>)
    requires |bytes| == HeaderBytes && bytes[50..52] == Zeros(2) && bytes[60..64] == Zeros(4)
    ensures EncodeNamePart(LoadParams(bytes).value) == bytes[..64]
  {
    LeRoundTripBytes(bytes[52..56]);
    LeRoundTripBytes(bytes[56..60]);
    assert bytes[..64] == bytes[..50] + bytes[50..52] + bytes[52..56] + bytes[56..60] + bytes[60..64];
  }

  lemma SizePartBytes(bytes: seq<byte>)
    requires |bytes| == HeaderBytes
    ensures EncodeSizePart(LoadParams(bytes).value) == bytes[64..104]
  {
    LeRoundTripBytes(bytes[64..72]);
    LeRoundTripBytes(bytes[72..80]);
    LeRoundTripBytes(bytes[80..88]);
    LeRoundTripBytes(bytes[88..96]);
    LeRoundTripBytes(bytes[96..104]);
    assert bytes[64..104] == bytes[64..72] + bytes[72..80] + bytes[80..88] + bytes[88..96] + bytes[96..104];
  }

  lemma TypePartBytes(bytes: seq<byte>)
    requires |bytes| == HeaderBytes && bytes[116..] == Zeros(4)
    ensures EncodeTypePart(LoadParams(bytes).value) == bytes[104..]
  {
    I32BytesRoundTrip(bytes[104..108]);
    I32BytesRoundTrip(bytes[108..112]);
    LeRoundTripBytes(bytes[112..116]);
    assert bytes[104..] == bytes[104..108] + bytes[108..112] + bytes[112..116] + bytes[116..];
  }

  /** Writing a read header gives back its bytes, provided the padding the
      reader skips is zero. */
  lemma ParamsRoundTripBytes(bytes: seq<byte>)
    requires |bytes| == HeaderBytes
    requires bytes[50..52] == Zeros(2) && bytes[60..64] == Zeros(4) && bytes[116..] == Zeros(4)
    ensures LoadParams(bytes).Ok? && EncodeParams(LoadParams(bytes).value) == bytes
  {
    NamePartBytes(bytes);
    SizePartBytes(bytes);
    TypePartBytes(bytes);
    assert bytes == bytes[..64] + bytes[64..104] + bytes[104..];
  }

  lemma I32BytesRoundTrip(bs: seq<byte>)
    requires |bs| == 4
    ensures EncodeI32(I32(bs)) == bs
  {
    LeRoundTripBytes(bs);
  }

  // ---------------------------------------------------------------------
  // Block records (`Block::load`)
  // ---------------------------------------------------------------------

  /** A child id as the fbow reader builds it: only leaves, carrying a word
      id of at most 31 bits. */
  datatype FbowNodeId = FbowBlockId(bid: nat) | FbowLeaf(word: nat)

  datatype FbowChildren = FbowChildren(features: seq<Desc>, weights: seq<nat>, clusterSize: seq<nat>, ids: seq<FbowNodeId>)

  datatype FbowBlock = FbowBlock(id: FbowNodeId, children: FbowChildren)

  /** The bytes of `s` cut into consecutive descriptors (`chunks(32)` with
      every chunk converted to a descriptor). */
  function Chunks(s: seq<byte>): (ds: seq<Desc>)
    requires |s| % DescBytes == 0
    ensures |ds| == |s| / DescBytes
    decreases |s|
  {
    if |s| == 0 then [] else [s[..DescBytes]] + Chunks(s[DescBytes..])
  }

  /** The descriptors laid end to end. */
  function Flatten(ds: seq<Desc>): (s: seq<byte>)
    ensures |s| == DescBytes * |ds|
  {
    if |ds| == 0 then [] else ds[0] + Flatten(ds[1..])
  }

  lemma {:induction false} FlattenChunks(s: seq<byte>)
    requires |s| % DescBytes == 0
    ensures Flatten(Chunks(s)) == s
    decreases |s|
  {
    if |s| > 0 {
      var ds := Chunks(s);
      assert ds[1..] == Chunks(s[DescBytes..]);
      FlattenChunks(s[DescBytes..]);
      assert s == s[..DescBytes] + s[DescBytes..];
    }
  }

  lemma {:induction false} ChunksFlatten(ds: seq<Desc>)
    ensures |Flatten(ds)| % DescBytes == 0 && Chunks(Flatten(ds)) == ds
    decreases |ds|
  {
    if |ds| > 0 {
      var s := Flatten(ds);
      assert s[..DescBytes] == ds[0] && s[DescBytes..] == Flatten(ds[1..]);
      ChunksFlatten(ds[1..]);
      assert ds == [ds[0]] + ds[1..];
    }
  }

  /** Where child entry `i` starts, eight bytes per entry from `child`. */
  function EntryStart(child: nat, i: nat): nat
  {
    child + 8 * i
  }

  /** The id of the child entry at `start`: the flag bit is masked off and
      the rest becomes a leaf's word id, whichever value the flag has. */
  function EntryId(bytes: seq<byte>, start: nat): (id: FbowNodeId)
    requires start + 4 <= |bytes|
    ensures id.FbowLeaf? && id.word < LeafFlag
  {
    FbowLeaf(LeNat(bytes[start..start + 4]) % LeafFlag)
  }

  /** The weight of the child entry at `start`, as its raw 32-bit pattern. */
  function EntryWeight(bytes: seq<byte>, start: nat): (w: nat)
    requires start + 8 <= |bytes|
    ensures w < U32
  {
    Pow256Widths();
    LeNat(bytes[start + 4..start + 8])
  }

  /** Everything `Block::load` reads lies inside the record. */
  predicate BlockFits(bytes: seq<byte>, p: FbowParams)
  {
    && p.featureOffStart <= p.childOffStart <= |bytes|
    && (p.childOffStart - p.featureOffStart) % DescBytes == 0
    && p.childOffStart + 8 * p.mK <= |bytes|
    && 8 <= |bytes|
  }

  /** The record a block is decoded into, with the failures in the order the
      reader meets them: the centroid region, its chunking, the child
      entries, then the block's own id at bytes 4..8. */
  function DecodeBlock(bytes: seq<byte>, p: FbowParams): (r: Result<FbowBlock>)
    ensures r.Ok? <==> BlockFits(bytes, p)
    ensures r.Ok? ==>
      var c := r.value.children;
      && r.value.id.FbowBlockId?
      && |c.features| == (p.childOffStart - p.featureOffStart) / DescBytes
      && |c.weights| == |c.ids| == p.mK && c.clusterSize == []
      && forall i :: 0 <= i < |c.ids| ==> c.ids[i].FbowLeaf?
  {
    var feat, child := p.featureOffStart, p.childOffStart;
    if !(feat <= child <= |bytes|) then Err(FeatureRegionOutOfBounds)
    else if (child - feat) % DescBytes != 0 then Err(RaggedFeatures)
    else if child + 8 * p.mK > |bytes| then Err(ChildEntryOutOfBounds)
    else if |bytes| < 8 then Err(ShortBlockRecord)
    else Ok(FbowBlock(
      FbowBlockId(LeNat(bytes[4..8])),
      FbowChildren(
        Chunks(bytes[feat..child]),
        seq(p.mK, i requires 0 <= i < p.mK => EntryWeight(bytes, EntryStart(child, i))),
        [],
        seq(p.mK, i requires 0 <= i < p.mK => EntryId(bytes, EntryStart(child, i))))))
  }

  /** The centroids of a decoded block are exactly the bytes of its centroid
      region. */
  lemma DecodedFeatures(bytes: seq<byte>, p: FbowParams)
    requires DecodeBlock(bytes, p).Ok?
    ensures Flatten(DecodeBlock(bytes, p).value.children.features) == bytes[p.featureOffStart..p.childOffStart]
  {
    FlattenChunks(bytes[p.featureOffStart..p.childOffStart]);
  }

  /** `Block::load`: cut the centroid region into descriptors, then read the
      `m_k` child entries, eight bytes apart from `child_off_start`, then the
      block's own id. */
  method LoadBlock(bytes: seq<byte>, params: FbowParams) returns (r: Result<FbowBlock>)
    ensures r == DecodeBlock(bytes, params)
  {
    var featSt := params.featureOffStart;
    var childSt := params.childOffStart;
    if !(featSt <= childSt <= |bytes|) {
      return Err(FeatureRegionOutOfBounds);
    }
    if (childSt - featSt) % DescBytes != 0 {
      return Err(RaggedFeatures);
    }
    var features := Chunks(bytes[featSt..childSt]);
    var weights: seq<nat> := [];
    var ids: seq<FbowNodeId> := [];
    for i := 0 to params.mK
      invariant |weights| == |ids| == i
      invariant childSt + 8 * i <= |bytes|
      invariant forall j :: 0 <= j < i ==> weights[j] == EntryWeight(bytes, EntryStart(childSt, j))
      invariant forall j :: 0 <= j < i ==> ids[j] == EntryId(bytes, EntryStart(childSt, j))
    {
      var start := EntryStart(childSt, i);
      if start + 8 > |bytes| {
        assert childSt + 8 * params.mK > |bytes|;
        return Err(ChildEntryOutOfBounds);
      }
      var id := LeNat(bytes[start..start + 4]);
      var w := EntryWeight(bytes, start);
      var leaf := id >= LeafFlag;
      if leaf {
        ids := ids + [FbowLeaf(id % LeafFlag)];
      } else {
        ids := ids + [FbowLeaf(id % LeafFlag)];
      }
      weights := weights + [w];
    }
    if |bytes| < 8 {
      return Err(ShortBlockRecord);
    }
    assert weights == seq(params.mK, i requires 0 <= i < params.mK => EntryWeight(bytes, EntryStart(childSt, i)));
    assert ids == seq(params.mK, i requires 0 <= i < params.mK => EntryId(bytes, EntryStart(childSt, i)));
    r := Ok(FbowBlock(FbowBlockId(LeNat(bytes[4..8])), FbowChildren(features, weights, [], ids)));
  }

  /** One child entry: the id word (the word id, with the leaf flag when
      `flag`) and the weight, each four little-endian bytes. */
  function EncodeEntry(id: FbowNodeId, weight: nat, flag: bool): (s: seq<byte>)
    requires id.FbowLeaf? && id.word < LeafFlag && weight < U32
    ensures |s| == 8
  {
    Pow256Widths();
    EncodeLe(id.word + (if flag then LeafFlag else 0), 4) + EncodeLe(weight, 4)
  }

  /** Reading an entry gives back its leaf id and its weight, whatever the
      flag. */
  lemma EntryRoundTrip(bytes: seq<byte>, start: nat, id: FbowNodeId, weight: nat, flag: bool)
    requires id.FbowLeaf? && id.word < LeafFlag && weight < U32
    requires start + 8 <= |bytes| && bytes[start..start + 8] == EncodeEntry(id, weight, flag)
    ensures EntryId(bytes, start) == id && EntryWeight(bytes, start) == weight
  {
    Pow256Widths();
    var v := id.word + (if flag then LeafFlag else 0);
    EntryHalves(bytes, start, EncodeLe(v, 4), EncodeLe(weight, 4));
    LeRoundTrip(v, 4);
    LeRoundTrip(weight, 4);
    MaskFlag(id.word, flag);
  }

  /** Masking off the flag bit gives back the word id. */
  lemma MaskFlag(word: nat, flag: bool)
    requires word < LeafFlag
    ensures (word + (if flag then LeafFlag else 0)) % LeafFlag == word
  {
  }

  /** The two four-byte halves of an eight-byte entry. */
  lemma EntryHalves(bytes: seq<byte>, start: nat, a: seq<byte>, b: seq<byte>)
    requires |a| == 4 && |b| == 4
    requires start + 8 <= |bytes| && bytes[start..start + 8] == a + b
    ensures bytes[start..start + 4] == a && bytes[start + 4..start + 8] == b
  {
    SliceOfRegion(bytes, start, start + 8, 0, 4);
    SliceOfRegion(bytes, start, start + 8, 4, 8);
    assert (a + b)[0..4] == a && (a + b)[4..8] == b;
  }

  predicate EntriesStorable(ids: seq<FbowNodeId>, weights: seq<nat>)
  {
    |weights| == |ids| && forall i :: 0 <= i < |ids| ==> ids[i].FbowLeaf? && ids[i].word < LeafFlag && weights[i] < U32
  }

  /** The child entries of `ids` and `weights`, in order. */
  function EncodeEntries(ids: seq<FbowNodeId>, weights: seq<nat>, flag: bool): (s: seq<byte>)
    requires EntriesStorable(ids, weights)
    ensures |s| == 8 * |ids|
  {
    if |ids| == 0 then []
    else (EncodeEntry(ids[0], weights[0], flag) + EncodeEntries(ids[1..], weights[1..], flag))
  }

  lemma {:induction false} EncodeEntriesAt(ids: seq<FbowNodeId>, weights: seq<nat>, flag: bool, i: nat)
    requires EntriesStorable(ids, weights) && i < |ids|
    ensures EncodeEntries(ids, weights, flag)[8 * i..8 * i + 8] == EncodeEntry(ids[i], weights[i], flag)
    decreases i
  {
    var s := EncodeEntries(ids, weights, flag);
    var rest := EncodeEntries(ids[1..], weights[1..], flag);
    assert s == EncodeEntry(ids[0], weights[0], flag) + rest;
    if i > 0 {
      EncodeEntriesAt(ids[1..], weights[1..], flag, i - 1);
      var a := 8 * (i - 1);
      assert 8 * i == 8 + a;
      assert s[8 + a..8 + a + 8] == rest[a..a + 8];
    }
  }

  lemma SliceOfRegion(s: seq<byte>, a: nat, b: nat, x: nat, y: nat)
    requires a <= b <= |s| && x <= y && a + y <= b
    ensures s[a..b][x..y] == s[a + x..a + y]
  {
    forall i | 0 <= i < y - x
      ensures s[a..b][x..y][i] == s[a + x..a + y][i]
    {
      assert s[a..b][x..y][i] == s[a..b][x + i] == s[a + x + i];
    }
  }

  /** Entries written at `child` read back as the same ids and weights,
      whatever bytes follow them. */
  lemma EntriesRoundTrip(bytes: seq<byte>, child: nat, ids: seq<FbowNodeId>, weights: seq<nat>, flag: bool)
    requires EntriesStorable(ids, weights)
    requires child + 8 * |ids| <= |bytes| && bytes[child..child + 8 * |ids|] == EncodeEntries(ids, weights, flag)
    ensures forall i :: 0 <= i < |ids| ==>
      EntryStart(child, i) + 8 <= |bytes| && EntryId(bytes, EntryStart(child, i)) == ids[i] && EntryWeight(bytes, EntryStart(child, i)) == weights[i]
  {
    forall i | 0 <= i < |ids|
      ensures EntryStart(child, i) + 8 <= |bytes| && EntryId(bytes, EntryStart(child, i)) == ids[i] && EntryWeight(bytes, EntryStart(child, i)) == weights[i]
    {
      EntryAt(bytes, child, ids, weights, flag, i);
    }
  }

  /** Entry `i` of entries written at `child` reads back. */
  lemma EntryAt(bytes: seq<byte>, child: nat, ids: seq<FbowNodeId>, weights: seq<nat>, flag: bool, i: nat)
    requires EntriesStorable(ids, weights) && i < |ids|
    requires child + 8 * |ids| <= |bytes| && bytes[child..child + 8 * |ids|] == EncodeEntries(ids, weights, flag)
    ensures EntryStart(child, i) + 8 <= |bytes|
    ensures EntryId(bytes, EntryStart(child, i)) == ids[i] && EntryWeight(bytes, EntryStart(child, i)) == weights[i]
  {
    var start := EntryStart(child, i);
    EncodeEntriesAt(ids, weights, flag, i);
    SliceOfRegion(bytes, child, child + 8 * |ids|, 8 * i, 8 * i + 8);
    assert bytes[start..start + 8] == EncodeEntry(ids[i], weights[i], flag);
    EntryRoundTrip(bytes, start, ids[i], weights[i], flag);
  }

  /** A block the fbow writer can store: a 32-bit block id, one weight per
      child, 31-bit leaf word ids and 32-bit weights. */
  predicate Storable(b: FbowBlock)
  {
    && b.id.FbowBlockId? && b.id.bid < U32
    && b.children.clusterSize == []
    && EntriesStorable(b.children.ids, b.children.weights)
  }

  /** The bytes before the centroids: four unread bytes, the block id at
      4..8, then zero padding up to `featureOff`. */
  function EncodeBlockHead(bid: nat, featureOff: nat): (s: seq<byte>)
    requires bid < U32 && featureOff >= 8
    ensures |s| == featureOff
  {
    Pow256Widths();
    Zeros(4) + EncodeLe(bid, 4) + Zeros(featureOff - 8)
  }

  /** A block record holding `b`, its centroids starting at `featureOff`
      (at least 8, past the id at 4..8), the leaf flag of every child entry
      set to `flag`, and `padding` after the entries up to the padded block
      size. */
  function EncodeBlock(b: FbowBlock, featureOff: nat, flag: bool, padding: seq<byte>): (bytes: seq<byte>)
    requires Storable(b) && featureOff >= 8
  {
    EncodeBlockHead(b.id.bid, featureOff) + Flatten(b.children.features)
      + EncodeEntries(b.children.ids, b.children.weights, flag) + padding
  }

  /** The header fields a block record of `b` laid out by `EncodeBlock`
      needs, the other fields taken from `base`. */
  function BlockLayout(b: FbowBlock, featureOff: nat, base: FbowParams): (p: FbowParams)
    ensures p.featureOffStart == featureOff
    ensures p.childOffStart == featureOff + DescBytes * |b.children.features|
    ensures p.mK == |b.children.ids|
  {
    base.(featureOffStart := featureOff,
          childOffStart := featureOff + DescBytes * |b.children.features|,
          mK := |b.children.ids|)
  }

  /** Where the parts of a written record sit. */
  lemma EncodeBlockParts(b: FbowBlock, featureOff: nat, flag: bool, padding: seq<byte>)
    requires Storable(b) && featureOff >= 8
    ensures var bytes := EncodeBlock(b, featureOff, flag, padding);
            var child := featureOff + DescBytes * |b.children.features|;
            var end := child + 8 * |b.children.ids|;
            && |bytes| == end + |padding|
            && LeNat(bytes[4..8]) == b.id.bid
            && bytes[featureOff..child] == Flatten(b.children.features)
            && bytes[child..end] == EncodeEntries(b.children.ids, b.children.weights, flag)
            && bytes[end..] == padding
  {
    Pow256Widths();
    var head := EncodeBlockHead(b.id.bid, featureOff);
    var feats := Flatten(b.children.features);
    var entries := EncodeEntries(b.children.ids, b.children.weights, flag);
    var bytes := EncodeBlock(b, featureOff, flag, padding);
    var child := featureOff + DescBytes * |b.children.features|;
    var end := child + 8 * |b.children.ids|;
    assert bytes == head + feats + entries + padding;
    assert |head| == featureOff && |feats| == child - featureOff && |entries| == end - child;
    assert bytes[4..8] == head[4..8] == EncodeLe(b.id.bid, 4);
    assert bytes[featureOff..child] == feats;
    assert bytes[child..end] == entries;
    assert bytes[end..] == padding;
    LeRoundTrip(b.id.bid, 4);
  }

  /** A record laid out as `EncodeBlock` lays it out decodes to the block,
      whatever padding follows the child entries. */
  lemma DecodeLaidOut(bytes: seq<byte>, p: FbowParams, b: FbowBlock, flag: bool)
    requires Storable(b) && p.featureOffStart >= 8
    requires p.childOffStart == p.featureOffStart + DescBytes * |b.children.features|
    requires p.mK == |b.children.ids|
    requires |bytes| >= p.childOffStart + 8 * p.mK
    requires LeNat(bytes[4..8]) == b.id.bid
    requires bytes[p.featureOffStart..p.childOffStart] == Flatten(b.children.features)
    requires bytes[p.childOffStart..p.childOffStart + 8 * p.mK] == EncodeEntries(b.children.ids, b.children.weights, flag)
    ensures DecodeBlock(bytes, p) == Ok(b)
  {
    var c := b.children;
    ChunksFlatten(c.features);
    EntriesRoundTrip(bytes, p.childOffStart, c.ids, c.weights, flag);
    var child := p.childOffStart;
    assert seq(p.mK, i requires 0 <= i < p.mK => EntryId(bytes, EntryStart(child, i))) == c.ids;
    assert seq(p.mK, i requires 0 <= i < p.mK => EntryWeight(bytes, EntryStart(child, i))) == c.weights;
  }

  /** Reading a written block record, padded to any length, gives back the
      block, whichever value the leaf flags were written with. */
  lemma BlockRoundTrip(b: FbowBlock, featureOff: nat, flag: bool, padding: seq<byte>, base: FbowParams)
    requires Storable(b) && featureOff >= 8
    ensures DecodeBlock(EncodeBlock(b, featureOff, flag, padding), BlockLayout(b, featureOff, base)) == Ok(b)
  {
    EncodeBlockParts(b, featureOff, flag, padding);
    DecodeLaidOut(EncodeBlock(b, featureOff, flag, padding), BlockLayout(b, featureOff, base), b, flag);
  }

  /** As written, the leaf flag is read and then ignored: a record whose
      entries say "block child" decodes to the same leaves as one whose
      entries say "leaf". */
  lemma LeafFlagIgnored(b: FbowBlock, featureOff: nat, padding: seq<byte>, base: FbowParams)
    requires Storable(b) && featureOff >= 8
    ensures var p := BlockLayout(b, featureOff, base);
            DecodeBlock(EncodeBlock(b, featureOff, true, padding), p)
              == DecodeBlock(EncodeBlock(b, featureOff, false, padding), p)
  {
    BlockRoundTrip(b, featureOff, true, padding, base);
    BlockRoundTrip(b, featureOff, false, padding, base);
  }

  // ---------------------------------------------------------------------
  // The file (`Vocabulary::load_voc`)
  // ---------------------------------------------------------------------

  /** The vocabulary `load_voc` builds: the decoded blocks in file order,
      the branching factor `m_k`, and the level count and both id counters
      at 0. */
  datatype FbowVocabulary = FbowVocabulary(blocks: seq<FbowBlock>, k: nat, l: nat, nextBlockId: nat, nextLeafId: nat)

  /** Where block record `i` starts and ends in the payload. */
  function BlockStart(p: FbowParams, i: nat): nat
  {
    i * p.blockSizeBytesWp
  }

  function BlockEnd(p: FbowParams, i: nat): (end: nat)
    ensures BlockStart(p, i) <= end
  {
    BlockStart(p, i) + p.blockSizeBytesWp
  }

  /** Block record `i` of the payload. */
  function BlockSlice(data: seq<byte>, p: FbowParams, i: nat): seq<byte>
    requires BlockEnd(p, i) <= |data|
  {
    data[BlockStart(p, i)..BlockEnd(p, i)]
  }

  /** Record `i` lies inside the payload and decodes. */
  predicate BlockLoads(data: seq<byte>, p: FbowParams, i: nat)
  {
    BlockEnd(p, i) <= |data| && DecodeBlock(BlockSlice(data, p, i), p).Ok?
  }

  /** The first `n` blocks of the payload, in order, or the failure of the
      first one that does not decode. */
  function DecodeBlocks(data: seq<byte>, p: FbowParams, n: nat): (r: Result<seq<FbowBlock>>)
    ensures r.Ok? <==> forall i :: 0 <= i < n ==> BlockLoads(data, p, i)
    ensures r.Ok? ==> |r.value| == n
    ensures r.Ok? ==> forall i :: 0 <= i < n ==>
      BlockLoads(data, p, i) && Ok(r.value[i]) == DecodeBlock(BlockSlice(data, p, i), p)
    decreases n
  {
    if n == 0 then Ok([])
    else match DecodeBlocks(data, p, n - 1)
      case Err(e) => Err(e)
      case Ok(bs) =>
        if BlockEnd(p, n - 1) > |data| then assert !BlockLoads(data, p, n - 1); Err(BlockOutOfRange)
        else match DecodeBlock(BlockSlice(data, p, n - 1), p)
          case Err(e) => assert !BlockLoads(data, p, n - 1); Err(e)
          case Ok(b) => Ok(bs + [b])
  }

  /** Once a block fails, decoding more blocks fails the same way. */
  lemma {:induction false} DecodeBlocksFailureSticks(data: seq<byte>, p: FbowParams, i: nat, n: nat)
    requires i <= n && DecodeBlocks(data, p, i).Err?
    ensures DecodeBlocks(data, p, n) == DecodeBlocks(data, p, i)
    decreases n - i
  {
    if i < n {
      DecodeBlocksFailureSticks(data, p, i, n - 1);
    }
  }

  /** The parameter bytes: the (at most) 120 bytes after the signature. */
  function ParamBytes(file: seq<byte>): seq<byte>
  {
    file[Min(SignatureBytes, |file|)..Min(SignatureBytes + HeaderBytes, |file|)]
  }

  /** The payload: everything after signature and header. */
  function Payload(file: seq<byte>): seq<byte>
  {
    file[Min(SignatureBytes + HeaderBytes, |file|)..]
  }

  /** What `load_voc` gives for a file: the header must parse, declare
      32-byte descriptors and match the payload's length, and every one of
      the `nblocks` records must lie in the payload and decode. */
  function DecodeVoc(file: seq<byte>): (r: Result<FbowVocabulary>)
    ensures |file| < SignatureBytes + HeaderFieldsEnd ==> r == Err(ShortHeader)
  {
    match LoadParams(ParamBytes(file))
    case Err(e) => Err(e)
    case Ok(p) =>
      if p.descSizeBytesWp != DescBytes then Err(DescSizeMismatch)
      else if p.totalSize != |Payload(file)| then Err(PayloadSizeMismatch)
      else match DecodeBlocks(Payload(file), p, p.nblocks)
        case Err(e) => Err(e)
        case Ok(bs) => Ok(FbowVocabulary(bs, p.mK, 0, 0, 0))
  }

  /** A file loads exactly when its header parses, declares 32-byte
      descriptors and the payload's exact length, and all `nblocks` records
      lie in the payload and decode. */
  lemma VocLoadsIff(file: seq<byte>)
    ensures DecodeVoc(file).Ok? <==>
      && LoadParams(ParamBytes(file)).Ok?
      && LoadParams(ParamBytes(file)).value.descSizeBytesWp == DescBytes
      && LoadParams(ParamBytes(file)).value.totalSize == |Payload(file)|
      && forall i :: 0 <= i < LoadParams(ParamBytes(file)).value.nblocks ==>
           BlockLoads(Payload(file), LoadParams(ParamBytes(file)).value, i)
  {
    var r := LoadParams(ParamBytes(file));
    if r.Ok? && r.value.descSizeBytesWp == DescBytes && r.value.totalSize == |Payload(file)| {
      var blocks := DecodeBlocks(Payload(file), r.value, r.value.nblocks);
      assert DecodeVoc(file).Ok? <==> blocks.Ok?;
    }
  }

  /** A loaded vocabulary holds the `nblocks` decoded records in file
      order, `k = m_k`, and zero level count and counters. */
  lemma VocContents(file: seq<byte>)
    requires DecodeVoc(file).Ok?
    ensures LoadParams(ParamBytes(file)).Ok?
    ensures var p := LoadParams(ParamBytes(file)).value;
            var v := DecodeVoc(file).value;
            && |v.blocks| == p.nblocks
            && (forall i :: 0 <= i < p.nblocks ==>
                  BlockLoads(Payload(file), p, i) && Ok(v.blocks[i]) == DecodeBlock(BlockSlice(Payload(file), p, i), p))
            && v.k == p.mK && v.l == 0 && v.nextBlockId == 0 && v.nextLeafId == 0
  {
    var p := LoadParams(ParamBytes(file)).value;
    var blocks := DecodeBlocks(Payload(file), p, p.nblocks);
    assert blocks.Ok? && DecodeVoc(file).value.blocks == blocks.value;
  }

  /** `load_voc` on the file's bytes: read the parameter header, check the
      descriptor size and the payload length, then decode the `nblocks`
      records in order. */
  method LoadVoc(file: seq<byte>) returns (r: Result<FbowVocabulary>)
    ensures r == DecodeVoc(file)
  {
    var paramBytes := file[Min(SignatureBytes, |file|)..Min(SignatureBytes + HeaderBytes, |file|)];
    assert paramBytes == ParamBytes(file);
    var loaded := LoadParams(paramBytes);
    if loaded.Err? {
      return Err(loaded.error);
    }
    var params := loaded.value;
    if params.descSizeBytesWp != DescBytes {
      return Err(DescSizeMismatch);
    }
    var data := file[Min(SignatureBytes + HeaderBytes, |file|)..];
    assert data == Payload(file);
    if params.totalSize != |data| {
      return Err(PayloadSizeMismatch);
    }
    var blocks: seq<FbowBlock> := [];
    for i := 0 to params.nblocks
      invariant DecodeBlocks(data, params, i) == Ok(blocks)
    {
      var start := BlockStart(params, i);
      var end := BlockEnd(params, i);
      if end > |data| {
        DecodeBlocksFailureSticks(data, params, i + 1, params.nblocks);
        return Err(BlockOutOfRange);
      }
      var b := LoadBlock(data[start..end], params);
      assert data[start..end] == BlockSlice(data, params, i);
      if b.Err? {
        DecodeBlocksFailureSticks(data, params, i + 1, params.nblocks);
        return Err(b.error);
      }
      blocks := blocks + [b.value];
    }
    r := Ok(FbowVocabulary(blocks, params.mK, 0, 0, 0));
  }
}
