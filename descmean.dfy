/** The "mean" of a set of binary descriptors (src/vocab.rs, `desc_mean`):
    a per-bit majority vote. Bits are numbered most significant first within
    each byte, as the `Msb0` bit view does. */
module Means {
  import opened Lib

  /** Mask selecting bit `m` (0 = most significant) of a byte. */
  function Mask(m: nat): byte
    requires m < 8
  {
    0x80 >> m
  }

  /** Bit `i` of a descriptor, most significant bit of byte 0 first. */
  predicate BitAt(d: Desc, i: nat)
    requires i < DescBits
  {
    d[i / 8] & Mask(i % 8) != 0
  }

  /** Number of descriptors in `ds` whose bit `i` is set. */
  function CountSet(ds: seq<Desc>, i: nat): (c: nat)
    requires i < DescBits
    ensures c <= |ds|
  {
    if |ds| == 0 then 0
    else CountSet(ds[..|ds| - 1], i) + (if BitAt(ds[|ds| - 1], i) then 1 else 0)
  }

  /** `r` is the per-bit majority of `ds`: a bit is set exactly when more
      than half (rounded down) of the descriptors set it, so a tie resolves
      to 0. */
  ghost predicate IsMajority(r: Desc, ds: seq<Desc>)
  {
    forall i :: 0 <= i < DescBits ==> (BitAt(r, i) <==> CountSet(ds, i) > |ds| / 2)
  }

  lemma {:induction false} SetBitSpec(b: byte, m: nat, j: nat)
    requires m < 8 && j < 8
    ensures (b | Mask(m)) & Mask(j) != 0 <==> (j == m || b & Mask(j) != 0)
  {
    match j
    case 0 => {} case 1 => {} case 2 => {} case 3 => {}
    case 4 => {} case 5 => {} case 6 => {} case 7 => {}
  }

  /** A byte is determined by its eight bits. */
  lemma ByteBitsDetermine(a: byte, b: byte)
    requires forall m :: 0 <= m < 8 ==> (a & Mask(m) != 0 <==> b & Mask(m) != 0)
    ensures a == b
  {
    assert a & Mask(0) != 0 <==> b & Mask(0) != 0;
    assert a & Mask(1) != 0 <==> b & Mask(1) != 0;
    assert a & Mask(2) != 0 <==> b & Mask(2) != 0;
    assert a & Mask(3) != 0 <==> b & Mask(3) != 0;
    assert a & Mask(4) != 0 <==> b & Mask(4) != 0;
    assert a & Mask(5) != 0 <==> b & Mask(5) != 0;
    assert a & Mask(6) != 0 <==> b & Mask(6) != 0;
    assert a & Mask(7) != 0 <==> b & Mask(7) != 0;
  }

  /** A descriptor is determined by its 256 bits. */
  lemma BitsDetermine(x: Desc, y: Desc)
    requires forall i :: 0 <= i < DescBits ==> (BitAt(x, i) <==> BitAt(y, i))
    ensures x == y
  {
    forall q | 0 <= q < DescBytes
      ensures x[q] == y[q]
    {
      forall m | 0 <= m < 8
        ensures x[q] & Mask(m) != 0 <==> y[q] & Mask(m) != 0
      {
        var i := 8 * q + m;
        assert i / 8 == q && i % 8 == m;
        assert BitAt(x, i) <==> BitAt(y, i);
      }
      ByteBitsDetermine(x[q], y[q]);
    }
  }

  /** The majority of a collection is unique. */
  lemma MajorityUnique(r1: Desc, r2: Desc, ds: seq<Desc>)
    requires IsMajority(r1, ds) && IsMajority(r2, ds)
    ensures r1 == r2
  {
    BitsDetermine(r1, r2);
  }

  /** The mean of no descriptors is the all-zero descriptor. */
  lemma MajorityOfNone(r: Desc)
    requires IsMajority(r, [])
    ensures r == Zeros(DescBytes)
  {
    var z: Desc := Zeros(DescBytes);
    forall i | 0 <= i < DescBits
      ensures BitAt(r, i) <==> BitAt(z, i)
    {
      assert CountSet([], i) == 0;
    }
    BitsDetermine(r, z);
  }

  /** The mean of a single descriptor is that descriptor. */
  lemma MajorityOfOne(r: Desc, d: Desc)
    requires IsMajority(r, [d])
    ensures r == d
  {
    forall i | 0 <= i < DescBits
      ensures BitAt(r, i) <==> BitAt(d, i)
    {
      assert [d][..0] == [];
    }
    BitsDetermine(r, d);
  }

  /** Bit `i` of a 32-byte buffer under construction. */
  predicate BufferBit(s: seq<byte>, i: nat)
    requires |s| == DescBytes && i < DescBits
  {
    s[i / 8] & Mask(i % 8) != 0
  }

  /** Setting bit `i` of a buffer sets that bit and leaves every other bit. */
  lemma SetBufferBit(s: seq<byte>, i: nat)
    requires |s| == DescBytes && i < DescBits
    ensures forall j :: 0 <= j < DescBits ==>
      (BufferBit(s[i / 8 := s[i / 8] | Mask(i % 8)], j) <==> (j == i || BufferBit(s, j)))
  {
    var s' := s[i / 8 := s[i / 8] | Mask(i % 8)];
    forall j | 0 <= j < DescBits
      ensures BufferBit(s', j) <==> (j == i || BufferBit(s, j))
    {
      if j / 8 == i / 8 {
        SetBitSpec(s[i / 8], i % 8, j % 8);
        assert j % 8 == i % 8 ==> j == i;
      }
    }
  }

  /** `desc_mean`: count, for every bit position, how many descriptors set
      it, then set the result bit when the count exceeds half the number of
      descriptors. */
  method DescMean(descriptors: seq<Desc>) returns (result: Desc)
    ensures IsMajority(result, descriptors)
  {
    var n2 := |descriptors| / 2;
    var counts := seq(DescBits, _ => 0);
    var k := 0;
    while k < |descriptors|
      invariant 0 <= k <= |descriptors| && |counts| == DescBits
      invariant forall i :: 0 <= i < DescBits ==> counts[i] == CountSet(descriptors[..k], i)
    {
      var d := descriptors[k];
      assert descriptors[..k + 1][..k] == descriptors[..k];
      var i := 0;
      while i < DescBits
        invariant 0 <= i <= DescBits && |counts| == DescBits
        invariant forall j :: 0 <= j < i ==> counts[j] == CountSet(descriptors[..k + 1], j)
        invariant forall j :: i <= j < DescBits ==> counts[j] == CountSet(descriptors[..k], j)
      {
        if BitAt(d, i) {
          counts := counts[i := counts[i] + 1];
        }
        i := i + 1;
      }
      k := k + 1;
    }
    assert descriptors[..k] == descriptors;

    var bytes := Zeros(DescBytes);
    var i := 0;
    while i < DescBits
      invariant 0 <= i <= DescBits && |bytes| == DescBytes
      invariant forall j :: 0 <= j < i ==> (BufferBit(bytes, j) <==> counts[j] > n2)
      invariant forall j :: i <= j < DescBits ==> !BufferBit(bytes, j)
    {
      if counts[i] > n2 {
        var updated := bytes[i / 8 := bytes[i / 8] | Mask(i % 8)];
        SetBufferBit(bytes, i);
        forall j | i < j < DescBits
          ensures !BufferBit(updated, j)
        {
          assert !BufferBit(bytes, j);
          assert BufferBit(updated, j) <==> (j == i || BufferBit(bytes, j));
        }
        bytes := updated;
      }
      i := i + 1;
    }
    result := bytes;
  }
}
