/** Descriptors and the Hamming distance between them (src/lib.rs).

    A descriptor is a 256-bit binary code stored as 32 bytes. The crate's
    `hamming` folds the popcount of the XOR of zipped bytes into a `u8`
    accumulator; `BitDistance` is the exact count it is meant to compute and
    `Hamming` is what the fold returns, wrapping modulo 256 as an unchecked
    `u8` addition does. */
module Lib {

  type byte = bv8

  /** Width of a descriptor in bytes (`Desc = [u8; 32]`). */
  const DescBytes: nat := 32
  /** Width of a descriptor in bits. */
  const DescBits: nat := 256

  function Zeros(n: nat): (z: seq<byte>)
    ensures |z| == n
    ensures forall i :: 0 <= i < n ==> z[i] == 0
  {
    seq(n, _ => 0)
  }

  /** A fixed-width binary feature descriptor. */
  type Desc = d: seq<byte> | |d| == DescBytes witness Zeros(DescBytes)

  /** Number of one bits in a byte (`count_ones`). */
  function PopCount(b: byte): (r: nat)
    ensures r <= 8
    ensures r == 0 <==> b == 0
  {
    (if b & 0x01 != 0 then 1 else 0) + (if b & 0x02 != 0 then 1 else 0) +
    (if b & 0x04 != 0 then 1 else 0) + (if b & 0x08 != 0 then 1 else 0) +
    (if b & 0x10 != 0 then 1 else 0) + (if b & 0x20 != 0 then 1 else 0) +
    (if b & 0x40 != 0 then 1 else 0) + (if b & 0x80 != 0 then 1 else 0)
  }

  function Min(a: nat, b: nat): nat { if a <= b then a else b }

  /** The exact number of differing bits over the zipped bytes of `x` and `y`:
      the sum over i < min(|x|, |y|) of popcount(x[i] xor y[i]). */
  function BitDistance(x: seq<byte>, y: seq<byte>): nat
  {
    if |x| == 0 || |y| == 0 then 0
    else PopCount(x[0] ^ y[0]) + BitDistance(x[1..], y[1..])
  }

  /** The fold of `hamming`, with the `u8` accumulator `acc`. */
  function HammingFold(x: seq<byte>, y: seq<byte>, acc: nat): nat
  {
    if |x| == 0 || |y| == 0 then acc
    else HammingFold(x[1..], y[1..], (acc + PopCount(x[0] ^ y[0])) % 256)
  }

  /** `hamming(x, y)`: the fold started from 0. Its value always fits a `u8`
      and is the exact distance reduced modulo 256. */
  function Hamming(x: seq<byte>, y: seq<byte>): (r: nat)
    ensures r < 256
    ensures r == BitDistance(x, y) % 256
  {
    HammingFoldIsDistance(x, y, 0);
    HammingFold(x, y, 0)
  }

  lemma {:induction false} HammingFoldIsDistance(x: seq<byte>, y: seq<byte>, acc: nat)
    requires acc < 256
    ensures HammingFold(x, y, acc) == (acc + BitDistance(x, y)) % 256
    decreases |x|
  {
    if |x| != 0 && |y| != 0 {
      var acc' := (acc + PopCount(x[0] ^ y[0])) % 256;
      HammingFoldIsDistance(x[1..], y[1..], acc');
      ModAddLeft(acc + PopCount(x[0] ^ y[0]), BitDistance(x[1..], y[1..]));
    }
  }

  lemma ModAddLeft(a: nat, b: nat)
    ensures (a % 256 + b) % 256 == (a + b) % 256
  {
  }

  /** A descriptor is at distance 0 from itself. */
  lemma {:induction false} BitDistanceSelf(x: seq<byte>)
    ensures BitDistance(x, x) == 0
    decreases |x|
  {
    if |x| != 0 {
      BitDistanceSelf(x[1..]);
    }
  }

  lemma HammingSelf(x: seq<byte>)
    ensures Hamming(x, x) == 0
  {
    BitDistanceSelf(x);
  }

  /** The distance does not depend on the order of the arguments. */
  lemma {:induction false} BitDistanceSymmetric(x: seq<byte>, y: seq<byte>)
    ensures BitDistance(x, y) == BitDistance(y, x)
    decreases |x|
  {
    if |x| != 0 && |y| != 0 {
      assert x[0] ^ y[0] == y[0] ^ x[0];
      BitDistanceSymmetric(x[1..], y[1..]);
    }
  }

  lemma HammingSymmetric(x: seq<byte>, y: seq<byte>)
    ensures Hamming(x, y) == Hamming(y, x)
  {
    BitDistanceSymmetric(x, y);
  }

  /** Because of `zip`, only the first min(|x|, |y|) bytes are compared. */
  lemma {:induction false} BitDistanceTruncates(x: seq<byte>, y: seq<byte>)
    ensures BitDistance(x, y) == BitDistance(x[..Min(|x|, |y|)], y[..Min(|x|, |y|)])
    decreases |x|
  {
    if |x| != 0 && |y| != 0 {
      var m := Min(|x|, |y|);
      BitDistanceTruncates(x[1..], y[1..]);
      assert x[..m][1..] == x[1..][..m - 1];
      assert y[..m][1..] == y[1..][..m - 1];
    }
  }

  lemma HammingTruncates(x: seq<byte>, y: seq<byte>)
    ensures Hamming(x, y) == Hamming(x[..Min(|x|, |y|)], y[..Min(|x|, |y|)])
  {
    BitDistanceTruncates(x, y);
  }

  /** Over equal-length prefixes the distance adds up. */
  lemma {:induction false} BitDistanceAppend(a: seq<byte>, b: seq<byte>, c: seq<byte>, d: seq<byte>)
    requires |a| == |b|
    ensures BitDistance(a + c, b + d) == BitDistance(a, b) + BitDistance(c, d)
    decreases |a|
  {
    if |a| != 0 {
      assert (a + c)[1..] == a[1..] + c;
      assert (b + d)[1..] == b[1..] + d;
      BitDistanceAppend(a[1..], b[1..], c, d);
    } else {
      assert a + c == c;
      assert b + d == d;
    }
  }

  /** Each compared byte contributes at most 8 bits. */
  lemma {:induction false} BitDistanceBound(x: seq<byte>, y: seq<byte>)
    ensures BitDistance(x, y) <= 8 * Min(|x|, |y|)
    decreases |x|
  {
    if |x| != 0 && |y| != 0 {
      BitDistanceBound(x[1..], y[1..]);
    }
  }

  /** Distance 0 exactly when the compared prefixes are equal. */
  lemma {:induction false} BitDistanceZeroIff(x: seq<byte>, y: seq<byte>)
    ensures BitDistance(x, y) == 0 <==> x[..Min(|x|, |y|)] == y[..Min(|x|, |y|)]
    decreases |x|
  {
    if |x| != 0 && |y| != 0 {
      var m := Min(|x|, |y|);
      BitDistanceZeroIff(x[1..], y[1..]);
      assert x[..m] == [x[0]] + x[1..][..m - 1];
      assert y[..m] == [y[0]] + y[1..][..m - 1];
      assert x[0] ^ y[0] == 0 <==> x[0] == y[0];
    }
  }

  /** While at most 255 bits differ, the `u8` accumulator never wraps and
      `hamming` is the exact distance. */
  lemma HammingExact(x: seq<byte>, y: seq<byte>)
    requires BitDistance(x, y) <= 255
    ensures Hamming(x, y) == BitDistance(x, y)
  {
  }

  /** Bitwise complement of a byte string. */
  function Complement(x: seq<byte>): (c: seq<byte>)
    ensures |c| == |x|
    ensures forall i :: 0 <= i < |x| ==> c[i] == !x[i]
  {
    seq(|x|, i requires 0 <= i < |x| => !x[i])
  }

  /** A descriptor and its complement differ in all 256 bits, so the `u8`
      accumulator wraps and `hamming` reports distance 0 for the farthest
      possible pair. */
  lemma HammingComplementWraps(x: Desc)
    ensures BitDistance(x, Complement(x)) == DescBits
    ensures Hamming(x, Complement(x)) == 0
  {
    ComplementDistance(x);
  }

  lemma {:induction false} ComplementDistance(x: seq<byte>)
    ensures BitDistance(x, Complement(x)) == 8 * |x|
    decreases |x|
  {
    if |x| != 0 {
      assert Complement(x)[1..] == Complement(x[1..]);
      assert x[0] ^ !x[0] == 0xFF;
      ComplementDistance(x[1..]);
    }
  }
}
