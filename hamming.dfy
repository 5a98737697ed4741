/**
 * Hamming distance between two perceptual hashes, as `hamming_distance` in
 * src-tauri/src/commands/analysis.rs computes it: the hashes are walked
 * byte by byte in pairs (so the walk stops at the end of the shorter one) and
 * for each pair the set bits of `x ^ y` are counted, that is, the bit positions
 * where `x` and `y` differ.
 */
module Hamming {

  newtype byte = x: int | 0 <= x < 256

  /** A perceptual hash as the image hasher returns it: a sequence of bytes. */
  type Hash = seq<byte>

  function Pow2(k: nat): (r: nat)
    ensures r >= 1
  {
    if k == 0 then 1 else 2 * Pow2(k - 1)
  }

  /** The number of positions among the `k` lowest bits where `x` and `y`
      differ: the number of set bits in the low `k` bits of `x ^ y`. */
  function DifferingBits(x: nat, y: nat, k: nat): (r: nat)
    ensures r <= k
  {
    if k == 0 then 0
    else (if x % 2 == y % 2 then 0 else 1) + DifferingBits(x / 2, y / 2, k - 1)
  }

  /** `(x ^ y).count_ones()` for two bytes. */
  function ByteDistance(x: byte, y: byte): (r: nat)
    ensures r <= 8
  {
    DifferingBits(x as nat, y as nat, 8)
  }

  /** The number of differing bits over the common prefix of `a` and `b`. */
  function HammingDistance(a: Hash, b: Hash): (d: nat)
    ensures d <= 8 * |a| && d <= 8 * |b|
  {
    if a == [] || b == [] then 0 else ByteDistance(a[0], b[0]) + HammingDistance(a[1..], b[1..])
  }

  /** Over numbers below `2^k`, no differing bit means equal numbers. */
  lemma {:induction false} DifferingBitsZero(x: nat, y: nat, k: nat)
    requires x < Pow2(k) && y < Pow2(k)
    ensures DifferingBits(x, y, k) == 0 <==> x == y
  {
    if k > 0 {
      DifferingBitsZero(x / 2, y / 2, k - 1);
    }
  }

  /** The differing bits of `x` and `z` are among those of `x, y` or of `y, z`. */
  lemma {:induction false} DifferingBitsTriangle(x: nat, y: nat, z: nat, k: nat)
    ensures DifferingBits(x, z, k) <= DifferingBits(x, y, k) + DifferingBits(y, z, k)
  {
    if k > 0 {
      DifferingBitsTriangle(x / 2, y / 2, z / 2, k - 1);
    }
  }

  /** The per-byte distance does not depend on argument order. */
  lemma {:induction false} DifferingBitsSymmetric(x: nat, y: nat, k: nat)
    ensures DifferingBits(x, y, k) == DifferingBits(y, x, k)
  {
    if k > 0 {
      DifferingBitsSymmetric(x / 2, y / 2, k - 1);
    }
  }

  /** Two bytes are at distance zero exactly when they are equal. */
  lemma ByteDistanceZero(x: byte, y: byte)
    ensures ByteDistance(x, y) == 0 <==> x == y
  {
    assert Pow2(8) == 256;
    DifferingBitsZero(x as nat, y as nat, 8);
  }

  /** A hash is at distance zero from itself. */
  lemma {:induction false} HammingSelf(a: Hash)
    ensures HammingDistance(a, a) == 0
  {
    if a != [] {
      ByteDistanceZero(a[0], a[0]);
      HammingSelf(a[1..]);
    }
  }

  /** The distance does not depend on the order of its arguments. */
  lemma {:induction false} HammingSymmetric(a: Hash, b: Hash)
    ensures HammingDistance(a, b) == HammingDistance(b, a)
  {
    if a != [] && b != [] {
      DifferingBitsSymmetric(a[0] as nat, b[0] as nat, 8);
      HammingSymmetric(a[1..], b[1..]);
    }
  }

  /** Bytes past the end of the shorter hash are never looked at. */
  lemma {:induction false} HammingCommonPrefix(a: Hash, b: Hash)
    ensures var m := if |a| <= |b| then |a| else |b|;
      HammingDistance(a, b) == HammingDistance(a[..m], b[..m])
  {
    var m := if |a| <= |b| then |a| else |b|;
    if a != [] && b != [] {
      HammingCommonPrefix(a[1..], b[1..]);
      assert a[..m][1..] == a[1..][..m - 1];
      assert b[..m][1..] == b[1..][..m - 1];
    }
  }

  /** A hash is at distance zero from each of its prefixes, so without equal
      lengths distance zero does not mean equal hashes. */
  lemma {:induction false} HammingPrefixZero(a: Hash, k: nat)
    requires k <= |a|
    ensures HammingDistance(a[..k], a) == 0
  {
    HammingCommonPrefix(a[..k], a);
    assert a[..k][..k] == a[..k];
    HammingSelf(a[..k]);
  }

  /** For hashes of one length, distance zero means the hashes are equal. */
  lemma {:induction false} HammingZeroIffEqual(a: Hash, b: Hash)
    requires |a| == |b|
    ensures HammingDistance(a, b) == 0 <==> a == b
  {
    if a == b {
      HammingSelf(a);
    } else if a != [] {
      HammingZeroIffEqual(a[1..], b[1..]);
      ByteDistanceZero(a[0], b[0]);
      if a[0] == b[0] {
        assert a == [a[0]] + a[1..] && b == [b[0]] + b[1..];
      }
    }
  }

  /** The triangle inequality, for hashes of one length. */
  lemma {:induction false} HammingTriangle(a: Hash, b: Hash, c: Hash)
    requires |a| == |b| == |c|
    ensures HammingDistance(a, c) <= HammingDistance(a, b) + HammingDistance(b, c)
  {
    if a != [] {
      DifferingBitsTriangle(a[0] as nat, b[0] as nat, c[0] as nat, 8);
      HammingTriangle(a[1..], b[1..], c[1..]);
    }
  }
}
