/** Hamming distance between two byte strings (src/hamming.rs). */
module Hamming {
  import opened Common

  /** The byte whose low `w` bits are set and whose other bits are clear. */
  function LowMask(w: nat): bv8
    requires w <= 8
  {
    if w == 0 then 0 else (LowMask(w - 1) << 1) | 1
  }

  /** Number of 1-bits among the low `w` bits of `b`, taken one bit at a time. */
  function OnesBelow(b: bv8, w: nat): (r: nat)
    requires w <= 8
    ensures r <= w
    ensures r == 0 <==> b & LowMask(w) == 0
  {
    if w == 0 then 0
    else (if b & 1 == 1 then 1 else 0) + OnesBelow(b >> 1, w - 1)
  }

  /** Rust's `u8::count_ones`: the number of 1-bits of a byte. */
  function CountOnes(b: bv8): (r: nat)
    ensures r <= 8
    ensures r == 0 <==> b == 0
  {
    assert LowMask(8) == 0xFF;
    OnesBelow(b, 8)
  }

  /** `hamming_distance`: the bytes are paired position by position as `zip` does,
      so the pairing stops at the end of the shorter input; each pair contributes
      the number of 1-bits of its exclusive or. */
  function HammingDistance(a: seq<bv8>, b: seq<bv8>): (r: nat)
    ensures r <= 8 * Min(|a|, |b|)
    decreases |a|
  {
    if a == [] || b == [] then 0
    else CountOnes(a[0] ^ b[0]) + HammingDistance(a[1..], b[1..])
  }

  /** Number of zipped positions whose bytes differ (the notion of the doc comment). */
  function DifferingPositions(a: seq<bv8>, b: seq<bv8>): (r: nat)
    ensures r <= Min(|a|, |b|)
    decreases |a|
  {
    if a == [] || b == [] then 0
    else (if a[0] != b[0] then 1 else 0) + DifferingPositions(a[1..], b[1..])
  }

  /** Popcount of an exclusive or is at most the sum of the popcounts. */
  lemma {:induction false} OnesBelowXor(u: bv8, v: bv8, w: nat)
    requires w <= 8
    ensures OnesBelow(u ^ v, w) <= OnesBelow(u, w) + OnesBelow(v, w)
    decreases w
  {
    if w > 0 {
      assert (u ^ v) >> 1 == (u >> 1) ^ (v >> 1);
      OnesBelowXor(u >> 1, v >> 1, w - 1);
    }
  }

  /** Self-distance is zero: `hamming_distance(a, a) == 0`. */
  lemma {:induction false} HammingSelf(a: seq<bv8>)
    ensures HammingDistance(a, a) == 0
    decreases |a|
  {
    if a != [] {
      HammingSelf(a[1..]);
    }
  }

  /** Symmetry: exclusive or commutes and `zip` pairs the same positions either way. */
  lemma {:induction false} HammingSymmetric(a: seq<bv8>, b: seq<bv8>)
    ensures HammingDistance(a, b) == HammingDistance(b, a)
    decreases |a|
  {
    if a != [] && b != [] {
      assert a[0] ^ b[0] == b[0] ^ a[0];
      HammingSymmetric(a[1..], b[1..]);
    }
  }

  /** Only the first `min(|a|, |b|)` bytes take part: the tail of the longer input is ignored. */
  lemma {:induction false} HammingTruncate(a: seq<bv8>, b: seq<bv8>)
    ensures HammingDistance(a, b) == HammingDistance(a[..Min(|a|, |b|)], b[..Min(|a|, |b|)])
    decreases |a|
  {
    var m := Min(|a|, |b|);
    if a != [] && b != [] {
      HammingTruncate(a[1..], b[1..]);
      assert a[..m][0] == a[0] && a[..m][1..] == a[1..][..m - 1];
      assert b[..m][0] == b[0] && b[..m][1..] == b[1..][..m - 1];
    }
  }

  /** Appending bytes to the longer side never changes the distance. */
  lemma {:induction false} HammingIgnoresTail(a: seq<bv8>, b: seq<bv8>, t: seq<bv8>)
    requires |a| <= |b|
    ensures HammingDistance(a, b + t) == HammingDistance(a, b)
    decreases |a|
  {
    if a != [] {
      assert (b + t)[1..] == b[1..] + t;
      HammingIgnoresTail(a[1..], b[1..], t);
    }
  }

  /** The distance is zero exactly when the zipped prefixes agree; for inputs of equal
      length, exactly when the inputs are equal. */
  lemma {:induction false} HammingZeroIff(a: seq<bv8>, b: seq<bv8>)
    ensures HammingDistance(a, b) == 0 <==> a[..Min(|a|, |b|)] == b[..Min(|a|, |b|)]
    ensures |a| == |b| ==> (HammingDistance(a, b) == 0 <==> a == b)
    decreases |a|
  {
    var m := Min(|a|, |b|);
    if a != [] && b != [] {
      HammingZeroIff(a[1..], b[1..]);
      assert a[..m] == [a[0]] + a[1..][..m - 1];
      assert b[..m] == [b[0]] + b[1..][..m - 1];
      assert a[0] ^ b[0] == 0 <==> a[0] == b[0];
    }
    assert |a| == |b| ==> a[..m] == a && b[..m] == b;
  }

  /** Additivity: the distance is the sum over the zipped pairs, so it splits over
      concatenation when the first parts have equal length. */
  lemma {:induction false} HammingAppend(a1: seq<bv8>, a2: seq<bv8>, b1: seq<bv8>, b2: seq<bv8>)
    requires |a1| == |b1|
    ensures HammingDistance(a1 + a2, b1 + b2) == HammingDistance(a1, b1) + HammingDistance(a2, b2)
    decreases |a1|
  {
    if a1 != [] {
      assert (a1 + a2)[1..] == a1[1..] + a2;
      assert (b1 + b2)[1..] == b1[1..] + b2;
      HammingAppend(a1[1..], a2, b1[1..], b2);
    } else {
      assert a1 + a2 == a2 && b1 + b2 == b2;
    }
  }

  /** Triangle inequality for inputs of equal length (with `zip` truncation and unequal
      lengths it does not hold: see HammingTriangleNeedsEqualLengths). */
  lemma {:induction false} HammingTriangle(a: seq<bv8>, b: seq<bv8>, c: seq<bv8>)
    requires |a| == |b| == |c|
    ensures HammingDistance(a, c) <= HammingDistance(a, b) + HammingDistance(b, c)
    decreases |a|
  {
    if a != [] {
      assert a[0] ^ c[0] == (a[0] ^ b[0]) ^ (b[0] ^ c[0]);
      OnesBelowXor(a[0] ^ b[0], b[0] ^ c[0], 8);
      HammingTriangle(a[1..], b[1..], c[1..]);
    }
  }

  /** With unequal lengths the truncation breaks the triangle inequality. */
  lemma HammingTriangleNeedsEqualLengths()
    ensures HammingDistance([0], [0xFF]) > HammingDistance([0], []) + HammingDistance([], [0xFF])
  {
    assert HammingDistance([0], [0xFF]) == CountOnes(0xFF) + HammingDistance([], []);
  }

  /** Each differing byte contributes between 1 and 8 differing bits. */
  lemma {:induction false} HammingBetweenPositions(a: seq<bv8>, b: seq<bv8>)
    ensures DifferingPositions(a, b) <= HammingDistance(a, b) <= 8 * DifferingPositions(a, b)
    decreases |a|
  {
    if a != [] && b != [] {
      assert a[0] ^ b[0] == 0 <==> a[0] == b[0];
      HammingBetweenPositions(a[1..], b[1..]);
    }
  }

  /** The source sums into a `u32`; that sum cannot wrap while fewer than 2^29 pairs are zipped. */
  lemma HammingFitsU32(a: seq<bv8>, b: seq<bv8>)
    requires Min(|a|, |b|) < 0x2000_0000
    ensures HammingDistance(a, b) < 0x1_0000_0000
  {
  }

  /** Popcounts of the bytes used by the test vectors. */
  lemma CountOnesTestValues()
    ensures CountOnes(0x00) == 0 && CountOnes(0x01) == 1 && CountOnes(0x02) == 1
    ensures CountOnes(0x03) == 2 && CountOnes(0x04) == 1 && CountOnes(0x05) == 2
    ensures CountOnes(0xFF) == 8
  {
    assert OnesBelow(0x01, 1) == 1;
    assert OnesBelow(0x03, 2) == 2;
    assert OnesBelow(0x07, 3) == 3;
    assert OnesBelow(0x0F, 4) == 4;
    assert OnesBelow(0x1F, 5) == 5;
    assert OnesBelow(0x3F, 6) == 6;
    assert OnesBelow(0x7F, 7) == 7;
  }

  /** The distance of two 4-byte strings, written out pair by pair. */
  lemma HammingFourBytes(a: seq<bv8>, b: seq<bv8>)
    requires |a| == 4 && |b| == 4
    ensures HammingDistance(a, b)
         == CountOnes(a[0] ^ b[0]) + CountOnes(a[1] ^ b[1]) + CountOnes(a[2] ^ b[2]) + CountOnes(a[3] ^ b[3])
  {
    assert HammingDistance(a[3..], b[3..]) == CountOnes(a[3] ^ b[3]) + HammingDistance(a[4..], b[4..]);
    assert HammingDistance(a[2..], b[2..]) == CountOnes(a[2] ^ b[2]) + HammingDistance(a[3..], b[3..]);
    assert HammingDistance(a[1..], b[1..]) == CountOnes(a[1] ^ b[1]) + HammingDistance(a[2..], b[2..]);
  }

  /** The first seven test vectors of `test_hamming_distance`: the strings differ in the
      last byte only. */
  lemma HammingTestVectorsLastByte()
    ensures HammingDistance([0, 0, 0, 0], [0, 0, 0, 0]) == 0
    ensures HammingDistance([0, 0, 0, 0], [0, 0, 0, 0x01]) == 1
    ensures HammingDistance([0, 0, 0, 0], [0, 0, 0, 0x02]) == 1
    ensures HammingDistance([0, 0, 0, 0], [0, 0, 0, 0x03]) == 2
    ensures HammingDistance([0, 0, 0, 0], [0, 0, 0, 0x04]) == 1
    ensures HammingDistance([0, 0, 0, 0], [0, 0, 0, 0x05]) == 2
    ensures HammingDistance([0, 0, 0, 0], [0, 0, 0, 0xFF]) == 8
  {
    CountOnesTestValues();
    var z: seq<bv8> := [0, 0, 0, 0];
    HammingFourBytes(z, z);
    HammingFourBytes(z, [0, 0, 0, 0x01]);
    HammingFourBytes(z, [0, 0, 0, 0x02]);
    HammingFourBytes(z, [0, 0, 0, 0x03]);
    HammingFourBytes(z, [0, 0, 0, 0x04]);
    HammingFourBytes(z, [0, 0, 0, 0x05]);
    HammingFourBytes(z, [0, 0, 0, 0xFF]);
  }

  /** The last four test vectors of `test_hamming_distance`: the strings differ in whole bytes. */
  lemma HammingTestVectorsWholeBytes()
    ensures HammingDistance([0, 0, 0, 0], [0, 0xFF, 0, 0xFF]) == 16
    ensures HammingDistance([0, 0, 0, 0], [0, 0xFF, 0xFF, 0xFF]) == 24
    ensures HammingDistance([0, 0, 0, 0], [0xFF, 0xFF, 0xFF, 0xFF]) == 32
    ensures HammingDistance([0, 0xFF, 0, 0xFF], [0xFF, 0, 0xFF, 0]) == 32
  {
    CountOnesTestValues();
    var z: seq<bv8> := [0, 0, 0, 0];
    HammingFourBytes(z, [0, 0xFF, 0, 0xFF]);
    HammingFourBytes(z, [0, 0xFF, 0xFF, 0xFF]);
    HammingFourBytes(z, [0xFF, 0xFF, 0xFF, 0xFF]);
    HammingFourBytes([0, 0xFF, 0, 0xFF], [0xFF, 0, 0xFF, 0]);
  }
}
