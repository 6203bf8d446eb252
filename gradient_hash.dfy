/**
 * The gradient hasher of dhash.go: two passes over the sample buffer, each
 * emitting one bit per pair of neighbouring samples, and their concatenation
 * into the 128-entry hash (CalculateHash without the image loading).
 *
 * Both passes address the buffer as y*8 + x, a row stride of 8, although the
 * sampler lays rows out with a stride of 9. The model keeps the stride of 8.
 */
module GradientHash {
  import opened Bytes

  /** One hash bit: 1 exactly when the earlier sample is strictly less than the later one. */
  function GradientBit(previous: byte, current: byte): (bit: byte)
    ensures bit == 0 || bit == 1
  {
    if previous < current then 1 else 0
  }

  /** Every entry of h is 0 or 1. */
  predicate IsBits(h: seq<byte>) {
    forall k :: 0 <= k < |h| ==> h[k] == 0 || h[k] == 1
  }

  /** The horizontal pass reads buffer indices 0 through 64. */
  const HorizontalReach := 65

  /** The vertical pass reads buffer indices 0 through 71. */
  const VerticalReach := 72

  /** Bit of row y (0..7) and column x (1..8): compares a[y*8+x-1] with a[y*8+x]. */
  function HorizontalBit(a: seq<byte>, y: int, x: int): (bit: byte)
    requires 0 <= y < 8 && 1 <= x < 9 && |a| >= HorizontalReach
  {
    GradientBit(a[y * 8 + x - 1], a[y * 8 + x])
  }

  /** Bit of column x (0..7) and row y (1..8): compares a[(y-1)*8+x] with a[y*8+x]. */
  function VerticalBit(a: seq<byte>, x: int, y: int): (bit: byte)
    requires 0 <= x < 8 && 1 <= y < 9 && |a| >= VerticalReach
  {
    GradientBit(a[(y - 1) * 8 + x], a[y * 8 + x])
  }

  /** The horizontal pass, row-major: entry y*8 + (x-1) is the bit of row y, column x. */
  function HorizontalBits(a: seq<byte>): (h: seq<byte>)
    requires |a| >= HorizontalReach
    ensures |h| == 64
  {
    seq(64, k requires 0 <= k < 64 => HorizontalBit(a, k / 8, k % 8 + 1))
  }

  /** The vertical pass, column-major: entry x*8 + (y-1) is the bit of column x, row y. */
  function VerticalBits(a: seq<byte>): (h: seq<byte>)
    requires |a| >= VerticalReach
    ensures |h| == 64
  {
    seq(64, k requires 0 <= k < 64 => VerticalBit(a, k / 8, k % 8 + 1))
  }

  /** The hash: the vertical pass followed by the horizontal pass. */
  function Fingerprint(a: seq<byte>): (h: seq<byte>)
    requires |a| >= VerticalReach
    ensures |h| == 128
  {
    VerticalBits(a) + HorizontalBits(a)
  }

  lemma SplitIndex(q: int, r: int)
    requires 0 <= r < 8
    ensures (q * 8 + r) / 8 == q && (q * 8 + r) % 8 == r
  {
  }

  /**
   * horizontalGradientHash: rows outer, columns inner, carrying the previous
   * sample; the first column of each row emits nothing. Reads only indices
   * below 65.
   */
  method HorizontalGradientHash(imageArray: seq<byte>) returns (hashArray: seq<byte>)
    requires |imageArray| >= HorizontalReach
    ensures |hashArray| == 64 && IsBits(hashArray)
    ensures hashArray == HorizontalBits(imageArray)
  {
    var previousValue: byte := 0;
    hashArray := [];
    var y := 0;
    while y < 8
      invariant 0 <= y <= 8
      invariant |hashArray| == y * 8
      invariant forall k :: 0 <= k < |hashArray| ==> hashArray[k] == HorizontalBit(imageArray, k / 8, k % 8 + 1)
    {
      var x := 0;
      while x < 9
        invariant 0 <= x <= 9
        invariant |hashArray| == if x == 0 then y * 8 else y * 8 + x - 1
        invariant x > 0 ==> previousValue == imageArray[y * 8 + x - 1]
        invariant forall k :: 0 <= k < |hashArray| ==> hashArray[k] == HorizontalBit(imageArray, k / 8, k % 8 + 1)
      {
        var currentValue := imageArray[y * 8 + x];
        if x > 0 {
          SplitIndex(y, x - 1);
          if previousValue < currentValue {
            hashArray := hashArray + [1];
          } else {
            hashArray := hashArray + [0];
          }
        }
        previousValue := currentValue;
        x := x + 1;
      }
      y := y + 1;
    }
  }

  /**
   * verticalGradientHash: columns outer, rows inner, carrying the previous
   * sample; the first row of each column emits nothing. Reads only indices
   * below 72.
   */
  method VerticalGradientHash(imageArray: seq<byte>) returns (hashArray: seq<byte>)
    requires |imageArray| >= VerticalReach
    ensures |hashArray| == 64 && IsBits(hashArray)
    ensures hashArray == VerticalBits(imageArray)
  {
    var previousValue: byte := 0;
    hashArray := [];
    var x := 0;
    while x < 8
      invariant 0 <= x <= 8
      invariant |hashArray| == x * 8
      invariant forall k :: 0 <= k < |hashArray| ==> hashArray[k] == VerticalBit(imageArray, k / 8, k % 8 + 1)
    {
      var y := 0;
      while y < 9
        invariant 0 <= y <= 9
        invariant |hashArray| == if y == 0 then x * 8 else x * 8 + y - 1
        invariant y > 0 ==> previousValue == imageArray[(y - 1) * 8 + x]
        invariant forall k :: 0 <= k < |hashArray| ==> hashArray[k] == VerticalBit(imageArray, k / 8, k % 8 + 1)
      {
        var currentValue := imageArray[y * 8 + x];
        if y > 0 {
          SplitIndex(x, y - 1);
          if previousValue < currentValue {
            hashArray := hashArray + [1];
          } else {
            hashArray := hashArray + [0];
          }
        }
        previousValue := currentValue;
        y := y + 1;
      }
      x := x + 1;
    }
  }

  /** CalculateHash from a sample buffer: the vertical pass, then the horizontal pass. */
  method CalculateHash(imageArray: seq<byte>) returns (hash: seq<byte>)
    requires |imageArray| >= VerticalReach
    ensures |hash| == 128 && IsBits(hash)
    ensures hash[..64] == VerticalBits(imageArray) && hash[64..] == HorizontalBits(imageArray)
    ensures hash == Fingerprint(imageArray)
  {
    var verticalHash := VerticalGradientHash(imageArray);
    var horizontalHash := HorizontalGradientHash(imageArray);
    hash := verticalHash + horizontalHash;
  }

  /** Entry y*8 + (x-1) of the horizontal pass is 1 exactly when a[y*8+x-1] < a[y*8+x], and 0 otherwise. */
  lemma HorizontalBitAt(a: seq<byte>, y: int, x: int)
    requires |a| >= HorizontalReach && 0 <= y < 8 && 1 <= x < 9
    ensures HorizontalBits(a)[y * 8 + (x - 1)] == 1 <==> a[y * 8 + x - 1] < a[y * 8 + x]
    ensures HorizontalBits(a)[y * 8 + (x - 1)] == 0 <==> !(a[y * 8 + x - 1] < a[y * 8 + x])
  {
    SplitIndex(y, x - 1);
  }

  /** Entry x*8 + (y-1) of the vertical pass is 1 exactly when a[(y-1)*8+x] < a[y*8+x], and 0 otherwise. */
  lemma VerticalBitAt(a: seq<byte>, x: int, y: int)
    requires |a| >= VerticalReach && 0 <= x < 8 && 1 <= y < 9
    ensures VerticalBits(a)[x * 8 + (y - 1)] == 1 <==> a[(y - 1) * 8 + x] < a[y * 8 + x]
    ensures VerticalBits(a)[x * 8 + (y - 1)] == 0 <==> !(a[(y - 1) * 8 + x] < a[y * 8 + x])
  {
    SplitIndex(x, y - 1);
  }

  /**
   * With a row stride of 8, row y's column 8 is row y+1's column 0, so the
   * horizontal pass compares every consecutive pair of the first 65 samples.
   * In particular the first bit of a row never involves the value the pass
   * carried from the previous row: it compares a[y*8] with a[y*8+1].
   */
  lemma HorizontalComparesConsecutive(a: seq<byte>, k: int)
    requires |a| >= HorizontalReach && 0 <= k < 64
    ensures HorizontalBits(a)[k] == GradientBit(a[k], a[k + 1])
  {
    assert k / 8 * 8 + k % 8 == k;
  }

  /** The horizontal pass depends on the first 65 samples and nothing else. */
  lemma HorizontalReadsPrefix(a: seq<byte>, b: seq<byte>)
    requires |a| >= HorizontalReach && |b| >= HorizontalReach
    requires a[..HorizontalReach] == b[..HorizontalReach]
    ensures HorizontalBits(a) == HorizontalBits(b)
  {
    forall k | 0 <= k < 64
      ensures HorizontalBits(a)[k] == HorizontalBits(b)[k]
    {
      HorizontalComparesConsecutive(a, k);
      HorizontalComparesConsecutive(b, k);
      assert a[k] == a[..HorizontalReach][k] && a[k + 1] == a[..HorizontalReach][k + 1];
    }
  }

  /** The vertical pass depends on the first 72 samples and nothing else. */
  lemma VerticalReadsPrefix(a: seq<byte>, b: seq<byte>)
    requires |a| >= VerticalReach && |b| >= VerticalReach
    requires a[..VerticalReach] == b[..VerticalReach]
    ensures VerticalBits(a) == VerticalBits(b)
  {
    forall k | 0 <= k < 64
      ensures VerticalBits(a)[k] == VerticalBits(b)[k]
    {
      var x, y := k / 8, k % 8 + 1;
      assert a[(y - 1) * 8 + x] == a[..VerticalReach][(y - 1) * 8 + x];
      assert a[y * 8 + x] == a[..VerticalReach][y * 8 + x];
    }
  }

  /** A constant buffer hashes to 128 zero bits: ties give 0. */
  lemma ConstantHashesToZeros(a: seq<byte>)
    requires |a| >= VerticalReach
    requires forall i :: 0 <= i < VerticalReach ==> a[i] == a[0]
    ensures Fingerprint(a) == seq(128, _ => 0)
  {
    forall k | 0 <= k < 128
      ensures Fingerprint(a)[k] == 0
    {
      if k < 64 {
        assert Fingerprint(a)[k] == VerticalBits(a)[k];
      } else {
        assert Fingerprint(a)[k] == HorizontalBits(a)[k - 64];
      }
    }
  }

  /** In a buffer that increases at every step, every later sample exceeds every earlier one. */
  lemma {:induction false} IncreasingApart(a: seq<byte>, i: nat, d: nat)
    requires forall j :: 0 <= j < |a| - 1 ==> a[j] < a[j + 1]
    requires 0 < d && i + d < |a|
    ensures a[i] < a[i + d]
  {
    if d > 1 {
      IncreasingApart(a, i, d - 1);
    }
  }

  /** A buffer whose first 72 samples increase at every index hashes to 128 one bits. */
  lemma IncreasingHashesToOnes(a: seq<byte>)
    requires |a| >= VerticalReach
    requires forall j :: 0 <= j < VerticalReach - 1 ==> a[j] < a[j + 1]
    ensures Fingerprint(a) == seq(128, _ => 1)
  {
    var p := a[..VerticalReach];
    VerticalReadsPrefix(a, p);
    HorizontalReadsPrefix(a, p);
    forall k | 0 <= k < 128
      ensures Fingerprint(p)[k] == 1
    {
      if k < 64 {
        var x, y := k / 8, k % 8 + 1;
        IncreasingApart(p, (y - 1) * 8 + x, 8);
        assert Fingerprint(p)[k] == VerticalBits(p)[k];
      } else {
        HorizontalComparesConsecutive(p, k - 64);
        assert Fingerprint(p)[k] == HorizontalBits(p)[k - 64];
      }
    }
    assert Fingerprint(a) == Fingerprint(p);
  }

  /**
   * Adding the same brightness offset c to every sample (without leaving the
   * byte range) leaves the hash unchanged: only relative order matters.
   */
  lemma OffsetInvariant(a: seq<byte>, b: seq<byte>, c: int)
    requires |a| >= VerticalReach && |b| >= VerticalReach
    requires forall i :: 0 <= i < VerticalReach ==> b[i] as int == a[i] as int + c
    ensures Fingerprint(a) == Fingerprint(b)
  {
    var p, q := a[..VerticalReach], b[..VerticalReach];
    VerticalReadsPrefix(a, p);
    HorizontalReadsPrefix(a, p);
    VerticalReadsPrefix(b, q);
    HorizontalReadsPrefix(b, q);
    assert VerticalBits(p) == VerticalBits(q);
    assert HorizontalBits(p) == HorizontalBits(q);
  }

  /**
   * The horizontal pass sets a bit when the earlier sample is darker, not
   * brighter: a first pixel brighter than its right neighbour gives 0.
   */
  lemma BrighterLeftGivesZero(a: seq<byte>)
    requires |a| >= HorizontalReach && a[0] > a[1]
    ensures HorizontalBits(a)[0] == 0
  {
    HorizontalBitAt(a, 0, 1);
  }

  /**
   * The vertical pass sets a bit when the upper sample is darker, not
   * brighter: a first pixel brighter than the one read below it gives 0.
   */
  lemma BrighterAboveGivesZero(a: seq<byte>)
    requires |a| >= VerticalReach && a[0] > a[8]
    ensures VerticalBits(a)[0] == 0
  {
    VerticalBitAt(a, 0, 1);
  }
}
