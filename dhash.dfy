/**
 * The whole pipeline of dhash.go after image loading: a reduced 9x8 image is
 * sampled, hashed, and hashes are compared.
 */
module DHash {
  import opened Bytes
  import opened Sampler
  import opened GradientHash
  import opened Comparator

  /**
   * CalculateHash after reduceSizeAndColor: the samples of the reduced image
   * go through both gradient passes.
   */
  method HashReducedImage(image: seq<seq<uint32>>) returns (hash: seq<byte>)
    requires IsReducedImage(image)
    ensures |hash| == 128 && IsBits(hash)
    ensures hash == Fingerprint(Samples(image))
  {
    var imageArray := CreateByteArray(image);
    hash := CalculateHash(imageArray);
  }

  /** An image whose pixels all have the same low byte (an all-black image, say) hashes to 128 zeros. */
  lemma UniformImageHashesToZeros(image: seq<seq<uint32>>)
    requires IsReducedImage(image)
    requires forall y, x :: 0 <= y < 8 && 0 <= x < 9 ==> Low8(image[y][x]) == Low8(image[0][0])
    ensures Fingerprint(Samples(image)) == seq(128, _ => 0)
  {
    UniformImageSamples(image);
    ConstantHashesToZeros(Samples(image));
  }

  /** A hash compared with itself scores 1. */
  lemma SelfSimilarity(a: seq<byte>)
    requires |a| >= VerticalReach
    ensures Similarity(Fingerprint(a), Fingerprint(a)) == 1.0
  {
    SimilarityOneIffEqual(Fingerprint(a), Fingerprint(a));
  }

  /** The all-zero hash of a constant buffer against the all-one hash of an increasing buffer scores 0. */
  lemma ConstantVersusIncreasing(a: seq<byte>, b: seq<byte>)
    requires |a| >= VerticalReach && |b| >= VerticalReach
    requires forall i :: 0 <= i < VerticalReach ==> a[i] == a[0]
    requires forall j :: 0 <= j < VerticalReach - 1 ==> b[j] < b[j + 1]
    ensures Similarity(Fingerprint(a), Fingerprint(b)) == 0.0
  {
    ConstantHashesToZeros(a);
    IncreasingHashesToOnes(b);
    SimilarityZeroIffAllDiffer(Fingerprint(a), Fingerprint(b));
  }

  /** Pixel (x, y) has value x + y: brighter to the right and brighter downwards. */
  function DiagonalRamp(): (image: seq<seq<uint32>>)
    ensures IsReducedImage(image)
  {
    seq(8, y requires 0 <= y < 8 => seq(9, x requires 0 <= x < 9 => (x + y) as uint32))
  }

  /**
   * Because the passes use a row stride of 8 over a buffer laid out with a
   * stride of 9, an image that brightens along every row and down every
   * column does not hash to all ones: horizontal bit 8 (row 1, column 1 in
   * the passes' addressing) compares pixel (8, 0), value 8, with pixel
   * (0, 1), value 1, and is 0.
   */
  lemma DiagonalRampIsNotAllOnes()
    ensures IsReducedImage(DiagonalRamp())
    ensures forall y, x :: 0 <= y < 8 && 0 <= x < 9 ==> DiagonalRamp()[y][x] as int == x + y
    ensures Fingerprint(Samples(DiagonalRamp()))[64 + 8] == 0
  {
    var s := Samples(DiagonalRamp());
    assert s[8] == 8 && s[9] == 1;
    HorizontalComparesConsecutive(s, 8);
  }
}
