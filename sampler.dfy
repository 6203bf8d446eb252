/**
 * The sampler of dhash.go (createByteArray): it flattens the reduced 9x8
 * image into a 72-byte buffer, row by row, keeping only the low byte of the
 * red channel of each pixel.
 */
module Sampler {
  import opened Bytes

  /**
   * The reduced image as it reaches the sampler: 8 rows of 9 red-channel
   * values, where image[y][x] is the red value of image.At(x, y).RGBA().
   */
  predicate IsReducedImage(image: seq<seq<uint32>>) {
    |image| == 8 && forall y :: 0 <= y < 8 ==> |image[y]| == 9
  }

  /** The row-major sample layout: sample i belongs to row i / 9, column i % 9. */
  function Samples(image: seq<seq<uint32>>): (s: seq<byte>)
    requires IsReducedImage(image)
    ensures |s| == 72
  {
    seq(72, i requires 0 <= i < 72 => Low8(image[i / 9][i % 9]))
  }

  lemma RowMajorIndex(y: int, x: int)
    requires 0 <= x < 9
    ensures (y * 9 + x) / 9 == y && (y * 9 + x) % 9 == x
  {
  }

  /**
   * createByteArray: rows outer, columns inner, appending byte(r) for every
   * pixel. The result holds exactly 72 samples, sample y*9+x being the low
   * byte of pixel (x, y).
   */
  method CreateByteArray(image: seq<seq<uint32>>) returns (byteArray: seq<byte>)
    requires IsReducedImage(image)
    ensures |byteArray| == 72
    ensures forall y, x :: 0 <= y < 8 && 0 <= x < 9 ==> byteArray[y * 9 + x] == Low8(image[y][x])
    ensures byteArray == Samples(image)
  {
    byteArray := [];
    var y := 0;
    while y < 8
      invariant 0 <= y <= 8
      invariant |byteArray| == y * 9
      invariant forall i :: 0 <= i < |byteArray| ==> byteArray[i] == Low8(image[i / 9][i % 9])
    {
      var x := 0;
      while x < 9
        invariant 0 <= x <= 9
        invariant |byteArray| == y * 9 + x
        invariant forall i :: 0 <= i < |byteArray| ==> byteArray[i] == Low8(image[i / 9][i % 9])
      {
        RowMajorIndex(y, x);
        byteArray := byteArray + [Low8(image[y][x])];
        x := x + 1;
      }
      y := y + 1;
    }
    forall y, x | 0 <= y < 8 && 0 <= x < 9
      ensures byteArray[y * 9 + x] == Low8(image[y][x])
    {
      RowMajorIndex(y, x);
    }
  }

  /** A reduced image whose pixels all agree in their low byte yields a constant buffer. */
  lemma {:induction false} UniformImageSamples(image: seq<seq<uint32>>)
    requires IsReducedImage(image)
    requires forall y, x :: 0 <= y < 8 && 0 <= x < 9 ==> Low8(image[y][x]) == Low8(image[0][0])
    ensures forall i :: 0 <= i < 72 ==> Samples(image)[i] == Samples(image)[0]
  {
    forall i | 0 <= i < 72
      ensures Samples(image)[i] == Samples(image)[0]
    {
      RowMajorIndex(i / 9, i % 9);
      assert Samples(image)[i] == Low8(image[i / 9][i % 9]);
    }
  }
}
