# dHash, modelled in Dafny

This project models the Go package `dhash`. The package computes a
difference hash ("dHash") of an image and compares two such hashes. The image
is reduced to 9 columns by 8 rows. The sampler flattens it into 72 bytes. Two
gradient passes turn the bytes into 64 bits each, vertical pass first. The
comparator scores two hashes by the fraction of agreeing positions among the
first 128.

Modules, one per component of `dhash.go`:

- `Bytes`: Go's `uint8`/`byte` and `uint32` as newtypes, and `Low8`, the conversion `byte(r)`.
- `Sampler`: `createByteArray`, over an abstract reduced image `image[y][x]` of red-channel values.
- `GradientHash`: `horizontalGradientHash`, `verticalGradientHash` and the concatenation in `CalculateHash`. The methods keep the source's loops, with the carried `previousValue`. Each method is proved equal to a closed-form reference definition: `HorizontalBits`, `VerticalBits` and `Fingerprint`.
- `Comparator`: `CalculateHammingDistance`, proved equal to `Similarity`. That is the count of agreeing positions, `Agreements`, over 128, as an exact real.
- `DHash`: the pipeline from a reduced image to a hash, and end-to-end properties.

Buffer layout. The sampler writes pixel (x, y) at index `y*9+x`. Both passes
read index `y*8+x`. The model keeps both layouts exactly as written. So the
horizontal pass compares each consecutive pair among samples 0..64
(`HorizontalComparesConsecutive`). The vertical pass compares samples that are
8 apart. So an image that gets brighter along every row and down every
column can still get a 0 bit. For the ramp x + y
(`DiagonalRampIsNotAllOnes`), bit 72 compares pixel (8, 0) = 8 with pixel
(0, 1) = 1.

Facts about the Go code that the model keeps:

- The vertical pass emits 64 bits: 8 columns times 8 transitions.
- The comparator indexes both hashes without a length check. The model makes this a precondition: both hashes have at least 128 entries.
- A bit is 1 when the earlier sample is strictly less, that is darker, than the later one (dhash.go:51, dhash.go:73). The comments at dhash.go:43 and dhash.go:65 describe the opposite direction: 1 when the earlier pixel is brighter. The model follows the code (`BrighterLeftGivesZero`, `BrighterAboveGivesZero`). Equal samples give 0 under both rules, so the two rules are not complements of each other, and the choice can change similarity scores.
- A decode failure ends the process (`log.Fatalf`, dhash.go:20). This is outside the model (see below).

## Model

| member | source | states |
|---|---|---|
| `Bytes.Low8` | dhash.go:35 | `byte(r)`: values below 256 pass unchanged, and the result differs from r by a multiple of 256 |
| `Sampler.Samples` | dhash.go:30-39 | the reference sample layout (sample i defined as the low byte of pixel (i % 9, i / 9)) has 72 entries |
| `Sampler.CreateByteArray` | dhash.go:30-39 | returns exactly 72 bytes; entry `y*9+x` is the low byte of the red value of pixel (x, y), rows outer and columns inner; equals `Samples(image)` |
| `Sampler.UniformImageSamples` | dhash.go:30-39 | pixels that all share a low byte give a constant sample buffer |
| `GradientHash.GradientBit` | dhash.go:51-55 | every emitted bit is 0 or 1 |
| `GradientHash.HorizontalBits` | dhash.go:44-61 | the horizontal reference definition has 64 entries |
| `GradientHash.VerticalBits` | dhash.go:66-83 | the vertical reference definition has 64 entries |
| `GradientHash.HorizontalGradientHash` | dhash.go:44-61 | on any buffer of at least 65 bytes (it reads only indices 0..64), returns 64 entries, each 0 or 1, equal to the row-major reference `HorizontalBits` |
| `GradientHash.VerticalGradientHash` | dhash.go:66-83 | on any buffer of at least 72 bytes (it reads only indices 0..71), returns 64 entries, each 0 or 1, equal to the column-major reference `VerticalBits` |
| `GradientHash.HorizontalBitAt` | dhash.go:49-55 | entry `y*8+(x-1)` is 1 iff `a[y*8+x-1] < a[y*8+x]` and 0 otherwise, so ties give 0 |
| `GradientHash.VerticalBitAt` | dhash.go:71-77 | entry `x*8+(y-1)` is 1 iff `a[(y-1)*8+x] < a[y*8+x]` and 0 otherwise, so ties give 0 |
| `GradientHash.HorizontalComparesConsecutive` | dhash.go:47-58 | horizontal entry k compares `a[k]` with `a[k+1]`; the first bit of a row never uses the value carried from the row before |
| `GradientHash.HorizontalReadsPrefix` | dhash.go:49 | buffers that agree on the first 65 samples get the same horizontal pass |
| `GradientHash.VerticalReadsPrefix` | dhash.go:71 | buffers that agree on the first 72 samples get the same vertical pass |
| `GradientHash.Fingerprint` | dhash.go:90 | the reference hash, vertical pass followed by horizontal pass, has 128 entries |
| `GradientHash.CalculateHash` | dhash.go:86-91 | from a buffer of at least 72 bytes, returns 128 entries, each 0 or 1; the first 64 are the vertical pass and the last 64 the horizontal pass |
| `GradientHash.ConstantHashesToZeros` | dhash.go:44-91 | a constant buffer hashes to 128 zeros (strict `<`) |
| `GradientHash.IncreasingHashesToOnes` | dhash.go:44-91 | a buffer of at least 72 bytes whose first 72 samples increase at every index hashes to 128 ones |
| `GradientHash.OffsetInvariant` | dhash.go:44-91 | adding one brightness offset to each of the first 72 samples leaves the hash unchanged |
| `GradientHash.BrighterLeftGivesZero` | dhash.go:41-55 | a first sample brighter than its right neighbour gives horizontal bit 0, as the code computes, not 1 as the comment at line 43 says |
| `GradientHash.BrighterAboveGivesZero` | dhash.go:63-77 | a first sample brighter than the one read below it gives vertical bit 0, as the code computes, not 1 as the comment at line 65 says |
| `Comparator.Agreements` | dhash.go:97-101 | the match count over n positions is at most n |
| `Comparator.Disagreements` | dhash.go:93-101 | the number of differing positions among n is at most n |
| `Comparator.Similarity` | dhash.go:103 | the score count/128 lies in [0, 1] |
| `Comparator.CalculateHammingDistance` | dhash.go:94-104 | with both hashes at least 128 long, the score equals agreeing positions among the first 128 over 128, and lies in [0, 1] |
| `Comparator.AgreementsComplement` | dhash.go:97-101 | agreeing plus differing positions make up all compared positions |
| `Comparator.AgreementsSymmetric` | dhash.go:97-101 | the match count does not depend on argument order |
| `Comparator.AllAgreeIffEqual` | dhash.go:97-101 | all n positions agree iff the first n entries are equal |
| `Comparator.NoneAgreeIffAllDiffer` | dhash.go:97-101 | no position agrees iff every one of the first n positions differs |
| `Comparator.SimilaritySymmetric` | dhash.go:94-104 | the score is symmetric in its arguments |
| `Comparator.SimilarityOneIffEqual` | dhash.go:94-104 | the score is 1 iff the first 128 entries are equal; a hash against itself scores 1 |
| `Comparator.SimilarityZeroIffAllDiffer` | dhash.go:94-104 | the score is 0 iff all 128 positions differ |
| `Comparator.SimilarityIsOneMinusDistance` | dhash.go:94-104 | the score is 1 minus the Hamming distance over 128 |
| `DHash.HashReducedImage` | dhash.go:86-91 | sampling then hashing a reduced image gives 128 bits, equal to `Fingerprint(Samples(image))` |
| `DHash.UniformImageHashesToZeros` | dhash.go:30-91 | an image whose pixels share one low byte (an all-black image, say) hashes to 128 zeros |
| `DHash.SelfSimilarity` | dhash.go:86-104 | the hash of any buffer scores 1 against itself |
| `DHash.ConstantVersusIncreasing` | dhash.go:86-104 | the all-zero hash of a constant buffer against the all-one hash of an increasing buffer scores 0 |
| `DHash.DiagonalRampIsNotAllOnes` | dhash.go:30-61 | the image with pixel (x, y) = x + y gets a 0 at hash position 72, because of the stride-8 reads over the stride-9 layout |

## Left out

- `reduceSizeAndColor` (dhash.go:17-26): file I/O, decoding, grayscale conversion and Lanczos resizing in an external imaging library. The model starts from its output, an abstract 9x8 grid of channel values. Its `log.Fatalf` on a decode failure is not modelled.
- `image.At(x, y).RGBA()` (dhash.go:34): a library call. The grid holds its red value as a `uint32`; only the `byte(r)` truncation is modelled.
- `CalculateHash`'s `path` argument: the hash is modelled from the sample buffer (`GradientHash.CalculateHash`) and from the reduced image (`DHash.HashReducedImage`).
- `Comparator.CalculateHammingDistance`: the `float64` division is modelled as the exact rational count/128. IEEE rounding is not modelled; every such quotient is exact in binary anyway.
- Out-of-range slice accesses, which panic in Go, become preconditions: 65 bytes for the horizontal pass, 72 for the vertical pass and the hash, and 128 entries for each compared hash.
