/**
 * The comparator of dhash.go (CalculateHammingDistance): the fraction of the
 * first 128 positions at which two hashes hold the same value.
 */
module Comparator {
  import opened Bytes

  /** The number of positions compared. */
  const HashLength := 128

  /** The number of positions below n at which a and b agree. */
  function Agreements(a: seq<byte>, b: seq<byte>, n: nat): (count: nat)
    requires n <= |a| && n <= |b|
    ensures count <= n
  {
    if n == 0 then 0
    else Agreements(a, b, n - 1) + (if a[n - 1] == b[n - 1] then 1 else 0)
  }

  /** The number of positions below n at which a and b differ: the Hamming distance. */
  function Disagreements(a: seq<byte>, b: seq<byte>, n: nat): (count: nat)
    requires n <= |a| && n <= |b|
    ensures count <= n
  {
    if n == 0 then 0
    else Disagreements(a, b, n - 1) + (if a[n - 1] != b[n - 1] then 1 else 0)
  }

  /** The similarity score: agreeing positions over 128, as an exact rational. */
  function Similarity(a: seq<byte>, b: seq<byte>): (score: real)
    requires |a| >= HashLength && |b| >= HashLength
    ensures 0.0 <= score <= 1.0
  {
    Agreements(a, b, HashLength) as real / HashLength as real
  }

  /**
   * CalculateHammingDistance: counts the agreeing positions among the first
   * 128 and divides by 128. The score lies in [0, 1].
   */
  method CalculateHammingDistance(firstHash: seq<byte>, secondHash: seq<byte>) returns (score: real)
    requires |firstHash| >= HashLength && |secondHash| >= HashLength
    ensures 0.0 <= score <= 1.0
    ensures score == Similarity(firstHash, secondHash)
  {
    var similarity: nat := 0;
    for i := 0 to HashLength
      invariant similarity == Agreements(firstHash, secondHash, i)
    {
      if firstHash[i] == secondHash[i] {
        similarity := similarity + 1;
      }
    }
    score := similarity as real / HashLength as real;
  }

  /** Agreements and disagreements partition the compared positions. */
  lemma {:induction false} AgreementsComplement(a: seq<byte>, b: seq<byte>, n: nat)
    requires n <= |a| && n <= |b|
    ensures Agreements(a, b, n) + Disagreements(a, b, n) == n
  {
    if n > 0 {
      AgreementsComplement(a, b, n - 1);
    }
  }

  /** Comparison does not depend on the order of the arguments. */
  lemma {:induction false} AgreementsSymmetric(a: seq<byte>, b: seq<byte>, n: nat)
    requires n <= |a| && n <= |b|
    ensures Agreements(a, b, n) == Agreements(b, a, n)
  {
    if n > 0 {
      AgreementsSymmetric(a, b, n - 1);
    }
  }

  /** All n positions agree exactly when the first n entries are equal. */
  lemma {:induction false} AllAgreeIffEqual(a: seq<byte>, b: seq<byte>, n: nat)
    requires n <= |a| && n <= |b|
    ensures Agreements(a, b, n) == n <==> a[..n] == b[..n]
  {
    if n > 0 {
      AllAgreeIffEqual(a, b, n - 1);
      assert a[..n] == a[..n - 1] + [a[n - 1]];
      assert b[..n] == b[..n - 1] + [b[n - 1]];
      if a[..n] == b[..n] {
        assert a[..n - 1] == a[..n][..n - 1];
        assert b[..n - 1] == b[..n][..n - 1];
      }
    }
  }

  /** No position agrees exactly when every one of the first n positions differs. */
  lemma {:induction false} NoneAgreeIffAllDiffer(a: seq<byte>, b: seq<byte>, n: nat)
    requires n <= |a| && n <= |b|
    ensures Agreements(a, b, n) == 0 <==> forall i :: 0 <= i < n ==> a[i] != b[i]
  {
    if n > 0 {
      NoneAgreeIffAllDiffer(a, b, n - 1);
    }
  }

  /** The score is symmetric in its arguments. */
  lemma SimilaritySymmetric(a: seq<byte>, b: seq<byte>)
    requires |a| >= HashLength && |b| >= HashLength
    ensures Similarity(a, b) == Similarity(b, a)
  {
    AgreementsSymmetric(a, b, HashLength);
  }

  /** The score is 1 exactly when the first 128 entries are equal; a hash scores 1 against itself. */
  lemma SimilarityOneIffEqual(a: seq<byte>, b: seq<byte>)
    requires |a| >= HashLength && |b| >= HashLength
    ensures Similarity(a, b) == 1.0 <==> a[..HashLength] == b[..HashLength]
    ensures Similarity(a, a) == 1.0
  {
    AllAgreeIffEqual(a, b, HashLength);
    AllAgreeIffEqual(a, a, HashLength);
  }

  /** The score is 0 exactly when every one of the first 128 positions differs. */
  lemma SimilarityZeroIffAllDiffer(a: seq<byte>, b: seq<byte>)
    requires |a| >= HashLength && |b| >= HashLength
    ensures Similarity(a, b) == 0.0 <==> forall i :: 0 <= i < HashLength ==> a[i] != b[i]
  {
    NoneAgreeIffAllDiffer(a, b, HashLength);
  }

  /** The score is one minus the normalised Hamming distance. */
  lemma SimilarityIsOneMinusDistance(a: seq<byte>, b: seq<byte>)
    requires |a| >= HashLength && |b| >= HashLength
    ensures Similarity(a, b) == 1.0 - Disagreements(a, b, HashLength) as real / HashLength as real
  {
    AgreementsComplement(a, b, HashLength);
  }
}
