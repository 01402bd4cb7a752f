/** The pairwise similarity score of SimilarityDetector (core/similarity.py),
    over exact reals. */
module Similarity {
  import opened Models

  function Min(a: real, b: real): real { if a <= b then a else b }

  function Max(a: real, b: real): real { if a >= b then a else b }

  /** _calculate_property_similarity: a zero-aware min/max ratio. Two zeros are
      identical, a zero against a non-zero is maximally different, and otherwise
      the smaller value is divided by the larger. */
  function PropertySimilarity(val1: real, val2: real): (r: real)
    ensures val1 == val2 ==> r == 1.0
    ensures val1 >= 0.0 && val2 >= 0.0 ==>
              && 0.0 <= r <= 1.0
              && (r == 1.0 <==> val1 == val2)
              && (r == 0.0 <==> (val1 == 0.0) != (val2 == 0.0))
  {
    if val1 == 0.0 && val2 == 0.0 then 1.0
    else if val1 == 0.0 || val2 == 0.0 then 0.0
    else Min(val1, val2) / Max(val1, val2)
  }

  /** The same ratio for the three extents of two boxes, averaged. */
  function BoundingBoxSimilarity(bbox1: BoundingBox, bbox2: BoundingBox): (r: real)
    ensures ExtentsOf(bbox1) == ExtentsOf(bbox2) ==> r == 1.0
    ensures NonInverted(bbox1) && NonInverted(bbox2) ==>
              0.0 <= r <= 1.0 && (r == 1.0 <==> ExtentsOf(bbox1) == ExtentsOf(bbox2))
  {
    var dims1, dims2 := ExtentsOf(bbox1), ExtentsOf(bbox2);
    (PropertySimilarity(dims1.width, dims2.width)
     + PropertySimilarity(dims1.depth, dims2.depth)
     + PropertySimilarity(dims1.height, dims2.height)) / 3.0
  }

  /** calculate_similarity: equal hashes short-circuit to 1.0; otherwise the
      weighted sum 0.5 volume + 0.3 area + 0.2 bounding box. */
  function CalculateSimilarity(sig1: GeometricSignature, sig2: GeometricSignature): (r: real)
    ensures sig1.geometricHash == sig2.geometricHash ==> r == 1.0
    ensures WellFormed(sig1) && WellFormed(sig2) ==> 0.0 <= r <= 1.0
  {
    if sig1.geometricHash == sig2.geometricHash then 1.0
    else
      0.5 * PropertySimilarity(sig1.volume, sig2.volume)
      + 0.3 * PropertySimilarity(sig1.surfaceArea, sig2.surfaceArea)
      + 0.2 * BoundingBoxSimilarity(sig1.boundingBox, sig2.boundingBox)
  }

  /** Numeric fields that agree, whatever the hashes. */
  predicate SameMeasurements(sig1: GeometricSignature, sig2: GeometricSignature) {
    && sig1.volume == sig2.volume
    && sig1.surfaceArea == sig2.surfaceArea
    && ExtentsOf(sig1.boundingBox) == ExtentsOf(sig2.boundingBox)
  }

  lemma PropertySimilaritySymmetric(val1: real, val2: real)
    ensures PropertySimilarity(val1, val2) == PropertySimilarity(val2, val1)
  {
  }

  /** The ratio is scale-free: multiplying both values by the same positive
      factor leaves it unchanged. */
  lemma PropertySimilarityScaleInvariant(val1: real, val2: real, c: real)
    requires c > 0.0
    ensures PropertySimilarity(c * val1, c * val2) == PropertySimilarity(val1, val2)
  {
    if val1 != 0.0 && val2 != 0.0 {
      if val1 <= val2 {
        RatioScaleInvariant(val1, val2, c);
      } else {
        RatioScaleInvariant(val2, val1, c);
      }
    }
  }

  lemma RatioScaleInvariant(x: real, y: real, c: real)
    requires c > 0.0 && x != 0.0 && y != 0.0 && x <= y
    ensures Min(c * x, c * y) / Max(c * x, c * y) == x / y
  {
    assert c * x <= c * y;
    var q := x / y;
    assert x == q * y;
    assert c * x == q * (c * y);
  }

  lemma BoundingBoxSimilaritySymmetric(bbox1: BoundingBox, bbox2: BoundingBox)
    ensures BoundingBoxSimilarity(bbox1, bbox2) == BoundingBoxSimilarity(bbox2, bbox1)
  {
    var e1, e2 := ExtentsOf(bbox1), ExtentsOf(bbox2);
    PropertySimilaritySymmetric(e1.width, e2.width);
    PropertySimilaritySymmetric(e1.depth, e2.depth);
    PropertySimilaritySymmetric(e1.height, e2.height);
  }

  /** score(a, b) == score(b, a). */
  lemma SimilaritySymmetric(sig1: GeometricSignature, sig2: GeometricSignature)
    ensures CalculateSimilarity(sig1, sig2) == CalculateSimilarity(sig2, sig1)
  {
    PropertySimilaritySymmetric(sig1.volume, sig2.volume);
    PropertySimilaritySymmetric(sig1.surfaceArea, sig2.surfaceArea);
    BoundingBoxSimilaritySymmetric(sig1.boundingBox, sig2.boundingBox);
  }

  /** Equal measurements score 1.0 even when the hashes differ; in particular
      every signature scores 1.0 against itself. */
  lemma SameMeasurementsScoreOne(sig1: GeometricSignature, sig2: GeometricSignature)
    requires SameMeasurements(sig1, sig2)
    ensures CalculateSimilarity(sig1, sig2) == 1.0
  {
  }

  /** For well-formed signatures whose hashes differ, the score reaches 1.0
      exactly when volume, area and all three extents agree: the weights
      0.5, 0.3 and 0.2 sum to one and each sub-score is at most one. */
  lemma ScoreOneIffSameMeasurements(sig1: GeometricSignature, sig2: GeometricSignature)
    requires WellFormed(sig1) && WellFormed(sig2)
    requires sig1.geometricHash != sig2.geometricHash
    ensures CalculateSimilarity(sig1, sig2) == 1.0 <==> SameMeasurements(sig1, sig2)
  {
    var v := PropertySimilarity(sig1.volume, sig2.volume);
    var a := PropertySimilarity(sig1.surfaceArea, sig2.surfaceArea);
    var b := BoundingBoxSimilarity(sig1.boundingBox, sig2.boundingBox);
    assert CalculateSimilarity(sig1, sig2) == 0.5 * v + 0.3 * a + 0.2 * b;
  }

  /** A unit cube against a cube a hundred times as wide scores below 0.5. */
  lemma SmallVersusLargePartScoresLow()
    ensures
      var small := GeometricSignature(BoundingBox(0.0, 0.0, 0.0, 1.0, 1.0, 1.0), 1.0, 6.0, "abc123");
      var large := GeometricSignature(BoundingBox(0.0, 0.0, 0.0, 100.0, 100.0, 100.0), 1000000.0, 60000.0, "xyz789");
      CalculateSimilarity(small, large) < 0.5
  {
    assert PropertySimilarity(1.0, 1000000.0) == 1.0 / 1000000.0;
    assert PropertySimilarity(6.0, 60000.0) == 6.0 / 60000.0;
    assert PropertySimilarity(1.0, 100.0) == 1.0 / 100.0;
  }

  /** A part and a slightly larger variant with a different hash score
      strictly between 0.9 and 1.0. */
  lemma NearDuplicateScoresHigh()
    ensures
      var part := GeometricSignature(BoundingBox(0.0, 0.0, 0.0, 10.0, 5.0, 2.0), 100.0, 220.0, "abc123");
      var variant := GeometricSignature(BoundingBox(0.0, 0.0, 0.0, 10.1, 5.1, 2.0), 102.0, 224.0, "abc456");
      0.9 < CalculateSimilarity(part, variant) < 1.0
  {
    assert PropertySimilarity(100.0, 102.0) == 100.0 / 102.0;
    assert PropertySimilarity(220.0, 224.0) == 220.0 / 224.0;
    assert PropertySimilarity(10.0, 10.1) == 10.0 / 10.1;
    assert PropertySimilarity(5.0, 5.1) == 5.0 / 5.1;
    assert PropertySimilarity(2.0, 2.0) == 1.0;
  }
}
