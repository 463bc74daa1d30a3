/**
 * Two small computations the dashboard performs on normalised analyses:
 * the "directional corrections" list of an analysis card
 * (components/AnalysisCard.tsx) and the number of bias-flagged diseases in
 * a category summary (App.tsx).
 */
module Dashboard {
  import opened Types
  import Normalize

  /** `Math.sign` on a real number. */
  function Sign(x: real): (s: int)
    ensures s == 1 <==> x > 0.0
    ensures s == -1 <==> x < 0.0
    ensures s == 0 <==> x == 0.0
  {
    if x > 0.0 then 1 else if x < 0.0 then -1 else 0
  }

  /** A correction's global weight must exceed this in magnitude. */
  const CorrectionMagnitude := 0.1

  /**
   * The global and local models disagree on the sign of the weight, and the
   * global weight is not negligible: a local weight of zero counts as
   * disagreeing with a non-negligible global one.
   */
  predicate IsCorrection(f: Feature): (b: bool)
    ensures b <==> (f.globalWeight > CorrectionMagnitude && f.localWeight <= 0.0) ||
                   (f.globalWeight < -CorrectionMagnitude && f.localWeight >= 0.0)
  {
    Sign(f.globalWeight) != Sign(f.localWeight) && Abs(f.globalWeight) > CorrectionMagnitude
  }

  /** `features.filter(IsCorrection)`: only qualifying features of the input. */
  function Corrections(fs: seq<Feature>): (r: seq<Feature>)
    ensures |r| <= |fs|
    ensures forall k :: 0 <= k < |r| ==> IsCorrection(r[k]) && r[k] in fs
  {
    if fs == [] then []
    else
      var rest := Corrections(fs[1..]);
      assert forall k :: 0 <= k < |rest| ==> rest[k] in fs[1..] && rest[k] in fs;
      (if IsCorrection(fs[0]) then [fs[0]] else []) + rest
  }

  /** Filtering distributes over concatenation. */
  lemma {:induction false} CorrectionsAppend(a: seq<Feature>, b: seq<Feature>)
    ensures Corrections(a + b) == Corrections(a) + Corrections(b)
  {
    if a == [] {
      assert a + b == b;
    } else {
      assert (a + b)[1..] == a[1..] + b;
      CorrectionsAppend(a[1..], b);
    }
  }

  /**
   * Every qualifying feature is kept, at the position given by the number of
   * qualifying features before it.
   */
  lemma CorrectionKept(fs: seq<Feature>, i: int)
    requires 0 <= i < |fs| && IsCorrection(fs[i])
    ensures |Corrections(fs[..i])| < |Corrections(fs)|
    ensures Corrections(fs)[|Corrections(fs[..i])|] == fs[i]
  {
    assert fs == fs[..i] + ([fs[i]] + fs[i + 1..]);
    CorrectionsAppend(fs[..i], [fs[i]] + fs[i + 1..]);
    CorrectionsAppend([fs[i]], fs[i + 1..]);
    assert Corrections([fs[i]]) == [fs[i]];
  }

  /** Two kept features appear in the filtered list in their input order. */
  lemma CorrectionsKeepOrder(fs: seq<Feature>, i: int, j: int)
    requires 0 <= i < j < |fs| && IsCorrection(fs[i]) && IsCorrection(fs[j])
    ensures |Corrections(fs[..i])| < |Corrections(fs[..j])| < |Corrections(fs)|
    ensures Corrections(fs)[|Corrections(fs[..i])|] == fs[i]
    ensures Corrections(fs)[|Corrections(fs[..j])|] == fs[j]
  {
    CorrectionKept(fs, i);
    CorrectionKept(fs, j);
    assert fs[..j] == fs[..i] + ([fs[i]] + fs[i + 1..j]);
    CorrectionsAppend(fs[..i], [fs[i]] + fs[i + 1..j]);
    CorrectionsAppend([fs[i]], fs[i + 1..j]);
    assert Corrections([fs[i]]) == [fs[i]];
  }

  /**
   * In a normalised feature set, a correction is never labelled NEUTRAL:
   * its global weight exceeds 0.1 in magnitude, so its direction is the
   * sign of that weight.
   */
  lemma CorrectionHasDirection(ps: seq<string>, g: map<string, real>, l: map<string, real>)
    ensures forall f :: f in Corrections(Normalize.LoadAndNormalize(ps, g, l).features) ==>
      f.direction != Neutral && (f.direction == Positive <==> f.globalWeight > 0.0)
  {
    Normalize.DirectionMatchesSign(ps, g, l);
  }

  /** `data.filter(d => d.backendData.bias_flag).length`. */
  function BiasedCount(analyses: seq<DiseaseAnalysis>): (n: nat)
    ensures n <= |analyses|
    ensures n == 0 <==> forall i :: 0 <= i < |analyses| ==> !analyses[i].backendData.biasFlag
    ensures n == |analyses| <==> forall i :: 0 <= i < |analyses| ==> analyses[i].backendData.biasFlag
  {
    if analyses == [] then 0
    else
      assert forall i :: 1 <= i < |analyses| ==> analyses[i] == analyses[1..][i - 1];
      (if analyses[0].backendData.biasFlag then 1 else 0) + BiasedCount(analyses[1..])
  }

  /** Counting over concatenated category lists adds the per-list counts. */
  lemma {:induction false} BiasedCountAppend(a: seq<DiseaseAnalysis>, b: seq<DiseaseAnalysis>)
    ensures BiasedCount(a + b) == BiasedCount(a) + BiasedCount(b)
  {
    if a != [] {
      assert (a + b)[1..] == a[1..] + b;
      BiasedCountAppend(a[1..], b);
    } else {
      assert a + b == b;
    }
  }
}
