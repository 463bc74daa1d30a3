/**
 * The predictor `predictOutcome` (services/dataService.ts): a weighted sum of
 * a patient's values against an analysis's raw global weights, normalised by
 * the total weight magnitude and compared with a fixed threshold.
 */
module Predictor {
  import opened Types

  const PositiveOutcome := "Positive Outcome"
  const NegativeOutcome := "Negative Outcome"
  /** A normalised score strictly above this predicts the positive outcome. */
  const Threshold := 0.1

  /** The object `predictOutcome` returns. */
  datatype Prediction = Prediction(confidence: real, result: string)

  /** One feature's contribution `val * f.global_weight` to the score. */
  function Term(f: Feature, patient: map<string, real>): real
  {
    GetOrZero(patient, f.parameter) * f.globalWeight
  }

  /** `Σ val · global_weight`, accumulated in feature order. */
  function Score(fs: seq<Feature>, patient: map<string, real>): (s: real)
    ensures (forall i :: 0 <= i < |fs| ==> fs[i].globalWeight == 0.0) ==> s == 0.0
    ensures (forall i :: 0 <= i < |fs| ==> GetOrZero(patient, fs[i].parameter) == 0.0) ==> s == 0.0
  {
    if fs == [] then 0.0
    else
      assert forall i :: 0 <= i < |fs| - 1 ==> fs[..|fs| - 1][i] == fs[i];
      Score(fs[..|fs| - 1], patient) + Term(fs[|fs| - 1], patient)
  }

  /** `Σ |global_weight|`: zero exactly when every global weight is zero. */
  function TotalWeight(fs: seq<Feature>): (t: real)
    ensures t >= 0.0
    ensures t == 0.0 <==> forall i :: 0 <= i < |fs| ==> fs[i].globalWeight == 0.0
  {
    if fs == [] then 0.0
    else
      assert forall i :: 0 <= i < |fs| - 1 ==> fs[..|fs| - 1][i] == fs[i];
      TotalWeight(fs[..|fs| - 1]) + Abs(fs[|fs| - 1].globalWeight)
  }

  /** `score / (totalWeight || 1)`. */
  function Ratio(score: real, totalWeight: real): real
  {
    score / (if totalWeight == 0.0 then 1.0 else totalWeight)
  }

  /** The score normalised by the total weight magnitude. */
  function NormalizedScore(fs: seq<Feature>, patient: map<string, real>): (q: real)
    ensures (forall i :: 0 <= i < |fs| ==> fs[i].globalWeight == 0.0) ==> q == 0.0
    ensures (forall i :: 0 <= i < |fs| ==> GetOrZero(patient, fs[i].parameter) == 0.0) ==> q == 0.0
  {
    Ratio(Score(fs, patient), TotalWeight(fs))
  }

  /** The outcome label for a normalised score. */
  function OutcomeOf(normalizedScore: real): (s: string)
    ensures s == PositiveOutcome <==> normalizedScore > Threshold
    ensures s == PositiveOutcome || s == NegativeOutcome
  {
    if normalizedScore > Threshold then PositiveOutcome else NegativeOutcome
  }

  /**
   * `Math.min(0.99, 0.75 + Math.random() * 0.2)`, with the random draw in
   * [0, 1) passed in.
   */
  function Confidence(draw: real): (c: real)
    requires 0.0 <= draw < 1.0
    ensures 0.75 <= c <= 0.99
    ensures c < 0.95
  {
    var c := 0.75 + draw * 0.2;
    if c < 0.99 then c else 0.99
  }

  /**
   * `predictOutcome(analysis, patientData)`: one pass over the features
   * accumulating the score and the total weight magnitude.
   */
  method PredictOutcome(analysis: DiseaseAnalysis, patient: map<string, real>, draw: real)
    returns (p: Prediction)
    requires 0.0 <= draw < 1.0
    ensures p.confidence == Confidence(draw)
    ensures 0.75 <= p.confidence <= 0.99
    ensures p.result == OutcomeOf(NormalizedScore(analysis.backendData.features, patient))
    ensures p.result == PositiveOutcome <==> NormalizedScore(analysis.backendData.features, patient) > Threshold
  {
    var fs := analysis.backendData.features;
    var score := 0.0;
    var totalWeight := 0.0;
    var i := 0;
    while i < |fs|
      invariant 0 <= i <= |fs|
      invariant score == Score(fs[..i], patient)
      invariant totalWeight == TotalWeight(fs[..i])
    {
      var f := fs[i];
      var val := GetOrZero(patient, f.parameter);
      assert fs[..i + 1][..i] == fs[..i];
      assert Score(fs[..i + 1], patient) == score + Term(f, patient);
      assert TotalWeight(fs[..i + 1]) == totalWeight + Abs(f.globalWeight);
      score := score + val * f.globalWeight;
      totalWeight := totalWeight + Abs(f.globalWeight);
      i := i + 1;
    }
    assert fs[..i] == fs;
    var normalizedScore := score / (if totalWeight == 0.0 then 1.0 else totalWeight);
    assert normalizedScore == NormalizedScore(fs, patient);
    var confidence := Confidence(draw);
    p := Prediction(confidence, if normalizedScore > Threshold then PositiveOutcome else NegativeOutcome);
  }

  // ---------------------------------------------------------------------------
  // Properties of the predictor

  /** The most a feature can contribute when the patient's value lies in [-b, b]. */
  function MaxContribution(f: Feature, b: real): real
  {
    b * Abs(f.globalWeight)
  }

  /** |val · w| is at most b · |w| when |val| is at most b. */
  lemma TermBound(f: Feature, patient: map<string, real>, b: real)
    requires Abs(GetOrZero(patient, f.parameter)) <= b
    ensures -MaxContribution(f, b) <= Term(f, patient) <= MaxContribution(f, b)
  {
    var v, w := GetOrZero(patient, f.parameter), f.globalWeight;
    if w >= 0.0 {
      NonNegativeProduct(b - v, w);
      NonNegativeProduct(b + v, w);
    } else {
      NonNegativeProduct(b - v, -w);
      NonNegativeProduct(b + v, -w);
    }
  }

  lemma NonNegativeProduct(x: real, y: real)
    requires x >= 0.0 && y >= 0.0
    ensures x * y >= 0.0
  {
  }

  /** `Σ b · |global_weight|`, the bound on the score when every value lies in [-b, b]. */
  function WeightBound(fs: seq<Feature>, b: real): real
  {
    if fs == [] then 0.0
    else WeightBound(fs[..|fs| - 1], b) + MaxContribution(fs[|fs| - 1], b)
  }

  lemma Distribute(b: real, x: real, y: real)
    ensures b * (x + y) == b * x + b * y
  {
  }

  lemma {:induction false} WeightBoundIsScaledTotal(fs: seq<Feature>, b: real)
    ensures WeightBound(fs, b) == b * TotalWeight(fs)
  {
    if fs != [] {
      var init := fs[..|fs| - 1];
      WeightBoundIsScaledTotal(init, b);
      Distribute(b, TotalWeight(init), Abs(fs[|fs| - 1].globalWeight));
    }
  }

  lemma {:induction false} ScoreWithinWeightBound(fs: seq<Feature>, patient: map<string, real>, b: real)
    requires forall i :: 0 <= i < |fs| ==> Abs(GetOrZero(patient, fs[i].parameter)) <= b
    ensures -WeightBound(fs, b) <= Score(fs, patient) <= WeightBound(fs, b)
  {
    if fs != [] {
      var init := fs[..|fs| - 1];
      ScoreWithinWeightBound(init, patient, b);
      TermBound(fs[|fs| - 1], patient, b);
    }
  }

  /** A product with a positive factor that is not positive has a non-positive other factor. */
  lemma NonPositiveFactor(x: real, t: real)
    requires t > 0.0 && x * t <= 0.0
    ensures x <= 0.0
  {
  }

  /**
   * Dividing a score within b times a non-negative total by that total (or
   * by 1 when it is zero) lands within b.
   */
  lemma RatioBound(s: real, t: real, b: real)
    requires b >= 0.0 && t >= 0.0 && -(b * t) <= s <= b * t
    ensures -b <= Ratio(s, t) <= b
  {
    if t == 0.0 {
      assert b * t == 0.0;
    } else {
      var q := Ratio(s, t);
      assert q * t == s;
      NonPositiveFactor(q - b, t);
      NonPositiveFactor(-b - q, t);
    }
  }

  /** Any value within b times the features' total weight, divided by that total, lies within b. */
  lemma DividedByTotal(fs: seq<Feature>, s: real, b: real)
    requires b >= 0.0 && -(b * TotalWeight(fs)) <= s <= b * TotalWeight(fs)
    ensures -b <= Ratio(s, TotalWeight(fs)) <= b
  {
    RatioBound(s, TotalWeight(fs), b);
  }

  /** With every patient value in [-b, b], the score is within b times the total weight. */
  lemma ScoreBound(fs: seq<Feature>, patient: map<string, real>, b: real)
    requires forall i :: 0 <= i < |fs| ==> Abs(GetOrZero(patient, fs[i].parameter)) <= b
    ensures -(b * TotalWeight(fs)) <= Score(fs, patient) <= b * TotalWeight(fs)
  {
    ScoreWithinWeightBound(fs, patient, b);
    WeightBoundIsScaledTotal(fs, b);
  }

  /** With every patient value in [-b, b] (b >= 0), the normalised score lies in [-b, b]. */
  lemma NormalizedScoreBound(fs: seq<Feature>, patient: map<string, real>, b: real)
    requires b >= 0.0
    requires forall i :: 0 <= i < |fs| ==> Abs(GetOrZero(patient, fs[i].parameter)) <= b
    ensures -b <= NormalizedScore(fs, patient) <= b
  {
    ScoreBound(fs, patient, b);
    DividedByTotal(fs, Score(fs, patient), b);
  }

  /** Patient values all within [-0.1, 0.1] can never predict the positive outcome. */
  lemma SmallValuesPredictNegative(fs: seq<Feature>, patient: map<string, real>)
    requires forall i :: 0 <= i < |fs| ==> Abs(GetOrZero(patient, fs[i].parameter)) <= Threshold
    ensures OutcomeOf(NormalizedScore(fs, patient)) == NegativeOutcome
  {
    NormalizedScoreBound(fs, patient, Threshold);
  }

  /**
   * All-zero weights (an empty feature list included) give total weight 0,
   * divisor 1, normalised score 0 and the negative outcome.
   */
  lemma ZeroWeightsPredictNegative(fs: seq<Feature>, patient: map<string, real>)
    requires forall i :: 0 <= i < |fs| ==> fs[i].globalWeight == 0.0
    ensures TotalWeight(fs) == 0.0
    ensures NormalizedScore(fs, patient) == 0.0
    ensures OutcomeOf(NormalizedScore(fs, patient)) == NegativeOutcome
  {
  }

  /** The threshold examples: 0.2 against a unit weight is positive, 0.05 is not. */
  lemma ThresholdExamples()
    ensures var fs := [Feature("x", 1.0, 0.0, 1.0, 0.0, Positive)];
      OutcomeOf(NormalizedScore(fs, map["x" := 0.2])) == PositiveOutcome &&
      OutcomeOf(NormalizedScore(fs, map["x" := 0.05])) == NegativeOutcome
  {
    var fs := [Feature("x", 1.0, 0.0, 1.0, 0.0, Positive)];
    assert fs[..0] == [];
    assert TotalWeight(fs) == 1.0;
    assert Score(fs, map["x" := 0.2]) == 0.2;
    assert Score(fs, map["x" := 0.05]) == 0.05;
  }
}
