/**
 * The normaliser `loadAndNormalize` (services/dataService.ts): it merges a
 * parameter list with two sparse weight maps, scales every weight by one
 * shared maximum absolute value, labels each feature with the sign of its
 * scaled global weight, and raises a bias flag for a strongly weighted
 * genetic-marker parameter.
 */
module Normalize {
  import opened Types

  const StatusOk := "OK"
  const NormalizationMethod := "Max-Absolute Scaling"
  /** Parameters whose name contains this are sensitive for the bias flag. */
  const BiasMarker := "gene_marker"
  /** A sensitive parameter flags when its |scaled global weight| exceeds this. */
  const BiasThreshold := 0.85

  function Max(a: real, b: real): (r: real)
    ensures r >= a && r >= b
    ensures r == a || r == b
  {
    if a >= b then a else b
  }

  /** Every resolved weight, in both sources, is exactly zero. */
  predicate AllZero(ps: seq<string>, g: map<string, real>, l: map<string, real>)
  {
    forall i :: 0 <= i < |ps| ==> GetOrZero(g, ps[i]) == 0.0 && GetOrZero(l, ps[i]) == 0.0
  }

  /**
   * `Math.max` over the absolute values of both resolved weights of every
   * parameter: an upper bound of all of them that one of them attains.
   */
  function MaxAbs(ps: seq<string>, g: map<string, real>, l: map<string, real>): (m: real)
    ensures m >= 0.0
    ensures forall i :: 0 <= i < |ps| ==> Abs(GetOrZero(g, ps[i])) <= m && Abs(GetOrZero(l, ps[i])) <= m
    ensures ps == [] ==> m == 0.0
    ensures ps != [] ==>
      exists i :: 0 <= i < |ps| && (m == Abs(GetOrZero(g, ps[i])) || m == Abs(GetOrZero(l, ps[i])))
  {
    if ps == [] then 0.0
    else
      var rest := MaxAbs(ps[1..], g, l);
      var m := Max(Max(Abs(GetOrZero(g, ps[0])), Abs(GetOrZero(l, ps[0]))), rest);
      assert forall i :: 1 <= i < |ps| ==> ps[i] == ps[1..][i - 1];
      m
  }

  /**
   * The shared divisor: the maximum absolute weight, or 1.0 in its place
   * when that maximum is zero.
   */
  function Divisor(ps: seq<string>, g: map<string, real>, l: map<string, real>): (d: real)
    ensures d > 0.0
    ensures forall i :: 0 <= i < |ps| ==> Abs(GetOrZero(g, ps[i])) <= d && Abs(GetOrZero(l, ps[i])) <= d
    ensures AllZero(ps, g, l) ==> d == 1.0
    ensures !AllZero(ps, g, l) ==>
      exists i :: 0 <= i < |ps| && (d == Abs(GetOrZero(g, ps[i])) || d == Abs(GetOrZero(l, ps[i])))
  {
    var m := MaxAbs(ps, g, l);
    if m == 0.0 then 1.0 else m
  }

  /** The direction label of a scaled global weight. */
  function DirectionOf(scaled: real): (dir: Direction)
    ensures dir == Positive <==> scaled > 0.0
    ensures dir == Negative <==> scaled < 0.0
    ensures dir == Neutral <==> scaled == 0.0
  {
    if scaled > 0.0 then Positive else if scaled < 0.0 then Negative else Neutral
  }

  /** One output feature from a parameter, its two resolved weights and the divisor. */
  function ScaleFeature(p: string, wg: real, wl: real, d: real): (f: Feature)
    requires d > 0.0
    ensures f.parameter == p && f.globalWeight == wg && f.localWeight == wl
    ensures f.globalScaled * d == wg && f.localScaled * d == wl
    ensures Abs(wg) <= d ==> -1.0 <= f.globalScaled <= 1.0
    ensures Abs(wl) <= d ==> -1.0 <= f.localScaled <= 1.0
    ensures f.direction == Positive <==> wg > 0.0
    ensures f.direction == Negative <==> wg < 0.0
    ensures f.direction == Neutral <==> wg == 0.0
  {
    DivKeepsSign(wg, d);
    DivWithinUnit(wg, d);
    DivWithinUnit(wl, d);
    Feature(p, wg, wl, wg / d, wl / d, DirectionOf(wg / d))
  }

  /** The features in parameter order, all scaled by the same divisor. */
  function Features(ps: seq<string>, g: map<string, real>, l: map<string, real>): (fs: seq<Feature>)
    ensures |fs| == |ps|
    ensures forall i :: 0 <= i < |ps| ==>
      && fs[i].parameter == ps[i]
      && fs[i].globalWeight == GetOrZero(g, ps[i])
      && fs[i].localWeight == GetOrZero(l, ps[i])
      && fs[i].globalScaled == GetOrZero(g, ps[i]) / Divisor(ps, g, l)
      && fs[i].localScaled == GetOrZero(l, ps[i]) / Divisor(ps, g, l)
    ensures forall i :: 0 <= i < |ps| ==> (fs[i].direction == Positive <==> GetOrZero(g, ps[i]) > 0.0)
    ensures forall i :: 0 <= i < |ps| ==> (fs[i].direction == Negative <==> GetOrZero(g, ps[i]) < 0.0)
  {
    var d := Divisor(ps, g, l);
    var fs := seq(|ps|, i requires 0 <= i < |ps| => ScaleFeature(ps[i], GetOrZero(g, ps[i]), GetOrZero(l, ps[i]), d));
    assert forall i :: 0 <= i < |ps| ==> fs[i] == ScaleFeature(ps[i], GetOrZero(g, ps[i]), GetOrZero(l, ps[i]), d);
    fs
  }

  /** `sub` occurs in `s` starting at index `i`. */
  predicate OccursAt(s: string, sub: string, i: int)
  {
    0 <= i && i + |sub| <= |s| && s[i..i + |sub|] == sub
  }

  /** Dropping the first character of `s` shifts every occurrence but the one at 0. */
  lemma OccursShift(s: string, sub: string)
    requires |sub| <= |s| && s[..|sub|] != sub
    ensures (exists i :: OccursAt(s, sub, i)) <==> (exists j :: OccursAt(s[1..], sub, j))
  {
    forall j | OccursAt(s[1..], sub, j)
      ensures OccursAt(s, sub, j + 1)
    {
      assert s[1..][j..j + |sub|] == s[j + 1..j + 1 + |sub|];
    }
    forall i | OccursAt(s, sub, i)
      ensures OccursAt(s[1..], sub, i - 1)
    {
      assert s[..|sub|] == s[0..0 + |sub|];
      assert s[1..][i - 1..i - 1 + |sub|] == s[i..i + |sub|];
    }
  }

  /** `s.includes(sub)`: some position of `s` starts an occurrence of `sub`. */
  function Contains(s: string, sub: string): (b: bool)
    ensures b <==> exists i :: OccursAt(s, sub, i)
    decreases |s|
  {
    if |sub| > |s| then false
    else if s[..|sub|] == sub then
      assert OccursAt(s, sub, 0);
      true
    else
      OccursShift(s, sub);
      Contains(s[1..], sub)
  }

  /** The per-feature test of the bias rule. */
  predicate IsBiased(f: Feature): (b: bool)
    ensures b <==> ((exists i :: OccursAt(f.parameter, BiasMarker, i)) &&
      (f.globalScaled > BiasThreshold || f.globalScaled < -BiasThreshold))
  {
    Contains(f.parameter, BiasMarker) && Abs(f.globalScaled) > BiasThreshold
  }

  /** `features.some(IsBiased)`. */
  function AnyBiased(fs: seq<Feature>): (b: bool)
    ensures b <==> exists i :: 0 <= i < |fs| && IsBiased(fs[i])
  {
    if fs == [] then false
    else
      assert forall i :: 1 <= i < |fs| ==> fs[i] == fs[1..][i - 1];
      IsBiased(fs[0]) || AnyBiased(fs[1..])
  }

  /**
   * `loadAndNormalize(params, globalData, localData)`: one feature per
   * parameter, in order, with the raw weights copied (absent keys as 0) and
   * both scaled by the one shared divisor; the bias flag holds exactly when
   * some sensitive parameter's scaled global weight exceeds the threshold.
   */
  function LoadAndNormalize(ps: seq<string>, g: map<string, real>, l: map<string, real>): (r: BackendResponse)
    ensures r.status == StatusOk && r.normalization == NormalizationMethod
    ensures |r.features| == |ps|
    ensures forall i :: 0 <= i < |ps| ==>
      && r.features[i].parameter == ps[i]
      && r.features[i].globalWeight == GetOrZero(g, ps[i])
      && r.features[i].localWeight == GetOrZero(l, ps[i])
    ensures forall i :: 0 <= i < |ps| ==>
      && r.features[i].globalScaled == GetOrZero(g, ps[i]) / Divisor(ps, g, l)
      && r.features[i].localScaled == GetOrZero(l, ps[i]) / Divisor(ps, g, l)
    ensures forall i :: 0 <= i < |ps| ==>
      r.features[i].direction == DirectionOf(r.features[i].globalScaled)
    ensures r.biasFlag <==>
      exists i :: 0 <= i < |ps| && Contains(ps[i], BiasMarker)
                             && Abs(GetOrZero(g, ps[i]) / Divisor(ps, g, l)) > BiasThreshold
  {
    var fs := Features(ps, g, l);
    BackendResponse(StatusOk, fs, AnyBiased(fs), NormalizationMethod)
  }

  // ---------------------------------------------------------------------------
  // Properties of the normaliser

  /** Dividing by a bound of the magnitude lands in [-1, 1]. */
  lemma DivWithinUnit(w: real, d: real)
    requires d > 0.0
    ensures w / d * d == w
    ensures Abs(w) <= d ==> -1.0 <= w / d <= 1.0
  {
    var q := w / d;
    assert q * d == w;
  }

  /** Dividing a number by its own nonzero magnitude gives magnitude one. */
  lemma DivByOwnMagnitude(w: real, d: real)
    requires d > 0.0 && Abs(w) == d
    ensures Abs(w / d) == 1.0
  {
    if w < 0.0 {
      assert w == -d;
      assert w / d == (-d) / d == -1.0;
      assert Abs(-1.0) == 1.0;
    } else {
      assert w == d;
    }
  }

  /** Dividing by a positive number keeps the sign. */
  lemma DivKeepsSign(w: real, d: real)
    requires d > 0.0
    ensures w / d > 0.0 <==> w > 0.0
    ensures w / d < 0.0 <==> w < 0.0
    ensures w / d == 0.0 <==> w == 0.0
  {
    var q := w / d;
    assert q * d == w;
  }

  /** Every scaled weight, global and local, lies in [-1, 1]. */
  lemma ScaledWithinUnit(ps: seq<string>, g: map<string, real>, l: map<string, real>)
    ensures forall f :: f in LoadAndNormalize(ps, g, l).features ==>
      -1.0 <= f.globalScaled <= 1.0 && -1.0 <= f.localScaled <= 1.0
  {
    var r := LoadAndNormalize(ps, g, l);
    var d := Divisor(ps, g, l);
    forall i | 0 <= i < |ps|
      ensures -1.0 <= r.features[i].globalScaled <= 1.0 && -1.0 <= r.features[i].localScaled <= 1.0
    {
      DivWithinUnit(GetOrZero(g, ps[i]), d);
      DivWithinUnit(GetOrZero(l, ps[i]), d);
    }
  }

  /** When some weight is nonzero, some scaled weight has magnitude exactly 1. */
  lemma ScaledAttainsOne(ps: seq<string>, g: map<string, real>, l: map<string, real>)
    requires !AllZero(ps, g, l)
    ensures exists f :: (f in LoadAndNormalize(ps, g, l).features &&
      (Abs(f.globalScaled) == 1.0 || Abs(f.localScaled) == 1.0))
  {
    var r := LoadAndNormalize(ps, g, l);
    var d := Divisor(ps, g, l);
    var i :| 0 <= i < |ps| && (d == Abs(GetOrZero(g, ps[i])) || d == Abs(GetOrZero(l, ps[i])));
    var f := r.features[i];
    assert f in r.features;
    if d == Abs(GetOrZero(g, ps[i])) {
      DivByOwnMagnitude(GetOrZero(g, ps[i]), d);
    } else {
      DivByOwnMagnitude(GetOrZero(l, ps[i]), d);
    }
  }

  /** With every weight zero the divisor is 1.0 and every feature is zero and NEUTRAL. */
  lemma AllZeroIsNeutral(ps: seq<string>, g: map<string, real>, l: map<string, real>)
    requires AllZero(ps, g, l)
    ensures Divisor(ps, g, l) == 1.0
    ensures forall f :: f in LoadAndNormalize(ps, g, l).features ==>
      f.globalScaled == 0.0 && f.localScaled == 0.0 && f.direction == Neutral
    ensures !LoadAndNormalize(ps, g, l).biasFlag
  {
    var r := LoadAndNormalize(ps, g, l);
    forall i | 0 <= i < |ps|
      ensures r.features[i].globalScaled == 0.0 && r.features[i].localScaled == 0.0
    {
      assert GetOrZero(g, ps[i]) == 0.0 && GetOrZero(l, ps[i]) == 0.0;
    }
  }

  /**
   * Direction agrees with the sign of the scaled global weight and, because
   * the divisor is positive, with the sign of the raw global weight too.
   */
  lemma DirectionMatchesSign(ps: seq<string>, g: map<string, real>, l: map<string, real>)
    ensures forall f :: f in LoadAndNormalize(ps, g, l).features ==>
      && (f.direction == Positive <==> f.globalScaled > 0.0 && f.globalWeight > 0.0)
      && (f.direction == Negative <==> f.globalScaled < 0.0 && f.globalWeight < 0.0)
      && (f.direction == Neutral <==> f.globalScaled == 0.0 && f.globalWeight == 0.0)
  {
    var r := LoadAndNormalize(ps, g, l);
    forall i | 0 <= i < |ps|
      ensures (r.features[i].globalScaled > 0.0 <==> r.features[i].globalWeight > 0.0)
           && (r.features[i].globalScaled < 0.0 <==> r.features[i].globalWeight < 0.0)
           && (r.features[i].globalScaled == 0.0 <==> r.features[i].globalWeight == 0.0)
    {
      DivKeepsSign(GetOrZero(g, ps[i]), Divisor(ps, g, l));
    }
  }

  /** An empty parameter list gives no features, no bias flag, and status "OK". */
  lemma EmptyParameters(g: map<string, real>, l: map<string, real>)
    ensures LoadAndNormalize([], g, l) == BackendResponse(StatusOk, [], false, NormalizationMethod)
  {
  }

  /** The examples of the bias rule: a dominant marker flags, a small one does not. */
  lemma BiasFlagExamples()
    ensures LoadAndNormalize(["gene_marker_x", "age"], map["gene_marker_x" := 10.0, "age" := 1.0], map[]).biasFlag
    ensures !LoadAndNormalize(["gene_marker_x", "age"], map["gene_marker_x" := 0.5, "age" := 1.0], map[]).biasFlag
  {
    var ps := ["gene_marker_x", "age"];
    assert OccursAt(ps[0], BiasMarker, 0);
    var g1 := map["gene_marker_x" := 10.0, "age" := 1.0];
    assert Divisor(ps, g1, map[]) == 10.0;
    var g2 := map["gene_marker_x" := 0.5, "age" := 1.0];
    assert Divisor(ps, g2, map[]) == 1.0;
    assert !Contains(ps[1], BiasMarker);
  }

  /** The threshold is strict: a marker scaled to exactly 0.85 does not flag. */
  lemma BiasThresholdIsStrict()
    ensures !LoadAndNormalize(["gene_marker_A", "age"], map["gene_marker_A" := 0.85, "age" := 1.0], map[]).biasFlag
  {
    var ps := ["gene_marker_A", "age"];
    var g := map["gene_marker_A" := 0.85, "age" := 1.0];
    assert Divisor(ps, g, map[]) == 1.0;
    assert !Contains(ps[1], BiasMarker);
  }

  /** Sparse input never fails: a parameter absent from both maps becomes an all-zero NEUTRAL feature. */
  lemma ZeroDivisionSafety()
    ensures LoadAndNormalize(["p"], map[], map[]) ==
      BackendResponse(StatusOk, [Feature("p", 0.0, 0.0, 0.0, 0.0, Neutral)], false, NormalizationMethod)
  {
    var r := LoadAndNormalize(["p"], map[], map[]);
    assert Divisor(["p"], map[], map[]) == 1.0;
    assert r.features == [Feature("p", 0.0, 0.0, 0.0, 0.0, Neutral)];
  }
}
