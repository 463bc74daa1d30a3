/**
 * The value types the dashboard passes around (types.ts), and the two small
 * numeric helpers every other module shares: absolute value and the
 * "missing key reads as zero" lookup on a sparse weight or input map.
 */
module Types {

  datatype Option<+T> = None | Some(value: T)

  /** Sign class of a feature's scaled global weight. */
  datatype Direction = Positive | Negative | Neutral

  /** One parameter of a normalised feature set (`WeightData`). */
  datatype Feature = Feature(
    parameter: string,
    globalWeight: real,
    localWeight: real,
    globalScaled: real,
    localScaled: real,
    direction: Direction)

  /** What the normaliser returns (`BackendResponse`). */
  datatype BackendResponse = BackendResponse(
    status: string,
    features: seq<Feature>,
    biasFlag: bool,
    normalization: string)

  datatype Category = Genetic | Sexual | Mental

  /**
   * One analysed disease (`DiseaseAnalysis`). The two top features are
   * optional here: for an empty feature list the source reads index 0 of an
   * empty array and gets `undefined`.
   */
  datatype DiseaseAnalysis = DiseaseAnalysis(
    id: string,
    name: string,
    category: Category,
    backendData: BackendResponse,
    topPositive: Option<Feature>,
    topNegative: Option<Feature>)

  function Abs(x: real): (r: real)
    ensures r >= 0.0
    ensures r == x || r == -x
  {
    if x < 0.0 then -x else x
  }

  /** `m[k] ?? 0`: a key absent from a sparse map reads as weight zero. */
  function GetOrZero(m: map<string, real>, k: string): (r: real)
    ensures k in m ==> r == m[k]
    ensures k !in m ==> r == 0.0
  {
    if k in m then m[k] else 0.0
  }
}
