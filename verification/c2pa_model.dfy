/** The deserialised C2PA reader result, as the summariser sees it.
    Only the fields the summariser reads are kept; each nullable Java
    reference is an `Option`. */
module C2paModel {
  import opened Wrappers

  /** A signing instant. Only its ordering matters to the summariser. */
  type Instant = int

  /** One recorded operation on the content. */
  datatype Action = Action(action: Option<string>, digitalSourceType: Option<string>)

  /** One AI-usage declaration of a training-mining assertion. `use` is the
      upstream string ("allowed", "notAllowed", "constrained"), kept verbatim. */
  datatype TrainingMiningEntry = TrainingMiningEntry(use: Option<string>, constraintsInfo: Option<string>)

  /** The payload of an assertion. Its shape depends on the assertion's label,
      but nothing stops both parts from being present. */
  datatype AssertionData = AssertionData(
    actions: Option<seq<Action>>,
    entries: Option<map<string, TrainingMiningEntry>>)

  datatype Assertion = Assertion(data: Option<AssertionData>, assertionLabel: Option<string>)

  datatype ClaimGeneratorInfo = ClaimGeneratorInfo(name: Option<string>)

  datatype SignatureInfo = SignatureInfo(
    alg: Option<string>,
    commonName: Option<string>,
    issuer: Option<string>,
    time: Option<Instant>)

  datatype Manifest = Manifest(
    assertions: Option<seq<Assertion>>,
    claimGeneratorInfo: Option<seq<ClaimGeneratorInfo>>,
    manifestLabel: Option<string>,
    signatureInfo: Option<SignatureInfo>,
    title: Option<string>)

  /** The root object. `manifests` lists the entries of the label-to-manifest
      map in the map's iteration order. */
  datatype C2paManifest = C2paManifest(
    activeManifest: Option<string>,
    manifests: Option<seq<(string, Manifest)>>,
    validationState: Option<string>)

  /** The entries come from a map: no label occurs twice. */
  predicate DistinctLabels(ms: seq<(string, Manifest)>) {
    forall i, j :: 0 <= i < j < |ms| ==> ms[i].0 != ms[j].0
  }
}
