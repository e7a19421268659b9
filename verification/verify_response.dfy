/** The flat summary returned to the client. A field the summariser never
    sets stays `None`. */
module VerifyResponseDto {
  import opened Wrappers
  import C2paModel

  datatype ActionInfo = ActionInfo(action: Option<string>, digitalSourceType: Option<string>)

  datatype TrainingMiningEntry = TrainingMiningEntry(use: Option<string>, constraintsInfo: Option<string>)

  /** The two AI-usage categories, each independently optional. */
  datatype TrainingMiningInfo = TrainingMiningInfo(
    aiInference: Option<TrainingMiningEntry>,
    aiGenerativeTraining: Option<TrainingMiningEntry>)

  /** One signing-history record, one per embedded manifest. */
  datatype ManifestHistory = ManifestHistory(
    manifestLabel: Option<string>,
    title: Option<string>,
    signer: Option<string>,
    issuer: Option<string>,
    signedAt: Option<C2paModel.Instant>,
    algorithm: Option<string>,
    actions: Option<seq<ActionInfo>>,
    claimGenerator: Option<string>,
    trainingMining: Option<TrainingMiningInfo>)

  datatype VerifyResponse = VerifyResponse(
    title: Option<string>,
    signer: Option<string>,
    issuer: Option<string>,
    signedAt: Option<C2paModel.Instant>,
    algorithm: Option<string>,
    actions: Option<seq<ActionInfo>>,
    validationState: Option<string>,
    history: Option<seq<ManifestHistory>>,
    trainingMining: Option<TrainingMiningInfo>)

  /** A freshly constructed response: every field unset. */
  const NewResponse: VerifyResponse :=
    VerifyResponse(None, None, None, None, None, None, None, None, None)

  /** A freshly constructed history record: every field unset. */
  const NewHistory: ManifestHistory :=
    ManifestHistory(None, None, None, None, None, None, None, None, None)
}
