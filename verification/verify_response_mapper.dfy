/** The summariser: turns a C2PA reader result into the flat verify
    response. Two folds over a manifest's assertions with different
    semantics (actions accumulate, training-mining is decided by the first
    match), a lookup of the active manifest that may miss, and the signing
    history sorted newest first. */
module VerifyResponseMapper {
  import opened Wrappers
  import opened C2paModel
  import opened VerifyResponseDto
  import opened HistoryOrder
  import opened Sequences

  const ActionsLabel := "c2pa.actions.v2"
  const TrainingMiningLabel := "cawg.training-mining"
  const InferenceKey := "c2pa.ai_inference"
  const GenerativeTrainingKey := "c2pa.ai_generative_training"

  // ---------------------------------------------------------------------
  // Actions: every action list under the actions label, in order.
  // ---------------------------------------------------------------------

  function ToActionInfo(a: Action): (r: ActionInfo)
    ensures r.action == a.action && r.digitalSourceType == a.digitalSourceType
  {
    ActionInfo(a.action, a.digitalSourceType)
  }

  /** An assertion that contributes actions: the actions label, with a
      payload that carries an action list. */
  predicate ContributesActions(a: Assertion) {
    a.assertionLabel == Some(ActionsLabel) && a.data.Some? && a.data.value.actions.Some?
  }

  /** What one assertion adds to the extracted actions. */
  function ActionsOf(a: Assertion): (r: seq<ActionInfo>)
    ensures !ContributesActions(a) ==> r == []
    ensures ContributesActions(a) ==>
      && |r| == |a.data.value.actions.value|
      && forall k :: 0 <= k < |r| ==> r[k] == ToActionInfo(a.data.value.actions.value[k])
  {
    if ContributesActions(a) then
      var acts := a.data.value.actions.value;
      seq(|acts|, k requires 0 <= k < |acts| => ToActionInfo(acts[k]))
    else []
  }

  /** The accumulating fold: the contributions of all assertions, in order. */
  function ActionsFrom(assertions: seq<Assertion>): seq<ActionInfo> {
    if |assertions| == 0 then []
    else ActionsOf(assertions[0]) + ActionsFrom(assertions[1..])
  }

  /** `extractActions`: never absent; an absent assertion list gives none. */
  function ExtractActions(m: Manifest): (r: seq<ActionInfo>)
    ensures m.assertions.None? ==> r == []
    ensures m.assertions.Some? ==> r == ActionsFrom(m.assertions.value)
  {
    match m.assertions
    case None => []
    case Some(assertions) => ActionsFrom(assertions)
  }

  /** The fold is a homomorphism from assertion lists to action lists:
      splitting the assertions splits the actions at the same place. With
      `ActionsFromSingle` this fixes the result: the order of the assertions
      and the order within each action list are both kept. */
  lemma {:induction false} ActionsFromConcat(xs: seq<Assertion>, ys: seq<Assertion>)
    ensures ActionsFrom(xs + ys) == ActionsFrom(xs) + ActionsFrom(ys)
  {
    if |xs| == 0 {
      assert xs + ys == ys;
    } else {
      ActionsFromConcat(xs[1..], ys);
      var zs := xs + ys;
      DropFirstOfAppend(xs, ys);
      var head, mid, tail := ActionsOf(xs[0]), ActionsFrom(xs[1..]), ActionsFrom(ys);
      calc {
        ActionsFrom(zs);
        head + ActionsFrom(xs[1..] + ys);
        head + (mid + tail);
        { AppendAssociative(head, mid, tail); }
        (head + mid) + tail;
      }
    }
  }

  /** One assertion contributes exactly its own actions. */
  lemma ActionsFromSingle(a: Assertion)
    ensures ActionsFrom([a]) == ActionsOf(a)
  {
    assert [a][1..] == [];
  }

  /** An action is extracted exactly when some assertion contributes it. */
  lemma {:induction false} ActionsFromMembers(assertions: seq<Assertion>, x: ActionInfo)
    ensures x in ActionsFrom(assertions) <==>
      exists i :: 0 <= i < |assertions| && x in ActionsOf(assertions[i])
  {
    if |assertions| > 0 {
      ActionsFromMembers(assertions[1..], x);
      if x in ActionsFrom(assertions[1..]) {
        var i :| 0 <= i < |assertions[1..]| && x in ActionsOf(assertions[1..][i]);
        assert assertions[1..][i] == assertions[i + 1];
      }
      if exists i :: 0 <= i < |assertions| && x in ActionsOf(assertions[i]) {
        var i :| 0 <= i < |assertions| && x in ActionsOf(assertions[i]);
        if i > 0 {
          assert assertions[1..][i - 1] == assertions[i];
        }
      }
    }
  }

  /** An assertion that does not contribute (another label, or no usable
      payload) can be dropped without changing the extracted actions. */
  lemma NonContributingAssertionIgnored(assertions: seq<Assertion>, i: nat)
    requires i < |assertions| && !ContributesActions(assertions[i])
    ensures ActionsFrom(assertions[..i] + assertions[i + 1..]) == ActionsFrom(assertions)
  {
    assert assertions == assertions[..i] + ([assertions[i]] + assertions[i + 1..]);
    ActionsFromConcat(assertions[..i], [assertions[i]] + assertions[i + 1..]);
    ActionsFromConcat([assertions[i]], assertions[i + 1..]);
    ActionsFromSingle(assertions[i]);
    ActionsFromConcat(assertions[..i], assertions[i + 1..]);
  }

  // ---------------------------------------------------------------------
  // Training-mining: the first qualifying assertion decides.
  // ---------------------------------------------------------------------

  /** An assertion that decides the training-mining result: the
      training-mining label, with a payload that carries an entry map. */
  predicate DecidesTrainingMining(a: Assertion) {
    a.assertionLabel == Some(TrainingMiningLabel) && a.data.Some? && a.data.value.entries.Some?
  }

  function ToResponseEntry(e: C2paModel.TrainingMiningEntry): (r: VerifyResponseDto.TrainingMiningEntry)
    ensures r.use == e.use && r.constraintsInfo == e.constraintsInfo
  {
    VerifyResponseDto.TrainingMiningEntry(e.use, e.constraintsInfo)
  }

  /** Reads the two AI-usage keys independently; a missing key leaves its
      field absent, a present one is copied without any default. */
  function TrainingMiningInfoOf(entries: map<string, C2paModel.TrainingMiningEntry>): (r: TrainingMiningInfo)
    ensures r.aiInference.Some? <==> InferenceKey in entries
    ensures InferenceKey in entries ==>
      r.aiInference.value.use == entries[InferenceKey].use &&
      r.aiInference.value.constraintsInfo == entries[InferenceKey].constraintsInfo
    ensures r.aiGenerativeTraining.Some? <==> GenerativeTrainingKey in entries
    ensures GenerativeTrainingKey in entries ==>
      r.aiGenerativeTraining.value.use == entries[GenerativeTrainingKey].use &&
      r.aiGenerativeTraining.value.constraintsInfo == entries[GenerativeTrainingKey].constraintsInfo
  {
    TrainingMiningInfo(
      if InferenceKey in entries then Some(ToResponseEntry(entries[InferenceKey])) else None,
      if GenerativeTrainingKey in entries then Some(ToResponseEntry(entries[GenerativeTrainingKey])) else None)
  }

  /** `i` is the first assertion that decides the training-mining result. */
  predicate FirstDecider(assertions: seq<Assertion>, i: int) {
    && 0 <= i < |assertions|
    && DecidesTrainingMining(assertions[i])
    && forall j :: 0 <= j < i ==> !DecidesTrainingMining(assertions[j])
  }

  /** The first-match fold: absent exactly when no assertion decides, and
      otherwise read from the first assertion that does. */
  function TrainingMiningFrom(assertions: seq<Assertion>): (r: Option<TrainingMiningInfo>)
    ensures r.None? <==> forall i :: 0 <= i < |assertions| ==> !DecidesTrainingMining(assertions[i])
    ensures forall i :: FirstDecider(assertions, i) ==>
      r == Some(TrainingMiningInfoOf(assertions[i].data.value.entries.value))
  {
    if |assertions| == 0 then None
    else if DecidesTrainingMining(assertions[0]) then
      Some(TrainingMiningInfoOf(assertions[0].data.value.entries.value))
    else
      var r := TrainingMiningFrom(assertions[1..]);
      TrainingMiningSkipsFirst(assertions, r);
      r
  }

  /** The step of `TrainingMiningFrom` past an assertion that does not decide. */
  lemma TrainingMiningSkipsFirst(assertions: seq<Assertion>, r: Option<TrainingMiningInfo>)
    requires |assertions| > 0 && !DecidesTrainingMining(assertions[0])
    requires r.None? <==> forall i :: 0 <= i < |assertions[1..]| ==> !DecidesTrainingMining(assertions[1..][i])
    requires forall i :: FirstDecider(assertions[1..], i) ==>
      r == Some(TrainingMiningInfoOf(assertions[1..][i].data.value.entries.value))
    ensures r.None? <==> forall i :: 0 <= i < |assertions| ==> !DecidesTrainingMining(assertions[i])
    ensures forall i :: FirstDecider(assertions, i) ==>
      r == Some(TrainingMiningInfoOf(assertions[i].data.value.entries.value))
  {
    var tail := assertions[1..];
    assert forall i :: 1 <= i < |assertions| ==> tail[i - 1] == assertions[i];
    forall i | FirstDecider(assertions, i)
      ensures r == Some(TrainingMiningInfoOf(assertions[i].data.value.entries.value))
    {
      assert i > 0;
      assert FirstDecider(tail, i - 1) by {
        forall j | 0 <= j < i - 1
          ensures !DecidesTrainingMining(tail[j])
        {
          assert tail[j] == assertions[j + 1];
        }
      }
    }
  }

  /** `extractTrainingMining`: absent when the assertion list is absent. */
  function ExtractTrainingMining(m: Manifest): (r: Option<TrainingMiningInfo>)
    ensures m.assertions.None? ==> r.None?
    ensures m.assertions.Some? ==> r == TrainingMiningFrom(m.assertions.value)
  {
    match m.assertions
    case None => None
    case Some(assertions) => TrainingMiningFrom(assertions)
  }

  /** First match wins across concatenation: once a prefix has decided,
      nothing after it is looked at. */
  lemma {:induction false} TrainingMiningFromConcat(xs: seq<Assertion>, ys: seq<Assertion>)
    ensures TrainingMiningFrom(xs + ys) ==
      if TrainingMiningFrom(xs).Some? then TrainingMiningFrom(xs) else TrainingMiningFrom(ys)
  {
    if |xs| == 0 {
      assert xs + ys == ys;
    } else {
      DropFirstOfAppend(xs, ys);
      if !DecidesTrainingMining(xs[0]) {
        TrainingMiningFromConcat(xs[1..], ys);
      }
    }
  }

  // ---------------------------------------------------------------------
  // The active manifest and the history.
  // ---------------------------------------------------------------------

  /** `manifests.get(label)` over the entries in iteration order. */
  function FindManifest(ms: seq<(string, Manifest)>, key: string): (r: Option<Manifest>)
    ensures r.None? <==> forall i :: 0 <= i < |ms| ==> ms[i].0 != key
    ensures r.Some? ==> exists i :: 0 <= i < |ms| && ms[i] == (key, r.value)
  {
    if |ms| == 0 then None
    else if ms[0].0 == key then Some(ms[0].1)
    else
      var r := FindManifest(ms[1..], key);
      assert forall i :: 1 <= i < |ms| ==> ms[1..][i - 1] == ms[i];
      r
  }

  /** With distinct labels the lookup finds precisely the manifest stored
      under the label, whatever the iteration order. This follows from the
      lookup's contract: a hit is some entry under the label, and no other
      entry carries it. */
  lemma FindManifestByLabel(ms: seq<(string, Manifest)>, key: string, m: Manifest)
    requires DistinctLabels(ms)
    ensures FindManifest(ms, key) == Some(m) <==> (key, m) in ms
  {
  }

  /** `createManifestHistory`: one record for one manifest. */
  function CreateManifestHistory(m: Manifest): (r: ManifestHistory)
    ensures r.manifestLabel == m.manifestLabel && r.title == m.title
    ensures m.signatureInfo.None? ==>
      r.signer.None? && r.issuer.None? && r.signedAt.None? && r.algorithm.None?
    ensures m.signatureInfo.Some? ==>
      var s := m.signatureInfo.value;
      r.signer == s.commonName && r.issuer == s.issuer && r.signedAt == s.time && r.algorithm == s.alg
    ensures r.claimGenerator.Some? ==>
      m.claimGeneratorInfo.Some? && |m.claimGeneratorInfo.value| > 0 &&
      r.claimGenerator == m.claimGeneratorInfo.value[0].name
    ensures m.claimGeneratorInfo.Some? && |m.claimGeneratorInfo.value| > 0 ==>
      r.claimGenerator == m.claimGeneratorInfo.value[0].name
    ensures r.actions == Some(ExtractActions(m))
    ensures r.trainingMining == ExtractTrainingMining(m)
  {
    var item := NewHistory.(manifestLabel := m.manifestLabel, title := m.title);
    var item := match m.signatureInfo
      case None => item
      case Some(s) => item.(signer := s.commonName, issuer := s.issuer, signedAt := s.time, algorithm := s.alg);
    var item := match m.claimGeneratorInfo
      case Some(gens) => if |gens| > 0 then item.(claimGenerator := gens[0].name) else item
      case None => item;
    item.(actions := Some(ExtractActions(m)), trainingMining := ExtractTrainingMining(m))
  }

  /** The record of one entry of the manifest map. */
  function RecordOf(entry: (string, Manifest)): ManifestHistory {
    CreateManifestHistory(entry.1)
  }

  /** The unsorted history: one record per entry, in iteration order. */
  function HistoryRecords(ms: seq<(string, Manifest)>): (r: seq<ManifestHistory>)
    ensures |r| == |ms|
    ensures forall i :: 0 <= i < |ms| ==> r[i] == CreateManifestHistory(ms[i].1)
  {
    MapSeq(RecordOf, ms)
  }

  /** `buildManifestHistory`: every manifest's record exactly once, newest
      first, ties in iteration order. */
  function BuildManifestHistory(ms: seq<(string, Manifest)>): (r: seq<ManifestHistory>)
    ensures |r| == |ms|
    ensures multiset(r) == multiset(HistoryRecords(ms))
    ensures forall i :: 0 <= i < |ms| ==> CreateManifestHistory(ms[i].1) in r
    ensures NewestFirst(r)
    ensures forall t :: WithSignedAt(r, t) == WithSignedAt(HistoryRecords(ms), t)
  {
    var records := HistoryRecords(ms);
    var r := SortBySignedAt(records);
    assert forall i :: 0 <= i < |ms| ==> records[i] in multiset(r);
    r
  }

  /** `populateActiveManifestInfo`: sets the active manifest's fields and
      touches nothing else. Without signature info the four signature fields
      keep their previous values. */
  function PopulateActiveManifestInfo(resp: VerifyResponse, m: Manifest): (r: VerifyResponse)
    ensures r.title == m.title
    ensures m.signatureInfo.None? ==>
      r.signer == resp.signer && r.issuer == resp.issuer &&
      r.signedAt == resp.signedAt && r.algorithm == resp.algorithm
    ensures m.signatureInfo.Some? ==>
      var s := m.signatureInfo.value;
      r.signer == s.commonName && r.issuer == s.issuer && r.signedAt == s.time && r.algorithm == s.alg
    ensures r.actions == Some(ExtractActions(m))
    ensures r.trainingMining == ExtractTrainingMining(m)
    ensures r.validationState == resp.validationState && r.history == resp.history
  {
    var resp := resp.(title := m.title);
    var resp := match m.signatureInfo
      case None => resp
      case Some(s) => resp.(signer := s.commonName, issuer := s.issuer, signedAt := s.time, algorithm := s.alg);
    resp.(actions := Some(ExtractActions(m)), trainingMining := ExtractTrainingMining(m))
  }

  /** `toVerifyResponse`. */
  function ToVerifyResponse(c: C2paManifest): (r: VerifyResponse)
    // the validation state is copied on every path
    ensures r.validationState == c.validationState
    // without an active label or without manifests only the state is set
    ensures c.activeManifest.None? || c.manifests.None? ==>
      r == NewResponse.(validationState := c.validationState)
    // otherwise the history is present and holds one record per manifest
    ensures c.activeManifest.Some? && c.manifests.Some? ==>
      && r.history.Some?
      && |r.history.value| == |c.manifests.value|
      && multiset(r.history.value) == multiset(HistoryRecords(c.manifests.value))
      && NewestFirst(r.history.value)
    // a dangling active label sets no active field and falls back to nothing
    ensures (c.activeManifest.Some? && c.manifests.Some? &&
             FindManifest(c.manifests.value, c.activeManifest.value).None?) ==>
        r == NewResponse.(validationState := c.validationState,
                          history := Some(BuildManifestHistory(c.manifests.value)))
    // a resolved active label fills the active fields from that manifest
    ensures (c.activeManifest.Some? && c.manifests.Some? &&
             FindManifest(c.manifests.value, c.activeManifest.value).Some?) ==>
        var m := FindManifest(c.manifests.value, c.activeManifest.value).value;
        && r.title == m.title
        && (m.signatureInfo.None? ==>
              r.signer.None? && r.issuer.None? && r.signedAt.None? && r.algorithm.None?)
        && (m.signatureInfo.Some? ==>
              r.signer == m.signatureInfo.value.commonName &&
              r.issuer == m.signatureInfo.value.issuer &&
              r.signedAt == m.signatureInfo.value.time &&
              r.algorithm == m.signatureInfo.value.alg)
        && r.actions == Some(ExtractActions(m))
        && r.trainingMining == ExtractTrainingMining(m)
  {
    var response := NewResponse.(validationState := c.validationState);
    if c.activeManifest.Some? && c.manifests.Some? then
      var response := match FindManifest(c.manifests.value, c.activeManifest.value)
        case Some(active) => PopulateActiveManifestInfo(response, active)
        case None => response;
      response.(history := Some(BuildManifestHistory(c.manifests.value)))
    else
      response
  }
}
