/** Properties of the whole summary that relate several parts of the
    mapper: the active manifest against its history record, the history
    against any stable sort, and independence from the map's iteration
    order. */
module MapperProperties {
  import opened Wrappers
  import opened C2paModel
  import opened VerifyResponseDto
  import opened HistoryOrder
  import opened VerifyResponseMapper
  import opened Sequences

  /** The active manifest appears in the history like any other manifest,
      and the top-level fields agree with its record. */
  lemma ActiveManifestAppearsInHistory(c: C2paManifest)
    requires c.activeManifest.Some? && c.manifests.Some?
    requires FindManifest(c.manifests.value, c.activeManifest.value).Some?
    ensures
      var r := ToVerifyResponse(c);
      var m := FindManifest(c.manifests.value, c.activeManifest.value).value;
      var h := CreateManifestHistory(m);
      && h in r.history.value
      && r.title == h.title && r.signer == h.signer && r.issuer == h.issuer
      && r.signedAt == h.signedAt && r.algorithm == h.algorithm
      && r.actions == h.actions && r.trainingMining == h.trainingMining
  {
    var ms := c.manifests.value;
    var m := FindManifest(ms, c.activeManifest.value).value;
    var i :| 0 <= i < |ms| && ms[i] == (c.activeManifest.value, m);
    assert CreateManifestHistory(ms[i].1) in BuildManifestHistory(ms);
  }

  /** The history is newest first in plain terms: present signing times
      never increase, and records without a time come after all the others. */
  lemma HistoryNewestFirst(c: C2paManifest)
    requires c.activeManifest.Some? && c.manifests.Some?
    ensures
      var hs := ToVerifyResponse(c).history.value;
      && (forall i, j :: 0 <= i < j < |hs| && hs[i].signedAt.Some? && hs[j].signedAt.Some? ==>
            hs[i].signedAt.value >= hs[j].signedAt.value)
      && (forall i, j :: 0 <= i < j < |hs| && hs[i].signedAt.None? ==> hs[j].signedAt.None?)
  {
    NewestFirstMeaning(ToVerifyResponse(c).history.value);
  }

  /** The history is the one arrangement of the per-manifest records that a
      stable sort with the mapper's comparator produces: any newest-first
      sequence keeping the iteration order among equal signing times is it. */
  lemma HistoryIsTheStableSort(c: C2paManifest, t: seq<ManifestHistory>)
    requires c.activeManifest.Some? && c.manifests.Some?
    requires NewestFirst(t)
    requires forall k :: WithSignedAt(t, k) == WithSignedAt(HistoryRecords(c.manifests.value), k)
    ensures ToVerifyResponse(c).history == Some(t)
  {
    StableSortIsSortBySignedAt(HistoryRecords(c.manifests.value), t);
  }

  /** No two records share a signing time (so at most one has none). */
  predicate NoTies(hs: seq<ManifestHistory>) {
    forall i, j :: 0 <= i < j < |hs| ==> hs[i].signedAt != hs[j].signedAt
  }

  /** When no two manifests share a signing time, the whole response is a
      function of the manifest map alone: the iteration order of the map
      changes nothing. (With ties it decides the order of the tied records,
      as stability prescribes.) */
  lemma ResponseIgnoresIterationOrder(c1: C2paManifest, c2: C2paManifest)
    requires c1.activeManifest == c2.activeManifest && c1.validationState == c2.validationState
    requires c1.manifests.Some? <==> c2.manifests.Some?
    requires c1.manifests.Some? ==>
      && DistinctLabels(c1.manifests.value) && DistinctLabels(c2.manifests.value)
      && multiset(c1.manifests.value) == multiset(c2.manifests.value)
      && NoTies(HistoryRecords(c1.manifests.value))
    ensures ToVerifyResponse(c1) == ToVerifyResponse(c2)
  {
    if c1.activeManifest.Some? && c1.manifests.Some? {
      var ms1, ms2 := c1.manifests.value, c2.manifests.value;
      var key := c1.activeManifest.value;
      SameLookup(ms1, ms2, key);
      var rs1, rs2 := HistoryRecords(ms1), HistoryRecords(ms2);
      MapSeqMultiset(RecordOf, ms1, ms2);
      forall k
        ensures WithSignedAt(BuildManifestHistory(ms1), k) == WithSignedAt(BuildManifestHistory(ms2), k)
      {
        TieFreeWithSignedAt(rs1, rs2, k);
      }
      SortedAndStableIsUnique(BuildManifestHistory(ms1), BuildManifestHistory(ms2));
    }
  }

  /** Lookup by a label depends only on the map, not on its iteration order. */
  lemma SameLookup(ms1: seq<(string, Manifest)>, ms2: seq<(string, Manifest)>, key: string)
    requires DistinctLabels(ms1) && DistinctLabels(ms2) && multiset(ms1) == multiset(ms2)
    ensures FindManifest(ms1, key) == FindManifest(ms2, key)
  {
    match FindManifest(ms1, key)
    case Some(m) =>
      FindManifestByLabel(ms1, key, m);
      assert (key, m) in multiset(ms1);
      FindManifestByLabel(ms2, key, m);
    case None =>
      if FindManifest(ms2, key).Some? {
        var m := FindManifest(ms2, key).value;
        FindManifestByLabel(ms2, key, m);
        assert (key, m) in multiset(ms2);
        FindManifestByLabel(ms1, key, m);
      }
  }

  /** How often a record occurs in one signing-time subsequence. */
  lemma {:induction false} WithSignedAtCount(hs: seq<ManifestHistory>, k: Option<Instant>, x: ManifestHistory)
    ensures multiset(WithSignedAt(hs, k))[x] == if x.signedAt == k then multiset(hs)[x] else 0
  {
    if |hs| > 0 {
      WithSignedAtCount(hs[1..], k, x);
      assert hs == [hs[0]] + hs[1..];
    }
  }

  /** Without ties a signing-time subsequence holds at most one record. */
  lemma {:induction false} TieFreeWithSignedAtShort(hs: seq<ManifestHistory>, k: Option<Instant>)
    requires NoTies(hs)
    ensures |WithSignedAt(hs, k)| <= 1
  {
    if |hs| > 0 {
      assert NoTies(hs[1..]) by {
        forall i, j | 0 <= i < j < |hs[1..]|
          ensures hs[1..][i].signedAt != hs[1..][j].signedAt
        {
          assert hs[1..][i] == hs[i + 1] && hs[1..][j] == hs[j + 1];
        }
      }
      TieFreeWithSignedAtShort(hs[1..], k);
      if hs[0].signedAt == k {
        AbsentTimeWithSignedAt(hs[1..], k);
      }
    }
  }

  lemma {:induction false} AbsentTimeWithSignedAt(hs: seq<ManifestHistory>, k: Option<Instant>)
    requires forall i :: 0 <= i < |hs| ==> hs[i].signedAt != k
    ensures WithSignedAt(hs, k) == []
  {
    if |hs| > 0 {
      AbsentTimeWithSignedAt(hs[1..], k);
    }
  }

  /** Two arrangements of the same tie-free records agree on every
      signing-time subsequence. */
  lemma TieFreeWithSignedAt(a: seq<ManifestHistory>, b: seq<ManifestHistory>, k: Option<Instant>)
    requires multiset(a) == multiset(b) && NoTies(a)
    ensures WithSignedAt(a, k) == WithSignedAt(b, k)
  {
    var fa, fb := WithSignedAt(a, k), WithSignedAt(b, k);
    forall x
      ensures multiset(fa)[x] == multiset(fb)[x]
    {
      WithSignedAtCount(a, k, x);
      WithSignedAtCount(b, k, x);
    }
    assert multiset(fa) == multiset(fb);
    TieFreeWithSignedAtShort(a, k);
    assert |fb| == |multiset(fb)| == |multiset(fa)| == |fa|;
    if |fa| == 1 {
      assert fa[0] in multiset(fb);
      assert fa == [fa[0]] && fb == [fb[0]];
    }
  }

  // ---------------------------------------------------------------------
  // Worked examples.
  // ---------------------------------------------------------------------

  const DigitalCapture := "http://cv.iptc.org/newscodes/digitalsourcetype/digitalCapture"

  function SignedBy(name: Option<string>, time: Option<Instant>): SignatureInfo {
    SignatureInfo(None, name, None, time)
  }

  function Bare(name: string, sig: Option<SignatureInfo>, assertions: seq<Assertion>): Manifest {
    Manifest(Some(assertions), None, Some(name), sig, None)
  }

  /** No active label: only the validation state is set, history included. */
  lemma ExampleNoActiveLabel()
    ensures ToVerifyResponse(C2paManifest(None, Some([]), Some("Invalid"))) ==
      NewResponse.(validationState := Some("Invalid"))
  {
  }

  /** An active label but an empty map: the history is present and empty. */
  lemma ExampleEmptyManifests()
    ensures ToVerifyResponse(C2paManifest(Some("urn:c2pa:1"), Some([]), Some("Invalid"))) ==
      NewResponse.(validationState := Some("Invalid"), history := Some([]))
  {
  }

  /** One manifest, active, signed by "Acme", with one created action. */
  lemma ExampleSingleManifest()
    ensures
      var created := Action(Some("c2pa.created"), Some(DigitalCapture));
      var acts := Assertion(Some(AssertionData(Some([created]), None)), Some(ActionsLabel));
      var m := Bare("urn:c2pa:1", Some(SignedBy(Some("Acme"), None)), [acts]);
      var r := ToVerifyResponse(C2paManifest(Some("urn:c2pa:1"), Some([("urn:c2pa:1", m)]), Some("Valid")));
      && r.signer == Some("Acme")
      && r.actions == Some([ActionInfo(Some("c2pa.created"), Some(DigitalCapture))])
      && r.history == Some([CreateManifestHistory(m)])
  {
    var created := Action(Some("c2pa.created"), Some(DigitalCapture));
    var acts := Assertion(Some(AssertionData(Some([created]), None)), Some(ActionsLabel));
    var m := Bare("urn:c2pa:1", Some(SignedBy(Some("Acme"), None)), [acts]);
    var ms := [("urn:c2pa:1", m)];
    assert ActionsOf(acts) == [ToActionInfo(created)];
    assert [acts][1..] == [];
    assert ActionsFrom([acts]) == ActionsOf(acts) + ActionsFrom([acts][1..]);
    assert ExtractActions(m) == [ToActionInfo(created)];
    assert HistoryRecords(ms) == [CreateManifestHistory(m)];
    assert SortBySignedAt([CreateManifestHistory(m)]) == Insert(CreateManifestHistory(m), SortBySignedAt([]));
    var r := ToVerifyResponse(C2paManifest(Some("urn:c2pa:1"), Some(ms), Some("Valid")));
    assert FindManifest(ms, "urn:c2pa:1") == Some(m);
    assert r.signer == Some("Acme");
    assert r.actions == Some([ActionInfo(Some("c2pa.created"), Some(DigitalCapture))]);
    assert r.history == Some([CreateManifestHistory(m)]);
  }

  /** Two manifests iterated oldest first: the one signed in 2025 comes
      before the one of 2024. Instants are seconds since the epoch. */
  lemma ExampleNewestFirst()
    ensures
      var older := Bare("urn:c2pa:a", Some(SignedBy(None, Some(1704067200))), []);
      var newer := Bare("urn:c2pa:b", Some(SignedBy(None, Some(1748736000))), []);
      var r := ToVerifyResponse(C2paManifest(Some("urn:c2pa:b"),
                 Some([("urn:c2pa:a", older), ("urn:c2pa:b", newer)]), Some("Valid")));
      r.history == Some([CreateManifestHistory(newer), CreateManifestHistory(older)])
  {
    var older := Bare("urn:c2pa:a", Some(SignedBy(None, Some(1704067200))), []);
    var newer := Bare("urn:c2pa:b", Some(SignedBy(None, Some(1748736000))), []);
    var a, b := CreateManifestHistory(older), CreateManifestHistory(newer);
    assert a.signedAt == Some(1704067200) && b.signedAt == Some(1748736000);
    var records := HistoryRecords([("urn:c2pa:a", older), ("urn:c2pa:b", newer)]);
    assert records == [a, b];
    assert records[1..] == [b] && records[1..][1..] == [];
    assert SortBySignedAt([b]) == [b];
    assert !Precedes(a.signedAt, b.signedAt);
    assert Insert(a, [b]) == [b] + Insert(a, []);
    assert SortBySignedAt(records) == Insert(a, SortBySignedAt(records[1..]));
    var ms := [("urn:c2pa:a", older), ("urn:c2pa:b", newer)];
    assert BuildManifestHistory(ms) == [b, a];
    assert ToVerifyResponse(C2paManifest(Some("urn:c2pa:b"), Some(ms), Some("Valid"))).history == Some([b, a]);
  }

  /** A training-mining assertion with only the inference key. */
  lemma ExampleInferenceOnly()
    ensures
      var entry := C2paModel.TrainingMiningEntry(Some("constrained"), Some("no facial data"));
      var tm := Assertion(Some(AssertionData(None, Some(map[InferenceKey := entry]))), Some(TrainingMiningLabel));
      var m := Bare("urn:c2pa:1", None, [tm]);
      var r := ToVerifyResponse(C2paManifest(Some("urn:c2pa:1"), Some([("urn:c2pa:1", m)]), Some("Valid")));
      r.trainingMining == Some(TrainingMiningInfo(
        Some(VerifyResponseDto.TrainingMiningEntry(Some("constrained"), Some("no facial data"))), None))
  {
  }

  /** A dangling active label: no active field, the other manifest still in
      the history. */
  lemma ExampleDanglingActiveLabel()
    ensures
      var other := Bare("urn:c2pa:1", Some(SignedBy(Some("Acme"), None)), []);
      var r := ToVerifyResponse(C2paManifest(Some("urn:c2pa:missing"),
                 Some([("urn:c2pa:1", other)]), Some("Valid")));
      && r.title.None? && r.signer.None? && r.issuer.None? && r.signedAt.None?
      && r.algorithm.None? && r.actions.None? && r.trainingMining.None?
      && r.history == Some([CreateManifestHistory(other)])
  {
  }
}
