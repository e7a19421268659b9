# C2PA verify-response summariser, modelled in Dafny

The backend of the C2PA practice application asks an upstream C2PA reader
to verify an image. The reader returns a manifest store, deserialised as
`C2paManifest`. `VerifyResponseMapper.toVerifyResponse` then reduces that
store to a flat `VerifyResponse` for the client. The response holds:

- the validation state;
- the active manifest's title, signer, issuer, signing time and algorithm;
- the active manifest's actions and AI training/mining permissions;
- a signing history with one record per embedded manifest, newest first.

This project models that mapper as pure Dafny functions over immutable
datatypes and proves what it promises:

- the validation state is copied on every path;
- absence is carried through and never replaced by a default;
- the actions fold keeps assertion order and list order;
- the training-mining fold is decided by the first qualifying assertion;
- a dangling active label has no fallback;
- the history holds every manifest's record exactly once;
- the history is the unique stable sort by signing time, newest first,
  with records lacking a time at the end.

Running the mapper twice on the same input gives the same response
because every member is a pure function.

Files:

- `wrappers.dfy`: `Option`, used for every Java reference that may be `null`.
- `c2pa_model.dfy`: the input classes (`C2paManifest`, `Manifest`, `Assertion`,
  `AssertionData`, `Action`, `SignatureInfo`, `ClaimGeneratorInfo`,
  `TrainingMiningEntry`). Only the fields the mapper reads are kept.
- `verify_response.dfy`: the output classes (`VerifyResponse`, `ActionInfo`,
  `ManifestHistory`, `TrainingMiningInfo`, `TrainingMiningEntry`).
- `history_order.dfy`: the history comparator and a stable insertion sort.
  The sort is proved sorted, a permutation and stable, and proved to be
  the only arrangement with those three properties.
- `sequences.dfy`: generic facts about mapping over sequences.
- `verify_response_mapper.dfy`: the mapper's operations, one function each.
- `mapper_properties.dfy`: properties that span several operations, and
  worked examples.

Modelling choices:

- The manifest map is a sequence of `(label, manifest)` pairs. The sequence
  stands for the map's iteration order, which the source leaves unspecified.
  `manifests.get(label)` becomes a search of that sequence.
  `DistinctLabels` states the map's key uniqueness wherever a lemma needs it.
- A signing time is an integer instant (`C2paModel.Instant`). The mapper only
  orders signing times; it never inspects them.
- `AssertionData` carries both an optional action list and an optional
  training-mining entry map. It is a record of two options, not a variant,
  because nothing in the code stops both from being present.

Where the code and the intended behaviour disagree, the model follows the code:

- The intended behaviour is that the history is always present: one record
  per manifest, and an empty list when the map is empty or absent. The code
  builds the history only when both the active label and the manifest map are
  non-null (`VerifyResponseMapper.java:39`). So when the map is absent, or
  the active label is absent (even with an empty or non-empty map), the
  history stays `null` rather than an empty or full list. With an active
  label and an empty map the code gives the intended empty list.
- `AssertionData.java` declares only `actions`, but the mapper reads
  `getEntries()`. `VerifyResponse.java` has no training-mining types or
  fields, but the mapper sets `trainingMining` on the response and on each
  history record. The model follows the mapper's use: an `entries` map in
  the payload, and `trainingMining` at both levels of the output.
- The intended behaviour is that an assertion decides training-mining only
  when its entry map is non-empty. The code only asks that the map is
  non-null (`VerifyResponseMapper.java:87-88`). A present but empty map
  therefore decides, and it yields an info with both fields absent.

## Model

| member | source | states |
|---|---|---|
| VerifyResponseMapper.ToVerifyResponse | backend/src/main/java/org/to0mi1/c2pa/application/mapper/VerifyResponseMapper.java:35-50 | The validation state is copied on every path. Without an active label or without a manifest map, only the validation state is set and the history stays absent. Otherwise the history is present, has one record per manifest, is a permutation of the per-manifest records, and is sorted newest first. A label that does not resolve leaves every active field absent, with no fallback to another manifest. A label that resolves fills title, signature fields, actions and training-mining from that manifest. |
| VerifyResponseMapper.PopulateActiveManifestInfo | backend/src/main/java/org/to0mi1/c2pa/application/mapper/VerifyResponseMapper.java:58-73 | The title, actions and training-mining come from the manifest. The four signature fields are copied from the signature info when it is present; when it is absent they keep their previous values. The validation state and history are untouched. |
| VerifyResponseMapper.ToActionInfo | backend/src/main/java/org/to0mi1/c2pa/application/mapper/VerifyResponseMapper.java:134-136 | An action is copied field for field: action identifier and digital source type, absent stays absent. |
| VerifyResponseMapper.ActionsOf | backend/src/main/java/org/to0mi1/c2pa/application/mapper/VerifyResponseMapper.java:131-139 | An assertion with a label other than `c2pa.actions.v2`, or with a missing payload or action list, contributes nothing. A qualifying one contributes its whole action list, in order. |
| VerifyResponseMapper.ExtractActions | backend/src/main/java/org/to0mi1/c2pa/application/mapper/VerifyResponseMapper.java:123-128 | The extracted action list is never absent. A missing assertion list yields an empty list. |
| VerifyResponseMapper.ActionsFromConcat | backend/src/main/java/org/to0mi1/c2pa/application/mapper/VerifyResponseMapper.java:130-141 | Actions accumulate: the actions of a concatenation of assertion lists are the concatenation of their actions. Later assertions never overwrite earlier ones, and order is kept across assertions. |
| VerifyResponseMapper.ActionsFromSingle | backend/src/main/java/org/to0mi1/c2pa/application/mapper/VerifyResponseMapper.java:130-141 | A single assertion yields exactly its own contribution. With the concatenation lemma this fixes the whole result. |
| VerifyResponseMapper.ActionsFromMembers | backend/src/main/java/org/to0mi1/c2pa/application/mapper/VerifyResponseMapper.java:130-141 | An action appears in the result if and only if some assertion contributes it. |
| VerifyResponseMapper.NonContributingAssertionIgnored | backend/src/main/java/org/to0mi1/c2pa/application/mapper/VerifyResponseMapper.java:131-132 | Removing an assertion with another label or no usable payload leaves the extracted actions unchanged. |
| VerifyResponseMapper.TrainingMiningInfoOf | backend/src/main/java/org/to0mi1/c2pa/application/mapper/VerifyResponseMapper.java:89-109 | `c2pa.ai_inference` and `c2pa.ai_generative_training` are read independently. An output field is present if and only if its key is in the entry map. When present, `use` and `constraintsInfo` are copied verbatim with no default. |
| VerifyResponseMapper.TrainingMiningFrom | backend/src/main/java/org/to0mi1/c2pa/application/mapper/VerifyResponseMapper.java:86-114 | The result is absent if and only if no assertion has the `cawg.training-mining` label with a payload and an entry map. Otherwise the result is read from the first such assertion. |
| VerifyResponseMapper.ExtractTrainingMining | backend/src/main/java/org/to0mi1/c2pa/application/mapper/VerifyResponseMapper.java:81-84 | A missing assertion list gives an absent training-mining result. |
| VerifyResponseMapper.TrainingMiningFromConcat | backend/src/main/java/org/to0mi1/c2pa/application/mapper/VerifyResponseMapper.java:86-112 | First match wins: once a prefix of the assertions decides, the assertions after it are ignored. If the prefix does not decide, the suffix decides alone. |
| VerifyResponseMapper.FindManifest | backend/src/main/java/org/to0mi1/c2pa/application/mapper/VerifyResponseMapper.java:40 | The lookup misses if and only if no entry has the label. A hit returns a manifest stored under that label. |
| VerifyResponseMapper.FindManifestByLabel | backend/src/main/java/org/to0mi1/c2pa/application/mapper/VerifyResponseMapper.java:40 | With distinct labels, the lookup returns `m` if and only if `(label, m)` is an entry of the map, whatever the iteration order. |
| VerifyResponseMapper.CreateManifestHistory | backend/src/main/java/org/to0mi1/c2pa/application/mapper/VerifyResponseMapper.java:170-193 | A record carries the manifest's label and title. Its signer, issuer, time and algorithm are set from the signature info only when that is present. Its claim generator is the first generator's name exactly when the generator list is present and non-empty. It carries the same actions and training-mining results as the active-manifest extraction. |
| VerifyResponseMapper.HistoryRecords | backend/src/main/java/org/to0mi1/c2pa/application/mapper/VerifyResponseMapper.java:153-158 | Before sorting there is one record per map entry, in iteration order. |
| VerifyResponseMapper.BuildManifestHistory | backend/src/main/java/org/to0mi1/c2pa/application/mapper/VerifyResponseMapper.java:152-162 | The history length equals the map size. The history is a permutation of the per-manifest records and contains every manifest's record. It is sorted by the comparator, and records with equal signing times keep their iteration order. |
| HistoryOrder.ComparatorContract | backend/src/main/java/org/to0mi1/c2pa/application/mapper/VerifyResponseMapper.java:201-204 | `comparing(signedAt, nullsLast(reverseOrder()))` obeys the `Comparator` contract: the sign is antisymmetric, the order is transitive and total, and the comparator returns zero only on equal keys. |
| HistoryOrder.NewestFirstMeaning | backend/src/main/java/org/to0mi1/c2pa/application/mapper/VerifyResponseMapper.java:195-205 | Sorted by that comparator means, in both directions: present signing times never increase along the history, and every record without a time comes after every record with one. |
| HistoryOrder.Insert | backend/src/main/java/org/to0mi1/c2pa/application/mapper/VerifyResponseMapper.java:200-205 | Inserting one record adds exactly that record. Insertion keeps a sorted history sorted. The new record goes in front of the records with an equal time. |
| HistoryOrder.SortBySignedAt | backend/src/main/java/org/to0mi1/c2pa/application/mapper/VerifyResponseMapper.java:200-205 | The sort returns a permutation of its input that is sorted by the comparator. It keeps the input order among records with equal signing times, as `List.sort` does. |
| HistoryOrder.SortedAndStableIsUnique | backend/src/main/java/org/to0mi1/c2pa/application/mapper/VerifyResponseMapper.java:200-205 | Two sorted histories that agree on the order within every signing time are equal. |
| HistoryOrder.StableSortIsSortBySignedAt | backend/src/main/java/org/to0mi1/c2pa/application/mapper/VerifyResponseMapper.java:200-205 | Any sorted, stable rearrangement of the records, `List.sort` included, equals the model's sort. |
| MapperProperties.ActiveManifestAppearsInHistory | backend/src/main/java/org/to0mi1/c2pa/application/mapper/VerifyResponseMapper.java:40-46 | When the active label resolves, that manifest's record is in the history, and the top-level fields equal the record's fields. The active manifest is treated like any other manifest. |
| MapperProperties.HistoryNewestFirst | backend/src/main/java/org/to0mi1/c2pa/application/dto/VerifyResponse.java:54-60 | The history is newest first: present signing times never increase, and records without a time come last. |
| MapperProperties.HistoryIsTheStableSort | backend/src/main/java/org/to0mi1/c2pa/application/mapper/VerifyResponseMapper.java:152-162 | The response's history is exactly the stable newest-first arrangement of the per-manifest records. |
| MapperProperties.SameLookup | backend/src/main/java/org/to0mi1/c2pa/application/mapper/VerifyResponseMapper.java:40 | The active-manifest lookup does not depend on the map's iteration order. |
| MapperProperties.ResponseIgnoresIterationOrder | backend/src/main/java/org/to0mi1/c2pa/application/mapper/VerifyResponseMapper.java:35-50 | When no two manifests share a signing time, two iteration orders of the same map give the same response. |
| MapperProperties.ExampleNoActiveLabel | backend/src/main/java/org/to0mi1/c2pa/application/mapper/VerifyResponseMapper.java:36-39 | Example: with no active label, only the validation state `"Invalid"` is set. |
| MapperProperties.ExampleEmptyManifests | backend/src/main/java/org/to0mi1/c2pa/application/mapper/VerifyResponseMapper.java:39-47 | Example: an active label with an empty manifest map gives an empty, present history and nothing else. |
| MapperProperties.ExampleSingleManifest | backend/src/main/java/org/to0mi1/c2pa/application/mapper/VerifyResponseMapper.java:35-50 | Example: one active manifest signed by "Acme" with one `c2pa.created` action. The signer and actions are reported, and the history is that manifest's single record. |
| MapperProperties.ExampleNewestFirst | backend/src/main/java/org/to0mi1/c2pa/application/mapper/VerifyResponseMapper.java:200-205 | Example: a manifest signed in 2025 comes before one signed in 2024. |
| MapperProperties.ExampleInferenceOnly | backend/src/main/java/org/to0mi1/c2pa/application/mapper/VerifyResponseMapper.java:91-107 | Example: an entry map holding only `c2pa.ai_inference` gives a `constrained` inference entry and an absent generative-training entry. |
| MapperProperties.ExampleDanglingActiveLabel | backend/src/main/java/org/to0mi1/c2pa/application/mapper/VerifyResponseMapper.java:39-46 | Example: a dangling active label leaves every active field absent, and the other manifest is still in the history. |

## Left out

- JSON deserialisation and its tolerance of unknown fields. These belong to the Jackson library. The model starts from a deserialised store.
- `null` where the model has no `Option`: the root object, elements of the assertion, action and claim-generator lists, and manifest values in the map. A `null` the mapper reaches throws a `NullPointerException`: the root at line 37 of `VerifyResponseMapper.java`; a manifest value at line 172, because every value gets a history record once line 39 lets the mapper in (a `null` value under the active label is first passed over at line 41); an assertion element at line 131, since `extractActions` runs before `extractTrainingMining`; an action element of a qualifying assertion at line 135; and a first claim generator at line 183. A `null` the mapper never reaches does not affect the result: any element when line 39 skips the manifests, claim generators after the first, and the action list of an assertion that does not qualify. The model assumes these are non-null; for the unreached ones any non-null stand-in gives the same response, and the throwing cases are not modelled.
- A `null` value in the training-mining entry map is not represented separately. `Map.get` returns `null` for it just as for a missing key, so the model's map without that key behaves identically.
- `ZonedDateTime` ordering: signing times are integer instants. Java's `compareTo` breaks ties between equal instants by local date-time and zone id; the model treats equal instants as ties, which the stable sort keeps in iteration order.
- Fields the mapper never reads: `validation_results` (`ValidationResults`, `ActiveManifestValidation`, `ValidationStatus`), `ingredients`, `instance_id`, `thumbnail`, `cert_serial_number`, and a claim generator's `version` and c2pa-rs version (only its `name` is read, at line 183).
- The HTTP transport (`C2paApiAdapter`, `C2paClientConfig`), the REST controller and its request-parameter validation, the Python signing service, and the frontend: I/O and framework wiring with no logic of the summariser.
- MapperProperties.ResponseIgnoresIterationOrder: proved only for maps in which no two manifests share a signing time. With ties the iteration order legitimately decides the order of the tied records, as `HistoryOrder.SortBySignedAt` states.
