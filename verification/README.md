# Verified models of the repository's scripts

Seven components of the repository's tooling, modelled in Dafny and proved correct:

- **the OTLP trace receiver** (`scripts/qa-otel-smoke.ts`): `ProtoWire` says what the bytes of a message mean,
  `ProtoReader` is the cursor reader, `Otlp` and `OtlpEncoding` the trace messages and their encoder, `OtlpDecoder` the
  decoder loops, `OtlpCapture` what is kept of a request, `OtlpLastOneWins` the merging rules of the specification and
  which messages are read by them, `ProtoParts` messages whose fields come in any order, among foreign ones, at every
  depth;
- **the translation sync** (`scripts/control-ui-i18n.ts`): `TranslationTree` (flatten and rebuild), `TreeAccess` (keys and
  paths), `TranslationBatches` (greedy batching), `TranslateBatch` (retry and split), `TranslateOutcomes` (what timeouts
  and failures lead to), `SyncPrompts` (the prompts of a whole sync), `PiRpcClient` (the prompt client and its driver),
  `PiRpcVerdicts` (what settles a prompt), `TranslatorRuns` (the translator's exchanges as runs of that driver),
  `LocaleSync` (the sync of one locale), `LocaleSyncLaws` (idempotence), `LocaleSyncTexts` (where every text comes from),
  `LocaleSyncOutcome` (when it writes, what it reports) and `LocaleSyncRuns` (later runs under another configuration);
- **the guardrail scan** (`scripts/check-temp-path-guardrails.ts`): `ArgumentScanner`, `ArgumentPositions` and
  `WorkerPool`;
- **the restart benchmark** (`scripts/bench-gateway-restart.ts`): `RestartProbe` with `RestartReport`, `OutputLines` with
  `OutputOrder`, `ProcessTree`;
- **the published-artifact check** (`scripts/nova-ai-npm-postpublish-verify.ts`): `ModuleClosure`, `ImportResolution`;
- **the schema registry of the Swift generator** (`scripts/protocol-gen-swift.ts`): `CanonicalJson`, `SchemaRegistry`;
- **the Sparkle build floors** (`scripts/sparkle-build.ts`, `scripts/release-check.ts`): `SparkleFloors`, `AppcastReport`.

`Wrappers`, `Text`, `Sorting`, `Selection` and `Reachability` are shared. Where the source loops or updates an object, the
model has a method or a class whose contract equates its effect with a specification function; the laws are then lemmas
about those functions, told where possible by the positions, fields and characters they are about. `dafny verify
dfyconfig.toml` checks everything.

## What the proofs bring to light

The model follows the code where it differs from what one would expect:

- The Protocol Buffers Encoding specification, section "Last One Wins", merges repeated embedded messages of a singular
  field, and a oneof member clears the others; the decoders replace and keep. A value given again, empty, erases the first
  one (`EmptyValueErases`), and two members stay side by side (`OneofNotCleared`). A request body is decoded as the
  specification says if and only if every attribute in it satisfies `KeyValueConforms` (`RequestMeetsSpecIff`); all that
  `EncodeRequest` writes for values of one member each does (`EncodedRequestMeetsSpec`), and so does any request that gives
  each value once, whatever the order of its fields and with foreign fields at every depth (`PrintedRequestMeetsSpec`). For
  two parts of one message the condition is one on the fields both carry (`AnyLastOneWinsIff`, `KeyValueLastOneWinsIff`).
- Field numbers are read modulo 2^29 (`TagRoundTrip`), because `raw >>> 3` works on 32 bits.
- A skipped fixed-width field is not checked against the end: a lone tag is accepted as a whole span (`LoneTagAccepted`). The
  cursor ends up past the end exactly if the message is cut short in an unrecognised fixed-width field (`OvershootIff`);
  decoding two messages separately is decoding them together if and only if it does not (`PlainConcatIff`), and otherwise a
  well-formed continuation turns into an error (`WellFormedThenBroken`). `ParseConcat` is the law for both cases.
- Batching is optimal by the loop's own count (`GreedyIsOptimal`), which charges two characters too many per item, and not
  always by `estimateBatchChars` (`NotOptimalByEstimate`). It is if no run of 2 to 20 items lies between the two counts
  (`OptimalWithoutRunsBetween`); for items that are one batch by the estimate exactly if they are one by the loop
  (`OneBatchByEstimate`); and for all items exactly if a greedy loop that counts by the estimate closes no fewer batches
  (`OptimalByEstimateIff`). It never needs more than twice as many (`AtMostTwiceByEstimate`).
- A second sync changes nothing under the same configuration, or the same without its provider (`SyncIsIdempotent`). Under
  another configuration it may: `UnchangedIff` says exactly when not. A later run changes a fallback once there is a provider
  (`FallbackIsRefreshed`, `ProviderComesIff`), and as the cache keys depend on provider and model, a check in another
  namespace can bring back an older text from the memory (`StaleEntryComesBack`, `OtherCacheKeysIff`).
- The prompt bound of the translator, 4n - 2, is reached for every n (`PromptBoundIsTight`), and so is that of a whole sync,
  4n less two for every batch (`SyncBound`, `SyncBoundIsTight`).
- Flattening loses exactly the empty inner maps (`TreeRoundTrip`, an equivalence).
- The `--force` option of the sync has no effect: the branch of the last loop that reads it cannot be taken, and the early
  return that reads it returns what would be returned anyway (`ForceIsIdle`).
- The argument splitter drops an empty last argument, and nothing else (`SplitInvertsJoin`, an equivalence).

## Assumptions

- sha256 as a cache key is injective in (key, text hash) and never empty; as a text hash it may be any function.
- The translator answers every key it is asked for or fails, as `BatchTranslatorIsOk` proves of `translateBatch`.
- `localeCompare` and the default sort are total orders on keys in which only equal keys compare equal.
- Rendering a file and importing or parsing it again is the identity, and a rendering is equal to another only if the values are.
- Translation keys are non-empty, dot-free, not integer-like and not names of `Object.prototype`; the same holds for attribute keys.
- A prompt process writes one `agent_end` line per prompt, in order.
- `JSON.stringify` is injective on trees, so that a signature stands for its stable tree.

## Model

| member | source | states |
|---|---|---|
| ProtoWire.ParseInvertsEncode | scripts/qa-otel-smoke.ts:244-389 | for every message kind and nesting depth, the decoder loop reads the specification's encoding of a list of legal fields back as exactly these fields, stopping at the end |
| ProtoWire.ParseConcat | scripts/qa-otel-smoke.ts:229-389 | a decoded message followed by any bytes: its fields, then those decoded from where its cursor stopped, be that up to 8 bytes into the continuation; errors of the continuation are the errors of the whole |
| ProtoWire.PlainConcatIff | scripts/qa-otel-smoke.ts:229-389 | an accepted message and any continuation decode together as they do separately if and only if the message ends where its cursor stops |
| ProtoWire.WellFormedThenBroken | scripts/qa-otel-smoke.ts:229-241 | otherwise there is a well-formed continuation, of an unknown field only, that turns into an error |
| ProtoWire.OvershootIff | scripts/qa-otel-smoke.ts:229-241 | the cursor ends so many bytes past the end exactly if, at some field boundary, all that is left is an unrecognised fixed-width field that misses so many |
| ProtoWire.LoneTagAccepted | scripts/qa-otel-smoke.ts:314-331 | one byte, the tag of field 15 with wire type 1, is accepted as a span, eight bytes past its end |
| ProtoWire.ParsedIsWellFormed | scripts/qa-otel-smoke.ts:244-389 | whatever bytes are accepted, the fields read are fields the encoder could have been given |
| ProtoWire.ReencodeKeepsFields | scripts/qa-otel-smoke.ts:244-389 | encoding the fields read from any accepted message and decoding again gives the same fields |
| ProtoWire.UnknownFieldIgnored | scripts/qa-otel-smoke.ts:229-312 | inserting a well-formed field whose (field, wire) pair the message does not know at a field boundary changes nothing, whatever follows |
| ProtoWire.ExtraIsSkipped | scripts/qa-otel-smoke.ts:229-241 | each of the four skippable wire types is skipped to exactly its end |
| ProtoWire.VarintRoundTrip | scripts/qa-otel-smoke.ts:190-202 | decoding inverts base-128 encoding for every number below 2^53, with any bytes after it |
| ProtoWire.VarintMeans | scripts/qa-otel-smoke.ts:190-202 | a varint ends at the first byte below 128 and stands for the sum of its groups of seven bits; without such a byte it is truncated |
| ProtoWire.TagRoundTrip | scripts/qa-otel-smoke.ts:185-188 | a tag is read back with its wire type and its field number modulo 2^29 |
| ProtoWire.DelimitedRoundTrip | scripts/qa-otel-smoke.ts:204-213 | a length-delimited payload is read back exactly |
| ProtoWire.StepLocal | scripts/qa-otel-smoke.ts:244-389 | an iteration that succeeds does not depend on what follows the bytes it used |
| ProtoWire.VarintOf | scripts/qa-otel-smoke.ts:190-202 | a varint uses at least one byte and none past the end |
| ProtoWire.BytesOf | scripts/qa-otel-smoke.ts:204-213 | a payload is strictly shorter than what is left, and in range |
| ProtoWire.SkipOf | scripts/qa-otel-smoke.ts:229-241 | a skip moves forward, past the end by at most the 8 bytes of a fixed-width field |
| ProtoWire.Step | scripts/qa-otel-smoke.ts:244-389 | every iteration uses at least two bytes, reads at most one field, and may run past the end only when it reads none |
| ProtoWire.Parse | scripts/qa-otel-smoke.ts:244-389 | on every byte string the loop ends, with an error or at most 8 bytes past the end |
| ProtoReader.ProtoReader.constructor | scripts/qa-otel-smoke.ts:176-179 | a reader starts at offset 0 of its bytes |
| ProtoReader.ProtoReader.Varint | scripts/qa-otel-smoke.ts:190-202 | the accumulate-and-shift loop returns the base-128 value of the groups and moves past exactly them |
| ProtoReader.ProtoReader.ReadTag | scripts/qa-otel-smoke.ts:185-188 | returns the tag at the cursor and moves past it |
| ProtoReader.ProtoReader.ReadBytes | scripts/qa-otel-smoke.ts:204-213 | returns the payload at the cursor and moves past it, or fails if it is truncated |
| ProtoReader.ProtoReader.Fixed64 | scripts/qa-otel-smoke.ts:219-227 | returns the next eight bytes, or fails if there are fewer |
| ProtoReader.ProtoReader.Skip | scripts/qa-otel-smoke.ts:229-241 | moves the cursor by the width of the field, or fails on an unknown wire type |
| Otlp.AnyValueOverrides | scripts/qa-otel-smoke.ts:244-268 | of two values in one message every field of the second overrides that of the first |
| Otlp.KeyValueOverrides | scripts/qa-otel-smoke.ts:284-298 | key and value of the later entry win |
| Otlp.SpanOverrides | scripts/qa-otel-smoke.ts:314-331 | name and parent are overridden, attributes appended |
| Otlp.RequestsAppend | scripts/qa-otel-smoke.ts:361-371 | two requests in one body give the resource spans of both, in order |
| Otlp.AttributePresent | scripts/qa-otel-smoke.ts:164-174 | a span attribute is present exactly if some entry has its trimmed, non-blank key |
| Otlp.LastAttributeWins | scripts/qa-otel-smoke.ts:164-174 | and its value is that of the last such entry |
| OtlpLastOneWins.AnyLastOneWinsIff | scripts/qa-otel-smoke.ts:244-268 | two parts of a value decode together to the merge of the specification if and only if the second gives nothing, or gives all members the first does and appends to none |
| OtlpLastOneWins.KeyValueLastOneWinsIff | scripts/qa-otel-smoke.ts:284-298 | two parts of an entry do so if and only if, where both give a value, the second is empty only if the first is and appends to nothing |
| OtlpLastOneWins.EmptyValueErases | scripts/qa-otel-smoke.ts:284-298 | bytes in which an empty second value erases the first, with what the specification makes of them |
| OtlpLastOneWins.OneofNotCleared | scripts/qa-otel-smoke.ts:244-268 | bytes in which two members of the oneof are both kept, with what the specification makes of them |
| OtlpLastOneWins.ValueMeetsSpecIff | scripts/qa-otel-smoke.ts:244-282 | an accepted value is decoded as the specification says if and only if it sets one member, and repeats it only after empty messages, at every depth |
| OtlpLastOneWins.EntryMeetsSpecIff | scripts/qa-otel-smoke.ts:284-312 | an accepted entry is if and only if its last value is and nothing of the values before it was to be kept |
| OtlpLastOneWins.RequestMeetsSpecIff | scripts/qa-otel-smoke.ts:314-371 | an accepted request body is if and only if every attribute of every span is |
| OtlpLastOneWins.EncodedRequestMeetsSpec | scripts/qa-otel-smoke.ts:244-371 | every request with one oneof member per value, encoded, is decoded as the specification says, and to itself |
| ProtoParts.PrintedParts | scripts/qa-otel-smoke.ts:229-389 | a message of legal parts, in any order and with foreign fields between them at every depth, is read as its known fields, stopping at the end |
| ProtoParts.PrintedRequest | scripts/qa-otel-smoke.ts:185-389 | so a request with the fields exporters send and the receiver does not know is decoded, and its spans captured, as its known fields say |
| ProtoParts.PrintedRequestMeetsSpec | scripts/qa-otel-smoke.ts:244-371 | and as the specification says, if each value sets one member at most and each entry gives one value at most |
| OtlpEncoding.AnyRead | scripts/qa-otel-smoke.ts:244-268 | the fields of any encodable value, arrays and lists of any depth included, mean that value |
| OtlpEncoding.KeyValueRead | scripts/qa-otel-smoke.ts:284-298 | the fields of a key-value entry mean that entry |
| OtlpEncoding.SpanRead | scripts/qa-otel-smoke.ts:314-331 | the fields of a span mean that span |
| OtlpEncoding.RequestRead | scripts/qa-otel-smoke.ts:333-371 | the fields of a whole trace request mean that request |
| OtlpEncoding.TraceRequestRoundTrip | scripts/qa-otel-smoke.ts:185-389 | decoding the encoding of any trace request gives the request back, and the receiver captures exactly its spans with non-blank names, in order |
| OtlpDecoder.Advance | scripts/qa-otel-smoke.ts:244-389 | one loop iteration of any decoder: a failing read fails the message, a successful one keeps the loop in step with the specification |
| OtlpDecoder.ReadAnyField | scripts/qa-otel-smoke.ts:247-265 | the seven recognised fields of a value and the skip of all others |
| OtlpDecoder.DecodeAnyValue | scripts/qa-otel-smoke.ts:244-268 | the loop returns the value the fields mean, or the first error |
| OtlpDecoder.DecodeArrayValue | scripts/qa-otel-smoke.ts:270-282 | the loop returns the array the fields mean, or the first error |
| OtlpDecoder.DecodeKeyValue | scripts/qa-otel-smoke.ts:284-298 | the loop returns the entry the fields mean, or the first error |
| OtlpDecoder.DecodeKeyValueList | scripts/qa-otel-smoke.ts:300-312 | the loop returns the list the fields mean, or the first error |
| OtlpDecoder.DecodeSpan | scripts/qa-otel-smoke.ts:314-331 | the loop returns the span the fields mean, or the first error |
| OtlpDecoder.DecodeScopeSpans | scripts/qa-otel-smoke.ts:333-345 | the loop returns the scope's spans in order, or the first error |
| OtlpDecoder.DecodeResourceSpans | scripts/qa-otel-smoke.ts:347-359 | the loop returns the resource's scopes in order, or the first error |
| OtlpDecoder.DecodeTraceRequest | scripts/qa-otel-smoke.ts:361-389 | on every body: the captured spans of the request its bytes mean, or the first error |
| OtlpDecoder.SpanAttributes | scripts/qa-otel-smoke.ts:164-174 | the loop over a span's attributes builds the map of trimmed keys |
| OtlpDecoder.CaptureAll | scripts/qa-otel-smoke.ts:372-388 | the three nested loops collect the spans with non-blank names, in order |
| OtlpCapture.CapturedInOrder | scripts/qa-otel-smoke.ts:361-389 | of an accepted body exactly the spans with a name that is not blank are captured, in the order of resources, scopes and spans; each with its trimmed name, `parent` set if and only if its parent id is there and not empty, and its attributes |
| OtlpCapture.CapturedSpans | scripts/qa-otel-smoke.ts:375-386 | the same for any list of spans, told by positions: in order, none left out |
| OtlpCapture.PlacesOfResources | scripts/qa-otel-smoke.ts:373-375 | the nested loops meet every span of a request once, in order |
| OtlpCapture.AttributesKept | scripts/qa-otel-smoke.ts:164-174 | the attributes have exactly the trimmed, non-blank keys of the entries, each with the value of the last entry with it |
| Text.TrimIs | scripts/qa-otel-smoke.ts:164-174 | `trim` takes the white space off both ends, all of it, and nothing else |
| Text.SpacesAre | scripts/qa-otel-smoke.ts:167-167 | white space is that of ECMAScript, code point by code point |
| Text.BlankIff | scripts/control-ui-i18n.ts:1400-1405 | a text is blank exactly if it is white space only |
| TranslationTree.TreeRoundTrip | scripts/control-ui-i18n.ts:328-355 | replaying a flattened tree rebuilds it, order included, if and only if it has no empty inner map |
| TranslationTree.RebuildWithTexts | scripts/control-ui-i18n.ts:1618-1621 | rebuilding with other texts gives the tree with those texts and without empty maps, and flattens back to them |
| TranslationTree.FlattenAppends | scripts/control-ui-i18n.ts:328-338 | no two leaves share a dotted key: flattening appends one entry per leaf, in order |
| TranslationTree.SplitDotted | scripts/control-ui-i18n.ts:328-341 | splitting a dotted key gives the path it was made of |
| TranslationTree.ReplayRebuilds | scripts/control-ui-i18n.ts:340-355 | setting a tree's leaves one by one in a map appends exactly that tree |
| TranslationTree.CursorCreates | scripts/control-ui-i18n.ts:343-352 | creating a missing map under the cursor does not change what the assignment ends in |
| TranslationTree.FlattenTranslations | scripts/control-ui-i18n.ts:328-338 | the recursive loop fills the map as the specification says |
| TranslationTree.SetNestedValue | scripts/control-ui-i18n.ts:340-355 | the moving cursor sets exactly the one nested value |
| TreeAccess.SetsOneText | scripts/control-ui-i18n.ts:340-355 | in any tree, setting a value puts it at its path, removes the texts on the way there and below it, and leaves all others alone |
| TreeAccess.SplitJoins | scripts/control-ui-i18n.ts:341-341 | a key is cut at every dot, and at nothing else |
| TranslationBatches.BuildTranslationBatches | scripts/control-ui-i18n.ts:1114-1138 | the batches concatenate to the items, respect both limits, and no other such partition has fewer |
| TranslationBatches.BatchLimits | scripts/control-ui-i18n.ts:1114-1138 | every batch has 1 to 20 items and, unless it has one, at most the budget of characters, counted in full |
| TranslationBatches.GreedyPartitions | scripts/control-ui-i18n.ts:1114-1138 | non-empty batches of at most 20 items, singletons or within the budget, in order and complete |
| TranslationBatches.GreedyIsOptimal | scripts/control-ui-i18n.ts:1119-1131 | no order-preserving partition within the limits has fewer batches, from any open batch on |
| TranslationBatches.FitsPart | scripts/control-ui-i18n.ts:1119-1131 | any run of consecutive items of a batch within the limits is within them |
| TranslationBatches.DropLeading | scripts/control-ui-i18n.ts:1119-1131 | a partition of a list gives one of any of its tails with no more batches |
| TranslationBatches.LoopOvercounts | scripts/control-ui-i18n.ts:914-916 | the loop's count is `estimateBatchChars` plus two per item, so its batches also fit by the estimate |
| TranslationBatches.EstimateCounts | scripts/control-ui-i18n.ts:914-916 | the estimate is all characters of the keys and texts, eight per item, and two |
| TranslationBatches.OptimalByEstimateIff | scripts/control-ui-i18n.ts:914-916 | for all items, no partition by the estimate has fewer batches if and only if a greedy loop counting by the estimate closes no fewer |
| TranslationBatches.OptimalWithoutRunsBetween | scripts/control-ui-i18n.ts:1119-1131 | in particular if no run of 2 to 20 consecutive items fits the budget by the estimate but not by the loop |
| TranslationBatches.OneBatchByEstimate | scripts/control-ui-i18n.ts:1119-1131 | for items that are one batch by the estimate, if and only if there is one item or they fit by the loop |
| TranslationBatches.AtMostTwiceByEstimate | scripts/control-ui-i18n.ts:914-916 | whatever the items, there are at most twice as many batches as any partition by the estimate has |
| TranslationBatches.NotOptimalByEstimate | scripts/control-ui-i18n.ts:914-916 | two items with distinct keys, whose estimate is exactly the budget, are put into two batches |
| TranslateBatch.TranslateBatch | scripts/control-ui-i18n.ts:1381-1443 | for every sequence of prompt outcomes the call terminates with the specified result and number of prompts, uses clients in the order they were made, and never prompts one again after a failed exchange |
| TranslateBatch.PromptOnce | scripts/control-ui-i18n.ts:1394-1411 | one attempt: one more exchange, the result of the reply, and the client dropped if it failed |
| TranslateBatch.TranslateBatchGuarantees | scripts/control-ui-i18n.ts:1389-1442 | at most 4n - 2 prompts for n items; a returned map has exactly the items' keys, each with a non-blank answer given to one of the run's own prompts |
| TranslateBatch.RunGuarantees | scripts/control-ui-i18n.ts:1389-1442 | the same from any attempt on, through retries and splits |
| TranslateBatch.PromptBoundIsTight | scripts/control-ui-i18n.ts:1389-1442 | for every batch some run sends exactly 4n - 2 prompts and succeeds |
| TranslateBatch.WorstCaseRun | scripts/control-ui-i18n.ts:1389-1442 | that run: every batch fails once, then times out, down to single items |
| TranslateBatch.AcceptKeys | scripts/control-ui-i18n.ts:1398-1405 | an accepted reply gives exactly the items' keys, with its own non-blank answers |
| TranslateOutcomes.TimedOutIff | scripts/control-ui-i18n.ts:873-875 | an error is a timeout if and only if the words "timed out", in any case, stand at some index of its message |
| TranslateOutcomes.TimerMessageTimedOut | scripts/control-ui-i18n.ts:1289-1301 | so is the message of the prompt timer, whatever its label and times |
| TranslateOutcomes.TimeoutSplits | scripts/control-ui-i18n.ts:1415-1431 | after a timeout of several items their two halves are translated, the first one not the smaller; the first error ends it, else both maps are merged |
| TranslateOutcomes.TimeoutOfOne | scripts/control-ui-i18n.ts:1432-1442 | a timeout of a single item is the end |
| TranslateOutcomes.OtherFailureRetries | scripts/control-ui-i18n.ts:1389-1442 | after any other failure the same items are asked for once more, and after a second one no more |
| TranslateOutcomes.AcceptedIff | scripts/control-ui-i18n.ts:1398-1405 | a reply is accepted if and only if every item has an answer that is not blank |
| TranslateOutcomes.FirstUnansweredIsNamed | scripts/control-ui-i18n.ts:1400-1404 | otherwise the error names the first item without one |
| TranslateBatch.ReadAnswers | scripts/control-ui-i18n.ts:1398-1405 | the loop accepts a reply or reports the first item without an answer |
| TranslateBatch.ClientAccess.constructor | scripts/control-ui-i18n.ts:1527-1528 | no client and no prompts at first |
| TranslateBatch.ClientAccess.GetClient | scripts/control-ui-i18n.ts:1529-1534 | the current client, or a new one that was never prompted |
| TranslateBatch.ClientAccess.ResetClient | scripts/control-ui-i18n.ts:1535-1541 | after a failure the client is dropped, which restores the discipline |
| TranslateBatch.ClientAccess.Record | scripts/control-ui-i18n.ts:1394-1411 | one exchange with the current client; only a failed one leaves the client to be dropped |
| SyncPrompts.TranslateInTurn | scripts/control-ui-i18n.ts:1544-1571 | the loop over the batches returns what the specification function says and sends as many prompts |
| SyncPrompts.TranslateBatches | scripts/control-ui-i18n.ts:1520-1586 | for n pending items, at most 4n prompts less two for every batch; clients are used in order across the batches, and none is kept |
| SyncPrompts.SyncBound | scripts/control-ui-i18n.ts:1544-1571 | that bound for every sequence of outcomes; without an error every batch is answered, each answer with the keys of its batch |
| SyncPrompts.SyncBoundIsTight | scripts/control-ui-i18n.ts:1544-1571 | for all pending items and every budget some sync sends exactly that many prompts and succeeds |
| PiRpcClient.NoMixedAnswers | scripts/control-ui-i18n.ts:1213-1334 | in every reachable state: at most one unsettled prompt per client, pending with both timers armed; a settled one has both cleared; a resolved one has its own `agent_end`; a rejected one is its client's last |
| PiRpcClient.SettledForGood | scripts/control-ui-i18n.ts:1213-1334 | over the rest of any run a settlement never changes, and a client that rejected a prompt is sent no other |
| PiRpcClient.EndedForGood | scripts/control-ui-i18n.ts:1197-1301 | after a timeout of its pending prompt, or the end of its process, a client stays closed and is sent no prompt for the rest of any run, and what was pending stays rejected |
| PiRpcVerdicts.SettledByFirstVerdict | scripts/control-ui-i18n.ts:1140-1348 | in every run a pending prompt is settled by the first callback of its client that has a verdict for it, with that verdict, for good |
| PiRpcVerdicts.WaitsForVerdict | scripts/control-ui-i18n.ts:1140-1348 | and until then it stays pending, whatever else happens |
| PiRpcVerdicts.AcknowledgedThenAnswered | scripts/control-ui-i18n.ts:1238-1264 | acknowledgements, and responses with another id, change nothing; an `agent_end` line after any number of them resolves the prompt with that line, or rejects it without a text, as a failure response with its id does |
| PiRpcVerdicts.PendingAfter | scripts/control-ui-i18n.ts:1193-1328 | event by event: failure response, line, timeout, write error, process error and end settle the pending prompt; anything else leaves it pending with both timers armed |
| PiRpcVerdicts.FirstVerdictCounts | scripts/control-ui-i18n.ts:1193-1328 | over any history of callbacks the first verdict counts |
| PiRpcVerdicts.NothingPending | scripts/control-ui-i18n.ts:1234-1237 | with nothing pending no callback does anything but close the client |
| PiRpcVerdicts.ClosedIff | scripts/control-ui-i18n.ts:1197-1347 | `close`, the end of the process and the timeout of the pending prompt close a client, and nothing else does |
| TranslatorRuns.LogIsHistory | scripts/control-ui-i18n.ts:1381-1443 | every log of the translator, with any fitting ending for each exchange, is exactly the history of exchanges of a run of the prompt clients |
| TranslatorRuns.ExchangeHappens | scripts/control-ui-i18n.ts:1394-1411 | one exchange is a prompt, the callback that settles it, and its acceptance or the dropping of the client; or a refusal by a closed client |
| TranslatorRuns.TranslatorRunsAreSafe | scripts/control-ui-i18n.ts:1381-1443 | so in these runs no prompt has the answer of another one, and only a client's last prompt can have failed |
| PiRpcClient.RunInvariant | scripts/control-ui-i18n.ts:1140-1348 | the invariant holds after every step of every run |
| PiRpcClient.StepKeepsInv | scripts/control-ui-i18n.ts:1381-1443 | every step of the driver and every callback, in any order, keeps it |
| PiRpcClient.DeliverKeepsInv | scripts/control-ui-i18n.ts:1221-1334 | every callback of one client keeps the pending prompt and the timers consistent |
| PiRpcClient.SettlementsStay | scripts/control-ui-i18n.ts:1303-1315 | no callback changes a settlement |
| PiRpcClient.PiRpcClient.constructor | scripts/control-ui-i18n.ts:1140-1152 | an open client with nothing pending |
| PiRpcClient.PiRpcClient.StartPrompt | scripts/control-ui-i18n.ts:1269-1316 | on an open client a new pending prompt with both timers armed; a closed one throws and is unchanged |
| PiRpcClient.PiRpcClient.SettlePrompt | scripts/control-ui-i18n.ts:1303-1315 | clears both timers and settles the promise unless it is settled |
| PiRpcClient.PiRpcClient.RejectPendingPrompt | scripts/control-ui-i18n.ts:1213-1219 | rejects the pending prompt, if any |
| PiRpcClient.PiRpcClient.OnResponse | scripts/control-ui-i18n.ts:1239-1254 | only a failure response with the pending id rejects |
| PiRpcClient.PiRpcClient.OnAgentEnd | scripts/control-ui-i18n.ts:1255-1264 | settles the pending prompt with the line's text, or rejects it if there is none to extract |
| PiRpcClient.PiRpcClient.OnTimer | scripts/control-ui-i18n.ts:1289-1301 | a timeout of the pending prompt rejects it and closes the client |
| PiRpcClient.PiRpcClient.OnProcessError | scripts/control-ui-i18n.ts:1193-1195 | a process error rejects the pending prompt |
| PiRpcClient.PiRpcClient.OnProcessClose | scripts/control-ui-i18n.ts:1197-1202 | the end of the process closes the client and rejects the pending prompt |
| PiRpcClient.PiRpcClient.OnWriteError | scripts/control-ui-i18n.ts:1318-1328 | a write error rejects its own prompt |
| PiRpcClient.PiRpcClient.CloseClient | scripts/control-ui-i18n.ts:1336-1347 | closing is idempotent and settles nothing |
| LocaleSyncLaws.SyncIsIdempotent | scripts/control-ui-i18n.ts:1478-1704 | on the files a sync works out, the next sync of the same source under the same configuration, or the same without its provider, and under any options, clock and translator, changes nothing |
| LocaleSyncLaws.CheckAfterWriteIsClean | scripts/control-ui-i18n.ts:1654-1704 | a run after one that wrote its files, with its provider or without, reports no change and the same fallback count |
| LocaleSyncLaws.UnchangedIfAllStay | scripts/control-ui-i18n.ts:1478-1704 | a later run under any other configuration changes nothing, whatever its translator, if it finds no other text in the memory, refreshes no fallback and has the provider on record |
| LocaleSyncRuns.UnchangedIff | scripts/control-ui-i18n.ts:1478-1704 | and only if, as long as the later run succeeds |
| LocaleSyncRuns.ProviderComesIff | scripts/control-ui-i18n.ts:1478-1652 | when a provider is there on the later run: if and only if no key had fallen back and provider and model are those on record |
| LocaleSyncRuns.OtherCacheKeysIff | scripts/control-ui-i18n.ts:285-296 | when the later run has no provider and other cache keys, and no key had fallen back: if and only if the memory holds no other text under these keys |
| LocaleSyncRuns.ProviderLeavesNoFallbacks | scripts/control-ui-i18n.ts:1595-1628 | a sync with a provider leaves no fallback keys |
| LocaleSyncRuns.FallbackIsRefreshed | scripts/control-ui-i18n.ts:1478-1519 | one key without files or provider falls back; a later run with a provider, if it succeeds, does not leave the files unchanged |
| LocaleSyncRuns.StaleEntryComesBack | scripts/control-ui-i18n.ts:1478-1519 | one key with a text in the locale file and another one in the memory under the cache key of another namespace, as a sync there writes it: a sync in that namespace does not leave the files unchanged |
| LocaleSyncLaws.OutputKeysAreSourceKeys | scripts/control-ui-i18n.ts:1618-1621 | the written map has exactly the source's keys, in the source's order |
| LocaleSyncLaws.SettleEstablishes | scripts/control-ui-i18n.ts:1478-1609 | after the loops every source key has a text, only source keys have one, and with a provider none falls back |
| LocaleSyncLaws.SettlesAgain | scripts/control-ui-i18n.ts:1478-1609 | the loops of the second run end where those of the first did |
| LocaleSyncLaws.RenderThenLoad | scripts/control-ui-i18n.ts:485-514 | a rendered memory loads back to the same lookups and renders to the same lines |
| LocaleSyncLaws.ByTextHashSound | scripts/control-ui-i18n.ts:516-528 | the index by text hash holds an entry of the memory for exactly the hashes of its usable entries |
| LocaleSyncLaws.LastOfHashWins | scripts/control-ui-i18n.ts:516-528 | namely the last one of each hash |
| LocaleSyncLaws.SortedKeysSame | scripts/control-ui-i18n.ts:1626-1628 | the sorted fallback list depends only on the set of keys |
| LocaleSyncTexts.TextOrigins | scripts/control-ui-i18n.ts:1478-1609 | every key's text, fallback mark and memory entry, judged by the loaded files alone: memory, then equal text, then existing text, else translated in its batch; without a provider an unknown key gets the source text and falls back |
| LocaleSyncTexts.WrittenFilesHoldEveryText | scripts/control-ui-i18n.ts:1478-1704 | the written files, read back, hold all that for every source key |
| LocaleSyncTexts.MetaCounts | scripts/control-ui-i18n.ts:1623-1652 | the written meta counts every source key once, as translated or as fallback, and lists the fallback keys in order without repetition |
| LocaleSyncTexts.ForceIsIdle | scripts/control-ui-i18n.ts:1595-1678 | a sync with `force` does exactly what one without it does, at both places that read the option |
| LocaleSyncTexts.BatchTranslatorIsOk | scripts/control-ui-i18n.ts:1389-1442 | the retry-and-split translator, over any replies, is a translator as the sync needs it: all keys, no blank text |
| LocaleSyncOutcome.WritesIff | scripts/control-ui-i18n.ts:1669-1714 | a sync writes if and only if something changed, writing was asked for and it is no check; otherwise the files are left alone, and written ones are all four as generated |
| LocaleSyncOutcome.LeavesGenerated | scripts/control-ui-i18n.ts:1654-1704 | after a writing run that does not fail the files are those it works out, and the count reported is that of the fallback keys listed there |
| LocaleSyncOutcome.CheckForetellsWrite | scripts/control-ui-i18n.ts:1669-1714 | any run, a check in particular, foretells the error, the counts and the writing of a writing run |
| LocaleSyncOutcome.FailureIsReported | scripts/control-ui-i18n.ts:1572-1583 | the first failing batch ends the sync with its error, or, for an authentication error that may be skipped, with the files left alone and the fallback keys on record counted |
| LocaleSyncOutcome.FirstFailureEnds | scripts/control-ui-i18n.ts:1544-1583 | the error of the translation is that of the first batch that fails |
| LocaleSyncOutcome.NoFailureEnds | scripts/control-ui-i18n.ts:1544-1571 | and there is none exactly if no batch fails |
| LocaleSyncOutcome.MismatchIsReported | scripts/control-ui-i18n.ts:1616-1616 | a placeholder mismatch is an error whatever was asked for |
| LocaleSyncOutcome.UnansweredIsPassedOver | scripts/control-ui-i18n.ts:1551-1555 | items given no text or an empty one are passed over |
| LocaleSyncOutcome.PassedOverFallsBack | scripts/control-ui-i18n.ts:1595-1609 | such an item keeps the text of the locale, and its mark, unless `force` is set, and else gets the source text and falls back |
| LocaleSyncOutcome.LastEntryIsKept | scripts/control-ui-i18n.ts:485-504 | the loaded memory has, under a cache key, the last line with a text |
| LocaleSyncOutcome.NothingElseIsKept | scripts/control-ui-i18n.ts:485-504 | and nothing if there is none |
| LocaleSyncOutcome.RenderedInOrder | scripts/control-ui-i18n.ts:506-514 | the memory is written with every entry once, ordered by cache key |
| LocaleSyncOutcome.LastOfferIsFound | scripts/control-ui-i18n.ts:516-528 | the index finds the last entry of the locale with the text hash and a text |
| LocaleSyncOutcome.NoOfferIsFound | scripts/control-ui-i18n.ts:516-528 | and nothing if there is none |
| LocaleSyncOutcome.MetaSays | scripts/control-ui-i18n.ts:1623-1652 | every field of the written meta file; it is dated anew exactly if another field differs from the one on record |
| LocaleSyncOutcome.GlossaryIsKept | scripts/control-ui-i18n.ts:1656-1660 | a glossary with entries is kept, an absent or empty one replaced by the default |
| LocaleSync.SyncLocale | scripts/control-ui-i18n.ts:1452-1715 | the loops, the batches, the error exits and the writing, as the specification function says |
| LocaleSync.TranslatePending | scripts/control-ui-i18n.ts:1544-1571 | the batches are asked for in order and stored one by one; the first error ends it |
| LocaleSync.StoreBatch | scripts/control-ui-i18n.ts:1552-1570 | the answers of one batch enter the texts and the memory |
| LocaleSync.LoadState | scripts/control-ui-i18n.ts:1464-1473 | what is loaded from the files before the loops |
| LocaleSync.LoadTranslationMemory | scripts/control-ui-i18n.ts:485-504 | the loop keeps the last usable entry of each cache key, at the place of the first |
| LocaleSync.BuildTranslationMemoryByTextHash | scripts/control-ui-i18n.ts:516-528 | the loop builds the index by text hash |
| LocaleSync.RebuildMap | scripts/control-ui-i18n.ts:1618-1621 | the loop sets every source key in order |
| LocaleSync.WorkOutFiles | scripts/control-ui-i18n.ts:1618-1664 | the files to write |
| Sorting.SortSorts | scripts/control-ui-i18n.ts:506-514 | sorting permutes and sorts |
| Sorting.SortedUnique | scripts/control-ui-i18n.ts:506-514 | with distinct keys a sorted permutation is unique |
| ArgumentScanner.FindsClosingParen | scripts/check-temp-path-guardrails.ts:72-95 | in any text, for any well-bracketed, quote-closed argument list, the parenthesis found is the one that closes the call |
| ArgumentScanner.SplitInvertsJoin | scripts/check-temp-path-guardrails.ts:97-162 | splitting a printed argument list gives the arguments back if and only if the last one is not empty |
| ArgumentScanner.SplitJoined | scripts/check-temp-path-guardrails.ts:97-162 | otherwise it gives all but the last |
| ArgumentPositions.FindsFirstClosing | scripts/check-temp-path-guardrails.ts:72-95 | in any text whatsoever, the parenthesis found is the first one outside quotes that matches that of the call, and none is found only if there is none |
| ArgumentPositions.SplitsAtSeparators | scripts/check-temp-path-guardrails.ts:97-162 | any text is split at exactly the commas outside quotes and brackets, a closing bracket without an open one not counting; the texts between them are trimmed, and the last is dropped if blank |
| ArgumentPositions.QuotesAre | scripts/check-temp-path-guardrails.ts:46-52 | the three quote characters |
| ArgumentScanner.FindMatchingParen | scripts/check-temp-path-guardrails.ts:72-95 | the loop over a shared quote state returns the index of the specified parenthesis, or -1 |
| ArgumentScanner.SplitTopLevelArguments | scripts/check-temp-path-guardrails.ts:97-162 | the loop with its three depth counters splits as specified, on every text |
| ArgumentScanner.QuoteScanState.BeginQuotedSection | scripts/check-temp-path-guardrails.ts:46-52 | a quote character opens a section, any other leaves the state alone |
| ArgumentScanner.QuoteScanState.ConsumeQuotedChar | scripts/check-temp-path-guardrails.ts:54-70 | inside quotes every character is consumed, escapes and the closing quote included |
| WorkerPool.EveryScheduleAgrees | scripts/check-temp-path-guardrails.ts:223-262 | under every interleaving there are at most 3n + W steps, and when all workers have stopped the result is the sequential one and every index was claimed exactly once |
| WorkerPool.ResultInOrder | scripts/check-temp-path-guardrails.ts:223-262 | that result has, in the order of the paths, every file with a path that can be read, and nothing else |
| WorkerPool.PresentInOrder | scripts/check-temp-path-guardrails.ts:262-262 | the filter keeps the filled slots, all and in order |
| WorkerPool.StepKeepsInv | scripts/check-temp-path-guardrails.ts:232-254 | no step claims an index twice or writes a slot of another worker |
| WorkerPool.StepUsesUp | scripts/check-temp-path-guardrails.ts:232-254 | every step of a running worker lowers the bound |
| WorkerPool.StoppedMeansComplete | scripts/check-temp-path-guardrails.ts:256-262 | when all workers have stopped no file is missing |
| WorkerPool.NeverStuck | scripts/check-temp-path-guardrails.ts:232-254 | a worker that has not stopped can always go on |
| WorkerPool.Pool.constructor | scripts/check-temp-path-guardrails.ts:227-230 | an empty output slot per path and the counter at zero |
| WorkerPool.Pool.Advance | scripts/check-temp-path-guardrails.ts:232-254 | one worker from one await to the next, on the shared counter and array |
| WorkerPool.ReadRuntimeSourceFiles | scripts/check-temp-path-guardrails.ts:223-262 | under an arbitrary scheduler the pool ends and returns the sequential result |
| RestartProbe.WaitForRestartProbe | scripts/bench-gateway-restart.ts:617-702 | for every trace of attempts: 200s, then failures, then at most one final 200; every reported time, status and transition; and the probe stops at the first reason to stop and not before |
| RestartProbe.DowntimeIsNotNegative | scripts/bench-gateway-restart.ts:682-692 | a downtime is reported exactly with a recovery, is the difference of the two times, and is not negative if the clock never runs back |
| RestartProbe.TurnsAreAll | scripts/bench-gateway-restart.ts:656-673 | the turns of a trace in order, none left out |
| RestartProbe.TransitionsAreTurns | scripts/bench-gateway-restart.ts:656-673 | the transitions are exactly the attempts at which the state turns, in order |
| RestartReport.TransitionsInOrder | scripts/bench-gateway-restart.ts:653-668 | the transitions are, in order, exactly the first attempt and those whose status or kind of error is not that of the one before, each with its time, status and error |
| RestartReport.FirstErrorIs | scripts/bench-gateway-restart.ts:670-672 | the error reported is that of the first attempt with one |
| RestartReport.NeverDown | scripts/bench-gateway-restart.ts:639-702 | if every attempt is answered 200 no outage is reported, and the time is that of the last |
| RestartReport.DownSince | scripts/bench-gateway-restart.ts:673-702 | else the outage starts at the first other answer, and ends, with its duration, if and only if the last attempt is answered 200 |
| RestartReport.StopsIff | scripts/bench-gateway-restart.ts:635-652 | why no further attempt is made, told by flags and statuses |
| OutputLines.ChunkingDoesNotMatter | scripts/bench-gateway-restart.ts:1096-1121 | however both streams are cut and interleaved, after the flush each has handled exactly the non-empty lines of its whole text |
| OutputLines.PiecesConcat | scripts/bench-gateway-restart.ts:1096-1102 | splitting a text is splitting its parts with the last piece carried over, even between CR and LF |
| OutputOrder.PiecesAreCut | scripts/bench-gateway-restart.ts:1096-1102 | the pieces with LF or CR LF between them are the text; none holds a break, and no CR is left before an LF |
| OutputOrder.CutIsUnique | scripts/bench-gateway-restart.ts:1096-1102 | there is only one such way to cut a text |
| OutputLines.RunMeans | scripts/bench-gateway-restart.ts:1366-1382 | before the flush each stream has handled its finished lines and buffers the rest |
| OutputOrder.ChunkInOrder | scripts/bench-gateway-restart.ts:1366-1382 | a chunk hands over the non-empty lines it finishes after all earlier ones, buffers the rest, and leaves the other stream alone |
| OutputOrder.FlushInOrder | scripts/bench-gateway-restart.ts:1104-1121 | a flush hands over what is left, stdout before stderr; without `flushPartial` nothing happens |
| OutputOrder.NonEmptyInOrder | scripts/bench-gateway-restart.ts:1326-1329 | the lines kept are those that are not empty, all and in order |
| OutputLines.OutputBuffers.OnLine | scripts/bench-gateway-restart.ts:1326-1329 | empty lines are ignored |
| OutputLines.OutputBuffers.Receive | scripts/bench-gateway-restart.ts:1366-1382 | one chunk: its finished lines are handled, the rest is buffered for its stream only |
| OutputLines.OutputBuffers.FlushOutputLineBuffers | scripts/bench-gateway-restart.ts:1104-1121 | the buffers are handled and emptied, stdout first, or left alone |
| ProcessTree.ReadProcessTreeCpuMs | scripts/bench-gateway-restart.ts:966-1015 | the CPU time of exactly the processes reachable from the root, each once, for any parent relation; `null` exactly when the root is not listed or `ps` is not available |
| ProcessTree.IndexRows | scripts/bench-gateway-restart.ts:976-998 | children in line order, repeated lines included, and the last CPU time of each pid |
| ProcessTree.ChildrenInOrder | scripts/bench-gateway-restart.ts:991-994 | a process has the pids of all lines that name it as parent, in their order |
| ProcessTree.TotalRemove | scripts/bench-gateway-restart.ts:1000-1014 | the sum does not depend on the order of the walk |
| ProcessTree.TotalCounts | scripts/bench-gateway-restart.ts:976-1014 | each process adds the time of its last line, once |
| ProcessTree.WalkDone | scripts/bench-gateway-restart.ts:1000-1014 | when the stack is empty the visited pids are exactly the tree |
| ModuleClosure.CollectInstalledPluginSdkZodArtifactErrors | scripts/nova-ai-npm-postpublish-verify.ts:254-307 | no error exactly if every module reachable from the entry exists, is a file within the limit, parses and does not import zod; otherwise one error that is true of such a module; terminates on import cycles |
| ModuleClosure.ResolveInstalledDistRelativeImport | scripts/nova-ai-npm-postpublish-verify.ts:218-252 | the first usable candidate of a relative specifier |
| ModuleClosure.FirstUsable | scripts/nova-ai-npm-postpublish-verify.ts:236-251 | a result is usable and a candidate; none exactly if no candidate is |
| ImportResolution.ResolveIff | scripts/nova-ai-npm-postpublish-verify.ts:218-252 | an import is followed if and only if it is relative, to the first of its seven possible files that is present inside dist |
| ImportResolution.ClosureFollows | scripts/nova-ai-npm-postpublish-verify.ts:261-304 | the file an import of a module in the closure leads to is in the closure |
| ImportResolution.ClosureOnlyFollows | scripts/nova-ai-npm-postpublish-verify.ts:261-304 | and nothing else but the entry is; so all of it lies inside dist |
| ImportResolution.InOrderIff | scripts/nova-ai-npm-postpublish-verify.ts:271-293 | a module is in order if and only if it is a plain file of at most 6 MiB that parses and imports neither `zod` nor any `zod/` path |
| ModuleClosure.WorkDone | scripts/nova-ai-npm-postpublish-verify.ts:261-306 | when the worklist is empty the whole closure is in order |
| CanonicalJson.StableIsCanonical | scripts/protocol-gen-swift.ts:112-129 | two trees have the same stable form if and only if they are equal up to the order of object keys at every depth |
| CanonicalJson.StableIsIdempotent | scripts/protocol-gen-swift.ts:112-125 | the stable form of a stable form is itself |
| CanonicalJson.StableIsSame | scripts/protocol-gen-swift.ts:112-125 | a stable form is a proper tree equal to the original up to key order |
| SchemaRegistry.NamedIffUnique | scripts/protocol-gen-swift.ts:131-150 | the structural fallback names a schema if and only if exactly one registration is equal to it up to key order, and then by that registration's name |
| SchemaRegistry.RegisterKeepsInv | scripts/protocol-gen-swift.ts:131-143 | signatures registered once are named, those registered more often are duplicates, for good |
| SchemaRegistry.AfterInv | scripts/protocol-gen-swift.ts:131-143 | hence after any sequence of registrations |
| SchemaRegistry.LastRegistrationNames | scripts/protocol-gen-swift.ts:131-150 | a registered object itself is named by its last registration, whatever its structure |
| SchemaRegistry.Registry.constructor | scripts/protocol-gen-swift.ts:107-110 | the maps are empty |
| SchemaRegistry.Registry.RegisterNamedSchema | scripts/protocol-gen-swift.ts:131-143 | the module-level maps are those of the registrations so far |
| SchemaRegistry.Registry.Lookup | scripts/protocol-gen-swift.ts:145-150 | by object first, by structure only if allowed |
| SparkleFloors.FloorsArePositional | scripts/sparkle-build.ts:37-52 | the numbers made by gluing padded digits are positional in year, month, day and lane |
| SparkleFloors.LaneFloorsAreLexicographic | scripts/sparkle-build.ts:37-52 | lane floors compare exactly as (year, month, day, lane) |
| SparkleFloors.SchemesAreSeparate | scripts/sparkle-build.ts:37-52 | legacy floors lie below 10^9 and lane floors above it exactly for years from 1000 on |
| SparkleFloors.LaneOfSuffix | scripts/sparkle-build.ts:39-49 | the lane is 90 without a suffix, else the number the suffix ends in, up to 89, or 1 if it ends in none |
| SparkleFloors.CollectAppcastSparkleVersionErrors | scripts/release-check.ts:678-735 | both passes report the specified errors, in order |
| SparkleFloors.MoreItemsKeepReports | scripts/release-check.ts:713-732 | item by item: adding or reordering items removes no floor error, counted with multiplicity by title and build |
| SparkleFloors.MoreItemsKeepFloorErrors | scripts/release-check.ts:713-732 | and the floor an item is reported against does not fall |
| SparkleFloors.AdoptionIsMinimum | scripts/release-check.ts:713-720 | the threshold is the earliest date among the items numbered by lane, but no later than the fixed one |
| AppcastReport.ReportInOrder | scripts/release-check.ts:678-735 | the whole report: an empty appcast, then every item without a readable build number, then every dated item whose build is less than its floor, each in the order of the items, with title, build and floor |
| AppcastReport.FormatErrorsInOrder | scripts/release-check.ts:693-700 | the first pass reports exactly the items whose build number is absent, empty or not all digits |
| AppcastReport.FloorErrorsInOrder | scripts/release-check.ts:722-732 | the second pass exactly the dated ones below their floor; a build at its floor is not reported |
| AppcastReport.CalverItemsInOrder | scripts/release-check.ts:702-711 | it looks at exactly the items with a readable build number and a valid date, in order |
| AppcastReport.AdoptionIs | scripts/release-check.ts:713-720 | lane floors apply from the fixed date, or from that of the earliest lane build if it is earlier |

## Left out

- ProtoReader.ProtoReader.Varint: a value of 2^53 or more, or one of more than 147 groups, is an error here; the source goes on with a rounded or infinite number, because floating-point rounding is not modelled.
- OtlpDecoder.SpanAttributes: the attribute values stay as decoded; `normalizeOtlpValue` is a case distinction over them and is left out.
- OtlpDecoder.DecodeTraceRequest: strings and doubles are kept as their bytes, and `TextDecoder` is a parameter.
- TranslationTree.SetNestedValue: the maps are values and the cursor is the path it has walked, so aliasing between nested maps is not modelled.
- TranslateBatch.TranslateBatch: replies are an oracle of already parsed members; the prompt text, `JSON.parse`, labels, logging and the retry delay are not modelled, and case folding of error messages is that of ASCII letters.
- TranslatorRuns.LogIsHistory: the endings of the exchanges are chosen to fit the log; that a failed exchange has the error text the translator saw is not tracked.
- PiRpcClient.PiRpcClient.OnAgentEnd: `extractTranslationResult` is the flag `usable`, and lines that do not parse or are of another type change nothing and are left out.
- LocaleSync.SyncLocale: file contents are values with a flag for "exactly as rendered", one time stamp serves the whole run, which errors are authentication errors to be skipped is a parameter, an empty memory is written as an empty file even where there was none, and an error carries no message text beyond that of the translator.
- LocaleSync.LoadTranslationMemory: a line that is not JSON, or an entry without a string, throws in the source; here every line is an entry.
- ArgumentScanner.SplitTopLevelArguments: characters are Unicode scalar values, not UTF-16 code units; the regular expressions that use the scanner are left out.
- RestartProbe.WaitForRestartProbe: attempts, flags and clock readings are inputs; events, delays and the HTTP request are left out.
- OutputLines.OutputBuffers.Receive: a chunk is text; a UTF-8 sequence cut between two chunks is not modelled.
- OutputLines.OutputBuffers.OnLine: handling a line records it; the log classification and trace collection behind it are left out.
- ProcessTree.ReadProcessTreeCpuMs: running `ps` and parsing its lines and times are left out; the rows are parsed ones.
- ModuleClosure.CollectInstalledPluginSdkZodArtifactErrors: Node's path functions are parameters and the file table does not change during the check; error texts are constructors.
- SchemaRegistry.NamedIffUnique: the order in which JavaScript enumerates integer-like keys plays no role here, since a signature stands for the stable tree.
- SparkleFloors.CollectAppcastSparkleVersionErrors: the regular expressions over the XML and the version pattern are left out (the parsed parts are given), and build numbers are exact integers.
- `summarizeCase`, `median`, `percentile`, `slope`: statistics over samples, easy members.
- Raw-copy scan, glossary prompts, placeholder patterns (a parameter `parity`), locale registry: library and text work.
- Swift emission, cross-OS release checks, import-cycle checks, the other benchmarks and the publish scripts: orchestration, or code in files that are not part of this model.
- Process spawning, HTTP, file reading and writing, logging and argument parsing everywhere.
