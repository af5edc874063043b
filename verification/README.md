# Verified model of the anonymization gateway

This project models the parts of the gateway that decide what is masked, what is restored and what is counted, and
proves what they guarantee. Statements are for all inputs, or for all runs, of the modelled code; where a property does
not always hold, a lemma gives an input, or a family of inputs, on which it fails, and another the exact condition.

Conventions used throughout:

- One module per source file, or per concern where a file's theory is long (`SpanArbiter` computes, `SpanWinner` says
  what the result means; likewise `RegexDetector` and `RegexCoverage`, and the three preset modules). `RoundTrip`
  joins tokenizer and restorer, with `Sessions` (what a tokenizer session keeps) and `Decoding` (when restoring undoes
  given edits); `Pipeline` joins arbiter and tokenizer, `Preview` tokenizer and offset records. `PieceOrigins`,
  `PresetFields`, `DiscoveryEntries`, `ApprovalTimes` and `RouteNames` say what the results mean in terms of what was
  put in: detections, document fields, log entries, microseconds and the name asked for.
- Code that loops or updates fields is a method or a class. Its contract equates the result or the new state with a
  specification function, and lemmas prove about that function what the program promises.
- Where there are two forms of the same thing, they are connected: the arbiter's rescanning loop and a one-pass sweep,
  the approval store and a ledger without a store, the log scrubber's splice and a per-character mask, two log
  aggregators and one monoid of sightings, the route table's side list and a plain scan, the stream pattern with its
  look-arounds and a rewriting of runs, the UTF-16 encoder and a decoder, the Luhn sum and the table of the standard.
- The clock, random numbers, fetched documents and, except for the two patterns that restore tokens, the outcomes of
  regular-expression searches are parameters. Times are integers (microseconds in `Approvals`, milliseconds in `TailBuffer`, ticks in `Jwks`) or reals (`RateLimiter`);
  scores and thresholds are reals.

Spans given to the arbiter, to the regex collapse and to the log scrubber satisfy `start < end`, as detectors
produce them. The tokenizer and the offset projection filter malformed spans themselves, so they have no such
precondition.

## What turned out different from the documentation

- `streaming/tail_buffer.py` promises (AG-05) that a partial token is never emitted. The code cuts 128 characters
  before the end of the buffer wherever that falls, so a token can be cut although all of it has arrived.
  `TailBuffer.WholeTokenIsCut` gives an input and `TailBuffer.TokenIsCutIff` the exact condition.
- `detection/regex_detector.py` says that a containing match is preferred to the matches inside it. It can lose to a
  match that crosses its start, and then what lies inside it survives (`RegexDetector.ContainedMatchCanSurvive`).
  `RegexDetector.ContainedMatchesAreDroppedIff` gives the exact condition on its arrival, and
  `RegexDetector.TurnedAwayIff` says the same in terms of the inputs alone.
- The regex detector's overlap removal can lose detected characters (`RegexCoverage.PartialOverlapLosesCharacters`);
  `RegexCoverage.NothingIsLostIff` says, on the inputs alone, exactly when it loses none.
- Restoring a tokenized text gives the original if no token is spelled where none was put, and for values and tokens
  that cannot be confused only then (`RoundTrip.TokenizeThenRestore`). For types without brackets it is enough to look
  at the text between the detected values (`RoundTrip.OnlyTheGapsMatter`); with brackets in types it is not
  (`RoundTrip.BracketedTypeCapturesTheGap`).
- The restorer ignores case and the tokenizer does not. A session has different tokens that are equal up to case
  exactly when it has different types that are (`Sessions.TokensDifferIff`); `RoundTrip.CaseTwinsCollide` is an input.
- Streamed text is restored chunk by chunk with another pattern. `StreamRestoration.CutAgreesIff` says at which cuts
  that gives what restoring the whole text gives; it can fail although no token is cut
  (`StreamRestoration.CutMakesAToken`), and beside a letter, digit or underscore a token's bracket stays behind
  (`StreamRestoration.TokenComesOut`).
- The preview looks tokens up by value, in a mapping that drops the reversibility the tokenizer distinguishes. Its
  records are exact exactly if no replaced value got a token of the other kind later (`Preview.PreviewIsExactIff`;
  `Preview.SecretSeenAgainIsMisreported` is an input).
- A compliance preset that lists tier `BOTH` for a mandatory type can never be satisfied by the merge made from it
  (`PresetValidation.MergeIsCompliantIff`), and minimum tiers never raise a type's own tier
  (`PresetMerge.MergedTiersNeverPromote`).
- Approving and denying do not look at `expires_at` (`Approvals.OverdueTokenCanBeApproved`);
  `Approvals.ApprovalSucceedsIff` says, on the run alone, when an approval succeeds.
- The arbiter's documentation says "most specific wins" for every inexact overlap. `SpanWinner.KeyIsReportedAsUrl` is
  an input on which an API key is reported as a URL because another span with its range arrived first, and
  `SpanWinner.OutputIsMostSpecificIff` is the exact condition. The rescan after a union never finds a second overlap
  (`SpanArbiter.OnlyLastOverlaps`), and the final sort changes nothing (`SpanArbiter.FinalSortIsIdle`).
- A route just added answers for its own name only if no older entry answers first. `RouteTable.AddedRouteIsFoundIff`
  is the exact condition for every name: a plain name is shadowed by one equal up to case
  (`RouteTable.CaseVariantIsShadowed` is an input), a wildcard by an older wildcard that covers it, and a name with a
  port is looked up without it.

## Model

| member | source | states |
|---|---|---|
| SpanArbiter.Accept | src/anonreq/detection/span_arbiter.py:105-125 | The rescan loop terminates, and its result is one step of the linear sweep: append the span, or unite it with the last accepted span only. |
| SpanArbiter.MergeWith | src/anonreq/detection/span_arbiter.py:89-133 | For any catalogue, the result of tagging, sorting, rescanning, untagging and sorting again is the one-pass sweep over the inputs in arrival order. |
| SpanArbiter.Merge | src/anonreq/detection/span_arbiter.py:62-133 | The same with the tables the program ships with. |
| SpanArbiter.OnlyLastOverlaps | src/anonreq/detection/span_arbiter.py:108-125 | An incoming span can overlap only the last accepted span, and after the union nothing else overlaps. |
| SpanArbiter.FinalSortIsIdle | src/anonreq/detection/span_arbiter.py:127-131 | The survivors are already in (start, end) order before the final sort. |
| SpanArbiter.SweepKeepsBounds | src/anonreq/detection/span_arbiter.py:156-173 | The bounds of the result are the sweep over the bounds of the inputs, whatever types and flags they carry. |
| SpanArbiter.OutputsAreComponents | src/anonreq/detection/span_arbiter.py:92-133 | Outputs are non-empty, in text order and pairwise disjoint, and a range is an output exactly when it is an overlap component: covered at its start, linked at every interior position, linked to nothing outside. |
| SpanArbiter.OutputsCoverInputs | src/anonreq/detection/span_arbiter.py:83-87 | A character lies in an output exactly when it lies in an input. |
| SpanArbiter.EachInputHasOneOutput | src/anonreq/detection/span_arbiter.py:83-87 | Each input lies inside exactly one output and shares no character with any other. |
| SpanArbiter.BoundsIgnoreTheDetector | src/anonreq/detection/span_arbiter.py:92-101 | Two calls whose inputs occupy the same ranges give the same output ranges, however spans are split among detectors, ordered, repeated, scored or typed. |
| SpanWinner.OutputsResolveTheirMembers | src/anonreq/detection/span_arbiter.py:103-125 | Every output is the left fold of the winner rule over exactly the inputs inside it, in arrival order. |
| SpanWinner.ExactStepMeansEqualBounds | src/anonreq/detection/span_arbiter.py:199-201 | The test for an exact overlap against the growing union holds exactly when the input repeats another input's range and that range is the union of everything before it. |
| SpanWinner.TypeComesFromAMember | src/anonreq/detection/span_arbiter.py:135-154 | The surviving type, score and source are those of one and the same input. |
| SpanWinner.ClusterIsMostSpecificIff | src/anonreq/detection/span_arbiter.py:146-154 | A cluster's winner has the highest specificity exactly when some most specific member is not discarded by an identical range on arrival and not overwritten by a less specific one later. |
| SpanWinner.OutputIsMostSpecificIff | src/anonreq/detection/span_arbiter.py:135-154 | The same for the outputs of a whole merge; without repeated ranges in the cluster the most specific type always wins. |
| SpanWinner.WinnerIs | src/anonreq/detection/span_arbiter.py:135-154 | Which member of a cluster hands on its type, score, source and list: of the last regex span that took the cluster over with an identical range (or the first member) and of what came later without repeating the range so far, the first of highest specificity. |
| SpanWinner.FirstMostSpecificWins | src/anonreq/detection/span_arbiter.py:150-154 | Without repeated ranges in the cluster: the first of the most specific members, so a later span of equal specificity changes nothing. |
| SpanWinner.OutputHasTheWinnersFields | src/anonreq/detection/span_arbiter.py:103-173 | An output of a whole merge has the fields of that one input; `reversible` is set to false exactly where several inputs meet and one is irreversible, and otherwise is the winner's. |
| SpanWinner.UnrankedNeverDisplaces | src/anonreq/detection/span_arbiter.py:150-154 | A type without a specificity displaces nothing, except by an identical range. |
| SpanWinner.ArrivalOrder | src/anonreq/detection/span_arbiter.py:92-101 | Spans arrive by start and then by descending score; those that agree in both keep the order of the lists, regex first. |
| SpanWinner.ArrivalKeepsFields | src/anonreq/detection/span_arbiter.py:26-50 | What arrives for an input has the input's fields and list, and both flags exactly if the input must not be restored. |
| SpanWinner.IdenticalRangeHidesTheMostSpecific | src/anonreq/detection/span_arbiter.py:146-154 | A family of inputs where the most specific type is a member of the only output and does not win. |
| SpanWinner.KeyIsReportedAsUrl | src/anonreq/detection/regex_patterns.py:74-106 | One of that family under the shipped ranking: an `API_KEY` range comes out as `URL`. |
| SpanWinner.DistinctBoundsKeepTheMostSpecific | src/anonreq/detection/span_arbiter.py:143-154 | If no two members of a cluster have identical ranges, the winner has the maximum specificity. |
| SpanWinner.IdenticalBoundsPreferRegex | src/anonreq/detection/span_arbiter.py:146-149 | Among spans with one and the same range the regex detector wins exactly when it reported the range. |
| SpanWinner.OutputIsProtectedIff | src/anonreq/detection/span_arbiter.py:26-50 | An output is protected, and equally irreversible, exactly when some input inside it was flagged, came from a protected detector, or has an irreversible or MNPI type. |
| SpanWinner.ProtectedIffAMemberIs | src/anonreq/detection/span_arbiter.py:157-173 | Uniting spans keeps the two flags equal and set exactly when a member's flag is set. |
| RegexDetector.CollapseOverlaps | src/anonreq/detection/regex_detector.py:121-156 | The nested in-place loops compute the fold of the collapse step over the matches by start, longest first. |
| RegexDetector.Place | src/anonreq/detection/regex_detector.py:133-155 | The search through all accepted matches decides by the last one only. |
| RegexDetector.SurvivorsAreDisjointInputs | src/anonreq/detection/regex_detector.py:121-156 | Survivors are a sub-multiset of the inputs, in text order and pairwise disjoint. |
| RegexDetector.ContainingSpanSurvives | src/anonreq/detection/regex_detector.py:122-127 | A match that strictly contains every other match it overlaps always survives. |
| RegexDetector.ContainedMatchesAreDroppedIff | src/anonreq/detection/regex_detector.py:122-153 | Whatever matches follow, nothing strictly inside a match survives, exactly when on arrival it is not outranked or equalled by a last accepted match that crosses its start. |
| RegexDetector.TurnedAwayIff | src/anonreq/detection/regex_detector.py:133-155 | That condition from the inputs alone: the last accepted match is the end of the unique chain of inputs each of which is the first not blocked by the one before. |
| RegexDetector.ContainingMatchIsPreferred | src/anonreq/detection/regex_detector.py:122-127 | In a whole list of results, a match not turned away on arrival is preferred to everything inside it. |
| RegexDetector.ContainedMatchesAreDropped | src/anonreq/detection/regex_detector.py:122-127 | A corollary with a condition on each pair of inputs: a match that outranks everything crossing its start is preferred to everything inside it. |
| RegexDetector.ContainedMatchCanSurvive | src/anonreq/detection/regex_detector.py:145-153 | A family of three matches where the contained one survives and the containing one does not. |
| RegexDetector.ContainmentBranchIsDead | src/anonreq/detection/regex_detector.py:143-144 | The branch for an incoming match that strictly contains an accepted one is unreachable. |
| RegexCoverage.NothingIsLostIff | src/anonreq/detection/regex_detector.py:121-156 | Every detected character lies in a survivor exactly when some separate inputs report every detected character, each longest where it begins and none outranked by what crosses its end. |
| RegexCoverage.SurvivorsStand | src/anonreq/detection/regex_detector.py:145-153 | If the survivors hold the start of every input, each survivor is longest where it begins and outranks or equals everything that crosses its end. |
| RegexCoverage.TilesAreLaid | src/anonreq/detection/regex_detector.py:132-155 | Over every prefix of the sorted inputs the accepted ranges are those of such a selection that have begun, each held by a best match for its range. |
| RegexCoverage.SurvivorsAreComponentsIff | src/anonreq/detection/regex_detector.py:121-156 | The survivors' ranges are the overlap components (as after arbitration) exactly when every component is the range of a single match. |
| RegexCoverage.PartialOverlapLosesCharacters | src/anonreq/detection/regex_detector.py:147-151 | Two crossing matches where detected characters end up in no survivor. |
| Luhn.LuhnChecksum | src/anonreq/detection/regex_patterns.py:124-151 | The toggling loop decides acceptance: 13 to 19 digits and a checksum divisible by ten. |
| Luhn.AcceptedIffTheTableSays | src/anonreq/detection/regex_patterns.py:136-151 | A text is accepted exactly if it has 13 to 19 digits and the sum in which every second digit from the right is replaced by the standard's table is divisible by ten. |
| Luhn.SingleErrorIsDetected | src/anonreq/detection/regex_patterns.py:136-151 | Changing any one digit of an accepted number, separators untouched, makes it invalid. |
| Luhn.TranspositionIsDetectedIff | src/anonreq/detection/regex_patterns.py:136-151 | Swapping two neighbouring digits of an accepted number stays accepted exactly when they are equal or are 0 and 9. |
| Luhn.CheckDigitIsUnique | src/anonreq/detection/regex_patterns.py:136-151 | A payload of 12 to 18 digits is completed by exactly one digit. |
| PresetMerge.DetectionState.ApplyPreset | src/anonreq/compliance/merge.py:49-67 | The in-place updates give the declarative join of requirements and preset, and raise exactly when a merged tier list is empty. |
| PresetMerge.DetectionState.RaiseMandatory | src/anonreq/compliance/merge.py:56-61 | After the loop every mandatory type is present and at no less than the preset's threshold, and other types are unchanged. |
| PresetMerge.DetectionState.RaiseTiers | src/anonreq/compliance/merge.py:62-66 | In any iteration order the loop merges the tier lists, never changes `entity_types`, and fails exactly on an empty merged list. |
| PresetMerge.MergedTiersNeverPromote | src/anonreq/compliance/merge.py:63-66 | A tier list without `BOTH` never promotes a type, so the guarded assignment has no effect. |
| PresetMerge.MergePresets | src/anonreq/compliance/merge.py:70-112 | The whole merge: base, presets in order, then overrides as one more preset; when it raises and what it returns otherwise. |
| PresetLaws.AppliedCommutes | src/anonreq/compliance/merge.py:49-67 | Applying two presets in either order gives the same requirements. |
| PresetLaws.ActivePresetIsAbsorbed | src/anonreq/compliance/merge.py:49-67 | A preset already applied, at any earlier point, changes nothing when applied again. |
| PresetLaws.OnlyTheSetOfPresetsMatters | src/anonreq/compliance/merge.py:81-82 | Permuting or repeating presets does not change the merged requirements. |
| PresetLaws.MorePresetsNeverWeaken | src/anonreq/compliance/merge.py:70-102 | With more presets or overrides no threshold falls and no type, checksum or tier coverage (with `BOTH` read as both tiers) is lost. |
| PresetLaws.MergedTierMembers | src/anonreq/compliance/merge.py:42-46 | A merged tier list holds no `BOTH`, and holds REGEX or NER exactly when one of the two lists runs that tier. |
| PresetLaws.MergeRaisesIff | src/anonreq/compliance/merge.py:62-64 | The merge raises exactly when some preset lists an empty tier list for a type that neither the base nor an earlier preset gave a tier. |
| PresetFields.ThresholdIsTheGreatestAsked | src/anonreq/compliance/merge.py:29-102 | The merged threshold of a type is the greatest that the base (`confidence_threshold`, else `threshold`, else 0.7), a preset that makes it mandatory (its own, else 0.7) or the overrides (likewise, else 0.0) ask for; a type that the base does not have starts at 0.0. |
| PresetFields.TypesAreTheMentioned | src/anonreq/compliance/merge.py:29-102 | Exactly the types that the base, a preset or the overrides mention are present, with the base's tier, or REGEX if it names none. |
| PresetFields.TiersAreTheListed | src/anonreq/compliance/merge.py:29-102 | A tier must run for a type exactly if some document lists it or BOTH; only a base entry that nobody adds to keeps BOTH as such. |
| PresetFields.ChecksumsAreAll | src/anonreq/compliance/merge.py:67-102 | A checksum is required exactly if some document requires it. |
| PresetValidation.CheckType | src/anonreq/compliance/validation.py:64-99 | The checks on one type append exactly the violations specified for it. |
| PresetValidation.ValidateEffectiveConfig | src/anonreq/compliance/validation.py:56-101 | The nested loops collect, in order, the violations of every mandatory type of every preset. |
| PresetValidation.ReportedIff | src/anonreq/compliance/validation.py:56-101 | For any presets and any configuration, a violation is reported exactly if some preset makes the type mandatory and the configuration lacks what the violation names. |
| PresetValidation.AbsorbedPresetIsMet | src/anonreq/compliance/validation.py:74-99 | Requirements that a preset no longer changes meet its types, thresholds and checksums, and its tiers exactly when it does not list `BOTH`. |
| PresetValidation.MergeViolationsAreExactly | src/anonreq/compliance/validation.py:62-101 | Validating a merge against its own presets gives, in order, `missing_type` for each disabled mandatory type and `missing_tier` for each other mandatory type whose preset lists `BOTH`, and nothing else. |
| PresetValidation.MergeIsCompliantIff | src/anonreq/compliance/validation.py:56-101 | No violation is reported exactly when every preset is satisfiable: no mandatory type is disabled and none is listed with `BOTH`; overrides play no part. |
| Offsets.Collect | src/anonreq/debug/offsets.py:41-54 | The first loop keeps exactly the well-formed detections whose text has a token. |
| Offsets.KeepApart | src/anonreq/debug/offsets.py:57-63 | The overlap filter equals its specification fold. |
| Offsets.Project | src/anonreq/debug/offsets.py:65-94 | The running cursor gives every item the place that replacing all items gives it. |
| Offsets.EntitiesForText | src/anonreq/debug/offsets.py:29-95 | The whole function for arbitrary detections; what it reports always lies inside the text, in order and disjoint. |
| Offsets.PlaceAt | src/anonreq/debug/offsets.py:69-73 | Each token starts as far behind the previous token as its span does behind the previous span. |
| Offsets.DroppedItemsOverlap | src/anonreq/debug/offsets.py:56-63 | A dropped item overlaps a kept one that starts no later. |
| Offsets.RecordsRestoreTheOriginal | src/anonreq/debug/offsets.py:65-95 | If the anonymized text is the original with the reported spans replaced, the token ranges are increasing and disjoint, and putting each span back at its token range gives the original. |
| Offsets.RecordsAreExact | src/anonreq/debug/offsets.py:78-94 | Under the same condition both pairs of offsets, in characters and in UTF-16 code units, slice out exactly the span and the token. |
| Offsets.RecordsKeepTheirDetection | src/anonreq/debug/offsets.py:74-94 | A record has its detection's type and score, `UNKNOWN` and zero without them, and the given message index. |
| Preview.MappingOfIsLatest | src/anonreq/tokenization/tokenizer.py:189-195 | The mapping by value holds, for every value of the session, the token of the key issued last with that value. |
| Preview.FindsItsTokenIff | src/anonreq/tokenization/tokenizer.py:163-195 | Looking a key's value up finds that key's token exactly if it is the latest key with that value. |
| Preview.ReportedAreAccepted | src/anonreq/debug/offsets.py:41-63 | For detections that share no character and whose texts have tokens, the preview reports exactly the ranges the tokenizer replaced. |
| Preview.ExactIffSameTokens | src/anonreq/debug/offsets.py:65-95 | Against the text the tokenizer produced, all records are exact exactly if the tokens looked up are those put there. |
| Preview.PreviewIsExactIff | src/anonreq/debug/preview.py:253-270 | A text is tokenized in any session, which may go on: the preview has a record for every replaced value, and all are exact exactly if none of these values got a token of the other kind, reversible or not, after its own. |
| Preview.SecretSeenAgainIsMisreported | src/anonreq/tokenization/tokenizer.py:163-195 | A text on which it fails: a secret that occurs again as an ordinary value. |
| Utf16.SliceInUnits | src/anonreq/debug/offsets.py:17-19 | A slice by characters is the slice by code units at the UTF-16 lengths of the prefixes, and those lengths differ by the UTF-16 length of the slice (section 2.1 of RFC 2781). |
| Utf16.UnitsDecode | src/anonreq/debug/offsets.py:17-19 | Every code unit has 16 bits, and the decoder of section 2.2 of RFC 2781 turns the units back into the text. |
| Utf16.LengthCountsSupplementaryTwice | src/anonreq/debug/offsets.py:17-19 | The UTF-16 length is the number of characters plus the number of those from U+10000 on. |
| Utf16.EncodingDecodes | src/anonreq/debug/offsets.py:17-19 | The little-endian bytes, put together and decoded, give back the text. |
| Splicing.Splice | src/anonreq/logging_config.py:273-280 | The cursor loop, shared with the tokenizer, equals the recursive splice: untouched gap, replacement, and so on to the end. |
| Splicing.UndoRestores | src/anonreq/debug/offsets.py:65-73 | Replacing and then undoing at the shifted positions restores the text, for all edits in order. |
| Splicing.UndoHolds | src/anonreq/debug/offsets.py:69-73 | After a splice every replacement stands at its shifted position. |
| Redaction.JoinSpans | src/anonreq/logging_config.py:266-271 | The loop over sorted spans equals the join fold. |
| Redaction.RedactSpans | src/anonreq/logging_config.py:261-283 | Sorting, joining and splicing equal the per-character mask: each character outside all spans stays, in order, and each maximal covered run becomes one marker. |
| Redaction.JoinedKeeps | src/anonreq/logging_config.py:266-271 | Joined spans are strictly apart and hide exactly the characters the spans hide. |
| Redaction.SplicedIsMasked | src/anonreq/logging_config.py:266-280 | The fast form refines the per-character reference, for spans in any order with any overlaps. |
| Tokenization.NonOverlapping | src/anonreq/tokenization/tokenizer.py:117-154 | Filtering, sorting and merging in place equal the specification fold over valid detections. |
| Tokenization.AcceptedAreComponents | src/anonreq/tokenization/tokenizer.py:117-154 | Accepted pieces are disjoint and are exactly the overlap components of the valid detections, so no character of any is left in clear text. |
| Tokenization.IrreversibleIffAPartIs | src/anonreq/tokenization/tokenizer.py:144-152 | A piece is irreversible exactly when some detection merged into it is. |
| PieceOrigins.PiecesAreComponentsOfDetections | src/anonreq/tokenization/tokenizer.py:130-154 | The replaced ranges are exactly the overlap components of the detections whose bounds lie in the text. |
| PieceOrigins.PieceIsIrreversibleIff | src/anonreq/tokenization/tokenizer.py:27-29 | A piece is irreversible exactly if a detection inside it has `reversible` set to false; a detection without the key is reversible. |
| PieceOrigins.UnmarkedValuesAreMapped | src/anonreq/tokenization/tokenizer.py:68-114 | In a fresh session without detections marked irreversible, every replaced value is in the mapping under its token. |
| PieceOrigins.PieceKeepsTheLeadersType | src/anonreq/tokenization/tokenizer.py:117-154 | A piece carries the type of the longest detection with its start, and of the first listed among equals. |
| Tokenization.Tokenizer.InitializeSession | src/anonreq/tokenization/tokenizer.py:54-62 | Counters and issued tokens are cleared and the seed is the given random number. |
| Tokenization.Tokenizer.NextToken | src/anonreq/tokenization/tokenizer.py:156-183 | A known (value, reversibility) pair gets its token again; a new one gets the next index of its shortened type, and enters the mapping only if reversible. |
| Tokenization.Tokenizer.Tokenize | src/anonreq/tokenization/tokenizer.py:68-114 | For arbitrary detections, the result is the text with each accepted piece replaced by its session token, with the new session state and mapping. |
| Restoration.BuildLookup | src/anonreq/tokenization/restorer.py:49-53 | In insertion order of the mapping, the lookup and its keys; empty tokens are dropped. |
| Restoration.LookupOfIsLast | src/anonreq/tokenization/restorer.py:51 | A folded token is looked up exactly if some token folds to it, as the value of the last one that does. |
| Restoration.RestoreText | src/anonreq/tokenization/restorer.py:30-63 | The result is a single left-to-right pass that at each position takes the longest matching token, ignoring case, and never scans inserted values. |
| Restoration.MatchWithinDiffers | src/anonreq/tokenization/restorer.py:54-63 | A stretch in which a match begins does not come back as it was, whatever surrounds it, if every key of the pattern opens with a bracket and no value does. |
| Restoration.RestoreUnmatched | src/anonreq/tokenization/restorer.py:54-63 | A stretch in which no match begins comes back as it was, and what follows it is restored on its own. |
| Restoration.RestoreGap | src/anonreq/tokenization/restorer.py:54-63 | Text before a bracket is restored on its own: no match runs from it into a token. |
| Restoration.RestoreToken | src/anonreq/tokenization/restorer.py:54-63 | A bracketed token is matched whole, so a longer token is never eaten by a shorter one. |
| Restoration.CleanIsUntouched | src/anonreq/tokenization/restorer.py:46-63 | Text in which no token occurs is returned unchanged. |
| Sessions.TokenTextsAlikeIff | src/anonreq/tokenization/tokenizer.py:170-178 | For arbitrary types, two token texts are equal up to case exactly when the types are equal up to case and the indexes are equal. |
| Sessions.TokensDifferIff | src/anonreq/tokenization/tokenizer.py:156-183 | In every session the tokenizer can be in, different (value, reversibility) pairs have tokens that differ up to case exactly when no two of the session's types are equal up to case. |
| Sessions.TokensAreDistinct | src/anonreq/tokenization/tokenizer.py:163-182 | In a session whose types differ up to case, pairs whose tokens are equal up to case are the same pair. |
| Sessions.TokenizeKeepsTraced | src/anonreq/tokenization/tokenizer.py:68-114 | Every call, with any types and values, keeps the invariant that each token has a type and index of its own and each type its first token. |
| Sessions.TokenizeKeepsNumbered | src/anonreq/tokenization/tokenizer.py:170-180 | Every call keeps the invariant that types have at most 20 characters and their tokens are numbered from the seed without gaps. |
| Sessions.TokensAreNumbered | src/anonreq/tokenization/tokenizer.py:170-180 | The tokens of a session are exactly those of its types with the numbers from the seed up to the count of each type. |
| Sessions.NewTokenSpells | src/anonreq/tokenization/tokenizer.py:170-178 | A new token spells the first 20 characters of the type and the next number in decimal. |
| Text.DecimalDenotes | src/anonreq/tokenization/tokenizer.py:177-178 | The decimal form of an index has digits only, no leading zero, and denotes the index. |
| Text.FoldIs | src/anonreq/tokenization/restorer.py:49-61 | Case folding maps the 26 letters to their small forms and changes nothing else. |
| Sessions.SessionStaysSound | src/anonreq/tokenization/tokenizer.py:68-114 | If old and new types together differ up to case, a call keeps tokens distinct up to case; it always keeps earlier tokens, and its mapping added to the earlier ones is the mapping of the whole session. |
| Decoding.RestoredIsUndoneIff | src/anonreq/tokenization/restorer.py:29-63 | For any edits and any mapping: restoring puts each mapped token's value back and leaves the rest, if no token begins where none was put and each one put there is the longest match; for values that open with no bracket and tokens that begin no other, only if. |
| Decoding.UndisturbedIff | src/anonreq/tokenization/restorer.py:54-63 | For bracketed tokens that condition is that no token occurs in the text between the edits. |
| Decoding.RestoreReassembles | src/anonreq/tokenization/restorer.py:30-63 | Restoring any text with bracketed replacements restores each replacement exactly and each gap as if it stood alone. |
| RoundTrip.RestoreCarried | src/anonreq/tokenization/restorer.py:29-63 | Restoring a text whose edits carry session tokens leaves only irreversible values masked if mapped tokens occur only where they were put, and for values and tokens that cannot be confused only then. |
| RoundTrip.TokenizeThenRestore | src/anonreq/tokenization/restorer.py:29-63 | Tokenize in any session, continue the session, restore: the original comes back with only irreversible values masked if, and for values and tokens that cannot be confused only if, mapped tokens occur only where they were put. Types are arbitrary, no two of them equal up to case. |
| RoundTrip.NothingStaysMasked | src/anonreq/tokenization/restorer.py:29-63 | If every piece is reversible, what comes back is the original text. |
| RoundTrip.OnlyTheGapsMatter | src/anonreq/tokenization/tokenizer.py:104-113 | For types without brackets no token begins another, and the condition is that no mapped token occurs in the text between the pieces. |
| RoundTrip.FreshSessionRoundTrip | src/anonreq/tokenization/tokenizer.py:54-114 | The same equivalence for a fresh session, reversible values and the call's own mapping: the result is the text itself. The condition on types is on those of the valid detections. |
| RoundTrip.LookalikeIsRewritten | src/anonreq/tokenization/restorer.py:54-63 | What goes wrong otherwise: text that spells a session token comes back as its value. |
| RoundTrip.SelfNamedValueIsHarmless | src/anonreq/tokenization/tokenizer.py:177-182 | The condition on values is needed for the equivalence: a value that spells its own token is restored to itself anywhere. |
| RoundTrip.LongerTokenIsHarmless | src/anonreq/tokenization/restorer.py:54-63 | The condition on tokens is needed for the equivalence: taking a longer token where a shorter one was put does no harm if the values differ by the same ending. |
| RoundTrip.BracketedTypeCapturesTheGap | src/anonreq/tokenization/tokenizer.py:170-178 | With a bracket in a type the gaps do not decide: a gap without a token and the token behind it spell a third, whose value comes back. |
| RoundTrip.CaseTwinsCollide | src/anonreq/tokenization/tokenizer.py:170-178 | Types must differ up to case: the first tokens of two that do not are equal up to case, and restoring the first gives the second's value. |
| Pipeline.OutputsAreAccepted | src/anonreq/pipeline/detection.py:361-399 | For any of the arbiter's outputs in any order, the tokenizer accepts exactly those, in text order; its own merging is idle. |
| Pipeline.PieceIsReversibleIff | src/anonreq/pipeline/detection.py:392-397 | An accepted piece is reversible exactly when its type is not configured as irreversible and no flagged span lies inside it. |
| Pipeline.FlaggedValuesStayMasked | src/anonreq/pipeline/detection.py:361-397 | A value with a flagged span inside it gets a token that no token of any mapping of the session equals, not even ignoring case, then or later. |
| TailBuffer.Buffer.Ingest | src/anonreq/streaming/tail_buffer.py:86-117 | What each kind of event does in each phase: nothing after termination, pass-through for other events, the specified step for text. |
| TailBuffer.Buffer.Flush | src/anonreq/streaming/tail_buffer.py:186-214 | All but the last 128 characters are given out and the rest is retained. |
| TailBuffer.Buffer.Terminate | src/anonreq/streaming/tail_buffer.py:119-125 | The phase is terminated and the buffer kept. |
| TailBuffer.Buffer.FlushRemaining | src/anonreq/streaming/tail_buffer.py:127-137 | The whole buffer is returned and cleared; the phase stays. |
| TailBuffer.StreamIsConserved | src/anonreq/streaming/tail_buffer.py:110-114 | In every run the emitted text followed by the held text is the received text, and fewer than 2048 characters are held. |
| TailBuffer.FlushCuts | src/anonreq/streaming/tail_buffer.py:197-211 | Each flush moves the emitted length to 128 before the received length, unless it is there already. |
| TailBuffer.HeldBackIff | src/anonreq/streaming/tail_buffer.py:141-184 | In every run a delta gives out nothing exactly if only a token without its end was found, fewer than 2048 characters are held, and the last flush is less than a second ago. |
| TailBuffer.TokenIsCutIff | src/anonreq/streaming/tail_buffer.py:13-15 | A stretch of the stream is split between chunks exactly when a flush happens while the received length minus 128 lies strictly inside it; one of at most 128 characters is then already complete. |
| TailBuffer.WholeTokenIsCut | src/anonreq/streaming/tail_buffer.py:204-211 | The guarantee in lines 13-15 fails: a complete token in a single delta is given out in two parts. |
| StreamRestoration.Stage.StartSession | src/anonreq/streaming/restoration.py:23-28 | The lookup holds the value of the last token with each core, brackets stripped and case folded. |
| StreamRestoration.Stage.RestoreText | src/anonreq/streaming/restoration.py:30-44 | The result is the leftmost substitution of the pattern with the longest core first; for cores that are words it is the rewriting by runs of letters, digits and underscores. |
| StreamRestoration.Stage.CloseSession | src/anonreq/streaming/restoration.py:46-48 | The lookup is empty. |
| StreamRestoration.WordIs | src/anonreq/streaming/restoration.py:35-38 | The characters the look-arounds reject are the 26 capital and small letters, the ten digits and the underscore. |
| StreamRestoration.SubstitutedIsRewritten | src/anonreq/streaming/restoration.py:34-44 | For cores that are words, the pattern with its look-arounds, optional brackets and backtracking replaces exactly the runs that are cores, in whatever order the cores are listed. |
| StreamRestoration.CutAgreesIff | src/anonreq/routing/chat.py:467-470 | For every text, cut and lookup: the two parts restored one by one give the restored text exactly if the cut is harmless, a condition on the run at the cut and the brackets beside it. |
| StreamRestoration.CutBetweenRunsAgreesIff | src/anonreq/streaming/restoration.py:35-38 | A cut inside no run is harmless exactly if it touches no bracket that belongs, or without the run beyond the cut would belong, to a token. |
| StreamRestoration.CutInsideRunAgreesIff | src/anonreq/streaming/restoration.py:35-38 | A cut inside a run is harmless exactly if what its halves come out as adds up to what the run comes out as. |
| StreamRestoration.StreamAgreesIff | src/anonreq/routing/chat.py:460-485 | For every list of chunks: what has been sent was at every moment the restored text so far, exactly if every cut is harmless. |
| StreamRestoration.SplitTokenAgreesIff | src/anonreq/streaming/restoration.py:35-44 | A token cut in two is harmless only if its value is the token itself. |
| StreamRestoration.CutMakesAToken | src/anonreq/streaming/restoration.py:35-38 | A family of cuts that split no token and are not harmless: the look-ahead no longer sees the character behind a core. |
| StreamRestoration.TokenComesOut | src/anonreq/streaming/restoration.py:35-44 | A bracketed token anywhere in a text is replaced by its value, and each of its brackets stays exactly if a letter, digit or underscore is next to it. |
| StreamRestoration.SessionCores | src/anonreq/streaming/restoration.py:23-28 | For a session whose types are words and distinct up to case, all cores are words and every reversible token is looked up as its value. |
| Discovery.Record | src/anonreq/discovery/dedup_merge.py:106-163 | The body shared by the two loops, with its in-place updates of a group, equals adding one sighting. |
| Discovery.Merge | src/anonreq/discovery/dedup_merge.py:87-181 | The records are those of the DNS sightings followed by the proxy sightings, latest first. |
| Discovery.RecordsConserve | src/anonreq/discovery/dedup_merge.py:103-181 | The records of a provider add up to exactly the sightings matched to it: requests, users, first and last time, tokens. |
| Discovery.RecordsAreDeduplicated | src/anonreq/discovery/dedup_merge.py:100-101 | No two records share provider and hostname, and the list is in descending order of last sighting. |
| Discovery.AnalyzeDns | src/anonreq/discovery/usage_analyzer.py:82-135 | The loop equals the per-provider summary of the DNS sightings. |
| Discovery.AnalyzeProxy | src/anonreq/discovery/usage_analyzer.py:137-192 | The loop equals the per-provider summary of the proxy sightings. |
| Discovery.MergeSummaries | src/anonreq/discovery/usage_analyzer.py:194-236 | In any iteration order the loop gives the pointwise merge. |
| Discovery.UsageConserves | src/anonreq/discovery/usage_analyzer.py:82-236 | The merged summary of a provider reports exactly the sightings named for it, with those no provider matched under "unknown". |
| Discovery.AggregatorsAgree | src/anonreq/discovery/usage_analyzer.py:194-236 | For every provider the deduplicated records together and the merged summary report the same totals; "unknown" also holds everything unmatched. |
| Discovery.CountsAddUp | src/anonreq/discovery/usage_analyzer.py:96-236 | Over any listing of the merged summaries the request counts add up to the number of log entries. |
| DiscoveryEntries.SummaryAmountsToItsEntries | src/anonreq/discovery/usage_analyzer.py:82-236 | From the log entries: the merged summary of a provider counts the entries of its hosts, their source addresses, first and last time, and a quarter of each proxy entry's bytes as tokens. |
| DiscoveryEntries.SummaryIsNamedAfterTheFirst | src/anonreq/discovery/usage_analyzer.py:98-110 | A summary of one log is named after the first host seen and carries no classification. |
| DiscoveryEntries.MergedNames | src/anonreq/discovery/usage_analyzer.py:216-229 | Of two summaries the DNS side gives the name, and the classification unless it has none. |
| DiscoveryEntries.RecordsReportTheirEntries | src/anonreq/discovery/dedup_merge.py:103-181 | Every record amounts to exactly the entries of its provider and host and names the logs they are in. |
| DiscoveryEntries.EveryHostHasARecord | src/anonreq/discovery/dedup_merge.py:103-181 | Every provider and host with an entry has a record. |
| Jwks.JwksCache.Lookup | src/anonreq/auth/oidc.py:62-67 | A key is returned exactly when the cache is fresh and lists the key id. |
| Jwks.JwksCache.Load | src/anonreq/auth/oidc.py:72-83 | Keys and expiry change together, to the whole parsed document, or not at all when parsing raises. |
| Jwks.ParseMeans | src/anonreq/auth/oidc.py:74-81 | Parsing raises exactly on a usable entry without a valid key; otherwise the result has exactly the usable key ids, each with the last key listed (section 5 of RFC 7517). |
| Jwks.DocumentMeans | src/anonreq/auth/oidc.py:72-82 | The same member by member: objects with a non-empty key id count, one without a valid key fails the document, and the last one listed under an id gives its key. |
| Jwks.StepKeepsInv | src/anonreq/auth/oidc.py:59-86 | Every interleaved step keeps the cache a whole document, the lock with the one fetching caller, and every returned key justified. |
| Jwks.EveryRunIsSafe | src/anonreq/auth/oidc.py:59-86 | In every interleaving at most one fetch is in flight, the cache is empty or one whole document, and every returned key is from an unexpired document or from the caller's own refresh. |
| Jwks.FetchNeedsAMiss | src/anonreq/auth/oidc.py:64-68 | A fetch starts only under the free lock and only when the cache is stale or lacks the key id. |
| Jwks.WaitersShareTheFetch | src/anonreq/auth/oidc.py:64-67 | Once a fresh document lists a key id, waiting callers for it start no fetch while it stays fresh and listed. |
| Jwks.AnsweredFromTheCacheIff | src/anonreq/auth/oidc.py:59-67 | A call, and a caller that gets the lock, gets a key at once exactly if the last document has not expired and lists the key id; an empty key id is refused. |
| Jwks.AnsweredByItsFetchIff | src/anonreq/auth/oidc.py:68-83 | A caller whose document arrives gets the key listed in it, whatever the time to live, and fails exactly if the document is invalid or does not list the key id. |
| Jwks.EveryAnswerIsJustified | src/anonreq/auth/oidc.py:59-83 | In every run, whatever key a caller got was listed for its key id by an unexpired document or by its own fetch. |
| Approvals.ApprovalManager.CreateApproval | src/anonreq/governance/approval.py:175-239 | The new store and the reply of the create step. |
| Approvals.ApprovalManager.GetApprovalStatus | src/anonreq/governance/approval.py:241-275 | The new store and the reply of the poll step, marking overdue pending records. |
| Approvals.ApprovalManager.ApproveApproval | src/anonreq/governance/approval.py:277-334 | Not found, conflict or approval, with the 60-second lifetime of a decided record. |
| Approvals.ApprovalManager.DenyApproval | src/anonreq/governance/approval.py:336-389 | Not found, conflict or denial, likewise. |
| Approvals.ApprovalManager.CleanupExpired | src/anonreq/governance/approval.py:391-421 | Over any pages that cover the live keys, repeats included, exactly the overdue pending records are deleted and each is counted once. |
| Approvals.StoreRefinesLedger | src/anonreq/governance/approval.py:175-421 | In every run of steps and waits the store gives the same replies as a ledger that has no store. |
| Approvals.FateIsFinal | src/anonreq/governance/approval.py:305-315 | Over every run a token leaves the undecided state at most once, and its tool call never changes. |
| Approvals.ExpiryIsNeverEarly | src/anonreq/governance/approval.py:259-266 | In every run a token is marked expired or swept only after its `expires_at`. |
| Approvals.ReplyAfterCreation | src/anonreq/governance/approval.py:193-334 | After any run since its creation: approval succeeds exactly while the token is undecided and stored and returns the call given at creation, and the first poll past `expires_at` of an unswept undecided token reports expired, not missing. |
| Approvals.StaysUndecidedIff | src/anonreq/governance/approval.py:259-421 | From the run alone: a token is still undecided exactly when no step of the run was an approval or denial of it while stored, or a poll of it or a sweep of it past `expires_at`. |
| Approvals.ApprovalSucceedsIff | src/anonreq/governance/approval.py:277-334 | After any run since its creation an approval succeeds exactly when no step settled the token and the store still holds it. |
| Approvals.ObservedStatusIsFinal | src/anonreq/governance/approval.py:241-389 | Once a reply has disclosed a decision or expiry, no later reply decides the token again or discloses another status. |
| Approvals.StoreOutlivesExpiry | src/anonreq/governance/approval.py:207-211 | The store keeps a record at least an hour past `expires_at`. |
| Approvals.OverdueTokenCanBeApproved | src/anonreq/governance/approval.py:300-318 | A run in which a token is approved after its `expires_at`. |
| ApprovalTimes.PollOfAnOpenToken | src/anonreq/governance/approval.py:193-275 | In every run, in microseconds: a poll of a token that nobody decided is pending up to `ttl` seconds after the whole second of its creation, so for `ttl` seconds less one whatever is polled or cleaned up meanwhile; then expired, unless cleaned up late; and not found once the store has held it for the longer of two hours and `ttl` plus an hour. |
| ApprovalTimes.FirstLook | src/anonreq/governance/approval.py:259-421 | The first look after the deadline decides: after a cleanup the token is gone, after a poll it is reported expired until the store drops it. |
| ApprovalTimes.PollOfADecidedToken | src/anonreq/governance/approval.py:300-389 | In every run a decision can be read for 60 seconds, with who made it and when, and then is gone. |
| RateLimiter.PreviewRateLimiter.Check | src/anonreq/debug/preview.py:117-130 | The verdict and the new table, for any limit including one that switches the check off. |
| RateLimiter.PreviewRateLimiter.Reset | src/anonreq/debug/preview.py:114-115 | The table is empty. |
| RateLimiter.TableMatchesRecord | src/anonreq/debug/preview.py:122-130 | The stamps thrown away never matter: the table looks like the full record of accepted checks at every later time. |
| RateLimiter.RefusedIff | src/anonreq/debug/preview.py:122-128 | With a monotone clock a check is refused exactly when `limit` accepted checks of that principal lie in the preceding 60 seconds. |
| RateLimiter.NoLimitRefusesNothing | src/anonreq/debug/preview.py:117-119 | A limit of zero or less refuses nothing and records nothing. |
| RateLimiter.NoWindowExceedsTheLimit | src/anonreq/debug/preview.py:117-130 | No half-open 60-second window of any run holds more than `limit` accepted checks of one principal. |
| CasbEngine.Engine.Enforce | src/anonreq/casb/engine.py:97-215 | Verdict and new telemetry: the first group override decides and records nothing, an unknown application is blocked, everything else is recorded once. |
| CasbEngine.LogIsRecentHistory | src/anonreq/casb/engine.py:203-206 | In every run the log is a suffix of the full event history, of length n up to 10000 and 5000 + (n - 10001) mod 5001 beyond. |
| CasbEngine.CountersAddUp | src/anonreq/casb/engine.py:209-215 | The total, the sum over applications and the sum over classifications all equal the number of events. |
| CasbEngine.CountersCountTheirOwn | src/anonreq/casb/engine.py:209-215 | After every run the counter of an application, and of a classification, is the number of requests for it that no override decided. |
| CasbEngine.VerdictFollowsThePolicies | src/anonreq/casb/engine.py:117-163 | From the policies: the override of the first group that has one decides, else the application's policy, else a block; blocked exactly if the action is to block; an audit event exactly without an override and unless the action is to allow. |
| CasbEngine.HistoryStep | src/anonreq/casb/engine.py:185-207 | A request that no override decided adds one event with its own fields, and no other does. |
| SlidingWindow.SlidingWindowDetector.Ingest | src/anonreq/firewall/streaming.py:14-19 | The buffer stays the last `window` characters of the stream since the last flush or reset, and that is what is evaluated. |
| SlidingWindow.SlidingWindowDetector.Flush | src/anonreq/firewall/streaming.py:21-24 | The last characters of the stream are evaluated once more and the stream starts afresh. |
| SlidingWindow.SlidingWindowDetector.Reset | src/anonreq/firewall/streaming.py:26-27 | The stream starts afresh. |
| SlidingWindow.ChunkingIsIrrelevant | src/anonreq/firewall/streaming.py:14-19 | The buffer depends only on the text, not on how it was cut into chunks. |
| SlidingWindow.OccurrenceIsSeenIff | src/anonreq/firewall/streaming.py:14-19 | An occurrence is whole in the buffer exactly when it starts within the last `window` characters, which is certain at the completing chunk if chunk and occurrence exceed the window by at most one character together. |
| SlidingWindow.WindowBoundIsTight | src/anonreq/firewall/streaming.py:16-18 | With one character more, an occurrence has lost its first character when it is completed. |
| RouteTable.Table.constructor | src/anonreq/gateway/router.py:57-75 | The table starts with the default routes, whose names are unique, and a matching side list. |
| RouteTable.Table.Lookup | src/anonreq/gateway/router.py:77-116 | The lookup with the side list equals a scan of the entries alone: exact name, then wildcard, then port. |
| RouteTable.Table.AddRoute | src/anonreq/gateway/router.py:118-145 | Other entries keep their order, the new one is last, names stay unique and the side list stays the wildcard filter. |
| RouteTable.Table.RemoveRoute | src/anonreq/gateway/router.py:147-152 | Exactly the entries of that name go, from both lists. |
| RouteTable.ScanMissesIff | src/anonreq/gateway/router.py:86-116 | A lookup misses exactly when no entry matches by name, by pattern or by port. |
| RouteTable.LastEntryIsFoundIff | src/anonreq/gateway/router.py:84-116 | For any name looked up, the entry added last is returned exactly when no older entry answers in an earlier or the same of the three searches. |
| RouteTable.AddedRouteIsFoundIff | src/anonreq/gateway/router.py:84-145 | Any entry just added, plain, wildcard or with a port, answers for its own name exactly under that condition. |
| RouteTable.AddedPlainRouteIsFoundIff | src/anonreq/gateway/router.py:84-145 | For a plain name without a port: the name has no white space around it and no other plain entry equals it up to case. |
| RouteTable.AddedWildcardIsFoundIff | src/anonreq/gateway/router.py:84-145 | For a wildcard without a port: the name has no white space around it and no other wildcard covers it. |
| RouteTable.CaseVariantIsShadowed | src/anonreq/gateway/router.py:92-99 | A case variant of a default route, just added, does not answer for its own name. |
| RouteNames.StripIs | src/anonreq/gateway/router.py:83 | White space at both ends of the name, of ten kinds, is removed, and nothing else. |
| RouteNames.SplitAtTheLastColon | src/anonreq/gateway/router.py:85-87 | What follows the last colon is cut off, and is a port exactly if it is one or more digits. |
| RouteNames.PortIsItsNumber | src/anonreq/gateway/router.py:108-110 | A port in the table is found by its decimal number and by nothing else. |
| RouteNames.LookupWithPort | src/anonreq/gateway/router.py:83-116 | A host with a port and white space around: the host's entry, else a wildcard's, else the first entry with that port. |
| RouteNames.LookupWithoutPort | src/anonreq/gateway/router.py:83-106 | A host without a colon: the host's entry, else a wildcard's, and no port is looked for. |
| RouteNames.DefaultProviders | src/anonreq/gateway/router.py:32-44 | The first of the default hosts are found with their provider and address. |
| RouteNames.MoreDefaultProviders | src/anonreq/gateway/router.py:32-44 | So are the others. |
| RouteNames.OtherOpenAiHostsAreServed | src/anonreq/gateway/router.py:34 | A host under the default wildcard, with no entry of its own, goes to the wildcard's provider. |
| Sorting.SortIsUnique | src/anonreq/detection/span_arbiter.py:101 | A list that is ordered and keeps tied elements in their order is the sort used throughout, so it stands for the program's stable sorts. |

## Left out

- HTTP routes, middleware, start-up checks, database and key-value clients, metrics and logging output: input and output only.
- Regular-expression engines and pattern tables: detectors' match spans are inputs.
- StreamRestoration.CutAgreesIff: for cores of letters, digits and underscores, as the shipped types give; the pattern itself is modelled for any cores that are not empty.
- Between arbiter and tokenizer, the exclusion list and the checksum validation: any choice of outputs in any order is covered, but not a type that validation downgrades.
- YAML and JSON parsing, and public-key construction from a JWK: parsed documents are inputs, and an entry's key is present or absent.
- Cryptography and randomness: seeds, approval tokens and fetched documents are inputs; approval tokens are assumed fresh where a lemma says so.
- Luhn.LuhnChecksum: digits are ASCII; other characters that `isdigit` accepts are not modelled.
- Restoration.RestoreText: case folding is that of ASCII letters.
- RouteTable.Lookup: lower-casing and white space are those of ASCII, and a wildcard's `$` does not match before a final newline.
- TailBuffer.Buffer.Ingest: the outcomes of the two pattern searches are inputs, so its results hold for any patterns.
- Extra keys of span dictionaries, other than those that decide overlaps, and the `protected` key of tokenizer pieces.
- Order of lists that the program renders with `sorted`: sets in the discovery and preset results.
- Validation of configurations given as raw dictionaries: only merge results are modelled.
- Message texts of compliance violations and of HTTP errors.
- `_redact_text`: its secret patterns and the detection of spans; the interval join and the splice are modelled, and truncation as a flag.
- The `provider` field of the merged "unknown" summary, which differs between merged and single-source forms.
- `StreamingFirewallDetector.process_chunk`: it decodes each chunk on its own; the window is modelled on text.
- `restore_response`, the audit hash chain, the policy engine, subject-request processing and configuration tables: they would add only easy members or depend on what is left out above.
- CASB activity queries, the group resolver and the oversight queue call: no effect on the modelled state.
- Jwks.EveryRunIsSafe: steps between two suspension points are atomic, as on a single event loop.
- Approvals.ObservedStatusIsFinal: each manager method is one atomic step; two overlapping decisions between read and write are not modelled.
- RateLimiter.NoWindowExceedsTheLimit: for a limit that does not change during the run.
- RoundTrip.TokenizeThenRestore: for sessions of which no two types are equal up to case, as `CaseTwinsCollide` shows is needed; one direction only when a value begins with a bracket or a token with another token, as `SelfNamedValueIsHarmless` and `LongerTokenIsHarmless` show.
- Preview.PreviewIsExactIff: for detections that share no character, as the arbiter gives out, and for sessions in which no token begins another, as types without brackets ensure.
- Floating-point rounding of scores, thresholds and times.
