# Redax, modelled and proved in Dafny

Redax redacts personal data in text. This project models the parts of it that
are algorithms or protocols, and proves what they promise:

- **Spans and coordinates.** Overlapping detections are resolved greedily
  (`Spans`, `Ranking`, `Consensus`, `MultiPass`, and the browser demo in `Demo`). A policy
  substitutes spans field by field, and maps every reported span back to the
  original input by composing inverse position maps (`Substitution`, `Placement`,
  `Redactor`).
  The reference there is *character provenance*: each character of the current
  text knows the original character it stems from.
- **The R-Score benchmark.** Canonical runs of characters (`Runs`), the
  connector graphs, delimiter pairs and connected components (`Graph`,
  `Combinators`, `Pairs`, `Delimiters`, `Structure`), the spread of attempted spans
  to a fixpoint and the fused entities (`Fusion`), the score (`RScore`) and its
  formula (`Formula`). The reference there is the *set* of covered characters.
- **Protocols.** Durable jobs moved by four atomic scripts (`JobStore`, `JobCalls`),
  idempotency leases (`Idempotency`), the circuit breaker of one process and its
  Redis twin (`Breaker`, `BreakerRuns`, `SharedBreaker`). Each is a class whose methods are the
  atomic steps, together with a state machine in which the steps of any number
  of clients interleave in any order; the theorems are about every run of it.
- **Bounded buffers and checksums.** `Stream` (chunking), `AuditFile`, `Rotation` (rotation),
  `AuditRedis` (two parallel bounded lists) and `Luhn`, `LuhnSum` (two
  implementations of one checksum).

`Sorting` defines Python's `sorted` with tuple keys and `bisect_right`; its
lemma `StableSortIsUnique` shows that every stable sort returns the same list.

Code that works by updating things is modelled by methods with loops or by
classes, each proved against a specification function or set; the lemmas then
say what that specification promises. Lemmas named `...Reads...` and those of
`Ranking`, `Placement`, `Delimiters`, `Formula`, `Rotation`, `JobCalls` and `BreakerRuns` say it of the
characters, numbers and calls themselves, with notions of their own.

`dafny verify dfyconfig.toml` checks everything.

## Where the code does less than its words

Each of these is proved: by a lemma with a concrete case, or by the theorem that
says exactly when the promise holds, or by both.

- Deduplication can drop a span that overlaps nothing that is kept
  (`Spans.RisingChainLosesCoverage`). Every list drawn from some spans is covered
  by what is kept of it if and only if they hold no chain: a span that falls to a
  second one, which then falls to a later third that the first does not overlap
  (`Spans.DedupeCovers`).
- Rule 1 in the docstring of `fuse` (app/redaction/stages/consensus.py:14) keeps all
  regex spans; the code resolves them too, so all non-empty ones are kept if and
  only if no two different ones overlap (`Consensus.RegexKeptIffApart`). Rule 2 lets
  a more confident model span win; the code drops every model span that overlaps a
  regex span (`Consensus.OverlappingModelSpanIsDropped`).
- Repeated passes do not absorb an empty span (`MultiPass.EmptySpanIsNotAbsorbed`).
  Every list drawn from an answer is absorbed for every number of passes if and
  only if the answer holds no empty span (`MultiPass.AbsorbedIffNonEmpty`).
- A deletion widens the report of untouched text around it
  (`Redactor.DeletionWidensReport`). An untouched span is reported exactly if and
  only if no field deleted a character that stems from strictly inside the report
  (`Redactor.UntouchedSpansAreExact`).
- An empty prediction covers nothing, yet can change the score
  (`RScore.EmptyPredictionChangesScore`). Where every contextual span longer than one
  character belongs to an entity, as when contextual spans have distinct starts
  (`RScore.DistinctStartsCount`), it changes the document if and only if it lies
  strictly inside a contextual span not attempted without it
  (`RScore.EmptyPredictionShows`); and the covered characters decide the document of
  non-empty predictions if and only if these attempt every contextual span longer
  than one character (`RScore.CoverDecidesIffAllAttempted`).
- Timestamps without any event are not repaired in the Redis audit lists
  (`AuditRedis.StrayTimestamps`); all other drift is (`AuditRedis.AuditLists.Append`).
- A probe that ends in an exception which is not transient leaves the flag of the
  local breaker up: after any run the flag is up without a probe in flight if and
  only if a probe was lost so (`Breaker.StuckIffLost`). Such a breaker never admits a
  probe again, and nothing at all while it is open (`Breaker.StuckRefuses`); an open
  one is blocked for good if and only if no ordinary call is in flight, since only
  such a call can close it, by succeeding (`Breaker.BlockedForGoodIffIdle`,
  `Breaker.LostProbeRescued`).
- The shared breaker can have two live probes (`SharedBreaker.TwoLiveProbes`). At most
  one is live throughout a run, under its flag, if and only if no ordinary
  completion clears the flag under a live probe
  (`SharedBreaker.CoveredIffNeverCleared`), and each such completion can be continued
  to two live probes (`SharedBreaker.ClearedFlagAdmitsSecond`).
- Two requests can both publish under one idempotency key
  (`Idempotency.TwoPublicationsInTheWindow`). While a result is live, a request
  can still overwrite it if and only if it is between its GET and its SET NX or
  holds the lease, and then it read before that result was published
  (`Idempotency.OverwriteIffBetweenSteps`).
- The reaper can fail a job that is not stale any more
  (`JobStore.ReaperMayFailFreshJob`): if and only if the job was claimed, after
  the cutoff, between the reaper's scan and its script
  (`JobStore.ReaperFailsFreshJobIffClaimed`).

## Model

| member | source | states |
|---|---|---|
| `Spans.DedupeOverlaps` | app/redaction/apply.py:106-132 | the loop with its evictions and the final sort compute `Dedupe` |
| `Spans.DedupeSortedDisjoint` | app/redaction/apply.py:106-132 | the result is in document order, free of overlaps, and drawn from the input |
| `Spans.DedupeIdempotent` | app/redaction/apply.py:106-132 | resolving a resolved list changes nothing |
| `Spans.DedupeKeepsDominating` | app/redaction/apply.py:106-132 | a span strictly more confident than all it overlaps is kept |
| `Ranking.LeaderIsKept` | app/redaction/apply.py:106-132 | a span that outranks all others it overlaps (more confident; or equally and starting earlier; or starting there too and longer) is kept, and none of the others is |
| `Spans.DedupeCovers` | app/redaction/apply.py:106-132 | every list drawn from the spans is covered (each dropped span overlaps a kept one) if and only if no span falls to one that then falls to a later one it does not overlap |
| `Spans.ChainLeavesLast` | app/redaction/apply.py:120-131 | such a chain on its own leaves only its last span |
| `Spans.NoRiseNoChain` | app/redaction/apply.py:106-132 | without a rise in confidence along the sort order (equal confidence, for one) there is no chain, so every dropped span overlaps a kept one |
| `Spans.RisingChainLosesCoverage` | app/redaction/apply.py:120-131 | three spans of rising confidence: one is dropped although nothing kept overlaps it |
| `Spans.DedupeLocal` | app/redaction/apply.py:106-132 | parts of the input that do not overlap each other are resolved independently |
| `Consensus.Fuse` | app/redaction/stages/consensus.py:14-49 | regex spans, and the model spans above the floor that overlap none of them, resolved together |
| `Consensus.FuseParts` | app/redaction/stages/consensus.py:39-49 | for every regex list: the regex part and the other part of the result are resolved apart from each other |
| `Consensus.FuseNonInterference` | app/redaction/stages/consensus.py:39-49 | for non-empty regex spans, whatever the model answers, the regex part of the result is the resolved regex list, and the rest is the resolved admitted model list |
| `Consensus.RegexKeptIffApart` | app/redaction/stages/consensus.py:39-49 | all non-empty regex spans are in the result if and only if no two different ones overlap |
| `Consensus.OverlappingModelSpanIsDropped` | app/redaction/stages/consensus.py:41-46 | a model span never survives next to a regex span it overlaps, whatever its confidence |
| `Consensus.LoneModelSpanNeedsFloor` | app/redaction/stages/consensus.py:41-46 | a model span that overlaps no other span is in the result if and only if its confidence is at least the floor |
| `MultiPass.MultiPassDetect` | app/inference/multipass.py:9-39 | rejects a pass count outside 1 to the maximum, else resolves the union of the answers: a span that any single pass finds and that overlaps nothing else found is in the result, and nothing is that no pass finds |
| `MultiPass.UnionFinds` | app/inference/multipass.py:36-39 | what only one pass finds is kept, if it overlaps nothing else that a pass finds |
| `MultiPass.PassesAreAbsorbed` | app/inference/multipass.py:27-39 | for a deterministic detector any number of passes returns the very list of one pass, ties included |
| `MultiPass.EmptySpanIsNotAbsorbed` | app/inference/multipass.py:27-39 | a lone empty span is kept once per pass, for every number of passes |
| `MultiPass.AbsorbedIffNonEmpty` | app/inference/multipass.py:27-39 | every list drawn from an answer is absorbed for every number of passes if and only if the answer holds no empty span |
| `Substitution.ApplyBackwards` | app/redaction/apply.py:37-42 | replacing from right to left in one buffer gives the text with every span replaced, in any input order |
| `Substitution.ApplySpans` | app/redaction/apply.py:11-42 | error exactly when the lengths differ and there are spans; else the substituted text |
| `Substitution.RewriteAt` | app/redaction/apply.py:45-103 | each position after a round is a surviving character or stems from the first character of the span its replacement stands for |
| `Substitution.RewriteChars` | app/redaction/apply.py:11-42 | the characters of the rewritten provenance cells are the substituted text |
| `Substitution.SourceMonotone` | app/redaction/apply.py:45-103 | provenance is monotone and in bounds, strictly so next to a surviving character |
| `Substitution.SurvivorsStayAdjacent` | app/redaction/apply.py:45-103 | neighbours that both survive were neighbours if and only if no span strictly between them was deleted |
| `Substitution.SegmentTable` | app/redaction/apply.py:73-85 | the loop over `prev` and `new_pos` builds the segment table of the ordered spans |
| `Substitution.BisectFindsEntry` | app/redaction/apply.py:87-101 | `bisect_right` minus one finds the last leading entry that begins no later than the position |
| `Substitution.EntryLeadsToSource` | app/redaction/apply.py:87-101 | the entry found leads to the provenance of the position |
| `Substitution.InversePositionRemap` | app/redaction/apply.py:45-103 | error exactly when the lengths differ; else the map returned is provenance at every position of the new text |
| `Placement.ReplacementsStand` | app/redaction/apply.py:11-103 | every character of every replacement stands at the start of its span, moved by the gains of the edits before it, and leads back to that start; the text has grown by all gains |
| `Placement.UneditedStands` | app/redaction/apply.py:11-103 | every character outside the spans stands at its own place, moved by the gains of the edits before it, and leads back to its own place |
| `Redactor.PlainIsWellFormed` | app/redaction/redactor.py:113-120 | whatever the detector answers, what passes validation and deduplication can be substituted |
| `Redactor.ValidSpanIsKept` | app/redaction/offsets.py:22-30 | a detected span within the text is redacted, unless it overlaps another such span |
| `Redactor.Plain` | app/redaction/redactor.py:101-120 | the detected spans, validated and resolved, are the ones replaced and reported; each non-empty one within the text is, or overlaps another such one |
| `Redactor.NextRemap` | app/redaction/redactor.py:160-172 | composing the new map with the older one tracks provenance through one more round |
| `Redactor.RunField` | app/redaction/redactor.py:146-177 | one field: its spans are reported through the rounds before it, then its own substitutions extend the map |
| `Redactor.Policy` | app/redaction/redactor.py:122-178 | over any number of fields every span that a strategy answers is reported, in order, with its kind and confidence, from the origin of its first character to just past the origin of its last; the text is what the last strategy made of it |
| `Redactor.AnswersAreTold` | app/redaction/redactor.py:147-159 | the reports are as many as the spans answered in all; the j-th span of field i stands behind all those of earlier fields and is told through the cells before that field |
| `Redactor.RoundChars` | app/redaction/redactor.py:160-173 | the text that the next field sees is the text of the cells |
| `Redactor.RoundOrigins` | app/redaction/redactor.py:160-172 | after a round every position stems from where its position before the round stems from, and is original exactly if it survived and was original there |
| `Redactor.ProvenanceSound` | app/redaction/redactor.py:138-178 | after any number of fields provenance is in bounds and monotone, and a surviving character is the one at its origin |
| `Redactor.ReportsInBounds` | app/redaction/redactor.py:147-158 | every reported span is a non-empty interval of the original input |
| `Redactor.UntouchedReportIsExact` | app/redaction/redactor.py:147-158 | the report of untouched characters is never shorter than the span, and holds its text when it is not longer either |
| `Redactor.GapsAreDeletions` | app/redaction/redactor.py:160-173 | where kept neighbours stem from places further apart, some field deleted a character that stems from between them |
| `Redactor.DeletedIsGone` | app/redaction/redactor.py:160-173 | no kept character stems from where a field deleted one |
| `Redactor.UntouchedSpansAreExact` | app/redaction/redactor.py:138-178 | over any number of fields, an untouched span is reported exactly if and only if no field deleted a character that stems from strictly inside the report |
| `Redactor.WithoutDeletionsAllExact` | app/redaction/redactor.py:138-178 | so when no strategy replaces by the empty string every untouched span is reported exactly |
| `Redactor.DeletionWidensReport` | app/redaction/redactor.py:147-158 | after a deletion the report of an untouched span is wider than the span |
| `Runs.PredictionChars` | app/bench/rscore.py:35-52 | sorted, strictly separated runs that cover exactly the characters of the clamped spans |
| `Runs.CanonicalUnique` | app/bench/rscore.py:35-52 | a set of characters has one such list |
| `Runs.NextFalse` | app/bench/rscore.py:78-88 | the cursor skips support, then runs to its next beginning or the end of the prediction |
| `Runs.FalsePositiveRuns` | app/bench/rscore.py:60-89 | the maximal runs of predicted characters outside the support |
| `Runs.GapRuns` | app/bench/rscore.py:92-108 | the maximal runs outside the support: gaps and support tile the text |
| `Runs.Coverage` | app/bench/rscore.py:111-123 | the share of the span's characters that the predictions cover |
| `Runs.ShareBounds` | app/bench/rscore.py:111-123 | coverage lies in [0, 1], is 1 exactly when every character is covered and 0 exactly when none is |
| `Graph.ComponentsAreClasses` | app/bench/combinators.py:251-281 | every node is in a group, and two nodes share one exactly when a path of the induced subgraph joins them |
| `Graph.ComponentsDisjoint` | app/bench/combinators.py:251-281 | no node is in two groups |
| `Graph.ComponentsNonEmpty` | app/bench/combinators.py:251-281 | every group is a non-empty set of nodes |
| `Graph.ComponentsInOrder` | app/bench/combinators.py:276-281 | groups are in the order of their first spans, the spans of a group in document order, none twice |
| `Combinators.JoinPair` | app/bench/combinators.py:150-181 | one round of the edge loop: the characters between two neighbours and at the end of the first decide the edges of both graphs and the markers |
| `Combinators.RedEdges` | app/bench/combinators.py:136-182 | two spans are joined in the red graph if and only if they are neighbours in document order with exactly one character between them, no ASCII letter or digit, none of the slashes, at sign, brackets or quotes, and no space behind a closing delimiter; in the contextual graph also by a slash between digits, a closer and a blank, or a space behind a closing delimiter; the markers are those characters, pair by pair |
| `Combinators.EdgesSymmetric` | app/bench/combinators.py:136-182 | both graphs are symmetric, and every red edge is a contextual one |
| `Combinators.ConnectorsReadText` | app/bench/combinators.py:150-181 | the same for the edge sets and markers that the structure is built from |
| `Combinators.Explore` | app/bench/combinators.py:263-279 | the search from one root collects its reachability class, each node once |
| `Combinators.ConnectedComponents` | app/bench/combinators.py:251-281 | the groups are the reachability classes in document order, whatever order the search took |
| `Pairs.PairRanges` | app/bench/combinators.py:185-248 | recorded pairs are a laminar family with distinct endpoints and matching delimiters, each overlaps a contextual span and contains no mandatory one |
| `Pairs.ScanKeepsSane` | app/bench/combinators.py:219-246 | the same at every point of the scan, also after mismatched closers popped the stack |
| `Pairs.WellNestedPairs` | app/bench/combinators.py:185-248 | on text in which every opener is closed by some closer, of the right kind or not, with stray closers anywhere outside, the pairs found are exactly the parts that end in their own delimiter and enclose the right spans, in closing order |
| `Delimiters.PairsReadText` | app/bench/combinators.py:200-246 | every recorded pair is an opener with its own closer or twice one quote, shares a character with a contextual span and contains no mandatory one; the markers are the two characters of each pair, in order |
| `Delimiters.TreePairsReadText` | app/bench/combinators.py:185-248 | on such text, a pair is recorded if and only if it is such a part |
| `Structure.BuildConnectorStructure` | app/bench/combinators.py:284-313 | red groups and contextual components are the components of the two graphs; pairs and markers follow |
| `Structure.RedGroupsPartition` | app/bench/combinators.py:284-313 | the red groups partition the mandatory spans by links through mandatory spans alone |
| `Structure.GroupsReadText` | app/bench/combinators.py:284-313 | two mandatory spans share a red group if and only if a chain of mandatory spans leads from one to the other, each joined to the next by the character between them; the same for contextual components with the wider relation |
| `Structure.TouchingSpansShareGroup` | app/bench/combinators.py:284-313 | so a mandatory span joined by one character to the mandatory span right before it is in the same group |
| `Structure.MarkersReadText` | app/bench/combinators.py:299-303 | the effective markers are the connector characters between neighbours, in order, then those of the pairs |
| `Fusion.StruckIsOverlap` | app/bench/fusion.py:26-40 | comparing the two separately sorted lists tells whether some raw, possibly overlapping or empty prediction reaches into the span |
| `Fusion.StruckIsCovered` | app/bench/fusion.py:26-40 | a span is struck exactly when one of its characters is covered or an empty prediction lies strictly inside it |
| `Fusion.EmptyPredictionStrikes` | app/bench/fusion.py:26-40 | an empty prediction strikes without covering |
| `Fusion.EmptyPredictionAttempts` | app/bench/fusion.py:43-113 | adding an empty prediction changes what is attempted if and only if it lies strictly inside a contextual span not attempted before |
| `Fusion.SpreadComponents` | app/bench/fusion.py:85-93 | one sweep of the component rule adds only forced spans, all of them, and tells whether it added any |
| `Fusion.SpreadPairs` | app/bench/fusion.py:94-111 | the same for the pair rule; a sweep that adds none leaves every span inside a pair attempted whose opening or closing delimiter is first covered by an attempted span |
| `Fusion.SelectedContextualSpans` | app/bench/fusion.py:43-113 | the loop ends in the least closed set above the hits, whatever the order of iteration: the spans to which finitely many steps lead from a hit |
| `Fusion.SelectedIsLeast` | app/bench/fusion.py:43-113 | the selection contains the hits, is closed under both rules, and lies in every closed set above the hits |
| `Fusion.AttemptedIffDerived` | app/bench/fusion.py:79-113 | a contextual span is attempted if and only if finitely many steps lead to it from a hit, each to a member of the component recorded last for a span, or into a pair from the first span at its opening delimiter or from the first at its closing one |
| `Fusion.AttemptsSpread` | app/bench/fusion.py:85-111 | rule by rule: if the first contextual span at the opening delimiter of a pair is attempted, so is every one inside the pair; the same for the closing delimiter; and the component recorded last for an attempted span is attempted |
| `Fusion.SelectedMonotone` | app/bench/fusion.py:43-113 | predictions that cover more characters, and keep the empty ones, attempt at least the same spans |
| `Fusion.LinkAll` | app/bench/fusion.py:169-178 | the double loop links every two spans of a list, both ways |
| `Fusion.BuildLinks` | app/bench/fusion.py:158-183 | the contextual graph: components and pair contents, each fully linked |
| `Fusion.FusedEntityGroups` | app/bench/fusion.py:144-217 | red groups unchanged; contextual entities are the classes of the contextual graph without lone markers |
| `Fusion.EntitiesPartition` | app/bench/fusion.py:158-212 | the entities partition the contextual spans by reachability, and a span is lost exactly when it is alone and starts at a marker |
| `Fusion.EntitiesReadStructure` | app/bench/fusion.py:158-212 | two contextual spans share an entity if and only if a chain leads from one to the other, each in one component or inside one pair with the next; a span is lost if and only if it is alone so and a marker of one character starts where it starts |
| `RScore.FindEntities` | app/bench/rscore.py:243-248 | the entities and the attempted spans of a document |
| `RScore.ScoreMandatory` | app/bench/rscore.py:250-256 | each red group scores its mean coverage |
| `RScore.ScoreContextual` | app/bench/rscore.py:258-290 | each entity scores its attempted members, a gain when contextual spans are all there is and else a penalty; untouched entities are skipped and counted |
| `RScore.ScoreFalsePositives` | app/bench/rscore.py:292-308 | the false positives and gaps that the cursors compute are those of the covered set |
| `RScore.ScoreDocument` | app/bench/rscore.py:214-328 | the score computed by lists and loops is the score defined on sets of characters and spans, against the coherent reference of the document |
| `Formula.ScoreFormula` | app/bench/rscore.py:310-316 | gained: the mean shares of the red groups and, without mandatory spans, of the attempted parts of entities; out of: one for each red group, for each attempted entity what is missed of it (one, without mandatory spans), one for each false positive and one more for each that is a whole gap of at least 3; the score is the ratio, or 0 |
| `Formula.ScoreEntries` | app/bench/rscore.py:250-308 | every entry of the document: index, kind, weights and active members of each red group, attempted entity and false positive, and the number of entities skipped |
| `Formula.PredictionsCount` | app/bench/rscore.py:214-248 | predictions count by the contextual spans that one of them overlaps and by the characters they cover |
| `Formula.ReferenceReadsDocument` | app/bench/rscore.py:228-256 | what a document is scored against: the chains of mandatory spans in its text, and the entities of its contextual spans |
| `RScore.ReferenceIsCoherent` | app/bench/rscore.py:228-256 | every in-bounds annotation has a coherent reference: red groups are non-empty and hold exactly the mandatory spans, components and entities hold contextual ones; this is all that the theorems on the score assume of a document |
| `RScore.ScoreDependsOnCover` | app/bench/rscore.py:214-328 | predictions that cover the same characters get the same document if and only if they attempt the same entity members; they hit the same spans if and only if their empty ones lie strictly inside the same uncovered contextual spans, so always when none is empty |
| `RScore.DocumentShowsAttempts` | app/bench/rscore.py:258-290 | for one cover, two sets of hits give the same document if and only if they attempt the same entity members |
| `RScore.EmptyPredictionShows` | app/bench/rscore.py:214-328 | where longer contextual spans belong to entities, adding an empty prediction changes the document if and only if it lies strictly inside a contextual span that is not attempted without it |
| `RScore.CoverDecidesIffAllAttempted` | app/bench/rscore.py:214-328 | there, all predictions of the same cover as some non-empty ones get the same document if and only if these attempt every contextual span longer than one character |
| `RScore.DistinctStartsCount` | app/bench/fusion.py:206-212 | longer contextual spans belong to entities when contextual spans have distinct starts |
| `RScore.EmptyPredictionSpoilsPerfect` | app/bench/rscore.py:258-316 | an empty prediction strictly inside an unattempted entity member leaves the cover alone and makes the score less than 1 |
| `RScore.EmptyPredictionChangesScore` | app/bench/rscore.py:258-316 | a document whose score falls from 1 below 1 by an empty prediction |
| `RScore.WholeGapsWeighDouble` | app/bench/rscore.py:292-308 | a false positive lies inside one gap, and weighs 2 exactly when it is that whole gap and has at least 3 characters; else 1 |
| `RScore.PerfectScore` | app/bench/rscore.py:310-316 | the score lies in [0, 1], and is 1 exactly when some entity is scored, all mandatory spans and attempted members are fully covered, and nothing outside the support is predicted |
| `Luhn.LuhnOk` | app/inference/regex.py:27-40 | for every string, and whatever counts as a decimal digit outside ASCII: the parity form accepts exactly 13 to 19 digits whose right-to-left checksum ends in 0 |
| `LuhnSum.AcceptedIffChecksum` | app/inference/regex.py:27-40 | accepted are exactly 13 to 19 digits with a sum that ends in 0, in which every second digit, from the one next to the last, counts with the digits of its double |
| `Luhn.DemoLuhn` | site/src/scripts/redact.ts:19-33 | the alternating loop computes the same checksum |
| `Luhn.DemoAcceptsCard` | site/src/scripts/redact.ts:45-48 | the browser accepts by the same rule, on ASCII digits |
| `Luhn.SameDigits` | app/inference/regex.py:27-31 | server and browser see the same digits of a text if and only if it holds no decimal digit outside ASCII |
| `Luhn.DetectsSingleError` | app/inference/regex.py:27-40 | changing any one digit of an accepted number gets it rejected (Annex B of ISO/IEC 7812-1) |
| `Luhn.DetectsTransposition` | app/inference/regex.py:27-40 | swapping two neighbours is missed exactly when they are equal, or 0 and 9 |
| `Demo.ResolveOverlaps` | site/src/scripts/redact.ts:60-71 | the loop over `lastEnd` is the greedy choice on the sorted matches |
| `Demo.BrowserAgreesWithServer` | site/src/scripts/redact.ts:60-71 | at equal confidence the browser's greedy choice is the server's deduplication |
| `Stream.SplitChunks` | app/api/stream.py:46-64 | ends; the chunks join to the text; each is non-empty, within the character budget, and within the byte budget unless it is one character |
| `Stream.OctetsEncode` | app/api/stream.py:55-60 | the bytes counted for a character are those of its UTF-8 sequence (section 3 of RFC 3629), which decodes to it |
| `Stream.BytesEncode` | app/api/stream.py:55-60 | the bytes counted for a text are those of its encoded characters one after the other |
| `Stream.GreedyIsOptimal` | app/api/stream.py:46-64 | when no character exceeds the byte budget (section 3 of RFC 3629), no split within both budgets has fewer chunks |
| `AuditFile.RotatingLog.AppendLine` | app/audit/file.py:201-208 | rotates if the file is full, then appends |
| `AuditFile.RotatingLog.RotateIfNeeded` | app/audit/file.py:211-228 | a full file becomes backup 1 and the others move up, the oldest being dropped; without backups the file is emptied |
| `AuditFile.RotatingLog.ShiftBackups` | app/audit/file.py:224-227 | the renames from the highest number down move every backup by one and lose only the last |
| `AuditFile.HistorySuffix` | app/audit/file.py:201-228 | after any number of appends the backups N..1 and the file are a suffix of all lines written, for all settings; every backup is full, and if lines are missing every backup slot is taken |
| `AuditFile.FilesStayBounded` | app/audit/file.py:201-228 | no file outgrows the limit by more than its last line |
| `Rotation.NextLine` | app/audit/file.py:201-228 | after any run one more line joins the file below the limit; else it begins a new file, and the full one becomes backup 1, the others moving up by one |
| `Rotation.SizeIsWritten` | app/audit/file.py:211-222 | the size of a file is the bytes of all its lines |
| `AuditRedis.AuditLists.Append` | app/audit/redis.py:15-39 | however far the lists had drifted apart, unless there were timestamps and no event, they are aligned and bounded afterwards and hold the fresh end of what they held plus the new record |
| `AuditRedis.StrayTimestamps` | app/audit/redis.py:15-39 | timestamps without events end aligned if and only if the bound is 1 or all are stale, and the new event is lost if and only if the oldest is stale |
| `AuditRedis.ListsAreHistoryEnd` | app/audit/redis.py:15-39 | while cutoffs do not go back, the lists are exactly the last records of the whole history without its stale head |
| `AuditRedis.HistoryIsKeptFrom` | app/audit/redis.py:15-39 | so the history is kept from one record on: no more than the bound, the first of them fresh, and every earlier record within the bound stale |
| `AuditRedis.ListsAreSuffix` | app/audit/redis.py:15-39 | whatever the clock does, the lists are a bounded suffix of the history |
| `Breaker.Breaker.AllowCall` | app/redaction/circuit/breaker.py:92-108 | closed admits; open admits one probe after the cooldown |
| `Breaker.Breaker.RecordSuccess` | app/redaction/circuit/breaker.py:110-121 | closes and forgets the failures; a probe frees its slot |
| `Breaker.Breaker.RecordFailure` | app/redaction/circuit/breaker.py:123-137 | counts; opens at the threshold or for a failed probe |
| `Breaker.Breaker.BeginCall` | app/redaction/circuit/breaker.py:157-161 | the first locked half of `call` |
| `Breaker.Breaker.EndCall` | app/redaction/circuit/breaker.py:162-172 | the second locked half; an exception that is not transient changes nothing |
| `Breaker.EveryRunKeepsInv` | app/redaction/circuit/breaker.py:92-172 | over every interleaving: closed or open only, at most one probe out, closed means below the threshold and no opening time, and total calls are successes, failures, others and calls in flight |
| `BreakerRuns.BreakerReadsRun` | app/redaction/circuit/breaker.py:110-137 | after any run the failure count is the number of transient failures since the last success; the breaker is open if and only if one of these was a probe's or reached the threshold, and since the last such one |
| `BreakerRuns.AdmittedIffClosedOrProbe` | app/redaction/circuit/breaker.py:92-108 | so a call is admitted if and only if there was no such failure, or the cooldown has passed since the last and the flag is down; then it is a probe |
| `Breaker.OpenAdmitsLoneProbe` | app/redaction/circuit/breaker.py:92-108 | after any run a call admitted while open is a probe, alone, at least the cooldown after the opening |
| `Breaker.StuckIffLost` | app/redaction/circuit/breaker.py:92-172 | after any run the flag is up without a probe in flight if and only if some probe of the run ended in an exception that is not transient |
| `Breaker.ProbeFlagIsExact` | app/redaction/circuit/breaker.py:92-172 | so with transient failures only, the flag is up exactly while a probe is out |
| `Breaker.StuckRefuses` | app/redaction/circuit/breaker.py:92-108 | whatever happens afterwards, such a breaker stays so, never admits a probe, and admits nothing while open |
| `Breaker.StuckStaysOpen` | app/redaction/circuit/breaker.py:92-172 | an open one stays open and admits nothing until a call already in flight succeeds |
| `Breaker.BlockedForGoodIffIdle` | app/redaction/circuit/breaker.py:92-172 | an open one is blocked for good if and only if no call is in flight |
| `Breaker.IdleOpenBreaker` | app/redaction/circuit/breaker.py:97-107 | an idle open breaker past its cooldown either admits a probe at once or never admits a call again; the flag decides |
| `Breaker.LostProbeBlocksForGood` | app/redaction/circuit/breaker.py:162-172 | whatever else is in flight, the end of a probe leaves the flag up if and only if it is an exception that is not transient; an open breaker is then blocked for good if and only if no other call is in flight |
| `Breaker.LostProbeRescued` | app/redaction/circuit/breaker.py:110-172 | a lost probe, after which a call in flight closes the breaker: it admits ordinary calls with its flag still up |
| `SharedBreaker.RedisHash.AllowCall` | app/redaction/circuit/shared.py:19-35 | missing fields read as their defaults; closed admits, open admits one probe after the cooldown, and admitted calls are counted |
| `SharedBreaker.RedisHash.RecordSuccess` | app/redaction/circuit/shared.py:36-40 | closes, forgets the failures and clears the probe flag, whoever succeeded |
| `SharedBreaker.RedisHash.RecordFailure` | app/redaction/circuit/shared.py:41-49 | counts and returns the count; opens and clears the probe flag for a failed probe or at the threshold |
| `SharedBreaker.SerialRunsAgree` | app/redaction/circuit/shared.py:19-49 | for every serial run, lost probes included, both breakers give the same answers and failure counts, call by call |
| `SharedBreaker.FlagStaysUp` | app/redaction/circuit/shared.py:19-49 | a step keeps at most one live probe, under its flag, if and only if it is not an ordinary completion that clears the flag under a live probe |
| `SharedBreaker.FlagStaysExact` | app/redaction/circuit/shared.py:19-49 | a step keeps the flag up exactly while a probe is live if and only if, besides, it loses no probe |
| `SharedBreaker.OneLiveProbe` | app/redaction/circuit/shared.py:19-49 | a run without such a completion never has two live probes, however its calls end |
| `SharedBreaker.CoveredIffNeverCleared` | app/redaction/circuit/shared.py:19-49 | over every run: at most one live probe throughout, under its flag, if and only if there is no such completion |
| `SharedBreaker.ExactIffNeverCleared` | app/redaction/circuit/shared.py:19-49 | over every run: the flag is up exactly while a probe is live, throughout, if and only if, besides, no probe is lost |
| `SharedBreaker.ClearedFlagAdmitsSecond` | app/redaction/circuit/shared.py:19-49 | from any exact state with a live probe, such a step has a continuation to two live probes, at every threshold and cooldown |
| `SharedBreaker.TwoLiveProbes` | app/redaction/circuit/shared.py:36-49 | a late failure gives two live probes, where the local breaker refuses the second |
| `Idempotency.Keys.Reserve` | app/api/idempotency.py:57-83 | conflict, replay, lease or in progress, for a request that meets no other in between |
| `Idempotency.Keys.Acquire` | app/api/idempotency.py:77-81 | SET NX: succeeds exactly when the lock is free |
| `Idempotency.Keys.Complete` | app/api/idempotency.py:86-113 | the holder publishes and frees the lock; anyone else changes nothing |
| `Idempotency.Keys.Release` | app/api/idempotency.py:116-119 | the holder frees the lock; anyone else changes nothing |
| `Idempotency.EveryRunKeepsInv` | app/api/idempotency.py:57-119 | over every interleaving with expiries: the lock is held by a request that got it, publications are of distinct requests let through before, the live result is the publication it claims to be, replays are sound |
| `Idempotency.PublishersAreOnce` | app/api/idempotency.py:57-113 | each token publishes at most once, and its own earlier GET found nothing to replay or conflict with |
| `Idempotency.LiveResultBarsLaterRequests` | app/api/idempotency.py:57-83 | while a result is live, a request whose GET follows its publication never holds a lease; it replays exactly that response under its fingerprint and conflicts under another |
| `Idempotency.OverwriteNeedsEarlierGet` | app/api/idempotency.py:57-113 | a live result is overwritten only by a request whose GET came before its publication |
| `Idempotency.OverwriteIffBetweenSteps` | app/api/idempotency.py:57-113 | on every reachable state with a live result, a request can still overwrite it in some continuation without its expiry if and only if it is between GET and SET NX or holds the lease |
| `Idempotency.ReplaysArePublished` | app/api/idempotency.py:70-75 | a replayed response was published before, under the same fingerprint |
| `Idempotency.TokenSucceedsOnce` | app/api/idempotency.py:15-30 | over a whole run a token succeeds at most once, in `complete` or `release` |
| `Idempotency.OnlyTheHolderActs` | app/api/idempotency.py:15-81 | whatever other requests do, a lease stays with its holder until the holder ends it or it expires, and until then nobody publishes |
| `Idempotency.LeaseIsExclusive` | app/api/idempotency.py:57-119 | while no lease expires, at most one request has acquired and not finished |
| `Idempotency.TwoPublicationsInTheWindow` | app/api/idempotency.py:69-81 | two requests between GET and SET NX both publish although nothing expired |
| `JobStore.Redis.Admit` | app/jobs/store.py:66-83 | refuses at either cap and then changes nothing; else creates the queued job, indexes it, and counts it for all and for its owner |
| `JobStore.Redis.Terminal` | app/jobs/store.py:84-99 | a queued or running job of the current schema is ended with its result or error, leaves the index and frees its slots; anything else is refused unchanged |
| `JobStore.Redis.Claim` | app/jobs/store.py:100-107 | a queued job of the current schema becomes running; anything else is refused unchanged |
| `JobStore.Redis.Cancel` | app/jobs/store.py:108-120 | succeeds exactly for a queued job of the current schema, which is cancelled, leaves the index and frees its slots; anything else is refused unchanged |
| `JobStore.Redis.ReleaseSlots` | app/jobs/store.py:91-97 | frees the owner's slot and the shared one, deleting a counter that reaches 0 |
| `JobStore.Redis.ReapStaleJobs` | app/jobs/store.py:425-444 | a sweep that meets no other client moves exactly the stale jobs, in any scan order, returns their number and keeps conservation |
| `JobCalls.SweepFailsLapsed` | app/jobs/store.py:425-444 | such a sweep fails exactly the queued or running jobs not updated since the cutoff, with the error of an expired lease, and leaves all others as they were |
| `JobStore.CountersAreConserved` | app/jobs/store.py:66-120 | under every interleaving, owner reads apart from scripts: the shared counter is the number of queued or running jobs, each owner's counter is that owner's, the index holds exactly those ids, no counter exceeds its cap or is negative |
| `JobStore.AdmissionIsExact` | app/jobs/store.py:268-297 | after any run a fresh job is admitted exactly when fewer jobs than the caps are queued or running, in all and for its owner |
| `JobCalls.AdmitSucceedsIff` | app/jobs/store.py:66-83 | what such an admission changes: the job is queued with its owner and in the index, and one more job is in flight; a refusal changes nothing |
| `JobCalls.ClaimSucceedsIff` | app/jobs/store.py:100-107 | after any run a claim succeeds if and only if its job was admitted in the run, and neither claimed nor released; the job is then running, and nothing else changed |
| `JobCalls.CancelSucceedsIff` | app/jobs/store.py:108-120 | after any run a cancel call succeeds if and only if its job was admitted in the run, and neither claimed nor released; the job is then cancelled, out of the index, and exactly one job fewer is in flight, in all and for its owner |
| `JobCalls.TerminalSucceedsIff` | app/jobs/store.py:84-99 | after any run a terminal call, of a worker or the reaper, succeeds if and only if its job was admitted in the run and not released; the job then holds the result or error, and exactly one job fewer is in flight |
| `JobCalls.ScanFindsIff` | app/jobs/store.py:425-437 | after any run the reaper takes a job up if and only if it was admitted and not released, and not updated since the cutoff |
| `JobCalls.RecordKeepsAdmission` | app/jobs/store.py:66-83 | after any run a job has the owner of its admission and, while in flight, the time of its admission in the index |
| `JobCalls.UpdatedAtLastChange` | app/jobs/store.py:66-120 | after any run a job was last updated at the time of the last step that changed it |
| `JobStore.OneClaimOneRelease` | app/jobs/store.py:84-120 | over every run a job is claimed at most once and releases its slots at most once; a cancelled job was never claimed |
| `JobStore.TerminalIsFinal` | app/jobs/store.py:84-120 | a terminal job never changes again: status, result and error are frozen |
| `JobStore.RecordsWereWritten` | app/jobs/store.py:446-478 | after any run a done job holds the result, and a failed job the error, of a call that ended it; no other job holds a result |
| `JobStore.ReaperCountsItsJobs` | app/jobs/store.py:425-444 | under every interleaving, other sweeps included, one sweep returns the number of distinct jobs it moved to failed |
| `JobStore.SweepsShareNoJob` | app/jobs/store.py:425-444 | no job is counted by two sweeps |
| `JobStore.OnlyClaimsRefresh` | app/jobs/store.py:84-120 | a job found stale and still live later has been refreshed if and only if a claim of it succeeded meanwhile, after the cutoff |
| `JobStore.ReaperFailsFreshJobIffClaimed` | app/jobs/store.py:425-444 | when the script of a scanned job succeeds, the job is not stale any more if and only if it was claimed in between, after the cutoff |
| `JobStore.ReaperMayFailFreshJob` | app/jobs/store.py:425-444 | a job claimed between the reaper's scan and its script is failed although running and fresh |

## Left out

- Routes, middleware, metrics, tracing, settings, site content and the request admission of the HTTP layer: plumbing around the modelled code.
- Regex rules, neural detectors, tokenisers and redaction strategies: arbitrary functions here.
- `Substitution.ApplyBackwards`: takes non-empty spans; zero-width spans, which the source accepts as insertions, stand for no character that a replacement could stem from.
- `Substitution.ApplySpans`: takes non-empty spans within the text that do not overlap; insertions by zero-width spans are not modelled.
- `Substitution.InversePositionRemap`: takes non-empty spans within the text that do not overlap; insertions by zero-width spans are not modelled.
- `Redactor.Policy`: takes strategies whose spans are non-empty and in bounds, whose substitutions are non-empty and do not overlap, and whose text is the input with them applied. For overlapping or zero-width substitutions, which `inverse_position_remap` does not reject, characters have no provenance to compare with.
- Floating point: confidences, coverage and scores are exact reals. Text is a list of characters without surrogates.
- The relex map and the metrics that `policy` collects beside text and spans.
- `RScore.ScoreDocument` takes annotations that are in bounds and non-empty, as the loader of annotated documents produces them; the corpus average, percentiles, confidence intervals and rank correlations are not part of this model.
- `Fusion.SelectedContextualSpans` returns a set; the list order of the source is that of a Python set.
- `Fusion.FusedEntityGroups` searches its graph with the method of `Combinators.ConnectedComponents`, which is the same depth-first search; the neighbour sets are enumerated in an arbitrary order.
- `Luhn.LuhnOk` takes the decimal digits of other scripts, which `\D` keeps in Python, as a parameter. The NaN branch of the browser's loop is not modelled, since its caller passes digits only.
- `RScore.ScoreDependsOnCover`: takes predictions that do not end before they start; the two separately sorted lists mean nothing for others.
- `Stream.SplitChunks` takes a character budget of at least 1; the API enforces at least 100.
- `AuditFile.RotatingLog.AppendLine` starts from a fresh directory with constant settings; retention pruning, the queue and fsync are left out.
- `AuditRedis.AuditLists.Append` takes a bound of at least 1, as the settings do. The repair trims by minus zero when there are no events; whether Redis rejects that or keeps the list depends on its version, so it is a parameter. Entries that are not numbers and key expiry are left out.
- `Breaker.EveryRunKeepsInv` leaves out `force_open` and `force_closed`; clock readings are parameters and may go back.
- `SharedBreaker.SerialRunsAgree` leaves out the expiry of the hash and uses one clock for both breakers.
- `Idempotency.EveryRunKeepsInv` names requests by their fresh tokens; JSON is abstract, with an undecodable value read as no value.
- `JobStore.CountersAreConserved` leaves out key expiry, `create`, `set_status` and `set_record`, which are not atomic, and heartbeats and dead letters; ids are fresh, caps constant, and owner tokens are the strings themselves, not their hashes.
