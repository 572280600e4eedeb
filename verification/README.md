# LedgerBuddy: a verified model of the document pipeline

A Dafny model of the algorithmic parts of LedgerBuddy's document pipeline and of the small protocols around it:
how OCR boxes become lines, how they are reconciled with a PDF's text layer, how money fields become a database
schema, how long texts are chunked for the language model, how uploads are polled, how verifications queue and
retry, how an expired session token is refreshed, and how money text is read, repaired, chosen and printed.
`dafny verify dfyconfig.toml` checks everything.

## How the source is modelled

Code that works step by step is a method with loops, over an array or fields where the source has them (`MergePage`
overwrites slots of an array, `SchemaBuilder` walks and overwrites nested heap maps, `HttpFieldVerifier` and
`ApiClient` are classes). Each method equals a specification function, and the lemmas are about that function.
Asynchronous code is a state machine whose events are the handlers: a class method performs each event, and the
lemmas speak about every possible run.

Coordinates, areas, times and amounts are exact: reals, or integers of hundredths. What the code calls but does not
compute is a parameter: the digit clean-up of OCR text (`fix`), Python's `str.strip`, `toUpperCase`, the address
heuristic, the bottom-right lookup, the MIME table, printing and parsing of dates, the clock, and every answer of a
store or service.

- `Geometry`, `Grouping`, `Sorting`, `Text`, `VisibleText`, `Wrappers`: boxes and hulls, maps of lists, stable sorting, `trim`/`split`/`join`.
- `OcrMerge`, `OcrMergeTest`, `OcrMergeOrder`, `OcrInk`: merging of OCR boxes to a fixed point. `OcrLines`, `OcrLineBands`, `OcrLineText`, `OcrLineInk`: lines.
- `PdfReconcile`, `PdfOverlap`, `PdfExactness`: greedy matching by overlap.
- `JsonSchema`, `SchemaCompiler`, `SchemaConflicts`, `SchemaLastWriter`, `SchemaPaths`, `SchemaBuilder`: the `$jsonSchema` compiler and its meaning.
- `Chunker`, `ChunkPages`, `ChunkText`: page and line chunks.
- `UploadPoller`, `PollTimes`, `PollingRuns`, `PollingRepeats`, `PollingMisses`, `PollingLosses`, `StorageKeys`: the checkpointed poller, whole runs of it, and the keys it sees.
- `VerifierRetry`, `VerifierQueue`: the verifier client. `TokenRefresh`: the 401 interceptor.
- `Decimal`, `AmountParser`, `AmountTokens`, `Currency`, `Rounding`, `OcrRepair`, `TotalSelection`: money.
- `PerfGate`, `ManifestMerge`: the performance gate and the configuration merge.

## What does not hold, and exactly when it does

- The comparator that sorts a page's boxes ignores differences up to 1e-9 and is not transitive: three boxes exist that no order puts right (`ComparatorIsNotTransitive`). Everything about merging is therefore proved for any permutation of a page's boxes.
- First fit equals the linear sweep because the blocks are sorted: `UnsortedFirstFitDiffers`.
- Greedy matching finds exactly the partners with text if and only if these are one-to-one and no textless partner is preferred to one (`GreedyIsExactIff`). Boxes that do not overlap always meet the condition (`GreedyIsExact`); coinciding boxes do not (`CoincidingBoxesAreNotExact`).
- The compiled schema is never too strict, and means the conjunction of its groups exactly when, at every path a group wants, the last group to touch it suits (`SchemaIsExactIffLastWritersAgree`). A later rule can overwrite an earlier one (`LaterRuleWins`). A group with an empty prefix ignores its `array` flag.
- An uploaded file can be processed more than once: a slice is processed before its checkpoints are stored, so a run that dies or throws in between repeats it. This is the only way, and it costs at most one slice each time a run is given up with files in flight (`ProcessedTwiceIff`, `RepeatsAreBounded`, `DeadRunIsRepeated`). Stored checkpoints never repeat.
- An uploaded file can be lost: passed by the checkpoint and never stored. Over whole runs this happens exactly when it is put at or before the checkpoint, or lies unstored before a file whose checkpoint is stored, and its key is not put or removed afterwards (`MissingIffLost`). So a put beyond the checkpoint is not safe while files beyond it are outstanding (`PutDuringASliceIsLost`), nor is a file that cannot be read while a later one can. `StepMissesNothingIff` is about the frontier, the last outstanding file: a put it flags that lies after the checkpoint is only at risk, and is not lost when the run is given up (`PutBehindFrontierMayBeSaved`).
- An object that another program wrote under the prefix resolves from its listed key exactly when all parts of that key are normal (`ForeignKeyResolvesIff`, `DoubledSlashDoesNotResolve`). With no prefix configured, listing the empty folder lists nothing.
- A waiter that queues while the leader of its cycle retries or is about to close is left waiting, unless that retry fails (`StrandedIffLate`, `LateWaiterIsStranded`); the next cycle settles it. A refresh that answers an empty token rejects the waiters.
- Print and parse round-trip exactly when the currency does not have three minor digits or the amount is zero (`PrintParseRoundTripIff`).
- A printed two-digit amount is read back through the OCR repair exactly when it is not of the repairable shape (`PrintedIsReadBackIff`); 59876.50 is read as 9876.50.
- The two amount readers agree on a spelled amount exactly under `ReadAlike` (`ReadersAgreeIff`): for example, Python reads no zero with a fraction, takes a bare numeral as minor units, and takes a dot group as a fraction.

Three facts about functions on inputs that their callers do not give them today: the line chunker returns a blank text
whole, however long (`LineChunksAreSmallUnlessBlank`, `NewlinesAreOneLongChunk`), while the engine hands over trimmed
texts that are not empty, on which every chunk above the target is a single line (`LineChunksAreSmall`); a textless
duplicate of a PDF block spoils a match (`TextlessDuplicateSpoilsTheMatch`), while blocks taken from a PDF have text, and
then being one-to-one is all that exactness takes (`WithTextsExactIffOneToOne`); the configuration merge throws exactly
when a record is offered for a null (`ThrowsIffNullMeetsRecord`), while the default manifest holds no null.

## Model

| member | source | states |
|---|---|---|
| OcrMerge.ShouldMergeIsSymmetric | backend/src/ai/ocr/ocrPostProcessor.ts:110-135 | the merge test does not depend on which box is looked at first |
| OcrMergeTest.MergesIff | backend/src/ai/ocr/ocrPostProcessor.ts:110-135 | two boxes merge if and only if they have common rows that make up more than 0.7 of the height of one of them, and a point of one is less than 0.02 sideways from a point of the other |
| OcrMerge.BlockCarriesItsMembers | backend/src/ai/ocr/ocrPostProcessor.ts:137-152 | after any tree of merges a block carries exactly its members' indices, ascending, and the least box around them |
| OcrMergeOrder.MergeOrderDoesNotMatter | backend/src/ai/ocr/ocrPostProcessor.ts:137-152 | two ways to merge the same members, in any order, give the same indices and the same box |
| OcrMergeOrder.ComparatorIsNotTransitive | backend/src/ai/ocr/ocrPostProcessor.ts:57-65 | three boxes go around a circle under the comparator, and no order of them is sorted by it |
| OcrMerge.JoinStep | backend/src/ai/ocr/ocrPostProcessor.ts:88-92 | joining one slot into another and leaving a tombstone keeps the page a justified merging of the same entries and kills exactly one live block |
| OcrMerge.MergePage | backend/src/ai/ocr/ocrPostProcessor.ts:67-104 | the in-place passes terminate with a justified merging of all entries: no two results should still merge, and the results' indices are exactly the entries' |
| OcrMerge.MergeBlocks | backend/src/ai/ocr/ocrPostProcessor.ts:33-108 | for any order the sort leaves, every boxed block is in exactly one result, each result carries blocks of the document on its own page with the hull of their boxes, and no two of a page should still merge |
| OcrMerge.MergingPartitionsTheBoxedBlocks | backend/src/ai/ocr/ocrPostProcessor.ts:33-108 | every block that has a box is in exactly one merged block, and no other index occurs |
| OcrMerge.PagesNeverMix | backend/src/ai/ocr/ocrPostProcessor.ts:38-52 | every merged block carries, with exact hull and ascending indices, blocks of its own page only |
| OcrMerge.MergingReachesAFixedPoint | backend/src/ai/ocr/ocrPostProcessor.ts:77-95 | in the final result no two blocks of one page should still merge |
| OcrInk.MergedTextKeepsTheInk | backend/src/ai/ocr/ocrPostProcessor.ts:137-139 | joining and trimming texts keeps every non-whitespace character of the members and adds none |
| OcrInk.LeftTextComesFirst | backend/src/ai/ocr/ocrPostProcessor.ts:138-139 | the text of the block further left comes first, whichever operand it was |
| OcrLineText.ToleranceIsMedianShare | backend/src/ai/ocr/ocrPostProcessor.ts:181-193 | the line tolerance is 0.015 without heights, and otherwise 0.55 of the positive height in the middle of their order, or of the mean of the two in the middle, and at least 0.010 |
| OcrLineBands.PositiveHeightsIff | backend/src/ai/ocr/ocrPostProcessor.ts:181-183 | the heights taken are exactly the positive ones |
| OcrLineText.MedianSplits | backend/src/ai/ocr/ocrPostProcessor.ts:186-191 | the height the tolerance is taken from has at least half of the heights on either side |
| OcrLines.GroupLines | backend/src/ai/ocr/ocrPostProcessor.ts:201-216 | the nested loops compute first-fit grouping |
| OcrLines.FirstFitIsSweep | backend/src/ai/ocr/ocrPostProcessor.ts:195-216 | on centre-sorted blocks first fit over all lines equals looking at the newest line only |
| OcrLines.LinesAreBands | backend/src/ai/ocr/ocrPostProcessor.ts:195-216 | lines are consecutive runs in order, seeds lie more than the tolerance apart, members within it of their seed, later lines strictly below |
| OcrLineBands.MemberIsNearSeed | backend/src/ai/ocr/ocrPostProcessor.ts:195-216 | top and bottom together, a block of a line exceeds the line's first block by between zero and twice the tolerance |
| OcrLineBands.SeedsAreFarApart | backend/src/ai/ocr/ocrPostProcessor.ts:203-215 | the first blocks of two lines of a page are more than the tolerance apart, centre to centre, the later line lower |
| OcrLineBands.LaterLinesAreLower | backend/src/ai/ocr/ocrPostProcessor.ts:195-216 | the centre of every block of a later line is lower than that of every block of an earlier one |
| OcrLineBands.LevelBlocksShareALine | backend/src/ai/ocr/ocrPostProcessor.ts:196-208 | blocks with the same centre are on the same line, however high each is |
| OcrLineBands.BlockIsOnALine | backend/src/ai/ocr/ocrPostProcessor.ts:201-216 | the blocks on the lines of a page are exactly the blocks of the page |
| OcrLines.UnsortedFirstFitDiffers | backend/src/ai/ocr/ocrPostProcessor.ts:195-199 | without the sort the two groupings differ |
| OcrLines.RenderLine | backend/src/ai/ocr/ocrPostProcessor.ts:218-232 | the rendering loop computes a line's text, ascending indices and hull from its blocks sorted by left edge |
| OcrLines.LineCarriesItsBlocks | backend/src/ai/ocr/ocrPostProcessor.ts:225-231 | a line has exactly its blocks' indices, ascending, and their least surrounding box |
| OcrLineBands.LineReadsRightwards | backend/src/ai/ocr/ocrPostProcessor.ts:219 | the blocks of a line are read in the order of their left edges |
| OcrLineText.TiesKeepTheirOrder | backend/src/ai/ocr/ocrPostProcessor.ts:219 | blocks with the same left edge keep the order in which they joined the line |
| OcrLineText.LineTextIsWordsOrColumns | backend/src/ai/ocr/ocrPostProcessor.ts:220-224 | close neighbours are joined by a space, neighbours more than 0.02 apart by a bar |
| OcrLineText.LineTextCuts | backend/src/ai/ocr/ocrPostProcessor.ts:220-224 | a line is the text of any two parts of it with the mark for the gap between them |
| OcrLines.BuildLines | backend/src/ai/ocr/ocrPostProcessor.ts:163-237 | lines are built page by page in first-seen page order |
| OcrLineBands.LinesStayOnTheirPage | backend/src/ai/ocr/ocrPostProcessor.ts:168-180 | every line is a line of the blocks of one page, the one it names |
| OcrLines.LinesPartitionTheBlocks | backend/src/ai/ocr/ocrPostProcessor.ts:163-237 | line building loses and duplicates no block index |
| OcrLineInk.LinesKeepTheInk | backend/src/ai/ocr/ocrPostProcessor.ts:163-237 | every character but the space occurs in all line texts as often as in the merged texts, the bar once more for each wide gap |
| OcrLines.PostProcess | backend/src/ai/ocr/ocrPostProcessor.ts:22-31 | end to end, every OCR block with a box is on exactly one line and the merged blocks are a fixed point |
| PdfReconcile.NormalizedIsHullOfCorners | ai/ocr/app/document_utils.py:52-63 | a normalized box is the hull of its two corners, whichever way round, and there is none exactly when it is flat |
| PdfOverlap.PageOrFirst | ai/ocr/app/document_utils.py:44-49 | a page that is missing or not positive counts as page 1 |
| PdfOverlap.ScoreReachesIff | ai/ocr/app/pdf_utils.py:184-195 | the overlap score reaches r if and only if the boxes overlap and the common area is at least r times each of the two areas and of a millionth of the page |
| PdfOverlap.CommonIsBoth | ai/ocr/app/pdf_utils.py:185-188 | the common box has exactly the points that both boxes have |
| PdfOverlap.SameBoxScoresOne | ai/ocr/app/pdf_utils.py:184-195 | a box of at least a millionth of the page scores 1 against itself |
| PdfReconcile.BestIsArgmax | ai/ocr/app/pdf_utils.py:77-90 | the scan finds an unused block of the highest positive overlap, or none when there is none |
| PdfExactness.BestIsFirst | ai/ocr/app/pdf_utils.py:87-90 | of the unused blocks with the highest score the scan keeps the first |
| PdfReconcile.FindBest | ai/ocr/app/pdf_utils.py:77-90 | the inner loop computes that choice |
| PdfReconcile.Reconcile | ai/ocr/app/pdf_utils.py:62-101 | only texts change, and each changed block has the stripped text of the PDF block it is matched with |
| PdfReconcile.MatchesAreInjective | ai/ocr/app/pdf_utils.py:70-99 | no PDF block is used twice, and every match is on one page, has text and overlaps at least 0.55 |
| PdfReconcile.SeparateBoxesShareNoPartner | ai/ocr/app/pdf_utils.py:184-195 | two separate boxes cannot each overlap 0.55 of a third |
| PdfReconcile.PartnersAreUnique | ai/ocr/app/pdf_utils.py:79-93 | on non-overlapping boxes the partner relation is a partial bijection |
| PdfExactness.GreedyIsExactIff | ai/ocr/app/pdf_utils.py:62-101 | for all lists, greedy matching finds exactly the partners with text if and only if no block is wanted twice and no textless partner outranks, or is met first with the same score as, the one a block wants |
| PdfExactness.WithTextsExactIffOneToOne | ai/ocr/app/pdf_utils.py:62-101 | when every PDF block has text, greedy matching is exact if and only if the wanted pairs are one-to-one |
| PdfExactness.GreedyIsExact | ai/ocr/app/pdf_utils.py:62-101 | on non-overlapping boxes greedy matching is exactly that relation, whatever the order |
| PdfExactness.CoincidingBoxesAreNotExact | ai/ocr/app/pdf_utils.py:71-99 | of two coinciding OCR boxes only the first is corrected |
| PdfExactness.SameBoxIsWanted | ai/ocr/app/pdf_utils.py:82-98 | two readings of one box of at least a millionth of a page, the second with text, are a wanted pair |
| PdfExactness.UnitBoxIsWanted | ai/ocr/app/pdf_utils.py:184-195 | the same unit box read twice on one page is a wanted pair |
| PdfExactness.TextlessDuplicateSpoilsTheMatch | ai/ocr/app/pdf_utils.py:92-97 | a textless duplicate in front of the wanted block leaves the OCR block uncorrected |
| SchemaCompiler.RuleAccepts | backend/src/db/jsonSchemaValidators.ts:134-139 | a field rule accepts exactly the integral numbers, and null when nullable |
| SchemaCompiler.ObjectAccepts | backend/src/db/jsonSchemaValidators.ts:169-176 | a compiled object entry accepts exactly the objects whose present properties are accepted |
| SchemaCompiler.ArrayAccepts | backend/src/db/jsonSchemaValidators.ts:163-167 | a compiled array entry accepts exactly the arrays of objects whose fields obey the rules |
| SchemaPaths.SingleGroupMeans | backend/src/db/jsonSchemaValidators.ts:141-195 | a group alone accepts exactly the documents that meet its rule at the path its prefix spells with dots |
| SchemaPaths.RegistryGroupIsChecked | backend/src/db/jsonSchemaValidators.ts:25-29 | with the prefix parsed.gst, text in the field of the nested object is rejected |
| SchemaCompiler.InsertIsExactIffItFits | backend/src/db/jsonSchemaValidators.ts:151-191 | writing one group conjoins exactly its demand to what was compiled, for all documents, if and only if the group fits |
| SchemaCompiler.FittingGroupsCompileExactly | backend/src/db/jsonSchemaValidators.ts:141-195 | when every group fits, a document is accepted exactly when it meets every group's rule |
| SchemaCompiler.CompilationIsExactIffAllFit | backend/src/db/jsonSchemaValidators.ts:141-195 | every initial part of the list compiles exactly if and only if every group fits |
| SchemaCompiler.CompiledIsNeverTooStrict | backend/src/db/jsonSchemaValidators.ts:141-195 | whatever the groups, a document that meets them all is accepted |
| SchemaCompiler.SchemaIsExactIffAllRetained | backend/src/db/jsonSchemaValidators.ts:141-195 | the finished schema means the conjunction of all groups if and only if each group is still retained in it |
| SchemaLastWriter.CompiledKindIsLastWritten | backend/src/db/jsonSchemaValidators.ts:145-192 | at every path the compiled schema holds what the last group to touch that path put there |
| SchemaLastWriter.SchemaIsExactIffLastWritersAgree | backend/src/db/jsonSchemaValidators.ts:141-195 | the schema means the conjunction of all groups if and only if, at every path a group wants, what the last group of the list to touch it puts there suits that group |
| SchemaPaths.PathsAreExactIffLastWritersAgree | backend/src/db/jsonSchemaValidators.ts:141-195 | for groups whose prefixes spell given paths, the schema means every rule at its path if and only if at every path a group wants the last group to touch it suits |
| SchemaConflicts.ConflictFreeGroupsFit | backend/src/db/jsonSchemaValidators.ts:145-192 | groups that want no two different entries at one path all fit |
| SchemaConflicts.OrderDoesNotMatter | backend/src/db/jsonSchemaValidators.ts:145-192 | reordering conflict-free groups does not change what is accepted |
| SchemaConflicts.SeparableGroupsCompileExactly | backend/src/db/jsonSchemaValidators.ts:145-192 | pairwise separable prefixes and fields are enough for an exact schema |
| SchemaConflicts.LaterRuleWins | backend/src/db/jsonSchemaValidators.ts:151-153 | two rules for one field: the later one wins, so order matters in general |
| SchemaBuilder.BuildCollectionJsonSchema | backend/src/db/jsonSchemaValidators.ts:141-195 | the nested maps built on the heap stand for the compiled plan |
| SchemaBuilder.WriteGroup | backend/src/db/jsonSchemaValidators.ts:151-191 | one group's write changes the plan the root stands for by that insertion, and changes no other reachable map's meaning |
| SchemaBuilder.WriteAt | backend/src/db/jsonSchemaValidators.ts:156-191 | the cursor walk performs the insertion at the path |
| SchemaBuilder.ReplaceEntry | backend/src/db/jsonSchemaValidators.ts:169-189 | an entry is replaced by a new object with a copy of the properties there, the fields added at the end of the path |
| Chunker.SplitTextIntoChunks | backend/src/core/engine/DocumentProcessingEngine.ts:246-291 | the method computes the specified chunks |
| Chunker.PackPieces | backend/src/core/engine/DocumentProcessingEngine.ts:257-271 | the packing loop computes greedy packing, the last chunk dropped when blank, the text itself when nothing is left |
| Chunker.GreedyStaysAhead | backend/src/core/engine/DocumentProcessingEngine.ts:260-267 | greedy packing never has more groups than another split under the limit, and with equally many a last group no longer |
| Chunker.PageChunkingIsOptimal | backend/src/core/engine/DocumentProcessingEngine.ts:246-272 | page chunks are consecutive groups covering the non-blank pages once in order, within the limit, and no split under it has fewer |
| Chunker.PageLimitIsWithinMaximum | backend/src/core/engine/DocumentProcessingEngine.ts:248-249 | a chunk of several pages is at most the maximum long |
| ChunkPages.JoinedPagesAreSplit | backend/src/core/engine/DocumentProcessingEngine.ts:251-254 | pages joined by form feeds, with or without newlines beside them, are taken apart into those pages |
| ChunkText.TargetIsThreeQuarters | backend/src/core/engine/DocumentProcessingEngine.ts:249 | the target is three quarters of the maximum, rounded down |
| ChunkText.ChunksKeepTheInk | backend/src/core/engine/DocumentProcessingEngine.ts:246-291 | in both modes the visible characters of all chunks, in order, are those of the text |
| Chunker.LineChunkingKeepsContent | backend/src/core/engine/DocumentProcessingEngine.ts:274-290 | the non-blank lines over all chunks are those of the text, in order |
| ChunkText.LineChunksAreSmall | backend/src/core/engine/DocumentProcessingEngine.ts:274-290 | on every trimmed text that is not empty a line chunk above the target is a single line |
| ChunkText.LineChunkingIsOptimal | backend/src/core/engine/DocumentProcessingEngine.ts:274-290 | in line mode no order-preserving split of the lines under the target has fewer chunks |
| Chunker.LineChunksAreSmallUnlessBlank | backend/src/core/engine/DocumentProcessingEngine.ts:274-290 | a chunk above the target that is more than one line exists exactly when the text is blank, is never flushed, and is itself such |
| Chunker.NewlinesAreOneLongChunk | backend/src/core/engine/DocumentProcessingEngine.ts:286-290 | a long run of newlines is returned as one chunk above the target |
| Chunker.RunChunkedSlm | backend/src/core/engine/DocumentProcessingEngine.ts:170-200 | outputs and failure issues come in chunk order and together number the chunks |
| Chunker.EveryChunkIsAccountedFor | backend/src/core/engine/DocumentProcessingEngine.ts:179-195 | each answered chunk has its output, each failing one its issue with its number, at its place in chunk order, and there is nothing else |
| ChunkText.AnswersAreOfTheirChunks | backend/src/core/engine/DocumentProcessingEngine.ts:179-193 | the k-th answer is that of the k-th chunk, called with its number, and its output or issue is recorded as such |
| UploadPoller.CheckpointRoundTrips | backend/src/sources/S3UploadIngestionSource.ts:103-119 | parsing an encoded checkpoint gives the position back, whatever the key contains |
| PollTimes.UnreadableCheckpointIsNone | backend/src/sources/S3UploadIngestionSource.ts:107-117 | an empty checkpoint, and one whose time does not parse, are like none |
| PollTimes.TimeAloneIsACheckpoint | backend/src/sources/S3UploadIngestionSource.ts:111-118 | a checkpoint that is a time alone stands before every key of that time |
| UploadPoller.KeyOrder | backend/src/sources/S3UploadIngestionSource.ts:42-48 | comparison of keys is a strict total order |
| PollTimes.KeyLessIff | backend/src/sources/S3UploadIngestionSource.ts:42-48 | keys are compared as in a dictionary: a proper prefix first, otherwise by the first different character |
| UploadPoller.FetchNewFiles | backend/src/sources/S3UploadIngestionSource.ts:31-85 | one poll returns the specified files, or nothing when the store cannot list |
| UploadPoller.PollIsExact | backend/src/sources/S3UploadIngestionSource.ts:36-84 | a poll returns exactly the supported, readable objects beyond the checkpoint, strictly ascending |
| PollTimes.PollReturns | backend/src/sources/S3UploadIngestionSource.ts:36-84 | a poll from a checkpoint returns exactly the supported, readable objects modified later, or at that time under a later key, each with its type, content and checkpoint |
| PollTimes.FirstPollReturns | backend/src/sources/S3UploadIngestionSource.ts:36-84 | a poll without a checkpoint returns every listed object that is supported and readable |
| PollTimes.PollIsOldestFirst | backend/src/sources/S3UploadIngestionSource.ts:45-49 | the files of a poll come oldest first, those of one time in the order of their keys |
| UploadPoller.ResumeYieldsTheRest | backend/src/sources/S3UploadIngestionSource.ts:36-84 | polling again from the k-th file's checkpoint on an unchanged bucket yields exactly the files after it |
| PollingRuns.CheckpointsAscend | backend/src/services/ingestion/ingestionService.ts:133-219 | over every interleaving, however often runs are given up, stored checkpoints strictly ascend and none is stored twice |
| PollTimes.StoredTimesAscend | backend/src/services/ingestion/ingestionService.ts:133-219 | over every run, what is stored later was modified later, or at the same time under a later key |
| PollingRuns.UninterruptedRunStoresAll | backend/src/services/ingestion/ingestionService.ts:150-213 | a run that nothing interrupts processes every outstanding file once, slice by slice, and stores them all in order |
| PollingRepeats.ProcessingIsConserved | backend/src/services/ingestion/ingestionService.ts:151-205 | each processing of a file is stored, in flight or given up, exactly as often as it happened |
| PollingRepeats.ProcessedTwiceIff | backend/src/services/ingestion/ingestionService.ts:151-205 | a file is processed more than once if and only if a run was given up while it was in processing, or processed and not stored, and a later slice contained it again |
| PollingRepeats.OutstandingWasPolled | backend/src/services/ingestion/ingestionService.ts:135-154 | what a slice can contain was returned by the last poll, with no run given up since |
| PollingRepeats.RepeatsAreBounded | backend/src/services/ingestion/ingestionService.ts:151-213 | repeated processings number at most one slice for each time a run was given up with files in flight |
| PollingRepeats.DeadRunIsRepeated | backend/src/services/ingestion/ingestionService.ts:156-194 | a run that dies after processing a slice and before storing it: the next run processes the whole slice again |
| PollingRepeats.StoredWasProcessed | backend/src/services/ingestion/ingestionService.ts:156-194 | nothing is stored that was not processed |
| PollingMisses.StepMissesNothingIff | backend/src/services/ingestion/ingestionService.ts:133-219 | a step keeps every object up to the last outstanding file stored or outstanding exactly when it is no put behind that frontier and no poll with a gap |
| PollingMisses.PutMissesNothingIff | backend/src/sources/S3UploadIngestionSource.ts:38-44 | a put keeps that promise unless it lands at or before the last outstanding file, or the checkpoint when there is none, at a position not held |
| PollingMisses.PollMissesNothingIff | backend/src/sources/S3UploadIngestionSource.ts:53-64 | a poll keeps it exactly when beyond no unreadable supported object lies a readable one |
| PollingLosses.StepLosesIff | backend/src/services/ingestion/ingestionService.ts:187-194 | after a step an object is missing exactly when it was and its key is left alone, or the step puts it behind the checkpoint or stores a file beyond it |
| PollingLosses.MissingIffLost | backend/src/services/ingestion/ingestionService.ts:133-219 | in every run an object passed by the checkpoint was never stored if and only if some step lost it and no later step put or removed its key |
| PollingLosses.EverythingIsDeliveredIff | backend/src/services/ingestion/ingestionService.ts:133-219 | every supported object up to the checkpoint was stored if and only if the run lost none for good |
| PollingLosses.PutBehindFrontierMayBeSaved | backend/src/services/ingestion/ingestionService.ts:207-212 | a put behind the frontier but after the checkpoint is not lost when the run is given up |
| PollingMisses.BenignRunsDeliverEverything | backend/src/sources/S3UploadIngestionSource.ts:31-85 | a run whose steps all keep the frontier promise stores every supported object up to the checkpoint |
| PollingMisses.MissedIsLostForever | backend/src/sources/S3UploadIngestionSource.ts:38-44 | what the checkpoint passed unstored is stored in no continuation, nor newly handed to processing |
| PollingMisses.PutDuringASliceIsLost | backend/src/services/ingestion/ingestionService.ts:187-194 | a put beyond the checkpoint but before a file in flight is lost once that file is stored |
| StorageKeys.SegmentsAreNormal | backend/src/storage/S3FileStore.ts:145-152 | normalization leaves trimmed, non-empty segments other than "." and "..", free of slashes |
| StorageKeys.SegmentsOfOne | backend/src/storage/S3FileStore.ts:148-150 | a piece without slashes is trimmed, and dropped if nothing, one dot or two dots remain |
| StorageKeys.SegmentsOfTwo | backend/src/storage/S3FileStore.ts:146-148 | slashes of either kind separate segments |
| StorageKeys.DotsVanish | backend/src/storage/S3FileStore.ts:145-152 | two dots between slashes vanish, so a key does not climb out of its prefix |
| StorageKeys.NormalizePrefixIsIdempotent | backend/src/storage/S3FileStore.ts:145-152 | normalizing twice is normalizing once |
| StorageKeys.ListedKeyResolves | backend/src/storage/S3FileStore.ts:61-104 | the key listed for an object that put wrote resolves to the same object |
| StorageKeys.NormalizedIff | backend/src/storage/S3FileStore.ts:145-152 | normalization leaves a key alone exactly when it is empty or all its slash-separated parts are normal |
| StorageKeys.ForeignKeyResolvesIff | backend/src/storage/S3FileStore.ts:92-96 | for other objects under the prefix that holds exactly when the rest of the key is empty or all its parts are normal |
| StorageKeys.DoubledSlashDoesNotResolve | backend/src/storage/S3FileStore.ts:92-96 | the object stored as "a//b" under the prefix is listed but not found again |
| StorageKeys.ListingIsBySegments | backend/src/storage/S3FileStore.ts:77-85 | an object is under a listed folder exactly when the folder's segments are a proper initial part of its own |
| StorageKeys.ListObjects | backend/src/storage/S3FileStore.ts:76-104 | the paginated loop reports the stripped keys of all responses up to the first that does not continue |
| StorageKeys.DeliveredUntilLast | backend/src/storage/S3FileStore.ts:81-101 | a listing has all responses up to the first that is not truncated or has no token |
| StorageKeys.ReportedIsStripped | backend/src/storage/S3FileStore.ts:90-97 | a listing reports exactly the objects that have a key, in the order of the responses, each with its prefix taken off |
| StorageKeys.ReportedKeysResolve | backend/src/storage/S3FileStore.ts:61-104 | every listed object that put wrote is reported under a key that resolves to it |
| VerifierRetry.VerifySerial | backend/src/ai/verifiers/HttpFieldVerifier.ts:75-110 | the retry loop computes the specified outcome and actions |
| VerifierRetry.EveryVerificationIsWellServed | backend/src/ai/verifiers/HttpFieldVerifier.ts:75-110 | at most three posts, a later one only after connection errors and a passed health check; success is the last post's answer, failure carries the last error |
| VerifierRetry.AtMostThreePosts | backend/src/ai/verifiers/HttpFieldVerifier.ts:76-110 | a verification makes one, two or three posts, and spends three attempts before it fails on connection errors |
| VerifierRetry.FirstAnswerEndsTheLoop | backend/src/ai/verifiers/HttpFieldVerifier.ts:92-106 | an answer, or an error that is no connection error, is not retried |
| VerifierRetry.ContainsIff | backend/src/ai/verifiers/HttpFieldVerifier.ts:98-103 | a message includes a cause exactly when it has it somewhere |
| VerifierRetry.ConnectionErrorIff | backend/src/ai/verifiers/HttpFieldVerifier.ts:98-103 | an error is a connection error exactly when its message mentions one of the five causes |
| VerifierRetry.HttpRetriesOnConnectionErrorsOnly | backend/src/ai/verifiers/HttpFieldVerifier.ts:98-106 | with the five causes of the client, every post but the last failed with an error that mentions one of them |
| VerifierRetry.RefusedIsRetried | backend/src/ai/verifiers/HttpFieldVerifier.ts:80-107 | a connection error is retried once the service is healthy, and the second answer is the outcome |
| VerifierQueue.HttpFieldVerifier.Verify | backend/src/ai/verifiers/HttpFieldVerifier.ts:67-73 | a call appends one link to the chain and starts nothing itself |
| VerifierQueue.HttpFieldVerifier.RunSerial | backend/src/ai/verifiers/HttpFieldVerifier.ts:70-71 | an active job settles its caller with the outcome of its own input |
| VerifierQueue.OnlyTheFrontMoves | backend/src/ai/verifiers/HttpFieldVerifier.ts:69-71 | the chain's local rule lets only the front job move |
| VerifierQueue.StepKeepsSerialized | backend/src/ai/verifiers/HttpFieldVerifier.ts:69-71 | every step keeps the queue serialized |
| VerifierQueue.RunsAreFifo | backend/src/ai/verifiers/HttpFieldVerifier.ts:67-73 | in every run jobs start and settle in call order, each once, job i with the i-th call's input |
| VerifierQueue.AtMostOneActive | backend/src/ai/verifiers/HttpFieldVerifier.ts:67-73 | in every reachable state at most one verification is active |
| VerifierQueue.OutcomesAreFinal | backend/src/ai/verifiers/HttpFieldVerifier.ts:68-72 | a settled caller keeps the outcome of its own input over the rest of every run |
| VerifierQueue.QueueAlwaysMoves | backend/src/ai/verifiers/HttpFieldVerifier.ts:69-71 | while a caller waits some step is possible, whatever failed before |
| VerifierQueue.StepsShrinkTheQueue | backend/src/ai/verifiers/HttpFieldVerifier.ts:69-71 | every step but a new call brings the queue closer to empty |
| TokenRefresh.ApiClient.FlushRefreshQueue | frontend/src/api/client.ts:24-32 | every queued resolver is called once with the token and the queue is emptied |
| TokenRefresh.ApiClient.OnUnauthorized | frontend/src/api/client.ts:92-110 | a 401 is rejected without a token, queued during a refresh, and leads one otherwise |
| TokenRefresh.ApiClient.OnRefreshed | frontend/src/api/client.ts:114-123 | a refreshed token is stored and handed to every waiter, and the leader retries |
| TokenRefresh.ApiClient.OnFailure | frontend/src/api/client.ts:124-130 | a failed refresh or a failed retry drains the queue and clears the token |
| TokenRefresh.ApiClient.OnRetried | frontend/src/api/client.ts:119-123 | an answered retry leaves the queue and the open cycle alone |
| TokenRefresh.ApiClient.OnFinally | frontend/src/api/client.ts:131-133 | the cycle closes after the leader is settled |
| TokenRefresh.StepKeepsConsistent | frontend/src/api/client.ts:84-138 | every handler keeps one leader per open cycle and the queue equal to the queued requests |
| TokenRefresh.RefreshIsSingleFlight | frontend/src/api/client.ts:92-134 | over every interleaving at most one refresh is in flight |
| TokenRefresh.OutcomesAreFinal | frontend/src/api/client.ts:99-107 | no request is settled twice |
| TokenRefresh.WaitersShareTheOutcome | frontend/src/api/client.ts:114-130 | every waiter queued when the refresh settles gets that one outcome and nobody else is touched |
| TokenRefresh.UnauthorizedOutcomes | frontend/src/api/client.ts:93-110 | a 401 without a stored token is rejected; with one it queues behind an open cycle and leads one otherwise |
| TokenRefresh.SuccessOutcomes | frontend/src/api/client.ts:114-133 | a refreshed token is stored trimmed, and the leader is served by its retry |
| TokenRefresh.FailureOutcomes | frontend/src/api/client.ts:124-130 | a failed refresh or retry rejects the leader and clears the token |
| TokenRefresh.FailedLeaderIsRejected | frontend/src/api/client.ts:124-133 | in every run after a failure its leader stays rejected |
| TokenRefresh.SignedOutUntilLogin | frontend/src/api/client.ts:93-130 | in every run after a failure no token is stored until a login |
| TokenRefresh.StrandedIffLate | frontend/src/api/client.ts:98-133 | when a cycle closes, a request is left waiting if and only if it came back, with a token stored, while that cycle's leader was retrying or about to close, and no failure of the retry followed |
| TokenRefresh.LateWaiterIsStranded | frontend/src/api/client.ts:98-133 | a run in which a waiter outlives the cycle |
| AmountParser.SpellingsParse | backend/src/ai/parsers/amountParser.ts:183-232 | every Western, Indian, European or ungrouped spelling of an amount, with no fraction or one of one or two digits, parses to its worth |
| AmountParser.GroupingDoesNotMatter | backend/src/ai/parsers/amountParser.ts:194-224 | two groupings of the same digits and fraction parse alike |
| AmountParser.ShortLastPartIsFraction | backend/src/ai/parsers/amountParser.ts:202-217 | where one separator joins all parts, a last part of one or two digits is the fraction |
| AmountParser.SurroundedSpellingParses | backend/src/ai/parsers/amountParser.ts:184 | characters around a spelled amount that are no digit, separator or sign do not matter |
| AmountParser.RupeesWithWordsParse | backend/src/ai/parsers/amountParser.ts:183-232 | "Rs 1,234.50" is 1234.50 |
| AmountParser.NothingIsNoAmount | backend/src/ai/parsers/amountParser.ts:186-188 | a token with nothing to read but a sign is no amount |
| AmountTokens.TwoSignsCount | backend/src/ai/parsers/amountParser.ts:184-231 | of two signs in front of digits each counts |
| AmountTokens.FractionAloneParses | backend/src/ai/parsers/amountParser.ts:218-231 | a fraction alone of one or two digits is less than one, of three it is rounded, the half up |
| AmountTokens.TrailingDotParses | backend/src/ai/parsers/amountParser.ts:218-231 | a dot at the end changes nothing |
| AmountTokens.DotAloneIsNoAmount | backend/src/ai/parsers/amountParser.ts:226-229 | a dot alone is no amount |
| AmountParser.ReadersAgreeIff | ai/slm/app/payload_normalization.py:480-502 | the Python reader gives the same amount as the backend's exactly under a stated condition on the spelling |
| AmountTokens.PythonReadsNothing | ai/slm/app/payload_normalization.py:485-487 | the Python reader sees no amount in a token without digits, separators and signs |
| Decimal.HundredthsIsNearest | backend/src/ai/parsers/amountParser.ts:231 | rounding to two decimals is to the nearest, the half going up |
| Rounding.HalfEvenIsNearest | ai/slm/app/payload_normalization.py:501 | the Python rounding is to the nearest, the even one of two |
| Rounding.ToMinorUnitsIsNearest | backend/src/utils/currency.ts:40-48 | conversion to minor units is to the nearest, the upper one of two |
| Currency.MinorUnitDigits | backend/src/utils/currency.ts:32-38 | a currency has no minor digits, or three, exactly when its code is listed so, and two otherwise |
| Currency.SpelledWorth | backend/src/utils/currency.ts:62-75 | the printed form is a spelled amount worth the printed one, or a thousand times it with three digits |
| Currency.PrintParseRoundTripIff | backend/src/utils/currency.ts:40-75 | printing and parsing back gives the amount, for every integer, exactly when the digits are not three or the amount is zero |
| Currency.EveryCurrencyRoundTripsIff | backend/src/utils/currency.ts:1-75 | the same for every currency code, unknown and missing ones included |
| OcrRepair.RepairIsArithmetic | backend/src/ai/parsers/amountParser.ts:246-290 | the repair on digit strings is exactly an arithmetic condition and a remainder |
| OcrRepair.HasFractionIff | backend/src/ai/parsers/amountParser.ts:250-254 | a token has a fraction exactly when something without a dot stands behind a dot at its end |
| OcrRepair.NoDotNoRepair | backend/src/ai/parsers/amountParser.ts:250-254 | a token without a dot is never repaired |
| OcrRepair.RepairIsBounded | backend/src/ai/parsers/amountParser.ts:256-289 | a repair takes off exactly one digit 5 to 9 at the fifth or sixth place, keeps the fraction, and leaves less than 10000 and at least a 120th |
| OcrRepair.RepairKeepsSign | backend/src/ai/parsers/amountParser.ts:234-244 | a repaired amount keeps its sign |
| OcrRepair.PrintedIsReadBackIff | backend/src/ai/parsers/amountParser.ts:234-290 | a printed amount is read back through the repair, for every integer, exactly when it does not have the repairable shape |
| OcrRepair.GenuineAmountIsRepaired | backend/src/ai/parsers/amountParser.ts:246-290 | an amount of that shape is changed even when it is genuine |
| OcrRepair.RepairIsIdempotent | backend/src/ai/parsers/amountParser.ts:234-290 | re-reading the printed result of a repair repairs nothing further |
| TotalSelection.PickTotalAmount | ai/slm/app/selection_heuristics.py:99-124 | no total exactly when no candidate is positive; a total that is not the current one is a candidate within five per cent of every positive one; a strict one is within 100 or a twentieth of a positive current total |
| TotalSelection.BestIsNearTheLargest | ai/slm/app/selection_heuristics.py:110-116 | 1.05 times the unreverted choice reaches every positive candidate |
| TotalSelection.BonusDecides | ai/slm/app/selection_heuristics.py:110-116 | a candidate near the bottom right wins exactly when, times 1.05, one of them exceeds all others, and among candidates alike the largest wins |
| TotalSelection.StrictResultIsNear | ai/slm/app/selection_heuristics.py:118-124 | strict selection takes the choice when it is within 100 or a twentieth of a positive current total, and that total otherwise |
| TotalSelection.ApplyMode | ai/slm/app/payload_normalization.py:459-477 | the merge loop treats every selected field by its key and the current value alone, in any order |
| TotalSelection.MergingIsIdempotent | ai/slm/app/payload_normalization.py:459-477 | merging the same selection twice is merging it once, in both modes |
| TotalSelection.StrictChangesOnly | ai/slm/app/payload_normalization.py:465-476 | strict mode replaces only an empty field, an address-like vendor by another, or a non-positive total by a positive one |
| TotalSelection.StrictFills | ai/slm/app/payload_normalization.py:466-469 | strict mode takes a field that is new or replaces an empty one, and keeps what is not selected |
| TotalSelection.StrictCorrectsVendor | ai/slm/app/payload_normalization.py:470-473 | it gives up an address for a vendor that is none |
| TotalSelection.StrictCorrectsTotal | ai/slm/app/payload_normalization.py:474-476 | it gives up a total that is not positive for one that is |
| TotalSelection.RelaxedSelectionWins | ai/slm/app/payload_normalization.py:460-463 | relaxed mode takes every selected field and keeps the others |
| TotalSelection.StrictKeepsPositiveTotal | ai/slm/app/payload_normalization.py:474-476 | strict mode never changes a positive total and drops no field |
| PerfGate.PercentileCounts | backend/scripts/perf/perfGate.ts:43-47 | a percentile is within a budget exactly when enough of the unsorted samples are |
| PerfGate.PercentileIsNearestRank | backend/scripts/perf/perfGate.ts:43-47 | it is a sample, enough samples do not exceed it, and nothing smaller has that |
| PerfGate.PercentilesAscend | backend/scripts/perf/perfGate.ts:69-71 | the 95th percentile never exceeds the 99th |
| PerfGate.RunPerfGate | backend/scripts/perf/perfGate.ts:49-86 | too few iterations are refused; otherwise the gate passes exactly when at least 95 per cent of the samples are within budget |
| PerfGate.SamplesAreElapsed | backend/scripts/perf/perfGate.ts:62-67 | on a clock that never goes back no sample is negative, and together they fit between the first and last reading |
| PerfGate.GateIgnoresOrder | backend/scripts/perf/perfGate.ts:69-73 | verdict, percentiles and mean do not depend on the order of the samples |
| ManifestMerge.DeepMerge | backend/src/core/runtimeManifestConfig.ts:9-21 | the loop and its recursive calls compute the merge, or fail when a null meets a record |
| ManifestMerge.KeysAreTheBases | backend/src/core/runtimeManifestConfig.ts:10-11 | at any depth a merged record has exactly the base's keys |
| ManifestMerge.ValueBelowMergedRecord | backend/src/core/runtimeManifestConfig.ts:12-18 | below a merged record a reader finds the override's value where it has one and the base's otherwise |
| ManifestMerge.EmptyOverrideIsIdentity | backend/src/core/runtimeManifestConfig.ts:13 | overrides that are absent, undefined or null change nothing |
| ManifestMerge.MergingTwiceIsOnce | backend/src/core/runtimeManifestConfig.ts:9-21 | merging the same override twice is merging it once, through every change of kind |
| ManifestMerge.ThrowsIffNullMeetsRecord | backend/src/core/runtimeManifestConfig.ts:14-15 | the merge throws exactly when at some depth a record is offered for a null |
| ManifestMerge.NullDefaultThrows | backend/src/core/runtimeManifestConfig.ts:14-15 | a record offered for a key that holds null makes the merge throw |

## Left out

- Rounding of IEEE doubles: coordinates, scores, ratios, times and amounts are exact, so comparisons within one rounding error of a threshold are not captured, nor integers beyond 2^53 and their exponent notation.
- UTF-16 code units, Unicode digits matched by Python's `\d`, case folding and `Date` parsing: strings are sequences of characters, and a clock is assumed to print instants injectively without "|".
- OcrMerge.MergeBlocks: leaves `fixOcrDigits` as an arbitrary function of the text, because it is a regular expression without a stated goal.
- `buildLayoutText` (ocrPostProcessor.ts) and `blocks_to_text` (pdf_utils.py): they only filter and join what the lines already say.
- Extraction of text blocks from PDFium and every network, S3, database and timer call: they are inputs, or events of a run.
- SchemaBuilder.BuildCollectionJsonSchema: states what the heap maps stand for; the literal registry of collections is not instantiated, and prototype properties of JavaScript objects do not occur.
- `selectStrategy` and the prompts of DocumentProcessingEngine.ts: a decision table and text templates.
- PollingRuns.CheckpointsAscend: one source and one run at a time; the marker in the database is written only by the ingestion loop. A file counts as processed once it is handed to `processFile`; how far that got before the run died, and the deduplication of invoices by content, are not modelled.
- VerifierRetry.VerifySerial: leaves out the normalization of the verifier's response, headers and logging; each post is one answer.
- TokenRefresh.StepKeepsConsistent: the timer-driven refresh and logins enter only as changes of the stored token, and redirection of the page is not modelled.
- Extraction and scoring of amounts in running text (the rest of amountParser.ts), vendor, date and invoice-number selection: regular expressions and weights.
- TotalSelection.PickTotalAmount: takes candidates as already parsed and the bottom-right lookup in blocks as a function of the value.
- ManifestMerge.DeepMerge: the order of keys in a record and properties inherited from prototypes are not modelled; sources and defaults of the manifest are plain data.
- PerfGate.RunPerfGate: iterations are an integer, and the report line is not modelled.
- Cryptography, sessions, user interface state, models, seeds, routes, and the TDS, reconciliation and export services: wrappers, declarations, or not part of this model.
