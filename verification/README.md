# CQOps in Dafny: the worked index, Wavelog sync and their neighbours

CQOps is an amateur-radio logger. This project models the parts of it whose
correctness is a promise between several functions, and proves those promises.

- **The worked index** (`Contact`, `WorkedIndex`, `LogSteps`, `Verdicts`,
  `QsoStore`). Three aggregate tables and four counters summarise the `qsos`
  table. Every writer moves them by deltas, and a rebuild is what they must equal.
  `Contact` holds the row and its contribution in the two forms the program keeps
  (Go and SQL), `WorkedIndex` the algebra of one delta, `LogSteps` every writer as a
  step on rows, index and counters, and `QsoStore` the database as a class whose
  methods perform those steps. `Verdicts` reads the index back.
- **Wavelog sync** (`WavelogPayload`, `WavelogSync`, `WavelogRuns`, `LateEnrichment`).
  Which columns travel when, and one contact as a step system: its remote copy,
  an upload or PATCH in flight, answers that are late or lost.
- **Lists** (`Listing`, `ContestPages`). Contest pages, ranks and keyset exports,
  all against the one sorted listing of the selected rows.
- **Radio links** (`KissFraming`, `Ax25`, `AprsPosition`). Framing, addresses and
  position reports as encoder and decoder.
- **Geography and lookup** (`Locator`, `CtyPrefix`). Maidenhead locators as
  mixed-radix numerals; the DXCC prefix table.
- **Shared resources** (`HybridListener`, `DbHolders`, `SecretsSave`). The TLS
  listener's shutdown over all interleavings, reference-counted databases, and
  saving credentials when writes may fail.

`Text` holds byte order, blanks and case, `Common` optional values and searching.
Text is ASCII: one character is one byte (`KissFraming` and `Ax25` work on bytes).
A database transaction, and the section under one mutex, is one atomic step.
Locators and positions are over exact reals. The callsign rule that derives the base
call is a parameter (`derive`).

`dafny verify dfyconfig.toml` checks everything.

## Where the code and its promises part

Each of these is proved, with the exact condition under which the code does what
it says.

- A row that has a submode but no mode is indexed under the submode when it is
  written and under nothing when the index is rebuilt
  (`Verdicts.SubmodeWithoutModeSplitsTheIndex`). The comment on `qsoStamp`
  (internal/store/worked_index.go:104-105) calls the Go and SQL stamps consistent;
  they differ on times shorter than six characters, because `%06s` pads text with
  blanks (`Contact.StampsAgree`). `Contact.FormsAgreeExactlyOnValidRows` says which
  rows are safe.
- A PATCH carries a part of the row: no country, source, confirmations, contest ids,
  end time, operator or station columns, and a submode only in MFSK. An edit of these
  marks a linked row pending, is pushed, acknowledged and counts as synchronized, and
  the server's copy stays what it was (`WavelogRuns.CountryStaysAtHome`,
  `WavelogRuns.OtherColumnsNeverTravel`). Emptied identity columns (call, band, mode,
  date) are not cleared either. Of the columns of a PATCH the promise holds; the whole
  copy of a linked, clean contact agrees again exactly when the columns only the first
  upload carries are as they were and no identity column was emptied
  (`WavelogRuns.WholeCopyAgreesIffTheRestIsUnchanged`).
- Also on the columns of a PATCH, a linked and clean row can differ from its copy.
  `WavelogRuns.PromiseHoldsUnlessTheWrongCopyIsLinked` says when, over every run: the
  server answered "duplicate", and the copy that is there, be it older than this log or
  left by an upload whose answer was lost, is out of step with the row
  (`WavelogRuns.LostAnswerLosesTheEdit` is such a run); or the server took the upload and
  put values of its own into columns the upload left out. The first upload and a PATCH
  also read zones differently: of "CQ15" the one sends nothing and the other 15
  (`WavelogPayload.SomeZonesAreReadTwice`). `WavelogPayload.TakenAsSentMeansInStep` gives
  the condition on row and server, `WavelogRuns.NoLostAnswerKeepsThePromise` the exact
  one for runs without a lost answer, and `WavelogRuns.PlainZonesKeepThePromise` the one
  on the row alone, for a server that adds nothing.
- If the program stops between writing the secrets and writing `config.yaml`, a start
  can find old and new credentials mixed: a cleared one that is still in plaintext in the
  old file comes back, a dropped logbook keeps its key, and one the old file has no field
  for is not found (`SecretsSave.ClearedPlaintextComesBack`,
  `SecretsSave.DroppedLogbookKeepsItsKey`, `SecretsSave.AddedKeyIsNotFound`).
  `SecretsSave.AllNewIff` and `SecretsSave.AllOldIff` give the exact conditions over all
  credentials. `SecretsSave.AddedCredentialSurvivesIff` says when the next save deletes
  the one that was not found.
- A KISS frame with an empty body does not come back as the line that was sent
  (`Ax25.LineComesBackIffItHasABody`).
- At the north pole and on the antimeridian the four- and six-character encoders
  leave the locator alphabet (`Locator.ShorterLocatorsArePrefixes`). The comment on
  `GridToLatLon` (internal/geo/geo.go:16-19) speaks of two-character locators; the
  code refuses them, and so does the model.
- `ApplySecrets` says it migrates a plaintext value that differs from the stored one.
  It does write it to the store, but leaves the old value in the live field, so the
  next save puts the old value back (`SecretsSave.NextSaveUndoesTheMigration`).
- A position comment never comes back as the text that was sent: the parser keeps the
  slash in front of it, and takes one of six or more characters with a slash among the
  first four partly for a course (`AprsPosition.NoCommentComesBackUnchanged`,
  `AprsPosition.CommentIsHeard`).

## Model

| member | source | states |
|---|---|---|
| Text.BeforeAtTheFirstDifference | internal/store/worked_index.go:156-157 | byte order is decided by the first differing character, and a beginning comes before the whole |
| Text.DigitsAreInNumericOrder | internal/store/worked_index.go:104-114 | stamps, dates and times of one length are ordered as the numbers they write |
| Text.TrimIsTheMiddle | internal/store/worked_index.go:526-530 | trimming cuts at the first and the last character that is no blank |
| Text.BlankCodes | internal/store/worked_index.go:526-530 | blanks are the six of ASCII |
| Text.OnlyLettersHaveCase | internal/store/worked_index.go:504-511 | the 26 letters change case and nothing else does |
| Text.ContainsMeansAStretch | internal/store/worked_index.go:60-76 | containing means having the text somewhere as a stretch |
| Common.RoundIsTheNearest | internal/tui/logbook_editor_sync.go:608-609 | rounding gives the nearest integer, halves away from zero |
| Contact.FormsAgreeExactlyOnValidRows | internal/store/worked_index.go:60-114 | for an unpadded row with an entity, the Go contribution and the SQL grouping give the same keys, stamp, confirmation and source class if and only if the row invariant holds |
| Contact.ValidRowsAgree | internal/store/worked_index.go:302-320 | on every valid row, resolved or not, both forms agree |
| Contact.StampsAgree | internal/store/worked_index.go:104-111 | the two stamps are equal exactly for times of at least six characters; the Go stamp pads with zeros, the SQL one with blanks |
| Contact.OneClassIsTheGoClass | internal/store/worked_index.go:60-89 | the independent SQL mask bits reduce to the Go switch exactly when one of them is set |
| Contact.WhereClauseSelectsTheGroup | internal/store/worked_index.go:185-211 | the WHERE clause a removal uses selects exactly the rows the rebuild groups under that key |
| Contact.KeyListMembers | internal/store/worked_index.go:219-274 | which aggregates a contribution joins, at all six levels |
| WorkedIndex.SummaryIsTheRebuild | internal/store/worked_index.go:405-451 | an index agrees with the table at every key if and only if it is the rebuilt index |
| WorkedIndex.AddingReachesTheGroup | internal/store/worked_index.go:150-174 | the +1 upsert turns the aggregate of a table into that of the table with one more row |
| WorkedIndex.RemovingReachesHalfway | internal/store/worked_index.go:174-213 | a -1 run after the table changed gives counts without the row and edges and mask of the changed table |
| WorkedIndex.AddingClosesTheGap | internal/store/worked_index.go:331-349 | the +1 half turns that in-between aggregate into the one of the changed table |
| WorkedIndex.RemovalPassIsHalfway | internal/store/worked_index.go:322-349 | after the removing half of a re-index the index is a fixed mixture of two tables, key by key |
| WorkedIndex.AdditionPassFinishes | internal/store/worked_index.go:322-349 | the adding half ends at the index of the changed table |
| WorkedIndex.InsertPass | internal/store/worked_index.go:219-249 | one adding pass carries a correct index to the table with the new row |
| WorkedIndex.DeletePass | internal/store/queries_qso.go:787-808 | one removing pass, after the row is gone, carries a correct index to the smaller table |
| LogSteps.UnchangedContributionNeedsNoWrite | internal/store/worked_index.go:327-342 | skipping the index when the contribution did not change leaves index and counters correct |
| LogSteps.ReplaceKeeps | internal/store/worked_index.go:331-349 | a row update followed by a re-index keeps rows valid, index rebuilt and counters scanned |
| LogSteps.BackfillIsReindex | internal/store/worked_index.go:351-378 | the backfill shortcut leaves the very log a full re-index leaves |
| LogSteps.CountersFollow | internal/store/worked_index.go:677-723 | seeded counters equal to a scan stay equal to it in both directions |
| LogSteps.InsertedRowIsValid | internal/store/queries_qso.go:62-124 | an acceptable contact is stored as a valid row |
| LogSteps.EditedRowIsValid | internal/store/queries_qso.go:1186-1250 | so is an edit of a valid row |
| LogSteps.StepKeeps | internal/store/queries_qso.go:144-161 | insert, update, save, enrich, backfill, id attachment, acknowledgement, delete, purge and rebuild each keep the log consistent |
| LogSteps.RunKeepsTheIndex | internal/store/worked_index.go:131-275 | after every finite run of writers the kept index is the one a rebuild computes and seeded counters are the scan |
| QsoStore.SubQueriesReadTheGroup | internal/store/worked_index.go:185-211 | the sub-queries of a removal read the edges and the mask of the group |
| QsoStore.QueryAt | internal/store/worked_index.go:405-445 | each of the rebuild's six grouped SELECTs gives, at every key, the specified aggregate or nothing, and no key comes from two of them |
| QsoStore.EachKeyComesFromOneQuery | internal/store/worked_index.go:415-445 | the six queries put a row under exactly its keys, each once |
| QsoStore.QsoStore.ApplyCountDelta | internal/store/worked_index.go:131-213 | one aggregate after upsert, cleanup and re-derivation |
| QsoStore.QsoStore.AddDxccLevels | internal/store/worked_index.go:254-275 | the delta reaches every level the contribution has, in order |
| QsoStore.QsoStore.ApplyCoverageDelta | internal/store/worked_index.go:681-723 | exactly the touched, seeded counters move, never below zero |
| QsoStore.QsoStore.IndexQso | internal/store/worked_index.go:219-249 | all aggregates and counters of one contribution move by one |
| QsoStore.QsoStore.ReindexQso | internal/store/worked_index.go:331-349 | the stored row's old contribution is replaced by its new one |
| QsoStore.QsoStore.BackfillDxccIndex | internal/store/worked_index.go:359-378 | only entity levels and counters move |
| QsoStore.QsoStore.RebuildWorkedIndex | internal/store/worked_index.go:405-456 | six queries after a clear give the specified index and seed all counters |
| QsoStore.QsoStore.InsertQso | internal/store/queries_qso.go:144-161 | a fresh id, the normalised row, and a consistent log |
| QsoStore.QsoStore.UpdateQso | internal/store/queries_qso.go:1253-1282 | the edited row and a consistent log |
| QsoStore.QsoStore.SaveQso | internal/store/queries_qso.go:1297-1336 | the remote id survives the form, a synced row becomes pending, and the reported revision is the edit's own |
| QsoStore.QsoStore.EnrichQso | internal/store/queries_qso.go:1426-1538 | reports a change, a revision and an owed push exactly when the row changed, and keeps grid and entity that were there |
| QsoStore.QsoStore.ResolveDxcc | internal/store/queries_qso.go:1570-1607 | one row of a backfill: written only while unresolved |
| QsoStore.QsoStore.BackfillDxcc | internal/store/queries_qso.go:1550-1607 | the whole batch in any order: exactly the unresolved rows change, and their number is returned |
| QsoStore.QsoStore.SetWavelogIdChecked | internal/store/queries_wavelog.go:48-67 | the id is stored either way, and a row edited since the upload is reported and pending |
| QsoStore.QsoStore.ClearWavelogDirtyIfRevision | internal/store/queries_wavelog.go:100-106 | only an acknowledgement of the current revision clears the mark |
| QsoStore.QsoStore.DeleteQso | internal/store/queries_qso.go:787-808 | the row is gone and the log consistent |
| QsoStore.QsoStore.PurgeQsos | internal/store/queries_qso.go:1340-1353 | no rows, no aggregates, a consistent log |
| Verdicts.CoverageIsTheScan | internal/store/worked_index.go:591-656 | coverage is the scanned numbers whether the counters are seeded, unseeded or partly seeded |
| Verdicts.WorkedMeansAContactExists | internal/store/worked_index.go:526-548 | a DXCC level is worked exactly when a contact at that level is in the log |
| Verdicts.CallWorkedMeansAContactExists | internal/store/worked_index.go:488-502 | a callsign is worked exactly when a contact with the same base call is in the log |
| Verdicts.GridWorkedMeansAContactExists | internal/store/worked_index.go:506-521 | a locator is worked exactly when a contact in its four-character square is in the log, in any case |
| Verdicts.EdgesAreTheEarliestAndLatest | internal/store/worked_index.go:150-174 | first and last of a stored aggregate are date and time of its earliest and its latest contact as numbers, and its count is that of its contacts |
| Verdicts.AggregateCountsItsContacts | internal/store/worked_index.go:150-213 | the stored numbers are how many contacts there are, how many confirmed, and for an entity which sources they came from |
| Verdicts.DxccVerdictIsTheTruth | internal/store/worked_index.go:737-745 | WORKED, NEW and UNKNOWN each hold on exactly one condition on the rows |
| Verdicts.EnrichmentFillsOnlyGaps | internal/store/queries_qso.go:1426-1538 | each empty column takes its own offered value, no filled column changes, the revision rises by one exactly on a change, and a push is owed exactly for a changed synced row |
| Verdicts.EnrichmentIsIdempotent | internal/store/queries_qso.go:1426-1538 | a second identical call changes nothing; when the first one does not either |
| Verdicts.CommentEditKeepsTheHistory | internal/store/queries_qso.go:1253-1282 | an edit that repeats what the index is computed from, with entity and confirmations left empty, contributes what the row contributed before |
| Verdicts.ResavingAnInsertChangesNothing | internal/store/queries_qso.go:1186-1250 | saving a freshly inserted contact unchanged leaves its contribution alone, sideband filling included |
| Verdicts.EntityFallsWithTheCallsign | internal/store/queries_qso.go:1186-1225 | an edit without an entity drops the stored one exactly when the callsign changed by more than case |
| Verdicts.NormalisedStatus | internal/qso/qso.go:177-185 | normalising leaves Y, N or nothing and keeps whether it is a confirmation |
| Verdicts.InsertKeepsTheForm | internal/store/queries_qso.go:62-102 | an insert stores the form; confirmations keep their meaning, and only source, provenance, sideband, base call and the sync columns are filled in |
| Verdicts.SidebandConvention | internal/qso/fill.go:31-45 | lower sideband below 10 MHz, upper from there on, and only for an SSB contact that names none |
| Verdicts.EditTakesTheForm | internal/store/queries_qso.go:1186-1250 | which column of an edited row is the form's and which the stored one: confirmations, entity and its provenance, remote id, revision, pending mark |
| Verdicts.ResolvingTouchesTheEntityOnly | internal/store/queries_qso.go:1583-1588 | a backfill changes the entity and its provenance and no other column |
| Verdicts.SubmodeWithoutModeSplitsTheIndex | internal/store/worked_index.go:430-445 | a submode without a mode is indexed by the write and not by the rebuild |
| WavelogPayload.OnlyTheseColumnsTravel | internal/tui/logbook_editor_sync.go:607-646 | rows that agree on the columns of a PATCH send the same one, whatever their other columns |
| WavelogPayload.EachOfThemTravels | internal/tui/logbook_editor_sync.go:607-685 | and a difference in any of those columns, up to digits and whole hertz, makes a different PATCH |
| WavelogPayload.PatchingSettles | internal/wavelog/wavelog.go:717-795 | after a PATCH, sending it again changes nothing |
| WavelogPayload.SettledIsEquality | internal/wavelog/wavelog.go:719-761 | "a PATCH would change nothing" is equality of the columns exactly when no identity column was emptied, since those are never cleared |
| WavelogPayload.SentZonesAgree | internal/wavelog/wavelog.go:476-487 | a zone the first upload sends is the one a PATCH sends |
| WavelogPayload.TakenAsSentMeansInStep | internal/tui/wavelog_integration.go:317-382 | after the first upload a PATCH would change nothing, and the copy agrees in every column, exactly when each column was sent or filled with what a PATCH would bring |
| WavelogPayload.OnlyZonesAreReadTwice | internal/wavelog/wavelog.go:476-487 | with a server that adds nothing this is a condition on the two zone texts alone |
| WavelogPayload.SomeZonesAreReadTwice | internal/tui/logbook_editor_sync.go:651-659 | "CQ15" is no zone to the first upload and 15 to a PATCH |
| WavelogPayload.SettledMeansShown | internal/tui/logbook_editor_sync.go:607-646 | "a PATCH would change nothing" means, column by column, that the copy has the contact's values, identity columns as far as the contact has them |
| WavelogPayload.IdentityIsNeverCleared | internal/wavelog/wavelog.go:719-761 | after a PATCH the copy shows the contact, and identity columns it leaves empty are what they were |
| WavelogPayload.UploadShowsTheRow | internal/tui/wavelog_integration.go:317-382 | what the first upload sends is in its own column of the copy, confirmations, contest and session included |
| WavelogPayload.SubmodeIsUploaded | internal/tui/wavelog_integration.go:371-380 | the submode travels with the first upload unless it is the mode that was sent |
| WavelogPayload.TimeInSixDigits | internal/tui/logbook_editor_sync.go:674-685 | a time travels as its first six digits, filled up with zeros |
| WavelogPayload.ZonesInDigits | internal/wavelog/wavelog.go:478-485 | a zone in digits is that number to PATCH and first upload |
| WavelogPayload.ZonesTooLarge | internal/tui/logbook_editor_sync.go:651-659 | a number that does not fit is no zone |
| WavelogPayload.NoDigitsNoZone | internal/tui/logbook_editor_sync.go:651-659 | a text without a digit is no zone to either |
| WavelogPayload.HertzAreTheFrequency | internal/tui/logbook_editor_sync.go:608-609 | the frequency in whole hertz, to the nearest |
| WavelogSync.NextKeepsTheInvariant | internal/tui/logbook_editor_sync.go:138-226 | every event keeps "linked and not pending means a PATCH would change nothing on the server", exactly unless it links a copy that is out of step |
| WavelogSync.OnlyTheCurrentRevisionClears | internal/store/queries_wavelog.go:96-106 | a pending mark goes away only when a push of the current revision is acknowledged, and then every column of the PATCH is on the server |
| WavelogSync.LinkIsNeverLost | internal/store/queries_qso.go:1181-1185 | no save or enrichment from a stale form resets a remote id |
| WavelogSync.NextOwesThePush | internal/tui/logbook_editor_sync.go:388-438 | while online and with no lost answer, a pending row always has a push of its latest revision under way or queued |
| WavelogSync.WhatIsReliable | internal/tui/logbook_editor_sync.go:388-438 | the runs meant: online, and no answer to a PATCH lost |
| WavelogSync.FreshContactsStartHonest | internal/tui/wavelog_integration.go:242-300 | a contact that was never uploaded satisfies the invariant |
| WavelogSync.SaveAsks | internal/tui/logbook_editor_update.go:1206-1242 | a save asks for a push of its own revision exactly when linked and online; a running chain gets one follow-up |
| WavelogSync.EnrichmentAsks | internal/tui/callbook_integration.go:540-577 | an enrichment asks exactly when it filled something in a linked contact, online |
| WavelogSync.LinkingAsks | internal/tui/wavelog_integration.go:129-170 | linking asks exactly when the row was edited since the upload, online |
| WavelogSync.RetryAsks | internal/tui/logbook_editor_sync.go:238-262 | a retry asks exactly for a linked contact whose chain is at rest |
| WavelogSync.PushShowsTheRow | internal/tui/logbook_editor_sync.go:388-438 | after a worker has read and the server applied, every column of a PATCH shows the row as it was read |
| WavelogSync.AcknowledgementClears | internal/store/queries_wavelog.go:96-106 | an acknowledgement clears exactly its own revision, and the follow-up that waited starts |
| WavelogSync.RetrySynchronizes | internal/tui/logbook_editor_sync.go:238-262 | from any reachable state at rest an undisturbed retry ends clean, with the server showing the row |
| WavelogSync.UploadLinksTheContact | internal/tui/wavelog_integration.go:242-284 | an undisturbed upload ends linked, with the copy that was sent and completed |
| WavelogRuns.PromiseHoldsUnlessTheWrongCopyIsLinked | internal/store/queries_wavelog.go:40-67 | over every run, with failures before or after the server applied a request, the promise holds at every moment if and only if no event links a differing copy: a foreign one, one left by a lost upload, or the own one with values the server put in by itself |
| WavelogRuns.NoLostAnswerKeepsThePromise | internal/tui/wavelog_integration.go:242-297 | from a contact the server has never seen, a run that loses no answer to an accepted upload keeps the promise if and only if the upload that gets linked was taken as sent |
| WavelogRuns.LostUploadsNeedAnEdit | internal/tui/wavelog_integration.go:129-170 | a lost upload that was taken as sent does harm only after a save or enrichment that changed a column of the PATCH |
| WavelogRuns.PlainZonesKeepThePromise | internal/wavelog/wavelog.go:476-487 | with a server that adds nothing and no lost answer, rows whose zones both readings understand alike never break the promise |
| WavelogRuns.QuietMeansSynchronized | internal/tui/logbook_editor_sync.go:138-180 | after a run online with no lost PATCH answer and no wrong copy, a linked contact with no PATCH in flight is clean and the server shows it, column by column |
| WavelogRuns.WholeCopyAgreesIffTheRestIsUnchanged | internal/wavelog/wavelog.go:700-711 | the whole copy of a linked clean contact agrees again exactly when the columns no PATCH carries are unchanged and no identity column was emptied |
| WavelogRuns.OtherColumnsNeverTravel | internal/tui/logbook_editor_sync.go:607-646 | runs whose edits touch only other columns leave the server's copy exactly as it was |
| WavelogRuns.CountryStaysAtHome | internal/tui/callbook_integration.go:491-577 | a country from the callbook is marked, pushed and acknowledged, and the copy has not changed |
| WavelogRuns.LostAnswerLosesTheEdit | internal/tui/wavelog_integration.go:262-268 | lost answer, edit, duplicate: linked, clean and different from the server |
| LateEnrichment.Coordinator.RequestPush | internal/tui/callbook_integration.go:560-577 | a chain starts exactly when none is in flight for the contact, else one follow-up is queued |
| LateEnrichment.Coordinator.HandleCompletion | internal/tui/logbook_editor_sync.go:138-160 | the chain runs again with its own binding exactly when a follow-up was queued |
| LateEnrichment.SavedContact.EnrichSaved | internal/tui/callbook_integration.go:491-577 | a late answer is applied at most once, to the contact and logbook it was asked for, field by field into the gaps, and pushed exactly when it filled a column of a synced row |
| Listing.OrderedIsAListing | internal/store/queries_qso.go:55-56 | the ordered result holds exactly the selected rows in strict order |
| Listing.ListingIsUnique | internal/store/queries_qso.go:55-56 | and is the only such list |
| Listing.PositionCountsWhatPrecedes | internal/store/queries_qso.go:351-379 | a row's position is the number of rows before it |
| Listing.SuffixIsWhatFollows | internal/store/queries_qso.go:1032-1063 | what a keyset cursor selects is the rest of the listing |
| Listing.ListingIsChronological | internal/store/queries_qso.go:215-232 | in the oldest-first listing no contact stands behind a later date, a later time of the date or a higher id of the moment; in the newest-first one none in front |
| Listing.OlderInNumbers | internal/store/queries_qso.go:215-232 | for dates and times in digits that is the order of the moments as numbers |
| Listing.NewestIsOldestReversed | internal/store/queries_qso.go:55-56 | newest first is oldest first, read backwards |
| ContestPages.ArmsPartitionTheScope | internal/store/queries_qso.go:268-279 | the two arms split the contest's rows |
| ContestPages.WhoIsInScope | internal/store/queries_qso.go:268-279 | a contact is in a contest by either of its two tags; without a contest every contact is in scope |
| ContestPages.MergeStep | internal/store/queries_qso.go:215-253 | the smaller head of the two arms is the head of the union |
| ContestPages.MergeArms | internal/store/queries_qso.go:234-253 | the two-index loop yields the first rows of the sorted union |
| ContestPages.ListContestMerged | internal/store/queries_qso.go:185-263 | for every limit, offset and order the page is that slice of the sorted union |
| ContestPages.CountContest | internal/store/queries_qso.go:268-279 | the two counts add up to the size of the union |
| ContestPages.RankIsThePosition | internal/store/queries_qso.go:351-379 | the row at newest-first index i has rank i, and only listed rows have one |
| ContestPages.PageIsTheNextStretch | internal/store/queries_qso.go:1032-1063 | the page after a cursor is the next stretch of the listing |
| ContestPages.Export | internal/store/queries_qso.go:1072-1100 | the export terminates and hands every row to the callback once and in order, up to the first one it refuses |
| ContestPages.ListAll | internal/store/queries_qso.go:957-978 | every row once, by descending id |
| KissFraming.WrapFrame | internal/aprs/kiss.go:402-417 | the bytes written for a frame |
| KissFraming.EscapedOnTheWire | internal/aprs/kiss.go:406-415 | 192 is sent as 219 220, 219 as 219 221, any other byte as itself |
| KissFraming.NoMarkInside | internal/aprs/kiss.go:402-417 | escaped content never holds the byte 192 |
| KissFraming.FramingIsTransparent | internal/aprs/kiss.go:254-314 | any sequence of non-empty frames is read back frame by frame |
| KissFraming.FramesInTwoParts | internal/aprs/kiss.go:562-630 | where the stream is cut does not matter |
| KissFraming.NoiseIsIgnored | internal/aprs/kiss.go:600-604 | bytes before the first FEND yield nothing |
| KissFraming.RepeatedFendsAreSilent | internal/aprs/kiss.go:578-602 | adjacent FENDs yield nothing |
| Ax25.EncodeAddress | internal/aprs/kiss.go:426-461 | the seven bytes of an address, written in place |
| Ax25.DecodeAddress | internal/aprs/kiss.go:709-728 | the text of an address field, empty when it is none |
| Ax25.AddressComesBack | internal/aprs/kiss.go:426-461 | every call with 1-6 letters or digits and an SSID up to 15 survives, and the end mark is where it was put |
| Ax25.AddressesComeBack | internal/aprs/kiss.go:655-673 | a chain of addresses of any length is read back whole, and stops at its end |
| Ax25.SendKissFrame | internal/aprs/kiss.go:363-421 | the bytes written for a line, and the two refusals |
| Ax25.ExtractTnc2 | internal/aprs/kiss.go:638-705 | the line a frame stands for, raw fallbacks included |
| Ax25.ReadFrames | internal/aprs/kiss.go:562-630 | the packets handed on are those of the whole stream, however it was cut |
| Ax25.ShortcutNeverMisfires | internal/aprs/kiss.go:645-651 | a frame of a valid line is never taken for plain text |
| Ax25.LineIsSent | internal/aprs/kiss.go:371-400 | the sender takes a valid line apart where it was put together |
| Ax25.FrameOnTheWire | internal/aprs/kiss.go:378-400 | every byte of a frame as a number: doubled call characters, 64 for padding, 96 plus twice the SSID plus the end bit in the last address only, 3, 240, body |
| Ax25.BodyOfAReceivedFrame | internal/aprs/kiss.go:679-690 | the body behind 3 and 240, or behind 3 alone, or without either |
| Ax25.SsidIsRead | internal/aprs/kiss.go:434-442 | the SSID is the number behind the dash modulo 16: blanks, a plus sign and what follows it do not matter, and one too large for an int reads as 0 |
| Ax25.NoDigitNoSsid | internal/aprs/kiss.go:434-437 | a text without a digit behind the dash is SSID 0 |
| Ax25.ShiftedIsDoubled | internal/aprs/kiss.go:440-450 | a shifted byte is doubled modulo 256 |
| Ax25.CallCharacters | internal/aprs/kiss.go:645-651 | a call sign consists of capital letters and digits |
| Ax25.MarksInAscii | internal/aprs/kiss.go:371-388 | the marks of a line are colon, arrow, comma, dash and blank |
| Ax25.FrameIsReadAs | internal/aprs/kiss.go:638-705 | what the frame of any valid line is read as, empty bodies included |
| Ax25.LineComesBackIffItHasABody | internal/aprs/kiss.go:679-696 | one packet equal to the line, if and only if the body is not empty |
| Ax25.LinesComeBack | internal/aprs/kiss.go:354-421 | any list of lines, behind any noise, is handed on in order and unchanged |
| HybridListener.StepKeepsTheInvariant | internal/dashboard/tls.go:213-266 | every step of loop, workers, consumers and Close keeps counts, places and the seal on the result channel |
| HybridListener.EveryRunIsSafe | internal/dashboard/tls.go:176-266 | over every interleaving: at most 64 slots, no send on a closed channel, no connection closed before Close is called, and after Close every accepted connection was delivered or closed, not both |
| HybridListener.ServedInOrder | internal/dashboard/tls.go:199-266 | until Close drains the channel, in every interleaving, what consumers got and what waits are together exactly what the workers sent, in order |
| HybridListener.ConsumersGetWhatWasSent | internal/dashboard/tls.go:199-207 | so from the start consumers get a prefix of what was sent, at most 64 short |
| HybridListener.NewClientIsServed | internal/dashboard/tls.go:213-266 | an open listener with a free slot and room in the channel can take any new client through to the channel and be ready for the next |
| HybridListener.ChannelsAreUsable | internal/dashboard/tls.go:199-233 | an error can be reported while there is room, and a consumer can take whatever waits |
| HybridListener.NoErrorIsSwallowed | internal/dashboard/tls.go:222-233 | an accept error is reported while there is room and Close was not called |
| HybridListener.NothingNewAfterTheSignal | internal/dashboard/tls.go:234-253 | once Close was called no connection enters classification, and none is accepted once the raw listener is closed |
| HybridListener.CloseGoesStepByStep | internal/dashboard/tls.go:176-197 | signal, raw listener, join, drain: nobody else moves Close and no stage is left out |
| HybridListener.ShutdownOnlyMovesForward | internal/dashboard/tls.go:176-197 | once shutdown has begun every step lowers a measure |
| HybridListener.ShutdownIsNeverStuck | internal/dashboard/tls.go:207-266 | until Close has returned something can move without consumer or client |
| HybridListener.NobodyElseIsNeeded | internal/dashboard/tls.go:207-266 | "without consumer or client" means neither takes a result nor connects |
| HybridListener.ShutdownCompletes | internal/dashboard/tls.go:169-197 | so the join ends in every interleaving |
| Locator.EncoderNamesTheCell | internal/gps/gps.go:295-349 | whatever the coordinates every digit is in its radix, and in range the digits number the cell that holds the point |
| Locator.WrittenInCapitals | internal/gps/gps.go:314-348 | the ten characters, axis by axis |
| Locator.AcceptedTexts | internal/geo/geo.go:20-75 | which texts the decoder accepts at 4, 6, 8 and 10 characters, and which error each other text gets |
| Locator.SixCharactersNeedTheRange | internal/ref/ref_import.go:243-275 | the six-character encoder returns nothing exactly outside the coordinate range |
| Locator.CentreInCells | internal/geo/geo.go:20-75 | the decoded position is the middle of the named cell at all four precisions |
| Locator.CentreComesBack | internal/geo/geo.go:20-75 | encoding the centre of any accepted locator of 4, 6, 8 or 10 characters gives its characters back |
| Locator.CentreIsWithinHalfACell | internal/gps/gps.go:295-349 | for every point of the closed range the decoded centre is within 1/5760 degree of longitude and 1/11520 of latitude |
| Locator.ShorterLocatorsArePrefixes | internal/ref/ref_import.go:243-275 | the 4- and 6-character locators are prefixes of the 10-character one if and only if the point is off the pole and the antimeridian |
| Locator.BeyondTheAlphabet | internal/geo/geo.go:80-90 | there they write the field S |
| DbHolders.App.KeepDBAlive | internal/app/app.go:1083-1112 | one more user of the database, and a function to give it up |
| DbHolders.App.CallRelease | internal/app/app.go:1100-1111 | only the first call counts, and it closes the database exactly when it was retired, still open and nobody else holds it |
| DbHolders.App.RetireDB | internal/app/app.go:1117-1129 | closed at once if and only if nobody holds it |
| DbHolders.App.SwitchLogbook | internal/app/app.go:1020-1069 | a failed switch changes nothing; a successful one retires the old database and leaves the new one live |
| DbHolders.App.MappedIsHeld | internal/app/app.go:1087-1096 | the map has a holder exactly for the databases in use |
| DbHolders.App.RetiredAndFreeIsClosedOnce | internal/app/app.go:1100-1129 | a retired database that nobody holds was closed exactly once, one in use for good not at all |
| DbHolders.App.HeldIsOpen | internal/app/app.go:1083-1112 | whoever took hold of an open database finds it open |
| SecretsSave.Store.Save | internal/secrets/secrets.go:90-118 | only a completed write clears the dirty flag, and a clean store is what a reload gives |
| SecretsSave.Store.Set | internal/secrets/secrets.go:130-137 | dirty exactly when something changed |
| SecretsSave.Store.constructor | internal/secrets/secrets.go:50-86 | loading a missing, sealed or unreadable file |
| SecretsSave.Config.SyncSecretsToStore | internal/config/secrets_config.go:32-62 | entries follow live fields; success means they are on disk, failure leaves file and dirty flag for a retry |
| SecretsSave.Config.ScrubbedCopy | internal/config/secrets_config.go:68-94 | the copy without credentials; the live configuration is untouched |
| SecretsSave.Config.Save | internal/config/config.go:589-620 | the YAML file changes only after the credentials are safe, under every pattern of failures |
| SecretsSave.Config.ApplySecrets | internal/config/secrets_config.go:101-178 | every field takes its entry, every plaintext overwrites its entry, whichever writes fail |
| SecretsSave.SaveThenLoadRestores | internal/config/secrets_config.go:68-178 | loading after a successful save gives back the whole configuration |
| SecretsSave.BetweenTheWrites | internal/config/config.go:594-619 | what a start between the two writes finds at each credential: plaintext files, dropped logbooks and fields the old file lacks included |
| SecretsSave.AllNewIff | internal/config/config.go:594-619 | over all credentials, it finds everything new exactly when no cleared one is still in plaintext, no dropped logbook has one left, and none is set that the old file has no field for |
| SecretsSave.AllOldIff | internal/config/config.go:594-619 | it finds all old ones exactly when the save changes none, except by clearing one whose entry the file repeats |
| SecretsSave.ClearedPlaintextComesBack | internal/config/secrets_config.go:32-52 | the first save after a migration: one credential old, one new |
| SecretsSave.DroppedLogbookKeepsItsKey | internal/config/secrets_config.go:50-56 | a dropped logbook's key beside a new password |
| SecretsSave.AddedKeyIsNotFound | internal/config/secrets_config.go:150-173 | the first key of a logbook beside a new password: not found, and deleted by the next save |
| SecretsSave.AddedCredentialSurvivesIff | internal/config/secrets_config.go:32-62 | a credential the old file has no field for is in the store, unseen, and the next save keeps it exactly when the old file lacks the whole logbook |
| SecretsSave.ApplyAgreesUnlessContradicted | internal/config/secrets_config.go:96-178 | field and entry agree after loading if and only if the plaintext did not contradict the entry |
| SecretsSave.NextSaveUndoesTheMigration | internal/config/secrets_config.go:107-115 | otherwise the next save restores the old value and the plaintext is gone |
| SecretsSave.KeyTextsDiffer | internal/config/secrets_config.go:9-18 | no two credentials share an entry |
| SecretsSave.EntryNames | internal/config/secrets_config.go:9-18 | the names the entries are stored under |
| CtyPrefix.SortPrefixes | internal/ctybig/ctybig.go:176-187 | the in-place sort permutes the table into longest-first, then byte order |
| CtyPrefix.RankedInLengthAndAlphabet | internal/ctybig/ctybig.go:176-187 | in the sorted table no prefix stands behind a shorter one, and prefixes of one length stand in alphabetic order |
| CtyPrefix.Db.Find | internal/ctybig/ctybig.go:116-135 | exact entry, else one under the longest matching prefix, else the default |
| CtyPrefix.FirstMatchIsLongest | internal/ctybig/ctybig.go:127-132 | in a sorted table the first match is a longest one |
| CtyPrefix.LongestMatchesShareThePrefix | internal/ctybig/ctybig.go:127-132 | all longest matches are stored under the same prefix |
| CtyPrefix.StripZoneOverrides | internal/ctybig/ctybig.go:191-202 | the loop to the fixpoint terminates |
| CtyPrefix.StrippedHasNoPair | internal/ctybig/ctybig.go:191-220 | no closed pair is left, and a text without one is left alone |
| CtyPrefix.OverridesAreStripped | internal/ctybig/ctybig.go:189-220 | an alias followed by any list of overrides is cleaned to the alias |
| AprsPosition.StationRecord.TryDecodeUncompressed | internal/aprs/parse.go:157-230 | the record after success, and what a refusal leaves untouched |
| AprsPosition.AcceptedIsInRange | internal/aprs/parse.go:207-212 | whatever is accepted lies in the coordinate range, rounding included, and has four decimals |
| AprsPosition.ReportIsDecoded | internal/aprs/client.go:390-432 | a formatted report is accepted with its symbol and at most 1/7500 degree of error per coordinate, minutes of 60.00 and poles included |
| AprsPosition.SentPositionIsHeard | internal/aprs/parse.go:27-111 | the same for the whole packet line, with the symbol that was sent, whatever the other decoders would say |
| AprsPosition.KindsOfPackets | internal/aprs/parse.go:57-106 | which packet kinds hold a plain position and where it begins, the seven characters of a timestamp included |
| AprsPosition.NotEveryLineIsAPosition | internal/aprs/parse.go:30-45 | a line without a colon or an arrow is no position |
| AprsPosition.CommentIsHeard | internal/aprs/parse.go:214-226 | a comment is heard behind its slash and without trailing blanks if and only if the parser takes no course from its beginning, which it does for six characters or more with a slash among the first four |
| AprsPosition.NoCommentComesBackUnchanged | internal/aprs/client.go:428-431 | what is heard is never the very text that was sent |

## Left out

- SQLite itself: busy retries, migrations, query plans, NULLs; a table is a map and an empty text stands for NULL.
- `updated_utc`, the rules-version stamp and the last-remote-sync marker of the worked index.
- Non-ASCII text: case folding, trimming and substrings beyond ASCII. A locator with such characters falls outside the row invariant.
- Row fields that no modelled operation reads travel together in one column.
- LogSteps.StepKeeps: requires rows that satisfy the row invariant; outside it the two forms differ, as shown above.
- WavelogSync: remote edits and deletions (the `not_found` answer), refreshes from the server, two uploads of one contact at once, a request the client gave up that is applied later, `UpdateQSO` and `SetWavelogDirty` on synced rows, `BackfillDXCC` and `NormalizeStationFields`.
- WavelogPayload: the ADIF fallback of an upload, which carries more columns; values of the server's own in the columns no PATCH carries, or where a PATCH cleared one. The server reads a time as its first six digits. The date travels as the log keeps it, and the columns of `report` as one text: the ISO form of a date, the colons of a time, the clamping of negative serials and the rounding of the receive frequency are not modelled.
- LateEnrichment: the database lease a chain holds, which is the subject of `DbHolders`.
- ContestPages.ListContestMerged: takes a non-empty contest, which its callers guarantee (internal/store/queries_qso.go:474-478 and 561).
- ContestPages.ListAll: row ids lie below the cursor's starting value, the largest 64-bit integer.
- Ax25: sockets, serial ports and stop channels; the TCP client's reader is the same loop as the serial one. The error for a missing destination cannot occur, because splitting text never yields nothing.
- HybridListener: what classification decides (TLS or plain) and the deadline that bounds it; classification always ends.
- Locator.FourCharacters: is defined on the coordinate range only.
- AprsPosition: Mic-E, object, item and Base-91 decoders are an input of the dispatch; packet timestamps; number texts with exponents, hexadecimal digits or infinities.
- CtyPrefix: CSV parsing, from the collected prefixes on.
- DbHolders.App.RetireDB: the branch for a holder without users, which the invariant shows to be dead.
- SecretsSave: encryption (the identity), file permissions and locks, marshalling; `Load` errors other than an unreadable file leave the program without a store.
- Floating-point rounding in locators and positions.
- Mode normalisation, version comparison, the event hub, DX-cluster reconnection, rendering, configuration of everything else.
