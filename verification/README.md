# A verified model of the document gateway

The repository is a gateway that serves encrypted document fragments to language-model tools, with a
daemon that ingests the documents. This project models the parts of it that hold state, run
concurrently or do arithmetic, and proves what they promise for every input, every run and every
interleaving. To verify it: `dafny verify dfyconfig.toml`.

## What is modelled

**Ingestion.**

- `FolderCrawl` is one `list_changes` call of the Zoho WorkDrive connector: pop one folder, read all
  its pages, queue the subfolders not seen before, report the files. The remote side is any listing
  with honest paging; each call may fail. `CrawlRuns` follows a whole run, the first or a later
  one, over an unchanging folder graph of any shape, `CrawlWindows` the query windows over any number of
  runs, and `CrawlLife` puts the two together.
- `Sync` is one polling cycle of the daemon over the chunk table and the saved cursor: one list of
  changes, each item downloaded, cut (`Chunker`), encrypted (`Aead`), embedded (`Embedder`) and
  written in one transaction, and then the cursor. Any step may fail and the process may die before
  any item. `SyncTables` says what a finished cycle means for the rows of one item, `SyncRuns` is about
  any number of cycles, and `RunIngestion` joins the crawl and the sync. The claims are per item: they
  need the steps on that item to work and ask nothing of the others.
- `KeyRotation` re-encrypts the chunk table in batches, one transaction each; `RotationRuns` is about
  any number of runs, each cut anywhere.

**Detection and replacement of personal data.**

- `Checksums` and `IbanSplit` are the two mod-97 validators and the errors they detect, `SpacedNumbers`
  the same for numbers written in groups with white space between.
- `BioMerge` turns tagged tokens into spans, `Spans` selects among overlapping spans, `Substitution`
  rebuilds the text.
- `Normalize` decides which detected values count as equal, `Vault` mints their tokens with one SQL
  statement, `VaultRuns` interleaves any number of calls.

**Concurrent and limiting protocols.**

- `TokenCache` is the single-flight OAuth cache as steps of any number of tasks.
- `RateLimiter` is the sliding window per address, `LateReadings` what becomes of it when clock readings
  arrive out of order, `ChunkBudget` the hourly counter with its pruner.
- `Jwt` prints and scans the bearer tokens, over `Base64Url`, `Utf8` and `Decimal`; `JwtRoundTrip`
  proves that the scanner undoes the printer.

Objects that the source updates in place are classes here, and loops are loops; each such method is
proved equal to a function or bound to an old state, and the properties are proved about those.

## How to read the idealisations

- Encryption is any pair of functions for which opening undoes sealing and the key of the other side
  is refused (`Aead.Ideal`). This is asked of the two keys in use only: a 16-byte tag cannot give it
  for all keys at once. `Aead.IdealIsSatisfiable` shows the assumption can be met.
- Embedding vectors are sequences of reals, downloads and text extraction are functions, random IVs
  and row ids are parameters. "The same table" means the same up to row ids and IVs.
- A SQL statement takes effect atomically at its commit. Its own reads see the snapshot taken when it
  started. Rows of the chunk table are kept in insertion order, which no statement looks at.

- A clock is read before the lock or the row it is for is taken, so readings take effect in any order
  across addresses and across callers. Two results ask for more, and it is stated exactly how much: the
  window bound needs the readings of one address in order (`LateReadings.BoundHoldsIffInOrder`), and the
  chunk budget needs no call to be a day late (`ChunkBudget.CapHoldsIffTimely`).

## Where the code and its documentation differ

The model follows the code.

- `ChunkBudgetEnforcer.commitChunks` runs in a transaction of its own that a refusal rolls back, since
  the exception is unchecked: a refused call leaves no trace in the counter. The comment in
  `DocumentSearchTool` speaks of the counter persisting; it does so only for calls that are not refused.
- `vault.rs` says that the loser of a race reads the winner's row. The final read sees the statement's
  own snapshot, so a loser whose snapshot is older gets no row and an error
  (`Vault.RaceLoserGetsNoRow`); it also uses up a number.
- The vault's token text carries no workspace, while the token column is a primary key of its own and
  the counters are per workspace. So a kind belongs to the first workspace that mints one of its
  tokens, and every other workspace is refused for that kind, on every retry
  (`Vault.UncontendedAnswer`, `VaultRuns.SecondWorkspaceNeverServed`). Agreement and injectivity hold
  all the same.
- The token cache subtracts its safety margin twice, when storing and when testing. A token that
  lasts ten minutes or less is never served from the cache (`TokenCache.FreshIffLongLived`).
- The rotation tool reports completion with a batch size of 0 without having rotated anything
  (`RotationRuns.FinishedMeansAllNew` gives the exact condition).
- Section 4.1.4 of RFC 7519 asks that a token not be accepted on or after `exp`; the code accepts at `exp`.
- A swap of a digit with a letter can pass the IBAN check. `Checksums.IbanDetectsSwap` and
  `IbanSplit.IbanSwapAcrossSplit` say exactly when, `IbanSplit.MissedSwap` shows one.
- `DeltaResult.more` is set but no caller reads it: there is one `list_changes` per cycle.
- The cursor advances even when items of the cycle failed, and blank content leaves the old rows in
  place. `SyncRuns.FailedItemStaysStale` and `SyncTables.BlankTextKeepsRows` say so; the claims are conditioned on it, item by item.

## Model

| member | source | states |
|---|---|---|
| FolderCrawl.ListChanges | ingestion/src/connector/zoho.rs:606-715 | however the server cuts its pages, a successful call lists exactly the rest of one folder, or starts the next run on an empty queue; it fails only when a page request fails |
| FolderCrawl.ListFolder | ingestion/src/connector/zoho.rs:643-699 | the page loop ends and reads every entry behind the offset once, whatever the page sizes |
| FolderCrawl.ReadPage | ingestion/src/connector/zoho.rs:652-683 | one page extends the queue, the visited list and the changes consistently |
| CrawlRuns.CrawlStepKeepsInv | ingestion/src/connector/zoho.rs:643-715 | in any run, every successful call keeps: root and visited list are the folders listed followed by those waiting, in order |
| CrawlRuns.CrawlStepKeepsReachable | ingestion/src/connector/zoho.rs:652-664 | nothing is ever queued that the run's window does not make reachable |
| CrawlRuns.CrawlRunInv | ingestion/src/connector/zoho.rs:606-715 | both hold in every state of every run, also after failed calls and repeated first calls |
| CrawlRuns.CrawlCoverage | ingestion/src/connector/zoho.rs:606-715 | when the queue of a run is empty exactly the folders reachable in its window were listed, each non-root once and the root again only if named, and every file entry was emitted once per listing folder |
| CrawlRuns.CrawlTerminates | ingestion/src/connector/zoho.rs:606-715 | in any run listed plus remaining is constant: one successful call each for the root and every named folder, failures stutter, and the queue is empty exactly then |
| CrawlRuns.EmittedIffFile | ingestion/src/connector/zoho.rs:666-682 | a finished run emitted a change with the id, folder, name and deletion mark of each file of each reachable folder, and nothing else |
| CrawlRuns.EmittedIsFile | ingestion/src/connector/zoho.rs:666-682 | at any point of a run, whatever was emitted reports a file of a reachable folder with its own fields |
| CrawlRuns.FilesReportedOnce | ingestion/src/connector/zoho.rs:666-682 | one listing yields one change per file entry, in order, each with the fields of its entry |
| CrawlWindows.TimesOrdered | ingestion/src/connector/zoho.rs:286-300 | watermark is at most the run's start, and that at most the clock, in every reachable state |
| CrawlWindows.WatermarkNeverDecreases | ingestion/src/connector/zoho.rs:620-640 | over any number of runs the watermark and the run's start never go back |
| CrawlWindows.WindowFixedWithinRun | ingestion/src/connector/zoho.rs:620-621 | all calls of a run use the same query window |
| CrawlWindows.NoGapBetweenRuns | ingestion/src/connector/zoho.rs:620-640 | a modification, even stamped 60 000 ms early, lies in every window of the first run that starts at or after it |
| CrawlLife.HistoryIsRun | ingestion/src/connector/zoho.rs:606-715 | from the start of any run in the life to its end, the polls form a run in the sense of the coverage theorem |
| CrawlLife.ModificationIsEmitted | ingestion/src/connector/zoho.rs:606-715 | a file modified at any time is emitted by the first run that starts at or after it, if the window lets the crawl reach its folder |
| CrawlLife.OldFileIsNotEmittedAgain | ingestion/src/connector/zoho.rs:620-640 | a file last stamped more than 60 000 ms before the watermark of a run, in listings that show it only to windows open by then, is not emitted by that run |
| Chunker.Chunk | ingestion/src/chunker.rs:29-34 | the chunks are the non-blank windows, and there are none exactly for a blank text |
| Chunker.ChunkByChars | ingestion/src/chunker.rs:37-59 | the loop ends, never slices out of range, and yields the windows of the closed form |
| Chunker.WindowsAre | ingestion/src/chunker.rs:16-58 | the windows are 2048 characters every 1848, the last one ends with the text, and there are just as many as that takes |
| Chunker.ChunkAt | ingestion/src/chunker.rs:43-53 | every non-blank window is a chunk, at the position behind the non-blank windows before it |
| Chunker.LaterWindowsAreLong | ingestion/src/chunker.rs:16-18 | every window after the first is longer than the overlap |
| Chunker.WindowsReconstructText | ingestion/src/chunker.rs:37-59 | first window plus each later one without its overlap is the text |
| Chunker.CharacterCovered | ingestion/src/chunker.rs:43-53 | every character that is not white space is in an emitted chunk |
| Embedder.SortUndoesReordering | ingestion/src/embed.rs:82-85 | sorting by index restores the batch order from any reordering |
| Embedder.EmbedClient.EmbedBatch | ingestion/src/embed.rs:48-55 | one vector per text in input order, the same for every batch size and every reordering |
| Embedder.EmbedClient.EmbedOneBatch | ingestion/src/embed.rs:57-86 | fails exactly on a failed request or a wrong number of vectors |
| Embedder.EmbedClient.New | ingestion/src/embed.rs:37-43 | the batch size is never 0 |
| Sync.Database.UpsertChunks | ingestion/src/db.rs:29-77 | replaces the item's rows by one row per zipped ciphertext and vector, or changes nothing |
| Sync.Database.DeleteChunks | ingestion/src/db.rs:17-23 | removes exactly the item's rows, or changes nothing |
| Sync.RowsOfIs | ingestion/src/db.rs:17-23 | the rows of an item, and what is left without them, are exactly the rows that name it and those that do not, each as often as in the table |
| Sync.Database.SaveCursor | ingestion/src/state.rs:28-41 | overwrites this connector's cursor and no other |
| Sync.UpsertSteps | ingestion/src/db.rs:51-69 | each new row pairs its own chunk with that chunk's vector, none is lost, and no other item's rows change |
| Sync.EncryptAll | ingestion/src/main.rs:235-245 | every ciphertext opens to its own chunk's bytes |
| Sync.ProcessItem | ingestion/src/main.rs:196-273 | an item is applied exactly as planned or not at all, and for sure when every step works; what that means for the table is in the four rows of `SyncTables` |
| Sync.RunCycle | ingestion/src/main.rs:175-283 | item by item the last write decides; the cursor moves in a cycle that ends and only then; the returned count is that of `CountProcessedIs` |
| Sync.CountProcessedIs | ingestion/src/main.rs:189-280 | the count is the number of changes that are no deletion and took effect |
| SyncTables.LastChangeShows | ingestion/src/main.rs:196-273 | after a cycle that ended, the item has what the last change that names it and brings anything left, whatever blank ones came later |
| SyncTables.DeletedItemIsGone | ingestion/src/main.rs:196-209 | after a cycle that ended, an item whose last change is a deletion that the database carried out has no row in the table |
| SyncTables.TextIsStored | ingestion/src/main.rs:210-273 | an item whose last change brought a text that is not blank, every step working, has one row per chunk in order, with the name, the label, the chunk's own ciphertext and its own vector |
| SyncTables.BlankTextKeepsRows | ingestion/src/main.rs:222-233 | an item for which the list brings only blank texts or failed downloads keeps its rows |
| SyncRuns.LastWriterDecides | ingestion/src/main.rs:196-273 | after a cycle that ended, an item whose steps worked has the rows of its last non-blank change, or its old ones, whatever became of the others |
| SyncRuns.RunsAreCycles | ingestion/src/main.rs:175-283 | what a cycle promises is what the replay theorem asks for, item by item |
| SyncRuns.CrashSafeReplay | ingestion/src/main.rs:189-280 | any number of cycles killed anywhere, items failing, then one that ends and handles this item: the item stands as after one uninterrupted cycle |
| SyncRuns.CursorWaitsForTheEnd | ingestion/src/state.rs:16-41 | derived from the cycle's contract: until a cycle ends, the cursor that the next one loads is the one that was saved |
| SyncRuns.AttemptOverFirstList | ingestion/src/main.rs:185-192 | so every attempt works on the list of that cursor, and the one that ends saves the list's next cursor |
| SyncRuns.CutCyclesThenOneThatEnds | ingestion/src/main.rs:175-283 | from the contracts alone: cut and failed cycles, then one that ends, leave the item's rows and the cursor of one that ends at once |
| SyncRuns.FailedItemStaysStale | ingestion/src/main.rs:213-280 | a failed item keeps its old rows through every later cycle that does not name it |
| RunIngestion.CutKeepsSettled | ingestion/src/main.rs:196-280 | a cut cycle changes only items that the pending list writes |
| RunIngestion.EndedSettles | ingestion/src/main.rs:196-280 | a cycle that ends leaves an item that worked in it as if all lists so far had been applied once, in order |
| RunIngestion.EmittedApplied | ingestion/src/main.rs:146-173 | at every point of a run the item stands as everything emitted so far makes it, unless a pending change is about to write it |
| RunIngestion.RowsAfterRun | ingestion/src/main.rs:146-283 | after any complete run an item that worked has the rows of its last non-blank emitted change, or its old ones |
| RunIngestion.ReachableFileIsIngested | ingestion/src/main.rs:146-283 | after any complete run, through failed calls, cut cycles and other items failing, a reachable file that is not deleted, not blank and whose own steps worked has one row per chunk, each with its own ciphertext and vector |
| RunIngestion.DeletedFileIsGone | ingestion/src/main.rs:146-283 | after any complete run a reachable file that every listing shows as deleted, its own steps working, has no row in the table |
| RunIngestion.UnlistedItemUntouched | ingestion/src/main.rs:146-283 | an item that the run lists nowhere keeps its rows, whatever else fails |
| RunIngestion.CycleIsStep | ingestion/src/main.rs:175-283 | one cycle, as its own contract and that of `list_changes` promise it, is a step of the ingestion, and the saved cursor goes on representing the crawl |
| RunIngestion.CyclesAreIngestion | ingestion/src/main.rs:146-173 | so is any sequence of cycles, from the start of a run until its queue is empty |
| Aead.IdealIsSatisfiable | tools/key-rotation/src/crypto.rs:32-76 | the two-key idealisation can be met exactly when the keys differ |
| Aead.OneShot.Advance | tools/key-rotation/src/crypto.rs:80-99 | a nonce source answers once |
| Aead.Encrypt | tools/key-rotation/src/crypto.rs:32-50 | the wire form is the IV followed by the sealed bytes |
| Aead.DecryptOwn | tools/key-rotation/src/crypto.rs:56-76 | the wire form is 28 bytes longer than the plaintext and decrypts to it |
| Aead.DecryptTakesApart | tools/key-rotation/src/crypto.rs:56-76 | what is shorter than 28 bytes is refused, the rest is opened with its first twelve bytes as IV |
| Aead.DecryptWire | tools/key-rotation/src/crypto.rs:56-76 | it decrypts under its own key and under the other key not at all |
| KeyRotation.Database.CountPending | tools/key-rotation/src/db.rs:16-23 | the number of rows that have content, which is the number that the pages will show |
| KeyRotation.Database.FetchBatch | tools/key-rotation/src/db.rs:25-39 | one page of the rows with content in id order; a negative limit is an error |
| KeyRotation.TargetsStable | tools/key-rotation/src/db.rs:25-39 | rewriting contents moves no row to another page |
| KeyRotation.Transaction.UpdateContent | tools/key-rotation/src/db.rs:46-58 | overwrites one row of the open transaction |
| KeyRotation.Transaction.Commit | tools/key-rotation/src/main.rs:147 | the table changes at commit and not before |
| KeyRotation.RotateBatch | tools/key-rotation/src/main.rs:112-145 | each row is re-encrypted, or skipped because the new key opens it; the counters say which; a batch that is handled has no row that neither key opens |
| KeyRotation.NextBatch | tools/key-rotation/src/main.rs:103-150 | a batch is applied whole or not at all |
| KeyRotation.Rotate | tools/key-rotation/src/main.rs:56-156 | however it ends, whole batches that partition a prefix of the rows were handled and nothing else changed; a run that finishes found every row open under a key, with the exact numbers rotated and skipped; with different keys, no dry run, a batch size of at least 1 and no failing interaction it stops as undecryptable if and only if some row opens under neither key |
| KeyRotation.RotatedCount | tools/key-rotation/src/main.rs:115-145 | the number rotated by a whole run is that of the rows the old key opens |
| RotationRuns.TrialDecryptionIsExact | tools/key-rotation/src/main.rs:113-132 | the old key opens a row exactly when it was sealed under it |
| RotationRuns.RunKeepsPlaintext | tools/key-rotation/src/main.rs:99-150 | every run leaves every row its plaintext and does not touch rows already new |
| RotationRuns.RunsKeepPlaintext | tools/key-rotation/src/main.rs:99-150 | so does any sequence of runs cut anywhere |
| RotationRuns.NeverUndecryptable | tools/key-rotation/src/main.rs:123-129 | rows that hold their plaintext never stop a run |
| RotationRuns.FullPrefixIsComplete | tools/key-rotation/src/main.rs:99-150 | a run that reaches the end leaves every row under the new key |
| RotationRuns.FinishedMeansAllNew | tools/key-rotation/src/main.rs:103-107 | completion was reported truthfully if and only if the batch size was at least 1 or there was nothing to do |
| RotationRuns.NothingLeftToRotate | tools/key-rotation/src/main.rs:115-122 | a run after completion rotates no row |
| RotationRuns.KilledRunsThenFinish | tools/key-rotation/src/main.rs:99-150 | killed runs, then one that finishes: every row has its original plaintext under the new key |
| Checksums.IsValidNir | ingestion/src/sanitize/regex_scan.rs:149-184 | valid exactly when fifteen characters, Corsica's letters replaced, have body plus key divisible by 97 and a key in 1..97 |
| Checksums.StripConcat | ingestion/src/sanitize/regex_scan.rs:150 | white space is dropped piece by piece: stripping a concatenation is concatenating the stripped pieces |
| SpacedNumbers.SpaceDoesNotMatter | ingestion/src/sanitize/regex_scan.rs:149-225 | white space put in anywhere changes neither verdict and not the stripped text |
| SpacedNumbers.SpacedNirDetectsSubstitution | ingestion/src/sanitize/regex_scan.rs:149-184 | in a raw text with white space anywhere, no single substitution within a class passes |
| SpacedNumbers.SpacedNirDetectsSwap | ingestion/src/sanitize/regex_scan.rs:149-184 | nor does a swap of different digits that are neighbours up to white space |
| Checksums.IsValidIban | ingestion/src/sanitize/regex_scan.rs:192-225 | valid exactly when 15 to 34 upper-case letters and digits, rotated and expanded, leave 1 modulo 97 |
| Checksums.StreamRemainder | ingestion/src/sanitize/regex_scan.rs:219-224 | the digit loop is the whole number modulo 97 for every length |
| Checksums.SuffixKeepsDifference | ingestion/src/sanitize/regex_scan.rs:200-224 | a common suffix neither hides nor creates a difference of remainders |
| Checksums.IbanDetectsSubstitution | ingestion/src/sanitize/regex_scan.rs:192-225 | no single substitution within a class passes |
| Checksums.IbanDetectsSwap | ingestion/src/sanitize/regex_scan.rs:192-225 | a swap of different neighbours on one side of the split passes exactly for the pairs 1 and B, 2 and M, 3 and X |
| SpacedNumbers.SpacedIbanDetectsSubstitution | ingestion/src/sanitize/regex_scan.rs:192-225 | in a raw text with white space anywhere, no single substitution within a class passes |
| SpacedNumbers.SpacedIbanSwap | ingestion/src/sanitize/regex_scan.rs:192-225 | exactly which swaps of neighbours up to white space pass, on either side of the split and across it |
| IbanSplit.TenPowerNeverOne | ingestion/src/sanitize/regex_scan.rs:192-225 | no power of 10 up to an IBAN's length is 1 modulo 97 |
| IbanSplit.LeadingCharacter | ingestion/src/sanitize/regex_scan.rs:200-224 | the first character counts with the power of 10 of the digits behind it |
| IbanSplit.IbanDetectsSwapAcrossSplit | ingestion/src/sanitize/regex_scan.rs:204-224 | a swap of different characters of one class across the split never passes |
| IbanSplit.IbanSwapAcrossSplit | ingestion/src/sanitize/regex_scan.rs:204-224 | exactly which swaps across the split pass, digits with letters included |
| IbanSplit.MissedSwap | ingestion/src/sanitize/regex_scan.rs:192-225 | one that does: the last check digit with the first letter of the account |
| Checksums.IbanCheckPairUnique | ingestion/src/sanitize/regex_scan.rs:192-225 | each country and BBAN have exactly one check pair in 02..98 |
| Checksums.NirDetectsSubstitution | ingestion/src/sanitize/regex_scan.rs:149-184 | no single substitution within a class passes, Corsican codes included |
| Checksums.NirDetectsSwap | ingestion/src/sanitize/regex_scan.rs:149-184 | no swap of different neighbouring digits passes, in the body, in the key or across |
| Checksums.NirKeyUnique | ingestion/src/sanitize/regex_scan.rs:172-183 | each body has exactly one key, in 01..97 |
| BioMerge.Merge | ingestion/src/sanitize/ner.rs:121-196 | the one-pass fold yields the spans of the declared runs |
| BioMerge.RunsAreTheMaximalRuns | ingestion/src/sanitize/ner.rs:148-185 | those runs are exactly the maximal ones |
| BioMerge.KindsOfNames | ingestion/src/sanitize/ner.rs:49-56 | which tag names mean which kind, and that no other name means one |
| BioMerge.NeighboursShareSpan | ingestion/src/sanitize/ner.rs:148-185 | two neighbouring tokens are in one span if and only if the second is the inside tag of the kind the first has |
| BioMerge.SpansSortedDisjoint | ingestion/src/sanitize/ner.rs:120-196 | output is sorted, disjoint and without empty spans |
| BioMerge.LabelledTokenInOneSpan | ingestion/src/sanitize/ner.rs:121-196 | a labelled token lies in exactly one span, of its own kind |
| BioMerge.UnlabelledTokenInNoSpan | ingestion/src/sanitize/ner.rs:174-184 | the text of an unlabelled token lies in no span |
| Spans.MergeAndDedup | ingestion/src/sanitize/mod.rs:214-231 | the loop computes the greedy selection of the sorted spans |
| Spans.SelectionDisjoint | ingestion/src/sanitize/mod.rs:214-231 | the selection is sorted, disjoint and drawn from the input |
| Spans.SelectionMaximal | ingestion/src/sanitize/mod.rs:214-231 | every non-empty span meets a kept one that starts no later and is no shorter on a tie |
| Spans.SelectionIsTheKernel | ingestion/src/sanitize/mod.rs:208-231 | the kept ranges are the only disjoint choice that dominates every span |
| Spans.SelectionOrderIndependent | ingestion/src/sanitize/mod.rs:214-231 | the kept ranges do not depend on the order of delivery |
| Spans.FirstDeliveredKindWins | ingestion/src/sanitize/mod.rs:219 | among equal ranges the first delivered gives its kind |
| Substitution.Substitute | ingestion/src/sanitize/mod.rs:237-255 | never slices backwards, skips unusable spans, and is the text with the others replaced |
| Substitution.SpanBecomesToken | ingestion/src/sanitize/mod.rs:237-276 | around any span the output is the rebuilt text before it, the vault's token or the placeholder of its kind, and the rebuilt text behind it |
| Substitution.BoundaryIsBetweenCharacters | ingestion/src/sanitize/mod.rs:246-248 | in the bytes of a text, the places that pass the guard are exactly those between two characters |
| Substitution.RestoreUndoesRebuild | ingestion/src/sanitize/mod.rs:237-255 | putting the raw slices back gives the input exactly |
| Substitution.GuardsNeverTaken | ingestion/src/sanitize/mod.rs:242-248 | in-bounds spans on character boundaries are all used |
| Substitution.Sanitize | ingestion/src/sanitize/mod.rs:185-202 | borrowed exactly when nothing was detected; otherwise every selected span is replaced by the vault's answer for it, and the input can be restored |
| Normalize.NormalizeName | ingestion/src/sanitize/vault.rs:342-361 | the loop yields the words joined by single spaces, in lower case |
| Normalize.NormalizeStrict | ingestion/src/sanitize/vault.rs:363-368 | what is not white space, in lower case; with `Checksums.StripConcat`, wherever the white space stands |
| Normalize.NormalizeValue | ingestion/src/sanitize/vault.rs:335-340 | persons and organisations get their words joined by single spaces, all other kinds their characters that are not white space, in lower case |
| Normalize.WordsOfLaid | ingestion/src/sanitize/vault.rs:342-361 | any words laid out with any gaps of white space are found again, as they are |
| Normalize.EveryTextIsLaid | ingestion/src/sanitize/vault.rs:342-361 | and every text is such a layout of its words |
| Normalize.LowerIsCharwise | ingestion/src/sanitize/vault.rs:342-368 | a text is lower-cased character by character |
| Normalize.SameNameIffSameWords | ingestion/src/sanitize/vault.rs:342-361 | two names normalise alike if and only if they have the same words up to case |
| Normalize.NameFormIdempotent | ingestion/src/sanitize/vault.rs:342-361 | normalising a name again changes nothing |
| Normalize.StrictFormIdempotent | ingestion/src/sanitize/vault.rs:363-368 | nor does normalising any other value again, and no white space is left |
| Vault.TextInjective | ingestion/src/sanitize/vault.rs:270-272 | the token text determines kind and number |
| Vault.TextForm | ingestion/src/sanitize/vault.rs:270-272 | the token text of each of the eight kinds |
| Vault.PiiVault.LookupExisting | ingestion/src/sanitize/vault.rs:306-323 | finds the key's token exactly when there is one |
| Vault.PiiVault.RunStatement | ingestion/src/sanitize/vault.rs:262-289 | the statement's effect on both tables and its answer, against any snapshot |
| Vault.PiiVault.Upsert | ingestion/src/sanitize/vault.rs:245-304 | an undisturbed call returns a token for its key if and only if the key is known or no other workspace holds the kind; otherwise nothing changes |
| Vault.PiiVault.Tokenize | ingestion/src/sanitize/vault.rs:154-164 | an undisturbed call on a raw value: normalised by its kind, hashed per workspace and kind, and served for that key |
| Vault.ExecuteKeepsInv | ingestion/src/sanitize/vault.rs:262-289 | one token per key, numbers below their counters, no token lost |
| Vault.OneWorkspacePerKind | src/main/resources/db/migration/V18__pii_token_tables.sql:24-40 | all tokens of a kind belong to one workspace |
| Vault.UncontendedAnswer | ingestion/src/sanitize/vault.rs:262-289 | exactly when a statement with a current snapshot is refused, and that it then changes nothing |
| Vault.RaceLoserGetsNoRow | ingestion/src/sanitize/vault.rs:273-299 | exactly which racing call gets no row, and that it uses up a number |
| Vault.MintTakesNextNumber | ingestion/src/sanitize/vault.rs:262-289 | a new token takes the next number of its workspace and kind and moves the counter on by one |
| VaultRuns.StepKeepsInv | ingestion/src/sanitize/vault.rs:245-304 | every step of every call keeps the tables sound and every given answer true |
| VaultRuns.SameTokenIffSameKey | ingestion/src/sanitize/vault.rs:245-304 | at any two times, served calls have the same token if and only if they asked for the same key |
| VaultRuns.SameTokenIffSameWords | ingestion/src/sanitize/vault.rs:154-164 | two persons or organisations, tokenised at any times, get the same token if and only if their names have the same words up to case, for a collision-free hash |
| VaultRuns.SameTokenIffSameCharacters | ingestion/src/sanitize/vault.rs:154-164 | two values of any other kind do if and only if they have the same characters up to white space and case |
| VaultRuns.SpacedValueSameToken | ingestion/src/sanitize/vault.rs:363-368 | white space put into such a value anywhere leads to the same token |
| VaultRuns.IssuedBelowCounter | ingestion/src/sanitize/vault.rs:263-269 | every number issued stays strictly below its counter |
| VaultRuns.DeliveredCallFails | ingestion/src/sanitize/vault.rs:245-304 | a delivered call fails if and only if at its commit another workspace holds the kind, or its key was minted between its snapshot and its commit |
| VaultRuns.SecondWorkspaceNeverServed | src/main/resources/db/migration/V18__pii_token_tables.sql:24-40 | two served calls for one kind are of the same workspace, in every run |
| VaultRuns.SecondWorkspaceIsRefused | src/main/resources/db/migration/V18__pii_token_tables.sql:24-40 | the smallest run in which a second workspace is refused |
| TokenCache.FreshIffLongLived | ingestion/src/connector/zoho.rs:228-231 | a token is ever fresh if and only if it lasts more than ten minutes, and it is fresh exactly while it has more than ten minutes left |
| TokenCache.AcceptIff | ingestion/src/connector/zoho.rs:155-245 | exactly which responses bring a token, when it runs out, and which error each of the others is |
| TokenCache.ServedTokenIsValid | ingestion/src/connector/zoho.rs:126-141 | in every interleaving, a token served without a refresh came with an earlier response and has more than ten minutes of its lifetime left |
| TokenCache.ZohoTokenCache.UnderGate | ingestion/src/connector/zoho.rs:136-147 | serves a fresh token without a refresh; otherwise stores a new one or reports the error and keeps the old |
| TokenCache.ZohoTokenCache.RefreshIfNeeded | ingestion/src/connector/zoho.rs:125-148 | the two looks and the refresh in order |
| TokenCache.HeldStepsAreUnderGate | ingestion/src/connector/zoho.rs:136-147 | the steps past the gate are the same code as the method |
| TokenCache.FastStepsAreFastPath | ingestion/src/connector/zoho.rs:126-133 | and the steps before the gate are the fast path |
| TokenCache.StepKeepsInv | ingestion/src/connector/zoho.rs:125-148 | the gate is held by exactly one caller, the one past it, and what that one loaded is still cached |
| TokenCache.SingleFlight | ingestion/src/connector/zoho.rs:133-146 | in every interleaving at most one refresh is in flight |
| TokenCache.RefreshWasNeeded | ingestion/src/connector/zoho.rs:136-144 | a refreshing task saw no fresh token under the gate, and nothing was stored since |
| TokenCache.StoresAreSeparated | ingestion/src/connector/zoho.rs:125-148 | between two stores there is an instant at which the cached token failed the test |
| TokenCache.FreshTokenIsKept | ingestion/src/connector/zoho.rs:125-148 | a token still fresh at the end of the run is never replaced |
| TokenCache.OneCallSuffices | ingestion/src/connector/zoho.rs:125-148 | a token fresh for the whole run costs exactly one successful call |
| RateLimiter.RateLimiterFilter.DoFilter | src/main/java/io/ancoris/mcp/security/RateLimiterFilter.java:58-80 | trims and fills the address's own deque for any reading; for a reading not behind an earlier one of that address the decision is that of the naive log of accepted requests |
| RateLimiter.RateLimiterFilter.Expire | src/main/java/io/ancoris/mcp/security/RateLimiterFilter.java:45-48 | dropping a deque idle for two minutes changes no later decision |
| RateLimiter.AcceptKeepsBound | src/main/java/io/ancoris/mcp/security/RateLimiterFilter.java:65-78 | no closed 60 000 ms interval ever holds more than the limit |
| RateLimiter.SizeIsCount | src/main/java/io/ancoris/mcp/security/RateLimiterFilter.java:66-70 | after eviction the size of the deque is the number accepted in the window |
| RateLimiter.CountInIs | src/main/java/io/ancoris/mcp/security/RateLimiterFilter.java:65-70 | the naive rule counts the positions of the log whose time lies in the closed window |
| RateLimiter.IdleForgets | src/main/java/io/ancoris/mcp/security/RateLimiterFilter.java:45-48 | after two idle minutes the whole log is irrelevant |
| RateLimiter.TrimSummary | src/main/java/io/ancoris/mcp/security/RateLimiterFilter.java:65-70 | the trimmed deque has as many entries as the naive rule counts |
| LateReadings.BoundHoldsIffInOrder | src/main/java/io/ancoris/mcp/security/RateLimiterFilter.java:60-78 | the window bound holds over all readings up to so much late if and only if they are in order or the limit is at most one |
| LateReadings.LateReadingOverfills | src/main/java/io/ancoris/mcp/security/RateLimiterFilter.java:60-78 | one reading a millisecond late and a window that holds one request too many |
| ChunkBudget.SecondsUntilNextHour | src/main/java/io/ancoris/mcp/security/ChunkBudgetEnforcer.java:105-112 | the wait is in 1..3600 and lands less than a second from the next multiple of an hour |
| ChunkBudget.HourStartIsTheHour | src/main/java/io/ancoris/mcp/security/ChunkBudgetEnforcer.java:81-83 | the window of a call starts at a whole hour, at most an hour before its clock reading |
| ChunkBudget.SameHour | src/main/java/io/ancoris/mcp/security/ChunkBudgetEnforcer.java:81-83 | two readings count against one window exactly when they lie in one hour of the clock |
| ChunkBudget.ChunkBudgetEnforcer.CommitChunks | src/main/java/io/ancoris/mcp/security/ChunkBudgetEnforcer.java:74-98 | on any table the counter grows exactly when the new total is within the cap; a refusal leaves the table as it was; counters within the cap stay so |
| ChunkBudget.ChunkBudgetEnforcer.PruneStaleWindows | src/main/java/io/ancoris/mcp/security/RateLimitStatePruner.java:33-39 | removes exactly the windows a day old, never a live one |
| ChunkBudget.UpsertThenDecideIsCommit | src/main/java/io/ancoris/mcp/security/ChunkBudgetEnforcer.java:84-97 | the two steps of a call in the interleavings are the same code as the method |
| ChunkBudget.StepKeepsInv | src/main/java/io/ancoris/mcp/security/ChunkBudgetEnforcer.java:74-98 | every step of every call that is not a day late, and of the pruner, keeps counter, ledger and releases in balance, in whatever order clock readings take effect |
| ChunkBudget.BudgetConserved | src/main/java/io/ancoris/mcp/tools/DocumentSearchTool.java:107-111 | in every state of such a run, from any table, the counter of a window covers what was released in it, stands above the cap only if it started there, and never more than the cap is released |
| ChunkBudget.ClockHourConserved | src/main/java/io/ancoris/mcp/security/ChunkBudgetEnforcer.java:81-97 | by the clock: in no such run do the calls of one key whose readings lie in one clock hour release more than the cap in total |
| ChunkBudget.CapHoldsIffTimely | src/main/java/io/ancoris/mcp/security/ChunkBudgetEnforcer.java:81-97 | the cap holds over all runs with so much lateness if and only if no call counts against a window more than a day old, or nothing is ever granted |
| ChunkBudget.LateCallDoublesTheBudget | src/main/java/io/ancoris/mcp/security/RateLimitStatePruner.java:33-39 | the run in which a call that late is granted a whole second budget of a pruned window |
| Base64Url.DecodeEncode | src/main/java/io/ancoris/mcp/oauth/JwtTokenService.java:66-70 | base64url (section 5 of RFC 4648) decodes what it encodes, and uses its alphabet only |
| Base64Url.SymbolIsInAlphabet | src/main/java/io/ancoris/mcp/oauth/JwtTokenService.java:66-70 | the symbols are those of table 2 of RFC 4648 in their order |
| Base64Url.SextetsValue | src/main/java/io/ancoris/mcp/oauth/JwtTokenService.java:66-70 | three bytes and their four symbols are the same number of 24 bits |
| Base64Url.DecodableIff | src/main/java/io/ancoris/mcp/oauth/JwtTokenService.java:88-94 | the decoder takes exactly symbols whose number is not one more than a multiple of four, with all of their padding or none |
| Utf8.DecodeEncode | src/main/java/io/ancoris/mcp/oauth/JwtTokenService.java:93-94 | a text survives the trip through its bytes |
| Utf8.EncodedValue | src/main/java/io/ancoris/mcp/oauth/JwtTokenService.java:93-94 | the bytes of a character hold its number behind the leading bits of its length class |
| Jwt.ExtractLong | src/main/java/io/ancoris/mcp/oauth/JwtTokenService.java:130-138 | the digit loop reads the longest run of digits behind the first match; empty and too large are errors |
| JwtRoundTrip.StringFieldIff | src/main/java/io/ancoris/mcp/oauth/JwtTokenService.java:122-127 | a value is read if and only if it is quote-free and stands, followed by a quote, right behind the first match of the name |
| JwtRoundTrip.LongFieldIff | src/main/java/io/ancoris/mcp/oauth/JwtTokenService.java:130-138 | a number is read if and only if it is the value, at most 2^63 - 1, of the digits right behind the first match of the name, as many as there are and at least one |
| Jwt.Validate | src/main/java/io/ancoris/mcp/oauth/JwtTokenService.java:78-106 | every failing check gives no claims, in the order of the code |
| JwtRoundTrip.SubFound | src/main/java/io/ancoris/mcp/oauth/JwtTokenService.java:122-127 | the key hash is read back if and only if it has no quote |
| JwtRoundTrip.RoleFound | src/main/java/io/ancoris/mcp/oauth/JwtTokenService.java:122-127 | the role is read back although the search is by first match |
| JwtRoundTrip.ExpFound | src/main/java/io/ancoris/mcp/oauth/JwtTokenService.java:130-138 | the expiry is read back unless it is negative |
| JwtRoundTrip.SplitThree | src/main/java/io/ancoris/mcp/oauth/JwtTokenService.java:82-85 | a compact token (section 7.1 of RFC 7515) splits into its three parts |
| JwtRoundTrip.ValidateIssued | src/main/java/io/ancoris/mcp/oauth/JwtTokenService.java:59-106 | an issued token validates with its claims if and only if the key hash has no quote, the expiry is not negative, and the clock is not past it |
| JwtRoundTrip.IssuedText | src/main/java/io/ancoris/mcp/oauth/JwtTokenService.java:59-70 | an issued token has the fixed header, the payload field by field with an expiry 3600 seconds on, and the keyed hash of the two |
| JwtRoundTrip.AcceptedIsSigned | src/main/java/io/ancoris/mcp/oauth/JwtTokenService.java:78-106 | whatever validates carries the keyed hash of its first two parts, and its claims are read from the second |
| JwtRoundTrip.ValidatesIff | src/main/java/io/ancoris/mcp/oauth/JwtTokenService.java:78-106 | exactly which texts validate with which claims at which time: three dot-free parts, the third the keyed hash of the other two, the second a payload with those claims and an expiry not yet passed |

## Left out

- HTTP, retries, response decoding and temporary files: the remote side is a listing, an answer or an error.
- The Microsoft Graph connector: its paging is the server's own.
- Dishonest paging: a server that reports more and sends nothing keeps the page loop going for ever.
- The JSON form of the cursor, and wrap-around of its 32-bit offset: the cursor is a value that is saved and loaded whole.
- The display calendar of `format_epoch_ms` and the float printing of `format_vector`.
- Text extraction by file name: a function of the bytes and the name.
- `--reembed` in the key rotation: it also rewrites the embedding column.
- Writers beside the key rotation, and beside a polling cycle.
- `parse_key`: hex decoding of the two keys before the run.
- Regex matching and the language model: spans and token labels are arbitrary inputs.
- Unicode NFKC and context-dependent lower case: an arbitrary function, and a map from characters to texts.
- HMAC and SHA-256: an arbitrary function, assumed collision-free where token injectivity on raw values needs it.
- The encrypted original in the token table: it plays no part in which token is returned.
- Row-level security and workspace policies of the database.
- Eviction of rate-limiter entries by cache size, and entries that expire between lookup and lock.
- Digits outside ASCII in a scanned token, and lone surrogates: texts are sequences of Unicode scalar values.
- Malformed UTF-8: each bad byte becomes one replacement character, while the Java decoder may replace several at once.
- `derive_client_secret`, the OAuth forms, filters, aspects, audit logging and metrics.
- Utf8.DecodeEncode: says nothing about malformed input, for the reason above.
