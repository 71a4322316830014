# Shardex: storage, coordination and search helpers

Shardex is a vector search engine with an attached document text storage. This project models its stateful cores in
Dafny and proves what they promise over all inputs, all runs and, where threads are involved, all interleavings.
`dafny verify dfyconfig.toml` checks everything.

## What is modelled

**Document text storage** (`Bytes`, `Utf8`, `TextFormat`, `MappedFile`, `DocumentTextStorage`, specified by
`TextLog`). Two byte files hold the state: aligned `[length][text]` blocks, and fixed-size index entries that are
searched backward. The class `Storage` changes the files and its cached header fields in place; each method is tied to
a function on the files in `TextLog`. On top of it: the log refines a map from documents to texts (`TextLogRuns`), the
recovery scan inverts the writer and is sound on arbitrary bytes (`TextScan`), what a rebuilt index can serve
(`TextRebuild`), what truncation keeps and loses (`TextTruncate`), and extraction of substrings (`TextExtraction`).

**Write coordination over a copy-on-write index** (`WriteCoordinator`, `CowIndex`, `ConcurrentRuns`). A step system of
an active writer, a queue of waiters, notifications in flight, live guards, cancelled waiters, private copies and a
published version. The assumption under which writers exclude each other is part of the step relation (`Gentle`);
`ConcurrentLiveness` says from which states writers can go on at all.

**Transactions** (`Transactions`, `TransactionRuns`). Validate, log, sync, apply, as methods of the coordinator and as
a step system in which a crash may come at any step and unsynced records may or may not survive it.

**Batched concurrent store** (`BatchedWrites`, `BatchedWriteRuns`, `BatchedWriteOrder`). The queue, batches stored
under one write lock by any number of processors, immediate stores, and the cache of text lengths behind the early
range check.

**Search helpers.** The word-packed Bloom filter (`BloomFilters`), the similarity metrics over exact reals
(`Similarity`), the read-ahead buffer (`ReadAhead`, `ReadAheadBuffers`) and the result deduplicator (`Deduplication`,
`ResultDeduplicators`, over `Sorting`).

## Modelling choices

- A document identifier is a number below 2^128; a text is a sequence of bytes that is valid UTF-8; offsets and
  counters are unbounded in the specification. Where the program would leave 64 bits, the methods have a precondition;
  that the entry count fits 32 bits on reopening is the predicate `RunFits`.
- Clock readings, generated identifiers, hash functions, square root and exponential are parameters. Checksums and
  header times read as zero.
- Mapped files are byte arrays; a resize makes a new one that keeps the common prefix.
- The index behind coordination and transactions is abstract, with an apply function that may fail in the transaction
  model. Iteration over hash maps is in arbitrary order.
- In runs, events that cannot happen in a state are skipped, so that theorems quantify over all event sequences.

## Where the code differs from what it says

All but the first, which is a constant of the model, are lemmas, with the exact condition where there is one.

- The index header is documented with 104 bytes (`src/document_text_entry.rs:114`, `src/document_text_storage.rs:22`);
  with `repr(C)` alignment it has 112.
- The rebuild restarts the index at offset 80 instead of 112 (`src/document_text_storage.rs:1264`), so recovered
  entries end up one slot early and the first one is lost. A store after a rebuild that recovered everything makes
  every lookup fail from then on; one after a rebuild that recovered less can read back, through an entry left over.
  With no data to scan the reset is not written, so that reopening undoes it.
- A rejected empty text leaves a zero-length block behind (`src/document_text_storage.rs:264-268`). Rebuilding steps
  over it; truncation stops there and discards the valid texts behind it.
- Truncation reports at most one lost entry, which is right if and only if at most one block is lost. It leaves stale
  index entries: a later text of the same length stored at the cut is what the lost document then reads as. It
  subtracts prefixes and padding from the total text size (`src/document_text_storage.rs:1609-1619`), which is then
  wrong unless nothing is kept.
- Reopening falls back to the default size limit, so that a longer text can no longer be read safely or extracted from.
- A fresh writer can be granted between a notification and the wake-up of the notified waiter
  (`src/concurrent.rs:538-546`); two guards are then live and an update can be lost. A failed `try_lock` in the
  drop handler of the only guard blocks all writers for good, and a cancelled waiter swallows its notification.
- An operation that fails to apply, or a failed sync, leaves a transaction in the log and at most part of it in the
  index (`src/document_transaction_coordinator.rs:182-190`). An empty transaction cannot be committed.
- Stopping the background processor says that it processes the remaining queue
  (`src/concurrent_document_text_storage.rs:220-221`); it processes one batch.
- Putting a document again into a full read-ahead buffer evicts another one without need
  (`src/async_document_text_storage.rs:367-380`).

## Model

| member | source | states |
|---|---|---|
| TextFormat.EntryRoundTrip | src/document_text_entry.rs:146-156 | Decoding the 32 bytes of an entry that validates gives back its document, offset and length. |
| TextFormat.IndexHeaderRoundTrip | src/document_text_entry.rs:118-128 | A written index header is accepted again, whatever follows it, and gives back entry count and next offset; the layout has 112 bytes. |
| TextFormat.DataHeaderRoundTrip | src/document_text_entry.rs:172-182 | The same for the data header with its total text size and next text offset, in 104 bytes. |
| TextFormat.IndexOpensExactly | src/document_text_entry.rs:118-128 | Which bytes make an index file open, the counters it opens with, and the error otherwise: magic, version 1, header size 80, data offset, times in order and not in the future, zero reserved bytes and padding, next offset behind the header. |
| TextFormat.DataOpensExactly | src/document_text_entry.rs:172-182 | The same for the data file. |
| TextFormat.TamperingIsRefused | src/memory.rs:538-586 | One changed byte in magic, version, header size, reserved bytes or padding, and a file that opened does not open again, at any time. |
| TextFormat.OverlapExactly | src/document_text_entry.rs:64-110 | Two non-empty entries overlap if and only if some byte belongs to both and neither ends beyond 64 bits. |
| Utf8.EncodeIsValid | src/document_text_storage.rs:387-392 | Every sequence of Unicode scalar values encodes to bytes that the validity check accepts (section 4 of RFC 3629). |
| Utf8.Decode | src/document_text_storage.rs:387-392 | Conversely, all bytes the check accepts are the encoding of a sequence of scalar values. |
| Utf8.CutAtBoundary | src/document_text_storage.rs:804-815 | Cutting a well-formed text leaves well-formed parts exactly at the positions that `is_char_boundary` accepts. |
| Bytes.MaskIsAlignUp | src/document_text_storage.rs:1484-1487 | The bit mask `(x + 3) & !3` over 64 bits is rounding up to the next multiple of four, computed bit by bit. |
| DocumentTextStorage.Storage.Create | src/document_text_storage.rs:116-169 | The two new files and all cached header fields are those of an empty storage. |
| DocumentTextStorage.Storage.Open | src/document_text_storage.rs:193-222 | Opening accepts or refuses the two files as their headers demand at the given time (magic, version, sizes, times in order and not in the future, zero reserved bytes and padding) and restores the cached fields from them. |
| DocumentTextStorage.Storage.AppendTextData | src/document_text_storage.rs:406-459 | Pads, grows the data file if needed and writes the block in place; returns the aligned offset. The new bytes and headers are exactly those of the specification, and the index file is untouched. |
| DocumentTextStorage.Storage.AppendIndexEntry | src/document_text_storage.rs:472-507 | Grows the index file if needed and writes entry and header in place; the data file is untouched. |
| DocumentTextStorage.Storage.StoreText | src/document_text_storage.rs:252-274 | Size check, block, validation, index entry, in that order: a text rejected by validation has already been written as a block. |
| DocumentTextStorage.Storage.StoreTextSafe | src/document_text_storage.rs:582-602 | As above; a text with a null byte is refused without a change to the files. |
| DocumentTextStorage.Storage.FindLatestDocumentEntry | src/document_text_storage.rs:329-351 | The backward loop finds the entry in the highest slot for the document, and fails at the first invalid or unreadable slot before it. |
| DocumentTextStorage.Storage.ReadTextAtOffset | src/document_text_storage.rs:365-393 | Reads exactly when block and prefix are in the file, the prefix is the expected length and the bytes are UTF-8; otherwise the matching error. |
| DocumentTextStorage.Storage.GetText | src/document_text_storage.rs:306-314 | Search and read combined, with both kinds of error. |
| DocumentTextStorage.Storage.GetTextSafe | src/document_text_storage.rs:637-653 | Search, consistency check, read, and refusal of empty text. |
| DocumentTextStorage.Storage.ExtractTextSubstring | src/document_text_storage.rs:689-711 | Fetches safely, checks range and character boundaries, and slices. |
| DocumentTextStorage.Storage.TryReadTextBlockAtOffset | src/document_text_storage.rs:1422-1478 | Classifies the block at an offset as readable, or empty, oversized, truncated or malformed. |
| DocumentTextStorage.Storage.RebuildIndexFromData | src/document_text_storage.rs:1255-1409 | Resets the index, scans the data file with the offset-advancing loop and appends one entry for each block it reads and validates; the whole new state and the count are those of the specification. |
| DocumentTextStorage.Storage.TruncateToLastValid | src/document_text_storage.rs:1531-1635 | Finds the first unreadable block and cuts the data file behind the block before it; new state, cut point and reported loss are those of the specification. |
| TextLogRuns.RunRepresents | src/document_text_storage.rs:252-507 | Invariant of every run of stores, safe stores, limit changes and reopenings from `create`: blocks are chained and aligned behind the header, entries and accepted blocks agree one to one, both headers are on disk, and both offsets lie within their files. |
| TextLogRuns.LogRefinesMap | src/document_text_storage.rs:252-393 | After any such run a lookup returns the last accepted text of the document, and “not found” for documents without one. |
| TextLogRuns.StoreIsolation | src/document_text_storage.rs:252-314 | An accepted store is what its document then reads as; no other document, and after a rejected store no document at all, reads differently. |
| TextLogRuns.OpenRestores | src/document_text_storage.rs:193-222 | Reopening finds exactly the state that was closed, except that the size limit is the default again. |
| TextLogRuns.GetTextSafeIsLatest | src/document_text_storage.rs:637-653 | On a storage reached by a run the safe read gives the latest text, refuses it when it is over the limit, and finds nothing for a document without one. |
| TextLogRuns.SafeReadIsPlainRead | src/document_text_storage.rs:637-653 | On any files the safe read is the plain read, but for a text over the limit that lies within the data file. |
| TextLogRuns.ReopenKeepsSafeReadExactly | src/document_text_storage.rs:193-222 | A text that could be read safely still can be after reopening if and only if it is within the default limit; otherwise neither the safe read nor any extraction succeeds, while the plain read does. |
| TextLogRuns.AcceptedExactly | src/document_text_storage.rs:252-274 | A store is accepted if and only if the text is non-empty, within both limits, and ends within the maximum file size; what it reports and leaves otherwise. |
| TextLogRuns.SafeStoreExactly | src/document_text_storage.rs:582-602 | A safe store is accepted if and only if in addition no byte is null; a text with one is refused with its own error and nothing changes; otherwise it does what a store does. |
| TextLogRuns.RunCountsText | src/document_text_storage.rs:436-459 | After every run the recorded total text size is the length of all texts written, rejected ones included. |
| TextLogRuns.GrowthBound | src/document_text_storage.rs:418-429 | Over any run the data file is at least as long as its next offset and at most twice that plus 1 MiB, and after r resizes at least 2^r times its first length. |
| TextLogRuns.StoreGrowsExactly | src/document_text_storage.rs:418-487 | A file grows only when what is stored does not fit, and then to 1 MiB (index: 32 KiB) behind it or to twice its length, whichever is more. |
| TextScan.ScannerInvertsWriter | src/document_text_storage.rs:1287-1372 | On a written file whose texts the limit still admits, the scan recovers exactly the offsets and lengths of the indexed texts, in order, blocks of rejected texts notwithstanding. |
| TextScan.RunIsRecovered | src/document_text_storage.rs:1287-1372 | The same for the outcome of every run from `create`. |
| TextScan.RunIsRecoveredExactly | src/document_text_storage.rs:1422-1478 | With limits of at most 100 MiB that condition on the limit is necessary too. |
| TextScan.RecoveryIsSound | src/document_text_storage.rs:1287-1372 | On arbitrary bytes: every recovered entry validates and reads back, offsets strictly increase and no two recovered blocks overlap. |
| TextScan.RecoveryIsComplete | src/document_text_storage.rs:1287-1372 | On arbitrary bytes: a readable block at an aligned offset is recovered, unless it lies in a recovered block, or in one that validation refuses for its size, or behind an offset outside the recovered blocks where a block would overrun the file. |
| TextScan.RecoveredExactly | src/document_text_storage.rs:1287-1372 | With limits of at most 100 MiB and files of at most 1 TB, that is an equivalence: it says of every offset and length whether there is a recovered entry for them. |
| TextScan.DamagedTextIsSteppedOver | src/document_text_storage.rs:1336-1353 | On a written file with one text damaged to invalid UTF-8 (in which nothing at an aligned offset passes for a length within the limit), the scan recovers every other indexed text, before and behind it. |
| TextRebuild.RebuiltSlots | src/document_text_storage.rs:1264-1264 | The reset takes the size of the standard file header (80) for that of the whole header (112): recovered entry j ends up in slot j - 1, and the last counted slot is left over from the old index. |
| TextRebuild.RebuiltLookup | src/document_text_storage.rs:1264-1372 | What a lookup by a recovered identifier returns after a rebuild, whatever the index file held or lacked: the first recovered text is gone, the others read back if the slot behind the written ones holds a valid entry of the old index, and otherwise every lookup fails. |
| TextRebuild.RebuildServesRecoveredExactly | src/document_text_storage.rs:1234-1409 | Hence the rebuilt index serves all it recovered if and only if there was nothing to recover. |
| TextRebuild.RebuildFromLostIndex | src/document_text_storage.rs:1234-1409 | Beside an index file that ends before that slot, as one that was lost and created anew, no recovered text can be looked up. |
| TextRebuild.ReopenAfterRebuild | src/document_text_storage.rs:1255-1409 | What reopening finds after a rebuild of a storage whose headers were on disk: the rebuilt state; a corrupt index if nothing was recovered; the old state if there was no data to scan, since then the reset is not written. |
| TextRebuild.StoreAfterRebuild | src/document_text_storage.rs:1264-1264 | What a text stored after a rebuild reads as, on any storage: if the slot behind the recovered entries holds no valid entry of the old index, every lookup fails; otherwise that entry answers for its own document, and any other stored document reads back if something was recovered. |
| TextRebuild.RunHasBlankTail | src/document_text_storage.rs:472-507 | Every run from `create` leaves no valid entry behind the counted slots. |
| TextRebuild.StoreAfterRebuildExactly | src/document_text_storage.rs:1264-1264 | On a storage reached by a run, a text stored after a rebuild reads back if and only if the rebuild recovered fewer texts than were indexed and the first entry left over is for another document while something was recovered, or leads to the same text. |
| TextRebuild.StoreAfterFullRebuild | src/document_text_storage.rs:1264-1264 | So after a rebuild that could recover everything, one store makes every lookup fail, and it stays so whatever is stored later, and after reopening. |
| TextRebuild.RebuildLosesFirstOnly | src/document_text_storage.rs:1234-1409 | End to end on a storage reached by a run: the scan finds every indexed text, and a lookup by recovered identifier fails for the first one and gives the text for all others. |
| TextRebuild.StoreAfterFirstRebuild | src/document_text_storage.rs:1264-1285 | The smallest instance: create, rebuild, store, and the text cannot be read. |
| TextTruncate.TruncateKeepsLongestChain | src/document_text_storage.rs:1548-1600 | On arbitrary bytes truncation keeps the longest chain of readable blocks behind the header: the kept blocks are one, and every other one is a prefix of them. |
| TextTruncate.TruncateIsIdempotent | src/document_text_storage.rs:1531-1635 | Truncating again returns the same offset and loses nothing. |
| TextTruncate.ReopenAfterTruncate | src/document_text_storage.rs:1602-1635 | Reopening a truncated storage finds exactly its state, apart from the limit; with the limit set back, truncating again loses nothing. |
| TextTruncate.TruncateKeepsReads | src/document_text_storage.rs:1531-1635 | Every text wholly inside the kept part reads the same afterwards, on arbitrary bytes. |
| TextTruncate.TruncateCutsAtFirstUnreadable | src/document_text_storage.rs:1548-1600 | On a written file the cut is exactly at the first block that is empty or over the limit; without one nothing changes. |
| TextTruncate.TruncateKeepsCleanStorage | src/document_text_storage.rs:1531-1635 | After accepted stores only, with the limit not below a stored text, truncation changes nothing. |
| TextTruncate.TruncateReportsExactly | src/document_text_storage.rs:1548-1635 | The number of lost entries it reports is the number of lost blocks if and only if that is at most one. |
| TextTruncate.TruncateCountsExactly | src/document_text_storage.rs:1609-1619 | A truncation that cuts takes prefixes and padding for text: the total text size it records is right if and only if it keeps nothing. |
| TextTruncate.TruncateLosesExactly | src/document_text_storage.rs:1531-1635 | A document whose latest text is block k keeps it if and only if no block up to and including k is empty or over the limit. |
| TextTruncate.EmptyIsRejected | src/document_text_storage.rs:264-268 | Storing an empty text is refused, but a block of length zero has been appended. |
| TextTruncate.TruncateLosesTextAfterEmptyStore | src/document_text_storage.rs:264-268 | So a text stored after a rejected empty one is accepted and reads back, until truncation stops at the empty block and discards it. |
| TextTruncate.TruncateThenStoreAliases | src/document_text_storage.rs:1600-1635 | Truncation leaves the index alone: when it cut at the latest text of a document, a text stored next is what that document reads as if and only if it has the length of the lost one. |
| TextTruncate.StoreAfterTruncateIsolates | src/document_text_storage.rs:1600-1635 | A store after a truncation leaves every other document alone whose latest text is a block with no empty or over-limit one up to it. |
| TextTruncate.StoreAfterTruncateFindsNothing | src/document_text_storage.rs:1600-1635 | And every document that has no text. |
| TextTruncate.LostBehindStaysLost | src/document_text_storage.rs:1600-1635 | A lost text that lay behind the end of the one stored next does not read at all. |
| TextTruncate.LostReadsFromStored | src/document_text_storage.rs:1600-1635 | In general a lost text reads as whatever the stored block, followed by zeros, holds at its place. |
| TextExtraction.ExtractExactly | src/document_text_storage.rs:796-815 | A range is accepted if and only if it is non-empty, in bounds and splits no character; the result is that slice, itself valid UTF-8. |
| TextExtraction.AdjacentExtractionsJoin | src/document_text_storage.rs:689-711 | Two adjacent accepted extractions from a document concatenate to the extraction of the combined range, which is accepted too. |
| WriteCoordinator.Coordination.AcquireOrQueue | src/concurrent.rs:495-531 | Backpressure first, then an immediate grant, then a place at the end of the queue. |
| WriteCoordinator.Coordination.WakeUp | src/concurrent.rs:534-551 | A woken waiter marks itself active whoever is active by then. |
| WriteCoordinator.Coordination.DropGuard | src/concurrent.rs:616-635 | Clears the mark if it is the own one and pops at most one waiter to notify. |
| CowIndex.CowShardexIndex.CloneForWrite | src/cow_index.rs:412-443 | The writer gets a fresh copy of the published contents; the published version is untouched and one more writer is counted. |
| CowIndex.IndexWriter.CommitChanges | src/cow_index.rs:633-661 | Publishes the private copy; the version published before keeps its contents; one commit more and one writer less. |
| CowIndex.IndexWriter.Discard | src/cow_index.rs:667-672 | Gives the copy up and leaves the published index and the commit count alone. |
| ConcurrentRuns.CloneIsIndexOperation | src/cow_index.rs:412-443 | In a run, a clone step changes what is shared as cloning the index does, and the copy has the published contents. |
| ConcurrentRuns.CommitIsIndexOperation | src/cow_index.rs:633-661 | A commit step is a commit of the index, with the private copy. |
| ConcurrentRuns.DiscardIsIndexOperation | src/cow_index.rs:667-672 | A discard step is a discard of the index. |
| ConcurrentRuns.OthersLeaveIndex | src/cow_index.rs:391-443 | No other step, edits of private copies and reads included, changes what is shared. |
| ConcurrentRuns.WaitersAreServedInOrder | src/concurrent.rs:495-557 | In every run, any interleaving and cancellation: waiters are popped in arrival order and each once, a dropped guard pops at most one, the queue respects its bound, and the write count is the number of guards granted. |
| ConcurrentRuns.CancelledIsNeverGranted | src/concurrent.rs:538-575 | In every run a waiter that gives up while it waits or is about to wake up never gets a guard. |
| ConcurrentRuns.SnapshotsNeverChange | src/cow_index.rs:391-443 | In every run a snapshot taken by a reader keeps its contents, whatever writers do afterwards. |
| ConcurrentRuns.ReadersKeepWhatTheyRead | src/cow_index.rs:391-394 | What a reader takes is what is published then, and it keeps these contents whatever happens next. |
| ConcurrentRuns.WritersAreSerialized | src/concurrent.rs:408-557 | In every run without a fresh grant between a notification and its wake-up, at most one guard is live and the published index is all committed edits applied in order, none lost. |
| ConcurrentRuns.GrantKeepsExclusionExactly | src/concurrent.rs:509-523 | A fresh grant in an exclusive state keeps exclusion if and only if no notification is in flight. |
| ConcurrentRuns.WindowGivesTwoGuards | src/concurrent.rs:538-551 | In that window the notified waiter becomes a second live guard. |
| ConcurrentRuns.TwoGuardsLoseAnUpdate | src/concurrent.rs:408-492 | Two guards that cloned the same version: the second commit erases the first. |
| ConcurrentRuns.WindowIsReachable | src/concurrent.rs:538-551 | A run of five steps from the start leads to two live guards, whenever one waiter may queue. |
| ConcurrentRuns.UpdateLossIsReachable | src/concurrent.rs:408-557 | Six more steps commit two edits of which the published index has only the second. |
| ConcurrentLiveness.GrantIsPossibleExactly | src/concurrent.rs:495-635 | From every state that a run reaches, some continuation grants another guard if and only if the queue may hold anything at all and the state is not stuck: marked active by an operation without a guard, with nobody notified, and all waiters that the remaining guards can notify cancelled. |
| ConcurrentLiveness.LostReleaseWedgesExactly | src/concurrent.rs:616-635 | In an exclusive state with a guard, another one can be granted after it is dropped if and only if the `try_lock` of the drop succeeds. |
| ConcurrentRuns.CancelledWaiterSwallowsWakeUp | src/concurrent.rs:628-634 | From an exclusive state, a notification sent to a waiter that was cancelled is lost; the rest of the queue then waits until a fresh acquire comes. |
| ConcurrentRuns.DropWakesExactly | src/concurrent.rs:616-635 | From an exclusive state with a queue, a dropped guard can lead to another grant without a fresh acquire if and only if the waiter at the head has not been cancelled. |
| ConcurrentLiveness.SwallowedWakeUpIsReachable | src/concurrent.rs:538-575 | Five steps from the start a waiter that was not cancelled waits for ever, unless somebody else comes. |
| ConcurrentLiveness.LostReleaseIsReachable | src/concurrent.rs:548-575 | Two steps from the start no continuation grants a guard. |
| Transactions.Coordinator.BeginTransaction | src/document_transaction_coordinator.rs:91-119 | Refuses at the limit without a change, else registers an empty transaction with its start time. |
| Transactions.Coordinator.AddOperation | src/document_transaction_coordinator.rs:122-153 | Appends the operation if and only if it validates and the transaction is active; otherwise nothing changes. |
| Transactions.Coordinator.CheckOperation | src/document_transaction_coordinator.rs:223-251 | Refuses empty texts, empty or overflowing posting ranges, and vectors that are empty or not finite throughout. |
| Transactions.Coordinator.ValidateVector | src/document_transaction_coordinator.rs:455-473 | The loop accepts exactly the non-empty vectors whose components are all finite. |
| Transactions.Coordinator.CommitTransaction | src/document_transaction_coordinator.rs:156-202 | Validates all operations before logging, logs and syncs before applying, applies in order up to the first failure; a failed sync leaves the record and applies nothing; the transaction is gone in every case, and an empty one cannot be committed. |
| Transactions.CommitLogsExactly | src/document_transaction_coordinator.rs:156-202 | A commit logs its transaction if and only if that is active, not empty, fits the log, and the index takes each operation: a text needs text storage and at most the configured size, a vector the configured dimension. Otherwise, or when the sync fails, the index does not change; the transaction is over in every case. |
| Transactions.CommitReportsFirstRefusal | src/document_transaction_coordinator.rs:254-294 | The first operation that the index does not take decides the error: no text storage, text too large, or wrong dimension, with the sizes. |
| Transactions.Coordinator.CleanupExpiredTransactions | src/document_transaction_coordinator.rs:333-351 | Removes exactly the transactions whose age exceeds the timeout; one that starts ahead of the clock never expires. |
| TransactionRuns.WriteAheadSafety | src/document_transaction_coordinator.rs:156-202 | In every run in which syncs succeed and the index applies what it is given, with crashes at any step: the applied operations are a prefix of the logged ones, and outside a commit replaying the log gives the index. |
| TransactionRuns.OnlyValidTransactionsAreLogged | src/document_transaction_coordinator.rs:91-219 | In every run, failures included: no aborted, expired or validation-failed transaction is logged, what is logged is non-empty, logged once, and has no empty text and only postings with a range of 32 bits and a vector of finite components, and the limit on active transactions holds. |
| TransactionRuns.EachTransactionIsInOnePlace | src/document_transaction_coordinator.rs:91-219 | Until a crash, each transaction ever begun is in exactly one place: active, dead, about to be logged, or in the log. |
| TransactionRuns.StaysActiveExactly | src/document_transaction_coordinator.rs:333-351 | In every reached state a step keeps a transaction active if and only if it does not abort or commit it, crash, or clean up after its time; only an added operation that makes sense on its own joins. |
| TransactionRuns.CommitLogsWhatWasAdded | src/document_transaction_coordinator.rs:127-190 | What a commit logs is what was added since the transaction began, in order, if that is not empty and the index takes each of it; otherwise nothing. |
| TransactionRuns.OnlyLoggedReachesIndex | src/document_transaction_coordinator.rs:156-219 | In every run, failures included: every operation that reaches the index, or was given up on the way, belongs to a logged transaction that is neither dead nor active. |
| TransactionRuns.AcknowledgedIsDurable | src/document_transaction_coordinator.rs:176-202 | The record of an acknowledged commit is in the log, at its place, after whatever happens next, crashes included. |
| TransactionRuns.CrashLeavesDurableLog | src/document_transaction_coordinator.rs:156-202 | What a crash leaves of the log stays there, whatever happens next, and the index is what replaying it gives. |
| TransactionRuns.AppliedIsLogExactly | src/document_transaction_coordinator.rs:182-190 | In every run, failures and crashes included: outside a commit the applied operations are the whole log if and only if none was given up since the last crash. |
| TransactionRuns.AppliedUnlessFailedExactly | src/document_transaction_coordinator.rs:182-190 | From the start or a crash up to the next crash, the applied operations and those of the running commit still to come are the whole log if and only if no apply and no sync failed. |
| TransactionRuns.FailureLeavesGap | src/document_transaction_coordinator.rs:182-190 | After a failed apply or sync the index lacks logged operations, whatever happens next, until a crash rebuilds it from the log. |
| TransactionRuns.GapBreaksPrefixExactly | src/document_transaction_coordinator.rs:187-190 | In every run, the first operation applied after others were given up keeps the applied ones a prefix of the log if and only if it equals the first one given up. |
| TransactionRuns.CommitIsARun | src/document_transaction_coordinator.rs:156-202 | A commit with any outcome is a run of steps: take, log, sync, apply the operations up to the first that fails, acknowledge; it reports success if and only if it is acknowledged. |
| BatchedWrites.ConcurrentStorage.StoreTextBatched | src/concurrent_document_text_storage.rs:275-314 | Queues the write and, if the queue is then full, carries out one batch. |
| BatchedWrites.ConcurrentStorage.ProcessWriteBatch | src/concurrent_document_text_storage.rs:414-475 | Takes the first writes of the queue up to the batch size, stores them in order, updates and cleans the cache after each accepted one, and reports each result; the rest of the queue stays. |
| BatchedWrites.ConcurrentStorage.CleanupMetadataCache | src/concurrent_document_text_storage.rs:512-531 | Leaves exactly the target number of entries, unchanged, and every removed entry was accessed no later than every kept one. |
| BatchedWrites.ConcurrentStorage.StoreTextImmediate | src/concurrent_document_text_storage.rs:318-346 | One store under the lock; an accepted one enters the cache, without a clean-up. |
| BatchedWrites.ConcurrentStorage.GetText | src/concurrent_document_text_storage.rs:228-272 | Reads through and refreshes the access time of a cached document. |
| BatchedWrites.ConcurrentStorage.ExtractTextSubstring | src/concurrent_document_text_storage.rs:349-385 | Refuses early a range behind the cached length, else extracts. |
| BatchedWriteRuns.EachWriteIsInOnePlace | src/concurrent_document_text_storage.rs:275-346 | In every run with any number of processors, each write taken on is in exactly one place: the queue, one batch in flight, or among those that got their one result. |
| BatchedWriteRuns.EveryWriteCanComplete | src/concurrent_document_text_storage.rs:388-475 | From every state that a run reaches, some continuation gives every write taken on its result. |
| BatchedWriteRuns.BatchesAreNeverInterleaved | src/concurrent_document_text_storage.rs:414-475 | In every run the queue is split in order into batches of at most the configured size, and the storage history is lock holds one after another, each a whole such batch or one immediate write; each write reports what it did at its place in that history. |
| BatchedWriteOrder.QueueOrderExactly | src/concurrent_document_text_storage.rs:414-475 | In every run, what has been stored from the queue is a prefix of what was queued if and only if the batches begun are the oldest ones in order; once the lock holder has stored something, if and only if each processor that got the lock had the oldest batch not yet held. |
| BatchedWriteOrder.SoleProcessorKeepsOrder | src/concurrent_document_text_storage.rs:275-314 | In particular with one batch in flight at a time. |
| BatchedWriteOrder.ProcessorsCanReorder | src/concurrent_document_text_storage.rs:388-411 | With batches of any size, six steps from the start store a later write before an earlier one. |
| BatchedWriteRuns.FlushEmptiesExactly | src/concurrent_document_text_storage.rs:533-536 | A flush empties the queue if and only if it holds no more than one batch. |
| BatchedWriteRuns.FlushStrandsTheRest | src/concurrent_document_text_storage.rs:210-225 | After the flush that stops the background processor, writes behind that batch stay queued without a result as long as nobody takes another batch. |
| BatchedWriteRuns.CacheMirrorsStorage | src/concurrent_document_text_storage.rs:446-474 | In every run around a reachable storage, each cached length is that of the text the storage returns, up to the one write whose cache update is pending under the lock. |
| BatchedWriteRuns.CacheChangesExactly | src/concurrent_document_text_storage.rs:446-474 | How each step changes the cache: an accepted write is cached; a batch processor that makes it exceed its size leaves half of that size, none of it accessed earlier than what goes. |
| BatchedWriteRuns.CacheIsBounded | src/concurrent_document_text_storage.rs:318-346 | In every run the cache exceeds its size by at most one entry for each immediate write, which does not clean it up. |
| BatchedWriteRuns.EarlyCheckExactly | src/concurrent_document_text_storage.rs:363-381 | While no writer holds the lock, the early check of a cached document refuses a range if and only if it ends behind the stored text. |
| BatchedWriteRuns.LastAcceptedIsRead | src/concurrent_document_text_storage.rs:414-475 | In every run the last accepted write of a document, batched or immediate, is what it reads as. |
| BatchedWriteRuns.EarlyCheckRefusesOnlyBadRanges | src/concurrent_document_text_storage.rs:363-381 | So while no writer holds the lock, a range refused early is one that the storage refuses as well; while one does, at most the text just stored for that document could admit it. |
| BloomFilters.BloomFilter.Insert | src/bloom_filter.rs:190-202 | Sets in place the bit of every hash of the document and counts the insertion. |
| BloomFilters.BloomFilter.Contains | src/bloom_filter.rs:208-222 | Finds the document exactly if all its bits are set. |
| BloomFilters.BloomFilter.Merge | src/bloom_filter.rs:235-259 | Fails without a change exactly when size or number of hashes differ, else joins the words and adds the counts. |
| BloomFilters.BloomFilter.Clear | src/bloom_filter.rs:264-269 | All words and the count become zero. |
| BloomFilters.BloomFilter.CountSetBits | src/bloom_filter.rs:389-394 | The sum over the words is the size of the set of positions they stand for. |
| BloomFilters.SetBitAdds | src/bloom_filter.rs:193-199 | Setting a bit in its word adds that one position to the set the words stand for. |
| BloomFilters.OrUnites | src/bloom_filter.rs:250-253 | Joining word by word is the union of the sets of positions. |
| BloomFilters.MergeIsConcatenation | src/bloom_filter.rs:250-256 | Merging the filters of two sequences gives the words and count of inserting one sequence after the other. |
| BloomFilters.HistoryIsItsLiveDocuments | src/bloom_filter.rs:190-269 | After any history of inserts, merges (of filters with histories of their own) and clears, words and count are those of inserting the live documents. |
| BloomFilters.LookupExactly | src/bloom_filter.rs:208-222 | After any history a lookup succeeds if and only if each hash of the document falls on the position of some hash of some live document. |
| BloomFilters.NoFalseNegatives | src/bloom_filter.rs:186-222 | After any history no live document is missed. |
| BloomFilters.BitCountBounds | src/bloom_filter.rs:389-394 | After any history no bit at or above the size is set, the number of set bits is at most the size and at most hashes times insertions, and there are as many words as the size needs. |
| Similarity.CauchySchwarz | src/distance.rs:88-102 | The inequality for vectors of any length. |
| Similarity.CosineClampIsNoOp | src/distance.rs:97-98 | For non-zero vectors the quotient lies in [-1, 1] and the clamp changes nothing. |
| Similarity.CosineExtremes | src/distance.rs:88-102 | For non-zero vectors the score is 1 exactly for positive multiples, 0 exactly for negative multiples, 0.5 exactly for orthogonal vectors. |
| Similarity.CosineOfSelf | src/distance.rs:31-57 | A non-zero vector scores 1 with itself and 0 with its negation. |
| Similarity.CosineIgnoresLength | src/distance.rs:88-102 | Scaling by a positive factor does not change the score. |
| Similarity.EuclideanExtremes | src/distance.rs:110-124 | The score is symmetric, lies in (0, 1], and is 1 exactly for equal vectors. |
| Similarity.EuclideanRanksByDistance | src/distance.rs:110-124 | A score is lower exactly when the distance is larger. |
| Similarity.DotProductComplement | src/distance.rs:133-139 | The score lies strictly between 0 and 1; the scores of a vector and of its negation add up to 1. |
| Similarity.ScoreIsNormalized | src/distance.rs:31-57 | A score exists exactly for equal lengths, lies in [0, 1], and the final clamp never changes it; empty vectors score one half. |
| Similarity.ScoreIsSymmetric | src/distance.rs:31-57 | Under every metric the two vectors may be exchanged. |
| Similarity.DotConcat | src/distance.rs:88-89 | The dot product of concatenations is the sum of the dot products (and that of single components their product), which determines it. |
| Similarity.CosineScores | src/distance.rs:88-102 | The cosine score is 1, 0 and one half exactly for positive multiples, negative multiples and orthogonal vectors when neither vector is zero, and one half when one is. |
| Similarity.CosineScoreExactly | src/distance.rs:88-102 | In between it is half of one plus the dot product by both lengths. |
| Similarity.EuclideanScores | src/distance.rs:110-124 | The Euclidean score is 1 exactly for equal vectors, and of two vectors the closer one scores higher. |
| Similarity.EuclideanScoreExactly | src/distance.rs:110-124 | It is one by one plus the distance. |
| Similarity.DotProductScores | src/distance.rs:133-139 | With an increasing exponential, the dot-product score is above one half exactly for a positive dot product; negating a vector gives the complement. |
| Similarity.DotProductRanks | src/distance.rs:133-139 | Of two vectors the one with the larger dot product scores higher. |
| Similarity.DotProductScoreExactly | src/distance.rs:133-139 | It is the logistic function of the dot product. |
| ReadAheadBuffers.ReadAheadBuffer.Get | src/async_document_text_storage.rs:347-364 | A hit moves the document to the end of the order and counts; an expired entry is removed from map and order. |
| ReadAheadBuffers.ReadAheadBuffer.Put | src/async_document_text_storage.rs:366-386 | The evicting loop removes the front of the order until there is room, then the entry is added at the end. |
| ReadAheadBuffers.ReadAheadBuffer.CleanupExpired | src/async_document_text_storage.rs:388-406 | Removes exactly the expired documents from map and order and returns how many. |
| ReadAhead.RunKeepsInv | src/async_document_text_storage.rs:347-406 | In every reachable state the order lists exactly the buffered documents, each once and from least to most recently used, the size is within the bound, and each text is the last one put. |
| ReadAhead.HitIsLastPut | src/async_document_text_storage.rs:347-364 | A hit returns the last text put for the document and is never expired. |
| ReadAhead.HitExactly | src/async_document_text_storage.rs:347-364 | A reached buffer serves exactly the texts it holds that are not older than the time to live, and counts each hit. |
| ReadAhead.BufferedExactly | src/async_document_text_storage.rs:347-406 | What an operation leaves in the buffer: a text goes if and only if the buffer is cleared, it is found to have expired, or it is the least recently used one as another is put into a full buffer. |
| ReadAhead.TextStaysBuffered | src/async_document_text_storage.rs:366-386 | A text that was put is read back until it expires, as long as at least two fewer other documents are used after it than the buffer holds. |
| ReadAhead.PutEvictsLeastRecentlyUsed | src/async_document_text_storage.rs:366-386 | Put makes the document readable, keeps all other entries it does not evict as they are, and evicts only documents used less recently than every other one it keeps. |
| ReadAhead.PutEvictsExactly | src/async_document_text_storage.rs:366-386 | Put evicts one document if the buffer is full with more than that document alone, and otherwise none. |
| ReadAhead.PutAgainEvictsAnother | src/async_document_text_storage.rs:367-380 | Putting a buffered document again evicts another one if and only if the buffer is full and holds more than one. |
| ResultDeduplicators.ResultDeduplicator.Deduplicate | src/deduplication.rs:191-205 | Output, seen sets and statistics after one call under each policy. |
| ResultDeduplicators.ResultDeduplicator.DeduplicateByDocumentId | src/deduplication.rs:208-237 | One result per document, the best one, sorted by descending score, whatever the order of the map. |
| ResultDeduplicators.ResultDeduplicator.KeepUnseen | src/deduplication.rs:240-275 | The loop keeps exactly the results whose keys are new and adds all keys to the seen set. |
| Deduplication.PositionsNeverRepeat | src/deduplication.rs:240-260 | Over a whole series of calls no (document, start) pair is returned twice, and what is returned is the first result for each pair among all inputs. |
| Deduplication.FingerprintsNeverRepeat | src/deduplication.rs:263-283 | The same over a series of exact calls for fingerprints. |
| Deduplication.CallsReturnTheirShare | src/deduplication.rs:240-283 | Each call of such a series returns, of its input, what no earlier call has seen. |
| Deduplication.CallReturnsBestFirst | src/deduplication.rs:229-234 | Under all three policies that sort, no result is returned behind one with a lower score. |
| Deduplication.EqualScoresKeepInputOrder | src/deduplication.rs:252-257 | Under the two policies that remember what they have seen, results with equal scores are the first of their keys, in input order. |
| Deduplication.ExactLosesNothingExactly | src/deduplication.rs:263-306 | Over a series of exact calls every document, start, length and quantised vector of the inputs is represented in the outputs if and only if the hash does not collide on the inputs; then the outputs are the first result for each. |
| Deduplication.ExactDropsOnlyNearDuplicates | src/deduplication.rs:285-306 | Without a collision, for every input one result with the same document, start and length is returned whose vector differs by less than a millionth in each component. |
| Deduplication.MillionthsAreExact | src/deduplication.rs:298-303 | Components that are whole millionths are told apart. |
| Deduplication.DocumentsKeepTheirBest | src/deduplication.rs:208-237 | A by-document call returns one result for each document of its input, the first of the highest-scoring ones. |
| Deduplication.ProcessedIsUniquePlusRemoved | src/deduplication.rs:133-139 | Over any series of calls under any policy processed is unique plus removed, and both are exact; without a policy everything is returned as it came. |
| Sorting.SortByIsStableSort | src/deduplication.rs:229-234 | Sorting gives an ascending permutation that keeps the order of equal keys. |

## Left out

- TextScan.RunIsRecoveredExactly: the necessary direction is stated for data files of at most 1 TB, the largest offset an entry may name; the sufficient direction (TextScan.RunIsRecovered) has no such bound.
- DocumentTextStorage.Storage.StoreText: the disk-space check of the safe variant and the checksum update are I/O and are not part of this model.
- TransactionRuns.WriteAheadSafety: assumes that syncs succeed and the index applies what it is given; TransactionRuns.AppliedIsLogExactly says when the conclusion holds otherwise.
- ConcurrentRuns.WritersAreSerialized: assumes that no fresh grant comes between a notification and its wake-up; ConcurrentRuns.GrantKeepsExclusionExactly shows that the assumption is needed.
- BatchedWrites.ConcurrentStorage.StoreTextBatched: the concurrency limit and the client's timeout are not modelled; a client that gives up does not change what happens to its write.
- BloomFilters.BloomFilter.Insert: size and number of hashes are given at construction, at least one each; the floating-point formulas that choose them are left out.
- Similarity.ScoreIsNormalized: exact reals, so rounding, overflow and NaN do not occur.
- ResultDeduplicators.ResultDeduplicator.Deduplicate: scores are reals, so the NaN branch of the comparison is left out, as is the efficiency ratio; quantised components are unbounded integers.
- Memory mapping, fsync, directories, CRC checksums, timestamps, logging and metric counters: I/O or foreign calls. `verify_checksums` recomputes the sums before it checks them.
- `scan_and_rebuild_index` and `reload_from_files`: thin wrappers around the rebuild and around opening.
- The posting index, the log segment and log replay internals: abstract; `deep_clone` of the index drops its text storage, which an abstract index cannot show.
- `LazyIndexWriter`: its commit republishes a clone of the original index.
- Access-pattern prediction and the rest of the asynchronous wrapper: timers and background tasks; prefetching bypasses the buffer, so it need not agree with the storage.
- Configuration, error texts, identifiers, backups and examples: easy members or string formatting.
