# Beacon chain explorer: its ordered-key index and its catch-up loops, in Dafny

The explorer keeps what it knows in two places, and this project models how it fills and reads both.

**The index.** Bigtable is one sorted map from byte strings to versioned cells. The explorer writes
numbers into row keys reversed and zero-padded, so that an ascending scan meets the newest entry
first; it explodes every block into data rows and secondary index rows, cuts pages at `token + 0x00`
and at a prefix successor, and stores duties with a timestamp that makes the earliest inclusion the
newest cell. `Bytes`, `Decimal`, `Words` and `KeyCodec` hold the byte order, the renderings and the
64-bit arithmetic; `Bigtable` and `ColumnScan` hold the table as a class, the batched writer and the filtered
scans. On top of them:

- `TxIndex`, `AddressHistory`, `AddressPages`: indexing transactions, and following page tokens through
  the history of an address. The collected pages are compared with a plain newest-first walk over the
  indexed blocks.
- `BlockLifecycle`, `BlockStore`: saving a block, the recorded key list of its rows, the keys of all transforms, and
  taking the block back after a reorganisation, in any interleaving with indexing.
- `AttestationCells`, `DutyWindow`, `DutyLog`, `AttestationHistory`, `DutyHistory`: the two writers of
  attestation duties, any run of them with failures and retries, and the reader. The list that is read
  back is compared with one defined on the calls alone.
- `BalanceCells`, `BalanceSeries`, `BalanceStatistics`, `BalanceLog`: balances per epoch, written in
  batches, read as a series and as statistics, compared with a ledger of what was saved last.

**The catch-up loops.** Each exporter is a state machine that must not leave a gap, whatever the node, the
relay, the database and restarts do. The environment of a step (replies, failures, the head) is a parameter
that takes every value; a transaction that fails leaves the state untouched.

- `RelayPaging`, `RelaySync`, `RelayLimits`: cursor paging through a relay's delivered payloads, while the relay
  and the known blocks change between any two exports, phases, requests and inserts.
- `PivotSearch`: the search for the execution block of a point in time.
- `DepositExporter`: the block ranges asked of the deposit contract, in wrapping 64-bit words.
- `BlockDiff`, `FullCheck`: which epochs a full check queues, the blacklist, and convergence.
- `EthStore`: the count shortcut and the day-by-day export.
- `CanonicalMarking`: demoting a range of blocks and promoting the canonical ones.
- `SlotGrid`, `ClaimStatus`: the slot grid of the last epochs, and the reward intervals by claim bitmap.

Code that changes state is a class or a method with loops, proved against functions and predicates; the
lemmas are about those. What an operation leaves or returns is said a second time in the terms of a caller: key
texts, raw fields of a block, entries of a request, numbers of the source, without the functions its code shares
with its specification (`TxIndex.SaysTx`, `DutyHistory.TellsAll`, `BlockStore.HoldsBlocks`, `BalanceCells.TableSays`,
`RelayPaging.CommitsExactly`, `DepositExporter.TakesOver`, `SlotGrid.TellsGrid` and their like). Where a loop ranges over a Go map, the model takes the keys in any order.

## What the code does and does not do

Properties one might expect, and the exact condition under which the code has them:

- Number 0 is one digit wider than all others. Order reversal holds on 1..10^9; number 0 sorts before
  every number below 900000000 (`KeyCodec.ReversedPaddedOrder`), and transaction 0 of a block is met right
  before transaction 8999 instead of last (`KeyCodec.ReversedIndexOrder`). The page listing says so.
- `WriteBulk` returns the call's error instead of the row's inside its loop of full batches. It reports
  success with rows missing exactly when the first batch that is not clean is a full one whose call went
  through (`Bigtable.SilentLossExact`).
- A duty or balance window that touches epoch 0 (`limit >= startEpoch >= 1`) is empty, not shorter
  (`DutyWindow.WindowFaithful`). For the same reason balance statistics of a span that starts at epoch 0 or
  1, which the first day does, are empty unless it is epoch 0 alone (`BalanceStatistics.StatisticsMean`).
- The effective minimum and maximum of the statistics are computed from the balance; `Extremal` in
  `BalanceStatistics` says what they contain instead.
- The branches that overwrite the last history entry of a slot, and that compare two block roots under one
  key, are dead (`AttestationHistory.EntryAppended`, `BlockDiff.SameKeySameRoot`).
- The pivot search asks for a block below genesis exactly for targets before the time of one block near
  genesis, whose number a caller can compute from the head's number (`PivotSearch.FallsExactly`).
- A relay payload that becomes visible eleven slots late can be lost for good, ten slots are safe, measured against
  the newest row of the table and of the retrieval in flight (`RelayLimits.LatenessExactly`). Measured against the
  table alone nothing is safe: between two requests a payload can appear that is newer than every stored row and is
  left behind all the same (`RelayLimits.StoredRowsAreNoMeasure`). A JSON null for a cursor after the first page
  commits what was read so far; whether that can leave a hole shows in the ends of the table
  (`RelayLimits.NullExactly`).
- A balance history lists every reading of a validator as often as the request names it, since the column
  filters are interleaved without a limit of one cell (`BalanceSeries.SeriesExactly`).
- Deleting a block also deletes a row that something else wrote under one of its keys (`BlockLifecycle.BlockUndone`),
  such as the data row of a transaction that another block includes too (`BlockLifecycle.SharedTransaction`).
- The deposit loop never asks for block 0, so a run has no gap from the start exactly when the configured
  first block is positive (`DepositExporter.FreshStart`). Its look-back takes effect only when the next
  block has already been mined; at the head the range is inverted and fetches nothing
  (`DepositExporter.ChooseRange`).
- Full checks do not fill the epochs below the first stored one while the genesis export fails, or while the
  head's export fails and the head is newer than all stored epochs, except as far as the block comparison or a
  late background save reaches below it (`FullCheck.StuckExactly`, `FullCheck.StuckExample`).
- One ETH.STORE day that cannot be exported blocks all older missing days (`EthStore.Exporter.Pass`).
- A canonical marking leaves a trace in a later one exactly when it promoted an undecided row the later one
  does not call canonical (`CanonicalMarking.LaterMarkingWins`).

## Model

| member | source | states |
|---|---|---|
| `KeyCodec.ReversedOrderExact` | db/bigtable_eth1.go:535-553 | for any power of ten, larger reversed numbers sort first, if and only if the smaller one is not 0 or the larger one is within a tenth of the maximum |
| `KeyCodec.ReversedPaddedOrder` | db/bigtable_eth1.go:535-537 | block, epoch and slot numbers are strictly order-reversing on 1..10^9; number 0 breaks this exactly below 900000000 |
| `KeyCodec.GenesisOutOfOrder` | db/bigtable.go:891-897 | epoch 0 sorts before epoch 1 |
| `KeyCodec.PadInjectiveReversed` | db/bigtable.go:891-897 | no two 64-bit numbers share a rendering, with 0 and wrapped values included |
| `KeyCodec.ReversedPaddedRoundTrip` | db/bigtable_eth1.go:191-198 | parsing a rendered number and subtracting it from the maximum recovers it |
| `KeyCodec.ReversedTimestampOrder` | db/bigtable_eth1.go:539-544 | timestamps are nineteen digits, injective and order-reversing on the whole non-negative int64 range |
| `KeyCodec.ReversedIndexOrder` | db/bigtable_eth1.go:546-553 | for every power of ten as the maximum, the exact order and injectivity of indexes, index 0 and the maximum itself included |
| `KeyCodec.RenderingsSay` | db/bigtable_eth1.go:535-553 | the renderings are decimal texts of the distance to 10^9 on nine columns, to the last int64 on nineteen and to 10000 on four, with zeros ahead only as filling |
| `KeyCodec.WrappedSays` | db/bigtable_eth1.go:535-537 | a number above 10^9 renders as the wrapped difference in full |
| `Decimal.HexDigitsOf` | db/bigtable_eth1.go:896-896 | two lower-case hexadecimal digits for each byte, the high half first |
| `KeyCodec.SuccessorExact` | db/bigtable_eth1.go:3236-3253 | a string lies between a prefix and its successor if and only if it starts with the prefix, also for prefixes of 0xff bytes only |
| `KeyCodec.PrefixSuccessor` | db/bigtable_eth1.go:3236-3253 | the loop computes the least string above every extension of the truncated prefix |
| `KeyCodec.NextPageRange` | db/bigtable_eth1.go:1620-1633 | the range of the next page is exactly what lies beyond the token inside the prefix: pages neither overlap nor skip |
| `Bytes.ZeroByteIsNext` | db/bigtable_eth1.go:1620-1621 | nothing lies between a key and that key followed by a zero byte |
| `Bytes.SplitJoinExactly` | db/bigtable_eth1.go:3047-3047 | splitting a joined list gives the list back if and only if it is not empty and no part holds the separator |
| `Bigtable.Table.ApplyBulk` | db/bigtable_eth1.go:575-581 | one bulk call applies, in order, the entries that are not lost, and tells a failed call from lost rows |
| `Bigtable.Table.WriteBulk` | db/bigtable_eth1.go:559-609 | which writes reach the table and what is reported, for every pattern of failed calls and lost rows |
| `Bigtable.BulkMeans` | db/bigtable_eth1.go:559-609 | entry by entry: an entry reaches the table if and only if it is not lost and all batches of 10000 before its own are clean, in the given order; an error is reported if and only if the first unclean batch failed as a call or is the incomplete one |
| `Bigtable.SilentLossExact` | db/bigtable_eth1.go:575-587 | success is reported with writes missing if and only if the first unclean batch is full and its call did not fail; with no unclean batch all writes are applied |
| `Bigtable.SilentLossExample` | db/bigtable_eth1.go:575-581 | 10001 writes, one row lost in the first batch: success, and 9999 writes in the table |
| `TxIndex.TransformTx` | db/bigtable_eth1.go:870-963 | the emitted keys and mutations are, in order, the data row and the eight to twelve index rows of each transaction, said as key texts and as values on the raw fields of transaction and block; the two error conditions exactly |
| `TxIndex.TxWritesSay` | db/bigtable_eth1.go:880-957 | the writes of one transaction on its raw fields: a data row with hash, number, time, method, sender, recipient (the contract address unless it is zero), value, fee as price times gas, price, both flags and error, and the texts of all index keys |
| `TxIndex.BigEndianNumber` | db/bigtable_eth1.go:897-897 | the gas price is read as a big-endian number: each byte counts by its place |
| `TxIndex.TimeRowsOfTx` | db/bigtable_eth1.go:926-957 | a row written for a transaction lies in an address's time range if and only if that address is its sender or effective recipient, and then it is the index row of that moment |
| `TxIndex.TimeKeyOrder` | db/bigtable_eth1.go:928-928 | time index keys sort newest second first, then by the index order within the block |
| `AddressHistory.ListingMembers` | db/bigtable_eth1.go:880-885 | the reference listing holds exactly the transactions an address sent or received, on the raw fields: as sender, or as the created contract, or as the recipient of a call; self-transfers once |
| `AddressHistory.ListingOrdered` | db/bigtable_eth1.go:928-932 | the reference listing is strictly ordered, newest block first |
| `AddressHistory.TimeRange` | db/bigtable_eth1.go:926-957 | after any history that indexes the blocks, in any order and number of times and mixed with other indexers, the time range of an address holds exactly the rows of its listing |
| `AddressHistory.DataRow` | db/bigtable_eth1.go:918-924 | the data row of every indexed transaction is there, under the text of its hash, and every field of what it holds is that of the transaction and its block |
| `AddressPages.GetEth1TxForAddress` | db/bigtable_eth1.go:1616-1657 | a page is the first rows behind the token among those that share its first five fields, each resolved to its data row, in index order, and its token is the last row key |
| `AddressPages.TokenFields` | db/bigtable_eth1.go:1712-1717 | every token, the first one included, truncates to the same time prefix |
| `AddressPages.ScanContinues` | db/bigtable_eth1.go:1620-1633 | the scan behind the token after j transactions is the rest of the listing |
| `AddressPages.ResolvesToTx` | db/bigtable_eth1.go:950-957 | every index row points at a data row that exists and holds its transaction, field by field |
| `AddressPages.FollowPages` | db/bigtable_eth1.go:1616-1720 | index refines scan: following tokens to the empty one lists, for every page size, each transaction the address took part in exactly once, in order, with sender, recipient and every other field as in the block |
| `BlockStore.Store.SaveBlockKeys` | db/bigtable_eth1.go:3017-3028 | the record of a block, named by chain, number and hash, is replaced and no other record changes, or nothing at all when the apply fails |
| `BlockStore.Store.GetBlockKeys` | db/bigtable_eth1.go:3030-3048 | the recorded string split at commas, or an error without a record |
| `BlockStore.Store.SaveBlock` | db/bigtable_eth1.go:108-131 | a table that holds some blocks holds them and the new one, which replaces one of its number; a failing apply changes nothing |
| `BlockStore.Store.GetBlockFromBlocksTable` | db/bigtable_eth1.go:158-181 | the block that was saved last under a number, or not found without one |
| `BlockStore.BlockRowParses` | db/bigtable_eth1.go:191-198 | the number a reader parses from the row key of a block is that of the block |
| `BlockStore.KeysDiffer` | db/bigtable_eth1.go:124-124 | blocks of different numbers have different rows, and blocks of different numbers or hashes different records |
| `BlockStore.Store.IndexOneBlock` | cmd/eth1indexer/main.go:654-681 | the keys of all transforms are joined and recorded, then all their rows are written in that order; an untransformable block, an empty bulk or a failing record changes nothing |
| `BlockStore.BlockBulkLaidOut` | cmd/eth1indexer/main.go:654-668 | the rows written for a block are those of the earlier transforms, those of `TransformTx`, which say everything about its transactions, and those of the later ones, entry by entry and with nothing between |
| `BlockStore.Store.DeleteBlock` | db/bigtable_eth1.go:3050-3089 | the recorded rows are deleted, then the row of the blocks table that the block with this number was saved to, and no other block's row; the exact effect of every failure |
| `BlockLifecycle.RecordRoundTrip` | cmd/eth1indexer/main.go:670-674 | for the bulk of any transforms, the recorded string splits into exactly the written keys, if and only if there are any and none holds a comma |
| `BlockLifecycle.BulkCommaFree` | db/bigtable_eth1.go:896-957 | no transaction key holds a comma, so that a block's bulk is free of commas depends on the other transforms alone |
| `BlockLifecycle.OtherRow` | db/bigtable_eth1.go:3050-3077 | a row a bulk does not write is what the rest of the history makes of it, however often the bulk was written |
| `BlockLifecycle.BlockUndone` | db/bigtable_eth1.go:3050-3077 | in any history, deleting the keys of a bulk leaves the data table as if the bulk had never been written, if and only if no row that anything else left there carries one of its keys |
| `BlockLifecycle.RecordedBlockUndone` | db/bigtable_eth1.go:3030-3077 | the same for deleting what the recorded string lists, for every recorded bulk with comma-free keys |
| `BlockLifecycle.AfterDeletions` | db/bigtable_eth1.go:3050-3077 | after any interleaving of indexing, re-indexing and clean deletions the table is that of a history without what was taken back |
| `BlockLifecycle.FirstSpoiled` | db/bigtable_eth1.go:3050-3077 | after clean deletions one more is right if and only if it is clean too: it shares no row with what was not taken back |
| `BlockLifecycle.FollowPagesAfterDeletions` | db/bigtable_eth1.go:1616-1720 | following page tokens then lists, field by field, the transactions of the blocks that were indexed and not taken back |
| `BlockLifecycle.HistoryDisjoint` | db/bigtable_eth1.go:896-957 | blocks with different numbers, times and transaction hashes, other indexers and deletions touch a transaction row of a block only by deleting it |
| `BlockLifecycle.UnrelatedShareNothing` | db/bigtable_eth1.go:896-957 | among such events, whether a block can be taken back depends on the keys of its other transforms alone |
| `BlockLifecycle.SharedTransaction` | db/bigtable_eth1.go:896-924 | a transaction in two blocks: taking back the older one deletes the data row of the newer one |
| `BlockStore.TakeBack` | db/bigtable_eth1.go:3050-3089 | for any recorded bulk with comma-free keys, when every apply succeeds, the deletion is exact in the same sense, and of the saved blocks precisely the one with this number is gone |
| `AttestationCells.GroupBySlot` | db/bigtable.go:124-139 | assignments grouped by slot are the assigned pairs, in any map order, where a key assigns the number before its first dash; an error if and only if some key has no such number |
| `AttestationCells.SaveAttestationAssignments` | db/bigtable.go:117-154 | adds exactly one cell per assignment, in the row text of the slot its key names and the column of its validator, or part of them after an error; succeeds if and only if every key names a slot and every such row can be written |
| `AttestationCells.SlotOfNames` | db/bigtable.go:126-132 | a key yields a slot if and only if its text up to the first dash is a decimal number of 64 bits, and then that number |
| `AttestationCells.AssignmentKeyNames` | utils/format.go:82-85 | a key of slot, committee and member names the slot, whatever the other two are |
| `AttestationCells.FirstInclusions` | db/bigtable.go:224-251 | the nested loops keep, for every vote in any batch, the earliest block slot that includes it, where slot 0 counts as none |
| `AttestationCells.SaveAttestations` | db/bigtable.go:217-266 | adds exactly the cells of the first inclusions of the batch, each in the row text of the attested slot with the timestamp of the earliest block that includes the vote, or part of them after an error; succeeds if and only if the row of every attested slot can be written |
| `DutyLog.RunLog` | db/bigtable.go:117-266 | any sequence of writer calls with any failing row writes is a run in which a success adds its cells and a failure part of them, and exactly the calls whose rows can be written succeed |
| `DutyLog.RunLeavesMarks` | db/bigtable.go:117-266 | once every call succeeded at some point, the table holds exactly the cells of the calls: failures and repetitions leave no trace |
| `DutyLog.OrderIndependent` | db/bigtable.go:117-266 | two complete runs over the same calls end in the same cells, whatever their order |
| `DutyLog.NoNewerCell` | db/bigtable.go:256-256 | no cell of a duty is newer than its earliest inclusion over all batches |
| `DutyLog.EarliestCell` | db/bigtable.go:256-256 | the cell of the earliest inclusion over all batches, or of the bare assignment, is there |
| `DutyWindow.SlotOrder` | db/bigtable.go:891-897 | slot rows are met newest first, but those of epoch 0 before all others and slot 0 first among them |
| `DutyWindow.ColonOrder` | db/bigtable.go:891-897 | the exact order of two rendered numbers of any widths inside a key: the common leading digits decide, then the longer one is first |
| `DutyWindow.WindowExact` | db/bigtable.go:444-445 | for every epoch, start and limit, a slot row lies in the requested range if and only if its epoch number does in that order, wrapped range ends included |
| `DutyWindow.PlainWindow` | db/bigtable.go:444-445 | in plain terms: the limit epochs up to start when the window stays above epoch 0, epoch 0 when the start is 0, and nothing otherwise |
| `DutyWindow.WindowFaithful` | db/bigtable.go:444-445 | the window holds the epochs a caller asked for if and only if limit is below the start epoch or the start epoch is 0 |
| `AttestationHistory.ReadRow` | db/bigtable.go:475-519 | one row adds one entry per selected validator, in any column order |
| `AttestationHistory.EntryAppended` | db/bigtable.go:506-519 | no two rows of a scan are about the same slot, so entries are only ever appended |
| `AttestationHistory.GetValidatorAttestationHistory` | db/bigtable.go:438-527 | for each requested validator, one entry per row of the window with its cell, in scan order; all validators for an empty or a very long request |
| `DutyHistory.DutyCell` | db/bigtable.go:484-492 | a cell exists if and only if the log has the duty, and its newest version is the duty's |
| `DutyHistory.WindowSpec` | db/bigtable.go:444-445 | the reference list of a window holds exactly the duty slots of the covered epochs, in the order a scan meets them |
| `DutyHistory.ReadsDuties` | db/bigtable.go:438-527 | the read-back is the reference list: status 1 with the minimum inclusion slot over all batches, status 0 if only assigned, no entry otherwise |
| `DutyHistory.WriteThenRead` | db/bigtable.go:117-527 | the whole path: from an empty table through any run of the writers to the reader; once every call succeeded, a validator's list has one entry for each slot of the window that an assignment key names or a block votes for, with the earliest including block; all validators for an empty request or one of a thousand |
| `DutyHistory.DutiesAreTold` | db/bigtable.go:438-527 | the reference list says of assignments and blocks alone what a validator's duties were, entry by entry |
| `DutyHistory.AssignmentListed` | db/bigtable.go:126-132 | a duty assigned under the key of slot, committee and member is listed at that slot, for every slot, committee and member |
| `BalanceCells.DecodeEncode` | db/bigtable.go:89-95 | sixteen bytes give back balance and effective balance |
| `BalanceCells.EncodeSays` | db/bigtable.go:89-95 | the sixteen bytes are the balance and then the effective balance, the lowest byte of each first |
| `BalanceCells.FlushAnywhere` | db/bigtable.go:98-107 | two mutations of one row in sequence are one, so flush points do not matter |
| `BalanceCells.SaveValidatorBalances` | db/bigtable.go:78-115 | in the row text of the epoch, the column of each validator says its last entry up to the last flush that works, all entries on success, and every other cell is as before; succeeds if and only if the flushes after entries 0, 100000, 200000 and so on and the last one do |
| `BalanceCells.SavingBooks` | db/bigtable.go:78-115 | saving keeps the table a mirror of the ledger in which later entries replace earlier ones |
| `BalanceCells.OtherWritesKeepLedger` | db/bigtable.go:117-154 | writes to other column families leave the balances alone |
| `BalanceSeries.BalanceWindowExact` | db/bigtable.go:366-367 | for every epoch, start and limit, a balance row lies in the requested range if and only if its epoch number does in the order of rendered numbers |
| `BalanceSeries.PlainRows` | db/bigtable.go:366-367 | in plain terms: the limit epochs up to start when the window stays above epoch 0, nothing when it ends at epoch 0 |
| `BalanceSeries.ReadWindow` | db/bigtable.go:374-428 | every validator's result is the fold of its readings over the delivered rows, in scan order, each as often as column filters name the validator |
| `BalanceSeries.LimitNeverCuts` | db/bigtable.go:430-430 | the row limit of the history read never removes a row of the window |
| `BalanceSeries.WindowReadings` | db/bigtable.go:395-428 | the readings of a window are the last saved balances of its epochs, newest first |
| `BalanceSeries.GetValidatorBalanceHistory` | db/bigtable.go:361-436 | each validator gets the booked balances of the window and no others, newest first, each as often as the request names the validator |
| `BalanceSeries.SeriesExactly` | db/bigtable.go:374-391 | round trip: what a validator gets is its series if and only if the request names it once or there is nothing to read |
| `BalanceSeries.NamedTwice` | db/bigtable.go:374-391 | a request [v, v] gets every balance of v twice |
| `BalanceStatistics.FoldSummarises` | db/bigtable.go:757-796 | one pass yields the true start, end, minimum and maximum balance of any series, and what the effective fields hold instead |
| `BalanceStatistics.GetValidatorBalanceStatistics` | db/bigtable.go:726-807 | every validator's statistics summarise its series over the span read |
| `BalanceStatistics.StatisticsMean` | db/bigtable.go:730-731 | from epoch 2 on, and for epoch 0 alone, exactly the validators with a balance in the span have statistics and these are true; for any other span there are none |
| `BalanceLog.WriteThenRead` | db/bigtable.go:78-436 | the whole path: any saves, each up to its last working flush, with other writes in between, then the history of the window: for each epoch the balance given last by an entry that reached the table |
| `BalanceLog.LedgerTellsLast` | db/bigtable.go:78-115 | the ledger holds a balance if and only if some entry that reached the table gave it, and then the one given last |
| `BalanceLog.SavedFarUnique` | db/bigtable.go:98-111 | the failing flushes alone decide how far a save got |
| `BalanceLog.WriteThenSummarise` | db/bigtable.go:78-807 | the same path to the statistics: the true ones for every span that can be read, none for the others |
| `RelayPaging.RelayExporter.Retrieve` | exporter/relays.go:121-221 | what is committed, and when, equals the paging as a function of the replies and of the blocks known at each insert; a row is new if and only if it is an answered payload of an asked cursor whose block was known at its insert; a failure rolls everything back, the cursor strictly decreases |
| `RelayPaging.RetrieveSucceeds` | exporter/relays.go:122-220 | a retrieval succeeds if and only if its transaction does and every asked cursor is answered, inserted and does not stall |
| `RelayPaging.RetrievedExactly` | exporter/relays.go:121-221 | the same said along the asked cursors alone: where the next page starts, where paging ends, which payloads became rows |
| `RelayPaging.RelayExporter.Export` | exporter/relays.go:89-119 | success and table after both phases equal the composition of the two retrievals, which go from the top to the newest stored payload and from the oldest one down; no other row is new than payloads they inserted |
| `RelaySync.PagingKeeps` | exporter/relays.go:142-219 | however relay and blocks move between requests and inserts, at its end a retrieval holds every visible payload it passed by that lies more than ten slots below its newest row |
| `RelaySync.HeadKeeps` | exporter/relays.go:90-101 | a first phase in a moving world, committed or rolled back, keeps the table gapless unless a null leaves a hole |
| `RelaySync.TailKeeps` | exporter/relays.go:103-116 | a second phase in a moving world keeps the table gapless, however it ends |
| `RelaySync.RunStaysGapless` | exporter/relays.go:89-221 | in every run, with the outside moving between exports, phases, requests and inserts, with rollbacks and harmless nulls, and with nothing more than ten slots late, no visible payload is missing between the oldest row and ten slots below the newest |
| `RelaySync.RowsWereKnown` | exporter/relays.go:175-187 | over every run each stored row was on a page of some export, with its block known when it was inserted |
| `RelaySync.PagesCover` | exporter/relays.go:142-219 | of the payloads visible throughout, a paging that ends with a short page or at the floor leaves no hole between its bounds; one that ends with a null has everything above the null's cursor |
| `RelaySync.HeadSync` | exporter/relays.go:90-101 | a committed first phase without a null closes every gap above the oldest row and ends at the newest payload |
| `RelaySync.TailCompletes` | exporter/relays.go:103-116 | a committed second phase, however it ends, keeps what is complete to the top so; without a null nothing is left out |
| `RelaySync.ExportCompletes` | exporter/relays.go:89-119 | a successful export whose first phase met no null completes a gapless table; without nulls and with both reads no payload that was visible throughout is left out, whatever else moved |
| `RelayLimits.NullExactly` | exporter/relays.go:151-154 | after a null for a later cursor of the first phase a hole is possible in a world with the same replies, moving in any way that is in time, if and only if a condition on the cursor and the ends of the old and the new table holds |
| `RelayLimits.RetrieveUpToNull` | exporter/relays.go:121-221 | a full page and then a null: the retrieval succeeds and leaves a payload behind |
| `RelayLimits.LatenessExactly` | exporter/relays.go:131-203 | all runs stay gapless if and only if nothing becomes visible more than ten slots behind the newest row, stored or in flight |
| `RelayLimits.ExportTooLate` | exporter/relays.go:89-221 | eleven slots late: a fully successful export leaves the payload behind |
| `RelayLimits.StoredRowsAreNoMeasure` | exporter/relays.go:142-219 | measured against the stored rows alone no bound on lateness suffices, not even zero |
| `RelayLimits.ExportWhileMoving` | exporter/relays.go:89-221 | a payload that appears between two requests, newer than all stored rows: a fully successful export leaves it behind |
| `PivotSearch.NextRoundSound` | exporter/rocketpool.go:395-439 | the stride strictly shrinks to one, and from then on every further round comes strictly closer, so the search ends |
| `PivotSearch.RoundKeepsBracket` | exporter/rocketpool.go:418-433 | the wanted block stays within the stride of the candidate after every halving, step and clamp |
| `PivotSearch.WalkBackFindsGoal` | exporter/rocketpool.go:402-416 | an exit through the walk-back returns exactly the last block not after the target |
| `PivotSearch.OtherExitIsClosest` | exporter/rocketpool.go:402-416 | any other exit returns the closest header visited |
| `PivotSearch.OtherExitNearGoal` | exporter/rocketpool.go:402-416 | and that is at least as close as the block before the wanted one |
| `PivotSearch.PathStays` | exporter/rocketpool.go:418-433 | a wanted block at or above the number of halvings keeps the path of candidates inside the chain |
| `PivotSearch.FallsDownwards` | exporter/rocketpool.go:418-433 | if the path leaves the chain for a wanted block, it does so for every earlier one |
| `PivotSearch.FallsExactly` | exporter/rocketpool.go:384-439 | the search asks for a block below genesis if and only if the target lies before the time of one block, whose number depends on the head's number alone and is at most its binary logarithm |
| `PivotSearch.FallsBelowExample` | exporter/rocketpool.go:418-433 | with head 18 and a target between blocks 0 and 1 the search asks for block -1, and block 1 is the first safe one |
| `PivotSearch.SearchCorrect` | exporter/rocketpool.go:373-440 | the search as a whole, for every target from the first safe block on: inside the chain, and the wanted block or the closest header visited |
| `PivotSearch.WalkBack` | exporter/rocketpool.go:405-415 | the final loop finds the last earlier block not after the target |
| `PivotSearch.GetELBlockHeaderForTime` | exporter/rocketpool.go:373-440 | the loop computes the search these lemmas are about, and ends; what it returns is the last block not after the target, or a header no farther from it than the block before that one, and nothing for a target before genesis |
| `DepositExporter.ChooseRange` | exporter/eth1.go:81-102 | the wrapping arithmetic yields the plain-integer range: from the next block nobody asked for, at most 1000 on, at least the last 100 at the head, or an inverted range when there is nothing new |
| `DepositExporter.NarrowRange` | exporter/eth1.go:105-112 | the retry range keeps its start and covers 101 blocks or ends at the head |
| `DepositExporter.Exporter.Round` | exporter/eth1.go:58-145 | succeeds if and only if database, head, node (after narrowing) and save do; a failed round changes nothing, a successful one asks for the planned range, stores every deposit of the answer under its id and no other, joins what was covered and makes progress |
| `DepositExporter.UpsertStores` | exporter/eth1.go:277-330 | after saving an answer every deposit in it is in the table with its block, the last one of an id, and every other id is unchanged |
| `DepositExporter.SuccessKeepsNoGap` | exporter/eth1.go:81-129 | a successful round leaves every block up to the newest fetched or deposited one covered |
| `DepositExporter.FreshStart` | exporter/eth1.go:84-91 | a new installation starts without a gap if and only if the contract's first block is positive |
| `DepositExporter.RunLeavesNoGap` | exporter/eth1.go:44-147 | no run over rising and falling heads, errors, narrowing and restarts leaves a gap |
| `DepositExporter.RunStoresAll` | exporter/eth1.go:44-147 | over such a run, with a fixed contract log answered completely, every deposit from the first block up to the newest fetched one is in the table |
| `DepositExporter.CatchesUp` | exporter/eth1.go:88-129 | k successful rounds reach a standing head or advance 101 blocks each |
| `BlockDiff.BlockKeyInjective` | exporter/exporter.go:315-325 | the slot and root key identifies slot and root |
| `BlockDiff.MissedExactly` | exporter/exporter.go:342-342 | a key ends in the missed marker if and only if the root is the single byte 0 |
| `BlockDiff.SameKeySameRoot` | exporter/exporter.go:346-349 | the branch for a different hash never fires |
| `BlockDiff.QueueDiff` | exporter/exporter.go:312-350 | the queued epochs are precisely those with a block on one side only, less database-only missed slots |
| `FullCheck.QueueMissing` | exporter/exporter.go:359-384 | the three head cases and the gap loop queue, beside the block differences, the holes between the ends of the list, the last stored epoch and all up to a newer head, or else a missing epoch 0 |
| `FullCheck.MissingMeans` | exporter/exporter.go:359-384 | the queue as a predicate on the set of stored epochs, which the convergence lemmas use, says the same of the sorted list |
| `FullCheck.Checker.ExportQueued` | exporter/exporter.go:396-413 | every queued epoch that has not failed more than three times is tried once, independently of the others; old failures are counted |
| `FullCheck.Checker.DoFullCheck` | exporter/exporter.go:308-413 | the queue and its export as a whole |
| `FullCheck.AtMostFourFailures` | exporter/exporter.go:397-410 | over the life of the process an old epoch fails at most four times |
| `FullCheck.PassIsCheck` | exporter/exporter.go:308-413 | a check over the queue of missing epochs and block differences performs the step that the convergence lemmas are about, while no epoch outside the failing ones is blacklisted |
| `FullCheck.HistoryIsChecks` | exporter/exporter.go:308-413 | and so does every history of checks |
| `FullCheck.StoredExactly` | exporter/exporter.go:308-413 | which exportable epochs any run of checks has brought in, from the ends of the first table, the head, the failing epochs, the block differences and the background saves that land late |
| `FullCheck.ThreeChecks` | exporter/exporter.go:308-413 | with any failing epochs, any block differences and any late saves, three checks make all other epochs up to the head present unless the table is stuck |
| `FullCheck.StuckExactly` | exporter/exporter.go:308-413 | a stuck table becomes complete if and only if the block differences and late saves reach what lies below its first epoch |
| `FullCheck.StuckExample` | exporter/exporter.go:359-366 | epoch 5 stored, head 9, epoch 0 failing: epochs 1 to 4 never arrive |
| `FullCheck.StuckForever` | exporter/exporter.go:359-366 | it never does while they stay above and something below could be exported |
| `FullCheck.NeededSuffices` | exporter/exporter.go:308-413 | with succeeding exports a number of checks between 0 and 3, from the first and last stored epoch, completes the table whatever the differences and late saves |
| `FullCheck.ConvergesExactly` | exporter/exporter.go:308-413 | and fewer do not, unless a difference or a late save reaches below the first stored epoch |
| `EthStore.ShortcutExact` | exporter/ethstore.go:161-161 | the count is at most the latest day if and only if more days are missing than lie beyond it |
| `EthStore.ShortcutSound` | exporter/ethstore.go:161-161 | with no day beyond the latest one, the count shortcut is true if and only if a day is missing |
| `EthStore.Exporter.ExportDay` | exporter/ethstore.go:52-124 | the summary row -1 and one row per validator of a day or none of them, and success if and only if data, database and primary key allow it |
| `EthStore.Exporter.MissingDays` | exporter/ethstore.go:162-193 | the day map and the sort give exactly the missing days, newest first |
| `EthStore.Exporter.Pass` | exporter/ethstore.go:161-208 | a pass exports exactly the days without a summary row above the newest one that fails, newest first, with all their rows and no others; it succeeds if and only if none fails |
| `EthStore.AfterPass` | exporter/ethstore.go:195-207 | exactly the exported days are new, and no day is ever half there |
| `CanonicalMarking.BlocksTable.UpdateCanonicalBlocks` | db/db.go:576-613 | the exact status of every row after a commit, on slot, epoch, root and status numbers, no change otherwise, and exactly when it succeeds |
| `CanonicalMarking.MarkingTwice` | db/db.go:598-611 | marking is idempotent |
| `CanonicalMarking.LaterMarkingWins` | db/db.go:598-611 | an earlier marking leaves no trace in a later one, if and only if it did not promote an undecided row the later one does not call canonical |
| `CanonicalMarking.LastWordCounts` | db/db.go:576-613 | over any run of markings the last one that speaks about a proposed or orphaned row settles its status; without one the row keeps it |
| `CanonicalMarking.OneProposedPerSlot` | db/db.go:598-611 | a covered slot keeps at most one proposed block, and that is a canonical one |
| `SlotGrid.BestIsLongest` | db/db.go:2065-2096 | the row kept for a slot has the longest root among the rows of that slot |
| `SlotGrid.PlaceRows` | db/db.go:2059-2098 | the map holds exactly the epochs with rows, and in each of 32 places the kept row of that slot |
| `SlotGrid.CellsMakeSense` | db/db.go:2100-2130 | every cell has its slot and epoch, no past slot is left scheduled, later ones are scheduled, proposed or missed, and exactly the current one is active |
| `SlotGrid.GetSlotVizData` | db/db.go:2059-2138 | every epoch with rows, newest first, all 32 cells with root and status of the row with the longest root, missing rows by their slot, and the justification flags above open and final epochs |
| `ClaimStatus.GetClaimStatus` | exporter/rocketpool.go:1710-1758 | the loops over buckets and bits list the intervals so far whose bit in the contract's words is set, and those whose bit is not, at multiples of 256 too |
| `ClaimStatus.ListedSpec` | exporter/rocketpool.go:1735-1754 | each list is ascending and holds exactly the intervals below the current one whose bit says so |
| `ClaimStatus.Partition` | exporter/rocketpool.go:1719-1758 | claimed and unclaimed are disjoint and together all intervals so far |

## Left out

- PlainRows: limits above the start epoch, where the range end wraps; BalanceWindowExact and WrappedRows cover them.
- WindowFaithful: as PlainWindow.
- PlainWindow: limits above 4000000000 and epochs from 500000000 on, for which only the general condition of WindowExact is stated.
- ReadsDuties: slots from 10^9 on, an inclusion in slot 0, and fewer than two slots per epoch; the timestamps or row keys then no longer name a slot.
- GetValidatorBalanceHistory: epochs from 900000000 on, whose rows sort before that of epoch 0; cells are read at their newest version only, since every writer uses timestamp 0; the readings of a repeated validator are delivered one after the other.
- WriteThenRead: the duty log and the balance log of one table are modelled separately, each with the other as writes to other column families.
- SaveValidatorBalances: an empty final mutation, after 1 or 100001 entries for instance, counts as a write that does nothing.
- RunStaysGapless: concurrent exports of the same relay, and relays whose pages are not the newest payloads at or below the cursor at the moment of the request.
- TransformTx: a hash of the wrong length ends the process in the original and is an error result here; balance-update marks in the metadata table are not modelled.
- IndexOneBlock: computes the transaction rows; the rows of the other transforms (blocks, internal transactions, token transfers, uncles) are given, and those transforms succeed.
- UnrelatedShareNothing: the keys of the other transforms, which it leaves as a condition.
- GetELBlockHeaderForTime: heads below 2, failing header requests, and the node's answer to a negative block number; times are whole seconds instead of floats.
- Round: deposits a node returns outside the requested range; parsing and signature checks of deposits.
- CatchesUp: heads within the last 1001 numbers of the 64-bit range, where the additions themselves wrap.
- DoFullCheck: the choice of the compared epoch range (its blocks lie at or below the head), the marking of orphaned blocks and the queue statistics after the export loop; heads at the very end of the 64-bit range, where the loops would not end.
- Pass: a database without a full finalized day, for which the latest day wraps to 2^64-1; the pool performance rows of a day.
- UpdateCanonicalBlocks: which epochs and blocks its callers choose.
- GetSlotVizData: rows whose slot lies outside their epoch, which index out of the array of slots, other slot counts than 32, and the participation rate.
- GetClaimStatus: a failing bitmap read, which the loop does not look at.
- Fee sums and pool income: their loops would only add easy members.
- Proposal and sync duty histories, which read the timestamp of the first column for every column.
- `DeleteRowsWithPrefix`, the block and token pagers other than the transaction pager, and the tiered cache.
- SQL, RPC, protobuf and JSON decoding, goroutines, sleeps, timeouts, metrics and logging; only table updates, returned lists, successes and errors remain.
- Request handlers, templates, authentication, payments and notifications.
