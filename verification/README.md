# moca in Dafny

A model of the parts of the moca node whose correctness is hardest to see by reading: the Ethereum transaction index and
everything it rests on, and a handful of algorithms around it. Every module is self-contained Dafny; nothing is assumed
about the rest of the node except where a parameter stands for it.

* **The wire format.** `Varint`, `Wire`, `TxResultCodec` and `ApprovalCodec` model the generated protobuf code: buffers
  written from the end to the front, varint loops that truncate to machine width, the skip loop with its depth counter.
  A message type is a *handler* for the field numbers it knows; decoding, its composition and the transparency of
  unknown fields are proved once for every handler. What a field *is* (`Wire.Field`, a tree: groups nest) is defined
  apart from the loop that skips one.
* **The index.** `BigEndian`, `KvStore` and `TxIndex` model the key-value store and its two families of keys. `Events`
  models the parser of transaction events in its two historical formats. `Indexing` says which entries a block has and
  compares the index with the event search and with the scan of the block; `KvIndexer` holds the loops that build the
  index, and `IndexCommand` those of the command line and of the service.
* **Runs.** `IndexRuns` is a state machine: service sessions, forward runs and backward runs in any order, each
  interrupted anywhere. Its invariant gives the exact condition under which the index has no gap.
* **Reconciliation.** `Reconciliation` relates the sums the node takes over one block's changed keys to the whole bank and
  payment ledgers, and follows them over a run of blocks.
* **Around them.** `FeeHistory` (reward percentiles, logs), `Ledger` (hardware wallet framing), `Challenge` (the draw of
  storage challenges), `Grn` (resource names and name rules), `Multisig` (signature gas), `Sequence` (counters).

Code that works by changing things is modelled that way: buffers are arrays, objects are classes, loops are loops, and
each method is tied by its `ensures` to a specification about which the main results are proved. A Go panic is a result
of its own (`OutOfRange`, `Panicked`, `None`), or excluded by the one precondition `Indexing.Safe` (an event or a message
that makes the indexer's type assertion or index expression panic). Machine integers are subsets of `int`, and every
conversion and wrap-around is written out.

Some promises turn out not to hold of the code as it is. For each there is the exact condition, and a lemma with a
concrete input that fails:

* looking a message up by hash can find another message, when a wrong hash was announced (`Events.HashLookupExact`;
  `Events.WrongTransactionFound`);
* the index and the event search do not know of the same messages: a failed transaction with fewer events than messages
  is indexed and not found by a search, and events of a transaction without the extension option are found and not
  indexed (`Indexing.PathsKnowTheSame`; `Indexing.StoredButNotSearched`, `Indexing.SearchedButNotStored`); where both
  know a message, the search returns the stored record only if the events carry the counted index and, by hash, only if
  the hash leads to the message (`Indexing.SearchByIndexExact`, `Indexing.SearchByHashFormat1`,
  `Indexing.SearchByHashFormat2`);
* a failed write in the service leaves a gap no later session fills (`IndexRuns.NoGapExactlyWhenNothingSkipped`,
  `IndexRuns.HoleIsPermanent`; `IndexRuns.FailedWriteLeavesGap`);
* the index and the block scan list the same messages only for consistent transactions (`Indexing.IndexAgreesWithScan`;
  `Indexing.ScannedButNotIndexed`);
* decoding a record into one in use keeps old fields where the new ones are zero (`TxResultCodec.RoundTripInto`;
  `TxResultCodec.StaleGasKept`);
* the denom of a balance key is read correctly for 20-byte addresses only (`Reconciliation.ParseBalanceKey`;
  `Reconciliation.LongAddressMisread`);
* a message to the hardware wallet survives framing only below 2^16 bytes (`Ledger.RoundTripIff`;
  `Ledger.LongMessageLost`);
* a resource name with an empty name part does not survive printing (`Grn.RoundTripIff`; `Grn.EmptyBucketLost`).

A record of zeros cannot be told from a missing one (`TxIndex.LookupHeld`; `TxIndex.ZeroRecordLost`), but no block above
height 0 has one (`Indexing.IndexedIsNonZero`).

`dafny verify dfyconfig.toml` checks the project.

## Model

| member | source | states |
|---|---|---|
| `Varint.SovIsLength` | types/indexer.pb.go:213-215 | the closed bit-length formula is the number of bytes the varint encoder writes, for every value |
| `Varint.ReadEncode` | types/indexer.pb.go:172-182 | every 64-bit value reads back from its varint, whatever bytes follow, consuming exactly the varint |
| `Varint.ReadExact` | types/indexer.pb.go:225-238 | a successful read depends on nothing beyond the bytes it consumes |
| `Varint.OrOfDisjointIsSum` | types/indexer.pb.go:234 | on 64-bit words with no bit set at or above the shift, or-ing in the shifted group is adding it |
| `Varint.OrOfDisjointIsSum32` | types/indexer.pb.go:281 | the same in a 32-bit field |
| `Varint.DecodeVarint` | types/indexer.pb.go:225-238 | the accumulator ends as the groups' sum truncated to its width, after an error the sum of those read; the cursor ends after the varint; overflow and truncation err exactly when the mathematical reading does, with the same error |
| `Varint.EncodeVarint` | types/indexer.pb.go:172-182 | the whole buffer afterwards: the varint just below the offset, every other byte as it was |
| `Varint.PutScalar` | types/indexer.pb.go:129-133 | an absent zero field writes nothing; any other writes tag and varint just below the cursor, nothing else |
| `Varint.ScalarSizeExact` | types/indexer.pb.go:189-191 | the size counted for a scalar field is the length of its bytes |
| `Wire.SkipComplete` | types/indexer.pb.go:403-480 | the depth-counting loop passes over exactly one field tree, however deep its groups nest and whatever follows |
| `Wire.SkipSound` | types/indexer.pb.go:403-480 | conversely, whatever a skip that stays inside its input passes over is the bytes of one well-formed field tree |
| `Wire.SkipIffFieldPrefix` | types/indexer.pb.go:403-480 | the loop accepts an input and stops inside it if and only if some field tree is a prefix of it |
| `Wire.SkipStable` | types/indexer.pb.go:403-480 | bytes after the skipped field do not change what is skipped |
| `Wire.StepStable` | types/indexer.pb.go:222-396 | one turn of an Unmarshal loop that succeeds does the same with more input behind it, for every message type whose fields are read that way |
| `Wire.DecodeComposes` | types/indexer.pb.go:219-402 | decoding a concatenation is decoding the second part into what the first part left; so the last value of a repeated field wins |
| `Wire.UnknownFieldIsTransparent` | types/indexer.pb.go:382-395 | an unknown field inserted at any field boundary changes neither the decoded record nor the error, nor what an error leaves in the record |
| `Wire.SkipElement` | types/indexer.pb.go:408-471 | one turn of the skip loop: how far the cursor moves, how the depth changes, or which error |
| `Wire.SkipField` | types/indexer.pb.go:403-480 | the loop with cursor and depth computes the recursive skip, errors included |
| `TxResultCodec.SizeExact` | types/indexer.pb.go:183-211 | Size is the length of the encoding of every record |
| `TxResultCodec.SetWord` | types/indexer.pb.go:124-170 | truncating the 64-bit word written for a field gives the field back: sign extension is undone |
| `TxResultCodec.RoundTrip` | types/indexer.pb.go:109-402 | every record, negative heights and indexes included, decodes from its encoding |
| `TxResultCodec.RoundTripInto` | types/indexer.pb.go:219-402 | decoding into a record in use gives the encoded record if and only if the receiver is zero wherever the record is |
| `TxResultCodec.StaleGasKept` | types/indexer.pb.go:219-402 | a concrete receiver whose gas survives the decoding of a record without gas |
| `TxResultCodec.WordsDetermine` | types/indexer.pb.go:124-170 | two records with the same words are the same record |
| `TxResultCodec.EmptyIffZero` | types/indexer.pb.go:124-170 | only the all-zero record has no bytes |
| `TxResultCodec.UnknownNumbers` | types/indexer.pb.go:239-248 | which field trees this message skips: those whose number, truncated to int32, is above 7 |
| `TxResultCodec.HandlerStable` | types/indexer.pb.go:247-381 | reading a known field looks at nothing after it |
| `TxResultCodec.PutFields` | types/indexer.pb.go:124-170 | writing the seven fields from last to first fills the end of the buffer with the encoding and touches nothing else |
| `TxResultCodec.Message.MarshalToSizedBuffer` | types/indexer.pb.go:124-170 | the buffer ends with the encoding of the receiver; the result is its length |
| `TxResultCodec.Message.Marshal` | types/indexer.pb.go:109-117 | the fresh buffer is exactly the encoding |
| `TxResultCodec.Message.ReadField` | types/indexer.pb.go:248-381 | one case of the switch stores the varint, at the field's width, in that field only; after an error the field holds the groups read so far, except the flag, which keeps its value |
| `TxResultCodec.Message.Unmarshal` | types/indexer.pb.go:219-402 | the in-place loop computes the decoding of the input over the receiver's old value, or its error and what the error leaves in the receiver |
| `TxResultCodec.Message.UnmarshalField` | types/indexer.pb.go:222-396 | one turn of the loop is one step of the decoder, errors and the receiver after them included |
| `ApprovalCodec.SizeExact` | types/common/approval.pb.go:172-189 | Size is the length of the encoding |
| `ApprovalCodec.RoundTrip` | types/common/approval.pb.go:121-318 | every approval decodes from its encoding |
| `ApprovalCodec.UnknownNumbers` | types/common/approval.pb.go:217-226 | which field trees this message skips |
| `ApprovalCodec.HandlerStable` | types/common/approval.pb.go:226-297 | reading a known field looks at nothing after it; with it composition and skip transparency hold of this message |
| `ApprovalCodec.PutSig` | types/common/approval.pb.go:141-147 | signature, length and tag written below the cursor, nothing else touched |
| `ApprovalCodec.PutFields` | types/common/approval.pb.go:136-159 | the three fields stacked from the end of the buffer are the encoding |
| `ApprovalCodec.Message.MarshalToSizedBuffer` | types/common/approval.pb.go:136-159 | the buffer ends with the encoding of the receiver |
| `ApprovalCodec.Message.Marshal` | types/common/approval.pb.go:121-129 | the fresh buffer is exactly the encoding |
| `ApprovalCodec.Message.ReadField` | types/common/approval.pb.go:226-297 | one case of the switch: the field's new value, or its error and the groups left in a scalar field, wire type and length checks included |
| `ApprovalCodec.Message.UnmarshalField` | types/common/approval.pb.go:200-312 | one turn of the loop is one step of the decoder, errors and the receiver after them included |
| `ApprovalCodec.Message.Unmarshal` | types/common/approval.pb.go:197-318 | the in-place loop computes the decoding over the receiver's old value, or its error and what the error leaves in the receiver |
| `BigEndian.OrderEmbedding` | indexer/kv_indexer.go:181-185 | fixed-width big-endian numbers compare as numbers under byte order, equal ones leaving the decision to what follows |
| `KvStore.Seek` | indexer/kv_indexer.go:202-208 | a fresh iterator, forward or reverse, stands on the least or greatest key of the range, or the range is empty |
| `TxIndex.IndexKeyOrder` | indexer/kv_indexer.go:181-185 | byte order of index keys is the order of height and index read as unsigned 64-bit numbers |
| `TxIndex.IndexKeyOrderNonNegative` | indexer/kv_indexer.go:181-185 | for heights and indexes of a chain it is the order of (height, index) |
| `TxIndex.IndexKeyInjective` | indexer/kv_indexer.go:181-185 | no two (height, index) share a key |
| `TxIndex.ParseIndexKey` | indexer/kv_indexer.go:238-244 | the height is read back from every index key |
| `TxIndex.ScanRange` | indexer/kv_indexer.go:189-202 | the scanned range is exactly the keys with the index prefix |
| `TxIndex.LoadBlock` | indexer/kv_indexer.go:188-211 | the height in the extreme key, an error when that key has the wrong length, -1 without keys; in a store of the indexer's own keys the least or greatest height indexed |
| `TxIndex.SaveAllAt` | indexer/kv_indexer.go:227-236 | what each key holds after any number of saves: the last write to it, else what it held before |
| `TxIndex.SaveAllHolds` | indexer/kv_indexer.go:227-236 | entries with distinct hashes and places are all held afterwards, under both keys |
| `TxIndex.Reindex` | indexer/kv_indexer.go:63-135 | saving the same entries again changes nothing |
| `TxIndex.BatchWrite` | indexer/kv_indexer.go:66-134 | a batch collected aside and written at the end is the same as saving in order |
| `TxIndex.LookupHeld` | indexer/kv_indexer.go:148-173 | a held entry is found through its hash and through its place, both giving its record, except the all-zero record, which reads as missing |
| `TxIndex.ZeroRecordLost` | indexer/kv_indexer.go:148-173 | the record of zeros, saved, is found through neither key |
| `Decimal.ParsePrint` | rpc/types/events.go:246-266 | a number printed in decimal parses back if it is in the range asked for, and is refused otherwise |
| `Events.ParseCoherent` | rpc/types/events.go:92-153 | whatever the events, message indexes are positions, every hash leads to a position and every parsed hash can be looked up |
| `Events.ScanFormat1` | rpc/types/events.go:93-134 | old format: one transaction per event, in order, and a hash leads to the last transaction with it |
| `Events.ScanFormat2` | rpc/types/events.go:93-134 | new format: each full event replaces the announced transaction at its position, the rest stay as announced |
| `Events.FormatsAgree` | rpc/types/events.go:92-153 | the two formats of the same full events parse to the same transactions; announcements, right or wrong, leave no trace |
| `Events.AnnouncementsOnly` | rpc/types/events.go:136-151 | a transaction out of block gas, with announcements only, keeps every announced hash and index |
| `Events.HashLookupExact` | rpc/types/events.go:194-214 | new format, complete or not, any hash: the lookup finds message i if and only if i is the last message corrected to the hash or, when none was, the last announced with it |
| `Events.HashLookupFormat1` | rpc/types/events.go:179-214 | old format: the lookup finds message i if and only if i is the last message with the hash |
| `Events.WrongTransactionFound` | rpc/types/events.go:194-214 | a concrete stream in which looking up the first message's hash returns the second message |
| `Events.PanicsExactlyWhenOvertaken` | rpc/types/events.go:194-206 | in the new format the parser indexes out of range if and only if at some point more full events than announcements have arrived |
| `Events.AccumulativeGasUsed` | rpc/types/events.go:237-242 | the loop's result is the wrapped sum of the gas of the first messages, this one included |
| `Events.FillAttributes` | rpc/types/events.go:246-275 | attributes are applied in order; the first that does not parse ends it with an error |
| `Events.ParsedTxs.NewTx` | rpc/types/events.go:179-188 | a filled transaction is appended and its hash leads to it; an attribute that does not parse leaves everything alone |
| `Events.ParsedTxs.UpdateTxAt` | rpc/types/events.go:194-206 | the transaction at the position is replaced, a changed hash leads there too; out of range beyond the end |
| `Events.ParsedTxs.ScanEvents` | rpc/types/events.go:93-134 | the loop over the events, format detection included, computes the specified scan |
| `Events.ParsedTxs.ChargeTxs` | rpc/types/events.go:136-151 | the fix-ups in place: gas of a lone transaction, failed flags and gas limits of a failed one, or the panic |
| `Events.RunParse` | rpc/types/events.go:92-153 | the whole parser computes the function the results above are about, errors and panics included |
| `Indexing.MsgEntriesAt` | indexer/kv_indexer.go:94-129 | entry k of a transaction: its hash, place, and consecutive number in the block |
| `Indexing.StoredIff` | indexer/kv_indexer.go:71-129 | which messages the index stores: of an accepted Ethereum transaction whose events parse, all after an error code, else those with an event |
| `Indexing.PathsKnowTheSame` | rpc/backend/tx_info.go:359-382 | for every message position, index and search both know it or neither does, except for a failed transaction with fewer events than messages and for an event that belongs to no message of an Ethereum transaction |
| `Indexing.LookupPathsAgree` | rpc/types/events.go:156-176 | for every entry the index stores that has an event, the record the search builds from the event agrees in gas, failed flag, position and cumulative gas, wrap-around included; only the Ethereum index may differ |
| `Indexing.SearchByIndexExact` | rpc/backend/tx_info.go:338-356 | for every entry the index stores, the search by its index returns the stored record if and only if the message has an event, the transaction's first event carries the index counted for its first message, and this message's event carries its own |
| `Indexing.SearchByHashFormat2` | rpc/backend/tx_info.go:321-335 | for every entry the index stores, the search by its hash returns the stored record if and only if the hash leads to the message and the message's last event carries the counted index |
| `Indexing.SearchByHashFormat1` | rpc/backend/tx_info.go:321-335 | the same for events in the old format |
| `Indexing.StoredButNotSearched` | indexer/kv_indexer.go:104-108 | a concrete failed transaction without events: its message is stored and found by no search |
| `Indexing.SearchedButNotStored` | indexer/kv_indexer.go:83-85 | a concrete transaction without the extension option: its events are found and nothing is stored |
| `Indexing.IndexAgreesWithScan` | rpc/backend/blocks.go:266-302 | the index lists the messages of the block scan, in the same order, if and only if every transaction of the block is consistent |
| `Indexing.ScannedButNotIndexed` | indexer/kv_indexer.go:110-114 | a concrete block whose one message, successful without an event, is in the scan and not in the index |
| `Indexing.LookupByBlockAndIndex` | rpc/backend/tx_info.go:385-417 | index i of an indexed block leads to the message the block scan lists at place i, and to nothing past the end: the two branches of the lookup return the same message |
| `Indexing.EntriesNumbered` | indexer/kv_indexer.go:70-124 | the entries of a block carry its height and are numbered consecutively from 0, modulo 2^32 |
| `Indexing.IndexedIsNonZero` | indexer/kv_indexer.go:98-103 | no entry of a block above height 0 is the record of zeros |
| `KvIndexer.BuildEntry` | indexer/kv_indexer.go:95-123 | the loop body builds the specified record, or none for a message without a parsed event |
| `KvIndexer.IndexMessages` | indexer/kv_indexer.go:93-129 | the message loop extends batch, running index and running gas by exactly the transaction's entries |
| `KvIndexer.Indexer.IndexBlock` | indexer/kv_indexer.go:63-135 | the store afterwards is the old one with the block's entries saved in order, or untouched when the batch cannot be written |
| `KvIndexer.Indexer.FirstIndexedBlock` | indexer/kv_indexer.go:143-145 | the least indexed height, -1 when there is none |
| `KvIndexer.Indexer.LastIndexedBlock` | indexer/kv_indexer.go:138-140 | the greatest indexed height, -1 when there is none |
| `KvIndexer.EthMsgsFromBlock` | rpc/backend/blocks.go:266-302 | the two loops return exactly the Ethereum messages of the accepted, decodable transactions, in order |
| `IndexRuns.BlocksAreNumbered` | indexer/kv_indexer.go:63-135 | real blocks of fewer than 2^31 entries have entries numbered by height and position |
| `IndexRuns.IndexOneMore` | indexer/kv_indexer.go:63-135 | indexing one more block, or one again, turns the index of a set of blocks into the index of that set with the block |
| `IndexRuns.ExtremesOf` | indexer/kv_indexer.go:138-145 | first and last indexed block are the least and greatest of the indexed blocks that have entries |
| `IndexRuns.NextKeepsInv` | server/indexer_service.go:91-123 | every step of service, forward and backward run keeps: the store is the index of some set of blocks, and everything between its extremes, up to the session's cursor, was indexed or skipped |
| `IndexRuns.RunKeepsInv` | server/indexer_service.go:91-123 | so does every run from the empty store |
| `IndexRuns.NoGapIff` | server/indexer_cmd.go:96-124 | in such a state there is no gap between first and last indexed block if and only if no skipped block with entries lies between |
| `IndexRuns.NoGapExactlyWhenNothingSkipped` | server/indexer_service.go:107-122 | at every point of every run the index is complete between its first and last block if and only if no failed service write left out a block with entries in between |
| `IndexRuns.NoGapWhileWritesSucceed` | server/indexer_cmd.go:96-124 | while service writes succeed there is never a gap, however sessions are mixed and interrupted |
| `IndexRuns.HoleIsPermanent` | server/indexer_cmd.go:96-124 | a block left out inside the indexed range stays out whatever sessions follow |
| `IndexRuns.FailedWriteLeavesGap` | server/indexer_service.go:118-121 | a concrete run with one failed write after which block 2 is missing between blocks 1 and 3 |
| `IndexCommand.IndexHeight` | server/indexer_cmd.go:80-94 | the closure saves the block's entries, or fails and changes nothing |
| `IndexCommand.Forward` | server/indexer_cmd.go:111-124 | however the loop ends the runs' invariant is kept and nothing indexed is lost; when it ends well every block after the last indexed one, to the tip, is indexed |
| `IndexCommand.Backward` | server/indexer_cmd.go:97-110 | the same downwards: every block from 1 to below the first indexed one (below the tip when there was none) |
| `IndexCommand.ServicePass` | server/indexer_service.go:76-122 | one pass while new headers move its goal: it ends at the goal or at a block that cannot be fetched, passes over a block that cannot be written, and indexes the others; the runs' invariant is kept |
| `Reconciliation.ParseBalanceKey` | app/reconciliation.go:180-184 | the denom of a balance key is recovered, without a panic, if and only if the address has 20 bytes |
| `Reconciliation.LongAddressMisread` | app/reconciliation.go:180-184 | the balance of a 32-byte address is read under a longer denom |
| `Reconciliation.SumRemove` | app/reconciliation.go:65-102 | a sum over changed keys does not depend on the order the map yields them |
| `Reconciliation.SumCovered` | app/reconciliation.go:56-160 | for any two ways of valuing keys that agree outside the diff, the change summed over the diff is the change summed over both stores |
| `Reconciliation.DiffChangeIsGlobalChange` | app/reconciliation.go:56-111 | per denom, the change summed over a diff that covers all changes is the change of the whole ledger's total |
| `Reconciliation.ReconBankChanges` | app/reconciliation.go:56-111 | the loop reports balance if and only if in every denom total supply and total balances changed by the same amount |
| `Reconciliation.SupplyIsOneKey` | app/reconciliation.go:196-199 | the supply side of a denom is the amount under its one supply key |
| `Reconciliation.BalanceKeysCounted` | app/reconciliation.go:180-184 | in a well-formed store a key counts towards a denom's balances exactly when it is the balance key of some 20-byte address in that denom |
| `Reconciliation.FlowDiffIsGlobal` | app/reconciliation.go:114-160 | net flow rates over the diff agree if and only if the whole payment ledger's net flow is unchanged |
| `Reconciliation.ReconPaymentChanges` | app/reconciliation.go:114-160 | the loop reports balance if and only if the net flow over the diff is unchanged, and so, when the diff covers all changes, if and only if the net flow of all stream records is |
| `Reconciliation.Reconciler.Reconcile` | app/reconciliation.go:32-53 | skipped up to height 2; refuses to go on after a recorded height; otherwise records the height if and only if one of the ledgers is out of balance, and clears both diffs |
| `Reconciliation.Reconciler.EndBlock` | app/app.go:893-907 | a node whose record is that of the run so far has, after the end of the next block, the record of the run with that block; it panics exactly when a height is already recorded |
| `Reconciliation.RecordsFirstImbalance` | app/reconciliation.go:32-53 | over a run of blocks, the recorded height is the first unbalanced one, and there is none if and only if all are balanced |
| `Reconciliation.LedgerStaysSound` | app/app.go:893-907 | along every run that has recorded nothing, supply equals balances after every block if and only if it did at the start, and the net flow is still the initial one |
| `Reconciliation.BrokenLedgerIsRecorded` | app/app.go:893-907 | if a block breaks a sound ledger, the node has recorded a height no later than the block after it |
| `FeeHistory.PercentileUnique` | rpc/backend/utils.go:209-221 | a block and a threshold determine the reward at that percentile |
| `FeeHistory.PercentileMonotone` | rpc/backend/utils.go:209-221 | a higher threshold never gives a lower reward |
| `FeeHistory.StandsAtPercentile` | rpc/backend/utils.go:211-221 | where the cursor over the sorted list stands is the percentile of the unsorted block |
| `FeeHistory.Advance` | rpc/backend/utils.go:216-219 | the inner loop moves to the first prefix that has used the threshold, or to the end, keeping the 64-bit sum |
| `FeeHistory.Rewards` | rpc/backend/utils.go:203-221 | for thresholds in any order, reward i is the percentile of the greatest threshold up to i, all zero for a block without transactions; never decreasing |
| `FeeHistory.RewardsCanonical` | rpc/backend/utils.go:209-221 | so an unstable sort does not matter: any two such reward lists are equal |
| `FeeHistory.ParseTxLogs` | rpc/backend/utils.go:263-278 | the logs of one event in order, or an error if one does not read |
| `FeeHistory.AllTxLogs` | rpc/backend/utils.go:227-242 | the logs of every log event in order, or an error if one does not read |
| `FeeHistory.TxLogs` | rpc/backend/utils.go:245-260 | the countdown returns log event number msgIndex, an error past the end; it agrees with the list of all logs |
| `Ledger.ExchangeResult` | wallets/usbwallet/ledger.go:369-432 | feeding the sent packets back gives as much of the body as the 16-bit length says, without the two status bytes |
| `Ledger.RoundTripIff` | wallets/usbwallet/ledger.go:369-432 | what the receive loop rebuilds from the send loop's packets is the body without its last two bytes, if and only if the body is shorter than 2^16 |
| `Ledger.LongMessageLost` | wallets/usbwallet/ledger.go:369-432 | 65531 bytes of data wrap the length to 0, and slicing the empty reply panics |
| `Ledger.Device.SendAll` | wallets/usbwallet/ledger.go:378-400 | one buffer, refilled and cut to length each turn, writes exactly the numbered packets of the message |
| `Ledger.Device.ReceiveAll` | wallets/usbwallet/ledger.go:401-432 | the receive loop, reading 64 bytes at a time from the stream, computes the reassembly; header mismatches and an input that ends early are errors |
| `Challenge.SegmentsPositive` | x/challenge/keeper/helper.go:45-53 | a non-empty object has a segment, and every segment index drawn below the count starts inside the object |
| `Challenge.CandidateEligible` | x/challenge/abci.go:56-115 | what passes the filters is a sealed non-empty object, a provider serving it at that index that may be challenged and was not slashed, and a segment inside the object |
| `Challenge.CandidateExact` | x/challenge/abci.go:56-115 | the filters turn a draw down if and only if it names no eligible target |
| `Challenge.PairKeyInjective` | x/challenge/abci.go:97 | different pairs of provider and object have different text keys |
| `Challenge.PickedSound` | x/challenge/abci.go:55-135 | every picked target is eligible and was drawn, and no pair of provider and object is picked twice |
| `Challenge.PickedComplete` | x/challenge/abci.go:55-135 | no eligible draw is missed |
| `Challenge.Keeper.SaveChallenge` | x/challenge/keeper/challenge.go:34-43 | the id becomes the latest one and its expiry is stored |
| `Challenge.Keeper.EndBlocker` | x/challenge/abci.go:36-142 | the events are exactly the picked targets of the first draws, as many as are needed and no more, stopping at the first draw that suffices or after ten per missing challenge; ids are consecutive modulo 2^64, and the stored challenges are the old ones with these saved |
| `Grn.BucketNameCharacters` | types/s3util/s3util.go:22-43 | a valid bucket name has no colon, slash or star |
| `Grn.HasBadPathComponent` | types/s3util/s3util.go:103-114 | the loop finds a component that trims to one or two dots if and only if there is one |
| `Grn.SplitNameExact` | types/grn.go:194-213 | an object's name splits into its bucket and object if and only if both are valid names |
| `Grn.SplitNameSound` | types/grn.go:194-213 | whatever splits, splits into valid names that join to it again |
| `Grn.MatchExact` | types/grn.go:20-23 | the match is the one reading of the string in the grammar, and fails if and only if there is none |
| `Grn.RoundTripIff` | types/grn.go:54-192 | a constructed bucket, object or group parses from its printed form if and only if its name is not empty and is one the parser admits |
| `Grn.PrintsBackIff` | types/grn.go:136-192 | an accepted bucket or object string is printed back unchanged if and only if its name is not empty |
| `Grn.EmptyNameAccepted` | types/grn.go:136-192 | an empty name is accepted only with wildcards, and never for an object |
| `Grn.EmptyBucketLost` | types/grn.go:54-67 | `grn:b::` is accepted with wildcards and printed as a string that is not |
| `Grn.AcceptedReparses` | types/grn.go:136-192 | an accepted string with a name prints to a string that is accepted with the same fields |
| `Grn.GRN.ParseFromString` | types/grn.go:136-192 | the receiver's fields afterwards, on success and on every error, and whether it succeeded |
| `Grn.GRN.GetBucketAndObjectName` | types/grn.go:92-104 | both names, valid and joining to the name held, or an error if and only if the resource is no object or its name does not split |
| `Multisig.GasMeter.ConsumeGas` | types/gasmeter.go:73-89 | the amount is added, or on overflow the meter is left at 0 and panics |
| `Multisig.GasExact` | app/ante/sigverify.go:50-103 | for keys nested to any depth: accepted if and only if every selected leaf is an Ethereum key, each set bit has a key at its position and a signature at its rank, and the meter has room; it has then grown by 21000 for each selected leaf |
| `Multisig.SigVerificationGasConsumer` | app/ante/sigverify.go:50-76 | the method on the mutable meter computes that verdict and that meter, errors and panics included |
| `Multisig.ConsumeMultisignature` | app/ante/sigverify.go:79-103 | so does the loop over the bits with its signature counter |
| `Sequence.DecodeEncode` | internal/sequence/sequence.go:78-109 | every 32-bit and every 256-bit value is read back from the bytes it is stored as |
| `Sequence.EncodeDecodeIff` | internal/sequence/sequence.go:78-109 | writing back what was read keeps the bytes if and only if they were canonical: four bytes, or no leading zero |
| `Sequence.NextStep` | internal/sequence/sequence.go:27-33 | NextVal hands out one more than the current value modulo the width, which is then the current value; it panics only on bad bytes or at the 256-bit maximum, and touches no other key |
| `Sequence.RunCounts` | internal/sequence/sequence.go:27-40 | over any interleaving of calls on fresh counters, each counter stands at the number of its calls modulo its width, and the run panics if and only if a 256-bit counter is drawn 2^256 times |
| `Sequence.NextVal` | internal/sequence/sequence.go:27-33 | the method takes that step on the store |
| `Sequence.CurVal` | internal/sequence/sequence.go:36-40 | the last value handed out, 0 if none |
| `Sequence.InitVal` | internal/sequence/sequence.go:48-54 | refused if and only if the key exists; otherwise the start value is current and no other key changes |

## Left out

- `TxResultCodec.Message.Unmarshal`: io.ErrUnexpectedEOF and the generated "negative length" error are one error, `Truncated`: which of the two a length near 2^63 gives depends on the cursor's wrap-around.
- `ApprovalCodec.Message.Unmarshal`: the same, and a nil and an empty signature are not told apart.
- `Varint.DecodeVarint`: groups are added rather than or-ed; `Varint.OrOfDisjointIsSum` is the reason this is the same.
- `ApprovalCodec.RoundTrip`: a nil and an empty signature are not told apart.
- Library calls enter as parameters or by contract: JSON logs, transaction decoding, sorting, IAVL diffs, address text forms, white space trimming and UTF-8 validity.
- `KvIndexer.Indexer.IndexBlock`: requires `Safe` blocks; on others the original panics on a type assertion or an index. Failures of single batch operations before the write are not modelled.
- `KvIndexer.EthMsgsFromBlock`: returns positions; that each returned message has its hash field overwritten with the hash of its transaction is not modelled.
- `Indexing.SearchByHashFormat2`: the search, like that of the other search lemmas, is given the transaction it found; which transaction CometBFT returns first for a query is not modelled. Positions are below 2^32, the width they are stored in.
- `IndexCommand.ServicePass`: one pass with finitely many headers arriving in it; the endless loop and the waiting are steps of `IndexRuns` instead.
- `IndexRuns.NextKeepsInv`: blocks have distinct message hashes over the whole chain and fewer than 2^31 entries each; the stored history of indexed and skipped blocks is for the proof only.
- `Indexing.LookupByBlockAndIndex`: supposes distinct hashes within the block and transactions consistent in the sense of `Indexing.IndexAgreesWithScan`.
- `Reconciliation.ReconBankChanges`: keys are long enough to slice, as the bank module writes them; denominations are not validated, amounts are unbounded, and each ledger is one store with the versions passed in.
- `Reconciliation.Reconciler.Reconcile`: the marker for an unbalanced height is a field, not eight bytes in a store; the store it is written to and the one it is read from, looked up by differently built keys, are taken to be one.
- `FeeHistory.Rewards`: the percentile is claimed when the block's gas sums below 2^64, as the 64-bit running sum wraps; beyond that only order and length. Thresholds are given as gas amounts: the floating-point product is not modelled, nor how the rewards are collected from the block.
- `Ledger.RoundTripIff`: sending and receiving are joined directly; the device's own behaviour, USB errors and the flattening of derivation paths are not modelled.
- `Challenge.Keeper.EndBlocker`: draws are parameters, so hashing of the random mix is not modelled; slashes are a set of pairs rather than hashed keys; expiry and attestation of challenges are not modelled.
- `Grn.RoundTripIff`: group owners are 20-byte addresses whose text form reads back, which is what the address library promises.
- `Multisig.GasExact`: refunds, limits and the read-write gas of the meter are not modelled.
- `Sequence.InitVal`: start values of the counter's own width, as its type demands.
- Not modelled because they would only add easy members: other generated protobuf files, JSON-RPC formatting, receipts and block assembly, genesis, parameter checks, message handlers, CLI wiring.
- Not modelled: cryptography, the EVM, consensus, networking, wallet discovery over USB.
