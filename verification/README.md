# Verified model of the continuum chain's hard core

A Dafny model of the parts of this Cosmos EVM chain whose correctness only shows over whole runs, and proofs
about it. `dafny verify dfyconfig.toml` checks everything; no file includes another.

| area | modules | what is proved |
|---|---|---|
| block building | `TxOrder`, `PriceNonceHeap`, `Selection`, `MempoolIterator` | The price heap over per-account nonce lists refines "scan every account, take the best". The merge with the Cosmos stream is an exact interleaving. `SelectBy` ends for any callback. |
| transaction pool | `ResetLoop`, `BatchAdd`, `Admission` | The reset protocol as a step machine: serial contiguous resets, honest `Sync`, progress. Batch errors return to the right transaction. Admission keeps the pool sound. |
| distribution export | `Coins`, `DistrStore`, `SyntheticRatio`, `DistrRepair`, `GenesisRefs`, `ZeroHeightSweep` | Reference-count repair is exact, deterministic and idempotent, and satisfies the independent recount of genesis validation. The zero-height sweep conserves value. |
| EIP-712 | `Json`, `JsonPath`, `Eip712Schema`, `Eip712Laws`, `Eip712Cases`, `Eip712Depth`, `Eip712Fields`, `Eip712Types`, `Flatten` | The generated schema is closed, overwrites nothing, means what path lookup sees in each message, describes its JSON fields at every depth, and ignores key order. Flattening loses nothing. |
| Web3 codec | `Varint`, `Web3Wire`, `Web3Codec` | The back-to-front writer and the decoding loops meet their grammar; round trip; unknown fields. |
| ledger and index | `MapSum`, `Erc20`, `BigEndian`, `KvIndex`, `FeeChecker` | ERC-20 accounting over every sequence of calls, the index agrees with the lists it speeds up, fee bounds. |

Code that updates objects, slices or buffers is modelled as classes and methods with loops, each proved against a
specification function; the laws are lemmas about those functions. Error returns are results. A precondition of a
modelled operation names what makes the Go code panic (`Shift` on an empty heap, an empty account list, zero Cosmos
gas, a buffer that is too short) or is an invariant that its callers keep.

## Where the code and its documentation part

- The comment on `pickSyntheticHistoricalRatio` (evmd/export.go:76-83) promises under-counting. `NeverOverpaysIff`
  shows when that holds: the period itself or a later one must survive. `LostRatioCanBeHigher` covers all other cases.
- Two overlapping `Sync` calls (mempool/txpool/txpool.go:252-253): the second replaces the first waiter, which is then
  never answered (`OverlappingSyncIsLost`). `RequestLostIff` says exactly which requests are lost.
- When an EVM transaction does not convert, `Tx` shows the Cosmos head while `Next` consumes the EVM one
  (mempool/iterator.go:209-216 and 226-234). The Cosmos transaction is shown again later: `FailedConversionShowsCosmosTwice`,
  with the exact condition in `FullSelectionShowsAllIff`.
- A payload with `msgs: null` flattens like one with `msgs: []` (`NullCollidesWithEmpty`); `FlattenIsInjectiveIff` shows
  that nothing else is lost.
- `recursivelyAddTypesToRoot` looks fields up by path (ethereum/eip712/types.go:160). A key with a dot is therefore skipped or
  gets another value's type: `DottedKeyIsNotListed`, `DottedKeyGetsAnotherType`. `WalkDescribesOwnFieldsIff` and
  `SchemaDescribesMessageIff` give the exact condition, key by key, for the definition that EIP-712 asks for.
- The keys are sorted so that types are generated deterministically (ethereum/eip712/types.go:151). Field order still shows
  under a key that is a wildcard: `QueryKeySeesOrder`. It does not without such keys: `SchemaIgnoresKeyOrder`.
- A transaction hash indexed at two heights: the lookup at the first returns the later result
  (`RepeatedHashReturnsTheLater`). `LookupReturnsTheLatest` says what is returned for any blocks, and
  `OwnResultIsFoundIff` when it is the entry's own result.
- EIP-20 treats transfers of zero as normal; here coin validation refuses them (precompiles/erc20/tx.go:81-83):
  `ZeroTransferIsRefused`, with the exact condition for success in `TransferSucceedsIff`.
- `transferFrom` asks for an allowance even when the caller is the owner, unlike its comment (precompiles/erc20/tx.go:64-65):
  `OwnerNeedsAllowance`, `TransferFromSucceedsIff`, and over whole runs `UngrantedNeverTransfers`.
- The doc comment of `Approve` (precompiles/erc20/approve.go:21-26) announces four cases and lists five; all five are modelled.
- Above 10^18 gas the truncated fee cap can lose whole units: `WholeOfferCanBeMissed`, with the exact condition in
  `WholeOfferIsChargedIff`.

## Model

| member | source | states |
|---|---|---|
| `TxOrder.ScanRunAppend` | mempool/miner/ordering.go:131-149 | one more pick after a run of picks is a run again |
| `TxOrder.RunTakesPrefixes` | mempool/miner/ordering.go:139-149 | whatever was emitted so far, each account's queue is what it emitted, in nonce order, followed by what it still has |
| `TxOrder.RunFees` | mempool/miner/ordering.go:40-56 | every emitted fee is the lesser of tip cap and fee cap less base fee: within both, equal to one of them; its transaction pays the base fee |
| `TxOrder.WorkDecreases` | mempool/miner/ordering.go:139-149 | each step consumes exactly one transaction, so a run ends |
| `TxOrder.DrainEmitsEveryQueue` | mempool/miner/ordering.go:102-149 | a complete run emits each account's queue exactly: nothing lost, repeated or reordered |
| `TxOrder.DrainIsUnique` | mempool/miner/ordering.go:102-149 | without full (tip, time) ties between accounts the emitted order is fixed, whatever order the account map was walked in |
| `TxOrder.DrainSortedIff` | mempool/miner/ordering.go:63-71 | the whole drain goes from higher to lower tips, and among equal tips from earlier to later, if and only if every account's own nonce order already does |
| `PriceNonceHeap.NewTxWithMinerFee` | mempool/miner/ordering.go:40-56 | fails exactly when the fee cap is below the base fee; otherwise carries the exact tip, and the 256-bit subtraction does not wrap |
| `PriceNonceHeap.Less` | mempool/miner/ordering.go:63-71 | the slice comparison is the price-then-time order of the reference scan |
| `PriceNonceHeap.RootIsBest` | mempool/miner/ordering.go:131-136 | in a heap under that order nothing beats the root |
| `PriceNonceHeap.Down` | mempool/miner/ordering.go:139-149 | sifting down restores the heap below the start, keeps the elements, and reports no move only when none was needed |
| `PriceNonceHeap.Up` | mempool/miner/ordering.go:139-149 | sifting up restores the heap and keeps the elements |
| `PriceNonceHeap.InitHeap` | mempool/miner/ordering.go:119 | building the heap orders any list of heads and keeps its elements |
| `PriceNonceHeap.FixHeap` | mempool/miner/ordering.go:144 | after any replacement at one index the heap is restored and the elements are kept |
| `PriceNonceHeap.PopHeap` | mempool/miner/ordering.go:78-85 | the root is removed, once, and the rest is a heap |
| `PriceNonceHeap.OneHeadPerAccount` | mempool/miner/ordering.go:86-95 | no account ever has two heads |
| `PriceNonceHeap.CollectHeads` | mempool/miner/ordering.go:110-118 | the heads collected are the first transactions of exactly the accounts whose first transaction pays |
| `PriceNonceHeap.TransactionsByPriceAndNonce.constructor` | mempool/miner/ordering.go:102-128 | what it will emit is, per account, the longest prefix that pays the base fee |
| `PriceNonceHeap.TransactionsByPriceAndNonce.Empty` | mempool/miner/ordering.go:160-162 | empty exactly when no account has anything left |
| `PriceNonceHeap.TransactionsByPriceAndNonce.Peek` | mempool/miner/ordering.go:131-136 | the root is a pick that the naive scan of every account could make |
| `PriceNonceHeap.TransactionsByPriceAndNonce.Shift` | mempool/miner/ordering.go:139-149 | takes a pick of the naive scan and leaves exactly the state the scan would have |
| `PriceNonceHeap.TransactionsByPriceAndNonce.Pop` | mempool/miner/ordering.go:154-156 | forgets the best head's account and no other |
| `PriceNonceHeap.TransactionsByPriceAndNonce.Clear` | mempool/miner/ordering.go:165-167 | nothing is left to emit |
| `Selection.ScheduleAppend` | mempool/iterator.go:75-98 | one more permitted step after a schedule is a schedule again |
| `Selection.LastAmountIff` | mempool/iterator.go:258-265 | the amount used is that of the last coin in the bond denomination, and zero if there is none |
| `Selection.TipIsExact` | mempool/iterator.go:251-292 | (tip + base fee) times gas is at most the amount, and (tip + base fee + 1) times gas is more; zero below the base fee, above 256 bits and without fees |
| `Selection.HigherPayerGoesFirst` | mempool/iterator.go:135-164 | at every step of a run a Cosmos transaction goes before the EVM fronts on offer only if its amount pays (fee + base fee + 1) times gas for each of them, and an EVM transaction goes before it only if not |
| `Selection.ScheduleInterleaves` | mempool/iterator.go:75-98 | a selection interleaves a run of the EVM order with a prefix of the Cosmos stream, both in order, one transaction per step |
| `Selection.CompleteScheduleIsExact` | mempool/iterator.go:75-98 | a complete selection takes every eligible EVM transaction and every Cosmos transaction exactly once |
| `Selection.CompleteScheduleIsUnique` | mempool/iterator.go:135-164 | without full ties between accounts the complete selection is determined by the pool contents |
| `Selection.VisitsAreConsumedIff` | mempool/iterator.go:196-222 | the callback sees exactly what is consumed if and only if every taken EVM transaction converts |
| `Selection.CosmosIsShown` | mempool/iterator.go:196-222 | a Cosmos transaction is shown as often as it is taken, plus once for every unconvertible EVM transaction taken while it heads the stream |
| `MempoolIterator.EVMMempoolIterator.NextEVMTx` | mempool/iterator.go:167-172 | the EVM candidate is a pick of the naive scan |
| `MempoolIterator.EVMMempoolIterator.ExtractCosmosEffectiveTip` | mempool/iterator.go:251-292 | the tip that the amount of the last bond-denomination coin pays per gas above the base fee, by inequalities; zero below it, above 256 bits and without fees |
| `MempoolIterator.EVMMempoolIterator.NextCosmosTx` | mempool/iterator.go:175-192 | the head of the Cosmos stream with its tip |
| `MempoolIterator.EVMMempoolIterator.ShouldUseEVM` | mempool/iterator.go:135-164 | EVM unless the Cosmos tip is strictly higher; Cosmos if there is no EVM transaction |
| `MempoolIterator.EVMMempoolIterator.NextStep` | mempool/iterator.go:135-164 | the step taken next is one the reference schedule permits: Cosmos beats every account's front strictly |
| `MempoolIterator.EVMMempoolIterator.Tx` | mempool/iterator.go:103-120 | shows what the next step takes, or the Cosmos head if an EVM transaction does not convert |
| `MempoolIterator.EVMMempoolIterator.AdvanceCurrentIterator` | mempool/iterator.go:225-247 | consumes from exactly one side, as the step says |
| `MempoolIterator.EVMMempoolIterator.HasMoreTransactions` | mempool/iterator.go:327-331 | true exactly when one side is not used up |
| `MempoolIterator.EVMMempoolIterator.Next` | mempool/iterator.go:75-98 | advances by exactly the announced step and ends exactly when both sides are used up |
| `MempoolIterator.CosmosAboveAll` | mempool/iterator.go:157-163 | a Cosmos tip above the EVM candidate is above every account's front |
| `MempoolIterator.ShowNext` | mempool/mempool.go:389-394 | one turn: shows the next transaction, and moves on by exactly that step if the callback agrees |
| `MempoolIterator.Drain` | mempool/mempool.go:383-395 | for any callback and any failing conversions the loop ends, shows a schedule, and stops early only when the callback says so |
| `MempoolIterator.SelectBy` | mempool/mempool.go:383-395 | from raw pending lists: the same, starting from the longest paying prefixes; `Selection.HigherPayerGoesFirst` says in amounts who goes first in such a schedule |
| `MempoolIterator.WillingSelectionIsComplete` | mempool/mempool.go:383-395 | a callback that accepts to the end is shown a schedule that leaves nothing on either side |
| `MempoolIterator.FullSelectionIsExact` | mempool/mempool.go:383-395 | a run to the end takes each account's longest paying prefix in nonce order and the whole Cosmos stream, once each |
| `MempoolIterator.FullSelectionShowsAllIff` | mempool/mempool.go:383-395 | what is shown is what is taken if and only if every eligible EVM transaction converts |
| `MempoolIterator.FailedConversionShowsCosmosTwice` | mempool/iterator.go:206-234 | a pool of one unconvertible EVM transaction and one Cosmos transaction of no higher tip: every complete selection shows the Cosmos one twice and nothing else |
| `ResetLoop.InFlightKept` | mempool/txpool/txpool.go:178-245 | each step keeps busy token, background reset and heads in agreement |
| `ResetLoop.NothingForgottenKept` | mempool/txpool/txpool.go:178-245 | a loop that waits without a reset running has no new head and no forced reset left to serve |
| `ResetLoop.WaitersKept` | mempool/txpool/txpool.go:219-252 | each step keeps every answer justified and every request accounted for |
| `ResetLoop.EveryRunKeeps` | mempool/txpool/txpool.go:149-258 | all three invariants hold in every reachable state |
| `ResetLoop.ResetsAreSerialAndContiguous` | mempool/txpool/txpool.go:149-258 | in every run at most one reset is in flight, each starts where the previous one ended, and an idle waiting loop has reset to the latest head |
| `ResetLoop.SyncIsHonest` | mempool/txpool/txpool.go:488-496 | a Sync that returned nil saw a whole reset that began after it asked, and nobody is answered twice |
| `ResetLoop.RequestLostIff` | mempool/txpool/txpool.go:243-253 | in a stopped pool a Sync request went unanswered if and only if another arrived before its answer |
| `ResetLoop.OverlappingSyncIsLost` | mempool/txpool/txpool.go:243-253 | a run of the pool that stops with the first of two requests never answered |
| `ResetLoop.SettlesByItself` | mempool/txpool/txpool.go:178-245 | left alone, a running pool always has a step to take until it is up to date with nobody waiting, and each one lowers a measure of at most eight |
| `ResetLoop.InternalRunsSettle` | mempool/txpool/txpool.go:178-245 | from any reachable state of a running pool every run of internal steps has at most eight, and one that cannot go on ends up to date with nobody waiting |
| `ResetLoop.AlwaysListens` | mempool/txpool/txpool.go:224-253 | in every reachable state that is not stopped, a new head, the end or a request from somebody new is taken at once or after one decision, reset running or not |
| `BatchAdd.FirstAccepting` | mempool/txpool/txpool.go:347-354 | the first subpool whose filter accepts, or -1 when none does |
| `BatchAdd.SplitBatch` | mempool/txpool/txpool.go:340-355 | each subpool gets, in order, the transactions it is the first to accept |
| `BatchAdd.RankIsItsPlace` | mempool/txpool/txpool.go:343-372 | a transaction stands at its rank in its subpool's share |
| `BatchAdd.RanksDiffer` | mempool/txpool/txpool.go:363-372 | no error is handed out twice |
| `BatchAdd.EveryPlaceIsARank` | mempool/txpool/txpool.go:363-372 | no error is dropped |
| `BatchAdd.Add` | mempool/txpool/txpool.go:333-374 | errs[i] is what the first accepting subpool said about transaction i, or the type error; it panics exactly when a subpool returns too few errors |
| `Admission.FirstGap` | mempool/txpool/validation.go:191-195 | the first nonce from the account nonce on that the pool does not hold |
| `Admission.AdmittedKeepsSound` | mempool/txpool/validation.go:216-266 | admitting a transaction keeps cost sum, nonces, gap freedom and slot limit of the whole pool |
| `Admission.AdmittedIff` | mempool/txpool/validation.go:216-266 | with non-negative pooled costs a transaction is admitted if and only if the pool with it is sound |
| `Admission.OffersKeepSound` | mempool/txpool/validation.go:216-266 | no sequence of inserts and replacements ever overdraws an account or breaks another promise |
| `SyntheticRatio.PickSyntheticHistoricalRatio` | evmd/export.go:84-126 | the period's own ratio, else the nearest later one's, else the nearest earlier one's, else none |
| `SyntheticRatio.PickIsUnique` | evmd/export.go:84-126 | that choice does not depend on map order |
| `SyntheticRatio.PicksAreNonDecreasing` | evmd/export.go:84-126 | filling in lost periods keeps non-decreasing ratios non-decreasing |
| `SyntheticRatio.NeverOverpaysIff` | evmd/export.go:76-83 | rewards never exceed those from any ratio the lost row can have had, if and only if the period or a later one survives |
| `DistrRepair.BumpAll` | evmd/export.go:167-184 | counts every reference, and fails exactly when some row would pass two |
| `DistrRepair.PlanExisting` | evmd/export.go:237-280 | deletes exactly the unreferenced rows and corrects exactly the wrong counts |
| `DistrRepair.PlanCreates` | evmd/export.go:282-303 | synthesises exactly the referenced rows that are missing, with the picked ratio |
| `DistrRepair.SetAll` | evmd/export.go:315-329 | applies the planned writes and nothing else |
| `DistrRepair.DeleteAll` | evmd/export.go:307-313 | removes the planned keys and nothing else |
| `DistrRepair.PlanIsRepair` | evmd/export.go:237-329 | delete, then create, then update amounts to the repaired store |
| `DistrRepair.DistrKeeper.CountReferences` | evmd/export.go:163-235 | fails exactly when more than two rows refer to one historical row; otherwise the counts are the numbers of rows that do |
| `DistrRepair.DistrKeeper.RepairDistrReferenceCounts` | evmd/export.go:145-339 | a row exists iff some current, starting or slash row refers to it, and its count is the number of those rows; the cap error, at more than two, comes before any write |
| `DistrRepair.SurvivingRowsKeepTheirRatio` | evmd/export.go:145-339 | rows that were there keep their ratio |
| `DistrRepair.RepairIsDeterministic` | evmd/export.go:145-339 | the repaired store does not depend on iteration order |
| `DistrRepair.RepairIsIdempotent` | evmd/export.go:145-339 | a second repair changes nothing |
| `DistrRepair.RepairKeepsRatiosNonDecreasing` | evmd/export.go:282-303 | non-decreasing ratios stay non-decreasing with all synthesised rows |
| `DistrStore.CurrentRefsIff` | evmd/export.go:188-200 | a current-rewards row refers to the period before its own, and to nothing at period zero |
| `DistrStore.ReferencesCount` | evmd/export.go:188-235 | the references to a historical row are one for each current row one period later, each starting row with that previous period and each slash with that validator period |
| `GenesisRefs.IndexHistorical` | evmd/cross_genesis.go:220-226 | the rows by key |
| `GenesisRefs.IndexCurrent` | evmd/cross_genesis.go:228-234 | fails exactly on a row of period zero |
| `GenesisRefs.CheckStarting` | evmd/cross_genesis.go:246-269 | fails exactly on a row that does not precede its validator's current period; otherwise the count of a key is the number of rows with that validator and previous period |
| `GenesisRefs.CheckSlashes` | evmd/cross_genesis.go:271-298 | fails exactly on an inconsistent slash event; otherwise a count grows by the number of slashes with that validator and validator period |
| `GenesisRefs.Required` | evmd/cross_genesis.go:246-371 | the rows that refer to a historical row are the references recounted from starting rows, slashes and the current period |
| `GenesisRefs.CheckValidators` | evmd/cross_genesis.go:328-371 | passes exactly when each known validator has current rewards and every required row exists with enough references |
| `GenesisRefs.CheckKnown` | evmd/cross_genesis.go:399-441 | fails exactly on a row of an unknown validator |
| `GenesisRefs.ValidateHistoricalReferences` | evmd/cross_genesis.go:214-441 | accepts exactly the states whose rows fit together and whose references are all backed |
| `GenesisRefs.RequiredAtMostRefs` | evmd/cross_genesis.go:246-298 | validation never asks for more references than repair counts |
| `GenesisRefs.RepairSatisfiesValidation` | evmd/cross_genesis.go:328-371 | in a repaired store every historical reference that validation recounts is backed, given consistent other rows |
| `GenesisRefs.ValidateRepaired` | evmd/cross_genesis.go:214-441 | a repaired store is accepted if and only if the rows that repair does not touch are consistent |
| `ZeroHeightSweep.SweepRows` | evmd/export.go:378-399 | the pool gains exactly what was outstanding, per denomination |
| `ZeroHeightSweep.DistrModule.ResetDistribution` | evmd/export.go:378-438 | nothing but the community pool is left and it holds exactly what was owed |
| `ZeroHeightSweep.CheckBankDistribution` | evmd/cross_genesis.go:183-212 | accepts exactly when the module account holds the whole units owed in every denomination |
| `ZeroHeightSweep.SweepKeepsBankCheck` | evmd/cross_genesis.go:183-212 | the check answers the same after the sweep as before it |
| `Varint.SovIsExact` | ethereum/eip712/web3.pb.go:176-178 | the computed varint size is the number of bytes written |
| `Varint.EncodingIsCanonical` | ethereum/eip712/web3.pb.go:145-155 | the bytes are seven bits each, lowest first, the top bit set on all but the last, and no more bytes than needed |
| `Varint.DecodeIsLocal` | ethereum/eip712/web3.pb.go:188-201 | reading stops at the end of the varint, whatever follows |
| `Varint.ReadBack` | ethereum/eip712/web3.pb.go:188-201 | every uint64 written as a varint is read back |
| `Varint.DecodeMeans` | ethereum/eip712/web3.pb.go:188-201 | a varint that ends within ten bytes is read as its number modulo 2^64; ten bytes without an end overflow, fewer are an unexpected end |
| `Varint.ReadVarint` | ethereum/eip712/web3.pb.go:188-201 | the shift loop against the reference decoder, with its overflow and end-of-input errors |
| `Web3Wire.ParseConcat` | ethereum/eip712/web3.pb.go:182-316 | decoding a concatenation is decoding the second part into the result of the first |
| `Web3Wire.EncodeIsFields` | ethereum/eip712/web3.pb.go:118-143 | the bytes are the generic protobuf encoding of field 1 as a varint and fields 2 and 3 as bytes, in that order, each there exactly when it is not at its default |
| `Web3Wire.RoundTrip` | ethereum/eip712/web3.pb.go:103-316 | decoding an encoded message gives it back; into a used message it overwrites the fields it carries |
| `Web3Wire.SkipUnknown` | ethereum/eip712/web3.pb.go:317-394 | a well-formed field, groups included, is stepped over exactly at any depth and whatever follows |
| `Web3Wire.SkipUnknowns` | ethereum/eip712/web3.pb.go:317-394 | the same for any list of fields inside a group |
| `Web3Wire.UnknownIsIgnored` | ethereum/eip712/web3.pb.go:296-309 | an unknown field is consumed whole and changes nothing |
| `Web3Wire.AppendingUnknownChangesNothing` | ethereum/eip712/web3.pb.go:296-309 | whatever decodes still decodes to the same message with an unknown field appended |
| `Web3Wire.BadTagIsRefused` | ethereum/eip712/web3.pb.go:203-310 | the error for an end-group tag, field number zero, a known field of another wire type and an unknown one of no wire type, whatever follows |
| `Web3Codec.SizeIsExact` | ethereum/eip712/web3.pb.go:156-174 | Size is the length of the encoding |
| `Web3Codec.EncodeVarint` | ethereum/eip712/web3.pb.go:145-155 | the varint ends right before the offset and nothing else in the buffer changes |
| `Web3Codec.WriteBytesField` | ethereum/eip712/web3.pb.go:123-136 | payload, length and tag, back to front, fill exactly their bytes |
| `Web3Codec.MarshalToSizedBuffer` | ethereum/eip712/web3.pb.go:118-143 | the end of the buffer is exactly the protobuf encoding of the fields that are not at their default, and the front is untouched |
| `Web3Codec.Marshal` | ethereum/eip712/web3.pb.go:103-111 | the protobuf encoding of the fields that are not at their default, in number order |
| `Web3Codec.SkipField` | ethereum/eip712/web3.pb.go:317-394 | the skip loop against the reference, for every byte string |
| `Web3Codec.ReadField` | ethereum/eip712/web3.pb.go:186-309 | one turn of the decoding loop against the reference, with every index check |
| `Web3Codec.Unmarshal` | ethereum/eip712/web3.pb.go:182-316 | the decoding loop against the reference; it ends on every byte string |
| `Web3Codec.MarshalUnmarshal` | ethereum/eip712/web3.pb.go:103-316 | marshal then unmarshal into a fresh message returns the message |
| `Json.DescendingIsUnique` | ethereum/eip712/types.go:224-244 | the sorted key list depends only on the set of keys |
| `Eip712Laws.AddTypesIsSafe` | ethereum/eip712/types.go:278-308 | the definition ends up under an indexed name and no existing definition is touched |
| `Eip712Laws.AddTypesTakesFirstName` | ethereum/eip712/types.go:278-308 | the definition goes under the first of the thousand names that does not hold a different one; an equal definition is shared |
| `Eip712Laws.AddTypesFailsIff` | ethereum/eip712/types.go:278-308 | fails exactly when a thousand different definitions hold all the names |
| `JsonPath.PlainKeyFindsItsField` | ethereum/eip712/types.go:160-163 | the path lookup of a key without dots and query characters finds the field of that name |
| `Eip712Laws.FieldTypeIsCorrect` | ethereum/eip712/types.go:159-217 | the type given to a found value means its shape: bool, int64 and string for the basic values, with brackets for arrays of them and `string[]` for the empty array; there is none exactly when the value has no type |
| `Eip712Laws.FieldsAreCorrect` | ethereum/eip712/types.go:143-220 | the definition lists, in descending key order, one entry per key under which the lookup finds a typed value, each with a type that means its shape |
| `Eip712Laws.WalkIsCorrect` | ethereum/eip712/types.go:143-220 | the name returned for an object means the shape the lookup sees in it, at every depth; the dictionary stays closed and only grows |
| `Eip712Laws.FieldIsListedIff` | ethereum/eip712/types.go:159-217 | a field is listed exactly when the lookup of its key finds something that has a type |
| `Eip712Laws.SeesItselfIff` | ethereum/eip712/types.go:159-217 | a lookup sees an object as it is if and only if under each key it finds something typable exactly when the field is, and of the same shape |
| `Eip712Laws.SeesItselfIffUndisturbed` | ethereum/eip712/types.go:160-163 | with a path lookup that can go wrong only under dotted and query keys, of the object or of what its other keys hold: if and only if |
| `Eip712Laws.WalkDescribesOwnFieldsIff` | ethereum/eip712/types.go:143-220 | the definition describes the object's own fields if and only if every key finds a value of its own field's shape; with a path lookup, if and only if no path key in it is mistaken |
| `Eip712Laws.PlainKeysAreUndisturbed` | ethereum/eip712/types.go:160 | an object without path keys, at any depth, meets that condition |
| `Eip712Cases.UnfoundFieldIsNotListed` | ethereum/eip712/types.go:159-163 | a message field whose key finds nothing typable: the schema of the payload is created and leaves it out |
| `Eip712Cases.DottedKeyIsNotListed` | ethereum/eip712/types.go:159-163 | so for the field `a.b` of a message with `type` and `a.b` |
| `Eip712Cases.MistakenFieldIsListed` | ethereum/eip712/types.go:159-196 | a message field whose key finds a basic value of another type is listed with that type |
| `Eip712Cases.DottedKeyGetsAnotherType` | ethereum/eip712/types.go:159-196 | so for the string field `a.b` beside a field `a` that holds a number `b` |
| `Eip712Schema.MeaningIsUnique` | ethereum/eip712/types.go:278-308 | a type name of a dictionary means at most one shape |
| `Eip712Laws.SchemaIsCorrect` | ethereum/eip712/types.go:35-111 | every struct type named is defined, fixed definitions stand, and each entry appended to Tx means what the lookup sees in its message |
| `Eip712Laws.SchemaDescribesMessageIff` | ethereum/eip712/types.go:35-111 | an entry's type describes the message's own fields if and only if each of its keys finds its own field's shape; with a path lookup, if and only if no path key in it is mistaken |
| `Eip712Laws.SchemaListsFieldIff` | ethereum/eip712/types.go:35-111 | a field of a message is listed in the schema exactly when the lookup of its key finds something that has a type |
| `Eip712Fields.SchemaDescribesFields` | ethereum/eip712/types.go:35-220 | every message has an entry in Tx under its field name, whose definition lists exactly its typed plain fields, at every depth: booleans as bool, numbers as int64, strings as string, objects as a definition that describes them, arrays by their first element with brackets |
| `Eip712Fields.FieldIsListedAs` | ethereum/eip712/types.go:362-376 | the entry of a plain field in the created schema, for each kind of value: string, bool, int64, arrays of them, the empty array, null |
| `Eip712Fields.RootTypeIsLastPart` | ethereum/eip712/types.go:115-129 | the root type is `Type` and what stands behind the last slash of the type string, and there is one exactly when that string is not empty |
| `Eip712Fields.NameOfPath` | ethereum/eip712/types.go:334-358 | a path below the root gives `Type` and its words in title case, dots and underscores gone |
| `Eip712Cases.WalkSucceeds` | ethereum/eip712/types.go:143-220 | the walk succeeds as long as the dictionary has room for one definition per object visited |
| `Eip712Depth.SelfNeverEnds` | ethereum/eip712/types.go:198-206 | a key that finds the object itself makes the recursion exceed every depth |
| `Eip712Depth.PartsEnd` | ethereum/eip712/types.go:198-206 | the recursion ends when the lookup finds a proper part at every visited key |
| `Eip712Laws.WalkIgnoresKeyOrder` | ethereum/eip712/types.go:224-244 | objects that differ only in field order, at any depth, get the same name and dictionary, dotted keys included |
| `Eip712Laws.SchemaIgnoresKeyOrder` | ethereum/eip712/types.go:35-87 | payloads that differ only in field order, at any depth, get the same schema |
| `Eip712Cases.QueryKeySeesOrder` | ethereum/eip712/types.go:160 | with a wildcard key two messages that differ only in field order get different schemas |
| `Eip712Laws.CapitaliseIsStable` | ethereum/eip712/types.go:339-357 | with a caser that capitalises first letters, sanitising leaves generated names alone |
| `Eip712Types.SortedJSONKeys` | ethereum/eip712/types.go:224-244 | keys in descending order, or an error for anything but an object |
| `Eip712Types.TypesAreEqual` | ethereum/eip712/types.go:320-332 | true exactly on equal lists |
| `Eip712Types.Generator.AddTypesToRoot` | ethereum/eip712/types.go:278-308 | the retry loop against its specification, dictionary untouched on error |
| `Eip712Types.Generator.RecursivelyAddTypesToRoot` | ethereum/eip712/types.go:143-220 | the mutating walk against its specification |
| `Eip712Types.Generator.AddMsgTypesToRoot` | ethereum/eip712/types.go:91-111 | one message: its types, then its entry in Tx |
| `Eip712Types.CreateEIP712Types` | ethereum/eip712/types.go:35-87 | the loop over messages against the schema specification; with a path lookup the result describes every message in terms of its JSON values, named after its type |
| `Flatten.MsgFieldsDiffer` | ethereum/eip712/message.go:139-141 | different indices give different field names |
| `Flatten.PayloadWithNewMessage` | ethereum/eip712/message.go:115-135 | fails exactly when the message is no object or its field is taken |
| `Flatten.FlattenPayloadMessages` | ethereum/eip712/message.go:70-92 | succeeds exactly when msgs is usable and every field is free |
| `Flatten.FlattenedFields` | ethereum/eip712/message.go:70-92 | message i is found under its own field and every other key is as it was |
| `Flatten.FlattenIsInjectiveIff` | ethereum/eip712/message.go:70-111 | two payloads with the same flattened object and count agree on every key if and only if msgs is null in both or in neither |
| `Flatten.NullCollidesWithEmpty` | ethereum/eip712/message.go:95-111 | null and the empty list as msgs flatten alike, whatever else the payload holds |
| `KvIndex.HeightComesBack` | indexer/kv_indexer.go:227-233 | the height comes back from the key for every int64 |
| `KvIndex.TxIndexKeyIsInjective` | indexer/kv_indexer.go:170-174 | different (height, index) pairs never share a key |
| `KvIndex.TxIndexKeyOrder` | indexer/kv_indexer.go:170-174 | keys sort by height, then index |
| `KvIndex.IndicesAreDense` | indexer/kv_indexer.go:52-124 | indices run 0, 1, 2, ... through a block's indexed messages |
| `KvIndex.EntriesList` | indexer/kv_indexer.go:52-124 | the entries are one for each message with a result of each transaction that is to be indexed, in block order, with its hash, place, failure, gas and the gas of the messages up to it modulo 2^64 |
| `KvIndex.MsgEntriesList` | indexer/kv_indexer.go:82-118 | the same for the messages of one transaction |
| `KvIndex.IndexedMsgIsFound` | indexer/kv_indexer.go:52-162 | after indexing, each such message is found by hash and by its place, with what belongs to it |
| `KvIndex.IndexBlock` | indexer/kv_indexer.go:52-124 | writes exactly the entries of the block; every message of a transaction that succeeded or was expected to fail, decodes, is Ethereum and parses, and that has a result, is then found by hash and by place with its own result |
| `KvIndex.IndexMsgs` | indexer/kv_indexer.go:82-118 | the message loop: saves one entry for each message that has a result, in order, with its gas and the running sum modulo 2^64 |
| `KvIndex.IndexAllIndexes` | indexer/kv_indexer.go:52-124 | after any blocks in any order, with repetitions, the database holds their entries and nothing else |
| `KvIndex.LookupAgrees` | indexer/kv_indexer.go:137-162 | lookup by height and index is lookup in that block's message list, and nothing else is found |
| `KvIndex.LookupReturnsTheLatest` | indexer/kv_indexer.go:137-162 | for any blocks, hashes repeated or not: the lookup takes the hash last saved at that place and returns the result last saved for that hash |
| `KvIndex.RepeatedHashReturnsTheLater` | indexer/kv_indexer.go:137-162 | a transaction in two blocks is found at its first height with the result of the second |
| `KvIndex.OwnResultIsFoundIff` | indexer/kv_indexer.go:137-162 | with one block per height, an entry is found at its place with its own result if and only if no entry saved later has its hash |
| `KvIndex.ReindexingIsIdempotent` | indexer/kv_indexer.go:52-124 | indexing an indexed block again changes nothing |
| `KvIndex.LoadLastBlock` | indexer/kv_indexer.go:177-187 | the height in the greatest index key, -1 if there is none |
| `KvIndex.LoadFirstBlock` | indexer/kv_indexer.go:190-200 | the height in the least index key, -1 if there is none |
| `KvIndex.LoadsAreExtremes` | indexer/kv_indexer.go:177-200 | these are the greatest and least heights with an entry |
| `KvIndex.NothingIndexedIff` | indexer/kv_indexer.go:177-200 | -1 is returned exactly when no block has an entry |
| `Erc20.SupplyIsConstant` | precompiles/erc20/tx.go:69-131 | no sequence of calls changes the sum of balances |
| `Erc20.RowsStayOk` | x/erc20/keeper/allowance.go:77-131 | in every sequence of calls stored allowances stay positive and below 2^256, and balances non-negative |
| `Erc20.GrantIsAccountedFor` | precompiles/erc20/tx.go:85-110 | per owner and spender, after any sequence of calls, the last approved amount is the remaining allowance plus everything moved under it |
| `Erc20.TransferSucceedsIff` | precompiles/erc20/tx.go:69-112 | succeeds if and only if the amount is positive, the bank lets the send through and the balance suffices |
| `Erc20.TransferFromSucceedsIff` | precompiles/erc20/tx.go:85-112 | needs in addition a sufficient allowance over the pair, whoever calls, a usable token pair and two non-zero addresses: if and only if |
| `Erc20.ApproveSucceedsIff` | precompiles/erc20/approve.go:27-71 | succeeds if and only if nothing is approved where nothing is granted, or the pair can be stored, the amount fits 256 bits, and it is positive or there is an allowance to revoke |
| `Erc20.ZeroTransferIsRefused` | precompiles/erc20/tx.go:81-83 | a transfer of zero fails in every state |
| `Erc20.OwnerNeedsAllowance` | precompiles/erc20/tx.go:89-98 | an owner without an allowance over their own account cannot use transferFrom |
| `Erc20.UngrantedNeverTransfers` | precompiles/erc20/tx.go:89-98 | over any sequence of calls, a spender that was granted nothing, the owner included, never succeeds with transferFrom and changes nothing |
| `Erc20.LogsReplay` | precompiles/erc20/tx.go:112-130 | after any sequence of calls, replaying the Transfer and Approval logs gives every balance and every allowance |
| `Erc20.SendMoves` | precompiles/erc20/msgsrv.go:26-45 | a send changes each balance by exactly what its Transfer log says, also to oneself |
| `Erc20.Precompile.SetAllowance` | x/erc20/keeper/allowance.go:77-131 | the store update against its specification, with all its errors |
| `Erc20.Precompile.DoTransfer` | precompiles/erc20/tx.go:69-131 | the path shared by both transfers; on error balances and logs are as before |
| `Erc20.Precompile.ApproveSpender` | precompiles/erc20/approve.go:27-71 | the five cases of approve; on error nothing has changed |
| `Erc20.Precompile.CheckedSet` | precompiles/erc20/approve.go:73-83 | amounts of more than 256 bits are refused before the store is asked |
| `Erc20.Precompile.RunNativeAction` | precompiles/common/precompile.go:48-55 | one call: all of its effect or none of it, and supply and rows kept |
| `Erc20.Precompile.RunAll` | precompiles/common/precompile.go:48-55 | any sequence of calls |
| `FeeChecker.PassesIff` | ante/evm/fee_checker.go:84-101 | passes if and only if the tip is not negative, there is gas, and the fee is at least the base fee for all gas rounded up |
| `FeeChecker.FirstOptionDecides` | ante/evm/fee_checker.go:68-82 | the tip cap is that of the first dynamic fee option, zero if it names none, and the greatest int64 without such an option |
| `FeeChecker.ChargeIsBounded` | ante/evm/fee_checker.go:103-120 | charged at least the rounded-up base fee and at most the offer; priority between 0 and the int64 maximum |
| `FeeChecker.BindingCapCharge` | ante/evm/fee_checker.go:95-112 | with a binding cap the charge is the offer less the whole units lost by truncating the cap |
| `FeeChecker.WholeOfferIsChargedIff` | ante/evm/fee_checker.go:95-112 | with a binding cap the whole offer is charged if and only if truncation lost less than one unit; always up to 10^18 gas |
| `FeeChecker.WholeOfferCanBeMissed` | ante/evm/fee_checker.go:95-112 | a concrete offer above 10^18 gas that is not charged in full |
| `FeeChecker.BindingTipCharge` | ante/evm/fee_checker.go:103-112 | with a binding tip the charge is the least whole amount covering base fee and tip |
| `FeeChecker.PriorityCountsReductions` | ante/evm/fee_checker.go:103-120 | the priority is the tip paid in whole reductions, rounded down and at most the greatest int64, by inequalities |
| `FeeChecker.MoreIsNeverWorse` | ante/evm/fee_checker.go:95-120 | offering more never fails, never charges less and never lowers the priority |
| `FeeChecker.FeeChecker` | ante/evm/fee_checker.go:48-121 | the check with its scan for the first dynamic-fee option, against the specification above |

## Left out

- In-place aliasing of the heap slice: the heap algorithms take and return the slice as a value, and the class reassigns its field.
- The Cosmos mempool iterator is a finite ordered stream, and a transaction's gas is positive; the base fee does not change during a run.
- Hashes, signatures, signers and the conversion of EVM transactions: a transaction converts or not, as a parameter says.
- `StateAt` and the pool's state database in the reset loop, and the subpools' `Reset` itself; the loop's steps are those of its select cases.
- Fairness of the scheduler: progress is that an internal step is always possible and every one brings the pool nearer to rest.
- Stateless `ValidateTransaction`, blob sidecars, the reservation tracker and the subpools' internals.
- Store and codec errors of the keepers: rows read back as they were written.
- Reference counts and periods are unbounded; the uint32 and uint64 limits of the SDK types are not modelled.
- Of genesis validation, everything but the historical references and the bank/distribution balance: plain sums and membership checks.
- Steps 3 and 4 of `prepForZeroHeightGenesis` run SDK hooks that are not part of this model; only the empty outstanding rows they leave are used.
- Of gjson's path language the dots and array indices are modelled. What a key with other path characters (pipes, wildcards, escapes, modifiers, multipaths) finds is a parameter, some proper part of the object or nothing; expressions that build new values are left out. Numbers are opaque values.
- RecursivelyAddTypesToRoot: the lookup finds proper parts only; on a key that gives back the object itself the code does not end, which `SelfNeverEnds` states apart from the walk.
- WalkIgnoresKeyOrder: for objects without query keys, since order can show under those (`QueryKeySeesOrder`).
- SchemaIgnoresKeyOrder: for payloads without query keys, for the same reason.
- SchemaIsCorrect: the title caser is a parameter, required to leave generated names alone; `CapitaliseIsStable` proves that for one that capitalises first letters, and Unicode title casing is not modelled.
- Legacy EIP-712 encoding by reflection, and the typed-data domain.
- Unmarshal: the fields already assigned when decoding fails midway are not modelled; an error returns no message.
- KvIndex.LoadLastBlock: the database's ordered iterator is modelled as a scan for the extreme key.
- Event parsing, transaction decoding and hash lengths in the indexer are parameters of a block's transactions.
- Gas accounting, ABI encoding and balance-handler bookkeeping around the ERC-20 calls; a failed call is rolled back as a whole.
- RunAll: iterates calls one after the other; nested EVM calls are not modelled.
- The base fee is not negative, as the fee market's parameters demand.
- The min-gas-price fallback before the London fork, and overflow of the SDK's fixed-width decimals.
- RPC, CLI, server, other precompiles, IBC and the remaining modules: no property comparable to the above.
