# Dochain state machines in Dafny

Dochain is a chain of the Cosmos SDK family. This project models the parts of it that transform
state on their own account, and proves what they promise.

- **Wasm key migration and the view of unmigrated stores.** The v13 upgrade renames every key family of
  the contract store in place, with overlapping prefixes. Historical queries read an unmigrated store
  through a view that translates keys, bounds and iterators. `WasmMigration` proves that the steps
  together are one renaming, for every store; `WasmLossless` proves exactly when nothing is lost.
  `LegacyView`, `LegacyIterator`, `LegacyScans`, `LegacyContractScans` and `LegacyRanges` prove exactly when the view
  agrees with the migrated store.
- **Oracle vote round.** Go ranges over maps in any order and sorts equal rates in any order.
  `OracleEndBlock` proves that the end of a vote period depends on the votes alone: the orders and the
  sort are parameters of the method and do not occur in what it promises. `OraclePanics` says when it
  panics, and `OracleOutcome` who wins, who is charged and which rates result, in terms of the votes.
- **Market swaps.** Spread, pool and settlement in 18-digit decimals with their rounding written out.
- **Governance tallies and DODx staking.** No voting power is lost or counted twice, and turnout is
  bounded by the stakes, which the module can always pay back. `GovOutcome` says which choice a vote
  ends up with.
- **Dynamic commissions.** `DynCommTx` puts the check before a transaction, its messages at any depth and
  the handler after it together, and says exactly when they keep every validator within its bounds.
- **Mempool, validator powers, and the codec of the swap request.**

Objects whose methods update fields are classes, loops are loops with invariants, and each such method
is proved against a function or predicate of the old state. The decimals are integers in last-place
units; `Decimals` holds the rounding rules. `Bytes`, `KVStores`, `Renamings` and `Sums` are the shared
vocabulary: byte strings in lexicographic order, an ordered store, renamed maps, and sums that do not
depend on order.

Some promises turned out not to hold for all inputs. For each there is a concrete input, reached through
the modelled operations, and the exact condition under which the code does what is promised:

| promise | holds exactly when | fails for |
|---|---|---|
| the migration loses nothing | no 20-byte and 32-byte contract share the bytes of a storage key (`MigrationLosslessIff`) | `CollisionExample` |
| the view serves the migrated entry | the key is not shadowed (`ServesIff`) | `ShadowedReadExample` |
| scanning all storage of a contract through the view | the address is all 0xff, or does not end in 0xff and is 20 bytes long or followed by an address with storage (`WholeContractIff`) | `EndingInFFExample`, `LongContractExample` |
| scanning a storage range through the view | by the lengths its bounds are read as (`StorageRangeIff`) | `LongContractExample` |
| listing the contracts through the view | every contract has a 20-byte address (`ContractListingIff`) | `LongContractListingExample` |
| listing a range of the contracts through the view | no 32-byte contract is in it, and no 20-byte one is cut off by a bound shorter than an address (`ContractRangeIff`) | `ShortStartExample` |
| listing the secondary index through the view | no entry is left from the start on (`IndexListingIff`) | `IndexListingExample` |
| the end of a vote period does not divide by zero | no surviving ballot has half of its counted power at vanishing rates and a vote at zero (`PeriodPanicsIff`) | `VanishingRatePanics`, `AbstentionPanics` |
| stored taxes follow the whitelist | no denom was pruned while the rest agrees (`WhitelistAppliedIff`) | `StaleTaxExample` |
| the index of the mempool is exact | no key is inserted while it is queued (`RunFaithfulIff`) | `OrphanExample` |
| iteration is first in, first out | no lane repeats a key (`FifoIff`) | `RegularOvertakes` |
| every validator has power one | it was updated once, or started so (`RunEqualIff`) | `GenesisPowerExample` |
| validators stay between stored minimum and maximum through every transaction | no creation ends below the minimum, or with its maximum below the target, that an earlier validator of the operator left behind (`Deliver`); edits alone always keep it | `StartsBelowOldMinimum` |
| a transaction of valid edits passes | no undecodable exec follows a malformed packet (`PassesIff`) | `StaleErrorExample` |
| the Do pool stays positive in fixed point | no fee is needed to spare it, or the minimum spread or the constant product charges that fee, computed from the offer, the rate and the pool (`SellDoPositiveIff`); in exact arithmetic it always does (`RunKeepsPoolPositive`) | `HugeOfferOverdrawsPool` |

Where the code and its comments differ the code is followed: the mempool comment says that a limit
applies if it is greater than zero, while a limit of zero refuses every transaction and a negative one
stores none; the comment on the view's address lengths says 20 or 32 while its stripping of contract
keys knows only 20.

## Model

| member | source | states |
|---|---|---|
| `WasmMigration.MovePrefix` | app/upgrades/v13/upgrades.go:332-353 | moving one key family while iterating over it leaves exactly the renamed image of the store, for every store and every rewriting of the rest of the key |
| `WasmMigration.SaveSequenceKeys` | app/upgrades/v13/upgrades.go:114-132 | both old counters are read and removed and nothing else is touched |
| `WasmMigration.MigrateSequenceKeys` | app/upgrades/v13/upgrades.go:137-157 | the saved counters, or eight zero bytes, are written under their new keys without overwriting an entry that is there |
| `WasmMigration.MigrateParamsKey` | app/upgrades/v13/upgrades.go:254-267 | the parameters move to their new key and every other entry stays |
| `WasmMigration.NextTargetClear` | app/upgrades/v13/upgrades.go:41-81 | when a step starts, no key is left in the family it moves into, so the order of the steps keeps families from overwriting each other |
| `WasmMigration.MigrateContractsAndCounters` | app/upgrades/v13/upgrades.go:41-56 | contracts and counters change places although their prefixes overlap |
| `WasmMigration.RunStep` | app/upgrades/v13/upgrades.go:160-294 | each later step takes the store from one stage of the renaming to the next |
| `WasmMigration.MigrateWasmKeys` | app/upgrades/v13/upgrades.go:41-81 | the whole migration in place is one renaming of every key of every store, absent counters counting as zero |
| `WasmLossless.Collision` | app/upgrades/v13/upgrades.go:199-252 | two well-formed keys get the same new key only if they are storage keys of a 20-byte and a 32-byte address with the same bytes |
| `WasmLossless.InjectiveIff` | app/upgrades/v13/upgrades.go:199-252 | no two entries of a well-formed store collide exactly when no such pair is stored |
| `WasmLossless.MigrationLosslessIff` | app/upgrades/v13/upgrades.go:41-81 | the migrated store has as many entries as before exactly under that condition, and then every value is found under its new key |
| `WasmLossless.MigratedLayout` | app/upgrades/v13/upgrades.go:41-157 | where every entry is after a lossless migration, byte for byte: codes, history, index, contracts and storage without the address length, parameters, and the counters under their names or as eight zero bytes |
| `WasmLossless.PrefixFreeMeansNoSharedBody` | app/upgrades/v13/upgrades.go:236-252 | addresses of which none starts another meet that condition |
| `WasmLossless.CollisionExample` | app/upgrades/v13/upgrades.go:41-81 | a store of two entries, a 20-byte and a 32-byte contract with the same bytes, of which the migration keeps one |
| `WasmLossless.CountersExample` | app/upgrades/v13/upgrades.go:114-157 | a store of the two counters alone, taken through the migration: the last code id and the last contract id each under its own name, spelled out |
| `Renamings.LosslessIffInjective` | app/upgrades/v13/upgrades.go:332-353 | a renamed store is never larger, and loses nothing exactly when the renaming is injective on it |
| `Renamings.RenamedByAgain` | app/upgrades/v13/upgrades.go:41-81 | renaming twice is renaming by the composition, on which the chain of steps rests |
| `WasmKeys.RebuildersAgree` | custom/wasm/legacy_store.go:191-202 | the migration and the view rebuild contract storage keys alike, on every byte string |
| `WasmKeys.StrippersAgreeIff` | custom/wasm/legacy_store.go:204-209 | the view and the migration strip address lengths alike exactly when the key is not a 32-byte address with its length |
| `WasmKeys.MapOldToNewIff` | custom/wasm/legacy_store.go:160-188 | exactly which old keys the view maps to the key the migration gives them; the ones it skips keep their key |
| `LegacyView.LegacyWasmStore.Get` | custom/wasm/legacy_store.go:261-268 | a read through the view is the first candidate that is stored, re-encoded for the key asked for; `ViewAgrees` says what that is |
| `LegacyView.LegacyWasmStore.Has` | custom/wasm/legacy_store.go:270-277 | presence through the view is presence of some candidate |
| `LegacyView.ServesIff` | custom/wasm/legacy_store.go:129-157 | on every key the view serves the entry that the migration would have put there exactly when the key is not shadowed by an old key of another meaning |
| `LegacyView.ViewAgrees` | custom/wasm/legacy_store.go:211-277 | for every key that is not shadowed, presence is that of the migrated store, and what is read is its value: through the code codec under 0x01, the contract codec under 0x02, and unchanged elsewhere |
| `LegacyView.NewFormatKeysAreServed` | custom/wasm/legacy_store.go:87-157 | keys that the new code forms are not shadowed, given both counters and no address starting with a length byte |
| `LegacyView.ShadowedReadExample` | custom/wasm/legacy_store.go:129-157 | a stored key for which the view answers with an entry of another contract |
| `LegacyIterator.Iterator.Advance` | custom/wasm/legacy_store.go:395-412 | advancing stops at the next entry that maps into the range and drops those before it |
| `LegacyIterator.Iterator.Next` | custom/wasm/legacy_store.go:391-412 | each step drops exactly one pending entry |
| `LegacyIterator.OpenIterator` | custom/wasm/legacy_store.go:287-291 | opening over translated bounds makes pending exactly the view's scan of the range |
| `LegacyIterator.Drain` | custom/wasm/legacy_store.go:382-412 | walking to the end ends and yields exactly what was pending |
| `LegacyIterator.ViewScanIsSound` | custom/wasm/legacy_store.go:382-422 | for any bounds, every yielded pair is in range and is the image of a stored entry |
| `LegacyIterator.TranslatedAscends` | custom/wasm/legacy_store.go:395-412 | entries come out in key order when the mapping keeps the order of those in the window |
| `LegacyScans.WindowScan` | custom/wasm/legacy_store.go:299-363 | a scan equals the migrated store's scan whenever the translated window names only entries of the range and covers all of them |
| `LegacyScans.ScanValues` | custom/wasm/legacy_store.go:211-223 | the entries of a scan that agrees, one by one: the migrated key, and its value through the code codec under 0x01, the contract codec under 0x02, and unchanged elsewhere |
| `LegacyScans.Missed` | custom/wasm/legacy_store.go:299-363 | an entry of the range that no key of the window maps to makes the scans differ |
| `LegacyScans.PlainWindowAgrees` | custom/wasm/legacy_store.go:299-363 | codes, contract history and the history index: every bounded scan agrees |
| `LegacyScans.StorageWindowIff` | custom/wasm/legacy_store.go:24-57 | a storage range whose bounds are recognised as addresses of one length agrees exactly when no key of the other length falls into it |
| `LegacyContractScans.LengthReadIff` | custom/wasm/legacy_store.go:24-57 | the length a bound is read with: 20 if its first 20 bytes are an address with storage, else 32 if its first 32 are, else 20 |
| `LegacyContractScans.OneContractAgrees` | custom/wasm/legacy_store.go:24-57 | any range inside the storage of one contract that has storage agrees, for both address lengths |
| `LegacyContractScans.WholeContractIff` | custom/wasm/legacy_store.go:299-363 | the scan of all storage of a contract that has storage agrees exactly if its address is all 0xff, or does not end in 0xff and, being 32 bytes long, is followed by an address with storage |
| `LegacyRanges.StorageRangeIff` | custom/wasm/legacy_store.go:24-57 | exactly when a storage range between any two bounds agrees: bounds too short for an address, read as one length, or read as different lengths |
| `LegacyRanges.CodeListingAgrees` | custom/wasm/legacy_store.go:299-363 | listing the codes from any start agrees on every store |
| `LegacyRanges.HistoryListingAgrees` | custom/wasm/legacy_store.go:299-363 | listing contract history from any start agrees on every store |
| `LegacyRanges.ContractRangeIff` | custom/wasm/legacy_store.go:338-362 | a range of the contract list between any two bounds, or from any start to the end, where the least and the greatest of several candidate keys are chosen, agrees exactly if no 20-byte contract in it is cut off by a bound shorter than an address and no 32-byte contract is in it, with or without its length byte |
| `LegacyRanges.ContractListingIff` | custom/wasm/legacy_store.go:204-209 | listing all contracts agrees exactly when every contract has a 20-byte address |
| `LegacyRanges.EndingInFFExample` | custom/wasm/legacy_store.go:299-363 | a stored 20-byte contract ending in 0xff whose scan differs from that of the store the migration makes |
| `LegacyRanges.LongContractExample` | custom/wasm/legacy_store.go:299-363 | a stored 32-byte contract without a neighbour whose scan differs from that of the migrated store |
| `LegacyRanges.LongContractListingExample` | custom/wasm/legacy_store.go:204-209 | a store with a 32-byte contract whose list of contracts differs from that of the migrated store |
| `LegacyRanges.ShortStartExample` | custom/wasm/legacy_store.go:338-362 | one 20-byte contract that a listing from the one-byte start 0x15 misses |
| `LegacyRanges.IndexListingExample` | custom/wasm/legacy_store.go:299-363 | a store with an index entry whose list differs from that of the migrated store |
| `LegacyContractScans.IndexListingIff` | custom/wasm/legacy_store.go:299-363 | listing the secondary index from any start yields nothing, which is right exactly when no entry is left from there on |
| `MarketSwap.QuoOfQuo` | x/market/keeper/swap.go:95-131 | the constant product never asks for more than the pool holds, rounding included |
| `MarketSwap.SpreadInRange` | x/market/keeper/swap.go:95-131 | the spread lies between the minimum spread and one in both directions, rounding included |
| `MarketSwap.ChargesConstantProduct` | x/market/keeper/swap.go:95-131 | after the spread no more is paid than the constant product pays, and above the minimum spread no less, up to one last-place unit for each unit offered |
| `MarketSwap.ComputeSwapSpreadInRange` | x/market/keeper/swap.go:52-132 | every swap that is priced between Do and another asset pays a positive amount of the asked denom at a spread in range |
| `MarketSwap.PricedIff` | x/market/keeper/swap.go:52-159 | exactly which swaps are priced (different denoms, positive rates, an offer in Do and a price that do not round to nothing, both taxes known where Do is not involved), and the price: the offer over its rate, times the rate of what is asked for |
| `MarketSwap.ValueKept` | x/market/keeper/swap.go:136-159 | up to the two roundings, the price over the rate of what is asked for is the offer over its own rate |
| `MarketSwap.TobinTaxCharged` | x/market/keeper/swap.go:70-92 | a priced swap without Do is charged a spread that is one of the two tobin taxes and no less than either |
| `MarketSwap.ProductKept` | x/market/keeper/swap.go:95-122 | the pools keep their product: a Do offer goes into the pool of the other asset and is paid out of the Do pool, any other offer the other way round, each division off by at most one unit |
| `MarketSwap.FeeIs` | x/market/keeper/msg_server.go:68-88 | the fee is the spread's share of the price, up to half a last-place unit |
| `MarketSwap.SplitIsExact` | x/market/keeper/msg_server.go:101-116 | what the receiver and the oracle account get adds up to the whole part of the price, whatever the fee |
| `MarketModule.Market.ApplySwapToPool` | x/market/keeper/swap.go:15-46 | the pool moves by the base value of what is sold to it or bought from it, and only in swaps with Do |
| `MarketModule.PoolMoves` | x/market/keeper/swap.go:15-46 | buying Do adds the offer in Do to the pool, selling it takes out the payout in Do, within one unit of the exact amounts; other swaps leave it |
| `MarketModule.Market.TakeOffer` | x/market/keeper/msg_server.go:90-99 | the offer leaves the trader and the supply, the market account ends as it began, and this fails exactly when the trader has less |
| `MarketModule.Market.PayOut` | x/market/keeper/msg_server.go:113-130 | the minted coins reach the receiver and the oracle account; the market account never runs short |
| `MarketModule.Market.PriceAndPool` | x/market/keeper/msg_server.go:68-88 | exactly when a swap can be priced and moves the pool; then the price, the fee and the new pool come from the same state; no failure here is one of funds |
| `MarketModule.Market.Settle` | x/market/keeper/msg_server.go:90-130 | exactly when the trader has the offer and a whole coin is left to pay, burning, minting and splitting change exactly the balances and supplies a swap is meant to change |
| `MarketModule.Market.HandleSwap` | x/market/keeper/msg_server.go:61-151 | exactly when a swap completes; then it burns the offer, mints the whole part of the price and splits it, leaves every other balance alone, moves the pool up when Do is bought and down when it is sold, and delivers what the query quotes from the same state |
| `MarketModule.QuoteIsDelivered` | x/market/keeper/swap.go:162-186 | the query quotes exactly the coin a swap from the same state delivers |
| `MarketModule.QuoteIff` | x/market/keeper/swap.go:162-186 | exactly when the query answers, and with what: the whole coins of the price less the fee |
| `MarketPool.StepKeepsPoolPositive` | x/market/keeper/swap.go:15-46 | in exact arithmetic one swap or replenishment keeps a positive pool positive, at any positive price |
| `MarketPool.RunKeepsPoolPositive` | x/market/keeper/swap.go:15-46 | so does every sequence of swaps and replenishments |
| `MarketPool.ReplenishShrinksIff` | x/market/keeper/keeper.go:87-98 | replenishment never crosses zero and shrinks the gap exactly while it is at least the recovery period |
| `MarketPool.ReplenishIs` | x/market/keeper/keeper.go:87-98 | a block removes the period's part of the gap, up to one last-place unit |
| `MarketPool.ReplenishConverges` | x/market/keeper/keeper.go:87-98 | left alone the gap falls by at least one unit a block until it is below the period, and keeps its sign |
| `MarketPool.SellDoBound` | x/market/keeper/swap.go:15-46 | a lower bound for the Do pool after a sale in fixed point |
| `MarketPool.SellDoPositiveIff` | x/market/keeper/swap.go:15-46 | for every offer of Do that is priced, the pool stays positive in fixed point exactly if no fee is needed for that, or the minimum spread reaches the spread that charges it, or the constant product falls short of the offer by enough; all of it computed from the offer, the oracle rate and the pool |
| `MarketPool.SellDoKeepsPoolPositive` | x/market/keeper/swap.go:15-46 | it does whenever the constant product leaves more than one last-place unit for each Do offered, one more, and half a unit at the inverse price |
| `MarketPool.HugeOfferOverdrawsPool` | x/market/keeper/swap.go:15-46 | a concrete offer for which the rounded spread lets the Do pool go negative |
| `Decimals.QuoError` | x/market/keeper/swap.go:138-159 | each decimal division is off by at most one last-place unit |
| `Decimals.RoundError` | x/market/keeper/swap.go:138-159 | each decimal rounding is off by at most half a last-place unit |
| `Decimals.RoundIsNearest` | x/market/keeper/swap.go:138-159 | rounding gives the nearest last-place unit, the even one of two as near |
| `SwapCodec.SovIsLength` | x/market/types/query.pb.go:751-753 | the length formula equals the number of groups written, for every value |
| `SwapCodec.EncodeVarint` | x/market/types/query.pb.go:672-682 | the varint is written just before the offset and nothing else changes |
| `SwapCodec.WriteField` | x/market/types/query.pb.go:505-525 | tag, length and bytes are written backwards in front of the offset |
| `SwapCodec.MarshalToSizedBuffer` | x/market/types/query.pb.go:505-525 | the backward writer fills exactly the predicted size at the end of the buffer with the encoding |
| `SwapCodec.Marshal` | x/market/types/query.pb.go:490-499 | the buffer is filled exactly by the encoding |
| `SwapDecoder.DecodeVarint` | x/market/types/query.pb.go:763-776 | the loop reads one varint, or fails on overflow or the end of input |
| `SwapDecoder.SkipQuery` | x/market/types/query.pb.go:1220-1297 | skipping a field or a nested group makes progress or fails |
| `SwapDecoder.Unmarshal` | x/market/types/query.pb.go:757-870 | decoding any input ends with every index in bounds, and either fails or consumes the whole input |
| `SwapRoundTrip.ReadBack` | x/market/types/query.pb.go:763-776 | a varint that was written reads back as its value, for all 64-bit values |
| `SwapRoundTrip.RoundTrip` | x/market/types/query.pb.go:490-870 | decoding the encoding of a request gives it back, and the predicted size is right |
| `SwapRoundTrip.ConcatenationMerges` | x/market/types/query.pb.go:757-870 | decoding two encodings in a row gives the second laid over the first |
| `SwapRoundTrip.WireFormat` | x/market/types/query.pb.go:505-525 | the bytes themselves: tag 0x0a, length and offer, tag 0x12, length and asked denom, an empty field left out, longer lengths with the lower group first |
| `SwapFields.SkipField` | x/market/types/query.pb.go:1220-1297 | a skip consumes exactly one field, for every wire type and groups nested to any depth |
| `SwapFields.UnknownFieldIgnored` | x/market/types/query.pb.go:850-862 | a field with an unknown number has no effect, wherever it stands and whatever it holds |
| `SwapFields.AnyMessageDecodes` | x/market/types/query.pb.go:757-870 | known and unknown fields in any order and number decode to the last text of each known field |
| `SwapFields.BadTagRefused` | x/market/types/query.pb.go:778-862 | after any fields, a tag that closes no group, has number zero, gives a known field another wire type than text, or an unknown one none there is, is refused with its own error |
| `SwapFields.CutOffRefused` | x/market/types/query.pb.go:788-818 | after any fields, a known field shorter than its length says is refused |
| `OracleBallot.ComputeWeightedMedian` | x/oracle/types/ballot.go:98-114 | the scan computes the specified median |
| `OracleBallot.WeightedMedianIs` | x/oracle/types/ballot.go:98-114 | on a sorted ballot the result is a voted rate with at least half of the power at or below it and less than half below it |
| `OracleBallot.MedianIsUnique` | x/oracle/types/ballot.go:98-114 | there is only one such rate, however equal rates are arranged |
| `OracleBallot.Tally` | x/oracle/tally.go:13-37 | each vote within the spread of the median, or abstaining, adds its power and one win to its voter's claim; nothing else changes |
| `OracleOutcome.SpreadIs` | x/oracle/tally.go:13-20 | the spread is the larger of half the band at the median and the deviation taken from the variance |
| `OracleOutcome.HalfBandIs` | x/oracle/tally.go:16 | half the band at the median is their product halved, within the roundings |
| `OracleOutcome.VarianceIs` | x/oracle/types/ballot.go:117-144 | the variance is the mean of the squared distances to the median, within the roundings |
| `OracleCross.ToMapOfPermutation` | x/oracle/types/ballot.go:38-47 | the reference rates by voter do not depend on the arrangement |
| `OracleCross.TallyIgnoresArrangement` | x/oracle/tally.go:13-37 | median, spread, wins and weights depend only on the votes cast |
| `OracleRound.OrganizeBallotByDenom` | x/oracle/keeper/ballot.go:15-56 | there is a ballot for exactly the denoms that active validators voted on, each sorted and holding exactly their votes, abstentions without power |
| `OracleOutcome.VotesForHas` | x/oracle/keeper/ballot.go:15-56 | the votes of a denom are exactly the quotes of active validators for it, with their power unless they abstain |
| `OracleRound.PickReferenceDo` | x/oracle/tally.go:48-91 | in any order of ranging, the same targets and ballots are pruned and the reference is the alphabetically first denom of the greatest passing power |
| `OracleOutcome.TargetFate` | x/oracle/tally.go:40-80 | in terms of the votes: a target somebody quoted is tallied exactly if the power of those who priced it is not zero and reaches the threshold, and is dropped otherwise; one nobody quoted stays and is not tallied |
| `OracleOutcome.ReferenceIs` | x/oracle/tally.go:45-91 | the reference has the most power of validators pricing it, and of several is the alphabetically first |
| `OracleOutcome.VotesNeededIs` | x/oracle/tally.go:56-60 | the threshold is the asked share of the bonded power, to the nearest whole |
| `OracleRound.ReferenceIsUnique` | x/oracle/tally.go:45-48 | no two denoms can both be the reference |
| `OracleTally.AnySortWillDo` | x/oracle/types/ballot.go:69-86 | whatever sort orders the cross rates, every validator's credit, the median and the spread are the same |
| `OracleTally.TallyOne` | x/oracle/abci.go:86-102 | one ballot is tallied in cross rates and its rate transformed back; this panics exactly when the cross median is zero |
| `OracleTally.TallyAll` | x/oracle/abci.go:85-103 | rates, claims and whether the block panics do not depend on the order of ranging |
| `OracleOutcome.RateIs` | x/oracle/abci.go:95-101 | a stored rate times the cross median is the reference median, up to one unit |
| `OracleOutcome.QuotesAreStored` | x/oracle/abci.go:85-102 | where everybody quotes the same pair of rates, these are the rates stored, the second up to a rounding bound |
| `OraclePeriod.OrganizedSound` | x/oracle/keeper/ballot.go:15-56 | ballots built from admitted votes are sorted, without negative power, with at most one vote for each validator, all of them active |
| `OraclePeriod.AlikeTallied` | x/oracle/abci.go:80-98 | two arrangements of the same ballots have the same medians, wins and weights |
| `OracleEndBlock.CountMisses` | x/oracle/abci.go:105-116 | one miss more for exactly the claims whose wins differ from the number of targets |
| `OracleOutcome.WonIff` | x/oracle/tally.go:22-34 | a validator wins a ballot exactly if it quoted the denom with an abstention, with a rate whose tallied form is within the spread of the median, or with one whose tallied form vanishes or lacks a reference rate |
| `OracleOutcome.PeriodChargedIff` | x/oracle/abci.go:79-116 | at the end of every period exactly which validators are not charged a miss: all if no target is left, otherwise those that quoted every target left in that way, all of them tallied against a reference |
| `OracleOutcome.AbstainerNotCharged` | x/oracle/abci.go:105-112 | one who abstains from every target left is not charged, provided all of them were tallied |
| `OracleOutcome.OutlierCharged` | x/oracle/abci.go:105-116 | one whose positive tallied rate for a target is farther from the median than the spread is charged |
| `OracleOutcome.WeightIs` | x/oracle/tally.go:28-33 | in each ballot a validator earns its power if it wins with a positive quote that has a reference rate beside it, and nothing otherwise |
| `OracleEndBlock.CountIsWonAll` | x/oracle/abci.go:105-112 | the number of wins reaches the number of targets exactly when every target passed and the validator won or abstained in each |
| `OracleEndBlock.MissesSettled` | x/oracle/abci.go:105-116 | so counting charges exactly the validators that did not win everything |
| `OracleEndBlock.UnvotedTargetMissedByAll` | x/oracle/abci.go:105-116 | a target that no active validator voted on is missed by every validator |
| `OracleEndBlock.FailedBallotIsNoTarget` | x/oracle/tally.go:72-80 | a denom whose votes fall short of the threshold leaves the targets, so that nobody misses it |
| `OracleEndBlock.EndVotePeriod` | x/oracle/abci.go:61-116 | reference, rates, claims, misses and panics at the end of a period are functions of the votes: no order of ranging and no choice of sort is mentioned |
| `OraclePanics.ZeroMedianIff` | x/oracle/types/ballot.go:98-114 | a sorted ballot without negative rates has a zero median exactly if some vote is at zero and half of the power is |
| `OraclePanics.MedianZeroIff` | x/oracle/abci.go:86-98 | the median that is divided by is zero exactly if some vote has no usable reference or a vanishing cross rate, and at least half of the counted power vanishes |
| `OraclePanics.NoZeroMedianIff` | x/oracle/abci.go:86-98 | so a round goes through exactly if no ballot is like that |
| `OraclePanics.PeriodPanicsIff` | x/oracle/abci.go:79-103 | the same for the surviving ballots of admitted votes, which is when the end of a period panics |
| `OraclePanics.TwoUnitsSuffice` | x/oracle/abci.go:86-98 | where no cross rate vanishes, this takes somebody without a usable vote and fewer than two units of power |
| `OraclePanics.VanishingRatePanics` | x/oracle/abci.go:95-98 | ten units of power and nobody abstaining, and yet a division by zero |
| `OraclePanics.AbstentionPanics` | x/oracle/abci.go:95-98 | one unit of power and an abstention, and a division by zero |
| `OraclePanics.VanishingRateTally` | x/oracle/abci.go:85-103 | the tally of the first of these panics in any order and under any sort |
| `OracleRewards.RewardDenoms` | x/oracle/keeper/reward.go:23-33 | Do and every target are rewarded, no denom twice |
| `OracleRewards.PeriodRewardIs` | x/oracle/keeper/reward.go:46-63 | the period's part of the pool is its share of the window, up to one last-place unit for each coin |
| `OracleRewards.RewardBallotWinners` | x/oracle/keeper/reward.go:16-101 | of every rewarded denom the sum of the winners' shares is distributed, in any order of ranging, and nothing of any other |
| `OracleRewards.WinnerIsPaid` | x/oracle/keeper/reward.go:70-84 | a winner that is there is paid its part by weight, within one coin and the roundings; one that is gone is paid nothing |
| `OracleRewards.RewardsFitPool` | x/oracle/keeper/reward.go:46-100 | the winners together never get more than the pool, rounding included, so the transfer cannot fail |
| `OracleRewards.RewardsNearlyAll` | x/oracle/keeper/reward.go:46-93 | if all winners are there, the whole period's reward is paid but for what is cut from each share |
| `OracleRewards.ApplyWhitelist` | x/oracle/keeper/ballot.go:77-117 | the stored taxes become the whitelist unless the targets left are already the whitelist |
| `OracleRewards.WhitelistAppliedIff` | x/oracle/keeper/ballot.go:77-91 | the stored taxes end as the whitelist except exactly when the targets left equal it and some stored denom was pruned |
| `OracleRewards.StaleTaxExample` | x/oracle/keeper/ballot.go:77-117 | a dropped denom whose ballot fails keeps its stored tax |
| `GovTally.AddOptions` | app/keepers/gov_tally.go:180-183 | each choice gains the power times its weights and no other does |
| `GovOutcome.GainIsShare` | app/keepers/gov_tally.go:180-183 | what a choice gains from a vote is the power times the weights given to it, within half a unit for each option |
| `GovTally.AddDelegation` | app/keepers/gov_tally.go:172-188 | a delegation to a bonded validator is deducted there and counted once, any other is ignored |
| `GovTally.WalkVotes` | app/keepers/gov_tally.go:157-195 | after all votes every validator has the deductions of its voting delegators and its own last vote |
| `GovTally.DefaultTally` | app/keepers/gov_tally.go:146-221 | total and results are the delegators' power plus the remainders of the validators that voted, in any order of ranging |
| `GovOutcome.UnnamedEndsAtZero` | app/keepers/gov_tally.go:146-221 | a choice that no vote names ends at zero |
| `GovOutcome.UnanimousEndsAtTotal` | app/keepers/gov_tally.go:146-221 | a choice that every vote is for ends at the total |
| `GovOutcome.EveryDelegationCounts` | app/keepers/gov_tally.go:157-195 | whatever is added up over the counted delegations runs over every delegation of every voter to a bonded validator, once and with the options of its own voter |
| `GovOutcome.OwnVoteIs` | app/keepers/gov_tally.go:157-165 | a validator's remainder is counted with the last vote it cast |
| `GovConservation.ValidatorConserved` | app/keepers/gov_tally.go:146-221 | for every sequence of votes, the powers of a voting validator's delegators and its remainder add up to its bonded tokens within one last-place unit for each term |
| `GovConservation.ThroughAtMostTokens` | app/keepers/gov_tally.go:172-188 | the delegators of any validator count for no more than its tokens and one unit each |
| `GovConservation.ByValidator` | app/keepers/gov_tally.go:172-188 | every counted delegation is counted for exactly one validator |
| `GovConservation.PowerConserved` | app/keepers/gov_tally.go:146-221 | the total is the sum over validators of their tokens if they voted and of their voting delegators' power if not, within the same slack |
| `GovConservation.SpreadConserved` | app/keepers/gov_tally.go:180-183 | spreading power over weights that add up to one loses or gains at most half a unit for each option |
| `GovConservation.ResultsConserved` | app/keepers/gov_tally.go:146-221 | the four results add up to the total within half a unit for each option counted |
| `GovCommunity.CommunityTally` | app/keepers/gov_tally.go:36-101 | total and results count every voter that is not a validator with capped power |
| `GovCommunity.CapHolds` | app/keepers/gov_tally.go:237-243 | no voter counts for more than 25 thousandths of the bonded tokens; where the cap is zero nobody has power |
| `GovCommunity.TotalWithinCaps` | app/keepers/gov_tally.go:42-44 | any number of voters together stays within their caps |
| `GovCommunity.CappedResultsConserved` | app/keepers/gov_tally.go:80-85 | the capped results add up to the total within half a unit for each option |
| `GovCommunity.DodxStakedTally` | app/keepers/gov_tally.go:104-144 | total and results count every voter with the staked amount |
| `GovOutcome.CommunityUnnamed` | app/keepers/gov_tally.go:36-144 | in both community tallies a choice that no vote names ends at zero |
| `GovOutcome.CommunityUnanimous` | app/keepers/gov_tally.go:36-144 | in both, a choice that every vote is for ends at the total |
| `GovOutcome.CapWithholdsExcess` | app/keepers/gov_tally.go:36-101 | the capped total is what the delegators have in the default tally less exactly what is above the caps and what validators hold |
| `GovCommunity.TurnoutWithinStaked` | app/keepers/gov_tally.go:104-144 | with one vote for each voter the turnout is at most the total staked |
| `GovOutcome.FullTurnout` | app/keepers/gov_tally.go:104-144 | if everybody with a stake votes once, the total is exactly what is staked |
| `DodxStaking.Keeper.constructor` | x/dodxstaking/genesis.go:12-23 | an empty keeper is consistent, whatever the module already holds |
| `DodxStaking.Keeper.AddStake` | x/dodxstaking/keeper/keeper.go:109-113 | one stake and the total grow by the same amount |
| `DodxStaking.Keeper.RemoveStake` | x/dodxstaking/keeper/keeper.go:115-125 | one stake and the total shrink by the same amount, or nothing changes if the stake is smaller |
| `DodxStaking.Keeper.Stake` | x/dodxstaking/keeper/msg_server.go:21-40 | for every message: which error, or the coins move from the staker to the module and are recorded; stored stakes stay positive, add up to the total and are covered |
| `DodxStaking.Keeper.Unstake` | x/dodxstaking/keeper/msg_server.go:42-64 | for every message: which error, or the coins move back; never for want of module funds |
| `DodxStaking.Keeper.InitGenesis` | x/dodxstaking/genesis.go:12-23 | stakes are stored one after the other and the total is the sum of all records; for positive records that the module covers, the keeper is consistent exactly when no account is listed twice |
| `DodxStaking.Keeper.ExportGenesis` | x/dodxstaking/genesis.go:26-37 | every stored stake is exported once, in store order |
| `DodxStaking.GenesisTotalIff` | x/dodxstaking/genesis.go:12-23 | the total recorded at genesis is the sum of the stored stakes exactly when no account is listed twice |
| `DodxStaking.GenesisRoundTrip` | x/dodxstaking/genesis.go:12-37 | importing an export restores every stake and a consistent total |
| `DodxStaking.TurnoutAtMostStaked` | x/dodxstaking/keeper/keeper.go:53-95 | distinct accounts never hold more together than the sum of all stakes |
| `DodxStaking.FullTurnoutIsStaked` | x/dodxstaking/keeper/keeper.go:53-95 | distinct accounts among which is everybody with a stake hold all of it |
| `FifoMempool.Mempool.constructor` | app/mempool/mempool_fifo.go:48-60 | an empty pool is valid for any limit |
| `FifoMempool.Mempool.Insert` | app/mempool/mempool_fifo.go:68-93 | which error, what is stored and where, the limit kept; the index stays exact exactly when the key was not queued in that lane |
| `FifoMempool.Mempool.Remove` | app/mempool/mempool_fifo.go:161-183 | what the index leads to is taken out, order kept; from an exact index it succeeds exactly when the key is queued |
| `FifoMempool.Mempool.CountTx` | app/mempool/mempool_fifo.go:185-189 | never more than the limit, and zero under a negative one |
| `FifoMempool.RunFaithfulIff` | app/mempool/mempool_fifo.go:68-183 | over every sequence of inserts and removals, the index leads to every queued transaction exactly when no key was inserted while it was queued |
| `FifoMempool.ReinsertLeavesOrphan` | app/mempool/mempool_fifo.go:84-90 | a key inserted again leaves the older transaction queued and out of reach of removal |
| `FifoMempool.OrphanExample` | app/mempool/mempool_fifo.go:84-90 | two insertions and a removal of one key after which a transaction is queued and not indexed |
| `FifoMempool.PushExactIff` | app/mempool/mempool_fifo.go:84-90 | what one insertion does to the exactness of the index |
| `FifoMempool.RemoveExact` | app/mempool/mempool_fifo.go:169-182 | from an exact index the one transaction with the key goes and the rest stays exact |
| `FifoSelect.Iterator.Next` | app/mempool/mempool_fifo.go:131-155 | moves to the first pending transaction and drops it, or says that there is none; ends for every list of keys |
| `FifoSelect.Select` | app/mempool/mempool_fifo.go:95-122 | the iterator is over a snapshot of both queues and already at its first transaction, if there is one |
| `FifoSelect.Drain` | app/mempool/mempool_fifo.go:131-159 | walking to the end yields the current and exactly the pending transactions |
| `FifoSelect.SelectedIs` | app/mempool/mempool_fifo.go:95-155 | whatever is queued, exactly the last transaction of each key in each lane is yielded, each once |
| `FifoSelect.LastOfEachKeyIs` | app/mempool/mempool_fifo.go:103-114 | in order of arrival those are the latest inserted of each key, each counted once |
| `FifoSelect.FifoIff` | app/mempool/mempool_fifo.go:95-155 | oracle transactions and then the others, each in order of arrival, exactly when no lane repeats a key, even if a key is in both lanes |
| `FifoSelect.FaithfulPoolIsFifo` | app/mempool/mempool_fifo.go:95-155 | a pool whose index is exact is iterated in order of arrival, oracle transactions first |
| `FifoSelect.RegularOvertakes` | app/mempool/mempool_fifo.go:141-151 | with a repeated oracle key a later regular transaction overtakes an earlier one |
| `EqualPower.Module.EndBlock` | custom/staking/module.go:106-130 | what consensus is told is the compact list on every path; the early return only leaves the stored list alone |
| `EqualPower.FullUpdates` | custom/staking/module.go:136-158 | the removals followed by every active validator at equal power |
| `EqualPower.CompactUpdates` | custom/staking/module.go:160-169 | the staking updates with every positive power made equal |
| `EqualPower.BlockKeepsActive` | custom/staking/module.go:160-169 | consensus accepts the compact list and ends up with exactly the active validators |
| `EqualPower.FullListEqualizes` | custom/staking/module.go:136-158 | the full list turns any powers into equal ones for exactly the active validators |
| `EqualPower.RunKeepsActive` | custom/staking/module.go:106-130 | over every sequence of blocks consensus and staking agree on who the validators are |
| `EqualPower.RunEqualIff` | custom/staking/module.go:98-130 | a validator has the equal power exactly if it was updated in some block or had it from the start |
| `EqualPower.UpdatedOrThereFromStart` | custom/staking/module.go:106-130 | an active validator that was never updated has been there from the start |
| `EqualPower.RunKeepsEqual` | custom/staking/module.go:98-130 | if all powers start equal, consensus is the active set at equal power after every sequence of blocks |
| `EqualPower.GenesisPowerExample` | custom/staking/module.go:160-169 | a validator that starts at another power keeps it through a block without updates |
| `EqualPower.StoredNamesActive` | custom/staking/module.go:116-127 | the stored list always names exactly the active validators, although quiet blocks skip the write |
| `DynComm.CommissionBounds` | x/dyncomm/keeper/dyncomm.go:26-52 | the dynamic minimum lies between the chain's minimum and the larger of that and the cap, rounding included |
| `DynComm.CommissionMonotone` | x/dyncomm/keeper/dyncomm.go:26-52 | more voting power never means a lower minimum, rounding included |
| `DynComm.CommissionIsSlope` | x/dyncomm/keeper/dyncomm.go:26-52 | between the chain's minimum and the cap the dynamic minimum is the slope in percent, cut below its last digit |
| `DynComm.CommissionIsBound` | x/dyncomm/keeper/dyncomm.go:44-50 | above the cap it is the cap, below the chain's minimum it is that, and a chain's minimum above the cap wins |
| `DynComm.SlopeIs` | x/dyncomm/keeper/dyncomm.go:26-44 | the slope is the voting power above the start times the sum of the base and the voting power over the impact, within the roundings |
| `DynComm.VotingPowerIs` | x/dyncomm/keeper/dyncomm.go:11-22 | voting power is the share of the total in percent, cut below its last digit |
| `DynComm.VotingPowerMonotone` | x/dyncomm/keeper/dyncomm.go:11-22 | more tokens never mean less voting power |
| `DynComm.Keeper.SetDynCommissionRate` | x/dyncomm/keeper/dyncomm.go:54-72 | the minimum is stored and the target kept |
| `DynComm.Keeper.SetTargetCommissionRate` | x/dyncomm/keeper/dyncomm.go:74-92 | the target is stored and the minimum kept |
| `DynComm.Keeper.CreateValidator` | x/dyncomm/post/post.go:63-69 | every validator stays between its stored minimum and its maximum exactly when the new one is not below a minimum left over from an earlier validator of the operator and, unless the creation resets it, its maximum is not below a left-over target |
| `DynComm.Keeper.EditValidator` | x/dyncomm/post/post.go:49-61 | for any rate, all validators stay between stored minimum and maximum exactly if the new rate is between those of the edited one, whether or not the post handler sees the edit |
| `DynComm.Keeper.UpdateValidatorMinRates` | x/dyncomm/keeper/dyncomm.go:136-169 | the rate becomes the stored target where that is at least the new minimum and the new minimum otherwise; the maximum changes only if it was below the minimum, and then to it; the target stays |
| `DynComm.Keeper.UpdateAllBondedValidatorRates` | x/dyncomm/keeper/dyncomm.go:171-185 | every bonded validator is updated once in that way and the others are left alone; from any state, exactly which validators are then between minimum and maximum, and all of them if all were |
| `DynComm.StartsBelowOldMinimum` | x/dyncomm/post/post.go:63-69 | create, weekly update, removal and a second creation lead to a validator below its stored minimum |
| `DynCommAnte.FilterMsgsAndProcessMsgs` | x/dyncomm/ante/ante.go:44-78 | the loop over wrapped messages with its one error variable rejects exactly what the specification does |
| `DynCommAnte.ProcessEditValidator` | x/dyncomm/ante/ante.go:80-97 | an edit fails exactly when it sets a rate below the stored minimum |
| `DynCommAnte.PassesIff` | x/dyncomm/ante/ante.go:44-78 | a transaction passes exactly if every edit that can be decoded, at any depth, respects the minimum and no exec that cannot be decoded inherits the error of an earlier packet |
| `DynCommAnte.StaleErrorExample` | x/dyncomm/ante/ante.go:55-60 | two messages that pass alone are refused together in one order and pass in the other |
| `DynCommTx.Execute` | x/dyncomm/ante/ante.go:44-78 | carrying out messages wrapped to any depth sets exactly the rates of the specified outcome: a refusal stops everything, except inside a packet, which is undone |
| `DynCommTx.GoesThroughIff` | x/dyncomm/ante/ante.go:44-78 | wrapping changes nothing: messages without packets go through exactly if their edits and creations, taken out in order, are each accepted in the state the ones before it leave |
| `DynCommTx.AllTakeEffect` | x/dyncomm/ante/ante.go:44-78 | and then all of them take effect, in that order |
| `DynCommTx.PacketIsExec` | x/dyncomm/ante/ante.go:55-70 | a packet does what an exec of its messages does, and nothing where the exec is refused |
| `DynCommTx.OutcomesFit` | x/dyncomm/ante/ante.go:80-97 | after the check, every edit that takes effect at any depth respects the stored minimum of its validator, and those at the top are exactly what the post handler sees |
| `DynCommTx.PostHandle` | x/dyncomm/post/post.go:36-69 | the targets become the rates set at the top, in order, whatever is wrapped |
| `DynCommTx.AllHeldIff` | x/dyncomm/post/post.go:36-69 | after any sequence of edits and creations all validators are between stored minimum and maximum exactly if no creation is left below a left-over minimum or keeps a left-over target above its maximum |
| `DynCommTx.Deliver` | x/dyncomm/ante/ante.go:34-97 | check, messages and post handler as one step, for any messages and any decisions of staking: when it is refused, in which case nothing changes, and exactly when all validators stay between stored minimum and maximum; transactions without creations always keep it |

## Left out

- Value re-encoding of code and contract infos (custom/wasm/legacy_store.go:226-259): two opaque functions of the value, since the legacy types are library code.
- The reverse iterator of the view, cache wrapping and tracing.
- The store iterator is a snapshot taken when it is opened; the migration writes only outside the family it walks over and deletes only keys already visited, so neither is seen by it.
- The square root in the standard deviation is a parameter (`root`): it is taken in floating point, and nothing proved depends on which function it is.
- RewardsFitPool assumes a vote period no longer than the distribution window, as the parameters are validated, and fewer than two times ten to the eighteen validators.
- Building the claim map from the staking store, clearing ballots, miss-counter slashing and jailing, and bank metadata registration in the oracle.
- EndVotePeriod: voters are distinct and no vote repeats a denom, as submission enforces (x/oracle/types/vote.go:65-95); powers are not negative.
- CapHolds assumes that the bonded total holds at least the tokens of each bonded validator, as the bonded pool does.
- DefaultTally and CommunityTally: bonded validators have shares, as staking keeps them; address conversions between accounts and validators are identities; the choice between the three tallies by height and flag is not modelled.
- Removing counted votes from the governance store.
- Stake and Unstake: staker addresses are byte strings already decoded; blocked recipients are not modelled.
- Insert and Remove: calls are atomic; the read lock that lets them overlap is not modelled. A queue and its lookup map are one value, and list elements carry a number in place of their address in memory.
- Staking's own end blocker: its updates are any difference between two active sets; consensus is a map that updates are applied to.
- Staking's own conditions on edits and creations beyond the maximum rate (daily change, the chain's minimum, who may sign) are a parameter of Deliver: any predicates. A packet that fails to parse has no effect.
- The `or` of shifted varint groups is an addition, since the groups do not overlap; the other generated messages follow the same pattern.
- Overflow panics of the decimal and integer library: integers are unbounded, rounding is as stated.
- The genesis of the dynamic commissions: it sets the targets and then updates as the weekly step does.
- Events, logging, telemetry, command line, genesis files other than the ones named, module wiring, treasury, and the remaining modules.
