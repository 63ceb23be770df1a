# Operation-log reconciliation of the flash-protocol console

The console keeps a local JSON log of what it did to its token contracts: configured
virtual balances, limits, targets, redeploys and errors. When a registered contract has
no code at its address (the local chain was restarted), the console deploys a
replacement and rebuilds its state from that log. It keeps the completed
`CONFIGURE_VIRTUAL_BALANCE` records of the old address. It sorts them latest first and
replays the first record per target account onto the new contract. It counts successes
and failures, and it appends a `REDEPLOY` record and a `redeployHistory` entry.

This recovery exists twice in the code:

- `verifyAndRecoverContract` in `scripts/utils/menu/balance.js`.
- `redeployInactiveTokens` in `scripts/utils/menu/listTokens.js`.

Only the second copy moves the registry entry to the new address.

This project models that core in Dafny, together with the parts that write and read the
log:

- the configuration menu (`configure.js`);
- the limits menu and the global error handler (`menu.js`);
- the log views (`view.js`);
- the normalisation of the data file (`loadData`/`saveData` in `menu.js`).

Modules:

- `Wrappers`: `Option` and `Result`. A `Result` failure stands for a thrown error.
- `Seqs`: `Array.prototype.filter`, `Array.prototype.map`, and the scan that keeps the
  first element per key with a `Set`. It also holds `[...new Set(xs)]` (`Distinct`).
- `Ordering`: the stable descending sort by an integer key, and the element it puts
  first.
- `Decimal`: `BigInt` `toString()` and the reading of a decimal amount string.
- `Records`: the log's records and the in-memory data object.
- `Contract`: the contract as two balance maps, plus the kinds of fault a call can raise.
- `Selection`: which records a recovery replays, and in which order.
- `Replay`: the replay loop (a method with loop invariants and its functional
  counterpart), the `REDEPLOY` record and the history entry.
- `Balance`: `verifyAndRecoverContract`, the latest-limits pick, `checkAllTargets`'
  target set, and the virtual-over-actual excess.
- `ListTokens`: the inactive split, the action list, the listing, the second recovery
  copy and the report shape.
- `View`, `Configure`, `Store`: `view.js`, `configure.js` and the data parts of
  `menu.js`.

Contract calls, deployment and `getCode` are parameters: a `Result` for what the call
yields or throws, and an oracle `Operation -> Fault` for the replay calls. A replayed
record either goes through, or its `setVirtualBalance` throws (`SetFault`), or one of
the two reads after it throws (`ReadFault`). The clock is an integer parameter.

Where the code and its documented behaviour differ, the model follows the code:

- A `getCode` error is rethrown by `verifyAndRecoverContract`
  (`balance.js:276-280`). `listDeployedTokens` catches it per token
  (`listTokens.js:128-131`), so that token is neither active nor inactive. It is not
  counted as unreachable.
- Only `redeployInactiveTokens` rewrites the registry entry's `address`
  (`listTokens.js:248`). `verifyAndRecoverContract` keeps the old address
  (`balance.js:234-246`). `ListTokens.UpdatesDifferOnlyInAddress` and
  `ListTokens.CopiesReplayAlike` state the difference, together with the `limits`
  that only `verifyAndRecoverContract` attaches to the results (`balance.js:204-214`).
- `loadData` returns `INITIAL_DATA` for a missing or unreadable file
  (`menu.js:45-46, 56-59`). `INITIAL_DATA` has no `limits` key, so `limits` is an
  array only when a file was read (`Store.LoadData`).

## Model

| member | source | states |
|---|---|---|
| Selection.ReplayOrder | scripts/utils/menu/balance.js:158-164 | The records replayed are exactly the completed `CONFIGURE_VIRTUAL_BALANCE` records of the probed address, each as often as in the log, in non-increasing timestamp order |
| Selection.EqualTimestampsKeepLogOrder | scripts/utils/menu/balance.js:164 | The sort is stable: records with equal timestamps are replayed in log order |
| Selection.LastWriterWins | scripts/utils/menu/balance.js:158-201 | For every target, the per-target scan keeps exactly one record if some candidate names the target, and none otherwise. The kept record is the latest candidate for that target, and among equal timestamps the first in the log |
| Selection.SelectionLatestFirst | scripts/utils/menu/balance.js:164-175 | The records kept by the scan are still ordered latest first |
| Selection.SelectedIsLatest | scripts/utils/menu/balance.js:167-196 | Each kept record is the latest candidate for its own target |
| Selection.SelectionCoversTargets | scripts/utils/menu/balance.js:167-196 | Every target named by a candidate record is kept |
| Replay.AttemptOutcome | scripts/utils/menu/balance.js:175-200 | One iteration: an already-processed target changes nothing. A successful replay adds one entry, one to `successful` and the target to the processed set. Any throw adds one to `failed` only. The actual balances are never changed |
| Replay.ReplayRecords | scripts/utils/menu/balance.js:166-202 | The loop as written: `successful` equals `balances.length`, `successful + failed` is at most the number of records, recorded targets are distinct, and `recovered` holds exactly when the logged amount is the decimal spelling of the read-back balance. The result equals `Replay.Run` |
| Replay.RunKeepsFirstSuccessPerTarget | scripts/utils/menu/balance.js:174-201 | The loop records, for each target, the first record (in replay order) whose replay does not throw. A failed attempt leaves its target open, so the next older record for it is tried |
| Replay.RunCounts | scripts/utils/menu/balance.js:187-195 | `successful` always counts the entries of `balances` |
| Replay.RunWhenEveryAttemptFails | scripts/utils/menu/balance.js:197-200 | When every replay throws, every record counts as failed, the loop is never aborted and nothing is recorded |
| Replay.RunWhenNoAttemptFails | scripts/utils/menu/balance.js:174-201 | When no replay throws, `failed` stays zero |
| Replay.ReplayMatchesSelection | scripts/utils/menu/balance.js:166-202 | When no replay throws, the recorded balances are the per-target selection, in order, one entry per kept record |
| Replay.EntrySpelling | scripts/utils/menu/balance.js:184-193 | An entry carries the record's raw amount string, and `recovered` holds exactly when that string is canonical decimal (no sign, no leading zero) |
| Replay.SelectedEntryIsLatest | scripts/utils/menu/balance.js:174-196 | When no replay throws, each entry of the selection holds the amount of its target's latest candidate, and `recovered` holds exactly when that amount is canonical |
| Replay.RecoveryReplaysLatestAmounts | scripts/utils/menu/balance.js:158-202 | When no replay throws: `failed` is zero, every candidate target is replayed exactly once, and each with the amount of its latest record (last writer wins) |
| Replay.FindProtocol | scripts/utils/menu/balance.js:232 | `findIndex`: the first registry entry with the address, or none when no entry has it |
| Replay.AppendHistory | scripts/utils/menu/balance.js:234-246 | The entry keeps its address and token data, and its history (absent counts as empty) grows by the one entry at the end |
| Balance.LatestLimits | scripts/utils/menu/balance.js:205-213 | The limits record chosen for a protocol is one of its own with the greatest `updatedAt`, and there is none exactly when the protocol has no record |
| Balance.LatestLimitsTieBreak | scripts/utils/menu/balance.js:206-208 | Among records with the same greatest `updatedAt`, the first in the list is chosen: every earlier record of the protocol is strictly older |
| Balance.RecordRecovery | scripts/utils/menu/balance.js:231-247 | The registry keeps its length and every address. The first entry with the probed address gains exactly one history entry at the end, and every other entry is unchanged |
| Balance.VerifyAndRecover | scripts/utils/menu/balance.js:141-281 | A `getCode` error is rethrown. A live address returns a handle at the same address with the data unchanged. A deployment error is rethrown before anything is written. Otherwise the handle is at the new address, exactly one record is appended to the log, and limits, targets, metadata and every registry address are unchanged |
| Balance.RecoveryRecord | scripts/utils/menu/balance.js:204-247 | The appended record is a completed `REDEPLOY` from the old to the new address. Its results are the replay's results (balances, `successful` equal to their count, and `failed`) with the latest limits attached. The registry entry's history ends with an entry carrying the same results |
| Balance.RecoveryAttachesLatestLimits | scripts/utils/menu/balance.js:204-214 | `limits` is set exactly when the data has a limits list holding a record for the protocol, and then it is the most recent one |
| Balance.NamedTargets | scripts/utils/menu/balance.js:360-364 | The non-empty targets of the protocol's records are exactly those collected |
| Balance.AllTargets | scripts/utils/menu/balance.js:359-366 | The targets checked are distinct and are exactly the non-empty targets of the protocol's records |
| Balance.Excess | scripts/utils/menu/balance.js:327-331 | A difference is shown exactly when the virtual balance exceeds the actual one, and adding it to the actual balance gives the virtual one |
| ListTokens.InactiveTokens | scripts/utils/menu/listTokens.js:28-52 | A registry entry is inactive exactly when `getCode` returns `0x` for its address, and registry order is kept |
| ListTokens.Actions | scripts/utils/menu/listTokens.js:134-141 | The action list starts with the redeploy option exactly when some token is inactive, and always ends with back, export and exit |
| ListTokens.ActionOf | scripts/utils/menu/listTokens.js:152-158 | A recognised label dispatches to the action that carries that label |
| ListTokens.ListDeployedTokens | scripts/utils/menu/listTokens.js:16-141 | An empty registry offers nothing. Otherwise the redeploy option is offered exactly when some registry entry has no code |
| ListTokens.ListedTargets | scripts/utils/menu/listTokens.js:76-99 | The listing reads balances for distinct targets, one per kept record |
| ListTokens.ListingShowsEachTargetOnce | scripts/utils/menu/listTokens.js:76-99 | The listed targets are exactly those named by the protocol's completed virtual-balance records, ordered by each target's latest timestamp |
| ListTokens.ListingMatchesRecovery | scripts/utils/menu/listTokens.js:184-227 | When no replay throws, the recovery replays exactly the targets the listing shows, in the same order |
| ListTokens.FirstLimits | scripts/utils/menu/listTokens.js:103 | The limits shown are the first record of the protocol in list order, and there are none when the list is absent or holds no record for it |
| ListTokens.FirstOfFilter | scripts/utils/menu/listTokens.js:103 | `find` and the head of `filter` agree: the first kept element is the first one in the list that satisfies the predicate |
| ListTokens.ListingLimitsStale | scripts/utils/menu/listTokens.js:103 | Whenever a protocol has a limits record newer than its first one, the listing (first record) and the recovery in `balance.js` (latest record) show different limits, the recovery's being the newer |
| ListTokens.ListingLimitsMayBeStale | scripts/utils/menu/listTokens.js:103 | An instance: with an older record listed before a newer one, the listing shows the older and the recovery carries the newer |
| ListTokens.MoveAndAppendHistory | scripts/utils/menu/listTokens.js:246-259 | After a redeploy the entry's address is the new address, which is also the `newAddress` of its last history entry. History grows by exactly one |
| ListTokens.UpdatesDifferOnlyInAddress | scripts/utils/menu/listTokens.js:246-259 | The two copies update a registry entry identically except for `address`, which only this copy rewrites |
| ListTokens.RecordRedeploy | scripts/utils/menu/listTokens.js:244-260 | The first entry with the old address moves to the new address and gains one history entry. Every other entry is unchanged |
| ListTokens.RedeployOne | scripts/utils/menu/listTokens.js:175-262 | A deployment error writes nothing. Otherwise exactly one completed `REDEPLOY` record to the new address, without limits, is appended, and earlier records are untouched |
| ListTokens.CopiesReplayAlike | scripts/utils/menu/listTokens.js:184-259 | Both copies record the same balances and counts. They differ in three places: the description, the `limits` that only the balance check attaches (`balance.js:204-214`), and the registry entry's address, which only this copy moves. The results are equal exactly when there are no limits to attach, and every other registry entry is the same in both |
| ListTokens.RedeployInactive | scripts/utils/menu/listTokens.js:168-270 | Every inactive token is attempted whatever happened to earlier ones. The log only grows, by exactly one completed `REDEPLOY` record per token whose deployment succeeded |
| ListTokens.EntryOf | scripts/utils/menu/listTokens.js:280-314 | A token's entry is an error exactly when its probe throws, or its contract is live and reading its current data throws. `isDeployed` is `code !== '0x'`, and current data is present exactly for deployed tokens |
| ListTokens.ExportTokenReport | scripts/utils/menu/listTokens.js:276-316 | `totalTokens` equals the registry length, with one entry per registry entry in order and the same address, even for entries that error |
| View.ViewOperations | scripts/utils/menu/view.js:13-126 | An empty log, `back` or a falsy pick shows nothing. `all` shows the log unchanged. Each filtered view shows a subsequence of the log holding exactly the operations whose field equals the pick |
| View.FilteredViewKeepsMultiplicity | scripts/utils/menu/view.js:81-101 | Each of the protocol, type and status views keeps every matching operation as often as the log holds it, and no other operation |
| View.UnaddressedNeverShownByProtocol | scripts/utils/menu/view.js:76-81 | Operations without a protocol address are never shown by the protocol view |
| View.ProtocolChoices | scripts/utils/menu/view.js:129 | The protocol chooser lists distinct values, exactly the protocol addresses found on some operation |
| View.TypeChoices | scripts/utils/menu/view.js:142 | The type chooser lists distinct values, exactly the types found on some operation |
| View.ChoicesInFirstOccurrenceOrder | scripts/utils/menu/view.js:128-152 | Both choosers list values in first-occurrence order: a new operation adds its value at the end exactly when it is new |
| View.StatusColor | scripts/utils/menu/view.js:211-222 | completed is green, pending yellow, failed red, and any other status white |
| Configure.BalanceOperation | scripts/utils/menu/configure.js:116-129 | The record is a replay candidate for the chosen protocol, names the chosen target, and its amount reads back as the integer sent to the contract |
| Configure.ErrorOperation | scripts/utils/menu/configure.js:80-86 | The error record is a failed `CONFIGURE_ERROR` carrying the message and no protocol, so no recovery replays it |
| Configure.LimitsFrom | scripts/utils/menu/configure.js:204-212 | A limits record exists exactly when all three conversions succeed. It carries the protocol and the clock, and its amounts read back as the converted integers, negative ones included |
| Configure.Dispatch | scripts/utils/menu/configure.js:61-75 | A successful configuration leaves the registry, metadata and `lastUpdate` alone. Only the virtual-balance configuration touches the log, and it appends exactly one completed `CONFIGURE_VIRTUAL_BALANCE` record |
| Configure.ConfigureProtocol | scripts/utils/menu/configure.js:9-90 | An empty registry or `back` changes nothing. Otherwise the log only grows, by at most one record, which is a completed virtual-balance record or a failed `CONFIGURE_ERROR` |
| Configure.SetBalanceRecordsAmount | scripts/utils/menu/configure.js:110-130 | A successful virtual-balance configuration appends one record for the chosen protocol and target, whose amount reads back as the integer sent |
| Configure.SetBalanceFailureLogsError | scripts/utils/menu/configure.js:110-136 | When the contract lookup, the conversion, the send or the wait throws, no virtual-balance record is written. Exactly one `CONFIGURE_ERROR` record carrying that error is appended instead |
| Configure.ConfiguredBalanceRecovers | scripts/utils/menu/configure.js:111-123 | A record written by the configuration replays to the same balance and reads as recovered |
| Configure.TargetAppended | scripts/utils/menu/configure.js:162-174 | One target record is appended, with `targets` created when absent. The log is untouched |
| Configure.LimitsAppended | scripts/utils/menu/configure.js:204-216 | One limits record for the protocol, stamped with the clock, is appended, with the list created when absent; its amounts read back as the converted integers, negative ones included. A conversion error is logged instead |
| Store.InitialData | scripts/menu.js:23-31 | The initial data has empty operations and protocols, version `1.0.0` and no `limits` key |
| Store.LoadData | scripts/menu.js:43-60 | A missing or unreadable file gives the initial data. Otherwise operations, protocols and limits come back as arrays (a missing one as empty), a falsy `lastUpdate` is replaced by the current time, and every other key is dropped |
| Store.SaveData | scripts/menu.js:62-75 | Exactly operations, protocols, a fresh `lastUpdate`, metadata and limits are written. `targets` and any other key are not |
| Store.SaveLoadRoundTrip | scripts/menu.js:48-70 | Loading what was saved gives back operations, protocols, metadata and limits, with `lastUpdate` the save time and `targets` lost |
| Store.NormaliseIdempotent | scripts/menu.js:48-70 | Normalising twice gives the same operations, protocols, limits and metadata as normalising once |
| Store.ManageLimits | scripts/menu.js:151-206 | With no protocols nothing changes. A conversion error fails the call before anything is written. Otherwise exactly one limits record for the chosen protocol is appended, with the list created when absent, whose amounts read back as the converted integers, negative ones included |
| Store.ErrorMessage | scripts/menu.js:267 | The logged message is never empty: a missing or empty message becomes `Unknown error` |
| Store.UnhandledRejection | scripts/menu.js:257-271 | A rejection with no reason (`undefined` or `null`) writes nothing, since reading its `message` throws in the handler. Any other reason writes back every loaded operation, in order, followed by exactly one failed `SYSTEM_ERROR` record carrying the message |
| Decimal.DecimalString | scripts/utils/menu/balance.js:190-192 | `toString()` of an integer gives a canonical decimal string whose value is that integer |
| Decimal.PrintsAs | scripts/utils/menu/balance.js:192 | An integer prints as a given string exactly when the string is canonical decimal with that value |
| Decimal.SignedRoundTrip | scripts/utils/menu/configure.js:207-209 | The `toString()` spelling of any integer, negative ones included, reads back as that integer |
| Ordering.SortDesc | scripts/utils/menu/balance.js:164 | The sort is a permutation, ordered by non-increasing key |
| Ordering.SortStable | scripts/utils/menu/balance.js:164 | Elements with equal keys keep their relative order |
| Seqs.DedupKeepsFirst | scripts/utils/menu/balance.js:167-201 | The scan with a `Set` of seen keys keeps, for each unseen key, exactly the first element with that key |
| Seqs.DistinctSnoc | scripts/utils/menu/view.js:129 | `[...new Set(xs)]` grows at the end exactly by a value not seen before |

## Left out

- Contract calls (`getCode`, `deploy`, `getContractAt`, `setVirtualBalance`, `balanceOf`, `getActualBalance`, `totalSupply`, `name`, `symbol`, `decimals`): foreign blockchain calls. They are parameters: a `Result` for what a call returns or throws, a ledger of declared and actual balances, and a fault oracle per replayed record. The contract's bytecode is not part of this model.
- Contract.Ledger: accounts are keyed by the exact address string. The prompts accept any spelling `ethers.isAddress` accepts, lower-case or checksummed (`configure.js:98`), and store the address as typed (`configure.js:122`). `processedAddresses` compares raw strings (`balance.js:175, 196`), so two spellings of one account are both replayed, the older record last. On chain both spellings reach one account, which ends up holding the older amount. The model keeps them as two accounts, each with its latest amount. The reported entries agree with the source, because each read follows the write just before it.
- Replay.AmountValue: the contract receives the logged amount string, which ethers coerces to an integer. The model reads digits only. Hexadecimal, signed or whitespace-padded amounts, which ethers would also accept, count as throwing.
- Conversion of typed amounts (`ethers.parseUnits`) and of printed amounts (`formatUnits`): foreign library. Converted amounts are integers in base units (negative for a typed leading minus sign), or the error the conversion throws.
- Timestamps are integers. ISO formatting, the `new Date(...)` parse in the sort comparator and its `NaN` for malformed strings are left out. One recovery reads the clock once, although the code reads it separately for the id, the record and the history entry. `Date.now()` ids are the prefix followed by the clock.
- The wall-clock `recent` view, `displayOperations` output and `exportOperations` writing a file. The export is modelled only as handing the log over.
- ListTokens.ListedTargets: the listing's balance reads are not wrapped in their own `try`. A throw there ends that token's listing in the outer `catch`, and the model only states which targets are read.
- `checkBalances`, `checkSpecificAddress`'s `BALANCE_CHECK` record and the balance-check prompts in `balance.js`, apart from the excess and the target set: prompt and output glue around contract reads.
- Event monitoring (`balance.js:487-561`, `menu.js:209-242`): callback and concurrency driven.
- `deploy.js` (floating-point gas and peg arithmetic) and `execute.js` (floating-point input validation): outside the log reconciliation.
- `scripts/utils/data/loader.js`, which `balance.js`, `listTokens.js`, `configure.js` and `view.js` import their `loadData`/`saveData` from, is not part of this model. `Store` models the copies in `menu.js`, and elsewhere the data object is passed in memory.
- File I/O failures in `saveData` (caught and printed), prompts, logging and colours, `process.exit` on `Sair`, and the `stack` field of error records.
- Promise concurrency in `exportTokenReport`: the entries do not depend on each other, so they are modelled as a map over the registry.
- Configure.Request: a typed virtual balance is a non-negative integer or a conversion error. A negative one converts, but `setVirtualBalance` then throws on it (`configure.js:111-112`); the model expresses that throw as a failed send in `ConfigEnv`.
- Store.LoadData: `INITIAL_DATA` is one shared object, returned by reference for a missing or unreadable file (`menu.js:46, 58`), and the unhandled-rejection handler pushes onto its `operations` (`menu.js:262`). A later load of a missing or unreadable file in the same process therefore returns the earlier `SYSTEM_ERROR` records too. The model returns fresh initial data on every load.
- Store.ManageLimits: the error thrown by a failed conversion reaches `mainMenu`'s `catch`, which only prints it. The model returns it as a failure.
