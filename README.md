# Wallet ledger: a Dafny model

This project models the core of a small wallet service. A customer
(identified by a `customer_xid`) creates a wallet, enables or disables it,
reads its balance and transaction history, and deposits or withdraws
virtual money. The repository holds two variants of the service:

- the **current** service under `src/`. A deposit or withdrawal is validated,
  checked against the wallet row and recorded as a `pending` transaction,
  and the caller gets an answer at once. A background step later applies the
  balance change as a conditional update ("compare and set": the row is
  written only if its balance still equals the value read at admission) and
  marks the transaction `success` if a row changed, `failed` otherwise.
- the older **legacy** service at the repository root. It does the
  conditional balance update first, synchronously, and then inserts the
  transaction already marked `success` or `failed`.

How the model is built:

- **Tables as values.** The store's tables are values: a map from
  customer_xid to wallet row and a sequence of transaction rows. Each SQL
  statement of `src/repository/wallet_query.go` is a pure function over them
  (module `Queries`).
- **The store is a class.** `Repository.WalletRepository` keeps the two
  tables as fields. Its methods say how the tables change and which error a
  caller sees.
- **Store failures are parameters.** A write takes a `Fault`: the transaction
  fails to begin, the statement fails, or the commit fails. The history read
  takes a `ReadFault`: the query fails, the scan fails at a given row, or
  the cursor stops early with an error at a given row. A
  failed write leaves both tables unchanged.
- **Ids and timestamps are parameters.** Generated uuids and the clock
  (`time.Now()`, and `updated_at` set by the database) are passed in.
- **Settlement is an explicit step.** `Service.WalletService.Settle` is the
  body of the background step, called explicitly. A ghost set `inFlight`
  holds the settlements admitted but not yet run. The service invariant
  (`Service.WalletService.Valid`) says:
  - the tables are well formed: each wallet row sits under its own
    customer_xid, wallet ids are distinct, transaction ids are distinct;
  - every balance is non-negative;
  - every in-flight settlement's transaction row is still `pending`;
  - every in-flight settlement would write a non-negative balance different
    from its snapshot;
  - no two in-flight settlements share a transaction id.

  The older service's invariant (`LegacyService.LegacyWalletService.Valid`)
  is the same well-formedness, non-negative balances and no `pending` row.
- **The legacy store shares the repository class.** Its create, status
  update, wallet read, insert and balance update
  (`repository/wallet_repository_impl.go:22-94`, `:127-180`) run the same
  statements as the current store. So the members of
  `Repository.WalletRepository` model them too. Only its history read
  differs, and it is modelled in `LegacyRepository`.
- **Whole flows.** Module `Scenarios` runs a wallet through creation,
  enabling, a deposit and its settlement, an overdraft attempt, two deposits
  settled against the same balance, and a history read cut short.

Two behaviours of the code worth knowing:

- **Unset status.** A new wallet's status column is left at its default. The
  model calls that status `Unset` (an assumption about the schema; see
  "## Left out").
- **A never-enabled wallet can transact.** The deposit and withdrawal guards
  test only `wallet.Status == "disabled"`
  (src/service/wallet_service_impl.go:162, :224). So a wallet that was never
  enabled, whose status is still the column default, is admitted.

## Model

| member | source | states |
|---|---|---|
| Domain.WriteError | src/repository/wallet_repository_impl.go:21-40 | a write reports no error iff the store is healthy and the statement is accepted; a failed begin is reported as such; a failed commit of an accepted statement is a commit error |
| Web.ValidateCreateRequest | src/model/web/wallet_response.go:11 | no field error iff the customer id has 1 to 36 characters |
| Web.ValidateTransactionRequest | src/model/web/wallet_response.go:22-25 | no field error iff the amount is at least 1 and the reference is non-empty; an amount of 0 is reported as `required` |
| Web.TxStatusTextInjective | model/constants/constants.go:4-6 | the three transaction status texts are distinct |
| Web.WalletView | src/model/web/wallet_response.go:14-20 | the wallet response; which fields it keeps is the contract of Web.WalletViewKeepsExactly |
| Web.TransactionView | src/model/web/wallet_response.go:27-34 | the history entry; which fields it keeps is the contract of Web.TransactionViewKeepsExactly |
| Web.DepositView | src/model/web/wallet_response.go:36-43 | the deposit response; which fields it keeps is the contract of Web.ActorViewsKeepExactly |
| Web.WithdrawalView | src/model/web/wallet_response.go:45-52 | the withdrawal response; which fields it keeps is the contract of Web.ActorViewsKeepExactly |
| Web.WalletViewKeepsExactly | src/model/web/wallet_response.go:14-20 | two wallet rows give the same response iff they agree on id, owner, status, enabled_at and balance |
| Web.TransactionViewKeepsExactly | src/model/web/wallet_response.go:27-34 | two transaction rows give the same history entry iff they agree on id, status, created_at, type, amount and reference |
| Web.ActorViewsKeepExactly | src/model/web/wallet_response.go:36-52 | deposit and withdrawal responses keep exactly id, actor, status, timestamp, amount and reference |
| Queries.SelectWallet | src/repository/wallet_query.go:27-29 | the single-wallet read; what the store returns from it is the contract of Repository.WalletRepository.GetWallet |
| Queries.InsertWallet | src/repository/wallet_query.go:39-41 | the wallet insert; its effect is the contract of Queries.InsertWalletRow |
| Queries.SetWalletStatus | src/repository/wallet_query.go:31-37 | the status update; its effect is the contract of Queries.SetWalletStatusRow and Queries.SetWalletStatusOverrides |
| Queries.CasBalance | src/repository/wallet_query.go:4-10 | the conditional balance update; its effect is the contract of Queries.CasBalanceRows, Queries.CasConsumesSnapshot and Queries.CasOfCurrentBalance |
| Queries.InsertTransaction | src/repository/wallet_query.go:19-21 | the transaction insert; its effect is the contract of Queries.InsertTransactionRow |
| Queries.SelectTransactions | src/repository/wallet_query.go:23-25 | the history query; its result is the contract of Queries.SelectTransactionsRows and Queries.SelectOwnSortedRows |
| Queries.InsertWalletRow | src/repository/wallet_query.go:39-41 | a wallet insert is refused for a taken customer_xid or wallet id; otherwise it adds exactly one row with balance 0, no enabled_at and the given id, and changes nothing else |
| Queries.SetWalletStatusRow | src/repository/wallet_query.go:31-37 | the status update changes only the row of that customer_xid, setting status, enabled_at and updated_at |
| Queries.SetWalletStatusOverrides | src/service/wallet_service_impl.go:98-118 | a second status write on the same wallet overrides the first completely, so disabling needs no prior status check |
| Queries.CasBalanceRows | src/repository/wallet_query.go:4-10 | the conditional balance update moves exactly the rows with that id and that balance to the new balance and keeps every other row; with no such row the table is unchanged |
| Queries.CasConsumesSnapshot | src/repository/wallet_query.go:4-10 | right after an update has moved the balance away from the snapshot, no row matches that snapshot, so a second update from it run back to back, with no other balance update of that wallet in between, does not apply |
| Queries.SnapshotCanReturn | src/repository/wallet_query.go:4-10 | the update is conditioned on a value: moving a balance away from the snapshot and back makes the snapshot match again, so an older settlement from it still applies |
| Queries.CasOfCurrentBalance | src/repository/wallet_query.go:4-10 | an update from a wallet's current balance always applies and rewrites exactly that wallet |
| Queries.InsertTransactionRow | src/repository/wallet_query.go:19-21 | a transaction insert is refused for a taken id; otherwise the row is appended and nothing else changes |
| Queries.SetTransactionStatus | src/repository/wallet_query.go:12-17 | the status update rewrites status and updated_at of the rows with that id and keeps every other row |
| Queries.RowsOfWallet | src/repository/wallet_query.go:23-25 | the filter keeps exactly the rows of the wallet, never more rows than the table |
| Queries.InsertByCreated | src/repository/wallet_query.go:23-25 | inserting a row into a created_at-ordered list keeps it ordered and adds exactly that row |
| Queries.SortByCreated | src/repository/wallet_query.go:23-25 | the ordering yields a created_at-ordered permutation of its input |
| Queries.RowsOfWalletKeepsOrder | src/repository/wallet_query.go:23-25 | filtering a created_at-ordered table gives a created_at-ordered list |
| Queries.SortByCreatedOfSorted | src/repository/wallet_query.go:23-25 | ordering a list that is already in created_at order changes nothing |
| Queries.RowsOfWalletCounts | src/repository/wallet_query.go:23-25 | the filter keeps each row of the wallet exactly as often as the table holds it and no row of another wallet |
| Queries.SelectTransactionsRows | src/repository/wallet_query.go:23-25 | the history query returns exactly the wallet's rows, ordered by created_at, each exactly as often as in the table and none of another wallet; on a table kept in created_at order it is the plain filter |
| Queries.SelectOwnSortedRows | src/repository/wallet_query.go:23-25 | a created_at-ordered table whose rows all belong to one wallet is listed unchanged for that wallet |
| Repository.WalletRepository.CreateWallet | src/repository/wallet_repository_impl.go:21-40 | on success exactly one new wallet row under the customer_xid; on any failure the tables are unchanged and the error says which step failed |
| Repository.WalletRepository.UpdateWalletStatus | src/repository/wallet_repository_impl.go:42-61 | on success only that wallet's status, enabled_at and updated_at change; a missing wallet changes nothing |
| Repository.WalletRepository.GetWallet | src/repository/wallet_repository_impl.go:63-78 | returns the row of the customer_xid, or a no-rows error iff there is none |
| Repository.WalletRepository.GetWalletTransactions | src/repository/wallet_repository_impl.go:80-108 | a failing query or row scan is an error; a healthy read returns exactly the result of the history query; a cursor that stops early with an error returns the rows read so far as a success, because the cursor's error is never consulted |
| Repository.WalletRepository.GetWalletTransactionsChecked | src/repository/wallet_repository_impl.go:89-107 | the history read that also consults the cursor's error: it succeeds only with the whole result of the history query, and an early stop is reported as an iteration error |
| Repository.ScanRows | src/repository/wallet_repository_impl.go:89-107 | the row loop hands over every row in order, stops with an error at a failing scan, and at an early cursor stop returns the prefix read so far, or the iteration error when the cursor is consulted |
| Repository.WalletRepository.AddTransaction | src/repository/wallet_repository_impl.go:110-139 | on success the row is appended; on any failure or a duplicate id the tables are unchanged |
| Repository.WalletRepository.UpdateTransactionStatus | src/repository/wallet_repository_impl.go:141-158 | on success the status and updated_at of that transaction's rows change and nothing else |
| Repository.WalletRepository.UpdateWalletBalance | src/repository/wallet_repository_impl.go:160-178 | reports "updated" iff the store is healthy and the wallet still holds the expected balance; the wallets table is the conditional update's result or unchanged |
| Settlement.DepositSettlement | src/service/wallet_service_impl.go:186 | the deferred update a deposit captures: from the balance read at admission to that balance plus the amount; Service.WalletService.AddWalletBalance states what it puts in flight |
| Settlement.WithdrawalSettlement | src/service/wallet_service_impl.go:252 | the deferred update a withdrawal captures: from the balance read at admission to that balance minus the amount; Service.AdmittedWithdrawalLowersBalance states its bounds |
| Settlement.SettleEffect | src/service/wallet_service_impl.go:183-200 | one settlement step (conditional balance update, then status write); its effect is the contract of Settlement.SettleStatus, Settlement.SettleBalance and the lemmas below; the withdrawal step at src/service/wallet_service_impl.go:250-265 is the same step |
| Settlement.SettleStatus | src/service/wallet_service_impl.go:186-199 | the transaction becomes `success` iff the balance update applied, `failed` otherwise, keeps its status when the status write fails, and no other row is touched |
| Settlement.SettleBalance | src/service/wallet_service_impl.go:186-194 | a settlement that applied moved exactly its wallet from the snapshot to the new balance; one that did not leaves every wallet unchanged |
| Settlement.SettleKeepsNonNegative | src/service/wallet_service_impl.go:250-265 | a settlement writing a non-negative balance keeps every balance non-negative |
| Settlement.SettleKeepsWellFormed | src/repository/wallet_query.go:4-17 | a settlement keeps the table keys and row ids intact |
| Settlement.SuccessComesFromApplied | src/service/wallet_service_impl.go:191-196 | a `success` row after a settlement was there before or is this settlement's and its update applied |
| Settlement.UncontendedSettlementApplies | src/service/wallet_service_impl.go:183-200 | a settlement whose wallet still holds the snapshot applies on a healthy store, credits or debits exactly its amount and marks the transaction `success` |
| Settlement.AtMostOneSuccess | src/repository/wallet_query.go:4-10 | of two settlements taken from the same snapshot and run back to back, with no other balance update of that wallet in between, at most one applies and at most one transaction ends `success` (no lost update) |
| Settlement.AtLeastOneFails | src/service/wallet_service_impl.go:183-200 | of two pending transactions settled back to back from the same snapshot, with no other balance update of that wallet in between and with healthy status writes, at least one ends `failed`, whatever happens to the balance updates |
| Service.Refusal | src/service/wallet_service_impl.go:150-164 | the synchronous refusal of a deposit or withdrawal; when it refuses is the contract of Service.RefusalExactly |
| Service.RefusalExactly | src/service/wallet_service_impl.go:212-231 | a deposit or withdrawal is admitted iff the request is valid, the wallet exists and is not disabled and, for a withdrawal, the amount is at most the balance; an invalid request is refused with its field errors |
| Service.AdmittedWithdrawalLowersBalance | src/service/wallet_service_impl.go:212-231 | an admitted withdrawal's settlement writes a balance that is non-negative and strictly below the balance it was admitted against |
| Service.TransactionViews | src/service/wallet_service_impl.go:136-146 | one history entry per row, in row order |
| Service.WalletService.InitializeWallet | src/service/wallet_service_impl.go:30-48 | an invalid id is refused with its field errors; otherwise exactly the insert's outcome: one new wallet with balance 0, or no change and the store's error |
| Service.WalletService.GetWalletBalance | src/service/wallet_service_impl.go:50-63 | the wallet's response iff it exists, with a non-negative balance; otherwise a no-rows error |
| Service.WalletService.EnableWallet | src/service/wallet_service_impl.go:65-96 | a missing wallet or one already enabled is refused unchanged; otherwise, on a healthy store, the wallet becomes enabled with enabled_at = now and the response shows it |
| Service.WalletService.DisableWallet | src/service/wallet_service_impl.go:98-118 | disables any existing wallet whatever its status and clears enabled_at; a missing wallet or a failing store changes nothing |
| Service.WalletService.GetWalletTransactions | src/service/wallet_service_impl.go:120-148 | a missing wallet or a disabled one is refused; otherwise one entry per row the store's read hands over, in order (all of them when healthy, a prefix on an early cursor stop), or the store's read error |
| Service.WalletService.AddWalletBalance | src/service/wallet_service_impl.go:150-210 | refused exactly as the refusal rule says; otherwise a pending row is recorded and a settlement crediting the amount is put in flight; the balance is untouched |
| Service.WalletService.DeductWalletBalance | src/service/wallet_service_impl.go:212-275 | refused exactly as the refusal rule says, including an amount above the balance; otherwise a pending row and an in-flight settlement debiting the amount |
| Service.WalletService.RecordPending | src/service/wallet_service_impl.go:166-181 | inserts the pending row for the admitted request and, on success, puts its settlement in flight |
| Service.WalletService.Settle | src/service/wallet_service_impl.go:183-200 | the tables become the settlement step's result, the settlement leaves the in-flight set, the service invariant holds again, and rows already finalised are never rewritten |
| Service.PendingRowIsUnique | src/service/wallet_service_impl.go:166-177 | with unique transaction ids, a pending row of a transaction is its only row |
| Service.RecordedAwaits | src/service/wallet_service_impl.go:166-181 | appending the pending row makes its settlement await settlement and keeps every other awaiting settlement awaiting |
| LegacyRepository.SwappedScan | repository/wallet_repository_impl.go:108-118 | the older store's row scan; what it exchanges is the contract of LegacyRepository.SwappedScanExchanges |
| LegacyRepository.SwappedScanExchanges | repository/wallet_repository_impl.go:108-118 | the legacy scan's status equals the row's status text only when the reference happens to equal it, and its reference is always a status text |
| LegacyRepository.SwappedScanCounterexample | repository/wallet_repository_impl.go:108-118 | a settled deposit with reference "ref-1" is listed with status "ref-1" and reference "success" |
| LegacyRepository.GetWalletTransactions | repository/wallet_repository_impl.go:96-125 | a legacy read returns one scanned record per row handed over, in order, each with status and reference exchanged: every row when healthy, the rows before an early cursor stop as a success, and an error for a failing query or scan |
| LegacyService.WithdrawalRefusal | service/wallet_service_impl.go:180-191 | the older service's withdrawal refusal; when it refuses is the contract of LegacyService.WithdrawalRefusalExactly |
| LegacyService.WithdrawalRefusalExactly | service/wallet_service_impl.go:179-191 | a legacy withdrawal is admitted iff the wallet exists, is not disabled and the amount is at most the balance, with no request validation; whatever the current service admits the legacy one admits too |
| LegacyService.NegativeWithdrawalRaisesBalance | service/wallet_service_impl.go:179-193 | an admitted legacy withdrawal of a negative amount writes a balance above the current one |
| LegacyService.NegativeWithdrawalCounterexample | service/wallet_service_impl.go:179-193 | a withdrawal of -500 from a balance of 0 is admitted by the legacy service and writes 500, while the current service refuses it as invalid |
| LegacyService.MinIntWithdrawalCounterexample | service/wallet_service_impl.go:179-193 | a withdrawal of -2^63 from a balance of 0 is admitted by the legacy service; Go's `int` gives 0 - (-2^63) = -2^63, a negative balance, while the model's unbounded arithmetic writes 2^63 |
| Domain.WrapInt64 | service/wallet_service_impl.go:193 | the value of a Go `int` expression: always in [-2^63, 2^63), equal to the exact result when that is in range, and congruent to it modulo 2^64 |
| LegacyService.ScannedView | service/wallet_service_impl.go:115-125 | the older service's history entry; what it shows is the contract of LegacyService.ScannedViewExchanges |
| LegacyService.ScannedViewExchanges | service/wallet_service_impl.go:115-125 | a legacy history entry shows the row's reference as its status and the status text as its reference |
| LegacyService.ScannedViews | service/wallet_service_impl.go:115-126 | one legacy history entry per scanned record, in order |
| LegacyService.LegacyWalletService.InitializeWallet | service/wallet_service_impl.go:29-46 | an invalid id is refused; otherwise exactly the insert's outcome |
| LegacyService.LegacyWalletService.GetWalletBalance | service/wallet_service_impl.go:48-61 | the wallet's response iff it exists, otherwise a no-rows error |
| LegacyService.LegacyWalletService.EnableWallet | service/wallet_service_impl.go:63-82 | enables any existing wallet, already enabled or not, setting enabled_at = now |
| LegacyService.LegacyWalletService.DisableWallet | service/wallet_service_impl.go:84-102 | disables any existing wallet and clears enabled_at |
| LegacyService.LegacyWalletService.GetWalletTransactions | service/wallet_service_impl.go:104-127 | for any existing wallet, disabled or not, one entry per record the older store's read hands over, with status and reference exchanged (a prefix on an early cursor stop), or the read error |
| LegacyService.LegacyWalletService.AddWalletBalance | service/wallet_service_impl.go:129-177 | refused exactly as the current service refuses a deposit; otherwise the balance moves up by the amount first and the transaction is recorded `success` iff the update applied, `failed` otherwise, never `pending` |
| LegacyService.LegacyWalletService.DeductWalletBalance | service/wallet_service_impl.go:179-226 | refused exactly by the legacy withdrawal rule; otherwise the balance moves down by the amount and the transaction is recorded `success` iff the update applied |
| LegacyService.LegacyWalletService.MoveAndRecord | service/wallet_service_impl.go:144-167 | a failed balance update aborts with nothing recorded; otherwise the wallets table is the conditional update's result and the inserted transaction is `success` iff it applied, `failed` otherwise; a failed insert leaves the moved balance in place |
| Scenarios.DepositThenSettle | src/service/wallet_service_impl.go:150-200 | a deposit of 1000 to a new enabled wallet answers `pending` with the balance still 0; after settlement the balance is 1000 and the history lists the deposit as `success` |
| Scenarios.OverdraftRefused | src/service/wallet_service_impl.go:228-231 | on a balance of 1000 a withdrawal of 1001 is refused as insufficient and one of exactly 1000 is admitted |
| Scenarios.ContendedDeposits | src/service/wallet_service_impl.go:150-200 | two deposits of 1000 and 500 admitted against the balance 0 and then settled leave the balance at 1000, with the first listed `success` and the second `failed` |
| Scenarios.TruncatedHistory | src/repository/wallet_repository_impl.go:89-107 | on a two-row history whose cursor stops with an error after the first row, the read as written returns one row as a success, and the checked read returns the iteration error |

## Left out

- The background goroutine, its `time.Sleep` delay and its logging: the settlement is the explicit step `Settle`, and its errors are dropped, as the code only logs them. Interleavings with other requests are not modelled as concurrency. What holds at every step is `Settlement.SettleBalance`: an update that applies starts from the wallet's current balance, so it never overwrites a delta written since. Which settlements apply depends on the order they run in: `Settlement.AtMostOneSuccess` covers two run back to back, and `Queries.SnapshotCanReturn` shows why a third update that returns the balance to the snapshot lets both apply (the value-based condition cannot tell the snapshot from its return).
- Generated ids (`uuid.New()`) and clocks (`time.Now()`, the database's `CURRENT_TIMESTAMP` for `updated_at`) are parameters.
- Read failures of the single-wallet read other than "no row" are not modelled. So the re-read after a successful status write always finds the row.
- A history read whose row scan fails part-way returns only the error; the rows scanned before it, which the code also hands back beside the error, are not modelled.
- The validator library's internals: only the effect of the tags (`required`, `min`, `max`) on these two requests is modelled.
- Service.WalletService.AddWalletBalance: Go's 64-bit `int` overflow of `balance + amount` (src/service/wallet_service_impl.go:186) is not modelled; balances are unbounded integers.
- LegacyService.LegacyWalletService.AddWalletBalance: Go's 64-bit `int` overflow of `wallet.Balance+request.Amount` (service/wallet_service_impl.go:144) is not modelled; a deposit that pushes the balance past 2^63 - 1 wraps to a negative value in the code, while the model writes the exact sum and keeps `NonNegative`.
- LegacyService.LegacyWalletService.DeductWalletBalance: Go's 64-bit `int` overflow of `wallet.Balance-request.Amount` (service/wallet_service_impl.go:193) is not modelled. Because the amount is never validated, one request reaches it: a withdrawal of -2^63 from a balance of 0 is admitted and the code writes -2^63, a negative balance (or the statement fails if the column is narrower). The model writes 2^63, so its `NonNegative` invariant and `LegacyService.NegativeWithdrawalRaisesBalance` hold only in unbounded arithmetic; `LegacyService.MinIntWithdrawalCounterexample` exhibits the edge.
- Repository.WalletRepository.UpdateWalletBalance: "a row changed" is modelled as "a row matched". They differ only when the new balance equals the old one and updated_at already holds the current timestamp. The current service never writes an unchanged balance; an older-service withdrawal of 0 does (service/wallet_service_impl.go:179-193), and the model then reports the update as applied.
- LegacyService.LegacyWalletService.MoveAndRecord: without concurrent writers the update always applies, so the `failed` outcome is stated but only reachable when another request changed the balance in between, which the sequential model does not interleave.
- The table schema is not part of this model: unique customer_xid and transaction ids are assumed. A new wallet's status is the column default, assumed non-NULL and neither "enabled" nor "disabled" (`Unset`); a NULL default would make every read of a new wallet fail, because the status is scanned into a Go `string` (src/repository/wallet_repository_impl.go:68), and the never-enabled behaviour above rests on this assumption.
- After a failed statement the code returns without rolling back (src/repository/wallet_repository_impl.go:27-30, 48-51, 127-129, 147-150, 166-169), leaving the database transaction open. A failed commit is rolled back only by CreateWallet, UpdateWalletStatus and AddTransaction (src/repository/wallet_repository_impl.go:32-37, 53-58, 131-136); UpdateTransactionStatus and UpdateWalletBalance return without it (src/repository/wallet_repository_impl.go:152-155, 172-175). The model treats the abandoned transaction as having no effect and does not model the held connection or its locks.
- HTTP routing, JWT authentication, JSON encoding, database setup and `main.go` are outside the core.
- The legacy store has no transaction-status update; its service never calls one. Because of that gap its `NewWalletRepository` (repository/wallet_repository_impl.go:16-20) does not satisfy the interface at repository/wallet_repository.go:17, so the legacy package does not compile as written; the legacy model is of the code as written.
- The older service validates with its own request package (service/wallet_service_impl.go:13), which is not part of this model; it is assumed to carry the same tags as src/model/web/wallet_response.go:22-25.
- Queries.SortByCreated: rows with equal created_at keep their table order, whereas `order by created_at` leaves their order unspecified; the model commits to one admissible order.
- Error messages are constructors of `Domain.Error`, not texts.

## Findings

| source | as written | input that shows it | evidently intended | confidence | as-written member | corrected member |
|---|---|---|---|---|---|---|
| repository/wallet_repository_impl.go:108-118 | the history scan lists `Status` before `ReferenceID`, while the SELECT on line 98 lists `reference_id` before `status` | any row, e.g. a settled deposit with reference "ref-1" is listed with status "ref-1" and reference "success" | each column scanned into its own field, as in the current store | not executed | LegacyRepository.SwappedScanCounterexample | Repository.WalletRepository.GetWalletTransactions |
| service/wallet_service_impl.go:179-193 | the legacy withdrawal never validates the request, so a negative amount passes the balance check | a withdrawal of -500 from a wallet holding 0 writes a balance of 500; a withdrawal of -2^63 from a wallet holding 0 is admitted too, and Go's wrap-around of 0 - (-2^63) writes -2^63, a negative balance (LegacyService.MinIntWithdrawalCounterexample) | reject amounts below 1, as the deposit path and the current service do | not executed | LegacyService.NegativeWithdrawalCounterexample | Service.AdmittedWithdrawalLowersBalance |
| src/repository/wallet_repository_impl.go:89-107 | the row loop ends when `rows.Next()` is false and never consults `rows.Err()`, so a cursor that stops with an error looks like the end of the history; repository/wallet_repository_impl.go:106-124 has the same loop | a two-row history whose cursor fails after the first row is returned as one row with no error | report the cursor's error, as for a failing scan | not executed | Scenarios.TruncatedHistory | Repository.WalletRepository.GetWalletTransactionsChecked |
