/** The wallet service with deferred settlement: wallet lifecycle, balance and
    history queries, and the admission of deposits and withdrawals, whose
    balance change runs later as a separate settlement step. */
module Service {
  import opened Domain
  import opened Queries
  import opened Web
  import opened Settlement
  import opened Repository

  /** A store error as the service reports it. */
  function FromStore(e: Option<StoreError>): Option<Error>
  {
    match e
    case None => None
    case Some(cause) => Some(Store(cause))
  }

  /** The synchronous refusal of a deposit or withdrawal, checked in this
      order: request validation, wallet lookup, disabled wallet, and for a
      withdrawal an amount above the balance. None: the request is admitted. */
  function Refusal(ws: map<string, Wallet>, customerXid: string, request: TransactionRequest, kind: TxType)
    : Option<Error>
  {
    var errs := ValidateTransactionRequest(request);
    if errs != [] then Some(Invalid(errs))
    else if customerXid !in ws then Some(Store(NoRows))
    else if ws[customerXid].status == Disabled then Some(WalletDisabled)
    else if kind == Withdrawal && request.amount > ws[customerXid].balance then Some(InsufficientBalance)
    else None
  }

  /** A deposit or withdrawal is admitted iff the request is valid, the wallet
      exists, it is not disabled (a wallet never enabled is admitted) and, for
      a withdrawal, the amount is at most the balance. */
  lemma RefusalExactly(ws: map<string, Wallet>, customerXid: string, request: TransactionRequest, kind: TxType)
    ensures Refusal(ws, customerXid, request, kind).None? <==>
      && ValidTransactionRequest(request)
      && customerXid in ws
      && ws[customerXid].status != Disabled
      && (kind == Withdrawal ==> request.amount <= ws[customerXid].balance)
    ensures !ValidTransactionRequest(request) ==>
      Refusal(ws, customerXid, request, kind) == Some(Invalid(ValidateTransactionRequest(request)))
  {
  }

  /** An admitted withdrawal's settlement writes a balance that is
      non-negative and strictly below the balance it was admitted against. */
  lemma AdmittedWithdrawalLowersBalance(ws: map<string, Wallet>, customerXid: string, request: TransactionRequest,
                                        txId: string)
    requires Refusal(ws, customerXid, request, Withdrawal).None?
    ensures customerXid in ws
    ensures var s := WithdrawalSettlement(txId, ws[customerXid], request.amount);
      0 <= s.newBalance < s.snapshot
  {
    RefusalExactly(ws, customerXid, request, Withdrawal);
  }

  /** What the service keeps true of an admitted settlement that has not run
      yet: the balance it would write is non-negative and differs from the
      snapshot, and its transaction's row is still pending. */
  ghost predicate AwaitingSettlement(ts: seq<Transaction>, s: Settlement)
  {
    s.newBalance >= 0 && s.newBalance != s.snapshot && HasStatus(ts, s.txId, Pending)
  }

  /** The history entries for the rows, one per row, in order. */
  method TransactionViews(rows: seq<Transaction>) returns (result: seq<TransactionResponse>)
    ensures |result| == |rows|
    ensures forall k :: 0 <= k < |rows| ==> result[k] == TransactionView(rows[k])
  {
    result := [];
    for i := 0 to |rows|
      invariant |result| == i
      invariant forall k :: 0 <= k < i ==> result[k] == TransactionView(rows[k])
    {
      result := result + [TransactionView(rows[i])];
    }
  }

  class WalletService {
    const repo: WalletRepository

    /** The settlements admitted whose deferred step has not run yet. */
    ghost var inFlight: set<Settlement>

    ghost predicate Valid()
      reads this, repo
    {
      && repo.Valid()
      && NonNegative(repo.wallets)
      && (forall s :: s in inFlight ==> AwaitingSettlement(repo.transactions, s))
      && (forall s1, s2 :: s1 in inFlight && s2 in inFlight && s1.txId == s2.txId ==> s1 == s2)
    }

    constructor (repo: WalletRepository)
      requires repo.Valid() && NonNegative(repo.wallets)
      ensures Valid()
      ensures this.repo == repo && inFlight == {}
    {
      this.repo := repo;
      inFlight := {};
    }

    /** Validates the customer id, then inserts a wallet with a new id. */
    method InitializeWallet(request: WalletCreateRequest, walletId: string, now: Time, fault: Fault)
      returns (err: Option<Error>)
      requires Valid()
      modifies repo
      ensures Valid()
      ensures !ValidCreateRequest(request) ==>
        err == Some(Invalid(ValidateCreateRequest(request))) && repo.wallets == old(repo.wallets)
      ensures ValidCreateRequest(request) ==>
        var inserted := InsertWallet(old(repo.wallets), walletId, request.customerXid, now);
        && err == FromStore(WriteError(fault, inserted.Some?))
        && repo.wallets == (if err.None? then inserted.value else old(repo.wallets))
      ensures err.None? ==>
        && request.customerXid !in old(repo.wallets)
        && repo.wallets == old(repo.wallets)[request.customerXid := Wallet(walletId, request.customerXid, Unset, None, 0, now, now)]
      ensures repo.transactions == old(repo.transactions)
    {
      var errs := ValidateCreateRequest(request);
      if errs != [] {
        return Some(Invalid(errs));
      }
      var wallet := Wallet(walletId, request.customerXid, Unset, None, 0, 0, 0);
      var e := repo.CreateWallet(wallet, now, fault);
      return FromStore(e);
    }

    /** The wallet of a customer as a response. */
    method GetWalletBalance(customerXid: string) returns (r: Result<WalletResponse, Error>)
      requires Valid()
      ensures r.Ok? <==> customerXid in repo.wallets
      ensures r.Ok? ==> r.value == WalletView(repo.wallets[customerXid]) && r.value.ownedBy == customerXid
      ensures r.Ok? ==> r.value.balance >= 0
      ensures r.Err? ==> r.error == Store(NoRows)
    {
      var w := repo.GetWallet(customerXid);
      if w.Err? {
        return Err(Store(w.error));
      }
      return Ok(WalletView(w.value));
    }

    /** Refuses a wallet that is already enabled; otherwise writes `enabled`
        with the current time and returns the re-read row. */
    method EnableWallet(customerXid: string, now: Time, fault: Fault) returns (r: Result<WalletResponse, Error>)
      requires Valid()
      modifies repo
      ensures Valid()
      ensures customerXid !in old(repo.wallets) ==> r == Err(Store(NoRows)) && repo.wallets == old(repo.wallets)
      ensures customerXid in old(repo.wallets) && old(repo.wallets)[customerXid].status == Enabled ==>
        r == Err(AlreadyEnabled) && repo.wallets == old(repo.wallets)
      ensures customerXid in old(repo.wallets) && old(repo.wallets)[customerXid].status != Enabled ==>
        && (r.Ok? <==> fault == Healthy)
        && (r.Err? ==> Some(r.error) == FromStore(WriteError(fault, true)) && repo.wallets == old(repo.wallets))
      ensures r.Ok? ==>
        && repo.wallets == old(repo.wallets)[customerXid :=
             old(repo.wallets)[customerXid].(status := Enabled, enabledAt := Some(now), updatedAt := now)]
        && r.value == WalletView(repo.wallets[customerXid])
        && r.value.status == Enabled && r.value.enabledAt == Some(now)
      ensures repo.transactions == old(repo.transactions)
    {
      var w := repo.GetWallet(customerXid);
      if w.Err? {
        return Err(Store(w.error));
      }
      if w.value.status == Enabled {
        return Err(AlreadyEnabled);
      }
      var e := repo.UpdateWalletStatus(customerXid, Enabled, Some(now), now, fault);
      if e.Some? {
        return Err(Store(e.value));
      }
      // The re-read finds the row just written; read failures other than a
      // missing row are not part of the store model.
      var again := repo.GetWallet(customerXid);
      assert again.Ok?;
      return Ok(WalletView(again.value));
    }

    /** Writes `disabled` and clears enabled_at without looking at the current
        status, then returns the re-read row. */
    method DisableWallet(customerXid: string, now: Time, fault: Fault) returns (r: Result<WalletResponse, Error>)
      requires Valid()
      modifies repo
      ensures Valid()
      ensures r.Ok? <==> fault == Healthy && customerXid in old(repo.wallets)
      ensures fault != Healthy ==> Some(r.error) == FromStore(WriteError(fault, true)) && repo.wallets == old(repo.wallets)
      ensures fault == Healthy && customerXid !in old(repo.wallets) ==> r == Err(Store(NoRows)) && repo.wallets == old(repo.wallets)
      ensures r.Ok? ==>
        && repo.wallets == old(repo.wallets)[customerXid :=
             old(repo.wallets)[customerXid].(status := Disabled, enabledAt := None, updatedAt := now)]
        && r.value == WalletView(repo.wallets[customerXid])
        && r.value.status == Disabled && r.value.enabledAt == None
      ensures repo.transactions == old(repo.transactions)
    {
      var e := repo.UpdateWalletStatus(customerXid, Disabled, None, now, fault);
      if e.Some? {
        return Err(Store(e.value));
      }
      var w := repo.GetWallet(customerXid);
      if w.Err? {
        return Err(Store(w.error));
      }
      return Ok(WalletView(w.value));
    }

    /** The transaction history of an existing wallet that is not disabled,
        one entry per row the store's read hands over, in the same order. */
    method GetWalletTransactions(customerXid: string, fault: ReadFault)
      returns (r: Result<seq<TransactionResponse>, Error>)
      requires Valid()
      ensures customerXid !in repo.wallets ==> r == Err(Store(NoRows))
      ensures customerXid in repo.wallets && repo.wallets[customerXid].status == Disabled ==> r == Err(WalletDisabled)
      ensures customerXid in repo.wallets && repo.wallets[customerXid].status != Disabled ==>
        var rows := SelectTransactions(repo.transactions, repo.wallets[customerXid].id);
        && (fault == QueryFails ==> r == Err(Store(QueryFailed)))
        && (r.Ok? <==> fault == ReadHealthy || fault.NextFailsAt? || (fault.ScanFailsAt? && fault.row >= |rows|))
        && (fault.ScanFailsAt? && fault.row < |rows| ==> r == Err(Store(ScanFailed)))
        && (r.Ok? ==>
              && |r.value| == RowsDelivered(|rows|, fault)
              && forall i :: 0 <= i < |r.value| ==> r.value[i] == TransactionView(rows[i]))
    {
      var w := repo.GetWallet(customerXid);
      if w.Err? {
        return Err(Store(w.error));
      }
      if w.value.status == Disabled {
        return Err(WalletDisabled);
      }
      assert w.value == repo.wallets[customerXid];
      var rows := repo.GetWalletTransactions(w.value.id, fault);
      if rows.Err? {
        return Err(Store(rows.error));
      }
      var result := TransactionViews(rows.value);
      return Ok(result);
    }

    /** Admits a deposit: validates the request, refuses a missing or disabled
        wallet, records a pending transaction and hands back the settlement to
        run later. The balance is not touched here. */
    method AddWalletBalance(customerXid: string, request: TransactionRequest, txId: string, now: Time, fault: Fault)
      returns (r: Result<DepositResponse, Error>, spawned: Option<Settlement>)
      requires Valid()
      modifies this, repo
      ensures Valid()
      ensures repo.wallets == old(repo.wallets)
      ensures r.Err? ==> spawned == None && inFlight == old(inFlight) && repo.transactions == old(repo.transactions)
      ensures Refusal(old(repo.wallets), customerXid, request, Deposit).Some? ==>
        r == Err(Refusal(old(repo.wallets), customerXid, request, Deposit).value)
      ensures Refusal(old(repo.wallets), customerXid, request, Deposit).None? ==>
        var w := old(repo.wallets)[customerXid];
        var t := Transaction(txId, w.id, w.customerXid, Deposit, request.amount, request.referenceId, Pending, now, now);
        && (r.Ok? <==> fault == Healthy && !TransactionIdTaken(old(repo.transactions), txId))
        && (r.Err? ==> Some(r.error) == FromStore(WriteError(fault, !TransactionIdTaken(old(repo.transactions), txId))))
        && (r.Ok? ==>
              && repo.transactions == old(repo.transactions) + [t]
              && r.value == DepositView(t)
              && spawned == Some(DepositSettlement(txId, w, request.amount))
              && inFlight == old(inFlight) + {spawned.value})
      ensures r.Ok? ==> r.value.status == Pending && r.value.amount == request.amount
                        && r.value.referenceId == request.referenceId && r.value.depositedBy == customerXid
    {
      var errs := ValidateTransactionRequest(request);
      if errs != [] {
        return Err(Invalid(errs)), None;
      }
      var w := repo.GetWallet(customerXid);
      if w.Err? {
        return Err(Store(w.error)), None;
      }
      var wallet := w.value;
      if wallet.status == Disabled {
        return Err(WalletDisabled), None;
      }
      var s := DepositSettlement(txId, wallet, request.amount);
      var recorded := RecordPending(wallet, Deposit, request, txId, now, fault, s);
      if recorded.Err? {
        return Err(recorded.error), None;
      }
      return Ok(DepositView(recorded.value)), Some(s);
    }

    /** Admits a withdrawal: as a deposit, and in addition refuses an amount
        above the balance read now (an amount equal to it is admitted). */
    method DeductWalletBalance(customerXid: string, request: TransactionRequest, txId: string, now: Time, fault: Fault)
      returns (r: Result<WithdrawalResponse, Error>, spawned: Option<Settlement>)
      requires Valid()
      modifies this, repo
      ensures Valid()
      ensures repo.wallets == old(repo.wallets)
      ensures r.Err? ==> spawned == None && inFlight == old(inFlight) && repo.transactions == old(repo.transactions)
      ensures Refusal(old(repo.wallets), customerXid, request, Withdrawal).Some? ==>
        r == Err(Refusal(old(repo.wallets), customerXid, request, Withdrawal).value)
      ensures Refusal(old(repo.wallets), customerXid, request, Withdrawal).None? ==>
        var w := old(repo.wallets)[customerXid];
        var t := Transaction(txId, w.id, w.customerXid, Withdrawal, request.amount, request.referenceId, Pending, now, now);
        && (r.Ok? <==> fault == Healthy && !TransactionIdTaken(old(repo.transactions), txId))
        && (r.Err? ==> Some(r.error) == FromStore(WriteError(fault, !TransactionIdTaken(old(repo.transactions), txId))))
        && (r.Ok? ==>
              && repo.transactions == old(repo.transactions) + [t]
              && r.value == WithdrawalView(t)
              && spawned == Some(WithdrawalSettlement(txId, w, request.amount))
              && inFlight == old(inFlight) + {spawned.value})
      ensures r.Ok? ==> r.value.status == Pending && r.value.amount == request.amount
                        && r.value.referenceId == request.referenceId && r.value.withdrawnBy == customerXid
      ensures spawned.Some? ==> 0 <= spawned.value.newBalance < spawned.value.snapshot
    {
      var errs := ValidateTransactionRequest(request);
      if errs != [] {
        return Err(Invalid(errs)), None;
      }
      var w := repo.GetWallet(customerXid);
      if w.Err? {
        return Err(Store(w.error)), None;
      }
      var wallet := w.value;
      if wallet.status == Disabled {
        return Err(WalletDisabled), None;
      }
      if request.amount > wallet.balance {
        return Err(InsufficientBalance), None;
      }
      var s := WithdrawalSettlement(txId, wallet, request.amount);
      var recorded := RecordPending(wallet, Withdrawal, request, txId, now, fault, s);
      if recorded.Err? {
        return Err(recorded.error), None;
      }
      return Ok(WithdrawalView(recorded.value)), Some(s);
    }

    /** The write shared by deposit and withdrawal admission: records the
        transaction as pending against the wallet read and, once it is
        stored, puts its settlement in flight. */
    method RecordPending(wallet: Wallet, kind: TxType, request: TransactionRequest, txId: string, now: Time,
                         fault: Fault, s: Settlement)
      returns (r: Result<Transaction, Error>)
      requires Valid()
      requires s.txId == txId && s.newBalance >= 0 && s.newBalance != s.snapshot
      modifies this, repo
      ensures Valid()
      ensures repo.wallets == old(repo.wallets)
      ensures var t := Transaction(txId, wallet.id, wallet.customerXid, kind, request.amount, request.referenceId,
                                   Pending, now, now);
        && (r.Ok? <==> fault == Healthy && !TransactionIdTaken(old(repo.transactions), txId))
        && (r.Ok? ==> r.value == t && repo.transactions == old(repo.transactions) + [t]
                      && inFlight == old(inFlight) + {s})
        && (r.Err? ==>
              && Some(r.error) == FromStore(WriteError(fault, !TransactionIdTaken(old(repo.transactions), txId)))
              && repo.transactions == old(repo.transactions) && inFlight == old(inFlight))
    {
      var transaction := Transaction(txId, wallet.id, wallet.customerXid, kind, request.amount,
                                     request.referenceId, Pending, now, now);
      var e := repo.AddTransaction(transaction, fault);
      if e.Some? {
        return Err(Store(e.value));
      }
      RecordedAwaits(old(repo.transactions), transaction, s);
      inFlight := inFlight + {s};
      return Ok(transaction);
    }

    /** The deferred step of an admitted deposit or withdrawal: the conditional
        balance update from the snapshot, then the transaction's status set to
        `success` if a row changed and `failed` otherwise. Store errors are
        only logged. Each admitted settlement runs once, and only a pending
        transaction is ever finalised. */
    method Settle(s: Settlement, now: Time, casFault: Fault, statusFault: Fault)
      requires Valid()
      requires s in inFlight
      modifies this, repo
      ensures Valid()
      ensures inFlight == old(inFlight) - {s}
      ensures repo.State() == SettleEffect(old(repo.State()), s, now, casFault, statusFault).state
      ensures |repo.transactions| == |old(repo.transactions)|
      ensures forall i :: 0 <= i < |old(repo.transactions)| && old(repo.transactions)[i].status != Pending ==>
        repo.transactions[i] == old(repo.transactions)[i]
    {
      ghost var before := repo.State();
      var updated, casErr := repo.UpdateWalletBalance(s.walletId, s.snapshot, s.newBalance, now, casFault);
      var status := if updated then Success else Failed;
      var statusErr := repo.UpdateTransactionStatus(s.txId, status, now, statusFault);
      inFlight := inFlight - {s};
      SettleStatus(before, s, now, casFault, statusFault);
      SettleKeepsNonNegative(before, s, now, casFault, statusFault);
      PendingRowIsUnique(before.transactions, s.txId);
      forall s' | s' in inFlight ensures AwaitingSettlement(repo.transactions, s') {
        var i :| 0 <= i < |before.transactions| && before.transactions[i].id == s'.txId
                 && before.transactions[i].status == Pending;
        assert repo.transactions[i] == before.transactions[i];
      }
    }
  }

  /** With unique transaction ids, a pending row for `id` is the only row for
      `id`, so every row that is not pending belongs to another transaction. */
  lemma PendingRowIsUnique(ts: seq<Transaction>, id: string)
    requires forall i, j :: 0 <= i < j < |ts| ==> ts[i].id != ts[j].id
    requires HasStatus(ts, id, Pending)
    ensures forall i :: 0 <= i < |ts| && ts[i].status != Pending ==> ts[i].id != id
  {
    var k :| 0 <= k < |ts| && ts[k].id == id && ts[k].status == Pending;
  }

  /** Appending a row keeps every row's status, and the row an admission
      appends is pending, so the settlement it spawns finds it pending. */
  lemma RecordedAwaits(ts: seq<Transaction>, t: Transaction, s: Settlement)
    requires t.status == Pending && s.txId == t.id
    ensures HasStatus(ts + [t], s.txId, Pending)
    ensures forall id, st :: HasStatus(ts, id, st) ==> HasStatus(ts + [t], id, st)
  {
    assert (ts + [t])[|ts|] == t;
    forall id, st | HasStatus(ts, id, st) ensures HasStatus(ts + [t], id, st) {
      var i :| 0 <= i < |ts| && ts[i].id == id && ts[i].status == st;
      assert (ts + [t])[i] == ts[i];
    }
  }
}
