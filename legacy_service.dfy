/** The older synchronous wallet service: deposits and withdrawals update the
    balance at once with a conditional update from the balance just read, and
    then record a transaction whose status is already final. */
module LegacyService {
  import opened Domain
  import opened Queries
  import opened Web
  import opened Settlement
  import opened Repository
  import opened LegacyRepository
  import opened Service

  /** No transaction row is pending. */
  ghost predicate NoPending(ts: seq<Transaction>)
  {
    forall i :: 0 <= i < |ts| ==> ts[i].status != Pending
  }

  /** The synchronous refusal of an older-service withdrawal: the request is
      not validated; a missing wallet, a disabled wallet and an amount above
      the balance are refused, in that order. */
  function WithdrawalRefusal(ws: map<string, Wallet>, customerXid: string, request: TransactionRequest)
    : Option<Error>
  {
    if customerXid !in ws then Some(Store(NoRows))
    else if ws[customerXid].status == Disabled then Some(WalletDisabled)
    else if request.amount > ws[customerXid].balance then Some(InsufficientBalance)
    else None
  }

  /** An older-service withdrawal is admitted iff the wallet exists, is not
      disabled and holds at least the amount; the amount and the reference are
      not otherwise constrained, so every request the current service admits
      is admitted here too. */
  lemma WithdrawalRefusalExactly(ws: map<string, Wallet>, customerXid: string, request: TransactionRequest)
    ensures WithdrawalRefusal(ws, customerXid, request).None? <==>
      customerXid in ws && ws[customerXid].status != Disabled && request.amount <= ws[customerXid].balance
    ensures Refusal(ws, customerXid, request, Withdrawal).None? ==> WithdrawalRefusal(ws, customerXid, request).None?
  {
    RefusalExactly(ws, customerXid, request, Withdrawal);
  }

  /** Without validation, a withdrawal of a negative amount from an enabled
      wallet is admitted and its balance update raises the balance; the
      current service refuses the same request as invalid. */
  lemma NegativeWithdrawalRaisesBalance(ws: map<string, Wallet>, customerXid: string, request: TransactionRequest)
    requires customerXid in ws && ws[customerXid].status == Enabled && ws[customerXid].balance >= 0
    requires request.amount < 0
    ensures WithdrawalRefusal(ws, customerXid, request) == None
    ensures WithdrawalSettlement("", ws[customerXid], request.amount).newBalance > ws[customerXid].balance
    ensures Refusal(ws, customerXid, request, Withdrawal) == Some(Invalid(ValidateTransactionRequest(request)))
  {
    RefusalExactly(ws, customerXid, request, Withdrawal);
  }

  /** A withdrawal of -500 with reference "ref-1" from an enabled wallet holding
      0 is admitted and moves the balance to 500. */
  lemma NegativeWithdrawalCounterexample()
    ensures WithdrawalRefusal(map["c-1" := Wallet("w-1", "c-1", Enabled, Some(0), 0, 0, 0)], "c-1",
                              TransactionRequest(-500, "ref-1")) == None
    ensures WithdrawalSettlement("t-1", Wallet("w-1", "c-1", Enabled, Some(0), 0, 0, 0), -500).newBalance == 500
    ensures Refusal(map["c-1" := Wallet("w-1", "c-1", Enabled, Some(0), 0, 0, 0)], "c-1",
                    TransactionRequest(-500, "ref-1"), Withdrawal) == Some(Invalid([FieldError("Amount", "min")]))
  {
    var request := TransactionRequest(-500, "ref-1");
    assert AmountErrors(-500) == [FieldError("Amount", "min")];
    assert ReferenceErrors("ref-1") == [];
    assert ValidateTransactionRequest(request) == [FieldError("Amount", "min")];
    RefusalExactly(map["c-1" := Wallet("w-1", "c-1", Enabled, Some(0), 0, 0, 0)], "c-1", request, Withdrawal);
  }

  /** The smallest Go `int`, -2^63, as a withdrawal amount: the older service
      admits it against an enabled wallet holding 0, and the balance it then
      computes, 0 - (-2^63), wraps around in 64 bits to -2^63 itself, so the
      wallet is left negative. The unbounded balance the model writes is 2^63. */
  lemma MinIntWithdrawalCounterexample()
    ensures WithdrawalRefusal(map["c-1" := Wallet("w-1", "c-1", Enabled, Some(0), 0, 0, 0)], "c-1",
                              TransactionRequest(-0x8000_0000_0000_0000, "ref-1")) == None
    ensures WithdrawalSettlement("t-1", Wallet("w-1", "c-1", Enabled, Some(0), 0, 0, 0),
                                 -0x8000_0000_0000_0000).newBalance == 0x8000_0000_0000_0000
    ensures WrapInt64(0 - -0x8000_0000_0000_0000) == -0x8000_0000_0000_0000
  {
  }

  /** A history entry as the older service builds it from a scanned record. */
  function ScannedView(s: ScannedTransaction): TransactionResponse
  {
    TransactionResponse(s.id, s.status, s.createdAt, s.txType, s.amount, s.referenceId)
  }

  /** An older history entry is the current one with status and reference
      exchanged: it shows the row's reference as its status and the row's
      status text as its reference. */
  lemma ScannedViewExchanges(t: Transaction)
    ensures ScannedView(SwappedScan(t)) ==
      TransactionView(t).(status := t.referenceId, referenceId := TxStatusText(t.status))
    ensures ScannedView(SwappedScan(t)) == TransactionView(t) <==> t.referenceId == TxStatusText(t.status)
  {
    SwappedScanExchanges(t);
  }

  /** The history entries for the scanned records, one per record, in order. */
  method ScannedViews(records: seq<ScannedTransaction>) returns (result: seq<TransactionResponse>)
    ensures |result| == |records|
    ensures forall k :: 0 <= k < |records| ==> result[k] == ScannedView(records[k])
  {
    result := [];
    for i := 0 to |records|
      invariant |result| == i
      invariant forall k :: 0 <= k < i ==> result[k] == ScannedView(records[k])
    {
      result := result + [ScannedView(records[i])];
    }
  }

  class LegacyWalletService {
    const repo: WalletRepository

    /** Balances stay non-negative and every recorded transaction is final. */
    ghost predicate Valid()
      reads this, repo
    {
      repo.Valid() && NonNegative(repo.wallets) && NoPending(repo.transactions)
    }

    constructor (repo: WalletRepository)
      requires repo.Valid() && NonNegative(repo.wallets) && NoPending(repo.transactions)
      ensures Valid()
      ensures this.repo == repo
    {
      this.repo := repo;
    }

    /** Validates the customer id, then inserts a wallet with a new id. */
    method InitializeWallet(request: WalletCreateRequest, walletId: string, now: Time, fault: Fault)
      returns (err: Option<Error>)
      requires Valid()
      modifies repo
      ensures Valid()
      ensures !ValidCreateRequest(request) ==>
        err == Some(Invalid(ValidateCreateRequest(request))) && repo.wallets == old(repo.wallets)
      ensures ValidCreateRequest(request) ==>
        var inserted := InsertWallet(old(repo.wallets), walletId, request.customerXid, now);
        && err == FromStore(WriteError(fault, inserted.Some?))
        && repo.wallets == (if err.None? then inserted.value else old(repo.wallets))
      ensures repo.transactions == old(repo.transactions)
    {
      var errs := ValidateCreateRequest(request);
      if errs != [] {
        return Some(Invalid(errs));
      }
      var wallet := Wallet(walletId, request.customerXid, Unset, None, 0, 0, 0);
      var e := repo.CreateWallet(wallet, now, fault);
      return FromStore(e);
    }

    /** The wallet of a customer as a response. */
    method GetWalletBalance(customerXid: string) returns (r: Result<WalletResponse, Error>)
      requires Valid()
      ensures r.Ok? <==> customerXid in repo.wallets
      ensures r.Ok? ==> r.value == WalletView(repo.wallets[customerXid]) && r.value.balance >= 0
      ensures r.Err? ==> r.error == Store(NoRows)
    {
      var w := repo.GetWallet(customerXid);
      if w.Err? {
        return Err(Store(w.error));
      }
      return Ok(WalletView(w.value));
    }

    /** Writes `enabled` with the current time whatever the current status,
        then returns the re-read row: enabling an enabled wallet succeeds and
        moves its enabled_at. */
    method EnableWallet(customerXid: string, now: Time, fault: Fault) returns (r: Result<WalletResponse, Error>)
      requires Valid()
      modifies repo
      ensures Valid()
      ensures r.Ok? <==> fault == Healthy && customerXid in old(repo.wallets)
      ensures fault != Healthy ==>
        Some(r.error) == FromStore(WriteError(fault, true)) && repo.wallets == old(repo.wallets)
      ensures fault == Healthy && customerXid !in old(repo.wallets) ==>
        r == Err(Store(NoRows)) && repo.wallets == old(repo.wallets)
      ensures r.Ok? ==>
        && repo.wallets == old(repo.wallets)[customerXid :=
             old(repo.wallets)[customerXid].(status := Enabled, enabledAt := Some(now), updatedAt := now)]
        && r.value == WalletView(repo.wallets[customerXid])
        && r.value.status == Enabled && r.value.enabledAt == Some(now)
      ensures repo.transactions == old(repo.transactions)
    {
      var e := repo.UpdateWalletStatus(customerXid, Enabled, Some(now), now, fault);
      if e.Some? {
        return Err(Store(e.value));
      }
      var w := repo.GetWallet(customerXid);
      if w.Err? {
        return Err(Store(w.error));
      }
      return Ok(WalletView(w.value));
    }

    /** Writes `disabled` and clears enabled_at, then returns the re-read row. */
    method DisableWallet(customerXid: string, now: Time, fault: Fault) returns (r: Result<WalletResponse, Error>)
      requires Valid()
      modifies repo
      ensures Valid()
      ensures r.Ok? <==> fault == Healthy && customerXid in old(repo.wallets)
      ensures fault != Healthy ==>
        Some(r.error) == FromStore(WriteError(fault, true)) && repo.wallets == old(repo.wallets)
      ensures fault == Healthy && customerXid !in old(repo.wallets) ==>
        r == Err(Store(NoRows)) && repo.wallets == old(repo.wallets)
      ensures r.Ok? ==>
        && repo.wallets == old(repo.wallets)[customerXid :=
             old(repo.wallets)[customerXid].(status := Disabled, enabledAt := None, updatedAt := now)]
        && r.value == WalletView(repo.wallets[customerXid])
        && r.value.status == Disabled && r.value.enabledAt == None
      ensures repo.transactions == old(repo.transactions)
    {
      var e := repo.UpdateWalletStatus(customerXid, Disabled, None, now, fault);
      if e.Some? {
        return Err(Store(e.value));
      }
      var w := repo.GetWallet(customerXid);
      if w.Err? {
        return Err(Store(w.error));
      }
      return Ok(WalletView(w.value));
    }

    /** The history of an existing wallet whatever its status, one entry per
        record of the older store's read, in the same order, each showing the
        row's reference as its status and its status as its reference. */
    method GetWalletTransactions(customerXid: string, fault: ReadFault)
      returns (r: Result<seq<TransactionResponse>, Error>)
      requires Valid()
      ensures customerXid !in repo.wallets ==> r == Err(Store(NoRows))
      ensures customerXid in repo.wallets ==>
        var rows := SelectTransactions(repo.transactions, repo.wallets[customerXid].id);
        && (fault == QueryFails ==> r == Err(Store(QueryFailed)))
        && (r.Ok? <==> fault == ReadHealthy || fault.NextFailsAt? || (fault.ScanFailsAt? && fault.row >= |rows|))
        && (fault.ScanFailsAt? && fault.row < |rows| ==> r == Err(Store(ScanFailed)))
        && (r.Ok? ==>
              && |r.value| == RowsDelivered(|rows|, fault)
              && forall i :: 0 <= i < |r.value| ==> r.value[i] == ScannedView(SwappedScan(rows[i])))
    {
      var w := repo.GetWallet(customerXid);
      if w.Err? {
        return Err(Store(w.error));
      }
      assert w.value == repo.wallets[customerXid];
      var scanned := LegacyRepository.GetWalletTransactions(repo, w.value.id, fault);
      if scanned.Err? {
        return Err(Store(scanned.error));
      }
      var result := ScannedViews(scanned.value);
      return Ok(result);
    }

    /** A deposit: validates the request, refuses a missing or disabled wallet,
        moves the balance from the value read to that value plus the amount,
        then records the transaction as `success` if a row changed and `failed`
        otherwise. A failed balance update aborts with nothing recorded; a
        failed insert reports an error after the balance has moved. The
        request rules are those of the current service's request type; the
        older service's own request package is not part of this model and is
        taken to carry the same tags. */
    method AddWalletBalance(customerXid: string, request: TransactionRequest, txId: string, now: Time,
                            casFault: Fault, fault: Fault)
      returns (r: Result<DepositResponse, Error>)
      requires Valid()
      modifies repo
      ensures Valid()
      ensures Refusal(old(repo.wallets), customerXid, request, Deposit).Some? ==>
        && r == Err(Refusal(old(repo.wallets), customerXid, request, Deposit).value)
        && repo.wallets == old(repo.wallets) && repo.transactions == old(repo.transactions)
      ensures Refusal(old(repo.wallets), customerXid, request, Deposit).None? && casFault != Healthy ==>
        && r.Err? && Some(r.error) == FromStore(WriteError(casFault, true))
        && repo.wallets == old(repo.wallets) && repo.transactions == old(repo.transactions)
      ensures Refusal(old(repo.wallets), customerXid, request, Deposit).None? && casFault == Healthy ==>
        var w := old(repo.wallets)[customerXid];
        var applied := CasMatches(old(repo.wallets), w.id, w.balance);
        var t := Transaction(txId, w.id, customerXid, Deposit, request.amount, request.referenceId,
                             if applied then Success else Failed, now, now);
        && repo.wallets == CasBalance(old(repo.wallets), w.id, w.balance, w.balance + request.amount, now)
        && (r.Ok? <==> fault == Healthy && !TransactionIdTaken(old(repo.transactions), txId))
        && (r.Ok? ==> repo.transactions == old(repo.transactions) + [t] && r.value == DepositView(t))
        && (r.Err? ==>
              && repo.transactions == old(repo.transactions)
              && Some(r.error) == FromStore(WriteError(fault, !TransactionIdTaken(old(repo.transactions), txId))))
      ensures r.Ok? ==> r.value.status != Pending
    {
      var errs := ValidateTransactionRequest(request);
      if errs != [] {
        return Err(Invalid(errs));
      }
      var w := repo.GetWallet(customerXid);
      if w.Err? {
        return Err(Store(w.error));
      }
      var wallet := w.value;
      if wallet.status == Disabled {
        return Err(WalletDisabled);
      }
      var recorded := MoveAndRecord(wallet, Deposit, request, wallet.balance + request.amount, txId, now,
                                    casFault, fault);
      if recorded.Err? {
        return Err(recorded.error);
      }
      return Ok(DepositView(recorded.value));
    }

    /** A withdrawal: refuses a missing or disabled wallet and an amount above
        the balance read, without validating the request, then moves the
        balance down by the amount and records the transaction as a deposit
        does. */
    method DeductWalletBalance(customerXid: string, request: TransactionRequest, txId: string, now: Time,
                               casFault: Fault, fault: Fault)
      returns (r: Result<WithdrawalResponse, Error>)
      requires Valid()
      modifies repo
      ensures Valid()
      ensures WithdrawalRefusal(old(repo.wallets), customerXid, request).Some? ==>
        && r == Err(WithdrawalRefusal(old(repo.wallets), customerXid, request).value)
        && repo.wallets == old(repo.wallets) && repo.transactions == old(repo.transactions)
      ensures WithdrawalRefusal(old(repo.wallets), customerXid, request).None? && casFault != Healthy ==>
        && r.Err? && Some(r.error) == FromStore(WriteError(casFault, true))
        && repo.wallets == old(repo.wallets) && repo.transactions == old(repo.transactions)
      ensures WithdrawalRefusal(old(repo.wallets), customerXid, request).None? && casFault == Healthy ==>
        var w := old(repo.wallets)[customerXid];
        var applied := CasMatches(old(repo.wallets), w.id, w.balance);
        var t := Transaction(txId, w.id, customerXid, Withdrawal, request.amount, request.referenceId,
                             if applied then Success else Failed, now, now);
        && repo.wallets == CasBalance(old(repo.wallets), w.id, w.balance, w.balance - request.amount, now)
        && (r.Ok? <==> fault == Healthy && !TransactionIdTaken(old(repo.transactions), txId))
        && (r.Ok? ==> repo.transactions == old(repo.transactions) + [t] && r.value == WithdrawalView(t))
        && (r.Err? ==>
              && repo.transactions == old(repo.transactions)
              && Some(r.error) == FromStore(WriteError(fault, !TransactionIdTaken(old(repo.transactions), txId))))
      ensures r.Ok? ==> r.value.status != Pending
    {
      var w := repo.GetWallet(customerXid);
      if w.Err? {
        return Err(Store(w.error));
      }
      var wallet := w.value;
      if wallet.status == Disabled {
        return Err(WalletDisabled);
      }
      if request.amount > wallet.balance {
        return Err(InsufficientBalance);
      }
      var recorded := MoveAndRecord(wallet, Withdrawal, request, wallet.balance - request.amount, txId, now,
                                    casFault, fault);
      if recorded.Err? {
        return Err(recorded.error);
      }
      return Ok(WithdrawalView(recorded.value));
    }

    /** The write sequence shared by the older deposit and withdrawal: the
        conditional update from the balance read to `final`, then the insert
        of the transaction with status `success` if a row changed and
        `failed` otherwise. A failed update aborts before the insert. */
    method MoveAndRecord(wallet: Wallet, kind: TxType, request: TransactionRequest, final: int,
                         txId: string, now: Time, casFault: Fault, fault: Fault)
      returns (r: Result<Transaction, Error>)
      requires Valid()
      requires wallet.customerXid in repo.wallets && repo.wallets[wallet.customerXid] == wallet
      requires final >= 0
      modifies repo
      ensures Valid()
      ensures casFault != Healthy ==>
        && r.Err? && Some(r.error) == FromStore(WriteError(casFault, true))
        && repo.wallets == old(repo.wallets) && repo.transactions == old(repo.transactions)
      ensures casFault == Healthy ==>
        var applied := CasMatches(old(repo.wallets), wallet.id, wallet.balance);
        var t := Transaction(txId, wallet.id, wallet.customerXid, kind, request.amount, request.referenceId,
                             if applied then Success else Failed, now, now);
        && repo.wallets == CasBalance(old(repo.wallets), wallet.id, wallet.balance, final, now)
        && (r.Ok? <==> fault == Healthy && !TransactionIdTaken(old(repo.transactions), txId))
        && (r.Ok? ==> repo.transactions == old(repo.transactions) + [t] && r.value == t)
        && (r.Err? ==>
              && repo.transactions == old(repo.transactions)
              && Some(r.error) == FromStore(WriteError(fault, !TransactionIdTaken(old(repo.transactions), txId))))
    {
      CasOfCurrentBalance(repo.State(), wallet.customerXid, final, now);
      var updated, casErr := repo.UpdateWalletBalance(wallet.id, wallet.balance, final, now, casFault);
      if casErr.Some? {
        return Err(Store(casErr.value));
      }
      MovedBalanceKeepsNonNegative(old(repo.wallets), wallet.customerXid, final, now);
      var status := if updated then Success else Failed;
      var transaction := Transaction(txId, wallet.id, wallet.customerXid, kind, request.amount,
                                     request.referenceId, status, now, now);
      var e := repo.AddTransaction(transaction, fault);
      KeepsFinal(old(repo.transactions), transaction);
      if e.Some? {
        return Err(Store(e.value));
      }
      return Ok(transaction);
    }
  }

  /** Moving one wallet to a non-negative balance keeps every balance non-negative. */
  lemma MovedBalanceKeepsNonNegative(ws: map<string, Wallet>, customerXid: string, final: int, now: Time)
    requires NonNegative(ws) && customerXid in ws && final >= 0
    ensures NonNegative(ws[customerXid := ws[customerXid].(balance := final, updatedAt := now)])
  {
  }

  /** Appending a final row to a table with no pending row leaves none. */
  lemma KeepsFinal(ts: seq<Transaction>, t: Transaction)
    requires NoPending(ts) && t.status != Pending
    ensures NoPending(ts + [t])
  {
    assert forall i :: 0 <= i < |ts| ==> (ts + [t])[i] == ts[i];
  }
}
