/** The wallet store: the two tables and the repository operations that read
    and write them, each write wrapped in Begin, Exec, Commit. */
module Repository {
  import opened Domain
  import opened Queries

  class WalletRepository {
    /** The `wallets` table, keyed by customer_xid. */
    var wallets: map<string, Wallet>
    /** The `transactions` table, in insertion order. */
    var transactions: seq<Transaction>

    ghost predicate Valid()
      reads this
    {
      WellFormed(State())
    }

    function State(): LedgerState
      reads this
    {
      LedgerState(wallets, transactions)
    }

    constructor ()
      ensures Valid()
      ensures wallets == map[] && transactions == []
    {
      wallets := map[];
      transactions := [];
    }

    /** Inserts a wallet row from the id and customer_xid of `wallet` (its
        other fields are not written). On any failure, including a failed
        commit after which the transaction is rolled back, nothing changes. */
    method CreateWallet(wallet: Wallet, now: Time, fault: Fault) returns (err: Option<StoreError>)
      requires Valid()
      modifies this
      ensures Valid()
      ensures err == WriteError(fault, InsertWallet(old(wallets), wallet.id, wallet.customerXid, now).Some?)
      ensures err.None? ==> wallets == InsertWallet(old(wallets), wallet.id, wallet.customerXid, now).value
      ensures err.Some? ==> wallets == old(wallets)
      ensures transactions == old(transactions)
    {
      if fault == BeginFails {
        return Some(BeginFailed);
      }
      var next := InsertWallet(wallets, wallet.id, wallet.customerXid, now);
      if fault == ExecFails || next.None? {
        return Some(ExecFailed);
      }
      if fault == CommitFails {
        return Some(CommitFailed);
      }
      wallets := next.value;
      return None;
    }

    /** Writes status and enabled_at of the wallet with that customer_xid; a
        customer_xid with no row is not an error. */
    method UpdateWalletStatus(customerXid: string, status: WalletStatus, enabledAt: Option<Time>,
                              now: Time, fault: Fault) returns (err: Option<StoreError>)
      requires Valid()
      modifies this
      ensures Valid()
      ensures err == WriteError(fault, true)
      ensures wallets == if err.None? then SetWalletStatus(old(wallets), customerXid, status, enabledAt, now)
                         else old(wallets)
      ensures transactions == old(transactions)
    {
      if fault == BeginFails {
        return Some(BeginFailed);
      }
      if fault == ExecFails {
        return Some(ExecFailed);
      }
      if fault == CommitFails {
        return Some(CommitFailed);
      }
      wallets := SetWalletStatus(wallets, customerXid, status, enabledAt, now);
      return None;
    }

    /** Looks a wallet up by customer_xid; no row is an error. */
    method GetWallet(customerXid: string) returns (r: Result<Wallet, StoreError>)
      requires Valid()
      ensures r.Ok? <==> customerXid in wallets
      ensures r.Ok? ==> r.value == wallets[customerXid] && r.value.customerXid == customerXid
      ensures r.Err? ==> r.error == NoRows
    {
      var row := SelectWallet(wallets, customerXid);
      if row.None? {
        return Err(NoRows);
      }
      return Ok(row.value);
    }

    /** Reads the transaction list of one wallet row by row; a failed query or
        a row that fails to scan aborts the read with an error. When the cursor
        stops early the loop ends as if the rows were exhausted, and since the
        cursor's error is never consulted the rows read so far come back as a
        success. */
    method GetWalletTransactions(walletId: string, fault: ReadFault) returns (r: Result<seq<Transaction>, StoreError>)
      ensures fault == QueryFails ==> r == Err(QueryFailed)
      ensures fault.ScanFailsAt? && fault.row < |SelectTransactions(transactions, walletId)| ==> r == Err(ScanFailed)
      ensures r.Ok? <==> fault == ReadHealthy || fault.NextFailsAt?
                         || (fault.ScanFailsAt? && fault.row >= |SelectTransactions(transactions, walletId)|)
      ensures r.Ok? ==>
        var rows := SelectTransactions(transactions, walletId);
        r.value == rows[..RowsDelivered(|rows|, fault)]
    {
      if fault == QueryFails {
        return Err(QueryFailed);
      }
      r := ScanRows(SelectTransactions(transactions, walletId), fault, false);
    }

    /** The history read with the cursor's error checked once the loop ends:
        a read that stops early fails instead of handing back part of the
        list, so every successful read is the whole query result. */
    method GetWalletTransactionsChecked(walletId: string, fault: ReadFault)
      returns (r: Result<seq<Transaction>, StoreError>)
      ensures fault.NextFailsAt? && fault.row < |SelectTransactions(transactions, walletId)| ==>
        r == Err(IterationFailed)
      ensures r.Ok? <==> fault == ReadHealthy
                         || ((fault.ScanFailsAt? || fault.NextFailsAt?)
                             && fault.row >= |SelectTransactions(transactions, walletId)|)
      ensures r.Ok? ==> r.value == SelectTransactions(transactions, walletId)
    {
      if fault == QueryFails {
        return Err(QueryFailed);
      }
      r := ScanRows(SelectTransactions(transactions, walletId), fault, true);
    }

    /** Inserts a transaction row with all nine columns as given. */
    method AddTransaction(transaction: Transaction, fault: Fault) returns (err: Option<StoreError>)
      requires Valid()
      modifies this
      ensures Valid()
      ensures err == WriteError(fault, InsertTransaction(old(transactions), transaction).Some?)
      ensures transactions == if err.None? then old(transactions) + [transaction] else old(transactions)
      ensures wallets == old(wallets)
    {
      if fault == BeginFails {
        return Some(BeginFailed);
      }
      var next := InsertTransaction(transactions, transaction);
      if fault == ExecFails || next.None? {
        return Some(ExecFailed);
      }
      if fault == CommitFails {
        return Some(CommitFailed);
      }
      transactions := next.value;
      return None;
    }

    /** Overwrites the status of the transaction with that id, whatever its
        current status. A failed commit is returned without a rollback, which
        leaves the same tables. */
    method UpdateTransactionStatus(transactionId: string, status: TxStatus, now: Time, fault: Fault)
      returns (err: Option<StoreError>)
      requires Valid()
      modifies this
      ensures Valid()
      ensures err == WriteError(fault, true)
      ensures transactions == if err.None? then SetTransactionStatus(old(transactions), transactionId, status, now)
                              else old(transactions)
      ensures wallets == old(wallets)
    {
      if fault == BeginFails {
        return Some(BeginFailed);
      }
      if fault == ExecFails {
        return Some(ExecFailed);
      }
      if fault == CommitFails {
        return Some(CommitFailed);
      }
      transactions := SetTransactionStatus(transactions, transactionId, status, now);
      return None;
    }

    /** The conditional balance update: sets the balance to `finalAmount` on the
        wallet whose id is `walletId` and whose balance is still
        `initialAmount`. Returns true iff it changed a row; any failure returns
        false with the error and changes nothing. */
    method UpdateWalletBalance(walletId: string, initialAmount: int, finalAmount: int, now: Time, fault: Fault)
      returns (updated: bool, err: Option<StoreError>)
      requires Valid()
      modifies this
      ensures Valid()
      ensures err == WriteError(fault, true)
      ensures updated <==> err.None? && CasMatches(old(wallets), walletId, initialAmount)
      ensures wallets == if err.None? then CasBalance(old(wallets), walletId, initialAmount, finalAmount, now)
                         else old(wallets)
      ensures transactions == old(transactions)
    {
      if fault == BeginFails {
        return false, Some(BeginFailed);
      }
      if fault == ExecFails {
        return false, Some(ExecFailed);
      }
      var rowsAffected := CasMatches(wallets, walletId, initialAmount);
      if fault == CommitFails {
        return false, Some(CommitFailed);
      }
      wallets := CasBalance(wallets, walletId, initialAmount, finalAmount, now);
      return rowsAffected, None;
    }
  }

  /** The cursor loop over the selected rows: each row is fetched, then
      scanned. A failing scan aborts with an error. A cursor that stops early
      ends the loop; with `checkCursor` its recorded error is returned,
      without it the rows read so far are. */
  method ScanRows(rows: seq<Transaction>, fault: ReadFault, checkCursor: bool)
    returns (r: Result<seq<Transaction>, StoreError>)
    requires fault != QueryFails
    ensures fault.ScanFailsAt? && fault.row < |rows| ==> r == Err(ScanFailed)
    ensures fault.NextFailsAt? && fault.row < |rows| ==>
      r == if checkCursor then Err(IterationFailed) else Ok(rows[..fault.row])
    ensures !((fault.ScanFailsAt? || fault.NextFailsAt?) && fault.row < |rows|) ==> r == Ok(rows)
  {
    var result: seq<Transaction> := [];
    var i := 0;
    while i < |rows|
      invariant 0 <= i <= |rows|
      invariant result == rows[..i]
      invariant fault.ScanFailsAt? || fault.NextFailsAt? ==> fault.row >= i
    {
      if fault == NextFailsAt(i) {
        if checkCursor {
          return Err(IterationFailed);
        }
        return Ok(result);
      }
      if fault == ScanFailsAt(i) {
        return Err(ScanFailed);
      }
      result := result + [rows[i]];
      i := i + 1;
    }
    assert result == rows;
    return Ok(result);
  }
}
