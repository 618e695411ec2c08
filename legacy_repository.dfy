/** The older synchronous store. Its inserts and updates run the same
    statements as the current store's (Repository.WalletRepository); what
    differs is the transaction history read, whose scan lists the status and
    reference_id destinations in the opposite order of the selected columns. */
module LegacyRepository {
  import opened Domain
  import opened Queries
  import opened Repository

  /** A transaction as the older history read fills it: status and reference
      are both text, holding whichever column was scanned into them. */
  datatype ScannedTransaction = ScannedTransaction(
    id: string,
    walletId: string,
    customerXid: string,
    txType: TxType,
    amount: int,
    status: string,
    referenceId: string,
    createdAt: Time,
    updatedAt: Time)

  /** The scan of one selected row as written: the reference_id column lands
      in the status field and the status column in the reference field. */
  function SwappedScan(t: Transaction): ScannedTransaction
  {
    ScannedTransaction(t.id, t.walletId, t.customerXid, t.txType, t.amount,
                       t.referenceId, TxStatusText(t.status), t.createdAt, t.updatedAt)
  }

  /** The scanned status is the row's status text only for a row whose
      reference happens to equal that text; the scanned reference is always a
      status text, never the reference the client sent. */
  lemma SwappedScanExchanges(t: Transaction)
    ensures SwappedScan(t).status == TxStatusText(t.status) <==> t.referenceId == TxStatusText(t.status)
    ensures SwappedScan(t).referenceId == t.referenceId <==> t.referenceId == TxStatusText(t.status)
    ensures SwappedScan(t).referenceId in {"pending", "success", "failed"}
  {
  }

  /** A settled deposit with reference "ref-1" is listed with status "ref-1"
      and reference "success". */
  lemma SwappedScanCounterexample()
    ensures var t := Transaction("t-1", "w-1", "c-1", Deposit, 1000, "ref-1", Success, 0, 0);
      && SwappedScan(t).status == "ref-1"
      && SwappedScan(t).referenceId == "success"
      && SwappedScan(t).status != TxStatusText(t.status)
  {
  }

  /** The older history read: the rows of the wallet in created_at order, one
      scanned record per row, each with status and reference exchanged. A
      failing query or a failing row scan aborts with an error; a cursor that
      stops early ends the loop and the records read so far come back as a
      success. */
  method GetWalletTransactions(store: WalletRepository, walletId: string, fault: ReadFault)
    returns (r: Result<seq<ScannedTransaction>, StoreError>)
    ensures fault == QueryFails ==> r == Err(QueryFailed)
    ensures fault.ScanFailsAt? && fault.row < |SelectTransactions(store.transactions, walletId)| ==>
      r == Err(ScanFailed)
    ensures r.Ok? <==> fault == ReadHealthy || fault.NextFailsAt?
                       || (fault.ScanFailsAt? && fault.row >= |SelectTransactions(store.transactions, walletId)|)
    ensures r.Ok? ==>
      var rows := SelectTransactions(store.transactions, walletId);
      && |r.value| == RowsDelivered(|rows|, fault)
      && forall i :: 0 <= i < |r.value| ==> r.value[i] == SwappedScan(rows[i])
  {
    if fault == QueryFails {
      return Err(QueryFailed);
    }
    var rows := SelectTransactions(store.transactions, walletId);
    var result: seq<ScannedTransaction> := [];
    var i := 0;
    while i < |rows|
      invariant 0 <= i <= |rows|
      invariant |result| == i
      invariant forall k :: 0 <= k < i ==> result[k] == SwappedScan(rows[k])
      invariant fault.ScanFailsAt? || fault.NextFailsAt? ==> fault.row >= i
    {
      if fault == NextFailsAt(i) {
        return Ok(result);
      }
      if fault == ScanFailsAt(i) {
        return Err(ScanFailed);
      }
      result := result + [SwappedScan(rows[i])];
      i := i + 1;
    }
    return Ok(result);
  }
}
