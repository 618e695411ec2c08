/** The deferred settlement of a deposit or withdrawal, on table values: a
    conditional balance update from the balance read at admission, then the
    transaction's status written as the outcome. */
module Settlement {
  import opened Domain
  import opened Queries

  /** What a settlement closes over: the pending transaction's id, the wallet's
      id, the balance read at admission and the balance to write. */
  datatype Settlement = Settlement(txId: string, walletId: string, snapshot: int, newBalance: int)

  /** The tables after a settlement, and whether its balance update changed a row. */
  datatype SettleOutcome = SettleOutcome(state: LedgerState, applied: bool)

  /** The settlement of a deposit of `amount` admitted against wallet row `w`. */
  function DepositSettlement(txId: string, w: Wallet, amount: int): Settlement
  {
    Settlement(txId, w.id, w.balance, w.balance + amount)
  }

  /** The settlement of a withdrawal of `amount` admitted against wallet row `w`. */
  function WithdrawalSettlement(txId: string, w: Wallet, amount: int): Settlement
  {
    Settlement(txId, w.id, w.balance, w.balance - amount)
  }

  /** One settlement step. The balance update runs with `casFault`; a failed
      update counts as "no row changed". The status write runs with
      `statusFault`; when it fails the transaction keeps its status. */
  function SettleEffect(st: LedgerState, s: Settlement, now: Time, casFault: Fault, statusFault: Fault): SettleOutcome
  {
    var applied := casFault == Healthy && CasMatches(st.wallets, s.walletId, s.snapshot);
    var ws := if casFault == Healthy then CasBalance(st.wallets, s.walletId, s.snapshot, s.newBalance, now)
              else st.wallets;
    var status := if applied then Success else Failed;
    var ts := if statusFault == Healthy then SetTransactionStatus(st.transactions, s.txId, status, now)
              else st.transactions;
    SettleOutcome(LedgerState(ws, ts), applied)
  }

  /** Every balance in the wallets table is non-negative. */
  ghost predicate NonNegative(ws: map<string, Wallet>)
  {
    forall cx :: cx in ws ==> ws[cx].balance >= 0
  }

  /** Some row of transaction `id` has status `status`. */
  ghost predicate HasStatus(ts: seq<Transaction>, id: string, status: TxStatus)
  {
    exists i :: 0 <= i < |ts| && ts[i].id == id && ts[i].status == status
  }

  /** The transaction becomes `success` iff the balance update changed a row,
      and `failed` otherwise, also when the update itself failed; when the
      status write fails it stays as it was. No other row is touched. */
  lemma SettleStatus(st: LedgerState, s: Settlement, now: Time, casFault: Fault, statusFault: Fault)
    ensures var out := SettleEffect(st, s, now, casFault, statusFault);
      && (out.applied <==> casFault == Healthy && CasMatches(st.wallets, s.walletId, s.snapshot))
      && |out.state.transactions| == |st.transactions|
      && (forall i :: 0 <= i < |st.transactions| && st.transactions[i].id != s.txId ==>
            out.state.transactions[i] == st.transactions[i])
      && (statusFault == Healthy ==>
            forall i :: 0 <= i < |st.transactions| && st.transactions[i].id == s.txId ==>
              out.state.transactions[i].status == (if out.applied then Success else Failed))
      && (statusFault != Healthy ==> out.state.transactions == st.transactions)
  {
  }

  /** On well-formed tables, a settlement that changed a row moved exactly the
      wallet with that id from the snapshot balance to the new balance; one that
      did not leaves every wallet as it was. */
  lemma SettleBalance(st: LedgerState, s: Settlement, now: Time, casFault: Fault, statusFault: Fault)
    requires WellFormed(st)
    ensures var out := SettleEffect(st, s, now, casFault, statusFault);
      && out.state.wallets.Keys == st.wallets.Keys
      && (!out.applied ==> out.state.wallets == st.wallets)
      && (forall cx :: cx in st.wallets && st.wallets[cx].id != s.walletId ==>
            out.state.wallets[cx] == st.wallets[cx])
      && (forall cx :: cx in st.wallets && st.wallets[cx].id == s.walletId ==>
            if out.applied
            then st.wallets[cx].balance == s.snapshot
                 && out.state.wallets[cx] == st.wallets[cx].(balance := s.newBalance, updatedAt := now)
            else out.state.wallets[cx] == st.wallets[cx])
  {
    var out := SettleEffect(st, s, now, casFault, statusFault);
    CasBalanceRows(st.wallets, s.walletId, s.snapshot, s.newBalance, now);
    if out.applied {
      var k :| k in st.wallets && CasRow(st.wallets[k], s.walletId, s.snapshot);
      forall cx | cx in st.wallets && st.wallets[cx].id == s.walletId
        ensures st.wallets[cx].balance == s.snapshot
      {
        assert cx == k;
      }
    }
  }

  /** A settlement whose new balance is non-negative keeps every balance
      non-negative. */
  lemma SettleKeepsNonNegative(st: LedgerState, s: Settlement, now: Time, casFault: Fault, statusFault: Fault)
    requires NonNegative(st.wallets)
    requires s.newBalance >= 0
    ensures NonNegative(SettleEffect(st, s, now, casFault, statusFault).state.wallets)
  {
    var out := SettleEffect(st, s, now, casFault, statusFault);
    CasBalanceRows(st.wallets, s.walletId, s.snapshot, s.newBalance, now);
    forall cx | cx in out.state.wallets ensures out.state.wallets[cx].balance >= 0 {
      assert cx in st.wallets;
    }
  }

  /** A settlement keeps the tables' keys intact. */
  lemma SettleKeepsWellFormed(st: LedgerState, s: Settlement, now: Time, casFault: Fault, statusFault: Fault)
    requires WellFormed(st)
    ensures WellFormed(SettleEffect(st, s, now, casFault, statusFault).state)
  {
    var out := SettleEffect(st, s, now, casFault, statusFault);
    CasBalanceRows(st.wallets, s.walletId, s.snapshot, s.newBalance, now);
    SettleStatus(st, s, now, casFault, statusFault);
    assert forall cx :: cx in out.state.wallets ==>
      (out.state.wallets[cx].id == st.wallets[cx].id && out.state.wallets[cx].customerXid == st.wallets[cx].customerXid);
    assert forall i :: 0 <= i < |out.state.transactions| ==> out.state.transactions[i].id == st.transactions[i].id;
  }

  /** A `success` row for a transaction after a settlement was already there,
      or belongs to this settlement's transaction and its update applied. */
  lemma SuccessComesFromApplied(st: LedgerState, s: Settlement, now: Time, casFault: Fault, statusFault: Fault,
                                id: string)
    requires HasStatus(SettleEffect(st, s, now, casFault, statusFault).state.transactions, id, Success)
    ensures HasStatus(st.transactions, id, Success)
            || (id == s.txId && SettleEffect(st, s, now, casFault, statusFault).applied)
  {
    var out := SettleEffect(st, s, now, casFault, statusFault);
    SettleStatus(st, s, now, casFault, statusFault);
    var i :| 0 <= i < |out.state.transactions| && out.state.transactions[i].id == id
             && out.state.transactions[i].status == Success;
    if out.state.transactions[i] == st.transactions[i] {
      assert HasStatus(st.transactions, id, Success);
    }
  }

  /** A settlement whose wallet still holds the snapshot balance applies on a
      healthy store: the wallet moves to the new balance and the transaction
      becomes `success`. A deposit or withdrawal settled before any other
      balance change thus credits or debits exactly its amount. */
  lemma UncontendedSettlementApplies(st: LedgerState, customerXid: string, s: Settlement, now: Time)
    requires WellFormed(st) && customerXid in st.wallets
    requires st.wallets[customerXid].id == s.walletId && st.wallets[customerXid].balance == s.snapshot
    ensures var out := SettleEffect(st, s, now, Healthy, Healthy);
      && out.applied
      && out.state.wallets
         == st.wallets[customerXid := st.wallets[customerXid].(balance := s.newBalance, updatedAt := now)]
      && (forall i :: 0 <= i < |st.transactions| && st.transactions[i].id == s.txId ==>
            out.state.transactions[i].status == Success)
  {
    CasOfCurrentBalance(st, customerXid, s.newBalance, now);
    SettleStatus(st, s, now, Healthy, Healthy);
  }

  /** No lost update between two settlements taken against the same snapshot
      of the same wallet, each moving the balance away from it, and run back to
      back with no other balance update of that wallet in between. At most one
      of the two balance updates applies, so the wallet ends with at most one
      of the two deltas, and at most one of the two transactions (neither of
      which had a `success` row before) ends up `success`. A third update that
      brings the balance back to the snapshot in between defeats this (see
      `Queries.SnapshotCanReturn`). */
  lemma AtMostOneSuccess(st: LedgerState, s1: Settlement, s2: Settlement, now1: Time, now2: Time,
                         casFault1: Fault, statusFault1: Fault, casFault2: Fault, statusFault2: Fault)
    requires s1.walletId == s2.walletId && s1.snapshot == s2.snapshot
    requires s1.newBalance != s1.snapshot
    requires s1.txId != s2.txId
    requires !HasStatus(st.transactions, s1.txId, Success) && !HasStatus(st.transactions, s2.txId, Success)
    ensures var o1 := SettleEffect(st, s1, now1, casFault1, statusFault1);
            var o2 := SettleEffect(o1.state, s2, now2, casFault2, statusFault2);
      && !(o1.applied && o2.applied)
      && !(HasStatus(o2.state.transactions, s1.txId, Success) && HasStatus(o2.state.transactions, s2.txId, Success))
  {
    var o1 := SettleEffect(st, s1, now1, casFault1, statusFault1);
    var o2 := SettleEffect(o1.state, s2, now2, casFault2, statusFault2);
    if o1.applied {
      CasConsumesSnapshot(st.wallets, s1.walletId, s1.snapshot, s1.newBalance, now1);
      assert !o2.applied;
    }
    if HasStatus(o2.state.transactions, s1.txId, Success) && HasStatus(o2.state.transactions, s2.txId, Success) {
      SuccessComesFromApplied(o1.state, s2, now2, casFault2, statusFault2, s1.txId);
      SuccessComesFromApplied(o1.state, s2, now2, casFault2, statusFault2, s2.txId);
      assert HasStatus(o1.state.transactions, s1.txId, Success);
      SuccessComesFromApplied(st, s1, now1, casFault1, statusFault1, s1.txId);
      assert o1.applied;
      if HasStatus(o1.state.transactions, s2.txId, Success) {
        SuccessComesFromApplied(st, s1, now1, casFault1, statusFault1, s2.txId);
        assert false;
      }
      assert false;
    }
  }

  /** The other half of no lost update: of two settlements taken against the
      same snapshot of the same wallet, each moving the balance away from it,
      whose transactions were pending and whose status writes succeed, run
      back to back with no other balance update of that wallet in between, at
      least one transaction ends up `failed`. */
  lemma AtLeastOneFails(st: LedgerState, s1: Settlement, s2: Settlement, now1: Time, now2: Time,
                        casFault1: Fault, casFault2: Fault)
    requires s1.walletId == s2.walletId && s1.snapshot == s2.snapshot
    requires s1.newBalance != s1.snapshot
    requires s1.txId != s2.txId
    requires HasStatus(st.transactions, s1.txId, Pending) && HasStatus(st.transactions, s2.txId, Pending)
    ensures var o1 := SettleEffect(st, s1, now1, casFault1, Healthy);
            var o2 := SettleEffect(o1.state, s2, now2, casFault2, Healthy);
      HasStatus(o2.state.transactions, s1.txId, Failed) || HasStatus(o2.state.transactions, s2.txId, Failed)
  {
    var o1 := SettleEffect(st, s1, now1, casFault1, Healthy);
    var o2 := SettleEffect(o1.state, s2, now2, casFault2, Healthy);
    SettleStatus(st, s1, now1, casFault1, Healthy);
    SettleStatus(o1.state, s2, now2, casFault2, Healthy);
    if o1.applied {
      CasConsumesSnapshot(st.wallets, s1.walletId, s1.snapshot, s1.newBalance, now1);
      var i :| 0 <= i < |st.transactions| && st.transactions[i].id == s2.txId && st.transactions[i].status == Pending;
      assert o2.state.transactions[i].status == Failed;
    } else {
      var i :| 0 <= i < |st.transactions| && st.transactions[i].id == s1.txId && st.transactions[i].status == Pending;
      assert o1.state.transactions[i].status == Failed;
      assert o2.state.transactions[i] == o1.state.transactions[i];
    }
  }
}
