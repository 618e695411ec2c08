/** Whole flows through the deferred-settlement service, from an empty store,
    with every store call healthy. */
module Scenarios {
  import opened Domain
  import opened Queries
  import opened Web
  import opened Settlement
  import opened Repository
  import opened Service

  /** A service over a new store in which customer "c-1" has just created
      wallet "w-1" at time 1 and enabled it at time 2. */
  method EnabledWallet() returns (store: WalletRepository, service: WalletService)
    ensures fresh(store) && fresh(service)
    ensures service.Valid() && service.repo == store && service.inFlight == {}
    ensures store.wallets == map["c-1" := Wallet("w-1", "c-1", Enabled, Some(2), 0, 1, 2)]
    ensures store.transactions == []
  {
    store := new WalletRepository();
    service := new WalletService(store);
    var created := service.InitializeWallet(WalletCreateRequest("c-1"), "w-1", 1, Healthy);
    var enabled := service.EnableWallet("c-1", 2, Healthy);
  }

  /** The wallet of `EnabledWallet` after the admission of a deposit of 1000
      with reference "ref-1" as transaction "t-1" at time 3: the deposit is
      recorded as pending and its settlement is in flight. */
  method PendingDeposit()
    returns (store: WalletRepository, service: WalletService, admitted: Result<DepositResponse, Error>,
             spawned: Settlement)
    ensures fresh(store) && fresh(service)
    ensures service.Valid() && service.repo == store && spawned in service.inFlight
    ensures spawned == Settlement("t-1", "w-1", 0, 1000)
    ensures store.wallets == map["c-1" := Wallet("w-1", "c-1", Enabled, Some(2), 0, 1, 2)]
    ensures store.transactions == [Transaction("t-1", "w-1", "c-1", Deposit, 1000, "ref-1", Pending, 3, 3)]
    ensures admitted.Ok? && admitted.value.status == Pending && admitted.value.amount == 1000
  {
    store, service := EnabledWallet();
    var request := TransactionRequest(1000, "ref-1");
    RefusalExactly(store.wallets, "c-1", request, Deposit);
    var s;
    admitted, s := service.AddWalletBalance("c-1", request, "t-1", 3, Healthy);
    spawned := s.value;
  }

  /** A new wallet, enabled, receives a deposit of 1000. The admission answers
      `pending` and leaves the balance at 0; after the settlement has run the
      balance is 1000 and the history lists the one deposit as `success`. */
  method DepositThenSettle()
    returns (admitted: Result<DepositResponse, Error>, before: Result<WalletResponse, Error>,
             after: Result<WalletResponse, Error>, history: Result<seq<TransactionResponse>, Error>)
    ensures admitted.Ok? && admitted.value.status == Pending && admitted.value.amount == 1000
    ensures before.Ok? && before.value.balance == 0
    ensures after.Ok? && after.value.balance == 1000
    ensures history.Ok? && |history.value| == 1
    ensures history.Ok? && |history.value| == 1 ==>
      history.value[0].status == TxStatusText(Success) && history.value[0].amount == 1000
      && history.value[0].referenceId == "ref-1" && history.value[0].txType == Deposit
  {
    var store, service, spawned;
    store, service, admitted, spawned := PendingDeposit();
    before := service.GetWalletBalance("c-1");
    UncontendedSettlementApplies(store.State(), "c-1", spawned, 4);
    service.Settle(spawned, 4, Healthy, Healthy);
    ghost var settled := Transaction("t-1", "w-1", "c-1", Deposit, 1000, "ref-1", Success, 3, 4);
    assert store.transactions == [settled];
    after := service.GetWalletBalance("c-1");
    SelectOwnSortedRows([settled], "w-1");
    history := service.GetWalletTransactions("c-1", ReadHealthy);
    assert history.value[0] == TransactionView(settled);
  }

  /** On an enabled wallet holding 1000, a withdrawal of 1001 is refused with
      insufficient balance and records nothing, while a withdrawal of exactly
      1000 is admitted as pending. */
  method OverdraftRefused()
    returns (refused: Result<WithdrawalResponse, Error>, admitted: Result<WithdrawalResponse, Error>)
    ensures refused == Err(InsufficientBalance)
    ensures admitted.Ok? && admitted.value.status == Pending && admitted.value.amount == 1000
  {
    var store, service, _, spawned := PendingDeposit();
    UncontendedSettlementApplies(store.State(), "c-1", spawned, 4);
    service.Settle(spawned, 4, Healthy, Healthy);
    assert store.wallets["c-1"].balance == 1000;
    var tooMuch := TransactionRequest(1001, "ref-2");
    RefusalExactly(store.wallets, "c-1", tooMuch, Withdrawal);
    var s2;
    refused, s2 := service.DeductWalletBalance("c-1", tooMuch, "t-2", 5, Healthy);
    var all := TransactionRequest(1000, "ref-3");
    RefusalExactly(store.wallets, "c-1", all, Withdrawal);
    assert !TransactionIdTaken(store.transactions, "t-3");
    var s3;
    admitted, s3 := service.DeductWalletBalance("c-1", all, "t-3", 6, Healthy);
  }

  /** The wallet of `EnabledWallet` with two deposits admitted against the
      same balance of 0: "t-1" of 1000 at time 3 and "t-2" of 500 at time 4,
      both pending with their settlements in flight. */
  method TwoPendingDeposits() returns (store: WalletRepository, service: WalletService, s1: Settlement, s2: Settlement)
    ensures fresh(store) && fresh(service)
    ensures service.Valid() && service.repo == store && s1 in service.inFlight && s2 in service.inFlight
    ensures s1 == Settlement("t-1", "w-1", 0, 1000) && s2 == Settlement("t-2", "w-1", 0, 500)
    ensures store.wallets == map["c-1" := Wallet("w-1", "c-1", Enabled, Some(2), 0, 1, 2)]
    ensures store.transactions == [Transaction("t-1", "w-1", "c-1", Deposit, 1000, "ref-1", Pending, 3, 3),
                                   Transaction("t-2", "w-1", "c-1", Deposit, 500, "ref-2", Pending, 4, 4)]
  {
    var admitted;
    store, service, admitted, s1 := PendingDeposit();
    var request := TransactionRequest(500, "ref-2");
    RefusalExactly(store.wallets, "c-1", request, Deposit);
    assert !TransactionIdTaken(store.transactions, "t-2");
    var second, s;
    second, s := service.AddWalletBalance("c-1", request, "t-2", 4, Healthy);
    s2 := s.value;
  }

  /** The wallet of `TwoPendingDeposits` after the settlement of "t-1" at
      time 5: the balance is 1000, "t-1" is `success`, and the settlement of
      "t-2", taken against the balance 0, is still in flight. */
  method FirstSettled() returns (store: WalletRepository, service: WalletService, s2: Settlement)
    ensures fresh(store) && fresh(service)
    ensures service.Valid() && service.repo == store && s2 in service.inFlight
    ensures s2 == Settlement("t-2", "w-1", 0, 500)
    ensures store.wallets == map["c-1" := Wallet("w-1", "c-1", Enabled, Some(2), 1000, 1, 5)]
    ensures store.transactions == [Transaction("t-1", "w-1", "c-1", Deposit, 1000, "ref-1", Success, 3, 5),
                                   Transaction("t-2", "w-1", "c-1", Deposit, 500, "ref-2", Pending, 4, 4)]
  {
    var s1;
    store, service, s1, s2 := TwoPendingDeposits();
    UncontendedSettlementApplies(store.State(), "c-1", s1, 5);
    service.Settle(s1, 5, Healthy, Healthy);
  }

  /** Two deposits admitted against the same balance and then settled one
      after the other: the first credits 1000 and becomes `success`; the
      second finds the balance moved, writes nothing and becomes `failed`. The
      wallet ends with 1000, not 1500 and not 500. */
  method ContendedDeposits() returns (after: Result<WalletResponse, Error>, history: Result<seq<TransactionResponse>, Error>)
    ensures after.Ok? && after.value.balance == 1000
    ensures history.Ok? && |history.value| == 2
    ensures history.Ok? && |history.value| == 2 ==>
      && history.value[0].status == TxStatusText(Success) && history.value[0].amount == 1000
      && history.value[1].status == TxStatusText(Failed) && history.value[1].amount == 500
  {
    var store, service, s2 := FirstSettled();
    ghost var w := Wallet("w-1", "c-1", Enabled, Some(2), 1000, 1, 5);
    assert !CasMatches(store.wallets, "w-1", 0);
    CasBalanceRows(store.wallets, "w-1", 0, 500, 6);
    service.Settle(s2, 6, Healthy, Healthy);
    ghost var t1 := Transaction("t-1", "w-1", "c-1", Deposit, 1000, "ref-1", Success, 3, 5);
    ghost var t2 := Transaction("t-2", "w-1", "c-1", Deposit, 500, "ref-2", Failed, 4, 6);
    assert store.wallets == map["c-1" := w];
    assert store.transactions == [t1, t2];
    after := service.GetWalletBalance("c-1");
    SelectOwnSortedRows([t1, t2], "w-1");
    history := service.GetWalletTransactions("c-1", ReadHealthy);
    assert history.value[0] == TransactionView(t1) && history.value[1] == TransactionView(t2);
  }

  /** The history of `FirstSettled` read while the cursor stops with an
      error after its first row: the read as written hands back the one row
      it saw as a complete, successful history, while the read that consults
      the cursor's error reports the failure. */
  method TruncatedHistory()
    returns (asWritten: Result<seq<Transaction>, StoreError>, checked: Result<seq<Transaction>, StoreError>)
    ensures asWritten.Ok? && |asWritten.value| == 1
    ensures checked == Err(IterationFailed)
  {
    var store, _, _ := FirstSettled();
    ghost var t1 := Transaction("t-1", "w-1", "c-1", Deposit, 1000, "ref-1", Success, 3, 5);
    ghost var t2 := Transaction("t-2", "w-1", "c-1", Deposit, 500, "ref-2", Pending, 4, 4);
    SelectOwnSortedRows([t1, t2], "w-1");
    asWritten := store.GetWalletTransactions("w-1", NextFailsAt(1));
    checked := store.GetWalletTransactionsChecked("w-1", NextFailsAt(1));
  }
}
