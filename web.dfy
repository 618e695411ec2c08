/** Request validation and response projections of the web model. */
module Web {
  import opened Domain

  /** The `max` bound of the `validate` tag on a wallet's customer id. */
  const MaxCustomerXidLength := 36

  datatype WalletCreateRequest = WalletCreateRequest(customerXid: string)

  datatype TransactionRequest = TransactionRequest(amount: int, referenceId: string)

  /** `required,min=1,max=36` on CustomerXID: a non-empty id of at most 36 characters. */
  predicate ValidCreateRequest(r: WalletCreateRequest)
  {
    1 <= |r.customerXid| <= MaxCustomerXidLength
  }

  /** `required,min=1,numeric` on Amount and `required,min=1` on ReferenceID. */
  predicate ValidTransactionRequest(r: TransactionRequest)
  {
    r.amount >= 1 && |r.referenceId| >= 1
  }

  /** The tag failures the validator reports for a wallet creation request;
      each field stops at its first failing tag. */
  function ValidateCreateRequest(r: WalletCreateRequest): (errs: seq<FieldError>)
    ensures errs == [] <==> ValidCreateRequest(r)
    ensures |errs| <= 1
    ensures r.customerXid == "" ==> errs == [FieldError("CustomerXID", "required")]
  {
    if |r.customerXid| == 0 then [FieldError("CustomerXID", "required")]
    else if |r.customerXid| > MaxCustomerXidLength then [FieldError("CustomerXID", "max")]
    else []
  }

  /** Tag failures of the Amount field: zero is rejected by `required`, a
      negative amount by `min=1`; `numeric` holds of every integer. */
  function AmountErrors(amount: int): seq<FieldError>
  {
    if amount == 0 then [FieldError("Amount", "required")]
    else if amount < 1 then [FieldError("Amount", "min")]
    else []
  }

  /** Tag failures of the ReferenceID field: the empty string fails `required`. */
  function ReferenceErrors(referenceId: string): seq<FieldError>
  {
    if |referenceId| == 0 then [FieldError("ReferenceID", "required")] else []
  }

  /** The tag failures the validator reports for a deposit or withdrawal
      request, in field order. */
  function ValidateTransactionRequest(r: TransactionRequest): (errs: seq<FieldError>)
    ensures errs == [] <==> ValidTransactionRequest(r)
    ensures |errs| <= 2
    ensures r.amount == 0 ==> errs[0] == FieldError("Amount", "required")
  {
    AmountErrors(r.amount) + ReferenceErrors(r.referenceId)
  }

  datatype WalletResponse = WalletResponse(
    id: string,
    ownedBy: string,
    status: WalletStatus,
    enabledAt: Option<Time>,
    balance: int)

  /** The status is carried as text, as the store's column is. */
  datatype TransactionResponse = TransactionResponse(
    id: string,
    status: string,
    transactedAt: Time,
    txType: TxType,
    amount: int,
    referenceId: string)

  datatype DepositResponse = DepositResponse(
    id: string,
    depositedBy: string,
    status: TxStatus,
    depositedAt: Time,
    amount: int,
    referenceId: string)

  datatype WithdrawalResponse = WithdrawalResponse(
    id: string,
    withdrawnBy: string,
    status: TxStatus,
    withdrawnAt: Time,
    amount: int,
    referenceId: string)

  function WalletView(w: Wallet): WalletResponse
  {
    WalletResponse(w.id, w.customerXid, w.status, w.enabledAt, w.balance)
  }

  function TransactionView(t: Transaction): TransactionResponse
  {
    TransactionResponse(t.id, TxStatusText(t.status), t.createdAt, t.txType, t.amount, t.referenceId)
  }

  function DepositView(t: Transaction): DepositResponse
  {
    DepositResponse(t.id, t.customerXid, t.status, t.createdAt, t.amount, t.referenceId)
  }

  function WithdrawalView(t: Transaction): WithdrawalResponse
  {
    WithdrawalResponse(t.id, t.customerXid, t.status, t.createdAt, t.amount, t.referenceId)
  }

  lemma TxStatusTextInjective(a: TxStatus, b: TxStatus)
    ensures TxStatusText(a) == TxStatusText(b) <==> a == b
  {
    if a != b {
      assert TxStatusText(a)[0] != TxStatusText(b)[0];
    }
  }

  /** A wallet response keeps exactly the id, owner, status, enabled_at and
      balance of the row: two rows give the same response iff they agree on
      those five columns. */
  lemma WalletViewKeepsExactly(a: Wallet, b: Wallet)
    ensures WalletView(a) == WalletView(b) <==>
      a.id == b.id && a.customerXid == b.customerXid && a.status == b.status
      && a.enabledAt == b.enabledAt && a.balance == b.balance
  {
  }

  /** A transaction-list entry keeps exactly id, status, created_at, type,
      amount and reference of the row. */
  lemma TransactionViewKeepsExactly(a: Transaction, b: Transaction)
    ensures TransactionView(a) == TransactionView(b) <==>
      a.id == b.id && a.status == b.status && a.createdAt == b.createdAt
      && a.txType == b.txType && a.amount == b.amount && a.referenceId == b.referenceId
  {
    TxStatusTextInjective(a.status, b.status);
  }

  /** Deposit and withdrawal responses keep exactly id, owner (the actor),
      status, created_at (the timestamp), amount and reference. */
  lemma ActorViewsKeepExactly(a: Transaction, b: Transaction)
    ensures DepositView(a) == DepositView(b) <==>
      a.id == b.id && a.customerXid == b.customerXid && a.status == b.status
      && a.createdAt == b.createdAt && a.amount == b.amount && a.referenceId == b.referenceId
    ensures WithdrawalView(a) == WithdrawalView(b) <==> DepositView(a) == DepositView(b)
  {
  }
}
