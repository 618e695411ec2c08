/** Records kept by the wallet store and the values that flow between its layers. */
module Domain {

  /** Timestamps are supplied by the caller (the clock is outside the model). */
  type Time = int

  datatype Option<+T> = None | Some(value: T)

  datatype Result<+T, +E> = Ok(value: T) | Err(error: E)

  /** The `status` column of a wallet. A freshly inserted row carries the
      column default, which is neither `enabled` nor `disabled`. */
  datatype WalletStatus = Unset | Enabled | Disabled

  /** The `status` column of a transaction. */
  datatype TxStatus = Pending | Success | Failed

  /** The `transaction_type` column of a transaction. */
  datatype TxType = Deposit | Withdrawal

  /** The text stored for a transaction status. */
  function TxStatusText(s: TxStatus): string
  {
    match s
    case Pending => "pending"
    case Success => "success"
    case Failed => "failed"
  }

  /** A row of the `wallets` table. */
  datatype Wallet = Wallet(
    id: string,
    customerXid: string,
    status: WalletStatus,
    enabledAt: Option<Time>,
    balance: int,
    createdAt: Time,
    updatedAt: Time)

  /** A row of the `transactions` table. */
  datatype Transaction = Transaction(
    id: string,
    walletId: string,
    customerXid: string,
    txType: TxType,
    amount: int,
    referenceId: string,
    status: TxStatus,
    createdAt: Time,
    updatedAt: Time)

  /** Where a Begin/Exec/Commit write sequence breaks down, if it does. */
  datatype Fault = Healthy | BeginFails | ExecFails | CommitFails

  /** Where a multi-row read breaks down, if it does: the query itself, the
      scan of row `row`, or the cursor's advance to row `row` (the cursor then
      reports that there are no more rows and records the error). */
  datatype ReadFault = ReadHealthy | QueryFails | ScanFailsAt(row: nat) | NextFailsAt(row: nat)

  /** Errors the store hands back to its caller. */
  datatype StoreError = BeginFailed | ExecFailed | CommitFailed | NoRows | QueryFailed | ScanFailed | IterationFailed

  /** The value Go's 64-bit `int` arithmetic gives for the mathematical result
      `x`: two's-complement wrap-around into [-2^63, 2^63). */
  function WrapInt64(x: int): (r: int)
    ensures -0x8000_0000_0000_0000 <= r < 0x8000_0000_0000_0000
    ensures -0x8000_0000_0000_0000 <= x < 0x8000_0000_0000_0000 ==> r == x
    ensures (x - r) % 0x1_0000_0000_0000_0000 == 0
  {
    (x + 0x8000_0000_0000_0000) % 0x1_0000_0000_0000_0000 - 0x8000_0000_0000_0000
  }

  /** How many of `n` selected rows a read hands over before its cursor stops. */
  function RowsDelivered(n: nat, fault: ReadFault): (k: nat)
    ensures k <= n
    ensures k < n <==> fault.NextFailsAt? && fault.row < n
  {
    if fault.NextFailsAt? && fault.row < n then fault.row else n
  }

  /** One failed `validate` tag: the struct field and the tag that rejected it. */
  datatype FieldError = FieldError(field: string, tag: string)

  /** Errors the wallet service hands back to its caller. */
  datatype Error =
    | Invalid(fields: seq<FieldError>)
    | Store(cause: StoreError)
    | AlreadyEnabled
    | WalletDisabled
    | InsufficientBalance

  /** The error a Begin, Exec, Commit sequence returns, where `accepted` says
      whether the statement's own constraints (keys) let it through. The
      change is committed exactly when no error is returned. */
  function WriteError(fault: Fault, accepted: bool): (e: Option<StoreError>)
    ensures e.None? <==> fault == Healthy && accepted
    ensures fault == BeginFails ==> e == Some(BeginFailed)
    ensures fault == CommitFails && accepted ==> e == Some(CommitFailed)
  {
    match fault
    case BeginFails => Some(BeginFailed)
    case ExecFails => Some(ExecFailed)
    case CommitFails => if accepted then Some(CommitFailed) else Some(ExecFailed)
    case Healthy => if accepted then None else Some(ExecFailed)
  }
}
