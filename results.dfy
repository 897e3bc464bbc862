/** Optional values and the exceptions the ledger throws, as values. */
module Results {

  datatype Option<+T> = None | Some(value: T)

  /** Every business exception the core raises, one constructor per message. */
  datatype Error =
    | AmountNotPositive
    | AccountInactive
    | InsufficientBalance
    | AccountNotFound
    | SourceAccountNotFound
    | DestinationAccountNotFound
    | SameAccount

  /** The exception text the PHP code throws for each error. */
  function Message(e: Error): string
  {
    match e
    case AmountNotPositive => "Amount must be greater than zero"
    case AccountInactive => "Account is not active"
    case InsufficientBalance => "Insufficient balance"
    case AccountNotFound => "Account not found"
    case SourceAccountNotFound => "Source account not found"
    case DestinationAccountNotFound => "Destination account not found"
    case SameAccount => "Cannot transfer to the same account"
  }

  /** A call that either returns a value or throws one of the errors above. */
  datatype Result<+T> = Ok(value: T) | Err(error: Error)
}
