/** The Transaction model: an immutable record of one balance movement, and its renderings. */
module Transactions {
  import opened Results
  import opened Text
  import opened Blocks

  const DepositType: string := "deposit"
  const WithdrawalType: string := "withdrawal"

  /** One row of the transactions table; money in cents, created_at as a Unix timestamp. */
  datatype Transaction = Transaction(
    id: nat,
    accountId: nat,
    txType: string,
    amount: int,
    description: Option<string>,
    balanceBefore: int,
    balanceAfter: int,
    createdAt: nat)

  /** isDeposit: the type is exactly "deposit" (so never "withdrawal"). */
  function IsDeposit(t: Transaction): (r: bool)
    ensures r <==> t.txType == DepositType
    ensures r ==> t.txType != WithdrawalType
  {
    t.txType == DepositType
  }

  /** isWithdrawal: the type is exactly "withdrawal"; never true together with isDeposit. */
  function IsWithdrawal(t: Transaction): (r: bool)
    ensures r <==> t.txType == WithdrawalType
    ensures r ==> !IsDeposit(t)
  {
    t.txType == WithdrawalType
  }

  /** A movement recorded by deposit or withdraw: the after-balance follows from the before-balance. */
  predicate Consistent(t: Transaction)
  {
    && (IsDeposit(t) ==> t.balanceAfter == t.balanceBefore + t.amount)
    && (IsWithdrawal(t) ==> t.balanceAfter == t.balanceBefore - t.amount)
  }

  /** getFormattedType: ucfirst of the type, so "Deposit" and "Withdrawal" for the two known types. */
  function FormattedType(t: Transaction): (r: string)
    ensures |r| == |t.txType|
    ensures t.txType != [] ==> r[0] == ToUpper(t.txType[0]) && r[1..] == t.txType[1..]
    ensures IsDeposit(t) ==> r == "Deposit"
    ensures IsWithdrawal(t) ==> r == "Withdrawal"
  {
    UcFirst(t.txType)
  }

  /** getFormattedAmount: "+ $ " for deposits, "- $ " for every other type, then number_format(amount, 2). */
  function FormattedAmount(t: Transaction): (r: string)
    ensures |r| >= 8 && r[1..4] == " $ "
    ensures r[0] == '+' <==> IsDeposit(t)
  {
    (if IsDeposit(t) then "+" else "-") + " $ " + FormatCents(t.amount)
  }

  /** The formatted amount starts with the sign and " $ ", and the rest reads back as the amount. */
  lemma FormattedAmountReadsBack(t: Transaction)
    ensures |FormattedAmount(t)| >= 8
    ensures FormattedAmount(t)[..4] == (if IsDeposit(t) then "+ $ " else "- $ ")
    ensures ParseCents(FormattedAmount(t)[4..]) == t.amount
  {
    var lead := if IsDeposit(t) then "+ $ " else "- $ ";
    var f := FormatCents(t.amount);
    assert FormattedAmount(t) == lead + f;
    assert |lead| == 4;
    assert (lead + f)[..4] == lead && (lead + f)[4..] == f;
    FormatCentsRoundTrip(t.amount);
  }

  /**
   * toBlockchainData: the eight fields copied into a block, the account code
   * being that of the transaction's account.
   */
  function ToBlockchainData(t: Transaction, accountCode: string): (p: Payload)
    ensures p.TransactionData?
    ensures p.transactionId == t.id && p.txType == t.txType && p.amount == t.amount
    ensures p.accountCode == accountCode && p.description == t.description
    ensures p.balanceBefore == t.balanceBefore && p.balanceAfter == t.balanceAfter
    ensures p.timestamp == t.createdAt
  {
    TransactionData(t.id, t.txType, t.amount, accountCode, t.balanceBefore, t.balanceAfter,
                    t.description, t.createdAt)
  }
}
