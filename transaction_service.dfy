/**
 * The transaction service: a transaction together with the block that
 * records it, and per-account movement statistics.
 */
module TransactionService {
  import opened Results
  import opened Blocks
  import opened Transactions
  import opened TransactionRepository
  import opened BlockRepository

  /** findByAccountId's default page size. */
  const DefaultLimit: nat := 50

  /** What getTransactionWithBlock reports for an existing transaction. */
  datatype TransactionWithBlock = TransactionWithBlock(
    transaction: Transaction,
    block: Option<Block>,
    blockchainVerified: bool)

  /** What getAccountTransactionStats reports. */
  datatype TransactionStats = TransactionStats(
    totalTransactions: nat,
    totalDeposits: int,
    totalWithdrawals: int,
    netAmount: int,
    depositCount: nat,
    withdrawalCount: nat)

  /** The number of rows of one type in a list (a collection's `where('type', ...)->count()`). */
  function CountOfType(s: seq<Transaction>, txType: string): (n: nat)
    ensures n <= |s|
    ensures n == 0 <==> forall t :: t in s ==> t.txType != txType
  {
    if s == [] then 0
    else CountOfType(s[..|s| - 1], txType) + (if s[|s| - 1].txType == txType then 1 else 0)
  }

  /** No row is both a deposit and a withdrawal, so the two counts together never exceed the list. */
  lemma {:induction false} CountsWithinList(s: seq<Transaction>)
    ensures CountOfType(s, DepositType) + CountOfType(s, WithdrawalType) <= |s|
  {
    if s != [] {
      CountsWithinList(s[..|s| - 1]);
    }
  }

  class TransactionService {
    const transactions: TransactionRepository
    const blocks: BlockRepository

    constructor (transactions: TransactionRepository, blocks: BlockRepository)
      ensures this.transactions == transactions && this.blocks == blocks
    {
      this.transactions := transactions;
      this.blocks := blocks;
    }

    /**
     * getTransactionWithBlock: null for an unknown transaction; otherwise the
     * transaction, the block recording it (if any), and whether that block
     * exists and still matches its hash.
     */
    function GetTransactionWithBlock(h: Hashing, transactionId: int, now: nat): (r: Option<TransactionWithBlock>)
      reads this, transactions, blocks, blocks.table, set b | b in blocks.table.rows
      requires transactions.Valid()
      ensures r.None? <==> transactions.FindById(transactionId).None?
      ensures r.Some? ==> r.value.transaction in transactions.rows && r.value.transaction.id == transactionId
      ensures r.Some? ==> (r.value.block.None? <==> forall b :: b in blocks.table.rows ==> b.transactionId != Some(transactionId))
      ensures r.Some? && r.value.block.Some? ==>
                r.value.block.value in blocks.table.rows && r.value.block.value.transactionId == Some(transactionId)
      ensures r.Some? ==> (r.value.blockchainVerified <==> r.value.block.Some? && r.value.block.value.IsValid(h, now))
    {
      match transactions.FindById(transactionId)
      case None => None
      case Some(t) =>
        var block := blocks.FindByTransactionId(transactionId);
        Some(TransactionWithBlock(t, block, if block.Some? then block.value.IsValid(h, now) else false))
    }

    /**
     * getAccountTransactionStats: totals over all of the account's rows; the
     * three counts over its newest rows only, at most the default limit.
     */
    function GetAccountTransactionStats(accountId: int): (s: TransactionStats)
      reads this, transactions
      ensures s.totalDeposits == transactions.TotalDeposits(accountId)
      ensures s.totalWithdrawals == transactions.TotalWithdrawals(accountId)
      ensures s.netAmount == s.totalDeposits - s.totalWithdrawals
      ensures s.depositCount + s.withdrawalCount <= s.totalTransactions <= DefaultLimit
      ensures s.totalTransactions == |transactions.FindByAccountId(accountId, DefaultLimit)|
      ensures s.depositCount == CountOfType(transactions.FindByAccountId(accountId, DefaultLimit), DepositType)
      ensures s.withdrawalCount == CountOfType(transactions.FindByAccountId(accountId, DefaultLimit), WithdrawalType)
    {
      var deposits := transactions.TotalDeposits(accountId);
      var withdrawals := transactions.TotalWithdrawals(accountId);
      var list := transactions.FindByAccountId(accountId, DefaultLimit);
      CountsWithinList(list);
      TransactionStats(|list|, deposits, withdrawals, deposits - withdrawals,
                       CountOfType(list, DepositType), CountOfType(list, WithdrawalType))
    }
  }
}
