/**
 * The Account model: a balance in cents that deposit and withdraw change,
 * each successful movement recording one transaction and one block.
 */
module Accounts {
  import opened Results
  import opened Blocks
  import opened Transactions
  import opened TransactionRepository
  import opened BlockchainService

  /**
   * The ledger identity: the balance is the initial balance plus the
   * account's deposits minus its withdrawals.
   */
  ghost predicate Reconciled(a: Account, rows: seq<Transaction>)
    reads a
  {
    a.balance == a.initialBalance + SumAmounts(rows, a.id, DepositType) - SumAmounts(rows, a.id, WithdrawalType)
  }

  /** A row recorded for account `id` leaves the identity of every other account as it was. */
  lemma OtherAccountUnaffected(a: Account, rows: seq<Transaction>, t: Transaction)
    requires t.accountId != a.id
    ensures Reconciled(a, rows + [t]) <==> Reconciled(a, rows)
  {
    SumAmountsAppend(rows, t, a.id, DepositType);
    SumAmountsAppend(rows, t, a.id, WithdrawalType);
  }

  /**
   * Recording a row of an account moves the right side of its identity by
   * the row's signed amount, so a balance moved by that amount keeps it.
   */
  lemma RecordKeepsIdentity(rows: seq<Transaction>, t: Transaction, id: int, before: int, after: int, initial: int)
    requires before == initial + SumAmounts(rows, id, DepositType) - SumAmounts(rows, id, WithdrawalType)
    requires t.accountId == id && (t.txType == DepositType || t.txType == WithdrawalType)
    requires after == if t.txType == DepositType then before + t.amount else before - t.amount
    ensures after == initial + SumAmounts(rows + [t], id, DepositType) - SumAmounts(rows + [t], id, WithdrawalType)
  {
    SumAmountsAppend(rows, t, id, DepositType);
    SumAmountsAppend(rows, t, id, WithdrawalType);
  }

  /**
   * `t` is account `a`'s movement of type `txType` for `amount`, described by
   * `description`, and `after` is `before` with the block carrying `t`
   * appended (mined at the default difficulty, valid and saved at `now`);
   * that block is the last one of `after`.
   */
  ghost predicate Recorded(h: Hashing, t: Transaction, a: Account, txType: string, amount: int,
                           description: Option<string>, before: seq<Block>, after: seq<Block>, now: nat)
    reads a, before, after
  {
    && t.accountId == a.id && t.txType == txType && t.amount == amount && t.description == description
    && after != []
    && Appended(h, before, after, after[|after| - 1], ToBlockchainData(t, a.code), t.id, DefaultDifficulty, now)
  }

  /** Recording a movement keeps a valid chain valid. */
  lemma RecordedKeepsChain(h: Hashing, t: Transaction, a: Account, txType: string, amount: int,
                           description: Option<string>, before: seq<Block>, after: seq<Block>, now: nat)
    requires Recorded(h, t, a, txType, amount, description, before, after, now)
    ensures ChainValid(h, before, now) ==> ChainValid(h, after, now)
  {
    AppendedKeepsChain(h, before, after, after[|after| - 1], ToBlockchainData(t, a.code), t.id, DefaultDifficulty, now);
  }

  class Account {
    const id: nat
    var code: string
    var balance: int
    var initialBalance: int
    var userId: nat
    var active: bool

    constructor (id: nat, code: string, balance: int, initialBalance: int, userId: nat, active: bool)
      ensures this.id == id && this.code == code && this.balance == balance
      ensures this.initialBalance == initialBalance && this.userId == userId && this.active == active
    {
      this.id := id;
      this.code := code;
      this.balance := balance;
      this.initialBalance := initialBalance;
      this.userId := userId;
      this.active := active;
    }

    /** getStatus: "Active" exactly when the account is active, "Inactive" otherwise. */
    function GetStatus(): (s: string)
      reads this
      ensures s == "Active" <==> active
      ensures !active ==> s == "Inactive"
    {
      if active then "Active" else "Inactive"
    }

    /**
     * deposit: rejects a non-positive amount, then an inactive account, each
     * before any change; otherwise raises the balance, records a deposit
     * with the balances before and after, and adds its block to the chain.
     */
    method Deposit(h: Hashing, amount: int, description: Option<string>,
                   txs: TransactionRepository, blocks: BlockTable, now: nat)
      returns (r: Result<Transaction>)
      requires txs.Valid() && blocks.Valid() && Minable(h, DefaultDifficulty)
      modifies this`balance, txs, blocks
      ensures txs.Valid() && blocks.Valid()
      ensures amount <= 0 ==> r == Err(AmountNotPositive)
      ensures amount > 0 && !active ==> r == Err(AccountInactive)
      ensures amount > 0 && active ==> r.Ok?
      ensures r.Err? ==> balance == old(balance) && txs.rows == old(txs.rows)
                         && blocks.rows == old(blocks.rows)
      ensures r.Ok? ==> balance == old(balance) + amount
      ensures old(balance) >= 0 ==> balance >= 0
      ensures r.Ok? ==> r.value == Transaction(|old(txs.rows)| + 1, id, DepositType, amount, description,
                                               old(balance), balance, now)
      ensures r.Ok? ==> Consistent(r.value) && txs.rows == old(txs.rows) + [r.value]
      ensures r.Ok? ==> Recorded(h, r.value, this, DepositType, amount, description, old(blocks.rows), blocks.rows, now)
      ensures ChainValid(h, old(blocks.rows), now) ==> ChainValid(h, blocks.rows, now)
      ensures old(Reconciled(this, txs.rows)) ==> Reconciled(this, txs.rows)
    {
      if amount <= 0 {
        return Err(AmountNotPositive);
      }
      if !active {
        return Err(AccountInactive);
      }
      var t := RecordMovement(h, DepositType, amount, description, txs, blocks, now);
      r := Ok(t);
    }

    /**
     * withdraw: rejects a non-positive amount, an inactive account and a
     * balance below the amount, in that order and before any change;
     * otherwise lowers the balance (never below zero), records a withdrawal
     * and adds its block to the chain.
     */
    method Withdraw(h: Hashing, amount: int, description: Option<string>,
                    txs: TransactionRepository, blocks: BlockTable, now: nat)
      returns (r: Result<Transaction>)
      requires txs.Valid() && blocks.Valid() && Minable(h, DefaultDifficulty)
      modifies this`balance, txs, blocks
      ensures txs.Valid() && blocks.Valid()
      ensures amount <= 0 ==> r == Err(AmountNotPositive)
      ensures amount > 0 && !active ==> r == Err(AccountInactive)
      ensures amount > 0 && active && old(balance) < amount ==> r == Err(InsufficientBalance)
      ensures amount > 0 && active && old(balance) >= amount ==> r.Ok?
      ensures r.Err? ==> balance == old(balance) && txs.rows == old(txs.rows)
                         && blocks.rows == old(blocks.rows)
      ensures r.Ok? ==> balance == old(balance) - amount && balance >= 0
      ensures r.Ok? ==> r.value == Transaction(|old(txs.rows)| + 1, id, WithdrawalType, amount, description,
                                               old(balance), balance, now)
      ensures r.Ok? ==> Consistent(r.value) && txs.rows == old(txs.rows) + [r.value]
      ensures r.Ok? ==> Recorded(h, r.value, this, WithdrawalType, amount, description, old(blocks.rows), blocks.rows, now)
      ensures ChainValid(h, old(blocks.rows), now) ==> ChainValid(h, blocks.rows, now)
      ensures old(Reconciled(this, txs.rows)) ==> Reconciled(this, txs.rows)
    {
      if amount <= 0 {
        return Err(AmountNotPositive);
      }
      if !active {
        return Err(AccountInactive);
      }
      if balance < amount {
        return Err(InsufficientBalance);
      }
      var t := RecordMovement(h, WithdrawalType, amount, description, txs, blocks, now);
      r := Ok(t);
    }

    /**
     * The common tail of deposit and withdraw once the checks have passed:
     * moves the balance by the amount, records the movement with the
     * balances before and after, and adds its block to the chain through a
     * newly built blockchain service, which mines at the default difficulty.
     */
    method RecordMovement(h: Hashing, txType: string, amount: int, description: Option<string>,
                          txs: TransactionRepository, blocks: BlockTable, now: nat)
      returns (t: Transaction)
      requires txType == DepositType || txType == WithdrawalType
      requires txs.Valid() && blocks.Valid() && Minable(h, DefaultDifficulty)
      modifies this`balance, txs, blocks
      ensures txs.Valid() && blocks.Valid()
      ensures balance == if txType == DepositType then old(balance) + amount else old(balance) - amount
      ensures t == Transaction(|old(txs.rows)| + 1, id, txType, amount, description, old(balance), balance, now)
      ensures txs.rows == old(txs.rows) + [t]
      ensures Recorded(h, t, this, txType, amount, description, old(blocks.rows), blocks.rows, now)
      ensures ChainValid(h, old(blocks.rows), now) ==> ChainValid(h, blocks.rows, now)
      ensures old(Reconciled(this, txs.rows)) ==> Reconciled(this, txs.rows)
    {
      var before := balance;
      balance := if txType == DepositType then balance + amount else balance - amount;
      t := txs.Create(id, txType, amount, description, before, balance, now);
      var chain := new BlockchainService(blocks);
      var b := chain.AddBlock(h, t, code, now);
      assert b in blocks.rows;
      assert Appended(h, old(blocks.rows), blocks.rows, b, ToBlockchainData(t, code), t.id, DefaultDifficulty, now);
      if old(Reconciled(this, txs.rows)) {
        RecordKeepsIdentity(old(txs.rows), t, id, before, balance, initialBalance);
      }
    }
  }
}
