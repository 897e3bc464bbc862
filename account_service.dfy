/**
 * The account service: opening accounts, deposits, withdrawals and
 * transfers by account id, and the per-account statistics.
 */
module AccountService {
  import opened Results
  import opened Blocks
  import opened Transactions
  import opened TransactionRepository
  import opened BlockchainService
  import opened Accounts
  import opened AccountRepository

  /** PHP truthiness of an optional string: null, "" and "0" are false. */
  predicate Truthy(d: Option<string>)
  {
    d.Some? && d.value != "" && d.value != "0"
  }

  /**
   * A transfer leg's description: the lead text and the other account's code,
   * then ": " and the caller's description only when that one is truthy.
   */
  function TransferDescription(lead: string, code: string, description: Option<string>): (r: string)
    ensures |r| >= |lead| + |code| && r[..|lead| + |code|] == lead + code
    ensures |r| == |lead| + |code| <==> !Truthy(description)
    ensures Truthy(description) ==> r[|lead| + |code|..] == ": " + description.value
  {
    lead + code + (if Truthy(description) then ": " + description.value else "")
  }

  /** What getAccountStats reports. */
  datatype AccountStats = AccountStats(
    accountCode: string,
    currentBalance: int,
    initialBalance: int,
    totalDeposits: int,
    totalWithdrawals: int,
    netChange: int,
    isActive: bool)

  /** What a successful transfer returns: both movements and both accounts. */
  datatype TransferResult = TransferResult(
    withdrawal: Transaction,
    deposit: Transaction,
    fromAccount: Account,
    toAccount: Account)

  /** Recording a row for one account keeps every account of the table reconciled. */
  lemma RecordKeepsLedger(accs: seq<Account>, rows: seq<Transaction>, t: Transaction, acc: Account)
    requires forall i :: 0 <= i < |accs| ==> accs[i].id == i + 1
    requires acc in accs && t.accountId == acc.id
    requires forall x :: x in accs && x != acc ==> Reconciled(x, rows)
    requires Reconciled(acc, rows + [t])
    ensures forall x :: x in accs ==> Reconciled(x, rows + [t])
  {
    forall x | x in accs && x != acc
      ensures Reconciled(x, rows + [t])
    {
      var i :| 0 <= i < |accs| && accs[i] == x;
      var j :| 0 <= j < |accs| && accs[j] == acc;
      assert i != j;
      OtherAccountUnaffected(x, rows, t);
    }
  }

  /** A row for an existing account keeps every row pointing at an existing account. */
  lemma AppendKeepsAccountIds(rows: seq<Transaction>, t: Transaction, n: nat)
    requires forall x :: x in rows ==> 1 <= x.accountId <= n
    requires 1 <= t.accountId <= n
    ensures forall x :: x in rows + [t] ==> 1 <= x.accountId <= n
  {
  }

  class AccountService {
    const accounts: AccountRepository
    const transactions: TransactionRepository
    const blockchain: BlockchainService

    constructor (accounts: AccountRepository, transactions: TransactionRepository, blockchain: BlockchainService)
      ensures this.accounts == accounts && this.transactions == transactions && this.blockchain == blockchain
    {
      this.accounts := accounts;
      this.transactions := transactions;
      this.blockchain := blockchain;
    }

    /** The three stores are well formed and every transaction belongs to an existing account. */
    ghost predicate Valid()
      reads this, accounts, transactions, blockchain, blockchain.table
    {
      && accounts.Valid() && transactions.Valid() && blockchain.table.Valid()
      && forall t :: t in transactions.rows ==> 1 <= t.accountId <= |accounts.accounts|
    }

    /** Every account's balance is its initial balance plus its deposits minus its withdrawals. */
    ghost predicate Ledger()
      reads this, accounts, transactions, set a | a in accounts.accounts
    {
      forall a :: a in accounts.accounts ==> Reconciled(a, transactions.rows)
    }

    /**
     * Once `account`, an account of the table, has recorded the row `t` and
     * nothing else changed but its balance and the blocks, the stores are
     * still valid and a reconciled ledger is still reconciled.
     */
    twostate lemma RecordKeepsInvariants(account: Account)
      requires old(Valid()) && old(account in accounts.accounts)
      requires unchanged(this, accounts) && transactions.Valid() && blockchain.table.Valid()
      requires |transactions.rows| == |old(transactions.rows)| + 1
      requires transactions.rows == old(transactions.rows) + [transactions.rows[|old(transactions.rows)|]]
      requires transactions.rows[|old(transactions.rows)|].accountId == account.id
      requires forall x :: x in accounts.accounts && x != account ==> unchanged(x)
      requires old(Reconciled(account, transactions.rows)) ==> Reconciled(account, transactions.rows)
      ensures Valid()
      ensures old(Ledger()) ==> Ledger()
    {
      ghost var rows := old(transactions.rows);
      ghost var t := transactions.rows[|rows|];
      ghost var i :| 0 <= i < |accounts.accounts| && accounts.accounts[i] == account;
      AppendKeepsAccountIds(rows, t, |accounts.accounts|);
      if old(Ledger()) {
        forall x | x in accounts.accounts && x != account
          ensures Reconciled(x, rows)
        {
          assert old(Reconciled(x, rows));
        }
        RecordKeepsLedger(accounts.accounts, rows, t, account);
      }
    }

    /** A refused movement leaves the stores valid and a reconciled ledger reconciled. */
    twostate lemma NothingRecordedKeepsInvariants()
      requires old(Valid())
      requires unchanged(this, accounts) && transactions.Valid() && blockchain.table.Valid()
      requires transactions.rows == old(transactions.rows)
      requires forall x :: x in accounts.accounts ==> unchanged(x)
      ensures Valid()
      ensures old(Ledger()) ==> Ledger()
    {
      if old(Ledger()) {
        forall x | x in accounts.accounts
          ensures Reconciled(x, transactions.rows)
        {
          assert old(Reconciled(x, transactions.rows));
        }
      }
    }

    /** createAccount: a new active account whose balance and initial balance are both the amount given. */
    method CreateAccount(userId: nat, initialBalance: int) returns (a: Account)
      requires Valid()
      modifies accounts
      ensures Valid() && fresh(a) && accounts.accounts == old(accounts.accounts) + [a]
      ensures a.id == |old(accounts.accounts)| + 1 && a.userId == userId
      ensures a.code == AccountCode(a.id)
      ensures a.balance == initialBalance && a.initialBalance == initialBalance && a.active
      ensures old(Ledger()) ==> Ledger()
    {
      var code := accounts.GenerateUniqueCode();
      a := accounts.Create(Some(code), Some(initialBalance), Some(initialBalance), userId, Some(true));
      NewAccountKeepsInvariants(a);
    }

    /**
     * A new account appended with balance equal to its initial balance owns no
     * row yet, so it is reconciled and every other account stays reconciled.
     */
    twostate lemma NewAccountKeepsInvariants(new a: Account)
      requires old(Valid()) && accounts.Valid()
      requires unchanged(this, transactions, blockchain, blockchain.table)
      requires accounts.accounts == old(accounts.accounts) + [a]
      requires a.balance == a.initialBalance
      requires forall x :: x in old(accounts.accounts) ==> unchanged(x)
      ensures Valid()
      ensures old(Ledger()) ==> Ledger()
    {
      assert accounts.accounts[|accounts.accounts| - 1] == a;
      assert a.id == |accounts.accounts|;
      forall t | t in transactions.rows
        ensures t.accountId != a.id
      {
      }
      assert SumAmounts(transactions.rows, a.id, DepositType) == 0;
      assert SumAmounts(transactions.rows, a.id, WithdrawalType) == 0;
      assert Reconciled(a, transactions.rows);
      if old(Ledger()) {
        forall x | x in accounts.accounts
          ensures Reconciled(x, transactions.rows)
        {
          if x != a {
            assert x in old(accounts.accounts);
            assert old(Reconciled(x, transactions.rows));
          }
        }
      }
    }

    /** An account of the table makes a deposit, keeping the stores valid and the ledger reconciled. */
    method DepositInto(h: Hashing, account: Account, amount: int, description: Option<string>, now: nat)
      returns (r: Result<Transaction>)
      requires Valid() && Minable(h, DefaultDifficulty) && account in accounts.accounts
      modifies account`balance, transactions, blockchain.table
      ensures Valid()
      ensures old(Ledger()) ==> Ledger()
      ensures ChainValid(h, old(blockchain.table.rows), now) ==> ChainValid(h, blockchain.table.rows, now)
      ensures amount <= 0 ==> r == Err(AmountNotPositive)
      ensures amount > 0 && !account.active ==> r == Err(AccountInactive)
      ensures amount > 0 && account.active ==> r.Ok?
      ensures r.Err? ==> && account.balance == old(account.balance) && transactions.rows == old(transactions.rows)
                         && blockchain.table.rows == old(blockchain.table.rows)
      ensures r.Ok? ==> && account.balance == old(account.balance) + amount
                        && transactions.rows == old(transactions.rows) + [r.value]
                        && Recorded(h, r.value, account, DepositType, amount, description,
                                    old(blockchain.table.rows), blockchain.table.rows, now)
    {
      r := account.Deposit(h, amount, description, transactions, blockchain.table, now);
      if r.Ok? {
        RecordKeepsInvariants(account);
      } else {
        NothingRecordedKeepsInvariants();
      }
    }

    /** An account of the table makes a withdrawal, keeping the stores valid and the ledger reconciled. */
    method WithdrawFrom(h: Hashing, account: Account, amount: int, description: Option<string>, now: nat)
      returns (r: Result<Transaction>)
      requires Valid() && Minable(h, DefaultDifficulty) && account in accounts.accounts
      modifies account`balance, transactions, blockchain.table
      ensures Valid()
      ensures old(Ledger()) ==> Ledger()
      ensures ChainValid(h, old(blockchain.table.rows), now) ==> ChainValid(h, blockchain.table.rows, now)
      ensures amount <= 0 ==> r == Err(AmountNotPositive)
      ensures amount > 0 && !account.active ==> r == Err(AccountInactive)
      ensures amount > 0 && account.active && old(account.balance) < amount ==> r == Err(InsufficientBalance)
      ensures amount > 0 && account.active && old(account.balance) >= amount ==> r.Ok?
      ensures r.Err? ==> && account.balance == old(account.balance) && transactions.rows == old(transactions.rows)
                         && blockchain.table.rows == old(blockchain.table.rows)
      ensures r.Ok? ==> && account.balance == old(account.balance) - amount && account.balance >= 0
                        && transactions.rows == old(transactions.rows) + [r.value]
                        && Recorded(h, r.value, account, WithdrawalType, amount, description,
                                    old(blockchain.table.rows), blockchain.table.rows, now)
    {
      r := account.Withdraw(h, amount, description, transactions, blockchain.table, now);
      if r.Ok? {
        RecordKeepsInvariants(account);
      } else {
        NothingRecordedKeepsInvariants();
      }
    }

    /**
     * deposit: "Account not found" for an unknown id with nothing changed,
     * otherwise the account's deposit with its refusals and its outcome.
     */
    method Deposit(h: Hashing, accountId: int, amount: int, description: Option<string>, now: nat)
      returns (r: Result<Transaction>)
      requires Valid() && Minable(h, DefaultDifficulty)
      modifies (set a | a in accounts.accounts)`balance, transactions, blockchain.table
      ensures Valid()
      ensures old(Ledger()) ==> Ledger()
      ensures ChainValid(h, old(blockchain.table.rows), now) ==> ChainValid(h, blockchain.table.rows, now)
      ensures accounts.FindById(accountId).None? ==> r == Err(AccountNotFound)
      ensures accounts.FindById(accountId).Some? ==>
                && var a := accounts.FindById(accountId).value;
                && (amount <= 0 ==> r == Err(AmountNotPositive))
                && (amount > 0 && !a.active ==> r == Err(AccountInactive))
                && (amount > 0 && a.active ==> r.Ok?)
      ensures r.Err? ==> transactions.rows == old(transactions.rows) && blockchain.table.rows == old(blockchain.table.rows)
      ensures r.Ok? ==> && accounts.FindById(accountId).Some?
                        && var a := accounts.FindById(accountId).value;
                        && a.balance == old(a.balance) + amount
                        && transactions.rows == old(transactions.rows) + [r.value]
                        && Recorded(h, r.value, a, DepositType, amount, description,
                                    old(blockchain.table.rows), blockchain.table.rows, now)
      ensures forall a :: a in accounts.accounts && (r.Err? || a.id != accountId) ==> a.balance == old(a.balance)
    {
      var found := accounts.FindById(accountId);
      if found.None? {
        return Err(AccountNotFound);
      }
      r := DepositInto(h, found.value, amount, description, now);
    }

    /**
     * withdraw: "Account not found" for an unknown id with nothing changed,
     * otherwise the account's withdrawal with its refusals and its outcome.
     */
    method Withdraw(h: Hashing, accountId: int, amount: int, description: Option<string>, now: nat)
      returns (r: Result<Transaction>)
      requires Valid() && Minable(h, DefaultDifficulty)
      modifies (set a | a in accounts.accounts)`balance, transactions, blockchain.table
      ensures Valid()
      ensures old(Ledger()) ==> Ledger()
      ensures ChainValid(h, old(blockchain.table.rows), now) ==> ChainValid(h, blockchain.table.rows, now)
      ensures accounts.FindById(accountId).None? ==> r == Err(AccountNotFound)
      ensures accounts.FindById(accountId).Some? ==>
                && var a := accounts.FindById(accountId).value;
                && (amount <= 0 ==> r == Err(AmountNotPositive))
                && (amount > 0 && !a.active ==> r == Err(AccountInactive))
                && (amount > 0 && a.active && old(a.balance) < amount ==> r == Err(InsufficientBalance))
                && (amount > 0 && a.active && old(a.balance) >= amount ==> r.Ok?)
      ensures r.Err? ==> transactions.rows == old(transactions.rows) && blockchain.table.rows == old(blockchain.table.rows)
      ensures r.Ok? ==> && accounts.FindById(accountId).Some?
                        && var a := accounts.FindById(accountId).value;
                        && a.balance == old(a.balance) - amount && a.balance >= 0
                        && transactions.rows == old(transactions.rows) + [r.value]
                        && Recorded(h, r.value, a, WithdrawalType, amount, description,
                                    old(blockchain.table.rows), blockchain.table.rows, now)
      ensures forall a :: a in accounts.accounts && (r.Err? || a.id != accountId) ==> a.balance == old(a.balance)
    {
      var found := accounts.FindById(accountId);
      if found.None? {
        return Err(AccountNotFound);
      }
      r := WithdrawFrom(h, found.value, amount, description, now);
    }

    /**
     * The two legs of a transfer between two different accounts of the table:
     * the source's withdrawal, then the destination's deposit.  When the
     * deposit is refused the withdrawal, and its block, are not undone.
     */
    method MoveFunds(h: Hashing, from: Account, to: Account, amount: int, description: Option<string>, now: nat)
      returns (r: Result<TransferResult>)
      requires Valid() && Minable(h, DefaultDifficulty)
      requires from in accounts.accounts && to in accounts.accounts && from != to
      modifies from`balance, to`balance, transactions, blockchain.table
      ensures Valid()
      ensures old(Ledger()) ==> Ledger()
      ensures ChainValid(h, old(blockchain.table.rows), now) ==> ChainValid(h, blockchain.table.rows, now)
      // refused before the withdrawal: nothing changes
      ensures amount <= 0 ==> r == Err(AmountNotPositive)
      ensures amount > 0 && !from.active ==> r == Err(AccountInactive)
      ensures amount > 0 && from.active && old(from.balance) < amount ==> r == Err(InsufficientBalance)
      ensures amount <= 0 || !from.active || old(from.balance) < amount ==>
        && transactions.rows == old(transactions.rows) && blockchain.table.rows == old(blockchain.table.rows)
        && from.balance == old(from.balance) && to.balance == old(to.balance)
      // the withdrawal went through, with its block, but the destination refused the deposit
      ensures amount > 0 && from.active && old(from.balance) >= amount && !to.active ==>
        && r == Err(AccountInactive)
        && from.balance == old(from.balance) - amount && to.balance == old(to.balance)
        && |transactions.rows| == |old(transactions.rows)| + 1
        && transactions.rows == old(transactions.rows) + [transactions.rows[|old(transactions.rows)|]]
        && Recorded(h, transactions.rows[|old(transactions.rows)|], from, WithdrawalType, amount,
                    Some(TransferDescription("Transfer to ", to.code, description)),
                    old(blockchain.table.rows), blockchain.table.rows, now)
      // both legs went through, each with its block: the sum of the two balances is unchanged
      ensures amount > 0 && from.active && old(from.balance) >= amount && to.active ==>
        && r.Ok? && r.value.fromAccount == from && r.value.toAccount == to
        && from.balance == old(from.balance) - amount && to.balance == old(to.balance) + amount
        && from.balance + to.balance == old(from.balance) + old(to.balance)
        && transactions.rows == old(transactions.rows) + [r.value.withdrawal] + [r.value.deposit]
        && |blockchain.table.rows| >= 1
        && Recorded(h, r.value.withdrawal, from, WithdrawalType, amount,
                    Some(TransferDescription("Transfer to ", to.code, description)),
                    old(blockchain.table.rows), blockchain.table.rows[..|blockchain.table.rows| - 1], now)
        && Recorded(h, r.value.deposit, to, DepositType, amount,
                    Some(TransferDescription("Transfer from ", from.code, description)),
                    blockchain.table.rows[..|blockchain.table.rows| - 1], blockchain.table.rows, now)
    {
      var w := WithdrawFrom(h, from, amount, Some(TransferDescription("Transfer to ", to.code, description)), now);
      if w.Err? {
        return Err(w.error);
      }
      r := DepositLeg(h, from, to, w.value, amount, description, now,
                      old(blockchain.table.rows), old(transactions.rows), old(from.balance));
    }

    /**
     * The second leg of a transfer, once the source's withdrawal `w` is
     * recorded with its block on top of `blocksBefore`: the destination's
     * deposit.  Whatever the deposit does, the withdrawal and its block stay
     * as they were, and a chain valid before the withdrawal stays valid.
     */
    method DepositLeg(h: Hashing, from: Account, to: Account, w: Transaction, amount: int,
                      description: Option<string>, now: nat,
                      ghost blocksBefore: seq<Block>, ghost rowsBefore: seq<Transaction>, ghost fromBefore: int)
      returns (r: Result<TransferResult>)
      requires Valid() && Minable(h, DefaultDifficulty)
      requires from in accounts.accounts && to in accounts.accounts && from != to && amount > 0
      requires from.balance == fromBefore - amount
      requires transactions.rows == rowsBefore + [w]
      requires Recorded(h, w, from, WithdrawalType, amount, Some(TransferDescription("Transfer to ", to.code, description)),
                        blocksBefore, blockchain.table.rows, now)
      modifies to`balance, transactions, blockchain.table
      ensures Valid()
      ensures old(Ledger()) ==> Ledger()
      ensures from.balance == fromBefore - amount
      ensures ChainValid(h, blocksBefore, now) ==> ChainValid(h, blockchain.table.rows, now)
      // the destination refused the deposit: only the withdrawal and its block are recorded
      ensures !to.active ==>
        && r == Err(AccountInactive) && to.balance == old(to.balance)
        && |transactions.rows| == |rowsBefore| + 1
        && transactions.rows == rowsBefore + [transactions.rows[|rowsBefore|]]
        && Recorded(h, transactions.rows[|rowsBefore|], from, WithdrawalType, amount,
                    Some(TransferDescription("Transfer to ", to.code, description)),
                    blocksBefore, blockchain.table.rows, now)
      // the deposit went through: both rows and both blocks are recorded
      ensures to.active ==>
        && r.Ok? && r.value.fromAccount == from && r.value.toAccount == to
        && to.balance == old(to.balance) + amount
        && transactions.rows == rowsBefore + [r.value.withdrawal] + [r.value.deposit]
        && |blockchain.table.rows| >= 1
        && Recorded(h, r.value.withdrawal, from, WithdrawalType, amount,
                    Some(TransferDescription("Transfer to ", to.code, description)),
                    blocksBefore, blockchain.table.rows[..|blockchain.table.rows| - 1], now)
        && Recorded(h, r.value.deposit, to, DepositType, amount,
                    Some(TransferDescription("Transfer from ", from.code, description)),
                    blockchain.table.rows[..|blockchain.table.rows| - 1], blockchain.table.rows, now)
    {
      ghost var mid := blockchain.table.rows;
      var d := DepositInto(h, to, amount, Some(TransferDescription("Transfer from ", from.code, description)), now);
      // the withdrawal's row and block are untouched by the deposit
      assert Recorded(h, w, from, WithdrawalType, amount, Some(TransferDescription("Transfer to ", to.code, description)),
                      blocksBefore, mid, now);
      RecordedKeepsChain(h, w, from, WithdrawalType, amount, Some(TransferDescription("Transfer to ", to.code, description)),
                         blocksBefore, mid, now);
      if d.Err? {
        assert transactions.rows[|rowsBefore|] == w;
        return Err(d.error);
      }
      r := Ok(TransferResult(w, d.value, from, to));
      RecordedKeepsChain(h, d.value, to, DepositType, amount, Some(TransferDescription("Transfer from ", from.code, description)),
                         mid, blockchain.table.rows, now);
      AppendedOntoLast(h, mid, blockchain.table.rows, blockchain.table.rows[|blockchain.table.rows| - 1],
                       ToBlockchainData(d.value, to.code), d.value.id, DefaultDifficulty, now);
    }

    /**
     * transfer: checks that the source exists, that the destination exists
     * and that they differ, in that order and before any change; then moves
     * the funds.  Accounts other than the two named never change.
     */
    method Transfer(h: Hashing, fromId: int, toId: int, amount: int, description: Option<string>, now: nat)
      returns (r: Result<TransferResult>)
      requires Valid() && Minable(h, DefaultDifficulty)
      modifies (set a | a in accounts.accounts)`balance, transactions, blockchain.table
      ensures Valid()
      ensures old(Ledger()) ==> Ledger()
      ensures ChainValid(h, old(blockchain.table.rows), now) ==> ChainValid(h, blockchain.table.rows, now)
      ensures accounts.FindById(fromId).None? ==> r == Err(SourceAccountNotFound)
      ensures accounts.FindById(fromId).Some? && accounts.FindById(toId).None? ==> r == Err(DestinationAccountNotFound)
      ensures accounts.FindById(fromId).Some? && accounts.FindById(toId).Some? && fromId == toId ==> r == Err(SameAccount)
      ensures r.Err? && r.error in {SourceAccountNotFound, DestinationAccountNotFound, SameAccount} ==>
        && transactions.rows == old(transactions.rows) && blockchain.table.rows == old(blockchain.table.rows)
        && forall a :: a in accounts.accounts ==> a.balance == old(a.balance)
      // both accounts found and different: the outcomes of moving the funds
      ensures accounts.FindById(fromId).Some? && accounts.FindById(toId).Some? && fromId != toId ==>
        && var from, to := accounts.FindById(fromId).value, accounts.FindById(toId).value;
        && (amount <= 0 ==> r == Err(AmountNotPositive))
        && (amount > 0 && !from.active ==> r == Err(AccountInactive))
        && (amount > 0 && from.active && old(from.balance) < amount ==> r == Err(InsufficientBalance))
        && (amount <= 0 || !from.active || old(from.balance) < amount ==>
              transactions.rows == old(transactions.rows) && blockchain.table.rows == old(blockchain.table.rows))
        && (amount > 0 && from.active && old(from.balance) >= amount && !to.active ==>
              && r == Err(AccountInactive)
              && from.balance == old(from.balance) - amount && to.balance == old(to.balance)
              && |transactions.rows| == |old(transactions.rows)| + 1
              && transactions.rows == old(transactions.rows) + [transactions.rows[|old(transactions.rows)|]]
              && Recorded(h, transactions.rows[|old(transactions.rows)|], from, WithdrawalType, amount,
                          Some(TransferDescription("Transfer to ", to.code, description)),
                          old(blockchain.table.rows), blockchain.table.rows, now))
        && (amount > 0 && from.active && old(from.balance) >= amount && to.active ==> r.Ok?)
      ensures r.Ok? ==>
        && accounts.FindById(fromId).Some? && accounts.FindById(toId).Some? && fromId != toId
        && var from, to := accounts.FindById(fromId).value, accounts.FindById(toId).value;
        && r.value.fromAccount == from && r.value.toAccount == to
        && from.balance == old(from.balance) - amount && to.balance == old(to.balance) + amount
        && transactions.rows == old(transactions.rows) + [r.value.withdrawal] + [r.value.deposit]
        && |blockchain.table.rows| >= 1
        && Recorded(h, r.value.withdrawal, from, WithdrawalType, amount,
                    Some(TransferDescription("Transfer to ", to.code, description)),
                    old(blockchain.table.rows), blockchain.table.rows[..|blockchain.table.rows| - 1], now)
        && Recorded(h, r.value.deposit, to, DepositType, amount,
                    Some(TransferDescription("Transfer from ", from.code, description)),
                    blockchain.table.rows[..|blockchain.table.rows| - 1], blockchain.table.rows, now)
      ensures forall a :: a in accounts.accounts && a.id != fromId && a.id != toId ==> a.balance == old(a.balance)
    {
      var fromFound := accounts.FindById(fromId);
      var toFound := accounts.FindById(toId);
      if fromFound.None? {
        return Err(SourceAccountNotFound);
      }
      if toFound.None? {
        return Err(DestinationAccountNotFound);
      }
      if fromId == toId {
        return Err(SameAccount);
      }
      r := MoveFunds(h, fromFound.value, toFound.value, amount, description, now);
    }

    /** getBalance: the account's balance, or "Account not found". */
    function GetBalance(accountId: int): (r: Result<int>)
      reads this, accounts, set a | a in accounts.accounts
      requires accounts.Valid()
      ensures r.Err? <==> accounts.FindById(accountId).None?
      ensures r.Err? ==> r.error == AccountNotFound
      ensures r.Ok? ==> exists a :: a in accounts.accounts && a.id == accountId && r.value == a.balance
    {
      match accounts.FindById(accountId)
      case None => Err(AccountNotFound)
      case Some(a) => Ok(a.balance)
    }

    /**
     * getAccountStats: "Account not found" for an unknown id; otherwise the
     * account's figures, with net change = balance - initial balance, which on
     * a reconciled ledger is total deposits - total withdrawals.
     */
    function GetAccountStats(accountId: int): (r: Result<AccountStats>)
      reads this, accounts, transactions, set a | a in accounts.accounts
      requires accounts.Valid()
      ensures r.Err? <==> accounts.FindById(accountId).None?
      ensures r.Err? ==> r.error == AccountNotFound
      ensures r.Ok? ==> var a := accounts.FindById(accountId).value;
        && r.value.accountCode == a.code && r.value.currentBalance == a.balance
        && r.value.initialBalance == a.initialBalance && r.value.isActive == a.active
        && r.value.netChange == a.balance - a.initialBalance
        && r.value.totalDeposits == transactions.TotalDeposits(accountId)
        && r.value.totalWithdrawals == transactions.TotalWithdrawals(accountId)
      ensures r.Ok? && Ledger() ==> r.value.netChange == r.value.totalDeposits - r.value.totalWithdrawals
    {
      match accounts.FindById(accountId)
      case None => Err(AccountNotFound)
      case Some(a) =>
        var deposits := transactions.TotalDeposits(accountId);
        var withdrawals := transactions.TotalWithdrawals(accountId);
        Ok(AccountStats(a.code, a.balance, a.initialBalance, deposits, withdrawals,
                        a.balance - a.initialBalance, a.active))
    }
  }
}
