# SecroChain ledger core in Dafny

SecroChain is a Laravel banking ledger. Accounts hold a balance. Every deposit
and withdrawal is stored as a transaction row. A snapshot of that transaction
is also written into a *block*. Blocks form a hash chain: each block stores
the SHA-256 digest of its index, timestamp, JSON-encoded data, previous hash
and nonce, and each block is mined (proof of work) until its digest starts
with `difficulty` zeros. The chain can be verified and repaired.

This project models that core:

- the Block model with its hashing, mining and validity check;
- the blockchain service that appends, verifies and repairs the chain;
- the Account and Transaction models;
- the three Eloquent repositories;
- the account and transaction services.

Database tables are sequences held by classes: `BlockTable.rows`,
`TransactionRepository.rows` and `AccountRepository.accounts`. Blocks and
accounts are objects whose fields change in place; transactions are immutable
values.

Modelling conventions:

- **Money** is integer cents (the PHP code uses floats with `decimal:2` casts).
- **SHA-256 and `json_encode`** are the two functions of a `Hashing` value
  passed to every operation that hashes. The properties hold for any such
  functions. SHA-256 maps unboundedly many strings to 64 characters, so it
  cannot be injective. The tamper-evidence lemmas first prove that the two
  strings calculateHash digests differ (`HashInput`). Only for the step to the
  digests do they assume `NoCollision(h, s, t)`, for just those two strings.
  Where payloads differ they assume that `json_encode` tells them apart.
- **The clock** is a parameter `now` (a Unix timestamp). Each operation reads
  it once, so mining and the save see the same second. The behaviour when the
  clock moves between the two is stated separately (see Findings).
- **Mining** terminates only if some nonce qualifies. `Minable(h, d)` states
  this as a precondition, instead of a fuel bound.
- **The blocks table** is kept in index order (`IndexSorted`), which is what
  every `orderBy('index')` query reads. The index column is not unique
  (create_blocks_table.php:24), so equal indices are allowed. They stay in
  insertion order.
- **Transactions and accounts** have ids equal to position + 1. `latest()` is
  the reverse of insertion order, which is newest-first by `created_at` when
  rows were inserted as the clock advanced (`Chronological`).
- **Laravel `limit(n)`** ignores a negative `n` and otherwise caps the result
  (`Sequences.Limit`).
- **Exceptions** become the `Err` side of a `Result`, one `Error` constructor
  per message text (`Results.Message`).

The ledger is meant to be tamper-evident and to move money atomically. In the
places below the code does less, and the model follows the code:

- `isChainValid` never examines the genesis block at position 0, not even its
  own hash (`BlockchainService.GenesisNeverChecked`).
- Deposit, withdrawal and transfer are not atomic and nothing is rolled back.
  When the deposit leg of a transfer fails, the withdrawal leg stays recorded
  with its block (`AccountService.AccountService.MoveFunds`).
- `transfer` checks the source, then the destination, then whether they are
  the same account, and each failure has its own message.
- The blocks table does not make `index` unique.
- Mining has no iteration budget.
- `Account::deposit` and `Account::withdraw` resolve the blockchain service
  with `app(BlockchainService::class)` (Account.php:86 and 129). No singleton
  is bound for it, so each call builds a new service whose difficulty is 2
  (`DefaultDifficulty`). A difficulty set on another instance does not reach
  these blocks. `Accounts.Account.RecordMovement` builds that new service.

## Model

| member | source | states |
|---|---|---|
| `Blocks.Block.constructor` | app/Models/Block.php:15-36 | a new block carries the given index, data, previous hash, hash, nonce and transaction id, with created_at still null |
| `Blocks.Block.Timestamp` | app/Models/Block.php:50 | the hashed timestamp is created_at when the block is saved, otherwise the current time |
| `Blocks.Block.CalculateHash` | app/Models/Block.php:48-59 | the digest is sha256 of index, timestamp, json(data), previous hash and nonce, concatenated in that order |
| `Blocks.SingleFieldChangeChangesHash` | app/Models/Block.php:48-59 | changing exactly one of data (json-distinct), previous hash or nonce changes the string that is hashed; so the digest changes unless sha256 collides on exactly those two strings |
| `Blocks.StaleTimestampInvalidates` | app/Models/Block.php:48-59 | the strings hashed at two different timestamps differ, so the digests differ unless sha256 collides on exactly those two strings |
| `Blocks.Block.IsValid` | app/Models/Block.php:84-87 | true exactly when the stored hash equals sha256 of the block's fields, taken at created_at for a saved block and at the current time otherwise |
| `Blocks.Block.MineBlock` | app/Models/Block.php:67-77 | the nonce only grows and stops at the first qualifying value; the hash then starts with `difficulty` zeros and equals calculateHash (so isValid holds); at difficulty 0 the nonce is unchanged; index, data and previous hash are outside the frame |
| `Blocks.DifficultyZeroMinable` | app/Models/Block.php:69-72 | at difficulty 0 the first nonce tried qualifies, for every hash function |
| `Text.ZeroPrefixIff` | app/Models/Block.php:69-72 | the mining test `substr(hash, 0, d) === str_repeat('0', d)` holds exactly when the hash has at least d characters and the first d are '0' |
| `Text.HasLeadingZeros` | app/Models/Block.php:69-72 | the loop's exit test, true exactly when the hash has at least d characters and the first d are '0' |
| `Blocks.Block.ShortHash` | app/Models/Block.php:95-98 | the first n characters of the hash (the whole hash when shorter), followed by "..." |
| `Text.Substr0` | app/Models/Block.php:95-98 | substr from position 0: a prefix of the string, of the requested length clipped to the string; a negative length drops characters from the end |
| `Blocks.Block.CreateGenesisBlock` | app/Models/Block.php:123-139 | index 0, previous hash "0", nonce 0, genesis payload, hash = calculateHash without mining, saved at `now` and valid |
| `Blocks.GenesisNeedNotMeetDifficulty` | app/Models/Block.php:123-139 | some hash function gives a genesis digest without even one leading zero: genesis is not mined |
| `Blocks.BlockTable.Insert` | app/Services/BlockchainService.php:65 | save stamps created_at with the current time and places the row after every row of no larger index; the table stays index-sorted and duplicate-free and gains exactly that block |
| `Blocks.InsertKeepsSorted` | database/migrations/2025_11_14_164453_create_blocks_table.php:24 | placing a block after the rows with index not larger keeps the index order (indices need not be unique) |
| `Blocks.InsertKeepsDistinct` | app/Repositories/Eloquent/BlockRepository.php:116-119 | inserting a block not yet stored keeps the table duplicate-free and adds exactly that block to its multiset |
| `BlockchainService.BlockchainService.constructor` | app/Services/BlockchainService.php:15 | difficulty starts at `DefaultDifficulty`, 2 |
| `BlockchainService.BlockchainService.GetDifficulty` | app/Services/BlockchainService.php:186-189 | returns the current difficulty |
| `BlockchainService.BlockchainService.SetDifficulty` | app/Services/BlockchainService.php:176-179 | getDifficulty returns the new value afterwards |
| `BlockchainService.BlockchainService.GetLatestBlock` | app/Services/BlockchainService.php:34-37 | null exactly on an empty table, otherwise a stored block of maximal index |
| `BlockchainService.BlockchainService.InitializeBlockchain` | app/Services/BlockchainService.php:22-27 | an empty table gains exactly one valid genesis block; a non-empty table is unchanged |
| `BlockchainService.BlockchainService.AddBlock` | app/Services/BlockchainService.php:45-68 | appends exactly one block (a genesis block first on an empty table) with index latest+1, previous hash = latest hash, the transaction's data and id, mined from nonce 0 to the first qualifying nonce, valid; chain validity and contiguous indices are preserved |
| `BlockchainService.BlockchainService.AppendTransactionBlock` | app/Services/BlockchainService.php:50-65 | on a non-empty table, exactly one new block is saved at the end, indexed latest+1 and linked to the latest hash, carrying the transaction, mined from nonce 0 to the first qualifying nonce and valid at the save time |
| `BlockchainService.AppendKeepsChain` | app/Services/BlockchainService.php:45-68 | appending a valid block linked to the last one keeps the chain valid and the indices contiguous |
| `BlockchainService.AppendedKeepsChain` | app/Services/BlockchainService.php:45-68 | whatever addBlock appended (a block after the latest, or genesis then the block on an empty table) keeps a valid chain valid |
| `BlockchainService.AppendedOntoLast` | app/Services/BlockchainService.php:50-65 | on a non-empty table the rows before addBlock are exactly the rows after it minus the last |
| `BlockchainService.BlockchainService.AddBlockAsWritten` | app/Services/BlockchainService.php:45-68 | the stored hash is taken over the mining second; when the save happens at another second, isValid digests a different string, and the block fails isValid unless sha256 collides on those two strings; with equal seconds it is valid |
| `BlockchainService.BlockchainService.IsChainValid` | app/Services/BlockchainService.php:75-102 | true exactly when every block from position 1 is valid and links to its predecessor's hash; true on an empty table; changes nothing |
| `BlockchainService.GenesisNeverChecked` | app/Services/BlockchainService.php:83-87 | any block with the same hash can replace the genesis block without the check noticing |
| `BlockchainService.TamperedBlockDetected` | app/Services/BlockchainService.php:90-93 | editing one of data, previous hash or nonce of a block after position 0, keeping its stored hash, makes the chain invalid, unless sha256 collides on the old and new hashed strings |
| `BlockchainService.ChangedHashDetected` | app/Services/BlockchainService.php:90-93 | overwriting only the stored hash of a block after position 0 makes the chain invalid |
| `BlockchainService.ResealedBlockBreaksLink` | app/Services/BlockchainService.php:95-99 | re-hashing such an edited block does not help: the next block's link breaks, unless sha256 collides on the old and new hashed strings |
| `BlockchainService.BlockchainService.GetBlockchainStats` | app/Services/BlockchainService.php:109-121 | count; latest index and 8-character short hash, null exactly when empty; chain_valid = isChainValid; difficulty |
| `BlockchainService.BlockchainService.RepairChain` | app/Services/BlockchainService.php:154-168 | afterwards every block is re-linked to its predecessor's new hash, mined to the difficulty and valid, so the chain is valid; the genesis block's previous hash and every created_at are kept; only previous hash, nonce and hash may change |
| `BlockchainService.BlockchainService.RepairAt` | app/Services/BlockchainService.php:158-166 | one iteration of the repair loop: block i is re-linked to block i-1's hash (when i > 0), re-mined and valid, its created_at kept, and every block already repaired stays sealed and linked |
| `BlockchainService.BlockchainService.Remine` | app/Services/BlockchainService.php:164-165 | a block re-mined from nonce 0 has a hash with the required leading zeros that matches its own fields |
| `Accounts.Account.constructor` | app/Models/Account.php:17-37 | an account with the given code, balance, initial balance, owner and active flag |
| `Accounts.Account.GetStatus` | app/Models/Account.php:139-142 | "Active" exactly when active, otherwise "Inactive" |
| `Accounts.Account.Deposit` | app/Models/Account.php:60-89 | rejects amount <= 0, then an inactive account, with nothing changed; otherwise balance + amount, one consistent deposit row with before/after balances, and addBlock's block for that row, mined at difficulty 2, appended (`Recorded`); a valid chain stays valid; keeps balance = initial + deposits - withdrawals |
| `Accounts.Account.Withdraw` | app/Models/Account.php:99-132 | rejects amount <= 0, inactive, balance < amount, in that order, with nothing changed; otherwise balance - amount >= 0, one consistent withdrawal row and its block appended (`Recorded`); a valid chain stays valid; keeps the ledger identity |
| `Accounts.Account.RecordMovement` | app/Models/Account.php:70-88 | the shared tail of deposit and withdraw: balance moved by the amount in the movement's direction, one row with the balances before and after appended, and a newly built service (difficulty 2) appends that row's block (`Recorded`); a valid chain stays valid; the ledger identity kept |
| `Accounts.RecordedKeepsChain` | app/Models/Account.php:86 | a block recorded for a movement keeps a valid chain valid |
| `Accounts.RecordKeepsIdentity` | app/Models/Account.php:70-83 | a balance moved by a row's signed amount still equals the initial balance plus deposits minus withdrawals once the row is recorded |
| `Accounts.OtherAccountUnaffected` | app/Repositories/Eloquent/TransactionRepository.php:168-188 | a row of another account leaves this account's deposit and withdrawal sums, and so its ledger identity, unchanged |
| `Transactions.IsDeposit` | app/Models/Transaction.php:88-91 | true exactly for type "deposit", and then the row is no withdrawal |
| `Transactions.IsWithdrawal` | app/Models/Transaction.php:88-101 | true exactly for type "withdrawal", and never together with isDeposit |
| `Transactions.FormattedType` | app/Models/Transaction.php:57-60 | only the first character is upper-cased: "Deposit" and "Withdrawal" for the two types |
| `Text.UcFirst` | app/Models/Transaction.php:57-60 | same length; first character upper-cased, the rest unchanged |
| `Transactions.FormattedAmount` | app/Models/Transaction.php:67-71 | a sign, then " $ ", then the number; the sign is '+' exactly for deposits |
| `Transactions.FormattedAmountReadsBack` | app/Models/Transaction.php:67-71 | begins with "+ $ " for deposits and "- $ " for any other type; the remainder reads back as the amount in cents |
| `Text.FormatCents` | app/Models/Transaction.php:70 | number_format with two decimals: a '.' and exactly two digits at the end |
| `Text.FormatCentsRoundTrip` | app/Models/Transaction.php:70 | the whole part is grouped by commas in threes and the text parses back to the same cents |
| `Text.UnsignedAmountRoundTrip` | app/Models/Transaction.php:70 | a non-negative amount renders with well-formed groups and a leading digit, and parses back |
| `Text.GroupThousandsShape` | app/Models/Transaction.php:70 | thousands grouping only inserts commas, in the right places |
| `Transactions.ToBlockchainData` | app/Models/Transaction.php:108-120 | the block payload carries the transaction's id, type, amount, balances, description and timestamp, plus the account code |
| `Sequences.Limit` | app/Repositories/Eloquent/TransactionRepository.php:61 | a prefix of the rows: min(n, count) of them, all of them for a negative n |
| `Sequences.Reverse` | app/Repositories/Eloquent/TransactionRepository.php:137 | the rows in the opposite order |
| `TransactionRepository.Where` | app/Repositories/Eloquent/TransactionRepository.php:58 | exactly the rows satisfying the condition |
| `TransactionRepository.WhereKeepsIds` | app/Repositories/Eloquent/TransactionRepository.php:58 | filtering rows with strictly increasing ids keeps the ids strictly increasing |
| `TransactionRepository.LimitedReverseIds` | app/Repositories/Eloquent/TransactionRepository.php:60-61 | the limited, reversed rows of a strictly increasing-id list have strictly decreasing ids, so no row appears twice |
| `TransactionRepository.OfAccount` | app/Repositories/Eloquent/TransactionRepository.php:58 | the `where('account_id', id)` filter: true exactly for rows of that account |
| `TransactionRepository.OfType` | app/Repositories/Eloquent/TransactionRepository.php:94 | the `where('type', type)` filter: true exactly for rows of that type |
| `TransactionRepository.WhereKeepsOrder` | app/Repositories/Eloquent/TransactionRepository.php:55-63 | filtering a chronological table keeps it chronological |
| `TransactionRepository.NewestMatches` | app/Repositories/Eloquent/TransactionRepository.php:55-63 | on a chronological table, the limited reversed matches are newest first and no left-out match is newer |
| `TransactionRepository.LimitedOnlyMatches` | app/Repositories/Eloquent/TransactionRepository.php:57-62 | the limited, reversed matches contain only rows that satisfy the filter |
| `TransactionRepository.UnlimitedAllMatches` | app/Repositories/Eloquent/TransactionRepository.php:57-62 | without a limit that bites, every matching row is returned |
| `TransactionRepository.LatestWhere` | app/Repositories/Eloquent/TransactionRepository.php:55-63 | matching rows only, exactly min(limit, matches) of them, all of them without a cap; on a chronological table newest first, the left-out ones no newer; with increasing ids, strictly decreasing ids (no row twice) |
| `TransactionRepository.TransactionRepository.Create` | app/Repositories/Eloquent/TransactionRepository.php:107-110 | appends exactly one row with the next id and the current time |
| `TransactionRepository.TransactionRepository.FindById` | app/Repositories/Eloquent/TransactionRepository.php:43-46 | the stored row with that id, or null when there is none |
| `TransactionRepository.TransactionRepository.FindByAccountId` | app/Repositories/Eloquent/TransactionRepository.php:55-63 | rows of that account only, exactly min(limit, their count) of them (all of them for a negative limit); strictly decreasing ids, so no row twice; on a chronological table newest first, the left-out ones no newer |
| `TransactionRepository.TransactionRepository.FindByType` | app/Repositories/Eloquent/TransactionRepository.php:91-99 | the same for one type: exactly min(limit, matches) rows of that type, strictly decreasing ids, newest first on a chronological table |
| `TransactionRepository.TransactionRepository.GetRecent` | app/Repositories/Eloquent/TransactionRepository.php:132-139 | the min(limit, count) last-inserted rows, last inserted first; newest first on a chronological table |
| `TransactionRepository.TransactionRepository.FindByDateRange` | app/Repositories/Eloquent/TransactionRepository.php:149-160 | exactly the rows with start <= created_at <= end, restricted to the account only when the id is given and non-zero; strictly decreasing ids; newest first on a chronological table |
| `TransactionRepository.SumAmounts` | app/Repositories/Eloquent/TransactionRepository.php:168-174 | 0 when no row matches; non-negative when every matching amount is |
| `TransactionRepository.SumAmountsAppend` | app/Repositories/Eloquent/TransactionRepository.php:168-188 | a new row adds its amount to the one sum it matches and leaves the others unchanged |
| `TransactionRepository.SumAmountsOverMatches` | app/Repositories/Eloquent/TransactionRepository.php:168-174 | the sum over the table equals the sum over its matching rows |
| `TransactionRepository.TransactionRepository.TotalDeposits` | app/Repositories/Eloquent/TransactionRepository.php:168-174 | the account's deposit sum; 0 with no deposits |
| `TransactionRepository.TransactionRepository.TotalWithdrawals` | app/Repositories/Eloquent/TransactionRepository.php:182-188 | the account's withdrawal sum; 0 with no withdrawals |
| `BlockRepository.IndexOfHash` | app/Repositories/Eloquent/BlockRepository.php:53-56 | the first position with that hash, or none when no block has it |
| `BlockRepository.IndexOfTransaction` | app/Repositories/Eloquent/BlockRepository.php:64-70 | the first position recording that transaction, or none |
| `BlockRepository.BlockRepository.All` | app/Repositories/Eloquent/BlockRepository.php:31-34 | every stored block, in ascending index order |
| `BlockRepository.BlockRepository.GetAllOrdered` | app/Repositories/Eloquent/BlockRepository.php:102-108 | the same blocks, ascending by index |
| `BlockRepository.BlockRepository.FindByHash` | app/Repositories/Eloquent/BlockRepository.php:53-56 | a stored block with that hash, or null exactly when none has it |
| `BlockRepository.BlockRepository.FindByTransactionId` | app/Repositories/Eloquent/BlockRepository.php:64-70 | a stored block recording that transaction, or null exactly when none does |
| `BlockRepository.BlockRepository.GetLatest` | app/Repositories/Eloquent/BlockRepository.php:77-80 | null exactly on an empty table, otherwise a block of maximal index |
| `BlockRepository.BlockRepository.GetRecent` | app/Repositories/Eloquent/BlockRepository.php:88-95 | exactly min(limit, count) stored blocks: the last rows read backwards, by descending index, no block twice; every block left out has an index no higher |
| `BlockRepository.HighestFirst` | app/Repositories/Eloquent/BlockRepository.php:90-94 | the last rows of an index-sorted, duplicate-free table read backwards come by descending index, no block twice, are stored blocks, and every block left out has an index no higher |
| `BlockRepository.BlockRepository.Create` | app/Repositories/Eloquent/BlockRepository.php:116-119 | saves exactly one block with the given fields, stamped now; the count grows by one |
| `BlockRepository.BlockRepository.Count` | app/Repositories/Eloquent/BlockRepository.php:126-129 | the number of stored blocks |
| `AccountRepository.AccountCode` | app/Repositories/Eloquent/AccountRepository.php:186 | "ACC-" followed by at least eight characters |
| `AccountRepository.AccountCodeRoundTrip` | app/Repositories/Eloquent/AccountRepository.php:186 | "ACC-" then at least 8 digits; exactly 12 characters iff the number is below 10^8; the digits parse back to the number |
| `AccountRepository.FirstAccountCode` | app/Repositories/Eloquent/AccountRepository.php:181-187 | the first code is "ACC-00000001" |
| `AccountRepository.AccountCodeInjective` | app/Repositories/Eloquent/AccountRepository.php:181-187 | different numbers give different codes |
| `Text.NatToStringLength` | app/Repositories/Eloquent/AccountRepository.php:186 | a number has at most k digits exactly when it is below 10^k |
| `Text.PadLeft` | app/Repositories/Eloquent/AccountRepository.php:186 | str_pad on the left: never truncates, the original string at the end, the pad character before it |
| `Text.ParseIgnoresLeadingZeros` | app/Repositories/Eloquent/AccountRepository.php:186 | leading zeros do not change the parsed value |
| `Text.NatToString` | app/Models/Block.php:52-56 | integer to string: at least one decimal digit, no leading zero |
| `Text.ParseNatToString` | app/Models/Block.php:52-56 | the decimal rendering parses back to the number |
| `Text.NatToStringInjective` | app/Models/Block.php:52-56 | different numbers render differently |
| `Text.Repeat` | app/Models/Block.php:69 | str_repeat: k copies of the character |
| `AccountRepository.AccountRepository.GenerateUniqueCode` | app/Repositories/Eloquent/AccountRepository.php:181-187 | "ACC-" and latest id + 1 zero-padded ("ACC-00000001" on an empty table), different from the code built from every existing id (`CodeUnused`); stored codes are compared in `GeneratedCodeNotStored` |
| `AccountRepository.AccountRepository.GeneratedCodeNotStored` | app/Repositories/Eloquent/AccountRepository.php:176-187 | the generated code is no stored account's code, provided every stored code was built from its account's id (`CodesFromIds`) |
| `AccountRepository.AccountRepository.GivenCodeCanCollide` | app/Repositories/Eloquent/AccountRepository.php:89-94 | when account 1 was created with the explicit code "ACC-00000002", the next generated code equals that stored code |
| `AccountRepository.NextCodeUnused` | app/Repositories/Eloquent/AccountRepository.php:181-187 | when ids run 1, 2, ..., the code built from the next id is "ACC-00000001" on an empty table, reads back as that id, and differs from the code built from every existing id |
| `AccountRepository.AccountRepository.FindById` | app/Repositories/Eloquent/AccountRepository.php:42-45 | the account with that id, or null when there is none |
| `AccountRepository.OwnedBy` | app/Repositories/Eloquent/AccountRepository.php:64-81 | exactly the accounts of that user (active ones only when asked) |
| `AccountRepository.OwnedByKeepsIds` | app/Repositories/Eloquent/AccountRepository.php:64-81 | filtering a table with ascending ids keeps the ids ascending, so each account comes once and in table order |
| `AccountRepository.AccountRepository.FindByUserId` | app/Repositories/Eloquent/AccountRepository.php:64-67 | exactly the user's accounts, each once, by ascending id (table order) |
| `AccountRepository.AccountRepository.FindActiveByUserId` | app/Repositories/Eloquent/AccountRepository.php:75-81 | exactly the user's active accounts, each once, by ascending id (table order) |
| `AccountRepository.SumBalances` | app/Repositories/Eloquent/AccountRepository.php:169-174 | 0 for a user without accounts; non-negative when all their balances are; its value is fixed by `SumBalancesAppend` and `SumBalancesIsOwnedTotal` |
| `AccountRepository.SumBalancesAppend` | app/Repositories/Eloquent/AccountRepository.php:169-174 | one more account adds its balance to its own user's sum and leaves every other user's sum unchanged |
| `AccountRepository.SumBalancesIsOwnedTotal` | app/Repositories/Eloquent/AccountRepository.php:169-174 | the user's sum equals the plain total of the balances of exactly the accounts `where('user_id', id)` selects |
| `AccountRepository.SumBalancesOverOwned` | app/Repositories/Eloquent/AccountRepository.php:169-174 | the sum equals the sum over exactly the user's accounts |
| `AccountRepository.AccountRepository.GetTotalBalanceByUserId` | app/Repositories/Eloquent/AccountRepository.php:169-174 | the total of the balances of the accounts findByUserId returns; 0 without accounts, non-negative when all of them are |
| `AccountRepository.AccountRepository.Create` | app/Repositories/Eloquent/AccountRepository.php:89-102 | a code is generated only when none is given; the initial balance is copied from the balance only when only the balance is given; missing columns take the defaults 0, 0, active |
| `AccountRepository.AccountRepository.Update` | app/Repositories/Eloquent/AccountRepository.php:111-122 | "Account not found" exactly for an unknown id, with nothing changed; otherwise exactly the given fields are set and no other account changes |
| `AccountRepository.AccountRepository.Activate` | app/Repositories/Eloquent/AccountRepository.php:147-150 | sets active and changes no other field or account |
| `AccountRepository.AccountRepository.Deactivate` | app/Repositories/Eloquent/AccountRepository.php:158-161 | clears active and changes no other field or account |
| `AccountService.TransferDescription` | app/Services/AccountService.php:166 | "Transfer to/from" and the code, with ": description" appended exactly when the description is truthy in PHP (not null, "" or "0") |
| `AccountService.RecordKeepsLedger` | app/Services/AccountService.php:165-171 | recording a row for one account keeps every account of the table reconciled |
| `AccountService.AccountService.CreateAccount` | app/Services/AccountService.php:52-63 | a new active account with the generated code, balance = initial balance = the argument; the ledger stays reconciled |
| `AccountService.AccountService.DepositInto` | app/Models/Account.php:60-89 | a stored account's deposit: the refusals in order with nothing changed; otherwise balance + amount, one row and its block appended (`Recorded`); stores well formed, ledger reconciled, a valid chain stays valid |
| `AccountService.AccountService.WithdrawFrom` | app/Models/Account.php:99-132 | a stored account's withdrawal: the refusals in order with nothing changed; otherwise balance - amount, one row and its block appended (`Recorded`); stores well formed, ledger reconciled, a valid chain stays valid |
| `AccountService.AccountService.Deposit` | app/Services/AccountService.php:107-116 | "Account not found" with nothing changed for an unknown id; for a found account, amount <= 0 then inactive are refused with nothing changed and otherwise it succeeds: balance + amount, one row, its block (`Recorded`); other balances unchanged; a valid chain stays valid |
| `AccountService.AccountService.Withdraw` | app/Services/AccountService.php:127-136 | the same for a withdrawal, with "Insufficient balance" when the balance is below the amount, and success exactly otherwise |
| `AccountService.AccountService.MoveFunds` | app/Services/AccountService.php:165-178 | withdrawal then deposit; a refused withdrawal changes nothing; an inactive destination leaves the source debited with exactly one withdrawal row of the amount, described "Transfer to" the destination, and its block; success moves the amount, keeps the sum of the two balances and records both rows, each with its block in order; a valid chain stays valid |
| `AccountService.AccountService.DepositLeg` | app/Services/AccountService.php:169-178 | the second leg of a transfer after the recorded withdrawal: an inactive destination leaves only that withdrawal and its block; otherwise the deposit row and its block follow it |
| `AccountService.AccountService.Transfer` | app/Services/AccountService.php:148-179 | source missing, destination missing, same account, in that order, each before any change; with both found and different, every outcome of MoveFunds (which refusal, what is recorded), success exactly when the amount is positive, the source active with enough balance and the destination active; on success both rows and both blocks; other accounts never change; a valid chain stays valid |
| `AccountService.AccountService.GetBalance` | app/Services/AccountService.php:188-197 | the account's balance, or "Account not found" exactly for an unknown id |
| `AccountService.AccountService.GetAccountStats` | app/Services/AccountService.php:251-271 | "Account not found" exactly for an unknown id; net change = balance - initial balance, which on a reconciled ledger equals deposits - withdrawals |
| `TransactionService.CountOfType` | app/Services/TransactionService.php:168-169 | at most the list length; 0 exactly when no row has that type |
| `TransactionService.CountsWithinList` | app/Services/TransactionService.php:162-170 | deposit count + withdrawal count never exceed the list length |
| `TransactionService.TransactionService.GetTransactionWithBlock` | app/Services/TransactionService.php:135-150 | null exactly for an unknown transaction; the block is null exactly when no block records it; verified exactly when the block exists and is valid |
| `TransactionService.TransactionService.GetAccountTransactionStats` | app/Services/TransactionService.php:158-172 | net = deposits - withdrawals over all rows; total = the length of findByAccountId(id, 50), and the deposit and withdrawal counts are the rows of each type in that list, so deposit + withdrawal counts <= total <= 50 |

## Left out

- HTTP controllers, routes, Blade views, seeders and the User model: request plumbing, UI and sample data, not ledger logic.
- SHA-256 and json_encode are not computed. They are the parameters of `Hashing`. The tamper lemmas prove that the hashed strings differ and assume no sha256 collision only for those two strings (`NoCollision`).
- Mining that never finds a nonce is not modelled. Mining requires `Minable(h, difficulty)`; the PHP loop would run forever otherwise.
- The clock ticking inside the mining loop is not modelled. Each operation uses one `now`; `AddBlockAsWritten` covers the tick between mining and save.
- A negative difficulty is not modelled. Difficulty is a `nat`; in PHP `str_repeat` would throw.
- Floating-point money: amounts are integer cents and `number_format` is modelled over cents.
- Column defaults come from a migration that is not part of this model. The model takes balance 0, initial balance 0 and active true.
- `AccountRepository.AccountRepository.GenerateUniqueCode`: uniqueness is promised only against the codes built from existing ids. generateUniqueCode reads the latest id and never looks at stored codes, so a code given explicitly to create or update can equal a later generated one (`GivenCodeCanCollide`). Whether the database rejects that duplicate depends on the accounts migration, which is not part of this model.
- Concurrency and database transactions: the code takes no locks and opens no transaction. The model is sequential, and a transfer is two separate steps.
- `BlockRepository.BlockRepository.FindByHash`, `BlockRepository.BlockRepository.FindByTransactionId`: the database's `first()` order is taken to be index order. It is the insertion order for tables built by `addBlock`.
- `TransactionRepository.TransactionRepository.FindByDateRange`: the bounds are whole-second instants compared with created_at. The PHP method takes date strings and lets the database compare them, so a date-only end such as '2025-01-31' stops at that day's midnight and leaves out its later rows; that string-to-instant conversion is not modelled.
- `TransactionRepository.TransactionRepository.FindByAccountId`, `TransactionRepository.TransactionRepository.FindByType`, `TransactionRepository.TransactionRepository.GetRecent`: rows with equal created_at are returned newest-inserted first. The database leaves ties unordered.
- BlockchainService `getRecentBlocks` and `findBlockByTransaction` repeat the repository queries (`BlockRepository.BlockRepository.GetRecent`, `BlockRepository.BlockRepository.FindByTransactionId`). Eager loading of relations is not modelled.
- BlockRepository `findById` and `getWithTransactions`, AccountRepository `all`, `findByCode` and `delete`, TransactionRepository `all`, `findByUserId` and `paginate`: plain lookups and pagination outside the ledger invariants.
- Account `getTotalDeposits`, `getTotalWithdrawals`, `getRecentTransactions`; Transaction `getFormattedDate`; Block `getBlockInfo`: the sums equal the repository sums modelled above, and the rest is date formatting.
- AccountService and TransactionService methods that only forward to a repository call are not modelled separately: `getUserAccounts`, `getUserActiveAccounts`, `getAccountByCode`, `getTotalUserBalance`, `activateAccount`, `deactivateAccount`, `getAccountTransactions`, and the TransactionService finders.

## Findings

| source | as written | input that shows it | evidently intended | confidence | as-written member | corrected member |
|---|---|---|---|---|---|---|
| app/Models/Block.php:50 with app/Services/BlockchainService.php:61-65 | addBlock mines while created_at is null, so every digest uses the clock at mining time. `save()` then stamps created_at with the clock at save time, and isValid recomputes with that. | mining finishes at second 5 and the save happens at second 6: the stored hash was taken over timestamp 5, isValid recomputes over 6; the two hashed strings differ, so the digests differ unless sha256 collides on exactly those two strings | the block's hash covers the timestamp it is saved with, so a freshly added block passes isValid | not executed | `BlockchainService.BlockchainService.AddBlockAsWritten` (with `Blocks.StaleTimestampInvalidates`) | `BlockchainService.BlockchainService.AddBlock` |
