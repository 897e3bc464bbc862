/**
 * The transactions table and the queries the repository runs over it.
 * Rows are kept in insertion order, row i carrying id i + 1; `latest()`
 * (created_at descending) is modelled as the reverse of insertion order,
 * which is a created_at-descending order whenever rows were inserted as the
 * clock advanced (`Chronological`).
 */
module TransactionRepository {
  import opened Results
  import opened Transactions
  import opened Sequences

  /** The rows satisfying p, in table order (a `where` clause). */
  function Where(s: seq<Transaction>, p: Transaction -> bool): (r: seq<Transaction>)
    ensures |r| <= |s|
    ensures forall t :: t in r ==> t in s && p(t)
    ensures forall t :: t in s && p(t) ==> t in r
  {
    if s == [] then [] else Where(s[..|s| - 1], p) + (if p(s[|s| - 1]) then [s[|s| - 1]] else [])
  }

  /** created_at never decreases along the table. */
  predicate Chronological(s: seq<Transaction>)
  {
    forall i, j :: 0 <= i < j < |s| ==> s[i].createdAt <= s[j].createdAt
  }

  predicate NewestFirst(s: seq<Transaction>)
  {
    forall i, j :: 0 <= i < j < |s| ==> s[i].createdAt >= s[j].createdAt
  }

  /** Ids strictly increase along the table (so no row appears twice). */
  predicate IdsIncreasing(s: seq<Transaction>)
  {
    forall i, j :: 0 <= i < j < |s| ==> s[i].id < s[j].id
  }

  /** Ids strictly decrease along a result (newest row first, none repeated). */
  predicate IdsDecreasing(s: seq<Transaction>)
  {
    forall i, j :: 0 <= i < j < |s| ==> s[i].id > s[j].id
  }

  lemma {:induction false} WhereKeepsIds(s: seq<Transaction>, p: Transaction -> bool)
    requires IdsIncreasing(s)
    ensures IdsIncreasing(Where(s, p))
  {
    if s != [] {
      var init := s[..|s| - 1];
      WhereKeepsIds(init, p);
      var w := Where(init, p);
      forall t | t in w
        ensures t.id < s[|s| - 1].id
      {
        var k :| 0 <= k < |init| && init[k] == t;
        assert s[k] == t;
      }
    }
  }

  /** Reversing a table whose ids increase, and keeping a prefix, gives ids that decrease. */
  lemma LimitedReverseIds(w: seq<Transaction>, limit: int)
    requires IdsIncreasing(w)
    ensures IdsDecreasing(Limit(Reverse(w), limit))
  {
    var r := Limit(Reverse(w), limit);
    assert forall i :: 0 <= i < |r| ==> r[i] == w[|w| - 1 - i];
  }

  lemma {:induction false} WhereKeepsOrder(s: seq<Transaction>, p: Transaction -> bool)
    requires Chronological(s)
    ensures Chronological(Where(s, p))
  {
    if s != [] {
      var init := s[..|s| - 1];
      WhereKeepsOrder(init, p);
      var w := Where(init, p);
      forall t | t in w
        ensures t.createdAt <= s[|s| - 1].createdAt
      {
        var k :| 0 <= k < |init| && init[k] == t;
        assert s[k] == t;
      }
    }
  }

  /**
   * On a chronological table the limited, reversed matches are newest first,
   * and every matching row they leave out is no newer than any of them.
   */
  lemma {:induction false} NewestMatches(s: seq<Transaction>, p: Transaction -> bool, limit: int)
    requires Chronological(s)
    ensures NewestFirst(Limit(Reverse(Where(s, p)), limit))
    ensures forall t, i :: t in s && p(t) && t !in Limit(Reverse(Where(s, p)), limit)
                          && 0 <= i < |Limit(Reverse(Where(s, p)), limit)|
                          ==> t.createdAt <= Limit(Reverse(Where(s, p)), limit)[i].createdAt
  {
    var w := Where(s, p);
    var r := Limit(Reverse(w), limit);
    WhereKeepsOrder(s, p);
    assert forall i :: 0 <= i < |r| ==> r[i] == w[|w| - 1 - i];
    forall k | |w| - |r| <= k < |w|
      ensures w[k] in r
    {
      assert r[|w| - 1 - k] == w[k];
    }
    forall t, i | t in s && p(t) && t !in r && 0 <= i < |r|
      ensures t.createdAt <= r[i].createdAt
    {
      var k :| 0 <= k < |w| && w[k] == t;
      assert k < |w| - |r|;
    }
  }

  /** The limited, reversed matches hold only matches. */
  lemma LimitedOnlyMatches(s: seq<Transaction>, p: Transaction -> bool, limit: int)
    ensures forall t :: t in Limit(Reverse(Where(s, p)), limit) ==> t in s && p(t)
  {
    var w := Where(s, p);
    var r := Limit(Reverse(w), limit);
    forall k | 0 <= k < |r|
      ensures r[k] in w
    {
      assert r[k] == Reverse(w)[k] == w[|w| - 1 - k];
    }
  }

  /** When the limit does not bite, the reversed matches hold every match. */
  lemma UnlimitedAllMatches(s: seq<Transaction>, p: Transaction -> bool, limit: int)
    requires limit < 0 || limit >= |Where(s, p)|
    ensures forall t :: t in s && p(t) ==> t in Limit(Reverse(Where(s, p)), limit)
  {
    var w := Where(s, p);
    var r := Limit(Reverse(w), limit);
    assert r == Reverse(w);
    forall t | t in w
      ensures t in r
    {
      var k :| 0 <= k < |w| && w[k] == t;
      assert r[|w| - 1 - k] == t;
    }
  }

  /**
   * A `where(...)->latest()->limit(n)` query: the matching rows, newest first,
   * at most n of them; newest first by created_at on a chronological table.
   */
  function LatestWhere(s: seq<Transaction>, p: Transaction -> bool, limit: int): (r: seq<Transaction>)
    ensures forall t :: t in r ==> t in s && p(t)
    ensures |r| == if 0 <= limit < |Where(s, p)| then limit else |Where(s, p)|
    ensures limit < 0 || limit >= |Where(s, p)| ==> forall t :: t in s && p(t) ==> t in r
    ensures Chronological(s) ==> NewestFirst(r)
    ensures Chronological(s) ==>
      forall t, i :: t in s && p(t) && t !in r && 0 <= i < |r| ==> t.createdAt <= r[i].createdAt
    ensures IdsIncreasing(s) ==> IdsDecreasing(r)
  {
    LimitedOnlyMatches(s, p, limit);
    assert IdsIncreasing(s) ==> IdsDecreasing(Limit(Reverse(Where(s, p)), limit)) by {
      if IdsIncreasing(s) {
        WhereKeepsIds(s, p);
        LimitedReverseIds(Where(s, p), limit);
      }
    }
    assert limit < 0 || limit >= |Where(s, p)| ==>
      forall t :: t in s && p(t) ==> t in Limit(Reverse(Where(s, p)), limit) by {
      if limit < 0 || limit >= |Where(s, p)| {
        UnlimitedAllMatches(s, p, limit);
      }
    }
    assert Chronological(s) ==> NewestFirst(Limit(Reverse(Where(s, p)), limit)) by {
      if Chronological(s) {
        NewestMatches(s, p, limit);
      }
    }
    assert Chronological(s) ==>
      forall t, i :: t in s && p(t) && t !in Limit(Reverse(Where(s, p)), limit)
                     && 0 <= i < |Limit(Reverse(Where(s, p)), limit)|
                     ==> t.createdAt <= Limit(Reverse(Where(s, p)), limit)[i].createdAt by {
      if Chronological(s) {
        NewestMatches(s, p, limit);
      }
    }
    Limit(Reverse(Where(s, p)), limit)
  }

  /** The sum of amounts over the rows of one account with one type (a `where(...)->sum('amount')`). */
  function SumAmounts(s: seq<Transaction>, accountId: int, txType: string): (r: int)
    ensures (forall t :: t in s ==> !(t.accountId == accountId && t.txType == txType)) ==> r == 0
    ensures (forall t :: t in s && t.accountId == accountId && t.txType == txType ==> t.amount >= 0) ==> r >= 0
  {
    if s == [] then 0
    else SumAmounts(s[..|s| - 1], accountId, txType)
         + (if s[|s| - 1].accountId == accountId && s[|s| - 1].txType == txType then s[|s| - 1].amount else 0)
  }

  /** Adding one row adds its amount to the sum it matches and leaves every other sum alone. */
  lemma SumAmountsAppend(s: seq<Transaction>, t: Transaction, accountId: int, txType: string)
    ensures SumAmounts(s + [t], accountId, txType)
            == SumAmounts(s, accountId, txType) + (if t.accountId == accountId && t.txType == txType then t.amount else 0)
  {
    assert (s + [t])[..|s|] == s;
  }

  /** Only the matching rows contribute: the sum over a table equals the sum over its matching rows. */
  lemma {:induction false} SumAmountsOverMatches(s: seq<Transaction>, accountId: int, txType: string)
    ensures SumAmounts(s, accountId, txType)
            == SumAmounts(Where(s, (t: Transaction) => t.accountId == accountId && t.txType == txType), accountId, txType)
  {
    if s != [] {
      var p := (t: Transaction) => t.accountId == accountId && t.txType == txType;
      var init, last := s[..|s| - 1], s[|s| - 1];
      SumAmountsOverMatches(init, accountId, txType);
      var w := Where(init, p);
      if p(last) {
        assert (w + [last])[..|w + [last]| - 1] == w;
      } else {
        assert w + [] == w;
      }
    }
  }

  /** The `where('account_id', id)` filter. */
  function OfAccount(accountId: int): (p: Transaction -> bool)
    ensures forall t :: p(t) <==> t.accountId == accountId
  {
    (t: Transaction) => t.accountId == accountId
  }

  /** The `where('type', type)` filter. */
  function OfType(txType: string): (p: Transaction -> bool)
    ensures forall t :: p(t) <==> t.txType == txType
  {
    (t: Transaction) => t.txType == txType
  }

  class TransactionRepository {
    var rows: seq<Transaction>

    ghost predicate Valid()
      reads this
    {
      forall i :: 0 <= i < |rows| ==> rows[i].id == i + 1
    }

    constructor ()
      ensures Valid() && rows == []
    {
      rows := [];
    }

    /** create: inserts a row with the next id, stamped with the current time. */
    method Create(accountId: nat, txType: string, amount: int, description: Option<string>,
                  balanceBefore: int, balanceAfter: int, now: nat) returns (t: Transaction)
      requires Valid()
      modifies this
      ensures Valid()
      ensures t == Transaction(|old(rows)| + 1, accountId, txType, amount, description,
                               balanceBefore, balanceAfter, now)
      ensures rows == old(rows) + [t]
    {
      t := Transaction(|rows| + 1, accountId, txType, amount, description, balanceBefore, balanceAfter, now);
      rows := rows + [t];
    }

    /** findById: the row with that id, or null. */
    function FindById(id: int): (r: Option<Transaction>)
      reads this
      requires Valid()
      ensures r.Some? ==> r.value in rows && r.value.id == id
      ensures r.None? ==> forall t :: t in rows ==> t.id != id
    {
      if 1 <= id <= |rows| then Some(rows[id - 1]) else None
    }

    /** findByAccountId: at most `limit` rows of that account, newest first. */
    function FindByAccountId(accountId: int, limit: int): (r: seq<Transaction>)
      reads this
      ensures forall t :: t in r ==> t in rows && t.accountId == accountId
      ensures |r| == if 0 <= limit < |Where(rows, OfAccount(accountId))| then limit else |Where(rows, OfAccount(accountId))|
      ensures |r| == limit || forall t :: t in rows && t.accountId == accountId ==> t in r
      ensures Valid() ==> IdsDecreasing(r)
      ensures Chronological(rows) ==> NewestFirst(r)
      ensures Chronological(rows) ==> forall t, i :: t in rows && t.accountId == accountId && t !in r && 0 <= i < |r|
                                                     ==> t.createdAt <= r[i].createdAt
    {
      LatestWhere(rows, OfAccount(accountId), limit)
    }

    /** findByType: at most `limit` rows of that type, newest first. */
    function FindByType(txType: string, limit: int): (r: seq<Transaction>)
      reads this
      ensures forall t :: t in r ==> t in rows && t.txType == txType
      ensures |r| == if 0 <= limit < |Where(rows, OfType(txType))| then limit else |Where(rows, OfType(txType))|
      ensures |r| == limit || forall t :: t in rows && t.txType == txType ==> t in r
      ensures Valid() ==> IdsDecreasing(r)
      ensures Chronological(rows) ==> NewestFirst(r)
      ensures Chronological(rows) ==> forall t, i :: t in rows && t.txType == txType && t !in r && 0 <= i < |r|
                                                     ==> t.createdAt <= r[i].createdAt
    {
      LatestWhere(rows, OfType(txType), limit)
    }

    /** getRecent: the min(limit, count) newest rows. */
    function GetRecent(limit: int): (r: seq<Transaction>)
      reads this
      ensures |r| == if 0 <= limit < |rows| then limit else |rows|
      ensures forall i :: 0 <= i < |r| ==> r[i] == rows[|rows| - 1 - i]
      ensures Chronological(rows) ==> NewestFirst(r)
    {
      Limit(Reverse(rows), limit)
    }

    /**
     * findByDateRange: rows with start <= created_at <= end, newest first;
     * restricted to one account only when the account id is truthy (given and non-zero).
     */
    function FindByDateRange(start: nat, end: nat, accountId: Option<int>): (r: seq<Transaction>)
      reads this
      ensures forall t :: t in r ==> t in rows && start <= t.createdAt <= end
      ensures accountId.Some? && accountId.value != 0 ==> forall t :: t in r ==> t.accountId == accountId.value
      ensures forall t :: (t in rows && start <= t.createdAt <= end
                            && (accountId.None? || accountId.value == 0 || t.accountId == accountId.value)) ==> t in r
      ensures Chronological(rows) ==> NewestFirst(r)
      ensures Valid() ==> IdsDecreasing(r)
    {
      if accountId.Some? && accountId.value != 0 then
        LatestWhere(rows, (t: Transaction) => start <= t.createdAt <= end && t.accountId == accountId.value, -1)
      else
        LatestWhere(rows, (t: Transaction) => start <= t.createdAt <= end, -1)
    }

    /** getTotalDepositsByAccountId: the sum of that account's deposit amounts, 0 when there are none. */
    function TotalDeposits(accountId: int): (r: int)
      reads this
      ensures (forall t :: t in rows ==> !(t.accountId == accountId && IsDeposit(t))) ==> r == 0
      ensures (forall t :: t in rows && t.accountId == accountId && IsDeposit(t) ==> t.amount >= 0) ==> r >= 0
    {
      SumAmounts(rows, accountId, DepositType)
    }

    /** getTotalWithdrawalsByAccountId: the sum of that account's withdrawal amounts. */
    function TotalWithdrawals(accountId: int): (r: int)
      reads this
      ensures (forall t :: t in rows ==> !(t.accountId == accountId && IsWithdrawal(t))) ==> r == 0
      ensures (forall t :: t in rows && t.accountId == accountId && IsWithdrawal(t) ==> t.amount >= 0) ==> r >= 0
    {
      SumAmounts(rows, accountId, WithdrawalType)
    }
  }
}
