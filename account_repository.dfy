/**
 * The account repository: the accounts table (row i has id i + 1), its
 * finders and sums, code generation, and the writes that create and update
 * accounts.
 */
module AccountRepository {
  import opened Results
  import opened Text
  import opened Accounts

  const CodePrefix: string := "ACC-"

  /** An account code: "ACC-" and the number left-padded with zeros to eight digits. */
  function AccountCode(number: nat): (r: string)
    ensures |r| >= 12 && r[..4] == CodePrefix
  {
    CodePrefix + PadLeft(NatToString(number), 8, '0')
  }

  /**
   * Padding never truncates: the code starts with "ACC-", is exactly twelve
   * characters long exactly when the number is below 10^8, and its digits
   * read back as the number.
   */
  lemma AccountCodeRoundTrip(number: nat)
    ensures |AccountCode(number)| >= 12 && AccountCode(number)[..4] == CodePrefix
    ensures |AccountCode(number)| == 12 <==> number < 100_000_000
    ensures AllDigits(AccountCode(number)[4..])
    ensures ParseDigits(AccountCode(number)[4..]) == number
  {
    var ds := NatToString(number);
    var padded := PadLeft(ds, 8, '0');
    var code := AccountCode(number);
    assert code[..4] == CodePrefix && code[4..] == padded;
    NatToStringLength(number, 8);
    assert Pow10(8) == 100_000_000;
    ParseNatToString(number);
    if |ds| < 8 {
      assert padded == Repeat('0', 8 - |ds|) + ds;
      ParseIgnoresLeadingZeros(8 - |ds|, ds);
    }
  }

  /** The code of account number 1. */
  lemma FirstAccountCode()
    ensures AccountCode(1) == "ACC-00000001"
  {
    assert NatToString(1) == "1";
    assert Repeat('0', 7) == "0000000";
  }

  /** Different numbers give different codes. */
  lemma AccountCodeInjective(a: nat, b: nat)
    ensures AccountCode(a) == AccountCode(b) ==> a == b
  {
    AccountCodeRoundTrip(a);
    AccountCodeRoundTrip(b);
  }

  /** The accounts of one user, active ones only when `activeOnly`, in table order. */
  function OwnedBy(s: seq<Account>, userId: int, activeOnly: bool): (r: seq<Account>)
    reads set a | a in s
    ensures forall a :: a in r ==> a in s && a.userId == userId && (activeOnly ==> a.active)
    ensures forall a :: a in s && a.userId == userId && (activeOnly ==> a.active) ==> a in r
  {
    if s == [] then []
    else OwnedBy(s[..|s| - 1], userId, activeOnly)
         + (var a := s[|s| - 1]; if a.userId == userId && (activeOnly ==> a.active) then [a] else [])
  }

  /** Account ids strictly increase along the list, so no account appears twice. */
  predicate IdsAscending(s: seq<Account>)
  {
    forall i, j :: 0 <= i < j < |s| ==> s[i].id < s[j].id
  }

  /** Filtering a list with ascending ids keeps the ids ascending: each account once, in table order. */
  lemma {:induction false} OwnedByKeepsIds(s: seq<Account>, userId: int, activeOnly: bool)
    ensures IdsAscending(s) ==> IdsAscending(OwnedBy(s, userId, activeOnly))
  {
    if s != [] && IdsAscending(s) {
      var init, last := s[..|s| - 1], s[|s| - 1];
      OwnedByKeepsIds(init, userId, activeOnly);
      var o := OwnedBy(init, userId, activeOnly);
      forall a | a in o
        ensures a.id < last.id
      {
        var k :| 0 <= k < |init| && init[k] == a;
        assert s[k] == a;
      }
      if last.userId == userId && (activeOnly ==> last.active) {
        var r := o + [last];
        forall i, j | 0 <= i < j < |r|
          ensures r[i].id < r[j].id
        {
          if j == |o| {
            assert r[i] in o;
          }
        }
      } else {
        assert OwnedBy(s, userId, activeOnly) == o + [] == o;
      }
    }
  }

  /** The plain sum of the balances of a list of accounts. */
  function TotalBalance(s: seq<Account>): int
    reads set a | a in s
  {
    if s == [] then 0 else TotalBalance(s[..|s| - 1]) + s[|s| - 1].balance
  }

  /** The sum of the balances of one user's accounts. */
  function SumBalances(s: seq<Account>, userId: int): (r: int)
    reads set a | a in s
    ensures (forall a :: a in s ==> a.userId != userId) ==> r == 0
    ensures (forall a :: a in s && a.userId == userId ==> a.balance >= 0) ==> r >= 0
  {
    if s == [] then 0
    else SumBalances(s[..|s| - 1], userId) + (if s[|s| - 1].userId == userId then s[|s| - 1].balance else 0)
  }

  /** One more account adds its balance to its own user's sum and to no other. */
  lemma {:induction false} SumBalancesAppend(s: seq<Account>, a: Account, userId: int)
    ensures SumBalances(s + [a], userId) == SumBalances(s, userId) + (if a.userId == userId then a.balance else 0)
  {
    assert (s + [a])[..|s|] == s;
  }

  /** The user's sum is the plain total of the balances of exactly the accounts the user owns. */
  lemma {:induction false} SumBalancesIsOwnedTotal(s: seq<Account>, userId: int)
    ensures SumBalances(s, userId) == TotalBalance(OwnedBy(s, userId, false))
  {
    if s != [] {
      var init, last := s[..|s| - 1], s[|s| - 1];
      SumBalancesIsOwnedTotal(init, userId);
      var o := OwnedBy(init, userId, false);
      if last.userId == userId {
        assert (o + [last])[..|o + [last]| - 1] == o;
      } else {
        assert o + [] == o;
      }
    }
  }

  /** Only the user's own accounts contribute: the sum equals the sum over exactly those accounts. */
  lemma {:induction false} SumBalancesOverOwned(s: seq<Account>, userId: int)
    ensures SumBalances(s, userId) == SumBalances(OwnedBy(s, userId, false), userId)
  {
    if s != [] {
      var init, last := s[..|s| - 1], s[|s| - 1];
      SumBalancesOverOwned(init, userId);
      var o := OwnedBy(init, userId, false);
      if last.userId == userId {
        assert (o + [last])[..|o + [last]| - 1] == o;
      } else {
        assert o + [] == o;
      }
    }
  }

  /** The fields an `update` may set; an absent field is left alone. */
  datatype AccountPatch = AccountPatch(
    code: Option<string>,
    balance: Option<int>,
    initialBalance: Option<int>,
    userId: Option<nat>,
    active: Option<bool>)

  /** The code differs from the code built from every listed account's id (not from its stored code). */
  predicate CodeUnused(code: string, accounts: seq<Account>)
  {
    forall i {:trigger AccountCode(accounts[i].id)} :: 0 <= i < |accounts| ==> code != AccountCode(accounts[i].id)
  }

  /**
   * On a table whose ids run 1, 2, ..., the code of the next id differs from
   * the code built from every existing id.
   */
  lemma NextCodeUnused(accounts: seq<Account>, number: nat)
    requires forall i :: 0 <= i < |accounts| ==> accounts[i].id == i + 1
    requires number == |accounts| + 1
    ensures accounts == [] ==> AccountCode(number) == "ACC-00000001"
    ensures ParseDigits(AccountCode(number)[4..]) == number
    ensures CodeUnused(AccountCode(number), accounts)
  {
    AccountCodeRoundTrip(number);
    if accounts == [] {
      FirstAccountCode();
    }
    forall i | 0 <= i < |accounts|
      ensures AccountCode(number) != AccountCode(accounts[i].id)
    {
      AccountCodeInjective(number, accounts[i].id);
    }
  }

  /** Every listed account stores the code built from its own id, as generated codes are. */
  ghost predicate CodesFromIds(accounts: seq<Account>)
    reads set a | a in accounts
  {
    forall i :: 0 <= i < |accounts| ==> accounts[i].code == AccountCode(accounts[i].id)
  }

  class AccountRepository {
    var accounts: seq<Account>

    ghost predicate Valid()
      reads this
    {
      forall i :: 0 <= i < |accounts| ==> accounts[i].id == i + 1
    }

    constructor ()
      ensures Valid() && accounts == []
    {
      accounts := [];
    }

    /** findById: the account with that id, or null. */
    function FindById(id: int): (r: Option<Account>)
      reads this
      requires Valid()
      ensures r.Some? ==> r.value in accounts && r.value.id == id
      ensures r.None? ==> forall a :: a in accounts ==> a.id != id
    {
      if 1 <= id <= |accounts| then Some(accounts[id - 1]) else None
    }

    /** findByUserId: exactly the accounts with that user id. */
    function FindByUserId(userId: int): (r: seq<Account>)
      reads this, set a | a in accounts
      ensures forall a :: a in r ==> a in accounts && a.userId == userId
      ensures forall a :: a in accounts && a.userId == userId ==> a in r
      ensures Valid() ==> IdsAscending(r)
    {
      OwnedByKeepsIds(accounts, userId, false);
      OwnedBy(accounts, userId, false)
    }

    /** findActiveByUserId: exactly the active accounts with that user id. */
    function FindActiveByUserId(userId: int): (r: seq<Account>)
      reads this, set a | a in accounts
      ensures forall a :: a in r ==> a in accounts && a.userId == userId && a.active
      ensures forall a :: a in accounts && a.userId == userId && a.active ==> a in r
      ensures Valid() ==> IdsAscending(r)
    {
      OwnedByKeepsIds(accounts, userId, true);
      OwnedBy(accounts, userId, true)
    }

    /** getTotalBalanceByUserId: the sum of that user's balances, 0 when the user has no account. */
    function GetTotalBalanceByUserId(userId: int): (r: int)
      reads this, set a | a in accounts
      ensures (forall a :: a in accounts ==> a.userId != userId) ==> r == 0
      ensures (forall a :: a in accounts && a.userId == userId ==> a.balance >= 0) ==> r >= 0
      ensures r == TotalBalance(FindByUserId(userId))
    {
      SumBalancesIsOwnedTotal(accounts, userId);
      SumBalances(accounts, userId)
    }

    /**
     * generateUniqueCode: "ACC-" and the latest id plus one (1 on an empty
     * table), zero-padded to eight digits.
     */
    function GenerateUniqueCode(): (code: string)
      reads this
      requires Valid()
      ensures accounts == [] ==> code == "ACC-00000001"
      ensures code == AccountCode(|accounts| + 1)
      ensures |code| >= 12 && code[..4] == CodePrefix && ParseDigits(code[4..]) == |accounts| + 1
      ensures CodeUnused(code, accounts)
    {
      var number := if accounts == [] then 1 else accounts[|accounts| - 1].id + 1;
      assert number == |accounts| + 1;
      NextCodeUnused(accounts, number);
      AccountCode(number)
    }

    /**
     * The generated code is unique among the stored codes as long as every
     * stored code was itself generated; a code given to `Create` or `Update`
     * can take it.
     */
    lemma GeneratedCodeNotStored()
      requires Valid() && CodesFromIds(accounts)
      ensures forall a :: a in accounts ==> a.code != GenerateUniqueCode()
    {
      var code := GenerateUniqueCode();
      forall a | a in accounts
        ensures a.code != code
      {
        var k :| 0 <= k < |accounts| && accounts[k] == a;
        assert code != AccountCode(accounts[k].id);
      }
    }

    /** Storing a code the repository did not build from the id makes the next generated code collide. */
    lemma GivenCodeCanCollide()
      requires Valid() && |accounts| == 1 && accounts[0].code == AccountCode(2)
      ensures accounts[0].code == GenerateUniqueCode()
    {
    }

    /**
     * create: generates a code when none is given and copies the balance into
     * the initial balance when only the balance is given; missing columns take
     * the table defaults (balances 0, active).
     */
    method Create(code: Option<string>, balance: Option<int>, initialBalance: Option<int>,
                  userId: nat, active: Option<bool>) returns (a: Account)
      requires Valid()
      modifies this
      ensures Valid() && fresh(a) && accounts == old(accounts) + [a]
      ensures a.id == |old(accounts)| + 1 && a.userId == userId
      ensures code.Some? ==> a.code == code.value
      ensures code.None? ==> a.code == AccountCode(|old(accounts)| + 1)
      ensures a.balance == (if balance.Some? then balance.value else 0)
      ensures initialBalance.Some? ==> a.initialBalance == initialBalance.value
      ensures initialBalance.None? && balance.Some? ==> a.initialBalance == balance.value
      ensures initialBalance.None? && balance.None? ==> a.initialBalance == 0
      ensures a.active == (if active.Some? then active.value else true)
    {
      var c: string;
      if code.Some? {
        c := code.value;
      } else {
        c := GenerateUniqueCode();
      }
      var initial := if initialBalance.Some? then initialBalance
                     else if balance.Some? then balance
                     else None;
      var b := if balance.Some? then balance.value else 0;
      var i := if initial.Some? then initial.value else 0;
      var act := if active.Some? then active.value else true;
      a := new Account(|accounts| + 1, c, b, i, userId, act);
      accounts := accounts + [a];
      assert accounts[|accounts| - 1] == a;
    }

    /**
     * update: "Account not found" for an unknown id, with nothing changed;
     * otherwise sets exactly the fields the patch gives.
     */
    method Update(id: int, patch: AccountPatch) returns (r: Result<Account>)
      requires Valid()
      modifies set a | a in accounts
      ensures FindById(id).None? <==> r == Err(AccountNotFound)
      ensures r.Ok? ==> r.value == FindById(id).value
      ensures r.Ok? ==> r.value.code == (if patch.code.Some? then patch.code.value else old(r.value.code))
      ensures r.Ok? ==> r.value.balance == (if patch.balance.Some? then patch.balance.value else old(r.value.balance))
      ensures r.Ok? ==> r.value.initialBalance
                        == (if patch.initialBalance.Some? then patch.initialBalance.value else old(r.value.initialBalance))
      ensures r.Ok? ==> r.value.userId == (if patch.userId.Some? then patch.userId.value else old(r.value.userId))
      ensures r.Ok? ==> r.value.active == (if patch.active.Some? then patch.active.value else old(r.value.active))
      ensures forall a :: a in accounts && (r.Err? || a != r.value) ==> unchanged(a)
    {
      var found := FindById(id);
      if found.None? {
        return Err(AccountNotFound);
      }
      var a := found.value;
      if patch.code.Some? { a.code := patch.code.value; }
      if patch.balance.Some? { a.balance := patch.balance.value; }
      if patch.initialBalance.Some? { a.initialBalance := patch.initialBalance.value; }
      if patch.userId.Some? { a.userId := patch.userId.value; }
      if patch.active.Some? { a.active := patch.active.value; }
      r := Ok(a);
    }

    /** activate: sets active and nothing else; "Account not found" for an unknown id. */
    method Activate(id: int) returns (r: Result<Account>)
      requires Valid()
      modifies set a | a in accounts
      ensures FindById(id).None? <==> r == Err(AccountNotFound)
      ensures r.Ok? ==> r.value == FindById(id).value && r.value.active
      ensures r.Ok? ==> r.value.code == old(r.value.code) && r.value.balance == old(r.value.balance)
      ensures r.Ok? ==> r.value.initialBalance == old(r.value.initialBalance) && r.value.userId == old(r.value.userId)
      ensures forall a :: a in accounts && (r.Err? || a != r.value) ==> unchanged(a)
    {
      r := Update(id, AccountPatch(None, None, None, None, Some(true)));
    }

    /** deactivate: clears active and nothing else; "Account not found" for an unknown id. */
    method Deactivate(id: int) returns (r: Result<Account>)
      requires Valid()
      modifies set a | a in accounts
      ensures FindById(id).None? <==> r == Err(AccountNotFound)
      ensures r.Ok? ==> r.value == FindById(id).value && !r.value.active
      ensures r.Ok? ==> r.value.code == old(r.value.code) && r.value.balance == old(r.value.balance)
      ensures r.Ok? ==> r.value.initialBalance == old(r.value.initialBalance) && r.value.userId == old(r.value.userId)
      ensures forall a :: a in accounts && (r.Err? || a != r.value) ==> unchanged(a)
    {
      r := Update(id, AccountPatch(None, None, None, None, Some(false)));
    }
  }
}
