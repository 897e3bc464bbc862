/**
 * The block repository: queries over the blocks table, which is kept in
 * index order, and the plain `create` that saves a block as given.
 */
module BlockRepository {
  import opened Results
  import opened Blocks
  import opened Sequences

  /** The position of the first row (in index order) whose hash is `hash`. */
  function IndexOfHash(rows: seq<Block>, hash: string): (r: Option<nat>)
    reads set b | b in rows
    ensures r.Some? ==> r.value < |rows| && rows[r.value].hash == hash
    ensures r.Some? ==> forall j :: 0 <= j < r.value ==> rows[j].hash != hash
    ensures r.None? ==> forall j :: 0 <= j < |rows| ==> rows[j].hash != hash
  {
    if rows == [] then None
    else if rows[0].hash == hash then Some(0)
    else match IndexOfHash(rows[1..], hash)
      case None => None
      case Some(k) => Some(k + 1)
  }

  /** The position of the first row (in index order) that records transaction `txId`. */
  function IndexOfTransaction(rows: seq<Block>, txId: int): (r: Option<nat>)
    ensures r.Some? ==> r.value < |rows| && rows[r.value].transactionId == Some(txId)
    ensures r.Some? ==> forall j :: 0 <= j < r.value ==> rows[j].transactionId != Some(txId)
    ensures r.None? ==> forall j :: 0 <= j < |rows| ==> rows[j].transactionId != Some(txId)
  {
    if rows == [] then None
    else if rows[0].transactionId == Some(txId) then Some(0)
    else match IndexOfTransaction(rows[1..], txId)
      case None => None
      case Some(k) => Some(k + 1)
  }

  /**
   * The last rows of an index-sorted table of distinct rows, read backwards,
   * come by descending index with no row twice, and every row they leave out
   * has an index no higher.
   */
  lemma HighestFirst(rows: seq<Block>, r: seq<Block>)
    requires IndexSorted(rows) && Distinct(rows)
    requires |r| <= |rows| && forall i :: 0 <= i < |r| ==> r[i] == rows[|rows| - 1 - i]
    ensures forall i :: 0 <= i < |r| ==> r[i] in rows
    ensures forall i, j :: 0 <= i < j < |r| ==> r[i].index >= r[j].index && r[i] != r[j]
    ensures forall b, i :: b in rows && b !in r && 0 <= i < |r| ==> b.index <= r[i].index
  {
    forall k | |rows| - |r| <= k < |rows|
      ensures rows[k] in r
    {
      assert r[|rows| - 1 - k] == rows[k];
    }
    forall b, i | b in rows && b !in r && 0 <= i < |r|
      ensures b.index <= r[i].index
    {
      var k :| 0 <= k < |rows| && rows[k] == b;
      assert k < |rows| - |r|;
    }
  }

  class BlockRepository {
    const table: BlockTable

    constructor (table: BlockTable)
      ensures this.table == table
    {
      this.table := table;
    }

    /** all: every block, in ascending index order. */
    function All(): (r: seq<Block>)
      reads this, table
      requires table.Valid()
      ensures IndexSorted(r)
      ensures multiset(r) == multiset(table.rows)
    {
      table.rows
    }

    /** getAllOrdered: the same rows as `all`, ascending by index. */
    function GetAllOrdered(): (r: seq<Block>)
      reads this, table
      requires table.Valid()
      ensures IndexSorted(r)
      ensures multiset(r) == multiset(table.rows)
    {
      All()
    }

    /** findByHash: a block with that hash (the first in index order), or null. */
    function FindByHash(hash: string): (r: Option<Block>)
      reads this, table, set b | b in table.rows
      ensures r.Some? ==> r.value in table.rows && r.value.hash == hash
      ensures r.None? ==> forall b :: b in table.rows ==> b.hash != hash
    {
      match IndexOfHash(table.rows, hash)
      case None => None
      case Some(k) => Some(table.rows[k])
    }

    /** findByTransactionId: a block recording that transaction (the first in index order), or null. */
    function FindByTransactionId(txId: int): (r: Option<Block>)
      reads this, table
      ensures r.Some? ==> r.value in table.rows && r.value.transactionId == Some(txId)
      ensures r.None? ==> forall b :: b in table.rows ==> b.transactionId != Some(txId)
    {
      match IndexOfTransaction(table.rows, txId)
      case None => None
      case Some(k) => Some(table.rows[k])
    }

    /** getLatest: the block with the highest index, or null on an empty table. */
    function GetLatest(): (r: Option<Block>)
      reads this, table
      requires table.Valid()
      ensures r.None? <==> table.rows == []
      ensures r.Some? ==> r.value in table.rows
      ensures r.Some? ==> forall b :: b in table.rows ==> b.index <= r.value.index
    {
      if table.rows == [] then None else Some(table.rows[|table.rows| - 1])
    }

    /**
     * getRecent: min(limit, count) blocks, by descending index; every block
     * left out has an index no higher than those returned.
     */
    function GetRecent(limit: int): (r: seq<Block>)
      reads this, table
      requires table.Valid()
      ensures |r| == if 0 <= limit < |table.rows| then limit else |table.rows|
      ensures forall i :: 0 <= i < |r| ==> r[i] == table.rows[|table.rows| - 1 - i] && r[i] in table.rows
      ensures forall i, j :: 0 <= i < j < |r| ==> r[i].index >= r[j].index && r[i] != r[j]
      ensures forall b, i :: b in table.rows && b !in r && 0 <= i < |r| ==> b.index <= r[i].index
    {
      var r := Limit(Reverse(table.rows), limit);
      HighestFirst(table.rows, r);
      r
    }

    /** create: saves a block with the given fields as they are (no mining, no hashing). */
    method Create(index: nat, data: Payload, previousHash: string, hash: string, nonce: nat,
                  transactionId: Option<nat>, now: nat) returns (b: Block)
      requires table.Valid()
      modifies table
      ensures fresh(b) && table.Valid()
      ensures b.index == index && b.data == data && b.previousHash == previousHash
      ensures b.hash == hash && b.nonce == nonce && b.transactionId == transactionId
      ensures b.createdAt == Some(now)
      ensures |table.rows| == |old(table.rows)| + 1
      ensures multiset(table.rows) == multiset(old(table.rows)) + multiset{b}
    {
      b := new Block(index, data, previousHash, hash, nonce, transactionId);
      var _ := table.Insert(b, now);
    }

    /** count: the number of stored blocks. */
    function Count(): (n: nat)
      reads this, table
      ensures n == |table.rows|
    {
      |table.rows|
    }
  }
}
