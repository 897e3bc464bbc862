/**
 * The blockchain service: appends mined blocks to the blocks table, walks the
 * chain to verify it, and re-links and re-mines it on request.
 */
module BlockchainService {
  import opened Results
  import opened Text
  import opened Blocks
  import opened Transactions

  /** The difficulty a newly built service mines at. */
  const DefaultDifficulty: nat := 2

  /**
   * The check isChainValid performs: every block after position 0 matches its
   * own hash and points at the hash of the block before it.  Position 0 (the
   * genesis block) is never looked at.
   */
  ghost predicate ChainValid(h: Hashing, blocks: seq<Block>, now: nat)
    reads blocks
  {
    forall i :: 1 <= i < |blocks| ==>
      blocks[i].IsValid(h, now) && blocks[i].previousHash == blocks[i - 1].hash
  }

  /** The block is mined to difficulty d and matches its own hash. */
  ghost predicate Sealed(h: Hashing, b: Block, d: nat, now: nat)
    reads b
  {
    HasLeadingZeros(b.hash, d) && b.IsValid(h, now)
  }

  /** Block indices run 0, 1, 2, ... along the table. */
  ghost predicate Contiguous(blocks: seq<Block>)
  {
    forall i :: 0 <= i < |blocks| ==> blocks[i].index == i
  }

  /**
   * `after` is `before` with the block b that carries `data` for transaction
   * `txId` appended, preceded by a fresh genesis block when `before` was
   * empty; b is linked to its predecessor, mined to `difficulty`, valid and
   * saved at `now`.
   */
  ghost predicate Appended(h: Hashing, before: seq<Block>, after: seq<Block>, b: Block,
                           data: Payload, txId: nat, difficulty: nat, now: nat)
    reads before, after
    reads b
  {
    && (before != [] ==>
          && after == before + [b]
          && b.index == before[|before| - 1].index + 1
          && b.previousHash == before[|before| - 1].hash)
    && (before == [] ==>
          && |after| == 2 && after[1] == b
          && after[0].index == 0 && after[0].previousHash == "0"
          && after[0].data.GenesisData?
          && b.index == 1 && b.previousHash == after[0].hash)
    && b.data == data && b.transactionId == Some(txId)
    && HasLeadingZeros(b.hash, difficulty) && b.IsValid(h, now)
    && b.createdAt == Some(now)
  }

  /** Appending a valid block linked to the last one keeps the chain valid and contiguous. */
  lemma AppendKeepsChain(h: Hashing, blocks: seq<Block>, b: Block, now: nat)
    requires blocks != [] && b.IsValid(h, now) && b.previousHash == blocks[|blocks| - 1].hash
    requires b.index == blocks[|blocks| - 1].index + 1
    ensures ChainValid(h, blocks, now) ==> ChainValid(h, blocks + [b], now)
    ensures Contiguous(blocks) ==> Contiguous(blocks + [b])
  {
  }

  /**
   * An append keeps a valid chain valid; on an empty table the genesis block
   * and the new block form a valid chain of their own.
   */
  lemma AppendedKeepsChain(h: Hashing, before: seq<Block>, after: seq<Block>, b: Block,
                           data: Payload, txId: nat, difficulty: nat, now: nat)
    requires Appended(h, before, after, b, data, txId, difficulty, now)
    ensures ChainValid(h, before, now) ==> ChainValid(h, after, now)
  {
    if before != [] {
      AppendKeepsChain(h, before, b, now);
    }
  }

  /** A second append leaves the table of the first append as everything but the last block. */
  lemma AppendedOntoLast(h: Hashing, before: seq<Block>, after: seq<Block>, b: Block,
                         data: Payload, txId: nat, difficulty: nat, now: nat)
    requires Appended(h, before, after, b, data, txId, difficulty, now) && before != []
    ensures |after| >= 1 && after[..|after| - 1] == before
  {
    assert after[..|before|] == before;
  }

  /** The statistics getBlockchainStats reports. */
  datatype BlockchainStats = BlockchainStats(
    totalBlocks: nat,
    latestBlockIndex: Option<nat>,
    latestBlockHash: Option<string>,
    chainValid: bool,
    difficulty: nat)

  class BlockchainService {
    /** The number of leading zeros a mined hash must have. */
    var difficulty: nat
    const table: BlockTable

    constructor (table: BlockTable)
      ensures this.table == table && difficulty == DefaultDifficulty
    {
      this.table := table;
      difficulty := DefaultDifficulty;
    }

    function GetDifficulty(): (d: nat)
      reads this
      ensures d == difficulty
    {
      difficulty
    }

    /** setDifficulty: getDifficulty() returns the new value afterwards. */
    method SetDifficulty(d: nat)
      modifies this`difficulty
      ensures GetDifficulty() == d
    {
      difficulty := d;
    }

    /** getLatestBlock: the block with the highest index, or null on an empty table. */
    function GetLatestBlock(): (r: Option<Block>)
      reads this, table
      requires table.Valid()
      ensures r.None? <==> table.rows == []
      ensures r.Some? ==> r.value in table.rows
      ensures r.Some? ==> forall b :: b in table.rows ==> b.index <= r.value.index
    {
      if table.rows == [] then None else Some(table.rows[|table.rows| - 1])
    }

    /** initializeBlockchain: saves a genesis block when the table is empty, and otherwise does nothing. */
    method InitializeBlockchain(h: Hashing, now: nat)
      requires table.Valid()
      modifies table
      ensures table.Valid()
      ensures old(table.rows) != [] ==> table.rows == old(table.rows)
      ensures old(table.rows) == [] ==>
        && |table.rows| == 1 && fresh(table.rows[0])
        && table.rows[0].index == 0 && table.rows[0].previousHash == "0" && table.rows[0].nonce == 0
        && table.rows[0].data == GenesisData(GenesisMessage, now)
        && table.rows[0].IsValid(h, now)
    {
      if |table.rows| == 0 {
        var _ := Block.CreateGenesisBlock(h, now, table);
      }
    }

    /**
     * addBlock: makes sure a genesis block exists, then builds a block for the
     * transaction after the latest one, mines it and saves it.
     */
    method AddBlock(h: Hashing, tx: Transaction, accountCode: string, now: nat) returns (b: Block)
      requires table.Valid() && Minable(h, difficulty)
      modifies table
      ensures fresh(b) && table.Valid()
      ensures Appended(h, old(table.rows), table.rows, b, ToBlockchainData(tx, accountCode), tx.id, difficulty, now)
      ensures forall n: nat :: n < b.nonce ==> !NonceQualifies(h, difficulty, b.Prefix(h, now), n)
      ensures Contiguous(old(table.rows)) ==> Contiguous(table.rows)
      ensures ChainValid(h, old(table.rows), now) ==> ChainValid(h, table.rows, now)
    {
      InitializeBlockchain(h, now);
      ghost var rowsBefore := table.rows;
      b := AppendTransactionBlock(h, tx, accountCode, now);
      AppendKeepsChain(h, rowsBefore, b, now);
    }

    /**
     * The part of addBlock after the genesis check: a block for the
     * transaction, linked to the latest block, mined and saved at the end of
     * the table.
     */
    method AppendTransactionBlock(h: Hashing, tx: Transaction, accountCode: string, now: nat) returns (b: Block)
      requires table.Valid() && table.rows != [] && Minable(h, difficulty)
      modifies table
      ensures fresh(b) && table.Valid()
      ensures table.rows == old(table.rows) + [b]
      ensures b.index == old(table.rows[|table.rows| - 1].index) + 1
      ensures b.previousHash == old(table.rows[|table.rows| - 1].hash)
      ensures b.data == ToBlockchainData(tx, accountCode) && b.transactionId == Some(tx.id)
      ensures HasLeadingZeros(b.hash, difficulty) && b.IsValid(h, now) && b.createdAt == Some(now)
      ensures forall n: nat :: n < b.nonce ==> !NonceQualifies(h, difficulty, b.Prefix(h, now), n)
    {
      var latest := table.rows[|table.rows| - 1];
      b := new Block(latest.index + 1, ToBlockchainData(tx, accountCode), latest.hash, "", 0, Some(tx.id));
      b.MineBlock(h, difficulty, now);
      var position := table.Insert(b, now);
      assert position == |old(table.rows)|;
    }

    /**
     * addBlock against a clock that moves: mining runs while created_at is
     * still null, so every digest is taken at the time the clock read then
     * (`mineTime`), and the save stamps created_at with the time of the save
     * (`saveTime`).  When the two differ the new block fails isValid.
     */
    method AddBlockAsWritten(h: Hashing, tx: Transaction, accountCode: string, mineTime: nat, saveTime: nat)
      returns (b: Block)
      requires table.Valid() && Minable(h, difficulty)
      modifies table
      ensures fresh(b) && table.Valid()
      ensures table.rows != [] && table.rows[|table.rows| - 1] == b
      ensures b.createdAt == Some(saveTime)
      ensures b.hash == HashOf(h, b.index, mineTime, b.data, b.previousHash, b.nonce)
      ensures mineTime == saveTime ==> b.IsValid(h, saveTime)
      ensures mineTime != saveTime ==> HashInput(h, b.index, mineTime, b.data, b.previousHash, b.nonce) != b.Digested(h, saveTime)
      ensures mineTime != saveTime && NoCollision(h, HashInput(h, b.index, mineTime, b.data, b.previousHash, b.nonce), b.Digested(h, saveTime))
              ==> !b.IsValid(h, saveTime)
    {
      InitializeBlockchain(h, mineTime);
      var latest := table.rows[|table.rows| - 1];
      b := new Block(latest.index + 1, ToBlockchainData(tx, accountCode), latest.hash, "", 0, Some(tx.id));
      ghost var rowsBefore := table.rows;
      b.MineBlock(h, difficulty, mineTime);
      var position := table.Insert(b, saveTime);
      assert table.rows == rowsBefore + [b];
      if mineTime != saveTime {
        StaleTimestampInvalidates(h, b.index, mineTime, saveTime, b.data, b.previousHash, b.nonce);
      }
    }

    /**
     * isChainValid: walks the table in index order from position 1 and stops
     * at the first block whose hash or link is wrong; it changes nothing.
     */
    method IsChainValid(h: Hashing, now: nat) returns (valid: bool)
      ensures valid == ChainValid(h, table.rows, now)
      ensures table.rows == [] ==> valid
    {
      var blocks := table.rows;
      var i := 1;
      while i < |blocks|
        invariant 1 <= i
        invariant forall k :: 1 <= k < i && k < |blocks| ==>
          blocks[k].IsValid(h, now) && blocks[k].previousHash == blocks[k - 1].hash
      {
        if !blocks[i].IsValid(h, now) {
          return false;
        }
        if blocks[i].previousHash != blocks[i - 1].hash {
          return false;
        }
        i := i + 1;
      }
      return true;
    }

    /** getBlockchainStats: count, latest index and short hash (null when empty), validity and difficulty. */
    method GetBlockchainStats(h: Hashing, now: nat) returns (s: BlockchainStats)
      requires table.Valid()
      ensures s.totalBlocks == |table.rows|
      ensures s.latestBlockIndex.None? <==> table.rows == []
      ensures s.latestBlockIndex.Some? ==> s.latestBlockIndex.value == GetLatestBlock().value.index
      ensures s.latestBlockHash.None? <==> table.rows == []
      ensures s.latestBlockHash.Some? ==> s.latestBlockHash.value == GetLatestBlock().value.ShortHash(8)
      ensures s.chainValid == ChainValid(h, table.rows, now)
      ensures s.difficulty == difficulty
    {
      var latest := GetLatestBlock();
      var valid := IsChainValid(h, now);
      s := BlockchainStats(
        |table.rows|,
        if latest.Some? then Some(latest.value.index) else None,
        if latest.Some? then Some(latest.value.ShortHash(8)) else None,
        valid,
        difficulty);
    }

    /**
     * repairChain: in index order, points each block after the first at its
     * predecessor's (new) hash, resets the nonce and mines again.  Afterwards
     * the chain passes isChainValid and every block meets the difficulty.
     */
    method RepairChain(h: Hashing, now: nat)
      requires table.Valid() && Minable(h, difficulty)
      modifies (set b | b in table.rows)`previousHash, (set b | b in table.rows)`nonce, (set b | b in table.rows)`hash
      ensures ChainValid(h, table.rows, now)
      ensures forall i :: 0 <= i < |table.rows| ==>
        HasLeadingZeros(table.rows[i].hash, difficulty) && table.rows[i].IsValid(h, now)
      ensures table.rows != [] ==> table.rows[0].previousHash == old(table.rows[0].previousHash)
      ensures forall b :: b in table.rows ==> b.createdAt == old(b.createdAt)
    {
      var blocks := table.rows;
      var i := 0;
      while i < |blocks|
        invariant 0 <= i <= |blocks|
        invariant blocks == table.rows
        invariant forall k :: 0 <= k < i ==> Sealed(h, blocks[k], difficulty, now)
        invariant forall k :: 1 <= k < i ==> blocks[k].previousHash == blocks[k - 1].hash
        invariant blocks != [] ==> blocks[0].previousHash == old(blocks[0].previousHash)
      {
        RepairAt(h, blocks, i, now);
        i := i + 1;
      }
    }

    /**
     * One step of repairChain: block i (after the first) is pointed at its
     * predecessor's hash, its nonce is reset and it is mined again; the blocks
     * before it keep what the earlier steps established.
     */
    method RepairAt(h: Hashing, blocks: seq<Block>, i: nat, now: nat)
      requires Distinct(blocks) && i < |blocks| && Minable(h, difficulty)
      requires forall k :: 0 <= k < i ==> Sealed(h, blocks[k], difficulty, now)
      requires forall k :: 1 <= k < i ==> blocks[k].previousHash == blocks[k - 1].hash
      modifies {blocks[i]}`previousHash, {blocks[i]}`nonce, {blocks[i]}`hash
      ensures forall k :: 0 <= k <= i ==> Sealed(h, blocks[k], difficulty, now)
      ensures forall k :: 1 <= k <= i ==> blocks[k].previousHash == blocks[k - 1].hash
      ensures blocks[0].previousHash == old(blocks[0].previousHash)
      ensures blocks[i].createdAt == old(blocks[i].createdAt)
    {
      var block := blocks[i];
      forall k | 0 <= k < i
        ensures blocks[k] != block
      {
      }
      if i > 0 {
        block.previousHash := blocks[i - 1].hash;
      }
      Remine(h, block, now);
      assert forall k :: 0 <= k < i ==> unchanged(blocks[k]);
    }

    /** Resets the block's nonce to 0 and mines it again at the current difficulty. */
    method Remine(h: Hashing, block: Block, now: nat)
      requires Minable(h, difficulty)
      modifies block`nonce, block`hash
      ensures Sealed(h, block, difficulty, now)
    {
      block.nonce := 0;
      block.MineBlock(h, difficulty, now);
    }
  }

  /**
   * A block after position 0 whose stored hash is kept while one of its data,
   * previous hash or nonce is changed makes the chain fail the check, unless
   * sha256 collides on the old and the new block's hashed strings (which
   * differ, for data provided json_encode tells the two payloads apart).
   */
  lemma TamperedBlockDetected(h: Hashing, blocks: seq<Block>, k: nat, forged: Block, now: nat)
    requires ChainValid(h, blocks, now)
    requires 1 <= k < |blocks|
    requires forged.index == blocks[k].index && forged.Timestamp(now) == blocks[k].Timestamp(now)
    requires forged.hash == blocks[k].hash
    requires || (forged.data != blocks[k].data && forged.previousHash == blocks[k].previousHash && forged.nonce == blocks[k].nonce)
             || (forged.data == blocks[k].data && forged.previousHash != blocks[k].previousHash && forged.nonce == blocks[k].nonce)
             || (forged.data == blocks[k].data && forged.previousHash == blocks[k].previousHash && forged.nonce != blocks[k].nonce)
    requires forged.data != blocks[k].data ==> h.json(forged.data) != h.json(blocks[k].data)
    requires NoCollision(h, forged.Digested(h, now), blocks[k].Digested(h, now))
    ensures !ChainValid(h, blocks[k := forged], now)
  {
    var b := blocks[k];
    SingleFieldChangeChangesHash(h, b.index, b.Timestamp(now), b.data, b.previousHash, b.nonce,
                                 forged.data, forged.previousHash, forged.nonce);
    assert !forged.IsValid(h, now);
    assert blocks[k := forged][k] == forged;
  }

  /**
   * Overwriting only the stored hash of a block after position 0 makes the
   * chain fail the check, whatever the hash function.
   */
  lemma ChangedHashDetected(h: Hashing, blocks: seq<Block>, k: nat, forged: Block, now: nat)
    requires ChainValid(h, blocks, now) && 1 <= k < |blocks|
    requires forged.index == blocks[k].index && forged.Timestamp(now) == blocks[k].Timestamp(now)
    requires forged.data == blocks[k].data && forged.previousHash == blocks[k].previousHash
    requires forged.nonce == blocks[k].nonce && forged.hash != blocks[k].hash
    ensures !ChainValid(h, blocks[k := forged], now)
  {
    assert forged.CalculateHash(h, now) == blocks[k].CalculateHash(h, now);
    assert blocks[k := forged][k] == forged;
  }

  /**
   * Re-sealing a tampered block (recomputing its hash so that it is valid on
   * its own) does not help: the next block's link no longer matches, unless
   * sha256 collides on the old and the new block's hashed strings.
   */
  lemma ResealedBlockBreaksLink(h: Hashing, blocks: seq<Block>, k: nat, forged: Block, now: nat)
    requires ChainValid(h, blocks, now)
    requires 1 <= k && k + 1 < |blocks|
    requires forged.index == blocks[k].index && forged.Timestamp(now) == blocks[k].Timestamp(now)
    requires forged.IsValid(h, now)
    requires || (forged.data != blocks[k].data && forged.previousHash == blocks[k].previousHash && forged.nonce == blocks[k].nonce)
             || (forged.data == blocks[k].data && forged.previousHash != blocks[k].previousHash && forged.nonce == blocks[k].nonce)
             || (forged.data == blocks[k].data && forged.previousHash == blocks[k].previousHash && forged.nonce != blocks[k].nonce)
    requires forged.data != blocks[k].data ==> h.json(forged.data) != h.json(blocks[k].data)
    requires NoCollision(h, forged.Digested(h, now), blocks[k].Digested(h, now))
    requires blocks[k + 1] != blocks[k] && forged != blocks[k + 1]
    ensures !ChainValid(h, blocks[k := forged], now)
  {
    var b := blocks[k];
    SingleFieldChangeChangesHash(h, b.index, b.Timestamp(now), b.data, b.previousHash, b.nonce,
                                 forged.data, forged.previousHash, forged.nonce);
    var t := blocks[k := forged];
    assert t[k] == forged && t[k + 1] == blocks[k + 1];
    assert t[k + 1].previousHash != t[k].hash;
  }

  /**
   * The genesis block is outside the check: any block with the same hash can
   * stand at position 0, whatever its contents.
   */
  lemma GenesisNeverChecked(h: Hashing, blocks: seq<Block>, g: Block, now: nat)
    requires ChainValid(h, blocks, now) && |blocks| >= 1
    requires g.hash == blocks[0].hash
    ensures ChainValid(h, blocks[0 := g], now)
  {
    var t := blocks[0 := g];
    forall i | 1 <= i < |t|
      ensures t[i].IsValid(h, now) && t[i].previousHash == t[i - 1].hash
    {
      assert t[i] == blocks[i];
      assert t[i - 1].hash == blocks[i - 1].hash;
    }
  }
}
