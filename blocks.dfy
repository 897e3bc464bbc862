/**
 * One ledger entry of the hash chain (the Block model) and the blocks table
 * it is saved into.  SHA-256 and json_encode are not modelled bit by bit:
 * they are the two functions of a `Hashing` value, and every property below
 * holds for whichever functions are supplied.
 */
module Blocks {
  import opened Results
  import opened Text

  /** What a block's `data` column holds: the genesis marker or a transaction snapshot. */
  datatype Payload =
    | GenesisData(message: string, timestamp: nat)
    | TransactionData(transactionId: nat, txType: string, amount: int, accountCode: string,
                      balanceBefore: int, balanceAfter: int, description: Option<string>,
                      timestamp: nat)

  /** SHA-256 as a hex digest, and json_encode of a block's data. */
  datatype Hashing = Hashing(sha256: string -> string, json: Payload -> string)

  const GenesisMessage: string := "Genesis Block - SecroChain"

  /** The block string calculateHash digests, up to (not including) the nonce. */
  function HashPrefix(h: Hashing, index: nat, timestamp: nat, data: Payload, previousHash: string): string
  {
    NatToString(index) + NatToString(timestamp) + h.json(data) + previousHash
  }

  /** sha256(index . timestamp . json(data) . previous_hash . nonce). */
  function HashOf(h: Hashing, index: nat, timestamp: nat, data: Payload, previousHash: string, nonce: nat): string
  {
    h.sha256(HashPrefix(h, index, timestamp, data, previousHash) + NatToString(nonce))
  }

  /** The nonce makes the digest of `prefix . nonce` start with d zeros. */
  predicate NonceQualifies(h: Hashing, d: nat, prefix: string, nonce: nat)
  {
    HasLeadingZeros(h.sha256(prefix + NatToString(nonce)), d)
  }

  ghost predicate QualifyingNonceFrom(h: Hashing, d: nat, prefix: string, start: nat)
  {
    exists n: nat :: start <= n && NonceQualifies(h, d, prefix, n)
  }

  /**
   * Mining at difficulty d terminates from every block and every starting
   * nonce.  The PHP loop simply runs forever otherwise; the model covers the
   * terminating runs.
   */
  ghost predicate Minable(h: Hashing, d: nat)
  {
    forall prefix: string, start: nat :: QualifyingNonceFrom(h, d, prefix, start)
  }

  /** At difficulty 0 the very first nonce tried qualifies, whatever the hash function. */
  lemma DifficultyZeroMinable(h: Hashing)
    ensures Minable(h, 0)
  {
    forall prefix: string, start: nat
      ensures QualifyingNonceFrom(h, 0, prefix, start)
    {
      assert NonceQualifies(h, 0, prefix, start);
    }
  }

  /**
   * The genesis block is hashed once and never mined: for some hash
   * functions its digest does not even start with one zero.
   */
  lemma GenesisNeedNotMeetDifficulty(now: nat)
    ensures exists h: Hashing :: !HasLeadingZeros(HashOf(h, 0, now, GenesisData(GenesisMessage, now), "0", 0), 1)
  {
    var h := Hashing(s => "f", p => "");
    assert HashOf(h, 0, now, GenesisData(GenesisMessage, now), "0", 0) == "f";
    assert Substr0("f", 1) == "f";
  }

  /** The whole string calculateHash digests: the prefix followed by the nonce. */
  function HashInput(h: Hashing, index: nat, timestamp: nat, data: Payload, previousHash: string, nonce: nat): string
  {
    HashPrefix(h, index, timestamp, data, previousHash) + NatToString(nonce)
  }

  /**
   * sha256 has no collision on this one pair of strings.  No function into
   * 64-character digests is injective, so the tamper-evidence lemmas below
   * ask this only of the two strings they compare.
   */
  ghost predicate NoCollision(h: Hashing, s: string, t: string)
  {
    h.sha256(s) == h.sha256(t) ==> s == t
  }

  lemma CancelContext(x: string, y1: string, y2: string, z: string)
    requires x + y1 + z == x + y2 + z
    ensures y1 == y2
  {
    var w := x + y1 + z;
    assert |y1| == |y2|;
    assert y1 == w[|x|..|x| + |y1|];
    assert y2 == (x + y2 + z)[|x|..|x| + |y2|];
  }

  /**
   * Changing exactly one of data, previous hash or nonce changes the string
   * that is digested (for data, provided json_encode tells the two payloads
   * apart); so, unless sha256 collides on exactly those two strings, a block
   * edited in one of those fields no longer matches the hash it was sealed with.
   */
  lemma SingleFieldChangeChangesHash(h: Hashing, index: nat, ts: nat,
                                     d: Payload, p: string, n: nat,
                                     d2: Payload, p2: string, n2: nat)
    requires || (d2 != d && p2 == p && n2 == n)
             || (d2 == d && p2 != p && n2 == n)
             || (d2 == d && p2 == p && n2 != n)
    requires d2 != d ==> h.json(d2) != h.json(d)
    ensures HashInput(h, index, ts, d2, p2, n2) != HashInput(h, index, ts, d, p, n)
    ensures NoCollision(h, HashInput(h, index, ts, d2, p2, n2), HashInput(h, index, ts, d, p, n)) ==>
            HashOf(h, index, ts, d2, p2, n2) != HashOf(h, index, ts, d, p, n)
  {
    var s := HashInput(h, index, ts, d, p, n);
    var s2 := HashInput(h, index, ts, d2, p2, n2);
    if s == s2 {
      var lead := NatToString(index) + NatToString(ts);
      if n2 != n {
        assert s == HashPrefix(h, index, ts, d, p) + NatToString(n) + [];
        assert s2 == HashPrefix(h, index, ts, d, p) + NatToString(n2) + [];
        CancelContext(HashPrefix(h, index, ts, d, p), NatToString(n), NatToString(n2), []);
        NatToStringInjective(n, n2);
      } else if d2 != d {
        assert s == lead + h.json(d) + (p + NatToString(n));
        assert s2 == lead + h.json(d2) + (p + NatToString(n));
        CancelContext(lead, h.json(d), h.json(d2), p + NatToString(n));
      } else {
        assert s == (lead + h.json(d)) + p + NatToString(n);
        assert s2 == (lead + h.json(d)) + p2 + NatToString(n);
        CancelContext(lead + h.json(d), p, p2, NatToString(n));
      }
    }
  }

  /**
   * A digest taken at one time is over a different string than the
   * recomputation at another; so, unless sha256 collides on exactly those two
   * strings, a block hashed while the clock read `hashTime` and stamped with
   * a different `savedTime` fails isValid for good.
   */
  lemma StaleTimestampInvalidates(h: Hashing, index: nat, hashTime: nat, savedTime: nat,
                                  d: Payload, p: string, n: nat)
    requires hashTime != savedTime
    ensures HashInput(h, index, hashTime, d, p, n) != HashInput(h, index, savedTime, d, p, n)
    ensures NoCollision(h, HashInput(h, index, hashTime, d, p, n), HashInput(h, index, savedTime, d, p, n)) ==>
            HashOf(h, index, hashTime, d, p, n) != HashOf(h, index, savedTime, d, p, n)
  {
    if HashInput(h, index, hashTime, d, p, n) == HashInput(h, index, savedTime, d, p, n) {
      var rest := h.json(d) + p + NatToString(n);
      assert HashInput(h, index, hashTime, d, p, n) == NatToString(index) + NatToString(hashTime) + rest;
      assert HashInput(h, index, savedTime, d, p, n) == NatToString(index) + NatToString(savedTime) + rest;
      CancelContext(NatToString(index), NatToString(hashTime), NatToString(savedTime), rest);
      NatToStringInjective(hashTime, savedTime);
    }
  }

  /**
   * A block as the Eloquent model holds it.  `index`, `data` and
   * `transactionId` are never reassigned once the block is built; mining
   * changes `nonce` and `hash`, repair changes `previousHash`, and the first
   * save stamps `createdAt`.  An unset hash is the empty string.
   */
  class Block {
    const index: nat
    const data: Payload
    const transactionId: Option<nat>
    var previousHash: string
    var nonce: nat
    var hash: string
    var createdAt: Option<nat>

    /** `new Block([...])`: an unsaved block, so created_at is still null. */
    constructor (index: nat, data: Payload, previousHash: string, hash: string, nonce: nat,
                 transactionId: Option<nat>)
      ensures this.index == index && this.data == data && this.transactionId == transactionId
      ensures this.previousHash == previousHash && this.hash == hash && this.nonce == nonce
      ensures createdAt == None
    {
      this.index := index;
      this.data := data;
      this.transactionId := transactionId;
      this.previousHash := previousHash;
      this.hash := hash;
      this.nonce := nonce;
      createdAt := None;
    }

    /** created_at's timestamp once saved, otherwise the current time. */
    function Timestamp(now: nat): (t: nat)
      reads this
      ensures createdAt.Some? ==> t == createdAt.value
      ensures createdAt.None? ==> t == now
    {
      match createdAt
      case Some(t) => t
      case None => now
    }

    /** The string calculateHash digests, without the nonce. */
    function Prefix(h: Hashing, now: nat): string
      reads this
    {
      HashPrefix(h, index, Timestamp(now), data, previousHash)
    }

    /** The string calculateHash digests for this block. */
    function Digested(h: Hashing, now: nat): string
      reads this
    {
      HashInput(h, index, Timestamp(now), data, previousHash, nonce)
    }

    /** calculateHash: the digest of the block's fields in the order index, timestamp, data, previous hash, nonce. */
    function CalculateHash(h: Hashing, now: nat): (r: string)
      reads this
      ensures r == h.sha256(Prefix(h, now) + NatToString(nonce))
    {
      HashOf(h, index, Timestamp(now), data, previousHash, nonce)
    }

    /**
     * isValid: the stored hash equals a fresh recomputation; once created_at
     * is set, the verdict no longer depends on the clock.
     */
    function IsValid(h: Hashing, now: nat): (r: bool)
      reads this
      ensures createdAt.Some? ==> (r <==> hash == HashOf(h, index, createdAt.value, data, previousHash, nonce))
      ensures createdAt.None? ==> (r <==> hash == HashOf(h, index, now, data, previousHash, nonce))
    {
      hash == CalculateHash(h, now)
    }

    /** getShortHash: substr(hash, 0, length) followed by "...". */
    function ShortHash(length: int): (r: string)
      reads this
      ensures |r| >= 3 && r[|r| - 3..] == "..."
      ensures 0 <= length <= |hash| ==> r == hash[..length] + "..."
      ensures length > |hash| ==> r == hash + "..."
    {
      Substr0(hash, length) + "..."
    }

    /**
     * mineBlock: tries nonce, nonce + 1, ... and stops at the first one whose
     * hash starts with `difficulty` zeros, then stores that hash.
     */
    method MineBlock(h: Hashing, difficulty: nat, now: nat)
      requires Minable(h, difficulty)
      modifies this`nonce, this`hash
      ensures old(nonce) <= nonce
      ensures forall n :: old(nonce) <= n < nonce ==> !NonceQualifies(h, difficulty, Prefix(h, now), n)
      ensures HasLeadingZeros(hash, difficulty)
      ensures hash == CalculateHash(h, now)
      ensures difficulty == 0 ==> nonce == old(nonce)
    {
      ghost var prefix := Prefix(h, now);
      assert QualifyingNonceFrom(h, difficulty, prefix, nonce);
      ghost var bound: nat :| nonce <= bound && NonceQualifies(h, difficulty, prefix, bound);
      while !HasLeadingZeros(CalculateHash(h, now), difficulty)
        invariant old(nonce) <= nonce <= bound
        invariant forall n :: old(nonce) <= n < nonce ==> !NonceQualifies(h, difficulty, prefix, n)
        invariant difficulty == 0 ==> nonce == old(nonce)
        decreases bound - nonce
      {
        nonce := nonce + 1;
      }
      hash := CalculateHash(h, now);
    }

    /**
     * createGenesisBlock: index 0, previous hash "0", nonce 0, the genesis
     * payload, hashed once without mining, then saved.
     */
    static method CreateGenesisBlock(h: Hashing, now: nat, table: BlockTable) returns (b: Block)
      requires table.Valid()
      modifies table
      ensures fresh(b)
      ensures b.index == 0 && b.previousHash == "0" && b.nonce == 0 && b.transactionId == None
      ensures b.data == GenesisData(GenesisMessage, now)
      ensures b.createdAt == Some(now)
      ensures b.hash == HashOf(h, 0, now, GenesisData(GenesisMessage, now), "0", 0)
      ensures b.IsValid(h, now)
      ensures table.Valid()
      ensures old(table.rows) == [] ==> table.rows == [b]
      ensures multiset(table.rows) == multiset(old(table.rows)) + multiset{b}
    {
      b := new Block(0, GenesisData(GenesisMessage, now), "0", "", 0, None);
      b.hash := b.CalculateHash(h, now);
      var _ := table.Insert(b, now);
    }
  }

  /** Every block at an earlier position has an index no larger. */
  predicate IndexSorted(rows: seq<Block>)
  {
    forall i, j :: 0 <= i < j < |rows| ==> rows[i].index <= rows[j].index
  }

  predicate Distinct(rows: seq<Block>)
  {
    forall i, j :: 0 <= i < j < |rows| ==> rows[i] != rows[j]
  }

  /** Placing b after every row with index not larger keeps the table sorted. */
  lemma InsertKeepsSorted(rows: seq<Block>, b: Block, p: nat)
    requires IndexSorted(rows)
    requires p <= |rows| && (p > 0 ==> rows[p - 1].index <= b.index)
    requires forall k :: p <= k < |rows| ==> b.index < rows[k].index
    ensures IndexSorted(rows[..p] + [b] + rows[p..])
    ensures forall k :: 0 <= k < p ==> rows[k].index <= b.index
  {
    var r := rows[..p] + [b] + rows[p..];
    forall k | 0 <= k < p
      ensures rows[k].index <= b.index
    {
      assert rows[k].index <= rows[p - 1].index;
    }
    forall i, j | 0 <= i < j < |r|
      ensures r[i].index <= r[j].index
    {
      var ri := if i < p then rows[i] else if i == p then b else rows[i - 1];
      var rj := if j < p then rows[j] else if j == p then b else rows[j - 1];
      assert r[i] == ri && r[j] == rj;
    }
  }

  /** Adding a block not yet in the table keeps it duplicate-free and adds exactly that block. */
  lemma InsertKeepsDistinct(rows: seq<Block>, b: Block, p: nat)
    requires Distinct(rows) && b !in rows && p <= |rows|
    ensures Distinct(rows[..p] + [b] + rows[p..])
    ensures multiset(rows[..p] + [b] + rows[p..]) == multiset(rows) + multiset{b}
  {
    var r := rows[..p] + [b] + rows[p..];
    forall i, j | 0 <= i < j < |r|
      ensures r[i] != r[j]
    {
      var ri := if i < p then rows[i] else if i == p then b else rows[i - 1];
      var rj := if j < p then rows[j] else if j == p then b else rows[j - 1];
      assert r[i] == ri && r[j] == rj;
    }
    assert rows == rows[..p] + rows[p..];
  }

  /**
   * The blocks table, listed in index order (rows of equal index in the order
   * they were inserted).  This is the order every `orderBy('index')` query
   * returns.
   */
  class BlockTable {
    var rows: seq<Block>

    ghost predicate Valid()
      reads this
    {
      IndexSorted(rows) && Distinct(rows)
    }

    constructor ()
      ensures Valid() && rows == []
    {
      rows := [];
    }

    /**
     * `save()` of a new block: stamps created_at with the current time and
     * adds the row after every row whose index is not larger.
     */
    method Insert(b: Block, now: nat) returns (position: nat)
      requires Valid() && b !in rows
      modifies this, b`createdAt
      ensures Valid()
      ensures b.createdAt == Some(now)
      ensures position <= |old(rows)|
      ensures rows == old(rows)[..position] + [b] + old(rows)[position..]
      ensures forall k :: 0 <= k < position ==> old(rows)[k].index <= b.index
      ensures forall k :: position <= k < |old(rows)| ==> b.index < old(rows)[k].index
      ensures multiset(rows) == multiset(old(rows)) + multiset{b}
    {
      b.createdAt := Some(now);
      position := |rows|;
      while position > 0 && rows[position - 1].index > b.index
        invariant 0 <= position <= |rows|
        invariant forall k :: position <= k < |rows| ==> b.index < rows[k].index
      {
        position := position - 1;
      }
      InsertKeepsSorted(rows, b, position);
      InsertKeepsDistinct(rows, b, position);
      rows := rows[..position] + [b] + rows[position..];
    }
  }
}
