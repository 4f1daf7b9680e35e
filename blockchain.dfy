/**
 * The `Chain` object: an append-only list of mined blocks, a pool of pending
 * transactions and the miner's configuration. Blocks are assembled by
 * `GenerateNewBlock`: reward transaction first, then the drained pool; the
 * header links to the previous header's fingerprint, carries the Merkle root
 * of the final transaction list and is sealed by proof of work.
 */
module Blockchain {
  import opened Types
  import opened Hex
  import opened Hashing
  import opened Merkle
  import opened Mining

  /** Sender of every block's reward transaction. */
  const ROOT_SENDER: string := "Root"

  /** The reward a new chain starts with. */
  const DEFAULT_REWARD: real := 100.0

  /**
   * `pre_hash` of a block generated on an empty chain: 64 ASCII zeros
   * (`GenesisIsZeros`), written as four quarters of 16.
   */
  const GENESIS_PRE_HASH: string := ZERO_QUARTER + ZERO_QUARTER + ZERO_QUARTER + ZERO_QUARTER
  const ZERO_QUARTER: string := "0000000000000000"

  /** The sentinel is exactly 64 `'0'`s, as `vec![48; 64]` read as text. */
  lemma GenesisIsZeros()
    ensures |GENESIS_PRE_HASH| == 64
    ensures forall i :: 0 <= i < 64 ==> GENESIS_PRE_HASH[i] == '0'
  {
    assert |ZERO_QUARTER| == 16;
    assert forall i :: 0 <= i < 16 ==> ZERO_QUARTER[i] == '0';
  }

  /** The transaction that pays the miner, always first in a block. */
  function RewardTransaction(minerAddr: string, reward: real): Transaction {
    Transaction(ROOT_SENDER, minerAddr, reward)
  }

  /** `last_hash` over a list of blocks: the sentinel when empty, else the last header's fingerprint. */
  function LastHashOf(hash: Hasher, blocks: seq<Block>): string {
    if blocks == [] then GENESIS_PRE_HASH else hash(HeaderValue(blocks[|blocks| - 1].header))
  }

  /** Whatever the chain holds, `last_hash` is 32 to 64 lower-case hex characters. */
  lemma LastHashShaped(hash: Hasher, blocks: seq<Block>)
    requires FingerprintShaped(hash)
    ensures var r := LastHashOf(hash, blocks);
      DIGEST_SIZE <= |r| <= 2 * DIGEST_SIZE && IsHexString(r)
  {
    if blocks == [] {
      GenesisIsZeros();
    }
  }

  /** `h` is accepted and no smaller nonce (with every other field the same) is. */
  predicate FirstAccepted(hash: Hasher, h: BlockHeader) {
    && Accepted(hash, h)
    && forall n: u32 :: n < h.nonce ==> !Accepted(hash, h.(nonce := n))
  }

  /** What every block the chain produces satisfies on its own. */
  predicate WellFormedBlock(hash: Hasher, minerAddr: string, b: Block) {
    && |b.transactions| > 0
    && b.transactions[0].sender == ROOT_SENDER
    && b.transactions[0].receiver == minerAddr
    && b.count == AsU32(|b.transactions|)
    && b.header.merkle == MerkleRoot(hash, b.transactions)
    && Accepted(hash, b.header)
  }

  /** Each block points at `last_hash` of the blocks before it. */
  predicate Linked(hash: Hasher, blocks: seq<Block>) {
    forall i :: 0 <= i < |blocks| ==> blocks[i].header.preHash == LastHashOf(hash, blocks[..i])
  }

  predicate WellFormedChain(hash: Hasher, minerAddr: string, blocks: seq<Block>) {
    && Linked(hash, blocks)
    && forall i :: 0 <= i < |blocks| ==> WellFormedBlock(hash, minerAddr, blocks[i])
  }

  /** A block can be appended to a linked list exactly when it points at the current last hash. */
  lemma LinkedAppend(hash: Hasher, blocks: seq<Block>, b: Block)
    ensures Linked(hash, blocks + [b])
        <==> Linked(hash, blocks) && b.header.preHash == LastHashOf(hash, blocks)
  {
    var extended := blocks + [b];
    assert extended[..|blocks|] == blocks;
    assert forall i :: 0 <= i < |blocks| ==> extended[i] == blocks[i] && extended[..i] == blocks[..i];
  }

  /** Appending a well-formed block that points at the last hash keeps the chain well formed. */
  lemma ChainExtends(hash: Hasher, minerAddr: string, blocks: seq<Block>, b: Block)
    requires WellFormedChain(hash, minerAddr, blocks)
    requires WellFormedBlock(hash, minerAddr, b)
    requires b.header.preHash == LastHashOf(hash, blocks)
    ensures WellFormedChain(hash, minerAddr, blocks + [b])
  {
    LinkedAppend(hash, blocks, b);
    var extended := blocks + [b];
    assert forall i :: 0 <= i < |blocks| ==> extended[i] == blocks[i];
  }

  /**
   * The chain-link invariant spelled out: the first block carries the
   * 64-zero sentinel, and every later block carries the fingerprint of the
   * header before it.
   */
  lemma LinkedMeansHashLinks(hash: Hasher, blocks: seq<Block>)
    requires Linked(hash, blocks)
    ensures |blocks| > 0 ==> blocks[0].header.preHash == GENESIS_PRE_HASH
    ensures forall i :: 0 < i < |blocks| ==>
      blocks[i].header.preHash == hash(HeaderValue(blocks[i - 1].header))
  {
    if |blocks| > 0 {
      assert blocks[..0] == [];
    }
    forall i | 0 < i < |blocks|
      ensures blocks[i].header.preHash == hash(HeaderValue(blocks[i - 1].header))
    {
      assert blocks[..i][i - 1] == blocks[i - 1];
    }
  }

  /**
   * `b` is the block `generate_new_block` builds from these inputs: the given
   * transactions, their count cast to `u32`, a header with their Merkle root,
   * and the first accepted nonce, found within `fuel` attempts.
   */
  predicate MinedFrom(hash: Hasher, b: Block, timestamp: i32, preHash: string, transactions: seq<Transaction>,
                      difficulty: u32, fuel: nat)
    requires |transactions| > 0
  {
    && b.transactions == transactions
    && b.count == AsU32(|transactions|)
    && b.header == BlockHeader(timestamp, b.header.nonce, preHash, MerkleRoot(hash, transactions), difficulty)
    && FirstAccepted(hash, b.header)
    && b.header.nonce < fuel
  }

  /** No nonce below `fuel` gets the header for these inputs accepted. */
  predicate NoNonceBelow(hash: Hasher, timestamp: i32, preHash: string, transactions: seq<Transaction>,
                         difficulty: u32, fuel: nat)
    requires |transactions| > 0
  {
    forall n: u32 :: n < fuel ==>
      !Accepted(hash, BlockHeader(timestamp, n, preHash, MerkleRoot(hash, transactions), difficulty))
  }

  /**
   * The stateless part of `generate_new_block`: count the transactions, put
   * their Merkle root in the header, then mine the header from nonce 0.
   * `found` is false exactly when no nonce below `fuel` is accepted.
   */
  method MineBlock(hash: Hasher, timestamp: i32, preHash: string, transactions: seq<Transaction>,
                   difficulty: u32, fuel: nat) returns (block: Block, found: bool)
    requires FingerprintShaped(hash)
    requires |transactions| > 0 && difficulty <= DIGEST_SIZE && fuel < U32_LIMIT
    ensures found ==> MinedFrom(hash, block, timestamp, preHash, transactions, difficulty, fuel)
    ensures !found ==> NoNonceBelow(hash, timestamp, preHash, transactions, difficulty, fuel)
  {
    var header := BlockHeader(timestamp, 0, preHash, "", difficulty);
    var count := AsU32(|transactions|);
    var merkle := GetMerkle(hash, transactions);
    var mined;
    mined, found := ProofOfWork(hash, header.(merkle := merkle), fuel);
    block := Block(mined, count, transactions);
  }

  /**
   * Appending a block mined on top of a well-formed chain, from the reward to
   * the miner followed by a pool, keeps the chain well formed and leaves the
   * earlier blocks in place.
   */
  lemma AppendMined(hash: Hasher, minerAddr: string, reward: real, pool: seq<Transaction>, blocks: seq<Block>,
                    block: Block, timestamp: i32, difficulty: u32, fuel: nat)
    requires WellFormedChain(hash, minerAddr, blocks)
    requires MinedFrom(hash, block, timestamp, LastHashOf(hash, blocks),
      [RewardTransaction(minerAddr, reward)] + pool, difficulty, fuel)
    ensures WellFormedChain(hash, minerAddr, blocks + [block])
    ensures (blocks + [block])[..|blocks|] == blocks && (blocks + [block])[|blocks|] == block
  {
    assert WellFormedBlock(hash, minerAddr, block);
    ChainExtends(hash, minerAddr, blocks, block);
    assert (blocks + [block])[..|blocks|] == blocks;
  }

  class Chain {
    var chain: seq<Block>
    var currTransaction: seq<Transaction>
    var difficulty: u32
    var minerAddr: string
    var reward: real
    /** `Chain::hash`: SHA-256 of the serialised value, rendered by `hex_to_string`. */
    const hash: Hasher

    ghost predicate Valid()
      reads this
    {
      FingerprintShaped(hash) && WellFormedChain(hash, minerAddr, chain)
    }

    /** The struct literal of `Chain::new`: no blocks, an empty pool, the default reward. */
    constructor Init(digest: Digest, minerAddr: string, difficulty: u32)
      requires Sha256Shaped(digest)
      ensures Valid()
      ensures hash == HashWith(digest) && this.minerAddr == minerAddr && this.difficulty == difficulty
      ensures chain == [] && currTransaction == [] && reward == DEFAULT_REWARD
    {
      this.hash := HashWith(digest);
      HashWithShaped(digest);
      this.chain := [];
      this.currTransaction := [];
      this.difficulty := difficulty;
      this.minerAddr := minerAddr;
      this.reward := DEFAULT_REWARD;
    }

    /**
     * `Chain::new`: set up the configuration, then generate the genesis block,
     * which holds only the reward transaction to the miner. `ok` is false
     * exactly when no nonce below `fuel` is accepted (where the source would
     * still be searching).
     */
    static method New(digest: Digest, minerAddr: string, difficulty: u32, timestamp: i32, fuel: nat)
      returns (c: Chain, ok: bool)
      requires Sha256Shaped(digest)
      requires difficulty <= DIGEST_SIZE
      requires fuel < U32_LIMIT
      ensures fresh(c) && c.Valid()
      ensures c.hash == HashWith(digest) && c.minerAddr == minerAddr && c.difficulty == difficulty
      ensures c.reward == DEFAULT_REWARD && c.currTransaction == []
      ensures ok ==> |c.chain| == 1 && c.chain[0].count == 1
      ensures ok ==> MinedFrom(c.hash, c.chain[0], timestamp, GENESIS_PRE_HASH,
        [RewardTransaction(minerAddr, DEFAULT_REWARD)], difficulty, fuel)
      ensures !ok ==> c.chain == []
      ensures !ok ==> NoNonceBelow(c.hash, timestamp, GENESIS_PRE_HASH,
        [RewardTransaction(minerAddr, DEFAULT_REWARD)], difficulty, fuel)
    {
      c := new Chain.Init(digest, minerAddr, difficulty);
      assert c.LastHash() == GENESIS_PRE_HASH;
      assert [RewardTransaction(minerAddr, DEFAULT_REWARD)] + c.currTransaction == [RewardTransaction(minerAddr, DEFAULT_REWARD)];
      ok := c.GenerateNewBlock(timestamp, fuel);
    }

    /** `last_hash`. */
    function LastHash(): (r: string)
      reads this
      ensures chain == [] ==> r == GENESIS_PRE_HASH
      ensures chain != [] ==> r == hash(HeaderValue(chain[|chain| - 1].header))
    {
      LastHashOf(hash, chain)
    }

    /**
     * `generate_new_block`: the reward transaction followed by the drained
     * pool becomes a block linked to the last header, with its Merkle root
     * taken before mining, and is appended once mined. `timestamp` is the
     * clock reading. `ok` is true exactly when some nonce below `fuel` is
     * accepted; otherwise no block is appended (the source would still be
     * searching, with the pool already drained).
     */
    method GenerateNewBlock(timestamp: i32, fuel: nat) returns (ok: bool)
      requires Valid()
      requires difficulty <= DIGEST_SIZE
      requires fuel < U32_LIMIT
      modifies this
      ensures Valid()
      ensures minerAddr == old(minerAddr) && difficulty == old(difficulty) && reward == old(reward)
      ensures currTransaction == []
      ensures ok ==> |chain| == |old(chain)| + 1 && chain[..|old(chain)|] == old(chain)
      ensures !ok ==> chain == old(chain)
      ensures ok ==> MinedFrom(hash, chain[|chain| - 1], timestamp, old(LastHash()),
        [RewardTransaction(old(minerAddr), old(reward))] + old(currTransaction), difficulty, fuel)
      ensures !ok ==> NoNonceBelow(hash, timestamp, old(LastHash()),
        [RewardTransaction(old(minerAddr), old(reward))] + old(currTransaction), difficulty, fuel)
    {
      var preHash := LastHash();
      var rewardTrans := RewardTransaction(minerAddr, reward);
      ghost var pool := currTransaction;
      var transactions := [rewardTrans] + currTransaction;
      currTransaction := [];
      var block, found := MineBlock(hash, timestamp, preHash, transactions, difficulty, fuel);
      if !found {
        return false;
      }
      AppendMined(hash, minerAddr, reward, pool, chain, block, timestamp, difficulty, fuel);
      chain := chain + [block];
      ok := true;
    }

    /** `new_transaction`: queue a transfer, unvalidated; only the pool changes. */
    method NewTransaction(sender: string, receiver: string, amount: real) returns (ok: bool)
      requires Valid()
      modifies this
      ensures Valid() && ok
      ensures currTransaction == old(currTransaction) + [Transaction(sender, receiver, amount)]
      ensures chain == old(chain) && difficulty == old(difficulty)
      ensures minerAddr == old(minerAddr) && reward == old(reward)
    {
      currTransaction := currTransaction + [Transaction(sender, receiver, amount)];
      ok := true;
    }

    /** `update_difficulty`: affects only blocks generated afterwards. */
    method UpdateDifficulty(newDifficulty: u32) returns (ok: bool)
      requires Valid()
      modifies this
      ensures Valid() && ok
      ensures difficulty == newDifficulty
      ensures chain == old(chain) && currTransaction == old(currTransaction)
      ensures minerAddr == old(minerAddr) && reward == old(reward)
    {
      difficulty := newDifficulty;
      ok := true;
    }

    /** `update_reward`: affects only blocks generated afterwards. */
    method UpdateReward(newReward: real) returns (ok: bool)
      requires Valid()
      modifies this
      ensures Valid() && ok
      ensures reward == newReward
      ensures chain == old(chain) && currTransaction == old(currTransaction)
      ensures minerAddr == old(minerAddr) && difficulty == old(difficulty)
    {
      reward := newReward;
      ok := true;
    }
  }

  /**
   * A caller's view: a new chain for "miner1", one queued transfer, a second
   * block. What the caller learns follows from the contracts alone.
   */
  method TwoBlocks(digest: Digest, timestamp: i32, fuel: nat)
    requires Sha256Shaped(digest)
    requires fuel < U32_LIMIT
  {
    var c, ok := Chain.New(digest, "miner1", 1, timestamp, fuel);
    if ok {
      assert c.chain[0].transactions == [Transaction("Root", "miner1", 100.0)];
      var queued := c.NewTransaction("A", "B", 10.0);
      var genesis := c.chain[0];
      var mined := c.GenerateNewBlock(timestamp, fuel);
      if mined {
        assert |c.chain| == 2 && c.chain[0] == genesis;
        assert c.chain[1].transactions == [Transaction("Root", "miner1", 100.0), Transaction("A", "B", 10.0)];
        assert c.chain[1].count == 2;
        assert c.chain[1].header.preHash == c.hash(HeaderValue(genesis.header));
        assert c.currTransaction == [];
      }
    }
  }
}
