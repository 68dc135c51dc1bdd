/** `Blockchain` of the UTXO ledger (`src/blockchain/blockchain.cpp`): the committed
    blocks, starting with a genesis block, and the block under construction that is
    linked to the last committed one. There is no whole-chain check in the source;
    linkage is an invariant every operation keeps (`Valid`). */
module Chain {
  import opened Results
  import opened Primitives
  import Crypto
  import ProofOfWork
  import Transactions
  import Blocks
  import Search

  type Block = Blocks.Block
  type Transaction = Transactions.Transaction

  datatype Blockchain = Blockchain(currentBlock: Block, blocks: seq<Block>, reward: int, difficulty: int)

  /** The `current_block` member before the constructor body runs (`Block ()` leaves
      it unset); the constructor always replaces it. */
  const Unset: Block := Blocks.Block(0, "", "", "", 0, 0, 0, [])

  /** verify_coinbase: the inputs hold exactly the reward and the transaction verifies
      as coinbase. */
  function VerifyCoinbase(env: Env, c: Blockchain, coinbase: Transaction): (r: bool)
    ensures r <==> c.reward == Transactions.InputTotal(coinbase.inputs) && Transactions.Verify(env, coinbase, true) == Success(true)
  {
    Blocks.CoinbaseValid(env, coinbase, c.reward)
  }

  /** The genesis block as create_genesis_block leaves it. */
  predicate GenesisBlock(env: Env, g: Block, coinbase: Transaction, difficulty: int) {
    && g.prevBlock == "genesis" && g.index == 0 && g.difficulty == difficulty
    && g.transactions == [Transactions.SetIndex(env, coinbase, 0)]
    && Blocks.VerifyHash(env, g) && Blocks.VerifyMerkelTree(env, g) && Blocks.IsMined(g)
  }

  /** create_genesis_block (`time` is the clock reading for the block, `fuel` bounds the
      nonce search): refused when blocks exist and when the coinbase is not acceptable
      for the reward; otherwise the block "genesis", 0 with the coinbase is mined and
      becomes the only block. */
  function CreateGenesisBlock(env: Env, c: Blockchain, coinbase: Transaction, time: int, fuel: nat): (r: Result<Blockchain>)
    ensures |c.blocks| > 0 ==> r == Failure(GenesisExists)
    ensures |c.blocks| == 0 && !VerifyCoinbase(env, c, coinbase) ==> r == Failure(InvalidCoinbase)
    ensures |c.blocks| == 0 && VerifyCoinbase(env, c, coinbase) && r.Failure? ==> r.error == MiningUnfinished
    ensures r.Success? ==>
      && r.value == c.(blocks := r.value.blocks)
      && |r.value.blocks| == 1
      && GenesisBlock(env, r.value.blocks[0], coinbase, c.difficulty)
  {
    if |c.blocks| > 0 then Failure(GenesisExists)
    else if !VerifyCoinbase(env, c, coinbase) then Failure(InvalidCoinbase)
    else
      var g0 := Blocks.New(env, "genesis", 0, c.difficulty, time);
      var g1 := Blocks.SetCoinbase(env, g0, coinbase).value;
      var g :- Blocks.Mine(env, g1, fuel);
      Success(c.(blocks := [g]))
  }

  /** create_block: a fresh empty block linked to the last committed block, numbered
      from where that block's transactions end. */
  function CreateBlock(env: Env, c: Blockchain, time: int): (r: Blockchain)
    requires |c.blocks| > 0
    ensures r == c.(currentBlock := r.currentBlock)
    ensures r.currentBlock == Blocks.New(env, c.blocks[|c.blocks| - 1].hash,
      c.blocks[|c.blocks| - 1].index + |c.blocks[|c.blocks| - 1].transactions|, c.difficulty, time)
    ensures CurrentLinked(r) && Blocks.Staged(env, r.currentBlock) && r.currentBlock.transactions == []
  {
    var last := c.blocks[|c.blocks| - 1];
    c.(currentBlock := Blocks.New(env, last.hash, last.index + |last.transactions|, c.difficulty, time))
  }

  /** The constructor: an empty chain with the difficulty and reward, the genesis block,
      then the first block under construction. */
  function New(env: Env, difficulty: int, reward: int, coinbase: Transaction, genesisTime: int, blockTime: int, fuel: nat)
    : (r: Result<Blockchain>)
    ensures !Blocks.CoinbaseValid(env, coinbase, reward) ==> r == Failure(InvalidCoinbase)
    ensures r.Failure? && Blocks.CoinbaseValid(env, coinbase, reward) ==> r.error == MiningUnfinished
    ensures r.Success? ==>
      && r.value.difficulty == difficulty && r.value.reward == reward
      && |r.value.blocks| == 1
      && GenesisBlock(env, r.value.blocks[0], coinbase, difficulty)
      && r.value.currentBlock.index == 1
      && r.value.currentBlock.prevBlock == r.value.blocks[0].hash
      && r.value.currentBlock.transactions == []
  {
    var c0 := Blockchain(Unset, [], reward, difficulty);
    var c1 := CreateGenesisBlock(env, c0, coinbase, genesisTime, fuel);
    if c1.Failure? then Failure(c1.error)
    else
      var r := CreateBlock(env, c1.value, blockTime);
      assert r.blocks == c1.value.blocks;
      Success(r)
  }

  /** add_transaction: the block under construction takes the transaction; the
      committed blocks are untouched. */
  function AddTransaction(env: Env, c: Blockchain, t: Transaction): (r: Result<Blockchain>)
    ensures r.Failure? <==> Blocks.AddTransaction(env, c.currentBlock, t).Failure?
    ensures r.Success? ==> r.value == c.(currentBlock := Blocks.AddTransaction(env, c.currentBlock, t).value)
  {
    var b :- Blocks.AddTransaction(env, c.currentBlock, t);
    Success(c.(currentBlock := b))
  }

  /** insert_block: the block under construction must pass verify(false, reward), or
      "Attempted pushing invalid block!" is thrown (an exception of that check
      propagates); otherwise it is appended and a fresh linked block replaces it. */
  function InsertBlock(env: Env, c: Blockchain, time: int): (r: Result<Blockchain>)
    ensures r.Failure? <==> Blocks.VerifyWithReward(env, c.currentBlock, false, c.reward) != Success(true)
    ensures Blocks.VerifyWithReward(env, c.currentBlock, false, c.reward) == Success(false) ==> r == Failure(InvalidBlock)
    ensures r.Success? ==>
      && r.value.blocks == c.blocks + [c.currentBlock]
      && r.value.reward == c.reward && r.value.difficulty == c.difficulty
      && CurrentLinked(r.value) && Blocks.Staged(env, r.value.currentBlock) && r.value.currentBlock.transactions == []
  {
    var ok :- Blocks.VerifyWithReward(env, c.currentBlock, false, c.reward);
    if !ok then Failure(InvalidBlock)
    else Success(CreateBlock(env, c.(blocks := c.blocks + [c.currentBlock]), time))
  }

  /** The block under construction after set_coinbase and mine_block. */
  function Sealed(env: Env, c: Blockchain, coinbase: Transaction, fuel: nat): Result<Block>
    requires VerifyCoinbase(env, c, coinbase)
  {
    Blocks.Mine(env, Blocks.SetCoinbase(env, c.currentBlock, coinbase).value, fuel)
  }

  /** mine_block: the coinbase is checked against the reward before anything changes;
      then it goes in front of the block under construction, the block is mined and
      inserted. */
  function MineBlock(env: Env, c: Blockchain, coinbase: Transaction, time: int, fuel: nat): (r: Result<Blockchain>)
    ensures !VerifyCoinbase(env, c, coinbase) ==> r == Failure(InvalidCoinbase)
    ensures r.Success? ==>
      && VerifyCoinbase(env, c, coinbase)
      && Sealed(env, c, coinbase, fuel).Success?
      && r.value.blocks == c.blocks + [Sealed(env, c, coinbase, fuel).value]
      && r.value.reward == c.reward && r.value.difficulty == c.difficulty
      && CurrentLinked(r.value) && Blocks.Staged(env, r.value.currentBlock)
  {
    if !VerifyCoinbase(env, c, coinbase) then Failure(InvalidCoinbase)
    else
      var m :- Sealed(env, c, coinbase, fuel);
      InsertBlock(env, c.(currentBlock := m), time)
  }

  /** Linkage of the committed blocks: each block after the first names the previous
      block's hash and is numbered from where the previous block's transactions end. */
  predicate Linked(blocks: seq<Block>) {
    forall i :: 0 < i < |blocks| ==>
      blocks[i].prevBlock == blocks[i - 1].hash
      && blocks[i].index == blocks[i - 1].index + |blocks[i - 1].transactions|
  }

  /** The block under construction is linked to the last committed block. */
  predicate CurrentLinked(c: Blockchain) {
    && |c.blocks| > 0
    && c.currentBlock.prevBlock == c.blocks[|c.blocks| - 1].hash
    && c.currentBlock.index == c.blocks[|c.blocks| - 1].index + |c.blocks[|c.blocks| - 1].transactions|
    && c.currentBlock.difficulty == c.difficulty
  }

  /** What every committed block satisfies: a genesis block "genesis", 0 that is mined,
      has a valid hash and holds the coinbase; later blocks passed verify(false, reward)
      when they were inserted. */
  predicate CommittedBlocks(env: Env, blocks: seq<Block>, reward: int) {
    && |blocks| > 0
    && blocks[0].prevBlock == "genesis" && blocks[0].index == 0
    && |blocks[0].transactions| == 1
    && Blocks.VerifyHash(env, blocks[0]) && Blocks.IsMined(blocks[0])
    && (forall i {:trigger Blocks.VerifyWithReward(env, blocks[i], false, reward)} :: 0 < i < |blocks| ==> Blocks.VerifyWithReward(env, blocks[i], false, reward) == Success(true))
  }

  predicate Committed(env: Env, c: Blockchain) {
    CommittedBlocks(env, c.blocks, c.reward)
  }

  lemma AppendCommitted(env: Env, blocks: seq<Block>, b: Block, reward: int)
    requires CommittedBlocks(env, blocks, reward)
    requires Blocks.VerifyWithReward(env, b, false, reward) == Success(true)
    ensures CommittedBlocks(env, blocks + [b], reward)
  {
    var r := blocks + [b];
    forall i | 0 < i < |r|
      ensures Blocks.VerifyWithReward(env, r[i], false, reward) == Success(true)
    {
      if i < |blocks| {
        assert r[i] == blocks[i];
      }
    }
  }

  lemma AppendLinked(blocks: seq<Block>, b: Block)
    requires Linked(blocks) && |blocks| > 0
    requires b.prevBlock == blocks[|blocks| - 1].hash
    requires b.index == blocks[|blocks| - 1].index + |blocks[|blocks| - 1].transactions|
    ensures Linked(blocks + [b])
  {
    var r := blocks + [b];
    forall i | 0 < i < |r|
      ensures r[i].prevBlock == r[i - 1].hash && r[i].index == r[i - 1].index + |r[i - 1].transactions|
    {
      assert r[i - 1] == blocks[i - 1];
      if i < |blocks| {
        assert r[i] == blocks[i];
      }
    }
  }

  /** The chain invariant. */
  predicate Valid(env: Env, c: Blockchain) {
    && Committed(env, c)
    && Linked(c.blocks)
    && CurrentLinked(c)
    && Blocks.Staged(env, c.currentBlock)
  }

  /** The constructor establishes the invariant. */
  lemma NewValid(env: Env, difficulty: int, reward: int, coinbase: Transaction, genesisTime: int, blockTime: int, fuel: nat)
    requires New(env, difficulty, reward, coinbase, genesisTime, blockTime, fuel).Success?
    ensures Valid(env, New(env, difficulty, reward, coinbase, genesisTime, blockTime, fuel).value)
  {
  }

  /** add_transaction keeps the invariant. */
  lemma AddTransactionValid(env: Env, c: Blockchain, t: Transaction)
    requires Valid(env, c)
    requires AddTransaction(env, c, t).Success?
    ensures Valid(env, AddTransaction(env, c, t).value)
  {
    Blocks.AddTransactionStaged(env, c.currentBlock, t);
  }

  /** insert_block keeps the committed part valid and linked: the block it appends is
      linked by CurrentLinked and verified by the check it passed. */
  lemma InsertBlockValid(env: Env, c: Blockchain, time: int)
    requires Committed(env, c) && Linked(c.blocks) && CurrentLinked(c)
    requires InsertBlock(env, c, time).Success?
    ensures Valid(env, InsertBlock(env, c, time).value)
  {
    AppendCommitted(env, c.blocks, c.currentBlock, c.reward);
    AppendLinked(c.blocks, c.currentBlock);
  }

  /** mine_block keeps the invariant. */
  lemma MineBlockValid(env: Env, c: Blockchain, coinbase: Transaction, time: int, fuel: nat)
    requires Valid(env, c)
    requires MineBlock(env, c, coinbase, time, fuel).Success?
    ensures Valid(env, MineBlock(env, c, coinbase, time, fuel).value)
  {
    var m := Sealed(env, c, coinbase, fuel).value;
    var sealed := c.(currentBlock := m);
    assert MineBlock(env, c, coinbase, time, fuel) == InsertBlock(env, sealed, time);
    assert CurrentLinked(sealed);
    InsertBlockValid(env, sealed, time);
  }

  /** Block indices along a valid chain: genesis is 0, each block starts after the
      previous one ends, so indices are strictly increasing. */
  lemma {:induction false} IndicesIncrease(env: Env, c: Blockchain, i: int, j: int)
    requires Valid(env, c)
    requires 0 <= i < j < |c.blocks|
    ensures c.blocks[i].index < c.blocks[j].index
    decreases j - i
  {
    NonEmpty(env, c, j - 1);
    if j > i + 1 {
      IndicesIncrease(env, c, i, j - 1);
    }
  }

  /** Every committed block holds at least one transaction. */
  lemma NonEmpty(env: Env, c: Blockchain, i: int)
    requires Committed(env, c)
    requires 0 <= i < |c.blocks|
    ensures |c.blocks[i].transactions| > 0
  {
    if i > 0 {
      assert Blocks.VerifyWithReward(env, c.blocks[i], false, c.reward) == Success(true);
    }
  }

  /** Every committed block's index is non-negative. */
  lemma {:induction false} IndexNonNegative(env: Env, c: Blockchain, i: int)
    requires Valid(env, c)
    requires 0 <= i < |c.blocks|
    ensures c.blocks[i].index >= 0
  {
    if i > 0 {
      IndicesIncrease(env, c, 0, i);
    }
  }

  /** The block under construction has a positive index and a non-empty previous
      hash, as verify(false, reward) demands. */
  lemma CurrentReady(env: Env, c: Blockchain)
    requires Valid(env, c)
    ensures c.currentBlock.index > 0 && c.currentBlock.prevBlock != ""
  {
    var n := |c.blocks| - 1;
    IndexNonNegative(env, c, n);
    NonEmpty(env, c, n);
    if n > 0 {
      assert Blocks.VerifyWithReward(env, c.blocks[n], false, c.reward) == Success(true);
    }
    assert Blocks.VerifyHash(env, c.blocks[n]);
    assert |c.blocks[n].hash| == 64;
  }

  /** With a positive difficulty, mine_block on a valid chain and a coinbase acceptable
      for the reward succeeds whenever the nonce search finishes: the block it builds
      passes verify(false, reward). */
  lemma MineBlockSucceeds(env: Env, c: Blockchain, coinbase: Transaction, time: int, fuel: nat)
    requires Valid(env, c) && c.difficulty > 0
    requires VerifyCoinbase(env, c, coinbase)
    requires Sealed(env, c, coinbase, fuel).Success?
    ensures MineBlock(env, c, coinbase, time, fuel).Success?
  {
    CurrentReady(env, c);
    Blocks.MinedStagedBlockVerifies(env, c.currentBlock, coinbase, c.reward, fuel);
  }

  /** With a difficulty of zero or less nothing is ever committed after genesis: the
      block under construction carries the chain's difficulty, and block verification
      rejects it. */
  lemma NonPositiveDifficultyBlocksInsert(env: Env, c: Blockchain, coinbase: Transaction, time: int, fuel: nat)
    requires Valid(env, c) && c.difficulty <= 0
    ensures InsertBlock(env, c, time).Failure?
    ensures MineBlock(env, c, coinbase, time, fuel).Failure?
  {
    if VerifyCoinbase(env, c, coinbase) && Sealed(env, c, coinbase, fuel).Success? {
      var m := Sealed(env, c, coinbase, fuel).value;
      assert m.difficulty == c.currentBlock.difficulty;
    }
  }

  /** A difficulty of zero does not stop the constructor: genesis is mined at once. */
  lemma ZeroDifficultyNewSucceeds(env: Env, reward: int, coinbase: Transaction, genesisTime: int, blockTime: int, fuel: nat)
    requires Blocks.CoinbaseValid(env, coinbase, reward)
    ensures New(env, 0, reward, coinbase, genesisTime, blockTime, fuel).Success?
  {
    var c0 := Blockchain(Unset, [], reward, 0);
    var g1 := Blocks.SetCoinbase(env, Blocks.New(env, "genesis", 0, 0, genesisTime), coinbase).value;
    assert Blocks.IsMined(g1);
  }

  /** Committed, linked blocks have the shape the search relies on. */
  lemma ValidContiguous(env: Env, c: Blockchain)
    requires Committed(env, c) && Linked(c.blocks)
    ensures Search.Contiguous(c.blocks)
  {
    forall i | 0 <= i < |c.blocks|
      ensures |c.blocks[i].transactions| > 0
    {
      NonEmpty(env, c, i);
    }
  }

  /** binary_search over the committed blocks of a chain finds every transaction they
      hold; the invariant parts it needs are that the blocks are committed and linked. */
  lemma SearchCommitted(env: Env, c: Blockchain, txIndex: int, j: int)
    requires Committed(env, c) && Linked(c.blocks)
    requires 0 <= j < |c.blocks| && Search.Holds(c.blocks[j], txIndex)
    ensures Search.Contiguous(c.blocks) && Search.Covers(c.blocks, 0, |c.blocks|, txIndex)
    ensures Search.BinarySearch(c.blocks, 0, |c.blocks|, txIndex) == c.blocks[j].transactions[txIndex - c.blocks[j].index]
  {
    var blocks := c.blocks;
    assert Search.Contiguous(blocks) by {
      ValidContiguous(env, c);
    }
    Search.BinarySearchFinds(blocks, 0, |blocks|, txIndex, j);
  }
}
