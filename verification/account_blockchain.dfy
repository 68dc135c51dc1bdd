/** `Blockchain` of the account-style prototype (`src/blockchain.cpp`): a genesis block,
    the committed blocks, and the block under construction, numbered by position and
    linked by hash. Unlike the UTXO ledger it has a whole-chain `verify`. */
module AccountChain {
  import opened Results
  import opened Primitives
  import Crypto
  import Tx = AccountTransactions
  import AccountBlocks

  type Block = AccountBlocks.Block

  datatype Blockchain = Blockchain(genesisBlock: Block, currentBlock: Block, blocks: seq<Block>, difficulty: int)

  /** The genesis block as create_genesis_block builds it: id 0, previous hash "a",
      difficulty 1 whatever the chain's difficulty, no transactions, mined. */
  predicate GenesisBlock(env: Env, g: Block) {
    && g.id == 0 && g.prevHash == "a" && g.difficulty == 1 && g.transactions == []
    && AccountBlocks.VerifyHash(env, g) && AccountBlocks.IsMined(g)
  }

  /** create_genesis_block: Block(0, "a", 1), mined (`fuel` bounds the nonce search). */
  function CreateGenesisBlock(env: Env, fuel: nat): (r: Result<Block>)
    ensures r.Failure? ==> r.error == MiningUnfinished
    ensures r.Success? ==> GenesisBlock(env, r.value)
  {
    AccountBlocks.Mine(env, AccountBlocks.New(env, 0, "a", 1), fuel)
  }

  /** The constructor: the genesis block is the only committed block, and block 1,
      linked to it and carrying the chain's difficulty, is under construction. */
  function New(env: Env, difficulty: int, fuel: nat): (r: Result<Blockchain>)
    ensures r.Failure? ==> r.error == MiningUnfinished
    ensures r.Success? ==>
      && r.value.blocks == [r.value.genesisBlock]
      && GenesisBlock(env, r.value.genesisBlock)
      && r.value.difficulty == difficulty
      && r.value.currentBlock == AccountBlocks.New(env, 1, r.value.genesisBlock.hash, difficulty)
  {
    var g :- CreateGenesisBlock(env, fuel);
    Success(Blockchain(g, AccountBlocks.New(env, 1, g.hash, difficulty), [g], difficulty))
  }

  /** insert_current_block: a block under construction whose verify() is false is
      refused with "Attempted to insert invalid block to blockchain!", and an exception
      of verify() propagates; otherwise it is appended, and a fresh block numbered by
      the new count of blocks and linked to the appended one replaces it. */
  function InsertCurrentBlock(env: Env, c: Blockchain): (r: Result<Blockchain>)
    ensures r.Failure? <==> AccountBlocks.Verify(env, c.currentBlock) != Success(true)
    ensures AccountBlocks.Verify(env, c.currentBlock) == Success(false) ==> r == Failure(InvalidBlock)
    ensures r.Success? ==>
      && r.value.blocks == c.blocks + [c.currentBlock]
      && r.value.genesisBlock == c.genesisBlock && r.value.difficulty == c.difficulty
      && r.value.currentBlock == AccountBlocks.New(env, |c.blocks| + 1, c.currentBlock.hash, c.difficulty)
  {
    var ok :- AccountBlocks.Verify(env, c.currentBlock);
    if !ok then Failure(InvalidBlock)
    else
      var blocks := c.blocks + [c.currentBlock];
      Success(c.(blocks := blocks, currentBlock := AccountBlocks.New(env, |blocks|, blocks[|blocks| - 1].hash, c.difficulty)))
  }

  /** add_transaction: the block under construction takes the transaction; nothing
      else changes. */
  function AddTransaction(env: Env, c: Blockchain, t: Tx.Transaction): (r: Result<Blockchain>)
    ensures r.Failure? <==> AccountBlocks.AddTransaction(env, c.currentBlock, t).Failure?
    ensures r.Success? ==> r.value == c.(currentBlock := AccountBlocks.AddTransaction(env, c.currentBlock, t).value)
  {
    var b :- AccountBlocks.AddTransaction(env, c.currentBlock, t);
    Success(c.(currentBlock := b))
  }

  /** mine_block: the block under construction is mined, then inserted. */
  function MineBlock(env: Env, c: Blockchain, fuel: nat): (r: Result<Blockchain>)
    ensures AccountBlocks.Mine(env, c.currentBlock, fuel).Failure? ==> r == Failure(MiningUnfinished)
    ensures r.Success? ==>
      && AccountBlocks.Mine(env, c.currentBlock, fuel).Success?
      && r == InsertCurrentBlock(env, c.(currentBlock := AccountBlocks.Mine(env, c.currentBlock, fuel).value))
  {
    var m :- AccountBlocks.Mine(env, c.currentBlock, fuel);
    InsertCurrentBlock(env, c.(currentBlock := m))
  }

  /** Block `j` checked against block `j - 1`, as the loop of verify does. */
  function CheckAt(env: Env, blocks: seq<Block>, j: int): Result<bool>
    requires 0 < j < |blocks|
  {
    AccountBlocks.VerifyLinked(env, blocks[j], blocks[j - 1].hash, blocks[j - 1].id)
  }

  /** The outcome of each pass of the loop of verify, block 1 onwards, in order. */
  function Checks(env: Env, blocks: seq<Block>): (r: seq<Result<bool>>)
    requires |blocks| > 0
    ensures |r| == |blocks| - 1
    ensures forall j {:trigger CheckAt(env, blocks, j)} :: 0 < j < |blocks| ==> r[j - 1] == CheckAt(env, blocks, j)
  {
    seq(|blocks| - 1, k requires 0 <= k < |blocks| - 1 => CheckAt(env, blocks, k + 1))
  }

  /** The loop of verify from pass `i` on: a block that fails only clears the flag, the
      scan goes on, and the first exception met propagates. */
  function Scan(checks: seq<Result<bool>>, i: int): (r: Result<bool>)
    requires 0 <= i <= |checks|
    ensures r == Success(true) <==> forall k :: i <= k < |checks| ==> checks[k] == Success(true)
    ensures r.Failure? <==> exists k :: i <= k < |checks| && checks[k].Failure?
    decreases |checks| - i
  {
    if i == |checks| then Success(true)
    else
      var ok :- checks[i];
      var rest :- Scan(checks, i + 1);
      Success(ok && rest)
  }

  /** verify: a positive difficulty, and every block after genesis verifies against
      its predecessor's hash and id. The genesis block itself is never checked, and the
      difficulty test does not stop the scan. `blocks.begin() + 1` needs a block. */
  function Verify(env: Env, c: Blockchain): (r: Result<bool>)
    requires |c.blocks| > 0
    ensures r == Success(true) <==>
      && c.difficulty > 0
      && forall j {:trigger CheckAt(env, c.blocks, j)} :: 1 <= j < |c.blocks| ==> CheckAt(env, c.blocks, j) == Success(true)
    ensures r.Failure? <==>
      exists j {:trigger CheckAt(env, c.blocks, j)} :: 1 <= j < |c.blocks| && CheckAt(env, c.blocks, j).Failure?
  {
    var difficultyOk := c.difficulty > 0;
    var blocksOk :- Scan(Checks(env, c.blocks), 0);
    Success(difficultyOk && blocksOk)
  }

  /** Only the hash and id of the genesis block matter to verify. */
  lemma GenesisUnchecked(env: Env, c: Blockchain, g: Block)
    requires |c.blocks| > 0 && g.hash == c.blocks[0].hash && g.id == c.blocks[0].id
    ensures Verify(env, c.(blocks := [g] + c.blocks[1..])) == Verify(env, c)
  {
    var other := [g] + c.blocks[1..];
    forall j | 0 < j < |other|
      ensures CheckAt(env, other, j) == CheckAt(env, c.blocks, j)
    {
      assert other[j] == c.blocks[j];
      if j > 1 {
        assert other[j - 1] == c.blocks[j - 1];
      }
    }
    assert Checks(env, other) == Checks(env, c.blocks);
  }

  /** What the block under construction keeps between add_transaction calls: it
      carries the chain's difficulty, a valid hash, and only valid transactions. */
  predicate Ready(env: Env, c: Blockchain) {
    && c.currentBlock.difficulty == c.difficulty
    && AccountBlocks.VerifyHash(env, c.currentBlock)
    && forall k {:trigger Tx.Verify(env, c.currentBlock.transactions[k])} ::
      0 <= k < |c.currentBlock.transactions| ==> Tx.Verify(env, c.currentBlock.transactions[k]) == Success(true)
  }

  /** Numbering and linkage of the committed blocks: block i has id i and names the
      hash of block i - 1. */
  predicate Linked(blocks: seq<Block>) {
    && (forall i :: 0 <= i < |blocks| ==> blocks[i].id == i)
    && (forall i :: 0 < i < |blocks| ==> blocks[i].prevHash == blocks[i - 1].hash)
  }

  /** The chain invariant: the genesis block comes first and is mined with a valid
      hash; every later block passed verify() when it was inserted; the blocks are
      numbered and linked; the block under construction comes next in both. */
  predicate Inv(env: Env, c: Blockchain) {
    && |c.blocks| > 0
    && c.blocks[0] == c.genesisBlock
    && GenesisBlock(env, c.genesisBlock)
    && (forall i {:trigger AccountBlocks.Verify(env, c.blocks[i])} ::
          0 < i < |c.blocks| ==> AccountBlocks.Verify(env, c.blocks[i]) == Success(true))
    && Linked(c.blocks)
    && c.currentBlock.id == |c.blocks|
    && c.currentBlock.prevHash == c.blocks[|c.blocks| - 1].hash
    && Ready(env, c)
  }

  /** The constructor establishes the invariant. */
  lemma NewInv(env: Env, difficulty: int, fuel: nat)
    requires New(env, difficulty, fuel).Success?
    ensures Inv(env, New(env, difficulty, fuel).value)
  {
  }

  /** add_transaction keeps the invariant. */
  lemma AddTransactionInv(env: Env, c: Blockchain, t: Tx.Transaction)
    requires Inv(env, c)
    requires AddTransaction(env, c, t).Success?
    ensures Inv(env, AddTransaction(env, c, t).value)
  {
    var r := AddTransaction(env, c, t).value;
    var txs := r.currentBlock.transactions;
    forall k | 0 <= k < |txs|
      ensures Tx.Verify(env, txs[k]) == Success(true)
    {
      if k < |c.currentBlock.transactions| {
        assert txs[k] == c.currentBlock.transactions[k];
      }
    }
  }

  lemma AppendLinked(blocks: seq<Block>, b: Block)
    requires Linked(blocks) && |blocks| > 0
    requires b.id == |blocks| && b.prevHash == blocks[|blocks| - 1].hash
    ensures Linked(blocks + [b])
  {
    var r := blocks + [b];
    forall i | 0 < i < |r|
      ensures r[i].prevHash == r[i - 1].hash
    {
      assert r[i - 1] == blocks[i - 1];
      if i < |blocks| {
        assert r[i] == blocks[i];
      }
    }
    forall i | 0 <= i < |r|
      ensures r[i].id == i
    {
      if i < |blocks| {
        assert r[i] == blocks[i];
      }
    }
  }

  /** insert_current_block keeps the invariant. */
  lemma InsertCurrentBlockInv(env: Env, c: Blockchain)
    requires Inv(env, c)
    requires InsertCurrentBlock(env, c).Success?
    ensures Inv(env, InsertCurrentBlock(env, c).value)
  {
    var r := InsertCurrentBlock(env, c).value;
    AppendLinked(c.blocks, c.currentBlock);
    forall i | 0 < i < |r.blocks|
      ensures AccountBlocks.Verify(env, r.blocks[i]) == Success(true)
    {
      if i < |c.blocks| {
        assert r.blocks[i] == c.blocks[i];
      }
    }
    assert r.blocks[0] == c.blocks[0];
  }

  /** Mining changes only the nonce and hash of the block under construction, so the
      invariant is kept as far as the committed blocks are concerned. */
  lemma MineBlockInv(env: Env, c: Blockchain, fuel: nat)
    requires Inv(env, c)
    requires MineBlock(env, c, fuel).Success?
    ensures Inv(env, MineBlock(env, c, fuel).value)
  {
    var m := AccountBlocks.Mine(env, c.currentBlock, fuel).value;
    var sealed := c.(currentBlock := m);
    assert m.transactions == c.currentBlock.transactions;
    assert Inv(env, sealed) by {
      if m.nonce == c.currentBlock.nonce {
        assert m == c.currentBlock;
      }
    }
    InsertCurrentBlockInv(env, sealed);
  }

  /** Every hash in the chain is a sha256 rendering, hence not empty. */
  lemma HashesNonEmpty(env: Env, c: Blockchain, i: int)
    requires Inv(env, c) && 0 <= i < |c.blocks|
    ensures c.blocks[i].hash != ""
  {
    if i > 0 {
      assert AccountBlocks.Verify(env, c.blocks[i]) == Success(true);
    }
    assert |c.blocks[i].hash| == 64;
  }

  /** With a positive difficulty, mine_block on a chain satisfying the invariant
      succeeds whenever the nonce search finishes. */
  lemma MineBlockSucceeds(env: Env, c: Blockchain, fuel: nat)
    requires Inv(env, c) && c.difficulty > 0
    requires AccountBlocks.Mine(env, c.currentBlock, fuel).Success?
    ensures MineBlock(env, c, fuel).Success?
  {
    HashesNonEmpty(env, c, |c.blocks| - 1);
    AccountBlocks.MinedBlockVerifies(env, c.currentBlock, fuel);
  }

  /** With a difficulty of zero or less the constructor still succeeds (genesis is
      mined at difficulty 1), but no block is ever inserted after it. */
  lemma NonPositiveDifficultyBlocksInsert(env: Env, c: Blockchain, fuel: nat)
    requires Inv(env, c) && c.difficulty <= 0
    ensures InsertCurrentBlock(env, c).Failure?
    ensures MineBlock(env, c, fuel).Failure?
  {
    if AccountBlocks.Mine(env, c.currentBlock, fuel).Success? {
      var m := AccountBlocks.Mine(env, c.currentBlock, fuel).value;
      assert m.difficulty == c.difficulty;
    }
  }

  /** The invariant together with a positive difficulty makes verify succeed: any chain
      built by the constructor, add_transaction and mine_block passes its own audit. */
  lemma InvVerifies(env: Env, c: Blockchain)
    requires Inv(env, c) && c.difficulty > 0
    ensures Verify(env, c) == Success(true)
  {
    forall j | 1 <= j < |c.blocks|
      ensures CheckAt(env, c.blocks, j) == Success(true)
    {
      assert AccountBlocks.Verify(env, c.blocks[j]) == Success(true);
      assert c.blocks[j].id == j && c.blocks[j - 1].id == j - 1;
    }
  }
}
