/** `Block` of the UTXO ledger (`src/blockchain/block.cpp`): a coinbase at position 0
    followed by regular transactions, the Merkle root over them, a link to the previous
    block, and a nonce searched until the hash meets the difficulty. */
module Blocks {
  import opened Results
  import opened Primitives
  import Crypto
  import ProofOfWork
  import Outputs
  import Inputs
  import Transactions

  type Transaction = Transactions.Transaction

  datatype Block = Block(
    difficulty: int,
    hash: string,
    prevBlock: string,
    merkelTree: string,
    time: int,
    nonce: int,
    index: int,
    transactions: seq<Transaction>)

  /** to_string(is_hash): prev_block, merkel_tree, time, nonce and index; the form
      without `is_hash` puts the block's own hash in front. */
  function ToString(env: Env, b: Block, isHash: bool): string {
    (if isHash then "" else b.hash)
    + b.prevBlock + b.merkelTree + env.showInt(b.time) + env.showInt(b.nonce) + env.showInt(b.index)
  }

  /** The hash preimage leaves out the hash itself and the difficulty, and sees the
      transactions only through the Merkle root. */
  lemma PreimageFields(env: Env, b: Block, hash: string, difficulty: int, txs: seq<Transaction>)
    ensures ToString(env, b, false) == b.hash + ToString(env, b, true)
    ensures ToString(env, b.(hash := hash, difficulty := difficulty, transactions := txs), true) == ToString(env, b, true)
  {
  }

  predicate VerifyHash(env: Env, b: Block) {
    b.hash == Crypto.Sha256(env, ToString(env, b, true))
  }

  /** calculate_hash: only the hash changes, and afterwards it verifies. */
  function CalculateHash(env: Env, b: Block): (r: Block)
    ensures VerifyHash(env, r)
    ensures r == b.(hash := r.hash)
  {
    b.(hash := Crypto.Sha256(env, ToString(env, b, true)))
  }

  /** The `to_string()` of every transaction, in order: what the leaves are built from. */
  function Serialised(env: Env, txs: seq<Transaction>): (r: seq<string>)
    ensures |r| == |txs|
  {
    seq(|txs|, k requires 0 <= k < |txs| => Transactions.ToString(env, txs[k]))
  }

  /** Serialisation `j` when it exists, and nothing past the end. */
  function Partner(ser: seq<string>, j: int): string
    requires 0 <= j
  {
    if j < |ser| then ser[j] else ""
  }

  /** The leaves of calculate_merkel_tree, leaf by leaf: leaf k hashes transaction 2k's
      serialisation followed by transaction 2k + 1's; a last transaction without a
      partner is hashed alone. Unlike a round of the Merkle reduction, which hashes the
      FIRST node of an odd level alone, the leaf step leaves the LAST transaction alone. */
  function MerkleLeaves(env: Env, ser: seq<string>): seq<string> {
    seq((|ser| + 1) / 2, k requires 0 <= k < (|ser| + 1) / 2 => Crypto.Sha256(env, ser[2 * k] + Partner(ser, 2 * k + 1)))
  }

  /** What the loop hashes for the pair starting at transaction 2k is leaf k. */
  lemma LeafOfRaw(env: Env, ser: seq<string>, k: int, raw: string)
    requires 0 <= 2 * k < |ser|
    requires raw == ser[2 * k] + (if 2 * k + 1 < |ser| then ser[2 * k + 1] else "")
    ensures k < |MerkleLeaves(env, ser)| && MerkleLeaves(env, ser)[k] == Crypto.Sha256(env, raw)
  {
  }

  /** The iterator loop of calculate_merkel_tree, which sees each transaction only
      through its `to_string()` (`ser`, one entry per transaction): stepping two at a
      time, it pushes exactly the leaves above, in order. */
  method CalculateLeaves(env: Env, ser: seq<string>) returns (tree: seq<string>)
    ensures tree == MerkleLeaves(env, ser)
  {
    ghost var leaves := MerkleLeaves(env, ser);
    tree := [];
    var i := 0;
    while i < |ser|
      invariant 0 <= i == 2 * |tree| && |tree| <= |leaves|
      invariant i < |ser| ==> |tree| < |leaves|
      invariant i >= |ser| ==> |tree| == |leaves|
      invariant tree == leaves[..|tree|]
      decreases |ser| - i
    {
      var raw := ser[i];
      if i + 1 < |ser| {
        raw := raw + ser[i + 1];
      } else {
        assert raw == raw + "";
      }
      LeafOfRaw(env, ser, |tree|, raw);
      TakeOneMore(leaves, |tree|);
      tree := tree + [Crypto.Sha256(env, raw)];
      i := i + 2;
    }
    assert tree == leaves;
  }

  function MerkleRootOf(env: Env, txs: seq<Transaction>): string
    requires |txs| > 0
  {
    Crypto.MerkleRoot(env, MerkleLeaves(env, Serialised(env, txs)))
  }

  /** verify_merkel_tree: false on a block without transactions; otherwise the stored
      root must be the root over the leaves. */
  predicate VerifyMerkelTree(env: Env, b: Block) {
    |b.transactions| > 0 && b.merkelTree == MerkleRootOf(env, b.transactions)
  }

  /** calculate_merkel_tree: a block without transactions keeps its root; otherwise the
      root is recomputed and verifies. Only the root changes. */
  function CalculateMerkelTree(env: Env, b: Block): (r: Block)
    ensures |b.transactions| == 0 ==> r == b
    ensures |b.transactions| > 0 ==> VerifyMerkelTree(env, r)
    ensures r == b.(merkelTree := r.merkelTree)
  {
    if |b.transactions| > 0 then b.(merkelTree := MerkleRootOf(env, b.transactions)) else b
  }

  /** calculate_merkel_tree followed by calculate_hash, as every mutator ends. */
  function Rehash(env: Env, b: Block): (r: Block)
    ensures |b.transactions| > 0 ==> VerifyMerkelTree(env, r)
    ensures VerifyHash(env, r)
    ensures r == b.(merkelTree := r.merkelTree, hash := r.hash)
  {
    CalculateHash(env, CalculateMerkelTree(env, b))
  }

  /** The constructor without a coinbase (`time` is the clock reading): no
      transactions, nonce 0, the Merkle root left empty, a valid hash. Its Merkle check
      fails, as that of every empty block does. */
  function New(env: Env, prevBlock: string, index: int, difficulty: int, time: int): (r: Block)
    ensures r.prevBlock == prevBlock && r.index == index && r.difficulty == difficulty && r.time == time
    ensures r.nonce == 0 && r.transactions == [] && r.merkelTree == ""
    ensures VerifyHash(env, r) && !VerifyMerkelTree(env, r)
  {
    Rehash(env, Block(difficulty, "", prevBlock, "", time, 0, index, []))
  }

  /** The constructor with a coinbase: the coinbase is stored as given (neither checked
      nor re-indexed), and the Merkle root and the hash verify. */
  function NewWithCoinbase(env: Env, prevBlock: string, index: int, coinbase: Transaction, difficulty: int, time: int)
    : (r: Block)
    ensures r.prevBlock == prevBlock && r.index == index && r.difficulty == difficulty && r.time == time
    ensures r.nonce == 0 && r.transactions == [coinbase]
    ensures VerifyHash(env, r) && VerifyMerkelTree(env, r)
  {
    Rehash(env, Block(difficulty, "", prevBlock, "", time, 0, index, [coinbase]))
  }

  /** add_transaction: a transaction that does not verify as regular is refused (its
      exception propagates, a `false` becomes "Attempted adding an invalid transaction");
      otherwise it is re-indexed to index + |transactions| + 1 and appended, and the
      root and the hash are recomputed. */
  function AddTransaction(env: Env, b: Block, t: Transaction): (r: Result<Block>)
    ensures r.Failure? <==> Transactions.Verify(env, t, false) != Success(true)
    ensures Transactions.Verify(env, t, false) == Success(false) ==> r == Failure(InvalidTransaction)
    ensures Transactions.Verify(env, t, false).Failure? ==> r == Failure(Transactions.Verify(env, t, false).error)
    ensures r.Success? ==>
      && r.value.transactions == b.transactions + [Transactions.SetIndex(env, t, b.index + |b.transactions| + 1)]
      && r.value == b.(transactions := r.value.transactions, merkelTree := r.value.merkelTree, hash := r.value.hash)
      && VerifyHash(env, r.value) && VerifyMerkelTree(env, r.value)
  {
    var ok :- Transactions.Verify(env, t, false);
    if !ok then Failure(InvalidTransaction)
    else
      var t' := Transactions.SetIndex(env, t, b.index + |b.transactions| + 1);
      Success(Rehash(env, b.(transactions := b.transactions + [t'])))
  }

  /** set_coinbase: a transaction that does not verify as coinbase is refused (that
      check never throws); otherwise it is re-indexed to the block's index and inserted
      at position 0, every other transaction moving one place right. */
  function SetCoinbase(env: Env, b: Block, coinbase: Transaction): (r: Result<Block>)
    ensures r.Failure? <==> Transactions.Verify(env, coinbase, true) == Success(false)
    ensures r.Failure? ==> r.error == InvalidCoinbase
    ensures r.Success? ==>
      && |r.value.transactions| == |b.transactions| + 1
      && r.value.transactions[0] == Transactions.SetIndex(env, coinbase, b.index)
      && (forall p :: 0 <= p < |b.transactions| ==> r.value.transactions[p + 1] == b.transactions[p])
      && r.value == b.(transactions := r.value.transactions, merkelTree := r.value.merkelTree, hash := r.value.hash)
      && VerifyHash(env, r.value) && VerifyMerkelTree(env, r.value)
  {
    if Transactions.Verify(env, coinbase, true) != Success(true) then Failure(InvalidCoinbase)
    else
      var txs := [Transactions.SetIndex(env, coinbase, b.index)] + b.transactions;
      assert forall p :: 0 <= p < |b.transactions| ==> txs[p + 1] == b.transactions[p];
      var r := Rehash(env, b.(transactions := txs));
      assert r.transactions == txs;
      Success(r)
  }

  /** The loop of verify_transactions from position `p`: each transaction must verify
      as regular and carry index + its position; the first failure gives `false`, an
      exception propagates. */
  function VerifyTransactionsFrom(env: Env, txs: seq<Transaction>, index: int, p: nat): (r: Result<bool>)
    requires p <= |txs|
    ensures r == Success(true) <==>
      forall q :: p <= q < |txs| ==>
        Transactions.Verify(env, txs[q], false) == Success(true) && txs[q].txIndex == index + q
    decreases |txs| - p
  {
    if p == |txs| then Success(true)
    else
      var ok :- Transactions.Verify(env, txs[p], false);
      if !ok || txs[p].txIndex != index + p then Success(false)
      else VerifyTransactionsFrom(env, txs, index, p + 1)
  }

  /** verify_transactions: false on a block without transactions; the coinbase at
      position 0 is skipped; every later transaction verifies as regular and has
      tx_index == index + position. */
  function VerifyTransactions(env: Env, b: Block): (r: Result<bool>)
    ensures |b.transactions| == 0 ==> r == Success(false)
    ensures r == Success(true) <==>
      && |b.transactions| > 0
      && forall p :: 1 <= p < |b.transactions| ==>
        Transactions.Verify(env, b.transactions[p], false) == Success(true) && b.transactions[p].txIndex == b.index + p
  {
    if |b.transactions| == 0 then Success(false)
    else VerifyTransactionsFrom(env, b.transactions, b.index, 1)
  }

  /** A coinbase acceptable for `reward`: its inputs hold exactly the reward and it
      verifies as coinbase. Shared by Block::verify_coinbase and
      Blockchain::verify_coinbase. */
  predicate CoinbaseValid(env: Env, coinbase: Transaction, reward: int) {
    reward == Transactions.InputTotal(coinbase.inputs) && Transactions.Verify(env, coinbase, true) == Success(true)
  }

  /** verify_coinbase(reward), on the transaction at position 0. Only reached from
      verify once verify_transactions has found the block non-empty. */
  function VerifyCoinbase(env: Env, b: Block, reward: int): (r: bool)
    requires |b.transactions| > 0
    ensures r <==>
      && reward == Transactions.InputTotal(b.transactions[0].inputs)
      && Transactions.Verify(env, b.transactions[0], true) == Success(true)
  {
    CoinbaseValid(env, b.transactions[0], reward)
  }

  /** is_mined. */
  predicate IsMined(b: Block) {
    ProofOfWork.Meets(b.hash, b.difficulty)
  }

  /** The checks after the transactions in both verify overloads. */
  predicate Tail(b: Block, isGenesis: bool) {
    && b.difficulty > 0
    && (isGenesis || (b.prevBlock != "" && b.index != 0))
    && IsMined(b)
  }

  /** verify(is_genesis), in order: hash, Merkle root, transactions, difficulty > 0,
      a previous hash and a non-zero index unless genesis, proof of work. The hash and
      Merkle checks come before any check that can throw. */
  function Verify(env: Env, b: Block, isGenesis: bool): (r: Result<bool>)
    ensures r == Success(true) <==>
      && VerifyHash(env, b) && VerifyMerkelTree(env, b)
      && VerifyTransactions(env, b) == Success(true)
      && b.difficulty > 0
      && (isGenesis || (b.prevBlock != "" && b.index != 0))
      && IsMined(b)
    ensures !VerifyHash(env, b) || !VerifyMerkelTree(env, b) ==> r == Success(false)
    ensures r.Failure? ==> r == VerifyTransactions(env, b)
  {
    if !VerifyHash(env, b) || !VerifyMerkelTree(env, b) then Success(false)
    else
      var txsOk :- VerifyTransactions(env, b);
      Success(txsOk && Tail(b, isGenesis))
  }

  /** verify(is_genesis, reward): verify(is_genesis) with the coinbase check for
      `reward` between the transaction check and the difficulty check. */
  function VerifyWithReward(env: Env, b: Block, isGenesis: bool, reward: int): (r: Result<bool>)
    ensures r == Success(true) <==>
      && Verify(env, b, isGenesis) == Success(true)
      && |b.transactions| > 0 && VerifyCoinbase(env, b, reward)
    ensures !VerifyHash(env, b) || !VerifyMerkelTree(env, b) ==> r == Success(false)
    ensures r.Failure? ==> r == VerifyTransactions(env, b)
  {
    if !VerifyHash(env, b) || !VerifyMerkelTree(env, b) then Success(false)
    else
      var txsOk :- VerifyTransactions(env, b);
      if !txsOk then Success(false)
      else Success(VerifyCoinbase(env, b, reward) && Tail(b, isGenesis))
  }

  /** Whether the block with nonce `n` (and its hash recomputed) meets its difficulty. */
  predicate MinedAt(env: Env, b: Block, n: int) {
    IsMined(CalculateHash(env, b.(nonce := n)))
  }

  /** mine_block: while the block is not mined, increment the nonce and recompute the
      hash. The loop is unbounded; `fuel` bounds the number of rounds, and running out
      is reported as MiningUnfinished. Only the nonce (never decreasing) and the hash
      change; a block that is already mined is returned as it is. */
  function Mine(env: Env, b: Block, fuel: nat): (r: Result<Block>)
    ensures IsMined(b) ==> r == Success(b)
    ensures r.Failure? ==> r.error == MiningUnfinished
    ensures r.Success? ==>
      && IsMined(r.value)
      && r.value.nonce >= b.nonce
      && r.value == b.(nonce := r.value.nonce, hash := r.value.hash)
      && (VerifyHash(env, b) || r.value.nonce > b.nonce ==> VerifyHash(env, r.value))
    decreases fuel
  {
    if IsMined(b) then Success(b)
    else if fuel == 0 then Failure(MiningUnfinished)
    else Mine(env, CalculateHash(env, b.(nonce := b.nonce + 1)), fuel - 1)
  }

  /** Whether a nonce mines a block does not depend on the block's current nonce and
      hash. */
  lemma MinedAtIgnoresNonceAndHash(env: Env, b: Block, nonce: int, hash: string, n: int)
    ensures MinedAt(env, b.(nonce := nonce, hash := hash), n) == MinedAt(env, b, n)
  {
    assert b.(nonce := nonce, hash := hash).(nonce := n) == b.(nonce := n).(hash := hash);
    PreimageFields(env, b.(nonce := n), hash, b.difficulty, b.transactions);
  }

  /** One round of the search: an unmined block with fuel left continues from the
      next nonce, with its hash recomputed. */
  lemma MineStep(env: Env, b: Block, fuel: nat)
    requires !IsMined(b) && fuel > 0
    ensures Mine(env, b, fuel) == Mine(env, CalculateHash(env, b.(nonce := b.nonce + 1)), fuel - 1)
    ensures CalculateHash(env, b.(nonce := b.nonce + 1)) ==
      b.(nonce := b.nonce + 1, hash := CalculateHash(env, b.(nonce := b.nonce + 1)).hash)
  {
  }

  /** The nonce search finds the first nonce above the starting one that works: no
      nonce it stepped over mines the block. */
  lemma {:induction false} MineFindsFirst(env: Env, b: Block, fuel: nat, n: int)
    requires Mine(env, b, fuel).Success?
    requires b.nonce < n < Mine(env, b, fuel).value.nonce
    ensures !MinedAt(env, b, n)
    decreases fuel
  {
    MineStep(env, b, fuel);
    var b1 := CalculateHash(env, b.(nonce := b.nonce + 1));
    if n > b1.nonce {
      MineFindsFirst(env, b1, fuel - 1, n);
      MinedAtIgnoresNonceAndHash(env, b, b1.nonce, b1.hash, n);
    }
  }

  /** A search that moved the nonce returns the block with the nonce found and its hash
      recomputed. */
  lemma {:induction false} MineResult(env: Env, b: Block, fuel: nat)
    requires Mine(env, b, fuel).Success?
    ensures Mine(env, b, fuel).value.nonce > b.nonce ==>
      Mine(env, b, fuel).value == CalculateHash(env, b.(nonce := Mine(env, b, fuel).value.nonce))
    decreases fuel
  {
    if !IsMined(b) {
      var b1 := CalculateHash(env, b.(nonce := b.nonce + 1));
      MineResult(env, b1, fuel - 1);
      var m := Mine(env, b1, fuel - 1).value;
      if m.nonce > b1.nonce {
        assert b1.(nonce := m.nonce) == b.(nonce := m.nonce).(hash := b1.hash);
        PreimageFields(env, b.(nonce := m.nonce), b1.hash, b.difficulty, b.transactions);
      }
    }
  }

  /** What a block under construction keeps between add_transaction calls: a valid
      hash, and every transaction verifies as regular and carries index + position + 1
      (its position once the coinbase has been put in front). */
  predicate Staged(env: Env, b: Block) {
    && VerifyHash(env, b)
    && forall p :: 0 <= p < |b.transactions| ==>
      b.transactions[p].txIndex == b.index + p + 1 && Transactions.Verify(env, b.transactions[p], false) == Success(true)
  }

  lemma NewIsStaged(env: Env, prevBlock: string, index: int, difficulty: int, time: int)
    ensures Staged(env, New(env, prevBlock, index, difficulty, time))
  {
  }

  lemma StagedAppend(env: Env, b: Block, r: Block, t: Transaction)
    requires Staged(env, b)
    requires VerifyHash(env, r) && r.index == b.index
    requires r.transactions == b.transactions + [Transactions.SetIndex(env, t, b.index + |b.transactions| + 1)]
    requires Transactions.Verify(env, t, false) == Success(true)
    ensures Staged(env, r)
  {
    var t' := Transactions.SetIndex(env, t, b.index + |b.transactions| + 1);
    Transactions.SetIndexPreservesVerify(env, t, b.index + |b.transactions| + 1, false);
    forall p | 0 <= p < |r.transactions|
      ensures r.transactions[p].txIndex == r.index + p + 1 && Transactions.Verify(env, r.transactions[p], false) == Success(true)
    {
      if p < |b.transactions| {
        assert r.transactions[p] == b.transactions[p];
      } else {
        assert r.transactions[p] == t';
      }
    }
  }

  lemma AddTransactionShape(env: Env, b: Block, t: Transaction)
    requires AddTransaction(env, b, t).Success?
    ensures AddTransaction(env, b, t).value.transactions ==
      b.transactions + [Transactions.SetIndex(env, t, b.index + |b.transactions| + 1)]
    ensures AddTransaction(env, b, t).value.index == b.index
    ensures Transactions.Verify(env, t, false) == Success(true)
  {
  }

  /** add_transaction keeps a block staged: the index it assigns is the position the
      transaction will have after set_coinbase, and re-indexing keeps it valid. */
  lemma AddTransactionStaged(env: Env, b: Block, t: Transaction)
    requires Staged(env, b)
    requires AddTransaction(env, b, t).Success?
    ensures Staged(env, AddTransaction(env, b, t).value)
  {
    AddTransactionShape(env, b, t);
    StagedAppend(env, b, AddTransaction(env, b, t).value, t);
  }

  /** The index arithmetic closes: after set_coinbase on a staged block, every
      transaction at position p >= 1 has tx_index == index + p, so verify_transactions
      holds, and so do the hash and Merkle checks. */
  lemma CoinbaseCompletesStaged(env: Env, b: Block, coinbase: Transaction)
    requires Staged(env, b)
    requires SetCoinbase(env, b, coinbase).Success?
    ensures VerifyTransactions(env, SetCoinbase(env, b, coinbase).value) == Success(true)
    ensures VerifyHash(env, SetCoinbase(env, b, coinbase).value)
    ensures VerifyMerkelTree(env, SetCoinbase(env, b, coinbase).value)
  {
    var r := SetCoinbase(env, b, coinbase).value;
    forall p | 1 <= p < |r.transactions|
      ensures Transactions.Verify(env, r.transactions[p], false) == Success(true) && r.transactions[p].txIndex == r.index + p
    {
      assert r.transactions[(p - 1) + 1] == b.transactions[p - 1];
    }
  }

  /** A staged block with a coinbase acceptable for `reward`, a positive difficulty, a
      previous hash and a non-zero index passes verify(false, reward) once set_coinbase
      and mining have succeeded. */
  lemma MinedStagedBlockVerifies(env: Env, b: Block, coinbase: Transaction, reward: int, fuel: nat)
    requires Staged(env, b)
    requires CoinbaseValid(env, coinbase, reward)
    requires b.difficulty > 0 && b.prevBlock != "" && b.index != 0
    requires SetCoinbase(env, b, coinbase).Success?
    requires Mine(env, SetCoinbase(env, b, coinbase).value, fuel).Success?
    ensures VerifyWithReward(env, Mine(env, SetCoinbase(env, b, coinbase).value, fuel).value, false, reward) == Success(true)
  {
    var s := SetCoinbase(env, b, coinbase).value;
    var m := Mine(env, s, fuel).value;
    CoinbaseCompletesStaged(env, b, coinbase);
    Transactions.SetIndexPreservesVerify(env, coinbase, b.index, true);
    assert m.transactions == s.transactions && m.merkelTree == s.merkelTree && m.index == s.index;
    assert VerifyTransactions(env, m) == VerifyTransactions(env, s);
  }
}
