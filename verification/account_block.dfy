/** `Block` of the account-style prototype (`src/block.cpp`): an id, a link to the
    previous block's hash, the transactions, and a nonce searched until the hash meets
    the difficulty. There is no Merkle root: the hash preimage lists every transaction. */
module AccountBlocks {
  import opened Results
  import opened Primitives
  import Crypto
  import ProofOfWork
  import Tx = AccountTransactions

  datatype Block = Block(
    id: int,
    nonce: int,
    difficulty: int,
    hash: string,
    prevHash: string,
    transactions: seq<Tx.Transaction>)

  /** The loop of to_string over the transactions: each one's signed form followed by
      a dot. */
  function TransactionsString(env: Env, txs: seq<Tx.Transaction>): string {
    if |txs| == 0 then "" else Tx.ToString(env, txs[0], true) + "." + TransactionsString(env, txs[1..])
  }

  /** Appending a transaction appends its signed form and a dot to the preimage's
      transaction part. */
  lemma {:induction false} TransactionsStringAppend(env: Env, txs: seq<Tx.Transaction>, t: Tx.Transaction)
    ensures TransactionsString(env, txs + [t]) == TransactionsString(env, txs) + Tx.ToString(env, t, true) + "."
    decreases |txs|
  {
    if |txs| == 0 {
      assert txs + [t] == [t];
    } else {
      assert (txs + [t])[0] == txs[0];
      assert (txs + [t])[1..] == txs[1..] + [t];
      TransactionsStringAppend(env, txs[1..], t);
    }
  }

  /** to_string, the hash preimage: id, nonce and difficulty each followed by a dot,
      the transactions, then prev_hash. The block's own hash is not part of it. */
  function ToString(env: Env, b: Block): string {
    env.showInt(b.id) + "." + env.showInt(b.nonce) + "." + env.showInt(b.difficulty) + "."
    + TransactionsString(env, b.transactions) + b.prevHash
  }

  predicate VerifyHash(env: Env, b: Block) {
    b.hash == Crypto.Sha256(env, ToString(env, b))
  }

  /** calculate_hash: only the hash changes, and afterwards it verifies. */
  function CalculateHash(env: Env, b: Block): (r: Block)
    ensures VerifyHash(env, r)
    ensures r == b.(hash := r.hash)
  {
    b.(hash := Crypto.Sha256(env, ToString(env, b)))
  }

  /** The constructor: the id, previous hash and difficulty given, nonce 0, no
      transactions, a valid hash. */
  function New(env: Env, id: int, prevHash: string, difficulty: int): (r: Block)
    ensures r.id == id && r.prevHash == prevHash && r.difficulty == difficulty
    ensures r.nonce == 0 && r.transactions == []
    ensures VerifyHash(env, r)
  {
    CalculateHash(env, Block(id, 0, difficulty, "", prevHash, []))
  }

  /** add_transaction: a transaction whose verify is false is refused with "Attempted
      to add invalid transaction to block!", and an exception of its verify propagates;
      otherwise it is appended as it is and the hash is recomputed. */
  function AddTransaction(env: Env, b: Block, t: Tx.Transaction): (r: Result<Block>)
    ensures r.Failure? <==> Tx.Verify(env, t) != Success(true)
    ensures Tx.Verify(env, t) == Success(false) ==> r == Failure(InvalidTransaction)
    ensures Tx.Verify(env, t).Failure? ==> r == Failure(Tx.Verify(env, t).error)
    ensures r.Success? ==>
      && r.value == b.(transactions := b.transactions + [t], hash := r.value.hash)
      && VerifyHash(env, r.value)
  {
    var ok :- Tx.Verify(env, t);
    if !ok then Failure(InvalidTransaction)
    else Success(CalculateHash(env, b.(transactions := b.transactions + [t])))
  }

  /** After add_transaction the preimage lists the new transaction last. */
  lemma AddTransactionPreimage(env: Env, b: Block, t: Tx.Transaction)
    requires AddTransaction(env, b, t).Success?
    ensures TransactionsString(env, AddTransaction(env, b, t).value.transactions)
      == TransactionsString(env, b.transactions) + Tx.ToString(env, t, true) + "."
  {
    TransactionsStringAppend(env, b.transactions, t);
  }

  /** is_mined: the proof-of-work test shared with the UTXO ledger. */
  predicate IsMined(b: Block) {
    ProofOfWork.Meets(b.hash, b.difficulty)
  }

  /** mine_block: while the block is not mined, increment the nonce and recompute the
      hash. The loop is unbounded; `fuel` bounds the number of rounds, and running out
      is reported as MiningUnfinished. Only the nonce (never decreasing) and the hash
      change, and a block that is already mined is returned as it is. */
  function Mine(env: Env, b: Block, fuel: nat): (r: Result<Block>)
    ensures IsMined(b) ==> r == Success(b)
    ensures r.Failure? ==> r.error == MiningUnfinished
    ensures r.Success? ==>
      && IsMined(r.value)
      && r.value.nonce >= b.nonce
      && r.value == b.(nonce := r.value.nonce, hash := r.value.hash)
      && (VerifyHash(env, b) || r.value.nonce > b.nonce ==> VerifyHash(env, r.value))
    decreases fuel
  {
    if IsMined(b) then Success(b)
    else if fuel == 0 then Failure(MiningUnfinished)
    else Mine(env, CalculateHash(env, b.(nonce := b.nonce + 1)), fuel - 1)
  }

  /** verify_transactions: false at the first transaction that is not valid; an
      exception of a transaction's verify propagates. */
  function VerifyTransactions(env: Env, txs: seq<Tx.Transaction>): (r: Result<bool>)
    ensures r == Success(true) <==>
      forall k {:trigger Tx.Verify(env, txs[k])} :: 0 <= k < |txs| ==> Tx.Verify(env, txs[k]) == Success(true)
    ensures r.Failure? ==> exists k {:trigger Tx.Verify(env, txs[k])} :: 0 <= k < |txs| && Tx.Verify(env, txs[k]).Failure?
  {
    if |txs| == 0 then Success(true)
    else
      var ok :- Tx.Verify(env, txs[0]);
      if !ok then Success(false)
      else
        var rest := VerifyTransactions(env, txs[1..]);
        assert rest.Failure? ==> exists k :: 1 <= k < |txs| && Tx.Verify(env, txs[k]).Failure? by {
          if rest.Failure? {
            var k :| 0 <= k < |txs[1..]| && Tx.Verify(env, txs[1..][k]).Failure?;
            assert txs[1..][k] == txs[k + 1];
          }
        }
        rest
  }

  /** The hash, transaction and proof-of-work checks of verify. */
  predicate Valid(env: Env, b: Block) {
    && VerifyHash(env, b)
    && (forall k {:trigger Tx.Verify(env, b.transactions[k])} ::
          0 <= k < |b.transactions| ==> Tx.Verify(env, b.transactions[k]) == Success(true))
    && IsMined(b)
    && b.difficulty > 0
    && b.prevHash != ""
  }

  /** verify(): hash, transactions, proof of work, a positive difficulty and a previous
      hash. Every check is evaluated before the results are combined, so an exception
      of the transaction check propagates even when the hash is wrong. */
  function Verify(env: Env, b: Block): (r: Result<bool>)
    ensures r == Success(true) <==> Valid(env, b)
    ensures r.Failure? <==> VerifyTransactions(env, b.transactions).Failure?
  {
    var hashOk := VerifyHash(env, b);
    var txsOk :- VerifyTransactions(env, b.transactions);
    Success(hashOk && txsOk && IsMined(b) && b.difficulty > 0 && b.prevHash != "")
  }

  /** verify(prev_hash, id): verify() and the link to the previous block, whose hash
      must be `prev_hash` and whose id must be one less than this block's. */
  function VerifyLinked(env: Env, b: Block, prevHash: string, id: int): (r: Result<bool>)
    ensures r == Success(true) <==> Valid(env, b) && b.prevHash == prevHash && b.id == id + 1
    ensures r.Failure? <==> Verify(env, b).Failure?
  {
    var ok :- Verify(env, b);
    Success(ok && b.prevHash == prevHash && b.id == id + 1)
  }

  /** A block built by the constructor and add_transaction, then mined with a positive
      difficulty and a previous hash, passes verify(). */
  lemma MinedBlockVerifies(env: Env, b: Block, fuel: nat)
    requires VerifyHash(env, b) && b.difficulty > 0 && b.prevHash != ""
    requires forall k {:trigger Tx.Verify(env, b.transactions[k])} ::
      0 <= k < |b.transactions| ==> Tx.Verify(env, b.transactions[k]) == Success(true)
    requires Mine(env, b, fuel).Success?
    ensures Verify(env, Mine(env, b, fuel).value) == Success(true)
  {
    var m := Mine(env, b, fuel).value;
    assert m.transactions == b.transactions;
  }
}
