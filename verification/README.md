# dechain ledger core in Dafny

This project models the two ledgers of dechain, a small C++ blockchain, and proves
properties of the model.

- **The UTXO ledger** (`src/blockchain/`). A transaction spends earlier outputs through
  inputs. Each input carries a copy of the output it spends and a hash of that copy.
  The transaction creates new outputs: a payment and, when there is change, a change
  output back to the author.
  - A block holds a coinbase at position 0, then the regular transactions, a Merkle
    root over them, a link to the previous block's hash, and a nonce. The nonce is
    searched until the hash starts with `difficulty` zeros.
  - The chain commits a block only after it passes `verify(false, reward)`.
  - Transactions are numbered across the chain, and `binary_search` finds one by its
    number.
- **The account-style prototype** (`src/block.cpp`, `src/blockchain.cpp`,
  `src/transaction.cpp`). A transaction sends an amount from an author to a recipient,
  signed by the author. Blocks are numbered by id and linked by hash. The chain has a
  whole-chain `verify`.

What the model assumes:

- SHA-256, the PEM key parser, the signature check and the C++ number rendering are
  not modelled. They are the fields of `Primitives.Env`, passed to every function that
  uses them. The only thing assumed of the digest is that it is 32 bytes. The hex
  rendering, the Merkle reduction and everything above them are modelled.
- A C++ exception becomes a `Results.Result` failure carrying the kind of error it
  reports. Checks that can throw therefore return `Result<bool>`. Throw sites that
  report the same kind of error share one `Error` value (listed under "Left out").
- Mining loops until the hash meets the difficulty, with no bound. The model bounds it
  with `fuel` and reports running out as `MiningUnfinished`.
- The clock readings (`set_timestamp`) are parameters.

Some behaviours of the code are easy to misread; the model follows the code:

- `verify(false)` on a regular output throws when the output is unsigned; it does not
  return false.
- The coinbase of a UTXO transaction must also balance its inputs and outputs.
- The leaf step of `calculate_merkel_tree` hashes the last transaction of an odd block
  alone, while each round of `merkel_tree` hashes the first node of an odd level alone.
- The prototype's `Blockchain::verify` never checks the genesis block, and it keeps
  scanning after a block fails.

## Model

| member | source | states |
|---|---|---|
| `Crypto.HexDigit` | src/blockchain/algorithms/crypto.cpp:14 | each nibble prints as an upper-case hex digit |
| `Crypto.ToHex` | src/blockchain/algorithms/crypto.cpp:11-17 | to_hex doubles the length: two characters per byte |
| `Crypto.ToHexIsHex` | src/blockchain/algorithms/crypto.cpp:11-17 | every character to_hex prints is an upper-case hex digit |
| `Crypto.DecodePair` | src/blockchain/algorithms/crypto.cpp:36-42 | one stream extraction cast to `unsigned char` always yields a byte |
| `Crypto.DecodePairs` | src/blockchain/algorithms/crypto.cpp:33-45 | decoding n pairs gives n bytes |
| `Crypto.FromHex` | src/blockchain/algorithms/crypto.cpp:26-46 | from_hex throws exactly on odd-length input, and otherwise gives half as many bytes |
| `Crypto.DecodeEncodedByte` | src/blockchain/algorithms/crypto.cpp:11-46 | the two digits to_hex prints for a byte decode back to that byte |
| `Crypto.DecodeEncoded` | src/blockchain/algorithms/crypto.cpp:11-46 | decoding the pairs of to_hex(s) gives s back, for any byte string |
| `Crypto.FromHexToHex` | src/blockchain/algorithms/crypto.cpp:11-46 | round trip: from_hex(to_hex(s)) succeeds with s |
| `Crypto.EncodeDecodedPair` | src/blockchain/algorithms/crypto.cpp:11-46 | re-encoding the byte decoded from two upper-case hex digits prints those digits |
| `Crypto.EncodeDecoded` | src/blockchain/algorithms/crypto.cpp:11-46 | re-encoding the decoded pairs of an even-length upper-case hex string gives it back |
| `Crypto.ToHexFromHex` | src/blockchain/algorithms/crypto.cpp:11-46 | round trip the other way: to_hex(from_hex(h)) == h for even-length upper-case hex h |
| `Crypto.Sha256` | src/blockchain/algorithms/crypto.cpp:54-63 | a hash is always 64 characters |
| `Crypto.Sha256IsHex` | src/blockchain/algorithms/crypto.cpp:54-63 | a hash consists of upper-case hex digits only |
| `Crypto.Sha256Decodes` | src/blockchain/algorithms/crypto.cpp:54-63 | from_hex of a hash gives back the 32 raw digest bytes |
| `Crypto.Level` | src/blockchain/algorithms/crypto.cpp:76-92 | a round maps n nodes to ceil(n / 2) parents, so it strictly shrinks every level of two or more nodes and the reduction ends |
| `Crypto.MerkleRoot` | src/blockchain/algorithms/crypto.cpp:71-95 | one node is returned as it is; the root of two or more nodes is 128 characters |
| `Crypto.MerkleRootIsHex` | src/blockchain/algorithms/crypto.cpp:71-95 | the root of two or more nodes is upper-case hex |
| `Crypto.CompletesParent` | src/blockchain/algorithms/crypto.cpp:82-87 | when an odd number of nodes is left, the waiting hash plus this node's hash is the next parent of the level |
| `Crypto.MerkleLevel` | src/blockchain/algorithms/crypto.cpp:78-91 | the iterator loop of one round, with its parity test on the nodes left, computes exactly the level of parents: the first node alone on an odd level, then pairs |
| `Crypto.MerkleTree` | src/blockchain/algorithms/crypto.cpp:71-95 | the round loop computes the Merkle root of the non-empty leaf vector |
| `ProofOfWork.AllZero` | src/blockchain/block.cpp:306-312 | holds exactly when every character is '0' |
| `ProofOfWork.Meets` | src/blockchain/block.cpp:306-312 | is_mined holds exactly when the first `difficulty` characters are zeros; difficulty 0 always holds, and a negative difficulty demands an all-zero hash |
| `Outputs.New` | src/blockchain/transaction_output.cpp:11-17 | the regular constructor stores the fields given and no signature |
| `Outputs.NewCoinbase` | src/blockchain/transaction_output.cpp:25-30 | the coinbase constructor: no author, no value, no signature, index 0 |
| `Outputs.SerialisationForms` | src/blockchain/transaction_output.cpp:142-153 | the full form is signature, index and signing form; the signing form sees neither signature nor index |
| `Outputs.VerifySignature` | src/blockchain/transaction_output.cpp:37-52 | throws on an empty signature, a key OpenSSL rejects or an odd-length signature; true exactly for a valid signature over the signing form |
| `Outputs.Verify` | src/blockchain/transaction_output.cpp:60-92 | a regular output throws exactly when its signature check throws and is valid when signed with author and recipient; a coinbase output never throws and needs no signature, no author and a recipient |
| `Outputs.VerifyAt` | src/blockchain/transaction_output.cpp:101-133 | a regular output adds the index comparison to verify(false); a coinbase output checks only the index and the recipient |
| `Outputs.SetIndex` | src/blockchain/transaction_output.cpp:160-162 | only the transaction index changes |
| `Outputs.SetIndexKeepsValidity` | src/blockchain/transaction_output.cpp:60-162 | re-indexing keeps the signing form and every verify outcome, and a valid output stays valid at its new index |
| `Inputs.CalculateHash` | src/blockchain/transaction_input.cpp:15-17 | only the hash changes, and afterwards verify_hash holds |
| `Inputs.New` | src/blockchain/transaction_input.cpp:8-10 | a fresh input holds the output, has a valid hash, and verifies exactly as the output does in both modes |
| `Inputs.ToString` | src/blockchain/transaction_input.cpp:34-39 | for an input with a valid hash, the form is determined by the output it spends |
| `Inputs.Verify` | src/blockchain/transaction_input.cpp:41-52 | a bad hash gives false without consulting the output; otherwise it is the output's verify; coinbase mode never throws |
| `Inputs.HashCoversSignatureAndIndex` | src/blockchain/transaction_input.cpp:15-17 | a fresh input's hash commits to the output's signature and index as well as its signing form |
| `Transactions.CreateOutputs` | src/blockchain/transaction.cpp:39-54 | throws exactly when the inputs hold less than the amount; otherwise a payment output, plus a change output exactly when there is change, and the outputs hold what the inputs hold |
| `Transactions.InputsStringAppend` | src/blockchain/transaction.cpp:112-123 | the inputs enter the preimage one after another, in order |
| `Transactions.OutputsStringAppend` | src/blockchain/transaction.cpp:112-123 | the outputs enter the preimage one after another, in order |
| `Transactions.CalculateHash` | src/blockchain/transaction.cpp:59-61 | only the hash changes, and afterwards verify_hash holds |
| `Transactions.New` | src/blockchain/transaction.cpp:11-17 | throws exactly on insufficient funds; otherwise index 0, the outputs of create_outputs, a balanced total and a valid hash |
| `Transactions.NewFromOutputs` | src/blockchain/transaction.cpp:25-31 | index 0, the inputs and outputs given, a valid hash |
| `Transactions.VerifyInputs` | src/blockchain/transaction.cpp:82-86 | true exactly when every input verifies; never throws in coinbase mode |
| `Transactions.VerifyOutputs` | src/blockchain/transaction.cpp:90-94 | true exactly when every output verifies against the transaction's index; never throws in coinbase mode |
| `Transactions.Verify` | src/blockchain/transaction.cpp:78-105 | true exactly when all inputs and outputs verify, inputs and outputs balance, and the hash is valid; never throws in coinbase mode |
| `Transactions.ReindexKeepsTotal` | src/blockchain/transaction.cpp:130-140 | re-indexing the outputs keeps their total |
| `Transactions.SetIndex` | src/blockchain/transaction.cpp:130-140 | the transaction and each output get the new index, inputs, time and output total are kept, and the hash is recomputed |
| `Transactions.SetIndexPreservesVerify` | src/blockchain/transaction.cpp:78-140 | re-indexing a valid transaction keeps it valid |
| `Blocks.PreimageFields` | src/blockchain/block.cpp:270-282 | the hash preimage leaves out the hash and the difficulty and sees the transactions only through the Merkle root |
| `Blocks.CalculateHash` | src/blockchain/block.cpp:80-82 | only the hash changes, and afterwards verify_hash holds |
| `Blocks.Serialised` | src/blockchain/block.cpp:94 | one serialisation per transaction |
| `Blocks.LeafOfRaw` | src/blockchain/block.cpp:94-99 | what the loop hashes for the pair starting at transaction 2k is leaf k |
| `Blocks.CalculateLeaves` | src/blockchain/block.cpp:91-100 | the loop stepping two transactions at a time pushes exactly the leaves: pairs hashed together, a last odd transaction hashed alone |
| `Blocks.CalculateMerkelTree` | src/blockchain/block.cpp:87-104 | an empty block keeps its root; otherwise the recomputed root verifies; nothing else changes |
| `Blocks.Rehash` | src/blockchain/block.cpp:55-56 | a non-empty block's root and any block's hash verify afterwards; only root and hash change |
| `Blocks.New` | src/blockchain/block.cpp:29-37 | no transactions, nonce 0, the fields given, a valid hash |
| `Blocks.NewWithCoinbase` | src/blockchain/block.cpp:11-20 | the coinbase alone, as given, with a valid root and hash |
| `Blocks.AddTransaction` | src/blockchain/block.cpp:46-57 | refused exactly when the transaction does not verify as regular, with its exception or the invalid-transaction error; otherwise appended re-indexed to index + count + 1, with root and hash recomputed |
| `Blocks.SetCoinbase` | src/blockchain/block.cpp:64-75 | refused exactly when the coinbase check is false; otherwise the re-indexed coinbase goes in front and every other transaction moves one place right |
| `Blocks.VerifyTransactionsFrom` | src/blockchain/block.cpp:151-162 | true exactly when every transaction from position p on verifies as regular and carries index + position |
| `Blocks.VerifyTransactions` | src/blockchain/block.cpp:144-165 | false on an empty block; otherwise true exactly when every transaction after the coinbase verifies and is numbered by position |
| `Blocks.VerifyCoinbase` | src/blockchain/block.cpp:173-187 | the coinbase's inputs hold exactly the reward and it verifies as coinbase |
| `Blocks.Verify` | src/blockchain/block.cpp:195-223 | true exactly when hash, root, transactions, difficulty, link and proof of work check out; a bad hash or root gives false before anything can throw |
| `Blocks.VerifyWithReward` | src/blockchain/block.cpp:232-263 | verify(is_genesis) together with the coinbase check for the reward |
| `Blocks.Mine` | src/blockchain/block.cpp:287-292 | the result is mined, only nonce and hash change, the nonce never decreases, a mined block is returned unchanged, and the hash is valid |
| `Blocks.MinedAtIgnoresNonceAndHash` | src/blockchain/block.cpp:270-292 | whether a nonce mines a block does not depend on the block's current nonce and hash |
| `Blocks.MineStep` | src/blockchain/block.cpp:288-291 | one round on an unmined block increments the nonce and recomputes the hash |
| `Blocks.MineFindsFirst` | src/blockchain/block.cpp:287-292 | no nonce the search stepped over mines the block: the nonce found is the first that works |
| `Blocks.MineResult` | src/blockchain/block.cpp:287-292 | a search that moved the nonce returns the block with that nonce and its hash recomputed |
| `Blocks.NewIsStaged` | src/blockchain/block.cpp:29-37 | a fresh block satisfies the invariant of a block under construction |
| `Blocks.StagedAppend` | src/blockchain/block.cpp:53-56 | appending a valid transaction re-indexed to index + count + 1 keeps a block staged |
| `Blocks.AddTransactionShape` | src/blockchain/block.cpp:46-57 | a successful add_transaction appended the re-indexed transaction and kept the index |
| `Blocks.AddTransactionStaged` | src/blockchain/block.cpp:46-57 | add_transaction keeps a block staged |
| `Blocks.CoinbaseCompletesStaged` | src/blockchain/block.cpp:64-75 | after set_coinbase on a staged block, verify_transactions, verify_hash and verify_merkel_tree all hold |
| `Blocks.MinedStagedBlockVerifies` | src/blockchain/block.cpp:232-263 | a staged block with an acceptable coinbase, positive difficulty, previous hash and non-zero index passes verify(false, reward) once mined |
| `Search.Middle` | src/blockchain/algorithms/search.cpp:17 | the middle of a non-empty range lies inside it, and past its start once it has two blocks |
| `Search.SearchStep` | src/blockchain/algorithms/search.cpp:17-39 | each branch of one call: left below the middle block, found inside it, right beyond it, `front()` of an empty block undefined |
| `Search.StepProgress` | src/blockchain/algorithms/search.cpp:14-41 | on a contiguous chain a covered number leads to a found transaction or a strictly smaller covered range |
| `Search.HolderUnique` | src/blockchain/algorithms/search.cpp:14-41 | on a contiguous chain a transaction number lies in at most one block |
| `Search.BinarySearchFinds` | src/blockchain/algorithms/search.cpp:14-41 | binary_search returns the transaction at offset txIndex - index of the block holding the number |
| `Search.OneBlockBeyondLoops` | src/blockchain/algorithms/search.cpp:26-36 | outside the precondition, a one-block range past its block recurses on itself |
| `Chain.VerifyCoinbase` | src/blockchain/blockchain.cpp:38-50 | the coinbase's inputs hold exactly the reward and it verifies as coinbase |
| `Chain.CreateGenesisBlock` | src/blockchain/blockchain.cpp:55-71 | refused when blocks exist or the coinbase is unacceptable; otherwise the only block is a mined "genesis" block 0 holding the re-indexed coinbase |
| `Chain.CreateBlock` | src/blockchain/blockchain.cpp:78-83 | the new block under construction is linked to the last block and numbered from where it ends |
| `Chain.New` | src/blockchain/blockchain.cpp:3-8 | fails with the coinbase or mining error; otherwise one genesis block and an empty block 1 linked to it |
| `Chain.AddTransaction` | src/blockchain/blockchain.cpp:28-30 | only the block under construction changes, as Block::add_transaction does |
| `Chain.InsertBlock` | src/blockchain/blockchain.cpp:88-98 | refused exactly when the block under construction fails verify(false, reward); otherwise it is appended and a fresh staged block linked to it follows |
| `Chain.MineBlock` | src/blockchain/blockchain.cpp:15-26 | an unacceptable coinbase is refused first; on success the sealed block is appended and a linked staged block follows |
| `Chain.AppendCommitted` | src/blockchain/blockchain.cpp:91-94 | appending a block that passed verify(false, reward) keeps the committed blocks committed |
| `Chain.AppendLinked` | src/blockchain/blockchain.cpp:78-94 | appending a block linked to the last one keeps the chain linked |
| `Chain.NewValid` | src/blockchain/blockchain.cpp:3-8 | the constructor establishes the chain invariant |
| `Chain.AddTransactionValid` | src/blockchain/blockchain.cpp:28-30 | add_transaction keeps the chain invariant |
| `Chain.InsertBlockValid` | src/blockchain/blockchain.cpp:88-98 | insert_block keeps the chain invariant |
| `Chain.MineBlockValid` | src/blockchain/blockchain.cpp:15-26 | mine_block keeps the chain invariant |
| `Chain.IndicesIncrease` | src/blockchain/blockchain.cpp:78-83 | block indices strictly increase along a valid chain |
| `Chain.NonEmpty` | src/blockchain/block.cpp:146-147 | every committed block holds a transaction |
| `Chain.IndexNonNegative` | src/blockchain/blockchain.cpp:78-83 | every committed block's index is non-negative |
| `Chain.CurrentReady` | src/blockchain/block.cpp:253-257 | the block under construction has a positive index and a previous hash, as verify(false, reward) demands |
| `Chain.MineBlockSucceeds` | src/blockchain/blockchain.cpp:15-26 | with a positive difficulty and an acceptable coinbase, mine_block on a valid chain succeeds whenever mining finishes |
| `Chain.NonPositiveDifficultyBlocksInsert` | src/blockchain/block.cpp:250-251 | with difficulty <= 0 neither insert_block nor mine_block can succeed |
| `Chain.ZeroDifficultyNewSucceeds` | src/blockchain/blockchain.cpp:3-8 | a difficulty of 0 does not stop the constructor: genesis is mined at once |
| `Chain.ValidContiguous` | src/blockchain/algorithms/search.cpp:14-41 | committed, linked blocks are contiguous, the shape binary_search relies on |
| `Chain.SearchCommitted` | src/blockchain/algorithms/search.cpp:14-41 | binary_search over the committed blocks finds every transaction they hold |
| `AccountTransactions.SerialisationForms` | src/transaction.cpp:26-33 | the signed form adds ".signature" exactly when there is one; the message form ignores signature and hash |
| `AccountTransactions.CalculateHash` | src/transaction.cpp:81-90 | only the hash changes, and afterwards verify_hash holds |
| `AccountTransactions.New` | src/transaction.cpp:11-18 | the fields given, no signature, a valid hash |
| `AccountTransactions.GetSignature` | src/transaction.cpp:125-127 | throws exactly on an odd-length signature; otherwise half as many raw bytes |
| `AccountTransactions.SetSignature` | src/transaction.cpp:115-118 | only signature and hash change; the signature is stored as upper-case hex of twice the length, and the hash verifies |
| `AccountTransactions.GetSetSignature` | src/transaction.cpp:115-127 | get_signature after set_signature gives the raw signature back |
| `AccountTransactions.SetGetSignature` | src/transaction.cpp:115-127 | setting what get_signature reads from an even-length hex signature stores that signature again |
| `AccountTransactions.VerifySignature` | src/transaction.cpp:146-160 | throws on an empty signature, a rejected key or an odd-length signature; true exactly for a valid signature over the message form |
| `AccountTransactions.Verify` | src/transaction.cpp:167-174 | throws exactly when the signature check throws, so an unsigned transaction throws; true exactly for a signed transaction with a valid hash, positive amount, an author and a distinct recipient |
| `AccountTransactions.SignedNewVerifies` | src/transaction.cpp:11-174 | a signature made over a fresh transaction's message verifies once set, since the message leaves the signature out |
| `AccountBlocks.TransactionsStringAppend` | src/block.cpp:41-53 | each transaction's signed form and a dot enter the preimage in order |
| `AccountBlocks.CalculateHash` | src/block.cpp:100-109 | only the hash changes, and afterwards verify_hash holds |
| `AccountBlocks.New` | src/block.cpp:10-16 | the id, previous hash and difficulty given, nonce 0, no transactions, a valid hash |
| `AccountBlocks.AddTransaction` | src/block.cpp:25-34 | refused exactly when the transaction does not verify, with its exception or the invalid-transaction error; otherwise appended as it is with the hash recomputed |
| `AccountBlocks.AddTransactionPreimage` | src/block.cpp:25-53 | after add_transaction the preimage lists the new transaction last |
| `AccountBlocks.Mine` | src/block.cpp:147-152 | the result is mined, only nonce and hash change, the nonce never decreases, a mined block is returned unchanged |
| `AccountBlocks.VerifyTransactions` | src/block.cpp:159-166 | true exactly when every transaction verifies; a failure comes from some transaction's exception |
| `AccountBlocks.Verify` | src/block.cpp:171-178 | true exactly for a valid hash, valid transactions, proof of work, positive difficulty and a previous hash; throws exactly when the transaction check throws |
| `AccountBlocks.VerifyLinked` | src/block.cpp:186-191 | verify() plus the previous hash given and an id one above the one given |
| `AccountBlocks.MinedBlockVerifies` | src/block.cpp:147-178 | a block with a valid hash, valid transactions, positive difficulty and a previous hash passes verify() once mined |
| `AccountChain.CreateGenesisBlock` | src/blockchain.cpp:18-23 | the genesis block is block 0 linked to "a", mined at difficulty 1, with no transactions |
| `AccountChain.New` | src/blockchain.cpp:8-13 | genesis is the only block, and block 1 linked to it carries the chain's difficulty |
| `AccountChain.InsertCurrentBlock` | src/blockchain.cpp:37-49 | refused exactly when verify() of the block under construction is not true; otherwise appended, and a fresh block numbered by the new count and linked to it follows |
| `AccountChain.AddTransaction` | src/blockchain.cpp:56-58 | only the block under construction changes, as Block::add_transaction does |
| `AccountChain.MineBlock` | src/blockchain.cpp:64-71 | the mined block under construction is inserted; mining that does not finish fails |
| `AccountChain.Scan` | src/blockchain.cpp:80-84 | true exactly when every check is true, failing exactly when some check throws; a false check does not stop the scan |
| `AccountChain.Verify` | src/blockchain.cpp:78-86 | true exactly for a positive difficulty and every later block verifying against its predecessor; throws exactly when some block's check throws |
| `AccountChain.GenesisUnchecked` | src/blockchain.cpp:81-82 | only the genesis block's hash and id matter to verify |
| `AccountChain.NewInv` | src/blockchain.cpp:8-23 | the constructor establishes the chain invariant |
| `AccountChain.AddTransactionInv` | src/blockchain.cpp:56-58 | add_transaction keeps the chain invariant |
| `AccountChain.AppendLinked` | src/blockchain.cpp:44-48 | appending the block numbered and linked next keeps the chain numbered and linked |
| `AccountChain.InsertCurrentBlockInv` | src/blockchain.cpp:37-49 | insert_current_block keeps the chain invariant |
| `AccountChain.MineBlockInv` | src/blockchain.cpp:64-71 | mine_block keeps the chain invariant |
| `AccountChain.HashesNonEmpty` | src/block.cpp:171-178 | every committed hash is non-empty, so a linked block has a previous hash |
| `AccountChain.MineBlockSucceeds` | src/blockchain.cpp:64-71 | with a positive difficulty, mine_block on a chain satisfying the invariant succeeds whenever mining finishes |
| `AccountChain.NonPositiveDifficultyBlocksInsert` | src/block.cpp:171-178 | with difficulty <= 0 neither insert_current_block nor mine_block can succeed |
| `AccountChain.InvVerifies` | src/blockchain.cpp:78-86 | a chain satisfying the invariant with a positive difficulty passes its own verify |

## Left out

- Wallets (`wallet.cpp` in both generations), `main.cpp` and every `print` are not part
  of this model. They hold key generation, signing and console output.
- SHA-256, PEM parsing and the signature check are parameters. Their internals are
  OpenSSL's.
- A failing `EVP_DigestVerifyUpdate` throws in both generations. The model folds it
  into "the key is rejected" (`KeyRejected`), the error of a failing
  `EVP_DigestVerifyInit`.
- `EVP_DigestVerifyFinal` returns an `int`, and its negative error code converts to
  `true`. The model takes the check's boolean outcome.
- `long`, `int` and nonce overflow are not modelled: values, indices, nonces and ids
  are unbounded integers. The input and output totals do not wrap around.
- The prototype's `float` amount is a `real`. Only its sign and its rendering (a
  parameter) are used.
- `from_hex`: the `std::hex` stream also skips leading white space and accepts a sign.
  `DecodePair` covers only digits, a lone leading digit and a failed extraction.
- Crypto.MerkleTree and Crypto.MerkleRoot require a non-empty vector, because
  `front()` of an empty one is undefined. The only caller never passes one.
- Blocks.CalculateLeaves sees transactions only through their `to_string()`. Its input
  is the sequence of serialisations.
- Blocks.CalculateLeaves: for an odd number of transactions, `transaction += 2` in
  `calculate_merkel_tree` and `verify_merkel_tree` steps the iterator past `end()`,
  which is undefined in C++. The model reads it as "the loop stops", as common
  implementations behave.
- Error kinds are shared between throw sites. `InvalidCoinbase` stands for the three
  coinbase refusals: `Blockchain::mine_block`, `Blockchain::create_genesis_block` and
  `Block::set_coinbase`. `InvalidTransaction`, `Unsigned`, `KeyRejected` and
  `MalformedHex` are used by both generations. The exception messages are not
  modelled.
- Blocks.Mine and AccountBlocks.Mine bound the unbounded nonce loop by `fuel`.
  `MiningUnfinished` is a model-only error for running out.
- When a mutator throws part-way, the C++ object keeps its partial changes: a mined but
  uninserted block, a coinbase set before mining. The model discards the state and
  reports the error.
- `Block()` default constructors are left out. They leave fields uninitialised, and
  the constructors always replace them.
- `TransactionInput::verify_hash` is the input half of `Inputs.Verify`. Nothing else
  calls it.
- AccountChain.Verify requires at least one block: `blocks.begin() + 1` on an empty
  vector is undefined, and the constructor always commits genesis.
- Hash collisions and tamper resistance are not claimed, since the digest is an
  arbitrary function.
- The current time (`set_timestamp`) is a parameter.
