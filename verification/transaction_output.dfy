/** `TransactionOutput` of the UTXO ledger (`src/blockchain/transaction_output.cpp`): a
    value claim from an author to a recipient, signed by the author over its signing
    form, and tagged with the index of the transaction that owns it. */
module Outputs {
  import opened Results
  import opened Primitives
  import Crypto

  datatype TransactionOutput = TransactionOutput(
    signature: string,
    txIndex: int,
    value: int,
    spent: bool,
    author: string,
    recipient: string)

  /** The regular constructor. The signature starts as the empty string. */
  function New(spent: bool, author: string, recipient: string, value: int, txIndex: int): (o: TransactionOutput)
    ensures o.signature == ""
    ensures o.author == author && o.recipient == recipient && o.value == value
    ensures o.spent == spent && o.txIndex == txIndex
  {
    TransactionOutput("", txIndex, value, spent, author, recipient)
  }

  /** The coinbase constructor: no author, no signature, no value, transaction index 0. */
  function NewCoinbase(spent: bool, recipient: string): (o: TransactionOutput)
    ensures o.value == 0 && o.txIndex == 0 && o.author == "" && o.signature == ""
    ensures o.recipient == recipient && o.spent == spent
  {
    TransactionOutput("", 0, 0, spent, "", recipient)
  }

  /** `stream << bool` without std::boolalpha. */
  function BoolString(b: bool): string {
    if b then "1" else "0"
  }

  /** to_string(is_signature): the signing form is value, spent, author, recipient; the
      full form puts the signature and the transaction index in front. */
  function ToString(env: Env, o: TransactionOutput, isSignature: bool): string {
    (if isSignature then "" else o.signature + env.showInt(o.txIndex))
    + env.showInt(o.value) + BoolString(o.spent) + o.author + o.recipient
  }

  /** The two serialisation forms: the full form extends the signing form, and the
      signing form does not see the signature or the transaction index. */
  lemma SerialisationForms(env: Env, o: TransactionOutput, signature: string, txIndex: int)
    ensures ToString(env, o, false) == o.signature + env.showInt(o.txIndex) + ToString(env, o, true)
    ensures ToString(env, o.(signature := signature, txIndex := txIndex), true) == ToString(env, o, true)
  {
  }

  /** What a successful signature check needs: a signature, an author key OpenSSL
      accepts, an even-length hex signature, and a signature valid over the signing form. */
  predicate Signed(env: Env, o: TransactionOutput) {
    && o.signature != ""
    && env.keyParses(o.author)
    && |o.signature| % 2 == 0
    && env.sigValid(o.author, ToString(env, o, true), Crypto.FromHex(o.signature).value)
  }

  /** verify_signature: an empty signature throws, and so do an author key OpenSSL
      cannot use and a signature that is not even-length hex; otherwise the result is
      the signature check over the signing form. */
  function VerifySignature(env: Env, o: TransactionOutput): (r: Result<bool>)
    ensures o.signature == "" ==> r == Failure(Unsigned)
    ensures r.Failure? <==> o.signature == "" || !env.keyParses(o.author) || |o.signature| % 2 != 0
    ensures r == Success(true) <==> Signed(env, o)
  {
    if o.signature == "" then Failure(Unsigned)
    else if !env.keyParses(o.author) then Failure(KeyRejected)
    else
      var sig :- Crypto.FromHex(o.signature);
      Success(env.sigValid(o.author, ToString(env, o, true), sig))
  }

  /** verify(is_coinbase_output). A regular output throws when the signature check
      throws (an empty signature is an error, not `false`) and otherwise needs a valid
      signature, an author and a recipient. A coinbase output needs no signature, no
      author and a recipient; it never throws. */
  function Verify(env: Env, o: TransactionOutput, isCoinbase: bool): (r: Result<bool>)
    ensures !isCoinbase && o.signature == "" ==> r == Failure(Unsigned)
    ensures !isCoinbase ==> (r.Failure? <==> VerifySignature(env, o).Failure?)
    ensures !isCoinbase ==> (r == Success(true) <==> Signed(env, o) && o.author != "" && o.recipient != "")
    ensures isCoinbase ==> r == Success(o.signature == "" && o.author == "" && o.recipient != "")
  {
    if !isCoinbase then
      var sigOk :- VerifySignature(env, o);
      Success(sigOk && o.author != "" && o.recipient != "")
    else
      Success(o.signature == "" && o.author == "" && o.recipient != "")
  }

  /** verify(tx_index, is_coinbase_output). A regular output: the conditions of
      verify(false) plus `tx_index == txIndex`. A coinbase output: only the index and a
      non-empty recipient are checked, not the author nor the signature. */
  function VerifyAt(env: Env, o: TransactionOutput, txIndex: int, isCoinbase: bool): (r: Result<bool>)
    ensures !isCoinbase ==> (r.Failure? <==> Verify(env, o, false).Failure?)
    ensures !isCoinbase ==> (r == Success(true) <==> Verify(env, o, false) == Success(true) && o.txIndex == txIndex)
    ensures isCoinbase ==> r == Success(o.txIndex == txIndex && o.recipient != "")
    ensures isCoinbase && Verify(env, o, true) == Success(true) && o.txIndex == txIndex ==> r == Success(true)
  {
    if !isCoinbase then
      var sigOk :- VerifySignature(env, o);
      Success(sigOk && o.txIndex == txIndex && o.author != "" && o.recipient != "")
    else
      Success(o.txIndex == txIndex && o.recipient != "")
  }

  /** set_index: only the transaction index changes. */
  function SetIndex(o: TransactionOutput, txIndex: int): (r: TransactionOutput)
    ensures r.txIndex == txIndex
    ensures r.(txIndex := o.txIndex) == o
  {
    o.(txIndex := txIndex)
  }

  /** Because the signing form leaves the index out, re-indexing an output keeps its
      signing form and the outcome of every verification that does not compare indices,
      and makes the index comparison succeed for the new index. */
  lemma SetIndexKeepsValidity(env: Env, o: TransactionOutput, txIndex: int, c: bool)
    ensures ToString(env, SetIndex(o, txIndex), true) == ToString(env, o, true)
    ensures Verify(env, SetIndex(o, txIndex), c) == Verify(env, o, c)
    ensures VerifyAt(env, o, o.txIndex, c) == Success(true) ==> VerifyAt(env, SetIndex(o, txIndex), txIndex, c) == Success(true)
  {
    SerialisationForms(env, o, o.signature, txIndex);
  }
}
