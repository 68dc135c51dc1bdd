/** `TransactionInput` of the UTXO ledger (`src/blockchain/transaction_input.cpp`): a copy
    of a previous output together with a hash that commits to that copy's full form. */
module Inputs {
  import opened Results
  import opened Primitives
  import Crypto
  import Outputs

  datatype TransactionInput = TransactionInput(hash: string, prevOut: Outputs.TransactionOutput)

  /** verify_hash: the hash is sha256 of the previous output's full form, so it covers
      that output's signature and transaction index as well. */
  predicate VerifyHash(env: Env, i: TransactionInput) {
    i.hash == Crypto.Sha256(env, Outputs.ToString(env, i.prevOut, false))
  }

  /** calculate_hash: only the hash changes, and afterwards it verifies. */
  function CalculateHash(env: Env, i: TransactionInput): (r: TransactionInput)
    ensures VerifyHash(env, r)
    ensures r.prevOut == i.prevOut
  {
    i.(hash := Crypto.Sha256(env, Outputs.ToString(env, i.prevOut, false)))
  }

  /** The constructor: copies the output and computes the hash, so a fresh input
      always passes verify_hash and verifies exactly when the copied output does. */
  function New(env: Env, out: Outputs.TransactionOutput): (r: TransactionInput)
    ensures r.prevOut == out
    ensures VerifyHash(env, r)
    ensures forall c :: Verify(env, r, c) == Outputs.Verify(env, out, c)
  {
    CalculateHash(env, TransactionInput("", out))
  }

  /** to_string: the hash followed by the previous output's full form; for an input
      with a valid hash it is determined by the previous output alone. */
  function ToString(env: Env, i: TransactionInput): (r: string)
    ensures VerifyHash(env, i) ==>
      r == Crypto.Sha256(env, Outputs.ToString(env, i.prevOut, false)) + Outputs.ToString(env, i.prevOut, false)
  {
    i.hash + Outputs.ToString(env, i.prevOut, false)
  }

  /** verify(is_coinbase_input): the hash is checked first, so an input with a bad hash
      is `false` even when its output would throw; otherwise it is the output's own
      verify. A coinbase input never throws. */
  function Verify(env: Env, i: TransactionInput, isCoinbase: bool): (r: Result<bool>)
    ensures !VerifyHash(env, i) ==> r == Success(false)
    ensures VerifyHash(env, i) ==> r == Outputs.Verify(env, i.prevOut, isCoinbase)
    ensures isCoinbase ==> r.Success?
    ensures r == Success(true) <==> VerifyHash(env, i) && Outputs.Verify(env, i.prevOut, isCoinbase) == Success(true)
  {
    if !VerifyHash(env, i) then Success(false)
    else Outputs.Verify(env, i.prevOut, isCoinbase)
  }

  /** The hash of a fresh input covers the output's signature and index: it is sha256
      of signature, index and signing form, in that order. */
  lemma HashCoversSignatureAndIndex(env: Env, out: Outputs.TransactionOutput)
    ensures New(env, out).hash ==
      Crypto.Sha256(env, out.signature + env.showInt(out.txIndex) + Outputs.ToString(env, out, true))
  {
    Outputs.SerialisationForms(env, out, out.signature, out.txIndex);
  }
}
