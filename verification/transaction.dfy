/** `Transaction` of the UTXO ledger (`src/blockchain/transaction.cpp`): inputs spent,
    outputs created, a transaction index fixed when a block takes the transaction, a
    timestamp, and a hash over all of these. */
module Transactions {
  import opened Results
  import opened Primitives
  import Crypto
  import Outputs
  import Inputs

  datatype Transaction = Transaction(
    hash: string,
    txIndex: int,
    time: int,
    inputs: seq<Inputs.TransactionInput>,
    outputs: seq<Outputs.TransactionOutput>)

  /** Σ of the values of the outputs the inputs spend. */
  function InputTotal(ins: seq<Inputs.TransactionInput>): int {
    if |ins| == 0 then 0 else ins[0].prevOut.value + InputTotal(ins[1..])
  }

  /** Σ of the output values. */
  function OutputTotal(outs: seq<Outputs.TransactionOutput>): int {
    if |outs| == 0 then 0 else outs[0].value + OutputTotal(outs[1..])
  }

  /** create_outputs: throws "Insufficient funds!" when the inputs hold less than
      `amount`; otherwise output 0 pays `amount` from author to recipient, and a change
      output from the author back to the author exists exactly when the inputs hold
      more. Nothing else is created, so the outputs hold what the inputs held. */
  function CreateOutputs(ins: seq<Inputs.TransactionInput>, author: string, recipient: string, amount: int, txIndex: int)
    : (r: Result<seq<Outputs.TransactionOutput>>)
    ensures r.Failure? <==> InputTotal(ins) < amount
    ensures r.Failure? ==> r.error == InsufficientFunds
    ensures r.Success? ==>
      && |r.value| == (if InputTotal(ins) > amount then 2 else 1)
      && r.value[0] == Outputs.New(false, author, recipient, amount, txIndex)
      && (|r.value| == 2 ==> r.value[1] == Outputs.New(false, author, author, InputTotal(ins) - amount, txIndex))
      && OutputTotal(r.value) == InputTotal(ins)
  {
    var total := InputTotal(ins);
    if total < amount then Failure(InsufficientFunds)
    else
      var pay := [Outputs.New(false, author, recipient, amount, txIndex)];
      if total - amount > 0 then
        var both := pay + [Outputs.New(false, author, author, total - amount, txIndex)];
        assert both[1..][1..] == [];
        assert OutputTotal(both[1..]) == total - amount;
        Success(both)
      else
        Success(pay)
  }

  function InputsString(env: Env, ins: seq<Inputs.TransactionInput>): string {
    if |ins| == 0 then "" else Inputs.ToString(env, ins[0]) + InputsString(env, ins[1..])
  }

  function OutputsString(env: Env, outs: seq<Outputs.TransactionOutput>): string {
    if |outs| == 0 then "" else Outputs.ToString(env, outs[0], false) + OutputsString(env, outs[1..])
  }

  /** The inputs enter the preimage one after another, in order. */
  lemma {:induction false} InputsStringAppend(env: Env, a: seq<Inputs.TransactionInput>, b: seq<Inputs.TransactionInput>)
    ensures InputsString(env, a + b) == InputsString(env, a) + InputsString(env, b)
    decreases |a|
  {
    if |a| > 0 {
      assert (a + b)[0] == a[0];
      assert (a + b)[1..] == a[1..] + b;
      InputsStringAppend(env, a[1..], b);
    } else {
      assert a + b == b;
    }
  }

  /** The outputs, in their full form, enter the preimage one after another, in order. */
  lemma {:induction false} OutputsStringAppend(env: Env, a: seq<Outputs.TransactionOutput>, b: seq<Outputs.TransactionOutput>)
    ensures OutputsString(env, a + b) == OutputsString(env, a) + OutputsString(env, b)
    decreases |a|
  {
    if |a| > 0 {
      assert (a + b)[0] == a[0];
      assert (a + b)[1..] == a[1..] + b;
      OutputsStringAppend(env, a[1..], b);
    } else {
      assert a + b == b;
    }
  }

  /** to_string, the hash preimage: tx_index, time, every input's to_string, every
      output's full form. The transaction's own hash is not part of it. */
  function ToString(env: Env, t: Transaction): string {
    env.showInt(t.txIndex) + env.showInt(t.time) + InputsString(env, t.inputs) + OutputsString(env, t.outputs)
  }

  predicate VerifyHash(env: Env, t: Transaction) {
    t.hash == Crypto.Sha256(env, ToString(env, t))
  }

  /** calculate_hash: only the hash changes, and afterwards it verifies. */
  function CalculateHash(env: Env, t: Transaction): (r: Transaction)
    ensures VerifyHash(env, r)
    ensures r == t.(hash := r.hash)
  {
    t.(hash := Crypto.Sha256(env, ToString(env, t)))
  }

  /** The constructor from inputs, author, recipient and amount (`time` is the clock
      reading of set_timestamp): throws when the inputs hold less than `amount`;
      otherwise the transaction has index 0, the outputs of create_outputs, the inputs
      given, and a valid hash. */
  function New(env: Env, ins: seq<Inputs.TransactionInput>, author: string, recipient: string, amount: int, time: int)
    : (r: Result<Transaction>)
    ensures r.Failure? <==> InputTotal(ins) < amount
    ensures r.Failure? ==> r.error == InsufficientFunds
    ensures r.Success? ==>
      && r.value.txIndex == 0 && r.value.time == time && r.value.inputs == ins
      && r.value.outputs == CreateOutputs(ins, author, recipient, amount, 0).value
      && OutputTotal(r.value.outputs) == InputTotal(ins)
      && VerifyHash(env, r.value)
  {
    var outs :- CreateOutputs(ins, author, recipient, amount, 0);
    Success(CalculateHash(env, Transaction("", 0, time, ins, outs)))
  }

  /** The constructor from inputs and ready-made outputs: index 0 and a valid hash. */
  function NewFromOutputs(env: Env, ins: seq<Inputs.TransactionInput>, outs: seq<Outputs.TransactionOutput>, time: int)
    : (r: Transaction)
    ensures r.txIndex == 0 && r.time == time && r.inputs == ins && r.outputs == outs
    ensures VerifyHash(env, r)
  {
    CalculateHash(env, Transaction("", 0, time, ins, outs))
  }

  /** The input loop of verify: false at the first input that is not valid, and an
      exception of an input's verify propagates. */
  function VerifyInputs(env: Env, ins: seq<Inputs.TransactionInput>, isCoinbase: bool): (r: Result<bool>)
    ensures r == Success(true) <==> forall k :: 0 <= k < |ins| ==> Inputs.Verify(env, ins[k], isCoinbase) == Success(true)
    ensures isCoinbase ==> r.Success?
  {
    if |ins| == 0 then Success(true)
    else
      var ok :- Inputs.Verify(env, ins[0], isCoinbase);
      if !ok then Success(false) else VerifyInputs(env, ins[1..], isCoinbase)
  }

  /** The output loop of verify: every output is checked against the transaction's
      index, false at the first that is not valid. */
  function VerifyOutputs(env: Env, outs: seq<Outputs.TransactionOutput>, txIndex: int, isCoinbase: bool): (r: Result<bool>)
    ensures r == Success(true) <==>
      forall k :: 0 <= k < |outs| ==> Outputs.VerifyAt(env, outs[k], txIndex, isCoinbase) == Success(true)
    ensures isCoinbase ==> r.Success?
  {
    if |outs| == 0 then Success(true)
    else
      var ok :- Outputs.VerifyAt(env, outs[0], txIndex, isCoinbase);
      if !ok then Success(false) else VerifyOutputs(env, outs[1..], txIndex, isCoinbase)
  }

  /** verify(is_coinbase): every input verifies, every output verifies against the
      transaction's index, the input total equals the output total, and the hash is
      valid. The balance check applies to a coinbase as well. Verifying as coinbase
      never throws. */
  function Verify(env: Env, t: Transaction, isCoinbase: bool): (r: Result<bool>)
    ensures r == Success(true) <==>
      && (forall k :: 0 <= k < |t.inputs| ==> Inputs.Verify(env, t.inputs[k], isCoinbase) == Success(true))
      && (forall k :: 0 <= k < |t.outputs| ==> Outputs.VerifyAt(env, t.outputs[k], t.txIndex, isCoinbase) == Success(true))
      && InputTotal(t.inputs) == OutputTotal(t.outputs)
      && VerifyHash(env, t)
    ensures isCoinbase ==> r.Success?
  {
    var insOk :- VerifyInputs(env, t.inputs, isCoinbase);
    if !insOk then Success(false)
    else
      var outsOk :- VerifyOutputs(env, t.outputs, t.txIndex, isCoinbase);
      if !outsOk then Success(false)
      else Success(InputTotal(t.inputs) == OutputTotal(t.outputs) && VerifyHash(env, t))
  }

  /** The loop of set_index over the outputs, used by SetIndex. */
  function SetOutputsIndex(outs: seq<Outputs.TransactionOutput>, txIndex: int): (r: seq<Outputs.TransactionOutput>)
    ensures |r| == |outs|
    ensures forall k :: 0 <= k < |r| ==> r[k] == Outputs.SetIndex(outs[k], txIndex)
  {
    seq(|outs|, k requires 0 <= k < |outs| => Outputs.SetIndex(outs[k], txIndex))
  }

  lemma {:induction false} ReindexKeepsTotal(outs: seq<Outputs.TransactionOutput>, txIndex: int)
    ensures OutputTotal(SetOutputsIndex(outs, txIndex)) == OutputTotal(outs)
    decreases |outs|
  {
    if |outs| > 0 {
      assert SetOutputsIndex(outs, txIndex)[1..] == SetOutputsIndex(outs[1..], txIndex);
      ReindexKeepsTotal(outs[1..], txIndex);
    }
  }

  /** set_index: the transaction and every one of its outputs get the new index, the
      hash is recomputed; inputs, time, output count and output values are unchanged. */
  function SetIndex(env: Env, t: Transaction, txIndex: int): (r: Transaction)
    ensures r.txIndex == txIndex && r.inputs == t.inputs && r.time == t.time
    ensures |r.outputs| == |t.outputs|
    ensures forall k :: 0 <= k < |r.outputs| ==> r.outputs[k] == t.outputs[k].(txIndex := txIndex)
    ensures OutputTotal(r.outputs) == OutputTotal(t.outputs)
    ensures VerifyHash(env, r)
  {
    ReindexKeepsTotal(t.outputs, txIndex);
    CalculateHash(env, t.(txIndex := txIndex, outputs := SetOutputsIndex(t.outputs, txIndex)))
  }

  /** Re-indexing keeps a valid transaction valid: the output signing form leaves the
      index out, the outputs move to the new index together with the transaction, and
      the hash is recomputed. */
  lemma SetIndexPreservesVerify(env: Env, t: Transaction, txIndex: int, isCoinbase: bool)
    requires Verify(env, t, isCoinbase) == Success(true)
    ensures Verify(env, SetIndex(env, t, txIndex), isCoinbase) == Success(true)
  {
    var r := SetIndex(env, t, txIndex);
    forall k | 0 <= k < |r.outputs|
      ensures Outputs.VerifyAt(env, r.outputs[k], txIndex, isCoinbase) == Success(true)
    {
      assert Outputs.VerifyAt(env, t.outputs[k], t.txIndex, isCoinbase) == Success(true);
      Outputs.SetIndexKeepsValidity(env, t.outputs[k], t.txIndex, isCoinbase);
      Outputs.SetIndexKeepsValidity(env, t.outputs[k], txIndex, isCoinbase);
      assert r.outputs[k] == Outputs.SetIndex(t.outputs[k], txIndex);
    }
  }
}
