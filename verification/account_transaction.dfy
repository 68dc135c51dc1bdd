/** `Transaction` of the account-style prototype (`src/transaction.cpp`): an amount sent
    from an author to a recipient under an id, signed by the author. The signature is
    kept hex-encoded and enters the hash, but not the signed message. The prototype's
    private `to_hex` / `from_hex` are the codec of `Crypto`. */
module AccountTransactions {
  import opened Results
  import opened Primitives
  import Crypto

  datatype Transaction = Transaction(
    author: string,
    recipient: string,
    /** a C++ `float`; only its rendering and its sign matter here */
    amount: real,
    id: int,
    hash: string,
    /** hex-encoded; empty while the transaction is unsigned */
    signature: string)

  /** to_string(include_signature): author, recipient, amount and id separated by dots;
      with `include_signature` a dot and the signature follow, but only when there is a
      signature. */
  function ToString(env: Env, t: Transaction, includeSignature: bool): string {
    t.author + "." + t.recipient + "." + env.showReal(t.amount) + "." + env.showInt(t.id)
    + (if includeSignature && t.signature != "" then "." + t.signature else "")
  }

  /** The two forms: the signed form extends the message form by ".signature" exactly
      when there is a signature, and the message form sees neither the signature nor
      the hash. */
  lemma SerialisationForms(env: Env, t: Transaction, signature: string, hash: string)
    ensures t.signature == "" ==> ToString(env, t, true) == ToString(env, t, false)
    ensures t.signature != "" ==> ToString(env, t, true) == ToString(env, t, false) + "." + t.signature
    ensures ToString(env, t.(signature := signature, hash := hash), false) == ToString(env, t, false)
  {
  }

  /** verify_hash: the hash is sha256 of the form with the signature. */
  predicate VerifyHash(env: Env, t: Transaction) {
    t.hash == Crypto.Sha256(env, ToString(env, t, true))
  }

  /** calculate_hash: only the hash changes, and afterwards it verifies. */
  function CalculateHash(env: Env, t: Transaction): (r: Transaction)
    ensures VerifyHash(env, r)
    ensures r == t.(hash := r.hash)
  {
    t.(hash := Crypto.Sha256(env, ToString(env, t, true)))
  }

  /** The constructor: the fields given, no signature, and a valid hash. */
  function New(env: Env, author: string, recipient: string, amount: real, id: int): (r: Transaction)
    ensures r.author == author && r.recipient == recipient && r.amount == amount && r.id == id
    ensures r.signature == ""
    ensures VerifyHash(env, r)
  {
    CalculateHash(env, Transaction(author, recipient, amount, id, "", ""))
  }

  /** get_signature: the raw signature, decoded from hex; an odd-length signature
      throws. */
  function GetSignature(t: Transaction): (r: Result<string>)
    ensures r.Failure? <==> |t.signature| % 2 != 0
    ensures r.Failure? ==> r.error == MalformedHex
    ensures r.Success? ==> |r.value| == |t.signature| / 2
  {
    Crypto.FromHex(t.signature)
  }

  /** set_signature: the raw signature is stored hex-encoded (empty stays empty) and the
      hash is recomputed; nothing else changes. */
  function SetSignature(env: Env, t: Transaction, signature: string): (r: Transaction)
    ensures r == t.(signature := r.signature, hash := r.hash)
    ensures |r.signature| == 2 * |signature|
    ensures Crypto.IsHex(r.signature)
    ensures VerifyHash(env, r)
  {
    Crypto.ToHexIsHex(signature);
    CalculateHash(env, t.(signature := Crypto.ToHex(signature)))
  }

  /** get_signature after set_signature gives back the raw signature. */
  lemma GetSetSignature(env: Env, t: Transaction, signature: string)
    requires IsBytes(signature)
    ensures GetSignature(SetSignature(env, t, signature)) == Success(signature)
  {
    Crypto.FromHexToHex(signature);
  }

  /** set_signature with what get_signature reads out of an even-length upper-case hex
      signature stores that very signature again. */
  lemma SetGetSignature(env: Env, t: Transaction)
    requires |t.signature| % 2 == 0 && Crypto.IsHex(t.signature)
    ensures GetSignature(t).Success?
    ensures SetSignature(env, t, GetSignature(t).value).signature == t.signature
  {
    Crypto.ToHexFromHex(t.signature);
  }

  /** What a successful signature check needs: a signature, an author key OpenSSL
      accepts, an even-length hex signature, and a signature valid over the form
      without the signature. */
  predicate Signed(env: Env, t: Transaction) {
    && t.signature != ""
    && env.keyParses(t.author)
    && |t.signature| % 2 == 0
    && env.sigValid(t.author, ToString(env, t, false), Crypto.FromHex(t.signature).value)
  }

  /** verify_signature: an empty signature throws, and so do an author key OpenSSL
      cannot use and a signature get_signature cannot decode; otherwise the result is
      the signature check over to_string(false). */
  function VerifySignature(env: Env, t: Transaction): (r: Result<bool>)
    ensures t.signature == "" ==> r == Failure(Unsigned)
    ensures r.Failure? <==> t.signature == "" || !env.keyParses(t.author) || |t.signature| % 2 != 0
    ensures r == Success(true) <==> Signed(env, t)
  {
    if t.signature == "" then Failure(Unsigned)
    else if !env.keyParses(t.author) then Failure(KeyRejected)
    else
      var sig :- GetSignature(t);
      Success(env.sigValid(t.author, ToString(env, t, false), sig))
  }

  /** verify: the signature check runs first and its exception propagates, so an
      unsigned transaction throws rather than being invalid; otherwise it needs a valid
      signature and hash, a positive amount, an author, and a recipient other than the
      author. */
  function Verify(env: Env, t: Transaction): (r: Result<bool>)
    ensures t.signature == "" ==> r == Failure(Unsigned)
    ensures r.Failure? <==> VerifySignature(env, t).Failure?
    ensures r == Success(true) <==>
      && Signed(env, t) && VerifyHash(env, t) && t.amount > 0.0
      && t.author != "" && t.recipient != "" && t.recipient != t.author
  {
    var sigOk :- VerifySignature(env, t);
    Success(VerifyHash(env, t) && sigOk && t.amount > 0.0 && t.author != "" && t.recipient != "" && t.author != t.recipient)
  }

  /** Signing a fresh transaction: because the signed message leaves the signature
      out, a signature made over the unsigned transaction's message verifies once it is
      set, and the whole transaction is valid when its fields are. */
  lemma SignedNewVerifies(env: Env, author: string, recipient: string, amount: real, id: int, signature: string)
    requires IsBytes(signature) && signature != ""
    requires env.keyParses(author)
    requires env.sigValid(author, ToString(env, New(env, author, recipient, amount, id), false), signature)
    requires amount > 0.0 && author != "" && recipient != "" && recipient != author
    ensures Verify(env, SetSignature(env, New(env, author, recipient, amount, id), signature)) == Success(true)
  {
    var t := New(env, author, recipient, amount, id);
    var s := SetSignature(env, t, signature);
    GetSetSignature(env, t, signature);
    SerialisationForms(env, t, s.signature, s.hash);
    assert ToString(env, s, false) == ToString(env, t, false);
  }
}
