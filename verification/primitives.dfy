/** The collaborators the ledger calls but does not define: OpenSSL's SHA-256 and
    signature verification, PEM public-key parsing, and the decimal rendering that
    `std::ostream <<` gives integers and floats. They are passed in as an `Env`, so
    every property proved here holds for every choice of them. */
module Primitives {

  /** A C++ `std::string` holds bytes: a char of the model stands for one byte. */
  predicate IsBytes(s: string) {
    forall i :: 0 <= i < |s| ==> s[i] as int < 256
  }

  /** The raw output of SHA-256: 32 bytes. */
  type Digest = d: string | |d| == 32 && IsBytes(d) witness "00000000000000000000000000000000"

  datatype Env = Env(
    /** SHA256_Init / SHA256_Update / SHA256_Final over the bytes of the argument */
    digest: string -> Digest,
    /** whether PEM_read_bio_PUBKEY yields a key usable by EVP_DigestVerifyInit */
    keyParses: string -> bool,
    /** EVP_DigestVerifyFinal(author key, message, raw signature), read as a C++ bool */
    sigValid: (string, string, string) -> bool,
    /** `stream << n` for an integer `n` (long, int, long long, milliseconds count) */
    showInt: int -> string,
    /** `stream << x` for a float `x` */
    showReal: real -> string)

  /** Extending a prefix by one element. */
  lemma TakeOneMore<T>(s: seq<T>, k: int)
    requires 0 <= k < |s|
    ensures s[..k + 1] == s[..k] + [s[k]]
  {
  }
}
